/** The login callback as it runs: look up, check, link, stamp, in one transaction. */
module OidcService {
  import opened Outcome
  import opened Oidc

  function KeySet(ids: seq<Identity>): (keys: set<Identity>) {
    set k | k in ids
  }

  /** The identity index once a user's identities went from prev to next. */
  function Reindexed(m: map<Identity, string>, prev: set<Identity>, next: set<Identity>, id: string)
    : (m': map<Identity, string>)
  {
    (m - (prev - next)) + map k | k in next - prev :: id
  }

  /** Every identity new to the user is free, or already indexed to that user. */
  predicate Free(m: map<Identity, string>, prev: set<Identity>, next: set<Identity>, id: string) {
    forall k :: k in next - prev && k in m ==> m[k] == id
  }

  function Rewritten(m: map<string, string>, prev: string, next: string, id: string): (m': map<string, string>) {
    if prev == next then m
    else var rest := if prev != "" then m - {prev} else m;
      if next == "" then rest else rest[next := id]
  }

  class UserStore {
    var users: map<string, User>
    var byIdentity: map<Identity, string>
    var byEmail: map<string, string>

    ghost function Now(): (b: Book)
      reads this
    {
      Book(users, byIdentity, byEmail)
    }

    constructor (b: Book)
      ensures Now() == b
    {
      users, byIdentity, byEmail := b.users, b.byIdentity, b.byEmail;
    }

    /** Drop the stale entries, then claim the new ones; an entry held by another user stops it. */
    method ReconcileIdentityIndex(prev: set<Identity>, next: set<Identity>, id: string) returns (ok: bool)
      modifies this`byIdentity
      ensures ok <==> Free(old(byIdentity), prev, next, id)
      ensures ok ==> byIdentity == Reindexed(old(byIdentity), prev, next, id)
    {
      ghost var m := byIdentity;
      DropEntries(prev - next);
      ok := ClaimEntries(next - prev, id);
      assert forall k :: k in next - prev ==> (k in m <==> k in m - (prev - next));
    }

    method DropEntries(stale: set<Identity>)
      modifies this`byIdentity
      ensures byIdentity == old(byIdentity) - stale
    {
      ghost var m, done := byIdentity, {};
      var todo := stale;
      while todo != {}
        invariant todo <= stale && done == stale - todo && byIdentity == m - done
        decreases todo
      {
        var k :| k in todo;
        byIdentity := byIdentity - {k};
        todo := todo - {k};
        done := done + {k};
      }
      assert done == stale;
    }

    method ClaimEntries(added: set<Identity>, id: string) returns (ok: bool)
      modifies this`byIdentity
      ensures ok <==> forall k :: k in added && k in old(byIdentity) ==> old(byIdentity)[k] == id
      ensures ok ==> byIdentity == old(byIdentity) + map k | k in added :: id
    {
      ghost var m := byIdentity;
      var todo := added;
      while todo != {}
        invariant todo <= added
        invariant forall k :: k in byIdentity <==> k in m || k in added - todo
        invariant forall k :: k in byIdentity ==> byIdentity[k] == if k in added - todo then id else m[k]
        invariant forall k :: k in added - todo && k in m ==> m[k] == id
        decreases todo
      {
        var k :| k in todo;
        if k in byIdentity && byIdentity[k] != id { return false; }
        byIdentity := byIdentity[k := id];
        todo := todo - {k};
      }
      return true;
    }

    method ReconcileEmailIndex(prev: string, next: string, id: string) returns (ok: bool)
      modifies this`byEmail
      ensures ok <==> prev == next || next == "" || next !in old(byEmail) || old(byEmail)[next] == id
      ensures ok ==> byEmail == Rewritten(old(byEmail), prev, next, id)
    {
      if prev == next { return true; }
      if prev != "" { byEmail := byEmail - {prev}; }
      if next == "" { return true; }
      if next in byEmail && byEmail[next] != id { return false; }
      byEmail := byEmail[next := id];
      return true;
    }

    /** The repository's Update. A refusal may leave the indexes half written: the transaction undoes it. */
    method Update(id: string, u: User) returns (e: Option<Error>)
      requires id in users
      modifies this
      ensures e.None? <==> Free(old(byIdentity), KeySet(old(users)[id].identities), KeySet(u.identities), id)
                           && (old(users)[id].email == u.email || u.email == "" || u.email !in old(byEmail) ||
                               old(byEmail)[u.email] == id)
      ensures e.None? ==> users == old(users)[id := u]
      ensures e.None? ==>
        byIdentity == Reindexed(old(byIdentity), KeySet(old(users)[id].identities), KeySet(u.identities), id)
      ensures e.None? ==> byEmail == Rewritten(old(byEmail), old(users)[id].email, u.email, id)
      ensures e.Some? ==> e.value in {IdentityTaken, AlreadyExists}
      ensures old(users)[id].email == u.email && e.Some? ==> e.value == IdentityTaken
    {
      var prev := users[id];
      var ok := ReconcileIdentityIndex(KeySet(prev.identities), KeySet(u.identities), id);
      if !ok { return Some(IdentityTaken); }
      ok := ReconcileEmailIndex(prev.email, u.email, id);
      if !ok { return Some(AlreadyExists); }
      users := users[id := u];
      return None;
    }

    /** Exactly Append's outcome; on a refusal the caller's transaction is undone. */
    method LinkIdentity(id: string, k: Identity) returns (e: Option<Error>)
      requires id in users
      modifies this
      ensures var r := Append(old(Now()), id, k);
        if r.Ok? then e.None? && Now() == r.value.0 else e == Some(r.error)
    {
      var u := users[id];
      if u.system && |u.identities| > 0 { return Some(SystemImmutable); }
      var i := 0;
      while i < |u.identities|
        invariant i <= |u.identities| && k !in u.identities[..i]
        invariant unchanged(this)
      {
        if u.identities[i] == k { return None; }
        i := i + 1;
      }
      assert u.identities[..i] == u.identities;
      NewKeyOnly(u.identities, k, byIdentity, id);
      e := Update(id, u.(identities := u.identities + [k]));
    }

    method RecordLogin(id: string, now: nat)
      requires id in users
      modifies this
      ensures Now() == Stamped(old(Now()), id, now)
    {
      var u := users[id];
      SameKeys(byIdentity, KeySet(u.identities), id);
      var e := Update(id, u.(lastLogin := now));
    }

    method GetByEmail(norm: Normalizer, email: string) returns (r: Result<string, Error>)
      ensures r == FindByEmail(Now(), norm, email)
    {
      var n := norm(email);
      if n.None? { return Err(Invalid); }
      if n.value !in byEmail { return Err(NotProvisioned); }
      if byEmail[n.value] !in users { return Err(NotProvisioned); }
      return Ok(byEmail[n.value]);
    }

    method LinkOidcByEmail(norm: Normalizer, c: Claim) returns (r: Result<string, Error>)
      modifies this
      ensures var spec := LinkByEmail(old(Now()), norm, c);
        if spec.Ok? then r == Ok(spec.value.1) && Now() == spec.value.0 else r == Err(spec.error)
    {
      if !c.verified || c.email == "" { return Err(NotProvisioned); }
      var normalized := norm(c.email);
      if normalized.None? { return Err(NotProvisioned); }
      var found := GetByEmail(norm, normalized.value);
      if found.Err? { return Err(found.error); }
      var taken := HoldsProvider(users[found.value].identities);
      if taken { return Err(NotProvisioned); }
      if c.subject == "" { return Err(Invalid); }
      var e := LinkIdentity(found.value, Subject(c));
      if e.Some? { return Err(e.value); }
      return Ok(found.value);
    }

    /** The anti-hijack scan. */
    method HoldsProvider(ids: seq<Identity>) returns (taken: bool)
      ensures taken <==> HasProvider(ids, OIDC)
    {
      var i := 0;
      while i < |ids|
        invariant i <= |ids|
        invariant forall j :: 0 <= j < i ==> ids[j].provider != OIDC
      {
        if ids[i].provider == OIDC {
          assert ids[i] in ids;
          return true;
        }
        i := i + 1;
      }
      return false;
    }

    /** The whole callback after the code exchange. Whatever fails, and however late, nothing is left. */
    method Callback(norm: Normalizer, c: Claim, now: nat, session: bool) returns (r: Result<string, Error>)
      modifies this
      ensures var spec := LoggedIn(old(Now()), norm, c, now, session);
        if spec.Ok? then r == Ok(spec.value.1) && Now() == spec.value.0 else r == Err(spec.error) && Now() == old(Now())
    {
      var savedUsers, savedIdentities, savedEmails := users, byIdentity, byEmail;
      if Subject(c) in byIdentity && byIdentity[Subject(c)] in users {
        r := Ok(byIdentity[Subject(c)]);
      } else {
        r := LinkOidcByEmail(norm, c);
      }
      if r.Ok? && !users[r.value].active {
        r := Err(Deactivated);
      }
      if r.Ok? {
        RecordLogin(r.value, now);
        if !session { r := Err(SessionFailed); }
      }
      if r.Err? {
        users, byIdentity, byEmail := savedUsers, savedIdentities, savedEmails;
      }
    }
  }

  lemma NewKeyOnly(ids: seq<Identity>, k: Identity, m: map<Identity, string>, id: string)
    requires k !in ids
    ensures var prev, next := KeySet(ids), KeySet(ids + [k]);
      && (Free(m, prev, next, id) <==> (k in m ==> m[k] == id))
      && Reindexed(m, prev, next, id) == m[k := id]
  {
    var prev, next := KeySet(ids), KeySet(ids + [k]);
    assert next - prev == {k} && prev - next == {};
  }

  lemma SameKeys(m: map<Identity, string>, keys: set<Identity>, id: string)
    ensures Free(m, keys, keys, id) && Reindexed(m, keys, keys, id) == m
  {
    assert keys - keys == {};
  }
}
