/** First-login linking: how an OIDC subject finds its user, and keeps it. */
module Oidc {
  import opened Outcome

  datatype Identity = Identity(provider: string, subject: string)

  datatype User = User(email: string, system: bool, active: bool, identities: seq<Identity>, lastLogin: nat)

  /** The users and the two indexes that find them. */
  datatype Book = Book(users: map<string, User>, byIdentity: map<Identity, string>, byEmail: map<string, string>)

  datatype Claim = Claim(subject: string, email: string, verified: bool)

  datatype Error =
    | NotProvisioned | Invalid | SystemImmutable | IdentityTaken
    | Deactivated | SessionFailed | AlreadyExists | NotFound

  /** NormalizeEmail, of which only the outcome matters here. */
  type Normalizer = string -> Option<string>

  const OIDC := "oidc"
  const BASIC := "basic"

  function Subject(c: Claim): (k: Identity) {
    Identity(OIDC, c.subject)
  }

  predicate HasProvider(ids: seq<Identity>, provider: string) {
    exists k :: k in ids && k.provider == provider
  }

  // ---------------------------------------------------------------- what a callback does

  function Linked(b: Book, id: string, k: Identity): (b': Book)
    requires id in b.users
  {
    Book(b.users[id := b.users[id].(identities := b.users[id].identities + [k])], b.byIdentity[k := id], b.byEmail)
  }

  function Stamped(b: Book, id: string, now: nat): (b': Book)
    requires id in b.users
  {
    b.(users := b.users[id := b.users[id].(lastLogin := now)])
  }

  /** LinkIdentity: append only, and a system user takes its first identity and no other. */
  function Append(b: Book, id: string, k: Identity): (r: Result<(Book, string), Error>)
    requires id in b.users
  {
    if b.users[id].system && b.users[id].identities != [] then Err(SystemImmutable)
    else if k in b.users[id].identities then Ok((b, id))
    else if k in b.byIdentity && b.byIdentity[k] != id then Err(IdentityTaken)
    else Ok((Linked(b, id, k), id))
  }

  /** GetByEmail, which normalizes once more. */
  function FindByEmail(b: Book, norm: Normalizer, email: string): (r: Result<string, Error>) {
    var n := norm(email);
    if n.None? then Err(Invalid)
    else if n.value in b.byEmail && b.byEmail[n.value] in b.users then Ok(b.byEmail[n.value])
    else Err(NotProvisioned)
  }

  function LinkByEmail(b: Book, norm: Normalizer, c: Claim): (r: Result<(Book, string), Error>) {
    if !c.verified || c.email == "" || norm(c.email).None? then Err(NotProvisioned)
    else
      var found := FindByEmail(b, norm, norm(c.email).value);
      if found.Err? then Err(found.error)
      else if HasProvider(b.users[found.value].identities, OIDC) then Err(NotProvisioned)
      else if c.subject == "" then Err(Invalid)
      else Append(b, found.value, Subject(c))
  }

  function Resolve(b: Book, norm: Normalizer, c: Claim): (r: Result<(Book, string), Error>)
    ensures r.Ok? ==> r.value.1 in r.value.0.users
  {
    if Subject(c) in b.byIdentity && b.byIdentity[Subject(c)] in b.users then Ok((b, b.byIdentity[Subject(c)]))
    else LinkByEmail(b, norm, c)
  }

  function LoggedIn(b: Book, norm: Normalizer, c: Claim, now: nat, session: bool): (r: Result<(Book, string), Error>) {
    var found := Resolve(b, norm, c);
    if found.Err? then found
    else if !found.value.0.users[found.value.1].active then Err(Deactivated)
    else if !session then Err(SessionFailed)
    else Ok((Stamped(found.value.0, found.value.1, now), found.value.1))
  }

  // ---------------------------------------------------------------- what else happens to users

  datatype Action =
    | Login(claim: Claim, now: nat, session: bool)
    | Create(id: string, email: string, password: bool)
    | SetActive(id: string, active: bool)

  function Created(b: Book, id: string, email: string, password: bool): (r: Result<(Book, string), Error>) {
    var k := Identity(BASIC, email);
    var ids := if password then [k] else [];
    if id in b.users || (email != "" && email in b.byEmail) || (password && k in b.byIdentity) then Err(AlreadyExists)
    else Ok((Book(b.users[id := User(email, false, true, ids, 0)],
                  if password then b.byIdentity[k := id] else b.byIdentity,
                  if email == "" then b.byEmail else b.byEmail[email := id]), id))
  }

  function Switched(b: Book, id: string, active: bool): (r: Result<(Book, string), Error>) {
    if id !in b.users then Err(NotFound)
    else if b.users[id].system then Err(SystemImmutable)
    else if b.users[id].active == active then Err(Invalid)
    else Ok((b.(users := b.users[id := b.users[id].(active := active)]), id))
  }

  function Perform(b: Book, norm: Normalizer, a: Action): (r: Result<(Book, string), Error>) {
    match a
    case Login(c, now, session) => LoggedIn(b, norm, c, now, session)
    case Create(id, email, password) => Created(b, id, email, password)
    case SetActive(id, active) => Switched(b, id, active)
  }

  function After(b: Book, norm: Normalizer, a: Action): (b': Book) {
    var r := Perform(b, norm, a);
    if r.Ok? then r.value.0 else b
  }

  // ---------------------------------------------------------------- what every step keeps

  predicate OnePer(ids: seq<Identity>) {
    forall i, j :: 0 <= i < j < |ids| ==> !(ids[i].provider == OIDC && ids[j].provider == OIDC)
  }

  predicate Owns(u: User, k: Identity) {
    k in u.identities
  }

  ghost predicate IdentitiesIndexed(b: Book) {
    && (forall k :: k in b.byIdentity ==> b.byIdentity[k] in b.users && Owns(b.users[b.byIdentity[k]], k))
    && (forall id, k :: id in b.users && Owns(b.users[id], k) ==> k in b.byIdentity && b.byIdentity[k] == id)
  }

  ghost predicate EmailsIndexed(b: Book) {
    && (forall e :: e in b.byEmail ==> b.byEmail[e] in b.users && b.users[b.byEmail[e]].email == e)
    && (forall id :: id in b.users && b.users[id].email != "" ==>
          b.users[id].email in b.byEmail && b.byEmail[b.users[id].email] == id)
  }

  ghost predicate OneEach(b: Book) {
    forall id :: id in b.users ==> OnePer(b.users[id].identities)
  }

  /** The indexes say what the users say, and nobody has two identities of the provider. */
  ghost predicate Sound(b: Book) {
    IdentitiesIndexed(b) && EmailsIndexed(b) && OneEach(b)
  }

  /** Nothing is lost or rewritten: users stay, identities are only appended, a system user's never change
      once there are any, and every indexed identity keeps its user. */
  ghost predicate Extends(b: Book, b': Book) {
    && (forall k :: k in b.byIdentity ==> k in b'.byIdentity && b'.byIdentity[k] == b.byIdentity[k])
    && (forall id :: id in b.users ==> id in b'.users && Grew(b.users[id], b'.users[id]))
  }

  predicate Grew(u: User, u': User) {
    && u.identities <= u'.identities
    && u'.email == u.email && u'.system == u.system
    && (u.system && u.identities != [] ==> u'.identities == u.identities)
  }

  lemma LinkKeeps(b: Book, id: string, k: Identity)
    requires Sound(b) && id in b.users && k !in b.byIdentity && k.provider == OIDC
    requires !HasProvider(b.users[id].identities, OIDC)
    requires !(b.users[id].system && b.users[id].identities != [])
    ensures Sound(Linked(b, id, k)) && Extends(b, Linked(b, id, k))
  {
    var u := b.users[id];
    AppendOne(u.identities, k);
    var u' := u.(identities := u.identities + [k]);
    assert forall x :: Owns(u', x) <==> Owns(u, x) || x == k;
    IndexOne(b, id, u', k);
    LinkExtends(b, id, k);
  }

  lemma LinkExtends(b: Book, id: string, k: Identity)
    requires id in b.users && k !in b.byIdentity && !(b.users[id].system && b.users[id].identities != [])
    ensures Extends(b, Linked(b, id, k))
  {
  }

  lemma IndexOne(b: Book, id: string, u': User, k: Identity)
    requires IdentitiesIndexed(b) && id in b.users && k !in b.byIdentity
    requires forall x :: Owns(u', x) <==> Owns(b.users[id], x) || x == k
    ensures IdentitiesIndexed(Book(b.users[id := u'], b.byIdentity[k := id], b.byEmail))
  {
    var b' := Book(b.users[id := u'], b.byIdentity[k := id], b.byEmail);
    forall v, x | v in b'.users && Owns(b'.users[v], x)
      ensures x in b'.byIdentity && b'.byIdentity[x] == v
    {
      assert v != id ==> Owns(b.users[v], x);
    }
  }

  lemma AppendOne(ids: seq<Identity>, k: Identity)
    requires OnePer(ids) && !HasProvider(ids, OIDC)
    ensures OnePer(ids + [k])
  {
    forall i, j | 0 <= i < j < |ids + [k]|
      ensures !((ids + [k])[i].provider == OIDC && (ids + [k])[j].provider == OIDC)
    {
      assert ids[i] in ids;
    }
  }

  lemma StampKeeps(b: Book, id: string, u: User)
    requires Sound(b) && id in b.users && u.identities == b.users[id].identities && u.email == b.users[id].email &&
             u.system == b.users[id].system
    ensures Sound(b.(users := b.users[id := u])) && Extends(b, b.(users := b.users[id := u]))
  {
  }

  lemma ExtendsTransitive(a: Book, b: Book, c: Book)
    requires Extends(a, b) && Extends(b, c)
    ensures Extends(a, c)
  {
  }

  /** What resolving finds: the indexed user as it was, or a fresh link to the user with that email. */
  lemma ResolveKeeps(b: Book, norm: Normalizer, c: Claim)
    requires Sound(b) && Resolve(b, norm, c).Ok?
    ensures var (b', id) := Resolve(b, norm, c).value;
      Sound(b') && Extends(b, b') && Subject(c) in b'.byIdentity && b'.byIdentity[Subject(c)] == id
  {
    if Subject(c) !in b.byIdentity {
      var id := FindByEmail(b, norm, norm(c.email).value).value;
      assert !Owns(b.users[id], Subject(c));
      LinkKeeps(b, id, Subject(c));
    }
  }

  lemma CreateKeeps(b: Book, a: Action)
    requires Sound(b) && a.Create? && Created(b, a.id, a.email, a.password).Ok?
    ensures var b' := Created(b, a.id, a.email, a.password).value.0; Sound(b') && Extends(b, b')
  {
    var b' := Created(b, a.id, a.email, a.password).value.0;
    CreateIndexes(b, a);
    CreateExtends(b, a);
    assert OneEach(b');
  }

  lemma CreateIndexes(b: Book, a: Action)
    requires Sound(b) && a.Create? && Created(b, a.id, a.email, a.password).Ok?
    ensures var b' := Created(b, a.id, a.email, a.password).value.0; IdentitiesIndexed(b') && EmailsIndexed(b')
  {
    var b' := Created(b, a.id, a.email, a.password).value.0;
    assert forall x :: Owns(b'.users[a.id], x) <==> a.password && x == Identity(BASIC, a.email);
    assert EmailsIndexed(b') by {
      forall id | id in b'.users && b'.users[id].email != ""
        ensures b'.users[id].email in b'.byEmail && b'.byEmail[b'.users[id].email] == id
      {
      }
    }
  }

  lemma CreateExtends(b: Book, a: Action)
    requires a.Create? && Created(b, a.id, a.email, a.password).Ok?
    ensures Extends(b, Created(b, a.id, a.email, a.password).value.0)
  {
  }

  lemma StepKeeps(b: Book, norm: Normalizer, a: Action)
    requires Sound(b)
    ensures Sound(After(b, norm, a)) && Extends(b, After(b, norm, a))
  {
    if Perform(b, norm, a).Ok? {
      match a
      case Login(c, now, session) =>
        ResolveKeeps(b, norm, c);
        var (b', id) := Resolve(b, norm, c).value;
        StampKeeps(b', id, b'.users[id].(lastLogin := now));
        ExtendsTransitive(b, b', After(b, norm, a));
      case Create(_, _, _) =>
        CreateKeeps(b, a);
      case SetActive(id, active) =>
        StampKeeps(b, id, b.users[id].(active := active));
    }
  }

  ghost predicate IsRun(bs: seq<Book>, norm: Normalizer, acts: seq<Action>) {
    |bs| == |acts| + 1 && forall i :: 0 <= i < |acts| ==> bs[i + 1] == After(bs[i], norm, acts[i])
  }

  lemma {:induction false} RunKeeps(bs: seq<Book>, norm: Normalizer, acts: seq<Action>, i: nat, j: nat)
    requires IsRun(bs, norm, acts) && Sound(bs[0]) && i <= j <= |acts|
    ensures Sound(bs[i]) && Sound(bs[j]) && Extends(bs[i], bs[j])
    decreases j, i
  {
    if i < j {
      RunKeeps(bs, norm, acts, i, j - 1);
      StepKeeps(bs[j - 1], norm, acts[j - 1]);
      ExtendsTransitive(bs[i], bs[j - 1], bs[j]);
    } else if j > 0 {
      RunKeeps(bs, norm, acts, j - 1, j - 1);
      StepKeeps(bs[j - 1], norm, acts[j - 1]);
    }
  }

  // ---------------------------------------------------------------- main results

  /** Once a subject has logged in as a user, every later login of that subject, whatever email it claims
      by then, is that user or is refused for a reason that has nothing to do with who it is. */
  lemma SubjectKeepsUser(bs: seq<Book>, norm: Normalizer, acts: seq<Action>, i: nat, j: nat)
    requires IsRun(bs, norm, acts) && Sound(bs[0]) && i < j < |acts|
    requires acts[i].Login? && acts[j].Login? && acts[i].claim.subject == acts[j].claim.subject
    requires Perform(bs[i], norm, acts[i]).Ok?
    ensures var r := Perform(bs[j], norm, acts[j]);
      if r.Ok? then r.value.1 == Perform(bs[i], norm, acts[i]).value.1 else r.error in {Deactivated, SessionFailed}
  {
    RunKeeps(bs, norm, acts, i, i);
    RunKeeps(bs, norm, acts, i + 1, j);
    ResolveKeeps(bs[i], norm, acts[i].claim);
  }

  /** And no two subjects ever log in as one user, in either order and however far apart. */
  lemma SubjectsNeverShare(bs: seq<Book>, norm: Normalizer, acts: seq<Action>, i: nat, j: nat)
    requires IsRun(bs, norm, acts) && Sound(bs[0]) && i <= j < |acts|
    requires acts[i].Login? && acts[j].Login? && Perform(bs[i], norm, acts[i]).Ok? && Perform(bs[j], norm, acts[j]).Ok?
    requires Perform(bs[i], norm, acts[i]).value.1 == Perform(bs[j], norm, acts[j]).value.1
    ensures acts[i].claim.subject == acts[j].claim.subject
  {
    RunKeeps(bs, norm, acts, i, j);
    RunKeeps(bs, norm, acts, i + 1, j + 1);
    ResolveKeeps(bs[i], norm, acts[i].claim);
    ResolveKeeps(bs[j], norm, acts[j].claim);
    OneSubject(bs[j + 1], Subject(acts[i].claim), Subject(acts[j].claim));
  }

  lemma OneSubject(b: Book, k: Identity, k': Identity)
    requires Sound(b) && k.provider == OIDC && k'.provider == OIDC
    requires k in b.byIdentity && k' in b.byIdentity && b.byIdentity[k] == b.byIdentity[k']
    ensures k == k'
  {
    var ids := b.users[b.byIdentity[k]].identities;
    assert Owns(b.users[b.byIdentity[k]], k) && Owns(b.users[b.byIdentity[k]], k');
    var i :| 0 <= i < |ids| && ids[i] == k;
    var j :| 0 <= j < |ids| && ids[j] == k';
    assert OnePer(ids);
  }

  /** A subject gains a user only through a verified address that normalizes to that user's, and only a
      user who is active, has no identity of the provider, and is not a settled system user. */
  lemma LinkedOnlyByEmail(b: Book, norm: Normalizer, a: Action, k: Identity)
    requires Sound(b) && k.provider == OIDC && k !in b.byIdentity && k in After(b, norm, a).byIdentity
    ensures a.Login? && Subject(a.claim) == k && a.claim.verified && norm(a.claim.email).Some?
    ensures var id := After(b, norm, a).byIdentity[k];
      && id in b.users && norm(norm(a.claim.email).value) == Some(b.users[id].email)
      && b.users[id].active && !HasProvider(b.users[id].identities, OIDC)
      && !(b.users[id].system && b.users[id].identities != [])
  {
  }

  // ---------------------------------------------------------------- exactly when

  /** The subject is linked to this user already. */
  predicate Known(b: Book, c: Claim, id: string) {
    Subject(c) in b.byIdentity && b.byIdentity[Subject(c)] == id
  }

  /** The subject is linked to nobody, and its verified address is that of a user who can still be linked. */
  predicate Eligible(b: Book, norm: Normalizer, c: Claim, id: string) {
    && Subject(c) !in b.byIdentity && c.subject != "" && c.verified && c.email != "" && norm(c.email).Some?
    && norm(norm(c.email).value).Some? && norm(norm(c.email).value).value in b.byEmail
    && b.byEmail[norm(norm(c.email).value).value] == id && id in b.users
    && !HasProvider(b.users[id].identities, OIDC) && !(b.users[id].system && b.users[id].identities != [])
  }

  predicate Entitled(b: Book, norm: Normalizer, c: Claim, id: string) {
    Known(b, c, id) || Eligible(b, norm, c, id)
  }

  lemma ResolveExact(b: Book, norm: Normalizer, c: Claim, id: string)
    requires Sound(b)
    ensures Resolve(b, norm, c).Ok? && Resolve(b, norm, c).value.1 == id <==> Entitled(b, norm, c, id)
  {
    if Eligible(b, norm, c, id) {
      assert !Owns(b.users[id], Subject(c));
    }
  }

  lemma ResolveKeepsActive(b: Book, norm: Normalizer, c: Claim)
    requires Sound(b) && Resolve(b, norm, c).Ok?
    ensures var (b', id) := Resolve(b, norm, c).value;
            id in b.users && b'.users[id].active == b.users[id].active && b'.users.Keys == b.users.Keys
  {
  }

  /** A login is that user's exactly when the subject is entitled to be that user, the user is active, and the
      session can be made; being inactive is what Deactivated means, and nothing else. */
  lemma LoginExact(b: Book, norm: Normalizer, c: Claim, now: nat, session: bool, id: string)
    requires Sound(b)
    ensures var r := LoggedIn(b, norm, c, now, session);
            && (r.Ok? && r.value.1 == id <==> Entitled(b, norm, c, id) && b.users[id].active && session)
            && (r == Err(Deactivated) <==> exists u :: Entitled(b, norm, c, u) && !b.users[u].active)
            && (r == Err(SessionFailed) <==> !session && exists u :: Entitled(b, norm, c, u) && b.users[u].active)
  {
    forall u ensures Resolve(b, norm, c).Ok? && Resolve(b, norm, c).value.1 == u <==> Entitled(b, norm, c, u) {
      ResolveExact(b, norm, c, u);
    }
    if Resolve(b, norm, c).Ok? {
      ResolveKeepsActive(b, norm, c);
      assert Entitled(b, norm, c, Resolve(b, norm, c).value.1);
    }
  }

  /** The user whose address a claim proves, linked or not. */
  function Addressed(b: Book, norm: Normalizer, c: Claim): (id: Option<string>) {
    if !c.verified || c.email == "" || norm(c.email).None? || norm(norm(c.email).value).None? then None
    else
      var e := norm(norm(c.email).value).value;
      if e in b.byEmail then Some(b.byEmail[e]) else None
  }

  /** Why a subject that is linked to nobody is turned away. */
  lemma RefusedBecause(b: Book, norm: Normalizer, c: Claim, now: nat, session: bool)
    requires Sound(b) && Subject(c) !in b.byIdentity
    ensures var r, id := LoggedIn(b, norm, c, now, session), Addressed(b, norm, c);
            var again := c.verified && c.email != "" && norm(c.email).Some? && norm(norm(c.email).value).None?;
            var open := id.Some? && !HasProvider(b.users[id.value].identities, OIDC);
            && (r == Err(NotProvisioned) <==> !again && !open)
            && (r == Err(Invalid) <==> again || (open && c.subject == ""))
            && (r == Err(SystemImmutable) <==>
                open && c.subject != "" && b.users[id.value].system && b.users[id.value].identities != [])
            && r != Err(IdentityTaken) && r != Err(AlreadyExists) && r != Err(NotFound)
  {
  }

  /** And then it links the subject, if it was not, stamps the user and changes nothing else. */
  lemma LoginLeaves(b: Book, norm: Normalizer, c: Claim, now: nat, session: bool)
    requires Sound(b) && LoggedIn(b, norm, c, now, session).Ok?
    ensures var (b', id) := LoggedIn(b, norm, c, now, session).value;
            && id in b.users && b'.byEmail == b.byEmail && b'.byIdentity == b.byIdentity[Subject(c) := id]
            && b'.users == b.users[id := b.users[id].(lastLogin := now, identities :=
                 b.users[id].identities + (if Known(b, c, id) then [] else [Subject(c)]))]
  {
    var (b', id) := LoggedIn(b, norm, c, now, session).value;
    ResolveExact(b, norm, c, id);
    if Known(b, c, id) {
      assert b.users[id].identities + [] == b.users[id].identities;
      assert b.byIdentity[Subject(c) := id] == b.byIdentity;
    } else {
      assert !Owns(b.users[id], Subject(c));
    }
  }

  /** A user is made exactly under a free id, address and, with a password, login; it is then active, has no other
      identity and has never logged in. */
  lemma CreateExact(b: Book, id: string, email: string, password: bool)
    requires Sound(b)
    ensures var r := Created(b, id, email, password);
            && (r.Ok? <==> id !in b.users && (email != "" ==> forall u :: u in b.users ==> b.users[u].email != email) &&
                           (password ==> forall u :: u in b.users ==> !Owns(b.users[u], Identity(BASIC, email))))
            && (r.Ok? ==> r.value.1 == id && forall u :: u in r.value.0.users <==> u in b.users || u == id)
            && (r.Ok? ==> forall u :: u in b.users ==> r.value.0.users[u] == b.users[u])
            && (r.Ok? ==>
                  r.value.0.users[id] == User(email, false, true, if password then [Identity(BASIC, email)] else [], 0))
  {
    if email in b.byEmail {
      assert b.users[b.byEmail[email]].email == email;
    }
    var k := Identity(BASIC, email);
    if k in b.byIdentity {
      assert Owns(b.users[b.byIdentity[k]], k);
    }
  }

  /** Only an existing, mutable user is switched, and only to the other state. */
  lemma SwitchExact(b: Book, id: string, active: bool)
    ensures var r := Switched(b, id, active);
            && (r.Ok? <==> id in b.users && !b.users[id].system && b.users[id].active != active)
            && (r.Ok? ==> r.value.1 == id && r.value.0.users == b.users[id := b.users[id].(active := active)])
            && (r.Ok? ==> r.value.0.byIdentity == b.byIdentity && r.value.0.byEmail == b.byEmail)
  {
  }

  /** Nothing but being switched changes whether a user is active. */
  lemma ActiveStays(b: Book, norm: Normalizer, a: Action, id: string)
    requires Sound(b) && id in b.users && !(a.SetActive? && a.id == id && Perform(b, norm, a).Ok?)
    ensures id in After(b, norm, a).users && After(b, norm, a).users[id].active == b.users[id].active
  {
    if a.Login? && Perform(b, norm, a).Ok? {
      LoginLeaves(b, norm, a.claim, a.now, a.session);
    }
  }

  lemma {:induction false} InactiveStays(bs: seq<Book>, norm: Normalizer, acts: seq<Action>, id: string, i: nat, j: nat)
    requires IsRun(bs, norm, acts) && Sound(bs[0]) && i <= j <= |acts|
    requires id in bs[i].users && !bs[i].users[id].active
    requires forall m :: i <= m < j && acts[m] == SetActive(id, true) ==> Perform(bs[m], norm, acts[m]).Err?
    ensures id in bs[j].users && !bs[j].users[id].active
    decreases j
  {
    if i < j {
      InactiveStays(bs, norm, acts, id, i, j - 1);
      RunKeeps(bs, norm, acts, 0, j - 1);
      var b, a := bs[j - 1], acts[j - 1];
      if a.SetActive? && a.id == id && Perform(b, norm, a).Ok? {
        SwitchExact(b, id, a.active);
        assert a == SetActive(id, a.active);
      } else {
        ActiveStays(b, norm, a, id);
      }
    }
  }

  /** Over every run, from the moment a user is deactivated until reactivated, no login is that user's. */
  lemma DeactivatedStaysOut(bs: seq<Book>, norm: Normalizer, acts: seq<Action>, id: string, i: nat, j: nat)
    requires IsRun(bs, norm, acts) && Sound(bs[0]) && i < j < |acts|
    requires acts[i] == SetActive(id, false) && Perform(bs[i], norm, acts[i]).Ok?
    requires forall m :: i < m < j && acts[m] == SetActive(id, true) ==> Perform(bs[m], norm, acts[m]).Err?
    requires acts[j].Login? && Perform(bs[j], norm, acts[j]).Ok?
    ensures Perform(bs[j], norm, acts[j]).value.1 != id
  {
    SwitchExact(bs[i], id, false);
    InactiveStays(bs, norm, acts, id, i + 1, j);
    RunKeeps(bs, norm, acts, 0, j);
    LoginExact(bs[j], norm, acts[j].claim, acts[j].now, acts[j].session, id);
  }
}
