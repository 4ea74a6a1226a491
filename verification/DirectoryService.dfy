/** The use cases as they run: checks against the cache, rule writes to disk recorded as operations, and,
    as a step of its own after the commit, the operations replayed onto the cache. */
module DirectoryService {
  import opened Outcome
  import opened Policy
  import opened Directory
  import opened DirectoryRuns
  import DirectorySafety
  import DirectoryReplay

  // ---------------------------------------------------------------- slices as sets

  lemma ElementsAppend<T>(s: seq<T>, i: int)
    requires 0 <= i < |s|
    ensures s[..i + 1][..i] == s[..i] && Elements(s[..i + 1]) == Elements(s[..i]) + {s[i]}
  {
    assert s[..i + 1] == s[..i] + [s[i]];
  }

  method ToSet<T(==)>(s: seq<T>) returns (out: set<T>)
    ensures out == Elements(s)
  {
    out := {};
    var i := 0;
    while i < |s|
      invariant i <= |s| && out == Elements(s[..i])
    {
      ElementsAppend(s, i);
      out := out + {s[i]};
      i := i + 1;
    }
    assert s[..i] == s;
  }

  method Outside<T(==)>(s: seq<T>, within: set<T>) returns (out: seq<T>)
    ensures out == NotIn(s, within)
  {
    out := [];
    var i := 0;
    while i < |s|
      invariant i <= |s| && out == NotIn(s[..i], within)
    {
      ElementsAppend(s, i);
      if s[i] !in within { out := out + [s[i]]; }
      i := i + 1;
    }
    assert s[..i] == s;
  }

  method Inside<T(==)>(s: seq<T>, within: set<T>) returns (out: seq<T>)
    ensures out == KeptIn(s, within)
  {
    out := [];
    var i := 0;
    while i < |s|
      invariant i <= |s| && out == KeptIn(s[..i], within)
    {
      ElementsAppend(s, i);
      if s[i] in within { out := out + [s[i]]; }
      i := i + 1;
    }
    assert s[..i] == s;
  }

  /** The first element of b that a also has. */
  method FirstOverlap<T(==)>(a: seq<T>, b: seq<T>) returns (hit: Option<T>)
    ensures hit.Some? <==> Overlap(a, b)
    ensures hit.Some? ==>
      exists j :: 0 <= j < |b| && b[j] == hit.value && hit.value in a && forall k :: 0 <= k < j ==> b[k] !in a
  {
    if |a| == 0 || |b| == 0 { return None; }
    var seen := ToSet(a);
    var i := 0;
    while i < |b|
      invariant i <= |b|
      invariant forall k :: 0 <= k < i ==> b[k] !in a
    {
      if b[i] in seen { return Some(b[i]); }
      i := i + 1;
    }
    return None;
  }

  /** (current minus removed) plus added, kept items first. */
  method ComposePost<T(==)>(current: seq<T>, added: seq<T>, removed: seq<T>) returns (post: seq<T>)
    ensures post == NotIn(current, Elements(removed)) + added
    ensures Elements(post) == (Elements(current) - Elements(removed)) + Elements(added)
  {
    var dropped := ToSet(removed);
    var kept := Outside(current, dropped);
    DirectorySafety.NotInElements(current, dropped);
    return kept + added;
  }

  /** A set in some order, each element once. */
  method ListOf<T(==)>(s: set<T>) returns (l: seq<T>)
    ensures Elements(l) == s && |l| == |s|
  {
    l := [];
    var todo := s;
    while todo != {}
      invariant todo <= s && Elements(l) == s - todo && |l| == |s| - |todo|
      decreases todo
    {
      var x :| x in todo;
      assert Elements(l + [x]) == Elements(l) + {x};
      assert s - (todo - {x}) == (s - todo) + {x};
      l := l + [x];
      todo := todo - {x};
    }
  }

  lemma OneElement<T>(l: seq<T>, s: set<T>, x: T)
    requires Elements(l) == s && |l| == |s|
    ensures (|l| == 1 && l[0] == x) <==> s == {x}
  {
    if |l| == 1 {
      assert l == [l[0]];
      assert Elements(l) == {l[0]};
    }
  }

  // ---------------------------------------------------------------- recorded operations

  lemma ReplayAppend(r: Rules, ops: seq<Op>, op: Op)
    ensures Replay(r, ops + [op]) == ReplayOne(Replay(r, ops), op)
  {
    assert (ops + [op])[..|ops|] == ops;
  }

  /** A batch written up to i, and one more. */
  lemma BatchGrows(rules: seq<(Subject, Permission)>, pairs: seq<(string, string)>, i: nat)
    ensures i < |rules| ==> RuleAdds(rules[..i + 1]) == RuleAdds(rules[..i]) + [AddRule(rules[i])]
    ensures i < |rules| ==> RuleRemovals(rules[..i + 1]) == RuleRemovals(rules[..i]) + [RemoveRule(rules[i])]
    ensures i < |pairs| ==> MemberAdds(pairs[..i + 1]) == MemberAdds(pairs[..i]) + [AddMember(pairs[i])]
    ensures i < |pairs| ==> MemberRemovals(pairs[..i + 1]) == MemberRemovals(pairs[..i]) + [RemoveMember(pairs[i])]
  {
  }

  /** The first fault found is the fault of the whole list. */
  lemma {:induction false} LoadFaultStays(groups: map<string, GroupRecord>, names: seq<string>, n: nat)
    requires n <= |names| && LoadFault(groups, names[..n]).Some?
    ensures LoadFault(groups, names) == LoadFault(groups, names[..n])
  {
    if n == |names| {
      assert names[..n] == names;
    } else {
      assert names[..|names| - 1][..n] == names[..n];
      LoadFaultStays(groups, names[..|names| - 1], n);
    }
  }

  lemma {:induction false} ManagerFaultStays(d: Dir, actor: string, managers: seq<string>, perms: set<Permission>,
                                             n: nat)
    requires n <= |managers| && ManagerFault(d, actor, managers[..n], perms).Some?
    ensures ManagerFault(d, actor, managers, perms) == ManagerFault(d, actor, managers[..n], perms)
  {
    if n == |managers| {
      assert managers[..n] == managers;
    } else {
      assert managers[..|managers| - 1][..n] == managers[..n];
      ManagerFaultStays(d, actor, managers[..|managers| - 1], perms, n);
    }
  }

  /** What a use case leaves on disk is what it recorded, replayed there. */
  lemma DiskIsReplayed(d: Dir, a: Action)
    requires !a.DeleteUser? && !a.DeleteGroup? && Perform(d, a).Ok?
    ensures After(d, a).disk == Replay(d.disk, OpsOf(d, a))
  {
    DirectoryReplay.OpsAmount(d, a, d.disk);
    DirectoryReplay.NothingIsNothing(d, a);
  }

  lemma ThreeBatches(r: Rules, ops: seq<Op>, a: seq<Op>, b: seq<Op>, c: seq<Op>)
    ensures Replay(r, a + b + c) == Replay(Replay(Replay(r, a), b), c) && ops + a + b + c == ops + (a + b + c)
  {
    DirectoryReplay.ReplayConcat(r, a, b);
    DirectoryReplay.ReplayConcat(r, a + b, c);
    Regroup(ops, a, b, c);
  }

  lemma Regroup<T>(o: seq<T>, a: seq<T>, b: seq<T>, c: seq<T>)
    ensures o + a + b + c == o + (a + b + c)
  {
  }

  /** What is to be committed is what the specification gives. */
  ghost predicate Concludes(d: Dir, a: Action, d': Dir, ops: seq<Op>) {
    Perform(d, a).Ok? && ops == OpsOf(d, a) && d' == After(d, a).(cache := d.cache)
  }

  /** An update with nothing to change commits nothing. */
  lemma NothingWritten(d: Dir, a: Action)
    requires Perform(d, a).Ok?
    requires || (a.UpdateMembers? &&
                 var c := MembersOf(d.cache, a.name); NotIn(a.add, c) == [] && KeptIn(a.remove, c) == [])
             || (a.UpdatePermissions? &&
                 var c := PermissionsOf(d.disk, a.name); NotIn(a.grant, c) == [] && KeptIn(a.revoke, c) == [])
             || (a.UpdateGroups? &&
                 var c := GroupsOf(d.cache, a.id); NotIn(a.add, c) == [] && KeptIn(a.remove, c) == [])
    ensures Concludes(d, a, d, [])
  {
    if a.UpdateMembers? {
      DirectorySafety.EffectiveParts(a.add, a.remove, MembersOf(d.cache, a.name));
    } else if a.UpdatePermissions? {
      DirectorySafety.EffectiveParts(a.grant, a.revoke, PermissionsOf(d.disk, a.name));
    }
  }

  /** Otherwise what the loops compute and write is what is specified. */
  lemma MembersWritten(d: Dir, a: Action, d': Dir)
    requires a.UpdateMembers? && Perform(d, a).Ok? && a.name in d.groups
    requires var c := MembersOf(d.cache, a.name); NotIn(a.add, c) != [] || KeptIn(a.remove, c) != []
    requires d'.users == d.users && d'.cache == d.cache && d'.disk == Replay(d.disk, OpsOf(d, a))
    requires var g := d.groups[a.name]; d'.groups == d.groups[a.name := g.(membersVersion := g.membersVersion + 1)]
    ensures Concludes(d, a, d', OpsOf(d, a))
  {
    DiskIsReplayed(d, a);
    MembersCommitted(d, a);
  }

  lemma MembersCommitted(d: Dir, a: Action)
    requires a.UpdateMembers? && Perform(d, a).Ok? && a.name in d.groups
    requires var c := MembersOf(d.cache, a.name); NotIn(a.add, c) != [] || KeptIn(a.remove, c) != []
    ensures After(d, a).users == d.users
    ensures var g := d.groups[a.name];
            After(d, a).groups == d.groups[a.name := g.(membersVersion := g.membersVersion + 1)]
  {
    DirectorySafety.EffectiveParts(a.add, a.remove, MembersOf(d.cache, a.name));
  }

  lemma PermissionsWritten(d: Dir, a: Action, d': Dir)
    requires a.UpdatePermissions? && Perform(d, a).Ok? && a.name in d.groups
    requires var c := PermissionsOf(d.disk, a.name); NotIn(a.grant, c) != [] || KeptIn(a.revoke, c) != []
    requires d'.users == d.users && d'.cache == d.cache && d'.disk == Replay(d.disk, OpsOf(d, a))
    requires var g := d.groups[a.name];
             d'.groups == d.groups[a.name := g.(permissionsVersion := g.permissionsVersion + 1)]
    ensures Concludes(d, a, d', OpsOf(d, a))
  {
    DiskIsReplayed(d, a);
    PermissionsCommitted(d, a);
  }

  lemma PermissionsCommitted(d: Dir, a: Action)
    requires a.UpdatePermissions? && Perform(d, a).Ok? && a.name in d.groups
    requires var c := PermissionsOf(d.disk, a.name); NotIn(a.grant, c) != [] || KeptIn(a.revoke, c) != []
    ensures After(d, a).users == d.users
    ensures var g := d.groups[a.name];
            After(d, a).groups == d.groups[a.name := g.(permissionsVersion := g.permissionsVersion + 1)]
  {
    DirectorySafety.EffectiveParts(a.grant, a.revoke, PermissionsOf(d.disk, a.name));
  }

  lemma GroupsWritten(d: Dir, a: Action, d': Dir)
    requires a.UpdateGroups? && Perform(d, a).Ok? && a.id in d.users
    requires var c := GroupsOf(d.cache, a.id); NotIn(a.add, c) != [] || KeptIn(a.remove, c) != []
    requires d'.groups == d.groups && d'.cache == d.cache && d'.disk == Replay(d.disk, OpsOf(d, a))
    requires var u := d.users[a.id]; d'.users == d.users[a.id := u.(membershipVersion := u.membershipVersion + 1)]
    ensures Concludes(d, a, d', OpsOf(d, a))
  {
    DiskIsReplayed(d, a);
    GroupsCommitted(d, a);
  }

  lemma GroupsCommitted(d: Dir, a: Action)
    requires a.UpdateGroups? && Perform(d, a).Ok? && a.id in d.users
    requires var c := GroupsOf(d.cache, a.id); NotIn(a.add, c) != [] || KeptIn(a.remove, c) != []
    ensures After(d, a).groups == d.groups
    ensures var u := d.users[a.id];
            After(d, a).users == d.users[a.id := u.(membershipVersion := u.membershipVersion + 1)]
  {
  }

  /** The composed lists are what the rules will say. */
  lemma MembersTarget(d: Dir, a: Action, added: seq<string>, removed: seq<string>)
    requires a.UpdateMembers? && Perform(d, a).Ok?
    requires added == NotIn(a.add, MembersOf(d.cache, a.name)) &&
             removed == KeptIn(a.remove, MembersOf(d.cache, a.name))
    ensures MembersOf(After(d, a).cache, a.name) == (MembersOf(d.cache, a.name) - Elements(removed)) + Elements(added)
  {
    DirectorySafety.EffectiveParts(a.add, a.remove, MembersOf(d.cache, a.name));
    DirectorySafety.AmendedMembers(d.cache, a.name, Elements(removed), Elements(added));
  }

  lemma PermissionsTarget(d: Dir, a: Action, added: seq<Permission>, removed: seq<Permission>)
    requires a.UpdatePermissions? && Perform(d, a).Ok?
    requires added == NotIn(a.grant, PermissionsOf(d.disk, a.name))
    requires removed == KeptIn(a.revoke, PermissionsOf(d.disk, a.name))
    ensures PermissionsOf(After(d, a).disk, a.name) ==
            (PermissionsOf(d.disk, a.name) - Elements(removed)) + Elements(added)
  {
    DirectorySafety.EffectiveParts(a.grant, a.revoke, PermissionsOf(d.disk, a.name));
    DirectorySafety.AmendedPermissions(d.disk, a.name, Elements(removed), Elements(added));
  }

  lemma GroupsTarget(d: Dir, a: Action, added: seq<string>, removed: seq<string>)
    requires a.UpdateGroups? && Perform(d, a).Ok?
    requires added == NotIn(a.add, GroupsOf(d.cache, a.id)) && removed == KeptIn(a.remove, GroupsOf(d.cache, a.id))
    ensures GroupsOf(After(d, a).cache, a.id) == (GroupsOf(d.cache, a.id) - Elements(removed)) + Elements(added)
  {
    DirectorySafety.AmendedGroups(d.cache, a.id, Elements(removed), Elements(added));
  }

  class Admin {
    var groups: map<string, GroupRecord>
    var users: map<string, Account>
    var disk: Rules
    var cache: Rules
    /** What the open transaction has written so far. */
    var ops: seq<Op>
    /** What committed transactions have written and the cache has yet to replay. */
    var due: seq<seq<Op>>

    ghost function Now(): (d: Dir)
      reads this
    {
      Dir(groups, users, disk, cache)
    }

    ghost function Here(): (s: Site)
      reads this
    {
      Site(Now(), due)
    }

    ghost predicate Idle()
      reads this
    {
      ops == []
    }

    /** The open transaction has written and recorded these since it was at (disk0, ops0). */
    ghost predicate Wrote(disk0: Rules, ops0: seq<Op>, written: seq<Op>)
      reads this
    {
      disk == Replay(disk0, written) && ops == ops0 + written
    }

    constructor (d: Dir)
      ensures Here() == Site(d, []) && Idle()
    {
      groups, users, disk, cache, ops, due := d.groups, d.users, d.disk, d.cache, [], [];
    }

    // ------------------------------------------------------------ the policy transaction

    method AddPolicy(g: (Subject, Permission))
      modifies this`disk, this`ops
      ensures disk == old(disk).(grants := old(disk).grants + {g}) && ops == old(ops) + [AddRule(g)]
    {
      disk := disk.(grants := disk.grants + {g});
      ops := ops + [AddRule(g)];
    }

    method RemovePolicy(g: (Subject, Permission))
      modifies this`disk, this`ops
      ensures disk == old(disk).(grants := old(disk).grants - {g}) && ops == old(ops) + [RemoveRule(g)]
    {
      disk := disk.(grants := disk.grants - {g});
      ops := ops + [RemoveRule(g)];
    }

    method AddRoleForUser(m: (string, string))
      modifies this`disk, this`ops
      ensures disk == old(disk).(members := old(disk).members + {m}) && ops == old(ops) + [AddMember(m)]
    {
      disk := disk.(members := disk.members + {m});
      ops := ops + [AddMember(m)];
    }

    method RemoveRoleForUser(m: (string, string))
      modifies this`disk, this`ops
      ensures disk == old(disk).(members := old(disk).members - {m}) && ops == old(ops) + [RemoveMember(m)]
    {
      disk := disk.(members := disk.members - {m});
      ops := ops + [RemoveMember(m)];
    }

    /** The commit ends the transaction; what it recorded is left for the cache. */
    method CommitTx(ghost s: Site, ghost a: Action)
      requires Concludes(s.dir, a, Now(), ops) && due == s.due
      modifies this`ops, this`due
      ensures Idle() && Here() == Moved(s, Use(a))
    {
      due := due + [ops];
      ops := [];
    }

    /** One operation of a committed transaction reaches the cache. */
    method ReplayOp(i: nat)
      requires i < |due| && due[i] != []
      modifies this`cache, this`due
      ensures Here() == Moved(old(Here()), Catch(i))
    {
      match due[i][0] {
        case AddRule(g) => cache := cache.(grants := cache.grants + {g});
        case RemoveRule(g) => cache := cache.(grants := cache.grants - {g});
        case AddMember(m) => cache := cache.(members := cache.members + {m});
        case RemoveMember(m) => cache := cache.(members := cache.members - {m});
        case DropUser(id) => cache := EvictUser(cache, id);
        case DropGroup(name) => cache := EvictGroup(cache, name);
      }
      due := due[i := due[i][1..]];
    }

    /** applyOpsToCache with nobody coming in between. */
    method ApplyOpsToCache(i: nat)
      requires i < |due|
      modifies this`cache, this`due
      ensures cache == Replay(old(cache), old(due)[i]) && due == old(due)[i := []]
    {
      ghost var all, n := due[i], 0;
      while due[i] != []
        invariant n <= |all| && due == old(due)[i := all[n..]]
        invariant cache == Replay(old(cache), all[..n])
        decreases |due[i]|
      {
        ReplayAppend(old(cache), all[..n], all[n]);
        assert all[..n + 1] == all[..n] + [all[n]];
        assert all[n..][1..] == all[n + 1..];
        ReplayOp(i);
        n := n + 1;
      }
      assert all[..n] == all;
    }

    method RemoveRules(s: seq<(Subject, Permission)>)
      modifies this`disk, this`ops
      ensures Wrote(old(disk), old(ops), RuleRemovals(s))
    {
      var i := 0;
      while i < |s|
        invariant i <= |s| && Wrote(old(disk), old(ops), RuleRemovals(s[..i]))
      {
        BatchGrows(s, [], i);
        ReplayAppend(old(disk), RuleRemovals(s[..i]), RemoveRule(s[i]));
        RemovePolicy(s[i]);
        i := i + 1;
      }
      assert s[..i] == s;
    }

    method AddRules(s: seq<(Subject, Permission)>)
      modifies this`disk, this`ops
      ensures Wrote(old(disk), old(ops), RuleAdds(s))
    {
      var i := 0;
      while i < |s|
        invariant i <= |s| && Wrote(old(disk), old(ops), RuleAdds(s[..i]))
      {
        BatchGrows(s, [], i);
        ReplayAppend(old(disk), RuleAdds(s[..i]), AddRule(s[i]));
        AddPolicy(s[i]);
        i := i + 1;
      }
      assert s[..i] == s;
    }

    method RemoveMembers(s: seq<(string, string)>)
      modifies this`disk, this`ops
      ensures Wrote(old(disk), old(ops), MemberRemovals(s))
    {
      var i := 0;
      while i < |s|
        invariant i <= |s| && Wrote(old(disk), old(ops), MemberRemovals(s[..i]))
      {
        BatchGrows([], s, i);
        ReplayAppend(old(disk), MemberRemovals(s[..i]), RemoveMember(s[i]));
        RemoveRoleForUser(s[i]);
        i := i + 1;
      }
      assert s[..i] == s;
    }

    method AddMembers(s: seq<(string, string)>)
      modifies this`disk, this`ops
      ensures Wrote(old(disk), old(ops), MemberAdds(s))
    {
      var i := 0;
      while i < |s|
        invariant i <= |s| && Wrote(old(disk), old(ops), MemberAdds(s[..i]))
      {
        BatchGrows([], s, i);
        ReplayAppend(old(disk), MemberAdds(s[..i]), AddMember(s[i]));
        AddRoleForUser(s[i]);
        i := i + 1;
      }
      assert s[..i] == s;
    }

    method ApplyPermissionDeltas(name: string, added: seq<Permission>, removed: seq<Permission>)
      modifies this`disk, this`ops
      ensures Wrote(old(disk), old(ops),
                    RuleRemovals(OnGroupRules(name, removed)) + RuleAdds(OnGroupRules(name, added)))
    {
      DirectoryReplay.ReplayConcat(disk, RuleRemovals(OnGroupRules(name, removed)),
                                   RuleAdds(OnGroupRules(name, added)));
      RemoveRules(OnGroupRules(name, removed));
      AddRules(OnGroupRules(name, added));
    }

    method ApplyMemberDeltas(name: string, added: seq<string>, removed: seq<string>)
      modifies this`disk, this`ops
      ensures Wrote(old(disk), old(ops), MemberRemovals(IntoGroup(removed, name)) + MemberAdds(IntoGroup(added, name)))
    {
      DirectoryReplay.ReplayConcat(disk, MemberRemovals(IntoGroup(removed, name)), MemberAdds(IntoGroup(added, name)));
      RemoveMembers(IntoGroup(removed, name));
      AddMembers(IntoGroup(added, name));
    }

    method ApplyUserMembershipDeltas(id: string, added: seq<string>, removed: seq<string>)
      modifies this`disk, this`ops
      ensures Wrote(old(disk), old(ops), MemberRemovals(IntoGroups(id, removed)) + MemberAdds(IntoGroups(id, added)))
    {
      DirectoryReplay.ReplayConcat(disk, MemberRemovals(IntoGroups(id, removed)), MemberAdds(IntoGroups(id, added)));
      RemoveMembers(IntoGroups(id, removed));
      AddMembers(IntoGroups(id, added));
    }

    // ------------------------------------------------------------ checks

    /** boundaryCheckPerms, cascadeCheckPerms, RequireMembershipGrant, checkAntiEscalation: one by one,
        against the cache. */
    method HoldsEach(who: Subject, perms: seq<Permission>) returns (ok: bool)
      ensures ok <==> Dominates(cache, who, Elements(perms))
    {
      var i := 0;
      while i < |perms|
        invariant i <= |perms|
        invariant forall j :: 0 <= j < i ==> Can(cache, who, perms[j])
      {
        if !Can(cache, who, perms[i]) {
          assert perms[i] in Elements(perms);
          return false;
        }
        i := i + 1;
      }
      return true;
    }

    method RequireMembershipGrant(actor: string, name: string) returns (ok: bool)
      ensures ok <==> Dominates(cache, User(actor), PermissionsOf(cache, name))
    {
      var perms := ListOf(PermissionsOf(cache, name));
      ok := HoldsEach(User(actor), perms);
    }

    method MayGrantEach(actor: string, names: seq<string>) returns (ok: bool)
      ensures ok <==> MayGrantAll(cache, actor, Elements(names))
    {
      var i := 0;
      while i < |names|
        invariant i <= |names|
        invariant forall j :: 0 <= j < i ==> Dominates(cache, User(actor), PermissionsOf(cache, names[j]))
      {
        var held := RequireMembershipGrant(actor, names[i]);
        if !held {
          assert names[i] in Elements(names);
          return false;
        }
        i := i + 1;
      }
      return true;
    }

    method WritesEach(actor: string, names: seq<string>) returns (ok: bool)
      ensures ok <==> WritesAll(cache, actor, names)
    {
      var i := 0;
      while i < |names|
        invariant i <= |names|
        invariant forall j :: 0 <= j < i ==> CanOnGroup(cache, User(actor), names[j], WRITE)
      {
        if !CanOnGroup(cache, User(actor), names[i], WRITE) { return false; }
        i := i + 1;
      }
      return true;
    }

    method LoadGroupsByNames(names: seq<string>) returns (fault: Option<Error>)
      ensures fault == LoadFault(groups, names)
    {
      var i := 0;
      while i < |names|
        invariant i <= |names| && LoadFault(groups, names[..i]).None?
      {
        assert names[..i + 1][..i] == names[..i];
        if names[i] !in groups || groups[names[i]].system {
          LoadFaultStays(groups, names, i + 1);
          return Some(if names[i] !in groups then NotFound else SystemImmutable);
        }
        i := i + 1;
      }
      assert names[..i] == names;
      return None;
    }

    // ------------------------------------------------------------ use cases

    /** The answer and the state left behind are the ones the specification gives; the cache is untouched. */
    ghost predicate Answered<T>(s: Site, a: Action, r: Result<T, Error>)
      reads this
    {
      && Idle()
      && Here() == Moved(s, Use(a))
      && (r.Err? <==> Perform(s.dir, a).Err?)
      && (r.Err? ==> r.error == Perform(s.dir, a).error)
    }

    method CommitMemberDelta(ghost a: Action, name: string, added: seq<string>, removed: seq<string>)
      requires Idle() && a.UpdateMembers? && a.name == name && name in groups && Perform(Now(), a).Ok?
      requires added == NotIn(a.add, MembersOf(cache, name)) && removed == KeptIn(a.remove, MembersOf(cache, name))
      requires added != [] || removed != []
      modifies this`groups, this`disk, this`ops
      ensures Concludes(old(Now()), a, Now(), ops)
    {
      ghost var d := Now();
      ApplyMemberDeltas(name, added, removed);
      groups := groups[name := groups[name].(membersVersion := groups[name].membersVersion + 1)];
      MembersWritten(d, a, Now());
    }

    /** The checks of UpdateMembers, and the effective part of what is asked. */
    method PlanMembers(actor: string, name: string, add: seq<string>, remove: seq<string>, expected: Option<nat>)
      returns (r: Result<(seq<string>, seq<string>, seq<string>), Error>)
      ensures var spec := Perform(Now(), Action.UpdateMembers(actor, name, add, remove, expected));
              (r.Err? <==> spec.Err?) && (r.Err? ==> r.error == spec.error)
      ensures r.Ok? ==> name in groups && Elements(r.value.0) == MembersOf(cache, name)
      ensures r.Ok? ==> r.value.1 == NotIn(add, MembersOf(cache, name))
      ensures r.Ok? ==> r.value.2 == KeptIn(remove, MembersOf(cache, name))
    {
      var clash := FirstOverlap(add, remove);
      if clash.Some? { return Err(Invalid); }
      if name !in groups { return Err(NotFound); }
      if groups[name].system { return Err(SystemImmutable); }
      if expected.Some? && expected.value != groups[name].membersVersion { return Err(VersionConflict); }
      var current := ListOf(MembersOf(cache, name));
      var present := ToSet(current);
      var added := Outside(add, present);
      var removed := Inside(remove, present);
      DirectorySafety.EffectiveParts(add, remove, present);
      if |added| > 0 {
        var held := RequireMembershipGrant(actor, name);
        if !held { return Err(Escalation); }
      }
      return Ok((current, added, removed));
    }

    method UpdateMembers(actor: string, name: string, add: seq<string>, remove: seq<string>, expected: Option<nat>)
      returns (r: Result<seq<string>, Error>)
      requires Idle()
      modifies this
      ensures Answered(old(Here()), Action.UpdateMembers(actor, name, add, remove, expected), r)
      ensures var a := Action.UpdateMembers(actor, name, add, remove, expected);
              r.Ok? ==> Elements(r.value) == MembersOf(After(old(Now()), a).cache, name)
    {
      ghost var d, a := Now(), Action.UpdateMembers(actor, name, add, remove, expected);
      var plan := PlanMembers(actor, name, add, remove, expected);
      if plan.Err? { return Err(plan.error); }
      var (current, added, removed) := plan.value;
      MembersTarget(d, a, added, removed);
      if |added| == 0 && |removed| == 0 {
        NothingWritten(d, a);
        CommitTx(old(Here()), a);
        return Ok(current);
      }
      CommitMemberDelta(a, name, added, removed);
      var post := ComposePost(current, added, removed);
      CommitTx(old(Here()), a);
      return Ok(post);
    }

    method CommitPermissionDelta(ghost a: Action, name: string, added: seq<Permission>, removed: seq<Permission>)
      requires Idle() && a.UpdatePermissions? && a.name == name && name in groups && Perform(Now(), a).Ok?
      requires added == NotIn(a.grant, PermissionsOf(disk, name)) &&
               removed == KeptIn(a.revoke, PermissionsOf(disk, name))
      requires added != [] || removed != []
      modifies this`groups, this`disk, this`ops
      ensures Concludes(old(Now()), a, Now(), ops)
    {
      ghost var d := Now();
      ApplyPermissionDeltas(name, added, removed);
      groups := groups[name := groups[name].(permissionsVersion := groups[name].permissionsVersion + 1)];
      PermissionsWritten(d, a, Now());
    }

    method ValidatePermissionDeltas(grant: seq<Permission>, revoke: seq<Permission>) returns (ok: bool)
      ensures ok <==> !Overlap(grant, revoke) && forall p :: p in grant ==> Assignable(p)
    {
      var clash := FirstOverlap(grant, revoke);
      if clash.Some? { return false; }
      var i := 0;
      while i < |grant|
        invariant i <= |grant|
        invariant forall j :: 0 <= j < i ==> Assignable(grant[j])
      {
        if !Assignable(grant[i]) { return false; }
        i := i + 1;
      }
      return true;
    }

    /** A group with members hands them all it will hold, so the actor must hold it too. */
    method CascadeCheckPerms(actor: string, name: string, post: seq<Permission>) returns (ok: bool)
      ensures ok <==> MembersOf(cache, name) == {} || Dominates(cache, User(actor), Elements(post))
    {
      var members := ListOf(MembersOf(cache, name));
      if |members| == 0 { return true; }
      ok := HoldsEach(User(actor), post);
    }

    /** The checks of UpdatePermissions, and the effective part of what is asked. */
    method PlanPermissions(
      actor: string, name: string, grant: seq<Permission>, revoke: seq<Permission>, expected: Option<nat>
    ) returns (r: Result<(seq<Permission>, seq<Permission>, seq<Permission>), Error>)
      ensures var spec := Perform(Now(), Action.UpdatePermissions(actor, name, grant, revoke, expected));
              (r.Err? <==> spec.Err?) && (r.Err? ==> r.error == spec.error)
      ensures r.Ok? ==> name in groups
      ensures r.Ok? ==> r.value.1 == NotIn(grant, PermissionsOf(disk, name))
      ensures r.Ok? ==> r.value.2 == KeptIn(revoke, PermissionsOf(disk, name))
      ensures r.Ok? ==> Elements(r.value.0) == (PermissionsOf(disk, name) - Elements(r.value.2)) + Elements(r.value.1)
    {
      var valid := ValidatePermissionDeltas(grant, revoke);
      if !valid { return Err(Invalid); }
      if name !in groups { return Err(NotFound); }
      if groups[name].system { return Err(SystemImmutable); }
      if expected.Some? && expected.value != groups[name].permissionsVersion { return Err(VersionConflict); }
      var current := ListOf(PermissionsOf(disk, name));
      var present := ToSet(current);
      var added := Outside(grant, present);
      var removed := Inside(revoke, present);
      DirectorySafety.EffectiveParts(grant, revoke, present);
      var within := HoldsEach(User(actor), added);
      if !within { return Err(Escalation); }
      if |added| + |removed| == 0 { return Ok((current, added, removed)); }
      var post := ComposePost(current, added, removed);
      var cascades := CascadeCheckPerms(actor, name, post);
      if !cascades { return Err(Escalation); }
      return Ok((post, added, removed));
    }

    method UpdatePermissions(
      actor: string, name: string, grant: seq<Permission>, revoke: seq<Permission>, expected: Option<nat>
    ) returns (r: Result<seq<Permission>, Error>)
      requires Idle()
      modifies this
      ensures Answered(old(Here()), Action.UpdatePermissions(actor, name, grant, revoke, expected), r)
      ensures r.Ok? ==> Elements(r.value) == PermissionsOf(disk, name)
    {
      ghost var d, a := Now(), Action.UpdatePermissions(actor, name, grant, revoke, expected);
      var plan := PlanPermissions(actor, name, grant, revoke, expected);
      if plan.Err? { return Err(plan.error); }
      var (post, added, removed) := plan.value;
      PermissionsTarget(d, a, added, removed);
      if |added| + |removed| == 0 {
        NothingWritten(d, a);
      } else {
        CommitPermissionDelta(a, name, added, removed);
      }
      CommitTx(old(Here()), a);
      return Ok(post);
    }

    method ApplyMembershipDelta(ghost a: Action, id: string, added: seq<string>, removed: seq<string>)
      requires Idle() && a.UpdateGroups? && a.id == id && id in users && Perform(Now(), a).Ok?
      requires added == NotIn(a.add, GroupsOf(cache, id)) && removed == KeptIn(a.remove, GroupsOf(cache, id))
      requires added != [] || removed != []
      modifies this`users, this`disk, this`ops
      ensures Concludes(old(Now()), a, Now(), ops)
    {
      ghost var d := Now();
      WriteMembershipDelta(a, id, added, removed);
      GroupsWritten(d, a, Now());
    }

    method WriteMembershipDelta(ghost a: Action, id: string, added: seq<string>, removed: seq<string>)
      requires Idle() && a.UpdateGroups? && a.id == id && id in users
      requires added == NotIn(a.add, GroupsOf(cache, id)) && removed == KeptIn(a.remove, GroupsOf(cache, id))
      modifies this`users, this`disk, this`ops
      ensures ops == OpsOf(old(Now()), a) && disk == Replay(old(disk), OpsOf(old(Now()), a))
      ensures users == old(users)[id := old(users[id]).(membershipVersion := old(users[id]).membershipVersion + 1)]
    {
      ApplyUserMembershipDeltas(id, added, removed);
      users := users[id := users[id].(membershipVersion := users[id].membershipVersion + 1)];
    }

    /** currentUserGroupNames: the user's groups, every one of which must still exist. */
    method CurrentUserGroupNames(id: string) returns (names: Option<seq<string>>)
      ensures names.Some? <==> GroupsOf(cache, id) <= groups.Keys
      ensures names.Some? ==> Elements(names.value) == GroupsOf(cache, id)
    {
      var all := ListOf(GroupsOf(cache, id));
      var i := 0;
      while i < |all|
        invariant i <= |all|
        invariant forall j :: 0 <= j < i ==> all[j] in groups
      {
        if all[i] !in groups {
          assert all[i] in Elements(all);
          return None;
        }
        i := i + 1;
      }
      return Some(all);
    }

    /** What is to be added and removed, once both the reach and the escalation checks pass. */
    method ComputeGroupDelta(actor: string, id: string, add: seq<string>, remove: seq<string>)
      returns (r: Result<(seq<string>, seq<string>, seq<string>), Error>)
      ensures r.Ok? <==> DeltaFault(Now(), actor, id, add, remove).None?
      ensures r.Err? ==> DeltaFault(Now(), actor, id, add, remove) == Some(r.error)
      ensures r.Ok? ==> r.value.0 == NotIn(add, GroupsOf(cache, id)) && r.value.1 == KeptIn(remove, GroupsOf(cache, id))
      ensures r.Ok? ==> Elements(r.value.2) == (GroupsOf(cache, id) - Elements(r.value.1)) + Elements(r.value.0)
    {
      var current := CurrentUserGroupNames(id);
      if current.None? { return Err(NotFound); }
      var allowed := WritesEach(actor, add + remove);
      if !allowed { return Err(Forbidden); }
      var present := ToSet(current.value);
      var added := Outside(add, present);
      var removed := Inside(remove, present);
      var fault := LoadGroupsByNames(added);
      if fault.Some? { return Err(fault.value); }
      fault := LoadGroupsByNames(removed);
      if fault.Some? { return Err(fault.value); }
      var granted := MayGrantEach(actor, added);
      if !granted { return Err(Escalation); }
      var post := ComposePost(current.value, added, removed);
      return Ok((added, removed, post));
    }

    /** The checks of UpdateGroups, and the effective part of what is asked. */
    method PlanGroups(actor: string, id: string, add: seq<string>, remove: seq<string>, expected: Option<nat>)
      returns (r: Result<(seq<string>, seq<string>, seq<string>), Error>)
      ensures var spec := Perform(Now(), Action.UpdateGroups(actor, id, add, remove, expected));
              (r.Err? <==> spec.Err?) && (r.Err? ==> r.error == spec.error)
      ensures r.Ok? ==> id in users
      ensures r.Ok? ==> r.value.0 == NotIn(add, GroupsOf(cache, id)) && r.value.1 == KeptIn(remove, GroupsOf(cache, id))
      ensures r.Ok? ==> Elements(r.value.2) == (GroupsOf(cache, id) - Elements(r.value.1)) + Elements(r.value.0)
    {
      var clash := FirstOverlap(add, remove);
      if clash.Some? { return Err(Invalid); }
      if id !in users { return Err(NotFound); }
      if users[id].system { return Err(SystemImmutable); }
      if expected.Some? && expected.value != users[id].membershipVersion { return Err(VersionConflict); }
      r := ComputeGroupDelta(actor, id, add, remove);
    }

    method UpdateGroups(actor: string, id: string, add: seq<string>, remove: seq<string>, expected: Option<nat>)
      returns (r: Result<seq<string>, Error>)
      requires Idle()
      modifies this
      ensures Answered(old(Here()), Action.UpdateGroups(actor, id, add, remove, expected), r)
      ensures var a := Action.UpdateGroups(actor, id, add, remove, expected);
              r.Ok? ==> Elements(r.value) == GroupsOf(After(old(Now()), a).cache, id)
    {
      ghost var d, a := Now(), Action.UpdateGroups(actor, id, add, remove, expected);
      var delta := PlanGroups(actor, id, add, remove, expected);
      if delta.Err? { return Err(delta.error); }
      var (added, removed, post) := delta.value;
      GroupsTarget(d, a, added, removed);
      if |added| + |removed| == 0 {
        NothingWritten(d, a);
      } else {
        ApplyMembershipDelta(a, id, added, removed);
      }
      CommitTx(old(Here()), a);
      return Ok(post);
    }

    /** applyInitialGroups, after the version is set; the reach check runs again inside the transaction. */
    method ApplyInitialGroups(actor: string, id: string, names: seq<string>) returns (fault: Option<Error>)
      requires Idle()
      modifies this`disk, this`ops
      ensures fault == InitialFault(groups, cache, actor, names)
      ensures fault.None? ==> Wrote(old(disk), [], MemberAdds(IntoGroups(id, names)))
    {
      if |names| == 0 { return None; }
      var allowed := WritesEach(actor, names);
      if !allowed { return Some(Forbidden); }
      fault := LoadGroupsByNames(names);
      if fault.Some? { return; }
      var granted := MayGrantEach(actor, names);
      if !granted { return Some(Escalation); }
      ApplyUserMembershipDeltas(id, names, []);
      assert MemberRemovals(IntoGroups(id, [])) + MemberAdds(IntoGroups(id, names)) ==
             MemberAdds(IntoGroups(id, names));
    }

    method Preauthorize(actor: string, names: seq<string>) returns (ok: bool)
      ensures ok <==> MayCreateUser(cache, actor, names)
    {
      if CanGlobally(cache, User(actor), OBJECT_USER, CREATE) { return true; }
      if |names| == 0 { return false; }
      ok := WritesEach(actor, names);
    }

    method PersistUser(id: string, email: string)
      modifies this`users
      ensures users == old(users)[id := Account(false, email, 1)]
    {
      users := users[id := Account(false, email, 0)];
      users := users[id := users[id].(membershipVersion := 1)];
    }

    /** The account is written first; a later refusal rolls it back. */
    method CreateUser(actor: string, id: string, email: Option<string>, names: seq<string>)
      returns (r: Result<seq<string>, Error>)
      requires Idle()
      modifies this
      ensures Answered(old(Here()), Action.CreateUser(actor, id, email, names), r)
    {
      ghost var d, a := Now(), Action.CreateUser(actor, id, email, names);
      if email.None? { return Err(Invalid); }
      var allowed := Preauthorize(actor, names);
      if !allowed { return Err(Forbidden); }
      var saved, written := users, disk;
      if id in users || exists u :: u in users && users[u].email == email.value { return Err(AlreadyExists); }
      PersistUser(id, email.value);
      var fault := ApplyInitialGroups(actor, id, names);
      if fault.Some? {
        users, disk, ops := saved, written, [];
        return Err(fault.value);
      }
      DiskIsReplayed(d, a);
      CommitTx(old(Here()), a);
      return Ok(names);
    }

    method DeleteUser(actor: string, id: string) returns (r: Result<string, Error>)
      requires Idle()
      modifies this
      ensures Answered(old(Here()), Action.DeleteUser(actor, id), r)
    {
      ghost var a := Action.DeleteUser(actor, id);
      if id !in users { return Err(NotFound); }
      if actor == id { return Err(Invalid); }
      var fault := RequireWriteUser(actor, id);
      if fault.Some? { return Err(fault.value); }
      var targets := ListOf(Implicit(cache, User(id)));
      var within := HoldsEach(User(actor), targets);
      if !within { return Err(Escalation); }
      var admins := ListOf(MembersOf(cache, SUPERADMIN));
      OneElement(admins, MembersOf(cache, SUPERADMIN), id);
      if |admins| == 1 && admins[0] == id { return Err(Invalid); }
      users := users - {id};
      disk := WithoutUser(disk, id);
      ops := ops + [DropUser(id)];
      CommitTx(old(Here()), a);
      return Ok(id);
    }

    method RequireWriteUser(actor: string, id: string) returns (fault: Option<Error>)
      ensures fault == WriteUserFault(Now(), actor, id)
    {
      if CanGlobally(cache, User(actor), OBJECT_USER, WRITE) { return None; }
      var names := CurrentUserGroupNames(id);
      if names.None? { return Some(NotFound); }
      var i := 0;
      while i < |names.value|
        invariant i <= |names.value|
        invariant forall j :: 0 <= j < i ==> !CanOnGroup(cache, User(actor), names.value[j], WRITE)
      {
        if CanOnGroup(cache, User(actor), names.value[i], WRITE) {
          assert names.value[i] in Elements(names.value);
          return None;
        }
        i := i + 1;
      }
      assert forall n :: n in GroupsOf(cache, id) ==> n in Elements(names.value);
      return Some(Forbidden);
    }

    method AuthorizeManagers(actor: string, managers: seq<string>, perms: seq<Permission>)
      returns (fault: Option<Error>)
      ensures fault == ManagerFault(Now(), actor, managers, Elements(perms))
    {
      var i := 0;
      while i < |managers|
        invariant i <= |managers| && ManagerFault(Now(), actor, managers[..i], Elements(perms)).None?
      {
        assert managers[..i + 1][..i] == managers[..i];
        fault := AuthorizeManager(actor, managers[i], perms);
        if fault.Some? {
          ManagerFaultStays(Now(), actor, managers, Elements(perms), i + 1);
          return;
        }
        i := i + 1;
      }
      assert managers[..i] == managers;
      return None;
    }

    method AuthorizeManager(actor: string, m: string, perms: seq<Permission>) returns (fault: Option<Error>)
      ensures fault == if !CanOnGroup(cache, User(actor), m, WRITE) then Some(Forbidden)
                       else if m !in groups then Some(NotFound)
                       else if !Dominates(cache, Group(m), Elements(perms)) then Some(Escalation)
                       else None
    {
      if !CanOnGroup(cache, User(actor), m, WRITE) { return Some(Forbidden); }
      if m !in groups { return Some(NotFound); }
      var dominates := HoldsEach(Group(m), perms);
      if !dominates { return Some(Escalation); }
      return None;
    }

    /** wireInitialManagers: write on the new group for each manager. */
    method WireInitialManagers(name: string, managers: seq<string>)
      modifies this`disk, this`ops
      ensures Wrote(old(disk), old(ops), RuleAdds(ManagerRules(name, managers)))
    {
      ghost var all := ManagerRules(name, managers);
      var i := 0;
      while i < |managers|
        invariant i <= |managers| && Wrote(old(disk), old(ops), RuleAdds(all[..i]))
      {
        BatchGrows(all, [], i);
        ReplayAppend(old(disk), RuleAdds(all[..i]), AddRule(all[i]));
        AddPolicy((Group(managers[i]), ManagerGrant(name)));
        i := i + 1;
      }
      assert all[..i] == all;
    }

    /** authorizeCreate, then the name checks of persistEntity. */
    method AuthorizeCreate(actor: string, name: string, members: seq<string>, perms: seq<Permission>,
                           managers: seq<string>)
      returns (fault: Option<Error>)
      ensures fault == CreationFault(Now(), Action.CreateGroup(actor, name, members, perms, managers))
    {
      var within := HoldsEach(User(actor), perms);
      if !within { return Some(Escalation); }
      fault := AuthorizeManagers(actor, managers, perms);
      if fault.Some? { return; }
      if name in groups { return Some(AlreadyExists); }
      if !CanonicalName(name) { return Some(Invalid); }
      return None;
    }

    /** applyInitialPermissions, applyInitialMembers and wireInitialManagers. */
    method WriteInitialRules(name: string, members: seq<string>, perms: seq<Permission>, managers: seq<string>)
      modifies this`disk, this`ops
      ensures Wrote(old(disk), old(ops), RuleAdds(OnGroupRules(name, perms)) + MemberAdds(IntoGroup(members, name)) +
                                         RuleAdds(ManagerRules(name, managers)))
    {
      ghost var rules, pairs := RuleAdds(OnGroupRules(name, perms)), MemberAdds(IntoGroup(members, name));
      ThreeBatches(disk, ops, rules, pairs, RuleAdds(ManagerRules(name, managers)));
      assert RuleRemovals(OnGroupRules(name, [])) == [] && MemberRemovals(IntoGroup([], name)) == [];
      assert [] + rules == rules && [] + pairs == pairs;
      ApplyPermissionDeltas(name, perms, []);
      ApplyMemberDeltas(name, members, []);
      WireInitialManagers(name, managers);
    }

    /** persistEntity and the three apply steps: the row first, the rules, then the row with its counters. */
    method PersistGroup(name: string, members: seq<string>, perms: seq<Permission>, managers: seq<string>)
      returns (g: GroupRecord)
      requires Idle()
      modifies this`groups, this`disk, this`ops
      ensures g == GroupRecord(false, if members == [] then 0 else 1, if perms == [] then 0 else 1)
      ensures groups == old(groups)[name := g]
      ensures Wrote(old(disk), [], RuleAdds(OnGroupRules(name, perms)) + MemberAdds(IntoGroup(members, name)) +
                                   RuleAdds(ManagerRules(name, managers)))
    {
      g := GroupRecord(false, 0, 0);
      groups := groups[name := g];
      WriteInitialRules(name, members, perms, managers);
      if |perms| > 0 { g := g.(permissionsVersion := 1); }
      if |members| > 0 { g := g.(membersVersion := 1); }
      groups := groups[name := g];
    }

    method CreateGroup(
      actor: string, name: string, members: seq<string>, perms: seq<Permission>, managers: seq<string>
    ) returns (r: Result<GroupRecord, Error>)
      requires Idle()
      modifies this
      ensures Answered(old(Here()), Action.CreateGroup(actor, name, members, perms, managers), r)
      ensures r.Ok? ==> name in groups && r.value == groups[name]
    {
      ghost var d, a := Now(), Action.CreateGroup(actor, name, members, perms, managers);
      var fault := AuthorizeCreate(actor, name, members, perms, managers);
      if fault.Some? { return Err(fault.value); }
      var g := PersistGroup(name, members, perms, managers);
      DiskIsReplayed(d, a);
      CommitTx(old(Here()), a);
      return Ok(g);
    }

    method DeleteGroup(actor: string, name: string) returns (r: Result<string, Error>)
      requires Idle()
      modifies this
      ensures Answered(old(Here()), Action.DeleteGroup(actor, name), r)
    {
      ghost var a := Action.DeleteGroup(actor, name);
      if name !in groups { return Err(NotFound); }
      if groups[name].system { return Err(SystemImmutable); }
      disk := WithoutGroup(disk, name);
      ops := ops + [DropGroup(name)];
      groups := groups - {name};
      CommitTx(old(Here()), a);
      return Ok(name);
    }

    // ------------------------------------------------------------ starting

    /** GetSystemUser: one system account, if there is any. */
    method FindSystemUser() returns (id: Option<string>)
      ensures id.Some? ==> id.value in users && users[id.value].system
      ensures id.None? ==> forall u :: u in users ==> !users[u].system
    {
      var all := ListOf(users.Keys);
      var i := 0;
      while i < |all|
        invariant i <= |all|
        invariant forall j :: 0 <= j < i ==> all[j] in users && !users[all[j]].system
      {
        assert all[i] in Elements(all);
        if users[all[i]].system { return Some(all[i]); }
        i := i + 1;
      }
      assert forall u :: u in users ==> u in Elements(all);
      return None;
    }

    method EnsureSuperAdminGroup()
      modifies this`groups
      ensures groups == BootedGroups(old(groups))
    {
      if SUPERADMIN in groups {
        if !groups[SUPERADMIN].system {
          groups := groups[SUPERADMIN := groups[SUPERADMIN].(system := true)];
        }
        return;
      }
      groups := groups[SUPERADMIN := GroupRecord(true, 0, 0)];
    }

    /** The system account takes the configured email, or is made with it. */
    method EnsureAdminUser(newId: string, email: string) returns (id: Option<string>)
      requires newId !in users
      modifies this`users
      ensures id.Some? ==> Boots(old(Now()), Root(id.value, email))
      ensures id.Some? ==> users == BootedUsers(old(users), Root(id.value, email))
      ensures id.None? ==> users == old(users) && exists u :: u in users && users[u].email == email
    {
      var found := FindSystemUser();
      var root := if found.Some? then found.value else newId;
      if exists u :: u in users && u != root && users[u].email == email { return None; }
      if found.None? {
        users := users[root := Account(true, email, 0)];
      } else if users[root].email != email {
        users := users[root := users[root].(email := email)];
      }
      return Some(root);
    }

    /** The superadmin group, its wildcard rule, the account and its membership, in one transaction; then the
        cache is loaded. A new process has nothing to replay. */
    method Bootstrap(newId: string, email: string) returns (root: Option<Root>)
      requires Idle() && newId !in users
      modifies this
      ensures Idle()
      ensures root.Some? ==> Boots(old(Now()), root.value) && Here() == Moved(old(Here()), Restart(root.value))
      ensures root.None? ==> Here() == old(Here()) && exists u :: u in users && users[u].email == email
    {
      var saved, written := groups, disk;
      EnsureSuperAdminGroup();
      AddPolicy((Group(SUPERADMIN), EVERYTHING));
      var id := EnsureAdminUser(newId, email);
      if id.None? {
        groups, disk, ops := saved, written, [];
        return None;
      }
      AddRoleForUser((id.value, SUPERADMIN));
      ops, due := [], [];
      LoadPolicy();
      return Some(Root(id.value, email));
    }

    /** LoadPolicy: what others have committed and not yet replayed is still to come. */
    method LoadPolicy()
      modifies this`cache
      ensures Here() == Moved(old(Here()), Reload)
    {
      cache := disk;
    }
  }
}
