/** Replaying recorded operations: on each rule and membership the last operation about it has its way. */
module DirectoryReplay {
  import opened Outcome
  import opened Policy
  import opened Directory
  import opened DirectorySafety

  datatype Fact = Rule(rule: (Subject, Permission)) | Membership(member: (string, string))

  predicate Holds(r: Rules, x: Fact) {
    match x
    case Rule(g) => g in r.grants
    case Membership(m) => m in r.members
  }

  lemma SameFacts(a: Rules, b: Rules)
    requires forall x :: Holds(a, x) <==> Holds(b, x)
    ensures a == b
  {
    assert forall g :: g in a.grants <==> Holds(a, Rule(g));
    assert forall g :: g in b.grants <==> Holds(b, Rule(g));
    assert forall m :: m in a.members <==> Holds(a, Membership(m));
    assert forall m :: m in b.members <==> Holds(b, Membership(m));
  }

  // ---------------------------------------------------------------- the last word

  /** What an operation says of a fact: that it holds, that it does not, or nothing. */
  function Says(op: Op, x: Fact): (w: Option<bool>) {
    match op
    case AddRule(g) => if x == Rule(g) then Some(true) else None
    case RemoveRule(g) => if x == Rule(g) then Some(false) else None
    case AddMember(m) => if x == Membership(m) then Some(true) else None
    case RemoveMember(m) => if x == Membership(m) then Some(false) else None
    case DropUser(id) =>
      if (x.Rule? && x.rule.0 == User(id)) || (x.Membership? && x.member.0 == id) then Some(false) else None
    case DropGroup(name) =>
      if (x.Rule? && x.rule.0 == Group(name)) || (x.Membership? && x.member.1 == name) then Some(false) else None
  }

  function LastWord(ops: seq<Op>, x: Fact): (w: Option<bool>) {
    if ops == [] then None
    else
      var w := Says(ops[|ops| - 1], x);
      if w.Some? then w else LastWord(ops[..|ops| - 1], x)
  }

  lemma ReplayOneSays(r: Rules, op: Op, x: Fact)
    ensures Holds(ReplayOne(r, op), x) <==> if Says(op, x).Some? then Says(op, x).value else Holds(r, x)
  {
  }

  lemma {:induction false} ReplayIsLastWord(r: Rules, ops: seq<Op>, x: Fact)
    ensures Holds(Replay(r, ops), x) <==> if LastWord(ops, x).Some? then LastWord(ops, x).value else Holds(r, x)
  {
    if ops != [] {
      ReplayIsLastWord(r, ops[..|ops| - 1], x);
      ReplayOneSays(Replay(r, ops[..|ops| - 1]), ops[|ops| - 1], x);
    }
  }

  lemma {:induction false} LastWordConcat(a: seq<Op>, b: seq<Op>, x: Fact)
    ensures LastWord(a + b, x) == if LastWord(b, x).Some? then LastWord(b, x) else LastWord(a, x)
  {
    if b == [] {
      assert a + b == a;
    } else {
      assert (a + b)[..|a + b| - 1] == a + b[..|b| - 1];
      LastWordConcat(a, b[..|b| - 1], x);
    }
  }

  lemma LastWordOne(op: Op, x: Fact)
    ensures LastWord([op], x) == Says(op, x)
  {
    assert [op][..0] == [];
  }

  lemma {:induction false} ReplayConcat(r: Rules, a: seq<Op>, b: seq<Op>)
    ensures Replay(r, a + b) == Replay(Replay(r, a), b)
  {
    if b == [] {
      assert a + b == a;
    } else {
      assert (a + b)[..|a + b| - 1] == a + b[..|b| - 1];
      ReplayConcat(r, a, b[..|b| - 1]);
    }
  }

  /** Some operation has a say exactly when there is a last word. */
  lemma {:induction false} SomeoneSaid(ops: seq<Op>, x: Fact) returns (i: nat)
    requires LastWord(ops, x).Some?
    ensures i < |ops| && Says(ops[i], x) == LastWord(ops, x)
  {
    if Says(ops[|ops| - 1], x).Some? {
      i := |ops| - 1;
    } else {
      i := SomeoneSaid(ops[..|ops| - 1], x);
    }
  }

  lemma {:induction false} SomeoneSpeaks(ops: seq<Op>, i: nat, x: Fact)
    requires i < |ops| && Says(ops[i], x).Some?
    ensures LastWord(ops, x).Some?
  {
    if i < |ops| - 1 {
      SomeoneSpeaks(ops[..|ops| - 1], i, x);
    }
  }

  // ---------------------------------------------------------------- batches

  /** Of operations that all say the same, the last word is what each says. */
  lemma BatchWord(ops: seq<Op>, x: Fact, w: bool)
    requires forall i :: 0 <= i < |ops| ==> Says(ops[i], x) in {None, Some(w)}
    ensures LastWord(ops, x) == if exists i :: 0 <= i < |ops| && Says(ops[i], x).Some? then Some(w) else None
  {
    if i :| 0 <= i < |ops| && Says(ops[i], x).Some? {
      SomeoneSpeaks(ops, i, x);
    }
    if LastWord(ops, x).Some? {
      var i := SomeoneSaid(ops, x);
    }
  }

  lemma RuleAddsSay(s: seq<(Subject, Permission)>, x: Fact)
    ensures LastWord(RuleAdds(s), x) == if x.Rule? && x.rule in s then Some(true) else None
  {
    BatchWord(RuleAdds(s), x, true);
  }

  lemma RuleRemovalsSay(s: seq<(Subject, Permission)>, x: Fact)
    ensures LastWord(RuleRemovals(s), x) == if x.Rule? && x.rule in s then Some(false) else None
  {
    BatchWord(RuleRemovals(s), x, false);
  }

  lemma MemberAddsSay(s: seq<(string, string)>, x: Fact)
    ensures LastWord(MemberAdds(s), x) == if x.Membership? && x.member in s then Some(true) else None
  {
    BatchWord(MemberAdds(s), x, true);
  }

  lemma MemberRemovalsSay(s: seq<(string, string)>, x: Fact)
    ensures LastWord(MemberRemovals(s), x) == if x.Membership? && x.member in s then Some(false) else None
  {
    BatchWord(MemberRemovals(s), x, false);
  }

  /** What a delta says of a fact. */
  function DeltaSays(t: Delta, x: Fact): (w: Option<bool>) {
    match x
    case Rule(g) => if g in t.granted then Some(true) else if g in t.revoked then Some(false) else None
    case Membership(m) => if m in t.joined then Some(true) else if m in t.left then Some(false) else None
  }

  lemma AmendSays(r: Rules, t: Delta, x: Fact)
    ensures Holds(Amend(r, t), x) <==> if DeltaSays(t, x).Some? then DeltaSays(t, x).value else Holds(r, x)
  {
  }

  lemma OpsSay(d: Dir, a: Action, x: Fact)
    requires !a.DeleteUser? && !a.DeleteGroup?
    ensures LastWord(OpsOf(d, a), x) == DeltaSays(DeltaOf(d, a), x)
  {
    match a
    case UpdateMembers(_, name, add, remove, _) => MembersSay(d, a, x);
    case UpdatePermissions(_, name, grant, revoke, _) => PermissionsSay(d, a, x);
    case UpdateGroups(_, id, add, remove, _) => GroupsSay(d, a, x);
    case CreateUser(_, id, _, names) =>
      IntoGroupsAre(id, names);
      MemberAddsSay(IntoGroups(id, names), x);
      assert forall m :: m in IntoGroups(id, names) <==> m in Elements(IntoGroups(id, names));
    case CreateGroup(_, _, _, _, _) => CreationSays(d, a, x);
  }

  /** The recorded lists are the delta's sets. */
  lemma OnGroupRulesAre(name: string, ps: seq<Permission>)
    ensures Elements(OnGroupRules(name, ps)) == Grants(name, Elements(ps))
  {
    var rules := OnGroupRules(name, ps);
    forall p | p in ps ensures (Group(name), p) in rules {
      var i :| 0 <= i < |ps| && ps[i] == p;
      assert rules[i] == (Group(name), p);
    }
  }

  lemma IntoGroupAre(ids: seq<string>, name: string)
    ensures Elements(IntoGroup(ids, name)) == Joins(Elements(ids), {name})
  {
    var pairs := IntoGroup(ids, name);
    forall u | u in ids ensures (u, name) in pairs {
      var i :| 0 <= i < |ids| && ids[i] == u;
      assert pairs[i] == (u, name);
    }
  }

  lemma IntoGroupsAre(id: string, names: seq<string>)
    ensures Elements(IntoGroups(id, names)) == Joins({id}, Elements(names))
  {
    var pairs := IntoGroups(id, names);
    forall n | n in names ensures (id, n) in pairs {
      var i :| 0 <= i < |names| && names[i] == n;
      assert pairs[i] == (id, n);
    }
  }

  lemma ManagerRulesAre(name: string, managers: seq<string>)
    ensures Elements(ManagerRules(name, managers)) == set m | m in managers :: (Group(m), ManagerGrant(name))
  {
    var rules := ManagerRules(name, managers);
    forall m | m in managers ensures (Group(m), ManagerGrant(name)) in rules {
      var i :| 0 <= i < |managers| && managers[i] == m;
      assert rules[i] == (Group(m), ManagerGrant(name));
    }
  }

  lemma MembersSay(d: Dir, a: Action, x: Fact)
    requires a.UpdateMembers?
    ensures LastWord(OpsOf(d, a), x) == DeltaSays(DeltaOf(d, a), x)
  {
    var current := MembersOf(d.cache, a.name);
    var gone, put := IntoGroup(KeptIn(a.remove, current), a.name), IntoGroup(NotIn(a.add, current), a.name);
    EffectiveParts(a.add, a.remove, current);
    IntoGroupAre(KeptIn(a.remove, current), a.name);
    IntoGroupAre(NotIn(a.add, current), a.name);
    MovesSay(gone, put, x);
  }

  lemma PermissionsSay(d: Dir, a: Action, x: Fact)
    requires a.UpdatePermissions?
    ensures LastWord(OpsOf(d, a), x) == DeltaSays(DeltaOf(d, a), x)
  {
    var current := PermissionsOf(d.disk, a.name);
    var gone, put := OnGroupRules(a.name, KeptIn(a.revoke, current)), OnGroupRules(a.name, NotIn(a.grant, current));
    EffectiveParts(a.grant, a.revoke, current);
    OnGroupRulesAre(a.name, KeptIn(a.revoke, current));
    OnGroupRulesAre(a.name, NotIn(a.grant, current));
    LastWordConcat(RuleRemovals(gone), RuleAdds(put), x);
    RuleRemovalsSay(gone, x);
    RuleAddsSay(put, x);
    assert forall g :: g in gone <==> g in Elements(gone);
    assert forall g :: g in put <==> g in Elements(put);
  }

  lemma GroupsSay(d: Dir, a: Action, x: Fact)
    requires a.UpdateGroups?
    ensures LastWord(OpsOf(d, a), x) == DeltaSays(DeltaOf(d, a), x)
  {
    var current := GroupsOf(d.cache, a.id);
    IntoGroupsAre(a.id, KeptIn(a.remove, current));
    IntoGroupsAre(a.id, NotIn(a.add, current));
    MovesSay(IntoGroups(a.id, KeptIn(a.remove, current)), IntoGroups(a.id, NotIn(a.add, current)), x);
  }

  lemma MovesSay(gone: seq<(string, string)>, put: seq<(string, string)>, x: Fact)
    ensures LastWord(MemberRemovals(gone) + MemberAdds(put), x) ==
            DeltaSays(Delta({}, {}, Elements(gone), Elements(put)), x)
  {
    LastWordConcat(MemberRemovals(gone), MemberAdds(put), x);
    MemberRemovalsSay(gone, x);
    MemberAddsSay(put, x);
  }

  lemma CreationSays(d: Dir, a: Action, x: Fact)
    requires a.CreateGroup?
    ensures LastWord(OpsOf(d, a), x) == DeltaSays(DeltaOf(d, a), x)
  {
    var rules, pairs, wires :=
      OnGroupRules(a.name, a.perms), IntoGroup(a.members, a.name), ManagerRules(a.name, a.managers);
    OnGroupRulesAre(a.name, a.perms);
    IntoGroupAre(a.members, a.name);
    ManagerRulesAre(a.name, a.managers);
    LastWordConcat(RuleAdds(rules) + MemberAdds(pairs), RuleAdds(wires), x);
    LastWordConcat(RuleAdds(rules), MemberAdds(pairs), x);
    RuleAddsSay(rules, x);
    MemberAddsSay(pairs, x);
    RuleAddsSay(wires, x);
    assert forall g :: g in rules <==> g in Elements(rules);
    assert forall g :: g in wires <==> g in Elements(wires);
    assert forall m :: m in pairs <==> m in Elements(pairs);
  }

  /** The operations a use case records do to any rules what its delta does. */
  lemma OpsAmount(d: Dir, a: Action, r: Rules)
    requires !a.DeleteUser? && !a.DeleteGroup?
    ensures Replay(r, OpsOf(d, a)) == Amend(r, DeltaOf(d, a))
  {
    forall x ensures Holds(Replay(r, OpsOf(d, a)), x) <==> Holds(Amend(r, DeltaOf(d, a)), x) {
      ReplayIsLastWord(r, OpsOf(d, a), x);
      OpsSay(d, a, x);
      AmendSays(r, DeltaOf(d, a), x);
    }
    SameFacts(Replay(r, OpsOf(d, a)), Amend(r, DeltaOf(d, a)));
  }

  /** So replaying them at once gives the cache the use case is specified to leave. */
  lemma ReplayedAtOnce(d: Dir, a: Action)
    requires Perform(d, a).Ok?
    ensures Replay(d.cache, OpsOf(d, a)) == After(d, a).cache
  {
    if a.DeleteUser? || a.DeleteGroup? {
      assert OpsOf(d, a)[..0] == [];
    } else {
      OpsAmount(d, a, d.cache);
      NothingIsNothing(d, a);
    }
  }

  /** A use case that finds nothing to change has an empty delta. */
  lemma NothingIsNothing(d: Dir, a: Action)
    requires !a.DeleteUser? && !a.DeleteGroup? && Perform(d, a).Ok?
    ensures After(d, a).disk == Amend(d.disk, DeltaOf(d, a)) && After(d, a).cache == Amend(d.cache, DeltaOf(d, a))
  {
  }

  // ---------------------------------------------------------------- what is on the list

  /** The recorded operations are exactly the delta's changes, each as its own operation. */
  ghost predicate Lists(ops: seq<Op>, t: Delta) {
    && (forall g :: AddRule(g) in ops <==> g in t.granted)
    && (forall g :: RemoveRule(g) in ops <==> g in t.revoked)
    && (forall m :: AddMember(m) in ops <==> m in t.joined)
    && (forall m :: RemoveMember(m) in ops <==> m in t.left)
    && (forall id :: DropUser(id) !in ops)
    && (forall name :: DropGroup(name) !in ops)
  }

  lemma RuleAddsList(s: seq<(Subject, Permission)>)
    ensures Lists(RuleAdds(s), Delta({}, Elements(s), {}, {}))
  {
    var ops := RuleAdds(s);
    forall g | g in s ensures AddRule(g) in ops {
      var i :| 0 <= i < |s| && s[i] == g;
      assert ops[i] == AddRule(g);
    }
  }

  lemma RuleRemovalsList(s: seq<(Subject, Permission)>)
    ensures Lists(RuleRemovals(s), Delta(Elements(s), {}, {}, {}))
  {
    var ops := RuleRemovals(s);
    forall g | g in s ensures RemoveRule(g) in ops {
      var i :| 0 <= i < |s| && s[i] == g;
      assert ops[i] == RemoveRule(g);
    }
  }

  lemma MemberAddsList(s: seq<(string, string)>)
    ensures Lists(MemberAdds(s), Delta({}, {}, {}, Elements(s)))
  {
    var ops := MemberAdds(s);
    forall m | m in s ensures AddMember(m) in ops {
      var i :| 0 <= i < |s| && s[i] == m;
      assert ops[i] == AddMember(m);
    }
  }

  lemma MemberRemovalsList(s: seq<(string, string)>)
    ensures Lists(MemberRemovals(s), Delta({}, {}, Elements(s), {}))
  {
    var ops := MemberRemovals(s);
    forall m | m in s ensures RemoveMember(m) in ops {
      var i :| 0 <= i < |s| && s[i] == m;
      assert ops[i] == RemoveMember(m);
    }
  }

  lemma ListsConcat(a: seq<Op>, t: Delta, b: seq<Op>, u: Delta)
    requires Lists(a, t) && Lists(b, u)
    ensures Lists(a + b, Delta(t.revoked + u.revoked, t.granted + u.granted, t.left + u.left, t.joined + u.joined))
  {
  }

  lemma OpsList(d: Dir, a: Action)
    requires !a.DeleteUser? && !a.DeleteGroup?
    ensures Lists(OpsOf(d, a), DeltaOf(d, a))
  {
    match a
    case UpdateMembers(_, name, add, remove, _) =>
      var current := MembersOf(d.cache, name);
      EffectiveParts(add, remove, current);
      IntoGroupAre(KeptIn(remove, current), name);
      IntoGroupAre(NotIn(add, current), name);
      MovesList(IntoGroup(KeptIn(remove, current), name), IntoGroup(NotIn(add, current), name));
    case UpdatePermissions(_, name, grant, revoke, _) =>
      var current := PermissionsOf(d.disk, name);
      EffectiveParts(grant, revoke, current);
      OnGroupRulesAre(name, KeptIn(revoke, current));
      OnGroupRulesAre(name, NotIn(grant, current));
      ChangesList(OnGroupRules(name, KeptIn(revoke, current)), OnGroupRules(name, NotIn(grant, current)));
    case UpdateGroups(_, id, add, remove, _) =>
      var current := GroupsOf(d.cache, id);
      IntoGroupsAre(id, KeptIn(remove, current));
      IntoGroupsAre(id, NotIn(add, current));
      MovesList(IntoGroups(id, KeptIn(remove, current)), IntoGroups(id, NotIn(add, current)));
    case CreateUser(_, id, _, names) =>
      IntoGroupsAre(id, names);
      MemberAddsList(IntoGroups(id, names));
    case CreateGroup(_, name, members, perms, managers) => CreationList(d, a);
  }

  lemma MovesList(gone: seq<(string, string)>, put: seq<(string, string)>)
    ensures Lists(MemberRemovals(gone) + MemberAdds(put), Delta({}, {}, Elements(gone), Elements(put)))
  {
    MemberRemovalsList(gone);
    MemberAddsList(put);
    ListsConcat(MemberRemovals(gone), Delta({}, {}, Elements(gone), {}), MemberAdds(put),
                Delta({}, {}, {}, Elements(put)));
    assert {} + Elements(put) == Elements(put) && Elements(gone) + {} == Elements(gone);
  }

  lemma ChangesList(gone: seq<(Subject, Permission)>, put: seq<(Subject, Permission)>)
    ensures Lists(RuleRemovals(gone) + RuleAdds(put), Delta(Elements(gone), Elements(put), {}, {}))
  {
    RuleRemovalsList(gone);
    RuleAddsList(put);
    ListsConcat(RuleRemovals(gone), Delta(Elements(gone), {}, {}, {}), RuleAdds(put), Delta({}, Elements(put), {}, {}));
    assert {} + Elements(put) == Elements(put) && Elements(gone) + {} == Elements(gone);
  }

  lemma CreationList(d: Dir, a: Action)
    requires a.CreateGroup?
    ensures Lists(OpsOf(d, a), DeltaOf(d, a))
  {
    var rules, pairs, wires :=
      OnGroupRules(a.name, a.perms), IntoGroup(a.members, a.name), ManagerRules(a.name, a.managers);
    OnGroupRulesAre(a.name, a.perms);
    IntoGroupAre(a.members, a.name);
    ManagerRulesAre(a.name, a.managers);
    RuleAddsList(rules);
    MemberAddsList(pairs);
    RuleAddsList(wires);
    ListsConcat(RuleAdds(rules), Delta({}, Elements(rules), {}, {}), MemberAdds(pairs),
                Delta({}, {}, {}, Elements(pairs)));
    var both := Delta({}, Elements(rules), {}, Elements(pairs));
    assert Elements(rules) + {} == Elements(rules) && {} + Elements(pairs) == Elements(pairs);
    ListsConcat(RuleAdds(rules) + MemberAdds(pairs), both, RuleAdds(wires), Delta({}, Elements(wires), {}, {}));
    assert Elements(pairs) + {} == Elements(pairs);
  }
}
