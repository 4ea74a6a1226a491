/** What one use case of the administration does and does not do to the authority of others. */
module DirectorySafety {
  import opened Outcome
  import opened Policy
  import opened Directory

  // ---------------------------------------------------------------- disk and cache

  ghost predicate GroupsOnly(r: Rules) {
    forall g :: g in r.grants ==> g.0.Group?
  }

  /** Disk and cache agree on everything but the rules of groups that no longer exist, and only existing
      groups have members. */
  ghost predicate Settled(d: Dir) {
    && d.disk.members == d.cache.members
    && GroupsOnly(d.disk)
    && d.cache.grants <= d.disk.grants
    && (forall m :: m in d.cache.members ==> m.1 in d.groups)
    && (forall g :: g in d.disk.grants && g !in d.cache.grants ==> g.0.name !in d.groups)
  }

  /** The name a new group takes has no rule left on disk; nor in the cache, if its first members include
      somebody who can log in. */
  predicate FreshName(d: Dir, a: Action) {
    a.CreateGroup? ==>
      && (forall g :: g in d.disk.grants ==> g.0 != Group(a.name))
      && (Emails(a.members) || forall g :: g in d.cache.grants ==> g.0 != Group(a.name))
  }

  /** Only an accepted creation has to answer for its name. */
  predicate Fresh(d: Dir, a: Action) {
    Perform(d, a).Ok? ==> FreshName(d, a)
  }

  lemma CommitSettles(d: Dir, groups: map<string, GroupRecord>, users: map<string, Account>, t: Delta)
    requires Settled(d)
    requires d.groups.Keys <= groups.Keys
    requires forall g :: g in d.disk.grants && g !in d.cache.grants ==> g.0.name !in groups
    requires forall g :: g in t.granted ==> g.0.Group?
    requires forall m :: m in t.joined ==> m.1 in groups
    ensures Settled(Commit(d, groups, users, t))
  {
  }

  lemma {:induction false} LoadedAreMutable(groups: map<string, GroupRecord>, names: seq<string>)
    requires LoadFault(groups, names).None?
    ensures forall n :: n in names ==> n in groups && !groups[n].system
  {
    if names != [] {
      LoadedAreMutable(groups, names[..|names| - 1]);
      assert names == names[..|names| - 1] + [names[|names| - 1]];
    }
  }

  lemma {:induction false} ManagersExist(d: Dir, actor: string, managers: seq<string>, perms: set<Permission>)
    requires ManagerFault(d, actor, managers, perms).None?
    ensures forall m :: m in managers ==>
            m in d.groups && CanOnGroup(d.cache, User(actor), m, WRITE) && Dominates(d.cache, Group(m), perms)
  {
    if managers != [] {
      ManagersExist(d, actor, managers[..|managers| - 1], perms);
      assert managers == managers[..|managers| - 1] + [managers[|managers| - 1]];
    }
  }

  lemma {:induction false} NotInElements<T>(s: seq<T>, out: set<T>)
    ensures forall x :: x in NotIn(s, out) <==> x in s && x !in out
  {
    if s != [] {
      NotInElements(s[..|s| - 1], out);
      assert s == s[..|s| - 1] + [s[|s| - 1]];
    }
  }

  lemma {:induction false} KeptInElements<T>(s: seq<T>, within: set<T>)
    ensures forall x :: x in KeptIn(s, within) <==> x in s && x in within
  {
    if s != [] {
      KeptInElements(s[..|s| - 1], within);
      assert s == s[..|s| - 1] + [s[|s| - 1]];
    }
  }

  // ---------------------------------------------------------------- no authority from nowhere

  /** What a group's creation may hand out anew: reading and writing that very group. */
  predicate OnGroup(name: string, q: Permission) {
    q.obj == OBJECT_GROUP && q.domain == GroupResource(name) && q.action in {READ, WRITE}
  }

  predicate OnMade(a: Action, q: Permission) {
    a.CreateGroup? && OnGroup(a.name, q)
  }

  /** Held before by that user or the actor, or about the group being made. */
  ghost predicate HeldBefore(before: Rules, a: Action, u: string, q: Permission) {
    Can(before, User(u), q) || Can(before, User(a.actor), q) || OnMade(a, q)
  }

  /** Under the new rules everybody passes only what they, or the actor, passed under the old ones. */
  ghost predicate Bounded(before: Rules, after: Rules, a: Action) {
    forall u, q :: Principal(u) && Can(after, User(u), q) ==> HeldBefore(before, a, u, q)
  }

  /** Each rule added, and each rule a new member meets, is one the actor holds. */
  ghost predicate Vouched(r: Rules, t: Delta, a: Action) {
    && (forall g :: g in t.granted ==> Can(r, User(a.actor), g.1) || OnMade(a, g.1))
    && (forall g, m :: g in r.grants && m in t.joined && Principal(m.0) && g.0 == Group(m.1) ==>
          Can(r, User(a.actor), g.1))
  }

  lemma GroupIsClosed(name: string, p: Permission, q: Permission)
    requires OnGroup(name, p) && Covers(p, q) && CanonicalName(name)
    ensures OnGroup(name, q)
  {
    assert name != ALL by { assert ALL[0] == '*'; }
    assert GroupResource(name)[0] == 'g';
  }

  lemma VouchedIsBounded(r: Rules, t: Delta, a: Action)
    requires Vouched(r, t, a)
    requires a.CreateGroup? ==> CanonicalName(a.name)
    ensures Bounded(r, Amend(r, t), a)
  {
    forall u, q | Principal(u) && Can(Amend(r, t), User(u), q)
      ensures HeldBefore(r, a, u, q)
    {
      var g :| g in Amend(r, t).grants && Reaches(Amend(r, t), g.0, User(u)) && Covers(g.1, q);
      if g in t.granted {
        if OnMade(a, g.1) { GroupIsClosed(a.name, g.1, q); } else { HoldingIsClosed(r, User(a.actor), g.1, q); }
      } else if !Reaches(r, g.0, User(u)) {
        assert (u, g.0.name) in t.joined;
        HoldingIsClosed(r, User(a.actor), g.1, q);
      }
    }
  }

  lemma FewerRulesAreBounded(r: Rules, r': Rules, a: Action)
    requires r'.grants <= r.grants && r'.members <= r.members
    ensures Bounded(r, r', a)
  {
  }

  /** What the disk adds to the cache reaches nobody, so a reload changes no answer. */
  lemma ReloadIsInvisible(d: Dir, u: string, q: Permission)
    requires Settled(d)
    ensures Can(d.disk, User(u), q) <==> Can(d.cache, User(u), q)
  {
    if Can(d.disk, User(u), q) {
      var g :| g in d.disk.grants && Reaches(d.disk, g.0, User(u)) && Covers(g.1, q);
      assert (u, g.0.name) in d.cache.members;
    }
  }

  lemma DominatedIsVouched(r: Rules, actor: string, name: string)
    requires Dominates(r, User(actor), PermissionsOf(r, name))
    ensures forall g :: g in r.grants && g.0 == Group(name) ==> Can(r, User(actor), g.1)
  {
    forall g | g in r.grants && g.0 == Group(name)
      ensures Can(r, User(actor), g.1)
    {
      assert g.1 in PermissionsOf(r, name);
    }
  }

  lemma MembersVouched(d: Dir, a: Action)
    requires a.UpdateMembers? && MembersUpdated(d, a).Ok?
    ensures Vouched(d.cache, DeltaOf(d, a), a)
  {
    if Elements(a.add) - MembersOf(d.cache, a.name) != {} {
      DominatedIsVouched(d.cache, a.actor, a.name);
    }
  }

  lemma PermissionsVouched(d: Dir, a: Action)
    requires a.UpdatePermissions? && PermissionsUpdated(d, a).Ok?
    ensures Vouched(d.cache, DeltaOf(d, a), a)
  {
  }

  lemma JoiningVouched(d: Dir, a: Action, id: string, left: set<(string, string)>, names: set<string>)
    requires MayGrantAll(d.cache, a.actor, names)
    ensures Vouched(d.cache, Delta({}, {}, left, Joins({id}, names)), a)
  {
    forall n | n in names
      ensures forall g :: g in d.cache.grants && g.0 == Group(n) ==> Can(d.cache, User(a.actor), g.1)
    {
      DominatedIsVouched(d.cache, a.actor, n);
    }
  }

  lemma CreationVouched(d: Dir, a: Action)
    requires a.CreateGroup? && GroupCreated(d, a).Ok? && FreshName(d, a)
    ensures Vouched(d.cache, DeltaOf(d, a), a)
  {
  }

  lemma GroupsVouched(d: Dir, a: Action)
    requires a.UpdateGroups? && Perform(d, a).Ok?
    ensures Vouched(d.cache, DeltaOf(d, a), a)
  {
    var current := GroupsOf(d.cache, a.id);
    JoiningVouched(d, a, a.id, Joins({a.id}, Elements(KeptIn(a.remove, current))), Elements(NotIn(a.add, current)));
  }

  /** Whatever the cache it reads says, a use case adds no rule, and lets nobody join rules, that its actor
      does not hold there. */
  lemma DeltaVouched(d: Dir, a: Action)
    requires !a.DeleteUser? && !a.DeleteGroup? && Perform(d, a).Ok? && FreshName(d, a)
    ensures Vouched(d.cache, DeltaOf(d, a), a)
  {
    match a
    case UpdateMembers(_, _, _, _, _) => MembersVouched(d, a);
    case UpdatePermissions(_, _, _, _, _) => PermissionsVouched(d, a);
    case UpdateGroups(_, _, _, _, _) => GroupsVouched(d, a);
    case CreateUser(_, _, _, _) => JoiningVouched(d, a, a.id, {}, Elements(a.names));
    case CreateGroup(_, _, _, _, _) => CreationVouched(d, a);
  }

  /** One use case, with its replay before anyone else's: nobody passes more than they or the actor did. */
  lemma StepIsBounded(d: Dir, a: Action)
    requires Fresh(d, a)
    ensures Bounded(d.cache, After(d, a).cache, a)
  {
    if Perform(d, a).Ok? {
      if a.DeleteUser? || a.DeleteGroup? {
        FewerRulesAreBounded(d.cache, After(d, a).cache, a);
      } else {
        DeltaVouched(d, a);
        VouchedIsBounded(d.cache, DeltaOf(d, a), a);
      }
    }
  }

  // ---------------------------------------------------------------- when names stay fresh

  /** No rule outlives its group. */
  ghost predicate Tidy(d: Dir) {
    forall g :: g in d.disk.grants && g.0.Group? ==> g.0.name in d.groups
  }

  /** Every step keeps it tidy except deleting a group that still has rules. */
  lemma TidyStep(d: Dir, a: Action)
    requires Tidy(d)
    ensures Tidy(After(d, a)) <==> !(a.DeleteGroup? && Perform(d, a).Ok? && PermissionsOf(d.disk, a.name) != {})
  {
    if Perform(d, a).Ok? {
      match a
      case CreateGroup(_, _, _, _, _) =>
        ManagersExist(d, a.actor, a.managers, Elements(a.perms));
      case DeleteGroup(_, _) =>
        var own := PermissionsOf(d.disk, a.name);
        assert forall g :: g in d.disk.grants && g.0 == Group(a.name) ==> g.1 in own;
        if own != {} {
          var p :| p in own;
          assert (Group(a.name), p) in After(d, a).disk.grants;
        }
      case _ =>
    }
  }

  ghost predicate Disposes(d: Dir, a: Action) {
    a.DeleteGroup? && PermissionsOf(d.disk, a.name) != {}
  }

  // ---------------------------------------------------------------- when they do not

  /** Only rules that reach nobody are on disk and not in the cache: a reload would change no answer. */
  ghost predicate QuietReload(d: Dir) {
    && d.disk.members == d.cache.members && GroupsOnly(d.disk)
    && (forall g, u :: g in d.disk.grants && g !in d.cache.grants && Principal(u) ==>
          (u, g.0.name) !in d.cache.members)
  }

  /** The rules as they are in force, or as a reload would bring them in. */
  ghost predicate StoreOf(d: Dir, base: Rules) {
    base == d.cache || (base == d.disk && QuietReload(d))
  }

  /** What no check asks: each rule a new member meets there is held by that member or the actor. */
  ghost predicate LeftoversHeld(d: Dir, base: Rules, a: Action)
    requires !a.DeleteUser? && !a.DeleteGroup?
  {
    forall m, p :: m in DeltaOf(d, a).joined && Principal(m.0) && p in PermissionsOf(base, m.1) ==>
      HeldBefore(d.cache, a, m.0, p)
  }

  lemma HeldIsClosed(r: Rules, a: Action, u: string, p: Permission, q: Permission)
    requires HeldBefore(r, a, u, p) && Covers(p, q) && (a.CreateGroup? ==> CanonicalName(a.name))
    ensures HeldBefore(r, a, u, q)
  {
    if OnMade(a, p) {
      GroupIsClosed(a.name, p, q);
    } else if Can(r, User(u), p) {
      HoldingIsClosed(r, User(u), p, q);
    } else {
      HoldingIsClosed(r, User(a.actor), p, q);
    }
  }

  /** Whatever a use case grants its actor holds, fresh name or not. */
  lemma GrantedIsHeld(d: Dir, a: Action)
    requires !a.DeleteUser? && !a.DeleteGroup? && Perform(d, a).Ok?
    ensures forall g :: g in DeltaOf(d, a).granted ==> HeldBefore(d.cache, a, a.actor, g.1)
  {
    if a.CreateGroup? {
      assert OnGroup(a.name, ManagerGrant(a.name));
    }
  }

  /** A use case stays within bounds exactly when the leftover rules of the groups it lets people join were
      already held. Take base as the cache for what holds at once, as the disk for what a reload brings. */
  lemma BoundedIff(d: Dir, base: Rules, a: Action)
    requires StoreOf(d, base) && !a.DeleteUser? && !a.DeleteGroup? && Perform(d, a).Ok?
    ensures Bounded(d.cache, Amend(base, DeltaOf(d, a)), a) <==> LeftoversHeld(d, base, a)
  {
    var t := DeltaOf(d, a);
    if LeftoversHeld(d, base, a) {
      forall u, q | Principal(u) && Can(Amend(base, t), User(u), q)
        ensures HeldBefore(d.cache, a, u, q)
      {
        StepTraced(d, base, a, u, q);
      }
    }
    if Bounded(d.cache, Amend(base, t), a) {
      forall m, p | m in t.joined && Principal(m.0) && p in PermissionsOf(base, m.1)
        ensures HeldBefore(d.cache, a, m.0, p)
      {
        assert (Group(m.1), p) in Amend(base, t).grants && Covers(p, p);
        assert Reaches(Amend(base, t), Group(m.1), User(m.0));
        assert Can(Amend(base, t), User(m.0), p);
      }
    }
  }

  lemma StepTraced(d: Dir, base: Rules, a: Action, u: string, q: Permission)
    requires StoreOf(d, base) && !a.DeleteUser? && !a.DeleteGroup? && Perform(d, a).Ok?
    requires LeftoversHeld(d, base, a) && Principal(u) && Can(Amend(base, DeltaOf(d, a)), User(u), q)
    ensures HeldBefore(d.cache, a, u, q)
  {
    var t := DeltaOf(d, a);
    var g :| g in Amend(base, t).grants && Reaches(Amend(base, t), g.0, User(u)) && Covers(g.1, q);
    GrantedIsHeld(d, a);
    if g in t.granted {
      HeldIsClosed(d.cache, a, a.actor, g.1, q);
    } else if g.0.Group? && (u, g.0.name) in t.joined {
      assert g.1 in PermissionsOf(base, g.0.name);
      HeldIsClosed(d.cache, a, u, g.1, q);
    } else {
      assert g in d.cache.grants && Reaches(d.cache, g.0, User(u));
    }
  }

  /** Who may do everything with groups, whichever group goes. */
  ghost predicate GroupAdmin(d: Dir, maker: string, name: string) {
    Can(EvictGroup(d.cache, name), User(maker), Permission(ALL, OBJECT_GROUP, ALL))
  }

  /** Deleting a group, making it again and letting somebody join gives them its old rights with the next
      reload, whatever the maker holds beside the right to manage groups: every gate and every check passes. */
  lemma DeletedRightsReturn(d: Dir, name: string, p: Permission, maker: string, u: string)
    requires MutableFault(d.groups, name).None? && CanonicalName(name) && p in PermissionsOf(d.disk, name)
    requires GroupAdmin(d, maker, name)
    requires u in d.users && !d.users[u].system && GroupsOf(d.cache, u) <= d.groups.Keys
    ensures
      var drop, make, join := DeleteGroup(maker, name), CreateGroup(maker, name, [], [], []),
                              UpdateGroups(maker, u, [name], [], None);
      var gone := After(d, drop);
      var made := After(gone, make);
      && Perform(d, drop).Ok? && Perform(gone, make).Ok? && Perform(made, join).Ok?
      && Gated(d.cache, drop) && Gated(gone.cache, make) && Gated(made.cache, join)
      && Can(After(made, join).disk, User(u), p)
  {
    var drop, make, join := DeleteGroup(maker, name), CreateGroup(maker, name, [], [], []),
                            UpdateGroups(maker, u, [name], [], None);
    var gone := After(d, drop);
    MadeAgain(d, maker, name);
    var made := After(gone, make);
    assert made.cache == gone.cache && made.disk == gone.disk;
    AdminManages(d, maker, name);
    assert PermissionsOf(made.cache, name) == {} && name !in GroupsOf(made.cache, u);
    JoinStep(made, maker, u, name);
    assert (Group(name), p) in d.disk.grants && Covers(p, p);
    assert Reaches(After(made, join).disk, Group(name), User(u));
  }

  lemma MadeAgain(d: Dir, maker: string, name: string)
    requires MutableFault(d.groups, name).None? && CanonicalName(name)
    ensures var gone, make := After(d, DeleteGroup(maker, name)), CreateGroup(maker, name, [], [], []);
            && Perform(gone, make).Ok? && After(gone, make).cache == gone.cache && After(gone, make).disk == gone.disk
            && After(gone, make).users == d.users && MutableFault(After(gone, make).groups, name).None?
            && After(gone, make).groups.Keys == d.groups.Keys
  {
    var gone, make := After(d, DeleteGroup(maker, name)), CreateGroup(maker, name, [], [], []);
    assert Elements(make.perms) == {} && Elements(make.members) == {} && Joins({}, {name}) == {};
    assert ManagerFault(gone, maker, [], {}).None?;
    assert CreationDelta(make) == Delta({}, {}, {}, {});
    AmendNothing(gone.cache);
    AmendNothing(gone.disk);
  }

  lemma AmendNothing(r: Rules)
    ensures Amend(r, Delta({}, {}, {}, {})) == r
  {
  }

  lemma AdminManages(d: Dir, maker: string, name: string)
    requires GroupAdmin(d, maker, name)
    ensures CanOnGroup(d.cache, User(maker), name, WRITE)
    ensures CanOnGroup(EvictGroup(d.cache, name), User(maker), name, WRITE)
    ensures CanGlobally(EvictGroup(d.cache, name), User(maker), OBJECT_GROUP, CREATE)
  {
    var r, all := EvictGroup(d.cache, name), Permission(ALL, OBJECT_GROUP, ALL);
    var write := Permission(GroupResource(name), OBJECT_GROUP, WRITE);
    HoldingIsClosed(r, User(maker), all, write);
    HoldingIsClosed(r, User(maker), all, Permission(ALL, OBJECT_GROUP, CREATE));
    var g :| g in r.grants && Reaches(r, g.0, User(maker)) && Covers(g.1, write);
    assert g in d.cache.grants && Reaches(d.cache, g.0, User(maker));
  }

  /** Who may join, and be let join, a group. */
  ghost predicate MayJoin(d: Dir, actor: string, id: string, name: string) {
    && id in d.users && !d.users[id].system && GroupsOf(d.cache, id) <= d.groups.Keys && name !in GroupsOf(d.cache, id)
    && MutableFault(d.groups, name).None? && CanOnGroup(d.cache, User(actor), name, WRITE)
    && Dominates(d.cache, User(actor), PermissionsOf(d.cache, name))
  }

  lemma OneNotIn<T>(x: T, out: set<T>)
    requires x !in out
    ensures NotIn([x], out) == [x] && Elements([x]) == {x}
  {
    assert [x][..0] == [];
  }

  lemma OneLoads(groups: map<string, GroupRecord>, name: string)
    ensures LoadFault(groups, [name]) == MutableFault(groups, name) && LoadFault(groups, []).None?
  {
    assert [name][..0] == [];
  }

  lemma JoinIsAccepted(d: Dir, actor: string, id: string, name: string)
    requires MayJoin(d, actor, id, name)
    ensures NotIn([name], GroupsOf(d.cache, id)) == [name] && DeltaFault(d, actor, id, [name], []).None?
  {
    var current := GroupsOf(d.cache, id);
    OneNotIn(name, current);
    OneLoads(d.groups, name);
    assert KeptIn([], current) == [];
    assert forall n :: n in [name] + [] ==> n == name;
    assert WritesAll(d.cache, actor, [name] + []);
    assert MayGrantAll(d.cache, actor, {name});
  }

  lemma JoinStep(d: Dir, actor: string, id: string, name: string)
    requires MayJoin(d, actor, id, name)
    ensures var a := UpdateGroups(actor, id, [name], [], None);
            && Perform(d, a).Ok? && OpsOf(d, a) == [AddMember((id, name))]
            && After(d, a).disk == Rules(d.disk.grants, d.disk.members + {(id, name)})
            && After(d, a).groups == d.groups && id in After(d, a).users && !After(d, a).users[id].system
  {
    var a := UpdateGroups(actor, id, [name], [], None);
    JoinIsAccepted(d, actor, id, name);
    OneNotIn(name, GroupsOf(d.cache, id));
    JoinDelta(d, a, id, name);
    assert !Overlap([name], []) && !Conflicts(None, d.users[id].membershipVersion);
  }

  lemma JoinDelta(d: Dir, a: Action, id: string, name: string)
    requires a == UpdateGroups(a.actor, id, [name], [], None) && NotIn([name], GroupsOf(d.cache, id)) == [name]
    ensures DeltaOf(d, a) == Delta({}, {}, {}, {(id, name)}) && OpsOf(d, a) == [AddMember((id, name))]
  {
    assert KeptIn([], GroupsOf(d.cache, id)) == [] && Elements<string>([]) == {} && Elements([name]) == {name};
    assert Joins({id}, {name}) == {(id, name)} && Joins({id}, {}) == {};
  }

  const NAMESPACE_WRITE := Permission(ALL, OBJECT_NAMESPACE, WRITE)

  /** A group with a right and no members, and a user who manages groups. */
  function OpsUnused(maker: string, u: string): (d: Dir) {
    var r := Rules({(Group("ops"), NAMESPACE_WRITE), (Group("staff"), Permission(ALL, OBJECT_GROUP, ALL))},
                   {(maker, "staff")});
    var groups := map["ops" := GroupRecord(false, 0, 1), "staff" := GroupRecord(false, 1, 1)];
    Dir(groups, map[u := Account(false, "", 0)], r, r)
  }

  lemma NobodyHoldsIt(maker: string, u: string)
    ensures Settled(OpsUnused(maker, u)) && forall v :: !Can(OpsUnused(maker, u).cache, User(v), NAMESPACE_WRITE)
  {
    assert "namespace"[0] != "group"[0];
  }

  lemma MakerManagesGroups(maker: string, u: string)
    requires maker != u
    ensures GroupAdmin(OpsUnused(maker, u), maker, "ops") && GroupsOf(OpsUnused(maker, u).cache, u) == {}
  {
    var r, all := OpsUnused(maker, u).cache, Permission(ALL, OBJECT_GROUP, ALL);
    var g := (Group("staff"), all);
    assert "ops"[0] != "staff"[0];
    assert g in EvictGroup(r, "ops").grants && Reaches(EvictGroup(r, "ops"), g.0, User(maker)) && Covers(all, all);
  }

  /** In particular, a right that nobody held before. */
  lemma RightsNobodyHeld(maker: string, u: string)
    requires maker != u
    ensures
      var d := OpsUnused(maker, u);
      var made := After(After(d, DeleteGroup(maker, "ops")), CreateGroup(maker, "ops", [], [], []));
      && (forall v :: !Can(d.cache, User(v), NAMESPACE_WRITE))
      && Can(After(made, UpdateGroups(maker, u, ["ops"], [], None)).disk, User(u), NAMESPACE_WRITE)
  {
    var d := OpsUnused(maker, u);
    NobodyHoldsIt(maker, u);
    MakerManagesGroups(maker, u);
    assert (Group("ops"), NAMESPACE_WRITE) in d.disk.grants;
    DeletedRightsReturn(d, "ops", NAMESPACE_WRITE, maker, u);
  }

  // ---------------------------------------------------------------- members by email

  /** Members are asked for by email and decisions are made by id: changing a group's members, or making one,
      leaves every membership of everyone who can log in as it was. */
  lemma EmailsJoinNobody(d: Dir, a: Action, u: string, n: string)
    requires (a.UpdateMembers? || a.CreateGroup?) && Sendable(a) && Principal(u)
    ensures (u, n) in After(d, a).disk.members <==> (u, n) in d.disk.members
    ensures (u, n) in After(d, a).cache.members <==> (u, n) in d.cache.members
  {
  }

  /** So an update of a group's members changes nobody's answers, neither letting in nor putting out. */
  lemma EmailsReachNobody(d: Dir, a: Action, u: string, q: Permission)
    requires a.UpdateMembers? && Sendable(a) && Principal(u)
    ensures Can(After(d, a).cache, User(u), q) <==> Can(d.cache, User(u), q)
    ensures Can(After(d, a).disk, User(u), q) <==> Can(d.disk, User(u), q)
  {
    forall n ensures (u, n) in After(d, a).disk.members <==> (u, n) in d.disk.members {
      EmailsJoinNobody(d, a, u, n);
    }
    forall n ensures (u, n) in After(d, a).cache.members <==> (u, n) in d.cache.members {
      EmailsJoinNobody(d, a, u, n);
    }
    SameReach(d.cache, After(d, a).cache, u, q);
    SameReach(d.disk, After(d, a).disk, u, q);
  }

  lemma SameReach(r: Rules, r': Rules, u: string, q: Permission)
    requires r'.grants == r.grants && forall n :: (u, n) in r'.members <==> (u, n) in r.members
    ensures Can(r', User(u), q) <==> Can(r, User(u), q)
  {
    if Can(r, User(u), q) {
      var g :| g in r.grants && Reaches(r, g.0, User(u)) && Covers(g.1, q);
      assert Reaches(r', g.0, User(u));
    }
    if Can(r', User(u), q) {
      var g :| g in r'.grants && Reaches(r', g.0, User(u)) && Covers(g.1, q);
      assert Reaches(r, g.0, User(u));
    }
  }

  // ---------------------------------------------------------------- the catalog

  /** A permission outside the catalog is refused by every later grant, yet a group can be made with it. */
  lemma InitialPermissionsUnchecked(d: Dir, actor: string, name: string, p: Permission)
    requires !Assignable(p) && Can(d.cache, User(actor), p) && name !in d.groups && CanonicalName(name)
    ensures forall g, e :: Perform(d, UpdatePermissions(actor, g, [p], [], e)) == Err(Invalid)
    ensures var a := CreateGroup(actor, name, [], [p], []);
            Perform(d, a).Ok? && (Group(name), p) in After(d, a).disk.grants &&
            (Group(name), p) in After(d, a).cache.grants
  {
    assert p in [p];
    assert forall q :: q in Elements([p]) ==> q == p;
    var a := CreateGroup(actor, name, [], [p], []);
    assert CreationFault(d, a).None?;
    assert (Group(name), p) in Grants(name, Elements(a.perms));
  }

  /** So a rule on a bare domain, which shows its members a namespace that Enforce then refuses, can be made
      by whoever may do everything. */
  lemma BareDomainIsReachable(d: Dir, actor: string, name: string)
    requires Can(d.cache, User(actor), Permission(ALL, ALL, ALL)) && name !in d.groups && CanonicalName(name)
    ensures var p := Permission("prod", OBJECT_NAMESPACE, READ);
            (Group(name), p) in After(d, CreateGroup(actor, name, [], [p], [])).cache.grants
  {
    var p := Permission("prod", OBJECT_NAMESPACE, READ);
    HoldingIsClosed(d.cache, User(actor), Permission(ALL, ALL, ALL), p);
    assert "prod"[0] != NAMESPACE_PREFIX[0];
    InitialPermissionsUnchecked(d, actor, name, p);
  }

  // ---------------------------------------------------------------- deltas and versions

  function Bump(before: nat, changed: bool): (after: nat) {
    if changed then before + 1 else before
  }

  /** Trimming a delta to its effective part changes neither its result nor whether there is one. */
  lemma EffectiveDelta<T>(current: set<T>, add: set<T>, remove: set<T>)
    requires add * remove == {}
    ensures (current - remove * current) + (add - current) == (current - remove) + add
    ensures (add - current == {} && remove * current == {}) <==> (current - remove) + add == current
  {
    var target := (current - remove) + add;
    forall x
      ensures x in (current - remove * current) + (add - current) <==> x in target
    {
      assert x in add ==> x !in remove by { assert x !in add * remove; }
    }
    if target == current {
      assert forall x :: x in add ==> x in target;
      assert forall x :: x in remove && x in target ==> x in add * remove;
    }
  }

  lemma AmendedMembers(r: Rules, name: string, removed: set<string>, added: set<string>)
    ensures
      var r' := Amend(r, Delta({}, {}, Joins(removed, {name}), Joins(added, {name})));
      && MembersOf(r', name) == (MembersOf(r, name) - removed) + added
      && (forall n :: n != name ==> MembersOf(r', n) == MembersOf(r, n))
      && r'.grants == r.grants
  {
    var r' := Amend(r, Delta({}, {}, Joins(removed, {name}), Joins(added, {name})));
    assert forall u, n :: (u, n) in r'.members <==>
           ((u, n) in r.members && !(n == name && u in removed)) || (n == name && u in added);
    forall n
      ensures MembersOf(r', n) == if n == name then (MembersOf(r, n) - removed) + added else MembersOf(r, n)
    {
      assert forall u :: u in MembersOf(r', n) <==> (u, n) in r'.members;
      assert forall u :: u in MembersOf(r, n) <==> (u, n) in r.members;
    }
  }

  lemma AmendedGroups(r: Rules, id: string, removed: set<string>, added: set<string>)
    ensures
      var r' := Amend(r, Delta({}, {}, Joins({id}, removed), Joins({id}, added)));
      && GroupsOf(r', id) == (GroupsOf(r, id) - removed) + added
      && (forall v :: v != id ==> GroupsOf(r', v) == GroupsOf(r, v))
      && r'.grants == r.grants
  {
    var r' := Amend(r, Delta({}, {}, Joins({id}, removed), Joins({id}, added)));
    assert forall u, n :: (u, n) in r'.members <==>
           ((u, n) in r.members && !(u == id && n in removed)) || (u == id && n in added);
    forall u
      ensures GroupsOf(r', u) == if u == id then (GroupsOf(r, u) - removed) + added else GroupsOf(r, u)
    {
      assert forall n :: n in GroupsOf(r', u) <==> (u, n) in r'.members;
      assert forall n :: n in GroupsOf(r, u) <==> (u, n) in r.members;
    }
  }

  lemma AmendedPermissions(r: Rules, name: string, removed: set<Permission>, added: set<Permission>)
    ensures
      var r' := Amend(r, Delta(Grants(name, removed), Grants(name, added), {}, {}));
      && PermissionsOf(r', name) == (PermissionsOf(r, name) - removed) + added
      && (forall n :: n != name ==> PermissionsOf(r', n) == PermissionsOf(r, n))
      && r'.members == r.members
  {
    var r' := Amend(r, Delta(Grants(name, removed), Grants(name, added), {}, {}));
    assert forall n, p :: (Group(n), p) in r'.grants <==>
           ((Group(n), p) in r.grants && !(n == name && p in removed)) || (n == name && p in added);
    forall n
      ensures PermissionsOf(r', n) == if n == name then (PermissionsOf(r, n) - removed) + added else PermissionsOf(r, n)
    {
      assert forall p :: p in PermissionsOf(r', n) <==> (Group(n), p) in r'.grants;
      assert forall p :: p in PermissionsOf(r, n) <==> (Group(n), p) in r.grants;
    }
  }

  /** What a request names is where it is believed to be: nothing to be added is seen without being stored,
      nothing to be removed is stored without being seen. */
  predicate InSync<T(==)>(seen: set<T>, stored: set<T>, add: set<T>, remove: set<T>) {
    add * seen <= stored && remove * stored <= seen
  }

  /** A delta trimmed to what one store lacks does all that was asked of another exactly when they agree so. */
  lemma TrimmedElsewhere<T>(seen: set<T>, stored: set<T>, add: set<T>, remove: set<T>)
    requires add * remove == {}
    ensures (stored - remove * seen) + (add - seen) == (stored - remove) + add <==> InSync(seen, stored, add, remove)
  {
    var left, right := (stored - remove * seen) + (add - seen), (stored - remove) + add;
    forall x
      ensures (x in left <==> x in right) <==>
              !(x in add * seen && x !in stored) && !(x in remove * stored && x !in seen)
    {
      assert x in add ==> x !in remove by { assert x !in add * remove; }
    }
    if !(add * seen <= stored) {
      var x :| x in add * seen && x !in stored;
      assert x in left <==> x !in right;
    }
    if !(remove * stored <= seen) {
      var x :| x in remove * stored && x !in seen;
      assert x in left <==> x !in right;
    }
  }

  /** The sets a use case is asked to leave behind. */
  function Target<T(==)>(current: set<T>, add: seq<T>, remove: seq<T>): (target: set<T>) {
    (current - Elements(remove)) + Elements(add)
  }

  lemma NoOverlap<T>(a: seq<T>, b: seq<T>)
    requires !Overlap(a, b)
    ensures Elements(a) * Elements(b) == {}
  {
  }

  /** An accepted membership delta makes of the members the checks saw exactly (current minus removed) plus
      added, and counts up exactly when that is a change; it makes the same of the members on disk if and only
      if the cache was right about everyone the request names. */
  lemma MembersExact(d: Dir, a: Action)
    requires a.UpdateMembers? && MembersUpdated(d, a).Ok?
    ensures
      var d', seen, stored := After(d, a), MembersOf(d.cache, a.name), MembersOf(d.disk, a.name);
      var counted := Bump(d.groups[a.name].membersVersion, Target(seen, a.add, a.remove) != seen);
      && MembersOf(d'.cache, a.name) == Target(seen, a.add, a.remove)
      && (MembersOf(d'.disk, a.name) == Target(stored, a.add, a.remove) <==>
          InSync(seen, stored, Elements(a.add), Elements(a.remove)))
      && d'.groups == d.groups[a.name := d.groups[a.name].(membersVersion := counted)]
      && (forall n :: n != a.name ==> MembersOf(d'.cache, n) == MembersOf(d.cache, n))
      && (forall n :: n != a.name ==> MembersOf(d'.disk, n) == MembersOf(d.disk, n))
      && d'.cache.grants == d.cache.grants && d'.disk.grants == d.disk.grants
  {
    var seen, stored := MembersOf(d.cache, a.name), MembersOf(d.disk, a.name);
    var added, removed := Elements(a.add) - seen, Elements(a.remove) * seen;
    NoOverlap(a.add, a.remove);
    EffectiveDelta(seen, Elements(a.add), Elements(a.remove));
    TrimmedElsewhere(seen, stored, Elements(a.add), Elements(a.remove));
    AmendedMembers(d.cache, a.name, removed, added);
    AmendedMembers(d.disk, a.name, removed, added);
  }

  /** An accepted permission delta is trimmed against the disk, so it always does there what was asked; the
      cache comes to it if and only if it was right about every permission the request names. */
  lemma PermissionsExact(d: Dir, a: Action)
    requires a.UpdatePermissions? && PermissionsUpdated(d, a).Ok?
    ensures
      var d', seen, stored := After(d, a), PermissionsOf(d.disk, a.name), PermissionsOf(d.cache, a.name);
      var counted := Bump(d.groups[a.name].permissionsVersion, Target(seen, a.grant, a.revoke) != seen);
      && PermissionsOf(d'.disk, a.name) == Target(seen, a.grant, a.revoke)
      && (PermissionsOf(d'.cache, a.name) == Target(stored, a.grant, a.revoke) <==>
          InSync(seen, stored, Elements(a.grant), Elements(a.revoke)))
      && d'.groups == d.groups[a.name := d.groups[a.name].(permissionsVersion := counted)]
      && (forall n :: n != a.name ==> PermissionsOf(d'.cache, n) == PermissionsOf(d.cache, n))
      && (forall n :: n != a.name ==> PermissionsOf(d'.disk, n) == PermissionsOf(d.disk, n))
      && d'.cache.members == d.cache.members && d'.disk.members == d.disk.members
  {
    var seen, stored := PermissionsOf(d.disk, a.name), PermissionsOf(d.cache, a.name);
    var added, removed := Elements(a.grant) - seen, Elements(a.revoke) * seen;
    NoOverlap(a.grant, a.revoke);
    EffectiveDelta(seen, Elements(a.grant), Elements(a.revoke));
    TrimmedElsewhere(seen, stored, Elements(a.grant), Elements(a.revoke));
    AmendedPermissions(d.cache, a.name, removed, added);
    AmendedPermissions(d.disk, a.name, removed, added);
  }

  lemma AskedIsChange<T>(seen: set<T>, add: seq<T>, remove: seq<T>)
    requires !Overlap(add, remove)
    ensures Target(seen, add, remove) == seen <==> NotIn(add, seen) == [] && KeptIn(remove, seen) == []
  {
    NoOverlap(add, remove);
    EffectiveDelta(seen, Elements(add), Elements(remove));
    EffectiveParts(add, remove, seen);
  }

  lemma GroupsOnDisk(d: Dir, a: Action)
    requires a.UpdateGroups? && GroupsUpdated(d, a).Ok?
    ensures
      var d', seen, stored := After(d, a), GroupsOf(d.cache, a.id), GroupsOf(d.disk, a.id);
      && (GroupsOf(d'.disk, a.id) == Target(stored, a.add, a.remove) <==>
          InSync(seen, stored, Elements(a.add), Elements(a.remove)))
      && (forall v :: v != a.id ==> GroupsOf(d'.disk, v) == GroupsOf(d.disk, v))
      && d'.disk.grants == d.disk.grants
  {
    var seen, stored := GroupsOf(d.cache, a.id), GroupsOf(d.disk, a.id);
    EffectiveParts(a.add, a.remove, seen);
    NoOverlap(a.add, a.remove);
    TrimmedElsewhere(seen, stored, Elements(a.add), Elements(a.remove));
    AmendedGroups(d.disk, a.id, Elements(a.remove) * seen, Elements(a.add) - seen);
  }

  lemma GroupsInCache(d: Dir, a: Action)
    requires a.UpdateGroups? && GroupsUpdated(d, a).Ok?
    ensures
      var d', seen := After(d, a), GroupsOf(d.cache, a.id);
      && GroupsOf(d'.cache, a.id) == Target(seen, a.add, a.remove)
      && (forall v :: v != a.id ==> GroupsOf(d'.cache, v) == GroupsOf(d.cache, v))
      && d'.cache.grants == d.cache.grants
  {
    var seen := GroupsOf(d.cache, a.id);
    EffectiveParts(a.add, a.remove, seen);
    NoOverlap(a.add, a.remove);
    EffectiveDelta(seen, Elements(a.add), Elements(a.remove));
    AmendedGroups(d.cache, a.id, Elements(a.remove) * seen, Elements(a.add) - seen);
  }

  lemma GroupsCounted(d: Dir, a: Action)
    requires a.UpdateGroups? && GroupsUpdated(d, a).Ok?
    ensures
      var d', seen := After(d, a), GroupsOf(d.cache, a.id);
      var counted := Bump(d.users[a.id].membershipVersion, Target(seen, a.add, a.remove) != seen);
      d'.users == d.users[a.id := d.users[a.id].(membershipVersion := counted)] && d'.groups == d.groups
  {
    var seen := GroupsOf(d.cache, a.id);
    AskedIsChange(seen, a.add, a.remove);
    if NotIn(a.add, seen) == [] && KeptIn(a.remove, seen) == [] {
      assert d.users[a.id := d.users[a.id]] == d.users;
    }
  }

  /** The same for one user's groups. */
  lemma GroupsExact(d: Dir, a: Action)
    requires a.UpdateGroups? && GroupsUpdated(d, a).Ok?
    ensures
      var d', seen, stored := After(d, a), GroupsOf(d.cache, a.id), GroupsOf(d.disk, a.id);
      var counted := Bump(d.users[a.id].membershipVersion, Target(seen, a.add, a.remove) != seen);
      && GroupsOf(d'.cache, a.id) == Target(seen, a.add, a.remove)
      && (GroupsOf(d'.disk, a.id) == Target(stored, a.add, a.remove) <==>
          InSync(seen, stored, Elements(a.add), Elements(a.remove)))
      && d'.users == d.users[a.id := d.users[a.id].(membershipVersion := counted)]
      && (forall v :: v != a.id ==> GroupsOf(d'.cache, v) == GroupsOf(d.cache, v))
      && (forall v :: v != a.id ==> GroupsOf(d'.disk, v) == GroupsOf(d.disk, v))
      && d'.cache.grants == d.cache.grants && d'.disk.grants == d.disk.grants && d'.groups == d.groups
  {
    GroupsOnDisk(d, a);
    GroupsInCache(d, a);
    GroupsCounted(d, a);
  }

  lemma EffectiveParts<T>(add: seq<T>, remove: seq<T>, current: set<T>)
    ensures Elements(NotIn(add, current)) == Elements(add) - current
    ensures Elements(KeptIn(remove, current)) == Elements(remove) * current
    ensures NotIn(add, current) == [] <==> Elements(add) - current == {}
    ensures KeptIn(remove, current) == [] <==> Elements(remove) * current == {}
  {
    NotInElements(add, current);
    KeptInElements(remove, current);
    var added, removed := NotIn(add, current), KeptIn(remove, current);
    forall x ensures x in Elements(added) <==> x in Elements(add) - current {}
    forall x ensures x in Elements(removed) <==> x in Elements(remove) * current {}
    assert added != [] ==> added[0] in Elements(added);
    assert removed != [] ==> removed[0] in Elements(removed);
  }
}
