/** Who is left in charge, over every interleaving; and the runs that go wrong while replays are outstanding. */
module DirectoryGuard {
  import opened Outcome
  import opened Policy
  import opened Directory
  import opened DirectorySafety
  import opened DirectoryReplay
  import opened DirectoryRuns

  /** The superadmins on disk, and those the checks still see. */
  function Admins(d: Dir): (us: set<string>) {
    MembersOf(d.disk, SUPERADMIN)
  }

  function SeenAdmins(d: Dir): (us: set<string>) {
    MembersOf(d.cache, SUPERADMIN)
  }

  /** An operation that would touch the superadmin group or its wildcard rule. */
  predicate Meddles(op: Op) {
    || op == RemoveRule((Group(SUPERADMIN), EVERYTHING))
    || op == DropGroup(SUPERADMIN)
    || (op.AddMember? && op.member.1 == SUPERADMIN)
    || (op.RemoveMember? && op.member.1 == SUPERADMIN)
  }

  /** The superadmin group is there, immutable, and holds everything in both stores; nothing outstanding
      meddles with it; and the superadmins are those the checks see whose deletion is not outstanding. */
  ghost predicate Guarded(s: Site) {
    && Seeded(s.dir)
    && (Group(SUPERADMIN), EVERYTHING) in s.dir.cache.grants
    && (forall op :: Due(s.due, op) ==> !Meddles(op))
    && (forall u :: u in Admins(s.dir) <==> u in SeenAdmins(s.dir) && !Due(s.due, DropUser(u)))
  }

  // ---------------------------------------------------------------- every move keeps the guard

  lemma OpsMindAdmins(ops: seq<Op>, t: Delta)
    requires Lists(ops, t) && (Group(SUPERADMIN), EVERYTHING) !in t.revoked
    requires forall m :: m in t.joined + t.left ==> m.1 != SUPERADMIN
    ensures forall op :: op in ops ==> !Meddles(op) && !op.DropUser?
  {
  }

  lemma CommitKeepsGuard(s: Site, d': Dir, ops: seq<Op>)
    requires Guarded(s) && d'.cache == s.dir.cache && Seeded(d') && Admins(d') == Admins(s.dir)
    requires forall op :: op in ops ==> !Meddles(op) && !op.DropUser?
    ensures Guarded(Site(d', s.due + [ops]))
  {
    forall op ensures Due(s.due + [ops], op) <==> Due(s.due, op) || op in ops {
      DueOneMore(s.due, ops, op);
    }
  }

  lemma DeltaKeepsGuard(s: Site, view: Rules, a: Action)
    requires Guarded(s) && Decided(s.dir, view, a) && !a.DeleteUser? && !a.DeleteGroup?
    ensures Guarded(Committed(s, view, a)) && Admins(Committed(s, view, a).dir) == Admins(s.dir)
  {
    var e, t := s.dir.(cache := view), DeltaOf(s.dir.(cache := view), a);
    DeltaMindsAdmins(s.dir, view, a);
    SavedIsAmended(s.dir, view, a);
    OpsList(e, a);
    OpsMindAdmins(OpsOf(e, a), t);
    AmendMindsAdmins(s.dir.disk, t);
    assert (Group(SUPERADMIN), EVERYTHING) in Amend(s.dir.disk, t).grants;
    CommitKeepsGuard(s, Saved(s.dir, view, a), OpsOf(e, a));
  }

  lemma AmendMindsAdmins(r: Rules, t: Delta)
    requires forall m :: m in t.joined + t.left ==> m.1 != SUPERADMIN
    ensures MembersOf(Amend(r, t), SUPERADMIN) == MembersOf(r, SUPERADMIN)
  {
  }

  /** The superadmins on disk change only when one of them is deleted. */
  lemma UseKeepsGuard(s: Site, view: Rules, a: Action)
    requires Guarded(s) && Decided(s.dir, view, a)
    ensures Guarded(Committed(s, view, a))
    ensures Admins(Committed(s, view, a).dir) == Admins(s.dir) - (if a.DeleteUser? then {a.id} else {})
  {
    if !a.DeleteUser? && !a.DeleteGroup? {
      DeltaKeepsGuard(s, view, a);
    } else {
      var ops, s' := OpsOf(s.dir.(cache := view), a), Committed(s, view, a);
      forall op ensures Due(s'.due, op) <==> Due(s.due, op) || op in ops {
        DueOneMore(s.due, ops, op);
      }
    }
  }

  lemma CatchKeepsGuard(s: Site, i: nat)
    requires Guarded(s) && i < |s.due| && s.due[i] != []
    ensures Guarded(Moved(s, Catch(i)))
  {
    var op, s' := s.due[i][0], Moved(s, Catch(i));
    DueOneLess(s.due, i, op);
    forall o ensures Due(s'.due, o) ==> Due(s.due, o) {
      DueOneLess(s.due, i, o);
    }
    forall o | Due(s.due, o) && o != op ensures Due(s'.due, o) {
      StillDue(s.due, i, o);
    }
    forall u ensures u in Admins(s'.dir) <==> u in SeenAdmins(s'.dir) && !Due(s'.due, DropUser(u)) {
      assert u in SeenAdmins(s'.dir) <==> u in SeenAdmins(s.dir) && op != DropUser(u);
    }
  }

  lemma StillDue(due: seq<seq<Op>>, i: nat, op: Op)
    requires i < |due| && due[i] != [] && Due(due, op) && op != due[i][0]
    ensures Due(due[i := due[i][1..]], op)
  {
    var m, j :| 0 <= m < |due| && 0 <= j < |due[m]| && due[m][j] == op;
    assert due[i := due[i][1..]][m][if m == i then j - 1 else j] == op;
  }

  lemma ReloadKeepsGuard(s: Site, due: seq<seq<Op>>)
    requires Guarded(s) && forall op :: Due(due, op) ==> Due(s.due, op)
    ensures Guarded(Site(s.dir.(cache := s.dir.disk), due))
  {
  }

  /** A start puts its account among the superadmins, whoever is left of them. */
  lemma RestartGuards(s: Site, root: Root)
    ensures Guarded(Moved(s, Restart(root))) && Admins(Moved(s, Restart(root)).dir) == Admins(s.dir) + {root.id}
  {
    BootSeeds(s.dir, root);
  }

  lemma MoveKeepsGuard(s: Site, m: Move)
    requires Guarded(s) && (m.Catch? || m.Reload?)
    ensures Guarded(Moved(s, m)) && Admins(Moved(s, m).dir) == Admins(s.dir)
  {
    match m
    case Catch(i) =>
      if i < |s.due| && s.due[i] != [] {
        CatchKeepsGuard(s, i);
      }
    case Reload => ReloadKeepsGuard(s, s.due);
  }

  /** Whom a step takes from the superadmins, and whom it adds. */
  function Leaving(g: Stage): (us: set<string>) {
    if g.Slow? && g.a.DeleteUser? then {g.a.id} else {}
  }

  function Entering(g: Stage): (us: set<string>) {
    if g.Plain? && g.m.Restart? then {g.m.root.id} else {}
  }

  /** Whatever happens keeps the guard and, unless it deletes one of them or starts the process anew, the
      superadmins. */
  lemma GuardedStep(ss: seq<Site>, stages: seq<Stage>, i: nat)
    requires IsRun(ss, stages) && i < |stages| && Guarded(ss[i])
    ensures Guarded(ss[i + 1])
    ensures Admins(ss[i + 1].dir) == (Admins(ss[i].dir) - Leaving(stages[i])) + Entering(stages[i])
  {
    assert Happens(ss, stages, i);
    match stages[i]
    case Plain(m) =>
      if m.Restart? { RestartGuards(ss[i], m.root); } else { MoveKeepsGuard(ss[i], m); }
    case Slow(a, since, at) =>
      HappensIsDecided(ss, stages, i);
      UseKeepsGuard(ss[i], ss[at].dir.cache, a);
  }

  // ---------------------------------------------------------------- the last one

  /** All superadmins the cache shows, apart from the one to go, are already on their way out. */
  ghost predicate LastOneStanding(s: Site, id: string) {
    forall u :: u in SeenAdmins(s.dir) && u != id ==> Due(s.due, DropUser(u))
  }

  /** A deletion empties the superadmin group exactly then. */
  lemma EmptiedExactly(s: Site, view: Rules, a: Action)
    requires Guarded(s) && a.DeleteUser? && Decided(s.dir, view, a)
    ensures Admins(Committed(s, view, a).dir) == {} <==> LastOneStanding(s, a.id)
  {
    UseKeepsGuard(s, view, a);
    var left := Admins(s.dir) - {a.id};
    assert forall u :: u in left <==> u in SeenAdmins(s.dir) && u != a.id && !Due(s.due, DropUser(u));
  }

  /** The last-admin check is right about the disk when no deletion is outstanding as it reads. */
  lemma CheckIsExact(s: Site, id: string)
    requires Guarded(s) && forall u :: !Due(s.due, DropUser(u))
    ensures MembersOf(s.dir.cache, SUPERADMIN) == {id} <==> Admins(s.dir) == {id}
  {
    assert SeenAdmins(s.dir) == Admins(s.dir);
  }

  /** This deletes a superadmin as the last one standing. */
  ghost predicate DeletesLast(s: Site, g: Stage) {
    g.Slow? && g.a.DeleteUser? && LastOneStanding(s, g.a.id)
  }

  lemma EmptiedStep(ss: seq<Site>, stages: seq<Stage>, i: nat)
    requires IsRun(ss, stages) && i < |stages| && Guarded(ss[i]) && Entering(stages[i]) == {}
    ensures Guarded(ss[i + 1]) && Admins(ss[i + 1].dir) <= Admins(ss[i].dir)
    ensures Admins(ss[i + 1].dir) == {} <==> Admins(ss[i].dir) == {} || DeletesLast(ss[i], stages[i])
  {
    GuardedStep(ss, stages, i);
    if stages[i].Slow? && stages[i].a.DeleteUser? {
      assert Happens(ss, stages, i);
      HappensIsDecided(ss, stages, i);
      EmptiedExactly(ss[i], ss[stages[i].at].dir.cache, stages[i].a);
    }
  }

  /** When the process serving at this moment started. */
  function Start(stages: seq<Stage>, n: nat): (i: nat)
    requires n <= |stages|
    ensures i <= n
  {
    if n == 0 || Entering(stages[n - 1]) != {} then n else Start(stages, n - 1)
  }

  /** Over every run the superadmins only dwindle from one start of the process to the next, and some are left
      exactly when none was deleted as the last one standing since then. */
  lemma {:induction false} NeverEmptied(ss: seq<Site>, stages: seq<Stage>, n: nat)
    requires IsRun(ss, stages) && Guarded(ss[0]) && Admins(ss[0].dir) != {} && n <= |stages|
    ensures Guarded(ss[n]) && Admins(ss[n].dir) <= Admins(ss[Start(stages, n)].dir)
    ensures Admins(ss[Start(stages, n)].dir) != {}
    ensures Admins(ss[n].dir) != {} <==> forall i :: Start(stages, n) <= i < n ==> !DeletesLast(ss[i], stages[i])
  {
    if n > 0 {
      NeverEmptied(ss, stages, n - 1);
      if Entering(stages[n - 1]) == {} {
        EmptiedStep(ss, stages, n - 1);
      } else {
        GuardedStep(ss, stages, n - 1);
      }
    }
  }

  /** Then somebody who was a superadmin when the process started can still do everything. */
  lemma NeverLockedOut(ss: seq<Site>, stages: seq<Stage>)
    requires IsRun(ss, stages) && Guarded(ss[0]) && Admins(ss[0].dir) != {}
    requires forall i :: Start(stages, |stages|) <= i < |stages| ==> !DeletesLast(ss[i], stages[i])
    ensures exists u ::
      u in Admins(ss[Start(stages, |stages|)].dir) && forall q :: Can(ss[|stages|].dir.cache, User(u), q)
  {
    NeverEmptied(ss, stages, |stages|);
    SomeoneRules(ss[|stages|]);
  }

  lemma SomeoneRules(s: Site)
    requires Guarded(s) && Admins(s.dir) != {}
    ensures exists u :: u in Admins(s.dir) && forall q :: Can(s.dir.cache, User(u), q)
  {
    var u :| u in Admins(s.dir);
    AdminCan(s.dir.cache, u);
  }

  lemma AdminCan(r: Rules, u: string)
    requires (Group(SUPERADMIN), EVERYTHING) in r.grants && (u, SUPERADMIN) in r.members
    ensures forall q :: Can(r, User(u), q)
  {
    assert Reaches(r, Group(SUPERADMIN), User(u));
    assert forall q :: Covers(EVERYTHING, q);
  }

  /** Otherwise nobody may be left: two superadmins delete each other, and the second still sees both. */
  lemma TwoDeleteEachOther(d: Dir, x: string, y: string)
    requires Guarded(Site(d, [])) && Admins(d) == {x, y} && x != y && x in d.users && y in d.users
    ensures var first := Moved(Site(d, []), Use(DeleteUser(x, y)));
            && Accepted(Site(d, []), Use(DeleteUser(x, y)))
            && Accepted(first, Use(DeleteUser(y, x)))
            && Admins(Moved(first, Use(DeleteUser(y, x))).dir) == {}
            && forall root ::
                 Admins(Moved(Moved(first, Use(DeleteUser(y, x))), Restart(root)).dir) == {root.id}
  {
    var s := Site(d, []);
    assert SeenAdmins(d) == {x, y};
    AdminCan(d.cache, x);
    AdminCan(d.cache, y);
    var first := Moved(s, Use(DeleteUser(x, y)));
    assert Accepted(s, Use(DeleteUser(x, y)));
    AtOnce(s, DeleteUser(x, y));
    UseKeepsGuard(s, d.cache, DeleteUser(x, y));
    assert Accepted(first, Use(DeleteUser(y, x)));
    AtOnce(first, DeleteUser(y, x));
    UseKeepsGuard(first, d.cache, DeleteUser(y, x));
    EmptyStartsAnew(Moved(first, Use(DeleteUser(y, x))));
  }

  lemma EmptyStartsAnew(s: Site)
    requires Admins(s.dir) == {}
    ensures forall root :: Admins(Moved(s, Restart(root)).dir) == {root.id}
  {
    forall root ensures Admins(Moved(s, Restart(root)).dir) == {root.id} {
      RestartGuards(s, root);
    }
  }

  // ---------------------------------------------------------------- overtaken replays

  /** A permission granted and then revoked, the two replayed in the other order: nothing is outstanding, the
      disk does not have the rule, and the cache does. */
  lemma RevokedYetInForce(d: Dir, actor: string, name: string, p: Permission)
    requires MutableFault(d.groups, name).None? && MembersOf(d.cache, name) == {} && p !in PermissionsOf(d.disk, name)
    requires Assignable(p) && Can(d.cache, User(actor), p)
    ensures var grant := UpdatePermissions(actor, name, [p], [], None);
            var revoke := UpdatePermissions(actor, name, [], [p], None);
            var s := Moved(Moved(Moved(Moved(Site(d, []), Use(grant)), Use(revoke)), Catch(1)), Catch(0));
            && s.due == [[], []]
            && (Group(name), p) in s.dir.cache.grants && (Group(name), p) !in s.dir.disk.grants
  {
    var g := (Group(name), p);
    var grant, revoke := UpdatePermissions(actor, name, [p], [], None), UpdatePermissions(actor, name, [], [p], None);
    var s1 := Moved(Site(d, []), Use(grant));
    GrantStep(d, actor, name, p);
    RevokeStep(s1.dir, actor, name, p);
    var s2 := Moved(s1, Use(revoke));
    assert s2.due == [[AddRule(g)], [RemoveRule(g)]];
    var s3 := Moved(s2, Catch(1));
    assert s2.due[1] == [RemoveRule(g)] && [RemoveRule(g)][1..] == [];
    assert s3.due == s2.due[1 := []];
    var s4 := Moved(s3, Catch(0));
    assert s3.due[0] == [AddRule(g)] && [AddRule(g)][1..] == [];
    assert s4.due == s3.due[0 := []];
  }

  lemma GrantStep(d: Dir, actor: string, name: string, p: Permission)
    requires MutableFault(d.groups, name).None? && MembersOf(d.cache, name) == {} && p !in PermissionsOf(d.disk, name)
    requires Assignable(p) && Can(d.cache, User(actor), p)
    ensures var a := UpdatePermissions(actor, name, [p], [], None);
            && Perform(d, a).Ok? && OpsOf(d, a) == [AddRule((Group(name), p))]
            && p in PermissionsOf(After(d, a).disk, name) && MutableFault(After(d, a).groups, name).None?
  {
    var a := UpdatePermissions(actor, name, [p], [], None);
    var current := PermissionsOf(d.disk, name);
    assert NotIn([p], current) == [p] by {
      assert [p][..0] == [];
    }
    assert Elements([p]) - current == {p} && Elements<Permission>([]) == {};
    assert Perform(d, a).Ok?;
    assert (Group(name), p) in After(d, a).disk.grants;
  }

  lemma RevokeStep(d: Dir, actor: string, name: string, p: Permission)
    requires MutableFault(d.groups, name).None? && MembersOf(d.cache, name) == {} && p in PermissionsOf(d.disk, name)
    ensures var a := UpdatePermissions(actor, name, [], [p], None);
            && Perform(d, a).Ok? && OpsOf(d, a) == [RemoveRule((Group(name), p))]
            && (Group(name), p) !in After(d, a).disk.grants
  {
    var a := UpdatePermissions(actor, name, [], [p], None);
    var current := PermissionsOf(d.disk, name);
    assert KeptIn([p], current) == [p] by {
      assert [p][..0] == [];
    }
    assert Elements([p]) * current == {p} && Elements<Permission>([]) == {};
    assert Perform(d, a).Ok?;
  }

  /** A removal is dropped without a word while the addition it should undo is outstanding: it finds nothing to
      remove, succeeds, and the membership stays. */
  lemma RemovalMissed(d: Dir, actor: string, id: string, name: string)
    requires MayJoin(d, actor, id, name)
    ensures var add, remove := UpdateGroups(actor, id, [name], [], None), UpdateGroups(actor, id, [], [name], None);
            var s1 := Moved(Site(d, []), Use(add));
            && Accepted(Site(d, []), Use(add)) && Accepted(s1, Use(remove))
            && (id, name) in Moved(s1, Use(remove)).dir.disk.members
            && Moved(s1, Use(remove)).due == [[AddMember((id, name))], []]
  {
    var add, remove := UpdateGroups(actor, id, [name], [], None), UpdateGroups(actor, id, [], [name], None);
    JoinStep(d, actor, id, name);
    var s1 := Moved(Site(d, []), Use(add));
    assert s1.due == [[AddMember((id, name))]];
    LeaveStep(s1.dir, actor, id, name);
    var s2 := Moved(s1, Use(remove));
    assert s2.due == s1.due + [[]];
  }

  lemma LeaveStep(d: Dir, actor: string, id: string, name: string)
    requires id in d.users && !d.users[id].system && GroupsOf(d.cache, id) <= d.groups.Keys
    requires name !in GroupsOf(d.cache, id) && CanOnGroup(d.cache, User(actor), name, WRITE)
    ensures var a := UpdateGroups(actor, id, [], [name], None);
            Perform(d, a) == Ok(d) && OpsOf(d, a) == []
  {
    var current := GroupsOf(d.cache, id);
    assert [] + [name] == [name];
    assert KeptIn([name], current) == [] by {
      assert [name][..0] == [];
    }
    assert DeltaFault(d, actor, id, [], [name]).None?;
  }
}
