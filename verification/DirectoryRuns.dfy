/** Every interleaving of use cases. A use case checks against the cache and writes the disk inside its
    transaction; its operations reach the cache only after the commit, one by one, with the writer lock
    released. So other use cases decide before they do, and even between two checks of one use case the cache
    may change: each check may meet the cache of another moment. */
module DirectoryRuns {
  import opened Policy
  import opened Directory
  import opened DirectorySafety
  import opened DirectoryReplay

  /** The directory, and for each committed use case, in commit order, the operations still to be replayed. */
  datatype Site = Site(dir: Dir, due: seq<seq<Op>>)

  /** The account that a start of the process puts in charge. */
  datatype Root = Root(id: string, email: string)

  const EVERYTHING := Permission(ALL, ALL, ALL)

  /** It is the system account, or a new one if there is none, and nobody else has its email. */
  predicate Boots(d: Dir, root: Root) {
    && (if root.id in d.users then d.users[root.id].system else forall u :: u in d.users ==> !d.users[u].system)
    && (forall u :: u in d.users && u != root.id ==> d.users[u].email != root.email)
  }

  /** What is there before anything is served: the superadmin group, its wildcard rule, and the account among
      its members; the cache is then loaded from disk. */
  function Booted(d: Dir, root: Root): (d': Dir) {
    var disk := Rules(d.disk.grants + {(Group(SUPERADMIN), EVERYTHING)}, d.disk.members + {(root.id, SUPERADMIN)});
    Dir(BootedGroups(d.groups), BootedUsers(d.users, root), disk, disk)
  }

  function BootedGroups(groups: map<string, GroupRecord>): (groups': map<string, GroupRecord>) {
    groups[SUPERADMIN :=
      if SUPERADMIN in groups then groups[SUPERADMIN].(system := true) else GroupRecord(true, 0, 0)]
  }

  function BootedUsers(users: map<string, Account>, root: Root): (users': map<string, Account>) {
    users[root.id := if root.id in users then users[root.id].(email := root.email) else Account(true, root.email, 0)]
  }

  /** One thing that happens at one moment. */
  datatype Move =
    | Use(a: Action)        // a use case that nothing comes between, from its first check to its commit
    | Catch(i: nat)         // one operation of the i-th committed use case reaches the cache
    | Reload                // LoadPolicy while others are still replaying
    | Restart(root: Root)   // a new process, seeded, with nothing outstanding

  function Moved(s: Site, m: Move): (s': Site) {
    match m
    case Use(a) =>
      (match Perform(s.dir, a)
        case Err(_) => s
        case Ok(d') => Site(d'.(cache := s.dir.cache), s.due + [OpsOf(s.dir, a)]))
    case Catch(i) =>
      if i < |s.due| && s.due[i] != [] then
        Site(s.dir.(cache := ReplayOne(s.dir.cache, s.due[i][0])), s.due[i := s.due[i][1..]])
      else s
    case Reload => s.(dir := s.dir.(cache := s.dir.disk))
    case Restart(root) => Site(Booted(s.dir, root), [])
  }

  predicate Accepted(s: Site, m: Move) {
    m.Use? && Perform(s.dir, m.a).Ok?
  }

  /** An operation is outstanding. */
  ghost predicate Due(due: seq<seq<Op>>, op: Op) {
    exists i, j :: 0 <= i < |due| && 0 <= j < |due[i]| && due[i][j] == op
  }

  lemma DueOneMore(due: seq<seq<Op>>, ops: seq<Op>, op: Op)
    ensures Due(due + [ops], op) <==> Due(due, op) || op in ops
  {
    if Due(due, op) {
      var i, j :| 0 <= i < |due| && 0 <= j < |due[i]| && due[i][j] == op;
      assert (due + [ops])[i][j] == op;
    }
    if op in ops {
      var j :| 0 <= j < |ops| && ops[j] == op;
      assert (due + [ops])[|due|][j] == op;
    }
  }

  lemma DueOneLess(due: seq<seq<Op>>, i: nat, op: Op)
    requires i < |due| && due[i] != []
    ensures Due(due[i := due[i][1..]], op) ==> Due(due, op)
    ensures Due(due, due[i][0])
  {
    var due' := due[i := due[i][1..]];
    assert due[i][0] == due[i][0];
    if Due(due', op) {
      var m, j :| 0 <= m < |due'| && 0 <= j < |due'[m]| && due'[m][j] == op;
      assert due[m][if m == i then j + 1 else j] == op;
    }
  }

  // ---------------------------------------------------------------- checks against several caches

  /** Some of the caches lets this pass. */
  ghost predicate Seen(rs: seq<Rules>, who: Subject, p: Permission) {
    exists i :: 0 <= i < |rs| && Can(rs[i], who, p)
  }

  ghost predicate SeenAll(rs: seq<Rules>, who: Subject, ps: set<Permission>) {
    forall p :: p in ps ==> Seen(rs, who, p)
  }

  /** RequireMembershipGrant: the group's permissions are listed once, each is then looked up. */
  ghost predicate GrantSeen(rs: seq<Rules>, actor: string, name: string) {
    exists i :: 0 <= i < |rs| && SeenAll(rs, User(actor), PermissionsOf(rs[i], name))
  }

  ghost predicate GrantsSeen(rs: seq<Rules>, actor: string, names: seq<string>) {
    forall n :: n in names ==> GrantSeen(rs, actor, n)
  }

  ghost predicate ManagersSeen(groups: map<string, GroupRecord>, rs: seq<Rules>, managers: seq<string>,
                               ps: set<Permission>) {
    forall m :: m in managers ==> m in groups && SeenAll(rs, Group(m), ps)
  }

  /** The checks that bound what a use case writes have passed, each on one of the caches; what it compared its
      request with, it read from cache number at. */
  ghost predicate Passes(d: Dir, rs: seq<Rules>, at: nat, a: Action) {
    && at < |rs|
    && match a
       case UpdateMembers(actor, name, add, remove, expected) =>
         && MutableFault(d.groups, name).None?
         && (Elements(add) - MembersOf(rs[at], name) != {} ==> GrantSeen(rs, actor, name))
       case UpdatePermissions(actor, name, grant, revoke, expected) =>
         && MutableFault(d.groups, name).None? && !Overlap(grant, revoke)
         && SeenAll(rs, User(actor), Elements(grant) - PermissionsOf(d.disk, name))
       case UpdateGroups(actor, id, add, remove, expected) =>
         && id in d.users
         && LoadFault(d.groups, NotIn(add, GroupsOf(rs[at], id))).None?
         && LoadFault(d.groups, KeptIn(remove, GroupsOf(rs[at], id))).None?
         && GrantsSeen(rs, actor, NotIn(add, GroupsOf(rs[at], id)))
       case CreateUser(actor, id, email, names) =>
         id !in d.users && email.Some? && LoadFault(d.groups, names).None? && GrantsSeen(rs, actor, names)
       case DeleteUser(actor, id) => MembersOf(rs[at], SUPERADMIN) != {id}
       case CreateGroup(actor, name, members, perms, managers) =>
         && name !in d.groups && CanonicalName(name)
         && SeenAll(rs, User(actor), Elements(perms)) && ManagersSeen(d.groups, rs, managers, Elements(perms))
       case DeleteGroup(_, name) => MutableFault(d.groups, name).None?
  }

  /** The right to write a group was seen in the actor's hands. */
  ghost predicate WriteSeen(rs: seq<Rules>, actor: string, name: string) {
    Seen(rs, User(actor), Permission(GroupResource(name), OBJECT_GROUP, WRITE))
  }

  ghost predicate WritesSeen(rs: seq<Rules>, actor: string, names: seq<string>) {
    forall n :: n in names ==> WriteSeen(rs, actor, n)
  }

  ghost predicate UserWriteSeen(rs: seq<Rules>, actor: string, id: string) {
    || Seen(rs, User(actor), Permission(ALL, OBJECT_USER, WRITE))
    || exists i, n :: 0 <= i < |rs| && n in GroupsOf(rs[i], id) && WriteSeen(rs, actor, n)
  }

  /** CascadeCheckPerms: what a group comes to hold is seen in the actor's hands, unless it was seen without members
      or nothing changes. */
  ghost predicate CascadeSeen(rs: seq<Rules>, actor: string, name: string, current: set<Permission>,
                              post: set<Permission>) {
    post == current || exists i :: 0 <= i < |rs| && (MembersOf(rs[i], name) == {} || SeenAll(rs, User(actor), post))
  }

  /** So have the checks of reach, of versions and of the request itself. */
  ghost predicate Reaching(d: Dir, rs: seq<Rules>, a: Action) {
    match a
    case UpdateMembers(actor, name, add, remove, expected) =>
      !Overlap(add, remove) && name in d.groups && !Conflicts(expected, d.groups[name].membersVersion)
    case UpdatePermissions(actor, name, grant, revoke, expected) =>
      && (forall p :: p in grant ==> Assignable(p))
      && name in d.groups && !Conflicts(expected, d.groups[name].permissionsVersion)
      && var current := PermissionsOf(d.disk, name);
         CascadeSeen(rs, actor, name, current, (current - Elements(revoke)) + Elements(grant))
    case UpdateGroups(actor, id, add, remove, expected) =>
      && !Overlap(add, remove) && id in d.users && !d.users[id].system
      && !Conflicts(expected, d.users[id].membershipVersion) && WritesSeen(rs, actor, add + remove)
      && exists i :: 0 <= i < |rs| && GroupsOf(rs[i], id) <= d.groups.Keys
    case CreateUser(actor, id, email, names) =>
      && (Seen(rs, User(actor), Permission(ALL, OBJECT_USER, CREATE)) || names != []) && WritesSeen(rs, actor, names)
      && email.Some? && forall u :: u in d.users ==> d.users[u].email != email.value
    case DeleteUser(actor, id) =>
      && id in d.users && actor != id && UserWriteSeen(rs, actor, id)
      && exists i :: 0 <= i < |rs| && SeenAll(rs, User(actor), Implicit(rs[i], User(id)))
    case CreateGroup(actor, _, _, _, managers) => WritesSeen(rs, actor, managers)
    case DeleteGroup(_, _) => true
  }

  /** Accepted, the request compared with this view. */
  ghost predicate Decided(d: Dir, view: Rules, a: Action) {
    exists rs, at :: Passes(d, rs, at, a) && view == rs[at]
  }

  /** What is committed, the request compared with this view. */
  function Saved(d: Dir, view: Rules, a: Action): (d': Dir) {
    var e := d.(cache := view);
    match a
    case UpdateMembers(_, name, _, _, _) =>
      if OpsOf(e, a) == [] || name !in d.groups then d
      else
        var g := d.groups[name];
        d.(groups := d.groups[name := g.(membersVersion := g.membersVersion + 1)], disk := Amend(d.disk, DeltaOf(e, a)))
    case UpdatePermissions(_, name, _, _, _) =>
      if OpsOf(e, a) == [] || name !in d.groups then d
      else
        var g := d.groups[name];
        d.(groups := d.groups[name := g.(permissionsVersion := g.permissionsVersion + 1)],
           disk := Amend(d.disk, DeltaOf(e, a)))
    case UpdateGroups(_, id, _, _, _) =>
      if OpsOf(e, a) == [] || id !in d.users then d
      else
        var u := d.users[id];
        d.(users := d.users[id := u.(membershipVersion := u.membershipVersion + 1)],
           disk := Amend(d.disk, DeltaOf(e, a)))
    case CreateUser(_, id, email, _) =>
      if email.None? then d
      else d.(users := d.users[id := Account(false, email.value, 1)], disk := Amend(d.disk, DeltaOf(e, a)))
    case DeleteUser(_, id) => d.(users := d.users - {id}, disk := WithoutUser(d.disk, id))
    case CreateGroup(_, name, members, perms, _) =>
      var g := GroupRecord(false, if members == [] then 0 else 1, if perms == [] then 0 else 1);
      d.(groups := d.groups[name := g], disk := Amend(d.disk, DeltaOf(e, a)))
    case DeleteGroup(_, name) => d.(groups := d.groups - {name}, disk := WithoutGroup(d.disk, name))
  }

  // ---------------------------------------------------------------- a use case at one moment

  lemma OneView(r: Rules, who: Subject, ps: set<Permission>)
    requires Dominates(r, who, ps)
    ensures SeenAll([r], who, ps)
  {
    assert [r][0] == r;
  }

  lemma OneGrant(r: Rules, actor: string, name: string)
    requires Dominates(r, User(actor), PermissionsOf(r, name))
    ensures GrantSeen([r], actor, name)
  {
    OneView(r, User(actor), PermissionsOf(r, name));
    assert [r][0] == r;
  }

  lemma OneGrants(r: Rules, actor: string, names: seq<string>)
    requires MayGrantAll(r, actor, Elements(names))
    ensures GrantsSeen([r], actor, names)
  {
    forall n | n in names ensures GrantSeen([r], actor, n) {
      OneGrant(r, actor, n);
    }
  }

  lemma OneManagers(d: Dir, actor: string, managers: seq<string>, ps: set<Permission>)
    requires ManagerFault(d, actor, managers, ps).None?
    ensures ManagersSeen(d.groups, [d.cache], managers, ps)
  {
    ManagersExist(d, actor, managers, ps);
    forall m | m in managers ensures SeenAll([d.cache], Group(m), ps) {
      OneView(d.cache, Group(m), ps);
    }
  }

  /** A use case that reads everything at one moment is one that passes there, and commits the same. */
  lemma AtOnce(s: Site, a: Action)
    requires Perform(s.dir, a).Ok?
    ensures Passes(s.dir, [s.dir.cache], 0, a) && Decided(s.dir, s.dir.cache, a) && Reaching(s.dir, [s.dir.cache], a)
    ensures Moved(s, Use(a)) == Committed(s, s.dir.cache, a)
  {
    AtOncePasses(s.dir, a);
    AtOnceReaches(s.dir, a);
    AtOnceSaves(s.dir, a);
    assert [s.dir.cache][0] == s.dir.cache;
    assert s.dir.(cache := s.dir.cache) == s.dir;
  }

  lemma AtOncePasses(d: Dir, a: Action)
    requires Perform(d, a).Ok?
    ensures Passes(d, [d.cache], 0, a)
  {
    assert [d.cache][0] == d.cache;
    match a
    case UpdateMembers(actor, name, add, _, _) =>
      if Elements(add) - MembersOf(d.cache, name) != {} {
        OneGrant(d.cache, actor, name);
      }
    case UpdatePermissions(actor, name, grant, _, _) =>
      OneView(d.cache, User(actor), Elements(grant) - PermissionsOf(d.disk, name));
    case UpdateGroups(actor, id, add, _, _) => OneGrants(d.cache, actor, NotIn(add, GroupsOf(d.cache, id)));
    case CreateUser(actor, _, _, names) => OneGrants(d.cache, actor, names);
    case CreateGroup(actor, _, _, perms, managers) =>
      OneView(d.cache, User(actor), Elements(perms));
      OneManagers(d, actor, managers, Elements(perms));
    case _ =>
  }

  lemma OneWrites(r: Rules, actor: string, names: seq<string>)
    requires WritesAll(r, actor, names)
    ensures WritesSeen([r], actor, names)
  {
    assert [r][0] == r;
    forall n | n in names ensures WriteSeen([r], actor, n) {
      assert Can([r][0], User(actor), Permission(GroupResource(n), OBJECT_GROUP, WRITE));
    }
  }

  lemma AtOnceReaches(d: Dir, a: Action)
    requires Perform(d, a).Ok?
    ensures Reaching(d, [d.cache], a)
  {
    assert [d.cache][0] == d.cache;
    match a
    case UpdatePermissions(_, _, _, _, _) => AtOnceCascades(d, a);
    case UpdateGroups(actor, _, add, remove, _) => OneWrites(d.cache, actor, add + remove);
    case CreateUser(actor, _, _, names) => OneWrites(d.cache, actor, names);
    case DeleteUser(_, _) => AtOnceDeletes(d, a);
    case CreateGroup(actor, _, _, perms, managers) =>
      ManagersExist(d, actor, managers, Elements(perms));
      OneWrites(d.cache, actor, managers);
    case _ =>
  }

  lemma AtOnceCascades(d: Dir, a: Action)
    requires a.UpdatePermissions? && Perform(d, a).Ok?
    ensures Reaching(d, [d.cache], a)
  {
    assert [d.cache][0] == d.cache;
    var current := PermissionsOf(d.disk, a.name);
    var added, removed := Elements(a.grant) - current, Elements(a.revoke) * current;
    var post := (current - removed) + added;
    assert post == (current - Elements(a.revoke)) + Elements(a.grant);
    if post != current && MembersOf(d.cache, a.name) != {} {
      OneView(d.cache, User(a.actor), post);
    }
  }

  lemma AtOnceDeletes(d: Dir, a: Action)
    requires a.DeleteUser? && Perform(d, a).Ok?
    ensures Reaching(d, [d.cache], a)
  {
    var rs := [d.cache];
    assert rs[0] == d.cache;
    OneView(d.cache, User(a.actor), Implicit(d.cache, User(a.id)));
    if !CanGlobally(d.cache, User(a.actor), OBJECT_USER, WRITE) {
      var n :| n in GroupsOf(d.cache, a.id) && CanOnGroup(d.cache, User(a.actor), n, WRITE);
      OneWrites(d.cache, a.actor, [n]);
      assert n in [n] && n in GroupsOf(rs[0], a.id) && WriteSeen(rs, a.actor, n);
    }
  }

  lemma AtOnceSaves(d: Dir, a: Action)
    requires Perform(d, a).Ok?
    ensures Saved(d, d.cache, a) == After(d, a).(cache := d.cache)
  {
    assert d.(cache := d.cache) == d;
    match a
    case UpdateMembers(_, _, _, _, _) => AtOnceMembers(d, a);
    case UpdatePermissions(_, _, _, _, _) => AtOncePermissions(d, a);
    case _ =>
  }

  lemma AtOnceMembers(d: Dir, a: Action)
    requires a.UpdateMembers? && Perform(d, a).Ok?
    ensures Saved(d, d.cache, a) == After(d, a).(cache := d.cache)
  {
    EffectiveParts(a.add, a.remove, MembersOf(d.cache, a.name));
    assert d.(cache := d.cache) == d;
  }

  lemma AtOncePermissions(d: Dir, a: Action)
    requires a.UpdatePermissions? && Perform(d, a).Ok?
    ensures Saved(d, d.cache, a) == After(d, a).(cache := d.cache)
  {
    EffectiveParts(a.grant, a.revoke, PermissionsOf(d.disk, a.name));
    assert d.(cache := d.cache) == d;
  }

  /** What is committed amends the disk, joins only groups that then exist, and grants only to groups. */
  lemma SavedIsAmended(d: Dir, view: Rules, a: Action)
    requires !a.DeleteUser? && !a.DeleteGroup? && Decided(d, view, a)
    ensures var d', t := Saved(d, view, a), DeltaOf(d.(cache := view), a);
            && d'.disk == Amend(d.disk, t) && d'.cache == d.cache
            && d'.groups.Keys == (if a.CreateGroup? then d.groups.Keys + {a.name} else d.groups.Keys)
            && (forall g :: g in t.granted ==> g.0.Group? && g.0.name in d'.groups)
            && (forall m :: m in t.joined ==> m.1 in d'.groups)
  {
    var e := d.(cache := view);
    OpsList(e, a);
    if OpsOf(e, a) == [] {
      NothingListed(DeltaOf(e, a), d.disk);
    }
    match a
    case UpdateGroups(_, _, _, _, _) => LoadedAreMutable(d.groups, NotIn(a.add, GroupsOf(view, a.id)));
    case CreateUser(_, _, _, _) => LoadedAreMutable(d.groups, a.names);
    case _ =>
  }

  lemma NothingListed(t: Delta, r: Rules)
    requires Lists([], t)
    ensures Amend(r, t) == r
  {
    assert forall g :: AddRule(g) !in [] && RemoveRule(g) !in [];
    assert forall m :: AddMember(m) !in [] && RemoveMember(m) !in [];
  }

  // ---------------------------------------------------------------- runs

  datatype Stage =
    | Plain(m: Move)
    | Slow(a: Action, since: nat, at: nat)   // a use case that began at one moment and compared at another

  function Views(ss: seq<Site>): (rs: seq<Rules>)
    ensures |rs| == |ss| && forall i :: 0 <= i < |ss| ==> rs[i] == ss[i].dir.cache
  {
    seq(|ss|, i requires 0 <= i < |ss| => ss[i].dir.cache)
  }

  /** Nothing but replays and reloads happens while the writer lock is held. */
  ghost predicate LockHeld(stages: seq<Stage>, since: nat, i: nat)
    requires i <= |stages|
  {
    forall k :: since <= k < i ==> stages[k].Plain? && (stages[k].m.Catch? || stages[k].m.Reload?)
  }

  ghost predicate Happens(ss: seq<Site>, stages: seq<Stage>, i: nat)
    requires i < |stages| && |ss| == |stages| + 1
  {
    match stages[i]
    case Plain(m) => !m.Use? && (m.Restart? ==> Boots(ss[i].dir, m.root)) && ss[i + 1] == Moved(ss[i], m)
    case Slow(a, since, at) =>
      && since <= at <= i && LockHeld(stages, since, i) && Principal(a.actor)
      && Passes(ss[i].dir, Views(ss[since..i + 1]), at - since, a)
      && Reaching(ss[i].dir, Views(ss[since..i + 1]), a)
      && ss[i + 1] == Committed(ss[i], ss[at].dir.cache, a)
  }

  function Committed(s: Site, view: Rules, a: Action): (s': Site) {
    Site(Saved(s.dir, view, a), s.due + [OpsOf(s.dir.(cache := view), a)])
  }

  ghost predicate IsRun(ss: seq<Site>, stages: seq<Stage>) {
    |ss| == |stages| + 1 && forall i :: 0 <= i < |stages| ==> Happens(ss, stages, i)
  }

  lemma HappensIsDecided(ss: seq<Site>, stages: seq<Stage>, i: nat)
    requires i < |stages| && |ss| == |stages| + 1 && Happens(ss, stages, i) && stages[i].Slow?
    ensures stages[i].at <= i && Decided(ss[i].dir, ss[stages[i].at].dir.cache, stages[i].a)
  {
    var since, at := stages[i].since, stages[i].at;
    assert Views(ss[since..i + 1])[at - since] == ss[at].dir.cache;
  }

  // ---------------------------------------------------------------- what a start leaves

  /** The superadmin group is there, immutable, and holds everything on disk. */
  ghost predicate Seeded(d: Dir) {
    SUPERADMIN in d.groups && d.groups[SUPERADMIN].system && (Group(SUPERADMIN), EVERYTHING) in d.disk.grants
  }

  lemma BootSeeds(d: Dir, root: Root)
    ensures Seeded(Booted(d, root)) && forall q :: Can(Booted(d, root).cache, User(root.id), q)
  {
    var r := Booted(d, root).cache;
    assert Reaches(r, Group(SUPERADMIN), User(root.id)) && forall q :: Covers(EVERYTHING, q);
  }

  /** What a use case other than a deletion leaves alone. */
  lemma DeltaMindsAdmins(d: Dir, view: Rules, a: Action)
    requires !a.DeleteUser? && !a.DeleteGroup? && Decided(d, view, a) && Seeded(d)
    ensures var t := DeltaOf(d.(cache := view), a);
            && (Group(SUPERADMIN), EVERYTHING) !in t.revoked
            && (forall m :: m in t.joined + t.left ==> m.1 != SUPERADMIN)
            && SUPERADMIN in Saved(d, view, a).groups && Saved(d, view, a).groups[SUPERADMIN].system
  {
    match a
    case UpdateGroups(_, _, _, _, _) =>
      LoadedAreMutable(d.groups, NotIn(a.add, GroupsOf(view, a.id)));
      LoadedAreMutable(d.groups, KeptIn(a.remove, GroupsOf(view, a.id)));
    case CreateUser(_, _, _, _) => LoadedAreMutable(d.groups, a.names);
    case _ =>
  }

  lemma UseKeepsSeed(d: Dir, view: Rules, a: Action)
    requires Decided(d, view, a) && Seeded(d)
    ensures Seeded(Saved(d, view, a))
  {
    if !a.DeleteUser? && !a.DeleteGroup? {
      DeltaMindsAdmins(d, view, a);
      SavedIsAmended(d, view, a);
    }
  }

  /** No step of a run takes that away. */
  lemma SeededStep(ss: seq<Site>, stages: seq<Stage>, i: nat)
    requires IsRun(ss, stages) && i < |stages| && Seeded(ss[i].dir)
    ensures Seeded(ss[i + 1].dir)
  {
    assert Happens(ss, stages, i);
    match stages[i]
    case Plain(m) =>
      if m.Restart? { BootSeeds(ss[i].dir, m.root); }
    case Slow(a, since, at) =>
      HappensIsDecided(ss, stages, i);
      UseKeepsSeed(ss[i].dir, ss[at].dir.cache, a);
  }

  lemma {:induction false} RunStaysSeeded(ss: seq<Site>, stages: seq<Stage>, n: nat)
    requires IsRun(ss, stages) && Seeded(ss[0].dir) && n <= |stages|
    ensures Seeded(ss[n].dir)
  {
    if n > 0 {
      RunStaysSeeded(ss, stages, n - 1);
      SeededStep(ss, stages, n - 1);
    }
  }

  // ---------------------------------------------------------------- accounts

  /** Nobody shares an email, and at most one account is the system's. */
  ghost predicate Distinct(d: Dir) {
    && (forall u, v :: u in d.users && v in d.users && d.users[u].email == d.users[v].email ==> u == v)
    && (forall u, v :: u in d.users && v in d.users && d.users[u].system && d.users[v].system ==> u == v)
  }

  /** The account that a start puts in charge is the system's and has the configured email; no other account, group
      or rule changes, but that the superadmin group is there, immutable, with its rule and this member. */
  lemma BootExact(d: Dir, root: Root)
    requires Boots(d, root)
    ensures var d' := Booted(d, root);
            && root.id in d'.users && d'.users[root.id].system && d'.users[root.id].email == root.email
            && (forall u :: u != root.id ==> (u in d'.users <==> u in d.users))
            && (forall u :: u in d.users && u != root.id ==> d'.users[u] == d.users[u])
            && (forall n :: n != SUPERADMIN ==> (n in d'.groups <==> n in d.groups))
            && (forall n :: n in d.groups && n != SUPERADMIN ==> d'.groups[n] == d.groups[n])
            && (forall g :: g in d'.disk.grants <==> g in d.disk.grants || g == (Group(SUPERADMIN), EVERYTHING))
            && (forall m :: m in d'.disk.members <==> m in d.disk.members || m == (root.id, SUPERADMIN))
            && d'.cache == d'.disk && (Distinct(d) ==> Distinct(d'))
  {
  }

  lemma AccountsSaved(d: Dir, view: Rules, a: Action, u: string)
    requires u in Saved(d, view, a).users && !(a.CreateUser? && a.id == u)
    ensures u in d.users
    ensures Saved(d, view, a).users[u].email == d.users[u].email
    ensures Saved(d, view, a).users[u].system == d.users[u].system
  {
  }

  lemma UseKeepsDistinct(d: Dir, view: Rules, rs: seq<Rules>, a: Action)
    requires Reaching(d, rs, a) && Distinct(d)
    ensures Distinct(Saved(d, view, a))
  {
    var users := Saved(d, view, a).users;
    if a.CreateUser? {
      assert !users[a.id].system && users[a.id].email == a.email.value;
    }
    forall u, v | u in users && v in users && (users[u].email == users[v].email || (users[u].system && users[v].system))
      ensures u == v
    {
      if !(a.CreateUser? && a.id == u) { AccountsSaved(d, view, a, u); }
      if !(a.CreateUser? && a.id == v) { AccountsSaved(d, view, a, v); }
    }
  }

  /** Every step of every run keeps accounts distinct. */
  lemma DistinctStep(ss: seq<Site>, stages: seq<Stage>, i: nat)
    requires IsRun(ss, stages) && i < |stages| && Distinct(ss[i].dir)
    ensures Distinct(ss[i + 1].dir)
  {
    assert Happens(ss, stages, i);
    match stages[i]
    case Plain(m) =>
      if m.Restart? { BootExact(ss[i].dir, m.root); }
    case Slow(a, since, at) =>
      UseKeepsDistinct(ss[i].dir, ss[at].dir.cache, Views(ss[since..i + 1]), a);
  }

  // ---------------------------------------------------------------- who changes what

  /** The right that a change of somebody's membership takes. */
  ghost predicate Entitled(rs: seq<Rules>, a: Action, u: string, n: string) {
    match a
    case UpdateGroups(actor, id, add, remove, _) => u == id && n in add + remove && WriteSeen(rs, actor, n)
    case CreateUser(actor, id, _, names) => u == id && n in names && WriteSeen(rs, actor, n)
    case DeleteUser(actor, id) => u == id && UserWriteSeen(rs, actor, id)
    case DeleteGroup(_, name) => n == name
    case _ => false
  }

  lemma SavedIsEntitled(d: Dir, view: Rules, rs: seq<Rules>, a: Action, u: string, n: string)
    requires Decided(d, view, a) && Reaching(d, rs, a) && Sendable(a) && Principal(u)
    requires (u, n) in d.disk.members <==> (u, n) !in Saved(d, view, a).disk.members
    ensures Entitled(rs, a, u, n)
  {
    if !a.DeleteUser? && !a.DeleteGroup? {
      SavedIsAmended(d, view, a);
      var t := DeltaOf(d.(cache := view), a);
      assert (u, n) in t.joined + t.left;
      if a.UpdateGroups? {
        NotInElements(a.add, GroupsOf(view, a.id));
        KeptInElements(a.remove, GroupsOf(view, a.id));
        assert n in a.add + a.remove;
      }
    }
  }

  /** In every run, nobody's membership changes on disk in a step but by a restart that puts its account in charge,
      or by a use case whose actor was seen, in one of the caches it met, to hold the right it takes: writing that
      group, writing users, or, for a whole group that is deleted, the gate before it. */
  lemma MembershipNeedsRight(ss: seq<Site>, stages: seq<Stage>, i: nat, u: string, n: string)
    requires IsRun(ss, stages) && i < |stages| && Principal(u) && (stages[i].Slow? ==> Sendable(stages[i].a))
    requires (u, n) in ss[i].dir.disk.members <==> (u, n) !in ss[i + 1].dir.disk.members
    ensures match stages[i]
            case Plain(m) => m.Restart? && u == m.root.id && n == SUPERADMIN
            case Slow(a, since, _) => since <= i && Entitled(Views(ss[since..i + 1]), a, u, n)
  {
    assert Happens(ss, stages, i);
    match stages[i]
    case Plain(m) =>
    case Slow(a, since, at) =>
      HappensIsDecided(ss, stages, i);
      SavedIsEntitled(ss[i].dir, ss[at].dir.cache, Views(ss[since..i + 1]), a, u, n);
  }
}
