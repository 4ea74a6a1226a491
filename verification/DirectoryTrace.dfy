/** No authority from nowhere, over every interleaving. */
module DirectoryTrace {
  import opened Policy
  import opened Directory
  import opened DirectorySafety
  import opened DirectoryReplay
  import opened DirectoryRuns

  /** What a run starts from, who acts in it, and which groups it makes. */
  datatype Cast = Cast(start: Rules, crew: set<string>, made: set<string>)

  /** Whoever acts can log in, and groups are made under canonical names. */
  ghost predicate Fit(c: Cast) {
    (forall v :: v in c.crew ==> Principal(v)) && forall n :: n in c.made ==> CanonicalName(n)
  }

  /** Some actor held this at the start, or it is reading or writing a group the run makes. */
  ghost predicate Good(c: Cast, p: Permission) {
    || (exists v :: v in c.crew && Can(c.start, User(v), p))
    || (exists n :: n in c.made && OnGroup(n, p))
  }

  lemma GoodIsClosed(c: Cast, p: Permission, q: Permission)
    requires Good(c, p) && Covers(p, q) && Fit(c)
    ensures Good(c, q)
  {
    if v :| v in c.crew && Can(c.start, User(v), p) {
      HoldingIsClosed(c.start, User(v), p, q);
    } else {
      var n :| n in c.made && OnGroup(n, p);
      GroupIsClosed(n, p, q);
    }
  }

  /** No rule about this group, on disk or in the cache, but good ones. */
  ghost predicate Clean(c: Cast, d: Dir, name: string) {
    forall g :: g in d.disk.grants + d.cache.grants && g.0 == Group(name) ==> Good(c, g.1)
  }

  ghost predicate RulesTraced(c: Cast, s: Site) {
    && (forall g :: g in s.dir.disk.grants + s.dir.cache.grants ==> g.0.Group? && (g in c.start.grants || Good(c, g.1)))
    && (forall g :: Due(s.due, AddRule(g)) ==> g.0.Group? && Good(c, g.1))
  }

  /** Of an existing group, the cache has every rule of the disk that is not good. */
  ghost predicate CacheKnows(c: Cast, d: Dir) {
    forall g :: g in d.disk.grants && g.0.Group? && g.0.name in d.groups ==> Good(c, g.1) || g in d.cache.grants
  }

  ghost predicate MembersTraced(c: Cast, s: Site) {
    && (forall m :: m in s.dir.disk.members + s.dir.cache.members && Principal(m.0) ==>
          m in c.start.members || Clean(c, s.dir, m.1))
    && (forall m :: Due(s.due, AddMember(m)) && Principal(m.0) ==> Clean(c, s.dir, m.1))
  }

  /** What is outstanding takes no rule from the cache that the disk still has and is not good. */
  ghost predicate RemovalsSafe(c: Cast, s: Site) {
    && (forall g :: Due(s.due, RemoveRule(g)) && g in s.dir.disk.grants ==> Good(c, g.1))
    && (forall g :: g in s.dir.disk.grants && g.0.Group? && g.0.name in s.dir.groups ==>
          Due(s.due, DropGroup(g.0.name)) ==> Good(c, g.1))
  }

  ghost predicate Traced(c: Cast, s: Site) {
    RulesTraced(c, s) && CacheKnows(c, s.dir) && MembersTraced(c, s) && RemovalsSafe(c, s)
  }

  /** In a traced state whatever a user passes, that user passed at the start, or it is good. */
  lemma TracedAnswers(c: Cast, s: Site, u: string, q: Permission)
    requires Traced(c, s) && Fit(c) && Principal(u) && Can(s.dir.cache, User(u), q)
    ensures Can(c.start, User(u), q) || Good(c, q)
  {
    var g :| g in s.dir.cache.grants && Reaches(s.dir.cache, g.0, User(u)) && Covers(g.1, q);
    if Good(c, g.1) {
      GoodIsClosed(c, g.1, q);
    } else {
      var m := (u, g.0.name);
      assert m in s.dir.cache.members;
      assert g in c.start.grants && m in c.start.members && Reaches(c.start, g.0, User(u));
    }
  }

  /** What a member of the crew holds is good. */
  lemma CrewIsGood(c: Cast, s: Site, actor: string, p: Permission)
    requires Traced(c, s) && Fit(c) && actor in c.crew && Can(s.dir.cache, User(actor), p)
    ensures Good(c, p)
  {
    TracedAnswers(c, s, actor, p);
  }

  // ---------------------------------------------------------------- a use case keeps the trace

  /** What matters of a committed use case: it grants and joins nothing but good rules, and forgets no group
      that has others. */
  ghost predicate Harmless(c: Cast, d: Dir, d': Dir, ops: seq<Op>) {
    && (forall g :: AddRule(g) in ops ==> g.0.Group? && Good(c, g.1))
    && (forall m :: AddMember(m) in ops && Principal(m.0) ==> Clean(c, d, m.1))
    && (forall g :: g in d'.disk.grants ==> g in d.disk.grants || AddRule(g) in ops)
    && (forall m :: m in d'.disk.members ==> m in d.disk.members || AddMember(m) in ops)
    && (forall g :: g in d.disk.grants && g.0.Group? && g.0.name in d'.groups ==> g.0.name in d.groups || Good(c, g.1))
    && (forall g :: RemoveRule(g) in ops && g in d'.disk.grants ==> Good(c, g.1))
    && (forall n :: DropGroup(n) in ops ==> n !in d'.groups)
  }

  lemma CleanStays(c: Cast, d: Dir, d': Dir, ops: seq<Op>, name: string)
    requires Harmless(c, d, d', ops) && Clean(c, d, name)
    ensures Clean(c, d'.(cache := d.cache), name)
  {
  }

  lemma CommitKeepsTrace(c: Cast, s: Site, d': Dir, ops: seq<Op>)
    requires Traced(c, s) && Harmless(c, s.dir, d', ops)
    ensures Traced(c, Site(d'.(cache := s.dir.cache), s.due + [ops]))
  {
    var s' := Site(d'.(cache := s.dir.cache), s.due + [ops]);
    forall op ensures Due(s'.due, op) <==> Due(s.due, op) || op in ops {
      DueOneMore(s.due, ops, op);
    }
    forall m | m in s'.dir.disk.members + s'.dir.cache.members && Principal(m.0)
      ensures m in c.start.members || Clean(c, s'.dir, m.1)
    {
      assert m in s.dir.disk.members + s.dir.cache.members || AddMember(m) in ops;
      if m !in c.start.members { CleanStays(c, s.dir, d', ops, m.1); }
    }
    forall m | Due(s'.due, AddMember(m)) && Principal(m.0) ensures Clean(c, s'.dir, m.1) {
      CleanStays(c, s.dir, d', ops, m.1);
    }
  }

  // ---------------------------------------------------------------- a replay keeps the trace

  lemma CatchKeepsTrace(c: Cast, s: Site, i: nat)
    requires Traced(c, s) && i < |s.due| && s.due[i] != []
    ensures Traced(c, Moved(s, Catch(i)))
  {
    var op, s' := s.due[i][0], Moved(s, Catch(i));
    forall o ensures Due(s'.due, o) ==> Due(s.due, o) {
      DueOneLess(s.due, i, o);
    }
    DueOneLess(s.due, i, op);
    assert forall g :: g in s'.dir.cache.grants ==> g in s.dir.cache.grants || op == AddRule(g);
    assert forall m :: m in s'.dir.cache.members ==> m in s.dir.cache.members || op == AddMember(m);
    forall name | Clean(c, s.dir, name) ensures Clean(c, s'.dir, name) {
      assert forall g :: g in s'.dir.cache.grants && g.0 == Group(name) ==>
             g in s.dir.disk.grants + s.dir.cache.grants || Good(c, g.1);
    }
    CacheStillKnows(c, s, op, s'.dir);
  }

  lemma CacheStillKnows(c: Cast, s: Site, op: Op, d': Dir)
    requires Traced(c, s) && Due(s.due, op) && d' == s.dir.(cache := ReplayOne(s.dir.cache, op))
    ensures CacheKnows(c, d')
  {
    forall g | g in d'.disk.grants && g.0.Group? && g.0.name in d'.groups && !Good(c, g.1)
      ensures g in d'.cache.grants
    {
      assert g in s.dir.cache.grants;
    }
  }

  lemma ReloadKeepsTrace(c: Cast, s: Site, due: seq<seq<Op>>)
    requires Traced(c, s) && forall op :: Due(due, op) ==> Due(s.due, op)
    ensures Traced(c, Site(s.dir.(cache := s.dir.disk), due))
  {
    var d' := s.dir.(cache := s.dir.disk);
    forall name | Clean(c, s.dir, name) ensures Clean(c, d', name) {
    }
  }

  /** A start puts one account in charge, in a group whose rules are what they were. */
  lemma RestartKeepsTrace(c: Cast, s: Site, root: Root)
    requires Traced(c, s) && Seeded(s.dir) && (root.id, SUPERADMIN) in c.start.members
    ensures Traced(c, Moved(s, Restart(root)))
  {
    ReloadKeepsTrace(c, s, []);
    var s', loaded := Moved(s, Restart(root)), s.dir.(cache := s.dir.disk);
    assert s'.dir.disk.grants == s.dir.disk.grants && s'.dir.cache == s'.dir.disk;
    assert s'.dir.groups.Keys == s.dir.groups.Keys;
    forall name | Clean(c, loaded, name) ensures Clean(c, s'.dir, name) {
    }
  }

  /** Whatever happens beside use cases keeps the trace. */
  lemma MoveKeepsTrace(c: Cast, s: Site, m: Move)
    requires Traced(c, s) && Seeded(s.dir) && !m.Use?
    requires m.Restart? ==> (m.root.id, SUPERADMIN) in c.start.members
    ensures Traced(c, Moved(s, m))
  {
    match m
    case Catch(i) =>
      if i < |s.due| && s.due[i] != [] {
        CatchKeepsTrace(c, s, i);
      }
    case Reload => ReloadKeepsTrace(c, s, s.due);
    case Restart(root) => RestartKeepsTrace(c, s, root);
  }

  // ---------------------------------------------------------------- what was seen is good

  /** Moments with the same disk and groups, all traced, the cache growing only by good rules and the disk's. */
  ghost predicate Window(c: Cast, ss: seq<Site>) {
    && |ss| > 0 && Fit(c)
    && (forall i :: 0 <= i < |ss| ==> Traced(c, ss[i]))
    && (forall i :: 0 <= i < |ss| ==> Alike(c, ss[i].dir, ss[|ss| - 1].dir))
  }

  ghost predicate Alike(c: Cast, d: Dir, last: Dir) {
    && d.disk == last.disk && d.groups == last.groups && d.users == last.users
    && (forall g :: g in last.cache.grants ==> g in d.cache.grants || g in d.disk.grants || Good(c, g.1))
  }

  lemma QuietIsAlike(c: Cast, s: Site, m: Move)
    requires Traced(c, s) && (m.Catch? || m.Reload?)
    ensures Alike(c, s.dir, Moved(s, m).dir)
  {
    if m.Catch? && m.i < |s.due| && s.due[m.i] != [] {
      DueOneLess(s.due, m.i, s.due[m.i][0]);
    }
  }

  lemma {:induction false} LockedIsWindow(c: Cast, ss: seq<Site>, stages: seq<Stage>, since: nat, i: nat)
    requires IsRun(ss, stages) && since <= i < |stages| && LockHeld(stages, since, i)
    requires forall k :: since <= k <= i ==> Traced(c, ss[k])
    ensures forall k :: since <= k <= i ==> Alike(c, ss[k].dir, ss[i].dir)
    decreases i - since
  {
    if since < i {
      LockedIsWindow(c, ss, stages, since + 1, i);
      assert Happens(ss, stages, since) && stages[since].Plain?;
      QuietIsAlike(c, ss[since], stages[since].m);
      AlikeChain(c, ss[since].dir, ss[since + 1].dir, ss[i].dir);
    }
  }

  lemma AlikeChain(c: Cast, d: Dir, e: Dir, f: Dir)
    requires Alike(c, d, e) && Alike(c, e, f)
    ensures Alike(c, d, f)
  {
  }

  lemma SeenIsGood(c: Cast, ss: seq<Site>, actor: string, p: Permission)
    requires Window(c, ss) && actor in c.crew && Seen(Views(ss), User(actor), p)
    ensures Good(c, p)
  {
    var i :| 0 <= i < |ss| && Can(Views(ss)[i], User(actor), p);
    CrewIsGood(c, ss[i], actor, p);
  }

  /** A group whose permissions were all seen in the actor's hands has none but good rules at the commit. */
  lemma GrantSeenIsClean(c: Cast, ss: seq<Site>, actor: string, name: string)
    requires Window(c, ss) && actor in c.crew && GrantSeen(Views(ss), actor, name) && name in ss[|ss| - 1].dir.groups
    ensures Clean(c, ss[|ss| - 1].dir, name)
  {
    var rs, d := Views(ss), ss[|ss| - 1].dir;
    var i :| 0 <= i < |rs| && SeenAll(rs, User(actor), PermissionsOf(rs[i], name));
    forall g | g in d.disk.grants + d.cache.grants && g.0 == Group(name) ensures Good(c, g.1) {
      assert Alike(c, ss[i].dir, d) && CacheKnows(c, ss[i].dir);
      if g in ss[i].dir.cache.grants {
        assert g.1 in PermissionsOf(rs[i], name);
        SeenIsGood(c, ss, actor, g.1);
      }
    }
  }

  // ---------------------------------------------------------------- a use case keeps the trace

  /** What is granted is good and what is joined is clean. */
  ghost predicate Sound(c: Cast, d: Dir, t: Delta) {
    && (forall g :: g in t.granted ==> g.0.Group? && Good(c, g.1))
    && (forall m :: m in t.joined && Principal(m.0) ==> Clean(c, d, m.1))
    && (forall g :: g in t.revoked ==> g !in t.granted)
  }

  lemma PassesIsSound(c: Cast, ss: seq<Site>, at: nat, a: Action)
    requires Window(c, ss) && at < |ss| && !a.DeleteUser? && !a.DeleteGroup? && a.actor in c.crew
    requires Passes(ss[|ss| - 1].dir, Views(ss), at, a)
    requires FreshName(ss[|ss| - 1].dir, a) && (a.CreateGroup? ==> a.name in c.made)
    ensures var d := ss[|ss| - 1].dir; Sound(c, d, DeltaOf(d.(cache := ss[at].dir.cache), a))
  {
    var rs, d := Views(ss), ss[|ss| - 1].dir;
    match a
    case UpdateMembers(actor, name, add, _, _) =>
      if Elements(add) - MembersOf(rs[at], name) != {} {
        GrantSeenIsClean(c, ss, actor, name);
      }
    case UpdatePermissions(actor, name, grant, revoke, _) =>
      NoOverlap(grant, revoke);
      forall p | p in Elements(grant) - PermissionsOf(d.disk, name) ensures Good(c, p) {
        SeenIsGood(c, ss, actor, p);
      }
    case UpdateGroups(actor, id, add, _, _) => JoinedAreClean(c, ss, actor, NotIn(add, GroupsOf(rs[at], id)));
    case CreateUser(actor, _, _, names) => JoinedAreClean(c, ss, actor, names);
    case CreateGroup(_, _, _, _, _) => CreationIsSound(c, ss, a);
  }

  lemma JoinedAreClean(c: Cast, ss: seq<Site>, actor: string, names: seq<string>)
    requires Window(c, ss) && actor in c.crew && GrantsSeen(Views(ss), actor, names)
    requires LoadFault(ss[|ss| - 1].dir.groups, names).None?
    ensures forall n :: n in names ==> Clean(c, ss[|ss| - 1].dir, n)
  {
    LoadedAreMutable(ss[|ss| - 1].dir.groups, names);
    forall n | n in names ensures Clean(c, ss[|ss| - 1].dir, n) {
      GrantSeenIsClean(c, ss, actor, n);
    }
  }

  lemma CreationIsSound(c: Cast, ss: seq<Site>, a: Action)
    requires Window(c, ss) && a.CreateGroup? && a.actor in c.crew && a.name in c.made
    requires SeenAll(Views(ss), User(a.actor), Elements(a.perms)) && FreshName(ss[|ss| - 1].dir, a)
    ensures Sound(c, ss[|ss| - 1].dir, CreationDelta(a))
  {
    forall p | p in Elements(a.perms) ensures Good(c, p) {
      SeenIsGood(c, ss, a.actor, p);
    }
    assert OnGroup(a.name, ManagerGrant(a.name));
  }

  lemma SoundIsHarmless(c: Cast, d: Dir, d': Dir, ops: seq<Op>, t: Delta)
    requires Sound(c, d, t) && Lists(ops, t) && d'.disk == Amend(d.disk, t)
    requires forall g :: g in d.disk.grants && g.0.Group? && g.0.name in d'.groups ==> g.0.name in d.groups
    ensures Harmless(c, d, d', ops)
  {
  }

  lemma UseIsHarmless(c: Cast, ss: seq<Site>, at: nat, a: Action)
    requires Window(c, ss) && at < |ss| && a.actor in c.crew && Passes(ss[|ss| - 1].dir, Views(ss), at, a)
    requires FreshName(ss[|ss| - 1].dir, a) && (a.CreateGroup? ==> a.name in c.made)
    ensures var d, view := ss[|ss| - 1].dir, ss[at].dir.cache;
            Harmless(c, d, Saved(d, view, a), OpsOf(d.(cache := view), a))
  {
    var d, view := ss[|ss| - 1].dir, ss[at].dir.cache;
    if !a.DeleteUser? && !a.DeleteGroup? {
      PassesIsSound(c, ss, at, a);
      assert Decided(d, view, a);
      SavedIsAmended(d, view, a);
      OpsList(d.(cache := view), a);
      SoundIsHarmless(c, d, Saved(d, view, a), OpsOf(d.(cache := view), a), DeltaOf(d.(cache := view), a));
    }
  }

  // ---------------------------------------------------------------- over whole runs

  /** Every group made in the run took a name with no rule left on disk; nor in the cache, if somebody who can
      log in was among its first members. */
  ghost predicate AllFresh(ss: seq<Site>, stages: seq<Stage>)
    requires |ss| == |stages| + 1
  {
    forall i :: 0 <= i < |stages| && stages[i].Slow? ==> FreshName(ss[i].dir, stages[i].a)
  }

  function Crew(stages: seq<Stage>): (crew: set<string>) {
    set i | 0 <= i < |stages| && stages[i].Slow? :: stages[i].a.actor
  }

  function Made(stages: seq<Stage>): (made: set<string>) {
    set i | 0 <= i < |stages| && stages[i].Slow? && stages[i].a.CreateGroup? :: stages[i].a.name
  }

  /** The accounts that restarts put in charge. */
  function Roots(stages: seq<Stage>): (roots: set<string>) {
    set i | 0 <= i < |stages| && stages[i].Plain? && stages[i].m.Restart? :: stages[i].m.root.id
  }

  /** The rules with these among the superadmins. */
  function Enrolled(r: Rules, roots: set<string>): (r': Rules) {
    r.(members := r.members + Joins(roots, {SUPERADMIN}))
  }

  lemma CastFits(ss: seq<Site>, stages: seq<Stage>, c: Cast)
    requires IsRun(ss, stages) && c.crew == Crew(stages) && c.made == Made(stages)
    ensures Fit(c)
  {
    forall n | n in c.made ensures CanonicalName(n) {
      var i :| 0 <= i < |stages| && stages[i].Slow? && stages[i].a.CreateGroup? && stages[i].a.name == n;
      assert Happens(ss, stages, i);
    }
    forall v | v in c.crew ensures Principal(v) {
      var i :| 0 <= i < |stages| && stages[i].Slow? && stages[i].a.actor == v;
      assert Happens(ss, stages, i);
    }
  }

  lemma StartIsTraced(c: Cast, s: Site, roots: set<string>)
    requires c.start == Enrolled(s.dir.disk, roots) && Settled(s.dir) && s.due == []
    ensures Traced(c, s)
  {
  }

  ghost predicate AllTraced(c: Cast, ss: seq<Site>, n: nat)
    requires n < |ss|
  {
    forall k :: 0 <= k <= n ==> Traced(c, ss[k])
  }

  lemma FirstTraced(c: Cast, ss: seq<Site>, stages: seq<Stage>)
    requires CastOf(c, ss, stages) && Settled(ss[0].dir) && ss[0].due == []
    ensures AllTraced(c, ss, 0)
  {
    StartIsTraced(c, ss[0], Roots(stages));
  }

  /** The cast of a run. */
  ghost predicate CastOf(c: Cast, ss: seq<Site>, stages: seq<Stage>) {
    ss != [] && c == Cast(Enrolled(ss[0].dir.disk, Roots(stages)), Crew(stages), Made(stages))
  }

  lemma StepKeepsTrace(ss: seq<Site>, stages: seq<Stage>, c: Cast, i: nat)
    requires IsRun(ss, stages) && AllFresh(ss, stages) && CastOf(c, ss, stages) && Seeded(ss[0].dir)
    requires i < |stages| && AllTraced(c, ss, i)
    ensures AllTraced(c, ss, i + 1)
  {
    RunStaysSeeded(ss, stages, i);
    if stages[i].Plain? {
      PlainKeepsTrace(ss, stages, c, i);
    } else {
      StageKeepsTrace(ss, stages, c, i);
    }
  }

  lemma {:induction false} RunIsTraced(ss: seq<Site>, stages: seq<Stage>, c: Cast, n: nat)
    requires IsRun(ss, stages) && AllFresh(ss, stages) && CastOf(c, ss, stages) && n <= |stages|
    requires Seeded(ss[0].dir) && AllTraced(c, ss, 0)
    ensures AllTraced(c, ss, n)
  {
    if n > 0 {
      RunIsTraced(ss, stages, c, n - 1);
      StepKeepsTrace(ss, stages, c, n - 1);
    }
  }

  lemma PlainKeepsTrace(ss: seq<Site>, stages: seq<Stage>, c: Cast, i: nat)
    requires IsRun(ss, stages) && i < |stages| && stages[i].Plain? && Seeded(ss[i].dir) && Traced(c, ss[i])
    requires c.start == Enrolled(ss[0].dir.disk, Roots(stages))
    ensures Traced(c, ss[i + 1])
  {
    assert Happens(ss, stages, i);
    MoveKeepsTrace(c, ss[i], stages[i].m);
  }

  lemma StageIsWindow(ss: seq<Site>, stages: seq<Stage>, c: Cast, since: nat, i: nat)
    requires IsRun(ss, stages) && since <= i < |stages| && LockHeld(stages, since, i)
    requires c.crew == Crew(stages) && c.made == Made(stages)
    requires forall k :: 0 <= k <= i ==> Traced(c, ss[k])
    ensures Window(c, ss[since..i + 1])
  {
    CastFits(ss, stages, c);
    LockedIsWindow(c, ss, stages, since, i);
    var tt := ss[since..i + 1];
    assert forall k :: 0 <= k < |tt| ==> tt[k] == ss[since + k];
  }

  lemma UseKeepsTrace(c: Cast, ss: seq<Site>, at: nat, a: Action)
    requires Window(c, ss) && at < |ss| && a.actor in c.crew && Passes(ss[|ss| - 1].dir, Views(ss), at, a)
    requires FreshName(ss[|ss| - 1].dir, a) && (a.CreateGroup? ==> a.name in c.made)
    ensures Traced(c, Committed(ss[|ss| - 1], ss[at].dir.cache, a))
  {
    var s, view := ss[|ss| - 1], ss[at].dir.cache;
    UseIsHarmless(c, ss, at, a);
    CommitKeepsTrace(c, s, Saved(s.dir, view, a), OpsOf(s.dir.(cache := view), a));
    SavedKeepsCache(s.dir, view, a);
  }

  lemma SavedKeepsCache(d: Dir, view: Rules, a: Action)
    ensures Saved(d, view, a).(cache := d.cache) == Saved(d, view, a)
  {
  }

  lemma IsListed(stages: seq<Stage>, i: nat)
    requires i < |stages| && stages[i].Slow?
    ensures stages[i].a.actor in Crew(stages) && (stages[i].a.CreateGroup? ==> stages[i].a.name in Made(stages))
  {
  }

  /** A use case, seen from the moments it spans. */
  lemma AcrossItsMoments(ss: seq<Site>, stages: seq<Stage>, i: nat) returns (tt: seq<Site>, at: nat)
    requires |ss| == |stages| + 1 && i < |stages| && Happens(ss, stages, i) && stages[i].Slow?
    ensures stages[i].since <= i && LockHeld(stages, stages[i].since, i) && tt == ss[stages[i].since..i + 1]
    ensures at < |tt| && tt[|tt| - 1] == ss[i] && Passes(ss[i].dir, Views(tt), at, stages[i].a)
    ensures ss[i + 1] == Committed(ss[i], tt[at].dir.cache, stages[i].a)
  {
    tt, at := ss[stages[i].since..i + 1], stages[i].at - stages[i].since;
    assert tt[at] == ss[stages[i].at];
  }

  lemma StageKeepsTrace(ss: seq<Site>, stages: seq<Stage>, c: Cast, i: nat)
    requires IsRun(ss, stages) && i < |stages| && stages[i].Slow? && FreshName(ss[i].dir, stages[i].a)
    requires c.crew == Crew(stages) && c.made == Made(stages)
    requires forall k :: 0 <= k <= i ==> Traced(c, ss[k])
    ensures Traced(c, ss[i + 1])
  {
    var tt, at := AcrossItsMoments(ss, stages, i);
    StageIsWindow(ss, stages, c, stages[i].since, i);
    IsListed(stages, i);
    UseKeepsTrace(c, tt, at, stages[i].a);
  }

  ghost predicate TookPart(stages: seq<Stage>, v: string) {
    exists i :: 0 <= i < |stages| && stages[i].Slow? && stages[i].a.actor == v
  }

  /** Only those enrolled gain by it. */
  lemma OthersUnenrolled(r: Rules, roots: set<string>, v: string, q: Permission)
    requires v !in roots && Can(Enrolled(r, roots), User(v), q)
    ensures Can(r, User(v), q)
  {
    var g :| g in r.grants && Reaches(Enrolled(r, roots), g.0, User(v)) && Covers(g.1, q);
    assert Reaches(r, g.0, User(v));
  }

  /** Over every run, whatever somebody ends up able to do, they or some actor of the run could do at the start,
      or are the account that a restart put in charge; only reading and writing the groups made in the run are
      new. */
  lemma NoAuthorityFromNowhere(ss: seq<Site>, stages: seq<Stage>, u: string, q: Permission)
    requires IsRun(ss, stages) && AllFresh(ss, stages)
    requires Seeded(ss[0].dir) && Settled(ss[0].dir) && ss[0].due == []
    requires Principal(u) && Can(ss[|stages|].dir.cache, User(u), q)
    requires forall i :: 0 <= i < |stages| && stages[i].Slow? ==> !OnMade(stages[i].a, q)
    ensures exists v :: (v == u || TookPart(stages, v)) && (Can(ss[0].dir.cache, User(v), q) || v in Roots(stages))
  {
    var c := Cast(Enrolled(ss[0].dir.disk, Roots(stages)), Crew(stages), Made(stages));
    FirstTraced(c, ss, stages);
    RunIsTraced(ss, stages, c, |stages|);
    CastFits(ss, stages, c);
    TracedAnswers(c, ss[|stages|], u, q);
    var v := u;
    if !Can(c.start, User(u), q) {
      v :| v in c.crew && Can(c.start, User(v), q);
      assert TookPart(stages, v);
    }
    if v !in Roots(stages) {
      OthersUnenrolled(ss[0].dir.disk, Roots(stages), v, q);
      ReloadIsInvisible(ss[0].dir, v, q);
    }
  }
}
