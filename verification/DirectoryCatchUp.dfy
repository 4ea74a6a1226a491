/** Where disk and cache part, and when what is outstanding brings them together again. */
module DirectoryCatchUp {
  import opened Policy
  import opened Directory
  import opened DirectorySafety
  import opened DirectoryReplay
  import opened DirectoryRuns
  import opened DirectoryTrace

  /** Everything outstanding, in commit order. */
  function Flat(due: seq<seq<Op>>): (ops: seq<Op>) {
    if due == [] then [] else Flat(due[..|due| - 1]) + due[|due| - 1]
  }

  lemma {:induction false} FlatSplit(due: seq<seq<Op>>, i: nat)
    requires i < |due|
    ensures Flat(due) == Flat(due[..i]) + (due[i] + Flat(due[i + 1..]))
    decreases |due|
  {
    var n := |due| - 1;
    if i < n {
      FlatSplit(due[..n], i);
      assert due[..n][..i] == due[..i] && due[..n][i + 1..] == due[i + 1..n];
      assert due[i + 1..][..|due[i + 1..]| - 1] == due[i + 1..n];
      assert Flat(due[i + 1..]) == Flat(due[i + 1..n]) + due[n];
      assert Flat(due[..i]) + (due[i] + Flat(due[i + 1..n])) + due[n] ==
             Flat(due[..i]) + (due[i] + (Flat(due[i + 1..n]) + due[n]));
    } else {
      assert due[i + 1..] == [];
      assert due[i] + [] == due[i];
    }
  }

  /** The cache once everything outstanding has been replayed in commit order. */
  function Caught(s: Site): (r: Rules) {
    Replay(s.dir.cache, Flat(s.due))
  }

  /** What comes before the first operation of entry i in commit order, and what comes after it. */
  function Before(due: seq<seq<Op>>, i: nat): (ops: seq<Op>)
    requires i < |due|
  {
    Flat(due[..i])
  }

  function Behind(due: seq<seq<Op>>, i: nat): (ops: seq<Op>)
    requires i < |due| && due[i] != []
  {
    due[i][1..] + Flat(due[i + 1..])
  }

  /** Replayed now, the next operation of entry i will be undone by an older one still outstanding: one about
      the same fact says the opposite, and nothing later has a say. */
  ghost predicate Overtakes(due: seq<seq<Op>>, i: nat)
    requires i < |due| && due[i] != []
  {
    exists x :: Undone(due, i, x)
  }

  predicate Undone(due: seq<seq<Op>>, i: nat, x: Fact)
    requires i < |due| && due[i] != []
  {
    var now, older := Says(due[i][0], x), LastWord(Before(due, i), x);
    now.Some? && LastWord(Behind(due, i), x).None? && older.Some? && older != now
  }

  lemma CaughtSays(s: Site, i: nat, x: Fact)
    requires i < |s.due| && s.due[i] != []
    ensures var now, older, later := Says(s.due[i][0], x), LastWord(Before(s.due, i), x), LastWord(Behind(s.due, i), x);
            && (Holds(Caught(s), x) <==>
                if later.Some? then later.value else if now.Some? then now.value
                else if older.Some? then older.value else Holds(s.dir.cache, x))
            && (Holds(Caught(Moved(s, Catch(i))), x) <==>
                if later.Some? then later.value else if older.Some? then older.value
                else if now.Some? then now.value else Holds(s.dir.cache, x))
  {
    var op, rest, due' := s.due[i][0], s.due[i][1..], s.due[i := s.due[i][1..]];
    var a, b := Before(s.due, i), Behind(s.due, i);
    FlatSplit(s.due, i);
    FlatSplit(due', i);
    assert due'[..i] == s.due[..i] && due'[i + 1..] == s.due[i + 1..];
    assert Flat(due') == a + b;
    assert s.due[i] == [op] + rest;
    assert Flat(s.due) == a + ([op] + b);
    ReplayIsLastWord(s.dir.cache, Flat(s.due), x);
    ReplayIsLastWord(ReplayOne(s.dir.cache, op), Flat(due'), x);
    ReplayOneSays(s.dir.cache, op, x);
    LastWordConcat(a, [op] + b, x);
    LastWordConcat([op], b, x);
    LastWordOne(op, x);
    LastWordConcat(a, b, x);
  }

  /** A replay leaves what the cache will come to alone exactly when it overtakes nothing. */
  lemma CatchExact(s: Site, i: nat)
    requires i < |s.due| && s.due[i] != []
    ensures Caught(Moved(s, Catch(i))) == Caught(s) <==> !Overtakes(s.due, i)
  {
    var s' := Moved(s, Catch(i));
    forall x ensures (Holds(Caught(s'), x) <==> Holds(Caught(s), x)) <==> !Undone(s.due, i, x) {
      CaughtSays(s, i, x);
    }
    if !Overtakes(s.due, i) {
      SameFacts(Caught(s'), Caught(s));
    } else {
      var x :| Undone(s.due, i, x);
      assert !(Holds(Caught(s'), x) <==> Holds(Caught(s), x));
    }
  }

  lemma FlatOneMore(due: seq<seq<Op>>, ops: seq<Op>)
    ensures Flat(due + [ops]) == Flat(due) + ops
  {
    assert (due + [ops])[..|due|] == due;
  }

  /** A use case, whatever it read, does to the caught-up cache what its operations say. */
  lemma CaughtAfterUse(s: Site, view: Rules, a: Action)
    ensures Caught(Committed(s, view, a)) == Replay(Caught(s), OpsOf(s.dir.(cache := view), a))
  {
    var ops := OpsOf(s.dir.(cache := view), a);
    assert Saved(s.dir, view, a).cache == s.dir.cache;
    FlatOneMore(s.due, ops);
    ReplayConcat(s.dir.cache, Flat(s.due), ops);
  }

  lemma CaughtAfterReload(s: Site, x: Fact)
    ensures Holds(Caught(Moved(s, Reload)), x) <==>
            if LastWord(Flat(s.due), x).Some? then Holds(Caught(s), x) else Holds(s.dir.disk, x)
  {
    ReplayIsLastWord(s.dir.cache, Flat(s.due), x);
    ReplayIsLastWord(s.dir.disk, Flat(s.due), x);
  }

  /** Disk and cache end up the same unless a group still holding rules is deleted, or a replay overtakes
      an older one: those are the two ways they part, and there is no third. */
  lemma StoresPart(ss: seq<Site>, stages: seq<Stage>, i: nat)
    requires IsRun(ss, stages) && i < |stages|
    requires Caught(ss[i]) == ss[i].dir.disk && GroupsOnly(ss[i].dir.disk)
    ensures Caught(ss[i + 1]) == ss[i + 1].dir.disk <==>
            !(stages[i].Slow? && Disposes(ss[i].dir, stages[i].a)) && !Jumps(ss[i], stages[i])
  {
    assert Happens(ss, stages, i);
    match stages[i]
    case Plain(m) => MovesPart(ss[i], m);
    case Slow(a, since, at) =>
      var view := ss[at].dir.cache;
      HappensIsDecided(ss, stages, i);
      CaughtAfterUse(ss[i], view, a);
      UseParts(ss[i].dir, view, a);
  }

  /** A replay that overtakes an older one. */
  ghost predicate Jumps(s: Site, g: Stage) {
    g.Plain? && g.m.Catch? && g.m.i < |s.due| && s.due[g.m.i] != [] && Overtakes(s.due, g.m.i)
  }

  lemma MovesPart(s: Site, m: Move)
    requires Caught(s) == s.dir.disk && !m.Use?
    ensures Caught(Moved(s, m)) == Moved(s, m).dir.disk <==> !Jumps(s, Plain(m))
  {
    match m
    case Catch(i) =>
      if i < |s.due| && s.due[i] != [] {
        CatchExact(s, i);
      }
    case Reload =>
      var s' := Moved(s, Reload);
      forall x ensures Holds(Caught(s'), x) <==> Holds(s.dir.disk, x) {
        CaughtAfterReload(s, x);
      }
      SameFacts(Caught(s'), s.dir.disk);
    case Restart(_) =>
  }

  lemma UseParts(d: Dir, view: Rules, a: Action)
    requires Decided(d, view, a) && GroupsOnly(d.disk)
    ensures Replay(d.disk, OpsOf(d.(cache := view), a)) == Saved(d, view, a).disk <==> !Disposes(d, a)
  {
    var e := d.(cache := view);
    if a.DeleteUser? {
      assert OpsOf(e, a)[..0] == [];
      assert EvictUser(d.disk, a.id).grants == d.disk.grants;
    } else if a.DeleteGroup? {
      assert OpsOf(e, a)[..0] == [];
      var own := PermissionsOf(d.disk, a.name);
      assert forall g :: g in d.disk.grants && g.0 == Group(a.name) ==> g.1 in own;
      if own != {} {
        var p :| p in own;
        assert (Group(a.name), p) in d.disk.grants && (Group(a.name), p) !in EvictGroup(d.disk, a.name).grants;
      } else {
        assert EvictGroup(d.disk, a.name).grants == d.disk.grants;
      }
    } else {
      OpsAmount(e, a, d.disk);
      SavedIsAmended(d, view, a);
    }
  }

  // ---------------------------------------------------------------- settled once caught up

  /** The directory as it will be when everything outstanding has been replayed. */
  function Arrived(s: Site): (d: Dir) {
    s.dir.(cache := Caught(s))
  }

  lemma DropSettles(d: Dir, view: Rules, a: Action)
    requires Settled(d) && (a.DeleteUser? || a.DeleteGroup?)
    ensures Settled(Saved(d, view, a).(cache := Replay(d.cache, OpsOf(d.(cache := view), a))))
  {
    assert OpsOf(d.(cache := view), a)[..0] == [];
  }

  lemma DeltaSettles(d: Dir, view: Rules, a: Action, r: Rules)
    requires Settled(d.(cache := r)) && !a.DeleteUser? && !a.DeleteGroup? && Decided(d, view, a)
    requires a.CreateGroup? ==> forall g :: g in d.disk.grants ==> g.0 != Group(a.name)
    ensures Settled(Saved(d, view, a).(cache := Replay(r, OpsOf(d.(cache := view), a))))
  {
    var d', e := Saved(d, view, a), d.(cache := view);
    OpsAmount(e, a, r);
    SavedIsAmended(d, view, a);
    CommitSettles(d.(cache := r), d'.groups, d'.users, DeltaOf(e, a));
  }

  lemma UseSettles(s: Site, view: Rules, a: Action)
    requires Settled(Arrived(s)) && Decided(s.dir, view, a) && FreshName(s.dir, a)
    ensures Settled(Arrived(Committed(s, view, a)))
  {
    CaughtAfterUse(s, view, a);
    if a.DeleteUser? || a.DeleteGroup? {
      DropSettles(Arrived(s), view, a);
    } else {
      DeltaSettles(s.dir, view, a, Caught(s));
    }
  }

  lemma ReloadSettles(s: Site)
    requires Settled(Arrived(s))
    ensures Settled(Arrived(Moved(s, Reload)))
  {
    var d, r := Arrived(s), Caught(Moved(s, Reload));
    forall g ensures g in r.grants <==> Holds(r, Rule(g)) {}
    forall m ensures m in r.members <==> Holds(r, Membership(m)) {}
    forall x ensures Holds(r, x) <==> if LastWord(Flat(s.due), x).Some? then Holds(d.cache, x) else Holds(d.disk, x) {
      CaughtAfterReload(s, x);
    }
    assert r.members == d.disk.members;
  }

  /** Whatever order decisions and commits come in, disk and caught-up cache differ by nothing but the rules
      of groups that no longer exist, as long as new groups take fresh names and no replay overtakes another. */
  lemma SettledStep(ss: seq<Site>, stages: seq<Stage>, i: nat)
    requires IsRun(ss, stages) && i < |stages| && Settled(Arrived(ss[i])) && !Jumps(ss[i], stages[i])
    requires stages[i].Slow? ==> FreshName(ss[i].dir, stages[i].a)
    ensures Settled(Arrived(ss[i + 1]))
  {
    assert Happens(ss, stages, i);
    match stages[i]
    case Plain(m) => MoveSettles(ss[i], m);
    case Slow(a, since, at) =>
      HappensIsDecided(ss, stages, i);
      UseSettles(ss[i], ss[at].dir.cache, a);
  }

  lemma MoveSettles(s: Site, m: Move)
    requires Settled(Arrived(s)) && !m.Use? && !Jumps(s, Plain(m))
    ensures Settled(Arrived(Moved(s, m)))
  {
    match m
    case Catch(i) =>
      if i < |s.due| && s.due[i] != [] {
        CatchExact(s, i);
      }
    case Reload => ReloadSettles(s);
    case Restart(_) =>
  }

  /** A use case that reads at one moment, and whose replay nobody comes between, leaves what its specification
      says. */
  lemma AloneIsAfter(d: Dir, a: Action)
    ensures Arrived(Moved(Site(d, []), Use(a))) == After(d, a)
  {
    if Perform(d, a).Ok? {
      AtOnce(Site(d, []), a);
      CaughtAfterUse(Site(d, []), d.cache, a);
      assert d.(cache := d.cache) == d;
      ReplayedAtOnce(d, a);
      AtOnceSaves(d, a);
    }
  }

  // ---------------------------------------------------------------- when names are fresh

  /** A removal of a rule of this group is outstanding. */
  ghost predicate RemovalDue(due: seq<seq<Op>>, name: string) {
    exists op :: Due(due, op) && ((op.RemoveRule? && op.rule.0 == Group(name)) || op == DropGroup(name))
  }

  lemma {:induction false} FlatIsDue(due: seq<seq<Op>>, i: nat)
    requires i < |Flat(due)|
    ensures Due(due, Flat(due)[i])
  {
    var n := |due| - 1;
    if i < |Flat(due[..n])| {
      FlatIsDue(due[..n], i);
      var a, b :| 0 <= a < n && 0 <= b < |due[..n][a]| && due[..n][a][b] == Flat(due)[i];
      assert due[a][b] == Flat(due)[i];
    } else {
      assert due[n][i - |Flat(due[..n])|] == Flat(due)[i];
    }
  }

  /** A name with no rule on disk has none in the cache either, unless a removal is outstanding: then it is fresh
      whoever the first members are. */
  lemma CacheIsFreshToo(s: Site, a: Action)
    requires Caught(s) == s.dir.disk && a.CreateGroup? && !RemovalDue(s.due, a.name)
    requires forall g :: g in s.dir.disk.grants ==> g.0 != Group(a.name)
    ensures FreshName(s.dir, a) && forall g :: g in s.dir.cache.grants ==> g.0 != Group(a.name)
  {
    forall g | g in s.dir.cache.grants ensures g.0 != Group(a.name) {
      ReplayIsLastWord(s.dir.cache, Flat(s.due), Rule(g));
      assert Holds(s.dir.disk, Rule(g)) <==> g in s.dir.disk.grants;
      if g.0 == Group(a.name) {
        var i := SomeoneSaid(Flat(s.due), Rule(g));
        FlatIsDue(s.due, i);
        assert RemovalDue(s.due, a.name);
      }
    }
  }

  lemma UseIsTidy(d: Dir, view: Rules, a: Action)
    requires Tidy(d) && Decided(d, view, a) && !Disposes(d, a)
    ensures Tidy(Saved(d, view, a))
  {
    if a.DeleteGroup? {
      assert forall g :: g in d.disk.grants && g.0 == Group(a.name) ==> g.1 in PermissionsOf(d.disk, a.name);
    } else if !a.DeleteUser? {
      SavedIsAmended(d, view, a);
    }
  }

  lemma StaysTidy(ss: seq<Site>, stages: seq<Stage>, i: nat)
    requires IsRun(ss, stages) && i < |stages| && Tidy(ss[i].dir)
    requires stages[i].Slow? ==> !Disposes(ss[i].dir, stages[i].a)
    ensures Tidy(ss[i + 1].dir)
  {
    assert Happens(ss, stages, i);
    if stages[i].Slow? {
      HappensIsDecided(ss, stages, i);
      UseIsTidy(ss[i].dir, ss[stages[i].at].dir.cache, stages[i].a);
    }
  }

  lemma {:induction false} TidyUpTo(ss: seq<Site>, stages: seq<Stage>, n: nat)
    requires IsRun(ss, stages) && Tidy(ss[0].dir) && n <= |stages|
    requires forall i :: 0 <= i < |stages| && stages[i].Slow? ==> !Disposes(ss[i].dir, stages[i].a)
    ensures Tidy(ss[n].dir)
  {
    if n > 0 {
      TidyUpTo(ss, stages, n - 1);
      StaysTidy(ss, stages, n - 1);
    }
  }

  /** So as long as no group still holding rules is deleted, whatever the replays do, what clients can ask for
      only ever makes groups under fresh names. */
  lemma TidyRunIsFresh(ss: seq<Site>, stages: seq<Stage>)
    requires IsRun(ss, stages) && Tidy(ss[0].dir)
    requires forall i :: 0 <= i < |stages| && stages[i].Slow? ==>
      !Disposes(ss[i].dir, stages[i].a) && Sendable(stages[i].a)
    ensures AllFresh(ss, stages)
  {
    forall i | 0 <= i < |stages| && stages[i].Slow? ensures FreshName(ss[i].dir, stages[i].a) {
      TidyUpTo(ss, stages, i);
      assert Happens(ss, stages, i);
    }
  }

  /** Put together: whatever clients ask for, in whatever order it is decided, committed and replayed, nobody gains
      what neither they nor an actor could do, as long as no group still holding rules is deleted. */
  lemma NothingGainedInTidyRuns(ss: seq<Site>, stages: seq<Stage>, u: string, q: Permission)
    requires IsRun(ss, stages) && Seeded(ss[0].dir) && Settled(ss[0].dir) && Tidy(ss[0].dir) && ss[0].due == []
    requires forall i :: 0 <= i < |stages| && stages[i].Slow? ==>
      !Disposes(ss[i].dir, stages[i].a) && Sendable(stages[i].a) && !OnMade(stages[i].a, q)
    requires Principal(u) && Can(ss[|stages|].dir.cache, User(u), q)
    ensures exists v :: (v == u || TookPart(stages, v)) && (Can(ss[0].dir.cache, User(v), q) || v in Roots(stages))
  {
    TidyRunIsFresh(ss, stages);
    NoAuthorityFromNowhere(ss, stages, u, q);
  }
}
