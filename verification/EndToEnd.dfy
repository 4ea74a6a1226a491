/** From submitted transactions to what a watching client has been sent, with every step a moment of the run:
    when the watcher read the revision, when it subscribed, and when all had been published. */
module EndToEnd {
  import opened Lex
  import opened KeyEncoding
  import opened KvStore
  import opened Txn
  import opened Serial
  import opened Watch
  import opened Publisher
  import opened Pipeline

  // ---------------------------------------------------------------- names

  /** Every put of the tree, in both branches and at every depth, names a canonical key. */
  predicate CanonicalTxn(t: TxnInput)
    decreases t
  {
    CanonicalOps(t.success) && CanonicalOps(t.failure)
  }

  predicate CanonicalOps(ops: seq<Op>)
    decreases ops
  {
    ops == [] || (CanonicalOp(ops[0]) && CanonicalOps(ops[1..]))
  }

  predicate CanonicalOp(op: Op)
    decreases op
  {
    match op
    case PutOp(n, _) => Canonical(n)
    case NestedOp(Some(t)) => CanonicalTxn(t)
    case _ => true
  }

  ghost predicate CanonicalKeys(s: Store) {
    forall k :: k in s.kvs ==> Canonical(ParseStoreKey(k))
  }

  ghost predicate Named(ev: seq<Event>) {
    forall i :: 0 <= i < |ev| ==> EventName(ev[i].name)
  }

  /** Transactions that only put canonical keys keep the store so, and announce events under such names,
      deletions included. */
  lemma {:induction false} TxnNames(schema: Schema, s: Store, t: TxnInput)
    requires CanonicalTxn(t) && CanonicalKeys(s) && ExecTxn(schema, s, t).Done?
    ensures CanonicalKeys(ExecTxn(schema, s, t).store) && Named(ExecTxn(schema, s, t).events)
    decreases t
  {
    OpsNames(schema, s, if AllHold(s, t.compare) then t.success else t.failure);
  }

  lemma {:induction false} OpsNames(schema: Schema, s: Store, ops: seq<Op>)
    requires CanonicalOps(ops) && CanonicalKeys(s) && ExecOps(schema, s, ops).Done?
    ensures CanonicalKeys(ExecOps(schema, s, ops).store) && Named(ExecOps(schema, s, ops).events)
    decreases ops
  {
    if ops != [] {
      OpNames(schema, s, ops[0]);
      OpsNames(schema, ExecOp(schema, s, ops[0]).store, ops[1..]);
    }
  }

  lemma {:induction false} OpNames(schema: Schema, s: Store, op: Op)
    requires CanonicalOp(op) && CanonicalKeys(s) && ExecOp(schema, s, op).Done?
    ensures CanonicalKeys(ExecOp(schema, s, op).store) && Named(ExecOp(schema, s, op).events)
    decreases op
  {
    match op
    case RangeOp(_, _) =>
    case PutOp(n, _) => ParseStoreKeyInverts(n);
    case DeleteOp(b, returnPrev) =>
      forall i | 0 <= i < |RangeKeys(s, b)| ensures Canonical(ParseStoreKey(RangeKeys(s, b)[i])) {
        assert RangeKeys(s, b)[i] in s.kvs;
      }
    case NestedOp(Some(t)) => TxnNames(schema, s, t);
  }

  lemma {:induction false} StreamNames(schema: Schema, s0: Store, h: seq<Committed>)
    requires SerialUpTo(schema, s0, h) && CanonicalKeys(s0) && forall m :: 0 <= m < |h| ==> CanonicalTxn(h[m].txn)
    ensures CanonicalKeys(After(schema, s0, h)) && Named(Stream(h))
  {
    if h != [] {
      var init := h[..|h| - 1];
      SerialPrefix(schema, s0, h, |h| - 1);
      StreamNames(schema, s0, init);
      assert AsIfAlone(schema, s0, h, |h| - 1);
      assert h[..|h| - 1 + 1] == h;
      TxnNames(schema, After(schema, s0, init), h[|h| - 1].txn);
    }
  }

  lemma SerialPrefix(schema: Schema, s0: Store, h: seq<Committed>, n: nat)
    requires SerialUpTo(schema, s0, h) && n <= |h|
    ensures SerialUpTo(schema, s0, h[..n])
  {
    var init := h[..n];
    forall i | 0 <= i < |init| ensures AsIfAlone(schema, s0, init, i) {
      assert AsIfAlone(schema, s0, h, i);
      assert init[..i] == h[..i] && init[..i + 1] == h[..i + 1];
    }
  }

  // ---------------------------------------------------------------- moments of a run

  /** Histories and published streams only grow. */
  lemma {:induction false} RunGrows(schema: Schema, s0: Store, ss: seq<Sys>, j: nat, i: nat)
    requires IsRun(schema, s0, ss) && j <= i < |ss|
    ensures ss[j].history <= ss[i].history && ss[j].published <= ss[i].published
    decreases i - j
  {
    if j < i {
      RunGrows(schema, s0, ss, j, i - 1);
      assert Steps(schema, ss[i - 1], ss[i]);
      var a :| Next(schema, ss[i - 1], a, ss[i]);
    }
  }

  lemma {:induction false} StreamPrefix(h: seq<Committed>, n: nat)
    requires n <= |h|
    ensures Stream(h[..n]) <= Stream(h)
    decreases |h|
  {
    if n == |h| {
      assert h[..n] == h;
    } else {
      StreamPrefix(h[..|h| - 1], n);
      assert h[..|h| - 1][..n] == h[..n];
    }
  }

  lemma {:induction false} ConcatCounts(shares: seq<seq<Event>>, k: nat, e: Event)
    requires k < |shares|
    ensures |Concat(shares[k := shares[k] + [e]])| == |Concat(shares)| + 1
    decreases |shares|
  {
    var init, n := shares[..|shares| - 1], |shares| - 1;
    var grown := shares[k := shares[k] + [e]];
    if k == n {
      assert grown[..n] == init;
    } else {
      ConcatCounts(init, k, e);
      assert grown[..n] == init[k := init[k] + [e]];
    }
  }

  lemma OneMoreShare(p: seq<(nat, Event)>, k: nat, e: Event, n: nat)
    requires k < n
    ensures |Concat(Shares(p + [(k, e)], n))| == |Concat(Shares(p, n))| + 1
  {
    SharesGrow(p, k, e, n);
    ConcatCounts(Shares(p, n), k, e);
  }

  lemma {:induction false} SharesCount(p: seq<(nat, Event)>, n: nat)
    requires forall i :: 0 <= i < |p| ==> p[i].0 < n
    ensures |Concat(Shares(p, n))| == |p|
    decreases |p|
  {
    if p == [] {
      ConcatNothing(Shares(p, n));
    } else {
      var init := p[..|p| - 1];
      var (k, e) := p[|p| - 1];
      SharesCount(init, n);
      OneMoreShare(init, k, e, n);
      assert p == init + [(k, e)];
    }
  }

  lemma {:induction false} ConcatOfPrefixes(a: seq<seq<Event>>, h: seq<Committed>)
    requires |a| == |h| && forall i :: 0 <= i < |a| ==> a[i] <= h[i].events
    ensures |Concat(a)| <= |Stream(h)|
    decreases |a|
  {
    if a != [] {
      ConcatOfPrefixes(a[..|a| - 1], h[..|h| - 1]);
    }
  }

  /** No more is published than is owed. */
  lemma PublishedAtMostOwed(s: Sys)
    requires Mail(s.history, s.unsent, s.published)
    ensures |s.published| <= |Stream(s.history)|
  {
    var n := |s.history|;
    SharesCount(s.published, n);
    forall i | 0 <= i < n ensures Shares(s.published, n)[i] <= s.history[i].events {
      assert SentBy(s.published, i) + s.unsent[i] == s.history[i].events;
    }
    ConcatOfPrefixes(Shares(s.published, n), s.history);
  }

  lemma PublishedByMoment(schema: Schema, locked: set<Bytes>, ss: seq<Sys>, j: nat, i: nat)
    requires IsRun(schema, EmptyStore(locked), ss) && j <= i < |ss| && OnePerRevision(Stream(ss[i].history))
    ensures |ss[j].published| <= ss[j].committed.rev <= ss[i].committed.rev
    ensures ss[i].committed.rev == |ss[i].committed.log|
  {
    var s0 := EmptyStore(locked);
    RunGrows(schema, s0, ss, j, i);
    var h, n := ss[i].history, |ss[j].history|;
    assert h[..n] == ss[j].history;
    StreamPrefix(h, n);
    Serializable(schema, s0, ss, j);
    Serializable(schema, s0, ss, i);
    PublishedAtMostOwed(ss[j]);
    assert OnePerRevision(Stream(ss[j].history));
    StreamRebuildsStore(schema, locked, ss, j);
    StreamRebuildsStore(schema, locked, ss, i);
    AfterIsValid(schema, s0, ss[j].history);
    AfterIsValid(schema, s0, ss[i].history);
  }

  // ---------------------------------------------------------------- the result

  /** What the hub has done with a subscription by the time everything was published: the calls are the
      published stream, they came one at a time, and no buffer overflowed. */
  ghost predicate Served(st: Story, calls: seq<Event>, prior: seq<set<nat>>, id: nat) {
    Orderly(calls, prior, st) && OneAtATime(prior) && Reached(map[], calls, id, st) && st.dropped == {}
  }

  /** A watcher reads the revision at one moment of a run, subscribes at a later one, and replays at least what
      was committed by then. At any moment by which everything committed has been published, in turn and one
      call at a time, it has sent the matching changelog rows from its start revision on, each once and in
      order, after nothing but the stale ones. */
  lemma WatcherSeesEveryCommit(schema: Schema, locked: set<Bytes>, ss: seq<Sys>, read: nat, joined: nat, i: nat,
                               w: Watcher, startRevision: nat, end: nat,
                               st: Story, prior: seq<set<nat>>, id: nat)
    requires IsRun(schema, EmptyStore(locked), ss) && read <= joined <= i < |ss|
    requires forall m :: 0 <= m < |ss[i].history| ==> CanonicalTxn(ss[i].history[m].txn)
    requires AllSent(ss[i]) && InTurn(ss[i].published) && OnePerRevision(Stream(ss[i].history))
    requires Served(st, Sent(ss[i].published), prior, id)
    requires st.filter == SubscribeFilter(w.b) && st.joined == |ss[joined].published|
    requires Decoded(w) && Lossless(w)
    requires 1 <= startRevision <= ss[read].committed.rev
    requires ss[joined].committed.rev <= end <= |ss[i].committed.log|
    ensures var log, currentRev := ss[i].committed.log, ss[read].committed.rev;
            && startRevision <= currentRev <= end
            && Output(w, startRevision, currentRev, log, end, EventsAt(Sent(ss[i].published), st.accepted)) ==
               Stale(w, log, startRevision, st.joined, end) + Matching(w, log, startRevision - 1, |log|)
  {
    var s0 := EmptyStore(locked);
    var all, log := Sent(ss[i].published), ss[i].committed.log;
    PublishedIsStream(schema, s0, ss, i);
    Serializable(schema, s0, ss, i);
    StreamNames(schema, s0, ss[i].history);
    assert forall e :: e in all ==> EventName(e.name);
    StreamIsLog(schema, locked, ss, i);
    PublishedByMoment(schema, locked, ss, joined, i);
    RevisionAtRead(schema, locked, ss, read, joined, i);
    Undisturbed(all, prior, id, st);
    ExactlyOnce(w, startRevision, ss[read].committed.rev, log, all, st.joined, end);
  }

  lemma RevisionAtRead(schema: Schema, locked: set<Bytes>, ss: seq<Sys>, read: nat, joined: nat, i: nat)
    requires IsRun(schema, EmptyStore(locked), ss) && read <= joined <= i < |ss| &&
             OnePerRevision(Stream(ss[i].history))
    ensures ss[read].committed.rev <= ss[joined].committed.rev
  {
    var s0 := EmptyStore(locked);
    RunGrows(schema, s0, ss, joined, i);
    var n := |ss[joined].history|;
    assert ss[i].history[..n] == ss[joined].history;
    StreamPrefix(ss[i].history, n);
    assert OnePerRevision(Stream(ss[joined].history));
    PublishedByMoment(schema, locked, ss, read, joined);
  }
}
