/** Every interleaving of writing transactions: they begin, run operation by operation, commit or roll
    back under the one writer slot, and publish their notifications after their commit, in between
    other transactions' steps. */
module Serial {
  import opened Lex
  import opened KeyEncoding
  import opened KvStore
  import opened Txn

  // ---------------------------------------------------------------- one transaction, step by step

  /** A branch under way: what it has answered and what is left to run. */
  datatype Frame = Frame(succeeded: bool, results: seq<OpResult>, rest: seq<Op>)

  /** The private state of the open writer: a stack of branches, innermost last. */
  datatype Config = Config(stack: seq<Frame>, store: Store, events: seq<Event>)

  datatype Turn = Moved(c: Config) | Failed(error: KvError) | Finished(result: TxnResult)

  ghost function Enter(s: Store, t: TxnInput): (f: Frame) {
    Frame(AllHold(s, t.compare), [], if AllHold(s, t.compare) then t.success else t.failure)
  }

  ghost function Start(s: Store, t: TxnInput): (c: Config) {
    Config([Enter(s, t)], s, [])
  }

  function Answer(f: Frame, s: Store): (res: TxnResult) {
    TxnResult(f.results, s.rev, f.succeeded)
  }

  /** One turn: leave a finished branch, enter a nested transaction, or run one operation. */
  ghost function Turn1(schema: Schema, c: Config): (r: Turn)
    requires c.stack != []
  {
    var top, below := c.stack[|c.stack| - 1], c.stack[..|c.stack| - 1];
    if top.rest == [] then
      if below == [] then Finished(Answer(top, c.store))
      else
        var parent := below[|below| - 1];
        var res := NestedResult(Answer(top, c.store));
        Moved(c.(stack := below[..|below| - 1] + [parent.(results := parent.results + [res])]))
    else
      var op, left := top.rest[0], top.(rest := top.rest[1..]);
      if op.NestedOp? && op.txn.Some? then
        Moved(c.(stack := below + [left, Enter(c.store, op.txn.value)]))
      else match ExecOp(schema, c.store, op)
        case Fail(e) => Failed(e)
        case Done(s', res, ev) =>
          Moved(Config(below + [left.(results := left.results + [res])], s', c.events + ev))
  }

  /** What the branches below come to once the innermost one has run to `run`. */
  ghost function Resume(schema: Schema, below: seq<Frame>, top: Frame, run: Run<seq<OpResult>>, events: seq<Event>)
    : (r: Run<TxnResult>)
    decreases |below|, 1
  {
    if run.Fail? then Fail(run.error)
    else Return(schema, below, TxnResult(top.results + run.result, run.store.rev, top.succeeded), run.store,
                events + run.events)
  }

  /** What they come to once it has answered. */
  ghost function Return(schema: Schema, below: seq<Frame>, res: TxnResult, s: Store, events: seq<Event>)
    : (r: Run<TxnResult>)
    decreases |below|, 0
  {
    if below == [] then Done(s, res, events)
    else
      var parent := below[|below| - 1];
      var parent' := parent.(results := parent.results + [NestedResult(res)]);
      Resume(schema, below[..|below| - 1], parent', ExecOps(schema, s, parent'.rest), events)
  }

  /** What the rest of a transaction will come to from here. */
  ghost function Outlook(schema: Schema, stack: seq<Frame>, s: Store, events: seq<Event>): (r: Run<TxnResult>)
    requires stack != []
  {
    var top := stack[|stack| - 1];
    Resume(schema, stack[..|stack| - 1], top, ExecOps(schema, s, top.rest), events)
  }

  /** The outlook of a fresh transaction is its meaning. */
  lemma OutlookOfStart(schema: Schema, s: Store, t: TxnInput)
    ensures Outlook(schema, Start(s, t).stack, s, []) == ExecTxn(schema, s, t)
  {
    var f := Enter(s, t);
    match ExecOps(schema, s, f.rest)
    case Fail(_) =>
    case Done(_, rs, ev) =>
      assert f.results + rs == rs && [] + ev == ev;
  }

  /** A turn fails as foreseen, ends as foreseen, or moves on to the same outlook. */
  ghost predicate Foreseen(schema: Schema, c: Config, t: Turn)
    requires c.stack != []
  {
    match t
    case Moved(c') =>
      c'.stack != [] && Outlook(schema, c'.stack, c'.store, c'.events) == Outlook(schema, c.stack, c.store, c.events)
    case Failed(e) => Outlook(schema, c.stack, c.store, c.events) == Fail(e)
    case Finished(res) => Outlook(schema, c.stack, c.store, c.events) == Done(c.store, res, c.events)
  }

  /** No turn changes the outlook. */
  lemma TurnKeepsOutlook(schema: Schema, c: Config)
    requires c.stack != []
    ensures Foreseen(schema, c, Turn1(schema, c))
  {
    var top, below := c.stack[|c.stack| - 1], c.stack[..|c.stack| - 1];
    assert c.stack == below + [top];
    if top.rest == [] {
      TurnLeaves(schema, below, top, c.store, c.events);
    } else if top.rest[0].NestedOp? && top.rest[0].txn.Some? {
      TurnEnters(schema, below, top, c.store, c.events);
    } else {
      TurnOperates(schema, below, top, c.store, c.events);
    }
  }

  lemma TurnLeaves(schema: Schema, below: seq<Frame>, top: Frame, s: Store, events: seq<Event>)
    requires top.rest == []
    ensures var c := Config(below + [top], s, events); Foreseen(schema, c, Turn1(schema, c))
  {
    LeaveKeepsOutlook(schema, below, top, s, events);
    assert (below + [top])[..|below|] == below;
  }

  lemma TurnEnters(schema: Schema, below: seq<Frame>, top: Frame, s: Store, events: seq<Event>)
    requires top.rest != [] && top.rest[0].NestedOp? && top.rest[0].txn.Some?
    ensures var c := Config(below + [top], s, events); Foreseen(schema, c, Turn1(schema, c))
  {
    EnterKeepsOutlook(schema, below, top, s, events);
    assert (below + [top])[..|below|] == below;
  }

  lemma TurnOperates(schema: Schema, below: seq<Frame>, top: Frame, s: Store, events: seq<Event>)
    requires top.rest != [] && !(top.rest[0].NestedOp? && top.rest[0].txn.Some?)
    ensures var c := Config(below + [top], s, events); Foreseen(schema, c, Turn1(schema, c))
  {
    OperationKeepsOutlook(schema, below, top, s, events);
    assert (below + [top])[..|below|] == below;
  }

  lemma OutlookAt(schema: Schema, below: seq<Frame>, top: Frame, s: Store, events: seq<Event>)
    ensures Outlook(schema, below + [top], s, events) ==
            Resume(schema, below, top, ExecOps(schema, s, top.rest), events)
  {
    assert (below + [top])[..|below|] == below;
  }

  lemma LeaveKeepsOutlook(schema: Schema, below: seq<Frame>, top: Frame, s: Store, events: seq<Event>)
    requires top.rest == []
    ensures Outlook(schema, below + [top], s, events) == Return(schema, below, Answer(top, s), s, events)
    ensures below != [] ==>
      var parent := below[|below| - 1];
      var parent' := parent.(results := parent.results + [NestedResult(Answer(top, s))]);
      Outlook(schema, below + [top], s, events) == Outlook(schema, below[..|below| - 1] + [parent'], s, events)
  {
    OutlookAt(schema, below, top, s, events);
    assert ExecOps(schema, s, top.rest) == Done(s, [], []);
    assert top.results + [] == top.results && events + [] == events;
    if below != [] {
      var parent := below[|below| - 1];
      var parent' := parent.(results := parent.results + [NestedResult(Answer(top, s))]);
      OutlookAt(schema, below[..|below| - 1], parent', s, events);
    }
  }

  lemma EnterKeepsOutlook(schema: Schema, below: seq<Frame>, top: Frame, s: Store, events: seq<Event>)
    requires top.rest != [] && top.rest[0].NestedOp? && top.rest[0].txn.Some?
    ensures var left := top.(rest := top.rest[1..]);
            Outlook(schema, below + [left, Enter(s, top.rest[0].txn.value)], s, events) ==
            Outlook(schema, below + [top], s, events)
  {
    var t := top.rest[0].txn.value;
    var left, inner := top.(rest := top.rest[1..]), Enter(s, t);
    assert below + [left, inner] == below + [left] + [inner];
    OutlookAt(schema, below + [left], inner, s, events);
    OperationKeepsOutlook(schema, below, top, s, events);
    var run := ExecOps(schema, s, inner.rest);
    if run.Fail? {
      assert ExecTxn(schema, s, t) == Fail(run.error);
    } else {
      assert ExecTxn(schema, s, t) ==
             Done(run.store, TxnResult(run.result, run.store.rev, inner.succeeded), run.events);
      assert inner.results + run.result == run.result;
      assert (below + [left])[..|below|] == below;
      var res := NestedResult(TxnResult(run.result, run.store.rev, inner.succeeded));
      OutlookAt(schema, below, left.(results := left.results + [res]), run.store, events + run.events);
    }
  }

  lemma OperationKeepsOutlook(schema: Schema, below: seq<Frame>, top: Frame, s: Store, events: seq<Event>)
    requires top.rest != []
    ensures var one := ExecOp(schema, s, top.rest[0]);
            Outlook(schema, below + [top], s, events) ==
            if one.Fail? then Fail(one.error)
            else Outlook(schema, below + [Frame(top.succeeded, top.results + [one.result], top.rest[1..])], one.store,
                         events + one.events)
  {
    OutlookAt(schema, below, top, s, events);
    var one := ExecOp(schema, s, top.rest[0]);
    if one.Done? {
      var next := Frame(top.succeeded, top.results + [one.result], top.rest[1..]);
      var run := ExecOps(schema, one.store, next.rest);
      OutlookAt(schema, below, next, one.store, events + one.events);
      ResumeShift(schema, below, top, next, one.result, one.events, run, events);
    }
  }

  /** An operation already run may count as part of the branch so far or of what remains. */
  lemma ResumeShift(schema: Schema, below: seq<Frame>, top: Frame, next: Frame, res: OpResult, ev: seq<Event>,
                    run: Run<seq<OpResult>>, events: seq<Event>)
    requires next.results == top.results + [res] && next.succeeded == top.succeeded
    ensures Resume(schema, below, next, run, events + ev) ==
            Resume(schema, below, top,
                   if run.Fail? then run else Done(run.store, [res] + run.result, ev + run.events), events)
  {
    if run.Done? {
      assert next.results + run.result == top.results + ([res] + run.result);
      assert events + ev + run.events == events + (ev + run.events);
    }
  }

  // ---------------------------------------------------------------- the system

  datatype Committed = Committed(txn: TxnInput, result: TxnResult, events: seq<Event>)

  datatype Writer = Idle | Busy(txn: TxnInput, c: Config)

  /** `unsent[i]` are the notifications transaction i still owes; `published` remembers whose each was. */
  datatype Sys = Sys(
    committed: Store,
    writer: Writer,
    history: seq<Committed>,
    unsent: seq<seq<Event>>,
    published: seq<(nat, Event)>)

  datatype Action = Begin(txn: TxnInput) | Operate | Commit | Rollback | Publish(i: nat)

  ghost predicate Init(s: Sys, s0: Store) {
    s == Sys(s0, Idle, [], [], [])
  }

  /** A rollback may come at any time: an operation failed, the commit failed, or the caller panicked. */
  ghost predicate Next(schema: Schema, s: Sys, a: Action, s': Sys) {
    match a
    case Begin(t) => s.writer.Idle? && HasWrites(t) && s' == s.(writer := Busy(t, Start(s.committed, t)))
    case Operate =>
      && s.writer.Busy? && s.writer.c.stack != []
      && var turn := Turn1(schema, s.writer.c);
         turn.Moved? && s' == s.(writer := Busy(s.writer.txn, turn.c))
    case Commit =>
      && s.writer.Busy? && s.writer.c.stack != []
      && var c := s.writer.c;
         var turn := Turn1(schema, c);
         turn.Finished? &&
         s' == Sys(c.store, Idle, s.history + [Committed(s.writer.txn, turn.result, c.events)],
                   s.unsent + [c.events], s.published)
    case Rollback => s.writer.Busy? && s' == s.(writer := Idle)
    case Publish(i) =>
      && i < |s.unsent| && s.unsent[i] != []
      && s' == s.(unsent := s.unsent[i := s.unsent[i][1..]], published := s.published + [(i, s.unsent[i][0])])
  }

  ghost predicate IsRun(schema: Schema, s0: Store, ss: seq<Sys>) {
    && ss != [] && Init(ss[0], s0)
    && forall i :: 0 < i < |ss| ==> Steps(schema, ss[i - 1], ss[i])
  }

  ghost predicate Steps(schema: Schema, s: Sys, s': Sys) {
    exists a :: Next(schema, s, a, s')
  }

  // ---------------------------------------------------------------- serial order

  /** The store after running transactions one after another; one that fails changes nothing. */
  ghost function After(schema: Schema, s0: Store, h: seq<Committed>): (s: Store) {
    if h == [] then s0
    else
      var s := After(schema, s0, h[..|h| - 1]);
      match ExecTxn(schema, s, h[|h| - 1].txn)
      case Fail(_) => s
      case Done(s', _, _) => s'
  }

  /** Each transaction answered and owed exactly what it would have, run at its place in the order. */
  ghost predicate SerialUpTo(schema: Schema, s0: Store, h: seq<Committed>) {
    forall i :: 0 <= i < |h| ==> AsIfAlone(schema, s0, h, i)
  }

  ghost predicate AsIfAlone(schema: Schema, s0: Store, h: seq<Committed>, i: nat)
    requires i < |h|
  {
    ExecTxn(schema, After(schema, s0, h[..i]), h[i].txn) ==
    Done(After(schema, s0, h[..i + 1]), h[i].result, h[i].events)
  }

  function SentBy(published: seq<(nat, Event)>, i: nat): (ev: seq<Event>) {
    if published == [] then []
    else
      var last := published[|published| - 1];
      SentBy(published[..|published| - 1], i) + (if last.0 == i then [last.1] else [])
  }

  /** Of each committed transaction, what was sent and then what is unsent are its events. */
  ghost predicate Mail(h: seq<Committed>, unsent: seq<seq<Event>>, published: seq<(nat, Event)>) {
    && |unsent| == |h|
    && (forall i :: 0 <= i < |h| ==> SentBy(published, i) + unsent[i] == h[i].events)
    && (forall i :: 0 <= i < |published| ==> published[i].0 < |h|)
  }

  ghost predicate Inv(schema: Schema, s0: Store, s: Sys) {
    && s.committed == After(schema, s0, s.history)
    && SerialUpTo(schema, s0, s.history)
    && Mail(s.history, s.unsent, s.published)
    && (s.writer.Busy? ==>
         && s.writer.c.stack != []
         && Outlook(schema, s.writer.c.stack, s.writer.c.store, s.writer.c.events) ==
            ExecTxn(schema, s.committed, s.writer.txn))
  }

  lemma CommitExtends(schema: Schema, s0: Store, h: seq<Committed>, x: Committed, s': Store)
    requires SerialUpTo(schema, s0, h)
    requires ExecTxn(schema, After(schema, s0, h), x.txn) == Done(s', x.result, x.events)
    ensures SerialUpTo(schema, s0, h + [x]) && After(schema, s0, h + [x]) == s'
  {
    var h' := h + [x];
    assert h'[..|h|] == h && h'[..|h| + 1] == h';
    forall i | 0 <= i < |h'|
      ensures AsIfAlone(schema, s0, h', i)
    {
      if i < |h| {
        assert AsIfAlone(schema, s0, h, i);
        assert h'[..i] == h[..i] && h'[..i + 1] == h[..i + 1];
      }
    }
  }

  lemma {:induction false} NothingSentBy(published: seq<(nat, Event)>, i: nat)
    requires forall j :: 0 <= j < |published| ==> published[j].0 < i
    ensures SentBy(published, i) == []
  {
    if published != [] {
      NothingSentBy(published[..|published| - 1], i);
    }
  }

  lemma MailPublished(h: seq<Committed>, unsent: seq<seq<Event>>, published: seq<(nat, Event)>, i: nat)
    requires Mail(h, unsent, published) && i < |unsent| && unsent[i] != []
    ensures Mail(h, unsent[i := unsent[i][1..]], published + [(i, unsent[i][0])])
  {
    forall k | 0 <= k < |h|
      ensures SentBy(published + [(i, unsent[i][0])], k) + unsent[i := unsent[i][1..]][k] == h[k].events
    {
      assert SentBy(published, k) + unsent[k] == h[k].events;
      SentByOneMore(published, i, unsent[i][0], k);
      if k == i {
        MoveHead(SentBy(published, i), unsent[i]);
      }
    }
  }

  lemma SentByOneMore(published: seq<(nat, Event)>, i: nat, e: Event, k: nat)
    ensures SentBy(published + [(i, e)], k) == if i == k then SentBy(published, k) + [e] else SentBy(published, k)
  {
    assert (published + [(i, e)])[..|published|] == published;
  }

  lemma MoveHead(a: seq<Event>, b: seq<Event>)
    requires b != []
    ensures (a + [b[0]]) + b[1..] == a + b
  {
  }

  lemma MailCommitted(h: seq<Committed>, unsent: seq<seq<Event>>, published: seq<(nat, Event)>, x: Committed)
    requires Mail(h, unsent, published)
    ensures Mail(h + [x], unsent + [x.events], published)
  {
    NothingSentBy(published, |h|);
    assert [] + x.events == x.events;
  }

  lemma InvStep(schema: Schema, s0: Store, s: Sys, a: Action, s': Sys)
    requires Inv(schema, s0, s) && Next(schema, s, a, s')
    ensures Inv(schema, s0, s')
  {
    match a
    case Begin(t) => OutlookOfStart(schema, s.committed, t);
    case Operate => TurnKeepsOutlook(schema, s.writer.c);
    case Commit =>
      TurnKeepsOutlook(schema, s.writer.c);
      var x := Committed(s.writer.txn, Turn1(schema, s.writer.c).result, s.writer.c.events);
      CommitExtends(schema, s0, s.history, x, s.writer.c.store);
      MailCommitted(s.history, s.unsent, s.published, x);
    case Rollback =>
    case Publish(i) => MailPublished(s.history, s.unsent, s.published, i);
  }

  /** In every run, at every moment: the committed store is the one the committed transactions produce
      run one after another in commit order, each answered as if alone, and what has been published is,
      transaction by transaction, a prefix in order of what it owes; nothing else was ever published. */
  lemma {:induction false} Serializable(schema: Schema, s0: Store, ss: seq<Sys>, i: nat)
    requires IsRun(schema, s0, ss) && i < |ss|
    ensures Inv(schema, s0, ss[i])
    decreases i
  {
    if i > 0 {
      Serializable(schema, s0, ss, i - 1);
      assert Steps(schema, ss[i - 1], ss[i]);
      var a :| Next(schema, ss[i - 1], a, ss[i]);
      InvStep(schema, s0, ss[i - 1], a, ss[i]);
    } else {
      var h: seq<Committed> := [];
      assert After(schema, s0, h) == s0;
    }
  }

  // ---------------------------------------------------------------- compare-and-swap

  /** A transaction that means to create one key: its guard asks that the key be absent. */
  predicate GuardedBy(t: TxnInput, n: Name) {
    exists i :: 0 <= i < |t.compare| && t.compare[i] == AbsentGuard(n)
  }

  lemma {:induction false} MirrorRemoves(m: map<Bytes, Entry>, ev: seq<Event>, k: Bytes) returns (i: nat)
    requires k in m && k !in Mirror(m, ev)
    ensures i < |ev| && ev[i].kind == Deleted && StoreKey(ev[i].name) == k
    decreases ev
  {
    if k !in Apply(m, ev[0]) {
      i := 0;
    } else {
      i := MirrorRemoves(Apply(m, ev[0]), ev[1..], k);
      i := i + 1;
    }
  }

  lemma {:induction false} AfterIsValid(schema: Schema, s0: Store, h: seq<Committed>)
    requires Valid(s0)
    ensures Valid(After(schema, s0, h))
  {
    if h != [] {
      var s := After(schema, s0, h[..|h| - 1]);
      AfterIsValid(schema, s0, h[..|h| - 1]);
      if ExecTxn(schema, s, h[|h| - 1].txn).Done? {
        TxnSound(schema, s, h[|h| - 1].txn);
      }
    }
  }

  /** The stores of a serial history, place by place. */
  ghost function Chain(schema: Schema, s0: Store, h: seq<Committed>): (chain: seq<Store>)
    ensures |chain| == |h| + 1 && forall i :: 0 <= i <= |h| ==> chain[i] == After(schema, s0, h[..i])
  {
    seq(|h| + 1, i requires 0 <= i <= |h| => After(schema, s0, h[..i]))
  }

  ghost predicate LeadsTo(s: Store, ev: seq<Event>, s': Store) {
    s.rev <= s'.rev && s'.kvs == Mirror(s.kvs, ev) && LaterThan(s.rev, ev) && UpTo(s'.rev, ev)
  }

  /** One place of a serial history: the revision does not fall, and the events, all later, lead on. */
  lemma PlaceFacts(schema: Schema, s0: Store, h: seq<Committed>, i: nat)
    requires Valid(s0) && SerialUpTo(schema, s0, h) && i < |h|
    ensures LeadsTo(After(schema, s0, h[..i]), h[i].events, After(schema, s0, h[..i + 1]))
  {
    assert AsIfAlone(schema, s0, h, i);
    AfterIsValid(schema, s0, h[..i]);
    TxnSound(schema, After(schema, s0, h[..i]), h[i].txn);
  }

  predicate UpTo(top: nat, ev: seq<Event>) {
    forall i :: 0 <= i < |ev| ==> ev[i].rev <= top
  }

  predicate LaterThan(floor: nat, ev: seq<Event>) {
    forall i :: 0 <= i < |ev| ==> floor < ev[i].rev
  }

  lemma ChainLinks(schema: Schema, s0: Store, h: seq<Committed>)
    requires Valid(s0) && SerialUpTo(schema, s0, h)
    ensures var chain := Chain(schema, s0, h); forall m :: 0 <= m < |h| ==> LeadsTo(chain[m], h[m].events, chain[m + 1])
  {
    forall m | 0 <= m < |h|
      ensures LeadsTo(Chain(schema, s0, h)[m], h[m].events, Chain(schema, s0, h)[m + 1])
    {
      PlaceFacts(schema, s0, h, m);
    }
  }

  /** If a key is there at place i and gone at place j, a transaction in between deleted it and owes
      the notification that says so. */
  lemma {:induction false} SomeoneDeleted(chain: seq<Store>, h: seq<Committed>, i: nat, j: nat, k: Bytes)
    returns (m: nat, e: nat)
    requires |chain| == |h| + 1 && i <= j <= |h|
    requires forall m :: 0 <= m < |h| ==> LeadsTo(chain[m], h[m].events, chain[m + 1])
    requires k in chain[i].kvs && k !in chain[j].kvs
    ensures i <= m < j && e < |h[m].events|
    ensures h[m].events[e].kind == Deleted && StoreKey(h[m].events[e].name) == k
    decreases j - i
  {
    assert LeadsTo(chain[i], h[i].events, chain[i + 1]);
    if k in chain[i + 1].kvs {
      m, e := SomeoneDeleted(chain, h, i + 1, j, k);
    } else {
      m := i;
      e := MirrorRemoves(chain[i].kvs, h[i].events, k);
    }
  }

  lemma GuardMeansAbsent(schema: Schema, s: Store, t: TxnInput, n: Name)
    requires Valid(s) && GuardedBy(t, n)
    requires ExecTxn(schema, s, t).Done? && ExecTxn(schema, s, t).result.succeeded
    ensures StoreKey(n) !in s.kvs
  {
    var i :| 0 <= i < |t.compare| && t.compare[i] == AbsentGuard(n);
    assert Holds(s, t.compare[i]);
    AbsentGuardExact(s, n);
  }

  lemma WonMeansAbsent(schema: Schema, s0: Store, h: seq<Committed>, j: nat, n: Name)
    requires Valid(s0) && SerialUpTo(schema, s0, h) && j < |h| && GuardedBy(h[j].txn, n) && h[j].result.succeeded
    ensures StoreKey(n) !in After(schema, s0, h[..j]).kvs
  {
    assert AsIfAlone(schema, s0, h, j);
    AfterIsValid(schema, s0, h[..j]);
    GuardMeansAbsent(schema, After(schema, s0, h[..j]), h[j].txn, n);
  }

  /** Mutual exclusion: of two committed transactions guarded by "CreateRevision = 0" on one key, both
      successful and the first leaving the key in place, a transaction committed between them deleted
      that key, and watchers are owed the news. */
  lemma AtMostOneHolder(schema: Schema, s0: Store, ss: seq<Sys>, n: Name, i: nat, j: nat)
    returns (m: nat, e: nat)
    requires Valid(s0) && IsRun(schema, s0, ss)
    requires var h := ss[|ss| - 1].history;
             && i < j < |h| && GuardedBy(h[i].txn, n) && GuardedBy(h[j].txn, n)
             && h[i].result.succeeded && h[j].result.succeeded
             && StoreKey(n) in After(schema, s0, h[..i + 1]).kvs
    ensures var h := ss[|ss| - 1].history;
            && i < m < j && e < |h[m].events|
            && h[m].events[e].kind == Deleted && StoreKey(h[m].events[e].name) == StoreKey(n)
  {
    var h := ss[|ss| - 1].history;
    Serializable(schema, s0, ss, |ss| - 1);
    WonMeansAbsent(schema, s0, h, j, n);
    ChainLinks(schema, s0, h);
    m, e := SomeoneDeleted(Chain(schema, s0, h), h, i + 1, j, StoreKey(n));
  }

  /** The usual lock transaction, whose success branch just puts the key, does leave it in place. */
  lemma LockIsHeld(schema: Schema, s: Store, t: TxnInput, n: Name, value: Bytes)
    requires t.success == [PutOp(n, value)]
    requires ExecTxn(schema, s, t).Done? && ExecTxn(schema, s, t).result.succeeded
    ensures StoreKey(n) in ExecTxn(schema, s, t).store.kvs
  {
    assert t.success[0] == PutOp(n, value) && t.success[1..] == [];
    assert ExecOp(schema, s, t.success[0]).Done?;
    assert ExecOps(schema, s, t.success).store == ExecOp(schema, s, t.success[0]).store;
  }

  // ---------------------------------------------------------------- optimistic locking

  predicate GuardedAt(t: TxnInput, n: Name, revision: nat) {
    exists i :: 0 <= i < |t.compare| && t.compare[i] == UnchangedGuard(n, revision)
  }

  predicate Spares(ev: seq<Event>, k: Bytes) {
    forall i :: 0 <= i < |ev| ==> StoreKey(ev[i].name) != k
  }

  /** An entry older than every event was there before them, and none of them was about its key. */
  lemma {:induction false} OldEntryStays(m: map<Bytes, Entry>, ev: seq<Event>, k: Bytes, floor: nat)
    requires LaterThan(floor, ev)
    requires k in Mirror(m, ev) && Mirror(m, ev)[k].modRev <= floor
    ensures k in m && m[k] == Mirror(m, ev)[k] && Spares(ev, k)
    decreases ev
  {
    if ev != [] {
      OldEntryStays(Apply(m, ev[0]), ev[1..], k, floor);
      assert StoreKey(ev[0].name) != k;
    }
  }

  /** A key whose last change lies before place i did not move from there to place j. */
  lemma {:induction false} Unmoved(chain: seq<Store>, h: seq<Committed>, i: nat, j: nat, k: Bytes, revision: nat)
    requires |chain| == |h| + 1 && i <= j <= |h|
    requires forall m :: 0 <= m < |h| ==> LeadsTo(chain[m], h[m].events, chain[m + 1])
    requires k in chain[j].kvs && chain[j].kvs[k].modRev == revision <= chain[i].rev
    ensures forall m :: i <= m < j ==> Spares(h[m].events, k)
    ensures k in chain[i].kvs && chain[i].kvs[k].modRev == revision
    decreases j - i
  {
    if i < j {
      assert LeadsTo(chain[i], h[i].events, chain[i + 1]);
      Unmoved(chain, h, i + 1, j, k, revision);
      OldEntryStays(chain[i].kvs, h[i].events, k, chain[i].rev);
    }
  }

  lemma GuardMeansUnchanged(schema: Schema, s: Store, t: TxnInput, n: Name, revision: nat)
    requires Valid(s) && revision > 0 && GuardedAt(t, n, revision)
    requires ExecTxn(schema, s, t).Done? && ExecTxn(schema, s, t).result.succeeded
    ensures StoreKey(n) in s.kvs && s.kvs[StoreKey(n)].modRev == revision && revision <= s.rev
  {
    var i :| 0 <= i < |t.compare| && t.compare[i] == UnchangedGuard(n, revision);
    assert Holds(s, t.compare[i]);
    UnchangedGuardExact(s, n, revision);
  }

  lemma WonMeansUnchanged(schema: Schema, s0: Store, h: seq<Committed>, j: nat, n: Name, revision: nat)
    requires Valid(s0) && SerialUpTo(schema, s0, h) && j < |h| && revision > 0
    requires GuardedAt(h[j].txn, n, revision) && h[j].result.succeeded
    ensures var s := After(schema, s0, h[..j]);
            StoreKey(n) in s.kvs && s.kvs[StoreKey(n)].modRev == revision && revision <= s.rev
  {
    assert AsIfAlone(schema, s0, h, j);
    AfterIsValid(schema, s0, h[..j]);
    GuardMeansUnchanged(schema, After(schema, s0, h[..j]), h[j].txn, n, revision);
  }

  /** No lost update: of two committed transactions guarded by one ModRevision of a key, both successful,
      neither the first nor anything committed between them touched the key. So of all transactions that
      read a key at one revision and write it under that guard, at most one succeeds. */
  lemma NoLostUpdate(schema: Schema, s0: Store, ss: seq<Sys>, n: Name, revision: nat, i: nat, j: nat)
    requires Valid(s0) && IsRun(schema, s0, ss) && revision > 0
    requires var h := ss[|ss| - 1].history;
             && i < j < |h| && GuardedAt(h[i].txn, n, revision) && GuardedAt(h[j].txn, n, revision)
             && h[i].result.succeeded && h[j].result.succeeded
    ensures var h := ss[|ss| - 1].history; forall m :: i <= m < j ==> Spares(h[m].events, StoreKey(n))
  {
    var h := ss[|ss| - 1].history;
    Serializable(schema, s0, ss, |ss| - 1);
    WonMeansUnchanged(schema, s0, h, i, n, revision);
    WonMeansUnchanged(schema, s0, h, j, n, revision);
    ChainLinks(schema, s0, h);
    Unmoved(Chain(schema, s0, h), h, i, j, StoreKey(n), revision);
  }
}
