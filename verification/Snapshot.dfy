/** Read-only transactions beside writers. A tree that only reads opens no transaction: each of its reads meets
    the store committed at its own moment. */
module Snapshot {
  import opened KeyEncoding
  import opened KvStore
  import opened Txn
  import opened TxnService
  import opened Serial
  import opened EndToEnd

  /** The store that each read, counted from 0, meets. */
  type Views = nat -> Store

  datatype Told<+T> = Told(result: T, next: nat) | Broken(error: KvError)

  // ---------------------------------------------------------------- reading as it goes

  /** evalCompares: one read per guard, up to the first that fails. */
  ghost function ReadCompares(views: Views, k: nat, cs: seq<Compare>): (r: (bool, nat))
    ensures k <= r.1
    decreases cs
  {
    if cs == [] then (true, k)
    else if !Holds(views(k), cs[0]) then (false, k + 1)
    else ReadCompares(views, k + 1, cs[1..])
  }

  /** Guards that hold where they are read are passed one by one. */
  lemma {:induction false} GuardsPassed(views: Views, k: nat, cs: seq<Compare>, i: nat)
    requires i <= |cs| && forall j :: 0 <= j < i ==> Holds(views(k + j), cs[j])
    ensures ReadCompares(views, k, cs) == ReadCompares(views, k + i, cs[i..])
    decreases i
  {
    if i == 0 {
      assert cs[0..] == cs;
    } else {
      assert Holds(views(k + (i - 1)), cs[i - 1]);
      GuardPassed(views, k + (i - 1), cs, i - 1);
      GuardsPassed(views, k, cs, i - 1);
    }
  }

  lemma GuardPassed(views: Views, k: nat, cs: seq<Compare>, i: nat)
    requires i < |cs| && Holds(views(k), cs[i])
    ensures ReadCompares(views, k, cs[i..]) == ReadCompares(views, k + 1, cs[i + 1..])
  {
    assert cs[i..][0] == cs[i] && cs[i..][1..] == cs[i + 1..];
  }

  /** The verdict is that of the first guard to fail where it is read, and nothing is read past it. */
  lemma FirstFailureDecides(views: Views, k: nat, cs: seq<Compare>, i: nat)
    requires i <= |cs| && forall j :: 0 <= j < i ==> Holds(views(k + j), cs[j])
    requires i < |cs| ==> !Holds(views(k + i), cs[i])
    ensures ReadCompares(views, k, cs) == if i == |cs| then (true, k + i) else (false, k + i + 1)
  {
    GuardsPassed(views, k, cs, i);
    if i < |cs| {
      assert cs[i..][0] == cs[i];
    }
  }

  /** The pairs of a range and the revision beside them are two reads. */
  ghost function ReadOp(views: Views, k: nat, op: Op): (r: Told<OpResult>)
    decreases op
  {
    match op
    case RangeOp(b, opts) =>
      var out := RangeQuery(views(k), b, opts);
      Told(RangeResult(out.kvs, views(k + 1).rev, out.more), k + 2)
    case NestedOp(Some(t)) =>
      (match ReadTxn(views, k, t)
        case Broken(e) => Broken(e)
        case Told(res, next) => Told(NestedResult(res), next))
    case NestedOp(None) => Broken(EmptyNestedTxn)
    case _ => Broken(UnknownOperation)
  }

  ghost function ReadOps(views: Views, k: nat, ops: seq<Op>): (r: Told<seq<OpResult>>)
    decreases ops
  {
    if ops == [] then Told([], k)
    else match ReadOp(views, k, ops[0])
      case Broken(e) => Broken(e)
      case Told(one, next) =>
        match ReadOps(views, next, ops[1..])
        case Broken(e) => Broken(e)
        case Told(rest, last) => Told([one] + rest, last)
  }

  /** The header revision that runTxn finds in the results: the highest reported, or one observed; 0 if none. */
  function FromResults(rs: seq<OpResult>): (rev: nat) {
    if HighestReported(rs) != 0 then HighestReported(rs) else RevisionFromResponses(rs)
  }

  function HighestReported(rs: seq<OpResult>): (rev: nat) {
    if rs == [] then 0
    else
      var rest := HighestReported(rs[1..]);
      if Reported(rs[0]) > rest then Reported(rs[0]) else rest
  }

  ghost function ReadTxn(views: Views, k: nat, t: TxnInput): (r: Told<TxnResult>)
    decreases t
  {
    var (ok, from) := ReadCompares(views, k, t.compare);
    match ReadOps(views, from, if ok then t.success else t.failure)
    case Broken(e) => Broken(e)
    case Told(rs, last) =>
      if FromResults(rs) != 0 then Told(TxnResult(rs, FromResults(rs), ok), last)
      else Told(TxnResult(rs, views(last).rev, ok), last + 1)
  }

  // ---------------------------------------------------------------- one snapshot

  /** Everything the tree reads, on the way it takes, is as it is in one store: the verdict on its guards, the
      pairs of each range and the revision read beside them, and the revision of a header that needed a read. */
  ghost predicate Agrees(views: Views, k: nat, t: TxnInput, s: Store)
    decreases t
  {
    var (ok, from) := ReadCompares(views, k, t.compare);
    var ops := if ok then t.success else t.failure;
    && (ok <==> AllHold(s, t.compare))
    && OpsAgree(views, from, ops, s)
    && match ReadOps(views, from, ops)
       case Broken(_) => true
       case Told(rs, last) => FromResults(rs) == 0 ==> views(last).rev == s.rev
  }

  ghost predicate OpsAgree(views: Views, k: nat, ops: seq<Op>, s: Store)
    decreases ops
  {
    ops == [] ||
    (OpAgrees(views, k, ops[0], s) &&
     match ReadOp(views, k, ops[0])
     case Broken(_) => true
     case Told(_, next) => OpsAgree(views, next, ops[1..], s))
  }

  ghost predicate OpAgrees(views: Views, k: nat, op: Op, s: Store)
    decreases op
  {
    match op
    case RangeOp(b, opts) => RangeQuery(views(k), b, opts) == RangeQuery(s, b, opts) && views(k + 1).rev == s.rev
    case NestedOp(Some(t)) => Agrees(views, k, t, s)
    case _ => true
  }

  /** What a run answers as the store s would. */
  ghost predicate SameTxn(r: Told<TxnResult>, run: Run<TxnResult>) {
    match r
    case Broken(e) => run == Fail(e)
    case Told(res, _) => run.Done? && run.result == res
  }

  ghost predicate SameOps(r: Told<seq<OpResult>>, run: Run<seq<OpResult>>) {
    match r
    case Broken(e) => run == Fail(e)
    case Told(rs, _) => run.Done? && run.result == rs
  }

  ghost predicate SameOp(r: Told<OpResult>, run: Run<OpResult>) {
    match r
    case Broken(e) => run == Fail(e)
    case Told(one, _) => run.Done? && run.result == one
  }

  /** Results that all speak of one revision give the header none but that. */
  ghost predicate OneRevision(rs: seq<OpResult>, rev: nat) {
    forall i :: 0 <= i < |rs| ==> ObservedRevision(rs[i]) == rev && Reported(rs[i]) in {0, rev}
  }

  lemma {:induction false} HeaderOfOne(rs: seq<OpResult>, rev: nat)
    requires OneRevision(rs, rev)
    ensures HighestReported(rs) in {0, rev} && FromResults(rs) in {0, rev}
  {
    if rs != [] {
      HeaderOfOne(rs[1..], rev);
    }
  }

  lemma {:induction false} ReadsOneRevision(schema: Schema, s: Store, ops: seq<Op>)
    requires !OpsWrite(ops) && ExecOps(schema, s, ops).Done?
    ensures OneRevision(ExecOps(schema, s, ops).result, s.rev)
    decreases ops
  {
    if ops != [] {
      ReadOnlyOp(schema, s, ops[0]);
      ReadsOneRevision(schema, s, ops[1..]);
      if ops[0].NestedOp? {
        ReadOnlyTxn(schema, s, ops[0].txn.value);
      }
    }
  }

  /** A read-only tree that runs to its end answers as one store does exactly when all it reads is as it is
      there. */
  lemma {:induction false} SnapshotExact(schema: Schema, views: Views, k: nat, t: TxnInput, s: Store)
    requires !HasWrites(t) && ReadTxn(views, k, t).Told?
    ensures SameTxn(ReadTxn(views, k, t), ExecTxn(schema, s, t)) <==> Agrees(views, k, t, s)
    decreases t
  {
    var (ok, from) := ReadCompares(views, k, t.compare);
    var ops := if ok then t.success else t.failure;
    OpsExact(schema, views, from, ops, s);
    ReadOnlyOps(schema, s, ops);
    if ExecOps(schema, s, ops).Done? {
      ReadsOneRevision(schema, s, ops);
      HeaderOfOne(ExecOps(schema, s, ops).result, s.rev);
    }
  }

  lemma {:induction false} OpsExact(schema: Schema, views: Views, k: nat, ops: seq<Op>, s: Store)
    requires !OpsWrite(ops) && ReadOps(views, k, ops).Told?
    ensures SameOps(ReadOps(views, k, ops), ExecOps(schema, s, ops)) <==> OpsAgree(views, k, ops, s)
    decreases ops
  {
    if ops != [] {
      var one := ReadOp(views, k, ops[0]);
      OpExact(schema, views, k, ops[0], s);
      OpsExact(schema, views, one.next, ops[1..], s);
      ReadOnlyOp(schema, s, ops[0]);
      var rest := ReadOps(views, one.next, ops[1..]);
      if ExecOps(schema, s, ops).Done? {
        var there := ExecOps(schema, s, ops).result;
        assert there[1..] == ExecOps(schema, s, ops[1..]).result && ([one.result] + rest.result)[1..] == rest.result;
      }
    }
  }

  lemma {:induction false} OpExact(schema: Schema, views: Views, k: nat, op: Op, s: Store)
    requires !OpWrites(op) && ReadOp(views, k, op).Told?
    ensures SameOp(ReadOp(views, k, op), ExecOp(schema, s, op)) <==> OpAgrees(views, k, op, s)
    decreases op
  {
    match op
    case RangeOp(_, _) =>
    case NestedOp(Some(t)) => SnapshotExact(schema, views, k, t, s);
    case _ =>
  }

  // ---------------------------------------------------------------- the revision in the header

  lemma {:induction false} HighestExact(rs: seq<OpResult>)
    ensures forall i :: 0 <= i < |rs| ==> Reported(rs[i]) <= HighestReported(rs)
    ensures HighestReported(rs) == 0 || exists i :: 0 <= i < |rs| && Reported(rs[i]) == HighestReported(rs)
  {
    if rs != [] {
      HighestExact(rs[1..]);
      assert forall i :: 0 < i < |rs| ==> rs[i] == rs[1..][i - 1];
      if Reported(rs[0]) < HighestReported(rs) {
        var i :| 0 <= i < |rs[1..]| && Reported(rs[1..][i]) == HighestReported(rs);
        assert Reported(rs[i + 1]) == HighestReported(rs);
      } else {
        assert Reported(rs[0]) == HighestReported(rs) || HighestReported(rs) == 0;
      }
    }
  }

  /** It was the store's at one of the reads from k on. */
  ghost predicate WasCurrent(views: Views, k: nat, last: nat, rev: nat) {
    exists i :: k <= i < last && views(i).rev == rev
  }

  /** The revision in the header of a read-only tree is the store's at one of the reads it made, at every depth. */
  lemma {:induction false} HeaderWasCurrent(views: Views, k: nat, t: TxnInput)
    requires ReadTxn(views, k, t).Told?
    ensures WasCurrent(views, k, ReadTxn(views, k, t).next, ReadTxn(views, k, t).result.rev)
    decreases t
  {
    var (ok, from) := ReadCompares(views, k, t.compare);
    var ops := if ok then t.success else t.failure;
    var rs, last := ReadOps(views, from, ops).result, ReadOps(views, from, ops).next;
    ReadsGoOn(views, from, ops);
    SeenWereCurrent(views, from, ops);
    HighestExact(rs);
    if FromResults(rs) == 0 {
      assert k <= last < last + 1 && views(last).rev == ReadTxn(views, k, t).result.rev;
    } else {
      var i :| 0 <= i < |rs| && ObservedRevision(rs[i]) == FromResults(rs);
      assert WasCurrent(views, from, last, FromResults(rs));
    }
  }

  /** And it is no older than that of any transaction nested in it. */
  lemma HeaderIsNoOlder(views: Views, k: nat, t: TxnInput, i: nat)
    requires ReadTxn(views, k, t).Told?
    requires var rs := ReadTxn(views, k, t).result.responses; i < |rs| && rs[i].NestedResult?
    ensures var res := ReadTxn(views, k, t).result; res.responses[i].res.rev <= res.rev
  {
    HighestExact(ReadTxn(views, k, t).result.responses);
  }

  lemma {:induction false} SeenWereCurrent(views: Views, k: nat, ops: seq<Op>)
    requires ReadOps(views, k, ops).Told?
    ensures var r := ReadOps(views, k, ops);
            forall i :: 0 <= i < |r.result| ==>
              && Reported(r.result[i]) in {0, ObservedRevision(r.result[i])}
              && WasCurrent(views, k, r.next, ObservedRevision(r.result[i]))
    decreases ops
  {
    if ops != [] {
      var one := ReadOp(views, k, ops[0]);
      SeenWasCurrent(views, k, ops[0]);
      ReadGoesOn(views, k, ops[0]);
      ReadsGoOn(views, one.next, ops[1..]);
      SeenWereCurrent(views, one.next, ops[1..]);
    }
  }

  lemma {:induction false} SeenWasCurrent(views: Views, k: nat, op: Op)
    requires ReadOp(views, k, op).Told?
    ensures var r := ReadOp(views, k, op);
            && Reported(r.result) in {0, ObservedRevision(r.result)}
            && WasCurrent(views, k, r.next, ObservedRevision(r.result))
    decreases op
  {
    match op
    case RangeOp(_, _) => assert views(k + 1).rev == ReadOp(views, k, op).result.rev;
    case NestedOp(Some(t)) => HeaderWasCurrent(views, k, t);
    case _ =>
  }

  // ---------------------------------------------------------------- when nothing moves

  /** The reads from k on, up to the last one made, meet this store. */
  ghost predicate Still(views: Views, k: nat, last: nat, s: Store) {
    forall i :: k <= i < last ==> views(i) == s
  }

  lemma {:induction false} ReadsGoOn(views: Views, k: nat, ops: seq<Op>)
    ensures ReadOps(views, k, ops).Told? ==> k <= ReadOps(views, k, ops).next
    decreases ops
  {
    if ops != [] && ReadOp(views, k, ops[0]).Told? {
      ReadGoesOn(views, k, ops[0]);
      ReadsGoOn(views, ReadOp(views, k, ops[0]).next, ops[1..]);
    }
  }

  lemma {:induction false} ReadGoesOn(views: Views, k: nat, op: Op)
    ensures ReadOp(views, k, op).Told? ==> k <= ReadOp(views, k, op).next
    decreases op
  {
    if op.NestedOp? && op.txn.Some? {
      TxnGoesOn(views, k, op.txn.value);
    }
  }

  lemma {:induction false} TxnGoesOn(views: Views, k: nat, t: TxnInput)
    ensures ReadTxn(views, k, t).Told? ==> k <= ReadTxn(views, k, t).next
    decreases t
  {
    var (ok, from) := ReadCompares(views, k, t.compare);
    ReadsGoOn(views, from, if ok then t.success else t.failure);
  }

  lemma {:induction false} StillCompares(views: Views, k: nat, cs: seq<Compare>, s: Store)
    requires Still(views, k, ReadCompares(views, k, cs).1, s)
    ensures ReadCompares(views, k, cs).0 <==> AllHold(s, cs)
    decreases cs
  {
    if cs != [] {
      if Holds(views(k), cs[0]) {
        StillCompares(views, k + 1, cs[1..], s);
        assert forall i :: 0 < i < |cs| ==> cs[i] == cs[1..][i - 1];
      }
    }
  }

  /** A tree that meets one store throughout agrees with it. */
  lemma {:induction false} StillAgrees(views: Views, k: nat, t: TxnInput, s: Store)
    requires ReadTxn(views, k, t).Told? && Still(views, k, ReadTxn(views, k, t).next, s)
    ensures Agrees(views, k, t, s)
    decreases t
  {
    var (ok, from) := ReadCompares(views, k, t.compare);
    var ops := if ok then t.success else t.failure;
    ReadsGoOn(views, from, ops);
    StillCompares(views, k, t.compare, s);
    StillOpsAgree(views, from, ops, s);
  }

  lemma {:induction false} StillOpsAgree(views: Views, k: nat, ops: seq<Op>, s: Store)
    requires ReadOps(views, k, ops).Told? && Still(views, k, ReadOps(views, k, ops).next, s)
    ensures OpsAgree(views, k, ops, s)
    decreases ops
  {
    if ops != [] {
      var one := ReadOp(views, k, ops[0]);
      ReadGoesOn(views, k, ops[0]);
      ReadsGoOn(views, one.next, ops[1..]);
      StillOpAgrees(views, k, ops[0], s);
      StillOpsAgree(views, one.next, ops[1..], s);
    }
  }

  lemma {:induction false} StillOpAgrees(views: Views, k: nat, op: Op, s: Store)
    requires ReadOp(views, k, op).Told? && Still(views, k, ReadOp(views, k, op).next, s)
    ensures OpAgrees(views, k, op, s)
    decreases op
  {
    if op.NestedOp? && op.txn.Some? {
      StillAgrees(views, k, op.txn.value, s);
    }
  }

  lemma NothingCommitted(schema: Schema, s0: Store, ss: seq<Sys>, a: nat, b: nat, c: nat)
    requires IsRun(schema, s0, ss) && a <= b <= c < |ss| && ss[a].history == ss[c].history
    ensures ss[b].committed == ss[a].committed
  {
    RunGrows(schema, s0, ss, a, b);
    RunGrows(schema, s0, ss, b, c);
    assert ss[b].history == ss[a].history;
    Serializable(schema, s0, ss, a);
    Serializable(schema, s0, ss, b);
  }

  /** The reads of a tree fall at ascending moments of a run. */
  ghost predicate Meets(views: Views, ss: seq<Sys>, at: nat -> nat) {
    && (forall i, j :: i <= j ==> at(i) <= at(j) < |ss|)
    && (forall i :: views(i) == ss[at(i)].committed)
  }

  lemma StillInRun(schema: Schema, s0: Store, ss: seq<Sys>, at: nat -> nat, views: Views, last: nat)
    requires IsRun(schema, s0, ss) && Meets(views, ss, at)
    requires last > 0 ==> ss[at(0)].history == ss[at(last - 1)].history
    ensures Still(views, 0, last, ss[at(0)].committed)
  {
    forall i | 0 <= i < last ensures views(i) == ss[at(0)].committed {
      NothingCommitted(schema, s0, ss, at(0), at(i), at(last - 1));
    }
  }

  /** In any run of writers, a read-only tree with no commit between its first read and its last is one snapshot:
      it answers as the store of those moments. */
  lemma UncommittedIsSnapshot(schema: Schema, s0: Store, ss: seq<Sys>, at: nat -> nat, views: Views, t: TxnInput)
    requires IsRun(schema, s0, ss) && Meets(views, ss, at) && !HasWrites(t) && ReadTxn(views, 0, t).Told?
    requires var last := ReadTxn(views, 0, t).next; last > 0 ==> ss[at(0)].history == ss[at(last - 1)].history
    ensures SameTxn(ReadTxn(views, 0, t), ExecTxn(schema, ss[at(0)].committed, t))
  {
    StillInRun(schema, s0, ss, at, views, ReadTxn(views, 0, t).next);
    StillAgrees(views, 0, t, ss[at(0)].committed);
    SnapshotExact(schema, views, 0, t, ss[at(0)].committed);
  }

  // ---------------------------------------------------------------- when something does

  /** Ask that a key be absent, then read it. */
  function AbsentThenRead(n: Name): (t: TxnInput) {
    TxnInput([AbsentGuard(n)], [RangeOp(Bounds(n, Name([], [])), NO_OPTS)], [])
  }

  lemma TornAnswer(views: Views, n: Name)
    requires Valid(views(0)) && StoreKey(n) !in views(0).kvs
    ensures var t := AbsentThenRead(n);
            && !HasWrites(t) && ReadCompares(views, 0, t.compare) == (true, 1)
            && ReadTxn(views, 0, t).Told? && ReadTxn(views, 0, t).result.succeeded
  {
    var t := AbsentThenRead(n);
    AbsentGuardExact(views(0), n);
    assert t.compare[1..] == [] && t.success[1..] == [];
    assert !OpWrites(t.success[0]) && !OpsWrite(t.success[1..]) && !OpsWrite(t.failure);
    assert !OpsWrite(t.success);
    assert ReadCompares(views, 1, t.compare[1..]) == (true, 1);
    assert ReadOp(views, 1, t.success[0]).Told? && ReadOp(views, 1, t.success[0]).next == 3;
    assert ReadOps(views, 3, t.success[1..]) == Told([], 3);
    assert ReadOps(views, 1, t.success).Told?;
  }

  /** If the key is written between the two reads it is absent and there: an answer that no store gives. */
  lemma TornRead(schema: Schema, views: Views, n: Name)
    requires Valid(views(0)) && StoreKey(n) !in views(0).kvs && StoreKey(n) in views(1).kvs
    ensures var r := ReadTxn(views, 0, AbsentThenRead(n));
            r.Told? && forall x :: Valid(x) ==> !SameTxn(r, ExecTxn(schema, x, AbsentThenRead(n)))
  {
    var t := AbsentThenRead(n);
    TornAnswer(views, n);
    OneKeyRead(views(1), n);
    forall x | Valid(x) ensures !SameTxn(ReadTxn(views, 0, t), ExecTxn(schema, x, t)) {
      SnapshotExact(schema, views, 0, t, x);
      AbsentGuardExact(x, n);
      OneKeyRead(x, n);
      assert AllHold(x, t.compare) <==> Holds(x, t.compare[0]);
      assert OpsAgree(views, 1, t.success, x) ==> OpAgrees(views, 1, t.success[0], x);
    }
  }

  lemma OneKeyRead(s: Store, n: Name)
    ensures RangeQuery(s, Bounds(n, Name([], [])), NO_OPTS).kvs == [] <==> StoreKey(n) !in s.kvs
  {
    SingleKeyRange(s, n);
    var keys := RangeKeys(s, Bounds(n, Name([], [])));
    RangeExact(s, Bounds(n, Name([], [])), NO_OPTS);
    CurrentHits(s, keys, NO_OPTS);
  }
}
