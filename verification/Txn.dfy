/** Transactions as trees, and what running one means: a total function from a store to a new store,
    a response tree and the notifications it owes. No transaction handle, collector or ownership flag
    appears here; TxnService shows that the service's machinery computes exactly this. */
module Txn {
  import opened Lex
  import opened Outcome
  import opened KeyEncoding
  import opened KvStore

  datatype Op =
    | RangeOp(b: Bounds, opts: RangeOpts)
    | PutOp(name: Name, value: Bytes)
    | DeleteOp(b: Bounds, returnPrev: bool)
    | NestedOp(txn: Option<TxnInput>)
    | UnknownOp

  datatype TxnInput = TxnInput(compare: seq<Compare>, success: seq<Op>, failure: seq<Op>)

  datatype OpResult =
    | RangeResult(kvs: seq<KVPair>, rev: nat, more: bool)
    | PutResult(prev: Option<KVPair>, rev: nat)
    | DeleteResult(deleted: seq<KVPair>, rev: nat)
    | NestedResult(res: TxnResult)

  datatype TxnResult = TxnResult(responses: seq<OpResult>, rev: nat, succeeded: bool)

  /** The namespace's JSON Schema check, for a fixed set of attached schemas. */
  type Schema = (Name, Bytes) -> bool

  datatype Run<+T> =
    | Done(store: Store, result: T, events: seq<Event>)
    | Fail(error: KvError)

  // ---------------------------------------------------------------- meaning

  ghost function ExecTxn(schema: Schema, s: Store, t: TxnInput): (r: Run<TxnResult>)
    decreases t
  {
    match ExecOps(schema, s, if AllHold(s, t.compare) then t.success else t.failure)
    case Fail(e) => Fail(e)
    case Done(s', rs, ev) => Done(s', TxnResult(rs, s'.rev, AllHold(s, t.compare)), ev)
  }

  ghost function ExecOps(schema: Schema, s: Store, ops: seq<Op>): (r: Run<seq<OpResult>>)
    decreases ops
  {
    if ops == [] then Done(s, [], [])
    else match ExecOp(schema, s, ops[0])
      case Fail(e) => Fail(e)
      case Done(s1, r1, ev1) =>
        match ExecOps(schema, s1, ops[1..])
        case Fail(e) => Fail(e)
        case Done(s2, rs, ev2) => Done(s2, [r1] + rs, ev1 + ev2)
  }

  ghost function ExecOp(schema: Schema, s: Store, op: Op): (r: Run<OpResult>)
    decreases op
  {
    match op
    case RangeOp(b, opts) =>
      var out := RangeQuery(s, b, opts);
      Done(s, RangeResult(out.kvs, s.rev, out.more), [])
    case PutOp(n, value) =>
      if !schema(n, value) then Fail(SchemaRejected)
      else (match PutKey(s, n, value)
        case Err(e) => Fail(e)
        case Ok(out) => Done(out.store, PutResult(out.prev, out.rev), [PutEvent(n, value, out.prev, out.rev)]))
    case DeleteOp(b, returnPrev) =>
      (match DeleteRangeKeys(s, b, returnPrev)
        case Err(e) => Fail(e)
        case Ok(out) => Done(out.store, DeleteResult(out.deleted, out.rev), DeleteEvents(out.deleted, out.rev)))
    case NestedOp(Some(t)) =>
      (match ExecTxn(schema, s, t)
        case Fail(e) => Fail(e)
        case Done(s', res, ev) => Done(s', NestedResult(res), ev))
    case NestedOp(None) => Fail(EmptyNestedTxn)
    case UnknownOp => Fail(UnknownOperation)
  }

  // ---------------------------------------------------------------- the read-only decision

  predicate HasWrites(t: TxnInput)
    decreases t
  {
    OpsWrite(t.success) || OpsWrite(t.failure)
  }

  predicate OpsWrite(ops: seq<Op>)
    decreases ops
  {
    ops != [] && (OpWrites(ops[0]) || OpsWrite(ops[1..]))
  }

  predicate OpWrites(op: Op)
    decreases op
  {
    match op
    case PutOp(_, _) => true
    case DeleteOp(_, _) => true
    case NestedOp(Some(t)) => HasWrites(t)
    case _ => false
  }

  /** hasWrites is sound at every depth: when it says no, neither branch, on any store and so whichever
      way any compare goes, changes the store or owes a notification. */
  lemma {:induction false} ReadOnlyTxn(schema: Schema, s: Store, t: TxnInput)
    requires !HasWrites(t)
    ensures var r := ExecTxn(schema, s, t); r.Done? ==> r.store == s && r.events == []
    ensures var r := ExecOps(schema, s, t.success); r.Done? ==> r.store == s && r.events == []
    ensures var r := ExecOps(schema, s, t.failure); r.Done? ==> r.store == s && r.events == []
    decreases t
  {
    ReadOnlyOps(schema, s, t.success);
    ReadOnlyOps(schema, s, t.failure);
  }

  lemma {:induction false} ReadOnlyOps(schema: Schema, s: Store, ops: seq<Op>)
    requires !OpsWrite(ops)
    ensures var r := ExecOps(schema, s, ops); r.Done? ==> r.store == s && r.events == []
    decreases ops
  {
    if ops != [] {
      ReadOnlyOp(schema, s, ops[0]);
      ReadOnlyOps(schema, s, ops[1..]);
    }
  }

  lemma {:induction false} ReadOnlyOp(schema: Schema, s: Store, op: Op)
    requires !OpWrites(op)
    ensures var r := ExecOp(schema, s, op); r.Done? ==> r.store == s && r.events == []
    decreases op
  {
    if op.NestedOp? && op.txn.Some? {
      ReadOnlyTxn(schema, s, op.txn.value);
    }
  }

  // ---------------------------------------------------------------- responses and notifications

  /** A response tree has the shape of the branches it reports. */
  predicate ShapeTxn(t: TxnInput, res: TxnResult)
    decreases t
  {
    ShapeOps(if res.succeeded then t.success else t.failure, res.responses)
  }

  predicate ShapeOps(ops: seq<Op>, rs: seq<OpResult>)
    decreases ops
  {
    |ops| == |rs| && (ops == [] || (ShapeOp(ops[0], rs[0]) && ShapeOps(ops[1..], rs[1..])))
  }

  predicate ShapeOp(op: Op, r: OpResult)
    decreases op
  {
    match op
    case RangeOp(_, _) => r.RangeResult?
    case PutOp(_, _) => r.PutResult?
    case DeleteOp(_, _) => r.DeleteResult?
    case NestedOp(Some(t)) => r.NestedResult? && ShapeTxn(t, r.res)
    case _ => false
  }

  /** The notifications a client would expect from the response tree alone: one per put, one per
      deleted key, in program order. */
  function AnnouncedTxn(t: TxnInput, res: TxnResult): (ev: seq<Event>)
    requires ShapeTxn(t, res)
    decreases t
  {
    AnnouncedOps(if res.succeeded then t.success else t.failure, res.responses)
  }

  function AnnouncedOps(ops: seq<Op>, rs: seq<OpResult>): (ev: seq<Event>)
    requires ShapeOps(ops, rs)
    decreases ops
  {
    if ops == [] then [] else AnnouncedOp(ops[0], rs[0]) + AnnouncedOps(ops[1..], rs[1..])
  }

  function AnnouncedOp(op: Op, r: OpResult): (ev: seq<Event>)
    requires ShapeOp(op, r)
    decreases op
  {
    match op
    case RangeOp(_, _) => []
    case PutOp(n, value) => [PutEvent(n, value, r.prev, r.rev)]
    case DeleteOp(_, _) => DeleteEvents(r.deleted, r.rev)
    case NestedOp(Some(t)) => AnnouncedTxn(t, r.res)
  }

  /** Main account of a transaction that runs to its end: the response tree mirrors the executed
      branches, the notifications are exactly those the responses call for, and they account for the
      whole change of the store. */
  lemma {:induction false} TxnSound(schema: Schema, s: Store, t: TxnInput)
    requires Valid(s) && ExecTxn(schema, s, t).Done?
    ensures var r := ExecTxn(schema, s, t);
            && ShapeTxn(t, r.result)
            && r.events == AnnouncedTxn(t, r.result)
            && Accounts(s, r.events, r.store)
            && r.result.rev == r.store.rev
    decreases t
  {
    OpsSound(schema, s, if AllHold(s, t.compare) then t.success else t.failure);
  }

  lemma {:induction false} OpsSound(schema: Schema, s: Store, ops: seq<Op>)
    requires Valid(s) && ExecOps(schema, s, ops).Done?
    ensures var r := ExecOps(schema, s, ops);
            && ShapeOps(ops, r.result)
            && r.events == AnnouncedOps(ops, r.result)
            && Accounts(s, r.events, r.store)
    decreases ops
  {
    if ops == [] {
      NothingHappened(s);
    } else {
      OpSound(schema, s, ops[0]);
      var one := ExecOp(schema, s, ops[0]);
      OpsSound(schema, one.store, ops[1..]);
      var rest := ExecOps(schema, one.store, ops[1..]);
      AccountsCompose(s, one.events, one.store, rest.events, rest.store);
      assert ([one.result] + rest.result)[1..] == rest.result;
    }
  }

  lemma {:induction false} OpSound(schema: Schema, s: Store, op: Op)
    requires Valid(s) && ExecOp(schema, s, op).Done?
    ensures var r := ExecOp(schema, s, op);
            && ShapeOp(op, r.result)
            && r.events == AnnouncedOp(op, r.result)
            && Accounts(s, r.events, r.store)
    decreases op
  {
    match op
    case RangeOp(_, _) => NothingHappened(s);
    case PutOp(n, value) => PutAccounts(s, n, value);
    case DeleteOp(b, returnPrev) => DeleteAccounts(s, b, returnPrev);
    case NestedOp(Some(t)) => TxnSound(schema, s, t);
  }
}
