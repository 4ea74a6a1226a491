/** Laws of transactions that follow from their meaning: what each operation meets, what writes respect, and
    what can make one fail. */
module TxnLaws {
  import opened Lex
  import opened Outcome
  import opened KeyEncoding
  import opened KvStore
  import opened Txn

  // ---------------------------------------------------------------- each operation in its place

  /** The success branch runs exactly when every guard holds, on the store the transaction starts from. */
  lemma BranchTaken(schema: Schema, s: Store, t: TxnInput)
    requires ExecTxn(schema, s, t).Done?
    ensures var r := ExecTxn(schema, s, t);
            && (r.result.succeeded <==> forall i :: 0 <= i < |t.compare| ==> Holds(s, t.compare[i]))
            && ExecOps(schema, s, if r.result.succeeded then t.success else t.failure) ==
               Done(r.store, r.result.responses, r.events)
  {
  }

  /** Operation i meets the store that those before it have left, and answers as it would alone: a range reads
      it, writes change it, a nested transaction is a transaction on it. */
  lemma {:induction false} EachMeetsTheLast(schema: Schema, s: Store, ops: seq<Op>, i: nat)
    requires ExecOps(schema, s, ops).Done? && i < |ops|
    ensures var r, before := ExecOps(schema, s, ops), ExecOps(schema, s, ops[..i]);
            && before.Done? && |r.result| == |ops|
            && match ops[i]
               case RangeOp(b, opts) =>
                 var out := RangeQuery(before.store, b, opts);
                 r.result[i] == RangeResult(out.kvs, before.store.rev, out.more)
               case PutOp(n, value) =>
                 var out := PutKey(before.store, n, value);
                 out.Ok? && r.result[i] == PutResult(out.value.prev, out.value.rev)
               case DeleteOp(b, returnPrev) =>
                 var out := DeleteRangeKeys(before.store, b, returnPrev);
                 out.Ok? && r.result[i] == DeleteResult(out.value.deleted, out.value.rev)
               case NestedOp(Some(t)) =>
                 var out := ExecTxn(schema, before.store, t);
                 out.Done? && r.result[i] == NestedResult(out.result)
               case _ => false
    decreases ops
  {
    var one := ExecOp(schema, s, ops[0]);
    var rest := ExecOps(schema, one.store, ops[1..]);
    if i == 0 {
      assert ops[..0] == [];
      LengthsAgree(schema, one.store, ops[1..]);
    } else {
      EachMeetsTheLast(schema, one.store, ops[1..], i - 1);
      assert ops[..i][0] == ops[0] && ops[..i][1..] == ops[1..][..i - 1];
    }
  }

  lemma {:induction false} LengthsAgree(schema: Schema, s: Store, ops: seq<Op>)
    requires ExecOps(schema, s, ops).Done?
    ensures |ExecOps(schema, s, ops).result| == |ops|
    decreases ops
  {
    if ops != [] {
      LengthsAgree(schema, ExecOp(schema, s, ops[0]).store, ops[1..]);
    }
  }

  // ---------------------------------------------------------------- what writes respect

  /** Locked keys are as they were. */
  ghost predicate LocksKept(s: Store, s': Store) {
    && s'.lockedNs == s.lockedNs
    && forall k :: k in s.kvs && s.kvs[k].locked ==> k in s'.kvs && s'.kvs[k] == s.kvs[k]
  }

  /** Nothing is announced as written that the schema refuses or that lies in a locked namespace. */
  ghost predicate Proper(schema: Schema, locked: set<Bytes>, ev: seq<Event>) {
    forall i :: 0 <= i < |ev| && ev[i].kind != Deleted ==>
      schema(ev[i].name, ev[i].value) && ev[i].name.ns !in locked
  }

  /** A transaction that runs to its end, whatever its tree, has written only what the schemas and the locked
      namespaces allow, and every locked key is as it was. */
  lemma {:induction false} TxnRespects(schema: Schema, s: Store, t: TxnInput)
    requires ExecTxn(schema, s, t).Done?
    ensures LocksKept(s, ExecTxn(schema, s, t).store)
    ensures Proper(schema, s.lockedNs, ExecTxn(schema, s, t).events)
    decreases t
  {
    OpsRespect(schema, s, if AllHold(s, t.compare) then t.success else t.failure);
  }

  lemma {:induction false} OpsRespect(schema: Schema, s: Store, ops: seq<Op>)
    requires ExecOps(schema, s, ops).Done?
    ensures LocksKept(s, ExecOps(schema, s, ops).store)
    ensures Proper(schema, s.lockedNs, ExecOps(schema, s, ops).events)
    decreases ops
  {
    if ops != [] {
      var one := ExecOp(schema, s, ops[0]);
      OpRespects(schema, s, ops[0]);
      OpsRespect(schema, one.store, ops[1..]);
    }
  }

  lemma {:induction false} OpRespects(schema: Schema, s: Store, op: Op)
    requires ExecOp(schema, s, op).Done?
    ensures LocksKept(s, ExecOp(schema, s, op).store)
    ensures Proper(schema, s.lockedNs, ExecOp(schema, s, op).events)
    decreases op
  {
    match op
    case RangeOp(_, _) =>
    case PutOp(n, value) => PutRefused(s, n, value);
    case DeleteOp(b, returnPrev) => DeleteRefused(s, b, returnPrev);
    case NestedOp(Some(t)) => TxnRespects(schema, s, t);
  }

  // ---------------------------------------------------------------- what can make one fail

  /** The operations of a tree, in both branches and at every depth. */
  function AllOps(t: TxnInput): (all: seq<Op>)
    decreases t
  {
    Unfolded(t.success) + Unfolded(t.failure)
  }

  function Unfolded(ops: seq<Op>): (all: seq<Op>)
    decreases ops
  {
    if ops == [] then [] else [ops[0]] + Inside(ops[0]) + Unfolded(ops[1..])
  }

  function Inside(op: Op): (all: seq<Op>)
    decreases op
  {
    match op
    case NestedOp(Some(t)) => AllOps(t)
    case _ => []
  }

  /** Nothing is locked. */
  ghost predicate Unlocked(s: Store) {
    s.lockedNs == {} && forall k :: k in s.kvs ==> !s.kvs[k].locked
  }

  predicate Sane(schema: Schema, op: Op) {
    match op
    case PutOp(n, value) => schema(n, value)
    case NestedOp(t) => t.Some?
    case UnknownOp => false
    case _ => true
  }

  /** Where nothing is locked, a tree whose puts the schemas accept and whose operations are all known runs to its
      end: nothing else can fail. */
  lemma {:induction false} NothingElseFails(schema: Schema, s: Store, t: TxnInput)
    requires Unlocked(s) && forall op :: op in AllOps(t) ==> Sane(schema, op)
    ensures ExecTxn(schema, s, t).Done? && Unlocked(ExecTxn(schema, s, t).store)
    decreases t
  {
    OpsDoNotFail(schema, s, if AllHold(s, t.compare) then t.success else t.failure);
  }

  lemma {:induction false} OpsDoNotFail(schema: Schema, s: Store, ops: seq<Op>)
    requires Unlocked(s) && forall op :: op in Unfolded(ops) ==> Sane(schema, op)
    ensures ExecOps(schema, s, ops).Done? && Unlocked(ExecOps(schema, s, ops).store)
    decreases ops
  {
    if ops != [] {
      assert forall op :: op in Unfolded(ops[1..]) ==> op in Unfolded(ops);
      OpDoesNotFail(schema, s, ops[0]);
      OpsDoNotFail(schema, ExecOp(schema, s, ops[0]).store, ops[1..]);
    }
  }

  lemma {:induction false} OpDoesNotFail(schema: Schema, s: Store, op: Op)
    requires Unlocked(s) && Sane(schema, op) && forall x :: x in Inside(op) ==> Sane(schema, x)
    ensures ExecOp(schema, s, op).Done? && Unlocked(ExecOp(schema, s, op).store)
    decreases op
  {
    match op
    case RangeOp(_, _) =>
    case PutOp(n, value) => PutRefused(s, n, value);
    case DeleteOp(b, returnPrev) => DeleteRefused(s, b, returnPrev);
    case NestedOp(Some(t)) => NothingElseFails(schema, s, t);
  }

  /** hasWrites says yes exactly when some branch, at some depth, puts or deletes. */
  lemma {:induction false} HasWritesExact(t: TxnInput)
    ensures HasWrites(t) <==> exists op :: op in AllOps(t) && (op.PutOp? || op.DeleteOp?)
    decreases t
  {
    OpsWriteExact(t.success);
    OpsWriteExact(t.failure);
    assert forall op :: op in AllOps(t) <==> op in Unfolded(t.success) || op in Unfolded(t.failure);
  }

  lemma {:induction false} OpsWriteExact(ops: seq<Op>)
    ensures OpsWrite(ops) <==> exists op :: op in Unfolded(ops) && (op.PutOp? || op.DeleteOp?)
    decreases ops
  {
    if ops != [] {
      OpWritesExact(ops[0]);
      OpsWriteExact(ops[1..]);
      assert forall op :: op in Unfolded(ops) <==> op == ops[0] || op in Inside(ops[0]) || op in Unfolded(ops[1..]);
    }
  }

  lemma {:induction false} OpWritesExact(op: Op)
    ensures OpWrites(op) <==> op.PutOp? || op.DeleteOp? || exists x :: x in Inside(op) && (x.PutOp? || x.DeleteOp?)
    decreases op
  {
    if op.NestedOp? && op.txn.Some? {
      HasWritesExact(op.txn.value);
    }
  }
}
