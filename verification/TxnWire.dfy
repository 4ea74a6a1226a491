/** The wire form of transactions loses nothing: every tree a client can name survives conversion, and
    from the response to a request that asks for everything the result can be read back. */
module TxnWire {
  import opened Lex
  import opened Outcome
  import opened KeyEncoding
  import opened KvStore
  import opened Txn
  import opened TxnHandler

  // ---------------------------------------------------------------- requests

  predicate SayableCompare(c: Compare) {
    && SayableRange(c.b)
    && (c.target in {TargetValue, TargetUnknown} ==> c.wantRev == 0)
    && (c.target != TargetValue ==> c.wantValue == [])
  }

  predicate SayableTxn(t: TxnInput)
    decreases t
  {
    (forall i :: 0 <= i < |t.compare| ==> SayableCompare(t.compare[i])) && SayableOps(t.success) &&
    SayableOps(t.failure)
  }

  predicate SayableOps(ops: seq<Op>)
    decreases ops
  {
    ops == [] || (SayableOp(ops[0]) && SayableOps(ops[1..]))
  }

  predicate SayableOp(op: Op)
    decreases op
  {
    match op
    case RangeOp(b, _) => SayableRange(b)
    case PutOp(n, _) => Sayable(n)
    case DeleteOp(b, _) => SayableRange(b)
    case NestedOp(Some(t)) => SayableTxn(t)
    case _ => false
  }

  function SayCompare(c: Compare): (r: CompareRequest) {
    CompareRequest(JoinKey(c.b.start), JoinEnd(c.b), c.target, c.relation,
                   if c.target == TargetVersion then c.wantRev else 0,
                   if c.target == TargetCreateRevision then c.wantRev else 0,
                   if c.target == TargetModRevision then c.wantRev else 0,
                   c.wantValue)
  }

  function SayCompares(cs: seq<Compare>): (rs: seq<CompareRequest>) {
    if cs == [] then [] else [SayCompare(cs[0])] + SayCompares(cs[1..])
  }

  /** The request a client library builds for a transaction, previous values asked for. */
  function SayTxn(t: TxnInput): (r: TxnRequest)
    requires SayableTxn(t)
    decreases t
  {
    TxnRequest(SayCompares(t.compare), SayOps(t.success), SayOps(t.failure))
  }

  function SayOps(ops: seq<Op>): (rs: seq<RequestOp>)
    requires SayableOps(ops)
    decreases ops
  {
    if ops == [] then [] else [SayOp(ops[0])] + SayOps(ops[1..])
  }

  function SayOp(op: Op): (r: RequestOp)
    requires SayableOp(op)
    decreases op
  {
    match op
    case RangeOp(b, opts) => RangeRequest(JoinKey(b.start), JoinEnd(b), opts, false)
    case PutOp(n, value) => PutRequest(JoinKey(n), value, false, true)
    case DeleteOp(b, returnPrev) => DeleteRequest(JoinKey(b.start), JoinEnd(b), returnPrev)
    case NestedOp(Some(t)) => NestedRequest(SayTxn(t))
  }

  /** Conversion gives back exactly the tree the client meant, at every depth. */
  lemma {:induction false} ConvertInverts(t: TxnInput)
    requires SayableTxn(t)
    ensures ConvertTxn(SayTxn(t)) == Ok(t)
    decreases t
  {
    ConvertComparesInverts(t.compare);
    ConvertOpsInverts(t.success);
    ConvertOpsInverts(t.failure);
  }

  lemma {:induction false} ConvertComparesInverts(cs: seq<Compare>)
    requires forall i :: 0 <= i < |cs| ==> SayableCompare(cs[i])
    ensures ConvertCompares(SayCompares(cs)) == Ok(cs)
  {
    if cs != [] {
      SplitRangeInverts(cs[0].b);
      ConvertComparesInverts(cs[1..]);
      assert cs == [cs[0]] + cs[1..];
    }
  }

  lemma {:induction false} ConvertOpsInverts(ops: seq<Op>)
    requires SayableOps(ops)
    ensures ConvertOps(SayOps(ops)) == Ok(ops)
    decreases ops
  {
    if ops != [] {
      ConvertOpInverts(ops[0]);
      ConvertOpsInverts(ops[1..]);
      assert ops == [ops[0]] + ops[1..];
    }
  }

  lemma {:induction false} ConvertOpInverts(op: Op)
    requires SayableOp(op)
    ensures ConvertOp(SayOp(op)) == Ok(op)
    decreases op
  {
    match op
    case RangeOp(b, _) => SplitRangeInverts(b);
    case PutOp(n, _) => SplitAfterJoin(n);
    case DeleteOp(b, _) => SplitRangeInverts(b);
    case NestedOp(Some(t)) => ConvertInverts(t);
  }

  /** A key that decodes. */
  predicate Named(key: Bytes) {
    |key| >= 2 && key[0] == SLASH && key[1] != SLASH
  }

  predicate RangeNamed(key: Bytes, rangeEnd: Bytes) {
    Named(key) && (rangeEnd == [] || rangeEnd == [NUL] || Named(rangeEnd))
  }

  predicate WellFormed(req: TxnRequest)
    decreases req
  {
    && (forall i :: 0 <= i < |req.compare| ==> RangeNamed(req.compare[i].key, req.compare[i].rangeEnd))
    && OpsWellFormed(req.success) && OpsWellFormed(req.failure)
  }

  predicate OpsWellFormed(ops: seq<RequestOp>)
    decreases ops
  {
    ops == [] || (OpWellFormed(ops[0]) && OpsWellFormed(ops[1..]))
  }

  predicate OpWellFormed(op: RequestOp)
    decreases op
  {
    match op
    case RangeRequest(key, rangeEnd, _, _) => RangeNamed(key, rangeEnd)
    case PutRequest(key, _, ignoreValue, _) => Named(key) && !ignoreValue
    case DeleteRequest(key, rangeEnd, _) => RangeNamed(key, rangeEnd)
    case NestedRequest(txn) => WellFormed(txn)
    case UnknownRequest => false
  }

  lemma RangeNamedDecodes(key: Bytes, rangeEnd: Bytes)
    ensures SplitRange(key, rangeEnd).Some? <==> RangeNamed(key, rangeEnd)
  {
    SplitKeyDomain(key);
    SplitKeyDomain(rangeEnd);
  }

  /** A request converts exactly when all its keys decode, at every depth, it knows its operations and no put asks
      to keep the old value. */
  lemma {:induction false} ConvertDomain(req: TxnRequest)
    ensures ConvertTxn(req).Ok? <==> WellFormed(req)
    decreases req
  {
    ConvertComparesDomain(req.compare);
    ConvertOpsDomain(req.success);
    ConvertOpsDomain(req.failure);
  }

  lemma {:induction false} ConvertComparesDomain(cs: seq<CompareRequest>)
    ensures ConvertCompares(cs).Ok? <==> forall i :: 0 <= i < |cs| ==> RangeNamed(cs[i].key, cs[i].rangeEnd)
  {
    if cs != [] {
      RangeNamedDecodes(cs[0].key, cs[0].rangeEnd);
      ConvertComparesDomain(cs[1..]);
      assert forall i :: 0 < i < |cs| ==> cs[i] == cs[1..][i - 1];
    }
  }

  lemma {:induction false} ConvertOpsDomain(ops: seq<RequestOp>)
    ensures ConvertOps(ops).Ok? <==> OpsWellFormed(ops)
    decreases ops
  {
    if ops != [] {
      ConvertOpDomain(ops[0]);
      ConvertOpsDomain(ops[1..]);
    }
  }

  lemma {:induction false} ConvertOpDomain(op: RequestOp)
    ensures ConvertOp(op).Ok? <==> OpWellFormed(op)
    ensures ConvertOp(op) == Err(Unimplemented) && !op.NestedRequest? <==>
            op.PutRequest? && Named(op.key) && op.ignoreValue
    decreases op
  {
    match op
    case RangeRequest(key, rangeEnd, _, _) => RangeNamedDecodes(key, rangeEnd);
    case PutRequest(key, _, _, _) => SplitKeyDomain(key);
    case DeleteRequest(key, rangeEnd, _) => RangeNamedDecodes(key, rangeEnd);
    case NestedRequest(txn) => ConvertDomain(txn);
    case UnknownRequest =>
  }

  // ---------------------------------------------------------------- responses

  /** What a request keeps from a result: the pairs of a count-only range, and previous values not asked for. */
  function Withheld(op: RequestOp, r: OpResult): (kvs: seq<KVPair>) {
    match (op, r)
    case (RangeRequest(_, _, _, countOnly), RangeResult(kvs, _, _)) => if countOnly then kvs else []
    case (PutRequest(_, _, _, prevKv), PutResult(Some(prev), _)) => if prevKv then [] else [prev]
    case (DeleteRequest(_, _, prevKv), DeleteResult(deleted, _)) => if prevKv then [] else deleted
    case _ => []
  }

  /** The pairs a response carries, and how many it says there are. */
  function Carried(out: ResponseOp): (kvs: seq<KVPair>) {
    match out
    case RangeResponse(_, kvs, _, _) => kvs
    case PutResponse(_, prev) => if prev.Some? then [prev.value] else []
    case DeleteResponse(_, _, prevKvs) => prevKvs
    case NestedResponse(_) => []
  }

  function PairsOf(r: OpResult): (kvs: seq<KVPair>) {
    match r
    case RangeResult(kvs, _, _) => kvs
    case PutResult(prev, _) => if prev.Some? then [prev.value] else []
    case DeleteResult(deleted, _) => deleted
    case NestedResult(_) => []
  }

  /** Between them nothing is lost: a response carries all the pairs of the result or none, none exactly when the
      request withholds them, and counts them either way. */
  lemma RespondExact(op: RequestOp, r: OpResult)
    requires RespondOp(op, r).Ok? && !op.NestedRequest?
    ensures var out := RespondOp(op, r).value;
            && Carried(out) + Withheld(op, r) == PairsOf(r) && (Carried(out) == [] || Withheld(op, r) == [])
            && (out.RangeResponse? ==> out.count == |PairsOf(r)| && out.rev == r.rev && out.more == r.more)
            && (out.DeleteResponse? ==> out.deleted == |PairsOf(r)| && out.rev == r.rev)
            && (out.PutResponse? ==> out.rev == r.rev)
            && (out.RangeResponse? <==> op.RangeRequest?) && (out.PutResponse? <==> op.PutRequest?)
            && (out.DeleteResponse? <==> op.DeleteRequest?)
  {
  }

  /** Nothing is held back: no count-only range, and every previous value asked for. */
  predicate AsksAll(req: TxnRequest)
    decreases req
  {
    OpsAskAll(req.success) && OpsAskAll(req.failure)
  }

  predicate OpsAskAll(ops: seq<RequestOp>)
    decreases ops
  {
    ops == [] || (OpAsksAll(ops[0]) && OpsAskAll(ops[1..]))
  }

  predicate OpAsksAll(op: RequestOp)
    decreases op
  {
    match op
    case RangeRequest(_, _, _, countOnly) => !countOnly
    case PutRequest(_, _, _, prevKv) => prevKv
    case DeleteRequest(_, _, prevKv) => prevKv
    case NestedRequest(txn) => AsksAll(txn)
    case UnknownRequest => true
  }

  function ReadBack(resp: TxnResponse): (res: TxnResult)
    decreases resp
  {
    TxnResult(ReadBackOps(resp.responses), resp.rev, resp.succeeded)
  }

  function ReadBackOps(rs: seq<ResponseOp>): (res: seq<OpResult>)
    decreases rs
  {
    if rs == [] then [] else [ReadBackOp(rs[0])] + ReadBackOps(rs[1..])
  }

  function ReadBackOp(r: ResponseOp): (res: OpResult)
    decreases r
  {
    match r
    case RangeResponse(rev, kvs, more, _) => RangeResult(kvs, rev, more)
    case PutResponse(rev, prev) => PutResult(prev, rev)
    case DeleteResponse(rev, _, prevKvs) => DeleteResult(prevKvs, rev)
    case NestedResponse(txn) => NestedResult(ReadBack(txn))
  }

  /** The response tree carries the whole result. */
  lemma {:induction false} RespondInverts(req: TxnRequest, res: TxnResult)
    requires AsksAll(req) && Respond(req, res).Ok?
    ensures ReadBack(Respond(req, res).value) == res
    decreases req
  {
    RespondOpsInverts(if res.succeeded then req.success else req.failure, res.responses);
  }

  lemma {:induction false} RespondOpsInverts(ops: seq<RequestOp>, rs: seq<OpResult>)
    requires |ops| == |rs| && OpsAskAll(ops) && RespondOps(ops, rs).Ok?
    ensures ReadBackOps(RespondOps(ops, rs).value) == rs
    decreases ops
  {
    if ops != [] {
      RespondOpInverts(ops[0], rs[0]);
      RespondOpsInverts(ops[1..], rs[1..]);
      var one, rest := RespondOp(ops[0], rs[0]).value, RespondOps(ops[1..], rs[1..]).value;
      assert RespondOps(ops, rs).value == [one] + rest && ([one] + rest)[1..] == rest;
      assert rs == [rs[0]] + rs[1..];
    }
  }

  lemma {:induction false} RespondOpInverts(op: RequestOp, r: OpResult)
    requires OpAsksAll(op) && RespondOp(op, r).Ok?
    ensures ReadBackOp(RespondOp(op, r).value) == r
    ensures RespondOp(op, r).value.RangeResponse? ==> RespondOp(op, r).value.count == |r.kvs|
    ensures RespondOp(op, r).value.DeleteResponse? ==> RespondOp(op, r).value.deleted == |r.deleted|
    decreases op
  {
    if op.NestedRequest? {
      RespondInverts(op.txn, r.res);
    }
  }
}
