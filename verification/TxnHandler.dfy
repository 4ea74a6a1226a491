/** The gRPC face of transactions: a request tree is converted, authorized in both branches, run, and
    zipped back with its results. */
module TxnHandler {
  import opened Lex
  import opened Outcome
  import opened KeyEncoding
  import opened KvStore
  import opened Txn
  import opened BoltStore
  import opened TxnService

  datatype CompareRequest = CompareRequest(
    key: Bytes, rangeEnd: Bytes, target: Target, relation: Relation,
    version: int, createRevision: int, modRevision: int, value: Bytes)

  datatype RequestOp =
    | RangeRequest(key: Bytes, rangeEnd: Bytes, opts: RangeOpts, countOnly: bool)
    | PutRequest(key: Bytes, value: Bytes, ignoreValue: bool, prevKv: bool)
    | DeleteRequest(key: Bytes, rangeEnd: Bytes, prevKv: bool)
    | NestedRequest(txn: TxnRequest)
    | UnknownRequest

  datatype TxnRequest = TxnRequest(compare: seq<CompareRequest>, success: seq<RequestOp>, failure: seq<RequestOp>)

  datatype ResponseOp =
    | RangeResponse(rev: nat, kvs: seq<KVPair>, more: bool, count: nat)
    | PutResponse(rev: nat, prev: Option<KVPair>)
    | DeleteResponse(rev: nat, deleted: nat, prevKvs: seq<KVPair>)
    | NestedResponse(txn: TxnResponse)

  datatype TxnResponse = TxnResponse(rev: nat, succeeded: bool, responses: seq<ResponseOp>)

  /** ResponseMismatch is the handler's Internal error; MissingResult is the nil dereference it would
      take to read a result of another kind. */
  datatype Status =
    | InvalidArgument | Unimplemented | PermissionDenied
    | ResponseMismatch | MissingResult
    | Rejected(error: KvError)

  // ---------------------------------------------------------------- conversion

  function ConvertCompare(c: CompareRequest): (r: Result<Compare, Status>) {
    match SplitRange(c.key, c.rangeEnd)
    case None => Err(InvalidArgument)
    case Some(b) =>
      var wantRev := match c.target
        case TargetVersion => c.version
        case TargetCreateRevision => c.createRevision
        case TargetModRevision => c.modRevision
        case _ => 0;
      Ok(Compare(b, c.target, c.relation, wantRev, if c.target == TargetValue then c.value else []))
  }

  function ConvertCompares(cs: seq<CompareRequest>): (r: Result<seq<Compare>, Status>) {
    if cs == [] then Ok([])
    else match ConvertCompare(cs[0])
      case Err(e) => Err(e)
      case Ok(c) =>
        match ConvertCompares(cs[1..])
        case Err(e) => Err(e)
        case Ok(rest) => Ok([c] + rest)
  }

  function ConvertTxn(req: TxnRequest): (r: Result<TxnInput, Status>)
    decreases req
  {
    match ConvertCompares(req.compare)
    case Err(e) => Err(e)
    case Ok(compares) =>
      match ConvertOps(req.success)
      case Err(e) => Err(e)
      case Ok(success) =>
        match ConvertOps(req.failure)
        case Err(e) => Err(e)
        case Ok(failure) => Ok(TxnInput(compares, success, failure))
  }

  function ConvertOps(ops: seq<RequestOp>): (r: Result<seq<Op>, Status>)
    decreases ops
  {
    if ops == [] then Ok([])
    else match ConvertOp(ops[0])
      case Err(e) => Err(e)
      case Ok(op) =>
        match ConvertOps(ops[1..])
        case Err(e) => Err(e)
        case Ok(rest) => Ok([op] + rest)
  }

  function ConvertOp(op: RequestOp): (r: Result<Op, Status>)
    decreases op
  {
    match op
    case RangeRequest(key, rangeEnd, opts, _) =>
      (match SplitRange(key, rangeEnd)
        case None => Err(InvalidArgument)
        case Some(b) => Ok(RangeOp(b, opts)))
    case PutRequest(key, value, ignoreValue, _) =>
      (match SplitKey(key)
        case None => Err(InvalidArgument)
        case Some(n) => if ignoreValue then Err(Unimplemented) else Ok(PutOp(n, value)))
    case DeleteRequest(key, rangeEnd, prevKv) =>
      (match SplitRange(key, rangeEnd)
        case None => Err(InvalidArgument)
        case Some(b) => Ok(DeleteOp(b, prevKv)))
    case NestedRequest(txn) =>
      (match ConvertTxn(txn)
        case Err(e) => Err(e)
        case Ok(t) => Ok(NestedOp(Some(t))))
    case UnknownRequest => Err(InvalidArgument)
  }

  // ---------------------------------------------------------------- access

  datatype Claims = Claims(namespaces: seq<Bytes>, writer: bool)

  const ANY_NAMESPACE: Bytes := [42]

  /** namespaceAllowed; no claims means authentication is off. */
  predicate Allowed(claims: Option<Claims>, ns: Bytes, write: bool) {
    match claims
    case None => true
    case Some(c) => (ns in c.namespaces || ANY_NAMESPACE in c.namespaces) && (write ==> c.writer)
  }

  /** checkRangeAccess: both ends of the range. */
  predicate RangeAllowed(claims: Option<Claims>, b: Bounds, write: bool) {
    Allowed(claims, b.start.ns, write) && (b.end.ns == [] || b.ScanAll() || Allowed(claims, b.end.ns, write))
  }

  predicate TxnAllowed(claims: Option<Claims>, t: TxnInput)
    decreases t
  {
    && (forall i :: 0 <= i < |t.compare| ==> RangeAllowed(claims, t.compare[i].b, false))
    && OpsAllowed(claims, t.success)
    && OpsAllowed(claims, t.failure)
  }

  predicate OpsAllowed(claims: Option<Claims>, ops: seq<Op>)
    decreases ops
  {
    ops == [] || (OpAllowed(claims, ops[0]) && OpsAllowed(claims, ops[1..]))
  }

  predicate OpAllowed(claims: Option<Claims>, op: Op)
    decreases op
  {
    match op
    case RangeOp(b, _) => RangeAllowed(claims, b, false)
    case PutOp(n, _) => Allowed(claims, n.ns, true)
    case DeleteOp(b, _) => RangeAllowed(claims, b, true)
    case NestedOp(Some(t)) => TxnAllowed(claims, t)
    case _ => false
  }

  /** The operations a run executed, at every depth: those of the branches the responses report. */
  function ExecutedOps(ops: seq<Op>, rs: seq<OpResult>): (done: seq<Op>)
    requires ShapeOps(ops, rs)
    decreases ops
  {
    if ops == [] then []
    else [ops[0]] + ExecutedInside(ops[0], rs[0]) + ExecutedOps(ops[1..], rs[1..])
  }

  function ExecutedInside(op: Op, r: OpResult): (done: seq<Op>)
    requires ShapeOp(op, r)
    decreases op
  {
    match op
    case NestedOp(Some(t)) => ExecutedTxn(t, r.res)
    case _ => []
  }

  function ExecutedTxn(t: TxnInput, res: TxnResult): (done: seq<Op>)
    requires ShapeTxn(t, res)
    decreases t
  {
    ExecutedOps(if res.succeeded then t.success else t.failure, res.responses)
  }

  /** The up-front check covers whatever runs: every operation executed at any depth passed its own
      access check, and every put it announces is in a namespace the caller may write. */
  lemma {:induction false} ExecutedWereAllowed(claims: Option<Claims>, t: TxnInput, res: TxnResult)
    requires TxnAllowed(claims, t) && ShapeTxn(t, res)
    ensures forall i :: 0 <= i < |ExecutedTxn(t, res)| ==> OpAllowed(claims, ExecutedTxn(t, res)[i])
    ensures forall i :: 0 <= i < |AnnouncedTxn(t, res)| && AnnouncedTxn(t, res)[i].kind != Deleted ==>
      Allowed(claims, AnnouncedTxn(t, res)[i].name.ns, true)
    decreases t
  {
    ExecutedOpsWereAllowed(claims, if res.succeeded then t.success else t.failure, res.responses);
  }

  lemma {:induction false} ExecutedOpsWereAllowed(claims: Option<Claims>, ops: seq<Op>, rs: seq<OpResult>)
    requires OpsAllowed(claims, ops) && ShapeOps(ops, rs)
    ensures forall i :: 0 <= i < |ExecutedOps(ops, rs)| ==> OpAllowed(claims, ExecutedOps(ops, rs)[i])
    ensures forall i :: 0 <= i < |AnnouncedOps(ops, rs)| && AnnouncedOps(ops, rs)[i].kind != Deleted ==>
      Allowed(claims, AnnouncedOps(ops, rs)[i].name.ns, true)
    decreases ops
  {
    if ops != [] {
      ExecutedInsideAllowed(claims, ops[0], rs[0]);
      ExecutedOpsWereAllowed(claims, ops[1..], rs[1..]);
    }
  }

  lemma {:induction false} ExecutedInsideAllowed(claims: Option<Claims>, op: Op, r: OpResult)
    requires OpAllowed(claims, op) && ShapeOp(op, r)
    ensures forall i :: 0 <= i < |ExecutedInside(op, r)| ==> OpAllowed(claims, ExecutedInside(op, r)[i])
    ensures forall i :: 0 <= i < |AnnouncedOp(op, r)| && AnnouncedOp(op, r)[i].kind != Deleted ==>
      Allowed(claims, AnnouncedOp(op, r)[i].name.ns, true)
    decreases op
  {
    if op.NestedOp? {
      ExecutedWereAllowed(claims, op.txn.value, r.res);
    }
  }

  // ---------------------------------------------------------------- responses

  function Respond(req: TxnRequest, res: TxnResult): (r: Result<TxnResponse, Status>)
    decreases req
  {
    var ops := if res.succeeded then req.success else req.failure;
    if |ops| != |res.responses| then Err(ResponseMismatch)
    else match RespondOps(if res.succeeded then req.success else req.failure, res.responses)
      case Err(e) => Err(e)
      case Ok(rs) => Ok(TxnResponse(res.rev, res.succeeded, rs))
  }

  function RespondOps(ops: seq<RequestOp>, rs: seq<OpResult>): (r: Result<seq<ResponseOp>, Status>)
    requires |ops| == |rs|
    decreases ops
  {
    if ops == [] then Ok([])
    else match RespondOp(ops[0], rs[0])
      case Err(e) => Err(e)
      case Ok(one) =>
        match RespondOps(ops[1..], rs[1..])
        case Err(e) => Err(e)
        case Ok(rest) => Ok([one] + rest)
  }

  function RespondOp(op: RequestOp, r: OpResult): (out: Result<ResponseOp, Status>)
    decreases op
  {
    match op
    case RangeRequest(_, _, _, countOnly) =>
      if !r.RangeResult? then Err(MissingResult)
      else Ok(RangeResponse(r.rev, if countOnly then [] else r.kvs, r.more, |r.kvs|))
    case PutRequest(_, _, _, prevKv) =>
      if !r.PutResult? then Err(MissingResult)
      else Ok(PutResponse(r.rev, if prevKv then r.prev else None))
    case DeleteRequest(_, _, prevKv) =>
      if !r.DeleteResult? then Err(MissingResult)
      else Ok(DeleteResponse(r.rev, |r.deleted|, if prevKv then r.deleted else []))
    case NestedRequest(txn) =>
      if !r.NestedResult? then Err(MissingResult)
      else (match Respond(txn, r.res)
        case Err(e) => Err(e)
        case Ok(inner) => Ok(NestedResponse(inner)))
    case UnknownRequest => Err(InvalidArgument)
  }

  /** A converted request and any result tree of its shape zip without a mismatch or a missing result,
      and the header carries the transaction's revision. */
  lemma {:induction false} ResponseFits(req: TxnRequest, t: TxnInput, res: TxnResult)
    requires ConvertTxn(req) == Ok(t) && ShapeTxn(t, res)
    ensures Respond(req, res).Ok?
    ensures var out := Respond(req, res).value;
            out.rev == res.rev && out.succeeded == res.succeeded && |out.responses| == |res.responses|
    decreases req
  {
    ResponsesFit(if res.succeeded then req.success else req.failure,
                 if res.succeeded then t.success else t.failure, res.responses);
  }

  lemma {:induction false} ResponsesFit(reqs: seq<RequestOp>, ops: seq<Op>, rs: seq<OpResult>)
    requires ConvertOps(reqs) == Ok(ops) && ShapeOps(ops, rs)
    ensures |reqs| == |rs| && RespondOps(reqs, rs).Ok? && |RespondOps(reqs, rs).value| == |rs|
    decreases reqs
  {
    if reqs != [] {
      var op, rest := ConvertOp(reqs[0]).value, ConvertOps(reqs[1..]).value;
      assert ops == [op] + rest && ops[1..] == rest;
      ResponsesFit(reqs[1..], rest, rs[1..]);
      ResponseOpFits(reqs[0], op, rs[0]);
    }
  }

  lemma {:induction false} ResponseOpFits(req: RequestOp, op: Op, r: OpResult)
    requires ConvertOp(req) == Ok(op) && ShapeOp(op, r)
    ensures RespondOp(req, r).Ok?
    decreases req
  {
    if req.NestedRequest? {
      ResponseFits(req.txn, ConvertTxn(req.txn).value, r.res);
    }
  }

  /** KVServer.Txn: the whole request. A refusal of any kind leaves store and subscribers alone; an
      accepted request was convertible and allowed, committed exactly its meaning, published exactly
      the notifications its responses call for, and is answered with the committed revision. */
  method HandleTxn(service: Service, claims: Option<Claims>, req: TxnRequest, faults: Faults)
    returns (r: Result<TxnResponse, Status>)
    requires service.Ready(Ctx(false, null))
    modifies service.db, service.sink
    ensures r.Err? ==> service.Still(old(service.db.committed), old(service.sink.published))
    ensures r != Err(ResponseMismatch) && r != Err(MissingResult)
    ensures ConvertTxn(req).Err? ==> r == Err(ConvertTxn(req).error)
    ensures r == Err(PermissionDenied) <==> ConvertTxn(req).Ok? && !TxnAllowed(claims, ConvertTxn(req).value)
    ensures ConvertTxn(req).Ok? && TxnAllowed(claims, ConvertTxn(req).value) ==>
      var t := ConvertTxn(req).value;
      var run := ExecTxn(service.schema, old(service.db.committed), t);
      var settled := Settle(run, if HasWrites(t) then faults else Faults(false, false));
      if settled.Ok? then r.Ok? else r == Err(Rejected(settled.error))
    ensures r.Ok? ==> ConvertTxn(req).Ok? && TxnAllowed(claims, ConvertTxn(req).value)
    ensures r.Ok? ==>
      var t := ConvertTxn(req).value;
      var run := ExecTxn(service.schema, old(service.db.committed), t);
      && run.Done? && ShapeTxn(t, run.result)
      && service.db.committed == run.store
      && service.sink.published == old(service.sink.published) + AnnouncedTxn(t, run.result)
      && r == Respond(req, run.result)
      && r.value.rev == service.db.committed.rev
  {
    var converted := ConvertTxn(req);
    if converted.Err? {
      ConvertErrors(req);
      return Err(converted.error);
    }
    var t := converted.value;
    if !TxnAllowed(claims, t) { return Err(PermissionDenied); }
    ghost var run := ExecTxn(service.schema, service.db.committed, t);
    if run.Done? {
      TxnSound(service.schema, service.db.committed, t);
      ResponseFits(req, t, run.result);
      if !HasWrites(t) {
        ReadOnlyTxn(service.schema, service.db.committed, t);
      }
    }
    var out := service.RunTransaction(Ctx(false, null), t, faults);
    if out.Err? { return Err(Rejected(out.error)); }
    r := Respond(req, out.value);
  }

  /** Conversion itself never reports a mismatch. */
  lemma {:induction false} ConvertErrors(req: TxnRequest)
    requires ConvertTxn(req).Err?
    ensures ConvertTxn(req).error in {InvalidArgument, Unimplemented}
    decreases req
  {
    ConvertComparesErrors(req.compare);
    ConvertOpsErrors(req.success);
    ConvertOpsErrors(req.failure);
  }

  lemma {:induction false} ConvertComparesErrors(cs: seq<CompareRequest>)
    ensures ConvertCompares(cs).Err? ==> ConvertCompares(cs).error == InvalidArgument
  {
    if cs != [] {
      ConvertComparesErrors(cs[1..]);
    }
  }

  lemma {:induction false} ConvertOpsErrors(ops: seq<RequestOp>)
    ensures ConvertOps(ops).Err? ==> ConvertOps(ops).error in {InvalidArgument, Unimplemented}
    decreases ops
  {
    if ops != [] {
      ConvertOpErrors(ops[0]);
      ConvertOpsErrors(ops[1..]);
    }
  }

  lemma {:induction false} ConvertOpErrors(op: RequestOp)
    ensures ConvertOp(op).Err? ==> ConvertOp(op).error in {InvalidArgument, Unimplemented}
    decreases op
  {
    if op.NestedRequest? && ConvertTxn(op.txn).Err? {
      ConvertErrors(op.txn);
    }
  }
}
