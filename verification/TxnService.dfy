/** The service that runs transactions: nested boundaries flatten into the open transaction, and the
    notifications of a whole tree are published by the outermost call only, after its commit. Every
    method is proved against the meaning in Txn. */
module TxnService {
  import opened Lex
  import opened Outcome
  import opened KeyEncoding
  import opened KvStore
  import opened Txn
  import opened BoltStore

  /** What the Go context carries: the transaction handle and the collector. */
  datatype Ctx = Ctx(inTx: bool, pending: PendingEvents?)

  /** A run met with the faults of one outermost boundary: nothing of a failed run survives. */
  function Settle<T>(run: Run<T>, faults: Faults): (r: Result<T, KvError>) {
    if faults.begin then Err(BeginFailed)
    else match run
      case Fail(e) => Err(e)
      case Done(_, res, _) => if faults.commit then Err(CommitFailed) else Ok(res)
  }

  function AsResult<T>(run: Run<T>): (r: Result<T, KvError>) {
    match run
    case Fail(e) => Err(e)
    case Done(_, res, _) => Ok(res)
  }

  /** Results and events already produced, in front of what remains. */
  function Prepend(rs: seq<OpResult>, ev: seq<Event>, run: Run<seq<OpResult>>): (r: Run<seq<OpResult>>) {
    match run
    case Fail(e) => Fail(e)
    case Done(s, rest, more) => Done(s, rs + rest, ev + more)
  }

  lemma PrependStep(schema: Schema, s: Store, ops: seq<Op>, i: nat, rs: seq<OpResult>, ev: seq<Event>)
    requires i < |ops|
    ensures Prepend(rs, ev, ExecOps(schema, s, ops[i..])) ==
            match ExecOp(schema, s, ops[i])
            case Fail(e) => Fail(e)
            case Done(s1, r1, ev1) => Prepend(rs + [r1], ev + ev1, ExecOps(schema, s1, ops[i + 1..]))
  {
    assert ops[i..][0] == ops[i] && ops[i..][1..] == ops[i + 1..];
    match ExecOp(schema, s, ops[i])
    case Fail(_) =>
    case Done(s1, r1, ev1) =>
      match ExecOps(schema, s1, ops[i + 1..])
      case Fail(_) =>
      case Done(_, rest, more) =>
        assert rs + ([r1] + rest) == rs + [r1] + rest;
        assert ev + (ev1 + more) == ev + ev1 + more;
  }

  lemma PrependNothing(run: Run<seq<OpResult>>)
    ensures Prepend([], [], run) == run
  {
    if run.Done? {
      assert [] + run.result == run.result && [] + run.events == run.events;
    }
  }

  lemma PrependToEnd(schema: Schema, s: Store, rs: seq<OpResult>, ev: seq<Event>)
    ensures Prepend(rs, ev, ExecOps(schema, s, [])) == Done(s, rs, ev)
  {
    assert rs + [] == rs && ev + [] == ev;
  }

  /** revisionFromResponses: the first revision a read of this branch observed, or 0. */
  function RevisionFromResponses(rs: seq<OpResult>): (rev: nat)
    ensures rev != 0 ==>
      exists i :: 0 <= i < |rs| && ObservedRevision(rs[i]) == rev &&
                  forall j :: 0 <= j < i ==> ObservedRevision(rs[j]) == 0
    ensures rev == 0 ==> forall i :: 0 <= i < |rs| ==> ObservedRevision(rs[i]) == 0
  {
    if rs == [] then 0
    else if ObservedRevision(rs[0]) > 0 then ObservedRevision(rs[0])
    else
      var rev := RevisionFromResponses(rs[1..]);
      assert rev != 0 ==>
        exists i :: 0 <= i < |rs[1..]| && ObservedRevision(rs[1..][i]) == rev && rs[i + 1] == rs[1..][i] &&
                    forall j :: 0 <= j < i + 1 ==> ObservedRevision(rs[j]) == 0;
      rev
  }

  function ObservedRevision(r: OpResult): (rev: nat) {
    match r
    case RangeResult(_, rev, _) => rev
    case NestedResult(res) => res.rev
    case _ => 0
  }

  class Service {
    const db: Db
    const sink: Sink
    const schema: Schema

    constructor (db: Db, sink: Sink, schema: Schema)
      ensures this.db == db && this.sink == sink && this.schema == schema
    {
      this.db, this.sink, this.schema := db, sink, schema;
    }

    /** A context as the call chain builds it: the collector travels with the writable transaction. */
    ghost predicate Ready(ctx: Ctx)
      reads db
    {
      && db.open == ctx.inTx
      && (ctx.pending != null <==> ctx.inTx)
      && Valid(db.View(ctx.inTx))
    }

    /** The notifications waiting in the context's collector. */
    ghost function Notes(ctx: Ctx): (ev: seq<Event>)
      reads ctx.pending
    {
      if ctx.pending == null then [] else ctx.pending.notify
    }

    /** An inner call ran `run`: its effects sit in the open transaction and its events, after the
        `notes` already there, in the collector. */
    ghost predicate Joined<T>(ctx: Ctx, notes: seq<Event>, run: Run<T>, r: Result<T, KvError>)
      reads db, ctx.pending
    {
      && db.open == ctx.inTx
      && r == AsResult(run)
      && (run.Done? ==> db.View(ctx.inTx) == run.store && Notes(ctx) == notes + run.events)
    }

    /** Neither the committed state nor the published stream has moved. */
    ghost predicate Still(committed: Store, published: seq<Event>)
      reads db, sink
    {
      db.committed == committed && sink.published == published
    }

    /** An outermost call ran `run`: all of it is committed and then published, or nothing is. */
    ghost predicate Settled<T>(committed: Store, published: seq<Event>, run: Run<T>, faults: Faults,
                               r: Result<T, KvError>)
      reads db, sink
    {
      && !db.open
      && r == Settle(run, faults)
      && (if r.Ok? then db.committed == run.store && sink.published == published + run.events
          else Still(committed, published))
    }

    method EvalCompare(ctx: Ctx, c: Compare) returns (ok: bool)
      ensures ok == Holds(db.View(ctx.inTx), c)
    {
      var out := db.RangeQuery(ctx.inTx, c.b, NO_OPTS);
      var kvs := out.kvs;
      if |kvs| == 0 { return CompareKV(c, None); }
      var i := 0;
      while i < |kvs|
        invariant i <= |kvs|
        invariant forall j :: 0 <= j < i ==> CompareKV(c, Some(kvs[j]))
      {
        if !CompareKV(c, Some(kvs[i])) { return false; }
        i := i + 1;
      }
      ok := true;
    }

    method EvalCompares(ctx: Ctx, cs: seq<Compare>) returns (ok: bool)
      ensures ok == AllHold(db.View(ctx.inTx), cs)
    {
      var i := 0;
      while i < |cs|
        invariant i <= |cs|
        invariant forall j :: 0 <= j < i ==> Holds(db.View(ctx.inTx), cs[j])
      {
        var held := EvalCompare(ctx, cs[i]);
        if !held { return false; }
        i := i + 1;
      }
      ok := true;
    }

    /** PutKey inside an open transaction: the write, then its notification into the collector. */
    method PutInTx(pending: PendingEvents, n: Name, value: Bytes) returns (r: Result<OpResult, KvError>)
      requires Ready(Ctx(true, pending)) && schema(n, value)
      modifies db, pending
      ensures db.committed == old(db.committed)
      ensures Joined(Ctx(true, pending), old(pending.notify), ExecOp(schema, old(db.working), PutOp(n, value)), r)
    {
      var out := db.PutKey(n, value);
      if out.Err? { return Err(out.error); }
      var (prev, rev) := out.value;
      match prev {
        case Some(p) => pending.Add(Event(Updated, n, rev, value, p.createRev, p.version + 1));
        case None => pending.Add(Event(Created, n, rev, value, rev, 1));
      }
      r := Ok(PutResult(prev, rev));
    }

    /** DeleteRangeKeys inside an open transaction: one notification per deleted key. */
    method DeleteInTx(pending: PendingEvents, b: Bounds, returnPrev: bool) returns (r: Result<OpResult, KvError>)
      requires Ready(Ctx(true, pending))
      modifies db, pending
      ensures db.committed == old(db.committed)
      ensures Joined(Ctx(true, pending), old(pending.notify), ExecOp(schema, old(db.working), DeleteOp(b, returnPrev)),
                     r)
    {
      var out := db.DeleteRangeKeys(b, returnPrev);
      if out.Err? { return Err(out.error); }
      var (deleted, rev) := out.value;
      AddDeletions(pending, deleted, rev);
      r := Ok(DeleteResult(deleted, rev));
    }

    method AddDeletions(pending: PendingEvents, deleted: seq<KVPair>, rev: nat)
      modifies pending
      ensures pending.notify == old(pending.notify) + DeleteEvents(deleted, rev)
    {
      ghost var ev := DeleteEvents(deleted, rev);
      var i := 0;
      while i < |deleted|
        invariant i <= |deleted|
        invariant pending.notify == old(pending.notify) + ev[..i]
      {
        pending.Add(Event(Deleted, deleted[i].name, rev, [], 0, 0));
        i := i + 1;
      }
      assert ev[..|deleted|] == ev;
    }

    /** PutKey as an inner or as an outermost call. */
    method PutKey(ctx: Ctx, n: Name, value: Bytes, faults: Faults) returns (r: Result<OpResult, KvError>)
      requires Ready(ctx)
      modifies db, sink, ctx.pending
      ensures ctx.inTx ==> Still(old(db.committed), old(sink.published))
      ensures ctx.inTx ==> Joined(ctx, old(Notes(ctx)), ExecOp(schema, old(db.working), PutOp(n, value)), r)
      ensures !ctx.inTx && schema(n, value) ==>
        Settled(old(db.committed), old(sink.published), ExecOp(schema, old(db.committed), PutOp(n, value)), faults, r)
      ensures !ctx.inTx && !schema(n, value) ==>
        r == Err(SchemaRejected) && !db.open && Still(old(db.committed), old(sink.published))
    {
      if !schema(n, value) { return Err(SchemaRejected); }
      if ctx.inTx {
        r := PutInTx(ctx.pending, n, value);
        return;
      }
      var pending := new PendingEvents();
      var begun := db.Begin(faults.begin);
      if !begun { return Err(BeginFailed); }
      r := PutInTx(pending, n, value);
      if r.Err? { db.Rollback(); return; }
      var done := db.Commit(faults.commit);
      if !done { return Err(CommitFailed); }
      pending.Flush(sink);
    }

    /** DeleteRangeKeys as an inner or as an outermost call. */
    method DeleteRangeKeys(ctx: Ctx, b: Bounds, returnPrev: bool, faults: Faults) returns (r: Result<OpResult, KvError>)
      requires Ready(ctx)
      modifies db, sink, ctx.pending
      ensures ctx.inTx ==> Still(old(db.committed), old(sink.published))
      ensures ctx.inTx ==> Joined(ctx, old(Notes(ctx)), ExecOp(schema, old(db.working), DeleteOp(b, returnPrev)), r)
      ensures !ctx.inTx ==>
        Settled(old(db.committed), old(sink.published), ExecOp(schema, old(db.committed), DeleteOp(b, returnPrev)),
                faults, r)
    {
      if ctx.inTx {
        r := DeleteInTx(ctx.pending, b, returnPrev);
        return;
      }
      var pending := new PendingEvents();
      var begun := db.Begin(faults.begin);
      if !begun { return Err(BeginFailed); }
      r := DeleteInTx(pending, b, returnPrev);
      if r.Err? { db.Rollback(); return; }
      var done := db.Commit(faults.commit);
      if !done { return Err(CommitFailed); }
      pending.Flush(sink);
    }

    /** Txn, the entry point: a tree that may write runs in one transaction; one that only reads runs
        without opening any. As an inner call it joins the transaction it finds. */
    method RunTransaction(ctx: Ctx, t: TxnInput, faults: Faults) returns (r: Result<TxnResult, KvError>)
      requires Ready(ctx)
      modifies db, sink, ctx.pending
      ensures ctx.inTx ==> Still(old(db.committed), old(sink.published))
      ensures ctx.inTx ==> Joined(ctx, old(Notes(ctx)), ExecTxn(schema, old(db.working), t), r)
      ensures !ctx.inTx && HasWrites(t) ==>
        Settled(old(db.committed), old(sink.published), ExecTxn(schema, old(db.committed), t), faults, r)
      ensures !ctx.inTx && !HasWrites(t) ==> Still(old(db.committed), old(sink.published))
      ensures !ctx.inTx && !HasWrites(t) ==> Joined(ctx, old(Notes(ctx)), ExecTxn(schema, old(db.committed), t), r)
      decreases t, 1
    {
      if !HasWrites(t) {
        r := RunTxn(ctx, t);
        return;
      }
      if ctx.inTx {
        r := RunTxn(ctx, t);
        return;
      }
      var pending := new PendingEvents();
      var begun := db.Begin(faults.begin);
      if !begun { return Err(BeginFailed); }
      r := RunTxn(Ctx(true, pending), t);
      if r.Err? { db.Rollback(); return; }
      var done := db.Commit(faults.commit);
      if !done { return Err(CommitFailed); }
      pending.Flush(sink);
    }

    method RunTxn(ctx: Ctx, t: TxnInput) returns (r: Result<TxnResult, KvError>)
      requires Ready(ctx) && (ctx.inTx || !HasWrites(t))
      modifies db, sink, ctx.pending
      ensures Still(old(db.committed), old(sink.published)) &&
              Joined(ctx, old(Notes(ctx)), ExecTxn(schema, old(db.View(ctx.inTx)), t), r)
      decreases t, 0
    {
      var succeeded := EvalCompares(ctx, t.compare);
      var ops := if succeeded then t.success else t.failure;
      var responses, lastRev, failed := RunOps(ctx, ops);
      if failed.Some? { return Err(failed.value); }
      if lastRev == 0 {
        lastRev := RevisionFromResponses(responses);
      }
      if lastRev == 0 {
        lastRev := db.View(ctx.inTx).rev;
      }
      r := Ok(TxnResult(responses, lastRev, succeeded));
    }

    /** Runs a branch. `lastRev` is the highest revision an operation reported. */
    method RunOps(ctx: Ctx, ops: seq<Op>)
      returns (results: seq<OpResult>, lastRev: nat, failed: Option<KvError>)
      requires Ready(ctx) && (ctx.inTx || !OpsWrite(ops))
      modifies db, sink, ctx.pending
      ensures Still(old(db.committed), old(sink.published))
      ensures Joined(ctx, old(Notes(ctx)), ExecOps(schema, old(db.View(ctx.inTx)), ops),
                     if failed.Some? then Err(failed.value) else Ok(results))
      ensures failed.None? ==> HeaderFits(results, lastRev, old(db.View(ctx.inTx)).rev, db.View(ctx.inTx).rev)
      decreases ops, 1
    {
      ghost var base := db.View(ctx.inTx).rev;
      ghost var run := ExecOps(schema, db.View(ctx.inTx), ops);
      ghost var ev: seq<Event> := [];
      results, lastRev, failed := [], 0, None;
      var i := 0;
      assert ops[0..] == ops;
      PrependNothing(run);
      while i < |ops|
        invariant i <= |ops| && failed.None?
        invariant Ready(ctx) && Still(old(db.committed), old(sink.published))
        invariant run == Prepend(results, ev, ExecOps(schema, db.View(ctx.inTx), ops[i..]))
        invariant Notes(ctx) == old(Notes(ctx)) + ev
        invariant ctx.inTx || !OpsWrite(ops[i..])
        invariant HeaderFits(results, lastRev, base, db.View(ctx.inTx).rev)
      {
        results, lastRev, ev, failed := StepOps(ctx, ops, i, results, lastRev, ev, old(Notes(ctx)), base);
        if failed.Some? { return; }
        i := i + 1;
      }
      assert ops[i..] == [];
      PrependToEnd(schema, db.View(ctx.inTx), results, ev);
    }

    /** One turn of the loop in RunOps. */
    method StepOps(ctx: Ctx, ops: seq<Op>, i: nat, results: seq<OpResult>, lastRev: nat,
                   ghost ev: seq<Event>, ghost notes: seq<Event>, ghost base: nat)
      returns (results': seq<OpResult>, lastRev': nat, ghost ev': seq<Event>, failed: Option<KvError>)
      requires Ready(ctx) && i < |ops| && (ctx.inTx || !OpsWrite(ops[i..]))
      requires Notes(ctx) == notes + ev
      requires HeaderFits(results, lastRev, base, db.View(ctx.inTx).rev)
      modifies db, sink, ctx.pending
      ensures Still(old(db.committed), old(sink.published)) && db.open == ctx.inTx
      ensures Prepend(results, ev, ExecOps(schema, old(db.View(ctx.inTx)), ops[i..])) ==
              if failed.Some? then Fail(failed.value)
              else Prepend(results', ev', ExecOps(schema, db.View(ctx.inTx), ops[i + 1..]))
      ensures failed.None? ==> Ready(ctx) && Notes(ctx) == notes + ev'
      ensures failed.None? ==> HeaderFits(results', lastRev', base, db.View(ctx.inTx).rev)
      ensures ctx.inTx || !OpsWrite(ops[i + 1..])
      decreases ops, 0
    {
      ghost var before := db.View(ctx.inTx);
      PrependStep(schema, before, ops, i, results, ev);
      WritesStep(ops, i);
      var res, rev := RunOp(ctx, ops[i]);
      results', lastRev', ev', failed := results, lastRev, ev, None;
      if res.Err? { failed := Some(res.error); return; }
      ghost var one := ExecOp(schema, before, ops[i]);
      ReportFacts(schema, before, ops[i]);
      if rev > lastRev' {
        lastRev' := rev;
      }
      results' := results' + [res.value];
      ev' := ev' + one.events;
    }

    method RunOp(ctx: Ctx, op: Op) returns (r: Result<OpResult, KvError>, rev: nat)
      requires Ready(ctx) && (ctx.inTx || !OpWrites(op))
      modifies db, sink, ctx.pending
      ensures Still(old(db.committed), old(sink.published))
      ensures Joined(ctx, old(Notes(ctx)), ExecOp(schema, old(db.View(ctx.inTx)), op), r)
      ensures r.Ok? ==> rev == Reported(r.value)
      decreases op
    {
      match op {
        case RangeOp(b, opts) =>
          var out := db.RangeQuery(ctx.inTx, b, opts);
          r, rev := Ok(RangeResult(out.kvs, db.View(ctx.inTx).rev, out.more)), 0;
        case PutOp(n, value) =>
          if !schema(n, value) { return Err(SchemaRejected), 0; }
          r := PutInTx(ctx.pending, n, value);
          rev := if r.Ok? then r.value.rev else 0;
        case DeleteOp(b, returnPrev) =>
          r := DeleteInTx(ctx.pending, b, returnPrev);
          rev := if r.Ok? then r.value.rev else 0;
        case NestedOp(None) =>
          r, rev := Err(EmptyNestedTxn), 0;
        case NestedOp(Some(t)) =>
          var nested := RunTransaction(ctx, t, Faults(false, false));
          match nested {
            case Err(e) => r, rev := Err(e), 0;
            case Ok(res) => r, rev := Ok(NestedResult(res)), res.rev;
          }
        case UnknownOp =>
          r, rev := Err(UnknownOperation), 0;
      }
    }
  }

  /** The revision an operation hands to the header: reads hand over nothing. */
  function Reported(r: OpResult): (rev: nat) {
    match r
    case RangeResult(_, _, _) => 0
    case PutResult(_, rev) => rev
    case DeleteResult(_, rev) => rev
    case NestedResult(res) => res.rev
  }

  /** What the loop knows of `lastRev`: it is the store's revision now, or no operation has moved the
      revision and every revision seen so far is the one the branch started from. */
  ghost predicate HeaderFits(rs: seq<OpResult>, lastRev: nat, base: nat, now: nat) {
    && base <= now
    && (lastRev != 0 ==> lastRev == now)
    && (lastRev == 0 ==> base == now)
    && (lastRev == 0 ==> forall i :: 0 <= i < |rs| ==> ObservedRevision(rs[i]) == 0 || ObservedRevision(rs[i]) == base)
  }

  lemma WritesStep(ops: seq<Op>, i: nat)
    requires i < |ops|
    ensures OpsWrite(ops[i..]) == (OpWrites(ops[i]) || OpsWrite(ops[i + 1..]))
  {
    assert ops[i..][0] == ops[i] && ops[i..][1..] == ops[i + 1..];
  }

  /** An operation reports 0 exactly when it left the revision where it was and read it, or it reports
      the revision it left behind. */
  lemma ReportFacts(schema: Schema, s: Store, op: Op)
    requires Valid(s) && ExecOp(schema, s, op).Done?
    ensures var one := ExecOp(schema, s, op);
            && Valid(one.store) && s.rev <= one.store.rev
            && (Reported(one.result) == one.store.rev ||
                (Reported(one.result) == 0 && one.store.rev == s.rev))
            && (Reported(one.result) == 0 ==>
                (ObservedRevision(one.result) == 0 || ObservedRevision(one.result) == s.rev) && one.store.rev == s.rev)
  {
    OpSound(schema, s, op);
  }
}
