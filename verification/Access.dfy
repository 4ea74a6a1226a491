/** What the access checks of the etcd API do and do not bound. A range is checked at its ends; the pairs it
    reads or deletes lie in whatever namespaces it reaches. */
module Access {
  import opened Lex
  import opened Outcome
  import opened KeyEncoding
  import opened KvStore
  import opened Txn
  import opened TxnLaws
  import opened TxnHandler
  import opened Reach

  // ---------------------------------------------------------------- ranges

  predicate Unrestricted(claims: Option<Claims>, write: bool) {
    claims.None? || (ANY_NAMESPACE in claims.value.namespaces && (write ==> claims.value.writer))
  }

  /** Every key the range could ever select lies in a namespace the caller has the right to. */
  ghost predicate Within(claims: Option<Claims>, b: Bounds, write: bool) {
    forall k :: Writable(k) && InStoreRange(k, b) ==> Allowed(claims, Home(k), write)
  }

  /** That is so exactly when the range is empty, the caller may go anywhere, or the range stays on the
      caller's list of namespaces. */
  lemma WithinExact(claims: Option<Claims>, b: Bounds, write: bool)
    requires SayableRange(b)
    ensures Within(claims, b, write) <==>
            || EmptyRange(b)
            || Unrestricted(claims, write)
            || (claims.Some? && (write ==> claims.value.writer) && Listed(b, claims.value.namespaces))
  {
    if EmptyRange(b) {
      forall k ensures !InStoreRange(k, b) {
        NothingInEmptyRange(b, k);
      }
    } else if !Unrestricted(claims, write) {
      StaysOnExact(b, claims.value.namespaces);
      StartInRange(b);
      assert Writable(StoreKey(b.start));
      if write && !claims.value.writer {
        assert !Allowed(claims, Home(StoreKey(b.start)), write);
      } else {
        assert forall ns :: Allowed(claims, ns, write) <==> ns in claims.value.namespaces;
      }
    }
  }

  ghost predicate PairsWithin(claims: Option<Claims>, kvs: seq<KVPair>, write: bool) {
    forall i :: 0 <= i < |kvs| ==> Allowed(claims, kvs[i].name.ns, write)
  }

  lemma {:induction false} HitsNamed(s: Store, keys: seq<Bytes>, opts: RangeOpts, i: nat)
    requires (forall k :: k in keys ==> k in s.kvs) && i < |Hits(s, keys, opts)|
    ensures Hits(s, keys, opts)[i].name == ParseStoreKey(HitKeys(s, keys, opts)[i])
    decreases keys
  {
    var r := ReadKey(s, keys[0], opts);
    if r.None? {
      assert [] + Hits(s, keys[1..], opts) == Hits(s, keys[1..], opts);
      assert [] + HitKeys(s, keys[1..], opts) == HitKeys(s, keys[1..], opts);
      HitsNamed(s, keys[1..], opts, i);
    } else if i > 0 {
      HitsNamed(s, keys[1..], opts, i - 1);
    }
  }

  lemma ReadStaysWithin(claims: Option<Claims>, s: Store, b: Bounds, opts: RangeOpts)
    requires Valid(s) && Written(s) && Within(claims, b, false)
    ensures PairsWithin(claims, RangeQuery(s, b, opts).kvs, false)
  {
    var keys := RangeKeys(s, b);
    RangeExact(s, b, opts);
    forall i | 0 <= i < |Hits(s, keys, opts)|
      ensures Allowed(claims, Hits(s, keys, opts)[i].name.ns, false)
    {
      HitsNamed(s, keys, opts, i);
      var k := HitKeys(s, keys, opts)[i];
      assert k in keys && Explained(s, k, s.kvs[k]);
    }
  }

  lemma LoneIsRead(k: Bytes, b: Bounds, opts: RangeOpts)
    requires NUL in k && InStoreRange(k, b)
    ensures |RangeQuery(Lone(k, {}), b, opts).kvs| == 1 &&
            RangeQuery(Lone(k, {}), b, opts).kvs[0].name == ParseStoreKey(k)
  {
    var s := Lone(k, {});
    LoneRange(k, {}, b);
    RangeExact(s, b, opts);
    assert ReadKey(s, k, opts).Some?;
    assert HitKeys(s, [k][1..], opts) == [] && Hits(s, [k][1..], opts) == [];
    HitsNamed(s, [k], opts, 0);
  }

  /** So no store lets a range read answer with a pair the caller may not read exactly when the range is
      within the caller's rights. */
  lemma ReadsExact(claims: Option<Claims>, b: Bounds, opts: RangeOpts)
    ensures (forall s :: Valid(s) && Written(s) ==> PairsWithin(claims, RangeQuery(s, b, opts).kvs, false)) <==>
            Within(claims, b, false)
  {
    if Within(claims, b, false) {
      forall s | Valid(s) && Written(s) ensures PairsWithin(claims, RangeQuery(s, b, opts).kvs, false) {
        ReadStaysWithin(claims, s, b, opts);
      }
    } else {
      var k :| Writable(k) && InStoreRange(k, b) && !Allowed(claims, Home(k), false);
      var s := Lone(k, {});
      WritableHome(k);
      LoneRange(k, {}, b);
      LoneIsRead(k, b, opts);
      assert Valid(s) && Written(s) && !PairsWithin(claims, RangeQuery(s, b, opts).kvs, false);
    }
  }

  ghost predicate DeleteStaysWithin(claims: Option<Claims>, s: Store, b: Bounds, returnPrev: bool) {
    var r := DeleteRangeKeys(s, b, returnPrev);
    r.Ok? ==> PairsWithin(claims, r.value.deleted, true)
  }

  lemma WithinIsKept(claims: Option<Claims>, s: Store, b: Bounds, returnPrev: bool)
    requires Valid(s) && Written(s) && Within(claims, b, true)
    ensures DeleteStaysWithin(claims, s, b, returnPrev)
  {
    var keys := RangeKeys(s, b);
    forall i | 0 <= i < |keys|
      ensures Allowed(claims, Home(keys[i]), true)
    {
      assert keys[i] in s.kvs && Explained(s, keys[i], s.kvs[keys[i]]);
    }
  }

  /** And the same for what a range delete removes. */
  lemma DeletesExact(claims: Option<Claims>, b: Bounds)
    ensures (forall s, returnPrev :: Valid(s) && Written(s) ==> DeleteStaysWithin(claims, s, b, returnPrev)) <==>
            Within(claims, b, true)
  {
    if Within(claims, b, true) {
      forall s, returnPrev | Valid(s) && Written(s) ensures DeleteStaysWithin(claims, s, b, returnPrev) {
        WithinIsKept(claims, s, b, returnPrev);
      }
    } else {
      var k :| Writable(k) && InStoreRange(k, b) && !Allowed(claims, Home(k), true);
      var s := Lone(k, {});
      WritableHome(k);
      LoneRange(k, {}, b);
      assert DeletedPairs(s, [k], false)[0].name == ParseStoreKey(k);
      assert Valid(s) && Written(s) && !DeleteStaysWithin(claims, s, b, false);
    }
  }

  // ---------------------------------------------------------------- what the checks let through

  /** A caller with one namespace passes the check of an open range from there on, which no namespace after
      it is safe from. */
  lemma OpenRangeEscapes(ns: Bytes, write: bool)
    requires ns != [] && SLASH !in ns && ns != ANY_NAMESPACE && NUL !in ns
    ensures var claims := Some(Claims([ns], true));
            var b := Bounds(Name(ns, [SLASH]), Name([NUL], []));
            RangeAllowed(claims, b, write) && !Within(claims, b, write)
  {
    var claims := Some(Claims([ns], true));
    WithinExact(claims, Bounds(Name(ns, [SLASH]), Name([NUL], [])), write);
  }

  /** The prefix range of a namespace is refused to a caller who has that namespace only, because it ends in
      another one; to a caller who has that one too it is allowed, and takes in the namespaces between. */
  lemma PrefixRangeEscapes(ns: Bytes, write: bool)
    requires ns != [] && SLASH !in ns && NUL !in ns && ns != ANY_NAMESPACE && ns + [SLASH + 1] != ANY_NAMESPACE
    ensures !RangeAllowed(Some(Claims([ns], true)), NamespaceBounds(ns), write)
    ensures var claims := Some(Claims([ns, ns + [SLASH + 1]], true));
            RangeAllowed(claims, NamespaceBounds(ns), write) && !Within(claims, NamespaceBounds(ns), write)
  {
    var b, next := NamespaceBounds(ns), ns + [SLASH + 1];
    var claims := Some(Claims([ns, next], true));
    WithinExact(claims, b, write);
    ParseStoreKeyInverts(b.start);
    ParseStoreKeyInverts(b.end);
    assert next[|ns|] == SLASH + 1 && (ns + Ones(1))[|ns|] == Ones(1)[0] == 1;
    var stray := Name(ns + [45], [SLASH]);
    NamespaceRangeOfBuckets(stray, ns);
    if EmptyRange(b) {
      NothingInEmptyRange(b, StoreKey(stray));
    }
  }

  // ---------------------------------------------------------------- transactions

  /** Every range of the tree, in both branches and at every depth, is within the caller's rights. */
  ghost predicate TxnWithin(claims: Option<Claims>, t: TxnInput)
    decreases t
  {
    OpsWithin(claims, t.success) && OpsWithin(claims, t.failure)
  }

  ghost predicate OpsWithin(claims: Option<Claims>, ops: seq<Op>)
    decreases ops
  {
    ops == [] || (OpWithin(claims, ops[0]) && OpsWithin(claims, ops[1..]))
  }

  ghost predicate OpWithin(claims: Option<Claims>, op: Op)
    decreases op
  {
    match op
    case RangeOp(b, _) => Within(claims, b, false)
    case PutOp(n, _) => Allowed(claims, n.ns, true) && Sayable(n)
    case DeleteOp(b, _) => Within(claims, b, true)
    case NestedOp(Some(t)) => TxnWithin(claims, t)
    case _ => true
  }

  /** Everything a response tree discloses is the caller's to read, and everything it reports as deleted the
      caller's to write. */
  ghost predicate ResultsWithin(claims: Option<Claims>, rs: seq<OpResult>)
    decreases rs
  {
    rs == [] || (ResultWithin(claims, rs[0]) && ResultsWithin(claims, rs[1..]))
  }

  ghost predicate ResultWithin(claims: Option<Claims>, r: OpResult)
    decreases r
  {
    match r
    case RangeResult(kvs, _, _) => PairsWithin(claims, kvs, false)
    case PutResult(prev, _) => prev.Some? ==> Allowed(claims, prev.value.name.ns, true)
    case DeleteResult(deleted, _) => PairsWithin(claims, deleted, true)
    case NestedResult(res) => ResultsWithin(claims, res.responses)
  }

  /** A transaction whose ranges are all within the caller's rights neither discloses, deletes nor announces
      anything outside them. */
  lemma {:induction false} TxnStaysWithin(schema: Schema, claims: Option<Claims>, s: Store, t: TxnInput)
    requires Valid(s) && Written(s) && TxnWithin(claims, t) && ExecTxn(schema, s, t).Done?
    ensures ResultsWithin(claims, ExecTxn(schema, s, t).result.responses)
    ensures EventsWithin(claims, ExecTxn(schema, s, t).events) && Written(ExecTxn(schema, s, t).store)
    decreases t
  {
    OpsStayWithin(schema, claims, s, if AllHold(s, t.compare) then t.success else t.failure);
  }

  ghost predicate EventsWithin(claims: Option<Claims>, ev: seq<Event>) {
    forall i :: 0 <= i < |ev| ==> Allowed(claims, ev[i].name.ns, true)
  }

  lemma {:induction false} OpsStayWithin(schema: Schema, claims: Option<Claims>, s: Store, ops: seq<Op>)
    requires Valid(s) && Written(s) && OpsWithin(claims, ops) && ExecOps(schema, s, ops).Done?
    ensures ResultsWithin(claims, ExecOps(schema, s, ops).result)
    ensures EventsWithin(claims, ExecOps(schema, s, ops).events) && Written(ExecOps(schema, s, ops).store)
    decreases ops
  {
    if ops != [] {
      var one := ExecOp(schema, s, ops[0]);
      OpStaysWithin(schema, claims, s, ops[0]);
      OpSound(schema, s, ops[0]);
      OpsStayWithin(schema, claims, one.store, ops[1..]);
      var rest := ExecOps(schema, one.store, ops[1..]);
      assert ([one.result] + rest.result)[1..] == rest.result;
    }
  }

  lemma {:induction false} OpStaysWithin(schema: Schema, claims: Option<Claims>, s: Store, op: Op)
    requires Valid(s) && Written(s) && OpWithin(claims, op) && ExecOp(schema, s, op).Done?
    ensures ResultWithin(claims, ExecOp(schema, s, op).result)
    ensures EventsWithin(claims, ExecOp(schema, s, op).events) && Written(ExecOp(schema, s, op).store)
    decreases op
  {
    match op
    case RangeOp(b, opts) => ReadStaysWithin(claims, s, b, opts);
    case PutOp(_, _) =>
    case DeleteOp(b, returnPrev) => WithinIsKept(claims, s, b, returnPrev);
    case NestedOp(Some(t)) => TxnStaysWithin(schema, claims, s, t);
  }

  // ---------------------------------------------------------------- what the up-front check asks

  /** The guards of a tree, at every depth. */
  function AllCompares(t: TxnInput): (cs: seq<Compare>)
    decreases t
  {
    t.compare + ComparesInside(t.success) + ComparesInside(t.failure)
  }

  function ComparesInside(ops: seq<Op>): (cs: seq<Compare>)
    decreases ops
  {
    if ops == [] then [] else ComparesOf(ops[0]) + ComparesInside(ops[1..])
  }

  function ComparesOf(op: Op): (cs: seq<Compare>)
    decreases op
  {
    match op
    case NestedOp(Some(t)) => AllCompares(t)
    case _ => []
  }

  /** Both ends, as far as there are any. */
  predicate EndsAllowed(claims: Option<Claims>, b: Bounds, write: bool) {
    Allowed(claims, b.start.ns, write) && (b.end.ns !in {[], [NUL]} ==> Allowed(claims, b.end.ns, write))
  }

  predicate MayDo(claims: Option<Claims>, op: Op) {
    match op
    case RangeOp(b, _) => EndsAllowed(claims, b, false)
    case PutOp(n, _) => Allowed(claims, n.ns, true)
    case DeleteOp(b, _) => EndsAllowed(claims, b, true)
    case NestedOp(t) => t.Some?
    case UnknownOp => false
  }

  ghost predicate MayDoAll(claims: Option<Claims>, ops: seq<Op>, cs: seq<Compare>) {
    && (forall op :: op in ops ==> MayDo(claims, op))
    && (forall c :: c in cs ==> EndsAllowed(claims, c.b, false))
  }

  /** A transaction is let through exactly when the caller may read where its guards and ranges, and write where
      its puts and deletes begin and end, in both branches and at every depth. */
  lemma {:induction false} TxnAllowedExact(claims: Option<Claims>, t: TxnInput)
    ensures TxnAllowed(claims, t) <==> MayDoAll(claims, AllOps(t), AllCompares(t))
    decreases t
  {
    OpsAllowedExact(claims, t.success);
    OpsAllowedExact(claims, t.failure);
    assert forall op :: op in AllOps(t) <==> op in Unfolded(t.success) || op in Unfolded(t.failure);
    assert forall c :: c in AllCompares(t) <==>
      c in t.compare || c in ComparesInside(t.success) || c in ComparesInside(t.failure);
    assert forall i :: 0 <= i < |t.compare| ==> t.compare[i] in t.compare;
  }

  lemma {:induction false} OpsAllowedExact(claims: Option<Claims>, ops: seq<Op>)
    ensures OpsAllowed(claims, ops) <==> MayDoAll(claims, Unfolded(ops), ComparesInside(ops))
    decreases ops
  {
    if ops != [] {
      OpAllowedExact(claims, ops[0]);
      OpsAllowedExact(claims, ops[1..]);
      assert forall op :: op in Unfolded(ops) <==> op == ops[0] || op in Inside(ops[0]) || op in Unfolded(ops[1..]);
      assert forall c :: c in ComparesInside(ops) <==> c in ComparesOf(ops[0]) || c in ComparesInside(ops[1..]);
    }
  }

  lemma {:induction false} OpAllowedExact(claims: Option<Claims>, op: Op)
    ensures OpAllowed(claims, op) <==> MayDo(claims, op) && MayDoAll(claims, Inside(op), ComparesOf(op))
    decreases op
  {
    if op.NestedOp? && op.txn.Some? {
      TxnAllowedExact(claims, op.txn.value);
    }
  }

  /** So nobody without the right to write gets a tree through that could. */
  lemma ReadersCannotWrite(claims: Claims, t: TxnInput)
    requires !claims.writer && HasWrites(t)
    ensures !TxnAllowed(Some(claims), t)
  {
    HasWritesExact(t);
    TxnAllowedExact(Some(claims), t);
    var op :| op in AllOps(t) && (op.PutOp? || op.DeleteOp?);
    assert !MayDo(Some(claims), op);
  }
}
