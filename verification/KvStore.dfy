/** The revisioned key-value store behind the etcd API, as one value: the meta/content buckets, the
    global revision counter, the changelog and the namespace locks.

    The changelog bucket is keyed by revision, so `log[r - 1]` is the row of revision r. The history
    bucket gets one row per put, so it is a function of the log; the value it stores sits in the row. */
module KvStore {
  import opened Lex
  import opened Outcome
  import opened KeyEncoding

  datatype Entry = Entry(value: Bytes, createRev: nat, modRev: nat, version: nat, locked: bool)

  datatype Kind = Created | Updated | Deleted

  datatype Change = Change(kind: Kind, name: Name, version: nat, value: Bytes)

  datatype Store = Store(kvs: map<Bytes, Entry>, rev: nat, log: seq<Change>, lockedNs: set<Bytes>)

  datatype KVPair = KVPair(name: Name, value: Bytes, createRev: nat, modRev: nat, version: nat)

  /** A watch notification. Deletions carry no value and version 0. */
  datatype Event = Event(kind: Kind, name: Name, rev: nat, value: Bytes, createRev: nat, version: nat)

  datatype KvError =
    | SchemaRejected | NamespaceLocked | KeyLocked
    | UnknownOperation | EmptyNestedTxn
    | BeginFailed | CommitFailed

  /** One row per revision; every stored key is explained by its rows: the one that created it, the updates
      since, which its version counts, and the last of them, which wrote its value. */
  ghost predicate Valid(s: Store) {
    && s.rev == |s.log|
    && forall k {:trigger Explained(s, k, s.kvs[k])} :: k in s.kvs ==> Explained(s, k, s.kvs[k])
  }

  ghost predicate Explained(s: Store, k: Bytes, e: Entry) {
    && NUL in k
    && 1 <= e.createRev <= e.modRev <= |s.log|
    && Life(s.log, k, e)
    && Untouched(s.log, k, e.modRev)
    && var row := s.log[e.modRev - 1];
       row.kind != Deleted && StoreKey(row.name) == k && row.version == e.version && row.value == e.value
  }

  /** From its creation to its last change a key has been updated, once per version. */
  ghost predicate Life(log: seq<Change>, k: Bytes, e: Entry)
    requires 1 <= e.createRev <= e.modRev <= |log|
  {
    && log[e.createRev - 1].kind == Created && StoreKey(log[e.createRev - 1].name) == k
    && (forall i :: e.createRev <= i < e.modRev && StoreKey(log[i].name) == k ==> log[i].kind == Updated)
    && e.version == RowsAbout(log, k, e.createRev - 1, e.modRev)
  }

  /** How many rows of the revisions lo + 1 .. hi are about this key. */
  function RowsAbout(log: seq<Change>, k: Bytes, lo: nat, hi: nat): (n: nat)
    requires hi <= |log|
  {
    if hi <= lo then 0
    else RowsAbout(log, k, lo, hi - 1) + (if StoreKey(log[hi - 1].name) == k then 1 else 0)
  }

  lemma {:induction false} RowsOfPrefix(log: seq<Change>, longer: seq<Change>, k: Bytes, lo: nat, hi: nat)
    requires log <= longer && hi <= |log|
    ensures RowsAbout(longer, k, lo, hi) == RowsAbout(log, k, lo, hi)
    decreases hi
  {
    if lo < hi {
      RowsOfPrefix(log, longer, k, lo, hi - 1);
      assert longer[hi - 1] == log[hi - 1];
    }
  }

  lemma {:induction false} NoMoreRows(log: seq<Change>, k: Bytes, lo: nat, mid: nat, hi: nat)
    requires lo <= mid <= hi <= |log| && Untouched(log, k, mid)
    ensures RowsAbout(log, k, lo, hi) == RowsAbout(log, k, lo, mid)
    decreases hi
  {
    if mid < hi {
      NoMoreRows(log, k, lo, mid, hi - 1);
    }
  }

  /** No row after a revision is about this key. */
  ghost predicate Untouched(log: seq<Change>, k: Bytes, revision: nat) {
    forall i :: revision <= i < |log| ==> StoreKey(log[i].name) != k
  }

  function EmptyStore(lockedNs: set<Bytes>): (s: Store)
    ensures Valid(s)
  {
    Store(map[], 0, [], lockedNs)
  }

  // ---------------------------------------------------------------- reads

  /** The keys a range selects, in cursor order. */
  ghost function RangeKeys(s: Store, b: Bounds): (keys: seq<Bytes>)
    ensures forall k :: k in keys <==> k in s.kvs && InStoreRange(k, b)
    ensures Ascending(keys)
  {
    Sorted(set k | k in s.kvs && InStoreRange(k, b))
  }

  datatype RangeOpts = RangeOpts(limit: int, revision: int, keysOnly: bool)

  datatype RangeOut = RangeOut(kvs: seq<KVPair>, more: bool)

  const NO_OPTS := RangeOpts(0, 0, false)

  /** The history bucket the puts of a log have left. Deletions write no row and remove none. */
  function HistoryOf(log: seq<Change>): (rows: map<Bytes, Bytes>) {
    if log == [] then map[]
    else
      var before, row := HistoryOf(log[..|log| - 1]), log[|log| - 1];
      if row.kind == Deleted then before else before[HistoryKey(StoreKey(row.name), |log|) := row.value]
  }

  /** lookupHistoryAtRevision: the last row at or before the sought key, if it carries the key's prefix. */
  ghost function RecallRow(log: seq<Change>, k: Bytes, revision: nat): (h: Option<Bytes>)
    ensures h.Some? ==> h.value in HistoryOf(log)
  {
    Landing(HistoryOf(log).Keys, k + [NUL], HistoryKey(k, revision))
  }

  ghost function Recall(log: seq<Change>, k: Bytes, revision: nat): (v: Option<Bytes>) {
    match RecallRow(log, k, revision)
    case None => None
    case Some(h) => Some(HistoryOf(log)[h])
  }

  function PairOf(k: Bytes, e: Entry): (kv: KVPair) {
    KVPair(ParseStoreKey(k), e.value, e.createRev, e.modRev, e.version)
  }

  /** readKVValue: None when the key did not exist at the requested revision. */
  ghost function ReadKey(s: Store, k: Bytes, opts: RangeOpts): (r: Option<KVPair>)
    requires k in s.kvs
  {
    var e := s.kvs[k];
    var kv := PairOf(k, e);
    if opts.keysOnly then Some(kv.(value := []))
    else if 0 < opts.revision < e.modRev then
      match Recall(s.log, k, opts.revision)
      case None => None
      case Some(v) => Some(kv.(value := v, modRev := opts.revision))
    else Some(kv)
  }

  /** Some key of the bucket lies past `k`. */
  predicate HasNext(s: Store, k: Bytes) {
    exists x :: x in s.kvs && Less(k, x)
  }

  /** The scan of RangeQuery: `more` looks at the next key of the bucket, wherever it lies. */
  ghost function Collect(s: Store, keys: seq<Bytes>, opts: RangeOpts, got: seq<KVPair>): (r: RangeOut)
    requires forall k :: k in keys ==> k in s.kvs
  {
    if keys == [] then RangeOut(got, false)
    else
      match ReadKey(s, keys[0], opts)
      case None => Collect(s, keys[1..], opts, got)
      case Some(kv) =>
        if 0 < opts.limit <= |got| + 1 then
          RangeOut(got + [kv], HasNext(s, keys[0]))
        else Collect(s, keys[1..], opts, got + [kv])
  }

  ghost function RangeQuery(s: Store, b: Bounds, opts: RangeOpts): (r: RangeOut) {
    Collect(s, RangeKeys(s, b), opts, [])
  }

  predicate PutsTo(row: Change, k: Bytes) {
    row.kind != Deleted && StoreKey(row.name) == k
  }

  /** The keys a read finds something under, and what it finds. */
  ghost function HitKeys(s: Store, keys: seq<Bytes>, opts: RangeOpts): (hits: seq<Bytes>)
    requires forall k :: k in keys ==> k in s.kvs
    ensures forall k :: k in hits ==> k in keys
  {
    if keys == [] then []
    else (if ReadKey(s, keys[0], opts).Some? then [keys[0]] else []) + HitKeys(s, keys[1..], opts)
  }

  ghost function Hits(s: Store, keys: seq<Bytes>, opts: RangeOpts): (kvs: seq<KVPair>)
    requires forall k :: k in keys ==> k in s.kvs
    ensures |kvs| == |HitKeys(s, keys, opts)|
  {
    if keys == [] then []
    else
      var r := ReadKey(s, keys[0], opts);
      (if r.Some? then [r.value] else []) + Hits(s, keys[1..], opts)
  }

  lemma Shift(a: seq<KVPair>, x: KVPair, b: seq<KVPair>)
    ensures a + [x] + b == a + ([x] + b)
  {
  }

  lemma {:induction false} CollectAll(s: Store, keys: seq<Bytes>, opts: RangeOpts, got: seq<KVPair>)
    requires forall k :: k in keys ==> k in s.kvs
    requires opts.limit <= 0 || |got| + |Hits(s, keys, opts)| < opts.limit
    ensures Collect(s, keys, opts, got) == RangeOut(got + Hits(s, keys, opts), false)
    decreases keys
  {
    if keys == [] {
      assert got + [] == got;
    } else {
      var r := ReadKey(s, keys[0], opts);
      if r.Some? {
        CollectAll(s, keys[1..], opts, got + [r.value]);
        Shift(got, r.value, Hits(s, keys[1..], opts));
      } else {
        CollectAll(s, keys[1..], opts, got);
        assert [] + Hits(s, keys[1..], opts) == Hits(s, keys[1..], opts);
      }
    }
  }

  lemma {:induction false} CollectSome(s: Store, keys: seq<Bytes>, opts: RangeOpts, got: seq<KVPair>)
    requires forall k :: k in keys ==> k in s.kvs
    requires |got| < opts.limit <= |got| + |Hits(s, keys, opts)|
    ensures var n := opts.limit - |got|;
            Collect(s, keys, opts, got) ==
            RangeOut(got + Hits(s, keys, opts)[..n], HasNext(s, HitKeys(s, keys, opts)[n - 1]))
    decreases keys
  {
    var r, n := ReadKey(s, keys[0], opts), opts.limit - |got|;
    var rest := Hits(s, keys[1..], opts);
    if r.None? {
      CollectSome(s, keys[1..], opts, got);
      assert [] + rest == rest && [] + HitKeys(s, keys[1..], opts) == HitKeys(s, keys[1..], opts);
    } else if n == 1 {
      assert ([r.value] + rest)[..1] == [r.value];
    } else {
      CollectSome(s, keys[1..], opts, got + [r.value]);
      assert ([r.value] + rest)[..n] == [r.value] + rest[..n - 1];
      Shift(got, r.value, rest[..n - 1]);
    }
  }

  /** A read without a limit returns all it finds in range, in key order; with one the first of them, and
      then `more` tells whether the bucket goes on. */
  lemma RangeExact(s: Store, b: Bounds, opts: RangeOpts)
    ensures var keys, out := RangeKeys(s, b), RangeQuery(s, b, opts);
            var hits := Hits(s, keys, opts);
            if opts.limit <= 0 || |hits| < opts.limit then out == RangeOut(hits, false)
            else out == RangeOut(hits[..opts.limit], HasNext(s, HitKeys(s, keys, opts)[opts.limit - 1]))
  {
    var keys := RangeKeys(s, b);
    var hits := Hits(s, keys, opts);
    if opts.limit <= 0 || |hits| < opts.limit {
      CollectAll(s, keys, opts, []);
      assert [] + hits == hits;
    } else {
      CollectSome(s, keys, opts, []);
      assert [] + hits[..opts.limit] == hits[..opts.limit];
    }
  }

  lemma {:induction false} HitKeysAscend(s: Store, keys: seq<Bytes>, opts: RangeOpts)
    requires Ascending(keys) && forall k :: k in keys ==> k in s.kvs
    ensures Ascending(HitKeys(s, keys, opts))
    decreases keys
  {
    if keys != [] {
      var rest := HitKeys(s, keys[1..], opts);
      assert Ascending(keys[1..]) by {
        forall i, j | 0 <= i < j < |keys[1..]| ensures Less(keys[1..][i], keys[1..][j]) {
          assert Less(keys[i + 1], keys[j + 1]);
        }
      }
      HitKeysAscend(s, keys[1..], opts);
      forall j | 0 <= j < |rest|
        ensures Less(keys[0], rest[j])
      {
        assert rest[j] in keys[1..];
        var m :| 0 <= m < |keys[1..]| && keys[1..][m] == rest[j];
        assert Less(keys[0], keys[m + 1]);
      }
      FrontAscends(keys[0], rest);
      assert [] + rest == rest;
    }
  }

  lemma FrontAscends(k: Bytes, rest: seq<Bytes>)
    requires Ascending(rest) && forall j :: 0 <= j < |rest| ==> Less(k, rest[j])
    ensures Ascending([k] + rest)
  {
    var all := [k] + rest;
    forall i, j | 0 <= i < j < |all|
      ensures Less(all[i], all[j])
    {
      if i > 0 {
        assert Less(rest[i - 1], rest[j - 1]);
      } else {
        assert all[j] == rest[j - 1];
      }
    }
  }

  /** So `more` means "more to find in range" exactly unless the limit took all there was to find and the
      bucket holds keys past it. */
  lemma MoreExact(s: Store, b: Bounds, opts: RangeOpts)
    requires opts.limit > 0
    ensures var hits := HitKeys(s, RangeKeys(s, b), opts);
            (RangeQuery(s, b, opts).more <==> |hits| > opts.limit) <==>
            !(|hits| == opts.limit && HasNext(s, hits[opts.limit - 1]))
  {
    var hits := HitKeys(s, RangeKeys(s, b), opts);
    RangeExact(s, b, opts);
    HitKeysAscend(s, RangeKeys(s, b), opts);
    if |hits| > opts.limit {
      assert hits[opts.limit] in hits && Less(hits[opts.limit - 1], hits[opts.limit]);
    }
  }

  /** A current read of values finds something under every key. */
  lemma {:induction false} CurrentHits(s: Store, keys: seq<Bytes>, opts: RangeOpts)
    requires (forall k :: k in keys ==> k in s.kvs) && opts.revision <= 0 && !opts.keysOnly
    ensures HitKeys(s, keys, opts) == keys
    ensures forall i :: 0 <= i < |keys| ==> Hits(s, keys, opts)[i] == PairOf(keys[i], s.kvs[keys[i]])
    decreases keys
  {
    if keys != [] {
      CurrentHits(s, keys[1..], opts);
      assert keys == [keys[0]] + keys[1..];
    }
  }

  // ---------------------------------------------------------------- writes

  datatype PutOut = PutOut(store: Store, prev: Option<KVPair>, rev: nat)

  datatype DeleteOut = DeleteOut(store: Store, deleted: seq<KVPair>, rev: nat)

  /** putKeyTx */
  function PutKey(s: Store, n: Name, value: Bytes): (r: Result<PutOut, KvError>) {
    var k := StoreKey(n);
    if n.ns in s.lockedNs then Err(NamespaceLocked)
    else if k in s.kvs && s.kvs[k].locked then Err(KeyLocked)
    else
      var rev := s.rev + 1;
      var e := if k in s.kvs
               then Entry(value, s.kvs[k].createRev, rev, s.kvs[k].version + 1, false)
               else Entry(value, rev, rev, 1, false);
      var row := Change(if k in s.kvs then Updated else Created, n, e.version, value);
      var prev := if k in s.kvs
                  then Some(PairOf(k, s.kvs[k]).(name := n))
                  else None;
      Ok(PutOut(Store(s.kvs[k := e], rev, s.log + [row], s.lockedNs), prev, rev))
  }

  function DeletedPairs(s: Store, keys: seq<Bytes>, returnPrev: bool): (kvs: seq<KVPair>)
    requires forall k :: k in keys ==> k in s.kvs
    ensures |kvs| == |keys|
    ensures forall i :: 0 <= i < |keys| ==> kvs[i].name == ParseStoreKey(keys[i])
  {
    seq(|keys|, i requires 0 <= i < |keys| =>
      if returnPrev then PairOf(keys[i], s.kvs[keys[i]]) else KVPair(ParseStoreKey(keys[i]), [], 0, 0, 0))
  }

  /** deleteRangeKeysTx: one revision for the whole range, and revision 0 when nothing matched. Every
      deleted key writes its changelog row under that one revision, so the last key's row stays. */
  ghost function DeleteRangeKeys(s: Store, b: Bounds, returnPrev: bool): (r: Result<DeleteOut, KvError>) {
    var keys := RangeKeys(s, b);
    if b.start.ns in s.lockedNs then Err(NamespaceLocked)
    else if exists k :: k in keys && s.kvs[k].locked then Err(KeyLocked)
    else if keys == [] then Ok(DeleteOut(s, [], 0))
    else
      var row := Change(Deleted, ParseStoreKey(keys[|keys| - 1]), 0, []);
      Ok(DeleteOut(
        Store(s.kvs - (set k | k in keys), s.rev + 1, s.log + [row], s.lockedNs),
        DeletedPairs(s, keys, returnPrev),
        s.rev + 1))
  }

  // ---------------------------------------------------------------- notifications

  /** What a put announces, from what its response reports. */
  function PutEvent(n: Name, value: Bytes, prev: Option<KVPair>, rev: nat): (e: Event) {
    match prev
    case None => Event(Created, n, rev, value, rev, 1)
    case Some(p) => Event(Updated, n, rev, value, p.createRev, p.version + 1)
  }

  /** One event per deleted key, all under the revision of the range delete. */
  function DeleteEvents(deleted: seq<KVPair>, rev: nat): (ev: seq<Event>)
    ensures |ev| == |deleted|
    ensures forall i :: 0 <= i < |ev| ==> ev[i] == Event(Deleted, deleted[i].name, rev, [], 0, 0)
  {
    seq(|deleted|, i requires 0 <= i < |deleted| => Event(Deleted, deleted[i].name, rev, [], 0, 0))
  }

  function RowOf(e: Event): (c: Change) {
    Change(e.kind, e.name, e.version, e.value)
  }

  /** The changelog rows a stream of events leaves: per revision, the last event. */
  function RowsOf(ev: seq<Event>): (rows: seq<Change>) {
    if ev == [] then []
    else if |ev| > 1 && ev[1].rev == ev[0].rev then RowsOf(ev[1..])
    else [RowOf(ev[0])] + RowsOf(ev[1..])
  }

  /** A client that applies events to its own copy of the key space. */
  function Apply(m: map<Bytes, Entry>, e: Event): (m': map<Bytes, Entry>) {
    if e.kind == Deleted then m - {StoreKey(e.name)}
    else m[StoreKey(e.name) := Entry(e.value, e.createRev, e.rev, e.version, false)]
  }

  function Mirror(m: map<Bytes, Entry>, ev: seq<Event>): (m': map<Bytes, Entry>)
    decreases ev
  {
    if ev == [] then m else Mirror(Apply(m, ev[0]), ev[1..])
  }

  /** The whole account of a store change: the events rebuild the key space, the changelog grows by
      their rows, and their revisions run through exactly the new ones in order. */
  ghost predicate Accounts(s: Store, ev: seq<Event>, s': Store) {
    && Valid(s')
    && s'.lockedNs == s.lockedNs
    && s'.kvs == Mirror(s.kvs, ev)
    && s'.log == s.log + RowsOf(ev)
    && InOrder(s.rev, ev, s'.rev)
  }

  /** Revisions above `lo`, at most `hi`, never falling. */
  ghost predicate InOrder(lo: nat, ev: seq<Event>, hi: nat) {
    && lo <= hi
    && (forall i :: 0 <= i < |ev| ==> lo < ev[i].rev <= hi)
    && (forall i, j :: 0 <= i < j < |ev| ==> ev[i].rev <= ev[j].rev)
  }

  lemma InOrderConcat(lo: nat, a: seq<Event>, mid: nat, b: seq<Event>, hi: nat)
    requires InOrder(lo, a, mid) && InOrder(mid, b, hi)
    ensures InOrder(lo, a + b, hi)
  {
  }

  lemma {:induction false} MirrorConcat(m: map<Bytes, Entry>, a: seq<Event>, b: seq<Event>)
    ensures Mirror(m, a + b) == Mirror(Mirror(m, a), b)
    decreases a
  {
    if a == [] {
      assert a + b == b;
    } else {
      assert (a + b)[1..] == a[1..] + b;
      MirrorConcat(Apply(m, a[0]), a[1..], b);
    }
  }

  lemma {:induction false} RowsConcat(a: seq<Event>, b: seq<Event>)
    requires a == [] || b == [] || a[|a| - 1].rev != b[0].rev
    ensures RowsOf(a + b) == RowsOf(a) + RowsOf(b)
  {
    if a == [] {
      assert a + b == b;
    } else if b == [] {
      assert a + b == a && RowsOf(a) + [] == RowsOf(a);
    } else {
      assert (a + b)[1..] == a[1..] + b;
      RowsConcat(a[1..], b);
      if |a| == 1 {
        assert a[1..] == [];
      } else {
        assert (a + b)[1] == a[1];
      }
    }
  }

  lemma AccountsCompose(s: Store, ev1: seq<Event>, mid: Store, ev2: seq<Event>, s': Store)
    requires Valid(s) && Accounts(s, ev1, mid) && Accounts(mid, ev2, s')
    ensures Accounts(s, ev1 + ev2, s')
  {
    MirrorConcat(s.kvs, ev1, ev2);
    RowsConcat(ev1, ev2);
    assert s'.log == s.log + (RowsOf(ev1) + RowsOf(ev2));
    InOrderConcat(s.rev, ev1, mid.rev, ev2, s'.rev);
  }

  lemma NothingHappened(s: Store)
    requires Valid(s)
    ensures Accounts(s, [], s)
  {
    assert s.log + [] == s.log;
  }

  /** A put is accounted for by its one event, and leaves a valid store. */
  lemma PutAccounts(s: Store, n: Name, value: Bytes)
    requires Valid(s) && PutKey(s, n, value).Ok?
    ensures var out := PutKey(s, n, value).value;
            Accounts(s, [PutEvent(n, value, out.prev, out.rev)], out.store)
  {
    var out := PutKey(s, n, value).value;
    var e := PutEvent(n, value, out.prev, out.rev);
    assert [e][1..] == [];
    assert Mirror(s.kvs, [e]) == Mirror(Apply(s.kvs, e), []);
    assert RowsOf([e]) == [RowOf(e)];
    PutIsValid(s, n, value);
  }

  lemma PutIsValid(s: Store, n: Name, value: Bytes)
    requires Valid(s) && PutKey(s, n, value).Ok?
    ensures Valid(PutKey(s, n, value).value.store)
  {
    var s' := PutKey(s, n, value).value.store;
    ParseStoreKeyInverts(n);
    forall k | k in s'.kvs
      ensures Explained(s', k, s'.kvs[k])
    {
      if k != StoreKey(n) {
        StillExplained(s, k, s'.log);
      } else if k in s.kvs {
        OneMoreUpdate(s, k, s'.log, value);
      } else {
        assert RowsAbout(s'.log, k, |s.log|, |s.log|) == 0;
      }
    }
  }

  /** What explains a key goes on doing so when rows about others are added. */
  lemma StillExplained(s: Store, k: Bytes, log: seq<Change>)
    requires k in s.kvs && Explained(s, k, s.kvs[k]) && s.log <= log && Untouched(log, k, |s.log|)
    ensures Explained(s.(log := log), k, s.kvs[k])
  {
    var e := s.kvs[k];
    RowsOfPrefix(s.log, log, k, e.createRev - 1, e.modRev);
    forall i | e.modRev <= i < |log| ensures StoreKey(log[i].name) != k {
      assert i < |s.log| ==> log[i] == s.log[i];
    }
  }

  /** And an update is one more row of its life. */
  lemma OneMoreUpdate(s: Store, k: Bytes, log: seq<Change>, value: Bytes)
    requires k in s.kvs && Explained(s, k, s.kvs[k]) && |log| == |s.log| + 1 && s.log <= log
    requires log[|s.log|].kind == Updated && StoreKey(log[|s.log|].name) == k
    ensures Life(log, k, Entry(value, s.kvs[k].createRev, |log|, s.kvs[k].version + 1, false))
  {
    var e := s.kvs[k];
    NoMoreRows(s.log, k, e.createRev - 1, e.modRev, |s.log|);
    RowsOfPrefix(s.log, log, k, e.createRev - 1, |s.log|);
    assert log[e.createRev - 1] == s.log[e.createRev - 1];
    forall i | e.createRev <= i < |log| && StoreKey(log[i].name) == k ensures log[i].kind == Updated {
      if i < |s.log| {
        assert log[i] == s.log[i] && i < e.modRev;
      }
    }
  }

  lemma {:induction false} MirrorDeletes(m: map<Bytes, Entry>, keys: seq<Bytes>, ev: seq<Event>)
    requires |ev| == |keys|
    requires forall i :: 0 <= i < |ev| ==> ev[i].kind == Deleted && StoreKey(ev[i].name) == keys[i]
    ensures Mirror(m, ev) == m - (set k | k in keys)
    decreases keys
  {
    if keys != [] {
      MirrorDeletes(m - {keys[0]}, keys[1..], ev[1..]);
      assert (set k | k in keys) == {keys[0]} + (set k | k in keys[1..]);
    }
  }

  lemma {:induction false} RowsOfOneRevision(ev: seq<Event>, rev: nat)
    requires ev != [] && forall i :: 0 <= i < |ev| ==> ev[i].rev == rev
    ensures RowsOf(ev) == [RowOf(ev[|ev| - 1])]
  {
    if |ev| > 1 {
      RowsOfOneRevision(ev[1..], rev);
    } else {
      assert ev[1..] == [];
    }
  }

  /** A range delete is accounted for by one event per deleted key. */
  lemma DeleteAccounts(s: Store, b: Bounds, returnPrev: bool)
    requires Valid(s) && DeleteRangeKeys(s, b, returnPrev).Ok?
    ensures var out := DeleteRangeKeys(s, b, returnPrev).value;
            Accounts(s, DeleteEvents(out.deleted, out.rev), out.store)
  {
    var out := DeleteRangeKeys(s, b, returnPrev).value;
    var keys := RangeKeys(s, b);
    var ev := DeleteEvents(out.deleted, out.rev);
    if keys == [] {
      NothingHappened(s);
    } else {
      forall i | 0 <= i < |ev|
        ensures StoreKey(ev[i].name) == keys[i]
      {
        assert keys[i] in s.kvs && Explained(s, keys[i], s.kvs[keys[i]]);
        StoreKeyInverts(keys[i]);
      }
      MirrorDeletes(s.kvs, keys, ev);
      RowsOfOneRevision(ev, out.rev);
      DeleteIsValid(s, b, returnPrev);
    }
  }

  lemma DeleteIsValid(s: Store, b: Bounds, returnPrev: bool)
    requires Valid(s) && DeleteRangeKeys(s, b, returnPrev).Ok?
    ensures Valid(DeleteRangeKeys(s, b, returnPrev).value.store)
  {
    var s', keys := DeleteRangeKeys(s, b, returnPrev).value.store, RangeKeys(s, b);
    if keys != [] {
      var last := keys[|keys| - 1];
      assert last in keys && Explained(s, last, s.kvs[last]);
      StoreKeyInverts(last);
      forall k | k in s'.kvs
        ensures Explained(s', k, s'.kvs[k])
      {
        assert k !in keys;
        StillExplained(s, k, s'.log);
      }
    }
  }

  // ---------------------------------------------------------------- reading after writing

  /** A read of one key as it is now. */
  ghost function ReadNow(s: Store, n: Name): (kvs: seq<KVPair>) {
    RangeQuery(s, Bounds(n, Name([], [])), NO_OPTS).kvs
  }

  lemma ReadNowExact(s: Store, n: Name)
    ensures var k := StoreKey(n);
            if k !in s.kvs then ReadNow(s, n) == []
            else var e := s.kvs[k];
              ReadNow(s, n) == [KVPair(ParseStoreKey(k), e.value, e.createRev, e.modRev, e.version)]
  {
    SingleKeyRange(s, n);
    var keys := RangeKeys(s, Bounds(n, Name([], [])));
    RangeExact(s, Bounds(n, Name([], [])), NO_OPTS);
    CurrentHits(s, keys, NO_OPTS);
    assert StoreKey(n) in s.kvs ==> |ReadNow(s, n)| == 1;
  }

  /** A put is refused exactly on a locked namespace or a locked key. */
  lemma PutRefused(s: Store, n: Name, value: Bytes)
    ensures var r, k := PutKey(s, n, value), StoreKey(n);
            && (r == Err(NamespaceLocked) <==> n.ns in s.lockedNs)
            && (r == Err(KeyLocked) <==> n.ns !in s.lockedNs && k in s.kvs && s.kvs[k].locked)
            && (r.Err? ==> r.error in {NamespaceLocked, KeyLocked})
  {
  }

  /** A put reports what a read of the key answered before, and adds one row that says so. */
  lemma PutReports(s: Store, n: Name, value: Bytes)
    requires PutKey(s, n, value).Ok?
    ensures var out, was := PutKey(s, n, value).value, ReadNow(s, n);
            && out.rev == out.store.rev == s.rev + 1
            && (out.prev.None? <==> was == [])
            && (out.prev.Some? ==> out.prev.value.name == n)
            && (out.prev.Some? ==> was == [out.prev.value.(name := ParseStoreKey(StoreKey(n)))])
            && out.store.log ==
               s.log + [if was == [] then Change(Created, n, 1, value)
                        else Change(Updated, n, was[0].version + 1, value)]
  {
    ReadNowExact(s, n);
  }

  /** What is read after it: there, the new value with the creation and version of the old one carried on, or
      fresh ones; elsewhere, what was read before. */
  lemma PutThenRead(s: Store, n: Name, value: Bytes, m: Name)
    requires PutKey(s, n, value).Ok?
    ensures var s', was, home := PutKey(s, n, value).value.store, ReadNow(s, n), ParseStoreKey(StoreKey(n));
            && ReadNow(s', n) == [if was == [] then KVPair(home, value, s.rev + 1, s.rev + 1, 1)
                                  else KVPair(home, value, was[0].createRev, s.rev + 1, was[0].version + 1)]
            && (StoreKey(m) != StoreKey(n) ==> ReadNow(s', m) == ReadNow(s, m))
  {
    var s' := PutKey(s, n, value).value.store;
    ReadNowExact(s, n);
    ReadNowExact(s', n);
    ReadNowExact(s, m);
    ReadNowExact(s', m);
  }

  /** A range delete is refused exactly when its start namespace or a key in range is locked. */
  lemma DeleteRefused(s: Store, b: Bounds, returnPrev: bool)
    ensures var r := DeleteRangeKeys(s, b, returnPrev);
            && (r == Err(NamespaceLocked) <==> b.start.ns in s.lockedNs)
            && (r == Err(KeyLocked) <==>
                b.start.ns !in s.lockedNs && exists k :: k in s.kvs && InStoreRange(k, b) && s.kvs[k].locked)
            && (r.Err? ==> r.error in {NamespaceLocked, KeyLocked})
  {
    if k :| k in s.kvs && InStoreRange(k, b) && s.kvs[k].locked {
      assert k in RangeKeys(s, b);
    }
  }

  /** It takes one revision, or none and 0 if nothing was in range, and reports what a read of the range answers,
      or only the names. */
  lemma DeleteReports(s: Store, b: Bounds, returnPrev: bool)
    requires DeleteRangeKeys(s, b, returnPrev).Ok?
    ensures var out, was := DeleteRangeKeys(s, b, returnPrev).value, RangeQuery(s, b, NO_OPTS).kvs;
            && |out.deleted| == |was|
            && (forall i :: 0 <= i < |was| ==>
                  out.deleted[i] == if returnPrev then was[i] else KVPair(was[i].name, [], 0, 0, 0))
            && (if was == [] then out.store == s && out.rev == 0 else out.rev == out.store.rev == s.rev + 1)
  {
    CurrentRange(s, b);
    var keys, was := RangeKeys(s, b), RangeQuery(s, b, NO_OPTS).kvs;
    forall i | 0 <= i < |was| ensures was[i].name == ParseStoreKey(keys[i]) {
    }
  }

  /** A current read lists the pairs of the range, and nothing comes after them. */
  lemma CurrentRange(s: Store, b: Bounds)
    ensures var keys, out := RangeKeys(s, b), RangeQuery(s, b, NO_OPTS);
            && |out.kvs| == |keys| && !out.more
            && forall i :: 0 <= i < |keys| ==> out.kvs[i] == PairOf(keys[i], s.kvs[keys[i]])
  {
    RangeExact(s, b, NO_OPTS);
    CurrentHits(s, RangeKeys(s, b), NO_OPTS);
  }

  /** What is read afterwards is what was read before, the range apart. */
  lemma DeleteThenRead(s: Store, b: Bounds, returnPrev: bool, m: Name)
    requires DeleteRangeKeys(s, b, returnPrev).Ok?
    ensures ReadNow(DeleteRangeKeys(s, b, returnPrev).value.store, m) ==
            if InStoreRange(StoreKey(m), b) then [] else ReadNow(s, m)
  {
    var s', k := DeleteRangeKeys(s, b, returnPrev).value.store, StoreKey(m);
    assert k in s.kvs && InStoreRange(k, b) <==> k in RangeKeys(s, b);
    ReadNowExact(s, m);
    ReadNowExact(s', m);
  }

  /** A read of keys only finds every key of the range and shows all but the values, whatever the revision. */
  lemma {:induction false} KeysOnlyHits(s: Store, keys: seq<Bytes>, opts: RangeOpts)
    requires (forall k :: k in keys ==> k in s.kvs) && opts.keysOnly
    ensures HitKeys(s, keys, opts) == keys && |Hits(s, keys, NO_OPTS)| == |keys|
    ensures forall i :: 0 <= i < |keys| ==> Hits(s, keys, opts)[i] == Hits(s, keys, NO_OPTS)[i].(value := [])
    decreases keys
  {
    CurrentHits(s, keys, NO_OPTS);
    if keys != [] {
      KeysOnlyHits(s, keys[1..], opts);
      assert keys == [keys[0]] + keys[1..];
    }
  }

  lemma KeysOnlyExact(s: Store, b: Bounds, revision: int)
    ensures var plain, bare := RangeQuery(s, b, NO_OPTS), RangeQuery(s, b, RangeOpts(0, revision, true));
            && |bare.kvs| == |plain.kvs| && bare.more == plain.more
            && forall i :: 0 <= i < |bare.kvs| ==> bare.kvs[i] == plain.kvs[i].(value := [])
  {
    RangeExact(s, b, NO_OPTS);
    RangeExact(s, b, RangeOpts(0, revision, true));
    KeysOnlyHits(s, RangeKeys(s, b), RangeOpts(0, revision, true));
  }

  /** Without a range delete that hit several keys, the changelog rows are the events themselves. */
  lemma {:induction false} RowsAreEvents(ev: seq<Event>)
    requires forall i, j :: 0 <= i < j < |ev| ==> ev[i].rev < ev[j].rev
    ensures |RowsOf(ev)| == |ev| && forall i :: 0 <= i < |ev| ==> RowsOf(ev)[i] == RowOf(ev[i])
  {
    if ev != [] {
      RowsAreEvents(ev[1..]);
    }
  }

  /** And with one it is not: each deleted key but the last of its revision has no row. */
  lemma {:induction false} RowsLoseEvents(ev: seq<Event>)
    requires forall i, j :: 0 <= i < j < |ev| ==> ev[i].rev <= ev[j].rev
    ensures |RowsOf(ev)| <= |ev|
    ensures |RowsOf(ev)| == |ev| <==> forall i, j :: 0 <= i < j < |ev| ==> ev[i].rev < ev[j].rev
  {
    if ev != [] {
      var rest := ev[1..];
      RowsLoseEvents(rest);
      if |ev| > 1 && ev[1].rev == ev[0].rev {
        assert !(ev[0].rev < ev[1].rev);
      } else if forall i, j :: 0 <= i < j < |rest| ==> rest[i].rev < rest[j].rev {
        forall i, j | 0 <= i < j < |ev|
          ensures ev[i].rev < ev[j].rev
        {
          assert ev[j] == rest[j - 1];
          if i == 0 {
            assert ev[1].rev <= ev[j].rev;
          } else {
            assert ev[i] == rest[i - 1];
          }
        }
      } else {
        var i, j :| 0 <= i < j < |rest| && !(rest[i].rev < rest[j].rev);
        assert !(ev[i + 1].rev < ev[j + 1].rev);
      }
    }
  }

  // ---------------------------------------------------------------- guards

  datatype Target = TargetVersion | TargetCreateRevision | TargetModRevision | TargetValue | TargetUnknown

  datatype Relation = Equal | NotEqual | Greater | Lesser | RelationUnknown

  datatype Compare = Compare(b: Bounds, target: Target, relation: Relation, wantRev: int, wantValue: Bytes)

  predicate CompareInt(op: Relation, got: int, want: int) {
    match op
    case Equal => got == want
    case NotEqual => got != want
    case Greater => got > want
    case Lesser => got < want
    case RelationUnknown => false
  }

  predicate CompareBytes(op: Relation, got: Bytes, want: Bytes) {
    match op
    case Equal => got == want
    case NotEqual => got != want
    case Greater => Less(want, got)
    case Lesser => Less(got, want)
    case RelationUnknown => false
  }

  /** Absence compares as revision 0, version 0 and the empty value. */
  predicate CompareKV(c: Compare, kv: Option<KVPair>) {
    var p := if kv.Some? then kv.value else KVPair(Name([], []), [], 0, 0, 0);
    match c.target
    case TargetVersion => CompareInt(c.relation, p.version, c.wantRev)
    case TargetCreateRevision => CompareInt(c.relation, p.createRev, c.wantRev)
    case TargetModRevision => CompareInt(c.relation, p.modRev, c.wantRev)
    case TargetValue => CompareBytes(c.relation, p.value, c.wantValue)
    case TargetUnknown => false
  }

  /** A guard holds when it holds of every pair in its range, or of absence when there is none. */
  ghost predicate Holds(s: Store, c: Compare) {
    var kvs := RangeQuery(s, c.b, NO_OPTS).kvs;
    if kvs == [] then CompareKV(c, None)
    else forall i :: 0 <= i < |kvs| ==> CompareKV(c, Some(kvs[i]))
  }

  ghost predicate AllHold(s: Store, cs: seq<Compare>) {
    forall i :: 0 <= i < |cs| ==> Holds(s, cs[i])
  }

  /** etcd's "create if absent" guard on one key. */
  function AbsentGuard(n: Name): (c: Compare) {
    Compare(Bounds(n, Name([], [])), TargetCreateRevision, Equal, 0, [])
  }

  lemma SingleKeyRange(s: Store, n: Name)
    ensures var keys := RangeKeys(s, Bounds(n, Name([], [])));
            keys == if StoreKey(n) in s.kvs then [StoreKey(n)] else []
  {
    var k := StoreKey(n);
    var hit := set x | x in s.kvs && InStoreRange(x, Bounds(n, Name([], [])));
    if k in s.kvs {
      AscendingIsSorted([k], hit);
    } else {
      AscendingIsSorted([], hit);
    }
  }

  /** Such as any limited read of one key that is not the last of the bucket. */
  lemma OneKeyReportsMore(s: Store, n: Name, next: Bytes)
    requires StoreKey(n) in s.kvs && next in s.kvs && Less(StoreKey(n), next)
    ensures var b := Bounds(n, Name([], []));
            RangeKeys(s, b) == [StoreKey(n)] && RangeQuery(s, b, RangeOpts(1, 0, false)).more
  {
    SingleKeyRange(s, n);
    CurrentHits(s, [StoreKey(n)], RangeOpts(1, 0, false));
    RangeExact(s, Bounds(n, Name([], [])), RangeOpts(1, 0, false));
  }

  /** A guard over a range speaks of every stored key in it, or of absence if there is none. */
  lemma RangeGuardExact(s: Store, c: Compare)
    ensures var keys := RangeKeys(s, c.b);
            Holds(s, c) <==>
            if keys == [] then CompareKV(c, None)
            else forall i :: 0 <= i < |keys| ==> CompareKV(c, Some(PairOf(keys[i], s.kvs[keys[i]])))
  {
    RangeExact(s, c.b, NO_OPTS);
    CurrentHits(s, RangeKeys(s, c.b), NO_OPTS);
  }

  function OnKey(n: Name, target: Target, relation: Relation, wantRev: int, wantValue: Bytes): (c: Compare) {
    Compare(Bounds(n, Name([], [])), target, relation, wantRev, wantValue)
  }

  lemma KeyGuardExact(s: Store, n: Name, target: Target, relation: Relation, wantRev: int, wantValue: Bytes)
    ensures var c, k := OnKey(n, target, relation, wantRev, wantValue), StoreKey(n);
            Holds(s, c) <==> CompareKV(c, if k in s.kvs then Some(PairOf(k, s.kvs[k])) else None)
  {
    var c := OnKey(n, target, relation, wantRev, wantValue);
    SingleKeyRange(s, n);
    RangeGuardExact(s, c);
    var keys := RangeKeys(s, c.b);
    assert keys != [] ==> keys[0] == StoreKey(n);
  }

  /** What a key's guards compare: its numbers, 0 where there is no key. */
  function Numbers(s: Store, n: Name): (e: Entry) {
    if StoreKey(n) in s.kvs then s.kvs[StoreKey(n)] else Entry([], 0, 0, 0, false)
  }

  /** Each guard on a number holds exactly when that number of the stored key is so related to the wanted one. */
  lemma NumberGuardsExact(s: Store, n: Name, want: int)
    ensures var e := Numbers(s, n);
            && (Holds(s, OnKey(n, TargetVersion, Equal, want, [])) <==> e.version == want)
            && (Holds(s, OnKey(n, TargetVersion, NotEqual, want, [])) <==> e.version != want)
            && (Holds(s, OnKey(n, TargetVersion, Greater, want, [])) <==> e.version > want)
            && (Holds(s, OnKey(n, TargetVersion, Lesser, want, [])) <==> e.version < want)
            && (Holds(s, OnKey(n, TargetCreateRevision, Equal, want, [])) <==> e.createRev == want)
            && (Holds(s, OnKey(n, TargetCreateRevision, NotEqual, want, [])) <==> e.createRev != want)
            && (Holds(s, OnKey(n, TargetCreateRevision, Greater, want, [])) <==> e.createRev > want)
            && (Holds(s, OnKey(n, TargetCreateRevision, Lesser, want, [])) <==> e.createRev < want)
            && (Holds(s, OnKey(n, TargetModRevision, Equal, want, [])) <==> e.modRev == want)
            && (Holds(s, OnKey(n, TargetModRevision, NotEqual, want, [])) <==> e.modRev != want)
            && (Holds(s, OnKey(n, TargetModRevision, Greater, want, [])) <==> e.modRev > want)
            && (Holds(s, OnKey(n, TargetModRevision, Lesser, want, [])) <==> e.modRev < want)
  {
    forall target, relation | target in {TargetVersion, TargetCreateRevision, TargetModRevision}
      ensures Holds(s, OnKey(n, target, relation, want, [])) <==>
              CompareKV(OnKey(n, target, relation, want, []), KeptUnder(s, n))
    {
      KeyGuardExact(s, n, target, relation, want, []);
    }
  }

  function KeptUnder(s: Store, n: Name): (kv: Option<KVPair>) {
    if StoreKey(n) in s.kvs then Some(PairOf(StoreKey(n), s.kvs[StoreKey(n)])) else None
  }

  /** A guard of an unknown kind never holds. */
  lemma UnknownGuardFails(s: Store, c: Compare)
    requires c.target == TargetUnknown || c.relation == RelationUnknown
    ensures !Holds(s, c)
  {
    var kvs := RangeQuery(s, c.b, NO_OPTS).kvs;
    assert kvs != [] ==> !CompareKV(c, Some(kvs[0]));
  }

  /** A guard over a range is that guard on each stored key of it, or, if there is none, on a key that is not
      there. */
  lemma RangeGuardIsEach(s: Store, c: Compare, absent: Name)
    requires Valid(s) && StoreKey(absent) !in s.kvs
    ensures Holds(s, c) <==>
            if forall k :: k in s.kvs ==> !InStoreRange(k, c.b) then Holds(s, c.(b := Bounds(absent, Name([], []))))
            else forall k :: k in s.kvs && InStoreRange(k, c.b) ==> Holds(s, OnStored(c, k))
  {
    var keys := RangeKeys(s, c.b);
    RangeGuardExact(s, c);
    KeyGuardExact(s, absent, c.target, c.relation, c.wantRev, c.wantValue);
    forall k | k in s.kvs && InStoreRange(k, c.b)
      ensures k in keys && (Holds(s, OnStored(c, k)) <==> CompareKV(c, Some(PairOf(k, s.kvs[k]))))
    {
      StoredGuardExact(s, c, k);
    }
    assert keys == [] <==> forall k :: k in s.kvs ==> !InStoreRange(k, c.b) by {
      assert keys != [] ==> keys[0] in keys;
    }
    assert forall i :: 0 <= i < |keys| ==> keys[i] in keys;
  }

  /** The guard on one stored key. */
  function OnStored(c: Compare, k: Bytes): (c': Compare) {
    c.(b := Bounds(ParseStoreKey(k), Name([], [])))
  }

  lemma StoredGuardExact(s: Store, c: Compare, k: Bytes)
    requires Valid(s) && k in s.kvs
    ensures Holds(s, OnStored(c, k)) <==> CompareKV(c, Some(PairOf(k, s.kvs[k])))
  {
    assert Explained(s, k, s.kvs[k]);
    StoreKeyInverts(k);
    KeyGuardExact(s, ParseStoreKey(k), c.target, c.relation, c.wantRev, c.wantValue);
  }

  /** The guard holds exactly when the key is absent. */
  lemma AbsentGuardExact(s: Store, n: Name)
    requires Valid(s)
    ensures Holds(s, AbsentGuard(n)) <==> StoreKey(n) !in s.kvs
  {
    KeyGuardExact(s, n, TargetCreateRevision, Equal, 0, []);
    var k := StoreKey(n);
    assert k in s.kvs ==> Explained(s, k, s.kvs[k]);
  }

  /** The two usual ways to ask that a key exist. */
  lemma PresentGuardExact(s: Store, n: Name)
    requires Valid(s)
    ensures Holds(s, OnKey(n, TargetVersion, Greater, 0, [])) <==> StoreKey(n) in s.kvs
    ensures Holds(s, OnKey(n, TargetCreateRevision, NotEqual, 0, [])) <==> StoreKey(n) in s.kvs
  {
    KeyGuardExact(s, n, TargetVersion, Greater, 0, []);
    KeyGuardExact(s, n, TargetCreateRevision, NotEqual, 0, []);
    var k := StoreKey(n);
    assert k in s.kvs ==> Explained(s, k, s.kvs[k]);
  }

  /** etcd's optimistic-lock guard on one key. */
  function UnchangedGuard(n: Name, revision: nat): (c: Compare) {
    OnKey(n, TargetModRevision, Equal, revision, [])
  }

  /** It holds exactly when that revision was the key's last: the changelog row of the revision put the
      value the key has, and no later row is about the key. */
  lemma UnchangedGuardExact(s: Store, n: Name, revision: nat)
    requires Valid(s) && revision > 0
    ensures Holds(s, UnchangedGuard(n, revision)) <==> StoreKey(n) in s.kvs && s.kvs[StoreKey(n)].modRev == revision
    ensures Holds(s, UnchangedGuard(n, revision)) ==>
      && revision <= |s.log| && PutsTo(s.log[revision - 1], StoreKey(n))
      && s.log[revision - 1].value == s.kvs[StoreKey(n)].value
      && Untouched(s.log, StoreKey(n), revision)
  {
    KeyGuardExact(s, n, TargetModRevision, Equal, revision, []);
    var k := StoreKey(n);
    assert k in s.kvs ==> Explained(s, k, s.kvs[k]);
  }

  /** And the half-open forms bound the last change from either side, absence counting as revision 0. */
  lemma ModifiedGuardsExact(s: Store, n: Name, revision: nat)
    requires Valid(s)
    ensures Holds(s, OnKey(n, TargetModRevision, Greater, revision, [])) <==>
            StoreKey(n) in s.kvs && revision < s.kvs[StoreKey(n)].modRev
    ensures Holds(s, OnKey(n, TargetModRevision, Lesser, revision + 1, [])) <==>
            !Holds(s, OnKey(n, TargetModRevision, Greater, revision, []))
  {
    KeyGuardExact(s, n, TargetModRevision, Greater, revision, []);
    KeyGuardExact(s, n, TargetModRevision, Lesser, revision + 1, []);
    var k := StoreKey(n);
    assert k in s.kvs ==> Explained(s, k, s.kvs[k]);
  }

  /** A value guard compares the stored value, absence counting as empty; of equal, greater and less
      exactly one holds, and less is the order buckets are sorted by. */
  lemma ValueGuardsExact(s: Store, n: Name, want: Bytes)
    ensures var got := if StoreKey(n) in s.kvs then s.kvs[StoreKey(n)].value else [];
            && (Holds(s, OnKey(n, TargetValue, Equal, 0, want)) <==> got == want)
            && (Holds(s, OnKey(n, TargetValue, NotEqual, 0, want)) <==> got != want)
            && (Holds(s, OnKey(n, TargetValue, Lesser, 0, want)) <==> Less(got, want))
            && (Holds(s, OnKey(n, TargetValue, Greater, 0, want)) <==> got != want && !Less(got, want))
  {
    KeyGuardExact(s, n, TargetValue, Equal, 0, want);
    KeyGuardExact(s, n, TargetValue, NotEqual, 0, want);
    KeyGuardExact(s, n, TargetValue, Lesser, 0, want);
    KeyGuardExact(s, n, TargetValue, Greater, 0, want);
    var got := if StoreKey(n) in s.kvs then s.kvs[StoreKey(n)].value else [];
    LessTotal(got, want);
    LessIrreflexive(want);
    if Less(got, want) {
      LessAsymmetric(got, want);
    }
  }
}
