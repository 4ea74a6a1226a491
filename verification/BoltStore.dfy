/** The bbolt side of the key-value path, step by step: cursor scans over sorted buckets, one writable
    transaction at a time, and the collector of notifications. */
module BoltStore {
  import opened Lex
  import opened Outcome
  import opened KeyEncoding
  import opened KvStore

  // ---------------------------------------------------------------- cursor scans

  /** shouldBreakRange */
  predicate ShouldBreak(k: Bytes, b: Bounds) {
    if b.Single() then k != StoreKey(b.start)
    else !b.ScanAll() && !Less(k, StoreKey(b.end))
  }

  /** Cursor.Seek: the first position whose key is not below `key`. */
  method Seek(bucket: seq<Bytes>, key: Bytes) returns (lo: nat)
    requires Ascending(bucket)
    ensures lo <= |bucket|
    ensures forall i :: 0 <= i < lo ==> Less(bucket[i], key)
    ensures forall i :: lo <= i < |bucket| ==> AtMost(key, bucket[i])
  {
    lo := 0;
    while lo < |bucket| && Less(bucket[lo], key)
      invariant lo <= |bucket|
      invariant forall i :: 0 <= i < lo ==> Less(bucket[i], key)
    {
      lo := lo + 1;
    }
    forall i | lo <= i < |bucket|
      ensures AtMost(key, bucket[i])
    {
      if lo < i && Less(bucket[i], key) {
        LessTransitive(bucket[lo], bucket[i], key);
      }
    }
  }

  /** The keys met from a seek until the first break are exactly the keys in range: stopping early
      loses nothing. */
  lemma ScanIsRange(s: Store, b: Bounds, bucket: seq<Bytes>, lo: nat, hi: nat)
    requires Ascending(bucket) && forall k :: k in bucket <==> k in s.kvs
    requires lo <= hi <= |bucket|
    requires forall i :: 0 <= i < lo ==> Less(bucket[i], StoreKey(b.start))
    requires forall i :: lo <= i < |bucket| ==> AtMost(StoreKey(b.start), bucket[i])
    requires forall i :: lo <= i < hi ==> !ShouldBreak(bucket[i], b)
    requires hi < |bucket| ==> ShouldBreak(bucket[hi], b)
    ensures bucket[lo..hi] == RangeKeys(s, b)
  {
    forall i | 0 <= i < |bucket|
      ensures InStoreRange(bucket[i], b) <==> lo <= i < hi
    {
      if i < lo {
        LessAsymmetric(bucket[i], StoreKey(b.start));
      } else if hi <= i {
        PastTheBreak(bucket, b, hi, i);
      } else {
        LessIrreflexive(bucket[i]);
      }
    }
    var keys := bucket[lo..hi];
    forall k
      ensures k in keys <==> k in s.kvs && InStoreRange(k, b)
    {
      if k in keys {
        var i :| 0 <= i < |keys| && keys[i] == k;
        assert bucket[lo + i] == k;
      }
      if k in s.kvs && InStoreRange(k, b) {
        var i :| 0 <= i < |bucket| && bucket[i] == k;
        assert keys[i - lo] == k;
      }
    }
    assert Ascending(keys) by {
      forall i, j | 0 <= i < j < |keys| ensures Less(keys[i], keys[j]) {
        assert Less(bucket[lo + i], bucket[lo + j]);
      }
    }
    AscendingIsSorted(keys, set k | k in s.kvs && InStoreRange(k, b));
  }

  lemma PastTheBreak(bucket: seq<Bytes>, b: Bounds, hi: nat, i: nat)
    requires Ascending(bucket) && hi <= i < |bucket|
    requires AtMost(StoreKey(b.start), bucket[hi]) && ShouldBreak(bucket[hi], b)
    ensures !InStoreRange(bucket[i], b)
  {
    if hi < i {
      if b.Single() {
        LessTotal(StoreKey(b.start), bucket[hi]);
        LessTransitive(StoreKey(b.start), bucket[hi], bucket[i]);
        LessIrreflexive(StoreKey(b.start));
      } else if Less(bucket[i], StoreKey(b.end)) {
        LessTransitive(bucket[hi], bucket[i], StoreKey(b.end));
      }
    }
  }

  /** A bucket's keys as a cursor meets them. */
  method Keys(keys: set<Bytes>) returns (bucket: seq<Bytes>)
    ensures Ascending(bucket) && forall k :: k in bucket <==> k in keys
  {
    bucket := [];
    var rest := keys;
    while rest != {}
      invariant rest <= keys
      invariant Ascending(bucket) && forall k :: k in bucket <==> k in keys - rest
      invariant forall i, k :: 0 <= i < |bucket| && k in rest ==> Less(bucket[i], k)
      decreases rest
    {
      LeastExists(rest);
      var m :| m in rest && forall k :: k in rest ==> AtMost(m, k);
      forall k | k in rest - {m}
        ensures Less(m, k)
      {
        LessTotal(m, k);
      }
      bucket, rest := bucket + [m], rest - {m};
    }
  }

  // ---------------------------------------------------------------- the history bucket

  /** Seek, then step back unless the seek hit the very key: the cursor stands on the last key at or before
      it, and on none if there is none. */
  method SeekBack(bucket: seq<Bytes>, prefix: Bytes, seek: Bytes) returns (at: Option<Bytes>)
    requires Ascending(bucket) && prefix <= seek
    ensures at == Floor(Elements(bucket), seek)
  {
    var pos := Seek(bucket, seek);
    var exact := pos < |bucket| && prefix <= bucket[pos] && bucket[pos] == seek;
    if exact {
      LessIrreflexive(seek);
      assert IsFloor(Elements(bucket), seek, seek);
      FloorIs(Elements(bucket), seek, seek);
      return Some(seek);
    }
    forall i | 0 <= i < |bucket|
      ensures bucket[i] != seek
    {
      LessIrreflexive(seek);
      assert pos < i ==> Less(bucket[pos], bucket[i]);
    }
    if pos == 0 {
      NothingBefore(bucket, seek);
      return None;
    }
    JustBefore(bucket, seek, pos);
    return Some(bucket[pos - 1]);
  }

  lemma NothingBefore(bucket: seq<Bytes>, seek: Bytes)
    requires seek !in bucket && forall i :: 0 <= i < |bucket| ==> AtMost(seek, bucket[i])
    ensures Floor(Elements(bucket), seek) == None
  {
    forall x | x in bucket
      ensures !AtMost(x, seek)
    {
      LessTotal(x, seek);
    }
  }

  lemma JustBefore(bucket: seq<Bytes>, seek: Bytes, pos: nat)
    requires Ascending(bucket) && 0 < pos <= |bucket| && seek !in bucket
    requires forall i :: 0 <= i < pos ==> Less(bucket[i], seek)
    requires forall i :: pos <= i < |bucket| ==> AtMost(seek, bucket[i])
    ensures Floor(Elements(bucket), seek) == Some(bucket[pos - 1])
  {
    var f := bucket[pos - 1];
    LessAsymmetric(f, seek);
    forall x | x in Elements(bucket) && AtMost(x, seek)
      ensures AtMost(x, f)
    {
      var i :| 0 <= i < |bucket| && bucket[i] == x;
      LessTotal(x, seek);
      if i < pos - 1 {
        LessAsymmetric(x, f);
      } else if i == pos - 1 {
        LessIrreflexive(x);
      }
    }
    assert IsFloor(Elements(bucket), seek, f);
    FloorIs(Elements(bucket), seek, f);
  }

  /** lookupHistoryAtRevision. */
  method LookupHistory(log: seq<Change>, k: Bytes, revision: nat) returns (v: Option<Bytes>)
    ensures v == Recall(log, k, revision)
  {
    var history := HistoryOf(log);
    var bucket := Keys(history.Keys);
    assert Elements(bucket) == history.Keys;
    var at := SeekBack(bucket, k + [NUL], HistoryKey(k, revision));
    if at.None? || !(k + [NUL] <= at.value) { return None; }
    return Some(history[at.value]);
  }

  /** readKVValue. */
  method ReadValue(s: Store, k: Bytes, opts: RangeOpts) returns (r: Option<KVPair>)
    requires k in s.kvs
    ensures r == ReadKey(s, k, opts)
  {
    var e := s.kvs[k];
    if opts.keysOnly { return Some(KVPair(ParseStoreKey(k), [], e.createRev, e.modRev, e.version)); }
    if 0 < opts.revision < e.modRev {
      var v := LookupHistory(s.log, k, opts.revision);
      if v.None? { return None; }
      return Some(KVPair(ParseStoreKey(k), v.value, e.createRev, opts.revision, e.version));
    }
    return Some(PairOf(k, e));
  }

  // ---------------------------------------------------------------- ranges

  lemma CollectStep(s: Store, keys: seq<Bytes>, i: nat, opts: RangeOpts, got: seq<KVPair>)
    requires i < |keys| && forall k :: k in keys ==> k in s.kvs
    ensures Collect(s, keys[i..], opts, got) ==
            match ReadKey(s, keys[i], opts)
            case None => Collect(s, keys[i + 1..], opts, got)
            case Some(kv) =>
              if 0 < opts.limit <= |got| + 1 then
                RangeOut(got + [kv], HasNext(s, keys[i]))
              else Collect(s, keys[i + 1..], opts, got + [kv])
  {
    assert keys[i..][0] == keys[i] && keys[i..][1..] == keys[i + 1..];
  }

  /** The cursor loop shared by RangeQuery and collectDeleteTargets: seek, then step until a break. */
  method ScanRange(s: Store, b: Bounds) returns (bucket: seq<Bytes>, lo: nat, hi: nat)
    ensures lo <= hi <= |bucket| && bucket[lo..hi] == RangeKeys(s, b)
    ensures forall i :: lo <= i < hi ==> (HasNext(s, bucket[i]) <==> i + 1 < |bucket|)
    ensures NoRepeats(bucket[lo..hi])
  {
    bucket := Keys(s.kvs.Keys);
    lo := Seek(bucket, StoreKey(b.start));
    hi := lo;
    while hi < |bucket| && !ShouldBreak(bucket[hi], b)
      invariant lo <= hi <= |bucket|
      invariant forall i :: lo <= i < hi ==> !ShouldBreak(bucket[i], b)
    {
      hi := hi + 1;
    }
    ScanIsRange(s, b, bucket, lo, hi);
    Positions(s, bucket, lo, hi);
  }

  lemma Positions(s: Store, bucket: seq<Bytes>, lo: nat, hi: nat)
    requires Ascending(bucket) && (forall k :: k in bucket <==> k in s.kvs) && lo <= hi <= |bucket|
    ensures forall i :: lo <= i < hi ==> (HasNext(s, bucket[i]) <==> i + 1 < |bucket|)
    ensures NoRepeats(bucket[lo..hi])
  {
    forall i | lo <= i < hi
      ensures HasNext(s, bucket[i]) <==> i + 1 < |bucket|
    {
      KeyAfter(s, bucket, i);
    }
    var keys := bucket[lo..hi];
    forall i, j | 0 <= j < i < |keys|
      ensures keys[j] != keys[i]
    {
      LessAsymmetric(bucket[lo + j], bucket[lo + i]);
    }
  }

  predicate NoRepeats(s: seq<Bytes>) {
    forall i {:trigger s[..i]} :: 0 <= i < |s| ==> s[i] !in s[..i]
  }

  /** RangeQuery: the cursor loop, then one pair per visited key until the limit. */
  method ScanPairs(s: Store, b: Bounds, opts: RangeOpts) returns (out: RangeOut)
    ensures out == KvStore.RangeQuery(s, b, opts)
  {
    var bucket, lo, hi := ScanRange(s, b);
    out := CollectPairs(s, bucket[lo..hi], hi < |bucket|, opts);
  }

  method CollectPairs(s: Store, keys: seq<Bytes>, beyond: bool, opts: RangeOpts) returns (out: RangeOut)
    requires forall k :: k in keys ==> k in s.kvs
    requires forall i :: 0 <= i < |keys| ==> (HasNext(s, keys[i]) <==> i + 1 < |keys| || beyond)
    ensures out == Collect(s, keys, opts, [])
  {
    var i, got := 0, [];
    while i < |keys|
      invariant i <= |keys|
      invariant Collect(s, keys, opts, []) == Collect(s, keys[i..], opts, got)
    {
      CollectStep(s, keys, i, opts, got);
      var r := ReadValue(s, keys[i], opts);
      if r.Some? {
        got := got + [r.value];
        if 0 < opts.limit <= |got| { return RangeOut(got, i + 1 < |keys| || beyond); }
      }
      i := i + 1;
    }
    out := RangeOut(got, false);
  }

  /** collectDeleteTargets: the keys in range, or an error at the first locked one. */
  method CollectDeleteTargets(s: Store, b: Bounds) returns (r: Result<seq<Bytes>, KvError>)
    ensures r == if exists k :: k in RangeKeys(s, b) && s.kvs[k].locked then Err(KeyLocked) else Ok(RangeKeys(s, b))
    ensures r.Ok? ==> NoRepeats(r.value)
  {
    var bucket, lo, hi := ScanRange(s, b);
    var keys := bucket[lo..hi];
    var locked := AnyLocked(s, keys);
    r := if locked then Err(KeyLocked) else Ok(keys);
  }

  method AnyLocked(s: Store, keys: seq<Bytes>) returns (locked: bool)
    requires forall k :: k in keys ==> k in s.kvs
    ensures locked <==> exists k :: k in keys && s.kvs[k].locked
  {
    var i := 0;
    while i < |keys|
      invariant i <= |keys|
      invariant forall j :: 0 <= j < i ==> !s.kvs[keys[j]].locked
    {
      if s.kvs[keys[i]].locked { return true; }
      i := i + 1;
    }
    locked := false;
  }

  // ---------------------------------------------------------------- the database

  datatype Faults = Faults(begin: bool, commit: bool)

  /** bbolt behind DBManager: the committed state, and the private state of the one open writer. */
  class Db {
    var committed: Store
    var working: Store
    var open: bool

    constructor (s: Store)
      ensures committed == s && !open
    {
      committed, working, open := s, s, false;
    }

    method Begin(fault: bool) returns (ok: bool)
      requires !open
      modifies this
      ensures ok == !fault && open == ok && committed == old(committed)
      ensures ok ==> working == committed
    {
      if fault { return false; }
      working, open := committed, true;
      return true;
    }

    method Commit(fault: bool) returns (ok: bool)
      requires open
      modifies this
      ensures ok == !fault && !open
      ensures committed == if ok then old(working) else old(committed)
    {
      open := false;
      if fault { return false; }
      committed := working;
      return true;
    }

    method Rollback()
      requires open
      modifies this
      ensures !open && committed == old(committed)
    {
      open := false;
    }

    /** The state a call sees: its own transaction's, or the committed one. */
    function View(inTx: bool): (s: Store)
      reads this
    {
      if inTx then working else committed
    }

    method RangeQuery(inTx: bool, b: Bounds, opts: RangeOpts) returns (out: RangeOut)
      ensures out == KvStore.RangeQuery(View(inTx), b, opts)
    {
      out := ScanPairs(View(inTx), b, opts);
    }

    method PutKey(n: Name, value: Bytes) returns (r: Result<(Option<KVPair>, nat), KvError>)
      requires open
      modifies this
      ensures committed == old(committed) && open
      ensures match KvStore.PutKey(old(working), n, value)
              case Err(e) => r == Err(e)
              case Ok(out) => r == Ok((out.prev, out.rev)) && working == out.store
    {
      var k := StoreKey(n);
      var found := k in working.kvs;
      if n.ns in working.lockedNs { return Err(NamespaceLocked); }
      if found && working.kvs[k].locked { return Err(KeyLocked); }
      var revision := working.rev + 1;
      var version, createRev := 1, revision;
      var prev := None;
      if found {
        var e := working.kvs[k];
        version, createRev := e.version + 1, e.createRev;
        prev := Some(KVPair(n, e.value, e.createRev, e.modRev, e.version));
      }
      working := working.(rev := revision);
      working := working.(kvs := working.kvs[k := Entry(value, createRev, revision, version, false)]);
      working := working.(log := working.log + [Change(if found then Updated else Created, n, version, value)]);
      r := Ok((prev, revision));
    }

    method DeleteRangeKeys(b: Bounds, returnPrev: bool) returns (r: Result<(seq<KVPair>, nat), KvError>)
      requires open && Valid(working)
      modifies this
      ensures committed == old(committed) && open
      ensures match KvStore.DeleteRangeKeys(old(working), b, returnPrev)
              case Err(e) => r == Err(e)
              case Ok(out) => r == Ok((out.deleted, out.rev)) && working == out.store
    {
      if b.start.ns in working.lockedNs { return Err(NamespaceLocked); }
      var collected := CollectDeleteTargets(working, b);
      if collected.Err? { return Err(collected.error); }
      if collected.value == [] { return Ok(([], 0)); }
      var kvs := DeleteTargets(collected.value, returnPrev);
      r := Ok((kvs, working.rev));
    }

    /** The delete loop: one new revision, and one changelog write per key under it. */
    method DeleteTargets(targets: seq<Bytes>, returnPrev: bool) returns (kvs: seq<KVPair>)
      requires targets != [] && NoRepeats(targets) && working.rev == |working.log|
      requires forall k :: k in targets ==> k in working.kvs
      modifies this
      ensures committed == old(committed) && open == old(open)
      ensures kvs == DeletedPairs(old(working), targets, returnPrev)
      ensures var s := old(working);
              var row := Change(Deleted, ParseStoreKey(targets[|targets| - 1]), 0, []);
              working == Store(s.kvs - Elements(targets), s.rev + 1, s.log + [row], s.lockedNs)
    {
      ghost var s := working;
      ghost var pairs := DeletedPairs(s, targets, returnPrev);
      var revision := working.rev + 1;
      working := working.(rev := revision);
      var j := 0;
      kvs := [];
      assert working.kvs - Elements([]) == working.kvs;
      while j < |targets|
        invariant j <= |targets|
        invariant committed == old(committed) && open == old(open)
        invariant working == Dropped(s, targets, j)
        invariant kvs == pairs[..j]
      {
        var k := targets[j];
        DropStep(s, targets, j);
        kvs := kvs + [if returnPrev then PairOf(k, working.kvs[k]) else KVPair(ParseStoreKey(k), [], 0, 0, 0)];
        working := DropKey(working, k);
        j := j + 1;
      }
      assert targets[..|targets|] == targets;
    }
  }

  /** One key of a range delete: its entry goes, and its changelog row is written under the current
      revision, over any earlier row of that revision. */
  function DropKey(s: Store, k: Bytes): (s': Store)
    requires 1 <= s.rev <= |s.log| + 1
  {
    s.(kvs := s.kvs - {k}, log := WriteChangelog(s.log, s.rev, Change(Deleted, ParseStoreKey(k), 0, [])))
  }

  /** The store after the first j deletions of a range delete that started from s. */
  ghost function Dropped(s: Store, targets: seq<Bytes>, j: nat): (s': Store)
    requires j <= |targets|
  {
    Store(s.kvs - Elements(targets[..j]), s.rev + 1,
          if j == 0 then s.log else s.log + [Change(Deleted, ParseStoreKey(targets[j - 1]), 0, [])],
          s.lockedNs)
  }

  lemma DropStep(s: Store, targets: seq<Bytes>, j: nat)
    requires j < |targets| && NoRepeats(targets) && s.rev == |s.log| && targets[j] in s.kvs
    ensures var before := Dropped(s, targets, j); var k := targets[j];
            k in before.kvs && before.kvs[k] == s.kvs[k] && DropKey(before, k) == Dropped(s, targets, j + 1)
  {
    NextTarget(targets, j);
  }

  ghost function Elements(s: seq<Bytes>): set<Bytes> {
    set k | k in s
  }

  lemma NextTarget(s: seq<Bytes>, j: nat)
    requires NoRepeats(s) && j < |s|
    ensures s[j] !in s[..j] && Elements(s[..j + 1]) == Elements(s[..j]) + {s[j]}
  {
    assert s[..j + 1] == s[..j] + [s[j]];
  }

  /** The changelog bucket is keyed by revision: a second row of one revision replaces the first. */
  function WriteChangelog(log: seq<Change>, revision: nat, row: Change): (log': seq<Change>)
    requires 1 <= revision <= |log| + 1
    ensures |log'| >= |log| && |log'| >= revision && log'[revision - 1] == row
    ensures forall i :: 0 <= i < |log| && i != revision - 1 ==> log'[i] == log[i]
  {
    if revision <= |log| then log[revision - 1 := row] else log + [row]
  }

  lemma KeyAfter(s: Store, bucket: seq<Bytes>, i: nat)
    requires Ascending(bucket) && (forall k :: k in bucket <==> k in s.kvs) && i < |bucket|
    ensures HasNext(s, bucket[i]) <==> i + 1 < |bucket|
  {
    if i + 1 < |bucket| {
      assert bucket[i + 1] in s.kvs;
    } else {
      forall k | k in s.kvs
        ensures !Less(bucket[i], k)
      {
        var j :| 0 <= j < |bucket| && bucket[j] == k;
        if j < i {
          LessAsymmetric(bucket[j], bucket[i]);
        } else {
          LessIrreflexive(k);
        }
      }
    }
  }

  // ---------------------------------------------------------------- notifications

  /** The watcher the service notifies: here, the stream it has been given. */
  class Sink {
    var published: seq<Event>

    constructor ()
      ensures published == []
    {
      published := [];
    }

    method Notify(e: Event)
      modifies this
      ensures published == old(published) + [e]
    {
      published := published + [e];
    }
  }

  class PendingEvents {
    var notify: seq<Event>

    constructor ()
      ensures notify == []
    {
      notify := [];
    }

    method Add(e: Event)
      modifies this
      ensures notify == old(notify) + [e]
    {
      notify := notify + [e];
    }

    /** Publishes everything buffered, in order, and empties the buffer. */
    method Flush(sink: Sink)
      modifies this, sink
      ensures sink.published == old(sink.published) + old(notify)
      ensures notify == []
    {
      var i := 0;
      while i < |notify|
        invariant i <= |notify|
        invariant notify == old(notify)
        invariant sink.published == old(sink.published) + notify[..i]
      {
        sink.Notify(notify[i]);
        i := i + 1;
      }
      assert notify[..i] == notify;
      notify := [];
    }
  }
}
