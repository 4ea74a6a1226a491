/** Reads at a past revision: what the history cursor finds, against what was written. */
module History {
  import opened Lex
  import opened Outcome
  import opened KeyEncoding
  import opened KvStore

  // ---------------------------------------------------------------- the specification side

  /** Row i is the last put to a key at or before a revision. */
  predicate NewestPut(log: seq<Change>, k: Bytes, revision: nat, i: int) {
    && 0 <= i < |log| && i < revision && PutsTo(log[i], k)
    && forall j :: i < j < |log| && j < revision ==> !PutsTo(log[j], k)
  }

  ghost function NewestOwn(log: seq<Change>, k: Bytes, revision: nat): (r: Option<nat>)
    ensures r.Some? ==> NewestPut(log, k, revision, r.value)
    ensures r.None? ==> forall i :: !NewestPut(log, k, revision, i)
  {
    if exists i :: NewestPut(log, k, revision, i) then
      var i: nat :| NewestPut(log, k, revision, i);
      Some(i)
    else None
  }

  /** It is missing only if nothing was put to the key by then. */
  lemma NewestExists(log: seq<Change>, k: Bytes, revision: nat, i: nat)
    requires i < |log| && i < revision && PutsTo(log[i], k)
    ensures NewestOwn(log, k, revision).Some? && i <= NewestOwn(log, k, revision).value
  {
    var last := i;
    var j := i;
    while j < |log| && j < revision
      invariant i <= last <= j <= |log| && last < |log| && last < revision && PutsTo(log[last], k)
      invariant forall m :: last < m < j ==> !PutsTo(log[m], k)
    {
      if PutsTo(log[j], k) {
        last := j;
      }
      j := j + 1;
    }
    assert NewestPut(log, k, revision, last);
  }

  // ---------------------------------------------------------------- the bucket and the log

  /** Every put has its row in the bucket, under its own key and revision. */
  lemma {:induction false} RowInHistory(log: seq<Change>, i: nat)
    requires i < |log| < REVISION_LIMIT && log[i].kind != Deleted
    ensures var h := HistoryKey(StoreKey(log[i].name), i + 1);
            h in HistoryOf(log) && HistoryOf(log)[h] == log[i].value
    decreases |log|
  {
    if i < |log| - 1 {
      var last := log[|log| - 1];
      RowInHistory(log[..|log| - 1], i);
      var h, h' := HistoryKey(StoreKey(log[i].name), i + 1), HistoryKey(StoreKey(last.name), |log|);
      if h == h' {
        HistoryKeyInjective(StoreKey(log[i].name), i + 1, StoreKey(last.name), |log|);
      }
    }
  }

  /** And every row of the bucket comes from a put. */
  lemma {:induction false} FromRow(log: seq<Change>, h: Bytes) returns (i: nat)
    requires h in HistoryOf(log)
    ensures i < |log| && log[i].kind != Deleted && h == HistoryKey(StoreKey(log[i].name), i + 1)
    decreases |log|
  {
    var last := log[|log| - 1];
    if last.kind != Deleted && h == HistoryKey(StoreKey(last.name), |log|) {
      i := |log| - 1;
    } else {
      i := FromRow(log[..|log| - 1], h);
    }
  }

  // ---------------------------------------------------------------- what the cursor finds

  ghost function OwnRow(log: seq<Change>, k: Bytes, revision: nat): (h: Option<Bytes>) {
    match NewestOwn(log, k, revision)
    case None => None
    case Some(i) => Some(HistoryKey(k, i + 1))
  }

  /** No row that carries the key's prefix comes between the key's own newest row, if any, and the sought
      one. */
  ghost predicate NoStray(rows: set<Bytes>, k: Bytes, revision: nat, own: Option<Bytes>) {
    forall h :: h in rows ==> !Intrudes(k + [NUL], HistoryKey(k, revision), own, h)
  }

  /** Row i of the log stands in the bucket, at or before the sought key. */
  predicate Standing(log: seq<Change>, k: Bytes, revision: nat, i: nat)
    requires i < |log|
  {
    var h := HistoryKey(k, i + 1);
    h in HistoryOf(log) && HistoryOf(log)[h] == log[i].value && AtMost(h, HistoryKey(k, revision))
  }

  lemma OwnRowStands(log: seq<Change>, k: Bytes, revision: nat)
    requires |log| < REVISION_LIMIT && revision < REVISION_LIMIT
    ensures var newest := NewestOwn(log, k, revision);
            newest.Some? ==> Standing(log, k, revision, newest.value)
  {
    var newest := NewestOwn(log, k, revision);
    if newest.Some? {
      PutRowStands(log, k, revision, newest.value);
    }
  }

  lemma PutRowStands(log: seq<Change>, k: Bytes, revision: nat, i: nat)
    requires |log| < REVISION_LIMIT && revision < REVISION_LIMIT && i < |log| && i < revision && PutsTo(log[i], k)
    ensures Standing(log, k, revision, i)
  {
    RowInHistory(log, i);
    HistoryKeyOrder(k, revision, i + 1);
  }

  lemma OwnRowFits(log: seq<Change>, k: Bytes, revision: nat)
    requires |log| < REVISION_LIMIT && revision < REVISION_LIMIT
    ensures var own := OwnRow(log, k, revision);
            own.Some? ==>
              own.value in HistoryOf(log).Keys && AtMost(own.value, HistoryKey(k, revision)) && k + [NUL] <= own.value
  {
    OwnRowStands(log, k, revision);
  }

  lemma CursorExact(rows: set<Bytes>, k: Bytes, revision: nat, own: Option<Bytes>)
    requires own.Some? ==>
      own.value in rows && AtMost(own.value, HistoryKey(k, revision)) && k + [NUL] <= own.value
    ensures Landing(rows, k + [NUL], HistoryKey(k, revision)) == own <==> NoStray(rows, k, revision, own)
  {
    LandingExact(rows, k + [NUL], HistoryKey(k, revision), own);
  }

  /** The cursor finds the key's own newest row if and only if no other row falls in between. */
  lemma RecallExact(log: seq<Change>, k: Bytes, revision: nat)
    requires |log| < REVISION_LIMIT && revision < REVISION_LIMIT
    ensures RecallRow(log, k, revision) == OwnRow(log, k, revision) <==>
            NoStray(HistoryOf(log).Keys, k, revision, OwnRow(log, k, revision))
  {
    OwnRowFits(log, k, revision);
    CursorExact(HistoryOf(log).Keys, k, revision, OwnRow(log, k, revision));
  }

  /** Then a read at a revision answers with the newest value written at or before it. */
  lemma RecallIsNewest(log: seq<Change>, k: Bytes, revision: nat)
    requires |log| < REVISION_LIMIT && revision < REVISION_LIMIT
    requires NoStray(HistoryOf(log).Keys, k, revision, OwnRow(log, k, revision))
    ensures var newest := NewestOwn(log, k, revision);
            Recall(log, k, revision) == if newest.None? then None else Some(log[newest.value].value)
  {
    OwnRowStands(log, k, revision);
    RecallExact(log, k, revision);
  }

  predicate NulFree(n: Name) {
    NUL !in n.ns && NUL !in n.path
  }

  /** As long as no namespace or path holds a NUL there is no such row. */
  lemma NoStrayAmongPlainPaths(log: seq<Change>, n: Name, revision: nat)
    requires |log| < REVISION_LIMIT && revision < REVISION_LIMIT && NulFree(n)
    requires forall i :: 0 <= i < |log| ==> NulFree(log[i].name)
    ensures NoStray(HistoryOf(log).Keys, StoreKey(n), revision, OwnRow(log, StoreKey(n), revision))
  {
    var k, own := StoreKey(n), OwnRow(log, StoreKey(n), revision);
    forall h | h in HistoryOf(log).Keys
      ensures !Intrudes(k + [NUL], HistoryKey(k, revision), own, h)
    {
      var i := FromRow(log, h);
      if k + [NUL] <= h {
        OnlyOwnPrefix(n, log[i].name, i + 1);
        OwnRowsAreNoStrays(log, k, revision, i);
      }
    }
  }

  lemma OwnRowsAreNoStrays(log: seq<Change>, k: Bytes, revision: nat, i: nat)
    requires i < |log| < REVISION_LIMIT && revision < REVISION_LIMIT && PutsTo(log[i], k)
    ensures !Intrudes(k + [NUL], HistoryKey(k, revision), OwnRow(log, k, revision), HistoryKey(k, i + 1))
  {
    HistoryKeyOrder(k, revision, i + 1);
    if i < revision {
      NewestExists(log, k, revision, i);
      HistoryKeyOrder(k, NewestOwn(log, k, revision).value + 1, i + 1);
    }
  }

  lemma OnlyOwnPrefix(n: Name, other: Name, revision: nat)
    requires NulFree(n) && NulFree(other) && StoreKey(n) + [NUL] <= HistoryKey(StoreKey(other), revision)
    ensures n == other
  {
    PlainPrefixPins(n, other, RevisionBytes(revision));
  }

  lemma PlainPrefixPins(n: Name, other: Name, tail: Bytes)
    requires NulFree(n) && NulFree(other) && StoreKey(n) + [NUL] <= StoreKey(other) + [NUL] + tail
    ensures n == other
  {
    var rest := other.path + [NUL] + tail;
    assert StoreKey(other) + [NUL] + tail == other.ns + [NUL] + rest;
    assert StoreKey(n) + [NUL] == n.ns + [NUL] + (n.path + [NUL]);
    assert n.ns + [NUL] <= other.ns + [NUL] + rest;
    SeparatorPinsNamespace(n.ns, NUL, other.ns, rest);
    var m := |n.ns| + 1;
    assert (n.ns + [NUL] + (n.path + [NUL]))[m..] == n.path + [NUL] && (other.ns + [NUL] + rest)[m..] == rest;
    assert n.path + [NUL] <= rest;
    SeparatorPinsNamespace(n.path, NUL, other.path, tail);
  }

  /** But with a path that extends another by a NUL, a read of the shorter answers with the longer's value,
      at a revision at which the shorter did not exist. */
  lemma AnotherPathsValue(ns: Bytes, path: Bytes, x: Bytes, y: Bytes)
    ensures var n := Name(ns, path);
            var log := [Change(Created, Name(ns, path + [NUL]), 1, x), Change(Created, n, 1, y)];
            NewestOwn(log, StoreKey(n), 1) == None && Recall(log, StoreKey(n), 1) == Some(x)
  {
    var n, longer := Name(ns, path), Name(ns, path + [NUL]);
    var log := [Change(Created, longer, 1, x), Change(Created, n, 1, y)];
    var k, p := StoreKey(n), StoreKey(n) + [NUL];
    assert log[..1] == [log[0]] && [log[0]][..0] == [];
    assert StoreKey(longer) == p && |p| != |k|;
    assert !PutsTo(log[0], k);
    var h, seek, later := HistoryKey(p, 1), HistoryKey(k, 1), HistoryKey(k, 2);
    assert HistoryOf([log[0]]) == map[h := x];
    assert HistoryOf(log) == map[h := x][later := y];
    LongerComesFirst(k);
    HistoryKeyOrder(k, 1, 2);
    LessAsymmetric(h, seek);
    LessIrreflexive(h);
    assert IsFloor(HistoryOf(log).Keys, seek, h);
    FloorIs(HistoryOf(log).Keys, seek, h);
  }

  lemma LongerComesFirst(k: Bytes)
    ensures Less(HistoryKey(k + [NUL], 1), HistoryKey(k, 1)) && k + [NUL] <= HistoryKey(k + [NUL], 1)
    ensures HistoryKey(k + [NUL], 1) != HistoryKey(k, 2)
  {
    var p, one := k + [NUL], RevisionBytes(1);
    assert one == BigEndian(1, 8);
    assert HistoryKey(p, 1) == p + ([NUL] + one) && HistoryKey(k, 1) == p + one;
    LessUnderPrefix(p, [NUL] + one, one);
    assert one == [0, 0, 0, 0, 0, 0, 0] + [1];
    assert [NUL] + one == [0, 0, 0, 0, 0, 0, 0] + [0] + [1];
    LessAtDifference([0, 0, 0, 0, 0, 0, 0], 0, [1], 1, []);
    assert [0, 0, 0, 0, 0, 0, 0] + [1] + [] == one;
  }

  // ---------------------------------------------------------------- reads at a revision

  ghost function ReadAt(s: Store, n: Name, revision: nat): (kvs: seq<KVPair>) {
    RangeQuery(s, Bounds(n, Name([], [])), RangeOpts(0, revision, false)).kvs
  }

  /** No row of another key gets in the way of this read. */
  ghost predicate Undisturbed(s: Store, n: Name, revision: nat) {
    && |s.log| < REVISION_LIMIT && 0 < revision < REVISION_LIMIT
    && NoStray(HistoryOf(s.log).Keys, StoreKey(n), revision, OwnRow(s.log, StoreKey(n), revision))
  }

  /** A key that is there now is read as it is now if it was last changed by then, and otherwise with the newest
      value written by then, under the asked revision, the creation and version of now beside it; if none was, or
      the key is gone, nothing is read. */
  lemma ReadAtExact(s: Store, n: Name, revision: nat)
    requires Undisturbed(s, n, revision)
    ensures var k, newest := StoreKey(n), NewestOwn(s.log, StoreKey(n), revision);
            ReadAt(s, n, revision) ==
              if k !in s.kvs then []
              else if s.kvs[k].modRev <= revision then ReadNow(s, n)
              else if newest.None? then []
              else [KVPair(ParseStoreKey(k), s.log[newest.value].value, s.kvs[k].createRev, revision, s.kvs[k].version)]
  {
    var k, opts := StoreKey(n), RangeOpts(0, revision, false);
    RecallIsNewest(s.log, k, revision);
    ReadNowExact(s, n);
    SingleKeyRange(s, n);
    RangeExact(s, Bounds(n, Name([], [])), opts);
    if k in s.kvs {
      assert HitKeys(s, [k][1..], opts) == [] && Hits(s, [k][1..], opts) == [];
    }
  }

  /** The value a read shows, if it finds the key. */
  function Shown(kvs: seq<KVPair>): (v: Option<Bytes>) {
    if kvs == [] then None else Some(kvs[0].value)
  }

  /** What the log of a later store has of a key by an earlier revision is what the earlier log had. */
  lemma SameNewest(log: seq<Change>, later: seq<Change>, k: Bytes)
    requires log <= later
    ensures NewestOwn(later, k, |log|) == NewestOwn(log, k, |log|)
  {
    assert forall i :: NewestPut(later, k, |log|, i) <==> NewestPut(log, k, |log|, i);
    var a, b := NewestOwn(later, k, |log|), NewestOwn(log, k, |log|);
    if a.Some? && b.Some? {
      assert NewestPut(log, k, |log|, a.value) && NewestPut(log, k, |log|, b.value);
    }
  }

  lemma NewestOfStored(s: Store, k: Bytes)
    requires Valid(s) && k in s.kvs
    ensures NewestOwn(s.log, k, |s.log|) == Some(s.kvs[k].modRev - 1)
  {
    var e := s.kvs[k];
    assert Explained(s, k, e);
    NewestExists(s.log, k, |s.log|, e.modRev - 1);
    assert NewestPut(s.log, k, |s.log|, e.modRev - 1);
  }

  /** A read at a past revision shows the value that was there at that moment exactly when the key has not been
      deleted since, or, if it was not there then, is not there now either or had never been. */
  lemma TimeTravelExact(past: Store, ev: seq<Event>, now: Store, n: Name)
    requires Valid(past) && Accounts(past, ev, now) && Undisturbed(now, n, past.rev)
    ensures Shown(ReadAt(now, n, past.rev)) == Shown(ReadNow(past, n)) <==>
            (StoreKey(n) in now.kvs <==> StoreKey(n) in past.kvs) ||
            (StoreKey(n) !in past.kvs && NewestOwn(past.log, StoreKey(n), past.rev).None?)
  {
    var k := StoreKey(n);
    ReadAtExact(now, n, past.rev);
    ReadNowExact(past, n);
    ReadNowExact(now, n);
    SameNewest(past.log, now.log, k);
    if k in past.kvs {
      assert Explained(past, k, past.kvs[k]);
      NewestOfStored(past, k);
    }
    if k in now.kvs && now.kvs[k].modRev <= past.rev {
      LastChangeIsNewest(past, now, k);
    }
  }

  /** A key last changed by an earlier revision has the newest value of then. */
  lemma LastChangeIsNewest(past: Store, now: Store, k: Bytes)
    requires Valid(past) && Valid(now) && past.log <= now.log && k in now.kvs && now.kvs[k].modRev <= past.rev
    ensures NewestOwn(past.log, k, past.rev) == Some(now.kvs[k].modRev - 1)
    ensures past.log[now.kvs[k].modRev - 1].value == now.kvs[k].value
  {
    var e := now.kvs[k];
    assert Explained(now, k, e);
    assert past.log[e.modRev - 1] == now.log[e.modRev - 1];
    NewestExists(past.log, k, past.rev, e.modRev - 1);
    assert NewestPut(past.log, k, past.rev, e.modRev - 1) by {
      assert forall j :: e.modRev - 1 < j < |past.log| ==> past.log[j] == now.log[j];
    }
  }

  /** A key put, deleted and put again: read at the first revision in between it is missing although it was there,
      and read at the second afterwards it is there although it was gone. */
  lemma DeletionIsForgotten(n: Name, x: Bytes, y: Bytes)
    requires NulFree(n)
    ensures var s1 := PutKey(EmptyStore({}), n, x).value.store;
            var s2 := DeleteRangeKeys(s1, Bounds(n, Name([], [])), false).value.store;
            var s3 := PutKey(s2, n, y).value.store;
            && Shown(ReadNow(s1, n)) == Some(x) && ReadAt(s2, n, s1.rev) == []
            && ReadNow(s2, n) == [] && Shown(ReadAt(s3, n, s2.rev)) == Some(x)
  {
    var k, b := StoreKey(n), Bounds(n, Name([], []));
    var s1 := PutKey(EmptyStore({}), n, x).value.store;
    SingleKeyRange(s1, n);
    var s2 := DeleteRangeKeys(s1, b, false).value.store;
    var s3 := PutKey(s2, n, y).value.store;
    ParseStoreKeyInverts(n);
    ReadNowExact(s1, n);
    ReadNowExact(s2, n);
    NoStrayAmongPlainPaths(s2.log, n, 1);
    ReadAtExact(s2, n, 1);
    NoStrayAmongPlainPaths(s3.log, n, 2);
    ReadAtExact(s3, n, 2);
    NewestExists(s3.log, k, 2, 0);
    assert NewestPut(s3.log, k, 2, 0);
  }
}
