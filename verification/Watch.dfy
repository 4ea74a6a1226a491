/** Watches: what a watcher wants, what it subscribes to, and the hand-over from replayed history to
    live events. */
module Watch {
  import opened Lex
  import opened Outcome
  import opened KeyEncoding
  import opened KvStore
  import History
  import BoltStore
  import TxnHandler

  // ---------------------------------------------------------------- which keys

  datatype Watcher = Watcher(start: Bytes, end: Bytes, b: Bounds, claims: Option<TxnHandler.Claims>)

  /** createWatcher decodes the requested range; an undecodable one is refused. */
  predicate Decoded(w: Watcher) {
    SplitRange(w.start, w.end) == Some(w.b)
  }

  predicate MatchesKey(w: Watcher, n: Name) {
    && TxnHandler.Allowed(w.claims, n.ns, false)
    && (w.b.ScanAll()
        || (if w.b.Single() then n == w.b.start
            else AtMost(w.start, JoinKey(n)) && (w.end == [] || Less(JoinKey(n), w.end))))
  }

  /** The publisher's cheap filter; empty fields let everything through. */
  datatype Filter = Filter(ns: Bytes, prefix: Bytes)

  /** The longest prefix two paths share. */
  function CommonPathPrefix(a: Bytes, b: Bytes): (p: Bytes)
    ensures p <= a && p <= b
    ensures |p| < |a| && |p| < |b| ==> a[|p|] != b[|p|]
  {
    if a == [] || b == [] || a[0] != b[0] then [] else [a[0]] + CommonPathPrefix(a[1..], b[1..])
  }

  function SubscribeFilter(b: Bounds): (f: Filter) {
    if b.ScanAll() then Filter([], [])
    else if b.Single() then Filter(b.start.ns, b.start.path)
    else if b.start.ns == b.end.ns then Filter(b.start.ns, CommonPathPrefix(b.start.path, b.end.path))
    else Filter([], [])
  }

  /** matches: a namespace-level event (empty path) passes any path prefix. */
  predicate Passes(f: Filter, n: Name) {
    && (f.ns == [] || f.ns == n.ns)
    && (n.path == [] || f.prefix == [] || f.prefix <= n.path)
  }

  /** Names events carry: a slash-free namespace and an empty or rooted path. */
  predicate EventName(n: Name) {
    SLASH !in n.ns && (n.path == [] || n.path[0] == SLASH)
  }

  /** The one shape of range whose subscription is too narrow: both ends decode to one namespace, but
      only the end key spells its second slash. */
  predicate Narrow(w: Watcher) {
    && !w.b.ScanAll() && !w.b.Single() && w.b.start.ns == w.b.end.ns
    && !HasSecondSlash(w.start) && HasSecondSlash(w.end)
  }

  lemma RootedRange(key: Bytes, n: Name)
    requires SplitKey(key) == Some(n) && HasSecondSlash(key)
    ensures key == [SLASH] + n.ns + n.path
  {
    SplitKeyDomain(key);
    JoinAfterSplit(key);
  }

  /** Between two keys of one namespace lie only that namespace's keys, with the paths' common prefix. */
  lemma OneNamespaceRange(w: Watcher, n: Name)
    requires Decoded(w) && EventName(n) && !w.b.ScanAll() && !w.b.Single() && w.b.start.ns == w.b.end.ns
    requires HasSecondSlash(w.start) && HasSecondSlash(w.end)
    requires AtMost(w.start, JoinKey(n)) && Less(JoinKey(n), w.end)
    ensures Passes(SubscribeFilter(w.b), n)
  {
    var ns := w.b.start.ns;
    SplitKeyDomain(w.start);
    SplitKeyDomain(w.end);
    RootedRange(w.start, w.b.start);
    RootedRange(w.end, w.b.end);
    LessAsymmetric(JoinKey(n), w.end);
    UnderCommonPrefix(ns, [SLASH], w.b.start.path, w.b.end.path, JoinKey(n));
    PinnedNamespace(n, ns);
    if n.path != [] {
      var p := CommonPathPrefix(w.b.start.path, w.b.end.path);
      UnderCommonPrefix(ns, p, w.b.start.path, w.b.end.path, JoinKey(n));
      PathUnder(ns, p, n.path);
    }
  }

  lemma UnderCommonPrefix(ns: Bytes, p: Bytes, a: Bytes, b: Bytes, key: Bytes)
    requires p <= a && p <= b
    requires AtMost([SLASH] + ns + a, key) && AtMost(key, [SLASH] + ns + b)
    ensures [SLASH] + ns + p <= key
  {
    var under := [SLASH] + ns + p;
    assert [SLASH] + ns + a == under + a[|p|..] && [SLASH] + ns + b == under + b[|p|..];
    PrefixConvex(under, [SLASH] + ns + a, key, [SLASH] + ns + b);
  }

  lemma PathUnder(ns: Bytes, p: Bytes, path: Bytes)
    requires [SLASH] + ns + p <= [SLASH] + ns + path
    ensures p <= path
  {
    var under, key := [SLASH] + ns + p, [SLASH] + ns + path;
    assert key[|ns| + 1..|under|] == under[|ns| + 1..];
    assert key[|ns| + 1..] == path && under[|ns| + 1..] == p;
    assert path[..|p|] == key[|ns| + 1..|under|];
  }

  lemma PinnedNamespace(n: Name, ns: Bytes)
    requires SLASH !in n.ns && SLASH !in ns && [SLASH] + ns + [SLASH] <= JoinKey(n)
    ensures n.ns == ns
  {
    var tail := Rooted(n.path)[1..];
    assert JoinKey(n) == [SLASH] + (n.ns + [SLASH] + tail);
    assert JoinKey(n)[1..|ns| + 2] == ns + [SLASH];
    SeparatorPinsNamespace(ns, SLASH, n.ns, tail);
  }

  /** The publisher-side filter never loses a wanted event, whatever the claims, unless the range is
      narrow. */
  lemma FilterKeepsWanted(w: Watcher, n: Name)
    requires Decoded(w) && EventName(n) && !Narrow(w) && MatchesKey(w, n)
    ensures Passes(SubscribeFilter(w.b), n)
  {
    if !w.b.ScanAll() && !w.b.Single() && w.b.start.ns == w.b.end.ns {
      SplitKeyDomain(w.start);
      SplitKeyDomain(w.end);
      JoinAfterSplit(w.start);
      JoinAfterSplit(w.end);
      if HasSecondSlash(w.start) && HasSecondSlash(w.end) {
        OneNamespaceRange(w, n);
      } else {
        EndNotAfterStart(w);
        AtMostLess(w.start, JoinKey(n), w.end);
      }
    }
  }

  /** When the end key lacks its second slash it does not come after a start key of its namespace. */
  lemma EndNotAfterStart(w: Watcher)
    requires Decoded(w) && !w.b.ScanAll() && !w.b.Single() && w.b.start.ns == w.b.end.ns
    requires !HasSecondSlash(w.end)
    ensures !Less(w.start, w.end)
  {
    assert w.end == [SLASH] + w.b.end.ns;
    var ns := w.b.start.ns;
    assert w.end <= w.start by {
      if HasSecondSlash(w.start) {
        RootedRange(w.start, w.b.start);
      }
    }
    PrefixAtMost(w.end, w.start);
  }

  /** The caller may read some namespace that extends this one with a byte below the slash. */
  predicate ReadsBeside(claims: Option<TxnHandler.Claims>, ns: Bytes) {
    || claims.None?
    || TxnHandler.ANY_NAMESPACE in claims.value.namespaces
    || exists other :: other in claims.value.namespaces && Beside(ns, other)
  }

  predicate Beside(ns: Bytes, other: Bytes) {
    SLASH !in other && ns < other && other[|ns|] < SLASH
  }

  predicate Lossless(w: Watcher) {
    !(Narrow(w) && ReadsBeside(w.claims, w.b.start.ns))
  }

  /** Nothing wanted is lost exactly when the range is not narrow, or the caller may read nothing beside its
      namespace. */
  lemma FilterExact(w: Watcher)
    requires Decoded(w)
    ensures (forall n :: EventName(n) && MatchesKey(w, n) ==> Passes(SubscribeFilter(w.b), n)) <==> Lossless(w)
  {
    if !Narrow(w) {
      forall n | EventName(n) && MatchesKey(w, n)
        ensures Passes(SubscribeFilter(w.b), n)
      {
        FilterKeepsWanted(w, n);
      }
    } else if ReadsBeside(w.claims, w.b.start.ns) {
      var ns := w.b.start.ns;
      var other := if w.claims.None? || TxnHandler.ANY_NAMESPACE in w.claims.value.namespaces then ns + [45]
                   else var l :| l in w.claims.value.namespaces && Beside(ns, l); l;
      SplitKeyDomain(w.start);
      NarrowLoses(w, other);
      var lost := Name(other, [SLASH]);
      assert EventName(lost) && MatchesKey(w, lost) && !Passes(SubscribeFilter(w.b), lost);
    } else {
      forall n | EventName(n) && MatchesKey(w, n)
        ensures Passes(SubscribeFilter(w.b), n)
      {
        NarrowKeepsOwn(w, n);
      }
    }
  }

  /** A narrow range holds its namespace's names and those beside it. */
  lemma NarrowHolds(ns: Bytes, path: Bytes, n: Name)
    requires SLASH !in ns && SLASH !in n.ns && path != [] && path[0] == SLASH
    requires AtMost([SLASH] + ns, JoinKey(n)) && Less(JoinKey(n), [SLASH] + ns + path)
    ensures n.ns == ns || Beside(ns, n.ns)
  {
    var plain, key, end := [SLASH] + ns, JoinKey(n), [SLASH] + ns + path;
    LessAsymmetric(key, end);
    PrefixConvex(plain, plain, key, end);
    NamespaceUnder(ns, n);
    if n.ns != ns {
      var tail := key[|plain|..];
      assert key == plain + tail;
      NextByteBelow(plain, tail, path);
      assert tail[0] == key[|plain|] == n.ns[|ns|];
      assert n.ns[|ns|] in n.ns;
    }
  }

  lemma NamespaceUnder(ns: Bytes, n: Name)
    requires SLASH !in ns && [SLASH] + ns <= JoinKey(n)
    ensures ns <= n.ns
  {
    var plain, key := [SLASH] + ns, JoinKey(n);
    assert key[1..] == n.ns + Rooted(n.path);
    assert key[1..|plain|] == plain[1..] == ns;
    assert key[1..][..|ns|] == key[1..|plain|];
    PrefixOfNamespace(ns, n.ns, Rooted(n.path));
  }

  lemma NextByteBelow(plain: Bytes, tail: Bytes, path: Bytes)
    requires tail != [] && path != [] && Less(plain + tail, plain + path)
    ensures tail[0] <= path[0]
  {
    LessUnderPrefix(plain, tail, path);
  }

  lemma PrefixOfNamespace(ns: Bytes, other: Bytes, path: Bytes)
    requires SLASH !in ns && path != [] && path[0] == SLASH && ns <= other + path
    ensures ns <= other
  {
    assert (other + path)[|other|] == SLASH;
    assert forall i :: 0 <= i < |ns| ==> ns[i] == (other + path)[i] && ns[i] != SLASH;
  }

  lemma NarrowKeepsOwn(w: Watcher, n: Name)
    requires Decoded(w) && Narrow(w) && !ReadsBeside(w.claims, w.b.start.ns) && EventName(n) && MatchesKey(w, n)
    ensures Passes(SubscribeFilter(w.b), n)
  {
    SplitKeyDomain(w.start);
    SplitKeyDomain(w.end);
    RootedRange(w.end, w.b.end);
    assert w.start == [SLASH] + w.b.start.ns && w.b.start.path == [SLASH];
    NarrowHolds(w.b.start.ns, w.b.end.path, n);
    assert n.ns == w.b.start.ns;
    assert CommonPathPrefix([SLASH], w.b.end.path) <= [SLASH];
  }

  /** Any readable namespace beside a narrow range is lost to it. */
  lemma NarrowLoses(w: Watcher, other: Bytes)
    requires Decoded(w) && Narrow(w) && Beside(w.b.start.ns, other) && TxnHandler.Allowed(w.claims, other, false)
    ensures var lost := Name(other, [SLASH]);
            EventName(lost) && MatchesKey(w, lost) && !Passes(SubscribeFilter(w.b), lost)
  {
    SplitKeyDomain(w.start);
    SplitKeyDomain(w.end);
    RootedRange(w.end, w.b.end);
    assert w.start == [SLASH] + w.b.start.ns;
    BesideInRange(w.b.start.ns, other, w.b.end.path);
  }

  lemma BesideInRange(ns: Bytes, other: Bytes, path: Bytes)
    requires Beside(ns, other) && path != [] && path[0] == SLASH
    ensures var key := JoinKey(Name(other, [SLASH]));
            AtMost([SLASH] + ns, key) && Less(key, [SLASH] + ns + path)
  {
    var plain, tail := [SLASH] + ns, other[|ns|..] + [SLASH];
    assert other == ns + other[|ns|..];
    assert JoinKey(Name(other, [SLASH])) == plain + tail;
    assert plain <= plain + tail;
    PrefixAtMost(plain, plain + tail);
    LessUnderPrefix(plain, tail, path);
    assert tail[0] == other[|ns|];
  }

  // ---------------------------------------------------------------- what is matched

  /** The names events and ranges carry are told apart by their bucket keys. */
  lemma StoreKeyTells(n: Name, m: Name)
    requires EventName(n) && Sayable(m)
    ensures StoreKey(n) == StoreKey(m) <==> n == m
  {
    assert n.path == [] ==> SLASH !in StoreKey(n);
    if StoreKey(n) == StoreKey(m) {
      var key := StoreKey(m);
      assert key[|m.ns| + 1] == SLASH && key[..|m.ns| + 1] == m.ns + [NUL];
      IndexByteUnique(key, SLASH, |m.ns| + 1);
      if n.path != [] {
        assert key[|n.ns| + 1] == SLASH && key[..|n.ns| + 1] == n.ns + [NUL];
        IndexByteUnique(key, SLASH, |n.ns| + 1);
        assert n.ns == key[..|n.ns|] == m.ns && n.path == key[|n.ns| + 1..] == m.path;
      }
    }
  }

  /** A watch matches what its caller may read and its range covers: of one key, exactly the name a read of that
      key selects; of an open range, every name; otherwise the names whose keys lie between the two that were
      sent. */
  lemma MatchesExact(w: Watcher, n: Name)
    requires Decoded(w) && EventName(n)
    ensures MatchesKey(w, n) <==>
            && TxnHandler.Allowed(w.claims, n.ns, false)
            && (if w.end == [] then InStoreRange(StoreKey(n), w.b)
                else w.b.end.ns == [NUL] || InKeyRange(n, w.start, w.end))
  {
    SplitKeyDomain(w.start);
    SplitKeyDomain(w.end);
    if w.end == [] {
      StoreKeyTells(n, w.b.start);
    }
  }

  /** Inside one namespace, with both keys spelled out, a watch matches what a read of the range selects. */
  lemma WatchedIsRead(w: Watcher, n: Name)
    requires Decoded(w) && Stored(n) && w.end != [] && HasSecondSlash(w.start) && HasSecondSlash(w.end)
    requires w.b.start.ns == w.b.end.ns != [NUL]
    ensures MatchesKey(w, n) <==> TxnHandler.Allowed(w.claims, n.ns, false) && InStoreRange(StoreKey(n), w.b)
  {
    MatchesExact(w, n);
    SplitKeyDomain(w.start);
    SplitKeyDomain(w.end);
    JoinAfterSplit(w.start);
    JoinAfterSplit(w.end);
    RangesAgreeInOneNamespace(n, w.b);
  }

  /** And a watch of a prefix matches exactly the keys that have it. */
  lemma PrefixIsMatched(w: Watcher, n: Name)
    requires Decoded(w) && EventName(n) && IsPrefixRange(w.start, w.end) && w.b.end.ns != [NUL]
    ensures MatchesKey(w, n) <==> TxnHandler.Allowed(w.claims, n.ns, false) && w.start <= JoinKey(n)
  {
    MatchesExact(w, n);
    PrefixRangeExact(w.start, w.end, JoinKey(n));
  }

  /** The publisher's filter narrows to the one namespace of a range, and there to what its two paths share. */
  lemma FilterShape(b: Bounds, n: Name)
    requires b.start.ns != []
    ensures Passes(SubscribeFilter(b), n) <==>
            || b.ScanAll() || !(b.Single() || b.start.ns == b.end.ns)
            || (n.ns == b.start.ns && (n.path == [] || b.start.path <= n.path))
            || (n.ns == b.start.ns && !b.Single() && CommonPathPrefix(b.start.path, b.end.path) <= n.path)
  {
    var p := CommonPathPrefix(b.start.path, b.end.path);
    if b.start.path <= n.path {
      assert p == b.start.path[..|p|];
    }
  }

  // ---------------------------------------------------------------- messages

  /** What goes to the client, apart from CreateRevision. */
  datatype Message = Message(isDelete: bool, key: Bytes, rev: nat, version: nat, value: Bytes)

  /** changelogToEvent for the row of a revision. */
  function RowMessage(rev: nat, row: Change, value: Bytes): (m: Message) {
    if row.kind == Deleted then Message(true, JoinKey(row.name), rev, 0, [])
    else Message(false, JoinKey(row.name), rev, row.version, value)
  }

  /** eventToProto */
  function EventMessage(e: Event): (m: Message) {
    if e.kind == Deleted then Message(true, JoinKey(e.name), e.rev, 0, [])
    else Message(false, JoinKey(e.name), e.rev, e.version, e.value)
  }

  /** A message tells a deletion from a put and carries key, revision, version and value of the event; it decodes
      to the event's name. */
  lemma MessageExact(e: Event)
    requires Sayable(e.name)
    ensures var m := EventMessage(e);
            && SplitKey(m.key) == Some(e.name) && m.rev == e.rev && (m.isDelete <==> e.kind == Deleted)
            && (e.kind != Deleted ==> m.version == e.version && m.value == e.value)
            && (e.kind == Deleted ==> m.version == 0 && m.value == [])
  {
    SplitAfterJoin(e.name);
  }

  /** Replayed or live, one change makes one message. */
  lemma ReplayedIsLive(e: Event)
    ensures RowMessage(e.rev, RowOf(e), e.value) == EventMessage(e)
  {
  }

  /** The matching rows of revisions lo+1 .. hi, as messages. */
  function Matching(w: Watcher, log: seq<Change>, lo: nat, hi: nat): (ms: seq<Message>)
    requires hi <= |log|
    decreases hi
  {
    if hi <= lo then []
    else
      Matching(w, log, lo, hi - 1) +
      (if MatchesKey(w, log[hi - 1].name) then [RowMessage(hi, log[hi - 1], log[hi - 1].value)] else [])
  }

  function LastRev(ms: seq<Message>): (rev: nat) {
    if ms == [] then 0 else ms[|ms| - 1].rev
  }

  lemma {:induction false} MatchingSplit(w: Watcher, log: seq<Change>, lo: nat, mid: nat, hi: nat)
    requires lo <= mid <= hi <= |log|
    ensures Matching(w, log, lo, hi) == Matching(w, log, lo, mid) + Matching(w, log, mid, hi)
    decreases hi
  {
    if mid < hi {
      MatchingSplit(w, log, lo, mid, hi - 1);
    }
  }

  /** Those are exactly the matching rows, each under its revision. */
  lemma {:induction false} MatchingExact(w: Watcher, log: seq<Change>, lo: nat, hi: nat, m: Message)
    requires lo <= hi <= |log|
    ensures m in Matching(w, log, lo, hi) <==>
            exists i :: lo <= i < hi && MatchesKey(w, log[i].name) && m == RowMessage(i + 1, log[i], log[i].value)
    decreases hi
  {
    if lo < hi {
      MatchingExact(w, log, lo, hi - 1, m);
      assert MatchesKey(w, log[hi - 1].name) && m == RowMessage(hi, log[hi - 1], log[hi - 1].value) ==>
        exists i :: lo <= i < hi && MatchesKey(w, log[i].name) && m == RowMessage(i + 1, log[i], log[i].value);
    }
  }

  lemma {:induction false} MatchingRange(w: Watcher, log: seq<Change>, lo: nat, hi: nat)
    requires lo <= hi <= |log|
    ensures forall i :: 0 <= i < |Matching(w, log, lo, hi)| ==> lo < Matching(w, log, lo, hi)[i].rev <= hi
    ensures LastRev(Matching(w, log, lo, hi)) <= hi
    decreases hi
  {
    if lo < hi {
      MatchingRange(w, log, lo, hi - 1);
    }
  }

  lemma {:induction false} MatchingOfPrefix(w: Watcher, log: seq<Change>, view: seq<Change>, lo: nat, hi: nat)
    requires view <= log && hi <= |view|
    ensures Matching(w, view, lo, hi) == Matching(w, log, lo, hi)
    decreases hi
  {
    if lo < hi {
      MatchingOfPrefix(w, log, view, lo, hi - 1);
      assert view[hi - 1] == log[hi - 1];
    }
  }

  // ---------------------------------------------------------------- replay

  const BATCH_SIZE := 256

  /** ListChanges: the first `limit` rows after a revision. */
  function ListChanges(log: seq<Change>, since: nat, limit: nat): (rows: seq<(nat, Change)>)
    ensures |rows| == if |log| <= since then 0 else if |log| - since < limit then |log| - since else limit
    ensures forall i :: 0 <= i < |rows| ==> rows[i] == (since + i + 1, log[since + i])
  {
    var n := if |log| <= since then 0 else if |log| - since < limit then |log| - since else limit;
    seq(n, i requires 0 <= i < n => (since + i + 1, log[since + i]))
  }

  /** The history bucket answers a row's own revision with the value that row wrote, whatever else it holds:
      the seek hits the row itself. */
  lemma OwnValue(log: seq<Change>, rev: nat)
    requires 1 <= rev <= |log| < REVISION_LIMIT && log[rev - 1].kind != Deleted
    ensures Recall(log, StoreKey(log[rev - 1].name), rev) == Some(log[rev - 1].value)
  {
    var h := HistoryKey(StoreKey(log[rev - 1].name), rev);
    History.RowInHistory(log, rev - 1);
    LessIrreflexive(h);
    assert IsFloor(HistoryOf(log).Keys, h, h);
    FloorIs(HistoryOf(log).Keys, h, h);
  }

  /** replayEntry: the message for a row, if it matches. */
  method ReplayEntry(w: Watcher, log: seq<Change>, rev: nat, row: Change, lastSent: nat)
    returns (sent: seq<Message>, lastSent': nat)
    requires 1 <= rev <= |log| < REVISION_LIMIT && log[rev - 1] == row
    ensures sent == Matching(w, log, rev - 1, rev)
    ensures lastSent' == if sent == [] || rev <= lastSent then lastSent else rev
  {
    assert Matching(w, log, rev - 1, rev - 1) == [];
    if !MatchesKey(w, row.name) { return [], lastSent; }
    var value: Bytes := [];
    if row.kind != Deleted {
      OwnValue(log, rev);
      var v := BoltStore.LookupHistory(log, StoreKey(row.name), rev);
      value := v.value;
    }
    sent := [RowMessage(rev, row, value)];
    lastSent' := if rev > lastSent then rev else lastSent;
  }

  lemma OneMoreRow(w: Watcher, log: seq<Change>, lo: nat, rev: nat)
    requires lo < rev <= |log|
    ensures var out := Matching(w, log, rev - 1, rev);
            && Matching(w, log, lo, rev) == Matching(w, log, lo, rev - 1) + out
            && (out != [] ==> LastRev(Matching(w, log, lo, rev)) == rev)
            && (out == [] ==> Matching(w, log, lo, rev) == Matching(w, log, lo, rev - 1))
  {
    assert Matching(w, log, rev - 1, rev - 1) == [];
    assert Matching(w, log, lo, rev - 1) + [] == Matching(w, log, lo, rev - 1);
  }

  /** One batch: every row of it, in order. */
  method ReplayBatch(w: Watcher, view: seq<Change>, since: nat, lastSent: nat)
    returns (sent: seq<Message>, since': nat, lastSent': nat)
    requires since <= |view| < REVISION_LIMIT && lastSent <= since
    ensures since' == since + |ListChanges(view, since, BATCH_SIZE)| && since' <= |view|
    ensures sent == Matching(w, view, since, since')
    ensures lastSent' == (if sent == [] then lastSent else LastRev(sent)) && lastSent' <= since'
  {
    var rows := ListChanges(view, since, BATCH_SIZE);
    var i := 0;
    sent, since', lastSent' := [], since, lastSent;
    while i < |rows|
      invariant i <= |rows| && since' == since + i <= |view|
      invariant sent == Matching(w, view, since, since')
      invariant lastSent' == (if sent == [] then lastSent else LastRev(sent)) && lastSent' <= since'
    {
      var (rev, row) := rows[i];
      var out, last := ReplayEntry(w, view, rev, row, lastSent');
      OneMoreRow(w, view, since, rev);
      sent, lastSent', since' := sent + out, last, rev;
      i := i + 1;
    }
  }

  /** replayHistory while transactions keep committing: before each batch the log may have grown to any
      prefix of `final`, from the `seen` rows there were when the watcher subscribed. Whatever the
      growth and the batching, the rows replayed are a whole stretch from the start revision to a point
      no earlier than the subscription. */
  method ReplayHistory(w: Watcher, final: seq<Change>, seen: nat, startRevision: nat)
    returns (sent: seq<Message>, lastSent: nat, end: nat)
    requires 1 <= startRevision <= seen <= |final| < REVISION_LIMIT
    ensures seen <= end <= |final|
    ensures sent == Matching(w, final, startRevision - 1, end)
    ensures lastSent == LastRev(sent)
  {
    var since := startRevision - 1;
    sent, lastSent := [], 0;
    ghost var lo := since;
    var committed := seen;
    while true
      invariant lo <= since <= committed && seen <= committed <= |final|
      invariant sent == Matching(w, final, lo, since)
      invariant lastSent == LastRev(sent) && lastSent <= since
      decreases |final| - since
    {
      var now: nat :| committed <= now <= |final|;
      committed := now;
      var view := final[..committed];
      var out, since', last := ReplayBatch(w, view, since, lastSent);
      MatchingOfPrefix(w, final, view, since, since');
      MatchingSplit(w, final, lo, since, since');
      var count := since' - since;
      sent, lastSent, since := sent + out, last, since';
      if count == 0 || count < BATCH_SIZE {
        return sent, lastSent, since;
      }
    }
  }

  // ---------------------------------------------------------------- live events

  /** forwardEvent: drop what does not match, drop a positive revision not above lastSent. */
  function ForwardEvent(w: Watcher, e: Event, lastSent: nat): (r: (seq<Message>, nat))
    ensures lastSent <= r.1
  {
    if !MatchesKey(w, e.name) || 0 < e.rev <= lastSent then ([], lastSent)
    else ([EventMessage(e)], if e.rev > lastSent then e.rev else lastSent)
  }

  function Forward(w: Watcher, lastSent: nat, events: seq<Event>): (ms: seq<Message>)
    decreases events
  {
    if events == [] then []
    else
      var (one, last) := ForwardEvent(w, events[0], lastSent);
      one + Forward(w, last, events[1..])
  }

  /** Message revisions above `floor`, strictly increasing. Revision 0 marks events without one. */
  predicate Rising(floor: nat, ms: seq<Message>)
    decreases ms
  {
    ms == [] || (if ms[0].rev == 0 then Rising(floor, ms[1..]) else floor < ms[0].rev && Rising(ms[0].rev, ms[1..]))
  }

  /** However events arrive, out of order or twice, the positive revisions sent only rise. */
  lemma {:induction false} ForwardRises(w: Watcher, lastSent: nat, events: seq<Event>)
    ensures Rising(lastSent, Forward(w, lastSent, events))
    decreases events
  {
    if events != [] {
      var (one, last) := ForwardEvent(w, events[0], lastSent);
      ForwardRises(w, last, events[1..]);
      var rest := Forward(w, last, events[1..]);
      if one != [] {
        assert (one + rest)[0] == one[0] && (one + rest)[1..] == rest;
      } else {
        assert one + rest == rest;
      }
    }
  }

  function Wanted(w: Watcher, events: seq<Event>): (ms: seq<Message>) {
    if events == [] then []
    else (if MatchesKey(w, events[0].name) then [EventMessage(events[0])] else []) + Wanted(w, events[1..])
  }

  /** Live forwarding delivers every wanted event exactly when the wanted revisions arrive in strictly
      increasing order above what was already sent. */
  lemma {:induction false} ForwardComplete(w: Watcher, lastSent: nat, events: seq<Event>)
    ensures |Forward(w, lastSent, events)| <= |Wanted(w, events)|
    ensures Forward(w, lastSent, events) == Wanted(w, events) <==> Rising(lastSent, Wanted(w, events))
    decreases events
  {
    if events != [] {
      var e, rest := events[0], events[1..];
      var (one, last) := ForwardEvent(w, e, lastSent);
      ForwardComplete(w, last, rest);
      if MatchesKey(w, e.name) {
        var all := Wanted(w, events);
        assert all == [EventMessage(e)] + Wanted(w, rest);
        assert all[0] == EventMessage(e) && all[1..] == Wanted(w, rest);
        if one == [] {
          assert Forward(w, lastSent, events) == Forward(w, lastSent, rest);
        } else {
          assert Forward(w, lastSent, events)[1..] == Forward(w, last, rest);
        }
      } else {
        assert Wanted(w, events) == Wanted(w, rest) && Forward(w, lastSent, events) == Forward(w, lastSent, rest);
      }
    }
  }

  /** A range delete that hits two keys a watcher wants: live it sends the first, and the changelog, and so
      any later replay, has the second. */
  lemma RangeDeleteSplits(w: Watcher, lastSent: nat, a: Name, b: Name, rev: nat)
    requires MatchesKey(w, a) && MatchesKey(w, b) && lastSent < rev
    ensures var ev := [Event(Deleted, a, rev, [], 0, 0), Event(Deleted, b, rev, [], 0, 0)];
            && Forward(w, lastSent, ev) == [EventMessage(ev[0])]
            && RowsOf(ev) == [RowOf(ev[1])]
  {
    var ev := [Event(Deleted, a, rev, [], 0, 0), Event(Deleted, b, rev, [], 0, 0)];
    assert ev[1..] == [ev[1]] && [ev[1]][1..] == [];
    assert Forward(w, rev, [ev[1]]) == [];
    assert RowsOf([ev[1]]) == [RowOf(ev[1])];
  }

  // ---------------------------------------------------------------- the whole watcher

  /** What a watcher that replayed up to revision `end` has sent once `events` have all been received. */
  function Output(w: Watcher, startRevision: nat, currentRev: nat, log: seq<Change>, end: nat, events: seq<Event>)
    : (ms: seq<Message>)
    requires end <= |log|
  {
    if 0 < startRevision <= currentRev then
      var replayed := Matching(w, log, startRevision - 1, end);
      replayed + Forward(w, LastRev(replayed), events)
    else Forward(w, 0, events)
  }

  /** runWatcher: replay when the start revision lies in the past, then forward what the channel brings. */
  method RunWatcher(w: Watcher, startRevision: nat, currentRev: nat, final: seq<Change>, seen: nat, events: seq<Event>)
    returns (sent: seq<Message>, end: nat)
    requires currentRev <= seen <= |final| < REVISION_LIMIT
    ensures seen <= end <= |final|
    ensures sent == Output(w, startRevision, currentRev, final, end, events)
  {
    var lastSent := 0;
    sent, end := [], seen;
    if 0 < startRevision <= currentRev {
      sent, lastSent, end := ReplayHistory(w, final, seen, startRevision);
    }
    var live := ForwardAll(w, lastSent, events);
    assert [] + live == live;
    sent := sent + live;
  }

  /** The realtime loop. */
  method ForwardAll(w: Watcher, floor: nat, events: seq<Event>) returns (sent: seq<Message>)
    ensures sent == Forward(w, floor, events)
  {
    var i, lastSent := 0, floor;
    sent := [];
    assert events[0..] == events && [] + Forward(w, floor, events) == Forward(w, floor, events);
    while i < |events|
      invariant i <= |events|
      invariant Forward(w, floor, events) == sent + Forward(w, lastSent, events[i..])
    {
      ForwardStep(w, lastSent, events, i);
      var (one, last) := ForwardEvent(w, events[i], lastSent);
      sent, lastSent := sent + one, last;
      i := i + 1;
    }
    assert sent + [] == sent;
  }

  lemma {:induction false} RisingConcat(floor: nat, a: seq<Message>, b: seq<Message>)
    requires Rising(floor, a) && (forall i :: 0 <= i < |a| ==> a[i].rev > 0)
    requires Rising(if a == [] then floor else LastRev(a), b)
    ensures Rising(floor, a + b)
    decreases a
  {
    if a == [] {
      assert a + b == b;
    } else {
      assert (a + b)[1..] == a[1..] + b;
      RisingConcat(a[0].rev, a[1..], b);
    }
  }

  lemma {:induction false} MatchingRises(w: Watcher, log: seq<Change>, lo: nat, hi: nat)
    requires lo <= hi <= |log|
    ensures Rising(lo, Matching(w, log, lo, hi))
    decreases hi
  {
    if lo < hi {
      var before := Matching(w, log, lo, hi - 1);
      MatchingRises(w, log, lo, hi - 1);
      MatchingRange(w, log, lo, hi - 1);
      RisingOne(lo, before, RowMessage(hi, log[hi - 1], log[hi - 1].value));
      assert before + [] == before;
    }
  }

  lemma RisingOne(floor: nat, a: seq<Message>, m: Message)
    requires Rising(floor, a) && (forall i :: 0 <= i < |a| ==> a[i].rev > 0)
    requires m.rev > if a == [] then floor else LastRev(a)
    ensures Rising(floor, a + [m])
  {
    assert [m][1..] == [];
    RisingConcat(floor, a, [m]);
  }

  /** In every run of a watcher, replayed or not, and however the live events arrive, the positive
      revisions it sends are strictly increasing. */
  lemma OutputRises(w: Watcher, startRevision: nat, currentRev: nat, log: seq<Change>, end: nat, events: seq<Event>)
    requires currentRev <= end <= |log|
    ensures Rising(0, Output(w, startRevision, currentRev, log, end, events))
  {
    if 0 < startRevision <= currentRev {
      var lo := startRevision - 1;
      var replayed := Matching(w, log, lo, end);
      MatchingRises(w, log, lo, end);
      MatchingRange(w, log, lo, end);
      ForwardRises(w, LastRev(replayed), events);
      LowerFloor(0, lo, replayed);
      RisingConcat(0, replayed, Forward(w, LastRev(replayed), events));
    } else {
      ForwardRises(w, 0, events);
    }
  }

  lemma {:induction false} LowerFloor(floor: nat, higher: nat, ms: seq<Message>)
    requires floor <= higher && Rising(higher, ms)
    ensures Rising(floor, ms)
    decreases ms
  {
    if ms != [] && ms[0].rev == 0 {
      LowerFloor(floor, higher, ms[1..]);
    }
  }

  // ---------------------------------------------------------------- a start that is not in the past

  /** The revision of the first wanted event that carries one. */
  function FirstWanted(w: Watcher, events: seq<Event>): (rev: Option<nat>) {
    if events == [] then None
    else if MatchesKey(w, events[0].name) && events[0].rev > 0 then Some(events[0].rev)
    else FirstWanted(w, events[1..])
  }

  predicate NothingBelow(start: nat, ms: seq<Message>) {
    forall i :: 0 <= i < |ms| ==> ms[i].rev == 0 || start <= ms[i].rev
  }

  lemma {:induction false} RisingIsAbove(floor: nat, ms: seq<Message>)
    requires Rising(floor, ms)
    ensures NothingBelow(floor, ms)
    decreases ms
  {
    if ms != [] {
      RisingIsAbove(if ms[0].rev == 0 then floor else ms[0].rev, ms[1..]);
      forall i | 0 <= i < |ms| ensures ms[i].rev == 0 || floor <= ms[i].rev {
        assert i > 0 ==> ms[i] == ms[1..][i - 1];
      }
    }
  }

  /** Without a replay every wanted event is forwarded, those below the asked revision too: nothing below it
      is sent exactly when the first wanted event to arrive is not below it. */
  lemma {:induction false} FutureStartExact(w: Watcher, startRevision: nat, events: seq<Event>)
    ensures NothingBelow(startRevision, Forward(w, 0, events)) <==>
            (FirstWanted(w, events).None? || startRevision <= FirstWanted(w, events).value)
    decreases events
  {
    if events != [] {
      var e, rest := events[0], events[1..];
      var (one, last) := ForwardEvent(w, e, 0);
      var sent, later := Forward(w, 0, events), Forward(w, last, rest);
      assert sent == one + later;
      assert forall i :: 0 <= i < |later| ==> sent[|one| + i] == later[i];
      if MatchesKey(w, e.name) && e.rev > 0 {
        ForwardRises(w, e.rev, rest);
        RisingIsAbove(e.rev, later);
        assert sent[0] == EventMessage(e);
      } else {
        FutureStartExact(w, startRevision, rest);
        assert forall i :: 0 <= i < |sent| ==> sent[i] == if i < |one| then one[i] else later[i - |one|];
      }
    }
  }

  // ---------------------------------------------------------------- nothing missed, nothing twice

  /** The stream one publication per revision, in revision order, makes of a log. */
  ghost predicate Publishes(all: seq<Event>, log: seq<Change>) {
    && |all| == |log|
    && forall i :: 0 <= i < |all| ==> all[i].rev == i + 1 && RowOf(all[i]) == log[i] && EventName(all[i].name)
  }

  /** What a subscription with room in its buffer receives. */
  function Received(f: Filter, events: seq<Event>): (got: seq<Event>)
    ensures forall i :: 0 <= i < |got| ==> got[i] in events
  {
    if events == [] then []
    else (if Passes(f, events[0].name) then [events[0]] else []) + Received(f, events[1..])
  }

  /** The filter takes nothing from what the watcher would forward. */
  lemma {:induction false} FilterInvisible(w: Watcher, lastSent: nat, events: seq<Event>)
    requires Decoded(w) && Lossless(w) && forall i :: 0 <= i < |events| ==> EventName(events[i].name)
    ensures Forward(w, lastSent, Received(SubscribeFilter(w.b), events)) == Forward(w, lastSent, events)
    decreases events
  {
    if events != [] {
      var f := SubscribeFilter(w.b);
      var (_, last) := ForwardEvent(w, events[0], lastSent);
      FilterInvisible(w, last, events[1..]);
      var rest := Received(f, events[1..]);
      if Passes(f, events[0].name) {
        assert ([events[0]] + rest)[1..] == rest;
      } else {
        assert Received(f, events) == rest;
        FilterExact(w);
      }
    }
  }

  /** Forwarding the tail of an in-order stream sends the matching rows above both ends. */
  lemma {:induction false} ForwardTail(w: Watcher, all: seq<Event>, log: seq<Change>, from: nat, lastSent: nat)
    requires Publishes(all, log) && from <= |all| && lastSent <= |log|
    ensures Forward(w, lastSent, all[from..]) ==
            Matching(w, log, if lastSent > from then lastSent else from, |log|)
    decreases |all| - from
  {
    if from < |all| {
      ForwardStep(w, lastSent, all, from);
      ForwardOne(w, all, log, from, lastSent);
      ForwardTail(w, all, log, from + 1, ForwardEvent(w, all[from], lastSent).1);
      if lastSent <= from {
        MatchingSplit(w, log, from, from + 1, |log|);
      }
    }
  }

  lemma ForwardOne(w: Watcher, all: seq<Event>, log: seq<Change>, i: nat, lastSent: nat)
    requires Publishes(all, log) && i < |all| && lastSent <= |log|
    ensures var r := ForwardEvent(w, all[i], lastSent);
            if lastSent > i then r == ([], lastSent)
            else r.0 == Matching(w, log, i, i + 1) && r.1 <= i + 1
  {
    assert all[i].rev == i + 1;
    OneRow(w, all, log, i);
  }

  lemma ForwardStep(w: Watcher, lastSent: nat, events: seq<Event>, i: nat)
    requires i < |events|
    ensures var r := ForwardEvent(w, events[i], lastSent);
            Forward(w, lastSent, events[i..]) == r.0 + Forward(w, r.1, events[i + 1..])
  {
    assert events[i..][0] == events[i] && events[i..][1..] == events[i + 1..];
  }

  lemma OneRow(w: Watcher, all: seq<Event>, log: seq<Change>, i: nat)
    requires Publishes(all, log) && i < |all|
    ensures Matching(w, log, i, i + 1) == if MatchesKey(w, all[i].name) then [EventMessage(all[i])] else []
  {
    assert all[i].rev == i + 1 && RowOf(all[i]) == log[i];
    assert Matching(w, log, i, i) == [];
  }

  /** No row matches between the last replayed match and the end of the replay. */
  lemma {:induction false} NothingAfterLast(w: Watcher, log: seq<Change>, lo: nat, hi: nat)
    requires lo <= hi <= |log| && Matching(w, log, lo, hi) != []
    ensures var last := LastRev(Matching(w, log, lo, hi));
            lo < last <= hi && Matching(w, log, last, hi) == []
    decreases hi
  {
    if !MatchesKey(w, log[hi - 1].name) {
      NothingAfterLast(w, log, lo, hi - 1);
    }
  }

  /** Matching rows from before the start revision that were still unpublished at the subscription, when
      there was nothing to replay. */
  function Stale(w: Watcher, log: seq<Change>, startRevision: nat, pub: nat, end: nat): (ms: seq<Message>)
    requires 1 <= startRevision <= end <= |log|
  {
    if pub < startRevision - 1 && Matching(w, log, startRevision - 1, end) == []
    then Matching(w, log, pub, startRevision - 1) else []
  }

  /** Main result. The events a watcher receives are those published from place `pub` on, where it had
      subscribed; it replayed up to `end`, past everything committed before it subscribed. Once all is
      received it has sent exactly the matching rows from its start revision on, each once, in order,
      preceded by matching rows below the start revision only if their publication was still
      outstanding when it subscribed and the replay found nothing to send. */
  lemma ExactlyOnce(w: Watcher, startRevision: nat, currentRev: nat, log: seq<Change>, all: seq<Event>, pub: nat,
                    end: nat)
    requires Decoded(w) && Lossless(w) && Publishes(all, log)
    requires 1 <= startRevision <= currentRev <= end <= |log| && pub <= end
    ensures Output(w, startRevision, currentRev, log, end, Received(SubscribeFilter(w.b), all[pub..])) ==
            Stale(w, log, startRevision, pub, end) + Matching(w, log, startRevision - 1, |log|)
  {
    var lo := startRevision - 1;
    var replayed := Matching(w, log, lo, end);
    MatchingRange(w, log, lo, end);
    FilterInvisible(w, LastRev(replayed), all[pub..]);
    ForwardTail(w, all, log, pub, LastRev(replayed));
    MatchingSplit(w, log, lo, end, |log|);
    if replayed != [] {
      LiveAfterReplay(w, log, lo, pub, end);
    } else {
      LiveAlone(w, log, lo, pub, end);
    }
  }

  /** After a replay that sent something, live events add the matching rows past its end. */
  lemma LiveAfterReplay(w: Watcher, log: seq<Change>, lo: nat, pub: nat, end: nat)
    requires lo <= end <= |log| && pub <= end && Matching(w, log, lo, end) != []
    ensures var last := LastRev(Matching(w, log, lo, end));
            last <= |log| && Matching(w, log, if last > pub then last else pub, |log|) == Matching(w, log, end, |log|)
  {
    NothingAfterLast(w, log, lo, end);
    var last := LastRev(Matching(w, log, lo, end));
    var from := if last > pub then last else pub;
    MatchingSplit(w, log, last, from, end);
    MatchingSplit(w, log, from, end, |log|);
  }

  /** After a replay that sent nothing, live events are all the matching rows published since. */
  lemma LiveAlone(w: Watcher, log: seq<Change>, lo: nat, pub: nat, end: nat)
    requires lo <= end <= |log| && pub <= end && Matching(w, log, lo, end) == []
    ensures Matching(w, log, pub, |log|) ==
            (if pub < lo then Matching(w, log, pub, lo) else []) + Matching(w, log, lo, |log|)
  {
    if pub < lo {
      MatchingSplit(w, log, pub, lo, |log|);
    } else {
      MatchingSplit(w, log, lo, pub, end);
      MatchingSplit(w, log, pub, end, |log|);
      MatchingSplit(w, log, lo, end, |log|);
    }
  }

  /** So the output is exact if and only if some matching row was there to replay, or no matching row
      below the start revision was still unpublished at the subscription. */
  lemma ExactIff(w: Watcher, startRevision: nat, currentRev: nat, log: seq<Change>, all: seq<Event>, pub: nat, end: nat)
    requires Decoded(w) && Lossless(w) && Publishes(all, log)
    requires 1 <= startRevision <= currentRev <= end <= |log| && pub <= end
    ensures Output(w, startRevision, currentRev, log, end, Received(SubscribeFilter(w.b), all[pub..])) ==
            Matching(w, log, startRevision - 1, |log|)
       <==> (Matching(w, log, startRevision - 1, end) != [] || Matching(w, log, pub, startRevision - 1) == [])
  {
    ExactlyOnce(w, startRevision, currentRev, log, all, pub, end);
    if pub >= startRevision - 1 {
      assert Matching(w, log, pub, startRevision - 1) == [];
    }
  }

  /** It is not when the watcher asks for revisions from 2 on, wants nothing there, and revision 1, which
      it does want, is still to be published: it is sent revision 1. */
  lemma StaleIsSent(w: Watcher, a: Event, b: Event)
    requires Decoded(w) && Lossless(w) && a.rev == 1 && b.rev == 2 && EventName(a.name) && EventName(b.name)
    requires MatchesKey(w, a.name) && !MatchesKey(w, b.name)
    ensures var log := [RowOf(a), RowOf(b)];
            && Matching(w, log, 1, 2) == []
            && Output(w, 2, 2, log, 2, Received(SubscribeFilter(w.b), [a, b])) == [EventMessage(a)]
  {
    var log, all := [RowOf(a), RowOf(b)], [a, b];
    assert Publishes(all, log);
    OneRow(w, all, log, 0);
    OneRow(w, all, log, 1);
    ExactlyOnce(w, 2, 2, log, all, 0, 2);
    assert all[0..] == all;
    assert [EventMessage(a)] + [] == [EventMessage(a)];
  }
}
