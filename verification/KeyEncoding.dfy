/** The two encodings of a (namespace, path) pair: the etcd key "/{namespace}{path}" clients see, and
    the bucket key "{namespace}\x00{path}" the store sorts by. */
module KeyEncoding {
  import opened Lex
  import opened Outcome

  datatype Name = Name(ns: Bytes, path: Bytes)

  predicate FirstAt(s: seq<int>, b: int, i: int) {
    0 <= i < |s| && s[i] == b && forall j :: 0 <= j < i ==> s[j] != b
  }

  lemma {:induction false} FirstExists(s: seq<int>, b: int)
    requires b in s
    ensures exists i :: FirstAt(s, b, i)
  {
    if s[0] == b {
      assert FirstAt(s, b, 0);
    } else {
      assert s == [s[0]] + s[1..];
      FirstExists(s[1..], b);
      var i :| FirstAt(s[1..], b, i);
      assert forall j :: 1 <= j <= i + 1 ==> s[j] == s[1..][j - 1];
      assert FirstAt(s, b, i + 1);
    }
  }

  /** bytes.IndexByte, and indexOf on code units: the first position of `b`, or -1. */
  function IndexByte(s: seq<int>, b: int): (i: int)
    ensures b in s ==> FirstAt(s, b, i)
    ensures b !in s ==> i == -1
  {
    if b !in s then -1
    else
      FirstExists(s, b);
      var i :| 0 <= i < |s| && FirstAt(s, b, i);
      i
  }

  function SplitKey(key: Bytes): (r: Option<Name>) {
    if key == [] || key[0] != SLASH then None
    else
      var rest := key[1..];
      var idx := IndexByte(rest, SLASH);
      if idx < 0 then
        if rest == [] then None else Some(Name(rest, [SLASH]))
      else if rest[..idx] == [] then None
      else Some(Name(rest[..idx], rest[idx..]))
  }

  /** JoinKey's treatment of a path without its leading slash. */
  function Rooted(path: Bytes): (r: Bytes)
    ensures r != [] && r[0] == SLASH
  {
    if path == [] || path[0] != SLASH then [SLASH] + path else path
  }

  function JoinKey(n: Name): (key: Bytes) {
    [SLASH] + n.ns + Rooted(n.path)
  }

  predicate HasSecondSlash(key: Bytes) {
    key != [] && SLASH in key[1..]
  }

  // ---------------------------------------------------------------- round trips

  lemma IndexByteUnique(s: Bytes, b: Byte, i: nat)
    requires i < |s| && s[i] == b && b !in s[..i]
    ensures IndexByte(s, b) == i
  {
    assert forall j :: 0 <= j < i ==> s[j] in s[..i];
    assert FirstAt(s, b, i);
  }

  lemma SplitAfterJoin(n: Name)
    requires n.ns != [] && SLASH !in n.ns
    ensures SplitKey(JoinKey(n)) == Some(Name(n.ns, Rooted(n.path)))
  {
    var key := JoinKey(n);
    var rest := key[1..];
    assert rest == n.ns + Rooted(n.path);
    assert rest[..|n.ns|] == n.ns && rest[|n.ns|..] == Rooted(n.path);
    IndexByteUnique(rest, SLASH, |n.ns|);
  }

  lemma JoinAfterSplit(key: Bytes)
    requires SplitKey(key).Some?
    ensures JoinKey(SplitKey(key).value) == key <==> HasSecondSlash(key)
    ensures !HasSecondSlash(key) ==> JoinKey(SplitKey(key).value) == key + [SLASH]
  {
    if HasSecondSlash(key) {
      RejoinSplit(key);
    } else {
      RejoinWhole(key);
      assert |key + [SLASH]| != |key|;
    }
  }

  lemma RejoinSplit(key: Bytes)
    requires SplitKey(key).Some? && HasSecondSlash(key)
    ensures JoinKey(SplitKey(key).value) == key
  {
    var rest := key[1..];
    var idx := IndexByte(rest, SLASH);
    assert SplitKey(key).value == Name(rest[..idx], rest[idx..]);
    assert rest[idx..][0] == SLASH;
    assert [SLASH] + rest[..idx] + rest[idx..] == key;
  }

  lemma RejoinWhole(key: Bytes)
    requires SplitKey(key).Some? && !HasSecondSlash(key)
    ensures JoinKey(SplitKey(key).value) == key + [SLASH]
  {
    assert SplitKey(key).value == Name(key[1..], [SLASH]);
    assert [SLASH] + key[1..] == key;
  }

  /** A key decodes exactly when it opens with a slash and a non-empty first segment. */
  lemma SplitKeyDomain(key: Bytes)
    ensures SplitKey(key).Some? <==> |key| >= 2 && key[0] == SLASH && key[1] != SLASH
    ensures SplitKey(key).Some? ==>
      var n := SplitKey(key).value;
      n.ns != [] && SLASH !in n.ns && n.path != [] && n.path[0] == SLASH
  {
    if |key| >= 2 && key[0] == SLASH {
      var idx := IndexByte(key[1..], SLASH);
      assert key[1] == key[1..][0];
      assert key[1] != SLASH && idx >= 0 ==> idx > 0;
      if key[1] == SLASH { IndexByteUnique(key[1..], SLASH, 0); }
    }
  }

  // ---------------------------------------------------------------- bucket keys

  function StoreKey(n: Name): (key: Bytes) {
    n.ns + [NUL] + n.path
  }

  /** The inverse the repository applies to every key it reads back: cut at the first NUL. */
  function ParseStoreKey(key: Bytes): (n: Name) {
    var idx := IndexByte(key, NUL);
    if idx < 0 then Name([], key) else Name(key[..idx], key[idx + 1..])
  }

  lemma ParseStoreKeyInverts(n: Name)
    ensures ParseStoreKey(StoreKey(n)) == n <==> NUL !in n.ns
    ensures NUL in StoreKey(n)
  {
    var key := StoreKey(n);
    var idx := IndexByte(key, NUL);
    assert key[|n.ns|] == NUL;
    if NUL !in n.ns {
      assert key[..|n.ns|] == n.ns;
      IndexByteUnique(key, NUL, |n.ns|);
      assert key[|n.ns| + 1..] == n.path;
    } else {
      var j :| 0 <= j < |n.ns| && n.ns[j] == NUL;
      assert key[j] == NUL;
    }
  }

  lemma StoreKeyInverts(key: Bytes)
    ensures StoreKey(ParseStoreKey(key)) == key <==> NUL in key
  {
    var idx := IndexByte(key, NUL);
    if idx >= 0 {
      assert key == key[..idx] + [NUL] + key[idx + 1..];
    } else {
      assert |StoreKey(ParseStoreKey(key))| == |key| + 1;
    }
  }

  // ---------------------------------------------------------------- history keys

  const NO_REVISION: Bytes := [0, 0, 0, 0, 0, 0, 0, 0]

  /** The first revision the eight bytes of a history key cannot tell from an earlier one. */
  const REVISION_LIMIT: nat := 0x1_0000_0000_0000_0000

  function BigEndian(n: nat, width: nat): (b: Bytes)
    ensures |b| == width
  {
    if width == 0 then [] else BigEndian(n / 256, width - 1) + [n % 256]
  }

  function Span(width: nat): (n: nat) {
    if width == 0 then 1 else 256 * Span(width - 1)
  }

  lemma {:induction false} BigEndianOrder(a: nat, b: nat, width: nat)
    requires a < b < Span(width)
    ensures Less(BigEndian(a, width), BigEndian(b, width))
  {
    var p, q := BigEndian(a / 256, width - 1), BigEndian(b / 256, width - 1);
    if a / 256 < b / 256 {
      BigEndianOrder(a / 256, b / 256, width - 1);
      LessSameLength(p, q, [a % 256], [b % 256]);
    } else {
      LessUnderPrefix(p, [a % 256], [b % 256]);
    }
  }

  function RevisionBytes(revision: nat): (b: Bytes)
    ensures |b| == |NO_REVISION|
  {
    BigEndian(revision, |NO_REVISION|)
  }

  /** "{key}\x00{revision}", the revision as eight bytes, highest first. */
  function HistoryKey(key: Bytes, revision: nat): (h: Bytes)
    ensures |h| == |key| + 1 + |NO_REVISION| && key + [NUL] <= h
  {
    key + [NUL] + RevisionBytes(revision)
  }

  /** The rows of one key are sorted by revision. */
  lemma HistoryKeyOrder(key: Bytes, a: nat, b: nat)
    requires a < REVISION_LIMIT && b < REVISION_LIMIT
    ensures Less(HistoryKey(key, a), HistoryKey(key, b)) <==> a < b
  {
    assert Span(8) == REVISION_LIMIT;
    LessUnderPrefix(key + [NUL], RevisionBytes(a), RevisionBytes(b));
    if a < b {
      BigEndianOrder(a, b, 8);
    } else if b < a {
      BigEndianOrder(b, a, 8);
      LessAsymmetric(RevisionBytes(b), RevisionBytes(a));
    } else {
      LessIrreflexive(RevisionBytes(a));
    }
  }

  /** Two rows share a history key only if they are the same row. */
  lemma HistoryKeyInjective(key: Bytes, a: nat, key': Bytes, b: nat)
    requires a < REVISION_LIMIT && b < REVISION_LIMIT && HistoryKey(key, a) == HistoryKey(key', b)
    ensures key == key' && a == b
  {
    assert HistoryKey(key, a)[..|key|] == key && HistoryKey(key', b)[..|key'|] == key';
    HistoryKeyOrder(key, a, b);
    HistoryKeyOrder(key, b, a);
    LessIrreflexive(HistoryKey(key, a));
  }

  // ---------------------------------------------------------------- ranges

  /** A decoded [key, range_end): both parts of `end` empty means one key, end namespace "\x00" means
      everything from `start` on. */
  datatype Bounds = Bounds(start: Name, end: Name) {
    predicate Single() { end == Name([], []) }

    predicate ScanAll() { end.ns == [NUL] }
  }

  function SplitRange(key: Bytes, rangeEnd: Bytes): (r: Option<Bounds>) {
    match SplitKey(key)
    case None => None
    case Some(start) =>
      if rangeEnd == [] then Some(Bounds(start, Name([], [])))
      else if rangeEnd == [NUL] then Some(Bounds(start, Name([NUL], [])))
      else match SplitKey(rangeEnd)
        case None => None
        case Some(end) => Some(Bounds(start, end))
  }

  /** The key and range_end a client sends for decoded bounds. */
  function JoinEnd(b: Bounds): (rangeEnd: Bytes) {
    if b.Single() then [] else if b.end == Name([NUL], []) then [NUL] else JoinKey(b.end)
  }

  predicate Sayable(n: Name) {
    n.ns != [] && SLASH !in n.ns && n.path != [] && n.path[0] == SLASH
  }

  predicate SayableRange(b: Bounds) {
    Sayable(b.start) && (b.Single() || b.end == Name([NUL], []) || Sayable(b.end))
  }

  /** Every range a client can name decodes to itself. */
  lemma SplitRangeInverts(b: Bounds)
    requires SayableRange(b)
    ensures SplitRange(JoinKey(b.start), JoinEnd(b)) == Some(b)
  {
    SplitAfterJoin(b.start);
    if Sayable(b.end) {
      SplitAfterJoin(b.end);
      assert JoinKey(b.end)[0] == SLASH;
    }
  }

  /** What a range selects among bucket keys. */
  predicate InStoreRange(k: Bytes, b: Bounds) {
    if b.Single() then k == StoreKey(b.start)
    else AtMost(StoreKey(b.start), k) && (b.ScanAll() || Less(k, StoreKey(b.end)))
  }

  /** etcd's own reading of [start, end) over client-visible keys. */
  predicate InKeyRange(n: Name, start: Bytes, end: Bytes) {
    AtMost(start, JoinKey(n)) && Less(JoinKey(n), end)
  }

  /** Names the service can store: no slash in the namespace, a path that opens with one. */
  predicate Stored(n: Name) {
    SLASH !in n.ns && n.path != [] && n.path[0] == SLASH
  }

  /** Names it stores and reads back as they were: canonical namespaces hold no NUL either. */
  predicate Canonical(n: Name) {
    Stored(n) && NUL !in n.ns
  }

  /** Of two namespaces, one extending the other, the shorter comes first in the bucket: the next byte is above
      the NUL that ends the shorter one, or the byte after that is above the slash its path opens with. */
  predicate Ahead(a: Name, b: Name)
    requires a.ns < b.ns
  {
    b.ns[|a.ns|] != NUL || (|a.ns| + 1 < |b.ns| && SLASH < b.ns[|a.ns| + 1])
  }

  /** One namespace extends the other with a byte that sorts below the slash (such as '-' or '.'), yet comes
      after it in the bucket. */
  predicate Straddles(a: Name, b: Name) {
    a.ns < b.ns && b.ns[|a.ns|] < SLASH && Ahead(a, b)
  }

  /** The bucket order and the etcd key order agree on two names exactly when neither namespace
      extends the other with a byte below the slash. */
  lemma OrdersAgree(a: Name, b: Name)
    requires Stored(a) && Stored(b)
    ensures (Less(StoreKey(a), StoreKey(b)) == Less(JoinKey(a), JoinKey(b)))
         <==> !(Straddles(a, b) || Straddles(b, a))
  {
    assert JoinKey(a) == [SLASH] + (a.ns + a.path) && JoinKey(b) == [SLASH] + (b.ns + b.path);
    LessUnderPrefix([SLASH], a.ns + a.path, b.ns + b.path);
    if a.ns == b.ns {
      LessUnderPrefix(a.ns, a.path, b.path);
      LessUnderPrefix(a.ns + [NUL], a.path, b.path);
    } else {
      var i := FirstDifference(a.ns, b.ns);
      if i == |a.ns| {
        OrderOfExtension(a, b);
      } else if i == |b.ns| {
        OrderOfExtension(b, a);
      } else {
        DifferentNamespaces(a, b, i);
        Cut(a.ns, i, a.path);
        Cut(b.ns, i, b.path);
        LessAtDifference(a.ns[..i], a.ns[i], a.ns[i + 1..] + a.path, b.ns[i], b.ns[i + 1..] + b.path);
      }
    }
  }

  lemma Cut(s: Bytes, i: nat, tail: Bytes)
    requires i < |s|
    ensures s + tail == s[..i] + [s[i]] + (s[i + 1..] + tail)
  {
    assert s == s[..i] + [s[i]] + s[i + 1..];
  }

  /** The case of OrdersAgree where `a`'s namespace is a proper prefix of `b`'s. */
  lemma OrderOfExtension(a: Name, b: Name)
    requires Stored(a) && Stored(b) && a.ns < b.ns
    ensures Less(StoreKey(a), StoreKey(b)) == Ahead(a, b) && Less(StoreKey(b), StoreKey(a)) == !Ahead(a, b)
    ensures Less(a.ns + a.path, b.ns + b.path) == (SLASH < b.ns[|a.ns|])
    ensures Less(b.ns + b.path, a.ns + a.path) == (b.ns[|a.ns|] < SLASH)
  {
    var c, tail := b.ns[|a.ns|], b.ns[|a.ns| + 1..];
    assert c in b.ns && (forall x :: x in tail ==> x in b.ns);
    assert b.ns[..|a.ns|] == a.ns;
    OrderInBucket(a, b, c, tail);
    Cut(b.ns, |a.ns|, b.path);
    assert a.ns + a.path == a.ns + [SLASH] + a.path[1..];
    LessAtDifference(a.ns, SLASH, a.path[1..], c, tail + b.path);
    LessAtDifference(a.ns, c, tail + b.path, SLASH, a.path[1..]);
  }

  lemma OrderInBucket(a: Name, b: Name, c: Byte, tail: Bytes)
    requires Stored(a) && b.ns == a.ns + [c] + tail && SLASH !in tail
    ensures Less(StoreKey(a), StoreKey(b)) == Ahead(a, b) && Less(StoreKey(b), StoreKey(a)) == !Ahead(a, b)
  {
    var behind := tail + ([NUL] + b.path);
    assert StoreKey(b) == a.ns + [c] + behind;
    LessAtDifference(a.ns, NUL, a.path, c, behind);
    LessAtDifference(a.ns, c, behind, NUL, a.path);
    assert behind[0] == if tail == [] then NUL else tail[0];
    assert tail != [] ==> tail[0] in tail && tail[0] == b.ns[|a.ns| + 1];
  }

  /** A prefix that ends in a separator absent from the namespace pins the namespace. */
  lemma SeparatorPinsNamespace(ns: Bytes, sep: Byte, other: Bytes, tail: Bytes)
    requires sep !in ns && sep !in other && ns + [sep] <= other + [sep] + tail
    ensures ns == other
  {
    var whole := other + [sep] + tail;
    IndexByteUnique(whole, sep, |other|);
    assert whole[..|ns|] == ns by {
      assert whole[..|ns| + 1] == ns + [sep];
    }
    assert whole[|ns|] == sep;
    IndexByteUnique(whole, sep, |ns|);
    assert whole[..|other|] == other;
  }

  /** Inside one namespace a stored range and a watched range select the same keys, except that an end in the
      namespace "\x00" is taken for no end at all. */
  lemma RangesAgreeInOneNamespace(n: Name, b: Bounds)
    requires Stored(n) && Stored(b.start) && Stored(b.end) && b.start.ns == b.end.ns
    ensures InStoreRange(StoreKey(n), b) <==>
            || InKeyRange(n, JoinKey(b.start), JoinKey(b.end))
            || (b.ScanAll() && AtMost(StoreKey(b.start), StoreKey(n)) && AtMost(StoreKey(b.end), StoreKey(n)))
  {
    if n.ns == b.start.ns {
      OrdersAgree(n, b.start);
      OrdersAgree(n, b.end);
    } else {
      OutsideTheNamespace(n, b);
    }
  }

  lemma OutsideTheNamespace(n: Name, b: Bounds)
    requires Stored(n) && Stored(b.start) && Stored(b.end) && b.start.ns == b.end.ns != n.ns
    ensures !(AtMost(StoreKey(b.start), StoreKey(n)) && Less(StoreKey(n), StoreKey(b.end)))
    ensures !InKeyRange(n, JoinKey(b.start), JoinKey(b.end))
  {
    var ns := b.start.ns;
    assert (ns + [NUL])[..|ns|] == ns && (n.ns + [NUL])[..|n.ns|] == n.ns;
    if AtMost(StoreKey(b.start), StoreKey(n)) && Less(StoreKey(n), StoreKey(b.end)) {
      LessAsymmetric(StoreKey(n), StoreKey(b.end));
      assert StoreKey(b.start) == ns + [NUL] + [SLASH] + b.start.path[1..];
      assert StoreKey(b.end) == ns + [NUL] + [SLASH] + b.end.path[1..];
      PrefixConvex(ns + [NUL] + [SLASH], StoreKey(b.start), StoreKey(n), StoreKey(b.end));
      assert StoreKey(n) == n.ns + [NUL] + [SLASH] + n.path[1..];
      SeparatorPinsNamespace(ns + [NUL], SLASH, n.ns + [NUL], n.path[1..]);
    }
    if InKeyRange(n, JoinKey(b.start), JoinKey(b.end)) {
      LessAsymmetric(JoinKey(n), JoinKey(b.end));
      assert JoinKey(b.start) == [SLASH] + (ns + [SLASH]) + b.start.path[1..];
      assert JoinKey(b.end) == [SLASH] + (ns + [SLASH]) + b.end.path[1..];
      PrefixConvex([SLASH] + (ns + [SLASH]), JoinKey(b.start), JoinKey(n), JoinKey(b.end));
      assert JoinKey(n)[1..] == n.ns + [SLASH] + n.path[1..];
      assert ns + [SLASH] <= JoinKey(n)[1..];
      SeparatorPinsNamespace(ns, SLASH, n.ns, n.path[1..]);
    }
  }

  /** The whole-namespace prefix range ["/ns/", "/ns0") read as etcd keys covers that namespace only. */
  lemma NamespaceRangeOfKeys(n: Name, ns: Bytes)
    requires Stored(n) && ns != [] && SLASH !in ns
    ensures InKeyRange(n, [SLASH] + ns + [SLASH], [SLASH] + ns + [SLASH + 1]) <==> n.ns == ns
  {
    PrefixRangeExact([SLASH] + ns + [SLASH], [SLASH] + ns + [SLASH + 1], JoinKey(n));
    NamespacePrefix(n, ns);
  }

  lemma NamespacePrefix(n: Name, ns: Bytes)
    requires Stored(n) && SLASH !in ns
    ensures [SLASH] + ns + [SLASH] <= JoinKey(n) <==> n.ns == ns
  {
    var start, tail := [SLASH] + ns + [SLASH], n.path[1..];
    assert JoinKey(n) == [SLASH] + (n.ns + [SLASH] + tail);
    assert start == [SLASH] + (ns + [SLASH]);
    assert n.ns == ns ==> JoinKey(n) == start + tail;
    if start <= JoinKey(n) {
      assert (ns + [SLASH]) <= n.ns + [SLASH] + tail by {
        assert JoinKey(n)[1..|start|] == start[1..];
      }
      SeparatorPinsNamespace(ns, SLASH, n.ns, tail);
    }
  }

  /** The bounds that range decodes to. */
  function NamespaceBounds(ns: Bytes): (b: Bounds) {
    Bounds(Name(ns, [SLASH]), Name(ns + [SLASH + 1], [SLASH]))
  }

  lemma NamespaceRangeDecodes(ns: Bytes)
    requires ns != [] && SLASH !in ns
    ensures SplitRange([SLASH] + ns + [SLASH], [SLASH] + ns + [SLASH + 1]) == Some(NamespaceBounds(ns))
  {
    SplitAfterJoin(Name(ns, [SLASH]));
    assert JoinKey(Name(ns, [SLASH])) == [SLASH] + ns + [SLASH];
    var key := [SLASH] + ns + [SLASH + 1];
    assert key[1..] == ns + [SLASH + 1];
  }

  /** Two more ways into the range, for namespaces that hold a NUL. */
  predicate SlipsIn(n: Name, ns: Bytes) {
    || ns == n.ns + [NUL]
    || (ns + [SLASH + 1] < n.ns && !Ahead(Name(ns + [SLASH + 1], [SLASH]), n))
  }

  /** The same range scanned in bucket order also takes in every namespace that extends `ns` with a
      byte below the slash. */
  lemma NamespaceRangeOfBuckets(n: Name, ns: Bytes)
    requires Stored(n) && ns != [] && SLASH !in ns
    ensures InStoreRange(StoreKey(n), NamespaceBounds(ns)) <==>
            n.ns == ns || Straddles(Name(ns, [SLASH]), n) || SlipsIn(n, ns)
  {
    var start, end := Name(ns, [SLASH]), Name(ns + [SLASH + 1], [SLASH]);
    if n.ns == ns {
      PathAboveRoot(n);
      OrderOfExtension(n, end);
    } else {
      var i := FirstDifference(ns, n.ns);
      if i == |ns| {
        OrderOfExtension(start, n);
        ExtensionAgainstNext(n, ns);
      } else if i == |n.ns| {
        ShorterInRange(n, ns);
      } else {
        DifferentNamespaces(n, start, i);
        DifferentNamespaces(n, end, i);
      }
    }
  }

  /** A namespace that `ns` extends answers the range only if a NUL is all that `ns` adds. */
  lemma ShorterInRange(n: Name, ns: Bytes)
    requires Stored(n) && SLASH !in ns && n.ns < ns
    ensures InStoreRange(StoreKey(n), NamespaceBounds(ns)) <==> ns == n.ns + [NUL]
  {
    var start, end, m := Name(ns, [SLASH]), Name(ns + [SLASH + 1], [SLASH]), |n.ns|;
    OrderOfExtension(n, start);
    OrderOfExtension(n, end);
    assert ns == n.ns + [ns[m]] + ns[m + 1..];
    assert end.ns[m] == ns[m] && end.ns[m + 1] == if m + 1 < |ns| then ns[m + 1] else SLASH + 1;
  }

  lemma PathAboveRoot(n: Name)
    requires n.path != [] && n.path[0] == SLASH
    ensures AtMost(StoreKey(Name(n.ns, [SLASH])), StoreKey(n))
  {
    assert StoreKey(n) == StoreKey(Name(n.ns, [SLASH])) + n.path[1..];
    PrefixAtMost(StoreKey(Name(n.ns, [SLASH])), StoreKey(n));
  }

  /** Two names whose namespaces first differ at byte i compare as those bytes do. */
  lemma DifferentNamespaces(a: Name, b: Name, i: nat)
    requires i < |a.ns| && i < |b.ns| && a.ns[..i] == b.ns[..i] && a.ns[i] != b.ns[i]
    ensures Less(StoreKey(a), StoreKey(b)) == (a.ns[i] < b.ns[i])
    ensures Less(StoreKey(b), StoreKey(a)) == (b.ns[i] < a.ns[i])
  {
    Cut(a.ns, i, [NUL] + a.path);
    Cut(b.ns, i, [NUL] + b.path);
    var ta, tb := a.ns[i + 1..] + ([NUL] + a.path), b.ns[i + 1..] + ([NUL] + b.path);
    LessAtDifference(a.ns[..i], a.ns[i], ta, b.ns[i], tb);
    LessAtDifference(a.ns[..i], b.ns[i], tb, a.ns[i], ta);
    assert StoreKey(a) == a.ns + ([NUL] + a.path) && StoreKey(b) == b.ns + ([NUL] + b.path);
  }

  /** A namespace that extends `ns` lies below "ns0" exactly when the next byte is below the slash, or it is
      "ns0" and a NUL with nothing above the slash behind. */
  lemma ExtensionAgainstNext(n: Name, ns: Bytes)
    requires Stored(n) && SLASH !in ns && ns < n.ns
    ensures Less(StoreKey(n), StoreKey(Name(ns + [SLASH + 1], [SLASH]))) <==> n.ns[|ns|] < SLASH || SlipsIn(n, ns)
  {
    var end := Name(ns + [SLASH + 1], [SLASH]);
    var c := n.ns[|ns|];
    assert c in n.ns;
    assert end.ns[..|ns|] == ns == n.ns[..|ns|];
    if c != SLASH + 1 {
      DifferentNamespaces(n, end, |ns|);
    } else {
      assert n.ns[..|ns| + 1] == end.ns;
      if n.ns == end.ns {
        PathAboveRoot(n);
      } else {
        OrderOfExtension(end, n);
      }
    }
  }

  /** So the two readings of a whole-namespace range differ for every namespace: with "-eu" added to
      its name, a namespace answers the stored range although its keys lie outside the key range. */
  lemma NamespaceRangesDiffer(ns: Bytes, path: Bytes)
    requires ns != [] && SLASH !in ns && path != [] && path[0] == SLASH
    ensures var stray := Name(ns + [45, 101, 117], path);
            && InStoreRange(StoreKey(stray), NamespaceBounds(ns))
            && !InKeyRange(stray, [SLASH] + ns + [SLASH], [SLASH] + ns + [SLASH + 1])
  {
    var stray := Name(ns + [45, 101, 117], path);
    NamespaceRangeOfBuckets(stray, ns);
    NamespaceRangeOfKeys(stray, ns);
  }

  // ---------------------------------------------------------------- the web client's decoder

  /** A JavaScript string is a sequence of UTF-16 code units. */
  type CodeUnit = n: int | 0 <= n < 0x1_0000

  /** An ASCII string and its UTF-8 bytes: the same numbers, all below 128. */
  predicate SameAscii(s: seq<CodeUnit>, b: Bytes) {
    |s| == |b| && forall i :: 0 <= i < |s| ==> s[i] == b[i] < 128
  }

  datatype DecodedKey = DecodedKey(namespace: seq<CodeUnit>, path: seq<CodeUnit>)

  function SplitEtcdKey(key: seq<CodeUnit>): (r: Option<DecodedKey>) {
    if key == [] || key[0] != 47 then None
    else
      var rest := key[1..];
      var slashIdx := IndexByte(rest, 47);
      if slashIdx < 0 then
        if rest == [] then None else Some(DecodedKey(rest, [47]))
      else if rest[..slashIdx] == [] then None
      else
        var path := rest[slashIdx..];
        Some(DecodedKey(rest[..slashIdx], if path == [] then [47] else path))
  }

  /** The web decoder and the server decoder agree on every ASCII key. */
  lemma DecodersAgree(key: seq<CodeUnit>, bytes: Bytes)
    requires SameAscii(key, bytes)
    ensures match (SplitEtcdKey(key), SplitKey(bytes))
            case (None, None) => true
            case (Some(web), Some(server)) => SameAscii(web.namespace, server.ns) && SameAscii(web.path, server.path)
            case _ => false
  {
    if key != [] && key[0] == 47 {
      assert key[1..] == bytes[1..];
    }
  }

  /** isPrefixRange: `end` is `start` with its last unit incremented. */
  predicate IsPrefixRange(start: seq<int>, end: seq<int>) {
    && start != [] && |start| == |end|
    && (forall i :: 0 <= i < |start| - 1 ==> start[i] == end[i])
    && end[|end| - 1] == start[|start| - 1] + 1
  }

  /** Whenever isPrefixRange holds, [start, end) is exactly the keys with prefix `start`. */
  lemma PrefixRangeExact(start: Bytes, end: Bytes, key: Bytes)
    requires IsPrefixRange(start, end)
    ensures AtMost(start, key) && Less(key, end) <==> start <= key
  {
    var m := |start| - 1;
    var p := start[..m];
    assert start == p + [start[m]] + [] && end == p + [end[m]] + [];
    if p <= key && |key| > m {
      assert key == p + [key[m]] + key[m + 1..];
      LessAtDifference(p, key[m], key[m + 1..], start[m], []);
      LessAtDifference(p, key[m], key[m + 1..], end[m], []);
      assert start <= key <==> key[m] == start[m];
    } else if p <= key {
      assert key == p + [];
      LessUnderPrefix(p, [], [start[m]]);
      assert start == p + [start[m]];
    } else if AtMost(start, key) && Less(key, end) {
      LessAsymmetric(key, end);
      PrefixConvex(p, start, key, end);
    }
  }

  /** The label "all configs in the namespace" the web client gives a prefix range whose start path is
      "/" is right for every key exactly when the start key spells out its second slash. */
  lemma AllInNamespaceLabel(start: seq<CodeUnit>, end: seq<CodeUnit>, first: Bytes, next: Bytes)
    requires SameAscii(start, first) && SameAscii(end, next) && IsPrefixRange(start, end)
    requires SplitEtcdKey(start).Some? && SplitEtcdKey(start).value.path == [47]
    ensures SplitKey(first).Some?
    ensures (forall n :: Stored(n) ==> (InKeyRange(n, first, next) <==> n.ns == SplitKey(first).value.ns)) <==>
            HasSecondSlash(first)
  {
    DecodersAgree(start, first);
    var web, server := SplitEtcdKey(start).value, SplitKey(first).value;
    assert SameAscii(web.path, server.path) && server.path[0] == web.path[0];
    assert server == Name(server.ns, [SLASH]);
    LabelOfKeys(first, next, server.ns);
  }

  lemma LabelOfKeys(start: Bytes, end: Bytes, ns: Bytes)
    requires IsPrefixRange(start, end) && SplitKey(start) == Some(Name(ns, [SLASH]))
    ensures (forall n :: Stored(n) ==> (InKeyRange(n, start, end) <==> n.ns == ns)) <==> HasSecondSlash(start)
  {
    SplitKeyDomain(start);
    JoinAfterSplit(start);
    if HasSecondSlash(start) {
      assert end == [SLASH] + ns + [SLASH + 1] by {
        assert end[..|end| - 1] == start[..|start| - 1];
      }
      forall n | Stored(n)
        ensures InKeyRange(n, start, end) <==> n.ns == ns
      {
        NamespaceRangeOfKeys(n, ns);
      }
    } else {
      LabelTooNarrow(start, end, ns);
    }
  }

  lemma LabelTooNarrow(start: Bytes, end: Bytes, ns: Bytes)
    requires IsPrefixRange(start, end) && SplitKey(start) == Some(Name(ns, [SLASH])) && !HasSecondSlash(start)
    ensures exists n :: Stored(n) && InKeyRange(n, start, end) && n.ns != ns
  {
    SplitKeyDomain(start);
    assert start == [SLASH] + ns;
    var other := Name(ns + [120], [SLASH]);
    PrefixRangeExact(start, end, JoinKey(other));
    assert JoinKey(other) == start + [120, SLASH];
    assert Stored(other) && InKeyRange(other, start, end) && other.ns != ns;
  }
}
