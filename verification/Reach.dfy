/** Which namespaces a range reaches. Ranges are taken in bucket order, so the namespace of a key is whatever
    precedes its first NUL, and a range from one namespace to another runs through all that sort between. */
module Reach {
  import opened Lex
  import opened KeyEncoding
  import opened KvStore

  /** The namespace a stored key is read back under. */
  function Home(key: Bytes): (ns: Bytes) {
    ParseStoreKey(key).ns
  }

  lemma KeyAtHome(key: Bytes)
    requires NUL in key
    ensures NUL !in Home(key) && key == Home(key) + [NUL] + ParseStoreKey(key).path
  {
    StoreKeyInverts(key);
  }

  lemma HomeOf(ns: Bytes, path: Bytes)
    requires NUL !in ns
    ensures NUL in ns + [NUL] + path && Home(ns + [NUL] + path) == ns && ParseStoreKey(ns + [NUL] + path).path == path
  {
    ParseStoreKeyInverts(Name(ns, path));
  }

  predicate EmptyRange(b: Bounds) {
    !b.Single() && !b.ScanAll() && !Less(StoreKey(b.start), StoreKey(b.end))
  }

  lemma NothingInEmptyRange(b: Bounds, k: Bytes)
    requires EmptyRange(b)
    ensures !InStoreRange(k, b)
  {
    if InStoreRange(k, b) {
      AtMostLess(StoreKey(b.start), k, StoreKey(b.end));
    }
  }

  lemma StartInRange(b: Bounds)
    requires !EmptyRange(b)
    ensures InStoreRange(StoreKey(b.start), b) && NUL in StoreKey(b.start)
  {
    LessIrreflexive(StoreKey(b.start));
    ParseStoreKeyInverts(b.start);
  }

  // ---------------------------------------------------------------- keys clients write

  /** A key that a client can write. */
  ghost predicate Writable(k: Bytes) {
    exists n :: Sayable(n) && StoreKey(n) == k
  }

  /** A store that holds no others. */
  ghost predicate Written(s: Store) {
    forall k :: k in s.kvs ==> Writable(k)
  }

  lemma WritableHome(k: Bytes)
    requires Writable(k)
    ensures NUL in k && SLASH !in Home(k) && SLASH in k
  {
    var n :| Sayable(n) && StoreKey(n) == k;
    assert k[|n.ns|] == NUL && k[|n.ns| + 1] == SLASH;
    var i := IndexByte(k, NUL);
    assert k[..i] <= n.ns && k[..|n.ns|] == n.ns;
    assert forall j :: 0 <= j < i ==> k[j] == n.ns[j];
  }

  function Nuls(n: nat): (s: Bytes)
    ensures |s| == n && forall i :: 0 <= i < n ==> s[i] == NUL
  {
    if n == 0 then [] else [NUL] + Nuls(n - 1)
  }

  lemma {:induction false} NulsBelow(rest: Bytes, j: nat)
    requires SLASH in rest && j >= |rest|
    ensures Less(Nuls(j) + [SLASH], rest)
  {
    var low := Nuls(j) + [SLASH];
    assert low[0] == NUL && low[1..] == Nuls(j - 1) + [SLASH];
    if rest[0] == NUL {
      assert rest == [NUL] + rest[1..];
      NulsBelow(rest[1..], j - 1);
    }
  }

  /** What sorts below without being a prefix stays below however it goes on. */
  lemma {:induction false} StaysBelow(f: Bytes, x: Bytes, e: Bytes)
    requires Less(f, e) && !(f <= e)
    ensures Less(f + x, e)
  {
    assert f != [] && (f + x)[0] == f[0] && (f + x)[1..] == f[1..] + x;
    assert f == [f[0]] + f[1..] && e == [e[0]] + e[1..];
    if f[0] == e[0] {
      StaysBelow(f[1..], x, e[1..]);
    }
  }

  /** Behind the first key of a namespace, and before anything with a slash, comes one that clients can write. */
  lemma WritableBehind(first: Bytes, e: Bytes) returns (j: nat)
    requires SLASH !in first && SLASH in e && Less(first, e)
    ensures j > 0 && Less(first + (Nuls(j) + [SLASH]), e)
  {
    if first <= e {
      var rest := e[|first|..];
      assert e == first + rest;
      j := |rest| + 1;
      NulsBelow(rest, j);
      LessUnderPrefix(first, Nuls(j) + [SLASH], rest);
    } else {
      j := 1;
      StaysBelow(first, Nuls(1) + [SLASH], e);
    }
  }

  lemma WritableAt(ns: Bytes, j: nat)
    requires NUL !in ns && SLASH !in ns && j > 0
    ensures var k := ns + [NUL] + (Nuls(j) + [SLASH]); Writable(k) && Home(k) == ns
  {
    var n := Name(ns + Nuls(j), [SLASH]);
    assert Nuls(j) + [NUL] == [NUL] + Nuls(j);
    assert StoreKey(n) == ns + (Nuls(j) + [NUL]) + [SLASH] == ns + [NUL] + (Nuls(j) + [SLASH]);
    assert Sayable(n);
    HomeOf(ns, Nuls(j) + [SLASH]);
  }

  /** A range that a client can name and that touches a namespace takes in a writable key of it. */
  lemma NearbyKey(b: Bounds, ns: Bytes) returns (k: Bytes)
    requires SayableRange(b) && NUL !in ns && SLASH !in ns && Touches(b, ns)
    ensures Writable(k) && InStoreRange(k, b) && Home(k) == ns
  {
    var first, start := ns + [NUL], StoreKey(b.start);
    assert Writable(start);
    WritableHome(start);
    if ns == Home(start) && !EmptyRange(b) {
      StartInRange(b);
      return start;
    }
    var j := 1;
    if !b.ScanAll() {
      assert Writable(StoreKey(b.end));
      WritableHome(StoreKey(b.end));
      j := WritableBehind(first, StoreKey(b.end));
    }
    k := first + (Nuls(j) + [SLASH]);
    WritableAt(ns, j);
    PrefixAtMost(first, k);
    if Less(k, start) {
      AtMostLess(first, k, start);
    }
  }

  // ---------------------------------------------------------------- one namespace

  /** Some key of the range that clients can write is read back under this namespace. */
  ghost predicate ReachesInto(b: Bounds, ns: Bytes) {
    exists k :: Writable(k) && InStoreRange(k, b) && Home(k) == ns
  }

  /** What to look at to tell: the first key of the namespace, and where the range starts. */
  predicate Touches(b: Bounds, ns: Bytes) {
    InStoreRange(ns + [NUL], b) || (ns == Home(StoreKey(b.start)) && !EmptyRange(b))
  }

  lemma TouchesExact(b: Bounds, ns: Bytes)
    requires SayableRange(b) && NUL !in ns && SLASH !in ns
    ensures Touches(b, ns) <==> ReachesInto(b, ns)
  {
    if Touches(b, ns) {
      var k := NearbyKey(b, ns);
    }
    forall k | Writable(k) && InStoreRange(k, b) && Home(k) == ns
      ensures Touches(b, ns)
    {
      WritableHome(k);
      FirstKeyInRange(b, ns, k);
    }
  }

  lemma FirstKeyInRange(b: Bounds, ns: Bytes, k: Bytes)
    requires NUL in k && InStoreRange(k, b) && Home(k) == ns
    ensures Touches(b, ns)
  {
    var s, first := StoreKey(b.start), ns + [NUL];
    KeyAtHome(k);
    assert first <= k;
    if EmptyRange(b) {
      NothingInEmptyRange(b, k);
    } else if ns != Home(s) {
      PrefixAtMost(first, k);
      ParseStoreKeyInverts(b.start);
      if Less(first, s) {
        LessAsymmetric(first, s);
        PrefixConvex(first, first, s, k);
        KeyAtHome(s);
        SeparatorPinsNamespace(ns, NUL, Home(s), ParseStoreKey(s).path);
      }
      if !b.ScanAll() {
        AtMostLess(first, k, StoreKey(b.end));
      }
    }
  }

  // ---------------------------------------------------------------- all namespaces

  function Ones(n: nat): (s: Bytes)
    ensures |s| == n && NUL !in s && SLASH !in s
  {
    if n == 0 then [] else [1] + Ones(n - 1)
  }

  /** The second namespace is the first followed by nothing but bytes 1: the only way to have finitely many
      namespaces in between. */
  predicate Stepped(a: Bytes, b: Bytes) {
    a <= b && b == a + Ones(|b| - |a|)
  }

  /** The namespaces of a non-empty range are on a list: one key, or a range whose ends are a stepped pair
      with every step listed. */
  predicate Listed(b: Bounds, list: seq<Bytes>) {
    var s, e := ParseStoreKey(StoreKey(b.start)), ParseStoreKey(StoreKey(b.end));
    if b.Single() then s.ns in list
    else
      && !b.ScanAll() && Stepped(s.ns, e.ns)
      && (forall m :: 0 <= m < |e.ns| - |s.ns| ==> s.ns + Ones(m) in list)
      && (e.path == [] || e.ns in list)
  }

  ghost predicate StaysOn(b: Bounds, list: seq<Bytes>) {
    forall k :: Writable(k) && InStoreRange(k, b) ==> Home(k) in list
  }

  /** A range that a client can name stays on a finite list of namespaces exactly when it is empty or listed. */
  lemma StaysOnExact(b: Bounds, list: seq<Bytes>)
    requires SayableRange(b)
    ensures StaysOn(b, list) <==> EmptyRange(b) || Listed(b, list)
  {
    if EmptyRange(b) {
      forall k ensures !InStoreRange(k, b) {
        NothingInEmptyRange(b, k);
      }
    } else if Listed(b, list) {
      forall k | Writable(k) && InStoreRange(k, b) ensures Home(k) in list {
        WritableHome(k);
        ListedCovers(b, list, k);
      }
    } else {
      var far := Escape(b, list);
      KeyAtHome(far);
      FirstKeyInRange(b, Home(far), far);
      var k := NearbyKey(b, Home(far));
      assert Writable(k) && InStoreRange(k, b) && Home(k) !in list;
    }
  }

  lemma ListedCovers(b: Bounds, list: seq<Bytes>, k: Bytes)
    requires Listed(b, list) && NUL in k && InStoreRange(k, b)
    ensures Home(k) in list
  {
    if !b.Single() {
      var s, e := ParseStoreKey(StoreKey(b.start)), ParseStoreKey(StoreKey(b.end));
      ParseStoreKeyInverts(b.start);
      ParseStoreKeyInverts(b.end);
      KeyAtHome(StoreKey(b.start));
      KeyAtHome(StoreKey(b.end));
      var m := BetweenSteps(s.ns, s.path, |e.ns| - |s.ns|, e.path, k);
      HomeOf(s.ns + Ones(m), k[|s.ns| + m + 1..]);
      assert s.ns + Ones(m) in list;
    }
  }

  /** Between a key of a namespace and one so many steps on lie only keys of the namespaces on the way. */
  lemma BetweenSteps(ns: Bytes, from: Bytes, j: nat, to: Bytes, k: Bytes) returns (m: nat)
    requires NUL !in ns && NUL in k && AtMost(ns + [NUL] + from, k) && Less(k, ns + Ones(j) + [NUL] + to)
    ensures m <= j && |ns| + m < |k| && k == ns + Ones(m) + [NUL] + k[|ns| + m + 1..] && (m == j ==> to != [])
  {
    var tail := TailBetween(ns, from, j, to, k);
    m := StepBelow(tail, j, to);
    Rejoin(ns, tail, m);
    assert k[|ns| + m + 1..] == tail[m + 1..];
  }

  lemma Rejoin(ns: Bytes, tail: Bytes, m: nat)
    requires m < |tail|
    ensures ns + tail == ns + tail[..m] + [tail[m]] + tail[m + 1..]
  {
    assert tail == tail[..m] + [tail[m]] + tail[m + 1..];
  }

  lemma TailBetween(ns: Bytes, from: Bytes, j: nat, to: Bytes, k: Bytes) returns (tail: Bytes)
    requires NUL !in ns && NUL in k && AtMost(ns + [NUL] + from, k) && Less(k, ns + Ones(j) + [NUL] + to)
    ensures k == ns + tail && NUL in tail && Less(tail, Ones(j) + [NUL] + to)
  {
    var low, high := ns + [NUL] + from, ns + Ones(j) + [NUL] + to;
    LessAsymmetric(k, high);
    PrefixConvex(ns, low, k, high);
    tail := k[|ns|..];
    assert high == ns + (Ones(j) + [NUL] + to);
    LessUnderPrefix(ns, tail, Ones(j) + [NUL] + to);
  }

  /** What sorts below some steps, a NUL and a path is fewer steps and a NUL, or as many if the path leaves
      room. */
  lemma {:induction false} StepBelow(tail: Bytes, j: nat, path: Bytes) returns (m: nat)
    requires NUL in tail && Less(tail, Ones(j) + [NUL] + path)
    ensures m <= j && m < |tail| && tail[..m] == Ones(m) && tail[m] == NUL && (m == j ==> path != [])
    decreases j
  {
    if j == 0 {
      assert Ones(0) + [NUL] + path == [NUL] + path && ([NUL] + path)[1..] == path;
      m := 0;
    } else {
      var above := Ones(j) + [NUL] + path;
      assert above[0] == 1 && above[1..] == Ones(j - 1) + [NUL] + path;
      if tail[0] == NUL {
        m := 0;
      } else {
        assert tail == [1] + tail[1..];
        m := StepBelow(tail[1..], j - 1, path);
        m := m + 1;
        assert tail[..m] == [1] + tail[1..][..m - 1];
      }
    }
  }

  function Longest(list: seq<Bytes>): (n: nat)
    ensures forall x :: x in list ==> |x| <= n
  {
    if list == [] then 0
    else
      var n := Longest(list[1..]);
      if |list[0]| > n then |list[0]| else n
  }

  lemma StepAboveStart(sk: Bytes, m: nat)
    requires NUL in sk && m > 0
    ensures AtMost(sk, Home(sk) + Ones(m) + [NUL])
    ensures NUL in Home(sk) + Ones(m) + [NUL] && Home(Home(sk) + Ones(m) + [NUL]) == Home(sk) + Ones(m)
  {
    KeyAtHome(sk);
    var ns, path := Home(sk), ParseStoreKey(sk).path;
    var far := ns + Ones(m) + [NUL];
    assert far == ns + [1] + (Ones(m - 1) + [NUL]);
    LessAtDifference(ns, NUL, path, 1, Ones(m - 1) + [NUL]);
    LessAsymmetric(sk, far);
    HomeOf(ns + Ones(m), []);
    assert ns + Ones(m) + [NUL] + [] == far;
  }

  /** A key of the range read back under an unlisted namespace. */
  lemma Escape(b: Bounds, list: seq<Bytes>) returns (k: Bytes)
    requires SayableRange(b) && !EmptyRange(b) && !Listed(b, list)
    ensures NUL in k && InStoreRange(k, b) && Home(k) !in list && SLASH !in Home(k)
  {
    var sk := StoreKey(b.start);
    var s, e := ParseStoreKey(sk), ParseStoreKey(StoreKey(b.end));
    StartInRange(b);
    assert Writable(sk);
    WritableHome(sk);
    assert Ones(0) == [] && s.ns + [] == s.ns;
    k := sk;
    if s.ns in list {
      if b.ScanAll() || !Stepped(s.ns, e.ns) {
        var far := Longest(list) + |e.ns| + 1;
        k := s.ns + Ones(far) + [NUL];
        StepAboveStart(sk, far);
        if !b.ScanAll() {
          FarStepBelowEnd(b, far);
        }
      } else if m :| 0 <= m < |e.ns| - |s.ns| && s.ns + Ones(m) !in list {
        k := s.ns + Ones(m) + [NUL];
        StepAboveStart(sk, m);
        NearStepBelowEnd(b, m);
      } else {
        assert e.ns != s.ns;
        k := e.ns + [NUL];
        StepAboveStart(sk, |e.ns| - |s.ns|);
        EndStepBelowEnd(b);
      }
    }
  }

  lemma EndStepBelowEnd(b: Bounds)
    requires ParseStoreKey(StoreKey(b.end)).path != []
    ensures Less(Home(StoreKey(b.end)) + [NUL], StoreKey(b.end))
  {
    var ek := StoreKey(b.end);
    ParseStoreKeyInverts(b.end);
    KeyAtHome(ek);
    var first := Home(ek) + [NUL];
    LessUnderPrefix(first, [], ParseStoreKey(ek).path);
    assert first + [] == first;
  }

  lemma NearStepBelowEnd(b: Bounds, m: nat)
    requires var sn, en := Home(StoreKey(b.start)), Home(StoreKey(b.end)); Stepped(sn, en) && m < |en| - |sn|
    ensures Less(Home(StoreKey(b.start)) + Ones(m) + [NUL], StoreKey(b.end))
  {
    var sn, ek := Home(StoreKey(b.start)), StoreKey(b.end);
    ParseStoreKeyInverts(b.end);
    KeyAtHome(ek);
    NearStep(sn, m, |Home(ek)| - |sn|, ParseStoreKey(ek).path);
  }

  lemma NearStep(ns: Bytes, m: nat, j: nat, path: Bytes)
    requires m < j
    ensures Less(ns + Ones(m) + [NUL], ns + Ones(j) + [NUL] + path)
  {
    var p, rest := ns + Ones(m), Ones(j - m - 1) + ([NUL] + path);
    StepsSplit(ns, m, j, [NUL] + path);
    LessAtDifference(p, NUL, [], 1, rest);
    assert p + [NUL] + [] == p + [NUL];
    assert ns + Ones(j) + [NUL] + path == ns + Ones(j) + ([NUL] + path);
  }

  lemma StepsSplit(ns: Bytes, m: nat, j: nat, tail: Bytes)
    requires m < j
    ensures ns + Ones(j) + tail == ns + Ones(m) + [1] + (Ones(j - m - 1) + tail)
  {
    OnesSplit(m, j);
  }

  lemma {:induction false} OnesSplit(m: nat, j: nat)
    requires m < j
    ensures Ones(j) == Ones(m) + [1] + Ones(j - m - 1)
  {
    if m > 0 {
      OnesSplit(m - 1, j - 1);
    }
  }

  /** A long enough run of steps sorts below the end unless the end is stepped itself. */
  lemma FarStepBelowEnd(b: Bounds, far: nat)
    requires !EmptyRange(b) && !b.Single() && !b.ScanAll()
    requires var sn, en := Home(StoreKey(b.start)), Home(StoreKey(b.end)); !Stepped(sn, en) && far > |en|
    ensures Less(Home(StoreKey(b.start)) + Ones(far) + [NUL], StoreKey(b.end))
  {
    var sk, ek := StoreKey(b.start), StoreKey(b.end);
    var s, e := ParseStoreKey(sk), ParseStoreKey(ek);
    ParseStoreKeyInverts(b.start);
    ParseStoreKeyInverts(b.end);
    KeyAtHome(sk);
    KeyAtHome(ek);
    assert Ones(0) == [] && s.ns + [] == s.ns;
    var i := FirstDifference(s.ns, e.ns);
    if i == |s.ns| {
      RunUnderEnd(s.ns, e, far);
    } else if i == |e.ns| {
      ShorterFirst(e, s);
      LessAsymmetric(ek, sk);
    } else {
      var run := Name(s.ns + Ones(far), []);
      DifferentNamespaces(s, e, i);
      assert run.ns[..i] == s.ns[..i] && run.ns[i] == s.ns[i];
      DifferentNamespaces(run, e, i);
      assert StoreKey(run) == s.ns + Ones(far) + [NUL];
    }
  }

  lemma RunUnderEnd(ns: Bytes, e: Name, far: nat)
    requires ns < e.ns && NUL !in e.ns && !Stepped(ns, e.ns) && far > |e.ns|
    ensures Less(ns + Ones(far) + [NUL], StoreKey(e))
  {
    var t, rest := e.ns[|ns|..], [NUL] + e.path;
    assert e.ns == ns + t;
    RunBelow(t, far, rest);
    LessUnderPrefix(ns, Ones(far) + [NUL], t + rest);
    assert ns + (Ones(far) + [NUL]) == ns + Ones(far) + [NUL] && ns + (t + rest) == StoreKey(e);
  }

  lemma {:induction false} RunBelow(t: Bytes, far: nat, rest: Bytes)
    requires NUL !in t && t != Ones(|t|) && far > |t|
    ensures Less(Ones(far) + [NUL], t + rest)
  {
    assert t[0] in t;
    var run := Ones(far) + [NUL];
    assert run[0] == 1 && run[1..] == Ones(far - 1) + [NUL] && (t + rest)[1..] == t[1..] + rest;
    if t[0] == 1 {
      assert t == [1] + t[1..];
      RunBelow(t[1..], far - 1, rest);
    }
  }

  lemma ShorterFirst(a: Name, b: Name)
    requires a.ns < b.ns && NUL !in b.ns
    ensures Less(StoreKey(a), StoreKey(b))
  {
    var c := b.ns[|a.ns|];
    assert c in b.ns && b.ns[..|a.ns|] == a.ns;
    Cut(b.ns, |a.ns|, [NUL] + b.path);
    assert StoreKey(b) == b.ns + ([NUL] + b.path);
    LessAtDifference(a.ns, NUL, a.path, c, b.ns[|a.ns| + 1..] + ([NUL] + b.path));
  }

  // ---------------------------------------------------------------- locked namespaces

  /** A store that holds one key. */
  function Lone(k: Bytes, lockedNs: set<Bytes>): (s: Store) {
    Store(map[k := Entry([], 1, 1, 1, false)], 1, [Change(Created, ParseStoreKey(k), 1, [])], lockedNs)
  }

  lemma LoneRange(k: Bytes, lockedNs: set<Bytes>, b: Bounds)
    requires NUL in k && InStoreRange(k, b)
    ensures Valid(Lone(k, lockedNs)) && RangeKeys(Lone(k, lockedNs), b) == [k]
  {
    var s := Lone(k, lockedNs);
    StoreKeyInverts(k);
    assert Explained(s, k, s.kvs[k]);
    LessIrreflexive(k);
    AscendingIsSorted([k], set x | x in s.kvs && InStoreRange(x, b));
  }

  /** Whatever an accepted range delete removes lies outside the locked namespaces. */
  ghost predicate DeleteSparesLocked(s: Store, b: Bounds, returnPrev: bool) {
    var r := DeleteRangeKeys(s, b, returnPrev);
    r.Ok? ==> forall i :: 0 <= i < |r.value.deleted| ==> r.value.deleted[i].name.ns !in s.lockedNs
  }

  /** Only the start namespace is asked for its lock, so accepted range deletes spare every locked namespace
      exactly when the start is locked itself, which refuses them all, or the range touches none. */
  lemma LocksExact(b: Bounds, locked: set<Bytes>)
    requires SayableRange(b)
    ensures (forall s, returnPrev :: Valid(s) && Written(s) && s.lockedNs == locked ==>
               DeleteSparesLocked(s, b, returnPrev)) <==>
            (b.start.ns in locked || forall ns :: ns in locked && Plain(ns) ==> !Touches(b, ns))
  {
    if b.start.ns !in locked {
      if forall ns :: ns in locked && Plain(ns) ==> !Touches(b, ns) {
        forall s, returnPrev | Valid(s) && Written(s) && s.lockedNs == locked
          ensures DeleteSparesLocked(s, b, returnPrev)
        {
          UntouchedIsSpared(s, b, returnPrev);
        }
      } else {
        var ns :| ns in locked && Plain(ns) && Touches(b, ns);
        TouchedIsDeleted(b, locked, ns);
      }
    }
  }

  /** A namespace that keys can be read back under. */
  predicate Plain(ns: Bytes) {
    NUL !in ns && SLASH !in ns
  }

  lemma UntouchedIsSpared(s: Store, b: Bounds, returnPrev: bool)
    requires Valid(s) && Written(s) && forall ns :: ns in s.lockedNs && Plain(ns) ==> !Touches(b, ns)
    ensures DeleteSparesLocked(s, b, returnPrev)
  {
    var keys := RangeKeys(s, b);
    forall i | 0 <= i < |keys|
      ensures Home(keys[i]) !in s.lockedNs
    {
      assert keys[i] in s.kvs && Explained(s, keys[i], s.kvs[keys[i]]);
      WritableHome(keys[i]);
      KeyAtHome(keys[i]);
      FirstKeyInRange(b, Home(keys[i]), keys[i]);
    }
  }

  lemma TouchedIsDeleted(b: Bounds, locked: set<Bytes>, ns: Bytes)
    requires SayableRange(b) && b.start.ns !in locked && ns in locked && Plain(ns) && Touches(b, ns)
    ensures exists s :: Valid(s) && Written(s) && s.lockedNs == locked && !DeleteSparesLocked(s, b, false)
  {
    var k := NearbyKey(b, ns);
    var s := Lone(k, locked);
    WritableHome(k);
    LoneRange(k, locked, b);
    assert DeletedPairs(s, [k], false)[0].name == ParseStoreKey(k);
    assert Valid(s) && Written(s) && s.lockedNs == locked && !DeleteSparesLocked(s, b, false);
  }

  /** An accepted put asks for the lock of the namespace it names; it lands in another, locked one exactly
      when that name holds a NUL and what precedes the NUL is locked. */
  lemma PutLocksExact(s: Store, n: Name, value: Bytes)
    requires PutKey(s, n, value).Ok?
    ensures Home(StoreKey(n)) in s.lockedNs <==> NUL in n.ns && n.ns[..IndexByte(n.ns, NUL)] in s.lockedNs
  {
    ParseStoreKeyInverts(n);
    if NUL in n.ns {
      var i := IndexByte(n.ns, NUL);
      assert StoreKey(n)[..i] == n.ns[..i];
      IndexByteUnique(StoreKey(n), NUL, i);
    }
  }

  /** Such as the prefix range of a namespace, which deletes from a locked "-eu" neighbour. */
  lemma LockedNeighbourIsDeleted(ns: Bytes)
    requires ns != [] && SLASH !in ns && NUL !in ns
    ensures exists s :: Valid(s) && Written(s) && s.lockedNs == {ns + [45, 101, 117]} &&
                        !DeleteSparesLocked(s, NamespaceBounds(ns), false)
  {
    var stray := Name(ns + [45, 101, 117], [SLASH]);
    NamespaceRangeOfBuckets(stray, ns);
    ParseStoreKeyInverts(stray);
    FirstKeyInRange(NamespaceBounds(ns), stray.ns, StoreKey(stray));
    TouchedIsDeleted(NamespaceBounds(ns), {stray.ns}, stray.ns);
  }
}
