/** Byte strings, their lexicographic order, and sorted enumerations of finite sets of keys.
    Go strings and byte slices are both byte sequences, so every key, namespace and path of the
    etcd side is a `Bytes`. */
module Lex {
  import opened Outcome

  type Byte = n: int | 0 <= n < 256
  type Bytes = seq<Byte>

  const SLASH: Byte := 47
  const NUL: Byte := 0

  /** bytes.Compare(a, b) < 0 */
  predicate Less(a: Bytes, b: Bytes) {
    b != [] && (a == [] || a[0] < b[0] || (a[0] == b[0] && Less(a[1..], b[1..])))
  }

  predicate AtMost(a: Bytes, b: Bytes) {
    !Less(b, a)
  }

  predicate Ascending(s: seq<Bytes>) {
    forall i, j {:trigger Less(s[i], s[j])} :: 0 <= i < j < |s| ==> Less(s[i], s[j])
  }

  // ---------------------------------------------------------------- the order is total

  lemma {:induction false} LessIrreflexive(a: Bytes)
    ensures !Less(a, a)
  {
    if a != [] {
      LessIrreflexive(a[1..]);
    }
  }

  lemma {:induction false} LessTransitive(a: Bytes, b: Bytes, c: Bytes)
    requires Less(a, b) && Less(b, c)
    ensures Less(a, c)
  {
    if a != [] && a[0] == b[0] == c[0] {
      LessTransitive(a[1..], b[1..], c[1..]);
    }
  }

  lemma {:induction false} LessTotal(a: Bytes, b: Bytes)
    ensures a == b || Less(a, b) || Less(b, a)
  {
    if a != [] && b != [] && a[0] == b[0] {
      LessTotal(a[1..], b[1..]);
      assert a == [a[0]] + a[1..] && b == [b[0]] + b[1..];
    }
  }

  lemma LessAsymmetric(a: Bytes, b: Bytes)
    requires Less(a, b)
    ensures !Less(b, a) && a != b
  {
    LessIrreflexive(a);
    if Less(b, a) {
      LessTransitive(a, b, a);
    }
  }

  lemma AtMostLess(a: Bytes, b: Bytes, c: Bytes)
    requires AtMost(a, b) && Less(b, c)
    ensures Less(a, c)
  {
    LessTotal(a, b);
    if Less(a, b) {
      LessTransitive(a, b, c);
    }
  }

  // ---------------------------------------------------------------- prefixes

  lemma {:induction false} LessUnderPrefix(p: Bytes, a: Bytes, b: Bytes)
    ensures Less(p + a, p + b) == Less(a, b)
  {
    if p == [] {
      assert p + a == a && p + b == b;
    } else {
      LessUnderPrefix(p[1..], a, b);
      assert (p + a)[1..] == p[1..] + a && (p + b)[1..] == p[1..] + b;
    }
  }

  /** A first difference decides the order. */
  lemma LessAtDifference(p: Bytes, x: Byte, a: Bytes, y: Byte, b: Bytes)
    ensures Less(p + [x] + a, p + [y] + b) == (x < y || (x == y && Less(a, b)))
  {
    LessUnderPrefix(p, [x] + a, [y] + b);
    assert p + [x] + a == p + ([x] + a) && p + [y] + b == p + ([y] + b);
    assert ([x] + a)[1..] == a && ([y] + b)[1..] == b;
  }

  lemma PrefixAtMost(p: Bytes, k: Bytes)
    requires p <= k
    ensures AtMost(p, k)
  {
    assert k == p + k[|p|..] && p == p + [];
    LessUnderPrefix(p, k[|p|..], []);
  }

  /** Between two keys that share a prefix there are only keys with that prefix. */
  lemma {:induction false} PrefixConvex(p: Bytes, a: Bytes, b: Bytes, c: Bytes)
    requires p <= a && p <= c && AtMost(a, b) && AtMost(b, c)
    ensures p <= b
  {
    if p != [] {
      assert a[0] == p[0] == c[0];
      assert b != [];
      assert b[0] == p[0];
      PrefixConvex(p[1..], a[1..], b[1..], c[1..]);
      assert b == [b[0]] + b[1..];
    }
  }

  /** Splits two different keys at their first difference. */
  lemma {:induction false} FirstDifference(a: Bytes, b: Bytes) returns (i: nat)
    requires a != b
    ensures i <= |a| && i <= |b| && a[..i] == b[..i]
    ensures (i == |a| && i < |b|) || (i == |b| && i < |a|) || (i < |a| && i < |b| && a[i] != b[i])
  {
    i := 0;
    while i < |a| && i < |b| && a[i] == b[i]
      invariant i <= |a| && i <= |b| && a[..i] == b[..i]
    {
      i := i + 1;
    }
    assert i == |a| ==> a == a[..i];
    assert i == |b| ==> b == b[..i];
  }

  // ---------------------------------------------------------------- sorted enumeration

  lemma {:induction false} LeastExists(keys: set<Bytes>)
    requires keys != {}
    ensures exists m :: m in keys && forall k :: k in keys ==> AtMost(m, k)
  {
    var x :| x in keys;
    var rest := keys - {x};
    LessIrreflexive(x);
    if rest == {} {
      assert forall k :: k in keys ==> k == x || k in rest;
      assert x in keys && forall k :: k in keys ==> AtMost(x, k);
    } else {
      LeastExists(rest);
      var m :| m in rest && forall k :: k in rest ==> AtMost(m, k);
      var least := if Less(x, m) then x else m;
      forall k | k in keys
        ensures AtMost(least, k)
      {
        if k != x && Less(x, m) {
          BelowAtMost(x, m, k);
        }
      }
      assert least in keys;
    }
  }

  lemma BelowAtMost(a: Bytes, b: Bytes, c: Bytes)
    requires Less(a, b) && AtMost(b, c)
    ensures AtMost(a, c)
  {
    if Less(c, a) {
      LessTransitive(c, a, b);
    }
  }

  /** The last key at or before another: where a cursor stands after a seek and a step back. */
  predicate IsFloor(keys: set<Bytes>, seek: Bytes, f: Bytes) {
    f in keys && AtMost(f, seek) && forall x :: x in keys && AtMost(x, seek) ==> AtMost(x, f)
  }

  ghost function Floor(keys: set<Bytes>, seek: Bytes): (r: Option<Bytes>)
    ensures r.Some? ==> IsFloor(keys, seek, r.value)
    ensures r.None? ==> forall f :: !IsFloor(keys, seek, f)
  {
    if exists f :: IsFloor(keys, seek, f) then
      var f :| IsFloor(keys, seek, f);
      Some(f)
    else None
  }

  lemma FloorIs(keys: set<Bytes>, seek: Bytes, f: Bytes)
    requires IsFloor(keys, seek, f)
    ensures Floor(keys, seek) == Some(f)
  {
    var g := Floor(keys, seek).value;
    LessTotal(f, g);
  }

  lemma {:induction false} FloorExists(keys: set<Bytes>, seek: Bytes)
    requires exists x :: x in keys && AtMost(x, seek)
    ensures Floor(keys, seek).Some?
  {
    var x :| x in keys && AtMost(x, seek);
    var rest := keys - {x};
    LessIrreflexive(x);
    if y :| y in rest && AtMost(y, seek) {
      FloorExists(rest, seek);
      var f := Floor(rest, seek).value;
      var top := if Less(f, x) then x else f;
      forall k | k in keys && AtMost(k, seek)
        ensures AtMost(k, top)
      {
        if k in rest && Less(f, x) && Less(x, k) {
          LessTransitive(f, x, k);
        }
      }
      assert IsFloor(keys, seek, top);
    } else {
      assert forall k :: k in keys && AtMost(k, seek) ==> k == x || k in rest;
      assert IsFloor(keys, seek, x);
    }
  }

  /** Where such a cursor ends up, provided the key there carries a prefix. */
  ghost function Landing(keys: set<Bytes>, p: Bytes, seek: Bytes): (r: Option<Bytes>)
    ensures r.Some? ==> r.value in keys
  {
    var f := Floor(keys, seek);
    if f.Some? && p <= f.value then f else None
  }

  /** A key with the prefix between a given one, if any, and the sought one. */
  predicate Intrudes(p: Bytes, seek: Bytes, own: Option<Bytes>, h: Bytes) {
    p <= h && AtMost(h, seek) && (own.Some? ==> Less(own.value, h))
  }

  /** The cursor lands on a given key exactly when none intrudes. */
  lemma LandingExact(keys: set<Bytes>, p: Bytes, seek: Bytes, own: Option<Bytes>)
    requires p <= seek
    requires own.Some? ==> own.value in keys && p <= own.value && AtMost(own.value, seek)
    ensures Landing(keys, p, seek) == own <==> forall h :: h in keys ==> !Intrudes(p, seek, own, h)
  {
    if own.Some? {
      FloorExists(keys, seek);
      var f := Floor(keys, seek).value;
      PrefixConvex(p, own.value, f, seek);
      LessTotal(own.value, f);
    }
    forall h | h in keys && Intrudes(p, seek, own, h)
      ensures Landing(keys, p, seek) != own
    {
      FloorExists(keys, seek);
      PrefixConvex(p, h, Floor(keys, seek).value, seek);
    }
    var r := Landing(keys, p, seek);
    assert own.None? && r.Some? ==> Intrudes(p, seek, own, r.value);
  }

  /** Keys of one length compare the same whatever follows them. */
  lemma {:induction false} LessSameLength(p: Bytes, q: Bytes, a: Bytes, b: Bytes)
    requires |p| == |q| && Less(p, q)
    ensures Less(p + a, q + b)
  {
    assert (p + a)[0] == p[0] && (q + b)[0] == q[0];
    if p[0] == q[0] {
      LessSameLength(p[1..], q[1..], a, b);
      assert (p + a)[1..] == p[1..] + a && (q + b)[1..] == q[1..] + b;
    }
  }

  lemma {:induction false} AscendingExists(keys: set<Bytes>)
    ensures exists s :: Ascending(s) && forall k :: k in s <==> k in keys
  {
    if keys == {} {
      var s: seq<Bytes> := [];
      assert Ascending(s) && forall k :: k in s <==> k in keys;
    } else {
      LeastExists(keys);
      var m :| m in keys && forall k :: k in keys ==> AtMost(m, k);
      AscendingExists(keys - {m});
      var rest :| Ascending(rest) && forall k :: k in rest <==> k in keys - {m};
      var s := [m] + rest;
      forall i, j | 0 <= i < j < |s|
        ensures Less(s[i], s[j])
      {
        assert s[j] == rest[j - 1] && rest[j - 1] in rest;
        if i == 0 {
          LessTotal(m, s[j]);
        } else {
          assert Less(rest[i - 1], rest[j - 1]);
        }
      }
      assert Ascending(s) && forall k :: k in s <==> k in keys;
    }
  }

  /** The keys of a bucket in the order a cursor visits them. */
  ghost function Sorted(keys: set<Bytes>): (s: seq<Bytes>)
    ensures Ascending(s)
    ensures forall k :: k in s <==> k in keys
  {
    AscendingExists(keys);
    var s :| Ascending(s) && forall k :: k in s <==> k in keys;
    s
  }

  lemma {:induction false} AscendingUnique(a: seq<Bytes>, b: seq<Bytes>)
    requires Ascending(a) && Ascending(b) && forall k :: k in a <==> k in b
    ensures a == b
  {
    if a == [] {
      assert forall i :: 0 <= i < |b| ==> b[i] in b;
    } else {
      assert a[0] in b && a[0] in a;
      SameFirst(a, b);
      forall k
        ensures k in a[1..] <==> k in b[1..]
      {
        TailElements(a, k);
        TailElements(b, k);
      }
      assert Ascending(a[1..]) && Ascending(b[1..]);
      AscendingUnique(a[1..], b[1..]);
      assert a == [a[0]] + a[1..] && b == [b[0]] + b[1..];
    }
  }

  lemma SameFirst(a: seq<Bytes>, b: seq<Bytes>)
    requires Ascending(a) && Ascending(b) && a != [] && b != [] && a[0] in b && b[0] in a
    ensures a[0] == b[0]
  {
    var i :| 0 <= i < |b| && b[i] == a[0];
    var j :| 0 <= j < |a| && a[j] == b[0];
    if i > 0 && j > 0 {
      assert Less(b[0], b[i]) && Less(a[0], a[j]);
      LessAsymmetric(a[0], b[0]);
    }
  }

  lemma TailElements(s: seq<Bytes>, k: Bytes)
    requires Ascending(s) && s != []
    ensures k in s[1..] <==> k in s && k != s[0]
  {
    LessIrreflexive(s[0]);
    if k in s[1..] {
      var i :| 0 <= i < |s[1..]| && s[1..][i] == k;
      assert s[i + 1] == k && Less(s[0], s[i + 1]);
    }
    if k in s && k != s[0] {
      var i :| 0 <= i < |s| && s[i] == k;
      assert s[1..][i - 1] == k;
    }
  }

  /** An ascending sequence is the sorted enumeration of its own elements. */
  lemma AscendingIsSorted(s: seq<Bytes>, keys: set<Bytes>)
    requires Ascending(s) && forall k :: k in s <==> k in keys
    ensures s == Sorted(keys)
  {
    AscendingUnique(s, Sorted(keys));
  }
}
