/** The generic prefix scan every repository lists with: seek to the prefix, step while it matches. */
module PrefixScan {
  import opened Outcome
  import opened Lex
  import BoltStore

  /** The keys of a bucket that start with the prefix, in order. */
  function Matching(bucket: seq<Bytes>, prefix: Bytes): (keys: seq<Bytes>) {
    if bucket == [] then []
    else if prefix <= bucket[0] then [bucket[0]] + Matching(bucket[1..], prefix)
    else Matching(bucket[1..], prefix)
  }

  method HasPrefix(s: Bytes, prefix: Bytes) returns (yes: bool)
    ensures yes <==> prefix <= s
  {
    if |s| < |prefix| { return false; }
    var i := 0;
    while i < |prefix|
      invariant i <= |prefix| && prefix[..i] == s[..i]
    {
      if s[i] != prefix[i] { return false; }
      i := i + 1;
    }
    return true;
  }

  /** Keys sharing a prefix sit together in a sorted bucket, so filtering is slicing. */
  lemma {:induction false} MatchingIsSlice(bucket: seq<Bytes>, prefix: Bytes, lo: nat, hi: nat)
    requires lo <= hi <= |bucket|
    requires forall i :: 0 <= i < |bucket| ==> (prefix <= bucket[i] <==> lo <= i < hi)
    ensures Matching(bucket, prefix) == bucket[lo..hi]
  {
    if bucket != [] {
      var rest := bucket[1..];
      var lo', hi' := if lo == 0 then 0 else lo - 1, if hi == 0 then 0 else hi - 1;
      MatchingIsSlice(rest, prefix, lo', hi');
      assert lo > 0 ==> bucket[lo..hi] == rest[lo'..hi'];
      assert lo == 0 < hi ==> bucket[lo..hi] == [bucket[0]] + rest[lo'..hi'];
    }
  }

  lemma BelowSeek(prefix: Bytes, k: Bytes)
    requires Less(k, prefix)
    ensures !(prefix <= k)
  {
    if prefix <= k {
      PrefixAtMost(prefix, k);
    }
  }

  lemma BeyondStop(bucket: seq<Bytes>, prefix: Bytes, hi: nat, i: nat)
    requires Ascending(bucket) && hi <= i < |bucket|
    requires AtMost(prefix, bucket[hi]) && !(prefix <= bucket[hi])
    ensures !(prefix <= bucket[i])
  {
    if prefix <= bucket[i] && hi < i {
      LessAsymmetric(bucket[hi], bucket[i]);
      PrefixConvex(prefix, prefix, bucket[hi], bucket[i]);
    }
  }

  /** ScanWithCodec: decode every value whose key has the prefix, in key order; the first value that does
      not decode ends it. */
  method Scan<T>(bucket: seq<Bytes>, values: map<Bytes, Bytes>, prefix: Bytes, decode: Bytes -> Option<T>)
    returns (r: Result<seq<T>, Bytes>)
    requires Ascending(bucket) && forall k :: k in bucket ==> k in values
    ensures Scanned(Matching(bucket, prefix), values, decode, r)
  {
    var lo := BoltStore.Seek(bucket, prefix);
    var hi := lo;
    var out := [];
    while hi < |bucket|
      invariant lo <= hi <= |bucket| && |out| == hi - lo
      invariant forall i :: lo <= i < hi ==> prefix <= bucket[i]
      invariant forall i :: lo <= i < hi ==> decode(values[bucket[i]]) == Some(out[i - lo])
    {
      var more := HasPrefix(bucket[hi], prefix);
      if !more { break; }
      var item := decode(values[bucket[hi]]);
      if item.None? {
        Stopped(bucket, prefix, lo, hi);
        ghost var keys, stop := Matching(bucket, prefix), hi - lo;
        assert keys[stop] == bucket[hi];
        assert forall j :: 0 <= j < stop ==> keys[j] == bucket[lo + j] && decode(values[keys[j]]).Some?;
        return Err(bucket[hi]);
      }
      out := out + [item.value];
      hi := hi + 1;
    }
    SliceFound(bucket, prefix, lo, hi);
    assert forall i :: 0 <= i < hi - lo ==> bucket[lo..hi][i] == bucket[lo + i];
    return Ok(out);
  }

  /** Every value decoded, in order, or the first that would not. */
  ghost predicate Scanned<T>(keys: seq<Bytes>, values: map<Bytes, Bytes>, decode: Bytes -> Option<T>,
                             r: Result<seq<T>, Bytes>) {
    && (forall k :: k in keys ==> k in values)
    && (r.Ok? ==> |r.value| == |keys| && forall i :: 0 <= i < |keys| ==> decode(values[keys[i]]) == Some(r.value[i]))
    && (r.Err? ==> exists i :: 0 <= i < |keys| && keys[i] == r.error && decode(values[keys[i]]).None?
                               && forall j :: 0 <= j < i ==> decode(values[keys[j]]).Some?)
  }

  lemma SliceFound(bucket: seq<Bytes>, prefix: Bytes, lo: nat, hi: nat)
    requires Ascending(bucket) && lo <= hi <= |bucket|
    requires forall i :: 0 <= i < lo ==> Less(bucket[i], prefix)
    requires forall i :: lo <= i < |bucket| ==> AtMost(prefix, bucket[i])
    requires forall i :: lo <= i < hi ==> prefix <= bucket[i]
    requires hi < |bucket| ==> !(prefix <= bucket[hi])
    ensures Matching(bucket, prefix) == bucket[lo..hi]
  {
    forall i | 0 <= i < |bucket|
      ensures prefix <= bucket[i] <==> lo <= i < hi
    {
      if i < lo {
        BelowSeek(prefix, bucket[i]);
      } else if hi <= i {
        BeyondStop(bucket, prefix, hi, i);
      }
    }
    MatchingIsSlice(bucket, prefix, lo, hi);
  }

  /** Stopping at a bad value: the keys seen so far, and that one, open the list of matching keys. */
  lemma Stopped(bucket: seq<Bytes>, prefix: Bytes, lo: nat, bad: nat)
    requires Ascending(bucket) && lo <= bad < |bucket|
    requires forall i :: 0 <= i < lo ==> Less(bucket[i], prefix)
    requires forall i :: lo <= i < |bucket| ==> AtMost(prefix, bucket[i])
    requires forall i :: lo <= i <= bad ==> prefix <= bucket[i]
    ensures var keys := Matching(bucket, prefix);
      && bad - lo < |keys| && (forall j :: 0 <= j <= bad - lo ==> keys[j] == bucket[lo + j])
      && forall k :: k in keys ==> k in bucket
  {
    var hi := bad + 1;
    while hi < |bucket| && prefix <= bucket[hi]
      invariant bad < hi <= |bucket|
      invariant forall i :: lo <= i < hi ==> prefix <= bucket[i]
    {
      hi := hi + 1;
    }
    SliceFound(bucket, prefix, lo, hi);
  }
}
