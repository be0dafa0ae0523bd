/** Python's prefix, suffix, substring and slicing operations on sequences (bytes or str). */
module Seqs {

  /** `s.startswith(prefix)` */
  predicate StartsWith<T(==)>(s: seq<T>, prefix: seq<T>) {
    |prefix| <= |s| && s[..|prefix|] == prefix
  }

  /** `s.endswith(suffix)` */
  predicate EndsWith<T(==)>(s: seq<T>, suffix: seq<T>) {
    |suffix| <= |s| && s[|s| - |suffix|..] == suffix
  }

  /** pat occurs in s starting at index k. */
  predicate OccursAt<T(==)>(s: seq<T>, pat: seq<T>, k: int) {
    0 <= k <= |s| - |pat| && s[k..k + |pat|] == pat
  }

  /** `pat in s`: pat occurs in s as a contiguous run. */
  predicate Contains<T(==)>(s: seq<T>, pat: seq<T>) {
    exists k :: 0 <= k <= |s| - |pat| && OccursAt(s, pat, k)
  }

  lemma ContainsMiddle<T>(p: seq<T>, m: seq<T>, q: seq<T>)
    ensures Contains(p + m + q, m)
  {
    assert (p + m + q)[|p|..|p| + |m|] == m;
    assert OccursAt(p + m + q, m, |p|);
  }

  lemma ContainsTransitive<T>(s: seq<T>, m: seq<T>, pat: seq<T>)
    requires Contains(s, m) && Contains(m, pat)
    ensures Contains(s, pat)
  {
    var k :| 0 <= k <= |s| - |m| && OccursAt(s, m, k);
    var j :| 0 <= j <= |m| - |pat| && OccursAt(m, pat, j);
    forall i | 0 <= i < |pat|
      ensures s[k + j + i] == pat[i]
    {
      assert m[j..j + |pat|][i] == pat[i];
      assert s[k..k + |m|][j + i] == m[j + i];
    }
    assert s[k + j..k + j + |pat|] == pat;
    assert OccursAt(s, pat, k + j);
  }

  lemma ContainsExtend<T>(s: seq<T>, t: seq<T>, u: seq<T>, pat: seq<T>)
    requires Contains(s, pat)
    ensures Contains(t + s + u, pat)
  {
    var k :| 0 <= k <= |s| - |pat| && OccursAt(s, pat, k);
    assert (t + s + u)[|t| + k..|t| + k + |pat|] == s[k..k + |pat|];
    assert OccursAt(t + s + u, pat, |t| + k);
  }

  lemma EndsWithAppend<T>(s: seq<T>, t: seq<T>)
    ensures EndsWith(s + t, t)
  {
    assert (s + t)[|s|..] == t;
  }

  /** s + a + b ends with a + b. */
  lemma EndsWithPair<T>(s: seq<T>, a: seq<T>, b: seq<T>)
    ensures EndsWith(s + a + b, a + b)
  {
    assert (s + a + b)[|s|..] == a + b;
  }

  lemma EndsWithTransitive<T>(s: seq<T>, t: seq<T>, u: seq<T>)
    requires EndsWith(s, t) && EndsWith(t, u)
    ensures EndsWith(s, u)
  {
    assert s[|s| - |u|..] == s[|s| - |t|..][|t| - |u|..];
  }

  lemma StartsWithAppend<T>(s: seq<T>, t: seq<T>, prefix: seq<T>)
    requires StartsWith(s, prefix)
    ensures StartsWith(s + t, prefix)
  {
    assert (s + t)[..|prefix|] == s[..|prefix|];
  }

  /** A sequence contains any suffix it ends with. */
  lemma ContainsSuffix<T>(s: seq<T>, t: seq<T>)
    ensures Contains(s + t, t)
  {
    assert (s + t)[|s|..|s| + |t|] == t;
    assert OccursAt(s + t, t, |s|);
  }

  /** Appending keeps every run already present. */
  lemma ContainsAppend<T>(s: seq<T>, t: seq<T>, pat: seq<T>)
    requires Contains(s, pat)
    ensures Contains(s + t, pat)
  {
    var k :| 0 <= k <= |s| - |pat| && OccursAt(s, pat, k);
    assert (s + t)[k..k + |pat|] == s[k..k + |pat|];
    assert OccursAt(s + t, pat, k);
  }

  /** Where Python puts index i of a sequence of length n when slicing: negative indices count
      from the end, and both kinds are clamped to 0..n. */
  function SliceIndex(n: nat, i: int): (r: nat)
    ensures r <= n
  {
    if i < 0 then (if i + n < 0 then 0 else i + n)
    else if i > n then n
    else i
  }

  /** `s[a:b]` */
  function PySlice<T>(s: seq<T>, a: int, b: int): seq<T> {
    var lo, hi := SliceIndex(|s|, a), SliceIndex(|s|, b);
    if lo < hi then s[lo..hi] else []
  }

  /** Every Python slice is a contiguous run of the sequence, possibly empty. */
  lemma PySliceIsRun<T>(s: seq<T>, a: int, b: int)
    ensures exists lo, hi :: 0 <= lo <= hi <= |s| && PySlice(s, a, b) == s[lo..hi]
  {
    var lo, hi := SliceIndex(|s|, a), SliceIndex(|s|, b);
    if lo < hi {
      assert PySlice(s, a, b) == s[lo..hi];
    } else {
      assert PySlice(s, a, b) == s[0..0];
    }
  }

  /** With non-negative bounds no index wraps: a slice is s[a..b] or empty. */
  lemma PySliceNonNegative<T>(s: seq<T>, a: int, b: int)
    requires 0 <= a && 0 <= b <= |s|
    ensures a < b ==> PySlice(s, a, b) == s[a..b]
    ensures a >= b ==> PySlice(s, a, b) == []
  {
  }
}
