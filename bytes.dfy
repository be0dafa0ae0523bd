/** Request bodies as bytes, and Python's `bytes.split(b'\r\n')` / `b'\r\n'.join(...)`. */
module Bytes {
  import opened Seqs

  newtype byte = x: int | 0 <= x < 256

  const CR: byte := 13
  const LF: byte := 10
  const CRLF: seq<byte> := [CR, LF]

  /** A CR immediately followed by an LF starts at index k of s. */
  predicate CrlfAt(s: seq<byte>, k: int) {
    0 <= k && k + 1 < |s| && s[k] == CR && s[k + 1] == LF
  }

  predicate NoCrlf(s: seq<byte>) {
    forall k :: 0 <= k < |s| ==> !CrlfAt(s, k)
  }

  /** `s.split(b'\r\n')`: the pieces of s between CRLF pairs, found left to right.
      There is always at least one piece; the first is a prefix of s. */
  function SplitLines(s: seq<byte>): (lines: seq<seq<byte>>)
    ensures |lines| >= 1 && lines[0] <= s
    decreases |s|
  {
    if |s| == 0 then [[]]
    else if CrlfAt(s, 0) then [[]] + SplitLines(s[2..])
    else
      var rest := SplitLines(s[1..]);
      [[s[0]] + rest[0]] + rest[1..]
  }

  /** `b'\r\n'.join(lines)` */
  function JoinLines(lines: seq<seq<byte>>): seq<byte>
    decreases |lines|
  {
    if |lines| == 0 then []
    else if |lines| == 1 then lines[0]
    else lines[0] + CRLF + JoinLines(lines[1..])
  }

  lemma {:induction false} JoinCons(a: seq<byte>, rest: seq<seq<byte>>)
    requires |rest| >= 1
    ensures JoinLines([a] + rest) == a + CRLF + JoinLines(rest)
  {
    assert ([a] + rest)[1..] == rest;
  }

  /** No piece produced by the split contains a CRLF. */
  lemma {:induction false} SplitLinesCrlfFree(s: seq<byte>)
    ensures forall i :: 0 <= i < |SplitLines(s)| ==> NoCrlf(SplitLines(s)[i])
    decreases |s|
  {
    if |s| == 0 {
    } else if CrlfAt(s, 0) {
      SplitLinesCrlfFree(s[2..]);
      assert SplitLines(s) == [[]] + SplitLines(s[2..]);
    } else {
      SplitLinesCrlfFree(s[1..]);
      var rest := SplitLines(s[1..]);
      var first := [s[0]] + rest[0];
      assert NoCrlf(rest[0]);
      forall k | 0 <= k < |first|
        ensures !CrlfAt(first, k)
      {
        if k > 0 {
          assert !CrlfAt(rest[0], k - 1);
        } else if |first| >= 2 {
          assert rest[0] <= s[1..];
          assert first[1] == s[1];
        }
      }
      assert SplitLines(s) == [first] + rest[1..];
    }
  }

  /** Joining the pieces of a split gives back the original bytes. */
  lemma {:induction false} JoinSplit(s: seq<byte>)
    ensures JoinLines(SplitLines(s)) == s
    decreases |s|
  {
    if |s| == 0 {
    } else if CrlfAt(s, 0) {
      var rest := SplitLines(s[2..]);
      JoinSplit(s[2..]);
      JoinCons([], rest);
      assert s == CRLF + s[2..];
    } else {
      JoinSplit(s[1..]);
      JoinFirstPieceGrows(s[0], SplitLines(s[1..]));
      assert s == [s[0]] + s[1..];
    }
  }

  /** Prepending a byte to the first piece prepends it to the join. */
  lemma {:induction false} JoinFirstPieceGrows(c: byte, rest: seq<seq<byte>>)
    requires |rest| >= 1
    ensures JoinLines([[c] + rest[0]] + rest[1..]) == [c] + JoinLines(rest)
  {
    var first := [c] + rest[0];
    if |rest| == 1 {
      assert [first] + rest[1..] == [first];
    } else {
      var tail := JoinLines(rest[1..]);
      JoinCons(first, rest[1..]);
      assert rest == [rest[0]] + rest[1..];
      JoinCons(rest[0], rest[1..]);
      assert first + CRLF + tail == [c] + (rest[0] + CRLF + tail);
    }
  }

  /** Bytes without a CRLF split into one piece: themselves. */
  lemma {:induction false} SplitSingle(s: seq<byte>)
    requires NoCrlf(s)
    ensures SplitLines(s) == [s]
    decreases |s|
  {
    if |s| > 0 {
      assert !CrlfAt(s, 0);
      assert NoCrlf(s[1..]) by {
        forall k | 0 <= k < |s[1..]| ensures !CrlfAt(s[1..], k) {
          assert !CrlfAt(s, k + 1);
        }
      }
      SplitSingle(s[1..]);
      assert s == [s[0]] + s[1..];
    }
  }

  /** A CRLF-free line followed by a CRLF is split off as the first piece. */
  lemma {:induction false} SplitAfterLine(a: seq<byte>, t: seq<byte>)
    requires NoCrlf(a)
    ensures SplitLines(a + CRLF + t) == [a] + SplitLines(t)
    decreases |a|
  {
    var s := a + CRLF + t;
    if |a| == 0 {
      assert s == CRLF + t;
      assert CrlfAt(s, 0);
      assert s[2..] == t;
    } else {
      assert !CrlfAt(s, 0) by {
        if |a| >= 2 {
          assert !CrlfAt(a, 0);
        } else {
          assert s[1] == CR;
        }
      }
      assert s[1..] == a[1..] + CRLF + t;
      assert NoCrlf(a[1..]) by {
        forall k | 0 <= k < |a[1..]| ensures !CrlfAt(a[1..], k) {
          assert !CrlfAt(a, k + 1);
        }
      }
      SplitAfterLine(a[1..], t);
      assert [a[0]] + a[1..] == a;
    }
  }

  /** Splitting a join of CRLF-free lines gives back those lines. */
  lemma {:induction false} SplitJoin(lines: seq<seq<byte>>)
    requires |lines| >= 1
    requires forall i :: 0 <= i < |lines| ==> NoCrlf(lines[i])
    ensures SplitLines(JoinLines(lines)) == lines
    decreases |lines|
  {
    if |lines| == 1 {
      SplitSingle(lines[0]);
    } else {
      SplitJoin(lines[1..]);
      SplitAfterLine(lines[0], JoinLines(lines[1..]));
      assert lines == [lines[0]] + lines[1..];
    }
  }

  /** Joining two non-empty runs of lines puts one CRLF between their joins. */
  lemma {:induction false} JoinAppend(xs: seq<seq<byte>>, ys: seq<seq<byte>>)
    requires |xs| >= 1 && |ys| >= 1
    ensures JoinLines(xs + ys) == JoinLines(xs) + CRLF + JoinLines(ys)
    decreases |xs|
  {
    if |xs| == 1 {
      JoinCons(xs[0], ys);
      assert xs + ys == [xs[0]] + ys;
    } else {
      JoinAppend(xs[1..], ys);
      assert xs + ys == [xs[0]] + (xs[1..] + ys);
      JoinCons(xs[0], xs[1..] + ys);
      JoinCons(xs[0], xs[1..]);
      assert xs == [xs[0]] + xs[1..];
    }
  }

  /** The join of any contiguous run of lines occurs in the join of all of them. */
  lemma {:induction false} JoinRunContained(lines: seq<seq<byte>>, a: int, b: int)
    requires 0 <= a <= b <= |lines|
    ensures Contains(JoinLines(lines), JoinLines(lines[a..b]))
  {
    if a == b {
      ContainsMiddle([], [], JoinLines(lines));
      assert [] + [] + JoinLines(lines) == JoinLines(lines);
      assert lines[a..b] == [];
    } else {
      var mid := lines[a..b];
      var rest := lines[a..];
      var q := JoinTail(rest, |mid|);
      var p := JoinHead(lines, a);
      assert rest[..|mid|] == mid;
      assert JoinLines(lines) == p + JoinLines(mid) + q;
      ContainsMiddle(p, JoinLines(mid), q);
    }
  }

  /** Dropping the first a >= 0 lines leaves the join of the rest as a suffix. */
  lemma {:induction false} JoinHead(lines: seq<seq<byte>>, a: int) returns (p: seq<byte>)
    requires 0 <= a < |lines|
    ensures JoinLines(lines) == p + JoinLines(lines[a..])
  {
    if a == 0 {
      p := [];
      assert lines[0..] == lines;
    } else {
      assert lines == lines[..a] + lines[a..];
      JoinAppend(lines[..a], lines[a..]);
      p := JoinLines(lines[..a]) + CRLF;
    }
  }

  /** Keeping the first n >= 1 lines leaves their join as a prefix. */
  lemma {:induction false} JoinTail(lines: seq<seq<byte>>, n: int) returns (q: seq<byte>)
    requires 1 <= n <= |lines|
    ensures JoinLines(lines) == JoinLines(lines[..n]) + q
  {
    if n == |lines| {
      q := [];
      assert lines[..n] == lines;
    } else {
      assert lines == lines[..n] + lines[n..];
      JoinAppend(lines[..n], lines[n..]);
      q := CRLF + JoinLines(lines[n..]);
    }
  }

  /** A CRLF between two byte strings separates their pieces: the split of the whole is the
      split of the left part followed by the split of the right part. */
  lemma {:induction false} SplitConcat(x: seq<byte>, t: seq<byte>)
    ensures SplitLines(x + CRLF + t) == SplitLines(x) + SplitLines(t)
    decreases |x|
  {
    var s := x + CRLF + t;
    if |x| == 0 {
      assert s == CRLF + t;
      assert CrlfAt(s, 0);
      assert s[2..] == t;
    } else if CrlfAt(x, 0) {
      assert CrlfAt(s, 0);
      assert s[2..] == x[2..] + CRLF + t;
      SplitConcat(x[2..], t);
    } else {
      assert !CrlfAt(s, 0) by {
        if |x| == 1 { assert s[1] == CR; }
      }
      assert s[1..] == x[1..] + CRLF + t;
      assert s[0] == x[0];
      SplitConcat(x[1..], t);
      FirstPieceGrows(x[0], SplitLines(x[1..]), SplitLines(t));
    }
  }

  /** Prepending a byte to the first of several pieces, before or after appending more pieces. */
  lemma {:induction false} FirstPieceGrows(c: byte, a: seq<seq<byte>>, b: seq<seq<byte>>)
    requires |a| >= 1
    ensures [[c] + (a + b)[0]] + (a + b)[1..] == ([[c] + a[0]] + a[1..]) + b
  {
    assert (a + b)[0] == a[0];
    assert (a + b)[1..] == a[1..] + b;
  }
}
