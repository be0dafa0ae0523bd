/** The size label `f"{n / 1024:.2f} KB"` for a byte count n. Below 2^53 the quotient n / 1024 is
    an exact binary float, and `.2f` rounds that exact value to hundredths, ties to even. */
module Kilobytes {
  import opened Decimal

  /** n / 1024 in hundredths, rounded to nearest with ties to even: the integer closest to
      25 n / 256. */
  function Centikilobytes(n: nat): (c: nat)
    ensures -128 <= c * 256 - 25 * n <= 128
    ensures c * 256 - 25 * n == 128 || c * 256 - 25 * n == -128 ==> c % 2 == 0
  {
    var m := 25 * n;
    var q := m / 256;
    DivideBy256(m);
    Parity(q);
    var r := m - q * 256;
    if r > 128 || (r == 128 && q % 2 == 1) then q + 1 else q
  }

  /** Euclidean division by 256 leaves a remainder below 256. */
  lemma DivideBy256(m: nat)
    ensures 0 <= m - m / 256 * 256 < 256
  {
  }

  /** Every integer is even or odd, and the one after an odd one is even. */
  lemma Parity(q: int)
    ensures q % 2 == 0 || q % 2 == 1
    ensures q % 2 == 1 ==> (q + 1) % 2 == 0
  {
  }

  /** Rounding to nearest, ties to even, has one answer, so the contract above pins the value. */
  lemma CentikilobytesUnique(n: nat, c: nat)
    requires -128 <= c * 256 - 25 * n <= 128
    requires c * 256 - 25 * n == 128 || c * 256 - 25 * n == -128 ==> c % 2 == 0
    ensures c == Centikilobytes(n)
  {
    var d := Centikilobytes(n);
    var x, y := c * 256 - 25 * n, d * 256 - 25 * n;
    assert (c - d) * 256 == x - y;
  }

  /** Two decimal digits with a leading zero, as `.2f` prints the fraction. */
  function TwoDigits(d: nat): (s: string)
    requires d < 100
    ensures |s| == 2 && AllDigits(s)
    ensures (s[0] as int - '0' as int) * 10 + (s[1] as int - '0' as int) == d
  {
    [DigitChar(d / 10), DigitChar(d % 10)]
  }

  function KbLabel(n: nat): (s: string) {
    var c := Centikilobytes(n);
    NatToString(c / 100) + "." + TwoDigits(c % 100) + " KB"
  }

  /** The label reads back as whole kilobytes, a point, two digits of hundredths and " KB",
      denoting the rounded value. */
  lemma KbLabelReadsBack(n: nat)
    ensures var s := KbLabel(n);
            var w := |s| - 6;
            && |s| >= 7 && s[w] == '.' && s[|s| - 3..] == " KB"
            && AllDigits(s[..w]) && AllDigits(s[w + 1..w + 3])
            && DigitsValue(s[..w]) * 100 + DigitsValue(s[w + 1..w + 3]) == Centikilobytes(n)
  {
    var c := Centikilobytes(n);
    var whole := NatToString(c / 100);
    var frac := TwoDigits(c % 100);
    var s := KbLabel(n);
    assert s == whole + "." + frac + " KB";
    var w := |whole|;
    assert s[..w] == whole;
    assert s[w + 1..w + 3] == frac;
    NatToStringRoundTrip(c / 100);
    assert frac[..1] == [frac[0]];
    assert DigitsValue(frac) == DigitsValue(frac[..1]) * 10 + (frac[1] as int - '0' as int);
    assert DigitsValue(frac[..1]) == frac[0] as int - '0' as int;
  }

  /** An empty upload is 0.00 KB. */
  lemma KbLabelZero()
    ensures KbLabel(0) == "0.00 KB"
  {
    assert Centikilobytes(0) == 0;
    assert NatToString(0) == "0";
    assert TwoDigits(0) == "00";
  }

  /** Whole kilobytes print exactly. */
  lemma KbLabelWhole()
    ensures KbLabel(1024) == "1.00 KB"
  {
    assert Centikilobytes(1024) == 100;
    assert NatToString(1) == "1";
    assert TwoDigits(0) == "00";
  }

  /** So do half kilobytes. */
  lemma KbLabelHalf()
    ensures KbLabel(1536) == "1.50 KB"
  {
    assert Centikilobytes(1536) == 150;
    assert NatToString(1) == "1";
    assert TwoDigits(50) == "50";
  }

  /** 0.125 KB is a tie and rounds down to the even hundredth. */
  lemma KbLabelTieDown()
    ensures KbLabel(128) == "0.12 KB"
  {
    assert Centikilobytes(128) == 12;
    assert NatToString(0) == "0";
    assert TwoDigits(12) == "12";
  }

  /** 0.375 KB is a tie and rounds up to the even hundredth. */
  lemma KbLabelTieUp()
    ensures KbLabel(384) == "0.38 KB"
  {
    assert Centikilobytes(384) == 38;
    assert NatToString(0) == "0";
    assert TwoDigits(38) == "38";
  }
}
