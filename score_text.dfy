/** The text shown for a score: the number in decimal, left-padded with
    '0' to at least three characters. */
module ScoreText {

  /** Width the score display pads to. */
  const WIDTH: nat := 3

  predicate IsDigit(c: char) {
    '0' <= c <= '9'
  }

  function DigitChar(d: int): (c: char)
    requires 0 <= d < 10
    ensures IsDigit(c)
  {
    ('0' as int + d) as char
  }

  /** The numeric value of a digit (0 for anything else). */
  function DigitValue(c: char): int {
    if IsDigit(c) then c as int - '0' as int else 0
  }

  /** A non-negative integer written in decimal, most significant digit
      first: only digits, and a leading zero only for zero itself. */
  function Decimal(n: nat): (s: string)
    ensures |s| >= 1
    ensures forall i :: 0 <= i < |s| ==> IsDigit(s[i])
    ensures s[0] == '0' <==> n == 0
    decreases n
  {
    if n < 10 then [DigitChar(n)] else Decimal(n / 10) + [DigitChar(n % 10)]
  }

  /** The value of a string of digits read in decimal. */
  function ValueOf(s: string): nat
    decreases |s|
  {
    if s == [] then 0 else ValueOf(s[..|s| - 1]) * 10 + DigitValue(s[|s| - 1])
  }

  function Pow10(k: nat): nat {
    if k == 0 then 1 else 10 * Pow10(k - 1)
  }

  /** s extended on the left with copies of fill until it is width long;
      a string already that long is returned as it is. */
  function PadStart(s: string, width: nat, fill: char): (r: string)
    ensures |r| == if |s| >= width then |s| else width
    ensures r[|r| - |s|..] == s
    ensures forall i :: 0 <= i < |r| - |s| ==> r[i] == fill
  {
    if |s| >= width then s else seq(width - |s|, _ => fill) + s
  }

  /** The score text for score n: all digits, at least three long, exactly
      three long for scores below 1000, and it reads back as n. */
  function Pad3(n: nat): (r: string)
    ensures ValueOf(r) == n
    ensures |r| >= WIDTH && (|r| == WIDTH <==> n < 1000)
    ensures forall i :: 0 <= i < |r| ==> IsDigit(r[i])
  {
    PaddedDecimalValue(n);
    PaddedDecimalShape(n);
    PadStart(Decimal(n), WIDTH, '0')
  }

  /** The padded decimal text reads back as the number. */
  lemma PaddedDecimalValue(n: nat)
    ensures ValueOf(PadStart(Decimal(n), WIDTH, '0')) == n
  {
    var d := Decimal(n);
    var r := PadStart(d, WIDTH, '0');
    DecimalRoundTrip(n);
    var z := r[..|r| - |d|];
    assert r == z + d;
    LeadingZeros(z, d);
  }

  /** The padded decimal text is all digits and at least three long, exactly
      three for numbers below 1000. */
  lemma PaddedDecimalShape(n: nat)
    ensures var r := PadStart(Decimal(n), WIDTH, '0');
      |r| >= WIDTH && (|r| == WIDTH <==> n < 1000) &&
      forall i :: 0 <= i < |r| ==> IsDigit(r[i])
  {
    var d := Decimal(n);
    var r := PadStart(d, WIDTH, '0');
    DecimalLength(n, 3);
    assert Pow10(3) == 1000;
    forall i | 0 <= i < |r| ensures IsDigit(r[i]) {
      if i >= |r| - |d| {
        assert r[i] == r[|r| - |d|..][i - (|r| - |d|)];
      }
    }
  }

  /** Reading the decimal text back gives the number. */
  lemma {:induction false} DecimalRoundTrip(n: nat)
    ensures ValueOf(Decimal(n)) == n
    decreases n
  {
    var s := Decimal(n);
    if n < 10 {
      assert s[..0] == [];
    } else {
      DecimalRoundTrip(n / 10);
      assert s[..|s| - 1] == Decimal(n / 10);
    }
  }

  /** Decimal(n) fits in k characters exactly when n < 10^k. */
  lemma {:induction false} DecimalLength(n: nat, k: nat)
    requires k >= 1
    ensures |Decimal(n)| <= k <==> n < Pow10(k)
    decreases n
  {
    if n >= 10 {
      if k > 1 {
        DecimalLength(n / 10, k - 1);
        assert n / 10 < Pow10(k - 1) <==> n < 10 * Pow10(k - 1);
      } else {
        assert Pow10(1) == 10;
      }
    } else {
      PowAtLeastTen(k);
    }
  }

  lemma {:induction false} PowAtLeastTen(k: nat)
    requires k >= 1
    ensures Pow10(k) >= 10
  {
    if k > 1 {
      PowAtLeastTen(k - 1);
    }
  }

  /** Leading zeros do not change the value of a digit string. */
  lemma {:induction false} LeadingZeros(z: string, s: string)
    requires forall i :: 0 <= i < |z| ==> z[i] == '0'
    ensures ValueOf(z + s) == ValueOf(s)
    decreases |s|
  {
    if s == [] {
      AllZeros(z);
      assert z + s == z;
    } else {
      var t := s[..|s| - 1];
      LeadingZeros(z, t);
      assert (z + s)[..|z + s| - 1] == z + t;
    }
  }

  lemma {:induction false} AllZeros(z: string)
    requires forall i :: 0 <= i < |z| ==> z[i] == '0'
    ensures ValueOf(z) == 0
    decreases |z|
  {
    if z != [] {
      AllZeros(z[..|z| - 1]);
    }
  }

  /** Different scores never show the same text. */
  lemma Pad3Injective(a: nat, b: nat)
    requires Pad3(a) == Pad3(b)
    ensures a == b
  {
  }

  /** A fresh snake shows score "000". */
  lemma Pad3OfZero()
    ensures Pad3(0) == "000"
  {
  }
}
