/** Decimal notation: the canonical string of a natural number and the number of a digit string. */
module Decimal {

  function Digit(d: nat): char
    requires d < 10
  {
    "0123456789"[d]
  }

  predicate IsDigit(c: char) { '0' <= c <= '9' }

  function DigitValue(c: char): nat
    requires IsDigit(c)
  {
    c as int - '0' as int
  }

  lemma DigitRoundTrip(d: nat)
    requires d < 10
    ensures IsDigit(Digit(d)) && DigitValue(Digit(d)) == d && (Digit(d) == '0' <==> d == 0)
  {
  }

  predicate AllDigits(s: string) {
    forall i :: 0 <= i < |s| ==> IsDigit(s[i])
  }

  /** What `'' + n` prints for an integer. */
  function Unsigned(n: nat): string {
    if n < 10 then [Digit(n)] else Unsigned(n / 10) + [Digit(n % 10)]
  }

  function SignedText(v: int): string {
    if v < 0 then "-" + Unsigned(-v) else Unsigned(v)
  }

  /** The number a digit string denotes; leading zeros are allowed. */
  function Number(s: string): nat
    requires AllDigits(s)
  {
    if s == "" then 0 else 10 * Number(s[..|s| - 1]) + DigitValue(s[|s| - 1])
  }

  lemma NumberAppend(s: string, c: char)
    requires AllDigits(s) && IsDigit(c)
    ensures AllDigits(s + [c]) && Number(s + [c]) == 10 * Number(s) + DigitValue(c)
  {
    assert (s + [c])[..|s|] == s;
  }

  lemma {:induction false} UnsignedDenotes(n: nat)
    ensures AllDigits(Unsigned(n)) && Number(Unsigned(n)) == n
    ensures |Unsigned(n)| > 0 && (Unsigned(n)[0] == '0' <==> n == 0)
  {
    DigitRoundTrip(n % 10);
    if n >= 10 {
      UnsignedDenotes(n / 10);
      NumberAppend(Unsigned(n / 10), Digit(n % 10));
    } else {
      NumberAppend("", Digit(n));
      assert "" + [Digit(n)] == [Digit(n)];
    }
  }

  /** A digit string without superfluous leading zeros is the canonical one. */
  lemma {:induction false} CanonicalUnique(s: string)
    requires AllDigits(s) && |s| > 0 && (|s| == 1 || s[0] != '0')
    ensures Unsigned(Number(s)) == s
  {
    var k := |s| - 1;
    assert s == s[..k] + [s[k]];
    assert Digit(DigitValue(s[k])) == s[k];
    if k > 0 {
      CanonicalUnique(s[..k]);
      UnsignedDenotes(Number(s[..k]));
      assert Number(s[..k]) > 0;
    }
  }

  // ----- fixed-width groups of digits, as the base 10^7 printer emits them -----

  function Pow10(k: nat): (p: nat)
    ensures p > 0
  {
    if k == 0 then 1 else 10 * Pow10(k - 1)
  }

  /** The last `k` digits of `n`, with leading zeros. */
  function Padded(n: nat, k: nat): (s: string)
    ensures |s| == k
    decreases k
  {
    if k == 0 then "" else Padded(n / 10, k - 1) + [Digit(n % 10)]
  }

  /** Without the leading zeros. */
  function Stripped(s: string): string {
    if s == "" || s[0] != '0' then s else Stripped(s[1..])
  }

  lemma {:induction false} StrippedConcat(s: string, t: string)
    ensures Stripped(s + t) == if Stripped(s) == "" then Stripped(t) else Stripped(s) + t
  {
    if s == "" {
      assert s + t == t;
    } else if s[0] == '0' {
      assert (s + t)[1..] == s[1..] + t;
      StrippedConcat(s[1..], t);
    }
  }

  /** Leading zeros stripped, a wide enough group is the canonical string, and empty for zero. */
  lemma {:induction false} StrippedPadded(n: nat, k: nat)
    requires n < Pow10(k)
    ensures Stripped(Padded(n, k)) == if n == 0 then "" else Unsigned(n)
    decreases k
  {
    if k > 0 {
      StrippedPadded(n / 10, k - 1);
      DigitRoundTrip(n % 10);
      StrippedConcat(Padded(n / 10, k - 1), [Digit(n % 10)]);
    }
  }

  lemma ScaledDigits(a: nat, b: nat, p: nat)
    ensures a * (10 * p) == 10 * (a * p) >= 0
    ensures (a * (10 * p) + b) / 10 == a * p + b / 10
    ensures (a * (10 * p) + b) % 10 == b % 10
  {
    var x := a * p;
    assert a * (10 * p) == 10 * x;
  }

  lemma {:induction false} PaddedConcat(a: nat, b: nat, j: nat, k: nat, n: nat)
    requires b < Pow10(k) && n == a * Pow10(k) + b
    ensures Padded(a, j) + Padded(b, k) == Padded(n, j + k)
    decreases k
  {
    if k > 0 {
      ScaledDigits(a, b, Pow10(k - 1));
      PaddedConcat(a, b / 10, j, k - 1, n / 10);
      assert Padded(a, j) + Padded(b, k) == (Padded(a, j) + Padded(b / 10, k - 1)) + [Digit(b % 10)];
    } else {
      assert Padded(a, j) + "" == Padded(a, j);
    }
  }
}
