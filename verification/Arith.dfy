/** `jspb.arith`: 64-bit arithmetic and decimal conversion on pairs of 32-bit halves. */
module Arith {
  import opened Js
  import opened Words
  import opened Decimal

  datatype Option<+T> = None | Some(value: T)

  lemma OrTopBit(lo: uint32, hi: uint32)
    ensures ToUint32(Or(Shr(lo, 1), Shl(And(hi, 1), 31))) == lo / 2 + hi % 2 * TWO_TO_31
  {
    Pow2Values();
    ShiftValues(lo);
    AndMask(hi, 1, 1);
    ShlMod(hi % 2, 31);
    OrSum(lo / 2, Shl(hi % 2, 31), 31);
  }

  lemma OrLowBit(lo: uint32, hi: uint32)
    ensures ToUint32(Or(Shl(hi, 1), Shr(lo, 31))) == hi * 2 % TWO_TO_32 + lo / TWO_TO_31
  {
    Pow2Values();
    ShiftValues(lo);
    ShlMod(hi, 1);
    OrSum(lo / TWO_TO_31, Shl(hi, 1), 1);
  }

  lemma TopBit(hi: uint32)
    ensures And(hi, 0x8000_0000) != 0 <==> hi >= TWO_TO_31
  {
    Pow2Values();
    AndShiftedMask(hi, 1, 31);
    AndLowMask(hi / TWO_TO_31, 1);
  }

  lemma AddHalves(a: uint32, b: uint32)
    ensures ToUint32(And(a + b, 0xffffffff)) == Wrap(a + b)
  {
    Pow2Values();
    AndLowMask(ToUint32(a + b), 32);
    var u := ToUint32(a + b);
    assert u == Wrap(a + b);
    ToUint32OfToInt32(u);
  }

  lemma SubHalves(a: uint32, b: uint32)
    ensures ToUint32(And(a - b, 0xffffffff)) == Wrap(a - b)
  {
    Pow2Values();
    AndLowMask(ToUint32(a - b), 32);
    var u := ToUint32(a - b);
    assert u == Wrap(a - b);
    ToUint32OfToInt32(u);
  }

  datatype UInt64 = UInt64(lo: uint32, hi: uint32)
  {
    /** The number in [0, 2^64) that the halves stand for. */
    function Val(): (n: nat)
      ensures n < TWO_TO_64
    {
      Join(lo, hi)
    }

    function Cmp(other: UInt64): (r: int)
      ensures r == if Val() < other.Val() then -1 else if Val() == other.Val() then 0 else 1
    {
      if hi < other.hi || (hi == other.hi && lo < other.lo) then -1
      else if hi == other.hi && lo == other.lo then 0
      else 1
    }

    function RightShift(): (r: UInt64)
      ensures r.Val() == Val() / 2
    {
      OrTopBit(lo, hi);
      ShiftValues(hi);
      UInt64(ToUint32(Or(Shr(lo, 1), Shl(And(hi, 1), 31))), ToUint32(Shr(hi, 1)))
    }

    function LeftShift(): (r: UInt64)
      ensures r.Val() == 2 * Val() % TWO_TO_64
    {
      OrLowBit(lo, hi);
      ShlMod(lo, 1);
      LeftShiftValue(lo, hi);
      UInt64(ToUint32(Shl(lo, 1)), ToUint32(Or(Shl(hi, 1), Shr(lo, 31))))
    }

    predicate Msb()
      ensures Msb() <==> Val() >= TWO_TO_63
    {
      TopBit(hi);
      And(hi, 0x8000_0000) != 0
    }

    predicate Zero()
      ensures Zero() <==> Val() == 0
    {
      lo == 0 && hi == 0
    }

    function Add(other: UInt64): UInt64 {
      UInt64(ToUint32(And(lo + other.lo, 0xffffffff)),
             ToUint32(ToUint32(And(hi + other.hi, 0xffffffff)) + if lo + other.lo >= TWO_TO_32 then 1 else 0))
    }

    /** Addition is addition modulo 2^64. */
    lemma AddVal(other: UInt64)
      ensures Add(other).Val() == (Val() + other.Val()) % TWO_TO_64
    {
      hide And, ToUint32, Wrap, Join;
      AddHalves(lo, other.lo);
      AddHalves(hi, other.hi);
      AddValue(lo, hi, other.lo, other.hi);
    }

    function Sub(other: UInt64): UInt64 {
      UInt64(ToUint32(And(lo - other.lo, 0xffffffff)),
             ToUint32(ToUint32(And(hi - other.hi, 0xffffffff)) - if lo - other.lo < 0 then 1 else 0))
    }

    /** Subtraction is subtraction modulo 2^64. */
    lemma SubVal(other: UInt64)
      ensures Sub(other).Val() == (Val() - other.Val()) % TWO_TO_64
    {
      hide And, ToUint32, Wrap, Join;
      SubHalves(lo, other.lo);
      SubHalves(hi, other.hi);
      SubValue(lo, hi, other.lo, other.hi);
    }
  }

  /** A 32-bit sum or difference with its wrap-around. */
  function Wrap(x: int): (r: int)
  {
    if x >= TWO_TO_32 then x - TWO_TO_32 else if x < 0 then x + TWO_TO_32 else x
  }

  lemma AddValue(a: uint32, b: uint32, c: uint32, d: uint32)
    ensures Join(Wrap(a + c), ToUint32(Wrap(b + d) + if a + c >= TWO_TO_32 then 1 else 0))
            == (Join(a, b) + Join(c, d)) % TWO_TO_64
  {
    var carry := if a + c >= TWO_TO_32 then 1 else 0;
    assert ToUint32(Wrap(b + d) + carry) == Wrap(b + d + carry);
  }

  lemma SubValue(a: uint32, b: uint32, c: uint32, d: uint32)
    ensures Join(Wrap(a - c), ToUint32(Wrap(b - d) - if a - c < 0 then 1 else 0))
            == (Join(a, b) - Join(c, d)) % TWO_TO_64
  {
    var borrow := if a - c < 0 then 1 else 0;
    assert ToUint32(Wrap(b - d) - borrow) == Wrap(b - d - borrow);
  }

  lemma LeftShiftValue(lo: uint32, hi: uint32)
    ensures Join(lo * 2 % TWO_TO_32, hi * 2 % TWO_TO_32 + lo / TWO_TO_31) == 2 * Join(lo, hi) % TWO_TO_64
  {
    assert lo * 2 % TWO_TO_32 == lo * 2 - lo / TWO_TO_31 * TWO_TO_32;
    assert hi * 2 % TWO_TO_32 == hi * 2 - hi / TWO_TO_31 * TWO_TO_32;
    DivModUnique(2 * Join(lo, hi), TWO_TO_64, hi / TWO_TO_31,
                 Join(lo * 2 % TWO_TO_32, hi * 2 % TWO_TO_32 + lo / TWO_TO_31));
  }

  // ----- multiplication by 16-bit limbs -----

  lemma MulBound(a: nat, b: nat)
    requires a < 0x1_0000 && b < 0x1_0000
    ensures 0 <= a * b <= 0xfffe_0001
  {
    MulNonNegative(a, b);
    MulMonotone(a, b, 0xffff);
  }

  /** The schoolbook sum over 16-bit limbs. */
  lemma LimbProduct(a1: nat, a0: nat, b1: nat, b0: nat)
    ensures (a1 * 0x1_0000 + a0) * (b1 * 0x1_0000 + b0)
            == a0 * b0 + (a0 * b1 + a1 * b0) * 0x1_0000 + a1 * b1 * TWO_TO_32
  {
    var b := b1 * 0x1_0000 + b0;
    assert (a1 * 0x1_0000 + a0) * b == a1 * 0x1_0000 * b + a0 * b;
    assert a0 * b == a0 * b1 * 0x1_0000 + a0 * b0;
    assert a1 * b == a1 * b1 * 0x1_0000 + a1 * b0;
    assert a1 * 0x1_0000 * b == 0x1_0000 * (a1 * b);
  }

  lemma Limbs(a: uint32)
    ensures And(a, 0xffff) == a % 0x1_0000 && Shr(a, 16) == a / 0x1_0000
  {
    Pow2Values();
    ShiftValues(a);
    AndMask(a, 0xffff, 16);
  }

  /** `UInt64.mul32x32`: exact for all 32-bit operands, and every intermediate is an exact double. */
  method Mul32x32(a: uint32, b: uint32) returns (r: UInt64)
    ensures r.Val() == a * b
  {
    hide And, Shr, ToUint32;
    Limbs(a);
    Limbs(b);
    var aLow, aHigh := And(a, 0xffff), Shr(a, 16);
    var bLow, bHigh := And(b, 0xffff), Shr(b, 16);
    MulBound(aLow, bLow);
    MulBound(aLow, bHigh);
    MulBound(aHigh, bLow);
    MulBound(aHigh, bHigh);
    Limbs(aLow * bHigh);
    Limbs(aHigh * bLow);
    LimbProduct(aHigh, aLow, bHigh, bLow);
    var productLow := aLow * bLow + And(aLow * bHigh, 0xffff) * 0x1_0000 + And(aHigh * bLow, 0xffff) * 0x1_0000;
    var productHigh := aHigh * bHigh + Shr(aLow * bHigh, 16) + Shr(aHigh * bLow, 16);
    assert productLow < 3 * TWO_TO_32 && productHigh < TWO_TO_53;
    ghost var carries := 0;
    while productLow >= TWO_TO_32
      invariant productLow + productHigh * TWO_TO_32 == a * b
      invariant 0 <= productLow < (3 - carries) * TWO_TO_32 && 0 <= productHigh
    {
      productLow := productLow - TWO_TO_32;
      productHigh := productHigh + 1;
      carries := carries + 1;
    }
    assert carries <= 2;
    ProductFits(a, b, productLow, productHigh);
    r := UInt64(ToUint32(productLow), ToUint32(productHigh));
  }

  lemma ProductFits(a: uint32, b: uint32, low: nat, high: nat)
    requires low < TWO_TO_32 && low + high * TWO_TO_32 == a * b
    ensures high < TWO_TO_32 && ToUint32(low) == low && ToUint32(high) == high
  {
    MulMonotone(a, b, TWO_TO_32);
  }

  /** Shifting the high product left by 32 drops only multiples of 2^64. */
  lemma TruncatedProduct(n: UInt64, a: nat, lo: UInt64, hi: UInt64)
    requires lo.Val() == n.lo * a && hi.Val() == n.hi * a
    ensures (lo.Val() + UInt64(0, hi.lo).Val()) % TWO_TO_64 == n.Val() * a % TWO_TO_64
  {
    DistributeHalves(n.lo, n.hi, a);
    ModAddMultiple(lo.Val() + UInt64(0, hi.lo).Val(), hi.hi, TWO_TO_64);
  }

  lemma DistributeHalves(lo: int, hi: int, a: int)
    ensures (lo + hi * TWO_TO_32) * a == lo * a + hi * a * TWO_TO_32
  {
  }

  /** `UInt64.prototype.mul`: the 96-bit product, truncated to 64 bits. */
  method Mul(n: UInt64, a: uint32) returns (r: UInt64)
    ensures r.Val() == n.Val() * a % TWO_TO_64
  {
    hide UInt64.Add, UInt64.Val;
    var lo := Mul32x32(n.lo, a);
    var hi := Mul32x32(n.hi, a);
    TruncatedProduct(n, a, lo, hi);
    hi := hi.(hi := hi.lo);
    hi := hi.(lo := 0);
    lo.AddVal(hi);
    r := lo.Add(hi);
  }

  // ----- long division -----

  lemma DoubleProduct(d: nat, u: nat)
    ensures 2 * (d * u) == d * (2 * u) >= 0
  {
  }

  lemma ProductAtLeast(d: nat, u: nat)
    requires 1 <= d
    ensures u <= d * u
  {
    assert d * u == u + (d - 1) * u;
    MulNonNegative(d - 1, u);
  }

  lemma QuotientStep(q: nat, u: nat, d: nat)
    ensures (q + u) * d == q * d + d * u
  {
  }

  /** The divisor `dv` and the unit are the original ones shifted left by `k`. */
  ghost predicate Scaled(d: nat, dv: nat, unit: nat, k: nat) {
    unit == Pow2(k) && dv == d * Pow2(k) && unit <= dv < TWO_TO_64
  }

  lemma ScaleStep(d: nat, dv: nat, unit: nat, k: nat)
    requires 1 <= d && Scaled(d, dv, unit, k) && dv < TWO_TO_63
    ensures Scaled(d, 2 * dv % TWO_TO_64, 2 * unit % TWO_TO_64, k + 1)
    ensures dv < 2 * dv % TWO_TO_64
  {
    DoubleProduct(d, Pow2(k));
    ProductAtLeast(d, Pow2(k));
  }

  /** The invariant of the shift-subtract loop before quotient bit `k`; -1 is behind the last bit. */
  ghost predicate Dividing(n: nat, d: nat, q: nat, r: nat, dv: nat, unit: nat, k: int) {
    && n == q * d + r
    && k >= -1
    && if k == -1 then unit == 0 && r < d else unit == Pow2(k) && dv == d * Pow2(k) && r < 2 * dv
  }

  /** The same, after the subtraction for the current bit. */
  ghost predicate Subtracted(n: nat, d: nat, q: nat, r: nat, dv: nat, unit: nat, k: nat) {
    n == q * d + r && unit == Pow2(k) && dv == d * Pow2(k) && r < dv
  }

  lemma SubtractStep(n: nat, d: nat, q: nat, r: nat, dv: nat, unit: nat, k: nat)
    requires 1 <= d && n < TWO_TO_64 && Dividing(n, d, q, r, dv, unit, k) && dv <= r
    ensures Subtracted(n, d, (q + unit) % TWO_TO_64, (r - dv) % TWO_TO_64, dv, unit, k)
  {
    QuotientStep(q, unit, d);
    ProductAtLeast(d, q + unit);
    assert (q + unit) * d == d * (q + unit);
    assert n == (q + unit) * d + (r - dv);
  }

  lemma ShiftStep(n: nat, d: nat, q: nat, r: nat, dv: nat, unit: nat, k: nat)
    requires Subtracted(n, d, q, r, dv, unit, k)
    ensures Dividing(n, d, q, r, dv / 2, unit / 2, k - 1)
  {
    if k > 0 {
      DoubleProduct(d, Pow2(k - 1));
    } else {
      assert d * 1 == d;
    }
  }

  lemma UnitLeft(n: nat, d: nat, q: nat, r: nat, dv: nat, unit: nat, k: int)
    requires Dividing(n, d, q, r, dv, unit, k)
    ensures unit == 0 <==> k == -1
    ensures unit == 0 ==> n == q * d + r && r < d
  {
  }

  lemma DivisionStart(n: nat, d: nat, dv: nat, unit: nat, k: nat)
    requires n < TWO_TO_64 && Scaled(d, dv, unit, k) && dv >= TWO_TO_63
    ensures Dividing(n, d, 0, n, dv, unit, k)
  {
  }

  lemma SmallValues(d: uint32)
    ensures UInt64(0, 0).Val() == 0 && UInt64(d, 0).Val() == d
    ensures d > 0 ==> Scaled(d, d, UInt64(1, 0).Val(), 0)
  {
  }

  /** `UInt64.prototype.div`: the quotient and the remainder, or nothing for divisor zero. */
  method Div(n: UInt64, d: uint32) returns (r: Option<(UInt64, UInt64)>)
    ensures d == 0 ==> r == None
    ensures d != 0 ==> r.Some? && n.Val() == r.value.0.Val() * d + r.value.1.Val() && r.value.1.Val() < d
  {
    hide UInt64.Add, UInt64.Sub, UInt64.Val, UInt64.LeftShift, UInt64.RightShift, UInt64.Cmp, UInt64.Msb,
      UInt64.Zero, Scaled, Dividing, Subtracted;
    if d == 0 {
      return None;
    }
    var quotient, remainder := UInt64(0, 0), n;
    var divisor, unit := UInt64(d, 0), UInt64(1, 0);
    SmallValues(d);
    ghost var k: int := 0;
    while !divisor.Msb()
      invariant k >= 0 && Scaled(d, divisor.Val(), unit.Val(), k)
      decreases TWO_TO_64 - divisor.Val()
    {
      ScaleStep(d, divisor.Val(), unit.Val(), k);
      divisor := divisor.LeftShift();
      unit := unit.LeftShift();
      k := k + 1;
    }
    DivisionStart(n.Val(), d, divisor.Val(), unit.Val(), k);
    while !unit.Zero()
      invariant k >= -1
      invariant Dividing(n.Val(), d, quotient.Val(), remainder.Val(), divisor.Val(), unit.Val(), k)
      decreases k
    {
      UnitLeft(n.Val(), d, quotient.Val(), remainder.Val(), divisor.Val(), unit.Val(), k);
      if divisor.Cmp(remainder) <= 0 {
        SubtractStep(n.Val(), d, quotient.Val(), remainder.Val(), divisor.Val(), unit.Val(), k);
        quotient.AddVal(unit);
        remainder.SubVal(divisor);
        quotient := quotient.Add(unit);
        remainder := remainder.Sub(divisor);
      } else {
        NoSubtraction(n.Val(), d, quotient.Val(), remainder.Val(), divisor.Val(), unit.Val(), k);
      }
      ShiftStep(n.Val(), d, quotient.Val(), remainder.Val(), divisor.Val(), unit.Val(), k);
      divisor := divisor.RightShift();
      unit := unit.RightShift();
      k := k - 1;
    }
    UnitLeft(n.Val(), d, quotient.Val(), remainder.Val(), divisor.Val(), unit.Val(), k);
    return Some((quotient, remainder));
  }

  lemma NoSubtraction(n: nat, d: nat, q: nat, r: nat, dv: nat, unit: nat, k: nat)
    requires Dividing(n, d, q, r, dv, unit, k) && r < dv
    ensures Subtracted(n, d, q, r, dv, unit, k)
  {
  }

  /** The quotient and the remainder that `Div` returns are the only ones there are. */
  lemma DivisionUnique(n: nat, d: nat, q: nat, r: nat)
    requires n == q * d + r && r < d
    ensures q == n / d && r == n % d
  {
    DivModUnique(n, d, q, r);
  }

  // ----- decimal conversion -----

  /** The digits of `n`, and none for zero: what the printing loop has produced so far. */
  ghost function DigitsOf(n: nat): string {
    if n == 0 then "" else Unsigned(n)
  }

  lemma PeelDigit(n: nat, q: nat, r: nat, rest: string)
    requires n > 0 && n == q * 10 + r && r < 10
    ensures DigitsOf(q) + ([Digit(r)] + rest) == DigitsOf(n) + rest
    ensures q < n
  {
    DivisionUnique(n, 10, q, r);
    if q > 0 {
      assert Unsigned(n) == Unsigned(q) + [Digit(r)];
    }
  }

  lemma SmallRemainder(n: UInt64)
    requires n.Val() < 10
    ensures n.lo == n.Val()
  {
  }

  /** `UInt64.prototype.toString`: the canonical decimal of all 64-bit values. */
  method UInt64ToString(n: UInt64) returns (result: string)
    ensures result == Unsigned(n.Val())
  {
    hide UInt64.Val, UInt64.Zero, Digit;
    result := "";
    var num := n;
    while !num.Zero()
      invariant DigitsOf(num.Val()) + result == DigitsOf(n.Val())
      decreases num.Val()
    {
      var divResult := Div(num, 10);
      var quotient, remainder := divResult.value.0, divResult.value.1;
      SmallRemainder(remainder);
      PeelDigit(num.Val(), quotient.Val(), remainder.Val(), result);
      result := [Digit(remainder.lo)] + result;
      num := quotient;
    }
    assert result == DigitsOf(n.Val());
    if result == "" {
      result := "0";
      NoDigits(n.Val());
    }
  }

  lemma NoDigits(n: nat)
    requires DigitsOf(n) == ""
    ensures Unsigned(n) == "0"
  {
  }

  /** What parsing a digit string modulo 2^64 must return; nothing when a character is no digit. */
  function ParseUnsigned(s: string): Option<nat> {
    if AllDigits(s) then Some(Number(s) % TWO_TO_64) else None
  }

  /** The same with an optional minus sign, in two's complement. */
  function ParseSigned(s: string): Option<nat> {
    if s != "" && s[0] == '-'
    then match ParseUnsigned(s[1..]) case Some(n) => Some((0 - n) % TWO_TO_64) case None => None
    else ParseUnsigned(s)
  }

  lemma HornerModulo(x: int, d: int, m: int)
    requires 0 < m
    ensures (x % m * 10 % m + d) % m == (10 * x + d) % m
  {
    var q := x / m;
    assert x == x % m + q * m;
    var y := x % m * 10;
    var p := y / m;
    assert y == y % m + p * m;
    assert 10 * x + d == y % m + d + (p + 10 * q) * m;
    ModAddMultiple(y % m + d, p + 10 * q, m);
  }

  lemma HornerStep(s: string, i: nat)
    requires i < |s| && AllDigits(s[..i]) && IsDigit(s[i])
    ensures AllDigits(s[..i + 1])
    ensures (Number(s[..i]) % TWO_TO_64 * 10 % TWO_TO_64 + DigitValue(s[i])) % TWO_TO_64 == Number(s[..i + 1]) % TWO_TO_64
  {
    assert s[..i + 1] == s[..i] + [s[i]];
    NumberAppend(s[..i], s[i]);
    HornerModulo(Number(s[..i]), DigitValue(s[i]), TWO_TO_64);
  }

  /** `UInt64.fromString` */
  method UInt64FromString(s: string) returns (result: Option<UInt64>)
    ensures (result.None? <==> ParseUnsigned(s).None?)
    ensures result.Some? ==> ParseUnsigned(s) == Some(result.value.Val())
  {
    hide UInt64.Val, UInt64.Add, Number, DigitValue;
    var n := UInt64(0, 0);
    var digit64 := UInt64(0, 0);
    NumberOfNothing(s);
    for i := 0 to |s|
      invariant AllDigits(s[..i]) && n.Val() == Number(s[..i]) % TWO_TO_64
      invariant digit64.hi == 0
    {
      if !IsDigit(s[i]) {
        return None;
      }
      DigitIsSmall(s[i]);
      digit64 := digit64.(lo := DigitValue(s[i]));
      HornerStep(s, i);
      var product := Mul(n, 10);
      product.AddVal(digit64);
      n := product.Add(digit64);
    }
    assert s[..|s|] == s;
    return Some(n);
  }

  lemma NumberOfNothing(s: string)
    ensures AllDigits(s[..0]) && UInt64(0, 0).Val() == Number(s[..0]) % TWO_TO_64
  {
    assert s[..0] == "";
  }

  lemma DigitIsSmall(c: char)
    requires IsDigit(c)
    ensures DigitValue(c) < 10 && UInt64(DigitValue(c), 0).Val() == DigitValue(c)
  {
  }

  /** A 64-bit value read as two's complement when converted to and from text. */
  datatype Int64 = Int64(lo: uint32, hi: uint32)
  {
    function Val(): (n: nat)
      ensures n < TWO_TO_64
    {
      Join(lo, hi)
    }
  }

  lemma SignedByTopBit(n: Int64)
    ensures n.hi >= TWO_TO_31 ==> Signed(n.Val()) < 0 && (0 - n.Val()) % TWO_TO_64 == -Signed(n.Val())
    ensures n.hi < TWO_TO_31 ==> Signed(n.Val()) == n.Val()
  {
  }

  /** `Int64.prototype.toString`: the canonical signed decimal. */
  method Int64ToString(n: Int64) returns (result: string)
    ensures result == SignedText(Signed(n.Val()))
  {
    hide UInt64.Sub, And, Signed, Unsigned;
    TopBit(n.hi);
    SignedByTopBit(n);
    var sign := And(n.hi, 0x8000_0000) != 0;
    var num := UInt64(n.lo, n.hi);
    if sign {
      UInt64(0, 0).SubVal(num);
      num := UInt64(0, 0).Sub(num);
    }
    var digits := UInt64ToString(num);
    result := (if sign then "-" else "") + digits;
  }

  /** `Int64.fromString` */
  method Int64FromString(s: string) returns (result: Option<Int64>)
    ensures (result.None? <==> ParseSigned(s).None?)
    ensures result.Some? ==> ParseSigned(s) == Some(result.value.Val())
  {
    hide UInt64.Sub;
    var hasNegative := |s| > 0 && s[0] == '-';
    var digits := if hasNegative then s[1..] else s;
    var parsed := UInt64FromString(digits);
    if parsed.None? {
      return None;
    }
    var num := parsed.value;
    if hasNegative {
      UInt64(0, 0).SubVal(num);
      num := UInt64(0, 0).Sub(num);
    }
    return Some(Int64(num.lo, num.hi));
  }

  /** Parsing undoes printing on all unsigned 64-bit values. */
  lemma ParsePrintUnsigned(n: nat)
    requires n < TWO_TO_64
    ensures ParseUnsigned(Unsigned(n)) == Some(n)
  {
    hide Unsigned, Number;
    UnsignedDenotes(n);
  }

  /** Parsing undoes printing on all signed 64-bit values, -2^63 included. */
  lemma ParsePrintSigned(n: nat)
    requires n < TWO_TO_64
    ensures ParseSigned(SignedText(Signed(n))) == Some(n)
  {
    hide Unsigned, Number;
    var v := Signed(n);
    var magnitude := if v < 0 then -v else v;
    UnsignedDenotes(magnitude);
    if v < 0 {
      assert SignedText(v)[1..] == Unsigned(magnitude);
    } else {
      assert IsDigit(SignedText(v)[0]);
    }
  }
}
