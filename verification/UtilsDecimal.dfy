/** `jspb.utils`: the base 10^7 printer and the byte-array decimal parser. */
module UtilsDecimal {
  import opened Js
  import opened Words
  import opened Decimal
  import opened Arith
  import opened Utils

  // ----- printing -----

  const BASE := 10000000

  lemma Pow10Values()
    ensures Pow10(0) == 1 && Pow10(1) == 10 && Pow10(7) == BASE && Pow10(14) == 1_0000000_0000000
  {
    assert Pow10(3) == 1000 && Pow10(7) == 10000 * Pow10(3);
    assert Pow10(10) == 1000 * Pow10(7) && Pow10(14) == 10000 * Pow10(10);
  }

  lemma PaddedPrefixStep(digit: nat, temp: nat, i: nat)
    requires temp > 0
    ensures Padded(digit / temp, i + 1) == Padded(digit / (10 * temp), i) + [Digit(digit / temp % 10)]
  {
    DivisionScales(digit, temp);
  }

  lemma DivisionScales(x: nat, t: nat)
    requires t > 0
    ensures x / t / 10 == x / (10 * t)
  {
    var q, r := x / t / 10, x / t % 10;
    assert x == x / t * t + x % t;
    assert (q * 10 + r) * t == q * (10 * t) + r * t;
    assert 0 <= r * t <= 9 * t by {
      MulNonNegative(r, t);
      assert 9 * t == r * t + (9 - r) * t;
      MulNonNegative(9 - r, t);
    }
    DivModUnique(x, 10 * t, q, r * t + x % t);
  }

  lemma StrippedAppend(prefix: string, c: char)
    ensures Stripped(prefix + [c]) ==
            if Stripped(prefix) == "" && c == '0' then "" else Stripped(prefix) + [c]
  {
    StrippedConcat(prefix, [c]);
    assert "" + [c] == [c];
  }

  /** The inner function `emit`: appends seven digits of `digit`, except that nothing is emitted
      before the first non-zero digit of the whole number. */
  method Emit(digit: nat, before: string, started: bool) returns (result: string, start: bool)
    requires digit < BASE && Stripped(before) == before && started == (before != "")
    ensures result == Stripped(before + Padded(digit, 7)) && start == (result != "")
    ensures Stripped(result) == result
  {
    hide Padded, Stripped, Digit, Pow10;
    var temp: nat := BASE;
    ghost var done := "";
    result, start := before, started;
    Pow10Values();
    NothingPadded(digit, before);
    for i := 0 to 7
      invariant temp == Pow10(7 - i)
      invariant done == Padded(digit / temp, i)
      invariant result == Stripped(before + done) && start == (result != "")
    {
      NextPower(temp, 7 - i);
      temp := temp / 10;
      DigitOk(digit / temp % 10);
      var decimalDigit := digit / temp % 10;
      PaddedPrefixStep(digit, temp, i);
      StrippedAppend(before + done, Digit(decimalDigit));
      assert before + (done + [Digit(decimalDigit)]) == (before + done) + [Digit(decimalDigit)];
      done := done + [Digit(decimalDigit)];
      if decimalDigit == 0 && !start {
        continue;
      }
      start := true;
      result := result + [Digit(decimalDigit)];
    }
    StrippedTwice(before + Padded(digit, 7));
  }

  lemma NextPower(temp: nat, k: nat)
    requires k > 0 && temp == Pow10(k)
    ensures temp / 10 == Pow10(k - 1) && temp / 10 * 10 == temp
  {
  }

  lemma NothingPadded(digit: nat, before: string)
    requires digit < BASE
    ensures Padded(digit / BASE, 0) == "" && before + "" == before
  {
  }

  lemma DigitOk(d: nat)
    requires d < 10
    ensures Digit(d) == '0' <==> d == 0
  {
  }

  lemma {:induction false} StrippedTwice(s: string)
    ensures Stripped(Stripped(s)) == Stripped(s)
  {
    if s != "" && s[0] == '0' {
      StrippedTwice(s[1..]);
    }
  }

  /** The 16:24:24 pieces of a 64-bit number. */
  lemma Pieces(bitsLow: uint32, bitsHigh: uint32)
    ensures And(bitsLow, 0xFFFFFF) == bitsLow % 0x100_0000
    ensures And(ToUint32(Or(Shr(bitsLow, 24), Shl(bitsHigh, 8))), 0xFFFFFF)
            == bitsLow / 0x100_0000 + bitsHigh % 0x1_0000 * 0x100
    ensures And(Sar(bitsHigh, 16), 0xFFFF) == bitsHigh / 0x1_0000
  {
    hide Or, And, Sar, Shl, Shr;
    Pow2Values();
    AndMask(bitsLow, 0xFFFFFF, 24);
    MiddlePiece(bitsLow, bitsHigh);
    AndMask(bitsLow / 0x100_0000 + bitsHigh * 0x100 % TWO_TO_32, 0xFFFFFF, 24);
    MiddleMod(bitsLow, bitsHigh);
    HighPiece(bitsHigh);
  }

  lemma MiddlePiece(bitsLow: uint32, bitsHigh: uint32)
    ensures ToUint32(Or(Shr(bitsLow, 24), Shl(bitsHigh, 8))) == bitsLow / 0x100_0000 + bitsHigh * 0x100 % TWO_TO_32
  {
    Pow2Values();
    ShiftValues(bitsLow);
    var high: int := Shl(bitsHigh, 8);
    ShlMod(bitsHigh, 8);
    OrSum(Shr(bitsLow, 24), high, 8);
  }

  lemma MiddleMod(bitsLow: uint32, bitsHigh: uint32)
    ensures (bitsLow / 0x100_0000 + bitsHigh * 0x100 % TWO_TO_32) % 0x100_0000
            == bitsLow / 0x100_0000 + bitsHigh % 0x1_0000 * 0x100
  {
    var q, r := bitsHigh / 0x1_0000, bitsHigh % 0x1_0000;
    assert bitsHigh * 0x100 == q * 0x100_0000 + r * 0x100;
    assert bitsHigh * 0x100 % TWO_TO_32 == q % 0x100 * 0x100_0000 + r * 0x100;
  }

  lemma SignedTopHalf(h: uint32)
    ensures ToInt32(h) / 0x1_0000 % 0x1_0000 == h / 0x1_0000
  {
    if h >= TWO_TO_31 {
      assert (h - TWO_TO_32) / 0x1_0000 == h / 0x1_0000 - 0x1_0000;
    }
  }

  lemma HighPiece(bitsHigh: uint32)
    ensures And(Sar(bitsHigh, 16), 0xFFFF) == bitsHigh / 0x1_0000
  {
    hide And;
    Pow2Values();
    ShiftValues(ToInt32(bitsHigh));
    SignedTopHalf(bitsHigh);
    AndMask(Sar(bitsHigh, 16), 0xFFFF, 16);
  }

  /** The three base 10^7 digits denote the number, and stay exact doubles while they are formed. */
  lemma BaseDigits(low: nat, mid: nat, high: nat)
    requires low < 0x100_0000 && mid < 0x100_0000 && high < 0x1_0000
    ensures low + mid * 6777216 + high * 6710656 < 0x1_0000_0000_0000
    ensures mid + high * 8147497 < 0x1_0000_0000_0000
    ensures low + mid * 0x100_0000 + high * 0x1_0000_0000_0000 ==
            (low + mid * 6777216 + high * 6710656) + (mid + high * 8147497) * 10000000 + high * 2 * 1_0000000_0000000
  {
  }

  lemma JoinPieces(bitsLow: uint32, bitsHigh: uint32)
    ensures Join(bitsLow, bitsHigh) ==
            bitsLow % 0x100_0000 + (bitsLow / 0x100_0000 + bitsHigh % 0x1_0000 * 0x100) * 0x100_0000
            + bitsHigh / 0x1_0000 * 0x1_0000_0000_0000
    ensures bitsLow / 0x100_0000 + bitsHigh % 0x1_0000 * 0x100 < 0x100_0000
  {
  }

  /** The carries leave the digits of the number in base 10^7, the top one below the base. */
  lemma Carried(n: nat, a: nat, b: nat, c: nat)
    requires n == a + b * BASE + c * 1_0000000_0000000 < TWO_TO_64
    ensures n == a % BASE + (b + a / BASE) % BASE * BASE + (c + (b + a / BASE) / BASE) * 1_0000000_0000000
    ensures c + (b + a / BASE) / BASE < BASE
  {
  }

  /** `joinUnsignedDecimalString`: the canonical decimal of all 64-bit values. */
  method JoinUnsignedDecimalString(bitsLow: uint32, bitsHigh: uint32) returns (result: string)
    ensures result == Unsigned(Join(bitsLow, bitsHigh))
  {
    hide Or, And, Sar, Shl, Shr, Unsigned, Padded, Stripped;
    if bitsHigh <= 0x1FFFFF {
      assert TWO_TO_32 * bitsHigh + bitsLow < TWO_TO_53;
      return Unsigned(TWO_TO_32 * bitsHigh + bitsLow);
    }
    Pieces(bitsLow, bitsHigh);
    JoinPieces(bitsLow, bitsHigh);
    var low: nat := And(bitsLow, 0xFFFFFF);
    var mid: nat := And(ToUint32(Or(Shr(bitsLow, 24), Shl(bitsHigh, 8))), 0xFFFFFF);
    var high: nat := And(Sar(bitsHigh, 16), 0xFFFF);
    BaseDigits(low, mid, high);
    var digitA: nat := low + mid * 6777216 + high * 6710656;
    var digitB: nat := mid + high * 8147497;
    var digitC: nat := high * 2;
    Carried(Join(bitsLow, bitsHigh), digitA, digitB, digitC);
    if digitA >= BASE {
      digitB := digitB + digitA / BASE;
      digitA := digitA % BASE;
    }
    if digitB >= BASE {
      digitC := digitC + digitB / BASE;
      digitB := digitB % BASE;
    }
    ThreeGroups(digitC, digitB, digitA);
    var start := false;
    result := "";
    if digitC != 0 || start {
      result, start := Emit(digitC, result, start);
    }
    if digitB != 0 || start {
      result, start := Emit(digitB, result, start);
    }
    if digitA != 0 || start {
      result, start := Emit(digitA, result, start);
    }
  }

  /** One group after another: what the three guarded calls of `emit` produce. */
  ghost function Emitted(digit: nat, before: string): string {
    if digit == 0 && before == "" then "" else Stripped(before + Padded(digit, 7))
  }

  lemma EmittedAlways(digit: nat, before: string)
    requires digit < BASE && Stripped(before) == before
    ensures Emitted(digit, before) == Stripped(before + Padded(digit, 7))
    ensures Stripped(Emitted(digit, before)) == Emitted(digit, before)
  {
    Pow10Values();
    StrippedPadded(digit, 7);
    assert "" + Padded(digit, 7) == Padded(digit, 7);
    StrippedTwice(before + Padded(digit, 7));
  }

  lemma StrippedPrefix(s: string, t: string)
    ensures Stripped(Stripped(s) + t) == Stripped(s + t)
  {
    StrippedConcat(s, t);
    StrippedTwice(s);
    StrippedConcat(Stripped(s), t);
  }

  lemma ThreeGroups(c: nat, b: nat, a: nat)
    requires c < BASE && b < BASE && a < BASE && c * 1_0000000_0000000 + b * BASE + a > 0
    ensures Stripped("") == ""
    ensures Stripped(Emitted(c, "")) == Emitted(c, "")
    ensures Stripped(Emitted(b, Emitted(c, ""))) == Emitted(b, Emitted(c, ""))
    ensures Emitted(a, Emitted(b, Emitted(c, ""))) == Unsigned(c * 1_0000000_0000000 + b * BASE + a)
  {
    hide Emitted, Padded, Stripped, Unsigned;
    EmptyStripped();
    EmittedAlways(c, "");
    var g1 := Emitted(c, "");
    EmittedAlways(b, g1);
    var g2 := Emitted(b, g1);
    EmittedAlways(a, g2);
    assert "" + Padded(c, 7) == Padded(c, 7);
    StrippedPrefix(Padded(c, 7), Padded(b, 7));
    StrippedPrefix(Padded(c, 7) + Padded(b, 7), Padded(a, 7));
    Pow10Values();
    PaddedConcat(c, b, 7, 7, c * BASE + b);
    PaddedConcat(c * BASE + b, a, 14, 7, c * 1_0000000_0000000 + b * BASE + a);
    Pow10Of21();
    StrippedPadded(c * 1_0000000_0000000 + b * BASE + a, 21);
  }

  lemma EmptyStripped()
    ensures Stripped("") == ""
  {
  }

  lemma Pow10Of21()
    ensures Pow10(21) == 1_0000000_0000000_0000000
  {
    Pow10Values();
    assert Pow10(18) == 10000 * Pow10(14);
    assert Pow10(21) == 1000 * Pow10(18);
  }

  /** `joinSignedDecimalString`: the canonical signed decimal of the two's complement. */
  method JoinSignedDecimalString(bitsLow: uint32, bitsHigh: uint32) returns (result: string)
    ensures result == SignedText(Signed(Join(bitsLow, bitsHigh)))
  {
    hide And, Not, Unsigned;
    TopBit(bitsHigh);
    var lo: int, hi: int := bitsLow, bitsHigh;
    var negative := And(bitsHigh, 0x8000_0000);
    if negative != 0 {
      NotPlusOne(lo);
      lo := ToUint32(Not(lo) as int + 1);
      var carry := if lo == 0 then 1 else 0;
      NotPlusCarry(hi, carry);
      hi := ToUint32(Not(hi) as int + carry);
    }
    NegatedSplit(bitsLow, bitsHigh);
    result := JoinUnsignedDecimalString(lo, hi);
    if negative != 0 {
      result := "-" + result;
    }
  }

  lemma NotPlusCarry(x: uint32, carry: int)
    requires 0 <= carry <= 1
    ensures ToUint32(Not(x) as int + carry) == (0xFFFF_FFFF - x + carry) % TWO_TO_32
  {
    ToUint32Congruent(Not(x) as int + carry, 0xFFFF_FFFF - x + carry, if x < TWO_TO_31 then -1 else 0);
  }

  lemma NegatedSplit(lo: uint32, hi: uint32)
    ensures hi < TWO_TO_31 ==> Signed(Join(lo, hi)) == Join(lo, hi)
    ensures hi >= TWO_TO_31 && lo == 0 ==> Signed(Join(lo, hi)) < 0
                                           && Join(0, (0xFFFF_FFFF - hi + 1) % TWO_TO_32) == -Signed(Join(lo, hi))
    ensures hi >= TWO_TO_31 && lo > 0 ==> Signed(Join(lo, hi)) < 0
                                          && Join(TWO_TO_32 - lo, 0xFFFF_FFFF - hi) == -Signed(Join(lo, hi))
  {
    if hi >= TWO_TO_31 {
      var top: int := TWO_TO_32 - hi;
      assert (0xFFFF_FFFF - hi + 1) % TWO_TO_32 == top;
      assert Signed(Join(lo, hi)) == lo - top * TWO_TO_32;
    }
  }

  // ----- parsing -----

  const DIGITS := "0123456789abcdef"

  /** `DIGITS.indexOf(c)` */
  function DigitIndex(c: char): int {
    if '0' <= c <= '9' then c as int - '0' as int
    else if 'a' <= c <= 'f' then c as int - 'a' as int + 10
    else -1
  }

  lemma DigitIndexFinds(c: char)
    ensures DigitIndex(c) >= 0 ==> DigitIndex(c) < 16 && DIGITS[DigitIndex(c)] == c
    ensures DigitIndex(c) < 0 ==> forall i :: 0 <= i < 16 ==> DIGITS[i] != c
  {
  }

  lemma ByteOfProduct(r: nat)
    requires r < TWO_TO_32
    ensures And(r, 0xFF) == r % 256 && Shr(r, 8) == r / 256
  {
    Pow2Values();
    ShiftValues(r);
    AndMask(r, 0xFF, 8);
  }

  /** What the bytes from here on and the carry still have to contribute. */
  ghost function Pending(bytes: seq<byte>, m: nat, c: nat): nat {
    MulNonNegative(m, HashValue(bytes));
    c + m * HashValue(bytes)
  }

  lemma PendingStep(bytes: seq<byte>, m: nat, c: nat, r: nat)
    requires bytes != [] && r == m * bytes[0] + c
    ensures Pending(bytes, m, c) == r % 256 + 256 * Pending(bytes[1..], m, r / 256)
  {
    var h := HashValue(bytes[1..]);
    var b: int := bytes[0];
    assert m * (b + 256 * h) == m * b + 256 * (m * h);
  }

  /** The bytes stored so far, and the pending rest shifted above them, denote the total. */
  ghost predicate Accumulated(done: seq<byte>, pending: nat, total: nat) {
    total == HashValue(done) + Pow2(8 * |done|) * pending
  }

  lemma AccumulateByte(done: seq<byte>, b: byte, pending: nat, rest: nat, total: nat)
    requires Accumulated(done, pending, total) && pending == b + 256 * rest
    ensures Accumulated(done + [b], rest, total)
  {
    hide HashValue, Pow2;
    HashConcat(done, [b]);
    NextByte(|done|);
    OneByteValue(b);
    SplitProduct(Pow2(8 * |done|), b, rest);
  }

  lemma NextByte(k: nat)
    ensures Pow2(8 * (k + 1)) == Pow2(8 * k) * 256
  {
    Pow2Values();
    Pow2Add(8 * k, 8);
  }

  lemma OneByteValue(b: byte)
    ensures HashValue([b]) == b
  {
    assert [b][1..] == [];
  }

  lemma SplitProduct(p: int, b: int, rest: int)
    ensures p * (b + 256 * rest) == p * b + p * 256 * rest
  {
  }

  lemma {:induction false} HashBound(s: seq<byte>)
    ensures HashValue(s) < Pow2(8 * |s|)
  {
    if s != [] {
      HashBound(s[1..]);
      Pow2Values();
      Pow2Add(8, 8 * |s[1..]|);
    }
  }

  lemma AllStored(bytes: seq<byte>, rest: nat, total: nat)
    requires |bytes| == 8 && Accumulated(bytes, rest, total)
    ensures HashValue(bytes) == total % TWO_TO_64
  {
    HashBound(bytes);
    Pow2Values();
    Pow2Add(32, 32);
    ModAddMultiple(HashValue(bytes), rest, TWO_TO_64);
    DivModUnique(total, TWO_TO_64, rest, HashValue(bytes));
  }

  lemma RestUnchanged(bytes: seq<byte>, i: nat, total: nat)
    requires i <= |bytes| == 8 && Accumulated(bytes[..i], Pending(bytes[i..], 1, 0), total)
    ensures HashValue(bytes) == total % TWO_TO_64
  {
    hide HashValue, Pow2;
    assert bytes == bytes[..i] + bytes[i..];
    HashConcat(bytes[..i], bytes[i..]);
    HashBound(bytes);
    Pow2Values();
    Pow2Add(32, 32);
  }

  lemma ProductSmall(m: nat, b: byte, c: nat)
    requires m <= 256 && c <= 0xFFFF
    ensures 0 <= m * b + c < TWO_TO_32 && (m * b + c) / 256 <= 0xFFFF
  {
    MulNonNegative(m, b);
    MulMonotone(m, b, 255);
  }

  lemma NothingStored(bytes: seq<byte>, m: nat, c: nat)
    ensures Accumulated(bytes[..0], Pending(bytes[0..], m, c), m * HashValue(bytes) + c)
  {
    assert bytes[..0] == [] && bytes[0..] == bytes;
  }

  /** The inner function `muladd`: the bytes become m times their number plus c, modulo 2^64. */
  method MulAdd(resultBytes: array<byte>, m: nat, c0: int)
    requires resultBytes.Length == 8
    modifies resultBytes
    ensures m <= 256 && 0 <= c0 <= 0xFFFF ==>
              HashValue(resultBytes[..]) == (m * HashValue(old(resultBytes[..])) + c0) % TWO_TO_64
  {
    hide And, Shr, HashValue, Accumulated, Pending;
    var c := c0;
    var i := 0;
    ghost var was := resultBytes[..];
    ghost var tame := m <= 256 && 0 <= c0 <= 0xFFFF;
    ghost var total := m * HashValue(was) + c0;
    if tame {
      NothingStored(was, m, c0);
    }
    while i < 8 && (m != 1 || c > 0)
      invariant 0 <= i <= 8
      invariant tame ==> 0 <= c <= 0xFFFF
      invariant resultBytes[i..] == was[i..]
      invariant tame ==> 0 <= total && Accumulated(resultBytes[..i], Pending(was[i..], m, c), total)
    {
      var r: int := m * resultBytes[i] + c;
      ghost var done := resultBytes[..i];
      LowByteOf(r);
      if tame {
        assert was[i] == resultBytes[i..][0];
        assert was[i..][1..] == was[i + 1..];
        ProductSmall(m, was[i], c);
        ByteOfProduct(r);
        PendingStep(was[i..], m, c, r);
        AccumulateByte(done, r % 256, Pending(was[i..], m, c), Pending(was[i + 1..], m, r / 256), total);
      }
      resultBytes[i] := And(r, 0xFF);
      c := Shr(r, 8);
      i := i + 1;
      assert resultBytes[i..] == was[i..];
      assert resultBytes[..i] == done + [resultBytes[i - 1]];
    }
    if tame {
      if i == 8 {
        assert resultBytes[..8] == resultBytes[..];
        AllStored(resultBytes[..], Pending(was[8..], m, c), total);
      } else {
        assert resultBytes[..][i..] == was[i..] && resultBytes[..][..i] == resultBytes[..i];
        RestUnchanged(resultBytes[..], i, total);
      }
    }
  }

  lemma LowByteOf(r: int)
    ensures 0 <= And(r, 0xFF) < 256
  {
    Pow2Values();
    AndMask(r, 0xFF, 8);
  }

  lemma {:induction false} ComplementValue(a: seq<byte>, b: seq<byte>)
    requires |a| == |b| && forall k :: 0 <= k < |a| ==> b[k] == 255 - a[k]
    ensures HashValue(a) + HashValue(b) == Pow2(8 * |a|) - 1
  {
    if a != [] {
      ComplementValue(a[1..], b[1..]);
      Pow2Values();
      Pow2Add(8, 8 * |a[1..]|);
    }
  }

  lemma NotByte(b: byte)
    ensures And(Not(b), 0xFF) == 255 - b
  {
    hide And, Pow2;
    Pow2Values();
    AndMask(Not(b), 0xFF, 8);
    assert Not(b) == 0 - b - 1;
  }

  /** The inner function `neg`. */
  method Neg(resultBytes: array<byte>)
    requires resultBytes.Length == 8
    modifies resultBytes
    ensures HashValue(resultBytes[..]) == TWO_TO_64 - 1 - HashValue(old(resultBytes[..]))
  {
    hide And, Not, HashValue;
    ghost var was := resultBytes[..];
    for i := 0 to 8
      invariant forall k :: 0 <= k < i ==> resultBytes[k] == 255 - was[k]
      invariant resultBytes[i..] == was[i..]
    {
      assert resultBytes[i] == resultBytes[i..][0] == was[i];
      NotByte(resultBytes[i]);
      resultBytes[i] := And(Not(resultBytes[i]), 0xFF);
      assert resultBytes[i + 1..] == was[i + 1..];
    }
    Complement64(was, resultBytes[..]);
  }

  lemma Complement64(a: seq<byte>, b: seq<byte>)
    requires |a| == |b| == 8 && forall k :: 0 <= k < 8 ==> b[k] == 255 - a[k]
    ensures HashValue(a) + HashValue(b) == TWO_TO_64 - 1
  {
    ComplementValue(a, b);
    Pow2Values();
    Pow2Add(32, 32);
  }

  lemma ZeroBytes(bytes: seq<byte>)
    requires |bytes| == 8 && forall k :: 0 <= k < 8 ==> bytes[k] == 0
    ensures HashValue(bytes) == 0
  {
    HashHalves(bytes);
  }

  lemma ParseStep(digits: string, i: nat, value: nat)
    requires AllDigits(digits) && i < |digits| && value == Number(digits[..i]) % TWO_TO_64
    ensures 0 <= DigitIndex(digits[i]) <= 9
    ensures (10 * value + DigitIndex(digits[i])) % TWO_TO_64 == Number(digits[..i + 1]) % TWO_TO_64
  {
    assert digits[..i + 1] == digits[..i] + [digits[i]];
    NumberAppend(digits[..i], digits[i]);
    HornerOnce(Number(digits[..i]), DigitValue(digits[i]), TWO_TO_64);
  }

  lemma HornerOnce(x: int, d: int, m: int)
    requires 0 < m
    ensures (10 * (x % m) + d) % m == (10 * x + d) % m
  {
    var q := x / m;
    assert 10 * x + d == 10 * (x % m) + d + (10 * q) * m;
    ModAddMultiple(10 * (x % m) + d, 10 * q, m);
  }

  lemma NegatePlusOne(v: nat)
    requires v < TWO_TO_64
    ensures (1 * (TWO_TO_64 - 1 - v) + 1) % TWO_TO_64 == (0 - v) % TWO_TO_64
  {
    ModAddMultiple(0 - v, 1, TWO_TO_64);
  }

  /** The digits of a decimal string, without its sign. */
  function Unsign(dec: string): string {
    if dec != "" && dec[0] == '-' then dec[1..] else dec
  }

  /** `decimalStringToHash64`: the two's complement of every signed or unsigned digit string, as
      little-endian bytes. It is the number that `UInt64.fromString` and `Int64.fromString` return. */
  method DecimalStringToHash64(dec: string) returns (hash: seq<byte>)
    requires dec != ""
    ensures |hash| == 8
    ensures AllDigits(Unsign(dec)) ==> ParseSigned(dec) == Some(HashValue(hash))
  {
    hide HashValue, Number, DigitIndex;
    var minus := dec[0] == '-';
    var digits := if minus then dec[1..] else dec;
    var resultBytes := new byte[8](_ => 0);
    ZeroBytes(resultBytes[..]);
    assert digits[..0] == "";
    NumberOfNothing(digits);
    for i := 0 to |digits|
      invariant AllDigits(digits) ==> HashValue(resultBytes[..]) == Number(digits[..i]) % TWO_TO_64
    {
      if AllDigits(digits) {
        ParseStep(digits, i, HashValue(resultBytes[..]));
      }
      MulAdd(resultBytes, 10, DigitIndex(digits[i]));
    }
    assert digits[..|digits|] == digits;
    if minus {
      ghost var v := HashValue(resultBytes[..]);
      HashBound64(resultBytes[..]);
      NegatePlusOne(v);
      Neg(resultBytes);
      MulAdd(resultBytes, 1, 1);
    }
    hash := resultBytes[..];
  }

  lemma HashBound64(bytes: seq<byte>)
    requires |bytes| == 8
    ensures HashValue(bytes) < TWO_TO_64
  {
    HashBound(bytes);
    Pow2Values();
    Pow2Add(32, 32);
  }
}
