/** `BinaryEncoder.writeString` and `BinaryDecoder.readString`: UTF-16 code units to UTF-8 and back
    (section 3 of RFC 3629, sections 2.1 and 2.2 of RFC 2781). */
module Utf8 {
  import opened Js
  import opened Encoder
  import opened Decoder

  /** One element of a JavaScript string. */
  type unit = u: int | 0 <= u < 0x1_0000

  predicate IsHigh(c: int) { 0xD800 <= c <= 0xDBFF }

  predicate IsLow(c: int) { 0xDC00 <= c <= 0xDFFF }

  /** The scalar value of a surrogate pair. */
  function CodePoint(high: unit, low: unit): (p: int)
    requires IsHigh(high) && IsLow(low)
    ensures 0x1_0000 <= p < 0x11_0000
  {
    (high - 0xD800) * 0x400 + low - 0xDC00 + 0x1_0000
  }

  function TwoBytes(c: int): seq<byte>
    requires 0 <= c < 0x800
  {
    [192 + c / 64, 128 + c % 64]
  }

  function ThreeBytes(c: int): seq<byte>
    requires 0 <= c < 0x1_0000
  {
    [224 + c / 0x1000, 128 + c / 64 % 64, 128 + c % 64]
  }

  function FourBytes(p: int): seq<byte>
    requires 0x1_0000 <= p < 0x11_0000
  {
    [240 + p / 0x4_0000, 128 + p / 0x1000 % 64, 128 + p / 64 % 64, 128 + p % 64]
  }

  /** The bytes of the first code unit or pair, and how many code units they stand for. */
  function EncodeFirst(s: seq<unit>): (r: (seq<byte>, nat))
    requires s != []
    ensures 1 <= r.1 <= |s|
  {
    var c := s[0];
    if c < 128 then ([c], 1)
    else if c < 2048 then (TwoBytes(c), 1)
    else if IsHigh(c) && |s| > 1 then
      if IsLow(s[1]) then (FourBytes(CodePoint(c, s[1])), 2) else ([], 1)
    else (ThreeBytes(c), 1)
  }

  function Encode(s: seq<unit>): seq<byte> {
    if s == [] then [] else EncodeFirst(s).0 + Encode(s[EncodeFirst(s).1..])
  }

  /** What survives: every high surrogate that is followed by something other than a low one is lost. */
  function Cleaned(s: seq<unit>): seq<unit> {
    if s == [] then []
    else if IsHigh(s[0]) && |s| > 1 && !IsLow(s[1]) then Cleaned(s[1..])
    else [s[0]] + Cleaned(s[1..])
  }

  /** No high surrogate is followed by anything but a low one. */
  ghost predicate HighsPaired(s: seq<unit>) {
    forall i :: 0 <= i < |s| - 1 && IsHigh(s[i]) ==> IsLow(s[i + 1])
  }

  /** Nothing is lost exactly when each non-final high surrogate is paired. */
  lemma {:induction false} CleanedIdentity(s: seq<unit>)
    ensures Cleaned(s) == s <==> HighsPaired(s)
    ensures |Cleaned(s)| <= |s|
  {
    if s != [] {
      CleanedIdentity(s[1..]);
      assert s == [s[0]] + s[1..];
      if HighsPaired(s) {
        assert HighsPaired(s[1..]) by {
          forall i | 0 <= i < |s[1..]| - 1 && IsHigh(s[1..][i])
            ensures IsLow(s[1..][i + 1])
          {
            assert s[1..][i] == s[i + 1];
          }
        }
      } else {
        var i :| 0 <= i < |s| - 1 && IsHigh(s[i]) && !IsLow(s[i + 1]);
        if i > 0 {
          assert s[1..][i - 1] == s[i] && s[1..][i] == s[i + 1];
        }
      }
    }
  }

  /** Well-formed UTF-16: surrogates only in pairs, high before low. */
  ghost predicate WellFormed(s: seq<unit>) {
    s == [] || (if IsHigh(s[0]) then |s| > 1 && IsLow(s[1]) && WellFormed(s[2..])
                else !IsLow(s[0]) && WellFormed(s[1..]))
  }

  lemma {:induction false} WellFormedPaired(s: seq<unit>)
    requires WellFormed(s)
    ensures HighsPaired(s)
  {
    if s != [] {
      var n := if IsHigh(s[0]) then 2 else 1;
      WellFormedPaired(s[n..]);
      forall i | 0 <= i < |s| - 1 && IsHigh(s[i])
        ensures IsLow(s[i + 1])
      {
        if i >= n {
          assert s[n..][i - n] == s[i] && s[n..][i - n + 1] == s[i + 1];
        }
      }
    }
  }

  // ----- bit arithmetic -----

  lemma LeadAndTrail(c: nat)
    requires c < 0x20_0000
    ensures c < 0x800 ==> Or(Sar(c, 6), 192) == 192 + c / 64
    ensures c < 0x1_0000 ==> Or(Sar(c, 12), 224) == 224 + c / 0x1000
    ensures Or(Sar(c, 18), 240) == 240 + c / 0x4_0000
  {
    hide Or;
    Pow2Values();
    HalvedDivides(c, 6);
    HalvedDivides(c, 12);
    HalvedDivides(c, 18);
    Pow2Add(6, 6);
    Pow2Add(12, 6);
    assert Pow2(5) == 32;
    if c < 0x800 {
      OrSum(c / 64, 192, 5);
      ToUint32OfSmall(Or(c / 64, 192));
    }
    if c < 0x1_0000 {
      OrSum(c / 0x1000, 224, 4);
      ToUint32OfSmall(Or(c / 0x1000, 224));
    }
    OrSum(c / 0x4_0000, 240, 3);
    ToUint32OfSmall(Or(c / 0x4_0000, 240));
  }

  lemma Trail(x: nat)
    ensures Or(And(x, 63), 128) == 128 + x % 64
  {
    hide Or, And;
    assert Pow2(6) == 64;
    AndMask(x, 63, 6);
    OrSum(x % 64, 128, 6);
    ToUint32OfSmall(Or(x % 64, 128));
  }

  lemma Shifted(c: nat)
    requires c < 0x20_0000
    ensures Sar(c, 6) == c / 64 && Sar(c, 12) == c / 0x1000
  {
    HalvedDivides(c, 6);
    HalvedDivides(c, 12);
    Pow2Values();
    Pow2Add(6, 6);
  }

  // ----- encoding -----

  lemma EncodeUnfold(s: seq<unit>, i: nat)
    requires i < |s|
    ensures Encode(s[i..]) == EncodeFirst(s[i..]).0 + Encode(s[i + EncodeFirst(s[i..]).1..])
  {
    assert s[i..][EncodeFirst(s[i..]).1..] == s[i + EncodeFirst(s[i..]).1..];
  }

  /** `writeString`: pushes the encoding and returns how many bytes it pushed. */
  method WriteString(encoder: BinaryEncoder, value: seq<unit>) returns (length: nat)
    modifies encoder.buffer
    ensures encoder.buffer.elems == old(encoder.buffer.elems) + Encode(value)
    ensures length == |Encode(value)|
  {
    hide Or, And, Sar, Encode;
    var buffer := encoder.buffer;
    var oldLength := |buffer.elems|;
    var i := 0;
    assert value[0..] == value;
    while i < |value|
      invariant 0 <= i <= |value|
      invariant buffer.elems + Encode(value[i..]) == old(buffer.elems) + Encode(value)
    {
      EncodeUnfold(value, i);
      ghost var before := buffer.elems;
      ghost var first := EncodeFirst(value[i..]);
      var c: int := value[i];
      if c < 128 {
        buffer.Push(c);
      } else if c < 2048 {
        LeadAndTrail(c);
        Trail(c);
        buffer.Push(Or(Sar(c, 6), 192));
        buffer.Push(Or(And(c, 63), 128));
      } else if c < 65536 {
        if c >= 0xD800 && c <= 0xDBFF && i + 1 < |value| {
          var second := value[i + 1];
          if second >= 0xDC00 && second <= 0xDFFF {
            c := (c - 0xD800) * 0x400 + second - 0xDC00 + 0x10000;
            PushFour(buffer, c);
            i := i + 1;
          }
        } else {
          PushThree(buffer, c);
        }
      }
      assert buffer.elems == before + first.0;
      i := i + 1;
    }
    EncodeNothing(value);
    length := |buffer.elems| - oldLength;
  }

  lemma EncodeNothing(s: seq<unit>)
    ensures Encode(s[|s|..]) == []
  {
  }

  method PushFour(buffer: NumberArray, c: int)
    requires 0x1_0000 <= c < 0x11_0000
    modifies buffer
    ensures buffer.elems == old(buffer.elems) + FourBytes(c)
  {
    hide Or, And, Sar;
    LeadAndTrail(c);
    Shifted(c);
    Trail(c / 0x1000);
    Trail(c / 64);
    Trail(c);
    buffer.Push(Or(Sar(c, 18), 240));
    buffer.Push(Or(And(Sar(c, 12), 63), 128));
    buffer.Push(Or(And(Sar(c, 6), 63), 128));
    buffer.Push(Or(And(c, 63), 128));
  }

  method PushThree(buffer: NumberArray, c: int)
    requires 0 <= c < 0x1_0000
    modifies buffer
    ensures buffer.elems == old(buffer.elems) + ThreeBytes(c)
  {
    hide Or, And, Sar;
    LeadAndTrail(c);
    Shifted(c);
    Trail(c / 64);
    Trail(c);
    buffer.Push(Or(Sar(c, 12), 224));
    buffer.Push(Or(And(Sar(c, 6), 63), 128));
    buffer.Push(Or(And(c, 63), 128));
  }

  // ----- decoding -----

  /** The scalar value of four bytes; the original computes it with bit operators. */
  function Scalar4(c: int, c2: int, c3: int, c4: int): nat {
    c % 8 * 0x4_0000 + c2 % 64 * 0x1000 + c3 % 64 * 64 + c4 % 64
  }

  function Scalar2(c: int, c2: int): nat { c % 32 * 64 + c2 % 64 }

  function Scalar3(c: int, c2: int, c3: int): nat { c % 16 * 0x1000 + c2 % 64 * 64 + c3 % 64 }

  /** The pair of surrogates that `readString` makes of a scalar value, overlong ones included. */
  function HighOf(p: nat): unit { (p - 0x1_0000) / 1024 % 1024 + 0xD800 }

  function LowOf(p: nat): unit { (p - 0x1_0000) % 1024 + 0xDC00 }

  /** One turn of the loop of `readString`: the code units it pushes and the cursor behind them. */
  function DecodeFirst(bytes: seq<byte>, i: int): (r: (seq<unit>, int))
    ensures r.1 > i
  {
    var c := At(bytes, i);
    if c.Below(128) then ([c.b], i + 1)
    else if c.Below(192) then ([], i + 1)
    else if c.Below(224) then ([Scalar2(c.b, At(bytes, i + 1).Bits())], i + 2)
    else if c.Below(240) then
      ([Scalar3(c.b, At(bytes, i + 1).Bits(), At(bytes, i + 2).Bits())], i + 3)
    else if c.Below(248) then
      var p := Scalar4(c.b, At(bytes, i + 1).Bits(), At(bytes, i + 2).Bits(), At(bytes, i + 3).Bits());
      ([HighOf(p), LowOf(p)], i + 4)
    else ([], i + 1)
  }

  /** All code units of the bytes in [i, end), and the cursor at which reading stops. */
  function Decode(bytes: seq<byte>, i: int, end: int): (seq<unit>, int)
    decreases end - i
  {
    if i >= end then ([], i)
    else
      var first := DecodeFirst(bytes, i);
      var rest := Decode(bytes, first.1, end);
      (first.0 + rest.0, rest.1)
  }

  lemma MaskBits(x: nat)
    ensures And(x, 63) == x % 64 && And(x, 31) == x % 32 && And(x, 15) == x % 16 && And(x, 7) == x % 8
  {
    hide And;
    assert Pow2(3) == 8 && Pow2(4) == 16 && Pow2(5) == 32 && Pow2(6) == 64;
    AndMask(x, 63, 6);
    AndMask(x, 31, 5);
    AndMask(x, 15, 4);
    AndMask(x, 7, 3);
  }

  lemma ShlExact(x: nat, k: nat, p: nat)
    requires k <= 31 && p == Pow2(k) && x * p < TWO_TO_31
    ensures 0 <= x * p && Shl(x, k) == x * p
  {
    hide Shl;
    MulNonNegative(x, p);
    ShlMod(x, k);
    ToUint32OfSmall(Shl(x, k));
  }

  lemma Places(x: nat)
    requires x < 64
    ensures Shl(x, 6) == x * 64 && Shl(x, 12) == x * 0x1000
    ensures x < 8 ==> Shl(x, 18) == x * 0x4_0000
  {
    hide Shl;
    Pow2Values();
    Pow2Add(6, 6);
    Pow2Add(12, 6);
    ShlExact(x, 6, 64);
    ShlExact(x, 12, 0x1000);
    if x < 8 {
      ShlExact(x, 18, 0x4_0000);
    }
  }

  /** `hi | lo` for a low part of six bits. */
  lemma OrSix(hi: nat, lo: nat)
    requires hi % 64 == 0 && hi < TWO_TO_31 - 64 && lo < 64
    ensures Or(hi, lo) == hi + lo
  {
    hide Or;
    assert Pow2(6) == 64;
    OrSum(lo, hi, 6);
    ToUint32OfSmall(Or(hi, lo));
  }

  lemma OrTwelve(hi: nat, lo: nat)
    requires hi % 0x1000 == 0 && hi < TWO_TO_31 - 0x1000 && lo < 0x1000
    ensures Or(hi, lo) == hi + lo
  {
    hide Or;
    Pow2Values();
    Pow2Add(6, 6);
    OrSum(lo, hi, 12);
    ToUint32OfSmall(Or(hi, lo));
  }

  lemma OrEighteen(hi: nat, lo: nat)
    requires hi % 0x4_0000 == 0 && hi < TWO_TO_31 - 0x4_0000 && lo < 0x4_0000
    ensures Or(hi, lo) == hi + lo
  {
    hide Or;
    Pow2Values();
    Pow2Add(6, 6);
    Pow2Add(12, 6);
    OrSum(lo, hi, 18);
    ToUint32OfSmall(Or(hi, lo));
  }

  lemma Combine2(c: byte, c2: byte)
    ensures Or(Shl(And(c, 31), 6), And(c2, 63)) == Scalar2(c, c2)
  {
    hide Or, Shl, And;
    MaskBits(c);
    MaskBits(c2);
    Places(c % 32);
    OrSix(c % 32 * 64, c2 % 64);
  }

  lemma Combine3(c: byte, c2: byte, c3: byte)
    ensures Or(Or(Shl(And(c, 15), 12), Shl(And(c2, 63), 6)), And(c3, 63))
            == Scalar3(c, c2, c3)
  {
    hide Or, Shl, And;
    MaskBits(c);
    MaskBits(c2);
    MaskBits(c3);
    Places(c % 16);
    Places(c2 % 64);
    OrTwelve(c % 16 * 0x1000, c2 % 64 * 64);
    OrSix(c % 16 * 0x1000 + c2 % 64 * 64, c3 % 64);
  }

  lemma Combine4(c: byte, c2: byte, c3: byte, c4: byte)
    ensures Or(Or(Or(Shl(And(c, 7), 18), Shl(And(c2, 63), 12)), Shl(And(c3, 63), 6)), And(c4, 63))
            == Scalar4(c, c2, c3, c4)
  {
    hide Or, Shl, And;
    MaskBits(c);
    MaskBits(c2);
    MaskBits(c3);
    MaskBits(c4);
    Places(c % 8);
    Places(c2 % 64);
    Places(c3 % 64);
    OrEighteen(c % 8 * 0x4_0000, c2 % 64 * 0x1000);
    OrTwelve(c % 8 * 0x4_0000 + c2 % 64 * 0x1000, c3 % 64 * 64);
    OrSix(c % 8 * 0x4_0000 + c2 % 64 * 0x1000 + c3 % 64 * 64, c4 % 64);
  }

  lemma Surrogates(p: nat)
    requires p < 0x20_0000
    ensures And(p - 0x1_0000, 1023) + 0xDC00 == LowOf(p)
    ensures And(Sar(p - 0x1_0000, 10), 1023) + 0xD800 == HighOf(p)
  {
    hide And;
    assert Pow2(10) == 1024;
    AndMask(p - 0x1_0000, 1023, 10);
    HalvedDivides(p - 0x1_0000, 10);
    AndMask(Sar(p - 0x1_0000, 10), 1023, 10);
  }

  lemma Scalar4Bound(c: byte, c2: byte, c3: byte, c4: byte)
    ensures Scalar4(c, c2, c3, c4) < 0x20_0000
  {
  }

  lemma DecodeUnfold(bytes: seq<byte>, i: int, end: int)
    requires i < end
    ensures Decode(bytes, i, end).0 == DecodeFirst(bytes, i).0 + Decode(bytes, DecodeFirst(bytes, i).1, end).0
    ensures Decode(bytes, i, end).1 == Decode(bytes, DecodeFirst(bytes, i).1, end).1
  {
  }

  /** `readString`: the code units of `length` bytes. The buffer of code units is flushed into the
      result whenever it has 8192 elements or more, which does not show in the result. */
  method ReadString(d: BinaryDecoder, length: int) returns (result: seq<unit>)
    modifies d`cursor
    ensures (result, d.cursor) == Decode(d.bytes, old(d.cursor), old(d.cursor) + length)
  {
    hide Or, And, Shl, Sar, Decode, DecodeFirst;
    var bytes := d.bytes;
    var cursor := d.cursor;
    var end := cursor + length;
    var codeUnits: seq<unit> := [];
    result := [];
    ghost var all := Decode(bytes, cursor, end);
    assert [] + [] + all.0 == all.0;
    while cursor < end
      invariant result + codeUnits + Decode(bytes, cursor, end).0 == all.0
      invariant Decode(bytes, cursor, end).1 == all.1
      decreases end - cursor
    {
      DecodeUnfold(bytes, cursor, end);
      ghost var before, from := codeUnits, cursor;
      var pushed: seq<unit>;
      pushed, cursor := ReadCharacter(bytes, cursor);
      codeUnits := codeUnits + pushed;
      assert result + codeUnits + Decode(bytes, cursor, end).0
          == result + before + (pushed + Decode(bytes, cursor, end).0);
      if |codeUnits| >= 8192 {
        result := result + codeUnits;
        codeUnits := [];
      }
    }
    DecodeStops(bytes, cursor, end);
    assert result + codeUnits + [] == result + codeUnits;
    result := result + codeUnits;
    d.cursor := cursor;
  }

  lemma DecodeStops(bytes: seq<byte>, i: int, end: int)
    requires i >= end
    ensures Decode(bytes, i, end) == ([], i)
  {
  }

  /** The body of the loop of `readString`. */
  method ReadCharacter(bytes: seq<byte>, start: int) returns (pushed: seq<unit>, cursor: int)
    ensures (pushed, cursor) == DecodeFirst(bytes, start)
  {
    hide Or, And, Shl, Sar;
    cursor := start;
    pushed := [];
    var c := At(bytes, cursor);
    cursor := cursor + 1;
    if c.Below(128) {
      pushed := [c.b];
    } else if c.Below(192) {
    } else if c.Below(224) {
      var c2 := At(bytes, cursor);
      cursor := cursor + 1;
      Combine2(c.b, c2.Bits());
      pushed := [Or(Shl(And(c.b, 31), 6), And(c2.Bits(), 63))];
    } else if c.Below(240) {
      var c2, c3 := At(bytes, cursor), At(bytes, cursor + 1);
      cursor := cursor + 2;
      Combine3(c.b, c2.Bits(), c3.Bits());
      pushed := [Or(Or(Shl(And(c.b, 15), 12), Shl(And(c2.Bits(), 63), 6)), And(c3.Bits(), 63))];
    } else if c.Below(248) {
      var c2, c3, c4 := At(bytes, cursor), At(bytes, cursor + 1), At(bytes, cursor + 2);
      cursor := cursor + 3;
      Combine4(c.b, c2.Bits(), c3.Bits(), c4.Bits());
      Scalar4Bound(c.b, c2.Bits(), c3.Bits(), c4.Bits());
      var codepoint: int := Or(Or(Or(Shl(And(c.b, 7), 18), Shl(And(c2.Bits(), 63), 12)),
                                  Shl(And(c3.Bits(), 63), 6)), And(c4.Bits(), 63));
      Surrogates(codepoint);
      codepoint := codepoint - 0x10000;
      var low := And(codepoint, 1023) + 0xDC00;
      var high := And(Sar(codepoint, 10), 1023) + 0xD800;
      pushed := [high, low];
    }
  }

  // ----- the round trip -----

  /** Reading the bytes of the first unit or pair gives what `Cleaned` keeps of it. */
  lemma DecodeEncodedFirst(bytes: seq<byte>, i: nat, s: seq<unit>)
    requires s != [] && Holds(bytes, i, EncodeFirst(s).0) && EncodeFirst(s).0 != []
    ensures DecodeFirst(bytes, i) == (s[..EncodeFirst(s).1], i + |EncodeFirst(s).0|)
  {
    var e := EncodeFirst(s).0;
    forall j | 0 <= j < |e|
      ensures At(bytes, i + j) == Byte(e[j])
    {
      assert bytes[i + j] == bytes[i..i + |e|][j];
    }
    assert At(bytes, i + 0) == Byte(e[0]);
    var c: int := s[0];
    if c < 128 {
      assert s[..1] == [c];
    } else if c < 2048 {
      TwoBytesBack(c);
      assert s[..1] == [c];
    } else if IsHigh(c) && |s| > 1 {
      FourBytesBack(c, s[1]);
      assert s[..2] == [c, s[1]];
    } else {
      ThreeBytesBack(c);
      assert s[..1] == [c];
    }
  }

  lemma TwoBytesBack(c: int)
    requires 128 <= c < 0x800
    ensures 192 <= TwoBytes(c)[0] < 224 && Scalar2(TwoBytes(c)[0], TwoBytes(c)[1]) == c
  {
  }

  lemma ThreeBytesBack(c: int)
    requires 0x800 <= c < 0x1_0000
    ensures var b := ThreeBytes(c); 224 <= b[0] < 240 && Scalar3(b[0], b[1], b[2]) == c
  {
    var a: int, b: int := c / 0x1000, c / 64;
    assert 0 <= a < 16 && (224 + a) % 16 == a;
    TrailBits(b);
    TrailBits(c);
    assert c == b * 64 + c % 64 && b == a * 64 + b % 64;
  }

  lemma ScalarBack(p: nat)
    requires 0x1_0000 <= p < 0x11_0000
    ensures Scalar4(FourBytes(p)[0], FourBytes(p)[1], FourBytes(p)[2], FourBytes(p)[3]) == p
  {
    var a: int, b: int, c: int := p / 0x4_0000, p / 0x1000, p / 64;
    LeadBits(a);
    TrailBits(b);
    TrailBits(c);
    TrailBits(p);
    Digits64(p);
  }

  lemma LeadBits(a: int)
    requires 0 <= a < 8
    ensures (240 + a) % 8 == a
  {
  }

  lemma TrailBits(x: int)
    ensures (128 + x % 64) % 64 == x % 64
  {
  }

  lemma Digits64(p: nat)
    ensures p == p / 0x4_0000 * 0x4_0000 + p / 0x1000 % 64 * 0x1000 + p / 64 % 64 * 64 + p % 64
  {
    var b, c := p / 0x1000, p / 64;
    assert p == c * 64 + p % 64 && c == b * 64 + c % 64 && b == p / 0x4_0000 * 64 + b % 64;
  }

  lemma FourBytesBack(high: unit, low: unit)
    requires IsHigh(high) && IsLow(low)
    ensures var b := FourBytes(CodePoint(high, low));
      240 <= b[0] < 248
      && HighOf(Scalar4(b[0], b[1], b[2], b[3])) == high && LowOf(Scalar4(b[0], b[1], b[2], b[3])) == low
  {
    hide Scalar4, HighOf, LowOf;
    var p := CodePoint(high, low);
    ScalarBack(p);
    FourBytesLead(p);
    SurrogatesBack(high, low);
  }

  lemma FourBytesLead(p: int)
    requires 0x1_0000 <= p < 0x11_0000
    ensures 240 <= FourBytes(p)[0] < 248
  {
  }

  lemma SurrogatesBack(high: unit, low: unit)
    requires IsHigh(high) && IsLow(low)
    ensures HighOf(CodePoint(high, low)) == high && LowOf(CodePoint(high, low)) == low
  {
    DivModUnique(CodePoint(high, low) - 0x1_0000, 1024, high - 0xD800, low - 0xDC00);
  }

  lemma CleanedStep(s: seq<unit>)
    requires s != []
    ensures Cleaned(s) == (if EncodeFirst(s).0 == [] then [] else s[..EncodeFirst(s).1]) + Cleaned(s[EncodeFirst(s).1..])
  {
    if IsHigh(s[0]) && |s| > 1 && IsLow(s[1]) {
      assert s[1..][0] == s[1] && s[1..][1..] == s[2..];
      assert s[..2] == [s[0]] + [s[1]];
    } else {
      assert s[..1] == [s[0]];
    }
  }

  /** Reading what `writeString` wrote returns the string without its unpaired, non-final high
      surrogates, and stops exactly behind the bytes. */
  lemma {:induction false} DecodeEncoded(bytes: seq<byte>, i: nat, s: seq<unit>)
    requires Holds(bytes, i, Encode(s))
    ensures Decode(bytes, i, i + |Encode(s)|) == (Cleaned(s), i + |Encode(s)|)
    decreases |s|
  {
    hide EncodeFirst, DecodeFirst, Cleaned;
    if s == [] {
      assert Cleaned(s) == [] by { CleanedIdentity(s); }
    } else {
      var e, n := EncodeFirst(s).0, EncodeFirst(s).1;
      var rest := Encode(s[n..]);
      assert Encode(s) == e + rest;
      HoldsConcat(bytes, i, e, rest);
      DecodeEncoded(bytes, i + |e|, s[n..]);
      CleanedStep(s);
      if e != [] {
        DecodeEncodedFirst(bytes, i, s);
        DecodeUnfold(bytes, i, i + |Encode(s)|);
      } else {
        assert Encode(s) == rest;
        assert Cleaned(s) == Cleaned(s[n..]);
      }
    }
  }

  lemma HoldsConcat(bytes: seq<byte>, i: nat, s: seq<byte>, t: seq<byte>)
    ensures Holds(bytes, i, s + t) <==> Holds(bytes, i, s) && Holds(bytes, i + |s|, t)
  {
    if i + |s| + |t| <= |bytes| {
      var whole := bytes[i..i + |s + t|];
      assert whole[..|s|] == bytes[i..i + |s|] && whole[|s|..] == bytes[i + |s|..i + |s| + |t|];
      assert whole == whole[..|s|] + whole[|s|..];
      assert (s + t)[..|s|] == s && (s + t)[|s|..] == t;
    }
  }

  /** On well-formed UTF-16 the round trip is the identity. */
  lemma DecodeEncodedWellFormed(bytes: seq<byte>, i: nat, s: seq<unit>)
    requires Holds(bytes, i, Encode(s)) && WellFormed(s)
    ensures Decode(bytes, i, i + |Encode(s)|) == (s, i + |Encode(s)|)
  {
    DecodeEncoded(bytes, i, s);
    WellFormedPaired(s);
    CleanedIdentity(s);
  }
}
