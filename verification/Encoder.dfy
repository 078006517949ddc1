/** `jspb.BinaryEncoder`: the byte-level writers, each pushing onto one growable number array. */
module Encoder {
  import opened Js
  import opened Varints
  import opened Words
  import opened Utils

  /** A JavaScript `Array.<number>`: a mutable object that the encoder hands over as it is. */
  class NumberArray {
    var elems: seq<int>

    constructor ()
      ensures elems == []
    {
      elems := [];
    }

    method Push(x: int)
      modifies this
      ensures elems == old(elems) + [x]
    {
      elems := elems + [x];
    }

    method Pop() returns (x: int)
      requires elems != []
      modifies this
      ensures old(elems) == elems + [x]
    {
      x := elems[|elems| - 1];
      elems := elems[..|elems| - 1];
    }
  }

  lemma JoinShift(lo: uint32, hi: uint32)
    ensures Join(lo, hi) / 128 % TWO_TO_32 == lo / 128 + hi * 0x200_0000 % TWO_TO_32
    ensures Join(lo, hi) / 128 / TWO_TO_32 == hi / 128
    ensures Join(lo, hi) % 128 == lo % 128
  {
    var q, r := hi / 128, hi % 128;
    assert Join(lo, hi) / 128 == lo / 128 + hi * 0x200_0000;
    DivModUnique(hi * 0x200_0000, TWO_TO_32, q, r * 0x200_0000);
    DivModUnique(Join(lo, hi) / 128, TWO_TO_32, q, lo / 128 + r * 0x200_0000);
  }

  lemma ShiftIn(lo: uint32, hi: uint32)
    ensures ToUint32(Or(Shr(lo, 7), Shl(hi, 25))) == lo / 128 + hi * 0x200_0000 % TWO_TO_32
  {
    Pow2Values();
    var high: int := Shl(hi, 25);
    ShlMod(hi, 25);
    ShiftValues(lo);
    OrSum(Shr(lo, 7), high, 25);
  }

  /** One turn of the encoding loop divides the pair of halves by 128. */
  lemma NextHalves(lo: uint32, hi: uint32)
    ensures Join(ToUint32(Or(Shr(lo, 7), Shl(hi, 25))), Shr(hi, 7)) == Join(lo, hi) / 128
    ensures Join(lo, hi) % 128 == lo % 128
  {
    ShiftValues(hi);
    JoinShift(lo, hi);
    ShiftIn(lo, hi);
  }

  lemma LastByte(lo: uint32)
    requires lo <= 127
    ensures Varint(Join(lo, 0)) == Varint(lo) == [lo]
  {
  }

  lemma SplitStep(lo: uint32, hi: uint32)
    requires hi > 0 || lo > 127
    ensures Varint(Join(lo, hi)) ==
            [Or(And(lo, 0x7f), 0x80)] + Varint(Join(ToUint32(Or(Shr(lo, 7), Shl(hi, 25))), Shr(hi, 7)))
    ensures Join(ToUint32(Or(Shr(lo, 7), Shl(hi, 25))), Shr(hi, 7)) < Join(lo, hi)
  {
    NextHalves(lo, hi);
    ContinuedSeptet(lo);
    VarintStep(Join(lo, hi));
  }

  lemma UnsignedStep(v: uint32)
    requires v > 127
    ensures Varint(v) == [Or(And(v, 0x7f), 0x80)] + Varint(Shr(v, 7)) && Shr(v, 7) < v
  {
    ShiftValues(v);
    ContinuedSeptet(v);
    VarintStep(v);
  }

  lemma ZigzagNonNegative(v: int32)
    requires v >= 0
    ensures ToUint32(Shl(v, 1)) == 2 * v && Sar(v, 31) == 0
  {
    assert Pow2(1) == 2;
    ShlMod(v, 1);
    ShiftValues(v);
  }

  lemma ZigzagNegative(v: int32)
    requires v < 0
    ensures ToUint32(Shl(v, 1)) == 2 * v + TWO_TO_32 && ToUint32(Sar(v, 31)) == 0xFFFF_FFFF
  {
    Pow2Values();
    ShlMod(v, 1);
    ShiftValues(v);
    DivModUnique(v * 2, TWO_TO_32, -1, v * 2 + TWO_TO_32);
  }

  /** `((value << 1) ^ (value >> 31)) >>> 0` is the zigzag map. */
  lemma ZigzagBits(v: int32)
    ensures ToUint32(Xor(Shl(v, 1), Sar(v, 31))) == Zigzag(v) < TWO_TO_32
  {
    var s := ToUint32(Shl(v, 1));
    if v >= 0 {
      ZigzagNonNegative(v);
      ToUint32OfToInt32(s);
    } else {
      ZigzagNegative(v);
      XorOnes32(s);
      ToUint32OfToInt32(TWO_TO_32 - 1 - s);
    }
  }

  class BinaryEncoder {
    var buffer: NumberArray

    constructor ()
      ensures fresh(buffer) && buffer.elems == []
    {
      buffer := new NumberArray();
    }

    function Length(): nat
      reads this, buffer
    {
      |buffer.elems|
    }

    /** Hands the buffer itself over, not a copy, and starts a new one. */
    method End() returns (result: NumberArray)
      modifies this
      ensures result == old(buffer)
      ensures fresh(buffer) && buffer.elems == []
    {
      result := buffer;
      buffer := new NumberArray();
    }

    method WriteSplitVarint64(lowBits: uint32, highBits: uint32)
      modifies buffer
      ensures buffer.elems == old(buffer.elems) + Varint(Join(lowBits, highBits))
    {
      hide Or, And, Shl, Shr, Join, Varint;
      var lo, hi := lowBits, highBits;
      while hi > 0 || lo > 127
        invariant buffer.elems + Varint(Join(lo, hi)) == old(buffer.elems) + Varint(Join(lowBits, highBits))
        decreases Join(lo, hi)
      {
        SplitStep(lo, hi);
        buffer.Push(Or(And(lo, 0x7f), 0x80));
        lo, hi := ToUint32(Or(Shr(lo, 7), Shl(hi, 25))), Shr(hi, 7);
      }
      LastByte(lo);
      buffer.Push(lo);
    }

    method WriteUnsignedVarint32(value: uint32)
      modifies buffer
      ensures buffer.elems == old(buffer.elems) + Varint(value)
    {
      hide Or, And, Shr, Varint;
      var v := value;
      while v > 127
        invariant buffer.elems + Varint(v) == old(buffer.elems) + Varint(value)
      {
        UnsignedStep(v);
        buffer.Push(Or(And(v, 0x7f), 0x80));
        v := Shr(v, 7);
      }
      LastByte(v);
      buffer.Push(v);
    }

    /** Negative numbers are sign-extended to 64 bits and take ten bytes. */
    method WriteSignedVarint32(value: int32)
      modifies buffer
      ensures buffer.elems == old(buffer.elems) + Varint(SignExtend(value))
    {
      hide Or, And, Sar, SignState, SignExtend, Varint;
      if value >= 0 {
        SignedNonNegative(value);
        WriteUnsignedVarint32(value);
        return;
      }
      var v: int := value;
      SignedStart(value);
      ghost var n := SignExtend(value);
      ghost var rest := Varint(n);
      for i := 0 to 9
        invariant SignState(v, n, i) && rest == Varint(n)
        invariant buffer.elems + rest == old(buffer.elems) + Varint(SignExtend(value))
      {
        SignedStep(v, n, i);
        buffer.Push(Or(And(v, 0x7f), 0x80));
        v, n, rest := Sar(v, 7), n / 128, rest[1..];
      }
      SignedEnd(v, n);
      buffer.Push(1);
    }

    method WriteZigzagVarint32(value: int32)
      modifies buffer
      ensures buffer.elems == old(buffer.elems) + Varint(Zigzag(value))
    {
      ZigzagBits(value);
      WriteUnsignedVarint32(ToUint32(Xor(Shl(value, 1), Sar(value, 31))));
    }

    method WriteUint32(value: uint32)
      modifies buffer
      ensures buffer.elems == old(buffer.elems) + Fixed32(value)
    {
      Pow2Values();
      ShiftValues(value);
      AndMask(Shr(value, 0), 0xFF, 8);
      AndMask(Shr(value, 8), 0xFF, 8);
      AndMask(Shr(value, 16), 0xFF, 8);
      AndMask(Shr(value, 24), 0xFF, 8);
      buffer.Push(And(Shr(value, 0), 0xFF));
      buffer.Push(And(Shr(value, 8), 0xFF));
      buffer.Push(And(Shr(value, 16), 0xFF));
      buffer.Push(And(Shr(value, 24), 0xFF));
    }

    /** `writeVarintHash64`, through the two global halves. */
    method WriteVarintHash64(hash: seq<byte>)
      requires |hash| == 8
      modifies buffer
      ensures buffer.elems == old(buffer.elems) + Varint(HashValue(hash))
    {
      hide Varint, HashValue;
      var split := new SplitRegisters();
      split.SplitHash64(hash);
      WriteSplitVarint64(split.split64Low, split.split64High);
    }

    /** `writeFixedHash64`: the bytes of the hash, as they are. */
    method WriteFixedHash64(hash: seq<byte>)
      requires |hash| == 8
      modifies buffer
      ensures buffer.elems == old(buffer.elems) + hash
    {
      hide HashValue, Fixed32;
      var split := new SplitRegisters();
      split.SplitHash64(hash);
      HashBytes(hash, split.split64Low, split.split64High);
      WriteUint32(split.split64Low);
      WriteUint32(split.split64High);
    }

    method WriteSplitFixed64(lowBits: uint32, highBits: uint32)
      modifies buffer
      ensures buffer.elems == old(buffer.elems) + Fixed32(lowBits) + Fixed32(highBits)
    {
      WriteUint32(lowBits);
      WriteUint32(highBits);
    }
  }

  ghost function SignTop(i: nat): int {
    if i == 0 then TWO_TO_64 else SignTop(i - 1) / 128
  }

  ghost function SignLow(i: nat): int {
    if i == 0 then -TWO_TO_31 else SignLow(i - 1) / 128
  }

  /** After `i` arithmetic shifts by seven of a negative 32-bit number, `v` is left of the number
      and `n` of its 64-bit sign extension. */
  ghost predicate SignState(v: int, n: nat, i: nat) {
    n == v + SignTop(i) && SignLow(i) <= v < 0
  }

  lemma SignTops(i: nat)
    requires i < 9
    ensures SignTop(i) % 128 == 0 && SignTop(i) + SignLow(i) >= 128 && -TWO_TO_31 <= SignLow(i)
  {
    assert SignTop(4) == 0x10_0000_0000 && SignLow(4) == -8;
    assert SignTop(8) == 0x100 && SignLow(8) == -1;
  }

  lemma SignedDivide(v: int, n: nat, i: nat)
    requires i < 9 && SignState(v, n, i)
    ensures SignState(v / 128, n / 128, i + 1)
    ensures n >= 128 && n % 128 == v % 128 && -TWO_TO_31 <= v
  {
    SignTops(i);
  }

  lemma SignedNonNegative(v: int32)
    requires v >= 0
    ensures SignExtend(v) == v
  {
  }

  lemma SignedStart(v: int32)
    requires v < 0
    ensures SignState(v, SignExtend(v), 0)
  {
  }

  lemma SignedEnd(v: int, n: nat)
    requires SignState(v, n, 9)
    ensures Varint(n) == [1]
  {
    assert SignTop(9) == 2 && SignLow(9) == -1;
  }

  lemma SarSeven(v: int32)
    ensures Sar(v, 7) == v / 128
  {
    ShiftValues(v);
  }

  lemma SignedStep(v: int, n: nat, i: nat)
    requires i < 9 && SignState(v, n, i)
    ensures SignState(Sar(v, 7), n / 128, i + 1) && v < 0
    ensures n >= 128 && Varint(n) == [Or(And(v, 0x7f), 0x80)] + Varint(n / 128)
  {
    SignedDivide(v, n, i);
    SarSeven(v);
    ContinuedSeptet(v);
    VarintStep(n);
  }

  lemma FixedWord(a: byte, b: byte, c: byte, d: byte)
    ensures 0 <= FourBytes(a, b, c, d) < TWO_TO_32 && Fixed32(FourBytes(a, b, c, d)) == [a, b, c, d]
  {
    var v := FourBytes(a, b, c, d);
    var top: int, mid: int := d, c + d * 0x100;
    DivModUnique(v, 0x100, b + mid * 0x100, a);
    DivModUnique(v, 0x1_0000, mid, a + b * 0x100);
    DivModUnique(v, 0x100_0000, top, a + b * 0x100 + c * 0x1_0000);
  }

  /** The little-endian bytes of the halves of a hash are the hash. */
  lemma HashBytes(hash: seq<byte>, lo: uint32, hi: uint32)
    requires |hash| == 8 && HashValue(hash) == Join(lo, hi)
    ensures Fixed32(lo) + Fixed32(hi) == hash
  {
    hide HashValue, Fixed32, FourBytes;
    HashHalves(hash);
    FixedWord(hash[0], hash[1], hash[2], hash[3]);
    FixedWord(hash[4], hash[5], hash[6], hash[7]);
    JoinInjective(lo, hi, FourBytes(hash[0], hash[1], hash[2], hash[3]), FourBytes(hash[4], hash[5], hash[6], hash[7]));
  }

  lemma JoinInjective(lo: uint32, hi: uint32, lo': uint32, hi': uint32)
    requires Join(lo, hi) == Join(lo', hi')
    ensures lo == lo' && hi == hi'
  {
  }
}
