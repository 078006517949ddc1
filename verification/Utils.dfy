/** `jspb.utils`: splitting and joining 64-bit values, and the fast decimal conversions. */
module Utils {
  import opened Js
  import opened Words
  import opened Arith

  // ----- splitting numbers into halves -----

  lemma NotHalf(x: uint32)
    ensures ToUint32(Not(x)) == 0xFFFF_FFFF - x
  {
    ToUint32Congruent(Not(x), 0xFFFF_FFFF - x, if x < TWO_TO_31 then -1 else 0);
  }

  lemma SplitHalves(v: nat)
    ensures Join(ToUint32(v), ToUint32((v - ToUint32(v)) / TWO_TO_32)) == v % TWO_TO_64
  {
    var q := v / TWO_TO_32;
    assert (v - ToUint32(v)) / TWO_TO_32 == q;
    DivModUnique(v, TWO_TO_64, q / TWO_TO_32, Join(ToUint32(v), q % TWO_TO_32));
  }

  /** Inverting both halves and adding one negates modulo 2^64. */
  lemma NegatedHalves(lo: uint32, hi: uint32, m: nat)
    requires Join(lo, hi) == m % TWO_TO_64
    ensures lo > 0 ==> Join(TWO_TO_32 - lo, 0xFFFF_FFFF - hi) == (0 - m) % TWO_TO_64
    ensures lo == 0 && hi > 0 ==> Join(0, TWO_TO_32 - hi) == (0 - m) % TWO_TO_64
    ensures lo == 0 && hi == 0 ==> (0 - m) % TWO_TO_64 == 0
  {
    var r := Join(lo, hi);
    var q := m / TWO_TO_64;
    if r == 0 {
      DivModUnique(0 - m, TWO_TO_64, -q, 0);
    } else {
      DivModUnique(0 - m, TWO_TO_64, -q - 1, TWO_TO_64 - r);
    }
  }

  /** The module's two global temporaries, `split64Low` and `split64High`. */
  class SplitRegisters {
    var split64Low: uint32
    var split64High: uint32

    constructor ()
      ensures split64Low == 0 && split64High == 0
    {
      split64Low, split64High := 0, 0;
    }

    function Val(): nat
      reads this
    {
      Join(split64Low, split64High)
    }

    method SplitUint64(value: nat)
      modifies this
      ensures Val() == value % TWO_TO_64
    {
      var lowBits := ToUint32(value);
      var highBits := ToUint32((value - lowBits) / TWO_TO_32);
      SplitHalves(value);
      split64Low, split64High := lowBits, highBits;
    }

    /** Two's complement of every integer, truncated to 64 bits. */
    method SplitInt64(value: int)
      modifies this
      ensures Val() == value % TWO_TO_64
    {
      hide ToUint32, Not, Join;
      var sign := value < 0;
      var magnitude: nat := if sign then -value else value;
      var lowBits: int := ToUint32(magnitude);
      var highBits: int := ToUint32((magnitude - lowBits) / TWO_TO_32);
      SplitHalves(magnitude);
      if sign {
        NegatedHalves(lowBits, highBits, magnitude);
        NotHalf(highBits);
        NotHalf(lowBits);
        highBits := ToUint32(Not(highBits));
        lowBits := ToUint32(Not(lowBits));
        lowBits := lowBits + 1;
        if lowBits > 0xFFFFFFFF {
          lowBits := 0;
          highBits := highBits + 1;
          if highBits > 0xFFFFFFFF {
            highBits := 0;
            JoinOfZeros();
          }
        }
      }
      split64Low, split64High := lowBits, highBits;
    }

    /** The zigzag number of every integer, truncated to 64 bits; -2^63 borrows from a magnitude that
        has wrapped to zero. */
    method SplitZigzag64(value: int)
      modifies this
      ensures Val() == Zigzag(value) % TWO_TO_64
    {
      var sign := value < 0;
      var doubled: nat := (if sign then -value else value) * 2;
      SplitUint64(doubled);
      var lowBits: int, highBits: int := split64Low, split64High;
      if sign {
        if lowBits == 0 {
          if highBits == 0 {
            lowBits := 0xFFFFFFFF;
            highBits := 0xFFFFFFFF;
          } else {
            highBits := highBits - 1;
            lowBits := 0xFFFFFFFF;
          }
        } else {
          lowBits := lowBits - 1;
        }
      }
      split64Low, split64High := lowBits, highBits;
    }

    /** `splitHash64`: eight 8-bit characters, least significant first. */
    method SplitHash64(hash: seq<byte>)
      requires |hash| == 8
      modifies this
      ensures Val() == HashValue(hash)
    {
      hide Shl;
      ByteShifts(hash[0], hash[1], hash[2], hash[3]);
      ByteShifts(hash[4], hash[5], hash[6], hash[7]);
      split64Low := ToUint32(hash[0] + Shl(hash[1], 8) + Shl(hash[2], 16) + Shl(hash[3], 24));
      split64High := ToUint32(hash[4] + Shl(hash[5], 8) + Shl(hash[6], 16) + Shl(hash[7], 24));
      HashHalves(hash);
    }
  }

  lemma JoinOfZeros()
    ensures Join(0, 0) == 0
  {
  }

  /** The 64-bit number of a hash string. */
  function HashValue(hash: seq<byte>): nat {
    if hash == [] then 0 else hash[0] + 256 * HashValue(hash[1..])
  }

  /** A 32-bit word from its bytes, least significant first. */
  function FourBytes(a: int, b: int, c: int, d: int): int {
    a + b * 0x100 + c * 0x1_0000 + d * 0x100_0000
  }

  lemma HashUnroll(h: seq<byte>)
    requires |h| == 4
    ensures HashValue(h) == FourBytes(h[0], h[1], h[2], h[3])
  {
    assert h[1..][1..] == h[2..];
    assert h[2..][1..] == h[3..];
    assert h[3..][1..] == [];
    var top: int, next: int := h[3], h[2];
    assert HashValue(h[3..]) == top;
    assert HashValue(h[2..]) == next + 256 * top;
  }

  lemma {:induction false} HashConcat(a: seq<byte>, b: seq<byte>)
    ensures HashValue(a + b) == HashValue(a) + Pow2(8 * |a|) * HashValue(b)
  {
    if a == [] {
      assert a + b == b;
    } else {
      assert (a + b)[1..] == a[1..] + b;
      HashConcat(a[1..], b);
      Pow2Values();
      Pow2Add(8, 8 * |a[1..]|);
      MulAssoc(256, Pow2(8 * |a[1..]|), HashValue(b));
    }
  }

  lemma HashHalves(h: seq<byte>)
    requires |h| == 8
    ensures HashValue(h) == Join(FourBytes(h[0], h[1], h[2], h[3]), FourBytes(h[4], h[5], h[6], h[7]))
  {
    assert h == h[..4] + h[4..];
    HashConcat(h[..4], h[4..]);
    HashUnroll(h[..4]);
    HashUnroll(h[4..]);
    Pow2Values();
  }

  lemma ByteShifts(a: byte, b: byte, c: byte, d: byte)
    ensures ToUint32(a + Shl(b, 8) + Shl(c, 16) + Shl(d, 24)) == FourBytes(a, b, c, d)
  {
    Pow2Values();
    var k := if d * 0x100_0000 < TWO_TO_31 then 0 else -1;
    assert Shl(b, 8) == b * 0x100 && Shl(c, 16) == c * 0x1_0000;
    assert Shl(d, 24) == d * 0x100_0000 + k * TWO_TO_32;
    ToUint32Congruent(a + Shl(b, 8) + Shl(c, 16) + Shl(d, 24), FourBytes(a, b, c, d), k);
  }

  // ----- joining halves -----

  function JoinUint64(bitsLow: uint32, bitsHigh: uint32): int {
    bitsHigh * TWO_TO_32 + bitsLow
  }

  /** `joinInt64` reads two's complement. */
  method JoinInt64(bitsLow: uint32, bitsHigh: uint32) returns (r: int)
    ensures r == Signed(Join(bitsLow, bitsHigh))
  {
    hide And, Not;
    var lo: int, hi: int := bitsLow, bitsHigh;
    TopBit(hi);
    var sign := And(hi, 0x8000_0000);
    if sign != 0 {
      NotPlusOne(lo);
      NotHalf(hi);
      lo := ToUint32(Not(lo) as int + 1);
      hi := ToUint32(Not(hi));
      if lo == 0 {
        hi := ToUint32(hi + 1);
      }
    }
    var result := JoinUint64(lo, hi);
    r := if sign != 0 then -result else result;
  }

  lemma NotPlusOne(x: uint32)
    ensures ToUint32(Not(x) as int + 1) == if x == 0 then 0 else TWO_TO_32 - x
  {
    ToUint32Congruent(Not(x) as int + 1, TWO_TO_32 - x, if x < TWO_TO_31 then -1 else 0);
  }

  /** `joinZigzag64` reads the zigzag map. */
  method JoinZigzag64(bitsLow: uint32, bitsHigh: uint32) returns (r: int)
    ensures r == Unzigzag(Join(bitsLow, bitsHigh))
  {
    hide And, Or, Shl, Shr;
    ZigzagHalves(bitsLow, bitsHigh);
    var sign := And(bitsLow, 1);
    var lo: int := ToUint32(Or(Shr(bitsLow, 1), Shl(bitsHigh, 31)));
    var hi: int := Shr(bitsHigh, 1);
    if sign != 0 {
      lo := ToUint32(lo + 1);
      if lo == 0 {
        hi := ToUint32(hi + 1);
      }
    }
    var result := JoinUint64(lo, hi);
    r := if sign != 0 then -result else result;
  }

  lemma HighBitDown(lo: uint32, hi: uint32)
    ensures ToUint32(Or(Shr(lo, 1), Shl(hi, 31))) == lo / 2 + hi % 2 * TWO_TO_31
  {
    Pow2Values();
    ShiftValues(lo);
    var high: int := Shl(hi, 31);
    ShlMod(hi, 31);
    DivModUnique(hi * TWO_TO_31, TWO_TO_32, hi / 2, hi % 2 * TWO_TO_31);
    OrSum(Shr(lo, 1), high, 31);
  }

  lemma ZigzagHalves(lo: uint32, hi: uint32)
    ensures And(lo, 1) == Join(lo, hi) % 2
    ensures ToUint32(Or(Shr(lo, 1), Shl(hi, 31))) == lo / 2 + hi % 2 * TWO_TO_31
    ensures Shr(hi, 1) == hi / 2
    ensures Join(lo / 2 + hi % 2 * TWO_TO_31, hi / 2) == Join(lo, hi) / 2
  {
    hide Or, Shl;
    HighBitDown(lo, hi);
    assert Pow2(1) == 2;
    AndMask(lo, 1, 1);
    ShiftValues(hi);
  }

  /** `joinHash64` */
  method JoinHash64(bitsLow: uint32, bitsHigh: uint32) returns (hash: seq<byte>)
    ensures |hash| == 8 && HashValue(hash) == Join(bitsLow, bitsHigh)
  {
    hide And, Shr;
    WordBytes(bitsLow);
    WordBytes(bitsHigh);
    WordOfBytes(bitsLow);
    WordOfBytes(bitsHigh);
    hash := [And(Shr(bitsLow, 0), 0xFF), And(Shr(bitsLow, 8), 0xFF), And(Shr(bitsLow, 16), 0xFF),
             And(Shr(bitsLow, 24), 0xFF), And(Shr(bitsHigh, 0), 0xFF), And(Shr(bitsHigh, 8), 0xFF),
             And(Shr(bitsHigh, 16), 0xFF), And(Shr(bitsHigh, 24), 0xFF)];
    HashHalves(hash);
  }

  lemma LowByte(x: uint32)
    ensures And(x, 0xFF) == x % 256
  {
    Pow2Values();
    AndMask(x, 0xFF, 8);
  }

  lemma WordBytes(x: uint32)
    ensures And(Shr(x, 0), 0xFF) == x % 256 && And(Shr(x, 8), 0xFF) == x / 0x100 % 256
    ensures And(Shr(x, 16), 0xFF) == x / 0x1_0000 % 256 && And(Shr(x, 24), 0xFF) == x / 0x100_0000 % 256
  {
    hide And, Pow2;
    ShiftValues(x);
    LowByte(Shr(x, 0));
    LowByte(Shr(x, 8));
    LowByte(Shr(x, 16));
    LowByte(Shr(x, 24));
  }

  lemma WordOfBytes(x: uint32)
    ensures x == FourBytes(x % 256, x / 0x100 % 256, x / 0x1_0000 % 256, x / 0x100_0000 % 256)
  {
    var y := x / 0x100;
    var z := y / 0x100;
    assert x / 0x1_0000 == z && x / 0x100_0000 == z / 0x100;
    assert x == x % 256 + y * 256 && y == y % 256 + z * 256 && z == z % 256 + z / 256 * 256;
  }

  /** A hash string is determined by its number, so splitting and joining are inverse both ways. */
  lemma {:induction false} HashUnique(a: seq<byte>, b: seq<byte>)
    requires |a| == |b| && HashValue(a) == HashValue(b)
    ensures a == b
  {
    if a != [] {
      HashUnique(a[1..], b[1..]);
      assert a == [a[0]] + a[1..] && b == [b[0]] + b[1..];
    }
  }

  /** Joining undoes splitting on all signed 64-bit integers, -2^63 included. */
  lemma SplitJoinInt64(v: int)
    requires -TWO_TO_63 <= v < TWO_TO_63
    ensures Signed(v % TWO_TO_64) == v
  {
  }

  /** Splitting undoes joining on all pairs of halves: the zigzag map is onto. */
  lemma JoinSplitZigzag64(n: nat)
    requires n < TWO_TO_64
    ensures -TWO_TO_63 <= Unzigzag(n) < TWO_TO_63 && Zigzag(Unzigzag(n)) == n
  {
  }
}
