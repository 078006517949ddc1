/** The two implementations of 64-bit arithmetic, and the two varint writers, side by side. */
module Agreement {
  import opened Js
  import opened Words
  import opened Varints
  import opened Decimal
  import opened Arith
  import opened Utils
  import opened UtilsDecimal
  import opened Encoder

  /** Both unsigned printers give the same text, and both parsers read it back, for all halves. */
  method UnsignedTextAgrees(lo: uint32, hi: uint32)
    returns (utils: string, arith: string, hash: seq<byte>, parsed: Option<UInt64>)
    ensures utils == arith
    ensures |hash| == 8 && HashValue(hash) == Join(lo, hi) && parsed == Some(UInt64(lo, hi))
  {
    hide Unsigned, HashValue, Number, ParseUnsigned, ParseSigned;
    utils := JoinUnsignedDecimalString(lo, hi);
    arith := UInt64ToString(UInt64(lo, hi));
    UnsignedDenotes(Join(lo, hi));
    UnsignedHasNoSign(utils);
    hash := DecimalStringToHash64(utils);
    parsed := UInt64FromString(utils);
    ParsePrintUnsigned(Join(lo, hi));
    JoinInjective(parsed.value.lo, parsed.value.hi, lo, hi);
  }

  lemma UnsignedHasNoSign(digits: string)
    requires AllDigits(digits)
    ensures Unsign(digits) == digits && ParseSigned(digits) == ParseUnsigned(digits)
  {
  }

  /** The same for the signed printers and parsers, on the two's complement. */
  method SignedTextAgrees(lo: uint32, hi: uint32)
    returns (utils: string, arith: string, hash: seq<byte>, parsed: Option<Int64>)
    ensures utils == arith
    ensures |hash| == 8 && HashValue(hash) == Join(lo, hi) && parsed == Some(Int64(lo, hi))
  {
    hide Unsigned, HashValue, Number, ParseSigned, Signed;
    utils := JoinSignedDecimalString(lo, hi);
    arith := Int64ToString(Int64(lo, hi));
    SignedDigits(Signed(Join(lo, hi)));
    hash := DecimalStringToHash64(utils);
    parsed := Int64FromString(utils);
    ParsePrintSigned(Join(lo, hi));
    JoinInjective(parsed.value.lo, parsed.value.hi, lo, hi);
  }

  lemma SignedDigits(v: int)
    ensures SignedText(v) != "" && AllDigits(Unsign(SignedText(v)))
  {
    hide Unsigned;
    var magnitude := if v < 0 then -v else v;
    UnsignedDenotes(magnitude);
    if v < 0 {
      assert SignedText(v)[1..] == Unsigned(magnitude);
    }
  }

  /** The two parsers agree on every digit string, signed or not, however long. */
  method ParsersAgree(dec: string) returns (hash: seq<byte>, parsed: Option<Int64>)
    requires dec != "" && AllDigits(Unsign(dec))
    ensures |hash| == 8 && parsed.Some? && HashValue(hash) == parsed.value.Val()
    ensures HashValue(hash) as int
            == (if dec[0] == '-' then 0 - Number(Unsign(dec)) else Number(Unsign(dec))) % TWO_TO_64
  {
    hide Number, HashValue;
    hash := DecimalStringToHash64(dec);
    parsed := Int64FromString(dec);
    if dec[0] == '-' {
      NegatedModulo(Number(Unsign(dec)));
    }
  }

  lemma NegatedModulo(n: nat)
    ensures (0 - n % TWO_TO_64) % TWO_TO_64 == (0 - n) % TWO_TO_64
  {
    ModAddMultiple(0 - n, n / TWO_TO_64, TWO_TO_64);
  }

  /** Splitting and joining are inverse on all signed 64-bit values, and so are the zigzag pair. */
  method SplitsJoinBack(v: int) returns (plain: int, zigzag: int)
    requires -TWO_TO_63 <= v < TWO_TO_63
    ensures plain == v && zigzag == v
  {
    var registers := new SplitRegisters();
    registers.SplitInt64(v);
    SplitJoinInt64(v);
    plain := JoinInt64(registers.split64Low, registers.split64High);
    registers.SplitZigzag64(v);
    UnzigzagZigzag(v);
    zigzag := JoinZigzag64(registers.split64Low, registers.split64High);
  }

  /** Joining and splitting are inverse on all pairs of halves. */
  method JoinsSplitBack(lo: uint32, hi: uint32) returns (plain: (uint32, uint32), zigzag: (uint32, uint32))
    ensures plain == zigzag == (lo, hi)
  {
    hide Unzigzag, Zigzag;
    var n := Join(lo, hi);
    var registers := new SplitRegisters();
    var v := JoinInt64(lo, hi);
    registers.SplitInt64(v);
    SignedModulo(n);
    JoinInjective(registers.split64Low, registers.split64High, lo, hi);
    plain := (registers.split64Low, registers.split64High);
    v := JoinZigzag64(lo, hi);
    registers.SplitZigzag64(v);
    JoinSplitZigzag64(n);
    JoinInjective(registers.split64Low, registers.split64High, lo, hi);
    zigzag := (registers.split64Low, registers.split64High);
  }

  lemma SignedModulo(n: nat)
    requires n < TWO_TO_64
    ensures Signed(n) % TWO_TO_64 == n
  {
  }

  /** A signed 32-bit varint is the 64-bit varint of the sign extension. */
  method SignedBytesAgree(v: int32) returns (short: seq<int>, long: seq<int>)
    ensures short == long == Varint(SignExtend(v))
  {
    hide Varint, SignExtend;
    var encoder := new BinaryEncoder();
    encoder.WriteSignedVarint32(v);
    var buffer := encoder.End();
    short := buffer.elems;
    JoinHalves(SignExtend(v));
    encoder.WriteSplitVarint64(Low(SignExtend(v)), High(SignExtend(v)));
    buffer := encoder.End();
    long := buffer.elems;
  }
}
