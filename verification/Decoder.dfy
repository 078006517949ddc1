/** `jspb.BinaryDecoder`: the byte-level readers over one block of bytes. */
module Decoder {
  import opened Js
  import opened Words
  import opened Varints
  import opened Utils

  /** The assertion failures that make a read throw. */
  datatype Error =
    | PastEnd               // cursor_ <= end_ violated
    | InvalidVarint         // no terminator within ten bytes
    | BadHighBits           // bits above 32 set in a five-byte varint
    | BadSignExtension      // ten-byte varint that is not a sign-extended negative
    | InvalidByteLength
    | DecoderError          // nextField() after an error
    | InvalidWireType
    | WrongWireType
    | UnmatchedStartGroup
    | UnmatchedEndGroup
    | MissingEndGroup
    | MissingMapEntry       // a map entry without key or value
    | NoProgress            // a skip moved the cursor back to where the field began, or further

  datatype Result<+T> = Ok(value: T) | Err(error: Error)
  {
    predicate IsFailure() { Err? }

    function PropagateFailure<U>(): Result<U>
      requires Err?
    {
      Err(error)
    }

    function Extract(): T
      requires Ok?
    {
      value
    }
  }

  /** What indexing a `Uint8Array` yields: outside its bounds, `undefined`. */
  datatype JsByte = Undefined | Byte(b: byte)
  {
    /** The operand that `&`, `|` and `<<` see. */
    function Bits(): byte {
      if Undefined? then 0 else b
    }

    /** `x < k`; comparisons with `undefined` are false. */
    predicate Below(k: nat) {
      Byte? && b < k
    }
  }

  function At(bytes: seq<byte>, i: int): JsByte {
    if 0 <= i < |bytes| then Byte(bytes[i]) else Undefined
  }

  /** The bits of `k` array elements from `i` on. */
  function Slice(bytes: seq<byte>, i: int, k: nat): (s: seq<byte>)
    ensures |s| == k
    decreases k
  {
    if k == 0 then [] else [At(bytes, i).Bits()] + Slice(bytes, i + 1, k - 1)
  }

  lemma {:induction false} SliceInside(bytes: seq<byte>, i: int, k: nat)
    requires 0 <= i && i + k <= |bytes|
    ensures Slice(bytes, i, k) == bytes[i..i + k]
    decreases k
  {
    if k > 0 {
      SliceInside(bytes, i + 1, k - 1);
      assert bytes[i..i + k] == [bytes[i]] + bytes[i + 1..i + k];
    }
  }

  lemma {:induction false} SliceAppend(bytes: seq<byte>, i: int, k: nat)
    ensures Slice(bytes, i, k + 1) == Slice(bytes, i, k) + [At(bytes, i + k).Bits()]
    decreases k
  {
    if k > 0 {
      SliceAppend(bytes, i + 1, k - 1);
    }
  }

  /** How many bytes the varint at `i` takes, if its last byte comes within `limit`; else 0. */
  function Span(bytes: seq<byte>, i: int, limit: nat): (k: nat)
    ensures k <= limit
    decreases limit
  {
    if limit == 0 then 0
    else if At(bytes, i).Below(128) then 1
    else var k := Span(bytes, i + 1, limit - 1); if k == 0 then 0 else k + 1
  }

  /** The first `k` bytes all have the high bit set, or lie outside the array. */
  ghost predicate Continued(bytes: seq<byte>, i: int, k: nat) {
    forall j :: i <= j < i + k ==> !At(bytes, j).Below(128)
  }

  lemma {:induction false} SpanFound(bytes: seq<byte>, i: int, k: nat, limit: nat)
    requires Continued(bytes, i, k) && At(bytes, i + k).Below(128) && k < limit
    ensures Span(bytes, i, limit) == k + 1
    decreases k
  {
    if k > 0 {
      assert !At(bytes, i).Below(128);
      SpanFound(bytes, i + 1, k - 1, limit - 1);
    }
  }

  lemma {:induction false} SpanMissing(bytes: seq<byte>, i: int, limit: nat)
    requires Continued(bytes, i, limit)
    ensures Span(bytes, i, limit) == 0
    decreases limit
  {
    if limit > 0 {
      assert !At(bytes, i).Below(128);
      SpanMissing(bytes, i + 1, limit - 1);
    }
  }

  /** A terminated varint anywhere in the buffer is found whole, whatever follows it. */
  lemma {:induction false} SpanTerminated(bytes: seq<byte>, i: nat, s: seq<byte>, limit: nat)
    requires Terminated(s) && i + |s| <= |bytes| && bytes[i..i + |s|] == s && |s| <= limit
    ensures Span(bytes, i, limit) == |s| && Slice(bytes, i, |s|) == s
  {
    var k := |s| - 1;
    forall j | i <= j < i + k
      ensures !At(bytes, j).Below(128)
    {
      assert bytes[j] == s[j - i];
    }
    assert bytes[i + k] == s[k];
    SpanFound(bytes, i, k, limit);
    SliceInside(bytes, i, |s|);
  }

  // ----- the specification of the two varint readers -----

  /** `readSplitVarint64_`: the base-128 value modulo 2^64 of a varint of at most ten bytes, and the
      cursor behind it. */
  function SplitVarint64(bytes: seq<byte>, cursor: int): Result<(nat, int)> {
    var k := Span(bytes, cursor, 10);
    if k == 0 then Err(InvalidVarint)
    else Ok((Value(Slice(bytes, cursor, k)) % TWO_TO_64, cursor + k))
  }

  /** `readUnsignedVarint32`, which is also `readSignedVarint32`. */
  function Varint32(bytes: seq<byte>, cursor: int, end: int): Result<(int, int)> {
    var k := Span(bytes, cursor, 5);
    if k == 0 then
      if At(bytes, cursor + 4).Bits() / 16 != 15
         || At(bytes, cursor + 5) != Byte(0xFF) || At(bytes, cursor + 6) != Byte(0xFF)
         || At(bytes, cursor + 7) != Byte(0xFF) || At(bytes, cursor + 8) != Byte(0xFF)
         || At(bytes, cursor + 9) != Byte(0x01) then Err(BadSignExtension)
      else if cursor + 10 > end then Err(PastEnd)
      else Ok((ToInt32(Value(Slice(bytes, cursor, 5))), cursor + 10))
    else if k == 5 && At(bytes, cursor + 4).Bits() >= 16 then Err(BadHighBits)
    else if cursor + k > end then Err(PastEnd)
    else Ok((Value(Slice(bytes, cursor, k)), cursor + k))
  }

  lemma {:induction false} SpanInside(bytes: seq<byte>, i: int, limit: nat)
    ensures Span(bytes, i, limit) > 0 ==> i + Span(bytes, i, limit) <= |bytes|
    decreases limit
  {
    if limit > 0 && !At(bytes, i).Below(128) {
      SpanInside(bytes, i + 1, limit - 1);
    }
  }

  /** A varint that is read lies inside the array and the block, and takes at least one byte. */
  lemma Varint32Progress(bytes: seq<byte>, cursor: int, end: int)
    requires Varint32(bytes, cursor, end).Ok?
    ensures cursor < Varint32(bytes, cursor, end).value.1 <= end
    ensures Varint32(bytes, cursor, end).value.1 <= |bytes|
  {
    hide Value, Slice, ToInt32;
    SpanInside(bytes, cursor, 5);
  }

  /** `readUint32` and the halves of the 64-bit fixed-width readers. */
  function Word32(bytes: seq<byte>, cursor: int): uint32 {
    FourBytes(At(bytes, cursor).Bits(), At(bytes, cursor + 1).Bits(),
              At(bytes, cursor + 2).Bits(), At(bytes, cursor + 3).Bits())
  }

  /** Where `skipVarint` stops. */
  function SkipVarint(bytes: seq<byte>, cursor: int): (next: int)
    ensures next > cursor
    decreases |bytes| - cursor
  {
    if At(bytes, cursor).Bits() >= 128 then SkipVarint(bytes, cursor + 1) else cursor + 1
  }

  /** How far `unskipVarint` moves back for `value`: its loop stops at 128, where the encoder's goes on. */
  function UnskipLength(value: int): (k: nat)
    decreases value
  {
    if value > 128 then 1 + UnskipLength(ToUint32(value) / 128) else 1
  }

  // ----- bit arithmetic of the readers -----

  lemma SliceValueStep(bytes: seq<byte>, cursor: int, i: nat)
    ensures Value(Slice(bytes, cursor, i + 1))
            == Value(Slice(bytes, cursor, i)) + Pow2(7 * i) * (At(bytes, cursor + i).Bits() % 128)
    ensures Value(Slice(bytes, cursor, i)) < Pow2(7 * i)
  {
    SliceAppend(bytes, cursor, i);
    ValueAppend(Slice(bytes, cursor, i), At(bytes, cursor + i).Bits());
    ValueBound(Slice(bytes, cursor, i));
  }

  /** Appending seven bits below bit 32. */
  lemma OrSeptet(x: nat, b: byte, k: nat)
    requires k <= 32 && x < Pow2(k)
    ensures ToUint32(Or(x, Shl(And(b, 0x7F), k))) == x + b % 128 * Pow2(k) % TWO_TO_32
  {
    hide Shl, Or, And;
    assert Pow2(7) == 128;
    AndMask(b, 0x7F, 7);
    ShlMod(b % 128, k);
    OrSum(x, Shl(b % 128, k), k);
  }

  lemma SeptetFits(x: nat, b: byte, k: nat)
    requires k <= 24 && x < Pow2(k)
    ensures 0 <= b % 128 * Pow2(k) && x + b % 128 * Pow2(k) < Pow2(k + 7) <= TWO_TO_31
  {
    var p := Pow2(k);
    Pow2Add(7, k);
    Pow2Monotone(k + 7, 31);
    Pow2Values();
    MulMonotone(p, b % 128, 127);
    MulNonNegative(b % 128, p);
  }

  /** One turn of the first loop of `readSplitVarint64_`, for shifts that stay below bit 31. */
  lemma OrSmall(x: nat, b: byte, k: nat)
    requires k <= 24 && x < Pow2(k)
    ensures Or(x, Shl(And(b, 0x7F), k)) == x + b % 128 * Pow2(k) < Pow2(k + 7)
  {
    hide Shl, And, Pow2;
    OrSeptet(x, b, k);
    SeptetFits(x, b, k);
    var r: int := Or(x, Shl(And(b, 0x7F), k));
    ToUint32OfSmall(r);
  }

  lemma ToUint32OfSmall(r: int32)
    requires ToUint32(r) < TWO_TO_31
    ensures r == ToUint32(r)
  {
  }

  /** Between the turns of `readSplitVarint64_`: `i` continued bytes read, their septets in the halves. */
  ghost predicate SplitState(bytes: seq<byte>, start: int, i: nat, low: nat, high: nat) {
    && Continued(bytes, start, i)
    && low < TWO_TO_32 && high < TWO_TO_32
    && low + high * TWO_TO_32 == Value(Slice(bytes, start, i))
    && (i <= 4 ==> low < Pow2(7 * i) && high == 0)
    && (i >= 5 ==> high < Pow2(7 * i - 32))
  }

  lemma SplitStart(bytes: seq<byte>, start: int)
    ensures SplitState(bytes, start, 0, 0, 0)
  {
  }

  lemma ContinuedMore(bytes: seq<byte>, start: int, i: nat)
    requires Continued(bytes, start, i) && !At(bytes, start + i).Below(128)
    ensures Continued(bytes, start, i + 1)
  {
  }

  /** The first four bytes go into the low half. */
  lemma SplitLowStep(bytes: seq<byte>, start: int, i: nat, low: nat)
    requires i < 4 && SplitState(bytes, start, i, low, 0)
    ensures 0 <= Or(low, Shl(And(At(bytes, start + i).Bits(), 0x7F), i * 7)) < TWO_TO_31
    ensures Or(low, Shl(And(At(bytes, start + i).Bits(), 0x7F), i * 7)) as int == Value(Slice(bytes, start, i + 1))
    ensures !At(bytes, start + i).Below(128) ==>
              SplitState(bytes, start, i + 1, Or(low, Shl(And(At(bytes, start + i).Bits(), 0x7F), i * 7)), 0)
  {
    hide Or, And, Shl, Pow2;
    OrSmall(low, At(bytes, start + i).Bits(), 7 * i);
    SliceValueStep(bytes, start, i);
    Pow2Small(i);
    if !At(bytes, start + i).Below(128) {
      ContinuedMore(bytes, start, i);
    }
  }

  lemma Pow2Small(i: nat)
    requires i < 4
    ensures Pow2(7 * i + 7) <= Pow2(28) < TWO_TO_31 && 7 * (i + 1) == 7 * i + 7
  {
    Pow2Monotone(7 * i + 7, 28);
    Pow2Values();
  }

  /** The fifth byte straddles the halves. */
  lemma FifthByte(b: byte, low: nat)
    requires low < Pow2(28)
    ensures ToUint32(Or(low, Shl(And(b, 0x7F), 28))) == low + b % 16 * 0x1000_0000
    ensures Or(0, Sar(And(b, 0x7F), 4)) == b % 128 / 16
  {
    hide Or, And, Shl, Pow2;
    Pow2Values();
    OrSeptet(low, b, 28);
    var q, r := b % 128 / 16, b % 16;
    assert b % 128 == q * 16 + r;
    DivModUnique(b % 128 * 0x1000_0000, TWO_TO_32, q, r * 0x1000_0000);
    AndMask(b, 0x7F, 7);
    HalvedDivides(b % 128, 4);
    OrZero(q);
  }

  lemma OrZero(x: nat)
    requires x < TWO_TO_31
    ensures Or(0, x) == x
  {
  }

  lemma SplitFifthStep(bytes: seq<byte>, start: int, low: nat)
    requires SplitState(bytes, start, 4, low, 0)
    ensures var b := At(bytes, start + 4).Bits();
      && ToUint32(Or(low, Shl(And(b, 0x7F), 28))) + Or(0, Sar(And(b, 0x7F), 4)) * TWO_TO_32
         == Value(Slice(bytes, start, 5)) as int
      && 0 <= Or(0, Sar(And(b, 0x7F), 4))
      && (!At(bytes, start + 4).Below(128) ==>
            SplitState(bytes, start, 5, ToUint32(Or(low, Shl(And(b, 0x7F), 28))), Or(0, Sar(And(b, 0x7F), 4))))
  {
    hide Or, And, Shl, Sar, Pow2;
    var b := At(bytes, start + 4).Bits();
    FifthByte(b, low);
    SliceValueStep(bytes, start, 4);
    Pow2Values();
    SplitDigit(low, b);
    if !At(bytes, start + 4).Below(128) {
      ContinuedMore(bytes, start, 4);
    }
  }

  lemma SplitDigit(low: int, b: byte)
    ensures low + b % 16 * 0x1000_0000 + b % 128 / 16 * TWO_TO_32 == low + 0x1000_0000 * (b % 128)
    ensures b % 128 / 16 < 8
  {
  }

  lemma Pow2Above32(i: nat)
    requires 5 <= i
    ensures Pow2(7 * i) == TWO_TO_32 * Pow2(7 * i - 32)
  {
    Pow2Add(32, 7 * i - 32);
    Pow2Values();
  }

  lemma HighValue(low: nat, high: nat, y: nat, v: nat)
    requires low < TWO_TO_32 && v == low + (high + y) * TWO_TO_32
    requires high + y % TWO_TO_32 < TWO_TO_32
    ensures low + (high + y % TWO_TO_32) * TWO_TO_32 == v % TWO_TO_64
  {
    assert v == low + (high + y % TWO_TO_32) * TWO_TO_32 + y / TWO_TO_32 * TWO_TO_64;
    DivModUnique(v, TWO_TO_64, y / TWO_TO_32, low + (high + y % TWO_TO_32) * TWO_TO_32);
  }

  /** The sixth to the tenth byte go into the high half; the tenth loses all but one bit. */
  lemma SplitHighStep(bytes: seq<byte>, start: int, i: nat, low: nat, high: nat)
    requires 5 <= i < 10 && SplitState(bytes, start, i, low, high)
    ensures var b := At(bytes, start + i).Bits();
      && low + ToUint32(Or(high, Shl(And(b, 0x7F), 7 * i - 32))) * TWO_TO_32
         == Value(Slice(bytes, start, i + 1)) % TWO_TO_64
      && (i < 9 ==> ToUint32(Or(high, Shl(And(b, 0x7F), 7 * i - 32))) as int == high + b % 128 * Pow2(7 * i - 32)
                    < Pow2(7 * i - 25) <= TWO_TO_31)
  {
    hide Or, And, Shl, Pow2;
    var b := At(bytes, start + i).Bits();
    var k := 7 * i - 32;
    Pow2Monotone(k, 31);
    OrSeptet(high, b, k);
    SliceValueStep(bytes, start, i);
    Pow2Above32(i);
    MulNonNegative(b % 128, Pow2(k));
    var y := b % 128 * Pow2(k);
    MulAssoc(TWO_TO_32, Pow2(k), b % 128);
    HighValue(low, high, y, Value(Slice(bytes, start, i + 1)));
    if i < 9 {
      SeptetFits(high, b, k);
    }
  }

  lemma SplitHighState(bytes: seq<byte>, start: int, i: nat, low: nat, high: nat, next: nat)
    requires 5 <= i < 9 && SplitState(bytes, start, i, low, high) && !At(bytes, start + i).Below(128)
    requires next == high + At(bytes, start + i).Bits() % 128 * Pow2(7 * i - 32) < Pow2(7 * i - 25) <= TWO_TO_31
    ensures SplitState(bytes, start, i + 1, low, next)
  {
    hide Pow2;
    ContinuedMore(bytes, start, i);
    SliceValueStep(bytes, start, i);
    Pow2Above32(i);
    MulAssoc(TWO_TO_32, Pow2(7 * i - 32), At(bytes, start + i).Bits() % 128);
  }

  /** At the last byte, halves that hold the value are the result. */
  lemma SplitFound(bytes: seq<byte>, start: int, i: nat, low: uint32, high: uint32)
    requires i < 10 && Continued(bytes, start, i) && At(bytes, start + i).Below(128)
    requires low + high * TWO_TO_32 == Value(Slice(bytes, start, i + 1)) % TWO_TO_64
    ensures SplitVarint64(bytes, start) == Ok((Join(low, high), start + i + 1))
  {
    SpanFound(bytes, start, i, 10);
  }

  lemma SplitMissing(bytes: seq<byte>, start: int)
    requires Continued(bytes, start, 10)
    ensures SplitVarint64(bytes, start) == Err(InvalidVarint)
  {
    SpanMissing(bytes, start, 10);
  }

  class BinaryDecoder {
    const bytes: seq<byte>
    var start: int
    var end: int
    var cursor: int
    var tempLow: uint32
    var tempHigh: uint32
    var error: bool

    /** `setBlock` with an explicit block. */
    constructor (data: seq<byte>, from: nat, length: nat)
      ensures bytes == data && start == from && end == from + length && cursor == from && !error
    {
      bytes := data;
      start, end, cursor := from, from + length, from;
      tempLow, tempHigh, error := 0, 0, false;
    }

    predicate AtEnd()
      reads this
    {
      cursor == end
    }

    predicate GetError()
      reads this
    {
      error || cursor < 0 || cursor > end
    }

    method Advance(count: int) returns (r: Result<()>)
      modifies this`cursor
      ensures cursor == old(cursor) + count
      ensures r == if cursor <= end then Ok(()) else Err(PastEnd)
    {
      cursor := cursor + count;
      r := if cursor <= end then Ok(()) else Err(PastEnd);
    }

    /** Does not check the end of the block, as the original does not. */
    method ReadSplitVarint64() returns (r: Result<()>)
      modifies this`cursor, this`tempLow, this`tempHigh, this`error
      ensures match SplitVarint64(bytes, old(cursor))
              case Ok(read) => r == Ok(()) && Join(tempLow, tempHigh) == read.0 && cursor == read.1
                               && error == old(error)
              case Err(e) => r == Err(e)
    {
      hide Or, And, Shl, Sar, Pow2, Value, Slice, SplitState, Continued, SplitVarint64, ToUint32;
      ghost var from := cursor;
      var lowBits: int, highBits: int := 0, 0;
      SplitStart(bytes, from);
      for i := 0 to 4
        invariant cursor == from + i && error == old(error)
        invariant lowBits >= 0 && SplitState(bytes, from, i, lowBits, 0)
      {
        var temp := At(bytes, cursor);
        cursor := cursor + 1;
        SplitLowStep(bytes, from, i, lowBits);
        SplitContinued(bytes, from, i, lowBits, 0);
        lowBits := Or(lowBits, Shl(And(temp.Bits(), 0x7F), i * 7));
        if temp.Below(128) {
          SmallRead(bytes, from, i + 1, lowBits);
          tempLow, tempHigh := ToUint32(lowBits), 0;
          SplitFound(bytes, from, i, tempLow, tempHigh);
          return Ok(());
        }
      }
      var temp := At(bytes, cursor);
      cursor := cursor + 1;
      SplitFifthStep(bytes, from, lowBits);
      SplitContinued(bytes, from, 4, lowBits, 0);
      lowBits := Or(lowBits, Shl(And(temp.Bits(), 0x7F), 28));
      highBits := Or(highBits, Sar(And(temp.Bits(), 0x7F), 4));
      if temp.Below(128) {
        tempLow, tempHigh := ToUint32(lowBits), ToUint32(highBits);
        FifthRead(bytes, from, tempLow, highBits);
        SplitFound(bytes, from, 4, tempLow, tempHigh);
        return Ok(());
      }
      ghost var low := ToUint32(lowBits);
      for i := 0 to 5
        invariant cursor == from + 5 + i && error == old(error)
        invariant low == ToUint32(lowBits)
        invariant i < 5 ==> highBits >= 0 && SplitState(bytes, from, i + 5, low, highBits)
        invariant i == 5 ==> Continued(bytes, from, 10)
      {
        temp := At(bytes, cursor);
        cursor := cursor + 1;
        SplitHighStep(bytes, from, i + 5, low, highBits);
        SplitContinued(bytes, from, i + 5, low, highBits);
        ghost var before := highBits;
        highBits := Or(highBits, Shl(And(temp.Bits(), 0x7F), i * 7 + 3));
        if temp.Below(128) {
          tempLow, tempHigh := ToUint32(lowBits), ToUint32(highBits);
          SplitFound(bytes, from, i + 5, tempLow, tempHigh);
          return Ok(());
        }
        ContinuedMore(bytes, from, i + 5);
        if i < 4 {
          ToUint32OfSmall(highBits);
          SplitHighState(bytes, from, i + 5, low, before, highBits);
        }
      }
      SplitMissing(bytes, from);
      error := true;
      return Err(InvalidVarint);
    }

    /** The shared ending of every branch: move the cursor and check the end of the block. */
    method Finish(count: nat, x: int) returns (r: Result<int>)
      modifies this`cursor
      ensures r == if old(cursor) + count > end then Err(PastEnd) else Ok(x)
      ensures cursor == old(cursor) + count
    {
      cursor := cursor + count;
      if cursor > end {
        return Err(PastEnd);
      }
      return Ok(x);
    }

    /** Reads unsigned varints and sign-extended ten-byte ones; `readSignedVarint32` is this method. */
    method ReadUnsignedVarint32() returns (r: Result<int>)
      modifies this`cursor
      ensures match Varint32(bytes, old(cursor), end)
              case Ok(read) => r == Ok(read.0) && cursor == read.1
              case Err(e) => r == Err(e)
    {
      hide Or, And, Shl, Pow2, Value, Slice, SplitState, Continued, Span, ToUint32, ToInt32;
      ghost var from := cursor;
      SplitStart(bytes, from);
      var temp := At(bytes, cursor + 0);
      OrFirst(temp.Bits());
      SplitLowStep(bytes, from, 0, 0);
      SplitContinued(bytes, from, 0, 0, 0);
      var x: int := And(temp.Bits(), 0x7F);
      if temp.Below(128) {
        ShortVarint(bytes, from, end, 0);
        r := Finish(1, x);
        return;
      }
      temp := At(bytes, cursor + 1);
      SplitLowStep(bytes, from, 1, x);
      SplitContinued(bytes, from, 1, x, 0);
      x := Or(x, Shl(And(temp.Bits(), 0x7F), 7));
      if temp.Below(128) {
        ShortVarint(bytes, from, end, 1);
        r := Finish(2, x);
        return;
      }
      temp := At(bytes, cursor + 2);
      SplitLowStep(bytes, from, 2, x);
      SplitContinued(bytes, from, 2, x, 0);
      x := Or(x, Shl(And(temp.Bits(), 0x7F), 14));
      if temp.Below(128) {
        ShortVarint(bytes, from, end, 2);
        r := Finish(3, x);
        return;
      }
      temp := At(bytes, cursor + 3);
      SplitLowStep(bytes, from, 3, x);
      SplitContinued(bytes, from, 3, x, 0);
      x := Or(x, Shl(And(temp.Bits(), 0x7F), 21));
      if temp.Below(128) {
        ShortVarint(bytes, from, end, 3);
        r := Finish(4, x);
        return;
      }
      temp := At(bytes, cursor + 4);
      SplitContinued(bytes, from, 4, x, 0);
      LowFour(bytes, from, x);
      FifthNibble(temp.Bits(), x);
      HighNibble(temp.Bits());
      ghost var low := x;
      x := Or(x, Shl(And(temp.Bits(), 0x0F), 28));
      FiveBytes(bytes, from, low, x);
      if temp.Below(128) {
        FiveByteVarint(bytes, from, end);
        if And(temp.Bits(), 0xF0) != 0 {
          return Err(BadHighBits);
        }
        r := Finish(5, ToUint32(x));
        return;
      }
      ContinuedMore(bytes, from, 4);
      LongVarint(bytes, from);
      if And(temp.Bits(), 0xF0) != 0xF0
         || At(bytes, cursor + 5) != Byte(0xFF) || At(bytes, cursor + 6) != Byte(0xFF)
         || At(bytes, cursor + 7) != Byte(0xFF) || At(bytes, cursor + 8) != Byte(0xFF)
         || At(bytes, cursor + 9) != Byte(0x01) {
        return Err(BadSignExtension);
      }
      r := Finish(10, x);
    }

    method ReadZigzagVarint32() returns (r: Result<int>)
      modifies this`cursor
      ensures match Varint32(bytes, old(cursor), end)
              case Ok(read) => r == Ok(Unzigzag(ToUint32(read.0))) && cursor == read.1
              case Err(e) => r == Err(e)
    {
      var read := ReadUnsignedVarint32();
      if read.Err? {
        return read;
      }
      var result := read.value;
      UnzigzagBits(result);
      return Ok(Xor(Shr(result, 1), 0 - And(result, 1)));
    }

    /** Little-endian; elements outside the array count as zero. */
    method ReadUint32() returns (r: Result<int>)
      modifies this`cursor
      ensures cursor == old(cursor) + 4
      ensures r == if cursor > end then Err(PastEnd) else Ok(Word32(bytes, old(cursor)))
    {
      hide Or, Shl;
      var a, b := At(bytes, cursor + 0).Bits(), At(bytes, cursor + 1).Bits();
      var c, d := At(bytes, cursor + 2).Bits(), At(bytes, cursor + 3).Bits();
      OrBytes(a, b, c, d);
      r := Finish(4, ToUint32(Or(Or(Or(Shl(a, 0), Shl(b, 8)), Shl(c, 16)), Shl(d, 24))));
    }

    /** The same bits as two's complement. */
    method ReadInt32() returns (r: Result<int>)
      modifies this`cursor
      ensures cursor == old(cursor) + 4
      ensures r == if cursor > end then Err(PastEnd) else Ok(ToInt32(Word32(bytes, old(cursor))))
    {
      hide Or, Shl, ToInt32;
      var a, b := At(bytes, cursor + 0).Bits(), At(bytes, cursor + 1).Bits();
      var c, d := At(bytes, cursor + 2).Bits(), At(bytes, cursor + 3).Bits();
      OrBytes(a, b, c, d);
      var x := Or(Or(Or(Shl(a, 0), Shl(b, 8)), Shl(c, 16)), Shl(d, 24));
      Int32OfWord(x);
      r := Finish(4, x);
    }

    /** Eight raw bytes as a hash string; the end of the block is not checked. */
    method ReadFixedHash64() returns (hash: seq<byte>)
      modifies this`cursor
      ensures cursor == old(cursor) + 8
      ensures hash == Slice(bytes, old(cursor), 8)
    {
      hash := [At(bytes, cursor + 0).Bits(), At(bytes, cursor + 1).Bits(), At(bytes, cursor + 2).Bits(),
               At(bytes, cursor + 3).Bits(), At(bytes, cursor + 4).Bits(), At(bytes, cursor + 5).Bits(),
               At(bytes, cursor + 6).Bits(), At(bytes, cursor + 7).Bits()];
      EightBytes(bytes, cursor);
      cursor := cursor + 8;
    }

    method ReadVarintHash64() returns (r: Result<seq<byte>>)
      modifies this`cursor, this`tempLow, this`tempHigh, this`error
      ensures match SplitVarint64(bytes, old(cursor))
              case Ok(read) => r.Ok? && |r.value| == 8 && HashValue(r.value) == read.0 && cursor == read.1
                               && error == old(error)
              case Err(e) => r == Err(e)
    {
      hide HashValue, SplitVarint64;
      var read := ReadSplitVarint64();
      if read.Err? {
        return Err(read.error);
      }
      var hash := JoinHash64(tempLow, tempHigh);
      return Ok(hash);
    }

    /** `readSignedVarint64`, which `BinaryReader.readEnum` uses. */
    method ReadSignedVarint64() returns (r: Result<int>)
      modifies this`cursor, this`tempLow, this`tempHigh, this`error
      ensures match SplitVarint64(bytes, old(cursor))
              case Ok(read) => r == Ok(Signed(read.0)) && cursor == read.1 && error == old(error)
              case Err(e) => r == Err(e)
    {
      hide SplitVarint64, Signed, Join;
      var read := ReadSplitVarint64();
      if read.Err? {
        return Err(read.error);
      }
      var v := JoinInt64(tempLow, tempHigh);
      return Ok(v);
    }

    method SkipVarintBytes()
      modifies this`cursor
      ensures cursor == SkipVarint(bytes, old(cursor))
    {
      hide And;
      HighBit(At(bytes, cursor).Bits());
      while And(At(bytes, cursor).Bits(), 0x80) != 0
        invariant SkipVarint(bytes, cursor) == SkipVarint(bytes, old(cursor))
        invariant And(At(bytes, cursor).Bits(), 0x80) != 0 <==> At(bytes, cursor).Bits() >= 128
        decreases |bytes| - cursor
      {
        cursor := cursor + 1;
        HighBit(At(bytes, cursor).Bits());
      }
      cursor := cursor + 1;
    }

    method UnskipVarint(value: int)
      modifies this`cursor
      ensures cursor == old(cursor) - UnskipLength(value)
    {
      hide ToUint32;
      var v := value;
      while v > 128
        invariant cursor - UnskipLength(v) == old(cursor) - UnskipLength(value)
        decreases v
      {
        ShiftValues(ToUint32(v));
        cursor := cursor - 1;
        UnskipDecreases(v);
        v := Shr(v, 7);
      }
      cursor := cursor - 1;
    }

    method ReadBytes(length: int) returns (r: Result<seq<byte>>)
      requires 0 <= cursor
      modifies this`cursor, this`error
      ensures r == BytesAt(bytes, old(cursor), end, length)
      ensures r.Ok? ==> cursor == old(cursor) + length && error == old(error)
    {
      if length < 0 || cursor + length > |bytes| {
        error := true;
        return Err(InvalidByteLength);
      }
      var result := bytes[cursor..cursor + length];
      cursor := cursor + length;
      if cursor > end {
        return Err(PastEnd);
      }
      return Ok(result);
    }
  }

  /** `readBytes` */
  function BytesAt(bytes: seq<byte>, cursor: nat, end: int, length: int): Result<seq<byte>> {
    if length < 0 || cursor + length > |bytes| then Err(InvalidByteLength)
    else if cursor + length > end then Err(PastEnd)
    else Ok(bytes[cursor..cursor + length])
  }

  lemma WordParity(x: int)
    ensures And(x, 1) == ToUint32(x) % 2
  {
    hide And;
    assert Pow2(1) == 2;
    AndMask(x, 1, 1);
    ModOfMultiple(x, TWO_TO_31, 2);
  }

  lemma UnzigzagBits(x: int)
    ensures Xor(Shr(x, 1), 0 - And(x, 1)) == Unzigzag(ToUint32(x))
  {
    hide Xor, And, ToUint32;
    WordParity(x);
    ShiftValues(ToUint32(x));
    XorHalf(ToUint32(x) / 2, ToUint32(x) % 2);
  }

  lemma XorHalf(h: nat, odd: nat)
    requires h < TWO_TO_31 && odd < 2
    ensures Xor(h, 0 - odd) == if odd == 0 then h else 0 - h - 1
  {
    if odd == 0 {
      XorZero(h);
    } else {
      XorOnes(h);
    }
  }

  lemma XorZero(h: nat)
    requires h < TWO_TO_31
    ensures Xor(h, 0) == h
  {
  }

  lemma XorOnes(h: nat)
    requires h < TWO_TO_31
    ensures Xor(h, -1) == 0 - h - 1
  {
    hide XorBits;
    XorOnes32(h);
  }

  lemma OrSecondByte(x: nat, b: byte)
    requires x < 0x100
    ensures Or(x, Shl(b, 8)) == x + b * 0x100
  {
    hide Or, Shl;
    Pow2Values();
    ShlMod(b, 8);
    OrSum(x, Shl(b, 8), 8);
    var r: int := Or(x, Shl(b, 8));
    ToUint32OfSmall(r);
  }

  lemma OrThirdByte(x: nat, b: byte)
    requires x < 0x1_0000
    ensures Or(x, Shl(b, 16)) == x + b * 0x1_0000
  {
    hide Or, Shl;
    Pow2Values();
    ShlMod(b, 16);
    OrSum(x, Shl(b, 16), 16);
    var r: int := Or(x, Shl(b, 16));
    ToUint32OfSmall(r);
  }

  lemma OrTopByte(x: nat, d: byte)
    requires x < 0x100_0000
    ensures ToUint32(Or(x, Shl(d, 24))) == x + d * 0x100_0000
  {
    hide Or, Shl;
    Pow2Values();
    ShlMod(d, 24);
    OrSum(x, Shl(d, 24), 24);
  }

  lemma OrBytes(a: byte, b: byte, c: byte, d: byte)
    ensures ToUint32(Or(Or(Or(Shl(a, 0), Shl(b, 8)), Shl(c, 16)), Shl(d, 24))) == FourBytes(a, b, c, d) < TWO_TO_32
  {
    hide Or, Shl, ToUint32;
    SmallShift(a);
    OrSecondByte(a, b);
    OrThirdByte(Or(a, Shl(b, 8)), c);
    OrTopByte(Or(Or(a, Shl(b, 8)), Shl(c, 16)), d);
  }

  lemma SmallShift(a: byte)
    ensures Shl(a, 0) == a
  {
  }

  lemma Int32OfWord(x: int32)
    ensures x == ToInt32(ToUint32(x))
  {
  }

  lemma EightBytes(bytes: seq<byte>, i: int)
    ensures Slice(bytes, i, 8) ==
            [At(bytes, i + 0).Bits(), At(bytes, i + 1).Bits(), At(bytes, i + 2).Bits(), At(bytes, i + 3).Bits(),
             At(bytes, i + 4).Bits(), At(bytes, i + 5).Bits(), At(bytes, i + 6).Bits(), At(bytes, i + 7).Bits()]
  {
    assert Slice(bytes, i + 4, 4) == [At(bytes, i + 4).Bits(), At(bytes, i + 5).Bits(), At(bytes, i + 6).Bits(),
                                      At(bytes, i + 7).Bits()];
  }

  lemma HighBit(b: byte)
    ensures And(b, 0x80) != 0 <==> b >= 128
  {
    assert Pow2(7) == 128;
    AndShiftedMask(b, 1, 7);
    AndLowMask(b / 128, 1);
  }

  lemma UnskipDecreases(v: int)
    requires v > 128
    ensures ToUint32(v) / 128 < v && Shr(v, 7) == ToUint32(v) / 128
  {
    ShiftValues(ToUint32(v));
  }

  // ----- the unrolled 32-bit reader -----

  lemma NibbleBits(b: byte)
    ensures AndBits(b, 0xF0) == b / 16 * 16
  {
    hide AndBits;
    assert Pow2(4) == 16;
    AndShiftedMask(b, 0xF, 4);
    AndLowMask(b / 16, 4);
  }

  lemma HighNibble(b: byte)
    ensures And(b, 0xF0) == b / 16 * 16
  {
    hide AndBits;
    NibbleBits(b);
  }

  lemma FifthNibble(b: byte, low: nat)
    requires low < Pow2(28)
    ensures ToUint32(Or(low, Shl(And(b, 0x0F), 28))) == low + b % 16 * 0x1000_0000
  {
    hide Or, Shl;
    Pow2Values();
    AndMask(b, 0x0F, 4);
    ShlMod(b % 16, 28);
    OrSum(low, Shl(b % 16, 28), 28);
  }

  /** The 32 bits collected from five bytes are the low bits of their value. */
  lemma FiveBytes(bytes: seq<byte>, start: int, low: nat, x: int32)
    requires SplitState(bytes, start, 4, low, 0)
    requires ToUint32(x) == low + At(bytes, start + 4).Bits() % 16 * 0x1000_0000
    ensures x == ToInt32(Value(Slice(bytes, start, 5)))
    ensures At(bytes, start + 4).Bits() < 16 ==> ToUint32(x) == Value(Slice(bytes, start, 5))
  {
    hide Pow2, Value, Slice;
    var b := At(bytes, start + 4).Bits();
    SliceValueStep(bytes, start, 4);
    Pow2Values();
    SplitDigit(low, b);
    var over: int := b % 128 / 16;
    ToUint32Congruent(x, Value(Slice(bytes, start, 5)), 0 - over - if x < 0 then 1 else 0);
  }

  lemma ShortVarint(bytes: seq<byte>, start: int, end: int, k: nat)
    requires k < 4 && Continued(bytes, start, k) && At(bytes, start + k).Below(128)
    ensures Varint32(bytes, start, end) ==
            if start + k + 1 > end then Err(PastEnd) else Ok((Value(Slice(bytes, start, k + 1)), start + k + 1))
  {
    SpanFound(bytes, start, k, 5);
  }

  lemma FiveByteVarint(bytes: seq<byte>, start: int, end: int)
    requires Continued(bytes, start, 4) && At(bytes, start + 4).Below(128)
    ensures Varint32(bytes, start, end) ==
            if At(bytes, start + 4).Bits() >= 16 then Err(BadHighBits)
            else if start + 5 > end then Err(PastEnd)
            else Ok((Value(Slice(bytes, start, 5)), start + 5))
  {
    SpanFound(bytes, start, 4, 5);
  }

  lemma LongVarint(bytes: seq<byte>, start: int)
    requires Continued(bytes, start, 5)
    ensures Span(bytes, start, 5) == 0
  {
    SpanMissing(bytes, start, 5);
  }

  lemma OrFirst(b: byte)
    ensures Or(0, Shl(And(b, 0x7F), 0 * 7)) == And(b, 0x7F)
  {
    assert Pow2(7) == 128;
    AndMask(b, 0x7F, 7);
  }

  lemma LowFour(bytes: seq<byte>, start: int, low: nat)
    requires SplitState(bytes, start, 4, low, 0)
    ensures low < Pow2(28)
  {
  }

  lemma SplitContinued(bytes: seq<byte>, start: int, i: nat, low: nat, high: nat)
    requires SplitState(bytes, start, i, low, high)
    ensures Continued(bytes, start, i)
  {
  }

  lemma SmallRead(bytes: seq<byte>, start: int, k: nat, low: nat)
    requires low == Value(Slice(bytes, start, k)) < TWO_TO_31
    ensures ToUint32(low) == low == Value(Slice(bytes, start, k)) % TWO_TO_64
  {
  }

  lemma FifthRead(bytes: seq<byte>, start: int, low: uint32, high: int)
    requires 0 <= high < TWO_TO_31 && low + high * TWO_TO_32 == Value(Slice(bytes, start, 5))
    ensures low + ToUint32(high) * TWO_TO_32 == Value(Slice(bytes, start, 5)) % TWO_TO_64
  {
  }

  // ----- reading back what the encoder wrote -----

  /** The buffer holds `s` at `i`. */
  ghost predicate Holds(bytes: seq<byte>, i: nat, s: seq<byte>) {
    i + |s| <= |bytes| && bytes[i..i + |s|] == s
  }

  /** Any terminated varint of at most ten bytes yields its base-128 value modulo 2^64, and exactly
      its bytes are consumed. */
  lemma ReadTerminated(bytes: seq<byte>, i: nat, s: seq<byte>)
    requires Holds(bytes, i, s) && Terminated(s) && |s| <= 10
    ensures SplitVarint64(bytes, i) == Ok((Value(s) % TWO_TO_64, i + |s|))
  {
    SpanTerminated(bytes, i, s, 10);
  }

  /** `readSplitVarint64_` inverts `writeSplitVarint64` on all 64-bit values. */
  lemma ReadSplit(bytes: seq<byte>, i: nat, n: nat)
    requires n < TWO_TO_64 && Holds(bytes, i, Varint(n))
    ensures SplitVarint64(bytes, i) == Ok((n, i + |Varint(n)|)) && |Varint(n)| <= 10
  {
    hide Varint, Value, SplitVarint64, Terminated;
    VarintSound(n);
    TenBytes(n);
    ReadTerminated(bytes, i, Varint(n));
  }

  lemma TenBytes(n: nat)
    requires n < TWO_TO_64
    ensures |Varint(n)| <= 10
    ensures n < TWO_TO_32 ==> |Varint(n)| <= 5
  {
    Pow2Values();
    Pow2Add(32, 32);
    Pow2Monotone(64, 70);
    Pow2Monotone(32, 35);
    VarintLength(n, 10);
    VarintLength(n, 5);
  }

  /** The fifth byte of a 32-bit varint has no high bits. */
  lemma FifthByteSmall(n: nat, s: seq<byte>)
    requires s == Varint(n) && |s| == 5 && n < TWO_TO_32
    ensures s[4] < 16
  {
    VarintSound(n);
    ValueAppend(s[..4], s[4]);
    assert s == s[..4] + [s[4]];
    Pow2Values();
  }

  /** `readUnsignedVarint32` inverts `writeUnsignedVarint32`, when the block reaches that far. */
  lemma ReadUnsigned(bytes: seq<byte>, i: nat, end: int, n: uint32)
    requires Holds(bytes, i, Varint(n))
    ensures Varint32(bytes, i, end) ==
            if i + |Varint(n)| > end then Err(PastEnd) else Ok((n, i + |Varint(n)|))
  {
    hide Varint;
    VarintSound(n);
    TenBytes(n);
    var s := Varint(n);
    SpanTerminated(bytes, i, s, 5);
    if |s| == 5 {
      FifthByteSmall(n, s);
      assert bytes[i + 4] == bytes[i..i + 5][4];
    }
  }

  /** Five septets, each number being the quotient of the one before by 128. */
  ghost predicate Quotients(n: nat, n1: nat, n2: nat, n3: nat, n4: nat, n5: nat) {
    n1 == n / 128 && n2 == n1 / 128 && n3 == n2 / 128 && n4 == n3 / 128 && n5 == n4 / 128
  }

  lemma FiveSteps(n: nat, n1: nat, n2: nat, n3: nat, n4: nat, n5: nat)
    requires Quotients(n, n1, n2, n3, n4, n5) && n5 > 0
    ensures Varint(n) == [n % 128 + 128, n1 % 128 + 128, n2 % 128 + 128, n3 % 128 + 128, n4 % 128 + 128] + Varint(n5)
  {
    hide Varint;
    VarintStep(n);
    VarintStep(n1);
    VarintStep(n2);
    VarintStep(n3);
    VarintStep(n4);
  }

  lemma ContinuedBytes(head: seq<byte>, n: nat, n1: nat, n2: nat, n3: nat, n4: nat)
    requires head == [n % 128 + 128, n1 % 128 + 128, n2 % 128 + 128, n3 % 128 + 128, n4 % 128 + 128]
    ensures forall j :: 0 <= j < 5 ==> head[j] >= 128
    ensures Value(head) ==
            n % 128 + 128 * (n1 % 128) + 0x4000 * (n2 % 128) + 0x20_0000 * (n3 % 128) + 0x1000_0000 * (n4 % 128)
  {
    hide Value;
    FiveSeptets(head[0], head[1], head[2], head[3], head[4]);
  }

  lemma HighOnesBytes(n: nat) returns (head: seq<byte>)
    requires TWO_TO_64 - TWO_TO_32 <= n < TWO_TO_64
    ensures |head| == 5 && head[4] / 16 == 15 && forall j :: 0 <= j < 5 ==> head[j] >= 128
    ensures Varint(n) == head + [0xFF, 0xFF, 0xFF, 0xFF, 0x01]
    ensures Value(head) == n % 0x8_0000_0000
  {
    hide Varint, Value;
    var n1 := n / 128;
    var n2 := n1 / 128;
    var n3 := n2 / 128;
    var n4 := n3 / 128;
    FifthQuotient(n, n4);
    FiveSteps(n, n1, n2, n3, n4, 0x1fff_ffff);
    AllOnesTail();
    head := [n % 128 + 128, n1 % 128 + 128, n2 % 128 + 128, n3 % 128 + 128, n4 % 128 + 128];
    ContinuedBytes(head, n, n1, n2, n3, n4);
    SeptetsOf(n, n1, n2, n3, n4, 0x1fff_ffff);
  }

  /** The ten bytes of a number whose upper half is all ones, as sign extension leaves it. */
  lemma HighOnesShape(n: nat)
    requires TWO_TO_64 - TWO_TO_32 <= n < TWO_TO_64
    ensures var s := Varint(n);
      |s| == 10 && s[4] / 16 == 15 && s[5..] == [0xFF, 0xFF, 0xFF, 0xFF, 0x01]
      && (forall j :: 0 <= j < 5 ==> s[j] >= 128) && Value(s[..5]) == n % 0x8_0000_0000
  {
    hide Varint, Value;
    var head := HighOnesBytes(n);
    assert Varint(n)[..5] == head;
  }

  lemma FifthQuotient(n: nat, n4: nat)
    requires TWO_TO_64 - TWO_TO_32 <= n < TWO_TO_64 && n4 == n / 128 / 128 / 128 / 128
    ensures n4 / 128 == 0x1fff_ffff && 112 <= n4 % 128
  {
    assert 0x10_0000_0000 - 16 <= n4 < 0x10_0000_0000;
  }

  lemma AllOnesTail()
    ensures Varint(0x1fff_ffff) == [0xFF, 0xFF, 0xFF, 0xFF, 0x01]
  {
    assert Varint(0x3f_ffff) == [0xFF, 0xFF, 0xFF, 0x01];
  }

  lemma FiveSeptets(a: byte, b: byte, c: byte, d: byte, e: byte)
    ensures Value([a, b, c, d, e]) ==
            a % 128 + 128 * (b % 128) + 0x4000 * (c % 128) + 0x20_0000 * (d % 128) + 0x1000_0000 * (e % 128)
  {
    var s := [a, b, c, d, e];
    assert s[1..] == [b, c, d, e] && [b, c, d, e][1..] == [c, d, e] && [c, d, e][1..] == [d, e];
    assert [d, e][1..] == [e] && [e][1..] == [];
    assert Value([e]) == e % 128;
    assert Value([d, e]) == d % 128 + 128 * (e % 128);
    assert Value([c, d, e]) == c % 128 + 128 * (d % 128) + 0x4000 * (e % 128);
  }

  lemma SeptetsOf(n: nat, n1: nat, n2: nat, n3: nat, n4: nat, n5: nat)
    requires Quotients(n, n1, n2, n3, n4, n5)
    ensures n % 128 + 128 * (n1 % 128) + 0x4000 * (n2 % 128) + 0x20_0000 * (n3 % 128) + 0x1000_0000 * (n4 % 128)
            == n % 0x8_0000_0000
  {
    var low := n % 128 + 128 * (n1 % 128) + 0x4000 * (n2 % 128) + 0x20_0000 * (n3 % 128) + 0x1000_0000 * (n4 % 128);
    DivModUnique(n, 0x8_0000_0000, n5, low);
  }

  lemma LowWordOfNegative(v: int32)
    requires v < 0
    ensures ToInt32(SignExtend(v) % 0x8_0000_0000) == v
  {
    DivModUnique(SignExtend(v), 0x8_0000_0000, 0x1fff_ffff, v + 0x8_0000_0000);
    ToUint32Congruent(v + 0x8_0000_0000, v, 8);
  }

  /** The unrolled reader takes every number whose upper half is all ones for a sign extension. */
  lemma ReadHighOnes(bytes: seq<byte>, i: nat, end: int, n: nat)
    requires TWO_TO_64 - TWO_TO_32 <= n < TWO_TO_64 && Holds(bytes, i, Varint(n))
    ensures |Varint(n)| == 10
    ensures Varint32(bytes, i, end) == if i + 10 > end then Err(PastEnd) else Ok((ToInt32(n % 0x8_0000_0000), i + 10))
  {
    hide Varint, Value, ToInt32;
    HighOnesShape(n);
    var s := Varint(n);
    forall j | 0 <= j < 10
      ensures At(bytes, i + j) == Byte(s[j])
    {
      assert bytes[i + j] == bytes[i..i + 10][j];
    }
    forall j | i <= j < i + 5
      ensures !At(bytes, j).Below(128)
    {
      assert At(bytes, i + (j - i)) == Byte(s[j - i]);
    }
    SpanMissing(bytes, i, 5);
    SliceInside(bytes, i, 5);
    assert bytes[i..i + 5] == bytes[i..i + 10][..5];
    assert s[5] == s[5..][0] && s[6] == s[5..][1] && s[7] == s[5..][2] && s[8] == s[5..][3] && s[9] == s[5..][4];
    assert At(bytes, i + 4) == Byte(s[4]);
    assert At(bytes, i + 5) == Byte(s[5]) && At(bytes, i + 6) == Byte(s[6]);
  }

  /** The unrolled reader passes all its sign-extension assertions on every negative int32. */
  lemma ReadNegative(bytes: seq<byte>, i: nat, end: int, v: int32)
    requires v < 0 && Holds(bytes, i, Varint(SignExtend(v)))
    ensures |Varint(SignExtend(v))| == 10
    ensures Varint32(bytes, i, end) == if i + 10 > end then Err(PastEnd) else Ok((v, i + 10))
  {
    hide Varint, Varint32, ToInt32;
    ReadHighOnes(bytes, i, end, SignExtend(v));
    LowWordOfNegative(v);
  }

  /** On all other 64-bit numbers from 2^32 on, one of its assertions fails. */
  lemma ReadTooLarge(bytes: seq<byte>, i: nat, end: int, n: nat)
    requires TWO_TO_32 <= n < TWO_TO_64 - TWO_TO_32 && Holds(bytes, i, Varint(n))
    ensures Varint32(bytes, i, end).Err?
  {
    hide Varint, Value, ToInt32, Slice;
    var s := Varint(n);
    VarintSound(n);
    LargeLength(n);
    forall j | 0 <= j < |s|
      ensures At(bytes, i + j) == Byte(s[j])
    {
      assert bytes[i + j] == bytes[i..i + |s|][j];
    }
    if |s| == 5 {
      SpanTerminated(bytes, i, s, 5);
      FifthByteLarge(n, s);
      assert At(bytes, i + 4) == Byte(s[4]);
    } else {
      forall j | i <= j < i + 5
        ensures !At(bytes, j).Below(128)
      {
        assert At(bytes, i + (j - i)) == Byte(s[j - i]);
      }
      SpanMissing(bytes, i, 5);
      if |s| < 10 {
        assert At(bytes, i + (|s| - 1)) == Byte(s[|s| - 1]);
      } else if Varint32(bytes, i, end).Ok? {
        assert At(bytes, i + 4) == Byte(s[4]) && At(bytes, i + 5) == Byte(s[5]) && At(bytes, i + 6) == Byte(s[6]);
        assert At(bytes, i + 7) == Byte(s[7]) && At(bytes, i + 8) == Byte(s[8]) && At(bytes, i + 9) == Byte(s[9]);
        OnesAbove(n, s);
      }
    }
  }

  lemma LargeLength(n: nat)
    requires TWO_TO_32 <= n < TWO_TO_64
    ensures 5 <= |Varint(n)| <= 10
  {
    hide Varint;
    Pow2Values();
    VarintLength(n, 4);
    TenBytes(n);
  }

  lemma FifthByteLarge(n: nat, s: seq<byte>)
    requires s == Varint(n) && |s| == 5 && TWO_TO_32 <= n
    ensures s[4] >= 16
  {
    hide Varint, Value;
    VarintSound(n);
    assert s == [s[0], s[1], s[2], s[3], s[4]];
    FiveSeptets(s[0], s[1], s[2], s[3], s[4]);
  }

  lemma OnesAbove(n: nat, s: seq<byte>)
    requires s == Varint(n) && |s| == 10 && s[4] / 16 == 15
    requires s[5] == s[6] == s[7] == s[8] == 0xFF && s[9] == 0x01
    ensures n >= TWO_TO_64 - TWO_TO_32
  {
    hide Varint, Value;
    VarintSound(n);
    FiveMore(s);
    FiveSeptets(s[0], s[1], s[2], s[3], s[4]);
    FiveSeptets(s[5], s[6], s[7], s[8], s[9]);
  }

  lemma FiveMore(s: seq<byte>)
    requires |s| == 10
    ensures Value(s) == Value([s[0], s[1], s[2], s[3], s[4]]) + 0x8_0000_0000 * Value([s[5], s[6], s[7], s[8], s[9]])
  {
    hide Value;
    FiveSeptets(s[0], s[1], s[2], s[3], s[4]);
    assert s == [s[0]] + s[1..] && s[1..][1..] == s[2..] && s[2..][1..] == s[3..] && s[3..][1..] == s[4..] && s[4..][1..] == s[5..];
    assert s[5..] == [s[5], s[6], s[7], s[8], s[9]];
    ValueStep(s);
    ValueStep(s[1..]);
    ValueStep(s[2..]);
    ValueStep(s[3..]);
    ValueStep(s[4..]);
  }

  lemma ValueStep(s: seq<byte>)
    requires s != []
    ensures Value(s) == s[0] % 128 + 128 * Value(s[1..])
  {
  }

  /** Signed 32-bit values: the unrolled reader and the 64-bit reader behind `readEnum` both return
      what `writeSignedVarint32` was given. */
  lemma ReadSigned(bytes: seq<byte>, i: nat, end: int, v: int32)
    requires Holds(bytes, i, Varint(SignExtend(v)))
    ensures Varint32(bytes, i, end) ==
            if i + |Varint(SignExtend(v))| > end then Err(PastEnd) else Ok((v, i + |Varint(SignExtend(v))|))
    ensures SplitVarint64(bytes, i).Ok? && Signed(SplitVarint64(bytes, i).value.0) == v
    ensures SplitVarint64(bytes, i).value.1 == i + |Varint(SignExtend(v))|
  {
    hide Varint, SplitVarint64, Varint32;
    ReadSplit(bytes, i, SignExtend(v));
    if v < 0 {
      ReadNegative(bytes, i, end, v);
    } else {
      ReadUnsigned(bytes, i, end, v);
    }
  }
}
