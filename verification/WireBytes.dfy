/** The bytes on the wire with every number of the format written out, so that nothing the writer and the
    reader share can hide a wrong code: the Protocol Buffers Encoding guide, sections "Message Structure",
    "More Value Types" and "Length-Delimited". */
module WireBytes {
  import opened Js
  import opened Words
  import opened Varints
  import opened Decimal
  import opened Arith
  import opened Utils
  import opened Decoder
  import opened Wire
  import opened Parsing
  import Scalars
  import Utf8

  // ----- what the writer writes -----

  /** Varints of one and of two bytes: low septet first, with the high bit set on the first of two. */
  lemma SmallVarints(n: nat)
    requires n < 0x4000
    ensures Varint(n) == if n < 128 then [n] else [n % 128 + 128, n / 128]
  {
    if n >= 128 {
      assert Varint(n / 128) == [n / 128];
    }
  }

  /** Every field starts with the varint of eight times its number plus 0, 1, 2, 3 or 5 by its kind. */
  lemma FieldTag(f: Field)
    ensures EncodeField(f) == Varint(8 * f.num + (
              match f.value
              case UInt32(_) | Int32(_) | SInt32(_) | Enum(_) | Int64Text(_) | VarintHash(_) => 0
              case FixedHash(_) => 1
              case Bytes(_) | Str(_) | PackedInt32(_) | PackedFixed32(_) | Message(_) => 2
              case Group(_) => 3
              case Fixed32Word(_) => 5)) + EncodePayload(f)
  {
    hide Varint, EncodePayload;
  }

  /** The number that four bytes make, the first one counting least. */
  function Word(p: seq<byte>): nat
    requires |p| == 4
  {
    var a: int, b: int, c: int, d: int := p[0], p[1], p[2], p[3];
    a + 0x100 * b + 0x1_0000 * c + 0x100_0000 * d
  }

  /** Varint payloads: two's complement of 64 bits for signed numbers, 2v or -2v - 1 for zigzag numbers. */
  lemma VarintPayload(f: Field)
    requires Writable(f)
    ensures f.value.UInt32? ==> EncodePayload(f) == Varint(f.value.n)
    ensures f.value.Int32? ==> EncodePayload(f) == Varint(if f.value.v < 0 then f.value.v + 0x1_0000_0000_0000_0000 else f.value.v)
    ensures f.value.Enum? ==> EncodePayload(f) == Varint(if f.value.v < 0 then f.value.v + 0x1_0000_0000_0000_0000 else f.value.v)
    ensures f.value.SInt32? ==> EncodePayload(f) == Varint(if f.value.v < 0 then -2 * f.value.v - 1 else 2 * f.value.v)
  {
    hide Varint;
  }

  /** 64-bit payloads from text: the decimal number modulo 2^64. */
  lemma TextPayload(f: Field)
    requires Writable(f) && f.value.Int64Text?
    ensures var negative := f.value.text != "" && f.value.text[0] == '-';
      var digits := if negative then f.value.text[1..] else f.value.text;
      && AllDigits(digits)
      && EncodePayload(f) == Varint((if negative then 0 - Number(digits) else Number(digits)) % 0x1_0000_0000_0000_0000)
  {
    hide Varint, Number;
    if f.value.text != "" && f.value.text[0] == '-' {
      NegateModulo(Number(f.value.text[1..]));
    }
  }

  /** 64-bit payloads from eight bytes, the first one counting least. */
  lemma HashPayload(f: Field)
    requires Writable(f) && f.value.VarintHash?
    ensures var h := f.value.hash;
      |h| == 8 && EncodePayload(f) == Varint(Word(h[..4]) + 0x1_0000_0000 * Word(h[4..]))
  {
    hide Varint, HashValue, Number, FourBytes;
    HashHalves(f.value.hash);
    WordIs(f.value.hash[..4]);
    WordIs(f.value.hash[4..]);
  }

  lemma WordIs(p: seq<byte>)
    requires |p| == 4
    ensures Word(p) == FourBytes(p[0], p[1], p[2], p[3])
  {
  }

  lemma NegateModulo(n: nat)
    ensures (0 - n % 0x1_0000_0000_0000_0000) % 0x1_0000_0000_0000_0000 == (0 - n) % 0x1_0000_0000_0000_0000
  {
    ModAddMultiple(0 - n, n / 0x1_0000_0000_0000_0000, 0x1_0000_0000_0000_0000);
  }

  /** Fixed-width payloads: four bytes and eight bytes. */
  lemma FixedPayload(f: Field)
    requires Writable(f)
    ensures f.value.Fixed32Word? ==> |EncodePayload(f)| == 4 && Word(EncodePayload(f)) == f.value.n
    ensures f.value.FixedHash? ==> |EncodePayload(f)| == 8 && EncodePayload(f) == f.value.hash
  {
    if f.value.Fixed32Word? {
      WordOfBytes(f.value.n);
    }
  }

  /** Payloads with a length in front, and groups, whose end tag has the number of the start tag. */
  lemma BodyPayload(f: Field)
    requires Writable(f)
    ensures f.value.Bytes? ==> EncodePayload(f) == Varint(|f.value.data|) + f.value.data
    ensures f.value.Str? ==> EncodePayload(f) == Varint(|Utf8.Encode(f.value.units)|) + Utf8.Encode(f.value.units)
    ensures f.value.Message? ==> EncodePayload(f) == Varint(|EncodeFields(f.value.fields)|) + EncodeFields(f.value.fields)
    ensures f.value.Group? ==> EncodePayload(f) == EncodeFields(f.value.fields) + Varint(8 * f.num + 4)
  {
    hide Varint, Utf8.Encode, EncodeFields, AllWritable;
  }

  /** Packed payloads: the length in bytes, then the numbers one after another without tags. */
  lemma PackedPayload(f: Field)
    requires Writable(f)
    ensures f.value.PackedInt32? ==>
              EncodePayload(f) == Varint(|PackedBody(f.value.vs)|) + PackedBody(f.value.vs)
    ensures f.value.PackedFixed32? ==>
              |EncodePayload(f)| == |Varint(4 * |f.value.ns|)| + 4 * |f.value.ns|
              && forall i :: 0 <= i < |f.value.ns| ==>
                   var at := |Varint(4 * |f.value.ns|)| + 4 * i;
                   EncodePayload(f)[..at - 4 * i] == Varint(4 * |f.value.ns|) && Word(EncodePayload(f)[at..at + 4]) == f.value.ns[i]
  {
    hide Varint, Fixed32;
    match f.value
    case PackedInt32(vs) => PackedBodyIs(vs);
    case PackedFixed32(ns) =>
      forall i | 0 <= i < |ns|
        ensures Word(Words32(ns)[4 * i..4 * i + 4]) == ns[i]
      {
        WordAt(ns, i);
      }
      forall i | 0 <= i < |ns|
        ensures var at := |Varint(4 * |ns|)| + 4 * i; EncodePayload(f)[at..at + 4] == Words32(ns)[4 * i..4 * i + 4]
      {
      }
    case _ =>
  }

  function PackedBody(vs: seq<int>): seq<byte>
    requires AllSigned(vs)
  {
    if vs == [] then []
    else Varint(if vs[0] < 0 then vs[0] + 0x1_0000_0000_0000_0000 else vs[0]) + PackedBody(vs[1..])
  }

  lemma {:induction false} PackedBodyIs(vs: seq<int>)
    requires AllSigned(vs)
    ensures SignedVarints(vs) == PackedBody(vs)
  {
    hide Varint;
    if vs != [] {
      PackedBodyIs(vs[1..]);
    }
  }

  lemma {:induction false} WordAt(ns: seq<int>, i: nat)
    requires AllUnsigned(ns) && i < |ns|
    ensures 4 * i + 4 <= |Words32(ns)| && Word(Words32(ns)[4 * i..4 * i + 4]) == ns[i]
    decreases i
  {
    if i == 0 {
      assert Words32(ns)[0..4] == Fixed32(ns[0]);
      WordOfBytes(ns[0]);
    } else {
      WordAt(ns[1..], i - 1);
      assert Words32(ns)[4 * i..4 * i + 4] == Words32(ns[1..])[4 * (i - 1)..4 * (i - 1) + 4];
    }
  }

  // ----- what the reader makes of bytes -----

  /** A header is the varint of eight times the field number plus the wire type; 6 and 7 are no wire types. */
  lemma HeaderRead(bytes: seq<byte>, st: State, tag: uint32)
    requires 0 <= st.cursor && Holds(bytes, st.cursor, Varint(tag)) && st.cursor + |Varint(tag)| <= st.end
    ensures tag % 8 in {0, 1, 2, 3, 4, 5} ==>
              NextField(bytes, st) == Ok((true, State(st.cursor + |Varint(tag)|, st.end, tag / 8, tag % 8)))
    ensures tag % 8 in {6, 7} ==> NextField(bytes, st) == Err(InvalidWireType)
  {
    hide Varint, Varint32;
    ReadUnsigned(bytes, st.cursor, st.end, tag);
  }

  /** `skipField` on any bytes: wire type 5 skips exactly four bytes and wire type 1 exactly eight, wire type 2
      a length and that many bytes, wire type 0 up to the first byte below 128, and wire type 4 is an error. */
  lemma SkipBytes(bytes: seq<byte>, st: State)
    ensures st.wire == 5 ==>
              SkipField(bytes, st) == if st.cursor + 4 <= st.end then Ok(st.(cursor := st.cursor + 4)) else Err(PastEnd)
    ensures st.wire == 1 ==>
              SkipField(bytes, st) == if st.cursor + 8 <= st.end then Ok(st.(cursor := st.cursor + 8)) else Err(PastEnd)
    ensures st.wire == 3 ==> SkipField(bytes, st) == SkipGroup(bytes, st, [st.field])
    ensures st.wire !in {0, 1, 2, 3, 5} ==> SkipField(bytes, st) == Err(InvalidWireType)
  {
    hide SkipVarint, Varint32, SkipGroup;
  }

  lemma SkipLength(bytes: seq<byte>, st: State, length: uint32)
    requires st.wire == 2 && 0 <= st.cursor && Holds(bytes, st.cursor, Varint(length))
    ensures var last := st.cursor + |Varint(length)| + length;
      SkipField(bytes, st) == if last <= st.end then Ok(st.(cursor := last)) else Err(PastEnd)
  {
    hide Varint, Varint32;
    ReadUnsigned(bytes, st.cursor, st.end, length);
  }

  lemma {:induction false} SkipSeptets(bytes: seq<byte>, st: State, k: nat)
    requires st.wire == 0 && 0 <= st.cursor && st.cursor + k < |bytes| && bytes[st.cursor + k] < 128
    requires forall i :: st.cursor <= i < st.cursor + k ==> bytes[i] >= 128
    ensures SkipField(bytes, st) == Ok(st.(cursor := st.cursor + k + 1))
    decreases k
  {
    if k > 0 {
      SkipSeptets(bytes, st.(cursor := st.cursor + 1), k - 1);
    }
  }

  /** Fixed-width fields on any bytes: the word of four bytes behind a tag of wire type 5, and the eight bytes
      behind a tag of wire type 1. */
  lemma FixedRead(bytes: seq<byte>, st: State)
    requires 0 <= st.cursor
    ensures st.wire == 5 && st.cursor + 4 <= st.end <= |bytes| ==>
              ReadPlain(TFixed32, bytes, st)
              == Ok((Fixed32Word(Word(bytes[st.cursor..st.cursor + 4])), st.(cursor := st.cursor + 4)))
    ensures st.wire == 1 && st.cursor + 8 <= st.end <= |bytes| ==>
              ReadPlain(TFixedHash, bytes, st)
              == Ok((FixedHash(bytes[st.cursor..st.cursor + 8]), st.(cursor := st.cursor + 8)))
  {
    hide Slice;
    if st.cursor + 8 <= |bytes| {
      SliceInside(bytes, st.cursor, 8);
    }
  }

  /** The one wire type that each reader accepts. */
  lemma WireTypesChecked(ss: Schemas, ty: FieldType, bytes: seq<byte>, st: State)
    requires 0 <= st.cursor
    ensures st.wire != (match ty
                        case TUInt32 | TInt32 | TSInt32 | TEnum | TInt64Text | TVarintHash => 0
                        case TFixedHash => 1
                        case TBytes | TStr | TPackedInt32 | TPackedFixed32 | TMessage(_) => 2
                        case TGroup(_) => 3
                        case TFixed32 => 5)
            ==> ReadValue(ss, ty, bytes, st) == Err(WrongWireType)
  {
    hide ReadScalar, ReadFields;
  }

  /** Varint fields on any bytes that hold a 64-bit varint: the number, its two's complement, its zigzag
      meaning, its signed decimal and its eight bytes. */
  lemma VarintRead(bytes: seq<byte>, st: State, n: nat)
    requires n < 0x1_0000_0000_0000_0000 && st.wire == 0 && 0 <= st.cursor && Holds(bytes, st.cursor, Varint(n))
    requires st.cursor + |Varint(n)| <= st.end
    ensures var next := st.(cursor := st.cursor + |Varint(n)|);
      var v := if n < 0x8000_0000_0000_0000 then n else n - 0x1_0000_0000_0000_0000;
      && (n < 0x1_0000_0000 ==> ReadPlain(TUInt32, bytes, st) == Ok((UInt32(n), next)))
      && (-0x8000_0000 <= v < 0x8000_0000 ==> ReadPlain(TInt32, bytes, st) == Ok((Int32(v), next)))
      && (n < 0x1_0000_0000 ==>
            ReadPlain(TSInt32, bytes, st) == Ok((SInt32(if n % 2 == 0 then n / 2 else 0 - (n + 1) / 2), next)))
      && ReadPlain(TEnum, bytes, st) == Ok((Enum(v), next))
      && ReadPlain(TInt64Text, bytes, st) == Ok((Int64Text((if v < 0 then "-" else "") + Unsigned(if v < 0 then 0 - v else v)), next))
  {
    hide Varint, Varint32, SplitVarint64, Unsigned;
    ReadSplit(bytes, st.cursor, n);
    if n < 0x1_0000_0000 {
      ReadUnsigned(bytes, st.cursor, st.end, n);
    }
    var v := if n < 0x8000_0000_0000_0000 then n else n - 0x1_0000_0000_0000_0000;
    if -0x8000_0000 <= v < 0x8000_0000 {
      ReadSigned(bytes, st.cursor, st.end, v);
    }
    assert "" + Unsigned(if v < 0 then 0 - v else v) == Unsigned(if v < 0 then 0 - v else v);
  }

  /** Bytes fields on any bytes: a length, and that many bytes. */
  lemma BytesRead(bytes: seq<byte>, st: State, length: uint32)
    requires st.wire == 2 && 0 <= st.cursor && Holds(bytes, st.cursor, Varint(length))
    requires st.end <= |bytes|
    ensures var first := st.cursor + |Varint(length)|;
      if first + length <= st.end then
        ReadPlain(TBytes, bytes, st) == Ok((Bytes(bytes[first..first + length]), st.(cursor := first + length)))
      else ReadPlain(TBytes, bytes, st).Err?
  {
    hide Varint, Varint32;
    ReadUnsigned(bytes, st.cursor, st.end, length);
  }

  /** Text fields on any bytes whose text is valid UTF-8: the UTF-16 form of its scalar values. */
  lemma TextRead(bytes: seq<byte>, st: State, length: uint32)
    requires st.wire == 2 && 0 <= st.cursor && Holds(bytes, st.cursor, Varint(length))
    requires var first := st.cursor + |Varint(length)|;
      first <= st.end && first + length <= |bytes| && Scalars.FromUtf8(bytes[first..first + length]).Some?
    ensures var first := st.cursor + |Varint(length)|;
      var scalars := Scalars.FromUtf8(bytes[first..first + length]).value;
      (forall k :: 0 <= k < |scalars| ==> scalars[k] <= 0x10_FFFF)
      && ReadPlain(TStr, bytes, st) == Ok((Str(Scalars.ToUtf16(scalars)), st.(cursor := first + length)))
  {
    hide Varint, Varint32, Scalars.FromUtf8, Scalars.ToUtf16, Utf8.Decode;
    ReadUnsigned(bytes, st.cursor, st.end, length);
    Scalars.ReadScalars(bytes, st.cursor + |Varint(length)|, st.cursor + |Varint(length)| + length);
  }

  /** Hash fields on any bytes that hold a 64-bit varint: eight bytes that make the number. */
  lemma HashRead(bytes: seq<byte>, st: State, n: nat)
    requires n < 0x1_0000_0000_0000_0000 && st.wire == 0 && 0 <= st.cursor && Holds(bytes, st.cursor, Varint(n))
    requires st.cursor + |Varint(n)| <= st.end
    ensures exists h: seq<byte> ::
      |h| == 8 && Word(h[..4]) + 0x1_0000_0000 * Word(h[4..]) == n
      && ReadPlain(TVarintHash, bytes, st) == Ok((VarintHash(h), st.(cursor := st.cursor + |Varint(n)|)))
  {
    hide Varint, SplitVarint64, Fixed32;
    ReadSplit(bytes, st.cursor, n);
    var low, high := Fixed32(n % 0x1_0000_0000), Fixed32(n / 0x1_0000_0000);
    assert (low + high)[..4] == low && (low + high)[4..] == high;
    FixedWord(n % 0x1_0000_0000);
    FixedWord(n / 0x1_0000_0000);
  }

  lemma FixedWord(n: uint32)
    ensures Word(Fixed32(n)) == n
  {
    WordOfBytes(n);
  }

  /** Ten bytes with the high bit set are no varint, and five with the high bit set, or a fifth byte from 16 on,
      are no unsigned 32-bit varint unless the other bits are those of a negative number. */
  lemma LongVarint(bytes: seq<byte>, i: nat, end: int)
    requires i + 10 <= |bytes|
    ensures (forall j :: i <= j < i + 10 ==> bytes[j] >= 128) ==> SplitVarint64(bytes, i) == Err(InvalidVarint)
    ensures (forall j :: i <= j < i + 4 ==> bytes[j] >= 128) && 16 <= bytes[i + 4] < 128 ==> Varint32(bytes, i, end) == Err(BadHighBits)
    ensures (forall j :: i <= j < i + 5 ==> bytes[j] >= 128)
              && (bytes[i + 4] < 0xF0 || bytes[i + 5..i + 10] != [0xFF, 0xFF, 0xFF, 0xFF, 0x01])
            ==> Varint32(bytes, i, end) == Err(BadSignExtension)
  {
    hide Span, Slice;
    if forall j :: i <= j < i + 10 ==> bytes[j] >= 128 {
      SpanMissing(bytes, i, 10);
    }
    if forall j :: i <= j < i + 5 ==> bytes[j] >= 128 {
      SpanMissing(bytes, i, 5);
    } else if forall j :: i <= j < i + 4 ==> bytes[j] >= 128 {
      SpanFound(bytes, i, 4, 5);
    }
  }

  // ----- the examples of the guide -----

  /** Field 1 with the number 150. */
  lemma Example150()
    ensures EncodeField(Field(1, Int32(150))) == [0x08, 0x96, 0x01]
  {
    SmallVarints(8);
    SmallVarints(150);
    FieldTag(Field(1, Int32(150)));
  }

  /** Field 2 with the text "testing". */
  lemma ExampleTesting()
    ensures EncodeField(Field(2, Str([0x74, 0x65, 0x73, 0x74, 0x69, 0x6e, 0x67])))
            == [0x12, 0x07, 0x74, 0x65, 0x73, 0x74, 0x69, 0x6e, 0x67]
  {
    hide Varint, Utf8.Encode;
    var units := [0x74, 0x65, 0x73, 0x74, 0x69, 0x6e, 0x67];
    SmallVarints(18);
    SmallVarints(7);
    PlainText(units);
    FieldTag(Field(2, Str(units)));
  }

  /** Units below 128 are written as they are. */
  lemma {:induction false} PlainText(units: seq<Utf8.unit>)
    requires forall i :: 0 <= i < |units| ==> units[i] < 128
    ensures Utf8.Encode(units) == units
  {
    if units != [] {
      PlainText(units[1..]);
      assert Utf8.Encode(units) == Utf8.EncodeFirst(units).0 + Utf8.Encode(units[1..]);
    }
  }

  /** Field 3 with a message whose field 1 is 150. */
  lemma ExampleNested()
    ensures EncodeField(Field(3, Message([Field(1, Int32(150))]))) == [0x1a, 0x03, 0x08, 0x96, 0x01]
  {
    hide Varint, EncodeField;
    SmallVarints(26);
    SmallVarints(3);
    Example150();
    var f := Field(1, Int32(150));
    OneField(f);
    FieldTag(Field(3, Message([f])));
  }

  lemma OneField(f: Field)
    ensures EncodeFields([f]) == EncodeField(f)
  {
    hide EncodeField;
    assert [f][1..] == [];
    assert EncodeFields([f]) == EncodeField(f) + EncodeFields([]);
  }

  /** Field 4 packed with 3, 270 and 86942. */
  lemma ExamplePacked()
    ensures EncodeField(Field(4, PackedInt32([3, 270, 86942]))) == [0x22, 0x06, 0x03, 0x8e, 0x02, 0x9e, 0xa7, 0x05]
  {
    hide Varint;
    SmallVarints(34);
    SmallVarints(6);
    SmallVarints(3);
    SmallVarints(270);
    assert Varint(86942) == [0x9e] + Varint(679) by { VarintStep(86942); }
    SmallVarints(679);
    assert [3, 270, 86942][1..] == [270, 86942] && [270, 86942][1..] == [86942] && [86942][1..] == [];
    assert SignedVarints([]) == [];
    assert SignedVarints([86942]) == [0x9e, 0xa7, 0x05];
    assert SignedVarints([270, 86942]) == [0x8e, 0x02, 0x9e, 0xa7, 0x05];
    assert SignedVarints([3, 270, 86942]) == [0x03, 0x8e, 0x02, 0x9e, 0xa7, 0x05];
    FieldTag(Field(4, PackedInt32([3, 270, 86942])));
  }

  /** Field 1 as a fixed 32-bit word. */
  lemma ExampleFixed32()
    ensures EncodeField(Field(1, Fixed32Word(7))) == [0x0d, 0x07, 0x00, 0x00, 0x00]
  {
    hide Varint;
    SmallVarints(13);
    FieldTag(Field(1, Fixed32Word(7)));
  }

  /** Field 1 as eight bytes. */
  lemma ExampleFixed64()
    ensures EncodeField(Field(1, FixedHash([7, 0, 0, 0, 0, 0, 0, 0]))) == [0x09, 7, 0, 0, 0, 0, 0, 0, 0]
  {
    hide Varint;
    SmallVarints(9);
    FieldTag(Field(1, FixedHash([7, 0, 0, 0, 0, 0, 0, 0])));
  }

  /** Field 1 as a group around field 2 with the zigzag number -2. */
  lemma ExampleGroup()
    ensures EncodeField(Field(1, Group([Field(2, SInt32(-2))]))) == [0x0b, 0x10, 0x03, 0x0c]
  {
    hide Varint, EncodeFields, EncodeField;
    SmallVarints(11);
    SmallVarints(16);
    SmallVarints(3);
    SmallVarints(12);
    var f := Field(2, SInt32(-2));
    OneField(f);
    FieldTag(f);
    FieldTag(Field(1, Group([f])));
  }
}
