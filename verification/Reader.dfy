/** `jspb.BinaryReader`, each method proved against its function in `Parsing`. */
module Reader {
  import opened Js
  import opened Words
  import opened Decimal
  import opened Utils
  import opened Decoder
  import Encoder
  import opened Wire
  import opened Parsing
  import UtilsDecimal
  import Utf8

  class BinaryReader {
    const decoder: BinaryDecoder
    var fieldCursor: int
    var nextField: int
    var nextWireType: int
    var error: bool

    constructor (bytes: seq<byte>)
      ensures fresh(decoder) && decoder.bytes == bytes && Clean() && Snapshot() == State(0, |bytes|, -1, -1)
    {
      decoder := new BinaryDecoder(bytes, 0, |bytes|);
      fieldCursor, nextField, nextWireType, error := 0, -1, -1, false;
    }

    function Snapshot(): State
      reads this, decoder
    {
      State(decoder.cursor, decoder.end, nextField, nextWireType)
    }

    /** No error has been recorded; after a failed assertion nothing is promised about the reader. */
    predicate Clean()
      reads this, decoder
    {
      !error && !decoder.error
    }

    /** A call returned what `spec` says, and left the reader in the state `spec` says. */
    ghost predicate Does<T>(r: Result<T>, spec: Result<(T, State)>)
      reads this, decoder
    {
      match spec
      case Ok(done) => r == Ok(done.0) && Snapshot() == done.1 && Clean()
      case Err(e) => r == Err(e)
    }

    /** The same for calls that return nothing. */
    ghost predicate Moves(r: Result<()>, spec: Result<State>)
      reads this, decoder
    {
      match spec
      case Ok(st) => r == Ok(()) && Snapshot() == st && Clean()
      case Err(e) => r == Err(e)
    }

    method NextField() returns (r: Result<bool>)
      requires Clean()
      modifies this, decoder
      ensures Does(r, Parsing.NextField(decoder.bytes, old(Snapshot())))
      ensures r == Ok(true) ==> fieldCursor == old(decoder.cursor)
    {
      hide Varint32, And, Shr;
      if decoder.AtEnd() {
        return Ok(false);
      }
      if error || decoder.GetError() {
        return Err(DecoderError);
      }
      fieldCursor := decoder.cursor;
      var header :- decoder.ReadUnsignedVarint32();
      HeaderParts(header);
      var field := Shr(header, 3);
      var wireType := And(header, 0x7);
      if wireType != VARINT && wireType != FIXED32 && wireType != FIXED64 && wireType != DELIMITED
         && wireType != START_GROUP && wireType != END_GROUP {
        return Err(InvalidWireType);
      }
      nextField := field;
      nextWireType := wireType;
      return Ok(true);
    }

    method SkipGroup() returns (r: Result<()>)
      requires Clean()
      modifies this, decoder
      ensures Moves(r, Parsing.SkipGroup(decoder.bytes, old(Snapshot()), [old(nextField)]))
    {
      hide Parsing.NextField;
      var nestedGroups := [nextField];
      ghost var spec := Parsing.SkipGroup(decoder.bytes, Snapshot(), nestedGroups);
      while |nestedGroups| > 0
        invariant Clean()
        invariant nestedGroups != [] ==> Parsing.SkipGroup(decoder.bytes, Snapshot(), nestedGroups) == spec
        invariant nestedGroups == [] ==> spec == Ok(Snapshot())
        decreases Remaining(decoder.bytes, decoder.cursor)
      {
        ghost var before := Snapshot();
        var more :- NextField();
        if !more {
          return Err(UnmatchedStartGroup);
        }
        NextFieldProgress(decoder.bytes, before);
        if nextWireType == START_GROUP {
          nestedGroups := nestedGroups + [nextField];
        } else if nextWireType == END_GROUP {
          var expected := nestedGroups[|nestedGroups| - 1];
          nestedGroups := nestedGroups[..|nestedGroups| - 1];
          if nextField != expected {
            return Err(UnmatchedEndGroup);
          }
        }
      }
      return Ok(());
    }

    method SkipField() returns (r: Result<()>)
      requires Clean()
      modifies this, decoder
      ensures Moves(r, Parsing.SkipField(decoder.bytes, old(Snapshot())))
    {
      hide Varint32, SkipVarint, Parsing.SkipGroup;
      if nextWireType == VARINT {
        decoder.SkipVarintBytes();
        return Ok(());
      } else if nextWireType == FIXED64 {
        r := decoder.Advance(8);
      } else if nextWireType == DELIMITED {
        var length :- decoder.ReadUnsignedVarint32();
        r := decoder.Advance(length);
      } else if nextWireType == FIXED32 {
        r := decoder.Advance(4);
      } else if nextWireType == START_GROUP {
        r := SkipGroup();
      } else {
        return Err(InvalidWireType);
      }
    }

    method UnskipHeader()
      requires 0 <= nextField && 0 <= nextWireType < 8
      modifies decoder`cursor
      ensures Snapshot() == Parsing.UnskipHeader(old(Snapshot()))
    {
      hide UnskipLength, Or, Shl;
      HeaderBits(nextField, nextWireType);
      decoder.UnskipVarint(Or(Shl(nextField, 3), nextWireType));
    }

    /** Skips the fields numbered like the one whose header was read last. */
    method SkipMatchingFields() returns (r: Result<()>)
      requires Clean() && 0 <= nextField && 0 <= nextWireType < 8
      modifies this, decoder
      ensures Moves(r, SkipMatching(decoder.bytes, old(Snapshot())))
    {
      hide Parsing.NextField, Parsing.SkipField, Parsing.UnskipHeader, Remaining;
      var field := nextField;
      UnskipHeader();
      ghost var bytes, spec := decoder.bytes, SkipRun(decoder.bytes, Snapshot(), field);
      while true
        invariant Clean() && 0 <= nextField && 0 <= nextWireType < 8
        invariant SkipRun(bytes, Snapshot(), field) == spec
        decreases Remaining(bytes, decoder.cursor)
      {
        ghost var before := Snapshot();
        var from := decoder.cursor;
        var more :- NextField();
        if !more || nextField != field {
          if more {
            NextFieldProgress(bytes, before);
          } else {
            EndOfBlock(bytes, before);
          }
          break;
        }
        NextFieldProgress(bytes, before);
        ghost var inside := Snapshot();
        var _ :- SkipField();
        SkipFieldHeader(bytes, inside);
        if decoder.cursor <= from {
          return Err(NoProgress);
        }
        FurtherOn(bytes, from, decoder.cursor);
      }
      assert spec == Ok(Snapshot());
      if !decoder.AtEnd() {
        UnskipHeader();
      }
      return Ok(());
    }

    method ReadUint32() returns (r: Result<Value>)
      requires Clean() && 0 <= decoder.cursor
      modifies this, decoder
      ensures Does(r, ReadPlain(TUInt32, decoder.bytes, old(Snapshot())))
    {
      hide Varint32;
      if nextWireType != VARINT {
        return Err(WrongWireType);
      }
      var x :- decoder.ReadUnsignedVarint32();
      return Ok(UInt32(x));
    }

    method ReadInt32() returns (r: Result<Value>)
      requires Clean() && 0 <= decoder.cursor
      modifies this, decoder
      ensures Does(r, ReadPlain(TInt32, decoder.bytes, old(Snapshot())))
    {
      hide Varint32;
      if nextWireType != VARINT {
        return Err(WrongWireType);
      }
      var x :- decoder.ReadUnsignedVarint32();
      return Ok(Int32(x));
    }

    method ReadSint32() returns (r: Result<Value>)
      requires Clean() && 0 <= decoder.cursor
      modifies this, decoder
      ensures Does(r, ReadPlain(TSInt32, decoder.bytes, old(Snapshot())))
    {
      hide Varint32, Unzigzag;
      if nextWireType != VARINT {
        return Err(WrongWireType);
      }
      var x :- decoder.ReadZigzagVarint32();
      return Ok(SInt32(x));
    }

    method ReadEnum() returns (r: Result<Value>)
      requires Clean() && 0 <= decoder.cursor
      modifies this, decoder
      ensures Does(r, ReadPlain(TEnum, decoder.bytes, old(Snapshot())))
    {
      hide SplitVarint64, Signed;
      if nextWireType != VARINT {
        return Err(WrongWireType);
      }
      var x :- decoder.ReadSignedVarint64();
      return Ok(Enum(x));
    }

    method ReadInt64String() returns (r: Result<Value>)
      requires Clean() && 0 <= decoder.cursor
      modifies this, decoder
      ensures Does(r, ReadPlain(TInt64Text, decoder.bytes, old(Snapshot())))
    {
      hide SplitVarint64, Signed, SignedText, Join;
      if nextWireType != VARINT {
        return Err(WrongWireType);
      }
      var _ :- decoder.ReadSplitVarint64();
      var text := UtilsDecimal.JoinSignedDecimalString(decoder.tempLow, decoder.tempHigh);
      return Ok(Int64Text(text));
    }

    method ReadVarintHash64() returns (r: Result<Value>)
      requires Clean() && 0 <= decoder.cursor
      modifies this, decoder
      ensures Does(r, ReadPlain(TVarintHash, decoder.bytes, old(Snapshot())))
    {
      hide SplitVarint64, HashValue, HashOf;
      if nextWireType != VARINT {
        return Err(WrongWireType);
      }
      var hash :- decoder.ReadVarintHash64();
      HashOfValue(hash);
      return Ok(VarintHash(hash));
    }

    method ReadFixed32() returns (r: Result<Value>)
      requires Clean() && 0 <= decoder.cursor
      modifies this, decoder
      ensures Does(r, ReadPlain(TFixed32, decoder.bytes, old(Snapshot())))
    {
      hide Word32;
      if nextWireType != FIXED32 {
        return Err(WrongWireType);
      }
      var x :- decoder.ReadUint32();
      return Ok(Fixed32Word(x));
    }

    method ReadFixedHash64() returns (r: Result<Value>)
      requires Clean() && 0 <= decoder.cursor
      modifies this, decoder
      ensures Does(r, ReadPlain(TFixedHash, decoder.bytes, old(Snapshot())))
    {
      hide Slice;
      if nextWireType != FIXED64 {
        return Err(WrongWireType);
      }
      var hash := decoder.ReadFixedHash64();
      return Ok(FixedHash(hash));
    }

    method ReadBytes() returns (r: Result<Value>)
      requires Clean() && 0 <= decoder.cursor
      modifies this, decoder
      ensures Does(r, ReadPlain(TBytes, decoder.bytes, old(Snapshot())))
    {
      hide Varint32;
      if nextWireType != DELIMITED {
        return Err(WrongWireType);
      }
      ghost var from := decoder.cursor;
      var length :- decoder.ReadUnsignedVarint32();
      Varint32Progress(decoder.bytes, from, decoder.end);
      var data :- decoder.ReadBytes(length);
      return Ok(Bytes(data));
    }

    method ReadString() returns (r: Result<Value>)
      requires Clean() && 0 <= decoder.cursor
      modifies this, decoder
      ensures Does(r, ReadPlain(TStr, decoder.bytes, old(Snapshot())))
    {
      hide Varint32, Utf8.Decode;
      if nextWireType != DELIMITED {
        return Err(WrongWireType);
      }
      ghost var from := decoder.cursor;
      var length :- decoder.ReadUnsignedVarint32();
      Varint32Progress(decoder.bytes, from, decoder.end);
      var units := Utf8.ReadString(decoder, length);
      return Ok(Str(units));
    }

    /** `readPackedField_` with `readSignedVarint32`. */
    method ReadPackedInt32() returns (r: Result<Value>)
      requires Clean() && 0 <= decoder.cursor
      modifies this, decoder
      ensures Does(r, ReadPlain(TPackedInt32, decoder.bytes, old(Snapshot())))
    {
      hide Varint32;
      if nextWireType != DELIMITED {
        return Err(WrongWireType);
      }
      ghost var from := decoder.cursor;
      var length :- decoder.ReadUnsignedVarint32();
      Varint32Progress(decoder.bytes, from, decoder.end);
      var end := decoder.cursor + length;
      ghost var bytes, limit, spec := decoder.bytes, decoder.end, PackedVarints(decoder.bytes, decoder.cursor, decoder.end, end);
      var result: seq<int> := [];
      ContinuesStart(spec);
      while decoder.cursor < end
        invariant Clean()
        invariant Continues(result, PackedVarints(bytes, decoder.cursor, limit, end), spec)
        decreases end - decoder.cursor
        modifies decoder`cursor
      {
        ghost var before := decoder.cursor;
        var x :- decoder.ReadUnsignedVarint32();
        Varint32Progress(bytes, before, limit);
        ContinuesOne(result, x, PackedVarints(bytes, decoder.cursor, limit, end), PackedVarints(bytes, before, limit, end), spec);
        result := result + [x];
      }
      ContinuesEnd(result, decoder.cursor, spec);
      return Ok(PackedInt32(result));
    }

    /** `readPackedField_` with `readUint32`. */
    method ReadPackedFixed32() returns (r: Result<Value>)
      requires Clean() && 0 <= decoder.cursor
      modifies this, decoder
      ensures Does(r, ReadPlain(TPackedFixed32, decoder.bytes, old(Snapshot())))
    {
      hide Varint32, Word32;
      if nextWireType != DELIMITED {
        return Err(WrongWireType);
      }
      ghost var from := decoder.cursor;
      var length :- decoder.ReadUnsignedVarint32();
      Varint32Progress(decoder.bytes, from, decoder.end);
      var end := decoder.cursor + length;
      ghost var bytes, limit, spec := decoder.bytes, decoder.end, PackedWords(decoder.bytes, decoder.cursor, decoder.end, end);
      var result: seq<int> := [];
      ContinuesStart(spec);
      while decoder.cursor < end
        invariant Clean()
        invariant Continues(result, PackedWords(bytes, decoder.cursor, limit, end), spec)
        decreases end - decoder.cursor
        modifies decoder`cursor
      {
        ghost var before := decoder.cursor;
        var x :- decoder.ReadUint32();
        ContinuesOne(result, x, PackedWords(bytes, decoder.cursor, limit, end), PackedWords(bytes, before, limit, end), spec);
        result := result + [x];
      }
      ContinuesEnd(result, decoder.cursor, spec);
      return Ok(PackedFixed32(result));
    }

    method ReadMessage(ss: Schemas, name: string) returns (r: Result<Value>)
      requires Clean() && 0 <= decoder.cursor
      modifies this, decoder
      ensures Does(r, ReadValue(ss, TMessage(name), decoder.bytes, old(Snapshot())))
      decreases Remaining(decoder.bytes, decoder.cursor), 1
    {
      hide Varint32, ReadFields;
      if nextWireType != DELIMITED {
        return Err(WrongWireType);
      }
      ghost var from := decoder.cursor;
      var oldEnd := decoder.end;
      var length :- decoder.ReadUnsignedVarint32();
      Varint32Progress(decoder.bytes, from, oldEnd);
      var newEnd := decoder.cursor + length;
      decoder.end := newEnd;
      var fields :- DeserializeFields(ss, name);
      decoder.cursor := newEnd;
      decoder.end := oldEnd;
      return Ok(Message(fields));
    }

    /** Does not compare the number of the end tag; see `TruncatedGroup`. */
    method ReadGroup(ss: Schemas, name: string) returns (r: Result<Value>)
      requires Clean() && 0 <= decoder.cursor
      modifies this, decoder
      ensures Does(r, ReadValue(ss, TGroup(name), decoder.bytes, old(Snapshot())))
      decreases Remaining(decoder.bytes, decoder.cursor), 1
    {
      hide ReadFields;
      if nextWireType != START_GROUP {
        return Err(WrongWireType);
      }
      var fields :- DeserializeFields(ss, name);
      if nextWireType != END_GROUP {
        return Err(MissingEndGroup);
      }
      return Ok(Group(fields));
    }

    /** The call a generated deserializer makes for a field of its schema. */
    method ReadKnown(ss: Schemas, ty: FieldType) returns (r: Result<Value>)
      requires Clean() && 0 <= decoder.cursor
      modifies this, decoder
      ensures Does(r, ReadValue(ss, ty, decoder.bytes, old(Snapshot())))
      decreases Remaining(decoder.bytes, decoder.cursor), 2
    {
      hide ReadPlain, ReadFields;
      match ty
      case TUInt32 => r := ReadUint32();
      case TInt32 => r := ReadInt32();
      case TSInt32 => r := ReadSint32();
      case TEnum => r := ReadEnum();
      case TInt64Text => r := ReadInt64String();
      case TVarintHash => r := ReadVarintHash64();
      case TFixed32 => r := ReadFixed32();
      case TFixedHash => r := ReadFixedHash64();
      case TBytes => r := ReadBytes();
      case TStr => r := ReadString();
      case TPackedInt32 => r := ReadPackedInt32();
      case TPackedFixed32 => r := ReadPackedFixed32();
      case TMessage(name) => r := ReadMessage(ss, name);
      case TGroup(name) => r := ReadGroup(ss, name);
    }

    /** The generated `deserializeBinaryFromReader`. */
    method DeserializeFields(ss: Schemas, t: string) returns (r: Result<seq<Field>>)
      requires Clean()
      modifies this, decoder
      ensures Does(r, ReadFields(ss, t, decoder.bytes, old(Snapshot())))
      decreases Remaining(decoder.bytes, decoder.cursor), 0
    {
      hide Parsing.NextField, Parsing.SkipField, ReadValue, Remaining;
      ghost var bytes, spec := decoder.bytes, ReadFields(ss, t, decoder.bytes, Snapshot());
      var fields: seq<Field> := [];
      ContinuesStart(spec);
      while true
        invariant Clean() && Remaining(bytes, decoder.cursor) <= old(Remaining(bytes, decoder.cursor))
        invariant Continues(fields, ReadFields(ss, t, bytes, Snapshot()), spec)
        decreases Remaining(bytes, decoder.cursor)
      {
        ghost var before := Snapshot();
        var from := decoder.cursor;
        var more :- NextField();
        if !more || nextWireType == END_GROUP {
          ContinuesEnd(fields, Snapshot(), spec);
          return Ok(fields);
        }
        NextFieldProgress(bytes, before);
        var field := nextField;
        match TypeOf(ss, t, field) {
          case None =>
            var _ :- SkipField();
            if decoder.cursor <= from {
              return Err(NoProgress);
            }
            FurtherOn(bytes, from, decoder.cursor);
          case Some(ty) =>
            var value :- ReadKnown(ss, ty);
            if decoder.cursor <= from {
              return Err(NoProgress);
            }
            FurtherOn(bytes, from, decoder.cursor);
            ContinuesOne(fields, Field(field, value), ReadFields(ss, t, bytes, Snapshot()),
                         ReadFields(ss, t, bytes, before), spec);
            fields := fields + [Field(field, value)];
        }
      }
    }
  }

  lemma EndOfBlock(bytes: seq<byte>, st: State)
    requires Parsing.NextField(bytes, st).Ok? && !Parsing.NextField(bytes, st).value.0
    ensures Parsing.NextField(bytes, st).value.1 == st
  {
  }

  /** A skip leaves a header of a valid wire type behind: the same one, or an end tag. */
  lemma SkipFieldHeader(bytes: seq<byte>, st: State)
    requires Parsing.SkipField(bytes, st).Ok? && 0 <= st.field && 0 <= st.wire < 8
    ensures var after := Parsing.SkipField(bytes, st).value; 0 <= after.field && 0 <= after.wire < 8
  {
    hide SkipVarint, Varint32, Parsing.SkipGroup;
    if st.wire == START_GROUP {
      SkipGroupHeader(bytes, st, [st.field]);
    }
  }

  lemma {:induction false} SkipGroupHeader(bytes: seq<byte>, st: State, opens: seq<int>)
    requires Parsing.SkipGroup(bytes, st, opens).Ok?
    ensures var after := Parsing.SkipGroup(bytes, st, opens).value; 0 <= after.field && 0 <= after.wire < 8
    decreases Remaining(bytes, st.cursor)
  {
    hide Parsing.NextField, Remaining;
    NextFieldProgress(bytes, st);
    var next := Parsing.NextField(bytes, st).value.1;
    if next.wire == START_GROUP {
      SkipGroupHeader(bytes, next, opens + [next.field]);
    } else if next.wire != END_GROUP {
      SkipGroupHeader(bytes, next, opens);
    } else if |opens| > 1 {
      SkipGroupHeader(bytes, next, opens[..|opens| - 1]);
    }
  }

  /** `(field << 3) | wireType` */
  lemma HeaderBits(field: nat, wire: nat)
    requires wire < 8
    ensures Or(Shl(field, 3), wire) == ToInt32(field * 8 + wire)
  {
    hide Or, Shl, ToInt32;
    assert Pow2(3) == 8;
    ShlMod(field, 3);
    OrSum(wire, Shl(field, 3), 3);
    ShiftedHeader(field, wire);
    Int32OfWord(Or(Shl(field, 3), wire));
    ToUint32Congruent(field * 8 + wire, ToUint32(field * 8 + wire), (field * 8 + wire) / TWO_TO_32);
  }

  lemma ShiftedHeader(field: nat, wire: nat)
    requires wire < 8
    ensures wire + field * 8 % TWO_TO_32 == ToUint32(field * 8 + wire)
  {
    DivModUnique(field * 8 + wire, TWO_TO_32, field / 0x2000_0000, field % 0x2000_0000 * 8 + wire);
    DivModUnique(field * 8, TWO_TO_32, field / 0x2000_0000, field % 0x2000_0000 * 8);
  }

  lemma FurtherOn(bytes: seq<byte>, from: int, to: int)
    requires from < to && Remaining(bytes, from) > 0
    ensures Remaining(bytes, to) < Remaining(bytes, from)
  {
  }

  /** What a loop has read so far, in front of what it still has to read, is what the call reads. */
  ghost predicate Continues<T, S>(done: seq<T>, rest: Result<(seq<T>, S)>, all: Result<(seq<T>, S)>) {
    match rest
    case Ok(more) => all == Ok((done + more.0, more.1))
    case Err(e) => all == Err(e)
  }

  lemma ContinuesStart<T, S>(all: Result<(seq<T>, S)>)
    ensures Continues([], all, all)
  {
    if all.Ok? {
      assert [] + all.value.0 == all.value.0;
    }
  }

  lemma ContinuesEnd<T, S>(done: seq<T>, st: S, all: Result<(seq<T>, S)>)
    requires Continues(done, Ok(([], st)), all)
    ensures all == Ok((done, st))
  {
    assert done + [] == done;
  }

  lemma ContinuesOne<T, S>(done: seq<T>, x: T, rest: Result<(seq<T>, S)>, whole: Result<(seq<T>, S)>, all: Result<(seq<T>, S)>)
    requires Continues(done, whole, all)
    requires whole == match rest case Ok(more) => Ok(([x] + more.0, more.1)) case Err(e) => Err(e)
    ensures Continues(done + [x], rest, all)
  {
    if rest.Ok? {
      assert done + ([x] + rest.value.0) == done + [x] + rest.value.0;
    }
  }

  lemma HashOfValue(hash: seq<byte>)
    requires |hash| == 8
    ensures HashValue(hash) < TWO_TO_64 && hash == HashOf(HashValue(hash))
  {
    hide HashValue, Fixed32;
    HashHalves(hash);
    var n := HashValue(hash);
    Encoder.FixedWord(hash[0], hash[1], hash[2], hash[3]);
    Encoder.FixedWord(hash[4], hash[5], hash[6], hash[7]);
    JoinHalves(n);
    Encoder.HashBytes(hash, Low(n), High(n));
  }

  lemma HeaderParts(header: int)
    ensures Shr(header, 3) == ToUint32(header) / 8 && And(header, 0x7) == ToUint32(header) % 8
  {
    hide And, Halved;
    assert Pow2(3) == 8;
    AndMask(header, 0x7, 3);
    ShiftValues(ToUint32(header));
    ModOfMultiple(header, TWO_TO_32 / 8, 8);
  }
}
