/** What each call of a binary reader does, as functions of the bytes and the reader's state, and the
    loop of a generated `deserializeBinaryFromReader` over a schema. */
module Parsing {
  import opened Js
  import opened Words
  import opened Decimal
  import opened Arith
  import opened Decoder
  import opened Wire
  import Utf8

  /** What a reader knows between two calls: the decoder's cursor and end, and the last header. */
  datatype State = State(cursor: int, end: int, field: int, wire: int)

  /** The kinds of field a generated reader asks for. */
  datatype FieldType =
    | TUInt32 | TInt32 | TSInt32 | TEnum | TInt64Text | TVarintHash | TFixed32 | TFixedHash | TBytes | TStr
    | TPackedInt32 | TPackedFixed32 | TMessage(name: string) | TGroup(name: string)

  /** Message types by name, so that they may refer to each other. */
  type Schemas = map<string, map<int, FieldType>>

  function TypeOf(ss: Schemas, t: string, num: int): Option<FieldType> {
    if t in ss && num in ss[t] then Some(ss[t][num]) else None
  }

  function ExpectedWire(ty: FieldType): nat {
    match ty
    case TUInt32 | TInt32 | TSInt32 | TEnum | TInt64Text | TVarintHash => VARINT
    case TFixed32 => FIXED32
    case TFixedHash => FIXED64
    case TBytes | TStr | TPackedInt32 | TPackedFixed32 | TMessage(_) => DELIMITED
    case TGroup(_) => START_GROUP
  }

  // ----- what one call does to the state -----

  /** `nextField`: whether there is a field, and the state behind its header. */
  function NextField(bytes: seq<byte>, st: State): Result<(bool, State)> {
    if st.cursor == st.end then Ok((false, st))
    else if st.cursor < 0 || st.cursor > st.end then Err(DecoderError)
    else
      var read :- Varint32(bytes, st.cursor, st.end);
      var header := ToUint32(read.0);
      if header % 8 > 5 then Err(InvalidWireType)
      else Ok((true, State(read.1, st.end, header / 8, header % 8)))
  }

  function Remaining(bytes: seq<byte>, cursor: int): nat {
    if cursor < |bytes| then |bytes| - cursor else 0
  }

  lemma NextFieldProgress(bytes: seq<byte>, st: State)
    requires NextField(bytes, st).Ok? && NextField(bytes, st).value.0
    ensures var next := NextField(bytes, st).value.1;
      && 0 <= st.cursor < next.cursor <= next.end && next.end == st.end && 0 <= next.field && 0 <= next.wire <= 5
      && next.cursor <= |bytes| && Remaining(bytes, next.cursor) < Remaining(bytes, st.cursor)
  {
    hide Varint32;
    Varint32Progress(bytes, st.cursor, st.end);
  }

  lemma AtEndOfBlock(bytes: seq<byte>, st: State)
    requires st.cursor == st.end
    ensures NextField(bytes, st) == Ok((false, st))
  {
  }

  function Advanced(st: State, count: int): Result<State> {
    if st.cursor + count <= st.end then Ok(st.(cursor := st.cursor + count)) else Err(PastEnd)
  }

  /** `skipGroup` looks at headers only; `opens` are the numbers of the groups not yet closed. */
  function SkipGroup(bytes: seq<byte>, st: State, opens: seq<int>): Result<State>
    decreases Remaining(bytes, st.cursor)
  {
    var next :- NextField(bytes, st);
    if !next.0 then Err(UnmatchedStartGroup)
    else
      NextFieldProgress(bytes, st);
      if next.1.wire == START_GROUP then SkipGroup(bytes, next.1, opens + [next.1.field])
      else if next.1.wire != END_GROUP then SkipGroup(bytes, next.1, opens)
      else if opens == [] || next.1.field != opens[|opens| - 1] then Err(UnmatchedEndGroup)
      else if |opens| == 1 then Ok(next.1)
      else SkipGroup(bytes, next.1, opens[..|opens| - 1])
  }

  function SkipField(bytes: seq<byte>, st: State): Result<State> {
    if st.wire == VARINT then Ok(st.(cursor := SkipVarint(bytes, st.cursor)))
    else if st.wire == FIXED64 then Advanced(st, 8)
    else if st.wire == DELIMITED then
      var read :- Varint32(bytes, st.cursor, st.end);
      Advanced(st.(cursor := read.1), read.0)
    else if st.wire == FIXED32 then Advanced(st, 4)
    else if st.wire == START_GROUP then SkipGroup(bytes, st, [st.field])
    else Err(InvalidWireType)
  }

  /** `unskipHeader`: back over the header read last, as long as `unskipVarint` takes it to be. */
  function UnskipHeader(st: State): State {
    st.(cursor := st.cursor - UnskipLength(ToInt32(st.field * 8 + st.wire)))
  }

  /** The loop of `skipMatchingFields`, with the answer of the last `nextField`. */
  function SkipRun(bytes: seq<byte>, st: State, field: int): Result<State>
    decreases Remaining(bytes, st.cursor)
  {
    var next :- NextField(bytes, st);
    if !next.0 || next.1.field != field then Ok(next.1)
    else
      NextFieldProgress(bytes, st);
      var after :- SkipField(bytes, next.1);
      if after.cursor <= st.cursor then Err(NoProgress) else SkipRun(bytes, after, field)
  }

  function SkipMatching(bytes: seq<byte>, st: State): Result<State> {
    var last :- SkipRun(bytes, UnskipHeader(st), st.field);
    Ok(if last.cursor == last.end then last else UnskipHeader(last))
  }

  /** `readPackedField_` with `readSignedVarint32`. */
  function PackedVarints(bytes: seq<byte>, cursor: int, end: int, stop: int): Result<(seq<int>, int)>
    decreases stop - cursor
  {
    if cursor >= stop then Ok(([], cursor))
    else
      var read :- Varint32(bytes, cursor, end);
      Varint32Progress(bytes, cursor, end);
      var rest :- PackedVarints(bytes, read.1, end, stop);
      Ok(([read.0] + rest.0, rest.1))
  }

  /** `readPackedField_` with `readUint32`. */
  function PackedWords(bytes: seq<byte>, cursor: int, end: int, stop: int): Result<(seq<int>, int)>
    decreases stop - cursor
  {
    if cursor >= stop then Ok(([], cursor))
    else if cursor + 4 > end then Err(PastEnd)
    else
      var rest :- PackedWords(bytes, cursor + 4, end, stop);
      Ok(([Word32(bytes, cursor)] + rest.0, rest.1))
  }

  /** The hash string of a 64-bit number. */
  function HashOf(n: nat): (hash: seq<byte>)
    requires n < TWO_TO_64
    ensures |hash| == 8
  {
    Fixed32(Low(n)) + Fixed32(High(n))
  }

  /** The readers of fields that start with a length. */
  function ReadDelimited(ty: FieldType, bytes: seq<byte>, cursor: nat, end: int, length: int): Result<(Value, int)>
    requires ty.TBytes? || ty.TStr? || ty.TPackedInt32? || ty.TPackedFixed32?
  {
    match ty
    case TBytes =>
      var data :- BytesAt(bytes, cursor, end, length);
      Ok((Bytes(data), cursor + length))
    case TStr =>
      var read := Utf8.Decode(bytes, cursor, cursor + length);
      Ok((Str(read.0), read.1))
    case TPackedInt32 =>
      var read :- PackedVarints(bytes, cursor, end, cursor + length);
      Ok((PackedInt32(read.0), read.1))
    case TPackedFixed32 =>
      var read :- PackedWords(bytes, cursor, end, cursor + length);
      Ok((PackedFixed32(read.0), read.1))
  }

  /** The reader method of each scalar type: the value, and the cursor behind it. */
  function ReadScalar(ty: FieldType, bytes: seq<byte>, cursor: nat, end: int): Result<(Value, int)>
    requires !ty.TMessage? && !ty.TGroup?
  {
    match ty
    case TUInt32 => var read :- Varint32(bytes, cursor, end); Ok((UInt32(read.0), read.1))
    case TInt32 => var read :- Varint32(bytes, cursor, end); Ok((Int32(read.0), read.1))
    case TSInt32 => var read :- Varint32(bytes, cursor, end); Ok((SInt32(Unzigzag(ToUint32(read.0))), read.1))
    case TEnum => var read :- SplitVarint64(bytes, cursor); Ok((Enum(Signed(read.0)), read.1))
    case TInt64Text => var read :- SplitVarint64(bytes, cursor); Ok((Int64Text(SignedText(Signed(read.0))), read.1))
    case TVarintHash => var read :- SplitVarint64(bytes, cursor); Ok((VarintHash(HashOf(read.0)), read.1))
    case TFixed32 =>
      if cursor + 4 > end then Err(PastEnd) else Ok((Fixed32Word(Word32(bytes, cursor)), cursor + 4))
    case TFixedHash => Ok((FixedHash(Slice(bytes, cursor, 8)), cursor + 8))
    case TBytes | TStr | TPackedInt32 | TPackedFixed32 =>
      var read :- Varint32(bytes, cursor, end);
      Varint32Progress(bytes, cursor, end);
      ReadDelimited(ty, bytes, read.1, end, read.0)
  }

  /** A reader method of a scalar type: it first checks the wire type of the header read last. */
  function ReadPlain(ty: FieldType, bytes: seq<byte>, st: State): Result<(Value, State)>
    requires !ty.TMessage? && !ty.TGroup? && 0 <= st.cursor
  {
    if st.wire != ExpectedWire(ty) then Err(WrongWireType)
    else
      var read :- ReadScalar(ty, bytes, st.cursor, st.end);
      Ok((read.0, st.(cursor := read.1)))
  }

  /** Reading the field whose header was read last, as its type demands. */
  function ReadValue(ss: Schemas, ty: FieldType, bytes: seq<byte>, st: State): Result<(Value, State)>
    requires 0 <= st.cursor
    decreases Remaining(bytes, st.cursor), 1
  {
    match ty
    case TMessage(name) =>
      if st.wire != DELIMITED then Err(WrongWireType)
      else
        var read :- Varint32(bytes, st.cursor, st.end);
        Varint32Progress(bytes, st.cursor, st.end);
        var newEnd := read.1 + read.0;
        var inner :- ReadFields(ss, name, bytes, st.(cursor := read.1, end := newEnd));
        Ok((Message(inner.0), inner.1.(cursor := newEnd, end := st.end)))
    case TGroup(name) =>
      if st.wire != START_GROUP then Err(WrongWireType)
      else
        var inner :- ReadFields(ss, name, bytes, st);
        if inner.1.wire != END_GROUP then Err(MissingEndGroup) else Ok((Group(inner.0), inner.1))
    case _ => ReadPlain(ty, bytes, st)
  }

  /** The generated loop: the known fields in the order they are read. */
  function ReadFields(ss: Schemas, t: string, bytes: seq<byte>, st: State): Result<(seq<Field>, State)>
    decreases Remaining(bytes, st.cursor), 0
  {
    var next :- NextField(bytes, st);
    if !next.0 || next.1.wire == END_GROUP then Ok(([], next.1))
    else
      NextFieldProgress(bytes, st);
      match TypeOf(ss, t, next.1.field)
      case None =>
        var skipped :- SkipField(bytes, next.1);
        if skipped.cursor <= st.cursor then Err(NoProgress) else ReadFields(ss, t, bytes, skipped)
      case Some(ty) =>
        var read :- ReadValue(ss, ty, bytes, next.1);
        if read.1.cursor <= st.cursor then Err(NoProgress)
        else
          var rest :- ReadFields(ss, t, bytes, read.1);
          Ok(([Field(next.1.field, read.0)] + rest.0, rest.1))
  }
}
