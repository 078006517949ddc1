/** Reading what the writer wrote: the schema-driven reader loop over the encoding of a field tree. */
module RoundTrip {
  import opened Js
  import opened Words
  import opened Varints
  import opened Decimal
  import opened Arith
  import opened Utils
  import opened Decoder
  import opened Wire
  import opened Parsing
  import opened Skipping
  import Utf8
  import Reader

  /** The kind of value a reader of type `ty` expects, down to the leaves. */
  ghost predicate Fits(ss: Schemas, ty: FieldType, f: Field)
    decreases f, 0
  {
    match f.value
    case UInt32(_) => ty == TUInt32
    case Int32(_) => ty == TInt32
    case SInt32(_) => ty == TSInt32
    case Enum(_) => ty == TEnum
    case Int64Text(_) => ty == TInt64Text
    case VarintHash(_) => ty == TVarintHash
    case Fixed32Word(_) => ty == TFixed32
    case FixedHash(_) => ty == TFixedHash
    case Bytes(_) => ty == TBytes
    case Str(_) => ty == TStr
    case PackedInt32(_) => ty == TPackedInt32
    case PackedFixed32(_) => ty == TPackedFixed32
    case Message(fields) => ty.TMessage? && Readable(ss, ty.name, fields)
    case Group(fields) => ty.TGroup? && Readable(ss, ty.name, fields)
  }

  /** Known fields have the type the schema gives them; unknown groups can be skipped. */
  ghost predicate Readable(ss: Schemas, t: string, fs: seq<Field>)
    decreases fs, 1
  {
    fs == [] || (Readable(ss, t, fs[1..]) &&
                 match TypeOf(ss, t, fs[0].num)
                 case None => Skippable(fs[0])
                 case Some(ty) => Fits(ss, ty, fs[0]))
  }

  /** Every field but a group; a group of varint fields and groups, when its numbers balance as headers. */
  ghost predicate Skippable(f: Field) {
    f.value.Group? ==> OnVarints(f.value.fields) && Balanced(Numbers(f.value.fields))
  }

  /** What a reader gets for a written value: 64-bit numbers as canonical decimals, strings without
      their unpaired high surrogates, and nested messages without the fields it does not know. */
  function Seen(ss: Schemas, ty: FieldType, f: Field): Value
    decreases f, 0
  {
    match f.value
    case Int64Text(text) => Int64Text(SignedText(Signed(TextNumber(text))))
    case Str(units) => Str(Utf8.Cleaned(units))
    case Message(fields) => Message(if ty.TMessage? then Project(ss, ty.name, fields) else [])
    case Group(fields) => Group(if ty.TGroup? then Project(ss, ty.name, fields) else [])
    case _ => f.value
  }

  /** The field as it is read, or nothing when it is not known. */
  function Kept(ss: Schemas, t: string, f: Field): seq<Field>
    decreases f, 1
  {
    match TypeOf(ss, t, f.num)
    case None => []
    case Some(ty) => [Field(f.num, Seen(ss, ty, f))]
  }

  /** The known fields, in order. */
  function Project(ss: Schemas, t: string, fs: seq<Field>): seq<Field>
    decreases fs, 2
  {
    if fs == [] then [] else Kept(ss, t, fs[0]) + Project(ss, t, fs[1..])
  }

  /** The wire type a reader remembers after a field: a nested message leaves that of its last field. */
  function FieldWire(ss: Schemas, t: string, f: Field): int
    decreases f, 1
  {
    match TypeOf(ss, t, f.num)
    case None => if f.value.Group? then END_GROUP else WireType(f.value)
    case Some(ty) => ValueWire(ss, ty, f)
  }

  function ValueWire(ss: Schemas, ty: FieldType, f: Field): int
    decreases f, 0
  {
    match f.value
    case Group(_) => END_GROUP
    case Message(fields) => if ty.TMessage? then LastWire(ss, ty.name, fields, DELIMITED) else DELIMITED
    case _ => WireType(f.value)
  }

  /** The wire type remembered after some fields, `before` being the one remembered ahead of them. */
  function LastWire(ss: Schemas, t: string, fs: seq<Field>, before: int): int
    decreases fs, 2
  {
    if fs == [] then before else LastWire(ss, t, fs[1..], FieldWire(ss, t, fs[0]))
  }

  // ----- pieces of the encoding where the reader finds them -----

  lemma HoldsParts(bytes: seq<byte>, i: nat, s: seq<byte>, t: seq<byte>)
    requires Holds(bytes, i, s + t)
    ensures Holds(bytes, i, s) && Holds(bytes, i + |s|, t)
  {
    Utf8.HoldsConcat(bytes, i, s, t);
  }

  /** `nextField` reads back the header that `writeFieldHeader_` wrote. */
  lemma NextHeader(bytes: seq<byte>, st: State, num: nat, wire: nat)
    requires num < 0x2000_0000 && wire <= 5
    requires 0 <= st.cursor && Holds(bytes, st.cursor, Header(num, wire))
    requires st.cursor + |Header(num, wire)| <= st.end
    ensures NextField(bytes, st) == Ok((true, State(st.cursor + |Header(num, wire)|, st.end, num, wire)))
  {
    hide Varint32, Varint;
    ReadUnsigned(bytes, st.cursor, st.end, num * 8 + wire);
  }

  lemma {:induction false} SkipTerminated(bytes: seq<byte>, i: nat, s: seq<byte>)
    requires Terminated(s) && Holds(bytes, i, s)
    ensures SkipVarint(bytes, i) == i + |s|
    decreases |s|
  {
    assert bytes[i] == bytes[i..i + |s|][0];
    if |s| > 1 {
      assert bytes[i + 1..i + 1 + |s[1..]|] == bytes[i..i + |s|][1..];
      SkipTerminated(bytes, i + 1, s[1..]);
    }
  }

  lemma SkipWritten(bytes: seq<byte>, i: nat, n: nat)
    requires Holds(bytes, i, Varint(n))
    ensures SkipVarint(bytes, i) == i + |Varint(n)|
  {
    hide Varint, SkipVarint;
    VarintSound(n);
    SkipTerminated(bytes, i, Varint(n));
  }

  /** A length prefix, read in front of its body. */
  lemma LengthRead(bytes: seq<byte>, cursor: nat, end: int, body: seq<byte>)
    requires |body| < TWO_TO_32 && Holds(bytes, cursor, Delimited(body)) && cursor + |Delimited(body)| <= end
    ensures Varint32(bytes, cursor, end) == Ok((|body|, cursor + |Varint(|body|)|))
    ensures Holds(bytes, cursor + |Varint(|body|)|, body)
  {
    hide Varint, Varint32;
    HoldsParts(bytes, cursor, Varint(|body|), body);
    ReadUnsigned(bytes, cursor, end, |body|);
  }

  lemma {:induction false} PackedVarintsBack(bytes: seq<byte>, cursor: nat, end: int, vs: seq<int>)
    requires AllSigned(vs) && Holds(bytes, cursor, SignedVarints(vs)) && cursor + |SignedVarints(vs)| <= end
    ensures PackedVarints(bytes, cursor, end, cursor + |SignedVarints(vs)|) == Ok((vs, cursor + |SignedVarints(vs)|))
    decreases |vs|
  {
    hide Varint, Varint32, SignExtend, SplitVarint64, Signed, Holds;
    if vs != [] {
      var head := Varint(SignExtend(vs[0]));
      HoldsParts(bytes, cursor, head, SignedVarints(vs[1..]));
      ReadSigned(bytes, cursor, end, vs[0]);
      PackedVarintsBack(bytes, cursor + |head|, end, vs[1..]);
      assert [vs[0]] + vs[1..] == vs;
    }
  }

  lemma WordBack(bytes: seq<byte>, cursor: nat, n: uint32)
    requires Holds(bytes, cursor, Fixed32(n))
    ensures Word32(bytes, cursor) == n
  {
    hide FourBytes;
    var w := bytes[cursor..cursor + 4];
    assert w[0] == bytes[cursor] && w[1] == bytes[cursor + 1] && w[2] == bytes[cursor + 2] && w[3] == bytes[cursor + 3];
    WordOfBytes(n);
  }

  lemma {:induction false} PackedWordsBack(bytes: seq<byte>, cursor: nat, end: int, ns: seq<int>)
    requires AllUnsigned(ns) && Holds(bytes, cursor, Words32(ns)) && cursor + |Words32(ns)| <= end
    ensures PackedWords(bytes, cursor, end, cursor + |Words32(ns)|) == Ok((ns, cursor + |Words32(ns)|))
    decreases |ns|
  {
    hide Fixed32, Word32;
    if ns != [] {
      HoldsParts(bytes, cursor, Fixed32(ns[0]), Words32(ns[1..]));
      WordBack(bytes, cursor, ns[0]);
      PackedWordsBack(bytes, cursor + 4, end, ns[1..]);
      assert [ns[0]] + ns[1..] == ns;
    }
  }

  /** Fields with a length: the reader takes exactly that many bytes. */
  lemma DelimitedBack(ss: Schemas, ty: FieldType, f: Field, bytes: seq<byte>, cursor: nat, end: int)
    requires Writable(f) && Fits(ss, ty, f)
    requires f.value.Bytes? || f.value.Str? || f.value.PackedInt32? || f.value.PackedFixed32?
    requires Holds(bytes, cursor, EncodeScalar(f.value)) && cursor + |EncodeScalar(f.value)| <= end
    ensures ReadScalar(ty, bytes, cursor, end) == Ok((Seen(ss, ty, f), cursor + |EncodeScalar(f.value)|))
  {
    hide Varint, Varint32, PackedVarints, PackedWords, SignedVarints, Words32, Utf8.Encode, Utf8.Decode, Utf8.Cleaned;
    match f.value
    case Bytes(data) => LengthRead(bytes, cursor, end, data);
    case Str(units) =>
      LengthRead(bytes, cursor, end, Utf8.Encode(units));
      Utf8.DecodeEncoded(bytes, cursor + |Varint(|Utf8.Encode(units)|)|, units);
    case _ => PackedBack(ss, ty, f, bytes, cursor, end);
  }

  lemma PackedBack(ss: Schemas, ty: FieldType, f: Field, bytes: seq<byte>, cursor: nat, end: int)
    requires Writable(f) && Fits(ss, ty, f)
    requires f.value.PackedInt32? || f.value.PackedFixed32?
    requires Holds(bytes, cursor, EncodeScalar(f.value)) && cursor + |EncodeScalar(f.value)| <= end
    ensures ReadScalar(ty, bytes, cursor, end) == Ok((Seen(ss, ty, f), cursor + |EncodeScalar(f.value)|))
  {
    hide Varint, Varint32, PackedVarints, PackedWords, SignedVarints, Words32, Utf8.Encode, Utf8.Decode, Utf8.Cleaned;
    match f.value
    case PackedInt32(vs) =>
      LengthRead(bytes, cursor, end, SignedVarints(vs));
      PackedVarintsBack(bytes, cursor + |Varint(|SignedVarints(vs)|)|, end, vs);
    case PackedFixed32(ns) =>
      LengthRead(bytes, cursor, end, Words32(ns));
      PackedWordsBack(bytes, cursor + |Varint(|Words32(ns)|)|, end, ns);
  }

  lemma HashFieldBack(ss: Schemas, f: Field, bytes: seq<byte>, cursor: nat, end: int)
    requires Writable(f) && f.value.VarintHash?
    requires Holds(bytes, cursor, EncodeScalar(f.value))
    ensures ReadScalar(TVarintHash, bytes, cursor, end) == Ok((Seen(ss, TVarintHash, f), cursor + |EncodeScalar(f.value)|))
  {
    hide Varint, SplitVarint64, HashValue, HashOf;
    Reader.HashOfValue(f.value.hash);
    ReadSplit(bytes, cursor, HashValue(f.value.hash));
  }

  lemma TextFieldBack(ss: Schemas, f: Field, bytes: seq<byte>, cursor: nat, end: int)
    requires Writable(f) && f.value.Int64Text?
    requires Holds(bytes, cursor, EncodeScalar(f.value))
    ensures ReadScalar(TInt64Text, bytes, cursor, end) == Ok((Seen(ss, TInt64Text, f), cursor + |EncodeScalar(f.value)|))
  {
    hide Varint, SplitVarint64, Signed, SignedText, TextNumber, ParseSigned;
    ReadSplit(bytes, cursor, TextNumber(f.value.text));
  }

  lemma SmallFieldBack(ss: Schemas, ty: FieldType, f: Field, bytes: seq<byte>, cursor: nat, end: int)
    requires Writable(f) && Fits(ss, ty, f)
    requires f.value.UInt32? || f.value.Int32? || f.value.SInt32? || f.value.Enum?
    requires Holds(bytes, cursor, EncodeScalar(f.value)) && cursor + |EncodeScalar(f.value)| <= end
    ensures ReadScalar(ty, bytes, cursor, end) == Ok((Seen(ss, ty, f), cursor + |EncodeScalar(f.value)|))
  {
    hide Varint, Varint32, SplitVarint64, SignExtend, Signed, Zigzag, Unzigzag;
    match f.value
    case UInt32(n) => ReadUnsigned(bytes, cursor, end, n);
    case Int32(v) => ReadSigned(bytes, cursor, end, v);
    case SInt32(v) =>
      ZigzagSmall(v);
      ReadUnsigned(bytes, cursor, end, Zigzag(v));
    case Enum(v) => ReadSigned(bytes, cursor, end, v);
  }

  /** Every scalar reader returns what its writer was given, and stops behind it. */
  lemma ScalarBack(ss: Schemas, ty: FieldType, f: Field, bytes: seq<byte>, cursor: nat, end: int)
    requires Writable(f) && Fits(ss, ty, f) && !f.value.Message? && !f.value.Group?
    requires Holds(bytes, cursor, EncodeScalar(f.value)) && cursor + |EncodeScalar(f.value)| <= end
    ensures ReadScalar(ty, bytes, cursor, end) == Ok((Seen(ss, ty, f), cursor + |EncodeScalar(f.value)|))
  {
    hide ReadScalar, EncodeScalar, Slice, Word32, Fixed32, Holds;
    match f.value
    case UInt32(_) | Int32(_) | SInt32(_) | Enum(_) => SmallFieldBack(ss, ty, f, bytes, cursor, end);
    case Int64Text(_) => TextFieldBack(ss, f, bytes, cursor, end);
    case VarintHash(_) => HashFieldBack(ss, f, bytes, cursor, end);
    case Fixed32Word(n) => FixedFieldBack(ss, ty, f, bytes, cursor, end);
    case FixedHash(hash) => FixedFieldBack(ss, ty, f, bytes, cursor, end);
    case Bytes(_) | Str(_) | PackedInt32(_) | PackedFixed32(_) => DelimitedBack(ss, ty, f, bytes, cursor, end);
  }

  lemma FixedFieldBack(ss: Schemas, ty: FieldType, f: Field, bytes: seq<byte>, cursor: nat, end: int)
    requires Writable(f) && Fits(ss, ty, f) && (f.value.Fixed32Word? || f.value.FixedHash?)
    requires Holds(bytes, cursor, EncodeScalar(f.value)) && cursor + |EncodeScalar(f.value)| <= end
    ensures ReadScalar(ty, bytes, cursor, end) == Ok((Seen(ss, ty, f), cursor + |EncodeScalar(f.value)|))
  {
    hide Slice, Word32, Fixed32;
    if f.value.Fixed32Word? {
      WordBack(bytes, cursor, f.value.n);
    } else {
      SliceInside(bytes, cursor, 8);
    }
  }

  lemma ZigzagSmall(v: int32)
    ensures 0 <= Zigzag(v) < TWO_TO_32 && ToUint32(Zigzag(v)) == Zigzag(v) && Unzigzag(Zigzag(v)) == v
  {
  }

  // ----- whole messages -----

  /** What has been read, in front of what is read from there on. */
  function Prepend(fs: seq<Field>, rest: Result<(seq<Field>, State)>): Result<(seq<Field>, State)> {
    match rest
    case Ok(more) => Ok((fs + more.0, more.1))
    case Err(e) => Err(e)
  }

  lemma PrependTwice(fs: seq<Field>, gs: seq<Field>, rest: Result<(seq<Field>, State)>)
    ensures Prepend(fs, Prepend(gs, rest)) == Prepend(fs + gs, rest)
  {
    if rest.Ok? {
      assert fs + (gs + rest.value.0) == fs + gs + rest.value.0;
    }
  }

  lemma PrependNothing(rest: Result<(seq<Field>, State)>)
    ensures Prepend([], rest) == rest
  {
    if rest.Ok? {
      assert [] + rest.value.0 == rest.value.0;
    }
  }

  /** `skipField` lands where a full read of the field would, for every field it can be asked to skip. */
  lemma SkipBack(f: Field, bytes: seq<byte>, st: State) returns (next: State)
    requires Writable(f) && Skippable(f)
    requires 0 <= st.cursor && Holds(bytes, st.cursor, EncodePayload(f)) && st.cursor + |EncodePayload(f)| <= st.end
    requires st.field == f.num && st.wire == WireType(f.value)
    ensures SkipField(bytes, st) == Ok(next)
    ensures next.cursor == st.cursor + |EncodePayload(f)| && next.end == st.end
    ensures next.wire == if f.value.Group? then END_GROUP else st.wire
  {
    hide Varint, Varint32, SkipVarint, SkipGroup, SignExtend, Zigzag, EncodeFields, AllWritable, Utf8.Encode, Header, Words32, SignedVarints;
    next := st.(cursor := st.cursor + |EncodePayload(f)|);
    if f.value.Group? {
      HoldsParts(bytes, st.cursor, EncodeFields(f.value.fields), Header(f.num, END_GROUP));
      next := SkipGroupBack(f.num, f.value.fields, bytes, st);
    } else if WireType(f.value) == DELIMITED {
      var body := DelimitedBody(f);
      LengthRead(bytes, st.cursor, st.end, body);
    } else if WireType(f.value) == VARINT {
      var n := VarintBody(f);
      SkipWritten(bytes, st.cursor, n);
    }
  }

  lemma DelimitedBody(f: Field) returns (body: seq<byte>)
    requires Writable(f) && WireType(f.value) == DELIMITED
    ensures EncodePayload(f) == Delimited(body) && |body| < TWO_TO_32
  {
    hide EncodeFields, AllWritable, Utf8.Encode, SignedVarints, Delimited;
    match f.value
    case Bytes(data) => body := data;
    case Str(units) => body := Utf8.Encode(units);
    case PackedInt32(vs) => body := SignedVarints(vs);
    case PackedFixed32(ns) => body := Words32(ns);
    case Message(fields) => body := EncodeFields(fields);
  }

  lemma VarintBody(f: Field) returns (n: nat)
    requires WireType(f.value) == VARINT
    ensures EncodePayload(f) == Varint(n)
  {
    hide Varint, SignExtend, Zigzag, HashValue, TextNumber;
    match f.value
    case UInt32(x) => n := Unsigned32(x);
    case Int32(v) => n := SignExtend(Signed32(v));
    case SInt32(v) => n := Zigzag(Signed32(v));
    case Enum(v) => n := SignExtend(Signed32(v));
    case Int64Text(text) => n := TextNumber(text);
    case VarintHash(hash) => n := HashValue(hash);
  }

  /** Skipping a group of varint fields and groups whose numbers balance: the body, then the end tag. */
  lemma SkipGroupBack(num: nat, fs: seq<Field>, bytes: seq<byte>, st: State) returns (next: State)
    requires num < 0x2000_0000 && AllWritable(fs) && OnVarints(fs) && Balanced(Numbers(fs))
    requires 0 <= st.cursor && Holds(bytes, st.cursor, EncodeFields(fs))
    requires Holds(bytes, st.cursor + |EncodeFields(fs)|, Header(num, END_GROUP))
    requires st.cursor + |EncodeFields(fs)| + |Header(num, END_GROUP)| <= st.end
    ensures SkipGroup(bytes, st, [num]) == Ok(next)
    ensures next.cursor == st.cursor + |EncodeFields(fs)| + |Header(num, END_GROUP)| && next.end == st.end
    ensures next.wire == END_GROUP
  {
    hide Header, EncodeFields, AllWritable, OnVarints, Numbers, Opened, Holds, NextField, VarintBytes;
    NumbersWritten(fs);
    assert [num] + [] == [num];
    var last := NumbersPassed(bytes, st, Numbers(fs), num, []);
    NextHeader(bytes, last, num, END_GROUP);
    next := State(last.cursor + |Header(num, END_GROUP)|, st.end, num, END_GROUP);
  }

  /** One field: its header, then its payload read or skipped. */
  lemma FieldBack(ss: Schemas, t: string, f: Field, bytes: seq<byte>, st: State) returns (next: State)
    requires Writable(f)
    requires match TypeOf(ss, t, f.num) case None => Skippable(f) case Some(ty) => Fits(ss, ty, f)
    requires 0 <= st.cursor && Holds(bytes, st.cursor, EncodeField(f)) && st.cursor + |EncodeField(f)| <= st.end
    ensures ReadFields(ss, t, bytes, st) == Prepend(Kept(ss, t, f), ReadFields(ss, t, bytes, next))
    ensures next.cursor == st.cursor + |EncodeField(f)| && next.end == st.end && next.wire == FieldWire(ss, t, f)
    decreases f, 2
  {
    hide ValueWire, Header, EncodePayload, Fits, Skippable, Writable, ReadFields, NextField, Prepend, Kept, SkipField, ReadValue, Seen, Holds;
    var header := Header(f.num, WireType(f.value));
    HoldsParts(bytes, st.cursor, header, EncodePayload(f));
    FieldNumber(f);
    NextHeader(bytes, st, f.num, WireType(f.value));
    var inside := State(st.cursor + |header|, st.end, f.num, WireType(f.value));
    HeaderNotEmpty(f.num, WireType(f.value));
    match TypeOf(ss, t, f.num)
    case None =>
      next := SkipBack(f, bytes, inside);
      UnknownStep(ss, t, f, bytes, st, inside, next);
    case Some(ty) =>
      next := ValueBack(ss, ty, f, bytes, inside);
      KnownStep(ss, t, ty, f, bytes, st, inside, next);
  }

  /** A turn of the reader loop on a field it skips. */
  lemma UnknownStep(ss: Schemas, t: string, f: Field, bytes: seq<byte>, st: State, inside: State, next: State)
    requires TypeOf(ss, t, f.num) == None && inside.field == f.num && inside.wire != END_GROUP
    requires NextField(bytes, st) == Ok((true, inside)) && SkipField(bytes, inside) == Ok(next)
    requires st.cursor < next.cursor
    ensures ReadFields(ss, t, bytes, st) == Prepend(Kept(ss, t, f), ReadFields(ss, t, bytes, next))
  {
    hide NextField, SkipField, ReadValue, TypeOf;
    PrependNothing(ReadFields(ss, t, bytes, next));
  }

  /** A turn of the reader loop on a field it reads. */
  lemma KnownStep(ss: Schemas, t: string, ty: FieldType, f: Field, bytes: seq<byte>, st: State, inside: State, next: State)
    requires TypeOf(ss, t, f.num) == Some(ty) && inside.field == f.num && inside.wire != END_GROUP
    requires NextField(bytes, st) == Ok((true, inside)) && 0 <= inside.cursor
    requires ReadValue(ss, ty, bytes, inside) == Ok((Seen(ss, ty, f), next)) && st.cursor < next.cursor
    ensures ReadFields(ss, t, bytes, st) == Prepend(Kept(ss, t, f), ReadFields(ss, t, bytes, next))
  {
    hide NextField, SkipField, ReadValue, TypeOf, Seen;
  }

  lemma FieldNumber(f: Field)
    requires Writable(f)
    ensures 1 <= f.num < 0x2000_0000 && WireType(f.value) <= 5 && WireType(f.value) != END_GROUP
  {
  }

  lemma HeaderNotEmpty(num: nat, wire: nat)
    ensures |Header(num, wire)| > 0
  {
  }

  lemma ValueBack(ss: Schemas, ty: FieldType, f: Field, bytes: seq<byte>, st: State) returns (next: State)
    requires Writable(f) && Fits(ss, ty, f)
    requires 0 <= st.cursor && Holds(bytes, st.cursor, EncodePayload(f)) && st.cursor + |EncodePayload(f)| <= st.end
    requires st.wire == WireType(f.value)
    ensures ReadValue(ss, ty, bytes, st) == Ok((Seen(ss, ty, f), next))
    ensures next.cursor == st.cursor + |EncodePayload(f)| && next.end == st.end && next.wire == ValueWire(ss, ty, f)
    decreases f, 1
  {
    hide Header, EncodeFields, EncodeScalar, ReadScalar, AllWritable, Varint, Varint32, ReadFields, Readable, LastWire;
    if f.value.Message? {
      next := MessageBack(ss, ty.name, f, bytes, st);
    } else if f.value.Group? {
      next := GroupBack(ss, ty.name, f, bytes, st);
    } else {
      next := st.(cursor := st.cursor + |EncodePayload(f)|);
      ScalarBack(ss, ty, f, bytes, st.cursor, st.end);
    }
  }

  /** `readMessage` returns the nested tree, restores the outer end and leaves the cursor behind it. */
  lemma MessageBack(ss: Schemas, name: string, f: Field, bytes: seq<byte>, st: State) returns (next: State)
    requires f.value.Message? && Writable(f) && Fits(ss, TMessage(name), f)
    requires 0 <= st.cursor && Holds(bytes, st.cursor, EncodePayload(f)) && st.cursor + |EncodePayload(f)| <= st.end
    requires st.wire == DELIMITED
    ensures ReadValue(ss, TMessage(name), bytes, st) == Ok((Seen(ss, TMessage(name), f), next))
    ensures next.cursor == st.cursor + |EncodePayload(f)| && next.end == st.end
    ensures next.wire == ValueWire(ss, TMessage(name), f)
    decreases f, 0
  {
    hide EncodeFields, AllWritable, Varint, Varint32, Readable, Project, Prepend, Delimited, LastWire;
    var fs := f.value.fields;
    LengthRead(bytes, st.cursor, st.end, EncodeFields(fs));
    var inside := st.(cursor := st.cursor + |Varint(|EncodeFields(fs)|)|, end := st.cursor + |Delimited(EncodeFields(fs))|);
    DelimitedLength(EncodeFields(fs));
    var last := FieldsBack(ss, name, fs, bytes, inside);
    PrependLast(Project(ss, name, fs), last);
    next := last.(cursor := inside.end, end := st.end);
  }

  lemma DelimitedLength(body: seq<byte>)
    ensures |Delimited(body)| == |Varint(|body|)| + |body|
  {
  }

  lemma PrependLast(fs: seq<Field>, st: State)
    ensures Prepend(fs, Ok(([], st))) == Ok((fs, st))
  {
    assert fs + [] == fs;
  }

  lemma StopsAtEndGroup(ss: Schemas, t: string, bytes: seq<byte>, st: State, next: State)
    requires NextField(bytes, st) == Ok((true, next)) && next.wire == END_GROUP
    ensures ReadFields(ss, t, bytes, st) == Ok(([], next))
  {
    hide NextField;
  }

  lemma GroupBack(ss: Schemas, name: string, f: Field, bytes: seq<byte>, st: State) returns (next: State)
    requires f.value.Group? && Writable(f) && Fits(ss, TGroup(name), f)
    requires 0 <= st.cursor && Holds(bytes, st.cursor, EncodePayload(f)) && st.cursor + |EncodePayload(f)| <= st.end
    requires st.wire == START_GROUP
    ensures ReadValue(ss, TGroup(name), bytes, st) == Ok((Seen(ss, TGroup(name), f), next))
    ensures next.cursor == st.cursor + |EncodePayload(f)| && next.end == st.end
    ensures next.wire == ValueWire(ss, TGroup(name), f)
    decreases f, 0
  {
    hide EncodeFields, AllWritable, Header, Readable, Project, NextField, Holds, ReadFields;
    next := GroupEnds(ss, name, f.value.fields, f.num, bytes, st);
  }

  /** `readGroup` ends at any end tag, whatever its number. */
  lemma GroupEnds(ss: Schemas, name: string, fs: seq<Field>, k: nat, bytes: seq<byte>, st: State) returns (next: State)
    requires AllWritable(fs) && Readable(ss, name, fs) && k < 0x2000_0000
    requires 0 <= st.cursor && Holds(bytes, st.cursor, EncodeFields(fs) + Header(k, END_GROUP))
    requires st.cursor + |EncodeFields(fs)| + |Header(k, END_GROUP)| <= st.end && st.wire == START_GROUP
    ensures next == State(st.cursor + |EncodeFields(fs)| + |Header(k, END_GROUP)|, st.end, k, END_GROUP)
    ensures ReadValue(ss, TGroup(name), bytes, st) == Ok((Group(Project(ss, name, fs)), next))
    decreases fs, 3
  {
    hide EncodeFields, AllWritable, Header, Readable, Project, Prepend, NextField, Holds;
    var footer := Header(k, END_GROUP);
    HoldsParts(bytes, st.cursor, EncodeFields(fs), footer);
    var last := FieldsBack(ss, name, fs, bytes, st);
    NextHeader(bytes, last, k, END_GROUP);
    next := State(last.cursor + |footer|, st.end, k, END_GROUP);
    StopsAtEndGroup(ss, name, bytes, last, next);
    PrependLast(Project(ss, name, fs), next);
  }

  /** The reader loop over written fields returns the known ones and goes on behind them, whatever
      follows: the whole-message round trip and the projection to a smaller schema in one. */
  lemma FieldsBack(ss: Schemas, t: string, fs: seq<Field>, bytes: seq<byte>, st: State) returns (next: State)
    requires AllWritable(fs) && Readable(ss, t, fs)
    requires 0 <= st.cursor && Holds(bytes, st.cursor, EncodeFields(fs)) && st.cursor + |EncodeFields(fs)| <= st.end
    ensures ReadFields(ss, t, bytes, st) == Prepend(Project(ss, t, fs), ReadFields(ss, t, bytes, next))
    ensures next.cursor == st.cursor + |EncodeFields(fs)| && next.end == st.end
    ensures next.wire == LastWire(ss, t, fs, st.wire)
    decreases fs, 2
  {
    hide EncodeField, Writable, ReadFields, Prepend, Kept, FieldWire;
    if fs == [] {
      next := st;
      PrependNothing(ReadFields(ss, t, bytes, st));
    } else {
      HoldsParts(bytes, st.cursor, EncodeField(fs[0]), EncodeFields(fs[1..]));
      var middle := FieldBack(ss, t, fs[0], bytes, st);
      next := FieldsBack(ss, t, fs[1..], bytes, middle);
      PrependTwice(Kept(ss, t, fs[0]), Project(ss, t, fs[1..]), ReadFields(ss, t, bytes, next));
    }
  }
}
