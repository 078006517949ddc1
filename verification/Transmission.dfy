/** Whole messages, written and read back. */
module Transmission {
  import opened Js
  import opened Words
  import opened Varints
  import opened Decimal
  import opened Arith
  import opened Decoder
  import opened Wire
  import opened Parsing
  import opened RoundTrip
  import Skipping
  import Utf8
  import Reader
  import Writer

  /** Reading a whole written message consumes exactly its bytes and yields its known fields. */
  lemma WholeMessage(ss: Schemas, t: string, fs: seq<Field>)
    requires AllWritable(fs) && Readable(ss, t, fs)
    ensures var bytes := EncodeFields(fs);
      exists last: State :: last.cursor == last.end == |bytes|
                            && ReadFields(ss, t, bytes, State(0, |bytes|, -1, -1)) == Ok((Project(ss, t, fs), last))
  {
    hide EncodeFields, AllWritable, Readable, Project, Prepend;
    var bytes := EncodeFields(fs);
    assert bytes[0..|bytes|] == bytes;
    var last := FieldsBack(ss, t, fs, bytes, State(0, |bytes|, -1, -1));
    PrependLast(Project(ss, t, fs), last);
  }

  /** From a new writer over its result buffer to a new reader. */
  method Transmit(ss: Schemas, t: string, fs: seq<Field>) returns (r: Result<seq<Field>>)
    requires AllWritable(fs) && Readable(ss, t, fs)
    ensures r == Ok(Project(ss, t, fs))
  {
    hide EncodeFields, AllWritable, Readable, Project, ReadFields;
    var writer := new Writer.BinaryWriter();
    writer.WriteFields(fs);
    var buffer := writer.GetResultBuffer();
    assert buffer[..] == [] + EncodeFields(fs) == EncodeFields(fs);
    var reader := new Reader.BinaryReader(buffer[..]);
    WholeMessage(ss, t, fs);
    r := reader.DeserializeFields(ss, t);
  }

  // ----- when the tree comes back unchanged -----

  predicate Plain(digits: string) {
    AllDigits(digits) && |digits| > 0 && (|digits| == 1 || digits[0] != '0')
  }

  /** A signed 64-bit integer as it is printed: no leading zeros, no minus zero, in range. */
  predicate CanonicalText(text: string) {
    if text != "" && text[0] == '-' then Plain(text[1..]) && 0 < Number(text[1..]) <= TWO_TO_63
    else Plain(text) && Number(text) < TWO_TO_63
  }

  ghost predicate Faithful(ss: Schemas, ty: FieldType, f: Field)
    decreases f, 0
  {
    match f.value
    case Int64Text(text) => CanonicalText(text)
    case Str(units) => Utf8.HighsPaired(units)
    case Message(fields) => ty.TMessage? && AllFaithful(ss, ty.name, fields)
    case Group(fields) => ty.TGroup? && AllFaithful(ss, ty.name, fields)
    case _ => true
  }

  /** What is read of fields one behind the other is what is read of the first and then of the others. */
  lemma {:induction false} ProjectJoined(ss: Schemas, t: string, fs: seq<Field>, gs: seq<Field>)
    ensures Project(ss, t, fs + gs) == Project(ss, t, fs) + Project(ss, t, gs)
    decreases |fs|
  {
    hide Kept;
    if fs == [] {
      assert fs + gs == gs;
    } else {
      assert (fs + gs)[1..] == fs[1..] + gs;
      ProjectJoined(ss, t, fs[1..], gs);
    }
  }

  /** A field is read exactly when its number is in the schema of the message. Numbers, bytes and packed values are
      what was written; the text of a number is that of a signed 64-bit number; a message or group holds what is
      read of it by the schema of its own type. */
  lemma ProjectOne(ss: Schemas, t: string, f: Field)
    ensures !(t in ss && f.num in ss[t]) ==> Project(ss, t, [f]) == []
    ensures t in ss && f.num in ss[t] ==>
      && |Project(ss, t, [f])| == 1 && Project(ss, t, [f])[0].num == f.num
      && match f.value
         case Int64Text(text) =>
           exists v: int :: -0x8000_0000_0000_0000 <= v < 0x8000_0000_0000_0000
                            && (v - TextNumber(text)) % 0x1_0000_0000_0000_0000 == 0
                            && Project(ss, t, [f])[0].value == Int64Text(SignedText(v))
         case Str(units) => Utf8.HighsPaired(units) ==> Project(ss, t, [f])[0].value == f.value
         case Message(fields) =>
           ss[t][f.num].TMessage? ==> Project(ss, t, [f])[0].value == Message(Project(ss, ss[t][f.num].name, fields))
         case Group(fields) =>
           ss[t][f.num].TGroup? ==> Project(ss, t, [f])[0].value == Group(Project(ss, ss[t][f.num].name, fields))
         case scalar => Project(ss, t, [f])[0].value == scalar
  {
    hide SignedText, TextNumber, Utf8.Cleaned, Utf8.HighsPaired;
    assert [f][1..] == [];
    assert Project(ss, t, [f]) == Kept(ss, t, f);
    if f.value.Int64Text? {
      SignedIs(TextNumber(f.value.text));
    } else if f.value.Str? {
      Utf8.CleanedIdentity(f.value.units);
    }
  }

  lemma SignedIs(n: nat)
    requires n < 0x1_0000_0000_0000_0000
    ensures -0x8000_0000_0000_0000 <= Signed(n) < 0x8000_0000_0000_0000 && (Signed(n) - n) % 0x1_0000_0000_0000_0000 == 0
  {
  }

  /** Every field is known, numbers in texts are canonical, and high surrogates are paired. */
  ghost predicate AllFaithful(ss: Schemas, t: string, fs: seq<Field>)
    decreases fs, 1
  {
    fs == [] || (AllFaithful(ss, t, fs[1..]) &&
                 match TypeOf(ss, t, fs[0].num)
                 case None => false
                 case Some(ty) => Faithful(ss, ty, fs[0]))
  }

  lemma UnsignedPlain(n: nat)
    ensures Plain(Unsigned(n)) && Number(Unsigned(n)) == n
    decreases n
  {
    hide Number;
    UnsignedDenotes(n);
    if n >= 10 {
      UnsignedPlain(n / 10);
      UnsignedDenotes(n / 10);
    }
  }

  lemma PlainStart(digits: string)
    requires Plain(digits)
    ensures digits != "" && digits[0] != '-'
  {
  }

  lemma SignedTextCanonical(v: int)
    requires -TWO_TO_63 <= v < TWO_TO_63
    ensures CanonicalText(SignedText(v))
  {
    hide Unsigned, Number, Plain;
    var magnitude := if v < 0 then -v else v;
    UnsignedPlain(magnitude);
    PlainStart(Unsigned(magnitude));
    if v < 0 {
      assert SignedText(v)[1..] == Unsigned(magnitude);
    }
  }

  lemma CanonicalPrints(text: string)
    requires CanonicalText(text)
    ensures text == SignedText(Signed(TextNumber(text)))
  {
    hide Unsigned, Number;
    if text[0] == '-' {
      CanonicalUnique(text[1..]);
      assert text == "-" + text[1..];
    } else {
      CanonicalUnique(text);
    }
  }

  /** Decimal strings survive exactly when they are canonical. */
  lemma TextSurvives(text: string)
    ensures SignedText(Signed(TextNumber(text))) == text <==> CanonicalText(text)
  {
    hide CanonicalText, SignedText, TextNumber;
    SignedTextCanonical(Signed(TextNumber(text)));
    if CanonicalText(text) {
      CanonicalPrints(text);
    }
  }

  lemma SeenUnchanged(ss: Schemas, ty: FieldType, f: Field)
    requires Fits(ss, ty, f)
    ensures Seen(ss, ty, f) == f.value <==> Faithful(ss, ty, f)
    decreases f, 0
  {
    hide Project, AllFaithful, Readable, CanonicalText, SignedText, TextNumber, Utf8.Cleaned, Utf8.HighsPaired;
    match f.value
    case Int64Text(text) => TextSurvives(text);
    case Str(units) => Utf8.CleanedIdentity(units);
    case Message(fields) => ProjectUnchanged(ss, ty.name, fields);
    case Group(fields) => ProjectUnchanged(ss, ty.name, fields);
    case _ =>
  }

  /** The tree comes back exactly as it was written if and only if it is faithful. */
  lemma ProjectUnchanged(ss: Schemas, t: string, fs: seq<Field>)
    requires Readable(ss, t, fs)
    ensures Project(ss, t, fs) == fs <==> AllFaithful(ss, t, fs)
    ensures |Project(ss, t, fs)| <= |fs|
    decreases fs, 1
  {
    hide Seen, Faithful, Fits, TypeOf;
    if fs != [] {
      ProjectUnchanged(ss, t, fs[1..]);
      assert fs == [fs[0]] + fs[1..];
      match TypeOf(ss, t, fs[0].num)
      case None =>
      case Some(ty) =>
        SeenUnchanged(ss, ty, fs[0]);
        assert Project(ss, t, fs)[1..] == Project(ss, t, fs[1..]) && Project(ss, t, fs)[0].num == fs[0].num;
    }
  }

  // ----- reading with less of the schema -----

  /** Every field that `small` knows, `full` knows with the same type. */
  ghost predicate Within(small: Schemas, full: Schemas) {
    forall t: string, num: int :: TypeOf(small, t, num).Some? ==> TypeOf(full, t, num) == TypeOf(small, t, num)
  }

  lemma {:induction false} CleanedPaired(s: seq<Utf8.unit>)
    ensures Utf8.HighsPaired(Utf8.Cleaned(s))
    ensures s != [] ==> Utf8.Cleaned(s) != []
    ensures s != [] && !Utf8.IsHigh(s[0]) ==> Utf8.Cleaned(s)[0] == s[0]
  {
    if s != [] {
      CleanedPaired(s[1..]);
      if !(Utf8.IsHigh(s[0]) && |s| > 1 && !Utf8.IsLow(s[1])) {
        PairedCons(s[0], Utf8.Cleaned(s[1..]));
      }
    }
  }

  lemma PairedCons(u: Utf8.unit, rest: seq<Utf8.unit>)
    requires Utf8.HighsPaired(rest)
    requires Utf8.IsHigh(u) && rest != [] ==> Utf8.IsLow(rest[0])
    ensures Utf8.HighsPaired([u] + rest)
  {
  }

  lemma TextSeenTwice(text: string)
    ensures TextNumber(SignedText(Signed(TextNumber(text)))) == TextNumber(text)
  {
    hide ParseSigned, SignedText, Signed;
    ParsePrintSigned(TextNumber(text));
  }

  lemma ScalarSeenTwice(small: Schemas, full: Schemas, ty: FieldType, f: Field)
    requires !f.value.Message? && !f.value.Group?
    ensures Seen(small, ty, Field(f.num, Seen(full, ty, f))) == Seen(small, ty, f)
  {
    hide SignedText, TextNumber, Utf8.Cleaned, Utf8.HighsPaired, Signed;
    if f.value.Int64Text? {
      TextSeenTwice(f.value.text);
    } else if f.value.Str? {
      CleanedPaired(f.value.units);
      Utf8.CleanedIdentity(Utf8.Cleaned(f.value.units));
    }
  }

  lemma SeenTwice(small: Schemas, full: Schemas, ty: FieldType, f: Field)
    requires Within(small, full)
    ensures Seen(small, ty, Field(f.num, Seen(full, ty, f))) == Seen(small, ty, f)
    decreases f, 0
  {
    hide Project, Within;
    match f.value
    case Message(fields) => if ty.TMessage? { ProjectTwice(small, full, ty.name, fields); }
    case Group(fields) => if ty.TGroup? { ProjectTwice(small, full, ty.name, fields); }
    case _ => ScalarSeenTwice(small, full, ty, f);
  }

  /** A smaller schema sees exactly the known fields of what the full schema sees. */
  lemma ProjectTwice(small: Schemas, full: Schemas, t: string, fs: seq<Field>)
    requires Within(small, full)
    ensures Project(small, t, Project(full, t, fs)) == Project(small, t, fs)
    decreases fs, 1
  {
    hide Seen;
    if fs != [] {
      var rest := Project(full, t, fs[1..]);
      ProjectTwice(small, full, t, fs[1..]);
      match TypeOf(full, t, fs[0].num)
      case None =>
        assert Project(full, t, fs) == rest && Kept(small, t, fs[0]) == [];
        assert Project(small, t, fs) == Project(small, t, fs[1..]);
      case Some(ty) =>
        var first := Field(fs[0].num, Seen(full, ty, fs[0]));
        assert ([first] + rest)[1..] == rest;
        SeenTwice(small, full, ty, fs[0]);
    }
  }

  /** Unknown-field projection: what a reader with a smaller schema returns is the projection of what
      a reader with the full schema returns. */
  lemma UnknownFieldProjection(small: Schemas, full: Schemas, t: string, fs: seq<Field>)
    requires AllWritable(fs) && Readable(small, t, fs) && Readable(full, t, fs) && Within(small, full)
    ensures var bytes, start := EncodeFields(fs), State(0, |EncodeFields(fs)|, -1, -1);
      && ReadFields(full, t, bytes, start).Ok? && ReadFields(small, t, bytes, start).Ok?
      && ReadFields(small, t, bytes, start).value.0 == Project(small, t, ReadFields(full, t, bytes, start).value.0)
  {
    hide EncodeFields, AllWritable, Readable, Project, ReadFields, Within;
    WholeMessage(small, t, fs);
    WholeMessage(full, t, fs);
    ProjectTwice(small, full, t, fs);
  }

  // ----- where groups go wrong -----

  /** `readGroup` trusts the last wire type it has seen: at the end of the block, a group whose end tag
      is missing is accepted exactly when the last tag read inside it was the end tag of another group. */
  lemma TruncatedGroup(ss: Schemas, name: string, num: nat, fs: seq<Field>)
    requires AllWritable(fs) && Readable(ss, name, fs)
    ensures var bytes := EncodeFields(fs);
      ReadValue(ss, TGroup(name), bytes, State(0, |bytes|, num, START_GROUP)).Ok?
      <==> LastWire(ss, name, fs, START_GROUP) == END_GROUP
  {
    hide EncodeFields, AllWritable, Readable, Project, Prepend, LastWire;
    var bytes := EncodeFields(fs);
    assert bytes[0..|bytes|] == bytes;
    var last := FieldsBack(ss, name, fs, bytes, State(0, |bytes|, num, START_GROUP));
    PrependLast(Project(ss, name, fs), last);
  }

  /** A truncated group that `readGroup` accepts: a group that holds an empty group. */
  lemma TruncatedGroupAccepted(ss: Schemas, name: string, num: nat, inner: nat)
    requires 1 <= inner < 0x2000_0000 && TypeOf(ss, name, inner) in {None, Some(TGroup(name))}
    ensures var bytes := EncodeFields([Field(inner, Group([]))]);
      ReadValue(ss, TGroup(name), bytes, State(0, |bytes|, num, START_GROUP)).Ok?
  {
    hide EncodeFields, ReadFields;
    var f, none: seq<Field> := Field(inner, Group([])), [];
    assert [f][1..] == none && FieldWire(ss, name, f) == END_GROUP;
    assert LastWire(ss, name, [f], START_GROUP) == LastWire(ss, name, none, END_GROUP);
    EmptyGroupFits(ss, name, inner);
    TruncatedGroup(ss, name, num, [f]);
  }

  lemma EmptyGroupFits(ss: Schemas, name: string, inner: nat)
    requires 1 <= inner < 0x2000_0000 && TypeOf(ss, name, inner) in {None, Some(TGroup(name))}
    ensures AllWritable([Field(inner, Group([]))]) && Readable(ss, name, [Field(inner, Group([]))])
  {
    var f, none: seq<Field> := Field(inner, Group([])), [];
    assert [f][1..] == none && AllWritable(none) && Readable(ss, name, none);
    assert Skipping.OnVarints(none) && Skipping.Numbers(none) == [] && Skipping.Balanced([]);
    assert Skippable(f) && Writable(f) && Fits(ss, TGroup(name), f);
  }

  /** `readGroup` does not look at the number of the end tag: a group closed by the end tag of any other
      group reads like the group itself. Only the header left behind tells whether the tag was its own. */
  lemma MismatchedEndAccepted(ss: Schemas, name: string, num: nat, fs: seq<Field>, k: nat)
    requires AllWritable(fs) && Readable(ss, name, fs) && k < 0x2000_0000
    ensures var bytes := EncodeFields(fs) + Header(k, END_GROUP);
      var read := ReadValue(ss, TGroup(name), bytes, State(0, |bytes|, num, START_GROUP));
      && read.Ok? && read.value.0 == Group(Project(ss, name, fs)) && read.value.1.cursor == |bytes|
      && (bytes == EncodePayload(Field(num, Group(fs))) <==> read.value.1.field == num)
  {
    hide EncodeFields, AllWritable, Readable, Project, Header, ReadFields;
    var bytes := EncodeFields(fs) + Header(k, END_GROUP);
    assert bytes[0..|bytes|] == bytes;
    var _ := GroupEnds(ss, name, fs, k, bytes, State(0, |bytes|, num, START_GROUP));
    EndTagsDiffer(EncodeFields(fs), k, num);
  }

  lemma EndTagsDiffer(body: seq<byte>, k: nat, num: nat)
    ensures body + Header(k, END_GROUP) == body + Header(num, END_GROUP) <==> k == num
  {
    hide Varint;
    if body + Header(k, END_GROUP) == body + Header(num, END_GROUP) {
      assert (body + Header(k, END_GROUP))[|body|..] == (body + Header(num, END_GROUP))[|body|..];
      VarintInjective(k * 8 + END_GROUP, num * 8 + END_GROUP);
    }
  }

  /** `skipGroup` takes the payload of a scalar field for a header: an unknown group with a varint
      field whose value ends in the bits 110 or 111 cannot be skipped. When a group of varint fields can be
      is the subject of `Skipping.GroupSkipped`. */
  lemma SkipGroupMisreads(num: nat, inner: nat, n: uint32)
    requires 1 <= inner < 0x2000_0000 && n % 8 > 5
    ensures var bytes := EncodePayload(Field(num, Group([Field(inner, UInt32(n))])));
      SkipField(bytes, State(0, |bytes|, num, START_GROUP)) == Err(InvalidWireType)
  {
    hide Varint, Varint32, Header;
    var f := Field(inner, UInt32(n));
    var bytes := EncodePayload(Field(num, Group([f])));
    assert [f][1..] == [] && EncodeFields([f]) == EncodeField(f) + EncodeFields([]) == EncodeField(f);
    assert bytes == Header(inner, VARINT) + (Varint(n) + Header(num, END_GROUP));
    var st := State(0, |bytes|, num, START_GROUP);
    assert bytes[0..|bytes|] == bytes;
    HoldsParts(bytes, 0, Header(inner, VARINT), Varint(n) + Header(num, END_GROUP));
    NextHeader(bytes, st, inner, VARINT);
    var next := State(|Header(inner, VARINT)|, |bytes|, inner, VARINT);
    HoldsParts(bytes, next.cursor, Varint(n), Header(num, END_GROUP));
    ReadUnsigned(bytes, next.cursor, |bytes|, n);
    HeaderNotEmpty(num, END_GROUP);
    assert NextField(bytes, next) == Err(InvalidWireType);
    HeaderNotEmpty(inner, VARINT);
    assert SkipGroup(bytes, next, [num]) == Err(InvalidWireType);
    assert SkipGroup(bytes, st, [num]) == SkipGroup(bytes, next, [num]);
  }
}
