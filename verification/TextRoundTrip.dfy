/** Parsing printed text gives the message back, whatever the printer's options. */
module TextRoundTrip {
  import opened Js
  import opened Decimal
  import opened Arith
  import opened TextEscape
  import opened Tokens
  import opened TextFormat
  import opened TextGrammar

  // ----- well-formed descriptors and messages -----

  ghost predicate IsName(s: string) {
    s != "" && IsLetter(s[0]) && forall i :: 0 <= i < |s| ==> IsPart(s[i], false)
  }

  /** The same fields in both orders, with distinct numbers and names; a group field is named like its
      type in lower case. */
  ghost predicate DescOk(reg: Registry, desc: MessageDesc) {
    var fs := desc.byNumber;
    && (forall i, j :: 0 <= i < j < |fs| ==> fs[i].number != fs[j].number && fs[i].name != fs[j].name)
    && (forall f :: f in fs <==> f in desc.byIndex)
    && (forall i, j :: 0 <= i < j < |desc.byIndex| ==> desc.byIndex[i] != desc.byIndex[j])
    && (forall i :: 0 <= i < |fs| ==> FieldOk(reg, fs, fs[i]))
  }

  ghost predicate FieldOk(reg: Registry, fs: seq<FieldDesc>, f: FieldDesc) {
    && 1 <= f.number < 0x2000_0000 && IsName(f.name)
    && (f.oneof.Some? ==> f.rule == Optional)
    && (f.ty.TGroup? ==> IsName(f.ty.name) && Lower(f.ty.name) == f.name)
    && (f.ty.TGroup? ==> f.ty.name == f.name || ByName(fs, f.ty.name) == None)
    && (f.ty.TMap? ==> f.rule == Repeated && EntryOk(DescOf(reg, f.ty.name)))
  }

  ghost predicate EntryOk(desc: MessageDesc) {
    && |desc.byNumber| == 2
    && desc.byNumber[0].number == 1 && desc.byNumber[1].number == 2
    && desc.byNumber[0].rule == Optional && desc.byNumber[1].rule == Optional
    && desc.byNumber[0].oneof == None && desc.byNumber[1].oneof == None
    && !IsMessageType(desc.byNumber[0].ty) && !desc.byNumber[1].ty.TMap?
  }

  ghost predicate RegistryOk(reg: Registry) {
    && (forall t :: t in reg.messages ==> DescOk(reg, reg.messages[t]))
    && (forall e :: e in reg.enums ==> EnumOk(reg.enums[e]))
  }

  ghost predicate EnumOk(values: seq<(string, int)>) {
    && (forall i :: 0 <= i < |values| ==> IsName(values[i].0))
    && (forall i, j :: 0 <= i < j < |values| ==> values[i].0 != values[j].0)
  }

  ghost predicate ValFits(reg: Registry, ty: Type, v: Val)
    decreases v, 0
  {
    match ty
    case TInt32 | TInt64 | TUint32 | TUint64 => v.VInt? && InRange(ty, v.n)
    case TBool => v.VBool?
    case TString => v.VBytes? && ValidUtf8(v.bytes)
    case TBytes => v.VBytes?
    case TEnum(name) => v.VInt? && EnumName(EnumValues(reg, name), v.n).Some?
    case TMessage(name) => v.VMsg? && MsgFits(reg, name, v.m)
    case TGroup(name) => v.VMsg? && MsgFits(reg, name, v.m)
    case TMap(_) => false
  }

  ghost predicate ContentFits(reg: Registry, f: FieldDesc, c: Content)
    decreases c, 1
  {
    match c
    case One(v) => f.rule == Optional && ValFits(reg, f.ty, v)
    case Many(vs) => f.rule == Repeated && vs != [] && forall i :: 0 <= i < |vs| ==> ValFits(reg, f.ty, vs[i])
    case Entries(es) =>
      && f.ty.TMap? && es != []
      && (forall i, j :: 0 <= i < j < |es| ==> KeyBefore(es[i].0, es[j].0))
      && (forall i :: 0 <= i < |es| ==>
            ValFits(reg, EntryField(reg, f.ty.name, 1).ty, es[i].0) && ValFits(reg, EntryField(reg, f.ty.name, 2).ty, es[i].1))
  }

  /** Every field is known and holds what its descriptor asks for, and unions have one member at most. */
  ghost predicate MsgFits(reg: Registry, t: string, m: Msg)
    decreases m, 2
  {
    var fs := DescOf(reg, t).byNumber;
    && t in reg.messages
    && (forall n :: n in m.fields ==> ByNumber(fs, n).Some? && ContentFits(reg, ByNumber(fs, n).value, m.fields[n]))
    && (forall i, j :: 0 <= i < |fs| && 0 <= j < |fs| && SameUnion(fs[i], fs[j], m) ==> i == j)
  }

  /** Two fields of one union that are both set. */
  ghost predicate SameUnion(f: FieldDesc, g: FieldDesc, m: Msg) {
    f.oneof.Some? && f.oneof == g.oneof && f.number in m.fields && g.number in m.fields
  }

  // ----- tokens of the pieces -----

  lemma {:induction false} TokensConcat(ps: seq<Piece>, qs: seq<Piece>)
    ensures TokensOf(ps + qs) == TokensOf(ps) + TokensOf(qs)
  {
    if ps == [] {
      assert ps + qs == qs;
    } else {
      assert (ps + qs)[1..] == ps[1..] + qs;
      TokensConcat(ps[1..], qs);
    }
  }

  lemma TokensOfGap(s: string)
    ensures TokensOf([Gap(s)]) == []
  {
    assert [Gap(s)][1..] == [];
  }

  lemma TokensOfTok(t: string)
    ensures TokensOf([Tok(t)]) == [t]
  {
    assert [Tok(t)][1..] == [];
  }

  lemma TokensOfHead(s: string, t: string)
    ensures TokensOf([Gap(s), Tok(t)]) == [t]
  {
    assert [Gap(s), Tok(t)] == [Gap(s)] + [Tok(t)];
    TokensConcat([Gap(s)], [Tok(t)]);
    TokensOfGap(s);
    TokensOfTok(t);
  }

  lemma TokensOfColon()
    ensures TokensOf([Tok(":"), Gap(" ")]) == [":"]
  {
    assert [Tok(":"), Gap(" ")] == [Tok(":")] + [Gap(" ")];
    TokensConcat([Tok(":")], [Gap(" ")]);
    TokensOfGap(" ");
    TokensOfTok(":");
  }

  lemma TokensOfBefore(o: Options)
    ensures TokensOf(Before(o)) == [Opening(o)]
  {
    var third := if o.oneLine then " " else "\n";
    assert Before(o) == [Gap(" "), Tok(Opening(o))] + [Gap(third)];
    TokensConcat([Gap(" "), Tok(Opening(o))], [Gap(third)]);
    TokensOfHead(" ", Opening(o));
    TokensOfGap(third);
  }

  lemma TokensOfAfter(o: Options, indent: nat)
    ensures TokensOf(After(o, indent)) == [Closing(o)]
  {
    hide Spaces;
    if o.oneLine {
      assert After(o, indent) == [Tok(Closing(o))];
      TokensOfTok(Closing(o));
    } else {
      assert After(o, indent) == [Gap(Spaces(indent)), Tok(Closing(o))];
      TokensOfHead(Spaces(indent), Closing(o));
    }
  }

  lemma TokensOfField(reg: Registry, o: Options, f: FieldDesc, v: Val, indent: nat)
    ensures TokensOf(FieldPieces(reg, o, f, v, indent))
            == [NameText(o, f)] + (if IsMessageType(f.ty) then [] else [":"]) + TokensOf(ValuePieces(reg, o, f, v, indent))
  {
    hide TokensOf, Spaces, NameText, ValuePieces;
    var head := [Gap(Spaces(indent)), Tok(NameText(o, f))];
    var colon := if IsMessageType(f.ty) then [] else [Tok(":"), Gap(" ")];
    var value := ValuePieces(reg, o, f, v, indent);
    TokensConcat(head + colon + value, LineEnd(o));
    TokensConcat(head + colon, value);
    TokensConcat(head, colon);
    TokensOfHead(Spaces(indent), NameText(o, f));
    TokensOfGap(if o.oneLine then " " else "\n");
    if IsMessageType(f.ty) {
      NoTokens();
    } else {
      TokensOfColon();
    }
  }

  lemma NoTokens()
    ensures TokensOf([]) == []
  {
  }

  lemma TokensOfMessage(reg: Registry, o: Options, f: FieldDesc, m: Msg, indent: nat)
    requires IsMessageType(f.ty)
    ensures TokensOf(ValuePieces(reg, o, f, VMsg(m), indent))
            == [Opening(o)] + TokensOf(MessagePieces(reg, o, f.ty.name, m, Deeper(o, indent))) + [Closing(o)]
  {
    hide TokensOf, Before, After, MessagePieces, Opening, Closing;
    var inner := MessagePieces(reg, o, f.ty.name, m, Deeper(o, indent));
    TokensConcat(Before(o) + inner, After(o, indent));
    TokensConcat(Before(o), inner);
    TokensOfBefore(o);
    TokensOfAfter(o, indent);
  }

  lemma TokensOfEntry(reg: Registry, o: Options, f: FieldDesc, e: (Val, Val), indent: nat)
    requires IsMessageType(f.ty)
    ensures TokensOf(EntryPieces(reg, o, f, e, indent))
            == [NameText(o, f), Opening(o)]
               + TokensOf(FieldPieces(reg, o, EntryField(reg, f.ty.name, 1), e.0, Deeper(o, indent)))
               + TokensOf(FieldPieces(reg, o, EntryField(reg, f.ty.name, 2), e.1, Deeper(o, indent)))
               + [Closing(o)]
  {
    hide TokensOf, Before, After, FieldPieces, EntryField, Spaces, NameText, Opening, Closing;
    var head := [Gap(Spaces(indent)), Tok(NameText(o, f))];
    var key := FieldPieces(reg, o, EntryField(reg, f.ty.name, 1), e.0, Deeper(o, indent));
    var value := FieldPieces(reg, o, EntryField(reg, f.ty.name, 2), e.1, Deeper(o, indent));
    TokensConcat(head + Before(o) + key + value + After(o, indent), LineEnd(o));
    TokensConcat(head + Before(o) + key + value, After(o, indent));
    TokensConcat(head + Before(o) + key, value);
    TokensConcat(head + Before(o), key);
    TokensConcat(head, Before(o));
    TokensOfHead(Spaces(indent), NameText(o, f));
    TokensOfBefore(o);
    TokensOfAfter(o, indent);
    TokensOfGap(if o.oneLine then " " else "\n");
  }

  // ----- scalars -----

  /** What comes behind a field: neither a separator nor another string. */
  predicate Follows(rest: seq<string>) {
    rest == [] || (rest[0] != "," && rest[0] != ";" && !IsStringToken(rest[0]))
  }

  lemma PythonIntBack(n: int)
    ensures PythonInt(SignedText(n)) == Some(n)
    ensures SignedText(n) != "" && (IsDigit(SignedText(n)[0]) || SignedText(n)[0] == '-')
  {
    hide Unsigned, Number;
    var magnitude := if n < 0 then -n else n;
    UnsignedDenotes(magnitude);
    if n < 0 {
      assert SignedText(n)[1..] == Unsigned(magnitude);
    }
  }

  lemma {:induction false} EnumNameBack(values: seq<(string, int)>, n: int)
    requires EnumOk(values) && EnumName(values, n).Some?
    ensures EnumNumber(values, EnumName(values, n).value) == Some(n)
    ensures exists i :: 0 <= i < |values| && values[i].0 == EnumName(values, n).value
    ensures IsName(EnumName(values, n).value)
  {
    hide IsName;
    if EnumName(values[1..], n).Some? {
      EnumNameBack(values[1..], n);
      var i :| 0 <= i < |values[1..]| && values[1..][i].0 == EnumName(values, n).value;
      assert values[i + 1] == values[1..][i];
    }
  }

  lemma NameIsNoInt(name: string)
    requires IsName(name)
    ensures PythonInt(name) == None && !AllDigits(name)
  {
    assert !IsDigit(name[0]);
  }

  lemma ParseEnumBack(values: seq<(string, int)>, n: int)
    requires EnumOk(values) && EnumName(values, n).Some?
    ensures ParseEnum(values, EnumName(values, n).value) == Some(n) && EnumName(values, n).value != ""
    ensures IsLetter(EnumName(values, n).value[0])
  {
    EnumNameBack(values, n);
    NameIsNoInt(EnumName(values, n).value);
  }

  lemma ByteStringBack(bytes: seq<byte>, asUtf8: bool, rest: seq<string>)
    requires Follows(rest)
    ensures ByteString(["\"" + CEscape(bytes, asUtf8) + "\""] + rest) == Done((bytes, rest))
  {
    hide CEscape, CUnescape;
    var s := CEscape(bytes, asUtf8);
    var t := "\"" + s + "\"";
    UnescapeEscape(bytes, asUtf8);
    assert t[1..|t| - 1] == s && t[|t| - 1] == '"';
    assert OneString(t) == Done(bytes);
    assert ([t] + rest)[1..] == rest;
  }

  /** The first character of a printed scalar. */
  ghost predicate ScalarStart(t: string) {
    t != "" && (IsDigit(t[0]) || t[0] == '-' || IsLetter(t[0]) || t[0] == '"')
  }

  /** The parser reads back every scalar that the printer prints. */
  lemma ScalarBack(reg: Registry, o: Options, ty: Type, v: Val, rest: seq<string>)
    requires RegistryOk(reg) && ValFits(reg, ty, v) && !IsMessageType(ty) && Follows(rest)
    ensures ParseScalar(reg, ty, [ScalarText(reg, o, ty, v)] + rest) == Done((v, rest))
    ensures ScalarStart(ScalarText(reg, o, ty, v))
  {
    hide PythonInt, ParseEnum, CEscape, SignedText, InRange, EnumName, ByteString, ValidUtf8;
    var ts := [ScalarText(reg, o, ty, v)] + rest;
    assert ts[1..] == rest;
    match ty
    case TInt32 | TInt64 | TUint32 | TUint64 => PythonIntBack(v.n);
    case TBool =>
    case TEnum(name) => ParseEnumBack(EnumValues(reg, name), v.n);
    case TString => ByteStringBack(v.bytes, o.asUtf8, rest);
    case TBytes => ByteStringBack(v.bytes, false, rest);
  }

  // ----- field names -----

  lemma {:induction false} ByNumberFinds(fs: seq<FieldDesc>, i: nat)
    requires i < |fs| && forall j, k :: 0 <= j < k < |fs| ==> fs[j].number != fs[k].number
    ensures ByNumber(fs, fs[i].number) == Some(fs[i])
  {
    if i > 0 {
      assert fs[0].number != fs[i].number;
      ByNumberFinds(fs[1..], i - 1);
    }
  }

  lemma {:induction false} ByNameFinds(fs: seq<FieldDesc>, i: nat)
    requires i < |fs| && forall j, k :: 0 <= j < k < |fs| ==> fs[j].name != fs[k].name
    ensures ByName(fs, fs[i].name) == Some(fs[i])
  {
    if i > 0 {
      assert fs[0].name != fs[i].name;
      ByNameFinds(fs[1..], i - 1);
    }
  }

  lemma DigitsOfNumber(n: nat)
    ensures AllDigits(Unsigned(n)) && Unsigned(n) != "" && PythonInt(Unsigned(n)) == Some(n)
    ensures IsDigit(Unsigned(n)[0])
  {
    hide PythonInt, Unsigned;
    UnsignedDenotes(n);
    PythonIntBack(n);
  }

  /** The printed name or number of a field leads back to the field. */
  lemma NameBack(reg: Registry, o: Options, mode: Mode, desc: MessageDesc, i: nat)
    requires DescOk(reg, desc) && i < |desc.byNumber| && (o.fieldNumber ==> mode.allowFieldNumber)
    ensures FindField(mode, desc, NameText(o, desc.byNumber[i])) == Some(desc.byNumber[i])
    ensures NameText(o, desc.byNumber[i]) != ""
    ensures IsLetter(NameText(o, desc.byNumber[i])[0]) || IsDigit(NameText(o, desc.byNumber[i])[0])
  {
    hide AllDigits, PythonInt, Unsigned, ByName, ByNumber, Lower;
    var f := desc.byNumber[i];
    ByNumberFinds(desc.byNumber, i);
    ByNameFinds(desc.byNumber, i);
    assert FieldOk(reg, desc.byNumber, f);
    if o.fieldNumber {
      DigitsOfNumber(f.number);
    } else if f.ty.TGroup? {
      NameIsNoInt(f.ty.name);
    } else {
      NameIsNoInt(f.name);
    }
  }

  // ----- one field -----

  lemma FollowsClosing(o: Options, rest: seq<string>)
    ensures Follows([Closing(o)] + rest)
  {
  }

  lemma FollowsName(t: string, rest: seq<string>)
    requires t != "" && (IsLetter(t[0]) || IsDigit(t[0]))
    ensures Follows([t] + rest) && IsWord(t) && t != "[" && t != "}" && t != ">"
  {
  }

  lemma DescOkOf(reg: Registry, t: string)
    requires RegistryOk(reg) && t in reg.messages
    ensures DescOk(reg, DescOf(reg, t))
  {
  }

  /** The start of a printed field: its name, and the colon of a scalar. */
  lemma StartBack(reg: Registry, o: Options, mode: Mode, t: string, i: nat, acc: Msg, body: seq<string>)
    requires RegistryOk(reg) && t in reg.messages && i < |DescOf(reg, t).byNumber|
    requires o.fieldNumber ==> mode.allowFieldNumber
    requires !Conflict(DescOf(reg, t).byNumber, DescOf(reg, t).byNumber[i], acc)
    requires body != [] && body[0] != ":"
    ensures var f := DescOf(reg, t).byNumber[i];
      FieldStart(reg, mode, t, [NameText(o, f)] + (if IsMessageType(f.ty) then [] else [":"]) + body, acc) == Done((f, body))
  {
    hide FindField, NameText, DescOf, Conflict;
    var desc := DescOf(reg, t);
    var f := desc.byNumber[i];
    var ts := [NameText(o, f)] + (if IsMessageType(f.ty) then [] else [":"]) + body;
    DescOkOf(reg, t);
    NameBack(reg, o, mode, desc, i);
    FollowsName(NameText(o, f), []);
    if IsMessageType(f.ty) {
      assert ts[1..] == body;
    } else {
      assert ts[1..] == [":"] + body && ts[1..][1..] == body;
    }
  }

  lemma SeparatedFollows(rest: seq<string>)
    requires Follows(rest)
    ensures Separated(rest) == rest
  {
  }

  /** What storing a value does to a message that has room for it. */
  function Stored(f: FieldDesc, acc: Msg, v: Val): Msg {
    Msg(acc.fields[f.number := if f.rule == Repeated then Many(Elements(acc, f.number) + [v]) else One(v)])
  }

  /** A printed scalar field is read back into the message. */
  lemma ScalarFieldBack(reg: Registry, o: Options, mode: Mode, t: string, i: nat, v: Val, indent: nat, acc: Msg, rest: seq<string>)
    requires RegistryOk(reg) && t in reg.messages && i < |DescOf(reg, t).byNumber|
    requires o.fieldNumber ==> mode.allowFieldNumber
    requires !Conflict(DescOf(reg, t).byNumber, DescOf(reg, t).byNumber[i], acc)
    requires var f := DescOf(reg, t).byNumber[i];
      !IsMessageType(f.ty) && ValFits(reg, f.ty, v) && (f.rule == Optional ==> f.number !in acc.fields)
    requires Follows(rest)
    ensures var f := DescOf(reg, t).byNumber[i];
      MergeField(reg, mode, t, TokensOf(FieldPieces(reg, o, f, v, indent)) + rest, acc) == Done((Stored(f, acc, v), rest))
  {
    hide FieldPieces, ParseScalar, FieldStart, NameText, ScalarText, DescOf, Conflict, Cleared, ValFits, MergeList, RegistryOk, TokensOf;
    var f := DescOf(reg, t).byNumber[i];
    NothingCleared(DescOf(reg, t).byNumber, f, acc);
    var body := [ScalarText(reg, o, f.ty, v)] + rest;
    ScalarBack(reg, o, f.ty, v, rest);
    StartBack(reg, o, mode, t, i, acc, body);
    TokensOfField(reg, o, f, v, indent);
    TokensOfTok(ScalarText(reg, o, f.ty, v));
    SeparatedFollows(rest);
    assert TokensOf(FieldPieces(reg, o, f, v, indent)) + rest
        == [NameText(o, f)] + (if IsMessageType(f.ty) then [] else [":"]) + body;
  }

  /** A printed nested message is read back, given that its fields are. */
  lemma MessageFieldBack(reg: Registry, o: Options, mode: Mode, t: string, i: nat, m: Msg, indent: nat, acc: Msg, rest: seq<string>)
    requires RegistryOk(reg) && t in reg.messages && i < |DescOf(reg, t).byNumber|
    requires o.fieldNumber ==> mode.allowFieldNumber
    requires !Conflict(DescOf(reg, t).byNumber, DescOf(reg, t).byNumber[i], acc)
    requires var f := DescOf(reg, t).byNumber[i];
      && (f.ty.TMessage? || f.ty.TGroup?) && (f.rule == Optional ==> f.number !in acc.fields)
      && MergeFields(reg, mode, f.ty.name, TokensOf(MessagePieces(reg, o, f.ty.name, m, Deeper(o, indent))) + ([Closing(o)] + rest),
                     EMPTY, Some(Closing(o))) == Done((m, rest))
    requires Follows(rest)
    ensures var f := DescOf(reg, t).byNumber[i];
      MergeField(reg, mode, t, TokensOf(FieldPieces(reg, o, f, VMsg(m), indent)) + rest, acc)
      == Done((Stored(f, acc, VMsg(m)), rest))
  {
    hide FieldPieces, MergeFields, FieldStart, NameText, MessagePieces, DescOf, Conflict, Cleared, MergeList, RegistryOk, TokensOf;
    var f := DescOf(reg, t).byNumber[i];
    NothingCleared(DescOf(reg, t).byNumber, f, acc);
    var inner := TokensOf(MessagePieces(reg, o, f.ty.name, m, Deeper(o, indent)));
    var body := [Opening(o)] + (inner + ([Closing(o)] + rest));
    StartBack(reg, o, mode, t, i, acc, body);
    TokensOfField(reg, o, f, VMsg(m), indent);
    TokensOfMessage(reg, o, f, m, indent);
    SeparatedFollows(rest);
    assert body[1..] == inner + ([Closing(o)] + rest);
    assert TokensOf(FieldPieces(reg, o, f, VMsg(m), indent)) + rest
        == [NameText(o, f)] + (if IsMessageType(f.ty) then [] else [":"]) + body;
  }

  // ----- map entries -----

  lemma {:induction false} BytesOrder(a: seq<byte>, b: seq<byte>)
    ensures !(BytesBefore(a, b) && BytesBefore(b, a)) && !BytesBefore(a, a)
  {
    if a != [] && b != [] {
      BytesOrder(a[1..], b[1..]);
    } else if a != [] {
      BytesOrder(a[1..], []);
    }
  }

  lemma KeyOrder(a: Val, b: Val)
    requires KeyBefore(a, b)
    ensures a != b && !KeyBefore(b, a)
  {
    if a.VBytes? && b.VBytes? {
      BytesOrder(a.bytes, b.bytes);
    }
  }

  /** An item whose key comes behind all others goes to the end. */
  lemma {:induction false} InsertLast(es: seq<(Val, Val)>, key: Val, value: Val)
    requires forall i :: 0 <= i < |es| ==> KeyBefore(es[i].0, key)
    ensures InsertEntry(es, key, value) == es + [(key, value)]
  {
    hide KeyBefore;
    if es != [] {
      KeyOrder(es[0].0, key);
      InsertLast(es[1..], key, value);
      assert es == [es[0]] + es[1..];
    }
  }

  /** The fields of an entry type, by their numbers. */
  lemma EntryDesc(reg: Registry, t: string)
    requires EntryOk(DescOf(reg, t))
    ensures t in reg.messages && |DescOf(reg, t).byNumber| == 2
    ensures EntryField(reg, t, 1) == DescOf(reg, t).byNumber[0] && EntryField(reg, t, 2) == DescOf(reg, t).byNumber[1]
  {
  }

  /** The entry message of a map item. */
  function EntryMessage(e: (Val, Val)): Msg {
    Msg(map[1 := One(e.0), 2 := One(e.1)])
  }

  lemma EntryFieldNumbers(reg: Registry, t: string)
    requires EntryOk(DescOf(reg, t))
    ensures EntryField(reg, t, 1).number == 1 && EntryField(reg, t, 2).number == 2
    ensures EntryField(reg, t, 1).rule == Optional && EntryField(reg, t, 2).rule == Optional
    ensures EntryField(reg, t, 1).oneof == None && EntryField(reg, t, 2).oneof == None
    ensures !IsMessageType(EntryField(reg, t, 1).ty) && !EntryField(reg, t, 2).ty.TMap?
  {
  }

  // ----- the first token of what is printed -----

  lemma FieldStarts(reg: Registry, o: Options, f: FieldDesc, v: Val, indent: nat)
    ensures TokensOf(FieldPieces(reg, o, f, v, indent)) != [] && TokensOf(FieldPieces(reg, o, f, v, indent))[0] == NameText(o, f)
  {
    hide TokensOf, FieldPieces, NameText;
    TokensOfField(reg, o, f, v, indent);
  }

  lemma EntryStarts(reg: Registry, o: Options, f: FieldDesc, e: (Val, Val), indent: nat)
    requires IsMessageType(f.ty)
    ensures TokensOf(EntryPieces(reg, o, f, e, indent)) != [] && TokensOf(EntryPieces(reg, o, f, e, indent))[0] == NameText(o, f)
  {
    hide TokensOf, EntryPieces, NameText;
    TokensOfEntry(reg, o, f, e, indent);
  }

  lemma ContentStarts(reg: Registry, o: Options, f: FieldDesc, c: Content, indent: nat)
    requires ContentFits(reg, f, c)
    ensures var ts := TokensOf(ContentPieces(reg, o, f, c, indent)); ts != [] && ts[0] == NameText(o, f)
  {
    hide TokensOf, FieldPieces, EntryPieces, NameText, ValFits, KeyBefore;
    match c
    case One(v) => FieldStarts(reg, o, f, v, indent);
    case Many(vs) =>
      FieldStarts(reg, o, f, vs[0], indent);
      TokensConcat(FieldPieces(reg, o, f, vs[0], indent), ManyPieces(reg, o, f, vs[1..], indent));
    case Entries(es) =>
      EntryStarts(reg, o, f, es[0], indent);
      TokensConcat(EntryPieces(reg, o, f, es[0], indent), EntriesPieces(reg, o, f, es[1..], indent));
  }

  lemma NameStart(reg: Registry, o: Options, t: string, i: nat)
    requires RegistryOk(reg) && t in reg.messages && i < |DescOf(reg, t).byNumber|
    ensures var name := NameText(o, DescOf(reg, t).byNumber[i]);
      name != "" && (IsLetter(name[0]) || IsDigit(name[0])) && name != "}" && name != ">"
  {
    hide NameText;
    DescOkOf(reg, t);
    NameBack(reg, o, Mode(true, false), DescOf(reg, t), i);
  }

  // ----- turns of the parser loop -----

  predicate IsClosing(closing: Option<string>) {
    closing == None || closing == Some("}") || closing == Some(">")
  }

  lemma Turn(reg: Registry, mode: Mode, t: string, ts: seq<string>, rest: seq<string>, acc: Msg, after: Msg, closing: Option<string>)
    requires MergeField(reg, mode, t, ts + rest, acc) == Done((after, rest))
    requires ts != [] && ts[0] != "}" && ts[0] != ">" && IsClosing(closing)
    ensures MergeFields(reg, mode, t, ts + rest, acc, closing) == MergeFields(reg, mode, t, rest, after, closing)
  {
    hide MergeField;
  }

  lemma {:induction false} FieldBack(reg: Registry, o: Options, mode: Mode, t: string, i: nat, v: Val, indent: nat, acc: Msg, rest: seq<string>)
    requires RegistryOk(reg) && t in reg.messages && i < |DescOf(reg, t).byNumber|
    requires o.fieldNumber ==> mode.allowFieldNumber
    requires !Conflict(DescOf(reg, t).byNumber, DescOf(reg, t).byNumber[i], acc)
    requires var f := DescOf(reg, t).byNumber[i];
      ValFits(reg, f.ty, v) && (f.rule == Optional ==> f.number !in acc.fields)
    requires Follows(rest)
    ensures var f := DescOf(reg, t).byNumber[i];
      MergeField(reg, mode, t, TokensOf(FieldPieces(reg, o, f, v, indent)) + rest, acc) == Done((Stored(f, acc, v), rest))
    decreases v, 0
  {
    hide FieldPieces, MergeFields, MessagePieces, DescOf, Conflict, RegistryOk, TokensOf, MsgFits, MergeField;
    var f := DescOf(reg, t).byNumber[i];
    if IsMessageType(f.ty) {
      MessageBack(reg, o, mode, f.ty.name, v.m, Deeper(o, indent), rest, Some(Closing(o)));
      MessageFieldBack(reg, o, mode, t, i, v.m, indent, acc, rest);
    } else {
      ScalarFieldBack(reg, o, mode, t, i, v, indent, acc, rest);
    }
  }

  function StoredAll(f: FieldDesc, acc: Msg, vs: seq<Val>): Msg
    decreases |vs|
  {
    if vs == [] then acc else StoredAll(f, Stored(f, acc, vs[0]), vs[1..])
  }

  lemma {:induction false} StoredAllIs(f: FieldDesc, acc: Msg, vs: seq<Val>)
    requires f.rule == Repeated && vs != []
    ensures StoredAll(f, acc, vs) == Msg(acc.fields[f.number := Many(Elements(acc, f.number) + vs)])
    decreases |vs|
  {
    var next := Stored(f, acc, vs[0]);
    assert vs == [vs[0]] + vs[1..];
    if vs[1..] != [] {
      StoredAllIs(f, next, vs[1..]);
      assert Elements(acc, f.number) + [vs[0]] + vs[1..] == Elements(acc, f.number) + vs;
      assert next.fields[f.number := Many(Elements(acc, f.number) + vs)] == acc.fields[f.number := Many(Elements(acc, f.number) + vs)];
    } else {
      assert vs == [vs[0]] && StoredAll(f, next, vs[1..]) == next;
    }
  }

  lemma {:induction false} ManyBack(reg: Registry, o: Options, mode: Mode, t: string, i: nat, vs: seq<Val>, indent: nat, acc: Msg,
                                    tail: seq<string>, closing: Option<string>)
    requires RegistryOk(reg) && t in reg.messages && i < |DescOf(reg, t).byNumber|
    requires o.fieldNumber ==> mode.allowFieldNumber
    requires var f := DescOf(reg, t).byNumber[i];
      f.rule == Repeated && f.oneof == None && forall k :: 0 <= k < |vs| ==> ValFits(reg, f.ty, vs[k])
    requires Follows(tail) && IsClosing(closing)
    ensures var f := DescOf(reg, t).byNumber[i];
      MergeFields(reg, mode, t, TokensOf(ManyPieces(reg, o, f, vs, indent)) + tail, acc, closing)
      == MergeFields(reg, mode, t, tail, StoredAll(f, acc, vs), closing)
    decreases vs, 1
  {
    hide FieldPieces, MergeFields, MergeField, DescOf, RegistryOk, TokensOf, ValFits, Stored, NameText, Follows;
    var f := DescOf(reg, t).byNumber[i];
    if vs == [] {
      NoTokens();
      assert [] + tail == tail;
    } else {
      var first, more := TokensOf(FieldPieces(reg, o, f, vs[0], indent)), TokensOf(ManyPieces(reg, o, f, vs[1..], indent));
      TokensConcat(FieldPieces(reg, o, f, vs[0], indent), ManyPieces(reg, o, f, vs[1..], indent));
      ManyFollows(reg, o, t, i, vs[1..], indent, tail);
      FieldBack(reg, o, mode, t, i, vs[0], indent, acc, more + tail);
      FieldStarts(reg, o, f, vs[0], indent);
      NameStart(reg, o, t, i);
      Turn(reg, mode, t, first, more + tail, acc, Stored(f, acc, vs[0]), closing);
      ManyBack(reg, o, mode, t, i, vs[1..], indent, Stored(f, acc, vs[0]), tail, closing);
      assert first + more + tail == first + (more + tail);
    }
  }

  lemma ManyFollows(reg: Registry, o: Options, t: string, i: nat, vs: seq<Val>, indent: nat, tail: seq<string>)
    requires RegistryOk(reg) && t in reg.messages && i < |DescOf(reg, t).byNumber| && Follows(tail)
    ensures Follows(TokensOf(ManyPieces(reg, o, DescOf(reg, t).byNumber[i], vs, indent)) + tail)
  {
    hide FieldPieces, DescOf, RegistryOk, TokensOf, NameText;
    var f := DescOf(reg, t).byNumber[i];
    if vs == [] {
      NoTokens();
      assert [] + tail == tail;
    } else {
      FieldStarts(reg, o, f, vs[0], indent);
      TokensConcat(FieldPieces(reg, o, f, vs[0], indent), ManyPieces(reg, o, f, vs[1..], indent));
      NameStart(reg, o, t, i);
    }
  }

  function StoredEntries(f: FieldDesc, acc: Msg, es: seq<(Val, Val)>): Msg
    decreases |es|
  {
    if es == [] then acc
    else StoredEntries(f, Msg(acc.fields[f.number := Entries(InsertEntry(Items(acc, f.number), es[0].0, es[0].1))]), es[1..])
  }

  lemma {:induction false} StoredEntriesIs(f: FieldDesc, acc: Msg, es: seq<(Val, Val)>)
    requires es != [] && forall i, j :: 0 <= i < j < |es| ==> KeyBefore(es[i].0, es[j].0)
    requires forall i, j :: 0 <= i < |Items(acc, f.number)| && 0 <= j < |es| ==> KeyBefore(Items(acc, f.number)[i].0, es[j].0)
    ensures StoredEntries(f, acc, es) == Msg(acc.fields[f.number := Entries(Items(acc, f.number) + es)])
    decreases |es|
  {
    hide KeyBefore, InsertEntry;
    var items := Items(acc, f.number);
    InsertLast(items, es[0].0, es[0].1);
    var next := Msg(acc.fields[f.number := Entries(items + [es[0]])]);
    assert es == [es[0]] + es[1..] && (es[0].0, es[0].1) == es[0];
    if es[1..] != [] {
      assert Items(next, f.number) == items + [es[0]];
      StoredEntriesIs(f, next, es[1..]);
      assert items + [es[0]] + es[1..] == items + es;
      assert next.fields[f.number := Entries(items + es)] == acc.fields[f.number := Entries(items + es)];
    } else {
      assert es == [es[0]] && StoredEntries(f, next, es[1..]) == next;
    }
  }

  /** The two fields of a printed entry, up to its closing bracket. */
  lemma {:induction false} EntryFieldsBack(reg: Registry, o: Options, mode: Mode, name: string, e: (Val, Val), indent: nat, rest: seq<string>)
    requires RegistryOk(reg) && EntryOk(DescOf(reg, name)) && (o.fieldNumber ==> mode.allowFieldNumber)
    requires ValFits(reg, EntryField(reg, name, 1).ty, e.0) && ValFits(reg, EntryField(reg, name, 2).ty, e.1)
    ensures MergeFields(reg, mode, name,
                        TokensOf(FieldPieces(reg, o, EntryField(reg, name, 1), e.0, indent))
                        + (TokensOf(FieldPieces(reg, o, EntryField(reg, name, 2), e.1, indent)) + ([Closing(o)] + rest)),
                        EMPTY, Some(Closing(o)))
            == Done((EntryMessage(e), rest))
    decreases e, 1
  {
    hide FieldPieces, MergeFields, MergeField, DescOf, RegistryOk, TokensOf, ValFits, NameText, Follows, EntryField, EntryOk;
    EntryDesc(reg, name);
    EntryFieldNumbers(reg, name);
    var kf, vf := EntryField(reg, name, 1), EntryField(reg, name, 2);
    var key, value := TokensOf(FieldPieces(reg, o, kf, e.0, indent)), TokensOf(FieldPieces(reg, o, vf, e.1, indent));
    var tail := [Closing(o)] + rest;
    FollowsClosing(o, rest);
    FieldStarts(reg, o, kf, e.0, indent);
    FieldStarts(reg, o, vf, e.1, indent);
    NameStart(reg, o, name, 0);
    NameStart(reg, o, name, 1);
    StartFollows(value, tail);
    FieldBack(reg, o, mode, name, 0, e.0, indent, EMPTY, value + tail);
    var half := Stored(kf, EMPTY, e.0);
    Turn(reg, mode, name, key, value + tail, EMPTY, half, Some(Closing(o)));
    FieldBack(reg, o, mode, name, 1, e.1, indent, half, tail);
    Turn(reg, mode, name, value, tail, half, Stored(vf, half, e.1), Some(Closing(o)));
    assert Stored(vf, half, e.1) == EntryMessage(e);
    Closed(reg, mode, name, Closing(o), rest, EntryMessage(e));
  }

  lemma StartFollows(ts: seq<string>, tail: seq<string>)
    requires ts != [] && ts[0] != "" && (IsLetter(ts[0][0]) || IsDigit(ts[0][0]))
    ensures Follows(ts + tail)
  {
  }

  lemma Closed(reg: Registry, mode: Mode, t: string, closing: string, rest: seq<string>, m: Msg)
    ensures MergeFields(reg, mode, t, [closing] + rest, m, Some(closing)) == Done((m, rest))
  {
    assert ([closing] + rest)[1..] == rest;
  }

  lemma {:induction false} EntryBack(reg: Registry, o: Options, mode: Mode, t: string, i: nat, e: (Val, Val), indent: nat, acc: Msg, rest: seq<string>)
    requires RegistryOk(reg) && t in reg.messages && i < |DescOf(reg, t).byNumber|
    requires o.fieldNumber ==> mode.allowFieldNumber
    requires var f := DescOf(reg, t).byNumber[i];
      && f.ty.TMap? && f.rule == Repeated && f.oneof == None && EntryOk(DescOf(reg, f.ty.name))
      && ValFits(reg, EntryField(reg, f.ty.name, 1).ty, e.0) && ValFits(reg, EntryField(reg, f.ty.name, 2).ty, e.1)
    requires Follows(rest)
    ensures var f := DescOf(reg, t).byNumber[i];
      MergeField(reg, mode, t, TokensOf(EntryPieces(reg, o, f, e, indent)) + rest, acc)
      == Done((Msg(acc.fields[f.number := Entries(InsertEntry(Items(acc, f.number), e.0, e.1))]), rest))
    decreases e, 2
  {
    hide EntryPieces, FieldPieces, MergeFields, FieldStart, NameText, DescOf, MergeList, RegistryOk, TokensOf, EntryField, ValFits, EntryOk, InsertEntry;
    var f := DescOf(reg, t).byNumber[i];
    var name := f.ty.name;
    var inner := TokensOf(FieldPieces(reg, o, EntryField(reg, name, 1), e.0, Deeper(o, indent)))
                 + (TokensOf(FieldPieces(reg, o, EntryField(reg, name, 2), e.1, Deeper(o, indent))) + ([Closing(o)] + rest));
    var body := [Opening(o)] + inner;
    StartBack(reg, o, mode, t, i, acc, body);
    TokensOfEntry(reg, o, f, e, indent);
    EntryFieldsBack(reg, o, mode, name, e, Deeper(o, indent), rest);
    EntryFieldNumbers(reg, name);
    SeparatedFollows(rest);
    assert body[1..] == inner;
    assert TokensOf(EntryPieces(reg, o, f, e, indent)) + rest == [NameText(o, f)] + [] + body;
  }

  lemma {:induction false} EntriesBack(reg: Registry, o: Options, mode: Mode, t: string, i: nat, es: seq<(Val, Val)>, indent: nat, acc: Msg,
                                       tail: seq<string>, closing: Option<string>)
    requires RegistryOk(reg) && t in reg.messages && i < |DescOf(reg, t).byNumber|
    requires o.fieldNumber ==> mode.allowFieldNumber
    requires var f := DescOf(reg, t).byNumber[i];
      && f.ty.TMap? && f.rule == Repeated && f.oneof == None && EntryOk(DescOf(reg, f.ty.name))
      && forall k :: 0 <= k < |es| ==>
           ValFits(reg, EntryField(reg, f.ty.name, 1).ty, es[k].0) && ValFits(reg, EntryField(reg, f.ty.name, 2).ty, es[k].1)
    requires Follows(tail) && IsClosing(closing)
    ensures var f := DescOf(reg, t).byNumber[i];
      MergeFields(reg, mode, t, TokensOf(EntriesPieces(reg, o, f, es, indent)) + tail, acc, closing)
      == MergeFields(reg, mode, t, tail, StoredEntries(f, acc, es), closing)
    decreases es, 3
  {
    hide EntryPieces, MergeFields, MergeField, DescOf, RegistryOk, TokensOf, ValFits, NameText, Follows, EntryField, EntryOk, InsertEntry;
    var f := DescOf(reg, t).byNumber[i];
    if es == [] {
      NoTokens();
      assert [] + tail == tail;
    } else {
      var first, more := TokensOf(EntryPieces(reg, o, f, es[0], indent)), TokensOf(EntriesPieces(reg, o, f, es[1..], indent));
      var next := Msg(acc.fields[f.number := Entries(InsertEntry(Items(acc, f.number), es[0].0, es[0].1))]);
      TokensConcat(EntryPieces(reg, o, f, es[0], indent), EntriesPieces(reg, o, f, es[1..], indent));
      EntriesFollow(reg, o, t, i, es[1..], indent, tail);
      EntryBack(reg, o, mode, t, i, es[0], indent, acc, more + tail);
      EntryStarts(reg, o, f, es[0], indent);
      NameStart(reg, o, t, i);
      Turn(reg, mode, t, first, more + tail, acc, next, closing);
      EntriesBack(reg, o, mode, t, i, es[1..], indent, next, tail, closing);
      assert first + more + tail == first + (more + tail);
    }
  }

  lemma EntriesFollow(reg: Registry, o: Options, t: string, i: nat, es: seq<(Val, Val)>, indent: nat, tail: seq<string>)
    requires RegistryOk(reg) && t in reg.messages && i < |DescOf(reg, t).byNumber| && Follows(tail)
    requires IsMessageType(DescOf(reg, t).byNumber[i].ty)
    ensures Follows(TokensOf(EntriesPieces(reg, o, DescOf(reg, t).byNumber[i], es, indent)) + tail)
  {
    hide EntryPieces, DescOf, RegistryOk, TokensOf, NameText;
    var f := DescOf(reg, t).byNumber[i];
    if es == [] {
      NoTokens();
      assert [] + tail == tail;
    } else {
      EntryStarts(reg, o, f, es[0], indent);
      TokensConcat(EntryPieces(reg, o, f, es[0], indent), EntriesPieces(reg, o, f, es[1..], indent));
      NameStart(reg, o, t, i);
    }
  }

  /** The whole contents of a field. */
  lemma {:induction false} ContentBack(reg: Registry, o: Options, mode: Mode, t: string, i: nat, c: Content, indent: nat, acc: Msg,
                                       tail: seq<string>, closing: Option<string>)
    requires RegistryOk(reg) && t in reg.messages && i < |DescOf(reg, t).byNumber|
    requires o.fieldNumber ==> mode.allowFieldNumber
    requires !Conflict(DescOf(reg, t).byNumber, DescOf(reg, t).byNumber[i], acc)
    requires ContentFits(reg, DescOf(reg, t).byNumber[i], c) && DescOf(reg, t).byNumber[i].number !in acc.fields
    requires Follows(tail) && IsClosing(closing)
    ensures var f := DescOf(reg, t).byNumber[i];
      MergeFields(reg, mode, t, TokensOf(ContentPieces(reg, o, f, c, indent)) + tail, acc, closing)
      == MergeFields(reg, mode, t, tail, Msg(acc.fields[f.number := c]), closing)
    decreases c, 4
  {
    hide FieldPieces, EntryPieces, EntriesPieces, ManyPieces, MergeFields, MergeField, RegistryOk, TokensOf, ValFits, NameText, Follows, DescOf;
    hide EntryField, EntryOk, KeyBefore, Conflict;
    var f := DescOf(reg, t).byNumber[i];
    RuleOfUnion(reg, t, i);
    match c
    case One(v) =>
      FieldBack(reg, o, mode, t, i, v, indent, acc, tail);
      FieldStarts(reg, o, f, v, indent);
      NameStart(reg, o, t, i);
      Turn(reg, mode, t, TokensOf(FieldPieces(reg, o, f, v, indent)), tail, acc, Stored(f, acc, v), closing);
    case Many(vs) =>
      ManyBack(reg, o, mode, t, i, vs, indent, acc, tail, closing);
      StoredAllIs(f, acc, vs);
      assert [] + vs == vs;
    case Entries(es) =>
      EntriesBack(reg, o, mode, t, i, es, indent, acc, tail, closing);
      StoredEntriesIs(f, acc, es);
      assert [] + es == es;
  }

  lemma RuleOfUnion(reg: Registry, t: string, i: nat)
    requires RegistryOk(reg) && t in reg.messages && i < |DescOf(reg, t).byNumber|
    ensures var f := DescOf(reg, t).byNumber[i];
      && (f.rule == Repeated ==> f.oneof == None)
      && (f.ty.TMap? ==> f.rule == Repeated && EntryOk(DescOf(reg, f.ty.name)))
  {
    DescOkOf(reg, t);
    assert FieldOk(reg, DescOf(reg, t).byNumber, DescOf(reg, t).byNumber[i]);
  }

  // ----- whole messages -----

  /** Fields of a descriptor, each of them set, none twice. */
  ghost predicate Listed(desc: MessageDesc, fs: seq<FieldDesc>, m: Msg) {
    && (forall j :: 0 <= j < |fs| ==> fs[j] in desc.byNumber && fs[j].number in m.fields)
    && (forall j, k :: 0 <= j < k < |fs| ==> fs[j].number != fs[k].number)
  }

  /** `acc` holds part of `m`, and nothing of the fields still to come. */
  ghost predicate Partly(acc: Msg, m: Msg, fs: seq<FieldDesc>) {
    && (forall n :: n in acc.fields ==> n in m.fields && acc.fields[n] == m.fields[n])
    && (forall j :: 0 <= j < |fs| ==> fs[j].number !in acc.fields)
  }

  function Filled(acc: Msg, m: Msg, fs: seq<FieldDesc>): Msg
    decreases |fs|
  {
    if fs == [] || fs[0].number !in m.fields then acc
    else Filled(Msg(acc.fields[fs[0].number := m.fields[fs[0].number]]), m, fs[1..])
  }

  lemma FieldFits(reg: Registry, t: string, m: Msg, i: nat)
    requires RegistryOk(reg) && MsgFits(reg, t, m) && i < |DescOf(reg, t).byNumber|
    requires DescOf(reg, t).byNumber[i].number in m.fields
    ensures ContentFits(reg, DescOf(reg, t).byNumber[i], m.fields[DescOf(reg, t).byNumber[i].number])
  {
    hide ContentFits;
    DescOkOf(reg, t);
    ByNumberFinds(DescOf(reg, t).byNumber, i);
  }

  lemma NoConflict(reg: Registry, t: string, m: Msg, i: nat, acc: Msg)
    requires RegistryOk(reg) && MsgFits(reg, t, m) && i < |DescOf(reg, t).byNumber|
    requires DescOf(reg, t).byNumber[i].number in m.fields
    requires forall n :: n in acc.fields ==> n in m.fields
    ensures !Conflict(DescOf(reg, t).byNumber, DescOf(reg, t).byNumber[i], acc)
  {
    hide ContentFits, RegistryOk;
    var fs := DescOf(reg, t).byNumber;
    forall j | 0 <= j < |fs| && fs[i].oneof.Some? && fs[j].oneof == fs[i].oneof && fs[j].number in acc.fields
      ensures fs[j].number == fs[i].number
    {
      assert SameUnion(fs[j], fs[i], m);
    }
  }

  lemma FieldsFollow(reg: Registry, o: Options, t: string, fs: seq<FieldDesc>, m: Msg, indent: nat, tail: seq<string>)
    requires RegistryOk(reg) && MsgFits(reg, t, m) && Listed(DescOf(reg, t), fs, m) && Follows(tail)
    ensures Follows(TokensOf(FieldsPieces(reg, o, fs, m, indent)) + tail)
  {
    hide ContentPieces, DescOf, RegistryOk, TokensOf, NameText, ContentFits, MsgFits;
    if fs == [] {
      NoTokens();
      assert [] + tail == tail;
    } else {
      var i :| 0 <= i < |DescOf(reg, t).byNumber| && DescOf(reg, t).byNumber[i] == fs[0];
      FieldFits(reg, t, m, i);
      InMessages(reg, t, m);
      ContentStarts(reg, o, fs[0], m.fields[fs[0].number], indent);
      TokensConcat(ContentPieces(reg, o, fs[0], m.fields[fs[0].number], indent), FieldsPieces(reg, o, fs[1..], m, indent));
      NameStart(reg, o, t, i);
    }
  }

  lemma InMessages(reg: Registry, t: string, m: Msg)
    requires MsgFits(reg, t, m)
    ensures t in reg.messages
  {
  }

  /** The fields still to come are read into what has been read. */
  lemma {:induction false} FieldsBack(reg: Registry, o: Options, mode: Mode, t: string, fs: seq<FieldDesc>, m: Msg, indent: nat, acc: Msg,
                                      tail: seq<string>, closing: Option<string>)
    requires RegistryOk(reg) && MsgFits(reg, t, m) && (o.fieldNumber ==> mode.allowFieldNumber)
    requires Listed(DescOf(reg, t), fs, m) && Partly(acc, m, fs)
    requires Follows(tail) && IsClosing(closing)
    ensures MergeFields(reg, mode, t, TokensOf(FieldsPieces(reg, o, fs, m, indent)) + tail, acc, closing)
            == MergeFields(reg, mode, t, tail, Filled(acc, m, fs), closing)
    decreases m, 5, |fs|
  {
    hide ContentPieces, MergeFields, DescOf, RegistryOk, TokensOf, ContentFits, MsgFits, Follows, Conflict;
    if fs == [] {
      NoTokens();
      assert [] + tail == tail;
    } else {
      var i :| 0 <= i < |DescOf(reg, t).byNumber| && DescOf(reg, t).byNumber[i] == fs[0];
      var c := m.fields[fs[0].number];
      var first, more := TokensOf(ContentPieces(reg, o, fs[0], c, indent)), TokensOf(FieldsPieces(reg, o, fs[1..], m, indent));
      FieldFits(reg, t, m, i);
      NoConflict(reg, t, m, i, acc);
      InMessages(reg, t, m);
      TokensConcat(ContentPieces(reg, o, fs[0], c, indent), FieldsPieces(reg, o, fs[1..], m, indent));
      FieldsFollow(reg, o, t, fs[1..], m, indent, tail);
      ContentBack(reg, o, mode, t, i, c, indent, acc, more + tail, closing);
      FieldsBack(reg, o, mode, t, fs[1..], m, indent, Msg(acc.fields[fs[0].number := c]), tail, closing);
      assert first + more + tail == first + (more + tail);
    }
  }

  // ----- ListFields -----

  lemma {:induction false} PresentListed(fs: seq<FieldDesc>, m: Msg)
    requires forall j, k :: 0 <= j < k < |fs| ==> fs[j].number != fs[k].number
    ensures forall f :: f in Present(fs, m) <==> f in fs && f.number in m.fields
    ensures forall j, k :: 0 <= j < k < |Present(fs, m)| ==> Present(fs, m)[j].number != Present(fs, m)[k].number
  {
    if fs != [] {
      PresentListed(fs[1..], m);
      assert fs == [fs[0]] + fs[1..];
      var rest := Present(fs[1..], m);
      forall j | 0 <= j < |rest|
        ensures rest[j].number != fs[0].number
      {
        assert rest[j] in fs[1..];
      }
    }
  }

  lemma IndexDistinct(reg: Registry, desc: MessageDesc)
    requires DescOk(reg, desc)
    ensures forall j, k :: 0 <= j < k < |desc.byIndex| ==> desc.byIndex[j].number != desc.byIndex[k].number
  {
    hide FieldOk;
    forall j, k | 0 <= j < k < |desc.byIndex|
      ensures desc.byIndex[j].number != desc.byIndex[k].number
    {
      assert desc.byIndex[j] in desc.byIndex && desc.byIndex[k] in desc.byIndex;
      var x :| 0 <= x < |desc.byNumber| && desc.byNumber[x] == desc.byIndex[j];
      var y :| 0 <= y < |desc.byNumber| && desc.byNumber[y] == desc.byIndex[k];
      assert x != y;
    }
  }

  /** Whichever order is asked for, each set field is listed once. */
  lemma ListOk(reg: Registry, o: Options, t: string, m: Msg)
    requires RegistryOk(reg) && MsgFits(reg, t, m)
    ensures Listed(DescOf(reg, t), ListFields(reg, o, t, m), m)
    ensures forall n :: n in m.fields ==> exists f :: f in ListFields(reg, o, t, m) && f.number == n
  {
    hide ContentFits, FieldOk, Present;
    var desc := DescOf(reg, t);
    DescOkOf(reg, t);
    IndexDistinct(reg, desc);
    PresentListed(desc.byIndex, m);
    PresentListed(desc.byNumber, m);
    forall n | n in m.fields
      ensures exists f :: f in ListFields(reg, o, t, m) && f.number == n
    {
      ByNumberIs(desc.byNumber, n);
      assert ByNumber(desc.byNumber, n).value in ListFields(reg, o, t, m);
    }
  }

  lemma {:induction false} ByNumberIs(fs: seq<FieldDesc>, n: int)
    ensures ByNumber(fs, n).Some? ==> ByNumber(fs, n).value in fs && ByNumber(fs, n).value.number == n
  {
    if fs != [] && fs[0].number != n {
      ByNumberIs(fs[1..], n);
    }
  }

  lemma {:induction false} FilledAll(acc: Msg, m: Msg, fs: seq<FieldDesc>)
    requires Partly(acc, m, []) && forall j :: 0 <= j < |fs| ==> fs[j].number in m.fields
    requires forall n :: n in m.fields ==> n in acc.fields || exists f :: f in fs && f.number == n
    ensures Filled(acc, m, fs) == m
    decreases |fs|
  {
    if fs == [] {
      assert acc.fields == m.fields;
    } else {
      var next := Msg(acc.fields[fs[0].number := m.fields[fs[0].number]]);
      forall n | n in m.fields
        ensures n in next.fields || exists f :: f in fs[1..] && f.number == n
      {
        if n !in acc.fields && n != fs[0].number {
          var f :| f in fs && f.number == n;
          assert f in fs[1..];
        }
      }
      FilledAll(next, m, fs[1..]);
    }
  }

  /** The fields of a printed message, up to a closing bracket or the end of the text. */
  lemma {:induction false} MessageBack(reg: Registry, o: Options, mode: Mode, t: string, m: Msg, indent: nat, rest: seq<string>, closing: Option<string>)
    requires RegistryOk(reg) && MsgFits(reg, t, m) && (o.fieldNumber ==> mode.allowFieldNumber)
    requires closing == Some(Closing(o)) || (closing == None && rest == [])
    ensures MergeFields(reg, mode, t,
                        TokensOf(MessagePieces(reg, o, t, m, indent)) + ((if closing.Some? then [closing.value] else []) + rest),
                        EMPTY, closing)
            == Done((m, rest))
    decreases m, 6
  {
    hide FieldsPieces, MergeFields, DescOf, RegistryOk, TokensOf, ListFields, Filled;
    var fs := ListFields(reg, o, t, m);
    var tail := (if closing.Some? then [closing.value] else []) + rest;
    ListOk(reg, o, t, m);
    FilledAll(EMPTY, m, fs);
    if closing.Some? {
      FollowsClosing(o, rest);
      FieldsBack(reg, o, mode, t, fs, m, indent, EMPTY, tail, closing);
      Closed(reg, mode, t, Closing(o), rest, m);
    } else {
      assert tail == [];
      FieldsBack(reg, o, mode, t, fs, m, indent, EMPTY, tail, closing);
      Ended(reg, mode, t, m);
    }
  }

  lemma Ended(reg: Registry, mode: Mode, t: string, m: Msg)
    ensures MergeFields(reg, mode, t, [], m, None) == Done((m, []))
  {
  }

  // ----- unions, whatever text is merged into whatever message -----

  ghost predicate Exclusive(fs: seq<FieldDesc>, m: Msg) {
    forall i, j :: 0 <= i < |fs| && 0 <= j < |fs| && SameUnion(fs[i], fs[j], m) ==> i == j
  }

  lemma OneOnly(reg: Registry, mode: Mode, f: FieldDesc, ts: seq<string>, m: Msg)
    requires MergeOne(reg, mode, f, ts, m).Done?
    ensures MergeOne(reg, mode, f, ts, m).value.0.fields.Keys == m.fields.Keys + {f.number}
  {
    hide MergeFields, ParseScalar, InsertEntry, Get, EntryField;
  }

  lemma {:induction false} ListOnly(reg: Registry, mode: Mode, f: FieldDesc, ts: seq<string>, m: Msg)
    requires MergeList(reg, mode, f, ts, m).Done?
    ensures MergeList(reg, mode, f, ts, m).value.0.fields.Keys == m.fields.Keys + {f.number}
    decreases |ts|
  {
    hide MergeOne;
    OneOnly(reg, mode, f, ts, m);
    var merged := MergeOne(reg, mode, f, ts, m).value;
    if !StartsWith(merged.1, "]") {
      ListOnly(reg, mode, f, merged.1[1..], merged.0);
    }
  }

  lemma {:induction false} ByNameIs(fs: seq<FieldDesc>, name: string)
    ensures ByName(fs, name).Some? ==> ByName(fs, name).value in fs
  {
    if fs != [] {
      ByNameIs(fs[1..], name);
    }
  }

  lemma FoundField(mode: Mode, desc: MessageDesc, name: string)
    requires FindField(mode, desc, name).Some?
    ensures FindField(mode, desc, name).value in desc.byNumber
  {
    hide Lower, PythonInt, ByName, ByNumber;
    if mode.allowFieldNumber && AllDigits(name) {
      ByNumberIs(desc.byNumber, PythonInt(name).value);
    }
    ByNameIs(desc.byNumber, name);
    ByNameIs(desc.byNumber, Lower(name));
  }

  /** One field merged into a message leaves every union with at most one member. */
  lemma FieldExclusive(reg: Registry, mode: Mode, t: string, ts: seq<string>, m: Msg)
    requires RegistryOk(reg) && t in reg.messages && Exclusive(DescOf(reg, t).byNumber, m)
    requires MergeField(reg, mode, t, ts, m).Done?
    ensures Exclusive(DescOf(reg, t).byNumber, MergeField(reg, mode, t, ts, m).value.0)
  {
    hide MergeOne, MergeList, RegistryOk, DescOf, Exclusive, FindField, Cleared, Conflict;
    var f, rest := FieldStart(reg, mode, t, ts, m).value.0, FieldStart(reg, mode, t, ts, m).value.1;
    FoundField(mode, DescOf(reg, t), ts[0]);
    DescOkOf(reg, t);
    var fs := DescOf(reg, t).byNumber;
    var target := Cleared(fs, f, m);
    var list := f.rule == Repeated && StartsWith(rest, "[");
    if list {
      ListOnly(reg, mode, f, rest[1..], target);
    } else {
      OneOnly(reg, mode, f, rest, target);
    }
    SetMember(reg, DescOf(reg, t), f, m, MergeField(reg, mode, t, ts, m).value.0);
  }

  lemma SetMember(reg: Registry, desc: MessageDesc, f: FieldDesc, m: Msg, after: Msg)
    requires DescOk(reg, desc) && f in desc.byNumber && Exclusive(desc.byNumber, m)
    requires after.fields.Keys == Cleared(desc.byNumber, f, m).fields.Keys + {f.number}
    ensures Exclusive(desc.byNumber, after)
  {
    hide FieldOk;
  }

  /** Whatever text is parsed into or merged into a message, no union ends with two members. */
  lemma {:induction false} UnionsKept(reg: Registry, mode: Mode, t: string, ts: seq<string>, m: Msg, closing: Option<string>)
    requires RegistryOk(reg) && t in reg.messages && Exclusive(DescOf(reg, t).byNumber, m)
    requires MergeFields(reg, mode, t, ts, m, closing).Done?
    ensures Exclusive(DescOf(reg, t).byNumber, MergeFields(reg, mode, t, ts, m, closing).value.0)
    decreases |ts|
  {
    hide MergeField, RegistryOk, DescOf, Exclusive;
    if !(closing.Some? && StartsWith(ts, closing.value)) && ts != [] {
      FieldExclusive(reg, mode, t, ts, m);
      var merged := MergeField(reg, mode, t, ts, m).value;
      UnionsKept(reg, mode, t, merged.1, merged.0, closing);
    }
  }
}
