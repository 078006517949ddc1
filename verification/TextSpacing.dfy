/** The printer separates its tokens so that the tokenizer finds them again. */
module TextSpacing {
  import opened Js
  import opened Decimal
  import opened Arith
  import opened Bookmarks
  import opened TextEscape
  import opened Tokens
  import opened TextFormat
  import opened TextGrammar
  import opened TextParser
  import opened TextRoundTrip

  /** The characters that the printer writes behind tokens. */
  predicate Stop(c: char) { c == ' ' || c == '\n' || c == ':' }

  ghost predicate Stopped(rest: string) {
    rest == "" || Stop(rest[0])
  }

  /** In front of a stop the text is one token. */
  ghost predicate GoodToken(t: string) {
    && t != "" && !IsSpace(t[0]) && t[0] != '#' && !IsSpace(t[|t| - 1])
    && forall rest: string :: Stopped(rest) ==> TokenLength(t + rest) == |t|
  }

  ghost predicate Blank(s: string) {
    forall i :: 0 <= i < |s| ==> s[i] == ' ' || s[i] == '\n'
  }

  predicate StopsToken(p: Piece) {
    match p
    case Gap(spaces) => spaces != "" && Stop(spaces[0])
    case Tok(t) => t == ":"
  }

  ghost predicate Spaced(ps: seq<Piece>) {
    && (forall i :: 0 <= i < |ps| ==> if ps[i].Gap? then Blank(ps[i].spaces) else GoodToken(ps[i].t))
    && (forall i :: 0 <= i < |ps| - 1 && ps[i].Tok? ==> StopsToken(ps[i + 1]))
  }

  /** Nothing at the end that what follows could run into. */
  ghost predicate Loose(ps: seq<Piece>) {
    Spaced(ps) && (ps == [] || Last(ps).Gap?)
  }

  lemma SpacedConcat(ps: seq<Piece>, qs: seq<Piece>)
    requires Spaced(ps) && Spaced(qs)
    requires ps == [] || qs == [] || Last(ps).Gap? || StopsToken(qs[0])
    ensures Spaced(ps + qs)
  {
    hide GoodToken, Blank;
  }

  lemma LooseConcat(ps: seq<Piece>, qs: seq<Piece>)
    requires Loose(ps) && Loose(qs)
    ensures Loose(ps + qs)
  {
    hide Spaced;
    SpacedConcat(ps, qs);
    if qs == [] {
      assert ps + qs == ps;
    }
  }

  // ----- good tokens -----

  lemma WordToken(t: string, dots: bool)
    requires t != "" && (if dots then IsDigit(t[0]) || t[0] == '-' else IsLetter(t[0]))
    requires forall i :: 0 <= i < |t| ==> IsPart(t[i], dots)
    ensures GoodToken(t)
  {
    forall rest: string | Stopped(rest)
      ensures TokenLength(t + rest) == |t|
    {
      assert (t + rest)[1..] == t[1..] + rest;
      RunThen(t[1..], rest, dots);
    }
    assert IsPart(t[|t| - 1], dots);
  }

  lemma SymbolToken(t: string)
    requires t == "{" || t == "}" || t == "<" || t == ">" || t == ":"
    ensures GoodToken(t)
  {
  }

  lemma NameToken(t: string)
    requires IsName(t)
    ensures GoodToken(t)
  {
    WordToken(t, false);
  }

  lemma IntToken(n: int)
    ensures GoodToken(SignedText(n))
  {
    hide Unsigned;
    UnsignedDenotes(if n < 0 then -n else n);
    WordToken(SignedText(n), true);
  }

  lemma StringIsToken(bytes: seq<byte>, asUtf8: bool)
    ensures GoodToken("\"" + CEscape(bytes, asUtf8) + "\"")
  {
    hide CEscape;
    var t := "\"" + CEscape(bytes, asUtf8) + "\"";
    forall rest: string | Stopped(rest)
      ensures TokenLength(t + rest) == |t|
    {
      StringToken(bytes, asUtf8, rest);
    }
  }

  lemma ScalarToken(reg: Registry, o: Options, ty: Type, v: Val)
    requires RegistryOk(reg) && ValFits(reg, ty, v) && !IsMessageType(ty)
    ensures GoodToken(ScalarText(reg, o, ty, v))
  {
    hide CEscape, SignedText, InRange, EnumName, ValidUtf8, GoodToken;
    match ty
    case TInt32 | TInt64 | TUint32 | TUint64 => IntToken(v.n);
    case TBool => NameToken(if v.b then "true" else "false");
    case TEnum(name) =>
      EnumNameBack(EnumValues(reg, name), v.n);
      NameToken(EnumName(EnumValues(reg, name), v.n).value);
    case TString => StringIsToken(v.bytes, o.asUtf8);
    case TBytes => StringIsToken(v.bytes, false);
  }

  lemma NameTextToken(reg: Registry, o: Options, t: string, i: nat)
    requires RegistryOk(reg) && t in reg.messages && i < |DescOf(reg, t).byNumber|
    ensures GoodToken(NameText(o, DescOf(reg, t).byNumber[i]))
  {
    hide GoodToken, Unsigned;
    var f := DescOf(reg, t).byNumber[i];
    DescOkOf(reg, t);
    assert FieldOk(reg, DescOf(reg, t).byNumber, f);
    if o.fieldNumber {
      IntToken(f.number);
    } else if f.ty.TGroup? {
      NameToken(f.ty.name);
    } else {
      NameToken(f.name);
    }
  }

  // ----- the printed pieces are spaced -----

  lemma {:induction false} BlankSpaces(n: nat)
    ensures Blank(Spaces(n))
  {
    if n > 0 {
      BlankSpaces(n - 1);
    }
  }

  lemma LooseBefore(o: Options)
    ensures Loose(Before(o)) && StopsToken(Before(o)[0])
  {
    hide GoodToken;
    SymbolToken(Opening(o));
  }

  lemma SpacedAfter(o: Options, indent: nat)
    ensures Loose(After(o, indent) + LineEnd(o))
  {
    hide GoodToken, Spaces;
    SymbolToken(Closing(o));
    BlankSpaces(indent);
    if o.oneLine {
      assert After(o, indent) + LineEnd(o) == [Tok(Closing(o)), Gap(" ")];
    } else {
      assert After(o, indent) + LineEnd(o) == [Gap(Spaces(indent)), Tok(Closing(o)), Gap("\n")];
    }
  }

  lemma SpacedHead(indent: nat, name: string)
    requires GoodToken(name)
    ensures Spaced([Gap(Spaces(indent)), Tok(name)])
  {
    hide GoodToken, Spaces;
    BlankSpaces(indent);
  }

  /** A name, what stands around a message, and its fields. */
  lemma LooseMessage(o: Options, name: string, inner: seq<Piece>, indent: nat)
    requires GoodToken(name) && Loose(inner)
    ensures Loose([Gap(Spaces(indent)), Tok(name)] + (Before(o) + inner + (After(o, indent) + LineEnd(o))))
  {
    hide GoodToken, Spaces, Before, After, LineEnd, Spaced;
    SpacedHead(indent, name);
    LooseBefore(o);
    SpacedAfter(o, indent);
    LooseConcat(Before(o), inner);
    LooseConcat(Before(o) + inner, After(o, indent) + LineEnd(o));
    var body := Before(o) + inner + (After(o, indent) + LineEnd(o));
    assert body[0] == Before(o)[0] by { BeforeNotEmpty(o); }
    SpacedConcat([Gap(Spaces(indent)), Tok(name)], body);
    LastOfConcat([Gap(Spaces(indent)), Tok(name)], body);
  }

  lemma BeforeNotEmpty(o: Options)
    ensures Before(o) != []
  {
  }

  lemma LastOfConcat(ps: seq<Piece>, qs: seq<Piece>)
    ensures qs != [] ==> Last(ps + qs) == Last(qs)
  {
  }

  lemma LooseScalar(o: Options, name: string, text: string, indent: nat)
    requires GoodToken(name) && GoodToken(text)
    ensures Loose([Gap(Spaces(indent)), Tok(name)] + [Tok(":"), Gap(" ")] + [Tok(text)] + LineEnd(o))
  {
    hide GoodToken, Spaces;
    BlankSpaces(indent);
    SymbolToken(":");
    assert [Gap(Spaces(indent)), Tok(name)] + [Tok(":"), Gap(" ")] + [Tok(text)] + LineEnd(o)
        == [Gap(Spaces(indent)), Tok(name), Tok(":"), Gap(" "), Tok(text), LineEnd(o)[0]];
  }

  lemma {:induction false} LooseField(reg: Registry, o: Options, t: string, i: nat, v: Val, indent: nat)
    requires RegistryOk(reg) && t in reg.messages && i < |DescOf(reg, t).byNumber|
    requires ValFits(reg, DescOf(reg, t).byNumber[i].ty, v)
    ensures Loose(FieldPieces(reg, o, DescOf(reg, t).byNumber[i], v, indent))
    decreases v, 0
  {
    hide GoodToken, Spaces, DescOf, RegistryOk, MessagePieces, NameText, ScalarText, MsgFits, Loose, Before, After, LineEnd;
    var f := DescOf(reg, t).byNumber[i];
    NameTextToken(reg, o, t, i);
    if IsMessageType(f.ty) {
      var inner := MessagePieces(reg, o, f.ty.name, v.m, Deeper(o, indent));
      LooseFields(reg, o, f.ty.name, v.m, Deeper(o, indent));
      LooseMessage(o, NameText(o, f), inner, indent);
      assert FieldPieces(reg, o, f, v, indent)
          == [Gap(Spaces(indent)), Tok(NameText(o, f))] + (Before(o) + inner + (After(o, indent) + LineEnd(o)));
    } else {
      ScalarToken(reg, o, f.ty, v);
      LooseScalar(o, NameText(o, f), ScalarText(reg, o, f.ty, v), indent);
    }
  }

  lemma {:induction false} LooseEntry(reg: Registry, o: Options, t: string, i: nat, e: (Val, Val), indent: nat)
    requires RegistryOk(reg) && t in reg.messages && i < |DescOf(reg, t).byNumber|
    requires var f := DescOf(reg, t).byNumber[i];
      && f.ty.TMap? && EntryOk(DescOf(reg, f.ty.name))
      && ValFits(reg, EntryField(reg, f.ty.name, 1).ty, e.0) && ValFits(reg, EntryField(reg, f.ty.name, 2).ty, e.1)
    ensures Loose(EntryPieces(reg, o, DescOf(reg, t).byNumber[i], e, indent))
    decreases e, 1
  {
    hide GoodToken, Spaces, DescOf, RegistryOk, FieldPieces, NameText, ValFits, Loose, Before, After, LineEnd, EntryField, EntryOk;
    var f := DescOf(reg, t).byNumber[i];
    NameTextToken(reg, o, t, i);
    EntryDesc(reg, f.ty.name);
    var key := FieldPieces(reg, o, EntryField(reg, f.ty.name, 1), e.0, Deeper(o, indent));
    var value := FieldPieces(reg, o, EntryField(reg, f.ty.name, 2), e.1, Deeper(o, indent));
    LooseField(reg, o, f.ty.name, 0, e.0, Deeper(o, indent));
    LooseField(reg, o, f.ty.name, 1, e.1, Deeper(o, indent));
    LooseConcat(key, value);
    LooseMessage(o, NameText(o, f), key + value, indent);
    assert EntryPieces(reg, o, f, e, indent)
        == [Gap(Spaces(indent)), Tok(NameText(o, f))] + (Before(o) + (key + value) + (After(o, indent) + LineEnd(o)));
  }

  lemma NothingLoose()
    ensures Loose([])
  {
  }

  lemma {:induction false} LooseMany(reg: Registry, o: Options, t: string, i: nat, vs: seq<Val>, indent: nat)
    requires RegistryOk(reg) && t in reg.messages && i < |DescOf(reg, t).byNumber|
    requires forall k :: 0 <= k < |vs| ==> ValFits(reg, DescOf(reg, t).byNumber[i].ty, vs[k])
    ensures Loose(ManyPieces(reg, o, DescOf(reg, t).byNumber[i], vs, indent))
    decreases vs, 1
  {
    hide DescOf, RegistryOk, FieldPieces, ValFits, Loose;
    var f := DescOf(reg, t).byNumber[i];
    NothingLoose();
    if vs != [] {
      LooseField(reg, o, t, i, vs[0], indent);
      LooseMany(reg, o, t, i, vs[1..], indent);
      LooseConcat(FieldPieces(reg, o, f, vs[0], indent), ManyPieces(reg, o, f, vs[1..], indent));
    }
  }

  lemma {:induction false} LooseEntries(reg: Registry, o: Options, t: string, i: nat, es: seq<(Val, Val)>, indent: nat)
    requires RegistryOk(reg) && t in reg.messages && i < |DescOf(reg, t).byNumber|
    requires var f := DescOf(reg, t).byNumber[i];
      && f.ty.TMap? && EntryOk(DescOf(reg, f.ty.name))
      && forall k :: 0 <= k < |es| ==>
           ValFits(reg, EntryField(reg, f.ty.name, 1).ty, es[k].0) && ValFits(reg, EntryField(reg, f.ty.name, 2).ty, es[k].1)
    ensures Loose(EntriesPieces(reg, o, DescOf(reg, t).byNumber[i], es, indent))
    decreases es, 2
  {
    hide DescOf, RegistryOk, EntryPieces, ValFits, Loose, EntryField, EntryOk;
    var f := DescOf(reg, t).byNumber[i];
    NothingLoose();
    if es != [] {
      LooseEntry(reg, o, t, i, es[0], indent);
      LooseEntries(reg, o, t, i, es[1..], indent);
      LooseConcat(EntryPieces(reg, o, f, es[0], indent), EntriesPieces(reg, o, f, es[1..], indent));
    }
  }

  lemma {:induction false} LooseContent(reg: Registry, o: Options, t: string, i: nat, c: Content, indent: nat)
    requires RegistryOk(reg) && t in reg.messages && i < |DescOf(reg, t).byNumber|
    requires ContentFits(reg, DescOf(reg, t).byNumber[i], c)
    ensures Loose(ContentPieces(reg, o, DescOf(reg, t).byNumber[i], c, indent))
    decreases c, 3
  {
    hide DescOf, RegistryOk, FieldPieces, ManyPieces, EntriesPieces, ValFits, Loose, KeyBefore, EntryField, EntryOk;
    RuleOfUnion(reg, t, i);
    match c
    case One(v) => LooseField(reg, o, t, i, v, indent);
    case Many(vs) => LooseMany(reg, o, t, i, vs, indent);
    case Entries(es) => LooseEntries(reg, o, t, i, es, indent);
  }

  lemma {:induction false} LooseFieldList(reg: Registry, o: Options, t: string, fs: seq<FieldDesc>, m: Msg, indent: nat)
    requires RegistryOk(reg) && MsgFits(reg, t, m) && Listed(DescOf(reg, t), fs, m)
    ensures Loose(FieldsPieces(reg, o, fs, m, indent))
    decreases m, 4, |fs|
  {
    hide DescOf, RegistryOk, ContentPieces, ContentFits, Loose, MsgFits;
    NothingLoose();
    if fs != [] {
      var i :| 0 <= i < |DescOf(reg, t).byNumber| && DescOf(reg, t).byNumber[i] == fs[0];
      var c := m.fields[fs[0].number];
      FieldFits(reg, t, m, i);
      InMessages(reg, t, m);
      LooseContent(reg, o, t, i, c, indent);
      LooseFieldList(reg, o, t, fs[1..], m, indent);
      LooseConcat(ContentPieces(reg, o, fs[0], c, indent), FieldsPieces(reg, o, fs[1..], m, indent));
    }
  }

  lemma {:induction false} LooseFields(reg: Registry, o: Options, t: string, m: Msg, indent: nat)
    requires RegistryOk(reg) && MsgFits(reg, t, m)
    ensures Loose(MessagePieces(reg, o, t, m, indent))
    decreases m, 5
  {
    hide DescOf, RegistryOk, FieldsPieces, Loose, MsgFits, ListFields;
    ListOk(reg, o, t, m);
    LooseFieldList(reg, o, t, ListFields(reg, o, t, m), m, indent);
  }

  // ----- spaced pieces are tokenised into their tokens -----

  lemma {:induction false} SkipBlank(s: string, rest: string)
    requires Blank(s)
    ensures Tokenize(s + rest) == Tokenize(rest)
  {
    if s == "" {
      assert s + rest == rest;
    } else {
      assert (s + rest)[1..] == s[1..] + rest;
      SkipBlank(s[1..], rest);
    }
  }

  lemma TextStopped(ps: seq<Piece>)
    requires ps == [] || StopsToken(ps[0])
    ensures Stopped(TextOf(ps))
  {
  }

  lemma {:induction false} SpacedTokens(ps: seq<Piece>)
    requires Spaced(ps)
    ensures Tokenize(TextOf(ps)) == TokensOf(ps)
  {
    hide GoodToken, Blank, Tokenize;
    if ps == [] {
      assert Tokenize("") == [] by { NoText(); }
    } else {
      SpacedTokens(ps[1..]);
      match ps[0]
      case Gap(spaces) => SkipBlank(spaces, TextOf(ps[1..]));
      case Tok(t) =>
        TextStopped(ps[1..]);
        GoodTokenThen(t, TextOf(ps[1..]));
    }
  }

  lemma NoText()
    ensures Tokenize("") == []
  {
  }

  lemma GoodTokenThen(t: string, rest: string)
    requires GoodToken(t) && Stopped(rest)
    ensures Tokenize(t + rest) == [t] + Tokenize(rest)
  {
    TokenThen(t, rest);
  }

  lemma {:induction false} StripBlank(s: string, blank: string)
    requires Blank(blank)
    ensures RightStripped(s + blank) == RightStripped(s)
    decreases |blank|
  {
    if blank == "" {
      assert s + blank == s;
    } else {
      var k := |blank| - 1;
      assert (s + blank)[..|s + blank| - 1] == s + blank[..k];
      StripBlank(s, blank[..k]);
    }
  }

  /** Stripping white space at the end loses no token. */
  lemma {:induction false} StrippedTokens(ps: seq<Piece>)
    requires Spaced(ps)
    ensures Tokenize(RightStripped(TextOf(ps))) == TokensOf(ps)
    decreases |ps|
  {
    hide GoodToken, Blank, Tokenize, TextOf, TokensOf, RightStripped;
    if ps == [] {
      assert Tokenize(RightStripped(TextOf([]))) == [] && TokensOf([]) == [] by { NoText(); NoPieces(); }
    } else {
      var front, last := Front(ps), Last(ps);
      assert ps == front + [last];
      TextConcat(front, [last]);
      TextOne(last);
      match last
      case Gap(spaces) =>
        StrippedTokens(front);
        StripBlank(TextOf(front), spaces);
        TokensConcat(front, [last]);
        TokensOfGap(spaces);
      case Tok(t) =>
        SpacedTokens(ps);
        NothingToStrip(TextOf(front), t);
    }
  }

  lemma NoPieces()
    ensures RightStripped(TextOf([])) == "" && TokensOf([]) == []
  {
  }

  lemma NothingToStrip(s: string, t: string)
    requires GoodToken(t)
    ensures RightStripped(s + t) == s + t
  {
  }

  // ----- the round trip -----

  /** The tokens of the printed text are the printed tokens. */
  lemma PrintedTokens(reg: Registry, o: Options, t: string, m: Msg)
    requires RegistryOk(reg) && MsgFits(reg, t, m)
    ensures Tokenize(MessageText(reg, o, t, m)) == TokensOf(MessagePieces(reg, o, t, m, 0))
  {
    hide Tokenize, TextOf, TokensOf, RightStripped, MessagePieces, MsgFits, RegistryOk, Spaced;
    LooseFields(reg, o, t, m, 0);
    SpacedTokens(MessagePieces(reg, o, t, m, 0));
    StrippedTokens(MessagePieces(reg, o, t, m, 0));
  }

  /** Parsing the printed text into an empty message gives the message, for every choice of layout,
      brackets, field order and escaping, and with field numbers when the parser allows them. */
  lemma ParsePrinted(reg: Registry, o: Options, mode: Mode, t: string, m: Msg)
    requires RegistryOk(reg) && MsgFits(reg, t, m)
    requires o.fieldNumber ==> mode.allowFieldNumber
    ensures ParseText(reg, mode, t, MessageText(reg, o, t, m), EMPTY) == Done(m)
  {
    hide Tokenize, TokensOf, MessagePieces, MsgFits, RegistryOk, MessageText, MergeFields;
    PrintedTokens(reg, o, t, m);
    MessageBack(reg, o, mode, t, m, 0, [], None);
    var ts := TokensOf(MessagePieces(reg, o, t, m, 0));
    assert ts + ([] + []) == ts;
  }

  lemma {:induction false} ByNameFound(fs: seq<FieldDesc>, name: string)
    ensures ByName(fs, name).Some? ==> exists i :: 0 <= i < |fs| && fs[i].name == name
  {
    if fs != [] && fs[0].name != name {
      ByNameFound(fs[1..], name);
      if ByName(fs, name).Some? {
        var i :| 0 <= i < |fs[1..]| && fs[1..][i].name == name;
        assert fs[i + 1].name == name;
      }
    }
  }

  lemma LowerDigit(s: string)
    requires s != "" && IsDigit(s[0])
    ensures Lower(s) != "" && IsDigit(Lower(s)[0])
  {
  }

  lemma NumberNotFound(reg: Registry, mode: Mode, desc: MessageDesc, number: string)
    requires DescOk(reg, desc) && !mode.allowFieldNumber && number != "" && IsDigit(number[0])
    ensures FindField(mode, desc, number) == None
  {
    hide Lower, ByName;
    LowerDigit(number);
    ByNameFound(desc.byNumber, number);
    ByNameFound(desc.byNumber, Lower(number));
    forall i | 0 <= i < |desc.byNumber|
      ensures desc.byNumber[i].name != number && desc.byNumber[i].name != Lower(number)
    {
      assert FieldOk(reg, desc.byNumber, desc.byNumber[i]);
    }
  }

  /** Text with field numbers is parsed back exactly when the parser allows them, or there is nothing
      to parse. */
  lemma NumbersNeedPermission(reg: Registry, o: Options, mode: Mode, t: string, m: Msg)
    requires RegistryOk(reg) && MsgFits(reg, t, m)
    ensures ParseText(reg, mode, t, MessageText(reg, o, t, m), EMPTY) == Done(m)
            <==> (o.fieldNumber ==> mode.allowFieldNumber) || m == EMPTY
  {
    hide Tokenize, TokensOf, MsgFits, RegistryOk, MessageText, MergeFields, ListFields, FieldsPieces;
    if o.fieldNumber ==> mode.allowFieldNumber {
      ParsePrinted(reg, o, mode, t, m);
    } else {
      PrintedTokens(reg, o, t, m);
      ListOk(reg, o, t, m);
      var fs := ListFields(reg, o, t, m);
      if fs == [] {
        assert m.fields == map[];
        NothingPrinted(reg, o, m);
        Ended(reg, mode, t, m);
      } else {
        NumberFirst(reg, o, t, fs, m);
        RejectFirst(reg, mode, t, TokensOf(MessagePieces(reg, o, t, m, 0)));
      }
    }
  }

  lemma NothingPrinted(reg: Registry, o: Options, m: Msg)
    ensures TokensOf(FieldsPieces(reg, o, [], m, 0)) == []
  {
  }

  lemma NumberFirst(reg: Registry, o: Options, t: string, fs: seq<FieldDesc>, m: Msg)
    requires RegistryOk(reg) && MsgFits(reg, t, m) && o.fieldNumber && fs != [] && Listed(DescOf(reg, t), fs, m)
    ensures t in reg.messages && m != EMPTY
    ensures var ts := TokensOf(FieldsPieces(reg, o, fs, m, 0)); ts != [] && ts[0] != "" && IsDigit(ts[0][0])
  {
    hide ContentPieces, DescOf, RegistryOk, TokensOf, ContentFits, MsgFits, Unsigned;
    assert fs[0] in DescOf(reg, t).byNumber;
    var i :| 0 <= i < |DescOf(reg, t).byNumber| && DescOf(reg, t).byNumber[i] == fs[0];
    var c := m.fields[fs[0].number];
    FieldFits(reg, t, m, i);
    InMessages(reg, t, m);
    ContentStarts(reg, o, fs[0], c, 0);
    TokensConcat(ContentPieces(reg, o, fs[0], c, 0), FieldsPieces(reg, o, fs[1..], m, 0));
    DigitsOfNumber(fs[0].number);
  }

  lemma RejectFirst(reg: Registry, mode: Mode, t: string, ts: seq<string>)
    requires RegistryOk(reg) && t in reg.messages && !mode.allowFieldNumber
    requires ts != [] && ts[0] != "" && IsDigit(ts[0][0])
    ensures MergeFields(reg, mode, t, ts, EMPTY, None) == ParseError
  {
    hide FindField, MergeOne, MergeList;
    DescOkOf(reg, t);
    NumberNotFound(reg, mode, DescOf(reg, t), ts[0]);
    assert MergeField(reg, mode, t, ts, EMPTY) == ParseError;
  }

  /** From a printer to a parser. */
  method PrintAndParse(reg: Registry, o: Options, mode: Mode, t: string, m: Msg) returns (r: Outcome<Msg>)
    requires RegistryOk(reg) && MsgFits(reg, t, m)
    requires o.fieldNumber ==> mode.allowFieldNumber
    ensures r == Done(m)
  {
    hide TextOf, MessagePieces, MsgFits, RegistryOk, ParseText, RightStripped;
    var printer := new Printer(reg, o, 0);
    printer.PrintMessage(t, m);
    var text := if o.oneLine then RightStripped(printer.out) else printer.out;
    assert printer.out == TextOf(MessagePieces(reg, o, t, m, 0));
    ParsePrinted(reg, o, mode, t, m);
    var parser := new Parser(reg, mode);
    r := parser.Parse(t, text, EMPTY);
  }
}
