/** The text format spelled out: lines and blocks, the order of fields, words, numbers and tokens. */
module TextTables {
  import opened Js
  import opened Decimal
  import opened Arith
  import opened TextEscape
  import opened Tokens
  import opened TextFormat
  import opened TextGrammar
  import Escapes
  import Scalars
  import TextLaws
  import TextRoundTrip

  // ----- what the printer writes -----

  lemma {:induction false} SpacesAre(n: nat)
    ensures Spaces(n) == seq(n, _ => ' ')
  {
    if n > 0 {
      SpacesAre(n - 1);
    }
  }

  /** How a field is called. */
  function Called(o: Options, f: FieldDesc): string {
    if o.fieldNumber then SignedText(f.number) else match f.ty case TGroup(name) => name case _ => f.name
  }

  /** How a scalar is written. */
  ghost predicate WrittenAs(reg: Registry, o: Options, ty: Type, v: Val, s: string) {
    match v
    case VInt(n) =>
      if ty.TEnum? && (exists e :: e in EnumValues(reg, ty.enumName) && e.1 == n)
      then exists i :: 0 <= i < |EnumValues(reg, ty.enumName)| && EnumValues(reg, ty.enumName)[i] == (s, n)
                       && forall j :: i < j < |EnumValues(reg, ty.enumName)| ==> EnumValues(reg, ty.enumName)[j].1 != n
      else s == SignedText(n)
    case VBool(b) => s == if b then "true" else "false"
    case VBytes(bytes) => s == "\"" + CEscape(bytes, o.asUtf8 && ty.TString?) + "\""
    case VMsg(_) => true
  }

  lemma {:induction false} LastNamed(values: seq<(string, int)>, n: int)
    ensures EnumName(values, n).Some? <==> exists e :: e in values && e.1 == n
    ensures EnumName(values, n).Some? ==> exists i :: 0 <= i < |values| && values[i] == (EnumName(values, n).value, n)
                                                     && forall j :: i < j < |values| ==> values[j].1 != n
  {
    if values != [] {
      LastNamed(values[1..], n);
      assert values == [values[0]] + values[1..];
      if EnumName(values[1..], n).Some? {
        var i :| 0 <= i < |values[1..]| && values[1..][i] == (EnumName(values[1..], n).value, n)
                 && forall j :: i < j < |values[1..]| ==> values[1..][j].1 != n;
        assert values[i + 1] == (EnumName(values, n).value, n);
        forall j | i + 1 < j < |values|
          ensures values[j].1 != n
        {
          assert values[j] == values[1..][j - 1];
        }
      } else if values[0].1 == n {
        forall j | 0 < j < |values|
          ensures values[j].1 != n
        {
          assert values[j] == values[1..][j - 1] && values[j] in values[1..];
        }
      }
    }
  }

  /** A scalar is a line of its own, or followed by a space. */
  lemma ScalarPrinted(reg: Registry, o: Options, f: FieldDesc, v: Val, indent: nat)
    requires !IsMessageType(f.ty) && (v.VBytes? ==> f.ty.TString? || f.ty.TBytes?)
    ensures exists s ::
              WrittenAs(reg, o, f.ty, v, s)
              && TextOf(FieldPieces(reg, o, f, v, indent))
                 == seq(indent, _ => ' ') + Called(o, f) + ": " + s + (if o.oneLine then " " else "\n")
  {
    hide Spaces, TextOf, CEscape;
    FieldTextOf(reg, o, f, v, indent);
    SpacesAre(indent);
    var s := ScalarText(reg, o, f.ty, v);
    OneTextOf(s);
    if f.ty.TEnum? && v.VInt? {
      LastNamed(EnumValues(reg, f.ty.enumName), v.n);
    }
    assert WrittenAs(reg, o, f.ty, v, s);
  }

  /** A message is a block in brackets, on lines of their own with two more spaces in front, or on one line. */
  lemma MessagePrinted(reg: Registry, o: Options, f: FieldDesc, m: Msg, indent: nat)
    requires IsMessageType(f.ty)
    ensures TextOf(FieldPieces(reg, o, f, VMsg(m), indent))
            == seq(indent, _ => ' ') + Called(o, f) + (if o.pointy then " <" else " {")
               + (if o.oneLine then " " + TextOf(MessagePieces(reg, o, f.ty.name, m, indent))
                  else "\n" + TextOf(MessagePieces(reg, o, f.ty.name, m, indent + 2)) + seq(indent, _ => ' '))
               + (if o.pointy then ">" else "}") + (if o.oneLine then " " else "\n")
  {
    hide Spaces, TextOf, MessagePieces;
    FieldTextOf(reg, o, f, VMsg(m), indent);
    SpacesAre(indent);
    MessageTextOf(reg, o, f, VMsg(m), indent);
    BeforeTextOf(o);
    AfterTextOf(o, indent);
  }

  ghost predicate AllSet(present: seq<FieldDesc>, fs: seq<FieldDesc>, m: Msg) {
    forall f :: f in present <==> f in fs && f.number in m.fields
  }

  lemma {:induction false} PresentSplit(before: seq<FieldDesc>, after: seq<FieldDesc>, m: Msg)
    ensures Present(before + after, m) == Present(before, m) + Present(after, m)
    ensures forall f :: f in Present(before, m) <==> f in before && f.number in m.fields
  {
    if before == [] {
      assert before + after == after;
    } else {
      assert (before + after)[1..] == before[1..] + after;
      PresentSplit(before[1..], after, m);
    }
  }

  /** By number, or in the order of their declarations: the set fields declared before a field come before it,
      and those declared after it come after it. */
  lemma FieldOrder(reg: Registry, o: Options, t: string, m: Msg, before: seq<FieldDesc>, f: FieldDesc, after: seq<FieldDesc>)
    requires t in reg.messages
    requires before + [f] + after == if o.indexOrder then reg.messages[t].byIndex else reg.messages[t].byNumber
    ensures exists x, y ::
              AllSet(x, before, m) && AllSet(y, after, m)
              && ListFields(reg, o, t, m) == x + (if f.number in m.fields then [f] else []) + y
  {
    hide Present;
    PresentSplit(before + [f], after, m);
    PresentSplit(before, [f], m);
    PresentSplit(after, [], m);
    PresentSplit([f], [], m);
    OnePresent(f, m);
    assert AllSet(Present(before, m), before, m) && AllSet(Present(after, m), after, m);
    assert ListFields(reg, o, t, m) == Present(before, m) + Present([f], m) + Present(after, m);
  }

  lemma OnePresent(f: FieldDesc, m: Msg)
    ensures Present([f], m) == if f.number in m.fields then [f] else []
  {
    assert [f][1..] == [];
  }

  /** The values of a repeated field come in their order, each like a field of its own. */
  lemma {:induction false} ValuesPrinted(reg: Registry, o: Options, f: FieldDesc, vs: seq<Val>, v: Val, indent: nat)
    ensures TextOf(ContentPieces(reg, o, f, Many(vs + [v]), indent))
            == TextOf(ContentPieces(reg, o, f, Many(vs), indent)) + TextOf(ContentPieces(reg, o, f, One(v), indent))
    decreases |vs|
  {
    hide FieldPieces, TextOf;
    if vs == [] {
      assert ([] + [v])[1..] == [] && vs + [v] == [v];
      assert FieldPieces(reg, o, f, v, indent) + [] == FieldPieces(reg, o, f, v, indent);
      TextNothing();
    } else {
      assert (vs + [v])[1..] == vs[1..] + [v];
      ValuesPrinted(reg, o, f, vs[1..], v, indent);
      TextConcat(FieldPieces(reg, o, f, vs[0], indent), ManyPieces(reg, o, f, vs[1..] + [v], indent));
      TextConcat(FieldPieces(reg, o, f, vs[0], indent), ManyPieces(reg, o, f, vs[1..], indent));
    }
  }

  /** A map entry is a block with a key and a value. */
  lemma EntryPrinted(reg: Registry, o: Options, f: FieldDesc, e: (Val, Val), indent: nat)
    requires f.ty.TMap?
    ensures var inside := if o.oneLine then indent else indent + 2;
            TextOf(ContentPieces(reg, o, f, Entries([e]), indent))
            == seq(indent, _ => ' ') + Called(o, f) + (if o.pointy then " <" else " {") + (if o.oneLine then " " else "\n")
               + TextOf(FieldPieces(reg, o, EntryField(reg, f.ty.name, 1), e.0, inside))
               + TextOf(FieldPieces(reg, o, EntryField(reg, f.ty.name, 2), e.1, inside))
               + (if o.oneLine then "" else seq(indent, _ => ' ')) + (if o.pointy then ">" else "}") + (if o.oneLine then " " else "\n")
  {
    hide Spaces, TextOf, FieldPieces, EntryField, EntryPieces;
    EntriesStep(reg, o, f, [e], indent);
    assert [e][1..] == [];
    NoEntries(reg, o, f, indent);
    assert EntryPieces(reg, o, f, e, indent) + [] == EntryPieces(reg, o, f, e, indent);
    EntryTextOf(reg, o, f, e, indent);
    SpacesAre(indent);
    BeforeTextOf(o);
    AfterTextOf(o, indent);
  }

  /** The entries of a map come in their order. */
  lemma {:induction false} EntriesPrinted(reg: Registry, o: Options, f: FieldDesc, es: seq<(Val, Val)>, e: (Val, Val), indent: nat)
    requires f.ty.TMap?
    ensures TextOf(ContentPieces(reg, o, f, Entries(es + [e]), indent))
            == TextOf(ContentPieces(reg, o, f, Entries(es), indent)) + TextOf(ContentPieces(reg, o, f, Entries([e]), indent))
    decreases |es|
  {
    hide EntryPieces, TextOf, EntriesPieces;
    if es == [] {
      assert es + [e] == [e];
      NoEntries(reg, o, f, indent);
      TextNothing();
    } else {
      assert (es + [e])[1..] == es[1..] + [e];
      EntriesPrinted(reg, o, f, es[1..], e, indent);
      EntriesStep(reg, o, f, es, indent);
      EntriesStep(reg, o, f, es + [e], indent);
      TextConcat(EntryPieces(reg, o, f, es[0], indent), EntriesPieces(reg, o, f, es[1..] + [e], indent));
      TextConcat(EntryPieces(reg, o, f, es[0], indent), EntriesPieces(reg, o, f, es[1..], indent));
    }
  }

  /** The fields of a message are printed in their order, and only those that are set. */
  lemma {:induction false} FieldsPrinted(reg: Registry, o: Options, fs: seq<FieldDesc>, f: FieldDesc, m: Msg, indent: nat)
    ensures TextOf(FieldsPieces(reg, o, fs + [f], m, indent))
            == TextOf(FieldsPieces(reg, o, fs, m, indent))
               + (if f.number in m.fields then TextOf(ContentPieces(reg, o, f, m.fields[f.number], indent)) else "")
    decreases |fs|
  {
    hide ContentPieces, TextOf, FieldsPieces;
    FieldsStep(reg, o, fs + [f], m, indent);
    if fs == [] {
      assert (fs + [f])[1..] == [];
      NoFields(reg, o, [], m, indent);
      TextNothing();
      if f.number in m.fields {
        var content := ContentPieces(reg, o, f, m.fields[f.number], indent);
        assert content + [] == content;
      }
    } else {
      assert (fs + [f])[1..] == fs[1..] + [f];
      FieldsPrinted(reg, o, fs[1..], f, m, indent);
      FieldsStep(reg, o, fs, m, indent);
      if fs[0].number in m.fields {
        var content := ContentPieces(reg, o, fs[0], m.fields[fs[0].number], indent);
        TextConcat(content, FieldsPieces(reg, o, fs[1..] + [f], m, indent));
        TextConcat(content, FieldsPieces(reg, o, fs[1..], m, indent));
      }
    }
  }

  /** A text on one line loses the white space at its end, and nothing else. */
  lemma {:induction false} StrippedIs(s: string)
    ensures RightStripped(s) <= s && (forall i :: |RightStripped(s)| <= i < |s| ==> IsSpace(s[i]))
    ensures RightStripped(s) != "" ==> !IsSpace(RightStripped(s)[|RightStripped(s)| - 1])
  {
    hide IsSpace;
    if s != "" && IsSpace(s[|s| - 1]) {
      StrippedIs(s[..|s| - 1]);
    }
  }

  // ----- tokens -----

  predicate Letter(c: char) { 'a' <= c <= 'z' || 'A' <= c <= 'Z' || c == '_' }

  predicate Figure(c: char) { '0' <= c <= '9' }

  /** What an identifier may contain behind its first letter, and with a point a number. */
  predicate Inside(c: char, point: bool) {
    Letter(c) || Figure(c) || c in (if point then "+-." else "+-")
  }

  predicate InsideAll(s: string, point: bool) { forall i :: 0 <= i < |s| ==> Inside(s[i], point) }

  lemma TokenOfText(token: string, rest: string)
    requires token != "" && !IsSpace(token[0]) && token[0] != '#' && TokenLength(token + rest) == |token|
    ensures Tokenize(token + rest) == [token] + Tokenize(rest)
  {
    assert (token + rest)[..|token|] == token && (token + rest)[|token|..] == rest;
  }

  /** Identifiers go as far as they can, */
  lemma NameToken(token: string, rest: string)
    requires token != "" && Letter(token[0]) && InsideAll(token[1..], false) && (rest == "" || !Inside(rest[0], false))
    ensures Tokenize(token + rest) == [token] + Tokenize(rest)
  {
    hide Tokenize;
    assert (token + rest)[1..] == token[1..] + rest;
    RunThen(token[1..], rest, false);
    TokenOfText(token, rest);
  }

  /** and so do numbers, */
  lemma NumberToken(token: string, rest: string)
    requires token != "" && (Figure(token[0]) || token[0] in "+-")
    requires InsideAll(token[1..], true) && (rest == "" || !Inside(rest[0], true))
    ensures Tokenize(token + rest) == [token] + Tokenize(rest)
  {
    hide Tokenize;
    assert (token + rest)[1..] == token[1..] + rest;
    RunThen(token[1..], rest, true);
    TokenOfText(token, rest);
  }

  /** which may start with a point. */
  lemma PointToken(token: string, rest: string)
    requires |token| > 1 && token[0] == '.' && Figure(token[1])
    requires InsideAll(token[2..], true) && (rest == "" || !Inside(rest[0], true))
    ensures Tokenize(token + rest) == [token] + Tokenize(rest)
  {
    hide Tokenize;
    assert (token + rest)[2..] == token[2..] + rest;
    RunThen(token[2..], rest, true);
    TokenOfText(token, rest);
  }

  lemma {:induction false} QuotedText(s: string, quote: char, rest: string)
    requires forall i :: 0 <= i < |s| ==> s[i] != quote && s[i] != '\\' && s[i] != '\n'
    requires quote != '\n' && quote != '\\'
    ensures Quoted(s + [quote] + rest, quote) == |s| + 1
  {
    var whole := s + [quote] + rest;
    if s == "" {
      assert whole[0] == quote;
    } else {
      assert whole[1..] == s[1..] + [quote] + rest && whole[0] == s[0];
      QuotedText(s[1..], quote, rest);
    }
  }

  /** Text between two quotes of either kind. */
  lemma QuotedToken(s: string, quote: char, rest: string)
    requires quote in "\"'" && forall i :: 0 <= i < |s| ==> s[i] != quote && s[i] != '\\' && s[i] != '\n'
    ensures Tokenize([quote] + s + [quote] + rest) == [[quote] + s + [quote]] + Tokenize(rest)
  {
    hide Tokenize;
    var token := [quote] + s + [quote];
    assert (token + rest)[1..] == s + [quote] + rest;
    QuotedText(s, quote, rest);
    TokenOfText(token, rest);
  }

  /** White space, comments, and every other character by itself. */
  lemma OtherTokens(c: char, comment: string, rest: string)
    ensures c in " \t\n\r" ==> Tokenize([c] + rest) == Tokenize(rest)
    ensures '\n' !in comment ==> Tokenize("#" + comment + "\n" + rest) == Tokenize(rest)
    ensures c in "{}<>[]:,;/" ==> Tokenize([c] + rest) == [[c]] + Tokenize(rest)
  {
    hide Tokenize;
    if c in " \t\n\r" {
      SpaceSkipped([c] + rest);
      assert ([c] + rest)[1..] == rest;
    }
    if '\n' !in comment {
      CommentLength(comment, rest);
      CommentSkipped("#" + comment + "\n" + rest);
      assert ("#" + comment + "\n" + rest)[1..] == comment + "\n" + rest;
      assert ("#" + comment + "\n" + rest)[1 + |comment|..] == "\n" + rest;
      SpaceSkipped("\n" + rest);
      assert ("\n" + rest)[1..] == rest;
    }
    if c in "{}<>[]:,;/" {
      TokenOfText([c], rest);
    }
  }

  lemma SpaceSkipped(s: string)
    requires s != "" && IsSpace(s[0])
    ensures Tokenize(s) == Tokenize(s[1..])
  {
  }

  lemma CommentSkipped(s: string)
    requires s != "" && s[0] == '#'
    ensures Tokenize(s) == Tokenize(s[1 + LineLength(s[1..])..])
  {
  }

  lemma {:induction false} CommentLength(s: string, rest: string)
    requires '\n' !in s
    ensures LineLength(s + "\n" + rest) == |s|
  {
    var whole := s + "\n" + rest;
    if s == "" {
      assert whole[0] == '\n';
    } else {
      assert whole[1..] == s[1..] + "\n" + rest && whole[0] == s[0];
      CommentLength(s[1..], rest);
    }
  }

  // ----- words and numbers -----

  /** The words for truth values. */
  lemma BoolWords(reg: Registry, s: string)
    ensures ParseScalar(reg, TBool, [s]) ==
            if s in ["true", "t", "1", "True"] then Done((VBool(true), []))
            else if s in ["false", "f", "0", "False"] then Done((VBool(false), []))
            else ParseError
  {
    assert [s][1..] == [];
  }

  /** Which integers fit, by their decimal text. */
  lemma IntegersFit(reg: Registry, ty: Type, n: int)
    requires ty.TInt32? || ty.TInt64? || ty.TUint32? || ty.TUint64?
    ensures ParseScalar(reg, ty, [SignedText(n)]) ==
            if (match ty
                case TInt32 => -2147483648 <= n <= 2147483647
                case TInt64 => -9223372036854775808 <= n <= 9223372036854775807
                case TUint32 => 0 <= n <= 4294967295
                case _ => 0 <= n <= 18446744073709551615)
            then Done((VInt(n), [])) else ParseError
  {
    hide PythonInt;
    TextRoundTrip.PythonIntBack(n);
    assert [SignedText(n)][1..] == [];
  }

  /** An integer behind its sign. */
  function Signed(sign: string, n: nat): int { if sign == "-" then 0 - n else n }

  predicate IsSign(sign: string) { sign == "" || sign == "+" || sign == "-" }

  lemma BehindSign(sign: string, s: string)
    requires IsSign(sign) && s != "" && s[0] != '+' && s[0] != '-'
    ensures PythonInt(sign + s) == match PythonNat(s) case Some(n) => Some(Signed(sign, n)) case None => None
  {
    hide PythonNat;
    if sign == "" {
      assert sign + s == s;
    } else {
      assert (sign + s)[1..] == s && (sign + s)[0] == sign[0];
    }
  }

  lemma {:induction false} InBaseIs(ds: string, radix: nat)
    requires radix <= 16
    ensures InBase(ds, radix) == if Escapes.InBaseDigits(ds, radix) then Some(Escapes.Denoted(ds, radix)) else None
  {
    hide IsHex, HexValue, Escapes.DigitOf;
    if ds != "" {
      var k := |ds| - 1;
      InBaseIs(ds[..k], radix);
      Escapes.HexAgrees(ds[k]);
      assert Escapes.InBaseDigits(ds, radix) <==> Escapes.InBaseDigits(ds[..k], radix) && Escapes.DigitOf(ds[k]) < radix;
    }
  }

  /** Hexadecimal, octal and binary literals; a sign may stand in front. */
  lemma PrefixedNumeral(sign: string, c: char, ds: string)
    requires IsSign(sign) && c in "xXoObB"
    ensures var radix := if c in "xX" then 16 else if c in "oO" then 8 else 2;
            PythonInt(sign + "0" + [c] + ds)
            == if ds != "" && Escapes.InBaseDigits(ds, radix) then Some(Signed(sign, Escapes.Denoted(ds, radix))) else None
  {
    hide InBase, Escapes.Denoted, Escapes.InBaseDigits, Number;
    var s, radix := "0" + [c] + ds, if c in "xX" then 16 else if c in "oO" then 8 else 2;
    assert sign + "0" + [c] + ds == sign + s && s[2..] == ds && s[1] == c;
    BehindSign(sign, s);
    InBaseIs(ds, radix);
    assert !IsDigit(c);
  }

  lemma {:induction false} NumberIs(ds: string)
    requires AllDigits(ds)
    ensures Number(ds) == Escapes.Denoted(ds, 10)
  {
    if ds != "" {
      NumberIs(ds[..|ds| - 1]);
    }
  }

  /** Decimal literals do not start with a zero, unless they are nothing but zeros. */
  lemma DecimalNumeral(sign: string, ds: string)
    requires IsSign(sign) && ds != "" && forall i :: 0 <= i < |ds| ==> '0' <= ds[i] <= '9'
    ensures PythonInt(sign + ds)
            == if ds[0] != '0' || Escapes.Denoted(ds, 10) == 0 then Some(Signed(sign, Escapes.Denoted(ds, 10))) else None
  {
    hide Escapes.Denoted, Number;
    BehindSign(sign, ds);
    NumberIs(ds);
  }

  // ----- strings -----

  /** A text of characters and escapes between two quotes of either kind. */
  function Between(quote: char, us: seq<Escapes.Unit>): string { [quote] + Escapes.ShownAll(us) + [quote] }

  lemma OneBetween(quote: char, us: seq<Escapes.Unit>)
    requires (quote == '"' || quote == '\'') && Escapes.UnitsOk(us)
    ensures OneString(Between(quote, us)) == Done(Escapes.BytesOf(us)) && IsStringToken(Between(quote, us))
  {
    hide CUnescape, Escapes.ShownAll, Escapes.BytesOf, Escapes.UnitsOk;
    var t := Between(quote, us);
    Escapes.UnescapeUnits(us);
    assert t[1..|t| - 1] == Escapes.ShownAll(us) && t[0] == t[|t| - 1] == quote;
  }

  /** String tokens one after another are one value: the bytes that their characters and escapes denote. In a
      text field they must be valid UTF-8. */
  lemma StringsRead(reg: Registry, quote: char, us: seq<Escapes.Unit>, other: char, more: seq<Escapes.Unit>)
    requires (quote == '"' || quote == '\'') && Escapes.UnitsOk(us)
    requires (other == '"' || other == '\'') && Escapes.UnitsOk(more)
    ensures var bytes := Escapes.BytesOf(us) + Escapes.BytesOf(more);
            var ts := [Between(quote, us), Between(other, more)];
            && ParseScalar(reg, TBytes, ts) == Done((VBytes(bytes), []))
            && ParseScalar(reg, TString, ts) == if Scalars.FromUtf8(bytes).Some? then Done((VBytes(bytes), [])) else ParseError
  {
    hide OneString, Between, Escapes.BytesOf, Escapes.UnitsOk, ValidUtf8, Scalars.FromUtf8;
    OneBetween(quote, us);
    OneBetween(other, more);
    var ts := [Between(quote, us), Between(other, more)];
    assert ts[1..] == [Between(other, more)] && ts[1..][1..] == [];
    assert ByteString(ts[1..]) == Done((Escapes.BytesOf(more), []));
    Scalars.StrictIsValid(Escapes.BytesOf(us) + Escapes.BytesOf(more));
  }

  /** What an entry without a key or a value has. */
  lemma Defaults(reg: Registry, name: string)
    ensures Default(reg, TInt32) == Default(reg, TUint32) == Default(reg, TInt64) == Default(reg, TUint64) == VInt(0)
    ensures Default(reg, TBool) == VBool(false) && Default(reg, TString) == Default(reg, TBytes) == VBytes([])
    ensures name in reg.enums && reg.enums[name] != [] ==> Default(reg, TEnum(name)) == VInt(reg.enums[name][0].1)
    ensures Default(reg, TMessage(name)) == VMsg(Msg(map[]))
  {
  }

  // ----- a list of numbers -----

  /** `1, 2, 3` */
  function NumberList(ns: seq<int>): string {
    if ns == [] then "" else SignedText(ns[0]) + (if |ns| == 1 then "" else ", " + NumberList(ns[1..]))
  }

  predicate AllInt32(ns: seq<int>) { forall i :: 0 <= i < |ns| ==> -0x8000_0000 <= ns[i] < 0x8000_0000 }

  function NumberTokens(ns: seq<int>): seq<seq<string>> {
    if ns == [] then [] else [[SignedText(ns[0])]] + NumberTokens(ns[1..])
  }

  function NumberValues(ns: seq<int>): seq<Val> {
    if ns == [] then [] else [VInt(ns[0])] + NumberValues(ns[1..])
  }

  lemma SignedToken(n: int, rest: string)
    requires rest == "" || !Inside(rest[0], true)
    ensures Tokenize(SignedText(n) + rest) == [SignedText(n)] + Tokenize(rest)
  {
    hide Tokenize, Unsigned;
    var digits := Unsigned(if n < 0 then -n else n);
    UnsignedDenotes(if n < 0 then -n else n);
    NumberToken(SignedText(n), rest);
  }

  lemma NumberListUnfold(ns: seq<int>)
    requires ns != []
    ensures NumberList(ns) == if |ns| == 1 then SignedText(ns[0]) else SignedText(ns[0]) + ", " + NumberList(ns[1..])
  {
    hide SignedText;
  }

  lemma NumberTokensUnfold(ns: seq<int>)
    requires ns != []
    ensures TextLaws.CommaList(NumberTokens(ns))
            == if |ns| == 1 then [SignedText(ns[0])] else [SignedText(ns[0])] + [","] + TextLaws.CommaList(NumberTokens(ns[1..]))
  {
    hide SignedText;
    assert NumberTokens(ns)[1..] == NumberTokens(ns[1..]);
  }

  lemma Regrouped<T>(a: seq<T>, b: seq<T>, c: seq<T>, d: seq<T>)
    ensures a + b + c + d == a + (b + c + d) && a + b + c == a + (b + c)
  {
  }

  lemma {:induction false} ListTokens(ns: seq<int>, rest: string)
    requires ns != []
    ensures Tokenize(NumberList(ns) + "]" + rest) == TextLaws.CommaList(NumberTokens(ns)) + (["]"] + Tokenize(rest))
  {
    hide Tokenize, SignedText, NumberList, NumberTokens, TextLaws.CommaList;
    NumberListUnfold(ns);
    NumberTokensUnfold(ns);
    var one := SignedText(ns[0]);
    if |ns| == 1 {
      OtherTokens(']', "", rest);
      assert [']'] + rest == "]" + rest;
      Regrouped(one, "]", rest, "");
      SignedToken(ns[0], "]" + rest);
    } else {
      var others, tokens := NumberList(ns[1..]), TextLaws.CommaList(NumberTokens(ns[1..]));
      ListTokens(ns[1..], rest);
      CommaToken(ns[0], others + "]" + rest);
      Regrouped(one + ", ", others, "]", rest);
      Regrouped([one] + [","], tokens, ["]"] + Tokenize(rest), []);
      assert [one] + [","] == [one, ","];
    }
  }

  lemma CommaToken(n: int, tail: string)
    ensures Tokenize(SignedText(n) + ", " + tail) == [SignedText(n), ","] + Tokenize(tail)
  {
    hide Tokenize, SignedText;
    assert SignedText(n) + ", " + tail == SignedText(n) + ([','] + ([' '] + tail));
    SignedToken(n, [','] + ([' '] + tail));
    OtherTokens(',', "", [' '] + tail);
    OtherTokens(' ', "", tail);
  }

  lemma {:induction false} NumbersMean(reg: Registry, mode: Mode, ns: seq<int>)
    requires AllInt32(ns)
    ensures TextLaws.AllMean(reg, mode, TInt32, NumberTokens(ns), NumberValues(ns))
  {
    hide SignedText, TextLaws.Means;
    if ns != [] {
      NumbersMean(reg, mode, ns[1..]);
      OneMeans(reg, mode, ns[0]);
    }
  }

  lemma OneMeans(reg: Registry, mode: Mode, n: int)
    requires -0x8000_0000 <= n < 0x8000_0000
    ensures TextLaws.Means(reg, mode, TInt32, [SignedText(n)], VInt(n))
  {
    hide SignedText, ParseScalar;
    IntegersFit(reg, TInt32, n);
  }

  lemma ListTextTokens(name: string, ns: seq<int>)
    requires ns != [] && name != "" && Letter(name[0]) && InsideAll(name[1..], false)
    ensures Tokenize(name + ": [" + NumberList(ns) + "]") == TextLaws.ShortForm(name, NumberTokens(ns))
  {
    hide Tokenize, NumberList, TextLaws.CommaList;
    var body := NumberList(ns) + "]";
    assert name + ": [" + NumberList(ns) + "]" == name + ([':'] + ([' '] + (['['] + body)));
    NameToken(name, [':'] + ([' '] + (['['] + body)));
    OtherTokens(':', "", [' '] + (['['] + body));
    OtherTokens(' ', "", ['['] + body);
    OtherTokens('[', "", body);
    ListTokens(ns, "");
    assert body + "" == body;
    assert Tokenize("") == [] by { NothingToRead(); }
  }

  /** `name: [n1, ..., nk]` appends the numbers to the repeated field. */
  lemma NumberListRead(reg: Registry, mode: Mode, t: string, f: FieldDesc, ns: seq<int>, m: Msg)
    requires TextRoundTrip.RegistryOk(reg) && t in reg.messages && f in DescOf(reg, t).byNumber
    requires f.rule == Repeated && f.ty == TInt32 && ns != [] && AllInt32(ns)
    ensures ParseText(reg, mode, t, f.name + ": [" + NumberList(ns) + "]", m)
            == Done(Msg(m.fields[f.number :=
                 Many((if f.number in m.fields && m.fields[f.number].Many? then m.fields[f.number].vs else []) + NumberValues(ns))]))
  {
    hide Tokenize, DescOf, MergeFields, TextRoundTrip.RegistryOk, NumberList, TextLaws.AllMean, TextLaws.Taken,
      TextLaws.ShortForm, TextLaws.LongForm, AllInt32, InsideAll;
    var vs, xs := NumberTokens(ns), NumberValues(ns);
    FieldNameIs(reg, t, f);
    ListTextTokens(f.name, ns);
    NumbersMean(reg, mode, ns);
    TextLaws.ShortIsLong(reg, mode, t, f, f.name, vs, xs, [], m, None);
    assert TextLaws.ShortForm(f.name, vs) + [] == TextLaws.ShortForm(f.name, vs) && Separated([]) == [];
    Finished(reg, mode, t, TextLaws.Taken(reg, f, m, xs));
  }

  lemma NothingToRead()
    ensures Tokenize("") == []
  {
  }

  lemma Finished(reg: Registry, mode: Mode, t: string, m: Msg)
    ensures MergeFields(reg, mode, t, [], m, None) == Done((m, []))
  {
  }

  lemma FieldNameIs(reg: Registry, t: string, f: FieldDesc)
    requires TextRoundTrip.RegistryOk(reg) && t in reg.messages && f in DescOf(reg, t).byNumber
    ensures f.name != "" && Letter(f.name[0]) && InsideAll(f.name[1..], false)
  {
    TextRoundTrip.DescOkOf(reg, t);
    var i :| 0 <= i < |DescOf(reg, t).byNumber| && DescOf(reg, t).byNumber[i] == f;
    assert TextRoundTrip.FieldOk(reg, DescOf(reg, t).byNumber, DescOf(reg, t).byNumber[i]);
  }
}
