/** The text format of messages (`text_format.py`): the printer and the parser. A message is what
    `ListFields` shows of it: the contents of its non-empty fields by number. */
module TextFormat {
  import opened Js
  import opened Decimal
  import opened Arith
  import opened TextEscape
  import opened Tokens

  // ----- descriptors and messages -----

  datatype Rule = Optional | Repeated

  datatype Type =
    | TInt32 | TInt64 | TUint32 | TUint64 | TBool | TString | TBytes | TEnum(enumName: string)
    | TMessage(name: string) | TGroup(name: string) | TMap(name: string)

  datatype FieldDesc = FieldDesc(number: nat, name: string, rule: Rule, ty: Type, oneof: Option<nat>)

  /** The same fields in number order and in declaration order. */
  datatype MessageDesc = MessageDesc(byNumber: seq<FieldDesc>, byIndex: seq<FieldDesc>)

  datatype Registry = Registry(messages: map<string, MessageDesc>, enums: map<string, seq<(string, int)>>)

  /** Strings are given by their UTF-8 bytes. */
  datatype Val = VInt(n: int) | VBool(b: bool) | VBytes(bytes: seq<byte>) | VMsg(m: Msg)

  datatype Content = One(v: Val) | Many(vs: seq<Val>) | Entries(es: seq<(Val, Val)>)

  datatype Msg = Msg(fields: map<nat, Content>)

  const EMPTY := Msg(map[])

  predicate IsMessageType(ty: Type) { ty.TMessage? || ty.TGroup? || ty.TMap? }

  // ----- printing -----

  datatype Options = Options(oneLine: bool, pointy: bool, indexOrder: bool, fieldNumber: bool, asUtf8: bool)

  /** What the printer writes: white space, or one token. */
  datatype Piece = Gap(spaces: string) | Tok(t: string)

  function Spaces(n: nat): string {
    if n == 0 then "" else " " + Spaces(n - 1)
  }

  /** `values_by_number`: of several names for one number the last one declared. */
  function EnumName(values: seq<(string, int)>, n: int): Option<string> {
    if values == [] then None
    else match EnumName(values[1..], n)
      case Some(name) => Some(name)
      case None => if values[0].1 == n then Some(values[0].0) else None
  }

  function EnumValues(reg: Registry, name: string): seq<(string, int)> {
    if name in reg.enums then reg.enums[name] else []
  }

  /** `PrintFieldValue` for anything but messages. */
  function ScalarText(reg: Registry, o: Options, ty: Type, v: Val): string {
    match v
    case VInt(n) =>
      if ty.TEnum? then
        match EnumName(EnumValues(reg, ty.enumName), n)
        case Some(name) => name
        case None => SignedText(n)
      else SignedText(n)
    case VBool(b) => if b then "true" else "false"
    case VBytes(bytes) => "\"" + CEscape(bytes, o.asUtf8 && !ty.TBytes?) + "\""
    case VMsg(_) => ""
  }

  function NameText(o: Options, f: FieldDesc): string {
    if o.fieldNumber then Unsigned(f.number)
    else if f.ty.TGroup? then f.ty.name
    else f.name
  }

  function Opening(o: Options): string { if o.pointy then "<" else "{" }

  function Closing(o: Options): string { if o.pointy then ">" else "}" }

  function LineEnd(o: Options): seq<Piece> { [Gap(if o.oneLine then " " else "\n")] }

  function Deeper(o: Options, indent: nat): nat { if o.oneLine then indent else indent + 2 }

  /** Around the fields of a nested message. */
  function Before(o: Options): seq<Piece> {
    [Gap(" "), Tok(Opening(o)), Gap(if o.oneLine then " " else "\n")]
  }

  function After(o: Options, indent: nat): seq<Piece> {
    (if o.oneLine then [] else [Gap(Spaces(indent))]) + [Tok(Closing(o))]
  }

  function DescOf(reg: Registry, t: string): MessageDesc {
    if t in reg.messages then reg.messages[t] else MessageDesc([], [])
  }

  function Present(fs: seq<FieldDesc>, m: Msg): seq<FieldDesc> {
    if fs == [] then []
    else (if fs[0].number in m.fields then [fs[0]] else []) + Present(fs[1..], m)
  }

  /** `ListFields`, in the order the printer asks for. */
  function ListFields(reg: Registry, o: Options, t: string, m: Msg): seq<FieldDesc> {
    Present(if o.indexOrder then DescOf(reg, t).byIndex else DescOf(reg, t).byNumber, m)
  }

  /** The key and value fields of a map entry type. */
  function EntryField(reg: Registry, t: string, number: nat): FieldDesc {
    var fs := DescOf(reg, t).byNumber;
    if number == 1 && |fs| >= 1 then fs[0]
    else if number == 2 && |fs| >= 2 then fs[1]
    else FieldDesc(number, "", Optional, TInt32, None)
  }

  function FieldPieces(reg: Registry, o: Options, f: FieldDesc, v: Val, indent: nat): seq<Piece>
    decreases v, 1
  {
    [Gap(Spaces(indent)), Tok(NameText(o, f))]
    + (if IsMessageType(f.ty) then [] else [Tok(":"), Gap(" ")])
    + ValuePieces(reg, o, f, v, indent)
    + LineEnd(o)
  }

  function ValuePieces(reg: Registry, o: Options, f: FieldDesc, v: Val, indent: nat): seq<Piece>
    decreases v, 0
  {
    if IsMessageType(f.ty) then
      Before(o) + (if v.VMsg? then MessagePieces(reg, o, f.ty.name, v.m, Deeper(o, indent)) else []) + After(o, indent)
    else [Tok(ScalarText(reg, o, f.ty, v))]
  }

  /** The entry message that the printer makes for a map item has exactly a key and a value. */
  function EntryPieces(reg: Registry, o: Options, f: FieldDesc, e: (Val, Val), indent: nat): seq<Piece>
    requires IsMessageType(f.ty)
    decreases e, 2
  {
    [Gap(Spaces(indent)), Tok(NameText(o, f))]
    + Before(o)
    + FieldPieces(reg, o, EntryField(reg, f.ty.name, 1), e.0, Deeper(o, indent))
    + FieldPieces(reg, o, EntryField(reg, f.ty.name, 2), e.1, Deeper(o, indent))
    + After(o, indent)
    + LineEnd(o)
  }

  function ManyPieces(reg: Registry, o: Options, f: FieldDesc, vs: seq<Val>, indent: nat): seq<Piece>
    decreases vs, 2
  {
    if vs == [] then []
    else FieldPieces(reg, o, f, vs[0], indent) + ManyPieces(reg, o, f, vs[1..], indent)
  }

  function EntriesPieces(reg: Registry, o: Options, f: FieldDesc, es: seq<(Val, Val)>, indent: nat): seq<Piece>
    decreases es, 3
  {
    if es == [] || !IsMessageType(f.ty) then []
    else EntryPieces(reg, o, f, es[0], indent) + EntriesPieces(reg, o, f, es[1..], indent)
  }

  /** The loop body of `PrintMessage`. */
  function ContentPieces(reg: Registry, o: Options, f: FieldDesc, c: Content, indent: nat): seq<Piece>
    decreases c, 4
  {
    match c
    case One(v) => FieldPieces(reg, o, f, v, indent)
    case Many(vs) => ManyPieces(reg, o, f, vs, indent)
    case Entries(es) => EntriesPieces(reg, o, f, es, indent)
  }

  function FieldsPieces(reg: Registry, o: Options, fs: seq<FieldDesc>, m: Msg, indent: nat): seq<Piece>
    decreases m, 0, |fs|
  {
    if fs == [] then []
    else (if fs[0].number in m.fields then ContentPieces(reg, o, fs[0], m.fields[fs[0].number], indent) else [])
         + FieldsPieces(reg, o, fs[1..], m, indent)
  }

  function MessagePieces(reg: Registry, o: Options, t: string, m: Msg, indent: nat): seq<Piece>
    decreases m, 1
  {
    FieldsPieces(reg, o, ListFields(reg, o, t, m), m, indent)
  }

  function TextOf(ps: seq<Piece>): string {
    if ps == [] then ""
    else (match ps[0] case Gap(spaces) => spaces case Tok(t) => t) + TextOf(ps[1..])
  }

  function TokensOf(ps: seq<Piece>): seq<string> {
    if ps == [] then []
    else (match ps[0] case Gap(_) => [] case Tok(t) => [t]) + TokensOf(ps[1..])
  }

  /** `result.rstrip()` */
  function RightStripped(s: string): string {
    if s != "" && IsSpace(s[|s| - 1]) then RightStripped(s[..|s| - 1]) else s
  }

  /** `MessageToString`, starting without indentation. */
  function MessageText(reg: Registry, o: Options, t: string, m: Msg): string {
    var text := TextOf(MessagePieces(reg, o, t, m, 0));
    if o.oneLine then RightStripped(text) else text
  }

  // ----- the printer -----

  class Printer {
    const reg: Registry
    const options: Options
    var out: string
    var indent: nat

    constructor (r: Registry, o: Options, i: nat)
      ensures reg == r && options == o && out == "" && indent == i
    {
      reg, options, out, indent := r, o, "", i;
    }

    method Write(s: string)
      modifies this`out
      ensures out == old(out) + s
    {
      out := out + s;
    }

    method PrintMessage(t: string, m: Msg)
      modifies this
      ensures out == old(out) + TextOf(MessagePieces(reg, options, t, m, indent)) && indent == old(indent)
      decreases m, 1
    {
      hide Present, ContentPieces, FieldsPieces;
      var fs := ListFields(reg, options, t, m);
      assert fs[0..] == fs;
      ghost var all := TextOf(MessagePieces(reg, options, t, m, indent));
      for i := 0 to |fs|
        invariant indent == old(indent)
        invariant out + TextOf(FieldsPieces(reg, options, fs[i..], m, indent)) == old(out) + all
      {
        assert fs[i..][1..] == fs[i + 1..];
        FieldsStep(reg, options, fs[i..], m, indent);
        if fs[i].number in m.fields {
          TextConcat(ContentPieces(reg, options, fs[i], m.fields[fs[i].number], indent),
                     FieldsPieces(reg, options, fs[i + 1..], m, indent));
          PrintContent(fs[i], m.fields[fs[i].number]);
        }
      }
      assert fs[|fs|..] == [] && out + "" == out;
      NoFields(reg, options, fs[|fs|..], m, indent);
    }

    method PrintContent(f: FieldDesc, c: Content)
      modifies this
      ensures out == old(out) + TextOf(ContentPieces(reg, options, f, c, indent)) && indent == old(indent)
      decreases c, 4
    {
      hide FieldPieces, EntryPieces, TextOf;
      match c
      case One(v) => PrintField(f, v);
      case Many(vs) => PrintMany(f, vs);
      case Entries(es) => PrintEntries(f, es);
    }

    method PrintMany(f: FieldDesc, vs: seq<Val>)
      modifies this
      ensures out == old(out) + TextOf(ManyPieces(reg, options, f, vs, indent)) && indent == old(indent)
      decreases vs, 2
    {
      hide FieldPieces, TextOf;
      TextNothing();
      assert vs[0..] == vs;
      for i := 0 to |vs|
        invariant indent == old(indent)
        invariant out + TextOf(ManyPieces(reg, options, f, vs[i..], indent))
               == old(out) + TextOf(ManyPieces(reg, options, f, vs, indent))
      {
        assert vs[i..][1..] == vs[i + 1..];
        TextConcat(FieldPieces(reg, options, f, vs[i], indent), ManyPieces(reg, options, f, vs[i + 1..], indent));
        PrintField(f, vs[i]);
      }
      assert vs[|vs|..] == [] && out + "" == out;
    }

    method PrintEntries(f: FieldDesc, es: seq<(Val, Val)>)
      modifies this
      ensures out == old(out) + TextOf(EntriesPieces(reg, options, f, es, indent)) && indent == old(indent)
      decreases es, 3
    {
      hide EntryPieces, EntriesPieces, TextOf;
      TextNothing();
      NoEntries(reg, options, f, indent);
      assert es[0..] == es;
      if !IsMessageType(f.ty) {
        NoMessageEntries(reg, options, f, es, indent);
        return;
      }
      for i := 0 to |es|
        invariant indent == old(indent)
        invariant out + TextOf(EntriesPieces(reg, options, f, es[i..], indent))
               == old(out) + TextOf(EntriesPieces(reg, options, f, es, indent))
      {
        assert es[i..][1..] == es[i + 1..];
        EntriesStep(reg, options, f, es[i..], indent);
        TextConcat(EntryPieces(reg, options, f, es[i], indent), EntriesPieces(reg, options, f, es[i + 1..], indent));
        PrintEntry(f, es[i]);
      }
      assert es[|es|..] == [] && out + "" == out;
    }

    method PrintName(f: FieldDesc)
      modifies this`out
      ensures out == old(out) + Spaces(indent) + NameText(options, f)
    {
      Write(Spaces(indent));
      if options.fieldNumber {
        Write(Unsigned(f.number));
      } else if f.ty.TGroup? {
        Write(f.ty.name);
      } else {
        Write(f.name);
      }
    }

    method PrintField(f: FieldDesc, v: Val)
      modifies this
      ensures out == old(out) + TextOf(FieldPieces(reg, options, f, v, indent)) && indent == old(indent)
      decreases v, 1
    {
      hide NameText, Spaces, ValuePieces, TextOf;
      FieldTextOf(reg, options, f, v, indent);
      PrintName(f);
      if !IsMessageType(f.ty) {
        Write(": ");
      }
      PrintFieldValue(f, v);
      if options.oneLine {
        Write(" ");
      } else {
        Write("\n");
      }
    }

    /** `_PrintMessageFieldValue`, up to the opening bracket. */
    method OpenMessage()
      modifies this
      ensures out == old(out) + TextOf(Before(options)) && indent == Deeper(options, old(indent))
    {
      BeforeTextOf(options);
      if options.oneLine {
        Write(" " + Opening(options) + " ");
      } else {
        Write(" " + Opening(options) + "\n");
        indent := indent + 2;
      }
    }

    /** `_PrintMessageFieldValue`, from the closing bracket. */
    method CloseMessage(ghost outer: nat)
      requires indent == Deeper(options, outer)
      modifies this
      ensures out == old(out) + TextOf(After(options, outer)) && indent == outer
    {
      AfterTextOf(options, outer);
      if options.oneLine {
        Write(Closing(options));
      } else {
        indent := indent - 2;
        Write(Spaces(indent) + Closing(options));
      }
    }

    method PrintFieldValue(f: FieldDesc, v: Val)
      modifies this
      ensures out == old(out) + TextOf(ValuePieces(reg, options, f, v, indent)) && indent == old(indent)
      decreases v, 0
    {
      hide MessagePieces, Before, After, TextOf, ScalarText;
      ghost var outer := indent;
      if IsMessageType(f.ty) {
        MessageTextOf(reg, options, f, v, indent);
        OpenMessage();
        if v.VMsg? {
          PrintMessage(f.ty.name, v.m);
        }
        CloseMessage(outer);
      } else {
        OneTextOf(ScalarText(reg, options, f.ty, v));
        Write(ScalarText(reg, options, f.ty, v));
      }
    }

    /** `PrintField` on the entry message of a map item. */
    method PrintEntry(f: FieldDesc, e: (Val, Val))
      requires IsMessageType(f.ty)
      modifies this
      ensures out == old(out) + TextOf(EntryPieces(reg, options, f, e, indent)) && indent == old(indent)
      decreases e, 2
    {
      hide FieldPieces, Before, After, TextOf, NameText, Spaces;
      ghost var outer := indent;
      EntryTextOf(reg, options, f, e, indent);
      PrintName(f);
      OpenMessage();
      PrintField(EntryField(reg, f.ty.name, 1), e.0);
      PrintField(EntryField(reg, f.ty.name, 2), e.1);
      CloseMessage(outer);
      if options.oneLine {
        Write(" ");
      } else {
        Write("\n");
      }
    }
  }

  lemma {:induction false} TextConcat(ps: seq<Piece>, qs: seq<Piece>)
    ensures TextOf(ps + qs) == TextOf(ps) + TextOf(qs)
  {
    if ps == [] {
      assert ps + qs == qs;
    } else {
      assert (ps + qs)[1..] == ps[1..] + qs;
      TextConcat(ps[1..], qs);
    }
  }

  lemma FieldsStep(reg: Registry, o: Options, fs: seq<FieldDesc>, m: Msg, indent: nat)
    requires fs != []
    ensures FieldsPieces(reg, o, fs, m, indent) ==
            if fs[0].number in m.fields
            then ContentPieces(reg, o, fs[0], m.fields[fs[0].number], indent) + FieldsPieces(reg, o, fs[1..], m, indent)
            else FieldsPieces(reg, o, fs[1..], m, indent)
  {
  }

  lemma NoEntries(reg: Registry, o: Options, f: FieldDesc, indent: nat)
    ensures EntriesPieces(reg, o, f, [], indent) == []
  {
  }

  lemma NoMessageEntries(reg: Registry, o: Options, f: FieldDesc, es: seq<(Val, Val)>, indent: nat)
    requires !IsMessageType(f.ty)
    ensures EntriesPieces(reg, o, f, es, indent) == []
  {
  }

  lemma EntriesStep(reg: Registry, o: Options, f: FieldDesc, es: seq<(Val, Val)>, indent: nat)
    requires es != [] && IsMessageType(f.ty)
    ensures EntriesPieces(reg, o, f, es, indent)
            == EntryPieces(reg, o, f, es[0], indent) + EntriesPieces(reg, o, f, es[1..], indent)
  {
  }

  lemma NoFields(reg: Registry, o: Options, fs: seq<FieldDesc>, m: Msg, indent: nat)
    requires fs == []
    ensures FieldsPieces(reg, o, fs, m, indent) == []
  {
  }

  function Shown(p: Piece): string {
    match p case Gap(spaces) => spaces case Tok(t) => t
  }

  lemma TextOne(p: Piece)
    ensures TextOf([p]) == Shown(p)
  {
    assert [p][1..] == [];
  }

  lemma TextTwo(p: Piece, q: Piece)
    ensures TextOf([p, q]) == Shown(p) + Shown(q)
  {
    assert [p, q] == [p] + [q];
    TextConcat([p], [q]);
    TextOne(p);
    TextOne(q);
  }

  lemma OneTextOf(t: string)
    ensures TextOf([Tok(t)]) == t
  {
    TextOne(Tok(t));
  }

  lemma BeforeTextOf(o: Options)
    ensures TextOf(Before(o)) == " " + Opening(o) + (if o.oneLine then " " else "\n")
  {
    hide TextOf;
    var third := Gap(if o.oneLine then " " else "\n");
    assert Before(o) == [Gap(" "), Tok(Opening(o))] + [third];
    TextConcat([Gap(" "), Tok(Opening(o))], [third]);
    TextTwo(Gap(" "), Tok(Opening(o)));
    TextOne(third);
  }

  lemma AfterTextOf(o: Options, indent: nat)
    ensures TextOf(After(o, indent)) == (if o.oneLine then "" else Spaces(indent)) + Closing(o)
  {
    hide TextOf, Spaces;
    if o.oneLine {
      TextOne(Tok(Closing(o)));
      assert After(o, indent) == [Tok(Closing(o))];
    } else {
      TextTwo(Gap(Spaces(indent)), Tok(Closing(o)));
      assert After(o, indent) == [Gap(Spaces(indent)), Tok(Closing(o))];
    }
  }

  lemma FieldTextOf(reg: Registry, o: Options, f: FieldDesc, v: Val, indent: nat)
    ensures TextOf(FieldPieces(reg, o, f, v, indent))
            == Spaces(indent) + NameText(o, f) + (if IsMessageType(f.ty) then "" else ": ")
               + TextOf(ValuePieces(reg, o, f, v, indent)) + (if o.oneLine then " " else "\n")
  {
    hide TextOf, Spaces, NameText, ValuePieces;
    var head := [Gap(Spaces(indent)), Tok(NameText(o, f))];
    var colon := if IsMessageType(f.ty) then [] else [Tok(":"), Gap(" ")];
    var value := ValuePieces(reg, o, f, v, indent);
    TextConcat(head + colon + value, LineEnd(o));
    TextConcat(head + colon, value);
    TextConcat(head, colon);
    TextTwo(head[0], head[1]);
    TextOne(LineEnd(o)[0]);
    if IsMessageType(f.ty) {
      assert TextOf([]) == "" by { TextNothing(); }
    } else {
      TextTwo(Tok(":"), Gap(" "));
    }
  }

  lemma TextNothing()
    ensures TextOf([]) == ""
  {
  }

  lemma MessageTextOf(reg: Registry, o: Options, f: FieldDesc, v: Val, indent: nat)
    requires IsMessageType(f.ty)
    ensures TextOf(ValuePieces(reg, o, f, v, indent))
            == TextOf(Before(o)) + (if v.VMsg? then TextOf(MessagePieces(reg, o, f.ty.name, v.m, Deeper(o, indent))) else "")
               + TextOf(After(o, indent))
  {
    hide TextOf, Before, After, MessagePieces;
    var inner := if v.VMsg? then MessagePieces(reg, o, f.ty.name, v.m, Deeper(o, indent)) else [];
    TextConcat(Before(o) + inner, After(o, indent));
    TextConcat(Before(o), inner);
    TextNothing();
  }

  lemma EntryTextOf(reg: Registry, o: Options, f: FieldDesc, e: (Val, Val), indent: nat)
    requires IsMessageType(f.ty)
    ensures TextOf(EntryPieces(reg, o, f, e, indent))
            == Spaces(indent) + NameText(o, f) + TextOf(Before(o))
               + TextOf(FieldPieces(reg, o, EntryField(reg, f.ty.name, 1), e.0, Deeper(o, indent)))
               + TextOf(FieldPieces(reg, o, EntryField(reg, f.ty.name, 2), e.1, Deeper(o, indent)))
               + TextOf(After(o, indent)) + (if o.oneLine then " " else "\n")
  {
    hide TextOf, Before, After, FieldPieces, EntryField, Spaces, NameText;
    var head := [Gap(Spaces(indent)), Tok(NameText(o, f))];
    var key := FieldPieces(reg, o, EntryField(reg, f.ty.name, 1), e.0, Deeper(o, indent));
    var value := FieldPieces(reg, o, EntryField(reg, f.ty.name, 2), e.1, Deeper(o, indent));
    TextConcat(head + Before(o) + key + value + After(o, indent), LineEnd(o));
    TextConcat(head + Before(o) + key + value, After(o, indent));
    TextConcat(head + Before(o) + key, value);
    TextConcat(head + Before(o), key);
    TextConcat(head, Before(o));
    TextTwo(head[0], head[1]);
    TextOne(LineEnd(o)[0]);
  }
}
