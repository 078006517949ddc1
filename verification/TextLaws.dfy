/** What the grammar of the text format means: the short form of repeated fields, texts one after another,
    blocks of one message, repeated scalars and unions. */
module TextLaws {
  import opened Js
  import opened Decimal
  import opened Arith
  import opened TextEscape
  import opened Tokens
  import opened TextFormat
  import opened TextGrammar
  import opened TextRoundTrip

  // ----- a reading stays what it is when more tokens follow -----

  /** No string token comes next, which would be joined to a string before it. */
  predicate NoString(ts: seq<string>) { ts == [] || ts[0] == "" || (ts[0][0] != '"' && ts[0][0] != '\'') }

  lemma {:induction false} StringsThen(ts: seq<string>, rest: seq<string>)
    requires ByteString(ts).Done? && (ByteString(ts).value.1 != [] || NoString(rest))
    ensures ByteString(ts + rest) == Done((ByteString(ts).value.0, ByteString(ts).value.1 + rest))
    decreases |ts|
  {
    hide OneString;
    assert (ts + rest)[1..] == ts[1..] + rest;
    if |ts| > 1 && IsStringToken(ts[1]) {
      StringsThen(ts[1..], rest);
    } else if |ts| == 1 {
      assert ts[1..] + rest == rest;
    }
  }

  lemma ScalarThen(reg: Registry, ty: Type, ts: seq<string>, rest: seq<string>)
    requires ParseScalar(reg, ty, ts).Done? && (ParseScalar(reg, ty, ts).value.1 != [] || NoString(rest))
    ensures ParseScalar(reg, ty, ts + rest)
            == Done((ParseScalar(reg, ty, ts).value.0, ParseScalar(reg, ty, ts).value.1 + rest))
  {
    hide PythonInt, InRange, ParseBool, ParseEnum, EnumValues, ByteString, ValidUtf8;
    assert (ts + rest)[1..] == ts[1..] + rest && (ts + rest)[0] == ts[0];
    if ty.TString? || ty.TBytes? {
      StringsThen(ts, rest);
    }
  }

  lemma StartThen(reg: Registry, mode: Mode, t: string, ts: seq<string>, rest: seq<string>, m: Msg)
    requires FieldStart(reg, mode, t, ts, m).Done? && FieldStart(reg, mode, t, ts, m).value.1 != []
    ensures FieldStart(reg, mode, t, ts + rest, m)
            == Done((FieldStart(reg, mode, t, ts, m).value.0, FieldStart(reg, mode, t, ts, m).value.1 + rest))
  {
    hide FindField, DescOf, Conflict, IsWord;
    assert (ts + rest)[1..] == ts[1..] + rest && (ts + rest)[0] == ts[0];
    assert |ts| > 1;
    if ts[1] == ":" {
      assert (ts[1..] + rest)[1..] == ts[1..][1..] + rest;
    }
  }

  lemma NothingToMerge(reg: Registry, mode: Mode, f: FieldDesc, m: Msg)
    ensures MergeOne(reg, mode, f, [], m) == ParseError && MergeList(reg, mode, f, [], m) == ParseError
  {
  }

  lemma {:induction false} OneThen(reg: Registry, mode: Mode, f: FieldDesc, ts: seq<string>, rest: seq<string>, m: Msg)
    requires MergeOne(reg, mode, f, ts, m).Done? && (MergeOne(reg, mode, f, ts, m).value.1 != [] || NoString(rest))
    ensures MergeOne(reg, mode, f, ts + rest, m)
            == Done((MergeOne(reg, mode, f, ts, m).value.0, MergeOne(reg, mode, f, ts, m).value.1 + rest))
    decreases |ts|, 1
  {
    hide ParseScalar, StoreScalar, StoreMessage, SubMessage, MergeFields;
    if IsMessageType(f.ty) {
      assert (ts + rest)[1..] == ts[1..] + rest && (ts + rest)[0] == ts[0];
      BlockThen(reg, mode, f.ty.name, ts[1..], rest, SubMessage(f, m), if ts[0] == "<" then ">" else "}");
    } else {
      ScalarThen(reg, f.ty, ts, rest);
    }
  }

  lemma {:induction false} ListThen(reg: Registry, mode: Mode, f: FieldDesc, ts: seq<string>, rest: seq<string>, m: Msg)
    requires MergeList(reg, mode, f, ts, m).Done?
    ensures MergeList(reg, mode, f, ts + rest, m)
            == Done((MergeList(reg, mode, f, ts, m).value.0, MergeList(reg, mode, f, ts, m).value.1 + rest))
    decreases |ts|, 2
  {
    hide MergeOne;
    var merged := MergeOne(reg, mode, f, ts, m).value;
    OneThen(reg, mode, f, ts, rest, m);
    assert (merged.1 + rest)[1..] == merged.1[1..] + rest && (merged.1 + rest)[0] == merged.1[0];
    if !StartsWith(merged.1, "]") {
      ListThen(reg, mode, f, merged.1[1..], rest, merged.0);
    }
  }

  lemma SeparatedThen(ts: seq<string>, rest: seq<string>)
    requires ts != [] || Follows(rest)
    ensures Separated(ts + rest) == Separated(ts) + rest
  {
    if ts == [] {
      assert ts + rest == rest;
      SeparatedFollows(rest);
    } else {
      assert (ts + rest)[1..] == ts[1..] + rest;
    }
  }

  lemma {:induction false} FieldThen(reg: Registry, mode: Mode, t: string, ts: seq<string>, rest: seq<string>, m: Msg)
    requires MergeField(reg, mode, t, ts, m).Done? && (MergeField(reg, mode, t, ts, m).value.1 != [] || Follows(rest))
    ensures MergeField(reg, mode, t, ts + rest, m)
            == Done((MergeField(reg, mode, t, ts, m).value.0, MergeField(reg, mode, t, ts, m).value.1 + rest))
    decreases |ts|, 3
  {
    hide FieldStart, MergeList, MergeOne, Cleared, DescOf, Separated;
    var start := FieldStart(reg, mode, t, ts, m).value;
    var f, target := start.0, Cleared(DescOf(reg, t).byNumber, start.0, m);
    NothingToMerge(reg, mode, f, target);
    StartThen(reg, mode, t, ts, rest, m);
    if f.rule == Repeated && StartsWith(start.1, "[") {
      assert (start.1 + rest)[1..] == start.1[1..] + rest;
      ListThen(reg, mode, f, start.1[1..], rest, target);
      SeparatedThen(MergeList(reg, mode, f, start.1[1..], target).value.1, rest);
    } else {
      var left := MergeOne(reg, mode, f, start.1, target).value.1;
      assert Separated([]) == [] by { SeparatedFollows([]); }
      OneThen(reg, mode, f, start.1, rest, target);
      SeparatedThen(left, rest);
    }
  }

  /** Behind its closing bracket, anything may follow a block. */
  lemma {:induction false} BlockThen(reg: Registry, mode: Mode, t: string, ts: seq<string>, rest: seq<string>, m: Msg, closing: string)
    requires MergeFields(reg, mode, t, ts, m, Some(closing)).Done?
    ensures MergeFields(reg, mode, t, ts + rest, m, Some(closing))
            == Done((MergeFields(reg, mode, t, ts, m, Some(closing)).value.0,
                     MergeFields(reg, mode, t, ts, m, Some(closing)).value.1 + rest))
    decreases |ts|, 4
  {
    hide MergeField;
    assert ts != [];
    assert (ts + rest)[1..] == ts[1..] + rest && (ts + rest)[0] == ts[0];
    if ts[0] != closing {
      var merged := MergeField(reg, mode, t, ts, m).value;
      FieldThen(reg, mode, t, ts, rest, m);
      BlockThen(reg, mode, t, merged.1, rest, merged.0, closing);
    }
  }

  // ----- one text behind another -----

  /** Fields up to the end of their tokens, with more fields behind them. */
  lemma {:induction false} FieldsThen(reg: Registry, mode: Mode, t: string, ts: seq<string>, rest: seq<string>, m: Msg,
                                      closing: Option<string>)
    requires MergeFields(reg, mode, t, ts, m, None).Done? && Follows(rest) && IsClosing(closing)
    ensures MergeFields(reg, mode, t, ts, m, None).value.1 == []
    ensures MergeFields(reg, mode, t, ts + rest, m, closing)
            == MergeFields(reg, mode, t, rest, MergeFields(reg, mode, t, ts, m, None).value.0, closing)
    decreases |ts|
  {
    hide MergeField;
    if ts == [] {
      assert ts + rest == rest;
    } else {
      var merged := MergeField(reg, mode, t, ts, m).value;
      FieldThen(reg, mode, t, ts, rest, m);
      StartsWithWord(reg, mode, t, ts, m);
      assert (ts + rest)[0] == ts[0];
      FieldsThen(reg, mode, t, merged.1, rest, merged.0, closing);
    }
  }

  lemma StartsWithWord(reg: Registry, mode: Mode, t: string, ts: seq<string>, m: Msg)
    requires MergeField(reg, mode, t, ts, m).Done?
    ensures ts != [] && ts[0] != "}" && ts[0] != ">" && ts[0] != ""
  {
    hide FindField, DescOf, Conflict, MergeOne, MergeList, Cleared;
  }

  /** The fields of a block and its closing bracket. */
  lemma Block(reg: Registry, mode: Mode, t: string, ts: seq<string>, rest: seq<string>, m: Msg, closing: string)
    requires MergeFields(reg, mode, t, ts, m, None).Done? && (closing == "}" || closing == ">")
    ensures MergeFields(reg, mode, t, ts + [closing] + rest, m, Some(closing))
            == Done((MergeFields(reg, mode, t, ts, m, None).value.0, rest))
  {
    FieldsThen(reg, mode, t, ts, [closing] + rest, m, Some(closing));
    assert ts + [closing] + rest == ts + ([closing] + rest);
    Closed(reg, mode, t, closing, rest, MergeFields(reg, mode, t, ts, m, None).value.0);
  }

  lemma {:induction false} RunToLineEnd(s: string, rest: string, dots: bool)
    ensures Run(s + "\n" + rest, dots) == Run(s, dots)
  {
    var whole := s + "\n" + rest;
    if s == "" {
      assert whole[0] == '\n';
    } else {
      assert whole[1..] == s[1..] + "\n" + rest;
      RunToLineEnd(s[1..], rest, dots);
    }
  }

  lemma {:induction false} QuotedToLineEnd(s: string, rest: string, q: char)
    requires IsQuote(q)
    ensures Quoted(s + "\n" + rest, q) == Quoted(s, q)
    decreases |s|
  {
    var whole := s + "\n" + rest;
    if s == "" {
      assert whole[0] == '\n';
    } else {
      assert whole[1..] == s[1..] + "\n" + rest;
      QuotedToLineEnd(s[1..], rest, q);
      if s[0] == '\\' && |s| > 1 {
        assert whole[2..] == s[2..] + "\n" + rest;
        QuotedToLineEnd(s[2..], rest, q);
      } else if s[0] == '\\' {
        assert whole[1] == '\n';
      }
    }
  }

  lemma {:induction false} CommentToLineEnd(s: string, rest: string)
    ensures LineLength(s + "\n" + rest) == LineLength(s)
  {
    var whole := s + "\n" + rest;
    if s == "" {
      assert whole[0] == '\n';
    } else {
      assert whole[1..] == s[1..] + "\n" + rest;
      CommentToLineEnd(s[1..], rest);
    }
  }

  lemma TokenToLineEnd(s: string, rest: string)
    requires s != ""
    ensures TokenLength(s + "\n" + rest) == TokenLength(s)
  {
    var whole := s + "\n" + rest;
    assert whole[1..] == s[1..] + "\n" + rest && whole[0] == s[0];
    RunToLineEnd(s[1..], rest, false);
    RunToLineEnd(s[1..], rest, true);
    if |s| > 1 {
      assert whole[2..] == s[2..] + "\n" + rest && whole[1] == s[1];
      RunToLineEnd(s[2..], rest, true);
    } else {
      assert whole[1] == '\n';
    }
    if IsQuote(s[0]) {
      QuotedToLineEnd(s[1..], rest, s[0]);
    }
  }

  /** What a text starts with: one character of white space, a comment, or a token. */
  function Leading(s: string): (n: nat)
    requires s != ""
    ensures 1 <= n <= |s|
  {
    if IsSpace(s[0]) then 1 else if s[0] == '#' then 1 + LineLength(s[1..]) else TokenLength(s)
  }

  lemma TokenizeStep(s: string)
    requires s != ""
    ensures Tokenize(s) == (if IsSpace(s[0]) || s[0] == '#' then [] else [s[..Leading(s)]]) + Tokenize(s[Leading(s)..])
  {
    hide TokenLength, LineLength, IsSpace;
  }

  lemma LeadingToLineEnd(s: string, rest: string)
    requires s != ""
    ensures Leading(s + "\n" + rest) == Leading(s)
  {
    hide TokenLength, LineLength, IsSpace;
    assert (s + "\n" + rest)[1..] == s[1..] + "\n" + rest;
    CommentToLineEnd(s[1..], rest);
    TokenToLineEnd(s, rest);
  }

  /** No token and no comment crosses the end of a line. */
  lemma {:induction false} LinesTokenised(s: string, rest: string)
    ensures Tokenize(s + "\n" + rest) == Tokenize(s) + Tokenize(rest)
    decreases |s|
  {
    hide Tokenize, Leading;
    var whole := s + "\n" + rest;
    TokenizeStep(whole);
    if s == "" {
      assert whole[0] == '\n' && IsSpace(whole[0]) && whole[1..] == rest;
      assert Leading(whole) == 1 by { LeadingSpace(whole); }
      assert Tokenize("") == [] by { NoText(); }
    } else {
      var n := Leading(s);
      TokenizeStep(s);
      LeadingToLineEnd(s, rest);
      assert whole[0] == s[0] && whole[..n] == s[..n] && whole[n..] == s[n..] + "\n" + rest;
      LinesTokenised(s[n..], rest);
    }
  }

  lemma LeadingSpace(s: string)
    requires s != "" && IsSpace(s[0])
    ensures Leading(s) == 1
  {
  }

  lemma NoText()
    ensures Tokenize("") == []
  {
  }

  /** Reading two texts one after the other is reading them as one text. */
  lemma TextBehindText(reg: Registry, mode: Mode, t: string, first: string, second: string, m: Msg)
    requires ParseText(reg, mode, t, first, m).Done? && Follows(Tokenize(second))
    ensures ParseText(reg, mode, t, first + "\n" + second, m)
            == ParseText(reg, mode, t, second, ParseText(reg, mode, t, first, m).value)
  {
    hide MergeFields, Tokenize;
    LinesTokenised(first, second);
    FieldsThen(reg, mode, t, Tokenize(first), Tokenize(second), m, None);
  }

  // ----- the short form of repeated fields -----

  /** The tokens `v` are one value of the type, namely `x`. */
  ghost predicate Means(reg: Registry, mode: Mode, ty: Type, v: seq<string>, x: Val) {
    if IsMessageType(ty) then
      && |v| >= 2 && ((v[0] == "{" && v[|v| - 1] == "}") || (v[0] == "<" && v[|v| - 1] == ">"))
      && x.VMsg? && MergeFields(reg, mode, ty.name, v[1..|v| - 1], EMPTY, None) == Done((x.m, []))
    else ParseScalar(reg, ty, v) == Done((x, []))
  }

  ghost predicate AllMean(reg: Registry, mode: Mode, ty: Type, vs: seq<seq<string>>, xs: seq<Val>) {
    |vs| == |xs| && forall i :: 0 <= i < |vs| ==> Means(reg, mode, ty, vs[i], xs[i])
  }

  lemma SameCount(reg: Registry, mode: Mode, ty: Type, vs: seq<seq<string>>, xs: seq<Val>)
    requires AllMean(reg, mode, ty, vs, xs)
    ensures |vs| == |xs|
  {
  }

  /** `name: v1 name: v2 ...` */
  function LongForm(name: string, vs: seq<seq<string>>): seq<string> {
    if vs == [] then [] else [name, ":"] + vs[0] + LongForm(name, vs[1..])
  }

  /** `v1, v2, ...` */
  function CommaList(vs: seq<seq<string>>): seq<string> {
    if vs == [] then [] else if |vs| == 1 then vs[0] else vs[0] + [","] + CommaList(vs[1..])
  }

  /** `name: [v1, v2, ...]` */
  function ShortForm(name: string, vs: seq<seq<string>>): seq<string> {
    [name, ":", "["] + CommaList(vs) + ["]"]
  }

  /** The values behind those that the field has. */
  function Extended(m: Msg, n: nat, xs: seq<Val>): Msg {
    Msg(m.fields[n := Many((if n in m.fields && m.fields[n].Many? then m.fields[n].vs else []) + xs)])
  }

  /** How a text may call a field: by its name, a group by the name of its type, and by its number when allowed. */
  predicate Names(mode: Mode, f: FieldDesc, name: string) {
    name == (if f.ty.TGroup? then f.ty.name else f.name) || (mode.allowFieldNumber && name == Unsigned(f.number))
  }

  lemma NameFound(reg: Registry, mode: Mode, t: string, f: FieldDesc, name: string)
    requires RegistryOk(reg) && t in reg.messages && f in DescOf(reg, t).byNumber && Names(mode, f, name)
    ensures FindField(mode, DescOf(reg, t), name) == Some(f)
    ensures name != "" && IsWord(name) && Follows([name]) && name != "[" && name != "}" && name != ">" && name != ":"
  {
    hide FindField, Lower, FieldOk, RegistryOk, IsLetter, IsDigit;
    DescOkOf(reg, t);
    var desc := DescOf(reg, t);
    var i :| 0 <= i < |desc.byNumber| && desc.byNumber[i] == f;
    var o := Options(false, false, false, name != (if f.ty.TGroup? then f.ty.name else f.name), false);
    NameBack(reg, o, mode, desc, i);
    assert name == NameText(o, f);
    FollowsName(name, []);
    assert !IsLetter(':') && !IsDigit(':') by { NoColonPart(); }
    assert [name] + [] == [name];
  }

  lemma NoColonPart()
    ensures !IsLetter(':') && !IsDigit(':')
  {
  }

  lemma {:induction false} EnumNamed(values: seq<(string, int)>, name: string)
    requires EnumNumber(values, name).Some?
    ensures exists i :: 0 <= i < |values| && values[i].0 == name
  {
    if values[0].0 != name {
      EnumNamed(values[1..], name);
      var i :| 0 <= i < |values[1..]| && values[1..][i].0 == name;
      assert values[i + 1].0 == name;
    }
  }

  /** No value starts with the bracket of the short form. */
  lemma NoBracketValue(reg: Registry, ty: Type, v: seq<string>)
    requires RegistryOk(reg) && ParseScalar(reg, ty, v).Done?
    ensures v != [] && v[0] != "["
  {
    hide InRange, ByteString, ValidUtf8, DescOk;
    if v != [] && v[0] == "[" {
      assert PythonInt("[") == None && ParseBool("[") == None && !IsLetter('[');
      BracketNoString(v);
      if ty.TEnum? {
        EnumNamed(EnumValues(reg, ty.enumName), "[");
      }
    }
  }

  lemma BracketNoString(v: seq<string>)
    requires v != [] && v[0] == "["
    ensures ByteString(v) == ParseError
  {
    assert !IsStringToken("[");
  }

  /** A map entry replaces the entry with its key; an entry without a key or value has the default one. */
  function Placed(reg: Registry, f: FieldDesc, m: Msg, entry: Msg): Msg
    requires f.ty.TMap?
  {
    var key := if 1 in entry.fields && entry.fields[1].One? then entry.fields[1].v
               else Default(reg, EntryField(reg, f.ty.name, 1).ty);
    var value := if 2 in entry.fields && entry.fields[2].One? then entry.fields[2].v
                 else Default(reg, EntryField(reg, f.ty.name, 2).ty);
    var es := if f.number in m.fields && m.fields[f.number].Entries? then m.fields[f.number].es else [];
    Msg(m.fields[f.number := Entries(InsertEntry(es, key, value))])
  }

  /** What values leave in a repeated field, one after the other. */
  function Taken(reg: Registry, f: FieldDesc, m: Msg, xs: seq<Val>): Msg
    decreases |xs|
  {
    if xs == [] then m
    else Taken(reg, f, if f.ty.TMap? then (if xs[0].VMsg? then Placed(reg, f, m, xs[0].m) else m)
                       else Extended(m, f.number, [xs[0]]), xs[1..])
  }

  lemma {:induction false} TakenExtends(reg: Registry, f: FieldDesc, m: Msg, xs: seq<Val>)
    requires !f.ty.TMap? && xs != []
    ensures Taken(reg, f, m, xs) == Extended(m, f.number, xs)
    decreases |xs|
  {
    hide Extended;
    if |xs| > 1 {
      TakenExtends(reg, f, Extended(m, f.number, [xs[0]]), xs[1..]);
      ExtendedTwice(m, f.number, [xs[0]], xs[1..]);
      assert xs == [xs[0]] + xs[1..];
    } else {
      assert xs == [xs[0]];
    }
  }

  lemma ExtendedTwice(m: Msg, n: nat, xs: seq<Val>, ys: seq<Val>)
    ensures Extended(Extended(m, n, xs), n, ys) == Extended(m, n, xs + ys)
  {
    var had := if n in m.fields && m.fields[n].Many? then m.fields[n].vs else [];
    assert had + xs + ys == had + (xs + ys);
  }

  /** One value of a repeated field, in front of other tokens. */
  lemma ValueRead(reg: Registry, mode: Mode, f: FieldDesc, v: seq<string>, x: Val, rest: seq<string>, m: Msg)
    requires RegistryOk(reg) && f.rule == Repeated && (f.ty.TMap? ==> EntryOk(DescOf(reg, f.ty.name)))
    requires Means(reg, mode, f.ty, v, x) && NoString(rest)
    ensures v != [] && v[0] != "["
    ensures MergeOne(reg, mode, f, v + rest, m) == Done((Taken(reg, f, m, [x]), rest))
  {
    hide ParseScalar, MergeFields, RegistryOk, EntryOk, InsertEntry, Default, EntryField;
    if IsMessageType(f.ty) {
      var body, closing := v[1..|v| - 1], v[|v| - 1];
      Block(reg, mode, f.ty.name, body, rest, EMPTY, closing);
      assert (v + rest)[1..] == body + [closing] + rest && (v + rest)[0] == v[0];
      if f.ty.TMap? {
        EntryFieldNumbers(reg, f.ty.name);
      }
    } else {
      ScalarThen(reg, f.ty, v, rest);
      assert [] + rest == rest;
      NoBracketValue(reg, f.ty, v);
    }
  }

  lemma CommaListSteps(vs: seq<seq<string>>)
    requires vs != []
    ensures CommaList(vs) == vs[0] + (if |vs| == 1 then [] else [","] + CommaList(vs[1..]))
  {
  }

  lemma TakenStep(reg: Registry, f: FieldDesc, m: Msg, xs: seq<Val>)
    requires xs != []
    ensures Taken(reg, f, m, xs) == Taken(reg, f, Taken(reg, f, m, [xs[0]]), xs[1..])
  {
    hide Extended, Placed;
    assert [xs[0]][1..] == [];
  }

  /** Behind its opening bracket, the short form reads its values one after the other. */
  lemma {:induction false} ListRead(reg: Registry, mode: Mode, f: FieldDesc, vs: seq<seq<string>>, xs: seq<Val>, rest: seq<string>, m: Msg)
    requires RegistryOk(reg) && f.rule == Repeated && (f.ty.TMap? ==> EntryOk(DescOf(reg, f.ty.name)))
    requires vs != [] && AllMean(reg, mode, f.ty, vs, xs)
    ensures MergeList(reg, mode, f, CommaList(vs) + (["]"] + rest), m) == Done((Taken(reg, f, m, xs), rest))
    decreases |vs|
  {
    hide MergeOne, Means, RegistryOk, Extended, Placed, EntryOk, DescOf;
    CommaListSteps(vs);
    if |vs| == 1 {
      ValueRead(reg, mode, f, vs[0], xs[0], ["]"] + rest, m);
      assert xs == [xs[0]];
      assert (["]"] + rest)[1..] == rest;
    } else {
      var tail := CommaList(vs[1..]) + (["]"] + rest);
      ValueRead(reg, mode, f, vs[0], xs[0], [","] + tail, m);
      assert CommaList(vs) + (["]"] + rest) == vs[0] + ([","] + tail);
      assert ([","] + tail)[1..] == tail;
      ListRead(reg, mode, f, vs[1..], xs[1..], rest, Taken(reg, f, m, [xs[0]]));
      TakenStep(reg, f, m, xs);
    }
  }

  /** One turn of the loop over fields, with a single value. */
  lemma OneTurn(reg: Registry, mode: Mode, t: string, ts: seq<string>, m: Msg, closing: Option<string>, f: FieldDesc,
                value: seq<string>, after: Msg, left: seq<string>)
    requires FieldStart(reg, mode, t, ts, m) == Done((f, value)) && !(f.rule == Repeated && StartsWith(value, "["))
    requires MergeOne(reg, mode, f, value, Cleared(DescOf(reg, t).byNumber, f, m)) == Done((after, left))
    requires ts[0] != "}" && ts[0] != ">" && IsClosing(closing)
    ensures MergeFields(reg, mode, t, ts, m, closing) == MergeFields(reg, mode, t, Separated(left), after, closing)
  {
    hide FieldStart, MergeOne, MergeList, Cleared, DescOf, Separated;
  }

  /** And with a list of values. */
  lemma ListTurn(reg: Registry, mode: Mode, t: string, ts: seq<string>, m: Msg, closing: Option<string>, f: FieldDesc,
                 value: seq<string>, after: Msg, left: seq<string>)
    requires FieldStart(reg, mode, t, ts, m) == Done((f, ["["] + value)) && f.rule == Repeated
    requires MergeList(reg, mode, f, value, Cleared(DescOf(reg, t).byNumber, f, m)) == Done((after, left))
    requires ts[0] != "}" && ts[0] != ">" && IsClosing(closing)
    ensures MergeFields(reg, mode, t, ts, m, closing) == MergeFields(reg, mode, t, Separated(left), after, closing)
  {
    hide FieldStart, MergeOne, MergeList, Cleared, DescOf, Separated;
    assert (["["] + value)[1..] == value;
  }

  /** A name that is refused. */
  lemma NoTurn(reg: Registry, mode: Mode, t: string, ts: seq<string>, m: Msg, closing: Option<string>)
    requires FieldStart(reg, mode, t, ts, m) == ParseError && ts != []
    requires ts[0] != "}" && ts[0] != ">" && IsClosing(closing)
    ensures MergeFields(reg, mode, t, ts, m, closing) == ParseError
  {
    hide FieldStart, MergeOne, MergeList, Cleared, DescOf;
  }

  /** Behind its name and colon, the values of a field of any kind; no other member of its union is set. */
  lemma StartRead(reg: Registry, mode: Mode, t: string, f: FieldDesc, name: string, rest: seq<string>, m: Msg)
    requires RegistryOk(reg) && t in reg.messages && f in DescOf(reg, t).byNumber && Names(mode, f, name)
    requires f.oneof == None
    ensures FieldStart(reg, mode, t, [name, ":"] + rest, m) == Done((f, rest))
    ensures Cleared(DescOf(reg, t).byNumber, f, m) == m
  {
    hide FindField, DescOf, RegistryOk, IsWord;
    NameFound(reg, mode, t, f, name);
    assert ([name, ":"] + rest)[1..] == [":"] + rest && ([":"] + rest)[1..] == rest;
  }

  lemma {:induction false} LongRead(reg: Registry, mode: Mode, t: string, f: FieldDesc, name: string, vs: seq<seq<string>>, xs: seq<Val>,
                                    rest: seq<string>, m: Msg, closing: Option<string>)
    requires RegistryOk(reg) && t in reg.messages && f in DescOf(reg, t).byNumber && Names(mode, f, name)
    requires f.rule == Repeated && f.oneof == None && vs != [] && AllMean(reg, mode, f.ty, vs, xs)
    requires NoString(rest) && IsClosing(closing)
    ensures MergeFields(reg, mode, t, LongForm(name, vs) + rest, m, closing)
            == MergeFields(reg, mode, t, Separated(rest), Taken(reg, f, m, xs), closing)
    decreases |vs|
  {
    hide RegistryOk, DescOf, Means, AllMean, MergeOne, MergeFields, FieldStart, Taken, Separated, Cleared, IsWord, Names,
      EntryOk;
    SplitMeaning(reg, mode, f.ty, vs, xs);
    var tail := LongForm(name, vs[1..]) + rest;
    LongTail(reg, mode, t, f, name, vs, rest);
    var ts := LongForm(name, vs) + rest;
    assert ts == [name, ":"] + (vs[0] + tail);
    MapEntryOk(reg, t, f);
    ValueRead(reg, mode, f, vs[0], xs[0], tail, m);
    StartRead(reg, mode, t, f, name, vs[0] + tail, m);
    assert ts[0] == name;
    OneTurn(reg, mode, t, ts, m, closing, f, vs[0] + tail, Taken(reg, f, m, [xs[0]]), tail);
    if |vs| == 1 {
      assert xs == [xs[0]] && tail == rest;
    } else {
      LongRead(reg, mode, t, f, name, vs[1..], xs[1..], rest, Taken(reg, f, m, [xs[0]]), closing);
      TakenStep(reg, f, m, xs);
    }
  }

  lemma SplitMeaning(reg: Registry, mode: Mode, ty: Type, vs: seq<seq<string>>, xs: seq<Val>)
    requires vs != [] && AllMean(reg, mode, ty, vs, xs)
    ensures |vs| == |xs| && Means(reg, mode, ty, vs[0], xs[0]) && AllMean(reg, mode, ty, vs[1..], xs[1..])
  {
    hide Means;
  }

  lemma LongTail(reg: Registry, mode: Mode, t: string, f: FieldDesc, name: string, vs: seq<seq<string>>, rest: seq<string>)
    requires RegistryOk(reg) && t in reg.messages && f in DescOf(reg, t).byNumber && Names(mode, f, name)
    requires vs != [] && NoString(rest)
    ensures name != "}" && name != ">"
    ensures var tail := LongForm(name, vs[1..]) + rest; NoString(tail) && (|vs| > 1 ==> Separated(tail) == tail)
  {
    hide RegistryOk, DescOf, Names, IsWord;
    var tail := LongForm(name, vs[1..]) + rest;
    NameFound(reg, mode, t, f, name);
    if |vs| > 1 {
      assert tail[0] == name;
      SeparatedFollows(tail);
    } else {
      assert tail == rest;
    }
  }

  /** `name: [v1, ..., vn]` is `name: v1 ... name: vn`: both take the values one after the other,
      and unless the field is a map, put them behind those that the field has. */
  lemma ShortIsLong(reg: Registry, mode: Mode, t: string, f: FieldDesc, name: string, vs: seq<seq<string>>, xs: seq<Val>,
                    rest: seq<string>, m: Msg, closing: Option<string>)
    requires RegistryOk(reg) && t in reg.messages && f in DescOf(reg, t).byNumber && Names(mode, f, name)
    requires f.rule == Repeated && vs != [] && AllMean(reg, mode, f.ty, vs, xs)
    requires NoString(rest) && IsClosing(closing)
    ensures MergeFields(reg, mode, t, ShortForm(name, vs) + rest, m, closing)
            == MergeFields(reg, mode, t, LongForm(name, vs) + rest, m, closing)
            == MergeFields(reg, mode, t, Separated(rest), Taken(reg, f, m, xs), closing)
    ensures !f.ty.TMap? ==> Taken(reg, f, m, xs) == Extended(m, f.number, xs)
  {
    hide RegistryOk, DescOf, AllMean, EntryOk, MergeList, MergeFields, FieldStart, Taken, Separated, Cleared, IsWord, Names;
    assert |vs| == |xs| by { SameCount(reg, mode, f.ty, vs, xs); }
    if !f.ty.TMap? {
      TakenExtends(reg, f, m, xs);
    }
    NoUnion(reg, t, f);
    MapEntryOk(reg, t, f);
    LongRead(reg, mode, t, f, name, vs, xs, rest, m, closing);
    var ts, body := ShortForm(name, vs) + rest, CommaList(vs) + (["]"] + rest);
    assert ts == [name, ":"] + (["["] + body);
    StartRead(reg, mode, t, f, name, ["["] + body, m);
    ListRead(reg, mode, f, vs, xs, rest, m);
    NameFound(reg, mode, t, f, name);
    assert ts[0] == name;
    ListTurn(reg, mode, t, ts, m, closing, f, body, Taken(reg, f, m, xs), rest);
  }

  lemma MapEntryOk(reg: Registry, t: string, f: FieldDesc)
    requires RegistryOk(reg) && t in reg.messages && f in DescOf(reg, t).byNumber
    ensures f.ty.TMap? ==> EntryOk(DescOf(reg, f.ty.name))
  {
    DescOkOf(reg, t);
    var i :| 0 <= i < |DescOf(reg, t).byNumber| && DescOf(reg, t).byNumber[i] == f;
    assert FieldOk(reg, DescOf(reg, t).byNumber, DescOf(reg, t).byNumber[i]);
  }

  lemma NoUnion(reg: Registry, t: string, f: FieldDesc)
    requires RegistryOk(reg) && t in reg.messages && f in DescOf(reg, t).byNumber && f.rule == Repeated
    ensures f.oneof == None
  {
    DescOkOf(reg, t);
    var i :| 0 <= i < |DescOf(reg, t).byNumber| && DescOf(reg, t).byNumber[i] == f;
    assert FieldOk(reg, DescOf(reg, t).byNumber, DescOf(reg, t).byNumber[i]);
  }

  /** For whole texts. */
  lemma ShortText(reg: Registry, mode: Mode, t: string, f: FieldDesc, name: string, vs: seq<seq<string>>, xs: seq<Val>,
                  short: string, long: string, m: Msg)
    requires RegistryOk(reg) && t in reg.messages && f in DescOf(reg, t).byNumber && Names(mode, f, name)
    requires f.rule == Repeated && vs != [] && AllMean(reg, mode, f.ty, vs, xs)
    requires Tokenize(short) == ShortForm(name, vs) && Tokenize(long) == LongForm(name, vs)
    ensures ParseText(reg, mode, t, short, m) == ParseText(reg, mode, t, long, m) == Done(Taken(reg, f, m, xs))
    ensures !f.ty.TMap? ==> Taken(reg, f, m, xs) == Extended(m, f.number, xs)
  {
    hide RegistryOk, DescOf, AllMean, Taken, Names, ShortForm, LongForm, Tokenize;
    ShortIsLong(reg, mode, t, f, name, vs, xs, [], m, None);
    assert Separated([]) == [] && ShortForm(name, vs) + [] == ShortForm(name, vs) && LongForm(name, vs) + [] == LongForm(name, vs);
  }

  // ----- fields that are not repeated -----

  /** The message without the other members of the field's union. */
  function Alone(fs: seq<FieldDesc>, f: FieldDesc, m: Msg): Msg {
    Msg(map n | n in m.fields && (n == f.number || f.oneof == None || !(exists g :: g in fs && g.number == n && g.oneof == f.oneof))
          :: m.fields[n])
  }

  /** A member of the field's union, other than the field, is set. */
  ghost predicate Rivalled(fs: seq<FieldDesc>, f: FieldDesc, m: Msg) {
    f.oneof.Some? && exists g :: g in fs && g.oneof == f.oneof && g.number != f.number && g.number in m.fields
  }

  lemma RivalsCleared(fs: seq<FieldDesc>, f: FieldDesc, m: Msg)
    ensures Conflict(fs, f, m) <==> Rivalled(fs, f, m)
    ensures Cleared(fs, f, m) == Alone(fs, f, m)
    ensures !Rivalled(fs, f, m) ==> Alone(fs, f, m) == m
  {
    if Rivalled(fs, f, m) {
      var g :| g in fs && g.oneof == f.oneof && g.number != f.number && g.number in m.fields;
      var i :| 0 <= i < |fs| && fs[i] == g;
    } else {
      assert Alone(fs, f, m).fields == m.fields;
    }
    if f.oneof.Some? {
      forall n | n in m.fields
        ensures OtherMember(fs, f, n) <==> n != f.number && exists g :: g in fs && g.number == n && g.oneof == f.oneof
      {
        if n != f.number && exists g :: g in fs && g.number == n && g.oneof == f.oneof {
          var g :| g in fs && g.number == n && g.oneof == f.oneof;
          var i :| 0 <= i < |fs| && fs[i] == g;
          assert OtherMember(fs, f, n);
        }
      }
      assert Cleared(fs, f, m).fields == Alone(fs, f, m).fields;
    } else {
      assert Alone(fs, f, m).fields == m.fields;
    }
  }

  /** A name in front of a value: accepted unless another member of the union is set and the parser does not merge. */
  lemma NameRead(reg: Registry, mode: Mode, t: string, f: FieldDesc, name: string, colon: seq<string>, rest: seq<string>, m: Msg)
    requires RegistryOk(reg) && t in reg.messages && f in DescOf(reg, t).byNumber && Names(mode, f, name)
    requires colon == [":"] || (IsMessageType(f.ty) && colon == [] && !StartsWith(rest, ":"))
    ensures FieldStart(reg, mode, t, [name] + colon + rest, m)
            == if !mode.allowMultipleScalars && Rivalled(DescOf(reg, t).byNumber, f, m) then ParseError else Done((f, rest))
  {
    hide FindField, DescOf, RegistryOk, IsWord, Conflict, Rivalled;
    NameFound(reg, mode, t, f, name);
    RivalsCleared(DescOf(reg, t).byNumber, f, m);
    assert ([name] + colon + rest)[1..] == colon + rest;
    if colon == [":"] {
      assert (colon + rest)[1..] == rest;
    } else {
      assert colon + rest == rest;
    }
  }

  /** A scalar field: an error when the parser does not merge and the field or another member of its union
      is set; otherwise the value is set and the other members are not. */
  lemma ScalarSet(reg: Registry, mode: Mode, t: string, f: FieldDesc, name: string, v: seq<string>, x: Val,
                  rest: seq<string>, m: Msg, closing: Option<string>)
    requires RegistryOk(reg) && t in reg.messages && f in DescOf(reg, t).byNumber && Names(mode, f, name)
    requires f.rule == Optional && !IsMessageType(f.ty) && Means(reg, mode, f.ty, v, x)
    requires NoString(rest) && IsClosing(closing)
    ensures MergeFields(reg, mode, t, [name, ":"] + v + rest, m, closing)
            == if !mode.allowMultipleScalars && (f.number in m.fields || Rivalled(DescOf(reg, t).byNumber, f, m)) then ParseError
               else MergeFields(reg, mode, t, Separated(rest), Msg(Alone(DescOf(reg, t).byNumber, f, m).fields[f.number := One(x)]), closing)
  {
    hide RegistryOk, DescOf, ParseScalar, FieldStart, Separated, Cleared, Alone, Rivalled, IsWord, Names, MergeFields;
    var fs, ts := DescOf(reg, t).byNumber, [name, ":"] + v + rest;
    NameRead(reg, mode, t, f, name, [":"], v + rest, m);
    NameFound(reg, mode, t, f, name);
    RivalsCleared(fs, f, m);
    ScalarThen(reg, f.ty, v, rest);
    assert [] + rest == rest;
    assert ts == [name] + [":"] + (v + rest) && ts[0] == name;
    KeptAlone(fs, f, m);
    if !mode.allowMultipleScalars && Rivalled(fs, f, m) {
      NoTurn(reg, mode, t, ts, m, closing);
    } else if !mode.allowMultipleScalars && f.number in m.fields {
      FailedTurn(reg, mode, t, ts, m, closing, f, v + rest);
    } else {
      OneTurn(reg, mode, t, ts, m, closing, f, v + rest, Msg(Alone(fs, f, m).fields[f.number := One(x)]), rest);
    }
  }

  lemma FailedTurn(reg: Registry, mode: Mode, t: string, ts: seq<string>, m: Msg, closing: Option<string>, f: FieldDesc,
                   value: seq<string>)
    requires FieldStart(reg, mode, t, ts, m) == Done((f, value)) && f.rule == Optional
    requires MergeOne(reg, mode, f, value, Cleared(DescOf(reg, t).byNumber, f, m)) == ParseError
    requires ts[0] != "}" && ts[0] != ">" && IsClosing(closing)
    ensures MergeFields(reg, mode, t, ts, m, closing) == ParseError
  {
    hide FieldStart, MergeOne, MergeList, Cleared, DescOf;
  }

  lemma KeptAlone(fs: seq<FieldDesc>, f: FieldDesc, m: Msg)
    ensures f.number in Alone(fs, f, m).fields <==> f.number in m.fields
    ensures f.number in m.fields ==> Alone(fs, f, m).fields[f.number] == m.fields[f.number]
    ensures !Rivalled(fs, f, Msg(Alone(fs, f, m).fields[f.number := One(VInt(0))]))
  {
  }

  /** What a block of a message field starts from. */
  function Inner(f: FieldDesc, m: Msg): Msg {
    if f.number in m.fields && m.fields[f.number].One? && m.fields[f.number].v.VMsg? then m.fields[f.number].v.m else EMPTY
  }

  predicate Brackets(open: string, close: string) {
    (open == "{" && close == "}") || (open == "<" && close == ">")
  }

  predicate OptionalColon(colon: seq<string>) { colon == [] || colon == [":"] }

  /** A message field: its block, in brackets of either kind and with or without a colon, is read into the
      message that is there. */
  lemma BlockSet(reg: Registry, mode: Mode, t: string, f: FieldDesc, name: string, colon: seq<string>, open: string, close: string,
                 body: seq<string>, rest: seq<string>, m: Msg, closing: Option<string>)
    requires RegistryOk(reg) && t in reg.messages && f in DescOf(reg, t).byNumber && Names(mode, f, name)
    requires f.rule == Optional && (f.ty.TMessage? || f.ty.TGroup?)
    requires OptionalColon(colon) && Brackets(open, close) && IsClosing(closing)
    requires MergeFields(reg, mode, f.ty.name, body, Inner(f, m), None).Done?
    ensures MergeFields(reg, mode, t, [name] + colon + [open] + body + [close] + rest, m, closing)
            == if !mode.allowMultipleScalars && Rivalled(DescOf(reg, t).byNumber, f, m) then ParseError
               else MergeFields(reg, mode, t, Separated(rest),
                                Msg(Alone(DescOf(reg, t).byNumber, f, m).fields[f.number :=
                                      One(VMsg(MergeFields(reg, mode, f.ty.name, body, Inner(f, m), None).value.0))]), closing)
  {
    hide RegistryOk, DescOf, FieldStart, Separated, Cleared, Alone, Rivalled, IsWord, Names, MergeFields;
    var fs, value := DescOf(reg, t).byNumber, [open] + body + [close] + rest;
    var ts := [name] + colon + value;
    assert ts == [name] + colon + [open] + body + [close] + rest;
    NameRead(reg, mode, t, f, name, colon, value, m);
    NameFound(reg, mode, t, f, name);
    RivalsCleared(fs, f, m);
    if !mode.allowMultipleScalars && Rivalled(fs, f, m) {
      NoTurn(reg, mode, t, ts, m, closing);
    } else {
      Block(reg, mode, f.ty.name, body, rest, Inner(f, m), close);
      KeptAlone(fs, f, m);
      assert ts[0] == name && value[1..] == body + [close] + rest;
      assert SubMessage(f, Alone(fs, f, m)) == Inner(f, m);
      OneBlock(reg, mode, f, value, Alone(fs, f, m));
      var sub := MergeFields(reg, mode, f.ty.name, body, Inner(f, m), None).value.0;
      OneTurn(reg, mode, t, ts, m, closing, f, value, Msg(Alone(fs, f, m).fields[f.number := One(VMsg(sub))]), rest);
    }
  }

  lemma OneBlock(reg: Registry, mode: Mode, f: FieldDesc, ts: seq<string>, m: Msg)
    requires f.rule == Optional && (f.ty.TMessage? || f.ty.TGroup?) && (StartsWith(ts, "<") || StartsWith(ts, "{"))
    requires MergeFields(reg, mode, f.ty.name, ts[1..], SubMessage(f, m), Some(if ts[0] == "<" then ">" else "}")).Done?
    ensures var sub := MergeFields(reg, mode, f.ty.name, ts[1..], SubMessage(f, m), Some(if ts[0] == "<" then ">" else "}")).value;
            MergeOne(reg, mode, f, ts, m) == Done((Msg(m.fields[f.number := One(VMsg(sub.0))]), sub.1))
  {
    hide MergeFields, SubMessage;
  }

  /** `name { A } name { B }` is `name { A B }`. */
  lemma BlocksMerge(reg: Registry, mode: Mode, t: string, f: FieldDesc, name: string, a: seq<string>, b: seq<string>,
                    rest: seq<string>, m: Msg, closing: Option<string>)
    requires RegistryOk(reg) && t in reg.messages && f in DescOf(reg, t).byNumber && Names(mode, f, name)
    requires f.rule == Optional && (f.ty.TMessage? || f.ty.TGroup?) && IsClosing(closing) && Follows(b)
    requires MergeFields(reg, mode, f.ty.name, a, Inner(f, m), None).Done?
    requires MergeFields(reg, mode, f.ty.name, a + b, Inner(f, m), None).Done?
    ensures MergeFields(reg, mode, t, [name, "{"] + a + ["}", name, "{"] + b + ["}"] + rest, m, closing)
            == MergeFields(reg, mode, t, [name, "{"] + (a + b) + ["}"] + rest, m, closing)
  {
    hide RegistryOk, DescOf, MergeFields, Separated, Rivalled, IsWord, Names, Follows;
    FieldsThen(reg, mode, f.ty.name, a, b, Inner(f, m), None);
    var fs, first := DescOf(reg, t).byNumber, MergeFields(reg, mode, f.ty.name, a, Inner(f, m), None).value.0;
    var second := [name] + [] + ["{"] + b + ["}"] + rest;
    var after := Msg(Alone(fs, f, m).fields[f.number := One(VMsg(first))]);
    NameFound(reg, mode, t, f, name);
    assert Separated(second) == second by { Follow(name, second); }
    assert [name, "{"] + a + ["}", name, "{"] + b + ["}"] + rest == [name] + [] + ["{"] + a + ["}"] + second;
    assert [name, "{"] + (a + b) + ["}"] + rest == [name] + [] + ["{"] + (a + b) + ["}"] + rest;
    BlockSet(reg, mode, t, f, name, [], "{", "}", a, second, m, closing);
    BlockSet(reg, mode, t, f, name, [], "{", "}", a + b, rest, m, closing);
    BlockSet(reg, mode, t, f, name, [], "{", "}", b, rest, after, closing);
    AloneTwice(fs, f, m, One(VMsg(first)));
    var last := One(VMsg(MergeFields(reg, mode, f.ty.name, b, first, None).value.0));
    assert after.fields[f.number := last] == Alone(fs, f, m).fields[f.number := last];
  }

  lemma Follow(name: string, ts: seq<string>)
    requires ts != [] && ts[0] == name && Follows([name])
    ensures Separated(ts) == ts
  {
  }

  lemma AloneTwice(fs: seq<FieldDesc>, f: FieldDesc, m: Msg, c: Content)
    ensures var after := Msg(Alone(fs, f, m).fields[f.number := c]);
            !Rivalled(fs, f, after) && Alone(fs, f, after) == after
  {
    var after := Msg(Alone(fs, f, m).fields[f.number := c]);
    RivalsCleared(fs, f, after);
  }

  /** What a text may not do: name no field, leave out the colon before a scalar, open no block or close none. */
  lemma Rejected(reg: Registry, mode: Mode, t: string, name: string, rest: seq<string>, m: Msg, closing: Option<string>)
    requires IsClosing(closing) && Some(name) != closing
    ensures FindField(mode, DescOf(reg, t), name) == None ==> MergeFields(reg, mode, t, [name] + rest, m, closing) == ParseError
    ensures (FindField(mode, DescOf(reg, t), name).Some? && !IsMessageType(FindField(mode, DescOf(reg, t), name).value.ty)
             && !StartsWith(rest, ":"))
            ==> MergeFields(reg, mode, t, [name] + rest, m, closing) == ParseError
    ensures closing.Some? ==> MergeFields(reg, mode, t, [], m, closing) == ParseError
  {
    hide FindField, DescOf, Conflict, IsWord, MergeOne, MergeList, Cleared;
    assert ([name] + rest)[1..] == rest && ([name] + rest)[0] == name;
    assert FieldStart(reg, mode, t, [name] + rest, m).ParseError? ==> MergeField(reg, mode, t, [name] + rest, m).ParseError?;
  }

  lemma {:induction false} NumberedField(fs: seq<FieldDesc>, n: int)
    requires ByNumber(fs, n).Some?
    ensures ByNumber(fs, n).value in fs && ByNumber(fs, n).value.number == n
  {
    if fs[0].number != n {
      NumberedField(fs[1..], n);
    }
  }

  lemma {:induction false} NamedField(fs: seq<FieldDesc>, name: string)
    ensures ByName(fs, name).Some? ==> ByName(fs, name).value in fs && ByName(fs, name).value.name == name
    ensures ByName(fs, name).None? ==> forall f :: f in fs ==> f.name != name
  {
    if fs != [] && fs[0].name != name {
      NamedField(fs[1..], name);
    }
  }

  /** Exactly the fields of the type are found, by exactly these words. */
  lemma FieldNamed(reg: Registry, mode: Mode, t: string, name: string)
    requires RegistryOk(reg) && t in reg.messages
    ensures forall f :: FindField(mode, DescOf(reg, t), name) == Some(f) ==>
              f in DescOf(reg, t).byNumber
              && (Names(mode, f, name) || (mode.allowFieldNumber && AllDigits(name) && PythonInt(name) == Some(f.number)))
    ensures forall f :: f in DescOf(reg, t).byNumber && Names(mode, f, name) ==> FindField(mode, DescOf(reg, t), name) == Some(f)
  {
    hide RegistryOk, DescOk, Lower, AllDigits, PythonInt;
    var fs := DescOf(reg, t).byNumber;
    NamedField(fs, name);
    NamedField(fs, Lower(name));
    forall f | f in fs && Names(mode, f, name)
      ensures FindField(mode, DescOf(reg, t), name) == Some(f)
    {
      NameFound(reg, mode, t, f, name);
    }
    if mode.allowFieldNumber && AllDigits(name) && PythonInt(name).Some? && ByNumber(fs, PythonInt(name).value).Some? {
      NumberedField(fs, PythonInt(name).value);
    }
  }

  /** Behind a field one comma or one semicolon is skipped. */
  lemma Separators(rest: seq<string>)
    ensures Separated([","] + rest) == rest && Separated([";"] + rest) == rest
    ensures rest == [] || (rest[0] != "," && rest[0] != ";") ==> Separated(rest) == rest
  {
    assert ([","] + rest)[1..] == rest && ([";"] + rest)[1..] == rest;
  }

  /** An enum is read by any of its names, and by any number that has a name. */
  lemma EnumRead(reg: Registry, ty: Type, s: string)
    requires RegistryOk(reg) && ty.TEnum?
    ensures var values := if ty.enumName in reg.enums then reg.enums[ty.enumName] else [];
            var read := ParseScalar(reg, ty, [s]);
            && (forall i :: 0 <= i < |values| && values[i].0 == s ==> read == Done((VInt(values[i].1), [])))
            && (PythonInt(s).Some? ==>
                  read == if exists e :: e in values && e.1 == PythonInt(s).value then Done((VInt(PythonInt(s).value), [])) else ParseError)
            && (PythonInt(s).None? && (forall i :: 0 <= i < |values| ==> values[i].0 != s) ==> read == ParseError)
  {
    hide PythonInt, IsName;
    var values := EnumValues(reg, ty.enumName);
    assert [s][1..] == [];
    EnumNumbers(values, s);
    if PythonInt(s).Some? {
      EnumNamedBy(values, PythonInt(s).value);
    }
    forall i | 0 <= i < |values| && values[i].0 == s
      ensures PythonInt(s) == None
    {
      assert EnumOk(reg.enums[ty.enumName]);
      NameIsNoInt(s);
    }
    forall i | 0 <= i < |values| && values[i].0 == s
      ensures EnumNumber(values, s) == Some(values[i].1)
    {
      EnumFound(values, i);
    }
  }

  lemma {:induction false} EnumNumbers(values: seq<(string, int)>, s: string)
    ensures EnumNumber(values, s).Some? <==> exists i :: 0 <= i < |values| && values[i].0 == s
  {
    if values != [] && values[0].0 != s {
      EnumNumbers(values[1..], s);
      if i :| 0 <= i < |values| && values[i].0 == s {
        assert values[1..][i - 1].0 == s;
      }
      if i :| 0 <= i < |values[1..]| && values[1..][i].0 == s {
        assert values[i + 1].0 == s;
      }
    }
  }

  lemma {:induction false} EnumNamedBy(values: seq<(string, int)>, n: int)
    ensures EnumName(values, n).Some? <==> exists e :: e in values && e.1 == n
  {
    if values != [] {
      EnumNamedBy(values[1..], n);
      assert values == [values[0]] + values[1..];
    }
  }

  lemma {:induction false} EnumFound(values: seq<(string, int)>, i: nat)
    requires i < |values| && EnumOk(values)
    ensures EnumNumber(values, values[i].0) == Some(values[i].1)
  {
    hide IsName;
    if i > 0 {
      EnumFound(values[1..], i - 1);
    }
  }

  // ----- map entries -----

  predicate SameKeyKind(a: Val, b: Val) {
    (a.VInt? && b.VInt?) || (a.VBool? && b.VBool?) || (a.VBytes? && b.VBytes?)
  }

  /** Equal up to `k`, where the first one ends or is smaller. */
  predicate Ahead(a: seq<byte>, b: seq<byte>, k: nat) {
    k <= |a| && k < |b| && a[..k] == b[..k] && (k == |a| || a[k] < b[k])
  }

  lemma AheadStep(a: seq<byte>, b: seq<byte>, k: nat)
    requires a != [] && b != []
    ensures Ahead(a, b, k + 1) <==> a[0] == b[0] && Ahead(a[1..], b[1..], k)
    ensures Ahead(a, b, 0) <==> a[0] < b[0]
  {
    if k + 1 <= |a| && k + 1 <= |b| {
      assert a[..k + 1] == [a[0]] + a[1..][..k] && b[..k + 1] == [b[0]] + b[1..][..k];
    }
  }

  /** Bytes are ordered by their first difference, and a prefix comes first. */
  lemma {:induction false} BytesBeforeMeans(a: seq<byte>, b: seq<byte>)
    ensures BytesBefore(a, b) <==> exists k: nat :: Ahead(a, b, k)
  {
    hide Ahead;
    if a != [] && b != [] {
      BytesBeforeMeans(a[1..], b[1..]);
      AheadStep(a, b, 0);
      if k: nat :| Ahead(a[1..], b[1..], k) {
        AheadStep(a, b, k);
      }
      if k: nat :| Ahead(a, b, k) {
        if k > 0 {
          AheadStep(a, b, k - 1);
        }
      }
    } else {
      AheadEmpty(a, b);
    }
  }

  lemma AheadEmpty(a: seq<byte>, b: seq<byte>)
    requires a == [] || b == []
    ensures b == [] ==> forall k: nat :: !Ahead(a, b, k)
    ensures a == [] && b != [] ==> Ahead(a, b, 0)
  {
  }

  lemma {:induction false} BytesTotal(a: seq<byte>, b: seq<byte>)
    ensures BytesBefore(a, b) || a == b || BytesBefore(b, a)
  {
    if a != [] && b != [] {
      BytesTotal(a[1..], b[1..]);
      assert a == [a[0]] + a[1..] && b == [b[0]] + b[1..];
    }
  }

  lemma {:induction false} BytesTransitive(a: seq<byte>, b: seq<byte>, c: seq<byte>)
    requires BytesBefore(a, b) && BytesBefore(b, c)
    ensures BytesBefore(a, c)
    decreases |a|
  {
    if a != [] && a[0] == b[0] == c[0] {
      BytesTransitive(a[1..], b[1..], c[1..]);
    }
  }

  lemma KeysOrdered(a: Val, b: Val, c: Val)
    requires SameKeyKind(a, b) && SameKeyKind(b, c)
    ensures KeyBefore(a, b) || a == b || KeyBefore(b, a)
    ensures KeyBefore(a, b) && KeyBefore(b, c) ==> KeyBefore(a, c)
  {
    hide BytesBefore;
    if a.VBytes? {
      BytesTotal(a.bytes, b.bytes);
      if BytesBefore(a.bytes, b.bytes) && BytesBefore(b.bytes, c.bytes) {
        BytesTransitive(a.bytes, b.bytes, c.bytes);
      }
    }
  }

  ghost predicate SortedEntries(es: seq<(Val, Val)>, key: Val) {
    && (forall i, j :: 0 <= i < j < |es| ==> KeyBefore(es[i].0, es[j].0))
    && (forall i :: 0 <= i < |es| ==> SameKeyKind(es[i].0, key))
  }

  /** Setting a key replaces its entry or adds one, keeps the entries sorted and changes no other. */
  lemma {:induction false} EntryInserted(es: seq<(Val, Val)>, key: Val, value: Val)
    requires SameKeyKind(key, key) && SortedEntries(es, key)
    ensures SortedEntries(InsertEntry(es, key, value), key)
    ensures forall e :: e in InsertEntry(es, key, value) <==> e == (key, value) || (e in es && e.0 != key)
  {
    hide KeyBefore;
    if es != [] {
      var first, rest := es[0], es[1..];
      KeysOrdered(first.0, key, key);
      assert es == [first] + rest;
      forall e | e in rest
        ensures KeyBefore(first.0, e.0) && first.0 != e.0
        ensures KeyBefore(key, first.0) ==> KeyBefore(key, e.0) && e.0 != key
        ensures first.0 == key ==> e.0 != key
      {
        KeyOrder(first.0, e.0);
        KeysOrdered(key, first.0, e.0);
        if KeyBefore(key, first.0) {
          KeyOrder(key, e.0);
        }
      }
      if KeyBefore(key, first.0) {
        KeyOrder(key, first.0);
      }
      if first.0 != key && !KeyBefore(key, first.0) {
        EntryInserted(rest, key, value);
        SortedCons(first, InsertEntry(rest, key, value), key);
      } else {
        SortedCons((key, value), if first.0 == key then rest else es, key);
      }
    } else {
      assert InsertEntry(es, key, value) == [(key, value)];
    }
  }

  lemma SortedCons(first: (Val, Val), es: seq<(Val, Val)>, key: Val)
    requires SortedEntries(es, key) && SameKeyKind(first.0, key) && forall e :: e in es ==> KeyBefore(first.0, e.0)
    ensures SortedEntries([first] + es, key)
  {
    hide KeyBefore;
  }
}
