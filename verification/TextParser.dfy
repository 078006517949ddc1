/** The recursive-descent parser of the text format on a tokenizer, proved against `TextGrammar`. */
module TextParser {
  import opened Js
  import opened Arith
  import opened TextEscape
  import opened Tokens
  import opened TextFormat
  import opened TextGrammar

  /** A call returned what its function says for the tokens that were left, and left the rest. */
  ghost predicate Consumed<T>(tokenizer: Tokenizer, r: Outcome<T>, spec: Outcome<(T, seq<string>)>)
    reads tokenizer
  {
    match spec
    case Done(read) => r == Done(read.0) && tokenizer.Valid() && tokenizer.Rest() == read.1
    case ParseError => r.ParseError?
  }

  lemma CurrentToken(tokenizer: Tokenizer)
    requires tokenizer.Valid()
    ensures tokenizer.token == "" <==> tokenizer.Rest() == []
    ensures tokenizer.token != "" ==> tokenizer.Rest()[0] == tokenizer.token
  {
  }

  method ConsumeByteString(tokenizer: Tokenizer) returns (r: Outcome<seq<byte>>)
    requires tokenizer.Valid()
    modifies tokenizer
    ensures Consumed(tokenizer, r, ByteString(old(tokenizer.Rest())))
  {
    hide OneString;
    CurrentToken(tokenizer);
    ghost var spec := ByteString(tokenizer.Rest());
    if tokenizer.token == "" {
      return ParseError;
    }
    var bytes :- ConsumeSingleByteString(tokenizer);
    CurrentToken(tokenizer);
    while tokenizer.token != "" && IsQuote(tokenizer.token[0])
      invariant tokenizer.Valid()
      invariant tokenizer.token == "" <==> tokenizer.Rest() == []
      invariant tokenizer.token != "" ==> tokenizer.Rest()[0] == tokenizer.token
      invariant Joined(bytes, tokenizer.Rest()) == spec
      decreases |tokenizer.Rest()|
    {
      ghost var before := tokenizer.Rest();
      var more :- ConsumeSingleByteString(tokenizer);
      CurrentToken(tokenizer);
      JoinedStep(bytes, before);
      bytes := bytes + more;
    }
    return Done(bytes);
  }

  /** What has been read, joined with the string tokens that follow at once. */
  ghost function Joined(bytes: seq<byte>, ts: seq<string>): Outcome<(seq<byte>, seq<string>)> {
    if ts != [] && IsStringToken(ts[0]) then
      match ByteString(ts)
      case ParseError => ParseError
      case Done(rest) => Done((bytes + rest.0, rest.1))
    else Done((bytes, ts))
  }

  lemma JoinedStep(bytes: seq<byte>, ts: seq<string>)
    requires ts != [] && IsStringToken(ts[0])
    ensures OneString(ts[0]).ParseError? ==> Joined(bytes, ts).ParseError?
    ensures OneString(ts[0]).Done? ==> Joined(bytes, ts) == Joined(bytes + OneString(ts[0]).value, ts[1..])
  {
    hide OneString;
    if OneString(ts[0]).Done? && |ts| > 1 && IsStringToken(ts[1]) && ByteString(ts[1..]).Done? {
      var first, rest := OneString(ts[0]).value, ByteString(ts[1..]).value.0;
      assert bytes + (first + rest) == bytes + first + rest;
    }
  }

  method ConsumeSingleByteString(tokenizer: Tokenizer) returns (r: Outcome<seq<byte>>)
    requires tokenizer.Valid() && tokenizer.token != ""
    modifies tokenizer
    ensures r == OneString(old(tokenizer.Rest())[0])
    ensures r.Done? ==> tokenizer.Valid() && tokenizer.Rest() == old(tokenizer.Rest())[1..]
  {
    hide CUnescape;
    CurrentToken(tokenizer);
    var text := tokenizer.token;
    if |text| < 1 || !IsQuote(text[0]) {
      return ParseError;
    }
    if |text| < 2 || text[|text| - 1] != text[0] {
      return ParseError;
    }
    var unescaped := CUnescape(text[1..|text| - 1]);
    if unescaped.None? {
      return ParseError;
    }
    tokenizer.NextToken();
    return Done(unescaped.value);
  }

  method ConsumeScalar(reg: Registry, ty: Type, tokenizer: Tokenizer) returns (r: Outcome<Val>)
    requires tokenizer.Valid()
    modifies tokenizer
    ensures Consumed(tokenizer, r, ParseScalar(reg, ty, old(tokenizer.Rest())))
  {
    hide PythonInt, ParseBool, ParseEnum, ByteString, ValidUtf8, InRange;
    CurrentToken(tokenizer);
    if tokenizer.AtEnd() {
      return ParseError;
    }
    match ty
    case TInt32 | TInt64 | TUint32 | TUint64 =>
      var n := PythonInt(tokenizer.token);
      if n.None? || !InRange(ty, n.value) {
        return ParseError;
      }
      tokenizer.NextToken();
      return Done(VInt(n.value));
    case TBool =>
      var b := ParseBool(tokenizer.token);
      if b.None? {
        return ParseError;
      }
      tokenizer.NextToken();
      return Done(VBool(b.value));
    case TEnum(name) =>
      var n := ParseEnum(EnumValues(reg, name), tokenizer.token);
      if n.None? {
        return ParseError;
      }
      tokenizer.NextToken();
      return Done(VInt(n.value));
    case TString =>
      var bytes :- ConsumeByteString(tokenizer);
      if !ValidUtf8(bytes) {
        return ParseError;
      }
      return Done(VBytes(bytes));
    case TBytes =>
      var bytes :- ConsumeByteString(tokenizer);
      return Done(VBytes(bytes));
    case TMessage(_) | TGroup(_) | TMap(_) => return ParseError;
  }

  class Parser {
    const reg: Registry
    const mode: Mode

    constructor (r: Registry, md: Mode)
      ensures reg == r && mode == md
    {
      reg, mode := r, md;
    }

    /** `_MergeField`, up to the value. */
    method ConsumeFieldStart(tokenizer: Tokenizer, t: string, m: Msg) returns (r: Outcome<FieldDesc>)
      requires tokenizer.Valid()
      modifies tokenizer
      ensures Consumed(tokenizer, r, FieldStart(reg, mode, t, old(tokenizer.Rest()), m))
    {
      hide FindField, DescOf, Conflict;
      CurrentToken(tokenizer);
      var bracket := tokenizer.TryConsume("[");
      if bracket || tokenizer.AtEnd() || !IsWord(tokenizer.token) {
        return ParseError;
      }
      var found := FindField(mode, DescOf(reg, t), tokenizer.token);
      tokenizer.NextToken();
      if found.None? {
        return ParseError;
      }
      var f := found.value;
      if !mode.allowMultipleScalars && Conflict(DescOf(reg, t).byNumber, f, m) {
        return ParseError;
      }
      var colon := tokenizer.TryConsume(":");
      if !IsMessageType(f.ty) && !colon {
        return ParseError;
      }
      return Done(f);
    }

    /** `_MergeField` */
    method MergeField(tokenizer: Tokenizer, t: string, m: Msg) returns (r: Outcome<Msg>)
      requires tokenizer.Valid()
      modifies tokenizer
      ensures Consumed(tokenizer, r, TextGrammar.MergeField(reg, mode, t, old(tokenizer.Rest()), m))
      decreases |tokenizer.Rest()|, 3
    {
      hide FieldStart, TextGrammar.MergeList, TextGrammar.MergeOne, Cleared, DescOf;
      var f :- ConsumeFieldStart(tokenizer, t, m);
      var target := Cleared(DescOf(reg, t).byNumber, f, m);
      var list := false;
      if f.rule == Repeated {
        list := tokenizer.TryConsume("[");
      }
      var merged: Msg;
      if list {
        merged :- MergeList(tokenizer, f, target);
      } else {
        merged :- MergeOne(tokenizer, f, target);
      }
      var comma := tokenizer.TryConsume(",");
      if !comma {
        var _ := tokenizer.TryConsume(";");
      }
      return Done(merged);
    }

    method MergeList(tokenizer: Tokenizer, f: FieldDesc, m: Msg) returns (r: Outcome<Msg>)
      requires tokenizer.Valid()
      modifies tokenizer
      ensures Consumed(tokenizer, r, TextGrammar.MergeList(reg, mode, f, old(tokenizer.Rest()), m))
      decreases |tokenizer.Rest()|, 2
    {
      hide TextGrammar.MergeOne;
      var message := m;
      ghost var spec := TextGrammar.MergeList(reg, mode, f, tokenizer.Rest(), m);
      while true
        invariant tokenizer.Valid() && |tokenizer.Rest()| <= old(|tokenizer.Rest()|)
        invariant TextGrammar.MergeList(reg, mode, f, tokenizer.Rest(), message) == spec
        decreases |tokenizer.Rest()|
      {
        message :- MergeOne(tokenizer, f, message);
        var closed := tokenizer.TryConsume("]");
        if closed {
          return Done(message);
        }
        var comma := tokenizer.TryConsume(",");
        if !comma {
          return ParseError;
        }
      }
    }

    /** `_MergeScalarField` or `_MergeMessageField` */
    method MergeOne(tokenizer: Tokenizer, f: FieldDesc, m: Msg) returns (r: Outcome<Msg>)
      requires tokenizer.Valid()
      modifies tokenizer
      ensures Consumed(tokenizer, r, TextGrammar.MergeOne(reg, mode, f, old(tokenizer.Rest()), m))
      decreases |tokenizer.Rest()|, 1
    {
      hide ParseScalar, StoreScalar, StoreMessage, SubMessage, TextGrammar.MergeFields;
      if IsMessageType(f.ty) {
        var closing := "}";
        var pointy := tokenizer.TryConsume("<");
        if pointy {
          closing := ">";
        } else {
          var brace := tokenizer.TryConsume("{");
          if !brace {
            return ParseError;
          }
        }
        var sub :- MergeFields(tokenizer, f.ty.name, SubMessage(f, m), Some(closing));
        return Done(StoreMessage(reg, f, m, sub));
      }
      var value :- ConsumeScalar(reg, f.ty, tokenizer);
      return StoreScalar(mode, f, m, value);
    }

    method MergeFields(tokenizer: Tokenizer, t: string, m: Msg, closing: Option<string>) returns (r: Outcome<Msg>)
      requires tokenizer.Valid() && (closing.Some? ==> closing.value != "")
      modifies tokenizer
      ensures Consumed(tokenizer, r, TextGrammar.MergeFields(reg, mode, t, old(tokenizer.Rest()), m, closing))
      decreases |tokenizer.Rest()|, 4
    {
      hide TextGrammar.MergeField;
      var message := m;
      ghost var spec := TextGrammar.MergeFields(reg, mode, t, tokenizer.Rest(), m, closing);
      while true
        invariant tokenizer.Valid() && |tokenizer.Rest()| <= old(|tokenizer.Rest()|)
        invariant TextGrammar.MergeFields(reg, mode, t, tokenizer.Rest(), message, closing) == spec
        decreases |tokenizer.Rest()|
      {
        CurrentToken(tokenizer);
        if closing.Some? {
          var closed := tokenizer.TryConsume(closing.value);
          if closed {
            return Done(message);
          }
        }
        if tokenizer.AtEnd() {
          return if closing.None? then Done(message) else ParseError;
        }
        message :- MergeField(tokenizer, t, message);
      }
    }

    /** `Parse` or `Merge` */
    method Parse(t: string, text: string, m: Msg) returns (r: Outcome<Msg>)
      ensures r == ParseText(reg, mode, t, text, m)
    {
      hide TextGrammar.MergeFields, Tokenize;
      var tokenizer := new Tokenizer(text);
      r := MergeFields(tokenizer, t, m, None);
    }
  }
}
