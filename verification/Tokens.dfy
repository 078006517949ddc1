/** The tokenizer of the text format (`text_format.py`, class `Tokenizer`), on a text whose lines are
    separated by line feeds. */
module Tokens {
  import opened Decimal
  import opened TextEscape
  import opened Js

  /** `\s` */
  predicate IsSpace(c: char) {
    var n := c as int;
    9 <= n <= 13 || 28 <= n <= 32 || n == 0x85 || n == 0xA0 || n == 0x1680 || 0x2000 <= n <= 0x200A
    || n == 0x2028 || n == 0x2029 || n == 0x202F || n == 0x205F || n == 0x3000
  }

  predicate IsLetter(c: char) {
    'a' <= c <= 'z' || 'A' <= c <= 'Z' || c == '_'
  }

  /** What may follow inside an identifier, and with `dots` inside a number. */
  predicate IsPart(c: char, dots: bool) {
    IsLetter(c) || IsDigit(c) || c == '+' || c == '-' || (dots && c == '.')
  }

  function Run(s: string, dots: bool): (n: nat)
    ensures n <= |s|
  {
    if s != "" && IsPart(s[0], dots) then 1 + Run(s[1..], dots) else 0
  }

  predicate IsQuote(c: char) { c == '"' || c == '\'' }

  /** How far a string goes behind its opening quote: to its closing quote, or to the end of the line. */
  function Quoted(s: string, q: char): (n: nat)
    ensures n <= |s|
    decreases |s|
  {
    if s == "" || s[0] == '\n' then 0
    else if s[0] == q then 1
    else if s[0] == '\\' && |s| > 1 && s[1] != '\n' then 2 + Quoted(s[2..], q)
    else 1 + Quoted(s[1..], q)
  }

  /** The length of the token at the start of `s`. */
  function TokenLength(s: string): (n: nat)
    requires s != ""
    ensures 1 <= n <= |s|
  {
    if IsLetter(s[0]) then 1 + Run(s[1..], false)
    else if IsDigit(s[0]) || s[0] == '+' || s[0] == '-' then 1 + Run(s[1..], true)
    else if s[0] == '.' && |s| > 1 && IsDigit(s[1]) then 2 + Run(s[2..], true)
    else if IsQuote(s[0]) then 1 + Quoted(s[1..], s[0])
    else 1
  }

  /** The rest of the line. */
  function LineLength(s: string): (n: nat)
    ensures n <= |s|
  {
    if s == "" || s[0] == '\n' then 0 else 1 + LineLength(s[1..])
  }

  /** All tokens of a text. */
  function Tokenize(s: string): seq<string>
    decreases |s|
  {
    if s == "" then []
    else if IsSpace(s[0]) then Tokenize(s[1..])
    else if s[0] == '#' then Tokenize(s[1 + LineLength(s[1..])..])
    else [s[..TokenLength(s)]] + Tokenize(s[TokenLength(s)..])
  }

  class Tokenizer {
    const text: string
    var position: nat
    var token: string

    /** The current token and all that follow. */
    ghost function Rest(): seq<string>
      requires position <= |text|
      reads this
    {
      Tokenize(text[position..])
    }

    /** The current token starts at the position; it is empty at the end of the text only. */
    ghost predicate Valid()
      reads this
    {
      && position + |token| <= |text| && text[position..position + |token|] == token
      && Tokenize(text[position..]) == if token == "" then [] else [token] + Tokenize(text[position + |token|..])
    }

    constructor (s: string)
      ensures Valid() && Rest() == Tokenize(s)
    {
      text := s;
      position := 0;
      token := "";
      new;
      assert text[0..] == s;
      SkipWhitespace();
      NextToken();
    }

    predicate AtEnd()
      reads this
    {
      token == ""
    }

    /** `_SkipWhitespace`, comments included. */
    method SkipWhitespace()
      requires position <= |text|
      modifies this`position
      ensures position <= |text| && Tokenize(text[position..]) == Tokenize(old(text[position..]))
      ensures position < |text| ==> !IsSpace(text[position]) && text[position] != '#'
    {
      while position < |text| && (IsSpace(text[position]) || text[position] == '#')
        invariant position <= |text| && Tokenize(text[position..]) == Tokenize(old(text[position..]))
      {
        var s := text[position..];
        assert s[1..] == text[position + 1..];
        if IsSpace(text[position]) {
          position := position + 1;
        } else {
          var n := LineLength(s[1..]);
          assert s[1 + n..] == text[position + 1 + n..];
          position := position + 1 + n;
        }
      }
    }

    method NextToken()
      requires position + |token| <= |text|
      modifies this
      ensures Valid() && Rest() == Tokenize(old(text[position + |token|..]))
    {
      hide IsSpace, TokenLength, LineLength;
      position := position + |token|;
      SkipWhitespace();
      if position == |text| {
        token := "";
        assert text[position..] == "";
        return;
      }
      var s := text[position..];
      token := s[..TokenLength(s)];
      assert text[position..position + |token|] == token;
      assert s[|token|..] == text[position + |token|..];
    }

    method TryConsume(expected: string) returns (matched: bool)
      requires Valid() && expected != ""
      modifies this
      ensures Valid() && (matched <==> old(Rest()) != [] && old(Rest())[0] == expected)
      ensures Rest() == if matched then old(Rest())[1..] else old(Rest())
    {
      if token == expected {
        NextToken();
        return true;
      }
      return false;
    }
  }

  // ----- tokens in front of other text -----

  lemma {:induction false} RunThen(s: string, rest: string, dots: bool)
    requires forall i :: 0 <= i < |s| ==> IsPart(s[i], dots)
    requires rest == "" || !IsPart(rest[0], dots)
    ensures Run(s + rest, dots) == |s|
  {
    if s == "" {
      assert s + rest == rest;
    } else {
      assert (s + rest)[1..] == s[1..] + rest;
      RunThen(s[1..], rest, dots);
    }
  }

  /** No closing quote and no line end outside an escape. */
  predicate QuoteFree(s: string) {
    s == "" || (if s[0] == '\\' then |s| > 1 && s[1] != '\n' && QuoteFree(s[2..])
                else s[0] != '"' && s[0] != '\n' && QuoteFree(s[1..]))
  }

  lemma {:induction false} QuotedThen(s: string, rest: string)
    requires QuoteFree(s)
    ensures Quoted(s + "\"" + rest, '"') == |s| + 1
    decreases |s|
  {
    var whole := s + "\"" + rest;
    if s == "" {
      assert whole[0] == '"';
    } else if s[0] == '\\' {
      assert whole[2..] == s[2..] + "\"" + rest;
      QuotedThen(s[2..], rest);
    } else {
      assert whole[1..] == s[1..] + "\"" + rest;
      QuotedThen(s[1..], rest);
    }
  }

  lemma {:induction false} QuoteFreeConcat(s: string, t: string)
    requires QuoteFree(s) && QuoteFree(t)
    ensures QuoteFree(s + t)
    decreases |s|
  {
    if s == "" {
      assert s + t == t;
    } else if s[0] == '\\' {
      assert (s + t)[2..] == s[2..] + t;
      QuoteFreeConcat(s[2..], t);
    } else {
      assert (s + t)[1..] == s[1..] + t;
      QuoteFreeConcat(s[1..], t);
    }
  }

  lemma EscapeByteQuoteFree(b: byte, asUtf8: bool)
    ensures QuoteFree(EscapeByte(b, asUtf8))
  {
    var s := EscapeByte(b, asUtf8);
    if |s| == 4 {
      OctalDigits(b);
      assert s[2..] == [Digit(b / 8 % 8), Digit(b % 8)] && s[2..][1..] == [Digit(b % 8)];
      assert QuoteFree([Digit(b % 8)]);
    } else if |s| == 2 {
      assert s[2..] == "";
    } else {
      assert s[1..] == "";
    }
  }

  lemma {:induction false} EscapedQuoteFree(text: seq<byte>, asUtf8: bool)
    ensures QuoteFree(CEscape(text, asUtf8))
  {
    hide EscapeByte, QuoteFree;
    if text == [] {
      assert QuoteFree("") by { NothingQuoteFree(); }
    } else {
      EscapeByteQuoteFree(text[0], asUtf8);
      EscapedQuoteFree(text[1..], asUtf8);
      QuoteFreeConcat(EscapeByte(text[0], asUtf8), CEscape(text[1..], asUtf8));
    }
  }

  lemma NothingQuoteFree()
    ensures QuoteFree("")
  {
  }

  /** The printed form of any byte string is a single string token, whatever follows it. */
  lemma StringToken(text: seq<byte>, asUtf8: bool, rest: string)
    ensures TokenLength("\"" + CEscape(text, asUtf8) + "\"" + rest) == |CEscape(text, asUtf8)| + 2
  {
    var s := CEscape(text, asUtf8);
    EscapedQuoteFree(text, asUtf8);
    QuotedThen(s, rest);
    assert ("\"" + s + "\"" + rest)[1..] == s + "\"" + rest;
  }

  lemma TokenThen(t: string, rest: string)
    requires t != "" && !IsSpace(t[0]) && t[0] != '#' && TokenLength(t + rest) == |t|
    ensures Tokenize(t + rest) == [t] + Tokenize(rest)
  {
    assert (t + rest)[..|t|] == t && (t + rest)[|t|..] == rest;
  }
}
