/** C-style escaping of byte strings in the text format (`text_encoding.py`). Text is a Dafny string,
    one character a code point. */
module TextEscape {
  import opened Js
  import opened Decimal
  import opened Arith

  // ----- CEscape -----

  /** `r'\%03o' % b` */
  function Octal(b: nat): string
    requires b < 512
  {
    ['\\', Digit(b / 64), Digit(b / 8 % 8), Digit(b % 8)]
  }

  /** An entry of `_cescape_utf8_to_str` or `_cescape_byte_to_str`. */
  function EscapeByte(b: byte, asUtf8: bool): (s: string)
    ensures |s| > 0
  {
    if b == 9 then "\\t"
    else if b == 10 then "\\n"
    else if b == 13 then "\\r"
    else if b == 39 then "\\'"
    else if b == 34 then "\\\""
    else if b == 92 then "\\\\"
    else if asUtf8 || 32 <= b < 127 then [b as char]
    else Octal(b)
  }

  function CEscape(text: seq<byte>, asUtf8: bool): string {
    if text == [] then "" else EscapeByte(text[0], asUtf8) + CEscape(text[1..], asUtf8)
  }

  // ----- CUnescape -----

  predicate IsHex(c: char) {
    '0' <= c <= '9' || 'a' <= c <= 'f' || 'A' <= c <= 'F'
  }

  function HexValue(c: char): nat
    requires IsHex(c)
  {
    if c <= '9' then c as int - '0' as int
    else if c <= 'F' then c as int - 'A' as int + 10
    else c as int - 'a' as int + 10
  }

  /** How many backslashes `s` starts with. */
  function Slashes(s: string): (k: nat)
    ensures k <= |s| && (k < |s| ==> s[k] != '\\')
  {
    if s != "" && s[0] == '\\' then 1 + Slashes(s[1..]) else 0
  }

  /** An `x` with exactly one hex digit behind it at the start of `s`. */
  predicate OneHexDigit(s: string) {
    |s| > 1 && s[0] == 'x' && IsHex(s[1]) && !(|s| > 2 && IsHex(s[2]))
  }

  /** `_CUNESCAPE_HEX.sub(ReplaceHex, text)`: pads single-digit hex escapes, when the backslashes in
      front of the `x` are odd in number. */
  function FixHex(s: string): string
    decreases |s|
  {
    if s == "" then ""
    else if s[0] != '\\' then [s[0]] + FixHex(s[1..])
    else
      var k := Slashes(s);
      if OneHexDigit(s[k..]) then
        (if k % 2 == 1 then s[..k] + "x0" + [s[k + 1]] else s[..k + 2]) + FixHex(s[k + 2..])
      else
        s[..k] + FixHex(s[k..])
  }

  /** The table `_cescape_highbit_to_str`, which has 256 entries. */
  function HighBits(s: string): Option<string> {
    if s == "" then Some("")
    else if s[0] as int >= 256 then None
    else match HighBits(s[1..])
      case None => None
      case Some(rest) => Some((if s[0] as int < 127 then [s[0]] else Octal(s[0] as int)) + rest)
  }

  predicate IsOctal(c: char) { '0' <= c <= '7' }

  function SimpleEscape(c: char): Option<nat> {
    if c == '\\' then Some(92) else if c == '\'' then Some(39) else if c == '"' then Some(34)
    else if c == 'a' then Some(7) else if c == 'b' then Some(8) else if c == 't' then Some(9)
    else if c == 'n' then Some(10) else if c == 'v' then Some(11) else if c == 'f' then Some(12)
    else if c == 'r' then Some(13) else None
  }

  /** The octal digits of an escape, at most three, and what they denote. */
  function OctalEscape(s: string, limit: nat): (r: (nat, nat))
    ensures r.1 <= |s| && r.1 <= limit && r.0 < (if r.1 == 0 then 1 else if r.1 == 1 then 8 else if r.1 == 2 then 64 else 512)
    requires limit <= 3
  {
    if limit >= 1 && |s| >= 1 && IsOctal(s[0]) then
      if limit >= 2 && |s| >= 2 && IsOctal(s[1]) then
        if limit >= 3 && |s| >= 3 && IsOctal(s[2]) then
          (DigitValue(s[0]) * 64 + DigitValue(s[1]) * 8 + DigitValue(s[2]), 3)
        else (DigitValue(s[0]) * 8 + DigitValue(s[1]), 2)
      else (DigitValue(s[0]), 1)
    else (0, 0)
  }

  /** Exactly `n` hex digits. */
  function HexEscape(s: string, n: nat): Option<nat> {
    if n == 0 then Some(0)
    else if |s| < n || !IsHex(s[n - 1]) then None
    else match HexEscape(s[..n - 1], n - 1)
      case None => None
      case Some(high) => Some(high * 16 + HexValue(s[n - 1]))
  }

  /** One step of Python's `unicode_escape` decoder: the code points it appends, and the characters it
      reads; nothing on an error. Named characters are not part of this model and count as errors. */
  function DecodeOne(s: string): (r: Option<(seq<nat>, nat)>)
    requires s != ""
    ensures r.Some? ==> 1 <= r.value.1 <= |s|
  {
    if s[0] != '\\' then Some(([s[0] as nat], 1))
    else if |s| == 1 then None
    else if s[1] == '\n' then Some(([], 2))
    else if SimpleEscape(s[1]).Some? then Some(([SimpleEscape(s[1]).value], 2))
    else if IsOctal(s[1]) then
      var read := OctalEscape(s[1..], 3);
      Some(([read.0], 1 + read.1))
    else if s[1] == 'x' || s[1] == 'u' || s[1] == 'U' then
      var n := if s[1] == 'x' then 2 else if s[1] == 'u' then 4 else 8;
      if |s| < 2 + n then None
      else match HexEscape(s[2..2 + n], n)
        case None => None
        case Some(cp) => if cp <= 0x10_FFFF then Some(([cp], 2 + n)) else None
    else if s[1] == 'N' then None
    else Some(([92, s[1] as nat], 2))
  }

  function DecodeEscapes(s: string): Option<seq<nat>>
    decreases |s|
  {
    if s == "" then Some([])
    else match DecodeOne(s)
      case None => None
      case Some(one) =>
        match DecodeEscapes(s[one.1..])
        case None => None
        case Some(rest) => Some(one.0 + rest)
  }

  function HexDigit(d: nat): byte
    requires d < 16
  {
    if d < 10 then 48 + d else 87 + d
  }

  function HexDigits(n: nat, width: nat): seq<byte> {
    if width == 0 then [] else HexDigits(n / 16, width - 1) + [HexDigit(n % 16)]
  }

  /** Python's `raw_unicode_escape` encoder. */
  function EncodeRaw(cps: seq<nat>): seq<byte> {
    if cps == [] then []
    else
      (if cps[0] < 256 then [cps[0]]
       else if cps[0] < 0x1_0000 then [92, 117] + HexDigits(cps[0], 4)
       else [92, 85] + HexDigits(cps[0], 8))
      + EncodeRaw(cps[1..])
  }

  function CUnescape(text: string): Option<seq<byte>> {
    match HighBits(FixHex(text))
    case None => None
    case Some(ascii) =>
      match DecodeEscapes(ascii)
      case None => None
      case Some(cps) => Some(EncodeRaw(cps))
  }

  // ----- the hex fix-up never fires on escaped text -----

  /** Escapes come in pairs of a backslash and a character that is neither `x` nor a line end. */
  predicate Paired(s: string) {
    s == "" || (if s[0] == '\\' then |s| > 1 && s[1] != 'x' && s[1] != '\n' && Paired(s[2..]) else Paired(s[1..]))
  }

  lemma {:induction false} PairedConcat(s: string, t: string)
    requires Paired(s) && Paired(t)
    ensures Paired(s + t)
    decreases |s|
  {
    if s == "" {
      assert s + t == t;
    } else if s[0] == '\\' {
      assert (s + t)[2..] == s[2..] + t;
      PairedConcat(s[2..], t);
    } else {
      assert (s + t)[1..] == s[1..] + t;
      PairedConcat(s[1..], t);
    }
  }

  lemma EscapeBytePaired(b: byte, asUtf8: bool)
    ensures Paired(EscapeByte(b, asUtf8))
  {
    var s := EscapeByte(b, asUtf8);
    if |s| == 4 {
      assert s[2..] == [Digit(b / 8 % 8), Digit(b % 8)] && s[2..][1..] == [Digit(b % 8)];
      assert Paired([Digit(b % 8)]);
    } else if |s| == 2 {
      assert s[2..] == "";
    } else {
      assert s[1..] == "";
    }
  }

  lemma {:induction false} EscapedPaired(text: seq<byte>, asUtf8: bool)
    ensures Paired(CEscape(text, asUtf8))
  {
    hide EscapeByte, Paired;
    if text == [] {
      assert Paired("") by { NothingPaired(); }
    } else {
      EscapeBytePaired(text[0], asUtf8);
      EscapedPaired(text[1..], asUtf8);
      PairedConcat(EscapeByte(text[0], asUtf8), CEscape(text[1..], asUtf8));
    }
  }

  lemma NothingPaired()
    ensures Paired("")
  {
  }

  /** Each run of backslashes in front of an `x` has even length. */
  lemma {:induction false} EvenBeforeX(s: string)
    requires Paired(s)
    ensures Slashes(s) % 2 == 1 ==> Slashes(s) < |s| && s[Slashes(s)] != 'x'
    ensures Paired(s[Slashes(s)..])
    ensures Slashes(s) % 2 == 0 && OneHexDigit(s[Slashes(s)..]) ==> Paired(s[Slashes(s) + 2..])
    decreases |s|
  {
    var k := Slashes(s);
    if s == "" || s[0] != '\\' {
      assert s[0..] == s;
      if OneHexDigit(s) {
        assert s[1] != '\\' && s[1..][1..] == s[2..];
      }
    } else if s[1] == '\\' {
      var t := s[2..];
      EvenBeforeX(t);
      assert Slashes(s[1..]) == 1 + Slashes(s[1..][1..]) && s[1..][1..] == t;
      assert k == 2 + Slashes(t) && s[k..] == t[Slashes(t)..];
      if OneHexDigit(s[k..]) {
        assert s[k + 2..] == t[Slashes(t) + 2..];
      }
    } else {
      assert Slashes(s[1..]) == 0;
      assert s[1..][1..] == s[2..];
    }
  }

  lemma {:induction false} FixHexIdle(s: string)
    requires Paired(s)
    ensures FixHex(s) == s
    decreases |s|
  {
    hide OneHexDigit, Paired, FixHex, Slashes;
    FixHexStep(s);
    PairedStep(s);
    if s != "" {
      if s[0] != '\\' {
        FixHexIdle(s[1..]);
      } else {
        var k := Slashes(s);
        EvenBeforeX(s);
        NotHexDigit(s[k..]);
        if OneHexDigit(s[k..]) {
          FixHexIdle(s[k + 2..]);
        } else {
          FixHexIdle(s[k..]);
        }
      }
    }
  }

  /** One turn of the fix-up, when the run of backslashes in front of an `x` is even in length. */
  lemma FixHexStep(s: string)
    ensures s == "" ==> FixHex(s) == ""
    ensures s != "" && s[0] != '\\' ==> FixHex(s) == [s[0]] + FixHex(s[1..])
    ensures s != "" && s[0] == '\\' ==> Slashes(s) > 0
    ensures s != "" && s[0] == '\\' && !OneHexDigit(s[Slashes(s)..]) ==> FixHex(s) == s[..Slashes(s)] + FixHex(s[Slashes(s)..])
    ensures s != "" && s[0] == '\\' && OneHexDigit(s[Slashes(s)..]) && Slashes(s) % 2 == 0 ==>
              Slashes(s) + 2 <= |s| && FixHex(s) == s[..Slashes(s) + 2] + FixHex(s[Slashes(s) + 2..])
  {
    hide Paired;
  }

  lemma PairedStep(s: string)
    requires Paired(s)
    ensures s != "" && s[0] != '\\' ==> Paired(s[1..])
  {
  }

  lemma NotHexDigit(s: string)
    ensures OneHexDigit(s) ==> |s| > 1 && s[0] == 'x'
  {
  }

  // ----- the round trip -----

  /** The text of a byte behind the table of high bits. */
  function Ascii(b: byte, asUtf8: bool): string {
    if asUtf8 && b >= 127 then Octal(b) else EscapeByte(b, asUtf8)
  }

  function AsciiText(text: seq<byte>, asUtf8: bool): string {
    if text == [] then "" else Ascii(text[0], asUtf8) + AsciiText(text[1..], asUtf8)
  }

  lemma {:induction false} HighBitsConcat(s: string, t: string)
    ensures HighBits(s).Some? && HighBits(t).Some? ==> HighBits(s + t) == Some(HighBits(s).value + HighBits(t).value)
  {
    if s == "" {
      assert s + t == t;
      if HighBits(t).Some? {
        assert "" + HighBits(t).value == HighBits(t).value;
      }
    } else {
      assert (s + t)[1..] == s[1..] + t;
      HighBitsConcat(s[1..], t);
      if HighBits(s).Some? && HighBits(t).Some? {
        var one := if s[0] as int < 127 then [s[0]] else Octal(s[0] as int);
        assert one + HighBits(s[1..]).value + HighBits(t).value == one + (HighBits(s[1..]).value + HighBits(t).value);
      }
    }
  }

  lemma HighBitsOfByte(b: byte, asUtf8: bool)
    ensures HighBits(EscapeByte(b, asUtf8)) == Some(Ascii(b, asUtf8))
  {
    var s := EscapeByte(b, asUtf8);
    if |s| == 1 {
      OneHighBit(s[0]);
    } else {
      LowText(s);
    }
  }

  lemma OneHighBit(c: char)
    requires c as int < 256
    ensures HighBits([c]) == Some(if c as int < 127 then [c] else Octal(c as int))
  {
    assert [c][1..] == "";
    assert HighBits("") == Some("");
    var one := if c as int < 127 then [c] else Octal(c as int);
    assert one + "" == one;
  }

  lemma {:induction false} LowText(s: string)
    requires forall i :: 0 <= i < |s| ==> s[i] as int < 127
    ensures HighBits(s) == Some(s)
  {
    if s != "" {
      LowText(s[1..]);
      assert s == [s[0]] + s[1..];
    }
  }

  lemma {:induction false} HighBitsOfText(text: seq<byte>, asUtf8: bool)
    ensures HighBits(CEscape(text, asUtf8)) == Some(AsciiText(text, asUtf8))
  {
    hide EscapeByte, Ascii;
    if text != [] {
      HighBitsOfByte(text[0], asUtf8);
      HighBitsOfText(text[1..], asUtf8);
      HighBitsConcat(EscapeByte(text[0], asUtf8), CEscape(text[1..], asUtf8));
    }
  }

  lemma OctalDigits(b: byte)
    ensures IsOctal(Digit(b / 64)) && IsOctal(Digit(b / 8 % 8)) && IsOctal(Digit(b % 8))
    ensures DigitValue(Digit(b / 64)) * 64 + DigitValue(Digit(b / 8 % 8)) * 8 + DigitValue(Digit(b % 8)) == b
    ensures SimpleEscape(Digit(b / 64)) == None && Digit(b / 64) != '\n'
  {
    hide Digit, DigitValue, IsDigit, IsOctal, SimpleEscape;
    OctalDigit(b / 64);
    OctalDigit(b / 8 % 8);
    OctalDigit(b % 8);
  }

  lemma OctalDigit(d: nat)
    requires d < 8
    ensures IsDigit(Digit(d)) && IsOctal(Digit(d)) && DigitValue(Digit(d)) == d
    ensures SimpleEscape(Digit(d)) == None && Digit(d) != '\n'
  {
  }

  /** Whatever follows the text of a byte, the decoder reads the byte and stops behind its text. */
  lemma DecodeByte(b: byte, asUtf8: bool, rest: string)
    ensures DecodeOne(Ascii(b, asUtf8) + rest) == Some(([b as int], |Ascii(b, asUtf8)|))
  {
    var s := Ascii(b, asUtf8);
    if |s| == 4 {
      OctalDigits(b);
      assert (s + rest)[1..][0] == s[1] && (s + rest)[1..][1] == s[2] && (s + rest)[1..][2] == s[3];
    }
  }

  lemma {:induction false} DecodeText(text: seq<byte>, asUtf8: bool)
    ensures DecodeEscapes(AsciiText(text, asUtf8)).Some?
    ensures EncodeRaw(DecodeEscapes(AsciiText(text, asUtf8)).value) == text
  {
    hide Ascii, DecodeOne;
    if text != [] {
      var s, rest := Ascii(text[0], asUtf8), AsciiText(text[1..], asUtf8);
      DecodeText(text[1..], asUtf8);
      DecodeByte(text[0], asUtf8, rest);
      AsciiNotEmpty(text[0], asUtf8);
      assert (s + rest)[|s|..] == rest;
      var cps := DecodeEscapes(rest).value;
      assert ([text[0] as int] + cps)[1..] == cps;
      assert text == [text[0]] + text[1..];
    }
  }

  lemma AsciiNotEmpty(b: byte, asUtf8: bool)
    ensures Ascii(b, asUtf8) != ""
  {
  }

  /** `CUnescape` undoes `CEscape` for every byte string, in both modes. */
  lemma UnescapeEscape(text: seq<byte>, asUtf8: bool)
    ensures CUnescape(CEscape(text, asUtf8)) == Some(text)
  {
    hide CEscape, FixHex, HighBits, DecodeEscapes, EncodeRaw, Paired;
    EscapedPaired(text, asUtf8);
    FixHexIdle(CEscape(text, asUtf8));
    HighBitsOfText(text, asUtf8);
    DecodeText(text, asUtf8);
  }
}
