/** What an escaped text denotes, escape by escape, and that `CUnescape` reads it so. */
module Escapes {
  import opened Js
  import opened Decimal
  import opened Arith
  import opened TextEscape

  /** A character, or one of the escapes of C. */
  datatype Unit = Plain(c: char) | Simple(c: char) | Oct(ds: string) | Hex(ds: string) | Wide(ds: string) | Other(c: char) | Broken

  function Shown(u: Unit): string {
    match u
    case Plain(c) => [c]
    case Simple(c) => ['\\', c]
    case Oct(ds) => "\\" + ds
    case Hex(ds) => "\\x" + ds
    case Wide(ds) => (if |ds| == 4 then "\\u" else "\\U") + ds
    case Other(c) => ['\\', c]
    case Broken => "\\\n"
  }

  predicate InBaseDigits(ds: string, radix: nat) {
    forall i :: 0 <= i < |ds| ==> DigitOf(ds[i]) < radix
  }

  /** 16 for anything but a hexadecimal digit. */
  function DigitOf(c: char): nat {
    if '0' <= c <= '9' then c as int - 48
    else if 'a' <= c <= 'f' then c as int - 87
    else if 'A' <= c <= 'F' then c as int - 55
    else 16
  }

  function Denoted(ds: string, radix: nat): nat {
    if ds == "" then 0 else Denoted(ds[..|ds| - 1], radix) * radix + DigitOf(ds[|ds| - 1])
  }

  /** Octal escapes have up to three digits, hexadecimal ones one or two. */
  predicate UnitOk(u: Unit) {
    match u
    case Plain(c) => c != '\\' && c as int < 256
    case Simple(c) => c in "\\'\"abtnvfr"
    case Oct(ds) => 1 <= |ds| <= 3 && InBaseDigits(ds, 8)
    case Hex(ds) => 1 <= |ds| <= 2 && InBaseDigits(ds, 16)
    case Wide(ds) => (|ds| == 4 || |ds| == 8) && InBaseDigits(ds, 16) && Denoted(ds, 16) <= 0x10_FFFF
    case Other(c) => c as int < 127 && c !in "\\'\"abtnvfr01234567xuUN\n"
    case Broken => true
  }

  /** No digit follows that the escape would take in. */
  predicate EndsBefore(u: Unit, next: Unit) {
    match u
    case Oct(ds) => |ds| < 3 && next.Plain? ==> DigitOf(next.c) >= 8
    case Hex(ds) => |ds| < 2 && next.Plain? ==> DigitOf(next.c) >= 16
    case _ => true
  }

  predicate UnitsOk(us: seq<Unit>) {
    us == [] || (UnitOk(us[0]) && (|us| > 1 ==> EndsBefore(us[0], us[1])) && UnitsOk(us[1..]))
  }

  /** A code point from 256 on comes out as an escape again, in lower-case digits. */
  function CodeBytes(n: nat): seq<byte> {
    if n < 256 then [n]
    else if n < 0x1_0000 then [0x5C, 0x75] + LowerHex(n, 4)
    else [0x5C, 0x55] + LowerHex(n, 8)
  }

  function LowerHex(n: nat, width: nat): seq<byte> {
    if width == 0 then [] else LowerHex(n / 16, width - 1) + ["0123456789abcdef"[n % 16] as int]
  }

  function UnitBytes(u: Unit): seq<byte>
    requires UnitOk(u)
  {
    match u
    case Plain(c) => [c as int]
    case Simple(c) =>
      [match c case '\\' => 92 case '\'' => 39 case '"' => 34 case 'a' => 7 case 'b' => 8
       case 't' => 9 case 'n' => 10 case 'v' => 11 case 'f' => 12 case _ => 13]
    case Oct(ds) => CodeBytes(Denoted(ds, 8))
    case Hex(ds) => CodeBytes(Denoted(ds, 16))
    case Wide(ds) => CodeBytes(Denoted(ds, 16))
    case Other(c) => [0x5C, c as int]
    case Broken => []
  }

  function ShownAll(us: seq<Unit>): string {
    if us == [] then "" else Shown(us[0]) + ShownAll(us[1..])
  }

  function BytesOf(us: seq<Unit>): seq<byte>
    requires UnitsOk(us)
  {
    if us == [] then [] else UnitBytes(us[0]) + BytesOf(us[1..])
  }

  // ----- single hex digits are padded -----

  function Padded(u: Unit): Unit {
    if u.Hex? && |u.ds| == 1 then Hex("0" + u.ds) else u
  }

  function PaddedAll(us: seq<Unit>): seq<Unit> {
    if us == [] then [] else [Padded(us[0])] + PaddedAll(us[1..])
  }

  lemma HexAgrees(c: char)
    ensures IsHex(c) <==> DigitOf(c) < 16
    ensures IsHex(c) ==> HexValue(c) == DigitOf(c)
    ensures IsOctal(c) <==> DigitOf(c) < 8
    ensures IsOctal(c) ==> IsDigit(c) && DigitValue(c) == DigitOf(c)
  {
  }

  /** What the fix-up makes of a run of `k` backslashes and what is behind it. */
  lemma FixRun(s: string, k: nat)
    requires s != "" && s[0] == '\\' && Slashes(s) == k
    ensures FixHex(s) == if OneHexDigit(s[k..])
                         then (if k % 2 == 1 then s[..k] + "x0" + [s[k + 1]] else s[..k + 2]) + FixHex(s[k + 2..])
                         else s[..k] + FixHex(s[k..])
  {
    hide OneHexDigit;
  }

  lemma FixPlain(c: char, t: string)
    requires c != '\\'
    ensures FixHex([c] + t) == [c] + FixHex(t)
  {
    assert ([c] + t)[1..] == t;
  }

  lemma SlashesMore(t: string)
    ensures Slashes("\\" + t) == 1 + Slashes(t)
  {
    assert ("\\" + t)[1..] == t;
  }

  /** Without a run, the fix-up leaves an `x` and its digit alone. */
  lemma FixNoRun(t: string)
    requires OneHexDigit(t)
    ensures FixHex(t) == t[..2] + FixHex(t[2..])
  {
    hide FixHex;
    assert t == [t[0]] + ([t[1]] + t[2..]);
    FixPlain(t[0], [t[1]] + t[2..]);
    FixPlain(t[1], t[2..]);
  }

  lemma Behind(p: string, t: string, k: nat)
    requires k <= |t|
    ensures (p + t)[|p| + k..] == t[k..] && (p + t)[..|p| + k] == p + t[..k]
    ensures k < |t| ==> (p + t)[|p| + k] == t[k]
  {
  }

  lemma TwoMore(t: string)
    ensures Slashes("\\\\" + t) == 2 + Slashes(t)
  {
    hide Slashes;
    SlashesMore(t);
    SlashesMore("\\" + t);
    assert "\\\\" + t == "\\" + ("\\" + t);
  }

  /** The run apart from what is behind it. */
  lemma FixRunApart(run: string, tail: string)
    requires run != "" && run[0] == '\\' && Slashes(run + tail) == |run|
    ensures FixHex(run + tail)
            == if OneHexDigit(tail) then run + ((if |run| % 2 == 1 then "x0" + [tail[1]] else tail[..2]) + FixHex(tail[2..]))
               else run + FixHex(tail)
  {
    hide FixHex, OneHexDigit, Slashes;
    FixRun(run + tail, |run|);
    Behind(run, tail, 0);
    assert tail[0..] == tail && tail[..0] == "" && run + "" == run;
    if OneHexDigit(tail) {
      TwoLong(tail);
      Behind(run, tail, 1);
      Behind(run, tail, 2);
      if |run| % 2 == 1 {
        assert run + "x0" + [tail[1]] + FixHex(tail[2..]) == run + ("x0" + [tail[1]] + FixHex(tail[2..]));
      } else {
        assert run + tail[..2] + FixHex(tail[2..]) == run + (tail[..2] + FixHex(tail[2..]));
      }
    }
  }

  lemma Grouped(a: string, b: string, c: string)
    ensures a + b + c == a + (b + c)
  {
  }

  /** A run of backslashes with two more in front. */
  lemma FixTwoRun(t: string)
    requires t != "" && t[0] == '\\'
    ensures FixHex("\\\\" + t) == "\\\\" + FixHex(t)
  {
    hide FixHex, OneHexDigit, Slashes;
    var p, k := "\\\\", Slashes(t);
    var run, tail := t[..k], t[k..];
    assert t == run + tail;
    TwoMore(t);
    assert k > 0 by { SomeSlashes(t); }
    Grouped(p, run, tail);
    FixRunApart(run, tail);
    FixRunApart(p + run, tail);
    if OneHexDigit(tail) {
      TwoLong(tail);
      Grouped(p, run, (if k % 2 == 1 then "x0" + [tail[1]] else tail[..2]) + FixHex(tail[2..]));
    } else {
      Grouped(p, run, FixHex(tail));
    }
  }

  lemma SomeSlashes(t: string)
    requires t != "" && t[0] == '\\'
    ensures Slashes(t) > 0
  {
  }

  lemma FixTwoAlone(t: string)
    requires t == "" || t[0] != '\\'
    ensures FixHex("\\\\" + t) == "\\\\" + FixHex(t)
  {
    hide FixHex, OneHexDigit, Slashes;
    var p := "\\\\";
    TwoMore(t);
    NoSlashes(t);
    Behind(p, t, 0);
    FixRun(p + t, 2);
    assert t[0..] == t && t[..0] == "";
    if OneHexDigit(t) {
      TwoLong(t);
      Behind(p, t, 2);
      FixNoRun(t);
    }
  }

  /** An escaped backslash does not change how the rest is fixed. */
  lemma FixTwoSlashes(t: string)
    ensures FixHex("\\\\" + t) == "\\\\" + FixHex(t)
  {
    if t != "" && t[0] == '\\' {
      FixTwoRun(t);
    } else {
      FixTwoAlone(t);
    }
  }

  lemma TwoLong(t: string)
    requires OneHexDigit(t)
    ensures |t| >= 2
  {
  }

  lemma NoSlashes(t: string)
    requires t == "" || t[0] != '\\'
    ensures Slashes(t) == 0
  {
  }

  /** A single digit is padded, */
  lemma FixSingle(t: string)
    requires t != "" && IsHex(t[0]) && (|t| == 1 || !IsHex(t[1]))
    ensures FixHex("\\x" + t) == "\\x0" + [t[0]] + FixHex(t[1..])
  {
    hide FixHex, IsHex, OneHexDigit, Slashes;
    var s := "\\x" + t;
    assert s == "\\" + (['x'] + t) && s[1..] == ['x'] + t;
    SlashesMore(['x'] + t);
    NoSlashes(['x'] + t);
    OneHexDigitIs('x', t);
    FixRun(s, 1);
    assert s[3..] == t[1..] && s[..1] + "x0" + [s[2]] == "\\x0" + [t[0]];
  }

  /** and nothing else is changed. */
  lemma FixOther(c: char, t: string)
    requires c != '\\' && !OneHexDigit([c] + t)
    ensures FixHex("\\" + [c] + t) == "\\" + [c] + FixHex(t)
  {
    hide FixHex, OneHexDigit, Slashes;
    var s := "\\" + [c] + t;
    assert s == "\\" + ([c] + t) && s[1..] == [c] + t && s[..1] == "\\";
    SlashesMore([c] + t);
    NoSlashes([c] + t);
    FixRun(s, 1);
    FixPlain(c, t);
    assert "\\" + ([c] + FixHex(t)) == "\\" + [c] + FixHex(t);
  }

  lemma OneHexDigitIs(c: char, t: string)
    ensures OneHexDigit([c] + t) <==> c == 'x' && t != "" && IsHex(t[0]) && (|t| == 1 || !IsHex(t[1]))
  {
    hide IsHex;
  }

  /** Characters without a backslash. */
  lemma {:induction false} FixPlains(s: string, t: string)
    requires forall i :: 0 <= i < |s| ==> s[i] != '\\'
    ensures FixHex(s + t) == s + FixHex(t)
  {
    hide FixHex;
    if s == "" {
      assert s + t == t;
    } else {
      assert s + t == [s[0]] + (s[1..] + t);
      FixPlain(s[0], s[1..] + t);
      FixPlains(s[1..], t);
      assert s + FixHex(t) == [s[0]] + (s[1..] + FixHex(t));
    }
  }

  /** What comes behind an escape does not continue it. */
  predicate Apart(u: Unit, rest: string) {
    match u
    case Oct(ds) => |ds| < 3 && rest != "" ==> DigitOf(rest[0]) >= 8
    case Hex(ds) => |ds| < 2 && rest != "" ==> DigitOf(rest[0]) >= 16
    case _ => true
  }

  lemma ApartBehind(us: seq<Unit>)
    requires UnitsOk(us) && us != []
    ensures Apart(us[0], ShownAll(us[1..]))
  {
    if |us| > 1 {
      assert UnitsOk(us[1..]) && us[1..][0] == us[1];
      assert ShownAll(us[1..])[0] == Shown(us[1])[0];
    }
  }

  lemma FixUnit(u: Unit, rest: string)
    requires UnitOk(u) && Apart(u, rest)
    ensures FixHex(Shown(u) + rest) == Shown(Padded(u)) + FixHex(rest)
  {
    hide FixHex, Denoted;
    match u
    case Plain(c) => FixPlain(c, rest);
    case Simple(c) =>
      if c == '\\' {
        FixTwoSlashes(rest);
      } else {
        FixOther(c, rest);
        assert Shown(u) == "\\" + [c];
      }
    case Other(c) =>
      FixOther(c, rest);
      assert Shown(u) == "\\" + [c];
    case Broken =>
      FixOther('\n', rest);
      assert Shown(u) == "\\" + ['\n'];
    case Oct(ds) => FixOct(ds, rest);
    case Wide(ds) =>
      var c := if |ds| == 4 then 'u' else 'U';
      FixDigits(c, ds, rest);
      assert Shown(u) == "\\" + [c] + ds;
    case Hex(ds) => FixHexUnit(ds, rest);
  }

  lemma FixOct(ds: string, rest: string)
    requires ds != "" && InBaseDigits(ds, 8)
    ensures FixHex("\\" + ds + rest) == "\\" + ds + FixHex(rest)
  {
    hide FixHex;
    FixDigits(ds[0], ds[1..], rest);
    assert ds == [ds[0]] + ds[1..];
    assert "\\" + ds == "\\" + [ds[0]] + ds[1..];
  }

  lemma FixDigits(c: char, ds: string, rest: string)
    requires c != 'x' && c != '\\' && InBaseDigits(ds, 16)
    ensures FixHex("\\" + [c] + ds + rest) == "\\" + [c] + ds + FixHex(rest)
  {
    hide FixHex;
    assert "\\" + [c] + ds + rest == "\\" + [c] + (ds + rest);
    FixOther(c, ds + rest);
    FixPlains(ds, rest);
  }

  lemma FixHexUnit(ds: string, rest: string)
    requires UnitOk(Hex(ds)) && Apart(Hex(ds), rest)
    ensures FixHex("\\x" + ds + rest) == (if |ds| == 1 then "\\x0" else "\\x") + ds + FixHex(rest)
  {
    hide FixHex;
    assert "\\x" + ds + rest == "\\x" + (ds + rest) == "\\" + ['x'] + (ds + rest);
    HexAgrees(ds[0]);
    if |ds| == 1 {
      assert (ds + rest)[1..] == rest && [(ds + rest)[0]] == ds;
      if rest != "" {
        HexAgrees(rest[0]);
      }
      FixSingle(ds + rest);
    } else {
      HexAgrees(ds[1]);
      FixOther('x', ds + rest);
      FixPlains(ds, rest);
      assert "\\" + ['x'] + (ds + FixHex(rest)) == "\\x" + ds + FixHex(rest);
    }
  }

  lemma {:induction false} FixUnits(us: seq<Unit>)
    requires UnitsOk(us)
    ensures FixHex(ShownAll(us)) == ShownAll(PaddedAll(us))
  {
    hide FixHex, UnitOk, Shown, Padded;
    if us == [] {
      FixNothing();
    } else {
      ApartBehind(us);
      FixUnit(us[0], ShownAll(us[1..]));
      FixUnits(us[1..]);
      var padded := PaddedAll(us);
      assert padded[1..] == PaddedAll(us[1..]);
    }
  }

  lemma FixNothing()
    ensures FixHex("") == ""
  {
  }

  // ----- the table of high characters -----

  /** The unit behind the table. */
  function InAscii(u: Unit): string
    requires UnitOk(u)
  {
    if u.Plain? && u.c as int >= 127 then Octal(u.c as int) else Shown(Padded(u))
  }

  function AsciiAll(us: seq<Unit>): string
    requires UnitsOk(us)
  {
    if us == [] then "" else InAscii(us[0]) + AsciiAll(us[1..])
  }

  lemma HighUnit(u: Unit)
    requires UnitOk(u)
    ensures HighBits(Shown(Padded(u))) == Some(InAscii(u))
  {
    hide HighBits, Denoted;
    if u.Plain? {
      OneHighBit(u.c);
    } else {
      LowText(Shown(Padded(u)));
    }
  }

  lemma {:induction false} HighUnits(us: seq<Unit>)
    requires UnitsOk(us)
    ensures HighBits(ShownAll(PaddedAll(us))) == Some(AsciiAll(us))
  {
    hide UnitOk, Shown, InAscii, Padded;
    if us != [] {
      HighUnit(us[0]);
      HighUnits(us[1..]);
      assert PaddedAll(us)[1..] == PaddedAll(us[1..]);
      HighBitsConcat(Shown(Padded(us[0])), ShownAll(PaddedAll(us[1..])));
    }
  }

  // ----- decoding -----

  /** The code points of a unit. */
  function CodePoints(u: Unit): seq<nat>
    requires UnitOk(u)
  {
    match u
    case Oct(ds) => [Denoted(ds, 8)]
    case Hex(ds) => [Denoted(ds, 16)]
    case Wide(ds) => [Denoted(ds, 16)]
    case _ => UnitBytes(u)
  }

  lemma {:induction false} HexDenoted(ds: string, rest: string)
    requires InBaseDigits(ds, 16)
    ensures HexEscape(ds + rest, |ds|) == Some(Denoted(ds, 16))
  {
    if ds != "" {
      var k := |ds| - 1;
      HexDenoted(ds[..k], []);
      assert ds[..k] + [] == ds[..k] == (ds + rest)[..k];
      HexAgrees(ds[k]);
      assert (ds + rest)[k] == ds[k];
    }
  }

  lemma OctalDenoted(ds: string, rest: string)
    requires UnitOk(Oct(ds)) && Apart(Oct(ds), rest)
    ensures OctalEscape(ds + rest, 3) == (Denoted(ds, 8), |ds|)
  {
    hide IsOctal, DigitOf, Denoted, OctalEscape;
    DenotedDigits(ds);
    HexAgrees(ds[0]);
    if rest != "" {
      HexAgrees(rest[0]);
    }
    if |ds| == 1 {
      OctalOne(ds + rest);
    } else {
      HexAgrees(ds[1]);
      if |ds| == 2 {
        OctalTwo(ds + rest);
      } else {
        HexAgrees(ds[2]);
        OctalThree(ds + rest);
      }
    }
  }

  /** An escape takes the octal digits there are, up to three. */
  lemma OctalOne(s: string)
    requires s != "" && IsOctal(s[0]) && (|s| > 1 ==> !IsOctal(s[1]))
    ensures OctalEscape(s, 3) == (DigitValue(s[0]), 1)
  {
  }

  lemma OctalTwo(s: string)
    requires |s| > 1 && IsOctal(s[0]) && IsOctal(s[1]) && (|s| > 2 ==> !IsOctal(s[2]))
    ensures OctalEscape(s, 3) == (DigitValue(s[0]) * 8 + DigitValue(s[1]), 2)
  {
  }

  lemma OctalThree(s: string)
    requires |s| > 2 && IsOctal(s[0]) && IsOctal(s[1]) && IsOctal(s[2])
    ensures OctalEscape(s, 3) == (DigitValue(s[0]) * 64 + DigitValue(s[1]) * 8 + DigitValue(s[2]), 3)
  {
  }

  lemma DenotedDigits(ds: string)
    requires 1 <= |ds| <= 3
    ensures Denoted(ds, 8) == if |ds| == 1 then DigitOf(ds[0])
                              else if |ds| == 2 then DigitOf(ds[0]) * 8 + DigitOf(ds[1])
                              else DigitOf(ds[0]) * 64 + DigitOf(ds[1]) * 8 + DigitOf(ds[2])
  {
    assert Denoted(ds[..0], 8) == 0;
    if |ds| == 2 {
      assert ds[..1][..0] == ds[..0];
    } else if |ds| == 3 {
      assert ds[..2][..1] == ds[..1] && ds[..1][..0] == ds[..0];
    }
  }

  lemma DecodeUnit(u: Unit, rest: string)
    requires UnitOk(u) && Apart(u, rest)
    ensures DecodeOne(InAscii(u) + rest) == Some((CodePoints(u), |InAscii(u)|))
  {
    hide DecodeOne, InAscii;
    match u
    case Oct(ds) => DecodeOct(ds, rest);
    case Hex(ds) => DecodeHex(ds, rest);
    case Wide(ds) => DecodeWide(ds, rest);
    case _ => DecodeCharacter(u, rest);
  }

  lemma DecodeCharacter(u: Unit, rest: string)
    requires UnitOk(u) && !u.Oct? && !u.Hex? && !u.Wide?
    ensures DecodeOne(InAscii(u) + rest) == Some((CodePoints(u), |InAscii(u)|))
  {
    hide HexEscape, OctalEscape, Denoted;
    match u
    case Plain(c) =>
      if c as int >= 127 {
        DecodeByte(c as int, true, rest);
      }
    case Simple(c) =>
    case Other(c) => assert !IsOctal(c);
    case Broken =>
  }

  lemma DecodeOct(ds: string, rest: string)
    requires UnitOk(Oct(ds)) && Apart(Oct(ds), rest)
    ensures DecodeOne(InAscii(Oct(ds)) + rest) == Some(([Denoted(ds, 8)], 1 + |ds|)) && |InAscii(Oct(ds))| == 1 + |ds|
  {
    hide Denoted, DigitOf, HexEscape, OctalEscape;
    HexAgrees(ds[0]);
    assert (InAscii(Oct(ds)) + rest)[1..] == ds + rest;
    OctalDenoted(ds, rest);
    OctalNotSimple(ds[0]);
  }

  lemma OctalNotSimple(c: char)
    requires IsOctal(c)
    ensures SimpleEscape(c) == None && c != '\n'
  {
  }

  lemma DecodeHex(ds: string, rest: string)
    requires UnitOk(Hex(ds))
    ensures DecodeOne(InAscii(Hex(ds)) + rest) == Some(([Denoted(ds, 16)], 4)) && |InAscii(Hex(ds))| == 4
  {
    hide Denoted, DigitOf, HexEscape, OctalEscape;
    var s := InAscii(Hex(ds)) + rest;
    var two := if |ds| == 1 then "0" + ds else ds;
    assert s == "\\x" + two + rest && s[2..4] == two + [];
    ZeroDigit(ds);
    HexDenoted(two, []);
    SmallDenoted(two);
  }

  lemma DecodeWide(ds: string, rest: string)
    requires UnitOk(Wide(ds))
    ensures DecodeOne(InAscii(Wide(ds)) + rest) == Some(([Denoted(ds, 16)], 2 + |ds|)) && |InAscii(Wide(ds))| == 2 + |ds|
  {
    hide Denoted, DigitOf, HexEscape, OctalEscape;
    var s := InAscii(Wide(ds)) + rest;
    assert s[2..2 + |ds|] == ds + [];
    HexDenoted(ds, []);
  }

  lemma ZeroDigit(ds: string)
    ensures DigitOf('0') == 0
    ensures |ds| == 1 ==> Denoted("0" + ds, 16) == Denoted(ds, 16)
  {
    if |ds| == 1 {
      assert ("0" + ds)[..1] == "0" && ds[..0] == "" == "0"[..0];
    }
  }

  lemma SmallDenoted(ds: string)
    requires |ds| == 2 && InBaseDigits(ds, 16)
    ensures Denoted(ds, 16) < 256
  {
    assert Denoted(ds, 16) == Denoted(ds[..1], 16) * 16 + DigitOf(ds[1]);
    assert ds[..1][..0] == "" && ds[..1][0] == ds[0];
    assert Denoted(ds[..1], 16) == Denoted("", 16) * 16 + DigitOf(ds[0]);
  }

  lemma {:induction false} EncodeRawConcat(a: seq<nat>, b: seq<nat>)
    ensures EncodeRaw(a + b) == EncodeRaw(a) + EncodeRaw(b)
  {
    hide HexDigits;
    if a == [] {
      assert a + b == b;
    } else {
      assert (a + b)[1..] == a[1..] + b;
      EncodeRawConcat(a[1..], b);
    }
  }

  lemma {:induction false} LowerHexIs(n: nat, width: nat)
    ensures HexDigits(n, width) == LowerHex(n, width)
    decreases width
  {
    if width > 0 {
      LowerHexIs(n / 16, width - 1);
    }
  }

  lemma RawOne(n: nat)
    ensures EncodeRaw([n]) == if n < 256 then [n] else if n < 0x1_0000 then [92, 117] + HexDigits(n, 4)
                              else [92, 85] + HexDigits(n, 8)
  {
    hide HexDigits;
    assert [n][1..] == [];
  }

  lemma EncodeUnit(u: Unit)
    requires UnitOk(u)
    ensures EncodeRaw(CodePoints(u)) == UnitBytes(u)
  {
    hide Denoted, HexDigits, LowerHex;
    var cps := CodePoints(u);
    if |cps| > 0 {
      LowerHexIs(cps[0], 4);
      LowerHexIs(cps[0], 8);
      RawOne(cps[0]);
      if u.Other? {
        RawOne(cps[1]);
        EncodeRawConcat([cps[0]], [cps[1]]);
        assert cps == [cps[0]] + [cps[1]];
      } else {
        assert cps == [cps[0]];
      }
    } else {
      assert cps == [];
    }
  }

  lemma {:induction false} DecodeUnits(us: seq<Unit>)
    requires UnitsOk(us)
    ensures DecodeEscapes(AsciiAll(us)).Some?
    ensures EncodeRaw(DecodeEscapes(AsciiAll(us)).value) == BytesOf(us)
  {
    hide UnitOk, InAscii, DecodeOne, EncodeRaw, CodePoints, UnitBytes, Apart;
    if us == [] {
      assert EncodeRaw([]) == [] by { NothingRaw(); }
    } else {
      var s, rest := InAscii(us[0]), AsciiAll(us[1..]);
      AsciiApart(us);
      DecodeUnit(us[0], rest);
      DecodeUnits(us[1..]);
      ShownNotEmpty(us[0]);
      assert (s + rest)[|s|..] == rest;
      EncodeRawConcat(CodePoints(us[0]), DecodeEscapes(rest).value);
      EncodeUnit(us[0]);
    }
  }

  lemma NothingRaw()
    ensures EncodeRaw([]) == []
  {
  }

  lemma ShownNotEmpty(u: Unit)
    requires UnitOk(u)
    ensures InAscii(u) != ""
  {
  }

  lemma AsciiApart(us: seq<Unit>)
    requires UnitsOk(us) && us != []
    ensures Apart(us[0], AsciiAll(us[1..]))
  {
    hide Denoted;
    if |us| > 1 {
      assert UnitsOk(us[1..]) && us[1..][0] == us[1];
      assert AsciiAll(us[1..])[0] == InAscii(us[1])[0];
    }
  }

  /** Every text made of characters and escapes is read as the bytes that these denote. */
  lemma UnescapeUnits(us: seq<Unit>)
    requires UnitsOk(us)
    ensures CUnescape(ShownAll(us)) == Some(BytesOf(us))
  {
    hide FixHex, HighBits, DecodeEscapes, EncodeRaw, ShownAll, AsciiAll, BytesOf, PaddedAll, UnitsOk;
    FixUnits(us);
    HighUnits(us);
    DecodeUnits(us);
  }

  // ----- what CEscape writes -----

  /** The unit that stands for a byte: six bytes have escapes of their own; other control bytes and all from
      127 on have three octal digits, unless the text is UTF-8. */
  function UnitOf(b: byte, asUtf8: bool): Unit {
    match b
    case 9 => Simple('t')
    case 10 => Simple('n')
    case 13 => Simple('r')
    case 34 => Simple('"')
    case 39 => Simple('\'')
    case 92 => Simple('\\')
    case _ =>
      if asUtf8 || 32 <= b <= 126 then Plain(b as char)
      else Oct([(48 + b / 64) as char, (48 + b / 8 % 8) as char, (48 + b % 8) as char])
  }

  function UnitsOf(text: seq<byte>, asUtf8: bool): seq<Unit> {
    if text == [] then [] else [UnitOf(text[0], asUtf8)] + UnitsOf(text[1..], asUtf8)
  }

  lemma UnitOfByte(b: byte, asUtf8: bool)
    ensures Shown(UnitOf(b, asUtf8)) == EscapeByte(b, asUtf8)
    ensures UnitOk(UnitOf(b, asUtf8)) && UnitBytes(UnitOf(b, asUtf8)) == [b]
    ensures UnitOf(b, asUtf8).Oct? ==> |UnitOf(b, asUtf8).ds| == 3
    ensures !UnitOf(b, asUtf8).Hex?
  {
    hide Denoted, Octal;
    if UnitOf(b, asUtf8).Oct? {
      OctalUnit(b);
    }
  }

  lemma DigitIs(d: nat)
    requires d < 10
    ensures Digit(d) == (48 + d) as char && DigitOf(Digit(d)) == d
  {
  }

  lemma OctalUnit(b: byte)
    ensures var ds := [(48 + b / 64) as char, (48 + b / 8 % 8) as char, (48 + b % 8) as char];
            Octal(b) == "\\" + ds && InBaseDigits(ds, 8) && Denoted(ds, 8) == b
  {
    hide Digit, DigitOf, Denoted;
    DigitIs(b / 64);
    DigitIs(b / 8 % 8);
    DigitIs(b % 8);
    DenotedDigits([(48 + b / 64) as char, (48 + b / 8 % 8) as char, (48 + b % 8) as char]);
  }

  /** The text of any bytes is their units one after another, every one denoting its byte. */
  lemma {:induction false} EscapedUnits(text: seq<byte>, asUtf8: bool)
    ensures CEscape(text, asUtf8) == ShownAll(UnitsOf(text, asUtf8))
    ensures UnitsOk(UnitsOf(text, asUtf8)) && BytesOf(UnitsOf(text, asUtf8)) == text
  {
    hide EscapeByte, UnitOf, Shown, UnitOk, UnitBytes;
    if text != [] {
      UnitOfByte(text[0], asUtf8);
      EscapedUnits(text[1..], asUtf8);
      var us := UnitsOf(text, asUtf8);
      assert us[1..] == UnitsOf(text[1..], asUtf8);
      assert text == [text[0]] + text[1..];
    }
  }

  /** Unless the text is UTF-8, only printable ASCII is written. */
  lemma {:induction false} EscapedPrintable(text: seq<byte>)
    ensures forall i :: 0 <= i < |CEscape(text, false)| ==> ' ' <= CEscape(text, false)[i] <= '~'
  {
    hide EscapeByte;
    if text != [] {
      BytePrintable(text[0]);
      EscapedPrintable(text[1..]);
    }
  }

  lemma BytePrintable(b: byte)
    ensures forall i :: 0 <= i < |EscapeByte(b, false)| ==> ' ' <= EscapeByte(b, false)[i] <= '~'
  {
    DigitRoundTrip(b / 64);
    DigitRoundTrip(b / 8 % 8);
    DigitRoundTrip(b % 8);
  }
}
