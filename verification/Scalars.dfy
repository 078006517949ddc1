/** What strings mean: Unicode scalar values, read strictly from UTF-16 (section 2.2 of RFC 2781) and from
    UTF-8 (section 3 of RFC 3629). Neither reader shares anything with `writeString` and `readString`. */
module Scalars {
  import opened Js
  import opened Arith
  import opened Decoder
  import opened Utf8
  import TextGrammar

  predicate IsSurrogate(p: int) { 0xD800 <= p <= 0xDFFF }

  /** UTF-16: surrogates count only in pairs, high before low. */
  function FromUtf16(s: seq<unit>): Option<seq<nat>> {
    if s == [] then Some([])
    else if !IsSurrogate(s[0]) then Cons(s[0], FromUtf16(s[1..]))
    else if s[0] <= 0xDBFF && |s| > 1 && 0xDC00 <= s[1] <= 0xDFFF then
      Cons(0x1_0000 + (s[0] as int - 0xD800) * 0x400 + (s[1] as int - 0xDC00), FromUtf16(s[2..]))
    else None
  }

  function Cons(p: nat, rest: Option<seq<nat>>): Option<seq<nat>> {
    match rest case None => None case Some(ps) => Some([p] + ps)
  }

  predicate Continues(b: byte) { 0x80 <= b <= 0xBF }

  /** The first character of UTF-8 and its length: the lead byte gives the length, every character has its
      shortest form, and surrogates and numbers above 10FFFF are no characters. */
  function FirstOfUtf8(b: seq<byte>): (r: Option<(nat, nat)>)
    requires b != []
    ensures r.Some? ==> 1 <= r.value.1 <= |b| && r.value.0 <= 0x10_FFFF && !IsSurrogate(r.value.0)
  {
    var x: int := b[0];
    if x < 0x80 then Some((x, 1))
    else if 0xC0 <= x < 0xE0 && |b| >= 2 && Continues(b[1]) then
      var p := (x - 0xC0) * 64 + (b[1] as int - 0x80);
      if p >= 0x80 then Some((p, 2)) else None
    else if 0xE0 <= x < 0xF0 && |b| >= 3 && Continues(b[1]) && Continues(b[2]) then
      var p := (x - 0xE0) * 0x1000 + (b[1] as int - 0x80) * 64 + (b[2] as int - 0x80);
      if p >= 0x800 && !IsSurrogate(p) then Some((p, 3)) else None
    else if 0xF0 <= x < 0xF8 && |b| >= 4 && Continues(b[1]) && Continues(b[2]) && Continues(b[3]) then
      var p := (x - 0xF0) * 0x4_0000 + (b[1] as int - 0x80) * 0x1000 + (b[2] as int - 0x80) * 64 + (b[3] as int - 0x80);
      if 0x1_0000 <= p <= 0x10_FFFF then Some((p, 4)) else None
    else None
  }

  function FromUtf8(b: seq<byte>): Option<seq<nat>>
    decreases |b|
  {
    if b == [] then Some([])
    else match FirstOfUtf8(b)
      case None => None
      case Some(first) => Cons(first.0, FromUtf8(b[first.1..]))
  }

  /** The strict reader accepts what the table of byte ranges in section 4 of RFC 3629 accepts. */
  lemma {:induction false} StrictIsValid(b: seq<byte>)
    ensures FromUtf8(b).Some? <==> TextGrammar.ValidUtf8(b)
    decreases |b|
  {
    if b != [] {
      FirstIsValid(b);
      if FirstOfUtf8(b).Some? {
        StrictIsValid(b[FirstOfUtf8(b).value.1..]);
      }
    }
  }

  lemma FirstIsValid(b: seq<byte>)
    requires b != []
    ensures TextGrammar.ValidUtf8(b) <==> FirstOfUtf8(b).Some? && TextGrammar.ValidUtf8(b[FirstOfUtf8(b).value.1..])
  {
  }

  // ----- writeString writes UTF-8 -----

  /** The bytes of one unit, or of one pair, are the UTF-8 of its scalar value, unless it is a surrogate. */
  lemma FirstWritten(s: seq<unit>, rest: seq<byte>)
    requires s != [] && EncodeFirst(s).0 != []
    ensures var e, n := EncodeFirst(s).0, EncodeFirst(s).1;
      && (n == 2 <==> IsHigh(s[0]) && |s| > 1)
      && (n == 2 ==> 0xDC00 <= s[1] <= 0xDFFF && |e| == 4)
      && (n == 2 ==> FirstOfUtf8(e + rest) == Some((0x1_0000 + (s[0] as int - 0xD800) * 0x400 + (s[1] as int - 0xDC00), 4)))
      && (n == 1 ==> FirstOfUtf8(e + rest) == if IsSurrogate(s[0]) then None else Some((s[0] as int, |e|)))
      && n <= 2
  {
    var c: int := s[0];
    if c < 2048 {
      TwoDigits(c);
    } else if IsHigh(c) && |s| > 1 {
      FourDigits(CodePoint(c, s[1]));
    } else {
      ThreeDigits(c);
    }
  }

  lemma TwoDigits(c: int)
    ensures c == c / 64 * 64 + c % 64
  {
  }

  lemma ThreeDigits(c: int)
    ensures c == c / 0x1000 * 0x1000 + c / 64 % 64 * 64 + c % 64
  {
    var b := c / 64;
    assert b == b / 64 * 64 + b % 64 && c == b * 64 + c % 64 && c / 0x1000 == b / 64;
  }

  lemma FourDigits(p: int)
    requires 0 <= p
    ensures p == p / 0x4_0000 * 0x4_0000 + p / 0x1000 % 64 * 0x1000 + p / 64 % 64 * 64 + p % 64
  {
    Digits64(p);
  }

  /** For every string: the bytes are read strictly as the scalar values of what is left of the string
      without its unpaired, non-final high surrogates, and they are no UTF-8 exactly when that is no UTF-16. */
  lemma {:induction false} WrittenScalars(s: seq<unit>)
    ensures FromUtf8(Encode(s)) == FromUtf16(Cleaned(s))
    decreases |s|
  {
    hide EncodeFirst, FirstOfUtf8, Cleaned;
    if s == [] {
      assert Cleaned(s) == [] by { CleanedIdentity(s); }
    } else {
      var e, n := EncodeFirst(s).0, EncodeFirst(s).1;
      WrittenScalars(s[n..]);
      CleanedStep(s);
      assert Encode(s) == e + Encode(s[n..]);
      if e == [] {
        assert Encode(s) == Encode(s[n..]) && Cleaned(s) == Cleaned(s[n..]);
      } else {
        FirstWritten(s, Encode(s[n..]));
        assert (e + Encode(s[n..]))[|e|..] == Encode(s[n..]);
        FirstKept(s, Cleaned(s[n..]));
      }
    }
  }

  lemma FirstKept(s: seq<unit>, rest: seq<unit>)
    requires s != [] && EncodeFirst(s).0 != []
    requires EncodeFirst(s).1 == 1 && IsHigh(s[0]) ==> rest == []
    ensures var n := EncodeFirst(s).1;
      && (n == 1 && !IsSurrogate(s[0]) ==> FromUtf16(s[..n] + rest) == Cons(s[0], FromUtf16(rest)))
      && (n == 1 && IsSurrogate(s[0]) ==> FromUtf16(s[..n] + rest) == None)
      && (n == 2 ==> FromUtf16(s[..n] + rest)
                     == Cons(0x1_0000 + (s[0] as int - 0xD800) * 0x400 + (s[1] as int - 0xDC00), FromUtf16(rest)))
  {
    var n := EncodeFirst(s).1;
    assert (s[..n] + rest)[n..] == rest;
  }

  /** On well-formed UTF-16 the bytes are UTF-8 of exactly its scalar values. */
  lemma WellFormedWritten(s: seq<unit>)
    requires WellFormed(s)
    ensures TextGrammar.ValidUtf8(Encode(s)) && FromUtf16(s).Some? && FromUtf8(Encode(s)) == FromUtf16(s)
  {
    hide Encode, Cleaned;
    WrittenScalars(s);
    WellFormedPaired(s);
    CleanedIdentity(s);
    WellFormedScalars(s);
    StrictIsValid(Encode(s));
  }

  lemma {:induction false} WellFormedScalars(s: seq<unit>)
    ensures WellFormed(s) <==> FromUtf16(s).Some?
    decreases |s|
  {
    if s != [] {
      if IsHigh(s[0]) {
        if |s| > 1 {
          WellFormedScalars(s[2..]);
        }
      } else {
        WellFormedScalars(s[1..]);
      }
    }
  }

  /** Every low surrogate stands behind a high one, and no high surrogate is last. */
  ghost predicate LowsPaired(s: seq<unit>) {
    && (forall i :: 0 <= i < |s| && IsLow(s[i]) ==> i > 0 && IsHigh(s[i - 1]))
    && (s != [] ==> !IsHigh(s[|s| - 1]))
  }

  /** The bytes are UTF-8 exactly when every low surrogate stands behind a high one and the last unit is no
      high surrogate; unpaired high surrogates elsewhere do no harm, since they are dropped. */
  lemma ValidWritten(s: seq<unit>)
    ensures TextGrammar.ValidUtf8(Encode(s)) <==> LowsPaired(s)
  {
    hide Encode, Cleaned, LowsPaired;
    WrittenScalars(s);
    StrictIsValid(Encode(s));
    CleanedScalars(s);
  }

  lemma {:induction false} CleanedScalars(s: seq<unit>)
    ensures FromUtf16(Cleaned(s)).Some? <==> LowsPaired(s)
    decreases |s|
  {
    hide EncodeFirst, Cleaned, LowsPaired, FromUtf16;
    if s == [] {
      assert Cleaned(s) == [] by { CleanedIdentity(s); }
      assert LowsPaired(s) && FromUtf16([]).Some? by { NoUnits(); }
    } else {
      var n := EncodeFirst(s).1;
      CleanedStep(s);
      CleanedScalars(s[n..]);
      if EncodeFirst(s).0 == [] {
        assert [] + Cleaned(s[n..]) == Cleaned(s[n..]);
        DroppedHigh(s);
      } else {
        FirstWritten(s, []);
        if n == 1 && IsHigh(s[0]) {
          LastHigh(s);
        }
        FirstKept(s, Cleaned(s[n..]));
        FirstPaired(s);
      }
    }
  }

  lemma NoUnits()
    ensures LowsPaired([]) && FromUtf16([]) == Some([])
  {
  }

  lemma LastHigh(s: seq<unit>)
    requires s != [] && EncodeFirst(s).0 != [] && EncodeFirst(s).1 == 1 && IsHigh(s[0])
    ensures Cleaned(s[1..]) == []
  {
  }

  lemma DroppedHigh(s: seq<unit>)
    requires s != [] && EncodeFirst(s).0 == []
    ensures EncodeFirst(s).1 == 1 && (LowsPaired(s) <==> LowsPaired(s[1..]))
  {
    assert forall i :: 0 <= i < |s| - 1 ==> s[1..][i] == s[i + 1];
  }

  lemma FirstPaired(s: seq<unit>)
    requires s != [] && EncodeFirst(s).0 != []
    ensures var n := EncodeFirst(s).1;
      LowsPaired(s) <==> (n == 2 || !IsSurrogate(s[0])) && LowsPaired(s[n..])
  {
    var n := EncodeFirst(s).1;
    assert forall i :: 0 <= i < |s| - n ==> s[n..][i] == s[i + n];
  }

  // ----- readString reads UTF-8 -----

  /** The units of scalar values. */
  function ToUtf16(ps: seq<nat>): seq<unit>
    requires forall i :: 0 <= i < |ps| ==> ps[i] <= 0x10_FFFF
  {
    if ps == [] then []
    else if ps[0] < 0x1_0000 then [ps[0]] + ToUtf16(ps[1..])
    else [0xD800 + (ps[0] - 0x1_0000) / 0x400, 0xDC00 + (ps[0] - 0x1_0000) % 0x400] + ToUtf16(ps[1..])
  }

  lemma {:induction false} ScalarsSmall(b: seq<byte>)
    ensures FromUtf8(b).Some? ==> forall i :: 0 <= i < |FromUtf8(b).value| ==> FromUtf8(b).value[i] <= 0x10_FFFF
    decreases |b|
  {
    hide FirstOfUtf8;
    if b != [] && FirstOfUtf8(b).Some? {
      ScalarsSmall(b[FirstOfUtf8(b).value.1..]);
    }
  }

  /** Valid UTF-8 is read as the UTF-16 of exactly its scalar values. */
  lemma {:induction false} ReadScalars(bytes: seq<byte>, i: nat, end: nat)
    requires i <= end <= |bytes| && FromUtf8(bytes[i..end]).Some?
    ensures forall k :: 0 <= k < |FromUtf8(bytes[i..end]).value| ==> FromUtf8(bytes[i..end]).value[k] <= 0x10_FFFF
    ensures Decode(bytes, i, end) == (ToUtf16(FromUtf8(bytes[i..end]).value), end)
    decreases end - i
  {
    hide FirstOfUtf8, DecodeFirst;
    ScalarsSmall(bytes[i..end]);
    if i < end {
      var first := FirstOfUtf8(bytes[i..end]).value;
      assert bytes[i..end][first.1..] == bytes[i + first.1..end];
      ReadScalars(bytes, i + first.1, end);
      FirstRead(bytes, i, end);
      DecodeUnfold(bytes, i, end);
    }
  }

  lemma FirstRead(bytes: seq<byte>, i: nat, end: nat)
    requires i < end <= |bytes| && FirstOfUtf8(bytes[i..end]).Some?
    ensures var p, n := FirstOfUtf8(bytes[i..end]).value.0, FirstOfUtf8(bytes[i..end]).value.1;
      DecodeFirst(bytes, i) == (if p < 0x1_0000 then [p] else [0xD800 + (p - 0x1_0000) / 0x400, 0xDC00 + (p - 0x1_0000) % 0x400], i + n)
  {
    hide Scalar4, HighOf, LowOf;
    var b := bytes[i..end];
    var x: int := b[0];
    var p := FirstOfUtf8(b).value.0;
    if x >= 0xF0 {
      PairOf(p);
      FourRead(x, b[1], b[2], b[3]);
    } else if x >= 0xE0 {
      LowSix(b[1]);
      LowSix(b[2]);
      assert x % 16 == x - 0xE0;
    } else if x >= 0x80 {
      LowSix(b[1]);
      assert x % 32 == x - 0xC0;
    }
  }

  lemma FourRead(x: int, c2: byte, c3: byte, c4: byte)
    requires 0xF0 <= x < 0xF8 && Continues(c2) && Continues(c3) && Continues(c4)
    ensures Scalar4(x, c2, c3, c4)
            == (x - 0xF0) * 0x4_0000 + (c2 as int - 0x80) * 0x1000 + (c3 as int - 0x80) * 64 + (c4 as int - 0x80)
  {
    LowSix(c2);
    LowSix(c3);
    LowSix(c4);
    assert x % 8 == x - 0xF0;
  }

  lemma LowSix(b: byte)
    ensures Continues(b) ==> b % 64 == b - 0x80
  {
  }

  lemma PairOf(p: nat)
    requires 0x1_0000 <= p <= 0x10_FFFF
    ensures HighOf(p) as int == 0xD800 + (p - 0x1_0000) / 0x400 && LowOf(p) as int == 0xDC00 + (p - 0x1_0000) % 0x400
  {
  }

  /** The low six bits of the byte at a position, and 0 behind the end of the array. */
  function Six(bytes: seq<byte>, i: nat): nat {
    if i < |bytes| then bytes[i] % 64 else 0
  }

  /** What `readString` makes of any bytes, well formed or not: a byte that cannot start a character is
      skipped, and behind one that can, the low six bits of the next bytes are taken whatever their high bits. */
  lemma AnyRead(bytes: seq<byte>, i: nat)
    requires i < |bytes|
    ensures var c := bytes[i] as int;
            && (c <= 0x7F ==> DecodeFirst(bytes, i) == ([c], i + 1))
            && (0x80 <= c <= 0xBF || 0xF8 <= c ==> DecodeFirst(bytes, i) == ([], i + 1))
            && (0xC0 <= c <= 0xDF ==> DecodeFirst(bytes, i) == ([(c - 0xC0) * 64 + Six(bytes, i + 1)], i + 2))
            && (0xE0 <= c <= 0xEF ==>
                  DecodeFirst(bytes, i) == ([(c - 0xE0) * 0x1000 + Six(bytes, i + 1) * 64 + Six(bytes, i + 2)], i + 3))
  {
    hide HighOf, LowOf, Scalar4;
    assert 0xE0 <= bytes[i] <= 0xEF ==> bytes[i] % 16 == bytes[i] - 0xE0;
    assert 0xC0 <= bytes[i] <= 0xDF ==> bytes[i] % 32 == bytes[i] - 0xC0;
  }

  /** And of a byte that starts four: a pair of surrogates for the number, modulo 2^20. */
  lemma AnyFourRead(bytes: seq<byte>, i: nat)
    requires i < |bytes| && 0xF0 <= bytes[i] <= 0xF7
    ensures var c, units := bytes[i] as int, DecodeFirst(bytes, i).0;
            && DecodeFirst(bytes, i).1 == i + 4 && |units| == 2
            && (units[0] as int - 0xD800) * 0x400 + units[1] as int - 0xDC00
               == ((c - 0xF0) * 0x4_0000 + Six(bytes, i + 1) * 0x1000 + Six(bytes, i + 2) * 64 + Six(bytes, i + 3) - 0x1_0000)
                  % 0x10_0000
  {
    hide HighOf, LowOf, Scalar4;
    var c := bytes[i] as int;
    var p := Scalar4(c, At(bytes, i + 1).Bits(), At(bytes, i + 2).Bits(), At(bytes, i + 3).Bits());
    AnyFour(c, At(bytes, i + 1).Bits(), At(bytes, i + 2).Bits(), At(bytes, i + 3).Bits());
    AnyPair(p);
    assert DecodeFirst(bytes, i) == ([HighOf(p), LowOf(p)], i + 4);
  }

  lemma AnyFour(c: int, d: byte, e: byte, f: byte)
    requires 0xF0 <= c <= 0xF7
    ensures Scalar4(c, d, e, f) == (c - 0xF0) * 0x4_0000 + d % 64 * 0x1000 + e % 64 * 64 + f % 64
  {
    assert c % 8 == c - 0xF0;
  }

  lemma AnyPair(p: nat)
    ensures (HighOf(p) as int - 0xD800) * 0x400 + LowOf(p) as int - 0xDC00 == (p - 0x1_0000) % 0x10_0000
  {
    var x := p - 0x1_0000;
    assert x == x / 0x400 / 0x400 * 0x10_0000 + x / 0x400 % 0x400 * 0x400 + x % 0x400;
    ModAddMultiple(x / 0x400 % 0x400 * 0x400 + x % 0x400, x / 0x400 / 0x400, 0x10_0000);
  }
}
