/** `unskipVarint` and the counters of `jspb.utils`, which all stop at 128 where the encoder goes on. */
module Counters {
  import opened Js
  import opened Words
  import opened Varints
  import opened Arith
  import opened Utils
  import opened Decoder
  import opened Wire
  import opened Parsing
  import opened RoundTrip
  import Utf8

  // ----- which numbers have a quotient of exactly 128 -----

  /** floor(v / 128^j) */
  function Quotient(v: nat, j: nat): nat
    decreases j
  {
    if j == 0 then v else Quotient(v / 128, j - 1)
  }

  lemma {:induction false} QuotientDivides(v: nat, j: nat)
    ensures Quotient(v, j) == v / Pow2(7 * j)
    decreases j
  {
    if j > 0 {
      QuotientDivides(v / 128, j - 1);
      Pow2Add(7, 7 * (j - 1));
      Pow2Values();
      DivDiv(v, 128, Pow2(7 * (j - 1)));
    }
  }

  lemma DivDiv(v: nat, a: nat, b: nat)
    requires 0 < a && 0 < b
    ensures 0 < a * b && v / a / b == v / (a * b)
  {
    var q := v / a;
    var p := q / b;
    MulMonotone(a, 1, b);
    assert v == (p * b + q % b) * a + v % a;
    assert v == p * (a * b) + ((q % b) * a + v % a);
    MulMonotone(a, q % b, b - 1);
    MulNonNegative(q % b, a);
    DivModUnique(v, a * b, p, (q % b) * a + v % a);
  }

  /** The test `> 128` leaves the loop before the last byte of the encoding. */
  predicate StopsEarly(v: nat) {
    v == 128 || (v > 128 && StopsEarly(v / 128))
  }

  lemma {:induction false} QuotientZero(j: nat)
    ensures Quotient(0, j) == 0
  {
    if j > 0 {
      QuotientZero(j - 1);
    }
  }

  lemma {:induction false} StopsEarlyMeans(v: nat)
    ensures StopsEarly(v) <==> exists j: nat :: Quotient(v, j) == 128
  {
    if v == 128 {
      assert Quotient(v, 0) == 128;
    } else if v < 128 {
      forall j: nat
        ensures Quotient(v, j) != 128
      {
        if j > 0 {
          QuotientZero(j - 1);
        }
      }
    } else {
      StopsEarlyMeans(v / 128);
      if StopsEarly(v) {
        var j: nat :| Quotient(v / 128, j) == 128;
        assert Quotient(v, j + 1) == 128;
      } else {
        forall j: nat
          ensures Quotient(v, j) != 128
        {
          if j > 0 {
            assert Quotient(v, j) == Quotient(v / 128, j - 1);
          }
        }
      }
    }
  }

  /** `unskipVarint` moves back the length of the encoding, or one byte less when some quotient is 128. */
  lemma {:induction false} UnskipExact(v: nat)
    requires v < TWO_TO_32
    ensures UnskipLength(v) == |Varint(v)| - if exists j: nat :: Quotient(v, j) == 128 then 1 else 0
  {
    hide Quotient;
    StopsEarlyMeans(v);
    if v > 128 {
      UnskipExact(v / 128);
      StopsEarlyMeans(v / 128);
    } else if v == 128 {
      assert Varint(128) == [128] + Varint(1);
    }
  }

  /** The header tags that the backward and counting loops handle. */
  predicate GoodTag(tag: nat) {
    tag < TWO_TO_31 && !StopsEarly(tag)
  }

  /** `unskipHeader` returns to the start of the header it just read exactly for these tags. */
  lemma UnskipHeaderExact(st: State, num: nat, wire: nat)
    requires num < 0x2000_0000 && wire <= 5 && st.field == num && st.wire == wire
    ensures UnskipHeader(st).cursor == st.cursor - |Header(num, wire)| <==> GoodTag(num * 8 + wire)
  {
    hide Varint, StopsEarly, UnskipLength, Quotient;
    var tag := num * 8 + wire;
    if tag < TWO_TO_31 {
      UnskipExact(tag);
      StopsEarlyMeans(tag);
    } else {
      VarintLength(tag, 1);
      assert Pow2(7) == 128;
      NegativeUnskip(ToInt32(tag));
    }
  }

  lemma NegativeUnskip(v: int)
    requires v <= 128
    ensures UnskipLength(v) == 1
  {
  }

  // ----- countVarints -----

  /** How often `skipVarint` runs from `cursor` until it reaches `end`. */
  function SkipSteps(buffer: seq<byte>, cursor: int, end: int): nat
    decreases end - cursor
  {
    if cursor >= end then 0 else 1 + SkipSteps(buffer, SkipVarint(buffer, cursor), end)
  }

  function HighBits(buffer: seq<byte>, cursor: int, end: int): nat
    decreases end - cursor
  {
    if cursor >= end then 0
    else (if At(buffer, cursor).Bits() >= 128 then 1 else 0) + HighBits(buffer, cursor + 1, end)
  }

  lemma {:induction false} HighBitsAppend(buffer: seq<byte>, cursor: int, end: int)
    requires cursor <= end
    ensures HighBits(buffer, cursor, end + 1)
            == HighBits(buffer, cursor, end) + if At(buffer, end).Bits() >= 128 then 1 else 0
    decreases end - cursor
  {
    if cursor < end {
      HighBitsAppend(buffer, cursor + 1, end);
    }
  }

  lemma TopBitOf(b: byte)
    ensures Sar(b, 7) == if b >= 128 then 1 else 0
  {
    ShiftValues(b);
  }

  method CountVarints(buffer: seq<byte>, start: int, end: int) returns (n: int)
    ensures n == end - start - HighBits(buffer, start, end)
  {
    hide Sar;
    var count: int := 0;
    var i := start;
    while i < end
      invariant start <= i && (i <= end || i == start) && count == HighBits(buffer, start, i)
      decreases end - i
    {
      TopBitOf(At(buffer, i).Bits());
      HighBitsAppend(buffer, start, i);
      count := count + Sar(At(buffer, i).Bits(), 7);
      i := i + 1;
    }
    n := end - start - count;
  }

  /** The count is the number of varints exactly when the last byte ends one; otherwise the varint that
      runs over the end is not counted. */
  lemma {:induction false} VarintsCounted(buffer: seq<byte>, start: int, end: int)
    requires start <= end
    ensures end - start - HighBits(buffer, start, end)
            == SkipSteps(buffer, start, end) - if start < end && At(buffer, end - 1).Bits() >= 128 then 1 else 0
    decreases end - start
  {
    if start < end {
      if start + 1 < end || At(buffer, start).Bits() < 128 {
        VarintsCounted(buffer, start + 1, end);
      } else {
        assert SkipVarint(buffer, start) > end - 1;
      }
    }
  }

  // ----- the field counters -----

  /** The tag loop of the counters: the cursor behind the tag, if the bytes are what the loop expects. */
  function MatchTag(buffer: seq<byte>, cursor: int, tag: int): Option<int>
    decreases tag
  {
    if tag > 128 then
      if At(buffer, cursor) == Byte(tag % 128 + 128) then MatchTag(buffer, cursor + 1, ToInt32(tag) / 128) else None
    else if At(buffer, cursor).Byte? && At(buffer, cursor).b == tag then Some(cursor + 1)
    else None
  }

  predicate Countable(wire: nat) {
    wire == VARINT || wire == FIXED64 || wire == DELIMITED || wire == FIXED32
  }

  /** Where the counter for a wire type goes on. */
  function PayloadEnd(buffer: seq<byte>, cursor: int, wire: nat): (next: int)
    ensures next > cursor
  {
    if wire == VARINT then SkipVarint(buffer, cursor)
    else if wire == FIXED64 then cursor + 8
    else if wire == FIXED32 then cursor + 4
    else
      var next := SkipVarint(buffer, cursor);
      next + Varints.Value(Slice(buffer, cursor, next - cursor))
  }

  lemma {:induction false} MatchProgress(buffer: seq<byte>, cursor: int, tag: int)
    ensures MatchTag(buffer, cursor, tag).Some? ==> MatchTag(buffer, cursor, tag).value > cursor
    decreases tag
  {
    if tag > 128 {
      MatchProgress(buffer, cursor + 1, ToInt32(tag) / 128);
    }
  }

  function CountFields(buffer: seq<byte>, cursor: int, end: int, tag: int, wire: nat): nat
    decreases end - cursor
  {
    if cursor >= end then 0
    else match MatchTag(buffer, cursor, tag)
    case None => 0
    case Some(next) =>
      MatchProgress(buffer, cursor, tag);
      1 + CountFields(buffer, PayloadEnd(buffer, next, wire), end, tag, wire)
  }

  lemma TagStep(temp: int)
    requires temp > 128
    ensures Or(And(temp, 0x7F), 0x80) == temp % 128 + 128 && Sar(temp, 7) == ToInt32(temp) / 128 < temp
  {
    hide Or, And;
    ContinuedSeptet(temp);
    ShiftValues(ToInt32(temp));
  }

  method MatchTagBytes(buffer: seq<byte>, start: int, tag: int) returns (r: Option<int>)
    ensures r == MatchTag(buffer, start, tag)
  {
    hide Or, And, Sar, ToInt32;
    var cursor, temp := start, tag;
    while temp > 128
      invariant MatchTag(buffer, cursor, temp) == MatchTag(buffer, start, tag)
      decreases temp
    {
      TagStep(temp);
      var seen := At(buffer, cursor);
      if seen.Undefined? || seen.b != Or(And(temp, 0x7F), 0x80) {
        return None;
      }
      cursor := cursor + 1;
      temp := Sar(temp, 7);
    }
    var seen := At(buffer, cursor);
    cursor := cursor + 1;
    if seen.Undefined? || seen.b != temp {
      return None;
    }
    return Some(cursor);
  }

  /** `countVarintFields` */
  method CountVarintFields(buffer: seq<byte>, start: int, end: int, field: nat) returns (count: nat)
    ensures count == CountFields(buffer, start, end, field * 8 + VARINT, VARINT)
  {
    hide And, SkipVarint, MatchTag;
    count := 0;
    var cursor := start;
    var tag := field * 8 + VARINT;
    while cursor < end
      invariant count + CountFields(buffer, cursor, end, tag, VARINT) == CountFields(buffer, start, end, tag, VARINT)
      decreases end - cursor
    {
      MatchProgress(buffer, cursor, tag);
      var matched := MatchTagBytes(buffer, cursor, tag);
      if matched.None? {
        return;
      }
      cursor := matched.value;
      count := count + 1;
      cursor := SkipVarintBytes(buffer, cursor);
    }
  }

  method SkipVarintBytes(buffer: seq<byte>, start: int) returns (cursor: int)
    ensures cursor == SkipVarint(buffer, start)
  {
    hide And;
    cursor := start;
    while true
      invariant SkipVarint(buffer, cursor) == SkipVarint(buffer, start)
      decreases |buffer| - cursor
    {
      var x := At(buffer, cursor).Bits();
      cursor := cursor + 1;
      HighBit(x);
      if And(x, 0x80) == 0 {
        break;
      }
    }
  }

  /** `countFixedFields_` */
  method CountFixedFields(buffer: seq<byte>, start: int, end: int, tag: nat, wire: nat, stride: nat) returns (count: nat)
    requires (wire == FIXED32 && stride == 4) || (wire == FIXED64 && stride == 8)
    ensures count == CountFields(buffer, start, end, tag, wire)
  {
    hide MatchTag;
    count := 0;
    var cursor := start;
    while cursor < end
      invariant count + CountFields(buffer, cursor, end, tag, wire) == CountFields(buffer, start, end, tag, wire)
      decreases end - cursor
    {
      MatchProgress(buffer, cursor, tag);
      var matched := MatchTagBytes(buffer, cursor, tag);
      if matched.None? {
        return;
      }
      count := count + 1;
      cursor := matched.value + stride;
    }
  }

  method CountFixed32Fields(buffer: seq<byte>, start: int, end: int, field: nat) returns (count: nat)
    ensures count == CountFields(buffer, start, end, field * 8 + FIXED32, FIXED32)
  {
    count := CountFixedFields(buffer, start, end, field * 8 + FIXED32, FIXED32, 4);
  }

  method CountFixed64Fields(buffer: seq<byte>, start: int, end: int, field: nat) returns (count: nat)
    ensures count == CountFields(buffer, start, end, field * 8 + FIXED64, FIXED64)
  {
    count := CountFixedFields(buffer, start, end, field * 8 + FIXED64, FIXED64, 8);
  }

  lemma LengthStep(buffer: seq<byte>, start: int, k: nat, length: nat, shift: nat)
    requires length == Varints.Value(Slice(buffer, start, k)) && shift == Pow2(7 * k)
    ensures length + And(At(buffer, start + k).Bits(), 0x7f) * shift == Varints.Value(Slice(buffer, start, k + 1))
    ensures shift * 128 == Pow2(7 * (k + 1))
  {
    hide And;
    Pow2Values();
    AndMask(At(buffer, start + k).Bits(), 0x7f, 7);
    SliceValueStep(buffer, start, k);
    Pow2Add(7, 7 * k);
  }

  /** The length prefix as `countDelimitedFields` decodes it. */
  method ReadLength(buffer: seq<byte>, start: int) returns (length: nat, cursor: int)
    ensures cursor == SkipVarint(buffer, start) && length == Varints.Value(Slice(buffer, start, cursor - start))
  {
    hide And, Pow2, Varints.Value, Slice;
    length, cursor := 0, start;
    var shift: nat := 1;
    assert Varints.Value(Slice(buffer, start, 0)) == 0 by { EmptySlice(buffer, start); }
    assert Pow2(0) == 1 by { PowZero(); }
    while true
      invariant start <= cursor && SkipVarint(buffer, cursor) == SkipVarint(buffer, start)
      invariant length == Varints.Value(Slice(buffer, start, cursor - start)) && shift == Pow2(7 * (cursor - start))
      decreases |buffer| - cursor
    {
      LengthStep(buffer, start, cursor - start, length, shift);
      var temp := At(buffer, cursor).Bits();
      cursor := cursor + 1;
      length := length + And(temp, 0x7f) * shift;
      shift := shift * 128;
      HighBit(temp);
      if And(temp, 0x80) == 0 {
        break;
      }
    }
  }

  lemma EmptySlice(buffer: seq<byte>, start: int)
    ensures Varints.Value(Slice(buffer, start, 0)) == 0
  {
  }

  lemma PowZero()
    ensures Pow2(0) == 1
  {
  }

  method CountDelimitedFields(buffer: seq<byte>, start: int, end: int, field: nat) returns (count: nat)
    ensures count == CountFields(buffer, start, end, field * 8 + DELIMITED, DELIMITED)
  {
    hide MatchTag, Varints.Value, Slice, SkipVarint;
    count := 0;
    var cursor := start;
    var tag := field * 8 + DELIMITED;
    while cursor < end
      invariant count + CountFields(buffer, cursor, end, tag, DELIMITED) == CountFields(buffer, start, end, tag, DELIMITED)
      decreases end - cursor
    {
      MatchProgress(buffer, cursor, tag);
      var matched := MatchTagBytes(buffer, cursor, tag);
      if matched.None? {
        return;
      }
      count := count + 1;
      var length, next := ReadLength(buffer, matched.value);
      cursor := next + length;
    }
  }

  // ----- on written messages -----

  /** For a good tag, the tag loop accepts the header with that tag and no other. */
  lemma {:induction false} MatchWritten(buffer: seq<byte>, cursor: nat, tag: nat, n: nat)
    requires GoodTag(tag) && Holds(buffer, cursor, Varint(n))
    ensures MatchTag(buffer, cursor, tag) == if n == tag then Some(cursor + |Varint(n)|) else None
    decreases tag
  {
    assert buffer[cursor] == buffer[cursor..cursor + |Varint(n)|][0];
    if tag > 128 && n >= 128 && n % 128 == tag % 128 {
      VarintStep(n);
      HoldsParts(buffer, cursor, [n % 128 + 128], Varint(n / 128));
      MatchWritten(buffer, cursor + 1, tag / 128, n / 128);
      assert n == tag <==> n / 128 == tag / 128;
    }
  }

  /** For a bad tag below 2^31 it accepts the header one byte short; that byte is 1. */
  lemma {:induction false} MatchShort(buffer: seq<byte>, cursor: nat, tag: nat)
    requires tag < TWO_TO_31 && StopsEarly(tag) && Holds(buffer, cursor, Varint(tag))
    ensures MatchTag(buffer, cursor, tag) == Some(cursor + |Varint(tag)| - 1)
    ensures buffer[cursor + |Varint(tag)| - 1] == 1
    decreases tag
  {
    assert buffer[cursor] == buffer[cursor..cursor + |Varint(tag)|][0];
    VarintStep(tag);
    HoldsParts(buffer, cursor, [tag % 128 + 128], Varint(tag / 128));
    if tag > 128 {
      MatchShort(buffer, cursor + 1, tag / 128);
    } else {
      assert buffer[cursor + 1] == buffer[cursor + 1..cursor + 2][0];
    }
  }

  lemma MatchNegative(buffer: seq<byte>, cursor: nat, tag: nat)
    requires TWO_TO_31 <= tag < TWO_TO_32
    ensures MatchTag(buffer, cursor, tag) == None
  {
    assert ToInt32(tag) / 128 < 0;
  }

  /** The number of leading fields with a given number and wire type. */
  function Leading(fs: seq<Field>, num: nat, wire: nat): nat {
    if fs == [] || fs[0].num != num || WireType(fs[0].value) != wire then 0 else 1 + Leading(fs[1..], num, wire)
  }

  lemma PayloadWritten(buffer: seq<byte>, cursor: nat, f: Field)
    requires Writable(f) && Countable(WireType(f.value)) && Holds(buffer, cursor, EncodePayload(f))
    ensures PayloadEnd(buffer, cursor, WireType(f.value)) == cursor + |EncodePayload(f)|
  {
    hide Varint, Varints.Value, Slice, SkipVarint, Header, EncodeFields, AllWritable, EncodePayload, Holds;
    if WireType(f.value) == VARINT {
      var n := VarintBody(f);
      SkipWritten(buffer, cursor, n);
    } else if WireType(f.value) == DELIMITED {
      var body := DelimitedBody(f);
      HoldsParts(buffer, cursor, Varint(|body|), body);
      SkipWritten(buffer, cursor, |body|);
      LengthWritten(buffer, cursor, |body|);
      DelimitedLength(body);
    } else {
      FixedLength(f);
    }
  }

  lemma LengthWritten(buffer: seq<byte>, cursor: nat, n: nat)
    requires Holds(buffer, cursor, Varint(n))
    ensures Varints.Value(Slice(buffer, cursor, |Varint(n)|)) == n
  {
    hide Varint, Varints.Value, Slice;
    SliceInside(buffer, cursor, |Varint(n)|);
    VarintSound(n);
  }

  lemma FixedLength(f: Field)
    requires Writable(f) && (WireType(f.value) == FIXED32 || WireType(f.value) == FIXED64)
    ensures |EncodePayload(f)| == if WireType(f.value) == FIXED32 then 4 else 8
  {
  }

  lemma TagsDiffer(f: Field, num: nat, wire: nat)
    requires Writable(f) && wire <= 5
    ensures f.num * 8 + WireType(f.value) == num * 8 + wire <==> f.num == num && WireType(f.value) == wire
  {
  }

  /** For good tags the counters return the number of leading fields with the tag. */
  lemma CountWritten(buffer: seq<byte>, cursor: nat, fs: seq<Field>, num: nat, wire: nat)
    requires GoodTag(num * 8 + wire) && Countable(wire)
    requires AllWritable(fs) && Holds(buffer, cursor, EncodeFields(fs))
    ensures CountFields(buffer, cursor, cursor + |EncodeFields(fs)|, num * 8 + wire, wire) == Leading(fs, num, wire)
    decreases |fs|
  {
    hide EncodePayload, MatchTag, PayloadEnd, Holds, Writable, Varint, GoodTag;
    if fs != [] {
      var f, rest := fs[0], EncodeFields(fs[1..]);
      var header := Varint(f.num * 8 + WireType(f.value));
      HoldsParts(buffer, cursor, EncodeField(f), rest);
      HoldsParts(buffer, cursor, header, EncodePayload(f));
      MatchWritten(buffer, cursor, num * 8 + wire, f.num * 8 + WireType(f.value));
      TagsDiffer(f, num, wire);
      if f.num == num && WireType(f.value) == wire {
        PayloadWritten(buffer, cursor + |header|, f);
        CountWritten(buffer, cursor + |EncodeField(f)|, fs[1..], num, wire);
      }
    }
  }

  /** How many leading fields a `nextField`/`skipField` loop finds before another header or the end. */
  function LoopCount(bytes: seq<byte>, st: State, num: int, wire: int): nat
    decreases Remaining(bytes, st.cursor)
  {
    match NextField(bytes, st)
    case Err(_) => 0
    case Ok(next) =>
      if !next.0 || next.1.field != num || next.1.wire != wire then 0
      else
        NextFieldProgress(bytes, st);
        match SkipField(bytes, next.1)
        case Err(_) => 1
        case Ok(after) => if after.cursor <= st.cursor then 1 else 1 + LoopCount(bytes, after, num, wire)
  }

  lemma LoopCountWritten(bytes: seq<byte>, st: State, fs: seq<Field>, num: nat, wire: nat)
    requires Countable(wire) && AllWritable(fs) && 0 <= st.cursor
    requires Holds(bytes, st.cursor, EncodeFields(fs)) && st.end == st.cursor + |EncodeFields(fs)|
    ensures LoopCount(bytes, st, num, wire) == Leading(fs, num, wire)
    decreases |fs|
  {
    hide EncodePayload, SkipField, NextField, Holds, Writable, Header;
    if fs == [] {
      AtEndOfBlock(bytes, st);
    } else {
      var f, rest := fs[0], EncodeFields(fs[1..]);
      var header := Header(f.num, WireType(f.value));
      HoldsParts(bytes, st.cursor, EncodeField(f), rest);
      HoldsParts(bytes, st.cursor, header, EncodePayload(f));
      FieldNumber(f);
      NextHeader(bytes, st, f.num, WireType(f.value));
      HeaderNotEmpty(f.num, WireType(f.value));
      if f.num == num && WireType(f.value) == wire {
        var inside := State(st.cursor + |header|, st.end, f.num, WireType(f.value));
        var after := SkipBack(f, bytes, inside);
        LoopCountWritten(bytes, after, fs[1..], num, wire);
      }
    }
  }

  /** Two fields that a counter with a bad tag counts wrongly. */
  function Sample(num: nat, wire: nat): Field {
    Field(num, if wire == VARINT then UInt32(0)
               else if wire == FIXED32 then Fixed32Word(0)
               else if wire == FIXED64 then FixedHash([0, 0, 0, 0, 0, 0, 0, 0])
               else Bytes([0]))
  }

  /** The encoding of the sample behind its header. */
  lemma SamplePayload(num: nat, wire: nat)
    requires Countable(wire)
    ensures WireType(Sample(num, wire).value) == wire
    ensures EncodePayload(Sample(num, wire))
            == if wire == VARINT then [0] else if wire == FIXED32 then [0, 0, 0, 0]
               else if wire == FIXED64 then [0, 0, 0, 0, 0, 0, 0, 0] else [1, 0]
  {
  }

  lemma NoMatchAtZero(buffer: seq<byte>, cursor: nat, tag: nat)
    requires tag >= 128 && cursor < |buffer| && buffer[cursor] == 0
    ensures MatchTag(buffer, cursor, tag) == None
  {
  }

  /** Behind a header matched one byte short, the counter stops on a zero byte of the payload. */
  lemma ShortPayload(buffer: seq<byte>, cursor: nat, num: nat, wire: nat)
    requires Countable(wire) && cursor < |buffer| && buffer[cursor] == 1
    requires Holds(buffer, cursor + 1, EncodePayload(Sample(num, wire)))
    ensures var next := PayloadEnd(buffer, cursor, wire);
      next <= cursor + |EncodePayload(Sample(num, wire))| && 0 <= next < |buffer| && buffer[next] == 0
  {
    SamplePayload(num, wire);
    var payload := EncodePayload(Sample(num, wire));
    forall k | 0 <= k < |payload|
      ensures buffer[cursor + 1 + k] == payload[k]
    {
      assert buffer[cursor + 1 + k] == buffer[cursor + 1..cursor + 1 + |payload|][k];
    }
    if wire == DELIMITED {
      assert Slice(buffer, cursor, 1) == [1] + Slice(buffer, cursor + 1, 0) == [1];
      assert [1 as byte][1..] == [];
      assert Varints.Value([1]) == 1;
    }
  }

  /** A counter with a bad tag counts one field where there are two, or none. */
  lemma CountWrong(num: nat, wire: nat)
    requires 1 <= num < 0x2000_0000 && Countable(wire) && !GoodTag(num * 8 + wire)
    ensures var fs := [Sample(num, wire), Sample(num, wire)];
      && AllWritable(fs) && Leading(fs, num, wire) == 2
      && CountFields(EncodeFields(fs), 0, |EncodeFields(fs)|, num * 8 + wire, wire) < 2
  {
    hide Varint, MatchTag, PayloadEnd, EncodePayload, StopsEarly, Holds;
    var f := Sample(num, wire);
    var fs := [f, f];
    var tag := num * 8 + wire;
    SamplePayload(num, wire);
    SampleWritable(num, wire);
    var buffer := EncodeFields(fs);
    assert buffer[0..|buffer|] == buffer && Holds(buffer, 0, buffer) by { HoldsAll(buffer); }
    assert buffer == EncodeField(f) + EncodeFields([f]);
    var payload := EncodePayload(f);
    HoldsParts(buffer, 0, EncodeField(f), EncodeFields([f]));
    HoldsParts(buffer, 0, Varint(tag), payload);
    if tag >= TWO_TO_31 {
      MatchNegative(buffer, 0, tag);
    } else {
      MatchShort(buffer, 0, tag);
      StopsEarlyLarge(tag);
      var cursor := |Varint(tag)| - 1;
      ShortPayload(buffer, cursor, num, wire);
      NoMatchAtZero(buffer, PayloadEnd(buffer, cursor, wire), tag);
    }
  }

  lemma HoldsAll(buffer: seq<byte>)
    ensures Holds(buffer, 0, buffer)
  {
  }

  lemma StopsEarlyLarge(tag: nat)
    requires StopsEarly(tag)
    ensures tag >= 128
  {
  }

  lemma SampleWritable(num: nat, wire: nat)
    requires 1 <= num < 0x2000_0000 && Countable(wire)
    ensures var f := Sample(num, wire); AllWritable([f, f]) && Leading([f, f], num, wire) == 2
    ensures var f := Sample(num, wire); EncodeFields([f, f]) == EncodeField(f) + EncodeFields([f])
  {
    hide EncodeField;
    var f := Sample(num, wire);
    assert Writable(f);
    assert [f, f][1..] == [f] && [f][1..] == [];
    assert AllWritable([f]);
    assert Leading([f], num, wire) == 1;
  }

  /** A field counter agrees with the reader loop on every message exactly for the good tags. */
  lemma CountersExact(num: nat, wire: nat)
    requires 1 <= num < 0x2000_0000 && Countable(wire)
    ensures GoodTag(num * 8 + wire) <==>
            forall fs: seq<Field> :: AllWritable(fs) ==>
              CountFields(EncodeFields(fs), 0, |EncodeFields(fs)|, num * 8 + wire, wire)
              == LoopCount(EncodeFields(fs), State(0, |EncodeFields(fs)|, -1, -1), num, wire)
  {
    hide CountFields, LoopCount, GoodTag, AllWritable, EncodeFields, Leading, Holds;
    forall fs: seq<Field> | AllWritable(fs)
      ensures LoopCount(EncodeFields(fs), State(0, |EncodeFields(fs)|, -1, -1), num, wire) == Leading(fs, num, wire)
    {
      HoldsAll(EncodeFields(fs));
      LoopCountWritten(EncodeFields(fs), State(0, |EncodeFields(fs)|, -1, -1), fs, num, wire);
    }
    if GoodTag(num * 8 + wire) {
      forall fs: seq<Field> | AllWritable(fs)
        ensures CountFields(EncodeFields(fs), 0, |EncodeFields(fs)|, num * 8 + wire, wire) == Leading(fs, num, wire)
      {
        HoldsAll(EncodeFields(fs));
        CountWritten(EncodeFields(fs), 0, fs, num, wire);
      }
    } else {
      CountWrong(num, wire);
    }
  }

  // ----- skipMatchingFields -----

  /** What is left behind the leading fields with a number. */
  function AfterRun(fs: seq<Field>, num: nat): seq<Field> {
    if fs == [] || fs[0].num != num then fs else AfterRun(fs[1..], num)
  }

  ghost predicate RunSkippable(fs: seq<Field>, num: nat) {
    fs == [] || fs[0].num != num || (Skippable(fs[0]) && RunSkippable(fs[1..], num))
  }

  lemma RunEnds(fs: seq<Field>, num: nat)
    requires AllWritable(fs)
    ensures AllWritable(AfterRun(fs, num)) && |EncodeFields(AfterRun(fs, num))| <= |EncodeFields(fs)|
    ensures AfterRun(fs, num) == [] || AfterRun(fs, num)[0].num != num
    decreases |fs|
  {
    hide Writable, EncodeField;
    if fs != [] && fs[0].num == num {
      RunEnds(fs[1..], num);
    }
  }

  lemma PayloadNotEmpty(f: Field)
    requires Writable(f)
    ensures |EncodePayload(f)| > 0
  {
    hide Varint, AllWritable, EncodeFields, Utf8.Encode, SignedVarints, SignExtend, Zigzag, HashValue, TextNumber, Words32;
  }

  lemma SkipRunWritten(bytes: seq<byte>, st: State, fs: seq<Field>, num: nat) returns (last: State)
    requires AllWritable(fs) && RunSkippable(fs, num) && 0 <= st.cursor
    requires Holds(bytes, st.cursor, EncodeFields(fs)) && st.end == st.cursor + |EncodeFields(fs)|
    ensures SkipRun(bytes, st, num) == Ok(last) && last.end == st.end
    ensures var rest := AfterRun(fs, num);
      if rest == [] then last.cursor == st.end
      else last.cursor == st.end - |EncodeFields(rest)| + |Header(rest[0].num, WireType(rest[0].value))|
           && last.field == rest[0].num && last.wire == WireType(rest[0].value)
    decreases |fs|
  {
    hide EncodePayload, SkipField, NextField, Holds, Writable, Header;
    if fs == [] {
      AtEndOfBlock(bytes, st);
      last := st;
    } else {
      var f, rest := fs[0], EncodeFields(fs[1..]);
      var header := Header(f.num, WireType(f.value));
      HoldsParts(bytes, st.cursor, EncodeField(f), rest);
      HoldsParts(bytes, st.cursor, header, EncodePayload(f));
      FieldNumber(f);
      NextHeader(bytes, st, f.num, WireType(f.value));
      HeaderNotEmpty(f.num, WireType(f.value));
      last := State(st.cursor + |header|, st.end, f.num, WireType(f.value));
      if f.num == num {
        var after := SkipBack(f, bytes, last);
        last := SkipRunWritten(bytes, after, fs[1..], num);
      }
    }
  }

  /** After the header of the first field has been read, `skipMatchingFields` goes to the start of the
      first field with another number, if both headers have good tags. */
  lemma SkipMatchingWritten(bytes: seq<byte>, st: State, fs: seq<Field>) returns (next: State)
    requires fs != [] && AllWritable(fs) && RunSkippable(fs, fs[0].num) && 0 <= st.cursor
    requires Holds(bytes, st.cursor, EncodeFields(fs)) && st.end == st.cursor + |EncodeFields(fs)|
    requires GoodTag(fs[0].num * 8 + WireType(fs[0].value))
    requires var rest := AfterRun(fs, fs[0].num); rest != [] ==> GoodTag(rest[0].num * 8 + WireType(rest[0].value))
    ensures NextField(bytes, st).Ok? && SkipMatching(bytes, NextField(bytes, st).value.1) == Ok(next)
    ensures next.cursor == st.end - |EncodeFields(AfterRun(fs, fs[0].num))| && next.end == st.end
  {
    hide EncodePayload, NextField, SkipRun, Holds, Writable, Header, UnskipHeader, GoodTag, AfterRun, RunSkippable, AllWritable;
    var f := fs[0];
    var rest := AfterRun(fs, f.num);
    var inside := FirstHeader(bytes, st, fs);
    UnskipHeaderExact(inside, f.num, WireType(f.value));
    var back := UnskipHeader(inside);
    SameCursorEnd(inside);
    SameRun(bytes, st, back, f.num);
    var last := SkipRunWritten(bytes, st, fs, f.num);
    next := last;
    if rest != [] {
      RunEnds(fs, f.num);
      RestHeader(rest);
      UnskipHeaderExact(last, rest[0].num, WireType(rest[0].value));
      next := UnskipHeader(last);
      SameCursorEnd(last);
    }
  }

  /** Moving back over a bad tag ends inside it, at the encoding of one of its quotients. */
  lemma BadTagUnskip(tag: nat) returns (front: seq<byte>, q: nat)
    requires tag < TWO_TO_32 && !GoodTag(tag)
    ensures 128 <= tag && q <= tag / 128 && Varint(tag) == front + Varint(q)
    ensures UnskipLength(ToInt32(tag)) == |Varint(q)|
  {
    hide Varint, Quotient, UnskipLength, ToInt32;
    if tag < TWO_TO_31 {
      StopsEarlyLarge(tag);
      UnskipExact(tag);
      StopsEarlyMeans(tag);
      VarintStep(tag);
      front, q := [tag % 128 + 128], tag / 128;
    } else {
      var a, b, c: nat := tag / 128, tag / 128 / 128, tag / 128 / 128 / 128;
      q := c / 128;
      front := [tag % 128 + 128, a % 128 + 128, b % 128 + 128, c % 128 + 128];
      VarintStep(tag);
      VarintStep(a);
      VarintStep(b);
      VarintStep(c);
      assert Varint(q) == [q] by { ShortTail(q); }
      assert ToInt32(tag) <= 128 by { NegativeTag(tag); }
      NegativeUnskip(ToInt32(tag));
    }
  }

  lemma ShortTail(q: nat)
    requires q < 128
    ensures Varint(q) == [q]
  {
  }

  lemma NegativeTag(tag: nat)
    requires TWO_TO_31 <= tag < TWO_TO_32
    ensures ToInt32(tag) < 0
  {
  }

  /** From inside a bad tag the loop reads another header and stops at once, so the reader ends before the
      first payload. */
  lemma BadTagSkipsNothing(bytes: seq<byte>, inside: State)
    requires 0 <= inside.field < 0x2000_0000 && 0 <= inside.wire <= 5 && !GoodTag(inside.field * 8 + inside.wire)
    requires var header := Header(inside.field, inside.wire);
      |header| <= inside.cursor < inside.end && Holds(bytes, inside.cursor - |header|, header)
    ensures SkipMatching(bytes, inside).Ok? ==> SkipMatching(bytes, inside).value.cursor < inside.cursor
  {
    hide Varint, UnskipLength, ToInt32, Varint32, Holds;
    var tag := inside.field * 8 + inside.wire;
    var front, q := BadTagUnskip(tag);
    HoldsParts(bytes, inside.cursor - |Varint(tag)|, front, Varint(q));
    var back := UnskipHeader(inside);
    assert back.cursor == inside.cursor - |Varint(q)|;
    ReadUnsigned(bytes, back.cursor, back.end, q);
    if q % 8 <= 5 {
      var last := State(inside.cursor, inside.end, q / 8, q % 8);
      assert NextField(bytes, back) == Ok((true, last));
      assert UnskipLength(ToInt32(q)) >= 1 by { UnskipSome(ToInt32(q)); }
    }
  }

  lemma UnskipSome(v: int)
    ensures UnskipLength(v) >= 1
  {
  }

  /** It goes there exactly when both headers have good tags. */
  lemma SkipMatchingExact(bytes: seq<byte>, st: State, fs: seq<Field>)
    requires fs != [] && AllWritable(fs) && RunSkippable(fs, fs[0].num) && 0 <= st.cursor
    requires Holds(bytes, st.cursor, EncodeFields(fs)) && st.end == st.cursor + |EncodeFields(fs)|
    ensures NextField(bytes, st).Ok?
    ensures var rest := AfterRun(fs, fs[0].num);
      var skipped := SkipMatching(bytes, NextField(bytes, st).value.1);
      skipped.Ok? && skipped.value.cursor == st.end - |EncodeFields(rest)|
      <==> GoodTag(fs[0].num * 8 + WireType(fs[0].value))
           && (rest != [] ==> GoodTag(rest[0].num * 8 + WireType(rest[0].value)))
  {
    hide EncodePayload, NextField, SkipRun, Holds, Writable, Header, UnskipHeader, GoodTag, AfterRun, RunSkippable, AllWritable, SkipMatching;
    var f := fs[0];
    var rest := AfterRun(fs, f.num);
    var inside := FirstHeader(bytes, st, fs);
    if !GoodTag(f.num * 8 + WireType(f.value)) {
      FirstPayload(bytes, st, fs);
      BadTagSkipsNothing(bytes, inside);
    } else if rest != [] && !GoodTag(rest[0].num * 8 + WireType(rest[0].value)) {
      SkipBadRest(bytes, st, fs, inside);
    } else {
      var _ := SkipMatchingWritten(bytes, st, fs);
    }
  }

  lemma SkipBadRest(bytes: seq<byte>, st: State, fs: seq<Field>, inside: State)
    requires fs != [] && AllWritable(fs) && RunSkippable(fs, fs[0].num) && 0 <= st.cursor
    requires Holds(bytes, st.cursor, EncodeFields(fs)) && st.end == st.cursor + |EncodeFields(fs)|
    requires inside == State(st.cursor + |Header(fs[0].num, WireType(fs[0].value))|, st.end, fs[0].num, WireType(fs[0].value))
    requires st.cursor != st.end && fs[0].num < 0x2000_0000 && WireType(fs[0].value) <= 5
    requires GoodTag(fs[0].num * 8 + WireType(fs[0].value))
    requires var rest := AfterRun(fs, fs[0].num);
      rest != [] && !GoodTag(rest[0].num * 8 + WireType(rest[0].value))
    ensures SkipMatching(bytes, inside).Ok?
    ensures SkipMatching(bytes, inside).value.cursor != st.end - |EncodeFields(AfterRun(fs, fs[0].num))|
  {
    hide EncodePayload, NextField, SkipRun, Holds, Writable, Header, UnskipHeader, GoodTag, AfterRun, RunSkippable, AllWritable;
    var rest := AfterRun(fs, fs[0].num);
    UnskipHeaderExact(inside, fs[0].num, WireType(fs[0].value));
    SameCursorEnd(inside);
    SameRun(bytes, st, UnskipHeader(inside), fs[0].num);
    var last := SkipRunWritten(bytes, st, fs, fs[0].num);
    RunEnds(fs, fs[0].num);
    RestHeader(rest);
    UnskipHeaderExact(last, rest[0].num, WireType(rest[0].value));
  }

  /** The first payload lies between the first header and the fields behind the run. */
  lemma FirstPayload(bytes: seq<byte>, st: State, fs: seq<Field>)
    requires fs != [] && AllWritable(fs) && 0 <= st.cursor
    requires Holds(bytes, st.cursor, EncodeFields(fs)) && st.end == st.cursor + |EncodeFields(fs)|
    ensures var header := Header(fs[0].num, WireType(fs[0].value));
      && Holds(bytes, st.cursor, header)
      && st.cursor + |header| < st.end - |EncodeFields(AfterRun(fs, fs[0].num))|
  {
    hide EncodePayload, Holds, Header;
    var f := fs[0];
    HoldsParts(bytes, st.cursor, EncodeField(f), EncodeFields(fs[1..]));
    HoldsParts(bytes, st.cursor, Header(f.num, WireType(f.value)), EncodePayload(f));
    PayloadNotEmpty(f);
    RunEnds(fs[1..], f.num);
  }

  lemma FirstHeader(bytes: seq<byte>, st: State, fs: seq<Field>) returns (inside: State)
    requires fs != [] && AllWritable(fs) && 0 <= st.cursor
    requires Holds(bytes, st.cursor, EncodeFields(fs)) && st.end == st.cursor + |EncodeFields(fs)|
    ensures inside == State(st.cursor + |Header(fs[0].num, WireType(fs[0].value))|, st.end, fs[0].num, WireType(fs[0].value))
    ensures st.cursor != st.end && NextField(bytes, st) == Ok((true, inside)) && fs[0].num < 0x2000_0000 && WireType(fs[0].value) <= 5
  {
    hide EncodePayload, NextField, Holds, Header;
    var f := fs[0];
    inside := State(st.cursor + |Header(f.num, WireType(f.value))|, st.end, f.num, WireType(f.value));
    HoldsParts(bytes, st.cursor, EncodeField(f), EncodeFields(fs[1..]));
    HoldsParts(bytes, st.cursor, Header(f.num, WireType(f.value)), EncodePayload(f));
    FieldNumber(f);
    HeaderNotEmpty(f.num, WireType(f.value));
    NextHeader(bytes, st, f.num, WireType(f.value));
  }

  lemma RestHeader(rest: seq<Field>)
    requires rest != [] && AllWritable(rest)
    ensures rest[0].num < 0x2000_0000 && WireType(rest[0].value) <= 5
    ensures |EncodeFields(rest)| > |Header(rest[0].num, WireType(rest[0].value))|
  {
    hide Header, EncodePayload;
    FieldNumber(rest[0]);
    PayloadNotEmpty(rest[0]);
  }

  lemma SameCursorEnd(st: State)
    ensures UnskipHeader(st).end == st.end
  {
  }

  /** The run depends on the cursor and the end only. */
  lemma SameRun(bytes: seq<byte>, a: State, b: State, num: int)
    requires a.cursor == b.cursor && a.end == b.end && a.cursor != a.end
    ensures SkipRun(bytes, a, num) == SkipRun(bytes, b, num)
  {
  }
}
