/** What `skipGroup` makes of a group: everything inside is read as a header. */
module Skipping {
  import opened Js
  import opened Words
  import opened Varints
  import opened Arith
  import opened Utils
  import opened Decoder
  import opened Bookmarks
  import opened Wire
  import opened Parsing
  import Utf8

  // ----- headers and their brackets -----

  /** The header that `nextField` reads from a 64-bit varint: numbers below 2^32, and numbers whose upper
      half is all ones, when the wire type is valid. */
  function HeaderOf(n: nat): Option<nat> {
    var low := n % TWO_TO_32;
    if (n < TWO_TO_32 || n >= TWO_TO_64 - TWO_TO_32) && low % 8 <= 5 then Some(low) else None
  }

  /** The groups open behind some headers: start tags open groups, end tags must close the last one. */
  function Opened(ns: seq<nat>, opens: seq<int>): Option<seq<int>> {
    if ns == [] then Some(opens)
    else match HeaderOf(ns[0])
      case None => None
      case Some(tag) =>
        if tag % 8 == START_GROUP then Opened(ns[1..], opens + [tag / 8])
        else if tag % 8 != END_GROUP then Opened(ns[1..], opens)
        else if opens == [] || Last(opens) != tag / 8 then None
        else Opened(ns[1..], Front(opens))
  }

  /** Every number is a header, and start and end tags match. */
  predicate Balanced(ns: seq<nat>) {
    Opened(ns, []) == Some([])
  }

  lemma {:induction false} OpenedConcat(ms: seq<nat>, ns: seq<nat>, opens: seq<int>)
    ensures Opened(ms + ns, opens)
            == match Opened(ms, opens) case None => None case Some(after) => Opened(ns, after)
    decreases |ms|
  {
    hide HeaderOf;
    if ms == [] {
      assert ms + ns == ns;
    } else {
      assert (ms + ns)[1..] == ms[1..] + ns;
      match HeaderOf(ms[0])
      case None =>
      case Some(tag) =>
        OpenedConcat(ms[1..], ns, opens + [tag / 8]);
        OpenedConcat(ms[1..], ns, opens);
        if opens != [] {
          OpenedConcat(ms[1..], ns, Front(opens));
        }
    }
  }

  /** What is open underneath does not matter to balanced headers. */
  lemma {:induction false} OpenedOnTop(ns: seq<nat>, below: seq<int>, opens: seq<int>)
    requires Opened(ns, opens).Some?
    ensures Opened(ns, below + opens) == Some(below + Opened(ns, opens).value)
    decreases |ns|
  {
    hide HeaderOf;
    if ns != [] {
      var tag := HeaderOf(ns[0]).value;
      if tag % 8 == START_GROUP {
        assert below + opens + [tag / 8] == below + (opens + [tag / 8]);
        OpenedOnTop(ns[1..], below, opens + [tag / 8]);
      } else if tag % 8 != END_GROUP {
        OpenedOnTop(ns[1..], below, opens);
      } else {
        assert Last(below + opens) == Last(opens) && Front(below + opens) == below + Front(opens);
        OpenedOnTop(ns[1..], below, Front(opens));
      }
    }
  }

  lemma BalancedConcat(ms: seq<nat>, ns: seq<nat>)
    requires Balanced(ms) && Balanced(ns)
    ensures Balanced(ms + ns)
  {
    OpenedConcat(ms, ns, []);
  }

  /** Start tag, balanced headers, end tag. */
  lemma BalancedNested(num: nat, ns: seq<nat>)
    requires num < 0x2000_0000 && Balanced(ns)
    ensures Balanced([num * 8 + START_GROUP] + ns + [num * 8 + END_GROUP])
  {
    var start, end: seq<nat> := [num * 8 + START_GROUP], [num * 8 + END_GROUP];
    hide HeaderOf, Opened;
    TagsNested(num);
    assert [num] + [] == [num];
    OpenedOnTop(ns, [num], []);
    OpenedConcat(start, ns, []);
    OpenedConcat(start + ns, end, []);
  }

  lemma OpenedOne(n: nat, opens: seq<int>)
    ensures Opened([n], opens)
            == match HeaderOf(n)
               case None => None
               case Some(tag) =>
                 if tag % 8 == START_GROUP then Some(opens + [tag / 8])
                 else if tag % 8 != END_GROUP then Some(opens)
                 else if opens == [] || Last(opens) != tag / 8 then None
                 else Some(Front(opens))
  {
    hide HeaderOf;
    assert [n][1..] == [];
  }

  lemma TagsNested(num: nat)
    requires num < 0x2000_0000
    ensures Opened([num * 8 + START_GROUP], []) == Some([num]) && Opened([num * 8 + END_GROUP], [num]) == Some([])
  {
    StartOpens(num);
    EndCloses(num);
  }

  lemma StartOpens(num: nat)
    requires num < 0x2000_0000
    ensures Opened([num * 8 + START_GROUP], []) == Some([num])
  {
    hide HeaderOf, Opened;
    HeaderPlain(num * 8 + START_GROUP);
    OpenedOne(num * 8 + START_GROUP, []);
    assert [] + [num] == [num];
  }

  lemma EndCloses(num: nat)
    requires num < 0x2000_0000
    ensures Opened([num * 8 + END_GROUP], [num]) == Some([])
  {
    hide HeaderOf, Opened;
    HeaderPlain(num * 8 + END_GROUP);
    OpenedOne(num * 8 + END_GROUP, [num]);
    assert Front([num]) == [];
  }

  lemma HeaderPlain(tag: nat)
    requires tag < TWO_TO_32 && tag % 8 <= 5
    ensures HeaderOf(tag) == Some(tag)
  {
  }

  lemma BalancedOne(n: nat)
    ensures Balanced([n]) <==> HeaderOf(n).Some? && n % 8 != START_GROUP && n % 8 != END_GROUP
  {
    OpenedOne(n, []);
    ModOfMultiple(n, 0x2000_0000, 8);
  }

  // ----- any bytes: skipGroup matches the headers that nextField finds -----

  /** The states behind headers that `nextField` finds one after another. */
  ghost predicate Steps(bytes: seq<byte>, st: State, hs: seq<State>)
    decreases |hs|
  {
    hs == [] || (NextField(bytes, st) == Ok((true, hs[0])) && Steps(bytes, hs[0], hs[1..]))
  }

  function TagsOf(hs: seq<State>): seq<nat> {
    if hs == [] then []
    else [if hs[0].field >= 0 && hs[0].wire >= 0 then hs[0].field * 8 + hs[0].wire else 0] + TagsOf(hs[1..])
  }

  /** Balanced headers lie between `st` and the end tag of group `num` that leads to `next`. */
  ghost predicate Closes(bytes: seq<byte>, st: State, hs: seq<State>, next: State, num: int, opens: seq<int>) {
    Steps(bytes, st, hs + [next]) && Opened(TagsOf(hs), opens) == Some([]) && next.wire == END_GROUP && next.field == num
  }

  lemma HeaderTag(bytes: seq<byte>, st: State, h: State, hs: seq<State>)
    requires NextField(bytes, st) == Ok((true, h))
    ensures 0 <= h.field && 0 <= h.wire <= 5 && TagsOf([h] + hs)[0] == h.field * 8 + h.wire
    ensures HeaderOf(h.field * 8 + h.wire) == Some(h.field * 8 + h.wire)
    ensures TagsOf([h] + hs)[1..] == TagsOf(hs)
  {
    hide Varint32;
    NextFieldProgress(bytes, st);
    assert ([h] + hs)[1..] == hs;
  }

  lemma ClosesAtOnce(bytes: seq<byte>, st: State, h: State, num: int)
    requires NextField(bytes, st) == Ok((true, h)) && h.wire == END_GROUP && h.field == num
    ensures Closes(bytes, st, [], h, num, [])
  {
    hide NextField;
    var none: seq<State> := [];
    assert none + [h] == [h] && [h][1..] == none && Steps(bytes, h, none);
    assert TagsOf(none) == [] && Opened([], []) == Some([]);
  }

  lemma {:induction false} GroupCloses(bytes: seq<byte>, st: State, num: int, opens: seq<int>) returns (hs: seq<State>)
    requires SkipGroup(bytes, st, [num] + opens).Ok?
    ensures Closes(bytes, st, hs, SkipGroup(bytes, st, [num] + opens).value, num, opens)
    decreases Remaining(bytes, st.cursor)
  {
    hide NextField, HeaderOf;
    NextFieldProgress(bytes, st);
    var h := NextField(bytes, st).value.1;
    HeaderTag(bytes, st, h, []);
    var more := opens;
    if h.wire == START_GROUP {
      more := opens + [h.field];
      assert [num] + opens + [h.field] == [num] + more;
    } else if h.wire == END_GROUP {
      if opens == [] {
        ClosesAtOnce(bytes, st, h, num);
        assert [num] + opens == [num];
        return [];
      }
      more := Front(opens);
      assert ([num] + opens)[|opens|] == Last(opens) && ([num] + opens)[..|opens|] == [num] + more;
    }
    var rest := GroupCloses(bytes, h, num, more);
    hs := [h] + rest;
    HeaderTag(bytes, st, h, rest);
    var next := SkipGroup(bytes, st, [num] + opens).value;
    assert (hs + [next])[0] == h && (hs + [next])[1..] == rest + [next];
  }

  lemma {:induction false} ClosesGroup(bytes: seq<byte>, st: State, hs: seq<State>, next: State, num: int, opens: seq<int>)
    requires Closes(bytes, st, hs, next, num, opens)
    ensures SkipGroup(bytes, st, [num] + opens) == Ok(next)
    decreases |hs|
  {
    hide NextField, HeaderOf;
    var h := (hs + [next])[0];
    NextFieldProgress(bytes, st);
    if hs == [] {
      assert [num] + opens == [num];
    } else {
      var rest := hs[1..];
      assert hs == [h] + rest && (hs + [next])[1..] == rest + [next];
      HeaderTag(bytes, st, h, rest);
      if h.wire == START_GROUP {
        assert [num] + opens + [h.field] == [num] + (opens + [h.field]);
        ClosesGroup(bytes, h, rest, next, num, opens + [h.field]);
      } else if h.wire != END_GROUP {
        ClosesGroup(bytes, h, rest, next, num, opens);
      } else {
        assert ([num] + opens)[|opens|] == Last(opens) && ([num] + opens)[..|opens|] == [num] + Front(opens);
        ClosesGroup(bytes, h, rest, next, num, Front(opens));
      }
    }
  }

  /** On all bytes: `skipGroup` succeeds exactly when the headers that `nextField` finds one after another
      are balanced up to an end tag of the group, and it stops behind that tag. */
  lemma SkipGroupExact(bytes: seq<byte>, st: State, num: int, next: State)
    ensures SkipGroup(bytes, st, [num]) == Ok(next) <==> exists hs :: Closes(bytes, st, hs, next, num, [])
  {
    assert [num] + [] == [num];
    if SkipGroup(bytes, st, [num]) == Ok(next) {
      var hs := GroupCloses(bytes, st, num, []);
    }
    if hs :| Closes(bytes, st, hs, next, num, []) {
      ClosesGroup(bytes, st, hs, next, num, []);
    }
  }

  // ----- written groups of varint fields and groups -----

  /** Varint fields, and groups of such fields to any depth. */
  ghost predicate OnVarints(fs: seq<Field>)
    decreases fs, 1
  {
    fs == [] || (VarintField(fs[0]) && OnVarints(fs[1..]))
  }

  ghost predicate VarintField(f: Field)
    decreases f, 0
  {
    if f.value.Group? then OnVarints(f.value.fields) else WireType(f.value) == VARINT
  }

  /** The number that the payload of a varint field encodes. */
  function PayloadNumber(v: Value): nat
    requires WireType(v) == VARINT
  {
    match v
    case UInt32(n) => Unsigned32(n)
    case Int32(n) => SignExtend(Signed32(n))
    case SInt32(n) => Zigzag(Signed32(n))
    case Enum(n) => SignExtend(Signed32(n))
    case Int64Text(text) => TextNumber(text)
    case VarintHash(hash) => HashValue(hash)
  }

  /** All numbers on the wire, headers and payloads alike. */
  ghost function Numbers(fs: seq<Field>): seq<nat>
    requires OnVarints(fs)
    decreases fs, 1
  {
    if fs == [] then [] else FieldNumbers(fs[0]) + Numbers(fs[1..])
  }

  ghost function FieldNumbers(f: Field): seq<nat>
    requires VarintField(f)
    decreases f, 0
  {
    if f.value.Group? then [f.num * 8 + START_GROUP] + Numbers(f.value.fields) + [f.num * 8 + END_GROUP]
    else [f.num * 8 + VARINT, PayloadNumber(f.value)]
  }

  function VarintBytes(ns: seq<nat>): seq<byte> {
    if ns == [] then [] else Varint(ns[0]) + VarintBytes(ns[1..])
  }

  lemma {:induction false} VarintBytesConcat(ms: seq<nat>, ns: seq<nat>)
    ensures VarintBytes(ms + ns) == VarintBytes(ms) + VarintBytes(ns)
  {
    hide Varint;
    if ms == [] {
      assert ms + ns == ns;
    } else {
      assert (ms + ns)[1..] == ms[1..] + ns;
      VarintBytesConcat(ms[1..], ns);
    }
  }

  lemma VarintBytesOne(n: nat)
    ensures VarintBytes([n]) == Varint(n)
  {
    hide Varint;
    assert [n][1..] == [] && VarintBytes([]) == [];
  }

  ghost predicate Small(ns: seq<nat>) {
    forall i :: 0 <= i < |ns| ==> ns[i] < TWO_TO_64
  }

  lemma PayloadWritten(f: Field)
    requires Writable(f) && WireType(f.value) == VARINT
    ensures EncodePayload(f) == Varint(PayloadNumber(f.value)) && PayloadNumber(f.value) < TWO_TO_64
  {
    hide Varint, SignExtend, HashValue, TextNumber;
    if f.value.VarintHash? {
      HashSmall(f.value.hash);
    }
  }

  lemma HashSmall(hash: seq<byte>)
    requires |hash| == 8
    ensures HashValue(hash) < TWO_TO_64
  {
    HashHalves(hash);
  }

  /** The encoding of such fields is the encoding of their numbers. */
  lemma {:induction false} NumbersWritten(fs: seq<Field>)
    requires AllWritable(fs) && OnVarints(fs)
    ensures EncodeFields(fs) == VarintBytes(Numbers(fs)) && Small(Numbers(fs))
    decreases fs, 1
  {
    hide EncodeField, VarintBytes, FieldNumbers, VarintField, Writable;
    if fs != [] {
      FieldNumbersWritten(fs[0]);
      NumbersWritten(fs[1..]);
      VarintBytesConcat(FieldNumbers(fs[0]), Numbers(fs[1..]));
    } else {
      assert VarintBytes([]) == [] by { NoVarints(); }
    }
  }

  lemma NoVarints()
    ensures VarintBytes([]) == []
  {
  }

  lemma {:induction false} FieldNumbersWritten(f: Field)
    requires Writable(f) && VarintField(f)
    ensures EncodeField(f) == VarintBytes(FieldNumbers(f)) && Small(FieldNumbers(f))
    decreases f, 0
  {
    hide EncodeFields, VarintBytes, Varint, PayloadNumber, EncodeScalar, AllWritable, OnVarints;
    if f.value.Group? {
      var start, ns: seq<nat>, end: seq<nat> := [f.num * 8 + START_GROUP], Numbers(f.value.fields), [f.num * 8 + END_GROUP];
      NumbersWritten(f.value.fields);
      VarintBytesOne(f.num * 8 + START_GROUP);
      VarintBytesOne(f.num * 8 + END_GROUP);
      VarintBytesConcat(start + ns, end);
      VarintBytesConcat(start, ns);
      assert Header(f.num, START_GROUP) + (EncodeFields(f.value.fields) + Header(f.num, END_GROUP))
          == Header(f.num, START_GROUP) + EncodeFields(f.value.fields) + Header(f.num, END_GROUP);
    } else {
      PayloadWritten(f);
      var header, payload := f.num * 8 + VARINT, PayloadNumber(f.value);
      VarintBytesOne(header);
      VarintBytesOne(payload);
      assert [header, payload] == [header] + [payload];
      VarintBytesConcat([header], [payload]);
    }
  }

  /** `nextField` on any 64-bit varint. */
  lemma NumberRead(bytes: seq<byte>, st: State, n: nat)
    requires n < TWO_TO_64 && 0 <= st.cursor && Holds(bytes, st.cursor, Varint(n))
    requires st.cursor + |Varint(n)| <= st.end
    ensures match HeaderOf(n)
      case Some(tag) => NextField(bytes, st) == Ok((true, State(st.cursor + |Varint(n)|, st.end, tag / 8, tag % 8)))
      case None => NextField(bytes, st).Err?
  {
    hide Varint32, Varint;
    if n < TWO_TO_32 {
      ReadUnsigned(bytes, st.cursor, st.end, n);
    } else if n < TWO_TO_64 - TWO_TO_32 {
      ReadTooLarge(bytes, st.cursor, st.end, n);
    } else {
      ReadHighOnes(bytes, st.cursor, st.end, n);
      LowWord(n);
    }
  }

  lemma LowWord(n: nat)
    ensures ToUint32(ToInt32(n % 0x8_0000_0000)) == n % TWO_TO_32
  {
    ToUint32OfToInt32(n % 0x8_0000_0000);
    ModOfMultiple(n, 8, TWO_TO_32);
  }

  lemma FirstNumber(bytes: seq<byte>, st: State, ns: seq<nat>)
    requires ns != [] && Small(ns) && 0 <= st.cursor && Holds(bytes, st.cursor, VarintBytes(ns))
    ensures Holds(bytes, st.cursor, Varint(ns[0])) && Holds(bytes, st.cursor + |Varint(ns[0])|, VarintBytes(ns[1..]))
    ensures Small(ns[1..]) && |VarintBytes(ns)| == |Varint(ns[0])| + |VarintBytes(ns[1..])|
  {
    hide Varint;
    Utf8.HoldsConcat(bytes, st.cursor, Varint(ns[0]), VarintBytes(ns[1..]));
  }

  /** Reading numbers as headers moves `skipGroup` behind them, with the groups they leave open. */
  lemma {:induction false} NumbersPassed(bytes: seq<byte>, st: State, ns: seq<nat>, num: int, opens: seq<int>) returns (next: State)
    requires Small(ns) && 0 <= st.cursor && Holds(bytes, st.cursor, VarintBytes(ns))
    requires st.cursor + |VarintBytes(ns)| <= st.end && Opened(ns, opens).Some?
    ensures SkipGroup(bytes, st, [num] + opens) == SkipGroup(bytes, next, [num] + Opened(ns, opens).value)
    ensures next.cursor == st.cursor + |VarintBytes(ns)| && next.end == st.end
    decreases |ns|
  {
    hide NextField, HeaderOf, Varint, Holds, Small;
    if ns == [] {
      return st;
    }
    FirstNumber(bytes, st, ns);
    assert ns[0] < TWO_TO_64 by { SmallFirst(ns); }
    NumberRead(bytes, st, ns[0]);
    var tag := HeaderOf(ns[0]).value;
    var inside := State(st.cursor + |Varint(ns[0])|, st.end, tag / 8, tag % 8);
    var after := opens;
    if tag % 8 == START_GROUP {
      after := opens + [tag / 8];
      assert [num] + opens + [tag / 8] == [num] + after;
    } else if tag % 8 == END_GROUP {
      after := Front(opens);
      assert ([num] + opens)[|opens|] == Last(opens) && ([num] + opens)[..|opens|] == [num] + after;
    }
    next := NumbersPassed(bytes, inside, ns[1..], num, after);
  }

  lemma SmallFirst(ns: seq<nat>)
    requires ns != [] && Small(ns)
    ensures ns[0] < TWO_TO_64
  {
  }

  /** Among numbers, `skipGroup` stops behind an end tag of its group with balanced headers before it. */
  lemma {:induction false} GroupStops(bytes: seq<byte>, st: State, ns: seq<nat>, num: int, opens: seq<int>) returns (k: nat)
    requires Small(ns) && 0 <= st.cursor && Holds(bytes, st.cursor, VarintBytes(ns))
    requires st.cursor + |VarintBytes(ns)| == st.end && SkipGroup(bytes, st, [num] + opens).Ok?
    ensures k < |ns| && Opened(ns[..k], opens) == Some([]) && HeaderOf(ns[k]).Some?
    ensures HeaderOf(ns[k]).value == num * 8 + END_GROUP
    ensures SkipGroup(bytes, st, [num] + opens).value == State(st.cursor + |VarintBytes(ns[..k + 1])|, st.end, num, END_GROUP)
    decreases |ns|
  {
    hide NextField, HeaderOf, Varint, Holds, Small;
    if ns == [] {
      AtEndOfBlock(bytes, st);
      assert false;
    }
    FirstNumber(bytes, st, ns);
    assert ns[0] < TWO_TO_64 by { SmallFirst(ns); }
    NumberRead(bytes, st, ns[0]);
    var tag := HeaderOf(ns[0]).value;
    var inside := State(st.cursor + |Varint(ns[0])|, st.end, tag / 8, tag % 8);
    var after := opens;
    if tag % 8 == START_GROUP {
      after := opens + [tag / 8];
      assert [num] + opens + [tag / 8] == [num] + after;
    } else if tag % 8 == END_GROUP {
      if opens == [] {
        assert ns[..1] == [ns[0]] && ns[..0] == [];
        VarintBytesOne(ns[0]);
        return 0;
      }
      after := Front(opens);
      assert ([num] + opens)[|opens|] == Last(opens) && ([num] + opens)[..|opens|] == [num] + after;
    }
    var j := GroupStops(bytes, inside, ns[1..], num, after);
    k := j + 1;
    assert ns[..k][1..] == ns[1..][..j] && ns[..k + 1][1..] == ns[1..][..j + 1];
  }

  // ----- when a written group is skipped -----

  /** The outcome of skipping a written group of varint fields and groups: `skipGroup` stops behind the
      k-th number exactly when the numbers before it are balanced as headers and it is the end tag. */
  lemma WrittenGroupStops(num: nat, fs: seq<Field>, k: nat)
    requires num < 0x2000_0000 && AllWritable(fs) && OnVarints(fs) && k <= |Numbers(fs)|
    ensures var bytes, ns := EncodePayload(Field(num, Group(fs))), Numbers(fs) + [num * 8 + END_GROUP];
      SkipField(bytes, State(0, |bytes|, num, START_GROUP)) == Ok(State(|VarintBytes(ns[..k + 1])|, |bytes|, num, END_GROUP))
      <==> Balanced(ns[..k]) && HeaderOf(ns[k]) == Some(num * 8 + END_GROUP)
  {
    hide EncodeFields, VarintBytes, Varint, Numbers, AllWritable, OnVarints, NextField, HeaderOf, SkipGroup;
    var ns := Numbers(fs) + [num * 8 + END_GROUP];
    var bytes := GroupBytes(num, fs);
    var st := State(0, |bytes|, num, START_GROUP);
    var goal := State(|VarintBytes(ns[..k + 1])|, |bytes|, num, END_GROUP);
    assert [num] + [] == [num];
    if SkipGroup(bytes, st, [num]) == Ok(goal) {
      var j := GroupStops(bytes, st, ns, num, []);
      SameLength(ns, j + 1, k + 1);
    }
    if Balanced(ns[..k]) && HeaderOf(ns[k]) == Some(num * 8 + END_GROUP) {
      StopsBehind(bytes, st, ns, k, num);
    }
  }

  lemma StopsBehind(bytes: seq<byte>, st: State, ns: seq<nat>, k: nat, num: nat)
    requires Small(ns) && 0 <= st.cursor && Holds(bytes, st.cursor, VarintBytes(ns))
    requires st.cursor + |VarintBytes(ns)| <= st.end && k < |ns|
    requires Balanced(ns[..k]) && HeaderOf(ns[k]) == Some(num * 8 + END_GROUP)
    ensures SkipGroup(bytes, st, [num]) == Ok(State(st.cursor + |VarintBytes(ns[..k + 1])|, st.end, num, END_GROUP))
  {
    hide VarintBytes, Varint, NextField, HeaderOf, Opened;
    assert ns == ns[..k] + ([ns[k]] + ns[k + 1..]) && ns[..k + 1] == ns[..k] + [ns[k]];
    VarintBytesConcat(ns[..k], [ns[k]] + ns[k + 1..]);
    VarintBytesConcat([ns[k]], ns[k + 1..]);
    VarintBytesConcat(ns[..k], [ns[k]]);
    VarintBytesOne(ns[k]);
    Utf8.HoldsConcat(bytes, st.cursor, VarintBytes(ns[..k]), Varint(ns[k]) + VarintBytes(ns[k + 1..]));
    Utf8.HoldsConcat(bytes, st.cursor + |VarintBytes(ns[..k])|, Varint(ns[k]), VarintBytes(ns[k + 1..]));
    var last := NumbersPassed(bytes, st, ns[..k], num, []);
    assert [num] + [] == [num];
    NumberRead(bytes, last, ns[k]);
  }

  lemma GroupBytes(num: nat, fs: seq<Field>) returns (bytes: seq<byte>)
    requires num < 0x2000_0000 && AllWritable(fs) && OnVarints(fs)
    ensures bytes == EncodePayload(Field(num, Group(fs)))
    ensures bytes == VarintBytes(Numbers(fs) + [num * 8 + END_GROUP])
    ensures Small(Numbers(fs) + [num * 8 + END_GROUP]) && Holds(bytes, 0, bytes)
  {
    hide EncodeFields, VarintBytes, Varint, Numbers, AllWritable, OnVarints;
    NumbersWritten(fs);
    VarintBytesConcat(Numbers(fs), [num * 8 + END_GROUP]);
    VarintBytesOne(num * 8 + END_GROUP);
    bytes := EncodePayload(Field(num, Group(fs)));
    assert bytes[0..|bytes|] == bytes;
  }

  lemma {:induction false} SameLength(ns: seq<nat>, j: nat, k: nat)
    requires j <= |ns| && k <= |ns| && |VarintBytes(ns[..j])| == |VarintBytes(ns[..k])|
    ensures j == k
  {
    hide Varint;
    if j < k {
      Longer(ns, j, k);
    } else if k < j {
      Longer(ns, k, j);
    }
  }

  lemma Longer(ns: seq<nat>, j: nat, k: nat)
    requires j < k <= |ns|
    ensures |VarintBytes(ns[..j])| < |VarintBytes(ns[..k])|
  {
    hide Varint;
    assert ns[..k] == ns[..j] + ns[j..k];
    VarintBytesConcat(ns[..j], ns[j..k]);
  }

  /** `skipGroup` lands behind a written group exactly when all numbers inside, headers and payloads
      alike, are balanced as headers. */
  lemma GroupSkipped(num: nat, fs: seq<Field>)
    requires num < 0x2000_0000 && AllWritable(fs) && OnVarints(fs)
    ensures var bytes := EncodePayload(Field(num, Group(fs)));
      SkipField(bytes, State(0, |bytes|, num, START_GROUP)).Ok?
      && SkipField(bytes, State(0, |bytes|, num, START_GROUP)).value.cursor == |bytes|
      <==> Balanced(Numbers(fs))
  {
    hide EncodeFields, VarintBytes, Varint, Numbers, AllWritable, OnVarints, NextField, SkipGroup, Opened;
    var bytes := GroupBytes(num, fs);
    var st := State(0, |bytes|, num, START_GROUP);
    var ns := Numbers(fs) + [num * 8 + END_GROUP];
    var n := |Numbers(fs)|;
    assert ns[..n] == Numbers(fs) && ns[..n + 1] == ns && HeaderOf(ns[n]) == Some(num * 8 + END_GROUP);
    WrittenGroupStops(num, fs, n);
    assert [num] + [] == [num];
    if SkipGroup(bytes, st, [num]).Ok? {
      var j := GroupStops(bytes, st, ns, num, []);
      if SkipGroup(bytes, st, [num]).value.cursor == |bytes| {
        SameLength(ns, j + 1, n + 1);
      }
    }
  }

  /** It stops early, inside the group and without an error, exactly when some number inside reads as the
      group's end tag and the numbers before it are balanced. */
  lemma GroupStopsEarly(num: nat, fs: seq<Field>)
    requires num < 0x2000_0000 && AllWritable(fs) && OnVarints(fs)
    ensures var bytes := EncodePayload(Field(num, Group(fs)));
      SkipField(bytes, State(0, |bytes|, num, START_GROUP)).Ok?
      && SkipField(bytes, State(0, |bytes|, num, START_GROUP)).value.cursor < |bytes|
      <==> exists k :: 0 <= k < |Numbers(fs)| && Balanced(Numbers(fs)[..k])
                       && HeaderOf(Numbers(fs)[k]) == Some(num * 8 + END_GROUP)
  {
    hide EncodeFields, VarintBytes, Varint, Numbers, AllWritable, OnVarints, NextField, SkipGroup, Opened, HeaderOf;
    var bytes := GroupBytes(num, fs);
    var st := State(0, |bytes|, num, START_GROUP);
    var inner := Numbers(fs);
    var ns := inner + [num * 8 + END_GROUP];
    assert ns[..|ns|] == ns && [num] + [] == [num];
    forall k | 0 <= k < |inner| && Balanced(inner[..k]) && HeaderOf(inner[k]) == Some(num * 8 + END_GROUP)
      ensures SkipGroup(bytes, st, [num]).Ok? && SkipGroup(bytes, st, [num]).value.cursor < |bytes|
    {
      assert ns[..k] == inner[..k] && ns[k] == inner[k];
      WrittenGroupStops(num, fs, k);
      Longer(ns, k + 1, |ns|);
    }
    if SkipGroup(bytes, st, [num]).Ok? {
      var j := GroupStops(bytes, st, ns, num, []);
      if j < |inner| {
        assert ns[..j] == inner[..j] && ns[j] == inner[j];
      } else {
        assert ns[..j + 1] == ns;
      }
    }
  }

  // ----- what that means for small and for harmless groups -----

  /** A group with one varint field is skipped exactly when its value has one of the wire types 0, 1, 2
      and 5 in its last three bits, and is cut short in silence exactly when it is the group's end tag. */
  lemma OneVarintSkipped(num: nat, inner: nat, n: uint32)
    requires 1 <= num < 0x2000_0000 && 1 <= inner < 0x2000_0000
    ensures var bytes := EncodePayload(Field(num, Group([Field(inner, UInt32(n))])));
      var skipped := SkipField(bytes, State(0, |bytes|, num, START_GROUP));
      && (skipped.Ok? && skipped.value.cursor == |bytes| <==> n % 8 in {0, 1, 2, 5})
      && (skipped.Ok? && skipped.value.cursor < |bytes| <==> n == num * 8 + END_GROUP)
  {
    hide SkipField, EncodePayload, Opened;
    var f := Field(inner, UInt32(n));
    OneNumbers(inner, n);
    GroupSkipped(num, [f]);
    GroupStopsEarly(num, [f]);
    var ns := Numbers([f]);
    var header := inner * 8 + VARINT;
    assert ns[..0] == [] && ns[..1] == [header];
    BalancedOne(header);
    BalancedOne(n);
    assert Balanced([]) by { BalancedNothing(); }
    assert ns == [header] + [n];
    OpenedConcat([header], [n], []);
  }

  lemma BalancedNothing()
    ensures Balanced([])
  {
  }

  lemma PayloadOf(n: uint32)
    ensures PayloadNumber(UInt32(n)) == n
  {
  }

  lemma OneNumbers(inner: nat, n: uint32)
    requires 1 <= inner < 0x2000_0000
    ensures var fs := [Field(inner, UInt32(n))];
      AllWritable(fs) && OnVarints(fs) && Numbers(fs) == [inner * 8 + VARINT, n]
  {
    hide PayloadNumber;
    var f := Field(inner, UInt32(n));
    var none: seq<Field> := [];
    assert [f][1..] == none && AllWritable(none) && OnVarints(none) && Numbers(none) == [];
    assert Writable(f) && VarintField(f);
    assert PayloadNumber(f.value) == n by { PayloadOf(n); }
    assert Numbers([f]) == FieldNumbers(f) + Numbers(none);
  }

  /** The silent case: an unknown group whose only field holds the group's end tag as its value. Skipping
      returns without an error in the middle of the group, and the real end tag is still to come. */
  lemma SkipStopsEarly(num: nat, inner: nat)
    requires 1 <= num < 0x2000_0000 && 1 <= inner < 0x2000_0000
    ensures var bytes := EncodePayload(Field(num, Group([Field(inner, UInt32(num * 8 + END_GROUP))])));
      var skipped := SkipField(bytes, State(0, |bytes|, num, START_GROUP));
      skipped.Ok? && 0 <= skipped.value.cursor <= |bytes| && bytes[skipped.value.cursor..] == Header(num, END_GROUP)
  {
    hide EncodeFields, VarintBytes, Varint, NextField, SkipGroup, Opened, HeaderOf, Numbers;
    var n := num * 8 + END_GROUP;
    var fs := [Field(inner, UInt32(n))];
    OneVarintSkipped(num, inner, n);
    OneNumbers(inner, n);
    var bytes := GroupBytes(num, fs);
    var st := State(0, |bytes|, num, START_GROUP);
    var ns := Numbers(fs) + [n];
    assert [num] + [] == [num];
    var j := GroupStops(bytes, st, ns, num, []);
    HeaderPlain(inner * 8 + VARINT);
    assert ns[..3] == ns;
    assert j == 1;
    assert ns[..2] + [n] == ns;
    VarintBytesConcat(ns[..2], [n]);
    VarintBytesOne(n);
  }

  /** No payload reads as a start or an end tag, nor as no header at all. */
  ghost predicate Harmless(fs: seq<Field>)
    decreases fs, 1
  {
    fs == [] || (HarmlessField(fs[0]) && Harmless(fs[1..]))
  }

  ghost predicate HarmlessField(f: Field)
    decreases f, 0
  {
    if f.value.Group? then Harmless(f.value.fields)
    else WireType(f.value) == VARINT && Balanced([PayloadNumber(f.value)])
  }

  lemma {:induction false} HarmlessBalanced(fs: seq<Field>)
    requires AllWritable(fs) && Harmless(fs)
    ensures OnVarints(fs) && Balanced(Numbers(fs))
    decreases fs, 1
  {
    hide Writable, HarmlessField, VarintField, FieldNumbers, Opened;
    if fs == [] {
      BalancedNothing();
    } else {
      HarmlessFieldBalanced(fs[0]);
      HarmlessBalanced(fs[1..]);
      BalancedConcat(FieldNumbers(fs[0]), Numbers(fs[1..]));
    }
  }

  lemma {:induction false} HarmlessFieldBalanced(f: Field)
    requires Writable(f) && HarmlessField(f)
    ensures VarintField(f) && Balanced(FieldNumbers(f))
    decreases f, 0
  {
    hide AllWritable, Harmless, OnVarints, Opened, PayloadNumber, HeaderOf;
    if f.value.Group? {
      HarmlessBalanced(f.value.fields);
      BalancedNested(f.num, Numbers(f.value.fields));
    } else {
      BalancedOne(f.num * 8 + VARINT);
      HeaderPlain(f.num * 8 + VARINT);
      assert FieldNumbers(f) == [f.num * 8 + VARINT] + [PayloadNumber(f.value)];
      BalancedConcat([f.num * 8 + VARINT], [PayloadNumber(f.value)]);
    }
  }

  /** Groups of nothing but groups, to any depth. */
  ghost predicate OnlyGroups(fs: seq<Field>)
    decreases fs, 1
  {
    fs == [] || (GroupOfGroups(fs[0]) && OnlyGroups(fs[1..]))
  }

  ghost predicate GroupOfGroups(f: Field)
    decreases f, 0
  {
    f.value.Group? && OnlyGroups(f.value.fields)
  }

  /** They are always skipped. */
  lemma OnlyGroupsBalanced(fs: seq<Field>)
    requires AllWritable(fs) && OnlyGroups(fs)
    ensures OnVarints(fs) && Balanced(Numbers(fs))
  {
    hide AllWritable, Opened, Numbers;
    OnlyGroupsHarmless(fs);
    HarmlessBalanced(fs);
  }

  lemma {:induction false} OnlyGroupsHarmless(fs: seq<Field>)
    requires OnlyGroups(fs)
    ensures Harmless(fs)
    decreases fs, 1
  {
    if fs != [] {
      GroupHarmless(fs[0]);
      OnlyGroupsHarmless(fs[1..]);
    }
  }

  lemma {:induction false} GroupHarmless(f: Field)
    requires GroupOfGroups(f)
    ensures HarmlessField(f)
    decreases f, 0
  {
    OnlyGroupsHarmless(f.value.fields);
  }
}
