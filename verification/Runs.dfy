/** Whole runs of a writer: any properly nested sequence of begin, end, append and field writes. */
module Runs {
  import opened Js
  import opened Varints
  import opened Bookmarks
  import opened Wire
  import Writer

  /** One call on the writer. */
  datatype Call =
    | Begin(field: nat)                // beginSubMessage
    | End                              // endSubMessage
    | Append(data: seq<byte>)          // appendUint8Array_
    | Put(f: Field)                    // any of the field writers

  /** What the run builds: pieces of bytes, and messages closed around what was written inside them. */
  datatype Item = Piece(data: seq<byte>) | Sub(field: nat, items: seq<Item>)

  /** Every `End` closes a `Begin`, and `depth` open messages are closed by the end of the run. */
  ghost predicate Nested(calls: seq<Call>, depth: nat) {
    if calls == [] then depth == 0
    else match calls[0]
      case Begin(field) => 1 <= field < 0x2000_0000 && Nested(calls[1..], depth + 1)
      case End => depth > 0 && Nested(calls[1..], depth - 1)
      case Append(_) => Nested(calls[1..], depth)
      case Put(f) => Writable(f) && Nested(calls[1..], depth)
  }

  /** The items up to the `End` that closes the surrounding message, and the calls from there on. */
  ghost function Items(calls: seq<Call>): (r: (seq<Item>, seq<Call>))
    ensures |r.1| <= |calls|
    decreases |calls|
  {
    if calls == [] || calls[0].End? then ([], calls)
    else match calls[0]
      case Begin(field) =>
        var inner := Items(calls[1..]);
        if inner.1 == [] then ([], [])
        else
          var more := Items(inner.1[1..]);
          ([Sub(field, inner.0)] + more.0, more.1)
      case Append(data) => var more := Items(calls[1..]); ([Piece(data)] + more.0, more.1)
      case Put(f) => var more := Items(calls[1..]); ([Piece(EncodeField(f))] + more.0, more.1)
  }

  /** The encoding by recursion over the items: header, length of the body, body. */
  ghost function ItemBytes(item: Item): seq<byte>
    decreases item, 0
  {
    match item
    case Piece(data) => data
    case Sub(field, items) => Header(field, DELIMITED) + Delimited(AllBytes(items))
  }

  ghost function AllBytes(items: seq<Item>): seq<byte>
    decreases items, 1
  {
    if items == [] then [] else ItemBytes(items[0]) + AllBytes(items[1..])
  }

  /** No message is longer than a 32-bit length can say. */
  ghost predicate Short(items: seq<Item>) {
    items == [] || (Short(items[1..]) &&
                    match items[0]
                    case Piece(_) => true
                    case Sub(_, inner) => Short(inner) && |AllBytes(inner)| < TWO_TO_32)
  }

  /** What a call does to the bytes written at each level. */
  ghost function After(frames: seq<seq<byte>>, call: Call): (r: seq<seq<byte>>)
    requires if call.End? then |frames| > 1 else frames != []
    ensures |r| == if call.Begin? then |frames| + 1 else if call.End? then |frames| - 1 else |frames|
  {
    match call
    case Begin(field) => AppendToLast(frames, Header(field, DELIMITED)) + [[]]
    case End => CloseFrame(frames, PatchedLength(|Last(frames)|))
    case Append(data) => AppendToLast(frames, data)
    case Put(f) => AppendToLast(frames, EncodeField(f))
  }

  ghost function AfterAll(frames: seq<seq<byte>>, calls: seq<Call>): seq<seq<byte>>
    requires frames != [] && Nested(calls, |frames| - 1)
    decreases |calls|
  {
    if calls == [] then frames else AfterAll(After(frames, calls[0]), calls[1..])
  }

  /** Properly nested calls are those that parse into items, up to the closing `End`. */
  lemma {:induction false} NestedItems(calls: seq<Call>, depth: nat)
    requires Nested(calls, depth)
    ensures depth == 0 ==> Items(calls).1 == []
    ensures depth > 0 ==> Items(calls).1 != [] && Items(calls).1[0].End?
    ensures Nested(Items(calls).1, depth)
    decreases |calls|
  {
    if calls != [] {
      match calls[0]
      case Begin(field) =>
        NestedItems(calls[1..], depth + 1);
        NestedItems(Items(calls[1..]).1[1..], depth);
      case End =>
      case Append(_) => NestedItems(calls[1..], depth);
      case Put(_) => NestedItems(calls[1..], depth);
    }
  }

  /** Running the calls of some items appends exactly their encoding to the innermost level. */
  lemma {:induction false} ItemsWritten(frames: seq<seq<byte>>, calls: seq<Call>)
    requires frames != [] && Nested(calls, |frames| - 1) && Short(Items(calls).0)
    ensures Nested(Items(calls).1, |frames| - 1)
    ensures AfterAll(frames, calls)
            == AfterAll(AppendToLast(frames, AllBytes(Items(calls).0)), Items(calls).1)
    decreases |calls|
  {
    hide Varint, PatchedLength, EncodeField, Header, Delimited, CloseFrame;
    NestedItems(calls, |frames| - 1);
    var items := Items(calls).0;
    if calls == [] || calls[0].End? {
      Writer.AppendNothing(frames);
    } else {
      var rest := calls[1..];
      assert items[1..] == Items(if calls[0].Begin? then Items(rest).1[1..] else rest).0 by {
        if calls[0].Begin? { NestedItems(rest, |frames|); }
      }
      match calls[0]
      case Begin(field) => SubWritten(frames, calls, field);
      case Append(data) => PieceWritten(frames, calls, data);
      case Put(f) => PieceWritten(frames, calls, EncodeField(f));
    }
  }

  lemma {:induction false} PieceWritten(frames: seq<seq<byte>>, calls: seq<Call>, data: seq<byte>)
    requires frames != [] && Nested(calls, |frames| - 1) && calls != []
    requires calls[0] == Append(data) || (calls[0].Put? && data == EncodeField(calls[0].f))
    requires Short(Items(calls).0) && Items(calls).0[1..] == Items(calls[1..]).0
    ensures Nested(Items(calls).1, |frames| - 1)
    ensures AfterAll(frames, calls)
            == AfterAll(AppendToLast(frames, AllBytes(Items(calls).0)), Items(calls).1)
    decreases |calls|, 0
  {
    hide EncodeField, Writable;
    var rest := calls[1..];
    ItemsWritten(AppendToLast(frames, data), rest);
    Writer.AppendTwice(frames, data, AllBytes(Items(rest).0));
  }

  lemma {:induction false} SubWritten(frames: seq<seq<byte>>, calls: seq<Call>, field: nat)
    requires frames != [] && Nested(calls, |frames| - 1) && calls != [] && calls[0] == Begin(field)
    requires Items(calls[1..]).1 != []
    requires Short(Items(calls).0) && Items(calls).0[1..] == Items(Items(calls[1..]).1[1..]).0
    ensures Nested(Items(calls).1, |frames| - 1)
    ensures AfterAll(frames, calls)
            == AfterAll(AppendToLast(frames, AllBytes(Items(calls).0)), Items(calls).1)
    decreases |calls|, 0
  {
    hide Varint, PatchedLength, Header, Delimited, CloseFrame;
    var rest := calls[1..];
    var header := Header(field, DELIMITED);
    var started := AppendToLast(frames, header) + [[]];
    var inner := Items(rest);
    var body := AllBytes(inner.0);
    NestedItems(rest, |frames|);
    ItemsWritten(started, rest);
    Writer.CloseOpened(frames, header, body);
    var closed := AppendToLast(frames, header + Delimited(body));
    var full := AppendToLast(frames, header) + [body];
    assert AfterAll(started, rest) == AfterAll(full, inner.1);
    assert After(full, inner.1[0]) == closed;
    ItemsWritten(closed, inner.1[1..]);
    Writer.AppendTwice(frames, header + Delimited(body), AllBytes(Items(inner.1[1..]).0));
  }

  /** Every open message has its bookmark on the stack. */
  ghost predicate Paired(w: Writer.BinaryWriter)
    reads w
  {
    |w.bookmarks| == |w.marks| && forall k :: 0 <= k < |w.marks| ==>
      w.marks[k] < |w.blocks| && w.blocks[w.marks[k]] == Writer.Numbers(w.bookmarks[k])
  }

  method Perform(w: Writer.BinaryWriter, call: Call)
    requires w.Valid() && Paired(w)
    requires match call
      case Begin(field) => 1 <= field < 0x2000_0000
      case End => |w.frames| > 1
      case Append(_) => true
      case Put(f) => Writable(f)
    modifies w, w.encoder, w.encoder.buffer, set b | b in w.bookmarks
    ensures w.Valid() && Paired(w) && w.frames == After(old(w.frames), call)
    ensures w.encoder.buffer == old(w.encoder.buffer) || fresh(w.encoder.buffer)
    ensures forall b :: b in w.bookmarks ==> b in old(w.bookmarks) || b == old(w.encoder.buffer)
  {
    hide Layout, EncodeField, Header, PatchedLength;
    match call
    case Begin(field) => w.BeginSubMessage(field);
    case End => w.EndSubMessage();
    case Append(data) => w.AppendUint8Array(data);
    case Put(f) => w.WriteField(f);
  }

  /** Every properly nested run keeps the writer's bookkeeping right at every step, and its result is
      the recursive encoding of what was written. */
  method Run(calls: seq<Call>) returns (flat: array<byte>)
    requires Nested(calls, 0) && Short(Items(calls).0)
    ensures flat[..] == AllBytes(Items(calls).0)
  {
    hide Layout, After, Items, AllBytes, Short;
    var w := new Writer.BinaryWriter();
    assert calls[0..] == calls;
    w.TotalLengthCounts();
    for i := 0 to |calls|
      invariant w.Valid() && Paired(w) && fresh(w) && fresh(w.encoder) && fresh(w.encoder.buffer)
      invariant forall b :: b in w.bookmarks ==> fresh(b)
      invariant Nested(calls[i..], |w.frames| - 1)
      invariant AfterAll(w.frames, calls[i..]) == AfterAll([[]], calls)
      invariant w.totalLength + |w.encoder.buffer.elems| == FrameBytes(w.frames)
    {
      assert calls[i..][1..] == calls[i + 1..];
      Perform(w, calls[i]);
      w.TotalLengthCounts();
    }
    NestedItems(calls, 0);
    ItemsWritten([[]], calls);
    WholeRun(calls, w.frames);
    flat := w.GetResultBuffer();
  }

  lemma WholeRun(calls: seq<Call>, frames: seq<seq<byte>>)
    requires Nested(calls, 0) && Items(calls).1 == []
    requires frames != [] && Nested([], |frames| - 1) && AfterAll(frames, []) == AfterAll([[]], calls)
    requires AfterAll([[]], calls) == AfterAll(AppendToLast([[]], AllBytes(Items(calls).0)), [])
    ensures frames == [AllBytes(Items(calls).0)]
  {
    var start: seq<seq<byte>> := [[]];
    assert Front(start) == [] && [] + AllBytes(Items(calls).0) == AllBytes(Items(calls).0);
  }

  // ----- what runs mean on the wire -----

  /** Items stand one behind the other; a message is its tag, the length of its body, and the body. */
  lemma {:induction false} BytesJoined(before: seq<Item>, after: seq<Item>)
    ensures AllBytes(before + after) == AllBytes(before) + AllBytes(after)
  {
    hide ItemBytes;
    if before == [] {
      assert before + after == after;
    } else {
      assert (before + after)[1..] == before[1..] + after;
      BytesJoined(before[1..], after);
    }
  }

  lemma OneItem(data: seq<byte>, field: nat, items: seq<Item>)
    ensures AllBytes([Piece(data)]) == data
    ensures AllBytes([Sub(field, items)]) == Varint(8 * field + 2) + (Varint(|AllBytes(items)|) + AllBytes(items))
  {
    hide Varint;
    assert [Piece(data)][1..] == [] && [Sub(field, items)][1..] == [];
    assert AllBytes([Piece(data)]) == data + AllBytes([]);
    assert AllBytes([Sub(field, items)]) == ItemBytes(Sub(field, items)) + AllBytes([]);
  }

  /** Fields written one by one, nested messages with `beginSubMessage` and `endSubMessage`. */
  function CallsOf(fs: seq<Field>): seq<Call>
    decreases fs, 1
  {
    if fs == [] then [] else FieldCalls(fs[0]) + CallsOf(fs[1..])
  }

  function FieldCalls(f: Field): seq<Call>
    decreases f, 0
  {
    match f.value
    case Message(inner) => [Begin(f.num)] + CallsOf(inner) + [End]
    case _ => [Put(f)]
  }

  lemma BeginItems(field: nat, tail: seq<Call>, depth: nat)
    requires Items(tail).1 != []
    ensures Items([Begin(field)] + tail)
            == ([Sub(field, Items(tail).0)] + Items(Items(tail).1[1..]).0, Items(Items(tail).1[1..]).1)
    ensures 1 <= field < 0x2000_0000 && Nested(tail, depth + 1) ==> Nested([Begin(field)] + tail, depth)
  {
    assert ([Begin(field)] + tail)[1..] == tail;
  }

  lemma PutItems(f: Field, more: seq<Call>, depth: nat)
    requires Writable(f) && Nested(more, depth)
    ensures Nested([Put(f)] + more, depth)
    ensures Items([Put(f)] + more).1 == Items(more).1
    ensures AllBytes(Items([Put(f)] + more).0) == EncodeField(f) + AllBytes(Items(more).0)
    ensures Short(Items(more).0) ==> Short(Items([Put(f)] + more).0)
  {
    hide EncodeField, Writable;
    assert ([Put(f)] + more)[1..] == more;
    var piece := Piece(EncodeField(f));
    assert ([piece] + Items(more).0)[1..] == Items(more).0;
    assert Items([Put(f)] + more).0 == [piece] + Items(more).0;
  }

  lemma SubBytes(f: Field, items: seq<Item>, others: seq<Item>)
    requires Writable(f) && f.value.Message? && AllBytes(items) == EncodeFields(f.value.fields)
    requires Short(items) && Short(others)
    ensures AllBytes([Sub(f.num, items)] + others) == EncodeField(f) + AllBytes(others)
    ensures Short([Sub(f.num, items)] + others)
  {
    hide Varint, EncodeFields;
    assert ([Sub(f.num, items)] + others)[1..] == others;
  }

  /** Such calls are properly nested, and what they build has the encoding of the fields. */
  lemma {:induction false} CallsBuild(fs: seq<Field>, rest: seq<Call>, depth: nat)
    requires AllWritable(fs) && (rest == [] || rest[0].End?) && Nested(rest, depth)
    ensures Nested(CallsOf(fs) + rest, depth)
    ensures Items(CallsOf(fs) + rest).1 == rest
    ensures AllBytes(Items(CallsOf(fs) + rest).0) == EncodeFields(fs) && Short(Items(CallsOf(fs) + rest).0)
    decreases fs, 1
  {
    hide EncodeField, Items, Nested, AllBytes, Short, FieldCalls;
    if fs == [] {
      assert CallsOf(fs) + rest == rest;
      NoCalls(rest);
    } else {
      var more := CallsOf(fs[1..]) + rest;
      CallsBuild(fs[1..], rest, depth);
      FieldBuilds(fs[0], more, depth);
      assert CallsOf(fs) + rest == FieldCalls(fs[0]) + more;
    }
  }

  lemma {:induction false} FieldBuilds(f: Field, more: seq<Call>, depth: nat)
    requires Writable(f) && Nested(more, depth) && Short(Items(more).0)
    ensures Nested(FieldCalls(f) + more, depth)
    ensures Items(FieldCalls(f) + more).1 == Items(more).1
    ensures AllBytes(Items(FieldCalls(f) + more).0) == EncodeField(f) + AllBytes(Items(more).0)
    ensures Short(Items(FieldCalls(f) + more).0)
    decreases f, 0
  {
    hide EncodeField, Items, Nested, AllBytes, Short;
    if f.value.Message? {
      var inner, tail := f.value.fields, CallsOf(f.value.fields) + ([End] + more);
      EndNested(more, depth);
      CallsBuild(inner, [End] + more, depth + 1);
      assert FieldCalls(f) + more == [Begin(f.num)] + tail;
      BeginItems(f.num, tail, depth);
      assert ([End] + more)[1..] == more;
      SubBytes(f, Items(tail).0, Items(more).0);
    } else {
      PutItems(f, more, depth);
    }
  }

  lemma NoCalls(rest: seq<Call>)
    requires rest == [] || rest[0].End?
    ensures Items(rest) == ([], rest) && AllBytes([]) == [] && Short([])
  {
  }

  lemma EndNested(more: seq<Call>, depth: nat)
    requires Nested(more, depth)
    ensures Nested([End] + more, depth + 1)
  {
    assert ([End] + more)[1..] == more;
  }

  /** A run that writes a tree of fields call by call gives the encoding of the tree. */
  method RunFields(fs: seq<Field>) returns (flat: array<byte>)
    requires AllWritable(fs)
    ensures flat[..] == EncodeFields(fs)
  {
    hide EncodeFields, AllWritable;
    CallsBuild(fs, [], 0);
    assert CallsOf(fs) + [] == CallsOf(fs);
    flat := Run(CallsOf(fs));
  }
}