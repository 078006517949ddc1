/** The layout invariant of `jspb.BinaryWriter`, on the contents of its blocks.

    `contents` are the elements of the blocks, `tail` those of the encoder's buffer, `total` is
    `totalLength_`, and `marks` are the positions of the blocks that are open bookmarks, outermost
    first. An open bookmark block holds real bytes and, as its last element, the saved length.
    `frames` is what has been written so far at each nesting level. */
module Bookmarks {
  import opened Js
  import opened Varints

  function Flat(cs: seq<seq<int>>): seq<int> {
    if cs == [] then [] else cs[0] + Flat(cs[1..])
  }

  lemma {:induction false} FlatConcat(a: seq<seq<int>>, b: seq<seq<int>>)
    ensures Flat(a + b) == Flat(a) + Flat(b)
  {
    if a == [] {
      assert a + b == b;
    } else {
      assert (a + b)[1..] == a[1..] + b;
      FlatConcat(a[1..], b);
    }
  }

  lemma FlatOne(c: seq<int>)
    ensures Flat([c]) == c
  {
    assert [c][1..] == [];
  }

  function Last<T>(s: seq<T>): T
    requires s != []
  {
    s[|s| - 1]
  }

  function Front<T>(s: seq<T>): seq<T>
    requires s != []
  {
    s[..|s| - 1]
  }

  /** An open writer contains, below its innermost bookmark, a suspended writer whose encoder buffer
      is that bookmark's block without the saved length. */
  ghost predicate Layout(contents: seq<seq<int>>, tail: seq<int>, total: int, marks: seq<nat>, frames: seq<seq<byte>>)
    decreases |marks|
  {
    && |frames| == |marks| + 1
    && if marks == [] then
         frames[0] == Flat(contents) + tail && total == |Flat(contents)|
       else
         var p := Last(marks);
         && p < |contents| && contents[p] != []
         && Last(frames) == Flat(contents[p + 1..]) + tail
         && total == Last(contents[p]) + |Flat(contents[p + 1..])|
         && Layout(contents[..p], Front(contents[p]), Last(contents[p]) - |Front(contents[p])|, Front(marks), Front(frames))
  }

  /** The bytes of all frames. */
  function FrameBytes(frames: seq<seq<byte>>): nat {
    if frames == [] then 0 else FrameBytes(Front(frames)) + |Last(frames)|
  }

  /** `totalLength_` counts exactly the real bytes in the blocks: with the encoder's buffer they are
      all bytes written, and the saved lengths in open bookmarks are not counted. */
  lemma {:induction false} TotalCounts(contents: seq<seq<int>>, tail: seq<int>, total: int, marks: seq<nat>, frames: seq<seq<byte>>)
    requires Layout(contents, tail, total, marks, frames)
    ensures total + |tail| == FrameBytes(frames) && total == |Flat(contents)| - |marks|
    decreases |marks|
  {
    if marks == [] {
      assert Front(frames) == [];
    } else {
      var p := Last(marks);
      TotalCounts(contents[..p], Front(contents[p]), Last(contents[p]) - |Front(contents[p])|, Front(marks), Front(frames));
      assert contents == contents[..p] + ([contents[p]] + contents[p + 1..]);
      FlatConcat(contents[..p], [contents[p]] + contents[p + 1..]);
      FlatConcat([contents[p]], contents[p + 1..]);
      FlatOne(contents[p]);
    }
  }

  /** An empty writer. */
  lemma LayoutEmpty()
    ensures Layout([], [], 0, [], [[]])
  {
  }

  function AppendToLast(frames: seq<seq<byte>>, bs: seq<byte>): seq<seq<byte>>
    requires frames != []
  {
    Front(frames) + [Last(frames) + bs]
  }

  /** Pushing bytes onto the encoder extends the innermost frame. */
  lemma LayoutPush(contents: seq<seq<int>>, tail: seq<int>, total: int, marks: seq<nat>, frames: seq<seq<byte>>, bs: seq<byte>)
    requires Layout(contents, tail, total, marks, frames)
    ensures Layout(contents, tail + bs, total, marks, AppendToLast(frames, bs))
  {
    assert Front(AppendToLast(frames, bs)) == Front(frames);
    if marks == [] {
      assert Flat(contents) + (tail + bs) == (Flat(contents) + tail) + bs;
    } else {
      var rest := Flat(contents[Last(marks) + 1..]);
      assert rest + (tail + bs) == (rest + tail) + bs;
    }
  }

  /** Appending blocks keeps what lies before and at position p. */
  lemma AppendedBlocks(contents: seq<seq<int>>, blocks: seq<seq<int>>, p: nat)
    requires p < |contents|
    ensures (contents + blocks)[p] == contents[p] && (contents + blocks)[..p] == contents[..p]
    ensures (contents + blocks)[p + 1..] == contents[p + 1..] + blocks
  {
  }

  /** The flushed block and what follows it, behind any earlier blocks. */
  lemma FlushedBytes(before: seq<seq<int>>, tail: seq<int>, more: seq<seq<int>>, newTail: seq<int>)
    ensures Flat(before + ([tail] + more)) + newTail == (Flat(before) + tail) + (Flat(more) + newTail)
    ensures |Flat(before + ([tail] + more))| == |Flat(before)| + |tail| + |Flat(more)|
  {
    FlatConcat(before, [tail] + more);
    FlatConcat([tail], more);
    FlatOne(tail);
  }

  lemma AppendToLastParts(frames: seq<seq<byte>>, bs: seq<byte>)
    requires frames != []
    ensures |AppendToLast(frames, bs)| == |frames|
    ensures Front(AppendToLast(frames, bs)) == Front(frames) && Last(AppendToLast(frames, bs)) == Last(frames) + bs
  {
  }

  /** Flushing the encoder's buffer as a block, with further blocks behind it. */
  lemma LayoutFlush(contents: seq<seq<int>>, tail: seq<int>, total: int, marks: seq<nat>, frames: seq<seq<byte>>,
                    more: seq<seq<int>>, newTail: seq<int>, bs: seq<byte>)
    requires Layout(contents, tail, total, marks, frames) && Flat(more) + newTail == bs
    ensures Layout(contents + ([tail] + more), newTail, total + |tail| + |Flat(more)|, marks, AppendToLast(frames, bs))
  {
    hide Flat, AppendToLast, Front;
    AppendToLastParts(frames, bs);
    if marks == [] {
      FlushedBytes(contents, tail, more, newTail);
    } else {
      var p := Last(marks);
      AppendedBlocks(contents, [tail] + more, p);
      FlushedBytes(contents[p + 1..], tail, more, newTail);
    }
  }

  /** `beginDelimited_`, after the header: the buffer becomes a block and a bookmark at once. */
  lemma LayoutBegin(contents: seq<seq<int>>, tail: seq<int>, total: int, marks: seq<nat>, frames: seq<seq<byte>>)
    requires Layout(contents, tail, total, marks, frames)
    ensures Layout(contents + [tail + [total + |tail|]], [], total + |tail|, marks + [|contents|], frames + [[]])
  {
    var block := tail + [total + |tail|];
    var after := contents + [block];
    var p := |contents|;
    assert Last(marks + [p]) == p && Front(marks + [p]) == marks;
    assert after[p] == block && after[p + 1..] == [] && after[..p] == contents;
    assert Front(block) == tail && Last(block) == total + |tail|;
    assert Front(frames + [[]]) == frames && Last(frames + [[]]) == [];
  }

  /** Closing the innermost frame: its length and its bytes go into the enclosing one. */
  function CloseFrame(frames: seq<seq<byte>>, length: seq<byte>): seq<seq<byte>>
    requires |frames| > 1
  {
    AppendToLast(Front(frames), length + Last(frames))
  }

  /** `endDelimited_`: the saved length is replaced by the encoded message length, in the block. */
  lemma LayoutEnd(contents: seq<seq<int>>, tail: seq<int>, total: int, marks: seq<nat>, frames: seq<seq<byte>>, length: seq<byte>)
    requires Layout(contents, tail, total, marks, frames) && marks != []
    ensures var p := Last(marks);
      && Last(contents[p]) == total + |tail| - |Last(frames)|
      && Layout(contents[p := Front(contents[p]) + length], tail, total + |length|, Front(marks), CloseFrame(frames, length))
  {
    var p := Last(marks);
    var inner, saved := Front(contents[p]), Last(contents[p]);
    var more := contents[p + 1..];
    assert Last(frames) == Flat(more) + tail;
    LayoutPush(contents[..p], inner, saved - |inner|, Front(marks), Front(frames), length);
    var pushed := AppendToLast(Front(frames), length);
    LayoutFlush(contents[..p], inner + length, saved - |inner|, Front(marks), pushed, more, tail, Last(frames));
    assert contents[p := inner + length] == contents[..p] + ([inner + length] + more);
    assert Last(pushed) + Last(frames) == Last(Front(frames)) + (length + Last(frames));
    assert AppendToLast(pushed, Last(frames)) == CloseFrame(frames, length);
  }

  /** The length bytes that `endDelimited_` writes: `>>> 7` keeps only 32 bits of the rest. */
  function PatchedLength(n: nat): seq<byte> {
    if n > 127 then [n % 128 + 128] + Varint(n % TWO_TO_32 / 128) else [n]
  }

  lemma LostBits(n: nat)
    requires n >= TWO_TO_32
    ensures n / 128 != n % TWO_TO_32 / 128
  {
    assert n / 128 >= 0x200_0000 > n % TWO_TO_32 / 128;
  }

  lemma PatchedShort(n: nat)
    requires n < TWO_TO_32
    ensures PatchedLength(n) == Varint(n)
  {
    assert n % TWO_TO_32 == n;
  }

  lemma PatchedLong(n: nat)
    requires n >= TWO_TO_32
    ensures PatchedLength(n) != Varint(n)
  {
    hide Varint;
    var rest, kept := Varint(n / 128), Varint(n % TWO_TO_32 / 128);
    VarintStep(n);
    LostBits(n);
    if kept == rest {
      VarintInjective(n / 128, n % TWO_TO_32 / 128);
    }
    assert ([n % 128 + 128] + rest)[1..] == rest && ([n % 128 + 128] + kept)[1..] == kept;
  }

  /** They are the varint of the length exactly when the length fits 32 bits. */
  lemma PatchedLengthExact(n: nat)
    ensures PatchedLength(n) == Varint(n) <==> n < TWO_TO_32
  {
    hide Varint, PatchedLength;
    if n < TWO_TO_32 {
      PatchedShort(n);
    } else {
      PatchedLong(n);
    }
  }
}
