/** `jspb.BinaryWriter`: blocks of bytes with lengths patched in through bookmarks. */
module Writer {
  import opened Js
  import opened Words
  import opened Varints
  import opened Arith
  import opened Utils
  import opened Encoder
  import opened Bookmarks
  import opened Wire
  import Utf8

  /** An element of `blocks_`: a number array, which may be an open bookmark, or a typed array. */
  datatype Block = Numbers(arr: NumberArray) | Typed(data: seq<byte>)
  {
    ghost predicate Holds(c: seq<int>)
      reads if Numbers? then {arr} else {}
    {
      match this
      case Numbers(a) => a.elems == c
      case Typed(d) => d == c
    }
  }

  /** The loop of a packed varint field. */
  method WriteSignedVarints(encoder: BinaryEncoder, vs: seq<int>)
    requires AllSigned(vs)
    modifies encoder.buffer
    ensures encoder.buffer.elems == old(encoder.buffer.elems) + SignedVarints(vs)
  {
    hide Varint, SignExtend;
    var buffer := encoder.buffer;
    ghost var before := buffer.elems;
    assert vs[0..] == vs;
    for i := 0 to |vs|
      invariant buffer.elems + SignedVarints(vs[i..]) == before + SignedVarints(vs)
      modifies buffer
    {
      assert vs[i..][1..] == vs[i + 1..];
      encoder.WriteSignedVarint32(vs[i]);
    }
    assert vs[|vs|..] == [] && buffer.elems + [] == buffer.elems;
  }

  /** The loop of a packed fixed-width field. */
  method WriteWords(encoder: BinaryEncoder, ns: seq<int>)
    requires AllUnsigned(ns)
    modifies encoder.buffer
    ensures encoder.buffer.elems == old(encoder.buffer.elems) + Words32(ns)
  {
    hide Fixed32;
    var buffer := encoder.buffer;
    ghost var before := buffer.elems;
    assert ns[0..] == ns;
    for i := 0 to |ns|
      invariant buffer.elems + Words32(ns[i..]) == before + Words32(ns)
      modifies buffer
    {
      assert ns[i..][1..] == ns[i + 1..];
      encoder.WriteUint32(ns[i]);
    }
    assert ns[|ns|..] == [] && buffer.elems + [] == buffer.elems;
  }

  class BinaryWriter {
    var blocks: seq<Block>
    var totalLength: int
    const encoder: BinaryEncoder
    var bookmarks: seq<NumberArray>

    // what the blocks hold, where the open bookmarks are, and what has been written at each level
    ghost var contents: seq<seq<int>>
    ghost var marks: seq<nat>
    ghost var frames: seq<seq<byte>>

    ghost function Arrays(): set<NumberArray>
      reads this
    {
      set i | 0 <= i < |blocks| && blocks[i].Numbers? :: blocks[i].arr
    }

    ghost function Footprint(): set<object>
      reads this, encoder
    {
      {this, encoder, encoder.buffer} + Arrays()
    }

    ghost predicate Separate()
      reads this, encoder
    {
      && encoder.buffer !in Arrays()
      && forall i, j :: 0 <= i < j < |blocks| && blocks[i].Numbers? && blocks[j].Numbers? ==>
                          blocks[i].arr != blocks[j].arr
    }

    ghost predicate BlocksHold()
      reads this, Arrays()
    {
      |contents| == |blocks| && forall i :: 0 <= i < |blocks| ==> blocks[i].Holds(contents[i])
    }

    ghost predicate Valid()
      reads this, encoder, encoder.buffer, Arrays()
    {
      && Separate() && BlocksHold() && |frames| == |marks| + 1
      && Layout(contents, encoder.buffer.elems, totalLength, marks, frames)
      && (forall k :: 0 <= k < |marks| ==> marks[k] < |blocks| && blocks[marks[k]].Numbers?)
    }

    /** What every write leaves alone: blocks are only added, and nested messages are closed again. */
    twostate predicate Grew()
      reads this, encoder
    {
      && old(blocks) <= blocks && marks == old(marks) && bookmarks == old(bookmarks)
      && (encoder.buffer == old(encoder.buffer) || fresh(encoder.buffer))
    }

    constructor ()
      ensures Valid() && fresh(Footprint())
      ensures frames == [[]] && marks == [] && bookmarks == []
    {
      encoder := new BinaryEncoder();
      blocks, totalLength, bookmarks := [], 0, [];
      contents, marks, frames := [], [], [[]];
      new;
      LayoutEmpty();
    }

    /** `appendUint8Array_` */
    method AppendUint8Array(arr: seq<byte>)
      requires Valid()
      modifies this, encoder
      ensures Valid() && Grew()
      ensures frames == AppendToLast(old(frames), arr)
    {
      hide Layout;
      var temp := encoder.End();
      blocks := blocks + [Numbers(temp)];
      blocks := blocks + [Typed(arr)];
      totalLength := totalLength + |temp.elems| + |arr|;
      FlatOne(arr);
      LayoutFlush(old(contents), temp.elems, old(totalLength), marks, frames, [arr], [], arr);
      contents := contents + ([temp.elems] + [arr]);
      frames := AppendToLast(frames, arr);
    }

    /** `writeFieldHeader_` */
    method WriteFieldHeader(field: nat, wireType: nat)
      requires Valid()
      requires field >= 1 && field * 8 + wireType < TWO_TO_32
      modifies encoder.buffer, this`frames
      ensures Valid() && Grew() && blocks == old(blocks)
      ensures frames == AppendToLast(old(frames), Header(field, wireType))
    {
      hide Layout, Varint;
      var x := field * 8 + wireType;
      encoder.WriteUnsignedVarint32(x);
      LayoutPush(contents, old(encoder.buffer.elems), totalLength, marks, frames, Header(field, wireType));
      frames := AppendToLast(frames, Header(field, wireType));
    }

    /** `beginDelimited_` */
    method BeginDelimited(field: nat) returns (bookmark: NumberArray)
      requires Valid()
      requires 1 <= field < 0x2000_0000
      modifies this, encoder, encoder.buffer
      ensures Valid() && fresh(encoder.buffer) && bookmark == old(encoder.buffer)
      ensures frames == AppendToLast(old(frames), Header(field, DELIMITED)) + [[]]
      ensures marks == old(marks) + [|old(blocks)|] && blocks == old(blocks) + [Numbers(bookmark)]
      ensures bookmarks == old(bookmarks)
    {
      hide Layout, Header;
      WriteFieldHeader(field, DELIMITED);
      bookmark := encoder.End();
      ghost var tail := bookmark.elems;
      LayoutBegin(contents, tail, totalLength, marks, frames);
      blocks := blocks + [Numbers(bookmark)];
      totalLength := totalLength + |bookmark.elems|;
      bookmark.Push(totalLength);
      contents := contents + [bookmark.elems];
      marks := marks + [|contents| - 1];
      frames := frames + [[]];
    }

    /** `endDelimited_` */
    method EndDelimited(bookmark: NumberArray)
      requires Valid()
      requires marks != [] && blocks[Last(marks)] == Numbers(bookmark)
      modifies this`totalLength, this`contents, this`marks, this`frames, bookmark
      ensures Valid()
      ensures frames == CloseFrame(old(frames), PatchedLength(|Last(old(frames))|))
      ensures marks == Front(old(marks))
    {
      hide Layout, PatchedLength, And, Or, Shr;
      ghost var p := Last(marks);
      ghost var length := |Last(frames)|;
      MarkFacts();
      LayoutEnd(contents, encoder.buffer.elems, totalLength, marks, frames, PatchedLength(length));
      var oldLength := bookmark.Pop();
      ghost var inner := bookmark.elems;
      assert inner == Front(contents[p]) && oldLength == Last(contents[p]);
      var messageLength := totalLength + encoder.Length() - oldLength;
      assert messageLength == length;
      while messageLength > 127
        invariant 0 <= messageLength
        invariant bookmark.elems + PatchedLength(messageLength) == inner + PatchedLength(length)
        invariant totalLength == old(totalLength) + |bookmark.elems| - |inner|
        modifies bookmark, this`totalLength
        decreases messageLength
      {
        PatchStep(messageLength);
        bookmark.Push(Or(And(messageLength, 0x7f), 0x80));
        messageLength := Shr(messageLength, 7);
        totalLength := totalLength + 1;
      }
      PatchLast(messageLength);
      bookmark.Push(messageLength);
      totalLength := totalLength + 1;
      contents := contents[p := bookmark.elems];
      marks := Front(marks);
      frames := CloseFrame(frames, PatchedLength(length));
    }

    /** In every state the writer can reach, `totalLength_` counts the real bytes of the blocks: with the
        encoder's buffer they are all bytes written, and saved lengths are not counted. */
    lemma TotalLengthCounts()
      requires Valid()
      ensures totalLength + |encoder.buffer.elems| == FrameBytes(frames)
      ensures totalLength == |Flat(contents)| - |marks|
    {
      TotalCounts(contents, encoder.buffer.elems, totalLength, marks, frames);
    }

    /** The innermost open bookmark is a block with a saved length on top. */
    lemma MarkFacts()
      requires Valid() && marks != []
      ensures |frames| == |marks| + 1 && Last(marks) < |blocks|
      ensures contents[Last(marks)] != []
    {
    }

    method BeginSubMessage(field: nat)
      requires Valid()
      requires 1 <= field < 0x2000_0000
      modifies this, encoder, encoder.buffer
      ensures Valid() && fresh(encoder.buffer)
      ensures frames == AppendToLast(old(frames), Header(field, DELIMITED)) + [[]]
      ensures marks == old(marks) + [|old(blocks)|] && old(blocks) <= blocks && |blocks| == |old(blocks)| + 1
      ensures bookmarks != [] && Front(bookmarks) == old(bookmarks) && blocks[Last(marks)] == Numbers(Last(bookmarks))
      ensures Last(bookmarks) == old(encoder.buffer)
    {
      var bookmark := BeginDelimited(field);
      bookmarks := bookmarks + [bookmark];
    }

    /** The message closed is the one opened last, as the stack of bookmarks intends. */
    method EndSubMessage()
      requires Valid()
      requires bookmarks != [] && marks != [] && blocks[Last(marks)] == Numbers(Last(bookmarks))
      modifies this, Last(bookmarks)
      ensures Valid() && Footprint() == old(Footprint())
      ensures frames == CloseFrame(old(frames), PatchedLength(|Last(old(frames))|))
      ensures marks == Front(old(marks)) && bookmarks == Front(old(bookmarks)) && blocks == old(blocks)
    {
      var bookmark := Last(bookmarks);
      bookmarks := Front(bookmarks);
      EndDelimited(bookmark);
    }

    method WriteUint32(field: nat, n: uint32)
      requires Valid() && 1 <= field < 0x2000_0000
      modifies this, encoder.buffer
      ensures Valid() && Grew() && blocks == old(blocks)
      ensures frames == AppendToLast(old(frames), EncodeField(Field(field, UInt32(n))))
    {
      hide Layout, Header, Varint;
      WriteFieldHeader(field, VARINT);
      ghost var bs := EncodeScalar(UInt32(n));
      LayoutPush(contents, encoder.buffer.elems, totalLength, marks, frames, bs);
      encoder.WriteUnsignedVarint32(n);
      AppendTwice(old(frames), Header(field, VARINT), bs);
      frames := AppendToLast(frames, bs);
    }

    method WriteInt32(field: nat, v: int32)
      requires Valid() && 1 <= field < 0x2000_0000
      modifies this, encoder.buffer
      ensures Valid() && Grew() && blocks == old(blocks)
      ensures frames == AppendToLast(old(frames), EncodeField(Field(field, Int32(v))))
    {
      hide Layout, Header, Varint, SignExtend;
      WriteFieldHeader(field, VARINT);
      ghost var bs := EncodeScalar(Int32(v));
      LayoutPush(contents, encoder.buffer.elems, totalLength, marks, frames, bs);
      encoder.WriteSignedVarint32(v);
      AppendTwice(old(frames), Header(field, VARINT), bs);
      frames := AppendToLast(frames, bs);
    }

    method WriteSint32(field: nat, v: int32)
      requires Valid() && 1 <= field < 0x2000_0000
      modifies this, encoder.buffer
      ensures Valid() && Grew() && blocks == old(blocks)
      ensures frames == AppendToLast(old(frames), EncodeField(Field(field, SInt32(v))))
    {
      hide Layout, Header, Varint, Zigzag;
      WriteFieldHeader(field, VARINT);
      ghost var bs := EncodeScalar(SInt32(v));
      LayoutPush(contents, encoder.buffer.elems, totalLength, marks, frames, bs);
      encoder.WriteZigzagVarint32(v);
      AppendTwice(old(frames), Header(field, VARINT), bs);
      frames := AppendToLast(frames, bs);
    }

    method WriteEnum(field: nat, v: int32)
      requires Valid() && 1 <= field < 0x2000_0000
      modifies this, encoder.buffer
      ensures Valid() && Grew() && blocks == old(blocks)
      ensures frames == AppendToLast(old(frames), EncodeField(Field(field, Enum(v))))
    {
      hide Layout, Header, Varint, SignExtend;
      WriteFieldHeader(field, VARINT);
      ghost var bs := EncodeScalar(Enum(v));
      LayoutPush(contents, encoder.buffer.elems, totalLength, marks, frames, bs);
      encoder.WriteSignedVarint32(v);
      AppendTwice(old(frames), Header(field, VARINT), bs);
      frames := AppendToLast(frames, bs);
    }

    method WriteInt64String(field: nat, text: string)
      requires Valid() && 1 <= field < 0x2000_0000
      requires ParseSigned(text).Some?
      modifies this, encoder.buffer
      ensures Valid() && Grew() && blocks == old(blocks)
      ensures frames == AppendToLast(old(frames), EncodeField(Field(field, Int64Text(text))))
    {
      hide Layout, Header, Varint, ParseSigned;
      WriteFieldHeader(field, VARINT);
      ghost var bs := EncodeScalar(Int64Text(text));
      var parsed := Int64FromString(text);
      LayoutPush(contents, encoder.buffer.elems, totalLength, marks, frames, bs);
      encoder.WriteSplitVarint64(parsed.value.lo, parsed.value.hi);
      AppendTwice(old(frames), Header(field, VARINT), bs);
      frames := AppendToLast(frames, bs);
    }

    method WriteVarintHash64(field: nat, hash: seq<byte>)
      requires Valid() && 1 <= field < 0x2000_0000
      requires |hash| == 8
      modifies this, encoder.buffer
      ensures Valid() && Grew() && blocks == old(blocks)
      ensures frames == AppendToLast(old(frames), EncodeField(Field(field, VarintHash(hash))))
    {
      hide Layout, Header, Varint, HashValue;
      WriteFieldHeader(field, VARINT);
      ghost var bs := EncodeScalar(VarintHash(hash));
      LayoutPush(contents, encoder.buffer.elems, totalLength, marks, frames, bs);
      encoder.WriteVarintHash64(hash);
      AppendTwice(old(frames), Header(field, VARINT), bs);
      frames := AppendToLast(frames, bs);
    }

    method WriteFixed32(field: nat, n: uint32)
      requires Valid() && 1 <= field < 0x2000_0000
      modifies this, encoder.buffer
      ensures Valid() && Grew() && blocks == old(blocks)
      ensures frames == AppendToLast(old(frames), EncodeField(Field(field, Fixed32Word(n))))
    {
      hide Layout, Header, Varint, Fixed32;
      WriteFieldHeader(field, FIXED32);
      ghost var bs := EncodeScalar(Fixed32Word(n));
      LayoutPush(contents, encoder.buffer.elems, totalLength, marks, frames, bs);
      encoder.WriteUint32(n);
      AppendTwice(old(frames), Header(field, FIXED32), bs);
      frames := AppendToLast(frames, bs);
    }

    method WriteFixedHash64(field: nat, hash: seq<byte>)
      requires Valid() && 1 <= field < 0x2000_0000
      requires |hash| == 8
      modifies this, encoder.buffer
      ensures Valid() && Grew() && blocks == old(blocks)
      ensures frames == AppendToLast(old(frames), EncodeField(Field(field, FixedHash(hash))))
    {
      hide Layout, Header, Varint;
      WriteFieldHeader(field, FIXED64);
      ghost var bs := EncodeScalar(FixedHash(hash));
      LayoutPush(contents, encoder.buffer.elems, totalLength, marks, frames, bs);
      encoder.WriteFixedHash64(hash);
      AppendTwice(old(frames), Header(field, FIXED64), bs);
      frames := AppendToLast(frames, bs);
    }

    method WriteBytes(field: nat, data: seq<byte>)
      requires Valid() && 1 <= field < 0x2000_0000
      requires |data| < TWO_TO_32
      modifies this, encoder, encoder.buffer
      ensures Valid() && Grew()
      ensures frames == AppendToLast(old(frames), EncodeField(Field(field, Bytes(data))))
    {
      hide Layout, Header, Varint;
      WriteFieldHeader(field, DELIMITED);
      LayoutPush(contents, encoder.buffer.elems, totalLength, marks, frames, Varint(|data|));
      encoder.WriteUnsignedVarint32(|data|);
      AppendTwice(old(frames), Header(field, DELIMITED), Varint(|data|));
      frames := AppendToLast(frames, Varint(|data|));
      AppendUint8Array(data);
      AppendTwice(old(frames), Header(field, DELIMITED) + Varint(|data|), data);
      assert Header(field, DELIMITED) + Varint(|data|) + data == Header(field, DELIMITED) + Delimited(data);
    }

    method WriteString(field: nat, units: seq<Utf8.unit>)
      requires Valid() && 1 <= field < 0x2000_0000
      requires |Utf8.Encode(units)| < TWO_TO_32
      modifies this, encoder, encoder.buffer
      ensures Valid() && Grew()
      ensures frames == AppendToLast(old(frames), EncodeField(Field(field, Str(units))))
    {
      hide Layout, Header, Varint, Utf8.Encode;
      var bookmark := BeginDelimited(field);
      ghost var body := Utf8.Encode(units);
      LayoutPush(contents, encoder.buffer.elems, totalLength, marks, frames, body);
      var _ := Utf8.WriteString(encoder, units);
      frames := AppendToLast(frames, body);
      CloseOpened(old(frames), Header(field, DELIMITED), body);
      EndDelimited(bookmark);
    }

    /** An empty packed field is not written at all, not even its header. */
    method WritePackedInt32(field: nat, vs: seq<int>)
      requires Valid() && 1 <= field < 0x2000_0000
      requires AllSigned(vs) && |SignedVarints(vs)| < TWO_TO_32
      modifies this, encoder, encoder.buffer
      ensures Valid() && Grew()
      ensures frames == if vs == [] then old(frames)
                        else AppendToLast(old(frames), EncodeField(Field(field, PackedInt32(vs))))
    {
      hide Layout, Header, Varint, SignExtend, SignedVarints;
      if |vs| == 0 {
        return;
      }
      var bookmark := BeginDelimited(field);
      PushSigned(vs);
      CloseOpened(old(frames), Header(field, DELIMITED), SignedVarints(vs));
      EndDelimited(bookmark);
    }

    /** The numbers of a packed varint field. */
    method PushSigned(vs: seq<int>)
      requires Valid() && AllSigned(vs)
      modifies encoder.buffer, this`frames
      ensures Valid() && frames == AppendToLast(old(frames), SignedVarints(vs))
    {
      hide Layout, SignedVarints;
      LayoutPush(contents, encoder.buffer.elems, totalLength, marks, frames, SignedVarints(vs));
      WriteSignedVarints(encoder, vs);
      frames := AppendToLast(frames, SignedVarints(vs));
    }

    /** Packed fixed-width fields know their length beforehand and need no bookmark. */
    method WritePackedFixed32(field: nat, ns: seq<int>)
      requires Valid() && 1 <= field < 0x2000_0000
      requires AllUnsigned(ns) && 4 * |ns| < TWO_TO_32
      modifies this, encoder.buffer
      ensures Valid() && Grew() && blocks == old(blocks)
      ensures frames == if ns == [] then old(frames)
                        else AppendToLast(old(frames), EncodeField(Field(field, PackedFixed32(ns))))
    {
      hide Layout, Header, Varint, Fixed32;
      if |ns| == 0 {
        return;
      }
      WriteFieldHeader(field, DELIMITED);
      ghost var body := Delimited(Words32(ns));
      LayoutPush(contents, encoder.buffer.elems, totalLength, marks, frames, body);
      ghost var before := encoder.buffer.elems;
      encoder.WriteUnsignedVarint32(|ns| * 4);
      WriteWords(encoder, ns);
      assert before + Varint(4 * |ns|) + Words32(ns) == before + body;
      AppendTwice(old(frames), Header(field, DELIMITED), body);
      frames := AppendToLast(frames, body);
    }

    method WriteMessage(field: nat, fields: seq<Field>)
      requires Valid() && 1 <= field < 0x2000_0000
      requires AllWritable(fields) && |EncodeFields(fields)| < TWO_TO_32
      modifies this, encoder, encoder.buffer
      ensures Valid() && Grew()
      ensures frames == AppendToLast(old(frames), EncodeField(Field(field, Message(fields))))
      decreases Field(field, Message(fields)), 0
    {
      hide Layout, Header, Varint, EncodeFields, AllWritable;
      var bookmark := BeginDelimited(field);
      WriteFields(fields);
      CloseOpened(old(frames), Header(field, DELIMITED), EncodeFields(fields));
      EndDelimited(bookmark);
    }

    method WriteGroup(field: nat, fields: seq<Field>)
      requires Valid() && 1 <= field < 0x2000_0000
      requires AllWritable(fields)
      modifies this, encoder, encoder.buffer
      ensures Valid() && Grew()
      ensures frames == AppendToLast(old(frames), EncodeField(Field(field, Group(fields))))
      decreases Field(field, Group(fields)), 0
    {
      hide Layout, Header, Varint, EncodeFields, AllWritable;
      ghost var before, body := frames, EncodeFields(fields);
      WriteFieldHeader(field, START_GROUP);
      WriteFields(fields);
      WriteFieldHeader(field, END_GROUP);
      AppendTwice(before, Header(field, START_GROUP), body);
      AppendTwice(before, Header(field, START_GROUP) + body, Header(field, END_GROUP));
      assert Header(field, START_GROUP) + body + Header(field, END_GROUP)
          == Header(field, START_GROUP) + (body + Header(field, END_GROUP));
    }

    /** The call a generated serializer makes for one field. */
    method WriteField(f: Field)
      requires Valid() && Writable(f)
      modifies this, encoder, encoder.buffer
      ensures Valid() && Grew()
      ensures frames == AppendToLast(old(frames), EncodeField(f))
      decreases f, 1
    {
      hide Layout, EncodeField, EncodeFields, AllWritable, Varint, Valid;
      match f.value
      case UInt32(n) => WriteUint32(f.num, n);
      case Int32(v) => WriteInt32(f.num, v);
      case SInt32(v) => WriteSint32(f.num, v);
      case Enum(v) => WriteEnum(f.num, v);
      case Int64Text(text) => WriteInt64String(f.num, text);
      case VarintHash(hash) => WriteVarintHash64(f.num, hash);
      case Fixed32Word(n) => WriteFixed32(f.num, n);
      case FixedHash(hash) => WriteFixedHash64(f.num, hash);
      case Bytes(data) => WriteBytes(f.num, data);
      case Str(units) => WriteString(f.num, units);
      case PackedInt32(vs) => WritePackedInt32(f.num, vs);
      case PackedFixed32(ns) => WritePackedFixed32(f.num, ns);
      case Message(fields) => WriteMessage(f.num, fields);
      case Group(fields) => WriteGroup(f.num, fields);
    }

    /** A writer callback: the fields one after the other. */
    method WriteFields(fs: seq<Field>)
      requires Valid() && AllWritable(fs)
      modifies this, encoder, encoder.buffer
      ensures Valid() && Grew()
      ensures frames == AppendToLast(old(frames), EncodeFields(fs))
      decreases fs, 2
    {
      hide Layout, EncodeField, Varint, Writable;
      assert fs[0..] == fs;
      ghost var before := frames;
      for i := 0 to |fs|
        invariant Valid() && Grew() && AllWritable(fs[i..])
        invariant AppendToLast(frames, EncodeFields(fs[i..])) == AppendToLast(before, EncodeFields(fs))
      {
        assert fs[i..][1..] == fs[i + 1..];
        AppendTwice(frames, EncodeField(fs[i]), EncodeFields(fs[i + 1..]));
        WriteField(fs[i]);
      }
      assert fs[|fs|..] == [];
      AppendNothing(frames);
    }

    /** The flattened blocks are what has been written, and the final offset assertion never fails.
        `totalLength_` does not count the tail moved into the result, so the writer is spent. */
    method GetResultBuffer() returns (flat: array<byte>)
      requires Valid() && marks == [] && bookmarks == []
      modifies this, encoder
      ensures fresh(flat) && flat[..] == old(frames)[0]
      ensures blocks == [Typed(flat[..])] && totalLength == old(totalLength) && encoder.buffer.elems == []
      ensures totalLength == flat.Length <==> old(encoder.buffer.elems) == []
    {
      ghost var result: seq<byte> := frames[0];
      assert result == Flat(contents) + encoder.buffer.elems;
      flat := new byte[totalLength + encoder.Length()];
      var offset := 0;
      for i := 0 to |blocks|
        invariant offset == |Flat(contents[..i])| <= flat.Length
        invariant flat[..offset] == result[..offset]
        modifies flat
      {
        FlatPart(contents, i);
        var block := blocks[i];
        var data: seq<byte>;
        assert contents[i] == result[offset..offset + |contents[i]|];
        match block {
          case Numbers(arr) => data := arr.elems;
          case Typed(bytes) => data := bytes;
        }
        SetAt(flat, data, offset);
        offset := offset + |data|;
      }
      assert contents[..|contents|] == contents;
      var tail := encoder.End();
      assert tail.elems == result[offset..];
      SetAt(flat, tail.elems, offset);
      offset := offset + |tail.elems|;
      assert offset == flat.Length;
      blocks := [Typed(flat[..])];
    }

    /** Makes the writer usable again, from any state. */
    method Reset()
      modifies this, encoder
      ensures Valid() && frames == [[]] && marks == [] && bookmarks == []
    {
      blocks := [];
      var _ := encoder.End();
      totalLength := 0;
      bookmarks := [];
      contents, marks, frames := [], [], [[]];
      LayoutEmpty();
    }
  }

  lemma AppendNothing(frames: seq<seq<byte>>)
    requires frames != []
    ensures AppendToLast(frames, []) == frames
  {
    assert Last(frames) + [] == Last(frames);
  }

  /** `Uint8Array.set` */
  method SetAt(flat: array<byte>, data: seq<byte>, offset: nat)
    requires offset + |data| <= flat.Length
    modifies flat
    ensures flat[..offset] == old(flat[..offset]) && flat[offset..offset + |data|] == data
  {
    for j := 0 to |data|
      invariant flat[..offset] == old(flat[..offset])
      invariant flat[offset..offset + j] == data[..j]
    {
      flat[offset + j] := data[j];
    }
  }

  /** Where the i-th block lies in the flattened buffer. */
  lemma FlatPart(cs: seq<seq<int>>, i: nat)
    requires i < |cs|
    ensures |Flat(cs[..i + 1])| == |Flat(cs[..i])| + |cs[i]| <= |Flat(cs)|
    ensures Flat(cs)[|Flat(cs[..i])|..|Flat(cs[..i + 1])|] == cs[i]
  {
    hide Flat;
    assert cs[..i + 1] == cs[..i] + [cs[i]];
    FlatConcat(cs[..i], [cs[i]]);
    FlatOne(cs[i]);
    assert cs == cs[..i + 1] + cs[i + 1..];
    FlatConcat(cs[..i + 1], cs[i + 1..]);
  }

  lemma PatchStep(n: nat)
    requires n > 127
    ensures PatchedLength(n) == [Or(And(n, 0x7f), 0x80)] + PatchedLength(Shr(n, 7))
    ensures 0 <= Shr(n, 7) < n
  {
    hide Varint, And, Or, PatchedLength;
    ContinuedSeptet(n);
    ShiftValues(ToUint32(n));
    PatchUnfold(n);
    PatchedShort(n % TWO_TO_32 / 128);
  }

  lemma PatchUnfold(n: nat)
    requires n > 127
    ensures PatchedLength(n) == [n % 128 + 128] + Varint(n % TWO_TO_32 / 128)
  {
  }

  lemma PatchLast(n: nat)
    requires n <= 127
    ensures PatchedLength(n) == [n]
  {
  }

  lemma AppendTwice(frames: seq<seq<byte>>, a: seq<byte>, b: seq<byte>)
    requires frames != []
    ensures AppendToLast(AppendToLast(frames, a), b) == AppendToLast(frames, a + b)
  {
    assert (Last(frames) + a) + b == Last(frames) + (a + b);
  }

  /** Opening a frame behind a header, filling it and closing it appends a delimited field. */
  lemma CloseOpened(frames: seq<seq<byte>>, header: seq<byte>, body: seq<byte>)
    requires frames != [] && |body| < TWO_TO_32
    ensures AppendToLast(AppendToLast(frames, header) + [[]], body) == AppendToLast(frames, header) + [body]
    ensures CloseFrame(AppendToLast(frames, header) + [body], PatchedLength(|body|))
            == AppendToLast(frames, header + Delimited(body))
  {
    hide Varint, PatchedLength;
    PatchedShort(|body|);
    var parent := AppendToLast(frames, header);
    assert Front(parent + [[]]) == parent && [] + body == body;
    assert Front(parent + [body]) == parent && Last(parent + [body]) == body;
    AppendTwice(frames, header, Delimited(body));
  }
}
