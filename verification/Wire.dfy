/** Messages as trees of fields, and their wire encoding: the Protocol Buffers Encoding guide,
    sections "Message Structure", "Length-Delimited" and "Groups". */
module Wire {
  import opened Js
  import opened Words
  import opened Varints
  import opened Arith
  import opened Utils
  import Utf8

  const VARINT := 0
  const FIXED64 := 1
  const DELIMITED := 2
  const START_GROUP := 3
  const END_GROUP := 4
  const FIXED32 := 5

  /** One payload for each way the writer puts a value on the wire. */
  datatype Value =
    | UInt32(n: int)                    // writeUint32
    | Int32(v: int)                     // writeInt32
    | SInt32(v: int)                    // writeSint32
    | Enum(v: int)                      // writeEnum
    | Int64Text(text: string)           // writeInt64String
    | VarintHash(hash: seq<byte>)       // writeVarintHash64
    | Fixed32Word(n: int)               // writeFixed32
    | FixedHash(hash: seq<byte>)        // writeFixedHash64
    | Bytes(data: seq<byte>)            // writeBytes
    | Str(units: seq<Utf8.unit>)        // writeString
    | PackedInt32(vs: seq<int>)         // writePackedInt32
    | PackedFixed32(ns: seq<int>)       // writePackedFixed32
    | Message(fields: seq<Field>)       // writeMessage
    | Group(fields: seq<Field>)         // writeGroup

  datatype Field = Field(num: nat, value: Value)

  function WireType(v: Value): nat {
    match v
    case UInt32(_) | Int32(_) | SInt32(_) | Enum(_) | Int64Text(_) | VarintHash(_) => VARINT
    case Fixed32Word(_) => FIXED32
    case FixedHash(_) => FIXED64
    case Bytes(_) | Str(_) | PackedInt32(_) | PackedFixed32(_) | Message(_) => DELIMITED
    case Group(_) => START_GROUP
  }

  function Header(num: nat, wireType: nat): seq<byte> {
    Varint(num * 8 + wireType)
  }

  function Delimited(body: seq<byte>): seq<byte> {
    Varint(|body|) + body
  }

  /** Numbers outside the ranges that the encoder asserts make the writer throw; they stand for 0. */
  function Unsigned32(n: int): uint32 {
    if 0 <= n < TWO_TO_32 then n else 0
  }

  function Signed32(v: int): int32 {
    if -TWO_TO_31 <= v < TWO_TO_31 then v else 0
  }

  function SignedVarints(vs: seq<int>): seq<byte> {
    if vs == [] then [] else Varint(SignExtend(Signed32(vs[0]))) + SignedVarints(vs[1..])
  }

  function Words32(ns: seq<int>): (bs: seq<byte>)
    ensures |bs| == 4 * |ns|
  {
    if ns == [] then [] else Fixed32(Unsigned32(ns[0])) + Words32(ns[1..])
  }

  /** The number a decimal string is written as; strings that do not parse make the writer throw. */
  function TextNumber(text: string): (n: nat)
    ensures n < TWO_TO_64
  {
    match ParseSigned(text) case Some(n) => n case None => 0
  }

  /** What follows the header of a field that holds no nested fields. */
  function EncodeScalar(v: Value): seq<byte>
    requires !v.Message? && !v.Group?
  {
    match v
    case UInt32(n) => Varint(Unsigned32(n))
    case Int32(v) => Varint(SignExtend(Signed32(v)))
    case SInt32(v) => Varint(Zigzag(Signed32(v)))
    case Enum(v) => Varint(SignExtend(Signed32(v)))
    case Int64Text(text) => Varint(TextNumber(text))
    case VarintHash(hash) => Varint(HashValue(hash))
    case Fixed32Word(n) => Fixed32(Unsigned32(n))
    case FixedHash(hash) => hash
    case Bytes(data) => Delimited(data)
    case Str(units) => Delimited(Utf8.Encode(units))
    case PackedInt32(vs) => Delimited(SignedVarints(vs))
    case PackedFixed32(ns) => Delimited(Words32(ns))
  }

  /** The whole field: header, payload, and for a group the end tag. */
  function EncodeField(f: Field): seq<byte>
    decreases f, 1
  {
    Header(f.num, WireType(f.value)) + EncodePayload(f)
  }

  function EncodePayload(f: Field): seq<byte>
    decreases f, 0
  {
    match f.value
    case Message(fields) => Delimited(EncodeFields(fields))
    case Group(fields) => EncodeFields(fields) + Header(f.num, END_GROUP)
    case _ => EncodeScalar(f.value)
  }

  function EncodeFields(fs: seq<Field>): seq<byte>
    decreases fs, 2
  {
    if fs == [] then [] else EncodeField(fs[0]) + EncodeFields(fs[1..])
  }

  /** What the writer's assertions demand of a tree: field numbers that fit a 32-bit tag, numbers in
      range, eight-byte hashes, parseable texts, and lengths below 2^32. */
  ghost predicate Writable(f: Field)
    decreases f, 0
  {
    && 1 <= f.num < 0x2000_0000
    && match f.value
       case UInt32(n) => 0 <= n < TWO_TO_32
       case Int32(v) => -TWO_TO_31 <= v < TWO_TO_31
       case SInt32(v) => -TWO_TO_31 <= v < TWO_TO_31
       case Enum(v) => -TWO_TO_31 <= v < TWO_TO_31
       case Fixed32Word(n) => 0 <= n < TWO_TO_32
       case Int64Text(text) => ParseSigned(text).Some?
       case VarintHash(hash) => |hash| == 8
       case FixedHash(hash) => |hash| == 8
       case Bytes(data) => |data| < TWO_TO_32
       case Str(units) => |Utf8.Encode(units)| < TWO_TO_32
       case PackedInt32(vs) => AllSigned(vs) && vs != [] && |SignedVarints(vs)| < TWO_TO_32
       case PackedFixed32(ns) => AllUnsigned(ns) && ns != [] && 4 * |ns| < TWO_TO_32
       case Message(fields) => AllWritable(fields) && |EncodeFields(fields)| < TWO_TO_32
       case Group(fields) => AllWritable(fields)
  }

  ghost predicate AllSigned(vs: seq<int>) {
    forall i :: 0 <= i < |vs| ==> -TWO_TO_31 <= vs[i] < TWO_TO_31
  }

  ghost predicate AllUnsigned(ns: seq<int>) {
    forall i :: 0 <= i < |ns| ==> 0 <= ns[i] < TWO_TO_32
  }

  ghost predicate AllWritable(fs: seq<Field>)
    decreases fs, 1
  {
    fs == [] || (Writable(fs[0]) && AllWritable(fs[1..]))
  }
}
