/** What the recursive-descent parser of the text format does (`text_format.py`, class `_Parser`), as
    functions of the tokens and the message. Error positions and messages are not part of this model. */
module TextGrammar {
  import opened Js
  import opened Decimal
  import opened Arith
  import opened TextEscape
  import opened Tokens
  import opened TextFormat

  datatype Mode = Mode(allowFieldNumber: bool, allowMultipleScalars: bool)

  datatype Outcome<+T> = Done(value: T) | ParseError
  {
    predicate IsFailure() { ParseError? }

    function PropagateFailure<U>(): Outcome<U>
      requires ParseError?
    {
      ParseError
    }

    function Extract(): T
      requires Done?
    {
      value
    }
  }

  // ----- scalars -----

  function InBase(s: string, radix: nat): Option<nat> {
    if s == "" then Some(0)
    else
      var c := s[|s| - 1];
      match InBase(s[..|s| - 1], radix)
      case None => None
      case Some(high) => if IsHex(c) && HexValue(c) < radix then Some(high * radix + HexValue(c)) else None
  }

  /** Python's `int(text, 0)`, without underscores between digits. */
  function PythonInt(s: string): Option<int> {
    if s != "" && s[0] == '-' then
      match PythonNat(s[1..]) case Some(n) => Some(0 - n) case None => None
    else if s != "" && s[0] == '+' then
      match PythonNat(s[1..]) case Some(n) => Some(n) case None => None
    else
      match PythonNat(s) case Some(n) => Some(n) case None => None
  }

  function PythonNat(s: string): Option<nat> {
    if s == "" then None
    else if AllDigits(s) then (if s[0] != '0' || Number(s) == 0 then Some(Number(s)) else None)
    else if |s| <= 2 || s[0] != '0' then None
    else if s[1] == 'x' || s[1] == 'X' then InBase(s[2..], 16)
    else if s[1] == 'o' || s[1] == 'O' then InBase(s[2..], 8)
    else if s[1] == 'b' || s[1] == 'B' then InBase(s[2..], 2)
    else None
  }

  /** The range that the type checkers of `ParseInteger` allow. */
  predicate InRange(ty: Type, n: int) {
    match ty
    case TInt32 => -TWO_TO_31 <= n < TWO_TO_31
    case TInt64 => -TWO_TO_63 <= n < TWO_TO_63
    case TUint32 => 0 <= n < TWO_TO_32
    case TUint64 => 0 <= n < TWO_TO_64
    case _ => false
  }

  function ParseBool(s: string): Option<bool> {
    if s == "true" || s == "t" || s == "1" || s == "True" then Some(true)
    else if s == "false" || s == "f" || s == "0" || s == "False" then Some(false)
    else None
  }

  function EnumNumber(values: seq<(string, int)>, name: string): Option<int> {
    if values == [] then None
    else if values[0].0 == name then Some(values[0].1)
    else EnumNumber(values[1..], name)
  }

  function ParseEnum(values: seq<(string, int)>, s: string): Option<int> {
    match PythonInt(s)
    case None => EnumNumber(values, s)
    case Some(n) => if EnumName(values, n).Some? then Some(n) else None
  }

  predicate IsStringToken(t: string) { t != "" && IsQuote(t[0]) }

  /** `_ConsumeSingleByteString` */
  function OneString(t: string): Outcome<seq<byte>> {
    if !IsStringToken(t) || |t| < 2 || t[|t| - 1] != t[0] then ParseError
    else match CUnescape(t[1..|t| - 1])
      case None => ParseError
      case Some(bytes) => Done(bytes)
  }

  /** `ConsumeByteString`: adjacent string tokens are joined. */
  function ByteString(ts: seq<string>): Outcome<(seq<byte>, seq<string>)> {
    if ts == [] then ParseError
    else
      var first :- OneString(ts[0]);
      if |ts| > 1 && IsStringToken(ts[1]) then
        var rest :- ByteString(ts[1..]);
        Done((first + rest.0, rest.1))
      else Done((first, ts[1..]))
  }

  lemma {:induction false} ByteStringShorter(ts: seq<string>)
    ensures ByteString(ts).Done? ==> |ByteString(ts).value.1| < |ts|
  {
    hide OneString;
    if |ts| > 1 {
      ByteStringShorter(ts[1..]);
    }
  }

  /** Well-formed UTF-8, section 4 of RFC 3629. */
  predicate ValidUtf8(s: seq<byte>)
    decreases |s|
  {
    if s == [] then true
    else if s[0] < 0x80 then ValidUtf8(s[1..])
    else if s[0] < 0xC2 then false
    else if s[0] < 0xE0 then |s| >= 2 && Trails(s[1], 0x80, 0xBF) && ValidUtf8(s[2..])
    else if s[0] < 0xF0 then
      |s| >= 3 && Trails(s[1], if s[0] == 0xE0 then 0xA0 else 0x80, if s[0] == 0xED then 0x9F else 0xBF)
      && Trails(s[2], 0x80, 0xBF) && ValidUtf8(s[3..])
    else
      s[0] < 0xF5 && |s| >= 4
      && Trails(s[1], if s[0] == 0xF0 then 0x90 else 0x80, if s[0] == 0xF4 then 0x8F else 0xBF)
      && Trails(s[2], 0x80, 0xBF) && Trails(s[3], 0x80, 0xBF) && ValidUtf8(s[4..])
  }

  predicate Trails(b: int, low: int, high: int) { low <= b <= high }

  /** The value part of `_MergeScalarField`. */
  function ParseScalar(reg: Registry, ty: Type, ts: seq<string>): Outcome<(Val, seq<string>)> {
    if ts == [] then ParseError
    else match ty
    case TInt32 | TInt64 | TUint32 | TUint64 =>
      (match PythonInt(ts[0])
       case None => ParseError
       case Some(n) => if InRange(ty, n) then Done((VInt(n), ts[1..])) else ParseError)
    case TBool => (match ParseBool(ts[0]) case None => ParseError case Some(b) => Done((VBool(b), ts[1..])))
    case TEnum(name) =>
      (match ParseEnum(EnumValues(reg, name), ts[0]) case None => ParseError case Some(n) => Done((VInt(n), ts[1..])))
    case TString =>
      var read :- ByteString(ts);
      if ValidUtf8(read.0) then Done((VBytes(read.0), read.1)) else ParseError
    case TBytes =>
      var read :- ByteString(ts);
      Done((VBytes(read.0), read.1))
    case TMessage(_) | TGroup(_) | TMap(_) => ParseError
  }

  lemma ScalarShorter(reg: Registry, ty: Type, ts: seq<string>)
    ensures ParseScalar(reg, ty, ts).Done? ==> |ParseScalar(reg, ty, ts).value.1| < |ts|
  {
    hide PythonInt, ParseBool, ParseEnum, ByteString, ValidUtf8, InRange;
    ByteStringShorter(ts);
  }

  // ----- fields -----

  function ByNumber(fs: seq<FieldDesc>, n: int): Option<FieldDesc> {
    if fs == [] then None else if fs[0].number == n then Some(fs[0]) else ByNumber(fs[1..], n)
  }

  function ByName(fs: seq<FieldDesc>, name: string): Option<FieldDesc> {
    if fs == [] then None else if fs[0].name == name then Some(fs[0]) else ByName(fs[1..], name)
  }

  function Lower(s: string): string {
    if s == "" then ""
    else [if 'A' <= s[0] <= 'Z' then (s[0] as int + 32) as char else s[0]] + Lower(s[1..])
  }

  /** The field a name or number stands for; groups go by the name of their type. */
  function FindField(mode: Mode, desc: MessageDesc, name: string): Option<FieldDesc> {
    if mode.allowFieldNumber && AllDigits(name) then
      match PythonInt(name)
      case None => None
      case Some(n) => if InRange(TInt64, n) then ByNumber(desc.byNumber, n) else None
    else
      var found := match ByName(desc.byNumber, name)
        case Some(f) => Some(f)
        case None =>
          match ByName(desc.byNumber, Lower(name))
          case Some(f) => if f.ty.TGroup? then Some(f) else None
          case None => None;
      if found.Some? && found.value.ty.TGroup? && found.value.ty.name != name then None else found
  }

  /** Another member of the field's union is set. */
  predicate Conflict(fs: seq<FieldDesc>, f: FieldDesc, m: Msg) {
    f.oneof.Some? && exists i :: 0 <= i < |fs| && fs[i].oneof == f.oneof && fs[i].number != f.number && fs[i].number in m.fields
  }

  /** Setting a member of a union clears the other members. When the parser does not merge, there are none. */
  function Cleared(fs: seq<FieldDesc>, f: FieldDesc, m: Msg): Msg {
    if f.oneof.None? then m
    else Msg(map n | n in m.fields && !OtherMember(fs, f, n) :: m.fields[n])
  }

  predicate OtherMember(fs: seq<FieldDesc>, f: FieldDesc, n: nat) {
    exists i :: 0 <= i < |fs| && fs[i].oneof == f.oneof && fs[i].number != f.number && fs[i].number == n
  }

  lemma NothingCleared(fs: seq<FieldDesc>, f: FieldDesc, m: Msg)
    requires !Conflict(fs, f, m)
    ensures Cleared(fs, f, m) == m
  {
    if f.oneof.Some? {
      assert Cleared(fs, f, m).fields == m.fields;
    }
  }

  function Elements(m: Msg, n: nat): seq<Val> {
    if n in m.fields && m.fields[n].Many? then m.fields[n].vs else []
  }

  function StoreScalar(mode: Mode, f: FieldDesc, m: Msg, v: Val): Outcome<Msg> {
    if f.rule == Repeated then Done(Msg(m.fields[f.number := Many(Elements(m, f.number) + [v])]))
    else if !mode.allowMultipleScalars && f.number in m.fields then ParseError
    else Done(Msg(m.fields[f.number := One(v)]))
  }

  predicate BytesBefore(a: seq<byte>, b: seq<byte>) {
    b != [] && (a == [] || a[0] < b[0] || (a[0] == b[0] && BytesBefore(a[1..], b[1..])))
  }

  /** The order in which map keys are sorted. */
  predicate KeyBefore(a: Val, b: Val) {
    match (a, b)
    case (VInt(x), VInt(y)) => x < y
    case (VBool(x), VBool(y)) => !x && y
    case (VBytes(x), VBytes(y)) => BytesBefore(x, y)
    case _ => false
  }

  /** `map[key] = value` on the sorted items. */
  function InsertEntry(es: seq<(Val, Val)>, key: Val, value: Val): seq<(Val, Val)> {
    if es == [] then [(key, value)]
    else if es[0].0 == key then [(key, value)] + es[1..]
    else if KeyBefore(key, es[0].0) then [(key, value)] + es
    else [es[0]] + InsertEntry(es[1..], key, value)
  }

  function Items(m: Msg, n: nat): seq<(Val, Val)> {
    if n in m.fields && m.fields[n].Entries? then m.fields[n].es else []
  }

  /** What an unset field reads as. */
  function Default(reg: Registry, ty: Type): Val {
    match ty
    case TInt32 | TInt64 | TUint32 | TUint64 => VInt(0)
    case TBool => VBool(false)
    case TString | TBytes => VBytes([])
    case TEnum(name) => VInt(if EnumValues(reg, name) == [] then 0 else EnumValues(reg, name)[0].1)
    case TMessage(_) | TGroup(_) | TMap(_) => VMsg(EMPTY)
  }

  function Get(reg: Registry, f: FieldDesc, m: Msg): Val {
    if f.number in m.fields && m.fields[f.number].One? then m.fields[f.number].v else Default(reg, f.ty)
  }

  /** Where the parse of a nested message starts. */
  function SubMessage(f: FieldDesc, m: Msg): Msg {
    if f.rule == Optional && !f.ty.TMap? && f.number in m.fields && m.fields[f.number].One? && m.fields[f.number].v.VMsg?
    then m.fields[f.number].v.m else EMPTY
  }

  function StoreMessage(reg: Registry, f: FieldDesc, m: Msg, sub: Msg): Msg
    requires IsMessageType(f.ty)
  {
    if f.ty.TMap? then
      Msg(m.fields[f.number := Entries(InsertEntry(Items(m, f.number), Get(reg, EntryField(reg, f.ty.name, 1), sub),
                                                   Get(reg, EntryField(reg, f.ty.name, 2), sub)))])
    else if f.rule == Repeated then Msg(m.fields[f.number := Many(Elements(m, f.number) + [VMsg(sub)])])
    else Msg(m.fields[f.number := One(VMsg(sub))])
  }

  predicate StartsWith(ts: seq<string>, t: string) { ts != [] && ts[0] == t }

  predicate IsWord(t: string) {
    t != "" && (IsLetter(t[0]) || IsDigit(t[0]) || t[0] as int > 127)
  }

  /** `TryConsume` */
  function Dropped(ts: seq<string>, t: string): (rest: seq<string>)
    ensures |rest| <= |ts|
  {
    if StartsWith(ts, t) then ts[1..] else ts
  }

  /** The name of a field, with the colon behind it. */
  function FieldStart(reg: Registry, mode: Mode, t: string, ts: seq<string>, m: Msg): (r: Outcome<(FieldDesc, seq<string>)>)
    ensures r.Done? ==> |r.value.1| < |ts|
  {
    if ts == [] || ts[0] == "[" || !IsWord(ts[0]) then ParseError
    else match FindField(mode, DescOf(reg, t), ts[0])
    case None => ParseError
    case Some(f) =>
      if !mode.allowMultipleScalars && Conflict(DescOf(reg, t).byNumber, f, m) then ParseError
      else if !IsMessageType(f.ty) && !StartsWith(ts[1..], ":") then ParseError
      else Done((f, Dropped(ts[1..], ":")))
  }

  /** Fields may be separated by commas or semicolons. */
  function Separated(ts: seq<string>): (rest: seq<string>)
    ensures |rest| <= |ts|
  {
    if StartsWith(ts, ",") then ts[1..] else Dropped(ts, ";")
  }

  function MergeField(reg: Registry, mode: Mode, t: string, ts: seq<string>, m: Msg): (r: Outcome<(Msg, seq<string>)>)
    ensures r.Done? ==> |r.value.1| < |ts|
    decreases |ts|, 3
  {
    var start :- FieldStart(reg, mode, t, ts, m);
    var target := Cleared(DescOf(reg, t).byNumber, start.0, m);
    var merged :- if start.0.rule == Repeated && StartsWith(start.1, "[")
                  then MergeList(reg, mode, start.0, start.1[1..], target)
                  else MergeOne(reg, mode, start.0, start.1, target);
    Done((merged.0, Separated(merged.1)))
  }

  /** The short form of repeated fields, behind its opening bracket. */
  function MergeList(reg: Registry, mode: Mode, f: FieldDesc, ts: seq<string>, m: Msg): (r: Outcome<(Msg, seq<string>)>)
    ensures r.Done? ==> |r.value.1| < |ts|
    decreases |ts|, 2
  {
    var merged :- MergeOne(reg, mode, f, ts, m);
    if StartsWith(merged.1, "]") then Done((merged.0, merged.1[1..]))
    else if StartsWith(merged.1, ",") then MergeList(reg, mode, f, merged.1[1..], merged.0)
    else ParseError
  }

  /** `_MergeScalarField` or `_MergeMessageField` */
  function MergeOne(reg: Registry, mode: Mode, f: FieldDesc, ts: seq<string>, m: Msg): (r: Outcome<(Msg, seq<string>)>)
    ensures r.Done? ==> |r.value.1| < |ts|
    decreases |ts|, 1
  {
    if IsMessageType(f.ty) then
      if !StartsWith(ts, "<") && !StartsWith(ts, "{") then ParseError
      else
        var closing := if StartsWith(ts, "<") then ">" else "}";
        var sub :- MergeFields(reg, mode, f.ty.name, ts[1..], SubMessage(f, m), Some(closing));
        Done((StoreMessage(reg, f, m, sub.0), sub.1))
    else
      ScalarShorter(reg, f.ty, ts);
      var read :- ParseScalar(reg, f.ty, ts);
      var stored :- StoreScalar(mode, f, m, read.0);
      Done((stored, read.1))
  }

  /** Fields up to a closing bracket, or up to the end of the text. */
  function MergeFields(reg: Registry, mode: Mode, t: string, ts: seq<string>, m: Msg, closing: Option<string>):
    (r: Outcome<(Msg, seq<string>)>)
    ensures r.Done? ==> |r.value.1| <= |ts|
    decreases |ts|, 4
  {
    if closing.Some? && StartsWith(ts, closing.value) then Done((m, ts[1..]))
    else if ts == [] then (if closing.None? then Done((m, [])) else ParseError)
    else
      var merged :- MergeField(reg, mode, t, ts, m);
      MergeFields(reg, mode, t, merged.1, merged.0, closing)
  }

  /** `Parse` or `Merge` into a message. */
  function ParseText(reg: Registry, mode: Mode, t: string, text: string, m: Msg): Outcome<Msg> {
    var read :- MergeFields(reg, mode, t, Tokenize(text), m, None);
    Done(read.0)
  }
}
