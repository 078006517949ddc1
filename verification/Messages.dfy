/** `jspb.Message`: a data array split at a pivot, its extension object, lazily built wrappers of
    nested messages, and oneof unions. */
module Messages {
  import opened Js
  import opened Arith
  import opened Bookmarks

  /** JavaScript values in message data; arrays and extension objects are references. */
  datatype Value =
    | Undefined
    | Null
    | Num(n: int)
    | Text(units: seq<int>)
    | Bool(b: bool)
    | Bytes(bytes: seq<byte>)
    | List(arr: DataArray)
    | Extension(obj: ExtensionObject)

  predicate Nullish(v: Value) { v.Undefined? || v.Null? }

  predicate Falsy(v: Value) {
    Nullish(v) || v == Num(0) || v == Text([]) || v == Bool(false)
  }

  /** Exactly these five values are falsy; empty byte arrays and lists are not. */
  lemma FalsyValues(v: Value)
    ensures Falsy(v) <==> v in [Undefined, Null, Num(0), Text([]), Bool(false)]
    ensures Nullish(v) <==> v in [Undefined, Null]
  {
  }

  predicate EmptyList(v: Value)
    reads if v.List? then {v.arr} else {}
  {
    v.List? && v.arr.elems == []
  }

  class DataArray {
    var elems: seq<Value>

    constructor (es: seq<Value>)
      ensures elems == es
    {
      elems := es;
    }
  }

  class ExtensionObject {
    var props: map<nat, Value>

    constructor ()
      ensures props == map[]
    {
      props := map[];
    }
  }

  function ElemAt(elems: seq<Value>, i: int): Value {
    if 0 <= i < |elems| then elems[i] else Undefined
  }

  function PropAt(props: map<nat, Value>, f: nat): Value {
    if f in props then props[f] else Undefined
  }

  /** `elems[i] = v`, which fills a gap with holes. */
  function Stored(elems: seq<Value>, i: nat, v: Value): (r: seq<Value>)
    ensures |r| == if i < |elems| then |elems| else i + 1
    ensures forall j: int :: ElemAt(r, j) == if j == i then v else ElemAt(elems, j)
  {
    if i < |elems| then elems[i := v]
    else elems + seq(i - |elems|, _ => Undefined) + [v]
  }

  /** What generated code passes to `initialize`. */
  datatype Kind = Kind(messageId: Value, suggestedPivot: int, repeatedFields: seq<nat>, oneofs: seq<seq<nat>>)
  {
    /** `arrayIndexOffset_` */
    function Offset(): int {
      if messageId == Num(0) then -1 else 0
    }

    /** Field numbers are positive, and a field is in one union at most, where it occurs once. */
    ghost predicate Valid() {
      && (messageId.Num? || messageId.Text?) && suggestedPivot != 0
      && (forall i :: 0 <= i < |repeatedFields| ==> repeatedFields[i] >= 1)
      && (forall i :: 0 <= i < |oneofs| ==> Members(oneofs[i]))
      && (forall i, j, f :: 0 <= i < j < |oneofs| && f in oneofs[i] ==> f !in oneofs[j])
      && (forall i, f :: 0 <= i < |oneofs| && f in oneofs[i] ==> f !in repeatedFields)
    }

    predicate InUnion(f: nat) {
      exists i :: 0 <= i < |oneofs| && f in oneofs[i]
    }
  }

  ghost predicate Members(oneof: seq<nat>) {
    && (forall i :: 0 <= i < |oneof| ==> oneof[i] >= 1)
    && (forall i, j :: 0 <= i < j < |oneof| ==> oneof[i] != oneof[j])
  }

  predicate EndsWithExtension(elems: seq<Value>) {
    elems != [] && Last(elems).Extension?
  }

  /** The pivot that data determines. */
  function PivotOf(kind: Kind, elems: seq<Value>): Option<int> {
    if EndsWithExtension(elems) then Some(|elems| - 1 - kind.Offset())
    else if kind.suggestedPivot > -1 then Some(kind.suggestedPivot)
    else None
  }

  /** Extension objects are last elements, and without one the array ends before the pivot. */
  ghost predicate Proper(kind: Kind, elems: seq<Value>) {
    && (forall i :: 0 <= i < |elems| && elems[i].Extension? ==> i == |elems| - 1)
    && (!EndsWithExtension(elems) && kind.suggestedPivot > -1 ==> |elems| <= kind.suggestedPivot + kind.Offset())
  }

  /** A field as data alone determines it. */
  function DataField(kind: Kind, data: DataArray, f: nat): Value
    reads data, if EndsWithExtension(data.elems) then {Last(data.elems).obj} else {}
  {
    var pivot := PivotOf(kind, data.elems);
    if pivot.None? || f < pivot.value then ElemAt(data.elems, f + kind.Offset())
    else if EndsWithExtension(data.elems) then PropAt(Last(data.elems).obj.props, f)
    else Undefined
  }

  class MessageList {
    var items: seq<Message>

    constructor (ms: seq<Message>)
      ensures items == ms
    {
      items := ms;
    }
  }

  /** An entry of `wrappers_`. */
  datatype Wrapper = Gone | Single(m: Message) | Many(list: MessageList)

  /** A message argument of a setter, which may be null or undefined. */
  datatype Argument = Of(m: Message) | Missing(v: Value)
  {
    /** `value ? value.toArray() : value` */
    function Payload(): Value {
      match this
      case Of(m) => List(m.data)
      case Missing(v) => v
    }

    function AsWrapper(): Wrapper {
      match this
      case Of(m) => Single(m)
      case Missing(_) => Gone
    }
  }

  class Message {
    const kind: Kind
    const data: DataArray
    const pivot: Option<int>
    var extensionObject: ExtensionObject?
    var wrappers: map<nat, Wrapper>

    ghost function Repr(): set<object>
      reads this
    {
      {this, data} + if extensionObject == null then {} else {extensionObject}
    }

    /** The extension object, if there is one, is the last element of the array, at the pivot. */
    ghost predicate Shape()
      reads this`extensionObject, data
    {
      && kind.Valid() && Proper(kind, data.elems) && pivot == PivotOf(kind, data.elems)
      && (extensionObject == null <==> !EndsWithExtension(data.elems))
      && (extensionObject != null ==> Last(data.elems) == Extension(extensionObject))
    }

    /** `getField` */
    function Field(f: nat): Value
      reads this`extensionObject, data, if extensionObject == null then {} else {extensionObject}
    {
      if pivot.None? || f < pivot.value then ElemAt(data.elems, f + kind.Offset())
      else if extensionObject == null then Undefined
      else PropAt(extensionObject.props, f)
    }

    // ----- where fields are stored, with the positions written out -----

    /** Field f is element f - 1 of the array when the message id is 0, and element f, behind the id, when it
        is not. From the pivot on it is a property of the extension object. */
    lemma FieldStored(f: nat)
      requires Shape() && f >= 1
      ensures pivot.None? || f < pivot.value ==>
                (kind.messageId == Num(0) ==> Field(f) == if f - 1 < |data.elems| then data.elems[f - 1] else Undefined)
      ensures pivot.None? || f < pivot.value ==>
                (kind.messageId != Num(0) ==> Field(f) == if f < |data.elems| then data.elems[f] else Undefined)
      ensures pivot.Some? && f >= pivot.value ==>
                Field(f) == if extensionObject != null && f in extensionObject.props then extensionObject.props[f] else Undefined
    {
    }

    /** The pivot: with an extension object last among n elements it is n when the message id is 0 and n - 1
        when it is not; without one it is the suggested pivot, and with -1 for that there is none. */
    lemma PivotStored()
      requires Shape()
      ensures EndsWithExtension(data.elems) && kind.messageId == Num(0) ==> pivot == Some(|data.elems| as int)
      ensures EndsWithExtension(data.elems) && kind.messageId != Num(0) ==> pivot == Some(|data.elems| - 1)
      ensures !EndsWithExtension(data.elems) && kind.suggestedPivot >= 0 ==> pivot == Some(kind.suggestedPivot)
      ensures !EndsWithExtension(data.elems) && kind.suggestedPivot < 0 ==> pivot == None
    {
    }

    /** The message id in front of the fields, when there is one. */
    ghost function Id(): Option<Value>
      reads data
    {
      if kind.messageId != Num(0) && data.elems != [] then Some(data.elems[0]) else None
    }

    /** An id stays where it is. */
    ghost predicate IdKept(before: Option<Value>)
      reads data
    {
      before.Some? ==> Id() == before
    }

    /** Storing a value below the pivot changes element f - 1 when the message id is 0, and element f when it is
        not, filling up with holes; from the pivot on it sets one property. */
    twostate predicate StoredAt(f: nat, value: Value)
      requires f >= 1
      reads this`extensionObject, data, if extensionObject == null then {} else {extensionObject}
    {
      if pivot.None? || f < pivot.value then
        var at := if kind.messageId == Num(0) then f - 1 else f;
        var before := old(data.elems);
        && |data.elems| == (if at < |before| then |before| else at + 1) && data.elems[at] == value
        && forall j :: 0 <= j < |data.elems| && j != at ==>
             data.elems[j] == if j < |before| then before[j] else Undefined
      else
        extensionObject != null
        && extensionObject.props == old(if extensionObject == null then map[] else extensionObject.props)[f := value]
    }

    /** A well-shaped message shows what its data determines. */
    lemma FieldOfData(f: nat)
      requires Shape()
      ensures Field(f) == DataField(kind, data, f)
    {
    }

    lemma FieldPlain(f: nat)
      requires Shape() && f >= 1
      ensures Field(f).Extension? ==> pivot.Some? && f >= pivot.value
    {
    }

    lemma FieldPresent(f: nat)
      requires Shape() && f >= 1 && Field(f) != Undefined && pivot.Some? && f >= pivot.value
      ensures extensionObject != null
    {
    }

    /** `maybeInitEmptyExtensionObject_` */
    method MaybeInitEmptyExtensionObject()
      requires Shape() && pivot.Some?
      modifies this`extensionObject, data
      ensures Shape() && extensionObject != null
      ensures extensionObject == old(extensionObject) || (old(extensionObject) == null && fresh(extensionObject))
      ensures old(extensionObject) == null ==> extensionObject.props == map[]
      ensures forall g: nat :: g >= 1 ==> Field(g) == old(Field(g))
      ensures IdKept(old(Id()))
    {
      var pivotIndex := pivot.value + kind.Offset();
      if Falsy(ElemAt(data.elems, pivotIndex)) {
        var obj := new ExtensionObject();
        data.elems := Stored(data.elems, pivotIndex, Extension(obj));
        extensionObject := obj;
      }
    }

    method SetField(f: nat, value: Value)
      requires Shape() && f >= 1 && (value.Extension? ==> pivot.Some? && f >= pivot.value)
      modifies this`extensionObject, data, extensionObject
      ensures Shape()
      ensures extensionObject == old(extensionObject) || (old(extensionObject) == null && fresh(extensionObject))
      ensures pivot.None? || f < pivot.value ==> extensionObject == old(extensionObject)
      ensures Field(f) == value && StoredAt(f, value) && IdKept(old(Id()))
      ensures forall g: nat :: g >= 1 && g != f ==> Field(g) == old(Field(g))
    {
      if pivot.None? || f < pivot.value {
        data.elems := Stored(data.elems, f + kind.Offset(), value);
      } else {
        MaybeInitEmptyExtensionObject();
        extensionObject.props := extensionObject.props[f := value];
      }
    }

    /** `initialize`; without data, a response message starts with its id. */
    constructor (k: Kind, initial: DataArray?)
      requires k.Valid() && (initial != null ==> Proper(k, initial.elems))
      modifies if initial == null then {} else {initial}
      modifies if initial != null && EndsWithExtension(initial.elems) then {Last(initial.elems).obj} else {}
      ensures Shape() && kind == k && wrappers == map[] && Unions() && RepeatedSet()
      ensures if initial == null then fresh(Repr()) else data == initial
      ensures initial != null ==> pivot == PivotOf(k, old(initial.elems))
      ensures initial != null && old(EndsWithExtension(initial.elems)) ==> extensionObject == old(Last(initial.elems).obj)
      ensures initial != null && !old(EndsWithExtension(initial.elems)) ==> extensionObject == null || fresh(extensionObject)
      ensures initial != null && !old(EndsWithExtension(initial.elems)) ==>
                (forall f :: f in k.repeatedFields ==> !Falsy(old(DataField(k, initial, f)))) ==> extensionObject == null
      ensures initial != null ==> forall f: nat :: f >= 1 && f !in k.repeatedFields && !k.InUnion(f) ==>
                Field(f) == old(DataField(k, initial, f))
      ensures initial != null ==> forall f :: f in k.repeatedFields && !Falsy(old(DataField(k, initial, f))) ==>
                Field(f) == old(DataField(k, initial, f))
      ensures forall f :: f in k.repeatedFields && (initial == null || Falsy(old(DataField(k, initial, f)))) ==>
                EmptyList(Field(f)) && fresh(Field(f).arr)
      ensures initial != null ==> forall i, a :: 0 <= i < |k.oneofs| && 0 <= a < |k.oneofs[i]| ==>
                Field(k.oneofs[i][a])
                == if !Nullish(old(DataField(k, initial, k.oneofs[i][a])))
                      && (exists b :: a < b < |k.oneofs[i]| && !Nullish(old(DataField(k, initial, k.oneofs[i][b]))))
                   then Undefined else old(DataField(k, initial, k.oneofs[i][a]))
      ensures initial == null ==> forall f: nat :: f >= 1 && f !in k.repeatedFields ==> Field(f) == Undefined
      ensures k.messageId != Num(0) && (if initial == null then k.messageId != Text([]) else old(initial.elems) != []) ==>
                data.elems != [] && data.elems[0] == if initial == null then k.messageId else old(initial.elems[0])
    {
      hide StoredAt, AtMostOne, Unions;
      var start: DataArray;
      if initial == null {
        start := new DataArray(if Falsy(k.messageId) then [] else [k.messageId]);
      } else {
        start := initial;
      }
      kind, data, pivot := k, start, PivotOf(k, start.elems);
      extensionObject := if EndsWithExtension(start.elems) then Last(start.elems).obj else null;
      wrappers := map[];
      new;
      assert forall f: nat :: Field(f) == DataField(k, data, f);
      InitFields();
    }

    ghost predicate AtMostOne(oneof: seq<nat>)
      reads this`extensionObject, data, if extensionObject == null then {} else {extensionObject}
    {
      forall f, g :: f in oneof && g in oneof && !Nullish(Field(f)) && !Nullish(Field(g)) ==> f == g
    }

    ghost predicate Unions()
      reads this`extensionObject, data, if extensionObject == null then {} else {extensionObject}
    {
      forall i :: 0 <= i < |kind.oneofs| ==> AtMostOne(kind.oneofs[i])
    }

    ghost predicate RepeatedSet()
      reads this`extensionObject, data, if extensionObject == null then {} else {extensionObject}
    {
      forall f :: f in kind.repeatedFields ==> !Falsy(Field(f))
    }

    /** One repeated field in `initialize`: what is absent becomes a new empty list. */
    method InitRepeatedField(f: nat)
      requires Shape() && f >= 1
      modifies this`extensionObject, data, extensionObject
      ensures Shape() && IdKept(old(Id()))
      ensures extensionObject == old(extensionObject) || (old(extensionObject) == null && fresh(extensionObject))
      ensures !Falsy(old(Field(f))) ==> Field(f) == old(Field(f)) && extensionObject == old(extensionObject)
      ensures Falsy(old(Field(f))) ==> EmptyList(Field(f)) && fresh(Field(f).arr) && Field(f).arr != data
      ensures forall g: nat :: g >= 1 && g != f ==> Field(g) == old(Field(g))
    {
      hide StoredAt, Id;
      if Falsy(Field(f)) {
        var empty := new DataArray([]);
        SetField(f, List(empty));
      } else if pivot.Some? && f >= pivot.value {
        MaybeInitEmptyExtensionObject();
      }
    }

    /** The loop over the repeated fields in `initialize`. */
    method InitRepeatedFields()
      requires Shape()
      modifies this`extensionObject, data, extensionObject
      ensures Shape() && RepeatedSet() && IdKept(old(Id()))
      ensures extensionObject == old(extensionObject) || (old(extensionObject) == null && fresh(extensionObject))
      ensures old(RepeatedSet()) ==> extensionObject == old(extensionObject)
      ensures forall g :: g in kind.repeatedFields && Falsy(old(Field(g))) ==>
                EmptyList(Field(g)) && fresh(Field(g).arr) && Field(g).arr != data
      ensures forall g: nat :: g >= 1 && (g !in kind.repeatedFields || !Falsy(old(Field(g)))) ==> Field(g) == old(Field(g))
    {
      hide StoredAt, Id, Shape;
      assert kind.Valid() by { ShapeKind(); }
      for i := 0 to |kind.repeatedFields|
        invariant Shape() && IdKept(old(Id()))
        invariant extensionObject == old(extensionObject) || (old(extensionObject) == null && fresh(extensionObject))
        invariant old(RepeatedSet()) ==> extensionObject == old(extensionObject)
        invariant forall g :: g in kind.repeatedFields[..i] && Falsy(old(Field(g))) ==>
                    EmptyList(Field(g)) && fresh(Field(g).arr) && Field(g).arr != data
        invariant forall g: nat :: g >= 1 && (g !in kind.repeatedFields[..i] || !Falsy(old(Field(g)))) ==>
                    Field(g) == old(Field(g))
      {
        var f := kind.repeatedFields[i];
        assert kind.repeatedFields[..i + 1] == kind.repeatedFields[..i] + [f];
        label L:
        InitRepeatedField(f);
        forall g | g in kind.repeatedFields[..i + 1] && Falsy(old(Field(g)))
          ensures EmptyList(Field(g)) && fresh(Field(g).arr) && Field(g).arr != data
        {
          if g in kind.repeatedFields[..i] {
            assert EmptyList(old@L(Field(g))) && Field(g) == old@L(Field(g));
          } else {
            assert g == f;
          }
        }
      }
      assert kind.repeatedFields[..|kind.repeatedFields|] == kind.repeatedFields;
    }

    lemma ShapeKind()
      requires Shape()
      ensures kind.Valid()
    {
    }

    /** A member of the union is set, and another one behind it. */
    ghost predicate OthersBehind(oneof: seq<nat>, a: nat)
      requires a < |oneof|
      reads this`extensionObject, data, if extensionObject == null then {} else {extensionObject}
    {
      !Nullish(Field(oneof[a])) && exists b :: a < b < |oneof| && !Nullish(Field(oneof[b]))
    }

    /** The last member of the union that is set, or 0; every other member is unset. */
    method ComputeOneofCase(oneof: seq<nat>) returns (oneofField: nat)
      requires Shape() && Members(oneof)
      modifies this`extensionObject, data, extensionObject
      ensures Shape() && AtMostOne(oneof) && extensionObject == old(extensionObject) && IdKept(old(Id()))
      ensures oneofField == 0 <==> forall f :: f in oneof ==> Nullish(old(Field(f)))
      ensures oneofField != 0 ==> oneofField in oneof && !Nullish(old(Field(oneofField)))
      ensures forall i, j :: 0 <= i < j < |oneof| && oneof[i] == oneofField ==> Nullish(old(Field(oneof[j])))
      ensures forall g: nat :: g >= 1 ==>
                Field(g) == if g in oneof && g != oneofField && !Nullish(old(Field(g))) then Undefined else old(Field(g))
    {
      hide StoredAt, Id, Field, Shape, PivotOf, Proper, EndsWithExtension, ElemAt, Stored;
      oneofField := 0;
      var oneofValue := Undefined;
      for i := 0 to |oneof|
        invariant Shape() && extensionObject == old(extensionObject) && IdKept(old(Id()))
        invariant oneofField == 0 ==> forall j :: 0 <= j < i ==> Nullish(old(Field(oneof[j])))
        invariant oneofField != 0 ==> oneofField in oneof[..i] && oneofValue == old(Field(oneofField)) && !Nullish(oneofValue)
        invariant forall j, k :: 0 <= j < k < i && oneof[j] == oneofField ==> Nullish(old(Field(oneof[k])))
        invariant oneofValue.Extension? ==> pivot.Some? && oneofField >= pivot.value
        invariant oneofField != 0 && pivot.Some? && oneofField >= pivot.value ==> extensionObject != null
        invariant forall g: nat :: g >= 1 ==>
                    Field(g) == if g in oneof[..i] && !Nullish(old(Field(g))) then Undefined else old(Field(g))
      {
        var fieldNumber := oneof[i];
        assert fieldNumber !in oneof[..i] && oneof[..i + 1] == oneof[..i] + [fieldNumber];
        FieldPlain(fieldNumber);
        var value := Field(fieldNumber);
        if !Nullish(value) {
          if pivot.Some? && fieldNumber >= pivot.value {
            FieldPresent(fieldNumber);
          }
          oneofField := fieldNumber;
          oneofValue := value;
          label L:
          SetField(fieldNumber, Undefined);
          assert IdKept(old@L(Id()));
        }
      }
      if oneofField != 0 {
        SetField(oneofField, oneofValue);
      }
    }

    /** `computeOneofCase` as `initialize` uses it: of the members that are set, the last one stays. */
    method KeepLast(oneof: seq<nat>)
      requires Shape() && Members(oneof)
      modifies this`extensionObject, data, extensionObject
      ensures Shape() && AtMostOne(oneof) && extensionObject == old(extensionObject) && IdKept(old(Id()))
      ensures forall g: nat :: g >= 1 && g !in oneof ==> Field(g) == old(Field(g))
      ensures LastStays(oneof)
    {
      hide Id, Field, Shape, AtMostOne;
      var oneofField := ComputeOneofCase(oneof);
      forall a | 0 <= a < |oneof|
        ensures Field(oneof[a]) == if old(OthersBehind(oneof, a)) then Undefined else old(Field(oneof[a]))
      {
        if oneof[a] != oneofField && !Nullish(old(Field(oneof[a]))) {
          var k :| 0 <= k < |oneof| && oneof[k] == oneofField;
          assert a < k;
        }
      }
    }

    /** Members that are what they were are followed by what they were followed by. */
    twostate lemma SameBehind(oneof: seq<nat>)
      requires forall f :: f in oneof ==> Field(f) == old(Field(f))
      ensures forall a :: 0 <= a < |oneof| ==> OthersBehind(oneof, a) == old(OthersBehind(oneof, a))
    {
      hide Field;
    }

    /** The loop over the unions in `initialize`: each keeps its last member that is set. */
    method InitUnions()
      requires Shape() && RepeatedSet()
      modifies this`extensionObject, data, extensionObject
      ensures Shape() && RepeatedSet() && Unions() && extensionObject == old(extensionObject) && IdKept(old(Id()))
      ensures forall g: nat :: g >= 1 && !kind.InUnion(g) ==> Field(g) == old(Field(g))
      ensures forall i :: 0 <= i < |kind.oneofs| ==> LastStays(kind.oneofs[i])
    {
      hide Field, Shape, OthersBehind, Id;
      assert kind.Valid() by { ShapeKind(); }
      for n := 0 to |kind.oneofs|
        invariant Shape() && extensionObject == old(extensionObject) && IdKept(old(Id()))
        invariant forall i :: 0 <= i < n ==> AtMostOne(kind.oneofs[i]) && LastStays(kind.oneofs[i])
        invariant forall g: nat :: g >= 1 && !kind.InUnion(g) ==> Field(g) == old(Field(g))
        invariant forall i, f :: n <= i < |kind.oneofs| && f in kind.oneofs[i] ==> Field(f) == old(Field(f))
      {
        SameBehind(kind.oneofs[n]);
        label L:
        KeepLast(kind.oneofs[n]);
        forall i | 0 <= i < n
          ensures AtMostOne(kind.oneofs[i]) && LastStays(kind.oneofs[i])
        {
          assert Members(kind.oneofs[i]);
          assert forall f :: f in kind.oneofs[i] ==> Field(f) == old@L(Field(f));
        }
      }
    }

    /** Of the members that were set, the last one is what it was, and all others are unset. */
    twostate predicate LastStays(oneof: seq<nat>)
      reads this`extensionObject, data, if extensionObject == null then {} else {extensionObject}
    {
      forall a :: 0 <= a < |oneof| ==>
        Field(oneof[a]) == if old(OthersBehind(oneof, a)) then Undefined else old(Field(oneof[a]))
    }

    /** The loops of `initialize`. */
    method InitFields()
      requires Shape()
      modifies this`extensionObject, data, extensionObject
      ensures Shape() && Unions() && RepeatedSet() && IdKept(old(Id()))
      ensures extensionObject == old(extensionObject) || (old(extensionObject) == null && fresh(extensionObject))
      ensures old(RepeatedSet()) ==> extensionObject == old(extensionObject)
      ensures forall g :: g in kind.repeatedFields && Falsy(old(Field(g))) ==> EmptyList(Field(g)) && fresh(Field(g).arr)
      ensures forall g :: g in kind.repeatedFields && !Falsy(old(Field(g))) ==> Field(g) == old(Field(g))
      ensures forall g: nat :: g >= 1 && g !in kind.repeatedFields && !kind.InUnion(g) ==> Field(g) == old(Field(g))
      ensures forall i :: 0 <= i < |kind.oneofs| ==> LastStays(kind.oneofs[i])
    {
      hide StoredAt, Id, Shape, Field, OthersBehind;
      assert kind.Valid() by { ShapeKind(); }
      InitRepeatedFields();
      forall i | 0 <= i < |kind.oneofs|
        ensures forall f :: f in kind.oneofs[i] ==> Field(f) == old(Field(f))
      {
        assert Members(kind.oneofs[i]);
      }
      forall i | 0 <= i < |kind.oneofs|
        ensures forall a :: 0 <= a < |kind.oneofs[i]| ==> OthersBehind(kind.oneofs[i], a) == old(OthersBehind(kind.oneofs[i], a))
      {
        SameBehind(kind.oneofs[i]);
      }
      assert forall g :: g in kind.repeatedFields ==> g >= 1 && !kind.InUnion(g);
      label L:
      InitUnions();
      forall g | g in kind.repeatedFields && Falsy(old(Field(g)))
        ensures EmptyList(Field(g)) && fresh(Field(g).arr)
      {
        assert old@L(EmptyList(Field(g)) && Field(g).arr != data) && Field(g) == old@L(Field(g));
      }
    }

    // ----- wrappers -----

    /** A live wrapper and the stored data are views of the same arrays. */
    ghost predicate LinkedAt(g: nat)
      requires g in wrappers
      reads *
    {
      match wrappers[g]
      case Gone => true
      case Single(m) => Field(g) == List(m.data)
      case Many(list) =>
        && Field(g).List? && Field(g).arr != data && |Field(g).arr.elems| == |list.items|
        && forall i :: 0 <= i < |list.items| ==> Field(g).arr.elems[i] == List(list.items[i].data)
    }

    ghost predicate Linked()
      reads *
    {
      && (forall g :: g in wrappers ==> g >= 1 && LinkedAt(g))
      && (forall g, h :: g in wrappers && h in wrappers && g != h && wrappers[g].Many? && wrappers[h].Many? ==>
            Field(g) != Field(h) && wrappers[g].list != wrappers[h].list)
    }

    /** What initialisation and every setter keep. */
    ghost predicate Valid()
      reads *
    {
      kind.Valid() && Shape() && Unions() && RepeatedSet() && Linked()
    }

    /** Setting one field and its wrapper consistently leaves all wrappers linked. */
    twostate lemma StaysLinked(f: nat)
      requires old(Linked())
      requires forall g :: g in old(wrappers) && g != f && old(wrappers[g].Many? && Field(g).List?) ==>
                 old(Field(g)).arr.elems == old(Field(g).arr.elems)
                 && old(wrappers[g]).list.items == old(wrappers[g].list.items)
      requires f >= 1 && f in wrappers && LinkedAt(f)
      requires wrappers[f].Many? ==> forall h :: h in wrappers && h != f && wrappers[h].Many? ==>
                 Field(h) != Field(f) && wrappers[h].list != wrappers[f].list
      requires forall g :: g in wrappers && g != f ==> g in old(wrappers)
      requires forall g :: g in wrappers && g != f && !wrappers[g].Gone? ==>
                 wrappers[g] == old(wrappers[g]) && (g >= 1 ==> Field(g) == old(Field(g)))
      ensures Linked()
    {
    }

    /** A message whose fields and arrays are as before, and whose data is still in shape, stays valid. */
    twostate lemma StillValid()
      requires old(Valid()) && Shape()
      requires forall a: DataArray :: old(allocated(a)) && a != data ==> a.elems == old(a.elems)
      requires forall l: MessageList :: old(allocated(l)) ==> l.items == old(l.items)
      requires wrappers == old(wrappers) && forall g: nat :: g >= 1 ==> Field(g) == old(Field(g))
      ensures Valid()
    {
      hide Shape, Field;
      assert Unions() by { SameUnions(); }
      assert Linked() by { SameLinks(); }
    }

    twostate lemma SameUnions()
      requires old(kind.Valid() && Unions())
      requires forall g: nat :: g >= 1 ==> Field(g) == old(Field(g))
      ensures Unions()
    {
      hide Field;
      forall i | 0 <= i < |kind.oneofs|
        ensures AtMostOne(kind.oneofs[i])
      {
        assert old(AtMostOne(kind.oneofs[i])) && Members(kind.oneofs[i]);
      }
    }

    /** Live wrappers that are what they were, on fields that are what they were, stay linked. */
    twostate lemma SameLinks()
      requires old(Linked())
      requires forall a: DataArray :: old(allocated(a)) && a != data ==> a.elems == old(a.elems)
      requires forall l: MessageList :: old(allocated(l)) ==> l.items == old(l.items)
      requires forall g :: g in wrappers ==> g in old(wrappers)
      requires forall g :: g in wrappers && !wrappers[g].Gone? ==>
                 wrappers[g] == old(wrappers[g]) && (g >= 1 ==> Field(g) == old(Field(g)))
      ensures Linked()
    {
      hide Field;
      forall g | g in wrappers
        ensures g >= 1 && LinkedAt(g)
      {
        assert old(LinkedAt(g));
      }
    }

    twostate lemma StillLinked(f: nat)
      requires old(Linked())
      requires forall a: DataArray :: old(allocated(a)) && a != data ==> a.elems == old(a.elems)
      requires forall l: MessageList :: old(allocated(l)) ==> l.items == old(l.items)
      requires f >= 1 && f in wrappers && LinkedAt(f)
      requires wrappers[f].Many? ==> forall h :: h in wrappers && h != f && wrappers[h].Many? ==>
                 Field(h) != Field(f) && wrappers[h].list != wrappers[f].list
      requires forall g :: g in wrappers && g != f ==> g in old(wrappers)
      requires forall g :: g in wrappers && g != f && !wrappers[g].Gone? ==>
                 wrappers[g] == old(wrappers[g]) && (g >= 1 ==> Field(g) == old(Field(g)))
      ensures Linked()
    {
    }

    lemma LinkedMessage(f: nat)
      requires Linked() && f in wrappers && wrappers[f].Single?
      ensures Field(f) == List(wrappers[f].m.data)
    {
    }

    lemma WrappedNumbers()
      requires Linked()
      ensures forall g :: g in wrappers ==> g >= 1
    {
    }

    ghost predicate NoWrapper(f: nat)
      reads this
    {
      f in wrappers ==> wrappers[f].Gone?
    }

    /** `setField` on a field that has no wrapper and is in no union. */
    method SetPlainField(f: nat, value: Value)
      requires Valid() && f >= 1 && !value.Extension? && NoWrapper(f) && !kind.InUnion(f)
      requires f in kind.repeatedFields ==> !Falsy(value)
      modifies this`extensionObject, data, extensionObject
      ensures Valid() && Field(f) == value && IdKept(old(Id()))
      ensures extensionObject == old(extensionObject) || (old(extensionObject) == null && fresh(extensionObject))
      ensures forall g: nat :: g >= 1 && g != f ==> Field(g) == old(Field(g))
    {
      hide Shape, StoredAt, Id;
      SetField(f, value);
    }

    method SetOneofField(f: nat, oneof: seq<nat>, value: Value)
      requires Shape() && Members(oneof) && f in oneof && !value.Extension?
      modifies this, data, extensionObject
      ensures Shape() && AtMostOne(oneof) && IdKept(old(Id()))
      ensures extensionObject == old(extensionObject) || (old(extensionObject) == null && fresh(extensionObject))
      ensures forall g: nat :: g >= 1 && g !in oneof ==> Field(g) == old(Field(g))
      ensures old(AtMostOne(oneof)) ==> forall g: nat :: g >= 1 ==>
                Field(g) == if g == f then value
                            else if g in oneof && value != Undefined && !Nullish(old(Field(g))) then Undefined
                            else old(Field(g))
      ensures wrappers.Keys == old(wrappers.Keys)
      ensures old(AtMostOne(oneof)) ==> forall g :: g in wrappers ==>
                wrappers[g] == if g in oneof && g != f && value != Undefined && !Nullish(old(Field(g))) then Gone
                               else old(wrappers[g])
    {
      hide Shape, Field, StoredAt, Id, OthersBehind, LastStays;
      var currentCase := ComputeOneofCase(oneof);
      if currentCase != 0 && currentCase != f && value != Undefined {
        if currentCase in wrappers {
          wrappers := wrappers[currentCase := Gone];
        }
        SetField(currentCase, Undefined);
      }
      SetField(f, value);
    }

    /** A union keeps at most one member, whichever member is set to what. */
    method SetOneofScalarField(f: nat, n: nat, value: Value)
      requires Valid() && n < |kind.oneofs| && f in kind.oneofs[n] && !value.Extension? && NoWrapper(f)
      modifies this, data, extensionObject
      ensures Valid() && Field(f) == value && IdKept(old(Id()))
      ensures forall g: nat :: g >= 1 && g !in kind.oneofs[n] ==> Field(g) == old(Field(g))
      ensures value != Undefined ==> forall g :: g in kind.oneofs[n] && g != f ==> Nullish(Field(g))
    {
      hide Shape, Linked, Field, Unions, RepeatedSet;
      assert AtMostOne(kind.oneofs[n]) by { OneUnion(n); }
      SetOneofField(f, kind.oneofs[n], value);
      UnionChanged(n);
      SameLinks();
    }

    method SetWrapperField(f: nat, value: Argument)
      requires Valid() && f >= 1 && !kind.InUnion(f) && f !in kind.repeatedFields
      requires value.Missing? ==> Nullish(value.v)
      modifies this, data, extensionObject
      ensures Valid() && Field(f) == value.Payload() && IdKept(old(Id()))
      ensures forall g: nat :: g >= 1 && g != f ==> Field(g) == old(Field(g))
      ensures wrappers == old(wrappers)[f := value.AsWrapper()]
    {
      hide Shape, StoredAt, Id, PivotOf, Proper, EndsWithExtension;
      wrappers := wrappers[f := value.AsWrapper()];
      SetField(f, value.Payload());
    }

    lemma OneUnion(n: nat)
      requires Unions() && n < |kind.oneofs|
      ensures AtMostOne(kind.oneofs[n])
    {
    }

    /** Changing the members of one union leaves the other unions and the repeated fields alone. */
    twostate lemma UnionChanged(n: nat)
      requires kind.Valid() && n < |kind.oneofs| && old(Unions() && RepeatedSet()) && AtMostOne(kind.oneofs[n])
      requires forall g: nat :: g >= 1 && g !in kind.oneofs[n] ==> Field(g) == old(Field(g))
      ensures Unions() && RepeatedSet()
    {
      hide Field;
      forall i | 0 <= i < |kind.oneofs|
        ensures AtMostOne(kind.oneofs[i])
      {
        assert old(AtMostOne(kind.oneofs[i])) && Members(kind.oneofs[i]);
      }
    }

    method SetOneofWrapperField(f: nat, n: nat, value: Argument)
      requires Valid() && n < |kind.oneofs| && f in kind.oneofs[n]
      requires value.Missing? ==> Nullish(value.v)
      modifies this, data, extensionObject
      ensures Valid() && Field(f) == value.Payload() && IdKept(old(Id()))
      ensures f in wrappers && wrappers[f] == value.AsWrapper()
      ensures forall g: nat :: g >= 1 && g !in kind.oneofs[n] ==> Field(g) == old(Field(g))
      ensures value.Payload() != Undefined ==> forall g :: g in kind.oneofs[n] && g != f ==> Nullish(Field(g))
    {
      hide Shape, Linked, Field, Unions, RepeatedSet;
      assert AtMostOne(kind.oneofs[n]) by { OneUnion(n); }
      wrappers := wrappers[f := value.AsWrapper()];
      SetOneofField(f, kind.oneofs[n], value.Payload());
      UnionChanged(n);
      StillLinked(f);
    }

    /** The array behind a nested message that is about to be wrapped: well formed, and not shared with
        the parts that the other views of this message rest on. */
    ghost predicate Wrappable(ctor: Kind, a: DataArray)
      reads *
    {
      && ctor.Valid() && Proper(ctor, a.elems) && a != data
      && (EndsWithExtension(a.elems) ==> Last(a.elems).obj != extensionObject)
      && (forall g :: g in wrappers && wrappers[g].Many? && Field(g).List? ==> Field(g).arr != a)
    }

    /** `getWrapperField` without `opt_required`: wraps the stored array on first use. */
    method GetWrapperField(ctor: Kind, f: nat) returns (m: Message?)
      requires Valid() && f >= 1 && f !in kind.repeatedFields
      requires f in wrappers ==> !wrappers[f].Many?
      requires NoWrapper(f) && !Falsy(Field(f)) ==> Field(f).List? && Wrappable(ctor, Field(f).arr)
      modifies this`wrappers
      modifies if NoWrapper(f) && Field(f).List? then {Field(f).arr} else {}
      modifies if NoWrapper(f) && Field(f).List? && EndsWithExtension(Field(f).arr.elems) then {Last(Field(f).arr.elems).obj} else {}
      ensures Valid() && forall g: nat :: Field(g) == old(Field(g))
      ensures m == null <==> old(NoWrapper(f)) && Falsy(old(Field(f)))
      ensures m != null ==> f in wrappers && wrappers[f] == Single(m) && Field(f) == List(m.data)
      ensures m != null && old(NoWrapper(f)) ==> fresh(m) && m.kind == ctor
      ensures f in old(wrappers) && old(wrappers)[f].Single? ==> m == old(wrappers)[f].m
    {
      hide Shape, Linked;
      WrappedNumbers();
      if f !in wrappers || wrappers[f].Gone? {
        var stored := Field(f);
        if Falsy(stored) {
          return null;
        }
        m := new Message(ctor, stored.arr);
        wrappers := wrappers[f := Single(m)];
        StaysLinked(f);
      } else {
        LinkedMessage(f);
        m := wrappers[f].m;
      }
    }

    /** Setting a field outside the unions to something leaves unions and repeated fields in order. */
    twostate lemma OtherField(f: nat)
      requires kind.Valid() && !kind.InUnion(f) && old(Unions() && RepeatedSet()) && !Falsy(Field(f))
      requires forall g: nat :: g >= 1 && g != f ==> Field(g) == old(Field(g))
      ensures Unions() && RepeatedSet()
    {
      hide Field;
      forall i | 0 <= i < |kind.oneofs|
        ensures AtMostOne(kind.oneofs[i])
      {
        assert old(AtMostOne(kind.oneofs[i])) && Members(kind.oneofs[i]);
      }
    }

    /** `setRepeatedWrapperField`: the list itself becomes the wrapper, its arrays the data. */
    method SetRepeatedWrapperField(f: nat, value: MessageList?)
      requires Valid() && f >= 1 && !kind.InUnion(f)
      requires value != null ==> forall g :: g in wrappers && g != f && wrappers[g].Many? ==> wrappers[g].list != value
      modifies this, data, extensionObject
      ensures Valid() && f in wrappers && wrappers[f].Many? && IdKept(old(Id()))
      ensures if value == null then wrappers[f].list.items == [] else wrappers[f].list == value
      ensures forall g: nat :: g >= 1 && g != f ==> Field(g) == old(Field(g))
    {
      hide Shape, StoredAt, Linked, PivotOf, Proper, EndsWithExtension, Unions, RepeatedSet;
      WrappedNumbers();
      var list: MessageList;
      if value == null {
        list := new MessageList([]);
      } else {
        list := value;
      }
      var stored := ArraysOf(list);
      wrappers := wrappers[f := Many(list)];
      SetField(f, List(stored));
      OtherField(f);
      StillLinked(f);
    }

    /** The children of a repeated message field can be wrapped one after the other. */
    ghost predicate WrappableList(ctor: Kind, a: DataArray)
      reads *
    {
      && (forall i :: 0 <= i < |a.elems| ==> a.elems[i].List? && a.elems[i].arr != a && Wrappable(ctor, a.elems[i].arr))
      && (forall i, j :: 0 <= i < j < |a.elems| && a.elems[i].List? ==> a.elems[i] != a.elems[j])
    }

    ghost function Children(a: DataArray): set<object>
      reads *
    {
      (set i | 0 <= i < |a.elems| && a.elems[i].List? :: a.elems[i].arr as object)
      + (set i | 0 <= i < |a.elems| && a.elems[i].List? && EndsWithExtension(a.elems[i].arr.elems) ::
           Last(a.elems[i].arr.elems).obj as object)
    }

    /** `wrapRepeatedField_`, on a field without wrappers. */
    method WrapChildren(ctor: Kind, a: DataArray) returns (list: MessageList)
      requires WrappableList(ctor, a) && a != data
      modifies Children(a)
      ensures fresh(list) && |list.items| == |a.elems| && a.elems == old(a.elems)
      ensures forall i :: 0 <= i < |a.elems| ==> a.elems[i] == List(list.items[i].data) && list.items[i].kind == ctor
    {
      list := new MessageList([]);
      for i := 0 to |a.elems|
        invariant fresh(list) && |list.items| == i && a.elems == old(a.elems)
        invariant forall j :: 0 <= j < i ==> a.elems[j] == List(list.items[j].data) && list.items[j].kind == ctor
        invariant forall j :: i <= j < |a.elems| ==> a.elems[j].arr.elems == old(a.elems[j].arr.elems)
      {
        var child := new Message(ctor, a.elems[i].arr);
        list.items := list.items + [child];
      }
    }

    /** A field whose children are about to be wrapped: its array is not shared with other views. */
    ghost predicate WrappableField(ctor: Kind, f: nat)
      reads *
    {
      && Field(f).List? && Field(f).arr != data && WrappableList(ctor, Field(f).arr)
      && (forall g :: g in wrappers && g != f && wrappers[g].Many? ==> Field(g) != Field(f))
    }

    /** `wrapRepeatedField_` */
    method WrapRepeatedField(ctor: Kind, f: nat)
      requires Valid() && f >= 1 && (f in wrappers ==> !wrappers[f].Single?)
      requires NoWrapper(f) ==> WrappableField(ctor, f)
      modifies this`wrappers
      modifies if NoWrapper(f) && Field(f).List? then Children(Field(f).arr) else {}
      ensures Valid() && f in wrappers && wrappers[f].Many?
      ensures f in old(wrappers) && old(wrappers)[f].Many? ==> wrappers == old(wrappers)
      ensures !(f in old(wrappers) && old(wrappers)[f].Many?) ==>
                fresh(wrappers[f].list) && forall i :: 0 <= i < |wrappers[f].list.items| ==> wrappers[f].list.items[i].kind == ctor
      ensures forall g: nat :: Field(g) == old(Field(g))
      ensures Field(f).arr.elems == old(Field(f).arr.elems)
    {
      hide Shape, Linked, Unions, RepeatedSet;
      WrappedNumbers();
      if f !in wrappers || wrappers[f].Gone? {
        assert forall g :: g in wrappers && wrappers[g].Many? && Field(g).List? ==> Field(g).arr !in Children(Field(f).arr);
        var list := WrapChildren(ctor, Field(f).arr);
        wrappers := wrappers[f := Many(list)];
        StaysLinked(f);
      }
    }

    /** The end of `addToRepeatedWrapperField`: the message goes into the wrappers, its array into the data. */
    method InsertWrapped(f: nat, value: Message, index: Option<nat>)
      requires Valid() && f in wrappers && wrappers[f].Many? && !kind.InUnion(f)
      modifies wrappers[f].list, if Field(f).List? then {Field(f).arr} else {}
      ensures Valid() && wrappers == old(wrappers)
      ensures wrappers[f].list.items == Spliced(old(wrappers[f].list.items), index, value)
      ensures forall g: nat :: Field(g) == old(Field(g))
      ensures Field(f).arr.elems == Spliced(old(Field(f).arr.elems), index, List(value.data))
    {
      hide Shape;
      var wrapperArray := wrappers[f].list;
      var stored := Field(f).arr;
      wrapperArray.items := Spliced(wrapperArray.items, index, value);
      stored.elems := Spliced(stored.elems, index, List(value.data));
    }

    method AddToRepeatedWrapperField(ctor: Kind, f: nat, value: Message?, index: Option<nat>) returns (inserted: Message)
      requires Valid() && f >= 1 && !kind.InUnion(f) && (f in wrappers ==> !wrappers[f].Single?) && ctor.Valid()
      requires NoWrapper(f) ==> WrappableField(ctor, f)
      modifies this`wrappers
      modifies if NoWrapper(f) && Field(f).List? then Children(Field(f).arr) else {}
      modifies if Field(f).List? then {Field(f).arr} else {}
      modifies if f in wrappers && wrappers[f].Many? then {wrappers[f].list} else {}
      ensures Valid() && f in wrappers && wrappers[f].Many? && Field(f).List?
      ensures if value != null then inserted == value else fresh(inserted) && inserted.kind == ctor
      ensures Field(f).arr.elems == Spliced(old(Field(f).arr.elems), index, List(inserted.data))
      ensures |wrappers[f].list.items| == |Field(f).arr.elems|
      ensures forall g: nat :: Field(g) == old(Field(g))
    {
      hide Shape, PivotOf, Proper, EndsWithExtension, Spliced;
      WrapRepeatedField(ctor, f);
      if value == null {
        inserted := new Message(ctor, null);
      } else {
        inserted := value;
      }
      InsertWrapped(f, inserted, index);
    }
  }

  /** The arrays of a list of messages. */
  method ArraysOf(list: MessageList) returns (stored: DataArray)
    ensures fresh(stored) && |stored.elems| == |list.items|
    ensures forall i :: 0 <= i < |list.items| ==> stored.elems[i] == List(list.items[i].data)
  {
    stored := new DataArray([]);
    for i := 0 to |list.items|
      invariant |stored.elems| == i && forall j :: 0 <= j < i ==> stored.elems[j] == List(list.items[j].data)
      modifies stored
    {
      stored.elems := stored.elems + [List(list.items[i].data)];
    }
  }

  /** `a.splice(index, 0, x)`, or `a.push(x)` without an index. */
  function Spliced<T>(s: seq<T>, index: Option<nat>, x: T): seq<T> {
    if index.Some? && index.value <= |s| then s[..index.value] + [x] + s[index.value..] else s + [x]
  }

  /** An element goes in front of the one at the index; without an index, or behind the end, it comes last. */
  lemma SplicedAt<T>(s: seq<T>, index: Option<nat>, x: T, k: nat)
    requires k <= |s|
    ensures var at := if index.Some? && index.value < |s| then index.value else |s|;
            |Spliced(s, index, x)| == |s| + 1
            && Spliced(s, index, x)[k] == if k < at then s[k] else if k == at then x else s[k - 1]
  {
  }

  /** Initialising over the array of a message whose unions and repeated fields are in order sets nothing. */
  method Rebuilt(m: Message) returns (again: Message)
    requires m.Shape() && m.Unions() && m.RepeatedSet()
    modifies m.data, m.extensionObject
    ensures again.Shape() && again.Unions() && again.RepeatedSet() && again.wrappers == map[]
    ensures again.kind == m.kind && again.data == m.data && m.Shape()
    ensures again.extensionObject == m.extensionObject == old(m.extensionObject)
    ensures forall f: nat :: f >= 1 ==> again.Field(f) == old(m.Field(f)) && m.Field(f) == old(m.Field(f))
  {
    assert forall f: nat :: m.Field(f) == DataField(m.kind, m.data, f);
    again := new Message(m.kind, m.data);
    forall f: nat | f >= 1
      ensures again.Field(f) == old(m.Field(f))
    {
      if m.kind.InUnion(f) {
        var i :| 0 <= i < |m.kind.oneofs| && f in m.kind.oneofs[i];
        assert old(m.AtMostOne(m.kind.oneofs[i]));
      }
    }
  }

  /** `new msg.constructor(msg.toArray())`: a second message over the same array shows the same fields, and
      the first one stays valid and still shows what it did. */
  method Reinitialise(m: Message) returns (again: Message)
    requires m.Valid()
    modifies m.data, m.extensionObject
    ensures again.Valid() && again.kind == m.kind && again.data == m.data
    ensures m.Valid() && m.wrappers == old(m.wrappers) && again.extensionObject == m.extensionObject == old(m.extensionObject)
    ensures forall f: nat :: f >= 1 ==> again.Field(f) == old(m.Field(f)) && m.Field(f) == old(m.Field(f))
  {
    hide Message.Shape, Message.Unions, Message.RepeatedSet, Message.Field;
    again := Rebuilt(m);
    m.StillValid();
  }
}
