/** Structural comparison and cloning of message data in `jspb.Message`. */
module Compare {
  import opened Arith
  import opened Js
  import opened Bookmarks

  type Name = seq<int>

  /** JavaScript values as they occur in message data: arrays may end in an extension object. */
  datatype Data =
    | Undefined
    | Null
    | Num(n: int)
    | Text(units: seq<int>)
    | Bool(b: bool)
    | Bytes(bytes: seq<byte>)
    | Arr(elems: seq<Data>)
    | Obj(props: map<Name, Data>)

  predicate Nullish(d: Data) { d.Undefined? || d.Null? }

  predicate IsObject(d: Data) { d.Arr? || d.Obj? || d.Bytes? }

  predicate SameKind(a: Data, b: Data) {
    (a.Num? && b.Num?) || (a.Text? && b.Text?) || (a.Bool? && b.Bool?)
  }

  /** What `==` answers for values of different kinds that JavaScript converts first. */
  type Coercion = (Data, Data) -> bool

  /** `a == b`; two objects are taken to be distinct. */
  predicate LooselyEqual(c: Coercion, a: Data, b: Data) {
    if Nullish(a) || Nullish(b) then Nullish(a) && Nullish(b)
    else if SameKind(a, b) then a == b
    else if IsObject(a) && IsObject(b) then false
    else c(a, b)
  }

  predicate HasExtension(elems: seq<Data>) {
    elems != [] && Last(elems).Obj?
  }

  function Body(elems: seq<Data>): seq<Data> {
    if HasExtension(elems) then Front(elems) else elems
  }

  function Extension(elems: seq<Data>): map<Name, Data> {
    if HasExtension(elems) then Last(elems).props else map[]
  }

  /** Extension objects are the last elements of arrays. */
  ghost predicate WellFormed(d: Data) {
    match d
    case Arr(elems) => forall i :: 0 <= i < |elems| ==> WellFormed(elems[i]) && (elems[i].Obj? ==> i == |elems| - 1)
    case Obj(props) => forall k :: k in props ==> WellFormed(props[k])
    case _ => true
  }

  /** `compareFields`, with absent elements and properties read as `undefined`. */
  ghost predicate Same(c: Coercion, a: Data, b: Data)
    decreases a, 2
  {
    || LooselyEqual(c, a, b)
    || (a.Bytes? && b.Bytes? && a.bytes == b.bytes)
    || (a.Arr? && b.Arr? && SameBodies(c, a, b) && SameExtensions(c, a, b))
    || (a.Obj? && b.Obj? && forall k :: k in a.props || k in b.props ==>
          if k in a.props && k in b.props then Same(c, a.props[k], b.props[k])
          else if k in a.props then Nullish(a.props[k]) else Nullish(b.props[k]))
  }

  ghost predicate SameBodies(c: Coercion, a: Data, b: Data)
    requires a.Arr? && b.Arr?
    decreases a, 1
  {
    forall i: nat :: SameAt(c, a, b, i)
  }

  ghost predicate SameAt(c: Coercion, a: Data, b: Data, i: nat)
    requires a.Arr? && b.Arr?
    decreases a, 0
  {
    var x, y := Body(a.elems), Body(b.elems);
    if i < |x| && i < |y| then Same(c, x[i], y[i])
    else if i < |x| then Nullish(x[i])
    else if i < |y| then Nullish(y[i])
    else true
  }

  ghost predicate SameExtensions(c: Coercion, a: Data, b: Data)
    requires a.Arr? && b.Arr?
    decreases a, 0
  {
    if HasExtension(a.elems) && HasExtension(b.elems) then
      Same(c, Last(a.elems), Last(b.elems))
    else
      AllNullish(Extension(a.elems)) && AllNullish(Extension(b.elems))
  }

  ghost predicate AllNullish(props: map<Name, Data>) {
    forall k :: k in props ==> Nullish(props[k])
  }

  // ----- normal forms: what a message means, with null as absent -----

  datatype Normal =
    | Absent
    | NNum(n: int)
    | NText(units: seq<int>)
    | NBool(b: bool)
    | NBytes(bytes: seq<byte>)
    | NArr(body: seq<Normal>, extension: map<Name, Normal>)
    | NObj(extension: map<Name, Normal>)

  /** Without trailing absent elements. */
  function Trim(s: seq<Normal>): seq<Normal> {
    if s != [] && Last(s).Absent? then Trim(Front(s)) else s
  }

  ghost function Norm(d: Data): Normal
    decreases d, 1
  {
    match d
    case Undefined | Null => Absent
    case Num(n) => NNum(n)
    case Text(units) => NText(units)
    case Bool(b) => NBool(b)
    case Bytes(bytes) => NBytes(bytes)
    case Arr(elems) => NArr(Trim(NormBody(d)), if HasExtension(elems) then Norm(Last(elems)).extension else map[])
    case Obj(props) => NObj(map k | k in props && !Nullish(props[k]) :: Norm(props[k]))
  }

  ghost function NormBody(d: Data): seq<Normal>
    requires d.Arr?
    decreases d, 0
  {
    var x := Body(d.elems);
    seq(|x|, i requires 0 <= i < |x| => Norm(x[i]))
  }

  function Get(s: seq<Normal>, i: nat): Normal {
    if i < |s| then s[i] else Absent
  }

  lemma {:induction false} TrimGet(s: seq<Normal>, i: nat)
    ensures Get(Trim(s), i) == Get(s, i)
    ensures Trim(s) != [] ==> !Last(Trim(s)).Absent?
    decreases |s|
  {
    if s != [] && Last(s).Absent? {
      TrimGet(Front(s), i);
    }
  }

  lemma LongerDiffers(s: seq<Normal>, t: seq<Normal>)
    requires |s| > |t| && !Last(s).Absent?
    ensures Get(s, |s| - 1) != Get(t, |s| - 1)
  {
  }

  /** Trimmed sequences are equal when they agree everywhere, reading past the end as absent. */
  lemma TrimEqual(s: seq<Normal>, t: seq<Normal>)
    ensures Trim(s) == Trim(t) <==> forall i: nat :: Get(s, i) == Get(t, i)
  {
    forall i: nat
      ensures Get(Trim(s), i) == Get(s, i) && Get(Trim(t), i) == Get(t, i)
    {
      TrimGet(s, i);
      TrimGet(t, i);
    }
    TrimGet(s, 0);
    TrimGet(t, 0);
    var x, y := Trim(s), Trim(t);
    if forall i: nat :: Get(s, i) == Get(t, i) {
      if |x| > |y| {
        LongerDiffers(x, y);
      } else if |y| > |x| {
        LongerDiffers(y, x);
      } else {
        forall i | 0 <= i < |x|
          ensures x[i] == y[i]
        {
          assert Get(x, i) == Get(y, i);
        }
      }
    } else {
      var i: nat :| Get(s, i) != Get(t, i);
      assert Get(x, i) != Get(y, i);
    }
  }

  // ----- comparison is equality of normal forms -----

  /** Wherever the comparison meets two present values, they are of one kind or both objects, so that
      JavaScript converts nothing. Data of one message type is compatible. */
  ghost predicate Compatible(a: Data, b: Data) {
    && (!Nullish(a) && !Nullish(b) ==> SameKind(a, b) || (IsObject(a) && IsObject(b)))
    && (a.Arr? && b.Arr? ==>
          && (forall i :: 0 <= i < |Body(a.elems)| && i < |Body(b.elems)| ==> Compatible(Body(a.elems)[i], Body(b.elems)[i]))
          && (HasExtension(a.elems) && HasExtension(b.elems) ==> Compatible(Last(a.elems), Last(b.elems))))
    && (a.Obj? && b.Obj? ==> forall k :: k in a.props && k in b.props ==> Compatible(a.props[k], b.props[k]))
  }

  lemma NormNullish(d: Data)
    ensures Norm(d).Absent? <==> Nullish(d)
  {
  }

  lemma NormBodyGet(d: Data, i: nat)
    requires d.Arr?
    ensures Get(NormBody(d), i) == if i < |Body(d.elems)| then Norm(Body(d.elems)[i]) else Absent
  {
  }

  /** Equal normal forms always compare equal. On compatible data nothing else does. */
  lemma {:induction false} SameAndNormal(c: Coercion, a: Data, b: Data)
    ensures Norm(a) == Norm(b) ==> Same(c, a, b)
    ensures Compatible(a, b) && Same(c, a, b) ==> Norm(a) == Norm(b)
    decreases a
  {
    if a.Arr? && b.Arr? {
      BodiesNormal(c, a, b);
      ExtensionsNormal(c, a, b);
    } else if a.Obj? && b.Obj? {
      PropsNormal(c, a, b);
    }
  }

  lemma {:induction false} BodiesNormal(c: Coercion, a: Data, b: Data)
    requires a.Arr? && b.Arr?
    ensures Trim(NormBody(a)) == Trim(NormBody(b)) ==> SameBodies(c, a, b)
    ensures Compatible(a, b) && SameBodies(c, a, b) ==> Trim(NormBody(a)) == Trim(NormBody(b))
    decreases a, 0
  {
    hide Norm, Same, Compatible;
    TrimEqual(NormBody(a), NormBody(b));
    var x, y := Body(a.elems), Body(b.elems);
    forall i: nat
      ensures Get(NormBody(a), i) == Get(NormBody(b), i) ==> SameAt(c, a, b, i)
      ensures Compatible(a, b) && SameAt(c, a, b, i) ==> Get(NormBody(a), i) == Get(NormBody(b), i)
    {
      NormBodyGet(a, i);
      NormBodyGet(b, i);
      if i < |x| && i < |y| {
        if Compatible(a, b) {
          CompatibleParts(a, b, i);
        }
        SameAndNormal(c, x[i], y[i]);
      } else if i < |x| {
        NormNullish(x[i]);
      } else if i < |y| {
        NormNullish(y[i]);
      }
    }
  }

  lemma CompatibleParts(a: Data, b: Data, i: nat)
    requires Compatible(a, b) && a.Arr? && b.Arr? && i < |Body(a.elems)| && i < |Body(b.elems)|
    ensures Compatible(Body(a.elems)[i], Body(b.elems)[i])
  {
  }

  lemma {:induction false} ExtensionsNormal(c: Coercion, a: Data, b: Data)
    requires a.Arr? && b.Arr?
    ensures Norm(a).extension == Norm(b).extension ==> SameExtensions(c, a, b)
    ensures Compatible(a, b) && SameExtensions(c, a, b) ==> Norm(a).extension == Norm(b).extension
    decreases a, 0
  {
    hide NormBody, Trim, Same, SameBodies;
    if HasExtension(a.elems) && HasExtension(b.elems) {
      SameAndNormal(c, Last(a.elems), Last(b.elems));
    } else {
      EmptyExtension(a);
      EmptyExtension(b);
    }
  }

  lemma EmptyExtension(d: Data)
    requires d.Arr?
    ensures AllNullish(Extension(d.elems)) <==> Norm(d).extension == map[]
  {
    hide NormBody, Trim;
    if HasExtension(d.elems) {
      var props := Last(d.elems).props;
      var kept := map k | k in props && !Nullish(props[k]) :: Norm(props[k]);
      assert Norm(d).extension == kept;
      if !AllNullish(props) {
        var k :| k in props && !Nullish(props[k]);
        assert k in kept;
      }
    }
  }

  lemma {:induction false} PropsNormal(c: Coercion, a: Data, b: Data)
    requires a.Obj? && b.Obj?
    ensures Norm(a) == Norm(b) ==> Same(c, a, b)
    ensures Compatible(a, b) && Same(c, a, b) ==> Norm(a) == Norm(b)
    decreases a, 0
  {
    hide NormBody, Trim, SameBodies, SameExtensions;
    var p, q := Norm(a).extension, Norm(b).extension;
    forall k
      ensures (k in p <==> k in q) && (k in p && k in q ==> p[k] == q[k]) ==>
                if k in a.props && k in b.props then Same(c, a.props[k], b.props[k])
                else if k in a.props then Nullish(a.props[k])
                else if k in b.props then Nullish(b.props[k]) else true
      ensures Compatible(a, b) && (if k in a.props && k in b.props then Same(c, a.props[k], b.props[k])
                                   else if k in a.props then Nullish(a.props[k])
                                   else if k in b.props then Nullish(b.props[k]) else true) ==>
                (k in p <==> k in q) && (k in p && k in q ==> p[k] == q[k])
    {
      if k in a.props && k in b.props {
        SameAndNormal(c, a.props[k], b.props[k]);
        NormNullish(a.props[k]);
        NormNullish(b.props[k]);
      }
    }
    assert p == q <==> forall k :: (k in p <==> k in q) && (k in p && k in q ==> p[k] == q[k]);
  }

  /** On compatible data `compareFields` holds exactly when the normal forms are equal. */
  lemma SameIsNormal(c: Coercion, a: Data, b: Data)
    requires Compatible(a, b)
    ensures Same(c, a, b) <==> Norm(a) == Norm(b)
  {
    SameAndNormal(c, a, b);
  }

  // ----- the exact condition, on all data -----

  /** The same up to kinds: wherever JavaScript would convert a value, any value will do. */
  ghost predicate Alike(a: Data, b: Data)
    decreases a, 2
  {
    if Nullish(a) || Nullish(b) then Nullish(a) && Nullish(b)
    else if SameKind(a, b) || (a.Bytes? && b.Bytes?) then a == b
    else if a.Arr? && b.Arr? then AlikeBodies(a, b) && AlikeExtensions(a, b)
    else if a.Obj? && b.Obj? then
      forall k :: k in a.props || k in b.props ==>
        if k in a.props && k in b.props then Alike(a.props[k], b.props[k])
        else if k in a.props then Nullish(a.props[k]) else Nullish(b.props[k])
    else !(IsObject(a) && IsObject(b))
  }

  ghost predicate AlikeBodies(a: Data, b: Data)
    requires a.Arr? && b.Arr?
    decreases a, 1
  {
    forall i: nat :: AlikeAt(a, b, i)
  }

  ghost predicate AlikeExtensions(a: Data, b: Data)
    requires a.Arr? && b.Arr?
    decreases a, 0
  {
    if HasExtension(a.elems) && HasExtension(b.elems) then Alike(Last(a.elems), Last(b.elems))
    else AllNullish(Extension(a.elems)) && AllNullish(Extension(b.elems))
  }

  ghost predicate AlikeAt(a: Data, b: Data, i: nat)
    requires a.Arr? && b.Arr?
    decreases a, 0
  {
    var x, y := Body(a.elems), Body(b.elems);
    if i < |x| && i < |y| then Alike(x[i], y[i])
    else if i < |x| then Nullish(x[i])
    else if i < |y| then Nullish(y[i])
    else true
  }

  const ALWAYS: Coercion := (a, b) => true

  /** Whatever compares equal is alike, and with the most generous coercion all that is alike compares
      equal. */
  lemma {:induction false} SameAlike(c: Coercion, a: Data, b: Data)
    ensures Same(c, a, b) ==> Alike(a, b)
    ensures Alike(a, b) ==> Same(ALWAYS, a, b)
    decreases a, 1
  {
    hide SameBodies, SameExtensions, AlikeBodies, AlikeExtensions;
    if a.Arr? && b.Arr? {
      BodiesAlike(c, a, b);
      ExtensionsAlike(c, a, b);
    } else if a.Obj? && b.Obj? {
      forall k | k in a.props && k in b.props
        ensures Same(c, a.props[k], b.props[k]) ==> Alike(a.props[k], b.props[k])
        ensures Alike(a.props[k], b.props[k]) ==> Same(ALWAYS, a.props[k], b.props[k])
      {
        SameAlike(c, a.props[k], b.props[k]);
      }
    }
  }

  lemma {:induction false} BodiesAlike(c: Coercion, a: Data, b: Data)
    requires a.Arr? && b.Arr?
    ensures SameBodies(c, a, b) ==> AlikeBodies(a, b)
    ensures AlikeBodies(a, b) ==> SameBodies(ALWAYS, a, b)
    decreases a, 0
  {
    hide Same, Alike, SameAt, AlikeAt;
    forall i: nat
      ensures SameAt(c, a, b, i) ==> AlikeAt(a, b, i)
      ensures AlikeAt(a, b, i) ==> SameAt(ALWAYS, a, b, i)
    {
      ElementsAlike(c, a, b, i);
    }
    if SameBodies(c, a, b) {
      forall i: nat
        ensures AlikeAt(a, b, i)
      {
        assert SameAt(c, a, b, i);
      }
    }
    if AlikeBodies(a, b) {
      forall i: nat
        ensures SameAt(ALWAYS, a, b, i)
      {
        assert AlikeAt(a, b, i);
      }
    }
  }

  lemma {:induction false} ElementsAlike(c: Coercion, a: Data, b: Data, i: nat)
    requires a.Arr? && b.Arr?
    ensures SameAt(c, a, b, i) ==> AlikeAt(a, b, i)
    ensures AlikeAt(a, b, i) ==> SameAt(ALWAYS, a, b, i)
    decreases a, 0, 0
  {
    hide Same, Alike;
    if i < |Body(a.elems)| && i < |Body(b.elems)| {
      SameAlike(c, Body(a.elems)[i], Body(b.elems)[i]);
    }
  }

  lemma {:induction false} ExtensionsAlike(c: Coercion, a: Data, b: Data)
    requires a.Arr? && b.Arr?
    ensures SameExtensions(c, a, b) ==> AlikeExtensions(a, b)
    ensures AlikeExtensions(a, b) ==> SameExtensions(ALWAYS, a, b)
    decreases a, 0
  {
    hide Same, Alike;
    if HasExtension(a.elems) && HasExtension(b.elems) {
      SameAlike(c, Last(a.elems), Last(b.elems));
    }
  }

  /** Values that are the same up to kinds are the same. */
  ghost predicate Settled(a: Data, b: Data) {
    Alike(a, b) ==> Norm(a) == Norm(b)
  }

  lemma SettledDecides(c: Coercion, a: Data, b: Data)
    requires Settled(a, b)
    ensures Same(c, a, b) <==> Norm(a) == Norm(b)
  {
    hide Same, Alike, Norm;
    SameAndNormal(c, a, b);
    SameAlike(c, a, b);
  }

  /** `compareFields` decides equality of normal forms, whatever JavaScript converts, exactly when the two
      values are settled: they are the same, or they differ by more than the kinds of values. */
  lemma SameExactly(a: Data, b: Data)
    ensures (forall c: Coercion :: Same(c, a, b) <==> Norm(a) == Norm(b)) <==> Settled(a, b)
  {
    hide Same, Alike, Norm;
    if Settled(a, b) {
      forall c: Coercion
        ensures Same(c, a, b) <==> Norm(a) == Norm(b)
      {
        SettledDecides(c, a, b);
      }
    } else {
      SameAlike(ALWAYS, a, b);
      assert Same(ALWAYS, a, b) && Norm(a) != Norm(b);
    }
  }

  /** Compatible data is settled, but so is other data, which differs somewhere else. */
  lemma CompatibleSettled(a: Data, b: Data)
    requires Compatible(a, b)
    ensures Settled(a, b)
  {
    hide Same, Alike, Norm, Compatible;
    SameAlike(ALWAYS, a, b);
    SameAndNormal(ALWAYS, a, b);
  }

  /** On settled data `compareFields` is an equivalence relation, so the shortcut for identical objects
      changes nothing. */
  lemma SameEquivalence(c: Coercion, a: Data, b: Data, d: Data)
    requires Settled(a, b) && Settled(b, d) && Settled(a, d) && Settled(b, a)
    ensures Same(c, a, a)
    ensures Same(c, a, b) <==> Same(c, b, a)
    ensures Same(c, a, b) && Same(c, b, d) ==> Same(c, a, d)
  {
    hide Same, Norm, Settled;
    SameAndNormal(c, a, a);
    SettledDecides(c, a, b);
    SettledDecides(c, b, a);
    SettledDecides(c, b, d);
    SettledDecides(c, a, d);
  }

  // ----- a coercion of JavaScript's -----

  /** ToNumber (section 9.3 of ECMA-262 5.1) of the values it makes decimal integers of: booleans, the
      empty text, and digits with an optional minus. */
  function ToNumber(d: Data): Option<int> {
    match d
    case Num(n) => Some(n)
    case Bool(b) => Some(if b then 1 else 0)
    case Text(units) =>
      if units == [] then Some(0)
      else if AllDecimal(units) then Some(Decimal(units))
      else if units[0] == 45 && |units| > 1 && AllDecimal(units[1..]) then Some(-Decimal(units[1..]))
      else None
    case _ => None
  }

  predicate AllDecimal(units: seq<int>) {
    forall i :: 0 <= i < |units| ==> 48 <= units[i] <= 57
  }

  function Decimal(units: seq<int>): int {
    if units == [] then 0 else 10 * Decimal(Front(units)) + (Last(units) - 48)
  }

  /** `==` on values of different kinds (section 11.9.3 of ECMA-262 5.1): both are converted to numbers;
      `rest` stands for the conversions that yield no decimal integers. */
  function JsCoercion(rest: Coercion): Coercion {
    (a, b) => if ToNumber(a).Some? && ToNumber(b).Some? then ToNumber(a) == ToNumber(b) else rest(a, b)
  }

  /** Without that condition it need not be an equivalence: the text "1" equals the number 1, which equals
      the text "01", but the texts differ. */
  lemma CoercionBreaks(rest: Coercion)
    ensures var c, one, zeroOne := JsCoercion(rest), Text([49]), Text([48, 49]);
      Same(c, one, Num(1)) && Same(c, Num(1), zeroOne) && !Same(c, one, zeroOne)
    ensures !Settled(Text([49]), Num(1))
  {
    assert [49][0] != [48, 49][0];
    var c, one, zeroOne := JsCoercion(rest), Text([49]), Text([48, 49]);
    NumberOne();
    assert ToNumber(Num(1)) == Some(1);
    assert c(one, Num(1)) && c(Num(1), zeroOne);
    assert LooselyEqual(c, one, Num(1)) && LooselyEqual(c, Num(1), zeroOne);
  }

  lemma NumberOne()
    ensures ToNumber(Text([49])) == Some(1) && ToNumber(Text([48, 49])) == Some(1)
  {
    var empty: seq<int> := [];
    assert Front([49]) == empty && Front([48, 49]) == [48] && Front([48]) == empty && Decimal(empty) == 0;
    assert Decimal([48]) == 0 && Decimal([49]) == 1 && Decimal([48, 49]) == 1;
    assert AllDecimal([49]) && AllDecimal([48, 49]);
  }

  /** Settled without being compatible: the kinds clash at one place, and the arrays differ at another. */
  lemma SettledElsewhere()
    ensures var a, b := Arr([Num(1), Num(2)]), Arr([Text([49]), Num(3)]); Settled(a, b) && !Compatible(a, b)
  {
    var a, b := Arr([Num(1), Num(2)]), Arr([Text([49]), Num(3)]);
    assert Body(a.elems)[0] == Num(1) && Body(b.elems)[0] == Text([49]);
    assert !AlikeAt(a, b, 1);
  }

  // ----- the loops of compareFields and compareExtensions -----

  predicate Compound(d: Data) { d.Arr? || d.Obj? }

  function ElemAt(elems: seq<Data>, i: nat): Data {
    if i < |elems| then elems[i] else Undefined
  }

  function PropAt(props: map<Name, Data>, k: Name): Data {
    if k in props then props[k] else Undefined
  }

  lemma SameUndefined(c: Coercion, d: Data)
    ensures Same(c, Undefined, d) <==> Nullish(d)
    ensures Same(c, d, Undefined) <==> Nullish(d)
  {
  }

  lemma SameAtElem(c: Coercion, a: Data, b: Data, i: nat)
    requires a.Arr? && b.Arr?
    ensures SameAt(c, a, b, i) <==> Same(c, ElemAt(Body(a.elems), i), ElemAt(Body(b.elems), i))
  {
    hide Same;
    var x, y := Body(a.elems), Body(b.elems);
    SameUndefined(c, ElemAt(x, i));
    SameUndefined(c, ElemAt(y, i));
  }

  lemma WellFormedAt(d: Data, i: nat)
    requires d.Arr? && WellFormed(d)
    ensures WellFormed(ElemAt(d.elems, i)) && (i < |d.elems| && d.elems[i].Obj? ==> i == |d.elems| - 1)
    ensures ElemAt(Body(d.elems), i) == if ElemAt(d.elems, i).Obj? then Undefined else ElemAt(d.elems, i)
    ensures Compound(ElemAt(d.elems, i)) ==> ElemAt(d.elems, i) < d
  {
  }

  method CompareFields(c: Coercion, field1: Data, field2: Data) returns (r: bool)
    requires WellFormed(field1) && WellFormed(field2)
    ensures r <==> Same(c, field1, field2)
    decreases if Compound(field1) then 1 else 0, field1, 2
  {
    hide SameBodies, SameExtensions, WellFormed;
    if LooselyEqual(c, field1, field2) {
      return true;
    }
    if !IsObject(field1) || !IsObject(field2) {
      return false;
    }
    if field1.Bytes? != field2.Bytes? || field1.Arr? != field2.Arr? {
      return false;
    }
    if field1.Bytes? {
      if |field1.bytes| != |field2.bytes| {
        return false;
      }
      for i := 0 to |field1.bytes|
        invariant field1.bytes[..i] == field2.bytes[..i]
      {
        if field1.bytes[i] != field2.bytes[i] {
          return false;
        }
      }
      return true;
    }
    if field1.Arr? {
      r := CompareArrays(c, field1, field2);
      return;
    }
    PropsSmaller(field1);
    PropsWellFormed(field1);
    PropsWellFormed(field2);
    r := CompareExtensions(c, field1, field2, field1);
  }

  /** The branch for arrays. The two assertions are those of the original: on well-formed data they hold. */
  method CompareArrays(c: Coercion, field1: Data, field2: Data) returns (r: bool)
    requires WellFormed(field1) && WellFormed(field2) && field1.Arr? && field2.Arr?
    ensures r <==> SameBodies(c, field1, field2) && SameExtensions(c, field1, field2)
    decreases 1, field1, 1
  {
    hide Same, WellFormed, SameAt;
    var elems1, elems2 := field1.elems, field2.elems;
    var extension1, extension2 := Undefined, Undefined;
    var length := if |elems1| > |elems2| then |elems1| else |elems2|;
    for i := 0 to length
      invariant forall j: nat :: j < i ==> SameAt(c, field1, field2, j)
      invariant extension1 == if HasExtension(elems1) && i >= |elems1| then Last(elems1) else Undefined
      invariant extension2 == if HasExtension(elems2) && i >= |elems2| then Last(elems2) else Undefined
    {
      WellFormedAt(field1, i);
      WellFormedAt(field2, i);
      var val1, val2 := ElemAt(elems1, i), ElemAt(elems2, i);
      if val1.Obj? {
        assert extension1 == Undefined && i == |elems1| - 1;
        extension1 := val1;
        val1 := Undefined;
      }
      if val2.Obj? {
        assert extension2 == Undefined && i == |elems2| - 1;
        extension2 := val2;
        val2 := Undefined;
      }
      SameAtElem(c, field1, field2, i);
      UndefinedWellFormed();
      var same := CompareFields(c, val1, val2);
      if !same {
        return false;
      }
    }
    BeyondTheEnd(c, field1, field2, length);
    if extension1 != Undefined || extension2 != Undefined {
      if extension1 == Undefined { extension1 := Obj(map[]); }
      if extension2 == Undefined { extension2 := Obj(map[]); }
      assert extension1.props == Extension(elems1) && extension2.props == Extension(elems2);
      ExtensionParts(field1);
      ExtensionParts(field2);
      r := CompareExtensions(c, extension1, extension2, field1);
      OneSided(c, field1, field2);
      return;
    }
    return true;
  }

  lemma BeyondTheEnd(c: Coercion, a: Data, b: Data, length: nat)
    requires a.Arr? && b.Arr? && |a.elems| <= length && |b.elems| <= length
    requires forall j: nat :: j < length ==> SameAt(c, a, b, j)
    ensures SameBodies(c, a, b)
  {
    hide Same;
    forall j: nat
      ensures SameAt(c, a, b, j)
    {
    }
  }

  /** The extension of an array, or an empty one: its properties are parts of the array. */
  lemma ExtensionParts(d: Data)
    requires d.Arr? && WellFormed(d)
    ensures var props := Extension(d.elems);
      forall k :: k in props ==> WellFormed(props[k]) && props[k] < d
  {
  }

  lemma PropsSmaller(d: Data)
    requires d.Obj?
    ensures forall k :: k in d.props ==> d.props[k] < d
  {
  }

  lemma PropsWellFormed(d: Data)
    requires d.Obj? && WellFormed(d)
    ensures forall k :: k in d.props ==> WellFormed(d.props[k])
  {
  }

  /** Comparing an extension with a missing one. */
  lemma OneSided(c: Coercion, a: Data, b: Data)
    requires a.Arr? && b.Arr?
    ensures SameExtensions(c, a, b) <==> SameProps(c, Extension(a.elems), Extension(b.elems))
  {
    hide SameBodies;
    forall k
      ensures Same(c, Undefined, PropAt(Extension(b.elems), k)) <==> Nullish(PropAt(Extension(b.elems), k))
      ensures Same(c, PropAt(Extension(a.elems), k), Undefined) <==> Nullish(PropAt(Extension(a.elems), k))
    {
      SameUndefined(c, PropAt(Extension(b.elems), k));
      SameUndefined(c, PropAt(Extension(a.elems), k));
    }
    if HasExtension(a.elems) && HasExtension(b.elems) {
      PropsSame(c, Last(a.elems), Last(b.elems));
    }
  }

  ghost predicate SameProps(c: Coercion, p: map<Name, Data>, q: map<Name, Data>) {
    forall k :: k in p || k in q ==> Same(c, PropAt(p, k), PropAt(q, k))
  }

  lemma PropsSame(c: Coercion, a: Data, b: Data)
    requires a.Obj? && b.Obj?
    ensures Same(c, a, b) <==> SameProps(c, a.props, b.props)
  {
    forall k
      ensures Same(c, Undefined, PropAt(b.props, k)) <==> Nullish(PropAt(b.props, k))
      ensures Same(c, PropAt(a.props, k), Undefined) <==> Nullish(PropAt(a.props, k))
    {
      SameUndefined(c, PropAt(b.props, k));
      SameUndefined(c, PropAt(a.props, k));
    }
  }

  /** `limit` bounds the properties of the first extension for the termination of the recursion. */
  method CompareExtensions(c: Coercion, extension1: Data, extension2: Data, ghost limit: Data) returns (r: bool)
    requires extension1.Obj? && extension2.Obj?
    requires forall k :: k in extension1.props ==> WellFormed(extension1.props[k]) && extension1.props[k] < limit
    requires forall k :: k in extension2.props ==> WellFormed(extension2.props[k])
    ensures r <==> Same(c, extension1, extension2)
    ensures r <==> SameProps(c, extension1.props, extension2.props)
    decreases 1, limit, 0
  {
    hide Same, WellFormed;
    PropsSame(c, extension1, extension2);
    var keys := extension1.props.Keys + extension2.props.Keys;
    while keys != {}
      invariant keys <= extension1.props.Keys + extension2.props.Keys
      invariant forall k :: (k in extension1.props || k in extension2.props) && k !in keys ==>
                  Same(c, PropAt(extension1.props, k), PropAt(extension2.props, k))
      decreases |keys|
    {
      var name :| name in keys;
      keys := keys - {name};
      UndefinedWellFormed();
      var same := CompareFields(c, PropAt(extension1.props, name), PropAt(extension2.props, name));
      if !same {
        return false;
      }
    }
    return true;
  }

  lemma UndefinedWellFormed()
    ensures WellFormed(Undefined)
  {
  }

  // ----- cloning -----

  /** `clone_`, on the objects it is called with; absent and null elements become holes. */
  function Cloned(d: Data): Data {
    match d
    case Arr(elems) => Arr(seq(|elems|, i requires 0 <= i < |elems| => if Nullish(elems[i]) then Undefined else Cloned(elems[i])))
    case Obj(props) => Obj(map k | k in props && !Nullish(props[k]) :: Cloned(props[k]))
    case _ => d
  }

  /** A clone has the normal form of its source. */
  lemma {:induction false} ClonedNormal(d: Data)
    ensures Norm(Cloned(d)) == Norm(d)
    ensures Nullish(Cloned(d)) <==> Nullish(d)
    ensures Cloned(d).Obj? <==> d.Obj?
    decreases d
  {
    match d
    case Arr(elems) =>
      ClonedBody(d);
      if HasExtension(elems) {
        ClonedNormal(Last(elems));
      }
    case Obj(props) => ClonedProps(d);
    case _ =>
  }

  lemma {:induction false} ClonedBody(d: Data)
    requires d.Arr?
    ensures HasExtension(Cloned(d).elems) == HasExtension(d.elems) && NormBody(Cloned(d)) == NormBody(d)
    decreases d, 0
  {
    hide Norm;
    var elems, copies := d.elems, Cloned(d).elems;
    forall i | 0 <= i < |elems|
      ensures Norm(copies[i]) == Norm(elems[i]) && (copies[i].Obj? <==> elems[i].Obj?)
    {
      ClonedNormal(elems[i]);
      NormNullish(Undefined);
      NormNullish(elems[i]);
    }
    assert |NormBody(Cloned(d))| == |NormBody(d)|;
  }

  lemma {:induction false} ClonedProps(d: Data)
    requires d.Obj?
    ensures Norm(Cloned(d)) == Norm(d)
    decreases d, 0
  {
    forall k | k in d.props
      ensures Norm(Cloned(d.props[k])) == Norm(d.props[k]) && (Nullish(Cloned(d.props[k])) <==> Nullish(d.props[k]))
    {
      ClonedNormal(d.props[k]);
    }
    assert Norm(Cloned(d)).extension == Norm(d).extension;
  }

  /** A clone always compares equal to its source, whatever conversions JavaScript would make. */
  lemma CloneCompares(c: Coercion, d: Data)
    ensures Same(c, Cloned(d), d)
  {
    hide Same, Norm, Cloned;
    ClonedNormal(d);
    SameAndNormal(c, Cloned(d), d);
  }

  /** `clone_` */
  method Clone(obj: Data) returns (copy: Data)
    requires IsObject(obj)
    ensures copy == Cloned(obj)
    decreases obj
  {
    match obj
    case Arr(elems) =>
      var clonedArray: seq<Data> := [];
      for i := 0 to |elems|
        invariant clonedArray == Cloned(obj).elems[..i]
      {
        var o := elems[i];
        if Nullish(o) {
          clonedArray := clonedArray + [Undefined];
        } else if IsObject(o) {
          var cloned := Clone(o);
          clonedArray := clonedArray + [cloned];
        } else {
          clonedArray := clonedArray + [o];
        }
      }
      assert Cloned(obj).elems[..|elems|] == Cloned(obj).elems;
      copy := Arr(clonedArray);
    case Bytes(bytes) => copy := Bytes(bytes);
    case Obj(props) =>
      var clone: map<Name, Data> := map[];
      var keys := props.Keys;
      while keys != {}
        invariant keys <= props.Keys
        invariant clone == map k | k in props && k !in keys && !Nullish(props[k]) :: Cloned(props[k])
        decreases |keys|
      {
        var key :| key in keys;
        keys := keys - {key};
        var o := props[key];
        if !Nullish(o) {
          if IsObject(o) {
            var cloned := Clone(o);
            clone := clone[key := cloned];
          } else {
            clone := clone[key := o];
          }
        }
      }
      copy := Obj(clone);
  }
}
