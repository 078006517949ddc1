/** Message data as what can be reached in it, and what comparison and cloning mean in these terms. */
module Paths {
  import opened Js
  import opened Arith
  import opened Bookmarks
  import opened Compare

  /** A position in an array, or a property of an object or of the extension object that ends an array. */
  datatype Step = At(i: nat) | Prop(k: Name)

  function Child(d: Data, s: Step): Data {
    match (d, s)
    case (Arr(elems), At(i)) =>
      if i < |elems| && !(i == |elems| - 1 && elems[i].Obj?) then elems[i] else Undefined
    case (Arr(elems), Prop(k)) =>
      if elems != [] && elems[|elems| - 1].Obj? && k in elems[|elems| - 1].props then elems[|elems| - 1].props[k]
      else Undefined
    case (Obj(props), Prop(k)) => if k in props then props[k] else Undefined
    case _ => Undefined
  }

  function Reach(d: Data, path: seq<Step>): Data
    decreases |path|
  {
    if path == [] then d else Reach(Child(d, path[0]), path[1..])
  }

  /** A value without what is inside it; absent and null are the same. */
  datatype Outside = Nothing | Number(n: int) | String(units: seq<int>) | Truth(b: bool) | Blob(bytes: seq<byte>) | AnArray | AnObject

  function Seen(d: Data): Outside {
    match d
    case Undefined | Null => Nothing
    case Num(n) => Number(n)
    case Text(units) => String(units)
    case Bool(b) => Truth(b)
    case Bytes(bytes) => Blob(bytes)
    case Arr(_) => AnArray
    case Obj(_) => AnObject
  }

  /** Along every path the same is seen. */
  ghost predicate Agree(a: Data, b: Data) {
    forall path :: Seen(Reach(a, path)) == Seen(Reach(b, path))
  }

  lemma AgreeAt(a: Data, b: Data, s: Step)
    requires Agree(a, b)
    ensures Seen(a) == Seen(b) && Agree(Child(a, s), Child(b, s))
  {
    hide Seen, Child;
    assert Seen(Reach(a, [])) == Seen(Reach(b, []));
    forall path
      ensures Seen(Reach(Child(a, s), path)) == Seen(Reach(Child(b, s), path))
    {
      assert ([s] + path)[1..] == path;
      assert Seen(Reach(a, [s] + path)) == Seen(Reach(b, [s] + path));
    }
  }

  // ----- normal forms and paths -----

  lemma ElementNormal(d: Data, i: nat)
    requires d.Arr?
    ensures Norm(Child(d, At(i))) == Get(NormBody(d), i)
  {
    NormBodyGet(d, i);
    NormNullish(Undefined);
  }

  function Outer(d: Data): map<Name, Data>
    requires d.Arr? || d.Obj?
  {
    if d.Obj? then d.props else Extension(d.elems)
  }

  lemma PropNormal(d: Data, k: Name)
    requires d.Arr? || d.Obj?
    ensures Child(d, Prop(k)) == if k in Outer(d) then Outer(d)[k] else Undefined
    ensures k in Norm(d).extension <==> !Norm(Child(d, Prop(k))).Absent?
    ensures k in Norm(d).extension ==> Norm(d).extension[k] == Norm(Child(d, Prop(k)))
  {
    hide NormBody, Trim;
    NormNullish(Child(d, Prop(k)));
    if d.Arr? && HasExtension(d.elems) {
      assert Norm(d).extension == Norm(Last(d.elems)).extension;
    }
  }

  /** Normal forms are equal exactly when the outsides and the normal forms one step further are. */
  lemma NormByChildren(a: Data, b: Data)
    ensures Norm(a) == Norm(b) <==> Seen(a) == Seen(b) && forall s :: Norm(Child(a, s)) == Norm(Child(b, s))
  {
    if a.Arr? && b.Arr? {
      ArraysByChildren(a, b);
    } else if a.Obj? && b.Obj? {
      ObjectsByChildren(a, b);
    } else {
      LeavesByChildren(a, b);
    }
  }

  lemma LeavesByChildren(a: Data, b: Data)
    requires !(a.Arr? && b.Arr?) && !(a.Obj? && b.Obj?)
    ensures Norm(a) == Norm(b) <==> Seen(a) == Seen(b) && forall s :: Norm(Child(a, s)) == Norm(Child(b, s))
  {
    hide NormBody, Trim;
  }

  lemma ObjectsByChildren(a: Data, b: Data)
    requires a.Obj? && b.Obj?
    ensures Norm(a) == Norm(b) <==> Seen(a) == Seen(b) && forall s :: Norm(Child(a, s)) == Norm(Child(b, s))
  {
    SameOuter(a, b);
    forall i
      ensures Child(a, At(i)) == Child(b, At(i)) == Undefined
    {
    }
    assert Norm(a) == Norm(b) <==> Norm(a).extension == Norm(b).extension;
    assert (forall s :: Norm(Child(a, s)) == Norm(Child(b, s))) ==> forall k :: Norm(Child(a, Prop(k))) == Norm(Child(b, Prop(k)));
    if forall k :: Norm(Child(a, Prop(k))) == Norm(Child(b, Prop(k))) {
      forall s
        ensures Norm(Child(a, s)) == Norm(Child(b, s))
      {
        match s case At(i) => case Prop(k) =>
      }
    }
  }

  lemma SameOuter(a: Data, b: Data)
    requires (a.Arr? || a.Obj?) && (b.Arr? || b.Obj?)
    ensures Norm(a).extension == Norm(b).extension <==> forall k :: Norm(Child(a, Prop(k))) == Norm(Child(b, Prop(k)))
  {
    hide Norm, Child;
    var p, q := NormProps(a), NormProps(b);
    forall k
      ensures Norm(Child(a, Prop(k))) == Norm(Child(b, Prop(k)))
              <==> (k in p <==> k in q) && (k in p && k in q ==> p[k] == q[k])
    {
      PropNormal(a, k);
      PropNormal(b, k);
    }
    assert p == q <==> forall k :: (k in p <==> k in q) && (k in p && k in q ==> p[k] == q[k]);
  }

  ghost function NormProps(d: Data): map<Name, Normal>
    requires d.Arr? || d.Obj?
  {
    Norm(d).extension
  }

  lemma ArraysByChildren(a: Data, b: Data)
    requires a.Arr? && b.Arr?
    ensures Norm(a) == Norm(b) <==> Seen(a) == Seen(b) && forall s :: Norm(Child(a, s)) == Norm(Child(b, s))
  {
    hide Norm, Child, NormBody, Trim, Get;
    SameOuter(a, b);
    TrimEqual(NormBody(a), NormBody(b));
    forall i: nat
      ensures Norm(Child(a, At(i))) == Get(NormBody(a), i) && Norm(Child(b, At(i))) == Get(NormBody(b), i)
    {
      ElementNormal(a, i);
      ElementNormal(b, i);
    }
    ArrayParts(a, b);
    if (forall i: nat :: Get(NormBody(a), i) == Get(NormBody(b), i)) && forall k :: Norm(Child(a, Prop(k))) == Norm(Child(b, Prop(k))) {
      forall s
        ensures Norm(Child(a, s)) == Norm(Child(b, s))
      {
        match s case At(i) => case Prop(k) =>
      }
    }
    if forall s :: Norm(Child(a, s)) == Norm(Child(b, s)) {
      forall i: nat
        ensures Get(NormBody(a), i) == Get(NormBody(b), i)
      {
        assert Norm(Child(a, At(i))) == Norm(Child(b, At(i)));
      }
    }
  }

  lemma ArrayParts(a: Data, b: Data)
    requires a.Arr? && b.Arr?
    ensures Norm(a) == Norm(b) <==> Trim(NormBody(a)) == Trim(NormBody(b)) && Norm(a).extension == Norm(b).extension
    ensures Seen(a) == Seen(b)
  {
    hide NormBody, Trim;
  }

  /** Normal forms are equal exactly when along every path the same is seen. */
  lemma {:induction false} NormalByPaths(a: Data, b: Data)
    ensures Norm(a) == Norm(b) <==> Agree(a, b)
    decreases a
  {
    hide Norm, Seen, Child, Agree;
    if Norm(a) == Norm(b) {
      forall path
        ensures Seen(Reach(a, path)) == Seen(Reach(b, path))
      {
        PathsSame(a, b, path);
      }
      assert Agree(a, b) by { AgreeMeans(a, b); }
    }
    if Agree(a, b) {
      forall s
        ensures Norm(Child(a, s)) == Norm(Child(b, s))
      {
        AgreeAt(a, b, s);
        ChildSmaller(a, s);
        if Child(a, s) == Undefined {
          AgreeAt(Child(a, s), Child(b, s), s);
          NothingNormal(Child(a, s));
          NothingNormal(Child(b, s));
        } else {
          NormalByPaths(Child(a, s), Child(b, s));
        }
      }
      AgreeAt(a, b, At(0));
      NormByChildren(a, b);
    }
  }

  lemma AgreeMeans(a: Data, b: Data)
    requires forall path :: Seen(Reach(a, path)) == Seen(Reach(b, path))
    ensures Agree(a, b)
  {
  }

  lemma NothingNormal(d: Data)
    ensures Seen(d).Nothing? <==> Norm(d).Absent?
    ensures Seen(Undefined) == Nothing
  {
  }

  lemma ChildSmaller(d: Data, s: Step)
    ensures Child(d, s) == Undefined || (Child(d, s) < d)
  {
    if d.Arr? && s.Prop? && HasExtension(d.elems) && s.k in Last(d.elems).props {
      PropsSmaller(Last(d.elems));
    } else if d.Obj? {
      PropsSmaller(d);
    }
  }

  lemma {:induction false} PathsSame(a: Data, b: Data, path: seq<Step>)
    requires Norm(a) == Norm(b)
    ensures Seen(Reach(a, path)) == Seen(Reach(b, path))
    decreases |path|
  {
    hide Norm, Seen, Child;
    NormByChildren(a, b);
    if path != [] {
      PathsSame(Child(a, path[0]), Child(b, path[0]), path[1..]);
    }
  }

  /** On data of one message type `compareFields` holds exactly when along every path the same is seen. */
  lemma SameByPaths(c: Coercion, a: Data, b: Data)
    requires Compatible(a, b)
    ensures Same(c, a, b) <==> Agree(a, b)
  {
    hide Same, Norm, Agree;
    SameIsNormal(c, a, b);
    NormalByPaths(a, b);
  }

  // ----- clones -----

  lemma ClonedChild(d: Data, s: Step)
    ensures Child(Cloned(d), s) == if Nullish(Child(d, s)) then Undefined else Cloned(Child(d, s))
  {
    if d.Arr? && d.elems != [] && s.Prop? {
      var last := d.elems[|d.elems| - 1];
      assert Cloned(d).elems[|d.elems| - 1] == if Nullish(last) then Undefined else Cloned(last);
    }
  }

  lemma {:induction false} ClonedReach(d: Data, path: seq<Step>)
    ensures Reach(Cloned(d), path)
            == if Nullish(Reach(d, path)) then (if path == [] then d else Undefined) else Cloned(Reach(d, path))
    decreases |path|
  {
    hide Cloned, Child;
    if path == [] {
      ClonedNothing(d);
    } else {
      var s, rest := path[0], path[1..];
      ClonedChild(d, s);
      ClonedReach(Child(d, s), rest);
      if Nullish(Child(d, s)) {
        NothingInside(Child(d, s), rest);
        NothingInside(Undefined, rest);
      }
    }
  }

  lemma ClonedNothing(d: Data)
    ensures Nullish(d) ==> Cloned(d) == d
  {
  }

  lemma {:induction false} NothingInside(d: Data, path: seq<Step>)
    requires Nullish(d)
    ensures Reach(d, path) == if path == [] then d else Undefined
    decreases |path|
  {
    if path != [] {
      NothingInside(Undefined, path[1..]);
    }
  }

  /** Along every path a clone holds the same scalars, arrays of the same length, and objects with the
      properties that are not null; and what is null in the source is absent in the clone. */
  lemma CloneHolds(d: Data, path: seq<Step>)
    ensures match Reach(d, path)
            case Undefined => Reach(Cloned(d), path) == Undefined
            case Null => path != [] ==> Reach(Cloned(d), path) == Undefined
            case Arr(elems) => Reach(Cloned(d), path).Arr? && |Reach(Cloned(d), path).elems| == |elems|
            case Obj(props) =>
              Reach(Cloned(d), path).Obj? && Reach(Cloned(d), path).props.Keys == set k | k in props && !props[k].Undefined? && !props[k].Null?
            case scalar => Reach(Cloned(d), path) == scalar
  {
    hide Child;
    ClonedReach(d, path);
  }
}
