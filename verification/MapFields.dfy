/** `jspb.Map` with primitive values: a hash map, and the array it is loaded from and synchronised to. */
module MapFields {
  import opened Js
  import opened Words
  import opened Varints
  import opened Decimal
  import opened Arith
  import opened Decoder
  import opened Bookmarks
  import opened Wire
  import opened Parsing
  import opened RoundTrip
  import Transmission
  import Utf8
  import WireBytes
  import Reader
  import Writer

  /** The name of a property: what `key.toString()` gives. */
  type Name = seq<Utf8.unit>

  datatype Key = Number(n: int) | Text(units: Name)

  datatype Record = Record(key: Key, value: Value)

  function Units(s: string): Name {
    if s == "" then [] else [s[0] as int % 0x1_0000] + Units(s[1..])
  }

  function NameOf(key: Key): Name {
    match key
    case Number(n) => Units(SignedText(n))
    case Text(units) => units
  }

  // ----- which keys have the same name -----

  /** Decimal digits without superfluous zeros in front. */
  predicate Decimals(units: Name) {
    units != [] && (|units| == 1 || units[0] != 48) && forall i :: 0 <= i < |units| ==> 48 <= units[i] <= 57
  }

  function ValueOf(units: Name): int {
    if units == [] then 0 else 10 * ValueOf(units[..|units| - 1]) + (units[|units| - 1] as int - 48)
  }

  /** The text is the decimal notation of `n`, with a minus sign for a negative number. */
  predicate Notates(units: Name, n: int) {
    if n < 0 then units != [] && units[0] == 45 && Decimals(units[1..]) && ValueOf(units[1..]) == -n
    else Decimals(units) && ValueOf(units) == n
  }

  /** The keys of one property: a number is the same key as its decimal notation and as nothing else. */
  predicate SameKey(a: Key, b: Key) {
    match (a, b)
    case (Number(n), Number(m)) => n == m
    case (Text(t), Text(u)) => t == u
    case (Number(n), Text(t)) => Notates(t, n)
    case (Text(t), Number(n)) => Notates(t, n)
  }

  lemma {:induction false} UnitsAre(s: string)
    ensures |Units(s)| == |s| && forall i :: 0 <= i < |s| ==> Units(s)[i] == s[i] as int % 0x1_0000
  {
    if s != "" {
      UnitsAre(s[1..]);
    }
  }

  function Characters(units: Name): (s: string)
    ensures |s| == |units| && forall i :: 0 <= i < |s| ==> s[i] as int == (if units[i] < 128 then units[i] else 0)
  {
    seq(|units|, i requires 0 <= i < |units| => (if units[i] < 128 then units[i] else 0) as char)
  }

  lemma {:induction false} DigitsValue(s: string)
    requires AllDigits(s)
    ensures ValueOf(Units(s)) == Decimal.Number(s)
  {
    if s != "" {
      var k := |s| - 1;
      UnitsAre(s);
      UnitsAre(s[..k]);
      assert Units(s)[..k] == Units(s[..k]);
      DigitsValue(s[..k]);
    }
  }

  lemma UnsignedNotation(t: Name, n: nat)
    ensures t == Units(Unsigned(n)) <==> Decimals(t) && ValueOf(t) == n
  {
    hide Unsigned, ValueOf, Units;
    UnsignedNotated(n);
    if Decimals(t) && ValueOf(t) == n {
      NotationUnsigned(t);
    }
  }

  lemma UnsignedNotated(n: nat)
    ensures Decimals(Units(Unsigned(n))) && ValueOf(Units(Unsigned(n))) == n
  {
    hide Unsigned, ValueOf, Units, Decimal.Number;
    UnsignedDenotes(n);
    UnitsAre(Unsigned(n));
    DigitsValue(Unsigned(n));
    UnsignedLeads(n);
  }

  lemma NotationUnsigned(t: Name)
    requires Decimals(t)
    ensures ValueOf(t) >= 0 && t == Units(Unsigned(ValueOf(t)))
  {
    hide Unsigned, ValueOf, Units, Decimal.Number;
    var u := Characters(t);
    UnitsAre(u);
    assert Units(u) == t;
    DigitsValue(u);
    CanonicalUnique(u);
  }

  lemma {:induction false} UnsignedLeads(n: nat)
    ensures Unsigned(n) != "" && (|Unsigned(n)| == 1 || Unsigned(n)[0] != '0')
  {
    if n >= 10 {
      UnsignedDenotes(n);
    }
  }

  lemma NumberNotation(t: Name, n: int)
    ensures t == NameOf(Number(n)) <==> Notates(t, n)
  {
    hide Decimals, ValueOf, Unsigned, Units;
    if n < 0 {
      var s := Unsigned(-n);
      UnsignedNotation(if t == [] then [] else t[1..], -n);
      assert Units("-" + s) == [45] + Units(s) by { UnitsMinus(s); }
      if t != [] {
        assert t == [t[0]] + t[1..];
      }
    } else {
      UnsignedNotation(t, n);
    }
  }

  lemma UnitsMinus(s: string)
    ensures Units("-" + s) == [45] + Units(s)
  {
    assert ("-" + s)[1..] == s;
  }

  /** Two keys are filed under one name exactly when they are the same key. */
  lemma NamesApart(a: Key, b: Key)
    ensures NameOf(a) == NameOf(b) <==> SameKey(a, b)
  {
    hide NameOf, Notates;
    match (a, b)
    case (Number(n), Number(m)) =>
      NumberNotation(NameOf(a), n);
      NumberNotation(NameOf(a), m);
      if Notates(NameOf(a), m) {
        OneNumber(NameOf(a), n, m);
      }
    case (Text(t), Text(u)) => TextName(t); TextName(u);
    case (Number(n), Text(t)) => NumberNotation(t, n); TextName(t);
    case (Text(t), Number(n)) => NumberNotation(t, n); TextName(t);
  }

  lemma TextName(t: Name)
    ensures NameOf(Text(t)) == t
  {
  }

  lemma OneNumber(t: Name, n: int, m: int)
    requires Notates(t, n) && Notates(t, m)
    ensures n == m
  {
    hide ValueOf;
  }

  // ----- the order of Array.prototype.sort: by code units -----

  predicate Before(a: Name, b: Name) {
    b != [] && (a == [] || a[0] < b[0] || (a[0] == b[0] && Before(a[1..], b[1..])))
  }

  /** Equal up to `k`, where the first one ends or is smaller. */
  predicate Ahead(a: Name, b: Name, k: nat) {
    k <= |a| && k < |b| && a[..k] == b[..k] && (k == |a| || a[k] < b[k])
  }

  lemma AheadStep(a: Name, b: Name, k: nat)
    requires a != [] && b != []
    ensures Ahead(a, b, k + 1) <==> a[0] == b[0] && Ahead(a[1..], b[1..], k)
    ensures Ahead(a, b, 0) <==> a[0] < b[0]
  {
    if k + 1 <= |a| && k + 1 <= |b| {
      assert a[..k + 1] == [a[0]] + a[1..][..k] && b[..k + 1] == [b[0]] + b[1..][..k];
    }
  }

  /** A name comes before another when it is a proper prefix, or smaller at the first difference. */
  lemma {:induction false} BeforeMeans(a: Name, b: Name)
    ensures Before(a, b) <==> exists k: nat :: Ahead(a, b, k)
  {
    hide Ahead;
    if a != [] && b != [] {
      BeforeMeans(a[1..], b[1..]);
      AheadStep(a, b, 0);
      if k: nat :| Ahead(a[1..], b[1..], k) {
        AheadStep(a, b, k);
      }
      if k: nat :| Ahead(a, b, k) {
        if k > 0 {
          AheadStep(a, b, k - 1);
        }
      }
    } else {
      AheadEmpty(a, b);
    }
  }

  lemma AheadEmpty(a: Name, b: Name)
    requires a == [] || b == []
    ensures b == [] ==> forall k: nat :: !Ahead(a, b, k)
    ensures a == [] && b != [] ==> Ahead(a, b, 0)
  {
  }

  lemma {:induction false} NotBeforeItself(a: Name)
    ensures !Before(a, a)
  {
    if a != [] {
      NotBeforeItself(a[1..]);
    }
  }

  lemma {:induction false} BeforeTotal(a: Name, b: Name)
    ensures Before(a, b) || a == b || Before(b, a)
    ensures !(Before(a, b) && Before(b, a)) && !Before(a, a)
  {
    NotBeforeItself(a);
    if a != [] && b != [] {
      BeforeTotal(a[1..], b[1..]);
      assert a == [a[0]] + a[1..] && b == [b[0]] + b[1..];
    }
  }

  lemma {:induction false} BeforeTransitive(a: Name, b: Name, c: Name)
    requires Before(a, b) && Before(b, c)
    ensures Before(a, c)
    decreases |a|
  {
    if a != [] && a[0] == b[0] == c[0] {
      BeforeTransitive(a[1..], b[1..], c[1..]);
    }
  }

  ghost predicate Ascending(names: seq<Name>) {
    forall i, j :: 0 <= i < j < |names| ==> Before(names[i], names[j])
  }

  ghost predicate Distinct(names: seq<Name>) {
    forall i, j :: 0 <= i < j < |names| ==> names[i] != names[j]
  }

  function Insert(x: Name, names: seq<Name>): seq<Name> {
    if names == [] then [x]
    else if Before(x, names[0]) then [x] + names
    else [names[0]] + Insert(x, names[1..])
  }

  /** `names.sort()` */
  function Sorted(names: seq<Name>): seq<Name> {
    if names == [] then [] else Insert(names[0], Sorted(names[1..]))
  }

  lemma {:induction false} InsertElements(x: Name, names: seq<Name>)
    ensures forall n :: n in Insert(x, names) <==> n == x || n in names
  {
    hide Before;
    if names != [] {
      InsertElements(x, names[1..]);
      assert names == [names[0]] + names[1..];
    }
  }

  lemma AscendingCons(x: Name, names: seq<Name>)
    requires Ascending(names) && forall n :: n in names ==> Before(x, n)
    ensures Ascending([x] + names)
  {
    hide Before;
  }

  lemma {:induction false} InsertAscending(x: Name, names: seq<Name>)
    requires Ascending(names) && x !in names
    ensures Ascending(Insert(x, names))
  {
    hide Before;
    if names == [] {
    } else if Before(x, names[0]) {
      forall n | n in names
        ensures Before(x, n)
      {
        if n != names[0] {
          BeforeTransitive(x, names[0], n);
        }
      }
      AscendingCons(x, names);
    } else {
      BeforeTotal(x, names[0]);
      var rest := names[1..];
      InsertAscending(x, rest);
      InsertElements(x, rest);
      AscendingCons(names[0], Insert(x, rest));
    }
  }

  lemma {:induction false} SortedElements(names: seq<Name>)
    ensures forall n :: n in Sorted(names) <==> n in names
  {
    if names != [] {
      SortedElements(names[1..]);
      InsertElements(names[0], Sorted(names[1..]));
      assert names == [names[0]] + names[1..];
    }
  }

  lemma {:induction false} SortedAscending(names: seq<Name>)
    requires Distinct(names)
    ensures Ascending(Sorted(names))
  {
    if names != [] {
      SortedAscending(names[1..]);
      SortedElements(names[1..]);
      InsertAscending(names[0], Sorted(names[1..]));
    }
  }

  // ----- records and the maps they describe -----

  /** Reading records left to right; the last record for a name wins. */
  function Fold(records: seq<Record>): map<Name, Record> {
    if records == [] then map[]
    else Fold(Front(records))[NameOf(Last(records).key) := Last(records)]
  }

  ghost predicate Keyed(entries: map<Name, Record>) {
    forall name :: name in entries ==> NameOf(entries[name].key) == name
  }

  lemma {:induction false} FoldKeyed(records: seq<Record>)
    ensures Keyed(Fold(records))
    ensures forall name :: name in Fold(records) ==> exists i :: 0 <= i < |records| && NameOf(records[i].key) == name
  {
    hide NameOf;
    if records != [] {
      FoldKeyed(Front(records));
    }
  }

  /** A key has the value of the last record with that key. */
  ghost predicate LastWins(records: seq<Record>, key: Key, value: Option<Value>) {
    match value
    case None => forall i :: 0 <= i < |records| ==> !SameKey(records[i].key, key)
    case Some(v) => exists i :: 0 <= i < |records| && SameKey(records[i].key, key) && records[i].value == v
                                && forall j :: i < j < |records| ==> !SameKey(records[j].key, key)
  }

  /** The value filed under a key. */
  ghost function Lookup(entries: map<Name, Record>, key: Key): Option<Value> {
    if NameOf(key) in entries then Some(entries[NameOf(key)].value) else None
  }

  lemma {:induction false} FoldLookup(records: seq<Record>, key: Key)
    ensures LastWins(records, key, Lookup(Fold(records), key))
  {
    hide NameOf, SameKey;
    if records != [] {
      var front, last := Front(records), Last(records);
      FoldLookup(front, key);
      NamesApart(last.key, key);
      if SameKey(last.key, key) {
        assert records[|records| - 1] == last;
      } else if Lookup(Fold(front), key).Some? {
        var v := Lookup(Fold(front), key).value;
        var i :| 0 <= i < |front| && SameKey(front[i].key, key) && front[i].value == v
                 && forall j :: i < j < |front| ==> !SameKey(front[j].key, key);
        assert SameKey(records[i].key, key) && records[i].value == v;
        assert forall j :: i < j < |records| ==> !SameKey(records[j].key, key);
      } else {
        assert forall j :: 0 <= j < |records| ==> !SameKey(records[j].key, key);
      }
    }
  }

  /** Filing a value changes what its key has, and nothing else; so does removing it. */
  lemma FiledLookup(entries: map<Name, Record>, key: Key, value: Value, other: Key)
    ensures Lookup(entries[NameOf(key) := Record(key, value)], other)
            == if SameKey(key, other) then Some(value) else Lookup(entries, other)
    ensures Lookup(entries - {NameOf(key)}, other) == if SameKey(key, other) then None else Lookup(entries, other)
  {
    hide NameOf, SameKey;
    NamesApart(key, other);
  }

  ghost predicate SortedByName(records: seq<Record>) {
    forall i, j :: 0 <= i < j < |records| ==> Before(NameOf(records[i].key), NameOf(records[j].key))
  }

  /** The records of a map, sorted by name and without duplicates. */
  ghost predicate IsListing(records: seq<Record>, entries: map<Name, Record>) {
    SortedByName(records) && Fold(records) == entries
  }

  /** The last name of a sorted list is not among the earlier ones, and every other comes before it. */
  lemma LastName(records: seq<Record>)
    requires SortedByName(records) && records != []
    ensures NameOf(Last(records).key) !in Fold(Front(records)) && SortedByName(Front(records))
    ensures forall name :: name in Fold(records) ==>
              name == NameOf(Last(records).key) || Before(name, NameOf(Last(records).key))
  {
    hide NameOf, Before;
    FoldKeyed(Front(records));
    var last := NameOf(Last(records).key);
    BeforeTotal(last, last);
  }

  /** A map has one listing, so whatever is computed from it depends on the contents alone. */
  lemma {:induction false} ListingUnique(a: seq<Record>, b: seq<Record>)
    requires SortedByName(a) && SortedByName(b) && Fold(a) == Fold(b)
    ensures a == b
    decreases |a|
  {
    hide NameOf, Before, SortedByName;
    if a != [] {
      assert NameOf(Last(a).key) in Fold(a);
    }
    if b != [] {
      assert NameOf(Last(b).key) in Fold(b);
    }
    if a != [] && b != [] {
      LastName(a);
      LastName(b);
      var x, y := NameOf(Last(a).key), NameOf(Last(b).key);
      BeforeTotal(x, y);
      assert Last(a) == Fold(a)[x] && Last(b) == Fold(b)[y];
      assert Fold(Front(a)) == Fold(a) - {x} && Fold(Front(b)) == Fold(b) - {y};
      ListingUnique(Front(a), Front(b));
      assert a == Front(a) + [Last(a)] && b == Front(b) + [Last(b)];
    }
  }

  function RecordsOf(names: seq<Name>, entries: map<Name, Record>): (records: seq<Record>)
    requires forall i :: 0 <= i < |names| ==> names[i] in entries
    ensures |records| == |names|
    ensures forall i :: 0 <= i < |names| ==> records[i] == entries[names[i]]
  {
    seq(|names|, i requires 0 <= i < |names| => entries[names[i]])
  }

  lemma {:induction false} FoldRecords(names: seq<Name>, entries: map<Name, Record>)
    requires Keyed(entries) && forall i :: 0 <= i < |names| ==> names[i] in entries
    ensures Fold(RecordsOf(names, entries)).Keys == (set n | n in names)
    ensures forall n :: n in names ==> Fold(RecordsOf(names, entries))[n] == entries[n]
  {
    hide NameOf;
    if names != [] {
      var records := RecordsOf(names, entries);
      FoldRecords(Front(names), entries);
      assert Front(records) == RecordsOf(Front(names), entries);
      assert names == Front(names) + [Last(names)];
    }
  }

  /** The records under all names in ascending order are the listing. */
  lemma NamesListing(names: seq<Name>, entries: map<Name, Record>)
    requires Keyed(entries) && Ascending(names) && forall n :: n in names <==> n in entries
    ensures forall i :: 0 <= i < |names| ==> names[i] in entries
    ensures IsListing(RecordsOf(names, entries), entries)
  {
    hide NameOf, Before, Fold;
    FoldRecords(names, entries);
    assert Fold(RecordsOf(names, entries)) == entries;
  }

  lemma SizeFiled(entries: map<Name, Record>, name: Name, record: Record)
    ensures |entries[name := record]| == |entries| + if name in entries then 0 else 1
  {
    assert entries[name := record].Keys == entries.Keys + {name};
  }

  lemma SizeRemoved(entries: map<Name, Record>, name: Name)
    ensures |entries - {name}| == |entries| - if name in entries then 1 else 0
  {
    assert (entries - {name}).Keys == entries.Keys - {name};
  }

  /** A JavaScript array of records, shared with the message that owns the map. */
  class RecordArray {
    var records: seq<Record>

    constructor (rs: seq<Record>)
      ensures records == rs
    {
      records := rs;
    }
  }

  class JsMap {
    const arr: RecordArray
    var entries: map<Name, Record>
    var arrClean: bool

    /** Properties are filed under the name of their key, and a clean array describes the map. */
    ghost predicate Valid()
      reads this, arr
    {
      Keyed(entries) && (arrClean ==> Fold(arr.records) == entries)
    }

    /** The value of a key. */
    ghost function Held(key: Key): Option<Value>
      reads this
    {
      Lookup(entries, key)
    }

    /** All other keys have the values they had. */
    twostate predicate OthersKept(key: Key)
      reads this
    {
      forall other :: !SameKey(key, other) ==> Held(other) == old(Held(other))
    }

    constructor (backing: RecordArray)
      ensures Valid() && arr == backing && arrClean && entries == Fold(backing.records)
      ensures forall key :: LastWins(backing.records, key, Held(key))
    {
      hide LastWins;
      arr := backing;
      entries := map[];
      arrClean := true;
      new;
      if |arr.records| > 0 {
        LoadFromArray();
      } else {
        assert arr.records == [];
      }
      forall key
        ensures LastWins(arr.records, key, Held(key))
      {
        FoldLookup(arr.records, key);
      }
    }

    /** `loadFromArray_`, on a map without entries. */
    method LoadFromArray()
      requires entries == map[]
      modifies this
      ensures Valid() && arrClean && entries == Fold(arr.records)
    {
      hide NameOf;
      for i := 0 to |arr.records|
        invariant entries == Fold(arr.records[..i])
      {
        var record := arr.records[i];
        assert Front(arr.records[..i + 1]) == arr.records[..i] && Last(arr.records[..i + 1]) == record;
        entries := entries[NameOf(record.key) := record];
      }
      assert arr.records[..|arr.records|] == arr.records;
      FoldKeyed(arr.records);
      arrClean := true;
    }

    /** `stringKeys_`: the own properties, in any order. */
    method StringKeys() returns (ret: seq<Name>)
      ensures Distinct(ret) && forall n :: n in ret <==> n in entries
    {
      ret := [];
      var rest := entries.Keys;
      while rest != {}
        invariant Distinct(ret) && rest <= entries.Keys
        invariant forall n :: n in ret <==> n in entries && n !in rest
        decreases |rest|
      {
        var p :| p in rest;
        rest := rest - {p};
        ret := ret + [p];
      }
    }

    /** Restores a clean array: untouched when it was clean, else the listing of the contents. */
    method ToArray() returns (synced: RecordArray)
      requires Valid()
      modifies this`arrClean, arr
      ensures Valid() && arrClean && synced == arr
      ensures if old(arrClean) then arr.records == old(arr.records) else IsListing(arr.records, entries)
    {
      hide NameOf, Before, Fold, SortedByName;
      if !arrClean {
        arr.records := [];
        var strKeys := StringKeys();
        SortedElements(strKeys);
        SortedAscending(strKeys);
        strKeys := Sorted(strKeys);
        NamesListing(strKeys, entries);
        for i := 0 to |strKeys|
          invariant arr.records == RecordsOf(strKeys, entries)[..i]
          modifies arr
        {
          var entry := entries[strKeys[i]];
          arr.records := arr.records + [Record(entry.key, entry.value)];
        }
        assert arr.records == RecordsOf(strKeys, entries);
        arrClean := true;
      }
      return arr;
    }

    method Set(key: Key, value: Value)
      requires Valid()
      modifies this
      ensures Valid() && !arrClean && entries == old(entries)[NameOf(key) := Record(key, value)]
      ensures OthersKept(key) && forall same :: SameKey(key, same) ==> Held(same) == Some(value)
      ensures |entries| == old(|entries|) + if old(Held(key)).None? then 1 else 0
    {
      hide NameOf, SameKey;
      ghost var before := entries;
      entries := entries[NameOf(key) := Record(key, value)];
      arrClean := false;
      forall other
        ensures Held(other) == if SameKey(key, other) then Some(value) else Lookup(before, other)
      {
        FiledLookup(before, key, value, other);
      }
      SizeFiled(before, NameOf(key), Record(key, value));
    }

    method Del(key: Key) returns (hadKey: bool)
      requires Valid()
      modifies this
      ensures Valid() && !arrClean && entries == old(entries) - {NameOf(key)}
      ensures OthersKept(key) && forall same :: SameKey(key, same) ==> Held(same) == None
      ensures hadKey <==> old(Held(key)).Some?
      ensures |entries| == old(|entries|) - if hadKey then 1 else 0
    {
      hide NameOf, SameKey;
      ghost var before := entries;
      var keyValue := NameOf(key);
      hadKey := keyValue in entries;
      entries := entries - {keyValue};
      arrClean := false;
      forall other
        ensures Held(other) == if SameKey(key, other) then None else Lookup(before, other)
      {
        FiledLookup(before, key, UInt32(0), other);
      }
      SizeRemoved(before, keyValue);
    }

    method Clear()
      modifies this
      ensures Valid() && !arrClean && entries == map[]
      ensures forall key :: Held(key) == None
    {
      entries := map[];
      arrClean := false;
    }

    method Get(key: Key) returns (value: Option<Value>)
      requires Valid()
      ensures value == Held(key)
    {
      var keyValue := NameOf(key);
      if keyValue in entries {
        return Some(entries[keyValue].value);
      }
      return None;
    }

    /** The bytes written are those of the listing of the contents, whatever the history of the map. */
    method SerializeBinary(fieldNumber: nat, writer: Writer.BinaryWriter)
      requires Valid() && writer.Valid() && 1 <= fieldNumber < 0x2000_0000
      requires forall name :: name in entries ==> RecordWritable(entries[name])
      modifies writer, writer.encoder, writer.encoder.buffer
      ensures writer.Valid() && writer.Grew()
      ensures forall records :: IsListing(records, entries) ==>
                writer.frames == AppendToLast(old(writer.frames), EncodeFields(EntryFields(fieldNumber, records)))
    {
      hide NameOf, Before, Fold, SortedByName, Layout, EncodeFields, EncodeField, EntryFields, EntryField, RecordWritable;
      var strKeys := StringKeys();
      SortedElements(strKeys);
      SortedAscending(strKeys);
      strKeys := Sorted(strKeys);
      NamesListing(strKeys, entries);
      ghost var listing, before := RecordsOf(strKeys, entries), writer.frames;
      ghost var all := EncodeFields(EntryFields(fieldNumber, listing));
      assert listing[0..] == listing;
      for i := 0 to |strKeys|
        invariant writer.Valid() && writer.Grew()
        invariant AppendToLast(writer.frames, EncodeFields(EntryFields(fieldNumber, listing[i..])))
               == AppendToLast(before, all)
      {
        var entry := entries[strKeys[i]];
        EntryFieldsStep(fieldNumber, listing, i);
        Writer.AppendTwice(writer.frames, EncodeField(EntryField(fieldNumber, listing[i])),
                           EncodeFields(EntryFields(fieldNumber, listing[i + 1..])));
        WriteEntry(fieldNumber, Record(entry.key, entry.value), writer);
      }
      NothingEncoded(fieldNumber, listing[|strKeys|..]);
      Writer.AppendNothing(writer.frames);
      forall records | IsListing(records, entries)
        ensures records == listing
      {
        ListingUnique(records, listing);
      }
    }

    method GetLength() returns (n: nat)
      ensures n == |entries|
    {
      var keys := StringKeys();
      CountDistinct(keys, entries.Keys);
      return |keys|;
    }
  }

  // ----- the wire format of a map: one message a record, the key as field 1 and the value as field 2 -----

  function KeyValue(key: Key): Value {
    match key
    case Number(n) => Int32(n)
    case Text(units) => Str(units)
  }

  function KeyField(record: Record): Field { Field(1, KeyValue(record.key)) }

  function ValueField(record: Record): Field { Field(2, record.value) }

  function EntryField(num: nat, record: Record): Field {
    Field(num, Message([KeyField(record), ValueField(record)]))
  }

  function EntryFields(num: nat, records: seq<Record>): seq<Field> {
    if records == [] then [] else [EntryField(num, records[0])] + EntryFields(num, records[1..])
  }

  ghost predicate RecordWritable(record: Record) {
    && Writable(KeyField(record)) && Writable(ValueField(record))
    && |EncodeField(KeyField(record)) + EncodeField(ValueField(record))| < 0x1_0000_0000
  }

  lemma EntryEncoded(num: nat, record: Record)
    ensures EncodeField(EntryField(num, record))
            == Header(num, DELIMITED) + Delimited(EncodeField(KeyField(record)) + EncodeField(ValueField(record)))
  {
    hide EncodeField, Delimited;
    var k, v := KeyField(record), ValueField(record);
    assert [k, v][1..] == [v] && [v][1..] == [];
    assert EncodeFields([v]) == EncodeField(v) + EncodeFields([]) == EncodeField(v);
    assert EncodeFields([k, v]) == EncodeField(k) + EncodeField(v);
    assert EncodeField(EntryField(num, record)) == Header(num, DELIMITED) + EncodePayload(EntryField(num, record)) by {
      FieldEncoded(EntryField(num, record));
    }
  }

  /** An entry on the wire: its tag and length, then the key as field 1 and the value as field 2. */
  lemma EntryBytes(num: nat, key: Key, value: Value)
    requires RecordWritable(Record(key, value)) && num >= 1
    ensures var k := match key
              case Number(n) => [8] + Varint(if n < 0 then n + 0x1_0000_0000_0000_0000 else n)
              case Text(units) => [10] + Varint(|Utf8.Encode(units)|) + Utf8.Encode(units);
            var v := EncodeField(Field(2, value));
            EncodeField(EntryField(num, Record(key, value))) == Varint(8 * num + 2) + (Varint(|k| + |v|) + (k + v))
  {
    hide EncodeField, Varint, Utf8.Encode, EncodePayload;
    var f := KeyField(Record(key, value));
    EntryEncoded(num, Record(key, value));
    WireBytes.FieldTag(f);
    WireBytes.VarintPayload(f);
    WireBytes.BodyPayload(f);
    WireBytes.SmallVarints(8);
    WireBytes.SmallVarints(10);
    if key.Text? {
      assert [10] + (Varint(|Utf8.Encode(key.units)|) + Utf8.Encode(key.units))
          == [10] + Varint(|Utf8.Encode(key.units)|) + Utf8.Encode(key.units);
    }
  }

  lemma NothingEncoded(num: nat, records: seq<Record>)
    requires records == []
    ensures EncodeFields(EntryFields(num, records)) == []
  {
  }

  lemma FieldEncoded(f: Field)
    ensures EncodeField(f) == Header(f.num, WireType(f.value)) + EncodePayload(f)
  {
  }

  /** One turn of the loop of `serializeBinary`. */
  method WriteEntry(fieldNumber: nat, entry: Record, writer: Writer.BinaryWriter)
    requires writer.Valid() && 1 <= fieldNumber < 0x2000_0000 && RecordWritable(entry)
    modifies writer, writer.encoder, writer.encoder.buffer
    ensures writer.Valid() && writer.Grew()
    ensures writer.frames == AppendToLast(old(writer.frames), EncodeField(EntryField(fieldNumber, entry)))
  {
    hide Layout, EncodeField, Header, Writable, EntryField, KeyField, ValueField;
    ghost var k, v := EncodeField(KeyField(entry)), EncodeField(ValueField(entry));
    writer.BeginSubMessage(fieldNumber);
    writer.WriteField(KeyField(entry));
    writer.WriteField(ValueField(entry));
    Writer.AppendTwice(AppendToLast(old(writer.frames), Header(fieldNumber, DELIMITED)) + [[]], k, v);
    Writer.CloseOpened(old(writer.frames), Header(fieldNumber, DELIMITED), k + v);
    EntryEncoded(fieldNumber, entry);
    writer.EndSubMessage();
  }

  lemma EntryFieldsStep(num: nat, records: seq<Record>, i: nat)
    requires i < |records|
    ensures EncodeFields(EntryFields(num, records[i..]))
            == EncodeField(EntryField(num, records[i])) + EncodeFields(EntryFields(num, records[i + 1..]))
  {
    hide EncodeField, EntryField;
    var tail := EntryFields(num, records[i + 1..]);
    assert records[i..][1..] == records[i + 1..];
    assert EntryFields(num, records[i..]) == [EntryField(num, records[i])] + tail;
    assert ([EntryField(num, records[i])] + tail)[1..] == tail;
  }

  // ----- reading it back -----

  predicate Scalar(ty: FieldType) { !ty.TMessage? && !ty.TGroup? }

  /** A turn of the loop of `deserializeBinary`: fields other than the key and the value are neither
      read nor skipped, only their headers are. */
  function EntryStep(kty: FieldType, vty: FieldType, bytes: seq<byte>, st: State,
                     key: Option<Value>, value: Option<Value>): Result<((Option<Value>, Option<Value>), State)>
    requires Scalar(kty) && Scalar(vty) && 0 <= st.cursor
  {
    if st.field == 1 then
      var read :- ReadPlain(kty, bytes, st);
      Ok(((Some(read.0), value), read.1))
    else if st.field == 2 then
      var read :- ReadPlain(vty, bytes, st);
      Ok(((key, Some(read.0)), read.1))
    else Ok(((key, value), st))
  }

  lemma EntryStepProgress(kty: FieldType, vty: FieldType, bytes: seq<byte>, st: State,
                          key: Option<Value>, value: Option<Value>)
    requires Scalar(kty) && Scalar(vty) && 0 <= st.cursor && EntryStep(kty, vty, bytes, st, key, value).Ok?
    ensures Remaining(bytes, EntryStep(kty, vty, bytes, st, key, value).value.1.cursor) <= Remaining(bytes, st.cursor)
  {
    hide ReadPlain, Remaining;
    if st.field == 1 {
      PlainProgress(kty, bytes, st);
    } else if st.field == 2 {
      PlainProgress(vty, bytes, st);
    }
  }

  function EntryLoop(kty: FieldType, vty: FieldType, bytes: seq<byte>, st: State,
                     key: Option<Value>, value: Option<Value>): Result<((Option<Value>, Option<Value>), State)>
    requires Scalar(kty) && Scalar(vty)
    decreases Remaining(bytes, st.cursor)
  {
    var next :- NextField(bytes, st);
    if !next.0 || next.1.wire == END_GROUP then Ok(((key, value), next.1))
    else
      NextFieldProgress(bytes, st);
      var done :- EntryStep(kty, vty, bytes, next.1, key, value);
      EntryStepProgress(kty, vty, bytes, next.1, key, value);
      EntryLoop(kty, vty, bytes, done.1, done.0.0, done.0.1)
  }

  lemma {:induction false} DecodeProgress(bytes: seq<byte>, i: int, end: int)
    ensures Utf8.Decode(bytes, i, end).1 >= i
    decreases end - i
  {
    hide Utf8.DecodeFirst;
    if i < end {
      DecodeProgress(bytes, Utf8.DecodeFirst(bytes, i).1, end);
    }
  }

  lemma {:induction false} PackedProgress(bytes: seq<byte>, cursor: int, end: int, stop: int)
    ensures PackedVarints(bytes, cursor, end, stop).Ok? ==> PackedVarints(bytes, cursor, end, stop).value.1 >= cursor
    ensures PackedWords(bytes, cursor, end, stop).Ok? ==> PackedWords(bytes, cursor, end, stop).value.1 >= cursor
    decreases stop - cursor
  {
    hide Varint32, Word32;
    if cursor < stop {
      if Varint32(bytes, cursor, end).Ok? {
        Varint32Progress(bytes, cursor, end);
        PackedProgress(bytes, Varint32(bytes, cursor, end).value.1, end, stop);
      }
      PackedProgress(bytes, cursor + 4, end, stop);
    }
  }

  lemma SplitProgress(bytes: seq<byte>, cursor: int)
    requires SplitVarint64(bytes, cursor).Ok?
    ensures SplitVarint64(bytes, cursor).value.1 > cursor
  {
  }

  /** A scalar reader never moves the cursor back. */
  lemma PlainProgress(ty: FieldType, bytes: seq<byte>, st: State)
    requires Scalar(ty) && 0 <= st.cursor && ReadPlain(ty, bytes, st).Ok?
    ensures st.cursor <= ReadPlain(ty, bytes, st).value.1.cursor
    ensures Remaining(bytes, ReadPlain(ty, bytes, st).value.1.cursor) <= Remaining(bytes, st.cursor)
  {
    hide Varint32, SplitVarint64, PackedVarints, PackedWords, Utf8.Decode, Word32, Slice, Signed, SignedText, HashOf, Unzigzag;
    match ty
    case TUInt32 | TInt32 | TSInt32 => Varint32Progress(bytes, st.cursor, st.end);
    case TEnum | TInt64Text | TVarintHash => SplitProgress(bytes, st.cursor);
    case TFixed32 | TFixedHash =>
    case TBytes | TStr | TPackedInt32 | TPackedFixed32 =>
      var read := Varint32(bytes, st.cursor, st.end).value;
      Varint32Progress(bytes, st.cursor, st.end);
      DecodeProgress(bytes, read.1, read.1 + read.0);
      PackedProgress(bytes, read.1, st.end, read.1 + read.0);
  }

  /** `deserializeBinary` after its assertions. */
  function Deserialized(kty: FieldType, vty: FieldType, bytes: seq<byte>, st: State): Result<((Value, Value), State)>
    requires Scalar(kty) && Scalar(vty)
  {
    var done :- EntryLoop(kty, vty, bytes, st, None, None);
    if done.0.0.None? || done.0.1.None? then Err(MissingMapEntry)
    else Ok(((done.0.0.value, done.0.1.value), done.1))
  }

  /** An entry needs a key and a value. */
  lemma EmptyEntry(kty: FieldType, vty: FieldType, bytes: seq<byte>, st: State)
    requires Scalar(kty) && Scalar(vty) && st.cursor == st.end
    ensures Deserialized(kty, vty, bytes, st) == Err(MissingMapEntry)
  {
  }

  /** A later key or value replaces an earlier one, and fields other than 1 and 2 leave them. */
  lemma EntryFieldRead(kty: FieldType, vty: FieldType, bytes: seq<byte>, st: State, key: Option<Value>, value: Option<Value>)
    requires Scalar(kty) && Scalar(vty) && 0 <= st.cursor
    ensures st.field !in {1, 2} ==> EntryStep(kty, vty, bytes, st, key, value) == Ok(((key, value), st))
    ensures st.field == 1 && ReadPlain(kty, bytes, st).Ok? ==>
              EntryStep(kty, vty, bytes, st, key, value)
              == Ok(((Some(ReadPlain(kty, bytes, st).value.0), value), ReadPlain(kty, bytes, st).value.1))
    ensures st.field == 2 && ReadPlain(vty, bytes, st).Ok? ==>
              EntryStep(kty, vty, bytes, st, key, value)
              == Ok(((key, Some(ReadPlain(vty, bytes, st).value.0)), ReadPlain(vty, bytes, st).value.1))
  {
    hide ReadPlain;
  }

  /** `readMessage` with `deserializeBinary` as its callback. */
  function ReadEntry(kty: FieldType, vty: FieldType, bytes: seq<byte>, st: State): Result<((Value, Value), State)>
    requires Scalar(kty) && Scalar(vty)
  {
    if st.wire != DELIMITED then Err(WrongWireType)
    else
      var read :- Varint32(bytes, st.cursor, st.end);
      var newEnd := read.1 + read.0;
      var inner :- Deserialized(kty, vty, bytes, st.(cursor := read.1, end := newEnd));
      Ok((inner.0, inner.1.(cursor := newEnd, end := st.end)))
  }

  function KeyOf(v: Value): Key {
    match v
    case Int32(n) => Number(n)
    case Str(units) => Text(units)
    case _ => Number(0)
  }

  /** The key types of the model: 32-bit integers and strings. */
  predicate KeyType(ty: FieldType) { ty == TInt32 || ty == TStr }

  /** One field: an entry of the map, or something to skip. */
  function MapStep(num: int, kty: FieldType, vty: FieldType, bytes: seq<byte>, st: State,
                   entries: map<Name, Record>): Result<(map<Name, Record>, State)>
    requires Scalar(kty) && Scalar(vty)
  {
    if st.field == num then
      var read :- ReadEntry(kty, vty, bytes, st);
      Ok((Updated(entries, KeyOf(read.0.0), read.0.1), read.1))
    else
      var after :- SkipField(bytes, st);
      Ok((entries, after))
  }

  /** The generated loop of a message whose only known field is the map. */
  function MapLoop(num: int, kty: FieldType, vty: FieldType, bytes: seq<byte>, st: State,
                   entries: map<Name, Record>): Result<(map<Name, Record>, State)>
    requires Scalar(kty) && Scalar(vty)
    decreases Remaining(bytes, st.cursor)
  {
    var next :- NextField(bytes, st);
    if !next.0 || next.1.wire == END_GROUP then Ok((entries, next.1))
    else
      NextFieldProgress(bytes, st);
      var done :- MapStep(num, kty, vty, bytes, next.1, entries);
      if done.1.cursor <= st.cursor then Err(NoProgress) else MapLoop(num, kty, vty, bytes, done.1, done.0)
  }

  function Updated(entries: map<Name, Record>, key: Key, value: Value): map<Name, Record> {
    entries[NameOf(key) := Record(key, value)]
  }

  /** The loop of `deserializeBinary`. */
  method ReadEntryFields(reader: Reader.BinaryReader, kty: FieldType, vty: FieldType)
    returns (r: Result<(Option<Value>, Option<Value>)>)
    requires reader.Clean() && Scalar(kty) && Scalar(vty)
    modifies reader, reader.decoder
    ensures reader.Does(r, EntryLoop(kty, vty, reader.decoder.bytes, old(reader.Snapshot()), None, None))
  {
    hide NextField, EntryStep, Remaining;
    var key: Option<Value>, value: Option<Value> := None, None;
    ghost var bytes := reader.decoder.bytes;
    ghost var spec := EntryLoop(kty, vty, bytes, reader.Snapshot(), key, value);
    while true
      invariant reader.Clean()
      invariant EntryLoop(kty, vty, bytes, reader.Snapshot(), key, value) == spec
      decreases Remaining(bytes, reader.decoder.cursor)
    {
      ghost var before := reader.Snapshot();
      var more :- reader.NextField();
      if !more || reader.nextWireType == END_GROUP {
        return Ok((key, value));
      }
      NextFieldProgress(bytes, before);
      ghost var inside := reader.Snapshot();
      var read :- ReadEntryField(reader, kty, vty, key, value);
      EntryStepProgress(kty, vty, bytes, inside, key, value);
      key, value := read.0, read.1;
    }
  }

  /** `jspb.Map.deserializeBinary` */
  method DeserializeBinary(m: JsMap, reader: Reader.BinaryReader, kty: FieldType, vty: FieldType) returns (r: Result<()>)
    requires m.Valid() && reader.Clean() && KeyType(kty) && Scalar(vty)
    modifies m, reader, reader.decoder
    ensures m.Valid()
    ensures match Deserialized(kty, vty, reader.decoder.bytes, old(reader.Snapshot()))
            case Err(e) => r == Err(e)
            case Ok(done) => r == Ok(()) && reader.Clean() && reader.Snapshot() == done.1
                             && m.entries == Updated(old(m.entries), KeyOf(done.0.0), done.0.1)
  {
    hide EntryLoop, NameOf, Fold, Keyed, KeyOf;
    var read :- ReadEntryFields(reader, kty, vty);
    if read.0.None? || read.1.None? {
      return Err(MissingMapEntry);
    }
    m.Set(KeyOf(read.0.value), read.1.value);
    return Ok(());
  }

  method ReadEntryField(reader: Reader.BinaryReader, kty: FieldType, vty: FieldType, key: Option<Value>, value: Option<Value>)
    returns (r: Result<(Option<Value>, Option<Value>)>)
    requires reader.Clean() && Scalar(kty) && Scalar(vty) && 0 <= reader.decoder.cursor
    modifies reader, reader.decoder
    ensures reader.Does(r, EntryStep(kty, vty, reader.decoder.bytes, old(reader.Snapshot()), key, value))
  {
    hide ReadPlain, Scalar, ReadValue;
    var field := reader.nextField;
    if field == 1 {
      PlainValue(kty, reader.decoder.bytes, reader.Snapshot());
      var read :- reader.ReadKnown(map[], kty);
      return Ok((Some(read), value));
    } else if field == 2 {
      PlainValue(vty, reader.decoder.bytes, reader.Snapshot());
      var read :- reader.ReadKnown(map[], vty);
      return Ok((key, Some(read)));
    }
    return Ok((key, value));
  }

  lemma PlainValue(ty: FieldType, bytes: seq<byte>, st: State)
    requires Scalar(ty) && 0 <= st.cursor
    ensures ReadValue(map[], ty, bytes, st) == ReadPlain(ty, bytes, st)
  {
    hide ReadPlain;
  }

  /** The generated reader of a message whose only known field is the map. */
  method ReadMapMessage(m: JsMap, reader: Reader.BinaryReader, num: nat, kty: FieldType, vty: FieldType) returns (r: Result<()>)
    requires m.Valid() && reader.Clean() && KeyType(kty) && Scalar(vty)
    modifies m, reader, reader.decoder
    ensures m.Valid()
    ensures match MapLoop(num, kty, vty, reader.decoder.bytes, old(reader.Snapshot()), old(m.entries))
            case Err(e) => r == Err(e)
            case Ok(done) => r == Ok(()) && m.entries == done.0 && reader.Snapshot() == done.1 && reader.Clean()
  {
    hide NextField, MapStep, Remaining, NameOf, Fold, Keyed;
    ghost var bytes := reader.decoder.bytes;
    ghost var spec := MapLoop(num, kty, vty, bytes, reader.Snapshot(), m.entries);
    while true
      invariant reader.Clean() && m.Valid()
      invariant MapLoop(num, kty, vty, bytes, reader.Snapshot(), m.entries) == spec
      modifies m, reader, reader.decoder
      decreases Remaining(bytes, reader.decoder.cursor)
    {
      ghost var before := reader.Snapshot();
      var from := reader.decoder.cursor;
      var more :- reader.NextField();
      if !more || reader.nextWireType == END_GROUP {
        return Ok(());
      }
      NextFieldProgress(bytes, before);
      var _ :- ReadMapField(m, reader, num, kty, vty);
      if reader.decoder.cursor <= from {
        return Err(NoProgress);
      }
      Reader.FurtherOn(bytes, from, reader.decoder.cursor);
    }
  }

  method ReadMapField(m: JsMap, reader: Reader.BinaryReader, num: nat, kty: FieldType, vty: FieldType) returns (r: Result<()>)
    requires m.Valid() && reader.Clean() && KeyType(kty) && Scalar(vty)
    modifies m, reader, reader.decoder
    ensures m.Valid()
    ensures match MapStep(num, kty, vty, reader.decoder.bytes, old(reader.Snapshot()), old(m.entries))
            case Err(e) => r == Err(e)
            case Ok(done) => r == Ok(()) && m.entries == done.0 && reader.Snapshot() == done.1 && reader.Clean()
  {
    hide SkipField, ReadEntry, Updated;
    if reader.nextField == num {
      r := ReadMapEntry(m, reader, kty, vty);
    } else {
      r := reader.SkipField();
    }
  }

  method ReadMapEntry(m: JsMap, reader: Reader.BinaryReader, kty: FieldType, vty: FieldType) returns (r: Result<()>)
    requires m.Valid() && reader.Clean() && KeyType(kty) && Scalar(vty)
    modifies m, reader, reader.decoder
    ensures m.Valid()
    ensures match ReadEntry(kty, vty, reader.decoder.bytes, old(reader.Snapshot()))
            case Err(e) => r == Err(e)
            case Ok(done) => r == Ok(()) && reader.Snapshot() == done.1 && reader.Clean()
                             && m.entries == Updated(old(m.entries), KeyOf(done.0.0), done.0.1)
  {
    hide Varint32, Deserialized, Updated, Fold, Keyed, KeyOf;
    if reader.nextWireType != DELIMITED {
      return Err(WrongWireType);
    }
    var oldEnd := reader.decoder.end;
    var length :- reader.decoder.ReadUnsignedVarint32();
    var newEnd := reader.decoder.cursor + length;
    reader.decoder.end := newEnd;
    var _ :- DeserializeBinary(m, reader, kty, vty);
    reader.decoder.cursor := newEnd;
    reader.decoder.end := oldEnd;
    return Ok(());
  }

  lemma {:induction false} CountDistinct(names: seq<Name>, all: set<Name>)
    requires Distinct(names) && forall n :: n in names <==> n in all
    ensures |names| == |all|
  {
    if names == [] {
      assert all == {};
    } else {
      var last := Last(names);
      assert names == Front(names) + [last];
      CountDistinct(Front(names), all - {last});
    }
  }

  // ----- deserialising what was serialised -----

  ghost predicate RecordFits(kty: FieldType, vty: FieldType, record: Record) {
    && KeyType(kty) && Scalar(vty) && RecordWritable(record)
    && Fits(map[], kty, KeyField(record)) && Fits(map[], vty, ValueField(record))
  }

  /** A record as a reader gets it. */
  function SeenRecord(kty: FieldType, vty: FieldType, record: Record): Record {
    Record(KeyOf(Seen(map[], kty, KeyField(record))), Seen(map[], vty, ValueField(record)))
  }

  function SeenRecords(kty: FieldType, vty: FieldType, records: seq<Record>): (seen: seq<Record>)
    ensures |seen| == |records|
    ensures forall i :: 0 <= i < |records| ==> seen[i] == SeenRecord(kty, vty, records[i])
  {
    seq(|records|, i requires 0 <= i < |records| => SeenRecord(kty, vty, records[i]))
  }

  ghost predicate FaithfulRecord(kty: FieldType, vty: FieldType, record: Record) {
    Transmission.Faithful(map[], kty, KeyField(record)) && Transmission.Faithful(map[], vty, ValueField(record))
  }

  lemma PlainBack(ty: FieldType, f: Field, bytes: seq<byte>, st: State)
    requires Scalar(ty) && Writable(f) && Fits(map[], ty, f)
    requires 0 <= st.cursor && Holds(bytes, st.cursor, EncodePayload(f)) && st.cursor + |EncodePayload(f)| <= st.end
    requires st.wire == WireType(f.value)
    ensures ReadPlain(ty, bytes, st) == Ok((Seen(map[], ty, f), st.(cursor := st.cursor + |EncodePayload(f)|)))
  {
    hide ReadScalar, EncodeScalar, Seen, Writable, AllWritable, EncodeFields, Holds;
    FitsWire(ty, f);
    ScalarBack(map[], ty, f, bytes, st.cursor, st.end);
  }

  lemma FitsWire(ty: FieldType, f: Field)
    requires Scalar(ty) && Fits(map[], ty, f)
    ensures ExpectedWire(ty) == WireType(f.value) && !f.value.Message? && !f.value.Group?
  {
    hide Readable;
  }

  /** Reading a written entry: its key and value as a reader sees them, and the cursor behind it. */
  lemma EntryLoopBack(kty: FieldType, vty: FieldType, record: Record, bytes: seq<byte>, st: State)
    requires RecordFits(kty, vty, record) && 0 <= st.cursor
    requires var body := EncodeField(KeyField(record)) + EncodeField(ValueField(record));
      Holds(bytes, st.cursor, body) && st.end == st.cursor + |body|
    ensures var done := EntryLoop(kty, vty, bytes, st, None, None);
      && done.Ok? && done.value.1.cursor == st.end
      && done.value.0 == (Some(Seen(map[], kty, KeyField(record))), Some(Seen(map[], vty, ValueField(record))))
  {
    hide EncodeField, EncodePayload, ReadPlain, NextField, Header, Writable, Fits, Seen, Holds;
    var k, v := KeyField(record), ValueField(record);
    var seenKey, seenValue := Seen(map[], kty, k), Seen(map[], vty, v);
    FieldEncoded(k);
    FieldEncoded(v);
    HoldsParts(bytes, st.cursor, EncodeField(k), EncodeField(v));
    FieldStart(k, kty, bytes, st);
    var second := State(st.cursor + |EncodeField(k)|, st.end, 1, WireType(k.value));
    FieldStart(v, vty, bytes, second);
    var last := State(st.end, st.end, 2, WireType(v.value));
    assert NextField(bytes, last) == Ok((false, last)) by { AtEndOfBlock(bytes, last); }
    FieldWireNotEnd(k);
    FieldWireNotEnd(v);
    assert EntryLoop(kty, vty, bytes, last, Some(seenKey), Some(seenValue)) == Ok(((Some(seenKey), Some(seenValue)), last));
    assert EntryLoop(kty, vty, bytes, second, Some(seenKey), None)
        == EntryLoop(kty, vty, bytes, last, Some(seenKey), Some(seenValue));
  }

  lemma FieldWireNotEnd(f: Field)
    ensures WireType(f.value) != END_GROUP
  {
  }

  lemma FieldStart(f: Field, ty: FieldType, bytes: seq<byte>, st: State)
    requires Scalar(ty) && Writable(f) && Fits(map[], ty, f)
    requires 0 <= st.cursor && Holds(bytes, st.cursor, EncodeField(f)) && st.cursor + |EncodeField(f)| <= st.end
    ensures var inside := State(st.cursor + |Header(f.num, WireType(f.value))|, st.end, f.num, WireType(f.value));
      && NextField(bytes, st) == Ok((true, inside)) && inside.cursor >= 0
      && ReadPlain(ty, bytes, inside) == Ok((Seen(map[], ty, f), inside.(cursor := st.cursor + |EncodeField(f)|)))
  {
    hide EncodePayload, ReadPlain, NextField, Header, Writable, Fits, Seen, Holds, Varint;
    FieldEncoded(f);
    HoldsParts(bytes, st.cursor, Header(f.num, WireType(f.value)), EncodePayload(f));
    FieldNumber(f);
    NextHeader(bytes, st, f.num, WireType(f.value));
    PlainBack(ty, f, bytes, State(st.cursor + |Header(f.num, WireType(f.value))|, st.end, f.num, WireType(f.value)));
  }

  lemma MapStepBack(num: nat, kty: FieldType, vty: FieldType, record: Record, bytes: seq<byte>, st: State,
                    entries: map<Name, Record>) returns (next: State)
    requires 1 <= num < 0x2000_0000 && RecordFits(kty, vty, record) && 0 <= st.cursor
    requires Holds(bytes, st.cursor, EncodeField(EntryField(num, record)))
    requires st.cursor + |EncodeField(EntryField(num, record))| <= st.end
    ensures next.cursor == st.cursor + |EncodeField(EntryField(num, record))| > st.cursor && next.end == st.end
    ensures MapLoop(num, kty, vty, bytes, st, entries)
            == MapLoop(num, kty, vty, bytes, next,
                       Updated(entries, SeenRecord(kty, vty, record).key, SeenRecord(kty, vty, record).value))
  {
    hide Seen, EncodeField, Header, NextField, EntryLoop, Holds, RecordFits, MapLoop, Delimited, Varint32, Varint, NameOf, EntryField;
    var header := Header(num, DELIMITED);
    var body := EncodeField(KeyField(record)) + EncodeField(ValueField(record));
    EntryEncoded(num, record);
    RecordParts(kty, vty, record);
    HoldsParts(bytes, st.cursor, header, Delimited(body));
    NextHeader(bytes, st, num, DELIMITED);
    var inside := State(st.cursor + |header|, st.end, num, DELIMITED);
    LengthRead(bytes, inside.cursor, st.end, body);
    DelimitedLength(body);
    HeaderNotEmpty(num, DELIMITED);
    var nested := inside.(cursor := inside.cursor + |Varint(|body|)|, end := inside.cursor + |Delimited(body)|);
    EntryLoopBack(kty, vty, record, bytes, nested);
    var done := EntryLoop(kty, vty, bytes, nested, None, None);
    next := done.value.1.(cursor := nested.end, end := st.end);
    var seen := SeenRecord(kty, vty, record);
    MapTurn(num, kty, vty, bytes, st, entries, inside, next, Updated(entries, seen.key, seen.value));
  }

  lemma RecordParts(kty: FieldType, vty: FieldType, record: Record)
    requires RecordFits(kty, vty, record)
    ensures Scalar(kty) && Scalar(vty)
    ensures |EncodeField(KeyField(record)) + EncodeField(ValueField(record))| < TWO_TO_32
  {
    hide EncodeField, Writable;
  }

  lemma MapTurn(num: nat, kty: FieldType, vty: FieldType, bytes: seq<byte>, st: State, entries: map<Name, Record>,
                inside: State, next: State, after: map<Name, Record>)
    requires Scalar(kty) && Scalar(vty) && inside.wire != END_GROUP && st.cursor < next.cursor
    requires NextField(bytes, st) == Ok((true, inside))
    requires MapStep(num, kty, vty, bytes, inside, entries) == Ok((after, next))
    ensures MapLoop(num, kty, vty, bytes, st, entries) == MapLoop(num, kty, vty, bytes, next, after)
  {
    hide NextField, MapStep;
  }

  ghost predicate AllFit(kty: FieldType, vty: FieldType, records: seq<Record>) {
    forall i :: 0 <= i < |records| ==> RecordFits(kty, vty, records[i])
  }

  /** The entries of `more`, as a reader sees them, on top of those of the records before. */
  lemma {:induction false} MapBack(num: nat, kty: FieldType, vty: FieldType, done: seq<Record>, more: seq<Record>,
                                   bytes: seq<byte>, st: State) returns (last: State)
    requires 1 <= num < 0x2000_0000 && KeyType(kty) && Scalar(vty) && AllFit(kty, vty, more) && 0 <= st.cursor
    requires Holds(bytes, st.cursor, EncodeFields(EntryFields(num, more)))
    requires st.end == st.cursor + |EncodeFields(EntryFields(num, more))|
    ensures MapLoop(num, kty, vty, bytes, st, Fold(done)) == Ok((Fold(done + SeenRecords(kty, vty, more)), last))
    ensures last.cursor == last.end == st.end
    decreases |more|
  {
    hide EncodeField, EncodeFields, NextField, Holds, RecordFits, NameOf, EntryField, EntryFields, MapStep, SeenRecord;
    if more == [] {
      NothingEncoded(num, more);
      AtEndOfBlock(bytes, st);
      assert done + SeenRecords(kty, vty, more) == done;
      last := st;
    } else {
      assert more[0..] == more;
      EntryFieldsStep(num, more, 0);
      HoldsParts(bytes, st.cursor, EncodeField(EntryField(num, more[0])), EncodeFields(EntryFields(num, more[1..])));
      var next := MapStepBack(num, kty, vty, more[0], bytes, st, Fold(done));
      var first := SeenRecord(kty, vty, more[0]);
      assert Front(done + [first]) == done && Last(done + [first]) == first;
      last := MapBack(num, kty, vty, done + [first], more[1..], bytes, next);
      assert done + [first] + SeenRecords(kty, vty, more[1..]) == done + SeenRecords(kty, vty, more);
    }
  }

  /** `deserializeBinary` over the bytes of `serializeBinary` gives the records as a reader sees them. Records
      whose keys have become equal are folded into one. */
  lemma MapRebuilt(num: nat, kty: FieldType, vty: FieldType, records: seq<Record>)
    requires 1 <= num < 0x2000_0000 && KeyType(kty) && Scalar(vty) && AllFit(kty, vty, records)
    ensures var bytes := EncodeFields(EntryFields(num, records));
      MapLoop(num, kty, vty, bytes, State(0, |bytes|, -1, -1), map[]).Ok?
      && MapLoop(num, kty, vty, bytes, State(0, |bytes|, -1, -1), map[]).value.0 == Fold(SeenRecords(kty, vty, records))
  {
    hide EncodeFields, EntryFields, MapLoop, AllFit;
    var bytes := EncodeFields(EntryFields(num, records));
    assert bytes[0..|bytes|] == bytes;
    var last := MapBack(num, kty, vty, [], records, bytes, State(0, |bytes|, -1, -1));
    assert [] + SeenRecords(kty, vty, records) == SeenRecords(kty, vty, records);
  }

  // ----- when the map comes back unchanged -----

  lemma SeenRecordUnchanged(kty: FieldType, vty: FieldType, record: Record)
    requires RecordFits(kty, vty, record)
    ensures SeenRecord(kty, vty, record) == record <==> FaithfulRecord(kty, vty, record)
    ensures SeenRecord(kty, vty, record).key == record.key <==> Transmission.Faithful(map[], kty, KeyField(record))
  {
    hide Transmission.Faithful, RecordWritable, Utf8.Cleaned, SignedText;
    Transmission.SeenUnchanged(map[], kty, KeyField(record));
    Transmission.SeenUnchanged(map[], vty, ValueField(record));
  }

  /** The keys that a reader gets are faithful. */
  lemma SeenKeyFaithful(kty: FieldType, vty: FieldType, seen: Record, record: Record)
    requires RecordFits(kty, vty, seen) && RecordFits(kty, vty, record)
    requires NameOf(SeenRecord(kty, vty, seen).key) == NameOf(record.key)
    ensures Transmission.Faithful(map[], kty, KeyField(record))
  {
    hide RecordWritable, Utf8.Cleaned, SignedText, Units, Utf8.HighsPaired;
    if record.key.Text? {
      Transmission.CleanedPaired(seen.key.units);
    }
  }

  /** In a sorted list every record is found under its name. */
  lemma {:induction false} FoldFinds(records: seq<Record>, i: nat)
    requires SortedByName(records) && i < |records|
    ensures NameOf(records[i].key) in Fold(records) && Fold(records)[NameOf(records[i].key)] == records[i]
    decreases |records|
  {
    hide NameOf, Before;
    LastName(records);
    if i < |records| - 1 {
      FoldFinds(Front(records), i);
    }
  }

  /** The map comes back unchanged if and only if keys and values of all its records do. */
  lemma RebuiltUnchanged(kty: FieldType, vty: FieldType, records: seq<Record>, entries: map<Name, Record>)
    requires IsListing(records, entries) && AllFit(kty, vty, records)
    ensures Fold(SeenRecords(kty, vty, records)) == entries
            <==> forall i :: 0 <= i < |records| ==> FaithfulRecord(kty, vty, records[i])
  {
    hide Fold, NameOf, RecordFits, FaithfulRecord, SeenRecord, SortedByName;
    var seen := SeenRecords(kty, vty, records);
    if forall i :: 0 <= i < |records| ==> FaithfulRecord(kty, vty, records[i]) {
      forall i | 0 <= i < |records|
        ensures seen[i] == records[i]
      {
        SeenRecordUnchanged(kty, vty, records[i]);
      }
      assert seen == records;
    }
    if Fold(seen) == entries {
      forall i | 0 <= i < |records|
        ensures seen[i].key == records[i].key
      {
        KeyComesBack(kty, vty, records, i);
      }
      SameNamesSorted(records, seen);
      forall i | 0 <= i < |records|
        ensures FaithfulRecord(kty, vty, records[i])
      {
        FoldFinds(records, i);
        FoldFinds(seen, i);
        SeenRecordUnchanged(kty, vty, records[i]);
      }
    }
  }

  lemma KeyComesBack(kty: FieldType, vty: FieldType, records: seq<Record>, i: nat)
    requires SortedByName(records) && AllFit(kty, vty, records) && i < |records|
    requires Fold(SeenRecords(kty, vty, records)) == Fold(records)
    ensures SeenRecord(kty, vty, records[i]).key == records[i].key
  {
    hide Fold, NameOf, RecordFits, SeenRecord, SortedByName, FaithfulRecord;
    var seen := SeenRecords(kty, vty, records);
    FoldFinds(records, i);
    FoldKeyed(seen);
    var j :| 0 <= j < |seen| && NameOf(seen[j].key) == NameOf(records[i].key);
    SeenKeyFaithful(kty, vty, records[j], records[i]);
    SeenRecordUnchanged(kty, vty, records[i]);
  }

  lemma SameNamesSorted(a: seq<Record>, b: seq<Record>)
    requires SortedByName(a) && |a| == |b| && forall i :: 0 <= i < |a| ==> b[i].key == a[i].key
    ensures SortedByName(b)
  {
    hide NameOf, Before;
  }

  /** A map, its bytes, and a second map read from them. */
  method CopyThroughWire(m: JsMap, num: nat, kty: FieldType, vty: FieldType) returns (copy: JsMap, r: Result<()>)
    requires m.Valid() && 1 <= num < 0x2000_0000 && KeyType(kty) && Scalar(vty)
    requires forall name :: name in m.entries ==> RecordFits(kty, vty, m.entries[name])
    ensures r == Ok(()) && copy.Valid()
    ensures forall records :: IsListing(records, m.entries) ==> copy.entries == Fold(SeenRecords(kty, vty, records))
    ensures copy.entries == m.entries <==> forall name :: name in m.entries ==> FaithfulRecord(kty, vty, m.entries[name])
  {
    hide EncodeFields, EntryFields, MapLoop, RecordFits, NameOf, Fold, SortedByName, FaithfulRecord, SeenRecord;
    forall name | name in m.entries
      ensures RecordWritable(m.entries[name])
    {
      FitsWritable(kty, vty, m.entries[name]);
    }
    var writer := new Writer.BinaryWriter();
    m.SerializeBinary(num, writer);
    ghost var records := Listing(m.entries);
    assert writer.frames[0] == [] + EncodeFields(EntryFields(num, records)) == EncodeFields(EntryFields(num, records));
    var buffer := writer.GetResultBuffer();
    var backing := new RecordArray([]);
    copy := new JsMap(backing);
    EmptyFold();
    ListingFits(kty, vty, records, m.entries);
    MapRebuilt(num, kty, vty, records);
    RebuiltUnchanged(kty, vty, records, m.entries);
    AllRecords(kty, vty, records, m.entries);
    var reader := new Reader.BinaryReader(buffer[..]);
    r := ReadMapMessage(copy, reader, num, kty, vty);
    forall other | IsListing(other, m.entries)
      ensures other == records
    {
      ListingUnique(other, records);
    }
  }

  /** The records of a listing are the records of the map. */
  lemma AllRecords(kty: FieldType, vty: FieldType, records: seq<Record>, entries: map<Name, Record>)
    requires IsListing(records, entries)
    ensures (forall i :: 0 <= i < |records| ==> FaithfulRecord(kty, vty, records[i]))
            <==> forall name :: name in entries ==> FaithfulRecord(kty, vty, entries[name])
  {
    hide FaithfulRecord, NameOf, Fold, SortedByName;
    forall i | 0 <= i < |records|
      ensures NameOf(records[i].key) in entries && entries[NameOf(records[i].key)] == records[i]
    {
      FoldFinds(records, i);
    }
    FoldKeyed(records);
  }

  lemma EmptyFold()
    ensures Fold([]) == map[]
  {
  }

  lemma FitsWritable(kty: FieldType, vty: FieldType, record: Record)
    requires RecordFits(kty, vty, record)
    ensures RecordWritable(record)
  {
  }

  /** Every map whose records are filed under their names has a listing. */
  lemma Listing(entries: map<Name, Record>) returns (records: seq<Record>)
    requires Keyed(entries)
    ensures IsListing(records, entries)
  {
    hide NameOf, Before, Fold, SortedByName;
    var names := NamesOf(entries.Keys);
    SortedElements(names);
    SortedAscending(names);
    NamesListing(Sorted(names), entries);
    records := RecordsOf(Sorted(names), entries);
  }

  lemma {:induction false} NamesOf(all: set<Name>) returns (names: seq<Name>)
    ensures Distinct(names) && forall n :: n in names <==> n in all
    decreases |all|
  {
    if all == {} {
      names := [];
    } else {
      var n :| n in all;
      var rest := NamesOf(all - {n});
      names := rest + [n];
    }
  }

  /** What holds of every entry of a map holds of every record of its listing. */
  lemma ListingFits(kty: FieldType, vty: FieldType, records: seq<Record>, entries: map<Name, Record>)
    requires IsListing(records, entries) && forall name :: name in entries ==> RecordFits(kty, vty, entries[name])
    ensures AllFit(kty, vty, records)
    decreases |records|
  {
    hide RecordFits, NameOf, Before;
    if records != [] {
      LastName(records);
      var name := NameOf(Last(records).key);
      assert Fold(records)[name] == Last(records);
      assert forall n :: n in Fold(Front(records)) ==> n in entries && Fold(Front(records))[n] == entries[n];
      ListingFits(kty, vty, Front(records), Fold(Front(records)));
      assert records == Front(records) + [Last(records)];
    }
  }
}
