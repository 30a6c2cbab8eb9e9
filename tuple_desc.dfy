/** The schema of a tuple (simpledb.storage.TupleDesc): an ordered list of
    (field type, field name) items. Names may be null, modelled as None. */
module TupleDescs {
  import opened Types

  datatype TDItem = TDItem(fieldType: FieldType, fieldName: Option<string>)

  datatype TupleDesc = TupleDesc(items: seq<TDItem>)

  /** Width in bytes of a stored field: an int is 4 bytes, a string a 4-byte
      length followed by STRING_LEN bytes. */
  const STRING_LEN: nat := 128

  function TypeLen(t: FieldType): nat
  {
    match t
    case IntType => 4
    case StringType => STRING_LEN + 4
  }

  /** Sum of the field widths of `items`. */
  function SumLen(items: seq<TDItem>): nat
  {
    if items == [] then 0
    else SumLen(items[..|items| - 1]) + TypeLen(items[|items| - 1].fieldType)
  }

  /** The byte size of a tuple of this schema. */
  function Size(td: TupleDesc): nat
  {
    SumLen(td.items)
  }

  /** The widths of a concatenation add up. */
  lemma {:induction false} SumLenAppend(a: seq<TDItem>, b: seq<TDItem>)
    ensures SumLen(a + b) == SumLen(a) + SumLen(b)
  {
    if b == [] {
      assert a + b == a;
    } else {
      var b' := b[..|b| - 1];
      assert (a + b)[..|a + b| - 1] == a + b';
      assert (a + b)[|a + b| - 1] == b[|b| - 1];
      SumLenAppend(a, b');
    }
  }

  /** new TupleDesc(typeAr): one item per type, each named "". */
  method FromTypes(typeAr: seq<FieldType>) returns (td: TupleDesc)
    ensures |td.items| == |typeAr|
    ensures forall i :: 0 <= i < |typeAr| ==> td.items[i] == TDItem(typeAr[i], Some(""))
  {
    var items: seq<TDItem> := [];
    var i := 0;
    while i < |typeAr|
      invariant 0 <= i <= |typeAr|
      invariant |items| == i
      invariant forall k :: 0 <= k < i ==> items[k] == TDItem(typeAr[k], Some(""))
    {
      items := items + [TDItem(typeAr[i], Some(""))];
      i := i + 1;
    }
    td := TupleDesc(items);
  }

  /** new TupleDesc(typeAr, fieldAr): item i pairs typeAr[i] with fieldAr[i]. */
  method FromTypesAndNames(typeAr: seq<FieldType>, fieldAr: seq<Option<string>>) returns (td: TupleDesc)
    requires |typeAr| == |fieldAr|
    ensures |td.items| == |typeAr|
    ensures forall i :: 0 <= i < |typeAr| ==> td.items[i] == TDItem(typeAr[i], fieldAr[i])
  {
    var items: seq<TDItem> := [];
    var i := 0;
    while i < |typeAr|
      invariant 0 <= i <= |typeAr|
      invariant |items| == i
      invariant forall k :: 0 <= k < i ==> items[k] == TDItem(typeAr[k], fieldAr[k])
    {
      items := items + [TDItem(typeAr[i], fieldAr[i])];
      i := i + 1;
    }
    td := TupleDesc(items);
  }

  function NumFields(td: TupleDesc): nat
  {
    |td.items|
  }

  /** getFieldName(i): the name of item i, NoSuchElementException outside
      [0, numFields). */
  function GetFieldName(td: TupleDesc, i: int): (r: Result<Option<string>>)
    ensures r.Ok? <==> 0 <= i < NumFields(td)
    ensures r.Ok? ==> r.value == td.items[i].fieldName
    ensures r.Err? ==> r.error == NoSuchElement
  {
    if i < 0 || i >= |td.items| then Err(NoSuchElement) else Ok(td.items[i].fieldName)
  }

  /** getFieldType(i): the type of item i, NoSuchElementException outside
      [0, numFields). */
  function GetFieldType(td: TupleDesc, i: int): (r: Result<FieldType>)
    ensures r.Ok? <==> 0 <= i < NumFields(td)
    ensures r.Ok? ==> r.value == td.items[i].fieldType
    ensures r.Err? ==> r.error == NoSuchElement
  {
    if i < 0 || i >= |td.items| then Err(NoSuchElement) else Ok(td.items[i].fieldType)
  }

  /** What the two constructors build is read back by the lookups. */
  lemma ConstructedLookups(typeAr: seq<FieldType>, fieldAr: seq<Option<string>>, td: TupleDesc, i: int)
    requires |typeAr| == |fieldAr| == |td.items|
    requires forall k :: 0 <= k < |typeAr| ==> td.items[k] == TDItem(typeAr[k], fieldAr[k])
    ensures NumFields(td) == |typeAr|
    ensures 0 <= i < |typeAr| ==> GetFieldType(td, i) == Ok(typeAr[i]) && GetFieldName(td, i) == Ok(fieldAr[i])
    ensures !(0 <= i < |typeAr|) ==> GetFieldType(td, i) == Err(NoSuchElement) && GetFieldName(td, i) == Err(NoSuchElement)
  {
  }

  /** indexForFieldName(name): the first index whose name equals `name`
      (Objects.equals, so null matches null); NoSuchElementException if none. */
  method IndexForFieldName(td: TupleDesc, name: Option<string>) returns (r: Result<nat>)
    ensures r.Ok? ==> r.value < NumFields(td) && td.items[r.value].fieldName == name
    ensures r.Ok? ==> forall j :: 0 <= j < r.value ==> td.items[j].fieldName != name
    ensures r.Err? <==> forall j :: 0 <= j < NumFields(td) ==> td.items[j].fieldName != name
    ensures r.Err? ==> r.error == NoSuchElement
  {
    var idx := -1;
    var i := 0;
    while i < |td.items|
      invariant 0 <= i <= |td.items|
      invariant forall j :: 0 <= j < i ==> td.items[j].fieldName != name
    {
      if td.items[i].fieldName == name {
        idx := i;
        break;
      }
      i := i + 1;
    }
    if idx == -1 {
      r := Err(NoSuchElement);
    } else {
      r := Ok(idx);
    }
  }

  /** getSize(): the sum of the item widths. */
  method GetSize(td: TupleDesc) returns (size: nat)
    ensures size == Size(td)
  {
    size := 0;
    var i := 0;
    while i < |td.items|
      invariant 0 <= i <= |td.items|
      invariant size == SumLen(td.items[..i])
    {
      assert td.items[..i + 1][..i] == td.items[..i];
      size := size + TypeLen(td.items[i].fieldType);
      i := i + 1;
    }
    assert td.items[..i] == td.items;
  }

  /** merge(td1, td2): td1's items in order, then td2's. */
  method Merge(td1: TupleDesc, td2: TupleDesc) returns (td: TupleDesc)
    ensures td.items == td1.items + td2.items
    ensures NumFields(td) == NumFields(td1) + NumFields(td2)
    ensures Size(td) == Size(td1) + Size(td2)
  {
    var n1 := NumFields(td1);
    var n2 := NumFields(td2);
    var typeAr: seq<FieldType> := [];
    var fieldAr: seq<Option<string>> := [];
    var i := 0;
    while i < n1
      invariant 0 <= i <= n1
      invariant |typeAr| == |fieldAr| == i
      invariant forall k :: 0 <= k < i ==> TDItem(typeAr[k], fieldAr[k]) == td1.items[k]
    {
      typeAr := typeAr + [td1.items[i].fieldType];
      fieldAr := fieldAr + [td1.items[i].fieldName];
      i := i + 1;
    }
    i := 0;
    while i < n2
      invariant 0 <= i <= n2
      invariant |typeAr| == |fieldAr| == n1 + i
      invariant forall k :: 0 <= k < n1 ==> TDItem(typeAr[k], fieldAr[k]) == td1.items[k]
      invariant forall k :: 0 <= k < i ==> TDItem(typeAr[n1 + k], fieldAr[n1 + k]) == td2.items[k]
    {
      typeAr := typeAr + [td2.items[i].fieldType];
      fieldAr := fieldAr + [td2.items[i].fieldName];
      i := i + 1;
    }
    td := FromTypesAndNames(typeAr, fieldAr);
    assert td.items == td1.items + td2.items;
    SumLenAppend(td1.items, td2.items);
  }

  /** TupleDesc equality as the source defines it: same field count and the
      same type at every index; names are ignored. */
  predicate SameTypes(a: TupleDesc, b: TupleDesc)
  {
    |a.items| == |b.items| &&
    forall i :: 0 <= i < |a.items| ==> a.items[i].fieldType == b.items[i].fieldType
  }

  /** equals(o): `o` is None for null or an object of another class. */
  method Equals(td: TupleDesc, o: Option<TupleDesc>) returns (eq: bool)
    ensures eq <==> o.Some? && SameTypes(td, o.value)
  {
    if o.Some? {
      var other := o.value;
      if NumFields(td) == NumFields(other) {
        var i := 0;
        while i < NumFields(td)
          invariant 0 <= i <= NumFields(td)
          invariant forall k :: 0 <= k < i ==> td.items[k].fieldType == other.items[k].fieldType
        {
          if td.items[i].fieldType != other.items[i].fieldType {
            return false;
          }
          i := i + 1;
        }
        return true;
      }
    }
    return false;
  }

  /** The equality is an equivalence relation, and renaming fields keeps it. */
  lemma SameTypesIsEquivalence(a: TupleDesc, b: TupleDesc, c: TupleDesc)
    ensures SameTypes(a, a)
    ensures SameTypes(a, b) ==> SameTypes(b, a)
    ensures SameTypes(a, b) && SameTypes(b, c) ==> SameTypes(a, c)
  {
  }
}
