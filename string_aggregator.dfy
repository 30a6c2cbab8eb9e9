/** simpledb.execution.StringAggregator: COUNT over a STRING field, per
    group. Its one handler counts the tuples merged into each group; the
    merge history (a ghost record of the group key of every merged tuple)
    says what each count means. */
module StringAggregators {
  import opened Types
  import opened TupleDescs
  import opened Aggregates

  /** The group key a merge of `tup` reads: tup.getField(afield) cast to
      StringField, then the group-by field (None without grouping). */
  function MergeKey(tup: Tuple, afield: int, gbfield: int): (r: Result<Key>)
    ensures r.Ok? <==>
      0 <= afield < |tup.fields| && tup.fields[afield].StringField? &&
      (gbfield == NO_GROUPING || 0 <= gbfield < |tup.fields|)
    ensures r.Ok? ==> r.value == (if gbfield == NO_GROUPING then None else Some(tup.fields[gbfield]))
    ensures r.Err? ==> r.error == (if 0 <= afield < |tup.fields| && !tup.fields[afield].StringField? then ClassCast else IndexOutOfBounds)
  {
    if !(0 <= afield < |tup.fields|) then Err(IndexOutOfBounds)
    else if !tup.fields[afield].StringField? then Err(ClassCast)
    else if gbfield == NO_GROUPING then Ok(None)
    else if !(0 <= gbfield < |tup.fields|) then Err(IndexOutOfBounds)
    else Ok(Some(tup.fields[gbfield]))
  }

  /** Every group merged into has an entry, and the entry is the number of
      merges into it, as a Java int; the null key is used exactly when
      there is no grouping. */
  ghost predicate Counted(gbfield: int, history: seq<Key>, res: map<Key, int32>)
  {
    (gbfield == NO_GROUPING ==> forall g :: g in res ==> g == None) &&
    (gbfield != NO_GROUPING ==> None !in res) &&
    forall g :: (g in res <==> g in multiset(history)) &&
      (g in res ==> res[g] == Wrap32(multiset(history)[g]))
  }

  /** CountHandler.handler(field, stringField). */
  function Counting(g: Key, res: map<Key, int32>): map<Key, int32>
  {
    res[g := if g in res then Wrap32(res[g] as int + 1) else 1]
  }

  /** One more merge into `g` keeps the counts right. */
  lemma CountingStep(gbfield: int, history: seq<Key>, g: Key, res: map<Key, int32>)
    requires Counted(gbfield, history, res) && (g == None <==> gbfield == NO_GROUPING)
    ensures Counted(gbfield, history + [g], Counting(g, res))
  {
    var res' := Counting(g, res);
    assert multiset(history + [g]) == multiset(history) + multiset{g};
    forall k ensures (k in res' <==> k in multiset(history + [g])) &&
      (k in res' ==> res'[k] == Wrap32(multiset(history + [g])[k]))
    {
      if k == g {
        CountStep(multiset(history)[g]);
      }
    }
  }

  /** The multiplicities in a history of the keys it draws from add up to
      its length: each merge is counted once, in one group. */
  lemma {:induction false} CountsAddUp(history: seq<Key>, keys: set<Key>)
    requires forall i :: 0 <= i < |history| ==> history[i] in keys
    ensures SumCounts(multiset(history), keys) == |history|
  {
    if history != [] {
      var last := history[|history| - 1];
      var init := history[..|history| - 1];
      assert history == init + [last];
      assert multiset(history) == multiset(init) + multiset{last};
      CountsAddUp(init, keys);
      SumCountsAdd(multiset(init), last, keys);
    } else {
      SumCountsEmpty(keys);
    }
  }

  /** The total of the multiplicities of `keys` in `m`. */
  ghost function SumCounts(m: multiset<Key>, keys: set<Key>): nat
    decreases keys
  {
    if keys == {} then 0
    else
      var k :| k in keys;
      m[k] + SumCounts(m, keys - {k})
  }

  lemma {:induction false} SumCountsEmpty(keys: set<Key>)
    ensures SumCounts(multiset{}, keys) == 0
    decreases keys
  {
    if keys != {} {
      var k :| k in keys && SumCounts(multiset{}, keys) == multiset{}[k] + SumCounts(multiset{}, keys - {k});
      SumCountsEmpty(keys - {k});
    }
  }

  lemma {:induction false} SumCountsAdd(m: multiset<Key>, x: Key, keys: set<Key>)
    requires x in keys
    ensures SumCounts(m + multiset{x}, keys) == SumCounts(m, keys) + 1
    decreases keys
  {
    var m' := m + multiset{x};
    var k :| k in keys && SumCounts(m', keys) == m'[k] + SumCounts(m', keys - {k});
    SumCountsPick(m, keys, k);
    if k == x {
      SumCountsOutside(m, x, keys - {k});
    } else {
      SumCountsAdd(m, x, keys - {k});
    }
  }

  /** SumCounts does not depend on which key the definition picks first. */
  lemma {:induction false} SumCountsPick(m: multiset<Key>, keys: set<Key>, k: Key)
    requires k in keys
    ensures SumCounts(m, keys) == m[k] + SumCounts(m, keys - {k})
    decreases keys
  {
    var j :| j in keys && SumCounts(m, keys) == m[j] + SumCounts(m, keys - {j});
    if j != k {
      SumCountsPick(m, keys - {j}, k);
      SumCountsPick(m, keys - {k}, j);
      assert keys - {j} - {k} == keys - {k} - {j};
    }
  }

  /** Adding a key outside `keys` changes none of their counts. */
  lemma {:induction false} SumCountsOutside(m: multiset<Key>, x: Key, keys: set<Key>)
    requires x !in keys
    ensures SumCounts(m + multiset{x}, keys) == SumCounts(m, keys)
    decreases keys
  {
    if keys != {} {
      var m' := m + multiset{x};
      var k :| k in keys && SumCounts(m', keys) == m'[k] + SumCounts(m', keys - {k});
      SumCountsPick(m, keys, k);
      SumCountsOutside(m, x, keys - {k});
    }
  }

  /** The total of the stored counts of `keys`. */
  ghost function SumRes(res: map<Key, int32>, keys: set<Key>): int
    requires keys <= res.Keys
    decreases keys
  {
    if keys == {} then 0
    else
      var k :| k in keys;
      res[k] as int + SumRes(res, keys - {k})
  }

  lemma {:induction false} SumResMatches(res: map<Key, int32>, m: multiset<Key>, keys: set<Key>)
    requires keys <= res.Keys
    requires forall k :: k in keys ==> res[k] as int == m[k]
    ensures SumRes(res, keys) == SumCounts(m, keys)
    decreases keys
  {
    if keys != {} {
      var k :| k in keys && SumRes(res, keys) == res[k] as int + SumRes(res, keys - {k});
      SumCountsPick(m, keys, k);
      SumResMatches(res, m, keys - {k});
    }
  }

  /** No key occurs in a history more often than the history is long. */
  lemma {:induction false} MultiplicityBound(s: seq<Key>, g: Key)
    ensures multiset(s)[g] <= |s|
  {
    if s != [] {
      var init := s[..|s| - 1];
      assert s == init + [s[|s| - 1]];
      assert multiset(s) == multiset(init) + multiset{s[|s| - 1]};
      MultiplicityBound(init, g);
    }
  }

  /** With at most MAX_INT merges no count wraps, and the stored counts of
      all groups add up to the number of merges. */
  lemma CountsTotal(gbfield: int, history: seq<Key>, res: map<Key, int32>)
    requires Counted(gbfield, history, res) && |history| <= MAX_INT
    ensures SumRes(res, res.Keys) == |history|
  {
    forall k | k in res.Keys ensures res[k] as int == multiset(history)[k] {
      MultiplicityBound(history, k);
    }
    forall i | 0 <= i < |history| ensures history[i] in res.Keys {
      assert history[i] in multiset(history);
    }
    CountsAddUp(history, res.Keys);
    SumResMatches(res, multiset(history), res.Keys);
  }

  class StringAggregator {
    const gbfield: int
    const gbType: FieldType
    const afield: int
    var res: map<Key, int32>
    ghost var history: seq<Key>

    ghost predicate Valid()
      reads this
    {
      Counted(gbfield, history, res)
    }

    constructor (gbfield: int, gbType: FieldType, afield: int)
      ensures Valid() && history == [] && res == map[]
      ensures this.gbfield == gbfield && this.gbType == gbType && this.afield == afield
    {
      this.gbfield := gbfield;
      this.gbType := gbType;
      this.afield := afield;
      res := map[];
      history := [];
    }

    /** mergeTupleIntoGroup(tup): one more tuple in the group of field
        `gbfield` (the null key without grouping). A missing field is an
        ArrayIndexOutOfBoundsException, a non-STRING aggregate field a
        ClassCastException; the counts are then unchanged. */
    method MergeTupleIntoGroup(tup: Tuple) returns (r: Outcome)
      requires Valid()
      modifies this
      ensures Valid()
      ensures var k := MergeKey(tup, afield, gbfield);
        && (r.Done? <==> k.Ok?)
        && (k.Ok? ==> history == old(history) + [k.value] && res == Counting(k.value, old(res)))
        && (k.Err? ==> r.error == k.error && history == old(history) && res == old(res))
    {
      var k := MergeKey(tup, afield, gbfield);
      if k.Err? {
        return Fail(k.error);
      }
      var g := k.value;
      CountingStep(gbfield, history, g, res);
      Count(g);
      history := history + [g];
      return Done;
    }

    /** CountHandler.handler(field, stringField). */
    method Count(g: Key)
      modifies this
      ensures res == Counting(g, old(res)) && history == old(history)
    {
      if g in res {
        res := res[g := Wrap32(res[g] as int + 1)];
      } else {
        res := res[g := 1];
      }
    }

    /** iterator(): the result rows of the groups (Aggregates.Results). */
    method Iterator() returns (r: Result<(TupleDesc, seq<Tuple>)>)
      requires Valid()
      ensures gbfield == NO_GROUPING ==>
        && (r.Ok? <==> None in multiset(history))
        && (r.Ok? ==> r.value == (AggregateDesc(), [Tuple([IntField(Wrap32(multiset(history)[None]))], None)]))
        && (r.Err? ==> r.error == NullPointer)
      ensures gbfield != NO_GROUPING ==>
        && (r.Ok? <==> forall g :: g in res ==> Fits(gbType, g))
        && (r.Err? ==> r.error == ClassCast)
        && (r.Ok? ==> r.value.0 == GroupDesc(gbType) && |r.value.1| == |res| && Rows(r.value.1) == GroupRows(res))
    {
      r := Results(gbfield, gbType, res);
    }
  }

  /** new StringAggregator(gbfield, gbfieldtype, afield, what): only COUNT
      is supported, anything else is a NoSuchElementException. */
  method NewStringAggregator(gbfield: int, gbType: FieldType, afield: int, what: Op) returns (r: Result<StringAggregator>)
    ensures r.Err? <==> what != Count
    ensures r.Err? ==> r.error == NoSuchElement
    ensures r.Ok? ==> fresh(r.value) && r.value.Valid() && r.value.history == [] && r.value.res == map[]
    ensures r.Ok? ==> r.value.gbfield == gbfield && r.value.afield == afield && r.value.gbType == gbType
  {
    if what != Count {
      return Err(NoSuchElement);
    }
    var a := new StringAggregator(gbfield, gbType, afield);
    return Ok(a);
  }
}
