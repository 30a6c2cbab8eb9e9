/** What the two aggregators share: the operators of Aggregator.Op, the
    group keys (the group-by field's value, or None for the null key used
    without grouping) and the shape of the result that iterator() returns. */
module Aggregates {
  import opened Types
  import opened TupleDescs

  /** Aggregator.Op. */
  datatype Op = Min | Max | Sum | Avg | Count | SumCount | ScAvg

  /** Aggregator.NO_GROUPING. */
  const NO_GROUPING: int := -1

  type Key = Option<Field>

  function TypeOf(f: Field): FieldType
  {
    match f
    case IntField(_) => IntType
    case StringField(_) => StringType
  }

  /** iterator() casts each group key to the group-by type's field class;
      the cast fails on a key of the other class. */
  predicate Fits(gbType: FieldType, g: Key)
  {
    g.Some? && TypeOf(g.value) == gbType
  }

  /** The schema without grouping: one INT field "aggregateVal". */
  function AggregateDesc(): TupleDesc
  {
    TupleDesc([TDItem(IntType, Some("aggregateVal"))])
  }

  /** The schema with grouping: (groupVal, aggregateVal). */
  function GroupDesc(gbType: FieldType): TupleDesc
  {
    TupleDesc([TDItem(gbType, Some("groupVal")), TDItem(IntType, Some("aggregateVal"))])
  }

  /** The result tuple of group `g`, a fresh tuple without a record id. */
  function Row(g: Field, v: int32): Tuple
  {
    Tuple([g, IntField(v)], None)
  }

  ghost function Rows(s: seq<Tuple>): set<Tuple>
  {
    set i | 0 <= i < |s| :: s[i]
  }

  /** One row per group of `res`. */
  ghost function GroupRows(res: map<Key, int32>): set<Tuple>
  {
    set g | g in res && g.Some? :: Row(g.value, res[g])
  }

  /** Rows of distinct groups differ. */
  lemma RowInjective(g1: Field, v1: int32, g2: Field, v2: int32)
    requires Row(g1, v1) == Row(g2, v2)
    ensures g1 == g2 && v1 == v2
  {
    assert Row(g1, v1).fields[0] == g1 && Row(g2, v2).fields[0] == g2;
    assert Row(g1, v1).fields[1] == IntField(v1);
  }

  lemma GroupRowsAdd(m: map<Key, int32>, g: Key, v: int32)
    requires g !in m && g.Some?
    ensures GroupRows(m[g := v]) == GroupRows(m) + {Row(g.value, v)}
  {
  }

  lemma RowsAppend(s: seq<Tuple>, t: Tuple)
    ensures Rows(s + [t]) == Rows(s) + {t}
  {
    var a, b := Rows(s + [t]), Rows(s) + {t};
    forall x | x in a ensures x in b {
      var i :| 0 <= i < |s| + 1 && (s + [t])[i] == x;
      if i < |s| {
        assert s[i] == x;
      }
    }
    forall x | x in b ensures x in a {
      if x == t {
        assert (s + [t])[|s|] == t;
      } else {
        var i :| 0 <= i < |s| && s[i] == x;
        assert (s + [t])[i] == x;
      }
    }
  }

  /** A count kept as a Java int: incrementing the stored count is the
      wrapped value of the exact count plus one. */
  lemma CountStep(n: nat)
    ensures Wrap32(n + 1) == Wrap32(Wrap32(n) as int + 1)
  {
    Wrap32Add(n, 1);
  }

  /** iterator(): the schema and the tuples of the result. Without grouping
      it is the single value of the null key, and a NullPointerException
      when nothing was merged (unboxing the missing value). With grouping
      it is one (groupVal, aggregateVal) row per group, in the map's
      unspecified key order; a key of the wrong class is a
      ClassCastException. */
  method Results(gbfield: int, gbType: FieldType, res: map<Key, int32>) returns (r: Result<(TupleDesc, seq<Tuple>)>)
    requires gbfield != NO_GROUPING ==> None !in res
    ensures gbfield == NO_GROUPING ==>
      && (r.Ok? <==> None in res)
      && (r.Ok? ==> r.value == (AggregateDesc(), [Tuple([IntField(res[None])], None)]))
      && (r.Err? ==> r.error == NullPointer)
    ensures gbfield != NO_GROUPING ==>
      && (r.Ok? <==> forall g :: g in res ==> Fits(gbType, g))
      && (r.Err? ==> r.error == ClassCast)
      && (r.Ok? ==> r.value.0 == GroupDesc(gbType) && |r.value.1| == |res| && Rows(r.value.1) == GroupRows(res))
  {
    if gbfield == NO_GROUPING {
      if None !in res {
        return Err(NullPointer);
      }
      return Ok((AggregateDesc(), [Tuple([IntField(res[None])], None)]));
    }
    var keys := res.Keys;
    var tuples: seq<Tuple> := [];
    while keys != {}
      invariant keys <= res.Keys
      invariant |tuples| + |keys| == |res|
      invariant forall g :: g in res && g !in keys ==> Fits(gbType, g)
      invariant Rows(tuples) == GroupRows(res - keys)
      decreases keys
    {
      var g :| g in keys;
      if !Fits(gbType, g) {
        return Err(ClassCast);
      }
      ghost var done, prev := res - keys, tuples;
      tuples := tuples + [Row(g.value, res[g])];
      keys := keys - {g};
      assert res - keys == done[g := res[g]];
      GroupRowsAdd(done, g, res[g]);
      RowsAppend(prev, Row(g.value, res[g]));
    }
    assert res - keys == res;
    return Ok((GroupDesc(gbType), tuples));
  }
}
