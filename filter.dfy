/** simpledb.execution.Filter: a relational select. open() reads the child
    once and buffers the tuples the predicate accepts; fetchNext() then
    walks the buffer. The child is modelled by the tuples one pass over it
    yields, the predicate by a function. */
module Filters {
  import opened Types
  import opened TupleDescs
  import opened Operators

  /** The accepted tuples, in child order. */
  function FilterSpec(p: Tuple -> bool, rows: seq<Tuple>): seq<Tuple>
  {
    if rows == [] then []
    else
      var t := rows[|rows| - 1];
      FilterSpec(p, rows[..|rows| - 1]) + (if p(t) then [t] else [])
  }

  lemma FilterStep(p: Tuple -> bool, rows: seq<Tuple>, i: nat)
    requires i < |rows|
    ensures FilterSpec(p, rows[..i + 1]) == FilterSpec(p, rows[..i]) + (if p(rows[i]) then [rows[i]] else [])
  {
    assert rows[..i + 1][..i] == rows[..i];
  }

  /** Each tuple is output as often as the child yields it when the
      predicate accepts it, and never otherwise. */
  lemma {:induction false} FilterCounts(p: Tuple -> bool, rows: seq<Tuple>, t: Tuple)
    ensures multiset(FilterSpec(p, rows))[t] == if p(t) then multiset(rows)[t] else 0
  {
    if rows != [] {
      var init := rows[..|rows| - 1];
      FilterCounts(p, init, t);
      assert rows == init + [rows[|rows| - 1]];
    }
  }

  /** Child order is kept: filtering a split child is filtering each part. */
  lemma {:induction false} FilterAppend(p: Tuple -> bool, a: seq<Tuple>, b: seq<Tuple>)
    ensures FilterSpec(p, a + b) == FilterSpec(p, a) + FilterSpec(p, b)
  {
    if b == [] {
      assert a + b == a;
    } else {
      var init := b[..|b| - 1];
      FilterAppend(p, a, init);
      assert (a + b)[..|a + b| - 1] == a + init;
      assert (a + b)[|a + b| - 1] == b[|b| - 1];
    }
  }

  /** Filtering twice is filtering once. */
  lemma {:induction false} FilterIdempotent(p: Tuple -> bool, rows: seq<Tuple>)
    ensures FilterSpec(p, FilterSpec(p, rows)) == FilterSpec(p, rows)
  {
    if rows != [] {
      var init, t := rows[..|rows| - 1], rows[|rows| - 1];
      FilterIdempotent(p, init);
      FilterAppend(p, FilterSpec(p, init), if p(t) then [t] else []);
      if p(t) {
        assert [t][..0] == [];
      }
    }
  }

  /** The output fits the child's schema, which Filter reports as its own. */
  lemma FilterConforms(p: Tuple -> bool, rows: seq<Tuple>, td: TupleDesc)
    requires Conforms(rows, td)
    ensures Conforms(FilterSpec(p, rows), td)
  {
    forall i | 0 <= i < |FilterSpec(p, rows)|
      ensures |FilterSpec(p, rows)[i].fields| == NumFields(td)
    {
      var t := FilterSpec(p, rows)[i];
      FilterCounts(p, rows, t);
      assert t in multiset(FilterSpec(p, rows));
    }
  }

  class Filter {
    const p: Tuple -> bool
    const td: TupleDesc
    const rows: seq<Tuple>
    var tuples: seq<Tuple>
    var it: Option<nat>
    ghost var opens: nat

    /** The buffer is never cleared: it holds the selection once per open(). */
    ghost predicate Valid()
      reads this
    {
      Conforms(rows, td) &&
      tuples == Repeat(FilterSpec(p, rows), opens) &&
      (it.Some? ==> it.value <= |tuples|)
    }

    /** What fetchNext() still yields. */
    ghost function Rest(): seq<Tuple>
      reads this
    {
      if it.Some? && it.value <= |tuples| then tuples[it.value..] else []
    }

    /** new Filter(p, child): the schema is the child's. */
    constructor (p: Tuple -> bool, td: TupleDesc, rows: seq<Tuple>)
      requires Conforms(rows, td)
      ensures Valid() && tuples == [] && it == None && opens == 0
      ensures this.p == p && this.td == td && this.rows == rows
    {
      this.p := p;
      this.td := td;
      this.rows := rows;
      tuples := [];
      it := None;
      opens := 0;
    }

    /** open(): appends the selection to the buffer and starts over it. */
    method Open()
      requires Valid()
      modifies this
      ensures Valid() && opens == old(opens) + 1
      ensures tuples == old(tuples) + FilterSpec(p, rows)
      ensures it == Some(0) && Rest() == tuples
    {
      ghost var prev, n := tuples, opens;
      var i := 0;
      while i < |rows|
        invariant 0 <= i <= |rows| && opens == n
        invariant tuples == prev + FilterSpec(p, rows[..i])
      {
        var t := rows[i];
        FilterStep(p, rows, i);
        if p(t) {
          tuples := tuples + [t];
        }
        i := i + 1;
      }
      assert rows[..i] == rows;
      assert tuples == Repeat(FilterSpec(p, rows), n + 1);
      opens := n + 1;
      it := Some(0);
    }

    /** fetchNext(): the next buffered tuple, or null at the end and after
        close(). */
    method FetchNext() returns (r: Option<Tuple>)
      requires Valid()
      modifies this
      ensures Valid() && tuples == old(tuples) && opens == old(opens)
      ensures old(Rest()) == [] ==> r == None && it == old(it)
      ensures old(Rest()) != [] ==> r == Some(old(Rest())[0]) && Rest() == old(Rest())[1..]
    {
      if it.Some? && it.value < |tuples| {
        r := Some(tuples[it.value]);
        it := Some(it.value + 1);
      } else {
        r := None;
      }
    }

    /** rewind(): starts over the same buffer without reading the child. */
    method Rewind()
      requires Valid()
      modifies this
      ensures Valid() && tuples == old(tuples) && opens == old(opens)
      ensures it == Some(0) && Rest() == tuples
    {
      it := Some(0);
    }

    /** close(): drops the iterator. */
    method Close()
      requires Valid()
      modifies this
      ensures Valid() && tuples == old(tuples) && opens == old(opens)
      ensures it == None && Rest() == []
    {
      it := None;
    }
  }

  /** Filter's result list is never cleared: a second open() appends every
      accepted tuple again. */
  method OpenTwice(p: Tuple -> bool, td: TupleDesc, rows: seq<Tuple>) returns (listed: seq<Tuple>)
    requires Conforms(rows, td)
    ensures listed == FilterSpec(p, rows) + FilterSpec(p, rows)
  {
    var f := new Filter(p, td, rows);
    f.Open();
    f.Open();
    listed := f.tuples;
  }
}
