/** simpledb.execution.Join: a nested-loop join. open() reads the outer
    child once and the inner child once per outer tuple, and buffers the
    joined pairs that satisfy the predicate; fetchNext() then walks the
    buffer. A child is modelled by the tuples one pass over it yields, the
    join predicate by a function. */
module Joins {
  import opened Types
  import opened TupleDescs
  import opened Operators

  /** The output for a matching pair: t1's fields, then t2's, with t1's
      record id. */
  function Joined(t1: Tuple, t2: Tuple): Tuple
  {
    Tuple(t1.fields + t2.fields, t1.rid)
  }

  /** The output of outer tuple `t1` against the inner tuples, in inner order. */
  function Matches(p: (Tuple, Tuple) -> bool, t1: Tuple, inner: seq<Tuple>): seq<Tuple>
  {
    if inner == [] then []
    else
      var t2 := inner[|inner| - 1];
      Matches(p, t1, inner[..|inner| - 1]) + (if p(t1, t2) then [Joined(t1, t2)] else [])
  }

  /** The whole join, outer-major: each outer tuple's matches in turn. */
  function JoinSpec(p: (Tuple, Tuple) -> bool, outer: seq<Tuple>, inner: seq<Tuple>): seq<Tuple>
  {
    if outer == [] then []
    else JoinSpec(p, outer[..|outer| - 1], inner) + Matches(p, outer[|outer| - 1], inner)
  }

  lemma MatchesStep(p: (Tuple, Tuple) -> bool, t1: Tuple, inner: seq<Tuple>, j: nat)
    requires j < |inner|
    ensures Matches(p, t1, inner[..j + 1]) ==
      Matches(p, t1, inner[..j]) + (if p(t1, inner[j]) then [Joined(t1, inner[j])] else [])
  {
    assert inner[..j + 1][..j] == inner[..j];
  }

  lemma JoinStep(p: (Tuple, Tuple) -> bool, outer: seq<Tuple>, inner: seq<Tuple>, i: nat)
    requires i < |outer|
    ensures JoinSpec(p, outer[..i + 1], inner) == JoinSpec(p, outer[..i], inner) + Matches(p, outer[i], inner)
  {
    assert outer[..i + 1][..i] == outer[..i];
  }

  /** Every output tuple for `t1` joins it with an accepted inner tuple. */
  lemma {:induction false} MatchesSound(p: (Tuple, Tuple) -> bool, t1: Tuple, inner: seq<Tuple>, t: Tuple)
    requires t in Matches(p, t1, inner)
    ensures exists j :: 0 <= j < |inner| && p(t1, inner[j]) && t == Joined(t1, inner[j])
  {
    if inner != [] {
      var init := inner[..|inner| - 1];
      if t in Matches(p, t1, init) {
        MatchesSound(p, t1, init, t);
        var j :| 0 <= j < |init| && p(t1, init[j]) && t == Joined(t1, init[j]);
        assert inner[j] == init[j];
      }
    }
  }

  /** Every accepted inner tuple gives an output tuple for `t1`. */
  lemma {:induction false} MatchesComplete(p: (Tuple, Tuple) -> bool, t1: Tuple, inner: seq<Tuple>, j: nat)
    requires j < |inner| && p(t1, inner[j])
    ensures Joined(t1, inner[j]) in Matches(p, t1, inner)
  {
    var init := inner[..|inner| - 1];
    if j < |init| {
      MatchesComplete(p, t1, init, j);
      assert init[j] == inner[j];
    }
  }

  /** Every output tuple joins an outer and an inner tuple the predicate
      accepts. */
  lemma {:induction false} JoinSound(p: (Tuple, Tuple) -> bool, outer: seq<Tuple>, inner: seq<Tuple>, t: Tuple)
    requires t in JoinSpec(p, outer, inner)
    ensures exists i, j :: 0 <= i < |outer| && 0 <= j < |inner| && p(outer[i], inner[j]) && t == Joined(outer[i], inner[j])
  {
    if outer != [] {
      var init, last := outer[..|outer| - 1], outer[|outer| - 1];
      if t in JoinSpec(p, init, inner) {
        JoinSound(p, init, inner, t);
        var i, j :| 0 <= i < |init| && 0 <= j < |inner| && p(init[i], inner[j]) && t == Joined(init[i], inner[j]);
        assert outer[i] == init[i];
      } else {
        MatchesSound(p, last, inner, t);
      }
    }
  }

  /** Every accepted pair is output. */
  lemma {:induction false} JoinComplete(p: (Tuple, Tuple) -> bool, outer: seq<Tuple>, inner: seq<Tuple>, i: nat, j: nat)
    requires i < |outer| && j < |inner| && p(outer[i], inner[j])
    ensures Joined(outer[i], inner[j]) in JoinSpec(p, outer, inner)
  {
    var init := outer[..|outer| - 1];
    if i < |init| {
      JoinComplete(p, init, inner, i, j);
      assert init[i] == outer[i];
    } else {
      MatchesComplete(p, outer[i], inner, j);
    }
  }

  /** The join holds exactly the joined pairs the predicate accepts. */
  lemma JoinMembership(p: (Tuple, Tuple) -> bool, outer: seq<Tuple>, inner: seq<Tuple>, t: Tuple)
    ensures t in JoinSpec(p, outer, inner) <==>
      exists i, j :: 0 <= i < |outer| && 0 <= j < |inner| && p(outer[i], inner[j]) && t == Joined(outer[i], inner[j])
  {
    if t in JoinSpec(p, outer, inner) {
      JoinSound(p, outer, inner, t);
    }
    if exists i, j :: 0 <= i < |outer| && 0 <= j < |inner| && p(outer[i], inner[j]) && t == Joined(outer[i], inner[j]) {
      var i, j :| 0 <= i < |outer| && 0 <= j < |inner| && p(outer[i], inner[j]) && t == Joined(outer[i], inner[j]);
      JoinComplete(p, outer, inner, i, j);
    }
  }

  /** Outer-major order: joining a split outer relation is joining each
      part, the first part's output first. */
  lemma {:induction false} JoinAppend(p: (Tuple, Tuple) -> bool, a: seq<Tuple>, b: seq<Tuple>, inner: seq<Tuple>)
    ensures JoinSpec(p, a + b, inner) == JoinSpec(p, a, inner) + JoinSpec(p, b, inner)
  {
    if b == [] {
      assert a + b == a;
    } else {
      var init := b[..|b| - 1];
      JoinAppend(p, a, init, inner);
      assert (a + b)[..|a + b| - 1] == a + init;
      assert (a + b)[|a + b| - 1] == b[|b| - 1];
    }
  }

  /** Every output tuple has the fields of both schemas. */
  lemma {:induction false} JoinConforms(p: (Tuple, Tuple) -> bool, outer: seq<Tuple>, inner: seq<Tuple>, td1: TupleDesc, td2: TupleDesc)
    requires Conforms(outer, td1) && Conforms(inner, td2)
    ensures Conforms(JoinSpec(p, outer, inner), TupleDesc(td1.items + td2.items))
  {
    forall t | t in JoinSpec(p, outer, inner)
      ensures |t.fields| == NumFields(td1) + NumFields(td2)
    {
      JoinSound(p, outer, inner, t);
    }
  }

  class Join {
    const p: (Tuple, Tuple) -> bool
    const td1: TupleDesc
    const td2: TupleDesc
    const outer: seq<Tuple>
    const inner: seq<Tuple>
    var tuples: seq<Tuple>
    var it: Option<nat>
    ghost var opens: nat

    /** The buffer is never cleared: it holds the join once per open(). */
    ghost predicate Valid()
      reads this
    {
      Conforms(outer, td1) && Conforms(inner, td2) &&
      tuples == Repeat(JoinSpec(p, outer, inner), opens) &&
      (it.Some? ==> it.value <= |tuples|)
    }

    /** What fetchNext() still yields: the buffer from the iterator's
        position, nothing when the iterator is null. */
    ghost function Rest(): seq<Tuple>
      reads this
    {
      if it.Some? && it.value <= |tuples| then tuples[it.value..] else []
    }

    constructor (p: (Tuple, Tuple) -> bool, td1: TupleDesc, outer: seq<Tuple>, td2: TupleDesc, inner: seq<Tuple>)
      requires Conforms(outer, td1) && Conforms(inner, td2)
      ensures Valid() && tuples == [] && it == None && opens == 0
      ensures this.p == p && this.td1 == td1 && this.td2 == td2 && this.outer == outer && this.inner == inner
    {
      this.p := p;
      this.td1 := td1;
      this.td2 := td2;
      this.outer := outer;
      this.inner := inner;
      tuples := [];
      it := None;
      opens := 0;
    }

    /** getTupleDesc(): TupleDesc.merge(td1, td2). */
    method GetTupleDesc() returns (td: TupleDesc)
      ensures td.items == td1.items + td2.items
      ensures NumFields(td) == NumFields(td1) + NumFields(td2)
    {
      td := Merge(td1, td2);
    }

    /** open(): appends the join to the buffer and starts over it. */
    method Open()
      requires Valid()
      modifies this
      ensures Valid() && opens == old(opens) + 1
      ensures tuples == old(tuples) + JoinSpec(p, outer, inner)
      ensures it == Some(0) && Rest() == tuples
    {
      ghost var n := opens;
      ScanOuter();
      assert tuples == Repeat(JoinSpec(p, outer, inner), n + 1);
      opens := n + 1;
      it := Some(0);
    }

    /** The loops of open(): the outer child once, the inner child once per
        outer tuple. */
    method ScanOuter()
      modifies this
      ensures tuples == old(tuples) + JoinSpec(p, outer, inner)
      ensures opens == old(opens) && it == old(it)
    {
      ghost var prev := tuples;
      var i := 0;
      while i < |outer|
        invariant 0 <= i <= |outer| && opens == old(opens) && it == old(it)
        invariant tuples == prev + JoinSpec(p, outer[..i], inner)
      {
        ScanInner(outer[i]);
        JoinStep(p, outer, inner, i);
        i := i + 1;
      }
      assert outer[..i] == outer;
    }

    /** The inner loop of open(): one pass over the inner child for outer
        tuple `t1` (the child is rewound after it). */
    method ScanInner(t1: Tuple)
      modifies this
      ensures tuples == old(tuples) + Matches(p, t1, inner)
      ensures opens == old(opens) && it == old(it)
    {
      var j := 0;
      while j < |inner|
        invariant 0 <= j <= |inner| && opens == old(opens) && it == old(it)
        invariant tuples == old(tuples) + Matches(p, t1, inner[..j])
      {
        var t2 := inner[j];
        MatchesStep(p, t1, inner, j);
        if p(t1, t2) {
          var t := JoinTuple(t1, t2);
          tuples := tuples + [t];
        }
        j := j + 1;
      }
      assert inner[..j] == inner;
    }

    /** The output tuple: a record id and the fields of both sides copied
        one by one. */
    method JoinTuple(t1: Tuple, t2: Tuple) returns (t: Tuple)
      ensures t == Joined(t1, t2)
    {
      var fields: seq<Field> := [];
      var i := 0;
      while i < |t1.fields|
        invariant 0 <= i <= |t1.fields| && fields == t1.fields[..i]
      {
        fields := fields + [t1.fields[i]];
        i := i + 1;
      }
      assert t1.fields[..i] == t1.fields;
      i := 0;
      while i < |t2.fields|
        invariant 0 <= i <= |t2.fields| && fields == t1.fields + t2.fields[..i]
      {
        fields := fields + [t2.fields[i]];
        i := i + 1;
      }
      assert t2.fields[..i] == t2.fields;
      t := Tuple(fields, t1.rid);
    }

    /** fetchNext(): the next buffered tuple, or null at the end and after
        close(). */
    method FetchNext() returns (r: Option<Tuple>)
      requires Valid()
      modifies this
      ensures Valid() && tuples == old(tuples) && opens == old(opens)
      ensures old(Rest()) == [] ==> r == None && it == old(it)
      ensures old(Rest()) != [] ==> r == Some(old(Rest())[0]) && Rest() == old(Rest())[1..]
    {
      if it.Some? && it.value < |tuples| {
        r := Some(tuples[it.value]);
        it := Some(it.value + 1);
      } else {
        r := None;
      }
    }

    /** rewind(): starts over the same buffer without reading the children. */
    method Rewind()
      requires Valid()
      modifies this
      ensures Valid() && tuples == old(tuples) && opens == old(opens)
      ensures it == Some(0) && Rest() == tuples
    {
      it := Some(0);
    }

    /** close(): drops the iterator. */
    method Close()
      requires Valid()
      modifies this
      ensures Valid() && tuples == old(tuples) && opens == old(opens)
      ensures it == None && Rest() == []
    {
      it := None;
    }
  }

  /** Join's result list is never cleared: a second open() appends every
      result again, so the list holds the join twice. */
  method OpenTwice(p: (Tuple, Tuple) -> bool, td1: TupleDesc, outer: seq<Tuple>, td2: TupleDesc, inner: seq<Tuple>)
    returns (listed: seq<Tuple>)
    requires Conforms(outer, td1) && Conforms(inner, td2)
    ensures listed == JoinSpec(p, outer, inner) + JoinSpec(p, outer, inner)
  {
    var j := new Join(p, td1, outer, td2, inner);
    j.Open();
    j.Open();
    listed := j.tuples;
  }
}
