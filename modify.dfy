/** simpledb.execution.Insert and simpledb.execution.Delete: the first
    fetchNext() drains the child, hands every tuple to the buffer pool and
    returns one tuple holding the running count of calls that succeeded;
    later calls return null until rewind(). The buffer pool's
    insertTuple / deleteTuple are left abstract: their outcome for each
    child tuple is passed in. */
module Modifications {
  import opened Types
  import opened TupleDescs

  /** The schema of the result: one INT field "COUNT". */
  function CountDesc(): TupleDesc
  {
    TupleDesc([TDItem(IntType, Some("COUNT"))])
  }

  function CountTuple(n: int32): Tuple
  {
    Tuple([IntField(n)], None)
  }

  /** How many of the calls returned normally. */
  function Successes(s: seq<Outcome>): (n: nat)
    ensures n <= |s|
  {
    if s == [] then 0 else Successes(s[..|s| - 1]) + (if s[|s| - 1].Done? then 1 else 0)
  }

  lemma SuccessesStep(s: seq<Outcome>, i: nat)
    requires i < |s|
    ensures Successes(s[..i + 1]) == Successes(s[..i]) + (if s[i].Done? then 1 else 0)
  {
    assert s[..i + 1][..i] == s[..i];
  }

  /** Every call is counted exactly when every call succeeded. */
  lemma {:induction false} SuccessesAll(s: seq<Outcome>)
    ensures Successes(s) == |s| <==> forall i :: 0 <= i < |s| ==> s[i].Done?
  {
    if s != [] {
      var init := s[..|s| - 1];
      SuccessesAll(init);
      if forall i :: 0 <= i < |init| ==> init[i].Done? {
        assert forall i :: 0 <= i < |s| - 1 ==> s[i] == init[i];
      } else {
        var i :| 0 <= i < |init| && !init[i].Done?;
        assert s[i] == init[i];
      }
    }
  }

  lemma {:induction false} SuccessesAppend(a: seq<Outcome>, b: seq<Outcome>)
    ensures Successes(a + b) == Successes(a) + Successes(b)
  {
    if b == [] {
      assert a + b == a;
    } else {
      var init := b[..|b| - 1];
      SuccessesAppend(a, init);
      assert (a + b)[..|a + b| - 1] == a + init;
    }
  }

  /** The count field after `more` calls, as a Java int. */
  function Counted(count: int32, more: seq<Outcome>): int32
  {
    Wrap32(count as int + Successes(more))
  }

  /** rewind() does not reset the count: a second drain adds to the first,
      as if both had been one. */
  lemma CountAccumulates(count: int32, first: seq<Outcome>, second: seq<Outcome>)
    ensures Counted(Counted(count, first), second) == Counted(count, first + second)
  {
    SuccessesAppend(first, second);
    Wrap32Add(count as int + Successes(first), Successes(second));
  }

  lemma CountStep(count: int32, s: seq<Outcome>, i: nat)
    requires i < |s| && s[i].Done?
    ensures Wrap32(Counted(count, s[..i]) as int + 1) == Counted(count, s[..i + 1])
  {
    SuccessesStep(s, i);
    Wrap32Add(count as int + Successes(s[..i]), 1);
  }

  /** Insert lets every exception but an IOException escape fetchNext(). */
  predicate Escapes(o: Outcome)
  {
    o.Fail? && o.error != IO
  }

  /** The number of calls before the first one whose exception escapes. */
  function FirstEscape(s: seq<Outcome>): (k: nat)
    ensures k <= |s| && (k < |s| ==> Escapes(s[k]))
    ensures forall i :: 0 <= i < k ==> !Escapes(s[i])
  {
    if s == [] then 0
    else if Escapes(s[0]) then 0
    else 1 + FirstEscape(s[1..])
  }

  class Insert {
    const tid: TransactionId
    const tableId: int
    const td: TupleDesc
    const rows: seq<Tuple>
    var pos: nat
    var isInsert: bool
    var count: int32
    ghost var sent: seq<Tuple>

    ghost predicate Valid()
      reads this
    {
      pos <= |rows| && td == CountDesc()
    }

    /** new Insert(t, child, tableId): count 0, no fetch yet. The child's
        schema is not compared with the table's. */
    constructor (tid: TransactionId, rows: seq<Tuple>, tableId: int)
      ensures Valid() && pos == 0 && !isInsert && count == 0 && sent == []
      ensures this.tid == tid && this.rows == rows && this.tableId == tableId
    {
      this.tid := tid;
      this.rows := rows;
      this.tableId := tableId;
      var d := FromTypesAndNames([IntType], [Some("COUNT")]);
      assert d.items == [TDItem(IntType, Some("COUNT"))];
      td := d;
      pos := 0;
      isInsert := false;
      count := 0;
      sent := [];
    }

    /** open(): opens the child. */
    method Open()
      requires Valid()
      modifies this
      ensures Valid() && pos == 0 && isInsert == old(isInsert) && count == old(count) && sent == old(sent)
    {
      pos := 0;
    }

    /** rewind(): rewinds the child and allows one more fetch; the count
        is kept. */
    method Rewind()
      requires Valid()
      modifies this
      ensures Valid() && pos == 0 && !isInsert && count == old(count) && sent == old(sent)
    {
      pos := 0;
      isInsert := false;
    }

    /** fetchNext(), given the outcome of insertTuple for each tuple the
        child still holds. An IOException is swallowed without counting;
        any other exception escapes, after the tuples before it were
        counted. */
    method FetchNext(effects: seq<Outcome>) returns (r: Result<Option<Tuple>>)
      requires Valid() && |effects| == |rows| - pos
      modifies this
      ensures Valid()
      ensures old(isInsert) ==> r == Ok(None) && pos == old(pos) && isInsert && count == old(count) && sent == old(sent)
      ensures !old(isInsert) ==>
        var k := FirstEscape(effects);
        && count == Counted(old(count), effects[..k])
        && (k < |effects| ==>
              r == Err(effects[k].error) && pos == old(pos) + k + 1 && !isInsert &&
              sent == old(sent) + rows[old(pos)..pos])
        && (k == |effects| ==>
              r == Ok(Some(CountTuple(count))) && pos == |rows| && isInsert &&
              sent == old(sent) + rows[old(pos)..])
    {
      if isInsert {
        return Ok(None);
      }
      var k := Drain(effects);
      if k < |effects| {
        return Err(effects[k].error);
      }
      assert pos == |rows|;
      isInsert := true;
      return Ok(Some(CountTuple(count)));
    }

    /** The loop of fetchNext(): insertTuple for each child tuple until an
        exception escapes; `k` calls returned or were swallowed. */
    method Drain(effects: seq<Outcome>) returns (k: nat)
      requires Valid() && |effects| == |rows| - pos
      modifies this
      ensures Valid() && isInsert == old(isInsert)
      ensures k == FirstEscape(effects) && count == Counted(old(count), effects[..k])
      ensures pos == old(pos) + (if k < |effects| then k + 1 else k)
      ensures sent == old(sent) + rows[old(pos)..pos]
    {
      ghost var p0, c0, s0 := pos, count, sent;
      k := 0;
      while pos < |rows|
        invariant p0 <= pos <= |rows| && k == pos - p0
        invariant isInsert == old(isInsert)
        invariant forall j :: 0 <= j < k ==> !Escapes(effects[j])
        invariant count == Counted(c0, effects[..k])
        invariant sent == s0 + rows[p0..pos]
      {
        var tuple := rows[pos];
        assert rows[p0..pos + 1] == rows[p0..pos] + [tuple];
        pos := pos + 1;
        sent := sent + [tuple];
        var e := effects[k];
        if e.Done? {
          CountStep(c0, effects, k);
          count := Wrap32(count as int + 1);
        } else if e.error != IO {
          FirstEscapeAt(effects, k);
          return;
        } else {
          SuccessesStep(effects, k);
        }
        k := k + 1;
      }
      FirstEscapeAt(effects, k);
    }
  }

  lemma FirstEscapeAt(s: seq<Outcome>, i: nat)
    requires i <= |s| && (i < |s| ==> Escapes(s[i]))
    requires forall j :: 0 <= j < i ==> !Escapes(s[j])
    ensures FirstEscape(s) == i
  {
  }

  class Delete {
    const tid: TransactionId
    const td: TupleDesc
    const rows: seq<Tuple>
    var pos: nat
    var isDeleted: bool
    var count: int32
    ghost var sent: seq<Tuple>

    ghost predicate Valid()
      reads this
    {
      pos <= |rows| && td == CountDesc()
    }

    /** new Delete(t, child): count 0, no fetch yet. */
    constructor (tid: TransactionId, rows: seq<Tuple>)
      ensures Valid() && pos == 0 && !isDeleted && count == 0 && sent == []
      ensures this.tid == tid && this.rows == rows
    {
      this.tid := tid;
      this.rows := rows;
      var d := FromTypesAndNames([IntType], [Some("COUNT")]);
      assert d.items == [TDItem(IntType, Some("COUNT"))];
      td := d;
      pos := 0;
      isDeleted := false;
      count := 0;
      sent := [];
    }

    /** open(): opens the child. */
    method Open()
      requires Valid()
      modifies this
      ensures Valid() && pos == 0 && isDeleted == old(isDeleted) && count == old(count) && sent == old(sent)
    {
      pos := 0;
    }

    /** rewind(): rewinds the child and allows one more fetch; the count
        is kept. */
    method Rewind()
      requires Valid()
      modifies this
      ensures Valid() && pos == 0 && !isDeleted && count == old(count) && sent == old(sent)
    {
      pos := 0;
      isDeleted := false;
    }

    /** fetchNext(), given the outcome of deleteTuple for each tuple the
        child still holds. Every exception is swallowed without counting. */
    method FetchNext(effects: seq<Outcome>) returns (r: Option<Tuple>)
      requires Valid() && |effects| == |rows| - pos
      modifies this
      ensures Valid()
      ensures old(isDeleted) ==> r == None && pos == old(pos) && isDeleted && count == old(count) && sent == old(sent)
      ensures !old(isDeleted) ==>
        && count == Counted(old(count), effects)
        && r == Some(CountTuple(count)) && pos == |rows| && isDeleted
        && sent == old(sent) + rows[old(pos)..]
    {
      if isDeleted {
        return None;
      }
      ghost var p0, c0, s0 := pos, count, sent;
      var i := 0;
      while pos < |rows|
        invariant p0 <= pos <= |rows| && i == pos - p0
        invariant !isDeleted
        invariant count == Counted(c0, effects[..i])
        invariant sent == s0 + rows[p0..pos]
      {
        var tuple := rows[pos];
        assert rows[p0..pos + 1] == rows[p0..pos] + [tuple];
        pos := pos + 1;
        sent := sent + [tuple];
        if effects[i].Done? {
          CountStep(c0, effects, i);
          count := Wrap32(count as int + 1);
        } else {
          SuccessesStep(effects, i);
        }
        i := i + 1;
      }
      assert effects[..i] == effects;
      isDeleted := true;
      return Some(CountTuple(count));
    }
  }
}
