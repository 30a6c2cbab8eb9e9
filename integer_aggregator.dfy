/** simpledb.execution.IntegerAggregator: MIN, MAX, COUNT, SUM and AVG over
    an INT field, per group. Each handler updates its HashMaps in place;
    the merge history (a ghost record of every merged (key, value)) says
    what each group's result means. */
module IntegerAggregators {
  import opened Types
  import opened TupleDescs
  import opened Aggregates

  /** The handler classes the constructor picks from. */
  datatype Handler = MinHandler | MaxHandler | CountHandler | SumHandler | AvgHandler

  /** The constructor's switch: an IllegalArgumentException for the
      operators it has no case for. */
  function SelectHandler(what: Op): (r: Result<Handler>)
    ensures r.Err? <==> what == SumCount || what == ScAvg
    ensures r.Err? ==> r.error == IllegalArgument
    ensures what == Min ==> r == Ok(MinHandler)
    ensures what == Max ==> r == Ok(MaxHandler)
    ensures what == Count ==> r == Ok(CountHandler)
    ensures what == Sum ==> r == Ok(SumHandler)
    ensures what == Avg ==> r == Ok(AvgHandler)
  {
    match what
    case Min => Ok(MinHandler)
    case Max => Ok(MaxHandler)
    case Count => Ok(CountHandler)
    case Sum => Ok(SumHandler)
    case Avg => Ok(AvgHandler)
    case _ => Err(IllegalArgument)
  }

  // ------------------------------------------------------------ reducers

  /** The values merged into group `g`, in merge order. */
  function ValuesOf(history: seq<(Key, int32)>, g: Key): (r: seq<int32>)
    ensures |r| <= |history|
  {
    if history == [] then []
    else
      var last := history[|history| - 1];
      ValuesOf(history[..|history| - 1], g) + (if last.0 == g then [last.1] else [])
  }

  lemma ValuesOfAppend(history: seq<(Key, int32)>, g: Key, v: int32, k: Key)
    ensures ValuesOf(history + [(g, v)], k) == ValuesOf(history, k) + (if k == g then [v] else [])
  {
    assert (history + [(g, v)])[..|history|] == history;
  }

  function JavaMin(a: int32, b: int32): int32 { if a <= b then a else b }

  function JavaMax(a: int32, b: int32): int32 { if a >= b then a else b }

  function MinOf(s: seq<int32>): int32
    requires s != []
  {
    if |s| == 1 then s[0] else JavaMin(s[|s| - 1], MinOf(s[..|s| - 1]))
  }

  function MaxOf(s: seq<int32>): int32
    requires s != []
  {
    if |s| == 1 then s[0] else JavaMax(s[|s| - 1], MaxOf(s[..|s| - 1]))
  }

  /** The exact sum, before any wrap-around. */
  function SumOf(s: seq<int32>): int
  {
    if s == [] then 0 else SumOf(s[..|s| - 1]) + s[|s| - 1] as int
  }

  /** MIN's result is the least value merged. */
  lemma {:induction false} MinOfIsMinimum(s: seq<int32>)
    requires s != []
    ensures MinOf(s) in s && forall x :: x in s ==> MinOf(s) <= x
  {
    if |s| > 1 {
      var init := s[..|s| - 1];
      MinOfIsMinimum(init);
      assert s == init + [s[|s| - 1]];
    }
  }

  /** MAX's result is the greatest value merged. */
  lemma {:induction false} MaxOfIsMaximum(s: seq<int32>)
    requires s != []
    ensures MaxOf(s) in s && forall x :: x in s ==> x <= MaxOf(s)
  {
    if |s| > 1 {
      var init := s[..|s| - 1];
      MaxOfIsMaximum(init);
      assert s == init + [s[|s| - 1]];
    }
  }

  /** Java's int division of a sum by a positive count stays an int. */
  function Average(sum: int32, count: int): (r: int32)
    requires 0 < count
    ensures 0 <= sum ==> r as int * count <= sum as int < r as int * count + count
    ensures sum < 0 ==> sum as int <= r as int * count < sum as int + count
  {
    var q := JavaDiv(sum as int, count);
    if sum >= 0 then MulGe(q, count); q as int32
    else MulGe(-q, count); q as int32
  }

  lemma MulGe(q: nat, c: int)
    requires 1 <= c
    ensures q <= q * c
  {
    assert q * c == q + q * (c - 1);
  }

  /** What the handler's map holds for a group with values `s`: the least,
      the greatest, the number (wrapped to int), the wrapped sum, and the
      wrapped sum divided by the number, truncating toward zero. */
  function Meaning(h: Handler, s: seq<int32>): int32
    requires s != [] && |s| <= MAX_INT
  {
    match h
    case MinHandler => MinOf(s)
    case MaxHandler => MaxOf(s)
    case CountHandler => Wrap32(|s|)
    case SumHandler => Wrap32(SumOf(s))
    case AvgHandler => Average(Wrap32(SumOf(s)), |s|)
  }

  /** Each handler's update of the previous result is the meaning of the
      group with one more value: the reducers agree with their batch
      definitions. */
  lemma MinStep(s: seq<int32>, v: int32)
    requires s != []
    ensures MinOf(s + [v]) == JavaMin(v, MinOf(s))
  {
    assert (s + [v])[..|s|] == s;
  }

  lemma MaxStep(s: seq<int32>, v: int32)
    requires s != []
    ensures MaxOf(s + [v]) == JavaMax(v, MaxOf(s))
  {
    assert (s + [v])[..|s|] == s;
  }

  lemma SumStep(s: seq<int32>, v: int32)
    ensures Wrap32(SumOf(s + [v])) == Wrap32(Wrap32(SumOf(s)) as int + v as int)
  {
    assert (s + [v])[..|s|] == s;
    Wrap32Add(SumOf(s), v as int);
  }

  /** Without wrap-around, SUM is the exact sum and AVG the exact mean
      truncated toward zero. */
  lemma SumAndAvgExact(s: seq<int32>)
    requires s != [] && |s| <= MAX_INT && MIN_INT <= SumOf(s) <= MAX_INT
    ensures Meaning(SumHandler, s) as int == SumOf(s)
    ensures var a := Meaning(AvgHandler, s) as int;
      (SumOf(s) >= 0 ==> a * |s| <= SumOf(s) < a * |s| + |s|) &&
      (SumOf(s) < 0 ==> SumOf(s) <= a * |s| < SumOf(s) + |s|)
  {
  }

  // ------------------------------------------------------------ one merge

  /** The handler's maps after handler(g, val): the result map, and for AVG
      the running sum and count maps (left empty by the other handlers). */
  datatype Maps = Maps(res: map<Key, int32>, sum: map<Key, int32>, cnt: map<Key, int32>)

  /** One call of handler(gbField, intField), as each handler class writes it. */
  function Handled(h: Handler, g: Key, val: int32, m: Maps): Maps
  {
    match h
    case MinHandler =>
      m.(res := m.res[g := if g in m.res then JavaMin(val, m.res[g]) else val])
    case MaxHandler =>
      m.(res := m.res[g := if g in m.res then JavaMax(val, m.res[g]) else val])
    case CountHandler =>
      m.(res := m.res[g := if g in m.res then Wrap32(m.res[g] as int + 1) else 1])
    case SumHandler =>
      m.(res := m.res[g := if g in m.res then Wrap32(m.res[g] as int + val as int) else val])
    case AvgHandler =>
      var both := g in m.sum && g in m.cnt;
      var sum := m.sum[g := if both then Wrap32(m.sum[g] as int + val as int) else val];
      var cnt := m.cnt[g := if both then Wrap32(m.cnt[g] as int + 1) else 1];
      var c := cnt[g];
      if c > 0 then Maps(m.res[g := Average(sum[g], c as int)], sum, cnt)
      else Maps(m.res, sum, cnt)  // a count that wrapped to zero or below; excluded by GroupOk's bound
  }

  /** Group `g` with merged values `vals` is described by the maps: it has an
      entry exactly when a value was merged, the entry is the meaning of its
      values, and AVG's sum and count are the wrapped sum and the count. */
  ghost predicate GroupOk(h: Handler, vals: seq<int32>, g: Key, m: Maps)
  {
    |vals| <= MAX_INT &&
    (g in m.res <==> vals != []) &&
    (g in m.res ==> m.res[g] == Meaning(h, vals)) &&
    (h == AvgHandler ==>
      (g in m.sum <==> g in m.res) && (g in m.cnt <==> g in m.res) &&
      (g in m.res ==> m.sum[g] == Wrap32(SumOf(vals)) && m.cnt[g] as int == |vals|))
  }

  /** A merge into group `g` keeps group `g` described, with one more value. */
  lemma HandledGroup(h: Handler, g: Key, val: int32, vals: seq<int32>, m: Maps)
    requires GroupOk(h, vals, g, m) && |vals| < MAX_INT
    ensures GroupOk(h, vals + [val], g, Handled(h, g, val, m))
  {
    var m' := Handled(h, g, val, m);
    if vals == [] {
      assert [val][..0] == [];
      assert vals + [val] == [val];
    } else {
      match h
      case MinHandler => MinStep(vals, val);
      case MaxHandler => MaxStep(vals, val);
      case CountHandler => CountStep(|vals|);
      case SumHandler => SumStep(vals, val);
      case AvgHandler =>
        SumStep(vals, val);
        CountStep(|vals|);
        assert m'.cnt[g] as int == |vals| + 1;
    }
  }

  /** A merge into group `g` leaves every other group as it was. */
  lemma HandledOther(h: Handler, g: Key, val: int32, k: Key, vals: seq<int32>, m: Maps)
    requires k != g && GroupOk(h, vals, k, m)
    ensures GroupOk(h, vals, k, Handled(h, g, val, m))
  {
  }

  /** The aggregator's invariant on values: every group is described by
      the maps, and the null key is used exactly when there is no grouping. */
  ghost predicate Described(h: Handler, gbfield: int, history: seq<(Key, int32)>, m: Maps)
  {
    |history| <= MAX_INT &&
    (gbfield == NO_GROUPING ==> forall g :: g in m.res ==> g == None) &&
    (gbfield != NO_GROUPING ==> None !in m.res) &&
    forall g :: GroupOk(h, ValuesOf(history, g), g, m)
  }

  /** A merge keeps every group described. */
  lemma HandledAll(h: Handler, gbfield: int, history: seq<(Key, int32)>, g: Key, val: int32, m: Maps)
    requires Described(h, gbfield, history, m) && |history| < MAX_INT
    requires g == None <==> gbfield == NO_GROUPING
    ensures Described(h, gbfield, history + [(g, val)], Handled(h, g, val, m))
  {
    forall k ensures GroupOk(h, ValuesOf(history + [(g, val)], k), k, Handled(h, g, val, m)) {
      var vals, vals' := ValuesOf(history, k), ValuesOf(history + [(g, val)], k);
      ValuesOfAppend(history, g, val, k);
      if k == g {
        assert vals' == vals + [val];
        HandledGroup(h, g, val, vals, m);
      } else {
        assert vals' == vals;
        HandledOther(h, g, val, k, vals, m);
      }
    }
  }

  // ------------------------------------------------------------ the class

  class IntegerAggregator {
    const gbfield: int
    const gbType: FieldType
    const afield: int
    const handler: Handler
    var res: map<Key, int32>
    var sum: map<Key, int32>
    var cnt: map<Key, int32>
    ghost var history: seq<(Key, int32)>

    ghost function State(): Maps
      reads this
    {
      Maps(res, sum, cnt)
    }

    ghost predicate Valid()
      reads this
    {
      Described(handler, gbfield, history, State())
    }

    constructor (gbfield: int, gbType: FieldType, afield: int, handler: Handler)
      ensures Valid() && history == [] && res == map[]
      ensures this.gbfield == gbfield && this.gbType == gbType && this.afield == afield && this.handler == handler
    {
      this.gbfield := gbfield;
      this.gbType := gbType;
      this.afield := afield;
      this.handler := handler;
      res := map[];
      sum := map[];
      cnt := map[];
      history := [];
    }

    /** mergeTupleIntoGroup(tup): the INT field `afield` into the group of
        field `gbfield` (the null key without grouping). Reading a missing
        field is an ArrayIndexOutOfBoundsException, a non-INT aggregate
        field a ClassCastException; the maps are then unchanged. */
    method MergeTupleIntoGroup(tup: Tuple) returns (r: Outcome)
      requires Valid() && |history| < MAX_INT
      modifies this
      ensures Valid()
      ensures var k := MergeKey(tup, afield, gbfield);
        && (r.Done? <==> k.Ok?)
        && (k.Ok? ==> history == old(history) + [k.value] && State() == Handled(handler, k.value.0, k.value.1, old(State())))
        && (k.Err? ==> r.error == k.error && history == old(history) && State() == old(State()))
    {
      var k := MergeKey(tup, afield, gbfield);
      if k.Err? {
        return Fail(k.error);
      }
      Handle(k.value.0, k.value.1);
      return Done;
    }

    /** handler(gbField, intField) of the chosen handler. */
    method Handle(g: Key, val: int32)
      requires Valid() && |history| < MAX_INT && (g == None <==> gbfield == NO_GROUPING)
      modifies this
      ensures Valid() && history == old(history) + [(g, val)]
      ensures State() == Handled(handler, g, val, old(State()))
    {
      ghost var m := State();
      HandledAll(handler, gbfield, history, g, val, m);
      match handler {
        case MinHandler => MinHandle(g, val);
        case MaxHandler => MaxHandle(g, val);
        case CountHandler => CountHandle(g, val);
        case SumHandler => SumHandle(g, val);
        case AvgHandler => AvgHandle(g, val);
      }
      history := history + [(g, val)];
    }

    /** MinHandler.handler. */
    method MinHandle(g: Key, val: int32)
      requires handler == MinHandler
      modifies this
      ensures State() == Handled(handler, g, val, old(State())) && history == old(history)
    {
      res := res[g := if g in res then JavaMin(val, res[g]) else val];
    }

    /** MaxHandler.handler. */
    method MaxHandle(g: Key, val: int32)
      requires handler == MaxHandler
      modifies this
      ensures State() == Handled(handler, g, val, old(State())) && history == old(history)
    {
      res := res[g := if g in res then JavaMax(val, res[g]) else val];
    }

    /** CountHandler.handler. */
    method CountHandle(g: Key, val: int32)
      requires handler == CountHandler
      modifies this
      ensures State() == Handled(handler, g, val, old(State())) && history == old(history)
    {
      res := res[g := if g in res then Wrap32(res[g] as int + 1) else 1];
    }

    /** SumHandler.handler. */
    method SumHandle(g: Key, val: int32)
      requires handler == SumHandler
      modifies this
      ensures State() == Handled(handler, g, val, old(State())) && history == old(history)
    {
      res := res[g := if g in res then Wrap32(res[g] as int + val as int) else val];
    }

    /** AvgHandler.handler: the running sum and count, then their quotient. */
    method AvgHandle(g: Key, val: int32)
      requires handler == AvgHandler
      modifies this
      ensures State() == Handled(handler, g, val, old(State())) && history == old(history)
    {
      if g in sum && g in cnt {
        sum := sum[g := Wrap32(sum[g] as int + val as int)];
        cnt := cnt[g := Wrap32(cnt[g] as int + 1)];
      } else {
        sum := sum[g := val];
        cnt := cnt[g := 1];
      }
      if cnt[g] > 0 {
        res := res[g := Average(sum[g], cnt[g] as int)];
      }
    }

    /** iterator(): the result rows of the groups (Aggregates.Results). */
    method Iterator() returns (r: Result<(TupleDesc, seq<Tuple>)>)
      requires Valid()
      ensures gbfield == NO_GROUPING ==>
        && (r.Ok? <==> ValuesOf(history, None) != [])
        && (r.Ok? ==> r.value == (AggregateDesc(), [Tuple([IntField(Meaning(handler, ValuesOf(history, None)))], None)]))
        && (r.Err? ==> r.error == NullPointer)
      ensures gbfield != NO_GROUPING ==>
        && (r.Ok? <==> forall g :: g in res ==> Fits(gbType, g))
        && (r.Err? ==> r.error == ClassCast)
        && (r.Ok? ==> r.value.0 == GroupDesc(gbType) && |r.value.1| == |res| && Rows(r.value.1) == GroupRows(res))
    {
      assert GroupOk(handler, ValuesOf(history, None), None, State());
      r := Results(gbfield, gbType, res);
    }
  }

  /** The key and value a merge of `tup` reads: tup.getField(afield) cast
      to IntField, then the group-by field (None without grouping). */
  function MergeKey(tup: Tuple, afield: int, gbfield: int): (r: Result<(Key, int32)>)
    ensures r.Ok? <==>
      0 <= afield < |tup.fields| && tup.fields[afield].IntField? &&
      (gbfield == NO_GROUPING || 0 <= gbfield < |tup.fields|)
    ensures r.Ok? ==> r.value.1 == tup.fields[afield].n
    ensures r.Ok? ==> r.value.0 == (if gbfield == NO_GROUPING then None else Some(tup.fields[gbfield]))
    ensures r.Err? ==> r.error == (if 0 <= afield < |tup.fields| && !tup.fields[afield].IntField? then ClassCast else IndexOutOfBounds)
  {
    if !(0 <= afield < |tup.fields|) then Err(IndexOutOfBounds)
    else if !tup.fields[afield].IntField? then Err(ClassCast)
    else if gbfield == NO_GROUPING then Ok((None, tup.fields[afield].n))
    else if !(0 <= gbfield < |tup.fields|) then Err(IndexOutOfBounds)
    else Ok((Some(tup.fields[gbfield]), tup.fields[afield].n))
  }

  /** new IntegerAggregator(gbfield, gbfieldtype, afield, what). */
  method NewIntegerAggregator(gbfield: int, gbType: FieldType, afield: int, what: Op) returns (r: Result<IntegerAggregator>)
    ensures r.Err? <==> SelectHandler(what).Err?
    ensures r.Err? ==> r.error == IllegalArgument
    ensures r.Ok? ==> fresh(r.value) && r.value.Valid() && r.value.history == [] && r.value.res == map[]
    ensures r.Ok? ==> r.value.handler == SelectHandler(what).value && r.value.gbfield == gbfield && r.value.afield == afield
  {
    var h := SelectHandler(what);
    if h.Err? {
      return Err(h.error);
    }
    var a := new IntegerAggregator(gbfield, gbType, afield, h.value);
    return Ok(a);
  }
}
