/** Filters, the effective order and the index planner (packages/engine/src/query.ts). */
module Query {
  import Lex
  import opened Values
  import opened Wrappers
  import opened Schema
  import opened Store
  import Sorting

  datatype CompareOp = Eq | Ne | Lt | Le | Gt | Ge | Like | In

  datatype FilterValue = One(v: Scalar) | Many(vs: seq<Scalar>)

  datatype Filter = Filter(column: string, op: CompareOp, value: FilterValue)

  datatype QuerySpec = QuerySpec(table: string, filters: seq<Filter>, order: seq<OrderKey>)

  datatype QueryError = MalformedFilter | BadCursor | Unindexed | TooManyRows

  // ---------------------------------------------------------------- order

  predicate NamesPk(order: seq<OrderKey>, pk: string) {
    exists i :: 0 <= i < |order| && order[i].column == pk
  }

  /** The user's keys come first. If they do not name the primary key, it breaks ties after them,
      in their direction when they share one, so an order of one direction keeps it. */
  function EffectiveOrder(t: TableInfo, spec: QuerySpec): (order: seq<OrderKey>)
    ensures NamesPk(order, t.pk) && spec.order <= order
    ensures |order| == |spec.order| + if NamesPk(spec.order, t.pk) then 0 else 1
    ensures |order| > |spec.order| ==>
              order[|spec.order|] == OrderKey(t.pk, spec.order != [] && AllDescending(spec.order))
    ensures AllAscending(spec.order) ==> AllAscending(order)
    ensures AllDescending(spec.order) && spec.order != [] ==> AllDescending(order)
  {
    if NamesPk(spec.order, t.pk) then spec.order
    else
      var desc := spec.order != [] && forall i :: 0 <= i < |spec.order| ==> spec.order[i].desc;
      var order := spec.order + [OrderKey(t.pk, desc)];
      assert order[|spec.order|].column == t.pk;
      assert desc ==> spec.order[0].desc;
      assert forall i :: 0 <= i < |spec.order| ==> order[i] == spec.order[i];
      order
  }

  predicate AllAscending(order: seq<OrderKey>) {
    forall i :: 0 <= i < |order| ==> !order[i].desc
  }

  predicate AllDescending(order: seq<OrderKey>) {
    forall i :: 0 <= i < |order| ==> order[i].desc
  }

  function OrderColumns(order: seq<OrderKey>): (r: seq<string>)
    ensures |r| == |order|
    ensures forall i :: 0 <= i < |order| ==> r[i] == order[i].column
  {
    seq(|order|, i requires 0 <= i < |order| => order[i].column)
  }

  // ---------------------------------------------------------------- filters

  const MAX_LIKE_PATTERN: int := 256

  predicate Finite(v: Scalar) {
    v.Num? ==> v.d.exp < 2047
  }

  predicate ValidFilter(f: Filter) {
    match f.op
    case In => f.value.Many? && forall i :: 0 <= i < |f.value.vs| ==> Finite(f.value.vs[i])
    case Like => f.value.One? && f.value.v.Str? && |Utf16(f.value.v.t)| <= MAX_LIKE_PATTERN
    case _ => f.value.One? && Finite(f.value.v)
  }

  /** `%` stands for any code units and `_` for one, as in the regular expression built. */
  predicate LikeMatches(pattern: seq<int>, s: seq<int>)
    decreases |pattern| + |s|
  {
    if pattern == [] then s == []
    else if pattern[0] == '%' as int then
      LikeMatches(pattern[1..], s) || (s != [] && LikeMatches(pattern, s[1..]))
    else
      s != [] && (pattern[0] == '_' as int || pattern[0] == s[0]) && LikeMatches(pattern[1..], s[1..])
  }

  predicate Passes(row: Row, f: Filter)
    requires ValidFilter(f)
  {
    var x := Get(row, f.column);
    match f.op
    case In => exists i :: 0 <= i < |f.value.vs| && CompareScalar(x, f.value.vs[i]) == 0
    case Like => x.Str? && LikeMatches(Utf16(f.value.v.t), Utf16(x.t))
    case Eq => CompareScalar(x, f.value.v) == 0
    case Ne => CompareScalar(x, f.value.v) != 0
    case Lt => CompareScalar(x, f.value.v) < 0
    case Le => CompareScalar(x, f.value.v) <= 0
    case Gt => CompareScalar(x, f.value.v) > 0
    case Ge => CompareScalar(x, f.value.v) >= 0
  }

  predicate ValidFilters(filters: seq<Filter>) {
    forall i :: 0 <= i < |filters| ==> ValidFilter(filters[i])
  }

  predicate Matches(row: Row, filters: seq<Filter>)
    requires ValidFilters(filters)
  {
    forall i :: 0 <= i < |filters| ==> Passes(row, filters[i])
  }

  /** The row test of a filter list, as a value. */
  function RowTest(filters: seq<Filter>): Row -> bool
    requires ValidFilters(filters)
  {
    (row: Row) => Matches(row, filters)
  }

  /** Succeeds exactly on well-formed filters, with their conjunction. */
  method CompileMatcher(filters: seq<Filter>) returns (r: Result<Row -> bool, QueryError>)
    ensures r.Ok? <==> ValidFilters(filters)
    ensures r.Ok? ==> forall row :: r.value(row) == Matches(row, filters)
    ensures r.Err? ==> r.error == MalformedFilter
  {
    var tests: seq<Row -> bool> := [];
    for i := 0 to |filters|
      invariant |tests| == i && ValidFilters(filters[..i])
      invariant forall j, row :: 0 <= j < i ==> tests[j](row) == Passes(row, filters[j])
    {
      var f := filters[i];
      if !ValidFilter(f) {
        return Err(MalformedFilter);
      }
      tests := tests + [(row: Row) => Passes(row, f)];
      assert filters[..i + 1] == filters[..i] + [f];
    }
    assert filters[..|filters|] == filters;
    r := Ok((row: Row) => forall j :: 0 <= j < |tests| ==> tests[j](row));
  }

  predicate Pins(f: Filter) {
    f.op == Eq && f.value.One?
  }

  /** The `column = scalar` filters, in order. */
  method EqualityBindings(spec: QuerySpec) returns (out: seq<Filter>)
    ensures out == Sorting.Select(spec.filters, Pins)
  {
    out := [];
    for i := 0 to |spec.filters|
      invariant out == Sorting.Select(spec.filters[..i], Pins)
    {
      Sorting.SelectAppend(spec.filters[..i], [spec.filters[i]], Pins);
      assert spec.filters[..i + 1] == spec.filters[..i] + [spec.filters[i]];
      if Pins(spec.filters[i]) {
        out := out + [spec.filters[i]];
      }
    }
    assert spec.filters[..|spec.filters|] == spec.filters;
  }

  // ---------------------------------------------------------------- the planner

  /** The index of the first equality filter on a column. */
  function FirstPin(filters: seq<Filter>, column: string): (r: Option<nat>)
    ensures r.Some? ==> r.value < |filters| && Pins(filters[r.value]) && filters[r.value].column == column
  {
    FirstPinFrom(filters, column, 0)
  }

  function FirstPinFrom(filters: seq<Filter>, column: string, i: nat): (r: Option<nat>)
    requires i <= |filters|
    ensures r.Some? ==> i <= r.value < |filters| && Pins(filters[r.value]) && filters[r.value].column == column
    ensures forall j :: i <= j < (if r.Some? then r.value else |filters|) ==> !(Pins(filters[j]) && filters[j].column == column)
    decreases |filters| - i
  {
    if i == |filters| then None
    else if Pins(filters[i]) && filters[i].column == column then Some(i)
    else FirstPinFrom(filters, column, i + 1)
  }

  /** How many leading columns are pinned. */
  function PinnedLength(columns: seq<string>, filters: seq<Filter>): (n: nat)
    ensures n <= |columns|
    ensures forall i :: 0 <= i < n ==> FirstPin(filters, columns[i]).Some?
    ensures n < |columns| ==> FirstPin(filters, columns[n]).None?
  {
    if columns != [] && FirstPin(filters, columns[0]).Some? then
      1 + PinnedLength(columns[1..], filters)
    else 0
  }

  datatype SeekPlan = SeekPlan(keyspace: KeyspaceId, eqPrefix: seq<Scalar>, suffixLen: nat, reverse: bool, residual: seq<Filter>)

  datatype Candidate = Candidate(id: string, columns: seq<string>)

  function Candidates(t: TableInfo): (r: seq<Candidate>)
    ensures |r| == 1 + |t.indexes|
    ensures r[0] == Candidate(PRIMARY, [t.pk])
    ensures forall i :: 0 <= i < |t.indexes| ==> r[i + 1] == Candidate(t.indexes[i].name, t.indexes[i].columns)
  {
    [Candidate(PRIMARY, [t.pk])] +
    seq(|t.indexes|, i requires 0 <= i < |t.indexes| => Candidate(t.indexes[i].name, t.indexes[i].columns))
  }

  /** The pinned columns come first and the rest are exactly the order columns. */
  predicate Serves(c: Candidate, spec: QuerySpec, orderColumns: seq<string>) {
    c.columns[PinnedLength(c.columns, spec.filters)..] == orderColumns
  }

  function PinOf(filters: seq<Filter>, column: string): (i: nat)
    requires FirstPin(filters, column).Some?
    ensures i < |filters| && Pins(filters[i]) && filters[i].column == column
  {
    FirstPin(filters, column).value
  }

  function EqPrefix(columns: seq<string>, filters: seq<Filter>): (r: seq<Scalar>)
    ensures |r| == PinnedLength(columns, filters)
    ensures forall i :: 0 <= i < |r| ==> r[i] == filters[PinOf(filters, columns[i])].value.v
  {
    seq(PinnedLength(columns, filters),
        i requires 0 <= i < PinnedLength(columns, filters) => filters[PinOf(filters, columns[i])].value.v)
  }

  /** Filter `i` is the pin of one of the first `n` columns. */
  predicate Consumed(columns: seq<string>, filters: seq<Filter>, n: nat, i: nat)
    requires n <= |columns| && forall k :: 0 <= k < n ==> FirstPin(filters, columns[k]).Some?
  {
    exists k :: 0 <= k < n && PinOf(filters, columns[k]) == i
  }

  function ResidualFrom(columns: seq<string>, filters: seq<Filter>, i: nat): seq<Filter>
    requires i <= |filters|
    decreases |filters| - i
  {
    if i == |filters| then []
    else (if Consumed(columns, filters, PinnedLength(columns, filters), i) then [] else [filters[i]])
         + ResidualFrom(columns, filters, i + 1)
  }

  function PlanWith(t: TableInfo, spec: QuerySpec, c: Candidate, reverse: bool): SeekPlan {
    SeekPlan(KeyspaceId(t.name, c.id), EqPrefix(c.columns, spec.filters),
             |c.columns| - PinnedLength(c.columns, spec.filters), reverse,
             ResidualFrom(c.columns, spec.filters, 0))
  }

  function FirstServing(cs: seq<Candidate>, spec: QuerySpec, orderColumns: seq<string>): (r: Option<Candidate>)
    ensures r.Some? ==> r.value in cs && Serves(r.value, spec, orderColumns)
    ensures r.None? ==> forall i :: 0 <= i < |cs| ==> !Serves(cs[i], spec, orderColumns)
  {
    if cs == [] then None
    else if Serves(cs[0], spec, orderColumns) then Some(cs[0])
    else FirstServing(cs[1..], spec, orderColumns)
  }

  /** The candidate that serves the query, when the order has one direction. */
  function Chosen(t: TableInfo, spec: QuerySpec): (r: Option<Candidate>)
    ensures r.Some? ==> r.value in Candidates(t) && Serves(r.value, spec, OrderColumns(EffectiveOrder(t, spec)))
  {
    var order := EffectiveOrder(t, spec);
    if !AllAscending(order) && !AllDescending(order) then None
    else FirstServing(Candidates(t), spec, OrderColumns(order))
  }

  function Plan(t: TableInfo, spec: QuerySpec): Option<SeekPlan> {
    var c := Chosen(t, spec);
    if c.None? then None else Some(PlanWith(t, spec, c.value, AllDescending(EffectiveOrder(t, spec))))
  }

  method PinMap(filters: seq<Filter>) returns (eq: map<string, nat>)
    ensures forall c :: c in eq <==> FirstPin(filters, c).Some?
    ensures forall c :: c in eq ==> eq[c] == PinOf(filters, c)
  {
    eq := map[];
    for i := 0 to |filters|
      invariant forall c :: c in eq ==> eq[c] < i && Pins(filters[eq[c]]) && filters[eq[c]].column == c
      invariant forall c :: c in eq ==> FirstPinFrom(filters, c, 0) == Some(eq[c])
      invariant forall j :: 0 <= j < i && Pins(filters[j]) ==> filters[j].column in eq
    {
      var f := filters[i];
      if Pins(f) && f.column !in eq {
        assert FirstPinFrom(filters, f.column, 0) == Some(i);
        eq := eq[f.column := i];
      }
    }
  }

  method ResidualOf(filters: seq<Filter>, columns: seq<string>, eqLen: nat, eq: map<string, nat>) returns (residual: seq<Filter>)
    requires eqLen == PinnedLength(columns, filters)
    requires forall i :: 0 <= i < eqLen ==> columns[i] in eq && eq[columns[i]] == PinOf(filters, columns[i])
    ensures residual == ResidualFrom(columns, filters, 0)
  {
    var consumed := set i | 0 <= i < eqLen :: eq[columns[i]];
    residual := [];
    for i := 0 to |filters|
      invariant residual + ResidualFrom(columns, filters, i) == ResidualFrom(columns, filters, 0)
    {
      assert i in consumed <==> Consumed(columns, filters, eqLen, i);
      if i !in consumed {
        residual := residual + [filters[i]];
      }
    }
  }

  method PlanFor(t: TableInfo, spec: QuerySpec, c: Candidate, eq: map<string, nat>, orderCols: seq<string>, reverse: bool)
    returns (r: Option<SeekPlan>)
    requires forall col :: col in eq <==> FirstPin(spec.filters, col).Some?
    requires forall col :: col in eq ==> eq[col] == PinOf(spec.filters, col)
    ensures r == if Serves(c, spec, orderCols) then Some(PlanWith(t, spec, c, reverse)) else None
  {
    hide PinnedLength, FirstPin, PinOf, ResidualFrom;
    var eqLen := 0;
    while eqLen < |c.columns| && c.columns[eqLen] in eq
      invariant eqLen <= PinnedLength(c.columns, spec.filters)
    {
      eqLen := eqLen + 1;
    }
    if c.columns[eqLen..] == orderCols {
      var eqPrefix := seq(eqLen, i requires 0 <= i < eqLen => spec.filters[eq[c.columns[i]]].value.v);
      assert eqPrefix == EqPrefix(c.columns, spec.filters);
      var residual := ResidualOf(spec.filters, c.columns, eqLen, eq);
      r := Some(SeekPlan(KeyspaceId(t.name, c.id), eqPrefix, |c.columns| - eqLen, reverse, residual));
    } else {
      r := None;
    }
  }

  method ChooseIndex(t: TableInfo, spec: QuerySpec) returns (r: Option<SeekPlan>)
    ensures r == Plan(t, spec)
  {
    var order := EffectiveOrder(t, spec);
    var allAsc, allDesc := AllAscending(order), AllDescending(order);
    if !allAsc && !allDesc {
      return None;
    }
    var eq := PinMap(spec.filters);
    var orderCols := OrderColumns(order);
    var candidates := Candidates(t);
    for k := 0 to |candidates|
      invariant FirstServing(candidates[k..], spec, orderCols) == FirstServing(candidates, spec, orderCols)
    {
      assert candidates[k..][1..] == candidates[k + 1..];
      r := PlanFor(t, spec, candidates[k], eq, orderCols, allDesc);
      if r.Some? {
        return;
      }
    }
    r := None;
  }

  // ---------------------------------------------------------------- what a plan means

  lemma {:induction false} ResidualMatches(columns: seq<string>, filters: seq<Filter>, row: Row, i: nat)
    requires i <= |filters| && ValidFilters(filters)
    ensures ValidFilters(ResidualFrom(columns, filters, i))
    ensures Matches(row, ResidualFrom(columns, filters, i)) <==>
            forall k :: i <= k < |filters| && !Consumed(columns, filters, PinnedLength(columns, filters), k)
                        ==> Passes(row, filters[k])
    decreases |filters| - i
  {
    if i == |filters| {
    } else {
      var tail := ResidualFrom(columns, filters, i + 1);
      ResidualMatches(columns, filters, row, i + 1);
      MatchesCons(row, filters[i], tail);
      var all := ResidualFrom(columns, filters, i);
      if Consumed(columns, filters, PinnedLength(columns, filters), i) {
        assert all == tail;
      } else {
        assert all == [filters[i]] + tail;
      }
    }
  }

  lemma MatchesCons(row: Row, f: Filter, tail: seq<Filter>)
    requires ValidFilter(f) && ValidFilters(tail)
    ensures ValidFilters([f] + tail)
    ensures Matches(row, [f] + tail) <==> Passes(row, f) && Matches(row, tail)
  {
    var all := [f] + tail;
    assert all[0] == f && forall k :: 0 <= k < |tail| ==> all[k + 1] == tail[k];
    if Matches(row, all) {
      assert Passes(row, all[0]);
      forall k | 0 <= k < |tail| ensures Passes(row, tail[k]) {
        assert Passes(row, all[k + 1]);
      }
    }
  }

  /** The pinned prefix and the residual filters together are the filters of the query. */
  lemma PlanKeepsFilters(c: Candidate, filters: seq<Filter>, row: Row)
    requires ValidFilters(filters)
    ensures ValidFilters(ResidualFrom(c.columns, filters, 0))
    ensures var pins := EqPrefix(c.columns, filters);
            Matches(row, filters) <==>
              Matches(row, ResidualFrom(c.columns, filters, 0)) &&
              forall j :: 0 <= j < |pins| ==> CompareScalar(Get(row, c.columns[j]), pins[j]) == 0
  {
    var n := PinnedLength(c.columns, filters);
    var pins := EqPrefix(c.columns, filters);
    ResidualMatches(c.columns, filters, row, 0);
    forall j | 0 <= j < n
      ensures Passes(row, filters[PinOf(filters, c.columns[j])]) <==>
              CompareScalar(Get(row, c.columns[j]), pins[j]) == 0
    {
    }
    if forall j :: 0 <= j < n ==> CompareScalar(Get(row, c.columns[j]), pins[j]) == 0 {
      forall k | 0 <= k < |filters| && Consumed(c.columns, filters, n, k) ensures Passes(row, filters[k]) {
        var j :| 0 <= j < n && PinOf(filters, c.columns[j]) == k;
        assert CompareScalar(Get(row, c.columns[j]), pins[j]) == 0;
      }
    }
  }

  /** A query is planned exactly when its order has one direction and some keyspace has the
      pinned columns first and the order columns after them. */
  lemma PlannedExactly(t: TableInfo, spec: QuerySpec)
    ensures var order := EffectiveOrder(t, spec);
            Chosen(t, spec).Some? <==>
              (AllAscending(order) || AllDescending(order)) &&
              exists i :: 0 <= i < |Candidates(t)| && Serves(Candidates(t)[i], spec, OrderColumns(order))
  {
  }
}
