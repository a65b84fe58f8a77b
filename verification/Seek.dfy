/** Why an index seek answers a query: the byte range of a plan holds the rows meeting the
    pinned equalities, in effective order or its reverse, and splits at the anchor
    (packages/engine/src/query.ts, packages/engine/src/paginate.ts). */
module Seek {
  import Lex
  import opened Values
  import opened Wrappers
  import opened Keys
  import opened Sorting
  import opened Store
  import opened Schema
  import opened Query
  import opened Database
  import opened Window

  function RowsOf(lives: seq<Live>): (r: seq<Row>)
    ensures |r| == |lives|
    ensures forall i :: 0 <= i < |lives| ==> r[i] == lives[i].row
  {
    seq(|lives|, i requires 0 <= i < |lives| => lives[i].row)
  }

  /** The rows of a range that pass the test, in scan direction. */
  function Hits(ks: Keyspace, lo: Bytes, hi: Option<Bytes>, desc: bool, matches: Row -> bool): seq<Row> {
    Select(RowsOf(Visits(ks, lo, hi, desc)), matches)
  }

  /** The exclusive upper bound of a prefix group; null for the empty prefix. */
  function GroupHi(eq: seq<Scalar>): Option<Bytes> {
    if |eq| > 0 then PrefixUpperBound(EncodeKey(eq)) else None
  }

  lemma GroupRange(eq: seq<Scalar>, key: Bytes)
    ensures InRange(key, EncodeKey(eq), GroupHi(eq)) <==> EncodeKey(eq) <= key
  {
    PrefixRange(EncodeKey(eq), key);
  }

  // ---------------------------------------------------------------- ranges

  lemma VisitMember(ks: Keyspace, lo: Bytes, hi: Option<Bytes>, r: Row)
    ensures r in RowsOf(Visits(ks, lo, hi, false)) <==>
            exists k :: k in ks && InRange(k, lo, hi) && ks[k].row == r
  {
    hide InRange;
    var keys := KeyRange(ks, lo, hi);
    var v := Visits(ks, lo, hi, false);
    if r in RowsOf(v) {
      var i :| 0 <= i < |v| && RowsOf(v)[i] == r;
      assert keys[i] in keys;
    }
    if k :| k in ks && InRange(k, lo, hi) && ks[k].row == r {
      assert k in keys;
      var i :| 0 <= i < |keys| && keys[i] == k;
      assert RowsOf(v)[i] == r;
    }
  }

  lemma HitsMember(ks: Keyspace, lo: Bytes, hi: Option<Bytes>, matches: Row -> bool, r: Row)
    ensures r in Hits(ks, lo, hi, false, matches) <==>
            matches(r) && exists k :: k in ks && InRange(k, lo, hi) && ks[k].row == r
  {
    hide InRange, Visits, RowsOf, Select;
    VisitMember(ks, lo, hi, r);
  }

  lemma HitsBackward(ks: Keyspace, lo: Bytes, hi: Option<Bytes>, matches: Row -> bool)
    ensures Hits(ks, lo, hi, true, matches) == Reverse(Hits(ks, lo, hi, false, matches))
  {
    hide Select, Visits, RowsOf, Reverse;
    var v := Visits(ks, lo, hi, false);
    VisitsBackward(ks, lo, hi);
    RowsOfReverse(v);
    SelectReverse(RowsOf(v), matches);
  }

  lemma RowsOfReverse(v: seq<Live>)
    ensures RowsOf(Reverse(v)) == Reverse(RowsOf(v))
  {
  }

  /** A range splits at any key inside it, without gap or overlap. */
  lemma RangeSplits(ks: Keyspace, lo: Bytes, at: Bytes, hi: Option<Bytes>)
    requires !Lex.Less(at, lo) && (hi.Some? ==> !Lex.Less(hi.value, at))
    ensures KeyRange(ks, lo, hi) == KeyRange(ks, lo, Some(at)) + KeyRange(ks, at, hi)
  {
    hide Lex.Compare;
    var a, b := KeyRange(ks, lo, Some(at)), KeyRange(ks, at, hi);
    KeysOrdered(KeysIn(ks, lo, hi));
    Lex.CompareFlips(at, lo);
    if hi.Some? {
      Lex.CompareFlips(at, hi.value);
    }
    forall k | k in ks ensures InRange(k, lo, hi) <==> InRange(k, lo, Some(at)) || InRange(k, at, hi) {
      Lex.CompareFlips(k, at);
      Lex.CompareFlips(k, lo);
      if Lex.Less(k, at) && hi.Some? {
        Lex.LessTransitive(k, at, hi.value);
      }
      if !Lex.Less(k, at) {
        Lex.LessTransitive(lo, at, k);
      }
    }
    forall x, y | x in a && y in b ensures KeyLess(x, y) {
      Lex.CompareFlips(y, at);
      Lex.LessTransitive(x, at, y);
    }
    ConcatAscending(a, b, KeyLess);
    ArrangeUnique(a + b, KeysIn(ks, lo, hi), KeyLess);
  }

  lemma ConcatAscending<T>(a: seq<T>, b: seq<T>, less: (T, T) -> bool)
    requires Ascending(a, less) && Ascending(b, less)
    requires forall x, y :: x in a && y in b ==> less(x, y)
    ensures Ascending(a + b, less)
  {
  }

  lemma HitsSplit(ks: Keyspace, lo: Bytes, at: Bytes, hi: Option<Bytes>, matches: Row -> bool)
    requires !Lex.Less(at, lo) && (hi.Some? ==> !Lex.Less(hi.value, at))
    ensures Hits(ks, lo, hi, false, matches) == Hits(ks, lo, Some(at), false, matches) + Hits(ks, at, hi, false, matches)
  {
    hide Lex.Compare, Select, KeyRange, Lookup;
    RangeSplits(ks, lo, at, hi);
    LookupAppend(ks, KeyRange(ks, lo, Some(at)), KeyRange(ks, at, hi));
    var a, b := Visits(ks, lo, Some(at), false), Visits(ks, at, hi, false);
    RowsOfAppend(a, b);
    SelectAppend(RowsOf(a), RowsOf(b), matches);
  }

  lemma LookupAppend<V(!new)>(c: map<Bytes, V>, x: seq<Bytes>, y: seq<Bytes>)
    requires forall k :: k in x || k in y ==> k in c
    ensures Lookup(c, x + y) == Lookup(c, x) + Lookup(c, y)
  {
  }

  lemma RowsOfAppend(a: seq<Live>, b: seq<Live>)
    ensures RowsOf(a + b) == RowsOf(a) + RowsOf(b)
  {
  }

  // ---------------------------------------------------------------- keys of one group

  ghost predicate RegularPins(filters: seq<Filter>) {
    forall i :: 0 <= i < |filters| && Pins(filters[i]) ==> Regular(filters[i].value.v)
  }

  /** What the byte order of an index asks of a row: the pinned columns are regular, and the
      order columns plain. Its other columns hold whatever they like. */
  ghost predicate Orderable(c: Candidate, pinned: nat, order: seq<OrderKey>, row: Row)
    requires pinned <= |c.columns|
  {
    (forall j :: 0 <= j < pinned ==> Regular(Get(row, c.columns[j]))) && PlainTuple(KeyOf(row, order))
  }

  /** A keyspace whose columns are the pinned ones followed by the order's. */
  ghost predicate Leads(c: Candidate, eq: seq<Scalar>, order: seq<OrderKey>) {
    |eq| <= |c.columns| && c.columns[|eq|..] == OrderColumns(order)
  }

  lemma TupleSplits(c: Candidate, eq: seq<Scalar>, order: seq<OrderKey>, row: Row)
    requires Leads(c, eq, order)
    ensures TupleOf(c.columns, row) == TupleOf(c.columns[..|eq|], row) + KeyOf(row, order)
  {
    var n := |eq|;
    var whole, first, last := TupleOf(c.columns, row), TupleOf(c.columns[..n], row), KeyOf(row, order);
    assert |whole| == n + |OrderColumns(order)|;
    forall i | 0 <= i < |whole| ensures whole[i] == (first + last)[i] {
      if i >= n {
        assert c.columns[i] == c.columns[n..][i - n] == OrderColumns(order)[i - n];
      }
    }
  }

  /** The row meets the pinned equalities. */
  ghost predicate Pinned(c: Candidate, eq: seq<Scalar>, row: Row)
    requires |eq| <= |c.columns|
  {
    forall j :: 0 <= j < |eq| ==> CompareScalar(Get(row, c.columns[j]), eq[j]) == 0
  }

  lemma PinnedTuple(c: Candidate, eq: seq<Scalar>, order: seq<OrderKey>, row: Row)
    requires Leads(c, eq, order) && RegularTuple(eq) && Orderable(c, |eq|, order, row)
    ensures Pinned(c, eq, row) <==> TupleOf(c.columns[..|eq|], row) == eq
  {
    forall j | 0 <= j < |eq|
      ensures CompareScalar(Get(row, c.columns[j]), eq[j]) == 0 <==> TupleOf(c.columns[..|eq|], row)[j] == eq[j]
    {
      assert Regular(eq[j]) && Regular(Get(row, c.columns[j]));
      RegularEqual(Get(row, c.columns[j]), eq[j]);
    }
  }

  /** The byte range of the group holds exactly the rows meeting the pinned equalities. */
  lemma GroupHoldsPinned(c: Candidate, eq: seq<Scalar>, order: seq<OrderKey>, row: Row)
    requires Leads(c, eq, order) && RegularTuple(eq) && Orderable(c, |eq|, order, row)
    ensures InRange(RowKey(c.columns, row), EncodeKey(eq), GroupHi(eq)) <==> Pinned(c, eq, row)
  {
    var k := TupleOf(c.columns, row);
    GroupRange(eq, EncodeKey(k));
    KeyPrefix(eq, k);
    TupleSplits(c, eq, order, row);
    PinnedTuple(c, eq, order, row);
    assert eq <= k <==> TupleOf(c.columns[..|eq|], row) == eq;
  }

  /** Within a group, keys compare as the sort keys do. */
  lemma GroupKeyCompare(c: Candidate, eq: seq<Scalar>, order: seq<OrderKey>, row: Row, k: seq<Scalar>)
    requires Leads(c, eq, order) && RegularTuple(eq) && Orderable(c, |eq|, order, row) && PlainTuple(k) && Pinned(c, eq, row)
    ensures Lex.Compare(RowKey(c.columns, row), EncodeKey(eq + k)) == CompareTuples(KeyOf(row, order), k)
  {
    TupleSplits(c, eq, order, row);
    PinnedTuple(c, eq, order, row);
    EncodeKeyAppend(eq, KeyOf(row, order));
    EncodeKeyAppend(eq, k);
    Lex.CompareUnderPrefix(EncodeKey(eq), EncodeKey(KeyOf(row, order)), EncodeKey(k));
    PlainKeyOrder(KeyOf(row, order), k);
  }

  predicate Uniform(order: seq<OrderKey>, reverse: bool) {
    forall i :: 0 <= i < |order| ==> order[i].desc == reverse
  }

  /** Within a group, key order is the effective order, or its reverse when descending. */
  lemma GroupOrder(c: Candidate, eq: seq<Scalar>, order: seq<OrderKey>, reverse: bool, a: Row, b: Row)
    requires Leads(c, eq, order) && RegularTuple(eq) && Uniform(order, reverse)
    requires Orderable(c, |eq|, order, a) && Orderable(c, |eq|, order, b) && Pinned(c, eq, a) && Pinned(c, eq, b)
    ensures Lex.Compare(RowKey(c.columns, a), RowKey(c.columns, b)) ==
            if reverse then -CompareRows(a, b, order) else CompareRows(a, b, order)
  {
    GroupKeyCompare(c, eq, order, a, KeyOf(b, order));
    TupleSplits(c, eq, order, b);
    PinnedTuple(c, eq, order, b);
    CompareRowsIsTuples(a, b, order, reverse);
  }

  // ---------------------------------------------------------------- the group is the answer

  /** All that the seek of a planned query rests on. */
  ghost predicate Ready(s: State, t: TableInfo, spec: QuerySpec) {
    && Consistent(s, t) && RegularPks(s, t)
    && ValidFilters(spec.filters) && RegularPins(spec.filters)
    && Chosen(t, spec).Some? && PlainIndex(s, t, spec)
  }

  /** Every row of the table can be ordered by the keys of the chosen index. */
  ghost predicate PlainIndex(s: State, t: TableInfo, spec: QuerySpec)
    requires Chosen(t, spec).Some?
  {
    var c, order := Chosen(t, spec).value, EffectiveOrder(t, spec);
    forall r :: r in Rows(s, t) ==> Orderable(c, PinnedLength(c.columns, spec.filters), order, r)
  }

  lemma PlainSortKey(s: State, t: TableInfo, spec: QuerySpec, r: Row)
    requires Chosen(t, spec).Some? && PlainIndex(s, t, spec) && r in Rows(s, t)
    ensures PlainTuple(KeyOf(r, EffectiveOrder(t, spec)))
  {
    var c := Chosen(t, spec).value;
    assert Orderable(c, PinnedLength(c.columns, spec.filters), EffectiveOrder(t, spec), r);
  }

  /** The planner's choice, unfolded. */
  lemma ChoiceLeads(s: State, t: TableInfo, spec: QuerySpec)
    requires Ready(s, t, spec)
    ensures var c, order := Chosen(t, spec).value, EffectiveOrder(t, spec);
            var eq := EqPrefix(c.columns, spec.filters);
            && InStep(s, t, c) && Leads(c, eq, order) && RegularTuple(eq)
            && Uniform(order, AllDescending(order))
  {
    var c, order := Chosen(t, spec).value, EffectiveOrder(t, spec);
    var eq := EqPrefix(c.columns, spec.filters);
    var i :| 0 <= i < |Candidates(t)| && Candidates(t)[i] == c;
    assert InStep(s, t, Candidates(t)[i]);
    assert Serves(c, spec, OrderColumns(order));
    forall j | 0 <= j < |eq| ensures Regular(eq[j]) {
      assert Pins(spec.filters[PinOf(spec.filters, c.columns[j])]);
    }
  }

  ghost function PlanHits(s: State, t: TableInfo, spec: QuerySpec, lo: Bytes, hi: Option<Bytes>): seq<Row>
    requires Ready(s, t, spec)
  {
    var c := Chosen(t, spec).value;
    PlanKeepsFilters(c, spec.filters, map[]);
    Hits(KeyspaceOf(s, KeyspaceId(t.name, c.id)), lo, hi, false, RowTest(ResidualFrom(c.columns, spec.filters, 0)))
  }

  ghost function GroupLoOf(t: TableInfo, spec: QuerySpec): Bytes
    requires Chosen(t, spec).Some?
  {
    EncodeKey(EqPrefix(Chosen(t, spec).value.columns, spec.filters))
  }

  ghost function GroupHiOf(t: TableInfo, spec: QuerySpec): Option<Bytes>
    requires Chosen(t, spec).Some?
  {
    GroupHi(EqPrefix(Chosen(t, spec).value.columns, spec.filters))
  }

  /** A row found in a sub-range of the group: matching, plain, pinned, and keyed in the range. */
  lemma FoundRow(s: State, t: TableInfo, spec: QuerySpec, lo: Bytes, hi: Option<Bytes>, r: Row)
    requires Ready(s, t, spec)
    requires forall k: Bytes :: InRange(k, lo, hi) ==> InRange(k, GroupLoOf(t, spec), GroupHiOf(t, spec))
    ensures var c := Chosen(t, spec).value;
            r in PlanHits(s, t, spec, lo, hi) <==>
              r in MatchingRows(s, t, spec) && InRange(RowKey(c.columns, r), lo, hi)
  {
    var c, order := Chosen(t, spec).value, EffectiveOrder(t, spec);
    var eq := EqPrefix(c.columns, spec.filters);
    var ks := KeyspaceOf(s, KeyspaceId(t.name, c.id));
    var residual := ResidualFrom(c.columns, spec.filters, 0);
    ChoiceLeads(s, t, spec);
    PlanKeepsFilters(c, spec.filters, r);
    HitsMember(ks, lo, hi, RowTest(residual), r);
    InStepRows(s, t, c);
    if r in Rows(s, t) {
      assert Orderable(c, |EqPrefix(c.columns, spec.filters)|, order, r);
      GroupHoldsPinned(c, eq, order, r);
      var k :| k in ks && ks[k].row == r;
      assert k == RowKey(c.columns, r);
    }
  }

  function RowMore(order: seq<OrderKey>): (Row, Row) -> bool {
    (a: Row, b: Row) => CompareRows(b, a, order) < 0
  }

  lemma ReverseAscends(rows: seq<Row>, order: seq<OrderKey>)
    requires Ascending(rows, RowMore(order))
    ensures Ascending(Reverse(rows), RowLess(order))
  {
    var r := Reverse(rows);
    forall i, j | 0 <= i < j < |r| ensures RowLess(order)(r[i], r[j]) {
      assert RowMore(order)(rows[|rows| - 1 - j], rows[|rows| - 1 - i]);
    }
  }

  lemma VisitsOrdered(s: State, t: TableInfo, spec: QuerySpec)
    requires Ready(s, t, spec)
    ensures var c, order := Chosen(t, spec).value, EffectiveOrder(t, spec);
            Ascending(RowsOf(Visits(KeyspaceOf(s, KeyspaceId(t.name, c.id)), GroupLoOf(t, spec), GroupHiOf(t, spec), false)),
                      if AllDescending(order) then RowMore(order) else RowLess(order))
  {
    hide Lex.Compare, InRange, Rekeys;
    var c, order := Chosen(t, spec).value, EffectiveOrder(t, spec);
    var eq := EqPrefix(c.columns, spec.filters);
    var ks := KeyspaceOf(s, KeyspaceId(t.name, c.id));
    var keys := KeyRange(ks, GroupLoOf(t, spec), GroupHiOf(t, spec));
    var rows := RowsOf(Visits(ks, GroupLoOf(t, spec), GroupHiOf(t, spec), false));
    ChoiceLeads(s, t, spec);
    forall i | 0 <= i < |rows|
      ensures Orderable(c, |eq|, order, rows[i]) && Pinned(c, eq, rows[i]) && RowKey(c.columns, rows[i]) == keys[i]
    {
      assert keys[i] in keys;
      VisitedRow(s, t, spec, keys[i]);
    }
    forall i, j | 0 <= i < j < |rows|
      ensures (if AllDescending(order) then RowMore(order) else RowLess(order))(rows[i], rows[j])
    {
      GroupOrder(c, eq, order, AllDescending(order), rows[i], rows[j]);
      CompareRowsFlips(rows[i], rows[j], order);
      assert KeyLess(keys[i], keys[j]);
    }
  }

  lemma VisitedRow(s: State, t: TableInfo, spec: QuerySpec, k: Bytes)
    requires Ready(s, t, spec)
    requires var ks := KeyspaceOf(s, KeyspaceId(t.name, Chosen(t, spec).value.id));
             k in ks && InRange(k, GroupLoOf(t, spec), GroupHiOf(t, spec))
    ensures var c := Chosen(t, spec).value;
            var r := KeyspaceOf(s, KeyspaceId(t.name, c.id))[k].row;
            && Orderable(c, |EqPrefix(c.columns, spec.filters)|, EffectiveOrder(t, spec), r)
            && Pinned(c, EqPrefix(c.columns, spec.filters), r) && RowKey(c.columns, r) == k
  {
    var c, order := Chosen(t, spec).value, EffectiveOrder(t, spec);
    var ks := KeyspaceOf(s, KeyspaceId(t.name, c.id));
    ChoiceLeads(s, t, spec);
    InStepRows(s, t, c);
    assert ks[k].row in RowSet(ks);
    GroupHoldsPinned(c, EqPrefix(c.columns, spec.filters), order, ks[k].row);
  }

  /** Main result: the passing rows of the group, in key order, are the answer, or the
      answer backwards when the order is descending. */
  lemma GroupIsAnswer(s: State, t: TableInfo, spec: QuerySpec)
    requires Ready(s, t, spec)
    ensures PlanHits(s, t, spec, GroupLoOf(t, spec), GroupHiOf(t, spec)) ==
            if AllDescending(EffectiveOrder(t, spec)) then Reverse(Answer(s, t, spec)) else Answer(s, t, spec)
  {
    hide Lex.Compare, InRange, Rekeys, Visits, Select;
    var c, order := Chosen(t, spec).value, EffectiveOrder(t, spec);
    var lo, hi := GroupLoOf(t, spec), GroupHiOf(t, spec);
    var ks := KeyspaceOf(s, KeyspaceId(t.name, c.id));
    var found := PlanHits(s, t, spec, lo, hi);
    VisitsOrdered(s, t, spec);
    PlanKeepsFilters(c, spec.filters, map[]);
    var test := RowTest(ResidualFrom(c.columns, spec.filters, 0));
    SelectAscending(RowsOf(Visits(ks, lo, hi, false)), test, if AllDescending(order) then RowMore(order) else RowLess(order));
    forall r ensures r in found <==> r in MatchingRows(s, t, spec) {
      FoundInGroup(s, t, spec, r);
    }
    if AllDescending(order) {
      ReverseAscends(found, order);
      ReverseTake(found, 0);
      AnswerUnique(s, t, spec, Reverse(found));
    } else {
      AnswerUnique(s, t, spec, found);
    }
  }

  lemma FoundInGroup(s: State, t: TableInfo, spec: QuerySpec, r: Row)
    requires Ready(s, t, spec)
    ensures r in PlanHits(s, t, spec, GroupLoOf(t, spec), GroupHiOf(t, spec)) <==> r in MatchingRows(s, t, spec)
  {
    var c, order := Chosen(t, spec).value, EffectiveOrder(t, spec);
    FoundRow(s, t, spec, GroupLoOf(t, spec), GroupHiOf(t, spec), r);
    if r in MatchingRows(s, t, spec) {
      ChoiceLeads(s, t, spec);
      PlanKeepsFilters(c, spec.filters, r);
      GroupHoldsPinned(c, EqPrefix(c.columns, spec.filters), order, r);
    }
  }

  // ---------------------------------------------------------------- the anchor

  /** The physical key of a sort-key tuple in the plan's keyspace. */
  function AnchorKey(t: TableInfo, spec: QuerySpec, k: seq<Scalar>): Bytes
    requires Chosen(t, spec).Some?
  {
    EncodeKey(EqPrefix(Chosen(t, spec).value.columns, spec.filters) + k)
  }

  lemma AnchorInGroup(t: TableInfo, spec: QuerySpec, k: seq<Scalar>)
    requires Chosen(t, spec).Some?
    ensures InRange(AnchorKey(t, spec, k), GroupLoOf(t, spec), GroupHiOf(t, spec))
    ensures InRange(Successor(AnchorKey(t, spec, k)), GroupLoOf(t, spec), GroupHiOf(t, spec))
  {
    var eq := EqPrefix(Chosen(t, spec).value.columns, spec.filters);
    EncodeKeyAppend(eq, k);
    GroupRange(eq, AnchorKey(t, spec, k));
    GroupRange(eq, Successor(AnchorKey(t, spec, k)));
  }

  lemma SubRanges(lo: Bytes, at: Bytes, hi: Option<Bytes>)
    requires InRange(at, lo, hi)
    ensures !Lex.Less(at, lo) && (hi.Some? ==> !Lex.Less(hi.value, at))
    ensures forall k: Bytes :: InRange(k, lo, Some(at)) ==> InRange(k, lo, hi)
    ensures forall k: Bytes :: InRange(k, at, hi) ==> InRange(k, lo, hi)
  {
    hide Lex.Compare;
    if hi.Some? {
      Lex.CompareFlips(at, hi.value);
    }
    forall k: Bytes | InRange(k, lo, Some(at)) ensures InRange(k, lo, hi) {
      if hi.Some? {
        Lex.LessTransitive(k, at, hi.value);
      }
    }
    forall k: Bytes | InRange(k, at, hi) ensures InRange(k, lo, hi) {
      Lex.CompareFlips(k, at);
      Lex.CompareFlips(at, lo);
      Lex.CompareFlips(k, lo);
      Lex.LessTransitive(lo, at, k);
    }
  }

  lemma {:induction false} FirstAtSplit(x: seq<Row>, y: seq<Row>, a: Row, order: seq<OrderKey>)
    requires forall r :: r in x ==> CompareRows(r, a, order) < 0
    requires forall r :: r in y ==> CompareRows(r, a, order) >= 0
    ensures FirstAtOrAfter(x + y, a, order) == |x|
  {
    if x == [] {
      assert x + y == y;
      assert forall j :: 0 <= j < |y| ==> y[j] in y;
    } else {
      assert x[0] in x;
      FirstAtSplit(x[1..], y, a, order);
      assert (x + y)[1..] == x[1..] + y;
    }
  }

  /** How a matching row lies to the anchor, in keys and in the effective order. */
  lemma RowAgainstAnchor(s: State, t: TableInfo, spec: QuerySpec, k: seq<Scalar>, a: Row, r: Row)
    requires Ready(s, t, spec) && PlainTuple(k) && KeyOf(a, EffectiveOrder(t, spec)) == k
    requires r in MatchingRows(s, t, spec)
    ensures var order := EffectiveOrder(t, spec);
            Lex.Compare(RowKey(Chosen(t, spec).value.columns, r), AnchorKey(t, spec, k)) ==
            if AllDescending(order) then -CompareRows(r, a, order) else CompareRows(r, a, order)
  {
    var c, order := Chosen(t, spec).value, EffectiveOrder(t, spec);
    ChoiceLeads(s, t, spec);
    PlanKeepsFilters(c, spec.filters, r);
    GroupKeyCompare(c, EqPrefix(c.columns, spec.filters), order, r, k);
    CompareRowsIsTuples(r, a, order, AllDescending(order));
  }

  /** The key at which the group is cut: reverse windows cut just after the anchor. */
  function CutKey(t: TableInfo, spec: QuerySpec, k: seq<Scalar>): Bytes
    requires Chosen(t, spec).Some?
  {
    if AllDescending(EffectiveOrder(t, spec)) then Successor(AnchorKey(t, spec, k)) else AnchorKey(t, spec, k)
  }

  /** The two sides of the cut are the answer before the anchor and from it on, with no row
      lost or doubled. */
  lemma AnchorSplits(s: State, t: TableInfo, spec: QuerySpec, k: seq<Scalar>, a: Row)
    requires Ready(s, t, spec) && PlainTuple(k) && KeyOf(a, EffectiveOrder(t, spec)) == k
    ensures var order, d := EffectiveOrder(t, spec), Answer(s, t, spec);
            var i := FirstAtOrAfter(d, a, order);
            var low := PlanHits(s, t, spec, GroupLoOf(t, spec), Some(CutKey(t, spec, k)));
            var high := PlanHits(s, t, spec, CutKey(t, spec, k), GroupHiOf(t, spec));
            if AllDescending(order) then low == Reverse(d[i..]) && high == Reverse(d[..i])
            else low == d[..i] && high == d[i..]
  {
    hide Lex.Compare, InRange, Rekeys, Visits, Select, Consistent, PlainIndex, Hits, Answer;
    var c, order, d := Chosen(t, spec).value, EffectiveOrder(t, spec), Answer(s, t, spec);
    var lo, cut, hi := GroupLoOf(t, spec), CutKey(t, spec, k), GroupHiOf(t, spec);
    AnchorInGroup(t, spec, k);
    SubRanges(lo, cut, hi);
    var low, high := PlanHits(s, t, spec, lo, Some(cut)), PlanHits(s, t, spec, cut, hi);
    GroupIsAnswer(s, t, spec);
    CutHits(s, t, spec, lo, cut, hi);
    forall r | r in low ensures CompareRows(r, a, order) < 0 <==> !AllDescending(order) {
      CutRow(s, t, spec, k, a, r, true);
    }
    forall r | r in high ensures CompareRows(r, a, order) < 0 <==> AllDescending(order) {
      CutRow(s, t, spec, k, a, r, false);
    }
    ReverseTake(low, 0);
    ReverseTake(high, 0);
    if AllDescending(order) {
      ReverseTake(d, 0);
      ReverseConcat(low, high);
      FirstAtSplit(Reverse(high), Reverse(low), a, order);
    } else {
      FirstAtSplit(low, high, a, order);
    }
  }

  lemma ReverseConcat<T(!new)>(a: seq<T>, b: seq<T>)
    ensures Reverse(a + b) == Reverse(b) + Reverse(a)
  {
  }

  lemma CutHits(s: State, t: TableInfo, spec: QuerySpec, lo: Bytes, cut: Bytes, hi: Option<Bytes>)
    requires Ready(s, t, spec) && InRange(cut, lo, hi)
    ensures PlanHits(s, t, spec, lo, hi) == PlanHits(s, t, spec, lo, Some(cut)) + PlanHits(s, t, spec, cut, hi)
  {
    hide Hits;
    var c := Chosen(t, spec).value;
    SubRanges(lo, cut, hi);
    PlanKeepsFilters(c, spec.filters, map[]);
    HitsSplit(KeyspaceOf(s, KeyspaceId(t.name, c.id)), lo, cut, hi, RowTest(ResidualFrom(c.columns, spec.filters, 0)));
  }

  /** A row found below the cut precedes the anchor key, or does not follow it in reverse. */
  lemma CutRow(s: State, t: TableInfo, spec: QuerySpec, k: seq<Scalar>, a: Row, r: Row, below: bool)
    requires Ready(s, t, spec) && PlainTuple(k) && KeyOf(a, EffectiveOrder(t, spec)) == k
    requires if below then r in PlanHits(s, t, spec, GroupLoOf(t, spec), Some(CutKey(t, spec, k)))
             else r in PlanHits(s, t, spec, CutKey(t, spec, k), GroupHiOf(t, spec))
    ensures CompareRows(r, a, EffectiveOrder(t, spec)) < 0 <==> below != AllDescending(EffectiveOrder(t, spec))
  {
    hide Lex.Compare, Rekeys, Consistent, PlainIndex, Hits, EncodeKey;
    var c, order := Chosen(t, spec).value, EffectiveOrder(t, spec);
    var lo, cut, hi := GroupLoOf(t, spec), CutKey(t, spec, k), GroupHiOf(t, spec);
    AnchorInGroup(t, spec, k);
    SubRanges(lo, cut, hi);
    if below {
      FoundRow(s, t, spec, lo, Some(cut), r);
    } else {
      FoundRow(s, t, spec, cut, hi, r);
    }
    RowAgainstAnchor(s, t, spec, k, a, r);
    SuccessorIsNext(AnchorKey(t, spec, k), RowKey(c.columns, r));
  }

  /** A key anchor resolves by point lookup exactly when its row is in the answer, and then
      its position is where the row's own sort key falls. */
  lemma KeyAnchorSpot(s: State, t: TableInfo, spec: QuerySpec, key: Scalar)
    requires Consistent(s, t) && RegularPks(s, t) && ValidFilters(spec.filters) && Regular(key)
    ensures var d, p, k := Answer(s, t, spec), Primary(s, t), EncodeKey([key]);
            var i := FindPk(d, t.pk, key);
            && (i < |d| <==> k in p && Matches(p[k].row, spec.filters))
            && (i < |d| ==> FirstAtOrAfter(d, p[k].row, EffectiveOrder(t, spec)) == i && p[k].row in Rows(s, t))
  {
    hide Lex.Compare, EncodeKey, Matches, Consistent, EffectiveOrder, CompareRows, CompareScalar, FirstAtOrAfter;
    var d, p, k := Answer(s, t, spec), Primary(s, t), EncodeKey([key]);
    var i := FindPk(d, t.pk, key);
    if k in p && Matches(p[k].row, spec.filters) {
      HeldRow(s, t, key);
      var h := p[k].row;
      assert h in d;
      var m :| 0 <= m < |d| && d[m] == h;
      RegularEqual(key, key);
    }
    if i < |d| {
      assert d[i] in d;
      RegularEqual(Get(d[i], t.pk), key);
      RowIsHeld(s, t, d[i]);
      AtOwnPlace(d, i, EffectiveOrder(t, spec));
    }
  }

  lemma RowIsHeld(s: State, t: TableInfo, row: Row)
    requires Consistent(s, t) && row in Rows(s, t)
    ensures var k := EncodeKey([Get(row, t.pk)]); k in Primary(s, t) && Primary(s, t)[k].row == row
  {
    hide EncodeKey;
    var p := Primary(s, t);
    assert InStep(s, t, Candidates(t)[0]);
    assert TupleOf([t.pk], row) == [Get(row, t.pk)];
    var j :| j in p && p[j].row == row;
    assert p[RowKey([t.pk], p[j].row)] == p[j];
  }

  lemma HeldRow(s: State, t: TableInfo, key: Scalar)
    requires Consistent(s, t) && EncodeKey([key]) in Primary(s, t)
    ensures var h := Primary(s, t)[EncodeKey([key])].row;
            h in Rows(s, t) && Get(h, t.pk) == key
  {
    var h := Primary(s, t)[EncodeKey([key])].row;
    assert InStep(s, t, Candidates(t)[0]);
    assert h in Rows(s, t);
    KeyInjective([key], TupleOf([t.pk], h));
  }

  lemma AtOwnPlace(d: seq<Row>, i: nat, order: seq<OrderKey>)
    requires i < |d| && Ascending(d, RowLess(order))
    ensures FirstAtOrAfter(d, d[i], order) == i
  {
    CompareRowsFlips(d[i], d[i], order);
    assert forall j :: 0 <= j < i ==> RowLess(order)(d[j], d[i]);
  }
}
