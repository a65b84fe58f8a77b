/** What each filter operator means for a row (packages/engine/src/query.ts). */
module Filters {
  import Lex
  import opened Values
  import opened Wrappers
  import opened Keys
  import opened Schema
  import opened Store
  import opened Query

  // ---------------------------------------------------------------- comparisons

  /** The filter `column op v`. */
  function Test(column: string, op: CompareOp, v: Scalar): Filter {
    Filter(column, op, One(v))
  }

  predicate Comparison(op: CompareOp) {
    op != In && op != Like
  }

  /** Ordering by the column alone. */
  function By(column: string): seq<OrderKey> {
    [OrderKey(column, false)]
  }

  /** A row passes a comparison with the value another row holds exactly when it sorts so
      against that row by the column: `<` strictly before it, `=` neither before nor after. */
  lemma ComparisonsAreOrder(row: Row, other: Row, column: string)
    requires Finite(Get(other, column))
    ensures var v := Get(other, column);
            && (Passes(row, Test(column, Lt, v)) <==> CompareRows(row, other, By(column)) < 0)
            && (Passes(row, Test(column, Gt, v)) <==> CompareRows(other, row, By(column)) < 0)
            && (Passes(row, Test(column, Le, v)) <==> !(CompareRows(other, row, By(column)) < 0))
            && (Passes(row, Test(column, Ge, v)) <==> !(CompareRows(row, other, By(column)) < 0))
            && (Passes(row, Test(column, Eq, v)) <==> CompareRows(row, other, By(column)) == 0)
            && (Passes(row, Test(column, Ne, v)) <==> CompareRows(row, other, By(column)) != 0)
  {
    hide CompareScalar, Finite;
    CompareRowsFlips(row, other, By(column));
    assert By(column)[1..] == [];
  }

  /** On numbers the comparisons are those of the real values. */
  lemma NumbersCompare(row: Row, column: string, d: Double)
    requires Get(row, column).Num? && !Get(row, column).d.NaN() && d.exp < 2047
    ensures var x := Get(row, column).d.Scaled();
            && (Passes(row, Test(column, Lt, Num(d))) <==> x < d.Scaled())
            && (Passes(row, Test(column, Le, Num(d))) <==> x <= d.Scaled())
            && (Passes(row, Test(column, Eq, Num(d))) <==> x == d.Scaled())
            && (Passes(row, Test(column, Ne, Num(d))) <==> x != d.Scaled())
            && (Passes(row, Test(column, Ge, Num(d))) <==> x >= d.Scaled())
            && (Passes(row, Test(column, Gt, Num(d))) <==> x > d.Scaled())
  {
    hide Magnitude;
  }

  /** A column left out or null comes before every value and equals only null. */
  lemma NullComesFirst(row: Row, column: string, v: Scalar)
    requires Get(row, column).Null? && Finite(v)
    ensures Passes(row, Test(column, Lt, v)) <==> !v.Null?
    ensures Passes(row, Test(column, Eq, v)) <==> v.Null?
    ensures !Passes(row, Test(column, Gt, v))
  {
  }

  /** `in` is equality with some member. */
  lemma InIsSomeEqual(row: Row, column: string, vs: seq<Scalar>)
    requires ValidFilter(Filter(column, In, Many(vs)))
    ensures Passes(row, Filter(column, In, Many(vs))) <==>
            exists i :: 0 <= i < |vs| && ValidFilter(Test(column, Eq, vs[i])) && Passes(row, Test(column, Eq, vs[i]))
  {
    hide CompareScalar;
    assert forall i :: 0 <= i < |vs| ==> Finite(vs[i]);
  }

  /** Filters are joined by "and". */
  lemma FiltersJoin(row: Row, a: seq<Filter>, b: seq<Filter>)
    requires ValidFilters(a) && ValidFilters(b)
    ensures ValidFilters(a + b)
    ensures Matches(row, a + b) <==> Matches(row, a) && Matches(row, b)
    ensures |a| == 1 ==> (Matches(row, a) <==> Passes(row, a[0]))
  {
    hide Passes, ValidFilter;
    var c := a + b;
    assert forall i :: 0 <= i < |a| ==> c[i] == a[i];
    assert forall i :: 0 <= i < |b| ==> c[|a| + i] == b[i];
    if Matches(row, a + b) {
      forall i | 0 <= i < |a| ensures Passes(row, a[i]) {
        assert Passes(row, c[i]);
      }
      forall i | 0 <= i < |b| ensures Passes(row, b[i]) {
        assert Passes(row, c[|a| + i]);
      }
    }
  }

  // ---------------------------------------------------------------- which filters are accepted

  /** The double of magnitude 2^1024, in the units of `Scaled`: the first beyond the finite ones. */
  const BEYOND: int := HIDDEN_BIT * Pow2(2046)

  /** A value is accepted unless it is NaN or an infinity. */
  lemma FiniteExactly(v: Scalar)
    ensures Finite(v) <==> (v.Num? ==> !v.d.NaN() && -BEYOND < v.d.Scaled() < BEYOND)
  {
    if v.Num? {
      var d := v.d;
      if d.exp < 2047 {
        MagnitudeOrder(d.exp, d.mant, 2047, 0);
      } else if d.mant > 0 {
        MagnitudeOrder(2047, 0, d.exp, d.mant);
      }
    }
  }

  /** A comparison takes one such value, `in` a list of them, and `like` a text of at most 256
      code units; a filter list with any other is refused. */
  lemma AcceptedExactly(filters: seq<Filter>)
    ensures ValidFilters(filters) <==>
            forall i :: 0 <= i < |filters| ==>
              var f := filters[i];
              && (f.op == In <==> f.value.Many?)
              && (f.op == Like ==> f.value.v.Str? && |Utf16(f.value.v.t)| < 257)
              && (f.value.One? && f.value.v.Num? ==> !f.value.v.d.NaN() && -BEYOND < f.value.v.d.Scaled() < BEYOND)
              && (f.value.Many? ==> forall k :: 0 <= k < |f.value.vs| && f.value.vs[k].Num? ==>
                    !f.value.vs[k].d.NaN() && -BEYOND < f.value.vs[k].d.Scaled() < BEYOND)
  {
    hide Finite, Utf16;
    forall v ensures Finite(v) <==> (v.Num? ==> !v.d.NaN() && -BEYOND < v.d.Scaled() < BEYOND) {
      FiniteExactly(v);
    }
  }

  // ---------------------------------------------------------------- like

  const PERCENT: int := 37
  const UNDERSCORE: int := 95

  predicate Literal(pattern: seq<int>) {
    PERCENT !in pattern && UNDERSCORE !in pattern
  }

  ghost predicate SplitAt(p: seq<int>, q: seq<int>, s: seq<int>, i: int) {
    0 <= i <= |s| && LikeMatches(p, s[..i]) && LikeMatches(q, s[i..])
  }

  /** A pattern in two parts matches exactly the texts that split into a match of each. */
  lemma {:induction false} LikeSplits(p: seq<int>, q: seq<int>, s: seq<int>)
    ensures LikeMatches(p + q, s) <==> exists i :: SplitAt(p, q, s, i)
    decreases |p| + |s|
  {
    if p == [] {
      assert p + q == q && s[..0] == [] && s[0..] == s;
      assert SplitAt(p, q, s, 0) <==> LikeMatches(q, s);
      assert forall i :: SplitAt(p, q, s, i) ==> s[..i] == [] && i == 0;
    } else {
      assert (p + q)[1..] == p[1..] + q && (p + q)[0] == p[0];
      if p[0] == PERCENT {
        LikeSplits(p[1..], q, s);
        if s != [] {
          LikeSplits(p, q, s[1..]);
        }
      } else if s != [] {
        LikeSplits(p[1..], q, s[1..]);
      }
      SplitsMove(p, q, s);
    }
  }

  /** The first unit of a text is on the left of a split, or the left is empty. */
  lemma SplitsMove(p: seq<int>, q: seq<int>, s: seq<int>)
    requires p != []
    ensures (exists i :: SplitAt(p, q, s, i)) <==>
            if p[0] == PERCENT then (exists i :: SplitAt(p[1..], q, s, i)) || (s != [] && exists i :: SplitAt(p, q, s[1..], i))
            else s != [] && (p[0] == UNDERSCORE || p[0] == s[0]) && exists i :: SplitAt(p[1..], q, s[1..], i)
  {
    forall i | 0 < i <= |s| ensures s[..i][1..] == s[1..][..i - 1] && s[i..] == s[1..][i - 1..] && s[..i][0] == s[0] {
    }
    if i :| SplitAt(p, q, s, i) {
      if p[0] == PERCENT {
        if LikeMatches(p[1..], s[..i]) {
          assert SplitAt(p[1..], q, s, i);
        } else {
          assert SplitAt(p, q, s[1..], i - 1);
        }
      } else {
        assert SplitAt(p[1..], q, s[1..], i - 1);
      }
    }
    if p[0] == PERCENT {
      if i :| SplitAt(p[1..], q, s, i) {
        assert SplitAt(p, q, s, i);
      }
      if s != [] {
        if i :| SplitAt(p, q, s[1..], i) {
          assert SplitAt(p, q, s, i + 1);
        }
      }
    } else if s != [] && (p[0] == UNDERSCORE || p[0] == s[0]) {
      if i :| SplitAt(p[1..], q, s[1..], i) {
        assert SplitAt(p, q, s, i + 1);
      }
    }
  }

  /** `%` matches every text, `_` every text of one unit, and a pattern without them itself. */
  lemma {:induction false} LikePieces(p: seq<int>, s: seq<int>)
    ensures LikeMatches([PERCENT], s)
    ensures LikeMatches([UNDERSCORE], s) <==> |s| == 1
    ensures Literal(p) ==> (LikeMatches(p, s) <==> s == p)
    decreases |p| + |s|
  {
    assert [PERCENT][1..] == [] && [UNDERSCORE][1..] == [];
    if s == [] {
    } else {
      LikePieces(if p == [] then [] else p[1..], s[1..]);
      assert s == [s[0]] + s[1..] && (p != [] ==> p == [p[0]] + p[1..]);
    }
  }

  /** A text that starts with the pattern matches it followed by `%`, and no other does. */
  lemma LikePrefix(p: seq<int>, s: seq<int>)
    requires Literal(p)
    ensures LikeMatches(p + [PERCENT], s) <==> p <= s
  {
    LikeSplits(p, [PERCENT], s);
    if p <= s {
      LikePieces(p, s[..|p|]);
      LikePieces(p, s[|p|..]);
      assert SplitAt(p, [PERCENT], s, |p|);
    }
    if i :| SplitAt(p, [PERCENT], s, i) {
      LikePieces(p, s[..i]);
    }
  }

  /** On a row: a pattern without `%` and `_` passes exactly the rows that hold it, and with `%`
      after it those that hold a text starting with it; nothing but text ever passes. */
  lemma LikeOnRows(row: Row, column: string, t: Text)
    requires Literal(Utf16(t)) && |Utf16(t)| < MAX_LIKE_PATTERN
    ensures var exact, prefix := Test(column, Like, Str(t)), Test(column, Like, Str(t + [PERCENT]));
            && ValidFilter(exact) && ValidFilter(prefix)
            && (Passes(row, exact) <==> Get(row, column) == Str(t))
            && (Passes(row, prefix) <==> Get(row, column).Str? && Utf16(t) <= Utf16(Get(row, column).t))
  {
    hide LikeMatches;
    Utf16Append(t, [PERCENT]);
    OnePercent();
    if Get(row, column).Str? {
      var s := Get(row, column).t;
      LikePieces(Utf16(t), Utf16(s));
      LikePrefix(Utf16(t), Utf16(s));
      if Utf16(s) == Utf16(t) {
        Utf16Injective(s, t);
      }
    }
  }

  lemma OnePercent()
    ensures Utf16([PERCENT]) == [PERCENT]
  {
    var t: Text := [PERCENT];
    assert t[1..] == [];
  }

  lemma {:induction false} Utf16Append(t: Text, u: Text)
    ensures Utf16(t + u) == Utf16(t) + Utf16(u)
  {
    if t == [] {
      assert t + u == u;
    } else {
      assert (t + u)[1..] == t[1..] + u;
      Utf16Append(t[1..], u);
      Lex.ConcatAssociates(Units(t[0]), Utf16(t[1..]), Utf16(u));
    }
  }

  // ---------------------------------------------------------------- the planner

  /** Some filter is `column = scalar`. */
  predicate Pinned(filters: seq<Filter>, column: string) {
    exists j :: 0 <= j < |filters| && filters[j].column == column && filters[j].op == Eq && filters[j].value.One?
  }

  /** The first `n` columns are pinned, the next is not, and the rest are those ordered by. */
  predicate SplitsColumns(columns: seq<string>, filters: seq<Filter>, order: seq<string>, n: nat) {
    && n <= |columns| && (forall i :: 0 <= i < n ==> Pinned(filters, columns[i]))
    && (n < |columns| ==> !Pinned(filters, columns[n]))
    && columns[n..] == order
  }

  ghost predicate Fits(columns: seq<string>, filters: seq<Filter>, order: seq<string>) {
    exists n: nat :: SplitsColumns(columns, filters, order, n)
  }

  lemma PinnedFirst(filters: seq<Filter>, column: string)
    ensures FirstPin(filters, column).Some? <==> Pinned(filters, column)
  {
  }

  lemma FitsServes(c: Candidate, spec: QuerySpec, order: seq<string>)
    ensures Serves(c, spec, order) <==> Fits(c.columns, spec.filters, order)
  {
    hide FirstPin, Pinned;
    var m := PinnedLength(c.columns, spec.filters);
    forall column ensures FirstPin(spec.filters, column).Some? <==> Pinned(spec.filters, column) {
      PinnedFirst(spec.filters, column);
    }
    if Serves(c, spec, order) {
      assert SplitsColumns(c.columns, spec.filters, order, m);
    }
    if n: nat :| SplitsColumns(c.columns, spec.filters, order, n) {
      assert forall i :: 0 <= i < m ==> Pinned(spec.filters, c.columns[i]);
      assert n == m;
    }
  }

  /** A query is planned exactly when its order has one direction and the columns of the primary
      key or of some index are pinned ones followed by those of the order. */
  lemma PlannedByColumns(t: TableInfo, spec: QuerySpec)
    ensures var order := EffectiveOrder(t, spec);
            Plan(t, spec).Some? <==>
              && ((forall i :: 0 <= i < |order| ==> order[i].desc) || (forall i :: 0 <= i < |order| ==> !order[i].desc))
              && (Fits([t.pk], spec.filters, OrderColumns(order)) ||
                  exists k :: 0 <= k < |t.indexes| && Fits(t.indexes[k].columns, spec.filters, OrderColumns(order)))
  {
    hide Serves, Fits, EffectiveOrder, FirstServing;
    var order, cs := OrderColumns(EffectiveOrder(t, spec)), Candidates(t);
    PlannedExactly(t, spec);
    forall i | 0 <= i < |cs| ensures Serves(cs[i], spec, order) <==> Fits(cs[i].columns, spec.filters, order) {
      FitsServes(cs[i], spec, order);
    }
    assert cs[0].columns == [t.pk] && forall k :: 0 <= k < |t.indexes| ==> cs[k + 1].columns == t.indexes[k].columns;
    if k :| 0 <= k < |t.indexes| && Fits(t.indexes[k].columns, spec.filters, order) {
      assert Serves(cs[k + 1], spec, order);
    }
  }

  /** Filter `j` is the first `column = scalar`. */
  predicate FirstPinAt(filters: seq<Filter>, column: string, j: nat) {
    && j < |filters| && filters[j].column == column && filters[j].op == Eq && filters[j].value.One?
    && !Pinned(filters[..j], column)
  }

  /** The leading columns are pinned to these values, each the first one given for its column. */
  ghost predicate PinnedTo(filters: seq<Filter>, columns: seq<string>, values: seq<Scalar>) {
    && |values| <= |columns|
    && forall k :: 0 <= k < |values| ==> exists j: nat :: FirstPinAt(filters, columns[k], j) && values[k] == filters[j].value.v
  }

  /** Candidate `i` is the first that fits. */
  ghost predicate FirstFit(t: TableInfo, spec: QuerySpec, order: seq<string>, i: nat) {
    && i < |Candidates(t)| && Fits(Candidates(t)[i].columns, spec.filters, order)
    && forall j :: 0 <= j < i ==> !Fits(Candidates(t)[j].columns, spec.filters, order)
  }

  /** The plan scans the first keyspace that fits, backward for a descending order, under the
      values its leading columns are pinned to, the first value given for each. */
  lemma PlanIs(t: TableInfo, spec: QuerySpec, p: SeekPlan) returns (i: nat)
    requires Plan(t, spec) == Some(p)
    ensures var order := EffectiveOrder(t, spec);
            && FirstFit(t, spec, OrderColumns(order), i)
            && p.keyspace == KeyspaceId(t.name, Candidates(t)[i].id)
            && (p.reverse <==> forall k :: 0 <= k < |order| ==> order[k].desc)
            && PinnedTo(spec.filters, Candidates(t)[i].columns, p.eqPrefix)
            && |p.eqPrefix| + |order| == |Candidates(t)[i].columns| && p.suffixLen == |order|
  {
    hide Serves, Fits, EffectiveOrder, FirstServing, PinnedLength, FirstPin, PinnedTo, Candidates;
    var order := OrderColumns(EffectiveOrder(t, spec));
    var c := Chosen(t, spec).value;
    i := FirstIndex(Candidates(t), spec, order);
    forall j | 0 <= j <= i ensures Serves(Candidates(t)[j], spec, order) <==> Fits(Candidates(t)[j].columns, spec.filters, order) {
      FitsServes(Candidates(t)[j], spec, order);
    }
    ServesLength(c, spec, order);
    PrefixPinned(c.columns, spec.filters);
  }

  lemma PrefixPinned(columns: seq<string>, filters: seq<Filter>)
    ensures PinnedTo(filters, columns, EqPrefix(columns, filters))
  {
    hide FirstPin, Pinned;
    var eq := EqPrefix(columns, filters);
    forall k | 0 <= k < |eq| ensures exists j: nat :: FirstPinAt(filters, columns[k], j) && eq[k] == filters[j].value.v {
      PinIsFirst(filters, columns[k]);
      var j := PinOf(filters, columns[k]);
      assert FirstPinAt(filters, columns[k], j) && eq[k] == filters[j].value.v;
    }
  }

  lemma ServesLength(c: Candidate, spec: QuerySpec, order: seq<string>)
    requires Serves(c, spec, order)
    ensures PinnedLength(c.columns, spec.filters) + |order| == |c.columns|
  {
    hide PinnedLength;
  }

  lemma PinIsFirst(filters: seq<Filter>, column: string)
    requires FirstPin(filters, column).Some?
    ensures FirstPinAt(filters, column, PinOf(filters, column))
  {
  }

  lemma {:induction false} FirstIndex(cs: seq<Candidate>, spec: QuerySpec, order: seq<string>) returns (i: nat)
    requires FirstServing(cs, spec, order).Some?
    ensures i < |cs| && cs[i] == FirstServing(cs, spec, order).value && Serves(cs[i], spec, order)
    ensures forall j :: 0 <= j < i ==> !Serves(cs[j], spec, order)
  {
    hide Serves;
    if Serves(cs[0], spec, order) {
      i := 0;
    } else {
      i := FirstIndex(cs[1..], spec, order);
      i := i + 1;
      assert forall j :: 0 < j < i ==> cs[j] == cs[1..][j - 1];
    }
  }
}
