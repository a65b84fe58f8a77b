/** A table in the store: one primary keyspace and, per index, the same rows keyed by the
    index columns (packages/engine/src/lsm/types.ts, packages/engine/src/engine.ts). */
module Database {
  import Lex
  import opened Values
  import opened Wrappers
  import opened Keys
  import opened Sorting
  import opened Store
  import opened Schema
  import Query

  function TupleOf(columns: seq<string>, row: Row): (k: seq<Scalar>)
    ensures |k| == |columns|
    ensures forall i :: 0 <= i < |columns| ==> k[i] == Get(row, columns[i])
  {
    seq(|columns|, i requires 0 <= i < |columns| => Get(row, columns[i]))
  }

  function RowKey(columns: seq<string>, row: Row): Bytes {
    EncodeKey(TupleOf(columns, row))
  }

  function Primary(s: State, t: TableInfo): Keyspace {
    KeyspaceOf(s, KeyspaceId(t.name, PRIMARY))
  }

  /** `ks` holds exactly the rows of the primary keyspace, keyed by `columns`. */
  ghost predicate Rekeys(ks: Keyspace, primary: Keyspace, pk: string, columns: seq<string>) {
    && (forall k :: k in ks ==>
          && k == RowKey(columns, ks[k].row)
          && ks[k].pk == Get(ks[k].row, pk)
          && RowKey([pk], ks[k].row) in primary
          && primary[RowKey([pk], ks[k].row)] == ks[k])
    && (forall k :: k in primary ==>
          && RowKey(columns, primary[k].row) in ks
          && ks[RowKey(columns, primary[k].row)] == primary[k])
  }

  /** Every keyspace of the table is in step with the primary one. */
  ghost predicate Consistent(s: State, t: TableInfo) {
    forall i :: 0 <= i < |Query.Candidates(t)| ==> InStep(s, t, Query.Candidates(t)[i])
  }

  ghost predicate InStep(s: State, t: TableInfo, c: Query.Candidate) {
    Rekeys(KeyspaceOf(s, KeyspaceId(t.name, c.id)), Primary(s, t), t.pk, c.columns)
  }

  function RowSet(ks: Keyspace): set<Row> {
    set k | k in ks :: ks[k].row
  }

  /** The rows of the table. */
  function Rows(s: State, t: TableInfo): set<Row> {
    RowSet(Primary(s, t))
  }

  /** Primary keys are neither NaN nor -0, so comparing tells them apart. */
  ghost predicate RegularPks(s: State, t: TableInfo) {
    forall r :: r in Rows(s, t) ==> Regular(Get(r, t.pk))
  }

  ghost predicate RegularRows(s: State, t: TableInfo) {
    forall r :: r in Rows(s, t) ==> RegularRow(r)
  }

  lemma RegularGet(row: Row, column: string)
    requires RegularRow(row)
    ensures Regular(Get(row, column))
  {
  }

  lemma RegularRowsPks(s: State, t: TableInfo)
    requires RegularRows(s, t)
    ensures RegularPks(s, t)
  {
    forall r | r in Rows(s, t) ensures Regular(Get(r, t.pk)) {
      RegularGet(r, t.pk);
    }
  }

  /** Two rows of one table with the same primary key are one row. */
  lemma SamePkSameRow(s: State, t: TableInfo, a: Row, b: Row)
    requires Consistent(s, t)
    requires a in Rows(s, t) && b in Rows(s, t) && Get(a, t.pk) == Get(b, t.pk)
    ensures a == b
  {
    assert InStep(s, t, Query.Candidates(t)[0]);
    var p := Primary(s, t);
    var j :| j in p && p[j].row == a;
    var k :| k in p && p[k].row == b;
    assert TupleOf([t.pk], a) == TupleOf([t.pk], b);
  }

  /** Every keyspace in step holds the rows of the table. */
  lemma InStepRows(s: State, t: TableInfo, c: Query.Candidate)
    requires InStep(s, t, c)
    ensures RowSet(KeyspaceOf(s, KeyspaceId(t.name, c.id))) == Rows(s, t)
  {
    var ks, p := KeyspaceOf(s, KeyspaceId(t.name, c.id)), Primary(s, t);
    forall r ensures r in RowSet(ks) <==> r in RowSet(p) {
      if r in RowSet(ks) {
        var k :| k in ks && ks[k].row == r;
        assert p[RowKey([t.pk], ks[k].row)].row == r;
      }
      if r in RowSet(p) {
        var k :| k in p && p[k].row == r;
        assert ks[RowKey(c.columns, p[k].row)].row == r;
      }
    }
  }

  // ---------------------------------------------------------------- the answer to a query

  function RowLess(order: seq<OrderKey>): (Row, Row) -> bool {
    (a: Row, b: Row) => CompareRows(a, b, order) < 0
  }

  /** Every order compares rows by a strict order. */
  lemma OrderLaws(order: seq<OrderKey>)
    ensures Asymmetric(RowLess(order)) && Transitive(RowLess(order))
  {
    forall a: Row, b: Row ensures RowLess(order)(a, b) ==> !RowLess(order)(b, a) {
      CompareRowsFlips(a, b, order);
    }
    forall a: Row, b: Row, c: Row | RowLess(order)(a, b) && RowLess(order)(b, c) ensures RowLess(order)(a, c) {
      CompareRowsTransitive(a, b, c, order);
    }
  }

  /** Rows of the table with regular keys are strictly ordered by any order that names the primary key. */
  lemma RowsOrdered(s: State, t: TableInfo, rows: set<Row>, order: seq<OrderKey>)
    requires Consistent(s, t) && RegularPks(s, t) && rows <= Rows(s, t) && Query.NamesPk(order, t.pk)
    ensures Orders(rows, RowLess(order))
  {
    var less := RowLess(order);
    OrderLaws(order);
    forall a, b | a in rows && b in rows && a != b ensures less(a, b) || less(b, a) {
      CompareRowsFlips(a, b, order);
      if CompareRows(a, b, order) == 0 {
        var i :| 0 <= i < |order| && order[i].column == t.pk;
        CompareRowsEqual(a, b, order, i);
        RegularEqual(Get(a, t.pk), Get(b, t.pk));
        SamePkSameRow(s, t, a, b);
      }
    }
  }

  function MatchingRows(s: State, t: TableInfo, spec: Query.QuerySpec): set<Row>
    requires Query.ValidFilters(spec.filters)
  {
    set r | r in Rows(s, t) && Query.Matches(r, spec.filters)
  }

  /** The plain meaning of a query: its matching rows in effective order. */
  ghost function Answer(s: State, t: TableInfo, spec: Query.QuerySpec): (d: seq<Row>)
    requires Consistent(s, t) && RegularPks(s, t) && Query.ValidFilters(spec.filters)
    ensures forall r :: r in d <==> r in MatchingRows(s, t, spec)
    ensures Ascending(d, RowLess(Query.EffectiveOrder(t, spec)))
    ensures |d| == |MatchingRows(s, t, spec)|
  {
    RowsOrdered(s, t, MatchingRows(s, t, spec), Query.EffectiveOrder(t, spec));
    Arrange(MatchingRows(s, t, spec), RowLess(Query.EffectiveOrder(t, spec)))
  }

  lemma AnswerUnique(s: State, t: TableInfo, spec: Query.QuerySpec, a: seq<Row>)
    requires Consistent(s, t) && RegularPks(s, t) && Query.ValidFilters(spec.filters)
    requires forall r :: r in a <==> r in MatchingRows(s, t, spec)
    requires Ascending(a, RowLess(Query.EffectiveOrder(t, spec)))
    ensures a == Answer(s, t, spec)
  {
    RowsOrdered(s, t, MatchingRows(s, t, spec), Query.EffectiveOrder(t, spec));
    AscendingUnique(a, Answer(s, t, spec), RowLess(Query.EffectiveOrder(t, spec)));
  }
}
