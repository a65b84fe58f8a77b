/** One subscription's window, maintained by quick reject and diff (packages/engine/src/ivm.ts). */
module Ivm {
  import opened Values
  import opened Wrappers
  import opened Sorting
  import opened Query
  import opened Window
  import opened EngineModule
  import opened Protocol

  datatype PageOutput = PageOutput(window: WindowResult, pk: string, order: seq<OrderKey>)

  /** The fields of a subscription, as a value. */
  datatype Baseline = Baseline(
    order: seq<OrderKey>,
    last: RowMap,
    lo: Option<Row>,
    hi: Option<Row>,
    hasOlder: bool,
    hasNewer: bool,
    total: int,
    seeded: bool)

  // ---------------------------------------------------------------- quick reject

  /** The row has every pinned value, by `===`. */
  predicate Bound(row: Option<Row>, bindings: seq<Filter>) {
    row.Some? && forall i :: 0 <= i < |bindings| ==> Meets(row.value, bindings[i])
  }

  predicate Meets(row: Row, f: Filter) {
    Pins(f) && Same(Get(row, f.column), f.value.v)
  }

  function Bindings(spec: QuerySpec): seq<Filter> {
    Select(spec.filters, Pins)
  }

  predicate InGroup(spec: QuerySpec, ch: RowChange) {
    ch.table == spec.table &&
    (Bindings(spec) == [] || Bound(ch.after, Bindings(spec)) || Bound(ch.before, Bindings(spec)))
  }

  predicate Fits(row: Option<Row>, spec: QuerySpec)
    requires ValidFilters(spec.filters)
  {
    row.Some? && Matches(row.value, spec.filters)
  }

  /** The row of a change whose place is compared with the window. */
  function Contender(spec: QuerySpec, ch: RowChange): Option<Row>
    requires ValidFilters(spec.filters)
  {
    if Fits(ch.after, spec) then ch.after else if Fits(ch.before, spec) then ch.before else None
  }

  predicate WithinSpan(v: Baseline, row: Row) {
    var belowTop := v.lo.Some? && CompareRows(row, v.lo.value, v.order) < 0;
    var aboveBottom := v.hi.Some? && CompareRows(row, v.hi.value, v.order) > 0;
    !(belowTop && v.hasOlder) && !(aboveBottom && v.hasNewer)
  }

  predicate Visible(v: Baseline, pk: Scalar) {
    PkStr(pk) in v.last.rows
  }

  predicate Disturbs(v: Baseline, spec: QuerySpec, ch: RowChange)
    requires ValidFilters(spec.filters)
  {
    InGroup(spec, ch) && Contender(spec, ch).Some? &&
    ((ch.before.Some? && Visible(v, ch.pk)) || WithinSpan(v, Contender(spec, ch).value))
  }

  predicate CanChange(v: Baseline, spec: QuerySpec, chs: seq<RowChange>)
    requires ValidFilters(spec.filters)
  {
    !v.seeded || exists i :: 0 <= i < |chs| && Disturbs(v, spec, chs[i])
  }

  function NetOf(spec: QuerySpec, ch: RowChange): int
    requires ValidFilters(spec.filters)
  {
    if InGroup(spec, ch) then (if Fits(ch.after, spec) then 1 else 0) - (if Fits(ch.before, spec) then 1 else 0) else 0
  }

  function Net(spec: QuerySpec, chs: seq<RowChange>): int
    requires ValidFilters(spec.filters)
  {
    if chs == [] then 0 else Net(spec, chs[..|chs| - 1]) + NetOf(spec, chs[|chs| - 1])
  }

  function Recount(v: Baseline, spec: QuerySpec, chs: seq<RowChange>): (Baseline, Option<Delta>)
    requires ValidFilters(spec.filters)
  {
    if !v.seeded || Net(spec, chs) == 0 then (v, None)
    else
      var total := v.total + Net(spec, chs);
      (v.(total := total), Some(Delta([], [], v.hasOlder, v.hasNewer, total, true)))
  }

  // ---------------------------------------------------------------- pages

  /** The baseline a page leaves. */
  function BaselineOf(page: PageOutput): Baseline {
    var rows := page.window.rows;
    Baseline(page.order, IndexRows(rows, page.pk),
             if rows == [] then None else Some(rows[0]),
             if rows == [] then None else Some(rows[|rows| - 1]),
             page.window.hasOlder, page.window.hasNewer, page.window.total, true)
  }

  /** JavaScript's field-wise comparison of two rows. */
  predicate RowsEqual(a: Row, b: Row) {
    |a| == |b| && forall k :: k in a ==> k in b && Same(a[k], b[k])
  }

  predicate Fresh(last: RowMap, pk: string, row: Row) {
    var k := KeyIn(row, pk);
    !(k in last.rows && RowsEqual(last.rows[k], row))
  }

  function Upserts(last: RowMap, pk: string, rows: seq<Row>): seq<Row> {
    Select(rows, r => Fresh(last, pk, r))
  }

  lemma UpsertsGrow(last: RowMap, pk: string, rows: seq<Row>, row: Row)
    ensures Upserts(last, pk, rows + [row]) == Upserts(last, pk, rows) + if Fresh(last, pk, row) then [row] else []
    ensures Upserts(last, pk, []) == []
  {
    hide Fresh;
    SelectAppend(rows, [row], r => Fresh(last, pk, r));
  }

  function Removes(last: RowMap, next: RowMap, pk: string): seq<Scalar>
    requires forall i :: 0 <= i < |last.keys| ==> last.keys[i] in last.rows
  {
    RemovesUpTo(last, next, pk, |last.keys|)
  }

  function RemovesUpTo(last: RowMap, next: RowMap, pk: string, n: nat): seq<Scalar>
    requires n <= |last.keys| && forall i :: 0 <= i < |last.keys| ==> last.keys[i] in last.rows
  {
    if n == 0 then []
    else
      RemovesUpTo(last, next, pk, n - 1) +
      if last.keys[n - 1] in next.rows then [] else [Get(last.rows[last.keys[n - 1]], pk)]
  }

  ghost predicate ValidMap(m: RowMap) {
    forall i :: 0 <= i < |m.keys| ==> m.keys[i] in m.rows
  }

  function Diff(v: Baseline, page: PageOutput): Delta
    requires ValidMap(v.last)
  {
    var w := page.window;
    var upserts := Upserts(v.last, page.pk, w.rows);
    var removes := Removes(v.last, IndexRows(w.rows, page.pk), page.pk);
    Delta(upserts, removes, w.hasOlder, w.hasNewer, w.total,
          upserts != [] || removes != [] ||
          v.hasOlder != w.hasOlder || v.hasNewer != w.hasNewer || v.total != w.total)
  }

  function SeedDelta(page: PageOutput): Delta {
    Delta([], [], page.window.hasOlder, page.window.hasNewer, page.window.total, false)
  }

  lemma {:induction false} IndexRowsValid(rows: seq<Row>, pk: string)
    ensures ValidMap(IndexRows(rows, pk))
  {
    if rows == [] {
    } else {
      IndexRowsValid(rows[..|rows| - 1], pk);
    }
  }

  class Subscription {
    const spec: QuerySpec
    var order: seq<OrderKey>
    var last: RowMap
    var lo: Option<Row>
    var hi: Option<Row>
    var hasOlder: bool
    var hasNewer: bool
    var total: int
    var seeded: bool

    ghost function View(): Baseline
      reads this
    {
      Baseline(order, last, lo, hi, hasOlder, hasNewer, total, seeded)
    }

    ghost predicate Valid()
      reads this
    {
      ValidFilters(spec.filters) && ValidMap(last)
    }

    constructor (spec: QuerySpec, order: seq<OrderKey>)
      requires ValidFilters(spec.filters)
      ensures Valid() && this.spec == spec && View() == Baseline(order, EMPTY, None, None, false, false, 0, false)
    {
      this.spec := spec;
      this.order := order;
      last := EMPTY;
      lo, hi := None, None;
      hasOlder, hasNewer := false, false;
      total := 0;
      seeded := false;
    }

    method WindowCanChange(changes: seq<RowChange>) returns (r: bool)
      requires Valid()
      ensures r == CanChange(View(), spec, changes)
    {
      if !seeded {
        return true;
      }
      for i := 0 to |changes|
        invariant forall j :: 0 <= j < i ==> !Disturbs(View(), spec, changes[j])
      {
        var ch := changes[i];
        if InGroup(spec, ch) {
          var cand := Contender(spec, ch);
          if cand.Some? {
            if ch.before.Some? && PkStr(ch.pk) in last.rows {
              return true;
            }
            var belowTop := lo.Some? && CompareRows(cand.value, lo.value, order) < 0;
            var aboveBottom := hi.Some? && CompareRows(cand.value, hi.value, order) > 0;
            if !(belowTop && hasOlder) && !(aboveBottom && hasNewer) {
              return true;
            }
          }
        }
      }
      r := false;
    }

    method TotalOnlyDelta(changes: seq<RowChange>) returns (r: Option<Delta>)
      requires Valid()
      modifies this`total
      ensures Valid() && (View(), r) == Recount(old(View()), spec, changes)
    {
      if !seeded {
        return None;
      }
      var net := 0;
      for i := 0 to |changes|
        invariant net == Net(spec, changes[..i])
      {
        var ch := changes[i];
        assert changes[..i + 1][..i] == changes[..i];
        if InGroup(spec, ch) {
          net := net + (if Fits(ch.after, spec) then 1 else 0) - (if Fits(ch.before, spec) then 1 else 0);
        }
      }
      assert changes[..|changes|] == changes;
      if net == 0 {
        return None;
      }
      total := total + net;
      r := Some(Delta([], [], hasOlder, hasNewer, total, true));
    }

    /** Install a page as the baseline without sending its rows. */
    method SeedBaseline(page: PageOutput) returns (d: Delta)
      requires Valid()
      modifies this
      ensures Valid() && View() == BaselineOf(page) && d == SeedDelta(page)
    {
      var next := EMPTY;
      var rows := page.window.rows;
      for i := 0 to |rows|
        invariant next == IndexRows(rows[..i], page.pk)
      {
        assert rows[..i + 1][..i] == rows[..i];
        next := Put(next, KeyIn(rows[i], page.pk), rows[i]);
      }
      assert rows[..|rows|] == rows;
      IndexRowsValid(rows, page.pk);
      Install(page, next);
      d := SeedDelta(page);
    }

    method Install(page: PageOutput, next: RowMap)
      requires Valid() && next == IndexRows(page.window.rows, page.pk) && ValidMap(next)
      modifies this
      ensures Valid() && View() == BaselineOf(page)
    {
      var rows := page.window.rows;
      order := page.order;
      last := next;
      lo := if rows == [] then None else Some(rows[0]);
      hi := if rows == [] then None else Some(rows[|rows| - 1]);
      hasOlder := page.window.hasOlder;
      hasNewer := page.window.hasNewer;
      total := page.window.total;
      seeded := true;
    }

    /** Index the new rows and collect those the client does not have. */
    method CollectUpserts(rows: seq<Row>, pk: string) returns (next: RowMap, upserts: seq<Row>)
      ensures next == IndexRows(rows, pk) && ValidMap(next)
      ensures upserts == Upserts(last, pk, rows)
    {
      hide Fresh, RowsEqual, Put, KeyIn, Select;
      var held := last;
      next, upserts := EMPTY, [];
      assert Upserts(held, pk, rows[..0]) == [];
      for i := 0 to |rows|
        invariant next == IndexRows(rows[..i], pk)
        invariant upserts == Upserts(held, pk, rows[..i])
      {
        assert rows[..i + 1][..i] == rows[..i];
        assert rows[..i + 1] == rows[..i] + [rows[i]];
        UpsertsGrow(held, pk, rows[..i], rows[i]);
        next := Put(next, KeyIn(rows[i], pk), rows[i]);
        if Fresh(held, pk, rows[i]) {
          upserts := upserts + [rows[i]];
        }
      }
      assert rows[..|rows|] == rows;
      IndexRowsValid(rows, pk);
    }

    method CollectRemoves(next: RowMap, pk: string) returns (removes: seq<Scalar>)
      requires ValidMap(last)
      ensures removes == Removes(last, next, pk)
    {
      removes := [];
      for i := 0 to |last.keys|
        invariant removes == RemovesUpTo(last, next, pk, i)
      {
        if last.keys[i] !in next.rows {
          removes := removes + [Get(last.rows[last.keys[i]], pk)];
        }
      }
    }

    /** Diff a page against what the client last saw. */
    method ApplyPage(page: PageOutput) returns (d: Delta)
      requires Valid()
      modifies this
      ensures Valid() && View() == BaselineOf(page) && d == Diff(old(View()), page)
    {
      var w := page.window;
      var next, upserts := CollectUpserts(w.rows, page.pk);
      var removes := CollectRemoves(next, page.pk);
      var metaChanged := hasOlder != w.hasOlder || hasNewer != w.hasNewer || total != w.total;
      d := Delta(upserts, removes, w.hasOlder, w.hasNewer, w.total, upserts != [] || removes != [] || metaChanged);
      Install(page, next);
    }
  }

  // ---------------------------------------------------------------- the delta carries one page to the next

  lemma RowsEqualRegular(a: Row, b: Row)
    requires RegularRow(a) && RegularRow(b)
    ensures RowsEqual(a, b) <==> a == b
  {
    forall k | k in a && k in b ensures Same(a[k], b[k]) <==> a[k] == b[k] {
      RegularEqual(a[k], b[k]);
    }
    if RowsEqual(a, b) {
      SubsetFull(a.Keys, b.Keys);
    }
  }

  lemma {:induction false} SubsetFull<T>(a: set<T>, b: set<T>)
    requires a <= b && |a| == |b|
    ensures a == b
  {
    if a != {} {
      var x :| x in a;
      SubsetFull(a - {x}, b - {x});
    } else {
      assert b == {};
    }
  }

  ghost predicate RegularSeq(rows: seq<Row>) {
    forall i :: 0 <= i < |rows| ==> RegularRow(rows[i])
  }

  ghost predicate Lists(removes: seq<Scalar>, k: Scalar) {
    exists i :: 0 <= i < |removes| && PkStr(removes[i]) == k
  }

  lemma ListsAppend(a: seq<Scalar>, b: seq<Scalar>, k: Scalar)
    ensures Lists(a + b, k) <==> Lists(a, k) || Lists(b, k)
  {
    hide PkStr;
    var s := a + b;
    assert forall i :: 0 <= i < |a| ==> s[i] == a[i];
    assert forall i :: 0 <= i < |b| ==> s[|a| + i] == b[i];
    if i :| 0 <= i < |s| && PkStr(s[i]) == k {
      assert i >= |a| ==> PkStr(b[i - |a|]) == k;
    }
  }

  lemma {:induction false} RemovesAre(last: RowMap, next: RowMap, pk: string, n: nat, k: Scalar)
    requires n <= |last.keys| && ValidMap(last)
    requires forall i :: 0 <= i < |last.keys| ==> PkStr(Get(last.rows[last.keys[i]], pk)) == last.keys[i]
    ensures Lists(RemovesUpTo(last, next, pk, n), k) <==> k in last.keys[..n] && k !in next.rows
  {
    hide PkStr, Lists;
    if n == 0 {
      NothingListed(k);
    } else {
      RemovesAre(last, next, pk, n - 1, k);
      var key := last.keys[n - 1];
      assert last.keys[..n] == last.keys[..n - 1] + [key];
      ListsAppend(RemovesUpTo(last, next, pk, n - 1), if key in next.rows then [] else [Get(last.rows[key], pk)], k);
      NothingListed(k);
      OneListed(Get(last.rows[key], pk), k);
    }
  }

  lemma NothingListed(k: Scalar)
    ensures !Lists([], k)
  {
  }

  lemma OneListed(gone: Scalar, k: Scalar)
    ensures Lists([gone], k) <==> PkStr(gone) == k
  {
    assert [gone][0] == gone;
  }

  /** Main result: applying a page's delta to the rows of the previous page gives exactly the
      rows of the new one, and no row the client already has is sent. */
  lemma DeltaCarries(prev: seq<Row>, page: PageOutput, v: Baseline)
    requires DistinctKeys(prev, page.pk) && DistinctKeys(page.window.rows, page.pk)
    requires RegularSeq(prev) && RegularSeq(page.window.rows)
    requires v.last == IndexRows(prev, page.pk)
    ensures ValidMap(v.last)
    ensures var d := Diff(v, page);
            && PatchRows(v.last.rows, d.upserts, d.removes, page.pk, false) == IndexRows(page.window.rows, page.pk).rows
            && forall r :: r in d.upserts ==> r !in prev
  {
    hide PkStr, RegularRow, RowsEqual;
    IndexRowsValid(prev, page.pk);
    IndexedRows(prev, page.pk);
    IndexedRows(page.window.rows, page.pk);
    var d, next := Diff(v, page), IndexRows(page.window.rows, page.pk);
    var patched := PatchRows(v.last.rows, d.upserts, d.removes, page.pk, false);
    forall k ensures (k in patched <==> k in next.rows) && (k in patched && k in next.rows ==> patched[k] == next.rows[k]) {
      PatchedKey(prev, page, v, k);
    }
    forall r | r in d.upserts ensures r !in prev {
      if r in prev {
        IndexedMember(prev, page.pk, KeyIn(r, page.pk), r);
        var i :| 0 <= i < |prev| && prev[i] == r;
        RowsEqualRegular(r, r);
      }
    }
  }

  /** A delta is worth sending exactly when the page shows other rows than the one before, or
      another flag or total. */
  lemma ChangedExactly(prev: seq<Row>, page: PageOutput, v: Baseline)
    requires DistinctKeys(prev, page.pk) && DistinctKeys(page.window.rows, page.pk)
    requires RegularSeq(prev) && RegularSeq(page.window.rows)
    requires v.last == IndexRows(prev, page.pk)
    ensures ValidMap(v.last)
    ensures var w := page.window;
            !Diff(v, page).changed <==>
            && (forall r :: r in prev <==> r in w.rows)
            && v.hasOlder == w.hasOlder && v.hasNewer == w.hasNewer && v.total == w.total
  {
    hide PkStr, IndexRows, DistinctKeys, RegularRow, RowsEqual;
    DeltaCarries(prev, page, v);
    var d, rows := Diff(v, page), page.window.rows;
    if d.upserts == [] && d.removes == [] {
      forall r ensures r in prev <==> r in rows {
        IndexedMember(prev, page.pk, KeyIn(r, page.pk), r);
        IndexedMember(rows, page.pk, KeyIn(r, page.pk), r);
      }
    }
    if forall r :: r in prev <==> r in rows {
      assert forall r :: r in d.upserts ==> r in rows;
      NoMembers(d.upserts);
      NothingRemoved(prev, rows, page.pk);
    }
  }

  lemma NoMembers<T(!new)>(s: seq<T>)
    ensures (forall x :: x !in s) ==> s == []
  {
    if s != [] {
      assert s[0] in s;
    }
  }

  lemma NothingRemoved(prev: seq<Row>, rows: seq<Row>, pk: string)
    requires DistinctKeys(prev, pk) && DistinctKeys(rows, pk) && forall r :: r in prev ==> r in rows
    ensures ValidMap(IndexRows(prev, pk)) && Removes(IndexRows(prev, pk), IndexRows(rows, pk), pk) == []
  {
    hide PkStr, IndexRows;
    var last, next := IndexRows(prev, pk), IndexRows(rows, pk);
    IndexRowsValid(prev, pk);
    IndexedRows(prev, pk);
    forall i | 0 <= i < |last.keys| ensures last.keys[i] in next.rows {
      assert prev[i] in prev;
      IndexedMember(rows, pk, KeyIn(prev[i], pk), prev[i]);
    }
    NoneMissing(last, next, pk, |last.keys|);
  }

  lemma {:induction false} NoneMissing(last: RowMap, next: RowMap, pk: string, n: nat)
    requires n <= |last.keys| && ValidMap(last) && forall i :: 0 <= i < n ==> last.keys[i] in next.rows
    ensures RemovesUpTo(last, next, pk, n) == []
  {
    if n > 0 {
      NoneMissing(last, next, pk, n - 1);
    }
  }

  lemma UpsertsDistinct(last: RowMap, pk: string, rows: seq<Row>)
    requires DistinctKeys(rows, pk)
    ensures DistinctKeys(Upserts(last, pk, rows), pk)
  {
    SelectAscending(rows, r => Fresh(last, pk, r), (a, b) => KeyIn(a, pk) != KeyIn(b, pk));
  }

  /** A row sent is a row of the new page, under its own key. */
  lemma SentKeys(last: RowMap, pk: string, rows: seq<Row>, k: Scalar)
    requires DistinctKeys(rows, pk)
    ensures forall i :: 0 <= i < |Upserts(last, pk, rows)| && KeyIn(Upserts(last, pk, rows)[i], pk) == k ==>
              k in IndexRows(rows, pk).rows && IndexRows(rows, pk).rows[k] == Upserts(last, pk, rows)[i]
  {
    var upserts := Upserts(last, pk, rows);
    forall i | 0 <= i < |upserts| && KeyIn(upserts[i], pk) == k
      ensures k in IndexRows(rows, pk).rows && IndexRows(rows, pk).rows[k] == upserts[i]
    {
      assert upserts[i] in upserts;
      IndexedMember(rows, pk, k, upserts[i]);
    }
  }

  /** A row held is kept exactly when its key is still in the new page. */
  lemma KeptKey(prev: seq<Row>, last: RowMap, next: RowMap, pk: string, k: Scalar)
    requires DistinctKeys(prev, pk) && last == IndexRows(prev, pk) && ValidMap(last)
    ensures var kept := RemoveAll(last.rows, Removes(last, next, pk));
            k in kept <==> k in last.rows && k in next.rows
  {
    hide PkStr, IndexRows;
    IndexedRows(prev, pk);
    RemovedKeys(last.rows, Removes(last, next, pk), k);
    RemovesAre(last, next, pk, |last.keys|, k);
    assert last.keys[..|last.keys|] == last.keys;
  }

  lemma PatchedKey(prev: seq<Row>, page: PageOutput, v: Baseline, k: Scalar)
    requires DistinctKeys(prev, page.pk) && DistinctKeys(page.window.rows, page.pk)
    requires RegularSeq(prev) && RegularSeq(page.window.rows)
    requires v.last == IndexRows(prev, page.pk) && ValidMap(v.last)
    ensures var d, next := Diff(v, page), IndexRows(page.window.rows, page.pk).rows;
            var patched := PatchRows(v.last.rows, d.upserts, d.removes, page.pk, false);
            (k in patched <==> k in next) && (k in patched && k in next ==> patched[k] == next[k])
  {
    hide PkStr, RegularRow, RowsEqual, PatchRows, IndexRows, Fresh, Upserts, UpsertAll;
    var pk, rows := page.pk, page.window.rows;
    var next := IndexRows(rows, pk);
    var upserts, removes := Upserts(v.last, pk, rows), Removes(v.last, next, pk);
    var kept := RemoveAll(v.last.rows, removes);
    IndexedRows(prev, pk);
    UpsertsDistinct(v.last, pk, rows);
    UpsertedRows(kept, upserts, pk, k);
    KeptKey(prev, v.last, next, pk, k);
    SentKeys(v.last, pk, rows, k);
    PatchIs(v, page);
    if k in next.rows {
      NewRowSent(prev, page, v, k);
    }
  }

  /** A row of the new page is either sent or already held as it is. */
  lemma NewRowSent(prev: seq<Row>, page: PageOutput, v: Baseline, k: Scalar)
    requires DistinctKeys(prev, page.pk) && DistinctKeys(page.window.rows, page.pk)
    requires RegularSeq(prev) && RegularSeq(page.window.rows)
    requires v.last == IndexRows(prev, page.pk) && k in IndexRows(page.window.rows, page.pk).rows
    ensures var r := IndexRows(page.window.rows, page.pk).rows[k];
            var upserts := Upserts(v.last, page.pk, page.window.rows);
            (exists i :: 0 <= i < |upserts| && upserts[i] == r && KeyIn(upserts[i], page.pk) == k) ||
            (k in v.last.rows && v.last.rows[k] == r)
  {
    hide PkStr, RegularRow, RowsEqual, IndexRows;
    var pk, rows := page.pk, page.window.rows;
    var r := IndexRows(rows, pk).rows[k];
    IndexedMember(rows, pk, k, r);
    if Fresh(v.last, pk, r) {
      assert r in Upserts(v.last, pk, rows);
    } else {
      IndexedMember(prev, pk, k, v.last.rows[k]);
      RowsEqualRegular(v.last.rows[k], r);
    }
  }

  lemma PatchIs(v: Baseline, page: PageOutput)
    requires ValidMap(v.last)
    ensures var d := Diff(v, page);
            PatchRows(v.last.rows, d.upserts, d.removes, page.pk, false) ==
            UpsertAll(RemoveAll(v.last.rows, Removes(v.last, IndexRows(page.window.rows, page.pk), page.pk)),
                      Upserts(v.last, page.pk, page.window.rows), page.pk)
  {
  }
}
