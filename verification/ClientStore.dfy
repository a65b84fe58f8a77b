/** The client's sorted mirror of one paginated subscription (packages/client/src/store.ts). */
module ClientStore {
  import opened Values
  import opened Wrappers
  import opened Sorting
  import opened Query
  import opened Database
  import opened Protocol
  import opened Ivm
  import opened Paginate
  import opened Mirror

  datatype Meta = Meta(total: int, hasOlder: bool, hasNewer: bool, watermark: Option<nat>)

  datatype SubStatus = Loading | Ready | Failed(message: string)

  datatype Snapshot = Snapshot(data: seq<Row>, status: SubStatus, total: int, hasOlder: bool, hasNewer: bool)

  class SubscriptionStore {
    var rows: map<Scalar, Row>
    var sorted: seq<Row>
    var pkColumn: string
    var order: seq<OrderKey>
    var status: SubStatus
    var total: int
    var hasOlder: bool
    var hasNewer: bool
    var watermark: nat
    var snapshot: Snapshot

    ghost predicate Valid()
      reads this
    {
      Mirrors(sorted, rows, pkColumn, order)
    }

    ghost function View(): Held
      reads this
    {
      Held(rows, sorted)
    }

    /** The snapshot shows the current fields. */
    ghost predicate Shown()
      reads this
    {
      snapshot == Snapshot(sorted, status, total, hasOlder, hasNewer)
    }

    constructor ()
      ensures Valid() && Shown() && rows == map[] && sorted == [] && status == Loading && watermark == 0
    {
      rows, sorted := map[], [];
      pkColumn, order := "id", [];
      status := Loading;
      total, hasOlder, hasNewer, watermark := 0, false, false, 0;
      snapshot := Snapshot([], Loading, 0, false, false);
    }

    method SetMeta(pk: string, order: seq<OrderKey>)
      modifies this`pkColumn, this`order
      ensures pkColumn == pk && this.order == order
    {
      pkColumn := pk;
      this.order := order;
    }

    method Recompute()
      modifies this`snapshot
      ensures Shown()
    {
      snapshot := Snapshot(sorted, status, total, hasOlder, hasNewer);
    }

    /** Hydrate from rows held elsewhere; the status stays as it is until live data comes. */
    method Seed(rows: seq<Row>, pk: string, order: seq<OrderKey>, meta: Meta)
      modifies this
      ensures this.rows == IndexRows(rows, pk).rows && sorted == SortRows(rows, order)
      ensures pkColumn == pk && this.order == order && status == old(status) && Shown()
      ensures total == meta.total && hasOlder == meta.hasOlder && hasNewer == meta.hasNewer
      ensures watermark == if meta.watermark.Some? then meta.watermark.value else old(watermark)
      ensures NamesPk(order, pk) && DistinctKeys(rows, pk) ==> Valid()
    {
      hide CompareRows, PkStr, Mirrors, SortRows, DistinctKeys, NamesPk;
      SetMeta(pk, order);
      this.rows := map[];
      for i := 0 to |rows|
        invariant this.rows == IndexRows(rows[..i], pk).rows
        invariant pkColumn == pk && this.order == order && status == old(status) && watermark == old(watermark)
      {
        assert rows[..i + 1][..i] == rows[..i];
        this.rows := this.rows[KeyIn(rows[i], pk) := rows[i]];
      }
      assert rows[..|rows|] == rows;
      sorted := SortRows(rows, order);
      TakeMeta(meta);
      Recompute();
      if NamesPk(order, pk) && DistinctKeys(rows, pk) {
        SeedMirrors(rows, pk, order);
      }
    }

    method TakeMeta(meta: Meta)
      modifies this`total, this`hasOlder, this`hasNewer, this`watermark
      ensures total == meta.total && hasOlder == meta.hasOlder && hasNewer == meta.hasNewer
      ensures watermark == if meta.watermark.Some? then meta.watermark.value else old(watermark)
    {
      total := meta.total;
      hasOlder := meta.hasOlder;
      hasNewer := meta.hasNewer;
      watermark := if meta.watermark.Some? then meta.watermark.value else watermark;
    }

    /** Where a row sorts, by binary search. */
    method LowerBound(row: Row) returns (lo: nat)
      ensures lo <= |sorted| && lo == Bisect(sorted, row, order, 0, |sorted|)
    {
      hide CompareRows;
      lo := 0;
      var hi: nat := |sorted|;
      while lo < hi
        invariant lo <= hi <= |sorted|
        invariant Bisect(sorted, row, order, 0, |sorted|) == Bisect(sorted, row, order, lo, hi)
      {
        var mid := (lo + hi) / 2;
        if CompareRows(sorted[mid], row, order) < 0 {
          lo := mid + 1;
        } else {
          hi := mid;
        }
      }
    }

    method InsertSorted(row: Row)
      modifies this`sorted
      ensures sorted == InsertedInto(old(sorted), row, order)
    {
      var lo := LowerBound(row);
      sorted := sorted[..lo] + [row] + sorted[lo..];
    }

    /** Find the row near its sorted place; failing that, anywhere. */
    /** The row with the key from place `lo` on, given up at the first row that sorts after. */
    method SearchFrom(row: Row, lo: nat) returns (at: Option<nat>)
      requires lo <= |sorted|
      ensures at == NearIndex(sorted, row, pkColumn, order, lo)
    {
      hide CompareRows, PkStr;
      var i := lo;
      while i < |sorted|
        invariant lo <= i <= |sorted|
        invariant NearIndex(sorted, row, pkColumn, order, lo) == NearIndex(sorted, row, pkColumn, order, i)
      {
        if KeyIn(sorted[i], pkColumn) == KeyIn(row, pkColumn) {
          return Some(i);
        }
        if CompareRows(sorted[i], row, order) > 0 {
          return None;
        }
        i := i + 1;
      }
      at := None;
    }

    /** Splice out the row with the key: by search from its sorted place, else the first found. */
    method RemoveFromSorted(row: Row)
      modifies this`sorted
      ensures sorted == RemovedFrom(old(sorted), row, pkColumn, order)
    {
      hide CompareRows, PkStr, Bisect, NearIndex;
      var key := KeyIn(row, pkColumn);
      var lo := LowerBound(row);
      var near := SearchFrom(row, lo);
      if near.Some? {
        sorted := sorted[..near.value] + sorted[near.value + 1..];
        return;
      }
      var i := 0;
      while i < |sorted| && KeyIn(sorted[i], pkColumn) != key
        invariant 0 <= i <= |sorted|
        invariant FirstOfKey(sorted, pkColumn, key, 0) == FirstOfKey(sorted, pkColumn, key, i)
      {
        i := i + 1;
      }
      if i < |sorted| {
        sorted := sorted[..i] + sorted[i + 1..];
      }
    }

    method RemoveRow(pk: Scalar)
      modifies this`rows, this`sorted
      ensures View() == RemoveOne(old(View()), pk, pkColumn, order)
    {
      var key := PkStr(pk);
      if key in rows {
        var was := rows[key];
        rows := rows - {key};
        RemoveFromSorted(was);
      }
    }

    method UpsertRow(row: Row)
      modifies this`rows, this`sorted
      ensures View() == UpsertOne(old(View()), row, pkColumn, order)
    {
      hide CompareRows, PkStr, RemovedFrom, InsertedInto;
      var key := KeyIn(row, pkColumn);
      if key in rows {
        RemoveFromSorted(rows[key]);
      }
      rows := rows[key := row];
      InsertSorted(row);
    }

    /** Removes, then upserts; a replacing delta first drops every row. */
    method ApplyDelta(upserts: seq<Row>, removes: seq<Scalar>, meta: Meta, replace: bool)
      modifies this
      ensures pkColumn == old(pkColumn) && order == old(order)
      ensures View() == Patch(old(View()), upserts, removes, pkColumn, order, replace)
      ensures rows == PatchRows(old(rows), upserts, removes, pkColumn, replace)
      ensures (replace || old(Valid())) && NamesPk(order, pkColumn) ==> Valid()
      ensures status == Ready && total == meta.total && hasOlder == meta.hasOlder && hasNewer == meta.hasNewer
      ensures watermark == (if meta.watermark.Some? then meta.watermark.value else old(watermark)) && Shown()
    {
      hide Mirrors, CompareRows, PkStr, RemoveOne, UpsertOne, PatchRows, NamesPk;
      if replace {
        rows := map[];
        sorted := [];
      }
      ghost var base := View();
      for i := 0 to |removes|
        invariant pkColumn == old(pkColumn) && order == old(order) && watermark == old(watermark)
        invariant View() == RemoveEach(base, removes[..i], pkColumn, order)
      {
        assert removes[..i + 1][..i] == removes[..i];
        RemoveRow(removes[i]);
      }
      assert removes[..|removes|] == removes;
      ghost var kept := View();
      for i := 0 to |upserts|
        invariant pkColumn == old(pkColumn) && order == old(order) && watermark == old(watermark)
        invariant View() == UpsertEach(kept, upserts[..i], pkColumn, order)
      {
        assert upserts[..i + 1][..i] == upserts[..i];
        UpsertRow(upserts[i]);
      }
      assert upserts[..|upserts|] == upserts;
      PatchedRows(old(View()), upserts, removes, pkColumn, order, replace);
      if (replace || old(Valid())) && NamesPk(order, pkColumn) {
        PatchAgrees(old(View()), upserts, removes, pkColumn, order, replace);
      }
      TakeMeta(meta);
      status := Ready;
      Recompute();
    }

    /** A failed subscription keeps its last rows in view. */
    method SetError(message: string)
      modifies this`status, this`snapshot
      ensures status == Failed(message) && Shown()
    {
      status := Failed(message);
      Recompute();
    }

    /** Drop the rows and the watermark; the counters stay until the next delta. */
    method Reset()
      modifies this
      ensures Valid() && Shown() && rows == map[] && status == Loading && watermark == 0
      ensures pkColumn == old(pkColumn) && order == old(order)
    {
      rows, sorted := map[], [];
      status := Loading;
      watermark := 0;
      Recompute();
    }
  }

  /** Main result: what mirrors one page and takes the delta of the next holds the next page,
      row for row, and no row it already had was in the delta. */
  lemma DeltaRoundTrip(prev: seq<Row>, page: PageOutput, v: Baseline, h: Held)
    requires DistinctKeys(prev, page.pk) && RegularSeq(prev) && v.last == IndexRows(prev, page.pk)
    requires DistinctKeys(page.window.rows, page.pk) && RegularSeq(page.window.rows)
    requires Ascending(page.window.rows, RowLess(page.order)) && NamesPk(page.order, page.pk)
    requires h.rows == IndexRows(prev, page.pk).rows && Agrees(h, page.pk, page.order)
    ensures ValidMap(v.last)
    ensures var d := Diff(v, page);
            && Patch(h, d.upserts, d.removes, page.pk, page.order, false).sorted == page.window.rows
            && forall r :: r in d.upserts ==> r !in prev
  {
    hide Mirrors, Diff, IndexRows, NamesPk, Patch, PatchRows;
    DeltaCarries(prev, page, v);
    var d := Diff(v, page);
    var h' := Patch(h, d.upserts, d.removes, page.pk, page.order, false);
    PatchedRows(h, d.upserts, d.removes, page.pk, page.order, false);
    PatchAgrees(h, d.upserts, d.removes, page.pk, page.order, false);
    PageMirrors(page.window.rows, page.pk, page.order);
    MirrorUnique(h'.sorted, page.window.rows, h'.rows, page.pk, page.order);
  }

  /** The two ends in turn: the server diffs the page against what it last sent, and the
      client takes the delta in. */
  method Refresh(sub: Subscription, store: SubscriptionStore, page: PageOutput, watermark: nat, ghost prev: seq<Row>)
    returns (d: Delta)
    requires sub.Valid() && store.Valid() && store.pkColumn == page.pk && store.order == page.order
    requires sub.last == IndexRows(prev, page.pk) && store.rows == IndexRows(prev, page.pk).rows
    requires DistinctKeys(prev, page.pk) && RegularSeq(prev)
    requires DistinctKeys(page.window.rows, page.pk) && RegularSeq(page.window.rows)
    requires Ascending(page.window.rows, RowLess(page.order)) && NamesPk(page.order, page.pk)
    modifies sub, store
    ensures sub.Valid() && store.Valid() && sub.View() == BaselineOf(page)
    ensures store.sorted == page.window.rows && store.rows == sub.last.rows
    ensures store.total == page.window.total && store.hasOlder == page.window.hasOlder && store.hasNewer == page.window.hasNewer
    ensures forall r :: r in d.upserts ==> r !in prev
  {
    hide Mirrors, IndexRows, NamesPk, PatchRows, Patch;
    DeltaRoundTrip(prev, page, sub.View(), store.View());
    DeltaCarries(prev, page, sub.View());
    d := sub.ApplyPage(page);
    store.ApplyDelta(d.upserts, d.removes, Meta(d.total, d.hasOlder, d.hasNewer, Some(watermark)), false);
  }
}
