/** The rows a client holds, as a map and as a sorted array, and what a delta makes of them
    (packages/client/src/store.ts). */
module Mirror {
  import Lex
  import opened Values
  import opened Wrappers
  import opened Keys
  import opened Sorting
  import opened Query
  import opened Database
  import opened Window
  import opened Protocol
  import opened Paginate

  // ---------------------------------------------------------------- what the array and the map must agree on

  /** Every row is held under its own key. */
  ghost predicate KeyedBy(rows: map<Scalar, Row>, pk: string) {
    forall k :: k in rows ==> KeyIn(rows[k], pk) == k
  }

  predicate HeldIn(rows: map<Scalar, Row>, pk: string, r: Row) {
    KeyIn(r, pk) in rows && rows[KeyIn(r, pk)] == r
  }

  /** The array holds exactly the rows of the map, strictly ascending. */
  ghost predicate Mirrors(sorted: seq<Row>, rows: map<Scalar, Row>, pk: string, order: seq<OrderKey>) {
    && KeyedBy(rows, pk)
    && Ascending(sorted, RowLess(order))
    && forall r :: r in sorted <==> HeldIn(rows, pk, r)
  }

  /** Scalars compare equal exactly when they share a key string. */
  lemma EqualIsKey(a: Scalar, b: Scalar)
    ensures CompareScalar(a, b) == 0 <==> PkStr(a) == PkStr(b)
  {
    if a.Num? && b.Num? {
      if a.d.Scaled() == b.d.Scaled() {
        ScaledInjective(a.d, b.d);
      }
      if a.d.Zero() && b.d.Zero() {
        assert a.d.Scaled() == 0 == b.d.Scaled();
      }
    }
    if a.Str? && b.Str? {
      Utf16Order(a.t, b.t);
    }
  }

  /** Rows an order that names the key column cannot separate have one key. */
  lemma TiedRowsShareKey(a: Row, b: Row, order: seq<OrderKey>, pk: string)
    requires NamesPk(order, pk) && CompareRows(a, b, order) == 0
    ensures KeyIn(a, pk) == KeyIn(b, pk)
  {
    var i :| 0 <= i < |order| && order[i].column == pk;
    CompareRowsEqual(a, b, order, i);
    EqualIsKey(Get(a, pk), Get(b, pk));
  }

  /** The map determines the array. */
  lemma MirrorUnique(a: seq<Row>, b: seq<Row>, rows: map<Scalar, Row>, pk: string, order: seq<OrderKey>)
    requires Mirrors(a, rows, pk, order) && Mirrors(b, rows, pk, order)
    ensures a == b
  {
    OrderLaws(order);
    AscendingUnique(a, b, RowLess(order));
  }

  /** A page in order mirrors the map of its rows. */
  lemma PageMirrors(page: seq<Row>, pk: string, order: seq<OrderKey>)
    requires DistinctKeys(page, pk) && Ascending(page, RowLess(order))
    ensures Mirrors(page, IndexRows(page, pk).rows, pk, order)
  {
    hide CompareRows;
    IndexedRows(page, pk);
    var rows := IndexRows(page, pk).rows;
    forall k | k in rows ensures KeyIn(rows[k], pk) == k {
      IndexedMember(page, pk, k, rows[k]);
    }
    forall r ensures r in page <==> HeldIn(rows, pk, r) {
      IndexedMember(page, pk, KeyIn(r, pk), r);
    }
  }

  // ---------------------------------------------------------------- splices

  function InsertedAt<T>(s: seq<T>, i: nat, x: T): seq<T>
    requires i <= |s|
  {
    s[..i] + [x] + s[i..]
  }

  function RemovedAt<T>(s: seq<T>, i: nat): seq<T>
    requires i < |s|
  {
    s[..i] + s[i + 1..]
  }

  function Inserted(s: seq<Row>, row: Row, order: seq<OrderKey>): seq<Row> {
    InsertedAt(s, FirstAtOrAfter(s, row, order), row)
  }

  function WithoutKey(s: seq<Row>, pk: string, key: Scalar): seq<Row> {
    Select(s, r => KeyIn(r, pk) != key)
  }

  lemma ThreePartsAscend<T(!new)>(s: seq<T>, i: nat, x: T, less: (T, T) -> bool)
    requires i <= |s| && Ascending(s, less)
    requires (forall j :: 0 <= j < i ==> less(s[j], x)) && (forall j :: i <= j < |s| ==> less(x, s[j]))
    ensures Ascending(InsertedAt(s, i, x), less)
    ensures forall y :: y in InsertedAt(s, i, x) <==> y == x || y in s
  {
    assert s == s[..i] + s[i..];
  }

  /** A row whose key is new goes in at its place. */
  lemma InsertedMirrors(s: seq<Row>, rows: map<Scalar, Row>, pk: string, order: seq<OrderKey>, row: Row)
    requires Mirrors(s, rows, pk, order) && NamesPk(order, pk) && KeyIn(row, pk) !in rows
    ensures Mirrors(Inserted(s, row, order), rows[KeyIn(row, pk) := row], pk, order)
  {
    hide CompareRows, PkStr, NamesPk, FirstAtOrAfter;
    var i := FirstAtOrAfter(s, row, order);
    forall j | i <= j < |s| ensures RowLess(order)(row, s[j]) {
      assert s[j] in s && HeldIn(rows, pk, s[j]);
      CompareRowsFlips(s[i], row, order);
      if j > i {
        assert RowLess(order)(s[i], s[j]);
        CompareRowsTransitive(row, s[i], s[j], order);
      }
      if CompareRows(row, s[j], order) == 0 {
        TiedRowsShareKey(row, s[j], order, pk);
      }
    }
    ThreePartsAscend(s, i, row, RowLess(order));
  }

  lemma WithoutMirrors(s: seq<Row>, rows: map<Scalar, Row>, pk: string, order: seq<OrderKey>, key: Scalar)
    requires Mirrors(s, rows, pk, order)
    ensures Mirrors(WithoutKey(s, pk, key), rows - {key}, pk, order)
  {
    hide CompareRows, PkStr;
    SelectAscending(s, r => KeyIn(r, pk) != key, RowLess(order));
  }

  ghost predicate OnceAt(s: seq<Row>, pk: string, key: Scalar, i: nat) {
    i < |s| && forall j :: 0 <= j < |s| ==> (KeyIn(s[j], pk) == key <==> j == i)
  }

  lemma {:induction false} SelectDropsOne<T(!new)>(s: seq<T>, p: T -> bool, i: nat)
    requires i < |s| && forall j :: 0 <= j < |s| ==> (p(s[j]) <==> j != i)
    ensures RemovedAt(s, i) == Select(s, p)
  {
    if i == 0 {
      SelectAll(s[1..], p);
      assert [] + s[1..] == s[1..];
    } else {
      SelectDropsOne(s[1..], p, i - 1);
      RemovedFromTail(s, i);
    }
  }

  lemma RemovedFromTail<T>(s: seq<T>, i: nat)
    requires 0 < i < |s|
    ensures RemovedAt(s, i) == [s[0]] + RemovedAt(s[1..], i - 1)
  {
  }

  lemma RemovedIsWithout(s: seq<Row>, pk: string, key: Scalar, i: nat)
    requires OnceAt(s, pk, key, i)
    ensures RemovedAt(s, i) == WithoutKey(s, pk, key)
  {
    hide PkStr, Select;
    SelectDropsOne(s, r => KeyIn(r, pk) != key, i);
  }

  lemma WithoutAbsent(s: seq<Row>, pk: string, key: Scalar)
    requires forall j :: 0 <= j < |s| ==> KeyIn(s[j], pk) != key
    ensures WithoutKey(s, pk, key) == s
  {
    hide PkStr, Select;
    SelectAll(s, r => KeyIn(r, pk) != key);
  }

  /** Rows of a mirror have distinct keys. */
  lemma MirrorKeys(s: seq<Row>, rows: map<Scalar, Row>, pk: string, order: seq<OrderKey>)
    requires Mirrors(s, rows, pk, order)
    ensures DistinctKeys(s, pk)
  {
    hide CompareRows, PkStr;
    OrderLaws(order);
    forall i, j | 0 <= i < j < |s| ensures KeyIn(s[i], pk) != KeyIn(s[j], pk) {
      assert s[i] in s && s[j] in s;
      assert HeldIn(rows, pk, s[i]) && HeldIn(rows, pk, s[j]);
      assert RowLess(order)(s[i], s[j]);
    }
  }

  // ---------------------------------------------------------------- the array, step by step

  /** What is held: the rows by key, and the array. */
  datatype Held = Held(rows: map<Scalar, Row>, sorted: seq<Row>)

  /** The place binary search ends at, in whatever order the array is. */
  function Bisect(s: seq<Row>, row: Row, order: seq<OrderKey>, lo: nat, hi: nat): (i: nat)
    requires lo <= hi <= |s|
    ensures lo <= i <= hi
    decreases hi - lo
  {
    if lo == hi then lo
    else
      var mid := (lo + hi) / 2;
      if CompareRows(s[mid], row, order) < 0 then Bisect(s, row, order, mid + 1, hi) else Bisect(s, row, order, lo, mid)
  }

  lemma SideOfPlace(s: seq<Row>, row: Row, order: seq<OrderKey>, mid: nat)
    requires Ascending(s, RowLess(order)) && mid < |s|
    ensures CompareRows(s[mid], row, order) < 0 <==> mid < FirstAtOrAfter(s, row, order)
  {
    hide CompareRows;
    var i := FirstAtOrAfter(s, row, order);
    if i < mid {
      assert RowLess(order)(s[i], s[mid]);
      CompareRowsFlips(s[i], row, order);
      CompareRowsTransitive(row, s[i], s[mid], order);
      CompareRowsFlips(row, s[mid], order);
    }
  }

  /** In an ascending array binary search ends at the first row at or after. */
  lemma {:induction false} BisectFinds(s: seq<Row>, row: Row, order: seq<OrderKey>, lo: nat, hi: nat)
    requires lo <= hi <= |s| && Ascending(s, RowLess(order)) && lo <= FirstAtOrAfter(s, row, order) <= hi
    ensures Bisect(s, row, order, lo, hi) == FirstAtOrAfter(s, row, order)
    decreases hi - lo
  {
    hide CompareRows;
    if lo == hi {
    } else {
      var mid := (lo + hi) / 2;
      SideOfPlace(s, row, order, mid);
      if CompareRows(s[mid], row, order) < 0 {
        BisectFinds(s, row, order, mid + 1, hi);
      } else {
        BisectFinds(s, row, order, lo, mid);
      }
    }
  }

  function InsertedInto(s: seq<Row>, row: Row, order: seq<OrderKey>): seq<Row> {
    InsertedAt(s, Bisect(s, row, order, 0, |s|), row)
  }

  /** From place `i` on, the row with the key, given up at the first row that sorts after. */
  function NearIndex(s: seq<Row>, row: Row, pk: string, order: seq<OrderKey>, i: nat): (r: Option<nat>)
    requires i <= |s|
    ensures r.Some? ==> i <= r.value < |s| && KeyIn(s[r.value], pk) == KeyIn(row, pk)
    decreases |s| - i
  {
    if i == |s| then None
    else if KeyIn(s[i], pk) == KeyIn(row, pk) then Some(i)
    else if CompareRows(s[i], row, order) > 0 then None
    else NearIndex(s, row, pk, order, i + 1)
  }

  /** The first row with the key from place `i` on, or the length. */
  function FirstOfKey(s: seq<Row>, pk: string, key: Scalar, i: nat): (j: nat)
    requires i <= |s|
    ensures i <= j <= |s| && (j < |s| ==> KeyIn(s[j], pk) == key)
    ensures forall k :: i <= k < j ==> KeyIn(s[k], pk) != key
    decreases |s| - i
  {
    if i == |s| || KeyIn(s[i], pk) == key then i else FirstOfKey(s, pk, key, i + 1)
  }

  /** The array without the row: looked for near its place, and then anywhere. */
  function RemovedFrom(s: seq<Row>, row: Row, pk: string, order: seq<OrderKey>): seq<Row> {
    var near := NearIndex(s, row, pk, order, Bisect(s, row, order, 0, |s|));
    var any := FirstOfKey(s, pk, KeyIn(row, pk), 0);
    if near.Some? then RemovedAt(s, near.value)
    else if any < |s| then RemovedAt(s, any)
    else s
  }

  /** Whatever the order, exactly the row with the key goes. */
  lemma RemovedFromIsWithout(s: seq<Row>, row: Row, pk: string, order: seq<OrderKey>)
    requires DistinctKeys(s, pk)
    ensures RemovedFrom(s, row, pk, order) == WithoutKey(s, pk, KeyIn(row, pk))
  {
    hide CompareRows, PkStr, Select, Bisect;
    var near := NearIndex(s, row, pk, order, Bisect(s, row, order, 0, |s|));
    var any := FirstOfKey(s, pk, KeyIn(row, pk), 0);
    if near.Some? {
      KeysOnce(s, pk, near.value);
      RemovedIsWithout(s, pk, KeyIn(row, pk), near.value);
    } else if any < |s| {
      KeysOnce(s, pk, any);
      RemovedIsWithout(s, pk, KeyIn(row, pk), any);
    } else {
      WithoutAbsent(s, pk, KeyIn(row, pk));
    }
  }

  lemma KeysOnce(s: seq<Row>, pk: string, i: nat)
    requires DistinctKeys(s, pk) && i < |s|
    ensures OnceAt(s, pk, KeyIn(s[i], pk), i)
  {
  }

  function RemoveOne(h: Held, gone: Scalar, pk: string, order: seq<OrderKey>): Held {
    var key := PkStr(gone);
    if key in h.rows then Held(h.rows - {key}, RemovedFrom(h.sorted, h.rows[key], pk, order)) else h
  }

  function UpsertOne(h: Held, row: Row, pk: string, order: seq<OrderKey>): Held {
    var key := KeyIn(row, pk);
    var others := if key in h.rows then RemovedFrom(h.sorted, h.rows[key], pk, order) else h.sorted;
    Held(h.rows[key := row], InsertedInto(others, row, order))
  }

  function RemoveEach(h: Held, removes: seq<Scalar>, pk: string, order: seq<OrderKey>): Held {
    if removes == [] then h
    else RemoveOne(RemoveEach(h, removes[..|removes| - 1], pk, order), removes[|removes| - 1], pk, order)
  }

  function UpsertEach(h: Held, upserts: seq<Row>, pk: string, order: seq<OrderKey>): Held {
    if upserts == [] then h
    else UpsertOne(UpsertEach(h, upserts[..|upserts| - 1], pk, order), upserts[|upserts| - 1], pk, order)
  }

  const NOTHING: Held := Held(map[], [])

  /** What a delta makes of what is held. */
  function Patch(h: Held, upserts: seq<Row>, removes: seq<Scalar>, pk: string, order: seq<OrderKey>, replace: bool): Held {
    UpsertEach(RemoveEach(if replace then NOTHING else h, removes, pk, order), upserts, pk, order)
  }

  // ---------------------------------------------------------------- what a delta keeps

  lemma {:induction false} RemoveEachRows(h: Held, removes: seq<Scalar>, pk: string, order: seq<OrderKey>)
    ensures RemoveEach(h, removes, pk, order).rows == RemoveAll(h.rows, removes)
  {
    hide RemovedFrom, PkStr;
    if removes == [] {
    } else {
      RemoveEachRows(h, removes[..|removes| - 1], pk, order);
    }
  }

  lemma {:induction false} UpsertEachRows(h: Held, upserts: seq<Row>, pk: string, order: seq<OrderKey>)
    ensures UpsertEach(h, upserts, pk, order).rows == UpsertAll(h.rows, upserts, pk)
  {
    hide RemovedFrom, InsertedInto, PkStr;
    if upserts == [] {
    } else {
      UpsertEachRows(h, upserts[..|upserts| - 1], pk, order);
    }
  }

  /** The map changes as the delta says, whatever the array holds. */
  lemma PatchedRows(h: Held, upserts: seq<Row>, removes: seq<Scalar>, pk: string, order: seq<OrderKey>, replace: bool)
    ensures Patch(h, upserts, removes, pk, order, replace).rows == PatchRows(h.rows, upserts, removes, pk, replace)
  {
    var base := if replace then NOTHING else h;
    RemoveEachRows(base, removes, pk, order);
    UpsertEachRows(RemoveEach(base, removes, pk, order), upserts, pk, order);
  }

  ghost predicate Agrees(h: Held, pk: string, order: seq<OrderKey>) {
    Mirrors(h.sorted, h.rows, pk, order)
  }

  lemma RemoveAgrees(h: Held, gone: Scalar, pk: string, order: seq<OrderKey>)
    requires Agrees(h, pk, order)
    ensures Agrees(RemoveOne(h, gone, pk, order), pk, order)
  {
    hide CompareRows, PkStr, RemovedFrom, WithoutKey, Mirrors;
    var key := PkStr(gone);
    if key in h.rows {
      HeldKey(h.sorted, h.rows, pk, order, key);
      MirrorKeys(h.sorted, h.rows, pk, order);
      RemovedFromIsWithout(h.sorted, h.rows[key], pk, order);
      WithoutMirrors(h.sorted, h.rows, pk, order, key);
    }
  }

  lemma UpsertAgrees(h: Held, row: Row, pk: string, order: seq<OrderKey>)
    requires Agrees(h, pk, order) && NamesPk(order, pk)
    ensures Agrees(UpsertOne(h, row, pk, order), pk, order)
  {
    hide CompareRows, PkStr, RemovedFrom, WithoutKey, Mirrors, NamesPk, Bisect, FirstAtOrAfter;
    var key := KeyIn(row, pk);
    var others := if key in h.rows then RemovedFrom(h.sorted, h.rows[key], pk, order) else h.sorted;
    var without := h.rows - {key};
    MirrorKeys(h.sorted, h.rows, pk, order);
    WithoutMirrors(h.sorted, h.rows, pk, order, key);
    if key in h.rows {
      HeldKey(h.sorted, h.rows, pk, order, key);
      RemovedFromIsWithout(h.sorted, h.rows[key], pk, order);
    } else {
      AbsentKey(h.sorted, h.rows, pk, order, key);
    }
    InsertedMirrors(others, without, pk, order, row);
    MirrorAscends(others, without, pk, order);
    BisectFinds(others, row, order, 0, |others|);
    assert h.rows[key := row] == without[key := row];
  }

  lemma {:induction false} RemovesAgree(h: Held, removes: seq<Scalar>, pk: string, order: seq<OrderKey>)
    requires Agrees(h, pk, order)
    ensures Agrees(RemoveEach(h, removes, pk, order), pk, order)
  {
    hide Agrees, RemoveOne;
    if removes == [] {
    } else {
      RemovesAgree(h, removes[..|removes| - 1], pk, order);
      RemoveAgrees(RemoveEach(h, removes[..|removes| - 1], pk, order), removes[|removes| - 1], pk, order);
    }
  }

  lemma {:induction false} UpsertsAgree(h: Held, upserts: seq<Row>, pk: string, order: seq<OrderKey>)
    requires Agrees(h, pk, order) && NamesPk(order, pk)
    ensures Agrees(UpsertEach(h, upserts, pk, order), pk, order)
  {
    hide Agrees, UpsertOne, NamesPk;
    if upserts == [] {
    } else {
      UpsertsAgree(h, upserts[..|upserts| - 1], pk, order);
      UpsertAgrees(UpsertEach(h, upserts[..|upserts| - 1], pk, order), upserts[|upserts| - 1], pk, order);
    }
  }

  /** Main result: the array goes on mirroring the map, and mirrors it anew after a
      replacing delta, for any order that names the key. */
  lemma PatchAgrees(h: Held, upserts: seq<Row>, removes: seq<Scalar>, pk: string, order: seq<OrderKey>, replace: bool)
    requires replace || Agrees(h, pk, order)
    requires NamesPk(order, pk)
    ensures Agrees(Patch(h, upserts, removes, pk, order, replace), pk, order)
  {
    hide NamesPk;
    var base := if replace then NOTHING else h;
    assert Agrees(NOTHING, pk, order);
    RemovesAgree(base, removes, pk, order);
    UpsertsAgree(RemoveEach(base, removes, pk, order), upserts, pk, order);
  }

  lemma MirrorAscends(s: seq<Row>, rows: map<Scalar, Row>, pk: string, order: seq<OrderKey>)
    requires Mirrors(s, rows, pk, order)
    ensures Ascending(s, RowLess(order))
  {
  }

  lemma HeldKey(s: seq<Row>, rows: map<Scalar, Row>, pk: string, order: seq<OrderKey>, key: Scalar)
    requires key in rows
    ensures Mirrors(s, rows, pk, order) ==> KeyIn(rows[key], pk) == key
  {
  }

  lemma AbsentKey(s: seq<Row>, rows: map<Scalar, Row>, pk: string, order: seq<OrderKey>, key: Scalar)
    requires key !in rows
    ensures Mirrors(s, rows, pk, order) ==> WithoutKey(s, pk, key) == s
  {
    hide PkStr, CompareRows;
    if Mirrors(s, rows, pk, order) {
      forall j | 0 <= j < |s| ensures KeyIn(s[j], pk) != key {
        assert s[j] in s;
        assert HeldIn(rows, pk, s[j]);
      }
      WithoutAbsent(s, pk, key);
    }
  }

  lemma SeedMirrors(rows: seq<Row>, pk: string, order: seq<OrderKey>)
    requires NamesPk(order, pk) && DistinctKeys(rows, pk)
    ensures Mirrors(SortRows(rows, order), IndexRows(rows, pk).rows, pk, order)
  {
    hide CompareRows, PkStr, NamesPk;
    forall i, j | 0 <= i < j < |rows| ensures CompareRows(rows[i], rows[j], order) != 0 {
      if CompareRows(rows[i], rows[j], order) == 0 {
        TiedRowsShareKey(rows[i], rows[j], order, pk);
      }
    }
    SortRowsSorts(rows, order);
    var m := IndexRows(rows, pk).rows;
    forall k | k in m ensures KeyIn(m[k], pk) == k {
      IndexedMember(rows, pk, k, m[k]);
    }
    forall r ensures r in SortRows(rows, order) <==> HeldIn(m, pk, r) {
      IndexedMember(rows, pk, KeyIn(r, pk), r);
    }
  }
}
