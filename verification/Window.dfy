/** What a window over an ordered answer means, on the seek path and on the fallback path
    (packages/protocol/src/pagination.ts, packages/engine/src/paginate.ts). */
module Window {
  import opened Values
  import opened Wrappers
  import opened Sorting
  import opened Query

  /** A cursor arrives decoded: `None` when its text does not decode to a tuple. */
  datatype Anchor = Latest | Earliest | Cursor(key: Option<seq<Scalar>>) | Key(pk: Scalar)

  datatype PaginationOpts = PaginationOpts(before: nat, after: nat, anchor: Anchor)

  datatype WindowResult = WindowResult(rows: seq<Row>, hasOlder: bool, hasNewer: bool, total: nat)

  /** Where an anchor falls in the answer; `Nowhere` for a key that names no row of it. */
  datatype Spot = Start | End | At(i: nat) | Nowhere

  /** A row carrying just the order-key values. */
  function FromKey(order: seq<OrderKey>, key: seq<Scalar>): Row
    requires |order| == |key|
  {
    if order == [] then map[]
    else
      var n := |order| - 1;
      FromKey(order[..n], key[..n])[order[n].column := key[n]]
  }

  ghost predicate DistinctColumns(order: seq<OrderKey>) {
    forall i, j :: 0 <= i < j < |order| ==> order[i].column != order[j].column
  }

  lemma {:induction false} FromKeyGet(order: seq<OrderKey>, key: seq<Scalar>, i: nat)
    requires |order| == |key| && DistinctColumns(order) && i < |order|
    ensures Get(FromKey(order, key), order[i].column) == key[i]
  {
    var n := |order| - 1;
    if i == n {
    } else {
      FromKeyGet(order[..n], key[..n], i);
    }
  }

  lemma KeyOfFromKey(order: seq<OrderKey>, key: seq<Scalar>)
    requires |order| == |key| && DistinctColumns(order)
    ensures KeyOf(FromKey(order, key), order) == key
  {
    forall i | 0 <= i < |order| ensures Get(FromKey(order, key), order[i].column) == key[i] {
      FromKeyGet(order, key, i);
    }
  }

  /** The first index whose row is at or after `a`, or the length. */
  function FirstAtOrAfter(d: seq<Row>, a: Row, order: seq<OrderKey>): (i: nat)
    ensures i <= |d|
    ensures forall j :: 0 <= j < i ==> CompareRows(d[j], a, order) < 0
    ensures i < |d| ==> CompareRows(d[i], a, order) >= 0
  {
    if d == [] || CompareRows(d[0], a, order) >= 0 then 0 else 1 + FirstAtOrAfter(d[1..], a, order)
  }

  /** The first index whose row has the primary key, or the length. */
  function FindPk(d: seq<Row>, pk: string, key: Scalar): (i: nat)
    ensures i <= |d|
    ensures forall j :: 0 <= j < i ==> !Same(Get(d[j], pk), key)
    ensures i < |d| ==> Same(Get(d[i], pk), key)
  {
    if d == [] || Same(Get(d[0], pk), key) then 0 else 1 + FindPk(d[1..], pk, key)
  }

  predicate ValidSpot(d: seq<Row>, spot: Spot) {
    spot.At? ==> spot.i <= |d|
  }

  function SpotOf(d: seq<Row>, pk: string, order: seq<OrderKey>, anchor: Anchor): (r: Result<Spot, QueryError>)
    ensures r.Ok? ==> ValidSpot(d, r.value)
  {
    match anchor
    case Latest => Ok(End)
    case Earliest => Ok(Start)
    case Cursor(key) =>
      if key.None? || |key.value| != |order| then Err(BadCursor)
      else Ok(At(FirstAtOrAfter(d, FromKey(order, key.value), order)))
    case Key(k) =>
      var i := FindPk(d, pk, k);
      Ok(if i < |d| then At(i) else Nowhere)
  }

  /** The rows before and the rows at or after the spot: an edge has one side, and a seek
      with an unresolved key takes both sides from opposite edges. */
  function OlderPart(d: seq<Row>, spot: Spot): seq<Row>
    requires ValidSpot(d, spot)
  {
    match spot
    case Start => []
    case End => d
    case At(i) => d[..i]
    case Nowhere => d
  }

  function NewerPart(d: seq<Row>, spot: Spot): seq<Row>
    requires ValidSpot(d, spot)
  {
    match spot
    case Start => d
    case End => []
    case At(i) => d[i..]
    case Nowhere => d
  }

  /** The window an index seek loads. */
  function SeekPage(d: seq<Row>, spot: Spot, before: nat, after: nat): WindowResult
    requires ValidSpot(d, spot)
  {
    var older, newer := OlderPart(d, spot), NewerPart(d, spot);
    WindowResult(TakeLast(older, before) + Take(newer, after),
                 before > 0 && |older| > before, after > 0 && |newer| > after, |d|)
  }

  function IndexOf(d: seq<Row>, spot: Spot): (i: nat)
    requires ValidSpot(d, spot)
    ensures i <= |d|
  {
    match spot
    case Start => 0
    case End => |d|
    case At(i) => i
    case Nowhere => |d|
  }

  lemma PartsOf(d: seq<Row>, spot: Spot)
    requires ValidSpot(d, spot) && spot != Nowhere
    ensures OlderPart(d, spot) == d[..IndexOf(d, spot)]
    ensures NewerPart(d, spot) == d[IndexOf(d, spot)..]
  {
  }

  /** The window the in-memory fallback loads. */
  function FallbackPage(d: seq<Row>, spot: Spot, before: nat, after: nat): WindowResult
    requires ValidSpot(d, spot)
  {
    var idx := IndexOf(d, spot);
    var start := if idx >= before then idx - before else 0;
    var end := if idx + after <= |d| then idx + after else |d|;
    WindowResult(d[start..end], start > 0, end < |d|, |d|)
  }

  /** The two windows have the same rows and total exactly when the anchor resolves, or the
      side after it is empty. */
  lemma SeekIsFallbackExactly(d: seq<Row>, spot: Spot, before: nat, after: nat)
    requires ValidSpot(d, spot)
    ensures var seek, plain := SeekPage(d, spot, before, after), FallbackPage(d, spot, before, after);
            seek.total == plain.total &&
            (seek.rows == plain.rows <==> spot != Nowhere || after == 0 || d == [])
  {
    hide Take, TakeLast;
    SidesJoin(d, IndexOf(d, spot), before, after);
    if spot == Nowhere {
      NowhereExactly(d, before, after);
    } else {
      PartsOf(d, spot);
    }
  }

  lemma NowhereExactly(d: seq<Row>, before: nat, after: nat)
    ensures SeekPage(d, Nowhere, before, after).rows == FallbackPage(d, Nowhere, before, after).rows
            <==> after == 0 || d == []
  {
    var seek, plain := SeekPage(d, Nowhere, before, after), FallbackPage(d, Nowhere, before, after);
    assert plain.rows == TakeLast(d, before);
    assert |seek.rows| == |plain.rows| + |Take(d, after)|;
  }

  /** The last rows of one part and the first of the other are one slice. */
  lemma SidesJoin(d: seq<Row>, i: nat, before: nat, after: nat)
    requires i <= |d|
    ensures TakeLast(d[..i], before) + Take(d[i..], after) ==
            d[if i >= before then i - before else 0..if i + after <= |d| then i + after else |d|]
  {
    var start := if i >= before then i - before else 0;
    var end := if i + after <= |d| then i + after else |d|;
    assert TakeLast(d[..i], before) == d[start..i];
    assert Take(d[i..], after) == d[i..end];
  }

  /** On a resolved anchor the flags agree on every side of positive size; a side of size
      zero reports no more rows on the seek path. */
  lemma FlagsAgree(d: seq<Row>, spot: Spot, before: nat, after: nat)
    requires ValidSpot(d, spot) && spot != Nowhere
    ensures var seek, plain := SeekPage(d, spot, before, after), FallbackPage(d, spot, before, after);
            && seek.hasOlder == (before > 0 && plain.hasOlder)
            && seek.hasNewer == (after > 0 && plain.hasNewer)
  {
  }

  /** The two windows are one when a side of size zero lies past an edge. */
  lemma SameWindow(d: seq<Row>, spot: Spot, before: nat, after: nat)
    requires ValidSpot(d, spot) && spot != Nowhere
    requires (before > 0 || spot.Start?) && (after > 0 || spot.End?)
    ensures SeekPage(d, spot, before, after) == FallbackPage(d, spot, before, after)
  {
    hide Take, TakeLast;
    SeekIsFallbackExactly(d, spot, before, after);
    FlagsAgree(d, spot, before, after);
  }
}
