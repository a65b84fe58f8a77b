/** Why a commit the quick reject passes over leaves the window alone
    (packages/engine/src/ivm.ts, packages/server/src/reactive.ts). */
module Live {
  import opened Values
  import opened Wrappers
  import opened Sorting
  import opened Store
  import opened Schema
  import opened Query
  import opened Database
  import opened Window
  import Seek
  import opened EngineModule
  import opened Protocol
  import opened Ivm
  import Mirror

  // ---------------------------------------------------------------- windows by test

  /** What separates the older rows from the newer: an edge, or a row. */
  datatype Cut = CutEnd | CutStart | CutAt(row: Row)

  function OlderTest(cut: Cut, order: seq<OrderKey>): Row -> bool {
    (x: Row) => cut.CutEnd? || (cut.CutAt? && CompareRows(x, cut.row, order) < 0)
  }

  function NewerTest(cut: Cut, order: seq<OrderKey>): Row -> bool {
    (x: Row) => cut.CutStart? || (cut.CutAt? && CompareRows(x, cut.row, order) >= 0)
  }

  function Older(d: seq<Row>, cut: Cut, order: seq<OrderKey>): seq<Row> {
    Select(d, OlderTest(cut, order))
  }

  function Newer(d: seq<Row>, cut: Cut, order: seq<OrderKey>): seq<Row> {
    Select(d, NewerTest(cut, order))
  }

  function RowsAt(d: seq<Row>, cut: Cut, order: seq<OrderKey>, before: nat, after: nat): seq<Row> {
    TakeLast(Older(d, cut, order), before) + Take(Newer(d, cut, order), after)
  }

  function PageAt(d: seq<Row>, cut: Cut, order: seq<OrderKey>, before: nat, after: nat): WindowResult {
    WindowResult(RowsAt(d, cut, order, before, after),
                 before > 0 && |Older(d, cut, order)| > before,
                 after > 0 && |Newer(d, cut, order)| > after,
                 |d|)
  }

  lemma SelectParts<T(!new)>(s: seq<T>, i: nat, p: T -> bool)
    requires i <= |s|
    requires forall x :: x in s[..i] ==> p(x)
    requires forall x :: x in s[i..] ==> !p(x)
    ensures Select(s, p) == s[..i]
  {
    assert s == s[..i] + s[i..];
    SelectAppend(s[..i], s[i..], p);
    SelectAll(s[..i], p);
    SelectNone(s[i..], p);
    assert s[..i] + [] == s[..i];
  }

  lemma SelectRest<T(!new)>(s: seq<T>, i: nat, p: T -> bool)
    requires i <= |s|
    requires forall x :: x in s[..i] ==> !p(x)
    requires forall x :: x in s[i..] ==> p(x)
    ensures Select(s, p) == s[i..]
  {
    assert s == s[..i] + s[i..];
    SelectAppend(s[..i], s[i..], p);
    SelectNone(s[..i], p);
    SelectAll(s[i..], p);
    assert [] + s[i..] == s[i..];
  }

  /** In an ascending answer the rows before the first at-or-after row are those below it. */
  lemma FirstIsThreshold(d: seq<Row>, a: Row, order: seq<OrderKey>)
    requires Ascending(d, RowLess(order))
    ensures var i := FirstAtOrAfter(d, a, order);
            && (forall x :: x in d[..i] ==> CompareRows(x, a, order) < 0)
            && (forall x :: x in d[i..] ==> CompareRows(x, a, order) >= 0)
  {
    var i := FirstAtOrAfter(d, a, order);
    forall x | x in d[i..] ensures CompareRows(x, a, order) >= 0 {
      var j :| 0 <= j < |d[i..]| && d[i..][j] == x;
      if j > 0 {
        assert RowLess(order)(d[i], d[i + j]);
        CompareRowsFlips(d[i], a, order);
        CompareRowsTransitive(a, d[i], x, order);
        CompareRowsFlips(a, x, order);
      }
    }
  }

  function SpotAt(d: seq<Row>, cut: Cut, order: seq<OrderKey>): Spot {
    match cut
    case CutEnd => End
    case CutStart => Start
    case CutAt(a) => At(FirstAtOrAfter(d, a, order))
  }

  /** The parts on either side of a spot are the rows that pass the tests of its cut. */
  lemma PartsAt(d: seq<Row>, cut: Cut, order: seq<OrderKey>)
    requires Ascending(d, RowLess(order))
    ensures var spot := SpotAt(d, cut, order);
            && ValidSpot(d, spot) && spot != Nowhere
            && OlderPart(d, spot) == Older(d, cut, order) && NewerPart(d, spot) == Newer(d, cut, order)
  {
    hide CompareRows, Select, FirstAtOrAfter;
    match cut
    case CutEnd =>
      SelectAll(d, OlderTest(cut, order));
      SelectNone(d, NewerTest(cut, order));
    case CutStart =>
      SelectNone(d, OlderTest(cut, order));
      SelectAll(d, NewerTest(cut, order));
    case CutAt(a) =>
      FirstIsThreshold(d, a, order);
      SelectParts(d, FirstAtOrAfter(d, a, order), OlderTest(cut, order));
      SelectRest(d, FirstAtOrAfter(d, a, order), NewerTest(cut, order));
  }

  lemma SeekPageAt(d: seq<Row>, cut: Cut, order: seq<OrderKey>, before: nat, after: nat)
    requires Ascending(d, RowLess(order))
    ensures SeekPage(d, SpotAt(d, cut, order), before, after) == PageAt(d, cut, order, before, after)
  {
    hide Take, TakeLast, SpotAt, Older, Newer;
    PartsAt(d, cut, order);
  }

  // ---------------------------------------------------------------- edges of a sequence

  ghost predicate Differ<T(!new)>(a: seq<T>, b: seq<T>, x: T) {
    (x in a) != (x in b)
  }

  /** A test that holds from some place on selects a suffix. */
  lemma {:induction false} SelectSuffix<T(!new)>(s: seq<T>, p: T -> bool)
    requires forall i, j :: 0 <= i < j < |s| && p(s[i]) ==> p(s[j])
    ensures |Select(s, p)| <= |s| && Select(s, p) == s[|s| - |Select(s, p)|..]
  {
    if s == [] {
    } else {
      var t := s[1..];
      assert forall i :: 0 <= i < |t| ==> t[i] == s[i + 1];
      if p(s[0]) {
        forall x | x in s ensures p(x) {
          var i :| 0 <= i < |s| && s[i] == x;
        }
        SelectAll(s, p);
      } else {
        SelectSuffix(t, p);
        var n := |Select(t, p)|;
        assert t[|t| - n..] == s[|s| - n..];
      }
    }
  }

  /** Two ascending sequences that differ only outside a test agree on it. */
  lemma SelectAgrees<T(!new)>(o: seq<T>, o': seq<T>, p: T -> bool, less: (T, T) -> bool)
    requires Ascending(o, less) && Ascending(o', less) && Asymmetric(less)
    requires forall x :: Differ(o, o', x) ==> !p(x)
    ensures Select(o, p) == Select(o', p)
  {
    SelectAscending(o, p, less);
    SelectAscending(o', p, less);
    forall x ensures x in Select(o, p) <==> x in Select(o', p) {
      assert Differ(o, o', x) ==> !p(x);
    }
    AscendingUnique(Select(o, p), Select(o', p), less);
  }

  /** In an ascending sequence the elements not below one of them are a suffix. */
  lemma NotBelow<T(!new)>(o: seq<T>, n: nat, less: (T, T) -> bool)
    requires Ascending(o, less) && Asymmetric(less) && n < |o|
    ensures Select(o, x => !less(x, o[n])) == o[n..]
  {
    var p := (x: T) => !less(x, o[n]);
    forall x | x in o[..n] ensures !p(x) {
      var i :| 0 <= i < n && o[i] == x;
    }
    forall x | x in o[n..] ensures p(x) {
      var i :| 0 <= i < |o| - n && o[n..][i] == x;
      assert i > 0 ==> less(o[n], o[n + i]);
    }
    SelectRest(o, n, p);
  }

  /** The last `b` elements stay when everything that comes or goes is below them. */
  lemma LastKept<T(!new)>(o: seq<T>, o': seq<T>, b: nat, less: (T, T) -> bool)
    requires Ascending(o, less) && Ascending(o', less) && Asymmetric(less) && Transitive(less)
    requires 0 < b <= |o|
    requires forall x :: Differ(o, o', x) ==> less(x, o[|o| - b])
    ensures b <= |o'| && TakeLast(o', b) == TakeLast(o, b)
  {
    hide Select;
    var edge := o[|o| - b];
    var p := (x: T) => !less(x, edge);
    NotBelow(o, |o| - b, less);
    SelectAgrees(o, o', p, less);
    forall i, j | 0 <= i < j < |o'| && p(o'[i]) ensures p(o'[j]) {
      assert less(o'[i], o'[j]);
    }
    SelectSuffix(o', p);
  }

  function Flip<T>(less: (T, T) -> bool): (T, T) -> bool {
    (x: T, y: T) => less(y, x)
  }

  /** The first `a` elements stay when everything that comes or goes is above them. */
  lemma FirstKept<T(!new)>(n: seq<T>, n': seq<T>, a: nat, less: (T, T) -> bool)
    requires Ascending(n, less) && Ascending(n', less) && Asymmetric(less) && Transitive(less)
    requires 0 < a <= |n|
    requires forall x :: Differ(n, n', x) ==> less(n[a - 1], x)
    ensures a <= |n'| && Take(n', a) == Take(n, a)
  {
    var o, o' := Reverse(n), Reverse(n');
    ReverseTake(n, 0);
    ReverseTake(n', 0);
    forall i, j | 0 <= i < j < |o| ensures Flip(less)(o[i], o[j]) {
      assert less(n[|n| - 1 - j], n[|n| - 1 - i]);
    }
    forall i, j | 0 <= i < j < |o'| ensures Flip(less)(o'[i], o'[j]) {
      assert less(n'[|n'| - 1 - j], n'[|n'| - 1 - i]);
    }
    forall x | Differ(o, o', x) ensures Flip(less)(x, o[|o| - a]) {
      assert Differ(n, n', x);
    }
    assert Asymmetric(Flip(less)) && Transitive(Flip(less));
    LastKept(o, o', a, Flip(less));
    EndsMirror(n, a);
    EndsMirror(n', a);
  }

  lemma EndsMirror<T(!new)>(n: seq<T>, a: nat)
    requires a <= |n|
    ensures Take(n, a) == Reverse(TakeLast(Reverse(n), a))
  {
  }

  // ---------------------------------------------------------------- the reject, on answers

  /** The baseline describes the window of `d`: its rows, and flags that are set only on full
      sides and set whenever more rows are known to exist. */
  ghost predicate Tracks(v: Baseline, d: seq<Row>, cut: Cut, order: seq<OrderKey>, pk: string, before: nat, after: nat) {
    var rows := RowsAt(d, cut, order, before, after);
    && v.seeded && v.order == order
    && v.last == IndexRows(rows, pk)
    && v.lo == (if rows == [] then None else Some(rows[0]))
    && v.hi == (if rows == [] then None else Some(rows[|rows| - 1]))
    && (v.hasOlder ==> 0 < before <= |Older(d, cut, order)|)
    && (v.hasNewer ==> 0 < after <= |Newer(d, cut, order)|)
    && (0 < before < |Older(d, cut, order)| ==> v.hasOlder)
    && (0 < after < |Newer(d, cut, order)| ==> v.hasNewer)
  }

  lemma FreshTracks(d: seq<Row>, cut: Cut, order: seq<OrderKey>, pk: string, before: nat, after: nat)
    ensures Tracks(BaselineOf(PageOutput(PageAt(d, cut, order, before, after), pk, order)), d, cut, order, pk, before, after)
  {
  }

  /** The row lies beyond an edge of the span on a flagged side. */
  predicate Beyond(v: Baseline, x: Row) {
    (v.lo.Some? && CompareRows(x, v.lo.value, v.order) < 0 && v.hasOlder) ||
    (v.hi.Some? && CompareRows(x, v.hi.value, v.order) > 0 && v.hasNewer)
  }

  /** What a rejected commit does to the answer: rows it takes away were not visible, rows it
      brings lie beyond a flagged edge. */
  ghost predicate OutsideOnly(v: Baseline, d: seq<Row>, d': seq<Row>, rows: seq<Row>) {
    && (forall x :: x in d && x !in d' ==> x !in rows)
    && (forall x :: x in d' && x !in d ==> Beyond(v, x))
  }

  lemma SidesAscend(d: seq<Row>, cut: Cut, order: seq<OrderKey>)
    requires Ascending(d, RowLess(order))
    ensures Ascending(Older(d, cut, order), RowLess(order)) && Ascending(Newer(d, cut, order), RowLess(order))
  {
    SelectAscending(d, OlderTest(cut, order), RowLess(order));
    SelectAscending(d, NewerTest(cut, order), RowLess(order));
  }

  /** The span's flagged edges are the ends of full sides. */
  lemma EdgesOf(v: Baseline, d: seq<Row>, cut: Cut, order: seq<OrderKey>, pk: string, before: nat, after: nat)
    requires Tracks(v, d, cut, order, pk, before, after)
    ensures v.hasOlder ==> var o := Older(d, cut, order); v.lo == Some(o[|o| - before])
    ensures v.hasNewer ==> v.hi == Some(Newer(d, cut, order)[after - 1])
  {
    hide Select, IndexRows;
    var o, n := Older(d, cut, order), Newer(d, cut, order);
    var rows := RowsAt(d, cut, order, before, after);
    if v.hasOlder {
      assert rows[0] == TakeLast(o, before)[0];
    }
    if v.hasNewer {
      assert rows[|rows| - 1] == Take(n, after)[after - 1];
    }
  }

  /** A row beyond the lower edge is older than the cut, and is below the older side's kept rows. */
  lemma BeyondSides(v: Baseline, d: seq<Row>, cut: Cut, order: seq<OrderKey>, pk: string, before: nat, after: nat, x: Row)
    requires Tracks(v, d, cut, order, pk, before, after) && Beyond(v, x)
    ensures OlderTest(cut, order)(x) ==>
              v.hasOlder && var o := Older(d, cut, order); CompareRows(x, o[|o| - before], order) < 0
    ensures NewerTest(cut, order)(x) ==>
              v.hasNewer && CompareRows(Newer(d, cut, order)[after - 1], x, order) < 0
  {
    hide Tracks, Select, IndexRows;
    TrackedFlags(v, d, cut, order, pk, before, after);
    EdgesOf(v, d, cut, order, pk, before, after);
    var o, n := Older(d, cut, order), Newer(d, cut, order);
    if v.lo.Some? && CompareRows(x, v.lo.value, v.order) < 0 && v.hasOlder {
      var e := o[|o| - before];
      SelectedPasses(d, OlderTest(cut, order), |o| - before);
      if cut.CutAt? {
        CompareRowsTransitive(x, e, cut.row, order);
      }
    } else {
      var e := n[after - 1];
      SelectedPasses(d, NewerTest(cut, order), after - 1);
      CompareRowsFlips(x, e, order);
      if cut.CutAt? {
        CompareRowsFlips(e, cut.row, order);
        CompareRowsTransitive(cut.row, e, x, order);
        CompareRowsFlips(cut.row, x, order);
      }
    }
  }

  lemma SelectedPasses<T(!new)>(s: seq<T>, p: T -> bool, i: nat)
    requires i < |Select(s, p)|
    ensures p(Select(s, p)[i]) && Select(s, p)[i] in s
  {
    assert Select(s, p)[i] in Select(s, p);
  }

  lemma TrackedFlags(v: Baseline, d: seq<Row>, cut: Cut, order: seq<OrderKey>, pk: string, before: nat, after: nat)
    requires Tracks(v, d, cut, order, pk, before, after)
    ensures v.order == order
    ensures v.hasOlder ==> 0 < before <= |Older(d, cut, order)|
    ensures v.hasNewer ==> 0 < after <= |Newer(d, cut, order)|
    ensures 0 < before < |Older(d, cut, order)| ==> v.hasOlder
    ensures 0 < after < |Newer(d, cut, order)| ==> v.hasNewer
  {
  }

  /** A full or flagged older side keeps its visible rows when only hidden rows leave it and
      only rows below the visible ones enter it. */
  lemma OlderSide(o: seq<Row>, o': seq<Row>, before: nat, flag: bool, order: seq<OrderKey>)
    requires Ascending(o, RowLess(order)) && Ascending(o', RowLess(order)) && before > 0
    requires (flag ==> before <= |o|) && (before < |o| ==> flag)
    requires forall x :: x in o && x !in o' ==> x !in TakeLast(o, before)
    requires forall x :: x in o' && x !in o ==> flag && CompareRows(x, o[|o| - before], order) < 0
    ensures TakeLast(o', before) == TakeLast(o, before)
    ensures (flag ==> before <= |o'|) && (before < |o'| ==> flag)
  {
    hide CompareRows;
    OrderLaws(order);
    forall x | Differ(o, o', x)
      ensures flag && before <= |o| && RowLess(order)(x, o[|o| - before])
    {
      if x in o {
        HiddenBelow(o, before, order, x);
      }
    }
    if flag {
      LastKept(o, o', before, RowLess(order));
    } else {
      AscendingSame(o, o', order);
    }
  }

  /** The older side keeps its visible rows and its fullness. */
  lemma OlderKept(v: Baseline, d: seq<Row>, d': seq<Row>, cut: Cut, order: seq<OrderKey>, pk: string, before: nat, after: nat)
    requires Ascending(d, RowLess(order)) && Ascending(d', RowLess(order))
    requires Tracks(v, d, cut, order, pk, before, after) && OutsideOnly(v, d, d', RowsAt(d, cut, order, before, after))
    ensures TakeLast(Older(d', cut, order), before) == TakeLast(Older(d, cut, order), before)
    ensures v.hasOlder ==> before <= |Older(d', cut, order)|
    ensures 0 < before < |Older(d', cut, order)| ==> v.hasOlder
  {
    hide Tracks, Select, IndexRows, Beyond, CompareRows;
    TrackedFlags(v, d, cut, order, pk, before, after);
    SidesAscend(d, cut, order);
    SidesAscend(d', cut, order);
    var o, o' := Older(d, cut, order), Older(d', cut, order);
    if before > 0 {
      forall x | x in o' && x !in o ensures v.hasOlder && CompareRows(x, o[|o| - before], order) < 0 {
        BeyondSides(v, d, cut, order, pk, before, after, x);
      }
      OlderSide(o, o', before, v.hasOlder, order);
    }
  }

  lemma AscendingSame(o: seq<Row>, o': seq<Row>, order: seq<OrderKey>)
    requires Ascending(o, RowLess(order)) && Ascending(o', RowLess(order))
    requires forall x :: !Differ(o, o', x)
    ensures o == o'
  {
    OrderLaws(order);
    forall x ensures x in o <==> x in o' {
      assert !Differ(o, o', x);
    }
    AscendingUnique(o, o', RowLess(order));
  }

  /** A row of the older side that is not visible lies below the visible ones. */
  lemma HiddenBelow(o: seq<Row>, before: nat, order: seq<OrderKey>, x: Row)
    requires Ascending(o, RowLess(order)) && before > 0 && x in o && x !in TakeLast(o, before)
    ensures before < |o| && RowLess(order)(x, o[|o| - before])
  {
    var i :| 0 <= i < |o| && o[i] == x;
    forall j: nat | |o| - before <= j < |o| ensures o[j] in TakeLast(o, before) {
      LastHolds(o, before, j);
    }
  }

  lemma LastHolds(o: seq<Row>, n: nat, i: nat)
    requires |o| - n <= i < |o|
    ensures o[i] in TakeLast(o, n)
  {
    assert o[i] == TakeLast(o, n)[if |o| <= n then i else i - (|o| - n)];
  }

  lemma FirstHolds(o: seq<Row>, n: nat, i: nat)
    requires i < |o| && i < n
    ensures o[i] in Take(o, n)
  {
    assert o[i] == Take(o, n)[i];
  }

  /** The same for the newer side. */
  lemma NewerSide(n: seq<Row>, n': seq<Row>, after: nat, flag: bool, order: seq<OrderKey>)
    requires Ascending(n, RowLess(order)) && Ascending(n', RowLess(order)) && after > 0
    requires (flag ==> after <= |n|) && (after < |n| ==> flag)
    requires forall x :: x in n && x !in n' ==> x !in Take(n, after)
    requires forall x :: x in n' && x !in n ==> flag && CompareRows(n[after - 1], x, order) < 0
    ensures Take(n', after) == Take(n, after)
    ensures (flag ==> after <= |n'|) && (after < |n'| ==> flag)
  {
    hide CompareRows;
    OrderLaws(order);
    forall x | Differ(n, n', x)
      ensures flag && after <= |n| && RowLess(order)(n[after - 1], x)
    {
      if x in n {
        HiddenAbove(n, after, order, x);
      }
    }
    if flag {
      FirstKept(n, n', after, RowLess(order));
    } else {
      AscendingSame(n, n', order);
    }
  }

  /** The newer side keeps its visible rows and its fullness. */
  lemma NewerKept(v: Baseline, d: seq<Row>, d': seq<Row>, cut: Cut, order: seq<OrderKey>, pk: string, before: nat, after: nat)
    requires Ascending(d, RowLess(order)) && Ascending(d', RowLess(order))
    requires Tracks(v, d, cut, order, pk, before, after) && OutsideOnly(v, d, d', RowsAt(d, cut, order, before, after))
    ensures Take(Newer(d', cut, order), after) == Take(Newer(d, cut, order), after)
    ensures v.hasNewer ==> after <= |Newer(d', cut, order)|
    ensures 0 < after < |Newer(d', cut, order)| ==> v.hasNewer
  {
    hide Tracks, Select, IndexRows, Beyond, CompareRows;
    TrackedFlags(v, d, cut, order, pk, before, after);
    SidesAscend(d, cut, order);
    SidesAscend(d', cut, order);
    var n, n' := Newer(d, cut, order), Newer(d', cut, order);
    if after > 0 {
      forall x | x in n' && x !in n ensures v.hasNewer && CompareRows(n[after - 1], x, order) < 0 {
        BeyondSides(v, d, cut, order, pk, before, after, x);
      }
      NewerSide(n, n', after, v.hasNewer, order);
    }
  }

  lemma HiddenAbove(n: seq<Row>, after: nat, order: seq<OrderKey>, x: Row)
    requires Ascending(n, RowLess(order)) && after > 0 && x in n && x !in Take(n, after)
    ensures after < |n| && RowLess(order)(n[after - 1], x)
  {
    var i :| 0 <= i < |n| && n[i] == x;
    forall j: nat | j < |n| && j < after ensures n[j] in Take(n, after) {
      FirstHolds(n, after, j);
    }
  }

  /** Main result on answers: when only hidden rows leave and only rows beyond a flagged edge
      come, the window's rows stay and the baseline goes on describing the window. */
  lemma WindowKept(v: Baseline, d: seq<Row>, d': seq<Row>, cut: Cut, order: seq<OrderKey>, pk: string, before: nat, after: nat)
    requires Ascending(d, RowLess(order)) && Ascending(d', RowLess(order))
    requires Tracks(v, d, cut, order, pk, before, after) && OutsideOnly(v, d, d', RowsAt(d, cut, order, before, after))
    ensures RowsAt(d', cut, order, before, after) == RowsAt(d, cut, order, before, after)
    ensures Tracks(v, d', cut, order, pk, before, after)
  {
    hide Select, IndexRows, Beyond, OutsideOnly;
    OlderKept(v, d, d', cut, order, pk, before, after);
    NewerKept(v, d, d', cut, order, pk, before, after);
  }

  /** The stored flag of the older side is what a fresh page would say exactly when it is
      unset or some row still lies below the window. */
  lemma OlderFlagExactly(v: Baseline, d: seq<Row>, cut: Cut, order: seq<OrderKey>, pk: string, before: nat, after: nat)
    requires Ascending(d, RowLess(order)) && Tracks(v, d, cut, order, pk, before, after)
    ensures v.hasOlder == PageAt(d, cut, order, before, after).hasOlder <==>
            (v.hasOlder ==> exists x :: x in d && CompareRows(x, v.lo.value, order) < 0)
  {
    hide Tracks, Select, IndexRows;
    TrackedFlags(v, d, cut, order, pk, before, after);
    EdgesOf(v, d, cut, order, pk, before, after);
    SidesAscend(d, cut, order);
    OrderLaws(order);
    var o := Older(d, cut, order);
    if v.hasOlder {
      var n := |o| - before;
      SelectedPasses(d, OlderTest(cut, order), n);
      if n > 0 {
        SelectedPasses(d, OlderTest(cut, order), 0);
        assert RowLess(order)(o[0], o[n]);
      }
      if x :| x in d && CompareRows(x, o[n], order) < 0 {
        if cut.CutAt? {
          CompareRowsTransitive(x, o[n], cut.row, order);
        }
        assert x in o;
        var i :| 0 <= i < |o| && o[i] == x;
        NotBelowItself(o, order, i, n);
      }
    }
  }

  lemma NotBelowItself(o: seq<Row>, order: seq<OrderKey>, i: nat, n: nat)
    requires Ascending(o, RowLess(order)) && i < |o| && n < |o| && CompareRows(o[i], o[n], order) < 0
    ensures i < n
  {
    CompareRowsFlips(o[i], o[n], order);
    assert forall j :: 0 <= j < i ==> RowLess(order)(o[j], o[i]);
  }

  lemma NewerFlagExactly(v: Baseline, d: seq<Row>, cut: Cut, order: seq<OrderKey>, pk: string, before: nat, after: nat)
    requires Ascending(d, RowLess(order)) && Tracks(v, d, cut, order, pk, before, after)
    ensures v.hasNewer == PageAt(d, cut, order, before, after).hasNewer <==>
            (v.hasNewer ==> exists x :: x in d && CompareRows(v.hi.value, x, order) < 0)
  {
    hide Tracks, Select, IndexRows;
    TrackedFlags(v, d, cut, order, pk, before, after);
    EdgesOf(v, d, cut, order, pk, before, after);
    SidesAscend(d, cut, order);
    var n := Newer(d, cut, order);
    if v.hasNewer {
      SelectedPasses(d, NewerTest(cut, order), after - 1);
      if after < |n| {
        SelectedPasses(d, NewerTest(cut, order), after);
        assert RowLess(order)(n[after - 1], n[after]);
      }
      if x :| x in d && CompareRows(n[after - 1], x, order) < 0 {
        if cut.CutAt? {
          CompareRowsFlips(n[after - 1], cut.row, order);
          CompareRowsTransitive(cut.row, n[after - 1], x, order);
          CompareRowsFlips(cut.row, x, order);
        }
        assert x in n;
        var i :| 0 <= i < |n| && n[i] == x;
        NotBelowItself(n, order, after - 1, i);
      }
    }
  }

  // ---------------------------------------------------------------- the reject, on the database

  /** What a live seek window assumes of one state. */
  ghost predicate Healthy(s: State, t: TableInfo, spec: QuerySpec) {
    && Consistent(s, t) && RegularRows(s, t) && RegularPks(s, t)
    && ValidFilters(spec.filters) && spec.table == t.name
  }

  /** A key anchor must find its row and show it; a cursor must fit the order. */
  ghost predicate Anchored(s: State, t: TableInfo, spec: QuerySpec, opts: PaginationOpts)
    requires Healthy(s, t, spec)
  {
    match opts.anchor
    case Cursor(key) => key.Some? && |key.value| == |EffectiveOrder(t, spec)|
    case Key(k) => Regular(k) && opts.after >= 1 && FindPk(Answer(s, t, spec), t.pk, k) < |Answer(s, t, spec)|
    case _ => true
  }

  /** The rows and flags a fresh materialization of the window loads. */
  ghost function FreshWindow(s: State, t: TableInfo, spec: QuerySpec, opts: PaginationOpts): WindowResult
    requires Healthy(s, t, spec) && Anchored(s, t, spec, opts)
  {
    var d := Answer(s, t, spec);
    SeekPage(d, SpotOf(d, t.pk, EffectiveOrder(t, spec), opts.anchor).value, opts.before, opts.after)
  }

  ghost function CutOf(s: State, t: TableInfo, spec: QuerySpec, opts: PaginationOpts): Cut
    requires Healthy(s, t, spec) && Anchored(s, t, spec, opts)
  {
    match opts.anchor
    case Latest => CutEnd
    case Earliest => CutStart
    case Cursor(key) => CutAt(FromKey(EffectiveOrder(t, spec), key.value))
    case Key(k) => CutAt(Answer(s, t, spec)[FindPk(Answer(s, t, spec), t.pk, k)])
  }

  lemma SpotIsCut(s: State, t: TableInfo, spec: QuerySpec, opts: PaginationOpts)
    requires Healthy(s, t, spec) && Anchored(s, t, spec, opts)
    ensures var d, order := Answer(s, t, spec), EffectiveOrder(t, spec);
            SpotOf(d, t.pk, order, opts.anchor) == Ok(SpotAt(d, CutOf(s, t, spec, opts), order))
  {
    hide Consistent, RegularRows, RegularPks, CompareRows, Answer;
    var d, order := Answer(s, t, spec), EffectiveOrder(t, spec);
    if opts.anchor.Key? {
      AnchorFallsOnItself(d, FindPk(d, t.pk, opts.anchor.pk), order);
    }
  }

  lemma FreshIsPageAt(s: State, t: TableInfo, spec: QuerySpec, opts: PaginationOpts)
    requires Healthy(s, t, spec) && Anchored(s, t, spec, opts)
    ensures FreshWindow(s, t, spec, opts) ==
            PageAt(Answer(s, t, spec), CutOf(s, t, spec, opts), EffectiveOrder(t, spec), opts.before, opts.after)
  {
    hide Consistent, RegularRows, RegularPks, CompareRows, Answer, SeekPage, PageAt, SpotOf, SpotAt, CutOf,
      EffectiveOrder;
    SpotIsCut(s, t, spec, opts);
    SeekPageAt(Answer(s, t, spec), CutOf(s, t, spec, opts), EffectiveOrder(t, spec), opts.before, opts.after);
  }

  lemma AnchorFallsOnItself(d: seq<Row>, i: nat, order: seq<OrderKey>)
    requires i < |d| && Ascending(d, RowLess(order))
    ensures FirstAtOrAfter(d, d[i], order) == i
  {
    Seek.AtOwnPlace(d, i, order);
  }

  /** A batch committed between two healthy states. */
  ghost predicate Commits(s: State, schema: seq<TableInfo>, chs: seq<RowChange>, s': State, t: TableInfo) {
    && ValidSchema(schema) && t in schema && Committed(s, schema, chs, s')
    && TrueChanges(s, t, ChangesIn(t, chs)) && DistinctPks(ChangesIn(t, chs))
  }

  /** Comparing equal to a finite scalar is being `===` to it. */
  lemma EqualIsSame(a: Scalar, b: Scalar)
    requires CompareScalar(a, b) == 0 && Finite(b)
    ensures Same(a, b)
  {
    if a.Str? && b.Str? && Utf16(a.t) == Utf16(b.t) {
      Utf16Injective(a.t, b.t);
    }
  }

  /** A matching row meets the pins by `===`, so its change is in the group. */
  lemma FitsInGroup(spec: QuerySpec, ch: RowChange)
    requires ValidFilters(spec.filters) && ch.table == spec.table
    requires Fits(ch.after, spec) || Fits(ch.before, spec)
    ensures InGroup(spec, ch)
  {
    hide CompareScalar, Same, Finite;
    var row := if Fits(ch.after, spec) then ch.after else ch.before;
    forall i | 0 <= i < |Bindings(spec)| ensures Meets(row.value, Bindings(spec)[i]) {
      var f := Bindings(spec)[i];
      assert f in Bindings(spec);
      var j :| 0 <= j < |spec.filters| && spec.filters[j] == f;
      assert Passes(row.value, spec.filters[j]);
      EqualIsSame(Get(row.value, f.column), f.value.v);
    }
  }

  /** The rows of a change are those of the two states, under its key. */
  lemma ChangeIsTrue(s: State, schema: seq<TableInfo>, chs: seq<RowChange>, s': State, t: TableInfo, i: nat)
    requires Commits(s, schema, chs, s', t) && Consistent(s, t) && Consistent(s', t)
    requires i < |ChangesIn(t, chs)|
    ensures var ch := ChangesIn(t, chs)[i];
            && ch.table == t.name && ch in chs
            && (ch.before.Some? ==> ch.before.value in Rows(s, t) && Get(ch.before.value, t.pk) == ch.pk)
            && (ch.after.Some? ==> ch.after.value in Rows(s', t) && Get(ch.after.value, t.pk) == ch.pk)
  {
    hide Committed, ValidSchema, Consistent, GetRaw;
    var ch := ChangesIn(t, chs)[i];
    assert ch in ChangesIn(t, chs);
    assert TrueChange(s, t, ch);
    if ch.before.Some? {
      ChangeTouchesPrimary(s, t, ch);
      RowsAreRaw(s, t, ch.before.value);
    }
    if ch.after.Some? {
      RowsAfter(s, schema, chs, s', t, ch.after.value);
    }
  }

  /** A rejected change of a row that fits takes away only a hidden row and brings in only a
      row beyond a flagged edge. */
  lemma RejectedChange(v: Baseline, spec: QuerySpec, ch: RowChange, x: Row, rows: seq<Row>, pk: string)
    requires ValidFilters(spec.filters) && ch.table == spec.table
    requires !Disturbs(v, spec, ch) && v.last == IndexRows(rows, pk) && DistinctKeys(rows, pk)
    requires Matches(x, spec.filters) && Get(x, pk) == ch.pk
    ensures ch.before == Some(x) ==> x !in rows
    ensures ch.after == Some(x) ==> Beyond(v, x)
  {
    hide Matches, CompareRows, IndexRows, PkStr, InGroup;
    if ch.before == Some(x) || ch.after == Some(x) {
      FitsInGroup(spec, ch);
      IndexedMember(rows, pk, KeyIn(x, pk), x);
    }
  }

  /** The row sorts before the first row shown, with more rows known before it, or after the last
      shown, with more known after it. */
  predicate PastEdge(page: PageOutput, x: Row) {
    var rows := page.window.rows;
    rows != [] &&
    ((page.window.hasOlder && CompareRows(x, rows[0], page.order) < 0) ||
     (page.window.hasNewer && CompareRows(x, rows[|rows| - 1], page.order) > 0))
  }

  /** What the quick reject looks for in a change: a change to the table, of a row that matches
      before or after, that replaces a row shown or whose row, the new one if that matches, is
      not past an edge. */
  predicate Touches(page: PageOutput, spec: QuerySpec, ch: RowChange)
    requires ValidFilters(spec.filters)
  {
    && ch.table == spec.table
    && (Fits(ch.after, spec) || Fits(ch.before, spec))
    && ((ch.before.Some? && exists r :: r in page.window.rows && CompareScalar(Get(r, page.pk), ch.pk) == 0)
        || !PastEdge(page, if Fits(ch.after, spec) then ch.after.value else ch.before.value))
  }

  /** After a page a commit is passed over exactly when none of its changes does; equality filters
      need no test of their own. */
  lemma PassedOverExactly(page: PageOutput, spec: QuerySpec, chs: seq<RowChange>)
    requires ValidFilters(spec.filters)
    ensures CanChange(BaselineOf(page), spec, chs) <==> exists i :: 0 <= i < |chs| && Touches(page, spec, chs[i])
  {
    hide Disturbs, Touches;
    forall i | 0 <= i < |chs| ensures Disturbs(BaselineOf(page), spec, chs[i]) <==> Touches(page, spec, chs[i]) {
      TouchesExactly(page, spec, chs[i]);
    }
  }

  lemma TouchesExactly(page: PageOutput, spec: QuerySpec, ch: RowChange)
    requires ValidFilters(spec.filters)
    ensures Disturbs(BaselineOf(page), spec, ch) <==> Touches(page, spec, ch)
  {
    hide IndexRows, CompareRows, CompareScalar, Matches, InGroup, PkStr;
    ShownExactly(page.window.rows, page.pk, ch.pk);
    if ch.table == spec.table && (Fits(ch.after, spec) || Fits(ch.before, spec)) {
      FitsInGroup(spec, ch);
    } else {
      OtherTable(spec, ch);
    }
  }

  lemma OtherTable(spec: QuerySpec, ch: RowChange)
    ensures InGroup(spec, ch) ==> ch.table == spec.table
  {
  }

  lemma {:induction false} ShownExactly(rows: seq<Row>, pk: string, key: Scalar)
    ensures PkStr(key) in IndexRows(rows, pk).rows <==> exists r :: r in rows && CompareScalar(Get(r, pk), key) == 0
  {
    hide PkStr, CompareScalar;
    if rows != [] {
      var n := |rows| - 1;
      ShownExactly(rows[..n], pk, key);
      Mirror.EqualIsKey(Get(rows[n], pk), key);
      assert rows == rows[..n] + [rows[n]];
    }
  }

  /** A rejected commit takes only hidden rows out of the answer and brings in only rows
      beyond a flagged edge. */
  lemma RejectedIsOutside(s: State, schema: seq<TableInfo>, chs: seq<RowChange>, s': State, t: TableInfo, spec: QuerySpec,
                          v: Baseline, rows: seq<Row>)
    requires Commits(s, schema, chs, s', t) && Healthy(s, t, spec) && Healthy(s', t, spec)
    requires v.seeded && v.last == IndexRows(rows, t.pk) && DistinctKeys(rows, t.pk)
    requires !CanChange(v, spec, chs)
    ensures OutsideOnly(v, Answer(s, t, spec), Answer(s', t, spec), rows)
  {
    hide Commits, Consistent, RegularRows, RegularPks, ValidFilters, Matches, Beyond, Disturbs, IndexRows,
      DistinctKeys, Answer, EffectiveOrder, ChangesIn;
    var d, d', mine := Answer(s, t, spec), Answer(s', t, spec), ChangesIn(t, chs);
    forall x | (x in d) != (x in d')
      ensures x in d ==> x !in rows
      ensures x in d' ==> Beyond(v, x)
    {
      var i := ChangeOf(s, schema, chs, s', t, spec, x);
      ChangeIsTrue(s, schema, chs, s', t, i);
      RejectedChange(v, spec, mine[i], x, rows, t.pk);
    }
  }

  /** The change that took a row out of the answer or brought it in. */
  lemma ChangeOf(s: State, schema: seq<TableInfo>, chs: seq<RowChange>, s': State, t: TableInfo, spec: QuerySpec, x: Row) returns (i: nat)
    requires Commits(s, schema, chs, s', t) && Healthy(s, t, spec) && Healthy(s', t, spec)
    requires (x in Answer(s, t, spec)) != (x in Answer(s', t, spec))
    ensures i < |ChangesIn(t, chs)|
    ensures x in Answer(s, t, spec) ==> ChangesIn(t, chs)[i].before == Some(x) && Matches(x, spec.filters)
    ensures x in Answer(s', t, spec) ==> ChangesIn(t, chs)[i].after == Some(x) && Matches(x, spec.filters)
  {
    hide Committed, ValidSchema, Consistent, GetRaw, Matches, CompareRows;
    var mine := ChangesIn(t, chs);
    RowsAfter(s, schema, chs, s', t, x);
    RowsAreRaw(s, t, x);
    if x in Answer(s, t, spec) {
      i :| 0 <= i < |mine| && mine[i].pk == Get(x, t.pk);
      assert TrueChange(s, t, mine[i]);
    } else {
      i :| 0 <= i < |mine| && mine[i].after == Some(x);
    }
  }

  // ---------------------------------------------------------------- counting

  /** The matching rows once the first `n` changes are applied. */
  ghost predicate MatchesUpTo(s: State, t: TableInfo, spec: QuerySpec, mine: seq<RowChange>, n: nat, r: Row)
    requires ValidFilters(spec.filters) && n <= |mine|
  {
    Matches(r, spec.filters) &&
    ((exists i :: 0 <= i < n && mine[i].after == Some(r)) ||
     (r in Rows(s, t) && forall i :: 0 <= i < n ==> mine[i].pk != Get(r, t.pk)))
  }

  function SetOf(r: Option<Row>, spec: QuerySpec): (m: set<Row>)
    requires ValidFilters(spec.filters)
    ensures |m| == if Fits(r, spec) then 1 else 0
  {
    if Fits(r, spec) then {r.value} else {}
  }

  ghost function MatchingUpTo(s: State, t: TableInfo, spec: QuerySpec, mine: seq<RowChange>, n: nat): set<Row>
    requires ValidFilters(spec.filters) && n <= |mine|
  {
    if n == 0 then MatchingRows(s, t, spec)
    else MatchingUpTo(s, t, spec, mine, n - 1) - SetOf(mine[n - 1].before, spec) + SetOf(mine[n - 1].after, spec)
  }

  ghost predicate ChangesOn(s: State, t: TableInfo, mine: seq<RowChange>) {
    && DistinctPks(mine)
    && forall i :: 0 <= i < |mine| ==>
         && (mine[i].before.Some? ==> mine[i].before.value in Rows(s, t) && Get(mine[i].before.value, t.pk) == mine[i].pk)
         && (mine[i].after.Some? ==> Get(mine[i].after.value, t.pk) == mine[i].pk)
         && (forall r :: r in Rows(s, t) && Get(r, t.pk) == mine[i].pk ==> mine[i].before == Some(r))
  }

  ghost predicate MatchesCollected(s: State, t: TableInfo, spec: QuerySpec, mine: seq<RowChange>, n: nat)
    requires ValidFilters(spec.filters) && n <= |mine|
  {
    forall r :: r in MatchingUpTo(s, t, spec, mine, n) <==> MatchesUpTo(s, t, spec, mine, n, r)
  }

  lemma NoneCollected(s: State, t: TableInfo, spec: QuerySpec, mine: seq<RowChange>)
    requires ValidFilters(spec.filters)
    ensures MatchesCollected(s, t, spec, mine, 0)
  {
    hide Matches;
  }

  lemma {:induction false} CountUpTo(s: State, t: TableInfo, spec: QuerySpec, mine: seq<RowChange>, n: nat)
    requires ValidFilters(spec.filters) && n <= |mine| && ChangesOn(s, t, mine)
    ensures MatchesCollected(s, t, spec, mine, n)
    ensures |MatchingUpTo(s, t, spec, mine, n)| == |MatchingRows(s, t, spec)| + NetFits(spec, mine[..n])
  {
    hide ChangesOn, MatchesCollected, MatchingRows, ValidFilters, SetOf, NetFit;
    if n == 0 {
      NoneCollected(s, t, spec, mine);
    } else {
      CountUpTo(s, t, spec, mine, n - 1);
      CollectStep(s, t, spec, mine, n);
      NetGrows(spec, mine, n);
    }
  }

  lemma NetGrows(spec: QuerySpec, mine: seq<RowChange>, n: nat)
    requires ValidFilters(spec.filters) && 0 < n <= |mine|
    ensures NetFits(spec, mine[..n]) == NetFits(spec, mine[..n - 1]) + NetFit(spec, mine[n - 1])
  {
    hide Fits;
    assert mine[..n][..n - 1] == mine[..n - 1];
  }

  function NetFit(spec: QuerySpec, ch: RowChange): int
    requires ValidFilters(spec.filters)
  {
    (if Fits(ch.after, spec) then 1 else 0) - (if Fits(ch.before, spec) then 1 else 0)
  }

  lemma CollectStep(s: State, t: TableInfo, spec: QuerySpec, mine: seq<RowChange>, n: nat)
    requires ValidFilters(spec.filters) && 0 < n <= |mine| && ChangesOn(s, t, mine)
    requires MatchesCollected(s, t, spec, mine, n - 1)
    ensures MatchesCollected(s, t, spec, mine, n)
    ensures |MatchingUpTo(s, t, spec, mine, n)| == |MatchingUpTo(s, t, spec, mine, n - 1)| + NetFit(spec, mine[n - 1])
  {
    hide Matches, MatchesUpTo, ChangesOn, MatchingRows;
    var m, ch := MatchingUpTo(s, t, spec, mine, n - 1), mine[n - 1];
    var gone, come := SetOf(ch.before, spec), SetOf(ch.after, spec);
    SidesOfChange(s, t, spec, mine, n);
    Recounted(m, gone, come);
    forall r ensures r in m - gone + come <==> MatchesUpTo(s, t, spec, mine, n, r) {
      StepMember(s, t, spec, mine, n, r);
    }
  }

  lemma Recounted<T>(m: set<T>, gone: set<T>, come: set<T>)
    requires gone <= m && come !! (m - gone)
    ensures |m - gone + come| == |m| - |gone| + |come|
  {
  }

  /** What change `n` takes away was there, and what it brings was not. */
  lemma SidesOfChange(s: State, t: TableInfo, spec: QuerySpec, mine: seq<RowChange>, n: nat)
    requires ValidFilters(spec.filters) && 0 < n <= |mine| && ChangesOn(s, t, mine)
    requires MatchesCollected(s, t, spec, mine, n - 1)
    ensures var m, ch := MatchingUpTo(s, t, spec, mine, n - 1), mine[n - 1];
            SetOf(ch.before, spec) <= m && SetOf(ch.after, spec) !! (m - SetOf(ch.before, spec))
  {
    hide Matches, MatchingUpTo;
    var m, ch := MatchingUpTo(s, t, spec, mine, n - 1), mine[n - 1];
    if Fits(ch.before, spec) {
      assert MatchesUpTo(s, t, spec, mine, n - 1, ch.before.value);
    }
    forall r | r in m && Get(r, t.pk) == ch.pk ensures Some(r) == ch.before {
      OldRowOnly(s, t, spec, mine, n, r);
    }
  }

  /** Before change `n` is applied, the row of its key can only be its before row. */
  lemma OldRowOnly(s: State, t: TableInfo, spec: QuerySpec, mine: seq<RowChange>, n: nat, r: Row)
    requires ValidFilters(spec.filters) && 0 < n <= |mine| && ChangesOn(s, t, mine)
    requires MatchesUpTo(s, t, spec, mine, n - 1, r) && Get(r, t.pk) == mine[n - 1].pk
    ensures mine[n - 1].before == Some(r)
  {
    hide Matches;
    assert forall i :: 0 <= i < n - 1 ==> mine[i].pk != mine[n - 1].pk;
  }

  lemma StepMember(s: State, t: TableInfo, spec: QuerySpec, mine: seq<RowChange>, n: nat, r: Row)
    requires ValidFilters(spec.filters) && 0 < n <= |mine| && ChangesOn(s, t, mine)
    ensures var ch := mine[n - 1];
            MatchesUpTo(s, t, spec, mine, n, r) <==>
              (MatchesUpTo(s, t, spec, mine, n - 1, r) && r !in SetOf(ch.before, spec)) || r in SetOf(ch.after, spec)
  {
    hide Matches;
    var ch := mine[n - 1];
    if MatchesUpTo(s, t, spec, mine, n - 1, r) && Get(r, t.pk) == ch.pk {
      OldRowOnly(s, t, spec, mine, n, r);
    }
    if i :| 0 <= i < n - 1 && mine[i].after == Some(r) {
      assert mine[i].pk != ch.pk;
    }
  }

  function NetFits(spec: QuerySpec, chs: seq<RowChange>): int
    requires ValidFilters(spec.filters)
  {
    if chs == [] then 0
    else
      var ch := chs[|chs| - 1];
      NetFits(spec, chs[..|chs| - 1]) + NetFit(spec, ch)
  }

  /** The net of a commit counts the changes of the table that fit. */
  lemma {:induction false} NetIsFits(t: TableInfo, spec: QuerySpec, chs: seq<RowChange>)
    requires ValidFilters(spec.filters) && spec.table == t.name
    ensures Net(spec, chs) == NetFits(spec, ChangesIn(t, chs))
  {
    hide Fits;
    if chs == [] {
    } else {
      var n := |chs| - 1;
      var init, last := chs[..n], chs[n];
      assert chs == init + [last];
      ChangesGrow(t, init, last);
      NetIsFits(t, spec, init);
      var mine := ChangesIn(t, init);
      if OfTable(t, last) {
        assert (mine + [last])[..|mine|] == mine;
        assert last in ChangesIn(t, chs);
        NetOfFits(spec, last);
      } else {
        assert mine + [] == mine;
      }
    }
  }

  lemma NetOfFits(spec: QuerySpec, ch: RowChange)
    requires ValidFilters(spec.filters) && ch.table == spec.table
    ensures NetOf(spec, ch) == NetFit(spec, ch)
  {
    if Fits(ch.after, spec) || Fits(ch.before, spec) {
      FitsInGroup(spec, ch);
    }
  }

  lemma ChangesAreOn(s: State, schema: seq<TableInfo>, chs: seq<RowChange>, s': State, t: TableInfo)
    requires Commits(s, schema, chs, s', t) && Consistent(s, t) && Consistent(s', t)
    ensures ChangesOn(s, t, ChangesIn(t, chs))
  {
    hide Committed, ValidSchema, Consistent, GetRaw;
    var mine := ChangesIn(t, chs);
    forall i | 0 <= i < |mine|
      ensures mine[i].before.Some? ==> mine[i].before.value in Rows(s, t) && Get(mine[i].before.value, t.pk) == mine[i].pk
      ensures mine[i].after.Some? ==> Get(mine[i].after.value, t.pk) == mine[i].pk
      ensures forall r :: r in Rows(s, t) && Get(r, t.pk) == mine[i].pk ==> mine[i].before == Some(r)
    {
      ChangeIsTrue(s, schema, chs, s', t, i);
      assert TrueChange(s, t, mine[i]);
      forall r | r in Rows(s, t) && Get(r, t.pk) == mine[i].pk ensures mine[i].before == Some(r) {
        RowsAreRaw(s, t, r);
      }
    }
  }

  /** The total moves by exactly the net of the commit, whatever the window. */
  lemma TotalMovesByNet(s: State, schema: seq<TableInfo>, chs: seq<RowChange>, s': State, t: TableInfo, spec: QuerySpec)
    requires Commits(s, schema, chs, s', t) && Healthy(s, t, spec) && Healthy(s', t, spec)
    ensures |Answer(s', t, spec)| == |Answer(s, t, spec)| + Net(spec, chs)
  {
    hide Committed, ValidSchema, Consistent, GetRaw, Matches, CompareRows, ChangesOn, Net;
    var mine := ChangesIn(t, chs);
    ChangesAreOn(s, schema, chs, s', t);
    CountUpTo(s, t, spec, mine, |mine|);
    assert mine[..|mine|] == mine;
    forall r ensures r in MatchingUpTo(s, t, spec, mine, |mine|) <==> r in MatchingRows(s', t, spec) {
      RowsAfter(s, schema, chs, s', t, r);
    }
    assert MatchingUpTo(s, t, spec, mine, |mine|) == MatchingRows(s', t, spec);
    NetIsFits(t, spec, chs);
  }

  // ---------------------------------------------------------------- main result

  /** The baseline of a subscription describes the window on the current state. */
  ghost predicate Describes(v: Baseline, s: State, t: TableInfo, spec: QuerySpec, opts: PaginationOpts)
    requires Healthy(s, t, spec) && Anchored(s, t, spec, opts)
  {
    Tracks(v, Answer(s, t, spec), CutOf(s, t, spec, opts), EffectiveOrder(t, spec), t.pk, opts.before, opts.after)
  }

  lemma AnswerKeys(s: State, t: TableInfo, spec: QuerySpec, rows: seq<Row>)
    requires Healthy(s, t, spec) && Ascending(rows, RowLess(EffectiveOrder(t, spec)))
    requires forall r :: r in rows ==> r in Answer(s, t, spec)
    ensures DistinctKeys(rows, t.pk)
  {
    hide Consistent, Matches, CompareRows, PkStr, EffectiveOrder;
    OrderLaws(EffectiveOrder(t, spec));
    forall i, j | 0 <= i < j < |rows| ensures KeyIn(rows[i], t.pk) != KeyIn(rows[j], t.pk) {
      var a, b := rows[i], rows[j];
      assert a in rows && b in rows && a in Answer(s, t, spec) && b in Answer(s, t, spec);
      assert RowLess(EffectiveOrder(t, spec))(a, b);
      RegularPkStr(Get(a, t.pk));
      RegularPkStr(Get(b, t.pk));
      if Get(a, t.pk) == Get(b, t.pk) {
        SamePkSameRow(s, t, a, b);
      }
    }
  }

  lemma FreshRowsKeys(s: State, t: TableInfo, spec: QuerySpec, opts: PaginationOpts)
    requires Healthy(s, t, spec) && Anchored(s, t, spec, opts)
    ensures var rows := FreshWindow(s, t, spec, opts).rows;
            && Ascending(rows, RowLess(EffectiveOrder(t, spec)))
            && (forall r :: r in rows ==> r in Answer(s, t, spec))
            && DistinctKeys(rows, t.pk)
            && rows == RowsAt(Answer(s, t, spec), CutOf(s, t, spec, opts), EffectiveOrder(t, spec), opts.before, opts.after)
  {
    hide Consistent, RegularRows, RegularPks, RowLess, Answer, EffectiveOrder, FindPk, FirstAtOrAfter, RowsAt,
      DistinctKeys;
    var d := Answer(s, t, spec);
    var spot := SpotOf(d, t.pk, EffectiveOrder(t, spec), opts.anchor).value;
    var rows := FreshWindow(s, t, spec, opts).rows;
    FreshIsPageAt(s, t, spec, opts);
    SidesJoin(d, IndexOf(d, spot), opts.before, opts.after);
    PartsOf(d, spot);
    SliceAscends(d, rows, RowLess(EffectiveOrder(t, spec)));
    AnswerKeys(s, t, spec, rows);
  }

  lemma SliceAscends<T(!new)>(d: seq<T>, rows: seq<T>, less: (T, T) -> bool)
    requires Ascending(d, less) && exists i, j :: 0 <= i <= j <= |d| && rows == d[i..j]
    ensures Ascending(rows, less) && forall r :: r in rows ==> r in d
  {
  }

  lemma AnchorVisible(s: State, t: TableInfo, spec: QuerySpec, opts: PaginationOpts)
    requires Healthy(s, t, spec) && Anchored(s, t, spec, opts) && opts.anchor.Key?
    ensures CutOf(s, t, spec, opts).CutAt? && CutOf(s, t, spec, opts).row in FreshWindow(s, t, spec, opts).rows
  {
    hide Consistent, RegularRows, RegularPks, Matches, EffectiveOrder, FindPk, Answer, CompareRows;
    var d := Answer(s, t, spec);
    FirstHolds(d[FindPk(d, t.pk, opts.anchor.pk)..], opts.after, 0);
  }

  /** The first row found by a plain key is the one row that has it. */
  lemma FoundByKey(s: State, t: TableInfo, spec: QuerySpec, k: Scalar, a: Row)
    requires Healthy(s, t, spec) && Regular(k) && a in Answer(s, t, spec) && Same(Get(a, t.pk), k)
    ensures var d := Answer(s, t, spec); FindPk(d, t.pk, k) < |d| && d[FindPk(d, t.pk, k)] == a
  {
    hide Consistent, Matches, EffectiveOrder, Same, Regular;
    var d := Answer(s, t, spec);
    var j :| 0 <= j < |d| && d[j] == a;
    var b := d[FindPk(d, t.pk, k)];
    assert b in d;
    RegularEqual(Get(a, t.pk), k);
    RegularEqual(Get(b, t.pk), k);
    SamePkSameRow(s, t, a, b);
  }

  /** A key anchor with a newer side is visible, so a rejected commit leaves it in place. */
  lemma AnchorStays(s: State, s': State, t: TableInfo, spec: QuerySpec, opts: PaginationOpts)
    requires Healthy(s, t, spec) && Healthy(s', t, spec) && Anchored(s, t, spec, opts)
    requires forall x :: x in FreshWindow(s, t, spec, opts).rows ==> x in Answer(s', t, spec)
    ensures Anchored(s', t, spec, opts) && CutOf(s', t, spec, opts) == CutOf(s, t, spec, opts)
  {
    hide Consistent, RegularRows, RegularPks, ValidFilters, Matches, EffectiveOrder, Answer, FreshWindow, Same, Regular;
    if opts.anchor.Key? {
      AnchorVisible(s, t, spec, opts);
      FoundByKey(s', t, spec, opts.anchor.pk, CutOf(s, t, spec, opts).row);
    }
  }

  /** Main result: when the quick reject passes over a commit, materializing the window again
      gives the same rows, the baseline still describes it, and an exact total is kept exact
      by the net of the commit. */
  lemma RejectSound(s: State, schema: seq<TableInfo>, chs: seq<RowChange>, s': State, t: TableInfo, spec: QuerySpec,
                    opts: PaginationOpts, v: Baseline)
    requires Commits(s, schema, chs, s', t) && Healthy(s, t, spec) && Healthy(s', t, spec)
    requires Anchored(s, t, spec, opts) && Describes(v, s, t, spec, opts) && !CanChange(v, spec, chs)
    ensures Anchored(s', t, spec, opts)
    ensures FreshWindow(s', t, spec, opts).rows == FreshWindow(s, t, spec, opts).rows
    ensures Describes(Recount(v, spec, chs).0, s', t, spec, opts)
    ensures v.total == |Answer(s, t, spec)| ==> Recount(v, spec, chs).0.total == |Answer(s', t, spec)|
  {
    hide Commits, Consistent, RegularRows, RegularPks, ValidFilters, CanChange, Net, Older, Newer, RowsAt, IndexRows,
      Answer, EffectiveOrder, FreshWindow, CutOf, Anchored;
    var d, d', cut, order := Answer(s, t, spec), Answer(s', t, spec), CutOf(s, t, spec, opts), EffectiveOrder(t, spec);
    var rows := RowsAt(d, cut, order, opts.before, opts.after);
    FreshRowsKeys(s, t, spec, opts);
    ReadyParts(v, s, t, spec, opts, rows);
    RejectedIsOutside(s, schema, chs, s', t, spec, v, rows);
    WindowKept(v, d, d', cut, order, t.pk, opts.before, opts.after);
    assert forall x :: x in rows ==> x in d';
    AnchorStays(s, s', t, spec, opts);
    FreshRowsKeys(s', t, spec, opts);
    TotalMovesByNet(s, schema, chs, s', t, spec);
  }

  /** A stored flag agrees with a fresh page exactly when it is unset or some row of the
      answer lies off the window on its side. */
  lemma FlagsExactly(s: State, t: TableInfo, spec: QuerySpec, opts: PaginationOpts, v: Baseline)
    requires Healthy(s, t, spec) && Anchored(s, t, spec, opts) && Describes(v, s, t, spec, opts)
    ensures v.hasOlder == FreshWindow(s, t, spec, opts).hasOlder <==>
            (v.hasOlder ==> v.lo.Some? && exists x :: x in Answer(s, t, spec) && CompareRows(x, v.lo.value, v.order) < 0)
    ensures v.hasNewer == FreshWindow(s, t, spec, opts).hasNewer <==>
            (v.hasNewer ==> v.hi.Some? && exists x :: x in Answer(s, t, spec) && CompareRows(v.hi.value, x, v.order) < 0)
  {
    hide Consistent, RegularRows, RegularPks, ValidFilters, Anchored, Answer, EffectiveOrder, CompareRows, PageAt,
      FreshWindow, CutOf, Tracks;
    var d, cut, order := Answer(s, t, spec), CutOf(s, t, spec, opts), EffectiveOrder(t, spec);
    FreshIsPageAt(s, t, spec, opts);
    EdgesOf(v, d, cut, order, t.pk, opts.before, opts.after);
    TrackedFlags(v, d, cut, order, t.pk, opts.before, opts.after);
    OlderFlagExactly(v, d, cut, order, t.pk, opts.before, opts.after);
    NewerFlagExactly(v, d, cut, order, t.pk, opts.before, opts.after);
  }

  lemma ReadyParts(v: Baseline, s: State, t: TableInfo, spec: QuerySpec, opts: PaginationOpts, rows: seq<Row>)
    requires Healthy(s, t, spec) && Anchored(s, t, spec, opts) && Describes(v, s, t, spec, opts)
    requires rows == RowsAt(Answer(s, t, spec), CutOf(s, t, spec, opts), EffectiveOrder(t, spec), opts.before, opts.after)
    ensures v.seeded && v.last == IndexRows(rows, t.pk)
  {
  }
}
