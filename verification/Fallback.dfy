/** When the quick reject is right about a window the in-memory fallback loaded
    (packages/engine/src/paginate.ts, packages/engine/src/ivm.ts). */
module Fallback {
  import Lex
  import opened Values
  import opened Wrappers
  import opened Keys
  import opened Sorting
  import opened Store
  import opened Schema
  import opened Query
  import opened Database
  import opened Window
  import opened EngineModule
  import opened Protocol
  import opened Ivm
  import opened Live
  import Paginate
  import Seek

  // ---------------------------------------------------------------- on answers

  /** The baseline describes a window whose flags tell of more rows on a side of any size. */
  ghost predicate PlainTracks(v: Baseline, d: seq<Row>, cut: Cut, order: seq<OrderKey>, pk: string, before: nat, after: nat) {
    var rows := RowsAt(d, cut, order, before, after);
    && v.seeded && v.order == order
    && v.last == IndexRows(rows, pk)
    && v.lo == (if rows == [] then None else Some(rows[0]))
    && v.hi == (if rows == [] then None else Some(rows[|rows| - 1]))
    && FlagsTell(v, d, cut, order, before, after)
  }

  ghost predicate FlagsTell(v: Baseline, d: seq<Row>, cut: Cut, order: seq<OrderKey>, before: nat, after: nat) {
    && (v.hasOlder ==> before <= |Older(d, cut, order)| && !cut.CutStart?)
    && (before < |Older(d, cut, order)| ==> v.hasOlder)
    && (v.hasNewer ==> after <= |Newer(d, cut, order)| && !cut.CutEnd?)
    && (after < |Newer(d, cut, order)| ==> v.hasNewer)
  }

  /** No row can come between the cut and the rows shown next to it without being shown. */
  ghost predicate Gapless(d: seq<Row>, cut: Cut, before: nat, after: nat) {
    !cut.CutAt? || (before == 0 <==> after == 0) || (after >= 1 && cut.row in d)
  }

  /** The first and last rows shown are ends of the sides. */
  lemma ShownEdges(d: seq<Row>, cut: Cut, order: seq<OrderKey>, before: nat, after: nat)
    ensures var o, n, rows := Older(d, cut, order), Newer(d, cut, order), RowsAt(d, cut, order, before, after);
            && (0 < before <= |o| ==> rows != [] && rows[0] == o[|o| - before])
            && (0 < after <= |n| ==> rows != [] && rows[|rows| - 1] == n[after - 1])
            && (before == 0 && rows != [] ==> after > 0 && n != [] && rows[0] == n[0])
            && (after == 0 && rows != [] ==> before > 0 && o != [])
  {
    hide Older, Newer;
    var o, n := Older(d, cut, order), Newer(d, cut, order);
    assert 0 < before <= |o| ==> TakeLast(o, before)[0] == o[|o| - before];
    assert 0 < after <= |n| ==> Take(n, after)[|Take(n, after)| - 1] == n[after - 1];
  }

  /** A cut row that is in the answer is the first of the newer side. */
  lemma CutIsFirst(d: seq<Row>, cut: Cut, order: seq<OrderKey>)
    requires Ascending(d, RowLess(order)) && cut.CutAt? && cut.row in d
    ensures var n := Newer(d, cut, order); n != [] && n[0] == cut.row
  {
    hide CompareRows;
    var n := Newer(d, cut, order);
    CompareRowsFlips(cut.row, cut.row, order);
    assert cut.row in n;
    SidesAscend(d, cut, order);
    SelectedPasses(d, NewerTest(cut, order), 0);
    var j :| 0 <= j < |n| && n[j] == cut.row;
    assert forall k :: 0 < k < |n| ==> RowLess(order)(n[0], n[k]);
  }

  /** Where a row beyond a flagged edge falls, when nothing can hide at the cut. */
  lemma BeyondPlain(v: Baseline, d: seq<Row>, cut: Cut, order: seq<OrderKey>, pk: string, before: nat, after: nat, x: Row)
    requires Ascending(d, RowLess(order)) && PlainTracks(v, d, cut, order, pk, before, after) && Gapless(d, cut, before, after)
    requires Beyond(v, x)
    ensures OlderTest(cut, order)(x) ==> v.hasOlder
    ensures OlderTest(cut, order)(x) && before > 0 ==>
              var o := Older(d, cut, order); before <= |o| && CompareRows(x, o[|o| - before], order) < 0
    ensures NewerTest(cut, order)(x) ==> v.hasNewer
    ensures NewerTest(cut, order)(x) && after > 0 ==>
              var n := Newer(d, cut, order); after <= |n| && CompareRows(n[after - 1], x, order) < 0
  {
    hide Select, IndexRows, CompareRows, RowsAt;
    var o, n := Older(d, cut, order), Newer(d, cut, order);
    ShownEdges(d, cut, order, before, after);
    if v.lo.Some? && CompareRows(x, v.lo.value, v.order) < 0 && v.hasOlder {
      if before > 0 {
        BelowOlder(d, cut, order, |o| - before, x);
      } else {
        SideEmpty(d, cut, order);
        CutIsFirst(d, cut, order);
      }
    } else {
      CompareRowsFlips(x, v.hi.value, order);
      SideEmpty(d, cut, order);
      AboveNewer(d, cut, order, after - 1, x);
    }
  }

  lemma SideEmpty(d: seq<Row>, cut: Cut, order: seq<OrderKey>)
    ensures cut.CutStart? ==> Older(d, cut, order) == []
    ensures cut.CutEnd? ==> Newer(d, cut, order) == []
  {
    if cut.CutStart? {
      SelectNone(d, OlderTest(cut, order));
    }
    if cut.CutEnd? {
      SelectNone(d, NewerTest(cut, order));
    }
  }

  /** A row below a row of the older side is not newer than the cut. */
  lemma BelowOlder(d: seq<Row>, cut: Cut, order: seq<OrderKey>, i: nat, x: Row)
    requires i < |Older(d, cut, order)| && CompareRows(x, Older(d, cut, order)[i], order) < 0
    ensures !NewerTest(cut, order)(x)
  {
    hide CompareRows;
    SelectedPasses(d, OlderTest(cut, order), i);
    if cut.CutAt? {
      CompareRowsTransitive(x, Older(d, cut, order)[i], cut.row, order);
    }
  }

  /** A row above a row of the newer side is not older than the cut. */
  lemma AboveNewer(d: seq<Row>, cut: Cut, order: seq<OrderKey>, i: nat, x: Row)
    requires i < |Newer(d, cut, order)| && CompareRows(Newer(d, cut, order)[i], x, order) < 0
    ensures !OlderTest(cut, order)(x)
  {
    hide CompareRows;
    var e := Newer(d, cut, order)[i];
    SelectedPasses(d, NewerTest(cut, order), i);
    if cut.CutAt? {
      CompareRowsFlips(e, cut.row, order);
      CompareRowsTransitive(cut.row, e, x, order);
      CompareRowsFlips(cut.row, x, order);
    }
  }

  lemma OlderPlain(v: Baseline, d: seq<Row>, d': seq<Row>, cut: Cut, order: seq<OrderKey>, pk: string, before: nat, after: nat)
    requires Ascending(d, RowLess(order)) && Ascending(d', RowLess(order))
    requires PlainTracks(v, d, cut, order, pk, before, after) && Gapless(d, cut, before, after)
    requires OutsideOnly(v, d, d', RowsAt(d, cut, order, before, after))
    ensures TakeLast(Older(d', cut, order), before) == TakeLast(Older(d, cut, order), before)
    ensures (v.hasOlder ==> before <= |Older(d', cut, order)|) && (before < |Older(d', cut, order)| ==> v.hasOlder)
  {
    hide Select, IndexRows, Beyond, CompareRows, Gapless;
    SidesAscend(d, cut, order);
    SidesAscend(d', cut, order);
    var o, o' := Older(d, cut, order), Older(d', cut, order);
    forall x | x in o' && x !in o
      ensures v.hasOlder && (before > 0 ==> before <= |o| && CompareRows(x, o[|o| - before], order) < 0)
    {
      BeyondPlain(v, d, cut, order, pk, before, after, x);
    }
    if before > 0 {
      OlderSide(o, o', before, v.hasOlder, order);
    } else {
      if o' != [] {
        assert o'[0] in o';
      }
    }
  }

  lemma NewerPlain(v: Baseline, d: seq<Row>, d': seq<Row>, cut: Cut, order: seq<OrderKey>, pk: string, before: nat, after: nat)
    requires Ascending(d, RowLess(order)) && Ascending(d', RowLess(order))
    requires PlainTracks(v, d, cut, order, pk, before, after) && Gapless(d, cut, before, after)
    requires OutsideOnly(v, d, d', RowsAt(d, cut, order, before, after))
    ensures Take(Newer(d', cut, order), after) == Take(Newer(d, cut, order), after)
    ensures (v.hasNewer ==> after <= |Newer(d', cut, order)|) && (after < |Newer(d', cut, order)| ==> v.hasNewer)
  {
    hide Select, IndexRows, Beyond, CompareRows, Gapless;
    SidesAscend(d, cut, order);
    SidesAscend(d', cut, order);
    var n, n' := Newer(d, cut, order), Newer(d', cut, order);
    forall x | x in n' && x !in n
      ensures v.hasNewer && (after > 0 ==> after <= |n| && CompareRows(n[after - 1], x, order) < 0)
    {
      BeyondPlain(v, d, cut, order, pk, before, after, x);
    }
    if after > 0 {
      NewerSide(n, n', after, v.hasNewer, order);
    } else {
      if n' != [] {
        assert n'[0] in n';
      }
    }
  }

  /** Main result on answers: where nothing can hide at the cut, a rejected change keeps the
      rows of the window, and the baseline goes on describing it. */
  lemma PlainKept(v: Baseline, d: seq<Row>, d': seq<Row>, cut: Cut, order: seq<OrderKey>, pk: string, before: nat, after: nat)
    requires Ascending(d, RowLess(order)) && Ascending(d', RowLess(order))
    requires PlainTracks(v, d, cut, order, pk, before, after) && Gapless(d, cut, before, after)
    requires OutsideOnly(v, d, d', RowsAt(d, cut, order, before, after))
    ensures RowsAt(d', cut, order, before, after) == RowsAt(d, cut, order, before, after)
    ensures PlainTracks(v, d', cut, order, pk, before, after)
  {
    hide Select, IndexRows, Beyond, OutsideOnly, CompareRows, Older, Newer, Gapless;
    OlderPlain(v, d, d', cut, order, pk, before, after);
    NewerPlain(v, d, d', cut, order, pk, before, after);
  }

  // ---------------------------------------------------------------- on the database

  /** The window the fallback loads for an anchor that resolves. */
  ghost function PlainWindow(s: State, t: TableInfo, spec: QuerySpec, opts: PaginationOpts): WindowResult
    requires Healthy(s, t, spec) && Anchored(s, t, spec, opts)
  {
    var d := Answer(s, t, spec);
    FallbackPage(d, SpotOf(d, t.pk, EffectiveOrder(t, spec), opts.anchor).value, opts.before, opts.after)
  }

  ghost function PlainPage(s: State, t: TableInfo, spec: QuerySpec, opts: PaginationOpts): PageOutput
    requires Healthy(s, t, spec) && Anchored(s, t, spec, opts)
  {
    PageOutput(PlainWindow(s, t, spec, opts), t.pk, EffectiveOrder(t, spec))
  }

  /** What a successful fallback returns is that window. */
  lemma FallbackLoads(s: State, t: TableInfo, spec: QuerySpec, opts: PaginationOpts, w: WindowResult)
    requires Healthy(s, t, spec) && Anchored(s, t, spec, opts) && Paginate.FallbackMeets(s, t, spec, opts, Ok(w))
    ensures w == PlainWindow(s, t, spec, opts)
  {
    hide Consistent, RegularRows, RegularPks, Answer, FallbackPage, SpotOf;
    SpotIsCut(s, t, spec, opts);
  }

  lemma EdgeSpots(s: State, t: TableInfo, spec: QuerySpec, opts: PaginationOpts)
    requires Healthy(s, t, spec) && Anchored(s, t, spec, opts)
    ensures var spot := SpotAt(Answer(s, t, spec), CutOf(s, t, spec, opts), EffectiveOrder(t, spec));
            && ValidSpot(Answer(s, t, spec), spot) && spot != Nowhere
            && (opts.anchor.Earliest? ==> spot.Start?) && (opts.anchor.Latest? ==> spot.End?)
  {
    hide Healthy, Answer, EffectiveOrder, CompareRows, FindPk;
  }

  /** It is the window a seek would load, unless a side of size zero has rows beyond it. */
  lemma PlainIsFresh(s: State, t: TableInfo, spec: QuerySpec, opts: PaginationOpts)
    requires Healthy(s, t, spec) && Anchored(s, t, spec, opts)
    requires (opts.before > 0 || opts.anchor.Earliest?) && (opts.after > 0 || opts.anchor.Latest?)
    ensures PlainWindow(s, t, spec, opts) == FreshWindow(s, t, spec, opts)
  {
    hide Consistent, RegularRows, RegularPks, ValidFilters, Answer, EffectiveOrder, SpotOf, SpotAt, SeekPage, FallbackPage;
    SpotIsCut(s, t, spec, opts);
    EdgeSpots(s, t, spec, opts);
    var d, order := Answer(s, t, spec), EffectiveOrder(t, spec);
    SameWindow(d, SpotOf(d, t.pk, order, opts.anchor).value, opts.before, opts.after);
  }

  lemma PlainRowsAt(d: seq<Row>, cut: Cut, order: seq<OrderKey>, before: nat, after: nat)
    requires Ascending(d, RowLess(order))
    ensures ValidSpot(d, SpotAt(d, cut, order))
    ensures var page := FallbackPage(d, SpotAt(d, cut, order), before, after);
            && page.rows == RowsAt(d, cut, order, before, after)
            && page.hasOlder == (|Older(d, cut, order)| > before) && page.hasNewer == (|Newer(d, cut, order)| > after)
  {
    hide Take, TakeLast, SpotAt, Older, Newer;
    PartsAt(d, cut, order);
    SeekIsFallbackExactly(d, SpotAt(d, cut, order), before, after);
  }

  ghost predicate PlainDescribes(v: Baseline, s: State, t: TableInfo, spec: QuerySpec, opts: PaginationOpts)
    requires Healthy(s, t, spec) && Anchored(s, t, spec, opts)
  {
    PlainTracks(v, Answer(s, t, spec), CutOf(s, t, spec, opts), EffectiveOrder(t, spec), t.pk, opts.before, opts.after)
  }

  /** The baseline a fallback page leaves describes its window. */
  lemma FreshPlain(s: State, t: TableInfo, spec: QuerySpec, opts: PaginationOpts)
    requires Healthy(s, t, spec) && Anchored(s, t, spec, opts)
    ensures PlainDescribes(BaselineOf(PlainPage(s, t, spec, opts)), s, t, spec, opts)
    ensures PlainWindow(s, t, spec, opts).rows ==
            RowsAt(Answer(s, t, spec), CutOf(s, t, spec, opts), EffectiveOrder(t, spec), opts.before, opts.after)
  {
    hide Consistent, RegularRows, RegularPks, Answer, FallbackPage, SpotOf, SpotAt, CutOf, EffectiveOrder, RowsAt,
      Older, Newer, IndexRows;
    var d, cut, order := Answer(s, t, spec), CutOf(s, t, spec, opts), EffectiveOrder(t, spec);
    SpotIsCut(s, t, spec, opts);
    PlainRowsAt(d, cut, order, opts.before, opts.after);
    SideEmpty(d, cut, order);
  }

  /** A cursor loads both sides or neither; other anchors show their own row or an edge. */
  predicate Shielded(opts: PaginationOpts) {
    opts.anchor.Cursor? ==> (opts.before == 0 <==> opts.after == 0)
  }

  lemma ShieldedGapless(s: State, t: TableInfo, spec: QuerySpec, opts: PaginationOpts)
    requires Healthy(s, t, spec) && Anchored(s, t, spec, opts) && Shielded(opts)
    ensures Gapless(Answer(s, t, spec), CutOf(s, t, spec, opts), opts.before, opts.after)
  {
    hide Consistent, RegularRows, RegularPks, Answer;
  }

  /** Main result: on a window the fallback loaded, edges, shown keys and cursors with both
      sides or neither, a commit the quick reject passes over keeps the rows, the anchor
      resolved and the baseline right, and an exact total exact. */
  lemma FallbackRejectSound(s: State, schema: seq<TableInfo>, chs: seq<RowChange>, s': State, t: TableInfo, spec: QuerySpec,
                            opts: PaginationOpts, v: Baseline)
    requires Commits(s, schema, chs, s', t) && Healthy(s, t, spec) && Healthy(s', t, spec)
    requires Anchored(s, t, spec, opts) && PlainDescribes(v, s, t, spec, opts) && Shielded(opts) && !CanChange(v, spec, chs)
    ensures Anchored(s', t, spec, opts)
    ensures PlainWindow(s', t, spec, opts).rows == PlainWindow(s, t, spec, opts).rows
    ensures PlainDescribes(Recount(v, spec, chs).0, s', t, spec, opts)
    ensures v.total == |Answer(s, t, spec)| ==> Recount(v, spec, chs).0.total == |Answer(s', t, spec)|
  {
    hide Commits, Consistent, RegularRows, RegularPks, ValidFilters, CanChange, Net, Older, Newer, RowsAt, IndexRows,
      Answer, EffectiveOrder, FreshWindow, PlainWindow, CutOf, Anchored, Gapless;
    var d, d', cut, order := Answer(s, t, spec), Answer(s', t, spec), CutOf(s, t, spec, opts), EffectiveOrder(t, spec);
    var rows := RowsAt(d, cut, order, opts.before, opts.after);
    FreshRowsKeys(s, t, spec, opts);
    FreshPlain(s, t, spec, opts);
    RejectedIsOutside(s, schema, chs, s', t, spec, v, rows);
    ShieldedGapless(s, t, spec, opts);
    PlainKept(v, d, d', cut, order, t.pk, opts.before, opts.after);
    assert forall x :: x in rows ==> x in d';
    AnchorStays(s, s', t, spec, opts);
    FreshPlain(s', t, spec, opts);
    TotalMovesByNet(s, schema, chs, s', t, spec);
  }

  // ---------------------------------------------------------------- cursors with one side

  /** A commit between two healthy states of a query no index serves, one fallback load
      through the cursor before it and one after, and a quick reject that passes it over. */
  ghost predicate PassedOver(s: State, schema: seq<TableInfo>, chs: seq<RowChange>, s': State, t: TableInfo, spec: QuerySpec,
                             opts: PaginationOpts, w: WindowResult, w': WindowResult) {
    && Chosen(t, spec).None? && opts.anchor.Cursor?
    && Commits(s, schema, chs, s', t) && Healthy(s, t, spec) && Healthy(s', t, spec)
    && Paginate.FallbackMeets(s, t, spec, opts, Ok(w)) && Paginate.FallbackMeets(s', t, spec, opts, Ok(w'))
    && !CanChange(BaselineOf(PageOutput(w, t.pk, EffectiveOrder(t, spec))), spec, chs)
  }

  /** Every commit passed over keeps the rows of a cursor's window with such sides. */
  ghost predicate CursorKeeps(before: nat, after: nat) {
    forall s, schema, chs, s', t, spec, key, w, w' ::
      PassedOver(s, schema, chs, s', t, spec, PaginationOpts(before, after, Cursor(key)), w, w') ==> w'.rows == w.rows
  }

  lemma CursorLoads(s: State, t: TableInfo, spec: QuerySpec, opts: PaginationOpts, w: WindowResult)
    requires Healthy(s, t, spec) && opts.anchor.Cursor? && Paginate.FallbackMeets(s, t, spec, opts, Ok(w))
    ensures Anchored(s, t, spec, opts) && w == PlainWindow(s, t, spec, opts)
  {
    hide Consistent, RegularRows, RegularPks, ValidFilters, Answer, EffectiveOrder, FallbackPage, FirstAtOrAfter,
      PlainWindow;
    FallbackLoads(s, t, spec, opts, w);
  }

  lemma BothOrNeither(s: State, schema: seq<TableInfo>, chs: seq<RowChange>, s': State, t: TableInfo, spec: QuerySpec,
                      opts: PaginationOpts, w: WindowResult, w': WindowResult)
    requires PassedOver(s, schema, chs, s', t, spec, opts, w, w') && (opts.before == 0 <==> opts.after == 0)
    ensures w'.rows == w.rows
  {
    hide Commits, Healthy, Anchored, Paginate.FallbackMeets, CanChange, EffectiveOrder, PlainWindow, PlainDescribes;
    CursorLoads(s, t, spec, opts, w);
    CursorLoads(s', t, spec, opts, w');
    FreshPlain(s, t, spec, opts);
    FallbackRejectSound(s, schema, chs, s', t, spec, opts, BaselineOf(PlainPage(s, t, spec, opts)));
  }

  /** A table of notes sorted by their text, which no index holds. */
  const NOTES: TableInfo :=
    TableInfo("notes", "id", [ColumnInfo("id", TextKind, false), ColumnInfo("text", TextKind, false)], [], false)

  const BY_TEXT: QuerySpec := QuerySpec("notes", [], [OrderKey("text", false)])

  const BY_TEXT_THEN_ID: seq<OrderKey> := [OrderKey("text", false), OrderKey("id", false)]

  function Note(c: CodePoint): Row {
    map["id" := Str([c]), "text" := Str([c])]
  }

  function NoteKey(c: CodePoint): Bytes {
    EncodeKey([Str([c])])
  }

  /** The rows of the notes listed, keyed by primary key. */
  function NoteSpace(cs: seq<CodePoint>): Keyspace {
    if cs == [] then map[]
    else
      var n := |cs| - 1;
      NoteSpace(cs[..n])[NoteKey(cs[n]) := Live(Str([cs[n]]), Note(cs[n]))]
  }

  function NotesState(cs: seq<CodePoint>, lsn: nat): State {
    State(map[KeyspaceId("notes", PRIMARY) := NoteSpace(cs)], lsn)
  }

  /** The notes 1 and 3, and what writing note 2 leaves. */
  const NOTES_BEFORE: State := NotesState([1, 3], 1)

  const NOTES_AFTER: State := NotesState([1, 3, 2], 2)

  const WRITES_NOTE: seq<RowChange> := [RowChange("notes", Str([2]), None, Some(Note(2)))]

  lemma NoteKeysDiffer(c: CodePoint, d: CodePoint)
    requires c != d
    ensures NoteKey(c) != NoteKey(d)
  {
    hide EncodeKey;
    assert [Str([c])][0].t[0] == c && [Str([d])][0].t[0] == d;
    if NoteKey(c) == NoteKey(d) {
      KeyInjective([Str([c])], [Str([d])]);
    }
  }

  lemma OneUnit(c: CodePoint)
    requires c < 0x10000
    ensures Utf16([c]) == [c]
  {
    assert [c][1..] == [];
  }

  lemma NotesDiffer()
    ensures Note(1) != Note(2) && Note(2) != Note(3)
  {
    assert Note(1)["id"] == Str([1]) && Note(2)["id"] == Str([2]) && Note(3)["id"] == Str([3]);
  }

  lemma NotesCompare(c: CodePoint, d: CodePoint)
    requires c < 0x10000 && d < 0x10000
    ensures CompareRows(Note(c), Note(d), BY_TEXT_THEN_ID) == if c < d then -1 else if c > d then 1 else 0
  {
    OneUnit(c);
    OneUnit(d);
    assert Get(Note(c), "text") == Get(Note(c), "id") == Str([c]) && Get(Note(d), "text") == Get(Note(d), "id") == Str([d]);
    if c == d {
      CompareRowsFlips(Note(c), Note(c), BY_TEXT_THEN_ID);
    } else {
      assert CompareScalar(Str([c]), Str([d])) == if c < d then -1 else 1;
    }
  }

  lemma NotesPlan()
    ensures EffectiveOrder(NOTES, BY_TEXT) == BY_TEXT_THEN_ID && Chosen(NOTES, BY_TEXT) == None
  {
    var cs := Candidates(NOTES);
    assert cs == [Candidate(PRIMARY, ["id"])] && cs[1..] == [];
    assert |BY_TEXT.order| == 1 && BY_TEXT.order[0].column == "text" != "id" && !BY_TEXT.order[0].desc;
    assert BY_TEXT.order + [OrderKey("id", false)] == BY_TEXT_THEN_ID;
    assert |OrderColumns(BY_TEXT_THEN_ID)| == 2;
  }

  lemma {:induction false} NoteSpaceHolds(cs: seq<CodePoint>, k: Bytes)
    ensures k in NoteSpace(cs) <==> exists c :: c in cs && k == NoteKey(c)
    ensures |NoteSpace(cs)| <= |cs|
    ensures forall c :: c in cs && k == NoteKey(c) ==> NoteSpace(cs)[k] == Live(Str([c]), Note(c))
  {
    hide NoteKey, Note;
    if cs == [] {
    } else {
      var n := |cs| - 1;
      NoteSpaceHolds(cs[..n], k);
      assert cs == cs[..n] + [cs[n]];
      forall c: CodePoint ensures NoteKey(c) == NoteKey(cs[n]) ==> c == cs[n] {
        if c != cs[n] {
          NoteKeysDiffer(c, cs[n]);
        }
      }
    }
  }

  /** The table holds exactly the notes listed, which are ascending. */
  ghost predicate HoldsNotes(s: State, cs: seq<CodePoint>) {
    && (forall i, j :: 0 <= i < j < |cs| ==> cs[i] < cs[j])
    && (forall c :: c in cs ==> c < 0x10000)
    && (forall k :: k in Primary(s, NOTES) ==> exists c :: c in cs && k == NoteKey(c))
    && (forall c :: c in cs ==> NoteKey(c) in Primary(s, NOTES) && Primary(s, NOTES)[NoteKey(c)] == Live(Str([c]), Note(c)))
  }

  lemma NotesHold(cs: seq<CodePoint>, lsn: nat, sorted: seq<CodePoint>)
    requires forall c :: c in sorted <==> c in cs
    requires forall i, j :: 0 <= i < j < |sorted| ==> sorted[i] < sorted[j]
    requires forall c :: c in cs ==> c < 0x10000
    ensures HoldsNotes(NotesState(cs, lsn), sorted)
    ensures |Primary(NotesState(cs, lsn), NOTES)| <= |cs|
  {
    hide NoteKey, Note, NoteSpace;
    assert Primary(NotesState(cs, lsn), NOTES) == NoteSpace(cs);
    forall k ensures k in NoteSpace(cs) <==> exists c :: c in cs && k == NoteKey(c) {
      NoteSpaceHolds(cs, k);
    }
    forall c | c in cs ensures NoteSpace(cs)[NoteKey(c)] == Live(Str([c]), Note(c)) {
      NoteSpaceHolds(cs, NoteKey(c));
    }
    NoteSpaceHolds(cs, []);
  }

  function NoteRows(cs: seq<CodePoint>): (rows: seq<Row>)
    ensures |rows| == |cs| && forall i :: 0 <= i < |cs| ==> rows[i] == Note(cs[i])
  {
    seq(|cs|, i requires 0 <= i < |cs| => Note(cs[i]))
  }

  lemma NotesRows(s: State, cs: seq<CodePoint>, r: Row)
    requires HoldsNotes(s, cs)
    ensures r in Rows(s, NOTES) <==> r in NoteRows(cs)
  {
    hide NoteKey, Note;
    if r in Rows(s, NOTES) {
      var k :| k in Primary(s, NOTES) && Primary(s, NOTES)[k].row == r;
      var c :| c in cs && k == NoteKey(c);
      var i :| 0 <= i < |cs| && cs[i] == c;
      assert NoteRows(cs)[i] == r;
    }
    if r in NoteRows(cs) {
      var i :| 0 <= i < |cs| && NoteRows(cs)[i] == r;
      assert cs[i] in cs;
      assert Primary(s, NOTES)[NoteKey(cs[i])].row == r;
    }
  }

  lemma NotesInStep(s: State, cs: seq<CodePoint>)
    requires HoldsNotes(s, cs)
    ensures Consistent(s, NOTES)
  {
    hide EncodeKey;
    var ks := Primary(s, NOTES);
    forall c: CodePoint ensures RowKey(["id"], Note(c)) == NoteKey(c) && Get(Note(c), "id") == Str([c]) {
      assert TupleOf(["id"], Note(c)) == [Str([c])];
    }
    forall k | k in ks ensures k == RowKey(["id"], ks[k].row) && ks[k].pk == Get(ks[k].row, "id") {
      var c :| c in cs && k == NoteKey(c);
    }
    assert Rekeys(ks, ks, "id", ["id"]);
    assert Candidates(NOTES) == [Candidate(PRIMARY, ["id"])];
  }

  lemma NotesHealthy(s: State, cs: seq<CodePoint>)
    requires HoldsNotes(s, cs)
    ensures Healthy(s, NOTES, BY_TEXT)
  {
    hide Consistent, HoldsNotes, NoteRows, Rows;
    NotesInStep(s, cs);
    forall r | r in Rows(s, NOTES) ensures RegularRow(r) {
      NotesRows(s, cs, r);
      var i :| 0 <= i < |cs| && NoteRows(cs)[i] == r;
    }
    RegularRowsPks(s, NOTES);
  }

  lemma NotesAnswer(s: State, cs: seq<CodePoint>)
    requires HoldsNotes(s, cs)
    ensures Healthy(s, NOTES, BY_TEXT) && Answer(s, NOTES, BY_TEXT) == NoteRows(cs)
  {
    hide Consistent, RegularRows, CompareRows;
    NotesHealthy(s, cs);
    NotesPlan();
    forall r ensures r in NoteRows(cs) <==> r in MatchingRows(s, NOTES, BY_TEXT) {
      NotesRows(s, cs, r);
    }
    forall i, j | 0 <= i < j < |cs| ensures RowLess(BY_TEXT_THEN_ID)(NoteRows(cs)[i], NoteRows(cs)[j]) {
      NotesCompare(cs[i], cs[j]);
    }
    AnswerUnique(s, NOTES, BY_TEXT, NoteRows(cs));
  }

  lemma NoteOfCursor(c: CodePoint)
    ensures FromKey(BY_TEXT_THEN_ID, [Str([c]), Str([c])]) == Note(c)
  {
    var order, key := BY_TEXT_THEN_ID, [Str([c]), Str([c])];
    assert order[..1] == [OrderKey("text", false)] && key[..1] == [Str([c])];
    assert order[..1][..0] == [] && key[..1][..0] == [];
    assert FromKey(order[..1], key[..1]) == map["text" := Str([c])];
  }

  lemma NotePlace(s: State, cs: seq<CodePoint>, c: CodePoint, i: nat)
    requires HoldsNotes(s, cs) && c < 0x10000
    requires i <= |cs| && (forall j :: 0 <= j < i ==> cs[j] < c) && (i < |cs| ==> c <= cs[i])
    ensures FirstAtOrAfter(NoteRows(cs), Note(c), BY_TEXT_THEN_ID) == i
  {
    hide CompareRows;
    forall j | 0 <= j < |cs|
      ensures CompareRows(NoteRows(cs)[j], Note(c), BY_TEXT_THEN_ID) == if cs[j] < c then -1 else if cs[j] > c then 1 else 0
    {
      assert cs[j] in cs;
      NotesCompare(cs[j], c);
    }
  }

  lemma CursorMeets(s: State, t: TableInfo, spec: QuerySpec, opts: PaginationOpts, key: seq<Scalar>)
    requires Healthy(s, t, spec) && !t.strictIndexes && |Primary(s, t)| <= 100_000
    requires opts.anchor == Cursor(Some(key)) && |key| == |EffectiveOrder(t, spec)|
    ensures var d, order := Answer(s, t, spec), EffectiveOrder(t, spec);
            Paginate.FallbackMeets(s, t, spec, opts,
                                   Ok(FallbackPage(d, At(FirstAtOrAfter(d, FromKey(order, key), order)), opts.before, opts.after)))
  {
    hide Consistent, RegularRows, RegularPks, ValidFilters, Answer, EffectiveOrder, FirstAtOrAfter, FromKey,
      FallbackPage, Primary, Visits;
    Paginate.VisitsBounded(Primary(s, t), [], None, false);
  }

  function AtNote(c: CodePoint, before: nat, after: nat): PaginationOpts {
    PaginationOpts(before, after, Cursor(Some([Str([c]), Str([c])])))
  }

  /** What the fallback loads through a cursor that names note `c`. */
  lemma NotesWindow(s: State, cs: seq<CodePoint>, c: CodePoint, i: nat, before: nat, after: nat)
    requires HoldsNotes(s, cs) && c < 0x10000 && |Primary(s, NOTES)| <= 100_000
    requires i <= |cs| && (forall j :: 0 <= j < i ==> cs[j] < c) && (i < |cs| ==> c <= cs[i])
    ensures Healthy(s, NOTES, BY_TEXT)
    ensures Paginate.FallbackMeets(s, NOTES, BY_TEXT, AtNote(c, before, after), Ok(FallbackPage(NoteRows(cs), At(i), before, after)))
  {
    hide HoldsNotes, Healthy, Answer, EffectiveOrder, FirstAtOrAfter, FromKey, FallbackPage, Primary,
      Paginate.FallbackMeets, Candidates;
    NotesAnswer(s, cs);
    NotesPlan();
    var key := [Str([c]), Str([c])];
    assert AtNote(c, before, after) == PaginationOpts(before, after, Cursor(Some(key))) && |BY_TEXT_THEN_ID| == 2;
    assert !NOTES.strictIndexes;
    CursorMeets(s, NOTES, BY_TEXT, AtNote(c, before, after), key);
    NoteOfCursor(c);
    NotePlace(s, cs, c, i);
  }

  lemma NotesHeld()
    ensures HoldsNotes(NOTES_BEFORE, [1, 3]) && HoldsNotes(NOTES_AFTER, [1, 2, 3])
    ensures |Primary(NOTES_BEFORE, NOTES)| <= 100_000 && |Primary(NOTES_AFTER, NOTES)| <= 100_000
  {
    hide HoldsNotes, NotesState, Primary;
    NotesHold([1, 3], 1, [1, 3]);
    NotesHold([1, 3, 2], 2, [1, 2, 3]);
  }

  lemma NoteEntry(ks: Keyspace)
    ensures ApplyEntries(ks, EmitAll(["id"], WRITES_NOTE)) == ks[NoteKey(2) := Live(Str([2]), Note(2))]
  {
    hide EncodeKey;
    var ch := WRITES_NOTE[0];
    assert WRITES_NOTE[..0] == [] && TupleOf(["id"], Note(2)) == [Str([2])];
    var e := Entry(NoteKey(2), Str([2]), Some(Note(2)));
    assert EmitAll(["id"], WRITES_NOTE) == [] + Emit(["id"], ch) == [e];
    assert [e][1..] == [];
  }

  lemma NoteCommitted()
    ensures Committed(NOTES_BEFORE, [NOTES], WRITES_NOTE, NOTES_AFTER) && ChangesIn(NOTES, WRITES_NOTE) == WRITES_NOTE
  {
    hide EncodeKey, NoteKey, Note, EmitAll, ApplyEntries;
    assert WRITES_NOTE[1..] == [] && [1, 3, 2][..2] == [1, 3];
    assert Candidates(NOTES) == [Candidate(PRIMARY, ["id"])];
    NoteEntry(NoteSpace([1, 3]));
    var id := KeyspaceId("notes", PRIMARY);
    assert KeyspaceOf(NOTES_BEFORE, id) == NoteSpace([1, 3]) && KeyspaceOf(NOTES_AFTER, id) == NoteSpace([1, 3, 2]);
    assert NoteSpace([1, 3, 2]) == NoteSpace([1, 3])[NoteKey(2) := Live(Str([2]), Note(2))];
    assert ChangesIn(NOTES, WRITES_NOTE) == WRITES_NOTE;
  }

  lemma NoteCommits()
    ensures Commits(NOTES_BEFORE, [NOTES], WRITES_NOTE, NOTES_AFTER, NOTES)
  {
    hide Committed, NoteSpace, EncodeKey;
    NoteCommitted();
    NoteSpaceHolds([1, 3], NoteKey(2));
    NoteKeysDiffer(1, 2);
    NoteKeysDiffer(3, 2);
    assert TrueChange(NOTES_BEFORE, NOTES, WRITES_NOTE[0]);
  }

  lemma NotePassed(before: nat, after: nat)
    requires !(before == 0 <==> after == 0)
    ensures var w := FallbackPage(NoteRows([1, 3]), At(1), before, after);
            && w.rows == (if before == 0 then [Note(3)] else [Note(1)])
            && !CanChange(BaselineOf(PageOutput(w, NOTES.pk, BY_TEXT_THEN_ID)), BY_TEXT, WRITES_NOTE)
  {
    hide CompareRows, IndexRows;
    var w := FallbackPage(NoteRows([1, 3]), At(1), before, after);
    NotesCompare(2, 3);
    NotesCompare(2, 1);
    assert w.rows == if before == 0 then [Note(3)] else [Note(1)];
  }

  /** Writing note 2 is passed over, and moves the rows of a cursor with one side: those
      before note 3, or those from note 2 on. */
  lemma NotePassedOver(before: nat, after: nat)
    requires !(before == 0 <==> after == 0)
    ensures var c: CodePoint := if before == 0 then 2 else 3;
            PassedOver(NOTES_BEFORE, [NOTES], WRITES_NOTE, NOTES_AFTER, NOTES, BY_TEXT, AtNote(c, before, after),
                       FallbackPage(NoteRows([1, 3]), At(1), before, after),
                       FallbackPage(NoteRows([1, 2, 3]), At(if before == 0 then 1 else 2), before, after))
  {
    hide Commits, Healthy, Paginate.FallbackMeets, HoldsNotes, CanChange, Chosen, EffectiveOrder, Primary,
      FallbackPage, NoteRows;
    NotesHeld();
    NoteCommits();
    NotesPlan();
    var c: CodePoint := if before == 0 then 2 else 3;
    NotesWindow(NOTES_BEFORE, [1, 3], c, 1, before, after);
    NotesWindow(NOTES_AFTER, [1, 2, 3], c, if before == 0 then 1 else 2, before, after);
    NotePassed(before, after);
  }

  lemma OneSideMoves(before: nat, after: nat)
    requires !(before == 0 <==> after == 0)
    ensures !CursorKeeps(before, after)
  {
    hide PassedOver, FallbackPage, Note;
    var c: CodePoint := if before == 0 then 2 else 3;
    var key: Option<seq<Scalar>> := Some([Str([c]), Str([c])]);
    var w := FallbackPage(NoteRows([1, 3]), At(1), before, after);
    var w' := FallbackPage(NoteRows([1, 2, 3]), At(if before == 0 then 1 else 2), before, after);
    NotePassedOver(before, after);
    assert NoteRows([1, 3]) == [Note(1), Note(3)] && NoteRows([1, 2, 3]) == [Note(1), Note(2), Note(3)];
    NotesDiffer();
    BetweenMoves(Note(1), Note(2), Note(3), before, after);
    assert PassedOver(NOTES_BEFORE, [NOTES], WRITES_NOTE, NOTES_AFTER, NOTES, BY_TEXT, PaginationOpts(before, after, Cursor(key)), w, w');
  }

  /** The row a window shows next to a cursor with one side is the one put between. */
  lemma BetweenMoves(a: Row, x: Row, b: Row, before: nat, after: nat)
    requires !(before == 0 <==> after == 0) && a != x && x != b
    ensures FallbackPage([a, b], At(1), before, after).rows
            != FallbackPage([a, x, b], At(if before == 0 then 1 else 2), before, after).rows
  {
    var rows := FallbackPage([a, b], At(1), before, after).rows;
    var rows' := FallbackPage([a, x, b], At(if before == 0 then 1 else 2), before, after).rows;
    if before == 0 {
      assert rows[0] == b && rows'[0] == x;
    } else {
      assert rows == [a] && rows'[|rows'| - 1] == x;
    }
  }

  /** Main result: the commits passed over keep the rows a cursor shows through the fallback
      if and only if it loads both sides or neither. */
  lemma FallbackExactly(before: nat, after: nat)
    ensures CursorKeeps(before, after) <==> (before == 0 <==> after == 0)
  {
    hide PassedOver;
    if before == 0 <==> after == 0 {
      forall s, schema, chs, s', t, spec, key, w, w'
        | PassedOver(s, schema, chs, s', t, spec, PaginationOpts(before, after, Cursor(key)), w, w')
        ensures w'.rows == w.rows
      {
        BothOrNeither(s, schema, chs, s', t, spec, PaginationOpts(before, after, Cursor(key)), w, w');
      }
    } else {
      OneSideMoves(before, after);
    }
  }
}
