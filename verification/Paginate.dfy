/** Materializing a window, by index seek or by the in-memory fallback, and the proof that
    both load the window of the query's answer (packages/engine/src/paginate.ts). */
module Paginate {
  import Lex
  import opened Values
  import opened Wrappers
  import opened Keys
  import opened Sorting
  import opened Store
  import opened Schema
  import opened Query
  import opened Database
  import opened Window
  import opened Seek

  const TOTAL_SCAN_CAP: int := 100_000
  const FALLBACK_SCAN_CAP: int := 100_000
  const MAX_ATTEMPTS: int := 24

  /** 4^24, below every cap the scan loop ends with. */
  const SCAN_CEILING: int := 0x1_0000_0000_0000

  // ---------------------------------------------------------------- scanning one side

  method Pluck(entries: seq<Live>, matches: Row -> bool) returns (out: seq<Row>)
    ensures out == Select(RowsOf(entries), matches)
  {
    out := [];
    for i := 0 to |entries|
      invariant out == Select(RowsOf(entries[..i]), matches)
    {
      var row := entries[i].row;
      assert RowsOf(entries[..i + 1]) == RowsOf(entries[..i]) + [row];
      SelectAppend(RowsOf(entries[..i]), [row], matches);
      if matches(row) {
        out := out + [row];
      }
    }
    assert entries[..|entries|] == entries;
  }

  function Pow4(n: nat): (p: nat)
    ensures p >= 1
  {
    if n == 0 then 1 else 4 * Pow4(n - 1)
  }

  /** The rows found under a cap are the first rows of the whole range. */
  lemma CappedHits(ks: Keyspace, lo: Bytes, hi: Option<Bytes>, desc: bool, matches: Row -> bool, cap: nat)
    ensures Select(RowsOf(Scan(ks, lo, hi, desc, cap)), matches) <= Hits(ks, lo, hi, desc, matches)
    ensures |Scan(ks, lo, hi, desc, cap)| < cap || |Visits(ks, lo, hi, desc)| <= cap
            ==> Scan(ks, lo, hi, desc, cap) == Visits(ks, lo, hi, desc)
  {
    hide Visits, Select, RowsOf;
    var v := Visits(ks, lo, hi, desc);
    var s := Scan(ks, lo, hi, desc, cap);
    assert v == s + v[|s|..];
    RowsOfAppend(s, v[|s|..]);
    SelectAppend(RowsOf(s), RowsOf(v[|s|..]), matches);
  }

  lemma FirstOfPrefix(part: seq<Row>, whole: seq<Row>, n: nat)
    requires part <= whole
    requires |part| > n || part == whole
    ensures Take(part, n) == Take(whole, n)
    ensures |part| > n <==> |whole| > n
  {
    if |part| > n {
      assert part[..n] == whole[..n];
    }
  }

  /** One attempt: right whenever it found enough rows or saw the whole range. */
  method ScanOnce(ks: Keyspace, lo: Bytes, hi: Option<Bytes>, desc: bool, cap: nat, n: nat, matches: Row -> bool)
    returns (rows: seq<Row>, more: bool, complete: bool)
    ensures complete || |Visits(ks, lo, hi, desc)| <= cap ==>
              && rows == Take(Hits(ks, lo, hi, desc, matches), n)
              && (more <==> |Hits(ks, lo, hi, desc, matches)| > n)
  {
    hide Hits, Scan, Visits, Select;
    var entries := Scan(ks, lo, hi, desc, cap);
    var found := Pluck(entries, matches);
    CappedHits(ks, lo, hi, desc, matches, cap);
    HitsOfVisits(ks, lo, hi, desc, matches);
    complete := |found| >= n + 1 || |entries| < cap;
    rows, more := Take(found, n), |found| > n;
    if complete || |Visits(ks, lo, hi, desc)| <= cap {
      FirstOfPrefix(found, Hits(ks, lo, hi, desc, matches), n);
    }
  }

  /** The growing-cap loop returns the first `n` passing rows of the whole range and knows
      whether there is another, whenever the range is below the ceiling. */
  method ScanSide(ks: Keyspace, lo: Bytes, hi: Option<Bytes>, desc: bool, n: nat, residual: seq<Filter>, matches: Row -> bool)
    returns (rows: seq<Row>, more: bool)
    requires |Visits(ks, lo, hi, desc)| <= SCAN_CEILING
    ensures rows == Take(Hits(ks, lo, hi, desc, matches), n)
    ensures more <==> n > 0 && |Hits(ks, lo, hi, desc, matches)| > n
  {
    hide Hits, Visits, Take, Capped;
    if n == 0 {
      NoRows(Hits(ks, lo, hi, desc, matches));
      return [], false;
    }
    var want := n + 1;
    var cap := if residual != [] then want * 4 else want;
    var complete;
    CapStarts(cap);
    for attempt := 0 to MAX_ATTEMPTS
      invariant cap >= 0 && Capped(cap, attempt)
    {
      rows, more, complete := ScanOnce(ks, lo, hi, desc, cap, n, matches);
      if complete {
        return;
      }
      CapGrows(cap, attempt);
      cap := cap * 4;
    }
    CeilingReached(cap);
    rows, more, complete := ScanOnce(ks, lo, hi, desc, cap, n, matches);
  }

  lemma HitsOfVisits(ks: Keyspace, lo: Bytes, hi: Option<Bytes>, desc: bool, matches: Row -> bool)
    ensures Hits(ks, lo, hi, desc, matches) == Select(RowsOf(Visits(ks, lo, hi, desc)), matches)
  {
  }

  /** The cap after some attempts is at least that power of four. */
  ghost predicate Capped(cap: int, attempts: nat) {
    cap >= Pow4(attempts)
  }

  lemma CapStarts(cap: int)
    requires cap >= 1
    ensures Capped(cap, 0)
  {
  }

  lemma CapGrows(cap: int, attempts: nat)
    requires Capped(cap, attempts)
    ensures Capped(cap * 4, attempts + 1)
  {
  }

  lemma NoRows<T>(s: seq<T>)
    ensures Take(s, 0) == []
  {
  }

  lemma CeilingReached(cap: int)
    requires Capped(cap, MAX_ATTEMPTS)
    ensures cap >= SCAN_CEILING
  {
    assert Pow4(8) == 0x1_0000;
    assert Pow4(16) == 0x1_0000_0000;
  }

  // ---------------------------------------------------------------- the seek path

  /** Every row the scan of a side would visit, without a limit. */
  function AfterRows(ks: Keyspace, lo: Bytes, hi: Option<Bytes>, reverse: bool, anchor: Option<Bytes>, matches: Row -> bool): seq<Row> {
    if !reverse then Hits(ks, if anchor.Some? then anchor.value else lo, hi, false, matches)
    else Hits(ks, lo, if anchor.Some? then Some(Successor(anchor.value)) else hi, true, matches)
  }

  /** Nearest to the anchor first. */
  function BeforeRows(ks: Keyspace, lo: Bytes, hi: Option<Bytes>, reverse: bool, anchor: Option<Bytes>, matches: Row -> bool): seq<Row> {
    if !reverse then Hits(ks, lo, if anchor.Some? then anchor else hi, true, matches)
    else Hits(ks, if anchor.Some? then Successor(anchor.value) else lo, hi, false, matches)
  }

  lemma VisitsBounded(ks: Keyspace, lo: Bytes, hi: Option<Bytes>, desc: bool)
    ensures |Visits(ks, lo, hi, desc)| <= |ks|
  {
    KeysOrdered(KeysIn(ks, lo, hi));
    SubsetSize(KeysIn(ks, lo, hi), ks.Keys);
  }

  lemma {:induction false} SubsetSize<T>(a: set<T>, b: set<T>)
    requires a <= b
    ensures |a| <= |b|
  {
    if a == {} {
    } else {
      var x :| x in a;
      SubsetSize(a - {x}, b - {x});
    }
  }

  method AfterAt(ks: Keyspace, lo: Bytes, hi: Option<Bytes>, plan: SeekPlan, anchor: Option<Bytes>, n: nat, matches: Row -> bool)
    returns (rows: seq<Row>, more: bool)
    requires |ks| <= SCAN_CEILING
    ensures rows == Take(AfterRows(ks, lo, hi, plan.reverse, anchor, matches), n)
    ensures more <==> n > 0 && |AfterRows(ks, lo, hi, plan.reverse, anchor, matches)| > n
  {
    hide Hits, Visits, Take;
    if !plan.reverse {
      var from := if anchor.Some? then anchor.value else lo;
      VisitsBounded(ks, from, hi, false);
      rows, more := ScanSide(ks, from, hi, false, n, plan.residual, matches);
    } else {
      var to := if anchor.Some? then Some(Successor(anchor.value)) else hi;
      VisitsBounded(ks, lo, to, true);
      rows, more := ScanSide(ks, lo, to, true, n, plan.residual, matches);
    }
  }

  method BeforeStrict(ks: Keyspace, lo: Bytes, hi: Option<Bytes>, plan: SeekPlan, anchor: Option<Bytes>, n: nat, matches: Row -> bool)
    returns (rows: seq<Row>, more: bool)
    requires |ks| <= SCAN_CEILING
    ensures rows == Reverse(Take(BeforeRows(ks, lo, hi, plan.reverse, anchor, matches), n))
    ensures more <==> n > 0 && |BeforeRows(ks, lo, hi, plan.reverse, anchor, matches)| > n
  {
    hide Hits, Visits, Take, Reverse;
    var side: seq<Row>;
    if !plan.reverse {
      var to := if anchor.Some? then anchor else hi;
      VisitsBounded(ks, lo, to, true);
      side, more := ScanSide(ks, lo, to, true, n, plan.residual, matches);
    } else {
      var from := if anchor.Some? then Successor(anchor.value) else lo;
      VisitsBounded(ks, from, hi, false);
      side, more := ScanSide(ks, from, hi, false, n, plan.residual, matches);
    }
    rows := Reverse(side);
  }

  method CountGroup(ks: Keyspace, lo: Bytes, hi: Option<Bytes>, matches: Row -> bool) returns (total: nat)
    ensures |Visits(ks, lo, hi, false)| <= TOTAL_SCAN_CAP ==> total == |Hits(ks, lo, hi, false, matches)|
    ensures total <= |Hits(ks, lo, hi, false, matches)|
  {
    var rows := Pluck(Scan(ks, lo, hi, false, TOTAL_SCAN_CAP), matches);
    CappedHits(ks, lo, hi, false, matches, TOTAL_SCAN_CAP);
    total := |rows|;
  }

  /** The physical key an anchor sits at, or none for an edge: a key anchor whose row is
      gone or fails the filters falls back to the edge, and one whose row is there finds a
      malformed filter. */
  function PhysicalKey(s: State, t: TableInfo, spec: QuerySpec, anchor: Anchor, eqPrefix: seq<Scalar>): Result<Option<Bytes>, QueryError> {
    var order := EffectiveOrder(t, spec);
    match anchor
    case Latest => Ok(None)
    case Earliest => Ok(None)
    case Cursor(key) =>
      if key.None? || |key.value| != |order| then Err(BadCursor) else Ok(Some(EncodeKey(eqPrefix + key.value)))
    case Key(pk) =>
      var p, k := Primary(s, t), EncodeKey([pk]);
      if k !in p then Ok(None)
      else if !ValidFilters(spec.filters) then Err(MalformedFilter)
      else Ok(if Matches(p[k].row, spec.filters) then Some(EncodeKey(eqPrefix + KeyOf(p[k].row, order))) else None)
  }

  method ResolveAnchorKey(s: State, t: TableInfo, spec: QuerySpec, anchor: Anchor, order: seq<OrderKey>, eqPrefix: seq<Scalar>)
    returns (r: Result<Option<Bytes>, QueryError>)
    requires order == EffectiveOrder(t, spec)
    ensures r == PhysicalKey(s, t, spec, anchor, eqPrefix)
  {
    match anchor {
      case Latest => r := Ok(None);
      case Earliest => r := Ok(None);
      case Cursor(key) =>
        if key.None? || |key.value| != |order| {
          r := Err(BadCursor);
        } else {
          var k := BuildKey(eqPrefix + key.value);
          r := Ok(Some(k));
        }
      case Key(pk) =>
        var at := BuildKey([pk]);
        var hit := GetByKey(s, KeyspaceId(t.name, PRIMARY), at);
        if hit.None? {
          return Ok(None);
        }
        var matcher := CompileMatcher(spec.filters);
        if matcher.Err? {
          return Err(matcher.error);
        }
        if !matcher.value(hit.value.row) {
          return Ok(None);
        }
        var k := BuildKey(eqPrefix + KeyOf(hit.value.row, order));
        r := Ok(Some(k));
    }
  }

  ghost predicate PlainAnchor(anchor: Anchor) {
    match anchor
    case Cursor(key) => key.Some? ==> PlainTuple(key.value)
    case Key(k) => Regular(k)
    case _ => true
  }

  /** What the proofs assume of the data and the query: the store in step, plain keys, and a
      keyspace below the scan ceiling. */
  ghost predicate Assumptions(s: State, t: TableInfo, spec: QuerySpec, anchor: Anchor) {
    && Consistent(s, t) && RegularPks(s, t) && RegularPins(spec.filters) && PlainAnchor(anchor)
    && (Chosen(t, spec).Some? ==> PlainIndex(s, t, spec))
    && DistinctColumns(EffectiveOrder(t, spec))
    && forall id :: id in s.keyspaces ==> |s.keyspaces[id]| <= SCAN_CEILING
  }

  /** The rows and flags of a window; the total when the group is within the count cap. */
  ghost predicate Loads(w: WindowResult, page: WindowResult, exactTotal: bool) {
    w.rows == page.rows && w.hasOlder == page.hasOlder && w.hasNewer == page.hasNewer
    && (exactTotal ==> w.total == page.total)
  }

  lemma PlannedResidual(t: TableInfo, spec: QuerySpec, plan: SeekPlan)
    requires Plan(t, spec) == Some(plan)
    ensures Chosen(t, spec).Some?
    ensures var c := Chosen(t, spec).value;
            && plan.residual == ResidualFrom(c.columns, spec.filters, 0)
            && plan.eqPrefix == EqPrefix(c.columns, spec.filters)
            && plan.keyspace == KeyspaceId(t.name, c.id)
            && plan.reverse == AllDescending(EffectiveOrder(t, spec))
    ensures ValidFilters(spec.filters) ==> ValidFilters(plan.residual)
  {
    if ValidFilters(spec.filters) {
      PlanKeepsFilters(Chosen(t, spec).value, spec.filters, map[]);
    }
  }

  lemma {:induction false} SelectSame<T(!new)>(s: seq<T>, p: T -> bool, q: T -> bool)
    requires forall x :: p(x) == q(x)
    ensures Select(s, p) == Select(s, q)
  {
    if s == [] {
    } else {
      SelectSame(s[1..], p, q);
    }
  }

  lemma HitsSame(ks: Keyspace, lo: Bytes, hi: Option<Bytes>, desc: bool, p: Row -> bool, q: Row -> bool)
    requires forall x :: p(x) == q(x)
    ensures Hits(ks, lo, hi, desc, p) == Hits(ks, lo, hi, desc, q)
  {
    SelectSame(RowsOf(Visits(ks, lo, hi, desc)), p, q);
  }

  /** Without a cut, either side is the whole answer; with one, the part on its side. */
  function SideFrom(d: seq<Row>, at: Spot): seq<Row>
    requires ValidSpot(d, at)
  {
    if at.At? then d[at.i..] else d
  }

  function SideUpTo(d: seq<Row>, at: Spot): seq<Row>
    requires ValidSpot(d, at)
  {
    if at.At? then d[..at.i] else d
  }

  /** The two scans of a planned window visit the answer from the anchor on, and the answer
      before the anchor backwards. */
  lemma SeekSides(s: State, t: TableInfo, spec: QuerySpec, plan: SeekPlan, anchor: Anchor)
    requires Plan(t, spec) == Some(plan) && Assumptions(s, t, spec, anchor) && ValidFilters(spec.filters)
    requires PhysicalKey(s, t, spec, anchor, plan.eqPrefix).Ok?
    ensures ValidFilters(plan.residual) && Chosen(t, spec).Some?
    ensures var d, phys := Answer(s, t, spec), PhysicalKey(s, t, spec, anchor, plan.eqPrefix).value;
            var spot := SpotOf(d, t.pk, EffectiveOrder(t, spec), anchor);
            var ks, lo, hi := KeyspaceOf(s, plan.keyspace), GroupLoOf(t, spec), GroupHiOf(t, spec);
            && spot.Ok?
            && AfterRows(ks, lo, hi, plan.reverse, phys, RowTest(plan.residual)) == SideFrom(d, spot.value)
            && BeforeRows(ks, lo, hi, plan.reverse, phys, RowTest(plan.residual)) == Reverse(SideUpTo(d, spot.value))
  {
    hide Take, TakeLast, Reverse, Hits, Visits, EncodeKey, Matches, InRange, Consistent, PlainIndex, Answer,
      Lex.Compare, Successor;
    PlannedResidual(t, spec, plan);
    var phys := PhysicalKey(s, t, spec, anchor, plan.eqPrefix).value;
    if phys.None? {
      UncutSides(s, t, spec, plan);
      if anchor.Key? {
        KeyAnchorSpot(s, t, spec, anchor.pk);
      }
    } else {
      var k, a := AnchorTuple(s, t, spec, plan, anchor);
      CutSides(s, t, spec, plan, k, a);
    }
  }

  lemma UncutSides(s: State, t: TableInfo, spec: QuerySpec, plan: SeekPlan)
    requires Plan(t, spec) == Some(plan) && Ready(s, t, spec) && ValidFilters(plan.residual)
    ensures var ks, lo, hi := KeyspaceOf(s, plan.keyspace), GroupLoOf(t, spec), GroupHiOf(t, spec);
            && AfterRows(ks, lo, hi, plan.reverse, None, RowTest(plan.residual)) == Answer(s, t, spec)
            && BeforeRows(ks, lo, hi, plan.reverse, None, RowTest(plan.residual)) == Reverse(Answer(s, t, spec))
  {
    hide Take, TakeLast, Reverse, Hits, Visits, EncodeKey, Matches, InRange, Consistent, PlainIndex, Answer,
      Lex.Compare, Successor;
    PlannedResidual(t, spec, plan);
    ReverseTake(Answer(s, t, spec), 0);
    GroupIsAnswer(s, t, spec);
    HitsBackward(KeyspaceOf(s, plan.keyspace), GroupLoOf(t, spec), GroupHiOf(t, spec), RowTest(plan.residual));
  }

  lemma CutSides(s: State, t: TableInfo, spec: QuerySpec, plan: SeekPlan, k: seq<Scalar>, a: Row)
    requires Plan(t, spec) == Some(plan) && Ready(s, t, spec) && ValidFilters(plan.residual)
    requires PlainTuple(k) && KeyOf(a, EffectiveOrder(t, spec)) == k
    ensures var d := Answer(s, t, spec);
            var i := FirstAtOrAfter(d, a, EffectiveOrder(t, spec));
            var ks, lo, hi, at := KeyspaceOf(s, plan.keyspace), GroupLoOf(t, spec), GroupHiOf(t, spec), Some(AnchorKey(t, spec, k));
            && AfterRows(ks, lo, hi, plan.reverse, at, RowTest(plan.residual)) == d[i..]
            && BeforeRows(ks, lo, hi, plan.reverse, at, RowTest(plan.residual)) == Reverse(d[..i])
  {
    hide Take, TakeLast, Reverse, Hits, Visits, EncodeKey, Matches, InRange, Consistent, PlainIndex, Answer,
      Lex.Compare, Successor, FirstAtOrAfter;
    PlannedResidual(t, spec, plan);
    AnchorSplits(s, t, spec, k, a);
    var d := Answer(s, t, spec);
    var i := FirstAtOrAfter(d, a, EffectiveOrder(t, spec));
    ReverseTake(d[i..], 0);
    ReverseTake(d[..i], 0);
    HitsBackward(KeyspaceOf(s, plan.keyspace), GroupLoOf(t, spec), Some(CutKey(t, spec, k)), RowTest(plan.residual));
  }

  /** The sort-key tuple a resolved anchor stands for, and a row that has it. */
  lemma AnchorTuple(s: State, t: TableInfo, spec: QuerySpec, plan: SeekPlan, anchor: Anchor) returns (k: seq<Scalar>, a: Row)
    requires Plan(t, spec) == Some(plan) && Assumptions(s, t, spec, anchor) && ValidFilters(spec.filters)
    requires var phys := PhysicalKey(s, t, spec, anchor, plan.eqPrefix); phys.Ok? && phys.value.Some?
    ensures Chosen(t, spec).Some?
    ensures var order, d := EffectiveOrder(t, spec), Answer(s, t, spec);
            && PlainTuple(k) && KeyOf(a, order) == k
            && PhysicalKey(s, t, spec, anchor, plan.eqPrefix) == Ok(Some(AnchorKey(t, spec, k)))
            && SpotOf(d, t.pk, order, anchor) == Ok(At(FirstAtOrAfter(d, a, order)))
  {
    hide EncodeKey, Matches, Consistent, PlainIndex, Answer, KeyOf, FindPk, FirstAtOrAfter;
    PlannedResidual(t, spec, plan);
    var order := EffectiveOrder(t, spec);
    if anchor.Cursor? {
      k := anchor.key.value;
      a := FromKey(order, k);
      KeyOfFromKey(order, k);
    } else {
      a := Primary(s, t)[EncodeKey([anchor.pk])].row;
      k := KeyOf(a, order);
      KeyAnchorSpot(s, t, spec, anchor.pk);
      PlainSortKey(s, t, spec, a);
    }
  }

  /** The rows and flags a seek assembles from its two sides. */
  ghost predicate Assembled(w: WindowResult, opts: PaginationOpts, beforeRows: seq<Row>, afterRows: seq<Row>) {
    var older := if opts.anchor.Earliest? then [] else beforeRows;
    var newer := if opts.anchor.Latest? then [] else afterRows;
    && w.rows == Reverse(Take(older, opts.before)) + Take(newer, opts.after)
    && w.hasOlder == (opts.before > 0 && |older| > opts.before)
    && w.hasNewer == (opts.after > 0 && |newer| > opts.after)
  }

  lemma AssembledLoads(d: seq<Row>, at: Spot, opts: PaginationOpts, w: WindowResult)
    requires ValidSpot(d, at)
    requires at.Start? <==> opts.anchor.Earliest?
    requires at.End? <==> opts.anchor.Latest?
    requires Assembled(w, opts, Reverse(SideUpTo(d, at)), SideFrom(d, at))
    ensures Loads(w, SeekPage(d, at, opts.before, opts.after), false)
  {
    ReverseTake(SideUpTo(d, at), opts.before);
    ReverseTake(OlderPart(d, at), opts.before);
    assert Reverse<Row>([]) == [];
  }

  /** Main result for the seek path. */
  lemma SeekLoads(s: State, t: TableInfo, spec: QuerySpec, opts: PaginationOpts, plan: SeekPlan, matches: Row -> bool, w: WindowResult)
    requires Plan(t, spec) == Some(plan) && Assumptions(s, t, spec, opts.anchor) && ValidFilters(spec.filters)
    requires PhysicalKey(s, t, spec, opts.anchor, plan.eqPrefix).Ok?
    requires ValidFilters(plan.residual) && forall row :: matches(row) == Matches(row, plan.residual)
    requires var phys := PhysicalKey(s, t, spec, opts.anchor, plan.eqPrefix).value;
             var ks, lo, hi := KeyspaceOf(s, plan.keyspace), EncodeKey(plan.eqPrefix), GroupHi(plan.eqPrefix);
             && Assembled(w, opts, BeforeRows(ks, lo, hi, plan.reverse, phys, matches),
                                   AfterRows(ks, lo, hi, plan.reverse, phys, matches))
             && (|Visits(ks, lo, hi, false)| <= TOTAL_SCAN_CAP ==> w.total == |Hits(ks, lo, hi, false, matches)|)
    ensures var d := Answer(s, t, spec);
            var spot := SpotOf(d, t.pk, EffectiveOrder(t, spec), opts.anchor);
            spot.Ok? && Loads(w, SeekPage(d, spot.value, opts.before, opts.after),
              |Visits(KeyspaceOf(s, plan.keyspace), EncodeKey(plan.eqPrefix), GroupHi(plan.eqPrefix), false)| <= TOTAL_SCAN_CAP)
  {
    hide Take, TakeLast, Reverse, Hits, Visits, EncodeKey, Matches, InRange, Consistent, PlainIndex, Answer,
      Lex.Compare, Assembled, PhysicalKey, AfterRows, BeforeRows, EffectiveOrder;
    PlannedResidual(t, spec, plan);
    SeekSides(s, t, spec, plan, opts.anchor);
    var d, phys := Answer(s, t, spec), PhysicalKey(s, t, spec, opts.anchor, plan.eqPrefix).value;
    var ks, lo, hi := KeyspaceOf(s, plan.keyspace), EncodeKey(plan.eqPrefix), GroupHi(plan.eqPrefix);
    SidesSame(ks, lo, hi, plan.reverse, phys, matches, RowTest(plan.residual));
    GroupSize(s, t, spec, plan);
    AssembledLoads(d, SpotOf(d, t.pk, EffectiveOrder(t, spec), opts.anchor).value, opts, w);
  }

  lemma GroupSize(s: State, t: TableInfo, spec: QuerySpec, plan: SeekPlan)
    requires Plan(t, spec) == Some(plan) && Ready(s, t, spec) && ValidFilters(plan.residual)
    ensures |Hits(KeyspaceOf(s, plan.keyspace), EncodeKey(plan.eqPrefix), GroupHi(plan.eqPrefix), false, RowTest(plan.residual))|
            == |Answer(s, t, spec)|
  {
    hide Reverse, Hits, EncodeKey, Matches, Consistent, PlainIndex, Answer;
    PlannedResidual(t, spec, plan);
    GroupIsAnswer(s, t, spec);
    ReverseTake(Answer(s, t, spec), 0);
  }

  lemma SidesSame(ks: Keyspace, lo: Bytes, hi: Option<Bytes>, reverse: bool, anchor: Option<Bytes>, p: Row -> bool, q: Row -> bool)
    requires forall x :: p(x) == q(x)
    ensures AfterRows(ks, lo, hi, reverse, anchor, p) == AfterRows(ks, lo, hi, reverse, anchor, q)
    ensures BeforeRows(ks, lo, hi, reverse, anchor, p) == BeforeRows(ks, lo, hi, reverse, anchor, q)
    ensures Hits(ks, lo, hi, false, p) == Hits(ks, lo, hi, false, q)
  {
    hide Hits;
    HitsSame(ks, lo, hi, false, p, q);
    HitsSame(ks, if anchor.Some? then anchor.value else lo, hi, false, p, q);
    HitsSame(ks, lo, if anchor.Some? then Some(Successor(anchor.value)) else hi, true, p, q);
    HitsSame(ks, lo, if anchor.Some? then anchor else hi, true, p, q);
    HitsSame(ks, if anchor.Some? then Successor(anchor.value) else lo, hi, false, p, q);
  }

  lemma EmptySides()
    ensures forall n: nat :: Take<Row>([], n) == [] && Reverse(Take<Row>([], n)) == []
  {
  }

  /** The sides the anchor has, and the count of the group. */
  method LoadSides(ks: Keyspace, lo: Bytes, hi: Option<Bytes>, plan: SeekPlan, anchor: Option<Bytes>, opts: PaginationOpts,
                   matches: Row -> bool) returns (w: WindowResult)
    requires |ks| <= SCAN_CEILING
    ensures Assembled(w, opts, BeforeRows(ks, lo, hi, plan.reverse, anchor, matches), AfterRows(ks, lo, hi, plan.reverse, anchor, matches))
    ensures |Visits(ks, lo, hi, false)| <= TOTAL_SCAN_CAP ==> w.total == |Hits(ks, lo, hi, false, matches)|
  {
    hide Take, Reverse, Hits, Visits, AfterRows, BeforeRows;
    var beforeRows: seq<Row>, afterRows: seq<Row> := [], [];
    var hasOlder, hasNewer := false, false;
    match opts.anchor {
      case Latest =>
        beforeRows, hasOlder := BeforeStrict(ks, lo, hi, plan, anchor, opts.before, matches);
      case Earliest =>
        afterRows, hasNewer := AfterAt(ks, lo, hi, plan, anchor, opts.after, matches);
      case _ =>
        beforeRows, hasOlder := BeforeStrict(ks, lo, hi, plan, anchor, opts.before, matches);
        afterRows, hasNewer := AfterAt(ks, lo, hi, plan, anchor, opts.after, matches);
    }
    var total := CountGroup(ks, lo, hi, matches);
    w := WindowResult(beforeRows + afterRows, hasOlder, hasNewer, total);
    EmptySides();
  }

  method SeekWindow(s: State, t: TableInfo, spec: QuerySpec, opts: PaginationOpts, plan: SeekPlan)
    returns (r: Result<WindowResult, QueryError>)
    requires Plan(t, spec) == Some(plan) && Assumptions(s, t, spec, opts.anchor)
    ensures !ValidFilters(plan.residual) ==> r == Err(MalformedFilter)
    ensures ValidFilters(spec.filters) ==> SeekMeets(s, t, spec, opts, plan, r)
  {
    hide Take, TakeLast, Reverse, Hits, Visits, EncodeKey, Matches, Assumptions, AfterRows, BeforeRows, PhysicalKey,
      SeekMeets, SeekPage, Loads, Answer, SpotOf;
    var order := EffectiveOrder(t, spec);
    var lo := BuildKey(plan.eqPrefix);
    var hi: Option<Bytes> := None;
    if |plan.eqPrefix| > 0 {
      hi := FindPrefixUpperBound(lo);
    }
    var matcher := CompileMatcher(plan.residual);
    PlannedResidual(t, spec, plan);
    if matcher.Err? {
      return Err(matcher.error);
    }
    var matches := matcher.value;
    var resolved := ResolveAnchorKey(s, t, spec, opts.anchor, order, plan.eqPrefix);
    if resolved.Err? {
      r := Err(resolved.error);
      if ValidFilters(spec.filters) {
        SeekFails(s, t, spec, opts, plan);
      }
      return;
    }
    var ks := KeyspaceOf(s, plan.keyspace);
    KeyspaceBounded(s, t, spec, opts.anchor, plan.keyspace);
    var w := LoadSides(ks, lo, hi, plan, resolved.value, opts, matches);
    r := Ok(w);
    if ValidFilters(spec.filters) {
      SeekLoads(s, t, spec, opts, plan, matches, w);
      SeekSucceeds(s, t, spec, opts, plan, r);
    }
  }

  /** The seek result is the window of the answer, or the cursor's error. */
  ghost predicate SeekMeets(s: State, t: TableInfo, spec: QuerySpec, opts: PaginationOpts, plan: SeekPlan, r: Result<WindowResult, QueryError>)
    requires Plan(t, spec) == Some(plan) && Assumptions(s, t, spec, opts.anchor) && ValidFilters(spec.filters)
  {
    var d := Answer(s, t, spec);
    match SpotOf(d, t.pk, EffectiveOrder(t, spec), opts.anchor)
    case Err(e) => r == Err(e)
    case Ok(at) =>
      && r.Ok?
      && Loads(r.value, SeekPage(d, at, opts.before, opts.after), GroupCounted(s, plan))
  }

  /** The group is small enough for its total to be counted exactly. */
  ghost predicate GroupCounted(s: State, plan: SeekPlan) {
    |Visits(KeyspaceOf(s, plan.keyspace), EncodeKey(plan.eqPrefix), GroupHi(plan.eqPrefix), false)| <= TOTAL_SCAN_CAP
  }

  lemma SeekFails(s: State, t: TableInfo, spec: QuerySpec, opts: PaginationOpts, plan: SeekPlan)
    requires Plan(t, spec) == Some(plan) && Assumptions(s, t, spec, opts.anchor) && ValidFilters(spec.filters)
    requires PhysicalKey(s, t, spec, opts.anchor, plan.eqPrefix).Err?
    ensures SeekMeets(s, t, spec, opts, plan, Err(PhysicalKey(s, t, spec, opts.anchor, plan.eqPrefix).error))
  {
  }

  lemma SeekSucceeds(s: State, t: TableInfo, spec: QuerySpec, opts: PaginationOpts, plan: SeekPlan, r: Result<WindowResult, QueryError>)
    requires Plan(t, spec) == Some(plan) && Assumptions(s, t, spec, opts.anchor) && ValidFilters(spec.filters)
    requires r.Ok?
    requires var d := Answer(s, t, spec);
             var spot := SpotOf(d, t.pk, EffectiveOrder(t, spec), opts.anchor);
             spot.Ok? && Loads(r.value, SeekPage(d, spot.value, opts.before, opts.after), GroupCounted(s, plan))
    ensures SeekMeets(s, t, spec, opts, plan, r)
  {
  }

  lemma KeyspaceBounded(s: State, t: TableInfo, spec: QuerySpec, anchor: Anchor, id: KeyspaceId)
    requires Assumptions(s, t, spec, anchor)
    ensures |KeyspaceOf(s, id)| <= SCAN_CEILING
  {
  }

  // ---------------------------------------------------------------- the fallback path

  /** `r` goes before the first row it sorts before. */
  function Insert(sorted: seq<Row>, r: Row, order: seq<OrderKey>): seq<Row> {
    if sorted == [] || CompareRows(r, sorted[0], order) < 0 then [r] + sorted
    else [sorted[0]] + Insert(sorted[1..], r, order)
  }

  /** A stable sort, as `Array.prototype.sort` is. */
  function SortRows(rows: seq<Row>, order: seq<OrderKey>): seq<Row> {
    if rows == [] then [] else Insert(SortRows(rows[..|rows| - 1], order), rows[|rows| - 1], order)
  }

  ghost predicate Distinct(rows: seq<Row>, order: seq<OrderKey>) {
    forall i, j :: 0 <= i < j < |rows| ==> CompareRows(rows[i], rows[j], order) != 0
  }

  lemma {:induction false} InsertMember(sorted: seq<Row>, r: Row, order: seq<OrderKey>, x: Row)
    ensures x in Insert(sorted, r, order) <==> x == r || x in sorted
  {
    if sorted == [] || CompareRows(r, sorted[0], order) < 0 {
    } else {
      InsertMember(sorted[1..], r, order, x);
      assert sorted == [sorted[0]] + sorted[1..];
    }
  }

  lemma {:induction false} InsertAscends(sorted: seq<Row>, r: Row, order: seq<OrderKey>)
    requires Ascending(sorted, RowLess(order))
    requires forall x :: x in sorted ==> CompareRows(x, r, order) != 0
    ensures Ascending(Insert(sorted, r, order), RowLess(order))
  {
    if sorted == [] {
    } else if CompareRows(r, sorted[0], order) < 0 {
      TailAscends(sorted, RowLess(order));
      assert sorted == [sorted[0]] + sorted[1..];
      forall x | x in sorted ensures RowLess(order)(r, x) {
        if x != sorted[0] {
          assert RowLess(order)(sorted[0], x);
          CompareRowsTransitive(r, sorted[0], x, order);
        }
      }
      ConcatAscending([r], sorted, RowLess(order));
    } else {
      TailAscends(sorted, RowLess(order));
      InsertAscends(sorted[1..], r, order);
      assert sorted[0] in sorted;
      CompareRowsFlips(sorted[0], r, order);
      forall x | x in Insert(sorted[1..], r, order) ensures RowLess(order)(sorted[0], x) {
        InsertMember(sorted[1..], r, order, x);
      }
      ConcatAscending([sorted[0]], Insert(sorted[1..], r, order), RowLess(order));
    }
  }

  lemma {:induction false} SortRowsSorts(rows: seq<Row>, order: seq<OrderKey>)
    requires Distinct(rows, order)
    ensures Ascending(SortRows(rows, order), RowLess(order))
    ensures forall x :: x in SortRows(rows, order) <==> x in rows
  {
    if rows == [] {
    } else {
      var n := |rows| - 1;
      var init, last := rows[..n], rows[n];
      assert rows == init + [last];
      SortRowsSorts(init, order);
      forall x | x in SortRows(init, order) ensures CompareRows(x, last, order) != 0 {
        var i :| 0 <= i < |init| && init[i] == x;
        assert CompareRows(rows[i], rows[n], order) != 0;
      }
      InsertAscends(SortRows(init, order), last, order);
      forall x ensures x in SortRows(rows, order) <==> x in rows {
        InsertMember(SortRows(init, order), last, order, x);
      }
    }
  }

  function KeyRowLess(columns: seq<string>): (Row, Row) -> bool {
    (a: Row, b: Row) => KeyLess(RowKey(columns, a), RowKey(columns, b))
  }

  /** The filtered primary scan lists each matching row once. */
  lemma PrimaryHits(s: State, t: TableInfo, spec: QuerySpec, matches: Row -> bool)
    requires Consistent(s, t) && RegularPks(s, t) && ValidFilters(spec.filters)
    requires forall row :: matches(row) == Matches(row, spec.filters)
    ensures var all := Hits(Primary(s, t), [], None, false, matches);
            && Distinct(all, EffectiveOrder(t, spec))
            && forall r :: r in all <==> r in MatchingRows(s, t, spec)
  {
    hide Matches, Lex.Compare;
    var p, order := Primary(s, t), EffectiveOrder(t, spec);
    var keys, rows := KeyRange(p, [], None), RowsOf(Visits(p, [], None, false));
    var all := Hits(p, [], None, false, matches);
    assert InStep(s, t, Candidates(t)[0]);
    var less := KeyRowLess([t.pk]);
    forall i, j | 0 <= i < j < |rows| ensures less(rows[i], rows[j]) {
      assert keys[i] in keys && keys[j] in keys;
      assert KeyLess(keys[i], keys[j]);
    }
    SelectAscending(rows, matches, less);
    forall r ensures r in all <==> r in MatchingRows(s, t, spec) {
      HitsMember(p, [], None, matches, r);
      forall k | k in p ensures InRange(k, [], None) {
        EmptyIsLeast(k);
      }
    }
    RowsOrdered(s, t, MatchingRows(s, t, spec), order);
    forall i, j | 0 <= i < j < |all| ensures CompareRows(all[i], all[j], order) != 0 {
      assert all[i] in all && all[j] in all;
      assert less(all[i], all[j]);
      KeyLessDiffers(RowKey([t.pk], all[i]), RowKey([t.pk], all[j]));
      CompareRowsFlips(all[i], all[j], order);
      assert RowLess(order)(all[i], all[j]) || RowLess(order)(all[j], all[i]);
    }
  }

  lemma EmptyIsLeast(k: Bytes)
    ensures InRange(k, [], None)
  {
  }

  lemma KeyLessDiffers(a: Bytes, b: Bytes)
    requires KeyLess(a, b)
    ensures a != b
  {
  }

  ghost predicate FallbackMeets(s: State, t: TableInfo, spec: QuerySpec, opts: PaginationOpts, r: Result<WindowResult, QueryError>)
    requires Consistent(s, t) && RegularPks(s, t)
  {
    if t.strictIndexes then r == Err(Unindexed)
    else if !ValidFilters(spec.filters) then r == Err(MalformedFilter)
    else if |Visits(Primary(s, t), [], None, false)| > FALLBACK_SCAN_CAP then r == Err(TooManyRows)
    else
      var d := Answer(s, t, spec);
      match SpotOf(d, t.pk, EffectiveOrder(t, spec), opts.anchor)
      case Err(e) => r == Err(e)
      case Ok(at) => r == Ok(FallbackPage(d, at, opts.before, opts.after))
  }

  /** Windowing the sorted rows, as the tail of the fallback does. */
  method WindowOfSorted(all: seq<Row>, pk: string, order: seq<OrderKey>, opts: PaginationOpts) returns (r: Result<WindowResult, QueryError>)
    ensures r == match SpotOf(all, pk, order, opts.anchor)
                 case Err(e) => Err(e)
                 case Ok(at) => Ok(FallbackPage(all, at, opts.before, opts.after))
  {
    hide SpotOf, IndexOf, FindPk, FirstAtOrAfter, FromKey, CompareRows;
    var at := SpotOf(all, pk, order, opts.anchor);
    if at.Err? {
      return Err(at.error);
    }
    var idx := IndexOf(all, at.value);
    var start := if idx >= opts.before then idx - opts.before else 0;
    var end := if idx + opts.after <= |all| then idx + opts.after else |all|;
    r := Ok(WindowResult(all[start..end], start > 0, end < |all|, |all|));
  }

  method FallbackWindow(s: State, t: TableInfo, spec: QuerySpec, opts: PaginationOpts) returns (r: Result<WindowResult, QueryError>)
    requires Consistent(s, t) && RegularPks(s, t)
    ensures FallbackMeets(s, t, spec, opts, r)
  {
    hide Visits, Select, Consistent, RegularPks, Matches, SortRows, CompareRows, SpotOf, FallbackPage, Answer,
      EffectiveOrder;
    if t.strictIndexes {
      return Err(Unindexed);
    }
    var matcher := CompileMatcher(spec.filters);
    if matcher.Err? {
      return Err(matcher.error);
    }
    var entries := Scan(Primary(s, t), [], None, false, FALLBACK_SCAN_CAP + 1);
    if |entries| > FALLBACK_SCAN_CAP {
      return Err(TooManyRows);
    }
    var order := EffectiveOrder(t, spec);
    var found := Pluck(entries, matcher.value);
    PrimaryHits(s, t, spec, matcher.value);
    SortRowsSorts(found, order);
    var all := SortRows(found, order);
    AnswerUnique(s, t, spec, all);
    r := WindowOfSorted(all, t.pk, order, opts);
  }

  // ---------------------------------------------------------------- both paths

  method MaterializeWindow(s: State, t: TableInfo, spec: QuerySpec, opts: PaginationOpts) returns (r: Result<WindowResult, QueryError>)
    requires Assumptions(s, t, spec, opts.anchor)
    ensures var plan := Plan(t, spec);
            if plan.None? then FallbackMeets(s, t, spec, opts, r)
            else ValidFilters(spec.filters) ==> SeekMeets(s, t, spec, opts, plan.value, r)
  {
    var plan := ChooseIndex(t, spec);
    if plan.None? {
      r := FallbackWindow(s, t, spec, opts);
    } else {
      r := SeekWindow(s, t, spec, opts, plan.value);
    }
  }

  /** Main result: wherever both paths answer, they load the same rows exactly when the anchor
      resolves or nothing is asked for after it; the flags agree on every side of positive
      size, and the total whenever the group is within the count cap. */
  lemma SeekRefinesFallback(s: State, t: TableInfo, spec: QuerySpec, opts: PaginationOpts, plan: SeekPlan,
                            seek: Result<WindowResult, QueryError>, plain: Result<WindowResult, QueryError>)
    requires Plan(t, spec) == Some(plan) && Assumptions(s, t, spec, opts.anchor) && ValidFilters(spec.filters)
    requires SeekMeets(s, t, spec, opts, plan, seek) && FallbackMeets(s, t, spec, opts, plain)
    ensures seek.Err? ==> plain.Err?
    ensures plain.Ok? ==>
              var d := Answer(s, t, spec);
              var spot := SpotOf(d, t.pk, EffectiveOrder(t, spec), opts.anchor);
              && spot.Ok? && seek.Ok?
              && (seek.value.rows == plain.value.rows <==> spot.value != Nowhere || opts.after == 0 || d == [])
              && (spot.value != Nowhere ==>
                    && seek.value.hasOlder == (opts.before > 0 && plain.value.hasOlder)
                    && seek.value.hasNewer == (opts.after > 0 && plain.value.hasNewer))
              && (GroupCounted(s, plan) ==> seek.value.total == plain.value.total)
  {
    hide Answer, Consistent, RegularPks, PlainIndex, GroupCounted, SeekPage, FallbackPage;
    if plain.Ok? {
      var d := Answer(s, t, spec);
      var spot := SpotOf(d, t.pk, EffectiveOrder(t, spec), opts.anchor).value;
      SeekIsFallbackExactly(d, spot, opts.before, opts.after);
      if spot != Nowhere {
        FlagsAgree(d, spot, opts.before, opts.after);
      }
    }
  }
}
