/** One live subscription end to end: commits, window changes, lost connections and reconnects,
    with a FIFO channel each way (packages/server/src/reactive.ts,
    packages/engine/src/ivm.ts, packages/client/src/client.ts, packages/client/src/store.ts). */
module Sync {
  import opened Values
  import opened Wrappers
  import opened Sorting
  import opened Store
  import opened Schema
  import opened Query
  import opened Database
  import opened Window
  import opened EngineModule
  import opened Protocol
  import opened Ivm
  import opened Live
  import opened Hub
  import Paginate
  import opened Mirror
  import ClientStore

  /** What stays fixed over a run: the schema, the query and the subscription that asks it.
      `exact` says whether every group met is within the count cap. */
  datatype Config = Config(schema: seq<TableInfo>, t: TableInfo, spec: QuerySpec, blank: SubRecord, exact: bool)

  datatype Up = Ask(window: PaginationOpts, resumeAt: Option<nat>) | Move(window: PaginationOpts)

  /** A message on its way, with the window it was computed for. */
  datatype Packet = Packet(message: Message, window: PaginationOpts)

  /** The client's side: the window it wants, the map, array and counters of its store, and
      the window of the last page it took in. */
  datatype Client = Client(
    open: bool,
    window: PaginationOpts,
    held: Held,
    pk: string,
    order: seq<OrderKey>,
    total: int,
    hasOlder: bool,
    hasNewer: bool,
    watermark: nat,
    firstDelta: bool,
    seen: PaginationOpts)

  datatype Sys = Sys(db: State, rec: Option<SubRecord>, up: seq<Up>, down: seq<Packet>, client: Client)

  datatype Step =
    | Write(changes: seq<RowChange>, next: State, page: PageOutput)
    | Pick(window: PaginationOpts)
    | Serve(page: PageOutput)
    | Deliver
    | Cut
    | Connect

  // ---------------------------------------------------------------- steps

  function Receive(c: Client, p: Packet): Client {
    match p.message
    case Subscribed(_, pk, order) => c.(pk := pk, order := order)
    case PageDelta(_, upserts, removes, hasOlder, hasNewer, total, watermark, reset) =>
      var replace := if reset.Some? then reset.value else c.firstDelta;
      c.(held := Patch(c.held, upserts, removes, c.pk, c.order, replace), total := total, hasOlder := hasOlder,
         hasNewer := hasNewer, watermark := watermark, firstDelta := false, seen := p.window)
    case Failure(_, _) => c
  }

  function ReceiveAll(c: Client, ps: seq<Packet>): Client {
    if ps == [] then c else Receive(ReceiveAll(c, ps[..|ps| - 1]), ps[|ps| - 1])
  }

  function Packets(messages: seq<Message>, w: PaginationOpts): (r: seq<Packet>)
    ensures |r| == |messages|
    ensures forall i :: 0 <= i < |r| ==> r[i] == Packet(messages[i], w)
  {
    seq(|messages|, i requires 0 <= i < |messages| => Packet(messages[i], w))
  }

  /** The runtime on this state, with the page of one window: it answers the subscription's own
      query, asked under that window and the subscriber's identity, and no other request. */
  function AtMoment(cfg: Config, db: State, w: PaginationOpts, page: PageOutput): Runtime {
    Runtime(db.lsn, (q: Request) =>
      if q == Request(cfg.blank.name, cfg.blank.args, Some(w), cfg.blank.identity) then Captured(cfg.spec, page)
      else Threw("no such query here"))
  }

  /** The record is the configured subscription's. */
  predicate Ours(cfg: Config, rec: SubRecord) {
    rec.name == cfg.blank.name && rec.args == cfg.blank.args && rec.identity == cfg.blank.identity
  }

  ghost predicate ValidConfig(cfg: Config) {
    && ValidSchema(cfg.schema) && cfg.t in cfg.schema
    && ValidFilters(cfg.spec.filters) && cfg.blank.ivm == None && !cfg.blank.paginated
  }

  /** The page is what materializing the window gives on this state. */
  ghost predicate PageOf(cfg: Config, db: State, w: PaginationOpts, page: PageOutput) {
    && Healthy(db, cfg.t, cfg.spec) && Anchored(db, cfg.t, cfg.spec, w)
    && page.pk == cfg.t.pk && page.order == EffectiveOrder(cfg.t, cfg.spec)
    && Paginate.Loads(page.window, FreshWindow(db, cfg.t, cfg.spec, w), cfg.exact)
  }

  ghost predicate WindowOk(rec: SubRecord) {
    rec.window.Some? && Tracked(rec)
  }

  /** What one commit makes of the record and sends down. */
  ghost predicate Tells(cfg: Config, db: State, page: PageOutput, was: SubRecord, chs: seq<RowChange>, sent: seq<Packet>, b: Sys)
    requires ValidConfig(cfg) && WindowOk(was)
  {
    var r := Notified(AtMoment(cfg, db, was.window.value, page), was, chs);
    r.Ok? && b.rec == Some(r.value.0) && b.down == sent + Packets(r.value.1, was.window.value)
  }

  ghost predicate Writes(cfg: Config, a: Sys, chs: seq<RowChange>, next: State, page: PageOutput, b: Sys)
    requires ValidConfig(cfg)
  {
    && b.db == next && b.up == a.up && b.client == a.client
    && (a.rec.None? ==> b.rec == None && b.down == a.down)
    && (a.rec.Some? ==>
          && WindowOk(a.rec.value)
          && Tells(cfg, next, page, a.rec.value, chs, a.down, b)
          && PageOf(cfg, next, a.rec.value.window.value, page))
    && chs != [] && Commits(a.db, cfg.schema, chs, next, cfg.t) && Healthy(next, cfg.t, cfg.spec)
  }

  /** The server takes the first message of the client. */
  ghost predicate Serves(cfg: Config, a: Sys, page: PageOutput, b: Sys)
    requires ValidConfig(cfg)
  {
    && a.up != [] && b.db == a.db && b.up == a.up[1..] && b.client == a.client
    && var w := a.up[0].window;
       && PageOf(cfg, a.db, w, page)
       && (a.up[0].Move? && a.rec.None? ==> b.rec == None && b.down == a.down)
       && (a.up[0].Ask? || a.rec.Some? ==>
             var rec := if a.up[0].Ask? then cfg.blank else a.rec.value;
             && Tracked(rec)
             && var e := Evaluated(AtMoment(cfg, a.db, w, page), rec.(window := Some(w)), a.up[0].Ask?,
                                   if a.up[0].Ask? then a.up[0].resumeAt else None);
                e.Ok? && b.rec == Some(e.value.0) && b.down == a.down + Packets(e.value.1, w))
  }

  function ResumeHint(c: Client): Option<nat> {
    if c.watermark > 0 then Some(c.watermark) else None
  }

  ghost predicate Next(cfg: Config, a: Sys, step: Step, b: Sys)
    requires ValidConfig(cfg)
  {
    match step
    case Write(chs, next, page) => Writes(cfg, a, chs, next, page, b)
    case Pick(w) => b == a.(client := a.client.(window := w), up := if a.client.open then a.up + [Move(w)] else a.up)
    case Serve(page) => Serves(cfg, a, page, b)
    case Deliver => a.down != [] && b == a.(client := Receive(a.client, a.down[0]), down := a.down[1..])
    case Cut => b == a.(rec := None, up := [], down := [], client := a.client.(open := false))
    case Connect =>
      !a.client.open &&
      b == a.(client := a.client.(open := true, firstDelta := true), up := [Ask(a.client.window, ResumeHint(a.client))])
  }

  /** A resume at the current LSN for a window other than the one the rows were sent for. */
  predicate StaleResume(a: Sys, step: Step) {
    step.Serve? && a.up != [] && a.up[0].Ask? && a.up[0].resumeAt == Some(a.db.lsn) && a.up[0].window != a.client.seen
  }

  // ---------------------------------------------------------------- the invariant

  /** A page as a client holds it: its rows by key, and in order. */
  function HeldOf(rows: seq<Row>, pk: string): Held {
    Held(IndexRows(rows, pk).rows, rows)
  }

  /** The client's array is this window on this state, row for row, and its map agrees. */
  ghost predicate Holds(cfg: Config, db: State, c: Client, w: PaginationOpts)
    requires Healthy(db, cfg.t, cfg.spec)
  {
    && Anchored(db, cfg.t, cfg.spec, w)
    && c.held == HeldOf(FreshWindow(db, cfg.t, cfg.spec, w).rows, cfg.t.pk)
    && c.pk == cfg.t.pk && c.order == EffectiveOrder(cfg.t, cfg.spec)
  }

  /** A client whose watermark is the LSN holds the rows of the last window it was sent. */
  ghost predicate Sound(cfg: Config, db: State, c: Client)
    requires Healthy(db, cfg.t, cfg.spec)
  {
    c.watermark <= db.lsn && (c.watermark == db.lsn && c.watermark > 0 ==> Holds(cfg, db, c, c.seen))
  }

  ghost predicate AllSound(cfg: Config, db: State, c: Client, down: seq<Packet>)
    requires Healthy(db, cfg.t, cfg.spec)
  {
    forall i: nat :: i <= |down| ==> Sound(cfg, db, ReceiveAll(c, down[..i]))
  }

  /** Once everything on its way has arrived, the client and the server's baseline agree, and
      the baseline describes the window. */
  ghost predicate Synced(cfg: Config, db: State, rec: SubRecord, f: Client)
    requires Healthy(db, cfg.t, cfg.spec)
  {
    && Ours(cfg, rec) && rec.window.Some? && rec.ivm.Some? && rec.ivm.value.spec == cfg.spec && Tracked(rec)
    && Anchored(db, cfg.t, cfg.spec, rec.window.value)
    && var v := rec.ivm.value.view;
       && Describes(v, db, cfg.t, cfg.spec, rec.window.value)
       && (cfg.exact ==> v.total == |Answer(db, cfg.t, cfg.spec)|)
       && Holds(cfg, db, f, rec.window.value) && f.seen == rec.window.value && !f.firstDelta
       && f.total == v.total && f.hasOlder == v.hasOlder && f.hasNewer == v.hasNewer
  }

  ghost predicate Asking(a: Sys) {
    if a.rec.None? then
      a.down == [] && (a.client.open ==> a.up != [] && a.up[0].Ask? && a.up[0].resumeAt == ResumeHint(a.client))
    else a.client.open
  }

  /** The window the server will have served once it has read everything. */
  ghost predicate Wanted(a: Sys) {
    && (forall i :: (if a.rec.None? then 1 else 0) <= i < |a.up| ==> a.up[i].Move?)
    && (a.up != [] ==> a.up[|a.up| - 1].window == a.client.window)
    && (a.up == [] && a.rec.Some? ==> a.rec.value.window == Some(a.client.window))
    && (!a.client.open ==> a.up == [])
  }

  ghost predicate Inv(cfg: Config, a: Sys) {
    && ValidConfig(cfg) && Healthy(a.db, cfg.t, cfg.spec)
    && AllSound(cfg, a.db, a.client, a.down)
    && Asking(a) && Wanted(a)
    && (a.rec.Some? ==> Synced(cfg, a.db, a.rec.value, ReceiveAll(a.client, a.down)))
  }

  // ---------------------------------------------------------------- the channel

  lemma ReceiveLast(c: Client, ps: seq<Packet>, p: Packet)
    ensures ReceiveAll(c, ps + [p]) == Receive(ReceiveAll(c, ps), p)
  {
    assert (ps + [p])[..|ps|] == ps;
  }

  lemma {:induction false} ReceiveFirst(c: Client, ps: seq<Packet>)
    requires ps != []
    ensures ReceiveAll(c, ps) == ReceiveAll(Receive(c, ps[0]), ps[1..])
  {
    hide Receive;
    var n := |ps| - 1;
    if n == 0 {
    } else {
      ReceiveFirst(c, ps[..n]);
      assert ps[..n][1..] == ps[1..][..n - 1];
    }
  }

  lemma SoundLast(cfg: Config, db: State, c: Client, down: seq<Packet>, p: Packet)
    requires Healthy(db, cfg.t, cfg.spec)
    requires AllSound(cfg, db, c, down) && Sound(cfg, db, Receive(ReceiveAll(c, down), p))
    ensures AllSound(cfg, db, c, down + [p])
  {
    hide Sound, Healthy, Receive;
    forall i: nat | i <= |down| + 1 ensures Sound(cfg, db, ReceiveAll(c, (down + [p])[..i])) {
      if i <= |down| {
        assert (down + [p])[..i] == down[..i];
      } else {
        assert (down + [p])[..i] == down + [p];
        ReceiveLast(c, down, p);
      }
    }
  }

  lemma SoundFirst(cfg: Config, db: State, c: Client, down: seq<Packet>)
    requires Healthy(db, cfg.t, cfg.spec) && AllSound(cfg, db, c, down) && down != []
    ensures AllSound(cfg, db, Receive(c, down[0]), down[1..])
  {
    hide Sound, Healthy, Receive;
    forall i: nat | i <= |down| - 1 ensures Sound(cfg, db, ReceiveAll(Receive(c, down[0]), down[1..][..i])) {
      ReceiveFirst(c, down[..i + 1]);
      assert down[..i + 1][1..] == down[1..][..i];
    }
  }

  /** A commit raises the LSN above every watermark on its way. */
  lemma SoundLater(cfg: Config, db: State, db': State, c: Client, down: seq<Packet>)
    requires Healthy(db, cfg.t, cfg.spec) && Healthy(db', cfg.t, cfg.spec) && db.lsn < db'.lsn
    requires AllSound(cfg, db, c, down)
    ensures AllSound(cfg, db', c, down)
  {
    hide Healthy, Holds, ReceiveAll;
    forall i: nat | i <= |down| ensures Sound(cfg, db', ReceiveAll(c, down[..i])) {
      assert Sound(cfg, db, ReceiveAll(c, down[..i]));
    }
  }

  // ---------------------------------------------------------------- pages and deltas

  lemma RegularAnswer(s: State, t: TableInfo, spec: QuerySpec, rows: seq<Row>)
    requires Healthy(s, t, spec) && forall r :: r in rows ==> r in Answer(s, t, spec)
    ensures RegularSeq(rows)
  {
    hide Consistent, Matches, RegularRow;
    forall i | 0 <= i < |rows| ensures RegularRow(rows[i]) {
      assert rows[i] in rows && rows[i] in Answer(s, t, spec);
    }
  }

  lemma FreshFacts(cfg: Config, db: State, w: PaginationOpts)
    requires Healthy(db, cfg.t, cfg.spec) && Anchored(db, cfg.t, cfg.spec, w)
    ensures var rows := FreshWindow(db, cfg.t, cfg.spec, w).rows;
            && DistinctKeys(rows, cfg.t.pk) && RegularSeq(rows)
            && Ascending(rows, RowLess(EffectiveOrder(cfg.t, cfg.spec)))
  {
    hide Healthy, Anchored, FreshWindow, Answer, RowsAt, CutOf, EffectiveOrder, DistinctKeys, Ascending, RegularSeq;
    FreshRowsKeys(db, cfg.t, cfg.spec, w);
    RegularAnswer(db, cfg.t, cfg.spec, FreshWindow(db, cfg.t, cfg.spec, w).rows);
  }

  /** The baseline a page leaves describes the window. */
  lemma PageDescribes(cfg: Config, db: State, w: PaginationOpts, page: PageOutput)
    requires PageOf(cfg, db, w, page)
    ensures Describes(BaselineOf(page), db, cfg.t, cfg.spec, w)
    ensures cfg.exact ==> page.window.total == |Answer(db, cfg.t, cfg.spec)|
  {
    hide Consistent, RegularRows, RegularPks, ValidFilters, Anchored, FreshWindow, Answer, CutOf, EffectiveOrder,
      Older, Newer, RowsAt;
    var d, order, cut := Answer(db, cfg.t, cfg.spec), EffectiveOrder(cfg.t, cfg.spec), CutOf(db, cfg.t, cfg.spec, w);
    FreshIsPageAt(db, cfg.t, cfg.spec, w);
    FreshTracks(d, cut, order, cfg.t.pk, w.before, w.after);
  }

  lemma DescribedRows(cfg: Config, db: State, w: PaginationOpts, v: Baseline)
    requires Healthy(db, cfg.t, cfg.spec) && Anchored(db, cfg.t, cfg.spec, w) && Describes(v, db, cfg.t, cfg.spec, w)
    ensures v.last == IndexRows(FreshWindow(db, cfg.t, cfg.spec, w).rows, cfg.t.pk)
  {
    hide Healthy, Anchored, FreshWindow, Answer, CutOf, EffectiveOrder, RowsAt, IndexRows;
    FreshRowsKeys(db, cfg.t, cfg.spec, w);
    ReadyParts(v, db, cfg.t, cfg.spec, w, FreshWindow(db, cfg.t, cfg.spec, w).rows);
  }

  /** What the client holds after a page message. */
  ghost predicate Took(cfg: Config, c: Client, w: PaginationOpts, page: PageOutput, lsn: nat) {
    && c.held == HeldOf(page.window.rows, cfg.t.pk)
    && c.total == page.window.total && c.hasOlder == page.window.hasOlder && c.hasNewer == page.window.hasNewer
    && c.watermark == lsn && c.seen == w && !c.firstDelta
  }

  /** A page in order, with distinct keys, of regular rows. */
  ghost predicate GoodPage(cfg: Config, page: PageOutput) {
    && DistinctKeys(page.window.rows, cfg.t.pk) && RegularSeq(page.window.rows)
    && page.pk == cfg.t.pk && page.order == EffectiveOrder(cfg.t, cfg.spec)
    && Ascending(page.window.rows, RowLess(page.order))
  }

  lemma GoodPageOf(cfg: Config, db: State, w: PaginationOpts, page: PageOutput)
    requires PageOf(cfg, db, w, page)
    ensures GoodPage(cfg, page)
  {
    hide Healthy, Anchored, FreshWindow, EffectiveOrder, DistinctKeys, Ascending;
    FreshFacts(cfg, db, w);
  }

  /** A merging delta carries the client from the previous page to this one. */
  lemma DiffLands(cfg: Config, c: Client, prev: seq<Row>, v: Baseline, w: PaginationOpts, page: PageOutput, sub: string,
                  lsn: nat, reset: Option<bool>)
    requires DistinctKeys(prev, cfg.t.pk) && RegularSeq(prev) && v.last == IndexRows(prev, cfg.t.pk)
    requires Ascending(prev, RowLess(page.order)) && GoodPage(cfg, page)
    requires c.held == HeldOf(prev, cfg.t.pk) && c.pk == cfg.t.pk && c.order == page.order && ValidMap(v.last)
    requires if reset.Some? then !reset.value else !c.firstDelta
    ensures Took(cfg, Receive(c, Packet(DeltaMessage(sub, Diff(v, page), lsn, reset), w)), w, page, lsn)
  {
    hide PatchRows, IndexRows, Upserts, Removes, DistinctKeys, Patch, Mirrors, EffectiveOrder;
    PageMirrors(prev, cfg.t.pk, page.order);
    PatchedToPage(cfg, prev, page, v, c.held);
  }

  lemma PatchedToPage(cfg: Config, prev: seq<Row>, page: PageOutput, v: Baseline, h: Held)
    requires DistinctKeys(prev, cfg.t.pk) && RegularSeq(prev) && v.last == IndexRows(prev, cfg.t.pk)
    requires GoodPage(cfg, page) && h.rows == IndexRows(prev, cfg.t.pk).rows && Agrees(h, cfg.t.pk, page.order)
    ensures ValidMap(v.last)
    ensures var d := Diff(v, page);
            Patch(h, d.upserts, d.removes, cfg.t.pk, page.order, false) == HeldOf(page.window.rows, cfg.t.pk)
  {
    hide IndexRows, Diff, DistinctKeys, Patch, PatchRows, Mirrors;
    DeltaCarries(prev, page, v);
    ClientStore.DeltaRoundTrip(prev, page, v, h);
    var d := Diff(v, page);
    PatchedRows(h, d.upserts, d.removes, page.pk, page.order, false);
  }

  lemma ReplacedAll(h: Held, d: Delta, pk: string, order: seq<OrderKey>)
    ensures Patch(h, d.upserts, d.removes, pk, order, true) == Patch(NOTHING, d.upserts, d.removes, pk, order, false)
  {
  }

  /** A replacing delta gives the client the whole page, whatever it held. */
  lemma FullLands(cfg: Config, c: Client, w: PaginationOpts, page: PageOutput, sub: string, lsn: nat)
    requires GoodPage(cfg, page) && c.pk == cfg.t.pk && c.order == page.order
    ensures ValidMap(Unseeded(page.order).last)
    ensures Took(cfg, Receive(c, Packet(DeltaMessage(sub, Diff(Unseeded(page.order), page), lsn, Some(true)), w)), w, page, lsn)
  {
    hide Patch, Upserts, Removes, EffectiveOrder;
    var v := Unseeded(page.order);
    assert IndexRows([], cfg.t.pk) == EMPTY;
    assert Agrees(NOTHING, cfg.t.pk, page.order);
    PatchedToPage(cfg, [], page, v, NOTHING);
    ReplacedAll(c.held, Diff(v, page), cfg.t.pk, page.order);
  }

  /** A resume leaves the rows as they are. */
  lemma ResumeLands(cfg: Config, c: Client, w: PaginationOpts, page: PageOutput, sub: string, lsn: nat)
    requires c.held == HeldOf(page.window.rows, cfg.t.pk)
    ensures Took(cfg, Receive(c, Packet(DeltaMessage(sub, SeedDelta(page), lsn, Some(false)), w)), w, page, lsn)
  {
    hide IndexRows;
    NothingPatched(c.held, c.pk, c.order);
  }

  /** A client that took a page is sound and in step with the baseline the page leaves. */
  lemma TookSound(cfg: Config, db: State, w: PaginationOpts, page: PageOutput, c: Client, rec: SubRecord)
    requires ValidConfig(cfg) && PageOf(cfg, db, w, page) && Took(cfg, c, w, page, db.lsn)
    requires c.pk == cfg.t.pk && c.order == EffectiveOrder(cfg.t, cfg.spec)
    ensures Sound(cfg, db, c)
    ensures Ours(cfg, rec) && rec.window == Some(w) && rec.paginated && rec.ivm == Some(Tracker(cfg.spec, BaselineOf(page))) ==>
              Synced(cfg, db, rec, c)
  {
    hide Consistent, RegularRows, RegularPks, Anchored, FreshWindow, Answer, IndexRows, EffectiveOrder, Describes;
    PageDescribes(cfg, db, w, page);
    IndexRowsValid(page.window.rows, page.pk);
  }

  // ---------------------------------------------------------------- every step keeps the invariant

  lemma {:induction false} ReceiveIgnoresWindow(c: Client, w: PaginationOpts, ps: seq<Packet>)
    ensures ReceiveAll(c.(window := w), ps) == ReceiveAll(c, ps).(window := w)
  {
    hide Patch;
    if ps == [] {
    } else {
      ReceiveIgnoresWindow(c, w, ps[..|ps| - 1]);
    }
  }

  lemma PickKeeps(cfg: Config, a: Sys, w: PaginationOpts, b: Sys)
    requires Inv(cfg, a) && Next(cfg, a, Pick(w), b)
    ensures Inv(cfg, b)
  {
    hide Healthy, Holds, ReceiveAll, Describes, Anchored;
    ReceiveIgnoresWindow(a.client, w, a.down);
    forall i: nat | i <= |a.down| ensures Sound(cfg, b.db, ReceiveAll(b.client, b.down[..i])) {
      ReceiveIgnoresWindow(a.client, w, a.down[..i]);
      assert Sound(cfg, a.db, ReceiveAll(a.client, a.down[..i]));
      assert Holds(cfg, a.db, ReceiveAll(a.client, a.down[..i]), ReceiveAll(a.client, a.down[..i]).seen) ==>
             Holds(cfg, b.db, ReceiveAll(b.client, b.down[..i]), ReceiveAll(b.client, b.down[..i]).seen) by {
        HoldsRows(cfg, a.db, ReceiveAll(a.client, a.down[..i]), ReceiveAll(b.client, b.down[..i]), ReceiveAll(a.client, a.down[..i]).seen);
      }
    }
    if a.rec.Some? && a.rec.value.window.Some? {
      HoldsRows(cfg, a.db, ReceiveAll(a.client, a.down), ReceiveAll(b.client, b.down), a.rec.value.window.value);
    }
  }

  lemma HoldsRows(cfg: Config, db: State, c: Client, c': Client, w: PaginationOpts)
    requires Healthy(db, cfg.t, cfg.spec) && c.held == c'.held && c.pk == c'.pk && c.order == c'.order
    ensures Holds(cfg, db, c, w) ==> Holds(cfg, db, c', w)
  {
  }

  lemma SoundHead(cfg: Config, db: State, c: Client, down: seq<Packet>)
    requires Healthy(db, cfg.t, cfg.spec) && AllSound(cfg, db, c, down)
    ensures Sound(cfg, db, c) && Sound(cfg, db, ReceiveAll(c, down))
  {
    hide Sound, Healthy;
    assert down[..0] == [] && down[..|down|] == down;
  }

  lemma CutKeeps(cfg: Config, a: Sys, b: Sys)
    requires Inv(cfg, a) && (Next(cfg, a, Cut, b) || Next(cfg, a, Connect, b))
    ensures Inv(cfg, b)
  {
    hide Healthy, Anchored, Describes, FreshWindow, IndexRows;
    SoundHead(cfg, a.db, a.client, a.down);
    assert Sound(cfg, b.db, b.client);
  }

  lemma DeliverKeeps(cfg: Config, a: Sys, b: Sys)
    requires Inv(cfg, a) && Next(cfg, a, Deliver, b)
    ensures Inv(cfg, b)
  {
    hide Healthy, Sound, Synced, ReceiveAll, Patch;
    SoundFirst(cfg, a.db, a.client, a.down);
    ReceiveFirst(a.client, a.down);
  }

  /** A window change is served by a merging delta from the window before. */
  lemma MoveKeeps(cfg: Config, a: Sys, page: PageOutput, b: Sys)
    requires Inv(cfg, a) && Serves(cfg, a, page, b) && a.up[0].Move? && a.rec.Some?
    ensures AllSound(cfg, b.db, b.client, b.down)
    ensures b.rec.Some? && b.rec.value.window == Some(a.up[0].window) && Synced(cfg, b.db, b.rec.value, ReceiveAll(b.client, b.down))
  {
    hide Healthy, Anchored, Describes, FreshWindow, IndexRows, Sound, AllSound, Diff, ReceiveAll, Receive,
      EffectiveOrder;
    var w, rec, f := a.up[0].window, a.rec.value, ReceiveAll(a.client, a.down);
    var was := rec.window.value;
    var prev := FreshWindow(a.db, cfg.t, cfg.spec, was).rows;
    FreshFacts(cfg, a.db, was);
    GoodPageOf(cfg, a.db, w, page);
    DescribedRows(cfg, a.db, was, rec.ivm.value.view);
    DiffLands(cfg, f, prev, rec.ivm.value.view, w, page, rec.sub, a.db.lsn, Some(false));
    var p := Packet(DeltaMessage(rec.sub, Diff(rec.ivm.value.view, page), a.db.lsn, Some(false)), w);
    assert b.down == a.down + [p];
    ReceiveLast(a.client, a.down, p);
    KeepsMeta(f, p);
    TookSound(cfg, a.db, w, page, Receive(f, p), b.rec.value);
    SoundLast(cfg, a.db, a.client, a.down, p);
  }

  lemma KeepsMeta(c: Client, p: Packet)
    requires p.message.PageDelta?
    ensures Receive(c, p).pk == c.pk && Receive(c, p).order == c.order
  {
  }

  /** A subscription is served by the whole page, or by nothing when the client already holds
      the rows of its window at this LSN. */
  lemma AskKeeps(cfg: Config, a: Sys, page: PageOutput, b: Sys)
    requires Inv(cfg, a) && Serves(cfg, a, page, b) && a.up[0].Ask? && !StaleResume(a, Serve(page))
    ensures AllSound(cfg, b.db, b.client, b.down)
    ensures b.rec.Some? && b.rec.value.window == Some(a.up[0].window) && Synced(cfg, b.db, b.rec.value, ReceiveAll(b.client, b.down))
  {
    hide Healthy, Anchored, Describes, FreshWindow, IndexRows, AllSound, Diff, ReceiveAll, EffectiveOrder, Patch;
    var w, c := a.up[0].window, a.client;
    var resume := a.up[0].resumeAt == Some(a.db.lsn);
    var p1 := Packet(Subscribed(cfg.blank.sub, page.pk, page.order), w);
    var d := if resume then SeedDelta(page) else Diff(Unseeded(page.order), page);
    var p2 := Packet(DeltaMessage(cfg.blank.sub, d, a.db.lsn, Some(!resume)), w);
    var c1 := Receive(c, p1);
    assert b.down == [p1, p2];
    SoundHead(cfg, a.db, c, a.down);
    AskedDown(cfg, a.db, c, p1, p2);
    GoodPageOf(cfg, a.db, w, page);
    if resume {
      ResumeLands(cfg, c1, w, page, cfg.blank.sub, a.db.lsn);
    } else {
      FullLands(cfg, c1, w, page, cfg.blank.sub, a.db.lsn);
    }
    TookSound(cfg, a.db, w, page, Receive(c1, p2), b.rec.value);
  }

  lemma AskedDown(cfg: Config, db: State, c: Client, p1: Packet, p2: Packet)
    requires Healthy(db, cfg.t, cfg.spec) && Sound(cfg, db, c)
    requires p1.message.Subscribed? && p1.message.pk == cfg.t.pk && p1.message.order == EffectiveOrder(cfg.t, cfg.spec)
    ensures ReceiveAll(c, [p1, p2]) == Receive(Receive(c, p1), p2)
    ensures Sound(cfg, db, Receive(Receive(c, p1), p2)) ==> AllSound(cfg, db, c, [p1, p2])
  {
    hide Healthy, Anchored, FreshWindow, IndexRows, Patch;
    assert [p1, p2][..1] == [p1] && [p1][..0] == [];
    var c1 := Receive(c, p1);
    assert ReceiveAll(c, [p1]) == c1;
    assert Sound(cfg, db, c1);
    if Sound(cfg, db, Receive(c1, p2)) {
      SoundLast(cfg, db, c, [], p1);
      assert [] + [p1] == [p1] && [p1] + [p2] == [p1, p2];
      SoundLast(cfg, db, c, [p1], p2);
    }
  }

  lemma ServeKeeps(cfg: Config, a: Sys, page: PageOutput, b: Sys)
    requires Inv(cfg, a) && Next(cfg, a, Serve(page), b) && !StaleResume(a, Serve(page))
    ensures Inv(cfg, b)
  {
    hide Healthy, AllSound, Synced, ReceiveAll, PageOf, Tracked, Evaluated;
    if a.up[0].Ask? {
      AskKeeps(cfg, a, page, b);
    } else {
      MoveKeeps(cfg, a, page, b);
    }
  }

  /** A commit the quick reject passes over leaves the client's rows right, told or not. */
  lemma RejectedKeeps(cfg: Config, a: Sys, chs: seq<RowChange>, next: State, page: PageOutput, b: Sys)
    requires Inv(cfg, a) && Next(cfg, a, Write(chs, next, page), b) && a.rec.Some?
    requires !CanChange(a.rec.value.ivm.value.view, cfg.spec, chs)
    ensures AllSound(cfg, b.db, b.client, b.down)
    ensures b.rec.Some? && b.rec.value.window == a.rec.value.window && Synced(cfg, b.db, b.rec.value, ReceiveAll(b.client, b.down))
  {
    hide Consistent, RegularRows, RegularPks, ValidFilters, Commits, Anchored, Describes, FreshWindow, IndexRows,
      Sound, AllSound, CanChange, ReceiveAll, EffectiveOrder, PageOf;
    var rec, f := a.rec.value, ReceiveAll(a.client, a.down);
    var w, v := rec.window.value, rec.ivm.value.view;
    var (v', meta) := Recount(v, cfg.spec, chs);
    RejectSound(a.db, cfg.schema, chs, next, cfg.t, cfg.spec, w, v);
    CommitRaises(a.db, cfg.schema, chs, next, cfg.t);
    SoundLater(cfg, a.db, next, a.client, a.down);
    if meta.Some? {
      var p := Packet(DeltaMessage(rec.sub, meta.value, next.lsn, None), w);
      assert b.down == a.down + [p];
      ReceiveLast(a.client, a.down, p);
      NothingPatched(f.held, f.pk, f.order);
      assert Receive(f, p).held == f.held;
      assert Holds(cfg, next, Receive(f, p), w);
      HoldsSound(cfg, next, Receive(f, p));
      SoundLast(cfg, next, a.client, a.down, p);
    } else {
      assert b.down == a.down;
    }
  }

  lemma HoldsSound(cfg: Config, db: State, c: Client)
    requires Healthy(db, cfg.t, cfg.spec) && Holds(cfg, db, c, c.seen) && c.watermark == db.lsn
    ensures Sound(cfg, db, c)
  {
  }

  lemma NothingPatched(h: Held, pk: string, order: seq<OrderKey>)
    ensures Patch(h, [], [], pk, order, false) == h
  {
  }

  lemma CommitRaises(s: State, schema: seq<TableInfo>, chs: seq<RowChange>, s': State, t: TableInfo)
    requires Commits(s, schema, chs, s', t) && chs != []
    ensures s'.lsn == s.lsn + 1
  {
  }

  /** A page that differs from the last one is sent as a merging delta; one that does not
      differ leaves nothing to send. */
  lemma RefreshedKeeps(cfg: Config, a: Sys, chs: seq<RowChange>, next: State, page: PageOutput, b: Sys)
    requires Inv(cfg, a) && Next(cfg, a, Write(chs, next, page), b) && a.rec.Some?
    requires CanChange(a.rec.value.ivm.value.view, cfg.spec, chs)
    ensures AllSound(cfg, b.db, b.client, b.down)
    ensures b.rec.Some? && b.rec.value.window == a.rec.value.window && Synced(cfg, b.db, b.rec.value, ReceiveAll(b.client, b.down))
  {
    hide Healthy, Commits, Anchored, Describes, FreshWindow, IndexRows, Sound, AllSound, CanChange, Diff, ReceiveAll,
      Receive, EffectiveOrder;
    var rec, f := a.rec.value, ReceiveAll(a.client, a.down);
    var w, v := rec.window.value, rec.ivm.value.view;
    var prev := FreshWindow(a.db, cfg.t, cfg.spec, w).rows;
    var d := Diff(v, page);
    FreshFacts(cfg, a.db, w);
    GoodPageOf(cfg, next, w, page);
    DescribedRows(cfg, a.db, w, v);
    CommitRaises(a.db, cfg.schema, chs, next, cfg.t);
    SoundLater(cfg, a.db, next, a.client, a.down);
    DiffLands(cfg, f, prev, v, w, page, rec.sub, next.lsn, None);
    var p := Packet(DeltaMessage(rec.sub, d, next.lsn, None), w);
    KeepsMeta(f, p);
    TookSound(cfg, next, w, page, Receive(f, p), b.rec.value);
    if d.changed {
      assert b.down == a.down + [p];
      ReceiveLast(a.client, a.down, p);
      SoundLast(cfg, next, a.client, a.down, p);
    } else {
      assert b.down == a.down;
      Unchanged(f, v, page, p);
      SilentSync(cfg, next, b.rec.value, Receive(f, p), f);
    }
  }

  /** A delta without a change would leave the client as it is. */
  lemma Unchanged(c: Client, v: Baseline, page: PageOutput, p: Packet)
    requires ValidMap(v.last) && !Diff(v, page).changed && !c.firstDelta && p.window == c.seen
    requires exists sub, lsn :: p.message == DeltaMessage(sub, Diff(v, page), lsn, None)
    requires c.total == v.total && c.hasOlder == v.hasOlder && c.hasNewer == v.hasNewer
    ensures Receive(c, p).(watermark := c.watermark) == c
  {
    NothingPatched(c.held, c.pk, c.order);
  }

  lemma SilentSync(cfg: Config, db: State, rec: SubRecord, c: Client, c': Client)
    requires Healthy(db, cfg.t, cfg.spec) && Synced(cfg, db, rec, c) && c.(watermark := c'.watermark) == c'
    ensures Synced(cfg, db, rec, c')
  {
    hide Healthy, Anchored, Describes;
  }

  lemma WriteKeeps(cfg: Config, a: Sys, chs: seq<RowChange>, next: State, page: PageOutput, b: Sys)
    requires Inv(cfg, a) && Next(cfg, a, Write(chs, next, page), b)
    ensures Inv(cfg, b)
  {
    hide Healthy, Commits, AllSound, Synced, ReceiveAll, PageOf, Notified, CanChange;
    if a.rec.None? {
      CommitRaises(a.db, cfg.schema, chs, next, cfg.t);
      SoundLater(cfg, a.db, next, a.client, a.down);
    } else {
      SyncedTracker(cfg, a);
      if CanChange(a.rec.value.ivm.value.view, cfg.spec, chs) {
        RefreshedKeeps(cfg, a, chs, next, page, b);
      } else {
        RejectedKeeps(cfg, a, chs, next, page, b);
      }
    }
  }

  lemma SyncedTracker(cfg: Config, a: Sys)
    requires Inv(cfg, a) && a.rec.Some?
    ensures a.rec.value.ivm.Some? && ValidFilters(cfg.spec.filters) && a.rec.value.window.Some? && Tracked(a.rec.value)
    ensures Ours(cfg, a.rec.value)
  {
  }

  // ---------------------------------------------------------------- no step is stuck

  /** The server can always take the first message of the client: asked under its own window and
      the subscriber's identity, the query answers with the page. */
  lemma ServeGoes(cfg: Config, a: Sys, page: PageOutput) returns (b: Sys)
    requires Inv(cfg, a) && a.up != [] && PageOf(cfg, a.db, a.up[0].window, page)
    ensures Next(cfg, a, Serve(page), b)
  {
    hide Healthy, Synced, AllSound, PageOf, Evaluated, Asking, Wanted, ValidMap;
    var w, ask := a.up[0].window, a.up[0].Ask?;
    b := a.(up := a.up[1..]);
    if ask || a.rec.Some? {
      var hint := if ask then a.up[0].resumeAt else None;
      var rec := AskedRecord(cfg, a, page);
      var e := Evaluated(AtMoment(cfg, a.db, w, page), rec.(window := Some(w)), ask, hint).value;
      b := b.(rec := Some(e.0), down := a.down + Packets(e.1, w));
    }
  }

  lemma AskedRecord(cfg: Config, a: Sys, page: PageOutput) returns (rec: SubRecord)
    requires Inv(cfg, a) && a.up != [] && (a.up[0].Ask? || a.rec.Some?)
    ensures rec == (if a.up[0].Ask? then cfg.blank else a.rec.value) && Tracked(rec)
    ensures var w := a.up[0].window;
            Evaluated(AtMoment(cfg, a.db, w, page), rec.(window := Some(w)), a.up[0].Ask?,
                      if a.up[0].Ask? then a.up[0].resumeAt else None).Ok?
  {
    hide Healthy, AllSound, Asking, Wanted, Describes, Anchored, Holds, IndexRows, Diff;
    rec := if a.up[0].Ask? then cfg.blank else a.rec.value;
  }

  /** A commit always gets through to the subscription. */
  lemma WriteGoes(cfg: Config, a: Sys, chs: seq<RowChange>, next: State, page: PageOutput) returns (b: Sys)
    requires Inv(cfg, a) && chs != [] && Commits(a.db, cfg.schema, chs, next, cfg.t) && Healthy(next, cfg.t, cfg.spec)
    requires a.rec.Some? && a.rec.value.window.Some? ==> PageOf(cfg, next, a.rec.value.window.value, page)
    ensures Next(cfg, a, Write(chs, next, page), b)
  {
    hide Healthy, Commits, AllSound, PageOf, Notified, Asking, Wanted, Describes, Anchored, Holds, CanChange;
    b := a.(db := next);
    if a.rec.Some? {
      var rec := a.rec.value;
      var rt := AtMoment(cfg, next, rec.window.value, page);
      CommitAsks(rt, rec, chs);
      var e := Notified(rt, rec, chs).value;
      b := b.(rec := Some(e.0), down := a.down + Packets(e.1, rec.window.value));
    }
  }

  // ---------------------------------------------------------------- whole runs

  /** A client not yet connected: new, or seeded with a page of its window. */
  ghost predicate Start(cfg: Config, a: Sys) {
    && ValidConfig(cfg) && Healthy(a.db, cfg.t, cfg.spec) && Sound(cfg, a.db, a.client)
    && a.rec == None && a.up == [] && a.down == [] && !a.client.open
  }

  ghost predicate IsRun(cfg: Config, states: seq<Sys>, steps: seq<Step>) {
    && |states| == |steps| + 1 && Start(cfg, states[0])
    && forall i :: 0 <= i < |steps| ==> Next(cfg, states[i], steps[i], states[i + 1]) && !StaleResume(states[i], steps[i])
  }

  lemma StepKeeps(cfg: Config, a: Sys, step: Step, b: Sys)
    requires Inv(cfg, a) && Next(cfg, a, step, b) && !StaleResume(a, step)
    ensures Inv(cfg, b)
  {
    hide Inv, Next, StaleResume;
    match step
    case Write(chs, next, page) => WriteKeeps(cfg, a, chs, next, page, b);
    case Pick(w) => PickKeeps(cfg, a, w, b);
    case Serve(page) => ServeKeeps(cfg, a, page, b);
    case Deliver => DeliverKeeps(cfg, a, b);
    case Cut => CutKeeps(cfg, a, b);
    case Connect => CutKeeps(cfg, a, b);
  }

  lemma StartInv(cfg: Config, a: Sys)
    requires Start(cfg, a)
    ensures Inv(cfg, a)
  {
    hide Healthy, Sound;
    assert a.down[..0] == [];
  }

  lemma {:induction false} RunKeeps(cfg: Config, states: seq<Sys>, steps: seq<Step>, i: nat)
    requires IsRun(cfg, states, steps) && i < |states|
    ensures Inv(cfg, states[i])
  {
    hide Inv, Next, StaleResume, Start;
    if i == 0 {
      StartInv(cfg, states[0]);
    } else {
      RunKeeps(cfg, states, steps, i - 1);
      StepKeeps(cfg, states[i - 1], steps[i - 1], states[i]);
    }
  }

  /** Both channels are empty and the server has the subscription. */
  predicate Quiet(a: Sys) {
    a.rec.Some? && a.up == [] && a.down == []
  }

  /** Main result: at every quiet moment of every run, the client's array is the rows of a
      fresh materialization of its window, in order, its map holds the same rows, its total is
      exact, and each of its flags is what a fresh page would say exactly when it is unset or
      some row lies off the window on that side. */
  lemma MirrorIsFresh(cfg: Config, states: seq<Sys>, steps: seq<Step>, i: nat)
    requires IsRun(cfg, states, steps) && i < |states| && Quiet(states[i])
    ensures var a := states[i];
            && Healthy(a.db, cfg.t, cfg.spec) && Anchored(a.db, cfg.t, cfg.spec, a.client.window)
            && var page, d := FreshWindow(a.db, cfg.t, cfg.spec, a.client.window), Answer(a.db, cfg.t, cfg.spec);
               var order, shown := EffectiveOrder(cfg.t, cfg.spec), a.client.held.sorted;
               && shown == page.rows && Agrees(a.client.held, a.client.pk, a.client.order)
               && (cfg.exact ==> a.client.total == |d|)
               && (a.client.hasOlder == page.hasOlder <==>
                   (a.client.hasOlder ==> shown != [] && exists x :: x in d && CompareRows(x, shown[0], order) < 0))
               && (a.client.hasNewer == page.hasNewer <==>
                   (a.client.hasNewer ==> shown != [] && exists x :: x in d && CompareRows(shown[|shown| - 1], x, order) < 0))
  {
    RunKeeps(cfg, states, steps, i);
    QuietMirror(cfg, states[i]);
  }

  lemma QuietMirror(cfg: Config, a: Sys)
    requires Inv(cfg, a) && Quiet(a)
    ensures Anchored(a.db, cfg.t, cfg.spec, a.client.window)
    ensures var page, d := FreshWindow(a.db, cfg.t, cfg.spec, a.client.window), Answer(a.db, cfg.t, cfg.spec);
            var order, shown := EffectiveOrder(cfg.t, cfg.spec), a.client.held.sorted;
            && shown == page.rows && Agrees(a.client.held, a.client.pk, a.client.order)
            && (cfg.exact ==> a.client.total == |d|)
            && (a.client.hasOlder == page.hasOlder <==>
                (a.client.hasOlder ==> shown != [] && exists x :: x in d && CompareRows(x, shown[0], order) < 0))
            && (a.client.hasNewer == page.hasNewer <==>
                (a.client.hasNewer ==> shown != [] && exists x :: x in d && CompareRows(shown[|shown| - 1], x, order) < 0))
  {
    hide Healthy, Anchored, FreshWindow, IndexRows, EffectiveOrder, CompareRows, Mirrors, Describes, Answer;
    var w, v := a.client.window, a.rec.value.ivm.value.view;
    assert ReceiveAll(a.client, a.down) == a.client;
    FreshFacts(cfg, a.db, w);
    PageMirrors(FreshWindow(a.db, cfg.t, cfg.spec, w).rows, cfg.t.pk, EffectiveOrder(cfg.t, cfg.spec));
    FlagsExactly(a.db, cfg.t, cfg.spec, w, v);
    DescribedEdges(cfg, a.db, w, v);
  }

  lemma DescribedEdges(cfg: Config, db: State, w: PaginationOpts, v: Baseline)
    requires Healthy(db, cfg.t, cfg.spec) && Anchored(db, cfg.t, cfg.spec, w) && Describes(v, db, cfg.t, cfg.spec, w)
    ensures var rows := FreshWindow(db, cfg.t, cfg.spec, w).rows;
            && v.order == EffectiveOrder(cfg.t, cfg.spec)
            && v.lo == (if rows == [] then None else Some(rows[0]))
            && v.hi == (if rows == [] then None else Some(rows[|rows| - 1]))
  {
    hide Healthy, Anchored, FreshWindow, Answer, CutOf, EffectiveOrder, RowsAt, IndexRows;
    FreshRowsKeys(db, cfg.t, cfg.spec, w);
  }

  /** A first evaluation sends what was subscribed to and one page. */
  lemma FirstEvaluated(cfg: Config, db: State, w: PaginationOpts, page: PageOutput, hint: Option<nat>)
    requires ValidConfig(cfg)
    ensures var e := Evaluated(AtMoment(cfg, db, w, page), cfg.blank.(window := Some(w)), true, hint);
            && e.Ok? && |e.value.1| == 2
            && e.value.1[0].Subscribed? && e.value.1[1].PageDelta? && e.value.1[1].watermark == db.lsn
  {
    hide Diff, ValidSchema;
  }

  /** A new client reaches such a moment: it connects, is served, and takes in its first page. */
  lemma FirstPageArrives(cfg: Config, a: Sys, page: PageOutput) returns (states: seq<Sys>, steps: seq<Step>)
    requires Start(cfg, a) && a.client.watermark == 0 && PageOf(cfg, a.db, a.client.window, page)
    ensures IsRun(cfg, states, steps) && states[0] == a
    ensures var z := states[|steps|];
            Quiet(z) && z.db == a.db && z.client.window == a.client.window && z.client.watermark == a.db.lsn
  {
    hide Healthy, Anchored, PageOf, Sound, Serves, Patch, Evaluated;
    var w := a.client.window;
    var up := a.(client := a.client.(open := true, firstDelta := true), up := [Ask(w, ResumeHint(a.client))]);
    FirstEvaluated(cfg, a.db, w, page, ResumeHint(a.client));
    var e := Evaluated(AtMoment(cfg, a.db, w, page), cfg.blank.(window := Some(w)), true, ResumeHint(a.client)).value;
    var served := up.(up := [], rec := Some(e.0), down := Packets(e.1, w));
    AskServes(cfg, up, w, page, served);
    var met := served.(client := Receive(served.client, served.down[0]), down := served.down[1..]);
    var done := met.(client := Receive(met.client, met.down[0]), down := met.down[1..]);
    states, steps := [a, up, served, met, done], [Connect, Serve(page), Deliver, Deliver];
    assert Next(cfg, a, Connect, up) && Next(cfg, up, Serve(page), served);
    assert Next(cfg, served, Deliver, met) && Next(cfg, met, Deliver, done);
  }

  // ---------------------------------------------------------------- resuming

  /** A resume at the current LSN leaves the client with the rows of its window exactly when
      that window shows the same rows as the last one it was sent. */
  lemma ResumeExactly(cfg: Config, a: Sys, page: PageOutput, b: Sys)
    requires Inv(cfg, a) && Serves(cfg, a, page, b) && a.up[0].Ask? && a.up[0].resumeAt == Some(a.db.lsn)
    ensures Anchored(a.db, cfg.t, cfg.spec, a.client.seen) && Anchored(a.db, cfg.t, cfg.spec, a.up[0].window)
    ensures var now, was := FreshWindow(a.db, cfg.t, cfg.spec, a.up[0].window).rows, FreshWindow(a.db, cfg.t, cfg.spec, a.client.seen).rows;
            var f := ReceiveAll(b.client, b.down);
            && f.held == HeldOf(was, cfg.t.pk)
            && (f.held.sorted == now <==> now == was)
  {
    hide Healthy, Anchored, Describes, FreshWindow, IndexRows, AllSound, ReceiveAll, EffectiveOrder, Patch;
    var c, w := a.client, a.up[0].window;
    SoundHead(cfg, a.db, c, a.down);
    var p1 := Packet(Subscribed(cfg.blank.sub, page.pk, page.order), w);
    var p2 := Packet(DeltaMessage(cfg.blank.sub, SeedDelta(page), a.db.lsn, Some(false)), w);
    assert b.down == [p1, p2];
    AskedDown(cfg, a.db, c, p1, p2);
    NothingPatched(c.held, cfg.t.pk, page.order);
  }

  /** The five steps by which a window change is lost: the change is served, its reply is cut
      off, and the client comes back before the next commit. */
  function LostReply(cfg: Config, a: Sys, w: PaginationOpts, page: PageOutput): (r: seq<Sys>)
    requires ValidConfig(cfg) && a.rec.Some? && Tracked(a.rec.value) && Ours(cfg, a.rec.value)
  {
    var rt := AtMoment(cfg, a.db, w, page);
    var picked := a.(client := a.client.(window := w), up := a.up + [Move(w)]);
    var moved := Evaluated(rt, a.rec.value.(window := Some(w)), false, None).value;
    var served := picked.(up := picked.up[1..], rec := Some(moved.0), down := a.down + Packets(moved.1, w));
    var cut := served.(rec := None, up := [], down := [], client := served.client.(open := false));
    var back := cut.(client := cut.client.(open := true, firstDelta := true), up := [Ask(w, ResumeHint(cut.client))]);
    var asked := Evaluated(rt, cfg.blank.(window := Some(w)), true, ResumeHint(cut.client)).value;
    [a, picked, served, cut, back, back.(up := [], rec := Some(asked.0), down := Packets(asked.1, w))]
  }

  /** From any quiet state that is up to date, losing the reply to a window change leaves the
      subscription registered for the new window with nothing more to say, and the client with
      the rows of the old one. */
  lemma LostReplyGoesStale(cfg: Config, a: Sys, w: PaginationOpts, page: PageOutput)
    requires Inv(cfg, a) && Quiet(a) && a.client.watermark == a.db.lsn > 0 && PageOf(cfg, a.db, w, page)
    ensures Tracked(a.rec.value) && Ours(cfg, a.rec.value) && Anchored(a.db, cfg.t, cfg.spec, a.client.window)
    ensures var r := LostReply(cfg, a, w, page);
            && Next(cfg, r[0], Pick(w), r[1]) && Next(cfg, r[1], Serve(page), r[2]) && Next(cfg, r[2], Cut, r[3])
            && Next(cfg, r[3], Connect, r[4]) && Next(cfg, r[4], Serve(page), r[5])
            && r[5].up == [] && r[5].rec.Some? && r[5].rec.value.window == Some(w) && r[5].client.window == w
            && ReceiveAll(r[5].client, r[5].down).held.sorted == FreshWindow(a.db, cfg.t, cfg.spec, a.client.window).rows
  {
    hide Healthy, Anchored, Describes, FreshWindow, IndexRows, AllSound, EffectiveOrder, Patch, Upserts, Removes;
    assert ReceiveAll(a.client, a.down) == a.client;
    var r := LostReply(cfg, a, w, page);
    LostReplySteps(cfg, a, w, page);
    LostReplyInv(cfg, a, w, page);
    ResumeExactly(cfg, r[4], page, r[5]);
  }

  lemma LostReplyInv(cfg: Config, a: Sys, w: PaginationOpts, page: PageOutput)
    requires Inv(cfg, a) && Quiet(a) && a.client.watermark == a.db.lsn > 0 && PageOf(cfg, a.db, w, page)
    ensures Tracked(a.rec.value) && Ours(cfg, a.rec.value)
    ensures Inv(cfg, LostReply(cfg, a, w, page)[4])
  {
    hide Healthy, Synced, AllSound, Asking, Wanted, Next, PageOf, Evaluated;
    LostReplySteps(cfg, a, w, page);
    var r := LostReply(cfg, a, w, page);
    StepKeeps(cfg, r[0], Pick(w), r[1]);
    StepKeeps(cfg, r[1], Serve(page), r[2]);
    StepKeeps(cfg, r[2], Cut, r[3]);
    StepKeeps(cfg, r[3], Connect, r[4]);
  }

  lemma LostReplySteps(cfg: Config, a: Sys, w: PaginationOpts, page: PageOutput)
    requires Inv(cfg, a) && Quiet(a) && a.client.watermark == a.db.lsn > 0 && PageOf(cfg, a.db, w, page)
    ensures Tracked(a.rec.value) && Ours(cfg, a.rec.value)
    ensures var r := LostReply(cfg, a, w, page);
            && Next(cfg, r[0], Pick(w), r[1]) && Next(cfg, r[1], Serve(page), r[2]) && Next(cfg, r[2], Cut, r[3])
            && Next(cfg, r[3], Connect, r[4]) && Next(cfg, r[4], Serve(page), r[5])
  {
    hide Healthy, Synced, AllSound, PageOf, Diff, Serves;
    SyncedTracker(cfg, a);
    var r := LostReply(cfg, a, w, page);
    MoveServes(cfg, r[1], w, page, r[2]);
    AskServes(cfg, r[4], w, page, r[5]);
  }

  lemma MoveServes(cfg: Config, a: Sys, w: PaginationOpts, page: PageOutput, b: Sys)
    requires ValidConfig(cfg) && PageOf(cfg, a.db, w, page)
    requires a.up == [Move(w)] && a.rec.Some? && Tracked(a.rec.value)
    requires var e := Evaluated(AtMoment(cfg, a.db, w, page), a.rec.value.(window := Some(w)), false, None);
             e.Ok? && b == a.(up := a.up[1..], rec := Some(e.value.0), down := a.down + Packets(e.value.1, w))
    ensures Serves(cfg, a, page, b)
  {
    hide PageOf, Evaluated, Tracked;
  }

  lemma AskServes(cfg: Config, a: Sys, w: PaginationOpts, page: PageOutput, b: Sys)
    requires ValidConfig(cfg) && PageOf(cfg, a.db, w, page)
    requires a.up == [Ask(w, ResumeHint(a.client))] && a.down == []
    requires var e := Evaluated(AtMoment(cfg, a.db, w, page), cfg.blank.(window := Some(w)), true, ResumeHint(a.client));
             e.Ok? && b == a.(up := [], rec := Some(e.value.0), down := Packets(e.value.1, w))
    ensures Serves(cfg, a, page, b)
  {
    hide PageOf, Evaluated;
    assert a.up[1..] == [];
    assert forall ps: seq<Packet> :: [] + ps == ps;
  }

  // ---------------------------------------------------------------- where the steps come from

  /** What an index seek materializes is a page of its window. */
  lemma MaterializedPage(cfg: Config, db: State, w: PaginationOpts, plan: SeekPlan, r: Result<WindowResult, QueryError>)
    requires Healthy(db, cfg.t, cfg.spec) && Anchored(db, cfg.t, cfg.spec, w)
    requires Plan(cfg.t, cfg.spec) == Some(plan) && Paginate.Assumptions(db, cfg.t, cfg.spec, w.anchor)
    requires Paginate.SeekMeets(db, cfg.t, cfg.spec, w, plan, r)
    requires cfg.exact ==> Paginate.GroupCounted(db, plan)
    ensures r.Ok? && PageOf(cfg, db, w, PageOutput(r.value, cfg.t.pk, EffectiveOrder(cfg.t, cfg.spec)))
  {
    hide Consistent, RegularRows, RegularPks, Answer, EffectiveOrder, SeekPage, Paginate.GroupCounted, FindPk,
      FirstAtOrAfter;
  }

  /** What a successful batch over distinct keys changes is a commit of the run. */
  lemma MutationCommits(cfg: Config, db: State, tooBig: Row -> bool, ms: seq<Mutation>, next: State)
    requires ValidConfig(cfg) && Healthy(db, cfg.t, cfg.spec)
    requires var r := ResolveAll(db, cfg.schema, tooBig, ms);
             r.Ok? && Committed(db, cfg.schema, r.value, next) && DistinctPks(ChangesIn(cfg.t, r.value))
    requires RegularRows(next, cfg.t)
    ensures Commits(db, cfg.schema, ResolveAll(db, cfg.schema, tooBig, ms).value, next, cfg.t)
    ensures Healthy(next, cfg.t, cfg.spec)
  {
    hide Consistent, RegularRows, RegularPks, Committed, ResolveAll, ChangesIn, DistinctPks, TrueChanges, AllPassUnique;
    RegularRowsPks(next, cfg.t);
    ResolvedChanges(db, cfg.schema, tooBig, ms, cfg.t);
    MutateKeepsInStep(db, cfg.schema, tooBig, ms, next, cfg.t);
  }
}
