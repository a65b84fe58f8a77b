/** The live subscriptions of one partition (packages/server/src/reactive.ts). */
module Hub {
  import opened Values
  import opened Wrappers
  import opened Sorting
  import opened Query
  import opened Window
  import opened EngineModule
  import opened Protocol
  import opened Ivm

  const MAX_SUBS_PER_CONN: nat := 256

  datatype Request = Request(name: string, args: string, window: Option<PaginationOpts>, identity: Option<string>)

  /** What running a paginated query gives: the captured page, or the error it threw. */
  datatype Outcome = Captured(spec: QuerySpec, page: PageOutput) | Threw(message: string)

  /** The runtime at one moment. */
  datatype Runtime = Runtime(lsn: nat, query: Request -> Outcome)

  datatype Tracker = Tracker(spec: QuerySpec, view: Baseline)

  datatype SubRecord = SubRecord(
    conn: string,
    sub: string,
    name: string,
    args: string,
    identity: Option<string>,
    paginated: bool,
    window: Option<PaginationOpts>,
    ivm: Option<Tracker>)

  datatype Message =
    | Subscribed(sub: string, pk: string, order: seq<OrderKey>)
    | PageDelta(sub: string, upserts: seq<Row>, removes: seq<Scalar>, hasOlder: bool, hasNewer: bool, total: int,
                watermark: nat, reset: Option<bool>)
    | Failure(sub: string, message: string)

  datatype Outbound = Outbound(conn: string, message: Message)

  datatype SubKey = SubKey(conn: string, sub: string)

  // ---------------------------------------------------------------- one subscription

  ghost predicate Tracked(rec: SubRecord) {
    && rec.paginated == rec.ivm.Some?
    && (rec.ivm.Some? ==> ValidFilters(rec.ivm.value.spec.filters) && ValidMap(rec.ivm.value.view.last))
  }

  /** Queries compile their filters before they run. */
  ghost predicate Compiles(rt: Runtime) {
    forall q :: rt.query(q).Captured? ==> ValidFilters(rt.query(q).spec.filters)
  }

  function RequestOf(rec: SubRecord): Request {
    Request(rec.name, rec.args, rec.window, rec.identity)
  }

  function Unseeded(order: seq<OrderKey>): Baseline {
    Baseline(order, EMPTY, None, None, false, false, 0, false)
  }

  function DeltaMessage(sub: string, d: Delta, watermark: nat, reset: Option<bool>): Message {
    PageDelta(sub, d.upserts, d.removes, d.hasOlder, d.hasNewer, d.total, watermark, reset)
  }

  /** The record and the messages an evaluation leaves, or the error. */
  function Evaluated(rt: Runtime, rec: SubRecord, first: bool, resumeAt: Option<nat>): (r: Result<(SubRecord, seq<Message>), string>)
    requires Tracked(rec) && Compiles(rt)
    ensures r.Ok? ==> Tracked(r.value.0) && r.value.0.conn == rec.conn && r.value.0.sub == rec.sub
  {
    match rt.query(RequestOf(rec))
    case Threw(m) => Err(m)
    case Captured(spec, page) =>
      var resume := first && resumeAt == Some(rt.lsn);
      var renew := first || rec.ivm.None?;
      var tracker := if renew then Tracker(spec, Unseeded(page.order)) else rec.ivm.value;
      var d := if resume then SeedDelta(page) else Diff(tracker.view, page);
      IndexRowsValid(page.window.rows, page.pk);
      Ok((rec.(paginated := rec.paginated || renew, ivm := Some(tracker.(view := BaselineOf(page)))),
          (if renew then [Subscribed(rec.sub, page.pk, page.order)] else []) +
          [DeltaMessage(rec.sub, d, rt.lsn, Some(first && !resume))]))
  }

  /** The record and the messages a commit leaves, or the error. */
  function Notified(rt: Runtime, rec: SubRecord, changes: seq<RowChange>): (r: Result<(SubRecord, seq<Message>), string>)
    requires Tracked(rec) && Compiles(rt)
    ensures r.Ok? ==> Tracked(r.value.0) && r.value.0.conn == rec.conn && r.value.0.sub == rec.sub
    ensures r.Ok? && rec.ivm.Some? ==> r.value.0.ivm.Some?
  {
    if !rec.paginated || rec.ivm.None? then Ok((rec, []))
    else
      var tracker := rec.ivm.value;
      if !CanChange(tracker.view, tracker.spec, changes) then
        var (view, meta) := Recount(tracker.view, tracker.spec, changes);
        Ok((rec.(ivm := Some(tracker.(view := view))),
            if meta.Some? then [DeltaMessage(rec.sub, meta.value, rt.lsn, None)] else []))
      else
        match rt.query(RequestOf(rec))
        case Threw(m) => Err(m)
        case Captured(_, page) =>
          var d := Diff(tracker.view, page);
          IndexRowsValid(page.window.rows, page.pk);
          Ok((rec.(ivm := Some(tracker.(view := BaselineOf(page)))),
              if d.changed then [DeltaMessage(rec.sub, d, rt.lsn, None)] else []))
  }

  // ---------------------------------------------------------------- what is asked and what is sent

  /** The head of a subscription and its page: all the rows to replace what the client holds, or
      on a resume none to merge. */
  function FirstMessages(sub: string, page: PageOutput, lsn: nat, resume: bool): seq<Message> {
    var w := page.window;
    [Subscribed(sub, page.pk, page.order),
     PageDelta(sub, if resume then [] else w.rows, [], w.hasOlder, w.hasNewer, w.total, lsn, Some(!resume))]
  }

  lemma AllUpserts(pk: string, rows: seq<Row>)
    ensures Upserts(EMPTY, pk, rows) == rows
  {
    SelectAll(rows, r => Fresh(EMPTY, pk, r));
  }

  /** A first evaluation asks under the record's window and identity and fails as the query
      does; otherwise the record takes over the query and its page. */
  lemma FirstAsks(rt: Runtime, rec: SubRecord, resumeAt: Option<nat>)
    requires Tracked(rec) && Compiles(rt)
    ensures var e, q := Evaluated(rt, rec, true, resumeAt), rt.query(Request(rec.name, rec.args, rec.window, rec.identity));
            e == if q.Threw? then Err(q.message)
                 else Ok((rec.(paginated := true, ivm := Some(Tracker(q.spec, BaselineOf(q.page)))),
                          FirstMessages(rec.sub, q.page, rt.lsn, resumeAt == Some(rt.lsn))))
  {
    hide Upserts, Compiles, IndexRows;
    var q := rt.query(Request(rec.name, rec.args, rec.window, rec.identity));
    if q.Captured? {
      IndexRowsValid(q.page.window.rows, q.page.pk);
      AllUpserts(q.page.pk, q.page.window.rows);
      var m := FirstMessages(rec.sub, q.page, rt.lsn, resumeAt == Some(rt.lsn));
      assert m == [m[0]] + [m[1]];
    }
  }

  /** A later one asks the same way and sends the difference from the page before. */
  lemma LaterAsks(rt: Runtime, rec: SubRecord)
    requires Tracked(rec) && Compiles(rt) && rec.ivm.Some?
    ensures var e, q := Evaluated(rt, rec, false, None), rt.query(Request(rec.name, rec.args, rec.window, rec.identity));
            e == if q.Threw? then Err(q.message)
                 else Ok((rec.(ivm := Some(rec.ivm.value.(view := BaselineOf(q.page)))),
                          [DeltaMessage(rec.sub, Diff(rec.ivm.value.view, q.page), rt.lsn, Some(false))]))
  {
    hide Diff, Compiles, IndexRows;
    var q := rt.query(Request(rec.name, rec.args, rec.window, rec.identity));
    if q.Captured? {
      var m := DeltaMessage(rec.sub, Diff(rec.ivm.value.view, q.page), rt.lsn, Some(false));
      assert [] + [m] == [m];
    }
  }

  /** What a commit makes of a record and sends for it. A commit that may change the window asks
      the record's own query again and sends the difference, if any; any other moves the total
      by the net of the commit. */
  ghost predicate CommitTells(rt: Runtime, was: SubRecord, changes: seq<RowChange>, now: SubRecord, sent: seq<Outbound>)
    requires Tracked(was) && was.ivm.Some?
  {
    var t, q := was.ivm.value, rt.query(Request(was.name, was.args, was.window, was.identity));
    if CanChange(t.view, t.spec, changes) then
      && q.Captured? && now == was.(ivm := Some(Tracker(t.spec, BaselineOf(q.page))))
      && var d := Diff(t.view, q.page);
         sent == if d.changed then [Outbound(was.conn, DeltaMessage(was.sub, d, rt.lsn, None))] else []
    else
      var net := Net(t.spec, changes);
      var total := t.view.total + net;
      && now == was.(ivm := Some(Tracker(t.spec, t.view.(total := total))))
      && sent == if net == 0 then []
                 else [Outbound(was.conn, PageDelta(was.sub, [], [], t.view.hasOlder, t.view.hasNewer, total, rt.lsn, None))]
  }

  /** The commit reaches the record: no query is needed, or the one it asks answers. */
  ghost predicate Reached(rt: Runtime, rec: SubRecord, changes: seq<RowChange>)
    requires Tracked(rec) && rec.ivm.Some?
  {
    CanChange(rec.ivm.value.view, rec.ivm.value.spec, changes) ==>
      rt.query(Request(rec.name, rec.args, rec.window, rec.identity)).Captured?
  }

  lemma CommitAsks(rt: Runtime, rec: SubRecord, changes: seq<RowChange>)
    requires Tracked(rec) && Compiles(rt) && rec.ivm.Some?
    ensures var e := Notified(rt, rec, changes);
            && (e.Ok? <==> Reached(rt, rec, changes))
            && (e.Ok? ==> CommitTells(rt, rec, changes, e.value.0, Addressed(rec.conn, e.value.1)))
            && (e.Err? ==> rt.query(Request(rec.name, rec.args, rec.window, rec.identity)) == Threw(e.error))
  {
    hide Diff, Compiles, IndexRows, Net;
  }

  /** What a change of identity makes of a record and sends for it: its own query is asked under
      its window and the new identity, and it starts over with that page, or is told why it is
      dropped. */
  ghost predicate StartsOver(rt: Runtime, was: SubRecord, identity: Option<string>, now: Option<SubRecord>, sent: seq<Outbound>) {
    var q := rt.query(Request(was.name, was.args, was.window, identity));
    if q.Threw? then
      now == None && sent == [Outbound(was.conn, Failure(was.sub, q.message))]
    else
      && now == Some(was.(identity := identity, paginated := true, ivm := Some(Tracker(q.spec, BaselineOf(q.page)))))
      && sent == Addressed(was.conn, FirstMessages(was.sub, q.page, rt.lsn, false))
  }

  lemma RebindAsks(rt: Runtime, rec: SubRecord, identity: Option<string>)
    requires Compiles(rt)
    ensures var (now, messages) := Rebound(rt, rec, identity);
            StartsOver(rt, rec, identity, now, Addressed(rec.conn, messages))
  {
    hide Evaluated, Compiles, IndexRows;
    FirstAsks(rt, rec.(identity := identity, ivm := None, paginated := false), None);
  }

  // ---------------------------------------------------------------- what goes to whom

  function RecordAt(m: map<SubKey, SubRecord>, k: SubKey): Option<SubRecord> {
    if k in m then Some(m[k]) else None
  }

  function Addressed(conn: string, messages: seq<Message>): (r: seq<Outbound>)
    ensures |r| == |messages|
    ensures forall i :: 0 <= i < |r| ==> r[i] == Outbound(conn, messages[i])
  {
    seq(|messages|, i requires 0 <= i < |messages| => Outbound(conn, messages[i]))
  }

  function For(key: SubKey): Outbound -> bool {
    (o: Outbound) => o.conn == key.conn && o.message.sub == key.sub
  }

  /** Only what is addressed to one subscription of one connection. */
  function SentTo(out: seq<Outbound>, key: SubKey): seq<Outbound> {
    Select(out, For(key))
  }

  ghost predicate AllDistinct<T(!new)>(s: seq<T>) {
    forall i, j :: 0 <= i < j < |s| ==> s[i] != s[j]
  }

  function Of(conn: string): SubKey -> bool {
    (k: SubKey) => k.conn == conn
  }

  function NotOf(conn: string): SubKey -> bool {
    (k: SubKey) => k.conn != conn
  }

  function Except(key: SubKey): SubKey -> bool {
    (k: SubKey) => k != key
  }

  // ---------------------------------------------------------------- the hub

  /** What fanning a commit out over the first `n` subscriptions leaves: their records, and the
      messages or the error that ended it. */
  ghost function Fanned(rt: Runtime, keys: seq<SubKey>, subs: map<SubKey, SubRecord>, changes: seq<RowChange>, n: nat)
    : (map<SubKey, SubRecord>, Result<seq<Outbound>, string>)
    requires n <= |keys| && (forall i :: 0 <= i < |keys| ==> keys[i] in subs && Tracked(subs[keys[i]])) && Compiles(rt)
  {
    if n == 0 then (subs, Ok([]))
    else
      var (before, out) := Fanned(rt, keys, subs, changes, n - 1);
      var rec := subs[keys[n - 1]];
      if out.Err? then (before, out)
      else match Notified(rt, rec, changes)
        case Err(m) => (before, Err(m))
        case Ok((rec', messages)) => (before[keys[n - 1] := rec'], Ok(out.value + Addressed(rec.conn, messages)))
  }

  lemma NobodyFanned(rt: Runtime, keys: seq<SubKey>, subs: map<SubKey, SubRecord>, changes: seq<RowChange>)
    requires (forall i :: 0 <= i < |keys| ==> keys[i] in subs && Tracked(subs[keys[i]])) && Compiles(rt)
    ensures Fanned(rt, keys, subs, changes, 0) == (subs, Ok([]))
  {
  }

  lemma FannedStep(rt: Runtime, keys: seq<SubKey>, subs: map<SubKey, SubRecord>, changes: seq<RowChange>, n: nat)
    requires n < |keys| && (forall i :: 0 <= i < |keys| ==> keys[i] in subs && Tracked(subs[keys[i]])) && Compiles(rt)
    requires Fanned(rt, keys, subs, changes, n).1.Ok?
    ensures var (before, out) := Fanned(rt, keys, subs, changes, n);
            var rec := subs[keys[n]];
            var e := Notified(rt, rec, changes);
            Fanned(rt, keys, subs, changes, n + 1) ==
            if e.Ok? then (before[keys[n] := e.value.0], Ok(out.value + Addressed(rec.conn, e.value.1)))
            else (before, Err(e.error))
  {
    hide Notified, Tracked, Compiles;
  }

  /** The record of a subscription whose connection changed identity, and what is sent. */
  function Rebound(rt: Runtime, rec: SubRecord, identity: Option<string>): (r: (Option<SubRecord>, seq<Message>))
    requires Compiles(rt)
    ensures r.0.Some? ==> Tracked(r.0.value) && r.0.value.conn == rec.conn && r.0.value.sub == rec.sub
  {
    match Evaluated(rt, rec.(identity := identity, ivm := None, paginated := false), true, None)
    case Err(m) => (None, [Failure(rec.sub, m)])
    case Ok((rec', messages)) => (Some(rec'), messages)
  }

  function Replaced(subs: map<SubKey, SubRecord>, key: SubKey, rec: Option<SubRecord>): map<SubKey, SubRecord> {
    if rec.Some? then subs[key := rec.value] else subs - {key}
  }

  /** What re-binding the first `n` subscriptions leaves and sends. */
  ghost function ReboundAll(rt: Runtime, keys: seq<SubKey>, subs: map<SubKey, SubRecord>, conn: string, identity: Option<string>, n: nat)
    : (map<SubKey, SubRecord>, seq<Outbound>)
    requires n <= |keys| && (forall i :: 0 <= i < |keys| ==> keys[i] in subs) && Compiles(rt)
  {
    if n == 0 then (subs, [])
    else
      var (before, out) := ReboundAll(rt, keys, subs, conn, identity, n - 1);
      var key := keys[n - 1];
      if key.conn != conn then (before, out)
      else
        var (rec', messages) := Rebound(rt, subs[key], identity);
        (Replaced(before, key, rec'), out + Addressed(conn, messages))
  }

  /** Re-binding replaces or drops each record of the connection and touches no other. */
  lemma {:induction false} ReboundExactly(rt: Runtime, keys: seq<SubKey>, subs: map<SubKey, SubRecord>, conn: string,
                                          identity: Option<string>, n: nat)
    requires n <= |keys| && (forall i :: 0 <= i < |keys| ==> keys[i] in subs) && Compiles(rt) && AllDistinct(keys)
    ensures var after := ReboundAll(rt, keys, subs, conn, identity, n).0;
            && (forall i :: 0 <= i < |keys| && (i >= n || keys[i].conn != conn) ==> keys[i] in after && after[keys[i]] == subs[keys[i]])
            && (forall i :: 0 <= i < n && keys[i].conn == conn ==>
                  var rec' := Rebound(rt, subs[keys[i]], identity).0;
                  (keys[i] in after <==> rec'.Some?) && (rec'.Some? ==> after[keys[i]] == rec'.value))
            && after.Keys <= subs.Keys
  {
    hide Rebound, Compiles;
    if n == 0 {
    } else {
      ReboundExactly(rt, keys, subs, conn, identity, n - 1);
    }
  }

  lemma ReboundOwn(rt: Runtime, rec: SubRecord, identity: Option<string>, key: SubKey)
    requires Compiles(rt)
    ensures var out := Addressed(rec.conn, Rebound(rt, rec, identity).1);
            SentTo(out, key) == if key == SubKey(rec.conn, rec.sub) then out else []
  {
    hide Rebound, Compiles;
    RebindAsks(rt, rec, identity);
    var out := Addressed(rec.conn, Rebound(rt, rec, identity).1);
    if key == SubKey(rec.conn, rec.sub) {
      SelectAll(out, For(key));
    } else {
      SelectNone(out, For(key));
    }
  }

  lemma ReboundSplit(rt: Runtime, rec: SubRecord, identity: Option<string>, out: seq<Outbound>, key: SubKey)
    requires Compiles(rt)
    ensures var more := Addressed(rec.conn, Rebound(rt, rec, identity).1);
            SentTo(out + more, key) == if key == SubKey(rec.conn, rec.sub) then SentTo(out, key) + more else SentTo(out, key)
  {
    hide Rebound, Select, Compiles;
    var more := Addressed(rec.conn, Rebound(rt, rec, identity).1);
    ReboundOwn(rt, rec, identity, key);
    SelectAppend(out, more, For(key));
    assert SentTo(out, key) + [] == SentTo(out, key);
  }

  lemma SeenOnce<T(!new)>(s: seq<T>, n: nat)
    requires AllDistinct(s) && n < |s|
    ensures s[n] !in s[..n]
  {
  }

  /** What re-binding sends each subscription, whatever it sends the others. */
  lemma {:induction false} ReboundSends(rt: Runtime, keys: seq<SubKey>, subs: map<SubKey, SubRecord>, conn: string,
                                        identity: Option<string>, n: nat, k: SubKey)
    requires n <= |keys| && Registered(keys, subs) && Compiles(rt) && k in keys
    ensures SentTo(ReboundAll(rt, keys, subs, conn, identity, n).1, k) ==
            if k in keys[..n] && k.conn == conn then Addressed(conn, Rebound(rt, subs[k], identity).1) else []
  {
    hide Rebound, Compiles, Tracked, SentTo, Addressed;
    if n == 0 {
      NothingSent();
    } else {
      ReboundSends(rt, keys, subs, conn, identity, n - 1, k);
      var key, out := keys[n - 1], ReboundAll(rt, keys, subs, conn, identity, n - 1).1;
      assert keys[..n] == keys[..n - 1] + [key];
      if key.conn == conn {
        var more := Addressed(conn, Rebound(rt, subs[key], identity).1);
        ReboundSplit(rt, subs[key], identity, out, k);
        SeenOnce(keys, n - 1);
        assert [] + more == more;
      }
    }
  }

  lemma ReauthTells(rt: Runtime, keys: seq<SubKey>, subs: map<SubKey, SubRecord>, conn: string, identity: Option<string>)
    requires Registered(keys, subs) && Compiles(rt) && (forall k :: k in keys <==> k in subs)
    ensures var (after, out) := ReboundAll(rt, keys, subs, conn, identity, |keys|);
            && after.Keys <= subs.Keys
            && forall k :: k in subs ==>
                 if k.conn == conn then StartsOver(rt, subs[k], identity, RecordAt(after, k), SentTo(out, k))
                 else k in after && after[k] == subs[k] && SentTo(out, k) == []
  {
    hide Rebound, Compiles, Tracked, SentTo, StartsOver, ReboundAll;
    ReboundExactly(rt, keys, subs, conn, identity, |keys|);
    forall k | k in subs
      ensures var (after, out) := ReboundAll(rt, keys, subs, conn, identity, |keys|);
              if k.conn == conn then StartsOver(rt, subs[k], identity, RecordAt(after, k), SentTo(out, k))
              else k in after && after[k] == subs[k] && SentTo(out, k) == []
    {
      var i :| 0 <= i < |keys| && keys[i] == k;
      assert keys[..|keys|] == keys;
      ReboundSends(rt, keys, subs, conn, identity, |keys|, k);
      RebindAsks(rt, subs[k], identity);
    }
  }

  lemma CommitFans(rt: Runtime, keys: seq<SubKey>, subs: map<SubKey, SubRecord>, changes: seq<RowChange>)
    requires Registered(keys, subs) && Compiles(rt) && (forall k :: k in keys <==> k in subs)
    requires forall k :: k in subs ==> Tracked(subs[k]) && subs[k].ivm.Some?
    ensures var (after, r) := Fanned(rt, keys, subs, changes, |keys|);
            && (r.Ok? <==> forall k :: k in subs ==> Reached(rt, subs[k], changes))
            && (r.Ok? ==> forall k :: k in subs ==> k in after && CommitTells(rt, subs[k], changes, after[k], SentTo(r.value, k)))
  {
    hide Notified, Compiles, Tracked, SentTo, Reached, CommitTells, Fanned;
    FannedExactly(rt, keys, subs, changes, |keys|);
    forall k | k in subs
      ensures exists i :: 0 <= i < |keys| && keys[i] == k
      ensures Notified(rt, subs[k], changes).Ok? <==> Reached(rt, subs[k], changes)
      ensures var e := Notified(rt, subs[k], changes);
              e.Ok? ==> CommitTells(rt, subs[k], changes, e.value.0, Addressed(subs[k].conn, e.value.1))
    {
      CommitAsks(rt, subs[k], changes);
      var i :| 0 <= i < |keys| && keys[i] == k;
    }
  }

  /** The record of a subscription that has been evaluated, under its own key. */
  ghost predicate Sits(k: SubKey, rec: SubRecord) {
    Tracked(rec) && rec.ivm.Some? && rec.conn == k.conn && rec.sub == k.sub
  }

  class ReactiveHub {
    /** The keys in the order they were first set. */
    var keys: seq<SubKey>
    var subs: map<SubKey, SubRecord>

    ghost predicate Valid()
      reads this
    {
      && AllDistinct(keys)
      && (forall k :: k in keys <==> k in subs)
      && (forall k :: k in subs ==> Sits(k, subs[k]))
    }

    constructor ()
      ensures Valid() && subs == map[]
    {
      keys, subs := [], map[];
    }

    ghost function HeldBy(conn: string): seq<SubKey>
      reads this
    {
      Select(keys, Of(conn))
    }

    method CountForConn(conn: string) returns (n: nat)
      requires Valid()
      ensures n == |HeldBy(conn)|
    {
      n := 0;
      for i := 0 to |keys|
        invariant n == |Select(keys[..i], Of(conn))|
      {
        SelectAppend(keys[..i], [keys[i]], Of(conn));
        assert keys[..i + 1] == keys[..i] + [keys[i]];
        if keys[i].conn == conn {
          n := n + 1;
        }
      }
      assert keys[..|keys|] == keys;
    }

    method RemoveConnection(conn: string)
      requires Valid()
      modifies this
      ensures Valid() && subs == map k | k in old(subs) && k.conn != conn :: old(subs)[k]
    {
      KeepDistinct(keys, NotOf(conn));
      keys := Select(keys, NotOf(conn));
      subs := map k | k in subs && k.conn != conn :: subs[k];
    }

    method Unsubscribe(conn: string, sub: string)
      requires Valid()
      modifies this
      ensures Valid() && subs == old(subs) - {SubKey(conn, sub)}
    {
      KeepDistinct(keys, Except(SubKey(conn, sub)));
      keys := Select(keys, Except(SubKey(conn, sub)));
      subs := subs - {SubKey(conn, sub)};
    }

    method Set(key: SubKey, rec: SubRecord)
      requires Valid() && Tracked(rec) && rec.ivm.Some? && rec.conn == key.conn && rec.sub == key.sub
      modifies this
      ensures Valid() && subs == old(subs)[key := rec]
      ensures keys == if key in old(subs) then old(keys) else old(keys) + [key]
    {
      if key !in subs {
        keys := keys + [key];
      }
      subs := subs[key := rec];
    }

    /** Nothing is registered unless the first query succeeds; a connection never goes over its
        limit by a new subscription. */
    method Subscribe(rt: Runtime, conn: string, sub: string, name: string, args: string, pagination: Option<PaginationOpts>,
                     identity: Option<string>, resumeAt: Option<nat>) returns (r: Result<seq<Outbound>, string>)
      requires Valid() && Compiles(rt)
      modifies this
      ensures Valid()
      ensures var key, q := SubKey(conn, sub), rt.query(Request(name, args, pagination, identity));
              if key !in old(subs) && |old(HeldBy(conn))| >= MAX_SUBS_PER_CONN then r.Err? && subs == old(subs)
              else if q.Threw? then r == Err(q.message) && subs == old(subs)
              else
                && r == Ok(Addressed(conn, FirstMessages(sub, q.page, rt.lsn, resumeAt == Some(rt.lsn))))
                && subs == old(subs)[key := SubRecord(conn, sub, name, args, identity, true, pagination,
                                                      Some(Tracker(q.spec, BaselineOf(q.page))))]
      ensures |old(HeldBy(conn))| <= MAX_SUBS_PER_CONN ==> |HeldBy(conn)| <= MAX_SUBS_PER_CONN
    {
      var key := SubKey(conn, sub);
      if key !in subs {
        var n := CountForConn(conn);
        if n >= MAX_SUBS_PER_CONN {
          return Err("subscription limit reached");
        }
      }
      var rec := SubRecord(conn, sub, name, args, identity, false, pagination, None);
      FirstAsks(rt, rec, resumeAt);
      var e := Evaluated(rt, rec, true, resumeAt);
      match e {
        case Err(m) => r := Err(m);
        case Ok(v) =>
          SelectAppend(keys, [key], Of(conn));
          Set(key, v.0);
          r := Ok(Addressed(conn, v.1));
      }
    }

    /** The window is taken before the query runs, and stays taken when it fails. */
    method SetPagination(rt: Runtime, conn: string, sub: string, pagination: PaginationOpts) returns (r: Result<seq<Outbound>, string>)
      requires Valid() && Compiles(rt)
      modifies this
      ensures Valid() && keys == old(keys)
      ensures var key := SubKey(conn, sub);
              if key !in old(subs) then r == Ok([]) && subs == old(subs)
              else
                var was := old(subs)[key];
                var q := rt.query(Request(was.name, was.args, Some(pagination), was.identity));
                if q.Threw? then r == Err(q.message) && subs == old(subs)[key := was.(window := Some(pagination))]
                else
                  && r == Ok([Outbound(conn, DeltaMessage(sub, Diff(was.ivm.value.view, q.page), rt.lsn, Some(false)))])
                  && subs == old(subs)[key := was.(window := Some(pagination),
                                                   ivm := Some(was.ivm.value.(view := BaselineOf(q.page))))]
    {
      var key := SubKey(conn, sub);
      if key !in subs {
        return Ok([]);
      }
      var rec := subs[key].(window := Some(pagination));
      LaterAsks(rt, rec);
      var e := Evaluated(rt, rec, false, None);
      match e {
        case Err(m) =>
          Set(key, rec);
          r := Err(m);
        case Ok(v) =>
          Set(key, v.0);
          assert Addressed(conn, v.1) == [Outbound(conn, v.1[0])];
          r := Ok(Addressed(conn, v.1));
      }
    }

    method Rebind(rt: Runtime, key: SubKey, identity: Option<string>) returns (messages: seq<Message>)
      requires Valid() && Compiles(rt) && key in subs
      modifies this
      ensures Valid()
      ensures var r := Rebound(rt, old(subs)[key], identity);
              messages == r.1 && subs == Replaced(old(subs), key, r.0)
    {
      hide Rebound, Tracked, Compiles;
      RebindAsks(rt, subs[key], identity);
      var r := Rebound(rt, subs[key], identity);
      messages := r.1;
      if r.0.Some? {
        Set(key, r.0.value);
      } else {
        Unsubscribe(key.conn, key.sub);
      }
    }

    /** Every subscription of the connection starts over under the new identity; one that fails
        is told so and dropped. */
    method Reauth(rt: Runtime, conn: string, identity: Option<string>) returns (out: seq<Outbound>)
      requires Valid() && Compiles(rt)
      modifies this
      ensures Valid() && (subs, out) == ReboundAll(rt, old(keys), old(subs), conn, identity, |old(keys)|)
      ensures subs.Keys <= old(subs).Keys
      ensures forall k :: k in old(subs) ==>
                if k.conn == conn then StartsOver(rt, old(subs)[k], identity, RecordAt(subs, k), SentTo(out, k))
                else k in subs && subs[k] == old(subs)[k] && SentTo(out, k) == []
    {
      hide Rebound, Tracked, Compiles, StartsOver, SentTo, Addressed;
      out := [];
      var todo, was := keys, subs;
      for i := 0 to |todo|
        invariant Valid() && (subs, out) == ReboundAll(rt, todo, was, conn, identity, i)
      {
        var key := todo[i];
        ReboundExactly(rt, todo, was, conn, identity, i);
        if key.conn == conn {
          var messages := Rebind(rt, key, identity);
          out := out + Addressed(conn, messages);
        }
      }
      ReauthTells(rt, todo, was, conn, identity);
    }

    /** Every subscription takes its own step, in insertion order, until one throws. */
    method OnCommit(rt: Runtime, changes: seq<RowChange>) returns (r: Result<seq<Outbound>, string>)
      requires Valid() && Compiles(rt)
      modifies this`subs
      ensures Valid() && (subs, r) == Fanned(rt, keys, old(subs), changes, |keys|)
      ensures r.Ok? <==> forall k :: k in old(subs) ==> Reached(rt, old(subs)[k], changes)
      ensures r.Ok? ==> forall k :: k in old(subs) ==>
                k in subs && CommitTells(rt, old(subs)[k], changes, subs[k], SentTo(r.value, k))
    {
      hide Notified, Tracked, Compiles, Fanned, Reached, CommitTells, SentTo, Addressed;
      ghost var was := subs;
      NobodyFanned(rt, keys, subs, changes);
      var out: seq<Outbound> := [];
      for i := 0 to |keys|
        invariant subs.Keys == old(subs).Keys && forall k :: k in subs ==> Sits(k, subs[k])
        invariant (subs, Ok(out)) == Fanned(rt, keys, was, changes, i)
        invariant forall j :: i <= j < |keys| ==> subs[keys[j]] == was[keys[j]]
      {
        var rec := subs[keys[i]];
        var e := Notified(rt, rec, changes);
        FannedStep(rt, keys, was, changes, i);
        match e {
          case Err(m) =>
            FannedFails(rt, keys, was, changes, i, |keys|);
            CommitFans(rt, keys, was, changes);
            return Err(m);
          case Ok(v) =>
            subs := subs[keys[i] := v.0];
            out := out + Addressed(rec.conn, v.1);
        }
      }
      CommitFans(rt, keys, was, changes);
      r := Ok(out);
    }
  }

  lemma {:induction false} KeepDistinct<T(!new)>(s: seq<T>, p: T -> bool)
    requires AllDistinct(s)
    ensures AllDistinct(Select(s, p))
  {
    SelectAscending(s, p, (a, b) => a != b);
  }

  /** Once a subscription throws, the fan-out ends as it stood. */
  lemma {:induction false} FannedFails(rt: Runtime, keys: seq<SubKey>, subs: map<SubKey, SubRecord>, changes: seq<RowChange>, i: nat, n: nat)
    requires i < n <= |keys| && (forall i :: 0 <= i < |keys| ==> keys[i] in subs && Tracked(subs[keys[i]])) && Compiles(rt)
    requires Fanned(rt, keys, subs, changes, i).1.Ok? && Notified(rt, subs[keys[i]], changes).Err?
    ensures Fanned(rt, keys, subs, changes, n) ==
            (Fanned(rt, keys, subs, changes, i).0, Err(Notified(rt, subs[keys[i]], changes).error))
    decreases n
  {
    if n == i + 1 {
    } else {
      FannedFails(rt, keys, subs, changes, i, n - 1);
    }
  }

  // ---------------------------------------------------------------- subscriptions do not disturb each other

  ghost predicate Registered(keys: seq<SubKey>, subs: map<SubKey, SubRecord>) {
    && AllDistinct(keys)
    && (forall i :: 0 <= i < |keys| ==> keys[i] in subs && Tracked(subs[keys[i]]))
    && (forall i :: 0 <= i < |keys| ==> SubKey(subs[keys[i]].conn, subs[keys[i]].sub) == keys[i])
  }

  lemma OwnMessages(rt: Runtime, rec: SubRecord, changes: seq<RowChange>, key: SubKey)
    requires Tracked(rec) && Compiles(rt) && Notified(rt, rec, changes).Ok?
    ensures var out := Addressed(rec.conn, Notified(rt, rec, changes).value.1);
            SentTo(out, key) == if key == SubKey(rec.conn, rec.sub) then out else []
  {
    hide CanChange, Recount, Diff;
    var messages := Notified(rt, rec, changes).value.1;
    assert |messages| <= 1;
    assert forall i :: 0 <= i < |messages| ==> messages[i].sub == rec.sub;
  }

  /** The subscription has taken its own step, and what is sent to it is what that step gives. */
  ghost predicate Stepped(rt: Runtime, key: SubKey, subs: map<SubKey, SubRecord>, changes: seq<RowChange>,
                          after: map<SubKey, SubRecord>, out: seq<Outbound>)
    requires key in subs && Tracked(subs[key]) && Compiles(rt)
  {
    var e := Notified(rt, subs[key], changes);
    e.Ok? && key in after && after[key] == e.value.0 && SentTo(out, key) == Addressed(key.conn, e.value.1)
  }

  ghost predicate Waiting(key: SubKey, subs: map<SubKey, SubRecord>, after: map<SubKey, SubRecord>, out: seq<Outbound>) {
    key in subs && key in after && after[key] == subs[key] && SentTo(out, key) == []
  }

  /** One more subscription's messages go to it and to no other. */
  lemma MessagesSplit(rt: Runtime, rec: SubRecord, changes: seq<RowChange>, out: seq<Outbound>, key: SubKey)
    requires Tracked(rec) && Compiles(rt) && Notified(rt, rec, changes).Ok?
    ensures var more := Addressed(rec.conn, Notified(rt, rec, changes).value.1);
            SentTo(out + more, key) == if key == SubKey(rec.conn, rec.sub) then SentTo(out, key) + more else SentTo(out, key)
  {
    hide Notified, Select;
    var more := Addressed(rec.conn, Notified(rt, rec, changes).value.1);
    OwnMessages(rt, rec, changes, key);
    SelectAppend(out, more, For(key));
    assert SentTo(out, key) + [] == SentTo(out, key);
  }

  /** A commit reaches every subscription exactly when no query throws, and then each record
      and the messages for it are what its own step gives, whatever the others do. */
  lemma {:induction false} FannedExactly(rt: Runtime, keys: seq<SubKey>, subs: map<SubKey, SubRecord>, changes: seq<RowChange>, n: nat)
    requires Registered(keys, subs) && Compiles(rt) && n <= |keys|
    ensures var out := Fanned(rt, keys, subs, changes, n).1;
            out.Ok? <==> forall i :: 0 <= i < n ==> Notified(rt, subs[keys[i]], changes).Ok?
    ensures var (after, out) := Fanned(rt, keys, subs, changes, n);
            out.Ok? ==>
              (forall i :: 0 <= i < n ==> Stepped(rt, keys[i], subs, changes, after, out.value)) &&
              (forall i :: n <= i < |keys| ==> Waiting(keys[i], subs, after, out.value))
  {
    hide Notified, Tracked, Compiles, SentTo, Addressed;
    if n == 0 {
      NothingSent();
    } else {
      FannedExactly(rt, keys, subs, changes, n - 1);
      var (before, sent) := Fanned(rt, keys, subs, changes, n - 1);
      var rec := subs[keys[n - 1]];
      var e := Notified(rt, rec, changes);
      if sent.Ok? && e.Ok? {
        SentSplit(rt, keys, subs, changes, n - 1, sent.value);
      }
    }
  }

  lemma SentSplit(rt: Runtime, keys: seq<SubKey>, subs: map<SubKey, SubRecord>, changes: seq<RowChange>, n: nat, out: seq<Outbound>)
    requires Registered(keys, subs) && Compiles(rt) && n < |keys|
    requires Notified(rt, subs[keys[n]], changes).Ok? && SentTo(out, keys[n]) == []
    ensures var more := Addressed(keys[n].conn, Notified(rt, subs[keys[n]], changes).value.1);
            forall i :: 0 <= i < |keys| ==> SentTo(out + more, keys[i]) == if i == n then more else SentTo(out, keys[i])
  {
    hide Notified, Tracked, Compiles, SentTo, Addressed;
    var more := Addressed(keys[n].conn, Notified(rt, subs[keys[n]], changes).value.1);
    forall i | 0 <= i < |keys| ensures SentTo(out + more, keys[i]) == if i == n then more else SentTo(out, keys[i]) {
      MessagesSplit(rt, subs[keys[n]], changes, out, keys[i]);
      assert [] + more == more;
      assert i != n ==> keys[i] != keys[n];
    }
  }

  lemma NothingSent()
    ensures forall key: SubKey :: SentTo([], key) == []
  {
  }

  /** When a query throws, the subscriptions before it have moved their baselines on, and
      nothing is sent to anyone. */
  lemma FanOutLoses(rt: Runtime, keys: seq<SubKey>, subs: map<SubKey, SubRecord>, changes: seq<RowChange>, i: nat, j: nat)
    requires Registered(keys, subs) && Compiles(rt) && j < i < |keys|
    requires forall k :: 0 <= k < i ==> Notified(rt, subs[keys[k]], changes).Ok?
    requires Notified(rt, subs[keys[i]], changes).Err?
    ensures var (after, out) := Fanned(rt, keys, subs, changes, |keys|);
            out.Err? && keys[j] in after && after[keys[j]] == Notified(rt, subs[keys[j]], changes).value.0
  {
    hide Notified;
    FannedExactly(rt, keys, subs, changes, i);
    FannedFails(rt, keys, subs, changes, i, |keys|);
  }
}
