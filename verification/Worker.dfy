/** The conditional cache at the edge and the watermark check at the partition
    (packages/server/src/worker.ts, packages/server/src/partition.ts). */
module Worker {
  import opened Wrappers

  /** What the cache key hashes: the partition, the request body and the identity. */
  datatype Key = Key(partition: string, body: string, identity: string)

  datatype Outcome = Value(value: string) | Failure(message: string)

  datatype Cached = Cached(outcome: Outcome, watermark: nat)

  datatype Response = NotModified(watermark: nat) | Payload(outcome: Outcome, watermark: nat)

  type Cache = map<Key, Cached>

  /** The watermark sent along is the cached one; the answer is labelled with the LSN captured
      before the query ran. */
  function Respond(ifWatermark: Option<nat>, current: nat, outcome: Outcome): Response {
    if ifWatermark == Some(current) then NotModified(current) else Payload(outcome, current)
  }

  function Hint(cached: Option<Cached>): Option<nat> {
    if cached.Some? then Some(cached.value.watermark) else None
  }

  /** The body served, and the cache once the response is in. */
  function Served(cache: Cache, key: Key, cached: Option<Cached>, res: Response): (Cache, Outcome) {
    match res
    case NotModified(_) => (cache, if cached.Some? then cached.value.outcome else Failure(""))
    case Payload(outcome, watermark) =>
      (if outcome.Value? then cache[key := Cached(outcome, watermark)] else cache, outcome)
  }

  /** One edge, around its shared cache. */
  class Edge {
    var cache: Cache

    constructor ()
      ensures cache == map[]
    {
      cache := map[];
    }

    /** The first half of a request: what the cache has, and the header to send. */
    method Look(key: Key) returns (cached: Option<Cached>, ifWatermark: Option<nat>)
      ensures cached == if key in cache then Some(cache[key]) else None
      ensures ifWatermark == Hint(cached)
    {
      cached := if key in cache then Some(cache[key]) else None;
      ifWatermark := None;
      if cached.Some? {
        ifWatermark := Some(cached.value.watermark);
      }
    }

    /** The second half: serve the cached body when nothing changed; otherwise keep a
        successful answer for the next request and serve it. */
    method Finish(key: Key, cached: Option<Cached>, res: Response) returns (outcome: Outcome)
      modifies this
      ensures (cache, outcome) == Served(old(cache), key, cached, res)
    {
      if res.NotModified? && cached.Some? {
        return cached.value.outcome;
      }
      match res {
        case NotModified(_) =>
          outcome := Failure("");
        case Payload(o, watermark) =>
          if o.Value? {
            cache := cache[key := Cached(o, watermark)];
          }
          outcome := o;
      }
    }
  }

  // ---------------------------------------------------------------- interleavings

  datatype Phase =
    | Arrived
    | Looked(cached: Option<Cached>)
    | Captured(cached: Option<Cached>, current: nat)
    | Answered(cached: Option<Cached>, res: Response)
    | Done(outcome: Outcome, until: nat)

  /** `since` and `until` are the moments when the request came in and when it was served. */
  datatype Request = Request(key: Key, since: nat, phase: Phase)

  /** The states of the partition by LSN; every state it was ever in, in order; the cache; and
      the requests under way or served. A crash takes LSNs back, never moments. */
  datatype World<D> = World(states: seq<D>, moments: seq<D>, cache: Cache, requests: map<nat, Request>)

  datatype Step<D> =
    | Commit(d: D)
    | Arrive(id: nat, key: Key)
    | Look(id: nat)
    | Capture(id: nat)
    | Answer(id: nat)
    | Serve(id: nat)
    | Evict(key: Key)
    | Crash(lsn: nat)

  function Lsn<D>(w: World<D>): int {
    |w.states| - 1
  }

  function Now<D>(w: World<D>): int {
    |w.moments| - 1
  }

  /** A crash drops the requests the partition was answering and the commits above the LSN it
      comes back with. */
  ghost predicate Next<D(!new)>(query: (Key, D) -> Outcome, a: World<D>, step: Step<D>, b: World<D>)
    requires a.states != [] && a.moments != []
  {
    match step
    case Commit(d) => b == a.(states := a.states + [d], moments := a.moments + [d])
    case Evict(key) => b == a.(cache := a.cache - {key})
    case Arrive(id, key) => id !in a.requests && b == a.(requests := a.requests[id := Request(key, Now(a), Arrived)])
    case Look(id) =>
      id in a.requests && a.requests[id].phase.Arrived? &&
      var r := a.requests[id];
      b == a.(requests := a.requests[id := r.(phase := Looked(if r.key in a.cache then Some(a.cache[r.key]) else None))])
    case Capture(id) =>
      id in a.requests && a.requests[id].phase.Looked? &&
      var r := a.requests[id];
      b == a.(requests := a.requests[id := r.(phase := Captured(r.phase.cached, Lsn(a)))])
    case Answer(id) =>
      id in a.requests && a.requests[id].phase.Captured? &&
      var r := a.requests[id];
      var res := Respond(Hint(r.phase.cached), r.phase.current, query(r.key, a.states[Lsn(a)]));
      b == a.(requests := a.requests[id := r.(phase := Answered(r.phase.cached, res))])
    case Serve(id) =>
      id in a.requests && a.requests[id].phase.Answered? &&
      var r := a.requests[id];
      var (cache, outcome) := Served(a.cache, r.key, r.phase.cached, r.phase.res);
      b == a.(cache := cache, requests := a.requests[id := r.(phase := Done(outcome, Now(a)))])
    case Crash(lsn) =>
      lsn <= Lsn(a) &&
      b == World(a.states[..lsn + 1], a.moments + [a.states[lsn]], a.cache,
                 map id | id in a.requests && !a.requests[id].phase.Captured? :: a.requests[id])
  }

  /** The outcome is the query's on a state the partition was in between the two moments. */
  ghost predicate Current<D(!new)>(query: (Key, D) -> Outcome, moments: seq<D>, key: Key, outcome: Outcome, lo: int, hi: int) {
    exists n :: 0 <= n < |moments| && lo <= n <= hi && outcome == query(key, moments[n])
  }

  /** The cached body can be asked for under its watermark at this LSN or later: the LSN has
      passed the watermark, or the body is the one to serve at it. */
  ghost predicate Fits<D(!new)>(query: (Key, D) -> Outcome, states: seq<D>, key: Key, e: Cached) {
    e.watermark < |states| && (e.watermark == |states| - 1 ==> e.outcome == query(key, states[|states| - 1]))
  }

  ghost predicate RequestTrue<D(!new)>(query: (Key, D) -> Outcome, w: World<D>, r: Request) {
    r.since <= Now(w) &&
    match r.phase
    case Arrived => true
    case Looked(cached) =>
      cached.Some? ==> Fits(query, w.states, r.key, cached.value) || Current(query, w.moments, r.key, cached.value.outcome, r.since, Now(w))
    case Captured(cached, current) =>
      && current <= Lsn(w)
      && (cached.Some? && cached.value.watermark == current ==> Current(query, w.moments, r.key, cached.value.outcome, r.since, Now(w)))
    case Answered(cached, NotModified(_)) => cached.Some? && Current(query, w.moments, r.key, cached.value.outcome, r.since, Now(w))
    case Answered(cached, Payload(outcome, watermark)) =>
      && Current(query, w.moments, r.key, outcome, r.since, Now(w))
      && (outcome.Value? ==> Fits(query, w.states, r.key, Cached(outcome, watermark)))
    case Done(outcome, until) => until <= Now(w) && Current(query, w.moments, r.key, outcome, r.since, until)
  }

  ghost predicate Inv<D(!new)>(query: (Key, D) -> Outcome, w: World<D>) {
    && w.states != [] && w.moments != [] && w.moments[Now(w)] == w.states[Lsn(w)]
    && (forall key :: key in w.cache ==> Fits(query, w.states, key, w.cache[key]))
    && (forall id :: id in w.requests ==> RequestTrue(query, w, w.requests[id]))
  }

  /** The body a request holds or brings to the cache. */
  function Holding(r: Request): Option<Cached> {
    match r.phase
    case Looked(cached) => cached
    case Answered(_, Payload(outcome, watermark)) => if outcome.Value? then Some(Cached(outcome, watermark)) else None
    case _ => None
  }

  /** Every body cached, on its way to the cache, or looked up for a request has a watermark
      below the LSN the crash leaves, or is the body to serve at it; a body looked up may also
      have been current since its request came in. */
  ghost predicate SafeCrash<D(!new)>(query: (Key, D) -> Outcome, b: World<D>) {
    && (forall key :: key in b.cache ==> Fits(query, b.states, key, b.cache[key]))
    && (forall id :: id in b.requests && Holding(b.requests[id]).Some? ==>
          var r, e := b.requests[id], Holding(b.requests[id]).value;
          Fits(query, b.states, r.key, e) || (r.phase.Looked? && Current(query, b.moments, r.key, e.outcome, r.since, Now(b))))
  }

  lemma CurrentLater<D(!new)>(query: (Key, D) -> Outcome, moments: seq<D>, d: D, key: Key, outcome: Outcome, lo: int, hi: int, hi': int)
    requires Current(query, moments, key, outcome, lo, hi) && hi <= hi'
    ensures Current(query, moments + [d], key, outcome, lo, hi')
  {
    var n :| 0 <= n < |moments| && lo <= n <= hi && outcome == query(key, moments[n]);
    assert (moments + [d])[n] == moments[n];
  }

  lemma CommitKeeps<D(!new)>(query: (Key, D) -> Outcome, a: World<D>, d: D, b: World<D>)
    requires Inv(query, a) && Next(query, a, Commit(d), b)
    ensures Inv(query, b)
  {
    hide Current;
    forall id | id in b.requests ensures RequestTrue(query, b, b.requests[id]) {
      RequestLater(query, a, d, b, a.requests[id]);
    }
  }

  /** A new moment takes nothing from a request whose held body still fits. */
  lemma RequestLater<D(!new)>(query: (Key, D) -> Outcome, a: World<D>, d: D, b: World<D>, r: Request)
    requires a.moments != [] && RequestTrue(query, a, r) && b.moments == a.moments + [d]
    requires r.phase.Captured? ==> Lsn(a) <= Lsn(b)
    requires Holding(r).Some? && Fits(query, a.states, r.key, Holding(r).value) ==>
               Fits(query, b.states, r.key, Holding(r).value) ||
               (r.phase.Looked? && Current(query, b.moments, r.key, Holding(r).value.outcome, r.since, Now(b)))
    ensures RequestTrue(query, b, r)
  {
    hide Current, Fits;
    forall outcome, hi, hi': int | Current(query, a.moments, r.key, outcome, r.since, hi) && hi <= hi'
      ensures Current(query, b.moments, r.key, outcome, r.since, hi')
    {
      CurrentLater(query, a.moments, d, r.key, outcome, r.since, hi, hi');
    }
  }

  lemma CrashKeeps<D(!new)>(query: (Key, D) -> Outcome, a: World<D>, lsn: nat, b: World<D>)
    requires Inv(query, a) && Next(query, a, Crash(lsn), b) && SafeCrash(query, b)
    ensures Inv(query, b)
  {
    hide Current, Fits;
    forall id | id in b.requests ensures RequestTrue(query, b, b.requests[id]) {
      assert b.requests[id] == a.requests[id];
      RequestLater(query, a, a.states[lsn], b, a.requests[id]);
    }
  }

  lemma OneRequest<D(!new)>(query: (Key, D) -> Outcome, a: World<D>, b: World<D>, id: nat)
    requires Inv(query, a) && b.states == a.states && b.moments == a.moments && id in b.requests
    requires RequestTrue(query, b, b.requests[id])
    requires forall i :: i in b.requests && i != id ==> i in a.requests && b.requests[i] == a.requests[i]
    requires forall key :: key in b.cache ==> Fits(query, b.states, key, b.cache[key])
    ensures Inv(query, b)
  {
    hide Current, Fits;
    forall i | i in b.requests && i != id ensures RequestTrue(query, b, b.requests[i]) {
      assert RequestTrue(query, a, a.requests[i]);
    }
  }

  /** The partition moves one request on: captures the LSN, then answers with its state. */
  lemma PartitionKeeps<D(!new)>(query: (Key, D) -> Outcome, a: World<D>, id: nat, step: Step<D>, b: World<D>)
    requires Inv(query, a) && (step == Capture(id) || step == Answer(id)) && Next(query, a, step, b)
    ensures Inv(query, b)
  {
    var r := a.requests[id];
    assert RequestTrue(query, a, r);
    assert Current(query, a.moments, r.key, query(r.key, a.states[Lsn(a)]), r.since, Now(a)) by {
      assert a.moments[Now(a)] == a.states[Lsn(a)];
    }
    OneRequest(query, a, b, id);
  }

  /** The edge moves one request on: it comes in, looks in the cache, and is served. */
  lemma EdgeKeeps<D(!new)>(query: (Key, D) -> Outcome, a: World<D>, id: nat, key: Key, step: Step<D>, b: World<D>)
    requires Inv(query, a) && (step == Arrive(id, key) || step == Look(id) || step == Serve(id)) && Next(query, a, step, b)
    ensures Inv(query, b)
  {
    hide Current, Fits;
    if !step.Arrive? {
      assert RequestTrue(query, a, a.requests[id]);
    }
    OneRequest(query, a, b, id);
  }

  lemma StepKeeps<D(!new)>(query: (Key, D) -> Outcome, a: World<D>, step: Step<D>, b: World<D>)
    requires Inv(query, a) && Next(query, a, step, b) && (step.Crash? ==> SafeCrash(query, b))
    ensures Inv(query, b)
  {
    hide Next, Inv, SafeCrash;
    match step
    case Commit(d) => CommitKeeps(query, a, d, b);
    case Crash(lsn) => CrashKeeps(query, a, lsn, b);
    case Capture(id) => PartitionKeeps(query, a, id, step, b);
    case Answer(id) => PartitionKeeps(query, a, id, step, b);
    case Look(id) => EdgeKeeps(query, a, id, Key("", "", ""), step, b);
    case Serve(id) => EdgeKeeps(query, a, id, Key("", "", ""), step, b);
    case Arrive(id, key) => EdgeKeeps(query, a, id, key, step, b);
    case Evict(key) => EvictKeeps(query, a, key, b);
  }

  lemma EvictKeeps<D(!new)>(query: (Key, D) -> Outcome, a: World<D>, key: Key, b: World<D>)
    requires Inv(query, a) && Next(query, a, Evict(key), b)
    ensures Inv(query, b)
  {
    hide Current, Fits;
    forall id | id in b.requests ensures RequestTrue(query, b, b.requests[id]) {
      assert RequestTrue(query, a, a.requests[id]);
    }
  }

  /** The steps lead from each world to the next. */
  ghost predicate IsPath<D(!new)>(query: (Key, D) -> Outcome, worlds: seq<World<D>>, steps: seq<Step<D>>) {
    && |worlds| == |steps| + 1
    && forall i :: 0 <= i < |steps| ==>
         worlds[i].states != [] && worlds[i].moments != [] && Next(query, worlds[i], steps[i], worlds[i + 1])
  }

  ghost predicate SafeAt<D(!new)>(query: (Key, D) -> Outcome, worlds: seq<World<D>>, steps: seq<Step<D>>, i: nat)
    requires |worlds| == |steps| + 1
  {
    i < |steps| && steps[i].Crash? ==> SafeCrash(query, worlds[i + 1])
  }

  lemma {:induction false} PathKeeps<D(!new)>(query: (Key, D) -> Outcome, worlds: seq<World<D>>, steps: seq<Step<D>>, i: nat)
    requires IsPath(query, worlds, steps) && Inv(query, worlds[0]) && i < |worlds|
    requires forall k: nat :: k < i ==> SafeAt(query, worlds, steps, k)
    ensures Inv(query, worlds[i])
  {
    hide Next, Inv, SafeCrash;
    if i == 0 {
    } else {
      PathKeeps(query, worlds, steps, i - 1);
      assert SafeAt(query, worlds, steps, i - 1);
      StepKeeps(query, worlds[i - 1], steps[i - 1], worlds[i]);
    }
  }

  /** Every request served got a body that was current while it was under way. */
  ghost predicate ServedCurrent<D(!new)>(query: (Key, D) -> Outcome, w: World<D>) {
    forall id :: id in w.requests && w.requests[id].phase.Done? ==>
      var r := w.requests[id];
      Current(query, w.moments, r.key, r.phase.outcome, r.since, r.phase.until)
  }

  /** Main result: over any interleaving of requests, cache writes, evictions, commits and safe
      crashes, every outcome served is the query's on a state that was current while the request
      was under way. */
  lemma ServedWasCurrent<D(!new)>(query: (Key, D) -> Outcome, worlds: seq<World<D>>, steps: seq<Step<D>>, i: nat)
    requires IsPath(query, worlds, steps) && i < |worlds|
    requires worlds[0].states != [] && worlds[0].moments == worlds[0].states && worlds[0].cache == map[] && worlds[0].requests == map[]
    requires forall k: nat :: k < i ==> SafeAt(query, worlds, steps, k)
    ensures ServedCurrent(query, worlds[i])
  {
    hide Next, SafeCrash, Current, Fits;
    PathKeeps(query, worlds, steps, i);
    var w := worlds[i];
    forall id | id in w.requests ensures RequestTrue(query, w, w.requests[id]) {
    }
  }

  // ---------------------------------------------------------------- which crashes are safe

  /** `c` follows from `b` by steps without a crash. */
  ghost predicate Reaches<D(!new)>(query: (Key, D) -> Outcome, b: World<D>, c: World<D>) {
    exists worlds, steps :: Leads(query, b, worlds, steps, c)
  }

  ghost predicate Leads<D(!new)>(query: (Key, D) -> Outcome, b: World<D>, worlds: seq<World<D>>, steps: seq<Step<D>>, c: World<D>) {
    && IsPath(query, worlds, steps) && worlds[0] == b && worlds[|steps|] == c
    && forall i :: 0 <= i < |steps| ==> !steps[i].Crash?
  }

  /** Whatever comes, short of another crash, every body served is current. */
  ghost predicate StaysCurrent<D(!new)>(query: (Key, D) -> Outcome, b: World<D>) {
    forall c :: Reaches(query, b, c) ==> ServedCurrent(query, c)
  }

  /** Every answer can change. */
  ghost predicate Varied<D(!new)>(query: (Key, D) -> Outcome) {
    forall key, outcome :: CanDiffer(query, key, outcome)
  }

  ghost predicate CanDiffer<D(!new)>(query: (Key, D) -> Outcome, key: Key, outcome: Outcome) {
    exists d :: query(key, d) != outcome
  }

  ghost predicate Steady<D(!new)>(w: World<D>) {
    w.states != [] && w.moments != [] && w.moments[Now(w)] == w.states[Lsn(w)]
  }

  lemma ReachSelf<D(!new)>(query: (Key, D) -> Outcome, b: World<D>)
    ensures Reaches(query, b, b)
  {
    assert Leads(query, b, [b], [], b);
  }

  lemma ReachStep<D(!new)>(query: (Key, D) -> Outcome, b: World<D>, c: World<D>, step: Step<D>, c': World<D>)
    requires Reaches(query, b, c) && c.states != [] && c.moments != [] && Next(query, c, step, c') && !step.Crash?
    ensures Reaches(query, b, c')
  {
    hide Next;
    var worlds, steps :| Leads(query, b, worlds, steps, c);
    var longer, more := worlds + [c'], steps + [step];
    forall i | 0 <= i < |more| ensures longer[i].states != [] && longer[i].moments != [] && Next(query, longer[i], more[i], longer[i + 1]) {
      if i < |steps| {
        assert longer[i] == worlds[i] && longer[i + 1] == worlds[i + 1];
      }
    }
    assert Leads(query, b, longer, more, c');
  }

  lemma SafeStays<D(!new)>(query: (Key, D) -> Outcome, b: World<D>)
    requires Inv(query, b)
    ensures StaysCurrent(query, b)
  {
    hide Next, Inv, Current, Fits, SafeCrash;
    forall c | Reaches(query, b, c) ensures ServedCurrent(query, c) {
      var worlds, steps :| Leads(query, b, worlds, steps, c);
      PathKeeps(query, worlds, steps, |steps|);
      InvServes(query, c);
    }
  }

  lemma InvServes<D(!new)>(query: (Key, D) -> Outcome, w: World<D>)
    requires Inv(query, w)
    ensures ServedCurrent(query, w)
  {
    hide Current, Fits;
    forall id | id in w.requests ensures RequestTrue(query, w, w.requests[id]) {
    }
  }

  /** A body looked up and not current is served if the LSN is its watermark. */
  lemma StaleLooked<D(!new)>(query: (Key, D) -> Outcome, b: World<D>, c: World<D>, id: nat, e: Cached)
    requires Reaches(query, b, c) && Steady(c) && id in c.requests
    requires c.requests[id].phase == Looked(Some(e)) && e.watermark == Lsn(c)
    requires !Current(query, c.moments, c.requests[id].key, e.outcome, c.requests[id].since, Now(c))
    ensures !StaysCurrent(query, b)
  {
    hide Current;
    var r := c.requests[id];
    var c1 := c.(requests := c.requests[id := r.(phase := Captured(Some(e), Lsn(c)))]);
    var c2 := c1.(requests := c1.requests[id := r.(phase := Answered(Some(e), NotModified(Lsn(c))))]);
    var c3 := c2.(requests := c2.requests[id := r.(phase := Done(e.outcome, Now(c)))]);
    ReachStep(query, b, c, Capture(id), c1);
    ReachStep(query, b, c1, Answer(id), c2);
    ReachStep(query, b, c2, Serve(id), c3);
    assert id in c3.requests && c3.requests[id].phase == Done(e.outcome, Now(c)) && c3.requests[id].since == r.since;
    assert !ServedCurrent(query, c3);
  }

  /** The world after the same commit so many times. */
  function Committed<D>(w: World<D>, d: D, n: nat): World<D> {
    if n == 0 then w
    else
      var p := Committed(w, d, n - 1);
      p.(states := p.states + [d], moments := p.moments + [d])
  }

  lemma {:induction false} CommitsReach<D(!new)>(query: (Key, D) -> Outcome, b: World<D>, c: World<D>, d: D, n: nat)
    requires Reaches(query, b, c) && Steady(c)
    ensures var p := Committed(c, d, n);
            && Reaches(query, b, p) && Steady(p) && p.cache == c.cache && p.requests == c.requests
            && Lsn(p) == Lsn(c) + n && Now(p) == Now(c) + n && (n > 0 ==> p.states[Lsn(p)] == d) && (n == 0 ==> p == c)
            && forall i :: 0 <= i < |p.moments| ==> p.moments[i] == if i < |c.moments| then c.moments[i] else d
  {
    if n == 0 {
    } else {
      CommitsReach(query, b, c, d, n - 1);
      ReachStep(query, b, Committed(c, d, n - 1), Commit(d), Committed(c, d, n));
    }
  }

  lemma FreshId<V>(m: map<nat, V>) returns (id: nat)
    ensures id !in m
  {
    if m == map[] {
      id := 0;
    } else {
      var top := Highest(m.Keys);
      id := top + 1;
    }
  }

  lemma {:induction false} Highest(s: set<nat>) returns (top: nat)
    requires s != {}
    ensures top in s && forall x :: x in s ==> x <= top
    decreases |s|
  {
    var x :| x in s;
    assert forall y :: y in s ==> y == x || y in s - {x};
    if s - {x} == {} {
      top := x;
    } else {
      var rest := Highest(s - {x});
      top := if rest < x then x else rest;
    }
  }

  /** A request that comes in for a cached body and looks it up. */
  lemma LooksUp<D(!new)>(query: (Key, D) -> Outcome, b: World<D>, p: World<D>, key: Key) returns (id: nat, c: World<D>)
    requires Reaches(query, b, p) && Steady(p) && key in p.cache
    ensures Reaches(query, b, c) && c.states == p.states && c.moments == p.moments
    ensures id in c.requests && c.requests[id] == Request(key, Now(p), Looked(Some(p.cache[key])))
  {
    hide Reaches;
    id := FreshId(p.requests);
    var mid := p.(requests := p.requests[id := Request(key, Now(p), Arrived)]);
    c := mid.(requests := mid.requests[id := Request(key, Now(p), Looked(Some(p.cache[key])))]);
    ReachStep(query, b, p, Arrive(id, key), mid);
    ReachStep(query, b, mid, Look(id), c);
  }

  /** A cached body that does not fit is served once the LSN has come to its watermark. */
  lemma StaleCached<D(!new)>(query: (Key, D) -> Outcome, b: World<D>, c: World<D>, key: Key)
    requires Varied(query) && Reaches(query, b, c) && Steady(c)
    requires key in c.cache && !Fits(query, c.states, key, c.cache[key])
    ensures !StaysCurrent(query, b)
  {
    hide Reaches, StaysCurrent, Next, Varied;
    var e := c.cache[key];
    var d := Differing(query, key, e.outcome);
    var n := e.watermark - Lsn(c);
    CommitsReach(query, b, c, d, n);
    var p := Committed(c, d, n);
    var id, looked := LooksUp(query, b, p, key);
    assert p.moments[Now(p)] == p.states[Lsn(p)] && query(key, p.moments[Now(p)]) != e.outcome;
    StaleLooked(query, b, looked, id, e);
  }

  lemma Differing<D(!new)>(query: (Key, D) -> Outcome, key: Key, outcome: Outcome) returns (d: D)
    requires Varied(query)
    ensures query(key, d) != outcome
  {
    assert CanDiffer(query, key, outcome);
    d :| query(key, d) != outcome;
  }

  /** So is a body looked up that does not fit and was never current for its request. */
  lemma StaleHeld<D(!new)>(query: (Key, D) -> Outcome, b: World<D>, id: nat, e: Cached)
    requires Varied(query) && Steady(b) && id in b.requests && b.requests[id].phase == Looked(Some(e))
    requires !Fits(query, b.states, b.requests[id].key, e)
    requires !Current(query, b.moments, b.requests[id].key, e.outcome, b.requests[id].since, Now(b))
    ensures !StaysCurrent(query, b)
  {
    hide Reaches, StaysCurrent, Next, Varied;
    var r := b.requests[id];
    var d := Differing(query, r.key, e.outcome);
    var n := e.watermark - Lsn(b);
    ReachSelf(query, b);
    CommitsReach(query, b, b, d, n);
    var p := Committed(b, d, n);
    forall i | 0 <= i < |p.moments| && r.since <= i <= Now(p) ensures query(r.key, p.moments[i]) != e.outcome {
      assert i < |b.moments| ==> p.moments[i] == b.moments[i];
    }
    StaleLooked(query, b, p, id, e);
  }

  /** And a body on its way to the cache that will not fit there. */
  lemma StaleOnItsWay<D(!new)>(query: (Key, D) -> Outcome, b: World<D>, id: nat, e: Cached)
    requires Varied(query) && Steady(b) && id in b.requests
    requires b.requests[id].phase.Answered? && Holding(b.requests[id]) == Some(e)
    requires !Fits(query, b.states, b.requests[id].key, e)
    ensures !StaysCurrent(query, b)
  {
    hide Reaches, StaysCurrent, Varied, Fits;
    var r := b.requests[id];
    var c := b.(cache := b.cache[r.key := e], requests := b.requests[id := r.(phase := Done(e.outcome, Now(b)))]);
    ReachSelf(query, b);
    ReachStep(query, b, b, Serve(id), c);
    StaleCached(query, b, c, r.key);
  }

  /** Main result on crashes: where every answer can change, all that is served after a crash is
      current if and only if the crash is safe. */
  lemma CrashExactly<D(!new)>(query: (Key, D) -> Outcome, a: World<D>, lsn: nat, b: World<D>)
    requires Inv(query, a) && Next(query, a, Crash(lsn), b) && Varied(query)
    ensures StaysCurrent(query, b) <==> SafeCrash(query, b)
  {
    hide Fits, Current, StaysCurrent, Varied, Holding;
    if SafeCrash(query, b) {
      CrashKeeps(query, a, lsn, b);
      SafeStays(query, b);
    } else if key :| key in b.cache && !Fits(query, b.states, key, b.cache[key]) {
      ReachSelf(query, b);
      StaleCached(query, b, b, key);
    } else {
      var id :| id in b.requests && Holding(b.requests[id]).Some? &&
                var r, e := b.requests[id], Holding(b.requests[id]).value;
                !(Fits(query, b.states, r.key, e) || (r.phase.Looked? && Current(query, b.moments, r.key, e.outcome, r.since, Now(b))));
      UnsafeRequest(query, b, id);
    }
  }

  lemma UnsafeRequest<D(!new)>(query: (Key, D) -> Outcome, b: World<D>, id: nat)
    requires Varied(query) && Steady(b) && id in b.requests && Holding(b.requests[id]).Some?
    requires var r, e := b.requests[id], Holding(b.requests[id]).value;
             !Fits(query, b.states, r.key, e) && !(r.phase.Looked? && Current(query, b.moments, r.key, e.outcome, r.since, Now(b)))
    ensures !StaysCurrent(query, b)
  {
    hide Fits, Current, StaysCurrent, Varied;
    var e := Holding(b.requests[id]).value;
    if b.requests[id].phase.Looked? {
      StaleHeld(query, b, id, e);
    } else {
      StaleOnItsWay(query, b, id, e);
    }
  }
}
