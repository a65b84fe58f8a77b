/** Mutations and actions over one socket at a time: queued while offline, sent once, settled
    once (packages/client/src/client.ts). */
module FunctionsClientModule {
  import Lex
  import opened Wrappers
  import opened Sorting

  datatype Status = Connecting | Open | Closed

  /** The frames a client sends. Subscription frames and `setAuth` are rebuilt on reconnect. */
  datatype Frame = Lifecycle | Ping | Mutation(id: nat) | Action(id: nat)

  predicate Durable(m: Frame) {
    m.Mutation? || m.Action?
  }

  datatype Outcome = Resolved(value: string) | Rejected(reason: string)

  /** A request handed to a socket, and how a request ended. */
  datatype Handed = Handed(socket: nat, id: nat)

  datatype Settled = Settled(id: nat, outcome: Outcome)

  const DEFAULT_MAX_OUTBOX: nat := 100

  function IdOf(m: Frame): nat {
    if Durable(m) then m.id else 0
  }

  function Ids(frames: seq<Frame>): (r: seq<nat>)
    ensures |r| == |frames| && forall i :: 0 <= i < |r| ==> r[i] == IdOf(frames[i])
  {
    seq(|frames|, i requires 0 <= i < |frames| => IdOf(frames[i]))
  }

  function HandedIds(hs: seq<Handed>): (r: seq<nat>)
    ensures |r| == |hs| && forall i :: 0 <= i < |r| ==> r[i] == hs[i].id
  {
    seq(|hs|, i requires 0 <= i < |hs| => hs[i].id)
  }

  function SettledIds(ss: seq<Settled>): (r: seq<nat>)
    ensures |r| == |ss| && forall i :: 0 <= i < |r| ==> r[i] == ss[i].id
  {
    seq(|ss|, i requires 0 <= i < |ss| => ss[i].id)
  }

  ghost predicate Once(s: seq<nat>) {
    forall i, j :: 0 <= i < j < |s| ==> s[i] != s[j]
  }

  ghost predicate Apart(a: seq<nat>, b: seq<nat>) {
    forall x :: x in a ==> x !in b
  }

  /** The requests of a client: still queued, waiting for an answer, handed over, and settled,
      each in the order it happened. */
  ghost predicate Books(queued: seq<nat>, pending: seq<nat>, handed: seq<nat>, settled: seq<nat>, count: nat) {
    && Once(queued) && Once(handed) && Apart(queued, handed)
    && Once(pending) && Once(settled) && Apart(pending, settled)
    && (forall id :: id in queued || id in handed ==> id < count)
    && (forall id: nat :: id < count <==> id in pending || id in settled)
  }

  class FunctionsClient {
    const maxOutbox: nat
    var ws: Option<nat>
    var status: Status
    var outbox: seq<Frame>
    var pending: seq<nat>
    var reqCounter: nat
    var closed: bool
    var sockets: nat
    /** Everything handed to a socket and every settlement, oldest first. */
    ghost var handed: seq<Handed>
    ghost var settled: seq<Settled>

    /** Every id is waiting or settled, once; it is queued or was handed over, once. */
    ghost predicate Consistent()
      reads this
    {
      && (forall i :: 0 <= i < |outbox| ==> Durable(outbox[i]))
      && Books(Ids(outbox), pending, HandedIds(handed), SettledIds(settled), reqCounter)
      && (ws.Some? ==> ws.value < sockets)
      && (forall i :: 0 <= i < |handed| ==> handed[i].socket < sockets)
      && (ws.Some? ==> !closed)
    }

    ghost predicate Valid()
      reads this
    {
      Consistent() && |outbox| <= maxOutbox
    }

    /** The request is queued, or in flight on the current socket. */
    ghost predicate Live(id: nat)
      reads this
    {
      id in Ids(outbox) || (ws.Some? && Handed(ws.value, id) in handed)
    }

    /** Nothing waits on a socket that is gone. */
    ghost predicate NoneStranded()
      reads this
    {
      forall id :: id in pending ==> Live(id)
    }

    /** History only grows. */
    twostate predicate Grows()
      reads this
    {
      old(handed) <= handed && old(settled) <= settled && old(reqCounter) <= reqCounter && old(sockets) <= sockets
    }

    constructor (maxOutbox: nat)
      ensures Valid() && NoneStranded() && this.maxOutbox == maxOutbox
      ensures ws == None && pending == [] && outbox == [] && handed == [] && settled == []
    {
      this.maxOutbox := maxOutbox;
      ws, status, closed := None, Closed, false;
      outbox, pending, reqCounter, sockets := [], [], 0, 0;
      handed, settled := [], [];
    }

    method Connect()
      requires Valid()
      modifies this
      ensures Valid() && Grows() && (old(NoneStranded()) ==> NoneStranded())
      ensures pending == old(pending) && outbox == old(outbox) && handed == old(handed) && settled == old(settled)
      ensures old(ws).Some? ==> ws == old(ws) && status == old(status)
      ensures old(ws).None? ==> ws == Some(old(sockets)) && status == Connecting && !closed
    {
      if ws.Some? {
        return;
      }
      closed := false;
      status := Connecting;
      ws := Some(sockets);
      sockets := sockets + 1;
    }

    /** Settle and forget a request that is still waiting. */
    method SettlePending(id: nat, outcome: Outcome)
      requires Consistent()
      modifies this`pending, this`settled
      ensures Consistent() && Grows() && (old(NoneStranded()) ==> NoneStranded())
      ensures pending == Select(old(pending), Not(id))
      ensures settled == if id in old(pending) then old(settled) + [Settled(id, outcome)] else old(settled)
    {
      hide Books;
      if id !in pending {
        SelectAll(pending, Not(id));
        return;
      }
      SettleBooks(Ids(outbox), pending, HandedIds(handed), SettledIds(settled), reqCounter, id);
      pending := Select(pending, Not(id));
      settled := settled + [Settled(id, outcome)];
      assert SettledIds(settled) == SettledIds(old(settled)) + [id];
    }

    /** The oldest queued frame goes, and its request is settled. */
    method DropOldest()
      requires Consistent() && outbox != []
      modifies this`outbox, this`pending, this`settled
      ensures Consistent() && Grows()
      ensures outbox == old(outbox)[1..]
      ensures settled == old(settled) + if old(outbox)[0].id in old(pending) then [Settled(old(outbox)[0].id, QUEUE_FULL)] else []
      ensures forall id :: id in pending ==> id in old(pending) && (old(Live(id)) ==> Live(id))
    {
      hide Books;
      var dropped := outbox[0];
      DropBooks(Ids(outbox), pending, HandedIds(handed), SettledIds(settled), reqCounter);
      outbox := outbox[1..];
      assert Ids(outbox) == Ids(old(outbox))[1..];
      SettlePending(dropped.id, QUEUE_FULL);
    }

    /** Drop the oldest frames while there are more than the cap. */
    method DropPastCap()
      requires Consistent() && |outbox| <= maxOutbox + 1
      modifies this`outbox, this`pending, this`settled
      ensures Valid() && Grows()
      ensures outbox == Newest(old(outbox), maxOutbox)
      ensures settled == old(settled) + Dropped(old(outbox), maxOutbox, old(pending))
      ensures |old(outbox)| <= maxOutbox ==> pending == old(pending)
      ensures forall id :: id in pending ==> id in old(pending) && (old(Live(id)) ==> Live(id))
    {
      hide Books, Ids, Live;
      while |outbox| > maxOutbox
        invariant Consistent() && Grows()
        invariant |outbox| <= |old(outbox)| && outbox == old(outbox)[|old(outbox)| - |outbox|..]
        invariant |outbox| == |old(outbox)| || |outbox| == maxOutbox
        invariant forall id :: id in pending ==> id in old(pending) && (old(Live(id)) ==> Live(id))
        invariant |outbox| == |old(outbox)| ==> pending == old(pending) && settled == old(settled)
        invariant |outbox| < |old(outbox)| ==> settled == old(settled) + Dropped(old(outbox), maxOutbox, old(pending))
      {
        assert Durable(outbox[0]);
        DropOldest();
      }
    }

    /** Hand a frame to the open socket; offline, queue a request and drop the oldest past the
        cap. */
    method Send(m: Frame)
      requires Valid()
      requires Durable(m) ==> m.id < reqCounter && m.id !in Ids(outbox) && m.id !in HandedIds(handed)
      modifies this`outbox, this`pending, this`handed, this`settled
      ensures Valid() && Grows()
      ensures forall id :: id in pending ==> id in old(pending) && (old(Live(id)) || (Durable(m) && id == m.id) ==> Live(id))
      ensures ws.Some? && status == Open ==>
                && outbox == old(outbox) && pending == old(pending) && settled == old(settled)
                && handed == old(handed) + if Durable(m) then [Handed(ws.value, m.id)] else []
      ensures !(ws.Some? && status == Open) ==>
                && handed == old(handed)
                && outbox == Newest(old(outbox) + if Durable(m) then [m] else [], maxOutbox)
                && settled == old(settled) + if Durable(m) then Dropped(old(outbox) + [m], maxOutbox, old(pending)) else []
    {
      hide Books;
      if ws.Some? && status == Open {
        if Durable(m) {
          HandBooks(Ids(outbox), pending, HandedIds(handed), SettledIds(settled), reqCounter, m.id);
          handed := handed + [Handed(ws.value, m.id)];
          assert HandedIds(handed) == HandedIds(old(handed)) + [m.id];
        }
        return;
      }
      if !Durable(m) {
        return;
      }
      QueueBooks(Ids(outbox), pending, HandedIds(handed), SettledIds(settled), reqCounter, m.id);
      outbox := outbox + [m];
      assert Ids(outbox) == Ids(old(outbox)) + [m.id];
      DropPastCap();
    }

    /** Reject the request if it is not queued. */
    method FailOne(ghost todo: seq<nat>, ghost n: nat, queued: seq<nat>, id: nat, reason: string)
      requires Consistent() && queued == Ids(outbox) && n < |todo| && id == todo[n]
      requires pending == Select(todo[..n], In(queued)) + todo[n..]
      modifies this`pending, this`settled
      ensures Consistent() && Grows()
      ensures pending == Select(todo[..n + 1], In(queued)) + todo[n + 1..]
      ensures settled == old(settled) + if id in queued then [] else [Settled(id, Rejected(reason))]
    {
      hide Books, Select, Not;
      PassOne(todo, n, queued, pending);
      if id !in queued {
        PendingOnce(Ids(outbox), pending, HandedIds(handed), SettledIds(settled), reqCounter);
        DropKept(Select(todo[..n], In(queued)), id, todo[n + 1..], pending);
        SettlePending(id, Rejected(reason));
      }
    }

    /** Reject every request that is not queued, in the order they were made. */
    method FailPending(reason: string)
      requires Consistent()
      modifies this`pending, this`settled
      ensures Consistent() && Grows()
      ensures pending == Select(old(pending), In(Ids(outbox)))
      ensures settled == old(settled) + Rejections(old(pending), Ids(outbox), reason)
    {
      hide Books, Select, In, Consistent;
      var queued := Ids(outbox);
      var todo := pending;
      NothingPassed(todo, queued);
      for n := 0 to |todo|
        invariant Consistent()
        invariant pending == Select(todo[..n], In(queued)) + todo[n..]
        invariant settled == old(settled) + Rejections(todo[..n], queued, reason)
      {
        FailOne(todo, n, queued, todo[n], reason);
        assert todo[..n + 1][..n] == todo[..n];
      }
      assert todo[..|todo|] == todo;
    }

    /** A request takes the next id, waits, and is sent or queued. */
    method Request(action: bool) returns (id: nat)
      requires Valid()
      modifies this
      ensures Valid() && Grows() && (old(NoneStranded()) ==> NoneStranded())
      ensures id == old(reqCounter) && reqCounter == id + 1
      ensures ws == old(ws) && status == old(status)
      ensures var frame := if action then Action(id) else Mutation(id);
              if ws.Some? && status == Open then
                && handed == old(handed) + [Handed(ws.value, id)] && outbox == old(outbox)
                && pending == old(pending) + [id] && settled == old(settled)
              else
                && handed == old(handed) && outbox == Newest(old(outbox) + [frame], maxOutbox)
                && settled == old(settled) + Dropped(old(outbox) + [frame], maxOutbox, old(pending) + [id])
    {
      hide Books;
      id := reqCounter;
      NewBooks(Ids(outbox), pending, HandedIds(handed), SettledIds(settled), reqCounter);
      pending := pending + [id];
      reqCounter := reqCounter + 1;
      Send(if action then Action(id) else Mutation(id));
    }

    /** The timer of a request runs out, whether it was sent or is still queued. */
    method OnTimeout(id: nat)
      requires Valid()
      modifies this`pending, this`settled
      ensures Valid() && Grows() && (old(NoneStranded()) ==> NoneStranded())
      ensures id !in pending && outbox == old(outbox)
      ensures settled == if id in old(pending) then old(settled) + [Settled(id, Rejected("timed out"))] else old(settled)
    {
      SettlePending(id, Rejected("timed out"));
    }

    /** An answer counts only on the current socket. */
    method OnAnswer(socket: nat, id: nat, outcome: Outcome)
      requires Valid()
      modifies this`pending, this`settled
      ensures Valid() && Grows() && (old(NoneStranded()) ==> NoneStranded())
      ensures ws != Some(socket) ==> pending == old(pending) && settled == old(settled)
      ensures ws == Some(socket) ==> id !in pending
      ensures ws == Some(socket) ==>
                settled == if id in old(pending) then old(settled) + [Settled(id, outcome)] else old(settled)
    {
      if ws != Some(socket) {
        return;
      }
      SettlePending(id, outcome);
    }

    /** Hand the frames to the open socket, oldest first. */
    method Flush(frames: seq<Frame>)
      requires Valid() && ws.Some? && status == Open && outbox == []
      requires Once(Ids(frames)) && Apart(Ids(frames), HandedIds(handed))
      requires forall i :: 0 <= i < |frames| ==> Durable(frames[i]) && frames[i].id < reqCounter
      modifies this`outbox, this`pending, this`handed, this`settled
      ensures Valid() && outbox == [] && pending == old(pending) && settled == old(settled)
      ensures handed == old(handed) + HandedTo(ws.value, frames)
    {
      hide Books, Select, Live;
      for i := 0 to |frames|
        invariant Valid() && outbox == [] && pending == old(pending) && settled == old(settled)
        invariant handed == old(handed) + HandedTo(ws.value, frames[..i])
      {
        assert HandedIds(HandedTo(ws.value, frames[..i])) == Ids(frames)[..i];
        assert HandedIds(handed) == HandedIds(old(handed)) + Ids(frames)[..i];
        FreshFrame(Ids(frames), HandedIds(old(handed)), i, Ids(frames)[..i], HandedIds(handed));
        Send(frames[i]);
        assert HandedTo(ws.value, frames[..i + 1]) == HandedTo(ws.value, frames[..i]) + [Handed(ws.value, frames[i].id)];
      }
      assert frames[..|frames|] == frames;
    }

    /** The socket opens: everything queued is handed to it, oldest first. */
    method OnOpen(socket: nat)
      requires Valid()
      modifies this
      ensures Valid() && Grows() && (old(NoneStranded()) ==> NoneStranded())
      ensures ws == old(ws) && pending == old(pending) && settled == old(settled)
      ensures ws != Some(socket) ==> outbox == old(outbox) && handed == old(handed) && status == old(status)
      ensures ws == Some(socket) ==>
                status == Open && outbox == [] && handed == old(handed) + HandedTo(socket, old(outbox))
    {
      hide Books, Select, Newest, Dropped;
      if ws != Some(socket) {
        return;
      }
      status := Open;
      Send(Lifecycle);
      var buffered := outbox;
      FlushBooks(Ids(outbox), pending, HandedIds(handed), SettledIds(settled), reqCounter);
      assert forall i :: 0 <= i < |buffered| ==> Ids(buffered)[i] in Ids(buffered);
      outbox := [];
      Flush(buffered);
      StillLive(buffered, socket, old(handed));
    }

    /** The socket goes away: what was in flight on it fails, what is queued stays. */
    method OnClose(socket: nat)
      requires Valid()
      modifies this
      ensures Valid() && Grows() && (old(NoneStranded()) ==> NoneStranded())
      ensures outbox == old(outbox) && handed == old(handed)
      ensures old(ws) != Some(socket) ==> ws == old(ws) && pending == old(pending) && settled == old(settled)
      ensures old(ws) == Some(socket) ==>
                && ws == None && status == Closed
                && pending == Select(old(pending), In(Ids(outbox)))
                && settled == old(settled) + Rejections(old(pending), Ids(outbox), "connection lost")
    {
      if ws != Some(socket) {
        return;
      }
      ws := None;
      status := Closed;
      FailPending("connection lost");
    }

    /** A deliberate close drops the queue and fails everything. */
    method Close()
      requires Valid()
      modifies this
      ensures Valid() && Grows() && NoneStranded() && handed == old(handed)
      ensures closed && ws == None && status == Closed && outbox == [] && pending == []
      ensures settled == old(settled) + Rejections(old(pending), [], "connection lost")
    {
      hide Books;
      closed := true;
      ws := None;
      status := Closed;
      FlushBooks(Ids(outbox), pending, HandedIds(handed), SettledIds(settled), reqCounter);
      outbox := [];
      FailPending("connection lost");
      NoneQueued(old(pending), Ids(outbox));
    }

    /** A new identity needs a new connection. What was in flight on the old socket is left
        waiting for its timer: nothing is stranded exactly when everything waiting is queued. */
    method SetAuth(sameToken: bool)
      requires Valid()
      modifies this
      ensures Valid() && Grows()
      ensures pending == old(pending) && settled == old(settled) && handed == old(handed) && outbox == old(outbox)
      ensures if sameToken then ws == old(ws) && status == old(status)
              else if closed then ws == None
              else ws == Some(old(sockets)) && status == Connecting
      ensures !sameToken && old(ws).Some? ==> (NoneStranded() <==> forall id :: id in pending ==> id in Ids(outbox))
    {
      hide Books;
      if sameToken {
        return;
      }
      ws := None;
      if !closed {
        Connect();
      }
    }
  }

  function HandedTo(socket: nat, frames: seq<Frame>): (r: seq<Handed>)
    ensures |r| == |frames|
    ensures forall i :: 0 <= i < |r| ==> r[i] == Handed(socket, IdOf(frames[i]))
  {
    seq(|frames|, i requires 0 <= i < |frames| => Handed(socket, IdOf(frames[i])))
  }

  lemma NothingPassed(todo: seq<nat>, queued: seq<nat>)
    ensures Select(todo[..0], In(queued)) + todo[0..] == todo
  {
  }

  /** The rejections of the requests that are not queued. */
  function Rejections(todo: seq<nat>, queued: seq<nat>, reason: string): seq<Settled> {
    if todo == [] then []
    else
      var n := |todo| - 1;
      Rejections(todo[..n], queued, reason) + if todo[n] in queued then [] else [Settled(todo[n], Rejected(reason))]
  }

  function Newest(frames: seq<Frame>, cap: nat): seq<Frame> {
    if |frames| <= cap then frames else frames[|frames| - cap..]
  }

  /** The queue keeps everything up to the cap, and past it the latest. */
  lemma NewestKept(frames: seq<Frame>, cap: nat)
    ensures var kept := Newest(frames, cap);
            && |kept| <= cap && (|kept| < cap ==> kept == frames)
            && exists dropped: seq<Frame> :: frames == dropped + kept
  {
    var n := |frames| - |Newest(frames, cap)|;
    assert frames == frames[..n] + frames[n..];
  }

  const QUEUE_FULL: Outcome := Rejected("offline queue full; request dropped")

  /** The settlement of the oldest frame when one too many is queued. */
  function Dropped(frames: seq<Frame>, cap: nat, pending: seq<nat>): seq<Settled>
  {
    if |frames| > cap && Durable(frames[0]) && frames[0].id in pending then [Settled(frames[0].id, QUEUE_FULL)] else []
  }

  function Not(id: nat): nat -> bool {
    (x: nat) => x != id
  }

  lemma SelectOnce(s: seq<nat>, p: nat -> bool)
    requires Once(s)
    ensures Once(Select(s, p))
  {
    SelectAscending(s, p, (x, y) => x != y);
  }

  lemma SettleBooks(queued: seq<nat>, pending: seq<nat>, handed: seq<nat>, settled: seq<nat>, count: nat, id: nat)
    requires Books(queued, pending, handed, settled, count) && id in pending
    ensures Books(queued, Select(pending, Not(id)), handed, settled + [id], count)
  {
    SelectOnce(pending, Not(id));
  }

  lemma HandBooks(queued: seq<nat>, pending: seq<nat>, handed: seq<nat>, settled: seq<nat>, count: nat, id: nat)
    requires Books(queued, pending, handed, settled, count) && id < count && id !in queued && id !in handed
    ensures Books(queued, pending, handed + [id], settled, count)
  {
  }

  lemma QueueBooks(queued: seq<nat>, pending: seq<nat>, handed: seq<nat>, settled: seq<nat>, count: nat, id: nat)
    requires Books(queued, pending, handed, settled, count) && id < count && id !in queued && id !in handed
    ensures Books(queued + [id], pending, handed, settled, count)
  {
  }

  lemma DropBooks(queued: seq<nat>, pending: seq<nat>, handed: seq<nat>, settled: seq<nat>, count: nat)
    requires Books(queued, pending, handed, settled, count) && queued != []
    ensures Books(queued[1..], pending, handed, settled, count)
  {
  }

  function In(s: seq<nat>): nat -> bool {
    (x: nat) => x in s
  }

  lemma PendingOnce(queued: seq<nat>, pending: seq<nat>, handed: seq<nat>, settled: seq<nat>, count: nat)
    requires Books(queued, pending, handed, settled, count)
    ensures Once(pending)
  {
  }

  /** The request passed over is the first of the rest, and joins those kept when queued. */
  lemma PassOne(todo: seq<nat>, n: nat, queued: seq<nat>, pending: seq<nat>)
    requires n < |todo| && pending == Select(todo[..n], In(queued)) + todo[n..]
    ensures pending == Select(todo[..n], In(queued)) + ([todo[n]] + todo[n + 1..])
    ensures Select(todo[..n + 1], In(queued)) + todo[n + 1..] ==
            if todo[n] in queued then pending else Select(todo[..n], In(queued)) + todo[n + 1..]
  {
    var kept, id := Select(todo[..n], In(queued)), todo[n];
    assert todo[..n + 1] == todo[..n] + [id];
    SelectAppend(todo[..n], [id], In(queued));
    assert todo[n..] == [id] + todo[n + 1..];
    Lex.ConcatAssociates(kept, [id], todo[n + 1..]);
    assert kept + [] == kept;
  }

  lemma DropKept(kept: seq<nat>, id: nat, rest: seq<nat>, pending: seq<nat>)
    requires pending == kept + ([id] + rest) && Once(pending)
    ensures id in pending && Select(pending, Not(id)) == kept + rest
  {
    hide Select;
    assert pending[|kept|] == id;
    assert forall i :: 0 <= i < |kept| ==> kept[i] == pending[i];
    assert forall i :: 0 <= i < |rest| ==> rest[i] == pending[|kept| + 1 + i];
    SelectAppend(kept, [id] + rest, Not(id));
    SelectAppend([id], rest, Not(id));
    SelectAll(kept, Not(id));
    SelectAll(rest, Not(id));
    OneDropped(id);
    assert [] + rest == rest;
  }

  lemma OneDropped(id: nat)
    ensures Select([id], Not(id)) == []
  {
  }

  lemma NewBooks(queued: seq<nat>, pending: seq<nat>, handed: seq<nat>, settled: seq<nat>, count: nat)
    requires Books(queued, pending, handed, settled, count)
    ensures Books(queued, pending + [count], handed, settled, count + 1) && count !in queued && count !in handed
  {
    assert count !in pending && forall i :: 0 <= i < |pending| ==> pending[i] in pending;
  }

  lemma FlushBooks(queued: seq<nat>, pending: seq<nat>, handed: seq<nat>, settled: seq<nat>, count: nat)
    requires Books(queued, pending, handed, settled, count)
    ensures Books([], pending, handed, settled, count) && Once(queued) && Apart(queued, handed)
    ensures forall id :: id in queued ==> id < count
  {
  }

  lemma FreshFrame(queued: seq<nat>, was: seq<nat>, i: nat, sent: seq<nat>, handed: seq<nat>)
    requires Once(queued) && Apart(queued, was) && i < |queued| && sent == queued[..i] && handed == was + sent
    ensures queued[i] !in handed && queued[i] in queued
  {
  }

  lemma NoneQueued(pending: seq<nat>, queued: seq<nat>)
    requires queued == []
    ensures Select(pending, In(queued)) == []
  {
    var r := Select(pending, In(queued));
    assert forall i :: 0 <= i < |r| ==> r[i] in r;
  }

  /** What was queued is in flight once it is handed over. */
  lemma StillLive(frames: seq<Frame>, socket: nat, was: seq<Handed>)
    ensures forall id :: id in Ids(frames) ==> Handed(socket, id) in was + HandedTo(socket, frames)
  {
    var all := HandedTo(socket, frames);
    forall id | id in Ids(frames) ensures Handed(socket, id) in was + all {
      var i :| 0 <= i < |frames| && Ids(frames)[i] == id;
      assert all[i] == Handed(socket, id);
    }
  }
}
