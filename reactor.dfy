/** The whole server state and how each event of the `epoll` loop changes it
    (`handle_client_data`, `broadcast_model` and the loop of `main`,
    server.cpp), as functions from state to state. */
module Reactor {
  import opened Wrappers
  import opened Wire
  import opened Framing
  import opened Registry
  import Aggregation

  /** Most events one wake-up reports (`MAX_EVENTS`). */
  const MAX_EVENTS: nat := 10

  /** The round, the worker list, the read state of every open connection,
      every `write` made so far and every connection closed so far. */
  datatype ServerState = ServerState(
    round: Aggregation.Round,
    workers: seq<int>,
    clients: map<int, ClientState>,
    log: seq<Write>,
    closed: seq<int>)

  /** The state before the first event. */
  const Boot: ServerState := ServerState(Aggregation.Initial, [], map[], [], [])

  /** Between events: the round invariant holds, the open connections are
      exactly the listed workers, and every connection is between reads, in a
      valid phase, waiting for a read of at least one byte. */
  ghost predicate Inv(s: ServerState)
  {
    && Aggregation.Inv(s.round)
    && (forall fd :: fd in s.workers <==> fd in s.clients)
    && (forall fd :: fd in s.clients ==> Valid(s.clients[fd]) && Requested(s.clients[fd]) > 0)
  }

  /** `broadcast_model`: the model is framed once and written to every
      worker, header first. */
  function Broadcast(s: ServerState, m: seq<int>): (t: ServerState)
    requires |m| == Aggregation.MODEL_LEN
    ensures t.round == s.round && t.workers == s.workers && t.clients == s.clients && t.closed == s.closed
    ensures |t.log| == |s.log| + 2 * |s.workers| && t.log[..|s.log|] == s.log
    ensures Inv(s) ==> Inv(t)
  {
    Pow256Header();
    s.(log := s.log + BroadcastWrites(s.workers, EncodeModel(m)))
  }

  /** A round step applied to the server: the new round state, and the
      broadcast it calls for, if any. */
  function Apply(s: ServerState, step: Aggregation.Step): ServerState
    requires step.broadcast.Some? ==> |step.broadcast.value| == Aggregation.MODEL_LEN
  {
    var t := s.(round := step.round);
    match step.broadcast
    case None => t
    case Some(m) => Broadcast(t, m)
  }

  /** Whether a payload can be summed into the model: whole 4-byte elements,
      at least as many as the model has. */
  predicate Accepts(p: seq<byte>)
    ensures Accepts(p) ==> |p| % ELEM_LEN == 0 && |DecodeModel(p)| >= Aggregation.MODEL_LEN
  {
    |p| % ELEM_LEN == 0 && |p| / ELEM_LEN >= Aggregation.MODEL_LEN
  }

  datatype Delivered = Delivered(state: ServerState, ok: bool)

  /** A completed payload handed to the round: an acceptable one is decoded
      and contributed; any other is refused and changes nothing. Only the
      round and the write log can change. */
  function Aggregate(s: ServerState, p: seq<byte>, now: nat): (d: Delivered)
    requires Aggregation.Inv(s.round)
    ensures d.ok == Accepts(p)
    ensures Aggregation.Inv(d.state.round)
    ensures d.state == s.(round := d.state.round, log := d.state.log)
    ensures !d.ok ==> d.state == s
  {
    if !Accepts(p) then Delivered(s, false)
    else Delivered(Apply(s, Aggregation.Contribute(s.round, DecodeModel(p), now)), true)
  }

  /** Payloads handed to the round in order, up to the first refused one. */
  function Deliver(s: ServerState, ps: seq<seq<byte>>, now: nat): (d: Delivered)
    requires Aggregation.Inv(s.round)
    ensures d.ok <==> forall k :: 0 <= k < |ps| ==> Accepts(ps[k])
    ensures Aggregation.Inv(d.state.round)
    ensures d.state == s.(round := d.state.round, log := d.state.log)
    decreases |ps|
  {
    if ps == [] then Delivered(s, true)
    else
      var d := Aggregate(s, ps[0], now);
      if !d.ok then d else Deliver(d.state, ps[1..], now)
  }

  /** Tearing a connection down: it leaves the worker list and the connection
      table and is closed; nothing else changes. */
  function Disconnect(s: ServerState, fd: int): (t: ServerState)
    ensures fd !in t.workers && fd !in t.clients && t.closed == s.closed + [fd]
    ensures forall x :: x != fd ==> (x in t.workers <==> x in s.workers)
    ensures t.clients == s.clients - {fd} && t.round == s.round && t.log == s.log
  {
    s.(workers := Without(s.workers, fd), clients := s.clients - {fd}, closed := s.closed + [fd])
  }

  /** What one turn of the read loop leads to: another turn on the state
      `next`, after `consumed` bytes, or the end of the loop with `result`. */
  datatype Turn = Continue(next: ServerState, consumed: nat) | Done(result: ServerState)

  /** One turn of the read loop of `handle_client_data` on connection fd,
      whose socket holds `avail` and then stands as `end`: the read asks for
      what the phase still needs; the bytes go into the stored read state; a
      completed payload goes straight to the round, and one that cannot be
      summed tears the connection down; a read that would block ends the loop
      and one that returns 0 or fails tears the connection down. A turn that
      goes on has consumed bytes and left the other connections' read state,
      the worker list and the closed list as they were; a payload that
      completes a round still writes its frame to every worker. */
  function ServeTurn(s: ServerState, fd: int, avail: seq<byte>, end: StreamEnd, now: nat): (u: Turn)
    requires Aggregation.Inv(s.round) && fd in s.clients && Valid(s.clients[fd])
    ensures u.Continue? ==>
      && 0 < u.consumed <= |avail|
      && Aggregation.Inv(u.next.round) && fd in u.next.clients && Valid(u.next.clients[fd])
      && u.next.clients - {fd} == s.clients - {fd} && u.next.workers == s.workers && u.next.closed == s.closed
    ensures u.Done? ==>
      && Aggregation.Inv(u.result.round)
      && u.result.clients - {fd} == s.clients - {fd}
      && (fd in u.result.clients ==>
            u.result == s && Requested(s.clients[fd]) > 0)
      && (fd !in u.result.clients ==>
            u.result.workers == Without(s.workers, fd) && u.result.closed == s.closed + [fd])
  {
    var st := s.clients[fd];
    match SocketRead(avail, end, Requested(st))
    case WouldBlock => Done(s)
    case Zero => Done(Disconnect(s, fd))
    case Error => Done(Disconnect(s, fd))
    case Got(chunk) =>
      var a := Absorb(st, chunk);
      var s1 := s.(clients := s.clients[fd := a.state]);
      match a.payload
      case None => Continue(s1, |chunk|)
      case Some(p) =>
        var d := Aggregate(s1, p, now);
        if d.ok then Continue(d.state, |chunk|) else Done(Disconnect(d.state, fd))
  }

  /** The read loop of `handle_client_data`, turn after turn until one ends
      it. The connection either stays, waiting for a read of at least one
      byte, or is closed exactly once. The other connections' read state is left as
      it was; a payload that completes a round still writes its frame to
      every worker. */
  function Serve(s: ServerState, fd: int, avail: seq<byte>, end: StreamEnd, now: nat): (t: ServerState)
    requires Aggregation.Inv(s.round) && fd in s.clients && Valid(s.clients[fd])
    ensures Aggregation.Inv(t.round)
    ensures t.clients - {fd} == s.clients - {fd}
    ensures fd in t.clients ==>
      Valid(t.clients[fd]) && Requested(t.clients[fd]) > 0 && t.workers == s.workers && t.closed == s.closed
    ensures fd !in t.clients ==> t.workers == Without(s.workers, fd) && t.closed == s.closed + [fd]
    decreases |avail|
  {
    match ServeTurn(s, fd, avail, end, now)
    case Done(t) => t
    case Continue(next, k) => Serve(next, fd, avail[k..], end, now)
  }

  /** A turn that goes on leaves the rest of the loop to run from its state. */
  lemma ServeContinues(s: ServerState, fd: int, avail: seq<byte>, end: StreamEnd, now: nat, next: ServerState, k: nat)
    requires Aggregation.Inv(s.round) && fd in s.clients && Valid(s.clients[fd])
    requires ServeTurn(s, fd, avail, end, now) == Continue(next, k)
    ensures Serve(s, fd, avail, end, now) == Serve(next, fd, avail[k..], end, now)
  {
  }

  /** A turn that ends the loop gives its result. */
  lemma ServeEnds(s: ServerState, fd: int, avail: seq<byte>, end: StreamEnd, now: nat, t: ServerState)
    requires Aggregation.Inv(s.round) && fd in s.clients && Valid(s.clients[fd])
    requires ServeTurn(s, fd, avail, end, now) == Done(t)
    ensures Serve(s, fd, avail, end, now) == t
  {
  }

  /** `handle_client_data(fd)` for a connection the server knows; `epoll`
      reports no other. */
  function HandleClientData(s: ServerState, fd: int, avail: seq<byte>, end: StreamEnd, now: nat): (t: ServerState)
    requires Inv(s)
    ensures Inv(t)
    ensures fd !in s.clients ==> t == s
  {
    if fd in s.clients then
      ServeKeepsInv(s, fd, avail, end, now);
      Serve(s, fd, avail, end, now)
    else s
  }

  /** Tearing a connection down forgets its read state, whatever it was. */
  lemma DisconnectForgetsClient(s: ServerState, fd: int, c: ClientState)
    ensures Disconnect(s.(clients := s.clients[fd := c]), fd) == Disconnect(s, fd)
  {
    assert s.clients[fd := c] - {fd} == s.clients - {fd};
  }

  /** A turn whose read returns `chunk`: the chunk is absorbed, and a
      payload it completes is delivered; a refused payload tears the
      connection down as it was before the read. */
  lemma ServeTurnGot(s: ServerState, fd: int, avail: seq<byte>, end: StreamEnd, now: nat, chunk: seq<byte>)
    requires Aggregation.Inv(s.round) && fd in s.clients && Valid(s.clients[fd])
    requires SocketRead(avail, end, Requested(s.clients[fd])) == Got(chunk)
    ensures var a := Absorb(s.clients[fd], chunk);
      var s1 := s.(clients := s.clients[fd := a.state]);
      ServeTurn(s, fd, avail, end, now) ==
        if a.payload.None? then Continue(s1, |chunk|)
        else
          var d := Aggregate(s1, a.payload.value, now);
          if d.ok then Continue(d.state, |chunk|) else Done(Disconnect(s, fd))
  {
    var a := Absorb(s.clients[fd], chunk);
    DisconnectForgetsClient(s, fd, a.state);
  }

  /** The read loop keeps the server invariant. */
  lemma ServeKeepsInv(s: ServerState, fd: int, avail: seq<byte>, end: StreamEnd, now: nat)
    requires Inv(s) && fd in s.clients
    ensures Inv(Serve(s, fd, avail, end, now))
  {
    var t := Serve(s, fd, avail, end, now);
    forall x | x != fd
      ensures (x in t.clients <==> x in s.clients) && (x in t.clients ==> t.clients[x] == s.clients[x])
    {
      assert x in t.clients <==> x in t.clients - {fd};
      assert x in s.clients <==> x in s.clients - {fd};
      if x in t.clients {
        assert t.clients[x] == (t.clients - {fd})[x];
        assert s.clients[x] == (s.clients - {fd})[x];
      }
    }
  }

  // ---------------------------------------------------------------------------
  // The read loop, taken apart: read everything, then hand the payloads over.

  /** The round does not look at the connection table. */
  lemma {:induction false} DeliverIgnoresClients(s: ServerState, c: map<int, ClientState>, ps: seq<seq<byte>>, now: nat)
    requires Aggregation.Inv(s.round)
    ensures var d := Deliver(s, ps, now);
      Deliver(s.(clients := c), ps, now) == Delivered(d.state.(clients := c), d.ok)
    decreases |ps|
  {
    if ps != [] {
      var d := Aggregate(s, ps[0], now);
      assert Aggregate(s.(clients := c), ps[0], now) == Delivered(d.state.(clients := c), d.ok);
      if d.ok {
        DeliverIgnoresClients(d.state, c, ps[1..], now);
      }
    }
  }

  /** What the read loop leaves once the socket has been drained into `d` and
      the round has taken the payloads as `del` says: the connection stays,
      with the drained read state, when the drain blocked and every payload
      was accepted; otherwise it is torn down. */
  function Settle(del: Delivered, fd: int, d: Drained): ServerState
  {
    if del.ok && d.outcome == Blocked then del.state.(clients := del.state.clients[fd := d.state])
    else Disconnect(del.state, fd)
  }

  /** The stored read state of the connection being settled does not matter. */
  lemma SettleIgnoresClients(del: Delivered, c: map<int, ClientState>, fd: int, d: Drained)
    requires c - {fd} == del.state.clients - {fd}
    ensures Settle(Delivered(del.state.(clients := c), del.ok), fd, d) == Settle(del, fd, d)
  {
    var cl := del.state.clients;
    assert c[fd := d.state] == (c - {fd})[fd := d.state];
    assert cl[fd := d.state] == (cl - {fd})[fd := d.state];
  }

  /** One turn of the read loop that reads some bytes. */
  lemma ServeUnfold(s: ServerState, fd: int, avail: seq<byte>, end: StreamEnd, now: nat)
    requires Aggregation.Inv(s.round) && fd in s.clients && Valid(s.clients[fd])
    requires Requested(s.clients[fd]) > 0 && avail != []
    ensures var st := s.clients[fd];
      var chunk := avail[..Min(Requested(st), |avail|)];
      var a := Absorb(st, chunk);
      var rest := avail[|chunk|..];
      var s1 := s.(clients := s.clients[fd := a.state]);
      Serve(s, fd, avail, end, now) ==
        match a.payload
        case None => Serve(s1, fd, rest, end, now)
        case Some(p) =>
          var d := Aggregate(s1, p, now);
          if d.ok then Serve(d.state, fd, rest, end, now) else Disconnect(d.state, fd)
  {
  }

  /** Interleaving reads with aggregation, as `handle_client_data` does, is
      the same as draining the socket first (Framing.Drain) and handing the
      completed payloads to the round afterwards: the connection stays, with
      the drained read state, exactly when the drain blocked and every payload
      was accepted, and is torn down otherwise; the round sees every payload
      up to the first refused one. */
  lemma {:induction false} ServeIsDrainThenDeliver(s: ServerState, fd: int, avail: seq<byte>, end: StreamEnd, now: nat)
    requires Aggregation.Inv(s.round) && fd in s.clients && Valid(s.clients[fd])
    ensures var d := Drain(s.clients[fd], avail, end);
      Serve(s, fd, avail, end, now) == Settle(Deliver(s, d.payloads, now), fd, d)
    decreases |avail|
  {
    var st := s.clients[fd];
    var want := Requested(st);
    if want > 0 && avail != [] {
      var chunk := avail[..Min(want, |avail|)];
      var a := Absorb(st, chunk);
      var c1 := s.clients[fd := a.state];
      if a.payload.None? {
        ServeIsDrainThenDeliver(s.(clients := c1), fd, avail[|chunk|..], end, now);
        ServeGotNone(s, fd, avail, end, now);
      } else {
        var d0 := Aggregate(s, a.payload.value, now);
        if d0.ok {
          ServeIsDrainThenDeliver(d0.state.(clients := c1), fd, avail[|chunk|..], end, now);
        }
        ServeGotSome(s, fd, avail, end, now);
      }
    } else {
      ServeStops(s, fd, avail, end, now);
    }
  }

  /** A turn that reads bytes completing no payload. */
  lemma ServeGotNone(s: ServerState, fd: int, avail: seq<byte>, end: StreamEnd, now: nat)
    requires Aggregation.Inv(s.round) && fd in s.clients && Valid(s.clients[fd])
    requires Requested(s.clients[fd]) > 0 && avail != []
    requires var st := s.clients[fd];
      var chunk := avail[..Min(Requested(st), |avail|)];
      var a := Absorb(st, chunk);
      var s1 := s.(clients := s.clients[fd := a.state]);
      var r := Drain(a.state, avail[|chunk|..], end);
      && a.payload.None?
      && Serve(s1, fd, avail[|chunk|..], end, now) == Settle(Deliver(s1, r.payloads, now), fd, r)
    ensures var d := Drain(s.clients[fd], avail, end);
      Serve(s, fd, avail, end, now) == Settle(Deliver(s, d.payloads, now), fd, d)
  {
    var st := s.clients[fd];
    var chunk := avail[..Min(Requested(st), |avail|)];
    var a := Absorb(st, chunk);
    var c1 := s.clients[fd := a.state];
    var r := Drain(a.state, avail[|chunk|..], end);
    ServeUnfold(s, fd, avail, end, now);
    DrainUnfold(st, avail, end);
    assert [] + r.payloads == r.payloads;
    assert c1 - {fd} == s.clients - {fd};
    var del := Deliver(s, r.payloads, now);
    DeliverIgnoresClients(s, c1, r.payloads, now);
    SettleIgnoresClients(del, c1, fd, r);
  }

  /** A turn that reads bytes completing a payload. */
  lemma ServeGotSome(s: ServerState, fd: int, avail: seq<byte>, end: StreamEnd, now: nat)
    requires Aggregation.Inv(s.round) && fd in s.clients && Valid(s.clients[fd])
    requires Requested(s.clients[fd]) > 0 && avail != []
    requires var st := s.clients[fd];
      var chunk := avail[..Min(Requested(st), |avail|)];
      var a := Absorb(st, chunk);
      var r := Drain(a.state, avail[|chunk|..], end);
      && a.payload.Some?
      && var d0 := Aggregate(s, a.payload.value, now);
         var s2 := d0.state.(clients := s.clients[fd := a.state]);
         d0.ok ==> Serve(s2, fd, avail[|chunk|..], end, now) == Settle(Deliver(s2, r.payloads, now), fd, r)
    ensures var d := Drain(s.clients[fd], avail, end);
      Serve(s, fd, avail, end, now) == Settle(Deliver(s, d.payloads, now), fd, d)
  {
    var st := s.clients[fd];
    var chunk := avail[..Min(Requested(st), |avail|)];
    var a := Absorb(st, chunk);
    var c1 := s.clients[fd := a.state];
    var r := Drain(a.state, avail[|chunk|..], end);
    var p := a.payload.value;
    ServeUnfold(s, fd, avail, end, now);
    DrainUnfold(st, avail, end);
    assert c1 - {fd} == s.clients - {fd};
    var ps := [p] + r.payloads;
    assert ps[0] == p && ps[1..] == r.payloads;
    var d0 := Aggregate(s, p, now);
    assert Aggregate(s.(clients := c1), p, now) == Delivered(d0.state.(clients := c1), d0.ok);
    if d0.ok {
      var del := Deliver(d0.state, r.payloads, now);
      DeliverIgnoresClients(d0.state, c1, r.payloads, now);
      SettleIgnoresClients(del, c1, fd, r);
    } else {
      SettleIgnoresClients(d0, c1, fd, Drain(st, avail, end));
    }
  }

  /** The turn whose read returns no bytes ends the loop. */
  lemma ServeStops(s: ServerState, fd: int, avail: seq<byte>, end: StreamEnd, now: nat)
    requires Aggregation.Inv(s.round) && fd in s.clients && Valid(s.clients[fd])
    requires Requested(s.clients[fd]) == 0 || avail == []
    ensures var d := Drain(s.clients[fd], avail, end);
      Serve(s, fd, avail, end, now) == Settle(Deliver(s, d.payloads, now), fd, d)
  {
    assert s.clients[fd := s.clients[fd]] == s.clients;
  }

  // ---------------------------------------------------------------------------
  // Properties of the read loop.

  /** A read that would block leaves everything as it was. */
  lemma WouldBlockChangesNothing(s: ServerState, fd: int, now: nat)
    requires Inv(s) && fd in s.clients
    ensures HandleClientData(s, fd, [], Open, now) == s
  {
  }

  /** A connection that ends while a payload is still incomplete is torn
      down and nothing of its partial payload reaches the round: the round
      and everything written stay as they were. */
  lemma ClosedMidPayloadContributesNothing(s: ServerState, fd: int, avail: seq<byte>, end: StreamEnd, now: nat)
    requires Inv(s) && fd in s.clients && end != Open
    requires var st := s.clients[fd];
      !st.readingHeader && |st.buffer| + |avail| < st.payloadSize
    ensures HandleClientData(s, fd, avail, end, now) == Disconnect(s, fd)
  {
    var st := s.clients[fd];
    ServeIsDrainThenDeliver(s, fd, avail, end, now);
    DrainIsDeframe(st, avail, end);
    var bytes := Pending(st) + avail;
    assert bytes[..HEADER_LEN] == Header(st.payloadSize);
    assert Deframe(bytes).frames == [];
  }

  /** A gradient framed as the wire format prescribes, reaching a connection
      between messages, is contributed to the round exactly as
      Aggregation.Contribute says; the connection is left between messages
      (its last length remembered), and nothing else changes. */
  lemma GradientIsAggregated(s: ServerState, fd: int, g: seq<int>, now: nat)
    requires Inv(s) && fd in s.clients && s.clients[fd].readingHeader && s.clients[fd].buffer == []
    requires |g| == Aggregation.MODEL_LEN && forall i :: 0 <= i < |g| ==> ELEM_MIN <= g[i] < ELEM_MAX
    ensures var t := HandleClientData(s, fd, Frame(EncodeModel(g)), Open, now);
      t == Apply(s, Aggregation.Contribute(s.round, g, now))
             .(clients := s.clients[fd := ClientState(ELEM_LEN * |g|, [], true)])
  {
    var p := EncodeModel(g);
    Pow256Header();
    DrainOneFrame(s.clients[fd], p);
    ServeIsDrainThenDeliver(s, fd, Frame(p), Open, now);
    AggregateEncoded(s, g, now);
    DeliverOne(s, p, now);
  }

  /** A payload holding a model's worth of 32-bit elements is accepted and
      contributes exactly those elements. */
  lemma AggregateEncoded(s: ServerState, g: seq<int>, now: nat)
    requires Aggregation.Inv(s.round)
    requires |g| == Aggregation.MODEL_LEN && forall i :: 0 <= i < |g| ==> ELEM_MIN <= g[i] < ELEM_MAX
    ensures Aggregate(s, EncodeModel(g), now) == Delivered(Apply(s, Aggregation.Contribute(s.round, g, now)), true)
  {
    DecodeEncodeModel(g);
  }

  /** Handing over a single payload is aggregating it. */
  lemma DeliverOne(s: ServerState, p: seq<byte>, now: nat)
    requires Aggregation.Inv(s.round)
    ensures Deliver(s, [p], now) == Aggregate(s, p, now)
  {
    var none: seq<seq<byte>> := [];
    assert [p][1..] == none;
  }

  // ---------------------------------------------------------------------------
  // The event loop.

  /** `accept` of connection fd: it gets a fresh read state and is appended to
      the worker list; nothing else changes. */
  function Accept(s: ServerState, fd: int): (t: ServerState)
    ensures t.workers == s.workers + [fd] && t.clients == s.clients[fd := NewClient]
    ensures t.round == s.round && t.log == s.log && t.closed == s.closed
    ensures Inv(s) ==> Inv(t)
  {
    s.(workers := s.workers + [fd], clients := s.clients[fd := NewClient])
  }

  /** The descriptor `accept` returns is not open already, so the worker list
      stays free of repeats. */
  lemma AcceptFreshKeepsDistinct(s: ServerState, fd: int)
    requires Inv(s) && Distinct(s.workers) && fd !in s.clients
    ensures Distinct(Accept(s, fd).workers)
  {
  }

  /** One ready event: the listening socket (the connection it accepts), or a
      connection whose socket holds `avail` and then stands as `end`. */
  datatype Event = Incoming(fd: int) | Readable(fd: int, avail: seq<byte>, end: StreamEnd)

  function Dispatch(s: ServerState, e: Event, now: nat): (t: ServerState)
    requires Inv(s)
    ensures Inv(t)
  {
    match e
    case Incoming(fd) => Accept(s, fd)
    case Readable(fd, avail, end) => HandleClientData(s, fd, avail, end, now)
  }

  /** The ready events of one wake-up, in the order `epoll_wait` lists them. */
  function DispatchAll(s: ServerState, es: seq<Event>, now: nat): (t: ServerState)
    requires Inv(s)
    ensures Inv(t)
    decreases |es|
  {
    if es == [] then s else DispatchAll(Dispatch(s, es[0], now), es[1..], now)
  }

  /** One turn of the loop of `main`: the ready events, then the deadline
      check. Only a wake-up with no events, outside naive mode, finding the
      round open for at least `TIMEOUT_MS`, closes it and broadcasts the
      partial sum; every other wake-up leaves the round to the events. */
  function Poll(s: ServerState, es: seq<Event>, naive: bool, now: nat): (t: ServerState)
    requires Inv(s) && |es| <= MAX_EVENTS
    ensures Inv(t)
    ensures var u := DispatchAll(s, es, now);
      if es == [] && !naive && u.round.inProgress && now >= u.round.start + Aggregation.TIMEOUT_MS
      then t == Broadcast(u.(round := Aggregation.Close(u.round)), u.round.model)
      else t == u
  {
    var u := DispatchAll(s, es, now);
    Apply(u, Aggregation.Deadline(u.round, |es|, naive, now))
  }

  /** Every connection the events of a wake-up accept is not open when it is
      accepted: `accept` never returns a descriptor that is still open. */
  ghost predicate AcceptsFresh(s: ServerState, es: seq<Event>, now: nat)
    requires Inv(s)
    decreases |es|
  {
    es == [] ||
    ((es[0].Incoming? ==> es[0].fd !in s.clients) && AcceptsFresh(Dispatch(s, es[0], now), es[1..], now))
  }

  /** One event keeps the worker list free of repeats when what it accepts is
      fresh. */
  lemma DispatchKeepsDistinct(s: ServerState, e: Event, now: nat)
    requires Inv(s) && Distinct(s.workers) && (e.Incoming? ==> e.fd !in s.clients)
    ensures Distinct(Dispatch(s, e, now).workers)
  {
    match e
    case Incoming(fd) =>
      AcceptFreshKeepsDistinct(s, fd);
    case Readable(fd, avail, end) =>
      if fd in s.clients && fd !in Dispatch(s, e, now).clients {
        WithoutKeepsDistinct(s.workers, fd);
      }
  }

  /** The events of a wake-up keep the worker list free of repeats. */
  lemma {:induction false} DispatchAllKeepsDistinct(s: ServerState, es: seq<Event>, now: nat)
    requires Inv(s) && Distinct(s.workers) && AcceptsFresh(s, es, now)
    ensures Distinct(DispatchAll(s, es, now).workers)
    decreases |es|
  {
    if es != [] {
      DispatchKeepsDistinct(s, es[0], now);
      DispatchAllKeepsDistinct(Dispatch(s, es[0], now), es[1..], now);
    }
  }

  /** A wake-up keeps the worker list free of repeats: the deadline check
      only writes. */
  lemma PollKeepsDistinct(s: ServerState, es: seq<Event>, naive: bool, now: nat)
    requires Inv(s) && |es| <= MAX_EVENTS && Distinct(s.workers) && AcceptsFresh(s, es, now)
    ensures Distinct(Poll(s, es, naive, now).workers)
  {
    DispatchAllKeepsDistinct(s, es, now);
  }

  /** The server starts in a state that meets the invariant. */
  lemma BootInv()
    ensures Inv(Boot) && Distinct(Boot.workers)
  {
  }

  /** An idle wake-up that closes an expired round sends every worker one
      frame holding the partial sum, and nothing to anyone else. */
  lemma TimeoutReachesEveryWorker(s: ServerState, now: nat, fd: int)
    requires Inv(s) && Distinct(s.workers)
    requires s.round.inProgress && now >= s.round.start + Aggregation.TIMEOUT_MS
    ensures var t := Poll(s, [], false, now);
      && t.round == Aggregation.Close(s.round)
      && SentTo(t.log, fd) == SentTo(s.log, fd) + (if fd in s.workers then Frame(EncodeModel(s.round.model)) else [])
  {
    Pow256Header();
    var payload := EncodeModel(s.round.model);
    SentToAppend(s.log, BroadcastWrites(s.workers, payload), fd);
    BroadcastReachesEveryWorker(s.workers, payload, fd);
  }
}
