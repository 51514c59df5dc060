/** The server process (server.cpp): its globals become the fields of one
    object, and `broadcast_model`, `handle_client_data` and the turns of the
    loop of `main` become methods that update those fields in place. Each
    method is proved to change the state exactly as the matching function of
    the functional model says (mostly of module Reactor). */
module ParameterServer {
  import opened Wire
  import opened Framing
  import opened Registry
  import Aggregation
  import Reactor

  class Server {
    /** `global_model`: the running sum of the current round. */
    var model: array<int>
    /** `gradients_received_count` */
    var count: nat
    /** `round_in_progress` */
    var roundInProgress: bool
    /** `round_start_time`, in milliseconds. */
    var roundStart: nat
    /** `participating_workers` */
    var workers: seq<int>
    /** `client_states` */
    var clients: map<int, ClientState>
    /** Every `write` made so far, oldest first. */
    var log: seq<Write>
    /** Every connection closed so far, in order. */
    var closed: seq<int>
    /** Naive mode: `epoll_wait` never times out and no round is closed early. */
    const naive: bool

    /** The round state the fields hold. */
    ghost function Round(): Aggregation.Round
      reads this, model
    {
      Aggregation.Round(model[..], count, roundInProgress, roundStart)
    }

    /** The server state the fields hold. */
    ghost function State(): Reactor.ServerState
      reads this, model
    {
      Reactor.ServerState(Round(), workers, clients, log, closed)
    }

    /** The round invariant, which holds at every step. */
    ghost predicate RoundValid()
      reads this, model
    {
      model.Length == Aggregation.MODEL_LEN && Aggregation.Inv(Round())
    }

    /** The server invariant, which holds between events. */
    ghost predicate Valid()
      reads this, model
    {
      RoundValid() && Reactor.Inv(State())
    }

    constructor (naive: bool)
      ensures Valid() && State() == Reactor.Boot && this.naive == naive
    {
      this.naive := naive;
      model := new int[Aggregation.MODEL_LEN](i => 0);
      count, roundInProgress, roundStart := 0, false, 0;
      workers, clients, log, closed := [], map[], [], [];
      new;
      assert model[..] == Aggregation.Zeros(Aggregation.MODEL_LEN);
    }

    /** The payload of a broadcast: the model's cells, in order (the `memcpy`
        of `global_model` into `payload_buffer`). */
    method ModelPayload() returns (bytes: seq<byte>)
      ensures bytes == EncodeModel(model[..])
    {
      bytes := [];
      for i := 0 to model.Length
        invariant bytes == EncodeModel(model[..i])
      {
        assert model[..i + 1][..i] == model[..i];
        bytes := bytes + EncodeElem(model[i]);
      }
      assert model[..model.Length] == model[..];
    }

    /** `broadcast_model`: the model is framed once and written to every
        worker in list order, the header and then the payload. */
    method BroadcastModel()
      requires model.Length == Aggregation.MODEL_LEN
      modifies this
      ensures model == old(model)
      ensures State() == Reactor.Broadcast(old(State()), old(model[..]))
    {
      var payload := ModelPayload();
      Pow256Header();
      var header := Header(|payload|);
      var k := 0;
      while k < |workers|
        invariant k <= |workers|
        invariant model == old(model) && State() == old(State()).(log := log)
        invariant log == old(log) + BroadcastWrites(workers[..k], payload)
      {
        assert workers[..k + 1][..k] == workers[..k];
        log := log + [Write(workers[k], header)];
        log := log + [Write(workers[k], payload)];
        k := k + 1;
      }
      assert workers[..k] == workers;
    }

    /** `std::fill` of the model with zeros, and the counters cleared: the
        round is closed. */
    method ResetRound()
      modifies this, model
      ensures model == old(model)
      ensures State() == old(State()).(round := Aggregation.Close(old(Round())))
    {
      for i := 0 to model.Length
        modifies model
        invariant forall k :: 0 <= k < i ==> model[k] == 0
      {
        model[i] := 0;
      }
      assert model[..] == Aggregation.Zeros(model.Length);
      count := 0;
      roundInProgress := false;
    }

    /** The summing loop: element i of the gradient is added to element i of
        the model, for every element of the model. */
    method AddGradient(g: seq<int>)
      requires |g| >= model.Length
      modifies model
      ensures model[..] == Aggregation.AddInto(old(model[..]), g)
    {
      for i := 0 to model.Length
        invariant forall k :: 0 <= k < i ==> model[k] == old(model[k]) + g[k]
        invariant forall k :: i <= k < model.Length ==> model[k] == old(model[k])
      {
        model[i] := model[i] + g[i];
      }
    }
 
    /** The completed-payload branch of `handle_client_data` on a decoded
        gradient: an idle round is opened at `now`, the gradient is summed in
        and counted, and the `NUM_WORKERS`-th gradient broadcasts the sum and
        closes the round. */
    method Contribute(g: seq<int>, now: nat)
      requires RoundValid() && |g| >= model.Length
      modifies this, model
      ensures model == old(model) && RoundValid()
      ensures State() == Reactor.Apply(old(State()), Aggregation.Contribute(old(Round()), g, now))
    {
      if !roundInProgress && count == 0 {
        roundInProgress := true;
        roundStart := now;
      }
      AddGradient(g);
      count := count + 1;
      if count == Aggregation.NUM_WORKERS {
        BroadcastModel();
        ResetRound();
      }
    }

    /** A completed payload: one that holds whole 4-byte elements, at least as
        many as the model has, is decoded and contributed; any other is
        refused and changes nothing. */
    method ReceivePayload(p: seq<byte>, now: nat) returns (ok: bool)
      requires RoundValid()
      modifies this, model
      ensures model == old(model) && RoundValid()
      ensures Reactor.Aggregate(old(State()), p, now) == Reactor.Delivered(State(), ok)
    {
      ok := |p| % ELEM_LEN == 0 && |p| / ELEM_LEN >= model.Length;
      if ok {
        var g := DecodeModel(p);
        Contribute(g, now);
      }
    }

    /** The erase-remove of a connection from the worker list. */
    method Unregister(fd: int)
      modifies this
      ensures model == old(model)
      ensures State() == old(State()).(workers := Without(old(workers), fd))
    {
      var kept: seq<int> := [];
      for k := 0 to |workers|
        invariant kept == Without(workers[..k], fd)
      {
        assert workers[..k + 1][..k] == workers[..k];
        if workers[k] != fd {
          kept := kept + [workers[k]];
        }
      }
      assert workers[..|workers|] == workers;
      workers := kept;
    }

    /** Tearing a connection down: unregistered, closed and forgotten. */
    method Disconnect(fd: int)
      modifies this
      ensures model == old(model)
      ensures State() == Reactor.Disconnect(old(State()), fd)
    {
      Unregister(fd);
      closed := closed + [fd];
      clients := clients - {fd};
    }
 
    /** One successful read of `chunk` into the buffer of connection fd:
        appended; a full header is decoded into the payload length and the
        phase switches to payload; a full payload is handed to the round and,
        if accepted, the phase switches back to header. `ok` is false when the
        payload was refused, and then nothing has changed. */
    method AbsorbChunk(fd: int, chunk: seq<byte>, now: nat) returns (ok: bool)
      requires RoundValid() && fd in clients && Framing.Valid(clients[fd])
      requires 0 < |chunk| <= Requested(clients[fd])
      modifies this, model
      ensures model == old(model) && RoundValid()
      ensures var a := Framing.Absorb(old(clients[fd]), chunk);
        var s1 := old(State()).(clients := old(clients)[fd := a.state]);
        if a.payload.None? then ok && State() == s1
        else
          var d := Reactor.Aggregate(s1, a.payload.value, now);
          ok == d.ok && State() == (if ok then d.state else old(State()))
    {
      var st := clients[fd];
      var buf := st.buffer + chunk;
      ok := true;
      if st.readingHeader {
        if |buf| == HEADER_LEN {
          clients := clients[fd := ClientState(BeDecode(buf), [], false)];
        } else {
          clients := clients[fd := st.(buffer := buf)];
        }
      } else if |buf| == st.payloadSize {
        ok := ReceivePayload(buf, now);
        if ok {
          clients := clients[fd := st.(buffer := [], readingHeader := true)];
        }
      } else {
        clients := clients[fd := st.(buffer := buf)];
      }
    }

    /** One turn of the read loop of `handle_client_data` on a socket holding
        `avail`: either the loop ends here, with the state the whole loop
        leaves, or it consumed some bytes and the rest of the loop runs on the
        bytes after them. */
    method ReadOnce(fd: int, avail: seq<byte>, end: StreamEnd, now: nat) returns (consumed: nat, stop: bool)
      requires RoundValid() && fd in clients && Framing.Valid(clients[fd])
      modifies this, model
      ensures model == old(model) && RoundValid()
      ensures consumed <= |avail|
      ensures Reactor.ServeTurn(old(State()), fd, avail, end, now) ==
        if stop then Reactor.Done(State()) else Reactor.Continue(State(), consumed)
      ensures !stop ==> 0 < consumed && fd in clients && Framing.Valid(clients[fd])
    {
      var st := clients[fd];
      var want := if st.readingHeader then HEADER_LEN - |st.buffer| else st.payloadSize - |st.buffer|;
      var r := SocketRead(avail, end, want);
      if r == WouldBlock {
        return 0, true;
      } else if !r.Got? {
        Disconnect(fd);
        return 0, true;
      }
      var chunk := r.bytes;
      Reactor.ServeTurnGot(State(), fd, avail, end, now, chunk);
      var ok := AbsorbChunk(fd, chunk, now);
      consumed, stop := |chunk|, !ok;
      if !ok {
        Disconnect(fd);
      }
    }

    /** The read loop of `handle_client_data` on connection fd, whose socket
        holds `input` and then stands as `end`: turns are taken until one ends
        the loop. */
    method ReadLoop(fd: int, input: seq<byte>, end: StreamEnd, now: nat)
      requires RoundValid() && fd in clients && Framing.Valid(clients[fd])
      modifies this, model
      ensures model == old(model) && RoundValid()
      ensures State() == Reactor.Serve(old(State()), fd, input, end, now)
    {
      ghost var goal := Reactor.Serve(State(), fd, input, end, now);
      var rest := input;
      while true
        invariant model == old(model) && RoundValid()
        invariant fd in clients && Framing.Valid(clients[fd])
        invariant Reactor.Serve(State(), fd, rest, end, now) == goal
        decreases |rest|
      {
        ghost var before := State();
        var consumed, stop := ReadOnce(fd, rest, end, now);
        if stop {
          Reactor.ServeEnds(before, fd, rest, end, now, State());
          return;
        }
        Reactor.ServeContinues(before, fd, rest, end, now, State(), consumed);
        rest := rest[consumed..];
      }
    }

    /** `handle_client_data(fd)`: read what the current phase still needs,
        append it to the buffer, decode a full header into the payload length,
        hand a full payload to the round, and repeat until a read would block;
        a read that returns 0 or fails, or a payload that cannot be summed,
        tears the connection down. The socket holds `input` and then stands as
        `end`; a descriptor the server does not know is ignored. */
    method HandleClientData(fd: int, input: seq<byte>, end: StreamEnd, now: nat)
      requires Valid()
      modifies this, model
      ensures model == old(model) && Valid()
      ensures State() == Reactor.HandleClientData(old(State()), fd, input, end, now)
    {
      if fd in clients {
        Reactor.ServeKeepsInv(State(), fd, input, end, now);
        ReadLoop(fd, input, end, now);
      }
    }

    /** A new connection from the listening socket: given a fresh reading
        state and appended to the worker list. */
    method AcceptConnection(fd: int)
      requires Valid()
      modifies this
      ensures model == old(model) && Valid()
      ensures State() == Reactor.Accept(old(State()), fd)
    {
      clients := clients[fd := NewClient];
      workers := workers + [fd];
    }

    /** The deadline check after a wake-up with `numEvents` events: outside
        naive mode, a wake-up with no events that finds the round open for at
        least `TIMEOUT_MS` broadcasts the partial sum and closes the round. */
    method CheckDeadline(numEvents: nat, now: nat)
      requires Valid()
      modifies this, model
      ensures model == old(model) && Valid()
      ensures State() == Reactor.Apply(old(State()), Aggregation.Deadline(old(Round()), numEvents, naive, now))
    {
      if numEvents == 0 && !naive {
        if roundInProgress {
          if now - roundStart >= Aggregation.TIMEOUT_MS {
            BroadcastModel();
            ResetRound();
          }
        }
      }
    }

    /** One turn of the loop of `main`: the ready events `es`, in order, then
        the deadline check. */
    method Poll(es: seq<Reactor.Event>, now: nat)
      requires Valid() && |es| <= Reactor.MAX_EVENTS
      modifies this, model
      ensures model == old(model) && Valid()
      ensures State() == Reactor.Poll(old(State()), es, naive, now)
    {
      ghost var goal := Reactor.DispatchAll(State(), es, now);
      for i := 0 to |es|
        invariant model == old(model) && Valid()
        invariant Reactor.DispatchAll(State(), es[i..], now) == goal
      {
        assert es[i..][1..] == es[i + 1..];
        match es[i]
        case Incoming(fd) =>
          AcceptConnection(fd);
        case Readable(fd, avail, end) =>
          HandleClientData(fd, avail, end, now);
      }
      CheckDeadline(|es|, now);
    }
  }
}
