/** The read side of one worker connection (`ClientState` and the read loop of
    `handle_client_data`, server.cpp): an 8-byte big-endian length header, then
    exactly that many payload bytes, reassembled from however many partial
    reads the socket hands over. */
module Framing {
  import opened Wrappers
  import opened Wire

  /** Per-connection read state: the announced payload length, the bytes of
      the current phase received so far, and which phase is being read. */
  datatype ClientState = ClientState(payloadSize: nat, buffer: seq<byte>, readingHeader: bool)

  /** The state a freshly accepted connection starts in (`ClientState()`). */
  const NewClient: ClientState := ClientState(0, [], true)

  /** The phase invariant: a header buffer holds fewer than 8 bytes, a payload
      buffer fewer than the announced length (or nothing at all), and the
      length fits in a `uint64_t`. */
  predicate Valid(st: ClientState)
    ensures Valid(st) ==> |st.buffer| <= (if st.readingHeader then HEADER_LEN else st.payloadSize)
  {
    && st.payloadSize < Pow256(HEADER_LEN)
    && (st.readingHeader ==> |st.buffer| < HEADER_LEN)
    && (!st.readingHeader ==> |st.buffer| < st.payloadSize || st.buffer == [])
  }

  /** How many bytes the next `read` asks for (`bytes_to_read`). */
  function Requested(st: ClientState): (n: nat)
    requires Valid(st)
    ensures |st.buffer| + n == if st.readingHeader then HEADER_LEN else st.payloadSize
    ensures n == 0 <==> !st.readingHeader && st.payloadSize == 0
  {
    if st.readingHeader then HEADER_LEN - |st.buffer| else st.payloadSize - |st.buffer|
  }

  /** The bytes of the message currently being reassembled, as they arrived on
      the wire: the header bytes so far, or the whole header and the payload
      bytes so far. */
  function Pending(st: ClientState): seq<byte>
    requires Valid(st)
  {
    if st.readingHeader then st.buffer else Header(st.payloadSize) + st.buffer
  }

  /** What one successful read does to the state, and the payload it
      completes, if any. */
  datatype Absorbed = Absorbed(state: ClientState, payload: Option<seq<byte>>)

  /** Appends the bytes one read returned to the buffer; a full header is
      decoded into the payload length and the phase switches to payload; a full
      payload is handed out and the phase switches back to header. No byte is
      lost or duplicated: the pending message grows by exactly the chunk, or the
      chunk completes a whole frame. */
  function Absorb(st: ClientState, chunk: seq<byte>): (a: Absorbed)
    requires Valid(st) && 0 < |chunk| <= Requested(st)
    ensures Valid(a.state)
    ensures a.payload.Some? <==> !st.readingHeader && |st.buffer| + |chunk| == st.payloadSize
    ensures st.readingHeader ==> (a.state.readingHeader <==> |st.buffer| + |chunk| < HEADER_LEN)
    ensures a.payload.None? ==> Pending(a.state) == Pending(st) + chunk
    ensures a.payload.Some? ==> |a.payload.value| == st.payloadSize
    ensures a.payload.Some? ==> Pending(a.state) == [] && Pending(st) + chunk == Frame(a.payload.value)
  {
    var buf := st.buffer + chunk;
    if st.readingHeader then
      if |buf| == HEADER_LEN then
        HeaderOfDecoded(buf);
        Absorbed(ClientState(BeDecode(buf), [], false), None)
      else
        Absorbed(st.(buffer := buf), None)
    else if |buf| == st.payloadSize then
      Absorbed(st.(buffer := [], readingHeader := true), Some(buf))
    else
      Absorbed(st.(buffer := buf), None)
  }

  /** How the peer's side of the stream stands once the bytes already received
      have been read: still open, closed by the peer, or broken. */
  datatype StreamEnd = Open | PeerClosed | Failed

  /** The result of one non-blocking `read`: some bytes, a return of 0, or -1
      with `errno` EAGAIN/EWOULDBLOCK or another error. */
  datatype ReadResult = Got(bytes: seq<byte>) | Zero | WouldBlock | Error

  function Min(a: nat, b: nat): nat
  {
    if a < b then a else b
  }

  /** `read(fd, buf, want)` on a non-blocking socket whose receive queue holds
      `avail`: asking for nothing returns 0; otherwise it returns as many queued
      bytes as fit, and with nothing queued it would block, reports end of
      stream, or fails, according to `end`. */
  function SocketRead(avail: seq<byte>, end: StreamEnd, want: nat): (r: ReadResult)
    ensures r.Got? <==> want > 0 && avail != []
    ensures r.Got? ==> 0 < |r.bytes| <= want && r.bytes <= avail
    ensures r == WouldBlock <==> want > 0 && avail == [] && end == Open
  {
    if want == 0 then Zero
    else if avail != [] then Got(avail[..Min(want, |avail|)])
    else match end
      case Open => WouldBlock
      case PeerClosed => Zero
      case Failed => Error
  }

  /** How a drain of the socket ends: the read would block (the connection
      stays), or it returned 0 or failed (the connection is torn down). */
  datatype Outcome = Blocked | Closed

  datatype Drained = Drained(state: ClientState, payloads: seq<seq<byte>>, outcome: Outcome)

  /** The read loop of `handle_client_data` on its own: read what the current
      phase still needs, absorb it, and repeat until a read would block, returns
      0 or fails; collects the payloads completed on the way. */
  function Drain(st: ClientState, avail: seq<byte>, end: StreamEnd): (d: Drained)
    requires Valid(st)
    ensures Valid(d.state)
    ensures d.outcome == Blocked ==> end == Open && Requested(d.state) > 0
    decreases |avail|
  {
    match SocketRead(avail, end, Requested(st))
    case WouldBlock => Drained(st, [], Blocked)
    case Zero => Drained(st, [], Closed)
    case Error => Drained(st, [], Closed)
    case Got(chunk) =>
      var a := Absorb(st, chunk);
      var rest := Drain(a.state, avail[|chunk|..], end);
      Drained(rest.state, AsSeq(a.payload) + rest.payloads, rest.outcome)
  }

  // ---------------------------------------------------------------------------
  // Reference: the frames a byte stream holds, read straight off the stream.

  /** A stream cut at frame boundaries: the complete payloads, the bytes of the
      incomplete message after them, and whether a header announcing an empty
      payload stops the reader (it then asks `read` for 0 bytes, gets 0 back,
      and takes that for the end of the stream). */
  datatype Deframed = Deframed(frames: seq<seq<byte>>, partial: seq<byte>, hangup: bool)

  function Deframe(s: seq<byte>): Deframed
    decreases |s|
  {
    if |s| < HEADER_LEN then Deframed([], s, false)
    else
      var n := BeDecode(s[..HEADER_LEN]);
      if n == 0 then Deframed([], [], true)
      else if |s| < HEADER_LEN + n then Deframed([], s, false)
      else
        var rest := Deframe(s[HEADER_LEN + n..]);
        Deframed([s[HEADER_LEN..HEADER_LEN + n]] + rest.frames, rest.partial, rest.hangup)
  }

  /** The message a valid reader is in the middle of is never complete: it
      cuts into no frame and is left over whole, unless it is the header of an
      empty payload, which stops the reader. */
  lemma PendingIsIncomplete(st: ClientState)
    requires Valid(st)
    ensures Deframe(Pending(st)) == if Requested(st) == 0 then Deframed([], [], true)
                                    else Deframed([], Pending(st), false)
  {
    if !st.readingHeader {
      assert Pending(st)[..HEADER_LEN] == Header(st.payloadSize);
    }
  }

  /** Cutting one frame off the front of a stream. */
  lemma DeframeFrame(p: seq<byte>, rest: seq<byte>)
    requires 0 < |p| < Pow256(HEADER_LEN)
    ensures Deframe(Frame(p) + rest) ==
      Deframed([p] + Deframe(rest).frames, Deframe(rest).partial, Deframe(rest).hangup)
  {
    var s := Frame(p) + rest;
    assert s[..HEADER_LEN] == Frame(p)[..HEADER_LEN];
    assert s[HEADER_LEN..HEADER_LEN + |p|] == p;
    assert s[HEADER_LEN + |p|..] == rest;
  }

  /** Frames are cut independently of what follows them: the stream a + b holds
      the frames of a, then those of a's leftover bytes followed by b; and a
      reader stopped within a stays stopped. */
  lemma {:induction false} DeframeAppend(a: seq<byte>, b: seq<byte>)
    ensures var da := Deframe(a);
      if da.hangup then Deframe(a + b) == da
      else
        var db := Deframe(da.partial + b);
        Deframe(a + b) == Deframed(da.frames + db.frames, db.partial, db.hangup)
    decreases |a|
  {
    var s := a + b;
    if |a| >= HEADER_LEN {
      assert s[..HEADER_LEN] == a[..HEADER_LEN];
    }
    if |a| < HEADER_LEN || (BeDecode(a[..HEADER_LEN]) != 0 && |a| < HEADER_LEN + BeDecode(a[..HEADER_LEN])) {
      assert Deframe(a) == Deframed([], a, false);
      EmptyAppend([], Deframe(s).frames);
    } else if BeDecode(a[..HEADER_LEN]) != 0 {
      var n := BeDecode(a[..HEADER_LEN]);
      var frame, tail := a[HEADER_LEN..HEADER_LEN + n], a[HEADER_LEN + n..];
      assert s[HEADER_LEN..HEADER_LEN + n] == frame;
      assert s[HEADER_LEN + n..] == tail + b;
      DeframeAppend(tail, b);
      var dt, dtb := Deframe(tail), Deframe(tail + b);
      assert Deframe(a) == Deframed([frame] + dt.frames, dt.partial, dt.hangup);
      assert Deframe(s) == Deframed([frame] + dtb.frames, dtb.partial, dtb.hangup);
      if !dt.hangup {
        AppendAssoc([frame], dt.frames, Deframe(dt.partial + b).frames);
      }
    }
  }

  /** A drain agrees with a cut of the stream when it delivers the cut's
      frames, closes exactly when the cut stops the reader or the stream has
      ended, and otherwise leaves pending the cut's leftover bytes. */
  predicate Agrees(d: Drained, r: Deframed, end: StreamEnd)
  {
    && Valid(d.state)
    && d.payloads == r.frames
    && (d.outcome == Closed <==> r.hangup || end != Open)
    && (!r.hangup ==> Pending(d.state) == r.partial)
  }

  /** The read loop delivers exactly the frames the stream holds: draining a
      reader with the bytes `avail` yields the frames of its pending message
      followed by `avail`, ends closed exactly when a read returns 0 or fails,
      and leaves pending exactly the leftover bytes. */
  lemma {:induction false} DrainIsDeframe(st: ClientState, avail: seq<byte>, end: StreamEnd)
    requires Valid(st)
    ensures Agrees(Drain(st, avail, end), Deframe(Pending(st) + avail), end)
    decreases |avail|
  {
    var want := Requested(st);
    if want == 0 || avail == [] {
      DrainStopsAtOnce(st, avail, end);
    } else {
      var chunk := avail[..Min(want, |avail|)];
      var a := Absorb(st, chunk);
      var rest := avail[|chunk|..];
      DrainIsDeframe(a.state, rest, end);
      DrainStep(st, avail, end);
    }
  }

  /** A drain whose first read returns no bytes agrees with the cut. */
  lemma DrainStopsAtOnce(st: ClientState, avail: seq<byte>, end: StreamEnd)
    requires Valid(st) && (Requested(st) == 0 || avail == [])
    ensures Agrees(Drain(st, avail, end), Deframe(Pending(st) + avail), end)
  {
    PendingIsIncomplete(st);
    if Requested(st) == 0 {
      DeframeAppend(Pending(st), avail);
    } else {
      assert Pending(st) + avail == Pending(st);
    }
  }

  /** A drain whose first read returns bytes agrees with the cut if the drain
      of the rest agrees with the cut after the absorbed chunk. */
  lemma DrainStep(st: ClientState, avail: seq<byte>, end: StreamEnd)
    requires Valid(st) && Requested(st) > 0 && avail != []
    requires var chunk := avail[..Min(Requested(st), |avail|)];
      var a := Absorb(st, chunk);
      var rest := avail[|chunk|..];
      Agrees(Drain(a.state, rest, end), Deframe(Pending(a.state) + rest), end)
    ensures Agrees(Drain(st, avail, end), Deframe(Pending(st) + avail), end)
  {
    var chunk := avail[..Min(Requested(st), |avail|)];
    var a := Absorb(st, chunk);
    var rest := avail[|chunk|..];
    DrainUnfold(st, avail, end);
    AbsorbPrefixThenDeframe(st, avail, |chunk|);
  }

  /** The first read of a drain, when it returns bytes. */
  lemma DrainUnfold(st: ClientState, avail: seq<byte>, end: StreamEnd)
    requires Valid(st) && Requested(st) > 0 && avail != []
    ensures var chunk := avail[..Min(Requested(st), |avail|)];
      var a := Absorb(st, chunk);
      var tail := Drain(a.state, avail[|chunk|..], end);
      Drain(st, avail, end) == Drained(tail.state, AsSeq(a.payload) + tail.payloads, tail.outcome)
  {
  }

  /** One absorbed chunk moves the start of the rest of the stream past the
      frame it completes, if any, and leaves the cut unchanged otherwise. */
  lemma AbsorbThenDeframe(st: ClientState, chunk: seq<byte>, rest: seq<byte>)
    requires Valid(st) && 0 < |chunk| <= Requested(st)
    ensures var a := Absorb(st, chunk);
      var r := Deframe(Pending(a.state) + rest);
      Deframe(Pending(st) + (chunk + rest)) ==
        Deframed(AsSeq(a.payload) + r.frames, r.partial, r.hangup)
  {
    var a := Absorb(st, chunk);
    AppendAssoc(Pending(st), chunk, rest);
    if a.payload.Some? {
      var p := a.payload.value;
      EmptyAppend(Pending(a.state), rest);
      DeframeFrame(p, rest);
    }
  }

  /** The same, for a chunk read off the front of `avail`. */
  lemma AbsorbPrefixThenDeframe(st: ClientState, avail: seq<byte>, k: nat)
    requires Valid(st) && 0 < k <= Requested(st) && k <= |avail|
    ensures var a := Absorb(st, avail[..k]);
      var r := Deframe(Pending(a.state) + avail[k..]);
      Deframe(Pending(st) + avail) == Deframed(AsSeq(a.payload) + r.frames, r.partial, r.hangup)
  {
    var chunk, rest := avail[..k], avail[k..];
    TakeDrop(avail, k);
    AbsorbThenDeframe(st, chunk, rest);
  }

  lemma TakeDrop<T>(s: seq<T>, k: nat)
    requires k <= |s|
    ensures s[..k] + s[k..] == s
  {
  }

  lemma EmptyAppend<T>(x: seq<T>, y: seq<T>)
    requires x == []
    ensures x + y == y
  {
  }

  lemma AppendAssoc<T>(x: seq<T>, y: seq<T>, z: seq<T>)
    ensures x + (y + z) == (x + y) + z
  {
  }

  /** Concatenation of the chunks a connection receives, one per wake-up. */
  function Concat(chunks: seq<seq<byte>>): seq<byte>
  {
    if chunks == [] then [] else chunks[0] + Concat(chunks[1..])
  }

  /** Successive wake-ups of the reader, the i-th finding `chunks[i]` queued on a
      still-open socket; stops at the first drain that closes the connection. */
  function DrainAll(st: ClientState, chunks: seq<seq<byte>>): (d: Drained)
    requires Valid(st)
    ensures Valid(d.state)
    decreases |chunks|
  {
    if chunks == [] then Drained(st, [], Blocked)
    else
      var first := Drain(st, chunks[0], Open);
      if first.outcome == Closed then first
      else
        var rest := DrainAll(first.state, chunks[1..]);
        Drained(rest.state, first.payloads + rest.payloads, rest.outcome)
  }

  /** However the stream is split across wake-ups, the reader delivers the
      frames of the whole stream, and is closed only by an empty-payload header. */
  lemma {:induction false} DrainAllIsDeframe(st: ClientState, chunks: seq<seq<byte>>)
    requires Valid(st) && Requested(st) > 0
    ensures Agrees(DrainAll(st, chunks), Deframe(Pending(st) + Concat(chunks)), Open)
    decreases |chunks|
  {
    if chunks == [] {
      assert Pending(st) + Concat(chunks) == Pending(st);
      PendingIsIncomplete(st);
    } else {
      var first := Drain(st, chunks[0], Open);
      if first.outcome == Blocked {
        DrainAllIsDeframe(first.state, chunks[1..]);
      }
      DrainAllStep(st, chunks);
    }
  }

  /** One wake-up followed by the rest agrees with the cut of the whole
      stream if the rest agrees with the cut of what the first one left. */
  lemma DrainAllStep(st: ClientState, chunks: seq<seq<byte>>)
    requires Valid(st) && chunks != []
    requires var first := Drain(st, chunks[0], Open);
      first.outcome == Blocked ==>
        Agrees(DrainAll(first.state, chunks[1..]), Deframe(Pending(first.state) + Concat(chunks[1..])), Open)
    ensures Agrees(DrainAll(st, chunks), Deframe(Pending(st) + Concat(chunks)), Open)
  {
    var c0, more := chunks[0], Concat(chunks[1..]);
    var p := Pending(st);
    var a := p + c0;
    assert Concat(chunks) == c0 + more;
    AppendAssoc(p, c0, more);
    var first := Drain(st, c0, Open);
    var r1 := Deframe(a);
    DrainIsDeframe(st, c0, Open);
    DeframeAppend(a, more);
    if r1.hangup {
      assert DrainAll(st, chunks) == first;
    } else {
      var rest := DrainAll(first.state, chunks[1..]);
      assert DrainAll(st, chunks) == Drained(rest.state, first.payloads + rest.payloads, rest.outcome);
    }
  }

  /** The byte stream of several messages, framed one after the other. */
  function FrameAll(ps: seq<seq<byte>>): seq<byte>
    requires forall i :: 0 <= i < |ps| ==> |ps[i]| < Pow256(HEADER_LEN)
  {
    if ps == [] then [] else Frame(ps[0]) + FrameAll(ps[1..])
  }

  /** A stream of non-empty frames cuts back into exactly its payloads. */
  lemma {:induction false} DeframeFrameAll(ps: seq<seq<byte>>)
    requires forall i :: 0 <= i < |ps| ==> 0 < |ps[i]| < Pow256(HEADER_LEN)
    ensures Deframe(FrameAll(ps)) == Deframed(ps, [], false)
  {
    if ps != [] {
      DeframeFrameAll(ps[1..]);
      DeframeFrame(ps[0], FrameAll(ps[1..]));
      assert [ps[0]] + ps[1..] == ps;
    }
  }

  /** Framing round trip: the non-empty messages a sender frames one after
      the other, read by a reader between messages (header phase, empty
      buffer) in any split across wake-ups, come out as exactly those payloads
      in order, and the reader is left between messages again. */
  lemma FramingRoundTrip(st: ClientState, ps: seq<seq<byte>>, chunks: seq<seq<byte>>)
    requires Valid(st) && st.readingHeader && st.buffer == []
    requires forall i :: 0 <= i < |ps| ==> 0 < |ps[i]| < Pow256(HEADER_LEN)
    requires Concat(chunks) == FrameAll(ps)
    ensures var d := DrainAll(st, chunks);
      d.payloads == ps && d.outcome == Blocked && d.state.readingHeader && d.state.buffer == []
  {
    DeframeFrameAll(ps);
    DrainAllIsDeframe(st, chunks);
    assert Pending(st) + Concat(chunks) == FrameAll(ps);
  }

  /** A whole frame of a non-empty payload reaching a reader between
      messages is read in two reads (header, then payload), delivers its
      payload and leaves the reader between messages, still remembering the
      last length. */
  lemma DrainOneFrame(st: ClientState, p: seq<byte>)
    requires Valid(st) && st.readingHeader && st.buffer == []
    requires 0 < |p| < Pow256(HEADER_LEN)
    ensures Drain(st, Frame(p), Open) == Drained(ClientState(|p|, [], true), [p], Blocked)
  {
    var f := Frame(p);
    var a1 := Absorb(st, f[..HEADER_LEN]);
    assert [] + f[..HEADER_LEN] == f[..HEADER_LEN];
    assert a1 == Absorbed(ClientState(|p|, [], false), None);
    assert f[HEADER_LEN..] == p;
    var a2 := Absorb(a1.state, p);
    assert [] + p == p;
    assert a2 == Absorbed(ClientState(|p|, [], true), Some(p));
    assert p[|p|..] == [];
    assert Drain(a2.state, [], Open) == Drained(a2.state, [], Blocked);
    assert Requested(a1.state) == |p| && p[..Min(|p|, |p|)] == p;
    assert SocketRead(p, Open, |p|) == Got(p);
    assert Drain(a1.state, p, Open) == Drained(a2.state, [p], Blocked);
  }

  /** A read that would block changes nothing and delivers nothing. */
  lemma WouldBlockKeepsState(st: ClientState)
    requires Valid(st) && Requested(st) > 0
    ensures Drain(st, [], Open) == Drained(st, [], Blocked)
  {
  }
}
