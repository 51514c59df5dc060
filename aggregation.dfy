/** The aggregation round (`global_model`, `gradients_received_count`,
    `round_in_progress` and `round_start_time`, server.cpp): gradients are
    summed element-wise into the model until `NUM_WORKERS` of them have
    arrived or the round has been open for `TIMEOUT_MS`; the sum is then
    broadcast and the round starts over from zero. Model elements are
    integers, times are milliseconds. */
module Aggregation {
  import opened Wrappers

  /** Gradients that close a round (`NUM_WORKERS`). */
  const NUM_WORKERS: nat := 4
  /** Age at which an open round is closed by an idle wake-up (`TIMEOUT_MS`). */
  const TIMEOUT_MS: nat := 2000
  /** Number of model elements (`global_model(10, 0.0f)`). */
  const MODEL_LEN: nat := 10

  /** The round state: the running sum, how many gradients it holds, whether
      the round timer runs, and when it was started. */
  datatype Round = Round(model: seq<int>, count: nat, inProgress: bool, start: nat)

  function Zeros(n: nat): seq<int>
  {
    seq(n, i => 0)
  }

  /** The round state at start-up. */
  const Initial: Round := Round(Zeros(MODEL_LEN), 0, false, 0)

  /** Between events: the model has its fixed length, a round never holds
      `NUM_WORKERS` gradients, the timer runs exactly while gradients are held,
      and a round holding none has an all-zero sum. */
  predicate Inv(r: Round)
  {
    && |r.model| == MODEL_LEN
    && r.count < NUM_WORKERS
    && (r.inProgress <==> r.count > 0)
    && (r.count == 0 ==> r.model == Zeros(MODEL_LEN))
  }

  /** The model with the first `|m|` elements of the gradient added in; any
      further elements of the gradient are ignored. */
  function AddInto(m: seq<int>, g: seq<int>): (s: seq<int>)
    requires |g| >= |m|
    ensures |s| == |m|
    ensures forall i :: 0 <= i < |m| ==> s[i] - m[i] == g[i]
  {
    seq(|m|, i requires 0 <= i < |m| => m[i] + g[i])
  }

  /** The sum does not depend on the order in which two gradients arrive. */
  lemma AddIntoCommutes(m: seq<int>, g: seq<int>, h: seq<int>)
    requires |g| >= |m| && |h| >= |m|
    ensures AddInto(AddInto(m, g), h) == AddInto(AddInto(m, h), g)
  {
    var a, b := AddInto(AddInto(m, g), h), AddInto(AddInto(m, h), g);
    forall i | 0 <= i < |m| ensures a[i] == b[i] {
      assert a[i] == m[i] + g[i] + h[i];
    }
  }

  /** The round after it is closed: zero sum, zero count, timer stopped (the
      recorded start time is left as it was). */
  function Close(r: Round): (c: Round)
    ensures |c.model| == |r.model| && forall i :: 0 <= i < |c.model| ==> c.model[i] == 0
    ensures c.count == 0 && !c.inProgress
    ensures |r.model| == MODEL_LEN ==> Inv(c)
  {
    Round(Zeros(|r.model|), 0, false, r.start)
  }

  /** A new round state and the model to broadcast, if the step closed the
      round. */
  datatype Step = Step(round: Round, broadcast: Option<seq<int>>)

  /** One completed gradient: an idle round is opened at `now`, the gradient
      is added in and counted, and the `NUM_WORKERS`-th gradient closes the
      round, broadcasting the sum. */
  function Contribute(r: Round, g: seq<int>, now: nat): (s: Step)
    requires |g| >= |r.model|
    ensures s.broadcast.Some? <==> r.count + 1 == NUM_WORKERS
    ensures var sum := if s.broadcast.Some? then s.broadcast.value else s.round.model;
      |sum| == |r.model| && forall i :: 0 <= i < |r.model| ==> sum[i] == r.model[i] + g[i]
    ensures s.broadcast.Some? ==>
      s.round.model == Zeros(|r.model|) && s.round.count == 0 && !s.round.inProgress
    ensures s.broadcast.None? ==>
      s.round.count == r.count + 1 && s.round.inProgress == (r.inProgress || r.count == 0)
    ensures s.round.start == if !r.inProgress && r.count == 0 then now else r.start
    ensures Inv(r) ==> Inv(s.round)
  {
    var started := if !r.inProgress && r.count == 0 then r.(inProgress := true, start := now) else r;
    var summed := started.(model := AddInto(r.model, g), count := r.count + 1);
    if summed.count == NUM_WORKERS then Step(Close(summed), Some(summed.model))
    else Step(summed, None)
  }

  /** The check after a wake-up: with no ready events, outside naive mode, an
      open round at least `TIMEOUT_MS` old is closed and its partial sum
      broadcast; in every other case nothing changes. */
  function Deadline(r: Round, numEvents: nat, naive: bool, now: nat): (s: Step)
    ensures s.broadcast.Some? <==>
      numEvents == 0 && !naive && r.inProgress && now >= r.start + TIMEOUT_MS
    ensures s.broadcast.Some? ==> s.broadcast.value == r.model && s.round == Close(r)
    ensures s.broadcast.None? ==> s.round == r
    ensures Inv(r) ==> Inv(s.round)
  {
    if numEvents == 0 && !naive && r.inProgress && now - r.start >= TIMEOUT_MS then
      Step(Close(r), Some(r.model))
    else
      Step(r, None)
  }

  // ---------------------------------------------------------------------------
  // Many gradients in a row.

  /** A completed gradient and the time it completed. */
  datatype Arrival = Arrival(gradient: seq<int>, at: nat)

  /** Every gradient has at least `n` elements. */
  predicate Covers(xs: seq<Arrival>, n: nat)
  {
    forall k :: 0 <= k < |xs| ==> |xs[k].gradient| >= n
  }

  /** Element i summed over all the gradients. */
  function Total(xs: seq<Arrival>, i: nat): int
    requires Covers(xs, i + 1)
  {
    if xs == [] then 0 else xs[0].gradient[i] + Total(xs[1..], i)
  }

  /** The element-wise sum of the gradients, over the first n elements. */
  function SumOf(xs: seq<Arrival>, n: nat): seq<int>
    requires Covers(xs, n)
  {
    seq(n, i requires 0 <= i < n => Total(xs, i))
  }

  /** The round state after a run of gradients, and the models broadcast on
      the way. */
  datatype Run = Run(round: Round, broadcasts: seq<seq<int>>)

  function ContributeAll(r: Round, xs: seq<Arrival>): (run: Run)
    requires Covers(xs, |r.model|)
    ensures |run.round.model| == |r.model|
    ensures Inv(r) ==> Inv(run.round)
    decreases |xs|
  {
    if xs == [] then Run(r, [])
    else
      var s := Contribute(r, xs[0].gradient, xs[0].at);
      var rest := ContributeAll(s.round, xs[1..]);
      Run(rest.round, AsSeq(s.broadcast) + rest.broadcasts)
  }

  /** The held sum plus the gradients, element by element. */
  function Plus(m: seq<int>, xs: seq<Arrival>): (r: seq<int>)
    requires Covers(xs, |m|)
  {
    seq(|m|, i requires 0 <= i < |m| => m[i] + Total(xs, i))
  }

  /** Adding one gradient into the sum, then the rest, is adding them all. */
  lemma PlusStep(m: seq<int>, xs: seq<Arrival>)
    requires xs != [] && Covers(xs, |m|)
    ensures Plus(AddInto(m, xs[0].gradient), xs[1..]) == Plus(m, xs)
  {
  }

  /** Gradients that do not complete the round are all held in its sum, and
      its timer runs from the first one that reached it idle. */
  lemma {:induction false} HeldSums(r: Round, xs: seq<Arrival>)
    requires Inv(r) && Covers(xs, MODEL_LEN) && r.count + |xs| < NUM_WORKERS
    ensures var run := ContributeAll(r, xs);
      && run.broadcasts == []
      && run.round.model == Plus(r.model, xs)
      && run.round.count == r.count + |xs|
      && run.round.start == (if r.count == 0 && xs != [] then xs[0].at else r.start)
    decreases |xs|
  {
    if xs == [] {
      assert Plus(r.model, xs) == r.model;
    } else {
      var s := Contribute(r, xs[0].gradient, xs[0].at);
      assert s.round.model == AddInto(r.model, xs[0].gradient);
      HeldSums(s.round, xs[1..]);
      PlusStep(r.model, xs);
    }
  }

  /** The gradients that complete a round are broadcast, together with what
      the round held, exactly once, and leave the round idle with a zero sum. */
  lemma {:induction false} ClosingSums(r: Round, xs: seq<Arrival>)
    requires Inv(r) && Covers(xs, MODEL_LEN) && r.count + |xs| == NUM_WORKERS
    ensures var run := ContributeAll(r, xs);
      && run.broadcasts == [Plus(r.model, xs)]
      && run.round == Round(Zeros(MODEL_LEN), 0, false, if r.count == 0 then xs[0].at else r.start)
    decreases |xs|
  {
    var s := Contribute(r, xs[0].gradient, xs[0].at);
    PlusStep(r.model, xs);
    if r.count + 1 == NUM_WORKERS {
      assert xs[1..] == [];
      assert Plus(AddInto(r.model, xs[0].gradient), []) == AddInto(r.model, xs[0].gradient);
      assert s.broadcast.value == AddInto(r.model, xs[0].gradient);
    } else {
      assert s.round.model == AddInto(r.model, xs[0].gradient);
      ClosingSums(s.round, xs[1..]);
    }
  }

  /** Over any run of gradients, a round is broadcast once every
      `NUM_WORKERS` of them, and the round holds the remainder. */
  lemma {:induction false} BroadcastEveryQuorum(r: Round, xs: seq<Arrival>)
    requires Inv(r) && Covers(xs, MODEL_LEN)
    ensures var run := ContributeAll(r, xs);
      && |run.broadcasts| == (r.count + |xs|) / NUM_WORKERS
      && run.round.count == (r.count + |xs|) % NUM_WORKERS
    decreases |xs|
  {
    if xs != [] {
      var s := Contribute(r, xs[0].gradient, xs[0].at);
      BroadcastEveryQuorum(s.round, xs[1..]);
    }
  }

  /** `NUM_WORKERS` gradients reaching an idle round are broadcast once, as
      their element-wise sum, and leave the round idle with a zero sum. */
  lemma FullRound(r: Round, xs: seq<Arrival>)
    requires Inv(r) && r.count == 0 && Covers(xs, MODEL_LEN) && |xs| == NUM_WORKERS
    ensures var run := ContributeAll(r, xs);
      && run.broadcasts == [SumOf(xs, MODEL_LEN)]
      && run.round == Round(Zeros(MODEL_LEN), 0, false, xs[0].at)
  {
    ClosingSums(r, xs);
    assert Plus(r.model, xs) == SumOf(xs, MODEL_LEN);
  }

  /** Fewer than `NUM_WORKERS` gradients reaching an idle round broadcast
      nothing; the round holds their sum, and its timer runs from the first. */
  lemma PartialRound(r: Round, xs: seq<Arrival>)
    requires Inv(r) && r.count == 0 && Covers(xs, MODEL_LEN) && 0 < |xs| < NUM_WORKERS
    ensures var run := ContributeAll(r, xs);
      && run.broadcasts == []
      && run.round == Round(SumOf(xs, MODEL_LEN), |xs|, true, xs[0].at)
  {
    HeldSums(r, xs);
    assert Plus(r.model, xs) == SumOf(xs, MODEL_LEN);
  }

  /** A partial round is closed by the first idle wake-up at least
      `TIMEOUT_MS` after its first gradient: the sum of the gradients that did
      arrive is broadcast and the round is idle again. */
  lemma TimeoutClosesPartialRound(r: Round, xs: seq<Arrival>, now: nat)
    requires Inv(r) && r.count == 0 && Covers(xs, MODEL_LEN) && 0 < |xs| < NUM_WORKERS
    requires now >= xs[0].at + TIMEOUT_MS
    ensures var run := ContributeAll(r, xs);
      Deadline(run.round, 0, false, now) ==
        Step(Round(Zeros(MODEL_LEN), 0, false, xs[0].at), Some(SumOf(xs, MODEL_LEN)))
  {
    PartialRound(r, xs);
  }

  /** Before `TIMEOUT_MS` has passed since its first gradient, a partial round
      stays open. */
  lemma PartialRoundWaits(r: Round, xs: seq<Arrival>, numEvents: nat, naive: bool, now: nat)
    requires Inv(r) && r.count == 0 && Covers(xs, MODEL_LEN) && 0 < |xs| < NUM_WORKERS
    requires now < xs[0].at + TIMEOUT_MS
    ensures var run := ContributeAll(r, xs);
      Deadline(run.round, numEvents, naive, now) == Step(run.round, None)
  {
    PartialRound(r, xs);
  }

  function Fill(v: int): seq<int>
  {
    seq(MODEL_LEN, i => v)
  }

  /** Four all-ones gradients at any times close the first round with an
      all-fours broadcast and leave the model zero and the count 0. */
  lemma QuorumOfOnes(t0: nat, t1: nat, t2: nat, t3: nat)
    ensures var xs := [Arrival(Fill(1), t0), Arrival(Fill(1), t1), Arrival(Fill(1), t2), Arrival(Fill(1), t3)];
      ContributeAll(Initial, xs) == Run(Round(Zeros(MODEL_LEN), 0, false, t0), [Fill(4)])
  {
    var xs := [Arrival(Fill(1), t0), Arrival(Fill(1), t1), Arrival(Fill(1), t2), Arrival(Fill(1), t3)];
    FullRound(Initial, xs);
    forall i | 0 <= i < MODEL_LEN
      ensures SumOf(xs, MODEL_LEN)[i] == 4
    {
      assert xs[3..][1..] == [];
      assert xs[2..][1..] == xs[3..];
      assert xs[1..][1..] == xs[2..];
      assert Total(xs[3..], i) == 1;
      assert Total(xs[2..], i) == 2;
      assert Total(xs[1..], i) == 3;
    }
    assert SumOf(xs, MODEL_LEN) == Fill(4);
  }

  /** An all-ones and an all-twos gradient, closed by the timeout 2000 ms after
      the first, broadcast all threes. */
  lemma TimeoutOfOnesAndTwos(t0: nat, t1: nat, now: nat)
    requires now >= t0 + TIMEOUT_MS
    ensures var xs := [Arrival(Fill(1), t0), Arrival(Fill(2), t1)];
      var run := ContributeAll(Initial, xs);
      run.broadcasts == [] &&
      Deadline(run.round, 0, false, now) == Step(Round(Zeros(MODEL_LEN), 0, false, t0), Some(Fill(3)))
  {
    var xs := [Arrival(Fill(1), t0), Arrival(Fill(2), t1)];
    PartialRound(Initial, xs);
    TimeoutClosesPartialRound(Initial, xs, now);
    forall i | 0 <= i < MODEL_LEN
      ensures SumOf(xs, MODEL_LEN)[i] == 3
    {
      assert Total(xs[1..], i) == 2;
    }
    assert SumOf(xs, MODEL_LEN) == Fill(3);
  }
}
