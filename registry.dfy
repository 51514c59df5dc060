/** The list of participating workers (`participating_workers`, server.cpp)
    and the writes `broadcast_model` makes to them. */
module Registry {
  import opened Wire

  /** One `write` call: the connection written to and the bytes written. */
  datatype Write = Write(fd: int, bytes: seq<byte>)

  /** The workers with every occurrence of `fd` removed, the others kept in
      order (the erase-remove of a disconnected worker). */
  function Without(workers: seq<int>, fd: int): (w: seq<int>)
    ensures forall x :: x in w <==> x in workers && x != fd
    ensures |w| <= |workers|
  {
    if workers == [] then []
    else
      var last := workers[|workers| - 1];
      Without(workers[..|workers| - 1], fd) + (if last == fd then [] else [last])
  }

  /** No connection is listed twice. */
  predicate Distinct(workers: seq<int>)
  {
    forall i, j :: 0 <= i < j < |workers| ==> workers[i] != workers[j]
  }

  /** A distinct list is a distinct list followed by a connection it does not
      hold. */
  lemma DistinctSplit(workers: seq<int>)
    requires Distinct(workers) && workers != []
    ensures Distinct(workers[..|workers| - 1])
    ensures workers[|workers| - 1] !in workers[..|workers| - 1]
  {
    var init, last := workers[..|workers| - 1], workers[|workers| - 1];
    forall i | 0 <= i < |init| ensures init[i] != last {
      assert workers[i] == init[i];
    }
  }

  /** Removing a worker keeps the others distinct. */
  lemma {:induction false} WithoutKeepsDistinct(workers: seq<int>, fd: int)
    requires Distinct(workers)
    ensures Distinct(Without(workers, fd))
  {
    if workers != [] {
      DistinctSplit(workers);
      WithoutKeepsDistinct(workers[..|workers| - 1], fd);
    }
  }

  /** Removing a worker that is not listed changes nothing. */
  lemma {:induction false} WithoutAbsent(workers: seq<int>, fd: int)
    requires fd !in workers
    ensures Without(workers, fd) == workers
  {
    if workers != [] {
      var init := workers[..|workers| - 1];
      WithoutAbsent(init, fd);
      assert init + [workers[|workers| - 1]] == workers;
    }
  }

  /** The writes of one broadcast: to every worker in list order, the 8-byte
      length header and then the payload. */
  function BroadcastWrites(workers: seq<int>, payload: seq<byte>): (log: seq<Write>)
    requires |payload| < Pow256(HEADER_LEN)
    ensures |log| == 2 * |workers|
  {
    if workers == [] then []
    else
      var w := workers[|workers| - 1];
      BroadcastWrites(workers[..|workers| - 1], payload) + [Write(w, Header(|payload|)), Write(w, payload)]
  }

  /** The bytes a log writes to one connection, in order. */
  function SentTo(log: seq<Write>, fd: int): seq<byte>
  {
    if log == [] then []
    else
      var w := log[|log| - 1];
      SentTo(log[..|log| - 1], fd) + (if w.fd == fd then w.bytes else [])
  }

  /** What a connection receives from two logs, one after the other. */
  lemma {:induction false} SentToAppend(a: seq<Write>, b: seq<Write>, fd: int)
    ensures SentTo(a + b, fd) == SentTo(a, fd) + SentTo(b, fd)
    decreases |b|
  {
    if b == [] {
      assert a + b == a;
    } else {
      var init := b[..|b| - 1];
      assert (a + b)[..|a + b| - 1] == a + init;
      assert (a + b)[|a + b| - 1] == b[|b| - 1];
      SentToAppend(a, init, fd);
    }
  }

  /** The two writes one worker gets in a broadcast. */
  lemma SentToPair(w: int, h: seq<byte>, p: seq<byte>, fd: int)
    ensures SentTo([Write(w, h), Write(w, p)], fd) == if w == fd then h + p else []
  {
    var pair := [Write(w, h), Write(w, p)];
    var one := [Write(w, h)];
    assert one[..0] == [];
    assert SentTo(one, fd) == [] + (if w == fd then h else []);
    assert pair[..1] == one;
    assert SentTo(pair, fd) == SentTo(one, fd) + (if w == fd then p else []);
  }

  /** A list holds a connection when its last element is that connection or
      the rest of it holds it. */
  lemma InSplit(workers: seq<int>, fd: int)
    requires workers != []
    ensures fd in workers <==> fd in workers[..|workers| - 1] || fd == workers[|workers| - 1]
  {
    assert workers == workers[..|workers| - 1] + [workers[|workers| - 1]];
  }

  /** The last worker of a broadcast gets the last frame. */
  lemma BroadcastStep(workers: seq<int>, payload: seq<byte>, fd: int)
    requires workers != [] && |payload| < Pow256(HEADER_LEN)
    ensures var w := workers[|workers| - 1];
      SentTo(BroadcastWrites(workers, payload), fd) ==
      SentTo(BroadcastWrites(workers[..|workers| - 1], payload), fd) + (if w == fd then Frame(payload) else [])
  {
    var w, h := workers[|workers| - 1], Header(|payload|);
    var prev := BroadcastWrites(workers[..|workers| - 1], payload);
    SentToAppend(prev, [Write(w, h), Write(w, payload)], fd);
    SentToPair(w, h, payload, fd);
  }

  /** A broadcast sends each listed worker exactly one frame holding the
      payload, and nothing to any other connection. */
  lemma {:induction false} BroadcastReachesEveryWorker(workers: seq<int>, payload: seq<byte>, fd: int)
    requires Distinct(workers) && |payload| < Pow256(HEADER_LEN)
    ensures SentTo(BroadcastWrites(workers, payload), fd) == if fd in workers then Frame(payload) else []
  {
    if workers != [] {
      var init, w := workers[..|workers| - 1], workers[|workers| - 1];
      DistinctSplit(workers);
      BroadcastReachesEveryWorker(init, payload, fd);
      BroadcastStep(workers, payload, fd);
      InSplit(workers, fd);
      var prev := SentTo(BroadcastWrites(init, payload), fd);
      if fd == w {
        assert prev == [];
        assert prev + Frame(payload) == Frame(payload);
      } else {
        assert (fd in workers) == (fd in init);
        assert prev + [] == prev;
      }
    }
  }
}
