/**
 * The bounded result relay of the live barcode demo: a FIFO of at most four
 * reference-counted `CDecodedBarcodesResult` handles, filled by the SDK's
 * result callback and drained one handle per rendered frame.
 *
 * Each push and each pop is one atomic step (the source holds one mutex for
 * the whole step). The state logs, in call order, every handle the relay has
 * called `Retain` on and every handle it has called `Release` on; the number
 * of times a handle occurs in a log is its retain (release) count.
 */
module Relay {
  import opened Wrappers

  /** An SDK result object, identified by its address. */
  type Handle = nat

  /** `MAX_QUEUE_SIZE`. */
  const MaxQueueSize: nat := 4

  /** Queue contents (front first) and the logs of `Retain` and `Release` calls. */
  datatype RelayState = RelayState(queue: seq<Handle>, retains: seq<Handle>, releases: seq<Handle>)

  /** The relay at program start: empty queue, no reference operations. */
  const Empty: RelayState := RelayState([], [], [])

  /**
   * Reference balance: for every handle, the retains not yet matched by a release
   * are exactly its occurrences in the queue. So a resident handle is never
   * released too early, and a handle that has left the queue is not leaked.
   */
  predicate Balanced(s: RelayState)
  {
    multiset(s.retains) == multiset(s.releases) + multiset(s.queue)
  }

  /** The relay's invariant: bounded and balanced. */
  predicate Valid(s: RelayState)
  {
    |s.queue| <= MaxQueueSize && Balanced(s)
  }

  /**
   * `OnDecodedBarcodesReceived`: retain the new handle; if the queue is full, pop
   * the front and release it; then append the new handle at the back.
   */
  function Push(s: RelayState, h: Handle): (r: RelayState)
    ensures |s.queue| <= MaxQueueSize ==> |r.queue| <= MaxQueueSize
    ensures |s.queue| == MaxQueueSize ==>
              r.queue == s.queue[1..] + [h] && r.releases == s.releases + [s.queue[0]]
    ensures |s.queue| != MaxQueueSize ==> r.queue == s.queue + [h] && r.releases == s.releases
    ensures r.retains == s.retains + [h]
  {
    var retains := s.retains + [h];
    if |s.queue| == MaxQueueSize then
      var oldest := s.queue[0];
      RelayState(s.queue[1..] + [h], retains, s.releases + [oldest])
    else
      RelayState(s.queue + [h], retains, s.releases)
  }

  /** What one render-loop poll takes out of the relay. */
  datatype PopResult = PopResult(state: RelayState, popped: Option<Handle>)

  /**
   * The render loop's poll: if the queue is non-empty, take the front handle,
   * read its items, and release it once. An empty queue is left as it is.
   */
  function Pop(s: RelayState): (r: PopResult)
    ensures s.queue == [] ==> r.state == s && r.popped == None
    ensures s.queue != [] ==>
              && r.popped == Some(s.queue[0])
              && r.state.queue == s.queue[1..]
              && r.state.retains == s.retains
              && r.state.releases == s.releases + [s.queue[0]]
  {
    if s.queue == [] then PopResult(s, None)
    else
      var front := s.queue[0];
      PopResult(RelayState(s.queue[1..], s.retains, s.releases + [front]), Some(front))
  }

  /** The empty relay satisfies the invariant. */
  lemma EmptyValid()
    ensures Valid(Empty)
  {
  }

  /** A push keeps the relay bounded and balanced. */
  lemma PushValid(s: RelayState, h: Handle)
    requires Valid(s)
    ensures Valid(Push(s, h))
  {
    if |s.queue| == MaxQueueSize {
      assert s.queue == [s.queue[0]] + s.queue[1..];
    }
  }

  /** A poll keeps the relay bounded and balanced. */
  lemma PopValid(s: RelayState)
    requires Valid(s)
    ensures Valid(Pop(s).state)
  {
    if s.queue != [] {
      assert s.queue == [s.queue[0]] + s.queue[1..];
    }
  }

  /** Pushing a list of handles one after the other, oldest first. */
  function PushAll(s: RelayState, hs: seq<Handle>): RelayState
    decreases |hs|
  {
    if hs == [] then s else Push(PushAll(s, hs[..|hs| - 1]), hs[|hs| - 1])
  }

  /** How many of `n` pushes into an empty relay stay resident: min(n, 4). */
  function Resident(n: nat): nat
  {
    if n < MaxQueueSize then n else MaxQueueSize
  }

  /**
   * From an empty relay, any sequence of pushes leaves exactly the last
   * min(n, 4) handles, in push order; every pushed handle was retained once per
   * push, in push order; and the releases are exactly the evicted handles (the
   * oldest n - min(n, 4)), each once, in eviction order.
   */
  lemma {:induction false} PushAllFromEmpty(hs: seq<Handle>)
    ensures var s := PushAll(Empty, hs);
            var cut := |hs| - Resident(|hs|);
            && s.queue == hs[cut..]
            && s.retains == hs
            && s.releases == hs[..cut]
    decreases |hs|
  {
    if hs != [] {
      var init := hs[..|hs| - 1];
      PushAllFromEmpty(init);
      assert hs == init + [hs[|hs| - 1]];
      PushStep(PushAll(Empty, init), init, hs[|hs| - 1]);
    }
  }

  /** One push extends the "last min(n, 4) resident, the rest released" shape by one handle. */
  lemma PushStep(p: RelayState, hs: seq<Handle>, h: Handle)
    requires var cut := |hs| - Resident(|hs|);
      p.queue == hs[cut..] && p.retains == hs && p.releases == hs[..cut]
    ensures var all := hs + [h];
      var cut := |all| - Resident(|all|);
      var s := Push(p, h);
      s.queue == all[cut..] && s.retains == all && s.releases == all[..cut]
  {
    var all := hs + [h];
    var cut0 := |hs| - Resident(|hs|);
    if |hs| >= MaxQueueSize {
      assert p.queue[0] == all[cut0];
      assert all[..cut0 + 1] == hs[..cut0] + [all[cut0]];
      assert p.queue[1..] + [h] == all[cut0 + 1..];
    } else {
      assert p.queue + [h] == all[0..];
      assert all[..0] == hs[..0];
    }
  }

  /** Pushing keeps the length bound: after n pushes from empty there are min(n, 4) handles. */
  lemma PushAllLength(hs: seq<Handle>)
    ensures |PushAll(Empty, hs).queue| == Resident(|hs|)
    ensures |PushAll(Empty, hs).queue| <= MaxQueueSize
  {
    PushAllFromEmpty(hs);
  }

  /**
   * Six pushes into an empty relay leave handles 3, 4, 5, 6 in order, and
   * exactly handles 1 and 2 were released, once each, in that order.
   */
  lemma SixPushes()
    ensures var s := PushAll(Empty, [1, 2, 3, 4, 5, 6]);
            && s.queue == [3, 4, 5, 6]
            && s.releases == [1, 2]
            && s.retains == [1, 2, 3, 4, 5, 6]
  {
    var hs: seq<Handle> := [1, 2, 3, 4, 5, 6];
    PushAllFromEmpty(hs);
    assert hs[..2] == [1, 2];
    assert hs[2..] == [3, 4, 5, 6];
  }

  /** `n` successive polls: the final state and the handles returned, in order. */
  function PopN(s: RelayState, n: nat): (RelayState, seq<Handle>)
    decreases n
  {
    if n == 0 then (s, [])
    else
      var p := Pop(s);
      var rest := PopN(p.state, n - 1);
      (rest.0, (if p.popped.Some? then [p.popped.value] else []) + rest.1)
  }

  /**
   * Polling as many times as there are handles returns the queue contents front
   * first, empties the queue, and releases exactly those handles in that order.
   */
  lemma PopNReturnsQueue(s: RelayState)
    ensures PopN(s, |s.queue|).1 == s.queue
    ensures PopN(s, |s.queue|).0.queue == []
    ensures PopN(s, |s.queue|).0.retains == s.retains
    ensures PopN(s, |s.queue|).0.releases == s.releases + s.queue
  {
    PopNOutput(s);
    PopNReleases(s);
  }

  /** Draining hands out the queue front first and leaves it empty. */
  lemma {:induction false} PopNOutput(s: RelayState)
    ensures PopN(s, |s.queue|).1 == s.queue
    ensures PopN(s, |s.queue|).0.queue == []
    decreases |s.queue|
  {
    if s.queue != [] {
      PopNOutput(Pop(s).state);
      assert s.queue == [s.queue[0]] + s.queue[1..];
    }
  }

  /** Draining releases each queued handle once, front first, and retains nothing. */
  lemma {:induction false} PopNReleases(s: RelayState)
    ensures PopN(s, |s.queue|).0.retains == s.retains
    ensures PopN(s, |s.queue|).0.releases == s.releases + s.queue
    decreases |s.queue|
  {
    if s.queue != [] {
      var q := s.queue;
      PopNReleases(Pop(s).state);
      assert s.releases + q == (s.releases + [q[0]]) + q[1..];
    }
  }

  /**
   * Order preservation: at most four handles pushed into an empty relay are
   * handed to the consumer in push order, and once they are all consumed every
   * handle has been retained and released equally often.
   */
  lemma FifoOrder(hs: seq<Handle>)
    requires |hs| <= MaxQueueSize
    ensures PopN(PushAll(Empty, hs), |hs|).1 == hs
    ensures multiset(PopN(PushAll(Empty, hs), |hs|).0.retains)
         == multiset(PopN(PushAll(Empty, hs), |hs|).0.releases)
  {
    PushAllFromEmpty(hs);
    assert hs[0..] == hs;
    assert hs[..0] == [];
    PopNReturnsQueue(PushAll(Empty, hs));
  }

  /** Any sequence of pushes from empty yields a valid relay. */
  lemma {:induction false} PushAllValid(hs: seq<Handle>)
    ensures Valid(PushAll(Empty, hs))
    decreases |hs|
  {
    if hs != [] {
      PushAllValid(hs[..|hs| - 1]);
      PushValid(PushAll(Empty, hs[..|hs| - 1]), hs[|hs| - 1]);
    }
  }

  /**
   * Reference balance for distinct handles: a resident handle has exactly one
   * outstanding retain; a handle that was evicted or polled has none.
   */
  lemma DistinctBalance(s: RelayState, h: Handle)
    requires Valid(s)
    requires forall i, j :: 0 <= i < j < |s.queue| ==> s.queue[i] != s.queue[j]
    ensures h in s.queue ==> multiset(s.retains)[h] == multiset(s.releases)[h] + 1
    ensures h !in s.queue ==> multiset(s.retains)[h] == multiset(s.releases)[h]
  {
    if h in s.queue {
      var i :| 0 <= i < |s.queue| && s.queue[i] == h;
      OccursOnce(s.queue, i);
    }
  }

  /** In a queue without repeats, each resident handle occurs once. */
  lemma OccursOnce(q: seq<Handle>, i: nat)
    requires i < |q|
    requires forall j, k :: 0 <= j < k < |q| ==> q[j] != q[k]
    ensures multiset(q)[q[i]] == 1
  {
    var h := q[i];
    var a, b := q[..i], q[i + 1..];
    assert q == a + [h] + b;
    forall j | 0 <= j < |a| ensures a[j] != h {
      assert a[j] == q[j];
    }
    forall j | 0 <= j < |b| ensures b[j] != h {
      assert b[j] == q[i + 1 + j];
    }
    assert h !in a && h !in b;
  }
}
