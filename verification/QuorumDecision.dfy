/** The protocol's small steps of one quorum write, taken one after the other, decide exactly as
    the write concern demands: the safety results are not bought by refusing writes. */
module QuorumDecision {
  import opened Strings
  import opened HashRing
  import opened Cluster
  import opened Gossip

  /** All turns of the sending loop; sends to `failed` nodes report an error. */
  function SendAll(node: Node, me: NodeId, call: nat, failed: set<NodeId>): Node
    requires call in node.calls && node.calls[call].phase.Sending?
    decreases |node.calls[call].phase.remaining|
  {
    var remaining := node.calls[call].phase.remaining;
    if remaining == [] then node
    else SendAll(SendEffect(node, me, call, remaining[0] !in failed).node, me, call, failed)
  }

  /** All turns of the waiting loop, until the write completes or the channel is empty. */
  function Drain(node: Node, me: NodeId, call: nat): Option<Completion>
    requires call in node.calls && node.calls[call].phase.Waiting? && node.calls[call].phase.id in node.pending
    decreases |node.pending[node.calls[call].phase.id].queue|
  {
    if node.pending[node.calls[call].phase.id].queue == [] then None
    else
      var e := CountEffect(node, me, call);
      if e.done != [] then Some(e.done[0]) else Drain(e.node, me, call)
  }

  /** While a write waits, acknowledgements arrive and the waiting loop takes its turns. */
  datatype Turn = Arrive(ack: Ack) | Take

  /** One schedule of arrivals and turns; at its end the loop takes what is left. An arrival is
      the protocol's response step, which drops it when the channel is full. */
  function Play(node: Node, me: NodeId, call: nat, turns: seq<Turn>): Option<Completion>
    requires call in node.calls && node.calls[call].phase.Waiting? && node.calls[call].phase.id in node.pending
    decreases |turns|
  {
    if turns == [] then Drain(node, me, call)
    else
      var id := node.calls[call].phase.id;
      match turns[0]
      case Arrive(a) => Play(ResponseEffect(node, id, a.node, a.ok).node, me, call, turns[1..])
      case Take =>
        if node.pending[id].queue == [] then Play(node, me, call, turns[1..])
        else
          var e := CountEffect(node, me, call);
          if e.done != [] then Some(e.done[0]) else Play(e.node, me, call, turns[1..])
  }

  /** An answer that arrives while the sends are under way waits in the channel: receiving it
      commutes with every send and with starting to wait. So `Decide` lets all answers come after. */
  lemma ArrivalsCommute(node: Node, me: NodeId, call: nat, ok: bool, id: nat, a: Ack)
    requires call in node.calls && node.calls[call].phase.Sending?
    ensures var received := ResponseEffect(node, id, a.node, a.ok).node;
            && call in received.calls && received.calls[call] == node.calls[call]
            && (node.calls[call].phase.remaining != [] ==>
                  SendEffect(received, me, call, ok).node ==
                  ResponseEffect(SendEffect(node, me, call, ok).node, id, a.node, a.ok).node)
            && (|node.calls[call].expected| + 1 >= node.calls[call].w ==>
                  StartWaitEffect(received, call).node ==
                  ResponseEffect(StartWaitEffect(node, call).node, id, a.node, a.ok).node)
  {
  }

  /** One quorum write from routing to its end, with nothing else happening on the node. */
  function Decide(hash: Str -> Uint64, node: Node, me: NodeId, call: nat, id: nat, failed: set<NodeId>,
                  turns: seq<Turn>): Option<Completion>
    requires call in node.calls && node.calls[call].phase.Applied?
  {
    var routed := RouteEffect(hash, node, me, call, id).node;
    if call !in routed.calls then None
    else
      SendAllEnds(routed, me, call, failed);
      var sent := SendAll(routed, me, call, failed);
      var waiting := StartWaitEffect(sent, call).node;
      if call !in waiting.calls then None
      else Play(waiting, me, call, turns)
  }

  function Arrivals(turns: seq<Turn>): seq<Ack> {
    if turns == [] then []
    else (if turns[0].Arrive? then [turns[0].ack] else []) + Arrivals(turns[1..])
  }

  /** The acknowledgements that find room in a channel of the given capacity in which `waiting`
      are already queued. */
  function Heard(capacity: nat, waiting: nat, turns: seq<Turn>): seq<Ack>
    decreases |turns|
  {
    if turns == [] then []
    else
      match turns[0]
      case Arrive(a) =>
        if waiting < capacity then [a] + Heard(capacity, waiting + 1, turns[1..])
        else Heard(capacity, waiting, turns[1..])
      case Take => Heard(capacity, if waiting == 0 then 0 else waiting - 1, turns[1..])
  }

  lemma {:induction false} SendAllEnds(node: Node, me: NodeId, call: nat, failed: set<NodeId>)
    requires call in node.calls && node.calls[call].phase.Sending?
    ensures var c := node.calls[call];
            SendAll(node, me, call, failed) == node.(calls := node.calls[call := c.(
              phase := Sending(c.phase.id, []),
              expected := c.expected + Reached(c.phase.remaining, failed))])
    decreases |node.calls[call].phase.remaining|
  {
    var c := node.calls[call];
    var remaining := c.phase.remaining;
    if remaining == [] {
      assert c.expected + Reached(remaining, failed) == c.expected;
      assert node.calls[call := c] == node.calls;
    } else {
      var next := SendEffect(node, me, call, remaining[0] !in failed).node;
      SendAllEnds(next, me, call, failed);
      var d := next.calls[call];
      assert remaining == [remaining[0]] + remaining[1..];
      assert d.expected + Reached(d.phase.remaining, failed) == c.expected + Reached(remaining, failed);
      assert next.calls[call := c] == node.calls[call := c];
    }
  }

  // ----- the waiting loop on plain values -----

  function Counts(expected: set<NodeId>, w: int, acked: set<NodeId>, queue: seq<Ack>): bool
    decreases |queue|
  {
    queue != [] &&
    var next := CountAck(expected, acked, queue[0]);
    (1 + |next| >= w || Counts(expected, w, next, queue[1..]))
  }

  function Tallies(expected: set<NodeId>, w: int, acked: set<NodeId>, capacity: nat, queue: seq<Ack>,
                   turns: seq<Turn>): bool
    decreases |turns|
  {
    if turns == [] then Counts(expected, w, acked, queue)
    else
      match turns[0]
      case Arrive(a) =>
        Tallies(expected, w, acked, capacity, if |queue| < capacity then queue + [a] else queue, turns[1..])
      case Take =>
        if queue == [] then Tallies(expected, w, acked, capacity, queue, turns[1..])
        else
          var next := CountAck(expected, acked, queue[0]);
          1 + |next| >= w || Tallies(expected, w, next, capacity, queue[1..], turns[1..])
  }

  lemma {:induction false} DrainCounts(node: Node, me: NodeId, call: nat)
    requires call in node.calls && node.calls[call].phase.Waiting? && node.calls[call].phase.id in node.pending
    ensures var c := node.calls[call];
            Drain(node, me, call).Some? <==> Counts(c.expected, c.w, c.phase.acked, node.pending[c.phase.id].queue)
    decreases |node.pending[node.calls[call].phase.id].queue|
  {
    var c := node.calls[call];
    if node.pending[c.phase.id].queue != [] && CountEffect(node, me, call).done == [] {
      DrainCounts(CountEffect(node, me, call).node, me, call);
    }
  }

  lemma {:induction false} PlayTallies(node: Node, me: NodeId, call: nat, turns: seq<Turn>)
    requires call in node.calls && node.calls[call].phase.Waiting? && node.calls[call].phase.id in node.pending
    ensures var c := node.calls[call];
            var ch := node.pending[c.phase.id];
            Play(node, me, call, turns).Some? <==>
            Tallies(c.expected, c.w, c.phase.acked, ch.capacity, ch.queue, turns)
    decreases |turns|
  {
    var id := node.calls[call].phase.id;
    if turns == [] {
      DrainCounts(node, me, call);
    } else if turns[0].Arrive? {
      PlayTallies(ResponseEffect(node, id, turns[0].ack.node, turns[0].ack.ok).node, me, call, turns[1..]);
    } else if node.pending[id].queue == [] {
      PlayTallies(node, me, call, turns[1..]);
    } else if CountEffect(node, me, call).done == [] {
      PlayTallies(CountEffect(node, me, call).node, me, call, turns[1..]);
    }
  }

  /** Everyone counted once all of `acks` are taken. */
  function Gather(expected: set<NodeId>, acked: set<NodeId>, acks: seq<Ack>): set<NodeId>
    decreases |acks|
  {
    if acks == [] then acked else Gather(expected, CountAck(expected, acked, acks[0]), acks[1..])
  }

  lemma {:induction false} GatherGrows(expected: set<NodeId>, acked: set<NodeId>, acks: seq<Ack>)
    ensures |acked| <= |Gather(expected, acked, acks)|
    decreases |acks|
  {
    if acks != [] {
      var next := CountAck(expected, acked, acks[0]);
      SubsetCount(acked, next);
      GatherGrows(expected, next, acks[1..]);
    }
  }

  lemma {:induction false} GatherIsAckers(expected: set<NodeId>, acked: set<NodeId>, acks: seq<Ack>)
    ensures Gather(expected, acked, acks) == acked + Ackers(expected, acks)
    decreases |acks|
  {
    if acks == [] {
      assert Ackers(expected, acks) == {};
    } else {
      GatherIsAckers(expected, CountAck(expected, acked, acks[0]), acks[1..]);
      assert acks == [acks[0]] + acks[1..];
    }
  }

  lemma {:induction false} CountsExact(expected: set<NodeId>, w: int, acked: set<NodeId>, queue: seq<Ack>)
    requires 1 + |acked| < w
    ensures Counts(expected, w, acked, queue) <==> 1 + |Gather(expected, acked, queue)| >= w
    decreases |queue|
  {
    if queue != [] {
      var next := CountAck(expected, acked, queue[0]);
      if 1 + |next| >= w {
        GatherGrows(expected, next, queue[1..]);
      } else {
        CountsExact(expected, w, next, queue[1..]);
      }
    }
  }

  lemma TakeOne(expected: set<NodeId>, acked: set<NodeId>, queue: seq<Ack>, rest: seq<Ack>)
    requires queue != []
    ensures var next := CountAck(expected, acked, queue[0]);
            && Gather(expected, acked, queue + rest) == Gather(expected, next, queue[1..] + rest)
            && |next| <= |Gather(expected, acked, queue + rest)|
  {
    assert (queue + rest)[0] == queue[0] && (queue + rest)[1..] == queue[1..] + rest;
    GatherGrows(expected, CountAck(expected, acked, queue[0]), queue[1..] + rest);
  }

  lemma {:induction false} TalliesExact(expected: set<NodeId>, w: int, acked: set<NodeId>, capacity: nat,
                                        queue: seq<Ack>, turns: seq<Turn>)
    requires 1 + |acked| < w
    ensures Tallies(expected, w, acked, capacity, queue, turns) <==>
            1 + |Gather(expected, acked, queue + Heard(capacity, |queue|, turns))| >= w
    decreases |turns|
  {
    if turns == [] {
      CountsExact(expected, w, acked, queue);
      assert queue + [] == queue;
    } else if turns[0].Arrive? {
      var a := turns[0].ack;
      TalliesExact(expected, w, acked, capacity, if |queue| < capacity then queue + [a] else queue, turns[1..]);
      Associative(queue, [a], Heard(capacity, |queue| + 1, turns[1..]));
    } else if queue == [] {
      TalliesExact(expected, w, acked, capacity, queue, turns[1..]);
    } else {
      var next := CountAck(expected, acked, queue[0]);
      TakeOne(expected, acked, queue, Heard(capacity, |queue| - 1, turns[1..]));
      if 1 + |next| < w {
        TalliesExact(expected, w, next, capacity, queue[1..], turns[1..]);
      }
    }
  }

  /** Run by itself, a quorum write of the protocol completes under a schedule exactly when its
      write concern can be met: enough replicas on the ring, enough sends without error, and
      enough distinct expected nodes among the acknowledgements that found room in the channel. */
  lemma DecidesExactly(hash: Str -> Uint64, node: Node, me: NodeId, call: nat, id: nat, failed: set<NodeId>,
                       turns: seq<Turn>)
    requires call in node.calls && node.calls[call].phase.Applied? && node.calls[call].expected == {}
    requires node.calls[call].w > 1
    ensures var remote := Remotes(hash, node.ring.entries, node.rf, me, node.calls[call].key);
            Decide(hash, node, me, call, id, failed, turns).Some? <==>
            QuorumMet(remote, node.calls[call].w, failed, Heard(|remote|, 0, turns))
  {
    var c := node.calls[call];
    var remote := Remotes(hash, node.ring.entries, node.rf, me, c.key);
    if c.w <= |remote| + 1 {
      var routed := RouteEffect(hash, node, me, call, id).node;
      SendAllEnds(routed, me, call, failed);
      var sent := SendAll(routed, me, call, failed);
      var expected := Reached(remote, failed);
      assert sent.calls[call].expected == expected;
      if c.w <= |expected| + 1 {
        WaitExact(sent, me, call, expected, turns);
      }
    }
  }

  lemma WaitExact(sent: Node, me: NodeId, call: nat, expected: set<NodeId>, turns: seq<Turn>)
    requires call in sent.calls && sent.calls[call].phase.Sending? && sent.calls[call].phase.id in sent.pending
    requires sent.calls[call].expected == expected && 1 < sent.calls[call].w <= |expected| + 1
    requires sent.pending[sent.calls[call].phase.id].queue == []
    ensures var ch := sent.pending[sent.calls[call].phase.id];
            Play(StartWaitEffect(sent, call).node, me, call, turns).Some? <==>
            sent.calls[call].w <= 1 + |Ackers(expected, Heard(ch.capacity, 0, turns))|
  {
    var ch := sent.pending[sent.calls[call].phase.id];
    PlayTallies(StartWaitEffect(sent, call).node, me, call, turns);
    TalliesExact(expected, sent.calls[call].w, {}, ch.capacity, [], turns);
    var heard := Heard(ch.capacity, 0, turns);
    assert [] + heard == heard;
    GatherIsAckers(expected, {}, heard);
    assert {} + Ackers(expected, heard) == Ackers(expected, heard);
  }

  // ----- which acknowledgements are heard -----

  function First(n: nat, acks: seq<Ack>): seq<Ack> {
    if |acks| <= n then acks else acks[..n]
  }

  /** All arrive before the loop takes its first turn. */
  function AtOnce(acks: seq<Ack>): seq<Turn> {
    if acks == [] then [] else [Arrive(acks[0])] + AtOnce(acks[1..])
  }

  /** Each is taken before the next arrives. */
  function OneByOne(acks: seq<Ack>): seq<Turn> {
    if acks == [] then [] else [Arrive(acks[0]), Take] + OneByOne(acks[1..])
  }

  lemma {:induction false} HeardAmong(capacity: nat, waiting: nat, turns: seq<Turn>)
    ensures forall a :: a in Heard(capacity, waiting, turns) ==> a in Arrivals(turns)
    decreases |turns|
  {
    if turns != [] {
      var next :=
        if turns[0].Take? then (if waiting == 0 then 0 else waiting - 1)
        else if waiting < capacity then waiting + 1 else waiting;
      HeardAmong(capacity, next, turns[1..]);
    }
  }

  /** Whatever the schedule, as many arrivals as there is room for are heard. */
  lemma {:induction false} FirstAreHeard(capacity: nat, waiting: nat, turns: seq<Turn>)
    requires waiting <= capacity
    ensures First(capacity - waiting, Arrivals(turns)) <= Heard(capacity, waiting, turns)
    decreases |turns|
  {
    if turns != [] {
      var rest := Arrivals(turns[1..]);
      match turns[0]
      case Arrive(a) =>
        if waiting < capacity {
          FirstAreHeard(capacity, waiting + 1, turns[1..]);
          FirstCons(capacity - waiting, a, rest);
        }
      case Take =>
        var next := if waiting == 0 then 0 else waiting - 1;
        FirstAreHeard(capacity, next, turns[1..]);
        FirstGrows(capacity - waiting, capacity - next, rest);
        assert [] + rest == rest;
    }
  }

  lemma FirstCons(n: nat, a: Ack, rest: seq<Ack>)
    requires n > 0
    ensures First(n, [a] + rest) == [a] + First(n - 1, rest)
  {
  }

  lemma FirstGrows(m: nat, n: nat, acks: seq<Ack>)
    requires m <= n
    ensures First(m, acks) <= First(n, acks)
  {
  }

  lemma Cons<T>(x: T, xs: seq<T>)
    ensures ([x] + xs)[0] == x && ([x] + xs)[1..] == xs
  {
  }

  lemma {:induction false} AtOnceArrive(acks: seq<Ack>)
    ensures Arrivals(AtOnce(acks)) == acks
  {
    if acks != [] {
      AtOnceArrive(acks[1..]);
      Cons(Arrive(acks[0]), AtOnce(acks[1..]));
    }
  }

  lemma {:induction false} AtOnceHeard(capacity: nat, waiting: nat, acks: seq<Ack>)
    requires waiting <= capacity
    ensures Heard(capacity, waiting, AtOnce(acks)) == First(capacity - waiting, acks)
    decreases |acks|
  {
    if acks != [] {
      Cons(Arrive(acks[0]), AtOnce(acks[1..]));
      if waiting < capacity {
        AtOnceHeard(capacity, waiting + 1, acks[1..]);
        FirstCons(capacity - waiting, acks[0], acks[1..]);
        assert acks == [acks[0]] + acks[1..];
      } else {
        AtOnceHeard(capacity, waiting, acks[1..]);
      }
    }
  }

  lemma TwoTurns(a: Ack, turns: seq<Turn>)
    ensures Arrivals([Arrive(a), Take] + turns) == [a] + Arrivals(turns)
    ensures forall capacity: nat :: capacity > 0 ==>
              Heard(capacity, 0, [Arrive(a), Take] + turns) == [a] + Heard(capacity, 0, turns)
  {
    var all := [Arrive(a), Take] + turns;
    assert all[1..] == [Take] + turns;
    Cons(Take, turns);
    assert Arrivals([Take] + turns) == [] + Arrivals(turns);
  }

  lemma {:induction false} OneByOneHeard(capacity: nat, acks: seq<Ack>)
    requires capacity > 0
    ensures Heard(capacity, 0, OneByOne(acks)) == acks && Arrivals(OneByOne(acks)) == acks
  {
    if acks != [] {
      OneByOneHeard(capacity, acks[1..]);
      TwoTurns(acks[0], OneByOne(acks[1..]));
    }
  }

  /** More acknowledgements never hurt. */
  lemma MoreIsMet(remote: seq<NodeId>, w: int, failed: set<NodeId>, few: seq<Ack>, many: seq<Ack>)
    requires QuorumMet(remote, w, failed, few) && forall a :: a in few ==> a in many
    ensures QuorumMet(remote, w, failed, many)
  {
    var expected := Reached(remote, failed);
    SubsetCount(Ackers(expected, few), Ackers(expected, many));
  }

  /** The write completes under every schedule of the given arrivals exactly when its concern is
      met by the first of them, as many as there are remote replicas. */
  lemma CompletesAlwaysIff(hash: Str -> Uint64, node: Node, me: NodeId, call: nat, id: nat, failed: set<NodeId>,
                           acks: seq<Ack>)
    requires call in node.calls && node.calls[call].phase.Applied? && node.calls[call].expected == {}
    requires node.calls[call].w > 1
    ensures var remote := Remotes(hash, node.ring.entries, node.rf, me, node.calls[call].key);
            (forall turns :: Arrivals(turns) == acks ==> Decide(hash, node, me, call, id, failed, turns).Some?)
            <==> QuorumMet(remote, node.calls[call].w, failed, First(|remote|, acks))
  {
    var w, remote := node.calls[call].w, Remotes(hash, node.ring.entries, node.rf, me, node.calls[call].key);
    if QuorumMet(remote, w, failed, First(|remote|, acks)) {
      forall turns | Arrivals(turns) == acks ensures Decide(hash, node, me, call, id, failed, turns).Some? {
        FirstAreHeard(|remote|, 0, turns);
        MoreIsMet(remote, w, failed, First(|remote|, acks), Heard(|remote|, 0, turns));
        DecidesExactly(hash, node, me, call, id, failed, turns);
      }
    } else {
      AtOnceHeard(|remote|, 0, acks);
      AtOnceArrive(acks);
      DecidesExactly(hash, node, me, call, id, failed, AtOnce(acks));
    }
  }

  /** It completes under some schedule exactly when all of them together meet its concern. */
  lemma CompletesSometimesIff(hash: Str -> Uint64, node: Node, me: NodeId, call: nat, id: nat, failed: set<NodeId>,
                              acks: seq<Ack>)
    requires call in node.calls && node.calls[call].phase.Applied? && node.calls[call].expected == {}
    requires node.calls[call].w > 1
    ensures var remote := Remotes(hash, node.ring.entries, node.rf, me, node.calls[call].key);
            (exists turns :: Arrivals(turns) == acks && Decide(hash, node, me, call, id, failed, turns).Some?)
            <==> QuorumMet(remote, node.calls[call].w, failed, acks)
  {
    var w, remote := node.calls[call].w, Remotes(hash, node.ring.entries, node.rf, me, node.calls[call].key);
    if QuorumMet(remote, w, failed, acks) {
      OneByOneHeard(|remote|, acks);
      DecidesExactly(hash, node, me, call, id, failed, OneByOne(acks));
    }
    forall turns | Arrivals(turns) == acks && Decide(hash, node, me, call, id, failed, turns).Some?
      ensures QuorumMet(remote, w, failed, acks)
    {
      DecidesExactly(hash, node, me, call, id, failed, turns);
      HeardAmong(|remote|, 0, turns);
      MoreIsMet(remote, w, failed, Heard(|remote|, 0, turns), acks);
    }
  }

  predicate AnswersOnce(remote: seq<NodeId>, acks: seq<Ack>) {
    && (forall a :: a in acks ==> a.node in remote)
    && (forall i, j :: 0 <= i < j < |acks| ==> acks[i].node != acks[j].node)
  }

  lemma {:induction false} AnswersFit(remote: seq<NodeId>, acks: seq<Ack>)
    requires AnswersOnce(remote, acks)
    ensures |acks| <= |remote|
  {
    var nodes := seq(|acks|, i requires 0 <= i < |acks| => acks[i].node);
    assert AllDifferent(nodes);
    MemberCount(nodes);
    forall x | x in Elements(nodes) ensures x in Elements(remote) {
      var i :| 0 <= i < |nodes| && nodes[i] == x;
      assert acks[i] in acks;
    }
    SubsetCount(Elements(nodes), Elements(remote));
    ElementsCount(remote);
  }

  /** When only the remote replicas answer and none answers twice, nothing is dropped: every
      schedule completes the write exactly when the answers meet its concern. */
  lemma NothingDropped(hash: Str -> Uint64, node: Node, me: NodeId, call: nat, id: nat, failed: set<NodeId>,
                       turns: seq<Turn>)
    requires call in node.calls && node.calls[call].phase.Applied? && node.calls[call].expected == {}
    requires node.calls[call].w > 1
    requires AnswersOnce(Remotes(hash, node.ring.entries, node.rf, me, node.calls[call].key), Arrivals(turns))
    ensures Decide(hash, node, me, call, id, failed, turns).Some? <==>
            QuorumMet(Remotes(hash, node.ring.entries, node.rf, me, node.calls[call].key),
                      node.calls[call].w, failed, Arrivals(turns))
  {
    var remote := Remotes(hash, node.ring.entries, node.rf, me, node.calls[call].key);
    AnswersFit(remote, Arrivals(turns));
    FirstAreHeard(|remote|, 0, turns);
    HeardNoLonger(|remote|, 0, turns);
    assert Heard(|remote|, 0, turns) == Arrivals(turns);
    DecidesExactly(hash, node, me, call, id, failed, turns);
  }

  lemma {:induction false} HeardNoLonger(capacity: nat, waiting: nat, turns: seq<Turn>)
    ensures |Heard(capacity, waiting, turns)| <= |Arrivals(turns)|
    decreases |turns|
  {
    if turns != [] {
      var next :=
        if turns[0].Take? then (if waiting == 0 then 0 else waiting - 1)
        else if waiting < capacity then waiting + 1 else waiting;
      HeardNoLonger(capacity, next, turns[1..]);
    }
  }

  /** A repeated answer can crowd out another one: with two remote replicas b and c and write
      concern 3, the answers b, b, c complete the write if they are taken one by one and do not
      if they arrive together. */
  lemma DuplicateCrowdsOut(hash: Str -> Uint64, node: Node, me: NodeId, call: nat, id: nat, b: NodeId, c: NodeId)
    requires call in node.calls && node.calls[call].phase.Applied? && node.calls[call].expected == {}
    requires node.calls[call].w == 3 && b != c
    requires Remotes(hash, node.ring.entries, node.rf, me, node.calls[call].key) == [b, c]
    ensures var acks := [Ack(b, true), Ack(b, true), Ack(c, true)];
            && QuorumMet([b, c], 3, {}, acks)
            && Decide(hash, node, me, call, id, {}, AtOnce(acks)).None?
            && Decide(hash, node, me, call, id, {}, OneByOne(acks)).Some?
  {
    var acks := [Ack(b, true), Ack(b, true), Ack(c, true)];
    CrowdedOut(b, c);
    assert Decide(hash, node, me, call, id, {}, AtOnce(acks)).None? by {
      AtOnceHeard(2, 0, acks);
      DecidesExactly(hash, node, me, call, id, {}, AtOnce(acks));
    }
    assert Decide(hash, node, me, call, id, {}, OneByOne(acks)).Some? by {
      OneByOneHeard(2, acks);
      DecidesExactly(hash, node, me, call, id, {}, OneByOne(acks));
    }
  }

  lemma CrowdedOut(b: NodeId, c: NodeId)
    requires b != c
    ensures var acks := [Ack(b, true), Ack(b, true), Ack(c, true)];
            QuorumMet([b, c], 3, {}, acks) && !QuorumMet([b, c], 3, {}, First(2, acks))
  {
    var acks := [Ack(b, true), Ack(b, true), Ack(c, true)];
    assert Reached([b, c], {}) == {b, c};
    assert Ackers({b, c}, acks) == {b, c} by { assert acks[0] in acks && acks[2] in acks; }
    assert Ackers({b, c}, First(2, acks)) == {b} by { assert First(2, acks) == [acks[0], acks[1]]; }
  }
}
