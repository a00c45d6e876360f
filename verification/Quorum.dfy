/** Quorum safety: in every run, a quorum write that reported success is held by as many nodes
    as it promised, from then on. */
module Quorum {
  import opened Strings
  import opened LwwStore
  import opened HashRing
  import opened Cluster

  /** Node `n` stores `e` for `key`, or something newer. */
  ghost predicate Holds(s: Cluster, n: NodeId, key: Str, e: Entry) {
    && n in s.nodes
    && key in s.nodes[n].store.tree
    && AtLeast(s.nodes[n].store.tree[key], e)
  }

  /** No store moves backwards and no request id changes its meaning. */
  ghost predicate Grows(s: Cluster, t: Cluster) {
    && s.nodes.Keys == t.nodes.Keys
    && (forall n :: n in s.nodes ==> Advances(s.nodes[n].store, t.nodes[n].store))
    && (forall id :: id in s.requests ==> id in t.requests && t.requests[id] == s.requests[id])
  }

  lemma HoldsGrows(s: Cluster, t: Cluster, n: NodeId, key: Str, e: Entry)
    requires Grows(s, t) && Holds(s, n, key, e)
    ensures Holds(t, n, key, e)
  {
    AtLeastTransitive(t.nodes[n].store.tree[key], s.nodes[n].store.tree[key], e);
  }

  // ----- the invariant -----

  /** A request carries what its id stands for; a positive answer comes from a holder. */
  ghost predicate PacketOk(s: Cluster, p: Packet) {
    match p.msg
    case ReplicateRequest(id, sender, xs) =>
      id in s.requests && sender == s.requests[id].sender && xs == [Keyed(s.requests[id].key, s.requests[id].entry)]
    case ReplicateResponse(id, from, success) =>
      success ==> id in s.requests && Holds(s, from, s.requests[id].key, s.requests[id].entry)
    case EntryBatch(_) => true
  }

  ghost predicate ChannelOk(s: Cluster, id: nat, ch: Channel) {
    && id in s.requests
    && forall a :: a in ch.queue && a.ok ==> Holds(s, a.node, s.requests[id].key, s.requests[id].entry)
  }

  ghost predicate CallOk(hash: Str -> Uint64, s: Cluster, n: NodeId, rf: int, c: Call) {
    var remote := Remotes(hash, c.ring, rf, n, c.key);
    && c.w > 1
    && Holds(s, n, c.key, c.entry)
    && (forall x :: x in c.expected ==> x in remote)
    && match c.phase
       case Applied => c.expected == {}
       case Sending(id, remaining) =>
         && id in s.requests && s.requests[id] == Request(n, c.key, c.entry)
         && c.w <= |remote| + 1
         && (forall x :: x in remaining ==> x in remote)
       case Waiting(id, acked) =>
         && id in s.requests && s.requests[id] == Request(n, c.key, c.entry)
         && c.w <= |remote| + 1
         && acked <= c.expected
         && (forall x :: x in acked ==> Holds(s, x, c.key, c.entry))
  }

  /** The promise of a successful quorum write. */
  ghost predicate Backed(hash: Str -> Uint64, s: Cluster, c: Completion) {
    var remote := Remotes(hash, c.ring, c.rf, c.writer, c.key);
    && c.writer in c.holders
    && |c.holders| >= 1 && |c.holders| >= c.w
    && (forall h :: h in c.holders ==> Holds(s, h, c.key, c.entry))
    && (forall h :: h in c.holders && h != c.writer ==> h in remote)
    && (c.w > 1 ==> c.w <= |remote| + 1)
  }

  ghost predicate CallsOk(hash: Str -> Uint64, s: Cluster, n: NodeId, rf: int, calls: map<nat, Call>) {
    forall call :: call in calls ==> CallOk(hash, s, n, rf, calls[call])
  }

  ghost predicate ChannelsOk(s: Cluster, pending: map<nat, Channel>) {
    forall id :: id in pending ==> ChannelOk(s, id, pending[id])
  }

  ghost predicate NodeOk(hash: Str -> Uint64, s: Cluster, n: NodeId, node: Node) {
    && Valid(node.store)
    && CallsOk(hash, s, n, node.rf, node.calls)
    && ChannelsOk(s, node.pending)
  }

  ghost predicate Inv(hash: Str -> Uint64, s: Cluster) {
    && (forall n :: n in s.nodes ==> NodeOk(hash, s, n, s.nodes[n]))
    && (forall p :: p in s.sent ==> PacketOk(s, p))
    && (forall c :: c in s.done ==> Backed(hash, s, c))
  }

  // ----- what growth preserves -----

  lemma PacketOkGrows(s: Cluster, t: Cluster, p: Packet)
    requires Grows(s, t) && PacketOk(s, p)
    ensures PacketOk(t, p)
  {
    match p.msg
    case ReplicateResponse(id, from, success) =>
      if success {
        HoldsGrows(s, t, from, s.requests[id].key, s.requests[id].entry);
      }
    case _ =>
  }

  lemma ChannelOkGrows(s: Cluster, t: Cluster, id: nat, ch: Channel)
    requires Grows(s, t) && ChannelOk(s, id, ch)
    ensures ChannelOk(t, id, ch)
  {
    forall a | a in ch.queue && a.ok ensures Holds(t, a.node, t.requests[id].key, t.requests[id].entry) {
      HoldsGrows(s, t, a.node, s.requests[id].key, s.requests[id].entry);
    }
  }

  lemma CallOkGrows(hash: Str -> Uint64, s: Cluster, t: Cluster, n: NodeId, rf: int, c: Call)
    requires Grows(s, t) && CallOk(hash, s, n, rf, c)
    ensures CallOk(hash, t, n, rf, c)
  {
    HoldsGrows(s, t, n, c.key, c.entry);
    if c.phase.Waiting? {
      forall x | x in c.phase.acked ensures Holds(t, x, c.key, c.entry) {
        HoldsGrows(s, t, x, c.key, c.entry);
      }
    }
  }

  lemma BackedGrows(hash: Str -> Uint64, s: Cluster, t: Cluster, c: Completion)
    requires Grows(s, t) && Backed(hash, s, c)
    ensures Backed(hash, t, c)
  {
    forall h | h in c.holders ensures Holds(t, h, c.key, c.entry) {
      HoldsGrows(s, t, h, c.key, c.entry);
    }
  }

  lemma NodeOkGrows(hash: Str -> Uint64, s: Cluster, t: Cluster, n: NodeId, node: Node)
    requires Grows(s, t) && NodeOk(hash, s, n, node)
    ensures NodeOk(hash, t, n, node)
  {
    forall call | call in node.calls ensures CallOk(hash, t, n, node.rf, node.calls[call]) {
      CallOkGrows(hash, s, t, n, node.rf, node.calls[call]);
    }
    forall id | id in node.pending ensures ChannelOk(t, id, node.pending[id]) {
      ChannelOkGrows(s, t, id, node.pending[id]);
    }
  }

  // ----- every step grows the cluster -----

  /** The steps that write to the acting node's store. */
  predicate Writes(step: Step) {
    step.ClientSet? || step.ClientDel? || step.Begin? || step.Deliver?
  }

  lemma OthersKeepStore(hash: Str -> Uint64, s: Cluster, step: Step)
    requires Enabled(hash, s, step) && !Writes(step)
    ensures var e, node := EffectOf(hash, s, step), s.nodes[Actor(step)];
            e.node.store == node.store && e.node.rf == node.rf && e.events == []
  {
  }

  /** The store stays valid and no key moves back. */
  ghost predicate StoreAdvances(before: Node, after: Node) {
    Valid(after.store) && Advances(before.store, after.store) && after.rf == before.rf
  }

  lemma SetAdvances(node: Node, me: NodeId, key: Str, value: Str)
    requires Valid(node.store) && node.store.clock < MAX_INT64
    ensures StoreAdvances(node, SetEffect(node, me, key, value).node)
  {
    ApplyAdvances(node.store, OpSet(key, value, me));
  }

  lemma DelAdvances(node: Node, me: NodeId, keys: seq<Str>)
    requires Valid(node.store) && node.store.clock + |Elements(keys)| <= MAX_INT64
    ensures StoreAdvances(node, DelEffect(node, me, keys).node)
  {
    ApplyAdvances(node.store, OpDel(me, keys));
  }

  lemma BeginAdvances(node: Node, me: NodeId, call: nat, key: Str, entry: Entry, w: int)
    requires Valid(node.store)
    ensures StoreAdvances(node, BeginEffect(node, me, call, key, entry, w).node)
  {
    ApplyAdvances(node.store, OpMerge(Keyed(key, entry)));
  }

  lemma DeliverAdvances(hash: Str -> Uint64, node: Node, me: NodeId, msg: Message)
    requires Valid(node.store)
    ensures StoreAdvances(node, DeliverEffect(hash, node, me, msg).node)
  {
    match msg
    case EntryBatch(xs) => MergeAllAdvances(node.store, Accepted(hash, node, me, xs));
    case ReplicateRequest(_, _, xs) => MergeAllAdvances(node.store, Served(hash, node, me, xs));
    case ReplicateResponse(_, _, _) => AdvancesReflexive(node.store);
  }

  lemma OthersAdvance(hash: Str -> Uint64, s: Cluster, step: Step)
    requires Enabled(hash, s, step) && !Writes(step) && Valid(s.nodes[Actor(step)].store)
    ensures StoreAdvances(s.nodes[Actor(step)], EffectOf(hash, s, step).node)
  {
    OthersKeepStore(hash, s, step);
    AdvancesReflexive(s.nodes[Actor(step)].store);
  }

  lemma EffectAdvances(hash: Str -> Uint64, s: Cluster, step: Step)
    requires Enabled(hash, s, step) && Valid(s.nodes[Actor(step)].store)
    ensures StoreAdvances(s.nodes[Actor(step)], EffectOf(hash, s, step).node)
  {
    var node := s.nodes[Actor(step)];
    match step
    case ClientSet(n, key, value) => SetAdvances(node, n, key, value);
    case ClientDel(n, keys) => DelAdvances(node, n, keys);
    case Begin(n, call, key, entry, w) => BeginAdvances(node, n, call, key, entry, w);
    case Deliver(packet) => DeliverAdvances(hash, node, packet.to, packet.msg);
    case _ => OthersAdvance(hash, s, step);
  }

  lemma CommitGrows(s: Cluster, n: NodeId, e: Effect)
    requires n in s.nodes && Advances(s.nodes[n].store, e.node.store)
    requires forall id :: id in e.requests ==> id !in s.requests
    ensures Grows(s, Commit(s, n, e))
  {
    forall m | m in s.nodes ensures Advances(s.nodes[m].store, Commit(s, n, e).nodes[m].store) {
      AdvancesReflexive(s.nodes[m].store);
    }
  }

  lemma NextGrows(hash: Str -> Uint64, s: Cluster, step: Step)
    requires Enabled(hash, s, step) && forall n :: n in s.nodes ==> Valid(s.nodes[n].store)
    ensures Grows(s, Next(hash, s, step))
  {
    EffectAdvances(hash, s, step);
    FreshIds(hash, s, step);
    CommitGrows(s, Actor(step), EffectOf(hash, s, step));
  }

  lemma FreshIds(hash: Str -> Uint64, s: Cluster, step: Step)
    requires Enabled(hash, s, step)
    ensures forall id :: id in EffectOf(hash, s, step).requests ==> id !in s.requests
  {
    match step
    case Route(_, _, _) =>
    case _ =>
  }

  // ----- every step keeps the invariant -----

  /** What the acting node has to show for the new state `t`. */
  ghost predicate EffectOk(hash: Str -> Uint64, t: Cluster, n: NodeId, e: Effect) {
    && CallsOk(hash, t, n, e.node.rf, e.node.calls)
    && ChannelsOk(t, e.node.pending)
    && (forall p :: p in e.out ==> PacketOk(t, p))
    && (forall c :: c in e.done ==> Backed(hash, t, c))
  }

  /** The acting node's earlier calls and channels, judged in the new state. */
  ghost predicate WasOk(hash: Str -> Uint64, t: Cluster, me: NodeId, node: Node) {
    CallsOk(hash, t, me, node.rf, node.calls) && ChannelsOk(t, node.pending)
  }

  lemma {:induction false} OthersOf(rs: seq<Replica>, me: NodeId)
    ensures forall x :: x in Others(rs, me) <==> x != me && x in ReplicaIds(rs)
  {
    if rs != [] {
      OthersOf(rs[1..], me);
      ReplicaIdsCons(rs);
    }
  }

  lemma BeginOk(hash: Str -> Uint64, t: Cluster, me: NodeId, node: Node, call: nat, key: Str, entry: Entry, w: int)
    requires WasOk(hash, t, me, node) && Valid(node.store)
    requires me in t.nodes && t.nodes[me] == BeginEffect(node, me, call, key, entry, w).node
    ensures EffectOk(hash, t, me, BeginEffect(node, me, call, key, entry, w))
  {
    assert Holds(t, me, key, entry) by { SetWithVersionJoins(node.store, key, entry); }
  }

  lemma RouteOk(hash: Str -> Uint64, t: Cluster, me: NodeId, node: Node, call: nat, id: nat)
    requires WasOk(hash, t, me, node) && call in node.calls && node.calls[call].phase.Applied?
    requires var r := RouteEffect(hash, node, me, call, id).requests;
             forall i :: i in r ==> i in t.requests && t.requests[i] == r[i]
    ensures EffectOk(hash, t, me, RouteEffect(hash, node, me, call, id))
  {
    assert CallOk(hash, t, me, node.rf, node.calls[call]);
  }

  lemma SendOk(hash: Str -> Uint64, t: Cluster, me: NodeId, node: Node, call: nat, ok: bool)
    requires WasOk(hash, t, me, node) && call in node.calls
    requires node.calls[call].phase.Sending? && node.calls[call].phase.remaining != []
    ensures EffectOk(hash, t, me, SendEffect(node, me, call, ok))
  {
    var c := node.calls[call];
    assert CallOk(hash, t, me, node.rf, c);
    assert c.phase.remaining[0] in c.phase.remaining;
    assert forall x :: x in c.phase.remaining[1..] ==> x in c.phase.remaining;
  }

  lemma StartWaitOk(hash: Str -> Uint64, t: Cluster, me: NodeId, node: Node, call: nat)
    requires WasOk(hash, t, me, node) && call in node.calls && node.calls[call].phase.Sending?
    ensures EffectOk(hash, t, me, StartWaitEffect(node, call))
  {
    assert CallOk(hash, t, me, node.rf, node.calls[call]);
  }

  lemma AckedHold(t: Cluster, c: Call, id: nat, ch: Channel)
    requires c.phase.Waiting? && c.phase.acked <= c.expected && ch.queue != []
    requires id in t.requests && t.requests[id].key == c.key && t.requests[id].entry == c.entry
    requires ChannelOk(t, id, ch) && forall x :: x in c.phase.acked ==> Holds(t, x, c.key, c.entry)
    ensures var acked := CountAck(c.expected, c.phase.acked, ch.queue[0]);
            acked <= c.expected && forall x :: x in acked ==> Holds(t, x, c.key, c.entry)
    ensures ChannelOk(t, id, ch.(queue := ch.queue[1..]))
  {
    assert ch.queue[0] in ch.queue;
    assert forall a :: a in ch.queue[1..] ==> a in ch.queue;
  }

  lemma CountOk(hash: Str -> Uint64, t: Cluster, me: NodeId, node: Node, call: nat)
    requires WasOk(hash, t, me, node) && call in node.calls && node.calls[call].phase.Waiting?
    requires node.calls[call].phase.id in node.pending && node.pending[node.calls[call].phase.id].queue != []
    ensures EffectOk(hash, t, me, CountEffect(node, me, call))
  {
    var c := node.calls[call];
    var ch := node.pending[c.phase.id];
    assert CallOk(hash, t, me, node.rf, c);
    assert ChannelOk(t, c.phase.id, ch);
    AckedHold(t, c, c.phase.id, ch);
    var acked := CountAck(c.expected, c.phase.acked, ch.queue[0]);
    if 1 + |acked| >= c.w {
      CompletionBacked(hash, t, me, node.rf, c, acked);
    } else {
      assert CallOk(hash, t, me, node.rf, c.(phase := Waiting(c.phase.id, acked)));
    }
  }

  lemma CompletionBacked(hash: Str -> Uint64, t: Cluster, me: NodeId, rf: int, c: Call, acked: set<NodeId>)
    requires CallOk(hash, t, me, rf, c) && c.phase.Waiting? && acked <= c.expected
    requires 1 + |acked| >= c.w && forall x :: x in acked ==> Holds(t, x, c.key, c.entry)
    ensures Backed(hash, t, Completion(me, c.key, c.entry, c.w, acked + {me}, c.ring, rf))
  {
    OthersOf(Replicas(c.ring, hash(c.key), rf), me);
    assert me !in acked;
    assert |acked + {me}| == |acked| + 1;
  }

  lemma ResponseOk(hash: Str -> Uint64, t: Cluster, me: NodeId, node: Node, id: nat, from: NodeId, success: bool)
    requires WasOk(hash, t, me, node) && PacketOk(t, Packet(me, ReplicateResponse(id, from, success)))
    ensures EffectOk(hash, t, me, ResponseEffect(node, id, from, success))
  {
    if id in node.pending {
      assert ChannelOk(t, id, node.pending[id]);
    }
  }

  lemma RequestOk(hash: Str -> Uint64, t: Cluster, me: NodeId, node: Node, id: nat, sender: NodeId, xs: seq<Keyed>)
    requires WasOk(hash, t, me, node) && PacketOk(t, Packet(me, ReplicateRequest(id, sender, xs)))
    requires Valid(node.store)
    requires me in t.nodes && t.nodes[me] == RequestEffect(hash, node, me, id, sender, xs).node
    ensures EffectOk(hash, t, me, RequestEffect(hash, node, me, id, sender, xs))
  {
    var served := Served(hash, node, me, xs);
    MergeAllAdvances(node.store, served);
    if |served| == |xs| {
      assert served[0] == xs[0] && xs[0] in served;
      assert Holds(t, me, t.requests[id].key, t.requests[id].entry);
    }
  }

  lemma DeliverOk(hash: Str -> Uint64, t: Cluster, me: NodeId, node: Node, msg: Message)
    requires WasOk(hash, t, me, node) && PacketOk(t, Packet(me, msg)) && Valid(node.store)
    requires me in t.nodes && t.nodes[me] == DeliverEffect(hash, node, me, msg).node
    ensures EffectOk(hash, t, me, DeliverEffect(hash, node, me, msg))
  {
    match msg
    case EntryBatch(xs) =>
    case ReplicateResponse(id, from, success) => ResponseOk(hash, t, me, node, id, from, success);
    case ReplicateRequest(id, sender, xs) => RequestOk(hash, t, me, node, id, sender, xs);
  }

  lemma EffectIsOk(hash: Str -> Uint64, s: Cluster, step: Step, t: Cluster)
    requires Enabled(hash, s, step) && t == Next(hash, s, step)
    requires WasOk(hash, t, Actor(step), s.nodes[Actor(step)]) && Valid(s.nodes[Actor(step)].store)
    requires step.Deliver? ==> PacketOk(t, step.packet)
    ensures EffectOk(hash, t, Actor(step), EffectOf(hash, s, step))
  {
    var me := Actor(step);
    var node := s.nodes[me];
    match step
    case Begin(_, call, key, entry, w) => BeginOk(hash, t, me, node, call, key, entry, w);
    case Route(_, call, id) => RouteOk(hash, t, me, node, call, id);
    case Send(_, call, ok) => SendOk(hash, t, me, node, call, ok);
    case StartWait(_, call) => StartWaitOk(hash, t, me, node, call);
    case Count(_, call) => CountOk(hash, t, me, node, call);
    case Deliver(packet) => DeliverOk(hash, t, me, node, packet.msg);
    case _ => OtherOk(hash, s, step, t);
  }

  /** The remaining steps only drop calls and channels and send nothing but snapshots. */
  lemma OtherOk(hash: Str -> Uint64, s: Cluster, step: Step, t: Cluster)
    requires Enabled(hash, s, step) && WasOk(hash, t, Actor(step), s.nodes[Actor(step)])
    requires !step.Begin? && !step.Route? && !step.Send? && !step.StartWait? && !step.Count? && !step.Deliver?
    ensures EffectOk(hash, t, Actor(step), EffectOf(hash, s, step))
  {
  }

  lemma CommitKeepsInv(hash: Str -> Uint64, s: Cluster, n: NodeId, e: Effect)
    requires Inv(hash, s) && n in s.nodes && Grows(s, Commit(s, n, e))
    requires Valid(e.node.store) && EffectOk(hash, Commit(s, n, e), n, e)
    ensures Inv(hash, Commit(s, n, e))
  {
    var t := Commit(s, n, e);
    forall m | m in t.nodes ensures NodeOk(hash, t, m, t.nodes[m]) {
      if m != n {
        NodeOkGrows(hash, s, t, m, s.nodes[m]);
      }
    }
    forall p | p in t.sent ensures PacketOk(t, p) {
      if p in s.sent {
        PacketOkGrows(s, t, p);
      }
    }
    forall c | c in t.done ensures Backed(hash, t, c) {
      if c in s.done {
        BackedGrows(hash, s, t, c);
      }
    }
  }

  lemma NextKeepsInv(hash: Str -> Uint64, s: Cluster, step: Step)
    requires Inv(hash, s) && Enabled(hash, s, step)
    ensures Inv(hash, Next(hash, s, step))
  {
    var t, n := Next(hash, s, step), Actor(step);
    NextGrows(hash, s, step);
    EffectAdvances(hash, s, step);
    assert EffectOk(hash, t, n, EffectOf(hash, s, step)) by {
      NodeOkGrows(hash, s, t, n, s.nodes[n]);
      if step.Deliver? {
        PacketOkGrows(s, t, step.packet);
      }
      EffectIsOk(hash, s, step, t);
    }
    CommitKeepsInv(hash, s, n, EffectOf(hash, s, step));
  }

  // ----- whole runs -----

  lemma InitInv(hash: Str -> Uint64, s: Cluster)
    requires Init(s)
    ensures Inv(hash, s)
  {
    assert forall n :: n in s.nodes ==> Fresh(s.nodes[n]) && Valid(EMPTY);
  }

  lemma GrowsReflexive(s: Cluster)
    ensures Grows(s, s)
  {
    forall n | n in s.nodes ensures Advances(s.nodes[n].store, s.nodes[n].store) {
      AdvancesReflexive(s.nodes[n].store);
    }
  }

  lemma GrowsTransitive(r: Cluster, s: Cluster, t: Cluster)
    requires Grows(r, s) && Grows(s, t)
    ensures Grows(r, t)
  {
    forall n | n in r.nodes ensures Advances(r.nodes[n].store, t.nodes[n].store) {
      AdvancesTransitive(r.nodes[n].store, s.nodes[n].store, t.nodes[n].store);
    }
  }

  lemma {:induction false} RunInv(hash: Str -> Uint64, s: Cluster, steps: seq<Step>)
    requires Inv(hash, s) && Runnable(hash, s, steps)
    ensures Inv(hash, Run(hash, s, steps))
    decreases |steps|
  {
    if steps != [] {
      NextKeepsInv(hash, s, steps[0]);
      RunInv(hash, Next(hash, s, steps[0]), steps[1..]);
    }
  }

  lemma {:induction false} RunKeepsDone(hash: Str -> Uint64, s: Cluster, steps: seq<Step>, c: Completion)
    requires Runnable(hash, s, steps) && c in s.done
    ensures c in Run(hash, s, steps).done
    decreases |steps|
  {
    if steps != [] {
      RunKeepsDone(hash, Next(hash, s, steps[0]), steps[1..], c);
    }
  }

  /** Quorum safety. Take any run, with any losses, duplications and reorderings and with rings
      that differ and change. If a quorum write with write concern `w` has returned nil by some
      point, then at that point and at every later one at least max(1, w) distinct nodes, the
      writer among them, hold the written entry or a newer one. */
  lemma QuorumSafety(hash: Str -> Uint64, init: Cluster, steps: seq<Step>, later: seq<Step>, c: Completion)
    requires Init(init) && Runnable(hash, init, steps)
    requires Runnable(hash, Run(hash, init, steps), later)
    requires c in Run(hash, init, steps).done
    ensures var now := Run(hash, init, steps);
            var after := Run(hash, now, later);
            && c.writer in c.holders
            && |c.holders| >= (if c.w > 1 then c.w else 1)
            && (forall h :: h in c.holders ==> Holds(now, h, c.key, c.entry))
            && (forall h :: h in c.holders ==> Holds(after, h, c.key, c.entry))
  {
    InitInv(hash, init);
    RunInv(hash, init, steps);
    var now := Run(hash, init, steps);
    RunInv(hash, now, later);
    RunKeepsDone(hash, now, later, c);
    assert Backed(hash, now, c) && Backed(hash, Run(hash, now, later), c);
  }
}
