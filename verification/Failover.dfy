/** Durability across failover: a write acknowledged by all replicas survives the loss of fewer
    nodes than the replication factor, on the node that then owns the key. */
module Failover {
  import opened Strings
  import opened LwwStore
  import opened HashRing
  import opened Cluster
  import opened Quorum
  import opened Origins
  import opened LastWrite

  lemma SameSize(a: set<Str>, b: set<Str>)
    requires a <= b && |a| >= |b|
    ensures a == b
  {
    SubsetCount(b - a, b);
    assert |b| == |a| + |b - a| by {
      assert b == a + (b - a);
    }
    assert b - a == {};
  }

  /** With the write concern at the replication factor, an owner's successful write is held by
      exactly the key's replicas. */
  lemma AllReplicasHold(hash: Str -> Uint64, s: Cluster, c: Completion)
    requires Backed(hash, s, c)
    requires c.w >= c.rf >= 1 && c.ring != [] && Owner(c.ring, hash(c.key)).nodeId == c.writer
    ensures c.holders == ReplicaIds(Replicas(c.ring, hash(c.key), c.rf))
    ensures c.rf <= |IdsOf(c.ring)|
  {
    var rs := Replicas(c.ring, hash(c.key), c.rf);
    ReplicasShape(c.ring, hash(c.key), c.rf);
    DistinctIdsCount(rs);
    OthersOf(rs, c.writer);
    assert rs[0].nodeId == c.writer && rs[0] in rs;
    assert c.holders <= ReplicaIds(rs);
    SubsetCount(c.holders, ReplicaIds(rs));
    SameSize(c.holders, ReplicaIds(rs));
  }

  /** Failover durability. Suppose the owner's write returned nil with write concern at least the
      replication factor. Remove fewer than that many nodes from the ring it used, in any order.
      Then in every later state of the run the new owner is one of the old replicas, is not one
      of the removed nodes, and holds the acknowledged entry or a newer one; once its own ring
      has caught up it answers for the key instead of redirecting. */
  lemma FailoverDurability(hash: Str -> Uint64, init: Cluster, steps: seq<Step>, later: seq<Step>,
                           c: Completion, gone: seq<NodeId>)
    requires Init(init) && Runnable(hash, init, steps)
    requires Runnable(hash, Run(hash, init, steps), later)
    requires c in Run(hash, init, steps).done
    requires c.w >= c.rf && c.ring != [] && Owner(c.ring, hash(c.key)).nodeId == c.writer
    requires |Elements(gone)| < c.rf
    ensures var after := Run(hash, Run(hash, init, steps), later);
            var owner := Owner(RemoveAll(c.ring, gone), hash(c.key));
            && owner in Replicas(c.ring, hash(c.key), c.rf)
            && owner.nodeId !in Elements(gone)
            && Holds(after, owner.nodeId, c.key, c.entry)
            && (after.nodes[owner.nodeId].ring.entries == RemoveAll(c.ring, gone) ==>
                  !Moved(hash, after.nodes[owner.nodeId], owner.nodeId, c.key))
  {
    QuorumSafety(hash, init, steps, later, c);
    InitInv(hash, init);
    RunInv(hash, init, steps);
    AllReplicasHold(hash, Run(hash, init, steps), c);
    FailoverStaysInReplicas(c.ring, gone, hash(c.key), c.rf);
    var owner := Owner(RemoveAll(c.ring, gone), hash(c.key));
    assert owner.nodeId in c.holders;
  }

  // ----- on a common ring the writer is the owner -----

  /** Writes, quorum writes under way and completed ones are all at the owner, on the ring. */
  ghost predicate AtOwners(hash: Str -> Uint64, ring: seq<RingEntry>, s: Cluster) {
    && (forall n, k, e :: Wrote(n, k, e) in s.log ==> n == OwnerOf(hash, ring, k))
    && (forall n :: n in s.nodes ==> CallsAtOwner(hash, ring, n, s.nodes[n].calls))
    && (forall c :: c in s.done ==> c.writer == OwnerOf(hash, ring, c.key) && c.ring == ring)
  }

  ghost predicate CallsAtOwner(hash: Str -> Uint64, ring: seq<RingEntry>, n: NodeId, calls: map<nat, Call>) {
    forall call :: call in calls ==>
      n == OwnerOf(hash, ring, calls[call].key) && (!calls[call].phase.Applied? ==> calls[call].ring == ring)
  }

  /** A call under way keeps its key, and takes its ring from the node when it is routed. */
  lemma CallChange(hash: Str -> Uint64, s: Cluster, step: Step, call: nat)
    requires Enabled(hash, s, step) && call in EffectOf(hash, s, step).node.calls
    ensures var node, c := s.nodes[Actor(step)], EffectOf(hash, s, step).node.calls[call];
            if step.Begin? && call == step.call then c.key == step.key && c.phase.Applied?
            else
              && call in node.calls && c.key == node.calls[call].key
              && (c.phase.Applied? || c.ring == node.ring.entries ||
                  (!node.calls[call].phase.Applied? && c.ring == node.calls[call].ring))
  {
    if !OfCall(step) {
      OthersKeepCalls(hash, s, step);
    }
  }

  /** A completion comes from a fresh call or from one that has been waiting. */
  lemma CompletionSource(hash: Str -> Uint64, s: Cluster, step: Step, c: Completion)
    requires Enabled(hash, s, step) && c in EffectOf(hash, s, step).done
    ensures c.writer == Actor(step)
    ensures var node := s.nodes[Actor(step)];
            || (step.Begin? && c.key == step.key && c.ring == node.ring.entries)
            || (step.Count? && c.key == node.calls[step.call].key && c.ring == node.calls[step.call].ring)
  {
    if !OfCall(step) {
      OthersKeepCalls(hash, s, step);
    }
  }

  lemma CallStaysAtOwner(hash: Str -> Uint64, ring: seq<RingEntry>, s: Cluster, step: Step, call: nat)
    requires AtOwners(hash, ring, s) && CommonRing(hash, s, ring) && Enabled(hash, s, step) && FixedStep(s, step)
    requires call in EffectOf(hash, s, step).node.calls
    ensures var c := EffectOf(hash, s, step).node.calls[call];
            Actor(step) == OwnerOf(hash, ring, c.key) && (!c.phase.Applied? ==> c.ring == ring)
  {
    CallChange(hash, s, step, call);
    assert CallsAtOwner(hash, ring, Actor(step), s.nodes[Actor(step)].calls);
  }

  lemma CompletionsAtOwner(hash: Str -> Uint64, ring: seq<RingEntry>, s: Cluster, step: Step, c: Completion)
    requires AtOwners(hash, ring, s) && CommonRing(hash, s, ring) && Enabled(hash, s, step) && FixedStep(s, step)
    requires c in EffectOf(hash, s, step).done
    ensures c.writer == OwnerOf(hash, ring, c.key) && c.ring == ring
  {
    CompletionSource(hash, s, step, c);
    assert CallsAtOwner(hash, ring, Actor(step), s.nodes[Actor(step)].calls);
  }

  lemma WritesAtOwner(hash: Str -> Uint64, ring: seq<RingEntry>, s: Cluster, step: Step, n: NodeId, k: Str, e: Entry)
    requires CommonRing(hash, s, ring) && Enabled(hash, s, step) && Valid(s.nodes[Actor(step)].store)
    requires Wrote(n, k, e) in EffectOf(hash, s, step).events
    ensures n == OwnerOf(hash, ring, k)
  {
    WroteAtOwner(hash, s, step, n, k, e);
  }

  lemma NextAtOwners(hash: Str -> Uint64, ring: seq<RingEntry>, s: Cluster, step: Step)
    requires AtOwners(hash, ring, s) && CommonRing(hash, s, ring) && Inv(hash, s)
    requires Enabled(hash, s, step) && FixedStep(s, step)
    ensures AtOwners(hash, ring, Next(hash, s, step))
  {
    var t, me := Next(hash, s, step), Actor(step);
    assert NodeOk(hash, s, me, s.nodes[me]);
    forall n, k, x | Wrote(n, k, x) in t.log ensures n == OwnerOf(hash, ring, k) {
      if Wrote(n, k, x) !in s.log {
        WritesAtOwner(hash, ring, s, step, n, k, x);
      }
    }
    forall n | n in t.nodes ensures CallsAtOwner(hash, ring, n, t.nodes[n].calls) {
      if n == me {
        forall call | call in t.nodes[me].calls
          ensures me == OwnerOf(hash, ring, t.nodes[me].calls[call].key)
          ensures !t.nodes[me].calls[call].phase.Applied? ==> t.nodes[me].calls[call].ring == ring
        {
          CallStaysAtOwner(hash, ring, s, step, call);
        }
      } else {
        assert CallsAtOwner(hash, ring, n, s.nodes[n].calls);
      }
    }
    forall c | c in t.done ensures c.writer == OwnerOf(hash, ring, c.key) && c.ring == ring {
      if c !in s.done {
        CompletionsAtOwner(hash, ring, s, step, c);
      }
    }
  }

  lemma {:induction false} RunAtOwners(hash: Str -> Uint64, ring: seq<RingEntry>, s: Cluster, steps: seq<Step>)
    requires AtOwners(hash, ring, s) && CommonRing(hash, s, ring) && Inv(hash, s)
    requires Runnable(hash, s, steps) && FixedRun(hash, s, steps)
    ensures AtOwners(hash, ring, Run(hash, s, steps))
    decreases |steps|
  {
    if steps != [] {
      NextAtOwners(hash, ring, s, steps[0]);
      NextKeepsInv(hash, s, steps[0]);
      KeepsRing(hash, ring, s, steps[0]);
      RunAtOwners(hash, ring, Next(hash, s, steps[0]), steps[1..]);
    }
  }

  lemma InitAtOwners(hash: Str -> Uint64, ring: seq<RingEntry>, init: Cluster)
    requires Init(init)
    ensures AtOwners(hash, ring, init)
  {
    assert forall n :: n in init.nodes ==> Fresh(init.nodes[n]);
  }

  /** The same for a cluster that starts empty on a common ring and serves clients on it: every
      write acknowledged with write concern at least the replication factor survives the removal
      of fewer nodes than that, whatever happens afterwards. */
  lemma CommonRingFailover(hash: Str -> Uint64, ring: seq<RingEntry>, init: Cluster, steps: seq<Step>, later: seq<Step>,
                           c: Completion, gone: seq<NodeId>)
    requires Init(init) && CommonRing(hash, init, ring)
    requires Runnable(hash, init, steps) && FixedRun(hash, init, steps)
    requires Runnable(hash, Run(hash, init, steps), later)
    requires c in Run(hash, init, steps).done && c.w >= c.rf && |Elements(gone)| < c.rf
    ensures var after := Run(hash, Run(hash, init, steps), later);
            var owner := Owner(RemoveAll(ring, gone), hash(c.key));
            && owner in Replicas(ring, hash(c.key), c.rf)
            && owner.nodeId !in Elements(gone)
            && Holds(after, owner.nodeId, c.key, c.entry)
  {
    InitInv(hash, init);
    InitAtOwners(hash, ring, init);
    RunAtOwners(hash, ring, init, steps);
    assert ring != [] by { assert OwnerOf(hash, ring, c.key) != []; }
    FailoverDurability(hash, init, steps, later, c, gone);
  }
}
