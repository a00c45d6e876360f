/** On a fixed common ring the owner of a key is never behind, so reads that are not redirected
    see the latest write. */
module LastWrite {
  import opened Strings
  import opened LwwStore
  import opened HashRing
  import opened RingChanges
  import opened Cluster
  import opened Quorum
  import opened Origins

  function OwnerOf(hash: Str -> Uint64, ring: seq<RingEntry>, k: Str): NodeId {
    Owner(ring, hash(k)).nodeId
  }

  /** Every key has an owner with an id; a node answers for a key whose owner has none. */
  ghost predicate Routed(hash: Str -> Uint64, ring: seq<RingEntry>) {
    forall k :: OwnerOf(hash, ring, k) != []
  }

  ghost predicate SameRing(s: Cluster, ring: seq<RingEntry>) {
    forall n :: n in s.nodes ==> s.nodes[n].ring.entries == ring
  }

  /** All nodes have the same ring, on which every key is routed. */
  ghost predicate CommonRing(hash: Str -> Uint64, s: Cluster, ring: seq<RingEntry>) {
    Routed(hash, ring) && SameRing(s, ring)
  }

  /** The steps of a run of server-driven commands during which no ring changes. */
  ghost predicate FixedRun(hash: Str -> Uint64, s: Cluster, steps: seq<Step>)
    requires Runnable(hash, s, steps)
    decreases |steps|
  {
    steps == [] ||
    (FixedStep(s, steps[0]) && FixedRun(hash, Next(hash, s, steps[0]), steps[1..]))
  }

  ghost predicate FixedStep(s: Cluster, step: Step) {
    ServerStep(s, step) && !step.Join? && !step.Leave?
  }

  /** The latest SET or DEL of the key in the run. */
  function Latest(log: seq<Event>, k: Str): Option<Entry> {
    if log == [] then None
    else
      var last := log[|log| - 1];
      if last.Wrote? && last.key == k then Some(last.entry) else Latest(log[..|log| - 1], k)
  }

  ghost predicate Reflects(tree: map<Str, Entry>, k: Str, write: Option<Entry>) {
    match write
    case Some(e) => k in tree && tree[k] == e
    case None => k !in tree
  }

  /** The owner of a key is at least as new as every copy of it anywhere. */
  ghost predicate Dominated(hash: Str -> Uint64, ring: seq<RingEntry>, s: Cluster) {
    forall k, e :: Occurs(s, k, e) ==> Holds(s, OwnerOf(hash, ring, k), k, e)
  }

  ghost predicate UpToDate(hash: Str -> Uint64, ring: seq<RingEntry>, s: Cluster) {
    forall k :: OwnerOf(hash, ring, k) in s.nodes ==>
      Reflects(s.nodes[OwnerOf(hash, ring, k)].store.tree, k, Latest(s.log, k))
  }

  ghost predicate Invariant(hash: Str -> Uint64, ring: seq<RingEntry>, s: Cluster) {
    Inv(hash, s) && CommonRing(hash, s, ring) && Dominated(hash, ring, s) && UpToDate(hash, ring, s)
  }

  // ----- the latest write in a log -----

  lemma {:induction false} LatestAppend(a: seq<Event>, b: seq<Event>, k: Str)
    ensures Latest(a + b, k) == if Latest(b, k).Some? then Latest(b, k) else Latest(a, k)
  {
    if b == [] {
      assert a + b == a;
    } else {
      LatestAppend(a, b[..|b| - 1], k);
      assert (a + b)[..|a + b| - 1] == a + b[..|b| - 1];
    }
  }

  lemma {:induction false} LatestOccurs(log: seq<Event>, k: Str)
    ensures Latest(log, k).Some? ==> exists n :: Wrote(n, k, Latest(log, k).value) in log
    ensures Latest(log, k).None? ==> forall n, e :: Wrote(n, k, e) !in log
  {
    if log != [] {
      var init, last := log[..|log| - 1], log[|log| - 1];
      LatestOccurs(init, k);
      assert log == init + [last];
      if last.Wrote? && last.key == k {
        assert Wrote(last.node, k, last.entry) in log;
      } else if Latest(init, k).Some? {
        var n :| Wrote(n, k, Latest(init, k).value) in init;
        assert Wrote(n, k, Latest(log, k).value) in log;
      }
    }
  }

  // ----- ownership -----

  /** A non-empty ring in which no node has the empty id routes every key. */
  lemma NamedRingRoutes(hash: Str -> Uint64, ring: seq<RingEntry>)
    requires ring != [] && [] !in IdsOf(ring)
    ensures Routed(hash, ring)
  {
    forall k ensures OwnerOf(hash, ring, k) != [] {
      ListIsWholeRing(ring, hash(k));
      var rs := ReplicaList(ring, hash(k));
      assert rs[0] in rs;
      assert rs[0].nodeId in ReplicaIds(rs);
    }
  }

  // ----- preservation -----

  lemma DominatedNext(hash: Str -> Uint64, ring: seq<RingEntry>, s: Cluster, step: Step, k: Str, x: Entry)
    requires Invariant(hash, ring, s) && Enabled(hash, s, step) && FixedStep(s, step)
    requires Occurs(Next(hash, s, step), k, x)
    ensures Holds(Next(hash, s, step), OwnerOf(hash, ring, k), k, x)
  {
    var t, me := Next(hash, s, step), Actor(step);
    assert NodeOk(hash, s, me, s.nodes[me]);
    OccursNext(hash, s, step, k, x);
    NextGrows(hash, s, step);
    if Occurs(s, k, x) {
      HoldsGrows(s, t, OwnerOf(hash, ring, k), k, x);
    } else {
      var n :| Wrote(n, k, x) in EffectOf(hash, s, step).events;
      WroteAtOwner(hash, s, step, n, k, x);
    }
  }

  /** At the owner, a step that does not write the key leaves the key alone. */
  lemma OwnerUntouched(hash: Str -> Uint64, ring: seq<RingEntry>, s: Cluster, step: Step, k: Str)
    requires Invariant(hash, ring, s) && Enabled(hash, s, step) && FixedStep(s, step)
    requires OwnerOf(hash, ring, k) == Actor(step)
    requires forall n, e :: Wrote(n, k, e) !in EffectOf(hash, s, step).events
    ensures var before, after := s.nodes[Actor(step)].store.tree, EffectOf(hash, s, step).node.store.tree;
            (k in before <==> k in after) && (k in before ==> before[k] == after[k])
  {
    var me := Actor(step);
    assert NodeOk(hash, s, me, s.nodes[me]);
    EffectAdvances(hash, s, step);
    var after := EffectOf(hash, s, step).node.store.tree;
    if k in after {
      StoreOrigin(hash, s, step, k);
      assert Holds(s, me, k, after[k]);
      AtLeastAntisymmetric(after[k], s.nodes[me].store.tree[k]);
    }
  }

  lemma UpToDateNext(hash: Str -> Uint64, ring: seq<RingEntry>, s: Cluster, step: Step, k: Str)
    requires Invariant(hash, ring, s) && Enabled(hash, s, step) && FixedStep(s, step)
    requires OwnerOf(hash, ring, k) in s.nodes
    ensures var t := Next(hash, s, step);
            Reflects(t.nodes[OwnerOf(hash, ring, k)].store.tree, k, Latest(t.log, k))
  {
    var me, events, o := Actor(step), EffectOf(hash, s, step).events, OwnerOf(hash, ring, k);
    assert NodeOk(hash, s, me, s.nodes[me]);
    LatestAppend(s.log, events, k);
    LatestOccurs(events, k);
    if Latest(events, k).Some? {
      var n :| Wrote(n, k, Latest(events, k).value) in events;
      WroteAtOwner(hash, s, step, n, k, Latest(events, k).value);
      assert o == me;
    } else if o == me {
      OwnerUntouched(hash, ring, s, step, k);
    }
  }

  lemma KeepsRing(hash: Str -> Uint64, ring: seq<RingEntry>, s: Cluster, step: Step)
    requires CommonRing(hash, s, ring) && Enabled(hash, s, step) && FixedStep(s, step)
    ensures CommonRing(hash, Next(hash, s, step), ring)
  {
    KeepsRouting(hash, s, step);
  }

  lemma NextKeepsInvariant(hash: Str -> Uint64, ring: seq<RingEntry>, s: Cluster, step: Step)
    requires Invariant(hash, ring, s) && Enabled(hash, s, step) && FixedStep(s, step)
    ensures Invariant(hash, ring, Next(hash, s, step))
  {
    var t := Next(hash, s, step);
    NextKeepsInv(hash, s, step);
    KeepsRing(hash, ring, s, step);
    forall k, x | Occurs(t, k, x) ensures Holds(t, OwnerOf(hash, ring, k), k, x) {
      DominatedNext(hash, ring, s, step, k, x);
    }
    forall k | OwnerOf(hash, ring, k) in t.nodes
      ensures Reflects(t.nodes[OwnerOf(hash, ring, k)].store.tree, k, Latest(t.log, k))
    {
      UpToDateNext(hash, ring, s, step, k);
    }
  }

  lemma {:induction false} RunKeepsInvariant(hash: Str -> Uint64, ring: seq<RingEntry>, s: Cluster, steps: seq<Step>)
    requires Invariant(hash, ring, s) && Runnable(hash, s, steps) && FixedRun(hash, s, steps)
    ensures Invariant(hash, ring, Run(hash, s, steps))
    decreases |steps|
  {
    if steps != [] {
      NextKeepsInvariant(hash, ring, s, steps[0]);
      RunKeepsInvariant(hash, ring, Next(hash, s, steps[0]), steps[1..]);
    }
  }

  lemma InitInvariant(hash: Str -> Uint64, ring: seq<RingEntry>, s: Cluster)
    requires Init(s) && CommonRing(hash, s, ring)
    ensures Invariant(hash, ring, s)
  {
    InitInv(hash, s);
    assert forall n :: n in s.nodes ==> Fresh(s.nodes[n]);
  }

  // ----- the theorems -----

  /** Owner dominance: at every point of the run the key's owner holds an entry at least as new
      as every copy in any store, in any packet ever sent and in any quorum write under way. */
  lemma OwnerDominance(hash: Str -> Uint64, ring: seq<RingEntry>, init: Cluster, steps: seq<Step>, k: Str, e: Entry)
    requires Init(init) && CommonRing(hash, init, ring)
    requires Runnable(hash, init, steps) && FixedRun(hash, init, steps)
    requires Occurs(Run(hash, init, steps), k, e)
    ensures Holds(Run(hash, init, steps), OwnerOf(hash, ring, k), k, e)
  {
    InitInvariant(hash, ring, init);
    RunKeepsInvariant(hash, ring, init, steps);
  }

  /** A GET at node `n` returns the effect of the latest SET or DEL executed for the key. */
  ghost predicate ReadsLatest(s: Cluster, n: NodeId, k: Str)
    requires n in s.nodes
  {
    Get(s.nodes[n].store, k) ==
    match Latest(s.log, k)
    case None => None
    case Some(e) => if e.deleted then None else Some((e.value, e.version))
  }

  /** Every GET that is not answered with MOVED returns the effect of the latest SET or DEL
      executed for the key anywhere in the run. */
  lemma ReadsSeeLatestWrite(hash: Str -> Uint64, ring: seq<RingEntry>, init: Cluster, steps: seq<Step>,
                            n: NodeId, k: Str)
    requires Init(init) && CommonRing(hash, init, ring)
    requires Runnable(hash, init, steps) && FixedRun(hash, init, steps)
    requires n in Run(hash, init, steps).nodes && !Moved(hash, Run(hash, init, steps).nodes[n], n, k)
    ensures ReadsLatest(Run(hash, init, steps), n, k)
  {
    InitInvariant(hash, ring, init);
    RunKeepsInvariant(hash, ring, init, steps);
    var s := Run(hash, init, steps);
    assert OwnerOf(hash, ring, k) == n;
    assert Reflects(s.nodes[n].store.tree, k, Latest(s.log, k));
  }

  // ----- keys without an owner -----

  /** A run on a common ring that ends in a read which is not redirected. */
  ghost predicate Unredirected(hash: Str -> Uint64, ring: seq<RingEntry>, init: Cluster, steps: seq<Step>,
                               n: NodeId, k: Str)
  {
    && Init(init) && SameRing(init, ring)
    && Runnable(hash, init, steps) && FixedRun(hash, init, steps)
    && n in Run(hash, init, steps).nodes && !Moved(hash, Run(hash, init, steps).nodes[n], n, k)
  }

  function Starting(ring: seq<RingEntry>): Node {
    Node(1, EMPTY, Ring(ring, {}, map[]), map[], map[], 0)
  }

  /** Two nodes that both write a key whose owner has the empty id. */
  lemma BothWrite(hash: Str -> Uint64, ring: seq<RingEntry>, k: Str, a: NodeId, b: NodeId, x: Str, y: Str)
    returns (init: Cluster, steps: seq<Step>)
    requires OwnerOf(hash, ring, k) == [] && a != b && x != y
    ensures Unredirected(hash, ring, init, steps, a, k) && !ReadsLatest(Run(hash, init, steps), a, k)
  {
    init := Cluster(map[a := Starting(ring), b := Starting(ring)], {}, map[], [], []);
    var first, second := ClientSet(a, k, x), ClientSet(b, k, y);
    steps := [first, second];
    assert Enabled(hash, init, first);
    var s := Next(hash, init, first);
    assert s.nodes[b] == Starting(ring);
    assert s.nodes[a].store.tree[k] == Entry(x, 1, a, false);
    assert Enabled(hash, s, second);
    var t := Next(hash, s, second);
    assert t.nodes[a] == s.nodes[a];
    assert t.log == [Wrote(a, k, Entry(x, 1, a, false)), Wrote(b, k, Entry(y, 1, b, false))];
    assert steps[1..] == [second] && [second][1..] == [];
    assert Runnable(hash, t, []) && FixedRun(hash, t, []);
    assert Runnable(hash, s, [second]) && FixedRun(hash, s, [second]) && Run(hash, s, [second]) == t;
    assert Run(hash, init, steps) == t;
  }

  /** Unredirected reads see the latest write in all runs on a common ring exactly when every key
      has an owner with a non-empty id; an empty ring routes no key. */
  lemma ReadsSeeLatestIff(hash: Str -> Uint64, ring: seq<RingEntry>)
    ensures (forall init, steps, n, k :: Unredirected(hash, ring, init, steps, n, k) ==>
               ReadsLatest(Run(hash, init, steps), n, k))
            <==> Routed(hash, ring)
    ensures ring == [] ==> !Routed(hash, ring)
  {
    if Routed(hash, ring) {
      forall init, steps, n, k | Unredirected(hash, ring, init, steps, n, k)
        ensures ReadsLatest(Run(hash, init, steps), n, k)
      {
        ReadsSeeLatestWrite(hash, ring, init, steps, n, k);
      }
    } else {
      var k :| OwnerOf(hash, ring, k) == [];
      var init, steps := BothWrite(hash, ring, k, [0], [1], [0], [1]);
    }
    assert ring == [] ==> OwnerOf(hash, ring, []) == [];
  }
}
