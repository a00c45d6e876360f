/** Entries do not appear out of thin air: whatever a step leaves anywhere in the cluster was
    there before or is a write that the step itself performed. */
module Origins {
  import opened Strings
  import opened LwwStore
  import opened Cluster
  import opened Quorum

  function EntriesOf(msg: Message): seq<Keyed> {
    match msg
    case EntryBatch(xs) => xs
    case ReplicateRequest(_, _, xs) => xs
    case ReplicateResponse(_, _, _) => []
  }

  ghost predicate Stored(s: Cluster, n: NodeId, k: Str, e: Entry) {
    n in s.nodes && k in s.nodes[n].store.tree && s.nodes[n].store.tree[k] == e
  }

  ghost predicate InFlight(s: Cluster, p: Packet, k: Str, e: Entry) {
    p in s.sent && Keyed(k, e) in EntriesOf(p.msg)
  }

  ghost predicate InCall(s: Cluster, n: NodeId, call: nat, k: Str, e: Entry) {
    && n in s.nodes && call in s.nodes[n].calls
    && s.nodes[n].calls[call].key == k && s.nodes[n].calls[call].entry == e
  }

  /** The entry is in some store, some packet or some quorum write under way, or was written. */
  ghost predicate Occurs(s: Cluster, k: Str, e: Entry) {
    || (exists n :: Stored(s, n, k, e))
    || (exists p :: InFlight(s, p, k, e))
    || (exists n, call :: InCall(s, n, call, k, e))
    || (exists n :: Wrote(n, k, e) in s.log)
  }

  /** Quorum writes are started by the server, for entries it has just written. */
  ghost predicate ServerStep(s: Cluster, step: Step) {
    step.Begin? ==> Wrote(step.n, step.key, step.entry) in s.log
  }

  lemma KeepsRouting(hash: Str -> Uint64, s: Cluster, step: Step)
    requires Enabled(hash, s, step) && !step.Join? && !step.Leave?
    ensures EffectOf(hash, s, step).node.ring == s.nodes[Actor(step)].ring
    ensures EffectOf(hash, s, step).node.rf == s.nodes[Actor(step)].rf
  {
  }

  lemma {:induction false} AcceptedAmong(hash: Str -> Uint64, node: Node, me: NodeId, xs: seq<Keyed>)
    ensures forall x :: x in Accepted(hash, node, me, xs) <==> x in xs && IsReplica(hash, node, me, x.key)
  {
    if xs != [] {
      AcceptedAmong(hash, node, me, xs[..|xs| - 1]);
      assert xs == xs[..|xs| - 1] + [xs[|xs| - 1]];
    }
  }

  lemma {:induction false} ServedAmong(hash: Str -> Uint64, node: Node, me: NodeId, xs: seq<Keyed>)
    ensures forall x :: x in Served(hash, node, me, xs) ==> x in xs
  {
    if xs != [] {
      ServedAmong(hash, node, me, xs[1..]);
    }
  }

  lemma {:induction false} TombstoneWritten(me: NodeId, keys: seq<Str>, tombstones: map<Str, Entry>, k: Str)
    requires forall j :: j in keys ==> j in tombstones
    requires k in keys
    ensures Wrote(me, k, tombstones[k]) in TombstoneEvents(me, keys, tombstones)
  {
    var init := keys[..|keys| - 1];
    if k in init {
      TombstoneWritten(me, init, tombstones, k);
    }
  }

  lemma MergeOrigin(hash: Str -> Uint64, s: Cluster, me: NodeId, p: Packet, xs: seq<Keyed>, k: Str)
    requires me in s.nodes && Valid(s.nodes[me].store) && p in s.sent
    requires forall x :: x in xs ==> x in EntriesOf(p.msg)
    requires k in MergeAll(s.nodes[me].store, xs).tree
    ensures Occurs(s, k, MergeAll(s.nodes[me].store, xs).tree[k])
  {
    var store := s.nodes[me].store;
    MergeAllAdvances(store, xs);
    var e := MergeAll(store, xs).tree[k];
    if k in store.tree && e == store.tree[k] {
      assert Stored(s, me, k, e);
    } else {
      assert InFlight(s, p, k, e);
    }
  }

  lemma DelOrigin(s: Cluster, me: NodeId, keys: seq<Str>, k: Str)
    requires me in s.nodes && k in DelEffect(s.nodes[me], me, keys).node.store.tree
    ensures var e := DelEffect(s.nodes[me], me, keys);
            Occurs(s, k, e.node.store.tree[k]) || Wrote(me, k, e.node.store.tree[k]) in e.events
  {
    var store := s.nodes[me].store;
    DelDeletes(store, me, keys);
    var d := Del(store, me, keys);
    if k in keys {
      TombstoneWritten(me, keys, d.tombstones, k);
    } else {
      assert Stored(s, me, k, d.state.tree[k]);
    }
  }

  lemma DeliverOrigin(hash: Str -> Uint64, s: Cluster, p: Packet, k: Str)
    requires p in s.sent && p.to in s.nodes && Valid(s.nodes[p.to].store)
    requires k in DeliverEffect(hash, s.nodes[p.to], p.to, p.msg).node.store.tree
    ensures Occurs(s, k, DeliverEffect(hash, s.nodes[p.to], p.to, p.msg).node.store.tree[k])
  {
    var me, node := p.to, s.nodes[p.to];
    match p.msg
    case EntryBatch(xs) =>
      AcceptedAmong(hash, node, me, xs);
      MergeOrigin(hash, s, me, p, Accepted(hash, node, me, xs), k);
    case ReplicateRequest(_, _, xs) =>
      ServedAmong(hash, node, me, xs);
      MergeOrigin(hash, s, me, p, Served(hash, node, me, xs), k);
    case ReplicateResponse(_, _, _) => assert Stored(s, me, k, node.store.tree[k]);
  }

  lemma SetOrigin(s: Cluster, me: NodeId, key: Str, value: Str, k: Str)
    requires me in s.nodes && Valid(s.nodes[me].store) && s.nodes[me].store.clock < MAX_INT64
    requires k in SetEffect(s.nodes[me], me, key, value).node.store.tree
    ensures var e := SetEffect(s.nodes[me], me, key, value);
            Occurs(s, k, e.node.store.tree[k]) || Wrote(me, k, e.node.store.tree[k]) in e.events
  {
    SetFromInstalls(s.nodes[me].store, key, value, me);
    if k != key {
      assert Stored(s, me, k, s.nodes[me].store.tree[k]);
    }
  }

  lemma BeginOrigin(s: Cluster, me: NodeId, call: nat, key: Str, entry: Entry, w: int, k: Str)
    requires me in s.nodes && Wrote(me, key, entry) in s.log
    requires k in BeginEffect(s.nodes[me], me, call, key, entry, w).node.store.tree
    ensures Occurs(s, k, BeginEffect(s.nodes[me], me, call, key, entry, w).node.store.tree[k])
  {
    var x := BeginEffect(s.nodes[me], me, call, key, entry, w).node.store.tree[k];
    if k == key && x == entry {
      assert Wrote(me, k, x) in s.log;
    } else {
      assert Stored(s, me, k, x);
    }
  }

  lemma StoreOrigin(hash: Str -> Uint64, s: Cluster, step: Step, k: Str)
    requires Enabled(hash, s, step) && ServerStep(s, step) && Valid(s.nodes[Actor(step)].store)
    requires k in EffectOf(hash, s, step).node.store.tree
    ensures var e := EffectOf(hash, s, step);
            Occurs(s, k, e.node.store.tree[k]) || Wrote(Actor(step), k, e.node.store.tree[k]) in e.events
  {
    var me := Actor(step);
    var node := s.nodes[me];
    var x := EffectOf(hash, s, step).node.store.tree[k];
    match step
    case ClientSet(n, key, value) => SetOrigin(s, n, key, value, k);
    case ClientDel(n, keys) => DelOrigin(s, n, keys, k);
    case Begin(n, call, key, entry, w) => BeginOrigin(s, n, call, key, entry, w, k);
    case Deliver(p) => DeliverOrigin(hash, s, p, k);
    case _ =>
      OthersKeepStore(hash, s, step);
      assert Stored(s, me, k, x);
  }

  lemma PacketOrigin(hash: Str -> Uint64, s: Cluster, step: Step, p: Packet, x: Keyed)
    requires Enabled(hash, s, step)
    requires p in EffectOf(hash, s, step).out && x in EntriesOf(p.msg)
    ensures Occurs(s, x.key, x.entry)
  {
    var me := Actor(step);
    match step
    case Send(_, call, _) => assert InCall(s, me, call, x.key, x.entry);
    case Exchange(_, _, items) => assert Stored(s, me, x.key, x.entry);
    case PushState(_, _, items) => assert Stored(s, me, x.key, x.entry);
    case _ =>
  }

  /** The steps of a quorum write at its writer. */
  predicate OfCall(step: Step) {
    step.Begin? || step.Route? || step.Send? || step.StartWait? || step.Count? || step.Timeout?
  }

  lemma OthersKeepCalls(hash: Str -> Uint64, s: Cluster, step: Step)
    requires Enabled(hash, s, step) && !OfCall(step)
    ensures EffectOf(hash, s, step).node.calls == s.nodes[Actor(step)].calls && EffectOf(hash, s, step).done == []
  {
  }

  lemma CallOrigin(hash: Str -> Uint64, s: Cluster, step: Step, call: nat)
    requires Enabled(hash, s, step) && ServerStep(s, step)
    requires call in EffectOf(hash, s, step).node.calls
    ensures var c := EffectOf(hash, s, step).node.calls[call];
            Occurs(s, c.key, c.entry)
  {
    var me := Actor(step);
    var c := EffectOf(hash, s, step).node.calls[call];
    if !OfCall(step) {
      OthersKeepCalls(hash, s, step);
      assert InCall(s, me, call, c.key, c.entry);
    } else if step.Begin? && call == step.call {
      assert Wrote(me, c.key, c.entry) in s.log;
    } else {
      assert InCall(s, me, call, c.key, c.entry);
    }
  }

  lemma OccursNext(hash: Str -> Uint64, s: Cluster, step: Step, k: Str, x: Entry)
    requires Enabled(hash, s, step) && ServerStep(s, step) && Valid(s.nodes[Actor(step)].store)
    requires Occurs(Next(hash, s, step), k, x)
    ensures Occurs(s, k, x) || exists n :: Wrote(n, k, x) in EffectOf(hash, s, step).events
  {
    var t, me, e := Next(hash, s, step), Actor(step), EffectOf(hash, s, step);
    if n :| Stored(t, n, k, x) {
      if n == me {
        StoreOrigin(hash, s, step, k);
      } else {
        assert Stored(s, n, k, x);
      }
    } else if p :| InFlight(t, p, k, x) {
      if p in e.out {
        PacketOrigin(hash, s, step, p, Keyed(k, x));
      } else {
        assert InFlight(s, p, k, x);
      }
    } else if n, call :| InCall(t, n, call, k, x) {
      if n == me {
        CallOrigin(hash, s, step, call);
      } else {
        assert InCall(s, n, call, k, x);
      }
    } else {
      var n :| Wrote(n, k, x) in t.log;
      assert Wrote(n, k, x) in s.log || Wrote(n, k, x) in e.events;
    }
  }

  // ----- writes -----

  lemma {:induction false} TombstoneEventOf(me: NodeId, keys: seq<Str>, tombstones: map<Str, Entry>,
                                            n: NodeId, k: Str, e: Entry)
    requires forall j :: j in keys ==> j in tombstones
    requires Wrote(n, k, e) in TombstoneEvents(me, keys, tombstones)
    ensures n == me && k in keys && e == tombstones[k]
  {
    var init := keys[..|keys| - 1];
    if Wrote(n, k, e) in TombstoneEvents(me, init, tombstones) {
      TombstoneEventOf(me, init, tombstones, n, k, e);
    }
  }

  /** A write happens at the node that was not redirected, and is stored there. */
  lemma WroteAtOwner(hash: Str -> Uint64, s: Cluster, step: Step, n: NodeId, k: Str, x: Entry)
    requires Enabled(hash, s, step) && Valid(s.nodes[Actor(step)].store)
    requires Wrote(n, k, x) in EffectOf(hash, s, step).events
    ensures n == Actor(step) && !Moved(hash, s.nodes[n], n, k)
    ensures step.ClientSet? || step.ClientDel?
    ensures var tree := EffectOf(hash, s, step).node.store.tree;
            k in tree && tree[k] == x
  {
    var node := s.nodes[Actor(step)];
    match step
    case ClientSet(me, key, value) => SetFromInstalls(node.store, key, value, me);
    case ClientDel(me, keys) =>
      DelDeletes(node.store, me, keys);
      TombstoneEventOf(me, keys, Del(node.store, me, keys).tombstones, n, k, x);
    case _ =>
  }
}
