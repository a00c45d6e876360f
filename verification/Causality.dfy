/** Write identity and causality over all runs: local writes never reuse a version, and a write
    is versioned above everything its node had written or been offered before. */
module Causality {
  import opened Strings
  import opened LwwStore
  import opened HashRing
  import opened Cluster
  import opened Quorum

  /** The events of one step at node `me` while its clock goes from `low` to `high`. */
  ghost predicate EventsOk(me: NodeId, low: int, high: int, events: seq<Event>) {
    && (forall i :: 0 <= i < |events| ==>
          && events[i].node == me && events[i].entry.version <= high
          && (events[i].Wrote? ==> low < events[i].entry.version && events[i].entry.origin == me))
    && WritesRise(events)
  }

  /** Whatever precedes a write at its own node has a smaller version. */
  ghost predicate WritesRise(log: seq<Event>) {
    forall i, j :: 0 <= i < j < |log| && log[j].Wrote? && log[i].node == log[j].node
      ==> log[i].entry.version < log[j].entry.version
  }

  ghost predicate LogOk(s: Cluster) {
    && (forall i :: 0 <= i < |s.log| ==>
          && s.log[i].node in s.nodes
          && s.log[i].entry.version <= s.nodes[s.log[i].node].store.clock
          && (s.log[i].Wrote? ==> s.log[i].entry.origin == s.log[i].node))
    && WritesRise(s.log)
  }

  lemma {:induction false} TombstoneEventsAgree(me: NodeId, keys: seq<Str>, a: map<Str, Entry>, b: map<Str, Entry>)
    requires forall k :: k in keys ==> k in a && k in b && a[k] == b[k]
    ensures TombstoneEvents(me, keys, a) == TombstoneEvents(me, keys, b)
  {
    if keys != [] {
      TombstoneEventsAgree(me, keys[..|keys| - 1], a, b);
    }
  }

  lemma EventsSnoc(me: NodeId, low: int, mid: int, high: int, events: seq<Event>, key: Str, e: Entry)
    requires EventsOk(me, low, mid, events) && low <= mid
    requires mid < e.version <= high && e.origin == me
    ensures EventsOk(me, low, high, events + [Wrote(me, key, e)])
  {
  }

  lemma TombstonesSnoc(s: State, me: NodeId, init: seq<Str>, key: Str)
    requires s.clock + |Elements(init)| < MAX_INT64 && key !in Elements(init)
    ensures var p := Del(s, me, init);
            var d := DelKey(p, me, key);
            && s.clock <= p.state.clock < d.state.clock
            && key in d.tombstones && d.tombstones[key].version == d.state.clock && d.tombstones[key].origin == me
            && (forall k :: k in init ==> k in p.tombstones && k in d.tombstones && d.tombstones[k] == p.tombstones[k])
  {
    DelDeletes(s, me, init);
    DelStamps(s, me, init);
    assert |Del(s, me, init).tombstones| == |Elements(init)|;
    assert forall k :: k in init ==> k in Elements(init);
  }

  lemma {:induction false} TombstonesRise(s: State, me: NodeId, keys: seq<Str>)
    requires s.clock + |Elements(keys)| <= MAX_INT64
    ensures (DelDeletes(s, me, keys);
             var d := Del(s, me, keys);
             EventsOk(me, s.clock, d.state.clock, TombstoneEvents(me, keys, d.tombstones)))
  {
    DelDeletes(s, me, keys);
    if keys != [] {
      var init, key := keys[..|keys| - 1], keys[|keys| - 1];
      ElementsSnoc(keys);
      SubsetCount(Elements(init), Elements(keys));
      TombstonesRise(s, me, init);
      DelDeletes(s, me, init);
      var p, d := Del(s, me, init), Del(s, me, keys);
      if key in init {
        assert key in Elements(init);
        assert p == d;
      } else {
        assert key !in Elements(init);
        assert |Elements(keys)| == |Elements(init)| + 1;
        TombstonesSnoc(s, me, init, key);
        TombstoneEventsAgree(me, init, p.tombstones, d.tombstones);
        assert TombstoneEvents(me, keys, d.tombstones) ==
               TombstoneEvents(me, init, p.tombstones) + [Wrote(me, key, d.tombstones[key])];
        EventsSnoc(me, s.clock, p.state.clock, d.state.clock,
                   TombstoneEvents(me, init, p.tombstones), key, d.tombstones[key]);
      }
    }
  }

  lemma MergedEventsOk(me: NodeId, low: int, high: int, xs: seq<Keyed>)
    requires forall x :: x in xs ==> x.entry.version <= high
    ensures EventsOk(me, low, high, MergedEvents(me, xs))
  {
    assert forall i :: 0 <= i < |xs| ==> xs[i] in xs;
  }

  lemma StepEvents(hash: Str -> Uint64, s: Cluster, step: Step)
    requires Enabled(hash, s, step) && Valid(s.nodes[Actor(step)].store)
    ensures var e := EffectOf(hash, s, step);
            EventsOk(Actor(step), s.nodes[Actor(step)].store.clock, e.node.store.clock, e.events)
  {
    var me := Actor(step);
    var node := s.nodes[me];
    match step
    case ClientSet(n, key, value) => SetEvents(node, n, key, value);
    case ClientDel(n, keys) => DelEvents(node, n, keys);
    case Begin(n, call, key, entry, w) => BeginEvents(node, n, call, key, entry, w);
    case Deliver(packet) => DeliverEvents(hash, node, me, packet.msg);
    case _ => OthersKeepStore(hash, s, step);
  }

  lemma SetEvents(node: Node, me: NodeId, key: Str, value: Str)
    requires Valid(node.store) && node.store.clock < MAX_INT64
    ensures var e := SetEffect(node, me, key, value);
            EventsOk(me, node.store.clock, e.node.store.clock, e.events)
  {
    SetFromInstalls(node.store, key, value, me);
  }

  lemma DelEvents(node: Node, me: NodeId, keys: seq<Str>)
    requires node.store.clock + |Elements(keys)| <= MAX_INT64
    ensures var e := DelEffect(node, me, keys);
            EventsOk(me, node.store.clock, e.node.store.clock, e.events)
  {
    TombstonesRise(node.store, me, keys);
  }

  lemma BeginEvents(node: Node, me: NodeId, call: nat, key: Str, entry: Entry, w: int)
    requires Valid(node.store)
    ensures var e := BeginEffect(node, me, call, key, entry, w);
            EventsOk(me, node.store.clock, e.node.store.clock, e.events)
  {
    SetWithVersionJoins(node.store, key, entry);
  }

  lemma DeliverEvents(hash: Str -> Uint64, node: Node, me: NodeId, msg: Message)
    requires Valid(node.store)
    ensures var e := DeliverEffect(hash, node, me, msg);
            EventsOk(me, node.store.clock, e.node.store.clock, e.events)
  {
    match msg
    case EntryBatch(xs) =>
      var accepted := Accepted(hash, node, me, xs);
      MergeAllAdvances(node.store, accepted);
      MergedEventsOk(me, node.store.clock, MergeAll(node.store, accepted).clock, accepted);
    case ReplicateRequest(_, _, xs) =>
      var served := Served(hash, node, me, xs);
      MergeAllAdvances(node.store, served);
      MergedEventsOk(me, node.store.clock, MergeAll(node.store, served).clock, served);
    case ReplicateResponse(_, _, _) =>
  }

  lemma CommitKeepsLog(s: Cluster, n: NodeId, e: Effect)
    requires LogOk(s) && n in s.nodes && s.nodes[n].store.clock <= e.node.store.clock
    requires EventsOk(n, s.nodes[n].store.clock, e.node.store.clock, e.events)
    ensures LogOk(Commit(s, n, e))
  {
    var t := Commit(s, n, e);
    forall i, j | 0 <= i < j < |t.log| && t.log[j].Wrote? && t.log[i].node == t.log[j].node
      ensures t.log[i].entry.version < t.log[j].entry.version
    {
      if j >= |s.log| {
        assert t.log[j] == e.events[j - |s.log|];
        if i >= |s.log| {
          assert t.log[i] == e.events[i - |s.log|];
        }
      }
    }
  }

  lemma {:induction false} RunKeepsLog(hash: Str -> Uint64, s: Cluster, steps: seq<Step>)
    requires Inv(hash, s) && LogOk(s) && Runnable(hash, s, steps)
    ensures LogOk(Run(hash, s, steps))
    decreases |steps|
  {
    if steps != [] {
      var n := Actor(steps[0]);
      assert NodeOk(hash, s, n, s.nodes[n]);
      StepEvents(hash, s, steps[0]);
      EffectAdvances(hash, s, steps[0]);
      CommitKeepsLog(s, n, EffectOf(hash, s, steps[0]));
      NextKeepsInv(hash, s, steps[0]);
      RunKeepsLog(hash, Next(hash, s, steps[0]), steps[1..]);
    }
  }

  /** Causality: in every run, a local write has a strictly larger version than every entry its
      node had earlier written or passed to `SetWithVersion`, accepted or not. Identity: two
      writes anywhere in the run never share both version and origin. */
  lemma WritesAreIdentified(hash: Str -> Uint64, init: Cluster, steps: seq<Step>, i: nat, j: nat)
    requires Init(init) && Runnable(hash, init, steps)
    requires i < j < |Run(hash, init, steps).log|
    requires Run(hash, init, steps).log[j].Wrote?
    ensures var a, b := Run(hash, init, steps).log[i], Run(hash, init, steps).log[j];
            && (a.node == b.node ==> a.entry.version < b.entry.version)
            && (a.Wrote? ==> (a.entry.version, a.entry.origin) != (b.entry.version, b.entry.origin))
  {
    InitInv(hash, init);
    RunKeepsLog(hash, init, steps);
  }
}
