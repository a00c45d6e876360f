/** Anti-entropy converges: after a full round of exchanges without new writes every replica
    holds the newest entry that any node had. */
module Convergence {
  import opened Strings
  import opened LwwStore
  import opened Cluster
  import opened Quorum
  import opened Origins

  // ----- traces -----

  ghost predicate Behaves(hash: Str -> Uint64, states: seq<Cluster>, steps: seq<Step>) {
    && |states| == |steps| + 1
    && forall i :: 0 <= i < |steps| ==> Moves(hash, states, steps, i)
  }

  ghost predicate Moves(hash: Str -> Uint64, states: seq<Cluster>, steps: seq<Step>, i: nat)
    requires i < |steps| && |states| == |steps| + 1
  {
    Leads(hash, states[i], steps[i], states[i + 1])
  }

  ghost predicate Leads(hash: Str -> Uint64, s: Cluster, step: Step, t: Cluster) {
    Enabled(hash, s, step) && t == Next(hash, s, step)
  }

  lemma StepAt(hash: Str -> Uint64, states: seq<Cluster>, steps: seq<Step>, i: nat)
    requires Behaves(hash, states, steps) && i < |steps|
    ensures Leads(hash, states[i], steps[i], states[i + 1])
  {
    assert Moves(hash, states, steps, i);
  }

  /** No client writes and no ring changes; everything else may happen. */
  ghost predicate QuietStep(s: Cluster, step: Step) {
    ServerStep(s, step) && !step.ClientSet? && !step.ClientDel? && !step.Join? && !step.Leave?
  }

  ghost predicate QuietTrace(hash: Str -> Uint64, states: seq<Cluster>, steps: seq<Step>) {
    && Behaves(hash, states, steps)
    && forall i :: 0 <= i < |steps| ==> QuietMove(states, steps, i)
  }

  ghost predicate QuietMove(states: seq<Cluster>, steps: seq<Step>, i: nat)
    requires i < |steps| < |states|
  {
    QuietStep(states[i], steps[i])
  }

  ghost predicate ServerRun(hash: Str -> Uint64, s: Cluster, steps: seq<Step>)
    requires Runnable(hash, s, steps)
    decreases |steps|
  {
    steps == [] ||
    (ServerStep(s, steps[0]) && ServerRun(hash, Next(hash, s, steps[0]), steps[1..]))
  }

  // ----- every entry is backed by some store -----

  ghost predicate Sourced(s: Cluster) {
    forall k, e :: Occurs(s, k, e) ==> exists n :: Holds(s, n, k, e)
  }

  lemma NextSourced(hash: Str -> Uint64, s: Cluster, step: Step)
    requires Inv(hash, s) && Sourced(s) && Enabled(hash, s, step) && ServerStep(s, step)
    ensures Sourced(Next(hash, s, step))
  {
    var t, me := Next(hash, s, step), Actor(step);
    NextGrows(hash, s, step);
    assert NodeOk(hash, s, me, s.nodes[me]);
    forall k, x | Occurs(t, k, x) ensures exists n :: Holds(t, n, k, x) {
      OccursNext(hash, s, step, k, x);
      if Occurs(s, k, x) {
        var n :| Holds(s, n, k, x);
        HoldsGrows(s, t, n, k, x);
      } else {
        var n :| Wrote(n, k, x) in EffectOf(hash, s, step).events;
        WroteAtOwner(hash, s, step, n, k, x);
        assert Holds(t, me, k, x);
      }
    }
  }

  lemma {:induction false} RunSourced(hash: Str -> Uint64, s: Cluster, steps: seq<Step>)
    requires Inv(hash, s) && Sourced(s) && Runnable(hash, s, steps) && ServerRun(hash, s, steps)
    ensures Sourced(Run(hash, s, steps))
    decreases |steps|
  {
    if steps != [] {
      NextSourced(hash, s, steps[0]);
      NextKeepsInv(hash, s, steps[0]);
      RunSourced(hash, Next(hash, s, steps[0]), steps[1..]);
    }
  }

  // ----- the newest entry -----

  /** `e` is the newest entry any node stores for `k`. */
  ghost predicate IsTop(s: Cluster, k: Str, e: Entry) {
    && (exists n :: Stored(s, n, k, e))
    && (forall n, x :: Stored(s, n, k, x) ==> AtLeast(e, x))
  }

  lemma {:induction false} TopAmong(s: Cluster, k: Str, ns: set<NodeId>) returns (e: Entry)
    requires exists n, x :: n in ns && Stored(s, n, k, x)
    ensures exists n :: n in ns && Stored(s, n, k, e)
    ensures forall n, x :: n in ns && Stored(s, n, k, x) ==> AtLeast(e, x)
  {
    var n, x :| n in ns && Stored(s, n, k, x);
    var rest := ns - {n};
    if exists m, y :: m in rest && Stored(s, m, k, y) {
      e := TopAmong(s, k, rest);
      NewerTrichotomy(e, x);
      if Newer(x, e) {
        forall m, y | m in ns && Stored(s, m, k, y) ensures AtLeast(x, y) {
          if m != n { AtLeastTransitive(x, e, y); }
        }
        e := x;
      }
    } else {
      e := x;
    }
  }

  lemma TopExists(s: Cluster, k: Str) returns (e: Entry)
    requires exists n, x :: Stored(s, n, k, x)
    ensures IsTop(s, k, e)
  {
    var n, x :| Stored(s, n, k, x);
    assert n in s.nodes.Keys;
    e := TopAmong(s, k, s.nodes.Keys);
  }

  ghost predicate Bounded(s: Cluster, k: Str, e: Entry) {
    forall x :: Occurs(s, k, x) ==> AtLeast(e, x)
  }

  lemma TopBounds(s: Cluster, k: Str, e: Entry)
    requires Sourced(s) && IsTop(s, k, e)
    ensures Bounded(s, k, e)
  {
    forall x | Occurs(s, k, x) ensures AtLeast(e, x) {
      var n :| Holds(s, n, k, x);
      assert Stored(s, n, k, s.nodes[n].store.tree[k]);
      AtLeastTransitive(e, s.nodes[n].store.tree[k], x);
    }
  }

  lemma BoundedNext(hash: Str -> Uint64, s: Cluster, step: Step, t: Cluster, k: Str, e: Entry)
    requires Inv(hash, s) && Bounded(s, k, e) && Leads(hash, s, step, t) && QuietStep(s, step)
    ensures Bounded(t, k, e)
  {
    var me := Actor(step);
    assert NodeOk(hash, s, me, s.nodes[me]);
    forall x | Occurs(t, k, x) ensures AtLeast(e, x) {
      OccursNext(hash, s, step, k, x);
      if !Occurs(s, k, x) {
        var n :| Wrote(n, k, x) in EffectOf(hash, s, step).events;
        WroteAtOwner(hash, s, step, n, k, x);
      }
    }
  }

  // ----- along a quiet trace -----

  ghost predicate SameRouting(s: Cluster, t: Cluster) {
    && s.nodes.Keys == t.nodes.Keys
    && forall n :: n in s.nodes ==> t.nodes[n].ring == s.nodes[n].ring && t.nodes[n].rf == s.nodes[n].rf
  }

  lemma NextSameRouting(hash: Str -> Uint64, s: Cluster, step: Step, t: Cluster)
    requires Leads(hash, s, step, t) && QuietStep(s, step)
    ensures SameRouting(s, t)
  {
    KeepsRouting(hash, s, step);
  }

  lemma LeadsGrows(hash: Str -> Uint64, s: Cluster, step: Step, t: Cluster)
    requires Inv(hash, s) && Leads(hash, s, step, t)
    ensures Inv(hash, t) && Grows(s, t)
  {
    NextKeepsInv(hash, s, step);
    assert forall n :: n in s.nodes ==> NodeOk(hash, s, n, s.nodes[n]);
    NextGrows(hash, s, step);
  }

  lemma GrowsAt(hash: Str -> Uint64, states: seq<Cluster>, steps: seq<Step>, i: nat)
    requires Behaves(hash, states, steps) && i < |steps| && Inv(hash, states[i])
    ensures Inv(hash, states[i + 1]) && Grows(states[i], states[i + 1])
  {
    StepAt(hash, states, steps, i);
    LeadsGrows(hash, states[i], steps[i], states[i + 1]);
  }

  lemma {:induction false} InvAlong(hash: Str -> Uint64, states: seq<Cluster>, steps: seq<Step>, i: nat, j: nat)
    requires Behaves(hash, states, steps) && i <= j < |states| && Inv(hash, states[i])
    ensures Inv(hash, states[j])
    decreases j - i
  {
    if i < j {
      GrowsAt(hash, states, steps, i);
      InvAlong(hash, states, steps, i + 1, j);
    }
  }

  lemma {:induction false} GrowsAlong(hash: Str -> Uint64, states: seq<Cluster>, steps: seq<Step>, i: nat, j: nat)
    requires Behaves(hash, states, steps) && i <= j < |states| && Inv(hash, states[i])
    ensures Grows(states[i], states[j])
    decreases j - i
  {
    if i < j {
      GrowsAt(hash, states, steps, i);
      GrowsAlong(hash, states, steps, i + 1, j);
      GrowsTransitive(states[i], states[i + 1], states[j]);
    } else {
      GrowsReflexive(states[i]);
    }
  }

  lemma BoundedAt(hash: Str -> Uint64, states: seq<Cluster>, steps: seq<Step>, k: Str, e: Entry, i: nat)
    requires QuietTrace(hash, states, steps) && i < |steps|
    requires Inv(hash, states[i]) && Bounded(states[i], k, e)
    ensures Inv(hash, states[i + 1]) && Bounded(states[i + 1], k, e)
  {
    StepAt(hash, states, steps, i);
    assert QuietMove(states, steps, i);
    GrowsAt(hash, states, steps, i);
    BoundedNext(hash, states[i], steps[i], states[i + 1], k, e);
  }

  lemma {:induction false} BoundedAlong(hash: Str -> Uint64, states: seq<Cluster>, steps: seq<Step>,
                                        k: Str, e: Entry, i: nat, j: nat)
    requires QuietTrace(hash, states, steps) && i <= j < |states|
    requires Inv(hash, states[i]) && Bounded(states[i], k, e)
    ensures Bounded(states[j], k, e)
    decreases j - i
  {
    if i < j {
      BoundedAt(hash, states, steps, k, e, i);
      BoundedAlong(hash, states, steps, k, e, i + 1, j);
    }
  }

  lemma RoutingAt(hash: Str -> Uint64, states: seq<Cluster>, steps: seq<Step>, i: nat)
    requires QuietTrace(hash, states, steps) && i < |steps|
    ensures SameRouting(states[i], states[i + 1])
  {
    StepAt(hash, states, steps, i);
    assert QuietMove(states, steps, i);
    NextSameRouting(hash, states[i], steps[i], states[i + 1]);
  }

  lemma {:induction false} RoutingAlong(hash: Str -> Uint64, states: seq<Cluster>, steps: seq<Step>, i: nat, j: nat)
    requires QuietTrace(hash, states, steps) && i <= j < |states|
    ensures SameRouting(states[i], states[j])
    decreases j - i
  {
    if i < j {
      RoutingAt(hash, states, steps, i);
      RoutingAlong(hash, states, steps, i + 1, j);
    }
  }

  /** A node that once reached the bound stays exactly there. */
  lemma StaysAtTop(hash: Str -> Uint64, states: seq<Cluster>, steps: seq<Step>, k: Str, e: Entry,
                   i: nat, j: nat, n: NodeId)
    requires QuietTrace(hash, states, steps) && i <= j < |states|
    requires Inv(hash, states[0]) && Bounded(states[0], k, e)
    requires Holds(states[i], n, k, e)
    ensures Stored(states[j], n, k, e)
  {
    assert Grows(states[i], states[j]) by {
      InvAlong(hash, states, steps, 0, i);
      GrowsAlong(hash, states, steps, i, j);
    }
    HoldsGrows(states[i], states[j], n, k, e);
    var x := states[j].nodes[n].store.tree[k];
    assert Stored(states[j], n, k, x);
    BoundedAlong(hash, states, steps, k, e, 0, j);
    AtLeastAntisymmetric(e, x);
  }

  // ----- the round-robin cursor -----

  predicate IsExchange(step: Step, n: NodeId, members: set<NodeId>) {
    step.Exchange? && step.n == n && step.members == members
  }

  function Exchanges(steps: seq<Step>, n: NodeId): nat {
    if steps == [] then 0
    else
      var last := steps[|steps| - 1];
      Exchanges(steps[..|steps| - 1], n) + (if last.Exchange? && last.n == n then 1 else 0)
  }

  /** The position reached from `r` after `t` single steps around `n` positions. */
  function Spin(r: nat, t: nat, n: nat): nat {
    if t == 0 then r
    else
      var p := Spin(r, t - 1, n);
      if p + 1 == n then 0 else p + 1
  }

  lemma {:induction false} SpinAdd(r: nat, t: nat, u: nat, n: nat)
    ensures Spin(Spin(r, t, n), u, n) == Spin(r, t + u, n)
  {
    if u > 0 {
      SpinAdd(r, t, u - 1, n);
    }
  }

  lemma {:induction false} SpinClosed(r: nat, t: nat, n: nat)
    requires r < n && t <= n
    ensures Spin(r, t, n) == if r + t < n then r + t else r + t - n
  {
    if t > 0 {
      SpinClosed(r, t - 1, n);
    }
  }

  lemma {:induction false} SpinBound(r: nat, t: nat, n: nat)
    requires r < n
    ensures Spin(r, t, n) < n
  {
    if t > 0 {
      SpinBound(r, t - 1, n);
    }
  }

  /** `n` consecutive positions meet every index. */
  lemma EveryIndexMet(r: nat, n: nat, j: nat) returns (t: nat)
    requires r < n && j < n
    ensures t < n && Spin(r, t, n) == j
  {
    t := if j >= r then j - r else j - r + n;
    SpinClosed(r, t, n);
  }

  /** ... and no index twice. */
  lemma NoIndexTwice(r: nat, n: nat, t: nat, u: nat)
    requires r < n && t < u < t + n
    ensures Spin(r, t, n) != Spin(r, u, n)
  {
    SpinBound(r, t, n);
    SpinAdd(r, t, u - t, n);
    SpinClosed(Spin(r, t, n), u - t, n);
  }

  lemma NextPosition(index: nat, n: nat)
    requires index < n
    ensures (index + 1) % n == if index + 1 == n then 0 else index + 1
  {
  }

  /** Node `m` keeps something to send, and every exchange it makes sees the same members. */
  ghost predicate Pushes(hash: Str -> Uint64, states: seq<Cluster>, steps: seq<Step>, m: NodeId, members: set<NodeId>) {
    && Behaves(hash, states, steps)
    && m in members && |Peers(members, m)| > 0
    && (forall i :: 0 <= i < |states| ==> m in states[i].nodes && states[i].nodes[m].store.tree.Keys != {})
    && (forall i :: 0 <= i < |steps| && steps[i].Exchange? && steps[i].n == m ==> steps[i].members == members)
  }

  lemma SnapshotNotEmpty(tree: map<Str, Entry>, items: seq<Keyed>)
    requires tree.Keys != {} && IsSnapshot(tree, items)
    ensures items != []
  {
    var k :| k in tree.Keys;
    assert Keyed(k, tree[k]) in items;
  }

  lemma PeersAndSelf(members: set<NodeId>, m: NodeId)
    requires m in members
    ensures |members| == |Peers(members, m)| + 1
  {
    SortedKeysOrdered(members - {m});
    assert |members| == |members - {m}| + 1;
  }

  lemma PushGoesOut(hash: Str -> Uint64, s: Cluster, step: Step, m: NodeId, members: set<NodeId>)
    requires Enabled(hash, s, step) && IsExchange(step, m, members)
    requires m in members && |Peers(members, m)| > 0 && s.nodes[m].store.tree.Keys != {}
    ensures var e, peers := EffectOf(hash, s, step), Peers(members, m);
            && e.node.cursor == Spin(s.nodes[m].cursor % |peers|, 1, |peers|) < |peers|
            && e.out == {Packet(peers[s.nodes[m].cursor % |peers|], EntryBatch(step.items))}
  {
    SnapshotNotEmpty(s.nodes[m].store.tree, step.items);
    PeersAndSelf(members, m);
    var n := |Peers(members, m)|;
    NextPosition(s.nodes[m].cursor % n, n);
    assert Spin(s.nodes[m].cursor % n, 0, n) == s.nodes[m].cursor % n;
  }

  lemma PushMoves(hash: Str -> Uint64, s: Cluster, step: Step, m: NodeId, members: set<NodeId>)
    requires Enabled(hash, s, step) && IsExchange(step, m, members)
    requires m in members && |Peers(members, m)| > 0 && s.nodes[m].store.tree.Keys != {}
    ensures var n := |Peers(members, m)|;
            Next(hash, s, step).nodes[m].cursor % n == Spin(s.nodes[m].cursor % n, 1, n)
  {
    PushGoesOut(hash, s, step, m, members);
    var n, cursor := |Peers(members, m)|, EffectOf(hash, s, step).node.cursor;
    assert cursor % n == cursor;
  }

  /** The cursor moves on by one at this node's exchanges and at nothing else. */
  ghost predicate CursorMoves(states: seq<Cluster>, steps: seq<Step>, m: NodeId, n: nat) {
    && |states| == |steps| + 1 && n > 0
    && (forall i :: 0 <= i < |states| ==> m in states[i].nodes)
    && (forall i :: 0 <= i < |steps| ==> CursorMove(states[i].nodes[m], steps[i], states[i + 1].nodes[m], m, n))
  }

  ghost predicate CursorMove(before: Node, step: Step, after: Node, m: NodeId, n: nat)
    requires n > 0
  {
    after.cursor % n == Spin(before.cursor % n, if step.Exchange? && step.n == m then 1 else 0, n)
  }

  lemma PushesMoveCursor(hash: Str -> Uint64, states: seq<Cluster>, steps: seq<Step>, m: NodeId, members: set<NodeId>)
    requires Pushes(hash, states, steps, m, members)
    ensures CursorMoves(states, steps, m, |Peers(members, m)|)
  {
    var n := |Peers(members, m)|;
    forall i | 0 <= i < |steps| ensures CursorMove(states[i].nodes[m], steps[i], states[i + 1].nodes[m], m, n) {
      StepAt(hash, states, steps, i);
      if steps[i].Exchange? && steps[i].n == m {
        PushMoves(hash, states[i], steps[i], m, members);
      } else {
        CursorStays(hash, states[i], steps[i], m);
      }
    }
  }

  /** So the cursor counts this node's exchanges. */
  lemma {:induction false} CursorCounts(states: seq<Cluster>, steps: seq<Step>, m: NodeId, n: nat, i: nat)
    requires CursorMoves(states, steps, m, n) && i < |states|
    ensures states[i].nodes[m].cursor % n == Spin(states[0].nodes[m].cursor % n, Exchanges(steps[..i], m), n)
  {
    if i > 0 {
      CursorCounts(states, steps, m, n, i - 1);
      assert steps[..i][..i - 1] == steps[..i - 1];
      assert CursorMove(states[i - 1].nodes[m], steps[i - 1], states[i].nodes[m], m, n);
      var turn := if steps[i - 1].Exchange? && steps[i - 1].n == m then 1 else 0;
      SpinAdd(states[0].nodes[m].cursor % n, Exchanges(steps[..i - 1], m), turn, n);
    }
  }

  lemma CursorStays(hash: Str -> Uint64, s: Cluster, step: Step, m: NodeId)
    requires Enabled(hash, s, step) && m in s.nodes && !(step.Exchange? && step.n == m)
    ensures Next(hash, s, step).nodes[m].cursor == s.nodes[m].cursor
  {
  }

  lemma {:induction false} NthExchange(steps: seq<Step>, m: NodeId, t: nat) returns (i: nat)
    requires t < Exchanges(steps, m)
    ensures i < |steps| && steps[i].Exchange? && steps[i].n == m && Exchanges(steps[..i], m) == t
  {
    var init := steps[..|steps| - 1];
    if t < Exchanges(init, m) {
      i := NthExchange(init, m, t);
      assert steps[..i] == init[..i];
    } else {
      i := |steps| - 1;
    }
  }

  lemma {:induction false} ExchangesGrow(steps: seq<Step>, m: NodeId, i: nat, j: nat)
    requires i < j <= |steps| && steps[i].Exchange? && steps[i].n == m
    ensures Exchanges(steps[..i], m) < Exchanges(steps[..j], m)
    decreases j
  {
    assert steps[..j][..j - 1] == steps[..j - 1];
    if i < j - 1 {
      ExchangesGrow(steps, m, i, j - 1);
    }
  }

  /** Node `m` pushes its snapshot to `p` in this step. */
  ghost predicate SendsTo(hash: Str -> Uint64, s: Cluster, step: Step, m: NodeId, p: NodeId) {
    && step.Exchange? && step.n == m && Enabled(hash, s, step)
    && EffectOf(hash, s, step).out == {Packet(p, EntryBatch(step.items))}
  }

  lemma FindExchange(steps: seq<Step>, m: NodeId, r: nat, n: nat, j: nat) returns (i: nat)
    requires Exchanges(steps, m) >= n && r < n && j < n
    ensures i < |steps| && steps[i].Exchange? && steps[i].n == m && Spin(r, Exchanges(steps[..i], m), n) == j
  {
    var t := EveryIndexMet(r, n, j);
    i := NthExchange(steps, m, t);
  }

  lemma ExchangeTarget(hash: Str -> Uint64, states: seq<Cluster>, steps: seq<Step>, m: NodeId, members: set<NodeId>,
                       i: nat)
    requires Pushes(hash, states, steps, m, members)
    requires i < |steps| && steps[i].Exchange? && steps[i].n == m
    ensures var peers := Peers(members, m);
            var index := Spin(states[0].nodes[m].cursor % |peers|, Exchanges(steps[..i], m), |peers|);
            index < |peers| && SendsTo(hash, states[i], steps[i], m, peers[index])
  {
    PushesMoveCursor(hash, states, steps, m, members);
    CursorCounts(states, steps, m, |Peers(members, m)|, i);
    StepAt(hash, states, steps, i);
    PushGoesOut(hash, states[i], steps[i], m, members);
  }

  lemma ReachesPeer(hash: Str -> Uint64, states: seq<Cluster>, steps: seq<Step>, m: NodeId, members: set<NodeId>,
                    j: nat) returns (i: nat)
    requires Pushes(hash, states, steps, m, members) && j < |Peers(members, m)| <= Exchanges(steps, m)
    ensures i < |steps| && SendsTo(hash, states[i], steps[i], m, Peers(members, m)[j])
  {
    var n := |Peers(members, m)|;
    i := FindExchange(steps, m, states[0].nodes[m].cursor % n, n, j);
    ExchangeTarget(hash, states, steps, m, members, i);
  }

  /** A node that exchanges at least as often as it has peers sends its snapshot to each peer. */
  lemma ReachesEveryPeer(hash: Str -> Uint64, states: seq<Cluster>, steps: seq<Step>, m: NodeId, members: set<NodeId>,
                         p: NodeId) returns (i: nat)
    requires Pushes(hash, states, steps, m, members) && p in members && p != m
    requires Exchanges(steps, m) >= |Peers(members, m)|
    ensures i < |steps| && SendsTo(hash, states[i], steps[i], m, p)
  {
    var j := PeerIndex(members, m, p);
    i := ReachesPeer(hash, states, steps, m, members, j);
  }

  lemma PeerIndex(members: set<NodeId>, m: NodeId, p: NodeId) returns (j: nat)
    requires p in members && p != m
    ensures j < |Peers(members, m)| && Peers(members, m)[j] == p
  {
    SortedKeysOrdered(members - {m});
    assert p in Peers(members, m);
    j :| 0 <= j < |Peers(members, m)| && Peers(members, m)[j] == p;
  }

  /** Two of its exchanges fewer than that many apart go to different peers, so in exactly that
      many exchanges each peer is met exactly once. */
  lemma NoPeerTwice(hash: Str -> Uint64, states: seq<Cluster>, steps: seq<Step>, m: NodeId, members: set<NodeId>,
                    a: nat, b: nat) returns (p: NodeId, q: NodeId)
    requires Pushes(hash, states, steps, m, members) && a < b < |steps|
    requires steps[a].Exchange? && steps[a].n == m && steps[b].Exchange? && steps[b].n == m
    requires Exchanges(steps[..b], m) < Exchanges(steps[..a], m) + |Peers(members, m)|
    ensures p != q && SendsTo(hash, states[a], steps[a], m, p) && SendsTo(hash, states[b], steps[b], m, q)
  {
    var peers := Peers(members, m);
    var r := states[0].nodes[m].cursor % |peers|;
    ExchangesGrow(steps, m, a, b);
    ExchangeTarget(hash, states, steps, m, members, a);
    ExchangeTarget(hash, states, steps, m, members, b);
    var x, y := Spin(r, Exchanges(steps[..a], m), |peers|), Spin(r, Exchanges(steps[..b], m), |peers|);
    NoIndexTwice(r, |peers|, Exchanges(steps[..a], m), Exchanges(steps[..b], m));
    SortedKeysOrdered(members - {m});
    p, q := peers[x], peers[y];
    LessTrichotomy(p, q);
  }

  // ----- convergence -----

  /** Every snapshot sent during the trace is delivered during the trace. */
  ghost predicate Reliable(hash: Str -> Uint64, states: seq<Cluster>, steps: seq<Step>)
    requires Behaves(hash, states, steps)
  {
    forall i, p :: 0 <= i < |steps| && steps[i].Exchange? && SendsIn(hash, states[i], steps[i], p)
      ==> DeliveredAfter(steps, i, p)
  }

  ghost predicate DeliveredAfter(steps: seq<Step>, i: nat, p: Packet) {
    exists j :: i < j < |steps| && steps[j] == Deliver(p)
  }

  ghost predicate SendsIn(hash: Str -> Uint64, s: Cluster, step: Step, p: Packet) {
    Enabled(hash, s, step) && p in EffectOf(hash, s, step).out
  }

  lemma DeliveryInstalls(hash: Str -> Uint64, s: Cluster, p: Packet, k: Str, e: Entry)
    requires Inv(hash, s) && Enabled(hash, s, Deliver(p)) && p.msg.EntryBatch? && Keyed(k, e) in p.msg.entries
    requires IsReplica(hash, s.nodes[p.to], p.to, k)
    ensures Holds(Next(hash, s, Deliver(p)), p.to, k, e)
  {
    var node := s.nodes[p.to];
    assert NodeOk(hash, s, p.to, node);
    AcceptedAmong(hash, node, p.to, p.msg.entries);
    var accepted := Accepted(hash, node, p.to, p.msg.entries);
    assert Keyed(k, e) in accepted;
    MergeAllAdvances(node.store, accepted);
  }

  lemma ReplicaReachesTop(hash: Str -> Uint64, states: seq<Cluster>, steps: seq<Step>, members: set<NodeId>,
                          k: Str, e: Entry, m: NodeId, p: NodeId)
    requires QuietTrace(hash, states, steps) && Reliable(hash, states, steps)
    requires Inv(hash, states[0]) && Bounded(states[0], k, e)
    requires Stored(states[0], m, k, e)
    requires states[0].nodes.Keys == members && p in members
    requires forall i :: 0 <= i < |steps| && steps[i].Exchange? ==> steps[i].members == members
    requires Exchanges(steps, m) >= |members| - 1
    requires IsReplica(hash, states[0].nodes[p], p, k)
    ensures Stored(states[|steps|], p, k, e)
  {
    if p == m {
      StaysAtTop(hash, states, steps, k, e, 0, |steps|, m);
    } else {
      PeerCount(members, m, p);
      TopPushes(hash, states, steps, members, k, e, m);
      var packet, j := TopDelivered(hash, states, steps, members, k, e, m, p);
      PushStays(hash, states, steps, k, e, packet, j);
    }
  }

  lemma SnapshotHas(hash: Str -> Uint64, s: Cluster, step: Step, m: NodeId, k: Str, e: Entry)
    requires step.Exchange? && step.n == m && Enabled(hash, s, step) && Stored(s, m, k, e)
    ensures Keyed(k, e) in step.items
  {
  }

  lemma TopPushes(hash: Str -> Uint64, states: seq<Cluster>, steps: seq<Step>, members: set<NodeId>,
                  k: Str, e: Entry, m: NodeId)
    requires QuietTrace(hash, states, steps)
    requires Inv(hash, states[0]) && Bounded(states[0], k, e)
    requires Stored(states[0], m, k, e) && m in members && |Peers(members, m)| > 0
    requires forall i :: 0 <= i < |steps| && steps[i].Exchange? ==> steps[i].members == members
    ensures Pushes(hash, states, steps, m, members)
  {
    forall i | 0 <= i < |states| ensures m in states[i].nodes && states[i].nodes[m].store.tree.Keys != {} {
      StaysAtTop(hash, states, steps, k, e, 0, i, m);
      assert k in states[i].nodes[m].store.tree.Keys;
    }
  }

  lemma PeerCount(members: set<NodeId>, m: NodeId, p: NodeId)
    requires m in members && p in members && p != m
    ensures 0 < |Peers(members, m)| == |members| - 1
  {
    PeersAndSelf(members, m);
    SortedKeysOrdered(members - {m});
    assert p in Peers(members, m);
  }

  lemma StillReplica(hash: Str -> Uint64, states: seq<Cluster>, steps: seq<Step>, p: NodeId, k: Str, j: nat)
    requires QuietTrace(hash, states, steps) && j < |states|
    requires p in states[0].nodes && IsReplica(hash, states[0].nodes[p], p, k)
    ensures p in states[j].nodes && IsReplica(hash, states[j].nodes[p], p, k)
  {
    RoutingAlong(hash, states, steps, 0, j);
  }

  lemma ArrivalInstalls(hash: Str -> Uint64, s: Cluster, p: Packet, t: Cluster, k: Str, e: Entry)
    requires Inv(hash, s) && Leads(hash, s, Deliver(p), t) && p.msg.EntryBatch? && Keyed(k, e) in p.msg.entries
    requires IsReplica(hash, s.nodes[p.to], p.to, k)
    ensures Holds(t, p.to, k, e)
  {
    DeliveryInstalls(hash, s, p, k, e);
  }

  lemma PushDelivered(hash: Str -> Uint64, states: seq<Cluster>, steps: seq<Step>, i: nat, m: NodeId, p: NodeId)
    returns (j: nat)
    requires Behaves(hash, states, steps) && Reliable(hash, states, steps)
    requires i < |steps| && SendsTo(hash, states[i], steps[i], m, p)
    ensures i < j < |steps| && steps[j] == Deliver(Packet(p, EntryBatch(steps[i].items)))
  {
    var packet := Packet(p, EntryBatch(steps[i].items));
    assert SendsIn(hash, states[i], steps[i], packet);
    assert DeliveredAfter(steps, i, packet);
    j :| i < j < |steps| && steps[j] == Deliver(packet);
  }

  lemma PushInstalls(hash: Str -> Uint64, states: seq<Cluster>, steps: seq<Step>, k: Str, e: Entry, p: Packet, j: nat)
    requires QuietTrace(hash, states, steps) && Inv(hash, states[0])
    requires j < |steps| && steps[j] == Deliver(p) && p.msg.EntryBatch? && Keyed(k, e) in p.msg.entries
    requires p.to in states[0].nodes && IsReplica(hash, states[0].nodes[p.to], p.to, k)
    ensures Holds(states[j + 1], p.to, k, e)
  {
    StepAt(hash, states, steps, j);
    InvAlong(hash, states, steps, 0, j);
    StillReplica(hash, states, steps, p.to, k, j);
    ArrivalInstalls(hash, states[j], p, states[j + 1], k, e);
  }

  lemma PushStays(hash: Str -> Uint64, states: seq<Cluster>, steps: seq<Step>, k: Str, e: Entry, p: Packet, j: nat)
    requires QuietTrace(hash, states, steps) && Inv(hash, states[0]) && Bounded(states[0], k, e)
    requires j < |steps| && steps[j] == Deliver(p) && p.msg.EntryBatch? && Keyed(k, e) in p.msg.entries
    requires p.to in states[0].nodes && IsReplica(hash, states[0].nodes[p.to], p.to, k)
    ensures Stored(states[|steps|], p.to, k, e)
  {
    PushInstalls(hash, states, steps, k, e, p, j);
    StaysAtTop(hash, states, steps, k, e, j + 1, |steps|, p.to);
  }

  /** The newest entry is on its way to every peer at some point, and arrives. */
  lemma TopDelivered(hash: Str -> Uint64, states: seq<Cluster>, steps: seq<Step>, members: set<NodeId>,
                     k: Str, e: Entry, m: NodeId, p: NodeId) returns (packet: Packet, j: nat)
    requires QuietTrace(hash, states, steps) && Reliable(hash, states, steps)
    requires Inv(hash, states[0]) && Bounded(states[0], k, e) && Stored(states[0], m, k, e)
    requires Pushes(hash, states, steps, m, members) && p in members && p != m
    requires Exchanges(steps, m) >= |Peers(members, m)|
    ensures j < |steps| && steps[j] == Deliver(packet)
    ensures packet.to == p && packet.msg.EntryBatch? && Keyed(k, e) in packet.msg.entries
  {
    var i := ReachesEveryPeer(hash, states, steps, m, members, p);
    StaysAtTop(hash, states, steps, k, e, 0, i, m);
    SnapshotHas(hash, states[i], steps[i], m, k, e);
    packet := Packet(p, EntryBatch(steps[i].items));
    j := PushDelivered(hash, states, steps, i, m, p);
  }

  lemma ReachableIsSourced(hash: Str -> Uint64, init: Cluster, before: seq<Step>)
    requires Init(init) && Runnable(hash, init, before) && ServerRun(hash, init, before)
    ensures Inv(hash, Run(hash, init, before)) && Sourced(Run(hash, init, before))
  {
    InitInv(hash, init);
    InitSourced(init);
    assert Inv(hash, Run(hash, init, before)) by { RunInv(hash, init, before); }
    assert Sourced(Run(hash, init, before)) by { RunSourced(hash, init, before); }
  }

  lemma InitSourced(init: Cluster)
    requires Init(init)
    ensures Sourced(init)
  {
    assert forall n :: n in init.nodes ==> Fresh(init.nodes[n]);
  }

  /** Convergence. After any run, with any ring changes, let a quiet trace follow in which the
      members are the cluster's nodes, every node exchanges at least as often as it has peers and
      every snapshot sent arrives. Then for every key that some node stores, all its replicas end
      with the same entry, the newest that any node stored when the trace began. */
  lemma Converges(hash: Str -> Uint64, init: Cluster, before: seq<Step>, states: seq<Cluster>, steps: seq<Step>,
                  members: set<NodeId>, k: Str) returns (e: Entry)
    requires Init(init) && Runnable(hash, init, before) && ServerRun(hash, init, before)
    requires QuietTrace(hash, states, steps) && states[0] == Run(hash, init, before)
    requires Reliable(hash, states, steps)
    requires states[0].nodes.Keys == members
    requires forall i :: 0 <= i < |steps| && steps[i].Exchange? ==> steps[i].members == members
    requires forall n :: n in members ==> Exchanges(steps, n) >= |members| - 1
    requires exists n, x :: Stored(states[0], n, k, x)
    ensures IsTop(states[0], k, e)
    ensures forall p :: p in members && IsReplica(hash, states[0].nodes[p], p, k) ==> Stored(states[|steps|], p, k, e)
  {
    ReachableIsSourced(hash, init, before);
    e := TopExists(states[0], k);
    TopBounds(states[0], k, e);
    var m :| Stored(states[0], m, k, e);
    assert m in states[0].nodes.Keys;
    forall p | p in members && IsReplica(hash, states[0].nodes[p], p, k) ensures Stored(states[|steps|], p, k, e) {
      ReplicaReachesTop(hash, states, steps, members, k, e, m, p);
    }
  }
}
