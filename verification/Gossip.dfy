/** The gossip handler as the object that runs on each node: its message handlers, anti-entropy
    round and quorum write, verified against the node functions of the protocol. */
module Gossip {
  import opened Strings
  import opened Sorting
  import opened LwwStore
  import opened HashRing
  import opened RingChanges
  import opened Cluster
  import opened StoreObject
  import opened RingObject

  /** The distinct expected nodes that acknowledged. */
  ghost function Ackers(expected: set<NodeId>, acks: seq<Ack>): set<NodeId> {
    set a | a in acks && a.ok && a.node in expected :: a.node
  }

  lemma AckersSnoc(expected: set<NodeId>, acks: seq<Ack>, i: nat)
    requires i < |acks|
    ensures Ackers(expected, acks[..i + 1]) == CountAck(expected, Ackers(expected, acks[..i]), acks[i])
  {
    assert acks[..i + 1] == acks[..i] + [acks[i]];
  }

  lemma AckersPrefix(expected: set<NodeId>, acks: seq<Ack>, i: nat)
    requires i <= |acks|
    ensures Ackers(expected, acks[..i]) <= Ackers(expected, acks)
    ensures |Ackers(expected, acks[..i])| <= |Ackers(expected, acks)|
  {
    SubsetCount(Ackers(expected, acks[..i]), Ackers(expected, acks));
  }

  /** The waiting loop: takes acknowledgements in order of arrival until there are enough or, at
      the deadline, none are left. Strangers, rejections and duplicates do not count. */
  method AwaitAcks(expected: set<NodeId>, w: int, arrivals: seq<Ack>) returns (ok: bool, acked: set<NodeId>)
    requires w > 1
    ensures ok <==> 1 + |Ackers(expected, arrivals)| >= w
    ensures acked <= Ackers(expected, arrivals)
    ensures ok ==> 1 + |acked| == w
  {
    var acks := 1;
    var i := 0;
    acked := {};
    while acks < w
      invariant i <= |arrivals| && acks == 1 + |acked| <= w
      invariant acked == Ackers(expected, arrivals[..i])
      decreases |arrivals| - i
    {
      if i == |arrivals| {
        assert arrivals[..i] == arrivals;
        return false, acked;
      }
      AckersSnoc(expected, arrivals, i);
      var res := arrivals[i];
      i := i + 1;
      if res.node in expected && res.ok {
        if res.node !in acked {
          acked := acked + {res.node};
          acks := acks + 1;
        } else {
          assert acked + {res.node} == acked;
        }
      }
    }
    AckersPrefix(expected, arrivals, i);
    return true, acked;
  }

  datatype Outcome = Replicated(holders: set<NodeId>) | Unreachable | TimedOut

  /** What a quorum write comes to, given the sends that fail and the acknowledgements that
      arrive in time. */
  ghost predicate QuorumOutcome(me: NodeId, remote: seq<NodeId>, w: int, failed: set<NodeId>, arrivals: seq<Ack>,
                                r: Outcome)
  {
    var expected := Reached(remote, failed);
    if w <= 1 then r == Replicated({me})
    else if w > |remote| + 1 || w > |expected| + 1 then r == Unreachable
    else if 1 + |Ackers(expected, arrivals)| < w then r == TimedOut
    else r.Replicated? && |r.holders| == w && me in r.holders && r.holders <= Ackers(expected, arrivals) + {me}
  }

  /** One request per remote replica. */
  ghost function Requests(me: NodeId, remote: seq<NodeId>, request: nat, key: Str, entry: Entry): set<Packet> {
    set x | x in remote :: Packet(x, ReplicateRequest(request, me, [Keyed(key, entry)]))
  }

  lemma RequestsSnoc(me: NodeId, remote: seq<NodeId>, request: nat, key: Str, entry: Entry, i: nat)
    requires i < |remote|
    ensures Requests(me, remote[..i + 1], request, key, entry) ==
            Requests(me, remote[..i], request, key, entry) +
            {Packet(remote[i], ReplicateRequest(request, me, [Keyed(key, entry)]))}
  {
    assert remote[..i + 1] == remote[..i] + [remote[i]];
  }

  ghost function Reached(remote: seq<NodeId>, failed: set<NodeId>): set<NodeId> {
    set x | x in remote && x !in failed
  }

  lemma ReachedSnoc(remote: seq<NodeId>, failed: set<NodeId>, i: nat)
    requires i < |remote|
    ensures Reached(remote[..i + 1], failed) ==
            Reached(remote[..i], failed) + (if remote[i] in failed then {} else {remote[i]})
  {
    assert remote[..i + 1] == remote[..i] + [remote[i]];
  }

  /** The write concern is met: enough replicas, enough successful sends, enough answers. */
  ghost predicate QuorumMet(remote: seq<NodeId>, w: int, failed: set<NodeId>, arrivals: seq<Ack>) {
    var expected := Reached(remote, failed);
    w <= 1 || (w <= |remote| + 1 && w <= |expected| + 1 && w <= 1 + |Ackers(expected, arrivals)|)
  }

  lemma {:induction false} OthersExcludeMe(rs: seq<Replica>, me: NodeId)
    ensures me !in Others(rs, me)
  {
    if rs != [] {
      OthersExcludeMe(rs[1..], me);
    }
  }

  lemma AcceptedSnoc(hash: Str -> Uint64, node: Node, me: NodeId, xs: seq<Keyed>, i: nat)
    requires i < |xs|
    ensures var before := MergeAll(node.store, Accepted(hash, node, me, xs[..i]));
            MergeAll(node.store, Accepted(hash, node, me, xs[..i + 1])) ==
            if IsReplica(hash, node, me, xs[i].key) then Merge(before, xs[i]) else before
  {
    assert xs[..i + 1][..i] == xs[..i];
    var before := Accepted(hash, node, me, xs[..i]);
    if IsReplica(hash, node, me, xs[i].key) {
      assert (before + [xs[i]])[..|before|] == before;
    } else {
      assert before + [] == before;
    }
  }

  /** One turn of serving: a key of this node moves into the prefix, any other ends it. */
  lemma ServedStep(hash: Str -> Uint64, node: Node, me: NodeId, xs: seq<Keyed>, i: nat)
    requires i < |xs| && Served(hash, node, me, xs) == xs[..i] + Served(hash, node, me, xs[i..])
    ensures IsReplica(hash, node, me, xs[i].key) ==>
              Served(hash, node, me, xs) == xs[..i + 1] + Served(hash, node, me, xs[i + 1..])
    ensures !IsReplica(hash, node, me, xs[i].key) ==> Served(hash, node, me, xs) == xs[..i]
  {
    assert xs[i..][1..] == xs[i + 1..];
    Associative(xs[..i], [xs[i]], Served(hash, node, me, xs[i + 1..]));
    assert xs[..i] + [xs[i]] == xs[..i + 1];
    assert xs[..i] + [] == xs[..i];
  }

  lemma MergeAllSnoc(s: State, xs: seq<Keyed>, i: nat)
    requires i < |xs|
    ensures MergeAll(s, xs[..i + 1]) == Merge(MergeAll(s, xs[..i]), xs[i])
  {
    assert xs[..i + 1][..i] == xs[..i];
  }

  /** Lists a map's entries in whatever order they come. */
  method ListEntries(tree: map<Str, Entry>) returns (items: seq<Keyed>)
    ensures IsSnapshot(tree, items)
    ensures items == [] <==> tree == map[]
  {
    items := [];
    var rest := tree.Keys;
    while rest != {}
      invariant rest <= tree.Keys
      invariant forall x :: x in items <==> x.key in tree.Keys - rest && tree[x.key] == x.entry
      invariant items == [] ==> rest == tree.Keys
      invariant items != [] ==> rest != tree.Keys
    {
      var k :| k in rest;
      rest := rest - {k};
      items := items + [Keyed(k, tree[k])];
      assert k !in rest && k in tree.Keys;
    }
    assert items == [] ==> tree.Keys == {};
  }

  lemma LessIsStrictOrder()
    ensures StrictOrder(Less)
  {
    forall x: Str ensures !Less(x, x) { LessTrichotomy(x, x); }
    forall x: Str, y: Str, z: Str | Less(x, y) && Less(y, z) ensures Less(x, z) { LessTransitive(x, y, z); }
  }

  predicate AllDifferent(names: seq<NodeId>) {
    forall i, j :: 0 <= i < j < |names| ==> names[i] != names[j]
  }

  lemma OrderedDifferentAscends(names: seq<NodeId>)
    requires Ordered(Less, names) && AllDifferent(names)
    ensures Ascending(names)
  {
    forall i, j | 0 <= i < j < |names| ensures Less(names[i], names[j]) {
      LessTrichotomy(names[i], names[j]);
    }
  }

  lemma {:induction false} SameBagDifferent(a: seq<NodeId>, b: seq<NodeId>)
    requires AllDifferent(a) && multiset(a) == multiset(b)
    ensures AllDifferent(b)
  {
    forall i, j | 0 <= i < j < |b| ensures b[i] != b[j] {
      if b[i] == b[j] {
        CountsTwice(b, i, j);
        CountsOnce(a, b[i]);
      }
    }
  }

  lemma CountsTwice(b: seq<NodeId>, i: nat, j: nat)
    requires i < j < |b| && b[i] == b[j]
    ensures multiset(b)[b[i]] >= 2
  {
    assert b == b[..j] + [b[j]] + b[j + 1..];
    assert b[i] in b[..j];
  }

  lemma {:induction false} CountsOnce(a: seq<NodeId>, x: NodeId)
    requires AllDifferent(a)
    ensures multiset(a)[x] <= 1
  {
    if a != [] {
      CountsOnce(a[1..], x);
      assert a == [a[0]] + a[1..];
      if a[0] == x {
        assert x !in a[1..];
      }
    }
  }

  /** Drops this node from the member list and sorts the rest by name. */
  method SortedPeers(members: seq<NodeId>, me: NodeId) returns (peers: seq<NodeId>)
    requires AllDifferent(members)
    ensures peers == Peers(Elements(members), me)
  {
    var others := [];
    for i := 0 to |members|
      invariant forall x :: x in others <==> x in members[..i] && x != me
      invariant AllDifferent(others)
    {
      assert members[..i + 1] == members[..i] + [members[i]];
      if members[i] != me {
        assert members[i] !in members[..i];
        others := others + [members[i]];
      }
    }
    assert members[..|members|] == members;
    LessIsStrictOrder();
    peers := Sort(Less, others);
    SameBagDifferent(others, peers);
    OrderedDifferentAscends(peers);
    ghost var all := Elements(members);
    SortedKeysOrdered(all - {me});
    forall x ensures x in peers <==> x in SortedKeys(all - {me}) {
      assert x in peers <==> x in multiset(peers);
      assert x in others <==> x in multiset(others);
    }
    AscendingUnique(peers, SortedKeys(all - {me}));
  }

  class Handler {
    const id: NodeId
    const rf: int
    const writeConcern: int
    const store: Store
    const ring: Hashring
    var pendingReqs: map<nat, Channel>
    var antiEntropyPos: nat

    /** A write concern outside 1 to `rf` means all replicas. */
    constructor (id: NodeId, rf: int, writeConcern: int, store: Store, ring: Hashring)
      requires ring.Valid()
      ensures Valid() && this.id == id && this.rf == rf && this.store == store && this.ring == ring
      ensures pendingReqs == map[] && antiEntropyPos == 0
      ensures rf >= 1 ==> 1 <= this.writeConcern <= rf
      ensures this.writeConcern == (if 1 <= writeConcern <= rf then writeConcern else rf)
    {
      this.id, this.rf, this.store, this.ring := id, rf, store, ring;
      this.writeConcern := if writeConcern <= 0 || writeConcern > rf then rf else writeConcern;
      pendingReqs, antiEntropyPos := map[], 0;
    }

    ghost predicate Valid()
      reads this, store, ring, ring.buf
    {
      ring.Valid()
    }

    /** The node of the protocol that this handler implements, apart from its calls under way. */
    function View(): Node
      requires ring.size <= ring.buf.Length
      reads this, store, ring, ring.buf
    {
      Node(rf, store.State(), ring.Value(), map[], pendingReqs, antiEntropyPos)
    }

    method CheckReplica(key: Str) returns (isReplica: bool)
      requires Valid()
      ensures isReplica == IsReplica(ring.hash, View(), id, key)
    {
      var replicas := ring.GetReplicas(key, rf);
      isReplica := false;
      for i := 0 to |replicas|
        invariant !isReplica
        invariant forall j :: 0 <= j < i ==> replicas[j].nodeId != id
      {
        if replicas[i].nodeId == id {
          return true;
        }
      }
    }

    method HandleReplication(entries: seq<Keyed>)
      requires Valid()
      modifies store
      ensures Valid() && View() == BatchEffect(ring.hash, old(View()), id, entries).node
    {
      ghost var node := View();
      for i := 0 to |entries|
        invariant store.State() == MergeAll(node.store, Accepted(ring.hash, node, id, entries[..i]))
      {
        AcceptedSnoc(ring.hash, node, id, entries, i);
        var e := entries[i];
        var isReplica := CheckReplica(e.key);
        if !isReplica {
          continue;
        }
        var _ := store.SetWithVersion(e.key, e.entry);
      }
      assert entries[..|entries|] == entries;
    }

    method HandleReplicateRequest(request: nat, sender: NodeId, entries: seq<Keyed>) returns (reply: Packet)
      requires Valid()
      modifies store
      ensures Valid() && View() == RequestEffect(ring.hash, old(View()), id, request, sender, entries).node
      ensures RequestEffect(ring.hash, old(View()), id, request, sender, entries).out == {reply}
    {
      ghost var node := View();
      ghost var served := Served(ring.hash, node, id, entries);
      var success := true;
      var i := 0;
      assert served == entries[..0] + Served(ring.hash, node, id, entries[0..]);
      while i < |entries|
        invariant i <= |entries| && success
        invariant served == entries[..i] + Served(ring.hash, node, id, entries[i..])
        invariant store.State() == MergeAll(node.store, entries[..i])
      {
        ServedStep(ring.hash, node, id, entries, i);
        MergeAllSnoc(node.store, entries, i);
        var e := entries[i];
        var isReplica := CheckReplica(e.key);
        if !isReplica {
          success := false;
          break;
        }
        var _ := store.SetWithVersion(e.key, e.entry);
        i := i + 1;
      }
      assert served == entries[..i];
      reply := Packet(sender, ReplicateResponse(request, id, success));
    }

    method HandleReplicateResponse(request: nat, from: NodeId, success: bool)
      requires Valid()
      modifies this
      ensures Valid() && View() == ResponseEffect(old(View()), request, from, success).node
    {
      if request !in pendingReqs {
        return;
      }
      var ch := pendingReqs[request];
      if |ch.queue| < ch.capacity {
        pendingReqs := pendingReqs[request := ch.(queue := ch.queue + [Ack(from, success)])];
      }
    }

    /** One anti-entropy round; `members` is the transport's member list. */
    method ExchangeState(members: seq<NodeId>) returns (sent: set<Packet>, ghost items: seq<Keyed>)
      requires Valid() && AllDifferent(members)
      modifies this
      ensures Valid() && IsSnapshot(old(store.tree), items)
      ensures var e := ExchangeEffect(old(View()), id, Elements(members), items);
              View() == e.node && sent == e.out
    {
      var snapshot := store.Snapshot();
      var entries := ListEntries(snapshot);
      items, sent := entries, {};
      MemberCount(members);
      if |entries| == 0 || |members| <= 1 {
        return;
      }
      var peers := SortedPeers(members, id);
      if |peers| == 0 {
        return;
      }
      var index := antiEntropyPos % |peers|;
      var peer := peers[index];
      antiEntropyPos := (index + 1) % |peers|;
      sent := {Packet(peer, EntryBatch(entries))};
    }

    /** The quorum write, run to its end. `failed` are the nodes to which sending fails and
        `arrivals` the acknowledgements that come through the channel before the deadline. */
    method ReplicateWithQuorum(key: Str, entry: Entry, w: int, request: nat, failed: set<NodeId>, arrivals: seq<Ack>)
      returns (r: Outcome, sent: set<Packet>)
      requires Valid() && request !in pendingReqs
      modifies this, store
      ensures Valid()
      ensures View() == old(View()).(store := Merge(old(store.State()), Keyed(key, entry)))
      ensures QuorumOutcome(id, Remotes(ring.hash, ring.Entries(), rf, id, key), w, failed, arrivals, r)
      ensures var remote := Remotes(ring.hash, ring.Entries(), rf, id, key);
              sent == if 1 < w <= |remote| + 1 then Requests(id, remote, request, key, entry) else {}
    {
      var _ := store.SetWithVersion(key, entry);
      sent := {};
      if w <= 1 {
        return Replicated({id}), sent;
      }
      var remote := RemoteNodes(key);
      if w > |remote| + 1 {
        return Unreachable, sent;
      }
      ghost var pending := pendingReqs;
      pendingReqs := pendingReqs[request := Channel(|remote|, [])];
      var expected: set<NodeId>;
      sent, expected := SendAll(remote, request, key, entry, failed);
      assert pendingReqs - {request} == pending;
      if |expected| + 1 < w {
        pendingReqs := pendingReqs - {request};
        return Unreachable, sent;
      }
      var ok, acked := AwaitAcks(expected, w, arrivals);
      pendingReqs := pendingReqs - {request};
      if !ok {
        return TimedOut, sent;
      }
      OthersExcludeMe(Replicas(ring.Entries(), ring.hash(key), rf), id);
      assert id !in acked;
      return Replicated(acked + {id}), sent;
    }

    /** The sending loop: every remote replica is sent to, and those reached are expected. */
    method SendAll(remote: seq<NodeId>, request: nat, key: Str, entry: Entry, failed: set<NodeId>)
      returns (sent: set<Packet>, expected: set<NodeId>)
      ensures sent == Requests(id, remote, request, key, entry)
      ensures expected == Reached(remote, failed)
    {
      sent, expected := {}, {};
      for i := 0 to |remote|
        invariant sent == Requests(id, remote[..i], request, key, entry)
        invariant expected == Reached(remote[..i], failed)
      {
        RequestsSnoc(id, remote, request, key, entry, i);
        ReachedSnoc(remote, failed, i);
        sent := sent + {Packet(remote[i], ReplicateRequest(request, id, [Keyed(key, entry)]))};
        if remote[i] !in failed {
          expected := expected + {remote[i]};
        }
      }
      assert remote[..|remote|] == remote;
    }

    method RemoteNodes(key: Str) returns (remote: seq<NodeId>)
      requires Valid()
      ensures remote == Remotes(ring.hash, ring.Entries(), rf, id, key)
    {
      var replicas := ring.GetReplicas(key, rf);
      remote := [];
      for i := 0 to |replicas|
        invariant remote + Others(replicas[i..], id) == Others(replicas, id)
      {
        assert replicas[i..][1..] == replicas[i + 1..];
        if replicas[i].nodeId != id {
          remote := remote + [replicas[i].nodeId];
        }
      }
    }

    method HandleJoin(nodeID: NodeId, redisAddr: Str)
      requires Valid()
      modifies ring, ring.buf
      ensures Valid()
      ensures Added(ring.hash, old(ring.Value()), nodeID, redisAddr, VIRTUAL_NODES, ring.Value())
      ensures View() == old(View()).(ring := ring.Value())
    {
      ring.AddNode(nodeID, redisAddr, VIRTUAL_NODES);
    }

    method HandleLeave(nodeID: NodeId)
      requires Valid()
      modifies ring, ring.buf
      ensures Valid() && View() == old(View()).(ring := Removed(old(ring.Value()), nodeID))
    {
      ring.RemoveNode(nodeID);
    }
  }

  lemma {:induction false} MemberCount(members: seq<NodeId>)
    requires AllDifferent(members)
    ensures |Elements(members)| == |members|
  {
    if members != [] {
      MemberCount(members[1..]);
      assert members == [members[0]] + members[1..];
      assert Elements(members) == {members[0]} + Elements(members[1..]);
      assert members[0] !in members[1..];
    }
  }
}
