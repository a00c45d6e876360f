/** The hash ring as the mutable object shared by the server and the gossip layer. The slice of
    virtual nodes is `buf[..size]`; removal compacts it in place. */
module RingObject {
  import opened Strings
  import opened Sorting
  import opened HashRing
  import opened RingChanges

  const NUM_SLOTS: nat := 16384

  datatype SlotRange = SlotRange(start: int, end: int, node: Replica)

  /** "SLOT:" followed by the slot number. */
  function SlotName(slot: nat): Str {
    [83, 76, 79, 84, 58] + Itoa(slot)
  }

  function SlotOwner(hash: Str -> Uint64, es: seq<RingEntry>, slot: nat): Replica {
    Owner(es, hash(SlotName(slot)))
  }

  ghost function SlotMap(hash: Str -> Uint64, es: seq<RingEntry>): nat -> Replica {
    (slot: nat) => SlotOwner(hash, es, slot)
  }

  /** `ranges` cover the slots below `upto`, in order and without gaps or overlaps; every slot
      belongs to the node of its range, and neighbouring ranges belong to different nodes. */
  ghost predicate RunLengths(owner: nat -> Replica, upto: int, ranges: seq<SlotRange>) {
    && (forall i :: 0 <= i < |ranges| ==> IsRun(owner, ranges, i))
    && upto == (if ranges == [] then 0 else ranges[|ranges| - 1].end + 1)
  }

  ghost predicate IsRun(owner: nat -> Replica, ranges: seq<SlotRange>, i: nat)
    requires i < |ranges|
  {
    var r := ranges[i];
    && 0 <= r.start <= r.end
    && r.start == (if i == 0 then 0 else ranges[i - 1].end + 1)
    && (i > 0 ==> r.node.nodeId != ranges[i - 1].node.nodeId)
    && (forall slot :: r.start <= slot <= r.end ==> owner(slot) == r.node)
  }

  lemma {:induction false} RangesBounded(owner: nat -> Replica, upto: int, ranges: seq<SlotRange>, i: nat)
    requires RunLengths(owner, upto, ranges) && i < |ranges|
    ensures ranges[i].end < upto
    ensures i + 1 < |ranges| ==> ranges[i].end + 1 < upto
    decreases |ranges| - i
  {
    if i + 1 < |ranges| {
      assert IsRun(owner, ranges, i + 1);
      RangesBounded(owner, upto, ranges, i + 1);
    }
  }

  lemma SameRange(owner: nat -> Replica, upto: int, a: seq<SlotRange>, b: seq<SlotRange>, i: nat)
    requires RunLengths(owner, upto, a) && RunLengths(owner, upto, b)
    requires i < |a| && i < |b| && a[i].start == b[i].start
    ensures a[i].end <= b[i].end
    ensures a[i].node == b[i].node
  {
    assert IsRun(owner, a, i) && IsRun(owner, b, i);
    assert owner(a[i].start) == a[i].node == b[i].node;
    if b[i].end < a[i].end {
      RangesBounded(owner, upto, a, i);
      NextDiffers(owner, upto, b, i);
    }
  }

  lemma NextDiffers(owner: nat -> Replica, upto: int, ranges: seq<SlotRange>, i: nat)
    requires RunLengths(owner, upto, ranges) && i < |ranges| && 0 <= ranges[i].end && ranges[i].end + 1 < upto
    ensures owner(ranges[i].end + 1).nodeId != ranges[i].node.nodeId
  {
    assert IsRun(owner, ranges, i + 1);
  }

  lemma {:induction false} RunLengthsAgree(owner: nat -> Replica, upto: int, a: seq<SlotRange>, b: seq<SlotRange>,
                                           i: nat)
    requires RunLengths(owner, upto, a) && RunLengths(owner, upto, b)
    requires i < |a|
    ensures i < |b| && a[i] == b[i]
  {
    assert IsRun(owner, a, i);
    if i == 0 {
      RangesBounded(owner, upto, a, 0);
      assert upto > 0;
    } else {
      RunLengthsAgree(owner, upto, a, b, i - 1);
      RangesBounded(owner, upto, a, i - 1);
      assert b[i - 1].end + 1 < upto == b[|b| - 1].end + 1;
    }
    assert IsRun(owner, b, i);
    SameRange(owner, upto, a, b, i);
    SameRange(owner, upto, b, a, i);
  }

  /** The run-length encoding of an owner function is unique. */
  lemma RunLengthsUnique(owner: nat -> Replica, upto: int, a: seq<SlotRange>, b: seq<SlotRange>)
    requires RunLengths(owner, upto, a) && RunLengths(owner, upto, b)
    ensures a == b
  {
    forall i | 0 <= i < |a| ensures i < |b| && a[i] == b[i] {
      RunLengthsAgree(owner, upto, a, b, i);
    }
    forall i | 0 <= i < |b| ensures i < |a| && a[i] == b[i] {
      RunLengthsAgree(owner, upto, b, a, i);
    }
    assert |a| > 0 ==> |a| - 1 < |b|;
    assert |b| > 0 ==> |b| - 1 < |a|;
  }

  lemma ExtendRuns(owner: nat -> Replica, start: nat, ranges: seq<SlotRange>, end: nat, node: Replica)
    requires RunLengths(owner, start, ranges) && start <= end
    requires ranges != [] ==> ranges[|ranges| - 1].node.nodeId != node.nodeId
    requires forall s :: start <= s <= end ==> owner(s) == node
    ensures RunLengths(owner, end + 1, ranges + [SlotRange(start, end, node)])
  {
    var more := ranges + [SlotRange(start, end, node)];
    forall i | 0 <= i < |more| ensures IsRun(owner, more, i) {
      if i < |ranges| {
        assert IsRun(owner, ranges, i);
      }
    }
  }

  /** Closed runs up to `start`, then an open run of `node` up to `slot`. */
  ghost predicate Running(owner: nat -> Replica, ranges: seq<SlotRange>, start: nat, node: Replica, slot: nat) {
    && start < slot
    && RunLengths(owner, start, ranges)
    && (ranges != [] ==> ranges[|ranges| - 1].node.nodeId != node.nodeId)
    && (forall s :: start <= s < slot ==> owner(s) == node)
  }

  /** A node appears at one address only. */
  ghost predicate OneAddressEach(owner: nat -> Replica) {
    forall s, t :: owner(s).nodeId == owner(t).nodeId ==> owner(s) == owner(t)
  }

  lemma SameRun(owner: nat -> Replica, ranges: seq<SlotRange>, start: nat, node: Replica, slot: nat)
    requires OneAddressEach(owner) && Running(owner, ranges, start, node, slot)
    requires owner(slot).nodeId == node.nodeId
    ensures Running(owner, ranges, start, node, slot + 1)
  {
    assert owner(start) == node;
  }

  lemma NextRun(owner: nat -> Replica, ranges: seq<SlotRange>, start: nat, node: Replica, slot: nat)
    requires Running(owner, ranges, start, node, slot)
    requires owner(slot).nodeId != node.nodeId
    ensures Running(owner, ranges + [SlotRange(start, slot - 1, node)], slot, owner(slot), slot + 1)
  {
    ExtendRuns(owner, start, ranges, slot - 1, node);
  }

  predicate ByHash(a: RingEntry, b: RingEntry) {
    a.hash < b.hash
  }

  /** Keeps, in place and in order, the first `n` elements that do not belong to `id`. */
  method Compact(a: array<RingEntry>, n: nat, id: Str) returns (kept: nat)
    requires n <= a.Length
    modifies a
    ensures kept <= n && a[..kept] == Without(old(a[..n]), id)
  {
    ghost var before := a[..n];
    kept := 0;
    for i := 0 to n
      invariant kept <= i
      invariant a[..kept] == Without(before[..i], id)
      invariant forall k :: i <= k < n ==> a[k] == before[k]
    {
      assert before[..i + 1] == before[..i] + [before[i]];
      WithoutAppend(before[..i], [before[i]], id);
      if a[i].nodeId != id {
        a[kept] := a[i];
        kept := kept + 1;
      }
    }
    assert before[..n] == before;
  }

  method MakeVirtualNodes(hash: Str -> Uint64, nodeID: Str, address: Str, count: nat) returns (added: seq<RingEntry>)
    ensures added == VirtualNodes(hash, nodeID, address, count)
  {
    added := [];
    for i := 0 to count
      invariant added == VirtualNodes(hash, nodeID, address, i)
    {
      added := added + [RingEntry(hash(nodeID + [58] + Itoa(i)), nodeID, address)];
    }
  }

  method SortByHash(xs: seq<RingEntry>) returns (r: array<RingEntry>)
    ensures fresh(r) && Sorted(r[..r.Length]) && multiset(r[..r.Length]) == multiset(xs)
  {
    var sorted := Sort(ByHash, xs);
    r := new RingEntry[|sorted|](i requires 0 <= i < |sorted| => sorted[i]);
    assert r[..r.Length] == sorted;
  }

  /** One turn of the walk: a node met before is skipped, any other becomes the next replica. */
  lemma WalkStep(w: seq<RingEntry>, i: nat, seen: set<Str>, replicas: seq<Replica>)
    requires i < |w| && replicas + Distinct(w[i..], seen) == Distinct(w, {})
    ensures w[i].nodeId in seen ==> replicas + Distinct(w[i + 1..], seen) == Distinct(w, {})
    ensures w[i].nodeId !in seen ==>
              (replicas + [ReplicaOf(w[i])]) + Distinct(w[i + 1..], seen + {w[i].nodeId}) == Distinct(w, {})
  {
    assert w[i..][1..] == w[i + 1..];
    Associative(replicas, [ReplicaOf(w[i])], Distinct(w[i + 1..], seen + {w[i].nodeId}));
  }

  /** `addrs` has the nodes of the first `i` entries, each with its one address. */
  ghost predicate Addressed(es: seq<RingEntry>, addrs: map<Str, Str>, i: nat) {
    && (forall k :: 0 <= k < |es| && k < i ==> es[k].nodeId in addrs)
    && (forall k :: 0 <= k < |es| && es[k].nodeId in addrs ==> addrs[es[k].nodeId] == es[k].address)
  }

  lemma AddressStep(es: seq<RingEntry>, addrs: map<Str, Str>, i: nat)
    requires OneAddress(es) && i < |es| && Addressed(es, addrs, i)
    ensures Addressed(es, if es[i].nodeId in addrs then addrs else addrs[es[i].nodeId := es[i].address], i + 1)
  {
  }

  class Hashring {
    const hash: Str -> Uint64
    var buf: array<RingEntry>
    var size: nat
    var nodes: set<Str>
    var nodeReplicas: map<Str, int>
    ghost var shape: Shape

    ghost predicate Valid()
      reads this, buf
    {
      size <= buf.Length && Realizes(hash, shape, Value())
    }

    function Entries(): seq<RingEntry>
      requires size <= buf.Length
      reads this, buf
    {
      buf[..size]
    }

    function Value(): Ring
      requires size <= buf.Length
      reads this, buf
    {
      Ring(buf[..size], nodes, nodeReplicas)
    }

    constructor (hash: Str -> Uint64)
      ensures Valid() && fresh(buf)
      ensures Value() == EMPTY_RING && shape == map[] && this.hash == hash
    {
      this.hash := hash;
      buf := new RingEntry[0];
      size := 0;
      nodes, nodeReplicas := {}, map[];
      shape := map[];
    }

    method RemoveNode(nodeID: Str)
      requires Valid()
      modifies this, buf
      ensures Valid() && buf == old(buf)
      ensures Value() == Removed(old(Value()), nodeID)
      ensures shape == old(shape) - {nodeID}
    {
      ghost var before := Value();
      nodes := nodes - {nodeID};
      nodeReplicas := nodeReplicas - {nodeID};
      size := Compact(buf, size, nodeID);
      shape := shape - {nodeID};
      RemoveRealizes(hash, old(shape), before, nodeID);
    }

    method AddNode(nodeID: Str, address: Str, replicas: int)
      requires Valid()
      modifies this, buf
      ensures Valid() && (buf == old(buf) || fresh(buf))
      ensures Added(hash, old(Value()), nodeID, address, replicas, Value())
      ensures shape == old(shape)[nodeID := Member(address, Effective(replicas))]
    {
      ghost var before, beforeShape := Value(), shape;
      var count := if replicas <= 0 then DEFAULT_REPLICAS else replicas;
      RemoveNode(nodeID);
      var rest := buf[..size];
      nodes := nodes + {nodeID};
      nodeReplicas := nodeReplicas[nodeID := count];
      var added := MakeVirtualNodes(hash, nodeID, address, count);
      buf := SortByHash(rest + added);
      size := buf.Length;
      shape := beforeShape[nodeID := Member(address, count)];
      ghost var after := Value();
      AddCompletes(hash, beforeShape, before, nodeID, address, replicas, after);
    }

    /** `sort.Search` for the first entry whose hash is at least `h`. */
    method Search(h: Uint64) returns (i: nat)
      requires Valid()
      ensures LowerBound(Entries(), h, i)
    {
      i := 0;
      var j := size;
      while i < j
        invariant 0 <= i <= j <= size
        invariant forall k :: 0 <= k < i ==> buf[..size][k].hash < h
        invariant forall k :: j <= k < size ==> h <= buf[..size][k].hash
      {
        var mid := (i + j) / 2;
        ghost var es := buf[..size];
        assert buf[mid] == es[mid];
        if buf[mid].hash < h {
          i := mid + 1;
        } else {
          j := mid;
        }
      }
    }

    method GetNode(key: Str) returns (nodeID: Str, address: Str)
      requires Valid()
      ensures Replica(nodeID, address) == Owner(Entries(), hash(key))
    {
      if size == 0 {
        assert Clockwise(Entries(), hash(key)) == [];
        return [], [];
      }
      var e := OwnerEntry(hash(key));
      return e.nodeId, e.address;
    }

    method OwnerEntry(h: Uint64) returns (e: RingEntry)
      requires Valid() && size > 0
      ensures e in Entries() && ReplicaOf(e) == Owner(Entries(), h)
    {
      var idx := Search(h);
      OwnerAt(Entries(), h, idx);
      if idx == size {
        idx := 0;
      }
      e := buf[idx];
      assert e == Entries()[idx];
    }

    /** The entry `i` places after the binary search's answer, around the ring. */
    method EntryAt(h: Uint64, found: nat, i: nat) returns (e: RingEntry)
      requires Valid() && LowerBound(Entries(), h, found) && i < size
      ensures |Clockwise(Entries(), h)| == size && e == Clockwise(Entries(), h)[i]
    {
      var idx := if found == size then 0 else found;
      WalkIsClockwise(Entries(), h, found, i);
      e := buf[(idx + i) % size];
      assert e == Entries()[(idx + i) % size];
    }

    method GetReplicas(key: Str, count: int) returns (replicas: seq<Replica>)
      requires Valid()
      ensures replicas == Replicas(Entries(), hash(key), count)
    {
      if size == 0 || count <= 0 {
        assert size == 0 ==> Clockwise(Entries(), hash(key)) == [];
        return [];
      }
      var h := hash(key);
      var found := Search(h);
      ghost var w := Clockwise(Entries(), h);
      WalkIsClockwise(Entries(), h, found, 0);
      var seen: set<Str> := {};
      replicas := [];
      for i := 0 to size
        invariant |w| == size && |replicas| < count
        invariant replicas + Distinct(w[i..], seen) == Distinct(w, {})
      {
        var e := EntryAt(h, found, i);
        WalkStep(w, i, seen, replicas);
        if e.nodeId in seen {
          continue;
        }
        seen := seen + {e.nodeId};
        replicas := replicas + [Replica(e.nodeId, e.address)];
        if |replicas| >= count {
          return;
        }
      }
      assert w[size..] == [];
    }

    /** One address per node, taken from its first entry. */
    method NodeAddresses() returns (addrs: map<Str, Str>)
      requires Valid()
      ensures forall e :: e in Entries() ==> e.nodeId in addrs && addrs[e.nodeId] == e.address
    {
      addrs := map[];
      RealizedRing(hash, shape, Value());
      ghost var es := Entries();
      for i := 0 to size
        invariant Addressed(es, addrs, i)
      {
        assert buf[i] == es[i];
        AddressStep(es, addrs, i);
        if buf[i].nodeId !in addrs {
          addrs := addrs[buf[i].nodeId := buf[i].address];
        }
      }
    }

    method SlotOwnerOf(addrs: map<Str, Str>, slot: nat) returns (r: Replica)
      requires Valid() && size > 0
      requires forall e :: e in Entries() ==> e.nodeId in addrs && addrs[e.nodeId] == e.address
      ensures r == SlotOwner(hash, Entries(), slot)
    {
      var e := OwnerEntry(hash(SlotName(slot)));
      return Replica(e.nodeId, addrs[e.nodeId]);
    }

    /** The slot ranges for any positive number of slots. */
    method SlotRanges(numSlots: nat) returns (ranges: seq<SlotRange>)
      requires Valid() && numSlots > 0
      ensures size == 0 ==> ranges == []
      ensures size > 0 ==> RunLengths(SlotMap(hash, Entries()), numSlots, ranges)
    {
      if size == 0 {
        return [];
      }
      ghost var es := Entries();
      ghost var owner := SlotMap(hash, es);
      var addrs := NodeAddresses();
      ranges := [];
      forall s: nat, t: nat ensures owner(s).nodeId == owner(t).nodeId ==> owner(s) == owner(t) {
        OwnersOfNode(hash(SlotName(s)), hash(SlotName(t)));
      }
      var currentStart: nat := 0;
      var currentOwner := SlotOwnerOf(addrs, 0);
      for slot := 1 to numSlots
        invariant Running(owner, ranges, currentStart, currentOwner, slot)
      {
        var next := SlotOwnerOf(addrs, slot);
        assert next == owner(slot);
        if next.nodeId != currentOwner.nodeId {
          NextRun(owner, ranges, currentStart, currentOwner, slot);
          ranges := ranges + [SlotRange(currentStart, slot - 1, currentOwner)];
          currentStart := slot;
          currentOwner := next;
        } else {
          SameRun(owner, ranges, currentStart, currentOwner, slot);
        }
      }
      ExtendRuns(owner, currentStart, ranges, numSlots - 1, currentOwner);
      ranges := ranges + [SlotRange(currentStart, numSlots - 1, currentOwner)];
    }

    /** Two keys owned by the same node are owned at the same address. */
    lemma OwnersOfNode(g: Uint64, h: Uint64)
      requires Valid() && size > 0
      ensures Owner(Entries(), g).nodeId == Owner(Entries(), h).nodeId ==> Owner(Entries(), g) == Owner(Entries(), h)
    {
      RealizedRing(hash, shape, Value());
      var d := OwnerIsNearest(Entries(), g);
      var e := OwnerIsNearest(Entries(), h);
    }

    method GetSlotRanges() returns (ranges: seq<SlotRange>)
      requires Valid()
      ensures size == 0 ==> ranges == []
      ensures size > 0 ==> RunLengths(SlotMap(hash, Entries()), NUM_SLOTS, ranges)
    {
      ranges := SlotRanges(NUM_SLOTS);
    }
  }
}
