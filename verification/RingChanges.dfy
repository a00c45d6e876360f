/** Adding and removing nodes: what a ring holds after any history, for every outcome the
    unstable sort in `AddNode` may choose. */
module RingChanges {
  import opened Strings
  import opened Sorting
  import opened HashRing

  const DEFAULT_REPLICAS: int := 5

  datatype Ring = Ring(entries: seq<RingEntry>, nodes: set<Str>, nodeReplicas: map<Str, int>)

  const EMPTY_RING: Ring := Ring([], {}, map[])

  function VirtualNodes(hash: Str -> Uint64, id: Str, address: Str, count: nat): seq<RingEntry> {
    if count == 0 then []
    else VirtualNodes(hash, id, address, count - 1)
         + [RingEntry(hash(id + [58] + Itoa(count - 1)), id, address)]
  }

  function Effective(replicas: int): nat {
    if replicas <= 0 then DEFAULT_REPLICAS else replicas
  }

  function Removed(r: Ring, id: Str): Ring {
    Ring(Without(r.entries, id), r.nodes - {id}, r.nodeReplicas - {id})
  }

  /** `r'` is a possible result of `AddNode`: any sorted rearrangement of the remaining entries
      and the new virtual nodes. */
  ghost predicate Added(hash: Str -> Uint64, r: Ring, id: Str, address: Str, replicas: int, r': Ring) {
    && Sorted(r'.entries)
    && multiset(r'.entries) ==
         multiset(Without(r.entries, id)) + multiset(VirtualNodes(hash, id, address, Effective(replicas)))
    && r'.nodes == r.nodes - {id} + {id}
    && r'.nodeReplicas == (r.nodeReplicas - {id})[id := Effective(replicas)]
  }

  // ----- ties -----

  /** No two different nodes share a hash. */
  predicate TieFree(es: seq<RingEntry>) {
    forall i, j :: 0 <= i < j < |es| && es[i].hash == es[j].hash ==> es[i].nodeId == es[j].nodeId
  }

  /** All virtual nodes of a node carry one address. */
  predicate OneAddress(es: seq<RingEntry>) {
    forall i, j :: 0 <= i < j < |es| && es[i].nodeId == es[j].nodeId ==> es[i].address == es[j].address
  }

  lemma {:induction false} SortedUnique(a: seq<RingEntry>, b: seq<RingEntry>)
    requires Sorted(a) && Sorted(b) && multiset(a) == multiset(b)
    requires TieFree(a) && OneAddress(a)
    ensures a == b
  {
    assert |multiset(a)| == |multiset(b)|;
    if a != [] {
      HeadsAgree(a, b);
      TailBag(a);
      TailBag(b);
      SortedUnique(a[1..], b[1..]);
      assert a == [a[0]] + a[1..] && b == [b[0]] + b[1..];
    }
  }

  lemma HeadsAgree(a: seq<RingEntry>, b: seq<RingEntry>)
    requires Sorted(a) && Sorted(b) && multiset(a) == multiset(b)
    requires TieFree(a) && OneAddress(a)
    requires a != [] && b != []
    ensures a[0] == b[0]
  {
    assert b[0] in multiset(a) && a[0] in multiset(b);
    var i :| 0 <= i < |a| && a[i] == b[0];
    var j :| 0 <= j < |b| && b[j] == a[0];
    assert a[0].hash <= a[i].hash && b[0].hash <= b[j].hash;
  }

  lemma {:induction false} WithoutCount(es: seq<RingEntry>, id: Str, e: RingEntry)
    ensures multiset(Without(es, id))[e] == if e.nodeId == id then 0 else multiset(es)[e]
  {
    if es != [] {
      WithoutCount(es[1..], id, e);
      assert es == [es[0]] + es[1..];
    }
  }

  lemma {:induction false} VirtualNodesOf(hash: Str -> Uint64, id: Str, address: Str, count: nat)
    ensures |VirtualNodes(hash, id, address, count)| == count
    ensures forall e :: e in VirtualNodes(hash, id, address, count) ==> e.nodeId == id && e.address == address
  {
    if count > 0 {
      VirtualNodesOf(hash, id, address, count - 1);
    }
  }

  // ----- histories -----

  datatype Member = Member(address: Str, count: nat)

  type Shape = map<Str, Member>

  ghost function Share(hash: Str -> Uint64, shape: Shape, e: RingEntry): nat {
    if e.nodeId !in shape then 0
    else multiset(VirtualNodes(hash, e.nodeId, shape[e.nodeId].address, shape[e.nodeId].count))[e]
  }

  /** The ring holds exactly the virtual nodes of the members of `shape`, in hash order. */
  ghost predicate Realizes(hash: Str -> Uint64, shape: Shape, r: Ring) {
    && Sorted(r.entries)
    && Shares(hash, shape, r.entries)
    && Books(shape, r)
  }

  ghost predicate Shares(hash: Str -> Uint64, shape: Shape, es: seq<RingEntry>) {
    forall e :: multiset(es)[e] == Share(hash, shape, e)
  }

  /** The two bookkeeping maps agree with the members. */
  ghost predicate Books(shape: Shape, r: Ring) {
    && (forall id :: id in shape ==> shape[id].count > 0)
    && r.nodes == shape.Keys
    && r.nodeReplicas.Keys == shape.Keys
    && (forall id :: id in shape ==> r.nodeReplicas[id] == shape[id].count)
  }

  datatype Change = AddNode(id: Str, address: Str, replicas: int) | RemoveNode(id: Str)

  function Reshape(shape: Shape, c: Change): Shape {
    match c
    case AddNode(id, address, replicas) => shape[id := Member(address, Effective(replicas))]
    case RemoveNode(id) => shape - {id}
  }

  function ShapeAfter(cs: seq<Change>): Shape {
    if cs == [] then map[] else Reshape(ShapeAfter(cs[..|cs| - 1]), cs[|cs| - 1])
  }

  ghost predicate Changes(hash: Str -> Uint64, r: Ring, c: Change, r': Ring) {
    match c
    case AddNode(id, address, replicas) => Added(hash, r, id, address, replicas, r')
    case RemoveNode(id) => r' == Removed(r, id)
  }

  /** `rs` are the rings reached by performing `cs` one after the other on a new ring. */
  ghost predicate History(hash: Str -> Uint64, cs: seq<Change>, rs: seq<Ring>) {
    && |rs| == |cs| + 1
    && rs[0] == EMPTY_RING
    && forall i :: 0 <= i < |cs| ==> Changes(hash, rs[i], cs[i], rs[i + 1])
  }

  lemma RemoveRealizes(hash: Str -> Uint64, shape: Shape, r: Ring, id: Str)
    requires Realizes(hash, shape, r)
    ensures Realizes(hash, shape - {id}, Removed(r, id))
  {
    WithoutSorted(r.entries, id);
    RemoveShares(hash, shape, r.entries, id);
  }

  lemma RemoveShares(hash: Str -> Uint64, shape: Shape, es: seq<RingEntry>, id: Str)
    requires Shares(hash, shape, es)
    ensures Shares(hash, shape - {id}, Without(es, id))
  {
    forall e ensures multiset(Without(es, id))[e] == Share(hash, shape - {id}, e) {
      WithoutCount(es, id, e);
    }
  }

  lemma AddRealizes(hash: Str -> Uint64, shape: Shape, r: Ring, id: Str, address: Str, replicas: int, r': Ring)
    requires Realizes(hash, shape, r) && Added(hash, r, id, address, replicas, r')
    ensures Realizes(hash, shape[id := Member(address, Effective(replicas))], r')
  {
    AddShares(hash, shape, r.entries, id, Member(address, Effective(replicas)), r'.entries);
  }

  /** Removing first and then sorting in the new virtual nodes is an addition. */
  lemma AddCompletes(hash: Str -> Uint64, shape: Shape, r: Ring, id: Str, address: Str, replicas: int, r': Ring)
    requires Realizes(hash, shape, r)
    requires Sorted(r'.entries)
    requires multiset(r'.entries) ==
             multiset(Removed(r, id).entries + VirtualNodes(hash, id, address, Effective(replicas)))
    requires r'.nodes == Removed(r, id).nodes + {id}
    requires r'.nodeReplicas == Removed(r, id).nodeReplicas[id := Effective(replicas)]
    ensures Added(hash, r, id, address, replicas, r')
    ensures Realizes(hash, shape[id := Member(address, Effective(replicas))], r')
  {
    AddRealizes(hash, shape, r, id, address, replicas, r');
  }

  lemma AddShares(hash: Str -> Uint64, shape: Shape, es: seq<RingEntry>, id: Str, m: Member, es': seq<RingEntry>)
    requires Shares(hash, shape, es)
    requires multiset(es') == multiset(Without(es, id)) + multiset(VirtualNodes(hash, id, m.address, m.count))
    ensures Shares(hash, shape[id := m], es')
  {
    VirtualNodesOf(hash, id, m.address, m.count);
    forall e ensures multiset(es')[e] == Share(hash, shape[id := m], e) {
      WithoutCount(es, id, e);
      assert e.nodeId != id ==> e !in multiset(VirtualNodes(hash, id, m.address, m.count));
    }
  }

  /** After any history the ring holds exactly what the surviving additions put there. */
  lemma {:induction false} HistoryRealizes(hash: Str -> Uint64, cs: seq<Change>, rs: seq<Ring>)
    requires History(hash, cs, rs)
    ensures Realizes(hash, ShapeAfter(cs), rs[|cs|])
  {
    if cs != [] {
      var n := |cs| - 1;
      HistoryRealizes(hash, cs[..n], rs[..n + 1]);
      assert Changes(hash, rs[n], cs[n], rs[n + 1]);
      match cs[n]
      case AddNode(id, address, replicas) =>
        AddRealizes(hash, ShapeAfter(cs[..n]), rs[n], id, address, replicas, rs[n + 1]);
      case RemoveNode(id) =>
        RemoveRealizes(hash, ShapeAfter(cs[..n]), rs[n], id);
    }
  }

  lemma EntryOfMember(hash: Str -> Uint64, shape: Shape, r: Ring, e: RingEntry)
    requires Realizes(hash, shape, r) && e in r.entries
    ensures e.nodeId in shape && e.address == shape[e.nodeId].address
  {
    assert e in multiset(r.entries);
    assert Share(hash, shape, e) > 0;
    var m := shape[e.nodeId];
    VirtualNodesOf(hash, e.nodeId, m.address, m.count);
    assert e in multiset(VirtualNodes(hash, e.nodeId, m.address, m.count));
  }

  /** `nodes` is the set of node ids among the entries, and each node has one address. */
  lemma RealizedRing(hash: Str -> Uint64, shape: Shape, r: Ring)
    requires Realizes(hash, shape, r)
    ensures IdsOf(r.entries) == r.nodes
    ensures OneAddress(r.entries)
  {
    forall i | 0 <= i < |r.entries|
      ensures r.entries[i].nodeId in shape && r.entries[i].address == shape[r.entries[i].nodeId].address
    {
      EntryOfMember(hash, shape, r, r.entries[i]);
    }
    forall id | id in shape ensures id in IdsOf(r.entries) {
      MemberHasEntry(hash, shape, r, id);
    }
  }

  lemma MemberHasEntry(hash: Str -> Uint64, shape: Shape, r: Ring, id: Str)
    requires Realizes(hash, shape, r) && id in shape
    ensures id in IdsOf(r.entries)
  {
    var m := shape[id];
    VirtualNodesOf(hash, id, m.address, m.count);
    var vs := VirtualNodes(hash, id, m.address, m.count);
    var e := vs[0];
    assert e in vs;
    assert multiset(r.entries)[e] == Share(hash, shape, e) == multiset(vs)[e];
    assert e in multiset(vs);
    assert e in multiset(r.entries);
    assert e in r.entries;
  }

  /** Two histories that end with the same members, addresses and replica counts end with the
      same ring, unless two nodes' hashes collide. */
  lemma HistoryIndependent(hash: Str -> Uint64, cs: seq<Change>, rs: seq<Ring>, ds: seq<Change>, ts: seq<Ring>)
    requires History(hash, cs, rs) && History(hash, ds, ts)
    requires ShapeAfter(cs) == ShapeAfter(ds)
    requires TieFree(rs[|cs|].entries)
    ensures rs[|cs|] == ts[|ds|]
  {
    HistoryRealizes(hash, cs, rs);
    HistoryRealizes(hash, ds, ts);
    var r, t := rs[|cs|], ts[|ds|];
    SameShapeSameRing(hash, ShapeAfter(cs), r, t);
  }

  lemma SameShapeSameRing(hash: Str -> Uint64, shape: Shape, r: Ring, t: Ring)
    requires Realizes(hash, shape, r) && Realizes(hash, shape, t) && TieFree(r.entries)
    ensures r == t
  {
    assert r.entries == t.entries by {
      assert OneAddress(r.entries) by { RealizedRing(hash, shape, r); }
      SharesUnique(hash, shape, r.entries, t.entries);
      SortedUnique(r.entries, t.entries);
    }
    BooksUnique(shape, r, t);
  }

  lemma SharesUnique(hash: Str -> Uint64, shape: Shape, a: seq<RingEntry>, b: seq<RingEntry>)
    requires Shares(hash, shape, a) && Shares(hash, shape, b)
    ensures multiset(a) == multiset(b)
  {
  }

  lemma BooksUnique(shape: Shape, r: Ring, t: Ring)
    requires Books(shape, r) && Books(shape, t)
    ensures r.nodes == t.nodes && r.nodeReplicas == t.nodeReplicas
  {
  }

  // ----- one addition -----

  lemma AddKeepsOthers(hash: Str -> Uint64, r: Ring, id: Str, address: Str, replicas: int, r': Ring)
    requires id !in IdsOf(r.entries) && Added(hash, r, id, address, replicas, r')
    ensures Sorted(Without(r'.entries, id))
    ensures multiset(Without(r'.entries, id)) == multiset(r.entries)
  {
    WithoutSorted(r'.entries, id);
    VirtualNodesOf(hash, id, address, Effective(replicas));
    forall e ensures multiset(Without(r'.entries, id))[e] == multiset(r.entries)[e] {
      WithoutCount(r'.entries, id, e);
      WithoutCount(r.entries, id, e);
      if e.nodeId == id {
        assert e !in r.entries;
      } else {
        assert e !in multiset(VirtualNodes(hash, id, address, Effective(replicas)));
      }
    }
  }

  /** Adding a fresh node and removing it again restores the ring. */
  lemma AddThenRemove(hash: Str -> Uint64, shape: Shape, r: Ring, id: Str, address: Str, replicas: int, r': Ring)
    requires Realizes(hash, shape, r) && TieFree(r.entries)
    requires id !in r.nodes && Added(hash, r, id, address, replicas, r')
    ensures Removed(r', id) == r
  {
    assert Without(r'.entries, id) == r.entries by {
      RealizedRing(hash, shape, r);
      AddKeepsOthers(hash, r, id, address, replicas, r');
      SortedUnique(r.entries, Without(r'.entries, id));
    }
    assert Books(shape, Removed(r', id)) by {
      AddRealizes(hash, shape, r, id, address, replicas, r');
      var shape' := shape[id := Member(address, Effective(replicas))];
      RemoveRealizes(hash, shape', r', id);
      assert shape' - {id} == shape;
    }
    BooksUnique(shape, r, Removed(r', id));
  }

  function InsertSorted(es: seq<RingEntry>, e: RingEntry): seq<RingEntry> {
    if es == [] || e.hash <= es[0].hash then [e] + es
    else [es[0]] + InsertSorted(es[1..], e)
  }

  lemma {:induction false} InsertSortedBag(es: seq<RingEntry>, e: RingEntry)
    ensures multiset(InsertSorted(es, e)) == multiset(es) + multiset{e}
  {
    if !(es == [] || e.hash <= es[0].hash) {
      InsertSortedBag(es[1..], e);
      assert es == [es[0]] + es[1..];
    }
  }

  lemma {:induction false} InsertSortedSorted(es: seq<RingEntry>, e: RingEntry)
    requires Sorted(es)
    ensures Sorted(InsertSorted(es, e))
  {
    if !(es == [] || e.hash <= es[0].hash) {
      InsertSortedSorted(es[1..], e);
      InsertSortedBag(es[1..], e);
      var rest := InsertSorted(es[1..], e);
      forall i | 0 <= i < |rest| ensures es[0].hash <= rest[i].hash {
        assert rest[i] in multiset(rest);
        assert rest[i] == e || rest[i] in es[1..];
      }
      ConsSorted(es[0], rest);
    }
  }

  lemma ConsSorted(e: RingEntry, rest: seq<RingEntry>)
    requires Sorted(rest) && forall i :: 0 <= i < |rest| ==> e.hash <= rest[i].hash
    ensures Sorted([e] + rest)
  {
  }

  lemma {:induction false} InsertSortedWithout(es: seq<RingEntry>, e: RingEntry)
    ensures Without(InsertSorted(es, e), e.nodeId) == Without(es, e.nodeId)
  {
    if es == [] || e.hash <= es[0].hash {
      assert ([e] + es)[1..] == es;
    } else {
      InsertSortedWithout(es[1..], e);
      assert InsertSorted(es, e)[1..] == InsertSorted(es[1..], e);
    }
  }

  lemma {:induction false} InsertAll(es: seq<RingEntry>, id: Str, vs: seq<RingEntry>) returns (r: seq<RingEntry>)
    requires Sorted(es) && forall e :: e in vs ==> e.nodeId == id
    ensures Sorted(r) && multiset(r) == multiset(es) + multiset(vs)
    ensures Without(r, id) == Without(es, id)
  {
    r := es;
    for i := 0 to |vs|
      invariant Sorted(r) && multiset(r) == multiset(es) + multiset(vs[..i])
      invariant Without(r, id) == Without(es, id)
    {
      PrefixBag(vs, i);
      InsertSortedBag(r, vs[i]);
      InsertSortedSorted(r, vs[i]);
      InsertSortedWithout(r, vs[i]);
      r := InsertSorted(r, vs[i]);
    }
    assert vs[..|vs|] == vs;
  }

  lemma {:induction false} WithoutAbsent(es: seq<RingEntry>, id: Str)
    requires forall e :: e in es ==> e.nodeId != id
    ensures Without(es, id) == es
  {
    if es != [] {
      WithoutAbsent(es[1..], id);
    }
  }

  lemma Swap(es: seq<RingEntry>, i: nat, j: nat) returns (t: seq<RingEntry>)
    requires Sorted(es) && i < j < |es|
    requires es[i].hash == es[j].hash && es[i].nodeId != es[j].nodeId
    ensures Sorted(t) && multiset(t) == multiset(es) && t != es
  {
    t := es[i := es[j]][j := es[i]];
    assert forall k :: 0 <= k < |es| ==> t[k].hash == es[k].hash;
    assert t[i] != es[i];
  }

  /** With a collision in the ring the sort may answer differently: some outcome of adding and
      then removing a fresh node is another ring. */
  lemma TieBreaksRestore(hash: Str -> Uint64, r: Ring, id: Str, address: Str, replicas: int) returns (r': Ring)
    requires Sorted(r.entries) && !TieFree(r.entries) && id !in IdsOf(r.entries)
    ensures Added(hash, r, id, address, replicas, r') && Removed(r', id) != r
  {
    var es := r.entries;
    var i, j :| 0 <= i < j < |es| && es[i].hash == es[j].hash && es[i].nodeId != es[j].nodeId;
    var t := Swap(es, i, j);
    var vs := VirtualNodes(hash, id, address, Effective(replicas));
    VirtualNodesOf(hash, id, address, Effective(replicas));
    var all := InsertAll(t, id, vs);
    forall e | e in t ensures e.nodeId != id {
      assert e in multiset(t);
      assert e in es;
    }
    WithoutAbsent(t, id);
    WithoutAbsent(es, id);
    r' := Ring(all, r.nodes - {id} + {id}, (r.nodeReplicas - {id})[id := Effective(replicas)]);
  }

  /** Adding a fresh node and removing it again restores the ring, whatever the sort does,
      exactly when no two nodes of the ring collide. The new node may collide freely. */
  lemma AddThenRemoveIff(hash: Str -> Uint64, shape: Shape, r: Ring, id: Str, address: Str, replicas: int)
    requires Realizes(hash, shape, r) && id !in r.nodes
    ensures (forall r' :: Added(hash, r, id, address, replicas, r') ==> Removed(r', id) == r) <==> TieFree(r.entries)
  {
    if TieFree(r.entries) {
      forall r' | Added(hash, r, id, address, replicas, r') ensures Removed(r', id) == r {
        AddThenRemove(hash, shape, r, id, address, replicas, r');
      }
    } else {
      RealizedRing(hash, shape, r);
      var r' := TieBreaksRestore(hash, r, id, address, replicas);
    }
  }

  /** Adding a fresh node only inserts it into each key's replica list. */
  lemma AdditionIsMinimal(hash: Str -> Uint64, shape: Shape, r: Ring, id: Str, address: Str, replicas: int,
                          r': Ring, h: Uint64)
    requires Realizes(hash, shape, r) && TieFree(r.entries)
    requires id !in r.nodes && Added(hash, r, id, address, replicas, r')
    ensures DropNode(ReplicaList(r'.entries, h), id) == ReplicaList(r.entries, h)
    ensures ReplicaIds(ReplicaList(r'.entries, h)) == ReplicaIds(ReplicaList(r.entries, h)) + {id}
    ensures Owner(r'.entries, h) == Owner(r.entries, h) || Owner(r'.entries, h) == Replica(id, address)
  {
    var shape' := shape[id := Member(address, Effective(replicas))];
    AddRealizes(hash, shape, r, id, address, replicas, r');
    assert DropNode(ReplicaList(r'.entries, h), id) == ReplicaList(r.entries, h) by {
      AddThenRemove(hash, shape, r, id, address, replicas, r');
      RemovalIsMinimal(r'.entries, id, h);
    }
    assert ReplicaIds(ReplicaList(r'.entries, h)) == ReplicaIds(ReplicaList(r.entries, h)) + {id} by {
      ListIsWholeRing(r'.entries, h);
      ListIsWholeRing(r.entries, h);
      RealizedRing(hash, shape, r);
      RealizedRing(hash, shape', r');
    }
    assert id in ReplicaIds(ReplicaList(r'.entries, h));
    if Owner(r'.entries, h).nodeId == id {
      OwnerAddress(hash, shape', r', h);
    }
  }

  lemma OwnerAddress(hash: Str -> Uint64, shape: Shape, r: Ring, h: Uint64)
    requires Realizes(hash, shape, r) && ReplicaList(r.entries, h) != []
    ensures var o := Owner(r.entries, h);
            o.nodeId in shape && o.address == shape[o.nodeId].address
  {
    ClockwiseMembers(r.entries, h);
    DistinctComeFrom(Clockwise(r.entries, h), {});
    var o := ReplicaList(r.entries, h)[0];
    assert o in ReplicaList(r.entries, h);
    var e :| e in Clockwise(r.entries, h) && ReplicaOf(e) == o;
    EntryOfMember(hash, shape, r, e);
  }
}
