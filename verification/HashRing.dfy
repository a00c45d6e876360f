/** The consistent hash ring as a value: virtual nodes sorted by hash, clockwise walks,
    and what adding and removing nodes does to every key's replica list. */
module HashRing {
  import opened Strings

  datatype RingEntry = RingEntry(hash: Uint64, nodeId: Str, address: Str)

  datatype Replica = Replica(nodeId: Str, address: Str)

  function ReplicaOf(e: RingEntry): Replica {
    Replica(e.nodeId, e.address)
  }

  predicate Sorted(es: seq<RingEntry>) {
    forall i, j :: 0 <= i < j < |es| ==> es[i].hash <= es[j].hash
  }

  // ----- filters -----

  function Without(es: seq<RingEntry>, id: Str): seq<RingEntry> {
    if es == [] then []
    else if es[0].nodeId == id then Without(es[1..], id)
    else [es[0]] + Without(es[1..], id)
  }

  function AtOrAfter(es: seq<RingEntry>, h: Uint64): seq<RingEntry> {
    if es == [] then []
    else if es[0].hash >= h then [es[0]] + AtOrAfter(es[1..], h)
    else AtOrAfter(es[1..], h)
  }

  function Before(es: seq<RingEntry>, h: Uint64): seq<RingEntry> {
    if es == [] then []
    else if es[0].hash < h then [es[0]] + Before(es[1..], h)
    else Before(es[1..], h)
  }

  /** The whole ring in the order in which it is met going clockwise from `h`. */
  function Clockwise(es: seq<RingEntry>, h: Uint64): seq<RingEntry> {
    AtOrAfter(es, h) + Before(es, h)
  }

  /** The first entry of each node not in `seen`, in order. */
  function Distinct(es: seq<RingEntry>, seen: set<Str>): seq<Replica> {
    if es == [] then []
    else if es[0].nodeId in seen then Distinct(es[1..], seen)
    else [ReplicaOf(es[0])] + Distinct(es[1..], seen + {es[0].nodeId})
  }

  /** Every node of the ring, in the order in which a key hashing to `h` prefers them. */
  function ReplicaList(es: seq<RingEntry>, h: Uint64): seq<Replica> {
    Distinct(Clockwise(es, h), {})
  }

  function Take(rs: seq<Replica>, count: int): seq<Replica> {
    if count <= 0 then [] else if count <= |rs| then rs[..count] else rs
  }

  function Replicas(es: seq<RingEntry>, h: Uint64, count: int): seq<Replica> {
    Take(ReplicaList(es, h), count)
  }

  function Owner(es: seq<RingEntry>, h: Uint64): Replica {
    var rs := ReplicaList(es, h);
    if rs == [] then Replica([], []) else rs[0]
  }

  ghost function IdsOf(es: seq<RingEntry>): set<Str> {
    set e | e in es :: e.nodeId
  }

  ghost function ReplicaIds(rs: seq<Replica>): set<Str> {
    set r | r in rs :: r.nodeId
  }

  predicate DistinctIds(rs: seq<Replica>) {
    forall i, j :: 0 <= i < j < |rs| ==> rs[i].nodeId != rs[j].nodeId
  }

  function DropNode(rs: seq<Replica>, id: Str): seq<Replica> {
    if rs == [] then []
    else if rs[0].nodeId == id then DropNode(rs[1..], id)
    else [rs[0]] + DropNode(rs[1..], id)
  }

  // ----- the binary search and the walk -----

  predicate LowerBound(es: seq<RingEntry>, h: Uint64, i: nat) {
    && i <= |es|
    && (forall j :: 0 <= j < i ==> es[j].hash < h)
    && (forall j :: i <= j < |es| ==> h <= es[j].hash)
  }

  lemma {:induction false} FiltersSplit(es: seq<RingEntry>, h: Uint64, i: nat)
    requires LowerBound(es, h, i)
    ensures AtOrAfter(es, h) == es[i..] && Before(es, h) == es[..i]
  {
    if es != [] {
      FiltersSplit(es[1..], h, if i == 0 then 0 else i - 1);
      if i == 0 {
        assert es == [es[0]] + es[1..];
        assert es[1..][0..] == es[1..];
      } else {
        assert es[1..][i - 1..] == es[i..];
        assert es[..i] == [es[0]] + es[1..][..i - 1];
      }
    }
  }

  /** Stepping with wraparound from the binary search's answer visits `Clockwise` in order. */
  lemma WalkIsClockwise(es: seq<RingEntry>, h: Uint64, i: nat, k: nat)
    requires LowerBound(es, h, i) && k < |es|
    ensures var idx := if i == |es| then 0 else i;
            |Clockwise(es, h)| == |es| && es[(idx + k) % |es|] == Clockwise(es, h)[k]
  {
    FiltersSplit(es, h, i);
    WrapAround(if i == |es| then 0 else i, k, |es|);
  }

  lemma WrapAround(idx: nat, k: nat, n: nat)
    requires idx < n && k < n
    ensures (idx + k) % n == if idx + k < n then idx + k else idx + k - n
  {
    var q := (idx + k) / n;
    assert idx + k == q * n + (idx + k) % n;
    assert q >= 2 ==> q * n >= 2 * n;
  }

  lemma OwnerAt(es: seq<RingEntry>, h: Uint64, i: nat)
    requires LowerBound(es, h, i) && es != []
    ensures Owner(es, h) == ReplicaOf(es[if i == |es| then 0 else i])
  {
    FiltersSplit(es, h, i);
    DistinctHead(Clockwise(es, h));
  }

  lemma DistinctHead(w: seq<RingEntry>)
    requires w != []
    ensures Distinct(w, {}) != [] && Distinct(w, {})[0] == ReplicaOf(w[0])
  {
  }

  // ----- membership of the filters -----

  lemma {:induction false} ClockwiseMembers(es: seq<RingEntry>, h: Uint64)
    ensures forall e :: e in Clockwise(es, h) <==> e in es
    ensures forall e :: e in AtOrAfter(es, h) ==> e.hash >= h
    ensures forall e :: e in Before(es, h) ==> e.hash < h
  {
    if es != [] {
      ClockwiseMembers(es[1..], h);
      assert es == [es[0]] + es[1..];
      assert forall e :: e in Clockwise(es, h) <==> e == es[0] || e in Clockwise(es[1..], h);
    }
  }

  lemma IdsOfCons(es: seq<RingEntry>)
    requires es != []
    ensures IdsOf(es) == {es[0].nodeId} + IdsOf(es[1..])
  {
    assert es == [es[0]] + es[1..];
  }

  lemma ReplicaIdsCons(rs: seq<Replica>)
    requires rs != []
    ensures ReplicaIds(rs) == {rs[0].nodeId} + ReplicaIds(rs[1..])
  {
    assert rs == [rs[0]] + rs[1..];
  }

  lemma {:induction false} DistinctMembers(es: seq<RingEntry>, seen: set<Str>)
    ensures ReplicaIds(Distinct(es, seen)) == IdsOf(es) - seen
  {
    if es != [] {
      IdsOfCons(es);
      if es[0].nodeId in seen {
        DistinctMembers(es[1..], seen);
      } else {
        DistinctMembers(es[1..], seen + {es[0].nodeId});
        ReplicaIdsCons(Distinct(es, seen));
        assert Distinct(es, seen)[1..] == Distinct(es[1..], seen + {es[0].nodeId});
      }
    }
  }

  lemma {:induction false} DistinctComeFrom(es: seq<RingEntry>, seen: set<Str>)
    ensures forall r :: r in Distinct(es, seen) ==> exists e :: e in es && ReplicaOf(e) == r
  {
    if es != [] {
      DistinctComeFrom(es[1..], if es[0].nodeId in seen then seen else seen + {es[0].nodeId});
      assert forall e :: e in es[1..] ==> e in es;
    }
  }

  lemma {:induction false} DistinctAreDistinct(es: seq<RingEntry>, seen: set<Str>)
    ensures DistinctIds(Distinct(es, seen))
  {
    if es != [] {
      if es[0].nodeId in seen {
        DistinctAreDistinct(es[1..], seen);
      } else {
        var tail := Distinct(es[1..], seen + {es[0].nodeId});
        DistinctAreDistinct(es[1..], seen + {es[0].nodeId});
        DistinctMembers(es[1..], seen + {es[0].nodeId});
        assert forall j :: 0 <= j < |tail| ==> tail[j].nodeId in ReplicaIds(tail);
      }
    }
  }

  lemma {:induction false} DistinctIdsCount(rs: seq<Replica>)
    requires DistinctIds(rs)
    ensures |ReplicaIds(rs)| == |rs|
  {
    if rs != [] {
      DistinctIdsCount(rs[1..]);
      ReplicaIdsCons(rs);
      assert forall r :: r in rs[1..] ==> r.nodeId != rs[0].nodeId;
    }
  }

  /** `GetReplicas`: distinct nodes of the ring, as many as asked for if there are that many,
      smaller requests being prefixes of larger ones, the owner first. */
  lemma ReplicasShape(es: seq<RingEntry>, h: Uint64, count: int)
    ensures DistinctIds(Replicas(es, h, count))
    ensures |Replicas(es, h, count)| == (if count <= 0 then 0 else if count <= |IdsOf(es)| then count else |IdsOf(es)|)
    ensures forall c: int :: c <= count ==> Replicas(es, h, c) <= Replicas(es, h, count)
    ensures es != [] && count > 0 ==> Replicas(es, h, count) != [] && Replicas(es, h, count)[0] == Owner(es, h)
  {
    ListIsWholeRing(es, h);
    forall c: int | c <= count ensures Replicas(es, h, c) <= Replicas(es, h, count) {
      TakePrefix(ReplicaList(es, h), c, count);
    }
  }

  lemma TakePrefix(rs: seq<Replica>, c: int, count: int)
    requires c <= count
    ensures Take(rs, c) <= Take(rs, count)
  {
  }

  lemma ListIsWholeRing(es: seq<RingEntry>, h: Uint64)
    ensures DistinctIds(ReplicaList(es, h))
    ensures ReplicaIds(ReplicaList(es, h)) == IdsOf(es)
    ensures |ReplicaList(es, h)| == |IdsOf(es)|
    ensures es != [] ==> ReplicaList(es, h) != []
  {
    ClockwiseMembers(es, h);
    DistinctAreDistinct(Clockwise(es, h), {});
    DistinctMembers(Clockwise(es, h), {});
    assert IdsOf(Clockwise(es, h)) == IdsOf(es);
    DistinctIdsCount(ReplicaList(es, h));
    if es != [] {
      assert es[0].nodeId in IdsOf(es);
    }
  }

  // ----- the walk against clockwise distance -----

  function Distance(h: Uint64, x: Uint64): nat {
    if x >= h then x - h else x - h + TWO64
  }

  lemma {:induction false} FilterKeepsOrder(es: seq<RingEntry>, h: Uint64)
    requires Sorted(es)
    ensures Sorted(AtOrAfter(es, h)) && Sorted(Before(es, h))
  {
    var i := 0;
    while i < |es| && es[i].hash < h
      invariant i <= |es| && forall j :: 0 <= j < i ==> es[j].hash < h
    {
      i := i + 1;
    }
    FiltersSplit(es, h, i);
  }

  lemma ClockwiseByDistance(es: seq<RingEntry>, h: Uint64)
    requires Sorted(es)
    ensures var w := Clockwise(es, h);
            forall i, j :: 0 <= i < j < |w| ==> Distance(h, w[i].hash) <= Distance(h, w[j].hash)
  {
    FilterKeepsOrder(es, h);
    ClockwiseMembers(es, h);
    var a, b := AtOrAfter(es, h), Before(es, h);
    assert forall i :: 0 <= i < |a| ==> a[i] in a && a[i].hash >= h;
    assert forall i :: 0 <= i < |b| ==> b[i] in b && b[i].hash < h;
  }

  lemma {:induction false} FirstOccurrence(w: seq<RingEntry>, seen: set<Str>, i: nat, j: nat) returns (a: nat)
    requires i < j < |Distinct(w, seen)|
    ensures a < |w| && w[a].nodeId == Distinct(w, seen)[i].nodeId
    ensures forall b :: 0 <= b < |w| && w[b].nodeId == Distinct(w, seen)[j].nodeId ==> a < b
    decreases |w|
  {
    var rs := Distinct(w, seen);
    if w[0].nodeId in seen {
      a := FirstOccurrence(w[1..], seen, i, j);
      a := a + 1;
      DistinctMembers(w, seen);
      assert rs[j].nodeId in ReplicaIds(rs);
    } else {
      var tail := Distinct(w[1..], seen + {w[0].nodeId});
      DistinctMembers(w[1..], seen + {w[0].nodeId});
      assert rs[j] == tail[j - 1] && tail[j - 1].nodeId in ReplicaIds(tail);
      if i == 0 {
        a := 0;
      } else {
        a := FirstOccurrence(w[1..], seen + {w[0].nodeId}, i - 1, j - 1);
        a := a + 1;
      }
    }
  }

  /** The replica list ranks nodes by how near their closest virtual node is, going clockwise:
      an earlier node has an entry at least as near as every entry of a later node. */
  lemma ReplicasByDistance(es: seq<RingEntry>, h: Uint64, i: nat, j: nat) returns (e: RingEntry)
    requires Sorted(es) && i < j < |ReplicaList(es, h)|
    ensures e in es && e.nodeId == ReplicaList(es, h)[i].nodeId
    ensures forall f :: f in es && f.nodeId == ReplicaList(es, h)[j].nodeId
              ==> Distance(h, e.hash) <= Distance(h, f.hash)
  {
    var w := Clockwise(es, h);
    ClockwiseMembers(es, h);
    ClockwiseByDistance(es, h);
    var a := FirstOccurrence(w, {}, i, j);
    e := w[a];
    forall f | f in es && f.nodeId == ReplicaList(es, h)[j].nodeId
      ensures Distance(h, e.hash) <= Distance(h, f.hash)
    {
      assert f in w;
      var b :| 0 <= b < |w| && w[b] == f;
      assert a < b;
    }
  }

  /** The owner of a key is the node of a nearest entry clockwise from the key's hash. */
  lemma OwnerIsNearest(es: seq<RingEntry>, h: Uint64) returns (e: RingEntry)
    requires Sorted(es) && es != []
    ensures e in es && ReplicaOf(e) == Owner(es, h)
    ensures forall f :: f in es ==> Distance(h, e.hash) <= Distance(h, f.hash)
  {
    var w := Clockwise(es, h);
    ClockwiseMembers(es, h);
    ClockwiseByDistance(es, h);
    assert es[0] in w;
    e := w[0];
    forall f | f in es ensures Distance(h, e.hash) <= Distance(h, f.hash) {
      assert f in w;
      var b :| 0 <= b < |w| && w[b] == f;
    }
  }

  // ----- removal -----

  lemma {:induction false} WithoutAppend(a: seq<RingEntry>, b: seq<RingEntry>, id: Str)
    ensures Without(a + b, id) == Without(a, id) + Without(b, id)
  {
    if a == [] {
      assert a + b == b;
    } else {
      WithoutAppend(a[1..], b, id);
      assert (a + b)[1..] == a[1..] + b && (a + b)[0] == a[0];
      Associative([a[0]], Without(a[1..], id), Without(b, id));
    }
  }

  lemma {:induction false} WithoutMembers(es: seq<RingEntry>, id: Str)
    ensures forall e :: e in Without(es, id) <==> e in es && e.nodeId != id
  {
    if es != [] {
      WithoutMembers(es[1..], id);
      assert es == [es[0]] + es[1..];
    }
  }

  lemma {:induction false} WithoutAtOrAfter(es: seq<RingEntry>, id: Str, h: Uint64)
    ensures AtOrAfter(Without(es, id), h) == Without(AtOrAfter(es, h), id)
  {
    if es != [] {
      WithoutAtOrAfter(es[1..], id, h);
      var rest := Without(es[1..], id);
      if es[0].nodeId != id {
        assert Without(es, id)[1..] == rest;
      }
      if es[0].hash >= h {
        assert AtOrAfter(es, h)[1..] == AtOrAfter(es[1..], h);
      }
    }
  }

  lemma {:induction false} WithoutBefore(es: seq<RingEntry>, id: Str, h: Uint64)
    ensures Before(Without(es, id), h) == Without(Before(es, h), id)
  {
    if es != [] {
      WithoutBefore(es[1..], id, h);
      var rest := Without(es[1..], id);
      if es[0].nodeId != id {
        assert Without(es, id)[1..] == rest;
      }
      if es[0].hash < h {
        assert Before(es, h)[1..] == Before(es[1..], h);
      }
    }
  }

  lemma {:induction false} WithoutSorted(es: seq<RingEntry>, id: Str)
    requires Sorted(es)
    ensures Sorted(Without(es, id))
  {
    if es != [] {
      WithoutSorted(es[1..], id);
      WithoutMembers(es[1..], id);
      var rest := Without(es[1..], id);
      assert forall i :: 0 <= i < |rest| ==> rest[i] in rest;
      assert forall e :: e in es[1..] ==> es[0].hash <= e.hash;
    }
  }

  lemma {:induction false} DistinctIgnoresAbsent(es: seq<RingEntry>, seen: set<Str>, id: Str)
    requires id !in IdsOf(es)
    ensures Distinct(es, seen + {id}) == Distinct(es, seen)
  {
    if es != [] {
      assert es[0].nodeId in IdsOf(es);
      assert IdsOf(es[1..]) <= IdsOf(es);
      if es[0].nodeId in seen {
        DistinctIgnoresAbsent(es[1..], seen, id);
      } else {
        DistinctIgnoresAbsent(es[1..], seen + {es[0].nodeId}, id);
        assert seen + {id} + {es[0].nodeId} == seen + {es[0].nodeId} + {id};
      }
    }
  }

  lemma {:induction false} DistinctWithout(es: seq<RingEntry>, seen: set<Str>, id: Str)
    ensures Distinct(Without(es, id), seen) == DropNode(Distinct(es, seen), id)
  {
    if es != [] {
      var head, rest := es[0], es[1..];
      if head.nodeId == id {
        if id in seen {
          DistinctWithout(rest, seen, id);
        } else {
          DistinctWithout(rest, seen + {id}, id);
          WithoutMembers(rest, id);
          DistinctIgnoresAbsent(Without(rest, id), seen, id);
          assert Distinct(es, seen)[1..] == Distinct(rest, seen + {id});
        }
      } else {
        assert Without(es, id)[1..] == Without(rest, id);
        if head.nodeId in seen {
          DistinctWithout(rest, seen, id);
        } else {
          DistinctWithout(rest, seen + {head.nodeId}, id);
          assert Distinct(es, seen)[1..] == Distinct(rest, seen + {head.nodeId});
        }
      }
    }
  }

  /** Removing a node deletes it from every key's replica list and changes nothing else, even
      when hashes collide. */
  lemma RemovalIsMinimal(es: seq<RingEntry>, id: Str, h: Uint64)
    ensures ReplicaList(Without(es, id), h) == DropNode(ReplicaList(es, h), id)
  {
    WithoutAtOrAfter(es, id, h);
    WithoutBefore(es, id, h);
    WithoutAppend(AtOrAfter(es, h), Before(es, h), id);
    DistinctWithout(Clockwise(es, h), {}, id);
  }

  lemma {:induction false} DropNodeAbsent(rs: seq<Replica>, id: Str)
    requires forall r :: r in rs ==> r.nodeId != id
    ensures DropNode(rs, id) == rs
  {
    if rs != [] {
      DropNodeAbsent(rs[1..], id);
    }
  }

  /** A key changes owner only if the removed node owned it, and then moves to its old second
      replica. */
  lemma RemovalMovesOwnedKeys(es: seq<RingEntry>, id: Str, h: Uint64)
    requires es != []
    ensures Owner(es, h).nodeId != id ==> Owner(Without(es, id), h) == Owner(es, h)
    ensures Owner(es, h).nodeId == id && |Replicas(es, h, 2)| == 2 ==>
              Owner(Without(es, id), h) == Replicas(es, h, 2)[1]
    ensures |Replicas(es, h, 2)| == 2 <==> |IdsOf(es)| >= 2
  {
    RemovalIsMinimal(es, id, h);
    ListIsWholeRing(es, h);
    var rs := ReplicaList(es, h);
    if rs[0].nodeId == id {
      forall r | r in rs[1..] ensures r.nodeId != id {
        var k :| 1 <= k < |rs| && rs[k] == r;
        assert rs[0].nodeId != rs[k].nodeId;
      }
      DropNodeAbsent(rs[1..], id);
    }
  }

  // ----- several removals -----

  function RemoveAll(es: seq<RingEntry>, ids: seq<Str>): seq<RingEntry> {
    if ids == [] then es else Without(RemoveAll(es, ids[..|ids| - 1]), ids[|ids| - 1])
  }

  function Survivors(rs: seq<Replica>, gone: set<Str>): seq<Replica> {
    if rs == [] then []
    else if rs[0].nodeId in gone then Survivors(rs[1..], gone)
    else [rs[0]] + Survivors(rs[1..], gone)
  }

  lemma {:induction false} DropSurvivors(rs: seq<Replica>, gone: set<Str>, id: Str)
    ensures DropNode(Survivors(rs, gone), id) == Survivors(rs, gone + {id})
  {
    if rs != [] {
      DropSurvivors(rs[1..], gone, id);
      if rs[0].nodeId !in gone {
        assert Survivors(rs, gone)[1..] == Survivors(rs[1..], gone);
      }
    }
  }

  lemma {:induction false} SurvivorsOfNone(rs: seq<Replica>)
    ensures Survivors(rs, {}) == rs
  {
    if rs != [] {
      SurvivorsOfNone(rs[1..]);
    }
  }

  lemma {:induction false} RemoveAllIsMinimal(es: seq<RingEntry>, ids: seq<Str>, h: Uint64)
    ensures ReplicaList(RemoveAll(es, ids), h) == Survivors(ReplicaList(es, h), Elements(ids))
  {
    if ids == [] {
      SurvivorsOfNone(ReplicaList(es, h));
      assert Elements(ids) == {};
    } else {
      var init, id := ids[..|ids| - 1], ids[|ids| - 1];
      RemoveAllIsMinimal(es, init, h);
      RemovalIsMinimal(RemoveAll(es, init), id, h);
      DropSurvivors(ReplicaList(es, h), Elements(init), id);
      ElementsSnoc(ids);
    }
  }

  lemma {:induction false} FirstSurvivor(rs: seq<Replica>, gone: set<Str>, rf: nat)
    requires rf <= |rs| && !(ReplicaIds(rs[..rf]) <= gone)
    ensures Survivors(rs, gone) != []
    ensures Survivors(rs, gone)[0] in rs[..rf] && Survivors(rs, gone)[0].nodeId !in gone
  {
    assert rf > 0;
    if rs[0].nodeId in gone {
      assert rs[..rf][1..] == rs[1..][..rf - 1];
      ReplicaIdsCons(rs[..rf]);
      FirstSurvivor(rs[1..], gone, rf - 1);
    } else {
      assert rs[0] == rs[..rf][0];
    }
  }

  /** After losing fewer than `rf` of at least `rf` nodes, in any order and with repetitions,
      the new owner of a key is one of its first `rf` old replicas and not one that was lost. */
  lemma FailoverStaysInReplicas(es: seq<RingEntry>, ids: seq<Str>, h: Uint64, rf: nat)
    requires |Elements(ids)| < rf <= |IdsOf(es)|
    ensures var o := Owner(RemoveAll(es, ids), h);
            && o in Replicas(es, h, rf)
            && o.nodeId !in Elements(ids)
            && RemoveAll(es, ids) != []
  {
    var rs := ReplicaList(es, h);
    ListIsWholeRing(es, h);
    DistinctIdsCount(rs[..rf]);
    if ReplicaIds(rs[..rf]) <= Elements(ids) {
      SubsetCount(ReplicaIds(rs[..rf]), Elements(ids));
    }
    FirstSurvivor(rs, Elements(ids), rf);
    RemoveAllIsMinimal(es, ids, h);
  }

  lemma {:induction false} SubsetCount(a: set<Str>, b: set<Str>)
    requires a <= b
    ensures |a| <= |b|
  {
    if a != {} {
      var x :| x in a;
      SubsetCount(a - {x}, b - {x});
    }
  }
}
