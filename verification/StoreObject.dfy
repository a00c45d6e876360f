/** The store as the mutable object the program shares between its server and gossip layers,
    each locked method verified against the corresponding function of `LwwStore`. */
module StoreObject {
  import opened Strings
  import opened L = LwwStore

  /** The live entries of the given keys, in the order of the keys. */
  ghost function LiveAmong(tree: map<Str, Entry>, keys: seq<Str>): seq<Keyed>
    requires forall k :: k in keys ==> k in tree
  {
    if keys == [] then []
    else if tree[keys[0]].deleted then LiveAmong(tree, keys[1..])
    else [Keyed(keys[0], tree[keys[0]])] + LiveAmong(tree, keys[1..])
  }

  ghost function LiveOf(tree: map<Str, Entry>, keys: set<Str>): seq<Keyed>
    requires keys <= tree.Keys
  {
    SortedKeysOrdered(keys);
    LiveAmong(tree, SortedKeys(keys))
  }

  /** What a full iteration visits: the live entries in ascending key order. */
  ghost function LiveItems(tree: map<Str, Entry>): seq<Keyed> {
    LiveOf(tree, tree.Keys)
  }

  lemma LiveOfStep(tree: map<Str, Entry>, keys: set<Str>, k: Str)
    requires keys <= tree.Keys && IsLeast(k, keys)
    ensures LiveOf(tree, keys) ==
            if tree[k].deleted then LiveOf(tree, keys - {k}) else [Keyed(k, tree[k])] + LiveOf(tree, keys - {k})
  {
    LessTrichotomy(k, Least(keys));
    SortedKeysOrdered(keys);
    assert SortedKeys(keys)[1..] == SortedKeys(keys - {k});
  }

  /** An iteration stops after the first item on which `fn` answers false. */
  ghost function Visited(fn: (Str, Entry) -> bool, items: seq<Keyed>): seq<Keyed> {
    if items == [] then []
    else if fn(items[0].key, items[0].entry) then [items[0]] + Visited(fn, items[1..])
    else [items[0]]
  }

  lemma {:induction false} LiveAmongOrdered(tree: map<Str, Entry>, keys: seq<Str>)
    requires Ascending(keys) && forall k :: k in keys ==> k in tree
    ensures var items := LiveAmong(tree, keys);
            && (forall i, j :: 0 <= i < j < |items| ==> Less(items[i].key, items[j].key))
            && (forall x :: x in items <==> x.key in keys && x.entry == tree[x.key] && !x.entry.deleted)
  {
    if keys != [] {
      LiveAmongOrdered(tree, keys[1..]);
      var items, rest := LiveAmong(tree, keys), LiveAmong(tree, keys[1..]);
      forall i, j | 0 <= i < j < |items| ensures Less(items[i].key, items[j].key) {
        if !tree[keys[0]].deleted && i == 0 {
          assert items[j] == rest[j - 1] && rest[j - 1] in rest;
        }
      }
    }
  }

  /** A full iteration meets each live key once, in ascending order, with its stored entry;
      so it meets as many items as there are live keys. */
  lemma LiveItemsExact(tree: map<Str, Entry>)
    ensures var items := LiveItems(tree);
            && (forall i, j :: 0 <= i < j < |items| ==> Less(items[i].key, items[j].key))
            && (forall x :: x in items <==> x.key in tree && x.entry == tree[x.key] && !x.entry.deleted)
            && |items| == |Live(tree)|
  {
    SortedKeysOrdered(tree.Keys);
    LiveAmongOrdered(tree, SortedKeys(tree.Keys));
    var items := LiveItems(tree);
    forall k ensures k in Live(tree) <==> exists i :: 0 <= i < |items| && items[i].key == k {
      if k in Live(tree) {
        assert Keyed(k, tree[k]) in items;
      }
      if i :| 0 <= i < |items| && items[i].key == k {
        assert items[i] in items;
      }
    }
    ItemsCount(items, Live(tree));
  }

  lemma {:induction false} ItemsCount(items: seq<Keyed>, keys: set<Str>)
    requires forall i, j :: 0 <= i < j < |items| ==> Less(items[i].key, items[j].key)
    requires forall k :: k in keys <==> exists i :: 0 <= i < |items| && items[i].key == k
    ensures |items| == |keys|
  {
    if items == [] {
      assert keys == {};
    } else {
      var first, rest := items[0].key, items[1..];
      forall k ensures k in keys - {first} <==> exists i :: 0 <= i < |rest| && rest[i].key == k {
        if k in keys - {first} {
          var i :| 0 <= i < |items| && items[i].key == k;
          assert rest[i - 1].key == k;
        }
        if i :| 0 <= i < |rest| && rest[i].key == k {
          assert items[i + 1].key == k;
          LessTrichotomy(first, k);
        }
      }
      ItemsCount(rest, keys - {first});
    }
  }

  class Store {
    var tree: map<Str, Entry>
    var clock: Int64
    var length: int

    function State(): L.State
      reads this
    {
      L.State(tree, clock, length)
    }

    constructor ()
      ensures State() == L.EMPTY && L.Valid(State())
    {
      tree, clock, length := map[], 0, 0;
    }

    method SetFrom(key: Str, value: Str, origin: Str) returns (entry: Entry)
      modifies this
      ensures (State(), entry) == L.SetFrom(old(State()), key, value, origin)
      ensures old(L.Valid(State()) && clock < MAX_INT64) ==>
                && L.Valid(State())
                && tree == old(tree)[key := entry]
                && forall k :: k in old(tree) ==> Newer(entry, old(tree)[k])
    {
      if L.Valid(State()) && clock < MAX_INT64 {
        L.SetFromInstalls(State(), key, value, origin);
      }
      clock := Tick(clock);
      entry := Entry(value, clock, origin, false);
      if key !in tree || Newer(entry, tree[key]) {
        if key !in tree || tree[key].deleted {
          length := length + 1;
        }
        tree := tree[key := entry];
      }
    }

    method SetWithVersion(key: Str, entry: Entry) returns (took: bool)
      modifies this
      ensures (State(), took) == L.SetWithVersion(old(State()), key, entry)
      ensures old(L.Valid(State())) ==> L.Valid(State()) && L.Advances(old(State()), State())
    {
      if L.Valid(State()) {
        L.ApplyAdvances(State(), OpMerge(Keyed(key, entry)));
      }
      if key in tree && !Newer(entry, tree[key]) {
        return false;
      }
      if !entry.deleted && (key !in tree || tree[key].deleted) {
        length := length + 1;
      } else if key in tree && !tree[key].deleted && entry.deleted {
        length := length - 1;
      }
      tree := tree[key := entry];
      if entry.version > clock {
        clock := entry.version;
      }
      return true;
    }

    method Get(key: Str) returns (value: Str, version: Int64, ok: bool)
      ensures match L.Get(State(), key)
              case Some((v, n)) => ok && value == v && version == n
              case None => !ok && value == [] && version == 0
    {
      if key !in tree || tree[key].deleted {
        return [], 0, false;
      }
      return tree[key].value, tree[key].version, true;
    }

    method Len() returns (n: int)
      ensures L.Valid(State()) ==> n == |Live(tree)|
    {
      return length;
    }

    method Snapshot() returns (copy: map<Str, Entry>)
      ensures copy == tree
    {
      copy := tree;
    }

    method Iterate(fn: (Str, Entry) -> bool) returns (visited: seq<Keyed>)
      ensures visited == Visited(fn, LiveItems(tree))
    {
      var rest := tree.Keys;
      visited := [];
      while rest != {}
        invariant rest <= tree.Keys
        invariant visited + Visited(fn, LiveOf(tree, rest)) == Visited(fn, LiveItems(tree))
      {
        LeastExists(rest);
        var k :| k in rest && forall x :: x in rest ==> k == x || Less(k, x);
        LiveOfStep(tree, rest, k);
        ghost var items := LiveOf(tree, rest);
        rest := rest - {k};
        if !tree[k].deleted {
          assert items[1..] == LiveOf(tree, rest);
          visited := visited + [Keyed(k, tree[k])];
          if !fn(k, tree[k]) {
            return;
          }
        }
      }
    }

    method Del(origin: Str, keys: seq<Str>) returns (n: int, tombstones: map<Str, Entry>)
      modifies this
      ensures L.DelResult(State(), n, tombstones) == L.Del(old(State()), origin, keys)
      ensures old(L.Valid(State()) && clock + |Elements(keys)| <= MAX_INT64) ==>
                L.Valid(State()) && L.Advances(old(State()), State())
    {
      if L.Valid(State()) && clock + |Elements(keys)| <= MAX_INT64 {
        L.DelInstalls(State(), origin, keys);
      }
      n, tombstones := 0, map[];
      for i := 0 to |keys|
        invariant L.DelResult(State(), n, tombstones) == L.Del(old(State()), origin, keys[..i])
      {
        var key := keys[i];
        assert keys[..i + 1][..i] == keys[..i];
        if key in tombstones {
          continue;
        }
        if key in tree && !tree[key].deleted {
          n := n + 1;
          length := length - 1;
        }
        clock := Tick(clock);
        var entry := Entry([], clock, origin, true);
        tree := tree[key := entry];
        tombstones := tombstones[key := entry];
      }
      assert keys[..|keys|] == keys;
    }
  }
}
