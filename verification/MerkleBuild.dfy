/** Building, comparing and reading Merkle trees step by step. */
module MerkleBuild {
  import opened Strings
  import opened Sorting
  import opened PowerOfTwo
  import opened LwwStore
  import opened StoreObject
  import opened MerkleLeaves
  import opened Merkle

  const DEFAULT_LEAVES: int := 64

  function LeafCount(numLeaves: Int64): int {
    var nl := RoundUpPowerOfTwo(numLeaves);
    if nl <= 0 then DEFAULT_LEAVES else nl
  }

  datatype BuildResult = Built(tree: Tree) | DividedByZero

  // ----- bucketing -----

  method MakeBuckets(fnv: Str -> Uint64, items: seq<Keyed>, nl: int) returns (buckets: seq<seq<KV>>)
    requires nl >= 2
    ensures |buckets| == nl
    ensures forall i :: 0 <= i < nl ==> buckets[i] == Bucket(fnv, items, nl, i)
  {
    buckets := seq(nl, _ => []);
    for n := 0 to |items|
      invariant |buckets| == nl
      invariant forall i :: 0 <= i < nl ==> buckets[i] == Bucket(fnv, items[..n], nl, i)
    {
      assert items[..n + 1][..n] == items[..n];
      var x := items[n];
      var h := fnv(x.key);
      IndexInRange(h, nl);
      var idx := h / Width(nl);
      if idx >= nl {
        idx := nl - 1;
      }
      buckets := buckets[idx := buckets[idx] + [Record(x)]];
    }
    assert items[..|items|] == items;
  }

  predicate ByKey(a: KV, b: KV) {
    Less(a.key, b.key)
  }

  lemma ByKeyIsStrictOrder()
    ensures StrictOrder(ByKey)
  {
    forall x: KV ensures !ByKey(x, x) { LessTrichotomy(x.key, x.key); }
    forall x: KV, y: KV, z: KV | ByKey(x, y) && ByKey(y, z) ensures ByKey(x, z) { LessTransitive(x.key, y.key, z.key); }
  }

  lemma {:induction false} BagOrderUnique(a: seq<KV>, b: seq<KV>)
    requires KeysAscend(a) && Ordered(ByKey, b) && multiset(a) == multiset(b)
    ensures a == b
  {
    assert |multiset(a)| == |multiset(b)|;
    if a != [] {
      SmallestFirst(a, b);
      TailBag(a);
      TailBag(b);
      BagOrderUnique(a[1..], b[1..]);
      assert a == [a[0]] + a[1..] && b == [b[0]] + b[1..];
    }
  }

  lemma SmallestFirst(a: seq<KV>, b: seq<KV>)
    requires KeysAscend(a) && Ordered(ByKey, b) && multiset(a) == multiset(b) && a != [] && b != []
    ensures a[0] == b[0]
  {
    assert b[0] in multiset(a) && a[0] in multiset(b);
    var i :| 0 <= i < |a| && a[i] == b[0];
    var j :| 0 <= j < |b| && b[j] == a[0];
    assert i > 0 ==> ByKey(a[0], b[0]);
    assert j > 0 ==> !ByKey(a[0], b[0]);
  }

  /** Sorting a bucket that is already in key order changes nothing. */
  method SortBuckets(buckets: seq<seq<KV>>) returns (r: seq<seq<KV>>)
    requires forall i :: 0 <= i < |buckets| ==> KeysAscend(buckets[i])
    ensures r == buckets
  {
    r := [];
    ByKeyIsStrictOrder();
    for i := 0 to |buckets|
      invariant r == buckets[..i]
    {
      var sorted := Sort(ByKey, buckets[i]);
      BagOrderUnique(buckets[i], sorted);
      r := r + [sorted];
    }
  }

  // ----- hashing -----

  method LeafHash(sha: Str -> Digest, es: seq<KV>) returns (h: Digest)
    ensures h == sha(EncodeLeaf(es))
  {
    var written: Str := [];
    for i := 0 to |es|
      invariant written + EncodeLeaf(es[i..]) == EncodeLeaf(es)
    {
      var e := es[i];
      assert es[i..][1..] == es[i + 1..];
      Associative(written, EncodeEntry(e), EncodeLeaf(es[i + 1..]));
      Associative(written, Field(e.key) + Field(e.value), BigEndian(ToUint64(e.ver), 8));
      Associative(written, Field(e.key), Field(e.value));
      written := written + Field(e.key);
      written := written + Field(e.value);
      written := written + BigEndian(ToUint64(e.ver), 8);
    }
    assert es[|es|..] == [];
    assert written + [] == written;
    h := sha(written);
  }

  /** The nodes from `lo` on are filled in. */
  ghost predicate FilledFrom(sha: Str -> Digest, leaves: seq<seq<KV>>, hashes: seq<Str>, keyCounts: seq<int>, lo: int) {
    && |hashes| == |keyCounts| == 2 * |leaves| - 1
    && forall j :: 0 <= lo <= j < 2 * |leaves| - 1 ==>
         hashes[j] == HashAt(sha, leaves, j) && keyCounts[j] == CountAt(leaves, j)
  }

  method HashLeaves(sha: Str -> Digest, leaves: seq<seq<KV>>, hashes: array<Str>, keyCounts: array<int>)
    requires |leaves| > 0 && hashes.Length == keyCounts.Length == 2 * |leaves| - 1
    modifies hashes, keyCounts
    ensures FilledFrom(sha, leaves, hashes[..], keyCounts[..], |leaves| - 1)
  {
    var firstLeaf := |leaves| - 1;
    for i := 0 to |leaves|
      invariant forall j :: firstLeaf <= j < firstLeaf + i ==> hashes[j] == HashAt(sha, leaves, j)
      invariant forall j :: firstLeaf <= j < firstLeaf + i ==> keyCounts[j] == CountAt(leaves, j)
    {
      var h := LeafHash(sha, leaves[i]);
      LeafNode(sha, leaves, i);
      hashes[firstLeaf + i] := h;
      keyCounts[firstLeaf + i] := |leaves[i]|;
    }
  }

  lemma LeafNode(sha: Str -> Digest, leaves: seq<seq<KV>>, i: nat)
    requires i < |leaves|
    ensures HashAt(sha, leaves, |leaves| - 1 + i) == sha(EncodeLeaf(leaves[i]))
    ensures CountAt(leaves, |leaves| - 1 + i) == |leaves[i]|
  {
  }

  lemma InnerNode(sha: Str -> Digest, leaves: seq<seq<KV>>, hashes: seq<Str>, keyCounts: seq<int>, i: nat)
    requires i < |leaves| - 1 && FilledFrom(sha, leaves, hashes, keyCounts, i + 1)
    ensures FilledFrom(sha, leaves,
                       hashes[i := sha(hashes[2 * i + 1] + hashes[2 * i + 2])],
                       keyCounts[i := keyCounts[2 * i + 1] + keyCounts[2 * i + 2]], i)
  {
    assert HashAt(sha, leaves, i) == sha(HashAt(sha, leaves, 2 * i + 1) + HashAt(sha, leaves, 2 * i + 2));
  }

  method BuildNodes(sha: Str -> Digest, leaves: seq<seq<KV>>) returns (t: Tree)
    requires |leaves| > 0
    ensures IsTreeOf(sha, leaves, t)
  {
    var nl := |leaves|;
    var hashes := new Str[2 * nl - 1];
    var keyCounts := new int[2 * nl - 1];
    HashLeaves(sha, leaves, hashes, keyCounts);
    for i := nl - 1 downto 0
      invariant FilledFrom(sha, leaves, hashes[..], keyCounts[..], i)
    {
      InnerNode(sha, leaves, hashes[..], keyCounts[..], i);
      ghost var hs, cs := hashes[..], keyCounts[..];
      hashes[i] := sha(hashes[2 * i + 1] + hashes[2 * i + 2]);
      keyCounts[i] := keyCounts[2 * i + 1] + keyCounts[2 * i + 2];
      assert hashes[..] == hs[i := sha(hs[2 * i + 1] + hs[2 * i + 2])];
      assert keyCounts[..] == cs[i := cs[2 * i + 1] + cs[2 * i + 2]];
    }
    t := Tree(nl, hashes[..], keyCounts[..]);
  }

  // ----- Build -----

  lemma {:induction false} VisitAll(items: seq<Keyed>)
    ensures Visited((_, _) => true, items) == items
  {
    if items != [] {
      VisitAll(items[1..]);
      assert items == [items[0]] + items[1..];
    }
  }

  /** `Build`. With one leaf the bucket width overflows to 0, so the build fails exactly when
      there is an entry to place; otherwise the tree is the tree of the store's leaves. */
  method Build(fnv: Str -> Uint64, sha: Str -> Digest, st: Store, numLeaves: Int64) returns (r: BuildResult)
    ensures r.DividedByZero? <==> LeafCount(numLeaves) == 1 && Live(st.tree) != {}
    ensures r.Built? && LeafCount(numLeaves) >= 2 ==>
              IsTreeOf(sha, LeavesOf(fnv, st.tree, LeafCount(numLeaves)), r.tree)
    ensures r.Built? && LeafCount(numLeaves) == 1 ==> IsTreeOf(sha, [[]], r.tree)
  {
    var nl := RoundUp(numLeaves);
    if nl <= 0 {
      nl := DEFAULT_LEAVES;
    }
    var items := st.Iterate((_, _) => true);
    VisitAll(LiveItems(st.tree));
    LiveItemsExact(st.tree);
    if nl == 1 {
      assert Width(1) == 0;
      if |items| > 0 {
        return DividedByZero;
      }
      var single := BuildNodes(sha, [[]]);
      return Built(single);
    }
    var buckets := MakeBuckets(fnv, items, nl);
    forall i | 0 <= i < nl ensures KeysAscend(buckets[i]) {
      BucketAscends(fnv, items, nl, i);
    }
    buckets := SortBuckets(buckets);
    assert buckets == LeavesOf(fnv, st.tree, nl);
    var tree := BuildNodes(sha, buckets);
    return Built(tree);
  }

  // ----- Diff and LeafEntries -----

  method BytesEqual(a: Str, b: Str) returns (eq: bool)
    ensures eq <==> a == b
  {
    if |a| != |b| {
      return false;
    }
    for i := 0 to |a|
      invariant a[..i] == b[..i]
    {
      if a[i] != b[i] {
        return false;
      }
    }
    return true;
  }

  method Diff(a: Tree, b: Tree) returns (diffs: seq<int>)
    requires a.numLeaves > 0 && |a.hashes| == 2 * a.numLeaves - 1 && |b.hashes| == 2 * b.numLeaves - 1
    ensures IsDiff(a, b, diffs)
  {
    diffs := [];
    if a.numLeaves != b.numLeaves {
      return;
    }
    var firstLeaf := a.numLeaves - 1;
    for i := 0 to a.numLeaves
      invariant forall j :: j in diffs <==> 0 <= j < i && LeafHashDiffers(a, b, j)
      invariant forall j, k :: 0 <= j < k < |diffs| ==> diffs[j] < diffs[k]
    {
      assert forall j :: 0 <= j < |diffs| ==> diffs[j] in diffs;
      var same := BytesEqual(a.hashes[firstLeaf + i], b.hashes[firstLeaf + i]);
      if !same {
        diffs := diffs + [i];
      }
    }
  }

  /** The entries whose hash lies in the given bounds. */
  function InRange(fnv: Str -> Uint64, items: seq<Keyed>, bounds: (Uint64, Uint64), final: bool): seq<Entry> {
    if items == [] then []
    else
      var init, last := InRange(fnv, items[..|items| - 1], bounds, final), items[|items| - 1];
      if InLeafRange(fnv(last.key), bounds.0, bounds.1, final) then init + [last.entry] else init
  }

  /** The entries of one leaf. The leaf count is used as given, without rounding; a count of 0
      divides by zero. */
  method LeafEntries(fnv: Str -> Uint64, st: Store, numLeaves: Int64, leafIdx: Int64) returns (r: Option<seq<Entry>>)
    ensures r.None? <==> numLeaves == 0
    ensures numLeaves != 0 ==>
              r.value == InRange(fnv, LiveItems(st.tree), AnyBounds(numLeaves, leafIdx), leafIdx == Down(numLeaves))
    ensures 0 <= leafIdx < numLeaves ==>
              r.value == InRange(fnv, LiveItems(st.tree), LeafBounds(numLeaves, leafIdx), leafIdx == numLeaves - 1)
  {
    if numLeaves == 0 {
      return None;
    }
    var bounds, final := AnyBounds(numLeaves, leafIdx), leafIdx == Down(numLeaves);
    var items := st.Iterate((_, _) => true);
    VisitAll(LiveItems(st.tree));
    var entries: seq<Entry> := [];
    for n := 0 to |items|
      invariant entries == InRange(fnv, items[..n], bounds, final)
    {
      assert items[..n + 1][..n] == items[..n];
      if InLeafRange(fnv(items[n].key), bounds.0, bounds.1, final) {
        entries := entries + [items[n].entry];
      }
    }
    assert items[..|items|] == items;
    if 0 <= leafIdx < numLeaves {
      AnyBoundsOfLeaf(numLeaves, leafIdx);
    }
    return Some(entries);
  }

  /** `LeafEntries` lists, entry for entry, what Build put into that leaf, for every leaf count
      whose bounds do not overflow. */
  lemma {:induction false} LeafEntriesAreBucket(fnv: Str -> Uint64, items: seq<Keyed>, nl: int, i: int)
    requires nl >= 2 && 0 <= i < nl && (nl - 1) * Width(nl) < TWO64
    ensures var entries := InRange(fnv, items, LeafBounds(nl, i), i == nl - 1);
            var bucket := Bucket(fnv, items, nl, i);
            && |entries| == |bucket|
            && forall j :: 0 <= j < |entries| ==>
                 entries[j].value == bucket[j].value && entries[j].version == bucket[j].ver
  {
    if items != [] {
      var init, last := items[..|items| - 1], items[|items| - 1];
      LeafEntriesAreBucket(fnv, init, nl, i);
      InLeafFits(fnv(last.key), nl, i);
    }
  }
}
