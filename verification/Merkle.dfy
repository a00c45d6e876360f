/** The Merkle tree over a store's live entries: a heap-shaped array of hashes and key counts,
    and what comparing two trees says about the stores. */
module Merkle {
  import opened Strings
  import opened LwwStore
  import opened StoreObject
  import opened MerkleLeaves

  type Digest = s: Str | |s| == 32 witness seq(32, _ => 0)

  datatype Tree = Tree(numLeaves: nat, hashes: seq<Str>, keyCounts: seq<int>)

  // ----- what a tree holds -----

  /** What is hashed at node `i`: a leaf's contents, or the hashes of the two children. */
  function Preimage(sha: Str -> Digest, leaves: seq<seq<KV>>, i: nat): Str
    requires i < 2 * |leaves| - 1
    decreases 2 * |leaves| - i, 0
  {
    if i >= |leaves| - 1 then EncodeLeaf(leaves[i - (|leaves| - 1)])
    else HashAt(sha, leaves, 2 * i + 1) + HashAt(sha, leaves, 2 * i + 2)
  }

  function HashAt(sha: Str -> Digest, leaves: seq<seq<KV>>, i: nat): Digest
    requires i < 2 * |leaves| - 1
    decreases 2 * |leaves| - i, 1
  {
    sha(Preimage(sha, leaves, i))
  }

  function CountAt(leaves: seq<seq<KV>>, i: nat): nat
    requires i < 2 * |leaves| - 1
    decreases 2 * |leaves| - i
  {
    if i >= |leaves| - 1 then |leaves[i - (|leaves| - 1)]|
    else CountAt(leaves, 2 * i + 1) + CountAt(leaves, 2 * i + 2)
  }

  ghost predicate IsTreeOf(sha: Str -> Digest, leaves: seq<seq<KV>>, t: Tree) {
    && |leaves| > 0 && t.numLeaves == |leaves|
    && |t.hashes| == |t.keyCounts| == 2 * |leaves| - 1
    && (forall i :: 0 <= i < 2 * |leaves| - 1 ==> NodeIs(sha, leaves, t, i))
  }

  ghost predicate NodeIs(sha: Str -> Digest, leaves: seq<seq<KV>>, t: Tree, i: nat)
    requires i < 2 * |leaves| - 1 && i < |t.hashes| && i < |t.keyCounts|
  {
    t.hashes[i] == HashAt(sha, leaves, i) && t.keyCounts[i] == CountAt(leaves, i)
  }

  // ----- hashes and contents -----

  /** No collision between the inputs hashed at corresponding nodes of the two trees. */
  ghost predicate CollisionFree(sha: Str -> Digest, xs: seq<seq<KV>>, ys: seq<seq<KV>>)
    requires |xs| == |ys|
  {
    forall i :: 0 <= i < 2 * |xs| - 1 ==> NoCollisionAt(sha, xs, ys, i)
  }

  ghost predicate NoCollisionAt(sha: Str -> Digest, xs: seq<seq<KV>>, ys: seq<seq<KV>>, i: nat)
    requires |xs| == |ys| && i < 2 * |xs| - 1
  {
    HashAt(sha, xs, i) == HashAt(sha, ys, i) ==> Preimage(sha, xs, i) == Preimage(sha, ys, i)
  }

  ghost predicate AllSized(leaves: seq<seq<KV>>) {
    forall i, e :: 0 <= i < |leaves| && e in leaves[i] ==> Sized(e)
  }

  lemma LeafHashExact(sha: Str -> Digest, xs: seq<seq<KV>>, ys: seq<seq<KV>>, i: nat)
    requires |xs| == |ys| && i < |xs| && CollisionFree(sha, xs, ys) && AllSized(xs) && AllSized(ys)
    ensures HashAt(sha, xs, |xs| - 1 + i) == HashAt(sha, ys, |xs| - 1 + i) <==> xs[i] == ys[i]
  {
    if HashAt(sha, xs, |xs| - 1 + i) == HashAt(sha, ys, |xs| - 1 + i) {
      assert NoCollisionAt(sha, xs, ys, |xs| - 1 + i);
      EncodeLeafInjective(xs[i], ys[i]);
    }
  }

  lemma ChildrenAgree(sha: Str -> Digest, xs: seq<seq<KV>>, ys: seq<seq<KV>>, i: nat)
    requires |xs| == |ys| && i < |xs| - 1 && CollisionFree(sha, xs, ys)
    requires HashAt(sha, xs, i) == HashAt(sha, ys, i)
    ensures HashAt(sha, xs, 2 * i + 1) == HashAt(sha, ys, 2 * i + 1)
    ensures HashAt(sha, xs, 2 * i + 2) == HashAt(sha, ys, 2 * i + 2)
  {
    assert NoCollisionAt(sha, xs, ys, i);
    SplitSame(HashAt(sha, xs, 2 * i + 1), HashAt(sha, xs, 2 * i + 2),
              HashAt(sha, ys, 2 * i + 1), HashAt(sha, ys, 2 * i + 2));
  }

  /** Agreement spreads from the root: the nodes from `f` to `2f` cut the tree, and replacing
      node `f` by its children gives the next cut. */
  lemma {:induction false} CutAgrees(sha: Str -> Digest, xs: seq<seq<KV>>, ys: seq<seq<KV>>, f: nat)
    requires |xs| == |ys| && f < |xs| && CollisionFree(sha, xs, ys)
    requires HashAt(sha, xs, 0) == HashAt(sha, ys, 0)
    ensures forall j :: f <= j <= 2 * f ==> HashAt(sha, xs, j) == HashAt(sha, ys, j)
  {
    if f > 0 {
      CutAgrees(sha, xs, ys, f - 1);
      ChildrenAgree(sha, xs, ys, f - 1);
      assert 2 * (f - 1) + 1 == 2 * f - 1 && 2 * (f - 1) + 2 == 2 * f;
    }
  }

  /** Equal roots mean equal leaves. */
  lemma RootExact(sha: Str -> Digest, xs: seq<seq<KV>>, ys: seq<seq<KV>>)
    requires |xs| == |ys| > 0 && CollisionFree(sha, xs, ys) && AllSized(xs) && AllSized(ys)
    ensures HashAt(sha, xs, 0) == HashAt(sha, ys, 0) <==> xs == ys
  {
    if HashAt(sha, xs, 0) == HashAt(sha, ys, 0) {
      CutAgrees(sha, xs, ys, |xs| - 1);
      forall i | 0 <= i < |xs| ensures xs[i] == ys[i] {
        LeafHashExact(sha, xs, ys, i);
      }
    }
  }

  // ----- counts -----

  /** Node `j` is `i` or lies below it. */
  predicate Under(i: nat, j: nat) {
    j == i || (j > 0 && Under(i, (j - 1) / 2))
  }

  /** Keys at the nodes from `lo` up to but not including `hi` that lie under `i`. */
  function CountUnder(leaves: seq<seq<KV>>, i: nat, lo: nat, hi: nat): nat
    requires hi <= 2 * |leaves| - 1
    decreases hi
  {
    if lo >= hi then 0
    else CountUnder(leaves, i, lo, hi - 1) + (if Under(i, hi - 1) then CountAt(leaves, hi - 1) else 0)
  }

  lemma {:induction false} UnderIsAbove(i: nat, j: nat)
    requires Under(i, j)
    ensures i <= j
  {
    if j != i {
      UnderIsAbove(i, (j - 1) / 2);
    }
  }

  lemma {:induction false} CountUnderPeel(leaves: seq<seq<KV>>, i: nat, lo: nat, hi: nat)
    requires lo < hi <= 2 * |leaves| - 1
    ensures CountUnder(leaves, i, lo, hi) ==
            (if Under(i, lo) then CountAt(leaves, lo) else 0) + CountUnder(leaves, i, lo + 1, hi)
    decreases hi
  {
    if lo + 1 < hi {
      CountUnderPeel(leaves, i, lo, hi - 1);
    }
  }

  lemma {:induction false} NoneUnder(leaves: seq<seq<KV>>, i: nat, lo: nat, hi: nat)
    requires i < lo && hi <= 2 * i + 1 && hi <= 2 * |leaves| - 1
    ensures CountUnder(leaves, i, lo, hi) == 0
    decreases hi
  {
    if lo < hi {
      NoneUnder(leaves, i, lo, hi - 1);
      if Under(i, hi - 1) {
        UnderIsAbove(i, (hi - 2) / 2);
      }
    }
  }

  lemma {:induction false} CutCounts(leaves: seq<seq<KV>>, i: nat, f: nat)
    requires i <= f < |leaves|
    ensures CountUnder(leaves, i, f, 2 * f + 1) == CountAt(leaves, i)
    decreases f
  {
    if f == i {
      CountUnderPeel(leaves, i, i, 2 * i + 1);
      NoneUnder(leaves, i, i + 1, 2 * i + 1);
    } else {
      var g := f - 1;
      CutCounts(leaves, i, g);
      CountUnderPeel(leaves, i, g, 2 * g + 1);
      assert Under(i, 2 * g + 1) == Under(i, g) && Under(i, 2 * g + 2) == Under(i, g);
      assert CountUnder(leaves, i, f, 2 * g + 3) ==
             CountUnder(leaves, i, f, 2 * g + 1)
             + (if Under(i, 2 * g + 1) then CountAt(leaves, 2 * g + 1) else 0)
             + (if Under(i, 2 * g + 2) then CountAt(leaves, 2 * g + 2) else 0);
    }
  }

  /** Every node's key count is the sum over the leaves below it. */
  lemma KeyCountIsLeavesBelow(leaves: seq<seq<KV>>, i: nat)
    requires i < 2 * |leaves| - 1
    ensures CountAt(leaves, i) ==
            if i < |leaves| then CountUnder(leaves, i, |leaves| - 1, 2 * |leaves| - 1) else |leaves[i - (|leaves| - 1)]|
  {
    if i < |leaves| {
      CutCounts(leaves, i, |leaves| - 1);
    }
  }

  function Total(leaves: seq<seq<KV>>, n: nat): nat
    requires n <= |leaves|
  {
    if n == 0 then 0 else Total(leaves, n - 1) + |leaves[n - 1]|
  }

  lemma {:induction false} AllUnderRoot(j: nat)
    ensures Under(0, j)
  {
    if j > 0 {
      AllUnderRoot((j - 1) / 2);
    }
  }

  lemma {:induction false} RootTotal(leaves: seq<seq<KV>>, n: nat)
    requires 0 < n <= |leaves|
    ensures CountUnder(leaves, 0, |leaves| - 1, |leaves| - 1 + n) == Total(leaves, n)
  {
    AllUnderRoot(|leaves| - 2 + n);
    if n > 1 {
      RootTotal(leaves, n - 1);
    }
  }

  // ----- buckets -----

  function Bucket(fnv: Str -> Uint64, items: seq<Keyed>, nl: int, i: int): seq<KV>
    requires nl >= 2
  {
    if items == [] then []
    else
      var last := items[|items| - 1];
      IndexInRange(fnv(last.key), nl);
      var init := Bucket(fnv, items[..|items| - 1], nl, i);
      if LeafIndex(fnv(last.key), nl) == i then init + [Record(last)] else init
  }

  ghost function LeavesOf(fnv: Str -> Uint64, tree: map<Str, Entry>, nl: int): seq<seq<KV>>
    requires nl >= 2
  {
    seq(nl, i => Bucket(fnv, LiveItems(tree), nl, i))
  }

  predicate KeysAscend(es: seq<KV>) {
    forall i, j :: 0 <= i < j < |es| ==> Less(es[i].key, es[j].key)
  }

  predicate ItemsAscend(items: seq<Keyed>) {
    forall i, j :: 0 <= i < j < |items| ==> Less(items[i].key, items[j].key)
  }

  predicate InBucket(fnv: Str -> Uint64, items: seq<Keyed>, nl: int, i: int, e: KV)
    requires nl >= 2
  {
    IndexInRange(fnv(e.key), nl);
    && LeafIndex(fnv(e.key), nl) == i
    && exists x :: x in items && x.key == e.key && x.entry.value == e.value && x.entry.version == e.ver
  }

  lemma {:induction false} BucketMembers(fnv: Str -> Uint64, items: seq<Keyed>, nl: int, i: int)
    requires nl >= 2
    ensures forall e :: e in Bucket(fnv, items, nl, i) <==> InBucket(fnv, items, nl, i, e)
  {
    if items != [] {
      var init, last := items[..|items| - 1], items[|items| - 1];
      BucketMembers(fnv, init, nl, i);
      IndexInRange(fnv(last.key), nl);
      assert items == init + [last];
      forall e ensures e in Bucket(fnv, items, nl, i) <==> InBucket(fnv, items, nl, i, e) {
        assert InBucket(fnv, items, nl, i, e) <==>
               InBucket(fnv, init, nl, i, e) ||
               (LeafIndex(fnv(last.key), nl) == i && e == KV(last.key, last.entry.value, last.entry.version));
      }
    }
  }

  lemma {:induction false} BucketAscends(fnv: Str -> Uint64, items: seq<Keyed>, nl: int, i: int)
    requires nl >= 2 && ItemsAscend(items)
    ensures KeysAscend(Bucket(fnv, items, nl, i))
  {
    if items != [] {
      var init, last := items[..|items| - 1], items[|items| - 1];
      BucketAscends(fnv, init, nl, i);
      BucketMembers(fnv, init, nl, i);
      var b := Bucket(fnv, init, nl, i);
      forall j | 0 <= j < |b| ensures Less(b[j].key, last.key) {
        assert b[j] in b;
        assert InBucket(fnv, init, nl, i, b[j]);
        var x :| x in init && x.key == b[j].key;
        var m :| 0 <= m < |init| && init[m] == x;
        assert items[m] == x;
      }
    }
  }

  /** An ascending list of entries is determined by which entries it has. */
  lemma {:induction false} SameEntriesSameList(a: seq<KV>, b: seq<KV>)
    requires KeysAscend(a) && KeysAscend(b) && forall e :: e in a <==> e in b
    ensures a == b
  {
    var ka, kb := seq(|a|, i requires 0 <= i < |a| => a[i].key), seq(|b|, i requires 0 <= i < |b| => b[i].key);
    forall k ensures k in ka <==> k in kb {
      if k in ka {
        var i :| 0 <= i < |a| && a[i].key == k;
        assert a[i] in b;
        var j :| 0 <= j < |b| && b[j] == a[i];
        assert kb[j] == k;
      }
      if k in kb {
        var i :| 0 <= i < |b| && b[i].key == k;
        assert b[i] in a;
        var j :| 0 <= j < |a| && a[j] == b[i];
        assert ka[j] == k;
      }
    }
    AscendingUnique(ka, kb);
    forall i | 0 <= i < |a| ensures a[i] == b[i] {
      assert ka[i] == a[i].key && kb[i] == b[i].key;
      assert a[i] in b;
      var j :| 0 <= j < |b| && b[j] == a[i];
      LessTrichotomy(b[i].key, b[j].key);
    }
    assert |ka| == |kb|;
  }

  function Record(x: Keyed): KV {
    KV(x.key, x.entry.value, x.entry.version)
  }

  function Records(items: seq<Keyed>): seq<KV> {
    seq(|items|, i requires 0 <= i < |items| => Record(items[i]))
  }

  /** What the first `n` leaves hold, each entry as often as it occurs in them. */
  function Contents(leaves: seq<seq<KV>>, n: nat): multiset<KV>
    requires n <= |leaves|
  {
    if n == 0 then multiset{} else Contents(leaves, n - 1) + multiset(leaves[n - 1])
  }

  /** The leaves together hold exactly the items: none is lost, none is in two leaves. */
  lemma {:induction false} BucketsPartition(fnv: Str -> Uint64, items: seq<Keyed>, nl: int, leaves: seq<seq<KV>>)
    requires nl >= 2 && |leaves| == nl
    requires forall i :: 0 <= i < nl ==> leaves[i] == Bucket(fnv, items, nl, i)
    ensures Contents(leaves, nl) == multiset(Records(items))
    ensures Total(leaves, nl) == |items|
  {
    if items == [] {
      ContentsOfEmpty(leaves, nl);
    } else {
      var init, last := items[..|items| - 1], items[|items| - 1];
      var before := seq(nl, i => Bucket(fnv, init, nl, i));
      BucketsPartition(fnv, init, nl, before);
      IndexInRange(fnv(last.key), nl);
      ContentsOneMore(before, leaves, LeafIndex(fnv(last.key), nl), Record(last), nl);
      RecordsSnoc(items);
    }
    TotalIsContents(leaves, nl);
    assert |multiset(Records(items))| == |items|;
  }

  lemma RecordsSnoc(items: seq<Keyed>)
    requires items != []
    ensures multiset(Records(items)) ==
            multiset(Records(items[..|items| - 1])) + multiset{Record(items[|items| - 1])}
  {
    assert Records(items) == Records(items[..|items| - 1]) + [Record(items[|items| - 1])];
  }

  lemma {:induction false} ContentsOfEmpty(leaves: seq<seq<KV>>, n: nat)
    requires n <= |leaves| && forall i :: 0 <= i < n ==> leaves[i] == []
    ensures Contents(leaves, n) == multiset{}
  {
    if n > 0 {
      ContentsOfEmpty(leaves, n - 1);
    }
  }

  lemma {:induction false} ContentsOneMore(before: seq<seq<KV>>, after: seq<seq<KV>>, at: nat, e: KV, n: nat)
    requires |before| == |after| && at < |after| && n <= |after|
    requires forall i :: 0 <= i < |after| ==> after[i] == (if i == at then before[i] + [e] else before[i])
    ensures Contents(after, n) == Contents(before, n) + (if at < n then multiset{e} else multiset{})
  {
    if n > 0 {
      ContentsOneMore(before, after, at, e, n - 1);
    }
  }

  lemma {:induction false} TotalIsContents(leaves: seq<seq<KV>>, n: nat)
    requires n <= |leaves|
    ensures Total(leaves, n) == |Contents(leaves, n)|
  {
    if n > 0 {
      TotalIsContents(leaves, n - 1);
    }
  }

  // ----- trees and stores -----

  ghost function Projection(tree: map<Str, Entry>): map<Str, (Str, Int64)> {
    map k | k in tree && !tree[k].deleted :: (tree[k].value, tree[k].version)
  }

  /** The live (key, value, version) contents of one leaf. */
  ghost function LeafContents(fnv: Str -> Uint64, tree: map<Str, Entry>, nl: int, i: int): map<Str, (Str, Int64)>
    requires nl >= 2
  {
    WidthOf(nl);
    map k | k in tree && !tree[k].deleted && LeafIndex(fnv(k), nl) == i :: (tree[k].value, tree[k].version)
  }

  ghost predicate StoreSized(tree: map<Str, Entry>) {
    forall k :: k in tree && !tree[k].deleted ==> |k| < TWO32 && |tree[k].value| < TWO32
  }

  lemma LeafMembers(fnv: Str -> Uint64, tree: map<Str, Entry>, nl: int, i: int)
    requires nl >= 2 && 0 <= i < nl
    ensures var leaf, contents := LeavesOf(fnv, tree, nl)[i], LeafContents(fnv, tree, nl, i);
            && KeysAscend(leaf)
            && (forall e :: e in leaf <==> e.key in contents && contents[e.key] == (e.value, e.ver))
  {
    var items := LiveItems(tree);
    LiveItemsExact(tree);
    BucketAscends(fnv, items, nl, i);
    BucketMembers(fnv, items, nl, i);
    WidthOf(nl);
    var leaf, contents := LeavesOf(fnv, tree, nl)[i], LeafContents(fnv, tree, nl, i);
    forall e ensures e in leaf <==> e.key in contents && contents[e.key] == (e.value, e.ver) {
      assert e in leaf <==> InBucket(fnv, items, nl, i, e);
      if e.key in contents && contents[e.key] == (e.value, e.ver) {
        assert Keyed(e.key, tree[e.key]) in items;
      }
    }
  }

  lemma LeafExact(fnv: Str -> Uint64, s: map<Str, Entry>, t: map<Str, Entry>, nl: int, i: int)
    requires nl >= 2 && 0 <= i < nl
    ensures LeavesOf(fnv, s, nl)[i] == LeavesOf(fnv, t, nl)[i]
            <==> LeafContents(fnv, s, nl, i) == LeafContents(fnv, t, nl, i)
  {
    LeafMembers(fnv, s, nl, i);
    LeafMembers(fnv, t, nl, i);
    var a, b := LeafContents(fnv, s, nl, i), LeafContents(fnv, t, nl, i);
    if LeavesOf(fnv, s, nl)[i] == LeavesOf(fnv, t, nl)[i] {
      forall k ensures k in a <==> k in b && (k in a ==> a[k] == b[k]) {
        if k in a { assert KV(k, a[k].0, a[k].1) in LeavesOf(fnv, s, nl)[i]; }
        if k in b { assert KV(k, b[k].0, b[k].1) in LeavesOf(fnv, t, nl)[i]; }
      }
      assert a == b;
    } else if a == b {
      SameEntriesSameList(LeavesOf(fnv, s, nl)[i], LeavesOf(fnv, t, nl)[i]);
    }
  }

  lemma StoreSizedLeaves(fnv: Str -> Uint64, tree: map<Str, Entry>, nl: int)
    requires nl >= 2 && StoreSized(tree)
    ensures AllSized(LeavesOf(fnv, tree, nl))
  {
    forall i, e | 0 <= i < nl && e in LeavesOf(fnv, tree, nl)[i] ensures Sized(e) {
      LeafMembers(fnv, tree, nl, i);
    }
  }

  lemma ProjectionByLeaves(fnv: Str -> Uint64, s: map<Str, Entry>, t: map<Str, Entry>, nl: int)
    requires nl >= 2
    ensures Projection(s) == Projection(t)
            <==> forall i :: 0 <= i < nl ==> LeafContents(fnv, s, nl, i) == LeafContents(fnv, t, nl, i)
  {
    WidthOf(nl);
    var a, b := Projection(s), Projection(t);
    if forall i :: 0 <= i < nl ==> LeafContents(fnv, s, nl, i) == LeafContents(fnv, t, nl, i) {
      forall k ensures k in a <==> k in b && (k in a ==> a[k] == b[k]) {
        IndexInRange(fnv(k), nl);
        var i := LeafIndex(fnv(k), nl);
        assert LeafContents(fnv, s, nl, i) == LeafContents(fnv, t, nl, i);
        assert k in a <==> k in LeafContents(fnv, s, nl, i);
        assert k in b <==> k in LeafContents(fnv, t, nl, i);
      }
      assert a == b;
    } else if a == b {
      forall i | 0 <= i < nl ensures LeafContents(fnv, s, nl, i) == LeafContents(fnv, t, nl, i) {
        assert forall k :: k in LeafContents(fnv, s, nl, i) <==> k in a && LeafIndex(fnv(k), nl) == i;
        assert forall k :: k in LeafContents(fnv, t, nl, i) <==> k in b && LeafIndex(fnv(k), nl) == i;
      }
    }
  }

  /** What `Diff` returns: the leaves whose hashes differ, in ascending order. */
  ghost predicate IsDiff(a: Tree, b: Tree, diffs: seq<int>)
    requires a.numLeaves > 0 && |a.hashes| == 2 * a.numLeaves - 1 && |b.hashes| == 2 * b.numLeaves - 1
  {
    if a.numLeaves != b.numLeaves then diffs == []
    else
      && (forall i :: i in diffs <==> 0 <= i < a.numLeaves && LeafHashDiffers(a, b, i))
      && (forall i, j :: 0 <= i < j < |diffs| ==> diffs[i] < diffs[j])
  }

  ghost predicate LeafHashDiffers(a: Tree, b: Tree, i: nat)
    requires i < a.numLeaves == b.numLeaves && |a.hashes| == |b.hashes| == 2 * a.numLeaves - 1
  {
    a.hashes[a.numLeaves - 1 + i] != b.hashes[a.numLeaves - 1 + i]
  }

  lemma LeafDiffers(fnv: Str -> Uint64, sha: Str -> Digest, s: map<Str, Entry>, t: map<Str, Entry>, nl: int,
                    a: Tree, b: Tree, i: nat)
    requires nl >= 2 && StoreSized(s) && StoreSized(t) && i < nl
    requires CollisionFree(sha, LeavesOf(fnv, s, nl), LeavesOf(fnv, t, nl))
    requires IsTreeOf(sha, LeavesOf(fnv, s, nl), a) && IsTreeOf(sha, LeavesOf(fnv, t, nl), b)
    ensures LeafHashDiffers(a, b, i) <==> LeafContents(fnv, s, nl, i) != LeafContents(fnv, t, nl, i)
  {
    var xs, ys := LeavesOf(fnv, s, nl), LeavesOf(fnv, t, nl);
    TreeLeafHash(sha, xs, a, i);
    TreeLeafHash(sha, ys, b, i);
    assert xs[i] == ys[i] <==> HashAt(sha, xs, nl - 1 + i) == HashAt(sha, ys, nl - 1 + i) by {
      StoreSizedLeaves(fnv, s, nl);
      StoreSizedLeaves(fnv, t, nl);
      LeafHashExact(sha, xs, ys, i);
    }
    LeafExact(fnv, s, t, nl, i);
  }

  lemma TreeLeafHash(sha: Str -> Digest, leaves: seq<seq<KV>>, t: Tree, i: nat)
    requires IsTreeOf(sha, leaves, t) && i < |leaves|
    ensures t.hashes[|leaves| - 1 + i] == HashAt(sha, leaves, |leaves| - 1 + i)
  {
    assert NodeIs(sha, leaves, t, |leaves| - 1 + i);
  }

  /** Diff is exact: for trees built with the same number of leaves from stores s and t, the
      differing leaves are exactly those whose live contents differ. */
  lemma DiffExact(fnv: Str -> Uint64, sha: Str -> Digest, s: map<Str, Entry>, t: map<Str, Entry>, nl: int,
                  a: Tree, b: Tree, diffs: seq<int>, i: int)
    requires nl >= 2 && StoreSized(s) && StoreSized(t)
    requires CollisionFree(sha, LeavesOf(fnv, s, nl), LeavesOf(fnv, t, nl))
    requires IsTreeOf(sha, LeavesOf(fnv, s, nl), a) && IsTreeOf(sha, LeavesOf(fnv, t, nl), b)
    requires IsDiff(a, b, diffs)
    ensures i in diffs <==> 0 <= i < nl && LeafContents(fnv, s, nl, i) != LeafContents(fnv, t, nl, i)
  {
    if 0 <= i < nl {
      LeafDiffers(fnv, sha, s, t, nl, a, b, i);
    }
  }

  /** The roots agree iff Diff is empty iff the stores have the same live keys, values and
      versions. */
  lemma RootsAgreeIff(fnv: Str -> Uint64, sha: Str -> Digest, s: map<Str, Entry>, t: map<Str, Entry>, nl: int,
                      a: Tree, b: Tree, diffs: seq<int>)
    requires nl >= 2 && StoreSized(s) && StoreSized(t)
    requires CollisionFree(sha, LeavesOf(fnv, s, nl), LeavesOf(fnv, t, nl))
    requires IsTreeOf(sha, LeavesOf(fnv, s, nl), a) && IsTreeOf(sha, LeavesOf(fnv, t, nl), b)
    requires IsDiff(a, b, diffs)
    ensures a.hashes[0] == b.hashes[0] <==> Projection(s) == Projection(t)
    ensures diffs == [] <==> Projection(s) == Projection(t)
  {
    assert NodeIs(sha, LeavesOf(fnv, s, nl), a, 0) && NodeIs(sha, LeavesOf(fnv, t, nl), b, 0);
    StoreSizedLeaves(fnv, s, nl);
    StoreSizedLeaves(fnv, t, nl);
    RootExact(sha, LeavesOf(fnv, s, nl), LeavesOf(fnv, t, nl));
    LeavesExact(fnv, s, t, nl);
    ProjectionByLeaves(fnv, s, t, nl);
    forall i ensures i in diffs <==> 0 <= i < nl && LeafContents(fnv, s, nl, i) != LeafContents(fnv, t, nl, i) {
      DiffExact(fnv, sha, s, t, nl, a, b, diffs, i);
    }
    assert |diffs| > 0 ==> diffs[0] in diffs;
  }

  lemma LeavesExact(fnv: Str -> Uint64, s: map<Str, Entry>, t: map<Str, Entry>, nl: int)
    requires nl >= 2
    ensures LeavesOf(fnv, s, nl) == LeavesOf(fnv, t, nl)
            <==> forall i :: 0 <= i < nl ==> LeafContents(fnv, s, nl, i) == LeafContents(fnv, t, nl, i)
  {
    var xs, ys := LeavesOf(fnv, s, nl), LeavesOf(fnv, t, nl);
    forall i | 0 <= i < nl ensures xs[i] == ys[i] <==> LeafContents(fnv, s, nl, i) == LeafContents(fnv, t, nl, i) {
      LeafExact(fnv, s, t, nl, i);
    }
  }

  /** The root's key count is the number of live keys. */
  lemma RootCountsLiveKeys(fnv: Str -> Uint64, tree: map<Str, Entry>, nl: int)
    requires nl >= 2
    ensures CountAt(LeavesOf(fnv, tree, nl), 0) == |Live(tree)|
  {
    var leaves := LeavesOf(fnv, tree, nl);
    KeyCountIsLeavesBelow(leaves, 0);
    RootTotal(leaves, nl);
    BucketsPartition(fnv, LiveItems(tree), nl, leaves);
    LiveItemsExact(tree);
  }
}
