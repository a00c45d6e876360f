/** A stand-in for `sort.Slice`, which promises an ordered rearrangement and nothing about
    elements that compare equal. */
module Sorting {

  ghost predicate Ordered<T>(lt: (T, T) -> bool, xs: seq<T>) {
    forall i, j :: 0 <= i < j < |xs| ==> !lt(xs[j], xs[i])
  }

  ghost predicate StrictOrder<T(!new)>(lt: (T, T) -> bool) {
    && (forall x :: !lt(x, x))
    && (forall x, y, z :: lt(x, y) && lt(y, z) ==> lt(x, z))
  }

  method Insert<T(!new)>(lt: (T, T) -> bool, xs: seq<T>, x: T) returns (r: seq<T>)
    requires StrictOrder(lt) && Ordered(lt, xs)
    ensures Ordered(lt, r)
    ensures multiset(r) == multiset(xs) + multiset{x}
  {
    var p := 0;
    while p < |xs| && !lt(x, xs[p])
      invariant p <= |xs|
      invariant forall i :: 0 <= i < p ==> !lt(x, xs[i])
    {
      p := p + 1;
    }
    r := xs[..p] + [x] + xs[p..];
    InsertedOrdered(lt, xs, x, p);
    InsertedBag(xs, x, p);
  }

  lemma InsertedBag<T>(xs: seq<T>, x: T, p: nat)
    requires p <= |xs|
    ensures multiset(xs[..p] + [x] + xs[p..]) == multiset(xs) + multiset{x}
  {
    assert xs == xs[..p] + xs[p..];
  }

  lemma InsertedOrdered<T(!new)>(lt: (T, T) -> bool, xs: seq<T>, x: T, p: nat)
    requires StrictOrder(lt) && Ordered(lt, xs) && p <= |xs|
    requires forall i :: 0 <= i < p ==> !lt(x, xs[i])
    requires p < |xs| ==> lt(x, xs[p])
    ensures Ordered(lt, xs[..p] + [x] + xs[p..])
  {
    var r := xs[..p] + [x] + xs[p..];
    forall j | p <= j < |xs| ensures !lt(xs[j], x) {
      var later, at := xs[j], xs[p];
      assert lt(later, x) ==> lt(later, at);
    }
    forall i, j | 0 <= i < j < |r| ensures !lt(r[j], r[i]) {
      if j < p {
        assert r[i] == xs[i] && r[j] == xs[j];
      } else if j == p {
        assert r[i] == xs[i] && r[j] == x;
      } else {
        assert r[j] == xs[j - 1];
        assert r[i] == if i < p then xs[i] else if i == p then x else xs[i - 1];
      }
    }
  }

  method Sort<T(!new)>(lt: (T, T) -> bool, xs: seq<T>) returns (r: seq<T>)
    requires StrictOrder(lt)
    ensures Ordered(lt, r)
    ensures multiset(r) == multiset(xs)
  {
    r := [];
    for i := 0 to |xs|
      invariant Ordered(lt, r)
      invariant multiset(r) == multiset(xs[..i])
    {
      PrefixBag(xs, i);
      r := Insert(lt, r, xs[i]);
    }
    assert xs[..|xs|] == xs;
  }

  lemma TailBag<T>(s: seq<T>)
    requires s != []
    ensures multiset(s[1..]) == multiset(s) - multiset{s[0]}
  {
    assert s == [s[0]] + s[1..];
  }

  lemma PrefixBag<T>(s: seq<T>, i: nat)
    requires i < |s|
    ensures multiset(s[..i + 1]) == multiset(s[..i]) + multiset{s[i]}
  {
    assert s[..i + 1] == s[..i] + [s[i]];
  }
}
