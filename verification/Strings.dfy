/** Go strings: byte sequences compared byte by byte. */
module Strings {

  newtype Byte = b: int | 0 <= b < 256

  type Str = seq<Byte>

  const MIN_INT64: int := -0x8000_0000_0000_0000
  const MAX_INT64: int := 0x7FFF_FFFF_FFFF_FFFF

  type Int64 = x: int | MIN_INT64 <= x <= MAX_INT64

  const TWO64: int := 0x1_0000_0000_0000_0000

  type Uint64 = x: int | 0 <= x < TWO64

  datatype Option<+T> = None | Some(value: T)

  /** The operator `a < b` on Go strings. */
  predicate Less(a: Str, b: Str) {
    if |b| == 0 then false
    else if |a| == 0 then true
    else if a[0] != b[0] then a[0] < b[0]
    else Less(a[1..], b[1..])
  }

  lemma {:induction false} LessTrichotomy(a: Str, b: Str)
    ensures !(Less(a, b) && Less(b, a))
    ensures !(Less(a, b) && a == b)
    ensures Less(a, b) || a == b || Less(b, a)
  {
    if |a| > 0 && |b| > 0 && a[0] == b[0] {
      LessTrichotomy(a[1..], b[1..]);
      assert a == [a[0]] + a[1..] && b == [b[0]] + b[1..];
    }
  }

  lemma {:induction false} LessTransitive(a: Str, b: Str, c: Str)
    requires Less(a, b) && Less(b, c)
    ensures Less(a, c)
  {
    if |a| > 0 && a[0] == b[0] == c[0] {
      LessTransitive(a[1..], b[1..], c[1..]);
    }
  }

  /** Keys in strictly ascending order, the order in which the store's B-tree iterates. */
  predicate Ascending(keys: seq<Str>) {
    forall i, j :: 0 <= i < j < |keys| ==> Less(keys[i], keys[j])
  }

  ghost predicate IsLeast(m: Str, s: set<Str>) {
    m in s && forall x :: x in s ==> m == x || Less(m, x)
  }

  lemma {:induction false} LeastExists(s: set<Str>)
    requires s != {}
    ensures exists m :: IsLeast(m, s)
  {
    var x :| x in s;
    var rest := s - {x};
    if rest == {} {
      assert s == {x};
      assert IsLeast(x, s);
    } else {
      LeastExists(rest);
      var m :| IsLeast(m, rest);
      LessTrichotomy(x, m);
      if Less(x, m) {
        forall y | y in s ensures x == y || Less(x, y) {
          if y != x && y != m {
            LessTransitive(x, m, y);
          }
        }
        assert IsLeast(x, s);
      } else {
        assert IsLeast(m, s);
      }
    }
  }

  ghost function Least(s: set<Str>): (m: Str)
    requires s != {}
    ensures IsLeast(m, s)
  {
    LeastExists(s);
    var m :| IsLeast(m, s);
    m
  }

  /** The elements of a finite set in ascending order. */
  ghost function SortedKeys(s: set<Str>): (r: seq<Str>) {
    if s == {} then [] else [Least(s)] + SortedKeys(s - {Least(s)})
  }

  lemma {:induction false} SortedKeysOrdered(s: set<Str>)
    ensures Ascending(SortedKeys(s))
    ensures forall k :: k in SortedKeys(s) <==> k in s
    ensures |SortedKeys(s)| == |s|
  {
    if s != {} {
      SortedKeysOrdered(s - {Least(s)});
    }
  }

  /** An ascending list is determined by its elements. */
  lemma {:induction false} AscendingUnique(a: seq<Str>, b: seq<Str>)
    requires Ascending(a) && Ascending(b)
    requires forall k :: k in a <==> k in b
    ensures a == b
  {
    assert |a| > 0 ==> a[0] in b;
    assert |b| > 0 ==> b[0] in a;
    if a != [] && b != [] {
      AscendingHeads(a, b);
      forall k ensures k in a[1..] <==> k in b[1..] {
        NotInTail(a);
        NotInTail(b);
        if k in a[1..] { assert k in b; }
        if k in b[1..] { assert k in a; }
      }
      AscendingUnique(a[1..], b[1..]);
    }
  }

  lemma NotInTail(a: seq<Str>)
    requires Ascending(a) && a != []
    ensures a[0] !in a[1..]
  {
    if a[0] in a[1..] {
      var i :| 0 < i < |a| && a[i] == a[0];
      assert Less(a[0], a[i]);
      LessTrichotomy(a[0], a[i]);
    }
  }

  lemma AscendingHeads(a: seq<Str>, b: seq<Str>)
    requires Ascending(a) && Ascending(b) && a != [] && b != []
    requires forall k :: k in a <==> k in b
    ensures a[0] == b[0]
  {
    assert a[0] in b && b[0] in a;
    var i :| 0 <= i < |b| && b[i] == a[0];
    var j :| 0 <= j < |a| && a[j] == b[0];
    if i != 0 && j != 0 {
      assert Less(b[0], a[0]) && Less(a[0], b[0]);
      LessTrichotomy(a[0], b[0]);
    }
  }

  ghost function Elements(keys: seq<Str>): set<Str> {
    set k | k in keys
  }

  lemma ElementsSnoc(keys: seq<Str>)
    requires keys != []
    ensures Elements(keys) == Elements(keys[..|keys| - 1]) + {keys[|keys| - 1]}
  {
    assert keys == keys[..|keys| - 1] + [keys[|keys| - 1]];
  }

  lemma {:induction false} ElementsCount(keys: seq<Str>)
    ensures |Elements(keys)| <= |keys|
  {
    if keys == [] {
      assert Elements(keys) == {};
    } else {
      ElementsSnoc(keys);
      ElementsCount(keys[..|keys| - 1]);
    }
  }

  /** Decimal digits, as `strconv.Itoa` and the `%d` verb print them. */
  function Digits(n: nat): (r: Str) {
    if n < 10 then [(48 + n) as Byte] else Digits(n / 10) + [(48 + n % 10) as Byte]
  }

  function Itoa(n: int): (r: Str) {
    if n < 0 then [45] + Digits(-n) else Digits(n)
  }

  lemma Associative<T>(a: seq<T>, b: seq<T>, c: seq<T>)
    ensures (a + b) + c == a + (b + c)
  {
  }
}
