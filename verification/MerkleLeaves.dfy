/** How the Merkle tree cuts the 64-bit hash space into leaves, and how a leaf's contents are
    written out before hashing. */
module MerkleLeaves {
  import opened Strings
  import opened PowerOfTwo

  const MAX_UINT64: int := TWO64 - 1

  const TWO32: int := 0x1_0000_0000

  // ----- cutting the hash space -----

  /** `maxUint64/numLeaves + 1` in 64-bit arithmetic; it is 0 for a single leaf. */
  function Width(nl: int): Uint64
    requires nl > 0
  {
    (MAX_UINT64 / nl + 1) % TWO64
  }

  function LeafIndex(h: Uint64, nl: int): int
    requires nl > 0 && Width(nl) != 0
  {
    var idx := h / Width(nl);
    if idx >= nl then nl - 1 else idx
  }

  function LeafBounds(nl: int, i: int): (Uint64, Uint64)
    requires 0 <= i < nl
  {
    var start := (i * Width(nl)) % TWO64;
    var end := ((i + 1) * Width(nl)) % TWO64;
    (start, if i == nl - 1 then MAX_UINT64 else end)
  }

  predicate InLeafRange(h: Uint64, start: Uint64, end: Uint64, final: bool) {
    h >= start && (h < end || (final && h == MAX_UINT64))
  }

  predicate InLeaf(h: Uint64, nl: int, i: int)
    requires 0 <= i < nl
  {
    var (start, end) := LeafBounds(nl, i);
    InLeafRange(h, start, end, i == nl - 1)
  }

  lemma QuotientUnique(x: int, n: int, q: int)
    requires n > 0 && q * n <= x < q * n + n
    ensures x / n == q
  {
    var p := x / n;
    assert x == p * n + x % n;
    assert (p + 1) * n == p * n + n && (q + 1) * n == q * n + n;
    if p < q {
      MulMonotone(p + 1, q, n);
    } else if p > q {
      MulMonotone(q + 1, p, n);
    }
  }

  lemma QuotientAtLeast(x: int, n: int, q: int)
    requires n > 0 && q * n <= x
    ensures q <= x / n
  {
    var p := x / n;
    assert x == p * n + x % n;
    assert (p + 1) * n == p * n + n;
    if p < q {
      MulMonotone(p + 1, q, n);
    }
  }

  lemma MulMonotone(a: int, b: int, n: int)
    requires a <= b && n >= 0
    ensures a * n <= b * n
  {
    assert (b - a) * n >= 0;
  }

  lemma WidthOf(nl: int)
    requires nl >= 2
    ensures Width(nl) == MAX_UINT64 / nl + 1 && 0 < Width(nl) < TWO64
    ensures nl * Width(nl) > MAX_UINT64
    ensures (nl - 1) * (MAX_UINT64 / nl) <= MAX_UINT64 - MAX_UINT64 / nl
  {
    var q, r := MAX_UINT64 / nl, MAX_UINT64 % nl;
    assert MAX_UINT64 == q * nl + r;
    if q >= MAX_UINT64 {
      MulMonotone(MAX_UINT64, q, nl);
      MulMonotone(2, nl, MAX_UINT64);
    }
    assert nl * (q + 1) == q * nl + nl;
    assert (nl - 1) * q == q * nl - q;
  }

  lemma IndexInRange(h: Uint64, nl: int)
    requires nl >= 2
    ensures Width(nl) != 0 && 0 <= LeafIndex(h, nl) < nl && LeafIndex(h, nl) == h / Width(nl)
  {
    WidthOf(nl);
    var w, q := Width(nl), h / Width(nl);
    assert h == q * w + h % w;
    if q >= nl {
      MulMonotone(nl, q, w);
    }
  }

  lemma QuotientIs(h: int, w: int, i: int)
    requires w > 0
    ensures h / w == i <==> i * w <= h < i * w + w
  {
    if h / w == i {
      assert h == i * w + h % w;
    } else if i * w <= h < i * w + w {
      QuotientUnique(h, w, i);
    }
  }

  lemma BoundsFit(nl: int, i: int)
    requires nl >= 2 && 0 <= i < nl && (nl - 1) * Width(nl) < TWO64
    ensures LeafBounds(nl, i).0 == i * Width(nl)
    ensures i < nl - 1 ==> LeafBounds(nl, i).1 == i * Width(nl) + Width(nl)
  {
    WidthOf(nl);
    var w := Width(nl);
    MulMonotone(0, i, w);
    MulMonotone(i, nl - 1, w);
    assert (i + 1) * w == i * w + w;
    if i < nl - 1 {
      MulMonotone(i + 1, nl - 1, w);
    }
  }

  lemma InLeafFits(h: Uint64, nl: int, i: int)
    requires nl >= 2 && 0 <= i < nl && (nl - 1) * Width(nl) < TWO64
    ensures Width(nl) != 0
    ensures InLeaf(h, nl, i) <==> LeafIndex(h, nl) == i
  {
    WidthOf(nl);
    IndexInRange(h, nl);
    BoundsFit(nl, i);
    QuotientIs(h, Width(nl), i);
    assert nl * Width(nl) == (nl - 1) * Width(nl) + Width(nl);
  }

  /** Build's division and `LeafBounds` with `inLeafRange` put every hash into the same leaf
      exactly when the start of the last leaf does not overflow 64 bits. */
  lemma BoundsAgreeIff(nl: int)
    requires nl >= 2
    ensures Width(nl) != 0
    ensures (forall h: Uint64, i :: 0 <= i < nl ==> (InLeaf(h, nl, i) <==> LeafIndex(h, nl) == i))
            <==> (nl - 1) * Width(nl) < TWO64
  {
    WidthOf(nl);
    if (nl - 1) * Width(nl) < TWO64 {
      forall h: Uint64, i | 0 <= i < nl ensures InLeaf(h, nl, i) <==> LeafIndex(h, nl) == i {
        InLeafFits(h, nl, i);
      }
    } else {
      var h: Uint64, w := MAX_UINT64, Width(nl);
      IndexInRange(h, nl);
      var q := h / w;
      assert h == q * w + h % w;
      assert q == nl - 1 ==> q * w >= TWO64;
      assert InLeaf(h, nl, nl - 1) && LeafIndex(h, nl) != nl - 1;
    }
  }

  /** It does for 2^63 - 1 leaves: the largest hash lies in the bounds of the last leaf but is put
      into another one. */
  lemma BoundsDisagree()
    ensures var nl := MAX_INT64;
            && Width(nl) == 3 && (nl - 1) * Width(nl) >= TWO64
            && InLeaf(MAX_UINT64, nl, nl - 1)
            && LeafIndex(MAX_UINT64, nl) == 0x5555_5555_5555_5555
  {
  }

  /** It does not overflow for any leaf count up to 2^32. */
  lemma FitsSmall(nl: int)
    requires 2 <= nl <= TWO32
    ensures (nl - 1) * Width(nl) < TWO64
  {
    WidthOf(nl);
    var q := MAX_UINT64 / nl;
    MulMonotone(nl, TWO32, nl - 1);
    assert nl * (nl - 1) <= TWO32 * (nl - 1) <= MAX_UINT64;
    assert (nl - 1) * nl == nl * (nl - 1);
    QuotientAtLeast(MAX_UINT64, nl, nl - 1);
    assert (nl - 1) * (q + 1) == (nl - 1) * q + (nl - 1);
  }

  lemma {:induction false} Pow2Product(a: nat, b: nat)
    ensures Pow2(a) * Pow2(b) == Pow2(a + b)
  {
    if a > 0 {
      Pow2Product(a - 1, b);
      DoubledProduct(Pow2(a - 1), Pow2(b));
    }
  }

  lemma DoubledProduct(x: int, y: int)
    ensures (2 * x) * y == 2 * (x * y)
  {
  }

  lemma FitsDivisor(nl: int, w: int)
    requires nl >= 2 && w >= 1 && nl * w == TWO64
    ensures Width(nl) == w && (nl - 1) * w < TWO64
  {
    assert (w - 1) * nl == nl * w - nl;
    QuotientUnique(MAX_UINT64, nl, w - 1);
    WidthOf(nl);
    assert (nl - 1) * w == nl * w - w;
  }

  lemma Pow64()
    ensures Pow2(64) == TWO64
  {
    Pow63();
    assert Pow2(64) == 2 * Pow2(63);
  }

  /** Nor for any power of two that fits in an int64. */
  lemma FitsPowerOfTwo(k: nat)
    requires 1 <= k <= 62
    ensures Pow2(k) >= 2 && Width(Pow2(k)) == Pow2(64 - k)
    ensures (Pow2(k) - 1) * Width(Pow2(k)) < TWO64
  {
    Pow64();
    Pow2Product(k, 64 - k);
    Pow2Monotone(1, k);
    FitsDivisor(Pow2(k), Pow2(64 - k));
  }

  /** `n + 1` and `n - 1` on an int64. */
  function Up(n: Int64): Int64 {
    if n == MAX_INT64 then MIN_INT64 else n + 1
  }

  function Down(n: Int64): Int64 {
    if n == MIN_INT64 then MAX_INT64 else n - 1
  }

  /** `LeafBounds` for arguments the tree itself never uses: converted to uint64, and wrapping. */
  function AnyBounds(nl: Int64, i: Int64): (Uint64, Uint64)
    requires nl != 0
  {
    var step := (MAX_UINT64 / ToUint64(nl) + 1) % TWO64;
    var start := (ToUint64(i) * step) % TWO64;
    var end := (ToUint64(Up(i)) * step) % TWO64;
    (start, if i == Down(nl) then MAX_UINT64 else end)
  }

  /** For the index of a leaf they are that leaf's bounds. */
  lemma AnyBoundsOfLeaf(nl: Int64, i: Int64)
    requires 0 <= i < nl
    ensures AnyBounds(nl, i) == LeafBounds(nl, i)
  {
    assert Up(i) == i + 1 && Down(nl) == nl - 1;
  }

  // ----- writing out a leaf -----

  datatype KV = KV(key: Str, value: Str, ver: Int64)

  /** The lowest `width` bytes of `n`, most significant first. */
  function BigEndian(n: nat, width: nat): (r: Str)
    ensures |r| == width
  {
    if width == 0 then [] else BigEndian(n / 256, width - 1) + [(n % 256) as Byte]
  }

  function FromBigEndian(s: Str): nat {
    if s == [] then 0 else FromBigEndian(s[..|s| - 1]) * 256 + s[|s| - 1] as nat
  }

  function Pow256(k: nat): nat {
    if k == 0 then 1 else 256 * Pow256(k - 1)
  }

  lemma {:induction false} BigEndianRoundTrip(n: nat, width: nat)
    requires n < Pow256(width)
    ensures FromBigEndian(BigEndian(n, width)) == n
  {
    if width > 0 {
      BigEndianRoundTrip(n / 256, width - 1);
      var init := BigEndian(n / 256, width - 1);
      assert (init + [(n % 256) as Byte])[..width - 1] == init;
    }
  }

  /** An int64 as its two's complement bit pattern. */
  function ToUint64(v: Int64): Uint64 {
    if v < 0 then v + TWO64 else v
  }

  /** A string behind its length. */
  function Field(s: Str): Str {
    BigEndian(|s| % TWO32, 4) + s
  }

  function EncodeEntry(e: KV): Str {
    Field(e.key) + Field(e.value) + BigEndian(ToUint64(e.ver), 8)
  }

  function EncodeLeaf(es: seq<KV>): Str {
    if es == [] then [] else EncodeEntry(es[0]) + EncodeLeaf(es[1..])
  }

  predicate Sized(e: KV) {
    |e.key| < TWO32 && |e.value| < TWO32
  }

  lemma SplitSame(a: Str, b: Str, c: Str, d: Str)
    requires a + b == c + d && |a| == |c|
    ensures a == c && b == d
  {
    assert a == (a + b)[..|a|] && c == (c + d)[..|c|];
    assert b == (a + b)[|a|..] && d == (c + d)[|c|..];
  }

  lemma Pow256Values()
    ensures Pow256(4) == TWO32 && Pow256(8) == TWO64
  {
    assert Pow256(2) == 65536;
    assert Pow256(4) == TWO32;
    assert Pow256(6) == 0x1_0000_0000_0000;
  }

  lemma SameNumber(a: nat, b: nat, width: nat)
    requires a < Pow256(width) && b < Pow256(width) && BigEndian(a, width) == BigEndian(b, width)
    ensures a == b
  {
    BigEndianRoundTrip(a, width);
    BigEndianRoundTrip(b, width);
  }

  lemma SameLength(m: nat, n: nat, width: nat)
    requires Pow256(width) == TWO32 && m < TWO32 && n < TWO32
    requires BigEndian(m % TWO32, width) == BigEndian(n % TWO32, width)
    ensures m == n
  {
    assert m % TWO32 == m && n % TWO32 == n;
    SameNumber(m, n, width);
  }

  lemma SameVersion(v: Int64, w: Int64)
    requires BigEndian(ToUint64(v), 8) == BigEndian(ToUint64(w), 8)
    ensures v == w
  {
    Pow256Values();
    SameNumber(ToUint64(v), ToUint64(w), 8);
  }

  /** A length-prefixed string and what follows it can be told apart. */
  lemma SameField(s: Str, rest: Str, s': Str, rest': Str)
    requires |s| < TWO32 && |s'| < TWO32
    requires Field(s) + rest == Field(s') + rest'
    ensures s == s' && rest == rest'
  {
    var a, a' := BigEndian(|s| % TWO32, 4), BigEndian(|s'| % TWO32, 4);
    Associative(a, s, rest);
    Associative(a', s', rest');
    SplitSame(a, s + rest, a', s' + rest');
    Pow256Values();
    SameLength(|s|, |s'|, 4);
    SplitSame(s, rest, s', rest');
  }

  lemma SameEntry(e: KV, tail: Str, f: KV, tail': Str)
    requires Sized(e) && Sized(f) && EncodeEntry(e) + tail == EncodeEntry(f) + tail'
    ensures e == f && tail == tail'
  {
    var eVer, fVer := BigEndian(ToUint64(e.ver), 8), BigEndian(ToUint64(f.ver), 8);
    Associative(Field(e.key) + Field(e.value), eVer, tail);
    Associative(Field(e.key), Field(e.value), eVer + tail);
    Associative(Field(f.key) + Field(f.value), fVer, tail');
    Associative(Field(f.key), Field(f.value), fVer + tail');
    SameField(e.key, Field(e.value) + (eVer + tail), f.key, Field(f.value) + (fVer + tail'));
    SameField(e.value, eVer + tail, f.value, fVer + tail');
    SplitSame(eVer, tail, fVer, tail');
    SameVersion(e.ver, f.ver);
  }

  /** The leaf encoding is uniquely decodable for strings shorter than 2^32 bytes. */
  lemma {:induction false} EncodeLeafInjective(xs: seq<KV>, ys: seq<KV>)
    requires forall e :: e in xs ==> Sized(e)
    requires forall e :: e in ys ==> Sized(e)
    requires EncodeLeaf(xs) == EncodeLeaf(ys)
    ensures xs == ys
  {
    if xs == [] || ys == [] {
      assert xs == [] <==> |EncodeLeaf(xs)| == 0;
      assert ys == [] <==> |EncodeLeaf(ys)| == 0;
    } else {
      SameEntry(xs[0], EncodeLeaf(xs[1..]), ys[0], EncodeLeaf(ys[1..]));
      EncodeLeafInjective(xs[1..], ys[1..]);
      assert xs == [xs[0]] + xs[1..] && ys == [ys[0]] + ys[1..];
    }
  }
}
