/** Rounding a leaf count up to a power of two by smearing bits, and exactly when it works. */
module PowerOfTwo {
  import opened Strings

  function Pow2(k: nat): (p: nat)
    ensures p >= 1
  {
    if k == 0 then 1 else 2 * Pow2(k - 1)
  }

  /** `x >> k` for a non-negative x. */
  function Shift(x: nat, k: nat): nat {
    if k == 0 then x else Shift(x / 2, k - 1)
  }

  /** `a | b` for non-negative a and b. */
  function Or(a: nat, b: nat): nat {
    if a == 0 && b == 0 then 0
    else 2 * Or(a / 2, b / 2) + (if a % 2 == 1 || b % 2 == 1 then 1 else 0)
  }

  predicate Bit(x: nat, i: nat) {
    if i == 0 then x % 2 == 1 else Bit(x / 2, i - 1)
  }

  function BitLength(x: nat): nat {
    if x == 0 then 0 else 1 + BitLength(x / 2)
  }

  function Smear(x: nat): nat {
    var x1 := Or(x, Shift(x, 1));
    var x2 := Or(x1, Shift(x1, 2));
    var x4 := Or(x2, Shift(x2, 4));
    var x8 := Or(x4, Shift(x4, 8));
    Or(x8, Shift(x8, 16))
  }

  /** `n + 1` on an int64. */
  function Increment(x: nat): Int64
    requires x <= MAX_INT64
  {
    if x == MAX_INT64 then MIN_INT64 else x + 1
  }

  function RoundUpPowerOfTwo(n: Int64): Int64 {
    if n <= 0 then 0
    else
      SmearFits(n - 1);
      Increment(Smear(n - 1))
  }

  ghost predicate IsLeastPowerFrom(n: int, p: int) {
    && (exists k :: p == Pow2(k))
    && n <= p
    && (forall k :: n <= Pow2(k) ==> p <= Pow2(k))
  }

  /** No run of 32 zero bits below the leading bit. */
  ghost predicate Dense(x: nat) {
    forall i :: 0 <= i < BitLength(x) ==> Covered(x, 32, i)
  }

  /** Some bit among the `w` bits from `i` upwards is set. */
  ghost predicate Covered(x: nat, w: nat, i: nat) {
    exists j :: i <= j < i + w && Bit(x, j)
  }

  lemma {:induction false} OrBit(a: nat, b: nat, i: nat)
    ensures Bit(Or(a, b), i) == (Bit(a, i) || Bit(b, i))
    decreases i
  {
    if a == 0 && b == 0 {
    } else if i > 0 {
      OrBit(a / 2, b / 2, i - 1);
    }
  }

  lemma {:induction false} ShiftBit(x: nat, k: nat, i: nat)
    ensures Bit(Shift(x, k), i) == Bit(x, i + k)
    decreases k
  {
    if k > 0 {
      ShiftBit(x / 2, k - 1, i);
    }
  }

  /** Each `n |= n >> w` doubles the window that every bit looks through. */
  lemma SmearStage(x: nat, y: nat, w: nat, i: nat)
    requires forall j: nat :: Bit(y, j) <==> Covered(x, w, j)
    ensures Bit(Or(y, Shift(y, w)), i) <==> Covered(x, 2 * w, i)
  {
    OrBit(y, Shift(y, w), i);
    ShiftBit(y, w, i);
    if Covered(x, 2 * w, i) {
      var j :| i <= j < i + 2 * w && Bit(x, j);
      if j < i + w {
        assert Covered(x, w, i);
      } else {
        assert Covered(x, w, i + w);
      }
    }
  }

  lemma SmearBit(x: nat, i: nat)
    ensures Bit(Smear(x), i) <==> Covered(x, 32, i)
  {
    var x1 := Or(x, Shift(x, 1));
    var x2 := Or(x1, Shift(x1, 2));
    var x4 := Or(x2, Shift(x2, 4));
    var x8 := Or(x4, Shift(x4, 8));
    forall j: nat ensures Bit(x, j) <==> Covered(x, 1, j) {
      assert Bit(x, j) ==> Covered(x, 1, j);
    }
    forall j: nat ensures Bit(x1, j) <==> Covered(x, 2, j) { SmearStage(x, x, 1, j); }
    forall j: nat ensures Bit(x2, j) <==> Covered(x, 4, j) { SmearStage(x, x1, 2, j); }
    forall j: nat ensures Bit(x4, j) <==> Covered(x, 8, j) { SmearStage(x, x2, 4, j); }
    forall j: nat ensures Bit(x8, j) <==> Covered(x, 16, j) { SmearStage(x, x4, 8, j); }
    SmearStage(x, x8, 16, i);
  }

  // ----- bits and sizes -----

  lemma {:induction false} BitsBelowLength(x: nat, i: nat)
    ensures Bit(x, i) ==> i < BitLength(x)
    ensures x > 0 ==> Bit(x, BitLength(x) - 1)
    decreases x, i
  {
    if x > 0 {
      BitsBelowLength(x / 2, if i == 0 then 0 else i - 1);
      if x / 2 == 0 {
        assert x == 1;
      }
    } else if i > 0 {
      BitsBelowLength(0, i - 1);
    }
  }

  lemma {:induction false} LengthBounds(x: nat)
    ensures x < Pow2(BitLength(x))
    ensures x > 0 ==> Pow2(BitLength(x) - 1) <= x
  {
    if x > 0 {
      LengthBounds(x / 2);
      if x / 2 == 0 {
        assert x == 1;
      }
    }
  }

  lemma {:induction false} OnesBit(t: nat, i: nat)
    ensures Bit(Pow2(t) - 1, i) <==> i < t
    decreases t, i
  {
    if t == 0 {
      BitsBelowLength(0, i);
    } else {
      assert (Pow2(t) - 1) / 2 == Pow2(t - 1) - 1;
      if i > 0 {
        OnesBit(t - 1, i - 1);
      }
    }
  }

  lemma {:induction false} SameBits(a: nat, b: nat)
    requires forall i: nat :: Bit(a, i) == Bit(b, i)
    ensures a == b
    decreases a + b
  {
    assert Bit(a, 0) == Bit(b, 0);
    if a > 0 || b > 0 {
      forall i: nat ensures Bit(a / 2, i) == Bit(b / 2, i) {
        assert Bit(a, i + 1) == Bit(b, i + 1);
      }
      SameBits(a / 2, b / 2);
    }
  }

  lemma {:induction false} FewerBits(a: nat, t: nat)
    requires forall i: nat :: Bit(a, i) ==> i < t
    ensures a < Pow2(t)
    decreases t
  {
    if t == 0 {
      forall i: nat ensures Bit(a, i) == Bit(0, i) { BitsBelowLength(0, i); }
      SameBits(a, 0);
    } else {
      forall i: nat ensures Bit(a / 2, i) ==> i < t - 1 {
        assert Bit(a, i + 1) ==> i + 1 < t;
      }
      FewerBits(a / 2, t - 1);
    }
  }

  lemma {:induction false} Pow2Monotone(a: nat, b: nat)
    requires a <= b
    ensures Pow2(a) <= Pow2(b)
    ensures a < b ==> Pow2(a) < Pow2(b)
  {
    if a < b {
      Pow2Monotone(a, b - 1);
    }
  }

  lemma SmearBelow(x: nat)
    ensures Smear(x) < Pow2(BitLength(x))
  {
    forall i: nat ensures Bit(Smear(x), i) ==> i < BitLength(x) {
      SmearBit(x, i);
      if Bit(Smear(x), i) {
        var j :| i <= j < i + 32 && Bit(x, j);
        BitsBelowLength(x, j);
      }
    }
    FewerBits(Smear(x), BitLength(x));
  }

  lemma Pow63()
    ensures Pow2(32) == 0x1_0000_0000 && Pow2(62) == 0x4000_0000_0000_0000 && Pow2(63) == MAX_INT64 + 1
  {
    assert Pow2(8) == 256;
    assert Pow2(16) == 65536;
    assert Pow2(24) == 0x100_0000;
    assert Pow2(32) == 0x1_0000_0000;
    assert Pow2(40) == 0x100_0000_0000;
    assert Pow2(48) == 0x1_0000_0000_0000;
    assert Pow2(56) == 0x100_0000_0000_0000;
  }

  lemma LengthAtMost(x: nat, t: nat)
    ensures x < Pow2(t) <==> BitLength(x) <= t
  {
    LengthBounds(x);
    if BitLength(x) <= t {
      Pow2Monotone(BitLength(x), t);
    } else {
      Pow2Monotone(t, BitLength(x) - 1);
    }
  }

  lemma SmearFits(x: nat)
    requires x < MAX_INT64
    ensures Smear(x) <= MAX_INT64
  {
    Pow63();
    LengthAtMost(x, 63);
    SmearBelow(x);
    Pow2Monotone(BitLength(x), 63);
  }

  lemma SmearFillsIff(x: nat)
    ensures Smear(x) == Pow2(BitLength(x)) - 1 <==> Dense(x)
  {
    var t := BitLength(x);
    if Dense(x) {
      forall i: nat ensures Bit(Smear(x), i) == Bit(Pow2(t) - 1, i) {
        SmearBit(x, i);
        OnesBit(t, i);
        if Bit(Smear(x), i) {
          var j :| i <= j < i + 32 && Bit(x, j);
          BitsBelowLength(x, j);
        }
      }
      SameBits(Smear(x), Pow2(t) - 1);
    } else {
      var i :| 0 <= i < t && !Covered(x, 32, i);
      SmearBit(x, i);
      OnesBit(t, i);
    }
  }

  lemma LeastPower(n: int)
    requires n >= 1
    ensures IsLeastPowerFrom(n, Pow2(BitLength(n - 1)))
    ensures forall p :: IsLeastPowerFrom(n, p) ==> p == Pow2(BitLength(n - 1))
  {
    var t := BitLength(n - 1);
    LengthBounds(n - 1);
    forall k | n <= Pow2(k) ensures Pow2(t) <= Pow2(k) {
      LengthAtMost(n - 1, k);
      Pow2Monotone(t, k);
    }
  }

  /** `roundUpPowerOfTwo` returns the least power of two at or above n exactly when n - 1 has no
      run of 32 zeros below its leading bit and the power fits in an int64. */
  lemma RoundUpIff(n: Int64)
    requires n >= 1
    ensures IsLeastPowerFrom(n, RoundUpPowerOfTwo(n)) <==> Dense(n - 1) && n <= Pow2(62)
  {
    var x, t := n - 1, BitLength(n - 1);
    LeastPower(n);
    SmearFillsIff(x);
    SmearBelow(x);
    Pow63();
    LengthAtMost(x, 62);
    LengthAtMost(x, 63);
    SmearFits(x);
    if t <= 62 {
      Pow2Monotone(t, 62);
      assert RoundUpPowerOfTwo(n) == Smear(x) + 1;
    } else {
      assert t == 63;
      assert RoundUpPowerOfTwo(n) != Pow2(63);
    }
  }

  lemma {:induction false} PowerBit(t: nat, i: nat)
    ensures Bit(Pow2(t), i) <==> i == t
    decreases t, i
  {
    if t == 0 {
      if i > 0 {
        BitsBelowLength(0, i - 1);
      }
    } else if i > 0 {
      PowerBit(t - 1, i - 1);
    }
  }

  /** It fails just above every power from 2^32 on that still has a successor in an int64. */
  lemma RoundUpFails(t: nat)
    requires 32 <= t <= 61
    ensures Pow2(t) < Pow2(62) <= MAX_INT64 && !Dense(Pow2(t))
    ensures !IsLeastPowerFrom(Pow2(t) + 1, RoundUpPowerOfTwo(Pow2(t) + 1))
  {
    Pow63();
    Pow2Monotone(t, 62);
    forall j | 0 <= j < 32 ensures !Bit(Pow2(t), j) { PowerBit(t, j); }
    PowerBit(t, t);
    BitsBelowLength(Pow2(t), t);
    assert !Covered(Pow2(t), 32, 0);
    RoundUpIff(Pow2(t) + 1);
  }

  lemma DoubledBit(y: nat, i: nat)
    ensures Bit(2 * y, i) <==> i > 0 && Bit(y, i - 1)
  {
    assert (2 * y) / 2 == y;
  }

  /** A single bit is smeared over the 32 positions down from its own. */
  lemma SmearedPowerBit(t: nat, i: nat)
    ensures Bit(Smear(Pow2(t)), i) <==> i <= t < i + 32
  {
    SmearBit(Pow2(t), i);
    PowerBit(t, t);
    if Covered(Pow2(t), 32, i) {
      var j :| i <= j < i + 32 && Bit(Pow2(t), j);
      PowerBit(t, j);
    }
  }

  lemma SmearedPower(t: nat)
    requires t == 32
    ensures Smear(Pow2(t)) == 2 * (Pow2(t) - 1)
  {
    var y := Pow2(t) - 1;
    forall i: nat ensures Bit(Smear(Pow2(t)), i) == Bit(2 * y, i) {
      SmearedPowerBit(t, i);
      DoubledBit(y, i);
      if i > 0 {
        OnesBit(t, i - 1);
      }
    }
    SameBits(Smear(Pow2(t)), 2 * y);
  }

  /** The first failure: for 2^32 + 1 leaves the answer is 2^33 - 1. */
  lemma FirstFailure(n: Int64)
    requires n == 0x1_0000_0001
    ensures RoundUpPowerOfTwo(n) == 0x1_FFFF_FFFF
  {
    Pow63();
    SmearedPower(32);
    SmearFits(n - 1);
  }

  /** In particular for every leaf count up to 2^32. */
  lemma RoundUpSmall(n: Int64)
    requires 1 <= n <= 0x1_0000_0000
    ensures IsLeastPowerFrom(n, RoundUpPowerOfTwo(n))
    ensures 1 <= RoundUpPowerOfTwo(n) <= 0x1_0000_0000
  {
    var x, t := n - 1, BitLength(n - 1);
    Pow63();
    LengthAtMost(x, 32);
    BitsBelowLength(x, 0);
    forall i | 0 <= i < t ensures Covered(x, 32, i) {
      assert i <= t - 1 < i + 32 && Bit(x, t - 1);
    }
    RoundUpIff(n);
    LeastPower(n);
    Pow2Monotone(t, 32);
  }

  /** The smearing itself, as the successive in-place updates of `n`. */
  method RoundUp(n: Int64) returns (r: Int64)
    ensures r == RoundUpPowerOfTwo(n)
  {
    if n <= 0 {
      return 0;
    }
    var x: nat := n - 1;
    SmearFits(x);
    x := Or(x, Shift(x, 1));
    x := Or(x, Shift(x, 2));
    x := Or(x, Shift(x, 4));
    x := Or(x, Shift(x, 8));
    x := Or(x, Shift(x, 16));
    return Increment(x);
  }
}
