/** npr/bits.h: rounding up to a power of two by smearing the highest bit downwards. */
module Bits {
  import opened Words

  /** `a | b`. */
  function Or(a: nat, b: nat): nat
    decreases a + b
  {
    if a == 0 && b == 0 then 0
    else (if a % 2 == 1 || b % 2 == 1 then 1 else 0) + 2 * Or(a / 2, b / 2)
  }

  /** `x >> k`. */
  function ShiftRight(x: nat, k: nat): nat {
    if k == 0 then x else ShiftRight(x / 2, k - 1)
  }

  /** `x | (x >> k)`. */
  function Smear(x: nat, k: nat): nat {
    Or(x, ShiftRight(x, k))
  }

  /** `roundup2`, in 32 bits. */
  function RoundUp2(x: Word32): Word32 {
    var x0 := ToWord32(x - 1);
    var x1 := Smear(x0, 1);
    var x2 := Smear(x1, 2);
    var x3 := Smear(x2, 4);
    var x4 := Smear(x3, 8);
    var x5 := Smear(x4, 16);
    ToWord32(x5 + 1)
  }

  /** Of the n bits of x the upper m are ones. */
  predicate TopOnes(x: nat, n: nat, m: nat) {
    1 <= m <= n && Pow2(n) - Pow2(n - m) <= x < Pow2(n)
  }

  lemma {:induction false} OrZero(a: nat)
    ensures Or(a, 0) == a
  {
    if a > 0 {
      OrZero(a / 2);
    }
  }

  lemma {:induction false} ShiftHalf(x: nat, k: nat)
    ensures ShiftRight(x, k) / 2 == ShiftRight(x / 2, k)
  {
    if k > 0 {
      ShiftHalf(x / 2, k - 1);
    }
  }

  /** Shifted so far that only ones are left. */
  lemma {:induction false} ShiftedTop(x: nat, n: nat, m: nat, k: nat)
    requires TopOnes(x, n, m) && n - m <= k <= n
    ensures ShiftRight(x, k) == Pow2(n - k) - 1
    decreases k
  {
    if k > 0 {
      if n == 1 {
        assert ShiftRight(x / 2, 0) == x / 2;
      } else {
        HalfTop(x, n, m);
        ShiftedTop(x / 2, n - 1, if m < n then m else m - 1, k - 1);
      }
    }
  }

  lemma HalfTop(x: nat, n: nat, m: nat)
    requires TopOnes(x, n, m) && n > 1
    ensures TopOnes(x / 2, n - 1, if m < n then m else m - 1)
  {
    assert Pow2(n) == 2 * Pow2(n - 1);
    if m < n {
      assert Pow2(n - m) == 2 * Pow2(n - m - 1);
    }
  }

  /** Smearing by as many places as there are ones doubles the ones. */
  lemma {:induction false} SmearDoubles(x: nat, n: nat, m: nat)
    requires TopOnes(x, n, m)
    ensures TopOnes(Smear(x, m), n, if 2 * m < n then 2 * m else n)
    decreases n
  {
    if m == n {
      ShiftedTop(x, n, m, n);
      OrZero(x);
    } else {
      HalfTop(x, n, m);
      SmearDoubles(x / 2, n - 1, m);
      ShiftHalf(x, m);
      OrHalves(x, ShiftRight(x, m));
      if 2 * m < n {
        assert Pow2(n - 2 * m) == 2 * Pow2(n - 1 - 2 * m);
      } else {
        ShiftedTop(x, n, m, m);
        OddPower(n - m);
      }
      assert Pow2(n) == 2 * Pow2(n - 1);
    }
  }

  lemma OrHalves(a: nat, b: nat)
    ensures Or(a, b) == (if a % 2 == 1 || b % 2 == 1 then 1 else 0) + 2 * Or(a / 2, b / 2)
  {
  }

  lemma OddPower(k: nat)
    requires k > 0
    ensures (Pow2(k) - 1) % 2 == 1
  {
    var p := Pow2(k - 1);
    assert Pow2(k) == 2 * p;
    hide *;
    OddNumber(p - 1);
  }

  lemma OddNumber(q: int)
    ensures (2 * q + 1) % 2 == 1
  {
  }

  /** Any number of n bits, at most 32, is smeared into all ones. */
  lemma SmearedAll(x: nat, n: nat)
    requires 1 <= n <= 32 && Pow2(n - 1) <= x < Pow2(n)
    ensures Smear(Smear(Smear(Smear(Smear(x, 1), 2), 4), 8), 16) == Pow2(n) - 1
  {
    hide Smear;
    SmearCapped(x, n, 1);
    SmearCapped(Smear(x, 1), n, 2);
    SmearCapped(Smear(Smear(x, 1), 2), n, 4);
    SmearCapped(Smear(Smear(Smear(x, 1), 2), 4), n, 8);
    SmearCapped(Smear(Smear(Smear(Smear(x, 1), 2), 4), 8), n, 16);
  }

  function Capped(m: nat, n: nat): nat {
    if m < n then m else n
  }

  lemma SmearCapped(x: nat, n: nat, m: nat)
    requires n >= 1 && m >= 1 && TopOnes(x, n, Capped(m, n))
    ensures TopOnes(Smear(x, m), n, Capped(2 * m, n))
  {
    if m <= n {
      SmearDoubles(x, n, m);
    } else {
      SmearOfOnes(n, m);
    }
  }

  /** All ones stay all ones. */
  lemma SmearOfOnes(n: nat, m: nat)
    requires 1 <= n < m
    ensures Smear(Pow2(n) - 1, m) == Pow2(n) - 1
  {
    ShiftedOut(Pow2(n) - 1, n, m);
    OrZero(Pow2(n) - 1);
  }

  lemma {:induction false} ShiftedOut(x: nat, n: nat, k: nat)
    requires x < Pow2(n) && n <= k
    ensures ShiftRight(x, k) == 0
    decreases k
  {
    if k > 0 {
      ShiftedOut(x / 2, if n > 0 then n - 1 else 0, k - 1);
    }
  }

  /** The number of bits of x. */
  lemma {:induction false} BitsOf(x: nat, n: nat) returns (j: nat)
    requires 0 < x < Pow2(n)
    ensures 1 <= j <= n && Pow2(j - 1) <= x < Pow2(j)
  {
    if x < Pow2(n - 1) {
      j := BitsOf(x, n - 1);
    } else {
      j := n;
    }
  }

  /** What `roundup2` promises, up to 2^31: the least power of two that is not below x. */
  lemma RoundUp2IsLeast(x: Word32, n: nat)
    requires 0 < x <= TWO31 && x <= Pow2(n)
    ensures x <= RoundUp2(x) <= Pow2(n) && exists j: nat :: RoundUp2(x) == Pow2(j)
  {
    hide *;
    var j := RoundUp2Is(x);
    if n < j {
      Pow2Monotone(n, j - 1);
    } else {
      Pow2Monotone(j, n);
    }
  }

  lemma RoundUp2Is(x: Word32) returns (j: nat)
    requires 0 < x <= TWO31
    ensures RoundUp2(x) == Pow2(j) >= x && (j > 0 ==> Pow2(j - 1) < x)
  {
    hide Smear;
    Pow2Of31();
    if x == 1 {
      j := 0;
      SmearedZero();
    } else {
      j := BitsOf(x - 1, 31);
      SmearedAll(x - 1, j);
      Pow2Monotone(j, 31);
    }
  }

  lemma SmearedZero()
    ensures forall k :: Smear(0, k) == 0
  {
    forall k: nat ensures Smear(0, k) == 0 {
      ShiftedOut(0, 0, k);
    }
  }

  lemma Pow2Of31()
    ensures Pow2(31) == TWO31 && Pow2(32) == TWO32
  {
    assert Pow2(8) == 0x100 && Pow2(16) == 0x1_0000 && Pow2(24) == 0x100_0000;
  }

  /** Beyond 2^31, and for 0, the result wraps to 0. */
  lemma RoundUp2Wraps(x: Word32)
    requires x == 0 || x > TWO31
    ensures RoundUp2(x) == 0
  {
    hide Smear;
    Pow2Of31();
    SmearedAll(ToWord32(x - 1), 32);
  }
}
