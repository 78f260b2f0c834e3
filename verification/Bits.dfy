/** Shifts and masks of C on unsigned values, as functions on naturals that work bit by bit, and
    the laws that turn them into arithmetic. Where a type of the original drops high bits, the
    truncation is written out at that place. */
module Bits {

  function Pow2(n: nat): (r: nat)
    ensures r > 0
  {
    if n == 0 then 1 else 2 * Pow2(n - 1)
  }

  // x << k, with no bit lost
  function Shl(x: int, k: nat): int {
    if k == 0 then x else 2 * Shl(x, k - 1)
  }

  // x >> k
  function Shr(x: nat, k: nat): nat {
    if k == 0 then x else Shr(x / 2, k - 1)
  }

  // the k lowest bits of x
  function Low(x: nat, k: nat): nat {
    if k == 0 then 0 else 2 * Low(x / 2, k - 1) + x % 2
  }

  // x | y
  function BitOr(x: nat, y: nat): nat
    decreases x + y
  {
    if x == 0 && y == 0 then 0
    else 2 * BitOr(x / 2, y / 2) + (if x % 2 == 1 || y % 2 == 1 then 1 else 0)
  }

  // x & y
  function BitAnd(x: nat, y: nat): nat
    decreases x + y
  {
    if x == 0 && y == 0 then 0
    else 2 * BitAnd(x / 2, y / 2) + (if x % 2 == 1 && y % 2 == 1 then 1 else 0)
  }

  // ---------------------------------------------------------------- laws of Shl

  lemma {:induction false} ShlAdd(x: int, y: int, k: nat)
    ensures Shl(x + y, k) == Shl(x, k) + Shl(y, k)
  {
    if k > 0 { ShlAdd(x, y, k - 1); }
  }

  lemma {:induction false} ShlSub(x: int, y: int, k: nat)
    ensures Shl(x - y, k) == Shl(x, k) - Shl(y, k)
  {
    if k > 0 { ShlSub(x, y, k - 1); }
  }

  lemma {:induction false} ShlShl(x: int, j: nat, k: nat)
    ensures Shl(Shl(x, j), k) == Shl(x, j + k)
  {
    if k > 0 { ShlShl(x, j, k - 1); }
  }

  lemma {:induction false} ShlMonotone(x: int, y: int, k: nat)
    requires x <= y
    ensures Shl(x, k) <= Shl(y, k)
  {
    if k > 0 { ShlMonotone(x, y, k - 1); }
  }

  lemma {:induction false} ShlNonNegative(x: nat, k: nat)
    ensures Shl(x, k) >= 0
  {
    if k > 0 { ShlNonNegative(x, k - 1); }
  }

  lemma {:induction false} ShlPow2(j: nat, k: nat)
    ensures Shl(Pow2(j), k) == Pow2(j + k)
  {
    if k > 0 { ShlPow2(j, k - 1); }
  }

  lemma {:induction false} ShlZero(k: nat)
    ensures Shl(0, k) == 0
  {
    if k > 0 { ShlZero(k - 1); }
  }

  lemma ShlRange(x: nat, j: nat, k: nat)
    requires x < Pow2(j)
    ensures 0 <= Shl(x, k) <= Pow2(j + k) - Pow2(k)
  {
    ShlNonNegative(x, k);
    ShlMonotone(x, Pow2(j) - 1, k);
    ShlSub(Pow2(j), 1, k);
    ShlPow2(j, k);
    ShlPow2(0, k);
  }

  lemma {:induction false} ShlIsMul(x: int, k: nat)
    ensures Shl(x, k) == x * Pow2(k)
  {
    if k > 0 {
      ShlIsMul(x, k - 1);
      assert x * (2 * Pow2(k - 1)) == 2 * (x * Pow2(k - 1));
    }
  }

  lemma Shl32(x: int)
    ensures Shl(x, 32) == x * 0x1_0000_0000
  {
    ShlIsMul(x, 32);
    Pow2Facts();
  }

  lemma Pow2Add(m: nat, n: nat)
    ensures Pow2(m + n) == Pow2(m) * Pow2(n)
  {
    ShlPow2(m, n);
    ShlIsMul(Pow2(m), n);
  }

  lemma {:induction false} Pow2Monotone(m: nat, n: nat)
    requires m <= n
    ensures Pow2(m) <= Pow2(n)
  {
    if m < n { Pow2Monotone(m, n - 1); }
  }

  lemma Pow2Facts()
    ensures Pow2(0) == 1 && Pow2(1) == 2 && Pow2(2) == 4 && Pow2(3) == 8 && Pow2(4) == 16 && Pow2(8) == 256
    ensures Pow2(12) == 4096 && Pow2(16) == 0x1_0000 && Pow2(32) == 0x1_0000_0000
  {
    assert Pow2(4) == 16;
    Pow2Add(4, 4);
    Pow2Add(4, 8);
    Pow2Add(8, 8);
    Pow2Add(16, 16);
  }

  // ---------------------------------------------------------------- high and low bits

  lemma {:induction false} HighLow(x: nat, k: nat)
    ensures x == Shl(Shr(x, k), k) + Low(x, k)
    ensures Low(x, k) < Pow2(k)
  {
    if k > 0 { HighLow(x / 2, k - 1); }
  }

  lemma {:induction false} HighLowUnique(x: nat, k: nat, q: nat, r: nat)
    requires x == Shl(q, k) + r && r < Pow2(k)
    ensures q == Shr(x, k) && r == Low(x, k)
  {
    if k > 0 { HighLowUnique(x / 2, k - 1, q, r / 2); }
  }

  lemma ShrIsDiv(x: nat, k: nat)
    ensures Shr(x, k) == x / Pow2(k) && Low(x, k) == x % Pow2(k)
  {
    HighLow(x, k);
    ShlIsMul(Shr(x, k), k);
    DivModUnique(x, Pow2(k), Shr(x, k), Low(x, k));
  }

  lemma {:induction false} ShrShr(x: nat, j: nat, k: nat)
    ensures Shr(Shr(x, j), k) == Shr(x, j + k)
  {
    if j > 0 { ShrShr(x / 2, j - 1, k); }
  }

  lemma {:induction false} ShrShrinks(x: nat, k: nat)
    ensures Shr(x, k) <= x
  {
    if k > 0 { ShrShrinks(x / 2, k - 1); }
  }

  lemma {:induction false} ShrBound(x: nat, j: nat, k: nat)
    requires x < Pow2(j + k)
    ensures Shr(x, k) < Pow2(j)
  {
    if k > 0 { ShrBound(x / 2, j, k - 1); }
  }

  // A low part cut in two.
  lemma {:induction false} LowSplit(x: nat, j: nat, k: nat)
    ensures Low(x, j + k) == Low(x, j) + Shl(Low(Shr(x, j), k), j)
  {
    if j > 0 { LowSplit(x / 2, j - 1, k); }
  }

  lemma LowSmall(x: nat, k: nat)
    requires x < Pow2(k)
    ensures Low(x, k) == x && Shr(x, k) == 0
  {
    ShlZero(k);
    HighLowUnique(x, k, 0, x);
  }

  // The number of bits x needs.
  function BitLen(x: nat): nat {
    if x == 0 then 0 else 1 + BitLen(x / 2)
  }

  lemma {:induction false} BitLenBounds(x: nat)
    ensures x < Pow2(BitLen(x))
    ensures x > 0 ==> BitLen(x) > 0 && Pow2(BitLen(x) - 1) <= x
  {
    if x > 0 { BitLenBounds(x / 2); }
  }

  lemma BitLenUnique(x: nat, k: nat)
    requires x < Pow2(k) && (k > 0 ==> Pow2(k - 1) <= x)
    ensures BitLen(x) == k
  {
    BitLenBounds(x);
    if BitLen(x) < k {
      Pow2Monotone(BitLen(x), k - 1);
    } else if k < BitLen(x) {
      Pow2Monotone(k, BitLen(x) - 1);
    }
  }

  // ---------------------------------------------------------------- or, and

  // Values with no bit in common: one lies below bit k, the other starts there.
  lemma {:induction false} OrDisjoint(x: nat, y: nat, k: nat)
    requires x < Pow2(k)
    ensures Shl(y, k) >= 0 && BitOr(x, Shl(y, k)) == x + Shl(y, k)
    decreases k, y
  {
    if k > 0 {
      OrDisjoint(x / 2, y, k - 1);
    } else if y > 0 {
      OrDisjoint(0, y / 2, 0);
    }
  }

  lemma {:induction false} OrCommutes(x: nat, y: nat)
    ensures BitOr(x, y) == BitOr(y, x)
    decreases x + y
  {
    if x + y > 0 { OrCommutes(x / 2, y / 2); }
  }

  lemma {:induction false} OrZero(x: nat)
    ensures BitOr(x, 0) == x
  {
    if x > 0 { OrZero(x / 2); }
  }

  lemma {:induction false} AndMask(x: nat, k: nat)
    ensures BitAnd(x, Pow2(k) - 1) == Low(x, k)
    decreases k, x
  {
    if k > 0 {
      AndMask(x / 2, k - 1);
    } else if x > 0 {
      AndMask(x / 2, 0);
    }
  }

  lemma AndEven(x: nat, z: nat)
    ensures BitAnd(x, 2 * z) == 2 * BitAnd(x / 2, z)
  {
  }

  // A mask that starts at bit k selects bits of x >> k.
  lemma {:induction false} AndHigh(x: nat, y: nat, k: nat)
    ensures Shl(y, k) >= 0 && BitAnd(x, Shl(y, k)) == Shl(BitAnd(Shr(x, k), y), k)
  {
    if k > 0 {
      hide BitAnd;
      AndHigh(x / 2, y, k - 1);
      AndEven(x, Shl(y, k - 1));
    }
  }

  // ---------------------------------------------------------------- division

  lemma DivModUnique(x: int, d: int, q: int, r: int)
    requires d > 0 && 0 <= r < d && x == q * d + r
    ensures x / d == q && x % d == r
  {
    var q', r' := x / d, x % d;
    assert x == q' * d + r' && 0 <= r' < d;
    if q' > q {
      MulMonotone(q + 1, q', d);
    } else if q' < q {
      MulMonotone(q' + 1, q, d);
    }
  }

  lemma MulMonotone(a: int, b: int, d: nat)
    requires a <= b
    ensures a * d <= b * d
  {
    assert (b - a) * d >= 0;
    assert (b - a) * d == b * d - a * d;
  }

  lemma MulNonNegative(x: nat, y: nat)
    ensures x * y >= 0
  {
  }
}
