/** A word of 32 bits as a set of columns, and the laws of the bitwise operations on it. */
module Columns {

  // BIT_IS_POW2, which also takes 0.
  predicate AtMostOne(v: bv32) {
    v & (v - 1) == 0
  }

  predicate One(c: bv32) {
    c != 0 && AtMostOne(c)
  }

  // The column of key k.
  function Column(k: nat): bv32
    requires k < 32
  {
    if k == 0 then 1 else Column(k - 1) << 1
  }

  // The words with exactly one column are the 32 columns.
  lemma OneIff(c: bv32)
    ensures One(c) <==> exists k: nat :: k < 32 && c == Column(k)
  {
    hide One, Column, AtMost;
    if One(c) {
      LastColumn(c);
      var k := ColumnUpTo(c, 31);
    }
    if k: nat :| k < 32 && c == Column(k) {
      ColumnIsOne(k);
    }
  }

  lemma LastColumn(c: bv32)
    requires One(c)
    ensures AtMost(c, Column(31))
  {
    ColumnTop();
    TopBit(c);
  }

  lemma TopBit(c: bv32)
    requires One(c)
    ensures AtMost(c, 0x8000_0000)
  {
  }

  lemma {:induction false} ColumnUpTo(c: bv32, n: nat) returns (k: nat)
    requires n < 32 && One(c) && AtMost(c, Column(n))
    ensures k <= n && c == Column(k)
    decreases n
  {
    hide One, Column, AtMost;
    if n == 0 {
      FirstColumn();
      OnlyOne(c);
      k := 0;
    } else if c == Column(n) {
      k := n;
    } else {
      ColumnStep(n);
      ColumnIsOne(n - 1);
      ColumnIsOne(n);
      Halved(c, Column(n - 1));
      k := ColumnUpTo(c, n - 1);
    }
  }

  predicate AtMost(x: bv32, y: bv32) {
    x <= y
  }

  lemma OnlyOne(c: bv32)
    requires One(c) && AtMost(c, 1)
    ensures c == 1
  {
  }

  lemma Halved(c: bv32, e: bv32)
    requires One(c) && One(e) && AtMost(c, e << 1) && c != e << 1 && One(e << 1)
    ensures AtMost(c, e)
  {
  }

  lemma FirstColumn()
    ensures Column(0) == 1
  {
  }

  lemma ColumnStep(k: nat)
    requires 0 < k < 32
    ensures Column(k) == Column(k - 1) << 1
  {
  }

  lemma {:induction false} ColumnIsOne(k: nat)
    requires k < 32
    ensures One(Column(k))
    decreases k
  {
    if k == 0 {
      OneIsOne();
    } else {
      hide One, Column;
      ColumnIsOne(k - 1);
      ColumnStep(k);
      ColumnNotEmpty(k);
      Doubled(Column(k - 1));
    }
  }

  lemma {:induction false} ColumnNotEmpty(k: nat)
    requires k < 32
    ensures Column(k) != 0
    decreases 32 - k
  {
    if k < 31 {
      hide Column;
      ColumnNotEmpty(k + 1);
      ColumnStep(k + 1);
    } else {
      ColumnTop();
    }
  }

  lemma ColumnTop()
    ensures Column(31) == 0x8000_0000
  {
    assert Column(8) == 0x100;
    assert Column(16) == 0x1_0000;
    assert Column(24) == 0x100_0000;
  }

  lemma OneIsOne()
    ensures One(1)
  {
  }

  lemma Doubled(c: bv32)
    requires One(c) && c << 1 != 0
    ensures One(c << 1)
  {
  }

  predicate On(row: bv32, c: bv32) {
    row & c != 0
  }

  function Both(x: bv32, y: bv32): bv32 {
    x & y
  }

  function Either(x: bv32, y: bv32): bv32 {
    x | y
  }

  function Without(x: bv32, y: bv32): bv32 {
    x & !y
  }

  predicate Within(x: bv32, y: bv32) {
    x & !y == 0
  }

  // A column is on a row or off it, nothing between.
  lemma OnMeans(x: bv32, c: bv32)
    requires One(c)
    ensures x & c == if On(x, c) then c else 0
  {
  }

  lemma WithinFirst(a: bv32, x: bv32, y: bv32)
    requires Within(a, x)
    ensures Within(a, Either(x, y))
  {
  }

  lemma WithinSecond(x: bv32, y: bv32)
    ensures Within(y, Either(x, y))
  {
  }

  lemma WithinTrans(x: bv32, y: bv32, z: bv32)
    requires Within(x, y) && Within(y, z)
    ensures Within(x, z)
  {
  }

  lemma BothEither(x: bv32, p: bv32, q: bv32, mask: bv32)
    requires Within(Both(x, p), mask) && Within(Both(x, q), mask)
    ensures Within(Both(x, Either(p, q)), mask)
  {
  }

  lemma EitherWithin(x: bv32, y: bv32, mask: bv32)
    requires Within(x, mask) && Within(y, mask)
    ensures Within(Either(x, y), mask)
  {
  }

  lemma WithoutNone(x: bv32)
    ensures Without(x, 0) == x && Both(x, 0) == 0 && Either(0, 0) == 0 && Either(x, 0) == x && Within(0, x)
  {
  }

  // Columns that the mask already covers need not be added to it.
  lemma Unneeded(x: bv32, mask: bv32, all: bv32, more: bv32)
    requires Without(x, mask) == Without(x, all) && Within(Both(x, more), mask)
    ensures Without(x, mask) == Without(x, Either(all, more))
  {
    WithoutEither(x, all, more);
    MaskedAlready(x, mask, more);
    hide Without, Within, Either, Both;
  }

  lemma WithoutEither(x: bv32, p: bv32, q: bv32)
    ensures Without(x, Either(p, q)) == Without(Without(x, p), q)
  {
  }

  lemma MaskedAlready(x: bv32, mask: bv32, more: bv32)
    requires Within(Both(x, more), mask)
    ensures Without(Without(x, mask), more) == Without(x, mask)
  {
  }

  lemma OnWithout(x: bv32, all: bv32, c: bv32)
    requires One(c)
    ensures On(Without(x, all), c) <==> On(x, c) && !On(all, c)
    ensures Within(Without(x, all), x)
  {
    OnMeans(x, c);
    OnMeans(all, c);
    hide One;
    if !On(x, c) {
      assert x & !all & c == 0;
    } else if On(all, c) {
      assert all & c == c;
      assert x & !all & c == 0;
    } else {
      assert x & c == c && all & c == 0;
      assert x & !all & c == c;
    }
  }

  lemma OnEither(x: bv32, y: bv32, c: bv32)
    ensures On(Either(x, y), c) <==> On(x, c) || On(y, c)
  {
    if !On(x, c) && !On(y, c) {
      assert (x | y) & c == 0;
    } else if (x | y) & c == 0 {
      assert false;
    }
  }

  lemma AndXor(x: bv32, y: bv32)
    ensures Both(x, y) == Both(y, x)
    ensures x ^ y == y ^ x
    ensures Both(x, x) == x
  {
  }

  lemma SameIfXorZero(x: bv32, y: bv32)
    requires x ^ y == 0
    ensures x == y
  {
  }

  lemma EmptyWithin(x: bv32)
    ensures Within(0, x) && Within(x, x)
  {
  }

  lemma XorSelf(c: bv32)
    ensures c ^ c == 0
  {
  }

  lemma FirstCovers(x: bv32, y: bv32, q: bv32, p: bv32)
    requires Within(q, y)
    ensures Within(Both(x, q), Either(Both(x, y), p))
  {
  }

  lemma SecondCovers(x: bv32, p: bv32, q: bv32)
    ensures Within(Both(x, q), Either(p, q))
  {
  }

  lemma EitherParts(p: bv32, q: bv32, r: bv32)
    ensures Either(p, Either(q, r)) == Either(Either(p, q), r)
  {
  }

  lemma WithoutWithin(x: bv32, all: bv32)
    ensures Within(Without(x, all), x)
  {
  }

  lemma EitherSwap(x: bv32, y: bv32)
    ensures Either(x, y) == Either(y, x)
  {
  }

  lemma NothingOn(c: bv32)
    ensures !On(0, c)
  {
  }

  lemma SameKey(x: bv32, c: bv32)
    requires One(x) && One(c) && On(x, c)
    ensures x == c
  {
    OnMeans(x, c);
    OnMeans(c, x);
    hide One;
    assert x & c == c & x;
  }

  lemma OnNonzero(x: bv32, c: bv32)
    requires On(x, c)
    ensures x != 0
  {
  }

  lemma OnBoth(x: bv32, y: bv32, c: bv32)
    requires One(c)
    ensures On(Both(x, y), c) <==> On(x, c) && On(y, c)
  {
    OnMeans(x, c);
    OnMeans(y, c);
    hide One;
    if On(x, c) && On(y, c) {
      assert x & c == c && y & c == c;
      assert x & y & c == c;
    } else if !On(x, c) {
      assert x & y & c == 0;
    } else {
      assert x & y & c == 0;
    }
  }

  lemma OnWithin(x: bv32, y: bv32, c: bv32)
    requires Within(x, y) && On(x, c)
    ensures On(y, c)
  {
  }

  lemma PartOfKey(x: bv32, y: bv32, c: bv32)
    requires One(c) && On(y, c) && Either(x, y) == c
    ensures y == c
  {
    OnMeans(y, c);
    hide One;
  }

  lemma SingleWithout(x: bv32, all: bv32)
    requires AtMostOne(x)
    ensures Without(x, all) == x || Without(x, all) == 0
    ensures Both(x, x) == x && Both(0, 0) == 0
  {
  }
}
