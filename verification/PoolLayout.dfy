/** Where the pools of common/buf_pool0/myBuf.c lie: a table of three words a pool at the heap
    start, then the blocks of every pool in turn. Addresses are word indices; a pool structure is
    12 bytes, a block header (next pointer and free mark) 8. */
module PoolLayout {
  import opened Machine
  import Bits
  import opened FreeList

  datatype PoolDesc = PoolDesc(len: U16, num: Byte)

  const POOL_WORDS := 3
  const HEADER_BYTES := 8

  // A block length, raised to a whole number of headers.
  function RoundUp(len: nat): (r: nat)
    ensures r % HEADER_BYTES == 0 && r >= HEADER_BYTES && r >= len
    ensures r < len + HEADER_BYTES || r == HEADER_BYTES
  {
    if len < HEADER_BYTES then HEADER_BYTES
    else if len % HEADER_BYTES != 0 then len + HEADER_BYTES - len % HEADER_BYTES
    else len
  }

  // The length field of the pool structure has 16 bits.
  function BlockBytes(d: PoolDesc): (r: U16)
    ensures if d.len <= 65528 then r as int == RoundUp(d.len) else r == 0
  {
    RoundUp(d.len) % 0x1_0000
  }

  // Words from one block of a pool to the next.
  function Stride(d: PoolDesc): nat {
    BlockBytes(d) / HEADER_BYTES * 2
  }

  // A pool always gets its last block, also when its descriptor asks for none.
  function Blocks(d: PoolDesc): (r: nat)
    ensures r >= 1
  {
    if d.num >= 1 then d.num else 1
  }

  // The rounded length fits the 16-bit field.
  ghost predicate Usable(d: PoolDesc) {
    RoundUp(d.len) < 0x1_0000
  }

  ghost predicate AllUsable(ds: seq<PoolDesc>) {
    forall i :: 0 <= i < |ds| ==> Usable(ds[i])
  }

  lemma UsableStride(d: PoolDesc)
    requires Usable(d)
    ensures BlockBytes(d) == RoundUp(d.len) >= d.len && BlockBytes(d) == 4 * Stride(d) && Stride(d) >= 2
  {
  }

  function PoolSize(d: PoolDesc): nat {
    Bits.MulNonNegative(Stride(d), Blocks(d));
    Stride(d) * Blocks(d)
  }

  function TotalSize(ds: seq<PoolDesc>): nat {
    if ds == [] then 0 else TotalSize(ds[..|ds| - 1]) + PoolSize(ds[|ds| - 1])
  }

  // Where the blocks of pool i start; for i = |ds|, where the last pool ends.
  function Start(base: nat, ds: seq<PoolDesc>, i: nat): nat
    requires i <= |ds|
  {
    base + POOL_WORDS * |ds| + TotalSize(ds[..i])
  }

  lemma StartNext(base: nat, ds: seq<PoolDesc>, i: nat)
    requires i < |ds|
    ensures Start(base, ds, i + 1) == Start(base, ds, i) + PoolSize(ds[i])
  {
    assert ds[..i + 1][..i] == ds[..i];
  }

  lemma {:induction false} StartMonotone(base: nat, ds: seq<PoolDesc>, i: nat, j: nat)
    requires i <= j <= |ds|
    ensures Start(base, ds, i) <= Start(base, ds, j)
    decreases j - i
  {
    if i < j {
      StartNext(base, ds, i);
      StartMonotone(base, ds, i + 1, j);
    }
  }

  // The blocks of pool i, in address order.
  function BlocksOf(base: nat, ds: seq<PoolDesc>, i: nat): seq<int>
    requires i < |ds|
  {
    Strided(Start(base, ds, i), Stride(ds[i]), Blocks(ds[i]))
  }

  lemma BlocksInside(base: nat, ds: seq<PoolDesc>, i: nat)
    requires i < |ds|
    ensures Spaced(BlocksOf(base, ds, i), Start(base, ds, i), Stride(ds[i]), Start(base, ds, i + 1))
  {
    StridedSpacing(Start(base, ds, i), Stride(ds[i]), Blocks(ds[i]));
    StartNext(base, ds, i);
  }

  // A block lies in its pool, above the table.
  lemma BlockPlace(base: nat, ds: seq<PoolDesc>, i: nat, a: int)
    requires i < |ds| && a in BlocksOf(base, ds, i)
    ensures base + POOL_WORDS * |ds| <= Start(base, ds, i) <= a
    ensures a + Stride(ds[i]) <= Start(base, ds, i + 1) <= Start(base, ds, |ds|)
  {
    BlocksInside(base, ds, i);
    StartMonotone(base, ds, i + 1, |ds|);
  }

  // Two different blocks, of the same pool or of two, have no word in common.
  lemma BlocksApart(base: nat, ds: seq<PoolDesc>, i: nat, a: int, j: nat, p: int)
    requires i < |ds| && j < |ds| && a in BlocksOf(base, ds, i) && p in BlocksOf(base, ds, j)
    requires a != p || i != j
    ensures a + Stride(ds[i]) <= p || p + Stride(ds[j]) <= a
  {
    BlocksInside(base, ds, i);
    BlocksInside(base, ds, j);
    if i < j {
      StartMonotone(base, ds, i + 1, j);
    } else if j < i {
      StartMonotone(base, ds, j + 1, i);
    } else {
      var bs := BlocksOf(base, ds, i);
      var x, y :| 0 <= x < |bs| && 0 <= y < |bs| && bs[x] == a && bs[y] == p;
      assert x < y || y < x;
    }
  }

  // No block belongs to two pools.
  lemma OwnerUnique(base: nat, ds: seq<PoolDesc>, i: nat, j: nat, a: int)
    requires AllUsable(ds) && i < |ds| && j < |ds|
    requires a in BlocksOf(base, ds, i) && a in BlocksOf(base, ds, j)
    ensures i == j
  {
    UsableStride(ds[i]);
    UsableStride(ds[j]);
    if i != j { BlocksApart(base, ds, i, a, j, a); }
  }

  // The scan from the last pool downward, for the first pool that starts at or below a.
  function ScanDown(base: nat, ds: seq<PoolDesc>, a: int, n: nat): int
    requires n <= |ds|
  {
    if n == 0 then -1
    else if a >= Start(base, ds, n - 1) then n - 1
    else ScanDown(base, ds, a, n - 1)
  }

  // It finds the owner of every block, by its address alone.
  lemma {:induction false} ScanFindsOwner(base: nat, ds: seq<PoolDesc>, i: nat, a: int, n: nat)
    requires i < n <= |ds| && a in BlocksOf(base, ds, i) && Usable(ds[i])
    ensures ScanDown(base, ds, a, n) == i
  {
    BlockPlace(base, ds, i, a);
    if n - 1 > i {
      UsableStride(ds[i]);
      StartMonotone(base, ds, i + 1, n - 1);
      ScanFindsOwner(base, ds, i, a, n - 1);
    }
  }

  // Every block has its two header words before the blocks of the next pool exactly when no length
  // was cut. A cut length is 0, and then all blocks of the pool start where the next pool does.
  lemma LaidOutIff(base: nat, ds: seq<PoolDesc>)
    ensures (forall i, a :: 0 <= i < |ds| && a in BlocksOf(base, ds, i) ==> a + 2 <= Start(base, ds, i + 1))
       <==> AllUsable(ds)
  {
    forall i, a | 0 <= i < |ds| && a in BlocksOf(base, ds, i)
      ensures Usable(ds[i]) ==> a + 2 <= Start(base, ds, i + 1)
    {
      BlockPlace(base, ds, i, a);
      if Usable(ds[i]) { UsableStride(ds[i]); }
    }
    forall i | 0 <= i < |ds| && !Usable(ds[i])
      ensures exists a :: a in BlocksOf(base, ds, i) && a + 2 > Start(base, ds, i + 1)
    {
      CutPool(base, ds, i);
    }
  }

  lemma CutPool(base: nat, ds: seq<PoolDesc>, i: nat)
    requires i < |ds| && !Usable(ds[i])
    ensures Start(base, ds, i) in BlocksOf(base, ds, i) && Start(base, ds, i + 1) == Start(base, ds, i)
  {
    StridedAt(Start(base, ds, i), Stride(ds[i]), Blocks(ds[i]), 0);
    assert Start(base, ds, i) == BlocksOf(base, ds, i)[0];
    StartNext(base, ds, i);
    assert Stride(ds[i]) == 0;
    assert 0 * Blocks(ds[i]) == 0;
  }

  // A block of one of the first k pools starts at a.
  ghost predicate StartsAt(base: nat, ds: seq<PoolDesc>, k: nat, a: int)
    requires k <= |ds|
  {
    exists j :: 0 <= j < k && a in BlocksOf(base, ds, j)
  }

  lemma StartsAtStep(base: nat, ds: seq<PoolDesc>, k: nat, a: int)
    requires k < |ds|
    ensures StartsAt(base, ds, k + 1, a) <==> StartsAt(base, ds, k, a) || a in BlocksOf(base, ds, k)
  {
    hide BlocksOf;
    if a in BlocksOf(base, ds, k) {
      assert StartsAt(base, ds, k + 1, a);
    } else if StartsAt(base, ds, k + 1, a) {
      var j :| 0 <= j < k + 1 && a in BlocksOf(base, ds, j);
      assert j < k;
    }
  }

  // Pools that start above a have no block there.
  lemma NoLaterStart(base: nat, ds: seq<PoolDesc>, k: nat, a: int)
    requires k <= |ds| && Start(base, ds, k) > a
    ensures StartsAt(base, ds, |ds|, a) <==> StartsAt(base, ds, k, a)
  {
    hide BlocksOf, Start;
    if StartsAt(base, ds, |ds|, a) {
      var j :| 0 <= j < |ds| && a in BlocksOf(base, ds, j);
      BlockPlace(base, ds, j, a);
      if j >= k { StartMonotone(base, ds, k, j); }
    }
  }

  // ---------------------------------------------------------------- sizes

  // Bytes up to the end of the last pool: what a successful set-up returns.
  function UsedBytes(ds: seq<PoolDesc>): nat {
    4 * (POOL_WORDS * |ds| + TotalSize(ds))
  }

  // What myBufCalcSize adds up: lengths are not cut to 16 bits, and no block is counted for a
  // pool that asks for none.
  function CalcBytes(ds: seq<PoolDesc>): nat {
    if ds == [] then 0 else
      var d := ds[|ds| - 1];
      Bits.MulNonNegative(RoundUp(d.len), d.num);
      CalcBytes(ds[..|ds| - 1]) + 12 + RoundUp(d.len) * d.num
  }

  // A pool whose length was cut to 16 bits; a pool with a block nobody asked for.
  ghost predicate Cut(d: PoolDesc) {
    !Usable(d) && d.num >= 1
  }

  ghost predicate Padded(d: PoolDesc) {
    Usable(d) && d.num == 0
  }

  ghost predicate SomeCut(ds: seq<PoolDesc>) {
    exists i :: 0 <= i < |ds| && Cut(ds[i])
  }

  ghost predicate SomePadded(ds: seq<PoolDesc>) {
    exists i :: 0 <= i < |ds| && Padded(ds[i])
  }

  lemma PoolSizes(d: PoolDesc)
    ensures !Cut(d) && !Padded(d) ==> 4 * PoolSize(d) == RoundUp(d.len) * d.num
    ensures Padded(d) ==> RoundUp(d.len) * d.num == 0 < 4 * PoolSize(d)
    ensures Cut(d) ==> RoundUp(d.len) * d.num >= 0x1_0000 && PoolSize(d) == 0
  {
    if Usable(d) {
      UsableStride(d);
      assert 4 * (Stride(d) * Blocks(d)) == RoundUp(d.len) * Blocks(d);
      MulPositive(Stride(d), Blocks(d));
    } else {
      assert RoundUp(d.len) == 0x1_0000 && Stride(d) == 0;
      assert 0 * Blocks(d) == 0;
      if d.num >= 1 { MulAtLeast(RoundUp(d.len), d.num); }
    }
  }

  lemma MulPositive(x: nat, y: nat)
    requires x > 0 && y > 0
    ensures x * y > 0
  {
  }

  lemma MulAtLeast(x: nat, y: nat)
    requires y >= 1
    ensures x * y >= x
  {
    assert x * y == x + x * (y - 1);
    assert x * (y - 1) >= 0;
  }

  lemma UsedIsStart(base: nat, ds: seq<PoolDesc>)
    ensures Start(base, ds, |ds|) == base + UsedBytes(ds) / 4 && UsedBytes(ds) % 4 == 0
    ensures Start(base, ds, 0) == base + POOL_WORDS * |ds|
  {
    assert ds[..|ds|] == ds && ds[..0] == [];
  }

  // How far the two sums are apart: below by what the blocks nobody asked for take, above by at
  // least 2^16 for each length that was cut.
  lemma {:induction false} SizeGap(ds: seq<PoolDesc>)
    ensures SomeCut(ds) ==> CalcBytes(ds) >= 0x1_0000
    ensures !SomeCut(ds) ==> CalcBytes(ds) <= UsedBytes(ds)
    ensures !SomeCut(ds) && SomePadded(ds) ==> CalcBytes(ds) < UsedBytes(ds)
    ensures !SomeCut(ds) && !SomePadded(ds) ==> CalcBytes(ds) == UsedBytes(ds)
  {
    if ds != [] {
      var n := |ds| - 1;
      SizeGap(ds[..n]);
      PoolSizes(ds[n]);
      assert forall i :: 0 <= i < n ==> ds[..n][i] == ds[i];
    }
  }

  // Where the pools fit a heap below 64 KB, set-up and calculation give the same size exactly when
  // every pool asks for a block and no length is beyond 65528. A pool with both faults has no size
  // in either.
  lemma SizesAgreeIff(ds: seq<PoolDesc>)
    requires UsedBytes(ds) < 0x1_0000
    ensures CalcBytes(ds) == UsedBytes(ds) <==> forall i :: 0 <= i < |ds| ==> (ds[i].num >= 1 <==> Usable(ds[i]))
  {
    SizeGap(ds);
    if SomeCut(ds) {
      var i :| 0 <= i < |ds| && Cut(ds[i]);
    } else if SomePadded(ds) {
      var i :| 0 <= i < |ds| && Padded(ds[i]);
    }
  }
}
