/** The multi-pool block allocator of common/buf_pool0/myBuf.c on the heap of myHeap.c. Pool table
    and blocks share one memory; a word of it is one cell. */
module BufPool {
  import opened Machine
  import opened FreeList
  import opened PoolLayout

  const HEAP_BYTES := 3072
  const HEAP_WORDS := 768
  // 2^32 bytes are 2^30 words.
  const MAX_MEMORY := 0x4000_0000
  const FREE_MARK: Cell := 0xFAABD00D

  // ---------------------------------------------------------------- memory states

  // Words of the table: length and count in one, then the start and the free-list head.
  function DescWord(d: PoolDesc): Cell {
    BlockBytes(d) as int + 0x1_0000 * d.num as int
  }

  // Memory m holds the pools ds from base on, with free[i] the free list of pool i.
  ghost predicate PoolOk(m: seq<Cell>, base: nat, ds: seq<PoolDesc>, free: seq<int>, i: nat)
    requires i < |ds|
  {
    && base + POOL_WORDS * i + 2 < |m|
    && m[base + POOL_WORDS * i] == DescWord(ds[i])
    && m[base + POOL_WORDS * i + 1] == Start(base, ds, i)
    && Linked(m, m[base + POOL_WORDS * i + 2], free)
    && forall a :: a in free ==> a in BlocksOf(base, ds, i)
  }

  ghost predicate PoolsOk(m: seq<Cell>, base: nat, ds: seq<PoolDesc>, free: seq<seq<int>>) {
    && |free| == |ds| && AllUsable(ds)
    && Start(base, ds, |ds|) <= |m| < 0x1_0000_0000
    && forall i :: 0 <= i < |ds| ==> PoolOk(m, base, ds, free[i], i)
  }

  // The blocks handed out are the blocks of the pools that are in no free list.
  ghost predicate Partition(base: nat, ds: seq<PoolDesc>, free: seq<seq<int>>, out: set<int>) {
    && |free| == |ds|
    && (forall a :: a in out ==> exists i :: 0 <= i < |ds| && a in BlocksOf(base, ds, i))
    && forall i, a :: 0 <= i < |ds| && a in BlocksOf(base, ds, i) ==> (a in out <==> a !in free[i])
  }

  // What the code reads off the table.
  lemma ReadPool(m: seq<Cell>, base: nat, ds: seq<PoolDesc>, free: seq<seq<int>>, i: nat)
    requires PoolsOk(m, base, ds, free) && i < |ds|
    ensures var t := base + POOL_WORDS * i;
      && t + 2 < |m|
      && m[t] % 0x1_0000 == BlockBytes(ds[i]) && m[t + 1] == Start(base, ds, i)
      && (m[t + 2] == NULL <==> free[i] == [])
      && (free[i] != [] ==> m[t + 2] == free[i][0])
  {
    assert PoolOk(m, base, ds, free[i], i);
    DescWordLen(ds[i]);
  }

  lemma DescWordLen(d: PoolDesc)
    ensures DescWord(d) % 0x1_0000 == BlockBytes(d) && DescWord(d) / 0x1_0000 == d.num
  {
  }

  lemma AllUsableAt(m: seq<Cell>, base: nat, ds: seq<PoolDesc>, free: seq<seq<int>>, i: nat)
    requires PoolsOk(m, base, ds, free) && i < |ds|
    ensures Usable(ds[i])
  {
  }

  // A write at w leaves pool i alone when it misses its table words and its free blocks' headers.
  lemma PoolFrame(m: seq<Cell>, m': seq<Cell>, base: nat, ds: seq<PoolDesc>, free: seq<int>, i: nat)
    requires i < |ds| && PoolOk(m, base, ds, free, i) && |m| == |m'|
    requires forall k :: base + POOL_WORDS * i <= k <= base + POOL_WORDS * i + 2 ==> m'[k] == m[k]
    requires forall a :: a in free ==> 0 <= a < |m| ==> m'[a] == m[a]
    ensures PoolOk(m', base, ds, free, i)
  {
    LinkedFrame(m, m', m[base + POOL_WORDS * i + 2], free);
  }

  // Writing inside a block that is not free disturbs no pool.
  lemma BlockWrite(m: seq<Cell>, m': seq<Cell>, base: nat, ds: seq<PoolDesc>, free: seq<seq<int>>, j: nat, p: int)
    requires PoolsOk(m, base, ds, free) && |m| == |m'|
    requires j < |ds| && p in BlocksOf(base, ds, j) && p !in free[j]
    requires forall k :: 0 <= k < |m| && !(p <= k < p + Stride(ds[j])) ==> m'[k] == m[k]
    ensures PoolsOk(m', base, ds, free)
  {
    BlockPlace(base, ds, j, p);
    forall i | 0 <= i < |ds|
      ensures PoolOk(m', base, ds, free[i], i)
    {
      assert PoolOk(m, base, ds, free[i], i);
      forall a | a in free[i]
        ensures 0 <= a < |m| ==> m'[a] == m[a]
      {
        UsableStride(ds[i]);
        BlocksApart(base, ds, i, a, j, p);
      }
      PoolFrame(m, m', base, ds, free[i], i);
    }
  }

  // Taking the first free block of pool i.
  lemma PopKeeps(m: seq<Cell>, base: nat, ds: seq<PoolDesc>, free: seq<seq<int>>, i: nat)
    requires PoolsOk(m, base, ds, free) && i < |ds| && free[i] != []
    ensures PoolOk(m, base, ds, free[i], i)
    ensures var h := base + POOL_WORDS * i + 2;
      && m[h] == free[i][0] && 0 < m[h] < |m|
      && PoolsOk(m[h := m[m[h]]], base, ds, free[i := free[i][1..]])
  {
    assert PoolOk(m, base, ds, free[i], i);
    var h := base + POOL_WORDS * i + 2;
    var m', free' := m[h := m[m[h]]], free[i := free[i][1..]];
    forall k | 0 <= k < |ds|
      ensures PoolOk(m', base, ds, free'[k], k)
    {
      assert PoolOk(m, base, ds, free[k], k);
      TableBelowBlocks(base, ds, k, free[k]);
      if k != i {
        PoolFrame(m, m', base, ds, free[k], k);
      } else {
        assert forall a :: a in free[i][1..] ==> a in free[i];
        LinkedFrame(m, m', m[m[h]], free[i][1..]);
      }
    }
  }

  lemma TableBelowBlocks(base: nat, ds: seq<PoolDesc>, k: nat, list: seq<int>)
    requires k < |ds| && forall a :: a in list ==> a in BlocksOf(base, ds, k)
    ensures forall a :: a in list ==> a >= base + POOL_WORDS * |ds|
  {
    forall a | a in list
      ensures a >= base + POOL_WORDS * |ds|
    {
      BlockPlace(base, ds, k, a);
    }
  }

  // A block has at least two words, all of them inside memory and above the table.
  lemma BlockRoom(m: seq<Cell>, base: nat, ds: seq<PoolDesc>, free: seq<seq<int>>, i: nat, p: int)
    requires PoolsOk(m, base, ds, free) && i < |ds| && p in BlocksOf(base, ds, i)
    ensures AllUsable(ds) && Stride(ds[i]) >= 2
    ensures base + POOL_WORDS * i + 2 < p && p + Stride(ds[i]) <= |m|
  {
    BlockPlace(base, ds, i, p);
    UsableStride(ds[i]);
  }

  // Putting a block of pool i back in front of its list.
  lemma PushKeeps(m: seq<Cell>, m': seq<Cell>, base: nat, ds: seq<PoolDesc>, free: seq<seq<int>>, i: nat, p: int)
    requires PoolsOk(m, base, ds, free) && i < |ds| && p in BlocksOf(base, ds, i) && p !in free[i]
    requires var h := base + POOL_WORDS * i + 2;
      && 0 <= h < |m| && 0 <= p < |m| && |m'| == |m|
      && m'[p] == m[h] && m'[h] == p
      && forall k :: 0 <= k < |m| && k != p && k != h ==> m'[k] == m[k]
    ensures PoolsOk(m', base, ds, free[i := [p] + free[i]])
  {
    var free' := free[i := [p] + free[i]];
    forall k | 0 <= k < |ds|
      ensures PoolOk(m', base, ds, free'[k], k)
    {
      PushKeepsPool(m, m', base, ds, free, i, p, k);
    }
  }

  lemma PushKeepsPool(m: seq<Cell>, m': seq<Cell>, base: nat, ds: seq<PoolDesc>, free: seq<seq<int>>,
                      i: nat, p: int, k: nat)
    requires PoolsOk(m, base, ds, free) && i < |ds| && p in BlocksOf(base, ds, i) && p !in free[i] && k < |ds|
    requires var h := base + POOL_WORDS * i + 2;
      && 0 <= h < |m| && 0 <= p < |m| && |m'| == |m|
      && m'[p] == m[h] && m'[h] == p
      && forall j :: 0 <= j < |m| && j != p && j != h ==> m'[j] == m[j]
    ensures PoolOk(m', base, ds, if k == i then [p] + free[i] else free[k], k)
  {
    var h := base + POOL_WORDS * i + 2;
    assert PoolOk(m, base, ds, free[k], k);
    BlockPlace(base, ds, i, p);
    TableBelowBlocks(base, ds, k, free[k]);
    if k != i {
      forall a | a in free[k]
        ensures a != p
      {
        UsableStride(ds[k]);
        UsableStride(ds[i]);
        BlocksApart(base, ds, k, a, i, p);
      }
      PoolFrame(m, m', base, ds, free[k], k);
    } else {
      LinkedPush(m, m', m[h], free[i], p);
    }
  }

  // Handing out the first free block of pool i, and taking one back.
  lemma PartitionTake(m: seq<Cell>, base: nat, ds: seq<PoolDesc>, free: seq<seq<int>>, out: set<int>, i: nat)
    requires PoolsOk(m, base, ds, free) && Partition(base, ds, free, out) && i < |ds| && free[i] != []
    ensures var p := free[i][0];
      && p in BlocksOf(base, ds, i) && p !in out && p !in free[i][1..]
      && Partition(base, ds, free[i := free[i][1..]], out + {p})
  {
    var p, free' := free[i][0], free[i := free[i][1..]];
    assert PoolOk(m, base, ds, free[i], i);
    LinkedDistinct(m, m[base + POOL_WORDS * i + 2], free[i]);
    forall k, a | 0 <= k < |ds| && a in BlocksOf(base, ds, k)
      ensures a in out + {p} <==> a !in free'[k]
    {
      if a == p { OwnerUnique(base, ds, i, k, p); }
      assert free[i] == [p] + free[i][1..];
    }
  }

  lemma PartitionGive(base: nat, ds: seq<PoolDesc>, free: seq<seq<int>>, out: set<int>, i: nat, p: int)
    requires AllUsable(ds) && Partition(base, ds, free, out)
    requires i < |ds| && p in BlocksOf(base, ds, i) && p in out
    ensures p !in free[i]
    ensures Partition(base, ds, free[i := [p] + free[i]], out - {p})
  {
    var free' := free[i := [p] + free[i]];
    forall k, a | 0 <= k < |ds| && a in BlocksOf(base, ds, k)
      ensures a in out - {p} <==> a !in free'[k]
    {
      if a == p { OwnerUnique(base, ds, i, k, p); }
    }
  }

  // Marking a held block as free and putting it back, in terms of memory.
  lemma Returned(m: seq<Cell>, base: nat, ds: seq<PoolDesc>, free: seq<seq<int>>, out: set<int>, i: nat, p: int)
    requires PoolsOk(m, base, ds, free) && Partition(base, ds, free, out)
    requires i < |ds| && p in BlocksOf(base, ds, i) && p in out
    requires base + POOL_WORDS * i + 2 < p && p + 1 < |m| < 0x1_0000_0000
    ensures var h, free' := base + POOL_WORDS * i + 2, free[i := [p] + free[i]];
      && PoolsOk(m[p + 1 := FREE_MARK][p := m[h]][h := p as Cell], base, ds, free')
      && Partition(base, ds, free', out - {p})
  {
    var h, m1 := base + POOL_WORDS * i + 2, m[p + 1 := FREE_MARK];
    BlockRoom(m, base, ds, free, i, p);
    PartitionGive(base, ds, free, out, i, p);
    hide PoolsOk, Partition, BlocksOf, Stride;
    BlockWrite(m, m1, base, ds, free, i, p);
    PushKeeps(m1, m1[p := m[h]][h := p as Cell], base, ds, free, i, p);
  }

  // Moving block p between a free list with its head at h and its holder changes the head and the
  // two header words of the block, and nothing else.
  ghost predicate Moved(m: seq<Cell>, m': seq<Cell>, h: int, p: int) {
    && |m'| == |m| && 0 <= h < p && p + 1 < |m|
    && forall x :: 0 <= x < |m| && x != h && x != p && x != p + 1 ==> m'[x] == m[x]
  }

  // Out of the list: the head moves to the next block, and the mark is cleared.
  ghost predicate MovedOut(m: seq<Cell>, m': seq<Cell>, h: int, p: int) {
    Moved(m, m', h, p) && m'[h] == m[p] && m'[p + 1] == 0 && m'[p] == m[p]
  }

  // Back into it, in front, with the mark of a free block.
  ghost predicate MovedIn(m: seq<Cell>, m': seq<Cell>, h: int, p: int) {
    Moved(m, m', h, p) && m'[h] == p && m'[p + 1] == 0xFAABD00D && m'[p] == m[h]
  }

  // The lists, the held blocks and the memory.
  datatype Pools = Pools(m: seq<Cell>, free: seq<seq<int>>, out: set<int>)

  // Pool i hands out its first free block p.
  ghost predicate HandedOut(was: Pools, now: Pools, base: nat, ds: seq<PoolDesc>, i: nat, p: int) {
    && i < |ds| == |was.free| && was.free[i] != [] && p == was.free[i][0]
    && p in BlocksOf(base, ds, i) && p !in was.out
    && now.free == was.free[i := was.free[i][1..]] && now.out == was.out + {p}
    && MovedOut(was.m, now.m, base + POOL_WORDS * i + 2, p)
  }

  // Pool i takes its block p back, in front of its list.
  ghost predicate TakenBack(was: Pools, now: Pools, base: nat, ds: seq<PoolDesc>, i: nat, p: int) {
    && i < |ds| == |was.free| && p in BlocksOf(base, ds, i)
    && now.free == was.free[i := [p] + was.free[i]] && now.out == was.out - {p}
    && MovedIn(was.m, now.m, base + POOL_WORDS * i + 2, p)
  }

  // So no word of any other block changes, whoever holds it.
  lemma OtherBlocksKept(m: seq<Cell>, m': seq<Cell>, base: nat, ds: seq<PoolDesc>, i: nat, p: int,
                        j: nat, q: int, x: int)
    requires AllUsable(ds) && i < |ds| && j < |ds| && Moved(m, m', base + POOL_WORDS * i + 2, p)
    requires p in BlocksOf(base, ds, i) && q in BlocksOf(base, ds, j) && q != p
    requires q <= x < q + Stride(ds[j]) && 0 <= x < |m|
    ensures m'[x] == m[x]
  {
    BlocksApart(base, ds, i, p, j, q);
    BlockPlace(base, ds, j, q);
    UsableStride(ds[i]);
  }

  // In every state the free blocks of a pool and those handed out add up to its blocks, and the
  // free list has no block twice.
  lemma PoolConserved(m: seq<Cell>, base: nat, ds: seq<PoolDesc>, free: seq<seq<int>>, out: set<int>, i: nat)
    requires PoolsOk(m, base, ds, free) && Partition(base, ds, free, out) && i < |ds|
    ensures Distinct(free[i])
    ensures var held := Elements(BlocksOf(base, ds, i)) * out;
      && Elements(free[i]) !! held
      && Elements(free[i]) + held == Elements(BlocksOf(base, ds, i))
      && |free[i]| + |held| == Blocks(ds[i])
  {
    var bs := BlocksOf(base, ds, i);
    assert PoolOk(m, base, ds, free[i], i);
    LinkedDistinct(m, m[base + POOL_WORDS * i + 2], free[i]);
    BlocksInside(base, ds, i);
    UsableStride(ds[i]);
    assert Distinct(bs) && |bs| == Blocks(ds[i]);
    assert forall a :: a in free[i] ==> a in bs;
    assert forall a :: a in bs ==> (a in out <==> a !in free[i]);
    SplitCount(bs, free[i], out);
  }

  lemma SplitCount(bs: seq<int>, free: seq<int>, out: set<int>)
    requires Distinct(bs) && Distinct(free)
    requires forall a :: a in free ==> a in bs
    requires forall a :: a in bs ==> (a in out <==> a !in free)
    ensures var held := Elements(bs) * out;
      && Elements(free) !! held && Elements(free) + held == Elements(bs)
      && |free| + |held| == |bs|
  {
    hide Distinct;
    DistinctCount(free);
    DistinctCount(bs);
    var held := Elements(bs) * out;
    forall a
      ensures a in Elements(bs) <==> a in Elements(free) || a in held
      ensures !(a in Elements(free) && a in held)
    {
      assert a in bs ==> (a in out <==> a !in free);
    }
  }

  // ---------------------------------------------------------------- first fit

  // The first pool from i on whose blocks are long enough and that has one left; |ds| if none.
  ghost function FirstFit(ds: seq<PoolDesc>, free: seq<seq<int>>, len: nat, i: nat): (r: nat)
    requires i <= |ds| == |free|
    ensures i <= r <= |ds|
    ensures r < |ds| ==> len <= BlockBytes(ds[r]) && free[r] != []
    ensures forall k :: i <= k < r ==> !(len <= BlockBytes(ds[k]) && free[k] != [])
    decreases |ds| - i
  {
    if i == |ds| || (len <= BlockBytes(ds[i]) && free[i] != []) then i else FirstFit(ds, free, len, i + 1)
  }

  // What the scan for a pool finds in a table at base: the first of n entries with a long enough
  // length and a free block.
  function TableFit(m: seq<Cell>, base: nat, n: nat, len: nat, i: nat): (r: nat)
    requires base + POOL_WORDS * n <= |m| && i <= n
    ensures i <= r <= n
    decreases n - i
  {
    if i == n then n
    else
      var t := base + POOL_WORDS * i;
      if len <= m[t] % 0x1_0000 && m[t + 2] != NULL then i else TableFit(m, base, n, len, i + 1)
  }

  lemma TableInside(m: seq<Cell>, base: nat, ds: seq<PoolDesc>, free: seq<seq<int>>)
    requires PoolsOk(m, base, ds, free)
    ensures base + POOL_WORDS * |ds| <= |m|
  {
  }

  lemma {:induction false} TableFitIsFirstFit(m: seq<Cell>, base: nat, ds: seq<PoolDesc>, free: seq<seq<int>>,
                                             len: nat, i: nat)
    requires PoolsOk(m, base, ds, free) && base + POOL_WORDS * |ds| <= |m| && i <= |ds|
    ensures TableFit(m, base, |ds|, len, i) == FirstFit(ds, free, len, i)
    decreases |ds| - i
  {
    hide PoolsOk;
    TableInside(m, base, ds, free);
    if i < |ds| {
      ReadPool(m, base, ds, free, i);
      TableFitIsFirstFit(m, base, ds, free, len, i + 1);
    }
  }

  // A table pointer of NULL over words that are 0: no request is met, whatever is free.
  lemma {:induction false} LostTableMeetsNothing(m: seq<Cell>, n: nat, len: nat, i: nat)
    requires POOL_WORDS * n <= |m| && i <= n && forall x :: 0 <= x < POOL_WORDS * n ==> m[x] == 0
    ensures TableFit(m, NULL, n, len, i) == n
    decreases n - i
  {
    if i < n { LostTableMeetsNothing(m, n, len, i + 1); }
  }

  // ---------------------------------------------------------------- the table pointer

  // The calls that move the table pointer: a size calculation, and a set-up with its heap start.
  datatype TableCall = Calculate | Initialise(at: nat)

  // Where the pointer is after some calls; it starts as NULL.
  function TablePointer(calls: seq<TableCall>): nat {
    if calls == [] || calls[|calls| - 1].Calculate? then NULL else calls[|calls| - 1].at
  }

  // Where the last table was set up.
  function LastTable(calls: seq<TableCall>): nat {
    if calls == [] then NULL
    else if calls[|calls| - 1].Initialise? then calls[|calls| - 1].at
    else LastTable(calls[..|calls| - 1])
  }

  lemma CallInitialise(calls: seq<TableCall>, at: nat)
    ensures TablePointer(calls + [Initialise(at)]) == LastTable(calls + [Initialise(at)]) == at
  {
  }

  // The pointer is at the last table exactly when no size was calculated after it was set up.
  lemma {:induction false} TablePointerIff(calls: seq<TableCall>)
    requires forall k :: 0 <= k < |calls| && calls[k].Initialise? ==> calls[k].at > 0
    ensures (exists k :: 0 <= k < |calls| && calls[k].Initialise?) <==> LastTable(calls) > 0
    ensures LastTable(calls) > 0 ==> (TablePointer(calls) == LastTable(calls) <==> calls[|calls| - 1].Initialise?)
    decreases |calls|
  {
    if calls != [] && calls[|calls| - 1].Calculate? {
      var before := calls[..|calls| - 1];
      TablePointerIff(before);
      if k :| 0 <= k < |calls| && calls[k].Initialise? {
        assert before[k].Initialise?;
      }
    }
  }

  // ---------------------------------------------------------------- the word at the limit

  // What a set-up does to the word at the limit: if a block starts there, its next pointer goes
  // into that word, NULL for the last block of a pool; if none does, the word stays.
  ghost predicate LimitWord(was: Cell, now: Cell, hit: bool, limit: nat, gap: nat) {
    if hit then now == NULL || now >= limit + gap else now == was
  }

  // All a set-up does to memory, from the heap start on: nothing below it and nothing behind the
  // limit, the word at the limit as said above, and after a success nothing behind the last pool.
  ghost predicate SetUpEffect(was: seq<Cell>, now: seq<Cell>, start: nat, limit: nat, ds: seq<PoolDesc>) {
    && |now| == |was| && start <= limit < |was|
    && now[..start] == was[..start] && now[limit + 1..] == was[limit + 1..]
    && LimitWord(was[limit], now[limit], StartsAt(start, ds, |ds|, limit), limit, Gap(ds))
    && (AllUsable(ds) && Start(start, ds, |ds|) <= limit ==>
          now[Start(start, ds, |ds|)..] == was[Start(start, ds, |ds|)..])
  }

  // The least distance from a block to the next.
  ghost function Gap(ds: seq<PoolDesc>): nat {
    if AllUsable(ds) then 2 else 0
  }

  lemma LimitWordStarts(w: Cell, base: nat, ds: seq<PoolDesc>, limit: nat)
    ensures LimitWord(w, w, StartsAt(base, ds, 0, limit), limit, Gap(ds))
  {
  }

  lemma LimitWordThen(w: Cell, w': Cell, w'': Cell, base: nat, ds: seq<PoolDesc>, k: nat, limit: nat)
    requires k < |ds| && LimitWord(w, w', StartsAt(base, ds, k, limit), limit, Gap(ds))
    requires LimitWord(w', w'', limit in BlocksOf(base, ds, k), limit, Stride(ds[k]))
    ensures LimitWord(w, w'', StartsAt(base, ds, k + 1, limit), limit, Gap(ds))
  {
    StartsAtStep(base, ds, k, limit);
    if AllUsable(ds) { UsableStride(ds[k]); }
    hide StartsAt, BlocksOf, Stride;
  }

  // With a block there, the pools do not fit.
  lemma StartAtLimitFails(base: nat, ds: seq<PoolDesc>, limit: nat)
    requires AllUsable(ds) && StartsAt(base, ds, |ds|, limit)
    ensures Start(base, ds, |ds|) > limit
  {
    hide BlocksOf, Start;
    var j :| 0 <= j < |ds| && limit in BlocksOf(base, ds, j);
    BlockPlace(base, ds, j, limit);
    UsableStride(ds[j]);
  }

  // Such descriptors exist: 200 blocks of 24 bytes and one of 8, on the whole heap. Block 127 of the
  // first pool would start at the end of the heap.
  lemma OverrunInput(origin: nat)
    ensures var ds := [PoolDesc(24, 200), PoolDesc(8, 1)];
      AllUsable(ds) && StartsAt(origin, ds, |ds|, origin + HEAP_WORDS)
  {
    var ds := [PoolDesc(24, 200), PoolDesc(8, 1)];
    assert ds[..0] == [] && Start(origin, ds, 0) == origin + 6 && Stride(ds[0]) == 6;
    StridedAt(origin + 6, 6, 200, 127);
    assert BlocksOf(origin, ds, 0)[127] == origin + HEAP_WORDS;
  }

  // ---------------------------------------------------------------- the service

  class BufService {
    // Memory: the heap from origin on, what the linker put below it, and the word that follows it.
    const mem: array<Cell>
    const origin: nat
    // myHeap.c: where the free heap starts, in words, and what is left of it, in bytes.
    var heapStart: nat
    var heapSize: nat
    // myBuf.c: where the pool table is taken to be, and how many pools it has.
    var base: nat
    var numPools: nat
    var memLen: nat
    // The pools set up, their free lists, and the blocks handed out.
    ghost var descs: seq<PoolDesc>
    ghost var free: seq<seq<int>>
    ghost var out: set<int>
    // The calls that move the table pointer, so far.
    ghost var calls: seq<TableCall>

    ghost predicate HeapValid()
      reads this
    {
      && 0 < origin <= heapStart && mem.Length == origin + HEAP_WORDS + 1 <= MAX_MEMORY
      && heapSize % 4 == 0 && 4 * (heapStart - origin) + heapSize == HEAP_BYTES
      && base == TablePointer(calls) && forall k :: 0 <= k < |calls| ==> calls[k].Initialise? ==> calls[k].at > 0
    }

    // The pools are in memory where they were last set up.
    ghost predicate Ready()
      reads this, mem
    {
      && HeapValid() && LastTable(calls) > 0
      && numPools == |descs| == |free|
      && PoolsOk(mem[..], LastTable(calls), descs, free)
      && Partition(LastTable(calls), descs, free, out)
      && Start(LastTable(calls), descs, numPools) <= origin + HEAP_WORDS
    }

    ghost function Now(): Pools
      reads this, mem
    {
      Pools(mem[..], free, out)
    }

    // And the table pointer still points there.
    ghost predicate Valid()
      reads this, mem
    {
      Ready() && base == LastTable(calls)
    }

    constructor (origin: nat)
      requires 0 < origin && origin + HEAP_WORDS + 1 <= MAX_MEMORY
      ensures HeapValid() && fresh(mem) && heapStart == this.origin == origin && heapSize == 3072 && calls == []
    {
      mem := new Cell[origin + HEAP_WORDS + 1];
      this.origin, heapStart, heapSize := origin, origin, HEAP_BYTES;
      base, numPools, memLen := 0, 0, 0;
      descs, free, out, calls := [], [], {}, [];
    }

    // Once the pools are set up, the service is usable exactly as long as no size has been
    // calculated since the last set-up.
    lemma UsableIff()
      requires Ready()
      ensures calls != []
      ensures Valid() <==> calls[|calls| - 1].Initialise?
    {
      TablePointerIff(calls);
    }

    // The first word the set-up checks must not pass.
    function Limit(): nat
      reads `heapStart, `heapSize
    {
      heapStart + heapSize / HEADER_BYTES * 2
    }

    // The word at the limit lies behind the heap exactly when whole blocks of eight bytes are left.
    lemma LimitBehindIff()
      requires HeapValid()
      ensures Limit() == origin + HEAP_WORDS <==> heapSize % 8 == 0
      ensures heapSize % 8 != 0 ==> Limit() == origin + HEAP_WORDS - 1
    {
    }

    // Pools pass the last check exactly when the free heap has room for them, but for those that
    // would fill a heap of four bytes modulo eight to the last word.
    lemma FitsIff(ds: seq<PoolDesc>)
      requires HeapValid()
      ensures Start(heapStart, ds, |ds|) <= Limit() <==>
              UsedBytes(ds) <= heapSize && !(UsedBytes(ds) == heapSize && heapSize % 8 == 4)
    {
      UsedIsStart(heapStart, ds);
    }

    // myHeapAlloc: the size is rounded up to a whole word. Both the rounding and the byte count
    // wrap at 32 bits, so the three largest sizes reserve nothing.
    method HeapAlloc(size: Cell)
      requires HeapValid()
      modifies `heapStart, `heapSize
      ensures size <= old(heapSize) ==> HeapValid() && heapStart == old(heapStart) + (size + 3) / 4
      ensures size <= old(heapSize) ==> heapSize == old(heapSize) - (size + 3) / 4 * 4
      ensures size > 0xffff_fffc ==> heapStart == old(heapStart) && heapSize == old(heapSize)
      ensures HeapValid() <==> size <= old(heapSize) || size > 0xffff_fffc
      ensures old(heapSize) < size <= 0xffff_fffc ==>
        heapStart == old(heapStart) + (size + 3) / 4 && heapSize == old(heapSize) - (size + 3) / 4 * 4 + 0x1_0000_0000
    {
      RoundedSize(size, heapSize);
      var rounded := (size as nat + 3) % 0x1_0000_0000 / 4 * 4;
      heapStart := heapStart + rounded / 4;
      heapSize := (heapSize - rounded) % 0x1_0000_0000;
    }

    lemma RoundedSize(size: Cell, left: nat)
      requires left % 4 == 0 && left < 0x1_0000_0000
      ensures var r := (size as nat + 3) % 0x1_0000_0000 / 4 * 4;
        && r == (if size > 0xffff_fffc then 0 else (size as nat + 3) / 4 * 4)
        && (size <= left ==> r <= left) && (left < size <= 0xffff_fffc ==> r > left)
        && (left - r) % 0x1_0000_0000 == if r <= left then left - r else left - r + 0x1_0000_0000
    {
    }

    // myBufCalcSize: the calculation starts at address 0, for which it uses the table pointer, and
    // leaves it there.
    method CalcSize(pDesc: seq<PoolDesc>) returns (size: nat)
      requires HeapValid()
      modifies `base, `calls
      ensures size == CalcBytes(pDesc)
      ensures HeapValid() && base == 0 && calls == old(calls) + [Calculate]
      ensures old(Ready()) ==> Ready() && !Valid()
    {
      hide PoolsOk, Partition;
      assert (calls + [Calculate])[..|calls|] == calls;
      TablePointerIff(calls);
      base := 0;
      calls := calls + [Calculate];
      size := SumSizes(pDesc);
    }

    // The walk over the descriptors, block by block.
    static method SumSizes(pDesc: seq<PoolDesc>) returns (size: nat)
      ensures size == CalcBytes(pDesc)
    {
      size := 12 * |pDesc|;
      var k := 0;
      while k < |pDesc|
        invariant 0 <= k <= |pDesc|
        invariant size == CalcBytes(pDesc[..k]) + 12 * (|pDesc| - k)
      {
        var len := RoundUp(pDesc[k].len) / HEADER_BYTES;
        var i := pDesc[k].num;
        ghost var before := size;
        while i > 0
          invariant 0 <= i <= pDesc[k].num
          invariant size == before + RoundUp(pDesc[k].len) * (pDesc[k].num - i)
        {
          NextMultiple(RoundUp(pDesc[k].len), pDesc[k].num - i);
          size := size + HEADER_BYTES * len;
          i := i - 1;
        }
        assert pDesc[..k + 1][..k] == pDesc[..k];
        k := k + 1;
      }
      assert pDesc[..k] == pDesc;
    }

    // One round of myBufInit: the structure of pool k and the chain of its blocks. A round is given
    // up when a block would start beyond the limit.
    method InitPool(k: nat, d: PoolDesc, first: nat, limit: nat) returns (ok: bool, next: nat)
      requires mem.Length <= MAX_MEMORY && base + POOL_WORDS * k + 2 < first <= limit < mem.Length
      modifies mem
      ensures ok <==> first + Stride(d) * (Blocks(d) - 1) <= limit
      ensures ok ==> next == first + PoolSize(d)
      ensures mem[..base + POOL_WORDS * k] == old(mem[..base + POOL_WORDS * k])
      ensures mem[base + POOL_WORDS * k + 3..first] == old(mem[base + POOL_WORDS * k + 3..first])
      ensures mem[limit + 1..] == old(mem[limit + 1..])
      ensures ok && Stride(d) > 0 && next <= mem.Length ==> mem[next..] == old(mem[..])[next..]
      ensures mem[base + POOL_WORDS * k] == DescWord(d)
      ensures mem[base + POOL_WORDS * k + 1] == first && mem[base + POOL_WORDS * k + 2] == first
      ensures ok && Stride(d) >= 2 ==> Chained(mem[..], Strided(first, Stride(d), Blocks(d)))
      ensures LimitWord(old(mem[limit]), mem[limit], limit in Strided(first, Stride(d), Blocks(d)), limit, Stride(d))
    {
      var t := base + POOL_WORDS * k;
      mem[t] := DescWord(d);
      mem[t + 1] := first;
      mem[t + 2] := first;
      ok, next := ChainBlocks(first, Stride(d), d.num, limit);
    }

    method ChainBlocks(first: nat, stride: nat, num: Byte, limit: nat) returns (ok: bool, next: nat)
      requires mem.Length <= MAX_MEMORY && 0 < first <= limit < mem.Length && stride < 0x1_0000
      modifies mem
      ensures var blocks := if num >= 1 then num else 1;
        && (ok <==> first + stride * (blocks - 1) <= limit)
        && (ok ==> next == first + stride * blocks)
        && (ok && stride >= 2 ==> Chained(mem[..], Strided(first, stride, blocks)))
        && LimitWord(old(mem[limit]), mem[limit], limit in Strided(first, stride, blocks), limit, stride)
      ensures mem[..first] == old(mem[..first]) && mem[limit + 1..] == old(mem[limit + 1..])
      ensures ok && stride > 0 && next <= mem.Length ==> mem[next..] == old(mem[..])[next..]
    {
      hide Strided, Chained, Chaining, LimitWord;
      ghost var blocks: nat := if num >= 1 then num else 1;
      ghost var m := mem[..];
      next := first;
      ghost var c := 0;
      var i := num;
      ChainingStarts(m, first, stride, blocks, limit);
      while i > 1
        invariant 0 <= i <= num && (num >= 1 ==> i >= 1) && c == (if num >= 1 then num - i else 0)
        invariant 0 <= c < blocks && next == first + stride * c && Chaining(m, mem[..], c, first, stride, blocks, limit)
        decreases i
      {
        if next > limit {
          ChainingGivenUp(m, mem[..], c, first, stride, blocks, limit);
          ok := false;
          return;
        }
        NextMultiple(stride, c);
        ChainingStep(m, mem[..], c, first, stride, blocks, limit);
        ghost var was := mem[..];
        mem[next] := next + stride;
        assert mem[..] == was[next := (next + stride) as Cell];
        next := next + stride;
        c := c + 1;
        i := i - 1;
      }
      if next > limit {
        ChainingGivenUp(m, mem[..], c, first, stride, blocks, limit);
        ok := false;
        return;
      }
      NextMultiple(stride, c);
      ChainingEnds(m, mem[..], c, first, stride, blocks, limit);
      ghost var was := mem[..];
      mem[next] := NULL;
      assert mem[..] == was[next := NULL as Cell];
      next := next + stride;
      ok := true;
    }

    // The first c of the blocks have been chained, and nothing else has happened to memory m.
    ghost predicate Chaining(m: seq<Cell>, m': seq<Cell>, c: nat, first: nat, stride: nat, blocks: nat, limit: nat) {
      var bs, next := Strided(first, stride, blocks), first + stride * c;
      && 0 < first <= next && c < blocks && stride < 0x1_0000 && |m| <= MAX_MEMORY
      && Between(m, m', first, next, limit, stride) && AtLimit(m, m', bs, c, limit, stride)
      && (stride >= 2 ==> ChainSoFar(m', bs, c, first, next))
    }

    lemma ChainingStarts(m: seq<Cell>, first: nat, stride: nat, blocks: nat, limit: nat)
      requires 0 < blocks && 0 < first <= limit < |m| <= MAX_MEMORY && stride < 0x1_0000
      ensures Chaining(m, m, 0, first, stride, blocks, limit)
    {
      assert stride * 0 == 0;
      ChainStart(m, Strided(first, stride, blocks), first, stride, limit);
    }

    lemma ChainingStep(m: seq<Cell>, was: seq<Cell>, c: nat, first: nat, stride: nat, blocks: nat, limit: nat)
      requires c + 1 < blocks && Chaining(m, was, c, first, stride, blocks, limit) && first + stride * c <= limit
      ensures var next := first + stride * c;
        && 0 <= next < |was| && next + stride < 0x1_0000_0000
        && Chaining(m, was[next := (next + stride) as Cell], c + 1, first, stride, blocks, limit)
    {
      hide Strided, ChainSoFar, Between, AtLimit;
      var bs, next := Strided(first, stride, blocks), first + stride * c;
      BetweenMeans(m, was, first, next, limit, stride);
      NextMultiple(stride, c);
      ChainExtends(was, was[next := (next + stride) as Cell], bs, c, first, stride, blocks);
      BetweenStep(m, was, first, next, limit, stride, (next + stride) as Cell);
      AtLimitStep(m, was, bs, c, first, stride, blocks, limit, (next + stride) as Cell);
    }

    lemma ChainingEnds(m: seq<Cell>, was: seq<Cell>, c: nat, first: nat, stride: nat, blocks: nat, limit: nat)
      requires c + 1 == blocks && Chaining(m, was, c, first, stride, blocks, limit) && first + stride * c <= limit
      ensures 0 <= first + stride * c < |was| == |m| && limit < |m|
      ensures var bs, next, now := Strided(first, stride, blocks), first + stride * c, was[first + stride * c := NULL];
        && now[..first] == m[..first] && now[limit + 1..] == m[limit + 1..]
        && (stride > 0 && next + stride <= |m| ==> now[next + stride..] == m[next + stride..])
        && (stride >= 2 ==> Chained(now, bs)) && LimitWord(m[limit], now[limit], limit in bs, limit, stride)
    {
      hide Strided, ChainSoFar, Between, AtLimit, Chained, LimitWord;
      var bs, next := Strided(first, stride, blocks), first + stride * c;
      BetweenMeans(m, was, first, next, limit, stride);
      var now := was[next := NULL];
      if stride >= 2 {
        ChainEnds(was, now, bs, first, stride, blocks);
      }
      BetweenStep(m, was, first, next, limit, stride, NULL);
      BetweenMeans(m, now, first, next + stride, limit, stride);
      AtLimitStep(m, was, bs, c, first, stride, blocks, limit, NULL);
      AtLimitEnds(m, now, bs, blocks, first, stride, blocks, limit);
    }

    lemma ChainingGivenUp(m: seq<Cell>, m': seq<Cell>, c: nat, first: nat, stride: nat, blocks: nat, limit: nat)
      requires c < blocks && Chaining(m, m', c, first, stride, blocks, limit) && first + stride * c > limit
      ensures first + stride * (blocks - 1) > limit
      ensures |m'| == |m| && first <= limit < |m|
      ensures m'[..first] == m[..first] && m'[limit + 1..] == m[limit + 1..]
      ensures LimitWord(m[limit], m'[limit], limit in Strided(first, stride, blocks), limit, stride)
    {
      hide Strided, ChainSoFar, Between, AtLimit, LimitWord;
      BetweenMeans(m, m', first, first + stride * c, limit, stride);
      AtLimitEnds(m, m', Strided(first, stride, blocks), c, first, stride, blocks, limit);
      Multiples(stride, c, blocks - 1);
    }

    // Memory has changed from first on only, not behind the limit, and not from next on.
    ghost predicate Between(m: seq<Cell>, m': seq<Cell>, first: nat, next: nat, limit: nat, stride: nat) {
      && |m'| == |m| && first <= limit < |m|
      && m'[..first] == m[..first] && m'[limit + 1..] == m[limit + 1..]
      && (stride > 0 && next <= |m| ==> m'[next..] == m[next..])
    }

    lemma BetweenMeans(m: seq<Cell>, m': seq<Cell>, first: nat, next: nat, limit: nat, stride: nat)
      requires Between(m, m', first, next, limit, stride)
      ensures |m'| == |m| && first <= limit < |m|
      ensures m'[..first] == m[..first] && m'[limit + 1..] == m[limit + 1..]
      ensures stride > 0 && next <= |m| ==> m'[next..] == m[next..]
    {
    }

    lemma BetweenStep(m: seq<Cell>, was: seq<Cell>, first: nat, next: nat, limit: nat, stride: nat, x: Cell)
      requires Between(m, was, first, next, limit, stride) && first <= next <= limit
      ensures |was| == |m| && next < |m| && Between(m, was[next := x], first, next + stride, limit, stride)
    {
      var now := was[next := x];
      assert now[..first] == was[..first] && now[limit + 1..] == was[limit + 1..];
      if stride > 0 && next + stride <= |m| {
        assert now[next + stride..] == was[next..][stride..] && m[next + stride..] == m[next..][stride..];
      }
    }

    lemma ChainStart(m: seq<Cell>, bs: seq<int>, first: nat, stride: nat, limit: nat)
      requires bs != [] && first <= limit < |m|
      ensures Between(m, m, first, first, limit, stride) && ChainSoFar(m, bs, 0, first, first)
      ensures AtLimit(m, m, bs, 0, limit, stride)
    {
    }

    // The word at the limit, after the first c blocks were chained.
    ghost predicate AtLimit(m: seq<Cell>, m': seq<Cell>, bs: seq<int>, c: nat, limit: nat, stride: nat) {
      && |m'| == |m| && limit < |m| && c <= |bs|
      && LimitWord(m[limit], m'[limit], limit in bs[..c], limit, stride)
    }

    lemma AtLimitStep(m: seq<Cell>, was: seq<Cell>, bs: seq<int>, c: nat, first: nat, stride: nat, blocks: nat,
                      limit: nat, x: Cell)
      requires bs == Strided(first, stride, blocks) && c < blocks && AtLimit(m, was, bs, c, limit, stride)
      requires 0 <= first + stride * c < |was| && (x == NULL || x == first + stride * c + stride)
      ensures AtLimit(m, was[first + stride * c := x], bs, c + 1, limit, stride)
    {
      StridedAt(first, stride, blocks, c);
      assert bs[..c + 1] == bs[..c] + [bs[c]];
    }

    // Blocks not chained start above the limit.
    lemma AtLimitEnds(m: seq<Cell>, m': seq<Cell>, bs: seq<int>, c: nat, first: nat, stride: nat, blocks: nat,
                      limit: nat)
      requires bs == Strided(first, stride, blocks) && c <= blocks && AtLimit(m, m', bs, c, limit, stride)
      requires c == blocks || first + stride * c > limit
      ensures |m'| == |m| && limit < |m| && LimitWord(m[limit], m'[limit], limit in bs, limit, stride)
    {
      hide LimitWord, Strided;
      assert bs == bs[..c] + bs[c..];
      forall i | c <= i < blocks
        ensures bs[i] > limit
      {
        StridedAt(first, stride, blocks, i);
        Multiples(stride, c, i);
      }
    }

    // A round of the loop, in terms of the pools that are set up.
    method Round(pDesc: seq<PoolDesc>, k: nat, first: nat, limit: nat) returns (ok: bool, next: nat)
      requires k < |pDesc| && mem.Length <= MAX_MEMORY && base > 0
      requires first == Start(base, pDesc, k) <= limit < mem.Length
      requires AllUsable(pDesc) ==> forall j :: 0 <= j < k ==> Prepared(mem[..], base, pDesc, j)
      modifies mem
      ensures !ok ==> Start(base, pDesc, k + 1) > limit
      ensures ok ==> next == Start(base, pDesc, k + 1)
      ensures ok && AllUsable(pDesc) ==> forall j :: 0 <= j < k + 1 ==> Prepared(mem[..], base, pDesc, j)
      ensures mem[..base] == old(mem[..base]) && mem[limit + 1..] == old(mem[limit + 1..])
      ensures ok && AllUsable(pDesc) && next <= mem.Length ==> mem[next..] == old(mem[..])[next..]
      ensures LimitWord(old(mem[limit]), mem[limit], limit in BlocksOf(base, pDesc, k), limit, Stride(pDesc[k]))
    {
      hide LimitWord, Chained, Strided, Stride, Blocks, PoolSize, BlockBytes, TotalSize, DescWord;
      StartMonotone(base, pDesc, 0, k);
      StartNext(base, pDesc, k);
      RoundAsked(pDesc[k]);
      ghost var was := mem[..];
      ok, next := InitPool(k, pDesc[k], first, limit);
      ghost var t := base + POOL_WORDS * k;
      assert mem[..base] == mem[..t][..base] && was[..base] == was[..t][..base];
      if ok && AllUsable(pDesc) {
        UsableStride(pDesc[k]);
        PreparedRound(was, mem[..], base, pDesc, k);
        assert Prepared(mem[..], base, pDesc, k);
      }
    }

    // All rounds, with the check before each one and after the last.
    method Rounds(pDesc: seq<PoolDesc>, limit: nat) returns (ok: bool, pStart: nat)
      requires mem.Length <= MAX_MEMORY && 0 < base <= limit < mem.Length && numPools == |pDesc|
      modifies mem
      ensures ok <==> Start(base, pDesc, |pDesc|) <= limit
      ensures ok ==> pStart == Start(base, pDesc, |pDesc|)
      ensures ok && AllUsable(pDesc) ==> forall j :: 0 <= j < |pDesc| ==> Prepared(mem[..], base, pDesc, j)
      ensures SetUpEffect(old(mem[..]), mem[..], base, limit, pDesc)
    {
      hide Prepared, LimitWord, Gap, StartsAt, BlocksOf, Start, UsedBytes;
      UsedIsStart(base, pDesc);
      ghost var n, m := |pDesc|, mem[..];
      pStart := base + POOL_WORDS * numPools;
      var k := 0;
      LimitWordStarts(m[limit], base, pDesc, limit);
      while k < |pDesc|
        invariant 0 <= k <= |pDesc| == numPools
        invariant pStart == Start(base, pDesc, k)
        invariant mem[..base] == m[..base] && mem[limit + 1..] == m[limit + 1..]
        invariant AllUsable(pDesc) ==> forall j :: 0 <= j < k ==> Prepared(mem[..], base, pDesc, j)
        invariant AllUsable(pDesc) && pStart <= mem.Length ==> mem[pStart..] == m[pStart..]
        invariant LimitWord(m[limit], mem[limit], StartsAt(base, pDesc, k, limit), limit, Gap(pDesc))
      {
        StartMonotone(base, pDesc, k, n);
        StartMonotone(base, pDesc, k, k + 1);
        StartMonotone(base, pDesc, k + 1, n);
        if pStart > limit {
          NoLaterStart(base, pDesc, k, limit);
          return false, 0;
        }
        ghost var was := mem[..];
        var good, next := Round(pDesc, k, pStart, limit);
        LimitWordThen(m[limit], was[limit], mem[limit], base, pDesc, k, limit);
        if !good {
          NoLaterStart(base, pDesc, k + 1, limit);
          return false, 0;
        }
        if next <= mem.Length {
          assert was[next..] == was[pStart..][next - pStart..];
          assert m[next..] == m[pStart..][next - pStart..];
        }
        pStart := next;
        k := k + 1;
      }
      ok := pStart <= limit;
    }

    // myBufInit: 0 when the pools do not fit, the bytes used when they do. A failing call may
    // have written anything up to and including the word at the limit.
    method Init(pDesc: seq<PoolDesc>) returns (size: nat)
      requires HeapValid() && |pDesc| < 0x100
      modifies mem, `base, `numPools, `memLen, `descs, `free, `out, `calls
      ensures HeapValid() && base == heapStart && numPools == |pDesc| && calls == old(calls) + [Initialise(heapStart)]
      ensures size == if Start(heapStart, pDesc, |pDesc|) <= Limit() then UsedBytes(pDesc) else 0
      ensures size <= heapSize
      ensures SetUpEffect(old(mem[..]), mem[..], heapStart, Limit(), pDesc)
      ensures AllUsable(pDesc) && StartsAt(heapStart, pDesc, |pDesc|, Limit()) ==> size == 0
      ensures Start(heapStart, pDesc, |pDesc|) <= Limit() ==> descs == pDesc && memLen == size && out == {}
      ensures Start(heapStart, pDesc, |pDesc|) <= Limit() ==> (Valid() <==> AllUsable(pDesc))
      ensures Start(heapStart, pDesc, |pDesc|) <= Limit() && AllUsable(pDesc) ==>
        forall i :: 0 <= i < |pDesc| ==> free[i] == BlocksOf(heapStart, pDesc, i)
    {
      hide Prepared, PoolsOk, Partition, BlocksOf, TotalSize, TablePointer, LastTable;
      hide SetUpEffect, StartsAt, Start, UsedBytes;
      UsedIsStart(heapStart, pDesc);
      if AllUsable(pDesc) && StartsAt(heapStart, pDesc, |pDesc|, Limit()) {
        StartAtLimitFails(heapStart, pDesc, Limit());
      }
      ghost var n, b := |pDesc|, heapStart;
      CallInitialise(calls, b);
      base, numPools := heapStart, |pDesc|;
      calls := calls + [Initialise(heapStart)];
      var ok, pStart := Rounds(pDesc, Limit());
      if !ok {
        return 0;
      }
      ghost var m := mem[..];
      size := 4 * (pStart - base);
      memLen := size;
      descs, out := pDesc, {};
      free := seq(n, j requires 0 <= j < n => BlocksOf(b, pDesc, j));
      SoundIff(m, base, pDesc, free);
      assert mem[..] == m;
    }

    // Setting up the pools and reserving what they use: the reservation never takes more than the
    // heap has left, and the heap then starts where the last pool ends. The pools are sound exactly
    // if no block length was cut.
    method SetUp(pDesc: seq<PoolDesc>) returns (size: nat)
      requires HeapValid() && |pDesc| < 0x100
      modifies this, mem
      ensures HeapValid() && heapSize == old(heapSize) - size && 4 * (heapStart - old(heapStart)) == size
      ensures size == if Start(old(heapStart), pDesc, |pDesc|) <= old(Limit()) then UsedBytes(pDesc) else 0
      ensures Start(old(heapStart), pDesc, |pDesc|) <= old(Limit()) ==>
        && descs == pDesc && heapStart == Start(base, descs, |descs|)
        && (Valid() <==> AllUsable(pDesc)) && (AllUsable(pDesc) ==> out == {})
    {
      size := Init(pDesc);
      HeapAlloc(size);
      assert pDesc[..|pDesc|] == pDesc;
    }

    // myBufAlloc: the first block of the first pool that fits, or NULL.
    method Alloc(len: U16) returns (p: nat)
      requires Valid()
      modifies mem, `free, `out
      ensures Valid()
      ensures var i := FirstFit(descs, old(free), len, 0);
        if i == |descs| then p == NULL && Now() == old(Now())
        else len <= BlockBytes(descs[i]) && HandedOut(old(Now()), Now(), base, descs, i, p)
    {
      TableInside(mem[..], base, descs, free);
      hide PoolsOk, Partition, HandedOut, TableFit, FirstFit, BlocksOf, TablePointer, LastTable, Start, Blocks;
      var i := FindFit(len);
      FitFound(len, i);
      if i == numPools {
        return NULL;
      }
      p := mem[base + POOL_WORDS * i + 2];
      TakeBlock(i);
    }

    // What that scan finds: the first pool that fits, with its first free block in its table entry.
    lemma FitFound(len: U16, i: nat)
      requires Valid() && base + POOL_WORDS * numPools <= mem.Length && i == TableFit(mem[..], base, numPools, len, 0)
      ensures i == FirstFit(descs, free, len, 0)
      ensures i < |descs| ==>
        && base + POOL_WORDS * i + 2 < mem.Length && free[i] != []
        && mem[base + POOL_WORDS * i + 2] == free[i][0] && len <= BlockBytes(descs[i])
    {
      hide PoolsOk, Partition, TableFit, BlocksOf, TablePointer, LastTable, Start, Blocks;
      TableFitIsFirstFit(mem[..], base, descs, free, len, 0);
      if i < |descs| { ReadPool(mem[..], base, descs, free, i); }
    }

    // The scan of myBufAlloc over the table that the pointer points at, whatever is there.
    method FindFit(len: U16) returns (i: nat)
      requires base + POOL_WORDS * numPools <= mem.Length
      ensures i == TableFit(mem[..], base, numPools, len, 0)
    {
      i := 0;
      while i < numPools
        invariant 0 <= i <= numPools
        invariant TableFit(mem[..], base, numPools, len, i) == TableFit(mem[..], base, numPools, len, 0)
      {
        var t := base + POOL_WORDS * i;
        if len <= mem[t] % 0x1_0000 && mem[t + 2] != NULL {
          return;
        }
        i := i + 1;
      }
    }

    // The critical section of myBufAlloc: pool i loses its first free block.
    method TakeBlock(i: nat)
      requires Valid() && i < |descs| && free[i] != []
      modifies mem, `free, `out
      ensures Valid() && HandedOut(old(Now()), Now(), base, descs, i, old(free)[i][0])
    {
      hide PoolsOk, Partition, PoolOk;
      var h := base + POOL_WORDS * i + 2;
      ghost var m, p := mem[..], free[i][0];
      AllUsableAt(m, base, descs, free, i);
      PopKeeps(m, base, descs, free, i);
      PartitionTake(m, base, descs, free, out, i);
      BlockPlace(base, descs, i, p);
      UsableStride(descs[i]);
      var pBuf := mem[h];
      mem[h] := mem[pBuf];
      free := free[i := free[i][1..]];
      out := out + {p};
      ghost var m1 := mem[..];
      assert m1 == m[h := m[m[h]]];
      mem[pBuf + 1] := 0;
      BlockWrite(m1, mem[..], base, descs, free, i, p);
    }

    // myBufFree: the pool is found by the address alone. The caller gives back a block it holds.
    method Free(p: nat)
      requires Valid() && p in out
      modifies mem, `free, `out
      ensures Valid()
      ensures var i := ScanDown(base, descs, p, |descs|);
        0 <= i && TakenBack(old(Now()), Now(), base, descs, i, p)
    {
      ghost var owner: nat :| owner < |descs| && p in BlocksOf(base, descs, owner);
      hide PoolsOk, Partition, TakenBack, BlocksOf, TablePointer, LastTable, Start, Blocks;
      AllUsableAt(mem[..], base, descs, free, owner);
      ScanFindsOwner(base, descs, owner, p, |descs|);
      var i := FindOwner(p);
      GiveBack(i, p);
    }

    // The scan of myBufFree, from the last pool downward.
    method FindOwner(p: nat) returns (i: int)
      requires Valid()
      ensures i == ScanDown(base, descs, p, |descs|)
    {
      hide PoolsOk, Partition;
      i := numPools;
      i := i - 1;
      while i >= 0
        invariant -1 <= i < |descs| && ScanDown(base, descs, p, i + 1) == ScanDown(base, descs, p, |descs|)
      {
        ReadPool(mem[..], base, descs, free, i);
        if p >= mem[base + POOL_WORDS * i + 1] {
          return;
        }
        i := i - 1;
      }
    }

    // The critical section of myBufFree.
    method GiveBack(i: nat, p: nat)
      requires Valid() && i < |descs| && p in BlocksOf(base, descs, i) && p in out
      modifies mem, `free, `out
      ensures Valid() && TakenBack(old(Now()), Now(), base, descs, i, p)
    {
      hide PoolsOk, Partition, BlocksOf, Stride, Start, TablePointer, LastTable, Blocks;
      var h := base + POOL_WORDS * i + 2;
      ghost var m := mem[..];
      BlockRoom(m, base, descs, free, i, p);
      Returned(m, base, descs, free, out, i, p);
      mem[p + 1] := FREE_MARK;
      mem[p] := mem[h];
      mem[h] := p;
      free := free[i := [p] + free[i]];
      out := out - {p};
      assert mem[..] == m[p + 1 := FREE_MARK][p := m[h]][h := p as Cell];
    }

    // What a holder does with its block: any word of it may take any value.
    method Use(ghost i: nat, p: nat, offset: nat, value: Cell)
      requires Valid() && i < |descs| && p in BlocksOf(base, descs, i) && p in out && offset < Stride(descs[i])
      requires p + offset < mem.Length
      modifies mem
      ensures Valid() && mem[p + offset] == value
    {
      ghost var m := mem[..];
      mem[p + offset] := value;
      BlockWrite(m, mem[..], base, descs, free, i, p);
    }

    // Pool j of ds set up, with all its blocks free.
    ghost predicate Prepared(m: seq<Cell>, base: nat, ds: seq<PoolDesc>, j: nat)
      requires j < |ds|
    {
      && base + POOL_WORDS * j + 2 < |m|
      && m[base + POOL_WORDS * j] == DescWord(ds[j])
      && m[base + POOL_WORDS * j + 1] == Start(base, ds, j) && m[base + POOL_WORDS * j + 2] == Start(base, ds, j)
      && Chained(m, BlocksOf(base, ds, j))
    }

    lemma SoundIff(m: seq<Cell>, base: nat, ds: seq<PoolDesc>, free: seq<seq<int>>)
      requires |m| < 0x1_0000_0000 && Start(base, ds, |ds|) <= |m|
      requires AllUsable(ds) ==> forall j :: 0 <= j < |ds| ==> Prepared(m, base, ds, j)
      requires |free| == |ds| && forall j :: 0 <= j < |ds| ==> free[j] == BlocksOf(base, ds, j)
      ensures PoolsOk(m, base, ds, free) <==> AllUsable(ds)
      ensures AllUsable(ds) ==> Partition(base, ds, free, {})
    {
      if AllUsable(ds) { AllPrepared(m, base, ds, free); }
    }

    // The limit leaves room for the whole last block when one more check passes.
    lemma RoundAsked(d: PoolDesc)
      ensures Stride(d) * (Blocks(d) - 1) + Stride(d) == PoolSize(d) && Stride(d) < 0x1_0000
    {
      NextMultiple(Stride(d), Blocks(d) - 1);
    }

    // A round keeps the pools before it and adds its own.
    lemma PreparedRound(m: seq<Cell>, m': seq<Cell>, base: nat, ds: seq<PoolDesc>, k: nat)
      requires k < |ds| && AllUsable(ds) && |m| == |m'|
      requires base + POOL_WORDS * k + 3 <= Start(base, ds, k) <= |m|
      requires var t, first := base + POOL_WORDS * k, Start(base, ds, k);
        m'[..t] == m[..t] && m'[t + 3..first] == m[t + 3..first]
      requires forall j :: 0 <= j < k ==> Prepared(m, base, ds, j)
      ensures forall j :: 0 <= j < k ==> Prepared(m', base, ds, j)
    {
      var t, first := base + POOL_WORDS * k, Start(base, ds, k);
      forall j | 0 <= j < k
        ensures Prepared(m', base, ds, j)
      {
        assert Prepared(m, base, ds, j);
        StartMonotone(base, ds, j + 1, k);
        BlocksInside(base, ds, j);
        UsableStride(ds[j]);
        assert forall x :: 0 <= x < t ==> m'[x] == m'[..t][x] == m[..t][x] == m[x];
        assert forall x :: t + 3 <= x < first ==> m'[x] == m'[t + 3..first][x - (t + 3)] == m[x];
        ChainedFrame(m, m', BlocksOf(base, ds, j));
      }
    }

    lemma ChainedFrame(m: seq<Cell>, m': seq<Cell>, s: seq<int>)
      requires Chained(m, s) && |m| == |m'|
      requires forall i :: 0 <= i < |s| ==> m'[s[i]] == m[s[i]]
      ensures Chained(m', s)
    {
    }

    lemma AllPrepared(m: seq<Cell>, base: nat, ds: seq<PoolDesc>, free: seq<seq<int>>)
      requires AllUsable(ds) && |m| < 0x1_0000_0000 && Start(base, ds, |ds|) <= |m|
      requires forall j :: 0 <= j < |ds| ==> Prepared(m, base, ds, j)
      requires |free| == |ds| && forall j :: 0 <= j < |ds| ==> free[j] == BlocksOf(base, ds, j)
      ensures PoolsOk(m, base, ds, free) && Partition(base, ds, free, {})
    {
      forall j | 0 <= j < |ds|
        ensures PoolOk(m, base, ds, free[j], j)
      {
        assert Prepared(m, base, ds, j);
        StridedAt(Start(base, ds, j), Stride(ds[j]), Blocks(ds[j]), 0);
        LinkedChain(m, free[j]);
      }
    }

    lemma Multiples(x: nat, c: int, n: int)
      requires c <= n
      ensures x * c <= x * n
    {
      assert x * (n - c) >= 0;
    }
  }
}
