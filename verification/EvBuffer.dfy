/** The event-buffer allocator of common/buf_pool1: three groups of blocks (ev_buffer.c), each a
    free list kept by mempool.c. Addresses are word indices. A block begins with the next pointer
    and the group index; the data pointer handed out is two words in. */
module EvBuffer {
  import opened Machine
  import opened FreeList

  const GROUPS := 3
  const MAX_BUFFER_SIZE := 150

  type Group = g: int | 0 <= g < 3

  datatype Status = Succ | DuplicateFree

  // Item sizes in bytes and numbers of blocks.
  function ItemSize(g: Group): nat {
    if g == 0 then 24 else if g == 1 then 60 else 150
  }

  function BlockCount(g: Group): nat {
    if g == 0 then 8 else if g == 1 then 20 else 5
  }

  // What is left of an item behind its header.
  function Capacity(g: Group): nat {
    ItemSize(g) - 8
  }

  // Words from block to block: the item size rounded up to whole words.
  function BlockWords(g: Group): nat {
    (ItemSize(g) + 3) / 4
  }

  // The groups as their names say: 16, 52 and 142 bytes for the user.
  lemma GroupSizes()
    ensures Capacity(0) == 16 && Capacity(1) == 52 && Capacity(2) == 142
    ensures BlockCount(0) == 8 && BlockCount(1) == 20 && BlockCount(2) == 5
  {
  }

  // A block is the item raised to the next whole word, so behind its two header words there is room
  // for all the bytes that are granted.
  lemma BlockHoldsItem(g: Group)
    ensures ItemSize(g) <= 4 * BlockWords(g) < ItemSize(g) + 4
    ensures Capacity(g) <= 4 * (BlockWords(g) - 2)
  {
  }

  // The three areas, wherever the linker has put them.
  ghost predicate AreasApart(bases: seq<nat>, top: nat) {
    && |bases| == GROUPS
    && (forall g: Group :: 0 < bases[g] && bases[g] + BlockWords(g) * BlockCount(g) <= top)
    && forall g: Group, h: Group :: g != h ==>
         bases[g] + BlockWords(g) * BlockCount(g) <= bases[h] || bases[h] + BlockWords(h) * BlockCount(h) <= bases[g]
  }

  function GroupBlocks(bases: seq<nat>, g: Group): seq<int>
    requires |bases| == GROUPS
  {
    Strided(bases[g], BlockWords(g), BlockCount(g))
  }

  // Two different blocks have no word in common.
  lemma BlocksApart(bases: seq<nat>, top: nat, g: Group, a: int, h: Group, p: int)
    requires AreasApart(bases, top) && a in GroupBlocks(bases, g) && p in GroupBlocks(bases, h)
    ensures 0 < a && a + BlockWords(g) <= top
    ensures a != p || g != h ==> a + BlockWords(g) <= p || p + BlockWords(h) <= a
    ensures a == p ==> g == h
  {
    StridedSpacing(bases[g], BlockWords(g), BlockCount(g));
    StridedSpacing(bases[h], BlockWords(h), BlockCount(h));
    var s, t := GroupBlocks(bases, g), GroupBlocks(bases, h);
    var x, y :| 0 <= x < |s| && 0 <= y < |t| && s[x] == a && t[y] == p;
    if g == h { assert x == y || x < y || y < x; }
  }

  // So the bytes granted with block a lie inside the block and in no other one.
  lemma GrantedBytesApart(bases: seq<nat>, top: nat, g: Group, a: int, h: Group, p: int, x: nat)
    requires AreasApart(bases, top) && a in GroupBlocks(bases, g) && p in GroupBlocks(bases, h)
    requires x < Capacity(g)
    ensures var word := a + 2 + x / 4;
      && a + 2 <= word < a + BlockWords(g) <= top
      && (a != p ==> word < p || p + BlockWords(h) <= word)
  {
    BlockHoldsItem(g);
    BlocksApart(bases, top, g, a, h, p);
  }

  // Memory m holds the free lists, and the group index of every block that was ever handed out;
  // the others still have the 0 that memory starts with.
  ghost predicate ListOk(m: seq<Cell>, bases: seq<nat>, head: int, list: seq<int>, g: Group)
    requires |bases| == GROUPS
  {
    Linked(m, head, list) && forall a :: a in list ==> a in GroupBlocks(bases, g)
  }

  ghost predicate TagOk(m: seq<Cell>, a: int, g: Group, issued: set<int>) {
    && 0 <= a && a + 1 < |m|
    && m[a + 1] == if a in issued then g else 0
  }

  ghost predicate TagsOk(m: seq<Cell>, bases: seq<nat>, issued: set<int>)
    requires |bases| == GROUPS
  {
    forall g: Group, a :: a in GroupBlocks(bases, g) ==> TagOk(m, a, g, issued)
  }

  ghost predicate PoolsOk(m: seq<Cell>, bases: seq<nat>, heads: seq<Cell>, lists: seq<seq<int>>, issued: set<int>) {
    && AreasApart(bases, |m|) && |heads| == |lists| == GROUPS && |m| < 0x1_0000_0000
    && (forall g: Group :: ListOk(m, bases, heads[g], lists[g], g))
    && TagsOk(m, bases, issued)
    && forall g: Group, a :: a in GroupBlocks(bases, g) && a !in lists[g] ==> a in issued
  }

  // A change inside block p that keeps its group index, p not free, disturbs nothing.
  lemma BlockWrite(m: seq<Cell>, m': seq<Cell>, bases: seq<nat>, heads: seq<Cell>, lists: seq<seq<int>>,
                   issued: set<int>, h: Group, p: int)
    requires PoolsOk(m, bases, heads, lists, issued) && |m'| == |m|
    requires p in GroupBlocks(bases, h) && p !in lists[h]
    requires forall k :: 0 <= k < |m| && !(p <= k < p + BlockWords(h)) ==> m'[k] == m[k]
    requires m'[p + 1] == m[p + 1]
    ensures PoolsOk(m', bases, heads, lists, issued)
  {
    forall g: Group
      ensures ListOk(m', bases, heads[g], lists[g], g)
    {
      forall a | a in lists[g]
        ensures 0 <= a < |m| ==> m'[a] == m[a]
      {
        BlocksApart(bases, |m|, g, a, h, p);
      }
      LinkedFrame(m, m', heads[g], lists[g]);
    }
    forall g: Group, a | a in GroupBlocks(bases, g)
      ensures TagOk(m', a, g, issued)
    {
      assert TagOk(m, a, g, issued);
      BlocksApart(bases, |m|, g, a, h, p);
    }
  }

  // Taking the first block of group g.
  lemma PopKeeps(m: seq<Cell>, m': seq<Cell>, bases: seq<nat>, heads: seq<Cell>, lists: seq<seq<int>>,
                 issued: set<int>, g: Group)
    requires PoolsOk(m, bases, heads, lists, issued) && lists[g] != [] && |m'| == |m|
    requires 0 <= heads[g] && heads[g] + 1 < |m| && m' == m[heads[g] + 1 := g]
    ensures var p := lists[g][0];
      && p == heads[g] && p in GroupBlocks(bases, g) && p !in lists[g][1..]
      && PoolsOk(m', bases, heads[g := m[p]], lists[g := lists[g][1..]], issued + {p})
  {
    var p, heads', lists' := lists[g][0], heads[g := m[heads[g]]], lists[g := lists[g][1..]];
    var issued' := issued + {p};
    assert ListOk(m, bases, heads[g], lists[g], g);
    LinkedDistinct(m, heads[g], lists[g]);
    assert lists[g] == [p] + lists[g][1..];
    forall h: Group
      ensures ListOk(m', bases, heads'[h], lists'[h], h)
    {
      assert ListOk(m, bases, heads[h], lists[h], h);
      forall a | a in lists[h]
        ensures 0 <= a < |m| ==> m'[a] == m[a]
      {
        BlocksApart(bases, |m|, h, a, g, p);
      }
      LinkedFrame(m, m', heads'[h], lists'[h]);
    }
    forall h: Group, a | a in GroupBlocks(bases, h)
      ensures TagOk(m', a, h, issued') && (a !in lists'[h] ==> a in issued')
    {
      assert TagOk(m, a, h, issued);
      BlocksApart(bases, |m|, h, a, g, p);
    }
  }

  // Putting a block of group g back, with its group index in place.
  lemma PushKeeps(m: seq<Cell>, m': seq<Cell>, bases: seq<nat>, heads: seq<Cell>, lists: seq<seq<int>>,
                  issued: set<int>, g: Group, p: Cell)
    requires PoolsOk(m, bases, heads, lists, issued) && |m'| == |m|
    requires p in GroupBlocks(bases, g) && p !in lists[g] && p < |m| && m' == m[p := heads[g]]
    ensures PoolsOk(m', bases, heads[g := p], lists[g := [p] + lists[g]], issued)
  {
    var heads', lists' := heads[g := p], lists[g := [p] + lists[g]];
    forall h: Group
      ensures ListOk(m', bases, heads'[h], lists'[h], h)
    {
      assert ListOk(m, bases, heads[h], lists[h], h);
      forall a | a in lists[h]
        ensures a != p
      {
        BlocksApart(bases, |m|, h, a, g, p);
      }
      if h == g {
        BlocksApart(bases, |m|, g, p, g, p);
        LinkedPush(m, m', heads[g], lists[g], p);
      } else {
        LinkedFrame(m, m', heads[h], lists[h]);
      }
    }
    forall h: Group, a | a in GroupBlocks(bases, h)
      ensures TagOk(m', a, h, issued) && (a !in lists'[h] ==> a in issued)
    {
      assert TagOk(m, a, h, issued);
      BlocksApart(bases, |m|, h, a, g, p);
    }
  }

  // The largest request that can be met: the largest capacity of a group with a block left.
  function FreeMax(avail: seq<nat>): nat
    requires |avail| == GROUPS
  {
    if avail[2] > 0 then Capacity(2) else if avail[1] > 0 then Capacity(1) else if avail[0] > 0 then Capacity(0) else 0
  }

  // The first group that can meet a request; GROUPS if none can.
  function FirstGroup(avail: seq<nat>, size: nat): (g: nat)
    requires |avail| == GROUPS
    ensures g <= GROUPS
    ensures g < GROUPS ==> size <= Capacity(g) && avail[g] > 0
    ensures forall k: Group :: k < g ==> !(size <= Capacity(k) && avail[k] > 0)
  {
    if size <= Capacity(0) && avail[0] > 0 then 0
    else if size <= Capacity(1) && avail[1] > 0 then 1
    else if size <= Capacity(2) && avail[2] > 0 then 2
    else GROUPS
  }

  lemma RequestMetIff(avail: seq<nat>, size: nat)
    requires |avail| == GROUPS && size > 0
    ensures FirstGroup(avail, size) < GROUPS <==> size <= FreeMax(avail)
    ensures FreeMax(avail) <= MAX_BUFFER_SIZE
  {
  }

  // The group a block is given back to: the index it got when it was last handed out, or the 0 it
  // started with.
  ghost function FreeTag(g: Group, block: int, issued: set<int>): Group {
    if block in issued then g else 0
  }

  // So a free block that is given back again is recognised exactly when it has been handed out
  // before, or belongs to group 0.
  lemma DuplicateFreeSeenIff(m: seq<Cell>, bases: seq<nat>, heads: seq<Cell>, lists: seq<seq<int>>, issued: set<int>,
                             g: Group, block: int)
    requires PoolsOk(m, bases, heads, lists, issued) && block in lists[g]
    ensures block in lists[FreeTag(g, block, issued)] <==> block in issued || g == 0
  {
    var tag := FreeTag(g, block, issued);
    assert ListOk(m, bases, heads[g], lists[g], g);
    assert ListOk(m, bases, heads[tag], lists[tag], tag);
    if block in lists[tag] { BlocksApart(bases, |m|, g, block, tag, block); }
  }

  // Free and held blocks of a group add up to its blocks, and no block is free twice.
  lemma GroupConserved(m: seq<Cell>, bases: seq<nat>, heads: seq<Cell>, lists: seq<seq<int>>, issued: set<int>,
                       g: Group)
    requires PoolsOk(m, bases, heads, lists, issued)
    ensures Distinct(lists[g])
    ensures |lists[g]| + |Elements(GroupBlocks(bases, g)) - Elements(lists[g])| == BlockCount(g)
  {
    var bs := GroupBlocks(bases, g);
    assert ListOk(m, bases, heads[g], lists[g], g);
    LinkedDistinct(m, heads[g], lists[g]);
    DistinctCount(lists[g]);
    StridedSpacing(bases[g], BlockWords(g), BlockCount(g));
    DistinctCount(bs);
    assert Elements(lists[g]) <= Elements(bs);
    assert Elements(bs) == Elements(lists[g]) + (Elements(bs) - Elements(lists[g]));
  }

  // Memory in which every group's blocks are chained in order is a state with all of them free.
  lemma AllChained(m: seq<Cell>, bases: seq<nat>, heads: seq<Cell>, lists: seq<seq<int>>, issued: set<int>)
    requires AreasApart(bases, |m|) && |heads| == |lists| == GROUPS && |m| < 0x1_0000_0000
    requires TagsOk(m, bases, issued)
    requires forall g: Group :: heads[g] == bases[g] && lists[g] == GroupBlocks(bases, g) && Chained(m, lists[g])
    ensures PoolsOk(m, bases, heads, lists, issued)
  {
    forall g: Group
      ensures ListOk(m, bases, heads[g], lists[g], g)
    {
      LinkedChain(m, lists[g]);
    }
  }

  // Chaining the blocks of one group touches neither another group's chain nor any group index.
  lemma ChainFrame(m: seq<Cell>, m': seq<Cell>, bases: seq<nat>, issued: set<int>, g: Group)
    requires AreasApart(bases, |m|) && |m'| == |m| && TagsOk(m, bases, issued)
    requires forall x :: 0 <= x < |m| && x !in GroupBlocks(bases, g) ==> m'[x] == m[x]
    ensures TagsOk(m', bases, issued)
    ensures forall h: Group :: h != g && Chained(m, GroupBlocks(bases, h)) ==> Chained(m', GroupBlocks(bases, h))
  {
    assert |bases| == GROUPS;
    hide GroupBlocks, AreasApart, Chained;
    forall h: Group, a | a in GroupBlocks(bases, h)
      ensures TagOk(m', a, h, issued)
      ensures h != g ==> 0 <= a < |m| && m'[a] == m[a]
    {
      assert TagOk(m, a, h, issued);
      HeaderMissed(bases, |m|, h, a, g);
    }
    forall h: Group | h != g && Chained(m, GroupBlocks(bases, h))
      ensures Chained(m', GroupBlocks(bases, h))
    {
      ChainedSame(m, m', GroupBlocks(bases, h));
    }
  }

  lemma ChainedSame(m: seq<Cell>, m': seq<Cell>, s: seq<int>)
    requires Chained(m, s) && |m'| == |m| && forall a :: a in s ==> 0 <= a < |m| && m'[a] == m[a]
    ensures Chained(m', s)
  {
  }

  // The header of a block of group h meets no block of g, but for its first word where h is g.
  lemma HeaderMissed(bases: seq<nat>, top: nat, h: Group, a: int, g: Group)
    requires AreasApart(bases, top) && a in GroupBlocks(bases, h)
    ensures 0 < a && a + 1 < top
    ensures a + 1 !in GroupBlocks(bases, g) && (h != g ==> a !in GroupBlocks(bases, g))
  {
    BlocksApart(bases, top, h, a, h, a);
    forall p | p in GroupBlocks(bases, g)
      ensures a + 1 != p && (h != g ==> a != p)
    {
      BlocksApart(bases, top, h, a, g, p);
    }
  }

  lemma ListLengths(bases: seq<nat>)
    requires |bases| == GROUPS
    ensures forall g: Group :: |GroupBlocks(bases, g)| == BlockCount(g)
  {
  }

  class EvBuffers {
    const mem: array<Cell>
    const bases: seq<nat>
    // mempool.c: the head of each free list. ev_buffer.c: item sizes and cached counts.
    var freeList: seq<Cell>
    var size: seq<nat>
    var avail: seq<nat>
    ghost var lists: seq<seq<int>>
    ghost var issued: set<int>

    ghost predicate Valid()
      reads this, mem
    {
      && PoolsOk(mem[..], bases, freeList, lists, issued)
      && |size| == |avail| == GROUPS
      && forall g: Group :: size[g] == ItemSize(g) && avail[g] == |lists[g]|
    }

    // Memory starts with zeros; the three areas are given.
    constructor (words: nat, bases: seq<nat>)
      requires AreasApart(bases, words) && words < 0x1_0000_0000
      ensures fresh(mem) && Valid()
      ensures forall g: Group :: lists[g] == GroupBlocks(this.bases, g)
      ensures this.bases == bases && issued == {}
    {
      mem := new Cell[words](_ => 0);
      this.bases := bases;
      freeList, size, avail := [0, 0, 0], [0, 0, 0], [0, 0, 0];
      lists, issued := [[], [], []], {};
      new;
      AreasHoldHeaders(bases, words);
      Reset();
    }

    // ev_buf_reset: all blocks free again. The group indices stay in memory.
    method Reset()
      requires AreasApart(bases, mem.Length) && mem.Length < 0x1_0000_0000 && TagsOk(mem[..], bases, issued)
      modifies this, mem
      ensures Valid() && issued == old(issued) && avail == [8, 20, 5]
      ensures forall g: Group :: lists[g] == GroupBlocks(bases, g)
    {
      assert |bases| == GROUPS;
      hide AreasApart, TagsOk, Chained, GroupBlocks, ItemSize, BlockCount;
      freeList, size, avail := [0, 0, 0], [0, 0, 0], [0, 0, 0];
      for i := 0 to GROUPS
        invariant |freeList| == |size| == |avail| == GROUPS && issued == old(issued) && TagsOk(mem[..], bases, issued)
        invariant forall g: Group :: g < i ==> Started(g)
      {
        StartGroup(i);
      }
      lists := [GroupBlocks(bases, 0), GroupBlocks(bases, 1), GroupBlocks(bases, 2)];
      forall g: Group
        ensures freeList[g] == bases[g] && size[g] == ItemSize(g) && avail[g] == BlockCount(g)
        ensures lists[g] == GroupBlocks(bases, g) && Chained(mem[..], lists[g])
      {
        assert Started(g);
      }
      AllChained(mem[..], bases, freeList, lists, issued);
      ListLengths(bases);
    }

    // Group g as a reset leaves it.
    ghost predicate Started(g: Group)
      requires |bases| == |freeList| == |size| == |avail| == GROUPS
      reads `freeList, `size, `avail, mem
    {
      && freeList[g] == bases[g] && size[g] == ItemSize(g) && avail[g] == BlockCount(g)
      && Chained(mem[..], GroupBlocks(bases, g))
    }

    method StartGroup(i: Group)
      requires AreasApart(bases, mem.Length) && mem.Length < 0x1_0000_0000 && TagsOk(mem[..], bases, issued)
      requires |freeList| == |size| == |avail| == GROUPS
      requires forall g: Group :: g < i ==> Started(g)
      modifies `freeList, `size, `avail, mem
      ensures |freeList| == |size| == |avail| == GROUPS && TagsOk(mem[..], bases, issued)
      ensures forall g: Group :: g <= i ==> Started(g)
    {
      assert 0 < bases[i] < 0x1_0000_0000;
      hide AreasApart, TagsOk, Chained, GroupBlocks, ItemSize, BlockCount;
      avail := avail[i := BlockCount(i)];
      ghost var m := mem[..];
      MempoolInit(i);
      ChainFrame(m, mem[..], bases, issued, i);
      freeList := freeList[i := bases[i]];
      size := size[i := ItemSize(i)];
      forall g: Group | g <= i
        ensures Started(g)
      {
        if g < i { assert old(Started(g)); }
      }
    }

    // mempool_init on the area of a group.
    method MempoolInit(g: Group)
      requires AreasApart(bases, mem.Length) && mem.Length < 0x1_0000_0000
      modifies mem
      ensures Chained(mem[..], GroupBlocks(bases, g))
      ensures forall x :: 0 <= x < mem.Length && x !in GroupBlocks(bases, g) ==> mem[x] == old(mem[x])
    {
      hide Strided, Chained, ChainSoFar;
      var first, stride := bases[g], BlockWords(g);
      ghost var blocks, bs := BlockCount(g), GroupBlocks(bases, g);
      var tmp := first;
      var i := 0;
      GroupPlaces(bases, mem.Length, g, 0);
      ChainStarts(mem[..], bs, first);
      while i < BlockCount(g) - 1
        invariant 0 <= i < blocks && tmp == first + stride * i
        invariant ChainSoFar(mem[..], bs, i, first, tmp)
        invariant forall x :: 0 <= x < mem.Length && x !in bs ==> mem[x] == old(mem[x])
      {
        GroupPlaces(bases, mem.Length, g, i);
        GroupPlaces(bases, mem.Length, g, i + 1);
        NextMultiple(stride, i);
        ghost var m := mem[..];
        mem[tmp] := tmp + stride;
        ChainExtends(m, mem[..], bs, i, first, stride, blocks);
        tmp := tmp + stride;
        i := i + 1;
      }
      GroupPlaces(bases, mem.Length, g, i);
      ghost var m := mem[..];
      mem[tmp] := NULL;
      ChainEnds(m, mem[..], bs, first, stride, blocks);
    }

    ghost predicate IsBlock(a: int, g: Group)
      reads this
    {
      |bases| == GROUPS && a in GroupBlocks(bases, g)
    }

    // Whether block is in the free list of a group.
    method IsExisted(index: Group, block: nat) returns (r: bool)
      requires Valid()
      ensures r <==> block in lists[index]
    {
      var cur := freeList[index];
      ghost var rest := lists[index];
      assert ListOk(mem[..], bases, freeList[index], lists[index], index);
      while cur != NULL
        invariant Linked(mem[..], cur, rest)
        invariant block in lists[index] <==> block in rest
        decreases |rest|
      {
        if block == cur {
          return true;
        }
        assert rest == [rest[0]] + rest[1..];
        cur, rest := mem[cur], rest[1..];
      }
      return false;
    }

    method GetFreeMaxSize() returns (max: U16)
      requires Valid()
      ensures max == FreeMax(avail)
    {
      max := 0;
      for i := 0 to GROUPS
        invariant i == 0 ==> max == 0
        invariant i == 1 ==> max == if avail[0] > 0 then Capacity(0) else 0
        invariant i == 2 ==> max == if avail[1] > 0 then Capacity(1) else if avail[0] > 0 then Capacity(0) else 0
        invariant i == 3 ==> max == FreeMax(avail)
      {
        if avail[i] > 0 {
          if size[i] - 8 > max {
            max := size[i] - 8;
          }
        }
      }
    }

    // A block that was handed out and not given back.
    ghost predicate Held(block: int, g: Group)
      reads this, mem
      requires Valid()
    {
      IsBlock(block, g) && block !in lists[g]
    }

    // The data pointer of a block of the first group that can meet the request, or NULL.
    method Allocate(request: U16) returns (pd: nat)
      requires Valid()
      modifies this, mem
      ensures Valid()
      ensures var g := FirstGroup(old(avail), request);
        if request == 0 || g == GROUPS then
          pd == NULL && mem[..] == old(mem[..]) && lists == old(lists) && avail == old(avail) && issued == old(issued)
        else
          && old(lists)[g] != [] && pd == old(lists)[g][0] + 2 && Held(pd - 2, g)
          && lists == old(lists)[g := old(lists)[g][1..]] && avail == old(avail)[g := old(avail)[g] - 1]
          && issued == old(issued) + {pd - 2} && request <= Capacity(g) <= 4 * (BlockWords(g) - 2)
          && (forall k: Group :: k < g ==> !(request <= Capacity(k) && old(avail)[k] > 0))
          && pd < mem.Length && mem[..] == old(mem[..])[pd - 1 := g as Cell]
      ensures pd != NULL <==> 0 < request <= FreeMax(old(avail))
    {
      if request == 0 || request > MAX_BUFFER_SIZE {
        if request > 0 { RequestMetIff(avail, request); }
        return NULL;
      }
      RequestMetIff(avail, request);
      var index := 0xff;
      for i := 0 to GROUPS
        invariant index == 0xff
        invariant forall g: Group :: g < i ==> !(request <= Capacity(g) && avail[g] > 0)
        invariant Valid() && mem[..] == old(mem[..])
        invariant lists == old(lists) && avail == old(avail) && issued == old(issued)
      {
        if request <= size[i] - 8 && avail[i] > 0 {
          index := i;
          break;
        }
      }
      if index == 0xff {
        return NULL;
      }
      BlockHoldsItem(index);
      var temp := freeList[index];
      TakeBlock(index);
      pd := temp + 2;
    }

    // The block at the head of a group's list leaves it and gets the group's index.
    method TakeBlock(g: Group)
      requires Valid() && avail[g] > 0
      modifies `freeList, `avail, `lists, `issued, mem
      ensures Valid()
      ensures old(lists)[g] != [] && old(freeList)[g] == old(lists)[g][0] && Held(old(freeList)[g], g)
      ensures lists == old(lists)[g := old(lists)[g][1..]] && avail == old(avail)[g := old(avail)[g] - 1]
      ensures issued == old(issued) + {old(lists)[g][0]}
      ensures old(freeList)[g] + 2 < mem.Length && mem[..] == old(mem[..])[old(freeList)[g] + 1 := g as Cell]
    {
      ghost var m := mem[..];
      assert ListOk(m, bases, freeList[g], lists[g], g);
      var temp := freeList[g];
      BlocksApart(bases, |m|, g, temp, g, temp);
      PopKeeps(m, m[temp + 1 := g as Cell], bases, freeList, lists, issued, g);
      freeList := freeList[g := mem[temp]];
      avail := avail[g := avail[g] - 1];
      mem[temp + 1] := g;
      issued := issued + {lists[g][0]};
      lists := lists[g := lists[g][1..]];
      assert mem[..] == m[temp + 1 := g as Cell];
    }

    // Giving back a block by its data pointer. The group is the index word in front of the data,
    // so what happens to a block depends on that word alone: with the right index a free block is
    // recognised and nothing changes; a block never handed out has index 0, and one of another
    // group is then put into group 0's list on top of its own.
    method Free(pd: nat, ghost g: Group) returns (r: Status)
      requires Valid() && pd >= 2 && IsBlock(pd - 2, g)
      modifies this, mem
      ensures size == old(size) && issued == old(issued)
      ensures r == if (pd - 2) in old(lists)[FreeTag(g, pd - 2, issued)] then DuplicateFree else Succ
      ensures r == DuplicateFree ==>
        Valid() && mem[..] == old(mem[..]) && freeList == old(freeList) && lists == old(lists) && avail == old(avail)
      ensures r == Succ ==>
        var tag := FreeTag(g, pd - 2, issued);
        && freeList == old(freeList)[tag := (pd - 2) as Cell] && avail == old(avail)[tag := old(avail)[tag] + 1]
        && mem[..] == old(mem[..])[pd - 2 := old(freeList)[tag]]
      ensures r == Succ && pd - 2 in old(issued) ==>
        Valid() && lists == old(lists)[g := [(pd - 2) as int] + old(lists)[g]]
    {
      ghost var m, p := mem[..], pd - 2;
      assert TagOk(m, p, g, issued);
      BlocksApart(bases, |m|, g, p, g, p);
      var head := pd - 2;
      var groupIndex := mem[head + 1];
      var existed := IsExisted(groupIndex, head);
      if existed {
        return DuplicateFree;
      }
      var block := MempoolHeader(RetrieveMempoolHeader(pd));
      if p in issued {
        PushKeeps(m, m[p := freeList[g]], bases, freeList, lists, issued, g, p as Cell);
      }
      mem[block] := freeList[groupIndex];
      freeList := freeList[groupIndex := block];
      avail := avail[groupIndex := avail[groupIndex] + 1];
      if p in issued {
        lists := lists[g := [p as int] + lists[g]];
      }
      assert mem[..] == m[p := old(freeList)[groupIndex]];
      return Succ;
    }
  }

  lemma GroupPlaces(bases: seq<nat>, top: nat, g: Group, i: nat)
    requires AreasApart(bases, top) && i < BlockCount(g)
    ensures var a := bases[g] + BlockWords(g) * i;
      a in GroupBlocks(bases, g) && 0 < a && a + BlockWords(g) <= top
  {
    StridedAt(bases[g], BlockWords(g), BlockCount(g), i);
    var a := GroupBlocks(bases, g)[i];
    assert a in GroupBlocks(bases, g);
    BlocksApart(bases, top, g, a, g, a);
  }

  lemma ChainStarts(m: seq<Cell>, bs: seq<int>, first: nat)
    requires bs != []
    ensures ChainSoFar(m, bs, 0, first, first)
  {
  }

  lemma AreasHoldHeaders(bases: seq<nat>, words: nat)
    requires AreasApart(bases, words)
    ensures forall m: seq<Cell> :: |m| == words && (forall x :: 0 <= x < words ==> m[x] == 0) ==> TagsOk(m, bases, {})
  {
    forall g: Group, a | a in GroupBlocks(bases, g)
      ensures 0 <= a && a + 1 < words
    {
      BlocksApart(bases, words, g, a, g, a);
    }
  }

  // From the data of an event buffer to the data of its memory-pool block, which is one word
  // lower, and from there to the block.
  function RetrieveMempoolHeader(pd: nat): nat
    requires pd >= 2
  {
    pd - (2 - 1)
  }

  function MempoolHeader(pd: nat): nat
    requires pd >= 1
  {
    pd - 1
  }
}
