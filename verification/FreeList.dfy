/** Free lists threaded through the memory they manage: the first word of a free block holds the
    address of the next one, and 0 ends the list. Addresses are word indices. */
module FreeList {

  type Cell = x: int | 0 <= x < 0x1_0000_0000

  const NULL := 0

  // The blocks reached from head, in order, are exactly list.
  ghost predicate Linked(mem: seq<Cell>, head: int, list: seq<int>)
    decreases |list|
  {
    if list == [] then head == NULL
    else head == list[0] && 0 < head < |mem| && Linked(mem, mem[head], list[1..])
  }

  ghost predicate Distinct(list: seq<int>) {
    forall i, j :: 0 <= i < j < |list| ==> list[i] != list[j]
  }

  // From one head there is one list.
  lemma {:induction false} LinkedUnique(mem: seq<Cell>, head: int, s: seq<int>, t: seq<int>)
    requires Linked(mem, head, s) && Linked(mem, head, t)
    ensures s == t
    decreases |s|
  {
    if s != [] && t != [] {
      LinkedUnique(mem, mem[head], s[1..], t[1..]);
      assert s == [s[0]] + s[1..] && t == [t[0]] + t[1..];
    }
  }

  lemma {:induction false} LinkedSuffix(mem: seq<Cell>, head: int, list: seq<int>, i: nat)
    requires Linked(mem, head, list) && i < |list|
    ensures Linked(mem, list[i], list[i..])
    decreases i
  {
    if i > 0 {
      LinkedSuffix(mem, mem[head], list[1..], i - 1);
      assert list[1..][i - 1..] == list[i..];
    }
  }

  // A list that ends has no cycle: a block met twice would have the same blocks after it twice.
  lemma LinkedDistinct(mem: seq<Cell>, head: int, list: seq<int>)
    requires Linked(mem, head, list)
    ensures Distinct(list)
  {
    forall i, j | 0 <= i < j < |list|
      ensures list[i] != list[j]
    {
      if list[i] == list[j] {
        LinkedSuffix(mem, head, list, i);
        LinkedSuffix(mem, head, list, j);
        LinkedUnique(mem, list[i], list[i..], list[j..]);
      }
    }
  }

  // Writes that miss the listed blocks leave the list alone.
  lemma {:induction false} LinkedFrame(mem: seq<Cell>, mem': seq<Cell>, head: int, list: seq<int>)
    requires Linked(mem, head, list) && |mem| == |mem'|
    requires forall a :: a in list ==> 0 <= a < |mem| ==> mem[a] == mem'[a]
    ensures Linked(mem', head, list)
    decreases |list|
  {
    if list != [] {
      assert head in list;
      assert forall a :: a in list[1..] ==> a in list;
      LinkedFrame(mem, mem', mem[head], list[1..]);
    }
  }

  // Putting a block in front.
  lemma LinkedPush(mem: seq<Cell>, mem': seq<Cell>, head: int, list: seq<int>, p: int)
    requires Linked(mem, head, list) && |mem| == |mem'| && 0 < p < |mem|
    requires p !in list && mem'[p] == head
    requires forall a :: a in list ==> 0 <= a < |mem| ==> mem[a] == mem'[a]
    ensures Linked(mem', p, [p] + list)
  {
    LinkedFrame(mem, mem', head, list);
    assert ([p] + list)[1..] == list;
  }

  // count addresses, stride apart.
  function Strided(start: nat, stride: nat, count: nat): (s: seq<int>)
    ensures |s| == count
    decreases count
  {
    if count == 0 then [] else [start] + Strided(start + stride, stride, count - 1)
  }

  // Addresses at least stride apart, each the start of stride words between start and end.
  ghost predicate Spaced(s: seq<int>, start: int, stride: nat, end: int) {
    && (forall i :: 0 <= i < |s| ==> start <= s[i] && s[i] + stride <= end)
    && forall i, j :: 0 <= i < j < |s| ==> s[i] + stride <= s[j]
  }

  lemma {:induction false} StridedSpacing(start: nat, stride: nat, count: nat)
    ensures Spaced(Strided(start, stride, count), start, stride, start + stride * count)
    decreases count
  {
    if count > 0 {
      var end, rest := start + stride * count, Strided(start + stride, stride, count - 1);
      StridedSpacing(start + stride, stride, count - 1);
      assert stride * count == stride + stride * (count - 1);
      assert stride * (count - 1) >= 0;
      SpacedCons(rest, start, stride, end);
    }
  }

  lemma SpacedCons(rest: seq<int>, start: int, stride: nat, end: int)
    requires Spaced(rest, start + stride, stride, end) && start + stride <= end
    ensures Spaced([start] + rest, start, stride, end)
  {
    var s := [start] + rest;
    forall i | 0 <= i < |s|
      ensures start <= s[i] && s[i] + stride <= end
    {
      if i > 0 { assert s[i] == rest[i - 1]; }
    }
    forall i, j | 0 <= i < j < |s|
      ensures s[i] + stride <= s[j]
    {
      assert s[j] == rest[j - 1];
      if i > 0 { assert s[i] == rest[i - 1]; }
    }
  }

  lemma {:induction false} StridedAt(start: nat, stride: nat, count: nat, i: nat)
    requires i < count
    ensures Strided(start, stride, count)[i] == start + stride * i
    decreases count
  {
    if i > 0 {
      StridedAt(start + stride, stride, count - 1, i - 1);
      assert stride * i == stride + stride * (i - 1);
    }
  }

  // Blocks each of which holds the address of the next are a list.
  lemma {:induction false} LinkedChain(mem: seq<Cell>, s: seq<int>)
    requires Chained(mem, s)
    ensures Linked(mem, s[0], s)
    decreases |s|
  {
    if |s| > 1 {
      LinkedChain(mem, s[1..]);
    } else {
      assert s[1..] == [];
    }
  }

  // Each block holds the address of the next, the last one NULL.
  ghost predicate Chained(m: seq<Cell>, s: seq<int>) {
    && s != []
    && (forall i :: 0 <= i < |s| ==> 0 < s[i] < |m|)
    && (forall i :: 0 <= i < |s| - 1 ==> m[s[i]] == s[i + 1])
    && m[s[|s| - 1]] == NULL
  }

  // The first c blocks are linked, each to its successor.
  ghost predicate ChainSoFar(m: seq<Cell>, bs: seq<int>, c: nat, first: nat, next: int)
    requires c < |bs|
  {
    forall x :: 0 <= x < c ==> first <= bs[x] < next && bs[x] < |m| && m[bs[x]] == bs[x + 1]
  }

  lemma ChainExtends(m: seq<Cell>, m': seq<Cell>, bs: seq<int>, c: nat, first: nat, stride: nat, blocks: nat)
    requires bs == Strided(first, stride, blocks) && c + 1 < blocks
    requires first + stride * c < |m| && first + stride * c + stride < 0x1_0000_0000
    requires m' == m[first + stride * c := first + stride * c + stride]
    requires stride >= 2 ==> ChainSoFar(m, bs, c, first, first + stride * c)
    ensures stride >= 2 ==> ChainSoFar(m', bs, c + 1, first, first + stride * (c + 1))
  {
    StridedAt(first, stride, blocks, c);
    StridedAt(first, stride, blocks, c + 1);
    NextMultiple(stride, c);
  }

  lemma ChainEnds(m: seq<Cell>, m': seq<Cell>, bs: seq<int>, first: nat, stride: nat, blocks: nat)
    requires bs == Strided(first, stride, blocks) && 0 < first && stride >= 2 && blocks > 0
    requires first + stride * (blocks - 1) < |m|
    requires m' == m[first + stride * (blocks - 1) := NULL]
    requires ChainSoFar(m, bs, blocks - 1, first, first + stride * (blocks - 1))
    ensures Chained(m', bs)
  {
    StridedAt(first, stride, blocks, blocks - 1);
  }

  lemma NextMultiple(x: nat, y: int)
    ensures x * (y + 1) == x * y + x
  {
  }

  function Elements(s: seq<int>): set<int> {
    set x | x in s
  }

  lemma {:induction false} DistinctCount(s: seq<int>)
    requires Distinct(s)
    ensures |Elements(s)| == |s|
    decreases |s|
  {
    if s != [] {
      DistinctCount(s[1..]);
      assert s == [s[0]] + s[1..];
      assert Elements(s) == {s[0]} + Elements(s[1..]);
    }
  }
}
