/** The FIFO of common/utility.c: num slots of size bytes, two pointers of one byte that run on and
    wrap, and slots picked by a mask. A slot holds a length in two bytes and that many bytes. */
module MyFifo {
  import opened Machine
  import opened Bits

  const NULL := 0

  // ---------------------------------------------------------------- slots

  // The slot of the entry at a position; positions count entries without bound.
  function SlotOf(position: nat, num: nat): nat
    requires num > 0
  {
    BitAnd(position % 256, num - 1)
  }

  ghost predicate IsPow2(n: nat) {
    exists k: nat :: n == Pow2(k)
  }

  // Positions that can be in the FIFO together have slots of their own.
  ghost predicate SlotsApart(num: nat)
    requires num > 0
  {
    forall a: nat, b: nat :: a < b < a + num ==> SlotOf(a, num) != SlotOf(b, num)
  }

  lemma {:induction false} AndBelow(x: nat, y: nat)
    ensures BitAnd(x, y) <= y
    decreases x + y
  {
    if x > 0 || y > 0 { AndBelow(x / 2, y / 2); }
  }

  // For a power of two up to 128 the mask is the remainder, across the wrap of the pointers.
  lemma SlotIsRemainder(position: nat, k: nat)
    requires k <= 8
    ensures SlotOf(position, Pow2(k)) == position % Pow2(k)
  {
    AndMask(position % 256, k);
    ShrIsDiv(position % 256, k);
    hide BitAnd, Low, Shr, Pow2;
    Pow2Add(8 - k, k);
    Pow2Facts();
    WrapKeeps(position, Pow2(8 - k), Pow2(k));
  }

  lemma WrapKeeps(x: nat, e: nat, d: nat)
    requires d > 0 && e * d == 256
    ensures x % 256 % d == x % d
  {
    var q, r := x / 256, x % 256;
    var s, t := r / d, r % d;
    assert q * 256 == q * (e * d) == (q * e) * d;
    assert (q * e + s) * d == (q * e) * d + s * d;
    DivModUnique(x, d, q * e + s, t);
  }

  lemma RemaindersApart(a: nat, b: nat, num: nat)
    requires a < b < a + num
    ensures a % num != b % num
  {
    if a % num == b % num {
      var x, y := a / num, b / num;
      assert a == num * x + a % num && b == num * y + a % num;
      assert b - a == num * (y - x);
      if y - x >= 1 { MulMonotone(1, y - x, num); } else { MulMonotone(y - x, 0, num); }
      assert false;
    }
  }

  // The lowest bit that is 0.
  function LowestZero(x: nat): (z: nat)
    ensures z > 0
  {
    if x % 2 == 0 then 1 else 2 * LowestZero(x / 2)
  }

  lemma AndNone(y: nat)
    ensures BitAnd(0, y) == 0
    decreases y
  {
    if y > 0 { AndNone(y / 2); }
  }

  // It is a power of two, not in x, and not above x unless x is all ones.
  lemma {:induction false} LowestZeroLaws(x: nat)
    ensures IsPow2(LowestZero(x)) && BitAnd(LowestZero(x), x) == 0
    ensures LowestZero(x) <= x || LowestZero(x) == x + 1
    decreases x
  {
    if x % 2 == 0 {
      assert 1 == Pow2(0);
      AndNone(x / 2);
    } else {
      LowestZeroLaws(x / 2);
      var k: nat :| LowestZero(x / 2) == Pow2(k);
      assert LowestZero(x) == Pow2(k + 1);
    }
  }

  lemma RemaindersSlots(a: nat, b: nat, num: nat, k: nat)
    requires k < 8 && num == Pow2(k) > 0 && a < b < a + num
    ensures SlotOf(a, num) != SlotOf(b, num)
  {
    hide SlotOf, Pow2;
    SlotIsRemainder(a, k);
    SlotIsRemainder(b, k);
    RemaindersApart(a, b, num);
  }

  // The mask keeps the slots apart exactly for powers of two: for any other number there are two
  // positions less than num apart with the same slot.
  lemma SlotsApartIff(num: nat)
    requires 0 < num < 256
    ensures SlotsApart(num) <==> IsPow2(num)
  {
    if IsPow2(num) {
      var k: nat :| num == Pow2(k);
      if k >= 8 { Pow2Monotone(8, k); Pow2Facts(); }
      forall a: nat, b: nat | a < b < a + num
        ensures SlotOf(a, num) != SlotOf(b, num)
      {
        RemaindersSlots(a, b, num, k);
      }
    } else {
      var d := LowestZero(num - 1);
      LowestZeroLaws(num - 1);
      AndNone(num - 1);
      assert 0 < d < 0 + num;
      assert SlotOf(0, num) == SlotOf(d, num);
    }
  }

  // ---------------------------------------------------------------- entries

  // An entry as it stands in memory at o.
  ghost predicate Holds(m: seq<Byte>, o: nat, size: nat, data: seq<Byte>) {
    && |data| + 2 <= size && |data| < 0x1_0000 && o + size <= |m|
    && m[o] as int + 256 * m[o + 1] as int == |data|
    && m[o + 2..o + 2 + |data|] == data
  }

  // The bytes my_fifo_push writes.
  function Image(data: seq<Byte>): (r: seq<Byte>)
    ensures |r| == |data| + 2
  {
    [|data| % 256, |data| / 256 % 256] + data
  }

  function Written(m: seq<Byte>, o: nat, data: seq<Byte>): (r: seq<Byte>)
    requires o + |data| + 2 <= |m|
    ensures |r| == |m|
  {
    m[..o] + Image(data) + m[o + |data| + 2..]
  }

  // What the guard lets through is stored right exactly when it fits behind the two length bytes
  // and its length fits into them. The guard only asks for less than size bytes.
  lemma StoredIff(m: seq<Byte>, o: nat, size: nat, data: seq<Byte>)
    requires |data| < size && o + size < |m|
    ensures Holds(Written(m, o, data), o, size, data) <==> |data| + 2 <= size && |data| < 0x1_0000
  {
    var w := Written(m, o, data);
    assert w[o] == |data| % 256 && w[o + 1] == |data| / 256 % 256;
    assert w[o + 2..o + 2 + |data|] == data;
  }

  // Bytes outside the slot stay as they are exactly if the data fits, or the one byte that sticks
  // out happens to be there already.
  lemma OutsideUntouchedIff(m: seq<Byte>, o: nat, size: nat, data: seq<Byte>)
    requires 0 < |data| < size && o + size < |m|
    ensures (forall x :: 0 <= x < |m| && !(o <= x < o + size) ==> Written(m, o, data)[x] == m[x]) <==>
            |data| + 2 <= size || m[o + size] == data[|data| - 1]
  {
    var w := Written(m, o, data);
    if |data| + 2 > size {
      assert w[o + size] == data[|data| - 1];
    }
  }

  lemma WrittenInside(m: seq<Byte>, o: nat, size: nat, data: seq<Byte>)
    requires o + size <= |m| && |data| + 2 <= size
    ensures forall x :: 0 <= x < |m| && !(o <= x < o + size) ==> Written(m, o, data)[x] == m[x]
  {
  }

  // A run of bytes that misses an entry leaves it alone.
  lemma HoldsFrame(m: seq<Byte>, m': seq<Byte>, o: nat, size: nat, data: seq<Byte>)
    requires Holds(m, o, size, data) && |m'| == |m|
    requires forall x :: o <= x < o + size ==> m'[x] == m[x]
    ensures Holds(m', o, size, data)
  {
    assert m'[o + 2..o + 2 + |data|] == m[o + 2..o + 2 + |data|];
  }

  // Where the entry at a position starts.
  function Start(p: nat, size: nat, num: nat, position: nat): nat
    requires num > 0
  {
    p + SlotOf(position, num) * size
  }

  lemma StartInside(p: nat, size: nat, num: nat, position: nat)
    requires num > 0
    ensures p <= Start(p, size, num, position) <= p + num * size - size
  {
    var s := SlotOf(position, num);
    AndBelow(position % 256, num - 1);
    hide SlotOf;
    SlotInside(s, num, size);
  }

  lemma SlotInside(s: nat, num: nat, size: nat)
    requires s < num
    ensures 0 <= s * size <= num * size - size
  {
    MulMonotone(s, num - 1, size);
    MulMonotone(0, s, size);
    assert (num - 1) * size == num * size - size;
  }

  lemma StartsApart(p: nat, size: nat, num: nat, a: nat, b: nat)
    requires num > 0 && SlotsApart(num) && a < b < a + num
    ensures var s, t := Start(p, size, num, a), Start(p, size, num, b);
      s + size <= t || t + size <= s
  {
    var s, t := SlotOf(a, num), SlotOf(b, num);
    assert s != t;
    hide SlotOf, SlotsApart;
    if s < t { SlotsOrder(size, s, t); } else { SlotsOrder(size, t, s); }
  }

  lemma SlotsOrder(size: nat, s: nat, t: nat)
    requires s < t
    ensures s * size + size <= t * size
  {
    MulMonotone(s + 1, t, size);
    assert (s + 1) * size == s * size + size;
  }

  // The queue's entries are in memory, from position popped on.
  ghost predicate Stored(m: seq<Byte>, p: nat, size: nat, num: nat, popped: nat, queue: seq<seq<Byte>>)
    requires num > 0
  {
    forall i :: 0 <= i < |queue| ==> Holds(m, Start(p, size, num, popped + i), size, queue[i])
  }

  // Changing a slot that no entry is in.
  lemma FreeSlotWrite(m: seq<Byte>, m': seq<Byte>, p: nat, size: nat, num: nat, popped: nat, queue: seq<seq<Byte>>)
    requires num > 0 && SlotsApart(num) && |queue| < num && |m'| == |m|
    requires Stored(m, p, size, num, popped, queue)
    requires var o := Start(p, size, num, popped + |queue|);
      forall x :: 0 <= x < |m| && !(o <= x < o + size) ==> m'[x] == m[x]
    ensures Stored(m', p, size, num, popped, queue)
  {
    hide Holds, Start, SlotsApart;
    forall i | 0 <= i < |queue|
      ensures Holds(m', Start(p, size, num, popped + i), size, queue[i])
    {
      StartsApart(p, size, num, popped + i, popped + |queue|);
      assert Holds(m, Start(p, size, num, popped + i), size, queue[i]);
      HoldsWithin(m, Start(p, size, num, popped + i), size, queue[i]);
      HoldsFrame(m, m', Start(p, size, num, popped + i), size, queue[i]);
    }
  }

  lemma HoldsWithin(m: seq<Byte>, o: nat, size: nat, data: seq<Byte>)
    requires Holds(m, o, size, data)
    ensures o + size <= |m|
  {
  }

  lemma StoredMore(m: seq<Byte>, p: nat, size: nat, num: nat, popped: nat, queue: seq<seq<Byte>>, data: seq<Byte>)
    requires num > 0 && Stored(m, p, size, num, popped, queue)
    requires Holds(m, Start(p, size, num, popped + |queue|), size, data)
    ensures Stored(m, p, size, num, popped, queue + [data])
  {
    hide Holds, Start;
  }

  lemma StoredLess(m: seq<Byte>, p: nat, size: nat, num: nat, popped: nat, queue: seq<seq<Byte>>)
    requires num > 0 && Stored(m, p, size, num, popped, queue) && queue != []
    ensures Stored(m, p, size, num, popped + 1, queue[1..])
  {
    hide Holds, Start;
    forall i | 0 <= i < |queue| - 1
      ensures Holds(m, Start(p, size, num, popped + 1 + i), size, queue[1..][i])
    {
      assert Holds(m, Start(p, size, num, popped + (i + 1)), size, queue[i + 1]);
    }
  }

  // ---------------------------------------------------------------- the FIFO

  // A pointer of one byte, one on.
  function Next(x: Byte): Byte {
    if x == 255 then 0 else x + 1
  }

  // How far the write pointer is ahead.
  function Ahead(w: Byte, r: Byte): nat {
    (w - r) % 256
  }

  lemma NoneAhead(x: Byte)
    ensures Ahead(x, x) == 0
  {
  }

  // Positions n apart are n modulo 256 apart as byte pointers.
  lemma AheadIsRemainder(position: nat, n: nat)
    ensures Ahead((position + n) % 256, position % 256) == n % 256
  {
    var w, r := (position + n) % 256, position % 256;
    var q := (position + n) / 256 - position / 256;
    assert n == 256 * q + (w - r);
    DivModUnique(w - r, 256, if w >= r then 0 else -1, Ahead(w, r));
    DivModUnique(n, 256, if w >= r then q else q - 1, Ahead(w, r));
  }

  lemma NextIsOneOn(position: nat)
    ensures Next(position % 256) == (position + 1) % 256
  {
    var q, r := position / 256, position % 256;
    if r == 255 {
      DivModUnique(position + 1, 256, q + 1, 0);
    } else {
      DivModUnique(position + 1, 256, q, r + 1);
    }
  }

  lemma AheadIsCount(pushed: nat, popped: nat)
    requires popped <= pushed < popped + 256
    ensures Ahead(pushed % 256, popped % 256) == pushed - popped
    ensures Next(pushed % 256) == (pushed + 1) % 256
    ensures Next(popped % 256) == (popped + 1) % 256
    ensures pushed == popped ==> Ahead(pushed % 256, Next(popped % 256)) == 255
    ensures pushed % 256 == popped % 256 <==> pushed == popped
  {
    NoneAhead(pushed % 256);
    hide Ahead, Next;
    AheadIsRemainder(popped, pushed - popped);
    NextIsOneOn(pushed);
    NextIsOneOn(popped);
    if pushed == popped {
      AheadIsRemainder(popped + 1, 255);
      DivModUnique(popped + 256, 256, popped / 256 + 1, popped % 256);
    }
  }

  // The guard sees a full FIFO exactly if there are fewer than 256 slots. The struct has room for
  // larger numbers.
  lemma FullSeenIff(num: nat, popped: nat)
    ensures Ahead((popped + num) % 256, popped % 256) >= num <==> num < 256
  {
    hide Ahead;
    AheadIsRemainder(popped, num);
    if num < 256 { DivModUnique(num, 256, 0, num); }
  }

  class Fifo {
    const mem: array<Byte>
    var size: nat
    var num: Byte
    var wptr: Byte
    var rptr: Byte
    var p: nat
    // What is in the FIFO, and how many entries have ever left it.
    ghost var queue: seq<seq<Byte>>
    ghost var popped: nat

    ghost predicate Shape()
      reads this
    {
      && 0 < num && IsPow2(num) && 2 <= size && 0 < p && p + num * size < mem.Length
      && |queue| <= num && wptr == (popped + |queue|) % 256 && rptr == popped % 256
    }

    ghost predicate Valid()
      reads this, mem
    {
      Shape() && Stored(mem[..], p, size, num, popped, queue)
    }

    // The slot the next entry will go to.
    ghost function Free(): nat
      requires num > 0
      reads this
    {
      Start(p, size, num, popped + |queue|)
    }

    constructor (mem: array<Byte>)
      ensures this.mem == mem
    {
      this.mem := mem;
      size, num, wptr, rptr, p := 0, 0, 0, 0, 0;
      queue, popped := [], 0;
    }

    // my_fifo_init takes any size and any number of slots. The FIFO works as a queue for a power of
    // two of slots, with room for the length bytes in each and at least one byte behind them all.
    method Init(s: nat, n: Byte, p: nat)
      modifies this
      ensures size == s && num == n && this.p == p && wptr == rptr == 0 && queue == []
      ensures Valid() <==> IsPow2(n) && 2 <= s && 0 < p && p + n * s < mem.Length
    {
      size, num, wptr, rptr, this.p := s, n, 0, 0, p;
      queue, popped := [], 0;
    }

    // The free slot, or NULL if there is none.
    method Wptr() returns (pd: nat)
      requires Valid()
      ensures pd == if |queue| < num then Free() else NULL
      ensures pd != NULL <==> |queue| < num
    {
      PointersMean();
      if Ahead(wptr, rptr) < num {
        SlotAtPointer(popped + |queue|, wptr);
        return p + BitAnd(wptr, num - 1) * size;
      }
      return NULL;
    }

    // The same, but the last three slots are kept for others.
    method WptrV2() returns (pd: nat)
      requires Valid()
      ensures pd == if |queue| < num - 3 then Free() else NULL
      ensures pd != NULL <==> |queue| + 3 < num
    {
      PointersMean();
      if Ahead(wptr, rptr) < num - 3 {
        SlotAtPointer(popped + |queue|, wptr);
        return p + BitAnd(wptr, num - 1) * size;
      }
      return NULL;
    }

    // The entry written into the free slot by the caller becomes part of the queue.
    method Enter(ghost data: seq<Byte>)
      requires Valid() && |queue| < num && Holds(mem[..], Free(), size, data)
      modifies this
      ensures Valid() && queue == old(queue) + [data]
      ensures size == old(size) && num == old(num) && p == old(p)
    {
      hide Holds, Start;
      PointersMean();
      StoredMore(mem[..], p, size, num, popped, queue, data);
      wptr := Next(wptr);
      queue := queue + [data];
    }

    // my_fifo_push. Refused if there is no slot or too much data, and otherwise stored; what fits
    // behind the length bytes joins the queue.
    method Push(data: seq<Byte>) returns (r: int)
      requires Valid()
      modifies this, mem
      ensures size == old(size) && num == old(num) && p == old(p) && rptr == old(rptr) && popped == old(popped)
      ensures r == if |old(queue)| == num || |data| >= size then -1 else 0
      ensures r == -1 ==> Valid() && queue == old(queue) && mem[..] == old(mem[..]) && wptr == old(wptr)
      ensures r == 0 ==> old(Free()) + |data| + 2 <= mem.Length && mem[..] == Written(old(mem[..]), old(Free()), data)
      ensures r == 0 ==> wptr == Next(old(wptr))
      ensures r == 0 && |data| + 2 <= size && |data| < 0x1_0000 ==> Valid() && queue == old(queue) + [data]
    {
      hide Holds, Start, SlotsApart, Written, SlotOf;
      PointersMean();
      if Ahead(wptr, rptr) >= num {
        return -1;
      }
      if |data| >= size {
        return -1;
      }
      SlotAtPointer(popped + |queue|, wptr);
      StartInside(p, size, num, popped + |queue|);
      ghost var m, o := mem[..], Free();
      var pd := p + BitAnd(wptr, num - 1) * size;
      wptr := Next(wptr);
      CopyIn(pd, data);
      if |data| + 2 <= size && |data| < 0x1_0000 {
        StoredIff(m, o, size, data);
        WrittenInside(m, o, size, data);
        FreeSlotWrite(m, mem[..], p, size, num, popped, queue);
        StoredMore(mem[..], p, size, num, popped, queue, data);
        queue := queue + [data];
      }
      return 0;
    }

    method CopyIn(pd: nat, data: seq<Byte>)
      requires pd + |data| + 2 <= mem.Length
      modifies mem
      ensures mem[..] == Written(old(mem[..]), pd, data)
    {
      ghost var m := mem[..];
      mem[pd] := |data| % 256;
      mem[pd + 1] := |data| / 256 % 256;
      for i := 0 to |data|
        invariant forall x :: 0 <= x < mem.Length ==>
                    mem[x] == if pd <= x < pd + 2 + i then Image(data)[x - pd] else m[x]
      {
        mem[pd + 2 + i] := data[i];
      }
      assert mem[..] == Written(m, pd, data);
    }

    // The oldest entry's slot, or NULL.
    method Get() returns (pd: nat)
      requires Valid()
      ensures pd == NULL <==> queue == []
      ensures queue != [] ==> Holds(mem[..], pd, size, queue[0])
    {
      PointersMean();
      if rptr != wptr {
        SlotAtPointer(popped, rptr);
        StartInside(p, size, num, popped);
        assert Holds(mem[..], Start(p, size, num, popped + 0), size, queue[0]);
        return p + BitAnd(rptr, num - 1) * size;
      }
      return NULL;
    }

    // my_fifo_pop drops the oldest entry. It does not look whether there is one: the read pointer
    // then overtakes the write pointer, and the FIFO counts as full.
    method Pop()
      requires Valid()
      modifies this
      ensures wptr == old(wptr) && rptr == Next(old(rptr))
      ensures size == old(size) && num == old(num) && p == old(p)
      ensures old(queue) != [] ==> Valid() && queue == old(queue)[1..]
      ensures old(queue) == [] ==> Ahead(wptr, rptr) == 255 >= num
    {
      PointersMean();
      AheadIsCount(popped + |queue|, popped);
      rptr := Next(rptr);
      if queue != [] {
        StoredLess(mem[..], p, size, num, popped, queue);
        queue, popped := queue[1..], popped + 1;
      }
    }

    lemma PointersMean()
      requires Valid()
      ensures Ahead(wptr, rptr) == |queue| && SlotsApart(num)
      ensures Next(wptr) == (popped + |queue| + 1) % 256
      ensures wptr == rptr <==> queue == []
      ensures Free() > 0
    {
      hide Ahead, Next, SlotsApart, IsPow2, Start, Stored, SlotOf, BitAnd, Holds;
      AheadIsCount(popped + |queue|, popped);
      SlotsApartIff(num);
      StartInside(p, size, num, popped + |queue|);
    }

    lemma SlotAtPointer(position: nat, pointer: Byte)
      requires num > 0 && pointer == position % 256
      ensures p + BitAnd(pointer, num - 1) * size == Start(p, size, num, position)
    {
    }
  }
}
