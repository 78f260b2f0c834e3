/** Writing to the flash in drivers/B91/flash.c. The device collects the bytes of a page program in a
    latch of one page of 256 bytes, whose counter wraps, and then clears bits in that page.
    flash_write_page therefore splits a write. */
module FlashWrite {
  import opened Bits

  const PAGE_SIZE := 256

  // Byte r behind the start address, in a latch that took the data: of all the bytes that land
  // there the last one, and 0xff, which clears nothing, if there was none.
  function Latched(data: seq<bv8>, r: nat): bv8 {
    if r < |data| then data[r + (|data| - 1 - r) / PAGE_SIZE * PAGE_SIZE] else 0xff
  }

  // A byte of flash after a byte sent to it: programming turns bits to 0 only.
  function Cleared(held: bv8, sent: bv8): bv8 {
    held & sent
  }

  // A page program.
  function Programmed(m: seq<bv8>, addr: nat, data: seq<bv8>): (r: seq<bv8>)
    ensures |r| == |m|
  {
    seq(|m|, x requires 0 <= x < |m| =>
      if x / PAGE_SIZE == addr / PAGE_SIZE then Cleared(m[x], Latched(data, (x - addr) % PAGE_SIZE)) else m[x])
  }

  // What the caller of a write wants: the bits of the data cleared from addr on.
  function Linear(m: seq<bv8>, addr: nat, data: seq<bv8>): (r: seq<bv8>)
    ensures |r| == |m|
  {
    seq(|m|, x requires 0 <= x < |m| =>
      if addr <= x < addr + |data| then Cleared(m[x], data[x - addr]) else m[x])
  }

  // A write only clears bits, and after a write to erased flash the data can be read back.
  lemma LinearMeans(m: seq<bv8>, addr: nat, data: seq<bv8>)
    requires addr + |data| <= |m|
    ensures forall x :: 0 <= x < |m| ==> Linear(m, addr, data)[x] & m[x] == Linear(m, addr, data)[x]
    ensures (forall x :: addr <= x < addr + |data| ==> m[x] == 0xff) ==>
      Linear(m, addr, data)[addr..addr + |data|] == data
  {
    var w := Linear(m, addr, data);
    forall x | 0 <= x < |m|
      ensures w[x] & m[x] == w[x]
      ensures addr <= x < addr + |data| && m[x] == 0xff ==> w[x] == data[x - addr]
    {
      if addr <= x < addr + |data| {
        ClearsBits(m[x], data[x - addr]);
        MaskAll(data[x - addr]);
      } else {
        SameBits(m[x]);
      }
    }
  }

  lemma ClearsBits(a: bv8, b: bv8)
    ensures (a & b) & a == a & b
  {
  }

  lemma SameBits(a: bv8)
    ensures a & a == a
  {
  }

  datatype Chunk = Chunk(addr: nat, data: seq<bv8>)

  predicate InPage(c: Chunk) {
    c.addr % 256 + |c.data| <= 256
  }

  // One more byte in the latch.
  lemma LatchStep(data: seq<bv8>, b: bv8, r: nat)
    requires r < PAGE_SIZE
    ensures Latched(data + [b], r) == if r == |data| % PAGE_SIZE then b else Latched(data, r)
  {
    var n := |data|;
    if r <= n {
      var q, t := (n - r) / PAGE_SIZE, (n - r) % PAGE_SIZE;
      assert n - r == PAGE_SIZE * q + t;
      SamePlaceIff(n, r);
      if t != 0 {
        DivModUnique(n - 1 - r, PAGE_SIZE, q, t - 1);
      }
    }
  }

  lemma SamePlaceIff(n: nat, r: nat)
    requires r < PAGE_SIZE && r <= n
    ensures (n - r) % PAGE_SIZE == 0 <==> r == n % PAGE_SIZE
  {
  }

  // Inside a page the two are the same.
  lemma InPageIsLinear(m: seq<bv8>, c: Chunk)
    requires InPage(c)
    ensures Programmed(m, c.addr, c.data) == Linear(m, c.addr, c.data)
  {
    var addr := c.addr;
    forall x | 0 <= x < |m|
      ensures Programmed(m, addr, c.data)[x] == Linear(m, addr, c.data)[x]
    {
      hide Cleared;
      MaskAll(m[x]);
      SamePlace(c.addr, |c.data|, x);
      if x / PAGE_SIZE == addr / PAGE_SIZE { LatchedInPage(c.data, (x - addr) % PAGE_SIZE); }
      hide Latched;
    }
  }

  lemma LatchedInPage(data: seq<bv8>, r: nat)
    requires |data| <= PAGE_SIZE && r < PAGE_SIZE
    ensures Latched(data, r) == if r < |data| then data[r] else 0xff
  {
  }

  lemma SamePlace(addr: nat, n: nat, x: nat)
    requires addr % PAGE_SIZE + n <= PAGE_SIZE
    ensures (x / PAGE_SIZE == addr / PAGE_SIZE && (x - addr) % PAGE_SIZE < n) <==> addr <= x < addr + n
    ensures addr <= x < addr + n ==> (x - addr) % PAGE_SIZE == x - addr
  {
    var p, o := addr / PAGE_SIZE, addr % PAGE_SIZE;
    assert addr == PAGE_SIZE * p + o && x == PAGE_SIZE * (x / PAGE_SIZE) + x % PAGE_SIZE;
  }

  // Outside they are not: on erased flash one page program does what is wanted exactly if the
  // data stays inside the page. The data here clears something in every byte.
  lemma OneProgramIff(m: seq<bv8>, addr: nat, data: seq<bv8>)
    requires addr + |data| <= |m|
    requires (forall x :: 0 <= x < |m| ==> m[x] == 0xff) && forall i :: 0 <= i < |data| ==> data[i] != 0xff
    ensures Programmed(m, addr, data) == Linear(m, addr, data) <==> InPage(Chunk(addr, data))
  {
    if InPage(Chunk(addr, data)) {
      InPageIsLinear(m, Chunk(addr, data));
    } else {
      var i := PAGE_SIZE - addr % PAGE_SIZE;
      var x := addr + i;
      assert x / PAGE_SIZE == addr / PAGE_SIZE + 1;
      assert Programmed(m, addr, data)[x] == 0xff;
      assert Linear(m, addr, data)[x] == Cleared(0xff, data[i]);
      MaskAll(data[i]);
    }
  }

  lemma MaskAll(b: bv8)
    ensures Cleared(0xff, b) == b
    ensures Cleared(b, 0xff) == b
  {
  }

  // ---------------------------------------------------------------- splitting

  // The pieces of a write, the first of which may be empty.
  function Chunks(addr: nat, data: seq<bv8>): (r: seq<Chunk>)
    decreases |data|
  {
    var ns := PAGE_SIZE - addr % PAGE_SIZE;
    if |data| <= ns then [Chunk(addr, data)]
    else [Chunk(addr, data[..ns])] + Chunks(addr + ns, data[ns..])
  }

  function Joined(chunks: seq<Chunk>): seq<bv8> {
    if chunks == [] then [] else chunks[0].data + Joined(chunks[1..])
  }

  // Each piece begins where the one before it ends.
  ghost predicate Adjacent(chunks: seq<Chunk>, addr: nat) {
    chunks == [] || (chunks[0].addr == addr && Adjacent(chunks[1..], addr + |chunks[0].data|))
  }

  function ProgramAll(m: seq<bv8>, chunks: seq<Chunk>): (r: seq<bv8>)
    ensures |r| == |m|
    decreases |chunks|
  {
    if chunks == [] then m else ProgramAll(Programmed(m, chunks[0].addr, chunks[0].data), chunks[1..])
  }

  lemma {:induction false} ProgramAllConcat(m: seq<bv8>, p: seq<Chunk>, q: seq<Chunk>)
    ensures ProgramAll(m, p + q) == ProgramAll(ProgramAll(m, p), q)
    decreases |p|
  {
    hide Programmed;
    if p == [] {
      assert p + q == q;
    } else {
      ProgramAllConcat(Programmed(m, p[0].addr, p[0].data), p[1..], q);
      assert (p + q)[0] == p[0] && (p + q)[1..] == p[1..] + q;
    }
  }

  // The pieces follow each other, make up the data and each stay inside a page.
  lemma {:induction false} ChunksCover(addr: nat, data: seq<bv8>)
    ensures var chunks := Chunks(addr, data);
      && Joined(chunks) == data && Adjacent(chunks, addr)
      && forall i :: 0 <= i < |chunks| ==> InPage(chunks[i])
    decreases |data|
  {
    var ns := PAGE_SIZE - addr % PAGE_SIZE;
    var chunks := Chunks(addr, data);
    if |data| <= ns {
      assert chunks[1..] == [];
    } else {
      ChunksCover(addr + ns, data[ns..]);
      assert chunks[1..] == Chunks(addr + ns, data[ns..]);
      assert data[..ns] + data[ns..] == data;
    }
  }

  // No piece is empty, unless there is nothing to write; and only the first can begin inside a page.
  lemma {:induction false} ChunksUseful(addr: nat, data: seq<bv8>)
    ensures data != [] ==> NoneEmpty(Chunks(addr, data))
    ensures LaterAligned(Chunks(addr, data))
    decreases |data|
  {
    hide Chunks, NoneEmpty, LaterAligned;
    var ns := PAGE_SIZE - addr % PAGE_SIZE;
    ChunksFirst(addr, data);
    if |data| > ns {
      var rest := Chunks(addr + ns, data[ns..]);
      ChunksUseful(addr + ns, data[ns..]);
      NextPage(addr);
      ChunksFirst(addr + ns, data[ns..]);
      UsefulMore(Chunk(addr, data[..ns]), rest);
    } else {
      UsefulOne(Chunk(addr, data));
      assert data[..|data|] == data && [Chunk(addr, data)] + [] == [Chunk(addr, data)];
    }
  }

  ghost predicate NoneEmpty(chunks: seq<Chunk>) {
    forall i :: 0 <= i < |chunks| ==> chunks[i].data != []
  }

  ghost predicate LaterAligned(chunks: seq<Chunk>) {
    forall i :: 0 < i < |chunks| ==> chunks[i].addr % PAGE_SIZE == 0
  }

  lemma UsefulOne(c: Chunk)
    ensures (c.data != [] ==> NoneEmpty([c])) && LaterAligned([c])
  {
  }

  lemma UsefulMore(c: Chunk, rest: seq<Chunk>)
    requires c.data != [] && NoneEmpty(rest) && LaterAligned(rest)
    requires rest != [] && rest[0].addr % PAGE_SIZE == 0
    ensures NoneEmpty([c] + rest) && LaterAligned([c] + rest)
  {
  }

  lemma NextPage(addr: nat)
    ensures (addr + (PAGE_SIZE - addr % PAGE_SIZE)) % PAGE_SIZE == 0
  {
  }

  lemma {:induction false} LinearConcat(m: seq<bv8>, addr: nat, p: seq<bv8>, q: seq<bv8>)
    ensures Linear(Linear(m, addr, p), addr + |p|, q) == Linear(m, addr, p + q)
  {
  }

  // On a device that wraps inside the page the pieces have the effect of one plain write.
  lemma {:induction false} SplitIsLinear(m: seq<bv8>, addr: nat, data: seq<bv8>)
    ensures ProgramAll(m, Chunks(addr, data)) == Linear(m, addr, data)
    decreases |data|
  {
    hide Programmed, Linear;
    var ns := PAGE_SIZE - addr % PAGE_SIZE;
    var chunks := Chunks(addr, data);
    if |data| <= ns {
      InPageIsLinear(m, chunks[0]);
      assert chunks[1..] == [];
    } else {
      InPageIsLinear(m, chunks[0]);
      assert chunks[1..] == Chunks(addr + ns, data[ns..]);
      SplitIsLinear(Linear(m, addr, data[..ns]), addr + ns, data[ns..]);
      LinearConcat(m, addr, data[..ns], data[ns..]);
      assert data[..ns] + data[ns..] == data;
    }
  }

  class Flash {
    const mem: array<bv8>
    // The page programs so far.
    var log: seq<Chunk>

    constructor (pages: nat)
      ensures fresh(mem) && mem.Length == pages * PAGE_SIZE && log == []
    {
      mem := new bv8[pages * PAGE_SIZE](_ => 0xff);
      log := [];
    }

    // flash_write_page_ram: the bytes go out one by one into the latch; then the device programs.
    method WritePageRam(addr: nat, data: seq<bv8>)
      requires mem.Length % PAGE_SIZE == 0 && addr < mem.Length
      modifies this, mem
      ensures mem[..] == Programmed(old(mem[..]), addr, data) && log == old(log) + [Chunk(addr, data)]
    {
      var latch := new bv8[PAGE_SIZE](_ => 0xff);
      Fill(latch, addr, data);
      Program(addr, latch);
      forall x | 0 <= x < mem.Length
        ensures x / PAGE_SIZE == addr / PAGE_SIZE ==> latch[x % PAGE_SIZE] == Latched(data, (x - addr) % PAGE_SIZE)
      {
        SameByte(addr, x);
      }
      hide Latched;
      assert mem[..] == Programmed(old(mem[..]), addr, data);
      log := log + [Chunk(addr, data)];
    }

    static method Fill(latch: array<bv8>, addr: nat, data: seq<bv8>)
      requires latch.Length == PAGE_SIZE && forall k :: 0 <= k < PAGE_SIZE ==> latch[k] == 0xff
      modifies latch
      ensures forall k :: 0 <= k < PAGE_SIZE ==> latch[k] == LatchedAt(data, addr, k)
    {
      NothingLatched();
      hide LatchedAt;
      for i := 0 to |data|
        invariant forall k :: 0 <= k < PAGE_SIZE ==> latch[k] == LatchedAt(data[..i], addr, k)
      {
        assert data[..i + 1] == data[..i] + [data[i]];
        ghost var was, place := latch[..], (addr + i) % PAGE_SIZE;
        latch[(addr + i) % PAGE_SIZE] := data[i];
        forall k | 0 <= k < PAGE_SIZE
          ensures latch[k] == LatchedAt(data[..i + 1], addr, k)
        {
          LatchStepAt(data[..i], data[i], addr, k);
          assert latch[k] == if k == place then data[i] else was[k];
        }
      }
      assert data[..|data|] == data;
    }

    // The device clears the bits of one page that are 0 in the latch.
    method Program(addr: nat, latch: array<bv8>)
      requires mem.Length % PAGE_SIZE == 0 && addr < mem.Length && latch.Length == PAGE_SIZE && latch != mem
      modifies mem
      ensures forall x :: 0 <= x < mem.Length ==>
                mem[x] == if x / PAGE_SIZE == addr / PAGE_SIZE then Cleared(old(mem[x]), latch[x % PAGE_SIZE])
                          else old(mem[x])
    {
      var page := addr / PAGE_SIZE * PAGE_SIZE;
      PageInside(addr, mem.Length);
      ClearPage(page, latch);
      forall x | 0 <= x < mem.Length
        ensures x / PAGE_SIZE == addr / PAGE_SIZE <==> page <= x < page + PAGE_SIZE
        ensures x / PAGE_SIZE == addr / PAGE_SIZE ==> x % PAGE_SIZE == x - page
      {
        InPageIff(addr, x);
      }
    }

    method ClearPage(page: nat, latch: array<bv8>)
      requires page + PAGE_SIZE <= mem.Length && latch.Length == PAGE_SIZE && latch != mem
      modifies mem
      ensures forall x :: 0 <= x < mem.Length ==>
                mem[x] == if page <= x < page + PAGE_SIZE then Cleared(old(mem[x]), latch[x - page]) else old(mem[x])
    {
      hide Cleared;
      for k := 0 to PAGE_SIZE
        invariant forall x :: 0 <= x < mem.Length ==>
                    mem[x] == if page <= x < page + k then Cleared(old(mem[x]), latch[x - page]) else old(mem[x])
      {
        mem[page + k] := Cleared(mem[page + k], latch[k]);
      }
    }

    // flash_write_page: the pieces, and so a plain write.
    method WritePage(addr: nat, buf: seq<bv8>)
      requires mem.Length % PAGE_SIZE == 0 && addr < mem.Length && addr + |buf| <= mem.Length
      modifies this, mem
      ensures log == old(log) + Chunks(addr, buf)
      ensures mem[..] == Linear(old(mem[..]), addr, buf)
    {
      hide Programmed, Linear, Chunks, ProgramAll, Left;
      var ns: nat := PAGE_SIZE - addr % PAGE_SIZE;
      var at: nat, from: nat, len: nat := addr, 0, |buf|;
      ghost var done: seq<Chunk> := [];
      NothingProgrammed(mem[..]);
      LeftStart(addr, buf);
      var more := true;
      while more
        invariant from <= |buf| && from + len == |buf| && at == addr + from
        invariant more ==> ns == PAGE_SIZE - at % PAGE_SIZE && at < mem.Length
        invariant Left(addr, buf, from, more, done)
        invariant log == old(log) + done && mem[..] == ProgramAll(old(mem[..]), done)
        decreases more, len
      {
        var nw := if len > ns then ns else len;
        var piece := buf[from..from + nw];
        LeftStep(addr, buf, from, nw, done);
        ProgramNext(old(mem[..]), done, Chunk(at, piece));
        WritePageRam(at, piece);
        done := done + [Chunk(at, piece)];
        NextPage(at);
        ns := PAGE_SIZE;
        at, from, len := at + nw, from + nw, len - nw;
        more := len > 0;
      }
      SplitIsLinear(old(mem[..]), addr, buf);
      LeftEnd(addr, buf, from, done);
    }
  }

  // What is done of a write, and what is left of it from byte from on.
  ghost predicate Left(addr: nat, buf: seq<bv8>, from: nat, more: bool, done: seq<Chunk>)
    requires from <= |buf|
  {
    Chunks(addr, buf) == done + if more then Chunks(addr + from, buf[from..]) else []
  }

  lemma LeftStart(addr: nat, buf: seq<bv8>)
    ensures Left(addr, buf, 0, true, [])
  {
    hide Chunks;
    assert buf[0..] == buf;
  }

  lemma LeftStep(addr: nat, buf: seq<bv8>, from: nat, nw: nat, done: seq<Chunk>)
    requires from <= |buf| && Left(addr, buf, from, true, done)
    requires var ns := PAGE_SIZE - (addr + from) % PAGE_SIZE; nw == if |buf| - from > ns then ns else |buf| - from
    ensures Left(addr, buf, from + nw, |buf| - from - nw > 0, done + [Chunk(addr + from, buf[from..from + nw])])
  {
    hide Chunks;
    ChunksFirst(addr + from, buf[from..]);
    assert buf[from..][nw..] == buf[from + nw..] && buf[from..][..nw] == buf[from..from + nw];
  }

  lemma LeftEnd(addr: nat, buf: seq<bv8>, from: nat, done: seq<Chunk>)
    requires from <= |buf| && Left(addr, buf, from, false, done)
    ensures done == Chunks(addr, buf)
  {
    assert done + [] == done;
  }

  lemma ProgramNext(m: seq<bv8>, done: seq<Chunk>, c: Chunk)
    ensures ProgramAll(m, done + [c]) == Programmed(ProgramAll(m, done), c.addr, c.data)
  {
    hide ProgramAll, Programmed;
    ProgramAllConcat(m, done, [c]);
    ProgramOne(ProgramAll(m, done), c);
  }

  lemma ChunksFirst(addr: nat, data: seq<bv8>)
    ensures var ns := PAGE_SIZE - addr % PAGE_SIZE;
      var nw := if |data| > ns then ns else |data|;
      Chunks(addr, data) == [Chunk(addr, data[..nw])] + if nw < |data| then Chunks(addr + nw, data[nw..]) else []
  {
    assert data[..|data|] == data;
  }

  lemma NothingProgrammed(m: seq<bv8>)
    ensures ProgramAll(m, []) == m
  {
  }

  lemma ProgramOne(m: seq<bv8>, c: Chunk)
    ensures ProgramAll(m, [c]) == Programmed(m, c.addr, c.data)
  {
  }

  // What the latch holds at place k of the page.
  function LatchedAt(data: seq<bv8>, addr: nat, k: nat): bv8 {
    Latched(data, (k - addr) % PAGE_SIZE)
  }

  lemma NothingLatched()
    ensures forall addr: nat, k: nat :: LatchedAt([], addr, k) == 0xff
  {
  }

  lemma LatchStepAt(data: seq<bv8>, b: bv8, addr: nat, k: nat)
    requires k < PAGE_SIZE
    ensures LatchedAt(data + [b], addr, k) == if k == (addr + |data|) % PAGE_SIZE then b else LatchedAt(data, addr, k)
  {
    hide Latched;
    LatchStep(data, b, (k - addr) % PAGE_SIZE);
    SameCell(addr, |data|, k);
  }

  lemma SameByte(addr: nat, x: nat)
    ensures (x % PAGE_SIZE - addr) % PAGE_SIZE == (x - addr) % PAGE_SIZE
  {
  }

  lemma SameCell(addr: nat, i: nat, k: nat)
    requires k < PAGE_SIZE
    ensures k == (addr + i) % PAGE_SIZE <==> (k - addr) % PAGE_SIZE == i % PAGE_SIZE
  {
  }

  lemma InPageIff(addr: nat, x: nat)
    ensures var page := addr / PAGE_SIZE * PAGE_SIZE;
      && (x / PAGE_SIZE == addr / PAGE_SIZE <==> page <= x < page + PAGE_SIZE)
      && (x / PAGE_SIZE == addr / PAGE_SIZE ==> x % PAGE_SIZE == x - page)
  {
  }

  lemma PageInside(addr: nat, size: nat)
    requires size % PAGE_SIZE == 0 && addr < size
    ensures addr / PAGE_SIZE * PAGE_SIZE + PAGE_SIZE <= size
  {
  }
}
