/** The queue of HID reports that wait for a busy endpoint, shared by application/app/usbkb.c and
    application/app/usbmouse.c: four slots of eight bytes and two pointers of one byte. */
module UsbReports {
  import opened Machine
  import opened Bits
  import opened DropOldest

  const DAT_TYPE_KB := 1
  const DAT_TYPE_MOUSE := 2

  const USB_FIFO_SIZE := 8

  datatype Report = Keyboard(ctrl: Byte, keys: seq<Byte>) | Mouse(id: Byte, data: seq<Byte>)

  // Eight bytes of which the drain routine can make a report.
  predicate WellFormed(slot: seq<Byte>) {
    && |slot| == USB_FIFO_SIZE
    && (slot[0] == DAT_TYPE_KB || (slot[0] == DAT_TYPE_MOUSE && slot[2] <= 4))
  }

  function ReportOf(slot: seq<Byte>): Report
    requires WellFormed(slot)
  {
    if slot[0] == DAT_TYPE_KB then Keyboard(slot[1], slot[2..8]) else Mouse(slot[1], slot[4..4 + slot[2]])
  }

  function ReportsOf(slots: seq<seq<Byte>>): (q: seq<Report>)
    requires forall k :: 0 <= k < |slots| ==> WellFormed(slots[k])
    ensures |q| == |slots|
  {
    seq(|slots|, k requires 0 <= k < |slots| => ReportOf(slots[k]))
  }

  // What the keyboard path stores in a slot; a keyboard report has six keys.
  function KeyboardSlot(ctrl: Byte, keys: seq<Byte>): (slot: seq<Byte>)
    requires |keys| == 6
    ensures WellFormed(slot) && ReportOf(slot) == Keyboard(ctrl, keys) && slot[0] == 1
  {
    assert ([DAT_TYPE_KB as Byte, ctrl] + keys)[2..8] == keys;
    [DAT_TYPE_KB, ctrl] + keys
  }

  // What the mouse path makes of a slot; the bytes it does not write keep what they held.
  function MouseSlot(slot: seq<Byte>, id: Byte, data: seq<Byte>): (slot': seq<Byte>)
    requires |slot| == USB_FIFO_SIZE && |data| <= 4
    ensures WellFormed(slot') && ReportOf(slot') == Mouse(id, data) && slot'[0] == 2
  {
    [DAT_TYPE_MOUSE, id, |data|, slot[3]] + data + slot[4 + |data|..]
  }

  // The bytes of all slots after a mouse report of any length was written to the one at o.
  function MouseWritten(fifo: seq<Byte>, o: nat, id: Byte, data: seq<Byte>): (r: seq<Byte>)
    requires o + 4 + |data| <= |fifo|
    ensures |r| == |fifo|
  {
    fifo[..o] + [DAT_TYPE_MOUSE, id, |data| % 256, fifo[o + 3]] + data + fifo[o + 4 + |data|..]
  }

  // Only the slot at o has changed, and it reads back as the report.
  ghost predicate MouseStored(fifo: seq<Byte>, o: nat, id: Byte, data: seq<Byte>)
    requires o + 4 + |data| <= |fifo| && o + USB_FIFO_SIZE <= |fifo|
  {
    var fifo' := MouseWritten(fifo, o, id, data);
    && fifo'[..o] == fifo[..o] && fifo'[o + USB_FIFO_SIZE..] == fifo[o + USB_FIFO_SIZE..]
    && WellFormed(fifo'[o..o + USB_FIFO_SIZE]) && ReportOf(fifo'[o..o + USB_FIFO_SIZE]) == Mouse(id, data)
  }

  lemma MouseIsShort(slot: seq<Byte>)
    requires WellFormed(slot) && slot[0] == DAT_TYPE_MOUSE
    ensures ReportOf(slot).Mouse? && |ReportOf(slot).data| <= 4
  {
  }

  // What a short report leaves in its slot, byte by byte.
  lemma MouseSlotWritten(fifo: seq<Byte>, o: nat, id: Byte, data: seq<Byte>)
    requires |data| <= 4 && o + USB_FIFO_SIZE <= |fifo|
    ensures MouseWritten(fifo, o, id, data)[o..o + USB_FIFO_SIZE] == MouseSlot(fifo[o..o + USB_FIFO_SIZE], id, data)
  {
    hide WellFormed, ReportOf;
    var was, head := fifo[o..o + USB_FIFO_SIZE], [DAT_TYPE_MOUSE as Byte, id, |data|, fifo[o + 3]];
    var w, slot := MouseWritten(fifo, o, id, data), MouseSlot(was, id, data);
    forall x | 0 <= x < USB_FIFO_SIZE
      ensures w[o + x] == slot[x]
    {
      var byte := if x < 4 then head[x] else if x < 4 + |data| then data[x - 4] else fifo[o + x];
      assert w[o + x] == byte;
      assert slot[x] == byte;
    }
  }

  // For up to four bytes that is so, and the slot is the one the queue stores; for more it never is.
  lemma MouseStoredIff(fifo: seq<Byte>, o: nat, id: Byte, data: seq<Byte>)
    requires o + 4 + |data| <= |fifo| && o + USB_FIFO_SIZE <= |fifo|
    ensures MouseStored(fifo, o, id, data) <==> |data| <= 4
    ensures |data| <= 4 ==>
      MouseWritten(fifo, o, id, data)[o..o + USB_FIFO_SIZE] == MouseSlot(fifo[o..o + USB_FIFO_SIZE], id, data)
  {
    var w := MouseWritten(fifo, o, id, data);
    var slot := w[o..o + USB_FIFO_SIZE];
    assert slot[0] == DAT_TYPE_MOUSE && slot[1] == id && slot[2] == |data| % 256;
    if |data| <= 4 {
      MouseSlotWritten(fifo, o, id, data);
      assert w[..o] == fifo[..o] && w[o + USB_FIFO_SIZE..] == fifo[o + USB_FIFO_SIZE..];
    } else {
      if WellFormed(slot) { MouseIsShort(slot); }
    }
  }

  lemma ReportsPut(slots: seq<seq<Byte>>, slot: seq<Byte>)
    requires |slots| <= SLOTS && WellFormed(slot) && forall k :: 0 <= k < |slots| ==> WellFormed(slots[k])
    ensures forall k :: 0 <= k < |Put(slots, slot)| ==> WellFormed(Put(slots, slot)[k])
    ensures ReportsOf(Put(slots, slot)) == Put(ReportsOf(slots), ReportOf(slot))
  {
    hide WellFormed, ReportOf;
  }

  const WRAP := 256

  // What the overflow test computes.
  function FifoUse(w: Byte, r: Byte): nat {
    (w - r) % (SLOTS * 2)
  }

  lemma FifoUseIsCount(w: Byte, r: Byte)
    requires Used(w, r, WRAP) <= SLOTS + 1
    ensures FifoUse(w, r) == Used(w, r, WRAP)
  {
    if w < r { DivModUnique(w - r, SLOTS * 2, -32, Used(w, r, WRAP)); }
  }

  // The four slots at the start of memory.
  function SlotsOf(memory: seq<Byte>): (fifo: seq<seq<Byte>>)
    requires |memory| >= SLOTS * USB_FIFO_SIZE
    ensures |fifo| == SLOTS && forall k :: 0 <= k < SLOTS ==> |fifo[k]| == USB_FIFO_SIZE
  {
    [memory[0..8], memory[8..16], memory[16..24], memory[24..32]]
  }

  function SlotPut(memory: seq<Byte>, k: nat, slot: seq<Byte>): (r: seq<Byte>)
    requires |memory| >= SLOTS * USB_FIFO_SIZE && k < SLOTS && |slot| == USB_FIFO_SIZE
    ensures |r| == |memory|
  {
    var o := k * USB_FIFO_SIZE;
    memory[..o] + slot + memory[o + USB_FIFO_SIZE..]
  }

  lemma SlotPutMeans(memory: seq<Byte>, k: nat, slot: seq<Byte>)
    requires |memory| >= SLOTS * USB_FIFO_SIZE && k < SLOTS && |slot| == USB_FIFO_SIZE
    ensures SlotsOf(SlotPut(memory, k, slot)) == SlotsOf(memory)[k := slot]
  {
    var r := SlotPut(memory, k, slot);
    assert forall x :: 0 <= x < 32 ==> r[x] == if 8 * k <= x < 8 * k + 8 then slot[x - 8 * k] else memory[x];
    forall j | 0 <= j < SLOTS
      ensures SlotsOf(r)[j] == if j == k then slot else SlotsOf(memory)[j]
    {
      SlotAt(r, j);
      SlotAt(memory, j);
    }
  }

  lemma SlotAt(memory: seq<Byte>, j: nat)
    requires |memory| >= SLOTS * USB_FIFO_SIZE && j < SLOTS
    ensures SlotsOf(memory)[j] == memory[j * USB_FIFO_SIZE..j * USB_FIFO_SIZE + USB_FIFO_SIZE]
  {
  }

  // A mouse report of up to four bytes is the slot stored.
  lemma MouseIsSlotPut(memory: seq<Byte>, k: nat, id: Byte, data: seq<Byte>)
    requires |memory| >= SLOTS * USB_FIFO_SIZE && k < SLOTS && |data| <= 4
    ensures MouseWritten(memory, k * USB_FIFO_SIZE, id, data)
         == SlotPut(memory, k, MouseSlot(SlotsOf(memory)[k], id, data))
  {
    var o := k * USB_FIFO_SIZE;
    SlotAt(memory, k);
    MouseStoredIff(memory, o, id, data);
    hide WellFormed, ReportOf, MouseSlot, SlotsOf, MouseWritten;
    InThree(MouseWritten(memory, o, id, data), o, o + USB_FIFO_SIZE);
  }

  lemma InThree(s: seq<Byte>, i: nat, j: nat)
    requires i <= j <= |s|
    ensures s == s[..i] + s[i..j] + s[j..]
  {
  }

  // A report joins the queue: the bytes written, seen as reports.
  lemma ReportStored(fifo: seq<seq<Byte>>, w: Byte, r: Byte, slot: seq<Byte>)
    requires |fifo| == SLOTS && Used(w, r, WRAP) <= SLOTS && WellFormed(slot)
    requires forall k :: 0 <= k < Used(w, r, WRAP) ==> WellFormed(View(fifo, r, Used(w, r, WRAP))[k])
    ensures var q, w1, fifo1 := View(fifo, r, Used(w, r, WRAP)), Next(w, WRAP), fifo[Slot(w) := slot];
      var r1 := if FifoUse(w1, r) > SLOTS then Next(r, WRAP) else r;
      && Used(w1, r1, WRAP) <= SLOTS
      && View(fifo1, r1, Used(w1, r1, WRAP)) == Put(q, slot)
      && (forall k :: 0 <= k < |Put(q, slot)| ==> WellFormed(Put(q, slot)[k]))
      && ReportsOf(Put(q, slot)) == Put(ReportsOf(q), ReportOf(slot))
  {
    hide View, WellFormed, ReportOf, ReportsOf, Put, Next, Used, FifoUse, Slot;
    PointersPut(w, r, WRAP);
    FifoUseIsCount(Next(w, WRAP), r);
    Stored(fifo, w, r, WRAP, slot);
    ReportsPut(View(fifo, r, Used(w, r, WRAP)), slot);
  }

  // The slots in use hold reports.
  ghost predicate SlotsHold(memory: seq<Byte>, w: Byte, r: Byte) {
    && |memory| >= SLOTS * USB_FIFO_SIZE && Used(w, r, WRAP) <= SLOTS
    && forall k :: 0 <= k < Used(w, r, WRAP) ==> WellFormed(View(SlotsOf(memory), r, Used(w, r, WRAP))[k])
  }

  // These reports, oldest first.
  ghost function Reports(memory: seq<Byte>, w: Byte, r: Byte): seq<Report>
    requires SlotsHold(memory, w, r)
  {
    ReportsOf(View(SlotsOf(memory), r, Used(w, r, WRAP)))
  }

  class ReportQueue {
    // usb_fifo and what the linker put behind it; usb_ff_wptr and usb_ff_rptr; and the reports
    // written to an endpoint so far.
    var memory: seq<Byte>
    var wptr: Byte
    var rptr: Byte
    var sent: seq<Report>
    // All that happened to the queue since the start.
    ghost var run: seq<Event<Report>>

    ghost predicate Slots()
      reads this
    {
      SlotsHold(memory, wptr, rptr)
    }

    ghost function Queue(): seq<Report>
      requires Slots()
      reads this
    {
      Reports(memory, wptr, rptr)
    }

    ghost predicate Valid()
      reads this
    {
      Slots() && Queue() == After([], run) && Subsequence(Taken([], run), sent)
    }

    constructor (behind: seq<Byte>)
      ensures Valid() && Queue() == [] && sent == [] && run == []
    {
      memory := seq(SLOTS * USB_FIFO_SIZE, _ => 0) + behind;
      wptr, rptr, sent, run := 0, 0, [], [];
    }

    // A slot has been filled: the write pointer moves on, and a fifth report drops the oldest.
    method MovePointers()
      modifies `wptr, `rptr
      ensures wptr == Next(old(wptr), WRAP)
      ensures rptr == if FifoUse(wptr, old(rptr)) > SLOTS then Next(old(rptr), WRAP) else old(rptr)
    {
      wptr := Next(wptr, WRAP);
      var use := FifoUse(wptr, rptr);
      if use > SLOTS {
        rptr := Next(rptr, WRAP);
      }
    }

    // With a report stored in the slot at w and the pointers moved, the queue has one report more.
    lemma Enqueued(was: seq<Byte>, w: Byte, r: Byte, slot: seq<Byte>)
      requires SlotsHold(was, w, r) && WellFormed(slot)
      requires memory == SlotPut(was, Slot(w), slot) && wptr == Next(w, WRAP)
      requires rptr == if FifoUse(wptr, r) > SLOTS then Next(r, WRAP) else r
      ensures Slots()
      ensures Queue() == Put(Reports(was, w, r), ReportOf(slot))
    {
      assert |slot| == USB_FIFO_SIZE;
      hide View, ReportsOf, ReportOf, WellFormed, Put, Next, Used, FifoUse, Slot, SlotPut, SlotsOf;
      SlotPutMeans(was, Slot(w), slot);
      ReportStored(SlotsOf(was), w, r, slot);
    }

    // usbkb_hid_report_normal: a report is queued if the endpoint is busy, and sent at once if not.
    method ReportNormal(busy: bool, ctrl: Byte, keys: seq<Byte>) returns (r: int)
      requires Valid() && |keys| == 6
      modifies this
      ensures Valid()
      ensures busy ==> r == 0 && sent == old(sent) && Queue() == Put(old(Queue()), Keyboard(ctrl, keys))
      ensures busy ==> run == old(run) + [Add(Keyboard(ctrl, keys))]
      ensures !busy ==> r == 1 && sent == old(sent) + [Keyboard(ctrl, keys)] && Queue() == old(Queue())
      ensures !busy ==> memory == old(memory) && wptr == old(wptr) && rptr == old(rptr) && run == old(run)
    {
      hide View, ReportsOf, ReportOf, WellFormed, After, Taken, Subsequence, Put, Next, Used, FifoUse, Slot, SlotsOf;
      if busy {
        var slot := KeyboardSlot(ctrl, keys);
        memory := SlotPut(memory, Slot(wptr), slot);
        MovePointers();
        Enqueued(old(memory), old(wptr), old(rptr), slot);
        AfterAdd(run, Keyboard(ctrl, keys));
        run := run + [Add(Keyboard(ctrl, keys))];
        return 0;
      }
      SubsequenceExtends(Taken([], run), sent, [Keyboard(ctrl, keys)]);
      sent := sent + [Keyboard(ctrl, keys)];
      return 1;
    }

    // So it has with a mouse report of up to four bytes written.
    lemma MouseEnqueued(was: seq<Byte>, w: Byte, r: Byte, id: Byte, data: seq<Byte>)
      requires SlotsHold(was, w, r) && |data| <= 4
      requires Slot(w) < SLOTS && memory == MouseWritten(was, Slot(w) * USB_FIFO_SIZE, id, data)
      requires wptr == Next(w, WRAP)
      requires rptr == if FifoUse(wptr, r) > SLOTS then Next(r, WRAP) else r
      ensures Slots()
      ensures Queue() == Put(Reports(was, w, r), Mouse(id, data))
    {
      hide View, ReportsOf, ReportOf, WellFormed, Put, Next, Used, FifoUse, Slot, SlotPut, SlotsOf, MouseWritten,
           MouseSlot;
      MouseIsSlotPut(was, Slot(w), id, data);
      Enqueued(was, w, r, MouseSlot(SlotsOf(was)[Slot(w)], id, data));
    }

    // usbmouse_hid_report, for any number of bytes. A slot has room for four; the bytes of a longer
    // report for a busy endpoint run on into what comes next.
    method ReportMouse(busy: bool, id: Byte, data: seq<Byte>) returns (r: int)
      requires Valid() && (busy ==> Slot(wptr) * USB_FIFO_SIZE + 4 + |data| <= |memory|)
      modifies this
      ensures busy ==> r == 0 && sent == old(sent)
      ensures busy ==> memory == MouseWritten(old(memory), Slot(old(wptr)) * USB_FIFO_SIZE, id, data)
      ensures busy ==> wptr == Next(old(wptr), WRAP)
      ensures busy && |data| <= 4 ==>
        Valid() && Queue() == Put(old(Queue()), Mouse(id, data)) && run == old(run) + [Add(Mouse(id, data))]
      ensures !busy ==> Valid() && r == 1 && sent == old(sent) + [Mouse(id, data)] && Queue() == old(Queue())
      ensures !busy ==> memory == old(memory) && wptr == old(wptr) && rptr == old(rptr) && run == old(run)
    {
      assert Slot(wptr) < SLOTS;
      hide SlotsHold, Reports, After, Taken, Subsequence, Put, Next, Used, FifoUse, Slot, MouseWritten;
      if busy {
        memory := MouseWritten(memory, Slot(wptr) * USB_FIFO_SIZE, id, data);
        MovePointers();
        if |data| <= 4 {
          MouseEnqueued(old(memory), old(wptr), old(rptr), id, data);
          AfterAdd(run, Mouse(id, data));
          run := run + [Add(Mouse(id, data))];
        }
        return 0;
      }
      SubsequenceExtends(Taken([], run), sent, [Mouse(id, data)]);
      sent := sent + [Mouse(id, data)];
      return 1;
    }

    // usb_hid_report_fifo_proc: sends the oldest report if its endpoint is free. Every report in
    // the queue is of a kind it knows, so only a busy endpoint or an empty queue stops it.
    method Drain(kbBusy: bool, mouseBusy: bool) returns (r: int)
      requires Valid()
      modifies this
      ensures Valid()
      ensures var q := old(Queue());
        if q == [] || (if q[0].Keyboard? then kbBusy else mouseBusy) then
          r == 0 && Queue() == q && sent == old(sent) && run == old(run)
        else
          r == 1 && Queue() == q[1..] && sent == old(sent) + [q[0]] && run == old(run) + [Take]
    {
      hide View, After, Taken, Subsequence, Next, Used, SlotsOf;
      PointerTake(wptr, rptr, WRAP);
      if rptr == wptr {
        return 0;
      }
      ghost var q := Queue();
      Fetched(SlotsOf(memory), wptr, rptr, WRAP);
      SlotAt(memory, Slot(rptr));
      var o := Slot(rptr) * USB_FIFO_SIZE;
      var slot := memory[o..o + USB_FIFO_SIZE];
      assert q[0] == ReportOf(slot);
      SubsequenceExtends(Taken([], run), sent, [q[0]]);
      if slot[0] == DAT_TYPE_KB {
        if kbBusy {
          return 0;
        }
        var _ := ReportNormal(false, slot[1], slot[2..8]);
        Advance();
        return 1;
      } else if slot[0] == DAT_TYPE_MOUSE {
        if mouseBusy {
          return 0;
        }
        var _ := ReportMouse(false, slot[1], slot[4..4 + slot[2]]);
        Advance();
        return 1;
      }
      return 0;
    }

    // The oldest report, which has been sent, leaves the queue.
    method Advance()
      requires Valid() && Queue() != [] && Subsequence(Taken([], run) + [Queue()[0]], sent)
      modifies `rptr, `run
      ensures Valid() && Queue() == old(Queue())[1..] && run == old(run) + [Take]
    {
      hide View, ReportOf, WellFormed, After, Taken, Subsequence, Next, Used, SlotsOf;
      Fetched(SlotsOf(memory), wptr, rptr, WRAP);
      rptr := Next(rptr, WRAP);
      assert Queue() == old(Queue())[1..];
      AfterTake(run);
      run := run + [Take];
    }

    // For any interleaving of all these: the reports waiting are the ones queued last, and those
    // taken out to be sent were sent in the order they were queued. A dropped report is not taken.
    lemma InOrder()
      requires Valid()
      ensures Newest(Added(run), Taken([], run), Queue())
      ensures Subsequence(Taken([], run), sent)
    {
      QueueIsNewest([], run);
      assert [] + Added(run) == Added(run);
    }
  }
}
