/** The queue of key matrices between scanning and reporting in application/keyboard/keyboard.c:
    four matrices and two pointers kept modulo eight. */
module MatrixQueue {
  import opened DropOldest

  type Pointer = x: int | 0 <= x < 8

  type Matrix = seq<bv32>

  const WRAP := 8

  // Where the read pointer is put when a fifth matrix comes in.
  function FourBack(w: Pointer): Pointer {
    (w - SLOTS) % WRAP
  }

  lemma FourBackIsNext(w: Pointer, r: Pointer)
    requires Used(w, r, WRAP) == SLOTS
    ensures FourBack(Next(w, WRAP)) == Next(r, WRAP)
  {
  }

  class MatrixQueue {
    // matrix_buff, matrix_wptr, matrix_rptr.
    var buff: seq<Matrix>
    var wptr: Pointer
    var rptr: Pointer
    ghost var run: seq<Event<Matrix>>

    ghost predicate Slots()
      reads this
    {
      |buff| == SLOTS && Used(wptr, rptr, WRAP) <= SLOTS
    }

    ghost function Queue(): seq<Matrix>
      requires Slots()
      reads this
    {
      View(buff, rptr, Used(wptr, rptr, WRAP))
    }

    ghost predicate Valid()
      reads this
    {
      Slots() && Queue() == After([], run)
    }

    constructor ()
      ensures Valid() && Queue() == [] && run == []
    {
      buff, wptr, rptr, run := [[], [], [], []], 0, 0, [];
    }

    // A changed matrix goes in; of five, the oldest is overwritten.
    method Push(m: Matrix)
      requires Valid()
      modifies this
      ensures Valid() && Queue() == Put(old(Queue()), m) && run == old(run) + [Add(m)]
    {
      hide View, After, Put, Next, Used, Slot, FourBack;
      PointersPut(wptr, rptr, WRAP);
      Stored(buff, wptr, rptr, WRAP, m);
      AfterAdd(run, m);
      ghost var n := Used(wptr, rptr, WRAP);
      if n == SLOTS { FourBackIsNext(wptr, rptr); }
      buff := buff[Slot(wptr) := m];
      wptr := Next(wptr, WRAP);
      if Used(wptr, rptr, WRAP) > SLOTS {
        rptr := FourBack(wptr);
      }
      assert Queue() == Put(old(Queue()), m);
      run := run + [Add(m)];
    }

    // The oldest matrix is read out.
    method Take() returns (m: Matrix, got: bool)
      requires Valid()
      modifies this
      ensures Valid() && got == (old(Queue()) != [])
      ensures !got ==> Queue() == [] && run == old(run)
      ensures got ==> [m] + Queue() == old(Queue()) && run == old(run) + [Event.Take]
    {
      PointerTake(wptr, rptr, WRAP);
      if wptr == rptr {
        return [], false;
      }
      Fetched(buff, wptr, rptr, WRAP);
      hide View, After, Next, Used, Slot;
      m, got := buff[Slot(rptr)], true;
      rptr := Next(rptr, WRAP);
      AfterTake(run);
      run := run + [Event.Take];
    }

    // For any interleaving: the matrices waiting are the ones that went in last, and those read
    // out came out in order.
    lemma InOrder()
      requires Valid()
      ensures Newest(Added(run), Taken([], run), Queue())
    {
      QueueIsNewest([], run);
      assert [] + Added(run) == Added(run);
    }
  }
}
