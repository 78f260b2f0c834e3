/** Ghost-key removal and debouncing in application/keyboard/keyboard.c. A row is the 32-bit word of
    keys seen closed on one drive line; a column is a word with one bit set. */
module Keyboard {
  import opened Columns

  // ---------------------------------------------------------------- ghost keys

  // Two rows with the columns mix in common have more than one key closed between them: three
  // corners of a rectangle, so the fourth cannot be told from a pressed key.
  predicate Ambiguous(mix: bv32, x: bv32, y: bv32) {
    mix != 0 && (!AtMostOne(mix) || x ^ y != 0)
  }

  function Mix(x: bv32, y: bv32): bv32 {
    if Ambiguous(Both(x, y), x, y) then Both(x, y) else 0
  }

  lemma MixParts(x: bv32, y: bv32)
    ensures Mix(x, y) == Both(x, y) || (Mix(x, y) == 0 && x == y && AtMostOne(x))
    ensures Mix(x, y) == Mix(y, x) && Within(Mix(x, y), Both(x, y))
  {
    AndXor(x, y);
    EmptyWithin(Both(x, y));
    hide AtMostOne, Within, Both;
    if Mix(x, y) != Both(x, y) {
      SameIfXorZero(x, y);
    }
  }

  // The columns row x has in such a way in common with any of the rows m.
  function RowMix(x: bv32, m: seq<bv32>): bv32 {
    if m == [] then 0 else Either(RowMix(x, m[..|m| - 1]), Mix(x, m[|m| - 1]))
  }

  // The same over all pairs of rows whose first is one of the first n.
  function MixUpTo(m: seq<bv32>, n: nat): bv32
    requires n <= |m|
  {
    if n == 0 then 0 else Either(MixUpTo(m, n - 1), RowMix(m[n - 1], m[n..]))
  }

  function AllMix(m: seq<bv32>): bv32 {
    MixUpTo(m, |m|)
  }

  // Every row loses the columns of every pair, whatever the order of the rows.
  function Cleaned(m: seq<bv32>): (r: seq<bv32>)
    ensures |r| == |m|
  {
    seq(|m|, i requires 0 <= i < |m| => Without(m[i], AllMix(m)))
  }

  lemma {:induction false} RowMixHas(x: bv32, m: seq<bv32>, j: nat)
    requires j < |m|
    ensures Within(Mix(x, m[j]), RowMix(x, m))
    decreases |m|
  {
    hide Mix, Within, Either;
    if j < |m| - 1 {
      RowMixHas(x, m[..|m| - 1], j);
      WithinFirst(Mix(x, m[j]), RowMix(x, m[..|m| - 1]), Mix(x, m[|m| - 1]));
    }
    WithinSecond(RowMix(x, m[..|m| - 1]), Mix(x, m[|m| - 1]));
  }

  lemma {:induction false} MixUpToHas(m: seq<bv32>, n: nat, i: nat, j: nat)
    requires i < n <= |m| && i < j < |m|
    ensures Within(Mix(m[i], m[j]), MixUpTo(m, n))
    decreases n
  {
    hide Mix, Within, Either;
    if i < n - 1 {
      MixUpToHas(m, n - 1, i, j);
      WithinFirst(Mix(m[i], m[j]), MixUpTo(m, n - 1), RowMix(m[n - 1], m[n..]));
    } else {
      RowMixHas(m[i], m[n..], j - n);
      WithinSecond(MixUpTo(m, n - 1), RowMix(m[n - 1], m[n..]));
      WithinTrans(Mix(m[i], m[j]), RowMix(m[n - 1], m[n..]), MixUpTo(m, n));
    }
  }

  lemma PairMixInAll(m: seq<bv32>, i: nat, j: nat)
    requires i < |m| && j < |m| && i != j
    ensures Within(Mix(m[i], m[j]), AllMix(m))
  {
    hide Mix, Within, MixUpTo;
    MixParts(m[i], m[j]);
    if i < j {
      MixUpToHas(m, |m|, i, j);
    } else {
      MixUpToHas(m, |m|, j, i);
    }
  }

  // What two other rows mix in row x, x mixes with one of them.
  lemma ThreeRows(x: bv32, y: bv32, z: bv32)
    ensures Within(Both(x, Mix(y, z)), Either(Mix(x, y), Mix(x, z)))
  {
    MixParts(x, y);
    MixParts(y, z);
    hide Mix, AtMostOne;
    if Mix(x, y) == Both(x, y) {
      FirstCovers(x, y, Mix(y, z), Mix(x, z));
    } else {
      SecondCovers(x, Mix(x, y), Mix(x, z));
    }
  }

  // So row x loses to pairs of other rows nothing that its own pairs do not take already.
  lemma {:induction false} LaterPair(x: bv32, mask: bv32, m: seq<bv32>, a: nat, n: nat)
    requires a < n <= |m|
    requires forall k :: a <= k < |m| ==> Within(Mix(x, m[k]), mask)
    ensures Within(Both(x, RowMix(m[a], m[a + 1..n])), mask)
    decreases n
  {
    hide Mix, Within, Either, Both;
    var rest := m[a + 1..n];
    if n > a + 1 {
      LaterPair(x, mask, m, a, n - 1);
      assert rest[..|rest| - 1] == m[a + 1..n - 1];
      ThreeRows(x, m[a], m[n - 1]);
      EitherWithin(Mix(x, m[a]), Mix(x, m[n - 1]), mask);
      WithinTrans(Both(x, Mix(m[a], m[n - 1])), Either(Mix(x, m[a]), Mix(x, m[n - 1])), mask);
      BothEither(x, RowMix(m[a], m[a + 1..n - 1]), Mix(m[a], m[n - 1]), mask);
    } else {
      WithoutNone(x);
      WithoutNone(mask);
    }
  }

  // Row i has lost all it will lose once the pairs starting at rows 0..i are known: the running
  // mask of the loop does for it what the mask of all pairs would.
  lemma {:induction false} RunningMaskEnough(m: seq<bv32>, i: nat, n: nat)
    requires i < n <= |m|
    ensures Without(m[i], MixUpTo(m, i + 1)) == Without(m[i], MixUpTo(m, n))
    decreases n
  {
    if i + 1 < n {
      hide Mix, Within, Either, Both, Without, RowMix;
      RunningMaskEnough(m, i, n - 1);
      var mask := MixUpTo(m, i + 1);
      forall k | n - 1 <= k < |m|
        ensures Within(Mix(m[i], m[k]), mask)
      {
        MixUpToHas(m, i + 1, i, k);
      }
      LaterPair(m[i], mask, m, n - 1, |m|);
      assert m[n..|m|] == m[n..];
      Unneeded(m[i], mask, MixUpTo(m, n - 1), RowMix(m[n - 1], m[n..]));
    }
  }

  lemma NoPairs(m: seq<bv32>)
    ensures MixUpTo(m, 0) == 0
  {
  }

  lemma FirstPair(m: seq<bv32>, i: nat)
    requires i < |m|
    ensures Either(MixUpTo(m, i), RowMix(m[i], m[i + 1..i + 1])) == MixUpTo(m, i)
  {
    hide MixUpTo;
    WithoutNone(MixUpTo(m, i));
  }

  // The mask after row i has met row j.
  lemma NextPair(before: bv32, m: seq<bv32>, i: nat, j: nat)
    requires i < j < |m|
    ensures Either(before, RowMix(m[i], m[i + 1..j + 1])) ==
            var mask := Either(before, RowMix(m[i], m[i + 1..j]));
            if Ambiguous(Both(m[i], m[j]), m[i], m[j]) then Either(mask, Both(m[i], m[j])) else mask
  {
    hide Ambiguous, Both, Either;
    var rest := RowMix(m[i], m[i + 1..j]);
    assert m[i + 1..j + 1][..j - i - 1] == m[i + 1..j];
    EitherParts(before, rest, Mix(m[i], m[j]));
    WithoutNone(rest);
  }

  lemma RowDone(m: seq<bv32>, i: nat)
    requires i < |m|
    ensures Either(MixUpTo(m, i), RowMix(m[i], m[i + 1..|m|])) == MixUpTo(m, i + 1)
    ensures Without(m[i], MixUpTo(m, i + 1)) == Without(m[i], AllMix(m))
  {
    hide Either, RowMix, Without;
    assert m[i + 1..|m|] == m[i + 1..];
    RunningMaskEnough(m, i, |m|);
  }

  // kb_rmv_ghost_key: in place, with one mask that grows from row to row.
  method RemoveGhostKeys(m: array<bv32>)
    modifies m
    ensures m[..] == Cleaned(old(m[..]))
  {
    hide Within, Either, Without, Both, Ambiguous, RowMix, MixUpTo, Mix;
    ghost var was := m[..];
    var mixFinal: bv32 := 0;
    assert mixFinal == MixUpTo(was, 0) by { NoPairs(was); }
    for i := 0 to m.Length
      invariant mixFinal == MixUpTo(was, i)
      invariant forall k :: i <= k < m.Length ==> m[k] == was[k]
      invariant forall k :: 0 <= k < i ==> m[k] == Without(was[k], AllMix(was))
    {
      ghost var row, before := m[i], mixFinal;
      FirstPair(was, i);
      for j := i + 1 to m.Length
        invariant mixFinal == Either(before, RowMix(row, was[i + 1..j]))
        invariant m[i] == row && forall k :: i <= k < m.Length ==> m[k] == was[k]
        invariant forall k :: 0 <= k < i ==> m[k] == Without(was[k], AllMix(was))
      {
        NextPair(before, was, i, j);
        var mix := Both(m[i], m[j]);
        if Ambiguous(mix, m[i], m[j]) {
          mixFinal := Either(mixFinal, mix);
        }
      }
      RowDone(was, i);
      m[i] := Without(m[i], mixFinal);
    }
  }

  lemma LeftOver(x: bv32, y: bv32, all: bv32)
    requires Within(Mix(x, y), all) && Both(Without(x, all), Without(y, all)) != 0
    ensures Without(x, all) == Without(y, all) && One(Without(x, all))
  {
    MixParts(x, y);
    hide Mix;
    if Mix(x, y) == Both(x, y) {
      NothingLeft(x, y, all);
    } else {
      hide AtMostOne, Within, Without, Both;
      SingleWithout(x, all);
    }
  }

  lemma NothingLeft(x: bv32, y: bv32, all: bv32)
    requires Within(Both(x, y), all)
    ensures Both(Without(x, all), Without(y, all)) == 0
  {
  }

  // Only pressed keys are left.
  lemma OnlyPressedLeft(m: seq<bv32>, i: nat)
    requires i < |m|
    ensures Within(Cleaned(m)[i], m[i])
  {
    WithoutWithin(m[i], AllMix(m));
  }

  // No three corners are left: two rows that still share a column are the same single key. And
  // only pressed keys are left.
  lemma NoRectangleLeft(m: seq<bv32>, i: nat, j: nat)
    requires i < |m| && j < |m| && i != j
    ensures Within(Cleaned(m)[i], m[i])
    ensures Both(Cleaned(m)[i], Cleaned(m)[j]) != 0 ==> Cleaned(m)[i] == Cleaned(m)[j] && One(Cleaned(m)[i])
  {
    PairMixInAll(m, i, j);
    hide AllMix, Mix, One, Within, Without, Both;
    WithoutWithin(m[i], AllMix(m));
    if Both(Cleaned(m)[i], Cleaned(m)[j]) != 0 {
      LeftOver(m[i], m[j], AllMix(m));
    }
  }

  // The other rows that have column c closed have nothing else closed, nor has row i.
  ghost predicate AloneInColumn(m: seq<bv32>, i: nat, c: bv32)
    requires i < |m|
  {
    forall j :: 0 <= j < |m| && j != i && On(m[j], c) ==> Either(m[i], m[j]) == c
  }

  // Exactly which keys go: key c of row i stays if and only if it is alone in its column but for
  // rows that, like row i, have only that key.
  lemma KeyStaysIff(m: seq<bv32>, i: nat, c: bv32)
    requires i < |m| && One(c) && On(m[i], c)
    ensures On(Cleaned(m)[i], c) <==> AloneInColumn(m, i, c)
  {
    hide Mix, Within, On, Either, Without, One, MixUpTo;
    var all := AllMix(m);
    OnWithout(m[i], all, c);
    forall j | 0 <= j < |m| && j != i && On(m[j], c)
      ensures Either(m[i], m[j]) == c || On(all, c)
    {
      PairMixInAll(m, i, j);
      MixAtKey(m[i], m[j], c, all);
    }
    if AloneInColumn(m, i, c) {
      AllMixMisses(m, i, c, |m|);
    }
  }

  // So it is for key k of the row, for each of the 32 columns.
  lemma ColumnKeyStaysIff(m: seq<bv32>, i: nat, k: nat)
    requires i < |m| && k < 32 && On(m[i], Column(k))
    ensures On(Cleaned(m)[i], Column(k)) <==> AloneInColumn(m, i, Column(k))
  {
    hide On, Column, One, Cleaned, AloneInColumn;
    ColumnIsOne(k);
    KeyStaysIff(m, i, Column(k));
  }

  lemma MixAtKey(x: bv32, y: bv32, c: bv32, all: bv32)
    requires One(c) && On(x, c) && On(y, c) && Within(Mix(x, y), all)
    ensures Either(x, y) == c || On(all, c)
  {
    MixParts(x, y);
    OnBoth(x, y, c);
    if Mix(x, y) != Both(x, y) {
      hide Mix, AtMostOne, Within, Both;
      OnNonzero(x, c);
      SameKey(x, c);
      AndXor(c, c);
      assert x | x == x;
    } else {
      OnWithin(Both(x, y), all, c);
    }
  }

  // A mix of two rows has column c only if both rows do and one of them has more.
  lemma MixOff(y: bv32, z: bv32, c: bv32)
    requires One(c) && (On(y, c) && On(z, c) ==> y == c && z == c)
    ensures !On(Mix(y, z), c)
  {
    if y == c && z == c {
      hide AtMostOne, On;
      AndXor(c, c);
      XorSelf(c);
      NothingOn(c);
    } else {
      MixParts(y, z);
      OnBoth(y, z, c);
      if On(Mix(y, z), c) {
        hide Mix, AtMostOne, Both, On;
        OnWithin(Mix(y, z), Both(y, z), c);
      }
    }
  }

  lemma {:induction false} RowMixMisses(m: seq<bv32>, i: nat, c: bv32, a: nat, n: nat)
    requires i < |m| && a < n <= |m| && One(c) && On(m[i], c) && AloneInColumn(m, i, c)
    ensures !On(RowMix(m[a], m[a + 1..n]), c)
    decreases n
  {
    hide One, Mix, Either, On;
    if n > a + 1 {
      RowMixMisses(m, i, c, a, n - 1);
      var b := n - 1;
      assert m[a + 1..n][..n - a - 2] == m[a + 1..b];
      if On(m[a], c) && On(m[b], c) {
        forall j | j == a || j == b
          ensures m[j] == c
        {
          var k := if j != i then i else if a == i then b else a;
          EitherSwap(m[i], m[k]);
          if j != i { PartOfKey(m[i], m[j], c); } else { PartOfKey(m[k], m[i], c); }
        }
      }
      MixOff(m[a], m[b], c);
      OnEither(RowMix(m[a], m[a + 1..b]), Mix(m[a], m[b]), c);
    } else {
      NothingOn(c);
    }
  }

  lemma {:induction false} AllMixMisses(m: seq<bv32>, i: nat, c: bv32, n: nat)
    requires i < |m| && n <= |m| && One(c) && On(m[i], c) && AloneInColumn(m, i, c)
    ensures !On(MixUpTo(m, n), c)
    decreases n
  {
    hide One, On, Either, RowMix, AloneInColumn;
    NothingOn(c);
    if n > 0 {
      AllMixMisses(m, i, c, n - 1);
      RowMixMisses(m, i, c, n - 1, |m|);
      assert m[n..|m|] == m[n..];
      OnEither(MixUpTo(m, n - 1), RowMix(m[n - 1], m[n..]), c);
    }
  }

  ghost predicate NoPairMixes(m: seq<bv32>) {
    forall i, j :: 0 <= i < j < |m| ==> Mix(m[i], m[j]) == 0
  }

  lemma {:induction false} RowMixNone(m: seq<bv32>, a: nat, n: nat)
    requires NoPairMixes(m) && a < n <= |m|
    ensures RowMix(m[a], m[a + 1..n]) == 0
    decreases n
  {
    if n > a + 1 {
      hide Mix, Either;
      RowMixNone(m, a, n - 1);
      assert m[a + 1..n][..n - a - 2] == m[a + 1..n - 1];
      WithoutNone(0);
    }
  }

  lemma {:induction false} MixNone(m: seq<bv32>, n: nat)
    requires NoPairMixes(m) && n <= |m|
    ensures MixUpTo(m, n) == 0
    decreases n
  {
    if n > 0 {
      hide Either, RowMix, NoPairMixes;
      MixNone(m, n - 1);
      RowMixNone(m, n - 1, |m|);
      assert m[n..|m|] == m[n..];
      WithoutNone(0);
    }
  }

  lemma MixGone(x: bv32, y: bv32, all: bv32)
    requires Within(Mix(x, y), all) && Without(x, all) == x
    ensures Mix(x, y) == 0
  {
    MixParts(x, y);
    hide Mix, AtMostOne;
  }

  // The matrix is left as it is exactly when no pair of rows has keys that cannot be told apart.
  lemma UnchangedIff(m: seq<bv32>)
    ensures Cleaned(m) == m <==> NoPairMixes(m)
  {
    hide Mix, Within, Without, MixUpTo;
    if Cleaned(m) == m {
      forall i, j | 0 <= i < j < |m|
        ensures Mix(m[i], m[j]) == 0
      {
        PairMixInAll(m, i, j);
        assert Cleaned(m)[i] == m[i];
        MixGone(m[i], m[j], AllMix(m));
      }
    }
    if NoPairMixes(m) {
      MixNone(m, |m|);
      forall i | 0 <= i < |m|
        ensures Cleaned(m)[i] == m[i]
      {
        WithoutNone(m[i]);
      }
    }
  }

  // Cleaning twice is cleaning once.
  lemma CleanedTwice(m: seq<bv32>)
    ensures Cleaned(Cleaned(m)) == Cleaned(m)
  {
    hide Mix, Cleaned, One, Both;
    var r := Cleaned(m);
    forall i, j | 0 <= i < j < |r|
      ensures Mix(r[i], r[j]) == 0
    {
      NoRectangleLeft(m, i, j);
      NoMix(r[i], r[j]);
    }
    UnchangedIff(r);
  }

  lemma NoMix(x: bv32, y: bv32)
    requires Both(x, y) != 0 ==> x == y && One(x)
    ensures Mix(x, y) == 0
  {
    if Both(x, y) == 0 {
      hide AtMostOne;
    } else {
      AndXor(x, x);
      XorSelf(x);
      hide AtMostOne, Both;
    }
  }

  // ---------------------------------------------------------------- debouncing

  // The filtered row from the last filtered row and the last two scans.
  function Filtered(last: bv32, pre: bv32, now: bv32): bv32 {
    (!last & (pre & now)) | (last & (pre | now))
  }

  // With the filter off a scan passes as it is.
  function Outcome(filterOn: bool, last: bv32, pre: bv32, now: bv32): bv32 {
    if filterOn then Filtered(last, pre, now) else now
  }

  lemma FilteredKey(last: bv32, pre: bv32, now: bv32, c: bv32)
    requires One(c)
    ensures On(Filtered(last, pre, now), c) == if On(pre, c) == On(now, c) then On(now, c) else On(last, c)
  {
    OnMeans(last, c);
    OnMeans(pre, c);
    OnMeans(now, c);
    hide One;
  }

  // One call of the filter, for one row: whether it filters, and the scan.
  datatype Call = Call(on: bool, scan: bv32)

  // The scan of call k of a run; before the first call nothing was pressed.
  function ScanAt(run: seq<Call>, k: int): bv32 {
    if 0 <= k < |run| then run[k].scan else 0
  }

  // The outcome for a row after a run of calls, from the zeros it starts with.
  function FilterRun(run: seq<Call>): bv32
    decreases |run|
  {
    if run == [] then 0
    else
      var n := |run| - 1;
      Outcome(run[n].on, FilterRun(run[..n]), ScanAt(run, n - 1), run[n].scan)
  }

  lemma FilterRunStep(run: seq<Call>, call: Call)
    ensures FilterRun(run + [call]) == Outcome(call.on, FilterRun(run), ScanAt(run, |run| - 1), call.scan)
    ensures ScanAt(run + [call], |run|) == call.scan
  {
    hide Outcome;
    assert (run + [call])[..|run|] == run;
  }

  // Before the first call nothing was pressed: if it filters, no key counts, and if not, those it
  // sees closed.
  lemma FirstCall(call: Call, c: bv32)
    requires One(c)
    ensures On(FilterRun([call]), c) <==> !call.on && On(call.scan, c)
  {
    assert [call][..0] == [];
    FilteredKey(0, 0, call.scan, c);
    NothingOn(c);
    hide One, On, Filtered;
    assert FilterRun([call]) == Outcome(call.on, 0, 0, call.scan);
  }

  // Call k settles key c as closed: it sees it closed and, if it filters, so did the call before.
  ghost predicate Sets(run: seq<Call>, c: bv32, k: nat)
    requires k < |run|
  {
    On(run[k].scan, c) && (run[k].on ==> On(ScanAt(run, k - 1), c))
  }

  ghost predicate Clears(run: seq<Call>, c: bv32, k: nat)
    requires k < |run|
  {
    !On(run[k].scan, c) && (run[k].on ==> !On(ScanAt(run, k - 1), c))
  }

  ghost predicate Held(run: seq<Call>, c: bv32) {
    exists k :: 0 <= k < |run| && Sets(run, c, k) && forall j :: k < j < |run| ==> !Clears(run, c, j)
  }

  lemma OutcomeKey(run: seq<Call>, c: bv32)
    requires One(c) && run != []
    ensures var n := |run| - 1;
      On(FilterRun(run), c) <==> Sets(run, c, n) || (!Clears(run, c, n) && On(FilterRun(run[..n]), c))
  {
    var n := |run| - 1;
    FilteredKey(FilterRun(run[..n]), ScanAt(run, n - 1), run[n].scan, c);
    hide On, One, Filtered;
  }

  lemma HeldStep(run: seq<Call>, c: bv32)
    requires run != []
    ensures var n := |run| - 1;
      Held(run, c) <==> Sets(run, c, n) || (!Clears(run, c, n) && Held(run[..n], c))
  {
    hide On;
    var n := |run| - 1;
    var before := run[..n];
    assert forall k :: 0 <= k < n ==> Sets(run, c, k) == Sets(before, c, k);
    assert forall k :: 0 <= k < n ==> Clears(run, c, k) == Clears(before, c, k);
    if Held(run, c) && !Sets(run, c, n) {
      var k :| 0 <= k < |run| && Sets(run, c, k) && forall j :: k < j < |run| ==> !Clears(run, c, j);
      assert Sets(before, c, k);
    }
    if Held(before, c) && !Clears(run, c, n) {
      var k :| 0 <= k < n && Sets(before, c, k) && forall j :: k < j < n ==> !Clears(before, c, j);
      assert Sets(run, c, k);
    }
  }

  // What debouncing promises, for every run, filtering or not at each call: a key counts as
  // pressed exactly if some call settled it as closed and no later one as open.
  lemma {:induction false} DebouncedIff(run: seq<Call>, c: bv32)
    requires One(c)
    ensures On(FilterRun(run), c) <==> Held(run, c)
    decreases |run|
  {
    hide On, One, FilterRun, Held, Sets, Clears;
    if run == [] {
      NothingPressed(c);
    } else {
      DebouncedIff(run[..|run| - 1], c);
      OutcomeKey(run, c);
      HeldStep(run, c);
    }
  }

  lemma NothingPressed(c: bv32)
    ensures !On(FilterRun([]), c) && !Held([], c)
  {
  }

  // What the two memories of a row hold after its run of calls.
  ghost predicate Follows(run: seq<Call>, pre: bv32, last: bv32) {
    pre == ScanAt(run, |run| - 1) && last == FilterRun(run)
  }

  lemma FollowsStep(run: seq<Call>, pre: bv32, last: bv32, call: Call)
    requires Follows(run, pre, last)
    ensures Follows(run + [call], call.scan, Outcome(call.on, last, pre, call.scan))
  {
    hide Outcome, FilterRun;
    FilterRunStep(run, call);
  }

  class Debounce {
    // mtrx_pre and mtrx_last.
    const pre: array<bv32>
    const last: array<bv32>
    // All calls so far, row by row.
    ghost var runs: seq<seq<Call>>

    ghost predicate Valid()
      reads this, pre, last
    {
      && pre != last && pre.Length == last.Length == |runs|
      && forall i :: 0 <= i < |runs| ==> Follows(runs[i], pre[i], last[i])
    }

    constructor (rows: nat)
      ensures fresh(pre) && fresh(last) && Valid() && |runs| == rows
      ensures forall i :: 0 <= i < rows ==> runs[i] == []
    {
      pre := new bv32[rows](_ => 0);
      last := new bv32[rows](_ => 0);
      runs := seq(rows, _ => []);
    }

    // key_debounce_filter: filters the scan in place and tells whether the outcome changed. Every
    // row's outcome is that of its run of calls.
    method Filter(cur: array<bv32>, filterOn: bool) returns (changed: bool)
      requires Valid() && cur != pre && cur != last && cur.Length == |runs|
      modifies this, cur, pre, last
      ensures Valid() && |runs| == cur.Length
      ensures forall i :: 0 <= i < cur.Length ==> runs[i] == old(runs[i]) + [Call(filterOn, old(cur[i]))]
      ensures cur[..] == last[..]
      ensures changed <==> cur[..] != old(last[..])
    {
      hide Follows;
      ghost var was, scans, before := runs, cur[..], last[..];
      changed := false;
      for i := 0 to cur.Length
        invariant Valid() && |runs| == |was| == cur.Length
        invariant forall k :: 0 <= k < i ==> runs[k] == was[k] + [Call(filterOn, scans[k])]
        invariant forall k :: i <= k < cur.Length ==> runs[k] == was[k] && cur[k] == scans[k]
        invariant cur[..i] == last[..i] && last[i..] == before[i..]
        invariant changed <==> last[..i] != before[..i]
      {
        assert last[i] == last[i..][0] == before[i];
        ghost var front := last[..i];
        var differs := FilterRow(cur, i, filterOn);
        assert last[..i] == front && cur[..i] == front;
        assert last[i + 1..] == last[i..][1..] && before[i + 1..] == before[i..][1..];
        assert last[..i + 1] == last[..i] + [last[i]] && before[..i + 1] == before[..i] + [before[i]];
        changed := changed || differs;
      }
      assert cur[..] == cur[..cur.Length] && last[..] == last[..cur.Length] && before == before[..cur.Length];
    }

    // One row of it.
    method FilterRow(cur: array<bv32>, i: nat, filterOn: bool) returns (differs: bool)
      requires Valid() && cur != pre && cur != last && cur.Length == |runs| && i < cur.Length
      modifies `runs, cur, pre, last
      ensures Valid() && runs == old(runs)[i := old(runs[i]) + [Call(filterOn, old(cur[i]))]]
      ensures cur[i] == last[i] && (differs <==> last[i] != old(last[i]))
      ensures cur[..] == old(cur[..])[i := last[i]] && last[..] == old(last[..])[i := last[i]]
    {
      hide Outcome, Follows;
      FollowsStep(runs[i], pre[i], last[i], Call(filterOn, cur[i]));
      var tmp := cur[i];
      cur[i] := Outcome(filterOn, last[i], pre[i], tmp);
      differs := cur[i] != last[i];
      pre[i] := tmp;
      last[i] := cur[i];
      runs := runs[i := runs[i] + [Call(filterOn, tmp)]];
    }

    // So the outcome of the last call holds the keys that are pressed.
    lemma PressedIff(i: nat, c: bv32)
      requires Valid() && i < |runs| && One(c)
      ensures On(last[i], c) <==> Held(runs[i], c)
    {
      hide On, One, Held;
      assert Follows(runs[i], pre[i], last[i]);
      DebouncedIff(runs[i], c);
    }
  }
}
