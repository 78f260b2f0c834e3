/** How the quantiser of application/audio/adpcm.c settles on a constant input: from every state
    it stops overloading within 11 samples, for good, and reaches the input exactly. */
module AdpcmSettling {
  import opened AdpcmCodec

  lemma TrackedIsNotOverloaded(s: State, x: Sample)
    requires Tracked(s, x)
    ensures !Overloaded(s, x)
  {
    StepRange(s.idx);
  }

  // While overload lasts the index climbs by 8 and the difference shrinks by at least 11.
  lemma {:induction false} OverloadRun(s: State, x: Sample, n: nat)
    requires forall i :: 0 <= i < n ==> Overloaded(Settle(s, x, i), x)
    ensures Settle(s, x, n).idx >= 8 * n || Settle(s, x, n).idx == MAX_INDEX
    ensures Abs(Difference(Settle(s, x, n), x)) + 11 * n <= Abs(Difference(s, x))
  {
    hide EncodeNext, Overloaded, Tracked;
    if n > 0 {
      OverloadRun(s, x, n - 1);
      OverloadRaisesIndex(Settle(s, x, n - 1), x);
      SampleError(Settle(s, x, n - 1), x);
    }
  }

  lemma NoOverloadAtTop(s: State, x: Sample)
    requires s.idx == MAX_INDEX && Abs(Difference(s, x)) <= 65535 - 11
    ensures !Overloaded(s, x)
  {
    assert StepOf(88) == 32767;
  }

  // The last state of a run of overload, of n samples so far.
  lemma OverloadEnds(s: State, x: Sample, n: nat) returns (t: nat)
    requires n <= 11
    requires forall i :: 0 <= i < n ==> Overloaded(Settle(s, x, i), x)
    ensures n <= t <= 11 && !Overloaded(Settle(s, x, t), x)
    ensures forall i :: 0 <= i < t ==> Overloaded(Settle(s, x, i), x)
    decreases 11 - n
  {
    hide EncodeNext, Overloaded, Tracked;
    OverloadRun(s, x, n);
    if !Overloaded(Settle(s, x, n), x) {
      t := n;
    } else {
      if n == 11 { NoOverloadAtTop(Settle(s, x, n), x); }
      t := OverloadEnds(s, x, n + 1);
    }
  }

  // From the sample after that on, the difference stays below the step and the index falls to 0.
  lemma {:induction false} TrackedRun(s: State, x: Sample, t: nat, n: nat)
    requires t < n && !Overloaded(Settle(s, x, t), x)
    ensures Tracked(Settle(s, x, n), x)
    ensures Settle(s, x, n).idx == 0 || Settle(s, x, n).idx <= MAX_INDEX - (n - t - 1)
  {
    hide EncodeNext, Overloaded, Tracked;
    if n == t + 1 {
      TrackedAfterOverload(Settle(s, x, t), x);
    } else {
      TrackedRun(s, x, t, n - 1);
      TrackedStays(Settle(s, x, n - 1), x);
    }
  }

  lemma SmallestStep(s: State, x: Sample)
    requires s.idx == 0 && Tracked(s, x)
    ensures EncodeNext(s, x).idx == 0
    ensures var d, d' := Abs(Difference(s, x)), Abs(Difference(EncodeNext(s, x), x));
      && d' <= 2
      && (d <= 2 ==> d' <= 1)
      && (d <= 1 ==> d' == 0)
  {
    var d := Difference(s, x);
    TrackedStays(s, x);
    SampleError(s, x);
    QuantiseRounds(Abs(d), 7);
    MoveError(s, x, TakenOf(d, 7), EncodeCode(s, x));
  }

  lemma {:induction false} SettledRun(s: State, x: Sample, t: nat, n: nat)
    requires t + 92 <= n && !Overloaded(Settle(s, x, t), x)
    ensures Settle(s, x, n) == State(x, 0)
  {
    hide EncodeNext, Overloaded, Tracked;
    if n == t + 92 {
      TrackedRun(s, x, t, t + 89);
      SmallestStep(Settle(s, x, t + 89), x);
      TrackedRun(s, x, t, t + 90);
      SmallestStep(Settle(s, x, t + 90), x);
      TrackedRun(s, x, t, t + 91);
      SmallestStep(Settle(s, x, t + 91), x);
    } else {
      SettledRun(s, x, t, n - 1);
      SettledIsTracked(x);
      SmallestStep(State(x, 0), x);
    }
  }

  // Every start state, every input value: a first phase of at most 11 overloaded samples, none
  // overloaded after it, and from sample 103 on the exact input at the smallest step.
  lemma ConstantInputSettles(s: State, x: Sample) returns (t: nat)
    ensures t <= 11
    ensures forall i :: 0 <= i < t ==> Overloaded(Settle(s, x, i), x)
    ensures forall n :: n >= t ==> !Overloaded(Settle(s, x, n), x)
    ensures forall n :: n >= 103 ==> Settle(s, x, n) == State(x, 0)
  {
    hide EncodeNext, Overloaded, Tracked;
    t := OverloadEnds(s, x, 0);
    forall n | n >= t
      ensures !Overloaded(Settle(s, x, n), x)
    {
      if n > t {
        TrackedRun(s, x, t, n);
        TrackedIsNotOverloaded(Settle(s, x, n), x);
      }
    }
    forall n | n >= 103
      ensures Settle(s, x, n) == State(x, 0)
    {
      SettledRun(s, x, t, n);
    }
  }

  lemma SettledIsTracked(x: Sample)
    ensures Tracked(State(x, 0), x)
  {
    StepRange(0);
  }

  lemma OverloadedRise(s: State, x: Sample)
    requires Overloaded(s, x) && Difference(s, x) > 0
    ensures var step := StepOf(s.idx);
      EncodeNext(s, x).predict == s.predict + step / 8 + step + step / 2 + step / 2 / 2
  {
    StepRange(s.idx);
    QuantiseRemainder(Difference(s, x), StepOf(s.idx));
    MoveError(s, x, TakenOf(Difference(s, x), StepOf(s.idx)), EncodeCode(s, x));
  }

  // The predictions of the longest run of overload.
  function LongestRun(n: nat): Sample
    requires n <= 10
  {
    [-32768, -32757, -32727, -32664, -32528, -32235, -31604, -30247, -27337, -21101, -7729][n]
  }

  lemma LongestRunOverloads(n: nat)
    requires n <= 10
    ensures LongestRun(n) <= -7729 && StepOf(8 * n) <= 15289
    ensures Overloaded(State(LongestRun(n), 8 * n), 32767)
  {
  }

  lemma LongestRunStep(n: nat)
    requires 0 < n <= 10
    ensures var step := StepOf(8 * (n - 1));
      LongestRun(n) == LongestRun(n - 1) + step / 8 + step + step / 2 + step / 2 / 2
  {
  }

  // The bound of eleven is attained: samples 0 to 10 of this run are overloaded.
  lemma {:induction false} OverloadBoundAttained(n: nat)
    requires n <= 10
    ensures Settle(State(-32768, 0), 32767, n) == State(LongestRun(n), 8 * n)
    ensures Overloaded(Settle(State(-32768, 0), 32767, n), 32767)
  {
    hide EncodeNext, Overloaded, StepOf;
    LongestRunOverloads(n);
    if n > 0 {
      var s := State(LongestRun(n - 1), 8 * (n - 1));
      OverloadBoundAttained(n - 1);
      LongestRunOverloads(n - 1);
      OverloadRaisesIndex(s, 32767);
      OverloadedRise(s, 32767);
      LongestRunStep(n);
    }
  }
}
