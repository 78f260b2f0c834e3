/** The IMA ADPCM quantiser of application/audio/adpcm.c: one predictor, driven by samples in the
    encoder and by four-bit codes in the decoder. */
module AdpcmCodec {

  const INDEX_TABLE: seq<int> := [-1, -1, -1, -1, 2, 4, 6, 8, -1, -1, -1, -1, 2, 4, 6, 8]

  const MAX_INDEX := 88

  type Sample = x: int | -32768 <= x <= 32767
  type Code = c: int | 0 <= c < 16
  type Index = i: int | 0 <= i <= 88

  // What encoder and decoder both keep from sample to sample.
  datatype State = State(predict: Sample, idx: Index)

  // The step table.
  function StepOf(i: Index): int {
    match i
    case 0 => 7 case 1 => 8 case 2 => 9 case 3 => 10 case 4 => 11
    case 5 => 12 case 6 => 13 case 7 => 14 case 8 => 16 case 9 => 17
    case 10 => 19 case 11 => 21 case 12 => 23 case 13 => 25 case 14 => 28
    case 15 => 31 case 16 => 34 case 17 => 37 case 18 => 41 case 19 => 45
    case 20 => 50 case 21 => 55 case 22 => 60 case 23 => 66 case 24 => 73
    case 25 => 80 case 26 => 88 case 27 => 97 case 28 => 107 case 29 => 118
    case 30 => 130 case 31 => 143 case 32 => 157 case 33 => 173 case 34 => 190
    case 35 => 209 case 36 => 230 case 37 => 253 case 38 => 279 case 39 => 307
    case 40 => 337 case 41 => 371 case 42 => 408 case 43 => 449 case 44 => 494
    case 45 => 544 case 46 => 598 case 47 => 658 case 48 => 724 case 49 => 796
    case 50 => 876 case 51 => 963 case 52 => 1060 case 53 => 1166 case 54 => 1282
    case 55 => 1411 case 56 => 1552 case 57 => 1707 case 58 => 1878 case 59 => 2066
    case 60 => 2272 case 61 => 2499 case 62 => 2749 case 63 => 3024 case 64 => 3327
    case 65 => 3660 case 66 => 4026 case 67 => 4428 case 68 => 4871 case 69 => 5358
    case 70 => 5894 case 71 => 6484 case 72 => 7132 case 73 => 7845 case 74 => 8630
    case 75 => 9493 case 76 => 10442 case 77 => 11487 case 78 => 12635 case 79 => 13899
    case 80 => 15289 case 81 => 16818 case 82 => 18500 case 83 => 20350 case 84 => 22385
    case 85 => 24623 case 86 => 27086 case 87 => 29794 case _ => 32767
  }

  function ClampSample(p: int): Sample {
    if p > 32767 then 32767 else if p < -32768 then -32768 else p
  }

  function ClampIndex(i: int): Index {
    if i < 0 then 0 else if i > MAX_INDEX then MAX_INDEX else i
  }

  // Successive approximation of diff by step, step / 2 and step / 4, for bits j = 4, 2 and 1: the
  // code bits taken and what they add up to.
  function Quantise(diff: int, step: int, j: nat): (r: (int, int))
    decreases j
  {
    if j == 0 then (0, 0)
    else if diff >= step then
      var r := Quantise(diff - step, step / 2, j / 2);
      (r.0 + j, r.1 + step)
    else
      Quantise(diff, step / 2, j / 2)
  }

  // The difference a code stands for, read off its bits.
  function Dequantise(code: Code, step: int): int {
    step / 8 + (if code / 4 % 2 == 1 then step else 0)
             + (if code / 2 % 2 == 1 then step / 2 else 0)
             + (if code % 2 == 1 then step / 2 / 2 else 0)
  }

  function Abs(x: int): int {
    if x < 0 then -x else x
  }

  function Difference(s: State, x: Sample): int {
    x - s.predict
  }

  // The code for a difference: bit 3 is its sign.
  function CodeOf(d: int, step: int): Code {
    QuantiseValue(Abs(d), step, d < 0);
    8 * Bit(d < 0) + Quantise(Abs(d), step, 4).0
  }

  // What the encoder builds up while it takes the bits.
  function TakenOf(d: int, step: int): int {
    step / 8 + Quantise(Abs(d), step, 4).1
  }

  function EncodeCode(s: State, x: Sample): Code {
    CodeOf(Difference(s, x), StepOf(s.idx))
  }

  // Both sides move the prediction by diffq and look up the index change.
  function Move(s: State, down: bool, diffq: int, c: Code): State {
    State(ClampSample(if down then s.predict - diffq else s.predict + diffq),
          ClampIndex(s.idx + INDEX_TABLE[c]))
  }

  // The encoder's next state, from the sum it has built up bit by bit.
  function EncodeNext(s: State, x: Sample): State {
    Move(s, Difference(s, x) < 0, TakenOf(Difference(s, x), StepOf(s.idx)), EncodeCode(s, x))
  }

  // The decoder's next state.
  function DecodeNext(s: State, c: Code): State {
    Move(s, c / 8 % 2 == 1, Dequantise(c, StepOf(s.idx)), c)
  }

  // ---------------------------------------------------------------- the quantiser

  function Bit(b: bool): int {
    if b then 1 else 0
  }

  lemma LastRound(diff: int, step: int)
    ensures Quantise(diff, step, 1) == if diff >= step then (1, step) else (0, 0)
  {
    assert Quantise(diff - step, step / 2, 0) == (0, 0);
    assert Quantise(diff, step / 2, 0) == (0, 0);
  }

  lemma MiddleRound(diff: int, step: int)
    ensures var rest := if diff >= step then diff - step else diff;
      Quantise(diff, step, 2) == (2 * Bit(diff >= step) + Bit(rest >= step / 2),
                                  step * Bit(diff >= step) + step / 2 * Bit(rest >= step / 2))
  {
    LastRound(diff - step, step / 2);
    LastRound(diff, step / 2);
  }

  // The three rounds written out.
  lemma QuantiseRounds(diff: int, step: int)
    ensures var d1 := if diff >= step then diff - step else diff;
      var d2 := if d1 >= step / 2 then d1 - step / 2 else d1;
      && Quantise(diff, step, 4).0 == 4 * Bit(diff >= step) + 2 * Bit(d1 >= step / 2) + Bit(d2 >= step / 2 / 2)
      && Quantise(diff, step, 4).1 == (if diff >= step then step else 0)
            + (if d1 >= step / 2 then step / 2 else 0) + (if d2 >= step / 2 / 2 then step / 2 / 2 else 0)
  {
    MiddleRound(diff - step, step / 2);
    MiddleRound(diff, step / 2);
  }

  lemma DequantiseBits(b4: bool, b2: bool, b1: bool, sign: bool, step: int)
    ensures Dequantise(8 * Bit(sign) + 4 * Bit(b4) + 2 * Bit(b2) + Bit(b1), step)
         == step / 8 + (if b4 then step else 0) + (if b2 then step / 2 else 0) + (if b1 then step / 2 / 2 else 0)
  {
    var code := 8 * Bit(sign) + 4 * Bit(b4) + 2 * Bit(b2) + Bit(b1);
    assert code / 4 == 2 * Bit(sign) + Bit(b4);
    assert code / 2 == 4 * Bit(sign) + 2 * Bit(b4) + Bit(b2);
  }

  // Encoder and decoder agree on what a code means: the bits taken add up to what the decoder
  // reads off them, and the sign bit does not disturb it.
  lemma QuantiseValue(diff: int, step: int, sign: bool)
    ensures 0 <= Quantise(diff, step, 4).0 < 8
    ensures step / 8 + Quantise(diff, step, 4).1 == Dequantise(8 * Bit(sign) + Quantise(diff, step, 4).0, step)
    ensures Quantise(diff, step, 4).0 >= 4 <==> diff >= step
  {
    QuantiseRounds(diff, step);
    var d1 := if diff >= step then diff - step else diff;
    var d2 := if d1 >= step / 2 then d1 - step / 2 else d1;
    SumMatchesCode(Quantise(diff, step, 4), step, sign, diff >= step, d1 >= step / 2, d2 >= step / 2 / 2);
  }

  lemma SumMatchesCode(q: (int, int), step: int, sign: bool, b4: bool, b2: bool, b1: bool)
    requires q.0 == 4 * Bit(b4) + 2 * Bit(b2) + Bit(b1)
    requires q.1 == (if b4 then step else 0) + (if b2 then step / 2 else 0) + (if b1 then step / 2 / 2 else 0)
    ensures 0 <= q.0 < 8 && (q.0 >= 4 <==> b4)
    ensures step / 8 + q.1 == Dequantise(8 * Bit(sign) + q.0, step)
  {
    DequantiseBits(b4, b2, b1, sign, step);
  }

  lemma SignBit(down: bool, low: int)
    requires 0 <= low < 8
    ensures (8 * Bit(down) + low) / 8 % 2 == 1 <==> down
  {
  }

  lemma CodeMeaning(d: int, step: int)
    ensures Dequantise(CodeOf(d, step), step) == TakenOf(d, step)
  {
    QuantiseValue(Abs(d), step, d < 0);
    hide Quantise, Dequantise, Abs;
  }

  lemma CodeSign(d: int, step: int)
    ensures CodeOf(d, step) / 8 % 2 == 1 <==> d < 0
  {
    QuantiseValue(Abs(d), step, d < 0);
    SignBit(d < 0, Quantise(Abs(d), step, 4).0);
  }

  lemma CodeIndex(d: int, step: int)
    ensures INDEX_TABLE[CodeOf(d, step)] == -1 <==> Abs(d) < step
    ensures INDEX_TABLE[CodeOf(d, step)] >= -1
  {
    QuantiseValue(Abs(d), step, d < 0);
    IndexFacts(CodeOf(d, step), Quantise(Abs(d), step, 4).0);
  }

  lemma IndexFacts(c: Code, low: int)
    requires 0 <= low < 8 && (c == low || c == 8 + low)
    ensures INDEX_TABLE[c] >= -1
    ensures INDEX_TABLE[c] == -1 <==> low < 4
    ensures low == 7 ==> INDEX_TABLE[c] == 8
  {
  }

  // Decoding the code of a sample takes the decoder to the encoder's own next state.
  lemma DecodeFollowsEncode(s: State, x: Sample)
    ensures DecodeNext(s, EncodeCode(s, x)) == EncodeNext(s, x)
  {
    CodeMeaning(Difference(s, x), StepOf(s.idx));
    CodeSign(Difference(s, x), StepOf(s.idx));
  }

  // What one sample does, by comparing the difference with the step and its fractions: which of
  // the four quarters behind 0 or behind the step it falls into. The fourth is open upward.
  lemma EncodeByQuarters(s: State, x: Sample)
    ensures var d, step := Abs(x - s.predict), StepOf(s.idx);
      var h, q := step / 2, step / 4;
      var e := if d < step then d else d - step;
      var quarter := if e < q then 0 else if e < h then 1 else if e < h + q then 2 else 3;
      var part := if quarter == 0 then 0 else if quarter == 1 then q else if quarter == 2 then h else h + q;
      var sum := step / 8 + part + if d < step then 0 else step;
      var r := if d < step then -1 else 2 + 2 * quarter;
      var t := EncodeNext(s, x);
      && EncodeCode(s, x) as int == quarter + (if d < step then 0 else 4) + (if x < s.predict then 8 else 0)
      && t.idx as int == (if s.idx + r < 0 then 0 else if s.idx + r > 88 then 88 else s.idx + r)
      && t.predict as int ==
         (if x < s.predict then if s.predict - sum < -32768 then -32768 else s.predict - sum
          else if s.predict + sum > 32767 then 32767 else s.predict + sum)
  {
    hide StepOf, Quantise;
    var d, step := Abs(x - s.predict), StepOf(s.idx);
    StepRange(s.idx);
    QuantiseByQuarters(d, step);
    TableByBits(EncodeCode(s, x));
    hide Abs;
  }

  lemma QuantiseByQuarters(d: nat, step: int)
    requires step >= 7
    ensures var h, q := step / 2, step / 4;
      var e := if d < step then d else d - step;
      var quarter := if e < q then 0 else if e < h then 1 else if e < h + q then 2 else 3;
      var part := if quarter == 0 then 0 else if quarter == 1 then q else if quarter == 2 then h else h + q;
      Quantise(d, step, 4) == (quarter + (if d < step then 0 else 4), part + if d < step then 0 else step)
  {
    hide Quantise;
    HalfOfHalf(step);
    QuantiseRounds(d, step);
    Quarters(if d < step then d else d - step, step / 2, step / 4);
  }

  lemma HalfOfHalf(step: int)
    requires step >= 7
    ensures step / 2 / 2 == step / 4 && 0 <= step / 4 <= step / 2
  {
  }

  // The last two rounds, seen as one choice of four.
  lemma Quarters(e: int, h: int, q: int)
    requires 0 <= q <= h
    ensures var quarter := if e < q then 0 else if e < h then 1 else if e < h + q then 2 else 3;
      var part := if quarter == 0 then 0 else if quarter == 1 then q else if quarter == 2 then h else h + q;
      var rest := if e >= h then e - h else e;
      && 2 * Bit(e >= h) + Bit(rest >= q) == quarter
      && (if e >= h then h else 0) + (if rest >= q then q else 0) == part
  {
  }

  lemma TableByBits(c: Code)
    ensures INDEX_TABLE[c] == if c % 8 < 4 then -1 else 2 * (c % 8) - 6
  {
  }

  // What one code does: its low bits alone decide the index, and they stand for the middle of an
  // eighth of the step, (2 c + 1) / 8 of it, but for what the three shifts cut off.
  lemma DecodeByBits(s: State, c: Code)
    ensures var low, step, t := c % 8, StepOf(s.idx), DecodeNext(s, c);
      var r := if low < 4 then -1 else 2 * low - 6;
      && t.idx as int == (if s.idx + r < 0 then 0 else if s.idx + r > 88 then 88 else s.idx + r)
      && 0 <= (2 * low + 1) * step - 8 * Dequantise(c, step) <= 17
      && (c < 8 ==> s.predict <= t.predict) && (c >= 8 ==> t.predict <= s.predict)
      && (-32768 < t.predict < 32767 ==> Abs(t.predict - s.predict) == Dequantise(c, step))
  {
    StepRange(s.idx);
    hide StepOf, Dequantise;
    TableByBits(c);
    MiddleOfEighth(c, StepOf(s.idx));
  }

  lemma MiddleOfEighth(c: Code, step: int)
    requires step >= 0
    ensures 0 <= (2 * (c % 8) + 1) * step - 8 * Dequantise(c, step) <= 17 && Dequantise(c, step) >= 0
  {
    hide Dequantise;
    var b4, b2, b1 := c / 4 % 2, c / 2 % 2, c % 2;
    OddMultiple(c % 8, b4, b2, b1, step);
    DequantiseIs(c, step);
    ShiftLosses(step);
  }

  lemma OddMultiple(low: int, b4: int, b2: int, b1: int, x: int)
    requires low == 4 * b4 + 2 * b2 + b1 && 0 <= b4 <= 1 && 0 <= b2 <= 1 && 0 <= b1 <= 1
    ensures (2 * low + 1) * x
         == (if b4 == 1 then 8 * x else 0) + (if b2 == 1 then 4 * x else 0) + (if b1 == 1 then 2 * x else 0) + x
  {
    assert (2 * low + 1) * x == 8 * (b4 * x) + 4 * (b2 * x) + 2 * (b1 * x) + x;
    BitTimes(b4, x);
    BitTimes(b2, x);
    BitTimes(b1, x);
  }

  lemma DequantiseIs(c: Code, step: int)
    ensures Dequantise(c, step) == step / 8 + (if c / 4 % 2 == 1 then step else 0)
              + (if c / 2 % 2 == 1 then step / 2 else 0) + (if c % 2 == 1 then step / 2 / 2 else 0)
  {
  }

  lemma BitTimes(b: int, x: int)
    requires b == 0 || b == 1
    ensures b * x == if b == 1 then x else 0
  {
  }

  lemma ShiftLosses(step: int)
    requires step >= 0
    ensures 0 <= step - 8 * (step / 8) <= 7 && 0 <= step - 2 * (step / 2) <= 1 && 0 <= step - 4 * (step / 2 / 2) <= 3
  {
  }

  // ---------------------------------------------------------------- one sample

  lemma StepRange(i: Index)
    ensures 7 <= StepOf(i) <= 32767
  {
  }

  // From one entry to the next the step grows, but by less than a factor of eight.
  ghost predicate StepGrows(i: Index)
    requires i < MAX_INDEX
  {
    && StepOf(i + 1) / 8 + 2 < StepOf(i) < StepOf(i + 1)
    && (i < 87 ==> -8 < 10 * StepOf(i + 1) - 11 * StepOf(i) < 9)
  }

  lemma StepGrowsLow(i: Index)
    requires i < 30
    ensures StepGrows(i)
  {
  }

  lemma StepGrowsMiddle(i: Index)
    requires 30 <= i < 60
    ensures StepGrows(i)
  {
    hide StepGrows;
    if i < 45 { StepGrowsFrom30(i); } else { StepGrowsFrom45(i); }
  }

  lemma StepGrowsHigh(i: Index)
    requires 60 <= i < MAX_INDEX
    ensures StepGrows(i)
  {
    hide StepGrows;
    if i < 74 { StepGrowsFrom60(i); } else { StepGrowsFrom74(i); }
  }

  lemma StepGrowsFrom30(i: Index)
    requires 30 <= i < 45
    ensures StepGrows(i)
  {
  }

  lemma StepGrowsFrom45(i: Index)
    requires 45 <= i < 60
    ensures StepGrows(i)
  {
  }

  lemma StepGrowsFrom60(i: Index)
    requires 60 <= i < 74
    ensures StepGrows(i)
  {
  }

  lemma StepGrowsFrom74(i: Index)
    requires 74 <= i < MAX_INDEX
    ensures StepGrows(i)
  {
  }

  // The table: from 7 on each step is a tenth larger than the one before, to less than one, up to
  // the last, which is the largest sample.
  lemma StepsGrowByTenths(i: Index)
    ensures i < 87 ==> -8 < 10 * StepOf(i + 1) - 11 * StepOf(i) < 9
    ensures StepOf(0) == 7 && StepOf(88) == 32767
  {
    if i < 30 {
      StepGrowsLow(i);
    } else if i < 60 {
      StepGrowsMiddle(i);
    } else if i < 88 {
      StepGrowsHigh(i);
    }
  }

  function StepTotal(n: nat): int
    requires n <= 89
  {
    if n == 0 then 0 else StepTotal(n - 1) + StepOf(n - 1)
  }

  lemma TenSteps(n: nat)
    requires n + 10 <= 89
    ensures StepTotal(n + 10) == StepTotal(n)
      + StepOf(n) + StepOf(n + 1) + StepOf(n + 2) + StepOf(n + 3) + StepOf(n + 4)
      + StepOf(n + 5) + StepOf(n + 6) + StepOf(n + 7) + StepOf(n + 8) + StepOf(n + 9)
  {
    hide StepOf;
    assert StepTotal(n + 2) == StepTotal(n) + StepOf(n) + StepOf(n + 1);
    assert StepTotal(n + 4) == StepTotal(n + 2) + StepOf(n + 2) + StepOf(n + 3);
    assert StepTotal(n + 6) == StepTotal(n + 4) + StepOf(n + 4) + StepOf(n + 5);
    assert StepTotal(n + 8) == StepTotal(n + 6) + StepOf(n + 6) + StepOf(n + 7);
  }

  // And the sum of all its entries.
  lemma StepsSum()
    ensures StepTotal(89) == 360393
  {
    hide StepTotal;
    TenSteps(0);
    TenSteps(10);
    TenSteps(20);
    TenSteps(30);
    TenSteps(40);
    TenSteps(50);
    TenSteps(60);
    TenSteps(70);
    LastNineSteps();
  }

  lemma LastNineSteps()
    ensures StepTotal(0) == 0
    ensures StepTotal(89) == StepTotal(80) + 15289 + 16818 + 18500 + 20350 + 22385 + 24623 + 27086 + 29794 + 32767
  {
    TenSteps(79);
    assert StepTotal(80) == StepTotal(79) + StepOf(79);
  }

  lemma {:induction false} StepMonotone(i: Index, j: Index)
    requires i <= j
    ensures StepOf(i) <= StepOf(j)
    decreases j - i
  {
    if i < j {
      if i < 30 { StepGrowsLow(i); } else if i < 60 { StepGrowsMiddle(i); } else { StepGrowsHigh(i); }
      StepMonotone(i + 1, j);
    }
  }

  // The step after a fall of one is still above the error a sample leaves.
  lemma StepFacts(i: Index)
    ensures 7 <= StepOf(i) <= 32767
    ensures StepOf(i) / 8 + 2 < StepOf(if i > 0 then i - 1 else 0)
  {
    StepRange(i);
    if 0 < i <= 30 {
      StepGrowsLow(i - 1);
    } else if 30 < i <= 60 {
      StepGrowsMiddle(i - 1);
    } else if 60 < i {
      StepGrowsHigh(i - 1);
    }
  }

  // The step is too small for the difference: all bits are taken and do not reach.
  ghost predicate Overloaded(s: State, x: Sample) {
    Abs(Difference(s, x)) >= 2 * StepOf(s.idx)
  }

  // The difference is below the step itself.
  ghost predicate Tracked(s: State, x: Sample) {
    Abs(Difference(s, x)) < StepOf(s.idx)
  }

  lemma QuantiseRemainder(diff: nat, step: int)
    requires step >= 7
    ensures var sum := Quantise(diff, step, 4).1;
      if diff < 2 * step then 0 <= diff - sum <= step / 2 / 2 + 1
      else sum == step + step / 2 + step / 2 / 2
  {
    QuantiseRounds(diff, step);
  }

  // Without overload the error left is at most an eighth of the step, and two. With it the
  // predictor moves toward the sample and stops short of it.
  lemma SampleError(s: State, x: Sample)
    ensures !Overloaded(s, x) ==> Abs(Difference(EncodeNext(s, x), x)) <= StepOf(s.idx) / 8 + 2
    ensures Overloaded(s, x) ==>
      var d, d' := Difference(s, x), Difference(EncodeNext(s, x), x);
      if d > 0 then 0 < d' <= d - 11 else d + 11 <= d' < 0
  {
    var d, step := Difference(s, x), StepOf(s.idx);
    StepRange(s.idx);
    QuantiseRemainder(Abs(d), step);
    MoveError(s, x, TakenOf(d, step), EncodeCode(s, x));
  }

  // Clamping only ever brings the prediction closer to a sample.
  lemma MoveError(s: State, x: Sample, diffq: int, c: Code)
    ensures var d, d' := Difference(s, x), Difference(Move(s, Difference(s, x) < 0, diffq, c), x);
      && Abs(d') <= Abs(Abs(d) - diffq)
      && (0 <= diffq <= Abs(d) ==> d' == if d < 0 then d + diffq else d - diffq)
  {
  }

  // The only sample that does not move the quantiser is the prediction itself, at index 0.
  lemma StandsStillIff(s: State, x: Sample)
    ensures EncodeNext(s, x) == s <==> s.idx == 0 && x == s.predict
  {
    var d, step := Difference(s, x), StepOf(s.idx);
    StepRange(s.idx);
    CodeIndex(d, step);
    QuantiseRemainder(Abs(d), step);
    MoveError(s, x, TakenOf(d, step), EncodeCode(s, x));
    if s.idx == 0 {
      QuantiseRounds(Abs(d), 7);
    }
    hide Quantise, StepOf, Dequantise, CodeOf;
  }

  // The largest and the smallest sample never lead to the same state.
  lemma ExtremesMoveApart(s: State)
    ensures EncodeNext(s, 32767) != EncodeNext(s, -32768)
  {
    SampleError(s, 32767);
    SampleError(s, -32768);
    StepRange(s.idx);
    hide EncodeNext, StepOf;
  }

  // ---------------------------------------------------------------- a constant input

  // The state after n samples of the same value.
  function Settle(s: State, x: Sample, n: nat): State {
    if n == 0 then s else EncodeNext(Settle(s, x, n - 1), x)
  }

  // Overload adds 8 to the index.
  lemma OverloadRaisesIndex(s: State, x: Sample)
    requires Overloaded(s, x)
    ensures EncodeNext(s, x).idx == ClampIndex(s.idx + 8)
  {
    var d, step := Difference(s, x), StepOf(s.idx);
    StepRange(s.idx);
    QuantiseRounds(Abs(d), step);
    IndexFacts(EncodeCode(s, x), 7);
  }

  // Once below the step, the code stays below 4: the index falls by one and the difference stays
  // below the smaller step.
  lemma TrackedStays(s: State, x: Sample)
    requires Tracked(s, x)
    ensures Tracked(EncodeNext(s, x), x)
    ensures EncodeNext(s, x).idx == if s.idx > 0 then s.idx - 1 else 0
  {
    CodeIndex(Difference(s, x), StepOf(s.idx));
    SampleError(s, x);
    StepFacts(s.idx);
  }

  // The first sample without overload is followed by tracking.
  lemma TrackedAfterOverload(s: State, x: Sample)
    requires !Overloaded(s, x)
    ensures Tracked(EncodeNext(s, x), x)
  {
    CodeIndex(Difference(s, x), StepOf(s.idx));
    SampleError(s, x);
    StepFacts(s.idx);
    StepMonotone(if s.idx > 0 then s.idx - 1 else 0, EncodeNext(s, x).idx);
  }
}
