/** The encoders and decoders of application/audio/adpcm.c in their three wire formats: Telink and
    Google packets over GATT, which carry the predictor in a header, and the headerless frames of
    the HID service. Buffers are byte arrays; half-words are little-endian. */
module AdpcmFormats {
  import opened Machine
  import opened Bits
  import opened AdpcmCodec
  import opened AdpcmStream

  const ADPCM_PACKET_LEN := 128
  const ADPCM_ANDROID_ID := 0x00

  function ToU16(x: int): nat {
    x % 0x1_0000
  }

  function ToS16(u: nat): (r: int)
    ensures -32768 <= r <= 32767 && (r - u) % 0x1_0000 == 0
  {
    if u % 0x1_0000 >= 0x8000 then u % 0x1_0000 - 0x1_0000 else u % 0x1_0000
  }

  // The r codes before position i that are still in code16.
  ghost predicate Pending(code16: nat, cs: seq<Code>, i: nat, r: nat)
    requires r <= i <= |cs|
  {
    && code16 < 0x1_0000
    && (r == 1 ==> code16 / 4096 == cs[i - 1])
    && (r == 2 ==> code16 / 256 == HalfWord(cs[i - 2], cs[i - 1], 0, 0))
    && (r == 3 ==> code16 / 16 == HalfWord(cs[i - 3], cs[i - 2], cs[i - 1], 0))
    && (r == 4 ==> code16 == HalfWord(cs[i - 4], cs[i - 3], cs[i - 2], cs[i - 1]))
  }

  lemma PendingPush(code16: nat, cs: seq<Code>, i: nat, r: nat)
    requires r <= i < |cs| && r < 4 && Pending(code16, cs, i, r)
    ensures Pending(PushCode(code16, cs[i]), cs, i + 1, r + 1)
  {
    hide PushCode;
    var c: int := cs[i];
    var next := PushCode(code16, cs[i]);
    assert next == code16 / 16 + 4096 * c;
    if r == 0 {
      assert next / 4096 == c;
    } else if r == 1 {
      assert next / 256 == code16 / 4096 + 16 * c;
    } else if r == 2 {
      assert next / 16 == code16 / 256 + 256 * c;
    }
  }

  lemma PendingNone(code16: nat, cs: seq<Code>, i: nat)
    requires code16 < 0x1_0000 && i <= |cs|
    ensures Pending(code16, cs, i, 0)
  {
  }

  // The two bytes of a half-word written after its fourth code.
  lemma HalfWordBytes(n0: Code, n1: Code, n2: Code, n3: Code, swapped: bool)
    ensures var c := HalfWord(n0, n1, n2, n3);
      var w := if swapped then SwapNibbles16(c) else c;
      w % 256 == PackPair(n0, n1, swapped) && w / 256 % 256 == PackPair(n2, n3, swapped)
  {
    hide SwapNibbles16;
    SwapNibbles16Value(n0, n1, n2, n3);
    HalfWordSplit(n0, n1, n2, n3);
    HalfWordSplit(n1, n0, n3, n2);
  }

  lemma HalfWordSplit(n0: Code, n1: Code, n2: Code, n3: Code)
    ensures var w := HalfWord(n0, n1, n2, n3);
      w % 256 == HalfWord(n0, n1, 0, 0) && w / 256 % 256 == HalfWord(n2, n3, 0, 0)
  {
    SplitByte(HalfWord(n0, n1, 0, 0), HalfWord(n2, n3, 0, 0));
  }

  lemma SplitByte(lo: int, hi: int)
    requires 0 <= lo < 256 && 0 <= hi < 256
    ensures (lo + 256 * hi) % 256 == lo && (lo + 256 * hi) / 256 % 256 == hi
  {
  }

  // Four more codes pack into two more bytes.
  lemma PackedExtend(cs: seq<Code>, h: nat, swapped: bool)
    requires 4 * h + 4 <= |cs|
    ensures PackedBytes(cs[..4 * (h + 1)], swapped) == PackedBytes(cs[..4 * h], swapped)
         + [PackPair(cs[4 * h], cs[4 * h + 1], swapped), PackPair(cs[4 * h + 2], cs[4 * h + 3], swapped)]
  {
  }

  lemma PackedWhole(cs: seq<Code>, h: nat, swapped: bool)
    requires 4 * h <= |cs| < 4 * h + 4
    ensures PackedBytes(cs[..4 * h], swapped) == PackedBytes(cs, swapped)
  {
  }

  // Byte k of a 16-bit value.
  function LowByte(u: nat): Byte {
    u % 256
  }

  function HighByte(u: nat): Byte {
    u / 256 % 256
  }

  // byte 1-2: prediction, byte 3: index, byte 4: length of the codes
  function TelinkHeader(s: State): (h: seq<Byte>)
    ensures |h| == 4
  {
    [LowByte(ToU16(s.predict)), HighByte(ToU16(s.predict)), s.idx, ADPCM_PACKET_LEN - 4]
  }

  // sequence number, high byte first; id; prediction, high byte first; index
  function GoogleHeader(serial: nat, s: State): (h: seq<Byte>)
    ensures |h| == 6
  {
    [HighByte(serial), LowByte(serial), ADPCM_ANDROID_ID, HighByte(ToU16(s.predict)), LowByte(ToU16(s.predict)), s.idx]
  }

  // x as two's complement in 16 bits.
  predicate Holds16(u: int, x: Sample) {
    u == if x < 0 then x + 0x1_0000 else x
  }

  // What a receiver finds in the headers.
  lemma TelinkHeaderReads(s: State)
    ensures var h := TelinkHeader(s);
      Holds16(h[0] as int + 256 * h[1] as int, s.predict) && h[2] == s.idx && h[3] == 124
  {
    TwoBytes(s.predict);
  }

  lemma GoogleHeaderReads(serial: U16, s: State)
    ensures var h := GoogleHeader(serial, s);
      && 256 * h[0] as int + h[1] as int == serial && h[2] == 0
      && Holds16(256 * h[3] as int + h[4] as int, s.predict) && h[5] == s.idx
  {
    TwoBytes(s.predict);
  }

  lemma TwoBytes(x: Sample)
    ensures Holds16(LowByte(ToU16(x)) as int + 256 * HighByte(ToU16(x)) as int, x)
  {
  }

  // The three half-words of the Google header, as the encoder puts them together.
  function SerialWord(serial: nat): nat {
    BitOr(BitAnd(serial / 256, 0x00ff), BitAnd(serial * 256, 0xff00))
  }

  function PredictWord(p: nat): nat {
    BitOr(ADPCM_ANDROID_ID, BitAnd(p, 0xff00))
  }

  function IndexWord(p: nat, i: Index): nat {
    BitOr(BitAnd(p, 0x00ff), BitAnd(i * 256, 0xff00))
  }

  lemma ByteMasks(x: nat)
    ensures BitAnd(x, 0x00ff) == x % 256 && BitAnd(x, 0xff00) == x / 256 % 256 * 256
  {
    hide BitAnd, Pow2, Shl, Shr, Low;
    Pow2Facts();
    AndMask(x, 8);
    ShrIsDiv(x, 8);
    AndHigh(x, 255, 8);
    AndMask(Shr(x, 8), 8);
    ShrIsDiv(Shr(x, 8), 8);
    ShlIsMul(255, 8);
    ShlIsMul(x / 256 % 256, 8);
  }

  lemma OrBytes(lo: Byte, hi: Byte)
    ensures BitOr(lo, hi as nat * 256) == lo as int + hi as int * 256
  {
    hide BitOr, Pow2;
    Pow2Facts();
    OrNibbles(lo, hi, 8, 256);
  }

  lemma GoogleHeaderWords(serial: nat, p: nat, i: Index)
    requires serial < 0x1_0000 && p < 0x1_0000
    ensures SerialWord(serial) % 256 == HighByte(serial) && SerialWord(serial) / 256 % 256 == LowByte(serial)
    ensures PredictWord(p) % 256 == ADPCM_ANDROID_ID && PredictWord(p) / 256 % 256 == HighByte(p)
    ensures IndexWord(p, i) % 256 == LowByte(p) && IndexWord(p, i) / 256 % 256 == i
  {
    hide BitOr, BitAnd;
    ByteMasks(serial / 256);
    ByteMasks(serial * 256);
    ByteMasks(p);
    ByteMasks(i * 256);
    OrBytes(HighByte(serial), LowByte(serial));
    OrBytes(0, HighByte(p));
    OrBytes(LowByte(p), i);
    SplitByte(HighByte(serial), LowByte(serial));
    SplitByte(0, HighByte(p));
    SplitByte(LowByte(p), i);
  }

  class Encoder {
    var predict: Sample
    var predictIdx: Index
    var serial: U16
    // Where the next half-word goes: index pd in the buffer out.
    var out: array<Byte>
    var pd: nat

    constructor (firstIdx: Index)
      ensures predict == 0 && predictIdx == firstIdx && serial == 0
    {
      predict, predictIdx, serial, pd := 0, firstIdx, 0, 0;
      out := new Byte[0];
    }

    function St(): State
      reads this
    {
      State(predict, predictIdx)
    }

    // One sample: successive approximation, then the new prediction and index.
    method EncodeSample(x: Sample) returns (code: Code)
      modifies `predict, `predictIdx
      ensures code == EncodeCode(old(St()), x)
      ensures St() == EncodeNext(old(St()), x)
    {
      hide Quantise, StepOf, CodeOf;
      var step := StepOf(predictIdx);
      var diff: int := x;
      diff := diff - predict;
      ghost var d, first := diff, step;
      var bits: int := 0;
      if diff < 0 {
        diff := -diff;
        bits := 8;
      }
      var diffq := step / 8;
      ghost var sign, q := bits, Quantise(diff, step, 4);
      SampleCode(d, step);
      var j: nat := 4;
      while j > 0
        invariant St() == old(St())
        invariant Quantise(diff, step, j).0 + bits == sign + q.0
        invariant Quantise(diff, step, j).1 + diffq == first / 8 + q.1
      {
        QuantiseRound(diff, step, j);
        if diff >= step {
          diff := diff - step;
          diffq := diffq + step;
          bits := bits + j;
        }
        step := step / 2;
        j := j / 2;
      }
      QuantiseEnds(diff, step);
      code := bits;
      assert d == Difference(old(St()), x) && diffq == TakenOf(d, first);
      assert code == CodeOf(d, first) && (code >= 8 <==> d < 0);
      predict := ClampSample(if code >= 8 then predict - diffq else predict + diffq);
      predictIdx := ClampIndex(predictIdx + INDEX_TABLE[code]);
    }

    method StoreHalfWord(w: nat)
      requires 2 * pd + 2 <= out.Length
      modifies `pd, out
      ensures pd == old(pd) + 1
      ensures out[..2 * pd] == old(out[..2 * pd]) + [w % 256, w / 256 % 256]
      ensures out[2 * pd..] == old(out[..])[2 * pd..]
    {
      out[2 * pd] := w % 256;
      out[2 * pd + 1] := w / 256 % 256;
      pd := pd + 1;
    }

    // The next sample of xs goes through the quantiser, and its code into the shift register.
    method TakeSample(x: Sample, code16: nat, ghost s: State, ghost xs: seq<Sample>, ghost i: nat, ghost r: nat)
      returns (next: nat)
      requires i < |xs| && xs[i] == x && r <= i && r < 4
      requires St() == EncodeEnd(s, xs[..i]) && code16 < 0x1_0000 && Pending(code16, Codes(s, xs), i, r)
      modifies `predict, `predictIdx
      ensures St() == EncodeEnd(s, xs[..i + 1]) && next < 0x1_0000 && Pending(next, Codes(s, xs), i + 1, r + 1)
    {
      hide EncodeNext, EncodeCode, EncodeEnd, Codes, Pending, PushCode;
      CodeAt(s, xs, i);
      var code := EncodeSample(x);
      PendingPush(code16, Codes(s, xs), i, r);
      next := PushCode(code16, code);
    }

    // The buffer holds what it held at pd == start, then the half-words of the first 4 h codes;
    // behind that nothing has changed.
    ghost predicate Stored(cs: seq<Code>, h: nat, start: nat, was: seq<Byte>, swapped: bool)
      requires 4 * h <= |cs|
      reads this, out
    {
      && pd == start + h && 2 * pd <= out.Length == |was|
      && out[..2 * pd] == was[..2 * start] + PackedBytes(cs[..4 * h], swapped) && out[2 * pd..] == was[2 * pd..]
    }

    // A full register is stored, in its format's nibble order.
    method StoreFour(code16: nat, ghost cs: seq<Code>, ghost h: nat, ghost start: nat, ghost was: seq<Byte>,
                     swapped: bool)
      requires 4 * h + 4 <= |cs| && code16 < 0x1_0000 && Pending(code16, cs, 4 * h + 4, 4)
      requires Stored(cs, h, start, was, swapped) && 2 * pd + 2 <= out.Length
      modifies `pd, out
      ensures Stored(cs, h + 1, start, was, swapped)
    {
      hide SwapNibbles16, PackedBytes, HalfWord;
      HalfWordBytes(cs[4 * h], cs[4 * h + 1], cs[4 * h + 2], cs[4 * h + 3], swapped);
      PackedExtend(cs, h, swapped);
      StoreHalfWord(if swapped then SwapNibbles16(code16) else code16);
      assert was[2 * pd..] == was[2 * pd - 2..][2..];
    }

    // The loop all three encoders run over the samples of one call.
    method EncodeSamples(ps: array<Sample>, so: nat, len: nat, swapped: bool)
      requires so + len <= ps.Length && 2 * (pd + len / 4) <= out.Length
      modifies `predict, `predictIdx, `pd, out
      ensures St() == EncodeEnd(old(St()), ps[so..so + len])
      ensures pd == old(pd) + len / 4
      ensures out[..2 * pd] == old(out[..2 * pd]) + PackedBytes(Codes(old(St()), ps[so..so + len]), swapped)
      ensures out[2 * pd..] == old(out[..])[2 * pd..]
    {
      hide PackedBytes, EncodeEnd, Codes, Pending;
      ghost var s, xs := St(), ps[so..so + len];
      ghost var cs, start, was := Codes(s, xs), pd, out[..];
      ghost var h := 0;
      var code16: nat := 0;
      var i := 0;
      EmptyRun(s, xs, swapped);
      PendingNone(code16, cs, 0);
      assert was[..2 * start] == out[..2 * start];
      while i < len
        invariant 0 <= 4 * h <= i < 4 * h + 4 && i <= len
        invariant St() == EncodeEnd(s, xs[..i])
        invariant code16 < 0x1_0000 && Pending(code16, cs, i, i - 4 * h)
        invariant Stored(cs, h, start, was, swapped)
      {
        code16 := TakeSample(ps[so + i], code16, s, xs, i, i - 4 * h);
        if i % 4 == 3 {
          StoreFour(code16, cs, h, start, was, swapped);
          h := h + 1;
          PendingNone(code16, cs, i + 1);
        }
        i := i + 1;
      }
      PackedWhole(cs, h, swapped);
      assert xs[..len] == xs;
    }

    // Telink: a call with start opens a packet with a header; later calls extend it.
    method SplitTelink(ps: array<Sample>, so: nat, len: nat, pds: array<Byte>, start: bool)
      requires so + len <= ps.Length
      requires if start then 2 * (2 + len / 4) <= pds.Length else 2 * (pd + len / 4) <= out.Length
      modifies this, if start then pds else out
      ensures out == (if start then pds else old(out)) && serial == old(serial)
      ensures St() == EncodeEnd(old(St()), ps[so..so + len])
      ensures pd == (if start then 2 else old(pd)) + len / 4
      ensures out[..2 * pd] == (if start then TelinkHeader(old(St())) else old(out[..2 * pd]))
                               + PackedBytes(Codes(old(St()), ps[so..so + len]), false)
    {
      hide EncodeEnd, Codes, PackedBytes;
      if start {
        out, pd := pds, 0;
        StoreTelinkHeader();
      }
      EncodeSamples(ps, so, len, false);
    }

    method StoreTelinkHeader()
      requires pd == 0 && out.Length >= 4
      modifies `pd, out
      ensures pd == 2 && out[..4] == TelinkHeader(St())
    {
      StoreHalfWord(ToU16(predict));
      out[2] := predictIdx;
      out[3] := ADPCM_PACKET_LEN - 4;
      pd := pd + 1;
    }

    // Google: the same with its own header, and the nibbles of each byte exchanged.
    method SplitGoogle(ps: array<Sample>, so: nat, len: nat, pds: array<Byte>, start: bool)
      requires so + len <= ps.Length
      requires if start then 2 * (3 + len / 4) <= pds.Length else 2 * (pd + len / 4) <= out.Length
      modifies this, if start then pds else out
      ensures out == (if start then pds else old(out))
      ensures serial == if start then (old(serial) + 1) % 0x1_0000 else old(serial)
      ensures St() == EncodeEnd(old(St()), ps[so..so + len])
      ensures pd == (if start then 3 else old(pd)) + len / 4
      ensures out[..2 * pd] == (if start then GoogleHeader(old(serial), old(St())) else old(out[..2 * pd]))
                               + PackedBytes(Codes(old(St()), ps[so..so + len]), true)
    {
      hide EncodeEnd, Codes, PackedBytes;
      if start {
        out, pd := pds, 0;
        StoreGoogleHeader();
      }
      EncodeSamples(ps, so, len, true);
    }

    method StoreGoogleHeader()
      requires pd == 0 && out.Length >= 6
      modifies `pd, `serial, out
      ensures pd == 3 && serial == (old(serial) + 1) % 0x1_0000
      ensures out[..6] == GoogleHeader(old(serial), old(St()))
    {
      hide SerialWord, PredictWord, IndexWord, HighByte, LowByte;
      GoogleHeaderWords(serial, ToU16(predict), predictIdx);
      StoreHalfWord(SerialWord(serial));
      StoreHalfWord(PredictWord(ToU16(predict)));
      StoreHalfWord(IndexWord(ToU16(predict), predictIdx));
      serial := (serial + 1) % 0x1_0000;
    }

    // HID: frames without a header. The start flag is ignored there.
    method SplitHid(ps: array<Sample>, so: nat, len: nat, pds: array<Byte>)
      requires so + len <= ps.Length && 2 * (len / 4) <= pds.Length
      modifies this, pds
      ensures out == pds && serial == old(serial)
      ensures St() == EncodeEnd(old(St()), ps[so..so + len])
      ensures pd == len / 4
      ensures out[..2 * pd] == PackedBytes(Codes(old(St()), ps[so..so + len]), true)
    {
      hide EncodeEnd, Codes, PackedBytes;
      out, pd := pds, 0;
      EncodeSamples(ps, so, len, true);
      assert out[..0] == [];
    }
  }

  lemma QuantiseRound(diff: int, step: int, j: nat)
    requires j > 0
    ensures Quantise(diff, step, j) ==
      if diff >= step then
        (Quantise(diff - step, step / 2, j / 2).0 + j, Quantise(diff - step, step / 2, j / 2).1 + step)
      else Quantise(diff, step / 2, j / 2)
  {
  }

  lemma QuantiseEnds(diff: int, step: int)
    ensures Quantise(diff, step, 0) == (0, 0)
  {
  }

  lemma SampleCode(d: int, step: int)
    ensures CodeOf(d, step) == (if d < 0 then 8 else 0) + Quantise(Abs(d), step, 4).0
    ensures 0 <= Quantise(Abs(d), step, 4).0 < 8
    ensures TakenOf(d, step) == step / 8 + Quantise(Abs(d), step, 4).1
  {
    hide Quantise;
    QuantiseValue(Abs(d), step, d < 0);
  }

  lemma EmptyRun(s: State, xs: seq<Sample>, swapped: bool)
    ensures EncodeEnd(s, xs[..0]) == s && PackedBytes(Codes(s, xs)[..0], swapped) == []
  {
    assert xs[..0] == [];
  }

  lemma CodeAt(s: State, xs: seq<Sample>, i: nat)
    requires i < |xs|
    ensures Codes(s, xs)[i] == EncodeCode(EncodeEnd(s, xs[..i]), xs[i])
    ensures EncodeEnd(s, xs[..i + 1]) == EncodeNext(EncodeEnd(s, xs[..i]), xs[i])
  {
    hide EncodeNext, EncodeCode;
    CodesPrefix(s, xs, i + 1);
    assert xs[..i + 1][..i] == xs[..i];
    assert Codes(s, xs)[..i + 1][i] == Codes(s, xs)[i];
  }

  // ---------------------------------------------------------------- decoders

  // The bits of the code in the low nibble, whatever is above it.
  lemma CodeBits(code: nat)
    ensures BitAnd(code, 8) != 0 <==> code % 16 / 8 % 2 == 1
    ensures BitAnd(code, 4) != 0 <==> code % 16 / 4 % 2 == 1
    ensures BitAnd(code, 2) != 0 <==> code % 16 / 2 % 2 == 1
    ensures BitAnd(code, 1) != 0 <==> code % 16 % 2 == 1
    ensures BitAnd(code, 15) == code % 16
  {
    hide BitAnd, Pow2, Shl, Shr, Low;
    Pow2Facts();
    BitTest(code, 3, 8);
    BitTest(code, 2, 4);
    BitTest(code, 1, 2);
    BitTest(code, 0, 1);
    NibbleBits(code);
    AndMask(code, 4);
    ShrIsDiv(code, 4);
  }

  // The low nibble has the low four bits.
  lemma NibbleBits(code: nat)
    ensures code / 8 % 2 == code % 16 / 8 % 2 && code / 4 % 2 == code % 16 / 4 % 2
    ensures code / 2 % 2 == code % 16 / 2 % 2 && code / 1 % 2 == code % 16 % 2
  {
    var q, r := code / 16, code % 16;
    assert code / 8 == 2 * q + r / 8;
    assert code / 4 == 2 * (2 * q) + r / 4;
    assert code / 2 == 2 * (4 * q) + r / 2;
    EvenShift(r / 8, q);
    EvenShift(r / 4, 2 * q);
    EvenShift(r / 2, 4 * q);
    EvenShift(r, 8 * q);
  }

  lemma EvenShift(x: nat, y: nat)
    ensures (2 * y + x) % 2 == x % 2
  {
  }

  lemma BitTest(x: nat, k: nat, p: nat)
    requires p == Pow2(k)
    ensures BitAnd(x, p) != 0 <==> x / p % 2 == 1
  {
    hide BitAnd, Pow2, Shl, Shr, Low;
    Pow2Facts();
    ShlPow2(0, k);
    AndHigh(x, 1, k);
    AndMask(Shr(x, k), 1);
    ShrIsDiv(Shr(x, k), 1);
    ShrIsDiv(x, k);
    ShlIsMul(0, k);
    ShlIsMul(1, k);
    assert 0 * Pow2(k) == 0 && 1 * Pow2(k) == Pow2(k);
  }

  // One step of a decoder.
  method DecodeSample(s: State, code: Byte) returns (t: State)
    ensures t == DecodeNext(s, code % 16)
  {
    hide BitAnd, StepOf;
    CodeBits(code);
    var step := StepOf(s.idx);
    ghost var first := step;
    var diffq := step / 8;
    if BitAnd(code, 4) != 0 {
      diffq := diffq + step;
    }
    step := step / 2;
    if BitAnd(code, 2) != 0 {
      diffq := diffq + step;
    }
    step := step / 2;
    if BitAnd(code, 1) != 0 {
      diffq := diffq + step;
    }
    assert diffq == Dequantise(code % 16, first);
    var predict: int := if BitAnd(code, 8) != 0 then s.predict - diffq else s.predict + diffq;
    t := State(ClampSample(predict), ClampIndex(s.idx + INDEX_TABLE[BitAnd(code, 15)]));
  }

  function LoadCode(b: Byte, swapped: bool): (r: Byte)
    ensures r == if swapped then b / 16 + b % 16 * 16 else b
  {
    SwapNibbles8Value(b);
    if swapped then SwapNibbles8(b) else b
  }

  lemma LoadedNibbles(bs: seq<Byte>, k: nat, swapped: bool)
    requires k < |bs|
    ensures LoadCode(bs[k], swapped) % 16 == UnpackCode(bs, 2 * k, swapped)
    ensures LoadCode(bs[k], swapped) / 16 == UnpackCode(bs, 2 * k + 1, swapped)
  {
    hide SwapNibbles8;
  }

  // The loop all three decoders run. It reads one byte more than the codes of an even number of
  // samples take.
  method DecodeSamples(s: State, ps: array<Byte>, po: nat, pd: array<Sample>, len: nat, swapped: bool)
    returns (t: State)
    requires po + len / 2 + 1 <= ps.Length && len <= pd.Length
    modifies pd
    ensures t == DecodeEnd(s, UnpackedCodes(ps[po..], len, swapped))
    ensures pd[..len] == Decoded(s, UnpackedCodes(ps[po..], len, swapped))
  {
    hide DecodeNext, LoadCode, UnpackCode, DecodeEnd, Decoded, UnpackedCodes;
    ghost var bytes := ps[po..];
    ghost var cs := UnpackedCodes(bytes, len, swapped);
    t := s;
    var pcode := po;
    var code := LoadCode(ps[pcode], swapped);
    pcode := pcode + 1;
    EmptyDecode(s, cs);
    ghost var k := 0;
    var i := 0;
    while i < len
      invariant 0 <= i <= len && 2 * k <= i <= 2 * k + 1 && pcode == po + k + 1
      invariant ps[po..] == bytes
      invariant code == if i == 2 * k then LoadCode(bytes[k], swapped) else LoadCode(bytes[k], swapped) / 16
      invariant t == DecodeEnd(s, cs[..i])
      invariant pd[..i] == Decoded(s, cs[..i])
    {
      LoadedCode(bytes, len, i, k, swapped, code);
      DecodeStep(s, cs, i);
      t := DecodeSample(t, code);
      if i % 2 == 1 {
        assert ps[pcode] == bytes[k + 1];
        code := LoadCode(ps[pcode], swapped);
        pcode := pcode + 1;
        k := k + 1;
      } else {
        code := code / 16;
      }
      pd[i] := t.predict;
      i := i + 1;
    }
    assert cs[..len] == cs;
  }

  lemma LoadedCode(bs: seq<Byte>, n: nat, i: nat, k: nat, swapped: bool, code: Byte)
    requires i < n <= 2 * |bs| && 2 * k <= i <= 2 * k + 1
    requires code == if i == 2 * k then LoadCode(bs[k], swapped) else LoadCode(bs[k], swapped) / 16
    ensures code % 16 == UnpackedCodes(bs, n, swapped)[i]
  {
    hide LoadCode, UnpackCode;
    LoadedNibbles(bs, k, swapped);
  }

  lemma EmptyDecode(s: State, cs: seq<Code>)
    ensures DecodeEnd(s, cs[..0]) == s && Decoded(s, cs[..0]) == []
  {
  }

  lemma DecodeStep(s: State, cs: seq<Code>, i: nat)
    requires i < |cs|
    ensures DecodeEnd(s, cs[..i + 1]) == DecodeNext(DecodeEnd(s, cs[..i]), cs[i])
    ensures Decoded(s, cs[..i + 1]) == Decoded(s, cs[..i]) + [DecodeEnd(s, cs[..i + 1]).predict]
  {
    hide DecodeNext;
    assert cs[..i + 1][..i] == cs[..i];
  }
}
