/** The decoders of application/audio/adpcm.c, and what ties them to the encoders: every packet
    decodes, on its own, to the predictions the encoder went through while it wrote the packet. */
module AdpcmPackets {
  import opened Machine
  import opened Bits
  import opened AdpcmCodec
  import opened AdpcmStream
  import opened AdpcmFormats

  lemma S16OfU16(p: Sample)
    ensures ToS16(ToU16(p)) == p
    ensures LowByte(ToU16(p)) as int + 256 * HighByte(ToU16(p)) as int == ToU16(p)
  {
  }

  // ---------------------------------------------------------------- Telink

  function TelinkPacket(s: State, xs: seq<Sample>): seq<Byte> {
    TelinkHeader(s) + PackedBytes(Codes(s, xs), false)
  }

  // An index byte above 88 would send the decoder outside the step table.
  predicate TelinkReadable(bs: seq<Byte>, n: nat) {
    4 + n / 2 + 1 <= |bs| && bs[2] <= MAX_INDEX
  }

  function TelinkStart(bs: seq<Byte>): State
    requires |bs| >= 4 && bs[2] <= MAX_INDEX
  {
    State(ToS16(bs[0] as nat + 256 * bs[1] as nat), bs[2])
  }

  function TelinkDecode(bs: seq<Byte>, n: nat): seq<Sample>
    requires TelinkReadable(bs, n)
  {
    Decoded(TelinkStart(bs), UnpackedCodes(bs[4..], n, false))
  }

  method TelinkToPcm(ps: array<Byte>, pd: array<Sample>, len: nat)
    requires TelinkReadable(ps[..], len) && len <= pd.Length
    modifies pd
    ensures pd[..len] == TelinkDecode(old(ps[..]), len)
  {
    hide Decoded, UnpackedCodes, ToS16;
    ghost var bs := ps[..];
    var predict := ToS16(ps[0] as nat + 256 * ps[1] as nat);
    var predictIdx := ps[2];
    assert bs[4..] == ps[4..] && TelinkStart(bs) == State(predict, predictIdx);
    var _ := DecodeSamples(State(predict, predictIdx), ps, 4, pd, len, false);
  }

  // A packet decodes to the encoder's own predictions, whatever memory follows it. There must be
  // some behind the byte of the last code.
  lemma TelinkRoundTrip(s: State, xs: seq<Sample>, rest: seq<Byte>, n: nat)
    requires n <= |xs| / 4 * 4 && n / 2 < |xs| / 4 * 2 + |rest|
    ensures TelinkReadable(TelinkPacket(s, xs) + rest, n)
    ensures TelinkDecode(TelinkPacket(s, xs) + rest, n) == Reconstruction(s, xs)[..n]
  {
    hide Decoded, Codes, Reconstruction, UnpackedCodes, PackedBytes;
    var bs := TelinkPacket(s, xs) + rest;
    S16OfU16(s.predict);
    assert TelinkStart(bs) == s;
    assert bs[4..] == PackedBytes(Codes(s, xs), false) + rest;
    UnpackPacked(Codes(s, xs), rest, n, false);
    CodesPrefix(s, xs, n);
    Lockstep(s, xs[..n]);
  }

  // ---------------------------------------------------------------- Google

  function GooglePacket(serial: nat, s: State, xs: seq<Sample>): seq<Byte> {
    GoogleHeader(serial, s) + PackedBytes(Codes(s, xs), true)
  }

  predicate GoogleReadable(bs: seq<Byte>, n: nat) {
    6 + n / 2 + 1 <= |bs| && bs[5] <= MAX_INDEX
  }

  // (ps[1] & 0xff00) | (ps[2] & 0x00ff)
  function GooglePredict(w1: nat, w2: nat): nat {
    BitOr(BitAnd(w1, 0xff00), BitAnd(w2, 0x00ff))
  }

  lemma GooglePredictValue(b2: Byte, b3: Byte, b4: Byte, b5: Byte)
    ensures GooglePredict(b2 as nat + 256 * b3 as nat, b4 as nat + 256 * b5 as nat) == b4 as int + 256 * b3 as int
  {
    hide BitOr, BitAnd;
    ByteMasks(b2 as nat + 256 * b3 as nat);
    ByteMasks(b4 as nat + 256 * b5 as nat);
    SplitByte(b2, b3);
    SplitByte(b4, b5);
    OrBytes(b4, b3);
    OrCommutes(b4, b3 as nat * 256);
  }

  function GoogleStart(bs: seq<Byte>): State
    requires |bs| >= 6 && bs[5] <= MAX_INDEX
  {
    State(ToS16(bs[4] as nat + 256 * bs[3] as nat), bs[5])
  }

  function GoogleDecode(bs: seq<Byte>, n: nat): seq<Sample>
    requires GoogleReadable(bs, n)
  {
    Decoded(GoogleStart(bs), UnpackedCodes(bs[6..], n, true))
  }

  method GoogleToPcm(ps: array<Byte>, pd: array<Sample>, len: nat)
    requires GoogleReadable(ps[..], len) && len <= pd.Length
    modifies pd
    ensures pd[..len] == GoogleDecode(old(ps[..]), len)
  {
    hide GooglePredict, Decoded, UnpackedCodes, ToS16;
    ghost var bs := ps[..];
    GooglePredictValue(ps[2], ps[3], ps[4], ps[5]);
    var predict := ToS16(GooglePredict(ps[2] as nat + 256 * ps[3] as nat, ps[4] as nat + 256 * ps[5] as nat));
    var predictIdx := ps[5];
    assert bs[6..] == ps[6..] && GoogleStart(bs) == State(predict, predictIdx);
    var _ := DecodeSamples(State(predict, predictIdx), ps, 6, pd, len, true);
  }

  lemma GoogleRoundTrip(serial: nat, s: State, xs: seq<Sample>, rest: seq<Byte>, n: nat)
    requires n <= |xs| / 4 * 4 && n / 2 < |xs| / 4 * 2 + |rest|
    ensures GoogleReadable(GooglePacket(serial, s, xs) + rest, n)
    ensures GoogleDecode(GooglePacket(serial, s, xs) + rest, n) == Reconstruction(s, xs)[..n]
  {
    hide Decoded, Codes, Reconstruction, UnpackedCodes, PackedBytes;
    var bs := GooglePacket(serial, s, xs) + rest;
    S16OfU16(s.predict);
    assert GoogleStart(bs) == s;
    assert bs[6..] == PackedBytes(Codes(s, xs), true) + rest;
    UnpackPacked(Codes(s, xs), rest, n, true);
    CodesPrefix(s, xs, n);
    Lockstep(s, xs[..n]);
  }

  // ---------------------------------------------------------------- runs of packets

  function Flatten(blocks: seq<seq<Sample>>): seq<Sample> {
    if blocks == [] then [] else Flatten(blocks[..|blocks| - 1]) + blocks[|blocks| - 1]
  }

  // Where block k of a run starts, and the encoder's state there.
  function BlockStart(blocks: seq<seq<Sample>>, k: nat): nat
    requires k <= |blocks|
  {
    |Flatten(blocks[..k])|
  }

  function StateAt(s: State, blocks: seq<seq<Sample>>, k: nat): State
    requires k <= |blocks|
  {
    EncodeEnd(s, Flatten(blocks[..k]))
  }

  lemma {:induction false} FlattenSplit(blocks: seq<seq<Sample>>, k: nat)
    requires k < |blocks|
    ensures var start := BlockStart(blocks, k);
      && start + |blocks[k]| <= |Flatten(blocks)|
      && Flatten(blocks)[..start] == Flatten(blocks[..k])
      && Flatten(blocks)[start..start + |blocks[k]|] == blocks[k]
    decreases |blocks| - k
  {
    FlattenPrefix(blocks, k + 1);
    assert blocks[..k + 1][..k] == blocks[..k];
    var start, all := BlockStart(blocks, k), Flatten(blocks);
    assert all[..start + |blocks[k]|] == Flatten(blocks[..k]) + blocks[k];
    assert all[..start + |blocks[k]|][start..] == blocks[k];
  }

  lemma {:induction false} FlattenPrefix(blocks: seq<seq<Sample>>, k: nat)
    requires k <= |blocks|
    ensures Flatten(blocks[..k]) <= Flatten(blocks)
  {
    if k == |blocks| {
      assert blocks[..k] == blocks;
    } else {
      var front := blocks[..|blocks| - 1];
      FlattenPrefix(front, k);
      assert front[..k] == blocks[..k];
    }
  }

  // A block's reconstruction from the state it starts in is its slice of the whole run's.
  lemma ReconstructionSlice(s: State, xs: seq<Sample>, start: nat, n: nat)
    requires start + n <= |xs|
    ensures Reconstruction(EncodeEnd(s, xs[..start]), xs[start..start + n])
         == Reconstruction(s, xs)[start..start + n]
  {
    hide Reconstruction, EncodeEnd;
    var ys := xs[..start + n];
    CodesPrefix(s, xs, start + n);
    assert ys == xs[..start] + xs[start..start + n];
    EncodeConcat(s, xs[..start], xs[start..start + n]);
  }

  // In a run of packets, each one decodes to its own part of the encoder's reconstruction of the
  // whole run: no packet needs another.
  lemma AnyTelinkPacketDecodes(s: State, blocks: seq<seq<Sample>>, k: nat, rest: seq<Byte>, n: nat)
    requires k < |blocks| && n <= |blocks[k]| / 4 * 4 && n / 2 < |blocks[k]| / 4 * 2 + |rest|
    ensures BlockStart(blocks, k) + n <= |Flatten(blocks)|
    ensures TelinkReadable(TelinkPacket(StateAt(s, blocks, k), blocks[k]) + rest, n)
    ensures TelinkDecode(TelinkPacket(StateAt(s, blocks, k), blocks[k]) + rest, n)
         == Reconstruction(s, Flatten(blocks))[BlockStart(blocks, k)..BlockStart(blocks, k) + n]
  {
    hide TelinkDecode, TelinkPacket, TelinkReadable, Reconstruction, EncodeEnd;
    var start, all, b := BlockStart(blocks, k), Flatten(blocks), blocks[k];
    FlattenSplit(blocks, k);
    TelinkRoundTrip(StateAt(s, blocks, k), b, rest, n);
    ReconstructionSlice(s, all, start, |b|);
    assert Reconstruction(s, all)[start..start + |b|][..n] == Reconstruction(s, all)[start..start + n];
  }

  lemma AnyGooglePacketDecodes(serial: nat, s: State, blocks: seq<seq<Sample>>, k: nat, rest: seq<Byte>, n: nat)
    requires k < |blocks| && n <= |blocks[k]| / 4 * 4 && n / 2 < |blocks[k]| / 4 * 2 + |rest|
    ensures BlockStart(blocks, k) + n <= |Flatten(blocks)|
    ensures GoogleReadable(GooglePacket(serial, StateAt(s, blocks, k), blocks[k]) + rest, n)
    ensures GoogleDecode(GooglePacket(serial, StateAt(s, blocks, k), blocks[k]) + rest, n)
         == Reconstruction(s, Flatten(blocks))[BlockStart(blocks, k)..BlockStart(blocks, k) + n]
  {
    hide GoogleDecode, GooglePacket, GoogleReadable, Reconstruction, EncodeEnd;
    var start, all, b := BlockStart(blocks, k), Flatten(blocks), blocks[k];
    FlattenSplit(blocks, k);
    GoogleRoundTrip(serial, StateAt(s, blocks, k), b, rest, n);
    ReconstructionSlice(s, all, start, |b|);
    assert Reconstruction(s, all)[start..start + |b|][..n] == Reconstruction(s, all)[start..start + n];
  }

  // A packet written in two calls is the packet of all its samples, when the first call ends on
  // a whole half-word.
  lemma PacketInTwoCalls(s: State, xs: seq<Sample>, ys: seq<Sample>, swapped: bool)
    requires |xs| % 4 == 0
    ensures PackedBytes(Codes(s, xs + ys), swapped)
         == PackedBytes(Codes(s, xs), swapped) + PackedBytes(Codes(EncodeEnd(s, xs), ys), swapped)
  {
    hide Codes, EncodeEnd;
    EncodeConcat(s, xs, ys);
  }

  // ---------------------------------------------------------------- HID

  class HidDecoder {
    var predict: Sample
    var predictIdx: Index

    constructor ()
      ensures St() == State(0, 0)
    {
      predict, predictIdx := 0, 0;
    }

    function St(): State
      reads this
    {
      State(predict, predictIdx)
    }

    method AdpcmToPcm(ps: array<Byte>, pd: array<Sample>, len: nat)
      requires len / 2 + 1 <= ps.Length && len <= pd.Length
      modifies this, pd
      ensures pd[..len] == Decoded(old(St()), UnpackedCodes(old(ps[..]), len, true))
      ensures St() == DecodeEnd(old(St()), UnpackedCodes(old(ps[..]), len, true))
    {
      assert ps[0..] == ps[..];
      var t := DecodeSamples(St(), ps, 0, pd, len, true);
      predict, predictIdx := t.predict, t.idx;
    }
  }

  // What the decoder makes of one frame of n samples.
  function HidFrame(s: State, xs: seq<Sample>): seq<Byte> {
    PackedBytes(Codes(s, xs), true)
  }

  // The samples of a frame whose codes are sent: all but up to three.
  function Sent(xs: seq<Sample>): (ys: seq<Sample>)
    ensures |ys| == |xs| / 4 * 4
  {
    xs[..|xs| / 4 * 4]
  }

  // A frame takes a decoder in step with the encoder through the same predictions, and to the
  // encoder's state after the samples that were sent.
  lemma HidFrameDecodes(s: State, xs: seq<Sample>, rest: seq<Byte>)
    ensures var cs := UnpackedCodes(HidFrame(s, xs) + rest, |Sent(xs)|, true);
      DecodeEnd(s, cs) == EncodeEnd(s, Sent(xs)) && Decoded(s, cs) == Reconstruction(s, Sent(xs))
  {
    hide Decoded, DecodeEnd, Codes, Reconstruction, UnpackedCodes, PackedBytes, EncodeEnd;
    UnpackPacked(Codes(s, xs), rest, |Sent(xs)|, true);
    CodesPrefix(s, xs, |Sent(xs)|);
    Lockstep(s, Sent(xs));
  }

  // A decoder in the encoder's state that reads m codes from the frame of the samples xs, and from
  // what follows it in memory, is in the encoder's state again.
  ghost predicate HidInStep(s: State, xs: seq<Sample>, m: nat, rest: seq<Byte>) {
    var bs := HidFrame(s, xs) + rest;
    m <= 2 * |bs| && DecodeEnd(s, UnpackedCodes(bs, m, true)) == EncodeEnd(s, xs)
  }

  ghost predicate HidAlwaysInStep(s: State, n: nat, m: nat, rest: seq<Byte>) {
    forall xs: seq<Sample> :: |xs| == n ==> HidInStep(s, xs, m, rest)
  }

  // With no header, the length n of a frame decides. Reading n codes keeps the decoder in step
  // after every whole frame. For any other length, and from every state, no number of codes does,
  // whatever the memory behind the frame holds.
  lemma HidStaysInStepIff(s: State, n: nat)
    ensures (exists m: nat, rest: seq<Byte> :: HidAlwaysInStep(s, n, m, rest)) <==> n % 4 == 0
    ensures n % 4 == 0 ==> forall rest: seq<Byte> :: HidAlwaysInStep(s, n, n, rest)
  {
    hide HidInStep, EncodeEnd;
    if n % 4 == 0 {
      forall rest: seq<Byte>, xs: seq<Sample> | |xs| == n
        ensures HidInStep(s, xs, n, rest)
      {
        WholeFrame(s, xs, rest);
      }
      assert HidAlwaysInStep(s, n, n, []);
    } else {
      var ys: seq<Sample> := seq(n - 1, _ => 0);
      var xs, xs' := ys + [32767], ys + [-32768];
      LastSampleTells(s, ys);
      SameFrame(s, ys, 32767, -32768);
      forall m: nat, rest: seq<Byte>
        ensures !HidAlwaysInStep(s, n, m, rest)
      {
        HidStepsSame(s, xs, xs', m, rest);
        assert !HidInStep(s, xs, m, rest) || !HidInStep(s, xs', m, rest);
      }
    }
  }

  lemma WholeFrame(s: State, xs: seq<Sample>, rest: seq<Byte>)
    requires |xs| % 4 == 0
    ensures HidInStep(s, xs, |xs|, rest)
  {
    hide DecodeEnd, UnpackedCodes, EncodeEnd, HidFrame;
    HidFrameLength(s, xs);
    HidFrameDecodes(s, xs, rest);
    assert Sent(xs) == xs;
  }

  // The last sample of an incomplete half-word leaves no trace in the frame.
  lemma SameFrame(s: State, ys: seq<Sample>, x: Sample, x': Sample)
    requires (|ys| + 1) % 4 != 0
    ensures HidFrame(s, ys + [x]) == HidFrame(s, ys + [x'])
  {
    hide Codes, PackedBytes;
    CodesFront(s, ys, x);
    CodesFront(s, ys, x');
    var h := |ys| / 4;
    PackedFront(Codes(s, ys + [x]), Codes(s, ys), h);
    PackedFront(Codes(s, ys + [x']), Codes(s, ys), h);
  }

  lemma CodesFront(s: State, ys: seq<Sample>, x: Sample)
    ensures Codes(s, ys + [x])[..|ys|] == Codes(s, ys)
  {
    hide Codes, Reconstruction;
    assert (ys + [x])[..|ys|] == ys;
    CodesPrefix(s, ys + [x], |ys|);
  }

  lemma PackedFront(cs: seq<Code>, front: seq<Code>, h: nat)
    requires |cs| == |front| + 1 && cs[..|front|] == front && 4 * h <= |front| && |cs| < 4 * h + 4
    ensures PackedBytes(cs, true) == PackedBytes(front[..4 * h], true)
  {
    hide PackedBytes;
    assert cs[..4 * h] == front[..4 * h];
    PackedWhole(cs, h, true);
  }

  // The same bytes cannot lead to two different states.
  lemma HidStepsSame(s: State, xs: seq<Sample>, xs': seq<Sample>, m: nat, rest: seq<Byte>)
    requires HidFrame(s, xs) == HidFrame(s, xs') && EncodeEnd(s, xs) != EncodeEnd(s, xs')
    ensures !HidInStep(s, xs, m, rest) || !HidInStep(s, xs', m, rest)
  {
    hide DecodeEnd, UnpackedCodes, EncodeEnd, HidFrame;
  }

  lemma LastSampleTells(s: State, ys: seq<Sample>)
    ensures EncodeEnd(s, ys + [32767]) != EncodeEnd(s, ys + [-32768])
  {
    hide EncodeNext;
    var t := EncodeEnd(s, ys);
    assert (ys + [32767])[..|ys|] == ys && (ys + [-32768])[..|ys|] == ys;
    assert EncodeEnd(s, ys + [32767]) == EncodeNext(t, 32767);
    assert EncodeEnd(s, ys + [-32768]) == EncodeNext(t, -32768);
    ExtremesMoveApart(t);
  }

  // A frame of one sample is where it goes wrong: no code is sent for it.
  lemma HidOneSampleLost()
    ensures HidFrame(State(0, 0), [100]) == []
    ensures EncodeEnd(State(0, 0), [100]) != State(0, 0)
  {
    var s := State(0, 0);
    assert [100][..0] == [];
    assert EncodeEnd(s, [100]) == EncodeNext(s, 100);
    SampleError(s, 100);
    assert StepOf(0) == 7;
  }

  // The frames of a run, and what a decoder that starts in state d makes of them. Each frame
  // stands in memory before some other bytes.
  function HidFrames(s: State, blocks: seq<seq<Sample>>): (fs: seq<seq<Byte>>)
    ensures |fs| == |blocks|
  {
    seq(|blocks|, k requires 0 <= k < |blocks| => HidFrame(StateAt(s, blocks, k), blocks[k]))
  }

  function HidRunEnd(d: State, frames: seq<seq<Byte>>, rest: seq<Byte>): State {
    if frames == [] then d else
      var f := frames[|frames| - 1];
      DecodeEnd(HidRunEnd(d, frames[..|frames| - 1], rest), UnpackedCodes(f + rest, 2 * |f|, true))
  }

  function HidRunDecoded(d: State, frames: seq<seq<Byte>>, rest: seq<Byte>): seq<Sample> {
    if frames == [] then [] else
      var f := frames[|frames| - 1];
      HidRunDecoded(d, frames[..|frames| - 1], rest)
        + Decoded(HidRunEnd(d, frames[..|frames| - 1], rest), UnpackedCodes(f + rest, 2 * |f|, true))
  }

  // From equal states, over every unbroken run of whole frames, the decoder ends in the encoder's
  // state and has put out the encoder's reconstruction of all samples.
  lemma {:induction false} HidRunInStep(s: State, blocks: seq<seq<Sample>>, rest: seq<Byte>)
    requires forall k :: 0 <= k < |blocks| ==> |blocks[k]| % 4 == 0
    ensures HidRunEnd(s, HidFrames(s, blocks), rest) == EncodeEnd(s, Flatten(blocks))
    ensures HidRunDecoded(s, HidFrames(s, blocks), rest) == Reconstruction(s, Flatten(blocks))
  {
    hide DecodeEnd, Decoded, UnpackedCodes, EncodeEnd, Reconstruction, HidFrame;
    if blocks == [] {
      EmptyStream(s);
    } else {
      var n, f := |blocks| - 1, HidFrames(s, blocks)[|blocks| - 1];
      var front, last := blocks[..n], blocks[n];
      HidRunInStep(s, front, rest);
      HidFramesFront(s, blocks);
      var t := EncodeEnd(s, Flatten(front));
      HidFrameLength(t, last);
      HidFrameDecodes(t, last, rest);
      assert Sent(last) == last;
      EncodeConcat(s, Flatten(front), last);
    }
  }

  lemma EmptyStream(s: State)
    ensures EncodeEnd(s, []) == s && Reconstruction(s, []) == []
  {
  }

  lemma HidFrameLength(s: State, xs: seq<Sample>)
    requires |xs| % 4 == 0
    ensures 2 * |HidFrame(s, xs)| == |xs| == |Sent(xs)|
  {
    hide Codes;
  }

  lemma HidFramesFront(s: State, blocks: seq<seq<Sample>>)
    requires blocks != []
    ensures HidFrames(s, blocks)[..|blocks| - 1] == HidFrames(s, blocks[..|blocks| - 1])
  {
    hide HidFrame;
    var n := |blocks| - 1;
    forall k | 0 <= k < n
      ensures StateAt(s, blocks, k) == StateAt(s, blocks[..n], k)
    {
      assert blocks[..n][..k] == blocks[..k];
    }
  }
}
