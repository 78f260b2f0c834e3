/** Runs of the quantiser: codes out of samples, samples out of codes, and the nibble packing of
    the three wire formats. */
module AdpcmStream {
  import opened Machine
  import opened Bits
  import opened AdpcmCodec

  // ---------------------------------------------------------------- runs

  // The encoder's state after the samples xs.
  function EncodeEnd(s: State, xs: seq<Sample>): State {
    if xs == [] then s else EncodeNext(EncodeEnd(s, xs[..|xs| - 1]), xs[|xs| - 1])
  }

  function Codes(s: State, xs: seq<Sample>): (cs: seq<Code>)
    ensures |cs| == |xs|
  {
    if xs == [] then [] else
      Codes(s, xs[..|xs| - 1]) + [EncodeCode(EncodeEnd(s, xs[..|xs| - 1]), xs[|xs| - 1])]
  }

  // The predictions the encoder goes through: its own reconstruction of xs.
  function Reconstruction(s: State, xs: seq<Sample>): (ps: seq<Sample>)
    ensures |ps| == |xs|
  {
    if xs == [] then [] else Reconstruction(s, xs[..|xs| - 1]) + [EncodeEnd(s, xs).predict]
  }

  // The decoder's state after the codes cs, and the samples it puts out.
  function DecodeEnd(s: State, cs: seq<Code>): State {
    if cs == [] then s else DecodeNext(DecodeEnd(s, cs[..|cs| - 1]), cs[|cs| - 1])
  }

  function Decoded(s: State, cs: seq<Code>): (ps: seq<Sample>)
    ensures |ps| == |cs|
  {
    if cs == [] then [] else Decoded(s, cs[..|cs| - 1]) + [DecodeEnd(s, cs).predict]
  }

  // A decoder that starts where the encoder started stays with it, sample by sample.
  lemma {:induction false} Lockstep(s: State, xs: seq<Sample>)
    ensures DecodeEnd(s, Codes(s, xs)) == EncodeEnd(s, xs)
    ensures Decoded(s, Codes(s, xs)) == Reconstruction(s, xs)
  {
    hide EncodeNext, DecodeNext, EncodeCode;
    if xs != [] {
      var ys, cs := xs[..|xs| - 1], Codes(s, xs);
      Lockstep(s, ys);
      assert cs[..|cs| - 1] == Codes(s, ys);
      DecodeFollowsEncode(EncodeEnd(s, ys), xs[|xs| - 1]);
    }
  }

  lemma {:induction false} EncodeConcat(s: State, xs: seq<Sample>, ys: seq<Sample>)
    ensures EncodeEnd(s, xs + ys) == EncodeEnd(EncodeEnd(s, xs), ys)
    ensures Codes(s, xs + ys) == Codes(s, xs) + Codes(EncodeEnd(s, xs), ys)
    ensures Reconstruction(s, xs + ys) == Reconstruction(s, xs) + Reconstruction(EncodeEnd(s, xs), ys)
  {
    hide EncodeNext, EncodeCode;
    if ys == [] {
      assert xs + ys == xs;
    } else {
      var n := |ys| - 1;
      EncodeConcat(s, xs, ys[..n]);
      assert (xs + ys)[..|xs + ys| - 1] == xs + ys[..n];
    }
  }

  // The codes of a prefix are a prefix of the codes.
  lemma CodesPrefix(s: State, xs: seq<Sample>, n: nat)
    requires n <= |xs|
    ensures Codes(s, xs)[..n] == Codes(s, xs[..n])
    ensures Reconstruction(s, xs)[..n] == Reconstruction(s, xs[..n])
  {
    assert xs == xs[..n] + xs[n..];
    EncodeConcat(s, xs[..n], xs[n..]);
  }

  // ---------------------------------------------------------------- packing

  // code16 = (code16 >> 4) | (code << 12), in 16 bits
  function PushCode(code16: nat, code: Code): (r: nat)
    requires code16 < 0x1_0000
    ensures r == code16 / 16 + code * 4096 < 0x1_0000
  {
    PushCodeValue(code16, code);
    BitOr(Shr(code16, 4), Shl(code, 12) % 0x1_0000)
  }

  lemma PushCodeValue(code16: nat, code: Code)
    requires code16 < 0x1_0000
    ensures Shl(code, 12) % 0x1_0000 >= 0
    ensures BitOr(Shr(code16, 4), Shl(code, 12) % 0x1_0000) == code16 / 16 + code * 4096 < 0x1_0000
  {
    hide BitOr, Shl, Shr, Pow2;
    Pow2Facts();
    ShlIsMul(code, 12);
    ShrIsDiv(code16, 4);
    OrDisjoint(Shr(code16, 4), code, 12);
  }

  // ((c & 0x0f) << 4) | ((c & 0xf0) >> 4) | ((c & 0x0f00) << 4) | ((c & 0xf000) >> 4): the two
  // nibbles of each byte exchanged
  function SwapNibbles16(c: nat): nat {
    BitOr(BitOr(BitOr(Mul16(BitAnd(c, 0x0f)), BitAnd(c, 0xf0) / 16), Mul16(BitAnd(c, 0x0f00))), BitAnd(c, 0xf000) / 16)
  }

  // x << 4
  function Mul16(x: nat): nat {
    16 * x
  }

  // ((b >> 4) & 0x0f) | ((b << 4) & 0xf0) on a byte
  function SwapNibbles8(b: Byte): nat {
    BitOr(BitAnd(b / 16, 0x0f), BitAnd(Mul16(b), 0xf0))
  }

  // x & 0xf shifted up by k: the nibble at bit k
  lemma NibbleMask(x: nat, k: nat)
    requires k == 0 || k == 4 || k == 8 || k == 12
    ensures Shl(15, k) >= 0 && BitAnd(x, Shl(15, k)) == Shl(Shr(x, k) % 16, k)
    ensures Shr(x, k) == x / Pow2(k)
  {
    Pow2Facts();
    AndHigh(x, 15, k);
    AndMask(Shr(x, k), 4);
    ShrIsDiv(Shr(x, k), 4);
    ShrIsDiv(x, k);
  }

  lemma NibbleMasks(x: nat)
    ensures BitAnd(x, 0x0f) == x % 16
    ensures BitAnd(x, 0xf0) == x / 16 % 16 * 16
    ensures BitAnd(x, 0x0f00) == x / 256 % 16 * 256
    ensures BitAnd(x, 0xf000) == x / 4096 % 16 * 4096
  {
    hide BitAnd, Shl, Shr, Pow2;
    Pow2Facts();
    NibbleMask(x, 0);
    NibbleMask(x, 4);
    NibbleMask(x, 8);
    NibbleMask(x, 12);
    ShlIsMul(15, 0);
    ShlIsMul(15, 4);
    ShlIsMul(15, 8);
    ShlIsMul(15, 12);
    ShlIsMul(x % 16, 0);
    ShlIsMul(x / 16 % 16, 4);
    ShlIsMul(x / 256 % 16, 8);
    ShlIsMul(x / 4096 % 16, 12);
  }

  lemma OrNibbles(x: nat, y: nat, k: nat, p: nat)
    requires p == Pow2(k) && x < p
    ensures y * p >= 0 && BitOr(x, y * p) == x + y * p && BitOr(y * p, x) == x + y * p
  {
    hide BitOr, Shl, Pow2;
    ShlIsMul(y, k);
    OrDisjoint(x, y, k);
    OrCommutes(x, Shl(y, k));
  }

  // Four nibbles, lowest first.
  function HalfWord(n0: int, n1: int, n2: int, n3: int): int {
    n0 + 16 * n1 + 256 * n2 + 4096 * n3
  }

  // Exchanging the nibbles of both bytes of a half-word.
  lemma SwapNibbles16Value(n0: Code, n1: Code, n2: Code, n3: Code)
    ensures SwapNibbles16(HalfWord(n0, n1, n2, n3)) == HalfWord(n1, n0, n3, n2)
  {
    hide BitOr, BitAnd, HalfWord;
    var c := HalfWord(n0, n1, n2, n3);
    NibblesOf(n0, n1, n2, n3);
    NibbleMasks(c);
    OrFourNibbles(n0, n1, n2, n3);
    assert Mul16(BitAnd(c, 0x0f)) == 16 * n0 as int && BitAnd(c, 0xf0) / 16 == n1;
    assert Mul16(BitAnd(c, 0x0f00)) == n2 as int * 4096 && BitAnd(c, 0xf000) / 16 == n3 as int * 256;
  }

  lemma OrFourNibbles(n0: Code, n1: Code, n2: Code, n3: Code)
    ensures BitOr(BitOr(BitOr(16 * n0 as nat, n1), n2 as nat * 4096), n3 as nat * 256) == HalfWord(n1, n0, n3, n2)
  {
    hide BitOr, Pow2;
    Pow2Facts();
    OrNibbles(n1, n0, 4, 16);
    OrNibbles(n1 + 16 * n0 as nat, n2, 12, 4096);
    OrNibblesMiddle(n1 + 16 * n0 as nat, n2, n3);
  }

  lemma NibblesOf(n0: Code, n1: Code, n2: Code, n3: Code)
    ensures var c := HalfWord(n0, n1, n2, n3);
      0 <= c && c % 16 == n0 && c / 16 % 16 == n1 && c / 256 % 16 == n2 && c / 4096 % 16 == n3
  {
    var c := n0 + 16 * n1 + 256 * n2 + 4096 * n3;
    DivModUnique(c, 16, n1 + 16 * n2 + 256 * n3, n0);
    DivModUnique(c, 256, n2 + 16 * n3, n0 + 16 * n1);
    DivModUnique(c, 4096, n3, n0 + 16 * n1 + 256 * n2);
    DivModUnique(n1 + 16 * n2 + 256 * n3, 16, n2 + 16 * n3, n1);
    DivModUnique(n2 + 16 * n3, 16, n3, n2);
  }

  lemma OrNibblesMiddle(low: nat, n2: Code, n3: Code)
    requires low < 256
    ensures BitOr(low + n2 * 4096, n3 * 256) == low + n3 * 256 + n2 * 4096
  {
    hide BitOr, Shl, Pow2;
    Pow2Facts();
    OrBlocks(low, n2 * 16, n3, 8);
    OrNibbles(n3, n2, 4, 16);
    ShlIsMul(n2 * 16, 8);
    ShlIsMul(n3, 8);
    ShlIsMul(n3 + n2 * 16, 8);
  }

  // Or of values whose low k bits meet zero bits only.
  lemma {:induction false} OrBlocks(low: nat, y: nat, z: nat, k: nat)
    requires low < Pow2(k)
    ensures Shl(y, k) >= 0 && Shl(z, k) >= 0
    ensures BitOr(low + Shl(y, k), Shl(z, k)) == low + Shl(BitOr(y, z), k)
  {
    ShlNonNegative(y, k);
    ShlNonNegative(z, k);
    if k > 0 { OrBlocks(low / 2, y, z, k - 1); }
  }

  lemma SwapNibbles8Value(b: Byte)
    ensures SwapNibbles8(b) == b / 16 + b % 16 * 16
  {
    hide BitOr, BitAnd, Pow2;
    NibbleMasks(b / 16);
    NibbleMasks(16 * b);
    Pow2Facts();
    OrNibbles(b / 16, b % 16, 4, 16);
  }

  // ---------------------------------------------------------------- payload bytes

  // Two codes to a byte, the earlier one low, or high where the format exchanges nibbles. The
  // encoders write a half-word after every fourth code, so up to three codes at the end are not
  // sent.
  function PackPair(first: Code, second: Code, swapped: bool): Byte {
    if swapped then second + 16 * first else first + 16 * second
  }

  function PackedBytes(cs: seq<Code>, swapped: bool): (bs: seq<Byte>)
    ensures |bs| == |cs| / 4 * 2
  {
    seq(|cs| / 4 * 2, k requires 0 <= k < |cs| / 4 * 2 => PackPair(cs[2 * k], cs[2 * k + 1], swapped))
  }

  // Where code i is on the wire: in byte i / 2, with the first of two codes in the low half in the
  // Telink format and in the high half in the others.
  lemma WireOrder(cs: seq<Code>, i: nat)
    requires i < |cs| / 4 * 4
    ensures i / 2 < |PackedBytes(cs, false)| == |PackedBytes(cs, true)| == |cs| / 4 * 2
    ensures PackedBytes(cs, false)[i / 2] / (if i % 2 == 0 then 1 else 16) % 16 == cs[i]
    ensures PackedBytes(cs, true)[i / 2] / (if i % 2 == 0 then 16 else 1) % 16 == cs[i]
  {
    var k := i / 2;
    assert i == 2 * k + i % 2;
    hide PackPair;
    assert PackedBytes(cs, false)[k] == PackPair(cs[2 * k], cs[2 * k + 1], false);
    assert PackedBytes(cs, true)[k] == PackPair(cs[2 * k], cs[2 * k + 1], true);
    hide PackedBytes;
    PairReads(cs[2 * k], cs[2 * k + 1]);
  }

  lemma PairReads(first: Code, second: Code)
    ensures PackPair(first, second, false) % 16 == first && PackPair(first, second, false) / 16 % 16 == second
    ensures PackPair(first, second, true) / 16 % 16 == first && PackPair(first, second, true) % 16 == second
  {
  }

  // The codes a decoder reads from the bytes bs.
  function UnpackCode(bs: seq<Byte>, i: nat, swapped: bool): Code
    requires i / 2 < |bs|
  {
    if swapped == (i % 2 == 0) then bs[i / 2] / 16 else bs[i / 2] % 16
  }

  function UnpackedCodes(bs: seq<Byte>, n: nat, swapped: bool): (cs: seq<Code>)
    requires n <= 2 * |bs|
    ensures |cs| == n
  {
    seq(n, i requires 0 <= i < n => UnpackCode(bs, i, swapped))
  }

  // Every code that was sent is read back, whatever follows it in memory.
  lemma UnpackPacked(cs: seq<Code>, rest: seq<Byte>, n: nat, swapped: bool)
    requires n <= |cs| / 4 * 4
    ensures UnpackedCodes(PackedBytes(cs, swapped) + rest, n, swapped) == cs[..n]
  {
    var bs := PackedBytes(cs, swapped) + rest;
    forall i | 0 <= i < n
      ensures UnpackCode(bs, i, swapped) == cs[i]
    {
      assert bs[i / 2] == PackPair(cs[2 * (i / 2)], cs[2 * (i / 2) + 1], swapped);
      UnpackPair(cs[2 * (i / 2)], cs[2 * (i / 2) + 1], swapped);
    }
  }

  lemma UnpackPair(first: Code, second: Code, swapped: bool)
    ensures var b := PackPair(first, second, swapped);
      if swapped then b / 16 == first && b % 16 == second else b % 16 == first && b / 16 == second
  {
  }
}
