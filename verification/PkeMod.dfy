/** Modular reduction of a double-length integer (drivers/B91/pke.c, pke_mod), over the operand
    slots of the PKE block. The block itself multiplies and adds modulo an odd number; the
    reduction around it is software, and is what is proved here. */
module PkeMod {
  import opened Bits
  import opened Words
  import opened BigInteger
  import opened BigShift

  const SLOT_WORDS := 9
  const MAX_WORDS := 8
  const PKE_SUCCESS := 0

  method CopyWords(src: array<Word>, so: nat, dst: array<Word>, n: nat)
    requires so + n <= src.Length && n <= dst.Length && src != dst
    modifies dst
    ensures dst[..n] == old(src[so..so + n]) && dst[n..] == old(dst[n..])
  {
    for i := 0 to n
      invariant dst[..i] == src[so..so + i]
      invariant dst[i..] == old(dst[i..])
      invariant src[..] == old(src[..])
    {
      assert dst[i..][1..] == dst[i + 1..];
      dst[i] := src[so + i];
    }
  }

  method ZeroWords(dst: array<Word>, o: nat, n: nat)
    requires o + n <= dst.Length
    modifies dst
    ensures dst[..o] == old(dst[..o]) && dst[o + n..] == old(dst[o + n..])
    ensures forall i :: o <= i < o + n ==> dst[i] == 0
  {
    for i := 0 to n
      invariant dst[..o] == old(dst[..o]) && dst[o + n..] == old(dst[o + n..])
      invariant forall k :: o <= k < o + i ==> dst[k] == 0
    {
      dst[o + i] := 0;
    }
  }

  // n words copied, and zero words above them up to w: the same number in w words.
  method CopyExtended(src: array<Word>, so: nat, dst: array<Word>, n: nat, w: nat)
    requires so + n <= src.Length && n <= w <= dst.Length && src != dst
    modifies dst
    ensures dst[w..] == old(dst[w..])
    ensures Val(dst[..w]) == Val(old(src[so..so + n]))
  {
    CopyWords(src, so, dst, n);
    assert dst[w..] == dst[n..][w - n..];
    ZeroWords(dst, n, w - n);
    assert dst[..w][..n] == dst[..n];
    ValLeadingZeros(dst[..w], n);
  }

  // The result of one subtraction at most.
  function Reduced(x: int, b: int): int {
    if x >= b then x - b else x
  }

  function ReducedAbove(x: int, b: int): int {
    if x > b then x - b else x
  }

  // x mod b by repeated subtraction
  function Rem(x: nat, b: nat): (r: nat)
    requires b > 0
    ensures r < b
  {
    if x < b then x else Rem(x - b, b)
  }

  lemma {:induction false} RemIsMod(x: nat, b: nat)
    requires b > 0
    ensures Rem(x, b) == x % b
    decreases x
  {
    if x < b {
      DivModUnique(x, b, 0, x);
    } else {
      RemIsMod(x - b, b);
      ModShift(x - b, 1, b);
    }
  }

  // (x + k b) mod b
  lemma ModShift(x: int, k: int, b: int)
    requires b > 0
    ensures (x + k * b) % b == x % b
  {
    assert x + k * b == (x / b + k) * b + x % b;
    DivModUnique(x + k * b, b, x / b + k, x % b);
  }

  function ProductRem(s: seq<Word>, t: seq<Word>, b: nat): (r: nat)
    requires b > 0
    ensures r < b
  {
    MulNonNegative(Val(s), Val(t));
    Rem(Val(s) * Val(t), b)
  }

  function SumRem(s: seq<Word>, t: seq<Word>, b: nat): (r: nat)
    requires b > 0
    ensures r < b
  {
    Rem(Val(s) + Val(t), b)
  }

  // Replacing a factor by a congruent one changes nothing modulo b.
  lemma ProductMod(p: int, h: int, hr: int, b: int)
    requires b > 0 && (hr == h || hr == h - b)
    ensures ((p - b) * hr) % b == (p * h) % b
  {
    if hr == h {
      assert (p - b) * h == p * h + (-h) * b;
      ModShift(p * h, -h, b);
    } else {
      assert (p - b) * (h - b) == p * h + (b - p - h) * b;
      ModShift(p * h, b - p - h, b);
    }
  }

  lemma SumMod(x: int, y: int, b: int)
    requires b > 0
    ensures (x + y % b) % b == (x + y) % b
  {
    assert x + y == (x + y % b) + (y / b) * b;
    ModShift(x + y % b, y / b, b);
  }

  // The value of the words pke_mod splits off: x without its low B bits, and those bits.
  lemma SplitAt(x: nat, bitsB: nat, k: nat)
    ensures Low(x, bitsB + k) == Low(Shr(x, bitsB), k) * Pow2(bitsB) + Low(x, bitsB)
  {
    LowSplit(x, bitsB, k);
    ShlIsMul(Low(Shr(x, bitsB), k), bitsB);
  }

  class Pke {
    // Operand slots of the block, nine words each. Software keeps A1 and B1 as scratch; the other
    // slots belong to the microcode.
    const a0: array<Word>
    const a1: array<Word>
    const a3: array<Word>
    const b0: array<Word>
    const b1: array<Word>
    const b3: array<Word>
    const b4: array<Word>

    // Whether every operand handed over so far was in the range the block is specified for:
    // at most the modulus for a product, below the modulus for a sum.
    ghost var inRange: bool

    // The return codes of the block, operation by operation, and how many it has executed.
    const reply: nat -> nat
    var executed: nat

    ghost predicate Valid() {
      && a0.Length == a1.Length == a3.Length == SLOT_WORDS
      && b0.Length == b1.Length == b3.Length == b4.Length == SLOT_WORDS
      && a1 != b1 && a1 !in MicrocodeSlots() && b1 !in MicrocodeSlots()
      && a0 != b0 && a0 != b3 && b0 != b3 && a3 != b4
    }

    ghost function MicrocodeSlots(): set<array<Word>> {
      {a0, a3, b0, b3, b4}
    }

    constructor (reply: nat -> nat)
      ensures Valid() && inRange && executed == 0 && this.reply == reply && a1.Length == 9 == MAX_WORDS + 1
      ensures fresh(a0) && fresh(a1) && fresh(a3) && fresh(b0) && fresh(b1) && fresh(b3) && fresh(b4)
    {
      a0 := new Word[SLOT_WORDS];
      a1 := new Word[SLOT_WORDS];
      a3 := new Word[SLOT_WORDS];
      b0 := new Word[SLOT_WORDS];
      b1 := new Word[SLOT_WORDS];
      b3 := new Word[SLOT_WORDS];
      b4 := new Word[SLOT_WORDS];
      inRange, executed := true, 0;
      this.reply := reply;
    }

    // The block runs a microcode and answers with a return code.
    method Execute() returns (rc: nat)
      modifies `executed
      ensures rc == reply(old(executed)) && executed == old(executed) + 1
    {
      rc := reply(executed);
      executed := executed + 1;
    }

    method LoadOperand(base: array<Word>, data: array<Word>, wordLen: nat)
      requires base.Length == SLOT_WORDS && wordLen <= SLOT_WORDS && wordLen <= data.Length
      requires base != data
      modifies base
      ensures base[..wordLen] == old(data[..wordLen])
      ensures forall i :: wordLen <= i < SLOT_WORDS ==> base[i] == 0
    {
      CopyWords(data, 0, base, wordLen);
      ZeroWords(base, wordLen, SLOT_WORDS - wordLen);
    }

    // The microcode stores an n-word result in A0, or stops with a return code.
    method StoreResult(x: nat, n: nat)
      requires Valid() && n <= SLOT_WORDS && x < Weight(n)
      modifies a0
      ensures Val(a0[..n]) == x
    {
      var words := ToWords(x, n);
      ToWordsValue(x, n);
      for i := 0 to n
        invariant a0[..i] == words[..i]
      {
        a0[i] := words[i];
      }
      assert a0[..n] == words;
    }

    // h = R^2 mod m and n1, computed by the block into slots of its own.
    method CalcPreMont(m: array<Word>, n: nat) returns (rc: nat)
      requires Valid() && n <= MAX_WORDS && n <= m.Length && m !in MicrocodeSlots()
      modifies `executed, a3, b3, b4
      ensures rc == reply(old(executed)) && executed == old(executed) + 1
      ensures b3[..n] == old(m[..n])
    {
      LoadOperand(b3, m, n);
      rc := Execute();
    }

    method LoadPreCalcMont(h: array<Word>, n1: array<Word>, n: nat)
      requires Valid() && n <= MAX_WORDS && n <= h.Length && 1 <= n1.Length
      requires h !in MicrocodeSlots() && n1 !in MicrocodeSlots()
      modifies a3, b4
      ensures a3[..n] == old(h[..n]) && b4[0] == old(n1[0])
    {
      LoadOperand(a3, h, n);
      LoadOperand(b4, n1, 1);
    }

    // out = a * b mod m for an odd m; for an even one Montgomery's method computes nothing useful.
    method ModMul(m: array<Word>, a: array<Word>, b: array<Word>, out: array<Word>, n: nat) returns (rc: nat)
      requires Valid() && n <= MAX_WORDS
      requires n <= m.Length && n <= a.Length && n <= b.Length && n <= out.Length
      requires {m, a, b, out} !! MicrocodeSlots()
      modifies `inRange, `executed, a0, b0, b3, out
      ensures rc == reply(old(executed)) && executed == old(executed) + 1
      ensures inRange == (old(inRange) && Val(old(a[..n])) <= Val(old(m[..n])) && Val(old(b[..n])) <= Val(old(m[..n])))
      ensures out[n..] == old(out[n..])
      ensures rc == PKE_SUCCESS && Val(old(m[..n])) % 2 == 1 ==>
        Val(out[..n]) == ProductRem(old(a[..n]), old(b[..n]), Val(old(m[..n])))
    {
      hide Val, ProductRem, SumRem;
      ghost var mv, av, bv := Val(m[..n]), Val(a[..n]), Val(b[..n]);
      inRange := inRange && av <= mv && bv <= mv;
      LoadOperand(b3, m, n);
      LoadOperand(a0, a, n);
      LoadOperand(b0, b, n);
      rc := Execute();
      if rc != PKE_SUCCESS {
        return;
      }
      var x: nat :| x < Weight(n);
      var modulus := Val(b3[..n]);
      if modulus % 2 == 1 {
        ValBound(b3[..n]);
        x := ProductRem(a0[..n], b0[..n], modulus);
      }
      StoreResult(x, n);
      CopyWords(a0, 0, out, n);
    }

    // out = (a + b) mod m
    method ModAdd(m: array<Word>, a: array<Word>, b: array<Word>, out: array<Word>, n: nat) returns (rc: nat)
      requires Valid() && n <= MAX_WORDS
      requires n <= m.Length && n <= a.Length && n <= b.Length && n <= out.Length
      requires {m, a, b, out} !! MicrocodeSlots()
      modifies `inRange, `executed, a0, b0, b3, out
      ensures rc == reply(old(executed)) && executed == old(executed) + 1
      ensures inRange == (old(inRange) && Val(old(a[..n])) < Val(old(m[..n])) && Val(old(b[..n])) < Val(old(m[..n])))
      ensures out[n..] == old(out[n..])
      ensures rc == PKE_SUCCESS && Val(old(m[..n])) % 2 == 1 ==>
        Val(out[..n]) == SumRem(old(a[..n]), old(b[..n]), Val(old(m[..n])))
    {
      hide Val, ProductRem, SumRem;
      ghost var mv, av, bv := Val(m[..n]), Val(a[..n]), Val(b[..n]);
      inRange := inRange && av < mv && bv < mv;
      LoadOperand(b3, m, n);
      LoadOperand(a0, a, n);
      LoadOperand(b0, b, n);
      rc := Execute();
      if rc != PKE_SUCCESS {
        return;
      }
      var x: nat :| x < Weight(n);
      var modulus := Val(b3[..n]);
      if modulus % 2 == 1 {
        ValBound(b3[..n]);
        x := SumRem(a0[..n], b0[..n], modulus);
      }
      StoreResult(x, n);
      CopyWords(a0, 0, out, n);
    }

    // c = p - b, for p not below b.
    method SubtractModulus(p: array<Word>, po: nat, b: array<Word>, c: array<Word>, w: nat)
      requires po + w <= p.Length && w <= b.Length && w <= c.Length
      requires c != p && c != b && Val(p[po..po + w]) >= Val(b[..w])
      modifies c
      ensures c[w..] == old(c[w..])
      ensures Val(c[..w]) == Val(old(p[po..po + w])) - Val(old(b[..w]))
    {
      ghost var s, t := p[po..po + w], b[..w];
      SubNoBorrow(s, t);
      SubU32(p, po, b, c, w);
      assert c[..w] == SubWords(s, t);
    }

    // c = p, less b when p is not below it.
    method ReduceOnce(p: array<Word>, b: array<Word>, c: array<Word>, w: nat)
      requires w <= p.Length && w <= b.Length && w <= c.Length
      requires c != p && c != b
      modifies c
      ensures c[w..] == old(c[w..])
      ensures Val(c[..w]) == Reduced(Val(old(p[..w])), Val(old(b[..w])))
    {
      assert p[0..0 + w] == p[..w] && b[0..0 + w] == b[..w];
      var r := BigIntegerCompare(p, 0, w, b, 0, w);
      if r >= 0 {
        SubtractModulus(p, 0, b, c, w);
      } else {
        CopyWords(p, 0, c, w);
      }
    }

    // c = p, from offset po and in n words, less b when p is above it.
    method ReduceOnceAbove(p: array<Word>, po: nat, n: nat, b: array<Word>, c: array<Word>, w: nat)
      requires po + n <= p.Length && n <= w <= b.Length && w <= c.Length
      requires 0 < w && b[w - 1] != 0
      requires c != p && c != b
      modifies c
      ensures c[w..] == old(c[w..])
      ensures Val(c[..w]) == ReducedAbove(Val(old(p[po..po + n])), Val(old(b[..w])))
    {
      assert b[0..0 + w] == b[..w];
      var r := BigIntegerCompare(p, po, n, b, 0, w);
      if r > 0 {
        LongerOperand(p[po..po + n], b[..w]);
        SubtractModulus(p, po, b, c, w);
      } else {
        CopyExtended(p, po, c, n, w);
      }
    }

    // The high part of a, with at most one subtraction of b, in c. A modulus whose top word is
    // full (bitLen 0) needs no shift, and there a high part equal to b is left as it is.
    method ReduceHigh(a: array<Word>, aWordLen: nat, b: array<Word>, w: nat, bitLen: nat, c: array<Word>)
      requires Valid() && 0 < w <= MAX_WORDS && w <= aWordLen <= 2 * w && aWordLen <= a.Length
      requires w <= b.Length && w <= c.Length && b[w - 1] != 0 && bitLen < 32
      requires c != a && c != b && a1 !in {a, b, c}
      modifies a1, c
      ensures c[w..] == old(c[w..])
      ensures HighReduced(Val(c[..w]), Val(a[..aWordLen]), Val(b[..w]), w, bitLen)
    {
      if bitLen != 0 {
        ShiftHighPart(a, aWordLen, w, bitLen);
        ReduceOnce(a1, b, c, w);
      } else {
        ghost var s := a[..aWordLen];
        assert a[w..w + (aWordLen - w)] == s[w..];
        TopWords(s, w);
        ReduceOnceAbove(a, w, aWordLen - w, b, c, w);
      }
    }

    // The bits of a above the modulus length, moved down into A1.
    method ShiftHighPart(a: array<Word>, aWordLen: nat, w: nat, bitLen: nat)
      requires Valid() && 0 < w <= MAX_WORDS && w <= aWordLen <= 2 * w && aWordLen <= a.Length
      requires 0 < bitLen < 32 && a1 != a
      modifies a1
      ensures Val(a1[..w]) == Low(Shr(Val(a[..aWordLen]), 32 * (w - 1) + bitLen), 32 * w)
    {
      hide Val, Low, Shr, Pow2, Div2nWords;
      ghost var s := a[..aWordLen];
      var tmpLen := aWordLen - w + 1;
      CopyWords(a, w - 1, a1, tmpLen);
      assert a1[..tmpLen] == s[w - 1..];
      var _ := Div2nU32(a1, tmpLen, bitLen);
      ghost var t := a1[..tmpLen];
      if tmpLen < w {
        ZeroWords(a1, tmpLen, w - tmpLen);
        assert a1[..w] == t + seq(w - tmpLen, _ => 0);
      } else {
        assert a1[..w] == t[..w];
      }
      ShiftedPart(s, w, bitLen);
    }

    // t in exactly w words.
    ghost function Fitted(t: seq<Word>, w: nat): (p: seq<Word>)
      ensures |p| == w
    {
      if |t| < w then t + seq(w - |t|, _ => 0) else t[..w]
    }

    lemma FittedValue(t: seq<Word>, w: nat)
      ensures Val(Fitted(t, w)) == Low(Val(t), 32 * w)
    {
      var p := Fitted(t, w);
      ValBound(t);
      if |t| < w {
        assert p[..|t|] == t;
        ValLeadingZeros(p, |t|);
        Pow2Monotone(32 * |t|, 32 * w);
        LowSmall(Val(t), 32 * w);
      } else {
        ValSplit(t, w);
      }
    }

    lemma ShiftedPart(s: seq<Word>, w: nat, bitLen: nat)
      requires 0 < w <= |s| && 0 < bitLen < 32
      ensures Val(Fitted(Div2nWords(s[w - 1..], bitLen), w)) == Low(Shr(Val(s), 32 * (w - 1) + bitLen), 32 * w)
    {
      var high := s[w - 1..];
      ValSplit(s, w - 1);
      ValBound(high);
      Div2nValue(high, bitLen);
      ShrIsDiv(Val(high), bitLen);
      ShrShr(Val(s), 32 * (w - 1), bitLen);
      FittedValue(Div2nWords(high, bitLen), w);
    }

    lemma TopWords(s: seq<Word>, w: nat)
      requires w <= |s| <= 2 * w
      ensures Val(s[w..]) == Low(Shr(Val(s), 32 * w), 32 * w)
    {
      ValSplit(s, w);
      ValBound(s[w..]);
      Pow2Monotone(32 * |s[w..]|, 32 * w);
      LowSmall(Val(s[w..]), 32 * w);
    }

    // 2^B - b, which is 2^B modulo b, in B1. With a full top word 2^B does not fit in w words:
    // there the subtraction starts at 0 and wraps.
    method LoadPowerOfTwo(b: array<Word>, w: nat, bitLen: nat)
      requires Valid() && 0 < w <= MAX_WORDS && w <= b.Length && b !in {a1, b1} && bitLen < 32
      requires Pow2(ModulusBits(w, bitLen) - 1) <= Val(b[..w]) < Pow2(ModulusBits(w, bitLen))
      modifies a1, b1
      ensures Val(b1[..w]) == Pow2(ModulusBits(w, bitLen)) - Val(b[..w])
    {
      hide Val, SubWords, PowerWords, Pow2;
      ghost var t := b[..w];
      ZeroWords(a1, 0, w);
      PowerWordsAre(a1[..w], w, bitLen);
      if bitLen != 0 {
        PowerFits(bitLen);
        a1[w - 1] := Pow2(bitLen);
      }
      PowerWordsAre(a1[..w], w, bitLen);
      assert a1[0..0 + w] == a1[..w];
      SubU32(a1, 0, b, b1, w);
      PowerMinusModulus(t, bitLen);
    }

    lemma PowerFits(k: nat)
      requires k < 32
      ensures Pow2(k) < BASE
    {
      Pow2Monotone(k, 31);
      assert 2 * Pow2(31) == Pow2(32);
      Pow2Facts();
    }

    // 2^B in w words, or 0 where it needs one more.
    ghost function PowerWords(w: nat, bitLen: nat): (p: seq<Word>)
      requires w > 0 && bitLen < 32
      ensures |p| == w
    {
      PowerFits(bitLen);
      seq(w - 1, _ => 0) + [if bitLen == 0 then 0 else Pow2(bitLen)]
    }

    lemma PowerWordsAre(p: seq<Word>, w: nat, bitLen: nat)
      requires |p| == w > 0 && bitLen < 32 && forall i :: 0 <= i < w - 1 ==> p[i] == 0
      ensures p[w - 1] as int == (if bitLen == 0 then 0 else Pow2(bitLen)) ==> p == PowerWords(w, bitLen)
    {
      hide Pow2;
      if p[w - 1] as int == (if bitLen == 0 then 0 else Pow2(bitLen)) {
        assert p == p[..w - 1] + [p[w - 1]];
        assert p[..w - 1] == seq(w - 1, _ => 0);
      }
    }

    lemma PowerMinusModulus(t: seq<Word>, bitLen: nat)
      requires t != [] && bitLen < 32
      requires Pow2(ModulusBits(|t|, bitLen) - 1) <= Val(t) < Pow2(ModulusBits(|t|, bitLen))
      ensures Val(SubWords(PowerWords(|t|, bitLen), t)) == Pow2(ModulusBits(|t|, bitLen)) - Val(t)
    {
      hide Val, SubWords, PowerWords, Pow2;
      var p, bits := PowerWords(|t|, bitLen), ModulusBits(|t|, bitLen);
      PowerWordsValue(|t|, bitLen);
      SubWordsValue(p, t);
      PowerDifference(Val(p), Val(t), bits, bitLen, |t|);
    }

    // With a full top word the difference wraps, and 2^B is what it wraps by.
    lemma PowerDifference(p: int, b: int, bits: nat, bitLen: nat, w: nat)
      requires w > 0 && bits == ModulusBits(w, bitLen) && Pow2(bits - 1) <= b < Pow2(bits)
      requires p == if bitLen == 0 then 0 else Pow2(bits)
      ensures Wrapped(p - b, w) == Pow2(bits) - b
    {
      hide Pow2;
    }

    lemma PowerWordsValue(w: nat, bitLen: nat)
      requires w > 0 && bitLen < 32
      ensures Val(PowerWords(w, bitLen)) == if bitLen == 0 then 0 else Pow2(ModulusBits(w, bitLen))
    {
      var p, k := PowerWords(w, bitLen), w - 1;
      ValZeros(p[..k]);
      assert Val(p) == Val(p[..k]) + Shl(p[k], 32 * k);
      if bitLen == 0 {
        ShlZero(32 * k);
      } else {
        ShlPow2(bitLen, 32 * k);
      }
    }

    // The low part of a, with at most one subtraction of b: in c, or a itself where nothing has
    // to be masked or subtracted.
    method ReduceLow(a: array<Word>, aWordLen: nat, b: array<Word>, w: nat, bitLen: nat, c: array<Word>)
      returns (low: array<Word>)
      requires Valid() && 0 < w <= MAX_WORDS && w <= aWordLen <= a.Length
      requires w <= b.Length && w <= c.Length && bitLen < 32
      requires c != a && c != b && a1 !in {a, b, c}
      modifies a1, c
      ensures low == c || low == a
      ensures c[w..] == old(c[w..])
      ensures Val(low[..w]) == Reduced(Low(Val(a[..aWordLen]), ModulusBits(w, bitLen)), Val(b[..w]))
    {
      hide Val, Low, BitAnd;
      ghost var s := a[..aWordLen];
      assert a[..w] == s[..w];
      if bitLen != 0 {
        low := c;
        CopyWords(a, 0, a1, w);
        assert a1[..w] == s[..w];
        AndMaskWord(s[w - 1], bitLen);
        a1[w - 1] := BitAnd(a1[w - 1], Pow2(bitLen) - 1);
        MaskedPart(s, w, bitLen, a1[..w]);
        ReduceOnce(a1, b, c, w);
      } else {
        ValSplit(s, w);
        assert a[0..0 + w] == s[..w] && b[0..0 + w] == b[..w];
        var r := BigIntegerCompare(a, 0, w, b, 0, w);
        if r >= 0 {
          low := c;
          SubtractModulus(a, 0, b, c, w);
        } else {
          low := a;
        }
      }
    }

    lemma AndMaskWord(x: Word, k: nat)
      requires k < 32
      ensures BitAnd(x, Pow2(k) - 1) == Low(x, k) < BASE
    {
      AndMask(x, k);
      HighLow(x, k);
      Pow2Monotone(k, 32);
      Pow2Facts();
    }

    lemma MaskedPart(s: seq<Word>, w: nat, bitLen: nat, p: seq<Word>)
      requires 0 < w <= |s| && bitLen < 32 && |p| == w
      requires p[..w - 1] == s[..w - 1] && p[w - 1] == Low(s[w - 1], bitLen)
      ensures Val(p) == Low(Val(s), 32 * (w - 1) + bitLen)
    {
      var k := 32 * (w - 1);
      ValSplit(s, w - 1);
      ValBound(s[w - 1..]);
      LowSplit(Val(s), k, bitLen);
      ValExtend(p, w - 1);
      ValWhole(p);
      LowWordLow(s[w - 1..], bitLen);
    }

    // The low bits of a number are those of its lowest word.
    lemma LowWordLow(s: seq<Word>, k: nat)
      requires s != [] && k < 32
      ensures Low(Val(s), k) == Low(s[0], k)
    {
      hide Low, Shr, Pow2, Val, Shl;
      OneWord(s[0]);
      assert s[..1] == [s[0]];
      ValSplit(s, 1);
      LowLow(Val(s), k, 32 - k);
    }

    lemma OneWord(w: Word)
      ensures Val([w]) == w
    {
      ValSnoc([], w);
      assert [] + [w] == [w];
    }

    lemma {:induction false} LowLow(x: nat, j: nat, k: nat)
      ensures Low(Low(x, j + k), j) == Low(x, j)
    {
      if j > 0 {
        var h := Low(x / 2, j - 1 + k);
        var y := 2 * h + x % 2;
        LowLow(x / 2, j - 1, k);
        assert Low(x, j + k) == y;
        assert y / 2 == h && y % 2 == x % 2;
      }
    }

    // The operations of the block before the final sum, from the k-th on. Without parameters from
    // the caller the block calculates them, and stops the reduction if that fails. It calculates
    // them once more in any case, and that code nobody looks at. Then comes the product.
    ghost predicate HighCourse(k: nat, given: bool, after: nat, ret: nat) {
      if !given && reply(k) != PKE_SUCCESS then after == k + 1 && ret == reply(k)
      else
        var product := if given then k + 1 else k + 2;
        after == product + 1 && ret == reply(product)
    }

    // And with the sum: it is executed if the product succeeded, and its code is the result.
    ghost predicate Course(k: nat, given: bool, after: nat, ret: nat) {
      var product := if given then k + 1 else k + 2;
      if !given && reply(k) != PKE_SUCCESS then after == k + 1 && ret == reply(k)
      else if reply(product) != PKE_SUCCESS then after == product + 1 && ret == reply(product)
      else after == product + 2 && ret == reply(product + 1)
    }

    lemma CourseEnds(k: nat, given: bool, mid: nat, code: nat)
      requires HighCourse(k, given, mid, code) && code != PKE_SUCCESS
      ensures Course(k, given, mid, code)
    {
    }

    lemma CourseGoesOn(k: nat, given: bool, mid: nat, code: nat)
      requires HighCourse(k, given, mid, code) && code == PKE_SUCCESS
      ensures Course(k, given, mid + 1, reply(mid))
    {
    }

    // So the reduction succeeds exactly if none of the codes it looks at is an error.
    lemma SucceedsIff(k: nat, given: bool, after: nat, ret: nat)
      requires Course(k, given, after, ret)
      ensures var product := if given then k + 1 else k + 2;
        ret == PKE_SUCCESS <==>
          (given || reply(k) == PKE_SUCCESS) && reply(product) == PKE_SUCCESS && reply(product + 1) == PKE_SUCCESS
    {
    }

    // c = a mod b. The caller gives the Montgomery parameters of b, or neither of them.
    method Mod(a: array<Word>, aWordLen: nat, b: array<Word>, bH: array?<Word>, bN1: array?<Word>,
               bWordLen: nat, c: array<Word>) returns (ret: nat)
      requires Valid() && 0 < bWordLen <= MAX_WORDS && bWordLen <= b.Length && b[bWordLen - 1] != 0
      requires aWordLen <= a.Length && aWordLen <= 2 * bWordLen && bWordLen <= c.Length
      requires (bH == null) == (bN1 == null)
      requires bH != null ==> bWordLen <= bH.Length && bH !in MicrocodeSlots()
      requires bN1 != null ==> 1 <= bN1.Length && bN1 !in MicrocodeSlots()
      requires c != a && c != b && {a, b, c} !! MicrocodeSlots() + {a1, b1}
      modifies `inRange, `executed, a0, a1, a3, b0, b1, b3, b4, c
      ensures c[bWordLen..] == old(c[bWordLen..])
      ensures old(Val(a[..aWordLen])) <= old(Val(b[..bWordLen])) ==> ret == PKE_SUCCESS && executed == old(executed)
      ensures old(Val(a[..aWordLen])) > old(Val(b[..bWordLen])) ==> Course(old(executed), bH != null, executed, ret)
      ensures ret == PKE_SUCCESS ==>
        ModResult(Val(c[..bWordLen]), old(Val(a[..aWordLen])), old(Val(b[..bWordLen])), bWordLen)
      ensures InBlockRange(old(Val(a[..aWordLen])), old(Val(b[..bWordLen]))) ==> inRange == old(inRange)
    {
      hide Val, ModResult, InBlockRange, Rem, Low, BitLen;
      var w := bWordLen;
      ghost var s, t := a[..aWordLen], b[..w];
      ValBound(s);
      ValTopWord(t);
      assert a[0..0 + aWordLen] == s && b[0..0 + w] == t;
      var cmp := BigIntegerCompare(a, 0, aWordLen, b, 0, w);
      if cmp < 0 {
        SmallerIsItself(Val(s), Val(t), w);
        CopySmaller(a, aWordLen, t, w, c);
        ret := PKE_SUCCESS;
      } else if cmp == 0 {
        EqualIsZero(Val(t), w);
        ZeroWords(c, 0, w);
        ValZeros(c[..w]);
        ret := PKE_SUCCESS;
      } else {
        LongerOperand(s, t);
        ret := ModLarger(a, aWordLen, b, bH, bN1, w, c);
      }
    }

    // c = a, for an a below b.
    method CopySmaller(a: array<Word>, aWordLen: nat, ghost t: seq<Word>, w: nat, c: array<Word>)
      requires aWordLen <= a.Length && |t| == w <= c.Length && c != a && Val(a[..aWordLen]) < Val(t)
      modifies c
      ensures c[w..] == old(c[w..])
      ensures Val(c[..w]) == Val(old(a[..aWordLen]))
    {
      ghost var s := a[..aWordLen];
      assert a[0..0 + aWordLen] == s;
      var n := ValidWordsGet(a, 0, aWordLen);
      ShorterOperand(s, n, t);
      assert a[0..0 + n] == s[..n];
      CopyExtended(a, 0, c, n, w);
    }

    // The rest of the same function: a is larger than b. A return code other than PKE_SUCCESS
    // comes from the block; the one of the second parameter calculation is dropped.
    method ModLarger(a: array<Word>, aWordLen: nat, b: array<Word>, bH: array?<Word>, bN1: array?<Word>,
                     w: nat, c: array<Word>) returns (ret: nat)
      requires Valid() && 0 < w <= MAX_WORDS && w <= b.Length && b[w - 1] != 0
      requires w <= aWordLen <= a.Length && aWordLen <= 2 * w && w <= c.Length
      requires (bH == null) == (bN1 == null)
      requires bH != null ==> w <= bH.Length && bH !in MicrocodeSlots()
      requires bN1 != null ==> 1 <= bN1.Length && bN1 !in MicrocodeSlots()
      requires c != a && c != b && {a, b, c} !! MicrocodeSlots() + {a1, b1}
      requires Val(a[..aWordLen]) > Val(b[..w])
      modifies `inRange, `executed, a0, a1, a3, b0, b1, b3, b4, c
      ensures c[w..] == old(c[w..])
      ensures Course(old(executed), bH != null, executed, ret)
      ensures ret == PKE_SUCCESS ==>
        ModResult(Val(c[..w]), old(Val(a[..aWordLen])), old(Val(b[..w])), w)
      ensures InBlockRange(old(Val(a[..aWordLen])), old(Val(b[..w]))) ==> inRange == old(inRange)
    {
      hide Val, BitLen, Pow2, ModResult, HighScaled, InBlockRange, HighCourse, Course, Reduced, Low;
      ghost var t, k := b[..w], executed;
      assert b[0..0 + w] == t;
      var bits := ValidBitsGet(b, 0, w);
      BitLengthValue(t, bits);
      var bitLen := bits % 32;
      BitsOfModulus(bits, w);
      ValTopWord(t);
      BitLenBounds(Val(t));

      ghost var av := Val(a[..aWordLen]);
      ret := HighPart(a, aWordLen, b, bH, bN1, w, bitLen, c);
      ghost var mid, code := executed, ret;
      if ret != PKE_SUCCESS {
        CourseEnds(k, bH != null, mid, code);
        return;
      }
      assert b[..w] == t;
      var low := ReduceLow(a, aWordLen, b, w, bitLen, c);
      assert b[..w] == t;
      ret := AddLow(av, bitLen, b, low, w, c);
      CourseGoesOn(k, bH != null, mid, code);
    }

    // The first half of the computation: B1 = the high part of a, times 2^B, modulo b.
    method HighPart(a: array<Word>, aWordLen: nat, b: array<Word>, bH: array?<Word>, bN1: array?<Word>,
                    w: nat, bitLen: nat, c: array<Word>) returns (ret: nat)
      requires Valid() && 0 < w <= MAX_WORDS && w <= b.Length && b[w - 1] != 0
      requires w <= aWordLen <= a.Length && aWordLen <= 2 * w && w <= c.Length
      requires (bH == null) == (bN1 == null)
      requires bH != null ==> w <= bH.Length && bH !in MicrocodeSlots()
      requires bN1 != null ==> 1 <= bN1.Length && bN1 !in MicrocodeSlots()
      requires c != a && c != b && {a, b, c} !! MicrocodeSlots() + {a1, b1}
      requires Val(b[..w]) > 0 && bitLen < 32 && BitLen(Val(b[..w])) == ModulusBits(w, bitLen)
      modifies `inRange, `executed, a0, a1, a3, b0, b1, b3, b4, c
      ensures c[w..] == old(c[w..])
      ensures HighCourse(old(executed), bH != null, executed, ret)
      ensures ret == PKE_SUCCESS && Val(old(b[..w])) % 2 == 1 ==>
        HighScaled(Val(b1[..w]), Val(old(a[..aWordLen])), Val(old(b[..w])), w)
      ensures InBlockRange(Val(old(a[..aWordLen])), Val(old(b[..w]))) ==> inRange == old(inRange)
    {
      hide Val, BitLen, Pow2, HighScaled, HighReduced, InBlockRange;
      ghost var t, av := b[..w], Val(a[..aWordLen]);
      BitLenBounds(Val(t));
      ReduceHigh(a, aWordLen, b, w, bitLen, c);
      ret := LoadMontgomery(b, bH, bN1, w);
      if ret != PKE_SUCCESS {
        return;
      }
      assert b[..w] == t;
      LoadPowerOfTwo(b, w, bitLen);
      var _ := CalcPreMont(b, w);
      assert b[..w] == t;
      ret := ScaleHigh(av, bitLen, b, w, c);
    }

    method LoadMontgomery(b: array<Word>, bH: array?<Word>, bN1: array?<Word>, w: nat) returns (ret: nat)
      requires Valid() && 0 < w <= MAX_WORDS && w <= b.Length && b !in MicrocodeSlots()
      requires (bH == null) == (bN1 == null)
      requires bH != null ==> w <= bH.Length && bH !in MicrocodeSlots()
      requires bN1 != null ==> 1 <= bN1.Length && bN1 !in MicrocodeSlots()
      modifies `executed, a3, b3, b4
      ensures bH == null ==> ret == reply(old(executed)) && executed == old(executed) + 1
      ensures bH != null ==> ret == PKE_SUCCESS && executed == old(executed)
      ensures bH != null ==> a3[..w] == old(bH[..w]) && b4[0] == old(bN1[0])
    {
      ret := PKE_SUCCESS;
      if bH == null && bN1 == null {
        ret := CalcPreMont(b, w);
      } else {
        LoadPreCalcMont(bH, bN1, w);
      }
    }

    // B1 = the high part times 2^B, modulo b.
    method ScaleHigh(ghost av: int, ghost bitLen: nat, b: array<Word>, w: nat, c: array<Word>) returns (ret: nat)
      requires Valid() && 0 < w <= MAX_WORDS && w <= b.Length && w <= c.Length
      requires {b, c} !! MicrocodeSlots() + {a1, b1}
      requires av >= 0 && Val(b[..w]) > 0 && BitLen(Val(b[..w])) == ModulusBits(w, bitLen)
      requires HighReduced(Val(c[..w]), av, Val(b[..w]), w, bitLen)
      requires Val(b1[..w]) == Pow2(BitLen(Val(b[..w]))) - Val(b[..w])
      modifies `inRange, `executed, a0, b0, b3, b1
      ensures ret == reply(old(executed)) && executed == old(executed) + 1
      ensures ret == PKE_SUCCESS && Val(b[..w]) % 2 == 1 ==> HighScaled(Val(b1[..w]), av, Val(b[..w]), w)
      ensures InBlockRange(av, Val(b[..w])) ==> inRange == old(inRange)
    {
      ghost var bv, hr := Val(b[..w]), Val(c[..w]);
      HighInRange(av, bv, w, bitLen, hr);
      ghost var x, y := b1[..w], c[..w];
      ret := ModMul(b, b1, c, b1, w);
      if ret == PKE_SUCCESS && bv % 2 == 1 {
        HighIsScaled(x, y, av, bv, w, bitLen);
      }
    }

    // c = the low part plus B1, modulo b.
    method AddLow(ghost av: int, ghost bitLen: nat, b: array<Word>, low: array<Word>, w: nat, c: array<Word>)
      returns (ret: nat)
      requires Valid() && 0 < w <= MAX_WORDS && w <= b.Length && w <= c.Length && w <= low.Length
      requires {b, c, low} !! MicrocodeSlots() + {a1, b1} && c != b
      requires av > Val(b[..w]) > 0 && BitLen(Val(b[..w])) == ModulusBits(w, bitLen)
      requires Val(low[..w]) == Reduced(Low(av, BitLen(Val(b[..w]))), Val(b[..w]))
      requires Val(b[..w]) % 2 == 1 ==> HighScaled(Val(b1[..w]), av, Val(b[..w]), w)
      modifies `inRange, `executed, a0, b0, b3, c
      ensures ret == reply(old(executed)) && executed == old(executed) + 1
      ensures c[w..] == old(c[w..])
      ensures ret == PKE_SUCCESS ==> ModResult(Val(c[..w]), av, Val(b[..w]), w)
      ensures InBlockRange(av, Val(b[..w])) ==> inRange == old(inRange)
    {
      ghost var bv := Val(b[..w]);
      ghost var x, y := low[..w], b1[..w];
      LowInRange(av, bv, Val(x));
      ret := ModAdd(b, low, b1, c, w);
      if ret == PKE_SUCCESS && bv % 2 == 1 {
        SumIsResult(x, y, av, bv, w);
      }
    }
  }

  // The bit length of a w-word modulus whose top word has bitLen bits in use, 0 for all 32.
  function ModulusBits(w: nat, bitLen: nat): (r: int)
    requires w > 0
    ensures bitLen > 0 ==> r > 0
    ensures r >= 0
  {
    if bitLen == 0 then 32 * w else 32 * (w - 1) + bitLen
  }

  // a has at most twice as many bits as b: the operands the reduction is made for.
  ghost predicate InDoubleLength(a: int, b: int) {
    a >= 0 && b >= 0 && a < Pow2(2 * BitLen(b))
  }

  // With these the block only ever sees operands it is specified for.
  ghost predicate InBlockRange(a: int, b: int) {
    InDoubleLength(a, b) && b % 2 == 1
  }

  // What the reduction leaves in w words. Above b the block multiplies, so the modulus must be
  // odd; and of the part above the modulus length only w words enter the product.
  ghost predicate ModResult(c: int, a: int, b: int, w: nat) {
    a >= 0 && b > 0 && ((a <= b || b % 2 == 1) ==> c == Rem(Low(a, BitLen(b) + 32 * w), b))
  }

  lemma SmallerIsItself(a: int, b: int, w: nat)
    requires 0 <= a < b
    ensures ModResult(a, a, b, w)
  {
    BitLenBounds(b);
    Pow2Monotone(BitLen(b), BitLen(b) + 32 * w);
    LowSmall(a, BitLen(b) + 32 * w);
  }

  lemma EqualIsZero(b: int, w: nat)
    requires 0 < b
    ensures ModResult(0, b, b, w)
  {
    BitLenBounds(b);
    Pow2Monotone(BitLen(b), BitLen(b) + 32 * w);
    LowSmall(b, BitLen(b) + 32 * w);
  }

  lemma ShorterOperand(s: seq<Word>, n: nat, t: seq<Word>)
    requires WordsInUse(s, n) && Val(s) < Val(t)
    ensures n <= |t| && Val(s) == Val(s[..n])
  {
    WordsInUseValue(s, n);
    ValBound(t);
    if n > |t| { Pow2Monotone(32 * |t|, 32 * (n - 1)); }
  }

  lemma LongerOperand(s: seq<Word>, t: seq<Word>)
    requires t != [] && t[|t| - 1] != 0 && Val(s) > Val(t)
    ensures |s| >= |t|
  {
    ValBound(s);
    ValTopWord(t);
    if |s| < |t| { Pow2Monotone(32 * |s|, 32 * (|t| - 1)); }
  }

  lemma BitsOfModulus(bits: nat, w: nat)
    requires w > 0 && 32 * (w - 1) < bits <= 32 * w
    ensures ModulusBits(w, bits % 32) == bits
  {
  }

  // The high part as ReduceHigh leaves it.
  ghost predicate HighReduced(hr: int, a: nat, b: int, w: nat, bitLen: nat)
    requires w > 0
  {
    var high := Low(Shr(a, ModulusBits(w, bitLen)), 32 * w);
    hr == if bitLen == 0 then ReducedAbove(high, b) else Reduced(high, b)
  }

  lemma HighInRange(a: nat, b: nat, w: nat, bitLen: nat, hr: int)
    requires w > 0 && b > 0 && BitLen(b) == ModulusBits(w, bitLen) && HighReduced(hr, a, b, w, bitLen)
    ensures 0 <= Pow2(BitLen(b)) - b <= b
    ensures InDoubleLength(a, b) ==> hr <= b
  {
    BitLenBounds(b);
    if InDoubleLength(a, b) {
      HighAtMost(a, BitLen(b), w);
    }
  }

  lemma HighAtMost(a: nat, bits: nat, w: nat)
    requires a < Pow2(2 * bits)
    ensures Low(Shr(a, bits), 32 * w) < Pow2(bits)
  {
    ShrBound(a, bits, bits);
    LowAtMost(Shr(a, bits), 32 * w);
  }

  lemma LowAtMost(x: nat, k: nat)
    ensures Low(x, k) <= x
  {
    HighLow(x, k);
    ShlZero(k);
    ShlMonotone(0, Shr(x, k), k);
  }

  lemma LowInRange(a: int, b: int, lr: int)
    requires a >= 0 && b > 0 && lr == Reduced(Low(a, BitLen(b)), b)
    ensures 0 <= lr < b
  {
    BitLenBounds(b);
    HighLow(a, BitLen(b));
  }

  // The part of a that enters the product, times 2^B, modulo b.
  ghost predicate HighScaled(x: int, a: nat, b: nat, w: nat)
    requires b > 0
  {
    0 <= x < b && x == (Pow2(BitLen(b)) * Low(Shr(a, BitLen(b)), 32 * w)) % b
  }

  lemma HighIsScaled(s: seq<Word>, t: seq<Word>, a: nat, b: nat, w: nat, bitLen: nat)
    requires w > 0 && b > 0 && BitLen(b) == ModulusBits(w, bitLen)
    requires HighReduced(Val(t), a, b, w, bitLen) && Val(s) == Pow2(BitLen(b)) - b
    ensures HighScaled(ProductRem(s, t, b), a, b, w)
  {
    MulNonNegative(Val(s), Val(t));
    RemIsMod(Val(s) * Val(t), b);
    ProductMod(Pow2(BitLen(b)), Low(Shr(a, BitLen(b)), 32 * w), Val(t), b);
  }

  lemma SumIsResult(s: seq<Word>, t: seq<Word>, a: nat, b: nat, w: nat)
    requires b > 0 && Val(s) == Reduced(Low(a, BitLen(b)), b) && HighScaled(Val(t), a, b, w)
    ensures SumRem(s, t, b) == Rem(Low(a, BitLen(b) + 32 * w), b)
  {
    hide Rem, Low, Shr, Pow2, Val, BitLen;
    var bits := BitLen(b);
    var p, h, l := Pow2(bits), Low(Shr(a, bits), 32 * w), Low(a, bits);
    RemIsMod(Val(s) + Val(t), b);
    RemIsMod(Low(a, bits + 32 * w), b);
    SplitAt(a, bits, 32 * w);
    Recombine(h, l, p, b, Val(s), Val(t));
  }

  lemma Recombine(h: int, l: int, p: int, b: int, lr: int, x: int)
    requires b > 0 && (lr == l || lr == l - b) && x == (p * h) % b
    ensures (lr + x) % b == (h * p + l) % b
  {
    SumMod(lr, p * h, b);
    if lr == l - b { ModShift(l + p * h, -1, b); }
  }

  // Hence c = a mod b exactly when b divides the bits that are left out. They are zero for every
  // double-length operand.
  lemma ModResultIsModIff(c: int, a: int, b: int, w: nat)
    requires ModResult(c, a, b, w) && b % 2 == 1
    ensures c == a % b <==> Shr(a, BitLen(b) + 32 * w) % b == 0
    ensures InDoubleLength(a, b) && b < Weight(w) ==> c == a % b
  {
    var k := BitLen(b) + 32 * w;
    var high, low := Shr(a, k), Low(a, k);
    RemIsMod(low, b);
    HighLow(a, k);
    ShlIsMul(high, k);
    SameRemainderIff(high * Pow2(k), low, b);
    CancelPower(high, b, k);
    if InDoubleLength(a, b) && b < Weight(w) {
      BitLenBounds(b);
      BitLenAtMost(b, 32 * w);
      Pow2Monotone(2 * BitLen(b), k);
      LowSmall(a, k);
    }
  }

  // For one word that bound is needed: 2^34 reduced by 3 is left as 0, and should be 1.
  lemma TooLongOperand()
    ensures ModResult(0, Pow2(34), 3, 1) && Pow2(34) % 3 == 1
  {
    var a := Pow2(34);
    BitLenUnique(3, 2);
    ShlIsMul(1, 34);
    HighLowUnique(a, 34, 1, 0);
    Pow2Facts();
    Pow2Add(32, 2);
    assert a == 0x4_0000_0000;
  }

  lemma BitLenAtMost(x: nat, n: nat)
    requires x < Pow2(n)
    ensures BitLen(x) <= n
  {
    BitLenBounds(x);
    var m := BitLen(x) - 1;
    if m >= n { Pow2Monotone(n, m); }
  }

  lemma SameRemainderIff(x: int, l: int, b: int)
    requires b > 0
    ensures (x + l) % b == l % b <==> x % b == 0
  {
    if x % b == 0 {
      assert x + l == l + (x / b) * b;
      ModShift(l, x / b, b);
    }
    if (x + l) % b == l % b {
      var k := (x + l) / b - l / b;
      assert x == 0 + k * b;
      ModShift(0, k, b);
    }
  }

  // An odd modulus has no factor in common with a power of two.
  lemma {:induction false} CancelPower(h: int, b: int, k: nat)
    requires b > 0 && b % 2 == 1
    ensures (h * Pow2(k)) % b == 0 <==> h % b == 0
  {
    if k > 0 {
      CancelPower(h, b, k - 1);
      var x := h * Pow2(k - 1);
      assert h * Pow2(k) == 2 * x;
      HalveMultiple(x, b);
    }
  }

  lemma HalveMultiple(x: int, b: int)
    requires b > 0 && b % 2 == 1
    ensures (2 * x) % b == 0 <==> x % b == 0
  {
    if x % b == 0 {
      assert 2 * x == 0 + (2 * (x / b)) * b;
      ModShift(0, 2 * (x / b), b);
    }
    if (2 * x) % b == 0 {
      var q, c := (2 * x) / b, b / 2;
      assert 2 * x == q * b && b == 2 * c + 1;
      EvenQuotient(x, q, c);
      ModShift(0, x - q * c, b);
    }
  }

  lemma EvenQuotient(x: int, q: int, c: int)
    requires 2 * x == q * (2 * c + 1)
    ensures x == 0 + (x - q * c) * (2 * c + 1)
  {
    var h := x - q * c;
    assert q * (2 * c + 1) == 2 * (q * c) + q;
    assert q == 2 * h;
    assert q * (2 * c + 1) == 2 * (h * (2 * c + 1));
  }
}
