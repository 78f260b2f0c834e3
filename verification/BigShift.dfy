/** The in-place division of a big integer by a power of two in drivers/B91/pke.c. */
module BigShift {
  import opened Bits
  import opened Words
  import opened BigInteger

  // x >> m
  function ShiftDown(x: Word, m: nat): Word {
    ShrShrinks(x, m);
    Shr(x, m)
  }

  // y << (32 - m): the high bits of y drop out of the word
  function ShiftUp(y: Word, m: nat): Word
    requires 0 < m < 32
  {
    Shl(y, 32 - m) % BASE
  }

  // (x >> m) | (y << (32 - m))
  function ShiftPair(x: Word, y: Word, m: nat): Word
    requires 0 < m < 32
  {
    ShiftPairValue(x, y, m);
    BitOr(ShiftDown(x, m), ShiftUp(y, m))
  }

  lemma ShiftUpValue(y: Word, m: nat)
    requires 0 < m < 32
    ensures ShiftUp(y, m) == Shl(Low(y, m), 32 - m)
  {
    var h, r := Shr(y, m), Low(y, m);
    HighLow(y, m);
    ShlAdd(Shl(h, m), r, 32 - m);
    ShlShl(h, m, 32 - m);
    Shl32(h);
    Pow2Facts();
    ShlRange(r, m, 32 - m);
    DivModUnique(Shl(y, 32 - m), BASE, h, Shl(r, 32 - m));
  }

  lemma ShiftPairValue(x: Word, y: Word, m: nat)
    requires 0 < m < 32
    ensures BitOr(ShiftDown(x, m), ShiftUp(y, m)) < BASE
    ensures Shl(BitOr(ShiftDown(x, m), ShiftUp(y, m)), m) == x - Low(x, m) + Low(y, m) * BASE
  {
    hide BitOr, Shl, Shr, Low, Pow2, ShiftUp;
    var h, r := Shr(x, m), Low(y, m);
    Pow2Facts();
    ShrBound(x, 32 - m, m);
    ShiftUpValue(y, m);
    OrDisjoint(h, r, 32 - m);
    ShlAdd(h, Shl(r, 32 - m), m);
    ShlShl(r, 32 - m, m);
    Shl32(r);
    HighLow(x, m);
    HighLow(y, m);
    ShlRange(r, m, 32 - m);
  }

  // The word at i, where every number has zero words above its top.
  function At(s: seq<Word>, i: nat): Word {
    if i < |s| then s[i] else 0
  }

  // s shifted right by m bits.
  function ShrWords(s: seq<Word>, m: nat): (t: seq<Word>)
    requires 0 < m < 32
    ensures |t| == |s|
    ensures forall i :: 0 <= i < |s| ==> t[i] == ShiftPair(s[i], At(s, i + 1), m)
  {
    seq(|s|, i requires 0 <= i < |s| => ShiftPair(s[i], At(s, i + 1), m))
  }

  // The top word takes nothing from above.
  lemma LastPair(x: Word, m: nat)
    requires 0 < m < 32
    ensures ShiftPair(x, 0, m) == ShiftDown(x, m)
  {
    ShlZero(32 - m);
    OrZero(ShiftDown(x, m));
  }

  lemma {:induction false} LowZero(m: nat)
    ensures Low(0, m) == 0
  {
    if m > 0 { LowZero(m - 1); }
  }

  lemma {:induction false} ShrPrefix(s: seq<Word>, m: nat, n: nat)
    requires 0 < m < 32 && n <= |s|
    ensures Shl(Val(ShrWords(s, m)[..n]), m) + Low(At(s, 0), m)
         == Val(s[..n]) + Shl(Low(At(s, n), m), 32 * n)
  {
    if n == 0 {
      ShlZero(m);
    } else {
      var t, k := ShrWords(s, m), n - 1;
      var x, y, v := s[k], At(s, n), Val(t[..k]);
      ShrPrefix(s, m, k);
      ValExtend(s, k);
      ValExtend(t, k);
      ShrStep(v, x, y, m, k, n);
      assert Val(t[..n]) == v + Shl(ShiftPair(x, y, m), 32 * k);
      assert Val(s[..n]) == Val(s[..k]) + Shl(x, 32 * k);
    }
  }

  lemma ShrStep(v: int, x: Word, y: Word, m: nat, k: nat, n: nat)
    requires 0 < m < 32 && n == k + 1
    ensures Shl(v + Shl(ShiftPair(x, y, m), 32 * k), m)
         == Shl(v, m) + Shl(x, 32 * k) - Shl(Low(x, m), 32 * k) + Shl(Low(y, m), 32 * n)
  {
    var p := ShiftPair(x, y, m);
    ShlAdd(v, Shl(p, 32 * k), m);
    ShlShl(p, 32 * k, m);
    ShlShl(p, m, 32 * k);
    ShiftPairValue(x, y, m);
    ShlAdd(x - Low(x, m), Low(y, m) * BASE, 32 * k);
    ShlSub(x, Low(x, m), 32 * k);
    ShlWord(Low(y, m), k);
  }

  lemma ShrWordsValue(s: seq<Word>, m: nat)
    requires 0 < m < 32
    ensures Val(ShrWords(s, m)) == Shr(Val(s), m)
  {
    ShrPrefix(s, m, |s|);
    ValWhole(s);
    ValWhole(ShrWords(s, m));
    LowZero(m);
    ShlZero(32 * |s|);
    HighLow(At(s, 0), m);
    HighLowUnique(Val(s), m, Val(ShrWords(s, m)), Low(At(s, 0), m));
  }

  // What is left of s after a division by 2^(32 j + m): the low j words drop out at the bottom
  // and as many zero words come in at the top.
  function ShiftedWords(s: seq<Word>, j: nat, m: nat): (t: seq<Word>)
    requires 0 < m < 32 && j <= |s|
    ensures |t| == |s|
    ensures forall i :: 0 <= i < |s| - j ==> t[i] == ShiftPair(s[i + j], At(s, i + j + 1), m)
    ensures forall i :: |s| - j <= i < |s| ==> t[i] == 0
  {
    seq(|s|, i requires 0 <= i < |s| => ShiftedWord(s, j, m, i))
  }

  function ShiftedWord(s: seq<Word>, j: nat, m: nat, i: nat): Word
    requires 0 < m < 32 && j <= |s|
  {
    if i < |s| - j then ShiftPair(s[i + j], At(s, i + j + 1), m) else 0
  }

  lemma ShiftedWordsValue(s: seq<Word>, j: nat, m: nat)
    requires 0 < m < 32 && j <= |s|
    ensures Val(ShiftedWords(s, j, m)) == Val(s) / Pow2(32 * j + m)
  {
    var t := ShrWords(s[j..], m);
    assert ShiftedWords(s, j, m)[..|t|] == t;
    ValLeadingZeros(ShiftedWords(s, j, m), |t|);
    ShrWordsValue(s[j..], m);
    ValSplit(s, j);
    ShrShr(Val(s), 32 * j, m);
    ShrIsDiv(Val(s), 32 * j + m);
  }

  function Div2nWords(s: seq<Word>, n: nat): (t: seq<Word>)
    requires n % 32 != 0 && n / 32 <= |s|
    ensures |t| == |s|
  {
    ShiftedWords(s, n / 32, n % 32)
  }

  // The quotient, rounded down.
  lemma Div2nValue(s: seq<Word>, n: nat)
    requires n % 32 != 0 && n / 32 <= |s|
    ensures Val(Div2nWords(s, n)) == Val(s) / Pow2(n)
  {
    ShiftedWordsValue(s, n / 32, n % 32);
  }

  // The word count the code returns.
  function Div2nLength(s: seq<Word>, n: nat): nat
    requires n % 32 != 0 && n / 32 < |s|
  {
    var k := |s| - n / 32 - 1;
    if Div2nWords(s, n)[k] == 0 then k else k + 1
  }

  // In any case the words from there on are zero, and the count is that of the words left after the
  // shift, or one less if the highest of these became zero.
  lemma Div2nLengthEnough(s: seq<Word>, n: nat)
    requires n % 32 != 0 && n / 32 < |s|
    ensures var t, len, left := Div2nWords(s, n), Div2nLength(s, n), |s| - n / 32;
      && left - 1 <= len <= left && (len == left <==> t[left - 1] != 0)
      && forall i :: len <= i < |t| ==> t[i] == 0
  {
    hide ShiftPair;
  }

  // It is the true length of the quotient when the length given is the true one.
  lemma Div2nLengthTrue(s: seq<Word>, n: nat)
    requires n % 32 != 0 && n / 32 < |s| && s[|s| - 1] != 0
    ensures WordsInUse(Div2nWords(s, n), Div2nLength(s, n))
  {
    var j, m := n / 32, n % 32;
    var k := |s| - j - 1;
    var t := ShiftedWords(s, j, m);
    if t[k] == 0 && k > 0 {
      LastPair(s[k + j], m);
      assert t[k - 1] == ShiftPair(s[k + j - 1], s[k + j], m);
      BitsCarriedDown(s[k + j - 1], s[k + j], m);
    }
  }

  lemma BitsCarriedDown(x: Word, y: Word, m: nat)
    requires 0 < m < 32 && y != 0 && ShiftDown(y, m) == 0
    ensures ShiftPair(x, y, m) != 0
  {
    ShiftPairValue(x, y, m);
    HighLow(x, m);
    HighLow(y, m);
    ShlZero(m);
    ShlMonotone(0, Shr(x, m), m);
  }

  lemma PairBits(x: Word, y: Word, m: nat)
    requires 0 < m < 32
    ensures ShiftPair(x, y, m) as int == BitOr(ShiftDown(x, m), ShiftUp(y, m)) < BASE
  {
    ShiftPairValue(x, y, m);
  }

  lemma ZeroTop(c: seq<Word>, t: seq<Word>, n: nat)
    requires n <= |c| == |t| && c[..n] == t[..n]
    requires forall k :: n <= k < |c| ==> c[k] == t[k] == 0
    ensures c == t
  {
    assert c == c[..n] + c[n..] && t == t[..n] + t[n..];
  }

  // Both branches of the original write word i from words i + j and i + j + 1, j = 0 in the first.
  method ShiftWithinWords(a: array<Word>, aWordLen: nat, n: nat) returns (len: nat)
    requires 0 < aWordLen <= a.Length && 0 < n < 32
    modifies a
    ensures a[aWordLen..] == old(a[aWordLen..])
    ensures a[..aWordLen] == ShiftedWords(old(a[..aWordLen]), 0, n)
    ensures len == if a[aWordLen - 1] == 0 then aWordLen - 1 else aWordLen
  {
    hide ShiftPair, ShiftUp, ShiftDown, BitOr, ShiftedWords;
    ghost var s := a[..aWordLen];
    ghost var t := ShiftedWords(s, 0, n);
    var i := 0;
    while i < aWordLen - 1
      invariant 0 <= i < aWordLen
      invariant forall k :: i <= k < a.Length ==> a[k] == old(a[k])
      invariant a[..i] == t[..i]
    {
      assert t[i] == ShiftPair(s[i], s[i + 1], n);
      PairBits(s[i], s[i + 1], n);
      a[i] := ShiftDown(a[i], n);
      a[i] := BitOr(a[i], ShiftUp(a[i + 1], n));
      i := i + 1;
    }
    LastPair(s[i], n);
    a[i] := ShiftDown(a[i], n);
    return if a[i] == 0 then i else aWordLen;
  }

  method ShiftAcrossWords(a: array<Word>, aWordLen: nat, n: nat) returns (len: nat)
    requires aWordLen <= a.Length && n % 32 != 0 && n / 32 < aWordLen
    modifies a
    ensures a[aWordLen..] == old(a[aWordLen..])
    ensures a[..aWordLen] == ShiftedWords(old(a[..aWordLen]), n / 32, n % 32)
    ensures len == if a[aWordLen - n / 32 - 1] == 0 then aWordLen - n / 32 - 1 else aWordLen - n / 32
  {
    hide ShiftPair, ShiftUp, ShiftDown, BitOr, ShiftedWords;
    ghost var s := a[..aWordLen];
    var j, m := n / 32, n % 32;
    ghost var t := ShiftedWords(s, j, m);
    var i := 0;
    while i < aWordLen - j - 1
      invariant 0 <= i < aWordLen - j
      invariant forall k :: i <= k < a.Length ==> a[k] == old(a[k])
      invariant a[..i] == t[..i]
    {
      assert t[i] == ShiftPair(s[i + j], s[i + j + 1], m);
      PairBits(s[i + j], s[i + j + 1], m);
      a[i] := ShiftDown(a[i + j], m);
      a[i] := BitOr(a[i], ShiftUp(a[i + j + 1], m));
      i := i + 1;
    }
    LastPair(s[i + j], m);
    a[i] := ShiftDown(a[i + j], m);
    ghost var done, behind := a[..i + 1], a[aWordLen..];
    assert done == t[..i + 1];
    forall k | aWordLen - j <= k < aWordLen {
      a[k] := 0;
    }
    ghost var c := a[..aWordLen];
    assert a[..i + 1] == c[..i + 1] == done && a[aWordLen..] == behind;
    ZeroTop(c, t, i + 1);
    return if a[i] == 0 then i else aWordLen - j;
  }

  // a = a / 2^n in place. Shifts by a multiple of 32 are undefined in the original, which would
  // shift a word by its whole width.
  method Div2nU32(a: array<Word>, aWordLen: nat, n: nat) returns (len: nat)
    requires aWordLen <= a.Length
    requires aWordLen > 0 ==> n % 32 != 0 && n / 32 < aWordLen
    modifies a
    ensures a[aWordLen..] == old(a[aWordLen..])
    ensures aWordLen == 0 ==> len == 0
    ensures aWordLen > 0 ==> a[..aWordLen] == Div2nWords(old(a[..aWordLen]), n)
    ensures aWordLen > 0 ==> len == Div2nLength(old(a[..aWordLen]), n)
  {
    if aWordLen == 0 {
      return 0;
    }
    ghost var k := aWordLen - n / 32 - 1;
    if n <= 32 {
      assert n / 32 == 0 && n % 32 == n;
      len := ShiftWithinWords(a, aWordLen, n);
    } else {
      len := ShiftAcrossWords(a, aWordLen, n);
    }
    assert a[k] == a[..aWordLen][k];
  }
}
