/** The multi-word arithmetic of drivers/B91/pke.c. A C pointer with a length is an array, the
    offset the pointer stands at, and the number of words. */
module BigInteger {
  import opened Bits
  import opened Words

  // ---------------------------------------------------------------- lengths

  // n is the number of words s uses.
  ghost predicate WordsInUse(s: seq<Word>, n: nat) {
    && n <= |s|
    && (n > 0 ==> s[n - 1] != 0)
    && forall i :: n <= i < |s| ==> s[i] == 0
  }

  lemma WordsInUseValue(s: seq<Word>, n: nat)
    requires WordsInUse(s, n)
    ensures Val(s) == Val(s[..n]) < Weight(n)
    ensures n > 0 ==> Weight(n - 1) <= Val(s)
  {
    ValLeadingZeros(s, n);
    ValBound(s[..n]);
    if n > 0 { ValTopWord(s[..n]); }
  }

  method ValidWordsGet(a: array<Word>, o: nat, maxWords: nat) returns (n: nat)
    requires o + maxWords <= a.Length
    ensures WordsInUse(a[o..o + maxWords], n)
  {
    n := maxWords;
    while n > 0
      invariant n <= maxWords
      invariant forall i :: o + n <= i < o + maxWords ==> a[i] == 0
    {
      if a[o + n - 1] != 0 {
        break;
      }
      n := n - 1;
    }
  }

  lemma SingleBitTest(w: nat, k: nat)
    requires w < Pow2(k + 1)
    ensures BitAnd(w, Pow2(k)) != 0 <==> Pow2(k) <= w
  {
    ShlPow2(0, k);
    AndHigh(w, 1, k);
    ShrBound(w, 1, k);
    HighLow(w, k);
    var h := Shr(w, k);
    AndOne(h);
    if h == 0 { ShlZero(k); }
  }

  lemma AndOne(h: nat)
    requires h < Pow2(1)
    ensures h == 0 || h == 1
    ensures BitAnd(h, 1) == h
  {
    assert Pow2(1) == 2;
    assert BitAnd(0, 0) == 0;
  }

  // s uses its lowest i words and j bits of the next one.
  ghost predicate BitsInUse(s: seq<Word>, i: nat, j: nat) {
    WordsInUse(s, i + 1) && 0 < j <= 32 && Pow2(j - 1) <= s[i] < Pow2(j)
  }

  ghost predicate BitLength(s: seq<Word>, bits: nat) {
    || (bits == 0 && WordsInUse(s, 0))
    || exists i: nat, j: nat :: BitsInUse(s, i, j) && bits == 32 * i + j
  }

  // The scan finds the bit length of the number, and a non-zero top word places it.
  lemma BitLengthValue(s: seq<Word>, bits: nat)
    requires BitLength(s, bits)
    ensures bits == BitLen(Val(s))
    ensures s != [] && s[|s| - 1] != 0 ==> 32 * (|s| - 1) < bits <= 32 * |s|
  {
    if bits == 0 && WordsInUse(s, 0) {
      ValZeros(s);
    } else {
      var i: nat, j: nat :| BitsInUse(s, i, j) && bits == 32 * i + j;
      BitsInUseValue(s, i, j);
      BitLenUnique(Val(s), bits);
      assert s[|s| - 1] != 0 ==> i + 1 == |s|;
    }
  }

  lemma BitsInUseValue(s: seq<Word>, i: nat, j: nat)
    requires BitsInUse(s, i, j)
    ensures Pow2(32 * i + (j - 1)) <= Val(s) < Pow2(32 * i + j)
  {
    hide Val, Shl, Pow2;
    var k := 32 * i;
    ValLeadingZeros(s, i + 1);
    ValExtend(s, i);
    ValBound(s[..i]);
    TopWordRange(s[i], j, k);
  }

  lemma TopWordRange(top: nat, j: nat, k: nat)
    requires 0 < j && Pow2(j - 1) <= top < Pow2(j)
    ensures Pow2(k + (j - 1)) <= Shl(top, k) <= Pow2(k + j) - Pow2(k)
  {
    ShlMonotone(Pow2(j - 1), top, k);
    ShlPow2(j - 1, k);
    ShlRange(top, j, k);
  }

  method ValidBitsGet(a: array<Word>, o: nat, wordLen: nat) returns (bits: nat)
    requires o + wordLen <= a.Length
    ensures BitLength(a[o..o + wordLen], bits)
  {
    if wordLen == 0 {
      return 0;
    }
    ghost var s := a[o..o + wordLen];
    var i: nat := wordLen;
    while i > 0
      invariant i <= wordLen
      invariant forall k :: i <= k < wordLen ==> s[k] == 0
    {
      if a[o + i - 1] != 0 {
        break;
      }
      i := i - 1;
    }
    if i == 0 {
      return 0;
    }
    assert WordsInUse(s, i);
    var j := 32;
    Pow2Facts();
    while j > 0
      invariant 0 <= j <= 32
      invariant s[i - 1] < Pow2(j)
    {
      SingleBitTest(s[i - 1], j - 1);
      if BitAnd(a[o + i - 1], Pow2(j - 1)) != 0 {
        break;
      }
      j := j - 1;
    }
    assert BitsInUse(s, i - 1, j);
    bits := 32 * (i - 1) + j;
  }

  // ---------------------------------------------------------------- comparison

  function Sign(x: int): int {
    if x > 0 then 1 else if x < 0 then -1 else 0
  }

  lemma LargerTopWord(s: seq<Word>, t: seq<Word>)
    requires |s| == |t| > 0 && s[|s| - 1] > t[|s| - 1]
    ensures Val(s) > Val(t)
  {
    var n := |s| - 1;
    var x: int := s[n];
    assert Val(s) == Val(s[..n]) + Shl(x, 32 * n) && Val(t) == Val(t[..n]) + Shl(t[n], 32 * n);
    hide Val, Shl, Pow2;
    ValBound(s[..n]);
    ValBound(t[..n]);
    ShlMonotone(t[n], x - 1, 32 * n);
    ShlSub(x, 1, 32 * n);
    ShlPow2(0, 32 * n);
  }

  // The highest differing word decides.
  lemma HighestDifferenceDecides(s: seq<Word>, t: seq<Word>, i: nat)
    requires i < |s| == |t| && s[i + 1..] == t[i + 1..] && s[i] > t[i]
    ensures Val(s) > Val(t)
  {
    var n := i + 1;
    assert s == s[..n] + s[n..] && t == t[..n] + t[n..];
    ValConcat(s[..n], s[n..]);
    ValConcat(t[..n], t[n..]);
    LargerTopWord(s[..n], t[..n]);
  }

  lemma LongerIsLarger(s: seq<Word>, n: nat, t: seq<Word>, m: nat)
    requires WordsInUse(s, n) && WordsInUse(t, m) && n > m
    ensures Val(s) > Val(t)
  {
    WordsInUseValue(s, n);
    WordsInUseValue(t, m);
    Pow2Monotone(32 * m, 32 * (n - 1));
  }

  // 1, 0 or -1 as a is larger than, equal to or smaller than b, whatever the lengths.
  method BigIntegerCompare(a: array<Word>, ao: nat, aWordLen: nat, b: array<Word>, bo: nat, bWordLen: nat)
    returns (r: int)
    requires ao + aWordLen <= a.Length && bo + bWordLen <= b.Length
    ensures r == Sign(Val(a[ao..ao + aWordLen]) - Val(b[bo..bo + bWordLen]))
    ensures r == 1 <==> Val(a[ao..ao + aWordLen]) > Val(b[bo..bo + bWordLen])
    ensures r == -1 <==> Val(a[ao..ao + aWordLen]) < Val(b[bo..bo + bWordLen])
    ensures r == 0 <==> Val(a[ao..ao + aWordLen]) == Val(b[bo..bo + bWordLen])
  {
    hide Val;
    ghost var s, t := a[ao..ao + aWordLen], b[bo..bo + bWordLen];
    var an := ValidWordsGet(a, ao, aWordLen);
    var bn := ValidWordsGet(b, bo, bWordLen);
    if an > bn {
      LongerIsLarger(s, an, t, bn);
      return 1;
    }
    if an < bn {
      LongerIsLarger(t, bn, s, an);
      return -1;
    }
    ValLeadingZeros(s, an);
    ValLeadingZeros(t, an);
    var i: int := an;
    i := i - 1;
    while i >= 0
      invariant -1 <= i < an
      invariant s[..an][i + 1..] == t[..an][i + 1..]
    {
      if a[ao + i] > b[bo + i] {
        HighestDifferenceDecides(s[..an], t[..an], i);
        return 1;
      }
      if a[ao + i] < b[bo + i] {
        HighestDifferenceDecides(t[..an], s[..an], i);
        return -1;
      }
      assert s[..an][i..] == [s[i]] + s[..an][i + 1..];
      assert t[..an][i..] == [t[i]] + t[..an][i + 1..];
      i := i - 1;
    }
    assert s[..an] == t[..an];
    return 0;
  }

  // ---------------------------------------------------------------- subtraction

  // The i lowest words of s are, as a number, below those of t.
  predicate Borrows(s: seq<Word>, t: seq<Word>, i: nat)
    requires |s| == |t| && i <= |s|
  {
    i > 0 && (s[i - 1] < t[i - 1] || (s[i - 1] == t[i - 1] && Borrows(s, t, i - 1)))
  }

  function BorrowInto(s: seq<Word>, t: seq<Word>, i: nat): int
    requires |s| == |t| && i <= |s|
  {
    if Borrows(s, t, i) then 1 else 0
  }

  // One word of a difference: x - y - carry, wrapped into 32 bits.
  function SubWord(x: Word, y: Word, carry: int): Word
    requires 0 <= carry <= 1
  {
    if x >= y + carry then x - y - carry else BASE + x - y - carry
  }

  // Subtraction with a borrow from word to word.
  function SubWords(s: seq<Word>, t: seq<Word>): (d: seq<Word>)
    requires |s| == |t|
    ensures |d| == |s| && forall i :: 0 <= i < |s| ==> d[i] == SubWord(s[i], t[i], BorrowInto(s, t, i))
  {
    seq(|s|, i requires 0 <= i < |s| => SubWord(s[i], t[i], BorrowInto(s, t, i)))
  }

  // Subtraction word by word, with no borrow.
  function SubWordwise(s: seq<Word>, t: seq<Word>): (d: seq<Word>)
    requires |s| == |t|
    ensures |d| == |s| && forall i :: 0 <= i < |s| ==> d[i] == SubWord(s[i], t[i], 0)
  {
    seq(|s|, i requires 0 <= i < |s| => SubWord(s[i], t[i], 0))
  }

  // c = a - b. Here c may be b. When c is a itself, the borrow test compares each new word with
  // what has just been stored in its place, and no borrow ever leaves a word.
  method SubU32(a: array<Word>, ao: nat, b: array<Word>, c: array<Word>, wordLen: nat)
    requires ao + wordLen <= a.Length && wordLen <= b.Length && wordLen <= c.Length
    requires c == a ==> ao == 0
    modifies c
    ensures c[wordLen..] == old(c[wordLen..])
    ensures c != a ==> c[..wordLen] == SubWords(old(a[ao..ao + wordLen]), old(b[..wordLen]))
    ensures c == a ==> c[..wordLen] == SubWordwise(old(a[..wordLen]), old(b[..wordLen]))
  {
    ghost var s, t := a[ao..ao + wordLen], b[..wordLen];
    ghost var d := if c != a then SubWords(s, t) else SubWordwise(s, t);
    var i, carry := 0, 0;
    assert BorrowInto(s, t, 0) == 0;
    hide SubWord, SubWords, SubWordwise, BorrowInto;
    while i < wordLen
      invariant i <= wordLen
      invariant carry == if c != a then BorrowInto(s, t, i) else 0
      invariant forall k :: i <= k < c.Length ==> c[k] == old(c[k])
      invariant forall k :: i <= k < wordLen ==> b[k] == t[k]
      invariant c[..i] == d[..i]
    {
      SubStep(s, t, i, carry, c == a);
      assert a[ao + i] == s[i];
      var temp := SubWord(a[ao + i], b[i], 0);
      c[i] := SubWord(temp, 0, carry);
      carry := if temp > a[ao + i] || c[i] > temp then 1 else 0;
      i := i + 1;
    }
  }

  // One round of the loop: the word stored is that of the difference, and the two tests tell the
  // borrow, unless the word they compare with is the one just stored.
  lemma SubStep(s: seq<Word>, t: seq<Word>, i: nat, carry: int, aliased: bool)
    requires |s| == |t| && i < |s| && carry == if aliased then 0 else BorrowInto(s, t, i)
    ensures 0 <= carry <= 1
    ensures var temp := SubWord(s[i], t[i], 0);
      var r := SubWord(temp, 0, carry);
      && r == (if aliased then SubWordwise(s, t) else SubWords(s, t))[i] && (aliased ==> r == temp)
      && (!aliased ==> BorrowInto(s, t, i + 1) == if temp > s[i] || r > temp then 1 else 0)
  {
    BorrowWord(s[i], t[i], carry);
  }

  lemma BorrowWord(x: Word, y: Word, carry: int)
    requires 0 <= carry <= 1
    ensures var temp := SubWord(x, y, 0);
      var r := SubWord(temp, 0, carry);
      && r == SubWord(x, y, carry) && (carry == 0 ==> r == temp)
      && ((temp > x || r > temp) <==> x < y + carry)
  {
  }

  lemma {:induction false} SubWordsPrefix(s: seq<Word>, t: seq<Word>, n: nat)
    requires |s| == |t| && n <= |s|
    ensures Val(SubWords(s, t)[..n]) == Val(s[..n]) - Val(t[..n]) + (if Borrows(s, t, n) then Weight(n) else 0)
  {
    if n > 0 {
      var d, m := SubWords(s, t), n - 1;
      SubWordsPrefix(s, t, m);
      ValExtend(s, m);
      ValExtend(t, m);
      ValExtend(d, m);
      SubWordValue(s[m], t[m], Borrows(s, t, m), m);
    }
  }

  lemma SubWordValue(x: Word, y: Word, borrow: bool, n: nat)
    ensures var k, carry := 32 * n, if borrow then 1 else 0;
      Shl(SubWord(x, y, carry), k) == Shl(x, k) - Shl(y, k) - (if borrow then Weight(n) else 0)
                                      + (if x < y + carry then Weight(n + 1) else 0)
  {
    var k, carry := 32 * n, if borrow then 1 else 0;
    var d: int := x;
    d := d - y;
    ShlSub(x, y, k);
    ShlSub(d, 1, k);
    ShlAdd(d - carry, BASE, k);
    ShlWord(1, n);
    ShlPow2(0, k);
    ShlPow2(0, 32 * (n + 1));
  }

  // A difference of two n-word numbers, wrapped into n words.
  function Wrapped(x: int, n: nat): int {
    if x < 0 then x + Weight(n) else x
  }

  // Subtraction modulo 2^(32 n).
  lemma SubWordsValue(s: seq<Word>, t: seq<Word>)
    requires |s| == |t|
    ensures Val(SubWords(s, t)) == Wrapped(Val(s) - Val(t), |s|)
  {
    var d := SubWords(s, t);
    SubWordsPrefix(s, t, |s|);
    ValWhole(s);
    ValWhole(t);
    ValWhole(d);
    ValBound(d);
  }

  lemma SubNoBorrow(s: seq<Word>, t: seq<Word>)
    requires |s| == |t| && Val(s) >= Val(t)
    ensures Val(SubWords(s, t)) == Val(s) - Val(t)
  {
    SubWordsValue(s, t);
  }

  // Aliasing c with a is harmless exactly when no word below the top one has to borrow.
  lemma SubInPlaceCorrectIff(s: seq<Word>, t: seq<Word>)
    requires |s| == |t|
    ensures Val(SubWordwise(s, t)) == Wrapped(Val(s) - Val(t), |s|)
       <==> forall i :: 0 <= i < |s| - 1 ==> s[i] >= t[i]
  {
    SubWordsValue(s, t);
    SameWordsIff(s, t);
    var p, q := SubWordwise(s, t), SubWords(s, t);
    if Val(p) == Val(q) {
      ValInjective(p, q);
    }
  }

  lemma SameWordsIff(s: seq<Word>, t: seq<Word>)
    requires |s| == |t|
    ensures SubWordwise(s, t) == SubWords(s, t) <==> forall i :: 0 <= i < |s| - 1 ==> s[i] >= t[i]
  {
    if forall i :: 0 <= i < |s| - 1 ==> s[i] >= t[i] {
      NoBorrow(s, t, |s| - 1);
    } else {
      var i := FirstBorrow(s, t, |s| - 1);
      NoBorrow(s, t, i);
      assert SubWordwise(s, t)[i + 1] != SubWords(s, t)[i + 1];
    }
  }

  lemma {:induction false} NoBorrow(s: seq<Word>, t: seq<Word>, n: int)
    requires |s| == |t| && n <= |s|
    requires forall i :: 0 <= i < n ==> s[i] >= t[i]
    ensures forall i :: 0 <= i <= n ==> !Borrows(s, t, i)
  {
    if n > 0 { NoBorrow(s, t, n - 1); }
  }

  lemma FirstBorrow(s: seq<Word>, t: seq<Word>, n: int) returns (i: nat)
    requires |s| == |t| && n <= |s|
    requires exists i :: 0 <= i < n && s[i] < t[i]
    ensures i < n && s[i] < t[i] && forall k :: 0 <= k < i ==> s[k] >= t[k]
  {
    i := 0;
    while s[i] >= t[i]
      invariant i < n
      decreases n - i
      invariant forall k :: 0 <= k < i ==> s[k] >= t[k]
    {
      i := i + 1;
    }
  }
}
