/** Big integers as little-endian sequences of 32-bit words, and the number each one stands for. */
module Words {
  import opened Bits

  const BASE := 0x1_0000_0000

  type Word = x: int | 0 <= x < 0x1_0000_0000

  // 2^(32 n): one more than the largest number that n words hold.
  function Weight(n: nat): (r: nat)
    ensures r > 0
  {
    Pow2(32 * n)
  }

  function Val(s: seq<Word>): nat {
    if s == [] then
      0
    else
      ShlNonNegative(s[|s| - 1], 32 * (|s| - 1));
      Val(s[..|s| - 1]) + Shl(s[|s| - 1], 32 * (|s| - 1))
  }

  lemma WeightStep(n: nat)
    ensures Weight(n + 1) == BASE * Weight(n)
  {
    ShlPow2(32 * n, 32);
    Shl32(Weight(n));
  }

  // A word's weight is 2^32 times that of the word below it.
  lemma ShlWord(x: int, n: nat)
    ensures Shl(x * BASE, 32 * n) == Shl(x, 32 * (n + 1))
  {
    Shl32(x);
    ShlShl(x, 32, 32 * n);
  }

  lemma ValSnoc(s: seq<Word>, w: Word)
    ensures Val(s + [w]) == Val(s) + Shl(w, 32 * |s|)
  {
    assert (s + [w])[..|s|] == s;
  }

  // The value of a prefix one word longer.
  lemma ValExtend(s: seq<Word>, i: nat)
    requires i < |s|
    ensures Val(s[..i + 1]) == Val(s[..i]) + Shl(s[i], 32 * i)
  {
    assert s[..i + 1] == s[..i] + [s[i]];
    ValSnoc(s[..i], s[i]);
  }

  lemma ValWhole(s: seq<Word>)
    ensures Val(s[..|s|]) == Val(s)
  {
    assert s[..|s|] == s;
  }

  lemma {:induction false} ValBound(s: seq<Word>)
    ensures Val(s) < Weight(|s|)
  {
    if s != [] {
      var n := |s| - 1;
      ValBound(s[..n]);
      TopWordBound(s[n], n);
    }
  }

  lemma TopWordBound(x: Word, n: nat)
    ensures 0 <= Shl(x, 32 * n) <= Weight(n + 1) - Weight(n)
  {
    Pow2Facts();
    ShlRange(x, 32, 32 * n);
  }

  lemma {:induction false} ValConcat(s: seq<Word>, t: seq<Word>)
    ensures Val(s + t) == Val(s) + Shl(Val(t), 32 * |s|)
  {
    if t == [] {
      assert s + t == s;
      ShlZero(32 * |s|);
    } else {
      var n := |t| - 1;
      ValConcat(s, t[..n]);
      assert s + t == (s + t[..n]) + [t[n]];
      ValSnoc(s + t[..n], t[n]);
      ShlAdd(Val(t[..n]), Shl(t[n], 32 * n), 32 * |s|);
      ShlShl(t[n], 32 * n, 32 * |s|);
    }
  }

  lemma {:induction false} ValZeros(s: seq<Word>)
    requires forall i :: 0 <= i < |s| ==> s[i] == 0
    ensures Val(s) == 0
  {
    if s != [] {
      ValZeros(s[..|s| - 1]);
      ShlZero(32 * (|s| - 1));
    }
  }

  // Zero words above the first n add nothing.
  lemma ValLeadingZeros(s: seq<Word>, n: nat)
    requires n <= |s|
    requires forall i :: n <= i < |s| ==> s[i] == 0
    ensures Val(s) == Val(s[..n])
  {
    assert s == s[..n] + s[n..];
    ValConcat(s[..n], s[n..]);
    ValZeros(s[n..]);
    ShlZero(32 * n);
  }

  // The words from n up are the number shifted right by n words; the words below are its low bits.
  lemma ValSplit(s: seq<Word>, n: nat)
    requires n <= |s|
    ensures Val(s[n..]) == Shr(Val(s), 32 * n) && Val(s[..n]) == Low(Val(s), 32 * n)
  {
    assert s == s[..n] + s[n..];
    ValConcat(s[..n], s[n..]);
    ValBound(s);
    ValBound(s[..n]);
    ValBound(s[n..]);
    HighLowUnique(Val(s), 32 * n, Val(s[n..]), Val(s[..n]));
  }

  // A non-zero top word fixes the magnitude.
  lemma ValTopWord(s: seq<Word>)
    requires s != [] && s[|s| - 1] != 0
    ensures Weight(|s| - 1) <= Val(s)
  {
    var n := |s| - 1;
    ValBound(s[..n]);
    ShlMonotone(1, s[n], 32 * n);
    ShlPow2(0, 32 * n);
  }

  // A number has one form in a given number of words.
  lemma {:induction false} ValInjective(s: seq<Word>, t: seq<Word>)
    requires |s| == |t| && Val(s) == Val(t)
    ensures s == t
  {
    if s != [] {
      var n := |s| - 1;
      ValBound(s[..n]);
      ValBound(t[..n]);
      ValBound(s);
      HighLowUnique(Val(s), 32 * n, s[n], Val(s[..n]));
      HighLowUnique(Val(s), 32 * n, t[n], Val(t[..n]));
      ValInjective(s[..n], t[..n]);
      assert s == s[..n] + [s[n]];
      assert t == t[..n] + [t[n]];
    }
  }

  // The n lowest words of x.
  function ToWords(x: nat, n: nat): (s: seq<Word>)
    ensures |s| == n
  {
    if n == 0 then [] else [x % BASE] + ToWords(x / BASE, n - 1)
  }

  lemma {:induction false} ToWordsValue(x: nat, n: nat)
    requires x < Weight(n)
    ensures Val(ToWords(x, n)) == x
  {
    if n > 0 {
      WeightStep(n - 1);
      ToWordsValue(x / BASE, n - 1);
      ValConcat([x % BASE], ToWords(x / BASE, n - 1));
      Shl32(x / BASE);
      ValSnoc([], x % BASE);
      assert [] + [x % BASE] == [x % BASE];
    }
  }
}
