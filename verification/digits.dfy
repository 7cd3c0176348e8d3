/** One digit of the long division of BN_div: the estimate from the leading words and
    its correction on the window. */
module Digits {
  import opened Words
  import opened WordOps
  import opened Kernels
  import opened Magnitude

  // ----- the estimate from three words by two

  /** q is not too large, or not too low, for three words n:n2 by the two d0:d1. */
  ghost predicate Fits(q: int, n: int, n2: int, d0: int, d1: int) {
    q * (d0 * B + d1) <= n * B + n2
  }

  ghost predicate NotLow(q: int, n: int, n2: int, d0: int, d1: int) {
    n * B + n2 < (q + 1) * (d0 * B + d1)
  }

  lemma OneLess(q: int, d: int)
    ensures (q - 1) * d == q * d - d
  {
  }

  /** The product q * d, one d after the other: what the loop below takes away. */
  ghost function Multiple(q: nat, d: int): int {
    if q == 0 then 0 else Multiple(q - 1, d) + d
  }

  lemma {:induction false} MultipleIs(q: nat, d: int)
    ensures Multiple(q, d) == q * d
  {
    if q != 0 {
      MultipleIs(q - 1, d);
      OneLess(q, d);
    }
  }

  lemma {:induction false} MultipleOfTwo(q: nat, d0: int, d1: int)
    ensures Multiple(q, d0 * B + d1) == Multiple(q, d0) * B + Multiple(q, d1)
  {
    if q != 0 {
      MultipleOfTwo(q - 1, d0, d1);
    }
  }

  /** What is left of n:n2 when q is taken for the digit: rem:n2 less q * d1. */
  ghost predicate Left(q: nat, n: int, n2: int, d0: int, d1: int, rem: int, t: int) {
    rem == n - Multiple(q, d0) && t == Multiple(q, d1) && n * B + n2 < Multiple(q, d0 * B + d1) + d0 * B + d1
  }

  /** One round of the loop: q goes down by one. */
  lemma StepDown(q: nat, n: int, n2: Word, d0: Word, d1: Word, rem: int, t: int)
    requires Left(q, n, n2, d0, d1, rem, t) && t > rem * B + n2 && rem >= 0
    ensures q > 0 && Left(q - 1, n, n2, d0, d1, rem + d0, t - d1)
  {
    MultipleOfTwo(q, d0, d1);
  }

  lemma Settled(q: nat, n: int, n2: Word, d0: Word, d1: Word, rem: int, t: int)
    requires Left(q, n, n2, d0, d1, rem, t) && t <= rem * B + n2
    ensures Fits(q, n, n2, d0, d1) && NotLow(q, n, n2, d0, d1)
  {
    MultipleOfTwo(q, d0, d1);
    MultipleIs(q, d0 * B + d1);
    OneLess(q + 1, d0 * B + d1);
  }

  /** The remainder of an estimate overflows a word only if the estimate fits,
      whatever the lower words are. */
  lemma OverflowFits(q: Word, n: int, n2: Word, d0: Word, d1: Word, rem: int, t: int)
    requires Left(q, n, n2, d0, d1, rem, t) && rem >= B
    ensures t <= rem * B + n2
  {
    MultipleIs(q, d1);
    WordProduct(q, d1);
  }

  /** The loop that lowers q until q * d1, in the words t2h:t2l, is at most rem:n2. */
  method Lower(q0: Word, ghost n: int, n2: Word, d0: Word, d1: Word, rem0: Word, t2l0: Word, t2h0: Word)
    returns (q: Word)
    requires Left(q0, n, n2, d0, d1, rem0, t2l0 + B * t2h0)
    ensures Fits(q, n, n2, d0, d1) && NotLow(q, n, n2, d0, d1)
  {
    q := q0;
    var rem: Word, t2l: Word, t2h: Word := rem0, t2l0, t2h0;
    while !(t2h < rem || (t2h == rem && t2l <= n2))
      invariant Left(q, n, n2, d0, d1, rem, t2l + B * t2h)
      decreases q
    {
      ghost var t := t2l + B * t2h;
      StepDown(q, n, n2, d0, d1, rem, t);
      q := q - 1;
      rem := Add(rem, d0);
      if rem < d0 {
        OverflowFits(q, n, n2, d0, d1, rem + B, t - d1);
        Settled(q, n, n2, d0, d1, rem + B, t - d1);
        return;
      }
      ProductNotNegative(q, d1);
      t2l, t2h := SubLow(t2l, t2h, d1);
    }
    Settled(q, n, n2, d0, d1, rem, t2l + B * t2h);
  }

  lemma ProductNotNegative(q: nat, d: Word)
    ensures 0 <= Multiple(q, d)
  {
    MultipleIs(q, d);
    MulNonNeg(q, d);
  }

  /** t2 -= d1, on two words. */
  method SubLow(t2l: Word, t2h: Word, d1: Word) returns (l: Word, h: Word)
    requires d1 <= t2l + B * t2h
    ensures l + B * h == t2l + B * t2h - d1
  {
    h := t2h;
    if t2l < d1 {
      h := h - 1;
    }
    l := Sub(t2l, d1);
  }

  lemma WrapAway(x: int, k: int)
    requires 0 <= x + k * B < B
    ensures x % B == x + k * B
  {
  }

  /** The first estimate leaves n0:n1 - q * d0, which the source computes with words
      that wrap. */
  lemma FirstEstimate(n0: Word, n1: Word, n2: Word, d0: Word, d1: Word, q: Word)
    requires n0 < d0 && q == (n0 * B + n1) / d0
    ensures Left(q, n0 * B + n1, n2, d0, d1, Sub(n1, LowProduct(q, d0)), Multiple(q, d1))
  {
    var n, p := n0 * B + n1, Multiple(q, d0);
    DivideFloor(n, d0);
    OneLess(q + 1, d0);
    MultipleIs(q, d0);
    MultipleOfTwo(q, d0, d1);
    ProductNotNegative(q, d1);
    assert 0 <= n - p < d0;
    WrapAway(n1 - p, n0);
    WrapsLikeC(n1, LowProduct(q, d0));
    SubModulo(n1, p);
  }

  lemma SubModulo(x: int, p: int)
    ensures (x - p % B) % B == (x - p) % B
  {
  }

  /** t2 = d1 * q as two words. */
  method DoubleWord(d1: Word, q: Word) returns (l: Word, h: Word)
    ensures l + B * h == Multiple(q, d1)
  {
    l, h := Mul64(Lo(d1), Hi(d1), Lo(q), Hi(q));
    MultipleIs(q, d1);
    MulEqual(q, d1, d1);
  }

  /** The digit estimated from the words n0, n1, n2 of the window and d0, d1 of the
      divisor. */
  method Estimate(n0: Word, n1: Word, n2: Word, d0: Word, d1: Word) returns (q: Word)
    requires T <= d0 && n0 <= d0
    ensures n0 == d0 ==> q == B - 1
    ensures n0 < d0 ==> Fits(q, n0 * B + n1, n2, d0, d1) && NotLow(q, n0 * B + n1, n2, d0, d1)
  {
    if n0 == d0 {
      q := B - 1;
    } else {
      q := DivWords(n0, n1, d0);
      FirstEstimate(n0, n1, n2, d0, d1, q);
      var rem := Sub(n1, LowProduct(q, d0));
      var t2l, t2h := DoubleWord(d1, q);
      q := Lower(q, n0 * B + n1, n2, d0, d1, rem, t2l, t2h);
    }
  }

  // ----- the estimate and the digit

  /** q is the digit or one more. */
  ghost predicate Close(q: int, x: int, d: int) {
    (q - 1) * d <= x < (q + 1) * d
  }

  lemma ScaleBelow(q: int, d: int, x: int, n: nat)
    requires q * d <= x
    ensures q * Up(d, n) <= Up(x, n)
  {
    UpMul(q, d, n);
    UpMono(q * d, x, n);
  }

  lemma ScaleAbove(x: int, q: int, d: int, n: nat)
    requires x <= q * d
    ensures Up(x, n) <= q * Up(d, n)
  {
    UpMul(q, d, n);
    UpMono(x, q * d, n);
  }

  /** The words below the ones the estimate looks at make a difference of at most one. */
  lemma EstimateClose(q: Word, x3: int, d2: int, xl: nat, dl: nat, n: nat)
    requires B <= d2 && q * d2 <= x3 < (q + 1) * d2
    requires xl < Pow(n) && dl < Pow(n)
    ensures Close(q, xl + Up(x3, n), dl + Up(d2, n))
  {
    var x, d := xl + Up(x3, n), dl + Up(d2, n);
    UpAdd(x3, 1, n);
    UpAdd(d2, 1, n);
    UpMono(0, x3, n);
    UpZero(n);
    ScaleAbove(x3 + 1, q + 1, d2, n);
    MulMono(Up(d2, n), d, q + 1);
    MulEqual(q + 1, Up(d2, n), Up(d2, n));
    MulEqual(q + 1, d, d);
    if q >= 1 {
      LowerDigit(q, d2);
      ScaleBelow(q - 1, d2 + 1, x3, n);
      MulMono(d, Up(d2 + 1, n), q - 1);
      MulEqual(q - 1, d, d);
      MulEqual(q - 1, Up(d2 + 1, n), Up(d2 + 1, n));
    } else {
      UpMono(0, d2, n);
      assert (q - 1) * d == -d;
      MulNonNeg(q, d2);
    }
  }

  lemma LowerDigit(q: int, d2: int)
    requires 1 <= q <= d2
    ensures (q - 1) * (d2 + 1) <= q * d2
  {
    assert (q - 1) * (d2 + 1) == q * d2 - d2 + q - 1;
  }

  /** With equal leading words the largest digit is close. */
  lemma AllOnesClose(d0: Word, xl: nat, dl: nat, n: nat)
    requires T <= d0 && dl < Pow(n)
    requires xl + Up(B * d0, n) < B * (dl + Up(d0, n))
    ensures Close(B - 1, xl + Up(B * d0, n), dl + Up(d0, n))
  {
    var d := dl + Up(d0, n);
    UpAdd(d0, 1, n);
    assert (B - 2) * (d0 + 1) <= B * d0;
    ScaleBelow(B - 2, d0 + 1, B * d0, n);
    MulMono(d, Up(d0 + 1, n), B - 2);
  }

  /** A window below B times the divisor leads with a word not above the divisor's. */
  lemma LeadingWord(n0: Word, d0: Word, xl: nat, dl: nat, n: nat)
    requires dl < Pow(n) && xl + Up(n0, n + 1) < B * (dl + Up(d0, n))
    ensures n0 <= d0
  {
    UpAdd(d0, 1, n);
    UpNext(d0 + 1, n);
    UpMono(d0 + 1, n0, n + 1);
    UpNext(n0, n);
  }

  lemma ValTop2(s: seq<Word>, n: nat)
    requires |s| == n + 2
    ensures Val(s) == Val(s[..n]) + Up(s[n] + B * s[n + 1], n)
  {
    assert s[n..] == [s[n], s[n + 1]];
    Val2(s[n], s[n + 1]);
    ValSplit(s, n);
  }

  lemma ValTop3(s: seq<Word>, n: nat)
    requires |s| == n + 3
    ensures Val(s) == Val(s[..n]) + Up((s[n + 2] * B + s[n + 1]) * B + s[n], n)
  {
    var t := s[n..];
    assert t[1..] == [s[n + 1], s[n + 2]];
    Val2(s[n + 1], s[n + 2]);
    ValSplit(s, n);
  }

  /** The digit estimated from the leading words of a window w of one word more than
      the divisor d; w2 is the word below the second of the window, which matters only
      if the divisor has two words or more. */
  ghost predicate Estimated(q: Word, w: seq<Word>, d: seq<Word>, w2: Word)
    requires |w| == |d| + 1 && |d| >= 1
  {
    var n := |d|;
    var d1 := if n == 1 then 0 else d[n - 2];
    if w[n] == d[n - 1] then q == B - 1
    else Fits(q, w[n] * B + w[n - 1], w2, d[n - 1], d1) && NotLow(q, w[n] * B + w[n - 1], w2, d[n - 1], d1)
  }

  lemma DigitClose(w: seq<Word>, d: seq<Word>, q: Word, w2: Word)
    requires |w| == |d| + 1 && |d| >= 1 && T <= d[|d| - 1]
    requires Val(w) < B * Val(d)
    requires |d| >= 2 ==> w2 == w[|w| - 3]
    requires Estimated(q, w, d, w2)
    ensures Close(q, Val(w), Val(d))
  {
    var n := |d|;
    if w[n] == d[n - 1] {
      ClosestTop(w, d);
    } else if n == 1 {
      ValTop2(w, 0);
      Val1(d[0]);
      assert d == [d[0]];
      ShortClose(q, w[1] * B + w[0], w2, d[0]);
    } else {
      LongClose(w, d, q);
    }
  }

  lemma ClosestTop(w: seq<Word>, d: seq<Word>)
    requires |w| == |d| + 1 && |d| >= 1 && T <= d[|d| - 1]
    requires Val(w) < B * Val(d) && w[|d|] == d[|d| - 1]
    ensures Close(B - 1, Val(w), Val(d))
  {
    var n := |d|;
    ValTake(w, n);
    ValTake(d, n - 1);
    assert w[..n + 1] == w && d[..n - 1 + 1] == d;
    ValBound(d[..n - 1]);
    UpNext(w[n], n - 1);
    AllOnesClose(d[n - 1], Val(w[..n]), Val(d[..n - 1]), n - 1);
  }

  lemma LongClose(w: seq<Word>, d: seq<Word>, q: Word)
    requires |w| == |d| + 1 && |d| >= 2 && T <= d[|d| - 1] && w[|d|] != d[|d| - 1]
    requires Estimated(q, w, d, w[|d| - 2])
    ensures Close(q, Val(w), Val(d))
  {
    var n := |d|;
    ValTop3(w, n - 2);
    ValTop2(d, n - 2);
    ValBound(w[..n - 2]);
    ValBound(d[..n - 2]);
    EstimateClose(q, (w[n] * B + w[n - 1]) * B + w[n - 2], d[n - 2] + B * d[n - 1],
                  Val(w[..n - 2]), Val(d[..n - 2]), n - 2);
  }

  /** With one divisor word the estimate is the digit. */
  lemma ShortClose(q: Word, x: int, w2: Word, d0: int)
    requires Fits(q, x, w2, d0, 0) && NotLow(q, x, w2, d0, 0)
    ensures Close(q, x, d0)
  {
    assert q * (d0 * B + 0) == q * d0 * B && (q + 1) * (d0 * B + 0) == (q + 1) * d0 * B;
    OneLess(q, d0);
    MulNonNeg(q, 0);
  }
}
