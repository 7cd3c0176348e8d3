/** The window of BN_div: the words of the dividend that one round divides by the
    normalised divisor. */
module Window {
  import opened Words
  import opened Kernels
  import opened Magnitude
  import opened Digits

  /** Of the n words from o on the first k are in use; a single word in use may be zero. */
  predicate InUse(s: array<Word>, o: nat, n: nat, k: nat)
    requires o + n <= s.Length
    reads s
  {
    k <= n && (k > 1 ==> s[o + k - 1] != 0) && forall j :: o + k <= j < o + n ==> s[j] == 0
  }

  lemma InUseValue(s: array<Word>, o: nat, n: nat, k: nat)
    requires o + n <= s.Length && InUse(s, o, n, k)
    ensures Val(s[o..o + n]) == Val(s[o..o + k])
  {
    ValPad(s[o..o + n], k);
    assert s[o..o + n][..k] == s[o..o + k];
  }

  /** tmp = q * sdiv */
  method TimesDivisor(t: array<Word>, d: array<Word>, n: nat, q: Word) returns (tt: nat)
    requires n <= d.Length && n + 1 <= t.Length && t != d
    modifies t
    ensures tt <= n + 1 && Canon(t, 0, tt) && Val(t[..tt]) == q * Val(d[..n])
  {
    ghost var v := q * Val(d[..n]);
    assert d[0..0 + n] == d[..n];
    var l0 := MulWords(t, 0, d, 0, n, q);
    t[n] := l0;
    assert t[..n + 1] == t[0..0 + n] + [l0];
    ValSnoc(t[0..0 + n], l0);
    tt := FixTop(t, 0, n + 1);
    assert t[0..0 + tt] == t[..tt] && t[0..0 + (n + 1)] == t[..n + 1];
  }

  /** BN_sub of tmp from the window, which leaves the difference without its sign. */
  method TakeAway(s: array<Word>, o: nat, n: nat, k: nat, t: array<Word>, tt: nat, ghost x: nat, ghost v: nat)
    returns (neg: bool, top: nat)
    requires o + n <= s.Length && InUse(s, o, n, k) && s != t
    requires tt <= t.Length && tt <= n && Canon(t, 0, tt)
    requires k == 1 && s[o] == 0 ==> tt == 0
    requires Val(s[o..o + k]) == x && Val(t[..tt]) == v
    modifies s
    ensures InUse(s, o, n, top) && Canon(s, o, top) && neg == (x < v)
    ensures Val(s[o..o + top]) == if neg then v - x else x - v
    ensures forall j :: 0 <= j < s.Length && !(o <= j < o + n) ==> s[j] == old(s[j])
  {
    assert t[0..0 + tt] == t[..tt];
    var c := Compare(s, o, k, t, 0, tt);
    neg := c < 0;
    if neg {
      Longer(t[..tt], s[o..o + k]);
      top := USub(s, o, t, 0, tt, s, o, k);
    } else {
      top := TakeLess(s, o, n, k, t, tt, x, v);
    }
  }

  method TakeLess(s: array<Word>, o: nat, n: nat, k: nat, t: array<Word>, tt: nat, ghost x: nat, ghost v: nat)
    returns (top: nat)
    requires o + n <= s.Length && InUse(s, o, n, k) && s != t
    requires tt <= t.Length && tt <= n && Canon(t, 0, tt)
    requires k == 1 && s[o] == 0 ==> tt == 0
    requires Val(s[o..o + k]) == x >= v == Val(t[..tt])
    modifies s
    ensures InUse(s, o, n, top) && Canon(s, o, top) && Val(s[o..o + top]) == x - v
    ensures forall j :: 0 <= j < s.Length && !(o <= j < o + n) ==> s[j] == old(s[j])
  {
    assert t[0..0 + tt] == t[..tt];
    Longer(s[o..o + k], t[..tt]);
    top := USub(s, o, s, o, k, t, 0, tt);
  }

  lemma Longer(x: seq<Word>, y: seq<Word>)
    requires Val(y) <= Val(x) && (|y| > 1 ==> y[|y| - 1] != 0)
    requires |y| == 1 && y[0] == 0 ==> |x| > 0
    ensures |y| <= |x|
  {
    if |x| < |y| && y[|y| - 1] != 0 {
      LongerIsLarger(y, x);
    }
  }

  /** BN_add of the divisor to a window that has become negative: the divisor less
      what the window holds. */
  method AddBack(s: array<Word>, o: nat, n: nat, k: nat, d: array<Word>) returns (top: nat)
    requires o + n + 1 <= s.Length && InUse(s, o, n + 1, k) && Canon(s, o, k) && s != d
    requires 0 < n <= d.Length && d[n - 1] != 0
    requires Val(s[o..o + k]) <= Val(d[..n])
    modifies s
    ensures InUse(s, o, n + 1, top) && Canon(s, o, top)
    ensures Val(s[o..o + top]) == old(Val(d[..n]) - Val(s[o..o + k]))
    ensures forall j :: 0 <= j < s.Length && !(o <= j < o + n + 1) ==> s[j] == old(s[j])
  {
    Longer(d[..n], s[o..o + k]);
    assert d[0..0 + n] == d[..n];
    top := USub(s, o, d, 0, n, s, o, k);
  }

  /** The digit is q or one less, as the window turns out. */
  lemma DigitIs(q: int, x: int, d: int, neg: bool)
    requires 0 < d && Close(q, x, d) && neg == (x < q * d)
    ensures !neg ==> x / d == q && x % d == x - q * d
    ensures neg ==> x / d == q - 1 && x % d == d - (q * d - x)
  {
    OneLess(q, d);
    OneLess(q + 1, d);
    if neg {
      DivModUnique(x, d, q - 1, x - (q - 1) * d);
    } else {
      DivModUnique(x, d, q, x - q * d);
    }
  }

  /** The rest of a round after the estimate: q is corrected to the digit and the
      window becomes the remainder. */
  method SubtractDigit(s: array<Word>, o: nat, n: nat, k: nat, d: array<Word>, t: array<Word>, q0: Word)
    returns (q: Word, top: nat)
    requires o + n + 1 <= s.Length && InUse(s, o, n + 1, k) && s != t && s != d && t != d
    requires 0 < n <= d.Length && d[n - 1] != 0 && n + 1 <= t.Length
    requires Close(q0, Val(s[o..o + k]), Val(d[..n]))
    requires k == 1 && s[o] == 0 ==> q0 == 0
    modifies s, t
    ensures InUse(s, o, n + 1, top) && Canon(s, o, top)
    ensures old(Val(d[..n])) > 0 && q == old(Val(s[o..o + k]) / Val(d[..n]))
    ensures Val(s[o..o + top]) == old(Val(s[o..o + k]) % Val(d[..n]))
    ensures forall j :: 0 <= j < s.Length && !(o <= j < o + n + 1) ==> s[j] == old(s[j])
  {
    ghost var x, y := Val(s[o..o + k]), Val(d[..n]);
    PositiveTop(d[..n]);
    var tt := TimesDivisor(t, d, n, q0);
    if q0 == 0 {
      NoWords(t[..tt]);
    }
    var neg;
    neg, top := TakeAway(s, o, n + 1, k, t, tt, x, Val(t[..tt]));
    q, top := CorrectDigit(s, o, n, top, d, q0, neg, x, y);
  }

  /** A window that has become negative gets the divisor back. */
  method CorrectDigit(s: array<Word>, o: nat, n: nat, k: nat, d: array<Word>, q0: Word, neg: bool,
                      ghost x: nat, ghost y: nat)
    returns (q: Word, top: nat)
    requires o + n + 1 <= s.Length && InUse(s, o, n + 1, k) && Canon(s, o, k) && s != d
    requires 0 < n <= d.Length && d[n - 1] != 0 && Val(d[..n]) == y > 0
    requires Close(q0, x, y) && neg == (x < q0 * y)
    requires Val(s[o..o + k]) == if neg then q0 * y - x else x - q0 * y
    modifies s
    ensures InUse(s, o, n + 1, top) && Canon(s, o, top)
    ensures q == x / y && Val(s[o..o + top]) == x % y
    ensures forall j :: 0 <= j < s.Length && !(o <= j < o + n + 1) ==> s[j] == old(s[j])
  {
    DigitIs(q0, x, y, neg);
    q, top := q0, k;
    if neg {
      NotNegative(x, y);
      q := q0 - 1;
      top := AddBack(s, o, n, k, d);
    }
  }

  lemma NotNegative(x: nat, y: nat)
    requires y > 0
    ensures 0 <= x / y && 0 <= x % y
  {
  }

  lemma PositiveTop(s: seq<Word>)
    requires |s| > 0 && s[|s| - 1] != 0
    ensures Val(s) > 0
  {
    ValTop(s);
    PowPos(|s| - 1);
  }

  lemma NoWords(s: seq<Word>)
    requires |s| > 0 ==> s[|s| - 1] != 0
    ensures Val(s) == 0 ==> |s| == 0
  {
    ZeroIsEmpty(s);
  }

  // ----- a round

  /** The value of the window one word lower. */
  lemma WindowDown(s: array<Word>, o: nat, n: nat)
    requires o + n + 1 <= s.Length
    ensures Val(s[o..o + n + 1]) == s[o] + B * Val(s[o + 1..o + 1 + n])
  {
    assert s[o..o + n + 1] == [s[o]] + s[o + 1..o + 1 + n];
    ValCons(s[o], s[o + 1..o + 1 + n]);
  }

  /** A window below the divisor does not use the word above it. */
  lemma WindowFits(s: array<Word>, o: nat, n: nat, k: nat, d: seq<Word>)
    requires o + n + 1 <= s.Length && InUse(s, o, n + 1, k) && Canon(s, o, k)
    requires |d| == n && Val(s[o..o + k]) < Val(d)
    ensures InUse(s, o, n, k)
  {
    if k == n + 1 {
      LongerIsLarger(s[o..o + k], d);
    }
  }

  /** An estimate from zero words is zero. */
  lemma EstimateOfZero(q: Word, w2: Word, d0: Word, d1: Word)
    requires T <= d0 && Fits(q, 0, w2, d0, d1)
    ensures q == 0
  {
    if q >= 1 {
      MulMono(1, q, d0 * B + d1);
    }
  }

  /** The digit for the window, and its estimate: with the leading words of both and
      the word below, which for a divisor of one word is not in the window. */
  method EstimateDigit(s: array<Word>, o: nat, n: nat, d: array<Word>) returns (q: Word)
    requires 0 < o && o + n + 1 <= s.Length && 0 < n <= d.Length && T <= d[n - 1]
    requires Val(s[o..o + n + 1]) < B * Val(d[..n])
    ensures Close(q, Val(s[o..o + n + 1]), Val(d[..n]))
    ensures (forall j :: o < j < o + n + 1 ==> s[j] == 0) && s[o] == 0 ==> q == 0
  {
    var d0, d1 := d[n - 1], if n == 1 then 0 else d[n - 2];
    var n0, n1, n2 := s[o + n], s[o + n - 1], s[o + n - 2];
    ghost var w, y := s[o..o + n + 1], d[..n];
    TopWord(w, y);
    q := Estimate(n0, n1, n2, d0, d1);
    assert w[n] == n0 && w[n - 1] == n1 && (n >= 2 ==> w[n - 2] == n2);
    DigitClose(w, y, q, n2);
    if n0 == 0 && n1 == 0 {
      if n >= 2 || s[o] == 0 {
        EstimateOfZero(q, n2, d0, d1);
      }
    }
  }

  lemma TopWord(w: seq<Word>, d: seq<Word>)
    requires |w| == |d| + 1 && |d| >= 1 && Val(w) < B * Val(d)
    ensures w[|d|] <= d[|d| - 1]
  {
    var n := |d|;
    ValTake(w, n);
    ValTake(d, n - 1);
    assert w[..n + 1] == w && d[..n - 1 + 1] == d;
    ValBound(d[..n - 1]);
    LeadingWord(w[n], d[n - 1], Val(w[..n]), Val(d[..n - 1]), n - 1);
  }

  /** The word below joins the remainder, which is smaller than the divisor. */
  lemma NextBelow(w: Word, r: int, d: int)
    requires r < d
    ensures w + B * r < B * d
  {
  }

  /** One round of BN_div: the window moves down a word, the digit of the quotient is
      found and the window becomes the remainder. */
  method Round(s: array<Word>, o: nat, n: nat, k: nat, d: array<Word>, t: array<Word>) returns (q: Word, top: nat)
    requires 0 < o && o + n + 1 <= s.Length && s != t && s != d && t != d
    requires 0 < n <= d.Length && T <= d[n - 1] && n + 1 <= t.Length
    requires InUse(s, o + 1, n, k) && Canon(s, o + 1, k) && Val(s[o + 1..o + 1 + n]) < Val(d[..n])
    modifies s, t
    ensures InUse(s, o, n, top) && Canon(s, o, top) && d[..n] == old(d[..n])
    ensures top <= k + 1 && Val(s[o..o + n]) < Val(d[..n])
    ensures old(s[o] + B * Val(s[o + 1..o + 1 + n])) == q * Val(d[..n]) + Val(s[o..o + n])
    ensures s[o + n] == 0
    ensures forall j :: 0 <= j < s.Length && !(o <= j < o + n + 1) ==> s[j] == old(s[j])
  {
    ghost var y := d[..n];
    WindowDown(s, o, n);
    NextBelow(s[o], Val(s[o + 1..o + 1 + n]), Val(y));
    var q0 := EstimateDigit(s, o, n, d);
    InUseValue(s, o, n + 1, k + 1);
    q, top := FinishRound(s, o, n, k + 1, d, t, q0, Val(s[o..o + n + 1]));
  }

  lemma QuotientEquation(x: int, v: int, q: int, r: int)
    requires 0 < v && q == x / v && r == x % v
    ensures x == q * v + r && r < v
  {
    assert x == v * (x / v) + x % v;
  }

  lemma NotLonger(x: int, v: int, q: int, r: int)
    requires x == q * v + r && 0 <= q && 0 <= v
    ensures r <= x
  {
    MulNonNeg(q, v);
  }

  method FinishRound(s: array<Word>, o: nat, n: nat, k: nat, d: array<Word>, t: array<Word>, q0: Word, ghost x: int)
    returns (q: Word, top: nat)
    requires o + n + 1 <= s.Length && InUse(s, o, n + 1, k) && s != t && s != d && t != d
    requires 0 < n <= d.Length && d[n - 1] != 0 && n + 1 <= t.Length
    requires Val(s[o..o + k]) == x && Close(q0, x, Val(d[..n]))
    requires k == 1 && s[o] == 0 ==> q0 == 0
    modifies s, t
    ensures InUse(s, o, n, top) && Canon(s, o, top) && d[..n] == old(d[..n]) && s[o + n] == 0
    ensures top <= k && Val(s[o..o + n]) < Val(d[..n]) && x == q * Val(d[..n]) + Val(s[o..o + n])
    ensures forall j :: 0 <= j < s.Length && !(o <= j < o + n + 1) ==> s[j] == old(s[j])
  {
    ghost var y, z := d[..n], s[o..o + k];
    q, top := SubtractDigit(s, o, n, k, d, t, q0);
    assert d[..n] == y;
    QuotientEquation(x, Val(y), q, Val(s[o..o + top]));
    NotLonger(x, Val(y), q, Val(s[o..o + top]));
    Longer(z, s[o..o + top]);
    WindowFits(s, o, n, top, y);
    InUseValue(s, o, n, top);
  }
}
