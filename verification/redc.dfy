/** The word-by-word reduction of BN_from_montgomery. */
module Reduction {
  import opened Words
  import opened Kernels
  import opened Modular

  /** n0 makes every multiple of the modulus cancel a low word: N * n0 is -1 modulo B. */
  predicate Cancels(n0: Word, low: Word) {
    (low * n0 + 1) % B == 0
  }

  /** The word added to times the low word of N is a multiple of B. */
  lemma Cancelled(x: Word, n0: Word, low: Word) returns (k: int)
    requires Cancels(n0, low)
    ensures x + LowProduct(x, n0) * low == B * k
  {
    var w := LowProduct(x, n0);
    var e := (low * n0 + 1) / B;
    assert x * n0 == B * (x * n0 / B) + w;
    var f := x * n0 / B;
    k := x * e - f * low;
    CancelProduct(x, n0, low, w, e, f);
  }

  lemma CancelProduct(x: int, n0: int, low: int, w: int, e: int, f: int)
    requires low * n0 + 1 == B * e && x * n0 == B * f + w
    ensures x + w * low == B * (x * e - f * low)
  {
    assert w * low == (x * n0) * low - B * f * low;
    assert (x * n0) * low == x * (low * n0);
    assert x * (low * n0) == x * (B * e - 1);
    assert x * (B * e) == B * (x * e) && B * f * low == B * (f * low);
  }

  /** A sum that is a multiple of B modulo the words above has a zero as low word. */
  lemma LowWordCleared(s: seq<Word>, v: int, z: seq<Word>, y: seq<Word>, w: int, k: int)
    requires |s| == |z| == |y| > 0 && z[0] + w * y[0] == B * k
    requires Val(s) + Up(v, |s|) == Val(z) + w * Val(y)
    ensures s[0] == 0
  {
    ClearedSum(s[0], Val(s[1..]), Up(v, |s| - 1), z[0], Val(z[1..]), w, y[0], Val(y[1..]), k);
  }

  lemma ClearedSum(s0: Word, s: int, v: int, z0: int, z: int, w: int, y0: int, y: int, k: int)
    requires s0 + B * s + B * v == z0 + B * z + w * (y0 + B * y) && z0 + w * y0 == B * k
    ensures s0 == 0
  {
    Spread(w, y0, B * y);
    assert w * (B * y) == B * (w * y);
    WordMultiple(s0, k + z + w * y - v - s);
  }

  lemma WordMultiple(x: Word, r: int)
    requires x == B * r
    ensures x == 0
  {
  }

  // ----- one word

  /** The addition of w times the modulus x to the low words of z and of the carry to
      the words above. */
  lemma AddedMultiple(low: nat, high: nat, low1: nat, c: int, high1: nat, w: int, v: int, n: nat)
    requires low1 + Up(c, n) == low + w * v && high1 == high + c
    ensures low1 + Up(high1, n) == low + Up(high, n) + w * v
  {
    UpAdd(high, c, n);
  }

  /** The carry of the multiplication fits the words above the window. */
  lemma CarryFits(low: nat, high: nat, low1: nat, c: int, w: int, v: int, n: nat, m: nat)
    requires low1 + Up(c, n) == low + w * v
    requires low + Up(high, n) + w * v < Pow(n + m)
    ensures high + c < Pow(m)
  {
    UpAdd(high, c, n);
    if high + c >= Pow(m) {
      UpMono(Pow(m), high + c, n);
      UpUp(1, m, n);
    }
  }

  /** The multiple of the modulus that makes word i zero, added to the words from
      there on. */
  method AddMultiple(r: array<Word>, i: nat, np: array<Word>, nl: nat, n0: Word) returns (v: Word, ghost w: Word)
    requires 0 < nl <= np.Length && i + nl <= r.Length && r != np && Cancels(n0, np[0])
    modifies r
    ensures Val(r[i..i + nl]) + Up(v, nl) == old(Val(r[i..i + nl])) + w * Val(np[..nl])
    ensures r[i] == 0
    ensures forall k :: 0 <= k < r.Length && !(i <= k < i + nl) ==> r[k] == old(r[k])
  {
    ghost var x, z := np[..nl], r[i..i + nl];
    w := LowProduct(r[i], n0);
    ghost var k := Cancelled(r[i], n0, np[0]);
    assert np[0..0 + nl] == x;
    v := MulAddWords(r, i, np, 0, nl, LowProduct(r[i], n0));
    LowWordCleared(r[i..i + nl], v, z, x, w, k);
  }

  /** There is room for the largest multiple. */
  lemma MultipleFits(z: seq<Word>, h: seq<Word>, low1: nat, c: int, w: Word, v: nat)
    requires low1 + Up(c, |z|) == Val(z) + w * v
    requires Val(z + h) + B * v <= Pow(|z| + |h|) && v > 0
    ensures Val(h) + c < Pow(|h|)
  {
    ValAppend(z, h);
    MulMonoStrict(w, B, v);
    CarryFits(Val(z), Val(h), low1, c, w, v, |z|, |h|);
  }

  /** One round: word i of r becomes zero, r having gained w times the modulus from
      that word on. The carry is added with the loop that bn_mul_recursive has too,
      and stops inside r. */
  method ClearWord(r: array<Word>, i: nat, max: nat, np: array<Word>, nl: nat, n0: Word) returns (ghost w: Word)
    requires 0 < nl <= np.Length && i + nl < max <= r.Length && r != np
    requires Cancels(n0, np[0]) && Val(np[..nl]) > 0
    requires Val(r[i..max]) + B * Val(np[..nl]) <= Pow(max - i)
    modifies r
    ensures Val(r[i..max]) == old(Val(r[i..max])) + w * Val(np[..nl])
    ensures r[i] == 0 && r[..i] == old(r[..i])
  {
    ghost var y, z, h := Val(np[..nl]), r[i..i + nl], r[i + nl..max];
    assert r[i..max] == z + h;
    ValAppend(z, h);
    var v;
    v, w := AddMultiple(r, i, np, nl, n0);
    ghost var low := r[i..i + nl];
    assert r[i + nl..max] == h;
    MultipleFits(z, h, Val(low), v, w, y);
    CarryOut(r, i, nl, max, v);
    AddedMultiple(Val(z), Val(h), Val(low), v, Val(h) + v, w, y, nl);
  }

  /** The carry of a round. */
  method CarryOut(r: array<Word>, i: nat, nl: nat, max: nat, v: Word)
    requires i + nl < max <= r.Length && Val(r[i + nl..max]) + v < Pow(max - (i + nl))
    modifies r
    ensures Val(r[i..max]) == old(Val(r[i..i + nl]) + Up(Val(r[i + nl..max]) + v, nl))
    ensures forall k :: 0 <= k < i + nl ==> r[k] == old(r[k])
  {
    ghost var low := r[i..i + nl];
    Propagate(r, i + nl, v, max);
    assert r[i..i + nl] == low && r[i..max] == low + r[i + nl..max];
    ValAppend(low, r[i + nl..max]);
  }

  // ----- all words

  /** Before round i the words below it are zero and r has gained q times the modulus v. */
  ghost predicate Reduced(s: seq<Word>, i: nat, t: nat, q: nat, v: nat)
    requires i <= |s|
  {
    (forall k :: 0 <= k < i ==> s[k] == 0) && Val(s) == t + q * v && q < Pow(i)
  }

  /** The words above leave room for another multiple. */
  lemma RoundRoom(s: seq<Word>, i: nat, t: nat, q: nat, v: nat, n: nat)
    requires i < n && |s| == n + n + 1 && Reduced(s, i, t, q, v)
    requires 0 < v < Pow(n) && t < Up(v, n)
    ensures Val(s[i..]) + B * v <= Pow(|s| - i)
  {
    ValSplit(s, i);
    ValZeros(s[..i]);
    TimesBelow(q, v, i);
    UpGrows(v, i, n);
    RoomAbove(Val(s[i..]), v, i, n, |s| - i);
  }

  lemma RoomAbove(u: nat, v: nat, i: nat, n: nat, k: nat)
    requires i < n && v < Pow(n) && Up(u, i) < 2 * Up(v, n) && k + i == n + n + 1
    ensures u + B * v <= Pow(k)
  {
    SumBelow(u, v, i, n);
    BelowDouble(v, n);
    PowNext(n + n);
    ThriceFits(Up(u + B * v, i), Up(v, n), Pow(n + n), Pow(k + i));
    PowAbove(u + B * v, k, i);
  }

  lemma ThriceFits(x: int, w: int, p: int, q: int)
    requires x < 3 * w && w < p && 0 <= p && q == B * p
    ensures x < q
  {
  }

  lemma SumBelow(u: nat, v: nat, i: nat, n: nat)
    requires i < n && Up(u, i) < 2 * Up(v, n)
    ensures Up(u + B * v, i) < 3 * Up(v, n)
  {
    UpNext(v, i);
    UpGrows(v, i + 1, n);
    UpAdd(u, B * v, i);
  }

  lemma BelowDouble(v: nat, n: nat)
    requires v < Pow(n)
    ensures Up(v, n) < Pow(n + n)
  {
    UpMono(v, Pow(n), n);
    UpUp(1, n, n);
  }

  lemma PowNext(n: nat)
    ensures Pow(n + 1) == B * Pow(n) && Pow(n) > 0
  {
    PowPos(n);
  }

  lemma PowAbove(x: int, k: nat, i: nat)
    requires Up(x, i) < Pow(k + i)
    ensures x < Pow(k)
  {
    UpUp(1, k, i);
    UpMono(Pow(k), x, i);
  }

  lemma TimesBelow(q: nat, v: nat, i: nat)
    requires q < Pow(i)
    ensures q * v <= Up(v, i)
  {
    UpPow(v, i);
    MulMono(q, Pow(i), v);
    MulEqual(v, Pow(i), Pow(i));
  }

  lemma UpGrows(v: nat, i: nat, n: nat)
    requires i <= n
    ensures Up(v, i) <= Up(v, n)
  {
    PowMono(i, n);
    UpPow(v, i);
    UpPow(v, n);
    MulMono(Pow(i), Pow(n), v);
    MulEqual(v, Pow(i), Pow(i));
    MulEqual(v, Pow(n), Pow(n));
  }

  lemma RoundDone(s: seq<Word>, s1: seq<Word>, i: nat, t: nat, q: nat, v: nat, w: Word) returns (q1: nat)
    requires i < |s| == |s1| && Reduced(s, i, t, q, v)
    requires s1[..i] == s[..i] && s1[i] == 0 && Val(s1[i..]) == Val(s[i..]) + w * v
    ensures Reduced(s1, i + 1, t, q1, v)
  {
    UpZero(i);
    UpMono(0, w, i);
    q1 := q + Up(w, i);
    ValSplit(s, i);
    ValSplit(s1, i);
    RaiseMultiple(Val(s[i..]), w, q, v, i);
    UpAdd(w, 1, i);
    UpMono(w + 1, B, i);
    UpNext(1, i);
    assert forall k :: 0 <= k < i ==> s1[k] == s1[..i][k] == s[..i][k];
  }

  lemma RaiseMultiple(u: int, w: int, q: int, v: int, i: nat)
    ensures Up(u + w * v, i) + q * v == Up(u, i) + (q + Up(w, i)) * v
  {
    UpAdd(u, w * v, i);
    UpMul(v, w, i);
    MulEqual(v, w, w);
    Distrib(q, Up(w, i), v);
    MulEqual(v, Up(w, i), Up(w, i));
  }

  /** The loop of BN_from_montgomery over the words of the modulus. What is left above
      them is below twice the modulus and, moved up, congruent to what r was. */
  method Reduce(r: array<Word>, np: array<Word>, nl: nat, n0: Word) returns (ghost q: nat)
    requires 0 < nl <= np.Length && nl + nl + 1 <= r.Length && r != np
    requires Cancels(n0, np[0]) && Val(np[..nl]) > 0
    requires Val(r[..nl + nl + 1]) < Up(Val(np[..nl]), nl)
    modifies r
    ensures Up(Val(r[nl..nl + nl + 1]), nl) == old(Val(r[..nl + nl + 1])) + q * Val(np[..nl])
    ensures Val(r[nl..nl + nl + 1]) < 2 * Val(np[..nl])
  {
    var max := nl + nl + 1;
    ghost var t, y := Val(r[..max]), np[..nl];
    q := 0;
    var i := 0;
    while i < nl
      invariant 0 <= i <= nl && np[..nl] == y && Reduced(r[..max], i, t, q, Val(y))
    {
      q := OneRound(r, np, nl, n0, i, max, t, q, y);
      i := i + 1;
    }
    RoundsDone(r[..max], t, q, Val(y), nl);
    assert r[..max][nl..] == r[nl..max];
  }

  method OneRound(r: array<Word>, np: array<Word>, nl: nat, n0: Word, i: nat, max: nat,
                  ghost t: nat, ghost q: nat, ghost y: seq<Word>) returns (ghost q1: nat)
    requires i < nl <= np.Length && max == nl + nl + 1 <= r.Length && r != np
    requires np[..nl] == y && Cancels(n0, y[0]) && Val(y) > 0 && t < Up(Val(y), nl)
    requires Reduced(r[..max], i, t, q, Val(y))
    modifies r
    ensures Reduced(r[..max], i + 1, t, q1, Val(y))
  {
    ghost var s := r[..max];
    ValBound(y);
    RoundRoom(s, i, t, q, Val(y), nl);
    assert s[i..] == r[i..max] && y[0] == np[0];
    ghost var w := ClearWord(r, i, max, np, nl, n0);
    assert r[..max][i..] == r[i..max] && r[..max][..i] == r[..i] && s[..i] == old(r[..i]);
    q1 := RoundDone(s, r[..max], i, t, q, Val(y), w);
  }

  lemma RoundsDone(s: seq<Word>, t: nat, q: nat, v: nat, n: nat)
    requires |s| == n + n + 1 && Reduced(s, n, t, q, v) && t < Up(v, n)
    ensures Up(Val(s[n..]), n) == t + q * v && Val(s[n..]) < 2 * v
  {
    ValSplit(s, n);
    ValZeros(s[..n]);
    TimesBelow(q, v, n);
    UpAdd(v, v, n);
    UpMono(2 * v, Val(s[n..]), n);
  }
}
