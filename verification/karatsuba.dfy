/** bn_mul_recursive: Karatsuba multiplication of two arrays whose length is a power
    of two. */
module Karatsuba {
  import opened Words
  import opened Kernels
  import opened Columns
  import opened Multiply

  // ----- the signed product of the differences of the halves

  function Abs(x: int): nat {
    if x < 0 then -x else x
  }

  /** A subtraction of the smaller from the larger does not borrow. */
  lemma NoBorrow(v: nat, c: nat, n: nat, d: int)
    requires v - Up(c, n) == d && 0 <= d && v < Pow(n)
    ensures v == d && c == 0
  {
    UpMono(1, c, n);
    UpZero(n);
  }

  /** bn_sub_words of the two halves of a, in the order that does not borrow. */
  method HalfDifference(t: array<Word>, to: nat, a: array<Word>, lo: nat, hi: nat, n: nat, swap: bool,
                        ghost x: seq<Word>, ghost y: seq<Word>)
    requires to + n <= t.Length && lo + n <= a.Length && hi + n <= a.Length
    requires Apart(t, to, n, a, lo, n) && Apart(t, to, n, a, hi, n)
    requires a[lo..lo + n] == x && a[hi..hi + n] == y
    requires if swap then Val(x) <= Val(y) else Val(x) >= Val(y)
    modifies t
    ensures Val(t[to..to + n]) == Abs(Val(x) - Val(y)) && a[lo..lo + n] == x && a[hi..hi + n] == y
    ensures forall k :: 0 <= k < t.Length && !(to <= k < to + n) ==> t[k] == old(t[k])
  {
    var c;
    if swap {
      c := SubWords(t, to, a, hi, a, lo, n);
    } else {
      c := SubWords(t, to, a, lo, a, hi, n);
    }
    ValBound(t[to..to + n]);
    NoBorrow(Val(t[to..to + n]), c, n, Abs(Val(x) - Val(y)));
  }

  /** The words of a are the halves x0 and x1. */
  ghost predicate Halves(a: array<Word>, ao: nat, n: nat, x0: seq<Word>, x1: seq<Word>)
    reads a
  {
    ao + n + n <= a.Length && a[ao..ao + n] == x0 && a[ao + n..ao + n + n] == x1
  }

  /** The differences of the halves of a and of b side by side. */
  method TwoDifferences(t: array<Word>, to: nat, a: array<Word>, ao: nat, b: array<Word>, bo: nat, n: nat,
                        swapA: bool, swapB: bool,
                        ghost x0: seq<Word>, ghost x1: seq<Word>, ghost y0: seq<Word>, ghost y1: seq<Word>)
    requires to + n + n <= t.Length && Halves(a, ao, n, x0, x1) && Halves(b, bo, n, y0, y1)
    requires Apart(t, to, n + n, a, ao, n + n) && Apart(t, to, n + n, b, bo, n + n)
    requires if swapA then Val(x0) <= Val(x1) else Val(x0) >= Val(x1)
    requires if swapB then Val(y1) <= Val(y0) else Val(y1) >= Val(y0)
    modifies t
    ensures Val(t[to..to + n]) == Abs(Val(x0) - Val(x1)) && Val(t[to + n..to + n + n]) == Abs(Val(y1) - Val(y0))
    ensures Halves(a, ao, n, x0, x1) && Halves(b, bo, n, y0, y1)
    ensures forall k :: 0 <= k < t.Length && !(to <= k < to + n + n) ==> t[k] == old(t[k])
  {
    HalfDifference(t, to, a, ao, ao + n, n, swapA, x0, x1);
    assert Halves(b, bo, n, y0, y1);
    SecondDifference(t, to, a, ao, b, bo, n, swapB, x0, x1, y0, y1, Abs(Val(x0) - Val(x1)));
  }

  /** The difference of the halves of b, behind the one already there. */
  method SecondDifference(t: array<Word>, to: nat, a: array<Word>, ao: nat, b: array<Word>, bo: nat, n: nat,
                          swapB: bool, ghost x0: seq<Word>, ghost x1: seq<Word>, ghost y0: seq<Word>,
                          ghost y1: seq<Word>, ghost d: nat)
    requires to + n + n <= t.Length && Halves(a, ao, n, x0, x1) && Halves(b, bo, n, y0, y1)
    requires Apart(t, to, n + n, a, ao, n + n) && Apart(t, to, n + n, b, bo, n + n)
    requires Val(t[to..to + n]) == d
    requires if swapB then Val(y1) <= Val(y0) else Val(y1) >= Val(y0)
    modifies t
    ensures Val(t[to..to + n]) == d && Val(t[to + n..to + n + n]) == Abs(Val(y1) - Val(y0))
    ensures Halves(a, ao, n, x0, x1) && Halves(b, bo, n, y0, y1)
    ensures forall k :: 0 <= k < t.Length && !(to + n <= k < to + n + n) ==> t[k] == old(t[k])
  {
    ghost var w := t[to..to + n];
    PartsApart(t, to, n + n, a, ao, n + n, to + n, n, ao, n + n);
    PartsApart(t, to, n + n, b, bo, n + n, to + n, n, bo, n + n);
    DifferenceOfB(t, to + n, a, ao, b, bo, n, swapB, x0, x1, y0, y1);
    assert t[to..to + n] == w;
  }

  method DifferenceOfB(t: array<Word>, to: nat, ghost a: array<Word>, ghost ao: nat, b: array<Word>, bo: nat, n: nat,
                       swapB: bool, ghost x0: seq<Word>, ghost x1: seq<Word>, ghost y0: seq<Word>, ghost y1: seq<Word>)
    requires to + n <= t.Length && Halves(a, ao, n, x0, x1) && Halves(b, bo, n, y0, y1)
    requires Apart(t, to, n, a, ao, n + n) && Apart(t, to, n, b, bo, n + n)
    requires if swapB then Val(y1) <= Val(y0) else Val(y1) >= Val(y0)
    modifies t
    ensures Val(t[to..to + n]) == Abs(Val(y1) - Val(y0))
    ensures Halves(a, ao, n, x0, x1) && Halves(b, bo, n, y0, y1)
    ensures forall k :: 0 <= k < t.Length && !(to <= k < to + n) ==> t[k] == old(t[k])
  {
    HalfDifference(t, to, b, bo + n, bo, n, swapB, y1, y0);
    assert Halves(a, ao, n, x0, x1);
  }

  /** The switch over c1 * 3 + c2: |a0 - a1| and |b1 - b0| side by side in t and the
      sign of (a0 - a1) * (b1 - b0). The four cases that compute anything differ in
      the order of the operands. */
  method Differences(t: array<Word>, to: nat, a: array<Word>, ao: nat, b: array<Word>, bo: nat, n: nat,
                     ghost x0: seq<Word>, ghost x1: seq<Word>, ghost y0: seq<Word>, ghost y1: seq<Word>)
    returns (zero: bool, neg: bool)
    requires to + n + n <= t.Length && Halves(a, ao, n, x0, x1) && Halves(b, bo, n, y0, y1)
    requires Apart(t, to, n + n, a, ao, n + n) && Apart(t, to, n + n, b, bo, n + n)
    modifies t
    ensures DifferencesOf(Val(x0) - Val(x1), Val(y1) - Val(y0), Val(t[to..to + n]), Val(t[to + n..to + n + n]),
                          zero, neg)
    ensures Halves(a, ao, n, x0, x1) && Halves(b, bo, n, y0, y1)
    ensures forall k :: 0 <= k < t.Length && !(to <= k < to + n + n) ==> t[k] == old(t[k])
  {
    var c1 := CmpWords(a, ao, a, ao + n, n);
    var c2 := CmpWords(b, bo + n, b, bo, n);
    zero, neg := false, false;
    match c1 * 3 + c2 {
      case -4 =>
        TwoDifferences(t, to, a, ao, b, bo, n, true, true, x0, x1, y0, y1);
      case -2 =>
        TwoDifferences(t, to, a, ao, b, bo, n, true, false, x0, x1, y0, y1);
        neg := true;
      case 2 =>
        TwoDifferences(t, to, a, ao, b, bo, n, false, true, x0, x1, y0, y1);
        neg := true;
      case 4 =>
        TwoDifferences(t, to, a, ao, b, bo, n, false, false, x0, x1, y0, y1);
      case _ =>
        zero := true;
    }
  }

  /** u and v are the sizes of d and e and neg the sign of d * e, or d * e is zero. */
  ghost predicate DifferencesOf(d: int, e: int, u: nat, v: nat, zero: bool, neg: bool) {
    if zero then (d == 0 || e == 0) && !neg
    else u == Abs(d) && v == Abs(e) && neg == ((d < 0) != (e < 0))
  }

  // ----- adding the middle term

  function Signed(x: int, y: int, neg: bool): int {
    if neg then x - y else x + y
  }

  /** t[m..) is added to t[..m) or, if neg, subtracted from it. */
  method AddSigned(t: array<Word>, to: nat, m: nat, neg: bool) returns (d: int)
    requires to + m + m <= t.Length
    modifies t
    ensures -1 <= d <= 1
    ensures Val(t[to + m..to + m + m]) + Up(d, m)
            == old(Signed(Val(t[to..to + m]), Val(t[to + m..to + m + m]), neg))
    ensures forall k :: 0 <= k < t.Length && !(to + m <= k < to + m + m) ==> t[k] == old(t[k])
  {
    if neg {
      var c: int := SubWords(t, to + m, t, to, t, to + m, m);
      UpAdd(0, c, m);
      UpZero(m);
      d := -c;
    } else {
      d := AddWords(t, to + m, t, to + m, t, to, m);
    }
  }

  /** t[m..) and the carry become a0*b0 + a1*b1 with the product of the differences
      added or, if neg, subtracted. */
  method Middle(r: array<Word>, ro: nat, m: nat, t: array<Word>, to: nat, neg: bool) returns (c1: int)
    requires ro + m + m <= r.Length && to + m + m <= t.Length
    requires Apart(t, to, m + m, r, ro, m + m)
    modifies t
    ensures -1 <= c1 <= 2
    ensures Val(t[to + m..to + m + m]) + Up(c1, m) ==
      old(Signed(Val(r[ro..ro + m]) + Val(r[ro + m..ro + m + m]), Val(t[to + m..to + m + m]), neg))
    ensures forall k :: 0 <= k < t.Length && !(to <= k < to + m + m) ==> t[k] == old(t[k])
  {
    ghost var u := t[to + m..to + m + m];
    c1 := AddWords(t, to, r, ro, r, ro + m, m);
    assert t[to + m..to + m + m] == u;
    var d := AddSigned(t, to, m, neg);
    UpAdd(c1, d, m);
    c1 := c1 + d;
  }

  /** The value of three adjacent windows. */
  lemma ValThree(r: array<Word>, ro: nat, n: nat, m: nat, k: nat)
    requires ro + n + m + k <= r.Length
    ensures Val(r[ro..ro + n + m + k]) ==
      Three(Val(r[ro..ro + n]), Val(r[ro + n..ro + n + m]), Val(r[ro + n + m..ro + n + m + k]), n, m)
  {
    var s := r[ro + n..ro + n + m + k];
    assert s == r[ro + n..ro + n + m] + r[ro + n + m..ro + n + m + k];
    ValAppend(r[ro + n..ro + n + m], r[ro + n + m..ro + n + m + k]);
    assert r[ro..ro + n + m + k] == r[ro..ro + n] + s;
    ValAppend(r[ro..ro + n], s);
  }

  function Three(low: int, mid: int, top: int, n: nat, m: nat): int {
    low + Up(mid + Up(top, m), n)
  }

  /** A number below a power, written with a multiple of a lower power in it. */
  lemma TopFits(u: nat, v: nat, w: int, n: nat, m: nat, k: nat)
    requires u + Up(v + Up(w, m), n) < Pow(n + m + k)
    ensures w < Pow(k)
  {
    if w >= Pow(k) {
      UpMono(Pow(k), w, m);
      UpUp(1, k, m);
      UpMono(Up(Pow(k), m), v + Up(w, m), n);
      UpUp(1, m + k, n);
    }
  }

  lemma MiddleCarry(c1: int, u: nat, m: nat)
    requires u < Pow(m) && 0 <= u + Up(c1, m) < 2 * Pow(m)
    ensures 0 <= c1 <= 1
  {
    if c1 < 0 {
      UpMono(c1, -1, m);
      UpAdd(0, 1, m);
      UpZero(m);
    } else if c1 > 1 {
      UpMono(2, c1, m);
      UpAdd(1, 1, m);
    }
  }

  /** What is gained when mid becomes mid1 with the carry c on adding u and the
      carries c and c1 go into top. */
  lemma GainMiddle(low: int, mid: int, top: int, mid1: int, c: int, c1: int, u: int, n: nat, m: nat)
    requires mid1 + Up(c, m) == mid + u
    ensures Three(low, mid1, top + c + c1, n, m) == Three(low, mid, top, n, m) + Up(u + Up(c1, m), n)
  {
    UpAdd(top + c, c1, m);
    UpAdd(top, c, m);
    UpAdd(mid + Up(top, m), u + Up(c1, m), n);
  }

  /** The carries leave room in top for themselves. */
  lemma CarriesFit(low: nat, mid: int, top: int, mid1: nat, c: nat, c1: int, u: nat, n: nat, m: nat)
    requires mid1 + Up(c, m) == mid + u
    requires u < Pow(m) && 0 <= u + Up(c1, m) < 2 * Pow(m)
    requires Three(low, mid, top, n, m) + Up(u + Up(c1, m), n) < Pow(n + m + n)
    ensures 0 <= c1 <= 1 && top + c + c1 < Pow(n)
  {
    MiddleCarry(c1, u, m);
    GainMiddle(low, mid, top, mid1, c, c1, u, n, m);
    TopFits(low, mid1, top + c + c1, n, m, n);
  }

  /** Propagation of the last carry k, if there is one, into the top n words. */
  method CarryIntoTop(r: array<Word>, ro: nat, n: nat, m: nat, k: int, ghost total: int)
    requires 0 < n && ro + n + m + n <= r.Length && 0 <= k <= 2
    requires Val(r[ro + n + m..ro + n + m + n]) + k < Pow(n)
    requires total == Three(Val(r[ro..ro + n]), Val(r[ro + n..ro + n + m]),
                            Val(r[ro + n + m..ro + n + m + n]) + k, n, m)
    modifies r
    ensures Val(r[ro..ro + n + m + n]) == total
    ensures forall i :: 0 <= i < r.Length && !(ro <= i < ro + n + m + n) ==> r[i] == old(r[i])
  {
    if k != 0 {
      ghost var low, mid := r[ro..ro + n], r[ro + n..ro + n + m];
      Propagate(r, ro + n + m, k, ro + n + m + n);
      assert r[ro..ro + n] == low;
      assert r[ro + n..ro + n + m] == mid;
    }
    ValThree(r, ro, n, m, n);
  }

  /** The last addition of bn_mul_recursive and bn_sqr_recursive and the propagation
      of its carry, which is at most 2 and stays inside r: r gains the middle term,
      t with the top word c1, from its word n on. */
  method AddMiddle(r: array<Word>, ro: nat, n: nat, m: nat, t: array<Word>, to: nat, c1: int, ghost v: nat)
    requires 0 < n && -1 <= c1 <= 2
    requires ro + n + m + n <= r.Length && to + m <= t.Length
    requires Apart(r, ro, n + m + n, t, to, m)
    requires v == Val(t[to..to + m]) + Up(c1, m) < 2 * Pow(m)
    requires Val(r[ro..ro + n + m + n]) + Up(v, n) < Pow(n + m + n)
    modifies r
    ensures Val(r[ro..ro + n + m + n]) == old(Val(r[ro..ro + n + m + n])) + Up(v, n)
    ensures forall k :: 0 <= k < r.Length && !(ro <= k < ro + n + m + n) ==> r[k] == old(r[k])
  {
    ValThree(r, ro, n, m, n);
    ghost var low, mid, top := r[ro..ro + n], r[ro + n..ro + n + m], r[ro + n + m..ro + n + m + n];
    ghost var u, total := Val(t[to..to + m]), Val(r[ro..ro + n + m + n]) + Up(v, n);
    ValBound(t[to..to + m]);
    var c: int := AddWords(r, ro + n, r, ro + n, t, to, m);
    ghost var mid1 := r[ro + n..ro + n + m];
    assert r[ro + n + m..ro + n + m + n] == top && r[ro..ro + n] == low;
    CarriesFit(Val(low), Val(mid), Val(top), Val(mid1), c, c1, u, n, m);
    GainMiddle(Val(low), Val(mid), Val(top), Val(mid1), c, c1, u, n, m);
    CarryIntoTop(r, ro, n, m, c + c1, total);
  }

  /** The value of two adjacent windows. */
  lemma ValTwo(r: array<Word>, ro: nat, n: nat, m: nat)
    requires ro + n + m <= r.Length
    ensures Val(r[ro..ro + n + m]) == Val(r[ro..ro + n]) + Up(Val(r[ro + n..ro + n + m]), n)
  {
    assert r[ro..ro + n + m] == r[ro..ro + n] + r[ro + n..ro + n + m];
    ValAppend(r[ro..ro + n], r[ro + n..ro + n + m]);
  }

  /** A number of m words from its halves. */
  lemma ValHalves(r: array<Word>, ro: nat, n: nat, m: nat, x0: seq<Word>, x1: seq<Word>)
    requires ro + m <= r.Length && m == n + n && x0 == r[ro..ro + n] && x1 == r[ro + n..ro + m]
    ensures Val(r[ro..ro + m]) == Val(x0) + Up(Val(x1), n)
  {
    assert ro + n + n == ro + m;
    ValTwo(r, ro, n, n);
  }

  /** No word of x changed but those in x[xo..xo + n) and y[yo..yo + m). */
  twostate predicate Outside(x: array<Word>, xo: nat, n: nat, y: array<Word>, yo: nat, m: nat)
    reads x
  {
    forall k :: 0 <= k < x.Length && !(xo <= k < xo + n) && (x == y ==> !(yo <= k < yo + m)) ==> x[k] == old(x[k])
  }

  /** Everything after the half products: r holds a0*b0 and a1*b1 side by side, and
      gains the middle term v. */
  method FinishMiddle(r: array<Word>, ro: nat, n: nat, m: nat, t: array<Word>, to: nat, neg: bool, ghost v: nat)
    requires 0 < n && m == n + n
    requires ro + m + m <= r.Length && to + m + m <= t.Length
    requires Apart(t, to, m + m, r, ro, m + m)
    requires v == Signed(Val(r[ro..ro + m]) + Val(r[ro + m..ro + m + m]), Val(t[to + m..to + m + m]), neg) < 2 * Pow(m)
    requires Val(r[ro..ro + m + m]) + Up(v, n) < Pow(m + m)
    modifies r, t
    ensures Val(r[ro..ro + m + m]) == old(Val(r[ro..ro + m + m])) + Up(v, n)
    ensures Outside(r, ro, m + m, t, to, m + m) && Outside(t, to, m + m, r, ro, m + m)
  {
    ghost var u := r[ro..ro + m + m];
    var c1 := Middle(r, ro, m, t, to, neg);
    assert r[ro..ro + m + m] == u;
    assert m + m == n + m + n;
    AddMiddle(r, ro, n, m, t, to + m, c1, v);
  }

  // ----- the recursion

  lemma Cross4(a: int, b: int, c: int, d: int)
    ensures (a + b) * (c + d) == a * c + a * d + b * c + b * d
    ensures (a - b) * (d - c) == a * d - a * c - b * d + b * c
  {
  }

  /** The product of two numbers given by halves. */
  lemma KaratsubaIdentity(x0: int, x1: int, y0: int, y1: int, n: nat)
    ensures (x0 + Up(x1, n)) * (y0 + Up(y1, n)) == x0 * y0 + Up(x1 * y1, n + n) + Up(x0 * y1 + x1 * y0, n)
  {
    Cross4(x0, Up(x1, n), y0, Up(y1, n));
    UpMul(x0, y1, n);
    UpMul(y0, x1, n);
    UpProduct(x1, y1, n);
    UpAdd(x0 * y1, y0 * x1, n);
  }

  /** The middle term of the product from the differences of the halves. */
  lemma MiddleTerm(x0: nat, x1: nat, y0: nat, y1: nat, u: nat, w: nat, zero: bool, neg: bool, n: nat) returns (v: nat)
    requires x0 < Pow(n) && x1 < Pow(n) && y0 < Pow(n) && y1 < Pow(n)
    requires DifferencesOf(x0 - x1, y1 - y0, u, w, zero, neg)
    ensures v == x0 * y1 + x1 * y0 < 2 * Pow(n + n)
    ensures v == Signed(x0 * y0 + x1 * y1, if zero then 0 else u * w, neg)
  {
    v := x0 * y1 + x1 * y0;
    Cross4(x0, x1, y0, y1);
    SignedProduct(x0 - x1, y1 - y0, u, w, zero, neg);
    BelowSquare(x0, y1, n);
    BelowSquare(x1, y0, n);
  }

  lemma BelowSquare(x: nat, y: nat, n: nat)
    requires x < Pow(n) && y < Pow(n)
    ensures x * y < Pow(n + n)
  {
    PowAdd(n, n);
    ProductBound(x, y, Pow(n), Pow(n));
  }

  lemma SignedProduct(d: int, e: int, u: nat, w: nat, zero: bool, neg: bool)
    requires DifferencesOf(d, e, u, w, zero, neg)
    ensures d * e == Signed(0, if zero then 0 else u * w, neg)
  {
    if !zero {
      assert u == d || u == -d;
      assert w == e || w == -e;
    }
  }

  /** The lengths bn_mul_recursive is meant for. */
  predicate PowerOfTwo(n: nat) {
    n == 1 || (n > 1 && n % 2 == 0 && PowerOfTwo(n / 2))
  }

  /** The words of scratch space a call uses: more than the 2 * n the source's
      comment asks for once n is 32, but within the 4 * n that BN_mul provides. */
  function Scratch(n: nat): (s: nat)
    ensures s <= 4 * n
  {
    if n < 16 then 0 else 2 * n + Scratch(n / 2)
  }

  /** The 2 * n words of the comment are enough exactly for one level of recursion. */
  lemma ScratchAsked(n: nat)
    ensures Scratch(n) <= 2 * n <==> n < 32
  {
    if n >= 32 {
      assert Scratch(n / 2) == 2 * (n / 2) + Scratch(n / 2 / 2);
    } else if n >= 16 {
      assert Scratch(n / 2) == 0;
    }
  }

  /** bn_mul_recursive. For 16 words the source calls bn_mul_comba8 in place of the
      recursive calls, which would do the same. */
  method MulRecursive(r: array<Word>, ro: nat, a: array<Word>, ao: nat, b: array<Word>, bo: nat, n2: nat,
                      t: array<Word>, to: nat)
    requires PowerOfTwo(n2)
    requires ro + n2 + n2 <= r.Length && ao + n2 <= a.Length && bo + n2 <= b.Length && to + Scratch(n2) <= t.Length
    requires Apart(r, ro, n2 + n2, a, ao, n2) && Apart(r, ro, n2 + n2, b, bo, n2)
    requires Apart(t, to, Scratch(n2), a, ao, n2) && Apart(t, to, Scratch(n2), b, bo, n2)
    requires Apart(t, to, Scratch(n2), r, ro, n2 + n2)
    modifies r, t
    ensures Val(r[ro..ro + n2 + n2]) == old(Val(a[ao..ao + n2]) * Val(b[bo..bo + n2]))
    ensures Outside(r, ro, n2 + n2, t, to, Scratch(n2)) && Outside(t, to, Scratch(n2), r, ro, n2 + n2)
    decreases n2, 7
  {
    assert ro + n2 + n2 == ro + 2 * n2;
    if n2 == 8 {
      MulComba(r, ro, a, ao, b, bo, n2);
    } else if n2 < 16 {
      MulNormal(r, ro, a, ao, n2, b, bo, n2);
    } else {
      MulHalves(r, ro, a, ao, b, bo, n2 / 2, n2, t, to);
    }
  }

  method MulHalves(r: array<Word>, ro: nat, a: array<Word>, ao: nat, b: array<Word>, bo: nat, n: nat, m: nat,
                   t: array<Word>, to: nat)
    requires m == n + n >= 16 && PowerOfTwo(n)
    requires ro + m + m <= r.Length && ao + m <= a.Length && bo + m <= b.Length && to + Scratch(m) <= t.Length
    requires Apart(r, ro, m + m, a, ao, m) && Apart(r, ro, m + m, b, bo, m)
    requires Apart(t, to, Scratch(m), a, ao, m) && Apart(t, to, Scratch(m), b, bo, m)
    requires Apart(t, to, Scratch(m), r, ro, m + m)
    modifies r, t
    ensures Val(r[ro..ro + m + m]) == old(Val(a[ao..ao + m]) * Val(b[bo..bo + m]))
    ensures Outside(r, ro, m + m, t, to, Scratch(m)) && Outside(t, to, Scratch(m), r, ro, m + m)
    decreases m, 6
  {
    ghost var x0, x1, y0, y1 := a[ao..ao + n], a[ao + n..ao + m], b[bo..bo + n], b[bo + n..bo + m];
    ValHalves(a, ao, n, m, x0, x1);
    ValHalves(b, bo, n, m, y0, y1);
    ghost var va, vb := Val(a[ao..ao + m]), Val(b[bo..bo + m]);
    MulOfHalves(r, ro, a, ao, b, bo, n, m, t, to, x0, x1, y0, y1, va, vb);
  }

  method MulOfHalves(r: array<Word>, ro: nat, a: array<Word>, ao: nat, b: array<Word>, bo: nat, n: nat, m: nat,
                     t: array<Word>, to: nat, ghost x0: seq<Word>, ghost x1: seq<Word>, ghost y0: seq<Word>,
                     ghost y1: seq<Word>, ghost va: nat, ghost vb: nat)
    requires m == n + n >= 16 && PowerOfTwo(n)
    requires ro + m + m <= r.Length && to + Scratch(m) <= t.Length
    requires Apart(r, ro, m + m, a, ao, m) && Apart(r, ro, m + m, b, bo, m)
    requires Apart(t, to, Scratch(m), a, ao, m) && Apart(t, to, Scratch(m), b, bo, m)
    requires Apart(t, to, Scratch(m), r, ro, m + m)
    requires Halves(a, ao, n, x0, x1) && Halves(b, bo, n, y0, y1)
    requires va == Val(x0) + Up(Val(x1), n) && vb == Val(y0) + Up(Val(y1), n)
    modifies r, t
    ensures Val(r[ro..ro + m + m]) == va * vb
    ensures Outside(r, ro, m + m, t, to, Scratch(m)) && Outside(t, to, Scratch(m), r, ro, m + m)
    decreases m, 5
  {
    PartsApart(t, to, Scratch(m), a, ao, m, to, n + n, ao, n + n);
    PartsApart(t, to, Scratch(m), b, bo, m, to, n + n, bo, n + n);
    var zero, neg := Differences(t, to, a, ao, b, bo, n, x0, x1, y0, y1);
    MulWithDifferences(r, ro, a, ao, b, bo, n, m, t, to, zero, neg, x0, x1, y0, y1, va, vb);
  }

  method MulWithDifferences(r: array<Word>, ro: nat, a: array<Word>, ao: nat, b: array<Word>, bo: nat, n: nat, m: nat,
                            t: array<Word>, to: nat, zero: bool, neg: bool,
                            ghost x0: seq<Word>, ghost x1: seq<Word>, ghost y0: seq<Word>, ghost y1: seq<Word>,
                            ghost va: nat, ghost vb: nat)
    requires m == n + n >= 16 && PowerOfTwo(n)
    requires ro + m + m <= r.Length && ao + m <= a.Length && bo + m <= b.Length && to + Scratch(m) <= t.Length
    requires Apart(r, ro, m + m, a, ao, m) && Apart(r, ro, m + m, b, bo, m)
    requires Apart(t, to, Scratch(m), a, ao, m) && Apart(t, to, Scratch(m), b, bo, m)
    requires Apart(t, to, Scratch(m), r, ro, m + m)
    requires Halves(a, ao, n, x0, x1) && Halves(b, bo, n, y0, y1)
    requires DifferencesOf(Val(x0) - Val(x1), Val(y1) - Val(y0), Val(t[to..to + n]), Val(t[to + n..to + n + n]),
                           zero, neg)
    requires va == Val(x0) + Up(Val(x1), n) && vb == Val(y0) + Up(Val(y1), n)
    modifies r, t
    ensures Val(r[ro..ro + m + m]) == va * vb
    ensures Outside(r, ro, m + m, t, to, Scratch(m)) && Outside(t, to, Scratch(m), r, ro, m + m)
    decreases m, 4
  {
    ghost var v, z0, z1, d := MiddleOfHalves(x0, x1, y0, y1, Val(t[to..to + n]), Val(t[to + n..to + n + n]), zero, neg);
    MulCombined(r, ro, a, ao, b, bo, n, m, t, to, zero, neg, x0, x1, y0, y1, z0, z1, d, v, va * vb);
  }

  /** The recursive calls and what follows them, for a middle term v. */
  method MulCombined(r: array<Word>, ro: nat, a: array<Word>, ao: nat, b: array<Word>, bo: nat, n: nat, m: nat,
                     t: array<Word>, to: nat, zero: bool, neg: bool,
                     ghost x0: seq<Word>, ghost x1: seq<Word>, ghost y0: seq<Word>, ghost y1: seq<Word>,
                     ghost z0: nat, ghost z1: nat, ghost d: nat, ghost v: nat, ghost z: int)
    requires m == n + n >= 16 && PowerOfTwo(n)
    requires ro + m + m <= r.Length && to + Scratch(m) <= t.Length
    requires Apart(r, ro, m + m, a, ao, m) && Apart(r, ro, m + m, b, bo, m)
    requires Apart(t, to, Scratch(m), a, ao, m) && Apart(t, to, Scratch(m), b, bo, m)
    requires Apart(t, to, Scratch(m), r, ro, m + m)
    requires Halves(a, ao, n, x0, x1) && Halves(b, bo, n, y0, y1)
    requires z0 == Val(x0) * Val(y0) && z1 == Val(x1) * Val(y1)
    requires d == if zero then 0 else Val(t[to..to + n]) * Val(t[to + n..to + n + n])
    requires v == Signed(z0 + z1, d, neg) < 2 * Pow(m) && z0 + Up(z1, m) + Up(v, n) == z < Pow(m + m)
    modifies r, t
    ensures Val(r[ro..ro + m + m]) == z
    ensures Outside(r, ro, m + m, t, to, Scratch(m)) && Outside(t, to, Scratch(m), r, ro, m + m)
    decreases m, 3
  {
    HalfProducts(r, ro, a, ao, b, bo, n, m, t, to, zero, x0, x1, y0, y1, z0, z1, d);
    ValTwo(r, ro, m, m);
    PartsApart(t, to, Scratch(m), r, ro, m + m, to, m + m, ro, m + m);
    FinishMiddle(r, ro, n, m, t, to, neg, v);
  }

  function Times(x: nat, y: nat): (p: nat)
    ensures p == x * y
  {
    MulNonNeg(x, y);
    x * y
  }

  /** The product of two numbers given by halves, as the recursion puts it together. */
  lemma MiddleOfHalves(x0: seq<Word>, x1: seq<Word>, y0: seq<Word>, y1: seq<Word>, u: nat, w: nat, zero: bool,
                       neg: bool)
    returns (v: nat, z0: nat, z1: nat, d: nat)
    requires |x0| == |x1| == |y0| == |y1|
    requires DifferencesOf(Val(x0) - Val(x1), Val(y1) - Val(y0), u, w, zero, neg)
    ensures z0 == Val(x0) * Val(y0) && z1 == Val(x1) * Val(y1) && d == if zero then 0 else u * w
    ensures var n, m := |x0|, |x0| + |x0|;
            && v == Signed(z0 + z1, d, neg) < 2 * Pow(m)
            && z0 + Up(z1, m) + Up(v, n) == (Val(x0) + Up(Val(x1), n)) * (Val(y0) + Up(Val(y1), n)) < Pow(m + m)
  {
    var n, m := |x0|, |x0| + |x0|;
    ValBound(x0);
    ValBound(x1);
    ValBound(y0);
    ValBound(y1);
    v := MiddleTerm(Val(x0), Val(x1), Val(y0), Val(y1), u, w, zero, neg, n);
    KaratsubaIdentity(Val(x0), Val(x1), Val(y0), Val(y1), n);
    ValAppend(x0, x1);
    ValAppend(y0, y1);
    ValProductBound(x0 + x1, y0 + y1);
    z0, z1 := Times(Val(x0), Val(y0)), Times(Val(x1), Val(y1));
    d := if zero then 0 else Times(u, w);
  }

  /** The three recursive calls. */
  method HalfProducts(r: array<Word>, ro: nat, a: array<Word>, ao: nat, b: array<Word>, bo: nat, n: nat, m: nat,
                      t: array<Word>, to: nat, zero: bool,
                      ghost x0: seq<Word>, ghost x1: seq<Word>, ghost y0: seq<Word>, ghost y1: seq<Word>,
                      ghost z0: nat, ghost z1: nat, ghost d: nat)
    requires m == n + n >= 16 && PowerOfTwo(n)
    requires ro + m + m <= r.Length && ao + m <= a.Length && bo + m <= b.Length && to + Scratch(m) <= t.Length
    requires Apart(r, ro, m + m, a, ao, m) && Apart(r, ro, m + m, b, bo, m)
    requires Apart(t, to, Scratch(m), a, ao, m) && Apart(t, to, Scratch(m), b, bo, m)
    requires Apart(t, to, Scratch(m), r, ro, m + m)
    requires Halves(a, ao, n, x0, x1) && Halves(b, bo, n, y0, y1)
    requires z0 == Val(x0) * Val(y0) && z1 == Val(x1) * Val(y1)
    requires d == if zero then 0 else Val(t[to..to + n]) * Val(t[to + n..to + n + n])
    modifies r, t
    ensures Val(t[to + m..to + m + m]) == d
    ensures Val(r[ro..ro + m]) == z0 && Val(r[ro + m..ro + m + m]) == z1
    ensures Outside(r, ro, m + m, t, to, Scratch(m)) && Outside(t, to, Scratch(m), r, ro, m + m)
    decreases m, 2
  {
    MulDifferences(t, to, n, m, zero, d);
    OuterProducts(r, ro, a, ao, b, bo, n, m, t, to, x0, x1, y0, y1, z0, z1, d);
  }

  /** The other two calls leave the product of the differences alone. */
  method OuterProducts(r: array<Word>, ro: nat, a: array<Word>, ao: nat, b: array<Word>, bo: nat, n: nat, m: nat,
                       t: array<Word>, to: nat,
                       ghost x0: seq<Word>, ghost x1: seq<Word>, ghost y0: seq<Word>, ghost y1: seq<Word>,
                       ghost z0: nat, ghost z1: nat, ghost d: nat)
    requires m == n + n >= 16 && PowerOfTwo(n)
    requires ro + m + m <= r.Length && to + Scratch(m) <= t.Length
    requires Apart(r, ro, m + m, a, ao, m) && Apart(r, ro, m + m, b, bo, m)
    requires Apart(t, to, Scratch(m), a, ao, m) && Apart(t, to, Scratch(m), b, bo, m)
    requires Apart(t, to, Scratch(m), r, ro, m + m)
    requires Halves(a, ao, n, x0, x1) && Halves(b, bo, n, y0, y1)
    requires z0 == Val(x0) * Val(y0) && z1 == Val(x1) * Val(y1) && Val(t[to + m..to + m + m]) == d
    modifies r, t
    ensures Val(t[to + m..to + m + m]) == d
    ensures Val(r[ro..ro + m]) == z0 && Val(r[ro + m..ro + m + m]) == z1
    ensures Outside(r, ro, m + m, t, to, Scratch(m)) && Outside(t, to, Scratch(m), r, ro, m + m)
    decreases m, 1
  {
    ghost var w := t[to + m..to + m + m];
    ApartAbove(t, to, m, a, ao, m);
    ApartAbove(t, to, m, b, bo, m);
    ApartAbove(t, to, m, r, ro, m + m);
    MulOuter(r, ro, a, ao, b, bo, n, m, t, to + m + m, x0, x1, y0, y1, z0, z1);
    assert t[to + m..to + m + m] == w;
  }

  /** The scratch space of the level below lies above the first 2 * m words. */
  lemma ApartAbove(t: array<Word>, to: nat, m: nat, a: array<Word>, ao: nat, k: nat)
    requires m % 2 == 0 && m >= 16 && Apart(t, to, Scratch(m), a, ao, k)
    ensures Apart(t, to + m + m, Scratch(m / 2), a, ao, k)
  {
  }

  /** memset of words */
  method ClearWords(t: array<Word>, to: nat, m: nat)
    requires to + m <= t.Length
    modifies t
    ensures Val(t[to..to + m]) == 0
    ensures forall k :: 0 <= k < t.Length && !(to <= k < to + m) ==> t[k] == old(t[k])
  {
    forall i | to <= i < to + m {
      t[i] := 0;
    }
    ValZeros(t[to..to + m]);
  }

  method MulDifferences(t: array<Word>, to: nat, n: nat, m: nat, zero: bool, ghost d: nat)
    requires m == n + n >= 16 && PowerOfTwo(n) && to + Scratch(m) <= t.Length
    requires d == if zero then 0 else Val(t[to..to + n]) * Val(t[to + n..to + n + n])
    modifies t
    ensures Val(t[to + m..to + m + m]) == d
    ensures forall k :: 0 <= k < t.Length && !(to <= k < to + Scratch(m)) ==> t[k] == old(t[k])
    decreases m, 0
  {
    if zero {
      ClearWords(t, to + m, m);
    } else {
      MulRecursive(t, to + m, t, to, t, to + n, n, t, to + m + m);
    }
  }

  method MulOuter(r: array<Word>, ro: nat, a: array<Word>, ao: nat, b: array<Word>, bo: nat, n: nat, m: nat,
                  p: array<Word>, po: nat,
                  ghost x0: seq<Word>, ghost x1: seq<Word>, ghost y0: seq<Word>, ghost y1: seq<Word>,
                  ghost z0: nat, ghost z1: nat)
    requires m == n + n >= 16 && PowerOfTwo(n)
    requires ro + m + m <= r.Length && ao + m <= a.Length && bo + m <= b.Length && po + Scratch(n) <= p.Length
    requires Apart(r, ro, m + m, a, ao, m) && Apart(r, ro, m + m, b, bo, m)
    requires Apart(p, po, Scratch(n), a, ao, m) && Apart(p, po, Scratch(n), b, bo, m)
    requires Apart(p, po, Scratch(n), r, ro, m + m)
    requires Halves(a, ao, n, x0, x1) && Halves(b, bo, n, y0, y1)
    requires z0 == Val(x0) * Val(y0) && z1 == Val(x1) * Val(y1)
    modifies r, p
    ensures Val(r[ro..ro + m]) == z0 && Val(r[ro + m..ro + m + m]) == z1
    ensures Outside(r, ro, m + m, p, po, Scratch(n)) && Outside(p, po, Scratch(n), r, ro, m + m)
    decreases m, 0
  {
    MulLow(r, ro, a, ao, b, bo, n, m, p, po, x0, x1, y0, y1, z0);
    PartsApart(r, ro, m + m, a, ao, m, ro + m, n + n, ao + n, n);
    PartsApart(r, ro, m + m, b, bo, m, ro + m, n + n, bo + n, n);
    PartsApart(p, po, Scratch(n), a, ao, m, po, Scratch(n), ao + n, n);
    PartsApart(p, po, Scratch(n), b, bo, m, po, Scratch(n), bo + n, n);
    PartsApart(p, po, Scratch(n), r, ro, m + m, po, Scratch(n), ro + m, n + n);
    PartsApart(p, po, Scratch(n), r, ro, m + m, po, Scratch(n), ro, m);
    MulHigh(r, ro + m, a, ao + n, b, bo + n, n, p, po, ro, m, x1, y1, z1, r[ro..ro + m]);
    assert Val(r[ro + m..ro + m + m]) == z1;
  }

  /** The recursive call on the low halves leaves the high halves alone. */
  method MulLow(r: array<Word>, ro: nat, a: array<Word>, ao: nat, b: array<Word>, bo: nat, n: nat, m: nat,
                p: array<Word>, po: nat,
                ghost x0: seq<Word>, ghost x1: seq<Word>, ghost y0: seq<Word>, ghost y1: seq<Word>, ghost z0: nat)
    requires m == n + n && PowerOfTwo(n)
    requires ro + m + m <= r.Length && po + Scratch(n) <= p.Length
    requires Apart(r, ro, m + m, a, ao, m) && Apart(r, ro, m + m, b, bo, m)
    requires Apart(p, po, Scratch(n), a, ao, m) && Apart(p, po, Scratch(n), b, bo, m)
    requires Apart(p, po, Scratch(n), r, ro, m + m)
    requires Halves(a, ao, n, x0, x1) && Halves(b, bo, n, y0, y1) && z0 == Val(x0) * Val(y0)
    modifies r, p
    ensures Val(r[ro..ro + m]) == z0 && a[ao + n..ao + n + n] == x1 && b[bo + n..bo + n + n] == y1
    ensures Outside(r, ro, m, p, po, Scratch(n)) && Outside(p, po, Scratch(n), r, ro, m)
    decreases n, 9
  {
    PartsApart(r, ro, m + m, a, ao, m, ro, n + n, ao, n);
    PartsApart(r, ro, m + m, b, bo, m, ro, n + n, bo, n + n);
    PartsApart(p, po, Scratch(n), a, ao, m, po, Scratch(n), ao, n);
    PartsApart(p, po, Scratch(n), r, ro, m + m, po, Scratch(n), ro, n + n);
    PartsApart(r, ro, m + m, a, ao, m, ro, n + n, ao + n, n);
    PartsApart(p, po, Scratch(n), a, ao, m, po, Scratch(n), ao + n, n);
    MulKeeping(r, ro, a, ao, b, bo, n, p, po, x0, y0, y1, z0);
    assert a[ao + n..ao + n + n] == x1;
  }

  method MulKeeping(r: array<Word>, ro: nat, a: array<Word>, ao: nat, b: array<Word>, bo: nat, n: nat,
                    p: array<Word>, po: nat, ghost x: seq<Word>, ghost y0: seq<Word>, ghost y1: seq<Word>, ghost z: nat)
    requires PowerOfTwo(n)
    requires ro + n + n <= r.Length && ao + n <= a.Length && po + Scratch(n) <= p.Length
    requires Apart(r, ro, n + n, a, ao, n) && Apart(r, ro, n + n, b, bo, n + n)
    requires Apart(p, po, Scratch(n), a, ao, n) && Apart(p, po, Scratch(n), b, bo, n + n)
    requires Apart(p, po, Scratch(n), r, ro, n + n)
    requires a[ao..ao + n] == x && Halves(b, bo, n, y0, y1) && z == Val(x) * Val(y0)
    modifies r, p
    ensures Val(r[ro..ro + n + n]) == z && b[bo + n..bo + n + n] == y1
    ensures Outside(r, ro, n + n, p, po, Scratch(n)) && Outside(p, po, Scratch(n), r, ro, n + n)
    decreases n, 8
  {
    MulRecursive(r, ro, a, ao, b, bo, n, p, po);
    assert b[bo + n..bo + n + n] == y1;
  }

  /** The recursive call on the high halves leaves the low product alone. */
  method MulHigh(r: array<Word>, ro: nat, a: array<Word>, ao: nat, b: array<Word>, bo: nat, n: nat,
                 p: array<Word>, po: nat, ghost lo: nat, ghost k: nat,
                 ghost x: seq<Word>, ghost y: seq<Word>, ghost z: nat, ghost w: seq<Word>)
    requires PowerOfTwo(n)
    requires ro + n + n <= r.Length && ao + n <= a.Length && bo + n <= b.Length && po + Scratch(n) <= p.Length
    requires Apart(r, ro, n + n, a, ao, n) && Apart(r, ro, n + n, b, bo, n)
    requires Apart(p, po, Scratch(n), a, ao, n) && Apart(p, po, Scratch(n), b, bo, n)
    requires Apart(p, po, Scratch(n), r, ro, n + n)
    requires lo + k <= ro && k == n + n && Apart(p, po, Scratch(n), r, lo, k)
    requires a[ao..ao + n] == x && b[bo..bo + n] == y && z == Val(x) * Val(y) && r[lo..lo + k] == w
    modifies r, p
    ensures Val(r[ro..ro + k]) == z && r[lo..lo + k] == w
    ensures Outside(r, ro, n + n, p, po, Scratch(n)) && Outside(p, po, Scratch(n), r, ro, n + n)
    decreases n, 8
  {
    MulRecursive(r, ro, a, ao, b, bo, n, p, po);
  }
}
