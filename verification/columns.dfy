/** Column sums of a product: bn_mul_comba4/8 and bn_sqr_comba4/8, which the source
    writes out term by term for four and eight words. */
module Columns {
  import opened Words
  import opened WordOps
  import opened Kernels

  // ----- the columns of a product

  function At(s: seq<Word>, i: int): (w: Word) {
    if 0 <= i < |s| then s[i] else 0
  }

  /** The terms x[i] * y[k - i] for lo <= i < hi. */
  function Terms(x: seq<Word>, y: seq<Word>, k: nat, lo: nat, hi: nat): int
    decreases hi
  {
    if lo >= hi then 0 else Terms(x, y, k, lo, hi - 1) + Term(x, y, k, hi - 1)
  }

  function Term(x: seq<Word>, y: seq<Word>, k: nat, i: nat): int {
    At(x, i) * At(y, k - i)
  }

  function Column(x: seq<Word>, y: seq<Word>, k: nat): int {
    Terms(x, y, k, 0, k + 1)
  }

  /** The first n columns, each in its place. */
  function ColumnSum(x: seq<Word>, y: seq<Word>, n: nat): int {
    if n == 0 then 0 else ColumnSum(x, y, n - 1) + Up(Column(x, y, n - 1), n - 1)
  }

  lemma {:induction false} TermsShift(a: Word, x: seq<Word>, y: seq<Word>, k: nat, hi: nat)
    ensures Terms([a] + x, y, k + 1, 0, hi + 1) == a * At(y, k + 1) + Terms(x, y, k, 0, hi)
  {
    if hi == 0 {
      assert Terms([a] + x, y, k + 1, 0, 0) == 0;
    } else {
      TermsShift(a, x, y, k, hi - 1);
      assert At([a] + x, hi) == At(x, hi - 1);
    }
  }

  lemma ColumnCons(a: Word, x: seq<Word>, y: seq<Word>, k: nat)
    ensures Column([a] + x, y, k) == a * At(y, k) + if k == 0 then 0 else Column(x, y, k - 1)
  {
    if k == 0 {
      assert Terms([a] + x, y, 0, 0, 0) == 0;
    } else {
      TermsShift(a, x, y, k - 1, k);
    }
  }

  /** The low n words of y. */
  function Low(y: seq<Word>, n: nat): int {
    if n == 0 then 0 else Low(y, n - 1) + Up(At(y, n - 1), n - 1)
  }

  lemma {:induction false} LowIsVal(y: seq<Word>, n: nat)
    ensures Low(y, n) == if n <= |y| then Val(y[..n]) else Val(y)
  {
    if n != 0 {
      LowIsVal(y, n - 1);
      UpZero(n - 1);
      if n <= |y| {
        ValTake(y, n - 1);
      }
      assert y[..|y|] == y;
    }
  }

  lemma {:induction false} ColumnSumCons(a: Word, x: seq<Word>, y: seq<Word>, n: nat)
    ensures ColumnSum([a] + x, y, n) == a * Low(y, n) + if n == 0 then 0 else B * ColumnSum(x, y, n - 1)
  {
    if n != 0 {
      ColumnSumCons(a, x, y, n - 1);
      ColumnCons(a, x, y, n - 1);
      var c := if n == 1 then 0 else Column(x, y, n - 2);
      UpZero(n - 1);
      PlaceColumn(a, Low(y, n), Low(y, n - 1), At(y, n - 1), Column([a] + x, y, n - 1), c, n - 1);
    }
  }

  lemma SplitFactor(a: int, v: int, b: int, c: int)
    requires v == b + c
    ensures a * v == a * b + a * c
  {
  }

  lemma PlaceColumn(a: int, low: int, low0: int, y1: int, col: int, c: int, k: nat)
    requires low == low0 + Up(y1, k) && col == a * y1 + c
    ensures a * low0 + Up(col, k) == a * low + Up(c, k)
  {
    UpAdd(a * y1, c, k);
    UpMul(a, y1, k);
    SplitFactor(a, low, low0, Up(y1, k));
  }

  lemma {:induction false} ColumnsOfNothing(y: seq<Word>, n: nat, k: nat, hi: nat)
    ensures Terms([], y, k, 0, hi) == 0 && ColumnSum([], y, n) == 0
    decreases n, hi
  {
    if hi != 0 {
      ColumnsOfNothing(y, n, k, hi - 1);
    } else if n != 0 {
      ColumnsOfNothing(y, n - 1, n - 1, n);
      UpZero(n - 1);
    }
  }

  /** The columns add up to the product. */
  lemma {:induction false} ColumnsAreProduct(x: seq<Word>, y: seq<Word>)
    ensures ColumnSum(x, y, |x| + |y|) == Val(x) * Val(y)
  {
    if |x| == 0 {
      ColumnsOfNothing(y, |y|, 0, 0);
    } else {
      ColumnsAreProduct(x[1..], y);
      assert x == [x[0]] + x[1..];
      ColumnSumCons(x[0], x[1..], y, |x| + |y|);
      LowIsVal(y, |x| + |y|);
      assert y[..|y|] == y;
      ProductCons(Val(x), x[0], Val(x[1..]), Val(y));
    }
  }

  lemma ProductCons(v: int, a: int, u: int, w: int)
    requires v == a + B * u
    ensures v * w == a * w + B * (u * w)
  {
  }

  // ----- bn_mul_comba

  /** The three-word accumulator of the macros. */
  function Acc(c0: Word, c1: Word, c2: Word): int {
    c0 + B * c1 + B * B * c2
  }

  /** mul_add_c after its mul64: add a double word to the accumulator. */
  method AddDouble(t1: Word, t2: Word, c0: Word, c1: Word, c2: Word) returns (d0: Word, d1: Word, d2: Word)
    requires t1 + B * t2 <= (B - 1) * (B - 1)
    requires Acc(c0, c1, c2) + t1 + B * t2 < B * B * B
    ensures Acc(d0, d1, d2) == Acc(c0, c1, c2) + t1 + B * t2
  {
    d0 := Add(c0, t1);
    var t: Word := t2;
    if d0 < t1 {
      t := t + 1;
    }
    d1 := Add(c1, t);
    d2 := c2;
    if d1 < t {
      d2 := d2 + 1;
    }
  }

  /** mul_add_c */
  method MulAddC(a: Word, b: Word, c0: Word, c1: Word, c2: Word) returns (d0: Word, d1: Word, d2: Word)
    requires Acc(c0, c1, c2) + a * b < B * B * B
    ensures Acc(d0, d1, d2) == Acc(c0, c1, c2) + a * b
  {
    WordProduct(a, b);
    var al, ah, bl, bh := Lo(a), Hi(a), Lo(b), Hi(b);
    var t1, t2 := Mul64(al, ah, bl, bh);
    d0, d1, d2 := AddDouble(t1, t2, c0, c1, c2);
  }

  lemma {:induction false} TermsBound(x: seq<Word>, y: seq<Word>, k: nat, hi: nat)
    ensures 0 <= Terms(x, y, k, 0, hi) <= hi * ((B - 1) * (B - 1))
  {
    if hi != 0 {
      TermsBound(x, y, k, hi - 1);
      WordProduct(At(x, hi - 1), At(y, k - (hi - 1)));
    }
  }

  /** One column added to the carry of the columns below. */
  method AddColumn(a: array<Word>, ao: nat, b: array<Word>, bo: nat, n: nat, k: nat, e0: Word, e1: Word)
    returns (c0: Word, c1: Word, c2: Word)
    requires ao + n <= a.Length && bo + n <= b.Length && k < 16
    ensures Acc(c0, c1, c2) == e0 + B * e1 + Column(a[ao..ao + n], b[bo..bo + n], k)
  {
    c0, c1, c2 := e0, e1, 0;
    ghost var x, y := a[ao..ao + n], b[bo..bo + n];
    var i := 0;
    while i <= k
      invariant 0 <= i <= k + 1
      invariant Acc(c0, c1, c2) == e0 + B * e1 + Terms(x, y, k, 0, i)
    {
      TermsBound(x, y, k, i + 1);
      if i < n && k - i < n {
        assert a[ao + i] == At(x, i) && b[bo + (k - i)] == At(y, k - i);
        c0, c1, c2 := MulAddC(a[ao + i], b[bo + (k - i)], c0, c1, c2);
      }
      i := i + 1;
    }
  }

  lemma ColumnDone(r: seq<Word>, e0: int, e1: int, c0: Word, c1: Word, c2: Word, x: seq<Word>, y: seq<Word>)
    requires Val(r) + Up(e0 + B * e1, |r|) == ColumnSum(x, y, |r|)
    requires Acc(c0, c1, c2) == e0 + B * e1 + Column(x, y, |r|)
    ensures Val(r + [c0]) + Up(c1 + B * c2, |r| + 1) == ColumnSum(x, y, |r| + 1)
  {
    var k, e, col := |r|, e0 + B * e1, Column(x, y, |r|);
    ValSnoc(r, c0);
    UpNext(c1 + B * c2, k);
    UpAdd(e, col, k);
    UpAdd(c0, B * (c1 + B * c2), k);
  }

  lemma {:induction false} TermsAbove(x: seq<Word>, y: seq<Word>, k: nat, hi: nat)
    requires k >= |x| + |y| - 1
    ensures Terms(x, y, k, 0, hi) == 0
  {
    if hi != 0 {
      TermsAbove(x, y, k, hi - 1);
      var i := hi - 1;
      assert At(x, i) == 0 || At(y, k - i) == 0;
    }
  }

  lemma LastColumn(x: seq<Word>, y: seq<Word>, n: nat)
    requires |x| + |y| == n + 1
    ensures ColumnSum(x, y, n) == Val(x) * Val(y)
  {
    ColumnsAreProduct(x, y);
    TermsAbove(x, y, n, n + 1);
    UpZero(n);
  }

  lemma ValProductBound(x: seq<Word>, y: seq<Word>)
    ensures Val(x) * Val(y) < Pow(|x| + |y|)
  {
    ValBound(x);
    ValBound(y);
    PowAdd(|x|, |y|);
    ProductBound(Val(x), Val(y), Pow(|x|), Pow(|y|));
  }

  /** The column after the last is empty and the accumulator ends as one word. */
  lemma ColumnsEnd(r: seq<Word>, e0: Word, e1: Word, x: seq<Word>, y: seq<Word>)
    requires |x| + |y| == |r| + 1
    requires Val(r) + Up(e0 + B * e1, |r|) == ColumnSum(x, y, |r|)
    ensures Val(r + [e0]) == Val(x) * Val(y)
  {
    LastColumn(x, y, |r|);
    ValProductBound(x, y);
    if e1 >= 1 {
      UpMono(B, e0 + B * e1, |r|);
      UpNext(1, |r|);
    }
    ValSnoc(r, e0);
  }

  lemma ProductBound(u: nat, v: nat, p: nat, q: nat)
    requires u < p && v < q
    ensures u * v < p * q
  {
    MulMono(u, p, v);
    MulMono(v, q - 1, p);
    Distrib(q, 1, p);
  }

  /** bn_mul_comba4 and bn_mul_comba8 */
  method MulComba(r: array<Word>, ro: nat, a: array<Word>, ao: nat, b: array<Word>, bo: nat, n: nat)
    requires 0 < n <= 8
    requires ro + 2 * n <= r.Length && ao + n <= a.Length && bo + n <= b.Length
    requires Apart(r, ro, 2 * n, a, ao, n) && Apart(r, ro, 2 * n, b, bo, n)
    modifies r
    ensures Val(r[ro..ro + 2 * n]) == old(Val(a[ao..ao + n]) * Val(b[bo..bo + n]))
    ensures forall k :: 0 <= k < r.Length && !(ro <= k < ro + 2 * n) ==> r[k] == old(r[k])
  {
    ghost var x, y, s: seq<Word> := a[ao..ao + n], b[bo..bo + n], [];
    var e0: Word, e1: Word, k := 0, 0, 0;
    while k < 2 * n - 1
      invariant 0 <= k <= 2 * n - 1 && a[ao..ao + n] == x && b[bo..bo + n] == y && r[ro..ro + k] == s
      invariant Val(s) + Up(e0 + B * e1, k) == ColumnSum(x, y, k)
      invariant forall j :: 0 <= j < r.Length && !(ro <= j < ro + k) ==> r[j] == old(r[j])
    {
      e0, e1, s := NextColumn(r, ro, a, ao, b, bo, n, k, e0, e1, s, x, y);
      k := k + 1;
    }
    LastWord(r, ro, k, e0, e1, s, x, y);
  }

  /** The sum of column k, whose low word is stored. */
  method NextColumn(r: array<Word>, ro: nat, a: array<Word>, ao: nat, b: array<Word>, bo: nat, n: nat, k: nat,
                    e0: Word, e1: Word, ghost s: seq<Word>, ghost x: seq<Word>, ghost y: seq<Word>)
    returns (c1: Word, c2: Word, ghost s1: seq<Word>)
    requires k + 1 < 2 * n <= 16 && ro + 2 * n <= r.Length && ao + n <= a.Length && bo + n <= b.Length
    requires Apart(r, ro, 2 * n, a, ao, n) && Apart(r, ro, 2 * n, b, bo, n)
    requires a[ao..ao + n] == x && b[bo..bo + n] == y && r[ro..ro + k] == s
    requires Val(s) + Up(e0 + B * e1, k) == ColumnSum(x, y, k)
    modifies r
    ensures a[ao..ao + n] == x && b[bo..bo + n] == y && r[ro..ro + k + 1] == s1
    ensures Val(s1) + Up(c1 + B * c2, k + 1) == ColumnSum(x, y, k + 1)
    ensures forall j :: 0 <= j < r.Length && j != ro + k ==> r[j] == old(r[j])
  {
    var c0;
    c0, c1, c2 := AddColumn(a, ao, b, bo, n, k, e0, e1);
    ColumnDone(s, e0, e1, c0, c1, c2, x, y);
    r[ro + k] := c0;
    s1 := s + [c0];
  }

  /** What the accumulator holds after the last column is the top word. */
  method LastWord(r: array<Word>, ro: nat, k: nat, e0: Word, e1: Word, ghost s: seq<Word>, ghost x: seq<Word>,
                  ghost y: seq<Word>)
    requires ro + k < r.Length && |x| + |y| == k + 1 && r[ro..ro + k] == s
    requires Val(s) + Up(e0 + B * e1, k) == ColumnSum(x, y, k)
    modifies r
    ensures Val(r[ro..ro + k + 1]) == Val(x) * Val(y)
    ensures forall j :: 0 <= j < r.Length && j != ro + k ==> r[j] == old(r[j])
  {
    ColumnsEnd(s, e0, e1, x, y);
    r[ro + k] := e0;
    assert r[ro..ro + k + 1] == s + [e0];
  }
}
