/** Squares of word arrays: the triangle of bn_sqr_normal, the columns of
    bn_sqr_comba4/8 and the recursion of bn_sqr_recursive. */
module Square {
  import opened Words
  import opened WordOps
  import opened Kernels
  import opened Columns
  import opened Multiply
  import opened Karatsuba

  // ----- bn_sqr_normal

  /** The products of two different words of s, each pair once. */
  function Triangle(s: seq<Word>): nat {
    if |s| == 0 then 0 else B * (s[0] * Val(s[1..])) + B * B * Triangle(s[1..])
  }

  /** A square is twice the triangle and the diagonal. */
  lemma {:induction false} SquareParts(s: seq<Word>)
    ensures Val(s) * Val(s) == 2 * Triangle(s) + Diagonal(s)
  {
    if |s| != 0 {
      SquareParts(s[1..]);
      var a: int, v: int := s[0], Val(s[1..]);
      Cross4(a, B * v, a, B * v);
      SquareOfSum(a, v);
    }
  }

  lemma SquareOfSum(a: int, v: int)
    ensures (a + B * v) * (a + B * v) == a * a + 2 * (B * (a * v)) + B * B * (v * v)
  {
    Cross4(a, B * v, a, B * v);
    assert a * (B * v) == B * (a * v) && (B * v) * (B * v) == B * B * (v * v);
  }

  /** v is the triangle of x but for the words from i on. */
  ghost predicate RowsDone(v: int, x: seq<Word>, i: nat)
    requires i <= |x|
  {
    v + Up(Triangle(x[i..]), 2 * i) == Triangle(x)
  }

  lemma RowsStep(v: int, x: seq<Word>, i: nat, w: int)
    requires i < |x| && RowsDone(v, x, i) && w == v + Val(x[i + 1..]) * Up(x[i], 1 + 2 * i)
    ensures RowsDone(w, x, i + 1)
  {
    var s := x[i..];
    assert s[1..] == x[i + 1..] && s[0] == x[i];
    UpTriangle(s[0], Val(s[1..]), Triangle(s[1..]), 2 * i);
  }

  lemma UpTriangle(w: int, u: int, z: int, n: nat)
    ensures Up(B * (w * u) + B * B * z, n) == u * Up(w, 1 + n) + Up(z, n + 2)
  {
    UpAdd(B * (w * u), B * B * z, n);
    UpNext(w * u, n);
    UpMul(u, w, 1 + n);
    UpNext(B * z, n);
    UpNext(z, n + 1);
  }

  /** The rows of bn_sqr_normal: r becomes the triangle. Row i assigns the word
      r[n + i] that row i + 1 adds to. */
  method TriangleRows(r: array<Word>, ro: nat, a: array<Word>, ao: nat, n: nat)
    requires n > 0 && ro + n + n <= r.Length && ao + n <= a.Length
    requires Apart(r, ro, n + n, a, ao, n)
    modifies r
    ensures Val(r[ro..ro + n + n]) == old(Triangle(a[ao..ao + n]))
    ensures forall k :: 0 <= k < r.Length && !(ro <= k < ro + n + n) ==> r[k] == old(r[k])
  {
    ghost var x := a[ao..ao + n];
    r[ro], r[ro + n + n - 1] := 0, 0;
    assert a[ao..ao + n] == x;
    AllTriangleRows(r, ro, a, ao, n, x);
    TriangleDone(r[ro..ro + n + n], r[ro..ro + (n + n - 1)], x);
  }

  method AllTriangleRows(r: array<Word>, ro: nat, a: array<Word>, ao: nat, n: nat, ghost x: seq<Word>)
    requires n > 0 && ro + n + n <= r.Length && ao + n <= a.Length
    requires Apart(r, ro, n + n, a, ao, n) && a[ao..ao + n] == x && r[ro] == 0
    modifies r
    ensures RowsDone(Val(r[ro..ro + (n + n - 1)]), x, n - 1)
    ensures forall k :: 0 <= k < r.Length && !(ro <= k < ro + (n + n - 1)) ==> r[k] == old(r[k])
  {
    if n > 1 {
      FirstTriangleRow(r, ro, a, ao, n, x);
      assert a[ao..ao + n] == x;
      MoreTriangleRows(r, ro, a, ao, n, x);
    } else {
      Val1(0);
      assert r[ro..ro + 1] == [0];
    }
  }

  /** The top word stays zero. */
  lemma TriangleDone(s: seq<Word>, t: seq<Word>, x: seq<Word>)
    requires |s| == |t| + 1 == |x| + |x| && s[..|t|] == t && s[|t|] == 0 && RowsDone(Val(t), x, |x| - 1)
    ensures Val(s) == Triangle(x)
  {
    TriangleOfLast(x);
    UpZero(2 * (|x| - 1));
    assert s == t + [0];
    ValSnoc(t, 0);
    UpZero(|t|);
  }

  lemma TriangleOfLast(x: seq<Word>)
    requires |x| > 0
    ensures Triangle(x[|x| - 1..]) == 0
  {
    var s := x[|x| - 1..];
    assert |s| == 1 && s[1..] == [];
  }

  method FirstTriangleRow(r: array<Word>, ro: nat, a: array<Word>, ao: nat, n: nat, ghost x: seq<Word>)
    requires n > 1 && ro + n + n <= r.Length && ao + n <= a.Length
    requires Apart(r, ro, n + n, a, ao, n) && a[ao..ao + n] == x && r[ro] == 0
    modifies r
    ensures RowsDone(Val(r[ro..ro + n + 1]), x, 1)
    ensures forall k :: 0 <= k < r.Length && !(ro < k < ro + n + 1) ==> r[k] == old(r[k])
  {
    FirstRow(r, ro + 1, a, ao + 1, n - 1, a, ao);
    ghost var z := r[ro + 1..ro + 1 + n];
    assert r[ro..ro + n + 1] == [0] + z;
    ValCons(0, z);
    assert x[0..] == x && a[ao + 1..ao + 1 + (n - 1)] == x[1..];
    RowsStep(0, x, 0, Val(x[1..]) * Up(x[0], 1));
    UpMul(Val(x[1..]), x[0], 1);
  }

  method MoreTriangleRows(r: array<Word>, ro: nat, a: array<Word>, ao: nat, n: nat, ghost x: seq<Word>)
    requires n > 1 && ro + n + n <= r.Length && ao + n <= a.Length
    requires Apart(r, ro, n + n, a, ao, n) && a[ao..ao + n] == x
    requires RowsDone(Val(r[ro..ro + n + 1]), x, 1)
    modifies r
    ensures RowsDone(Val(r[ro..ro + (n + n - 1)]), x, n - 1)
    ensures forall k :: 0 <= k < r.Length && !(ro <= k < ro + (n + n - 1)) ==> r[k] == old(r[k])
  {
    var i := 1;
    while i < n - 1
      invariant 1 <= i <= n - 1
      invariant RowsDone(Val(r[ro..ro + (n + i)]), x, i)
      invariant forall k :: 0 <= k < r.Length && !(ro <= k < ro + (n + n - 1)) ==> r[k] == old(r[k])
    {
      NextTriangleRow(r, ro, a, ao, n, i, x);
      i := i + 1;
    }
  }

  method NextTriangleRow(r: array<Word>, ro: nat, a: array<Word>, ao: nat, n: nat, i: nat, ghost x: seq<Word>)
    requires 0 < i < n - 1 && ro + n + n <= r.Length && ao + n <= a.Length
    requires Apart(r, ro, n + n, a, ao, n) && a[ao..ao + n] == x
    requires RowsDone(Val(r[ro..ro + (n + i)]), x, i)
    modifies r
    ensures RowsDone(Val(r[ro..ro + (n + i + 1)]), x, i + 1)
    ensures forall k :: 0 <= k < r.Length && !(ro <= k < ro + (n + i + 1)) ==> r[k] == old(r[k])
  {
    assert a[ao + i + 1..ao + i + 1 + (n - 1 - i)] == x[i + 1..] && a[ao + i] == x[i];
    ghost var v := Val(r[ro..ro + (n + i)]);
    AddRow(r, ro, a, ao + i + 1, n - 1 - i, a[ao + i], 1 + 2 * i);
    RowsStep(v, x, i, Val(r[ro..ro + (n + i + 1)]));
  }

  /** An addition whose sum fits the words has no carry. */
  lemma NoCarry(v: nat, c: nat, n: nat, s: nat)
    requires v + Up(c, n) == s < Pow(n)
    ensures v == s && c == 0
  {
    UpMono(1, c, n);
    UpZero(n);
  }

  /** r + r, which does not carry. */
  method DoubleWords(r: array<Word>, ro: nat, n: nat)
    requires ro + n <= r.Length && 2 * Val(r[ro..ro + n]) < Pow(n)
    modifies r
    ensures Val(r[ro..ro + n]) == 2 * old(Val(r[ro..ro + n]))
    ensures forall k :: 0 <= k < r.Length && !(ro <= k < ro + n) ==> r[k] == old(r[k])
  {
    ghost var v := Val(r[ro..ro + n]);
    var c := AddWords(r, ro, r, ro, r, ro, n);
    NoCarry(Val(r[ro..ro + n]), c, n, 2 * v);
  }

  /** r + t, which does not carry. */
  method AddDiagonal(r: array<Word>, ro: nat, t: array<Word>, to: nat, n: nat)
    requires ro + n <= r.Length && to + n <= t.Length && Apart(r, ro, n, t, to, n)
    requires Val(r[ro..ro + n]) + Val(t[to..to + n]) < Pow(n)
    modifies r
    ensures Val(r[ro..ro + n]) == old(Val(r[ro..ro + n]) + Val(t[to..to + n]))
    ensures forall k :: 0 <= k < r.Length && !(ro <= k < ro + n) ==> r[k] == old(r[k])
  {
    ghost var v := Val(r[ro..ro + n]) + Val(t[to..to + n]);
    var c := AddWords(r, ro, r, ro, t, to, n);
    NoCarry(Val(r[ro..ro + n]), c, n, v);
  }

  /** bn_sqr_normal */
  method SqrNormal(r: array<Word>, ro: nat, a: array<Word>, ao: nat, n: nat, t: array<Word>, to: nat)
    requires n > 0 && ro + n + n <= r.Length && ao + n <= a.Length && to + n + n <= t.Length
    requires Apart(r, ro, n + n, a, ao, n) && Apart(t, to, n + n, a, ao, n) && Apart(t, to, n + n, r, ro, n + n)
    modifies r, t
    ensures Val(r[ro..ro + n + n]) == old(Val(a[ao..ao + n]) * Val(a[ao..ao + n]))
    ensures Outside(r, ro, n + n, t, to, n + n) && Outside(t, to, n + n, r, ro, n + n)
  {
    ghost var x := a[ao..ao + n];
    SquareParts(x);
    ValProductBound(x, x);
    TriangleRows(r, ro, a, ao, n);
    assert ro + n + n == ro + (n + n);
    DoubleWords(r, ro, n + n);
    assert a[ao..ao + n] == x;
    AddSquares(r, ro, a, ao, n, t, to);
  }

  method AddSquares(r: array<Word>, ro: nat, a: array<Word>, ao: nat, n: nat, t: array<Word>, to: nat)
    requires n > 0 && ro + n + n <= r.Length && ao + n <= a.Length && to + n + n <= t.Length
    requires Apart(t, to, n + n, a, ao, n) && Apart(t, to, n + n, r, ro, n + n)
    requires Val(r[ro..ro + n + n]) + Diagonal(a[ao..ao + n]) < Pow(n + n)
    modifies r, t
    ensures Val(r[ro..ro + n + n]) == old(Val(r[ro..ro + n + n]) + Diagonal(a[ao..ao + n]))
    ensures Outside(r, ro, n + n, t, to, n + n) && Outside(t, to, n + n, r, ro, n + n)
  {
    ghost var v := r[ro..ro + n + n];
    SqrWords(t, to, a, ao, n);
    assert r[ro..ro + n + n] == v;
    assert to + 2 * n == to + (n + n) && ro + n + n == ro + (n + n);
    AddDiagonal(r, ro, t, to, n + n);
  }

  // ----- bn_sqr_comba4 and bn_sqr_comba8

  /** mul_add_c2 after its mul64: add twice a double word to the accumulator. The
      doubled high word can wrap once more when the carry of the low word comes in. */
  method AddDoubleTwice(t1: Word, t2: Word, c0: Word, c1: Word, c2: Word) returns (d0: Word, d1: Word, d2: Word)
    requires Acc(c0, c1, c2) + 2 * (t1 + B * t2) < B * B * B
    ensures Acc(d0, d1, d2) == Acc(c0, c1, c2) + 2 * (t1 + B * t2)
  {
    d2 := c2;
    if t2 >= T {
      d2 := d2 + 1;
    }
    var h := Add(t2, t2);
    if t1 >= T {
      h := h + 1;
    }
    var l := Add(t1, t1);
    d0 := Add(c0, l);
    if d0 < l {
      h := Add(h, 1);
      if h == 0 {
        d2 := d2 + 1;
      }
    }
    d1 := Add(c1, h);
    if d1 < h {
      d2 := d2 + 1;
    }
  }

  /** mul_add_c2, which is also sqr_add_c2. */
  method MulAddC2(a: Word, b: Word, c0: Word, c1: Word, c2: Word) returns (d0: Word, d1: Word, d2: Word)
    requires Acc(c0, c1, c2) + 2 * (a * b) < B * B * B
    ensures Acc(d0, d1, d2) == Acc(c0, c1, c2) + 2 * (a * b)
  {
    var al, ah, bl, bh := Lo(a), Hi(a), Lo(b), Hi(b);
    var t1, t2 := Mul64(al, ah, bl, bh);
    d0, d1, d2 := AddDoubleTwice(t1, t2, c0, c1, c2);
  }

  /** sqr_add_c */
  method SqrAddC(a: Word, c0: Word, c1: Word, c2: Word) returns (d0: Word, d1: Word, d2: Word)
    requires Acc(c0, c1, c2) + a * a < B * B * B
    ensures Acc(d0, d1, d2) == Acc(c0, c1, c2) + a * a
  {
    WordProduct(a, a);
    var t1, t2 := Sqr64(a);
    d0, d1, d2 := AddDouble(t1, t2, c0, c1, c2);
  }

  lemma {:induction false} TermsSplit(x: seq<Word>, k: nat, mid: nat, hi: nat)
    requires mid <= hi
    ensures Terms(x, x, k, 0, hi) == Terms(x, x, k, 0, mid) + Terms(x, x, k, mid, hi)
  {
    if mid < hi {
      TermsSplit(x, k, mid, hi - 1);
    }
  }

  /** The terms of a column of a square are the same from both ends. */
  lemma {:induction false} TermsMirror(x: seq<Word>, k: nat, i: nat)
    requires i <= k + 1
    ensures Terms(x, x, k, k + 1 - i, k + 1) == Terms(x, x, k, 0, i)
  {
    if i != 0 {
      TermsMirror(x, k, i - 1);
      FirstTerm(x, k, k + 1 - i, k + 1);
      SameTerm(x, k, i - 1);
    }
  }

  lemma FirstTerm(x: seq<Word>, k: nat, lo: nat, hi: nat)
    requires lo < hi
    ensures Terms(x, x, k, lo, hi) == Term(x, x, k, lo) + Terms(x, x, k, lo + 1, hi)
  {
    TermsSplit(x, k, lo, hi);
    TermsSplit(x, k, lo + 1, hi);
  }

  lemma SameTerm(x: seq<Word>, k: nat, i: nat)
    requires i <= k
    ensures Term(x, x, k, k - i) == Term(x, x, k, i)
  {
  }

  /** A column is twice its lower half and, if there is one, the middle square. */
  lemma SquareColumn(x: seq<Word>, k: nat)
    ensures var h := k / 2;
            Column(x, x, k) == if k % 2 == 0 then 2 * Terms(x, x, k, 0, h) + At(x, h) * At(x, h)
                               else 2 * Terms(x, x, k, 0, h + 1)
  {
    var h := k / 2;
    if k % 2 == 0 {
      TermsMirror(x, k, h);
      TermsSplit(x, k, h + 1, k + 1);
    } else {
      TermsMirror(x, k, h + 1);
      TermsSplit(x, k, h + 1, k + 1);
    }
  }

  /** The pairs of one column of a square, added to the carry of the columns below. */
  method AddPairs(a: array<Word>, ao: nat, n: nat, k: nat, e0: Word, e1: Word)
    returns (c0: Word, c1: Word, c2: Word)
    requires ao + n <= a.Length && k < 16
    ensures var x := a[ao..ao + n];
            Acc(c0, c1, c2) == e0 + B * e1 + 2 * Terms(x, x, k, 0, (k + 1) / 2)
  {
    c0, c1, c2 := e0, e1, 0;
    ghost var x := a[ao..ao + n];
    var i := 0;
    while 2 * i < k
      invariant 0 <= 2 * i <= k + 1
      invariant Acc(c0, c1, c2) == e0 + B * e1 + 2 * Terms(x, x, k, 0, i)
    {
      c0, c1, c2 := AddPair(a, ao, n, k, i, c0, c1, c2, x, e0 + B * e1);
      i := i + 1;
    }
  }

  method AddPair(a: array<Word>, ao: nat, n: nat, k: nat, i: nat, b0: Word, b1: Word, b2: Word,
                 ghost x: seq<Word>, ghost e: nat) returns (c0: Word, c1: Word, c2: Word)
    requires ao + n <= a.Length && 2 * i < k < 16 && x == a[ao..ao + n] && e < B * B
    requires Acc(b0, b1, b2) == e + 2 * Terms(x, x, k, 0, i)
    ensures Acc(c0, c1, c2) == e + 2 * Terms(x, x, k, 0, i + 1)
  {
    c0, c1, c2 := b0, b1, b2;
    TermsBound(x, x, k, i + 1);
    if i < n && k - i < n {
      assert a[ao + i] == At(x, i) && a[ao + (k - i)] == At(x, k - i);
      c0, c1, c2 := MulAddC2(a[ao + i], a[ao + (k - i)], b0, b1, b2);
    }
  }

  /** One column of a square added to the carry of the columns below. */
  method AddSquareColumn(a: array<Word>, ao: nat, n: nat, k: nat, e0: Word, e1: Word)
    returns (c0: Word, c1: Word, c2: Word)
    requires ao + n <= a.Length && k < 16
    ensures Acc(c0, c1, c2) == e0 + B * e1 + Column(a[ao..ao + n], a[ao..ao + n], k)
  {
    c0, c1, c2 := AddPairs(a, ao, n, k, e0, e1);
    ghost var x, h := a[ao..ao + n], k / 2;
    SquareColumn(x, k);
    TermsBound(x, x, k, (k + 1) / 2);
    if k % 2 == 0 && k / 2 < n {
      assert a[ao + k / 2] == At(x, h);
      WordProduct(At(x, h), At(x, h));
      c0, c1, c2 := SqrAddC(a[ao + k / 2], c0, c1, c2);
    }
  }

  /** bn_sqr_comba4 and bn_sqr_comba8 */
  method SqrComba(r: array<Word>, ro: nat, a: array<Word>, ao: nat, n: nat)
    requires 0 < n <= 8
    requires ro + 2 * n <= r.Length && ao + n <= a.Length && Apart(r, ro, 2 * n, a, ao, n)
    modifies r
    ensures Val(r[ro..ro + 2 * n]) == old(Val(a[ao..ao + n]) * Val(a[ao..ao + n]))
    ensures forall k :: 0 <= k < r.Length && !(ro <= k < ro + 2 * n) ==> r[k] == old(r[k])
  {
    ghost var x, s: seq<Word> := a[ao..ao + n], [];
    var e0: Word, e1: Word, k := 0, 0, 0;
    while k < 2 * n - 1
      invariant 0 <= k <= 2 * n - 1 && |s| == k
      invariant r[ro..ro + k] == s && Val(s) + Up(e0 + B * e1, k) == ColumnSum(x, x, k)
      invariant forall j :: 0 <= j < r.Length && !(ro <= j < ro + k) ==> r[j] == old(r[j])
    {
      assert a[ao..ao + n] == x;
      var c0, c1, c2 := AddSquareColumn(a, ao, n, k, e0, e1);
      ColumnDone(s, e0, e1, c0, c1, c2, x, x);
      r[ro + k] := c0;
      s := s + [c0];
      e0, e1, k := c1, c2, k + 1;
    }
    ColumnsEnd(s, e0, e1, x, x);
    r[ro + k] := e0;
    assert r[ro..ro + 2 * n] == s + [e0];
  }

  // ----- bn_sqr_recursive

  /** The words of scratch space a call uses, at most the 4 * n that BN_sqr provides. */
  function SqrScratch(n: nat): (s: nat)
    ensures s <= 4 * n
  {
    if n == 4 || n == 8 then 0 else if n < 16 then 2 * n else 2 * n + SqrScratch(n / 2)
  }

  lemma SqrScratchHalves(n: nat, m: nat)
    requires m == n + n >= 16
    ensures SqrScratch(m) == m + m + SqrScratch(n)
  {
    assert m / 2 == n;
  }

  /** bn_sqr_recursive */
  method SqrRecursive(r: array<Word>, ro: nat, a: array<Word>, ao: nat, n2: nat, t: array<Word>, to: nat)
    requires PowerOfTwo(n2)
    requires ro + n2 + n2 <= r.Length && ao + n2 <= a.Length && to + SqrScratch(n2) <= t.Length
    requires Apart(r, ro, n2 + n2, a, ao, n2)
    requires Apart(t, to, SqrScratch(n2), a, ao, n2) && Apart(t, to, SqrScratch(n2), r, ro, n2 + n2)
    modifies r, t
    ensures Val(r[ro..ro + n2 + n2]) == old(Val(a[ao..ao + n2]) * Val(a[ao..ao + n2]))
    ensures Outside(r, ro, n2 + n2, t, to, SqrScratch(n2)) && Outside(t, to, SqrScratch(n2), r, ro, n2 + n2)
    decreases n2, 7
  {
    assert ro + n2 + n2 == ro + 2 * n2;
    if n2 == 4 || n2 == 8 {
      SqrComba(r, ro, a, ao, n2);
    } else if n2 < 16 {
      SqrNormal(r, ro, a, ao, n2, t, to);
    } else {
      SqrScratchHalves(n2 / 2, n2);
      SqrHalves(r, ro, a, ao, n2 / 2, n2, t, to);
    }
  }

  method SqrHalves(r: array<Word>, ro: nat, a: array<Word>, ao: nat, n: nat, m: nat, t: array<Word>, to: nat)
    requires m == n + n >= 16 && PowerOfTwo(n) && SqrScratch(m) == m + m + SqrScratch(n)
    requires ro + m + m <= r.Length && ao + m <= a.Length && to + SqrScratch(m) <= t.Length
    requires Apart(r, ro, m + m, a, ao, m)
    requires Apart(t, to, SqrScratch(m), a, ao, m) && Apart(t, to, SqrScratch(m), r, ro, m + m)
    modifies r, t
    ensures Val(r[ro..ro + m + m]) == old(Val(a[ao..ao + m]) * Val(a[ao..ao + m]))
    ensures Outside(r, ro, m + m, t, to, SqrScratch(m)) && Outside(t, to, SqrScratch(m), r, ro, m + m)
    decreases m, 6
  {
    ghost var x0, x1, va := a[ao..ao + n], a[ao + n..ao + m], Val(a[ao..ao + m]);
    ValHalves(a, ao, n, m, x0, x1);
    SqrOfHalves(r, ro, a, ao, n, m, t, to, x0, x1, va);
  }

  method SqrOfHalves(r: array<Word>, ro: nat, a: array<Word>, ao: nat, n: nat, m: nat, t: array<Word>, to: nat,
                     ghost x0: seq<Word>, ghost x1: seq<Word>, ghost va: nat)
    requires m == n + n >= 16 && PowerOfTwo(n) && SqrScratch(m) == m + m + SqrScratch(n)
    requires ro + m + m <= r.Length && ao + m <= a.Length && to + SqrScratch(m) <= t.Length
    requires Apart(r, ro, m + m, a, ao, m)
    requires Apart(t, to, SqrScratch(m), a, ao, m) && Apart(t, to, SqrScratch(m), r, ro, m + m)
    requires a[ao..ao + n] == x0 && a[ao + n..ao + m] == x1 && |x0| == |x1| == n
    requires va == Val(x0) + Up(Val(x1), n)
    modifies r, t
    ensures Val(r[ro..ro + m + m]) == va * va
    ensures Outside(r, ro, m + m, t, to, SqrScratch(m)) && Outside(t, to, SqrScratch(m), r, ro, m + m)
    decreases m, 5
  {
    PartsApart(t, to, SqrScratch(m), a, ao, m, to, n, ao, n + n);
    var zero := SquareDifference(t, to, a, ao, n, x0, x1);
    SqrWithDifference(r, ro, a, ao, n, m, t, to, zero, x0, x1, va);
  }

  /** |a0 - a1| unless it is zero. */
  method SquareDifference(t: array<Word>, to: nat, a: array<Word>, ao: nat, n: nat, ghost x0: seq<Word>,
                          ghost x1: seq<Word>)
    returns (zero: bool)
    requires to + n <= t.Length && ao + n + n <= a.Length && Apart(t, to, n, a, ao, n + n)
    requires a[ao..ao + n] == x0 && a[ao + n..ao + n + n] == x1
    modifies t
    ensures if zero then Val(x0) == Val(x1) else Val(t[to..to + n]) == Abs(Val(x0) - Val(x1)) != 0
    ensures a[ao..ao + n] == x0 && a[ao + n..ao + n + n] == x1
    ensures forall k :: 0 <= k < t.Length && !(to <= k < to + n) ==> t[k] == old(t[k])
  {
    var c1 := CmpWords(a, ao, a, ao + n, n);
    zero := false;
    if c1 > 0 {
      HalfDifference(t, to, a, ao, ao + n, n, false, x0, x1);
    } else if c1 < 0 {
      HalfDifference(t, to, a, ao, ao + n, n, true, x0, x1);
    } else {
      zero := true;
    }
  }

  /** s is the square of v, as a sum of odd numbers: this keeps products out of the proofs
      about arrays. */
  ghost predicate SquareOf(s: int, v: nat)
    decreases v
  {
    if v == 0 then s == 0 else SquareOf(s - 2 * v + 1, v - 1)
  }

  lemma {:induction false} SquareIs(s: int, v: nat)
    ensures SquareOf(s, v) <==> s == v * v
    decreases v
  {
    if v > 0 {
      SquareIs(s - 2 * v + 1, v - 1);
      assert (v - 1) * (v - 1) == v * v - 2 * v + 1;
    }
  }

  /** The middle term of a square; the product of the differences is never positive. */
  lemma MiddleOfSquare(x0: seq<Word>, x1: seq<Word>, u: nat, zero: bool, va: nat)
    returns (v: nat, s0: nat, s1: nat, s: nat)
    requires |x0| == |x1| && va == Val(x0) + Up(Val(x1), |x0|)
    requires if zero then Val(x0) == Val(x1) else u == Abs(Val(x0) - Val(x1)) != 0
    ensures var n, m := |x0|, |x0| + |x0|;
            && s0 == Val(x0) * Val(x0) && s1 == Val(x1) * Val(x1) && s == va * va
            && v == Signed(s0 + s1, if zero then 0 else u * u, true) < 2 * Pow(m)
            && s0 + Up(s1, m) + Up(v, n) == s < Pow(m + m)
  {
    ghost var d;
    v, s0, s1, d := MiddleOfHalves(x0, x1, x0, x1, u, u, zero, !zero);
    s := va * va;
  }

  method SqrWithDifference(r: array<Word>, ro: nat, a: array<Word>, ao: nat, n: nat, m: nat,
                           t: array<Word>, to: nat, zero: bool,
                           ghost x0: seq<Word>, ghost x1: seq<Word>, ghost va: nat)
    requires m == n + n >= 16 && PowerOfTwo(n) && SqrScratch(m) == m + m + SqrScratch(n)
    requires ro + m + m <= r.Length && ao + m <= a.Length && to + SqrScratch(m) <= t.Length
    requires Apart(r, ro, m + m, a, ao, m)
    requires Apart(t, to, SqrScratch(m), a, ao, m) && Apart(t, to, SqrScratch(m), r, ro, m + m)
    requires a[ao..ao + n] == x0 && a[ao + n..ao + m] == x1 && |x0| == |x1| == n
    requires va == Val(x0) + Up(Val(x1), n)
    requires if zero then Val(x0) == Val(x1) else Val(t[to..to + n]) == Abs(Val(x0) - Val(x1)) != 0
    modifies r, t
    ensures Val(r[ro..ro + m + m]) == va * va
    ensures Outside(r, ro, m + m, t, to, SqrScratch(m)) && Outside(t, to, SqrScratch(m), r, ro, m + m)
    decreases m, 4
  {
    ghost var u := Val(t[to..to + n]);
    ghost var v, s0, s1, s, d := SquaresOfHalves(x0, x1, u, zero, va);
    SqrCombined(r, ro, a, ao, n, m, t, to, zero, x0, x1, s0, s1, d, v, s);
  }

  lemma SquaresOfHalves(x0: seq<Word>, x1: seq<Word>, u: nat, zero: bool, va: nat)
    returns (v: nat, s0: nat, s1: nat, s: nat, d: nat)
    requires |x0| == |x1| && va == Val(x0) + Up(Val(x1), |x0|)
    requires if zero then Val(x0) == Val(x1) else u == Abs(Val(x0) - Val(x1)) != 0
    ensures var n, m := |x0|, |x0| + |x0|;
            && SquareOf(s0, Val(x0)) && SquareOf(s1, Val(x1)) && s == va * va
            && (if zero then d == 0 else SquareOf(d, u))
            && v == Signed(s0 + s1, d, true) < 2 * Pow(m)
            && s0 + Up(s1, m) + Up(v, n) == s < Pow(m + m)
  {
    v, s0, s1, s := MiddleOfSquare(x0, x1, u, zero, va);
    MulNonNeg(u, u);
    d := if zero then 0 else u * u;
    SquareIs(s0, Val(x0));
    SquareIs(s1, Val(x1));
    SquareIs(d, u);
  }

  /** The recursive calls and what follows them, for a middle term v. */
  method SqrCombined(r: array<Word>, ro: nat, a: array<Word>, ao: nat, n: nat, m: nat,
                     t: array<Word>, to: nat, zero: bool, ghost x0: seq<Word>, ghost x1: seq<Word>,
                     ghost s0: nat, ghost s1: nat, ghost d: nat, ghost v: nat, ghost s: nat)
    requires m == n + n >= 16 && PowerOfTwo(n) && SqrScratch(m) == m + m + SqrScratch(n)
    requires ro + m + m <= r.Length && ao + m <= a.Length && to + SqrScratch(m) <= t.Length
    requires Apart(r, ro, m + m, a, ao, m)
    requires Apart(t, to, SqrScratch(m), a, ao, m) && Apart(t, to, SqrScratch(m), r, ro, m + m)
    requires a[ao..ao + n] == x0 && a[ao + n..ao + m] == x1
    requires SquareOf(s0, Val(x0)) && SquareOf(s1, Val(x1))
    requires if zero then d == 0 else SquareOf(d, Val(t[to..to + n]))
    requires v == Signed(s0 + s1, d, true) < 2 * Pow(m) && s0 + Up(s1, m) + Up(v, n) == s < Pow(m + m)
    modifies r, t
    ensures Val(r[ro..ro + m + m]) == s
    ensures Outside(r, ro, m + m, t, to, SqrScratch(m)) && Outside(t, to, SqrScratch(m), r, ro, m + m)
    decreases m, 3
  {
    HalfSquares(r, ro, a, ao, n, m, t, to, zero, x0, x1, s0, s1, d);
    ValTwo(r, ro, m, m);
    PartsApart(t, to, SqrScratch(m), r, ro, m + m, to, m + m, ro, m + m);
    FinishMiddle(r, ro, n, m, t, to, true, v);
  }

  /** The three recursive calls. */
  method HalfSquares(r: array<Word>, ro: nat, a: array<Word>, ao: nat, n: nat, m: nat, t: array<Word>, to: nat,
                     zero: bool, ghost x0: seq<Word>, ghost x1: seq<Word>, ghost s0: nat, ghost s1: nat, ghost d: nat)
    requires m == n + n >= 16 && PowerOfTwo(n) && SqrScratch(m) == m + m + SqrScratch(n)
    requires ro + m + m <= r.Length && ao + m <= a.Length && to + SqrScratch(m) <= t.Length
    requires Apart(r, ro, m + m, a, ao, m)
    requires Apart(t, to, SqrScratch(m), a, ao, m) && Apart(t, to, SqrScratch(m), r, ro, m + m)
    requires a[ao..ao + n] == x0 && a[ao + n..ao + m] == x1
    requires SquareOf(s0, Val(x0)) && SquareOf(s1, Val(x1))
    requires if zero then d == 0 else SquareOf(d, Val(t[to..to + n]))
    modifies r, t
    ensures Val(t[to + m..to + m + m]) == d
    ensures Val(r[ro..ro + m]) == s0 && Val(r[ro + m..ro + m + m]) == s1
    ensures Outside(r, ro, m + m, t, to, SqrScratch(m)) && Outside(t, to, SqrScratch(m), r, ro, m + m)
    decreases m, 2
  {
    SqrOfDifference(t, to, n, m, zero, d);
    OuterSquares(r, ro, a, ao, n, m, t, to, x0, x1, s0, s1, d);
  }

  /** The squares of the halves, with the square of the difference already there. */
  method OuterSquares(r: array<Word>, ro: nat, a: array<Word>, ao: nat, n: nat, m: nat, t: array<Word>, to: nat,
                      ghost x0: seq<Word>, ghost x1: seq<Word>, ghost s0: nat, ghost s1: nat, ghost d: nat)
    requires m == n + n >= 16 && PowerOfTwo(n) && SqrScratch(m) == m + m + SqrScratch(n)
    requires ro + m + m <= r.Length && ao + m <= a.Length && to + SqrScratch(m) <= t.Length
    requires Apart(r, ro, m + m, a, ao, m)
    requires Apart(t, to, SqrScratch(m), a, ao, m) && Apart(t, to, SqrScratch(m), r, ro, m + m)
    requires a[ao..ao + n] == x0 && a[ao + n..ao + m] == x1
    requires SquareOf(s0, Val(x0)) && SquareOf(s1, Val(x1)) && Val(t[to + m..to + m + m]) == d
    modifies r, t
    ensures Val(t[to + m..to + m + m]) == d
    ensures Val(r[ro..ro + m]) == s0 && Val(r[ro + m..ro + m + m]) == s1
    ensures Outside(r, ro, m + m, t, to, SqrScratch(m)) && Outside(t, to, SqrScratch(m), r, ro, m + m)
    decreases m, 1
  {
    ghost var w := t[to + m..to + m + m];
    PartsApart(t, to, SqrScratch(m), a, ao, m, to + m + m, SqrScratch(n), ao, m);
    PartsApart(t, to, SqrScratch(m), r, ro, m + m, to + m + m, SqrScratch(n), ro, m + m);
    SqrOuter(r, ro, a, ao, n, m, t, to + m + m, x0, x1, s0, s1);
    assert t[to + m..to + m + m] == w;
  }

  method SqrOfDifference(t: array<Word>, to: nat, n: nat, m: nat, zero: bool, ghost d: nat)
    requires m == n + n >= 16 && PowerOfTwo(n) && to + m + m + SqrScratch(n) <= t.Length
    requires if zero then d == 0 else SquareOf(d, Val(t[to..to + n]))
    modifies t
    ensures Val(t[to + m..to + m + m]) == d
    ensures forall k :: 0 <= k < t.Length && !(to + m <= k < to + m + m + SqrScratch(n)) ==> t[k] == old(t[k])
    decreases m, 0
  {
    if zero {
      ClearWords(t, to + m, m);
      assert Val(t[to + m..to + m + m]) == 0 == d;
      return;
    }
    DifferenceSquared(t, to, n, m, d);
  }

  method DifferenceSquared(t: array<Word>, to: nat, n: nat, m: nat, ghost d: nat)
    requires m == n + n >= 16 && PowerOfTwo(n) && to + m + m + SqrScratch(n) <= t.Length
    requires SquareOf(d, Val(t[to..to + n]))
    modifies t
    ensures Val(t[to + m..to + m + m]) == d
    ensures forall k :: 0 <= k < t.Length && !(to + m <= k < to + m + m + SqrScratch(n)) ==> t[k] == old(t[k])
    decreases n, 9
  {
    SqrTo(t, to + m, t, to, n, t, to + m + m, m, d);
  }

  method SqrOuter(r: array<Word>, ro: nat, a: array<Word>, ao: nat, n: nat, m: nat, p: array<Word>, po: nat,
                  ghost x0: seq<Word>, ghost x1: seq<Word>, ghost s0: nat, ghost s1: nat)
    requires m == n + n >= 16 && PowerOfTwo(n)
    requires ro + m + m <= r.Length && ao + m <= a.Length && po + SqrScratch(n) <= p.Length
    requires Apart(r, ro, m + m, a, ao, m)
    requires Apart(p, po, SqrScratch(n), a, ao, m) && Apart(p, po, SqrScratch(n), r, ro, m + m)
    requires a[ao..ao + n] == x0 && a[ao + n..ao + m] == x1 && SquareOf(s0, Val(x0)) && SquareOf(s1, Val(x1))
    modifies r, p
    ensures Val(r[ro..ro + m]) == s0 && Val(r[ro + m..ro + m + m]) == s1
    ensures Outside(r, ro, m + m, p, po, SqrScratch(n)) && Outside(p, po, SqrScratch(n), r, ro, m + m)
    decreases m, 0
  {
    SqrLow(r, ro, a, ao, n, m, p, po, x0, x1, s0);
    PartsApart(r, ro, m + m, a, ao, m, ro + m, m, ao + n, n);
    PartsApart(p, po, SqrScratch(n), a, ao, m, po, SqrScratch(n), ao + n, n);
    PartsApart(p, po, SqrScratch(n), r, ro, m + m, po, SqrScratch(n), ro + m, m);
    PartsApart(p, po, SqrScratch(n), r, ro, m + m, po, SqrScratch(n), ro, m);
    SqrHigh(r, ro + m, a, ao + n, n, p, po, ro, m, x1, s1, r[ro..ro + m]);
  }

  /** The recursive call on the low half leaves the high half alone. */
  method SqrLow(r: array<Word>, ro: nat, a: array<Word>, ao: nat, n: nat, m: nat, p: array<Word>, po: nat,
                ghost x0: seq<Word>, ghost x1: seq<Word>, ghost s0: nat)
    requires m == n + n && PowerOfTwo(n)
    requires ro + m + m <= r.Length && ao + m <= a.Length && po + SqrScratch(n) <= p.Length
    requires Apart(r, ro, m + m, a, ao, m)
    requires Apart(p, po, SqrScratch(n), a, ao, m) && Apart(p, po, SqrScratch(n), r, ro, m + m)
    requires a[ao..ao + n] == x0 && a[ao + n..ao + m] == x1 && SquareOf(s0, Val(x0))
    modifies r, p
    ensures Val(r[ro..ro + m]) == s0 && a[ao + n..ao + n + n] == x1
    ensures Outside(r, ro, m, p, po, SqrScratch(n)) && Outside(p, po, SqrScratch(n), r, ro, m)
    decreases n, 9
  {
    SqrTo(r, ro, a, ao, n, p, po, m, s0);
    assert a[ao + n..ao + n + n] == x1;
  }

  /** The recursive call on the high half leaves the low square alone. */
  method SqrHigh(r: array<Word>, ro: nat, a: array<Word>, ao: nat, n: nat, p: array<Word>, po: nat,
                 ghost lo: nat, ghost k: nat, ghost x: seq<Word>, ghost s: nat, ghost w: seq<Word>)
    requires PowerOfTwo(n) && k == n + n
    requires ro + k <= r.Length && ao + n <= a.Length && po + SqrScratch(n) <= p.Length
    requires Apart(r, ro, k, a, ao, n)
    requires Apart(p, po, SqrScratch(n), a, ao, n) && Apart(p, po, SqrScratch(n), r, ro, k)
    requires lo + k <= ro && Apart(p, po, SqrScratch(n), r, lo, k)
    requires a[ao..ao + n] == x && SquareOf(s, Val(x)) && r[lo..lo + k] == w
    modifies r, p
    ensures Val(r[ro..ro + k]) == s && r[lo..lo + k] == w
    ensures Outside(r, ro, k, p, po, SqrScratch(n)) && Outside(p, po, SqrScratch(n), r, ro, k)
    decreases n, 9
  {
    SqrTo(r, ro, a, ao, n, p, po, k, s);
  }

  /** A recursive call, whose square is s, in k words. */
  method SqrTo(r: array<Word>, ro: nat, a: array<Word>, ao: nat, n: nat, p: array<Word>, po: nat,
               ghost k: nat, ghost s: int)
    requires PowerOfTwo(n) && k == n + n
    requires ro + k <= r.Length && ao + n <= a.Length && po + SqrScratch(n) <= p.Length
    requires Apart(r, ro, k, a, ao, n)
    requires Apart(p, po, SqrScratch(n), a, ao, n) && Apart(p, po, SqrScratch(n), r, ro, k)
    requires SquareOf(s, Val(a[ao..ao + n]))
    modifies r, p
    ensures Val(r[ro..ro + k]) == s
    ensures Outside(r, ro, k, p, po, SqrScratch(n)) && Outside(p, po, SqrScratch(n), r, ro, k)
    decreases n, 8
  {
    SquareIs(s, Val(a[ao..ao + n]));
    assert ro + k == ro + n + n;
    SqrRecursive(r, ro, a, ao, n, p, po);
  }
}
