/** The loops over word arrays: r, a and b are arrays with the offset at which the
    C pointer points. The loops are unrolled four times in the source. */
module Kernels {
  import opened Words
  import opened WordOps

  /** Reading a and writing r upwards from these offsets never reads a word
      already overwritten. */
  predicate Readable(r: array<Word>, ro: nat, a: array<Word>, ao: nat, n: nat) {
    r == a ==> ro <= ao || ao + n <= ro
  }

  /** The words r[ro..ro + m) and a[ao..ao + n) share no storage. */
  predicate Apart(r: array<Word>, ro: nat, m: nat, a: array<Word>, ao: nat, n: nat) {
    r != a || ro + m <= ao || ao + n <= ro
  }

  /** Parts of ranges that are apart. */
  lemma PartsApart(r: array<Word>, ro: nat, m: nat, a: array<Word>, ao: nat, n: nat, ro1: nat, m1: nat, ao1: nat,
                   n1: nat)
    requires Apart(r, ro, m, a, ao, n)
    requires ro <= ro1 && ro1 + m1 <= ro + m && ao <= ao1 && ao1 + n1 <= ao + n
    ensures Apart(r, ro1, m1, a, ao1, n1)
  {
  }

  // ----- addition and subtraction

  lemma CarryStep(l: int, c1: int, x: int, y: int, c: int, i: nat)
    requires l + B * c1 == x + y + c
    ensures Up(l, i) + Up(c1, i + 1) == Up(x, i) + Up(y, i) + Up(c, i)
  {
    UpNext(c1, i);
    UpAdd(l, B * c1, i);
    UpAdd(x, y, i);
    UpAdd(x + y, c, i);
  }

  /** The words r and the carry c are the sum of the low words of x and y. */
  ghost predicate Sum(r: seq<Word>, c: int, x: seq<Word>, y: seq<Word>)
    requires |r| <= |x| && |r| <= |y|
  {
    Val(r) + Up(c, |r|) == Val(x[..|r|]) + Val(y[..|r|])
  }

  lemma SumStep(r: seq<Word>, c: int, x: seq<Word>, y: seq<Word>, l: Word, c1: int)
    requires |r| < |x| && |r| < |y| && Sum(r, c, x, y)
    requires l + B * c1 == x[|r|] + y[|r|] + c
    ensures Sum(r + [l], c1, x, y)
  {
    var i := |r|;
    ValSnoc(r, l);
    ValTake(x, i);
    ValTake(y, i);
    CarryStep(l, c1, x[i], y[i], c, i);
  }

  method AddCarry(x: Word, y: Word, c: Word) returns (l: Word, c1: Word)
    requires c <= 1
    ensures c1 <= 1 && l + B * c1 == x + y + c
  {
    var t := Add(x, c);
    c1 := if t < c then 1 else 0;
    l := Add(t, y);
    c1 := c1 + if l < t then 1 else 0;
  }

  /** bn_add_words */
  method AddWords(r: array<Word>, ro: nat, a: array<Word>, ao: nat, b: array<Word>, bo: nat, n: nat)
    returns (c: Word)
    requires ro + n <= r.Length && ao + n <= a.Length && bo + n <= b.Length
    requires Readable(r, ro, a, ao, n) && Readable(r, ro, b, bo, n)
    modifies r
    ensures c <= 1
    ensures Val(r[ro..ro + n]) + Up(c, n) == old(Val(a[ao..ao + n]) + Val(b[bo..bo + n]))
    ensures forall k :: 0 <= k < r.Length && !(ro <= k < ro + n) ==> r[k] == old(r[k])
  {
    c := 0;
    ghost var x, y, s: seq<Word> := a[ao..ao + n], b[bo..bo + n], [];
    var i := 0;
    while i < n
      invariant i <= n && c <= 1
      invariant forall k :: 0 <= k < r.Length && !(ro <= k < ro + i) ==> r[k] == old(r[k])
      invariant r[ro..ro + i] == s && Sum(s, c, x, y)
    {
      assert a[ao + i] == x[i] && b[bo + i] == y[i];
      var l, c1 := AddCarry(a[ao + i], b[bo + i], c);
      SumStep(s, c, x, y, l, c1);
      r[ro + i], c := l, c1;
      s := s + [l];
      i := i + 1;
    }
    assert x[..n] == x && y[..n] == y;
  }

  lemma BorrowStep(l: int, c1: int, x: int, y: int, c: int, i: nat)
    requires l - B * c1 == x - y - c
    ensures Up(l, i) - Up(c1, i + 1) == Up(x, i) - Up(y, i) - Up(c, i)
  {
    CarryStep(x, c1, l, y, c, i);
  }

  /** The words r and the borrow c are the difference of the low words of x and y. */
  ghost predicate Difference(r: seq<Word>, c: int, x: seq<Word>, y: seq<Word>)
    requires |r| <= |x| && |r| <= |y|
  {
    Val(r) - Up(c, |r|) == Val(x[..|r|]) - Val(y[..|r|])
  }

  lemma DifferenceStep(r: seq<Word>, c: int, x: seq<Word>, y: seq<Word>, l: Word, c1: int)
    requires |r| < |x| && |r| < |y| && Difference(r, c, x, y)
    requires l - B * c1 == x[|r|] - y[|r|] - c
    ensures Difference(r + [l], c1, x, y)
  {
    var i := |r|;
    ValSnoc(r, l);
    ValTake(x, i);
    ValTake(y, i);
    BorrowStep(l, c1, x[i], y[i], c, i);
  }

  method SubBorrow(x: Word, y: Word, c: Word) returns (l: Word, c1: Word)
    requires c <= 1
    ensures c1 <= 1 && l - B * c1 == x - y - c
  {
    l := Sub(Sub(x, y), c);
    c1 := c;
    if x != y {
      c1 := if x < y then 1 else 0;
    }
  }

  /** bn_sub_words */
  method SubWords(r: array<Word>, ro: nat, a: array<Word>, ao: nat, b: array<Word>, bo: nat, n: nat)
    returns (c: Word)
    requires ro + n <= r.Length && ao + n <= a.Length && bo + n <= b.Length
    requires Readable(r, ro, a, ao, n) && Readable(r, ro, b, bo, n)
    modifies r
    ensures c <= 1
    ensures Val(r[ro..ro + n]) - Up(c, n) == old(Val(a[ao..ao + n]) - Val(b[bo..bo + n]))
    ensures forall k :: 0 <= k < r.Length && !(ro <= k < ro + n) ==> r[k] == old(r[k])
  {
    c := 0;
    ghost var x, y, s: seq<Word> := a[ao..ao + n], b[bo..bo + n], [];
    var i := 0;
    while i < n
      invariant i <= n && c <= 1
      invariant forall k :: 0 <= k < r.Length && !(ro <= k < ro + i) ==> r[k] == old(r[k])
      invariant r[ro..ro + i] == s && Difference(s, c, x, y)
    {
      assert a[ao + i] == x[i] && b[bo + i] == y[i];
      var l, c1 := SubBorrow(a[ao + i], b[bo + i], c);
      DifferenceStep(s, c, x, y, l, c1);
      r[ro + i], c := l, c1;
      s := s + [l];
      i := i + 1;
    }
    assert x[..n] == x && y[..n] == y;
  }

  // ----- multiplication by a word

  lemma MulStep(l: int, c1: int, r: int, a: int, w: int, c: int, i: nat, v: int)
    requires l + B * c1 == r + a * w + c
    ensures Up(l, i) + Up(c1, i + 1) + w * v == Up(r, i) + w * (v + Up(a, i)) + Up(c, i)
  {
    CarryStep(l, c1, r, a * w, c, i);
    UpMul(w, a, i);
    Distrib(v, Up(a, i), w);
  }

  /** The words r and the carry c are the low words of z plus w times those of x. */
  ghost predicate MulSum(r: seq<Word>, c: int, z: seq<Word>, x: seq<Word>, w: int)
    requires |r| <= |x| && |r| <= |z|
  {
    Val(r) + Up(c, |r|) == Val(z[..|r|]) + w * Val(x[..|r|])
  }

  lemma MulSumStep(r: seq<Word>, c: int, z: seq<Word>, x: seq<Word>, w: int, l: Word, c1: int)
    requires |r| < |x| && |r| < |z| && MulSum(r, c, z, x, w)
    requires l + B * c1 == z[|r|] + x[|r|] * w + c
    ensures MulSum(r + [l], c1, z, x, w)
  {
    var i := |r|;
    ValSnoc(r, l);
    ValTake(z, i);
    ValTake(x, i);
    MulStep(l, c1, z[i], x[i], w, c, i, Val(x[..i]));
  }

  /** The words r and the carry c are w times the low words of x. */
  ghost predicate Product(r: seq<Word>, c: int, x: seq<Word>, w: int)
    requires |r| <= |x|
  {
    Val(r) + Up(c, |r|) == w * Val(x[..|r|])
  }

  lemma ProductStep(r: seq<Word>, c: int, x: seq<Word>, w: int, l: Word, c1: int)
    requires |r| < |x| && Product(r, c, x, w)
    requires l + B * c1 == x[|r|] * w + c
    ensures Product(r + [l], c1, x, w)
  {
    var i := |r|;
    ValSnoc(r, l);
    ValTake(x, i);
    MulStep(l, c1, 0, x[i], w, c, i, Val(x[..i]));
    UpZero(i);
  }

  /** bn_mul_add_words */
  method MulAddWords(r: array<Word>, ro: nat, a: array<Word>, ao: nat, n: nat, w: Word)
    returns (c: Word)
    requires ro + n <= r.Length && ao + n <= a.Length && Readable(r, ro, a, ao, n)
    modifies r
    ensures Val(r[ro..ro + n]) + Up(c, n) == old(Val(r[ro..ro + n]) + w * Val(a[ao..ao + n]))
    ensures forall k :: 0 <= k < r.Length && !(ro <= k < ro + n) ==> r[k] == old(r[k])
  {
    c := 0;
    ghost var x, z, s: seq<Word> := a[ao..ao + n], r[ro..ro + n], [];
    var i := 0;
    while i < n
      invariant i <= n
      invariant forall k :: 0 <= k < r.Length && !(ro <= k < ro + i) ==> r[k] == old(r[k])
      invariant r[ro..ro + i] == s && MulSum(s, c, z, x, w)
    {
      assert a[ao + i] == x[i] && r[ro + i] == z[i];
      var l, c1 := MulAdd(r[ro + i], a[ao + i], w, c);
      MulSumStep(s, c, z, x, w, l, c1);
      r[ro + i], c := l, c1;
      s := s + [l];
      i := i + 1;
    }
    assert x[..n] == x && z[..n] == z;
  }

  /** bn_mul_words */
  method MulWords(r: array<Word>, ro: nat, a: array<Word>, ao: nat, n: nat, w: Word)
    returns (c: Word)
    requires ro + n <= r.Length && ao + n <= a.Length && Readable(r, ro, a, ao, n)
    modifies r
    ensures Val(r[ro..ro + n]) + Up(c, n) == old(w * Val(a[ao..ao + n]))
    ensures forall k :: 0 <= k < r.Length && !(ro <= k < ro + n) ==> r[k] == old(r[k])
  {
    c := 0;
    ghost var x, s: seq<Word> := a[ao..ao + n], [];
    var i := 0;
    while i < n
      invariant i <= n
      invariant forall k :: 0 <= k < r.Length && !(ro <= k < ro + i) ==> r[k] == old(r[k])
      invariant r[ro..ro + i] == s && Product(s, c, x, w)
    {
      assert a[ao + i] == x[i];
      var l, c1 := Mul(a[ao + i], w, c);
      ProductStep(s, c, x, w, l, c1);
      r[ro + i], c := l, c1;
      s := s + [l];
      i := i + 1;
    }
    assert x[..n] == x;
  }

  // ----- comparison

  /** bn_cmp_words */
  method CmpWords(a: array<Word>, ao: nat, b: array<Word>, bo: nat, n: nat) returns (c: int)
    requires ao + n <= a.Length && bo + n <= b.Length
    ensures c == Order(Val(a[ao..ao + n]), Val(b[bo..bo + n]))
  {
    ghost var x, y := a[ao..ao + n], b[bo..bo + n];
    var i := n;
    while i > 0
      invariant 0 <= i <= n && x[i..] == y[i..]
    {
      i := i - 1;
      var aa, bb := a[ao + i], b[bo + i];
      assert aa == x[i] && bb == y[i];
      if aa != bb {
        if aa > bb {
          ValLess(y, x, i);
          return 1;
        } else {
          ValLess(x, y, i);
          return -1;
        }
      }
      assert x[i..] == [x[i]] + x[i + 1..] && y[i..] == [y[i]] + y[i + 1..];
    }
    assert x == y;
    return 0;
  }

  /** The sign of x - y. */
  function Order(x: int, y: int): int {
    if x < y then -1 else if x == y then 0 else 1
  }

  // ----- squares

  /** The sum of the squares of the words, each two words up from the last. */
  function Diagonal(s: seq<Word>): nat {
    if |s| == 0 then 0 else s[0] * s[0] + B * B * Diagonal(s[1..])
  }

  lemma {:induction false} DiagonalSnoc(s: seq<Word>, x: Word)
    ensures Diagonal(s + [x]) == Diagonal(s) + Up(x * x, 2 * |s|)
  {
    if |s| == 0 {
      assert s + [x] == [x];
    } else {
      assert (s + [x])[1..] == s[1..] + [x];
      DiagonalSnoc(s[1..], x);
      UpUp(x * x, 2 * |s| - 2, 2);
    }
  }

  lemma SquareStep(s: seq<Word>, r: seq<Word>, x: Word, l: Word, h: Word)
    requires |r| == 2 * |s| && Val(r) == Diagonal(s) && l + B * h == x * x
    ensures Val(r + [l, h]) == Diagonal(s + [x])
  {
    DiagonalSnoc(s, x);
    Val2(l, h);
    ValAppend(r, [l, h]);
  }

  /** bn_sqr_words */
  method SqrWords(r: array<Word>, ro: nat, a: array<Word>, ao: nat, n: nat)
    requires ro + 2 * n <= r.Length && ao + n <= a.Length
    requires r == a ==> ro + 2 * n <= ao || ao + n <= ro
    modifies r
    ensures Val(r[ro..ro + 2 * n]) == old(Diagonal(a[ao..ao + n]))
    ensures forall k :: 0 <= k < r.Length && !(ro <= k < ro + 2 * n) ==> r[k] == old(r[k])
  {
    ghost var x, s: seq<Word> := a[ao..ao + n], [];
    var i := 0;
    while i < n
      invariant i <= n && |s| == 2 * i
      invariant forall k :: 0 <= k < r.Length && !(ro <= k < ro + 2 * i) ==> r[k] == old(r[k])
      invariant r[ro..ro + 2 * i] == s && Val(s) == Diagonal(x[..i])
    {
      assert a[ao + i] == x[i];
      var l, h := Sqr64(a[ao + i]);
      SquareStep(x[..i], s, x[i], l, h);
      assert x[..i + 1] == x[..i] + [x[i]];
      r[ro + 2 * i], r[ro + 2 * i + 1] := l, h;
      s := s + [l, h];
      i := i + 1;
    }
    assert x[..n] == x;
  }

  // ----- adding a carry into the words above

  /** The words s and a pending carry are the low words of x plus c. */
  ghost predicate Carried(s: seq<Word>, carry: bool, x: seq<Word>, c: int)
    requires |s| <= |x|
  {
    Val(s) + (if carry then Pow(|s|) else 0) == Val(x[..|s|]) + c
  }

  lemma CarriedFirst(x: seq<Word>, c: Word)
    requires |x| > 0
    ensures Carried([Add(x[0], c)], Add(x[0], c) < c, x, c)
  {
    assert x[..1] == [x[0]];
    Val1(x[0]);
    Val1(Add(x[0], c));
  }

  lemma CarriedNext(s: seq<Word>, x: seq<Word>, c: int)
    requires |s| < |x| && Carried(s, true, x, c)
    ensures var l := Add(x[|s|], 1); Carried(s + [l], l == 0, x, c)
  {
    var i, l := |s|, Add(x[|s|], 1);
    ValSnoc(s, l);
    ValTake(x, i);
    CarryStep(l, if l == 0 then 1 else 0, x[i], 1, 0, i);
    UpZero(i);
    UpZero(i + 1);
  }

  lemma CarriedDone(s: seq<Word>, x: seq<Word>, c: int)
    requires |s| <= |x| && Carried(s, false, x, c)
    ensures Val(s + x[|s|..]) == Val(x) + c
  {
    ValSplit(x, |s|);
    ValAppend(s, x[|s|..]);
  }

  /** A carry cannot leave words whose value leaves room for it. */
  lemma CarriedFits(s: seq<Word>, x: seq<Word>, c: int)
    requires |s| <= |x| && Carried(s, true, x, c) && Val(x) + c < Pow(|x|)
    ensures |s| < |x|
  {
    assert x[..|x|] == x;
  }

  /** The carry propagation at the end of bn_mul_recursive and bn_sqr_recursive. */
  method Propagate(r: array<Word>, lo: nat, c: Word, ghost hi: nat)
    requires lo < hi <= r.Length
    requires Val(r[lo..hi]) + c < Pow(hi - lo)
    modifies r
    ensures Val(r[lo..hi]) == old(Val(r[lo..hi])) + c
    ensures forall k :: 0 <= k < r.Length && !(lo <= k < hi) ==> r[k] == old(r[k])
  {
    ghost var x := r[lo..hi];
    var ln := Add(r[lo], c);
    CarriedFirst(x, c);
    ghost var s: seq<Word> := [ln];
    r[lo] := ln;
    var i, carry := lo + 1, ln < c;
    while carry
      invariant lo < i <= hi && |s| == i - lo && Carried(s, carry, x, c)
      invariant r[lo..i] == s && r[i..hi] == x[i - lo..]
      invariant forall k :: 0 <= k < r.Length && !(lo <= k < hi) ==> r[k] == old(r[k])
      decreases hi - i, carry
    {
      CarriedFits(s, x, c);
      CarriedNext(s, x, c);
      assert r[i] == x[i - lo];
      ln := Add(r[i], 1);
      r[i] := ln;
      carry := ln == 0;
      s := s + [ln];
      i := i + 1;
    }
    CarriedDone(s, x, c);
    assert r[lo..hi] == s + x[|s|..];
  }
}
