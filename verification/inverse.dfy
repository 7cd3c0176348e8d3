/** BN_mod_inverse: the binary algorithm for odd moduli and Euclid's for the others. */
module Inverse {
  import opened Words
  import opened Bignum
  import opened Modular
  import opened Solutions
  import Division
  import Product
  import opened Shift

  // ----- the binary algorithm

  /** Halving both x and what it solves, x having been made even. */
  lemma HalvedSolution(s: bool, x: nat, x1: nat, a: int, c: nat, n: nat)
    requires n > 0 && n % 2 == 1 && c % 2 == 0 && Solves(Signed(s, x), a, c, n)
    requires 2 * x1 == x + if x % 2 == 1 then n else 0
    ensures Solves(Signed(s, x1), a, c / 2, n)
  {
    var k: int := if x % 2 == 0 then 0 else if s then -1 else 1;
    MulEqual(n, k, k);
    SolvesHalf(Signed(s, x), Signed(s, x1), a, c / 2, n, k);
  }

  lemma {:induction false} WithinTwos(x: int, c: nat, k: nat, a: int, n: int)
    requires Within(x, Twos(c, k), a, n)
    ensures Within(x, c, a, n)
  {
    if k != 0 {
      WithinHalf(x, Twos(c, k - 1), a, n);
      WithinTwos(x, c, k - 1, a, n);
    }
  }

  /** x is made even with the modulus and halved. */
  method HalveOnce(x: Big, n: Big)
    requires x.Valid() && n.Valid() && x != n && x.d != n.d && n.Mag() % 2 == 1
    modifies x, x.d
    ensures x.Valid() && (x.d == old(x.d) || fresh(x.d))
    ensures 2 * x.Mag() == old(x.Mag() + if x.Mag() % 2 == 1 then n.Mag() else 0)
    ensures old(!x.neg) ==> !x.neg
  {
    EvenSum(x.Mag(), n.Mag());
    if x.IsOdd() {
      x.UAdd(x, n);
    }
    x.RShift1(x);
  }

  lemma EvenSum(x: nat, n: nat)
    requires n % 2 == 1
    ensures var y := x + if x % 2 == 1 then n else 0; 2 * (y / 2) == y
  {
  }

  /** Four numbers that take part in the computation, no two of which share words. */
  ghost predicate Apart3(x: Big, y: Big, z: Big)
    reads x, y, z
  {
    x != y && x != z && y != z && x.d != y.d && x.d != z.d && y.d != z.d
  }

  /** The loops that divide b by the twos it contains, and x with it modulo n: what x
      solves is divided too. */
  method DivideTwos(b: Big, x: Big, n: Big, ghost s: bool, ghost a: int) returns (ghost k: nat)
    requires b.Valid() && x.Valid() && n.Valid() && Apart3(b, x, n) && !x.neg
    requires n.Mag() % 2 == 1 && b.Mag() > 0 && Solves(Signed(s, x.Mag()), a, b.Mag(), n.Mag())
    modifies b, b.d, x, x.d
    ensures b.Valid() && (b.d == old(b.d) || fresh(b.d))
    ensures x.Valid() && (x.d == old(x.d) || fresh(x.d)) && !x.neg && Apart3(b, x, n)
    ensures b.Mag() % 2 == 1 && old(b.Mag()) == Twos(b.Mag(), k) && (b.neg ==> old(b.neg))
    ensures Solves(Signed(s, x.Mag()), a, b.Mag(), n.Mag())
  {
    ghost var c := b.Mag();
    TwosIs(c, 0);
    var shift := 0;
    var odd := b.IsBitSet(0);
    while !odd
      invariant x.Valid() && (x.d == old(x.d) || fresh(x.d)) && !x.neg && c > 0
      invariant unchanged(b) && unchanged(b.d) && b.Mag() == Twos(c, shift) && odd == (c % 2 == 1)
      invariant Solves(Signed(s, x.Mag()), a, c, n.Mag())
      decreases c
    {
      ghost var v := x.Mag();
      shift := shift + 1;
      HalveOnce(x, n);
      HalvedSolution(s, v, x.Mag(), a, c, n.Mag());
      TwosHalf(c, shift - 1);
      c := c / 2;
      TwosIs(c, shift);
      odd := b.IsBitSet(shift);
    }
    k := shift;
    TwosIs(c, shift);
    if shift > 0 {
      b.RShift(b, shift);
    }
  }

  /** The numbers of the computation are different and do not share words. */
  ghost predicate Distinct(A: Big, B: Big, X: Big, Y: Big, n: Big)
    reads A, B, X, Y, n
  {
    && Apart3(A, B, n) && Apart3(X, Y, n) && Apart3(A, X, Y) && Apart3(B, X, Y)
  }

  /** The numbers that the steps below change keep what they refer to or get new arrays. */
  twostate predicate SameOrNew(x: Big)
    reads x
  {
    x.d == old(x.d) || fresh(x.d)
  }

  /** X solves B and Y solves A with the opposite sign; A and B have no more common
      divisors than a and n. */
  ghost predicate Solved(A: nat, B: nat, X: nat, Y: nat, n: nat, a: int) {
    && n % 2 == 1 && A > 0
    && Solves(Signed(false, X), a, B, n) && Solves(Signed(true, Y), a, A, n)
    && Within(A, B, a, n)
  }

  /** The state between the steps of the binary algorithm. */
  ghost predicate Running(A: Big, B: Big, X: Big, Y: Big, n: Big, a: int)
    reads A, A.d, B, B.d, X, X.d, Y, Y.d, n, n.d
  {
    && A.Valid() && B.Valid() && X.Valid() && Y.Valid() && n.Valid() && Distinct(A, B, X, Y, n)
    && !X.neg && !Y.neg && !A.neg
    && Solved(A.Mag(), B.Mag(), X.Mag(), Y.Mag(), n.Mag(), a)
  }

  lemma SolvedSub(A: nat, B: nat, X: nat, Y: nat, n: nat, a: int)
    requires Solved(A, B, X, Y, n, a)
    ensures A <= B ==> Solved(A, B - A, X + Y, Y, n, a)
    ensures A > B ==> Solved(A - B, B, X, Y + X, n, a)
  {
    var x, y := Signed(false, X), Signed(true, Y);
    if A <= B {
      SolvesSum(x, y, a, B, A, n);
      WithinSwap(A, B, a, n);
      WithinLess(B, A, 1, a, n);
      WithinSwap(B - A, A, a, n);
    } else {
      SolvesSum(y, x, a, A, B, n);
      WithinLess(A, B, 1, a, n);
    }
  }

  /** The subtraction of the smaller of A and B from the larger. */
  method SubtractSmaller(A: Big, B: Big, X: Big, Y: Big, n: Big, ghost a: int)
    requires Running(A, B, X, Y, n, a) && B.Mag() > 0
    modifies A, A.d, B, B.d, X, X.d, Y, Y.d
    ensures Running(A, B, X, Y, n, a)
    ensures A.Mag() + B.Mag() < old(A.Mag() + B.Mag())
    ensures SameOrNew(A) && SameOrNew(B) && SameOrNew(X) && SameOrNew(Y)
  {
    SolvedSub(A.Mag(), B.Mag(), X.Mag(), Y.Mag(), n.Mag(), a);
    var c := B.UCmp(A);
    if c >= 0 {
      AddAndSubtract(X, Y, B, A);
    } else {
      AddAndSubtract(Y, X, A, B);
    }
  }

  method AddAndSubtract(X: Big, Y: Big, B: Big, A: Big)
    requires A.Valid() && B.Valid() && X.Valid() && Y.Valid() && Apart3(A, X, Y) && Apart3(B, X, Y)
    requires A != B && A.d != B.d && A.Mag() <= B.Mag()
    modifies X, X.d, B, B.d
    ensures B.Valid() && X.Valid() && SameOrNew(B) && SameOrNew(X) && B.d != X.d
    ensures X.Mag() == old(X.Mag() + Y.Mag()) && B.Mag() == old(B.Mag() - A.Mag()) && !X.neg && !B.neg
  {
    X.UAdd(X, Y);
    B.USub(B, A);
  }

  /** The twos of B, and the same for A, with what their loops do to X and Y. */
  method OddB(A: Big, B: Big, X: Big, Y: Big, n: Big, ghost a: int)
    requires Running(A, B, X, Y, n, a) && B.Mag() > 0
    modifies B, B.d, X, X.d
    ensures Running(A, B, X, Y, n, a) && 0 < B.Mag() <= old(B.Mag())
    ensures SameOrNew(B) && SameOrNew(X)
  {
    ghost var v := B.Mag();
    ghost var k := DivideTwos(B, X, n, false, a);
    WithinTwos(A.Mag(), B.Mag(), k, a, n.Mag());
    TwosBelow(B.Mag(), k);
  }

  method OddA(A: Big, B: Big, X: Big, Y: Big, n: Big, ghost a: int)
    requires Running(A, B, X, Y, n, a)
    modifies A, A.d, Y, Y.d
    ensures Running(A, B, X, Y, n, a) && A.Mag() <= old(A.Mag())
    ensures SameOrNew(A) && SameOrNew(Y)
  {
    WithinSwap(A.Mag(), B.Mag(), a, n.Mag());
    ghost var k := DivideTwos(A, Y, n, true, a);
    WithinTwos(B.Mag(), A.Mag(), k, a, n.Mag());
    WithinSwap(B.Mag(), A.Mag(), a, n.Mag());
    TwosBelow(A.Mag(), k);
  }

  /** The binary algorithm, run until B is zero: A is then the only number that is
      left to share divisors with. */
  method Binary(A: Big, B: Big, X: Big, Y: Big, n: Big, ghost a: int)
    requires Running(A, B, X, Y, n, a)
    modifies A, A.d, B, B.d, X, X.d, Y, Y.d
    ensures Running(A, B, X, Y, n, a) && B.Mag() == 0
    ensures SameOrNew(A) && SameOrNew(Y)
  {
    while !B.IsZero()
      invariant Running(A, B, X, Y, n, a)
      invariant SameOrNew(A) && SameOrNew(B) && SameOrNew(X) && SameOrNew(Y)
      decreases A.Mag() + B.Mag()
    {
      BinaryRound(A, B, X, Y, n, a);
    }
  }

  method BinaryRound(A: Big, B: Big, X: Big, Y: Big, n: Big, ghost a: int)
    requires Running(A, B, X, Y, n, a) && B.Mag() > 0
    modifies A, A.d, B, B.d, X, X.d, Y, Y.d
    ensures Running(A, B, X, Y, n, a)
    ensures A.Mag() + B.Mag() < old(A.Mag() + B.Mag())
    ensures SameOrNew(A) && SameOrNew(B) && SameOrNew(X) && SameOrNew(Y)
  {
    OddB(A, B, X, Y, n, a);
    OddA(A, B, X, Y, n, a);
    SubtractSmaller(A, B, X, Y, n, a);
  }

  // ----- Euclid's algorithm

  /** Numbers whose bits differ by at most one are close. */
  lemma BitsRatio(x: nat, y: nat, j: nat, k: nat)
    requires k > 0 && Pow2(k - 1) <= y < Pow2(k)
    requires j > 0 && Pow2(j - 1) <= x < Pow2(j)
    ensures j == k ==> x < 2 * y
    ensures j == k + 1 ==> y < x < 4 * y
  {
  }

  /** The quotient and remainder that go with a small quotient. */
  lemma SmallQuotient(x: nat, y: nat, q: nat)
    requires y > 0 && q <= 3 && q * y <= x < (q + 1) * y
    ensures x / y == q && x % y == x - q * y
  {
    MulEqual(y, q, q);
    DivideExact(x, y, q, x - q * y);
  }

  /** D = 1 and M = A - B */
  method OnceLess(D: Big, M: Big, A: Big, B: Big)
    requires D.Valid() && M.Valid() && A.Valid() && B.Valid() && Apart3(D, M, A) && Apart3(D, M, B)
    requires !A.neg && !B.neg && 0 < B.Mag() <= A.Mag() < 2 * B.Mag()
    modifies D, D.d, M, M.d
    ensures D.Valid() && M.Valid() && SameOrNew(D) && SameOrNew(M) && D.d != M.d
    ensures D.Mag() == A.Mag() / B.Mag() && M.Mag() == A.Mag() % B.Mag() && !D.neg && !M.neg
  {
    SmallQuotient(A.Mag(), B.Mag(), 1);
    D.SetWord(1);
    M.Sub(A, B);
    M.ZeroTop();
  }

  /** D = 2 or 3 and M to match; T is twice B. */
  method TwiceOrThrice(D: Big, M: Big, A: Big, B: Big, T: Big)
    requires D.Valid() && M.Valid() && A.Valid() && B.Valid() && T.Valid()
    requires Apart3(D, M, A) && Apart3(D, M, B) && Apart3(D, M, T)
    requires !A.neg && !B.neg && !T.neg && 0 < B.Mag() && T.Mag() == 2 * B.Mag() <= A.Mag() < 4 * B.Mag()
    modifies D, D.d, M, M.d
    ensures D.Valid() && M.Valid() && SameOrNew(D) && SameOrNew(M) && D.d != M.d
    ensures D.Mag() == A.Mag() / B.Mag() && M.Mag() == A.Mag() % B.Mag() && !D.neg && !M.neg
  {
    M.Sub(A, T);
    M.ZeroTop();
    ChooseThrice(D, M, A, B, T);
  }

  /** M, which is A less twice B, is the remainder unless another B fits. */
  method ChooseThrice(D: Big, M: Big, A: Big, B: Big, T: Big)
    requires D.Valid() && M.Valid() && A.Valid() && B.Valid() && T.Valid()
    requires Apart3(D, M, A) && Apart3(D, M, B) && Apart3(D, M, T) && !M.neg && M.Mag() == A.Mag() - 2 * B.Mag()
    requires !A.neg && !B.neg && !T.neg && 0 < B.Mag() && T.Mag() == 2 * B.Mag() <= A.Mag() < 4 * B.Mag()
    modifies D, D.d, M, M.d
    ensures D.Valid() && M.Valid() && SameOrNew(D) && SameOrNew(M) && D.d != M.d
    ensures D.Mag() == A.Mag() / B.Mag() && M.Mag() == A.Mag() % B.Mag() && !D.neg && !M.neg
  {
    D.Add(T, B);
    D.ZeroTop();
    var c := A.UCmp(D);
    if c < 0 {
      SmallQuotient(A.Mag(), B.Mag(), 2);
      D.SetWord(2);
    } else {
      SmallQuotient(A.Mag(), B.Mag(), 3);
      Thrice(D, M, B);
    }
  }

  method Thrice(D: Big, M: Big, B: Big)
    requires D.Valid() && M.Valid() && B.Valid() && Apart3(D, M, B) && !M.neg && !B.neg && B.Mag() <= M.Mag()
    modifies D, D.d, M, M.d
    ensures D.Valid() && M.Valid() && SameOrNew(D) && SameOrNew(M) && D.d != M.d
    ensures D.Mag() == 3 && M.Mag() == old(M.Mag()) - B.Mag() && !D.neg && !M.neg
  {
    D.SetWord(3);
    M.Sub(M, B);
    M.ZeroTop();
  }

  /** (D, M) = (A / B, A % B), without a division if the quotient is small. */
  method QuotientStep(D: Big, M: Big, A: Big, B: Big, T: Big)
    requires D.Valid() && M.Valid() && A.Valid() && B.Valid() && T.Valid()
    requires Apart3(D, M, A) && Apart3(D, M, B) && Apart3(D, M, T) && Apart3(A, B, T)
    requires !A.neg && !B.neg && 0 < B.Mag() <= A.Mag()
    modifies D, D.d, M, M.d, T, T.d
    ensures D.Valid() && M.Valid() && T.Valid() && SameOrNew(D) && SameOrNew(M) && SameOrNew(T) && Apart3(D, M, T)
    ensures D.Mag() == A.Mag() / B.Mag() && M.Mag() == A.Mag() % B.Mag() && !D.neg && !M.neg
  {
    var j := A.NumBits();
    var k := B.NumBits();
    BitsRatio(A.Mag(), B.Mag(), j, k);
    if j == k {
      OnceLess(D, M, A, B);
    } else if j == k + 1 {
      T.LShift1(B);
      NearStep(D, M, A, B, T);
    } else {
      var ok := Division.Div(D, M, A, B);
    }
  }

  method NearStep(D: Big, M: Big, A: Big, B: Big, T: Big)
    requires D.Valid() && M.Valid() && A.Valid() && B.Valid() && T.Valid()
    requires Apart3(D, M, A) && Apart3(D, M, B) && Apart3(D, M, T)
    requires !A.neg && !B.neg && !T.neg && 0 < B.Mag() <= A.Mag() < 4 * B.Mag() && T.Mag() == 2 * B.Mag()
    modifies D, D.d, M, M.d
    ensures D.Valid() && M.Valid() && SameOrNew(D) && SameOrNew(M) && D.d != M.d
    ensures D.Mag() == A.Mag() / B.Mag() && M.Mag() == A.Mag() % B.Mag() && !D.neg && !M.neg
  {
    var c := A.UCmp(T);
    if c < 0 {
      OnceLess(D, M, A, B);
    } else {
      TwiceOrThrice(D, M, A, B, T);
    }
  }

  /** tmp = D * X, with shifts for the smallest values of D. */
  method Scale(tmp: Big, D: Big, X: Big, ghost p: nat)
    requires tmp.Valid() && D.Valid() && X.Valid() && Apart3(tmp, D, X) && !D.neg && !X.neg
    requires p == D.Mag() * X.Mag()
    modifies tmp, tmp.d, D.d, X.d
    ensures tmp.Valid() && SameOrNew(tmp) && tmp.Mag() == p && !tmp.neg
    ensures D.Valid() && X.Valid() && X.d[..X.top] == old(X.d[..X.top])
  {
    if D.IsWord(2) {
      tmp.LShift1(X);
    } else if D.IsWord(4) {
      FourTimes();
      tmp.LShift(X, 2);
    } else if D.top == 1 {
      D.OneWord();
      var w := D.d[0];
      tmp.Copy(X);
      tmp.MulWord(w);
      MulEqual(w, X.Mag(), X.Mag());
    } else {
      Product.Mul(tmp, D, X);
      tmp.ZeroTop();
    }
  }

  lemma FourTimes()
    ensures Pow2(2) == 4
  {
    assert Pow2(1) == 2;
  }

  /** tmp = D * X + Y */
  method Coefficient(tmp: Big, D: Big, X: Big, Y: Big, ghost p: nat)
    requires tmp.Valid() && D.Valid() && X.Valid() && Y.Valid() && Apart3(tmp, D, X) && Apart3(tmp, X, Y) && D.d != Y.d
    requires !D.neg && !X.neg && !Y.neg && p == D.Mag() * X.Mag()
    modifies tmp, tmp.d, D.d, X.d
    ensures tmp.Valid() && SameOrNew(tmp) && tmp.Mag() == p + Y.Mag() && !tmp.neg
    ensures D.Valid() && X.Valid() && X.d[..X.top] == old(X.d[..X.top])
  {
    if D.IsWord(1) {
      tmp.Add(X, Y);
    } else {
      Scale(tmp, D, X, p);
      tmp.Add(tmp, Y);
    }
    tmp.ZeroTop();
  }

  /** What Euclid's algorithm keeps: with sign = -1 (neg) or 1, -sign * X solves B and
      sign * Y solves A. */
  ghost predicate EuclidSolved(A: nat, B: nat, X: nat, Y: nat, n: nat, a: int, neg: bool) {
    && 0 < A && B <= A && 0 < n
    && Solves(Signed(!neg, X), a, B, n) && Solves(Signed(neg, Y), a, A, n)
    && Within(A, B, a, n)
  }

  lemma EuclidStep(A: nat, B: nat, X: nat, Y: nat, n: nat, a: int, neg: bool)
    requires EuclidSolved(A, B, X, Y, n, a, neg) && B > 0
    ensures A % B < B && A / B >= 0 && (A / B) * X >= 0
    ensures EuclidSolved(B, A % B, (A / B) * X + Y, X, n, a, !neg)
  {
    var q, m := QuotientIs(A, B);
    EuclidNext(A, B, X, Y, n, a, neg, q, m);
  }

  lemma QuotientIs(A: nat, B: nat) returns (q: nat, m: nat)
    requires 0 < B <= A
    ensures q == A / B && m == A % B && A == B * q + m && q > 0 && m < B
  {
    q, m := A / B, A % B;
    Division.AtLeastOne(A, B);
  }

  lemma EuclidNext(A: nat, B: nat, X: nat, Y: nat, n: nat, a: int, neg: bool, q: nat, m: nat)
    requires EuclidSolved(A, B, X, Y, n, a, neg) && A == B * q + m && m < B && q > 0
    ensures q * X >= 0 && EuclidSolved(B, m, q * X + Y, X, n, a, !neg)
  {
    MulNonNeg(q, X);
    SolvesMultiple(q, Signed(!neg, X), a, B, n);
    SolvesSum(Signed(neg, Y), q * Signed(!neg, X), a, A, q * B, n);
    SignedSum(neg, Y, X, q);
    WithinLess(A, B, q, a, n);
    WithinSwap(m, B, a, n);
  }

  lemma SignedSum(neg: bool, Y: nat, X: nat, q: int)
    ensures Signed(neg, Y) - q * Signed(!neg, X) == Signed(neg, q * X + Y)
  {
    if !neg {
      var x: int := X;
      assert q * (-x) == -(q * x);
    }
  }

  /** No two of the seven numbers share words. */
  ghost predicate AllApart(A: Big, B: Big, X: Big, Y: Big, M: Big, D: Big, T: Big)
    reads A, B, X, Y, M, D, T
  {
    && A !in {B, X, Y, M, D, T} && A.d !in {B.d, X.d, Y.d, M.d, D.d, T.d}
    && B !in {X, Y, M, D, T} && B.d !in {X.d, Y.d, M.d, D.d, T.d}
    && X !in {Y, M, D, T} && X.d !in {Y.d, M.d, D.d, T.d}
    && Y !in {M, D, T} && Y.d !in {M.d, D.d, T.d}
    && M !in {D, T} && M.d !in {D.d, T.d} && D != T && D.d != T.d
  }

  /** The state of Euclid's algorithm between two rounds. */
  ghost predicate EuclidRuns(A: Big, B: Big, X: Big, Y: Big, M: Big, D: Big, T: Big, n: nat, a: int, neg: bool)
    reads A, A.d, B, B.d, X, X.d, Y, Y.d, M, M.d, D, D.d, T, T.d
  {
    && A.Valid() && B.Valid() && X.Valid() && Y.Valid() && M.Valid() && D.Valid() && T.Valid()
    && AllApart(A, B, X, Y, M, D, T) && !A.neg && !B.neg && !X.neg && !Y.neg
    && EuclidSolved(A.Mag(), B.Mag(), X.Mag(), Y.Mag(), n, a, neg)
  }

  /** A round: M becomes A % B, and A, whose value is no longer needed, D * X + Y. The
      caller then lets the names refer to other numbers. */
  method EuclidRound(A: Big, B: Big, X: Big, Y: Big, M: Big, D: Big, T: Big, ghost n: nat, ghost a: int,
                     ghost neg: bool)
    requires EuclidRuns(A, B, X, Y, M, D, T, n, a, neg) && B.Mag() > 0
    modifies A, A.d, X.d, M, M.d, D, D.d, T, T.d
    ensures EuclidRuns(B, M, A, X, Y, D, T, n, a, !neg) && M.Mag() < B.Mag() == old(B.Mag())
    ensures SameOrNew(A) && SameOrNew(M) && SameOrNew(D) && SameOrNew(T)
  {
    EuclidStep(A.Mag(), B.Mag(), X.Mag(), Y.Mag(), n, a, neg);
    ghost var p := (A.Mag() / B.Mag()) * X.Mag();
    QuotientStep(D, M, A, B, T);
    Coefficient(A, D, X, Y, p);
  }

  /** x is one of the numbers that may change, and so are its words unless they are new. */
  twostate predicate Mine(new x: Big, pool: set<object>)
    reads x
  {
    x in pool && (x.d in pool || fresh(x.d))
  }

  twostate predicate AllMine(new A: Big, new B: Big, new X: Big, new Y: Big, new M: Big, new D: Big, new T: Big,
                             pool: set<object>)
    reads A, B, X, Y, M, D, T
  {
    && Mine(A, pool) && Mine(B, pool) && Mine(X, pool) && Mine(Y, pool) && Mine(M, pool)
    && Mine(D, pool) && Mine(T, pool)
  }

  /** Euclid's algorithm, in which five names change places. */
  method Euclid(A0: Big, B0: Big, X0: Big, Y0: Big, M0: Big, D: Big, T: Big, ghost n: nat, ghost a: int,
                ghost pool: set<object>)
    returns (A: Big, Y: Big, neg: bool)
    requires EuclidRuns(A0, B0, X0, Y0, M0, D, T, n, a, true)
    requires pool == {A0, A0.d, B0, B0.d, X0, X0.d, Y0, Y0.d, M0, M0.d, D, D.d, T, T.d}
    modifies pool
    ensures Mine(A, pool) && Mine(Y, pool) && A != Y && A.d != Y.d
    ensures A.Valid() && Y.Valid() && !A.neg && !Y.neg && A.Mag() > 0
    ensures Solves(Signed(neg, Y.Mag()), a, A.Mag(), n) && Within(A.Mag(), 0, a, n)
  {
    A, Y, neg := A0, Y0, true;
    var B, X, M := B0, X0, M0;
    while !B.IsZero()
      invariant EuclidRuns(A, B, X, Y, M, D, T, n, a, neg)
      invariant AllMine(A, B, X, Y, M, D, T, pool)
      decreases B.Mag()
    {
      EuclidRound(A, B, X, Y, M, D, T, n, a, neg);
      A, B, X, Y, M := B, M, A, X, Y;
      neg := !neg;
    }
  }

  // ----- BN_mod_inverse

  /** The temporaries, X being one and Y zero. */
  method NewSeven() returns (A: Big, B: Big, X: Big, Y: Big, M: Big, D: Big, T: Big)
    ensures fresh({A, A.d, B, B.d, X, X.d, Y, Y.d, M, M.d, D, D.d, T, T.d})
    ensures A.Valid() && B.Valid() && X.Valid() && Y.Valid() && M.Valid() && D.Valid() && T.Valid()
    ensures AllApart(A, B, X, Y, M, D, T)
    ensures X.Mag() == 1 && Y.Mag() == 0 && !X.neg && !Y.neg
  {
    A := Product.CtxGet();
    B := Product.CtxGet();
    X := NewOne();
    D := Product.CtxGet();
    M := Product.CtxGet();
    Y := NewZero();
    T := Product.CtxGet();
  }

  method NewOne() returns (X: Big)
    ensures fresh(X) && fresh(X.d) && X.Valid() && X.Mag() == 1 && !X.neg
  {
    X := Product.CtxGet();
    X.SetWord(1);
  }

  method NewZero() returns (Y: Big)
    ensures fresh(Y) && fresh(Y.d) && Y.Valid() && Y.Mag() == 0 && !Y.neg
  {
    Y := Product.CtxGet();
    Y.Zero();
  }

  /** What holds before the first step: a is congruent to B and zero to A. */
  lemma SolvedAtStart(A: nat, B: nat, n: nat, a: int)
    requires A == n > 0 && B <= A && Cong(a, B, n)
    ensures EuclidSolved(A, B, 1, 0, n, a, true)
    ensures n % 2 == 1 ==> Solved(A, B, 1, 0, n, a)
  {
    TimesIs(1, a);
    CongIntro(0, n, -1, n);
    var k := CongElim(a, B, n);
    forall d: int | d > 0 && Divides(d, A) && Divides(d, B) ensures Divides(d, a) && Divides(d, n) {
      DividesMultiple(d, k, n);
      MulEqual(n, k, k);
      DividesSum(d, B, k * n);
    }
  }

  /** B = a modulo |n| and A = |n| */
  method Operands(A: Big, B: Big, a: Big, n: Big)
    requires A.Valid() && B.Valid() && a.Valid() && n.Valid() && n.Mag() > 0
    requires A != B && A.d != B.d && A != a && A != n && B != a && B != n
    requires A.d != a.d && A.d != n.d && B.d != a.d && B.d != n.d
    modifies A, A.d, B, B.d
    ensures A.Valid() && B.Valid() && SameOrNew(A) && SameOrNew(B) && A.d != B.d
    ensures A.Mag() == n.Mag() && !A.neg && !B.neg && B.Mag() <= A.Mag()
    ensures Cong(a.Int(), B.Mag(), n.Mag())
  {
    B.Copy(a);
    A.Copy(n);
    A.neg := false;
    var c := B.UCmp(A);
    if B.neg || c >= 0 {
      ghost var v, z := B.Int(), B.neg && B.top == 0;
      B.ZeroTop();
      CongResidue(v, A.Mag());
      CongIntro(0, A.Mag(), -1, A.Mag());
      var ok := Division.NNMod(B, B, A);
      B.ZeroTop();
    }
  }

  method Start(a: Big, n: Big)
    returns (A: Big, B: Big, X: Big, Y: Big, M: Big, D: Big, T: Big, ghost pool: set<object>)
    requires a.Valid() && n.Valid() && n.Mag() > 0
    ensures pool == {A, A.d, B, B.d, X, X.d, Y, Y.d, M, M.d, D, D.d, T, T.d} && fresh(pool)
    ensures EuclidRuns(A, B, X, Y, M, D, T, n.Mag(), a.Int(), true)
    ensures n.Mag() % 2 == 1 ==> Solved(A.Mag(), B.Mag(), X.Mag(), Y.Mag(), n.Mag(), a.Int())
  {
    A, B, X, Y, M, D, T := NewSeven();
    Operands(A, B, a, n);
    SolvedAtStart(A.Mag(), B.Mag(), n.Mag(), a.Int());
    pool := {A, A.d, B, B.d, X, X.d, Y, Y.d, M, M.d, D, D.d, T, T.d};
  }

  /** The loops: what is left in A and what solves it. */
  method Search(a: Big, n: Big, ghost v: int, ghost m: nat) returns (A: Big, Y: Big, neg: bool)
    requires a.Valid() && n.Valid() && v == a.Int() && m == n.Mag() > 0
    ensures fresh(A) && fresh(A.d) && fresh(Y) && fresh(Y.d) && A != Y && A.d != Y.d
    ensures A.Valid() && Y.Valid() && !A.neg && !Y.neg && A.Mag() > 0
    ensures Solves(Signed(neg, Y.Mag()), v, A.Mag(), m) && Within(A.Mag(), 0, v, m)
  {
    var B, X, M, D, T;
    ghost var pool;
    A, B, X, Y, M, D, T, pool := Start(a, n);
    var bits := n.NumBits();
    if n.IsOdd() && bits <= 2048 {
      neg := true;
      Binary(A, B, X, Y, n, v);
    } else {
      A, Y, neg := Euclid(A, B, X, Y, M, D, T, m, v, pool);
    }
  }

  /** A solution with the modulus added or taken away is a solution. */
  lemma SolvesShifted(x: int, y: int, k: int, a: int, b: int, n: int)
    requires n > 0 && Solves(x, a, b, n) && y == x + n * k
    ensures Solves(y, a, b, n)
  {
    TimesIs(x, a);
    TimesIs(y, a);
    Distrib(x, n * k, a);
    MulAssoc(n, k, a);
    CongIntro(Times(y, a), Times(x, a), k * a, n);
  }

  lemma SolvesReduced(x: int, a: int, b: int, n: int)
    requires n > 0 && Solves(x, a, b, n)
    ensures Solves(x % n, a, b, n) && 0 <= x % n < n
  {
    var q, r := x / n, x % n;
    assert x == n * q + r;
    assert n * (-q) == -(n * q);
    SolvesShifted(x, r, -q, a, b, n);
  }

  /** Y = n - Y if the sign is negative, so that Y itself solves. */
  method TakeSign(Y: Big, n: Big, neg: bool, ghost a: int, ghost b: int)
    requires Y.Valid() && n.Valid() && Y != n && Y.d != n.d && !Y.neg && n.Mag() > 0
    requires Solves(Signed(neg, Y.Mag()), a, b, n.Mag())
    modifies Y, Y.d
    ensures Y.Valid() && SameOrNew(Y) && Y.Proper()
    ensures Solves(Y.Int(), a, b, n.Mag())
  {
    if neg {
      n.ZeroTop();
      SolvesShifted(-Y.Int(), n.Int() - Y.Int(), if n.neg then -1 else 1, a, b, n.Mag());
      Y.Sub(n, Y);
    }
  }

  /** BN_mod_inverse: it succeeds exactly if a and the modulus have no divisor but one
      in common, and then gives the inverse of a that is not negative and below |n|. */
  method ModInverse(R: Big, a: Big, n: Big) returns (ok: bool)
    requires R.Valid() && a.Valid() && n.Valid() && R.Sep(a) && R != n && R.d != n.d
    modifies R, R.d
    ensures R.Valid() && SameOrNew(R)
    ensures ok <==> old(n.Mag() > 0 && Coprime(a.Int(), n.Mag()))
    ensures ok ==> 0 <= R.Int() < n.Mag() && Solves(R.Int(), old(a.Int()), 1, n.Mag())
  {
    n.ZeroTop();
    if n.IsZero() {
      return false;
    }
    var A, Y, neg := Search(a, n, a.Int(), n.Mag());
    TakeSign(Y, n, neg, a.Int(), A.Mag());
    EndIsCommon(A.Mag(), a.Int(), n.Mag());
    ok := A.IsWord(1);
    if ok {
      InverseMeansCoprime(Y.Int(), a.Int(), n.Mag());
      SolvesReduced(Y.Int(), a.Int(), 1, n.Mag());
      Reduce(R, Y, n);
    }
  }

  /** R = Y modulo |n|, a copy if Y is reduced already. */
  method Reduce(R: Big, Y: Big, n: Big)
    requires R.Valid() && Y.Valid() && n.Valid() && Apart3(R, Y, n) && n.Mag() > 0 && Y.Proper()
    modifies R, R.d
    ensures R.Valid() && SameOrNew(R) && R.Int() == Y.Int() % n.Mag()
  {
    var c := Y.UCmp(n);
    if !Y.neg && c < 0 {
      DivideExact(Y.Int(), n.Mag(), 0, Y.Int());
      R.Copy(Y);
    } else {
      var ok := Division.NNMod(R, Y, n);
    }
  }
}
