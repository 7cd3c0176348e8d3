/** The congruences that the two algorithms of BN_mod_inverse keep, and the common
    divisors of the numbers they reduce. */
module Solutions {
  import opened Words
  import opened Modular
  import Shift

  // ----- x * a == b modulo n

  /** x * a by steps of a. */
  ghost function Times(x: int, a: int): int
    decreases if x < 0 then -x else x
  {
    if x == 0 then 0 else if x > 0 then Times(x - 1, a) + a else Times(x + 1, a) - a
  }

  lemma {:induction false} TimesIs(x: int, a: int)
    ensures Times(x, a) == x * a
    decreases if x < 0 then -x else x
  {
    if x > 0 {
      TimesIs(x - 1, a);
      Distrib(x, 1, a);
    } else if x < 0 {
      TimesIs(x + 1, a);
      Distrib(x, 1, a);
    }
  }

  ghost predicate Solves(x: int, a: int, b: int, n: int)
    requires n > 0
  {
    Cong(Times(x, a), b, n)
  }

  lemma SolvesSum(x: int, y: int, a: int, b: int, c: int, n: int)
    requires n > 0 && Solves(x, a, b, n) && Solves(y, a, c, n)
    ensures Solves(x + y, a, b + c, n) && Solves(x - y, a, b - c, n)
  {
    TimesIs(x, a);
    TimesIs(y, a);
    TimesIs(x + y, a);
    TimesIs(x - y, a);
    Distrib(x, y, a);
    CongAdd(Times(x, a), b, Times(y, a), c, n);
  }

  lemma SolvesMultiple(k: int, x: int, a: int, b: int, n: int)
    requires n > 0 && Solves(x, a, b, n)
    ensures Solves(k * x, a, k * b, n)
  {
    TimesIs(x, a);
    TimesIs(k * x, a);
    MulAssoc(k, x, a);
    CongMul(k, k, Times(x, a), b, n);
  }

  /** For an odd modulus a solution for an even number can be halved, made even first
      if need be by adding the modulus. */
  lemma SolvesHalf(x: int, x1: int, a: int, c: int, n: int, k: int)
    requires n > 0 && n % 2 == 1 && Solves(x, a, 2 * c, n) && 2 * x1 == x + n * k
    ensures Solves(x1, a, c, n)
  {
    TimesIs(x, a);
    TimesIs(x1, a);
    MulAssoc(2, x1, a);
    Distrib(x, n * k, a);
    MulAssoc(n, k, a);
    CongIntro(2 * Times(x1, a), Times(x, a), k * a, n);
    CancelTwo(Times(x1, a), c, n);
  }

  // ----- common divisors

  ghost predicate Divides(d: int, x: int)
    requires d > 0
  {
    Cong(x, 0, d)
  }

  /** Every common divisor of x and y is one of a and n. */
  ghost predicate Within(x: int, y: int, a: int, n: int) {
    forall d: int :: d > 0 && Divides(d, x) && Divides(d, y) ==> Divides(d, a) && Divides(d, n)
  }

  ghost predicate Coprime(a: int, n: int) {
    forall d: int :: d > 0 && Divides(d, a) && Divides(d, n) ==> d == 1
  }

  lemma DividesSum(d: int, x: int, y: int)
    requires d > 0 && Divides(d, x) && Divides(d, y)
    ensures Divides(d, x + y) && Divides(d, x - y)
  {
    CongAdd(x, 0, y, 0, d);
  }

  lemma DividesMultiple(d: int, k: int, x: int)
    requires d > 0 && Divides(d, x)
    ensures Divides(d, k * x)
  {
    CongMul(k, k, x, 0, d);
  }

  lemma DividesSelf(d: int)
    requires d > 0
    ensures Divides(d, d) && Divides(d, 0)
  {
    CongIntro(d, 0, 1, d);
  }

  /** A divisor of one is one. */
  lemma DividesOne(d: int)
    requires d > 0 && Divides(d, 1)
    ensures d == 1
  {
    assert Residue(0, d) == 0;
  }

  lemma WithinHalf(x: int, c: int, a: int, n: int)
    requires Within(x, 2 * c, a, n)
    ensures Within(x, c, a, n)
  {
    forall d: int | d > 0 && Divides(d, x) && Divides(d, c) ensures Divides(d, a) && Divides(d, n) {
      DividesMultiple(d, 2, c);
    }
  }

  lemma WithinSwap(x: int, y: int, a: int, n: int)
    requires Within(x, y, a, n)
    ensures Within(y, x, a, n)
  {
  }

  /** Taking a multiple of one number from the other adds no common divisor. */
  lemma WithinLess(x: int, y: int, k: int, a: int, n: int)
    requires Within(x, y, a, n)
    ensures Within(x - k * y, y, a, n)
  {
    forall d: int | d > 0 && Divides(d, x - k * y) && Divides(d, y) ensures Divides(d, a) && Divides(d, n) {
      DividesMultiple(d, k, y);
      DividesSum(d, x - k * y, k * y);
    }
  }

  /** A number with an inverse has no divisor but one in common with the modulus. */
  lemma InverseMeansCoprime(x: int, a: int, n: int)
    requires n > 0 && Solves(x, a, 1, n)
    ensures Coprime(a, n)
  {
    TimesIs(x, a);
    var k := CongElim(Times(x, a), 1, n);
    forall d: int | d > 0 && Divides(d, a) && Divides(d, n) ensures d == 1 {
      DividesMultiple(d, x, a);
      DividesMultiple(d, k, n);
      MulEqual(n, k, k);
      DividesSum(d, x * a, k * n);
      DividesOne(d);
    }
  }

  /** If the reduction ends with x and zero then x is a common divisor. */
  lemma EndIsCommon(x: int, a: int, n: int)
    requires x > 0 && Within(x, 0, a, n)
    ensures x != 1 ==> !Coprime(a, n)
  {
    DividesSelf(x);
  }

  // ----- powers of two

  /** Modulo an odd number every power of two has an inverse. */
  lemma {:induction false} PowerInverse(n: int, k: nat) returns (x: int)
    requires n > 0 && n % 2 == 1
    ensures Solves(x, Shift.Pow2(k), 1, n)
  {
    if k == 0 {
      x := 1;
      TimesIs(1, 1);
    } else {
      var y := PowerInverse(n, k - 1);
      var h, p := (n + 1) / 2, Shift.Pow2(k - 1);
      x := y * h;
      CongIntro(h * 2, 1, 1, n);
      TimesIs(y, p);
      TimesIs(x, 2 * p);
      CongMul(Times(y, p), 1, h * 2, 1, n);
      Rearrange(y, h, p);
    }
  }

  lemma Rearrange(y: int, h: int, p: int)
    ensures (y * h) * (2 * p) == (y * p) * (h * 2)
  {
    MulAssoc(y, h, 2 * p);
    MulAssoc(y, p, h * 2);
    assert h * (2 * p) == p * (h * 2);
  }

  /** A number has no divisor in common with a word's range exactly if it is odd. */
  lemma OddIsCoprime(n: int)
    requires n > 0
    ensures Coprime(B, n) <==> n % 2 == 1
  {
    if n % 2 == 1 {
      Shift.Pow2Word();
      var x := PowerInverse(n, 32);
      InverseMeansCoprime(x, B, n);
    } else {
      CongIntro(n, 0, n / 2, 2);
      CongIntro(B, 0, B / 2, 2);
      assert Divides(2, B) && Divides(2, n);
    }
  }
}
