/** Congruences, with residues taken by repeated steps of the modulus. */
module Modular {
  import opened Words
  import Shift

  /** What is left of x in steps of n. */
  function Residue(x: int, n: int): (r: int)
    requires n > 0
    ensures 0 <= r < n
    decreases if x < 0 then n - x else x
  {
    if x < 0 then Residue(x + n, n) else if x < n then x else Residue(x - n, n)
  }

  lemma {:induction false} ResidueIsMod(x: int, n: int)
    requires n > 0
    ensures Residue(x, n) == x % n
    decreases if x < 0 then n - x else x
  {
    if x < 0 {
      ResidueIsMod(x + n, n);
      ModStep(x, n);
    } else if x < n {
      DivideExact(x, n, 0, x);
    } else {
      ResidueIsMod(x - n, n);
      ModStep(x - n, n);
    }
  }

  lemma ModStep(x: int, n: int)
    requires n > 0
    ensures (x + n) % n == x % n
  {
    var q, r := x / n, x % n;
    assert x == n * q + r;
    DivideExact(x + n, n, q + 1, r);
  }

  predicate Cong(x: int, y: int, n: int)
    requires n > 0
  {
    Residue(x, n) == Residue(y, n)
  }

  lemma {:induction false} ResidueParts(x: int, n: int) returns (q: int)
    requires n > 0
    ensures x == Residue(x, n) + n * q
    decreases if x < 0 then n - x else x
  {
    if x < 0 {
      q := ResidueParts(x + n, n);
      Spread(n, q, 1);
      q := q - 1;
    } else if x < n {
      q := 0;
    } else {
      q := ResidueParts(x - n, n);
      Spread(n, q, 1);
      q := q + 1;
    }
  }

  lemma ResidueUnique(x: int, n: int, r: int, q: int)
    requires n > 0 && 0 <= r < n && x == r + n * q
    ensures Residue(x, n) == r
  {
    var p := ResidueParts(x, n);
    Spread(n, p, q);
    var k := p - q;
    MulEqual(n, k, k);
    UnitMultiple(k, n);
  }

  lemma CongIntro(x: int, y: int, k: int, n: int)
    requires n > 0 && x == y + n * k
    ensures Cong(x, y, n)
  {
    var q := ResidueParts(y, n);
    Spread(n, q, k);
    ResidueUnique(x, n, Residue(y, n), q + k);
  }

  lemma CongElim(x: int, y: int, n: int) returns (k: int)
    requires n > 0 && Cong(x, y, n)
    ensures x == y + n * k
  {
    var p := ResidueParts(x, n);
    var q := ResidueParts(y, n);
    Spread(n, p, q);
    k := p - q;
  }

  lemma CongAdd(x: int, y: int, u: int, v: int, n: int)
    requires n > 0 && Cong(x, y, n) && Cong(u, v, n)
    ensures Cong(x + u, y + v, n) && Cong(x - u, y - v, n)
  {
    var k := CongElim(x, y, n);
    var l := CongElim(u, v, n);
    Spread(n, k, l);
    CongIntro(x + u, y + v, k + l, n);
    CongIntro(x - u, y - v, k - l, n);
  }

  lemma CongMul(x: int, y: int, u: int, v: int, n: int)
    requires n > 0 && Cong(x, y, n) && Cong(u, v, n)
    ensures Cong(x * u, y * v, n)
  {
    var k := CongElim(x, y, n);
    var l := CongElim(u, v, n);
    ProductOfMultiples(x, y, u, v, k, l, n);
    CongIntro(x * u, y * v, k * u + y * l, n);
  }

  lemma ProductOfMultiples(x: int, y: int, u: int, v: int, k: int, l: int, n: int)
    requires x == y + n * k && u == v + n * l
    ensures x * u == y * v + n * (k * u + y * l)
  {
    assert x * u == y * u + n * k * u;
    assert y * u == y * v + n * (y * l);
    assert n * k * u == n * (k * u);
  }

  lemma CongResidue(x: int, n: int)
    requires n > 0
    ensures Cong(x, x % n, n) && 0 <= x % n < n
  {
    assert x == n * (x / n) + x % n;
    CongIntro(x, x % n, x / n, n);
  }

  /** A congruence with a reduced number is a residue. */
  lemma CongReduced(x: int, y: int, n: int)
    requires n > 0 && Cong(x, y, n) && 0 <= x < n
    ensures x == y % n
  {
    ResidueIsMod(x, n);
    ResidueIsMod(y, n);
    DivideExact(x, n, 0, x);
  }

  // ----- odd moduli

  /** A factor of two can be cancelled for an odd modulus. */
  lemma CancelTwo(x: int, y: int, n: int)
    requires n > 0 && n % 2 == 1 && Cong(2 * x, 2 * y, n)
    ensures Cong(x, y, n)
  {
    var k := CongElim(2 * x, 2 * y, n);
    EvenFactor(n, k, x - y);
    CongIntro(x, y, k / 2, n);
  }

  lemma EvenFactor(n: int, k: int, z: int)
    requires n % 2 == 1 && 2 * z == n * k
    ensures z == n * (k / 2)
  {
    var h, e := k / 2, k % 2;
    assert k == h + h + e;
    Spread(n, h + h, e);
    Spread(n, h, h);
    UnitTimes(n, e);
  }

  lemma UnitTimes(n: int, e: int)
    requires 0 <= e <= 1
    ensures n * e == if e == 0 then 0 else n
  {
  }

  lemma {:induction false} CancelPow2(x: int, y: int, n: int, b: nat)
    requires n > 0 && n % 2 == 1 && Cong(Shift.Pow2(b) * x, Shift.Pow2(b) * y, n)
    ensures Cong(x, y, n)
  {
    if b != 0 {
      var p := Shift.Pow2(b - 1);
      MulAssoc(2, p, x);
      MulAssoc(2, p, y);
      CancelTwo(p * x, p * y, n);
      CancelPow2(x, y, n, b - 1);
    }
  }

  /** Words by which both sides were moved up can be cancelled for an odd modulus. */
  lemma {:induction false} CancelUp(x: int, y: int, n: int, k: nat)
    requires n > 0 && n % 2 == 1 && Cong(Up(x, k), Up(y, k), n)
    ensures Cong(x, y, n)
  {
    if k != 0 {
      Shift.Pow2Word();
      CancelPow2(Up(x, k - 1), Up(y, k - 1), n, 32);
      CancelUp(x, y, n, k - 1);
    }
  }

  lemma CongUp(x: int, y: int, n: int, k: nat)
    requires n > 0 && Cong(x, y, n)
    ensures Cong(Up(x, k), Up(y, k), n)
  {
    UpPow(x, k);
    UpPow(y, k);
    CongMul(x, y, Pow(k), Pow(k), n);
  }

  /** A reduced number that becomes a multiple of an odd modulus when moved up is zero. */
  lemma UpToZero(x: int, n: int, k: nat)
    requires n > 0 && n % 2 == 1 && 0 <= x < n && Cong(Up(x, k), 0, n)
    ensures x == 0
  {
    UpZero(k);
    CancelUp(x, 0, n, k);
  }
}
