/** Powers in Montgomery form and the bits of an exponent. */
module Power {
  import opened Words
  import opened Modular
  import opened Shift

  function Exp(g: int, k: nat): int {
    if k == 0 then 1 else g * Exp(g, k - 1)
  }

  lemma {:induction false} ExpAdd(g: int, j: nat, k: nat)
    ensures Exp(g, j + k) == Exp(g, j) * Exp(g, k)
  {
    if j != 0 {
      ExpAdd(g, j - 1, k);
      MulAssoc(g, Exp(g, j - 1), Exp(g, k));
    }
  }

  lemma {:induction false} CongExp(x: int, y: int, k: nat, n: int)
    requires n > 0 && Cong(x, y, n)
    ensures Cong(Exp(x, k), Exp(y, k), n)
  {
    if k != 0 {
      CongExp(x, y, k - 1, n);
      CongMul(x, y, Exp(x, k - 1), Exp(y, k - 1), n);
    }
  }

  /** z is g to the k, moved up by the nl words of the odd modulus n and reduced. */
  ghost predicate IsPower(z: int, g: int, k: nat, n: int, nl: nat)
    requires n > 0
  {
    0 <= z < n && Cong(z, Up(Exp(g, k), nl), n)
  }

  /** A Montgomery product of powers is the power to the sum of the exponents. */
  lemma PowerProduct(z: int, x: int, y: int, g: int, j: nat, k: nat, n: int, nl: nat)
    requires n > 0 && n % 2 == 1 && 0 <= z < n && Cong(Up(z, nl), x * y, n)
    requires IsPower(x, g, j, n, nl) && IsPower(y, g, k, n, nl)
    ensures IsPower(z, g, j + k, n, nl)
  {
    var u, v := Exp(g, j), Exp(g, k);
    CongMul(x, Up(u, nl), y, Up(v, nl), n);
    UpProduct(u, v, nl);
    ExpAdd(g, j, k);
    CancelUp(z, Up(u * v, nl), n, nl);
  }

  /** A number becomes its first power by a Montgomery product with the square of what
      the form multiplies with. */
  lemma FirstPower(z: int, x: int, rr: int, g: int, n: int, nl: nat)
    requires n > 0 && n % 2 == 1 && 0 <= z < n && Cong(Up(z, nl), x * rr, n)
    requires Cong(x, g, n) && Cong(rr, Pow(nl + nl), n)
    ensures IsPower(z, g, 1, n, nl)
  {
    CongMul(x, g, rr, Pow(nl + nl), n);
    ToForm(z, g, x * rr, n, nl);
    assert Exp(g, 1) == g * Exp(g, 0);
  }

  lemma ToForm(z: int, g: int, p: int, n: int, nl: nat)
    requires n > 0 && n % 2 == 1 && Cong(Up(z, nl), p, n) && Cong(p, g * Pow(nl + nl), n)
    ensures Cong(z, Up(g, nl), n)
  {
    UpPow(g, nl + nl);
    UpUp(g, nl, nl);
    CancelUp(z, Up(g, nl), n, nl);
  }

  /** One in Montgomery form is the power to the exponent zero of anything. */
  lemma ZerothPower(z: int, rr: int, g: int, n: int, nl: nat)
    requires n > 0 && n % 2 == 1 && 0 <= z < n && Cong(Up(z, nl), 1 * rr, n) && Cong(rr, Pow(nl + nl), n)
    ensures IsPower(z, g, 0, n, nl)
  {
    ToForm(z, 1, rr, n, nl);
  }

  /** Out of Montgomery form. */
  lemma PowerValue(z: int, x: int, g: int, k: nat, n: int, nl: nat)
    requires n > 0 && n % 2 == 1 && 0 <= z < n && Cong(Up(z, nl), x, n) && IsPower(x, g, k, n, nl)
    ensures z == Exp(g, k) % n
  {
    CancelUp(z, Exp(g, k), n, nl);
    CongReduced(z, Exp(g, k), n);
  }

  // ----- the bits of the exponent

  /** What of p lies above its k lowest bits. */
  function Above(p: nat, k: nat): nat {
    NotNegative(p, Pow2(k));
    p / Pow2(k)
  }

  lemma NotNegative(p: nat, q: nat)
    requires q > 0
    ensures p / q >= 0
  {
    var h := p / q;
    assert p == q * h + p % q;
    if h < 0 {
      MulMono(h, -1, q);
    }
  }

  lemma AboveStep(p: nat, k: nat)
    ensures Above(p, k) == 2 * Above(p, k + 1) + if Bit(p, k) then 1 else 0
  {
    var u := Above(p, k);
    var e := p % Pow2(k);
    assert p == Pow2(k) * u + e;
    SplitLow(p, Pow2(k), u, e);
  }

  lemma SplitLow(p: nat, q: nat, u: nat, e: nat)
    requires q > 0 && p == q * u + e && e < q
    ensures p / (2 * q) == u / 2
  {
    var h, l := u / 2, u % 2;
    assert u == 2 * h + l;
    Spread(q, 2 * h, l);
    assert q * (2 * h) == (2 * q) * h;
    LowPart(q, l, e);
    DivideExact(p, 2 * q, h, q * l + e);
  }

  lemma LowPart(q: nat, l: nat, e: nat)
    requires l <= 1 && e < q
    ensures q * l + e < 2 * q
  {
  }

  lemma AboveAll(p: nat, k: nat)
    requires p < Pow2(k)
    ensures Above(p, k) == 0
  {
    DivideExact(p, Pow2(k), 0, p);
  }
}
