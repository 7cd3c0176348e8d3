/** BN_mod_exp_mont_word: exponentiation of a single word, which collects products in
    a word as long as they fit. */
module ModExpWord {
  import opened Words
  import opened Bignum
  import opened Modular
  import opened Montgomery
  import opened Power
  import opened ModExp
  import Division
  import Product
  import opened Shift

  // ----- the overflow test

  lemma NoOverflow(w: Word, a: Word)
    requires a > 0 && w * a < B
    ensures LowProduct(w, a) == w * a && LowProduct(w, a) / a == w
  {
    MulNonNeg(w, a);
    DivideExact(w * a, B, 0, w * a);
    MulEqual(a, w, w);
    DivideExact(w * a, a, w, 0);
  }

  lemma Overflow(w: Word, a: Word)
    requires a > 0 && w * a >= B
    ensures LowProduct(w, a) / a < w
  {
    var p, z := w * a, LowProduct(w, a);
    assert p == B * (p / B) + z;
    QuotientBelow(z, a, w);
  }

  lemma QuotientBelow(z: int, a: int, w: int)
    requires a > 0 && 0 <= z < w * a
    ensures z / a < w
  {
    var q := z / a;
    assert z == a * q + z % a;
    if q >= w {
      MulMono(w, q, a);
    }
  }

  /** The division by a gives back w exactly if the product fits a word. */
  lemma OverflowTest(w: Word, a: Word)
    requires a > 0
    ensures LowProduct(w, a) / a != w <==> w * a >= B
  {
    if w * a < B {
      NoOverflow(w, a);
    } else {
      Overflow(w, a);
    }
  }

  // ----- the accumulator r * w

  /** r stands for x in Montgomery form, or for one if it has not been used. */
  ghost predicate Stands(r: Big, one: bool, x: int, n: nat, nl: nat)
    requires n > 0
    reads r, r.d
  {
    r.Valid() && if one then x == 1 else 0 <= r.Int() < n && Cong(r.Int(), Up(x, nl), n)
  }

  /** x * w is g to the e. */
  ghost predicate Accumulated(x: int, w: int, g: int, e: nat, n: nat)
    requires n > 0
  {
    Cong(x * w, Exp(g, e), n)
  }

  lemma SquareAccumulated(x: int, w: int, g: int, e: nat, n: nat)
    requires n > 0 && Accumulated(x, w, g, e, n)
    ensures Accumulated(x * x, w * w, g, 2 * e, n)
  {
    CongMul(x * w, Exp(g, e), x * w, Exp(g, e), n);
    ExpAdd(g, e, e);
    Rearrange(x, w);
  }

  lemma Rearrange(x: int, w: int)
    ensures (x * w) * (x * w) == (x * x) * (w * w)
  {
    MulAssoc(x, w, x * w);
    MulAssoc(x, x, w * w);
    assert w * (x * w) == x * (w * w);
  }

  lemma TimesAccumulated(x: int, w: int, a: int, g: int, e: nat, n: nat)
    requires n > 0 && Accumulated(x, w, g, e, n) && Cong(a, g, n)
    ensures Accumulated(x, w * a, g, e + 1, n)
  {
    CongMul(x * w, Exp(g, e), a, g, n);
    MulAssoc(x, w, a);
    assert Exp(g, e + 1) == g * Exp(g, e);
    MulEqual(g, Exp(g, e), Exp(g, e));
  }

  /** BN_TO_MONTGOMERY_WORD */
  method FromWord(r: Big, w: Word, mont: Mont, ghost n: nat, ghost nl: nat)
    requires Ready(mont) && Modulus(mont, n, nl) && r.Valid() && ApartFrom(mont.N, r) && ApartFrom(mont.RR, r)
    modifies r, r.d, mont.RR.d
    ensures Stands(r, false, w, n, nl) && (r.d == old(r.d) || fresh(r.d)) && Ready(mont)
  {
    r.SetWord(w);
    ghost var y := mont.RR.Int();
    WordBelow(w, y, mont);
    ModMul(r, r, mont.RR, mont, w * y);
    CongMul(w, w, y, Pow(nl + nl), n);
    ToForm(r.Int(), w, w * y, n, nl);
  }

  /** A word times a reduced number is small enough for the reduction. */
  lemma WordBelow(w: Word, y: nat, mont: Mont)
    requires mont.HasModulus() && y < mont.N.Mag()
    ensures 0 <= w * y < Up(mont.N.Mag(), mont.N.top)
  {
    var n, nl := mont.N.Mag(), mont.N.top;
    PowMono(1, nl);
    UpPow(n, nl);
    MulNonNeg(w, y);
    MulMono(w, Pow(nl), y);
    MulEqual(y, Pow(nl), Pow(nl));
    PowPos(nl);
    MulMonoStrict(y, n, Pow(nl));
  }

  /** BN_MOD_MUL_WORD, after which the names r and t have changed places. */
  method TimesWord(r: Big, t: Big, w: Word, m: Big, ghost x: int, ghost n: nat, ghost nl: nat)
    requires m.Valid() && n == m.Mag() > 0 && Stands(r, false, x, n, nl) && t.Valid()
    requires r != t && r.d != t.d && ApartFrom(m, r) && ApartFrom(m, t)
    modifies r, r.d, t, t.d
    ensures Stands(t, false, x * w, n, nl) && r.Valid() && r.d != t.d
    ensures (r.d == old(r.d) || fresh(r.d)) && (t.d == old(t.d) || fresh(t.d))
  {
    ghost var z := r.Int();
    r.ZeroTop();
    r.MulWord(w);
    ghost var y := r.Mag();
    var ok := Division.Div(null, t, r, m);
    CongResidue(y, n);
    ScaleForm(z, y, y % n, x, w, n, nl);
  }

  lemma ScaleForm(z: int, y: int, e: int, x: int, w: int, n: int, nl: nat)
    requires n > 0 && Cong(z, Up(x, nl), n) && y == z * w && Cong(y, e, n)
    ensures Cong(e, Up(x * w, nl), n)
  {
    CongMul(z, Up(x, nl), w, w, n);
    UpMul(w, x, nl);
    MulEqual(w, x, x);
    MulEqual(w, Up(x, nl), Up(x, nl));
  }

  /** r and t are the two numbers r0 and t0 in some order, with words of their own. */
  twostate predicate SamePair(new r: Big, new t: Big, r0: Big, t0: Big)
    reads r, t
  {
    && ((r == r0 && t == t0) || (r == t0 && t == r0)) && r.d != t.d
    && (r.d == old(r.d) || fresh(r.d)) && (t.d == old(t.d) || fresh(t.d))
  }

  /** The numbers of the computation but for the context. */
  ghost predicate Usable(r: Big, t: Big, m: Big, mont: Mont, n: nat, nl: nat)
    reads r, t, t.d, m, m.d, mont, mont.N, mont.N.d, mont.RR, mont.RR.d
  {
    && Ready(mont) && Modulus(mont, n, nl) && m.Valid() && n == m.Mag() && t.Valid() && r != t && r.d != t.d
    && ApartFrom(m, r) && ApartFrom(m, t) && ApartFrom(mont.N, r) && ApartFrom(mont.N, t)
    && ApartFrom(mont.RR, r) && ApartFrom(mont.RR, t) && ApartFrom(mont.RR, m)
  }

  /** The word moves into r. */
  method Flush(r0: Big, t0: Big, one: bool, w: Word, m: Big, mont: Mont, ghost x: int, ghost n: nat, ghost nl: nat)
    returns (r: Big, t: Big)
    requires Usable(r0, t0, m, mont, n, nl) && Stands(r0, one, x, n, nl)
    modifies r0, r0.d, t0, t0.d, mont.RR.d
    ensures SamePair(r, t, r0, t0) && Usable(r, t, m, mont, n, nl) && Stands(r, false, x * w, n, nl)
  {
    r, t := r0, t0;
    if one {
      FromWord(r, w, mont, n, nl);
    } else {
      TimesWord(r, t, w, m, x, n, nl);
      r, t := t, r;
    }
  }

  /** r * r unless r is one. */
  method SquareR(r: Big, one: bool, mont: Mont, ghost x: int, ghost n: nat, ghost nl: nat)
    requires Modulus(mont, n, nl) && Stands(r, one, x, n, nl) && ApartFrom(mont.N, r)
    modifies r, r.d
    ensures Stands(r, one, x * x, n, nl) && (r.d == old(r.d) || fresh(r.d))
  {
    if !one {
      ghost var z := r.Int();
      ProductBelow(z, z, n, nl);
      ModMul(r, r, r, mont, z * z);
      FormProduct(r.Int(), z, z, x, x, n, nl);
    }
  }

  lemma FormProduct(z: int, u: int, v: int, x: int, y: int, n: int, nl: nat)
    requires n > 0 && n % 2 == 1 && Cong(Up(z, nl), u * v, n)
    requires Cong(u, Up(x, nl), n) && Cong(v, Up(y, nl), n)
    ensures Cong(z, Up(x * y, nl), n)
  {
    CongMul(u, Up(x, nl), v, Up(y, nl), n);
    UpProduct(x, y, nl);
    CancelUp(z, Up(x * y, nl), n, nl);
  }

  lemma Regroup(x: int, w: int, a: int)
    ensures (x * w) * a == x * (w * a) && (x * w) * 1 == x * w
  {
    MulAssoc(x, w, a);
  }

  /** The squaring of r * w for a bit of the exponent. */
  method SquareStep(r0: Big, t0: Big, one0: bool, w0: Word, m: Big, mont: Mont,
                    ghost x: int, ghost g: int, ghost e: nat, ghost n: nat, ghost nl: nat)
    returns (r: Big, t: Big, one: bool, w: Word, ghost x1: int)
    requires Usable(r0, t0, m, mont, n, nl) && Stands(r0, one0, x, n, nl)
    requires w0 > 0 && Accumulated(x, w0, g, e, n)
    modifies r0, r0.d, t0, t0.d, mont.RR.d
    ensures SamePair(r, t, r0, t0) && Usable(r, t, m, mont, n, nl) && Stands(r, one, x1, n, nl)
    ensures w > 0 && Accumulated(x1, w, g, 2 * e, n)
  {
    r, t, one, x1 := r0, t0, one0, x;
    OverflowTest(w0, w0);
    SquareAccumulated(x, w0, g, e, n);
    if LowProduct(w0, w0) / w0 != w0 {
      r, t := Flush(r, t, one, w0, m, mont, x, n, nl);
      Rearrange(x, w0);
      one, w, x1 := false, 1, x * w0;
    } else {
      NoOverflow(w0, w0);
      MulMono(1, w0, w0);
      w := LowProduct(w0, w0);
    }
    SquareR(r, one, mont, x1, n, nl);
    x1 := x1 * x1;
  }

  /** The multiplication of r * w by a. */
  method MultiplyStep(r0: Big, t0: Big, one0: bool, w0: Word, a: Word, m: Big, mont: Mont,
                      ghost x: int, ghost g: int, ghost e: nat, ghost n: nat, ghost nl: nat)
    returns (r: Big, t: Big, one: bool, w: Word, ghost x1: int)
    requires Usable(r0, t0, m, mont, n, nl) && Stands(r0, one0, x, n, nl)
    requires w0 > 0 && a > 0 && Accumulated(x, w0, g, e, n) && Cong(a, g, n)
    modifies r0, r0.d, t0, t0.d, mont.RR.d
    ensures SamePair(r, t, r0, t0) && Usable(r, t, m, mont, n, nl) && Stands(r, one, x1, n, nl)
    ensures w > 0 && Accumulated(x1, w, g, e + 1, n)
  {
    r, t, one, x1 := r0, t0, one0, x;
    OverflowTest(w0, a);
    TimesAccumulated(x, w0, a, g, e, n);
    if LowProduct(w0, a) / a != w0 {
      r, t := Flush(r, t, one, w0, m, mont, x, n, nl);
      Regroup(x, w0, a);
      one, w, x1 := false, a, x * w0;
    } else {
      NoOverflow(w0, a);
      MulMono(1, w0, a);
      w := LowProduct(w0, a);
    }
  }

  /** One bit of the exponent: a squaring and, if the bit is set, a multiplication. */
  method BitStep(r0: Big, t0: Big, one0: bool, w0: Word, a: Word, p: Big, b: nat, m: Big, mont: Mont,
                 ghost x: int, ghost g: int, ghost P: nat, ghost n: nat, ghost nl: nat)
    returns (r: Big, t: Big, one: bool, w: Word, ghost x1: int)
    requires Usable(r0, t0, m, mont, n, nl) && Stands(r0, one0, x, n, nl)
    requires w0 > 0 && a > 0 && Accumulated(x, w0, g, Above(P, b + 1), n) && Cong(a, g, n)
    requires p.Valid() && p.Mag() == P && ApartFrom(p, r0) && ApartFrom(p, t0) && ApartFrom(p, mont.RR)
    modifies r0, r0.d, t0, t0.d, mont.RR.d
    ensures SamePair(r, t, r0, t0) && Usable(r, t, m, mont, n, nl) && Stands(r, one, x1, n, nl)
    ensures w > 0 && Accumulated(x1, w, g, Above(P, b), n) && p.Valid() && p.Mag() == P
  {
    AboveStep(P, b);
    r, t, one, w, x1 := SquareStep(r0, t0, one0, w0, m, mont, x, g, Above(P, b + 1), n, nl);
    r, t, one, w, x1 := MultiplyIfSet(r, t, one, w, a, p, b, m, mont, x1, g, 2 * Above(P, b + 1), P, n, nl);
  }

  method MultiplyIfSet(r0: Big, t0: Big, one0: bool, w0: Word, a: Word, p: Big, b: nat, m: Big, mont: Mont,
                       ghost x: int, ghost g: int, ghost e: nat, ghost P: nat, ghost n: nat, ghost nl: nat)
    returns (r: Big, t: Big, one: bool, w: Word, ghost x1: int)
    requires Usable(r0, t0, m, mont, n, nl) && Stands(r0, one0, x, n, nl)
    requires w0 > 0 && a > 0 && Accumulated(x, w0, g, e, n) && Cong(a, g, n)
    requires p.Valid() && p.Mag() == P && ApartFrom(p, r0) && ApartFrom(p, t0) && ApartFrom(p, mont.RR)
    modifies r0, r0.d, t0, t0.d, mont.RR.d
    ensures SamePair(r, t, r0, t0) && Usable(r, t, m, mont, n, nl) && Stands(r, one, x1, n, nl)
    ensures w > 0 && Accumulated(x1, w, g, if Bit(P, b) then e + 1 else e, n) && p.Valid() && p.Mag() == P
  {
    r, t, one, w, x1 := r0, t0, one0, w0, x;
    var b1 := p.IsBitSet(b);
    if b1 {
      r, t, one, w, x1 := MultiplyStep(r0, t0, one0, w0, a, m, mont, x, g, e, n, nl);
    }
  }

  /** The top bit of the exponent is set. */
  lemma TopBit(P: nat, bits: nat)
    requires bits > 0 && Pow2(bits - 1) <= P < Pow2(bits)
    ensures Above(P, bits - 1) == 1
  {
    DivideExact(P, Pow2(bits - 1), 1, P - Pow2(bits - 1));
  }

  /** The loop over the bits below the top one. */
  method Accumulate(a: Word, p: Big, bits: nat, m: Big, mont: Mont, ghost g: int, ghost P: nat, ghost n: nat,
                    ghost nl: nat)
    returns (r: Big, t: Big, one: bool, w: Word, ghost x: int)
    requires Ready(mont) && Modulus(mont, n, nl) && m.Valid() && n == m.Mag() && ApartFrom(mont.RR, m)
    requires a > 0 && Cong(a, g, n) && p.Valid() && p.Mag() == P && ApartFrom(p, mont.RR)
    requires bits > 0 && Pow2(bits - 1) <= P < Pow2(bits)
    modifies mont.RR.d
    ensures fresh(r) && fresh(r.d) && fresh(t) && fresh(t.d)
    ensures Usable(r, t, m, mont, n, nl) && Stands(r, one, x, n, nl) && w > 0 && Accumulated(x, w, g, P, n)
  {
    r := Product.CtxGet();
    t := Product.CtxGet();
    one, w, x := true, a, 1;
    TopBit(P, bits);
    AboveNone(P);
    assert Exp(g, 1) == g * Exp(g, 0);
    var b := bits - 1;
    while b > 0
      invariant 0 <= b < bits && fresh(r) && fresh(r.d) && fresh(t) && fresh(t.d)
      invariant Usable(r, t, m, mont, n, nl) && Stands(r, one, x, n, nl)
      invariant w > 0 && Accumulated(x, w, g, Above(P, b), n) && p.Valid() && p.Mag() == P
    {
      b := b - 1;
      r, t, one, w, x := BitStep(r, t, one, w, a, p, b, m, mont, x, g, P, n, nl);
    }
  }

  /** The power for an exponent that is not zero and a base that is not zero after the
      reduction. */
  method WordPower(rr: Big, a: Word, p: Big, bits: nat, m: Big, mont: Mont, ghost g: int, ghost P: nat)
    requires rr.Valid() && p.Valid() && m.Valid() && 1 < m.Mag()
    requires Ready(mont) && mont.N.Mag() == m.Mag() && ApartFrom(mont.RR, m) && ApartFrom(mont.RR, p)
    requires ApartFrom(mont.N, rr) && ApartFrom(mont.RR, rr)
    requires a > 0 && Cong(a, g, m.Mag()) && bits > 0 && Pow2(bits - 1) <= P == p.Mag() < Pow2(bits)
    modifies rr, rr.d, mont.RR.d
    ensures mont.N.Mag() > 0 && IsResult(rr, g, P, mont.N.Mag()) && (rr.d == old(rr.d) || fresh(rr.d))
    ensures Ready(mont)
  {
    IsModulus(mont);
    ghost var n, nl := mont.N.Mag(), mont.N.top;
    ghost var x;
    var r, t, one, w;
    r, t, one, w, x := Accumulate(a, p, bits, m, mont, g, P, n, nl);
    FinishWord(rr, r, t, one, w, m, mont, x, g, P, n, nl);
  }

  /** What is still in w goes into r. */
  method FinishWord(rr: Big, r0: Big, t0: Big, one0: bool, w: Word, m: Big, mont: Mont,
                    ghost x: int, ghost g: int, ghost P: nat, ghost n: nat, ghost nl: nat)
    requires Usable(r0, t0, m, mont, n, nl) && 1 < n && Stands(r0, one0, x, n, nl) && w > 0
    requires Accumulated(x, w, g, P, n) && rr.Valid() && ApartFrom(mont.N, rr) && ApartFrom(mont.RR, rr)
    requires ApartFrom(r0, rr) && ApartFrom(t0, rr)
    modifies rr, rr.d, r0, r0.d, t0, t0.d, mont.RR.d
    ensures IsResult(rr, g, P, n) && (rr.d == old(rr.d) || fresh(rr.d)) && Ready(mont)
  {
    var r, t, one := r0, t0, one0;
    ghost var y := x;
    if w != 1 {
      r, t := Flush(r0, t0, one0, w, m, mont, x, n, nl);
      one := false;
      y := x * w;
    }
    Finish(rr, r, one, mont, y, g, P, n, nl);
  }

  /** Out of Montgomery form, unless r was never used. */
  method Finish(rr: Big, r: Big, one: bool, mont: Mont, ghost x: int, ghost g: int, ghost P: nat, ghost n: nat,
                ghost nl: nat)
    requires Modulus(mont, n, nl) && 1 < n && Stands(r, one, x, n, nl) && Cong(x, Exp(g, P), n)
    requires rr.Valid() && rr.Sep(r) && ApartFrom(mont.N, rr)
    modifies rr, rr.d
    ensures IsResult(rr, g, P, n) && (rr.d == old(rr.d) || fresh(rr.d))
  {
    if one {
      CongReduced(1, Exp(g, P), n);
      rr.SetWord(1);
    } else {
      ghost var z := r.Int();
      r.ZeroTop();
      ProductBelow(1, z, n, nl);
      FromMontgomery(rr, r, mont);
      rr.ZeroTop();
      CancelUp(rr.Int(), x, n, nl);
      CongReduced(rr.Int(), Exp(g, P), n);
    }
  }

  /** The base, reduced if the modulus is a word too. */
  method WordBase(a0: Word, m: Big) returns (a: Word)
    requires m.Valid() && m.Mag() > 0
    ensures Cong(a, a0, m.Mag()) && (a > 0 ==> 1 < m.Mag())
  {
    m.OneWord();
    a := a0;
    if m.top == 1 {
      CongResidue(a0, m.d[0]);
      a := a0 % m.d[0];
    }
  }

  /** BN_mod_exp_mont_word: what BN_mod_exp_mont returns for a number of one word. */
  method ModExpMontWord(rr: Big, a0: Word, p: Big, m: Big, in_mont: Mont?) returns (ok: bool)
    requires rr.Valid() && p.Valid() && m.Valid()
    requires in_mont != null && m.Mag() % 2 == 1 ==> ContextFor(in_mont, m, rr, p) && ApartFrom(in_mont.RR, m)
    modifies rr, rr.d, Spare(in_mont)
    ensures ok <==> old(m.Mag()) % 2 == 1
    ensures ok ==> rr.Valid() && rr.Int() == PowerMod(a0, old(p.Mag()), old(m.Mag()))
    ensures rr.d == old(rr.d) || fresh(rr.d)
    ensures in_mont != null && ok ==> Ready(in_mont)
  {
    ok := m.IsOdd();
    if ok {
      var bits := p.NumBits();
      if bits == 0 {
        rr.SetWord(1);
      } else {
        var a := WordBase(a0, m);
        if a == 0 {
          ZeroPower(a0, p.Mag(), m.Mag());
          rr.Zero();
        } else {
          PowerInContext(rr, a, p, bits, m, in_mont, a0, p.Mag(), m.Mag());
        }
      }
    }
  }

  /** The power in the context given, or in a new one. */
  method PowerInContext(rr: Big, a: Word, p: Big, bits: nat, m: Big, in_mont: Mont?,
                        ghost g: int, ghost P: nat, ghost n: nat)
    requires rr.Valid() && p.Valid() && m.Valid() && 1 < m.Mag() == n && n % 2 == 1
    requires in_mont != null ==> ContextFor(in_mont, m, rr, p) && ApartFrom(in_mont.RR, m)
    requires a > 0 && Cong(a, g, n) && bits > 0 && Pow2(bits - 1) <= P == p.Mag() < Pow2(bits)
    modifies rr, rr.d, Spare(in_mont)
    ensures IsResult(rr, g, P, n) && (rr.d == old(rr.d) || fresh(rr.d))
    ensures in_mont != null ==> Ready(in_mont)
  {
    if in_mont != null {
      WordPower(rr, a, p, bits, m, in_mont, g, P);
    } else {
      var mont := new Mont();
      var done := Set(mont, m);
      WordPower(rr, a, p, bits, m, mont, g, P);
    }
  }
}
