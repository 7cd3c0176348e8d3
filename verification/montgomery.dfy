/** Montgomery arithmetic: BN_MONT_CTX, BN_from_montgomery, BN_mod_mul_montgomery. */
module Montgomery {
  import opened Words
  import opened Bignum
  import opened Modular
  import opened Solutions
  import Division
  import Inverse
  import Magnitude
  import Product
  import Reduction
  import Shift

  /** BN_MONT_CTX. The field Ni belongs to the variant without word operations. */
  class Mont {
    var ri: nat
    const RR: Big
    const N: Big
    var n0: Word

    /** The modulus and what cancels its words. */
    ghost predicate HasModulus()
      reads this, N, N.d
    {
      && N.Valid() && !N.neg && N.top > 0 && ri == 32 * N.top
      && Reduction.Cancels(n0, N.d[0])
    }

    /** BN_MONT_CTX_new, before BN_MONT_CTX_set. */
    constructor ()
      ensures fresh(RR) && fresh(RR.d) && fresh(N) && fresh(N.d)
      ensures RR.Valid() && N.Valid() && RR != N && RR.d != N.d
    {
      ri, n0 := 0, 0;
      RR := new Big();
      N := new Big();
    }
  }

  // ----- BN_from_montgomery

  /** The copy of a with room for the reduction, the words above a cleared. */
  method Widened(a: Big, max: nat) returns (r: Big)
    requires a.Valid() && a.top <= max
    ensures fresh(r) && fresh(r.d) && r.top == max < r.d.Length && r.neg == a.neg
    ensures Val(r.d[..max]) == a.Mag()
  {
    r := Product.CtxGet();
    r.Copy(a);
    ghost var x := r.d[..r.top];
    r.WExpand(max);
    assert r.d[..r.top] == x;
    Shift.Pad(r.d, r.top, max);
    r.top := max;
  }

  /** The high words that the reduction leaves, as a number of at most top words. */
  ghost predicate High(r: Big, nl: nat, u: nat)
    reads r, r.d
  {
    r.top < r.d.Length && Magnitude.Canon(r.d, 0, r.top) && (if r.top < nl then u == 0 else Val(r.d[nl..r.top]) == u)
  }

  lemma HighWords(d: array<Word>, nl: nat, max: nat, top: nat)
    requires top <= max && nl <= max <= d.Length
    requires forall k :: top <= k < max ==> d[k] == 0
    ensures Val(d[nl..max]) == if top < nl then 0 else Val(d[nl..top])
  {
    if top < nl {
      ValZeros(d[nl..max]);
    } else {
      ValPad(d[nl..max], top - nl);
      assert d[nl..max][..top - nl] == d[nl..top];
    }
  }

  /** The reduction of a into the high words of a temporary. */
  method ReduceCopy(a: Big, N: Big, n0: Word) returns (r: Big, ghost u: nat, ghost q: nat)
    requires a.Valid() && N.Valid() && N.top > 0 && Reduction.Cancels(n0, N.d[0])
    requires a.Mag() < Up(N.Mag(), N.top)
    ensures fresh(r) && fresh(r.d) && r.neg == a.neg && High(r, N.top, u)
    ensures r.top <= N.top + N.top + 1 < r.d.Length
    ensures Up(u, N.top) == a.Mag() + q * N.Mag() && u < 2 * N.Mag()
  {
    var nl := N.top;
    var max := nl + nl + 1;
    ShortEnough(a, N);
    N.ZeroTop();
    r := Widened(a, max);
    q := Reduction.Reduce(r.d, N.d, nl, n0);
    u := Val(r.d[nl..max]);
    var t := Magnitude.FixTop(r.d, 0, max);
    HighWords(r.d, nl, max, t);
    r.top := t;
  }

  lemma ShortEnough(a: Big, N: Big)
    requires a.Valid() && N.Valid() && a.Mag() < Up(N.Mag(), N.top)
    ensures a.top <= N.top + N.top
  {
    ValBound(N.d[..N.top]);
    Reduction.BelowDouble(N.Mag(), N.top);
    if a.top > N.top + N.top {
      ValTop(a.d[..a.top]);
      PowMono(N.top + N.top, a.top - 1);
    }
  }

  /** The high words become the result, which is not yet reduced. */
  method StoreHigh(ret: Big, r: Big, nl: nat, ghost u: nat)
    requires ret.Valid() && High(r, nl, u) && ret != r && ret.d != r.d && r.top <= nl + nl + 1 < r.d.Length
    modifies ret, ret.d
    ensures ret.Valid() && (ret.d == old(ret.d) || fresh(ret.d))
    ensures ret.Mag() == u && ret.neg == r.neg
  {
    ret.WExpand(nl + nl + 1);
    ret.neg := r.neg;
    var al := if r.top < nl then 0 else r.top - nl;
    Magnitude.CopyFrom(ret.d, r.d, nl, al);
    ret.top := al;
  }

  /** N and every other number of the computation are apart. */
  ghost predicate ApartFrom(N: Big, a: Big)
    reads N, a
  {
    N != a && N.d != a.d
  }

  /** BN_from_montgomery: the number below N that moved up by the words of N is
      congruent to a. One subtraction at the end is enough. */
  method FromMontgomery(ret: Big, a: Big, mont: Mont)
    requires mont.HasModulus() && ret.Valid() && a.Valid() && ret.Sep(a) && ApartFrom(mont.N, ret)
    requires a.Mag() < Up(mont.N.Mag(), mont.N.top)
    modifies ret, ret.d
    ensures ret.Valid() && (ret.d == old(ret.d) || fresh(ret.d)) && ret.Mag() < mont.N.Mag()
    ensures Cong(Up(ret.Mag(), mont.N.top), old(a.Mag()), mont.N.Mag())
    ensures old(a.Int()) >= 0 ==> ret.Int() >= 0
  {
    var r;
    ghost var u, q, v, t := 0, 0, mont.N.Mag(), a.Mag();
    r, u, q := ReduceCopy(a, mont.N, mont.n0);
    StoreHigh(ret, r, mont.N.top, u);
    var c := ret.UCmp(mont.N);
    if c >= 0 {
      ret.USub(ret, mont.N);
    }
    Congruent(u, q, ret.Mag(), t, v, mont.N.top);
    OddModulus(mont.N, mont.n0);
    if t == 0 {
      UpToZero(ret.Mag(), v, mont.N.top);
    }
  }

  lemma Congruent(u: nat, q: nat, x: nat, t: nat, v: nat, nl: nat)
    requires v > 0 && Up(u, nl) == t + q * v && x == (if u >= v then u - v else u)
    ensures Cong(Up(x, nl), t, v)
  {
    CongIntro(Up(u, nl), t, q, v);
    if u >= v {
      CongIntro(x, u, -1, v);
      CongUp(x, u, v, nl);
    }
  }

  /** A modulus whose low word can be cancelled is odd. */
  lemma OddModulus(N: Big, n0: Word)
    requires N.Valid() && N.top > 0 && Reduction.Cancels(n0, N.d[0])
    ensures N.Mag() % 2 == 1
  {
    var s := N.d[..N.top];
    var e, low := (s[0] * n0 + 1) / B, s[0];
    OddFactor(low, n0, e);
    EvenAbove(low, Val(s[1..]));
  }

  lemma OddFactor(x: int, y: int, e: int)
    requires x * y + 1 == B * e
    ensures x % 2 == 1
  {
    if x % 2 == 0 {
      assert x == 2 * (x / 2);
      MulAssoc(2, x / 2, y);
    }
  }

  // ----- BN_MONT_CTX_set

  /** (R * Ri - 1) / N for words, with the inverse Ri of R modulo N. */
  lemma WordQuotient(x: int, low: Word, q: int, r: int)
    requires 1 < low && 0 <= x < low && Solves(x, B, 1, low)
    requires q == (x * B - 1) / low && r == (x * B - 1) % low
    ensures 0 < x && 0 < q < B && Reduction.Cancels(q, low)
  {
    TimesIs(x, B);
    var k := CongElim(x * B, 1, low);
    DivideExact(x * B - 1, low, k, 0);
    assert Residue(1, low) == 1 && Residue(0, low) == 0;
    QuotientRange(x, low, k);
    assert low * k + 1 == x * B;
  }

  lemma QuotientRange(x: int, low: Word, k: int)
    requires 0 <= x < low && 1 < low && x * B == 1 + low * k
    ensures 0 <= k < B && 0 < x
  {
    MulEqual(low, k, k);
    if k >= B {
      MulMono(B, k, low);
    } else if k < 0 {
      MulMono(k, -1, low);
    }
    if x == 0 {
      UnitMultiple(k, low);
    }
  }

  /** The word n0 for a low word: from R = B, the inverse of R modulo that word is
      multiplied by R, lowered by one and divided by the word. A low word of one, for
      which the inverse is zero, gives all ones. (A low word of zero is a number with a
      leading zero word in the source and fails in BN_div.) */
  method CancelWord(R: Big, low: Word) returns (ok: bool, n0: Word)
    requires R.Valid() && R.Int() == B
    ensures ok <==> low % 2 == 1
    ensures ok ==> Reduction.Cancels(n0, low)
  {
    var tmod := new Big();
    var Ri := new Big();
    tmod.SetWord(low);
    n0 := 0;
    ok := Inverse.ModInverse(Ri, R, tmod);
    if low > 0 {
      OddIsCoprime(low);
    }
    if ok {
      n0 := DivideInverse(Ri, tmod, low);
    }
  }

  /** The quotient that becomes n0. */
  ghost predicate Quotient(v: int, low: Word) {
    0 < low && 0 <= v / low < B && Reduction.Cancels(v / low, low)
  }

  /** The steps from Ri on. */
  method DivideInverse(Ri: Big, tmod: Big, low: Word) returns (n0: Word)
    requires Ri.Valid() && tmod.Valid() && Ri != tmod && Ri.d != tmod.d
    requires low > 0 && tmod.Mag() == low && !tmod.neg
    requires 0 <= Ri.Int() < low && Solves(Ri.Int(), B, 1, low)
    modifies Ri, Ri.d
    ensures Reduction.Cancels(n0, low)
  {
    ghost var x := Ri.Int();
    LessOne(x, low);
    Shift.Pow2Word();
    Ri.LShift(Ri, 32);
    if !Ri.IsZero() {
      Ri.SubWord(1);
      Ri.ZeroTop();
    } else {
      Ri.SetWord(B - 1);
    }
    n0 := LowQuotient(Ri, tmod, low);
  }

  lemma LessOne(x: int, low: Word)
    requires 0 <= x < low && Solves(x, B, 1, low)
    ensures x > 0 ==> Quotient(x * B - 1, low)
    ensures x == 0 ==> Quotient(B - 1, low)
  {
    if low == 1 {
      assert (B - 1) / 1 == B - 1;
    } else {
      WordQuotient(x, low, (x * B - 1) / low, (x * B - 1) % low);
    }
  }

  /** The low word of the quotient. */
  method LowQuotient(Ri: Big, tmod: Big, low: Word) returns (n0: Word)
    requires Ri.Valid() && tmod.Valid() && Ri != tmod && Ri.d != tmod.d
    requires tmod.Mag() == low && Quotient(Ri.Mag(), low)
    modifies Ri, Ri.d
    ensures Reduction.Cancels(n0, low)
  {
    var ok := Division.Div(Ri, null, Ri, tmod);
    Ri.OneWord();
    Ri.ZeroTop();
    n0 := if Ri.top > 0 then Ri.d[0] else 0;
  }

  /** The bits of a number rounded up to words are its words. */
  lemma RoundedBits(s: seq<Word>, n: nat)
    requires |s| > 0 && s[|s| - 1] != 0
    requires n > 0 && Shift.Pow2(n - 1) <= Val(s) < Shift.Pow2(n)
    ensures (n + 31) / 32 == |s|
  {
    ValTop(s);
    ValBound(s);
    Shift.Pow2Words(|s| - 1, 0);
    Shift.Pow2Words(|s|, 0);
    if n <= 32 * (|s| - 1) {
      Shift.Pow2Mono(n, 32 * (|s| - 1));
    } else if n > 32 * |s| {
      Shift.Pow2Mono(32 * |s|, n - 1);
    }
  }

  /** Everything is set: RR is the square of the power of B above N, reduced. */
  ghost predicate Ready(mont: Mont)
    reads mont, mont.N, mont.N.d, mont.RR, mont.RR.d
  {
    var N, RR := mont.N, mont.RR;
    && mont.HasModulus() && RR.Valid() && RR != N && RR.d != N.d
    && 0 <= RR.Int() < N.Mag() && Cong(RR.Int(), Pow(N.top + N.top), N.Mag())
  }

  /** RR, which so far served as a temporary, for the conversions to Montgomery form. */
  method SetSquare(mont: Mont)
    requires mont.HasModulus() && mont.RR.Valid() && ApartFrom(mont.N, mont.RR)
    modifies mont.RR, mont.RR.d
    ensures Ready(mont) && (mont.RR.d == old(mont.RR.d) || fresh(mont.RR.d))
  {
    var N, RR := mont.N, mont.RR;
    N.ZeroTop();
    RR.Zero();
    SquareBit(RR, mont.ri * 2, N.top);
    ghost var v := RR.Mag();
    var ok := Division.Div(null, RR, RR, N);
    CongResidue(v, N.Mag());
  }

  method SquareBit(RR: Big, n: nat, ghost nl: nat)
    requires RR.Valid() && RR.Mag() == 0 && !RR.neg && n == 32 * (nl + nl)
    modifies RR, RR.d
    ensures RR.Valid() && (RR.d == old(RR.d) || fresh(RR.d)) && RR.Mag() == Pow(nl + nl) && !RR.neg
  {
    ZeroBits(n);
    Shift.Pow2Words(nl + nl, 0);
    RR.SetBit(n);
  }

  lemma ZeroBits(n: nat)
    ensures !Shift.Bit(0, n)
  {
    DivideExact(0, Shift.Pow2(n), 0, 0);
  }

  /** BN_MONT_CTX_set: it succeeds exactly for an odd modulus. */
  method Set(mont: Mont, mod: Big) returns (ok: bool)
    requires mod.Valid() && mod.top > 0 && mont.N.Valid() && mont.RR.Valid() && ApartFrom(mont.N, mont.RR)
    requires ApartFrom(mod, mont.N) && ApartFrom(mod, mont.RR)
    modifies mont, mont.N, mont.N.d, mont.RR, mont.RR.d
    ensures ok <==> mod.Mag() % 2 == 1
    ensures ok ==> Ready(mont) && mont.N.Mag() == mod.Mag()
    ensures mont.N.d == old(mont.N.d) || fresh(mont.N.d)
    ensures mont.RR.d == old(mont.RR.d) || fresh(mont.RR.d)
  {
    SetModulus(mont, mod);
    var n0;
    ok, n0 := WordOfModulus(mont.RR, mod);
    if ok {
      mont.n0 := n0;
      SetSquare(mont);
    }
  }

  /** N and the number of its bits, rounded up. */
  method SetModulus(mont: Mont, mod: Big)
    requires mod.Valid() && mod.top > 0 && mont.N.Valid() && ApartFrom(mod, mont.N)
    modifies mont`ri, mont.N, mont.N.d
    ensures mont.N.Valid() && !mont.N.neg && mont.N.top == mod.top && mont.N.Mag() == mod.Mag()
    ensures mont.N.d[0] == mod.d[0] && mont.ri == 32 * mont.N.top
    ensures mont.N.d == old(mont.N.d) || fresh(mont.N.d)
  {
    var n := mod.NumBits();
    mod.ZeroTop();
    RoundedBits(mod.d[..mod.top], n);
    mont.ri := (n + 31) / 32 * 32;
    mont.N.Copy(mod);
    mont.N.neg := false;
    ValUnique(mont.N.d[..mod.top], mod.d[..mod.top]);
    assert mont.N.d[..mod.top][0] == mod.d[..mod.top][0];
  }

  method WordOfModulus(R: Big, mod: Big) returns (ok: bool, n0: Word)
    requires R.Valid() && mod.Valid() && mod.top > 0 && ApartFrom(mod, R)
    modifies R, R.d
    ensures R.Valid() && (R.d == old(R.d) || fresh(R.d))
    ensures ok <==> mod.Mag() % 2 == 1
    ensures ok ==> Reduction.Cancels(n0, mod.d[0])
  {
    R.Zero();
    Shift.Pow2Word();
    ZeroBits(32);
    R.SetBit(32);
    ok, n0 := CancelWord(R, mod.d[0]);
    EvenAbove(mod.d[0], Val(mod.d[..mod.top][1..]));
  }

  // ----- BN_mod_mul_montgomery

  /** The product of two numbers, by BN_sqr if they are the same object. */
  method Multiplied(a: Big, b: Big, ghost p: int) returns (tmp: Big)
    requires a.Valid() && b.Valid() && a.Sep(b) && p == a.Int() * b.Int()
    modifies a.d, b.d
    ensures fresh(tmp) && fresh(tmp.d) && tmp.Valid() && tmp.Int() == p
    ensures a.Valid() && a.d[..a.top] == old(a.d[..a.top])
    ensures b.Valid() && b.d[..b.top] == old(b.d[..b.top])
  {
    tmp := Product.CtxGet();
    if a == b {
      Product.Sqr(tmp, a);
    } else {
      Product.Mul(tmp, a, b);
    }
  }

  /** BN_mod_mul_montgomery: the number below N that moved up by the words of N is
      congruent to a * b. */
  method ModMul(r: Big, a: Big, b: Big, mont: Mont, ghost p: nat)
    requires mont.HasModulus() && r.Valid() && a.Valid() && b.Valid()
    requires r.Sep(a) && r.Sep(b) && a.Sep(b)
    requires ApartFrom(mont.N, r) && ApartFrom(mont.N, a) && ApartFrom(mont.N, b)
    requires p == a.Int() * b.Int() && p < Up(mont.N.Mag(), mont.N.top)
    modifies r, r.d, a.d, b.d
    ensures r.Valid() && (r.d == old(r.d) || fresh(r.d))
    ensures 0 <= r.Int() < mont.N.Mag() && Cong(Up(r.Int(), mont.N.top), p, mont.N.Mag())
    ensures r != a ==> a.Valid() && a.d[..a.top] == old(a.d[..a.top])
    ensures r != b ==> b.Valid() && b.d[..b.top] == old(b.d[..b.top])
  {
    var tmp := Multiplied(a, b, p);
    tmp.ZeroTop();
    FromMontgomery(r, tmp, mont);
    r.ZeroTop();
  }
}
