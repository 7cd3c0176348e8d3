/** BN_div, BN_mod and BN_nnmod. */
module Division {
  import opened Words
  import opened Bignum
  import opened Shift
  import LongDivision
  import Magnitude
  import Product

  // ----- normalisation

  lemma LengthIs(s: seq<Word>, j: nat)
    requires |s| > 0 && s[|s| - 1] != 0 && j > 0
    requires Pow(j - 1) <= Val(s) < Pow(j)
    ensures |s| == j
  {
    ValTop(s);
    ValBound(s);
    if |s| > j {
      PowMono(j, |s| - 1);
    } else if |s| < j {
      PowMono(|s|, j - 1);
    }
  }

  lemma TopBit(s: seq<Word>, n: nat)
    requires |s| == n + 1 && Up(T, n) <= Val(s)
    ensures T <= s[n]
  {
    ValTake(s, n);
    assert s[..n + 1] == s;
    ValBound(s[..n]);
    var w: int := s[n];
    UpAdd(w, 1, n);
    UpMono(w + 1, T, n);
  }

  /** A number whose bits fill its words has as many words as that and its top bit set. */
  lemma Normalised(s: seq<Word>, j: nat)
    requires |s| > 0 && s[|s| - 1] != 0 && j > 0
    requires Pow2(32 * j - 1) <= Val(s) < Pow2(32 * j)
    ensures |s| == j && T <= s[j - 1]
  {
    Pow2Words(j, 0);
    Pow2Words(j - 1, 31);
    Pow2Word();
    UpMono(1, T, j - 1);
    LengthIs(s, j);
    TopBit(s, j - 1);
  }

  lemma ShiftBits(v: nat, nb: nat, sh: nat)
    requires nb > 0 && Pow2(nb - 1) <= v < Pow2(nb)
    ensures Pow2(nb + sh - 1) <= v * Pow2(sh) < Pow2(nb + sh)
  {
    Pow2Add(nb - 1, sh);
    Pow2Add(nb, sh);
    MulMono(Pow2(nb - 1), v, Pow2(sh));
    MulMonoStrict(v, Pow2(nb), Pow2(sh));
  }

  /** A multiple of B has a zero as its lowest word. */
  lemma LowWordZero(s: seq<Word>, v: nat)
    requires |s| > 0 && Val(s) == B * v
    ensures s[0] == 0 && Val(s[1..]) == v
  {
    ModBase(s[0], Val(s[1..]));
    ModBase(0, v);
  }

  lemma ShiftWordMore(v: nat, sh: nat)
    ensures v * Pow2(sh + 32) == B * (v * Pow2(sh))
  {
    Pow2Add(32, sh);
    Pow2Word();
    assert v * (B * Pow2(sh)) == B * (v * Pow2(sh));
  }

  /** The dividend is longer than the divisor by the word it was moved up further. */
  lemma DividendLonger(s: seq<Word>, d: seq<Word>, v: nat)
    requires |d| > 0 && d[|d| - 1] != 0 && Val(s) == B * v && Val(d) <= v
    ensures |d| < |s|
  {
    ValTop(d);
    ValBound(s);
    if |s| <= |d| {
      PowMono(|s|, |d|);
    }
  }

  /** The normalised operands: sdiv has its top bit set, snum starts with a zero word. */
  ghost predicate Normal(snum: Big, sdiv: Big, sh: nat, num: nat, divisor: nat)
    reads snum, snum.d, sdiv, sdiv.d
  {
    && snum.Valid() && !snum.neg && sdiv.Valid() && snum != sdiv && snum.d != sdiv.d
    && 0 < sdiv.top < snum.top && T <= sdiv.d[sdiv.top - 1] && snum.d[0] == 0
    && sdiv.Mag() == divisor * Pow2(sh) && Val(snum.d[1..snum.top]) == num * Pow2(sh)
  }

  /** The shifts at the start of BN_div, which move the dividend up a word more. */
  method Normalise(num: Big, divisor: Big) returns (snum: Big, sdiv: Big, sh: nat)
    requires num.Valid() && divisor.Valid() && 0 < divisor.Mag() <= num.Mag()
    ensures fresh(snum) && fresh(snum.d) && fresh(sdiv) && fresh(sdiv.d)
    ensures Normal(snum, sdiv, sh, num.Mag(), divisor.Mag())
  {
    sdiv, sh := NormalDivisor(divisor);
    snum := Product.CtxGet();
    snum.LShift(num, sh + 32);
    snum.neg := false;
    ghost var s, v := snum.d[..snum.top], num.Mag() * Pow2(sh);
    ShiftWordMore(num.Mag(), sh);
    MulMono(divisor.Mag(), num.Mag(), Pow2(sh));
    DividendLonger(s, sdiv.d[..sdiv.top], v);
    LowWordZero(s, v);
    assert s[1..] == snum.d[1..snum.top];
  }

  method NormalDivisor(divisor: Big) returns (sdiv: Big, sh: nat)
    requires divisor.Valid() && 0 < divisor.Mag()
    ensures fresh(sdiv) && fresh(sdiv.d) && sdiv.Valid() && 0 < sdiv.top
    ensures T <= sdiv.d[sdiv.top - 1] && sdiv.Mag() == divisor.Mag() * Pow2(sh)
  {
    var nb := divisor.NumBits();
    sh := 32 - nb % 32;
    sdiv := Product.CtxGet();
    sdiv.LShift(divisor, sh);
    sdiv.neg := false;
    NormalTop(sdiv.d[..sdiv.top], divisor.Mag(), nb, sh);
  }

  lemma NormalTop(s: seq<Word>, v: nat, nb: nat, sh: nat)
    requires |s| > 0 ==> s[|s| - 1] != 0
    requires nb > 0 && Pow2(nb - 1) <= v < Pow2(nb) && sh == 32 - nb % 32
    requires Val(s) == v * Pow2(sh)
    ensures |s| > 0 && T <= s[|s| - 1]
  {
    ShiftBits(v, nb, sh);
    assert nb + sh == 32 * (nb / 32 + 1);
    Normalised(s, nb / 32 + 1);
  }

  // ----- the division

  /** The rounds, with the quotient in res and what stands for the remainder in snum. */
  method DivideInto(res: Big, snum: Big, sdiv: Big) returns (ghost r: nat)
    requires res.Valid() && snum.Valid() && sdiv.Valid()
    requires 0 < sdiv.top < snum.top && T <= sdiv.d[sdiv.top - 1] && snum.d[0] == 0
    requires res != snum && res != sdiv && snum != sdiv && res.Sep(snum) && res.Sep(sdiv) && snum.Sep(sdiv)
    modifies res, res.d, snum, snum.d
    ensures res.Valid() && (res.d == old(res.d) || fresh(res.d)) && (res.neg == (old(res.neg) && res.top > 0))
    ensures snum.top < snum.d.Length && !snum.neg == old(!snum.neg) && snum.Mag() == B * r && snum.d == old(snum.d)
    ensures r < old(sdiv.Mag()) && old(Val(snum.d[1..snum.top])) == r + old(sdiv.Mag()) * res.Mag()
  {
    var n, m := sdiv.top, snum.top;
    var loop := m - n;
    var tmp := Product.CtxGet();
    res.WExpand(loop + 1);
    tmp.WExpand(n + 1);
    var rt, st;
    rt, st, r := LongDivision.Divide(snum.d, m, n, sdiv.d, tmp.d, res.d);
    res.top := rt;
    if rt == 0 {
      res.neg := false;
    }
    snum.top := st;
  }

  /** Quotient and remainder of numbers that were scaled alike. */
  lemma Unscale(m: int, e: int, p: int, q: int, r: int)
    requires 0 < p && 0 < e && m * p == r + (e * p) * q && 0 <= r < e * p
    ensures q == m / e && r == (m % e) * p
  {
    var rem := m - e * q;
    assert (e * p) * q == (e * q) * p;
    Distrib(m, e * q, p);
    assert r == rem * p;
    if rem < 0 {
      MulMono(rem, -1, p);
    } else if rem >= e {
      MulMono(e, rem, p);
    }
    DivideExact(m, e, q, rem);
  }

  lemma RemainderUp(r: nat, rem: nat, sh: nat)
    requires r == rem * Pow2(sh)
    ensures (B * r) / Pow2(sh + 32) == rem
  {
    ShiftWordMore(rem, sh);
    DivideExact(B * r, Pow2(sh + 32), rem, 0);
  }

  /** The quotient of absolute values that is not zero. */
  method DivideLarge(res: Big, num: Big, divisor: Big) returns (snum: Big, sh: nat)
    requires res.Valid() && num.Valid() && divisor.Valid() && res.Sep(num) && res.Sep(divisor)
    requires 0 < divisor.Mag() <= num.Mag()
    modifies res, res.d
    ensures res.Valid() && (res.d == old(res.d) || fresh(res.d))
    ensures res.Mag() == old(num.Mag() / divisor.Mag()) && res.neg == old(num.neg != divisor.neg)
    ensures fresh(snum) && fresh(snum.d) && snum.top < snum.d.Length && snum.d != res.d
    ensures snum.Mag() / Pow2(sh) == old(num.Mag() % divisor.Mag()) && !snum.neg
  {
    ghost var m, e := num.Mag(), divisor.Mag();
    var sdiv;
    snum, sdiv, sh := Normalise(num, divisor);
    res.neg := num.neg != divisor.neg;
    ghost var r := DivideInto(res, snum, sdiv);
    Unscale(m, e, Pow2(sh), res.Mag(), r);
    RemainderUp(r, m % e, sh);
    AtLeastOne(m, e);
    res.ZeroTop();
    sh := sh + 32;
  }

  lemma AtLeastOne(m: int, e: int)
    requires 0 < e
    ensures m >= e ==> m / e >= 1
    ensures 0 <= m < e ==> m / e == 0 && m % e == m
  {
    var q := m / e;
    assert m == e * q + m % e;
    if m >= e && q <= 0 {
      MulMono(q, 0, e);
    }
    if 0 <= m < e {
      DivideExact(m, e, 0, m);
    }
  }

  /** What a result parameter may refer to: the C code accepts NULL for either. */
  function Footprint(b: Big?): set<object?>
    reads b
  {
    if b == null then {} else {b, b.d}
  }

  /** The results do not share their words with each other or with the operands,
      though each may be one of the operands. */
  ghost predicate Separate(dv: Big?, rm: Big?, num: Big, divisor: Big)
    reads dv, rm, num, divisor
  {
    && (dv != null ==> dv.Sep(num) && dv.Sep(divisor))
    && (rm != null ==> rm.Sep(num) && rm.Sep(divisor))
    && (dv != null && rm != null ==> dv != rm && dv.d != rm.d)
  }

  /** BN_div: quotient and remainder rounded towards zero; it fails for a divisor of
      zero. The remainder should have the sign of the dividend, but if dv is num the
      dividend's sign has been replaced by the quotient's when it is read. */
  method Div(dv: Big?, rm: Big?, num: Big, divisor: Big) returns (ok: bool)
    requires num.Valid() && divisor.Valid() && (dv != null ==> dv.Valid()) && (rm != null ==> rm.Valid())
    requires Separate(dv, rm, num, divisor)
    modifies Footprint(dv), Footprint(rm)
    ensures ok == old(divisor.Mag() != 0)
    ensures dv != null ==> dv.Valid() && (dv.d == old(dv.d) || fresh(dv.d))
    ensures rm != null ==> rm.Valid() && (rm.d == old(rm.d) || fresh(rm.d))
    ensures dv != null && rm != null ==> dv.d != rm.d
    ensures ok && dv != null ==> dv.Mag() == old(num.Mag() / divisor.Mag())
    ensures ok && dv != null ==> dv.neg == old(num.Mag() >= divisor.Mag() && num.neg != divisor.neg)
    ensures ok && rm != null ==> rm.Mag() == old(num.Mag() % divisor.Mag())
    ensures ok && rm != null && old(num.Mag() < divisor.Mag()) ==> rm.neg == old(num.neg)
    ensures ok && rm != null && old(num.Mag() >= divisor.Mag())
            ==> rm.neg == (rm.Mag() != 0 && old(if dv == num then num.neg != divisor.neg else num.neg))
  {
    ok := !divisor.IsZero();
    if ok {
      ghost var m, e := num.Mag(), divisor.Mag();
      AtLeastOne(m, e);
      var c := num.UCmp(divisor);
      if c < 0 {
        if rm != null {
          rm.Copy(num);
        }
        if dv != null {
          dv.Zero();
        }
      } else {
        DivNotSmaller(dv, rm, num, divisor);
      }
    }
  }

  method DivNotSmaller(dv: Big?, rm: Big?, num: Big, divisor: Big)
    requires num.Valid() && divisor.Valid() && (dv != null ==> dv.Valid()) && (rm != null ==> rm.Valid())
    requires Separate(dv, rm, num, divisor)
    requires 0 < divisor.Mag() <= num.Mag()
    modifies Footprint(dv), Footprint(rm)
    ensures dv != null ==> dv.Valid() && (dv.d == old(dv.d) || fresh(dv.d))
    ensures rm != null ==> rm.Valid() && (rm.d == old(rm.d) || fresh(rm.d))
    ensures dv != null && rm != null ==> dv.d != rm.d
    ensures dv != null ==> dv.Mag() == old(num.Mag() / divisor.Mag())
    ensures dv != null ==> dv.neg == old(num.neg != divisor.neg)
    ensures rm != null ==> rm.Mag() == old(num.Mag() % divisor.Mag())
    ensures rm != null ==> rm.neg == (rm.Mag() != 0 && old(if dv == num then num.neg != divisor.neg else num.neg))
  {
    var res := dv;
    if dv == null {
      res := Product.CtxGet();
    }
    var snum, sh := DivideLarge(res, num, divisor);
    if rm != null {
      var neg := num.neg;
      rm.RShift(snum, sh);
      if !rm.IsZero() {
        rm.neg := neg;
      }
    }
  }

  /** The results of BN_div satisfy the division equation with signs, rounding
      towards zero, if the dividend's sign is still there when it is read. */
  lemma TruncatedDivision(m: nat, e: nat, sn: bool, sd: bool)
    requires e > 0
    ensures Signed(m >= e && sn != sd, m / e) * Signed(sd, e) + Signed(sn, m % e) == Signed(sn, m)
    ensures m % e < e
  {
    AtLeastOne(m, e);
    Product.SignedTimes(m >= e && sn != sd, m / e, sd, e);
    assert m == e * (m / e) + m % e;
    MulEqual(e, m / e, m / e);
  }

  /** With dv the same number as num the equation holds exactly for a positive divisor
      or a remainder of zero (for a dividend that is not smaller than the divisor). */
  lemma AliasedQuotient(m: nat, e: nat, sn: bool, sd: bool)
    requires 0 < e <= m
    ensures Signed(sn != sd, m / e) * Signed(sd, e) + Signed(sn != sd, m % e) == Signed(sn, m) <==> !sd || m % e == 0
  {
    TruncatedDivision(m, e, sn, sd);
  }

  // ----- BN_nnmod

  lemma NegativeMod(m: int, e: int)
    requires 0 < e
    ensures (-m) % e == if m % e == 0 then 0 else e - m % e
  {
    var q, r := m / e, m % e;
    assert m == e * q + r;
    if r == 0 {
      assert -m == 0 + e * (-q);
      DivideExact(-m, e, -q, 0);
    } else {
      assert -m == (e - r) + e * (-q - 1);
      DivideExact(-m, e, -q - 1, e - r);
    }
  }

  /** BN_nnmod: the remainder that is not negative. A zero with a minus sign, which
      BN_div hands on, is taken for a negative number and gives the modulus itself. If r
      is d, there is no modulus left to add to a negative remainder, and it becomes zero. */
  method NNMod(r: Big, m: Big, d: Big) returns (ok: bool)
    requires r.Valid() && m.Valid() && d.Valid() && r.Sep(m) && r.Sep(d)
    modifies r, r.d
    ensures r.Valid() && (r.d == old(r.d) || fresh(r.d))
    ensures ok == (old(d.Mag()) != 0)
    ensures ok && r != d ==> r.Int() == old(if m.neg && m.top == 0 then d.Mag() else m.Int() % d.Mag())
    ensures ok && r == d ==> r.Int() == old(if m.Int() < 0 then 0 else m.Int() % d.Mag())
    ensures ok && r == d ==>
      (r.Int() == old(m.Int() % d.Mag()) <==> old(m.Int() >= 0 || m.Int() % d.Mag() == 0))
    ensures ok ==> r.Proper()
  {
    m.ZeroTop();
    ghost var v, e := m.Mag(), d.Mag();
    ok := Div(null, r, m, d);
    if ok {
      NegativeMod(v, e);
      AtLeastOne(v, e);
      r.ZeroTop();
      if r.neg {
        FoldSign(r, d);
      }
    }
  }

  /** r + |d| for a negative r of smaller size, and r - r if r is d. */
  method FoldSign(r: Big, d: Big)
    requires r.Valid() && d.Valid() && r.Sep(d) && r.neg && (r != d ==> r.Mag() < d.Mag())
    modifies r, r.d
    ensures r.Valid() && (r.d == old(r.d) || fresh(r.d))
    ensures r.Int() == old(d.Mag() - r.Mag()) && r.Proper()
  {
    if d.neg {
      r.Sub(r, d);
    } else {
      r.Add(r, d);
    }
    r.ZeroTop();
    r.Positive();
  }
}
