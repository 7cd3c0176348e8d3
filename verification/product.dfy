/** BN_mul and BN_sqr: which of the algorithms multiplies two numbers, and in what
    space. */
module Product {
  import opened Words
  import opened Kernels
  import opened Bignum
  import Columns
  import Karatsuba
  import Magnitude
  import Multiply
  import Shift
  import Square

  /** BN_CTX_get: a number nobody else uses, with whatever its last user left in it. */
  method CtxGet() returns (t: Big)
    ensures fresh(t) && fresh(t.d) && t.Valid()
  {
    t := new Big();
  }

  /** With n = BN_num_bits_word(l), the source takes 1 << (n - 1) and compares it with
      l to recognise the lengths of the recursive algorithms. */
  lemma {:induction false} PowerOfTwoBits(l: nat, n: nat)
    requires n > 0 && Shift.Pow2(n - 1) <= l < Shift.Pow2(n)
    ensures l == Shift.Pow2(n - 1) <==> Karatsuba.PowerOfTwo(l)
  {
    if n > 1 {
      PowerOfTwoBits(l / 2, n - 1);
    }
  }

  // ----- BN_mul

  /** The operand that is one word shorter gets a zero word, if its array has one
      to spare before the last. */
  method PadOperands(a: Big, b: Big) returns (al: nat, bl: nat)
    requires a.Valid() && b.Valid() && a.Sep(b)
    modifies a.d, b.d
    ensures a.top <= al < a.d.Length && b.top <= bl < b.d.Length && al + bl <= a.top + b.top + 1
    ensures a.d[..a.top] == old(a.d[..a.top]) && b.d[..b.top] == old(b.d[..b.top])
    ensures Val(a.d[..al]) == a.Mag() && Val(b.d[..bl]) == b.Mag()
  {
    al, bl := a.top, b.top;
    if al - bl == 1 && bl < b.d.Length - 1 {
      b.d[bl] := 0;
      bl := bl + 1;
      ValPad(b.d[..bl], b.top);
      assert b.d[..bl][..b.top] == b.d[..b.top];
    } else if al - bl == -1 && al < a.d.Length - 1 {
      a.d[al] := 0;
      al := al + 1;
      ValPad(a.d[..al], a.top);
      assert a.d[..al][..a.top] == a.d[..a.top];
    }
  }

  /** What the algorithm for the lengths at hand needs and does: rr holds the product
      in the first n words of its array. */
  twostate predicate Holds(rr: Big, n: nat, v: nat)
    reads rr, rr.d
  {
    n <= rr.d.Length && (rr.d == old(rr.d) || fresh(rr.d)) && Val(rr.d[..n]) == v && rr.neg == old(rr.neg)
  }

  /** The columns for two numbers of eight words. */
  method MulEight(rr: Big, a: Big, b: Big)
    requires rr.Valid() && a.Valid() && b.Valid() && a.top == b.top == 8
    requires rr != a && rr != b && rr.Sep(a) && rr.Sep(b)
    modifies rr, rr.d
    ensures Holds(rr, 16, old(a.Mag() * b.Mag())) && 16 < rr.d.Length
  {
    rr.WExpand(16);
    assert a.d[..8] == a.d[0..0 + 8] && b.d[..8] == b.d[0..0 + 8];
    Columns.MulComba(rr.d, 0, a.d, 0, b.d, 0, 8);
    assert rr.d[..16] == rr.d[0..0 + 2 * 8];
  }

  /** The recursion for two operands of n words, n a power of two. */
  method MulSame(rr: Big, a: Big, b: Big, n: nat)
    requires rr.Valid() && 0 < n < a.d.Length && n < b.d.Length && Karatsuba.PowerOfTwo(n)
    requires rr != a && rr != b && rr.Sep(a) && rr.Sep(b)
    modifies rr, rr.d
    ensures Holds(rr, n + n, old(Val(a.d[..n]) * Val(b.d[..n]))) && n + n < rr.d.Length
  {
    var t := CtxGet();
    t.WExpand(4 * n);
    rr.WExpand(4 * n);
    MulRecursiveInto(rr, a, b, n, t);
  }

  method MulRecursiveInto(rr: Big, a: Big, b: Big, n: nat, t: Big)
    requires 0 < n < a.d.Length && n < b.d.Length && Karatsuba.PowerOfTwo(n)
    requires 4 * n < rr.d.Length && 4 * n < t.d.Length
    requires rr.d != a.d && rr.d != b.d && t.d != a.d && t.d != b.d && t.d != rr.d
    modifies rr.d, t.d
    ensures Val(rr.d[..n + n]) == old(Val(a.d[..n]) * Val(b.d[..n]))
  {
    assert a.d[..n] == a.d[0..0 + n] && b.d[..n] == b.d[0..0 + n];
    Karatsuba.MulRecursive(rr.d, 0, a.d, 0, b.d, 0, n, t.d, 0);
    assert rr.d[..n + n] == rr.d[0..0 + n + n];
  }

  /** Rows; the array may have to hold a word more than bn_wexpand was asked for. */
  method MulAny(rr: Big, a: Big, b: Big, al: nat, bl: nat, top: nat)
    requires rr.Valid() && 0 < al < a.d.Length && 0 < bl < b.d.Length && al + bl <= top + 1
    requires rr != a && rr != b && rr.Sep(a) && rr.Sep(b)
    modifies rr, rr.d
    ensures Holds(rr, al + bl, old(Val(a.d[..al]) * Val(b.d[..bl])))
    ensures top < rr.d.Length
  {
    rr.WExpand(top);
    assert a.d[..al] == a.d[0..0 + al] && b.d[..bl] == b.d[0..0 + bl];
    Multiply.MulNormal(rr.d, 0, a.d, 0, al, b.d, 0, bl);
    assert rr.d[..al + bl] == rr.d[0..0 + (al + bl)];
  }

  /** A product needs no more words than its factors have together. */
  lemma ProductFits(s: seq<Word>, top: nat, x: seq<Word>, y: seq<Word>)
    requires |x| + |y| == top <= |s| && Val(s) == Val(x) * Val(y)
    ensures Val(s[..top]) == Val(s)
  {
    Columns.ValProductBound(x, y);
    ValSplit(s, top);
    UpMono(0, Val(s[top..]), top);
    UpZero(top);
    UpUnit(Val(s[top..]), top);
  }

  /** The choice of the algorithm for two numbers that are not zero. */
  method MulWords(rr: Big, a: Big, b: Big) returns (ghost n: nat)
    requires rr.Valid() && a.Valid() && b.Valid() && a.top > 0 && b.top > 0
    requires rr != a && rr != b && rr.Sep(a) && rr.Sep(b) && a.Sep(b)
    modifies rr, rr.d, a.d, b.d
    ensures Holds(rr, n, old(a.Mag() * b.Mag())) && a.top + b.top <= n && a.top + b.top < rr.d.Length
    ensures a.d[..a.top] == old(a.d[..a.top]) && b.d[..b.top] == old(b.d[..b.top])
  {
    if a.top == b.top == 8 {
      MulEight(rr, a, b);
      n := 16;
    } else {
      var top, al, bl := a.top + b.top, a.top, b.top;
      if al >= 16 && bl >= 16 {
        al, bl := PadOperands(a, b);
      }
      n := al + bl;
      MulLengths(rr, a, b, al, bl, top, a.Mag(), b.Mag());
    }
  }

  /** The recursion for two long operands of a power of two words, the rows otherwise. */
  method MulLengths(rr: Big, a: Big, b: Big, al: nat, bl: nat, top: nat, ghost v: nat, ghost w: nat)
    requires rr.Valid() && 0 < al < a.d.Length && 0 < bl < b.d.Length && top <= al + bl <= top + 1
    requires rr != a && rr != b && rr.Sep(a) && rr.Sep(b)
    requires Val(a.d[..al]) == v && Val(b.d[..bl]) == w
    modifies rr, rr.d
    ensures Holds(rr, al + bl, v * w) && top < rr.d.Length
  {
    if al >= 16 && bl >= 16 && al == bl && Karatsuba.PowerOfTwo(al) {
      MulSame(rr, a, b, al);
    } else {
      MulAny(rr, a, b, al, bl, top);
    }
  }

  /** The product in a number that is neither operand. */
  method MulInto(rr: Big, a: Big, b: Big)
    requires rr.Valid() && a.Valid() && b.Valid() && a.top > 0 && b.top > 0
    requires rr != a && rr != b && rr.Sep(a) && rr.Sep(b) && a.Sep(b)
    modifies rr, rr.d, a.d, b.d
    ensures rr.Valid() && (rr.d == old(rr.d) || fresh(rr.d))
    ensures rr.Mag() == old(a.Mag() * b.Mag()) && rr.neg == (a.neg != b.neg)
    ensures a.d[..a.top] == old(a.d[..a.top]) && b.d[..b.top] == old(b.d[..b.top])
  {
    ghost var x, y := a.d[..a.top], b.d[..b.top];
    var top := a.top + b.top;
    rr.neg := a.neg != b.neg;
    ghost var n := MulWords(rr, a, b);
    SetTop(rr, top, n, x, y);
  }

  /** bn_fix_top after a product in n words, of which only top can be in use. */
  method SetTop(rr: Big, top: nat, ghost n: nat, ghost x: seq<Word>, ghost y: seq<Word>)
    requires |x| + |y| == top <= n <= rr.d.Length && top < rr.d.Length
    requires Val(rr.d[..n]) == Val(x) * Val(y)
    modifies rr`top
    ensures rr.Valid() && rr.Mag() == Val(x) * Val(y)
  {
    ProductFits(rr.d[..n], top, x, y);
    assert rr.d[..n][..top] == rr.d[..top] == rr.d[0..0 + top];
    rr.top := Magnitude.FixTop(rr.d, 0, top);
    assert rr.d[..rr.top] == rr.d[0..0 + rr.top];
  }

  lemma SignedTimes(s: bool, x: nat, t: bool, y: nat)
    ensures Signed(s, x) * Signed(t, y) == Signed(s != t, x * y)
  {
  }

  /** BN_mul. The operands keep their values; a word above their last one may be
      cleared. */
  method Mul(r: Big, a: Big, b: Big)
    requires r.Valid() && a.Valid() && b.Valid() && r.Sep(a) && r.Sep(b) && a.Sep(b)
    modifies r, r.d, a.d, b.d
    ensures r.Valid() && (r.d == old(r.d) || fresh(r.d))
    ensures r.Int() == old(a.Int() * b.Int()) && r.Proper()
    ensures r != a ==> a.Valid() && a.d[..a.top] == old(a.d[..a.top])
    ensures r != b ==> b.Valid() && b.d[..b.top] == old(b.d[..b.top])
  {
    a.ZeroTop();
    b.ZeroTop();
    SignedTimes(a.neg, a.Mag(), b.neg, b.Mag());
    if a.top == 0 || b.top == 0 {
      r.Zero();
      r.ZeroTop();
    } else {
      MulNonNeg(a.Mag() - 1, b.Mag() - 1);
      MulNotZero(r, a, b);
    }
  }

  method MulNotZero(r: Big, a: Big, b: Big)
    requires r.Valid() && a.Valid() && b.Valid() && r.Sep(a) && r.Sep(b) && a.Sep(b)
    requires a.top > 0 && b.top > 0
    modifies r, r.d, a.d, b.d
    ensures r.Valid() && (r.d == old(r.d) || fresh(r.d))
    ensures r.Mag() == old(a.Mag() * b.Mag()) && r.neg == old(a.neg != b.neg) && r.top > 0
    ensures r != a ==> a.Valid() && a.d[..a.top] == old(a.d[..a.top])
    ensures r != b ==> b.Valid() && b.d[..b.top] == old(b.d[..b.top])
  {
    ghost var v := a.Mag() * b.Mag();
    a.ZeroTop();
    b.ZeroTop();
    MulMono(1, a.Mag(), b.Mag());
    if r == a || r == b {
      var rr := CtxGet();
      MulInto(rr, a, b);
      r.Copy(rr);
    } else {
      MulInto(r, a, b);
    }
    r.ZeroTop();
  }

  // ----- BN_sqr

  /** Up to fifteen words the scratch space is a local array of 32 words. */
  method SqrShort(rr: Big, a: Big, al: nat)
    requires 0 < al < 16 && al < a.d.Length && al + al < rr.d.Length && rr.d != a.d
    modifies rr.d
    ensures Val(rr.d[..al + al]) == old(Val(a.d[..al]) * Val(a.d[..al]))
  {
    assert a.d[..al] == a.d[0..0 + al];
    if al == 4 || al == 8 {
      Square.SqrComba(rr.d, 0, a.d, 0, al);
      assert rr.d[..al + al] == rr.d[0..0 + 2 * al];
    } else {
      var t := new Word[32];
      Square.SqrNormal(rr.d, 0, a.d, 0, al, t, 0);
      assert rr.d[..al + al] == rr.d[0..0 + al + al];
    }
  }

  method SqrLong(rr: Big, a: Big, al: nat, tmp: Big)
    requires 16 <= al < a.d.Length && al + al < rr.d.Length && rr.d != a.d
    requires tmp.Valid() && tmp != rr && tmp.d != rr.d && tmp != a && tmp.d != a.d
    modifies rr.d, tmp, tmp.d
    ensures Val(rr.d[..al + al]) == old(Val(a.d[..al]) * Val(a.d[..al]))
  {
    if Karatsuba.PowerOfTwo(al) {
      tmp.WExpand(4 * al);
      SqrRecursiveInto(rr, a, al, tmp);
    } else {
      tmp.WExpand(al + al);
      assert a.d[..al] == a.d[0..0 + al];
      Square.SqrNormal(rr.d, 0, a.d, 0, al, tmp.d, 0);
      assert rr.d[..al + al] == rr.d[0..0 + al + al];
    }
  }

  method SqrRecursiveInto(rr: Big, a: Big, al: nat, tmp: Big)
    requires 0 < al < a.d.Length && al + al < rr.d.Length && 4 * al < tmp.d.Length && Karatsuba.PowerOfTwo(al)
    requires rr.d != a.d && tmp.d != a.d && tmp.d != rr.d
    modifies rr.d, tmp.d
    ensures Val(rr.d[..al + al]) == old(Val(a.d[..al]) * Val(a.d[..al]))
  {
    assert a.d[..al] == a.d[0..0 + al];
    Square.SqrRecursive(rr.d, 0, a.d, 0, al, tmp.d, 0);
    assert rr.d[..al + al] == rr.d[0..0 + al + al];
  }

  /** Of the words of a square only the top one can be zero. */
  lemma SquareTop(s: seq<Word>, x: seq<Word>)
    requires |s| == |x| + |x| > 0 && x[|x| - 1] != 0 && Val(s) == Val(x) * Val(x)
    ensures s[|s| - 1] == 0 ==> s[|s| - 2] != 0 && Val(s[..|s| - 1]) == Val(s)
  {
    var n := |x| - 1;
    ValTop(x);
    PowAdd(n, n);
    PowPos(n);
    MulMono(Pow(n), Val(x), Pow(n));
    MulMono(Pow(n), Val(x), Val(x));
    if s[|s| - 1] == 0 {
      ValPad(s, |s| - 1);
      Magnitude.TopNotZero(s[..|s| - 1]);
    }
  }

  method SqrInto(rr: Big, a: Big)
    requires rr.Valid() && a.Valid() && a.top > 0 && rr != a && rr.Sep(a)
    modifies rr, rr.d
    ensures rr.Valid() && (rr.d == old(rr.d) || fresh(rr.d))
    ensures rr.Mag() == old(a.Mag() * a.Mag()) && !rr.neg
  {
    var al, max := a.top, a.top + a.top;
    ghost var x := a.d[..al];
    var tmp := CtxGet();
    rr.WExpand(max + 1);
    SqrWords(rr, a, al, tmp);
    SquareTop(rr.d[..max], x);
    rr.top, rr.neg := max, false;
    if rr.d[max - 1] == 0 {
      rr.top := max - 1;
      assert rr.d[..max][..max - 1] == rr.d[..max - 1];
    }
  }

  method SqrWords(rr: Big, a: Big, al: nat, tmp: Big)
    requires 0 < al < a.d.Length && al + al < rr.d.Length && rr.d != a.d
    requires tmp.Valid() && tmp != rr && tmp.d != rr.d && tmp != a && tmp.d != a.d
    modifies rr.d, tmp, tmp.d
    ensures Val(rr.d[..al + al]) == old(Val(a.d[..al]) * Val(a.d[..al]))
  {
    if al < 16 {
      SqrShort(rr, a, al);
    } else {
      SqrLong(rr, a, al, tmp);
    }
  }

  /** BN_sqr. The square of zero keeps the sign the result had before. */
  method Sqr(r: Big, a: Big)
    requires r.Valid() && a.Valid() && r.Sep(a)
    modifies r, r.d
    ensures r.Valid() && (r.d == old(r.d) || fresh(r.d))
    ensures r.Int() == old(a.Int() * a.Int())
    ensures old(a.top) > 0 ==> r.Proper() && !r.neg
    ensures old(a.top) == 0 ==> r.neg == old(r.neg)
    ensures r.Proper() <==> old(a.top > 0 || !r.neg)
  {
    a.ZeroTop();
    SignedTimes(a.neg, a.Mag(), a.neg, a.Mag());
    if a.top == 0 {
      r.top := 0;
    } else if a != r {
      SqrInto(r, a);
    } else {
      var rr := CtxGet();
      SqrInto(rr, a);
      r.Copy(rr);
    }
  }
}
