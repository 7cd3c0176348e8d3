/** The field of 256 elements that Rijndael mixes columns over (section 4 of FIPS 197):
    doubling, multiples, and why InvMixColumns undoes MixColumns. */
module Field {
  import opened Bits
  import opened Shift

  // ----- bits of a byte

  function Bit(x: nat, i: nat): bool {
    if i == 0 then x % 2 == 1 else Bit(x / 2, i - 1)
  }

  lemma {:induction false} XorBit(x: nat, y: nat, n: nat, i: nat)
    requires i < n
    ensures Bit(XorBits(x, y, n), i) == (Bit(x, i) != Bit(y, i))
  {
    SplitBit((x % 2 + y % 2) % 2, XorBits(x / 2, y / 2, n - 1));
    if i > 0 {
      XorBit(x / 2, y / 2, n - 1, i - 1);
    }
  }

  lemma {:induction false} SameBits(x: nat, y: nat, n: nat)
    requires x < Pow2(n) && y < Pow2(n)
    requires forall i :: 0 <= i < n ==> Bit(x, i) == Bit(y, i)
    ensures x == y
  {
    if n > 0 {
      assert Bit(x, 0) == Bit(y, 0);
      forall i | 0 <= i < n - 1 ensures Bit(x / 2, i) == Bit(y / 2, i) {
        assert Bit(x, i + 1) == Bit(y, i + 1);
      }
      SameBits(x / 2, y / 2, n - 1);
    }
  }

  /** Bytes are equal when their bits are. */
  lemma ByBits(x: Byte, y: Byte)
    requires forall i :: 0 <= i < 8 ==> Bit(x, i) == Bit(y, i)
    ensures x == y
  {
    Ranges();
    SameBits(x, y, 8);
  }

  /** A bit of exclusive ors. */
  lemma XorsAt(i: nat)
    requires i < 8
    ensures forall p: Byte, q: Byte :: Bit(Xor(p, q), i) == (Bit(p, i) != Bit(q, i))
  {
    forall p: Byte, q: Byte ensures Bit(Xor(p, q), i) == (Bit(p, i) != Bit(q, i)) {
      XorBit(p, q, 8, i);
    }
  }

  // ----- doubling

  /** XTIME */
  function Xtime(s: Byte): Byte {
    if s >= 0x80 then Xor(2 * s - 0x100, 0x1b) else 2 * s
  }

  lemma {:induction false} TopBit(x: nat, n: nat, i: nat)
    requires x < Pow2(n) && i <= n
    ensures !Bit(x, n) && Bit(x + Pow2(n), i) == if i == n then true else Bit(x, i)
  {
    if n > 0 {
      assert (x + Pow2(n)) / 2 == x / 2 + Pow2(n - 1) && (x + Pow2(n)) % 2 == x % 2;
      TopBit(x / 2, n - 1, if i > 0 then i - 1 else 0);
    }
  }

  lemma DoubleBit(x: nat, i: nat)
    ensures Bit(2 * x, i) == if i == 0 then false else Bit(x, i - 1)
  {
    SplitBit(0, x);
  }

  /** The bits of a double. */
  lemma XtimeBit(s: Byte, i: nat)
    requires i < 8
    ensures Bit(Xtime(s), i) == ((if i == 0 then false else Bit(s, i - 1)) != (Bit(s, 7) && Bit(0x1b, i)))
  {
    Ranges();
    if s >= 0x80 {
      XtimeBitLost(s, s - 0x80, i);
    } else {
      TopBit(s, 7, 7);
      DoubleBit(s, i);
    }
  }

  lemma XtimeBitLost(s: Byte, x: nat, i: nat)
    requires i < 8 && s == x + 0x80
    ensures Bit(s, 7) && Bit(Xtime(s), i) == ((if i == 0 then false else Bit(s, i - 1)) != Bit(0x1b, i))
  {
    Ranges();
    TopBit(x, 7, 7);
    TopBit(x, 7, if i == 0 then 0 else i - 1);
    DoubleBit(x, i);
    XorBit(2 * x, 0x1b, 8, i);
  }

  /** Multiplication by x modulo x^8 + x^4 + x^3 + x + 1, section 4.2 of FIPS 197. */
  lemma XtimeIs(s: Byte, i: nat)
    requires i < 8
    ensures Bit(Xtime(s), i) == ((i > 0 && Bit(s, i - 1)) != (Bit(s, 7) && (i == 0 || i == 1 || i == 3 || i == 4)))
  {
    XtimeBit(s, i);
    Polynomial(i);
  }

  lemma Polynomial(i: nat)
    requires i < 8
    ensures Bit(0x1b, i) == (i == 0 || i == 1 || i == 3 || i == 4)
  {
    assert 0x1b / 2 == 13 && 13 / 2 == 6 && 6 / 2 == 3 && 3 / 2 == 1 && 1 / 2 == 0;
  }

  /** Doubling is linear. */
  lemma XtimeXor(x: Byte, y: Byte)
    ensures Xtime(Xor(x, y)) == Xor(Xtime(x), Xtime(y))
  {
    forall i | 0 <= i < 8 ensures Bit(Xtime(Xor(x, y)), i) == Bit(Xor(Xtime(x), Xtime(y)), i) {
      XorsAt(i);
      XorsAt(7);
      if i > 0 {
        XorsAt(i - 1);
      }
      XtimeBit(x, i);
      XtimeBit(y, i);
      XtimeBit(Xor(x, y), i);
    }
    ByBits(Xtime(Xor(x, y)), Xor(Xtime(x), Xtime(y)));
  }

  // ----- sums of four

  function Sum4(a: Byte, b: Byte, c: Byte, d: Byte): Byte {
    Xor(Xor(a, b), Xor(c, d))
  }

  lemma Swapped(a: Byte, b: Byte, c: Byte, d: Byte)
    ensures Sum4(a, b, c, d) == Sum4(a, c, b, d)
    ensures Sum4(a, b, c, d) == Sum4(b, c, d, a)
    ensures Sum4(a, b, c, d) == Xor(Xor(Xor(a, b), c), d)
  {
    forall i | 0 <= i < 8
      ensures Bit(Sum4(a, b, c, d), i) == Bit(Sum4(a, c, b, d), i) == Bit(Sum4(b, c, d, a), i)
      ensures Bit(Sum4(a, b, c, d), i) == Bit(Xor(Xor(Xor(a, b), c), d), i)
    {
      XorsAt(i);
    }
    ByBits(Sum4(a, b, c, d), Sum4(a, c, b, d));
    ByBits(Sum4(a, b, c, d), Sum4(b, c, d, a));
    ByBits(Sum4(a, b, c, d), Xor(Xor(Xor(a, b), c), d));
  }

  /** A word of the cipher, most significant byte first. */
  datatype Col = Col(b0: Byte, b1: Byte, b2: Byte, b3: Byte)

  function XorCol(x: Col, y: Col): Col {
    Col(Xor(x.b0, y.b0), Xor(x.b1, y.b1), Xor(x.b2, y.b2), Xor(x.b3, y.b3))
  }

  function Sum(x: Col): Byte {
    Sum4(x.b0, x.b1, x.b2, x.b3)
  }

  lemma SumXor(x: Col, y: Col)
    ensures Sum(XorCol(x, y)) == Xor(Sum(x), Sum(y))
  {
    Swapped(x.b0, y.b0, x.b1, y.b1);
    Swapped(x.b2, y.b2, x.b3, y.b3);
    Swapped(Xor(x.b0, x.b1), Xor(y.b0, y.b1), Xor(x.b2, x.b3), Xor(y.b2, y.b3));
  }

  /** Four sums of four, by rows or by columns. */
  lemma Transposed(x: Col, y: Col, z: Col, w: Col)
    ensures Sum4(Sum(x), Sum(y), Sum(z), Sum(w))
         == Sum4(Sum4(x.b0, y.b0, z.b0, w.b0), Sum4(x.b1, y.b1, z.b1, w.b1),
                 Sum4(x.b2, y.b2, z.b2, w.b2), Sum4(x.b3, y.b3, z.b3, w.b3))
  {
    SumXor(x, y);
    SumXor(z, w);
    SumXor(XorCol(x, y), XorCol(z, w));
  }

  // ----- multiples

  /** p times x in the field, p being a polynomial of section 4.2 of FIPS 197. */
  function Times(p: nat, x: Byte): Byte
    decreases p, x
  {
    if p == 0 then 0 else Xor(if p % 2 == 1 then x else 0, Times(p / 2, Xtime(x)))
  }

  lemma {:induction false} TimesXor(p: nat, x: Byte, y: Byte)
    ensures Times(p, Xor(x, y)) == Xor(Times(p, x), Times(p, y))
    decreases p
  {
    if p == 0 {
      XorZero(0);
    } else {
      XtimeXor(x, y);
      TimesXor(p / 2, Xtime(x), Xtime(y));
      XorZero(0);
      var u, v := if p % 2 == 1 then x else 0, if p % 2 == 1 then y else 0;
      Swapped(u, v, Times(p / 2, Xtime(x)), Times(p / 2, Xtime(y)));
    }
  }

  lemma TimesSum(p: nat, x: Col)
    ensures Times(p, Sum(x)) == Sum4(Times(p, x.b0), Times(p, x.b1), Times(p, x.b2), Times(p, x.b3))
  {
    TimesXor(p, x.b0, x.b1);
    TimesXor(p, x.b2, x.b3);
    TimesXor(p, Xor(x.b0, x.b1), Xor(x.b2, x.b3));
  }

  lemma TimesTwice(p: nat, x: Byte)
    requires p > 0
    ensures Times(2 * p, x) == Times(p, Xtime(x))
    ensures Times(2 * p + 1, x) == Xor(x, Times(p, Xtime(x)))
  {
    SplitBit(0, p);
    SplitBit(1, p);
    ZeroXor(Times(p, Xtime(x)));
  }

  lemma TimesOne(x: Byte)
    ensures Times(1, x) == x
  {
    XorZero(x);
  }

  /** The multiples of the two matrices. */
  lemma Multiples(x: Byte)
    ensures Times(2, x) == Xtime(x) && Times(3, x) == Xor(x, Xtime(x))
    ensures Times(9, x) == Xor(x, Xtime(Xtime(Xtime(x))))
    ensures Times(11, x) == Xor(x, Xor(Xtime(x), Xtime(Xtime(Xtime(x)))))
    ensures Times(13, x) == Xor(x, Xor(Xtime(Xtime(x)), Xtime(Xtime(Xtime(x)))))
    ensures Times(14, x) == Xor(Xtime(x), Xor(Xtime(Xtime(x)), Xtime(Xtime(Xtime(x)))))
  {
    var y, z, w := Xtime(x), Xtime(Xtime(x)), Xtime(Xtime(Xtime(x)));
    TimesOne(y);
    TimesOne(w);
    TimesTwice(1, x);
    TimesTwice(1, z);
    TimesTwice(2, y);
    TimesTwice(2, x);
    TimesTwice(3, y);
    TimesTwice(4, x);
    TimesTwice(5, x);
    TimesTwice(6, x);
    TimesTwice(7, x);
    TimesTwice(1, y);
  }

  // ----- products of columns with circulant matrices

  datatype Coef = Coef(p0: nat, p1: nat, p2: nat, p3: nat)

  function Turn(a: Col): Col {
    Col(a.b1, a.b2, a.b3, a.b0)
  }

  function Row(p: Coef, a: Col): Byte {
    Sum4(Times(p.p0, a.b0), Times(p.p1, a.b1), Times(p.p2, a.b2), Times(p.p3, a.b3))
  }

  /** The matrix whose first row is p and whose other rows are the one before, turned. */
  function Matrix(p: Coef, a: Col): Col {
    Col(Row(p, a), Row(p, Turn(a)), Row(p, Turn(Turn(a))), Row(p, Turn(Turn(Turn(a)))))
  }

  /** Sections 5.1.3 and 5.3.3 of FIPS 197. */
  const MIX := Coef(2, 3, 1, 1)
  const UNMIX := Coef(14, 11, 13, 9)

  function MixColumn(a: Col): Col {
    Matrix(MIX, a)
  }

  function InvMixColumn(a: Col): Col {
    Matrix(UNMIX, a)
  }

  /** The four equations of section 5.1.3 of FIPS 197. */
  lemma MixColumnIs(a: Col)
    ensures var m := MixColumn(a);
            && m.b0 == Xor(Xor(Xor(Xtime(a.b0), Xor(a.b1, Xtime(a.b1))), a.b2), a.b3)
            && m.b1 == Xor(Xor(Xor(a.b0, Xtime(a.b1)), Xor(a.b2, Xtime(a.b2))), a.b3)
            && m.b2 == Xor(Xor(Xor(a.b0, a.b1), Xtime(a.b2)), Xor(a.b3, Xtime(a.b3)))
            && m.b3 == Xor(Xor(Xor(Xor(a.b0, Xtime(a.b0)), a.b1), a.b2), Xtime(a.b3))
  {
    TwoThree(a.b0);
    TwoThree(a.b1);
    TwoThree(a.b2);
    TwoThree(a.b3);
    var x, y, z, w := a.b0, a.b1, a.b2, a.b3;
    Swapped(Times(2, x), Times(3, y), z, w);
    Swapped(x, Times(2, y), Times(3, z), w);
    Swapped(x, y, Times(2, z), Times(3, w));
    Swapped(Times(3, x), y, z, Times(2, w));
    Swapped(Times(2, z), Times(3, w), x, y);
    Swapped(Times(3, w), x, y, Times(2, z));
    Swapped(Times(2, w), Times(3, x), y, z);
  }

  lemma TwoThree(x: Byte)
    ensures Times(1, x) == x && Times(2, x) == Xtime(x) && Times(3, x) == Xor(x, Xtime(x))
  {
    TimesOne(x);
    Multiples(x);
  }

  lemma RowXor(p: Coef, x: Col, y: Col)
    ensures Row(p, XorCol(x, y)) == Xor(Row(p, x), Row(p, y))
  {
    TimesXor(p.p0, x.b0, y.b0);
    TimesXor(p.p1, x.b1, y.b1);
    TimesXor(p.p2, x.b2, y.b2);
    TimesXor(p.p3, x.b3, y.b3);
    SumXor(Col(Times(p.p0, x.b0), Times(p.p1, x.b1), Times(p.p2, x.b2), Times(p.p3, x.b3)),
           Col(Times(p.p0, y.b0), Times(p.p1, y.b1), Times(p.p2, y.b2), Times(p.p3, y.b3)));
  }

  /** Matrices are linear. */
  lemma MatrixXor(p: Coef, x: Col, y: Col)
    ensures Matrix(p, XorCol(x, y)) == XorCol(Matrix(p, x), Matrix(p, y))
  {
    RowXor(p, x, y);
    RowXor(p, Turn(x), Turn(y));
    RowXor(p, Turn(Turn(x)), Turn(Turn(y)));
    RowXor(p, Turn(Turn(Turn(x))), Turn(Turn(Turn(y))));
  }

  function TurnBack(p: Coef): Coef {
    Coef(p.p3, p.p0, p.p1, p.p2)
  }

  /** A row with its terms in the order of the column. */
  lemma RowTurned(p: Coef, a: Col)
    ensures Row(p, Turn(a)) == Row(TurnBack(p), a)
  {
    Swapped(Times(p.p3, a.b0), Times(p.p0, a.b1), Times(p.p1, a.b2), Times(p.p2, a.b3));
  }

  /** p times a row with coefficients q. */
  lemma TimesRow(p: nat, q: Coef, a: Col)
    ensures Times(p, Row(q, a)) == Sum4(Times(p, Times(q.p0, a.b0)), Times(p, Times(q.p1, a.b1)),
                                        Times(p, Times(q.p2, a.b2)), Times(p, Times(q.p3, a.b3)))
  {
    TimesSum(p, Col(Times(q.p0, a.b0), Times(q.p1, a.b1), Times(q.p2, a.b2), Times(q.p3, a.b3)));
  }

  /** What x adds to the product of p with a column of multiples of x. */
  function Line(p: Coef, q0: nat, q1: nat, q2: nat, q3: nat, x: Byte): Byte {
    Sum4(Times(p.p0, Times(q0, x)), Times(p.p1, Times(q1, x)), Times(p.p2, Times(q2, x)), Times(p.p3, Times(q3, x)))
  }

  function Powers(p: nat, q: Coef, a: Col): Col {
    Col(Times(p, Times(q.p0, a.b0)), Times(p, Times(q.p1, a.b1)), Times(p, Times(q.p2, a.b2)),
        Times(p, Times(q.p3, a.b3)))
  }

  /** One matrix after another, sorted by the bytes of the column. */
  lemma RowOfMatrix(p: Coef, q: Coef, a: Col)
    ensures Row(p, Matrix(q, a)) == Sum4(Line(p, q.p0, q.p3, q.p2, q.p1, a.b0), Line(p, q.p1, q.p0, q.p3, q.p2, a.b1),
                                         Line(p, q.p2, q.p1, q.p0, q.p3, a.b2), Line(p, q.p3, q.p2, q.p1, q.p0, a.b3))
  {
    var q1 := TurnBack(q);
    var q2 := TurnBack(q1);
    var q3 := TurnBack(q2);
    RowTurned(q, a);
    RowTurned(q, Turn(a));
    RowTurned(q1, a);
    RowTurned(q, Turn(Turn(a)));
    RowTurned(q1, Turn(a));
    RowTurned(q2, a);
    TimesRow(p.p0, q, a);
    TimesRow(p.p1, q1, a);
    TimesRow(p.p2, q2, a);
    TimesRow(p.p3, q3, a);
    Transposed(Powers(p.p0, q, a), Powers(p.p1, q1, a), Powers(p.p2, q2, a), Powers(p.p3, q3, a));
  }

  lemma TimesTriple(p: nat, x: Byte)
    ensures Times(p, Times(1, x)) == Times(p, x) && Times(p, Times(2, x)) == Times(p, Xtime(x))
    ensures Times(p, Times(3, x)) == Xor(Times(p, x), Times(p, Xtime(x)))
  {
    TimesOne(x);
    Multiples(x);
    TimesXor(p, x, Xtime(x));
  }

  /** The columns of the product of the two matrices. */
  lemma UnmixMix(x: Byte)
    ensures Line(UNMIX, 2, 1, 1, 3, x) == x && Line(UNMIX, 3, 2, 1, 1, x) == 0
    ensures Line(UNMIX, 1, 3, 2, 1, x) == 0 && Line(UNMIX, 1, 1, 3, 2, x) == 0
  {
    TimesTriple(14, x);
    TimesTriple(11, x);
    TimesTriple(13, x);
    TimesTriple(9, x);
    Multiples(x);
    Multiples(Xtime(x));
    forall i | 0 <= i < 8
      ensures Bit(Line(UNMIX, 2, 1, 1, 3, x), i) == Bit(x, i)
      ensures Bit(Line(UNMIX, 3, 2, 1, 1, x), i) == Bit(Line(UNMIX, 1, 3, 2, 1, x), i)
          == Bit(Line(UNMIX, 1, 1, 3, 2, x), i)
              == Bit(0, i)
    {
      XorsAt(i);
      ZeroBit(i);
    }
    ByBits(Line(UNMIX, 2, 1, 1, 3, x), x);
    ByBits(Line(UNMIX, 3, 2, 1, 1, x), 0);
    ByBits(Line(UNMIX, 1, 3, 2, 1, x), 0);
    ByBits(Line(UNMIX, 1, 1, 3, 2, x), 0);
  }

  lemma {:induction false} ZeroBit(i: nat)
    ensures !Bit(0, i)
  {
    if i > 0 {
      ZeroBit(i - 1);
    }
  }

  lemma MixUnmix(x: Byte)
    ensures Line(MIX, 14, 9, 13, 11, x) == x && Line(MIX, 11, 14, 9, 13, x) == 0
    ensures Line(MIX, 13, 11, 14, 9, x) == 0 && Line(MIX, 9, 13, 11, 14, x) == 0
  {
    Multiples(x);
    OuterIs(9, x);
    OuterIs(11, x);
    OuterIs(13, x);
    OuterIs(14, x);
    Multiples(Xtime(x));
    forall i | 0 <= i < 8
      ensures Bit(Line(MIX, 14, 9, 13, 11, x), i) == Bit(x, i)
      ensures Bit(Line(MIX, 11, 14, 9, 13, x), i) == Bit(Line(MIX, 13, 11, 14, 9, x), i)
          == Bit(Line(MIX, 9, 13, 11, 14, x), i)
              == Bit(0, i)
    {
      XorsAt(i);
      ZeroBit(i);
    }
    ByBits(Line(MIX, 14, 9, 13, 11, x), x);
    ByBits(Line(MIX, 11, 14, 9, 13, x), 0);
    ByBits(Line(MIX, 13, 11, 14, 9, x), 0);
    ByBits(Line(MIX, 9, 13, 11, 14, x), 0);
  }

  /** Small multiples of larger ones. */
  ghost predicate Outer(p: nat, x: Byte) {
    && Times(1, Times(p, x)) == Times(p, x) && Times(2, Times(p, x)) == Times(p, Xtime(x))
    && Times(3, Times(p, x)) == Xor(Times(p, x), Times(p, Xtime(x)))
  }

  lemma {:induction false} XtimeTimes(p: nat, x: Byte)
    ensures Xtime(Times(p, x)) == Times(p, Xtime(x))
    decreases p
  {
    if p > 0 {
      XtimeXor(if p % 2 == 1 then x else 0, Times(p / 2, Xtime(x)));
      XtimeTimes(p / 2, Xtime(x));
    }
  }

  lemma OuterIs(p: nat, x: Byte)
    ensures Outer(p, x)
  {
    TimesOne(Times(p, x));
    Multiples(Times(p, x));
    XtimeTimes(p, x);
  }

  lemma OneTerm(x: Byte)
    ensures Sum4(x, 0, 0, 0) == x
  {
    XorZero(x);
    XorZero(0);
  }

  lemma FirstRows(a: Col)
    ensures Row(UNMIX, MixColumn(a)) == a.b0 && Row(MIX, InvMixColumn(a)) == a.b0
  {
    RowOfMatrix(UNMIX, MIX, a);
    RowOfMatrix(MIX, UNMIX, a);
    UnmixMix(a.b0);
    UnmixMix(a.b1);
    UnmixMix(a.b2);
    UnmixMix(a.b3);
    MixUnmix(a.b0);
    MixUnmix(a.b1);
    MixUnmix(a.b2);
    MixUnmix(a.b3);
    OneTerm(a.b0);
  }

  /** InvMixColumns undoes MixColumns, and the other way round. */
  lemma Unmixed(a: Col)
    ensures InvMixColumn(MixColumn(a)) == a && MixColumn(InvMixColumn(a)) == a
  {
    FirstRows(a);
    FirstRows(Turn(a));
    FirstRows(Turn(Turn(a)));
    FirstRows(Turn(Turn(Turn(a))));
  }

  lemma XorColTwice(x: Col, y: Col)
    ensures XorCol(XorCol(x, y), y) == x
  {
    XorTwice(x.b0, y.b0);
    XorTwice(x.b1, y.b1);
    XorTwice(x.b2, y.b2);
    XorTwice(x.b3, y.b3);
  }
}
