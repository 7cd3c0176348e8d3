/** Double-word arithmetic built from half words: the macros of bn_lcl.h for a
    compiler without a double-word type, and bn_div_words. */
module WordOps {
  import opened Words

  lemma HalfProduct(x: Half, y: Half)
    ensures 0 <= x * y <= (H - 1) * (H - 1)
  {
    MulMono(0, x, y);
    MulMono(x, H - 1, y);
    MulMono(y, H - 1, H - 1);
  }

  lemma Cross(a: int, b: int, c: int, d: int)
    ensures (a + H * b) * (c + H * d) == a * c + H * (a * d + b * c) + B * (b * d)
  {
    assert (a + H * b) * (c + H * d) == a * (c + H * d) + H * (b * (c + H * d));
    assert a * (c + H * d) == a * c + H * (a * d);
    assert b * (c + H * d) == b * c + H * (b * d);
  }

  lemma WordProduct(x: Word, y: Word)
    ensures 0 <= x * y <= (B - 1) * (B - 1)
  {
    MulMono(0, x, y);
    MulMono(x, B - 1, y);
    MulMono(y, B - 1, B - 1);
  }

  /** The additions of mul64: four partial products become a double word. That
      every sum below is a Word says that none of the macro's additions into
      the high word wraps. */
  method MulCombine(lt0: Word, m0: Word, m1: Word, ht0: Word) returns (l: Word, h: Word)
    requires lt0 + H * (m0 + m1) + B * ht0 < B * B
    ensures l + B * h == lt0 + H * (m0 + m1) + B * ht0
  {
    var m := Add(m0, m1);
    var ht: int := ht0;
    if m < m1 {
      ht := ht + H;
    }
    var mh, ml := Hi(m), Lo(m);
    ht := ht + mh;
    var s: Word := ml * H;
    var lt := Add(lt0, s);
    if lt < s {
      ht := ht + 1;
    }
    l, h := lt, ht;
  }

  /** mul64: the product of two words given by their halves. */
  method Mul64(al: Half, ah: Half, bl: Half, bh: Half) returns (l: Word, h: Word)
    ensures l + B * h == (al + H * ah) * (bl + H * bh)
  {
    HalfProduct(bh, al);
    HalfProduct(bl, al);
    HalfProduct(bl, ah);
    HalfProduct(bh, ah);
    Cross(al, ah, bl, bh);
    l, h := MulCombine(bl * al, bh * al, bl * ah, bh * ah);
  }

  lemma SquareHalves(x: Word, l: Half, h: Half)
    requires x == l + H * h
    ensures 0 <= l * l < B && 0 <= l * h < B && 0 <= h * h < B
    ensures x * x == l * l + 2 * H * (l * h) + B * (h * h) < B * B
  {
    HalfProduct(l, l);
    HalfProduct(l, h);
    HalfProduct(h, h);
    WordProduct(x, x);
    Cross(l, h, l, h);
  }

  /** The additions of sqr64: m & BN_MASK2h1 shifted down to the high word and
      m & BN_MASK2l shifted up to the low word. */
  method SqrCombine(l0: Word, m: Word, h0: Word) returns (l: Word, h: Word)
    requires l0 + 2 * H * m + B * h0 < B * B
    ensures l + B * h == l0 + 2 * H * m + B * h0
  {
    var mh := m / 0x8000;
    var ml := m % 0x8000;
    var s: Word := ml * (2 * H);
    var ho: int := h0 + mh;
    l := Add(l0, s);
    if l < s {
      ho := ho + 1;
    }
    h := ho;
  }

  /** sqr64: the square of a word. */
  method Sqr64(x: Word) returns (l: Word, h: Word)
    ensures l + B * h == x * x
  {
    var xl: int, xh: int := Lo(x), Hi(x);
    SquareHalves(x, xl, xh);
    var p, m, q := xl * xl, xl * xh, xh * xh;
    l, h := SqrCombine(p, m, q);
  }

  /** The tail of mul_add and mul: add two words to a double-word product. */
  method AddTwice(l0: Word, h0: Word, c: Word, r: Word) returns (l: Word, h: Word)
    requires l0 + B * h0 + c + r < B * B
    ensures l + B * h == l0 + B * h0 + c + r
  {
    var ho: int := h0;
    l := Add(l0, c);
    if l < c {
      ho := ho + 1;
    }
    l := Add(l, r);
    if l < r {
      ho := ho + 1;
    }
    h := ho;
  }

  /** mul_add: r + a*w + c as a low word and a carry. */
  method MulAdd(r: Word, a: Word, w: Word, c: Word) returns (l: Word, h: Word)
    ensures l + B * h == r + a * w + c
  {
    WordProduct(a, w);
    var al, ah, bl, bh := Lo(a), Hi(a), Lo(w), Hi(w);
    var pl, ph := Mul64(al, ah, bl, bh);
    l, h := AddTwice(pl, ph, c, r);
  }

  /** mul: a*w + c as a low word and a carry. */
  method Mul(a: Word, w: Word, c: Word) returns (l: Word, h: Word)
    ensures l + B * h == a * w + c
  {
    WordProduct(a, w);
    var al, ah, bl, bh := Lo(a), Hi(a), Lo(w), Hi(w);
    var pl, ph := Mul64(al, ah, bl, bh);
    l, h := AddTwice(pl, ph, c, 0);
  }

  // ----- bn_div_words

  /** An estimate q of a half digit that is not too low stays so when it is lowered
      because its product with the divisor is too large. */
  lemma LowerEstimate(q: int, dh: int, dl: int, h: int, x: int)
    requires q * dl > (h - q * dh) * H + x
    ensures (q - 1) * dh == q * dh - dh && (q - 1) * dl == q * dl - dl
    ensures q * (dh * H + dl) > h * H + x
  {
    Distrib(q, 1, dh);
    Distrib(q, 1, dl);
    assert q * (dh * H + dl) == q * dh * H + q * dl;
  }

  lemma DivideFloor(h: int, dh: int)
    requires 0 < dh && 0 <= h
    ensures 0 <= (h / dh) * dh <= h < (h / dh + 1) * dh
    ensures h < dh * H ==> h / dh < H
  {
    var e := h / dh;
    assert h == dh * e + h % dh;
    assert dh * e == e * dh;
    Distrib(e, 1, dh);
    if e < 0 {
      MulMono(e, -1, dh);
    }
    MulNonNeg(e, dh);
    if e >= H {
      MulMono(H, e, dh);
    }
  }

  lemma ScaleEstimate(e: int, dh: int, dl: int, h: int, x: Half)
    requires 0 <= e && 0 <= dl && h + 1 <= (e + 1) * dh
    ensures h * H + x < (e + 1) * (dh * H + dl)
  {
    MulNonNeg(e + 1, dl);
    assert (e + 1) * (dh * H + dl) == (e + 1) * dh * H + (e + 1) * dl;
  }

  lemma FloorEstimate(h: Word, dh: int, dl: Half, x: Half)
    requires 0 < dh && h < dh * H
    ensures 0 <= h / dh < H && (h / dh) * dh <= h && h * H + x < (h / dh + 1) * (dh * H + dl)
  {
    DivideFloor(h, dh);
    ScaleEstimate(h / dh, dh, dl, h, x);
  }

  lemma TopEstimate(h: Word, dh: int, dl: Half, x: Half)
    requires H * dh <= h < dh * H + dl
    ensures (H - 1) * dh <= h && h * H + x < H * (dh * H + dl)
  {
  }

  /** The first guess at a half digit, which is never too low. */
  method EstimateHalf(h: Word, dh: int, dl: Half, ghost x: Half) returns (q: Half)
    requires H / 2 <= dh < H && h < dh * H + dl
    ensures q * dh <= h && h * H + x < (q + 1) * (dh * H + dl)
  {
    if Hi(h) == dh {
      TopEstimate(h, dh, dl, x);
      q := H - 1;
    } else {
      FloorEstimate(h, dh, dl, x);
      q := h / dh;
    }
  }

  /** The inner loop: lower the estimate until its product with the divisor fits. */
  method RefineHalf(h: Word, x: Half, dh: Half, dl: Half, q0: Half) returns (q: Half, th: int, tl: int)
    requires H / 2 <= dh
    requires q0 * dh <= h && h * H + x < (q0 + 1) * (dh * H + dl)
    ensures th == q * dh && tl == q * dl
    ensures th * H + tl <= h * H + x < (q + 1) * (dh * H + dl)
  {
    q := q0;
    th, tl := q * dh, dl * q;
    while true
      invariant th == q * dh <= h && tl == q * dl
      invariant h * H + x < (q + 1) * (dh * H + dl)
      decreases q
    {
      HalfProduct(q, dl);
      var t := h - th;
      if t >= H || tl <= t * H + x {
        return;
      }
      LowerEstimate(q, dh, dl, h, x);
      q := q - 1;
      th := th - dh;
      tl := tl - dl;
    }
  }

  /** Subtract the product of the half digit, th * H + tl half words up, from the
      dividend h:l. The source's repair of a high word below th is never needed. */
  method SubtractHalf(h: Word, l: Word, th0: Word, tl0: Word) returns (h1: Word, l1: Word)
    requires th0 * H + tl0 <= h * H + Hi(l)
    ensures h1 * B + l1 == h * B + l - H * (th0 * H + tl0)
  {
    var t, tl := Hi(tl0), Lo(tl0) * H;
    var th: int := th0 + t;
    if l < tl {
      th := th + 1;
    }
    l1 := Sub(l, tl);
    h1 := h - th;
  }

  lemma SplitProduct(q: int, d: int, dh: int, dl: int)
    requires d == dh * H + dl
    ensures q * d == q * dh * H + q * dl
  {
    assert q * (dh * H + dl) == q * dh * H + q * dl;
  }

  /** One round: the half digit q of h:l by d = dh:dl and the dividend less q * d
      half a word up. */
  method HalfDigit(h: Word, l: Word, d: Word) returns (q: Half, h1: Word, l1: Word)
    requires T <= d && h < d
    ensures 0 <= h * H + Hi(l) - q * d < d
    ensures h1 * B + l1 == h * B + l - H * (q * d)
  {
    var dh, dl := Hi(d), Lo(d);
    var q0 := EstimateHalf(h, dh, dl, Hi(l));
    var th, tl;
    q, th, tl := RefineHalf(h, Hi(l), dh, dl, q0);
    ghost var p := DigitProduct(q, d, dh, dl, h, Hi(l), th, tl);
    h1, l1 := SubtractHalf(h, l, th, tl);
  }

  lemma DigitProduct(q: Half, d: Word, dh: Half, dl: Half, h: Word, x: Half, th: int, tl: int) returns (p: int)
    requires d == dh * H + dl && th == q * dh && tl == q * dl
    requires th * H + tl <= h * H + x < (q + 1) * (dh * H + dl)
    ensures 0 <= th < B && 0 <= tl < B
    ensures p == q * d == th * H + tl && h * H + x - p < d
  {
    p := q * d;
    HalfProduct(q, dl);
    HalfProduct(q, dh);
    SplitProduct(q, d, dh, dl);
    Distrib(q, 1, d);
  }

  lemma TwoHalfDigits(x: int, d: int, q1: int, q0: int, r: int)
    requires x == H * (q1 * d) + q0 * d + r && 0 <= r < d
    ensures x / d == q1 * H + q0
  {
    assert (q1 * H + q0) * d == H * (q1 * d) + q0 * d;
    DivModUnique(x, d, q1 * H + q0, r);
  }

  /** bn_div_words: the two-word number h:l divided by d, or all ones for d = 0. Of
      the divisors that are not zero only those with the top bit set occur: the
      source's own assertion rejects every other one unless h is out of range. */
  method DivWords(h: Word, l: Word, d: Word) returns (q: Word)
    requires d == 0 || T <= d
    ensures d == 0 ==> q == B - 1
    ensures d != 0 ==> q == ((if h >= d then h - d else h) * B + l) / d
  {
    if d == 0 {
      return B - 1;
    }
    var h0: Word := if h >= d then h - d else h;
    var q1, h1, l1 := HalfDigit(h0, l, d);
    ghost var r1 := h0 * H + Hi(l) - q1 * d;
    var h2, l2: Word := Hi(l1) + Lo(h1) * H, Lo(l1) * H;
    Regroup(h0, l, h1, l1, r1, q1 * d);
    var q0, h3, l3 := HalfDigit(h2, l2, d);
    TwoHalfDigits(h0 * B + l, d, q1, q0, h2 * H + Hi(l2) - q0 * d);
    q := q1 * H + q0;
  }

  /** What is left after the first half digit, moved up by half a word, is the
      remainder r1 followed by the low half of l. */
  lemma Regroup(h0: Word, l: Word, h1: Word, l1: Word, r1: int, p: int)
    requires r1 == h0 * H + Hi(l) - p && 0 <= r1 < B
    requires h1 * B + l1 == h0 * B + l - H * p
    ensures Hi(l1) + Lo(h1) * H == r1 && Lo(l1) == Lo(l) && Hi(Lo(l1) * H) == Lo(l)
  {
  }
}
