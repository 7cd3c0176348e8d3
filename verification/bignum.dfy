/** BIGNUM: a sign and a magnitude of top words in an array that operations replace
    when it is too short. The array has one word more than dmax, as the source's
    allocator provides. */
module Bignum {
  import opened Words
  import Kernels
  import Magnitude
  import Shift

  function Signed(neg: bool, m: int): int {
    if neg then -m else m
  }

  lemma EvenAbove(x: int, v: int)
    ensures (x + B * v) % 2 == x % 2
  {
  }

  class Big {
    var d: array<Word>
    var top: nat
    var neg: bool

    /** bn_check_top and the bound of the allocation. */
    ghost predicate Valid()
      reads this, d
    {
      top < d.Length && Magnitude.Canon(d, 0, top)
    }

    /** The absolute value. */
    ghost function Mag(): nat
      requires top <= d.Length
      reads this, d
    {
      Val(d[..top])
    }

    ghost function Int(): int
      requires top <= d.Length
      reads this, d
    {
      Signed(neg, Mag())
    }

    /** No minus sign on zero. Temporaries can have one: BN_CTX_get hands out numbers
        as their last user left them. */
    ghost predicate Proper()
      reads this
    {
      neg ==> top > 0
    }

    /** a is this very number or does not share its words. */
    ghost predicate Sep(a: Big)
      reads this, a
    {
      a == this || a.d != d
    }

    /** BN_new, with an array that holds no word but the spare one. */
    constructor ()
      ensures Valid() && Mag() == 0 && !neg
      ensures fresh(d)
    {
      d := new Word[1];
      top, neg := 0, false;
    }

    lemma ZeroTop()
      requires Valid()
      ensures top == 0 <==> Mag() == 0
    {
      Magnitude.ZeroIsEmpty(d[..top]);
    }

    /** A value that is positive has no sign. */
    lemma Positive()
      requires Valid()
      ensures Int() > 0 ==> Proper() && Mag() == Int()
    {
      ZeroTop();
    }

    /** BN_is_zero */
    predicate IsZero()
      requires Valid()
      reads this, d
      ensures IsZero() <==> Int() == 0
    {
      ZeroTop();
      top == 0
    }

    /** BN_is_odd */
    predicate IsOdd()
      requires Valid()
      reads this, d
      ensures IsOdd() <==> Mag() % 2 == 1
    {
      LowBit();
      top > 0 && d[0] % 2 == 1
    }

    lemma LowBit()
      requires Valid()
      ensures Mag() % 2 == 1 <==> top > 0 && d[0] % 2 == 1
    {
      if top > 0 {
        var s := d[..top];
        EvenAbove(s[0], Val(s[1..]));
      }
    }

    /** BN_is_word for a word that is not zero; BN_is_one is IsWord(1). */
    predicate IsWord(w: Word)
      requires Valid() && w != 0
      reads this, d
      ensures IsWord(w) <==> Int() == w
    {
      OneWord();
      top == 1 && d[0] == w && !neg
    }

    /** A number of one word is that word, any other is zero or at least B. */
    lemma OneWord()
      requires Valid()
      ensures top == 1 ==> Mag() == d[0]
      ensures top != 1 ==> Mag() == 0 || Mag() >= B
    {
      ZeroTop();
      if top == 1 {
        assert d[..1] == [d[0]];
        Val1(d[0]);
      } else if top > 1 {
        ValTop(d[..top]);
        PowMono(1, top - 1);
      }
    }

    /** bn_wexpand: room for the given number of words, dmax not counting the last. */
    method WExpand(words: nat)
      requires top < d.Length
      modifies this`d
      ensures words < d.Length && old(d.Length) <= d.Length && (d == old(d) || fresh(d))
      ensures d[..top] == old(d[..top])
      ensures (words < old(d.Length) ==> d == old(d))
    {
      if words >= d.Length {
        var a := Expanded(d, top, words);
        d := a;
      }
    }

    // ----- comparison

    /** BN_ucmp */
    method UCmp(b: Big) returns (c: int)
      requires Valid() && b.Valid()
      ensures c < 0 <==> Mag() < b.Mag()
      ensures c == 0 <==> Mag() == b.Mag()
    {
      c := Magnitude.Compare(d, 0, top, b.d, 0, b.top);
    }

    lemma TopOrder(b: Big)
      requires Valid() && b.Valid() && b.Mag() <= Mag()
      ensures b.top <= top
    {
      if top < b.top {
        Magnitude.LongerIsLarger(b.d[..b.top], d[..top]);
      }
    }

    // ----- addition and subtraction

    /** BN_uadd: the sum of the absolute values. */
    method UAdd(a: Big, b: Big)
      requires Valid() && a.Valid() && b.Valid() && Sep(a) && Sep(b)
      modifies this, d
      ensures Valid() && (d == old(d) || fresh(d))
      ensures Mag() == old(a.Mag() + b.Mag()) && !neg
    {
      if a.top < b.top {
        UAddLonger(b, a);
      } else {
        UAddLonger(a, b);
      }
    }

    method UAddLonger(a: Big, b: Big)
      requires Valid() && a.Valid() && b.Valid() && Sep(a) && Sep(b)
      requires b.top <= a.top
      modifies this, d
      ensures Valid() && (d == old(d) || fresh(d))
      ensures Mag() == old(a.Mag() + b.Mag()) && !neg
    {
      var max, min := a.top, b.top;
      ghost var x, y := a.d[..max], b.d[..min];
      WExpand(max + 1);
      assert a.d[..max] == x && b.d[..min] == y;
      assert a.d[0..0 + max] == x && b.d[0..0 + min] == y;
      var t := Magnitude.UAdd(d, 0, a.d, 0, max, b.d, 0, min);
      assert d[..t] == d[0..0 + t];
      top, neg := t, false;
    }

    /** BN_usub: the difference of the absolute values, the second of which must not
        be larger. */
    method USub(a: Big, b: Big)
      requires Valid() && a.Valid() && b.Valid() && Sep(a) && Sep(b)
      requires b.Mag() <= a.Mag()
      modifies this, d
      ensures Valid() && (d == old(d) || fresh(d))
      ensures Mag() == old(a.Mag() - b.Mag()) && !neg
    {
      a.TopOrder(b);
      var max, min := a.top, b.top;
      ghost var x, y := a.d[..max], b.d[..min];
      WExpand(max);
      assert a.d[..max] == x && b.d[..min] == y;
      assert a.d[0..0 + max] == x && b.d[0..0 + min] == y;
      var t := Magnitude.USub(d, 0, a.d, 0, max, b.d, 0, min);
      assert d[..t] == d[0..0 + t];
      top, neg := t, false;
    }

    /** The difference of the absolute values with its sign, as BN_add and BN_sub
        both compute it. */
    method Difference(a: Big, b: Big)
      requires Valid() && a.Valid() && b.Valid() && Sep(a) && Sep(b)
      modifies this, d
      ensures Valid() && Proper() && (d == old(d) || fresh(d))
      ensures Int() == old(a.Mag() - b.Mag())
    {
      var c := a.UCmp(b);
      if c < 0 {
        USub(b, a);
        ZeroTop();
        neg := true;
      } else {
        USub(a, b);
      }
    }

    /** BN_add */
    method Add(a: Big, b: Big)
      requires Valid() && a.Valid() && b.Valid() && Sep(a) && Sep(b)
      modifies this, d
      ensures Valid() && (d == old(d) || fresh(d))
      ensures Int() == old(a.Int() + b.Int())
      ensures old(a.Proper() || b.Proper()) ==> Proper()
    {
      var aneg := a.neg;
      if aneg != b.neg {
        if aneg {
          Difference(b, a);
        } else {
          Difference(a, b);
        }
      } else {
        a.ZeroTop();
        b.ZeroTop();
        UAdd(a, b);
        ZeroTop();
        neg := aneg;
      }
    }

    /** BN_sub */
    method Sub(a: Big, b: Big)
      requires Valid() && a.Valid() && b.Valid() && Sep(a) && Sep(b)
      modifies this, d
      ensures Valid() && (d == old(d) || fresh(d))
      ensures Int() == old(a.Int() - b.Int())
      ensures old(a.Proper() || a.neg == b.neg) ==> Proper()
    {
      var aneg := a.neg;
      if aneg != b.neg {
        a.ZeroTop();
        b.ZeroTop();
        UAdd(a, b);
        ZeroTop();
        neg := aneg;
      } else if aneg {
        Difference(b, a);
      } else {
        Difference(a, b);
      }
    }

    // ----- copies and small numbers

    /** BN_copy */
    method Copy(b: Big)
      requires Valid() && b.Valid() && Sep(b)
      modifies this, d
      ensures Valid() && (d == old(d) || fresh(d))
      ensures top == old(b.top) && neg == old(b.neg) && Mag() == old(b.Mag())
    {
      if b != this {
        WExpand(b.top);
        Magnitude.CopyFrom(d, b.d, 0, b.top);
        assert d[..b.top] == b.d[0..0 + b.top] == b.d[..b.top];
        top := b.top;
        if top == 0 {
          d[0] := 0;
        }
        neg := b.neg;
      }
    }

    /** BN_set_word */
    method SetWord(w: Word)
      requires top < d.Length
      modifies this, d
      ensures Valid() && (d == old(d) || fresh(d))
      ensures Mag() == w && !neg
    {
      if d.Length <= 1 {
        WExpand(2);
      }
      neg, top := false, 0;
      d[0] := w;
      if d[0] != 0 {
        top := 1;
        assert d[..1] == [w];
        Val1(w);
      }
    }

    // ----- shifts

    /** BN_lshift. This may be a. */
    method LShift(a: Big, n: nat)
      requires Valid() && a.Valid() && Sep(a)
      modifies this, d
      ensures Valid() && (d == old(d) || fresh(d))
      ensures Mag() == old(a.Mag()) * Shift.Pow2(n) && neg == old(a.neg)
    {
      neg := a.neg;
      var nw, lb := n / 32, n % 32;
      var at := a.top;
      ghost var x := a.d[..at];
      WExpand(at + nw + 1);
      assert a.d[..at] == x;
      Shift.LShift(d, a.d, at, nw, lb);
      var t := Magnitude.FixTop(d, 0, at + nw + 1);
      assert d[..t] == d[0..0 + t] && d[0..0 + (at + nw + 1)] == d[..nw + at + 1];
      top := t;
    }

    /** BN_rshift. This may be a; a may have leading zero words, which BN_div leaves.
        A negative number is rounded towards zero and a zero can keep its sign. */
    method RShift(a: Big, n: nat)
      requires top < d.Length && a.top < a.d.Length && Sep(a)
      requires this == a && n == 0 ==> Valid()
      modifies this, d
      ensures Valid() && (d == old(d) || fresh(d))
      ensures Mag() == old(a.Mag()) / Shift.Pow2(n)
      ensures neg ==> old(a.neg)
      ensures Mag() > 0 ==> neg == old(a.neg)
    {
      var nw, rb := n / 32, n % 32;
      ghost var x, m := a.d[..a.top], a.Mag();
      if nw > a.top || a.top == 0 {
        Shift.NothingLeft(x, n);
        Zero();
      } else if this != a {
        neg := a.neg;
        WExpand(a.top - nw + 1);
        assert a.d[..a.top] == x;
        RShiftWords(a, nw, rb);
      } else if n != 0 {
        RShiftWords(a, nw, rb);
      }
    }

    method RShiftWords(a: Big, nw: nat, rb: nat)
      requires rb < 32 && nw <= a.top < a.d.Length && Sep(a)
      requires 2 <= d.Length && a.top - nw + (if rb == 0 then 2 else 1) <= d.Length
      requires this == a ==> nw > 0 || rb > 0
      modifies this, d
      ensures Valid() && d == old(d) && neg == old(neg)
      ensures Mag() == old(a.Mag()) / Shift.Pow2(32 * nw + rb)
    {
      var j := a.top - nw;
      Shift.RShift(d, a.d, nw, j, rb);
      var t := Magnitude.FixTop(d, 0, j);
      assert d[..t] == d[0..0 + t] && d[0..0 + j] == d[..j];
      top := t;
    }

    /** BN_zero, for which the number need not be canonical. */
    method Zero()
      requires top < d.Length
      modifies this, d
      ensures Valid() && (d == old(d) || fresh(d))
      ensures Mag() == 0 && !neg
    {
      SetWord(0);
    }

    // ----- bits

    lemma TopWord()
      requires Valid() && top > 0
      ensures Mag() == Val(d[..top - 1]) + Up(d[top - 1], top - 1)
    {
      ValTake(d[..top], top - 1);
      assert d[..top][..top] == d[..top] && d[..top][..top - 1] == d[..top - 1];
    }

    /** BN_num_bits */
    method NumBits() returns (n: nat)
      requires Valid()
      ensures n == 0 <==> Mag() == 0
      ensures n > 0 ==> Shift.Pow2(n - 1) <= Mag() < Shift.Pow2(n)
    {
      ZeroTop();
      if top == 0 {
        return 0;
      }
      var l := d[top - 1];
      var i := (top - 1) * 32;
      var b := Shift.NumBitsWord(l);
      TopWord();
      Shift.BitsAbove(d[..top - 1], l, b);
      n := i + b;
    }

    /** BN_is_bit_set */
    method IsBitSet(n: nat) returns (b: bool)
      requires Valid()
      ensures b == Shift.Bit(Mag(), n)
    {
      var i, j := n / 32, n % 32;
      if top <= i {
        Shift.NoBit(d[..top], n);
        return false;
      }
      Shift.BitOfWord(d[..top], i, j);
      b := Shift.Bit(d[i], j);
    }

    /** BN_set_bit */
    method SetBit(n: nat)
      requires Valid()
      modifies this, d
      ensures Valid() && (d == old(d) || fresh(d)) && neg == old(neg)
      ensures Mag() == old(Mag()) + if old(Shift.Bit(Mag(), n)) then 0 else Shift.Pow2(n)
    {
      var i, j := n / 32, n % 32;
      if top <= i {
        GainWords(i + 1);
      }
      SetBitAt(i, j, Mag());
    }

    /** Words that are zero join the number, which is then not canonical. */
    method GainWords(m: nat)
      requires Valid() && top < m
      modifies `top, `d, d
      ensures top == m < d.Length && (d == old(d) || fresh(d)) && Mag() == old(Mag())
    {
      ghost var x := d[..top];
      WExpand(m);
      assert d[..top] == x;
      Shift.Pad(d, top, m);
      top := m;
    }

    /** The bit of a word that is the top word or below a top word that is not zero. */
    method SetBitAt(i: nat, j: nat, ghost v: nat)
      requires i < top < d.Length && j < 32 && (top == i + 1 || d[top - 1] != 0) && Mag() == v
      modifies d
      ensures Valid() && Mag() == v + if Shift.Bit(v, 32 * i + j) then 0 else Shift.Pow2(32 * i + j)
    {
      ghost var y := d[..top];
      Shift.SetWordBit(y, i, j);
      Shift.NoBitOfZero(j);
      if !Shift.Bit(d[i], j) {
        d[i] := d[i] + Shift.Pow2(j);
        assert d[..top] == y[i := d[i]];
      }
    }

    // ----- doubling and halving

    /** BN_lshift1 */
    method LShift1(a: Big)
      requires Valid() && a.Valid() && Sep(a)
      modifies this, d
      ensures Valid() && (d == old(d) || fresh(d))
      ensures Mag() == 2 * old(a.Mag()) && neg == old(a.neg)
    {
      var at := a.top;
      ghost var x := a.d[..at];
      WExpand(at + 1);
      assert a.d[..at] == x;
      neg, top := a.neg, at;
      var c := Shift.Double(d, a.d, at);
      if c != 0 {
        ValSnoc(d[..at], 1);
        d[at] := 1;
        top := at + 1;
        assert d[..at + 1] == d[..at] + [1];
      } else {
        UpZero(at);
        Magnitude.SumCanonical(d[..at], x);
      }
    }

    /** BN_rshift1 */
    method RShift1(a: Big)
      requires Valid() && a.Valid() && Sep(a)
      modifies this, d
      ensures Valid() && (d == old(d) || fresh(d))
      ensures Mag() == old(a.Mag()) / 2
      ensures neg == old(a.neg && a.top > 0)
    {
      if a.IsZero() {
        a.ZeroTop();
        Zero();
      } else {
        var at := a.top;
        ghost var x := a.d[..at];
        if this != a {
          WExpand(at);
          neg := a.neg;
        }
        assert a.d[..at] == x;
        Shift.Halve(d, a.d, at);
        var t := Magnitude.FixTop(d, 0, at);
        assert d[..t] == d[0..0 + t] && d[0..0 + at] == d[..at];
        top := t;
      }
    }

    // ----- arithmetic with a word

    /** BN_mul_word */
    method MulWord(w: Word)
      requires Valid()
      modifies this, d
      ensures Valid() && (d == old(d) || fresh(d))
      ensures Mag() == old(Mag()) * w && neg == old(neg && (top == 0 || w != 0))
    {
      ZeroTop();
      if top != 0 {
        if w == 0 {
          Zero();
        } else {
          MulWordNotZero(w);
        }
      }
    }

    method MulWordNotZero(w: Word)
      requires Valid() && top != 0 && w != 0
      modifies this, d
      ensures Valid() && (d == old(d) || fresh(d)) && neg == old(neg)
      ensures Mag() == old(Mag()) * w
    {
      ghost var x := d[..top];
      var ll := Kernels.MulWords(d, 0, d, 0, top, w);
      ghost var s := d[..top];
      assert d[0..0 + top] == s;
      Magnitude.TimesWord(s, ll, x, w);
      if ll != 0 {
        WExpand(top + 1);
        d[top] := ll;
        top := top + 1;
        assert d[..top] == s + [ll];
      }
    }

    /** The words of BN_add_word; a zero added to a zero leaves a leading zero word. */
    method AddWordMag(w: Word)
      requires Valid()
      modifies this, d
      ensures Loose() && (d == old(d) || fresh(d)) && neg == old(neg)
      ensures Mag() == old(Mag()) + w && (Valid() <==> old(top) > 0 || w != 0)
      ensures top > 0
    {
      ghost var x := d[..top];
      WExpand(top + 1);
      var i := Magnitude.AddWord(d, top, w);
      if i >= top {
        ghost var v := d[..top + 1];
        top := top + 1;
        if x == [] {
          assert d[..1] == [d[0]];
          Val1(d[0]);
        }
      } else {
        Magnitude.SumCanonical(d[..top], x);
      }
    }

    /** The words of BN_sub_word when the word is not larger than the number. */
    method SubWordMag(w: Word)
      requires Valid() && 0 < top && w <= Mag()
      modifies this, d
      ensures Valid() && d == old(d) && neg == old(neg)
      ensures Mag() == old(Mag()) - w
    {
      var i := Magnitude.SubWord(d, top, w);
      if d[i] == 0 && i == top - 1 {
        ValPad(d[..top], top - 1);
        assert d[..top][..top - 1] == d[..top - 1];
        top := top - 1;
      } else if i < top - 1 {
        assert d[i + 1..top][top - 2 - i] == d[top - 1];
      }
    }

    /** Canonical but for a single zero word. */
    ghost predicate Loose()
      reads this, d
    {
      top < d.Length && (top > 1 ==> d[top - 1] != 0)
    }

    /** BN_add_word. Zero added to zero is the one sum that is not canonical: it gets
        a leading zero word. */
    method AddWord(w: Word)
      requires Valid()
      modifies this, d
      ensures Loose() && (d == old(d) || fresh(d))
      ensures Int() == old(Int()) + w
      ensures Valid() <==> !(old(top) == 0 && w == 0)
      decreases if neg then 2 else 0
    {
      if neg {
        neg := false;
        SubWord(w);
        ZeroWords();
        if !(top == 0 || (top == 1 && d[0] == 0)) {
          neg := !neg;
        }
      } else {
        AddWordMag(w);
      }
    }

    /** BN_sub_word */
    method SubWord(w: Word)
      requires Valid()
      modifies this, d
      ensures Loose() && (d == old(d) || fresh(d))
      ensures Int() == old(Int()) - w
      ensures Valid() <==> !(old(top) == 0 && w == 0)
      ensures old(Int()) >= w > 0 ==> !neg
      decreases 1
    {
      ZeroTop();
      if top == 0 || neg {
        neg := false;
        AddWord(w);
        neg := true;
      } else {
        if top == 1 {
          SmallWord();
        }
        if top == 1 && d[0] < w {
          d[0] := w - d[0];
          neg := true;
          SmallWord();
        } else {
          if top > 1 {
            ValTop(d[..top]);
            UpUp(1, 1, top - 2);
            PowPos(top - 2);
          }
          SubWordMag(w);
        }
      }
    }

    lemma SmallWord()
      requires top == 1 < d.Length
      ensures Mag() == d[0]
    {
      assert d[..1] == [d[0]];
      Val1(d[0]);
    }

    /** BN_is_zero of a number that can have one leading zero word. */
    lemma ZeroWords()
      requires Loose()
      ensures top == 0 || (top == 1 && d[0] == 0) <==> Mag() == 0
    {
      if top == 1 {
        SmallWord();
      } else {
        ZeroTop();
      }
    }
  }

  /** bn_expand_internal: a new array with the words in use copied and the others
      cleared, except the spare one. */
  method Expanded(b: array<Word>, top: nat, words: nat) returns (a: array<Word>)
    requires top <= words && top <= b.Length
    ensures fresh(a) && a.Length == words + 1
    ensures a[..top] == b[..top]
    ensures forall k :: top <= k < words ==> a[k] == 0
  {
    a := new Word[words + 1];
    var i := 0;
    while i < top
      invariant i <= top && a[..i] == b[..i]
    {
      a[i] := b[i];
      i := i + 1;
    }
    while i < words
      invariant top <= i <= words && a[..top] == b[..top]
      invariant forall k :: top <= k < i ==> a[k] == 0
    {
      a[i] := 0;
      i := i + 1;
    }
  }
}
