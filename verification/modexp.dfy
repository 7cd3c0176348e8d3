/** BN_mod_exp_mont: exponentiation with a sliding window over the exponent. */
module ModExp {
  import opened Words
  import opened Bignum
  import opened Modular
  import opened Montgomery
  import opened Power
  import Division
  import Product
  import opened Shift

  // ----- products of powers

  lemma ProductBelow(x: nat, y: nat, n: nat, nl: nat)
    requires x <= n && y < n < Pow(nl)
    ensures 0 <= x * y < Up(n, nl)
  {
    UpPow(n, nl);
    MulNonNeg(x, y);
    MulMono(x, n, y);
    MulEqual(n, y, y);
    MulEqual(n, Pow(nl), Pow(nl));
    MulMonoStrict(y, Pow(nl), n);
  }

  /** What the exponentiation needs of the modulus. */
  ghost predicate Modulus(mont: Mont, n: nat, nl: nat)
    reads mont, mont.N, mont.N.d
  {
    mont.HasModulus() && n == mont.N.Mag() && nl == mont.N.top && n > 0 && n % 2 == 1 && n < Pow(nl)
  }

  lemma IsModulus(mont: Mont)
    requires mont.HasModulus()
    ensures Modulus(mont, mont.N.Mag(), mont.N.top)
  {
    mont.N.ZeroTop();
    OddModulus(mont.N, mont.n0);
    ValBound(mont.N.d[..mont.N.top]);
  }

  /** A number that is a power in Montgomery form. */
  ghost predicate Entry(z: Big, g: int, k: nat, n: nat, nl: nat)
    requires n > 0
    reads z, z.d
  {
    z.Valid() && IsPower(z.Int(), g, k, n, nl)
  }

  /** BN_mod_mul_montgomery of two powers. */
  method MulPower(r: Big, a: Big, b: Big, mont: Mont, ghost g: int, ghost j: nat, ghost k: nat, ghost n: nat,
                  ghost nl: nat)
    requires Modulus(mont, n, nl) && r.Valid() && Entry(a, g, j, n, nl) && Entry(b, g, k, n, nl)
    requires r.Sep(a) && r.Sep(b) && a.Sep(b)
    requires ApartFrom(mont.N, r) && ApartFrom(mont.N, a) && ApartFrom(mont.N, b)
    modifies r, r.d, a.d, b.d
    ensures Entry(r, g, j + k, n, nl) && (r.d == old(r.d) || fresh(r.d))
    ensures r != a ==> Entry(a, g, j, n, nl)
    ensures r != b ==> Entry(b, g, k, n, nl)
  {
    ghost var x, y := a.Int(), b.Int();
    ProductBelow(x, y, n, nl);
    ModMul(r, a, b, mont, x * y);
    PowerProduct(r.Int(), x, y, g, j, k, n, nl);
  }

  // ----- the table

  /** The odd powers of g, with no words in common. */
  ghost predicate Table(val: seq<Big>, g: int, n: nat, nl: nat)
    requires n > 0
    reads set v | v in val, set v | v in val :: v.d
  {
    && (forall i :: 0 <= i < |val| ==> Entry(val[i], g, 2 * i + 1, n, nl))
    && (forall i, j :: 0 <= i < j < |val| ==> val[i] != val[j] && val[i].d != val[j].d)
  }

  /** No entry of the table is z or has its words. */
  ghost predicate NotIn(val: seq<Big>, z: Big)
    reads z, set v | v in val
  {
    forall i :: 0 <= i < |val| ==> val[i] != z && val[i].d != z.d
  }

  /** The next entry of the table. */
  method NextEntry(val: seq<Big>, d: Big, mont: Mont, ghost g: int, ghost n: nat, ghost nl: nat) returns (v: Big)
    requires |val| > 0 && Modulus(mont, n, nl) && Table(val, g, n, nl) && Entry(d, g, 2, n, nl)
    requires NotIn(val, d) && NotIn(val, mont.N) && ApartFrom(mont.N, d)
    modifies d.d, val[|val| - 1].d
    ensures fresh(v) && fresh(v.d) && Table(val + [v], g, n, nl) && Entry(d, g, 2, n, nl)
  {
    v := new Big();
    TimesSecond(v, val, d, mont, g, n, nl);
    Joined(val, v, g, n, nl);
  }

  lemma Joined(val: seq<Big>, v: Big, g: int, n: nat, nl: nat)
    requires n > 0 && Table(val, g, n, nl) && Entry(v, g, 2 * |val| + 1, n, nl) && NotIn(val, v)
    ensures Table(val + [v], g, n, nl)
  {
  }

  /** The last entry times the square of the first. */
  method TimesSecond(v: Big, val: seq<Big>, d: Big, mont: Mont, ghost g: int, ghost n: nat, ghost nl: nat)
    requires |val| > 0 && Modulus(mont, n, nl) && Table(val, g, n, nl) && Entry(d, g, 2, n, nl) && v.Valid()
    requires NotIn(val, d) && NotIn(val, mont.N) && ApartFrom(mont.N, d)
    requires NotIn(val, v) && v != d && v.d != d.d && ApartFrom(mont.N, v)
    modifies v, v.d, d.d, val[|val| - 1].d
    ensures Entry(v, g, 2 * |val| + 1, n, nl) && (v.d == old(v.d) || fresh(v.d))
    ensures Table(val, g, n, nl) && Entry(d, g, 2, n, nl)
  {
    var last := val[|val| - 1];
    MulPower(v, last, d, mont, g, 2 * |val| - 1, 2, n, nl);
    assert forall i :: 0 <= i < |val| - 1 ==> Entry(val[i], g, 2 * i + 1, n, nl);
  }

  /** The loop that fills the table with the odd powers of its first entry. */
  method Fill(first: Big, d: Big, count: nat, mont: Mont, ghost g: int, ghost n: nat, ghost nl: nat)
    returns (val: seq<Big>)
    requires count > 0 && Modulus(mont, n, nl) && Entry(first, g, 1, n, nl) && Entry(d, g, 2, n, nl)
    requires first != d && first.d != d.d && ApartFrom(mont.N, d) && ApartFrom(mont.N, first)
    modifies d.d, first.d
    ensures |val| == count && Table(val, g, n, nl)
    ensures val[0] == first && forall i :: 0 < i < count ==> fresh(val[i]) && fresh(val[i].d)
  {
    val := [first];
    while |val| < count
      invariant 1 <= |val| <= count && Table(val, g, n, nl) && Entry(d, g, 2, n, nl)
      invariant val[0] == first && forall i :: 0 < i < |val| ==> fresh(val[i]) && fresh(val[i].d)
    {
      var v := NextEntry(val, d, mont, g, n, nl);
      val := val + [v];
    }
  }

  /** The repeated squarings for the bits of a window. */
  method SquareTimes(r: Big, count: nat, mont: Mont, ghost g: int, ghost e: nat, ghost n: nat, ghost nl: nat)
    requires Modulus(mont, n, nl) && Entry(r, g, e, n, nl) && ApartFrom(mont.N, r)
    modifies r, r.d
    ensures Entry(r, g, Twos(e, count), n, nl) && (r.d == old(r.d) || fresh(r.d))
  {
    var i := 0;
    ghost var x := e;
    while i < count
      invariant 0 <= i <= count && x == Twos(e, i)
      invariant Entry(r, g, x, n, nl) && (r.d == old(r.d) || fresh(r.d))
    {
      MulPower(r, r, r, mont, g, x, x, n, nl);
      i, x := i + 1, x + x;
    }
  }

  /** r times an entry of the table. */
  method TimesEntry(r: Big, val: seq<Big>, k: nat, mont: Mont, ghost g: int, ghost e: nat, ghost n: nat, ghost nl: nat)
    requires k < |val| && Modulus(mont, n, nl) && Table(val, g, n, nl) && Entry(r, g, e, n, nl)
    requires NotIn(val, r) && NotIn(val, mont.N) && ApartFrom(mont.N, r)
    modifies r, r.d, val[k].d
    ensures Table(val, g, n, nl) && Entry(r, g, e + 2 * k + 1, n, nl) && (r.d == old(r.d) || fresh(r.d))
    ensures NotIn(val, r)
  {
    MulPower(r, r, val[k], mont, g, e, 2 * k + 1, n, nl);
    assert forall i :: 0 <= i < |val| && i != k ==> Entry(val[i], g, 2 * i + 1, n, nl);
  }

  // ----- the window

  /** The bits of p from wstart down to wstart - wend are wvalue and end with a one; of
      the bits below, down to but not including wstart - i, none is set. */
  ghost predicate Scanned(p: nat, wstart: nat, i: nat, wvalue: nat, wend: nat) {
    && wend < i <= wstart + 1 && wvalue % 2 == 1 && wvalue < Pow2(wend + 1)
    && Above(p, wstart - wend) == Twos(Above(p, wstart + 1), wend + 1) + wvalue
    && Above(p, wstart + 1 - i) == Twos(Above(p, wstart - wend), i - 1 - wend)
  }

  lemma ScanFirst(p: nat, wstart: nat)
    requires Bit(p, wstart)
    ensures Scanned(p, wstart, 1, 1, 0)
  {
    AboveStep(p, wstart);
    assert Pow2(1) == 2;
    assert Twos(Above(p, wstart + 1), 1) == 2 * Twos(Above(p, wstart + 1), 0);
  }

  lemma ScanZero(p: nat, wstart: nat, i: nat, wvalue: nat, wend: nat)
    requires Scanned(p, wstart, i, wvalue, wend) && i <= wstart && !Bit(p, wstart - i)
    ensures Scanned(p, wstart, i + 1, wvalue, wend)
  {
    AboveStep(p, wstart - i);
  }

  lemma ScanOne(p: nat, wstart: nat, i: nat, wvalue: nat, wend: nat)
    requires Scanned(p, wstart, i, wvalue, wend) && i <= wstart && Bit(p, wstart - i)
    ensures Scanned(p, wstart, i + 1, Twos(wvalue, i - wend) + 1, i)
  {
    var h, k := Above(p, wstart + 1), i - wend;
    AboveStep(p, wstart - i);
    WindowLonger(h, wvalue, wend + 1, k, Above(p, wstart - wend));
    WindowBelow(wvalue, wend + 1, k);
    TwosEven(wvalue, k);
  }

  /** A window of j bits with value w below h, and k bits more. */
  lemma WindowLonger(h: nat, w: nat, j: nat, k: nat, a: nat)
    requires k > 0 && a == Twos(h, j) + w
    ensures 2 * Twos(a, k - 1) == Twos(h, j + k) + Twos(w, k)
  {
    TwosAdd(Twos(h, j), w, k);
    TwosTwos(h, j, k);
  }

  lemma TwosEven(w: nat, k: nat)
    requires k > 0
    ensures Twos(w, k) % 2 == 0
  {
  }

  lemma WindowBelow(w: nat, j: nat, k: nat)
    requires w < Pow2(j) && k > 0
    ensures Twos(w, k) + 1 < Pow2(j + k)
  {
    TwosIs(w, k);
    Pow2Add(j, k);
    MulMono(w + 1, Pow2(j), Pow2(k));
    Distrib(w, 1, Pow2(k));
    Pow2Mono(1, k);
    assert Pow2(1) == 2;
  }

  /** The loop that looks for the last bit of the window that is set. */
  method Scan(p: Big, wstart: nat, window: nat) returns (wvalue: nat, wend: nat)
    requires p.Valid() && window > 0 && Bit(p.Mag(), wstart)
    ensures wend < window && wend <= wstart && wvalue % 2 == 1 && wvalue < Pow2(window)
    ensures Above(p.Mag(), wstart - wend) == Twos(Above(p.Mag(), wstart + 1), wend + 1) + wvalue
  {
    ghost var P := p.Mag();
    wvalue, wend := 1, 0;
    ScanFirst(P, wstart);
    var i := 1;
    while i < window && wstart - i >= 0
      invariant wend < i <= window && Scanned(P, wstart, i, wvalue, wend)
      decreases window - i
    {
      var b := p.IsBitSet(wstart - i);
      if b {
        ScanOne(P, wstart, i, wvalue, wend);
        TwosIs(wvalue, i - wend);
        wvalue := wvalue * Pow2(i - wend) + 1;
        wend := i;
      } else {
        ScanZero(P, wstart, i, wvalue, wend);
      }
      i := i + 1;
    }
    Pow2Mono(wend + 1, window);
  }

  // ----- the exponentiation

  /** The words of the table's entries. */
  ghost function WordsOf(val: seq<Big>): set<object>
    reads set v | v in val
  {
    set v | v in val :: v.d
  }

  /** A bit that is not set below the last window. */
  method ZeroBit(r: Big, start: bool, mont: Mont, ghost g: int, ghost P: nat, ghost wstart: nat, ghost n: nat,
                 ghost nl: nat)
    requires Modulus(mont, n, nl) && Entry(r, g, Above(P, wstart + 1), n, nl) && ApartFrom(mont.N, r)
    requires !Bit(P, wstart) && (start ==> Above(P, wstart + 1) == 0)
    modifies r, r.d
    ensures Entry(r, g, Above(P, wstart), n, nl) && (start ==> Above(P, wstart) == 0)
    ensures r.d == old(r.d) || fresh(r.d)
  {
    AboveStep(P, wstart);
    if !start {
      MulPower(r, r, r, mont, g, Above(P, wstart + 1), Above(P, wstart + 1), n, nl);
    }
  }

  /** A window that starts at a bit that is set. */
  method OneWindow(r: Big, p: Big, val: seq<Big>, wstart: nat, window: nat, start: bool, mont: Mont,
                   ghost g: int, ghost P: nat, ghost n: nat, ghost nl: nat) returns (wend: nat)
    requires Modulus(mont, n, nl) && Entry(r, g, Above(P, wstart + 1), n, nl) && ApartFrom(mont.N, r)
    requires p.Valid() && P == p.Mag() && Bit(P, wstart) && (start ==> Above(P, wstart + 1) == 0)
    requires window > 0 && |val| == Pow2(window - 1)
    requires Table(val, g, n, nl) && NotIn(val, r) && NotIn(val, mont.N)
    modifies r, r.d, WordsOf(val)
    ensures wend <= wstart && Entry(r, g, Above(P, wstart - wend), n, nl) && (r.d == old(r.d) || fresh(r.d))
    ensures Table(val, g, n, nl) && NotIn(val, r)
  {
    var wvalue;
    wvalue, wend := Scan(p, wstart, window);
    WindowPower(r, val, wvalue, wend, window, start, mont, g, Above(P, wstart + 1), n, nl);
  }

  /** The power for the bits of a window after those above it, which are h. */
  method WindowPower(r: Big, val: seq<Big>, wvalue: nat, wend: nat, window: nat, start: bool, mont: Mont,
                     ghost g: int, ghost h: nat, ghost n: nat, ghost nl: nat)
    requires Modulus(mont, n, nl) && Entry(r, g, h, n, nl) && ApartFrom(mont.N, r) && (start ==> h == 0)
    requires window > 0 && |val| == Pow2(window - 1) && wvalue % 2 == 1 && wvalue < Pow2(window)
    requires Table(val, g, n, nl) && NotIn(val, r) && NotIn(val, mont.N)
    modifies r, r.d, WordsOf(val)
    ensures Entry(r, g, Twos(h, wend + 1) + wvalue, n, nl) && (r.d == old(r.d) || fresh(r.d))
    ensures Table(val, g, n, nl) && NotIn(val, r)
  {
    if !start {
      SquareTimes(r, wend + 1, mont, g, h, n, nl);
    } else {
      TwosIs(0, wend + 1);
    }
    TimesEntry(r, val, wvalue / 2, mont, g, Twos(h, wend + 1), n, nl);
  }

  lemma AboveNone(p: nat)
    ensures Above(p, 0) == p
  {
    DivideExact(p, Pow2(0), p, 0);
  }

  /** The loop over the bits of the exponent, from the top. */
  method Exponentiate(r: Big, p: Big, val: seq<Big>, bits: nat, window: nat, mont: Mont,
                      ghost g: int, ghost P: nat, ghost n: nat, ghost nl: nat)
    requires Modulus(mont, n, nl) && Entry(r, g, 0, n, nl) && ApartFrom(mont.N, r)
    requires p.Valid() && P == p.Mag() < Pow2(bits) && p != r && p.d != r.d && p.d !in WordsOf(val)
    requires window > 0 && |val| == Pow2(window - 1)
    requires Table(val, g, n, nl) && NotIn(val, r) && NotIn(val, mont.N)
    modifies r, r.d, WordsOf(val)
    ensures Entry(r, g, P, n, nl) && (r.d == old(r.d) || fresh(r.d))
  {
    AboveAll(P, bits);
    AboveNone(P);
    var wstart, start := bits - 1, true;
    while wstart >= 0
      invariant -1 <= wstart < bits && Entry(r, g, Above(P, wstart + 1), n, nl) && (r.d == old(r.d) || fresh(r.d))
      invariant start ==> Above(P, wstart + 1) == 0
      invariant p.Valid() && P == p.Mag() && Table(val, g, n, nl) && NotIn(val, r)
      decreases wstart
    {
      wstart, start := Step(r, p, val, wstart, window, start, mont, g, P, n, nl);
    }
  }

  /** One turn of the loop: a bit that is not set, or a window. */
  method Step(r: Big, p: Big, val: seq<Big>, wstart: nat, window: nat, start0: bool, mont: Mont,
              ghost g: int, ghost P: nat, ghost n: nat, ghost nl: nat) returns (next: int, start: bool)
    requires Modulus(mont, n, nl) && Entry(r, g, Above(P, wstart + 1), n, nl) && ApartFrom(mont.N, r)
    requires p.Valid() && P == p.Mag() && p != r && p.d != r.d && p.d !in WordsOf(val)
    requires start0 ==> Above(P, wstart + 1) == 0
    requires window > 0 && |val| == Pow2(window - 1)
    requires Table(val, g, n, nl) && NotIn(val, r) && NotIn(val, mont.N)
    modifies r, r.d, WordsOf(val)
    ensures -1 <= next < wstart && Entry(r, g, Above(P, next + 1), n, nl) && (r.d == old(r.d) || fresh(r.d))
    ensures start ==> Above(P, next + 1) == 0
    ensures p.Valid() && P == p.Mag() && Table(val, g, n, nl) && NotIn(val, r)
  {
    var b := p.IsBitSet(wstart);
    start := false;
    if !b {
      ZeroBit(r, start0, mont, g, P, wstart, n, nl);
      next, start := wstart - 1, start0;
    } else {
      var wend := OneWindow(r, p, val, wstart, window, start0, mont, g, P, n, nl);
      next := wstart - (wend + 1);
    }
  }

  /** BN_window_bits_for_exponent_size. With the largest, six, the table has 32 entries,
      which is what TABLE_SIZE allows. */
  function WindowBits(b: nat): (w: nat)
    ensures 1 <= w <= 6
  {
    if b > 671 then 6 else if b > 239 then 5 else if b > 79 then 4 else if b > 23 then 3 else 1
  }

  lemma TableSize(b: nat)
    ensures Pow2(WindowBits(b) - 1) <= 32
  {
    Pow2Mono(WindowBits(b) - 1, 5);
    assert Pow2(2) == 4;
  }

  /** BN_mod_mul_montgomery with RR. */
  method TimesSquare(r: Big, a: Big, mont: Mont, ghost p: nat, ghost n: nat, ghost nl: nat)
    requires Ready(mont) && Modulus(mont, n, nl) && r.Valid() && a.Valid() && r.Sep(a)
    requires r != mont.RR && r.d != mont.RR.d && a.Sep(mont.RR) && ApartFrom(mont.N, r) && ApartFrom(mont.N, a)
    requires p == a.Int() * mont.RR.Int() && p < Up(n, nl)
    modifies r, r.d, a.d, mont.RR.d
    ensures r.Valid() && (r.d == old(r.d) || fresh(r.d)) && Ready(mont)
    ensures 0 <= r.Int() < n && Cong(Up(r.Int(), nl), p, n)
    ensures r != a ==> a.Valid() && a.d[..a.top] == old(a.d[..a.top])
  {
    ghost var w := mont.RR.d[..mont.RR.top];
    ModMul(r, a, mont.RR, mont, p);
    assert mont.RR.d[..mont.RR.top] == w;
  }

  /** BN_to_montgomery of a number congruent to g. */
  method FirstEntry(v: Big, aa: Big, mont: Mont, ghost g: int, ghost n: nat, ghost nl: nat)
    requires Ready(mont) && Modulus(mont, n, nl) && v.Valid() && aa.Valid() && v.Sep(aa)
    requires v != mont.RR && v.d != mont.RR.d && aa.Sep(mont.RR) && ApartFrom(mont.N, v) && ApartFrom(mont.N, aa)
    requires 0 <= aa.Int() <= n && Cong(aa.Int(), g, n)
    modifies v, v.d, aa.d, mont.RR.d
    ensures Entry(v, g, 1, n, nl) && (v.d == old(v.d) || fresh(v.d)) && Ready(mont)
    ensures v != aa ==> aa.Valid() && aa.d[..aa.top] == old(aa.d[..aa.top])
  {
    ghost var x, y := aa.Int(), mont.RR.Int();
    ProductBelow(x, y, n, nl);
    TimesSquare(v, aa, mont, x * y, n, nl);
    FirstPower(v.Int(), x, y, g, n, nl);
  }

  /** One in Montgomery form. */
  method One(mont: Mont, ghost g: int, ghost n: nat, ghost nl: nat) returns (r: Big)
    requires Ready(mont) && Modulus(mont, n, nl)
    modifies mont.RR.d
    ensures fresh(r) && fresh(r.d) && Entry(r, g, 0, n, nl) && Ready(mont)
  {
    var one := new Big();
    one.SetWord(1);
    r := Product.CtxGet();
    ghost var y := mont.RR.Int();
    ProductBelow(1, y, n, nl);
    assert one.Int() == 1;
    TimesSquare(r, one, mont, 1 * y, n, nl);
    ZerothPower(r.Int(), y, g, n, nl);
  }

  /** The table for an exponent of the given number of bits: val[0] is the base, the
      others, if there are any, are new. */
  method MakeTable(first: Big, bits: nat, mont: Mont, ghost g: int, ghost n: nat, ghost nl: nat) returns (val: seq<Big>)
    requires Modulus(mont, n, nl) && Entry(first, g, 1, n, nl) && ApartFrom(mont.N, first)
    modifies first.d
    ensures |val| == Pow2(WindowBits(bits) - 1) && Table(val, g, n, nl)
    ensures val[0] == first && forall i :: 0 < i < |val| ==> fresh(val[i]) && fresh(val[i].d)
  {
    var window := WindowBits(bits);
    if window > 1 {
      var d := Product.CtxGet();
      MulPower(d, first, first, mont, g, 1, 1, n, nl);
      val := Fill(first, d, Pow2(window - 1), mont, g, n, nl);
    } else {
      val := [first];
    }
  }

  /** From the base in val0 to the power in r, which is new. */
  method PowerOf(val0: Big, p: Big, bits: nat, mont: Mont, ghost g: int, ghost P: nat, ghost n: nat, ghost nl: nat)
    returns (r: Big)
    requires Ready(mont) && Modulus(mont, n, nl) && Entry(val0, g, 1, n, nl)
    requires ApartFrom(mont.N, val0) && ApartFrom(mont.RR, val0)
    requires p.Valid() && P == p.Mag() < Pow2(bits) && p != val0 && p.d != val0.d && p.d != mont.RR.d
    modifies val0.d, mont.RR.d
    ensures fresh(r) && fresh(r.d) && Entry(r, g, P, n, nl) && Ready(mont)
    ensures p.Valid() && p.Mag() == P
  {
    var val := MakeTable(val0, bits, mont, g, n, nl);
    r := FromTable(val, p, bits, mont, g, P, n, nl);
  }

  method FromTable(val: seq<Big>, p: Big, bits: nat, mont: Mont, ghost g: int, ghost P: nat, ghost n: nat,
                   ghost nl: nat)
    returns (r: Big)
    requires Ready(mont) && Modulus(mont, n, nl) && |val| == Pow2(WindowBits(bits) - 1)
    requires Table(val, g, n, nl) && NotIn(val, mont.N) && NotIn(val, mont.RR)
    requires p.Valid() && P == p.Mag() < Pow2(bits) && p.d !in WordsOf(val) && p.d != mont.RR.d
    modifies mont.RR.d, WordsOf(val)
    ensures fresh(r) && fresh(r.d) && Entry(r, g, P, n, nl) && Ready(mont)
    ensures p.Valid() && p.Mag() == P
  {
    r := One(mont, g, n, nl);
    Exponentiate(r, p, val, bits, WindowBits(bits), mont, g, P, n, nl);
  }

  // ----- BN_mod_exp_mont

  /** The base, reduced unless it is reduced already. */
  method Base(a: Big, m: Big) returns (aa: Big, val0: Big)
    requires a.Valid() && m.Valid() && m.Mag() > 0
    ensures fresh(val0) && fresh(val0.d) && val0.Valid() && (aa == a || aa == val0) && aa.Valid()
    ensures 0 <= aa.Int() <= m.Mag() && Cong(aa.Int(), a.Int(), m.Mag())
  {
    val0 := new Big();
    var c := a.UCmp(m);
    if a.neg || c >= 0 {
      ghost var v := a.Int();
      CongResidue(v, m.Mag());
      a.ZeroTop();
      CongIntro(m.Mag(), 0, 1, m.Mag());
      var ok := Division.NNMod(val0, a, m);
      aa := val0;
    } else {
      aa := a;
    }
  }

  /** A base that is a multiple of the modulus has no other power but zero. */
  lemma ZeroPower(a: int, k: nat, n: int)
    requires n > 0 && k > 0 && Cong(0, a, n)
    ensures Exp(a, k) % n == 0
  {
    CongMul(0, a, Exp(a, k - 1), Exp(a, k - 1), n);
    CongReduced(0, Exp(a, k), n);
  }

  /** The result for an exponent that is not zero. */
  ghost predicate IsResult(z: Big, a: int, P: nat, n: nat)
    requires n > 0
    reads z, z.d
  {
    z.Valid() && z.Int() == Exp(a, P) % n
  }

  /** The exponentiation with a Montgomery context at hand. */
  method WithContext(rr: Big, a: Big, p: Big, bits: nat, m: Big, mont: Mont, ghost v: int, ghost P: nat)
    requires rr.Valid() && a.Valid() && p.Valid() && m.Valid() && rr.Sep(a) && a.Sep(p)
    requires Ready(mont) && mont.N.Mag() == m.Mag()
    requires ApartFrom(mont.N, rr) && ApartFrom(mont.N, a) && ApartFrom(mont.RR, rr) && ApartFrom(mont.RR, a)
    requires v == a.Int() && 0 < P == p.Mag() < Pow2(bits) && ApartFrom(mont.RR, p)
    modifies rr, rr.d, a.d, mont.RR.d
    ensures mont.N.Mag() > 0 && IsResult(rr, v, P, mont.N.Mag()) && (rr.d == old(rr.d) || fresh(rr.d))
    ensures Ready(mont) && (rr != a ==> a.Valid() && a.d[..a.top] == old(a.d[..a.top]))
  {
    IsModulus(mont);
    ghost var n, nl := mont.N.Mag(), mont.N.top;
    var aa, val0 := Base(a, m);
    if aa.IsZero() {
      ZeroPower(v, P, n);
      rr.Zero();
    } else {
      FromBase(rr, aa, val0, p, bits, mont, v, P, n, nl);
    }
  }

  method FromBase(rr: Big, aa: Big, val0: Big, p: Big, bits: nat, mont: Mont, ghost v: int, ghost P: nat,
                  ghost n: nat, ghost nl: nat)
    requires rr.Valid() && aa.Valid() && p.Valid() && val0.Valid()
    requires rr != val0 && rr.d != val0.d && p != val0 && p.d != val0.d && val0.Sep(aa) && aa.Sep(p) && rr.Sep(aa)
    requires Ready(mont) && Modulus(mont, n, nl) && 0 <= aa.Int() <= n && Cong(aa.Int(), v, n)
    requires ApartFrom(mont.N, rr) && ApartFrom(mont.N, aa) && ApartFrom(mont.RR, rr) && ApartFrom(mont.RR, aa)
    requires ApartFrom(mont.RR, val0) && ApartFrom(mont.N, val0)
    requires P == p.Mag() < Pow2(bits) && ApartFrom(mont.RR, p)
    modifies rr, rr.d, aa.d, val0, val0.d, mont.RR.d
    ensures IsResult(rr, v, P, n) && (rr.d == old(rr.d) || fresh(rr.d))
    ensures Ready(mont) && (rr != aa && aa != val0 ==> aa.Valid() && aa.d[..aa.top] == old(aa.d[..aa.top]))
  {
    FirstEntry(val0, aa, mont, v, n, nl);
    var r := PowerOf(val0, p, bits, mont, v, P, n, nl);
    Unwind(rr, r, mont, v, P, n, nl);
  }

  /** BN_from_montgomery of the power. */
  method Unwind(rr: Big, r: Big, mont: Mont, ghost g: int, ghost P: nat, ghost n: nat, ghost nl: nat)
    requires Modulus(mont, n, nl) && Entry(r, g, P, n, nl) && rr.Valid() && rr.Sep(r) && ApartFrom(mont.N, rr)
    modifies rr, rr.d
    ensures IsResult(rr, g, P, n) && (rr.d == old(rr.d) || fresh(rr.d))
  {
    ghost var x := r.Int();
    r.ZeroTop();
    ProductBelow(1, x, n, nl);
    FromMontgomery(rr, r, mont);
    rr.ZeroTop();
    PowerValue(rr.Int(), x, g, P, n, nl);
  }

  /** The part of a context that a computation with it may write to: the spare words
      of RR, which is an operand of BN_mul. */
  ghost function Spare(in_mont: Mont?): set<object>
    reads in_mont, if in_mont == null then {} else {in_mont.RR}
  {
    if in_mont == null then {} else {in_mont.RR.d}
  }

  /** A context for m whose numbers are no others. */
  ghost predicate ContextFor(mont: Mont, m: Big, rr: Big, p: Big)
    requires m.Valid()
    reads mont, mont.N, mont.N.d, mont.RR, mont.RR.d, m, m.d, rr, p
  {
    && Ready(mont) && mont.N.Mag() == m.Mag()
    && ApartFrom(mont.N, rr) && ApartFrom(mont.RR, rr) && ApartFrom(mont.RR, p)
  }

  /** What exponentiation returns: the power modulo |m|, except that the exponent zero
      gives one without a look at m. */
  ghost function PowerMod(a: int, P: nat, n: nat): int
    requires n > 0
  {
    if P == 0 then 1 else Exp(a, P) % n
  }

  /** The two differ only modulo one. */
  lemma PowerIsReduced(a: int, P: nat, n: nat)
    requires n > 0
    ensures PowerMod(a, P, n) == Exp(a, P) % n <==> n > 1 || P > 0
  {
    if P == 0 {
      if n > 1 {
        DivideExact(1, n, 0, 1);
      }
    }
  }

  /** BN_mod_exp_mont: it succeeds exactly for an odd modulus. */
  method ModExpMont(rr: Big, a: Big, p: Big, m: Big, in_mont: Mont?) returns (ok: bool)
    requires rr.Valid() && a.Valid() && p.Valid() && m.Valid() && m.top > 0 && rr.Sep(a) && a.Sep(p)
    requires in_mont != null && m.Mag() % 2 == 1 ==>
               ContextFor(in_mont, m, rr, p) && ApartFrom(in_mont.N, a) && ApartFrom(in_mont.RR, a)
    modifies rr, rr.d, a.d, Spare(in_mont)
    ensures ok <==> old(m.Mag()) % 2 == 1
    ensures ok ==> rr.Valid() && rr.Int() == PowerMod(old(a.Int()), old(p.Mag()), old(m.Mag()))
    ensures rr.d == old(rr.d) || fresh(rr.d)
    ensures in_mont != null && ok ==> Ready(in_mont)
    ensures rr != a ==> a.Valid() && a.d[..a.top] == old(a.d[..a.top])
  {
    ok := m.IsOdd();
    if ok {
      var bits := p.NumBits();
      if bits == 0 {
        rr.SetWord(1);
      } else if in_mont != null {
        WithContext(rr, a, p, bits, m, in_mont, a.Int(), p.Mag());
      } else {
        WithNewContext(rr, a, p, bits, m, a.Int(), p.Mag(), m.Mag());
      }
    }
  }

  method WithNewContext(rr: Big, a: Big, p: Big, bits: nat, m: Big, ghost v: int, ghost P: nat, ghost n: nat)
    requires rr.Valid() && a.Valid() && p.Valid() && m.Valid() && m.top > 0 && rr.Sep(a) && a.Sep(p)
    requires v == a.Int() && 0 < P == p.Mag() < Pow2(bits) && n == m.Mag() && n % 2 == 1
    modifies rr, rr.d, a.d
    ensures IsResult(rr, v, P, n) && (rr.d == old(rr.d) || fresh(rr.d))
    ensures rr != a ==> a.Valid() && a.d[..a.top] == old(a.d[..a.top])
  {
    var mont := new Mont();
    var ok := Set(mont, m);
    WithContext(rr, a, p, bits, m, mont, v, P);
  }
}
