/** The word loops of BN_lshift, BN_rshift, BN_lshift1 and BN_rshift1. */
module Shift {
  import opened Words
  import opened Kernels

  // ----- powers of two

  function Pow2(n: nat): (p: nat)
    ensures p > 0
  {
    if n == 0 then 1 else 2 * Pow2(n - 1)
  }

  lemma {:induction false} Pow2Add(m: nat, n: nat)
    ensures Pow2(m + n) == Pow2(m) * Pow2(n)
  {
    if m != 0 {
      Pow2Add(m - 1, n);
      MulAssoc(2, Pow2(m - 1), Pow2(n));
    }
  }

  lemma Pow2Word()
    ensures Pow2(32) == B && Pow2(31) == T
  {
    assert Pow2(4) == 16;
    Pow2Add(4, 4);
    Pow2Add(8, 8);
    Pow2Add(16, 16);
  }

  /** A shift by n bits is one by n / 32 words and n % 32 bits. */
  lemma {:induction false} Pow2Words(nw: nat, b: nat)
    ensures Pow2(32 * nw + b) == Up(Pow2(b), nw)
  {
    if nw != 0 {
      Pow2Words(nw - 1, b);
      Pow2Add(32, 32 * nw - 32 + b);
      Pow2Word();
    }
  }

  /** c doubled k times. */
  function Twos(c: nat, k: nat): nat {
    if k == 0 then c else 2 * Twos(c, k - 1)
  }

  lemma {:induction false} TwosIs(c: nat, k: nat)
    ensures Twos(c, k) == c * Pow2(k)
    ensures Twos(c, k) / Pow2(k) == c
  {
    if k != 0 {
      TwosIs(c, k - 1);
      assert c * (2 * Pow2(k - 1)) == 2 * (c * Pow2(k - 1));
    }
    MulEqual(c, Pow2(k), Pow2(k));
    DivideExact(Twos(c, k), Pow2(k), c, 0);
  }

  lemma {:induction false} TwosHalf(c: nat, k: nat)
    requires c % 2 == 0
    ensures Twos(c / 2, k + 1) == Twos(c, k)
  {
    if k != 0 {
      TwosHalf(c, k - 1);
    }
  }

  lemma {:induction false} TwosBelow(c: nat, k: nat)
    ensures c <= Twos(c, k)
  {
    if k != 0 {
      TwosBelow(c, k - 1);
    }
  }

  lemma {:induction false} TwosAdd(x: nat, y: nat, k: nat)
    ensures Twos(x + y, k) == Twos(x, k) + Twos(y, k)
  {
    if k != 0 {
      TwosAdd(x, y, k - 1);
    }
  }

  lemma {:induction false} TwosTwos(x: nat, j: nat, k: nat)
    ensures Twos(Twos(x, j), k) == Twos(x, j + k)
  {
    if k != 0 {
      TwosTwos(x, j, k - 1);
    }
  }

  // ----- shifting a word

  /** l << lb without the bits that leave the word, p being 2 to the lb. */
  function LeftPart(l: Word, p: int): Word {
    (l * p) % B
  }

  /** What a left shift moves out of the word: l >> rb, where q is 2 to the rb and
      p * q is B; LeftPart is p times the bits below. */
  lemma ShiftWord(l: Word, p: int, q: int)
    requires 0 < p && 0 < q && p * q == B
    ensures l * p == LeftPart(l, p) + B * (l / q)
    ensures LeftPart(l, p) == p * (l % q)
    ensures 0 <= l / q < p
  {
    assert l == q * (l / q) + l % q;
    var h, m := l / q, l % q;
    ScaleDivision(l, p, q, h, m);
    DivModUnique(l * p, B, h, p * m);
    DivideWord(l, p, q, h, m);
  }

  lemma ScaleDivision(l: int, p: int, q: int, h: int, m: int)
    requires 0 < p && p * q == B && l == q * h + m && 0 <= m < q
    ensures l * p == h * B + p * m && 0 <= p * m < B
  {
    assert l * p == (q * h) * p + m * p;
    assert (q * h) * p == h * (p * q);
    MulMono(0, m, p);
    MulMonoStrict(m, q, p);
  }

  lemma DivideWord(l: Word, p: int, q: int, h: int, m: int)
    requires 0 < p && 0 < q && p * q == B && l == q * h + m && 0 <= m < q
    ensures 0 <= h < p
  {
    if h >= p {
      MulMono(p, h, q);
    } else if h < 0 {
      MulMono(h, -1, q);
    }
  }

  /** A multiple of p has room for p - 1 more below the next word, as p divides B. */
  lemma RoomBelow(w: Word, p: int, q: int, m: int)
    requires 0 < p && p * q == B && w == p * m
    ensures w + p <= B
  {
    if m >= q {
      MulMono(q, m, p);
    } else {
      MulMono(m + 1, q, p);
      Distrib(m, 1, p);
    }
  }

  // ----- BN_lshift

  /** s is the words of x moved up by the bits of p, one word longer than x. */
  ghost predicate ShiftedUp(s: seq<Word>, x: seq<Word>, p: int, m: int)
  {
    |s| == |x| + 1 && Val(s) == p * Val(x) && s[0] == p * m
  }

  /** What SplitShift says of the two words a shifted word becomes. */
  ghost predicate ShiftParts(lo: int, hi: int, l: int, p: int, m: int) {
    lo + B * hi == l * p && lo == p * m && 0 <= hi < p
  }

  /** The word l moved up by the bits of p: (l << lb) & BN_MASK2 and l >> rb. */
  method SplitShift(l: Word, p: int, q: int) returns (lo: Word, hi: Word, ghost m: int)
    requires 0 < p && 0 < q && p * q == B
    ensures ShiftParts(lo, hi, l, p, m)
  {
    ShiftWord(l, p, q);
    MulMono(1, q, p);
    lo, hi, m := LeftPart(l, p), l / q, l % q;
  }

  lemma ShiftSum(lo: int, hi: int, l: int, x: int, p: int)
    requires lo + B * hi == l * p
    ensures lo + B * (hi + p * x) == p * (l + B * x)
  {
    assert p * (l + B * x) == l * p + B * (p * x);
  }

  lemma ShiftUpStep(s: seq<Word>, x: seq<Word>, l: Word, lo: Word, hi: int, p: int, q: int, m: int, m1: int)
    requires 0 < p && p * q == B && ShiftedUp(s, x, p, m) && ShiftParts(lo, hi, l, p, m1)
    ensures s[0] + hi < B
    ensures ShiftedUp([lo, s[0] + hi] + s[1..], [l] + x, p, m1)
  {
    RoomBelow(s[0], p, q, m);
    var w: Word := s[0] + hi;
    ValCons(l, x);
    ValCons(w, s[1..]);
    ValCons(lo, [w] + s[1..]);
    assert [lo, w] + s[1..] == [lo] + ([w] + s[1..]);
    ShiftSum(lo, hi, l, Val(x), p);
  }

  /** The loop of BN_lshift for a shift that is not by whole words, from the top
      word down, which allows r to be a. */
  method ShiftUp(r: array<Word>, a: array<Word>, n: nat, nw: nat, p: int, q: int)
    requires n <= a.Length && nw + n + 1 <= r.Length
    requires 0 < p && 0 < q && p * q == B
    requires r[nw + n] == 0
    modifies r
    ensures Val(r[nw..nw + n + 1]) == p * old(Val(a[..n]))
    ensures forall k :: 0 <= k < r.Length && !(nw <= k < nw + n + 1) ==> r[k] == old(r[k])
  {
    ghost var x, m := a[..n], 0;
    ghost var s: seq<Word> := r[nw + n..nw + n + 1];
    assert s == [0] && x[n..] == [];
    var i := n;
    while i > 0
      invariant 0 <= i <= n && a[..i] == x[..i]
      invariant r[nw + i..nw + n + 1] == s && ShiftedUp(s, x[i..], p, m)
      invariant forall k :: 0 <= k < r.Length && !(nw <= k < nw + n + 1) ==> r[k] == old(r[k])
    {
      i := i - 1;
      assert a[i] == x[i];
      ghost var l := x[i];
      assert [l] + x[i + 1..] == x[i..];
      s, m := ShiftUpWord(r, a, i, n, nw, p, q, s, x[i + 1..], m);
    }
  }

  /** One word of the loop. */
  method ShiftUpWord(r: array<Word>, a: array<Word>, i: nat, n: nat, nw: nat, p: int, q: int,
                     ghost s: seq<Word>, ghost x: seq<Word>, ghost m: int)
    returns (ghost s1: seq<Word>, ghost m1: int)
    requires i < n <= a.Length && nw + n + 1 <= r.Length
    requires 0 < p && 0 < q && p * q == B
    requires r[nw + i + 1..nw + n + 1] == s && ShiftedUp(s, x, p, m)
    modifies r
    ensures r[nw + i..nw + n + 1] == s1 && ShiftedUp(s1, [old(a[i])] + x, p, m1)
    ensures forall k :: 0 <= k < r.Length && !(nw + i <= k <= nw + i + 1) ==> r[k] == old(r[k])
  {
    var l := a[i];
    var lo, hi;
    lo, hi, m1 := SplitShift(l, p, q);
    ShiftUpStep(s, x, l, lo, hi, p, q, m, m1);
    assert r[nw + i + 1] == s[0];
    s1 := [lo, s[0] + hi] + s[1..];
    r[nw + i + 1] := r[nw + i + 1] + hi;
    r[nw + i] := lo;
  }

  /** The loop of BN_lshift for a shift by whole words. */
  method MoveUp(r: array<Word>, a: array<Word>, n: nat, nw: nat)
    requires n <= a.Length && nw + n <= r.Length
    modifies r
    ensures r[nw..nw + n] == old(a[..n])
    ensures forall k :: 0 <= k < r.Length && !(nw <= k < nw + n) ==> r[k] == old(r[k])
  {
    ghost var x := a[..n];
    var i := n;
    while i > 0
      invariant 0 <= i <= n && a[..i] == x[..i]
      invariant r[nw + i..nw + n] == x[i..]
      invariant forall k :: 0 <= k < r.Length && !(nw <= k < nw + n) ==> r[k] == old(r[k])
    {
      i := i - 1;
      assert a[i] == x[i];
      r[nw + i] := a[i];
      assert x[i..] == [x[i]] + x[i + 1..];
    }
  }

  /** A number with nw zero words below it. */
  lemma ValAbove(s: seq<Word>, nw: nat)
    requires nw <= |s| && forall k :: 0 <= k < nw ==> s[k] == 0
    ensures Val(s) == Up(Val(s[nw..]), nw)
  {
    ValSplit(s, nw);
    ValZeros(s[..nw]);
  }

  lemma UpPow2(v: int, nw: nat, b: nat)
    ensures Up(Pow2(b) * v, nw) == v * Pow2(32 * nw + b)
  {
    Pow2Words(nw, b);
    UpMul(v, Pow2(b), nw);
  }

  /** memset */
  method Clear(r: array<Word>, n: nat)
    requires n <= r.Length
    modifies r
    ensures forall k :: 0 <= k < n ==> r[k] == 0
    ensures r[n..] == old(r[n..])
  {
    var i := 0;
    while i < n
      invariant 0 <= i <= n
      invariant forall k :: 0 <= k < i ==> r[k] == 0
      invariant r[n..] == old(r[n..])
    {
      r[i] := 0;
      i := i + 1;
    }
  }

  /** BN_lshift without the growing of r: the n words of a moved up by 32 * nw + lb
      bits. The result has n + nw + 1 words. */
  method LShift(r: array<Word>, a: array<Word>, n: nat, nw: nat, lb: nat)
    requires n <= a.Length && nw + n + 1 <= r.Length && lb < 32
    modifies r
    ensures Val(r[..nw + n + 1]) == old(Val(a[..n])) * Pow2(32 * nw + lb)
  {
    ghost var v := Val(a[..n]);
    LShiftWords(r, a, n, nw, lb);
    ghost var s := r[nw..nw + n + 1];
    Clear(r, nw);
    ghost var z := r[..nw + n + 1];
    assert z[nw..] == r[nw..nw + n + 1] == s;
    ValAbove(z, nw);
    UpPow2(v, nw, lb);
  }

  method LShiftWords(r: array<Word>, a: array<Word>, n: nat, nw: nat, lb: nat)
    requires n <= a.Length && nw + n + 1 <= r.Length && lb < 32
    modifies r
    ensures Val(r[nw..nw + n + 1]) == Pow2(lb) * old(Val(a[..n]))
  {
    ghost var x := a[..n];
    r[nw + n] := 0;
    assert a[..n] == x;
    if lb == 0 {
      MoveUp(r, a, n, nw);
      ValPad(r[nw..nw + n + 1], n);
      assert r[nw..nw + n + 1][..n] == x;
    } else {
      var rb := 32 - lb;
      Pow2Add(lb, rb);
      Pow2Word();
      ShiftUp(r, a, n, nw, Pow2(lb), Pow2(rb));
    }
  }

  // ----- BN_lshift1

  /** The loop of BN_lshift1 with its carry. */
  method Double(r: array<Word>, a: array<Word>, n: nat) returns (c: Word)
    requires n <= r.Length && n <= a.Length
    modifies r
    ensures c <= 1 && Val(r[..n]) + Up(c, n) == 2 * old(Val(a[..n]))
    ensures forall k :: n <= k < r.Length ==> r[k] == old(r[k])
  {
    c := 0;
    ghost var x, s: seq<Word> := a[..n], [];
    var i := 0;
    while i < n
      invariant i <= n && c <= 1
      invariant forall k :: i <= k < r.Length ==> r[k] == old(r[k])
      invariant r[..i] == s && Product(s, c, x, 2)
    {
      assert a[i] == x[i];
      var t := a[i];
      var l: Word := Add(t, t) + c;
      var c1: Word := if t >= T then 1 else 0;
      ProductStep(s, c, x, 2, l, c1);
      r[i], c := l, c1;
      s := s + [l];
      i := i + 1;
    }
    assert x[..n] == x;
  }

  // ----- BN_rshift1

  /** The words s are half the words x and c is what is lost. */
  ghost predicate Halved(s: seq<Word>, c: int, x: seq<Word>) {
    2 * Val(s) + c == Val(x)
  }

  lemma HalveStep(s: seq<Word>, c: int, x: seq<Word>, t: Word, l: Word)
    requires 0 <= c <= 1 && Halved(s, c, x) && l == t / 2 + c * T
    ensures Halved([l] + s, t % 2, [t] + x)
  {
    ValCons(l, s);
    ValCons(t, x);
  }

  /** The loop of BN_rshift1, from the top word down. */
  method Halve(r: array<Word>, a: array<Word>, n: nat)
    requires n <= r.Length && n <= a.Length
    modifies r
    ensures Val(r[..n]) == old(Val(a[..n])) / 2
    ensures forall k :: n <= k < r.Length ==> r[k] == old(r[k])
  {
    var c: Word := 0;
    ghost var x, s: seq<Word> := a[..n], [];
    assert x[n..] == [];
    var i := n;
    while i > 0
      invariant 0 <= i <= n && (c == 0 || c == T)
      invariant forall k :: 0 <= k < r.Length && !(i <= k < n) ==> r[k] == old(r[k])
      invariant r[i..n] == s && Halved(s, if c == 0 then 0 else 1, x[i..])
    {
      i := i - 1;
      assert a[i] == x[i];
      var t := a[i];
      var l: Word := t / 2 + c;
      HalveStep(s, if c == 0 then 0 else 1, x[i + 1..], t, l);
      assert x[i..] == [t] + x[i + 1..];
      r[i], c := l, if t % 2 == 1 then T else 0;
      s := [l] + s;
    }
    assert x[0..] == x;
  }

  // ----- BN_rshift

  /** Of the words of x the bits above those of q are in s and in h, the last word
      read moved down; the bits lost are the remainder e. */
  ghost predicate ShiftedDown(s: seq<Word>, h: int, x: seq<Word>, e: int, q: int)
  {
    e + q * (Val(s) + Up(h, |s|)) == Val(x)
  }

  /** The next word of x is moved down and its low bits complete the word before. */
  lemma ShiftDownStep(s: seq<Word>, h: int, x: seq<Word>, e: int, q: int, n: Word, lo: int, hi: int, w: Word)
    requires ShiftedDown(s, h, x, e, q) && |x| == |s| + 1
    requires w == h + lo && q * (lo + B * hi) == B * n
    ensures ShiftedDown(s + [w], hi, x + [n], e, q)
  {
    var i := |s|;
    ValSnoc(s, w);
    ValSnoc(x, n);
    UpAdd(h, lo, i);
    UpNext(hi, i);
    UpAdd(lo, B * hi, i);
    UpMul(q, lo + B * hi, i);
    UpNext(n, i);
    ScaleSum(q, Val(s), Up(h, i), Up(lo + B * hi, i));
  }

  lemma ScaleSum(q: int, v: int, h: int, l: int)
    ensures q * (v + h + l) == q * (v + h) + q * l
  {
  }

  /** The word n moved down by the bits of q: n >> rb and (n << lb) & BN_MASK2, the
      part that belongs to the word below. */
  method SplitDown(n: Word, p: int, q: int) returns (lo: Word, hi: Word)
    requires 0 < p && 0 < q && p * q == B
    ensures q * (lo + B * hi) == B * n && 0 <= hi < p && hi == n / q && lo + p <= B
  {
    ShiftWord(n, p, q);
    MulMono(1, q, p);
    RoomBelow(LeftPart(n, p), p, q, n % q);
    lo, hi := LeftPart(n, p), n / q;
    DownValue(n, p, q, n % q, n / q);
  }

  lemma DownValue(n: int, p: int, q: int, m: int, h: int)
    requires p * q == B && n == q * h + m
    ensures q * (p * m + B * h) == B * n
  {
    assert q * (p * m + B * h) == (p * q) * m + B * (q * h);
  }

  lemma ShiftDownStart(n: Word, q: int, h: int)
    requires 0 < q && h == n / q
    ensures 0 <= n % q < q && ShiftedDown([], h, [n], n % q, q)
  {
    Val1(n);
  }

  lemma ShiftDownDone(s: seq<Word>, h: Word, x: seq<Word>, e: int, q: int)
    requires 0 <= e < q && ShiftedDown(s, h, x, e, q)
    ensures Val(x) / q == Val(s + [h])
  {
    ValSnoc(s, h);
    DivideExact(Val(x), q, Val(s + [h]), e);
  }

  /** The loop of BN_rshift for a shift that is not by whole words, from the bottom
      word up, which allows r to be a. A number no longer than the shift has one
      word read and written beyond its end. */
  method ShiftDown(r: array<Word>, a: array<Word>, nw: nat, j: nat, p: int, q: int)
    requires nw + j <= a.Length && nw < a.Length && j + 1 <= r.Length && 2 <= r.Length
    requires 0 < p && 0 < q && p * q == B
    modifies r
    ensures Val(r[..j]) == old(Val(a[nw..nw + j])) / q
  {
    ghost var x := a[nw..nw + j];
    var l := a[nw];
    var lo, h := SplitDown(l, p, q);
    var i := 1;
    if j > 0 {
      ghost var s: seq<Word>, e := [], l % q;
      ShiftDownStart(l, q, h);
      assert x[..1] == [l];
      while i < j
        invariant 1 <= i <= j && 0 <= h < p
        invariant a[nw + i..nw + j] == x[i..]
        invariant r[..i - 1] == s && ShiftedDown(s, h, x[..i], e, q)
      {
        s, h := ShiftDownWord(r, a, nw, j, i, h, p, q, x, s, e);
        i := i + 1;
      }
      assert x[..j] == x;
      ShiftDownDone(s, h, x, e, q);
      r[i - 1] := h;
      assert r[..j] == s + [h];
    } else {
      r[i - 1] := h;
    }
    ghost var z := r[..j];
    r[i] := 0;
    assert r[..j] == z;
  }

  /** One word of the loop. */
  method ShiftDownWord(r: array<Word>, a: array<Word>, nw: nat, j: nat, i: nat, h: Word, p: int, q: int,
                       ghost x: seq<Word>, ghost s: seq<Word>, ghost e: int) returns (ghost s1: seq<Word>, h1: Word)
    requires 1 <= i < j && nw + j <= a.Length && j + 1 <= r.Length
    requires 0 < p && 0 < q && p * q == B && 0 <= h < p
    requires |x| == j && a[nw + i..nw + j] == x[i..]
    requires r[..i - 1] == s && ShiftedDown(s, h, x[..i], e, q)
    modifies r
    ensures 0 <= h1 < p && a[nw + i + 1..nw + j] == x[i + 1..]
    ensures r[..i] == s1 && ShiftedDown(s1, h1, x[..i + 1], e, q)
  {
    ghost var rest := a[nw + i + 1..nw + j];
    assert a[nw + i] == x[i] && rest == x[i + 1..];
    var l := a[nw + i];
    var lo;
    lo, h1 := SplitDown(l, p, q);
    ShiftDownStep(s, h, x[..i], e, q, l, lo, h1, h + lo);
    assert x[..i + 1] == x[..i] + [l];
    r[i - 1] := h + lo;
    s1 := s + [h + lo];
    assert a[nw + i + 1..nw + j] == rest;
  }

  /** The loop of BN_rshift for a shift by whole words; it copies a word too many. */
  method MoveDown(r: array<Word>, a: array<Word>, nw: nat, j: nat)
    requires nw + j + 1 <= a.Length && j + 2 <= r.Length && (r == a ==> nw > 0)
    modifies r
    ensures r[..j] == old(a[nw..nw + j])
  {
    ghost var x := a[nw..nw + j + 1];
    assert a[nw..nw + j] == x[..j];
    var i := 0;
    while i < j + 1
      invariant 0 <= i <= j + 1
      invariant r[..i] == x[..i] && a[nw + i..nw + j + 1] == x[i..]
    {
      assert a[nw + i] == x[i];
      ghost var rest := a[nw + i + 1..nw + j + 1];
      assert rest == x[i + 1..];
      r[i] := a[nw + i];
      assert a[nw + i + 1..nw + j + 1] == rest;
      i := i + 1;
    }
    assert r[..j] == x[..j];
    r[j + 1] := 0;
    assert r[..j] == x[..j];
  }

  lemma DivideByWords(s: seq<Word>, nw: nat, b: nat)
    requires nw <= |s|
    ensures Val(s) / Pow2(32 * nw + b) == Val(s[nw..]) / Pow2(b)
  {
    ValSplit(s, nw);
    ValBound(s[..nw]);
    Pow2Words(nw, b);
    DivideUp(Val(s[nw..]), Pow2(b), Val(s[..nw]), nw);
  }

  lemma DivideUp(v: int, q: int, low: int, n: nat)
    requires 0 < q && 0 <= low < Pow(n)
    ensures 0 < Up(q, n) && (low + Up(v, n)) / Up(q, n) == v / q
  {
    var h, e := v / q, v % q;
    assert v == q * h + e;
    UpZero(n);
    UpMono(0, q, n);
    UpMono(0, e, n);
    UpMono(e + 1, q, n);
    UpAdd(e, 1, n);
    ScaleUp(q, h, e, n);
    DivideExact(low + Up(v, n), Up(q, n), h, low + Up(e, n));
  }

  lemma ScaleUp(q: int, h: int, e: int, n: nat)
    ensures Up(q * h + e, n) == Up(q, n) * h + Up(e, n)
  {
    UpAdd(q * h, e, n);
    UpMul(h, q, n);
  }

  /** BN_rshift without the growing of r: the n words of a, of which nw + j == n are
      counted, moved down by 32 * nw + rb bits. */
  method RShift(r: array<Word>, a: array<Word>, nw: nat, j: nat, rb: nat)
    requires nw + j + 1 <= a.Length && rb < 32 && (r == a ==> nw > 0 || rb > 0)
    requires 2 <= r.Length && j + (if rb == 0 then 2 else 1) <= r.Length
    modifies r
    ensures Val(r[..j]) == old(Val(a[..nw + j])) / Pow2(32 * nw + rb)
  {
    ghost var x := a[..nw + j];
    DivideByWords(x, nw, rb);
    assert x[nw..] == a[nw..nw + j];
    if rb == 0 {
      MoveDown(r, a, nw, j);
    } else {
      var lb := 32 - rb;
      Pow2Add(lb, rb);
      Pow2Word();
      ShiftDown(r, a, nw, j, Pow2(lb), Pow2(rb));
    }
  }

  // ----- bits

  /** Bit n of v. */
  predicate Bit(v: nat, n: nat) {
    v / Pow2(n) % 2 == 1
  }

  /** The 256-entry table of BN_num_bits_word. */
  function BitsOfByte(l: nat): nat
    requires l < 256
  {
    if l == 0 then 0 else if l < 2 then 1 else if l < 4 then 2 else if l < 8 then 3 else if l < 16 then 4
    else if l < 32 then 5 else if l < 64 then 6 else if l < 128 then 7 else 8
  }

  lemma BitsOfByteBounds(l: nat)
    requires 0 < l < 256
    ensures 0 < BitsOfByte(l) <= 8 && Pow2(BitsOfByte(l) - 1) <= l < Pow2(BitsOfByte(l))
  {
    assert Pow2(2) == 4;
    assert Pow2(4) == 16;
    assert Pow2(6) == 64;
    assert Pow2(8) == 256;
  }

  lemma BitsShifted(l: nat, s: nat, b: nat)
    requires 0 < b && Pow2(b - 1) <= l / Pow2(s) < Pow2(b)
    ensures Pow2(b + s - 1) <= l < Pow2(b + s)
  {
    var p, e := Pow2(s), l / Pow2(s);
    assert l == p * e + l % p;
    Pow2Add(b - 1, s);
    Pow2Add(b, s);
    MulMono(Pow2(b - 1), e, p);
    MulMono(e + 1, Pow2(b), p);
    Distrib(e, 1, p);
  }

  /** BN_num_bits_word */
  method NumBitsWord(l: Word) returns (n: nat)
    ensures n <= 32 && (n == 0 <==> l == 0)
    ensures n > 0 ==> Pow2(n - 1) <= l < Pow2(n)
  {
    if l == 0 {
      return 0;
    }
    var s;
    if l >= 0x1_0000 {
      s := if l >= 0x100_0000 then 24 else 16;
    } else {
      s := if l >= 0x100 then 8 else 0;
    }
    ShiftedByte(l, s);
    n := BitsOfByte(l / Pow2(s)) + s;
  }

  lemma ShiftedByte(l: Word, s: nat)
    requires s == if l >= 0x100_0000 then 24 else if l >= 0x1_0000 then 16 else if l >= 0x100 then 8 else 0
    requires l != 0
    ensures 0 < l / Pow2(s) < 256
    ensures var n := BitsOfByte(l / Pow2(s)) + s; 0 < n <= 32 && Pow2(n - 1) <= l < Pow2(n)
  {
    Pow2Bytes();
    DivideFits(l, Pow2(s), 256);
    var b := BitsOfByte(l / Pow2(s));
    BitsOfByteBounds(l / Pow2(s));
    BitsShifted(l, s, b);
  }

  lemma Pow2Bytes()
    ensures Pow2(0) == 1 && Pow2(8) == 0x100 && Pow2(16) == 0x1_0000 && Pow2(24) == 0x100_0000
  {
    assert Pow2(4) == 16;
    Pow2Add(4, 4);
    Pow2Add(8, 8);
    Pow2Add(16, 8);
  }

  lemma DivideFits(l: int, p: int, k: int)
    requires 0 < p <= l < k * p
    ensures 0 < l / p < k
  {
    var h := l / p;
    assert l == p * h + l % p;
    if h >= k {
      MulMono(k, h, p);
    } else if h <= 0 {
      MulMono(h, 0, p);
    }
  }

  lemma {:induction false} Pow2Mono(m: nat, n: nat)
    requires m <= n
    ensures Pow2(m) <= Pow2(n)
  {
    if m < n {
      Pow2Mono(m, n - 1);
    }
  }

  /** The bits of a number are those of its top word and 32 for every other word. */
  lemma BitsAbove(s: seq<Word>, l: Word, b: nat)
    requires 0 < b <= 32 && Pow2(b - 1) <= l < Pow2(b)
    ensures Pow2(32 * |s| + b - 1) <= Val(s) + Up(l, |s|) < Pow2(32 * |s| + b)
  {
    var n := |s|;
    Pow2Words(n, b - 1);
    Pow2Words(n, b);
    UpMono(Pow2(b - 1), l, n);
    UpMono(l + 1, Pow2(b), n);
    UpAdd(l, 1, n);
    ValBound(s);
  }

  /** A number no longer than the shift leaves nothing. */
  lemma NothingLeft(s: seq<Word>, n: nat)
    requires |s| <= n / 32
    ensures Val(s) / Pow2(n) == 0
  {
    ValBound(s);
    PowMono(|s|, n / 32);
    Pow2Words(n / 32, 0);
    Pow2Mono(32 * (n / 32), n);
    DivideExact(Val(s), Pow2(n), 0, Val(s));
  }

  lemma NoBit(s: seq<Word>, n: nat)
    requires |s| <= n / 32
    ensures !Bit(Val(s), n)
  {
    NothingLeft(s, n);
  }

  lemma NoBitOfZero(n: nat)
    ensures !Bit(0, n)
  {
    DivideExact(0, Pow2(n), 0, 0);
  }

  lemma BitOfWord(s: seq<Word>, i: nat, j: nat)
    requires i < |s| && j < 32
    ensures Bit(Val(s), 32 * i + j) == Bit(s[i], j)
  {
    DivideByWords(s, i, j);
    var x := s[i..];
    Pow2Add(1, 31 - j);
    Pow2Add(j, 32 - j);
    Pow2Word();
    LowBit(x[0], Val(x[1..]), Pow2(j), Pow2(31 - j));
  }

  /** Words above do not matter for a bit below them. */
  lemma LowBit(w: Word, v: int, p: int, q: int)
    requires 0 < p && p * (2 * q) == B
    ensures ((w + B * v) / p) % 2 == (w / p) % 2
  {
    var h, e, k := w / p, w % p, q * v;
    assert w == p * h + e;
    TwiceFactor(p, q, v);
    Spread(p, h, 2 * k);
    DivideExact(w + B * v, p, h + 2 * k, e);
    EvenAdded(h, k);
  }

  lemma TwiceFactor(p: int, q: int, v: int)
    ensures (p * (2 * q)) * v == p * (2 * (q * v))
  {
    MulAssoc(p, 2 * q, v);
    MulAssoc(2, q, v);
  }

  lemma EvenAdded(h: int, k: int)
    ensures (h + 2 * k) % 2 == h % 2
  {
  }

  /** The loop of BN_set_bit that clears the words a number gains. */
  method Pad(a: array<Word>, n: nat, m: nat)
    requires n <= m <= a.Length
    modifies a
    ensures a[..n] == old(a[..n]) && Val(a[..m]) == Val(a[..n])
    ensures forall k :: n <= k < m ==> a[k] == 0
  {
    var k := n;
    while k < m
      invariant n <= k <= m && a[..n] == old(a[..n])
      invariant forall i :: n <= i < k ==> a[i] == 0
    {
      a[k] := 0;
      k := k + 1;
    }
    ValPad(a[..m], n);
    assert a[..m][..n] == a[..n];
  }

  /** A bit that is not set can be added. */
  lemma BitFits(w: Word, j: nat)
    requires j < 32 && !Bit(w, j)
    ensures w + Pow2(j) < B
  {
    Pow2Add(1, 31 - j);
    Pow2Add(j, 32 - j);
    Pow2Word();
    RoomForBit(w, Pow2(j), Pow2(31 - j));
  }

  lemma RoomForBit(w: Word, p: int, q: int)
    requires 0 < p && 0 < q && p * (2 * q) == B && (w / p) % 2 == 0
    ensures w + p < B
  {
    var h, e := w / p, w % p;
    assert w == p * h + e && h == 2 * (h / 2);
    if h / 2 >= q {
      MulMono(2 * q, h, p);
    } else {
      MulMono(h + 2, 2 * q, p);
      assert (h + 2) * p == p * h + 2 * p;
    }
  }

  lemma SetWordBit(s: seq<Word>, i: nat, j: nat)
    requires i < |s| && j < 32
    ensures Bit(Val(s), 32 * i + j) == Bit(s[i], j)
    ensures !Bit(s[i], j) ==> s[i] + Pow2(j) < B
                              && Val(s[i := s[i] + Pow2(j)]) == Val(s) + Pow2(32 * i + j)
  {
    BitOfWord(s, i, j);
    if !Bit(s[i], j) {
      BitFits(s[i], j);
      Pow2Words(i, j);
      UpdateWord(s, i, s[i] + Pow2(j));
      UpAdd(s[i], Pow2(j), i);
    }
  }

  lemma UpdateWord(s: seq<Word>, i: nat, w: Word)
    requires i < |s|
    ensures Val(s[i := w]) == Val(s) - Up(s[i], i) + Up(w, i)
  {
    var t := s[i := w];
    ValSplit(s, i + 1);
    ValSplit(t, i + 1);
    ValTake(s, i);
    ValTake(t, i);
    assert s[..i] == t[..i] && s[i + 1..] == t[i + 1..];
  }
}
