/** The word loops of BN_ucmp, BN_uadd and BN_usub, on arrays with an offset: BN_div
    runs them on a window into the middle of a number. */
module Magnitude {
  import opened Words
  import opened Kernels

  /** No leading zero word among the first n. */
  predicate Canon(a: array<Word>, ao: nat, n: nat)
    requires ao + n <= a.Length
    reads a
  {
    n > 0 ==> a[ao + n - 1] != 0
  }

  // ----- leading words

  lemma TopNotZero(s: seq<Word>)
    requires |s| > 0 && Val(s) >= Pow(|s| - 1)
    ensures s[|s| - 1] != 0
  {
    var n := |s| - 1;
    ValTake(s, n);
    assert s[..n + 1] == s;
    ValBound(s[..n]);
    UpZero(n);
  }

  /** A canonical number with more words is larger. */
  lemma LongerIsLarger(s: seq<Word>, t: seq<Word>)
    requires |t| < |s| && s[|s| - 1] != 0
    ensures Val(t) < Val(s)
  {
    ValTop(s);
    ValBound(t);
    PowMono(|t|, |s| - 1);
  }

  /** A canonical number is empty exactly if it is zero. */
  lemma ZeroIsEmpty(s: seq<Word>)
    requires |s| > 0 ==> s[|s| - 1] != 0
    ensures Val(s) == 0 <==> |s| == 0
  {
    if |s| > 0 {
      LongerIsLarger(s, []);
    }
  }

  /** bn_fix_top */
  method FixTop(a: array<Word>, ao: nat, n: nat) returns (top: nat)
    requires ao + n <= a.Length
    ensures top <= n && Canon(a, ao, top)
    ensures forall k :: ao + top <= k < ao + n ==> a[k] == 0
    ensures Val(a[ao..ao + top]) == Val(a[ao..ao + n])
  {
    top := n;
    while top > 0
      invariant 0 <= top <= n
      invariant forall k :: ao + top <= k < ao + n ==> a[k] == 0
    {
      if a[ao + top - 1] != 0 {
        break;
      }
      top := top - 1;
    }
    ghost var s := a[ao..ao + n];
    ValPad(s, top);
    assert s[..top] == a[ao..ao + top];
  }

  /** BN_ucmp, whose loop is the one of bn_cmp_words. Its first operand may have a
      leading zero word if the second has no words, which happens in BN_div. */
  method Compare(a: array<Word>, ao: nat, at: nat, b: array<Word>, bo: nat, bt: nat) returns (c: int)
    requires ao + at <= a.Length && bo + bt <= b.Length
    requires Canon(b, bo, bt) && (Canon(a, ao, at) || bt == 0)
    ensures c < 0 <==> Val(a[ao..ao + at]) < Val(b[bo..bo + bt])
    ensures Canon(a, ao, at) ==> (c == 0 <==> Val(a[ao..ao + at]) == Val(b[bo..bo + bt]))
  {
    c := at - bt;
    if c == 0 {
      c := CmpWords(a, ao, b, bo, at);
    } else if c < 0 {
      LongerIsLarger(b[bo..bo + bt], a[ao..ao + at]);
    } else if a[ao + at - 1] != 0 {
      LongerIsLarger(a[ao..ao + at], b[bo..bo + bt]);
    }
  }

  // ----- copying the words a carry or borrow does not reach

  /** The loop that copies the words that are left; nothing happens in place. */
  method CopyRest(r: array<Word>, ro: nat, a: array<Word>, ao: nat, i0: nat, max: nat)
    requires i0 <= max && ro + max <= r.Length && ao + max <= a.Length
    requires r == a ==> ro == ao
    modifies r
    ensures r[ro + i0..ro + max] == old(a[ao + i0..ao + max])
    ensures forall k :: 0 <= k < r.Length && !(ro + i0 <= k < ro + max) ==> r[k] == old(r[k])
  {
    if r != a {
      ghost var x := a[ao + i0..ao + max];
      var i := i0;
      while i < max
        invariant i0 <= i <= max
        invariant r[ro + i0..ro + i] == x[..i - i0]
        invariant forall k :: 0 <= k < r.Length && !(ro + i0 <= k < ro + i) ==> r[k] == old(r[k])
      {
        assert a[ao + i] == x[i - i0];
        r[ro + i] := a[ao + i];
        i := i + 1;
      }
    }
  }

  lemma TwoParts(r: array<Word>, ro: nat, i: nat, max: nat, s: seq<Word>, t: seq<Word>)
    requires i <= max && ro + max <= r.Length && r[ro..ro + i] == s && r[ro + i..ro + max] == t
    ensures r[ro..ro + max] == s + t
  {
  }

  /** A copying loop between two arrays. */
  method CopyFrom(r: array<Word>, a: array<Word>, ao: nat, n: nat)
    requires n <= r.Length && ao + n <= a.Length && r != a
    modifies r
    ensures r[..n] == a[ao..ao + n]
    ensures forall k :: n <= k < r.Length ==> r[k] == old(r[k])
  {
    var i := 0;
    while i < n
      invariant 0 <= i <= n && r[..i] == a[ao..ao + i]
      invariant forall k :: i <= k < r.Length ==> r[k] == old(r[k])
    {
      r[i] := a[ao + i];
      i := i + 1;
    }
  }

  // ----- BN_usub

  /** Of the words of x the first i are done: with the borrow they are the low words
      of x less those of y. */
  ghost predicate Lowered(s: seq<Word>, borrow: bool, x: seq<Word>, d: int)
    requires |s| <= |x|
  {
    Val(s) - (if borrow then Pow(|s|) else 0) == Val(x[..|s|]) - d
  }

  lemma LoweredNext(s: seq<Word>, x: seq<Word>, d: int)
    requires |s| < |x| && Lowered(s, true, x, d)
    ensures Lowered(s + [Sub(x[|s|], 1)], x[|s|] == 0, x, d)
  {
    var i, l := |s|, Sub(x[|s|], 1);
    ValSnoc(s, l);
    ValTake(x, i);
    BorrowStep(l, if x[i] == 0 then 1 else 0, x[i], 1, 0, i);
    UpZero(i);
    UpZero(i + 1);
  }

  /** A borrow cannot leave the words of a number that is not smaller. */
  lemma LoweredFits(s: seq<Word>, x: seq<Word>, d: int)
    requires |s| <= |x| && Lowered(s, true, x, d) && d <= Val(x)
    ensures |s| < |x|
  {
    if |s| == |x| {
      assert x[..|x|] == x;
      ValBound(s);
    }
  }

  lemma LoweredDone(s: seq<Word>, x: seq<Word>, d: int)
    requires |s| <= |x| && Lowered(s, false, x, d)
    ensures Val(s + x[|s|..]) == Val(x) - d
  {
    ValSplit(x, |s|);
    ValAppend(s, x[|s|..]);
  }

  /** One step of the first loop, which compares the words to find the borrow. */
  method SubStep(t1: Word, t2: Word, carry: bool) returns (l: Word, c: bool)
    ensures l - B * (if c then 1 else 0) == t1 - t2 - if carry then 1 else 0
  {
    if carry {
      c := t1 <= t2;
      l := Sub(Sub(t1, t2), 1);
    } else {
      c := t1 < t2;
      l := Sub(t1, t2);
    }
  }

  /** The first loop of BN_usub: the words both operands have. */
  method SubCommon(r: array<Word>, ro: nat, a: array<Word>, ao: nat, b: array<Word>, bo: nat, min: nat)
    returns (carry: bool)
    requires ro + min <= r.Length && ao + min <= a.Length && bo + min <= b.Length
    requires Readable(r, ro, a, ao, min) && Readable(r, ro, b, bo, min)
    modifies r
    ensures Val(r[ro..ro + min]) - Up(if carry then 1 else 0, min) == old(Val(a[ao..ao + min]) - Val(b[bo..bo + min]))
    ensures forall k :: 0 <= k < r.Length && !(ro <= k < ro + min) ==> r[k] == old(r[k])
  {
    carry := false;
    ghost var x, y, s: seq<Word> := a[ao..ao + min], b[bo..bo + min], [];
    var i := 0;
    while i < min
      invariant i <= min
      invariant forall k :: 0 <= k < r.Length && !(ro <= k < ro + i) ==> r[k] == old(r[k])
      invariant r[ro..ro + i] == s && Difference(s, if carry then 1 else 0, x, y)
    {
      assert a[ao + i] == x[i] && b[bo + i] == y[i];
      var l, c := SubStep(a[ao + i], b[bo + i], carry);
      DifferenceStep(s, if carry then 1 else 0, x, y, l, if c then 1 else 0);
      r[ro + i], carry := l, c;
      s := s + [l];
      i := i + 1;
    }
    assert x[..min] == x && y[..min] == y;
  }

  /** The second loop of BN_usub: the borrow runs up until a word is not zero. */
  method BorrowUp(r: array<Word>, ro: nat, a: array<Word>, ao: nat, min: nat, max: nat, carry0: bool,
                  ghost x: seq<Word>, ghost d: nat) returns (i: nat)
    requires min <= max && ro + max <= r.Length && ao + max <= a.Length
    requires r == a ==> ro == ao
    requires |x| == max && a[ao + min..ao + max] == x[min..] && d <= Val(x)
    requires Lowered(r[ro..ro + min], carry0, x, d)
    modifies r
    ensures min <= i <= max && a[ao + i..ao + max] == x[i..]
    ensures Lowered(r[ro..ro + i], false, x, d)
    ensures forall k :: 0 <= k < r.Length && !(ro <= k < ro + i) ==> r[k] == old(r[k])
  {
    i := min;
    var carry := carry0;
    ghost var s := r[ro..ro + min];
    while carry && i < max
      invariant min <= i <= max
      invariant r[ro..ro + i] == s && Lowered(s, carry, x, d)
      invariant a[ao + i..ao + max] == x[i..]
      invariant forall k :: 0 <= k < r.Length && !(ro <= k < ro + i) ==> r[k] == old(r[k])
      decreases max - i
    {
      carry, s := BorrowWord(r, ro, a, ao, i, max, s, x, d);
      i := i + 1;
    }
    if carry {
      LoweredFits(s, x, d);
    }
  }

  method BorrowWord(r: array<Word>, ro: nat, a: array<Word>, ao: nat, i: nat, max: nat,
                    ghost s: seq<Word>, ghost x: seq<Word>, ghost d: nat) returns (carry: bool, ghost s1: seq<Word>)
    requires i < max == |x| && ro + max <= r.Length && ao + max <= a.Length
    requires r == a ==> ro == ao
    requires r[ro..ro + i] == s && Lowered(s, true, x, d) && a[ao + i..ao + max] == x[i..]
    modifies r
    ensures r[ro..ro + i + 1] == s1 && Lowered(s1, carry, x, d) && a[ao + i + 1..ao + max] == x[i + 1..]
    ensures forall k :: 0 <= k < r.Length && k != ro + i ==> r[k] == old(r[k])
  {
    assert a[ao + i] == x[i];
    LoweredNext(s, x, d);
    ghost var rest := a[ao + i + 1..ao + max];
    assert rest == x[i + 1..];
    var t1 := a[ao + i];
    var t2 := Sub(t1, 1);
    r[ro + i] := t2;
    assert a[ao + i + 1..ao + max] == rest;
    s1 := s + [t2];
    carry := !(t1 > t2);
  }

  /** BN_usub without the growing of r: r becomes a - b, and its leading zero words
      are dropped from its length only. */
  method USub(r: array<Word>, ro: nat, a: array<Word>, ao: nat, max: nat, b: array<Word>, bo: nat, min: nat)
    returns (top: nat)
    requires min <= max && ro + max <= r.Length && ao + max <= a.Length && bo + min <= b.Length
    requires (r == a ==> ro == ao) && (r == b ==> ro == bo)
    requires Val(b[bo..bo + min]) <= Val(a[ao..ao + max])
    modifies r
    ensures top <= max && Canon(r, ro, top)
    ensures Val(r[ro..ro + top]) == old(Val(a[ao..ao + max]) - Val(b[bo..bo + min]))
    ensures forall k :: ro + top <= k < ro + max ==> r[k] == 0
    ensures forall k :: 0 <= k < r.Length && !(ro <= k < ro + max) ==> r[k] == old(r[k])
  {
    ghost var x, d := a[ao..ao + max], Val(b[bo..bo + min]);
    assert a[ao..ao + min] == x[..min];
    var carry := SubCommon(r, ro, a, ao, b, bo, min);
    UpZero(min);
    SubRest(r, ro, a, ao, min, max, carry, x, d);
    top := FixTop(r, ro, max);
  }

  method SubRest(r: array<Word>, ro: nat, a: array<Word>, ao: nat, min: nat, max: nat, carry: bool,
                 ghost x: seq<Word>, ghost d: nat)
    requires min <= max && ro + max <= r.Length && ao + max <= a.Length
    requires r == a ==> ro == ao
    requires |x| == max && a[ao + min..ao + max] == x[min..] && d <= Val(x)
    requires Lowered(r[ro..ro + min], carry, x, d)
    modifies r
    ensures Val(r[ro..ro + max]) == Val(x) - d
    ensures forall k :: 0 <= k < r.Length && !(ro <= k < ro + max) ==> r[k] == old(r[k])
  {
    var i := BorrowUp(r, ro, a, ao, min, max, carry, x, d);
    ghost var s := r[ro..ro + i];
    LoweredDone(s, x, d);
    CopyRest(r, ro, a, ao, i, max);
    assert r[ro..ro + i] == s;
    TwoParts(r, ro, i, max, s, x[i..]);
  }

  // ----- BN_uadd

  /** The second loop of BN_uadd: the carry runs up until a word does not wrap. */
  method CarryUp(r: array<Word>, ro: nat, a: array<Word>, ao: nat, min: nat, max: nat, carry0: bool,
                 ghost x: seq<Word>, ghost d: nat) returns (i: nat, carry: bool)
    requires min <= max && ro + max <= r.Length && ao + max <= a.Length
    requires r == a ==> ro == ao
    requires |x| == max && a[ao + min..ao + max] == x[min..]
    requires Carried(r[ro..ro + min], carry0, x, d)
    modifies r
    ensures min <= i <= max && a[ao + i..ao + max] == x[i..]
    ensures Carried(r[ro..ro + i], carry, x, d) && (carry ==> i == max)
    ensures forall k :: 0 <= k < r.Length && !(ro <= k < ro + i) ==> r[k] == old(r[k])
  {
    i := min;
    carry := carry0;
    ghost var s := r[ro..ro + min];
    while carry && i < max
      invariant min <= i <= max
      invariant r[ro..ro + i] == s && Carried(s, carry, x, d)
      invariant a[ao + i..ao + max] == x[i..]
      invariant forall k :: 0 <= k < r.Length && !(ro <= k < ro + i) ==> r[k] == old(r[k])
      decreases max - i
    {
      carry, s := CarryWord(r, ro, a, ao, i, max, s, x, d);
      i := i + 1;
    }
  }

  method CarryWord(r: array<Word>, ro: nat, a: array<Word>, ao: nat, i: nat, max: nat,
                   ghost s: seq<Word>, ghost x: seq<Word>, ghost d: nat) returns (carry: bool, ghost s1: seq<Word>)
    requires i < max == |x| && ro + max <= r.Length && ao + max <= a.Length
    requires r == a ==> ro == ao
    requires r[ro..ro + i] == s && Carried(s, true, x, d) && a[ao + i..ao + max] == x[i..]
    modifies r
    ensures r[ro..ro + i + 1] == s1 && Carried(s1, carry, x, d) && a[ao + i + 1..ao + max] == x[i + 1..]
    ensures forall k :: 0 <= k < r.Length && k != ro + i ==> r[k] == old(r[k])
  {
    assert a[ao + i] == x[i];
    CarriedNext(s, x, d);
    ghost var rest := a[ao + i + 1..ao + max];
    assert rest == x[i + 1..];
    var t1 := a[ao + i];
    var t2 := Add(t1, 1);
    r[ro + i] := t2;
    assert a[ao + i + 1..ao + max] == rest;
    s1 := s + [t2];
    carry := !(t2 >= t1);
  }

  /** What bn_add_words says of the low words, for the carry loop above them. */
  lemma CarryStarts(s: seq<Word>, c: Word, x: seq<Word>, d: int)
    requires |s| <= |x| && c <= 1 && Val(s) + Up(c, |s|) == Val(x[..|s|]) + d
    ensures Carried(s, c != 0, x, d)
  {
    UpZero(|s|);
  }

  /** With a carry left over all max words are done and a word 1 is the top of the sum. */
  lemma CarryOnTop(s: seq<Word>, x: seq<Word>, d: int)
    requires |s| == |x| && Carried(s, true, x, d)
    ensures Val(s + [1]) == Val(x) + d
  {
    assert x[..|x|] == x;
    ValSnoc(s, 1);
  }

  /** A sum has no leading zero word if its longer operand has none. */
  lemma SumCanonical(s: seq<Word>, x: seq<Word>)
    requires |s| == |x| && Val(s) >= Val(x) && (|x| > 0 ==> x[|x| - 1] != 0)
    ensures |s| > 0 ==> s[|s| - 1] != 0
  {
    if |s| > 0 {
      ValTop(x);
      TopNotZero(s);
    }
  }

  /** BN_uadd without the growing of r: r becomes a + b. */
  method UAdd(r: array<Word>, ro: nat, a: array<Word>, ao: nat, max: nat, b: array<Word>, bo: nat, min: nat)
    returns (top: nat)
    requires min <= max && ro + max + 1 <= r.Length && ao + max <= a.Length && bo + min <= b.Length
    requires (r == a ==> ro == ao) && (r == b ==> ro == bo) && Canon(a, ao, max)
    modifies r
    ensures max <= top <= max + 1 && Canon(r, ro, top)
    ensures Val(r[ro..ro + top]) == old(Val(a[ao..ao + max]) + Val(b[bo..bo + min]))
    ensures forall k :: 0 <= k < r.Length && !(ro <= k < ro + max + 1) ==> r[k] == old(r[k])
  {
    ghost var x, d := a[ao..ao + max], Val(b[bo..bo + min]);
    ghost var rest := a[ao + min..ao + max];
    assert a[ao..ao + min] == x[..min] && rest == x[min..];
    var c := AddWords(r, ro, a, ao, b, bo, min);
    CarryStarts(r[ro..ro + min], c, x, d);
    assert a[ao + min..ao + max] == rest;
    top := AddRest(r, ro, a, ao, min, max, c != 0, x, d);
  }

  method AddRest(r: array<Word>, ro: nat, a: array<Word>, ao: nat, min: nat, max: nat, carry0: bool,
                 ghost x: seq<Word>, ghost d: nat) returns (top: nat)
    requires min <= max && ro + max + 1 <= r.Length && ao + max <= a.Length
    requires r == a ==> ro == ao
    requires |x| == max && a[ao + min..ao + max] == x[min..] && (max > 0 ==> x[max - 1] != 0)
    requires Carried(r[ro..ro + min], carry0, x, d)
    modifies r
    ensures max <= top <= max + 1 && Canon(r, ro, top)
    ensures Val(r[ro..ro + top]) == Val(x) + d
    ensures forall k :: 0 <= k < r.Length && !(ro <= k < ro + max + 1) ==> r[k] == old(r[k])
  {
    var i, carry := CarryUp(r, ro, a, ao, min, max, carry0, x, d);
    if i >= max && carry {
      top := max + 1;
      TopCarry(r, ro, max, x, d);
    } else {
      top := max;
      SumRest(r, ro, a, ao, i, max, x, d);
    }
  }

  method TopCarry(r: array<Word>, ro: nat, max: nat, ghost x: seq<Word>, ghost d: nat)
    requires ro + max + 1 <= r.Length && |x| == max && Carried(r[ro..ro + max], true, x, d)
    modifies r
    ensures Val(r[ro..ro + max + 1]) == Val(x) + d && r[ro + max] == 1
    ensures forall k :: 0 <= k < r.Length && k != ro + max ==> r[k] == old(r[k])
  {
    ghost var s := r[ro..ro + max];
    CarryOnTop(s, x, d);
    r[ro + max] := 1;
    assert r[ro..ro + max + 1] == s + [1];
  }

  method SumRest(r: array<Word>, ro: nat, a: array<Word>, ao: nat, i: nat, max: nat, ghost x: seq<Word>, ghost d: nat)
    requires i <= max && ro + max <= r.Length && ao + max <= a.Length && |x| == max
    requires r == a ==> ro == ao
    requires Carried(r[ro..ro + i], false, x, d) && a[ao + i..ao + max] == x[i..] && (max > 0 ==> x[max - 1] != 0)
    modifies r
    ensures Val(r[ro..ro + max]) == Val(x) + d && Canon(r, ro, max)
    ensures forall k :: 0 <= k < r.Length && !(ro + i <= k < ro + max) ==> r[k] == old(r[k])
  {
    ghost var s := r[ro..ro + i];
    CarriedDone(s, x, d);
    CopyRest(r, ro, a, ao, i, max);
    assert r[ro..ro + i] == s;
    TwoParts(r, ro, i, max, s, x[i..]);
    ghost var t := r[ro..ro + max];
    SumCanonical(t, x);
    assert max > 0 ==> t[max - 1] == r[ro + max - 1];
  }

  // ----- arithmetic with a word

  /** What bn_mul_words says of a canonical number: with its carry, if there is one,
      the product is canonical too. */
  lemma TimesWord(s: seq<Word>, ll: Word, x: seq<Word>, w: Word)
    requires |s| == |x| > 0 && x[|x| - 1] != 0 && w != 0
    requires Val(s) + Up(ll, |s|) == w * Val(x)
    ensures if ll == 0 then Val(s) == Val(x) * w && s[|s| - 1] != 0 else Val(s + [ll]) == Val(x) * w
  {
    var v := Val(x);
    MulEqual(w, v, v);
    MulMono(1, w, v);
    if ll == 0 {
      UpZero(|s|);
      SumCanonical(s, x);
    } else {
      ValSnoc(s, ll);
    }
  }

  lemma AddWordFirst(x: seq<Word>, w: Word)
    requires |x| > 0
    ensures Carried([Add(x[0], w)], w > Add(x[0], w), x, w)
  {
    CarriedFirst(x, w);
  }

  /** The loop of BN_add_word over the n words of a: word i is the last one changed,
      and the sum has a word more than a if i is n. */
  method AddWord(a: array<Word>, n: nat, w0: Word) returns (i: nat)
    requires n < a.Length
    modifies a
    ensures i <= n
    ensures Val(a[..if i == n then n + 1 else n]) == old(Val(a[..n])) + w0
    ensures i == n > 0 ==> a[n] == 1
  {
    ghost var x := a[..n];
    var w := w0;
    i := 0;
    ghost var s: seq<Word> := [];
    while i < n
      invariant 0 <= i <= n && a[i..n] == x[i..] && a[..i] == s
      invariant if i == 0 then w == w0 else w == 1 && Carried(s, true, x, w0)
    {
      var l;
      l, s := AddWordStep(a, n, i, w, x, s, w0);
      if w <= l {
        CarriedDone(s, x, w0);
        assert a[..n] == s + x[i + 1..];
        return;
      }
      w := 1;
      i := i + 1;
    }
    AddWordTop(a, n, w, x, s, w0);
  }

  method AddWordStep(a: array<Word>, n: nat, i: nat, w: Word, ghost x: seq<Word>, ghost s: seq<Word>, ghost w0: Word)
    returns (l: Word, ghost s1: seq<Word>)
    requires i < n <= a.Length && |x| == n && a[i..n] == x[i..] && a[..i] == s
    requires if i == 0 then w == w0 else w == 1 && Carried(s, true, x, w0)
    modifies a
    ensures a[..i + 1] == s1 && a[i + 1..n] == x[i + 1..]
    ensures Carried(s1, w > l, x, w0)
  {
    assert a[i] == x[i] && a[i + 1..n] == x[i + 1..];
    l := Add(a[i], w);
    if i == 0 {
      AddWordFirst(x, w0);
    } else {
      CarriedNext(s, x, w0);
    }
    a[i] := l;
    s1 := s + [l];
    assert a[i + 1..n] == x[i + 1..];
  }

  method AddWordTop(a: array<Word>, n: nat, w: Word, ghost x: seq<Word>, ghost s: seq<Word>, ghost w0: Word)
    requires n < a.Length && |x| == n && a[..n] == s
    requires if n == 0 then w == w0 else w == 1 && Carried(s, true, x, w0)
    modifies a
    ensures Val(a[..n + 1]) == Val(x) + w0 && a[n] == w
  {
    if n > 0 {
      CarryOnTop(s, x, w0);
    } else {
      Val1(w);
    }
    a[n] := w;
    assert a[..n + 1] == s + [w];
  }

  lemma SubWordFirst(x: seq<Word>, w: Word)
    requires |x| > 0
    ensures Lowered([Sub(x[0], w)], x[0] < w, x, w)
  {
    assert x[..1] == [x[0]];
    Val1(x[0]);
    Val1(Sub(x[0], w));
  }

  /** The loop of BN_sub_word: word i is the last one changed, and it is the only one
      that can have become zero. */
  method SubWord(a: array<Word>, n: nat, w0: Word) returns (i: nat)
    requires 0 < n <= a.Length && w0 <= Val(a[..n])
    modifies a
    ensures i < n
    ensures Val(a[..n]) == old(Val(a[..n])) - w0
    ensures a[i + 1..n] == old(a[i + 1..n])
    ensures i > 0 ==> a[i - 1] != 0
  {
    ghost var x := a[..n];
    var w := w0;
    i := 0;
    ghost var s: seq<Word> := [];
    while a[i] < w
      invariant 0 <= i < n && a[i..n] == x[i..] && a[..i] == s
      invariant if i == 0 then w == w0 else w == 1 && Lowered(s, true, x, w0) && a[i - 1] != 0
      decreases n - i
    {
      s := SubWordStep(a, n, i, w, x, s, w0);
      i := i + 1;
      w := 1;
      LoweredFits(s, x, w0);
    }
    assert a[i] == x[i];
    if i == 0 {
      SubWordFirst(x, w0);
    } else {
      LoweredNext(s, x, w0);
    }
    var l := a[i] - w;
    a[i] := l;
    s := s + [l];
    LoweredDone(s, x, w0);
    assert a[..n] == s + x[i + 1..];
  }

  /** A step that borrows. */
  method SubWordStep(a: array<Word>, n: nat, i: nat, w: Word, ghost x: seq<Word>, ghost s: seq<Word>, ghost w0: Word)
    returns (ghost s1: seq<Word>)
    requires i < n <= a.Length && |x| == n && a[i..n] == x[i..] && a[..i] == s && a[i] < w
    requires if i == 0 then w == w0 else w == 1 && Lowered(s, true, x, w0)
    modifies a
    ensures a[..i + 1] == s1 && a[i + 1..n] == x[i + 1..] && a[i] != 0
    ensures Lowered(s1, true, x, w0)
  {
    assert a[i] == x[i] && a[i + 1..n] == x[i + 1..];
    if i == 0 {
      SubWordFirst(x, w0);
    } else {
      LoweredNext(s, x, w0);
    }
    var l := Sub(a[i], w);
    a[i] := l;
    s1 := s + [l];
    assert a[i + 1..n] == x[i + 1..];
  }
}
