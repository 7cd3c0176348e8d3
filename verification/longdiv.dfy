/** The rounds of BN_div on word arrays. */
module LongDivision {
  import opened Words
  import opened Kernels
  import opened Magnitude
  import opened Window

  /** The quotient words so far and the remainder in the window account for the words
      x of the dividend that the window has passed. */
  ghost predicate Accounts(x: seq<Word>, r: nat, d: nat, q: seq<Word>) {
    Val(x) == r + d * Val(q)
  }

  lemma AccountsNext(w: Word, x: seq<Word>, r: nat, d: nat, q: seq<Word>, digit: Word, r1: nat)
    requires Accounts(x, r, d, q) && w + B * r == digit * d + r1
    ensures Accounts([w] + x, r1, d, [digit] + q)
  {
    ValCons(w, x);
    ValCons(digit, q);
    SumOfDigits(digit, d, Val(q));
  }

  lemma SumOfDigits(digit: int, d: int, q: int)
    ensures d * (digit + B * q) == digit * d + B * (d * q)
  {
  }

  /** The words of a number are less than twice those of as long a number whose top
      bit is set. */
  lemma BelowTwice(w: seq<Word>, d: seq<Word>)
    requires |w| == |d| > 0 && T <= d[|d| - 1]
    ensures Val(w) < 2 * Val(d)
  {
    var n := |d| - 1;
    ValTake(d, n);
    assert d[..n + 1] == d;
    UpMono(T, d[n], n);
    UpAdd(T, T, n);
    UpNext(1, n);
    ValBound(w);
  }

  lemma FirstDigit(x: nat, d: nat, r: nat, one: seq<Word>)
    requires d <= x < 2 * d && r == x - d && one == [1]
    ensures r < d && r + d * Val(one) == x
  {
    Val1(1);
  }

  /** The subtraction before the first round, if the top of the dividend is not below
      the divisor: the quotient then has its top word, a one. */
  method First(s: array<Word>, loop: nat, n: nat, d: array<Word>, res: array<Word>) returns (rt: nat, k: nat)
    requires 0 < loop && 0 < n && loop + n <= s.Length && n <= d.Length && loop <= res.Length
    requires s != d && s != res && res != d && s[loop + n - 1] != 0 && T <= d[n - 1]
    modifies s, res
    ensures loop - 1 <= rt <= loop && (rt == loop ==> res[loop - 1] == 1)
    ensures InUse(s, loop, n, k) && Canon(s, loop, k) && Val(s[loop..loop + n]) < Val(d[..n])
    ensures Accounts(old(s[loop..loop + n]), Val(s[loop..loop + n]), Val(d[..n]), res[loop - 1..rt])
    ensures forall j :: 0 <= j < s.Length && !(loop <= j < loop + n) ==> s[j] == old(s[j])
  {
    ghost var x := s[loop..loop + n];
    assert d[0..0 + n] == d[..n];
    var c := Compare(s, loop, n, d, 0, n);
    if c >= 0 {
      BelowTwice(x, d[..n]);
      k := USub(s, loop, s, loop, n, d, 0, n);
      InUseValue(s, loop, n, k);
      res[loop - 1] := 1;
      rt := loop;
      assert res[loop - 1..rt] == [1];
      FirstDigit(Val(x), Val(d[..n]), Val(s[loop..loop + n]), res[loop - 1..rt]);
    } else {
      rt, k := loop - 1, n;
      assert res[loop - 1..rt] == [];
    }
  }

  /** What holds of the window at word o of the dividend's m words. */
  ghost predicate At(s: array<Word>, m: nat, o: nat, n: nat, k: nat, d: seq<Word>)
    requires o + n <= m <= s.Length
    reads s
  {
    && InUse(s, o, n, k) && Canon(s, o, k)
    && Val(s[o..o + n]) < Val(d)
    && (forall j :: o + n <= j < m ==> s[j] == 0)
  }

  /** The rounds after the first subtraction, down to the word above the lowest. The
      length st of the dividend follows the window's; it keeps the leading zero words
      of the first subtraction. */
  method Rounds(s: array<Word>, loop: nat, n: nat, k0: nat, d: array<Word>, t: array<Word>, res: array<Word>, rt: nat,
                ghost x: seq<Word>, ghost y: seq<Word>) returns (st: nat, k: nat)
    requires 0 < loop && 0 < n <= d.Length && loop + n <= s.Length && n + 1 <= t.Length
    requires loop - 1 <= rt <= loop <= res.Length && T <= d[n - 1]
    requires s != d && s != t && s != res && d != t && d != res && t != res
    requires d[..n] == y && |x| == loop + n && s[..loop] == x[..loop] && At(s, loop + n, loop, n, k0, y)
    requires Accounts(x[loop..], Val(s[loop..loop + n]), Val(y), res[loop - 1..rt])
    modifies s, t, res
    ensures d[..n] == y && s[..1] == x[..1] && At(s, loop + n, 1, n, k, y)
    ensures Accounts(x[1..], Val(s[1..1 + n]), Val(y), res[0..rt])
    ensures 1 + k <= st <= loop + n
    ensures rt == loop ==> res[loop - 1] == old(res[loop - 1])
  {
    k, st := k0, loop + n;
    var o, m := loop, st;
    ghost var w := res[loop - 1];
    while o > 1
      invariant 1 <= o <= loop && o + k <= st <= m
      invariant d[..n] == y && s[..o] == x[..o] && At(s, m, o, n, k, y)
      invariant Accounts(x[o..], Val(s[o..o + n]), Val(y), res[o - 1..rt])
      invariant rt == loop ==> res[loop - 1] == w
    {
      var top := Step(s, m, o, n, k, d, t, res, rt, x, y);
      st := st + top - (k + 1);
      o, k := o - 1, top;
    }
  }

  /** A round below word h of the dividend and the digit it adds to the quotient. */
  method Step(s: array<Word>, m: nat, h: nat, n: nat, k: nat, d: array<Word>, t: array<Word>, res: array<Word>, rt: nat,
              ghost x: seq<Word>, ghost y: seq<Word>) returns (top: nat)
    requires 1 < h <= rt + 1 <= res.Length + 1 && h + n <= m <= s.Length && |x| == m
    requires s != d && s != t && s != res && d != t && d != res && t != res
    requires 0 < n <= d.Length && T <= d[n - 1] && n + 1 <= t.Length
    requires d[..n] == y && s[..h] == x[..h] && At(s, m, h, n, k, y)
    requires Accounts(x[h..], Val(s[h..h + n]), Val(y), res[h - 1..rt])
    modifies s, t, res
    ensures d[..n] == y && s[..h - 1] == x[..h - 1] && At(s, m, h - 1, n, top, y) && top <= k + 1
    ensures Accounts(x[h - 1..], Val(s[h - 1..h - 1 + n]), Val(y), res[h - 2..rt])
    ensures forall j :: 0 <= j < res.Length && j != h - 2 ==> res[j] == old(res[j])
  {
    var o := h - 1;
    ghost var r, w := Val(s[h..h + n]), s[o];
    assert w == s[..h][o] == x[o];
    var q;
    q, top := RoundAt(s, m, o, n, k, d, t, x);
    Store(res, o - 1, q, rt, w, x[h..], r, Val(y), Val(s[o..o + n]));
    assert [w] + x[h..] == x[o..];
  }

  /** A round at word o of the dividend. */
  method RoundAt(s: array<Word>, m: nat, o: nat, n: nat, k: nat, d: array<Word>, t: array<Word>, ghost x: seq<Word>)
    returns (q: Word, top: nat)
    requires 0 < o && o + 1 + n <= m <= s.Length && s != t && s != d && t != d
    requires 0 < n <= d.Length && T <= d[n - 1] && n + 1 <= t.Length
    requires At(s, m, o + 1, n, k, d[..n]) && |x| == m && s[..o + 1] == x[..o + 1]
    modifies s, t
    ensures d[..n] == old(d[..n]) && At(s, m, o, n, top, d[..n]) && top <= k + 1
    ensures old(s[o] + B * Val(s[o + 1..o + 1 + n])) == q * Val(d[..n]) + Val(s[o..o + n])
    ensures s[..o] == x[..o]
  {
    assert s[..o] == s[..o + 1][..o];
    q, top := Round(s, o, n, k, d, t);
  }

  /** The digit joins the quotient above it. */
  method Store(res: array<Word>, i: nat, q: Word, rt: nat,
               ghost w: Word, ghost x: seq<Word>, ghost r: nat, ghost d: nat, ghost r1: nat)
    requires i < rt <= res.Length
    requires Accounts(x, r, d, res[i + 1..rt]) && w + B * r == q * d + r1
    modifies res
    ensures Accounts([w] + x, r1, d, res[i..rt])
    ensures forall j :: 0 <= j < res.Length && j != i ==> res[j] == old(res[j])
  {
    ghost var rest := res[i + 1..rt];
    AccountsNext(w, x, r, d, rest, q, r1);
    res[i] := q;
    assert res[i..rt] == [q] + rest;
  }

  // ----- the whole division

  /** A quotient one word shorter than the window's way has no leading zero word. */
  lemma QuotientTop(x: seq<Word>, r: nat, d: seq<Word>, q: seq<Word>)
    requires |x| == |d| + |q| && |q| > 0 && x[|x| - 1] != 0
    requires Accounts(x, r, Val(d), q) && r < Val(d)
    ensures q[|q| - 1] != 0
  {
    ValTop(x);
    ValBound(d);
    PowAdd(|d|, |q| - 1);
    PowPos(|q| - 1);
    QuotientLow(Val(d), Val(q), r, Pow(|d|), Pow(|q| - 1));
    TopNotZero(q);
  }

  lemma QuotientLow(d: nat, q: nat, r: int, p: int, p1: int)
    requires 0 < p1 && r < d < p && p * p1 <= r + d * q
    ensures p1 <= q
  {
    if q < p1 {
      MulMono(q + 1, p1, d);
      MulMono(d, p, p1);
    }
  }

  /** The dividend ends as the remainder moved up by the word that was never divided. */
  lemma RemainderWords(s: seq<Word>, n: nat, k: nat, st: nat)
    requires 1 + n <= |s| && s[0] == 0 && 1 + k <= st <= |s|
    requires forall j :: 1 + k <= j < |s| ==> s[j] == 0
    requires k <= n
    ensures Val(s[..st]) == B * Val(s[1..1 + n])
  {
    ValPad(s[..st], 1 + k);
    ValPad(s[1..1 + n], k);
    assert s[..st][..1 + k] == [s[0]] + s[1..1 + n][..k];
    ValCons(s[0], s[1..1 + n][..k]);
  }

  /** The division of the words of s but the lowest, which is zero, by the n words of
      d: res receives the quotient and s the remainder. */
  method Divide(s: array<Word>, m: nat, n: nat, d: array<Word>, t: array<Word>, res: array<Word>)
    returns (rt: nat, st: nat, ghost r: nat)
    requires 0 < n < m <= s.Length && n <= d.Length && n + 1 <= t.Length && m - n <= res.Length
    requires s != d && s != t && s != res && d != t && d != res && t != res
    requires T <= d[n - 1] && s[m - 1] != 0 && s[0] == 0
    modifies s, t, res
    ensures rt <= m - n && st <= m && Val(s[..st]) == B * r
    ensures r < old(Val(d[..n])) && old(Val(s[1..m])) == r + old(Val(d[..n])) * Val(res[..rt])
    ensures Canon(res, 0, rt)
  {
    var loop := m - n;
    ghost var x, y := s[..m], d[..n];
    assert x[1..] == s[1..m] && x[loop..] == s[loop..loop + n];
    var k, k1;
    rt, k := First(s, loop, n, d, res);
    assert d[..n] == y && s[..loop] == x[..loop];
    st, k1 := Rounds(s, loop, n, k, d, t, res, rt, x, y);
    assert s[0] == s[..1][0] == x[..1][0];
    assert res[0..rt] == res[..rt];
    r := Finished(s, m, n, k1, st, y, x, res, rt);
  }

  /** What the state after the last round says. */
  lemma Finished(s: array<Word>, m: nat, n: nat, k: nat, st: nat, d: seq<Word>, x: seq<Word>, res: array<Word>, rt: nat)
    returns (r: nat)
    requires 0 < n < m <= s.Length && m - n - 1 <= rt <= m - n <= res.Length && |x| == m && |d| == n
    requires At(s, m, 1, n, k, d) && s[0] == 0 && x[m - 1] != 0 && 1 + k <= st <= m
    requires Accounts(x[1..], Val(s[1..1 + n]), Val(d), res[..rt])
    requires rt == m - n ==> res[rt - 1] == 1
    ensures Val(s[..st]) == B * r && r < Val(d) && Val(x[1..]) == r + Val(d) * Val(res[..rt])
    ensures Canon(res, 0, rt)
  {
    r := Val(s[1..1 + n]);
    RemainderWords(s[..m], n, k, st);
    assert s[..m][1..1 + n] == s[1..1 + n] && s[..m][..st] == s[..st];
    if rt == m - n - 1 && rt > 0 {
      QuotientTop(x[1..], r, d, res[..rt]);
    }
  }
}
