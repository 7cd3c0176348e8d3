/** Machine words of the portable 32-bit configuration and the number a
    little-endian sequence of words stands for. */
module Words {
  const B: int := 0x1_0000_0000 // one more than BN_MASK2
  const H: int := 0x1_0000      // one more than BN_MASK2l
  const T: int := 0x8000_0000   // BN_TBIT

  type Word = x: int | 0 <= x < B
  type Half = x: int | 0 <= x < H

  /** Unsigned addition and subtraction as the C operators perform them, modulo B. */
  function Add(x: Word, y: Word): (r: Word) {
    if x + y < B then x + y else x + y - B
  }

  function Sub(x: Word, y: Word): (r: Word) {
    if x >= y then x - y else x - y + B
  }

  /** LBITS and HBITS: the two halves of a word. */
  function Lo(x: Word): (r: Half) {
    x % H
  }

  function Hi(x: Word): (r: Half)
    ensures x == H * r + Lo(x)
  {
    x / H
  }

  lemma WrapsLikeC(x: Word, y: Word)
    ensures Add(x, y) == (x + y) % B && Sub(x, y) == (x - y) % B
  {
  }

  // ----- arithmetic facts used one at a time

  lemma MulMono(x: int, y: int, z: int)
    requires 0 <= z && x <= y
    ensures x * z <= y * z
  {
  }

  lemma MulMonoStrict(x: int, y: int, z: int)
    requires 0 < z && x < y
    ensures x * z < y * z
  {
  }

  /** The product of two words as the C operator computes it. */
  function LowProduct(x: Word, y: Word): Word {
    (x * y) % B
  }

  lemma MulNonNeg(x: int, y: int)
    requires 0 <= x && 0 <= y
    ensures 0 <= x * y
  {
  }

  lemma MulAssoc(x: int, y: int, z: int)
    ensures (x * y) * z == x * (y * z)
  {
  }

  lemma MulEqual(p: int, v: int, e: int)
    requires v == e
    ensures p * v == e * p
  {
  }

  lemma Distrib(x: int, y: int, z: int)
    ensures (x + y) * z == x * z + y * z
    ensures (x - y) * z == x * z - y * z
  {
  }

  lemma Spread(x: int, y: int, z: int)
    ensures x * (y + z) == x * y + x * z
    ensures x * (y - z) == x * y - x * z
  {
  }

  /** A factor that keeps a product inside an open interval of one unit is zero. */
  lemma UnitMultiple(k: int, p: int)
    requires 0 < p && -p < k * p < p
    ensures k == 0
  {
    if k >= 1 {
      MulMono(1, k, p);
    } else if k <= -1 {
      MulMono(k, -1, p);
    }
  }

  /** Quotient and remainder are determined by the division equation. */
  lemma DivModUnique(x: int, d: int, q: int, r: int)
    requires 0 < d && 0 <= r < d && x == q * d + r
    ensures x / d == q && x % d == r
  {
    var k := q - x / d;
    assert x == d * (x / d) + x % d;
    Distrib(q, x / d, d);
    assert k * d == x % d - r;
    UnitMultiple(k, d);
  }

  lemma DivideExact(x: int, d: int, q: int, r: int)
    requires 0 < d && 0 <= r < d && x == r + d * q
    ensures x / d == q && x % d == r
  {
    DivModUnique(x, d, q, r);
  }

  // ----- moving a number up by whole words

  /** x times B to the n. */
  function Up(x: int, n: nat): int {
    if n == 0 then x else B * Up(x, n - 1)
  }

  function Pow(n: nat): (p: int) {
    Up(1, n)
  }

  lemma {:induction false} UpAdd(x: int, y: int, n: nat)
    ensures Up(x + y, n) == Up(x, n) + Up(y, n)
    ensures Up(x - y, n) == Up(x, n) - Up(y, n)
  {
    if n != 0 {
      UpAdd(x, y, n - 1);
    }
  }

  lemma {:induction false} UpNext(x: int, n: nat)
    ensures Up(B * x, n) == Up(x, n + 1)
  {
    if n != 0 {
      UpNext(x, n - 1);
    }
  }

  lemma {:induction false} UpUp(x: int, m: nat, n: nat)
    ensures Up(Up(x, m), n) == Up(x, m + n)
  {
    if n != 0 {
      UpUp(x, m, n - 1);
    }
  }

  lemma {:induction false} UpMono(x: int, y: int, n: nat)
    ensures x <= y ==> Up(x, n) <= Up(y, n)
    ensures x < y ==> Up(x, n) < Up(y, n)
  {
    if n != 0 {
      UpMono(x, y, n - 1);
    }
  }

  lemma {:induction false} UpZero(n: nat)
    ensures Up(0, n) == 0
  {
    if n != 0 {
      UpZero(n - 1);
    }
  }

  lemma {:induction false} UpMul(w: int, x: int, n: nat)
    ensures w * Up(x, n) == Up(w * x, n)
  {
    if n != 0 {
      UpMul(w, x, n - 1);
      assert w * (B * Up(x, n - 1)) == B * (w * Up(x, n - 1));
    }
  }

  /** What Up is in terms of multiplication. */
  lemma UpPow(x: int, n: nat)
    ensures Up(x, n) == x * Pow(n)
  {
    UpMul(x, 1, n);
  }

  lemma UpProduct(x: int, y: int, n: nat)
    ensures Up(x, n) * Up(y, n) == Up(Up(x * y, n), n) == Up(x * y, n + n)
  {
    UpMul(Up(x, n), y, n);
    UpMul(y, x, n);
    MulEqual(y, x, x);
    MulEqual(y, Up(x, n), Up(x, n));
    UpUp(x * y, n, n);
  }

  lemma PowPos(n: nat)
    ensures 0 < Pow(n)
  {
    UpMono(0, 1, n);
    UpZero(n);
  }

  lemma PowAdd(m: nat, n: nat)
    ensures Pow(m + n) == Up(Pow(m), n) == Pow(m) * Pow(n)
  {
    UpUp(1, m, n);
    UpPow(Pow(m), n);
  }

  lemma PowMono(m: nat, n: nat)
    requires m <= n
    ensures Pow(m) <= Pow(n)
  {
    PowPos(n - m);
    UpMono(1, Pow(n - m), m);
    UpUp(1, n - m, m);
  }

  /** A multiple of a power that stays below the next multiple is none. */
  lemma UpUnit(x: int, n: nat)
    requires -Pow(n) < Up(x, n) < Pow(n)
    ensures x == 0
  {
    UpMono(x, 1, n);
    UpMono(1, x, n);
    UpMono(x, -1, n);
    UpMono(-1, x, n);
    UpAdd(0, 1, n);
    UpZero(n);
  }

  // ----- the value of a sequence of words, least significant first

  function Val(s: seq<Word>): (v: nat) {
    if |s| == 0 then 0 else s[0] + B * Val(s[1..])
  }

  lemma ValCons(x: Word, s: seq<Word>)
    ensures Val([x] + s) == x + B * Val(s)
  {
    assert ([x] + s)[1..] == s;
  }

  lemma Val1(x: Word)
    ensures Val([x]) == x
  {
  }

  lemma Val2(l: Word, h: Word)
    ensures Val([l, h]) == l + B * h
  {
    assert [l, h] == [l] + [h];
    ValCons(l, [h]);
    Val1(h);
  }

  lemma {:induction false} ValAppend(s: seq<Word>, t: seq<Word>)
    ensures Val(s + t) == Val(s) + Up(Val(t), |s|)
  {
    if |s| == 0 {
      assert s + t == t;
    } else {
      assert s + t == [s[0]] + (s[1..] + t);
      ValCons(s[0], s[1..] + t);
      ValAppend(s[1..], t);
    }
  }

  lemma ValSnoc(s: seq<Word>, x: Word)
    ensures Val(s + [x]) == Val(s) + Up(x, |s|)
  {
    ValAppend(s, [x]);
    Val1(x);
  }

  lemma ValTake(s: seq<Word>, i: nat)
    requires i < |s|
    ensures Val(s[..i + 1]) == Val(s[..i]) + Up(s[i], i)
  {
    assert s[..i + 1] == s[..i] + [s[i]];
    ValSnoc(s[..i], s[i]);
  }

  lemma ValSplit(s: seq<Word>, i: nat)
    requires i <= |s|
    ensures Val(s) == Val(s[..i]) + Up(Val(s[i..]), i)
  {
    assert s == s[..i] + s[i..];
    ValAppend(s[..i], s[i..]);
  }

  lemma {:induction false} ValBound(s: seq<Word>)
    ensures Val(s) < Pow(|s|)
  {
    if |s| != 0 {
      ValBound(s[1..]);
    }
  }

  lemma {:induction false} ValZeros(s: seq<Word>)
    requires forall k :: 0 <= k < |s| ==> s[k] == 0
    ensures Val(s) == 0
  {
    if |s| != 0 {
      ValZeros(s[1..]);
    }
  }

  /** Leading zero words do not change the value. */
  lemma ValPad(s: seq<Word>, n: nat)
    requires n <= |s| && forall k :: n <= k < |s| ==> s[k] == 0
    ensures Val(s) == Val(s[..n])
  {
    ValSplit(s, n);
    ValZeros(s[n..]);
    UpZero(n);
  }

  /** A sequence whose top word is not zero has at least the weight of that word. */
  lemma ValTop(s: seq<Word>)
    requires |s| > 0 && s[|s| - 1] != 0
    ensures Val(s) >= Pow(|s| - 1)
  {
    var n := |s| - 1;
    assert s == s[..n + 1];
    ValTake(s, n);
    UpMono(1, s[n], n);
  }

  lemma ValTopLess(s: seq<Word>, t: seq<Word>, i: nat)
    requires |s| == |t| == i + 1 && s[i] < t[i]
    ensures Val(s) < Val(t)
  {
    ValTake(s, i);
    ValTake(t, i);
    assert s[..i + 1] == s && t[..i + 1] == t;
    ValBound(s[..i]);
    UpMono(s[i] + 1, t[i], i);
    UpAdd(s[i], 1, i);
  }

  /** The topmost word in which two sequences differ decides their order. */
  lemma ValLess(s: seq<Word>, t: seq<Word>, i: nat)
    requires i < |s| == |t| && s[i] < t[i] && s[i + 1..] == t[i + 1..]
    ensures Val(s) < Val(t)
  {
    ValSplit(s, i + 1);
    ValSplit(t, i + 1);
    ValTopLess(s[..i + 1], t[..i + 1], i);
  }

  lemma ModBase(x: Word, v: int)
    ensures (x + B * v) % B == x && (x + B * v) / B == v
  {
  }

  /** Sequences of one length with one value are equal. */
  lemma {:induction false} ValUnique(s: seq<Word>, t: seq<Word>)
    requires |s| == |t| && Val(s) == Val(t)
    ensures s == t
  {
    if |s| != 0 {
      ModBase(s[0], Val(s[1..]));
      ModBase(t[0], Val(t[1..]));
      ValUnique(s[1..], t[1..]);
      assert s == [s[0]] + s[1..] && t == [t[0]] + t[1..];
    }
  }
}
