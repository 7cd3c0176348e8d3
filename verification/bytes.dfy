/** BN_bin2bn and BN_bn2bin: numbers as bytes, the most significant first. */
module Bytes {
  import opened Words
  import opened Bignum
  import opened Shift
  import Bits
  import Magnitude

  type Byte = Bits.Byte

  // ----- the value of bytes and the bytes of a value

  function BytesVal(s: seq<Byte>): (v: nat) {
    if |s| == 0 then 0 else 256 * BytesVal(s[..|s| - 1]) + s[|s| - 1]
  }

  /** The bytes of v without a leading zero. */
  function BytesOf(v: nat): (s: seq<Byte>) {
    if v == 0 then [] else BytesOf(v / 256) + [v % 256]
  }

  lemma {:induction false} ValueOfBytes(v: nat)
    ensures BytesVal(BytesOf(v)) == v
  {
    if v != 0 {
      ValueOfBytes(v / 256);
      var s := BytesOf(v / 256);
      assert (s + [v % 256])[..|s|] == s;
    }
  }

  /** Leading zero bytes aside, bytes are those of their value. */
  lemma {:induction false} BytesOfValue(s: seq<Byte>)
    requires |s| > 0 ==> s[0] != 0
    ensures BytesOf(BytesVal(s)) == s
    ensures |s| > 0 ==> BytesVal(s) > 0
  {
    if |s| > 0 {
      var t, b := s[..|s| - 1], s[|s| - 1];
      BytesOfValue(t);
      LastByte(BytesVal(t), b);
      assert s == t + [b];
    }
  }

  lemma LastByte(v: nat, b: Byte)
    ensures (256 * v + b) / 256 == v && (256 * v + b) % 256 == b
  {
  }

  lemma BytesValSnoc(s: seq<Byte>, k: nat)
    requires k < |s|
    ensures BytesVal(s[..k + 1]) == 256 * BytesVal(s[..k]) + s[k]
  {
    assert s[..k + 1][..k] == s[..k];
  }

  /** s without its leading zero bytes. */
  function Stripped(s: seq<Byte>): seq<Byte> {
    if |s| > 0 && s[0] == 0 then Stripped(s[1..]) else s
  }

  lemma {:induction false} LeadingZero(s: seq<Byte>)
    requires |s| > 0 && s[0] == 0
    ensures BytesVal(s) == BytesVal(s[1..])
  {
    var t := s[..|s| - 1];
    if |s| > 1 {
      LeadingZero(t);
      assert t[1..] == s[1..][..|s| - 2];
    }
  }

  /** BN_bn2bin after BN_bin2bn gives back the bytes without their leading zeros. */
  lemma {:induction false} BytesRoundTrip(s: seq<Byte>)
    ensures BytesOf(BytesVal(s)) == Stripped(s)
  {
    if |s| > 0 && s[0] == 0 {
      LeadingZero(s);
      BytesRoundTrip(s[1..]);
    } else {
      BytesOfValue(s);
    }
  }

  /** A smaller number has no more bytes. */
  lemma {:induction false} FewerBytes(u: nat, v: nat)
    requires u <= v
    ensures |BytesOf(u)| <= |BytesOf(v)|
    decreases v
  {
    if u != 0 {
      FewerBytes(u / 256, v / 256);
    }
  }

  // ----- BN_bin2bn

  /** v moved up by c bytes. */
  ghost function ByteUp(v: nat, c: nat): nat {
    if c == 0 then v else 256 * ByteUp(v, c - 1)
  }

  lemma ByteUpWord(v: nat)
    ensures ByteUp(v, 4) == B * v
  {
    assert ByteUp(v, 1) == 256 * ByteUp(v, 0);
    assert ByteUp(v, 3) == 256 * ByteUp(v, 2);
  }

  lemma {:induction false} ByteUpZero(c: nat)
    ensures ByteUp(0, c) == 0
  {
    if c != 0 {
      ByteUpZero(c - 1);
    }
  }

  /** The state of the loop after k of n bytes: i words are still to come, c bytes are
      in l and m more are needed for its word but one. */
  ghost predicate Reading(s: seq<Byte>, k: nat, w: seq<Word>, i: nat, m: int, c: nat, l: Word) {
    && k <= |s| && c <= 3 && 0 <= m && l < ByteUp(1, c)
    && BytesVal(s[..k]) == ByteUp(Val(w), c) + l
    && (if i == 0 then k == |s| && c == 0 && l == 0 else |s| - k == 4 * (i - 1) + m + 1)
    && c + m <= 3 && (|w| > 0 ==> c + m == 3)
  }

  lemma ReadByte(s: seq<Byte>, k: nat, w: seq<Word>, i: nat, m: int, c: nat, l: Word)
    requires Reading(s, k, w, i, m, c, l) && k < |s|
    ensures 256 * l + s[k] < ByteUp(1, c + 1) && 256 * l + s[k] < B
    ensures m > 0 ==> Reading(s, k + 1, w, i, m - 1, c + 1, 256 * l + s[k])
    ensures m == 0 ==> i > 0 && Reading(s, k + 1, [256 * l + s[k]] + w, i - 1, 3, 0, 0)
  {
    BytesValSnoc(s, k);
    var x := 256 * l + s[k];
    ByteUpWord(1);
    ByteUpWord(Val(w));
    assert ByteUp(1, c + 1) <= ByteUp(1, 4);
    if m == 0 {
      ValCons(x, w);
      if |w| == 0 {
        ByteUpZero(c + 1);
      }
    }
  }

  /** bn_expand: room for a number of bits */
  method Expand(r: Big, bits: nat)
    requires r.top < r.d.Length
    modifies r`d
    ensures bits <= 32 * (r.d.Length - 1) && (r.d == old(r.d) || fresh(r.d))
  {
    if (bits + 31) / 32 > r.d.Length - 1 {
      r.WExpand(bits / 32 + 1);
    }
  }

  /** BN_bin2bn. From no bytes at all comes a zero that keeps the sign. */
  method Bin2Bn(s: seq<Byte>, ret: Big)
    requires ret.Valid()
    modifies ret, ret.d
    ensures ret.Valid() && (ret.d == old(ret.d) || fresh(ret.d))
    ensures ret.Mag() == BytesVal(s)
    ensures ret.neg == (|s| == 0 && old(ret.neg))
  {
    var n := |s|;
    if n == 0 {
      ret.top := 0;
    } else {
      Expand(ret, (n + 2) * 8);
      ReadWords(s, ret, (n - 1) / 4 + 1);
    }
  }

  method ReadWords(s: seq<Byte>, ret: Big, top: nat)
    requires |s| > 0 && top == (|s| - 1) / 4 + 1 < ret.d.Length
    modifies ret, ret.d
    ensures ret.Valid() && ret.d == old(ret.d) && ret.Mag() == BytesVal(s) && !ret.neg
  {
    ret.neg := false;
    ReadBytes(s, ret.d, top);
    ret.top := Magnitude.FixTop(ret.d, 0, top);
    assert ret.d[..ret.top] == ret.d[0..0 + ret.top] && ret.d[0..top] == ret.d[0..0 + top];
  }

  /** The loop over the bytes. */
  method ReadBytes(s: seq<Byte>, d: array<Word>, top: nat)
    requires |s| > 0 && top == (|s| - 1) / 4 + 1 < d.Length
    modifies d
    ensures Val(d[0..top]) == BytesVal(s)
  {
    var i, m := top, (|s| - 1) % 4;
    var k, l: Word := 0, 0;
    ghost var c, w: seq<Word> := 0, [];
    while k < |s|
      invariant 0 <= i <= top && Reading(s, k, w, i, m, c, l) && d[i..top] == w
    {
      i, m, l, c, w := StoreByte(s, k, d, top, i, m, l, c, w);
      k := k + 1;
    }
    assert s[..|s|] == s;
  }

  /** A byte joins the word that is collected; the word is stored when it is complete. */
  method StoreByte(s: seq<Byte>, k: nat, d: array<Word>, top: nat, i0: nat, m0: int, l0: Word,
                   ghost c0: nat, ghost w0: seq<Word>)
    returns (i: nat, m: int, l: Word, ghost c: nat, ghost w: seq<Word>)
    requires i0 <= top < d.Length && k < |s| && Reading(s, k, w0, i0, m0, c0, l0) && d[i0..top] == w0
    modifies d
    ensures i <= top && Reading(s, k + 1, w, i, m, c, l) && d[i..top] == w
  {
    ReadByte(s, k, w0, i0, m0, c0, l0);
    i, l := i0, 256 * l0 + s[k];
    if m0 == 0 {
      i := i - 1;
      d[i] := l;
      w := [l] + w0;
      l, m, c := 0, 3, 0;
    } else {
      m, c, w := m0 - 1, c0 + 1, w0;
    }
  }

  // ----- BN_bn2bin

  /** BN_num_bytes */
  method NumBytes(a: Big) returns (n: nat)
    requires a.Valid()
    ensures Pow2(8 * n) > a.Mag() && (n > 0 ==> Pow2(8 * n - 8) <= a.Mag())
  {
    var bits := a.NumBits();
    n := (bits + 7) / 8;
    if bits > 0 {
      Pow2Mono(bits, 8 * n);
      Pow2Mono(8 * n - 8, bits - 1);
    }
  }

  /** What of v lies above its k lowest bytes. */
  ghost function BytesAbove(v: nat, k: nat): int {
    v / Pow2(8 * k)
  }

  lemma BytesAboveStep(v: nat, k: nat)
    requires Pow2(8 * k) <= v
    ensures BytesAbove(v, k) > 0 && BytesAbove(v, k + 1) == BytesAbove(v, k) / 256
  {
    var p := Pow2(8 * k);
    Pow2Add(8, 8 * k);
    Pow2Bytes();
    DivideTwice(v, p);
  }

  lemma DivideTwice(v: nat, p: nat)
    requires 0 < p <= v
    ensures v / p > 0 && v / (256 * p) == (v / p) / 256
  {
    var u, e := v / p, v % p;
    assert v == p * u + e;
    if u <= 0 {
      MulMono(u, 0, p);
    }
    var h, l := u / 256, u % 256;
    assert u == 256 * h + l;
    Spread(p, 256 * h, l);
    assert p * (256 * h) == (256 * p) * h;
    LowPart(p, l, e);
    DivideExact(v, 256 * p, h, p * l + e);
  }

  lemma LowPart(p: nat, l: nat, e: nat)
    requires l < 256 && e < p
    ensures 0 <= p * l + e < 256 * p
  {
    MulMono(l, 255, p);
    MulEqual(p, l, l);
    MulNonNeg(p, l);
  }

  /** The byte i of a number is byte i % 4 of its word i / 4. */
  lemma ByteOfWord(s: seq<Word>, i: nat)
    requires i / 4 < |s|
    ensures (Val(s) / Pow2(8 * i)) % 256 == (s[i / 4] / Pow2(8 * (i % 4))) % 256
  {
    var j := 8 * (i % 4);
    assert 8 * i == 32 * (i / 4) + j;
    DivideByWords(s, i / 4, j);
    var x := s[i / 4..];
    Pow2Add(j, 8);
    Pow2Add(j + 8, 24 - j);
    Pow2Add(16, 16);
    Pow2Bytes();
    Pow2Word();
    LowByte(x[0], Val(x[1..]), Pow2(j), Pow2(24 - j));
  }

  lemma LowByte(w: Word, v: int, p: int, q: int)
    requires 0 < p && (p * 256) * q == B
    ensures ((w + B * v) / p) % 256 == (w / p) % 256
  {
    var h, e := w / p, w % p;
    assert w == p * h + e;
    assert B * v == p * (256 * (q * v)) by {
      MulAssoc(p * 256, q, v);
      MulAssoc(p, 256, q * v);
    }
    Spread(p, h, 256 * (q * v));
    DivideExact(w + B * v, p, h + 256 * (q * v), e);
    AddMultiple(h, q * v);
  }

  lemma AddMultiple(h: int, k: int)
    ensures (h + 256 * k) % 256 == h % 256
  {
  }

  lemma {:induction false} CountBytes(v: nat, n: nat)
    requires v < Pow2(8 * n) && (n > 0 ==> Pow2(8 * n - 8) <= v)
    ensures |BytesOf(v)| == n
  {
    if n > 0 {
      Pow2Bytes();
      Pow2Add(8, 8 * n - 8);
      if n > 1 {
        Pow2Add(8, 8 * n - 16);
      }
      CountBytes(v / 256, n - 1);
    }
  }

  lemma BytesAboveAll(v: nat, n: nat)
    requires v < Pow2(8 * n)
    ensures BytesAbove(v, n) == 0
  {
    DivideExact(v, Pow2(8 * n), 0, v);
  }

  lemma BytesAboveNone(v: nat)
    ensures BytesAbove(v, 0) == v
  {
    DivideExact(v, 1, v, 0);
  }

  /** The word that holds byte i is in use. */
  lemma WordInUse(s: seq<Word>, i: nat, n: nat)
    requires i < n && Pow2(8 * n - 8) <= Val(s)
    ensures i / 4 < |s| && Pow2(8 * i) <= Val(s)
  {
    ValBound(s);
    Pow2Words(|s|, 0);
    Pow2Mono(8 * i, 8 * n - 8);
    if i / 4 >= |s| {
      Pow2Mono(32 * |s|, 8 * i);
    }
  }

  /** Byte i of a number, as the source takes it from the word. */
  method ByteAt(a: Big, i: nat, n: nat) returns (b: Byte)
    requires a.Valid() && i < n && Pow2(8 * n - 8) <= a.Mag()
    ensures BytesAbove(a.Mag(), i + 1) >= 0 && BytesAbove(a.Mag(), i) >= 0
    ensures BytesOf(BytesAbove(a.Mag(), i)) == BytesOf(BytesAbove(a.Mag(), i + 1)) + [b]
  {
    ghost var s := a.d[..a.top];
    WordInUse(s, i, n);
    ByteOfWord(s, i);
    BytesAboveStep(Val(s), i);
    var l := a.d[i / 4];
    b := (l / Pow2(8 * (i % 4))) % 256;
  }

  method WriteBytes(a: Big, to: array<Byte>, n: nat)
    requires a.Valid() && n <= to.Length
    requires a.Mag() < Pow2(8 * n) && (n > 0 ==> Pow2(8 * n - 8) <= a.Mag())
    modifies to
    ensures to[..n] == BytesOf(a.Mag())
    ensures forall k :: n <= k < to.Length ==> to[k] == old(to[k])
  {
    ghost var v := a.Mag();
    BytesAboveAll(v, n);
    BytesAboveNone(v);
    var i := n;
    while i > 0
      invariant 0 <= i <= n && BytesAbove(v, i) >= 0 && to[..n - i] == BytesOf(BytesAbove(v, i))
      invariant a.Valid() && a.Mag() == v
      invariant forall k :: n - i <= k < to.Length ==> to[k] == old(to[k])
    {
      i := i - 1;
      WriteByte(a, to, i, n, v);
    }
  }

  method WriteByte(a: Big, to: array<Byte>, i: nat, n: nat, ghost v: nat)
    requires a.Valid() && i < n <= to.Length && a.Mag() == v && Pow2(8 * n - 8) <= v
    requires BytesAbove(v, i + 1) >= 0 && to[..n - (i + 1)] == BytesOf(BytesAbove(v, i + 1))
    modifies to
    ensures BytesAbove(v, i) >= 0 && to[..n - i] == BytesOf(BytesAbove(v, i))
    ensures forall k :: 0 <= k < to.Length && k != n - i - 1 ==> to[k] == old(to[k])
  {
    var b := ByteAt(a, i, n);
    ghost var s := to[..n - i - 1];
    to[n - i - 1] := b;
    assert to[..n - i] == s + [b];
  }

  /** BN_bn2bin: the sign is ignored and there is no leading zero byte. */
  method Bn2Bin(a: Big, to: array<Byte>) returns (n: nat)
    requires a.Valid() && |BytesOf(a.Mag())| <= to.Length
    modifies to
    ensures n <= to.Length && to[..n] == BytesOf(a.Mag())
    ensures forall k :: n <= k < to.Length ==> to[k] == old(to[k])
  {
    n := NumBytes(a);
    CountBytes(a.Mag(), n);
    WriteBytes(a, to, n);
  }
}
