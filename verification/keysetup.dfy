/** The key schedules of rijndael-alg-fst.c against section 5.2 and 5.3.5 of FIPS 197. */
module KeySetup {
  import opened Bits
  import opened Field
  import opened Fips197
  import opened AesTables
  import opened Rijndael
  import Shift
  import KeyWrap

  /** The first bytes of rcon[]. */
  const RCON: seq<Byte> := [0x01, 0x02, 0x04, 0x08, 0x10, 0x20, 0x40, 0x80, 0x1b, 0x36]

  lemma RconNext(i: nat)
    requires i < 9
    ensures RCON[i + 1] == Xtime(RCON[i])
  {
    ZeroXor(0x1b);
  }

  lemma {:induction false} RconIs(i: nat)
    requires i < 10
    ensures RCON[i] == Rcon(i)
  {
    if i > 0 {
      RconIs(i - 1);
      RconNext(i - 1);
    }
  }

  /** The constants of the program are the powers of two in the field. */
  lemma RconIsPowerOfTwo(i: nat)
    requires i < 10
    ensures RCON[i] == Times(Shift.Pow2(i), 1)
  {
    RconIs(i);
    RconIsPower(i);
  }

  lemma XorAssociates(x: Byte, y: Byte, z: Byte)
    ensures Xor(Xor(x, y), z) == Xor(x, Xor(y, z))
  {
    forall i | 0 <= i < 8 ensures Bit(Xor(Xor(x, y), z), i) == Bit(Xor(x, Xor(y, z)), i) {
      XorsAt(i);
    }
    ByBits(Xor(Xor(x, y), z), Xor(x, Xor(y, z)));
  }

  lemma ColAssociates(x: Col, y: Col, z: Col)
    ensures XorCol(XorCol(x, y), z) == XorCol(x, XorCol(y, z))
  {
    XorAssociates(x.b0, y.b0, z.b0);
    XorAssociates(x.b1, y.b1, z.b1);
    XorAssociates(x.b2, y.b2, z.b2);
    XorAssociates(x.b3, y.b3, z.b3);
  }

  // ----- words of the schedule

  /** The substituted word from Te4. */
  function FromTe4(t4: Table, e: Col, a: Byte, b: Byte, c: Byte, d: Byte): Col {
    Sum5(e, Mask0(t4[a]), Mask1(t4[b]), Mask2(t4[c]), Mask3(t4[d]))
  }

  lemma FromTe4Is(S: Box, e: Col, x: Col)
    ensures FromTe4(Column(Coef(1, 1, 1, 1), S), e, x.b0, x.b1, x.b2, x.b3) == XorCol(e, SubWord(S, x))
  {
    var t := Column(Coef(1, 1, 1, 1), S);
    Masked(t[x.b0], t[x.b1], t[x.b2], t[x.b3], e);
    TimesOne(S[x.b0]);
    TimesOne(S[x.b1]);
    TimesOne(S[x.b2]);
    TimesOne(S[x.b3]);
  }

  /** The first n words of rk are those of the schedule. */
  ghost predicate Expanded(S: Box, key: seq<Col>, nk: nat, rk: seq<Col>, n: nat) {
    0 < nk <= |key| && n <= |rk| && forall j :: 0 <= j < n ==> rk[j] == W(S, key, nk, j)
  }

  /** Word n is the first of a group, an inner one, or the middle one of eight. */
  ghost predicate IsFirst(S: Box, key: seq<Col>, nk: nat, n: nat, i: nat)
    requires 0 < nk <= |key| && n >= nk && i < 10
  {
    W(S, key, nk, n) == XorCol(XorCol(W(S, key, nk, n - nk), SubWord(S, Turn(W(S, key, nk, n - 1)))),
                               Col(RCON[i], 0, 0, 0))
  }

  ghost predicate IsInner(S: Box, key: seq<Col>, nk: nat, n: nat)
    requires 0 < nk <= |key| && n >= nk
  {
    W(S, key, nk, n) == XorCol(W(S, key, nk, n - nk), W(S, key, nk, n - 1))
  }

  ghost predicate IsMiddle(S: Box, key: seq<Col>, n: nat)
    requires 8 <= |key| && n >= 8
  {
    W(S, key, 8, n) == XorCol(W(S, key, 8, n - 8), SubWord(S, W(S, key, 8, n - 1)))
  }

  lemma FirstIs(S: Box, key: seq<Col>, nk: nat, i: nat, n: nat)
    requires 0 < nk <= |key| && i < 10 && n >= nk && n % nk == 0 && n / nk == i + 1
    ensures IsFirst(S, key, nk, n, i)
  {
    RconIs(i);
    ColAssociates(W(S, key, nk, n - nk), SubWord(S, Turn(W(S, key, nk, n - 1))), Col(RCON[i], 0, 0, 0));
  }

  lemma InnerIs(S: Box, key: seq<Col>, nk: nat, c: nat, n: nat)
    requires 0 < nk <= |key| && 0 < c < nk <= n && n % nk == c && !(nk > 6 && c == 4)
    ensures IsInner(S, key, nk, n)
  {
  }

  lemma Residues4(i: nat, o: nat)
    requires o == 4 * i
    ensures (o + 4) % 4 == 0 && (o + 4) / 4 == i + 1 && (o + 5) % 4 == 1 && (o + 6) % 4 == 2 && (o + 7) % 4 == 3
  {
  }

  lemma Residues6(i: nat, o: nat)
    requires o == 6 * i
    ensures (o + 6) % 6 == 0 && (o + 6) / 6 == i + 1 && (o + 7) % 6 == 1 && (o + 8) % 6 == 2
    ensures (o + 9) % 6 == 3 && (o + 10) % 6 == 4 && (o + 11) % 6 == 5
  {
  }

  lemma Residues8(i: nat, o: nat)
    requires o == 8 * i
    ensures (o + 8) % 8 == 0 && (o + 8) / 8 == i + 1 && (o + 9) % 8 == 1 && (o + 10) % 8 == 2 && (o + 11) % 8 == 3
    ensures (o + 12) % 8 == 4 && (o + 13) % 8 == 5 && (o + 14) % 8 == 6 && (o + 15) % 8 == 7
  {
  }

  /** The kinds of words from 4 i + 4, 6 i + 6 and 8 i + 8 on. */
  lemma Kinds4(S: Box, key: seq<Col>, i: nat, o: nat)
    requires |key| >= 4 && i < 10 && o == 4 * i
    ensures IsFirst(S, key, 4, o + 4, i) && forall j :: o + 5 <= j < o + 8 ==> IsInner(S, key, 4, j)
  {
    Residues4(i, o);
    FirstIs(S, key, 4, i, o + 4);
    InnerIs(S, key, 4, 1, o + 5);
    InnerIs(S, key, 4, 2, o + 6);
    InnerIs(S, key, 4, 3, o + 7);
  }

  lemma Kinds6(S: Box, key: seq<Col>, i: nat, o: nat)
    requires |key| >= 6 && i < 10 && o == 6 * i
    ensures IsFirst(S, key, 6, o + 6, i) && forall j :: o + 7 <= j < o + 12 ==> IsInner(S, key, 6, j)
  {
    Residues6(i, o);
    FirstIs(S, key, 6, i, o + 6);
    InnerIs(S, key, 6, 1, o + 7);
    InnerIs(S, key, 6, 2, o + 8);
    InnerIs(S, key, 6, 3, o + 9);
    InnerIs(S, key, 6, 4, o + 10);
    InnerIs(S, key, 6, 5, o + 11);
  }

  lemma Kinds8(S: Box, key: seq<Col>, i: nat, o: nat)
    requires |key| >= 8 && i < 10 && o == 8 * i
    ensures IsFirst(S, key, 8, o + 8, i) && forall j :: o + 9 <= j < o + 12 ==> IsInner(S, key, 8, j)
    ensures IsMiddle(S, key, o + 12) && forall j :: o + 13 <= j < o + 16 ==> IsInner(S, key, 8, j)
  {
    Residues8(i, o);
    FirstIs(S, key, 8, i, o + 8);
    MiddleIs(S, key, o + 12);
    ThreeInner(S, key, 1, o + 9);
    ThreeInner(S, key, 5, o + 13);
  }

  lemma ThreeInner(S: Box, key: seq<Col>, c: nat, n: nat)
    requires |key| >= 8 && n >= 8 && (c == 1 || c == 5) && n % 8 == c && (n + 1) % 8 == c + 1 && (n + 2) % 8 == c + 2
    ensures forall j :: n <= j < n + 3 ==> IsInner(S, key, 8, j)
  {
    forall j | n <= j < n + 3 ensures IsInner(S, key, 8, j) {
      if j == n {
        InnerIs(S, key, 8, c, n);
      } else if j == n + 1 {
        InnerIs(S, key, 8, c + 1, n + 1);
      } else {
        InnerIs(S, key, 8, c + 2, n + 2);
      }
    }
  }

  lemma MiddleIs(S: Box, key: seq<Col>, n: nat)
    requires |key| >= 8 && n >= 8 && n % 8 == 4
    ensures IsMiddle(S, key, n)
  {
  }

  // ----- one word at a time

  /** The first word of a group. */
  method FirstWord(t: Tables, rk: array<Col>, n: nat, nk: nat, i: nat, ghost S: Box, ghost key: seq<Col>)
    requires 0 < nk <= n < rk.Length && nk <= |key| && i < 10 && IsFirst(S, key, nk, n, i)
    requires t.te4 == Column(Coef(1, 1, 1, 1), S) && Expanded(S, key, nk, rk[..], n)
    modifies rk
    ensures Expanded(S, key, nk, rk[..], n + 1)
    ensures forall j :: n < j < rk.Length ==> rk[j] == old(rk[j])
  {
    var temp := rk[n - 1];
    FromTe4Is(S, rk[n - nk], Turn(temp));
    rk[n] := XorCol(FromTe4(t.te4, rk[n - nk], temp.b1, temp.b2, temp.b3, temp.b0), Col(RCON[i], 0, 0, 0));
  }

  /** A word inside a group. */
  method InnerWord(rk: array<Col>, n: nat, nk: nat, ghost S: Box, ghost key: seq<Col>)
    requires 0 < nk <= n < rk.Length && nk <= |key| && IsInner(S, key, nk, n) && Expanded(S, key, nk, rk[..], n)
    modifies rk
    ensures Expanded(S, key, nk, rk[..], n + 1)
    ensures forall j :: n < j < rk.Length ==> rk[j] == old(rk[j])
  {
    rk[n] := XorCol(rk[n - nk], rk[n - 1]);
  }

  /** The middle word of a group of eight. */
  method MiddleWord(t: Tables, rk: array<Col>, n: nat, ghost S: Box, ghost key: seq<Col>)
    requires 8 <= n < rk.Length && 8 <= |key| && IsMiddle(S, key, n)
    requires t.te4 == Column(Coef(1, 1, 1, 1), S) && Expanded(S, key, 8, rk[..], n)
    modifies rk
    ensures Expanded(S, key, 8, rk[..], n + 1)
    ensures forall j :: n < j < rk.Length ==> rk[j] == old(rk[j])
  {
    var temp := rk[n - 1];
    FromTe4Is(S, rk[n - 8], temp);
    rk[n] := FromTe4(t.te4, rk[n - 8], temp.b0, temp.b1, temp.b2, temp.b3);
  }

  /** Three words inside a group. */
  method InnerThree(rk: array<Col>, n: nat, nk: nat, ghost S: Box, ghost key: seq<Col>)
    requires 0 < nk <= n && n + 2 < rk.Length && nk <= |key| && Expanded(S, key, nk, rk[..], n)
    requires forall j :: n <= j < n + 3 ==> IsInner(S, key, nk, j)
    modifies rk
    ensures Expanded(S, key, nk, rk[..], n + 3)
    ensures forall j :: n + 2 < j < rk.Length ==> rk[j] == old(rk[j])
  {
    InnerWord(rk, n, nk, S, key);
    InnerWord(rk, n + 1, nk, S, key);
    InnerWord(rk, n + 2, nk, S, key);
  }

  // ----- the three loops of rijndaelKeySetupEnc

  method Expand128(t: Tables, rk: array<Col>, ghost S: Box, ghost key: seq<Col>)
    requires rk.Length >= 44 && t.te4 == Column(Coef(1, 1, 1, 1), S) && Expanded(S, key, 4, rk[..], 4)
    modifies rk
    ensures Expanded(S, key, 4, rk[..], 44)
    ensures forall j :: 44 <= j < rk.Length ==> rk[j] == old(rk[j])
  {
    var i, o := 0, 0;
    while true
      invariant i < 10 && o == 4 * i && Expanded(S, key, 4, rk[..], o + 4)
      invariant forall j :: 44 <= j < rk.Length ==> rk[j] == old(rk[j])
      decreases 10 - i
    {
      Kinds4(S, key, i, o);
      FirstWord(t, rk, o + 4, 4, i, S, key);
      InnerThree(rk, o + 5, 4, S, key);
      i := i + 1;
      if i == 10 {
        break;
      }
      o := o + 4;
    }
  }

  method Expand192(t: Tables, rk: array<Col>, ghost S: Box, ghost key: seq<Col>)
    requires rk.Length >= 52 && t.te4 == Column(Coef(1, 1, 1, 1), S) && Expanded(S, key, 6, rk[..], 6)
    modifies rk
    ensures Expanded(S, key, 6, rk[..], 52)
    ensures forall j :: 52 <= j < rk.Length ==> rk[j] == old(rk[j])
  {
    var i, o := 0, 0;
    while true
      invariant i < 8 && o == 6 * i && Expanded(S, key, 6, rk[..], o + 6)
      invariant forall j :: 52 <= j < rk.Length ==> rk[j] == old(rk[j])
      decreases 8 - i
    {
      Kinds6(S, key, i, o);
      FirstWord(t, rk, o + 6, 6, i, S, key);
      InnerThree(rk, o + 7, 6, S, key);
      i := i + 1;
      if i == 8 {
        break;
      }
      InnerWord(rk, o + 10, 6, S, key);
      InnerWord(rk, o + 11, 6, S, key);
      o := o + 6;
    }
  }

  method Expand256(t: Tables, rk: array<Col>, ghost S: Box, ghost key: seq<Col>)
    requires rk.Length >= 60 && t.te4 == Column(Coef(1, 1, 1, 1), S) && Expanded(S, key, 8, rk[..], 8)
    modifies rk
    ensures Expanded(S, key, 8, rk[..], 60)
    ensures forall j :: 60 <= j < rk.Length ==> rk[j] == old(rk[j])
  {
    var i, o := 0, 0;
    while true
      invariant i < 7 && o == 8 * i && Expanded(S, key, 8, rk[..], o + 8)
      invariant forall j :: 60 <= j < rk.Length ==> rk[j] == old(rk[j])
      decreases 7 - i
    {
      Kinds8(S, key, i, o);
      FirstWord(t, rk, o + 8, 8, i, S, key);
      InnerThree(rk, o + 9, 8, S, key);
      i := i + 1;
      if i == 7 {
        break;
      }
      MiddleWord(t, rk, o + 12, S, key);
      InnerThree(rk, o + 13, 8, S, key);
      o := o + 8;
    }
  }

  // ----- rijndaelKeySetupEnc

  /** The words of a cipher key. */
  function KeyWords(b: seq<Byte>, nk: nat): (k: seq<Col>)
    requires |b| >= 4 * nk
    ensures |k| == nk
  {
    seq(nk, i requires 0 <= i < nk => GetWord(b, 4 * i))
  }

  method CopyWords(rk: array<Col>, b: seq<Byte>, from: nat, to: nat)
    requires from <= to <= rk.Length && 4 * to <= |b|
    modifies rk
    ensures forall j :: from <= j < to ==> rk[j] == GetWord(b, 4 * j)
    ensures forall j :: 0 <= j < rk.Length && !(from <= j < to) ==> rk[j] == old(rk[j])
  {
    var n := from;
    while n < to
      invariant from <= n <= to
      invariant forall j :: from <= j < n ==> rk[j] == GetWord(b, 4 * j)
      invariant forall j :: 0 <= j < rk.Length && !(from <= j < n) ==> rk[j] == old(rk[j])
    {
      rk[n] := GetWord(b, 4 * n);
      n := n + 1;
    }
  }

  /** Words of the key, bytes of it, words of the schedule and rounds for a key size. */
  function Words(keyBits: int): nat {
    if keyBits == 128 then 4 else if keyBits == 192 then 6 else 8
  }

  function Rounds(keyBits: int): nat {
    if keyBits == 128 then 10 else if keyBits == 192 then 12 else if keyBits == 256 then 14 else 0
  }

  function Size(keyBits: int): nat {
    if Rounds(keyBits) == 0 then 8 else 4 * Rounds(keyBits) + 4
  }

  /** Figure 4 of FIPS 197: 32 bits a word, and six rounds more than words. */
  lemma RoundsIs(keyBits: int)
    requires keyBits == 128 || keyBits == 192 || keyBits == 256
    ensures 32 * Words(keyBits) == keyBits && Rounds(keyBits) == Words(keyBits) + 6
    ensures Size(keyBits) == 4 * (Rounds(keyBits) + 1)
  {
  }

  /** The first word after the key, byte by byte. */
  lemma WordAfterKey(S: Box, key: seq<Col>, nk: nat)
    requires 0 < nk <= |key|
    ensures var p, q := key[0], key[nk - 1];
            W(S, key, nk, nk)
            == Col(Xor(p.b0, Xor(S[q.b1], 1)), Xor(p.b1, S[q.b2]), Xor(p.b2, S[q.b3]), Xor(p.b3, S[q.b0]))
  {
    var q := key[nk - 1];
    XorZero(S[q.b2]);
    XorZero(S[q.b3]);
    XorZero(S[q.b0]);
    assert nk % nk == 0 && nk / nk == 1;
    assert W(S, key, nk, 0) == key[0] && W(S, key, nk, nk - 1) == q;
    assert Rcon(0) == 1;
  }

  /** rijndaelKeySetupEnc: the schedule for 128, 192 or 256 bits; otherwise no rounds and
      only the words of the key. */
  method KeySetupEnc(t: Tables, rk: array<Col>, cipherKey: seq<Byte>, keyBits: int, ghost S: Box) returns (nr: nat)
    requires t.te4 == Column(Coef(1, 1, 1, 1), S)
    requires |cipherKey| >= 4 * Words(keyBits) && rk.Length >= Size(keyBits)
    modifies rk
    ensures nr == Rounds(keyBits)
    ensures Expanded(S, KeyWords(cipherKey, Words(keyBits)), Words(keyBits), rk[..], Size(keyBits))
    ensures forall j :: Size(keyBits) <= j < rk.Length ==> rk[j] == old(rk[j])
  {
    ghost var key := KeyWords(cipherKey, Words(keyBits));
    CopyWords(rk, cipherKey, 0, 4);
    if keyBits == 128 {
      Expand128(t, rk, S, key);
      return 10;
    }
    CopyWords(rk, cipherKey, 4, 6);
    if keyBits == 192 {
      Expand192(t, rk, S, key);
      return 12;
    }
    CopyWords(rk, cipherKey, 6, 8);
    if keyBits == 256 {
      Expand256(t, rk, S, key);
      return 14;
    }
    return 0;
  }

  // ----- rijndaelKeySetupDec

  /** Two round keys change places. */
  method SwapKeys(rk: array<Col>, i: nat, j: nat, ghost k: seq<State>, ghost b: nat, ghost c: nat)
    requires b < c < |k| && i == 4 * b && j == 4 * c && HoldsKeys(rk[..], k)
    modifies rk
    ensures HoldsKeys(rk[..], k[b := k[c]][c := k[b]])
  {
    ghost var w := rk[..];
    SwapWord(rk, i, j);
    SwapWord(rk, i + 1, j + 1);
    SwapWord(rk, i + 2, j + 2);
    SwapWord(rk, i + 3, j + 3);
    assert forall x :: 0 <= x < rk.Length && !(i <= x < i + 4) && !(j <= x < j + 4) ==> rk[x] == w[x];
    Swapped4(w, rk[..], k, b, c);
  }

  method SwapWord(rk: array<Col>, i: nat, j: nat)
    requires i < j < rk.Length
    modifies rk
    ensures rk[i] == old(rk[j]) && rk[j] == old(rk[i])
    ensures forall x :: 0 <= x < rk.Length && x != i && x != j ==> rk[x] == old(rk[x])
  {
    var temp := rk[i];
    rk[i] := rk[j];
    rk[j] := temp;
  }

  lemma Swapped4(w: seq<Col>, v: seq<Col>, k: seq<State>, b: nat, c: nat)
    requires b < c < |k| && HoldsKeys(w, k) && |v| == |w|
    requires KeyAt(v, 4 * b) == KeyAt(w, 4 * c) && KeyAt(v, 4 * c) == KeyAt(w, 4 * b)
    requires forall x :: 0 <= x < |w| && !(4 * b <= x < 4 * b + 4) && !(4 * c <= x < 4 * c + 4) ==> v[x] == w[x]
    ensures HoldsKeys(v, k[b := k[c]][c := k[b]])
  {
    var m := k[b := k[c]][c := k[b]];
    forall n | 0 <= n < |k| ensures m[n] == KeyAt(v, 4 * n) {
      assert k[n] == KeyAt(w, 4 * n) && k[b] == KeyAt(w, 4 * b) && k[c] == KeyAt(w, 4 * c);
    }
  }

  /** The outer u round keys on either side in the other order. */
  function Partly(k: seq<State>, u: nat): (m: seq<State>)
    ensures |m| == |k|
  {
    seq(|k|, b requires 0 <= b < |k| => if b < u || b > |k| - 1 - u then k[|k| - 1 - b] else k[b])
  }

  lemma PartlyNext(k: seq<State>, u: nat)
    requires 2 * u < |k| - 1
    ensures var m, c := Partly(k, u), |k| - 1 - u; Partly(k, u + 1) == m[u := m[c]][c := m[u]]
  {
  }

  function Reversed(k: seq<State>): (m: seq<State>)
    ensures |m| == |k|
  {
    seq(|k|, b requires 0 <= b < |k| => k[|k| - 1 - b])
  }

  lemma PartlyAll(k: seq<State>, u: nat)
    requires |k| - 1 <= 2 * u <= |k|
    ensures Partly(k, u) == Reversed(k)
  {
  }

  method Reverse(rk: array<Col>, nr: nat, ghost k: seq<State>)
    requires |k| == nr + 1 && HoldsKeys(rk[..], k)
    modifies rk
    ensures HoldsKeys(rk[..], Reversed(k))
  {
    var i, j := 0, 4 * nr;
    ghost var u := 0;
    assert Partly(k, 0) == k;
    while i < j
      invariant i == 4 * u && j == 4 * (nr - u) && 2 * u <= |k| && HoldsKeys(rk[..], Partly(k, u))
      decreases j - i
    {
      PartlyNext(k, u);
      SwapKeys(rk, i, j, Partly(k, u), u, nr - u);
      i := i + 4;
      j := j - 4;
      u := u + 1;
    }
    PartlyAll(k, u);
  }

  /** InvMixColumns of a word by the tables, S before the Si in them. */
  function Unmixed4(t: Tables, x: Col): Col {
    XorCol(XorCol(XorCol(t.td0[t.te4[x.b0].b3], t.td1[t.te4[x.b1].b3]), t.td2[t.te4[x.b2].b3]), t.td3[t.te4[x.b3].b3])
  }

  lemma Unmixed4Is(S: Box, Si: Box, x: Col)
    requires Inverse(S, Si)
    ensures Unmixed4(Standard(S, Si), x) == InvMixColumn(x)
  {
    TimesOne(S[x.b0]);
    TimesOne(S[x.b1]);
    TimesOne(S[x.b2]);
    TimesOne(S[x.b3]);
    TableRow(Coef(14, 9, 13, 11), x.b0, x.b1, x.b2, x.b3);
  }

  predicate This(x: Col) {
    true
  }

  /** The tables do the transformation g. */
  ghost predicate Transforms(t: Tables, g: Col -> Col) {
    forall x {:trigger This(x)} :: Unmixed4(t, x) == g(x)
  }

  lemma TablesTransform(S: Box, Si: Box)
    requires Inverse(S, Si)
    ensures Transforms(Standard(S, Si), InvMixColumn)
  {
    forall x: Col ensures Unmixed4(Standard(S, Si), x) == InvMixColumn(x) {
      Unmixed4Is(S, Si, x);
    }
  }

  function Each(g: Col -> Col, s: State): State {
    State(g(s.s0), g(s.s1), g(s.s2), g(s.s3))
  }

  method UnmixKey(t: Tables, rk: array<Col>, o: nat, ghost k: seq<State>, ghost b: nat, ghost g: Col -> Col)
    requires Transforms(t, g) && b < |k| && o == 4 * b && HoldsKeys(rk[..], k)
    modifies rk
    ensures HoldsKeys(rk[..], k[b := Each(g, k[b])])
  {
    ghost var w := rk[..];
    assert k[b] == KeyAt(w, 4 * b);
    UnmixWord(t, rk, o, g);
    UnmixWord(t, rk, o + 1, g);
    UnmixWord(t, rk, o + 2, g);
    UnmixWord(t, rk, o + 3, g);
    Changed(w, rk[..], k, b);
  }

  method UnmixWord(t: Tables, rk: array<Col>, x: nat, ghost g: Col -> Col)
    requires Transforms(t, g) && x < rk.Length
    modifies rk
    ensures rk[..] == old(rk[..])[x := g(old(rk[x]))]
  {
    assert This(rk[x]);
    rk[x] := Unmixed4(t, rk[x]);
  }

  lemma Changed(w: seq<Col>, v: seq<Col>, k: seq<State>, b: nat)
    requires b < |k| && HoldsKeys(w, k) && |v| == |w|
    requires forall x :: 0 <= x < |w| && !(4 * b <= x < 4 * b + 4) ==> v[x] == w[x]
    ensures HoldsKeys(v, k[b := KeyAt(v, 4 * b)])
  {
    var m := k[b := KeyAt(v, 4 * b)];
    forall n | 0 <= n < |k| ensures m[n] == KeyAt(v, 4 * n) {
      assert k[n] == KeyAt(w, 4 * n);
    }
  }

  /** The round keys before b transformed, but for the first. */
  function Upto(g: Col -> Col, k: seq<State>, b: nat): (m: seq<State>)
    ensures |m| == |k|
  {
    seq(|k|, i requires 0 <= i < |k| => if 0 < i < b then Each(g, k[i]) else k[i])
  }

  /** InvMixColumns on all round keys but the first and the last. */
  method UnmixKeys(t: Tables, rk: array<Col>, nr: nat, ghost k: seq<State>, ghost g: Col -> Col)
    requires Transforms(t, g) && |k| == nr + 1 && HoldsKeys(rk[..], k)
    modifies rk
    ensures HoldsKeys(rk[..], Upto(g, k, nr))
  {
    var i, o := 1, 0;
    assert Upto(g, k, 1) == k && Upto(g, k, 0) == k;
    while i < nr
      invariant 1 <= i && o == 4 * (i - 1) && (i <= nr || nr == 0) && HoldsKeys(rk[..], Upto(g, k, i))
    {
      o := o + 4;
      UnmixKey(t, rk, o, Upto(g, k, i), i, g);
      assert Upto(g, k, i + 1) == Upto(g, k, i)[i := Each(g, k[i])];
      i := i + 1;
    }
  }

  /** The round keys of the standard for a cipher key. */
  function EncKeys(S: Box, cipherKey: seq<Byte>, keyBits: int): (k: seq<State>)
    requires |cipherKey| >= 4 * Words(keyBits)
    ensures |k| == Rounds(keyBits) + 1
  {
    var nr := Rounds(keyBits);
    RoundKeys(Schedule(S, KeyWords(cipherKey, Words(keyBits)), Words(keyBits), 4 * nr + 4), nr)
  }

  /** Those for the equivalent inverse cipher. */
  function InvKeys(S: Box, cipherKey: seq<Byte>, keyBits: int): (k: seq<State>)
    requires |cipherKey| >= 4 * Words(keyBits)
    ensures |k| == Rounds(keyBits) + 1
  {
    Upto(InvMixColumn, Reversed(EncKeys(S, cipherKey, keyBits)), Rounds(keyBits))
  }

  lemma ExpandedKeys(S: Box, cipherKey: seq<Byte>, keyBits: int, rk: seq<Col>)
    requires |cipherKey| >= 4 * Words(keyBits)
    requires Expanded(S, KeyWords(cipherKey, Words(keyBits)), Words(keyBits), rk, Size(keyBits))
    ensures HoldsKeys(rk, EncKeys(S, cipherKey, keyBits))
  {
    var k := EncKeys(S, cipherKey, keyBits);
    forall i | 0 <= i < |k| ensures k[i] == KeyAt(rk, 4 * i) {
      ExpandedKey(S, KeyWords(cipherKey, Words(keyBits)), Words(keyBits), rk, Rounds(keyBits), i);
    }
  }

  lemma ExpandedKey(S: Box, key: seq<Col>, nk: nat, rk: seq<Col>, nr: nat, i: nat)
    requires Expanded(S, key, nk, rk, if nr == 0 then 8 else 4 * nr + 4) && i <= nr
    ensures 4 * i + 4 <= |rk| && RoundKeys(Schedule(S, key, nk, 4 * nr + 4), nr)[i] == KeyAt(rk, 4 * i)
  {
    assert 4 * i + 3 < 4 * nr + 4;
  }

  lemma UptoIsDec(a: Steps, g: Col -> Col, k: seq<State>, m: seq<State>)
    requires (forall s {:trigger a.unmix(s)} :: a.unmix(s) == Each(g, s)) && |k| > 0
    requires m == Upto(g, Reversed(k), |k| - 1)
    ensures DecKeys(a, m, k)
  {
  }

  lemma UnmixIsEach(S: Box, Si: Box)
    ensures forall s :: Aes(S, Si).unmix(s) == Each(InvMixColumn, s)
  {
  }

  lemma UptoIsDecForAes(S: Box, Si: Box, k: seq<State>, m: seq<State>)
    requires |k| > 0 && m == Upto(InvMixColumn, Reversed(k), |k| - 1)
    ensures DecKeys(Aes(S, Si), m, k)
  {
    UnmixIsEach(S, Si);
    UptoIsDec(Aes(S, Si), InvMixColumn, k, m);
  }

  lemma InvKeysAre(S: Box, Si: Box, cipherKey: seq<Byte>, keyBits: int)
    requires |cipherKey| >= 4 * Words(keyBits)
    ensures DecKeys(Aes(S, Si), InvKeys(S, cipherKey, keyBits), EncKeys(S, cipherKey, keyBits))
  {
    UptoIsDecForAes(S, Si, EncKeys(S, cipherKey, keyBits), InvKeys(S, cipherKey, keyBits));
  }

  /** rijndaelKeySetupDec: the round keys of the equivalent inverse cipher. */
  method KeySetupDec(t: Tables, rk: array<Col>, cipherKey: seq<Byte>, keyBits: int, ghost S: Box, ghost Si: Box)
    returns (nr: nat)
    requires t == Standard(S, Si) && Inverse(S, Si)
    requires |cipherKey| >= 4 * Words(keyBits) && rk.Length >= Size(keyBits)
    modifies rk
    ensures nr == Rounds(keyBits) && HoldsKeys(rk[..], InvKeys(S, cipherKey, keyBits))
  {
    nr := KeySetupEnc(t, rk, cipherKey, keyBits, S);
    ghost var k := EncKeys(S, cipherKey, keyBits);
    ExpandedKeys(S, cipherKey, keyBits, rk[..]);
    Reverse(rk, nr, k);
    TablesTransform(S, Si);
    UnmixKeys(t, rk, nr, Reversed(k), InvMixColumn);
  }

  // ----- whole blocks

  predicate KeySize(cipherKey: seq<Byte>, keyBits: int) {
    (keyBits == 128 || keyBits == 192 || keyBits == 256) && |cipherKey| >= 4 * Words(keyBits)
  }

  /** The cipher and its inverse under a key of 128, 192 or 256 bits. */
  function EncBlock(S: Box, Si: Box, cipherKey: seq<Byte>, keyBits: int, b: Block): Block
    requires KeySize(cipherKey, keyBits)
  {
    Encrypted(Aes(S, Si), EncKeys(S, cipherKey, keyBits), b)
  }

  function DecBlock(S: Box, Si: Box, cipherKey: seq<Byte>, keyBits: int, b: Block): Block
    requires KeySize(cipherKey, keyBits)
  {
    Decrypted(Aes(S, Si), InvKeys(S, cipherKey, keyBits), b)
  }

  lemma Undone(a: Steps, dk: seq<State>, k: seq<State>, b: Block)
    requires a.Undo() && DecKeys(a, dk, k) && |k| > 1
    ensures Decrypted(a, dk, Encrypted(a, k, b)) == b && Encrypted(a, k, Decrypted(a, dk, b)) == b
  {
    var s := StateOf(b);
    CipherUndone(a, k, s);
    EquivalentInverse(a, dk, k, s);
    EquivalentInverse(a, dk, k, Fips197.Cipher(a, k, s));
    BlockAndState(b, Fips197.Cipher(a, k, s));
    BlockAndState(b, InvCipher(a, k, s));
  }

  lemma UndoneByAes(S: Box, Si: Box, dk: seq<State>, k: seq<State>, b: Block)
    requires Inverse(S, Si) && DecKeys(Aes(S, Si), dk, k) && |k| > 1
    ensures Decrypted(Aes(S, Si), dk, Encrypted(Aes(S, Si), k, b)) == b
    ensures Encrypted(Aes(S, Si), k, Decrypted(Aes(S, Si), dk, b)) == b
  {
    AesUndo(S, Si);
    Undone(Aes(S, Si), dk, k, b);
  }

  lemma UndoneByKeys(S: Box, Si: Box, cipherKey: seq<Byte>, keyBits: int, b: Block)
    requires Inverse(S, Si) && KeySize(cipherKey, keyBits)
    ensures var a, k, dk := Aes(S, Si), EncKeys(S, cipherKey, keyBits), InvKeys(S, cipherKey, keyBits);
            Decrypted(a, dk, Encrypted(a, k, b)) == b && Encrypted(a, k, Decrypted(a, dk, b)) == b
  {
    InvKeysAre(S, Si, cipherKey, keyBits);
    UndoneByAes(S, Si, InvKeys(S, cipherKey, keyBits), EncKeys(S, cipherKey, keyBits), b);
  }

  /** Decryption undoes encryption, for every key and block. */
  lemma DecryptionUndoes(S: Box, Si: Box, cipherKey: seq<Byte>, keyBits: int, b: Block)
    requires Inverse(S, Si) && KeySize(cipherKey, keyBits)
    ensures DecBlock(S, Si, cipherKey, keyBits, EncBlock(S, Si, cipherKey, keyBits, b)) == b
  {
    UndoneByKeys(S, Si, cipherKey, keyBits, b);
  }

  /** And encryption undoes decryption. */
  lemma EncryptionUndoes(S: Box, Si: Box, cipherKey: seq<Byte>, keyBits: int, b: Block)
    requires Inverse(S, Si) && KeySize(cipherKey, keyBits)
    ensures EncBlock(S, Si, cipherKey, keyBits, DecBlock(S, Si, cipherKey, keyBits, b)) == b
  {
    UndoneByKeys(S, Si, cipherKey, keyBits, b);
  }

  /** The block functions that key wrap is given are inverses of each other. */
  lemma InversesForKeyWrap(S: Box, Si: Box, cipherKey: seq<Byte>, keyBits: int)
    requires Inverse(S, Si) && KeySize(cipherKey, keyBits)
    ensures KeyWrap.Inverses(b => EncBlock(S, Si, cipherKey, keyBits, b), b => DecBlock(S, Si, cipherKey, keyBits, b))
  {
    forall b: Block
      ensures DecBlock(S, Si, cipherKey, keyBits, EncBlock(S, Si, cipherKey, keyBits, b)) == b
      ensures EncBlock(S, Si, cipherKey, keyBits, DecBlock(S, Si, cipherKey, keyBits, b)) == b
    {
      DecryptionUndoes(S, Si, cipherKey, keyBits, b);
      EncryptionUndoes(S, Si, cipherKey, keyBits, b);
    }
  }

  /** aes_encrypt */
  method AesEncrypt(t: Tables, kl: nat, key: seq<Byte>, pt: array<Byte>, ct: array<Byte>, ghost S: Box, ghost Si: Box)
    requires t == Standard(S, Si) && KeySize(key, 8 * kl) && pt.Length == ct.Length == 16
    modifies ct
    ensures ct[..] == EncBlock(S, Si, key, 8 * kl, old(pt[..]))
  {
    var rk := new Col[60];
    var nr := KeySetupEnc(t, rk, key, 8 * kl, S);
    ExpandedKeys(S, key, 8 * kl, rk[..]);
    TablesDoRounds(S, Si);
    Encrypt(t, rk, 8 * kl / 32 + 6, pt, ct, Aes(S, Si), EncKeys(S, key, 8 * kl));
  }

  /** aes_decrypt */
  method AesDecrypt(t: Tables, kl: nat, key: seq<Byte>, ct: array<Byte>, pt: array<Byte>, ghost S: Box, ghost Si: Box)
    requires t == Standard(S, Si) && Inverse(S, Si) && KeySize(key, 8 * kl) && pt.Length == ct.Length == 16
    modifies pt
    ensures pt[..] == DecBlock(S, Si, key, 8 * kl, old(ct[..]))
  {
    var rk := new Col[60];
    var nr := KeySetupDec(t, rk, key, 8 * kl, S, Si);
    TablesDoRounds(S, Si);
    Decrypt(t, rk, 8 * kl / 32 + 6, ct, pt, Aes(S, Si), InvKeys(S, key, 8 * kl));
  }
}
