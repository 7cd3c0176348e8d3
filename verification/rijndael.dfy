/** The table-driven Rijndael of rijndael-alg-fst.c against FIPS 197. */
module Rijndael {
  import opened Bits
  import opened Field
  import opened Fips197
  import opened AesTables

  // ----- words from tables

  /** The parts of a word under the masks 0xff000000, 0x00ff0000, 0x0000ff00, 0x000000ff. */
  function Mask0(c: Col): Col {
    Col(c.b0, 0, 0, 0)
  }

  function Mask1(c: Col): Col {
    Col(0, c.b1, 0, 0)
  }

  function Mask2(c: Col): Col {
    Col(0, 0, c.b2, 0)
  }

  function Mask3(c: Col): Col {
    Col(0, 0, 0, c.b3)
  }

  function Sum5(a: Col, b: Col, c: Col, d: Col, e: Col): Col {
    XorCol(XorCol(XorCol(XorCol(a, b), c), d), e)
  }

  /** Four masked words make one. */
  lemma Masked(a: Col, b: Col, c: Col, d: Col, e: Col)
    ensures Sum5(Mask0(a), Mask1(b), Mask2(c), Mask3(d), e) == XorCol(Col(a.b0, b.b1, c.b2, d.b3), e)
    ensures Sum5(e, Mask0(a), Mask1(b), Mask2(c), Mask3(d)) == XorCol(e, Col(a.b0, b.b1, c.b2, d.b3))
  {
    MaskedByte(a.b0, e.b0);
    MaskedByte(b.b1, e.b1);
    MaskedByte(c.b2, e.b2);
    MaskedByte(d.b3, e.b3);
  }

  lemma MaskedByte(a: Byte, e: Byte)
    ensures Xor(Xor(Xor(a, 0), 0), 0) == a && Xor(Xor(Xor(0, a), 0), 0) == a
    ensures Xor(Xor(Xor(0, 0), a), 0) == a && Xor(Xor(Xor(0, 0), 0), a) == a
    ensures Xor(Xor(Xor(Xor(e, a), 0), 0), 0) == Xor(e, a) && Xor(Xor(Xor(Xor(e, 0), a), 0), 0) == Xor(e, a)
    ensures Xor(Xor(Xor(Xor(e, 0), 0), a), 0) == Xor(e, a) && Xor(Xor(Xor(Xor(e, 0), 0), 0), a) == Xor(e, a)
  {
    XorZero(a);
    XorZero(0);
    ZeroXor(a);
    XorZero(e);
    XorZero(Xor(e, a));
  }

  /** Four table entries make a column. */
  lemma TableRow(p: Coef, a: Byte, b: Byte, c: Byte, d: Byte)
    ensures var q1 := TurnBack(p); var q2 := TurnBack(q1); var q3 := TurnBack(q2);
            XorCol(XorCol(XorCol(Entry(p, a), Entry(q1, b)), Entry(q2, c)), Entry(q3, d))
            == Matrix(Coef(p.p0, p.p3, p.p2, p.p1), Col(a, b, c, d))
  {
    var q := Coef(p.p0, p.p3, p.p2, p.p1);
    var x := Col(a, b, c, d);
    Swapped(Times(p.p0, a), Times(p.p3, b), Times(p.p2, c), Times(p.p1, d));
    Swapped(Times(p.p1, a), Times(p.p0, b), Times(p.p3, c), Times(p.p2, d));
    Swapped(Times(p.p2, a), Times(p.p1, b), Times(p.p0, c), Times(p.p3, d));
    Swapped(Times(p.p3, a), Times(p.p2, b), Times(p.p1, c), Times(p.p0, d));
    RowTurned(q, x);
    RowTurned(q, Turn(x));
    RowTurned(TurnBack(q), x);
    RowTurned(q, Turn(Turn(x)));
    RowTurned(TurnBack(q), Turn(x));
    RowTurned(TurnBack(TurnBack(q)), x);
  }

  // ----- rounds from tables

  function EncColumn(t: Tables, a: Byte, b: Byte, c: Byte, d: Byte, k: Col): Col {
    Sum5(t.te0[a], t.te1[b], t.te2[c], t.te3[d], k)
  }

  function DecColumn(t: Tables, a: Byte, b: Byte, c: Byte, d: Byte, k: Col): Col {
    Sum5(t.td0[a], t.td1[b], t.td2[c], t.td3[d], k)
  }

  function LastColumn(t4: Table, a: Byte, b: Byte, c: Byte, d: Byte, k: Col): Col {
    Sum5(Mask0(t4[a]), Mask1(t4[b]), Mask2(t4[c]), Mask3(t4[d]), k)
  }

  function EncStep(t: Tables, s: State, k: State): State {
    State(EncColumn(t, s.s0.b0, s.s1.b1, s.s2.b2, s.s3.b3, k.s0),
          EncColumn(t, s.s1.b0, s.s2.b1, s.s3.b2, s.s0.b3, k.s1),
          EncColumn(t, s.s2.b0, s.s3.b1, s.s0.b2, s.s1.b3, k.s2),
          EncColumn(t, s.s3.b0, s.s0.b1, s.s1.b2, s.s2.b3, k.s3))
  }

  function DecStep(t: Tables, s: State, k: State): State {
    State(DecColumn(t, s.s0.b0, s.s3.b1, s.s2.b2, s.s1.b3, k.s0),
          DecColumn(t, s.s1.b0, s.s0.b1, s.s3.b2, s.s2.b3, k.s1),
          DecColumn(t, s.s2.b0, s.s1.b1, s.s0.b2, s.s3.b3, k.s2),
          DecColumn(t, s.s3.b0, s.s2.b1, s.s1.b2, s.s0.b3, k.s3))
  }

  function EncLastStep(t: Tables, s: State, k: State): State {
    State(LastColumn(t.te4, s.s0.b0, s.s1.b1, s.s2.b2, s.s3.b3, k.s0),
          LastColumn(t.te4, s.s1.b0, s.s2.b1, s.s3.b2, s.s0.b3, k.s1),
          LastColumn(t.te4, s.s2.b0, s.s3.b1, s.s0.b2, s.s1.b3, k.s2),
          LastColumn(t.te4, s.s3.b0, s.s0.b1, s.s1.b2, s.s2.b3, k.s3))
  }

  function DecLastStep(t: Tables, s: State, k: State): State {
    State(LastColumn(t.td4, s.s0.b0, s.s3.b1, s.s2.b2, s.s1.b3, k.s0),
          LastColumn(t.td4, s.s1.b0, s.s0.b1, s.s3.b2, s.s2.b3, k.s1),
          LastColumn(t.td4, s.s2.b0, s.s1.b1, s.s0.b2, s.s3.b3, k.s2),
          LastColumn(t.td4, s.s3.b0, s.s2.b1, s.s1.b2, s.s0.b3, k.s3))
  }

  predicate At(s: State, k: State) {
    true
  }

  /** Looking up in the tables does the rounds with the steps a. */
  ghost predicate DoesEnc(t: Tables, a: Steps) {
    forall s, k {:trigger At(s, k)} :: EncStep(t, s, k) == a.add(a.mix(a.spread(s)), k)
  }

  ghost predicate DoesEncLast(t: Tables, a: Steps) {
    forall s, k {:trigger At(s, k)} :: EncLastStep(t, s, k) == a.add(a.spread(s), k)
  }

  ghost predicate DoesDec(t: Tables, a: Steps) {
    forall s, k {:trigger At(s, k)} :: DecStep(t, s, k) == a.add(a.unmix(a.gather(s)), k)
  }

  ghost predicate DoesDecLast(t: Tables, a: Steps) {
    forall s, k {:trigger At(s, k)} :: DecLastStep(t, s, k) == a.add(a.gather(s), k)
  }

  ghost predicate Does(t: Tables, a: Steps) {
    DoesEnc(t, a) && DoesEncLast(t, a) && DoesDec(t, a) && DoesDecLast(t, a)
  }

  lemma EncColumnIs(S: Box, Si: Box, a: Byte, b: Byte, c: Byte, d: Byte, k: Col)
    ensures EncColumn(Standard(S, Si), a, b, c, d, k) == XorCol(MixColumn(SubWord(S, Col(a, b, c, d))), k)
    ensures DecColumn(Standard(S, Si), a, b, c, d, k) == XorCol(InvMixColumn(SubWord(Si, Col(a, b, c, d))), k)
  {
    TableRow(Coef(2, 1, 1, 3), S[a], S[b], S[c], S[d]);
    TableRow(Coef(14, 9, 13, 11), Si[a], Si[b], Si[c], Si[d]);
  }

  lemma LastColumnIs(S: Box, a: Byte, b: Byte, c: Byte, d: Byte, k: Col)
    ensures LastColumn(Column(Coef(1, 1, 1, 1), S), a, b, c, d, k) == XorCol(SubWord(S, Col(a, b, c, d)), k)
  {
    var t := Column(Coef(1, 1, 1, 1), S);
    Masked(t[a], t[b], t[c], t[d], k);
    TimesOne(S[a]);
    TimesOne(S[b]);
    TimesOne(S[c]);
    TimesOne(S[d]);
  }

  /** A state of four columns, each from the bytes of a shifted one. */
  lemma EncIs(S: Box, Si: Box, s: State, k: State)
    ensures EncStep(Standard(S, Si), s, k) == XorState(MixColumns(ShiftRows(SubBytes(S, s))), k)
  {
    EncColumnIs(S, Si, s.s0.b0, s.s1.b1, s.s2.b2, s.s3.b3, k.s0);
    EncColumnIs(S, Si, s.s1.b0, s.s2.b1, s.s3.b2, s.s0.b3, k.s1);
    EncColumnIs(S, Si, s.s2.b0, s.s3.b1, s.s0.b2, s.s1.b3, k.s2);
    EncColumnIs(S, Si, s.s3.b0, s.s0.b1, s.s1.b2, s.s2.b3, k.s3);
  }

  lemma EncLastIs(S: Box, Si: Box, s: State, k: State)
    ensures EncLastStep(Standard(S, Si), s, k) == XorState(ShiftRows(SubBytes(S, s)), k)
  {
    LastColumnIs(S, s.s0.b0, s.s1.b1, s.s2.b2, s.s3.b3, k.s0);
    LastColumnIs(S, s.s1.b0, s.s2.b1, s.s3.b2, s.s0.b3, k.s1);
    LastColumnIs(S, s.s2.b0, s.s3.b1, s.s0.b2, s.s1.b3, k.s2);
    LastColumnIs(S, s.s3.b0, s.s0.b1, s.s1.b2, s.s2.b3, k.s3);
  }

  lemma DecIs(S: Box, Si: Box, s: State, k: State)
    ensures DecStep(Standard(S, Si), s, k) == XorState(InvMixColumns(SubBytes(Si, InvShiftRows(s))), k)
  {
    EncColumnIs(S, Si, s.s0.b0, s.s3.b1, s.s2.b2, s.s1.b3, k.s0);
    EncColumnIs(S, Si, s.s1.b0, s.s0.b1, s.s3.b2, s.s2.b3, k.s1);
    EncColumnIs(S, Si, s.s2.b0, s.s1.b1, s.s0.b2, s.s3.b3, k.s2);
    EncColumnIs(S, Si, s.s3.b0, s.s2.b1, s.s1.b2, s.s0.b3, k.s3);
  }

  lemma DecLastIs(S: Box, Si: Box, s: State, k: State)
    ensures DecLastStep(Standard(S, Si), s, k) == XorState(SubBytes(Si, InvShiftRows(s)), k)
  {
    LastColumnIs(Si, s.s0.b0, s.s3.b1, s.s2.b2, s.s1.b3, k.s0);
    LastColumnIs(Si, s.s1.b0, s.s0.b1, s.s3.b2, s.s2.b3, k.s1);
    LastColumnIs(Si, s.s2.b0, s.s1.b1, s.s0.b2, s.s3.b3, k.s2);
    LastColumnIs(Si, s.s3.b0, s.s2.b1, s.s1.b2, s.s0.b3, k.s3);
  }

  /** The generated tables do the rounds of the standard. */
  lemma TablesDoRounds(S: Box, Si: Box)
    ensures Does(Standard(S, Si), Aes(S, Si))
  {
    var t, a := Standard(S, Si), Aes(S, Si);
    forall s: State, k: State ensures EncStep(t, s, k) == a.add(a.mix(a.spread(s)), k) {
      EncIs(S, Si, s, k);
    }
    forall s: State, k: State ensures EncLastStep(t, s, k) == a.add(a.spread(s), k) {
      EncLastIs(S, Si, s, k);
    }
    forall s: State, k: State ensures DecStep(t, s, k) == a.add(a.unmix(a.gather(s)), k) {
      DecIs(S, Si, s, k);
    }
    forall s: State, k: State ensures DecLastStep(t, s, k) == a.add(a.gather(s), k) {
      DecLastIs(S, Si, s, k);
    }
  }

  // ----- blocks and states

  /** GETU32 */
  function GetWord(b: seq<Byte>, o: nat): Col
    requires o + 4 <= |b|
  {
    Col(b[o], b[o + 1], b[o + 2], b[o + 3])
  }

  function StateOf(b: Block): State {
    State(GetWord(b, 0), GetWord(b, 4), GetWord(b, 8), GetWord(b, 12))
  }

  function WordBytes(c: Col): (b: seq<Byte>)
    ensures |b| == 4
  {
    [c.b0, c.b1, c.b2, c.b3]
  }

  function BlockOf(s: State): Block {
    WordBytes(s.s0) + WordBytes(s.s1) + WordBytes(s.s2) + WordBytes(s.s3)
  }

  /** Section 3.4 of FIPS 197: the bytes go down the columns. */
  lemma StateOfIs(b: Block, r: nat, c: nat)
    requires r < 4 && c < 4
    ensures Item(StateOf(b), r, c) == b[r + 4 * c]
  {
  }

  lemma BlockAndState(b: Block, s: State)
    ensures BlockOf(StateOf(b)) == b && StateOf(BlockOf(s)) == s
  {
  }

  // ----- encryption and decryption

  function KeyAt(rk: seq<Col>, o: nat): State
    requires o + 4 <= |rk|
  {
    State(rk[o], rk[o + 1], rk[o + 2], rk[o + 3])
  }

  method EncRound(t: Tables, s: State, rk: array<Col>, o: nat, ghost a: Steps) returns (n: State)
    requires DoesEnc(t, a) && o + 4 <= rk.Length
    ensures n == a.add(a.mix(a.spread(s)), KeyAt(rk[..], o))
  {
    var t0 := EncColumn(t, s.s0.b0, s.s1.b1, s.s2.b2, s.s3.b3, rk[o]);
    var t1 := EncColumn(t, s.s1.b0, s.s2.b1, s.s3.b2, s.s0.b3, rk[o + 1]);
    var t2 := EncColumn(t, s.s2.b0, s.s3.b1, s.s0.b2, s.s1.b3, rk[o + 2]);
    var t3 := EncColumn(t, s.s3.b0, s.s0.b1, s.s1.b2, s.s2.b3, rk[o + 3]);
    n := State(t0, t1, t2, t3);
    assert At(s, KeyAt(rk[..], o));
  }

  method DecRound(t: Tables, s: State, rk: array<Col>, o: nat, ghost a: Steps) returns (n: State)
    requires DoesDec(t, a) && o + 4 <= rk.Length
    ensures n == a.add(a.unmix(a.gather(s)), KeyAt(rk[..], o))
  {
    var t0 := DecColumn(t, s.s0.b0, s.s3.b1, s.s2.b2, s.s1.b3, rk[o]);
    var t1 := DecColumn(t, s.s1.b0, s.s0.b1, s.s3.b2, s.s2.b3, rk[o + 1]);
    var t2 := DecColumn(t, s.s2.b0, s.s1.b1, s.s0.b2, s.s3.b3, rk[o + 2]);
    var t3 := DecColumn(t, s.s3.b0, s.s2.b1, s.s1.b2, s.s0.b3, rk[o + 3]);
    n := State(t0, t1, t2, t3);
    assert At(s, KeyAt(rk[..], o));
  }

  method EncLast(t: Tables, s: State, rk: array<Col>, o: nat, ghost a: Steps) returns (n: State)
    requires DoesEncLast(t, a) && o + 4 <= rk.Length
    ensures n == a.add(a.spread(s), KeyAt(rk[..], o))
  {
    var t0 := LastColumn(t.te4, s.s0.b0, s.s1.b1, s.s2.b2, s.s3.b3, rk[o]);
    var t1 := LastColumn(t.te4, s.s1.b0, s.s2.b1, s.s3.b2, s.s0.b3, rk[o + 1]);
    var t2 := LastColumn(t.te4, s.s2.b0, s.s3.b1, s.s0.b2, s.s1.b3, rk[o + 2]);
    var t3 := LastColumn(t.te4, s.s3.b0, s.s0.b1, s.s1.b2, s.s2.b3, rk[o + 3]);
    n := State(t0, t1, t2, t3);
    assert At(s, KeyAt(rk[..], o));
  }

  method DecLast(t: Tables, s: State, rk: array<Col>, o: nat, ghost a: Steps) returns (n: State)
    requires DoesDecLast(t, a) && o + 4 <= rk.Length
    ensures n == a.add(a.gather(s), KeyAt(rk[..], o))
  {
    var t0 := LastColumn(t.td4, s.s0.b0, s.s3.b1, s.s2.b2, s.s1.b3, rk[o]);
    var t1 := LastColumn(t.td4, s.s1.b0, s.s0.b1, s.s3.b2, s.s2.b3, rk[o + 1]);
    var t2 := LastColumn(t.td4, s.s2.b0, s.s1.b1, s.s0.b2, s.s3.b3, rk[o + 2]);
    var t3 := LastColumn(t.td4, s.s3.b0, s.s2.b1, s.s1.b2, s.s0.b3, rk[o + 3]);
    n := State(t0, t1, t2, t3);
    assert At(s, KeyAt(rk[..], o));
  }

  /** The block is mapped to the state, with the first round key. */
  method Start(rk: array<Col>, b: array<Byte>) returns (s: State)
    requires rk.Length >= 4 && b.Length == 16
    ensures s == XorState(StateOf(b[..]), State(rk[0], rk[1], rk[2], rk[3]))
  {
    s := State(XorCol(GetWord(b[..], 0), rk[0]), XorCol(GetWord(b[..], 4), rk[1]),
               XorCol(GetWord(b[..], 8), rk[2]), XorCol(GetWord(b[..], 12), rk[3]));
  }

  /** PUTU32 */
  method PutWord(b: array<Byte>, o: nat, c: Col)
    requires o + 4 <= b.Length
    modifies b
    ensures b[..] == old(b[..o]) + WordBytes(c) + old(b[o + 4..])
  {
    b[o], b[o + 1], b[o + 2], b[o + 3] := c.b0, c.b1, c.b2, c.b3;
  }

  method PutState(b: array<Byte>, s: State)
    requires b.Length == 16
    modifies b
    ensures b[..] == BlockOf(s)
  {
    PutWord(b, 0, s.s0);
    PutWord(b, 4, s.s1);
    PutWord(b, 8, s.s2);
    PutWord(b, 12, s.s3);
  }

  /** The round keys k in rk. */
  ghost predicate HoldsKeys(rk: seq<Col>, k: seq<State>) {
    |rk| >= 4 * |k| && forall i :: 0 <= i < |k| ==> k[i] == KeyAt(rk, 4 * i)
  }

  /** Nr - 1 full rounds, two in each turn of the loop but the last. */
  method EncFull(t: Tables, rk: array<Col>, h: nat, s0: State, ghost a: Steps, ghost k: seq<State>, ghost p: State)
    returns (q: State, o: nat)
    requires DoesEnc(t, a) && h > 0 && |k| == 2 * h + 1 && HoldsKeys(rk[..], k) && s0 == Full(a, k, p, 0)
    ensures q == Full(a, k, p, |k| - 2) && o == 8 * h
  {
    var r, s := h, s0;
    o := 0;
    ghost var i := 0;
    while true
      invariant r > 0 && i + 2 * r == |k| - 1 && o == 4 * i && s == Full(a, k, p, i)
      decreases r
    {
      q := EncRound(t, s, rk, o + 4, a);
      assert q == Full(a, k, p, i + 1);
      o := o + 8;
      r := r - 1;
      if r == 0 {
        break;
      }
      s := EncRound(t, q, rk, o, a);
      i := i + 2;
    }
  }

  method DecFull(t: Tables, rk: array<Col>, h: nat, s0: State, ghost a: Steps, ghost k: seq<State>, ghost c: State)
    returns (q: State, o: nat)
    requires DoesDec(t, a) && h > 0 && |k| == 2 * h + 1 && HoldsKeys(rk[..], k) && s0 == EqFull(a, k, c, 0)
    ensures q == EqFull(a, k, c, |k| - 2) && o == 8 * h
  {
    var r, s := h, s0;
    o := 0;
    ghost var i := 0;
    while true
      invariant r > 0 && i + 2 * r == |k| - 1 && o == 4 * i && s == EqFull(a, k, c, i)
      decreases r
    {
      q := DecRound(t, s, rk, o + 4, a);
      assert q == EqFull(a, k, c, i + 1);
      o := o + 8;
      r := r - 1;
      if r == 0 {
        break;
      }
      s := DecRound(t, q, rk, o, a);
      i := i + 2;
    }
  }

  /** The bytes that the cipher and the equivalent inverse cipher make of a block. */
  function Encrypted(a: Steps, k: seq<State>, b: Block): Block
    requires |k| > 1
  {
    BlockOf(Fips197.Cipher(a, k, StateOf(b)))
  }

  function Decrypted(a: Steps, k: seq<State>, b: Block): Block
    requires |k| > 1
  {
    BlockOf(EqInvCipher(a, k, StateOf(b)))
  }

  method EncState(t: Tables, rk: array<Col>, nr: nat, s: State, ghost a: Steps, ghost k: seq<State>, ghost p: State)
    returns (n: State)
    requires Does(t, a) && nr > 0 && nr % 2 == 0 && |k| == nr + 1 && HoldsKeys(rk[..], k) && s == a.add(p, k[0])
    ensures n == Fips197.Cipher(a, k, p)
  {
    var q, o := EncFull(t, rk, nr / 2, s, a, k, p);
    n := EncLast(t, q, rk, o, a);
  }

  method DecState(t: Tables, rk: array<Col>, nr: nat, s: State, ghost a: Steps, ghost k: seq<State>, ghost c: State)
    returns (n: State)
    requires Does(t, a) && nr > 0 && nr % 2 == 0 && |k| == nr + 1 && HoldsKeys(rk[..], k) && s == a.add(c, k[0])
    ensures n == EqInvCipher(a, k, c)
  {
    var q, o := DecFull(t, rk, nr / 2, s, a, k, c);
    n := DecLast(t, q, rk, o, a);
  }

  /** rijndaelEncrypt with the round keys k in rk: the cipher. pt and ct may be the same. */
  method Encrypt(t: Tables, rk: array<Col>, nr: nat, pt: array<Byte>, ct: array<Byte>, ghost a: Steps,
                 ghost k: seq<State>)
    requires Does(t, a) && a.add == XorState && nr > 0 && nr % 2 == 0 && |k| == nr + 1 && HoldsKeys(rk[..], k)
    requires pt.Length == ct.Length == 16
    modifies ct
    ensures ct[..] == Encrypted(a, k, old(pt[..]))
  {
    ghost var p := StateOf(pt[..]);
    var s := Start(rk, pt);
    var n := EncState(t, rk, nr, s, a, k, p);
    PutState(ct, n);
  }

  /** rijndaelDecrypt: the equivalent inverse cipher. */
  method Decrypt(t: Tables, rk: array<Col>, nr: nat, ct: array<Byte>, pt: array<Byte>, ghost a: Steps,
                 ghost k: seq<State>)
    requires Does(t, a) && a.add == XorState && nr > 0 && nr % 2 == 0 && |k| == nr + 1 && HoldsKeys(rk[..], k)
    requires pt.Length == ct.Length == 16
    modifies pt
    ensures pt[..] == Decrypted(a, k, old(ct[..]))
  {
    ghost var c := StateOf(ct[..]);
    var s := Start(rk, ct);
    var n := DecState(t, rk, nr, s, a, k, c);
    PutState(pt, n);
  }
}
