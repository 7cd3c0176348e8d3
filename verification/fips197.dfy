/** The cipher, its inverse and the key expansion of FIPS 197, over any S-box, and why the
    inverse and the equivalent inverse cipher undo the cipher. */
module Fips197 {
  import opened Bits
  import opened Field
  import opened Shift

  type Box = s: seq<Byte> | |s| == 256 witness seq(256, _ => 0)

  /** Si is the inverse of the S-box S. */
  ghost predicate Inverse(S: Box, Si: Box) {
    forall x: Byte :: Si[S[x]] == x && S[Si[x]] == x
  }

  datatype State = State(s0: Col, s1: Col, s2: Col, s3: Col)

  // ----- the steps of a round, sections 5.1 and 5.3

  function SubWord(S: Box, c: Col): Col {
    Col(S[c.b0], S[c.b1], S[c.b2], S[c.b3])
  }

  function SubBytes(S: Box, s: State): State {
    State(SubWord(S, s.s0), SubWord(S, s.s1), SubWord(S, s.s2), SubWord(S, s.s3))
  }

  function ShiftRows(s: State): State {
    State(Col(s.s0.b0, s.s1.b1, s.s2.b2, s.s3.b3), Col(s.s1.b0, s.s2.b1, s.s3.b2, s.s0.b3),
          Col(s.s2.b0, s.s3.b1, s.s0.b2, s.s1.b3), Col(s.s3.b0, s.s0.b1, s.s1.b2, s.s2.b3))
  }

  function InvShiftRows(s: State): State {
    State(Col(s.s0.b0, s.s3.b1, s.s2.b2, s.s1.b3), Col(s.s1.b0, s.s0.b1, s.s3.b2, s.s2.b3),
          Col(s.s2.b0, s.s1.b1, s.s0.b2, s.s3.b3), Col(s.s3.b0, s.s2.b1, s.s1.b2, s.s0.b3))
  }

  /** The byte in row r and column c. */
  function Item(s: State, r: nat, c: nat): Byte
    requires r < 4 && c < 4
  {
    var col := [s.s0, s.s1, s.s2, s.s3][c];
    [col.b0, col.b1, col.b2, col.b3][r]
  }

  /** Section 5.1.2 of FIPS 197: row r moves r places to the left, in section 5.3.1 back. */
  lemma ShiftRowsIs(s: State, r: nat, c: nat)
    requires r < 4 && c < 4
    ensures Item(ShiftRows(s), r, c) == Item(s, r, (c + r) % 4)
    ensures Item(InvShiftRows(s), r, (c + r) % 4) == Item(s, r, c)
  {
  }

  function MixColumns(s: State): State {
    State(MixColumn(s.s0), MixColumn(s.s1), MixColumn(s.s2), MixColumn(s.s3))
  }

  function InvMixColumns(s: State): State {
    State(InvMixColumn(s.s0), InvMixColumn(s.s1), InvMixColumn(s.s2), InvMixColumn(s.s3))
  }

  function XorState(s: State, k: State): State {
    State(XorCol(s.s0, k.s0), XorCol(s.s1, k.s1), XorCol(s.s2, k.s2), XorCol(s.s3, k.s3))
  }

  lemma StepsUndone(S: Box, Si: Box, s: State, k: State)
    requires Inverse(S, Si)
    ensures SubBytes(Si, SubBytes(S, s)) == s && SubBytes(S, SubBytes(Si, s)) == s
    ensures InvShiftRows(ShiftRows(s)) == s && ShiftRows(InvShiftRows(s)) == s
    ensures InvMixColumns(MixColumns(s)) == s && MixColumns(InvMixColumns(s)) == s
    ensures XorState(XorState(s, k), k) == s
  {
    Unmixed(s.s0);
    Unmixed(s.s1);
    Unmixed(s.s2);
    Unmixed(s.s3);
    XorColTwice(s.s0, k.s0);
    XorColTwice(s.s1, k.s1);
    XorColTwice(s.s2, k.s2);
    XorColTwice(s.s3, k.s3);
  }

  lemma InvMixXor(s: State, k: State)
    ensures InvMixColumns(XorState(s, k)) == XorState(InvMixColumns(s), InvMixColumns(k))
  {
    MatrixXor(UNMIX, s.s0, k.s0);
    MatrixXor(UNMIX, s.s1, k.s1);
    MatrixXor(UNMIX, s.s2, k.s2);
    MatrixXor(UNMIX, s.s3, k.s3);
  }

  /** The steps of a round together: substitution and shift, the columns, the key. */
  datatype Steps = Steps(spread: State -> State, gather: State -> State, mix: State -> State, unmix: State -> State,
                         add: (State, State) -> State)
  {
    /** Each is undone by its inverse, and unmix is linear. */
    ghost predicate Undo() {
      && (forall s :: gather(spread(s)) == s && spread(gather(s)) == s)
      && (forall s :: unmix(mix(s)) == s && mix(unmix(s)) == s)
      && (forall s, k :: add(add(s, k), k) == s)
      && (forall s, k :: unmix(add(s, k)) == add(unmix(s), unmix(k)))
    }
  }

  function Aes(S: Box, Si: Box): Steps {
    Steps(s => ShiftRows(SubBytes(S, s)), s => SubBytes(Si, InvShiftRows(s)), MixColumns, InvMixColumns, XorState)
  }

  lemma Gathered(S: Box, Si: Box, s: State)
    requires Inverse(S, Si)
    ensures SubBytes(Si, InvShiftRows(ShiftRows(SubBytes(S, s)))) == s
    ensures ShiftRows(SubBytes(S, SubBytes(Si, InvShiftRows(s)))) == s
  {
    StepsUndone(S, Si, s, s);
    StepsUndone(S, Si, SubBytes(S, s), s);
    StepsUndone(S, Si, InvShiftRows(s), s);
  }

  lemma AesUndo(S: Box, Si: Box)
    requires Inverse(S, Si)
    ensures Aes(S, Si).Undo()
  {
    var t := Aes(S, Si);
    forall s ensures t.gather(t.spread(s)) == s && t.spread(t.gather(s)) == s {
      Gathered(S, Si, s);
    }
    forall s ensures t.unmix(t.mix(s)) == s && t.mix(t.unmix(s)) == s {
      StepsUndone(S, Si, s, s);
    }
    forall s, k ensures t.add(t.add(s, k), k) == s {
      StepsUndone(S, Si, s, k);
    }
    forall s, k ensures t.unmix(t.add(s, k)) == t.add(t.unmix(s), t.unmix(k)) {
      InvMixXor(s, k);
    }
  }

  // ----- the cipher, section 5.1, with the round keys k

  /** The state after i full rounds. */
  function Full(t: Steps, k: seq<State>, p: State, i: nat): State
    requires i < |k|
  {
    if i == 0 then t.add(p, k[0]) else t.add(t.mix(t.spread(Full(t, k, p, i - 1))), k[i])
  }

  function Cipher(t: Steps, k: seq<State>, p: State): State
    requires |k| > 1
  {
    t.add(t.spread(Full(t, k, p, |k| - 2)), k[|k| - 1])
  }

  // ----- the inverse cipher, section 5.3

  function InvFull(t: Steps, k: seq<State>, c: State, i: nat): State
    requires i < |k|
  {
    if i == 0 then t.add(c, k[|k| - 1]) else t.unmix(t.add(t.gather(InvFull(t, k, c, i - 1)), k[|k| - 1 - i]))
  }

  function InvCipher(t: Steps, k: seq<State>, c: State): State
    requires |k| > 1
  {
    t.add(t.gather(InvFull(t, k, c, |k| - 2)), k[0])
  }

  lemma {:induction false} Backward(t: Steps, k: seq<State>, p: State, i: nat)
    requires t.Undo() && i < |k| - 1
    ensures InvFull(t, k, Cipher(t, k, p), i) == t.spread(Full(t, k, p, |k| - 2 - i))
  {
    if i > 0 {
      Backward(t, k, p, i - 1);
    }
  }

  lemma {:induction false} Forward(t: Steps, k: seq<State>, c: State, i: nat)
    requires t.Undo() && i < |k| - 1
    ensures Full(t, k, InvCipher(t, k, c), i) == t.gather(InvFull(t, k, c, |k| - 2 - i))
  {
    if i > 0 {
      Forward(t, k, c, i - 1);
      assert t.spread(Full(t, k, InvCipher(t, k, c), i - 1)) == InvFull(t, k, c, |k| - 1 - i);
    }
  }

  /** The inverse cipher undoes the cipher, and the other way round, for any round keys. */
  lemma CipherUndone(t: Steps, k: seq<State>, s: State)
    requires t.Undo() && |k| > 1
    ensures InvCipher(t, k, Cipher(t, k, s)) == s && Cipher(t, k, InvCipher(t, k, s)) == s
  {
    Backward(t, k, s, |k| - 2);
    Forward(t, k, s, |k| - 2);
    assert InvFull(t, k, s, 0) == t.add(s, k[|k| - 1]);
  }

  // ----- the equivalent inverse cipher, section 5.3.5

  /** The round keys for it: in the other order, and all but the first and the last with
      InvMixColumns. */
  ghost predicate DecKeys(t: Steps, dk: seq<State>, k: seq<State>) {
    && |dk| == |k|
    && forall i :: 0 <= i < |k| ==> dk[i] == if 0 < i < |k| - 1 then t.unmix(k[|k| - 1 - i]) else k[|k| - 1 - i]
  }

  function EqFull(t: Steps, dk: seq<State>, c: State, i: nat): State
    requires i < |dk|
  {
    if i == 0 then t.add(c, dk[0]) else t.add(t.unmix(t.gather(EqFull(t, dk, c, i - 1))), dk[i])
  }

  function EqInvCipher(t: Steps, dk: seq<State>, c: State): State
    requires |dk| > 1
  {
    t.add(t.gather(EqFull(t, dk, c, |dk| - 2)), dk[|dk| - 1])
  }

  lemma {:induction false} EqRounds(t: Steps, dk: seq<State>, k: seq<State>, c: State, i: nat)
    requires t.Undo() && DecKeys(t, dk, k) && i < |k| - 1
    ensures EqFull(t, dk, c, i) == InvFull(t, k, c, i)
  {
    if i > 0 {
      EqRounds(t, dk, k, c, i - 1);
    }
  }

  /** It is the inverse cipher. */
  lemma EquivalentInverse(t: Steps, dk: seq<State>, k: seq<State>, c: State)
    requires t.Undo() && DecKeys(t, dk, k) && |k| > 1
    ensures EqInvCipher(t, dk, c) == InvCipher(t, k, c)
  {
    EqRounds(t, dk, k, c, |k| - 2);
  }

  // ----- key expansion, section 5.2

  function Rcon(i: nat): Byte {
    if i == 0 then 1 else Xtime(Rcon(i - 1))
  }

  /** The constants are the powers of two in the field. */
  lemma {:induction false} RconIsPower(i: nat)
    ensures Rcon(i) == Times(Pow2(i), 1)
  {
    if i == 0 {
      TimesOne(1);
    } else {
      RconIsPower(i - 1);
      XtimeTimes(Pow2(i - 1), 1);
      TimesTwice(Pow2(i - 1), 1);
    }
  }

  function RotWord(c: Col): Col {
    Turn(c)
  }

  /** Word i of the schedule for a key of nk words. */
  function W(S: Box, key: seq<Col>, nk: nat, i: nat): Col
    requires nk > 0 && |key| >= nk
    decreases i
  {
    if i < nk then key[i]
    else
      var t := W(S, key, nk, i - 1);
      XorCol(W(S, key, nk, i - nk),
             if i % nk == 0 then XorCol(SubWord(S, RotWord(t)), Col(Rcon(i / nk - 1), 0, 0, 0))
             else if nk > 6 && i % nk == 4 then SubWord(S, t)
             else t)
  }

  function Schedule(S: Box, key: seq<Col>, nk: nat, n: nat): (w: seq<Col>)
    requires nk > 0 && |key| >= nk
    ensures |w| == n
  {
    seq(n, i requires 0 <= i < n => W(S, key, nk, i))
  }

  /** The round keys of a schedule, four words each. */
  function RoundKeys(w: seq<Col>, nr: nat): (k: seq<State>)
    requires |w| >= 4 * nr + 4
    ensures |k| == nr + 1
  {
    seq(nr + 1, i requires 0 <= i <= nr => State(w[4 * i], w[4 * i + 1], w[4 * i + 2], w[4 * i + 3]))
  }
}
