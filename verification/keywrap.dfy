/** AES key wrap (RFC 3394) over any block permutation. */
module KeyWrap {
  import opened Bits
  import Shift
  import Words

  type Half = s: seq<Byte> | |s| == 8 witness seq(8, _ => 0)

  /** The cipher and its inverse under one key. */
  ghost predicate Inverses(E: Cipher, D: Cipher) {
    forall x: Block :: D(E(x)) == x && E(D(x)) == x
  }

  const IV: Half := [0xa6, 0xa6, 0xa6, 0xa6, 0xa6, 0xa6, 0xa6, 0xa6]
  const MAX_WRAP_LEN := 384

  // ----- the registers

  /** A and the n registers R, eight bytes each. */
  datatype State = State(a: Half, r: seq<Byte>)

  function Get(r: seq<Byte>, i: nat): Half
    requires 8 * i + 8 <= |r|
  {
    r[8 * i..8 * i + 8]
  }

  function Put(r: seq<Byte>, i: nat, h: Half): (s: seq<Byte>)
    requires 8 * i + 8 <= |r|
    ensures |s| == |r|
  {
    r[..8 * i] + h + r[8 * i + 8..]
  }

  lemma PutGet(r: seq<Byte>, i: nat, h: Half, g: Half)
    requires 8 * i + 8 <= |r|
    ensures Get(Put(r, i, h), i) == h
    ensures Put(Put(r, i, h), i, g) == Put(r, i, g)
    ensures Put(r, i, Get(r, i)) == r
  {
    var s := Put(r, i, h);
    assert s[..8 * i] == r[..8 * i] && s[8 * i + 8..] == r[8 * i + 8..];
  }

  /** A byte xored into the last byte of A. */
  function XorByte(a: Half, t: Byte): Half {
    a[..7] + [Xor(a[7], t)]
  }

  lemma XorByteTwice(a: Half, t: Byte)
    ensures XorByte(XorByte(a, t), t) == a
  {
    XorTwice(a[7], t);
    assert a == a[..7] + [a[7]];
    assert XorByte(a, t)[..7] == a[..7];
  }

  /** The counter as it enters A: the byte that is left of it. */
  function CounterByte(t: nat): Byte {
    t % 256
  }

  // ----- steps and their inverses

  type Step = (nat, State) -> State

  /** The steps 0 to k - 1, and steps from k - 1 down to 0. */
  function Steps(f: Step, k: nat, s: State): State {
    if k == 0 then s else f(k - 1, Steps(f, k - 1, s))
  }

  function StepsDown(g: Step, k: nat, s: State): State {
    if k == 0 then s else StepsDown(g, k - 1, g(k - 1, s))
  }

  ghost predicate Undoes(f: Step, g: Step) {
    forall k: nat, s: State :: g(k, f(k, s)) == s && f(k, g(k, s)) == s
  }

  lemma {:induction false} StepsUndone(f: Step, g: Step, k: nat, s: State)
    requires Undoes(f, g)
    ensures StepsDown(g, k, Steps(f, k, s)) == s && Steps(f, k, StepsDown(g, k, s)) == s
  {
    if k > 0 {
      StepsUndone(f, g, k - 1, s);
      StepsUndone(f, g, k - 1, g(k - 1, s));
    }
  }

  ghost predicate KeepsLength(f: Step) {
    forall k: nat, s: State :: |f(k, s).r| == |s.r|
  }

  lemma {:induction false} StepsKeepLength(f: Step, k: nat, s: State)
    requires KeepsLength(f)
    ensures |Steps(f, k, s).r| == |s.r| && |StepsDown(f, k, s).r| == |s.r|
  {
    if k > 0 {
      StepsKeepLength(f, k - 1, s);
      StepsKeepLength(f, k - 1, f(k - 1, s));
    }
  }

  // ----- one step

  /** Register i and A are encrypted; the counter t enters A. */
  function WrapAt(E: Cipher, i: nat, t: Byte, s: State): (u: State)
    requires 8 * i + 8 <= |s.r|
    ensures |u.r| == |s.r|
  {
    var b := E(s.a + Get(s.r, i));
    State(XorByte(b[..8], t), Put(s.r, i, b[8..]))
  }

  function UnwrapAt(D: Cipher, i: nat, t: Byte, s: State): (u: State)
    requires 8 * i + 8 <= |s.r|
    ensures |u.r| == |s.r|
  {
    var b := D(XorByte(s.a, t) + Get(s.r, i));
    State(b[..8], Put(s.r, i, b[8..]))
  }

  lemma AtUndone(E: Cipher, D: Cipher, i: nat, t: Byte, s: State)
    requires Inverses(E, D) && 8 * i + 8 <= |s.r|
    ensures UnwrapAt(D, i, t, WrapAt(E, i, t, s)) == s
    ensures WrapAt(E, i, t, UnwrapAt(D, i, t, s)) == s
  {
    var x := s.a + Get(s.r, i);
    var b := E(x);
    XorByteTwice(b[..8], t);
    PutGet(s.r, i, b[8..], Get(s.r, i));
    assert b[..8] + b[8..] == b && x[..8] == s.a && x[8..] == Get(s.r, i);
    var y := XorByte(s.a, t) + Get(s.r, i);
    var c := D(y);
    XorByteTwice(s.a, t);
    PutGet(s.r, i, c[8..], Get(s.r, i));
    assert c[..8] + c[8..] == c && y[..8] == XorByte(s.a, t) && y[8..] == Get(s.r, i);
  }

  /** Step k of 6 * n, counted from zero, is about register k % n. */
  function WrapStep(E: Cipher, n: nat): Step {
    (k: nat, s: State) => if 0 < n && |s.r| == 8 * n then WrapAt(E, Index(k, n), CounterByte(k + 1), s) else s
  }

  function UnwrapStep(D: Cipher, n: nat): Step {
    (k: nat, s: State) => if 0 < n && |s.r| == 8 * n then UnwrapAt(D, Index(k, n), CounterByte(k + 1), s) else s
  }

  function Index(k: nat, n: nat): (i: nat)
    requires n > 0
    ensures i < n
  {
    k % n
  }

  lemma StepUndone(E: Cipher, D: Cipher, n: nat)
    requires Inverses(E, D)
    ensures Undoes(WrapStep(E, n), UnwrapStep(D, n))
  {
    var f, g := WrapStep(E, n), UnwrapStep(D, n);
    forall k: nat, s: State ensures g(k, f(k, s)) == s && f(k, g(k, s)) == s {
      OneUndone(E, D, n, k, s);
    }
  }

  lemma OneUndone(E: Cipher, D: Cipher, n: nat, k: nat, s: State)
    requires Inverses(E, D)
    ensures UnwrapStep(D, n)(k, WrapStep(E, n)(k, s)) == s
    ensures WrapStep(E, n)(k, UnwrapStep(D, n)(k, s)) == s
  {
    if 0 < n && |s.r| == 8 * n {
      AtUndone(E, D, Index(k, n), CounterByte(k + 1), s);
    }
  }

  // ----- wrapping and unwrapping

  datatype Result = Ok(out: seq<Byte>) | Error

  predicate KeyLength(kl: nat) {
    kl == 16 || kl == 24 || kl == 32
  }

  function Output(s: State): seq<Byte> {
    s.a + s.r
  }

  function Input(c: seq<Byte>): State
    requires |c| >= 8
  {
    State(c[..8], c[8..])
  }

  lemma OutputInput(s: State, c: seq<Byte>)
    requires |c| >= 8
    ensures Input(Output(s)) == s && Output(Input(c)) == c
  {
    assert (s.a + s.r)[..8] == s.a && (s.a + s.r)[8..] == s.r;
    assert c == c[..8] + c[8..];
  }

  function Wrapped(E: Cipher, p: seq<Byte>): State {
    var n := |p| / 8;
    Steps(WrapStep(E, n), 6 * n, State(IV, p))
  }

  function Unwrapped(D: Cipher, c: seq<Byte>): State
    requires |c| >= 8
  {
    var n := |c| / 8 - 1;
    StepsDown(UnwrapStep(D, n), 6 * n, Input(c))
  }

  predicate CanWrap(kl: nat, len: nat) {
    KeyLength(kl) && len <= MAX_WRAP_LEN && len % 8 == 0
  }

  predicate CanUnwrap(kl: nat, len: nat) {
    KeyLength(kl) && len <= MAX_WRAP_LEN + 8 && len % 8 == 0
  }

  /** What aes_wrap computes. */
  function Wrap(E: Cipher, kl: nat, p: seq<Byte>): Result {
    if CanWrap(kl, |p|) then Ok(Output(Wrapped(E, p))) else Error
  }

  /** What aes_unwrap computes. Without any input the source has no eight bytes for A. */
  function Unwrap(D: Cipher, kl: nat, c: seq<Byte>): Result
    requires KeyLength(kl) ==> |c| > 0
  {
    if !CanUnwrap(kl, |c|) then Error
    else
      var s := Unwrapped(D, c);
      if s.a == IV then Ok(s.r) else Error
  }

  lemma WrapKeepsLength(E: Cipher, n: nat)
    ensures KeepsLength(WrapStep(E, n))
  {
    var f := WrapStep(E, n);
    forall k: nat, s: State ensures |f(k, s).r| == |s.r| {
      assert f(k, s) == if 0 < n && |s.r| == 8 * n then WrapAt(E, Index(k, n), CounterByte(k + 1), s) else s;
    }
  }

  lemma UnwrapKeepsLength(D: Cipher, n: nat)
    ensures KeepsLength(UnwrapStep(D, n))
  {
    var g := UnwrapStep(D, n);
    forall k: nat, s: State ensures |g(k, s).r| == |s.r| {
      assert g(k, s) == if 0 < n && |s.r| == 8 * n then UnwrapAt(D, Index(k, n), CounterByte(k + 1), s) else s;
    }
  }

  lemma SameLength(E: Cipher, D: Cipher, p: seq<Byte>, c: seq<Byte>)
    requires |c| >= 8
    ensures |Wrapped(E, p).r| == |p| && |Unwrapped(D, c).r| == |c| - 8
  {
    WrapKeepsLength(E, |p| / 8);
    StepsKeepLength(WrapStep(E, |p| / 8), 6 * (|p| / 8), State(IV, p));
    var n := |c| / 8 - 1;
    UnwrapKeepsLength(D, n);
    StepsKeepLength(UnwrapStep(D, n), 6 * n, Input(c));
  }

  lemma UnwrapWrapped(E: Cipher, D: Cipher, p: seq<Byte>)
    requires Inverses(E, D) && |p| % 8 == 0
    ensures |Output(Wrapped(E, p))| == |p| + 8
    ensures Unwrapped(D, Output(Wrapped(E, p))) == State(IV, p)
  {
    var n, c := |p| / 8, Output(Wrapped(E, p));
    SameLength(E, D, p, IV);
    OutputInput(Wrapped(E, p), IV);
    StepUndone(E, D, n);
    StepsUndone(WrapStep(E, n), UnwrapStep(D, n), 6 * n, State(IV, p));
    assert |c| / 8 - 1 == n;
  }

  lemma WrapUnwrapped(E: Cipher, D: Cipher, c: seq<Byte>, p: seq<Byte>)
    requires Inverses(E, D) && |c| % 8 == 0 && |c| >= 8 && Unwrapped(D, c) == State(IV, p)
    ensures |p| == |c| - 8 && Output(Wrapped(E, p)) == c
  {
    var n := |c| / 8 - 1;
    SameLength(E, D, IV, c);
    StepUndone(E, D, n);
    StepsUndone(WrapStep(E, n), UnwrapStep(D, n), 6 * n, Input(c));
    assert |p| / 8 == n;
    OutputInput(State(IV, p), c);
  }

  lemma WrapThenUnwrap(E: Cipher, D: Cipher, kl: nat, p: seq<Byte>, c: seq<Byte>)
    requires Inverses(E, D) && Wrap(E, kl, p) == Ok(c)
    ensures |c| >= 8 && Unwrap(D, kl, c) == Ok(p)
  {
    UnwrapWrapped(E, D, p);
  }

  lemma UnwrapThenWrap(E: Cipher, D: Cipher, kl: nat, p: seq<Byte>, c: seq<Byte>)
    requires Inverses(E, D) && (KeyLength(kl) ==> |c| > 0) && Unwrap(D, kl, c) == Ok(p)
    ensures Wrap(E, kl, p) == Ok(c)
  {
    var u := Unwrapped(D, c);
    assert u == State(IV, p);
    WrapUnwrapped(E, D, c, p);
  }

  /** Unwrapping accepts exactly what wrapping makes, and gives back what was wrapped. */
  lemma WrapUnwrap(E: Cipher, D: Cipher, kl: nat, p: seq<Byte>, c: seq<Byte>)
    requires Inverses(E, D) && (KeyLength(kl) ==> |c| > 0)
    ensures Wrap(E, kl, p) == Ok(c) <==> Unwrap(D, kl, c) == Ok(p)
  {
    if Wrap(E, kl, p) == Ok(c) {
      WrapThenUnwrap(E, D, kl, p, c);
    }
    if Unwrap(D, kl, c) == Ok(p) {
      UnwrapThenWrap(E, D, kl, p, c);
    }
  }

  // ----- RFC 3394

  /** Byte i of t as a 64-bit number, the most significant byte first. */
  function ByteOf(t: nat, i: nat): Byte
    requires i < 8
    decreases 8 - i
  {
    if i == 7 then t % 256 else ByteOf(t / 256, i + 1)
  }

  /** A ^ t in section 2.2.1 of RFC 3394, where t has 64 bits. */
  function XorCounter(a: Half, t: nat): Half {
    seq(8, i requires 0 <= i < 8 => Xor(a[i], ByteOf(t, i)))
  }

  lemma {:induction false} HighBytesZero(t: nat, i: nat)
    requires i < 8 && t < 256
    ensures ByteOf(t, i) == if i == 7 then t else 0
  {
    if i < 7 {
      ByteOfZero(i + 1);
    }
  }

  lemma {:induction false} ByteOfZero(i: nat)
    requires i < 8
    ensures ByteOf(0, i) == 0
    decreases 8 - i
  {
    if i < 7 {
      ByteOfZero(i + 1);
    }
  }

  lemma ShortCounter(a: Half, t: nat)
    requires t < 256
    ensures XorCounter(a, t) == XorByte(a, CounterByte(t))
  {
    forall i | 0 <= i < 8 ensures XorCounter(a, t)[i] == XorByte(a, CounterByte(t))[i] {
      HighBytesZero(t, i);
      XorZero(a[i]);
    }
  }

  function RfcAt(E: Cipher, i: nat, t: nat, s: State): (u: State)
    requires 8 * i + 8 <= |s.r|
    ensures |u.r| == |s.r|
  {
    var b := E(s.a + Get(s.r, i));
    State(XorCounter(b[..8], t), Put(s.r, i, b[8..]))
  }

  function RfcStep(E: Cipher, n: nat): Step {
    (k: nat, s: State) => if 0 < n && |s.r| == 8 * n then RfcAt(E, Index(k, n), k + 1, s) else s
  }

  /** The key wrap of section 2.2.1 of RFC 3394. */
  function RfcWrapped(E: Cipher, p: seq<Byte>): State {
    var n := |p| / 8;
    Steps(RfcStep(E, n), 6 * n, State(IV, p))
  }

  /** While the counter fits a byte the steps are those of the RFC. */
  lemma {:induction false} SameSteps(E: Cipher, n: nat, k: nat, s: State)
    requires k <= 255
    ensures Steps(WrapStep(E, n), k, s) == Steps(RfcStep(E, n), k, s)
  {
    if k > 0 {
      SameSteps(E, n, k - 1, s);
      var u := Steps(WrapStep(E, n), k - 1, s);
      if 0 < n && |u.r| == 8 * n {
        ShortCounter(E(u.a + Get(u.r, Index(k - 1, n)))[..8], k);
      }
    }
  }

  /** The first two steps for two registers: one after the other, with 1 and 2 in A. */
  lemma FirstSteps(E: Cipher, a: Half, r: seq<Byte>)
    requires |r| == 16
    ensures var b1 := E(a + r[..8]);
            var b2 := E(b1[..7] + [Xor(b1[7], 1)] + r[8..]);
            Steps(WrapStep(E, 2), 2, State(a, r)) == State(b2[..7] + [Xor(b2[7], 2)], b1[8..] + b2[8..])
  {
    var s := State(a, r);
    var b1 := E(a + r[..8]);
    var u := State(b1[..7] + [Xor(b1[7], 1)], b1[8..] + r[8..]);
    assert Get(r, 0) == r[..8] && Put(r, 0, b1[8..]) == b1[8..] + r[8..];
    assert XorByte(b1[..8], 1) == u.a;
    WrapStepIs(E, 2, 0, 0, s);
    assert WrapStep(E, 2)(0, s) == u;
    var b2 := E(u.a + r[8..]);
    assert Get(u.r, 1) == r[8..] && Put(u.r, 1, b2[8..]) == b1[8..] + b2[8..];
    assert XorByte(b2[..8], 2) == b2[..7] + [Xor(b2[7], 2)];
    WrapStepIs(E, 2, 1, 1, u);
    assert Steps(WrapStep(E, 2), 1, s) == WrapStep(E, 2)(0, s);
  }

  lemma WrapStepIs(E: Cipher, n: nat, k: nat, i: nat, s: State)
    requires 0 < n && |s.r| == 8 * n && i == Index(k, n)
    ensures WrapStep(E, n)(k, s) == WrapAt(E, i, CounterByte(k + 1), s)
  {
  }

  function Identity(): Cipher {
    (x: Block) => x
  }

  /** With the identity for a cipher the registers stay and A collects the counters. */
  lemma IdentityAt(i: nat, t: nat, s: State)
    requires 8 * i + 8 <= |s.r|
    ensures WrapAt(Identity(), i, CounterByte(t), s) == State(XorByte(s.a, CounterByte(t)), s.r)
  {
    var x := s.a + Get(s.r, i);
    assert x[..8] == s.a && x[8..] == Get(s.r, i);
    PutGet(s.r, i, s.a, s.a);
  }

  lemma IdentityRfcAt(i: nat, t: nat, s: State)
    requires 8 * i + 8 <= |s.r|
    ensures RfcAt(Identity(), i, t, s) == State(XorCounter(s.a, t), s.r)
  {
    var x := s.a + Get(s.r, i);
    assert x[..8] == s.a && x[8..] == Get(s.r, i);
    PutGet(s.r, i, s.a, s.a);
  }

  lemma SecondByte(t: nat)
    requires t < 512
    ensures ByteOf(t, 6) == if t < 256 then 0 else 1
  {
    assert ByteOf(t, 6) == ByteOf(t / 256, 7);
  }

  /** Byte 6 of A after k steps with the identity: the code never changes it. */
  lemma {:induction false} SixthByteKept(n: nat, k: nat, r: seq<Byte>)
    requires 0 < n && |r| == 8 * n
    ensures var s := Steps(WrapStep(Identity(), n), k, State(IV, r)); s.r == r && s.a[6] == 0xa6
  {
    if k > 0 {
      SixthByteKept(n, k - 1, r);
      IdentityAt(Index(k - 1, n), k, Steps(WrapStep(Identity(), n), k - 1, State(IV, r)));
    }
  }

  /** The lowest bit of a byte changed. */
  function Flip(x: Byte): Byte {
    if x % 2 == 0 then x + 1 else x - 1
  }

  /** A byte that every step from 256 on flips, after k steps. */
  function Flipped(k: nat, x: Byte): Byte {
    if k >= 255 && (k - 255) % 2 == 1 then Flip(x) else x
  }

  lemma FlippedNext(k: nat, x: Byte)
    requires k > 0
    ensures Flipped(k, x) == Flipped(k - 1, if k < 256 then x else Flip(x))
    ensures Flipped(k, x) == if k < 256 then Flipped(k - 1, x) else Flip(Flipped(k - 1, x))
  {
  }

  lemma FlippedEven(k: nat, x: Byte)
    requires k > 255 && k % 2 == 0
    ensures Flipped(k, x) != x
  {
  }

  /** The initial value with l for its last byte. */
  function WithLast(l: Byte): Half {
    [0xa6, 0xa6, 0xa6, 0xa6, 0xa6, 0xa6, 0xa6, l]
  }

  /** The last byte of A after k steps for one register with the identity for a cipher. */
  function LastByte(k: nat): Byte {
    if k == 0 then 0xa6 else if k == 1 then 0xa7 else if k == 2 then 0xa5 else if k == 3 then 0xa6
    else if k == 4 then 0xa2 else if k == 5 then 0xa7 else 0xa1
  }

  lemma XorLast(l: Byte, t: Byte, z: Byte)
    requires z == Xor(l, t)
    ensures XorByte(WithLast(l), t) == WithLast(z)
  {
  }

  lemma OneRegister(k: nat, p: seq<Byte>, l: Byte, z: Byte)
    requires 0 < k < 256 && |p| == 8 && z == Xor(l, k)
    ensures WrapStep(Identity(), 1)(k - 1, State(WithLast(l), p)) == State(WithLast(z), p)
  {
    var u := State(WithLast(l), p);
    WrapStepIs(Identity(), 1, k - 1, 0, u);
    IdentityAt(0, k, u);
    XorLast(l, k, z);
  }

  lemma {:induction false} LastByteIs(k: nat, p: seq<Byte>)
    requires k <= 6 && |p| == 8
    ensures Steps(WrapStep(Identity(), 1), k, State(IV, p)) == State(WithLast(LastByte(k)), p)
  {
    if k > 0 {
      LastByteIs(k - 1, p);
      NextByte(k);
      OneRegister(k, p, LastByte(k - 1), LastByte(k));
    }
  }

  lemma XorSplit(e: nat, r: nat, f: nat, q: nat, n: nat)
    requires e < 2 && f < 2 && n > 0
    ensures XorBits(e + 2 * r, f + 2 * q, n) == (e + f) % 2 + 2 * XorBits(r, q, n - 1)
  {
    XorOnto(e, r, f + 2 * q, n);
    SplitBit(f, q);
  }

  /** A number by its three lowest bits and the rest. */
  function FromBits(a: nat, b: nat, c: nat, d: nat): nat {
    a + 2 * (b + 2 * (c + 2 * d))
  }

  lemma LowXor(a: nat, b: nat, c: nat, d: nat, f: nat, g: nat, h: nat, n: nat)
    requires a < 2 && b < 2 && c < 2 && f < 2 && g < 2 && h < 2 && n >= 3 && d < Shift.Pow2(n - 3)
    ensures XorBits(FromBits(a, b, c, d), FromBits(f, g, h, 0), n)
        == FromBits((a + f) % 2, (b + g) % 2, (c + h) % 2, d)
  {
    var x, y := b + 2 * (c + 2 * d), g + 2 * h;
    assert FromBits(a, b, c, d) == a + 2 * x && FromBits(f, g, h, 0) == f + 2 * y;
    TwoBitsXor(b, c, d, g, h, n - 1);
    XorSplit(a, x, f, y, n);
  }

  lemma TwoBitsXor(b: nat, c: nat, d: nat, g: nat, h: nat, n: nat)
    requires b < 2 && c < 2 && g < 2 && h < 2 && n >= 2 && d < Shift.Pow2(n - 2)
    ensures XorBits(b + 2 * (c + 2 * d), g + 2 * h, n) == (b + g) % 2 + 2 * ((c + h) % 2 + 2 * d)
  {
    LastXor(c, d, h, n - 1);
    XorSplit(b, c + 2 * d, g, h, n);
  }

  lemma LastXor(c: nat, d: nat, h: nat, n: nat)
    requires c < 2 && h < 2 && n >= 1 && d < Shift.Pow2(n - 1)
    ensures XorBits(c + 2 * d, h, n) == (c + h) % 2 + 2 * d
  {
    XorSplit(c, d, h, 0, n);
    XorBitsZero(d, n - 1);
  }

  lemma Twenty(n: nat)
    requires n == 8
    ensures 20 < Shift.Pow2(n - 3)
  {
    assert Shift.Pow2(5) == 32;
  }

  lemma XorIs(x: Byte, y: Byte, n: nat)
    requires n == 8
    ensures Xor(x, y) == XorBits(x, y, n)
  {
  }

  /** z is the sum, bit by bit, of l with the upper bits of 0xa6 and a small t. */
  predicate LowSum(l: nat, t: nat, z: nat) {
    && t / 2 / 2 / 2 == 0 && l / 2 / 2 / 2 == z / 2 / 2 / 2 == 20 && (l % 2 + t % 2) % 2 == z % 2
    && (l / 2 % 2 + t / 2 % 2) % 2 == z / 2 % 2 && (l / 2 / 2 % 2 + t / 2 / 2 % 2) % 2 == z / 2 / 2 % 2
  }

  lemma BitsOf(x: nat)
    ensures x == FromBits(x % 2, x / 2 % 2, x / 2 / 2 % 2, x / 2 / 2 / 2)
  {
    var y := x / 2;
    var z := y / 2;
    assert y == y % 2 + 2 * z && z == z % 2 + 2 * (z / 2);
  }

  lemma LowBits(l: nat, t: nat, z: nat, n: nat)
    requires LowSum(l, t, z) && n >= 3 && 20 < Shift.Pow2(n - 3)
    ensures XorBits(l, t, n) == z
  {
    LowXor(l % 2, l / 2 % 2, l / 2 / 2 % 2, 20, t % 2, t / 2 % 2, t / 2 / 2 % 2, n);
    BitsOf(l);
    BitsOf(t);
    BitsOf(z);
  }

  lemma LowXorIs(l: Byte, t: Byte, z: Byte, n: nat)
    requires LowSum(l, t, z) && n == 8
    ensures Xor(l, t) == z
  {
    Twenty(n);
    LowBits(l, t, z, n);
    XorIs(l, t, n);
  }

  lemma NextLowSum(k: nat)
    requires 0 < k <= 6
    ensures LowSum(LastByte(k - 1), k, LastByte(k))
  {
  }

  lemma NextByte(k: nat)
    requires 0 < k <= 6
    ensures Xor(LastByte(k - 1), k) == LastByte(k)
  {
    NextLowSum(k);
    LowXorIs(LastByte(k - 1), k, LastByte(k), 8);
  }

  /** With the identity for a cipher a single register comes out as it was behind seven
      bytes 0xa6 and the sum of 0xa6 and six counters. */
  lemma WrapOfOne(p: seq<Byte>)
    requires |p| == 8
    ensures Output(Wrapped(Identity(), p)) == [0xa6, 0xa6, 0xa6, 0xa6, 0xa6, 0xa6, 0xa6, 0xa1] + p
  {
    assert IV == WithLast(0xa6);
    LastByteIs(6, p);
  }

  /** The RFC changes byte 6 of A in every step from 256 on. */
  lemma {:induction false} SixthByteChanged(n: nat, k: nat, r: seq<Byte>)
    requires 0 < n && |r| == 8 * n && k < 511
    ensures var s := Steps(RfcStep(Identity(), n), k, State(IV, r));
            s.r == r && s.a[6] == Flipped(k, 0xa6)
  {
    if k > 0 {
      SixthByteChanged(n, k - 1, r);
      var u := Steps(RfcStep(Identity(), n), k - 1, State(IV, r));
      var v := RfcAt(Identity(), Index(k - 1, n), k, u);
      assert Steps(RfcStep(Identity(), n), k, State(IV, r)) == v;
      IdentityRfcAt(Index(k - 1, n), k, u);
      SixthOfCounter(u.a, k);
      FlippedNext(k, 0xa6);
    }
  }

  lemma SixthOfCounter(a: Half, t: nat)
    requires t < 512
    ensures XorCounter(a, t)[6] == if t < 256 then a[6] else Flip(a[6])
  {
    SecondByte(t);
    XorZero(a[6]);
    XorOne(a[6]);
  }

  /** The code is RFC 3394 for all ciphers exactly up to 42 registers, that is as long as
      the counter fits the byte it is added to; it admits 48. */
  lemma ExactlyRfc(p: seq<Byte>)
    requires |p| % 8 == 0 && |p| <= MAX_WRAP_LEN
    ensures (forall E: Cipher :: Wrapped(E, p) == RfcWrapped(E, p)) <==> 6 * (|p| / 8) <= 255
  {
    var n := |p| / 8;
    if 6 * n <= 255 {
      forall E: Cipher ensures Wrapped(E, p) == RfcWrapped(E, p) {
        SameSteps(E, n, 6 * n, State(IV, p));
      }
    } else {
      SixthByteKept(n, 6 * n, p);
      SixthByteChanged(n, 6 * n, p);
      FlippedEven(6 * n, 0xa6);
      assert Wrapped(Identity(), p).a[6] != RfcWrapped(Identity(), p).a[6];
    }
  }

  // ----- unwrapping in RFC 3394

  function RfcUnwrapAt(D: Cipher, i: nat, t: nat, s: State): (u: State)
    requires 8 * i + 8 <= |s.r|
    ensures |u.r| == |s.r|
  {
    var b := D(XorCounter(s.a, t) + Get(s.r, i));
    State(b[..8], Put(s.r, i, b[8..]))
  }

  function RfcUnwrapStep(D: Cipher, n: nat): Step {
    (k: nat, s: State) => if 0 < n && |s.r| == 8 * n then RfcUnwrapAt(D, Index(k, n), k + 1, s) else s
  }

  lemma DownNext(g: Step, k: nat, s: State)
    ensures StepsDown(g, k + 1, s) == StepsDown(g, k, g(k, s))
  {
  }

  lemma UnwrapStepIs(D: Cipher, n: nat, k: nat, i: nat, s: State)
    requires 0 < n && |s.r| == 8 * n && i == Index(k, n)
    ensures UnwrapStep(D, n)(k, s) == UnwrapAt(D, i, CounterByte(k + 1), s)
  {
  }

  lemma RfcUnwrapStepIs(D: Cipher, n: nat, k: nat, i: nat, s: State)
    requires 0 < n && |s.r| == 8 * n && i == Index(k, n)
    ensures RfcUnwrapStep(D, n)(k, s) == RfcUnwrapAt(D, i, k + 1, s)
  {
  }

  /** The key unwrap of section 2.2.2 of RFC 3394, before A is compared. */
  function RfcUnwrapped(D: Cipher, c: seq<Byte>): State
    requires |c| >= 8
  {
    var n := |c| / 8 - 1;
    StepsDown(RfcUnwrapStep(D, n), 6 * n, Input(c))
  }

  /** While the counter fits a byte the steps back are those of the RFC. */
  lemma {:induction false} SameStepsDown(D: Cipher, n: nat, k: nat, s: State)
    requires k <= 255
    ensures StepsDown(UnwrapStep(D, n), k, s) == StepsDown(RfcUnwrapStep(D, n), k, s)
  {
    if k > 0 {
      OneStepSame(D, n, k, s);
      DownNext(UnwrapStep(D, n), k - 1, s);
      DownNext(RfcUnwrapStep(D, n), k - 1, s);
      SameStepsDown(D, n, k - 1, UnwrapStep(D, n)(k - 1, s));
    }
  }

  lemma OneStepSame(D: Cipher, n: nat, k: nat, s: State)
    requires 0 < k <= 255
    ensures UnwrapStep(D, n)(k - 1, s) == RfcUnwrapStep(D, n)(k - 1, s)
  {
    if 0 < n && |s.r| == 8 * n {
      UnwrapStepIs(D, n, k - 1, Index(k - 1, n), s);
      RfcUnwrapStepIs(D, n, k - 1, Index(k - 1, n), s);
      ShortCounter(s.a, k);
    }
  }

  lemma IdentityUnwrapAt(i: nat, t: nat, s: State)
    requires 8 * i + 8 <= |s.r|
    ensures UnwrapAt(Identity(), i, CounterByte(t), s) == State(XorByte(s.a, CounterByte(t)), s.r)
    ensures RfcUnwrapAt(Identity(), i, t, s) == State(XorCounter(s.a, t), s.r)
  {
    var a, b := XorByte(s.a, CounterByte(t)), XorCounter(s.a, t);
    var x, y := a + Get(s.r, i), b + Get(s.r, i);
    assert x[..8] == a && x[8..] == Get(s.r, i) && y[..8] == b && y[8..] == Get(s.r, i);
    PutGet(s.r, i, s.a, s.a);
  }

  lemma {:induction false} SixthByteKeptDown(n: nat, k: nat, s: State)
    requires 0 < n && |s.r| == 8 * n
    ensures StepsDown(UnwrapStep(Identity(), n), k, s).a[6] == s.a[6]
  {
    if k > 0 {
      var g, u := UnwrapStep(Identity(), n), State(XorByte(s.a, CounterByte(k)), s.r);
      UnwrapStepIs(Identity(), n, k - 1, Index(k - 1, n), s);
      IdentityUnwrapAt(Index(k - 1, n), k, s);
      DownNext(g, k - 1, s);
      SixthByteKeptDown(n, k - 1, u);
    }
  }

  lemma {:induction false} SixthByteChangedDown(n: nat, k: nat, s: State)
    requires 0 < n && |s.r| == 8 * n && k < 511
    ensures StepsDown(RfcUnwrapStep(Identity(), n), k, s).a[6] == Flipped(k, s.a[6])
  {
    if k > 0 {
      var g, u := RfcUnwrapStep(Identity(), n), State(XorCounter(s.a, k), s.r);
      RfcUnwrapStepIs(Identity(), n, k - 1, Index(k - 1, n), s);
      IdentityUnwrapAt(Index(k - 1, n), k, s);
      DownNext(g, k - 1, s);
      SixthOfCounter(s.a, k);
      FlippedNext(k, s.a[6]);
      SixthByteChangedDown(n, k - 1, u);
    }
  }

  /** Unwrapping differs from the RFC for the same lengths as wrapping. */
  lemma ExactlyRfcDown(c: seq<Byte>)
    requires 8 <= |c| <= MAX_WRAP_LEN + 8 && |c| % 8 == 0
    ensures (forall D: Cipher :: Unwrapped(D, c) == RfcUnwrapped(D, c)) <==> 6 * (|c| / 8 - 1) <= 255
  {
    var n := |c| / 8 - 1;
    if 6 * n <= 255 {
      forall D: Cipher ensures Unwrapped(D, c) == RfcUnwrapped(D, c) {
        SameStepsDown(D, n, 6 * n, Input(c));
      }
    } else {
      DiffersDown(n, 6 * n, Input(c));
      assert Unwrapped(Identity(), c) != RfcUnwrapped(Identity(), c);
    }
  }

  lemma DiffersDown(n: nat, k: nat, s: State)
    requires 255 < k < 511 && k % 2 == 0 && 0 < n && |s.r| == 8 * n
    ensures StepsDown(UnwrapStep(Identity(), n), k, s) != StepsDown(RfcUnwrapStep(Identity(), n), k, s)
  {
    SixthByteKeptDown(n, k, s);
    SixthByteChangedDown(n, k, s);
    FlippedEven(k, s.a[6]);
  }

  // ----- the code

  /** bcopy */
  method Bcopy(src: seq<Byte>, dst: array<Byte>, at: nat)
    requires at + |src| <= dst.Length
    modifies dst
    ensures dst[at..at + |src|] == src
    ensures forall k :: 0 <= k < dst.Length && !(at <= k < at + |src|) ==> dst[k] == old(dst[k])
  {
    var i := 0;
    while i < |src|
      invariant 0 <= i <= |src| && dst[at..at + i] == src[..i]
      invariant forall k :: 0 <= k < dst.Length && !(at <= k < at + i) ==> dst[k] == old(dst[k])
    {
      dst[at + i] := src[i];
      i := i + 1;
    }
  }

  /** The registers in the two arrays. */
  function Registers(A: array<Byte>, R: array<Byte>, n: nat): State
    requires A.Length == 16 && 8 * n <= R.Length
    reads A, R
  {
    State(A[..8], R[..8 * n])
  }

  /** Register i of R and the first half of A set to the halves of a block. */
  method SetRegisters(A: array<Byte>, R: array<Byte>, n: nat, i: nat, b: Block)
    requires A.Length == 16 && i < n && 8 * n <= R.Length && A != R
    modifies A, R
    ensures Registers(A, R, n) == State(b[..8], Put(old(R[..8 * n]), i, b[8..]))
  {
    ghost var r := R[..8 * n];
    Bcopy(b[8..], R, 8 * i);
    assert R[..8 * n] == Put(r, i, b[8..]);
    Bcopy(b[..8], A, 0);
    assert A[0..0 + 8] == A[..8];
  }

  /** The body of the loops of aes_wrap. */
  method WrapOne(E: Cipher, A: array<Byte>, R: array<Byte>, n: nat, i: nat, t: nat)
    requires A.Length == 16 && i < n && 8 * n <= R.Length && A != R
    modifies A, R
    ensures Registers(A, R, n) == WrapAt(E, i, CounterByte(t), old(Registers(A, R, n)))
  {
    ghost var s := Registers(A, R, n);
    assert R[8 * i..8 * i + 8] == Get(s.r, i);
    Bcopy(R[8 * i..8 * i + 8], A, 8);
    assert A[..8] == s.a && A[..] == A[..8] + A[8..8 + 8];
    var b := E(A[..]);
    SetRegisters(A, R, n, i, b);
    A[7] := Xor(A[7], CounterByte(t));
    assert A[..8] == XorByte(b[..8], CounterByte(t));
  }

  /** The body of the loops of aes_unwrap. */
  method UnwrapOne(D: Cipher, A: array<Byte>, R: array<Byte>, n: nat, i: nat, t: nat)
    requires A.Length == 16 && i < n && 8 * n <= R.Length && A != R
    modifies A, R
    ensures Registers(A, R, n) == UnwrapAt(D, i, CounterByte(t), old(Registers(A, R, n)))
  {
    ghost var s := Registers(A, R, n);
    A[7] := Xor(A[7], CounterByte(t));
    ghost var a := A[..8];
    assert a == XorByte(s.a, CounterByte(t)) && R[8 * i..8 * i + 8] == Get(s.r, i);
    Bcopy(R[8 * i..8 * i + 8], A, 8);
    assert A[..8] == a && A[..] == A[..8] + A[8..8 + 8];
    SetRegisters(A, R, n, i, D(A[..]));
  }

  /** The register of step n * j + i. */
  lemma IndexIs(n: nat, j: nat, i: nat)
    requires i < n
    ensures n * j + i >= 0 && Index(n * j + i, n) == i
  {
    Words.MulNonNeg(n, j);
    Words.DivideExact(n * j + i, n, j, i);
  }

  lemma WrapNext(E: Cipher, n: nat, k: nat, i: nat, s: State)
    requires 0 < n && i == Index(k, n) && |s.r| == 8 * n
    ensures |Steps(WrapStep(E, n), k, s).r| == 8 * n
    ensures Steps(WrapStep(E, n), k + 1, s) == WrapAt(E, i, CounterByte(k + 1), Steps(WrapStep(E, n), k, s))
  {
    WrapKeepsLength(E, n);
    StepsKeepLength(WrapStep(E, n), k, s);
  }

  /** Step k of all: register i in pass j. */
  method WrapTurn(E: Cipher, A: array<Byte>, R: array<Byte>, n: nat, j: nat, i: nat,
                  ghost f: Step, ghost s: State, ghost k: nat)
    requires A.Length == 16 && i < n && 8 * n <= R.Length && A != R && k == n * j + i && |s.r| == 8 * n
    requires f == WrapStep(E, n) && Registers(A, R, n) == Steps(f, k, s)
    modifies A, R
    ensures Registers(A, R, n) == Steps(f, k + 1, s)
  {
    IndexIs(n, j, i);
    WrapNext(E, n, k, i, s);
    WrapOne(E, A, R, n, i, n * j + i + 1);
  }

  /** Pass j over the registers, m being n * j. */
  method WrapPass(E: Cipher, A: array<Byte>, R: array<Byte>, n: nat, j: nat,
                  ghost f: Step, ghost s: State, ghost m: nat)
    requires A.Length == 16 && 8 * n <= R.Length && A != R && m == n * j && |s.r| == 8 * n
    requires f == WrapStep(E, n) && Registers(A, R, n) == Steps(f, m, s)
    modifies A, R
    ensures Registers(A, R, n) == Steps(f, m + n, s)
  {
    var i := 0;
    while i < n
      invariant 0 <= i <= n && Registers(A, R, n) == Steps(f, m + i, s)
    {
      WrapTurn(E, A, R, n, j, i, f, s, m + i);
      i := i + 1;
    }
  }

  method WrapAll(E: Cipher, A: array<Byte>, R: array<Byte>, n: nat, ghost s: State)
    requires A.Length == 16 && 8 * n <= R.Length && A != R && Registers(A, R, n) == s
    modifies A, R
    ensures Registers(A, R, n) == Steps(WrapStep(E, n), 6 * n, s)
  {
    var j := 0;
    ghost var m, f := 0, WrapStep(E, n);
    while j < 6
      invariant 0 <= j <= 6 && m == n * j && m >= 0 && Registers(A, R, n) == Steps(f, m, s)
    {
      WrapPass(E, A, R, n, j, f, s, m);
      PassStart(m, n, j);
      m := m + n;
      j := j + 1;
    }
  }

  /** aes_wrap, with the cipher that the key stands for. The result is written when
      everything has been read. */
  method AesWrap(E: Cipher, kl: nat, il: nat, input: array<Byte>, output: array<Byte>) returns (error: bool)
    requires il <= input.Length && il + 8 <= output.Length
    modifies output
    ensures !error <==> (kl == 16 || kl == 24 || kl == 32) && il % 8 == 0 && il / 8 <= 48
    ensures old(Wrap(E, kl, input[..il])) == if error then Error else Ok(output[..il + 8])
    ensures error ==> output[..] == old(output[..])
  {
    ghost var p := input[..il];
    if !KeyLength(kl) || il > MAX_WRAP_LEN || il % 8 != 0 {
      return true;
    }
    var n := il / 8;
    var A, R := new Byte[16], new Byte[MAX_WRAP_LEN];
    Bcopy(IV, A, 0);
    Bcopy(input[..il], R, 0);
    assert A[0..0 + 8] == A[..8] && R[0..0 + il] == R[..8 * n];
    WrapAll(E, A, R, n, State(IV, p));
    Bcopy(A[..8], output, 0);
    Bcopy(R[..il], output, 8);
    assert output[..il + 8] == output[0..0 + 8] + output[8..8 + il];
    error := false;
  }

  // ----- unwrapping

  lemma UnwrapNext(D: Cipher, n: nat, k: nat, i: nat, s: State)
    requires 0 < n && i == Index(k, n) && |s.r| == 8 * n
    ensures StepsDown(UnwrapStep(D, n), k + 1, s)
        == StepsDown(UnwrapStep(D, n), k, UnwrapAt(D, i, CounterByte(k + 1), s))
  {
    UnwrapStepIs(D, n, k, i, s);
    DownNext(UnwrapStep(D, n), k, s);
  }

  /** Step k of all: register i in pass j. */
  method UnwrapTurn(D: Cipher, A: array<Byte>, R: array<Byte>, n: nat, j: nat, i: nat,
                    ghost g: Step, ghost z: State, ghost k: nat)
    requires A.Length == 16 && i < n && 8 * n <= R.Length && A != R && k == n * j + i
    requires g == UnwrapStep(D, n) && StepsDown(g, k + 1, Registers(A, R, n)) == z
    modifies A, R
    ensures StepsDown(g, k, Registers(A, R, n)) == z
  {
    IndexIs(n, j, i);
    UnwrapNext(D, n, k, i, Registers(A, R, n));
    UnwrapOne(D, A, R, n, i, n * j + i + 1);
  }

  /** Pass j over the registers, from the last to the first: what is left to do is what
      was left of the whole before. */
  method UnwrapPass(D: Cipher, A: array<Byte>, R: array<Byte>, n: nat, j: nat,
                    ghost g: Step, ghost z: State, ghost m: nat)
    requires A.Length == 16 && 8 * n <= R.Length && A != R && m == n * j
    requires g == UnwrapStep(D, n) && StepsDown(g, m + n, Registers(A, R, n)) == z
    modifies A, R
    ensures StepsDown(g, m, Registers(A, R, n)) == z
  {
    var i := n - 1;
    while i >= 0
      invariant -1 <= i < n && StepsDown(g, m + i + 1, Registers(A, R, n)) == z
    {
      UnwrapTurn(D, A, R, n, j, i, g, z, m + i);
      i := i - 1;
    }
  }

  method UnwrapAll(D: Cipher, A: array<Byte>, R: array<Byte>, n: nat, ghost z: State)
    requires A.Length == 16 && 8 * n <= R.Length && A != R
    requires StepsDown(UnwrapStep(D, n), 6 * n, Registers(A, R, n)) == z
    modifies A, R
    ensures Registers(A, R, n) == z
  {
    var j := 5;
    ghost var m, g := 6 * n, UnwrapStep(D, n);
    while j >= 0
      invariant -1 <= j <= 5 && m == n * (j + 1) && m >= 0
      invariant StepsDown(g, m, Registers(A, R, n)) == z
    {
      m := m - n;
      PassStart(m, n, j);
      UnwrapPass(D, A, R, n, j, g, z, m);
      j := j - 1;
    }
  }

  lemma PassStart(m: int, n: nat, j: nat)
    ensures m == n * (j + 1) - n <==> m == n * j
    ensures n * j >= 0
  {
    Words.MulNonNeg(n, j);
    Words.Spread(n, j, 1);
  }

  /** aes_unwrap. The source checks that there are eight bytes for A only through the
      remainder of the length, which leaves the length zero. */
  method AesUnwrap(D: Cipher, kl: nat, il: nat, input: array<Byte>, output: array<Byte>) returns (error: bool)
    requires il <= input.Length && il - 8 <= output.Length && (KeyLength(kl) ==> il > 0)
    modifies output
    ensures !error ==> (kl == 16 || kl == 24 || kl == 32) && il % 8 == 0 && 1 <= il / 8 <= 49
    ensures old(Unwrap(D, kl, input[..il])) == if error then Error else Ok(output[..il - 8])
    ensures error ==> output[..] == old(output[..])
  {
    ghost var c := input[..il];
    var ol := il - 8;
    var n := ol / 8;
    if !KeyLength(kl) || il > MAX_WRAP_LEN + 8 || il % 8 != 0 {
      return true;
    }
    var A, R := new Byte[16], new Byte[MAX_WRAP_LEN + 8];
    assert input[..8] == c[..8] && input[8..il] == c[8..];
    Bcopy(input[..8], A, 0);
    Bcopy(input[8..il], R, 0);
    assert A[0..0 + 8] == A[..8] && R[0..0 + ol] == R[..8 * n];
    UnwrapAll(D, A, R, n, Unwrapped(D, c));
    if A[..8] == IV {
      Bcopy(R[..ol], output, 0);
      assert output[..ol] == output[0..0 + ol];
      error := false;
    } else {
      error := true;
    }
  }
}
