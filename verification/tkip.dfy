/** The key mixing of TKIP: phase 1 is a permutation of 80 bits and phase 1 with
    phase 2 a permutation of 96 bits, whatever the S-box. */
module Tkip {
  import opened Bits
  import Field
  import Shift

  // ----- words and bytes

  /** Addition and subtraction of uint16. */
  function Plus(x: W16, y: W16): W16 {
    if x + y < 0x1_0000 then x + y else x + y - 0x1_0000
  }

  function Minus(x: W16, y: W16): W16 {
    if x >= y then x - y else x - y + 0x1_0000
  }

  lemma PlusIs(x: W16, y: W16)
    ensures Plus(x, y) == (x + y) % 0x1_0000 && Minus(x, y) == (x - y) % 0x1_0000
  {
  }

  function Lo8(v: W16): Byte {
    v % 0x100
  }

  function Hi8(v: W16): Byte {
    v / 0x100
  }

  function Mk16(hi: Byte, lo: Byte): W16 {
    lo + 0x100 * hi
  }

  function Lo16(v: W32): W16 {
    v % 0x1_0000
  }

  function Hi16(v: W32): W16 {
    v / 0x1_0000
  }

  function RotR1(v: W16): W16 {
    v / 2 + 0x8000 * (v % 2)
  }

  /** The halves of words, and the rotation of the lowest bit to the top. */
  lemma PartsAre(v: W16, u: W32)
    ensures var hi: int, lo: int := Hi8(v), Lo8(v); v == 0x100 * hi + lo
    ensures var hi: int, lo: int := Hi16(u), Lo16(u); u == 0x1_0000 * hi + lo
    ensures var r: int := RotR1(v); 2 * r == v + 0xffff * (v % 2)
  {
  }

  /** A word is determined by its bytes and the other way round. */
  lemma BytesOfWord(v: W16, hi: Byte, lo: Byte)
    ensures Mk16(Hi8(v), Lo8(v)) == v
    ensures Hi8(Mk16(hi, lo)) == hi && Lo8(Mk16(hi, lo)) == lo
  {
  }

  lemma HalvesOfWord(u: W32, v: W32)
    requires Lo16(u) == Lo16(v) && Hi16(u) == Hi16(v)
    ensures u == v
  {
  }

  // ----- the key and the S-box

  type Sbox = Byte -> W16

  /** _S_: the lookup of both bytes of a word. */
  function S(s0: Sbox, s1: Sbox, v: W16): W16 {
    Xor16(s0(Lo8(v)), s1(Hi8(v)))
  }

  type Key = k: seq<Byte> | |k| == 16 witness [0, 0, 0, 0, 0, 0, 0, 0, 0, 0, 0, 0, 0, 0, 0, 0]

  function TK16(tk: Key, n: nat): W16
    requires n < 8
  {
    Mk16(tk[2 * n + 1], tk[2 * n])
  }

  /** The lookups of the low and of the high byte, each alone. */
  lemma SIs(s0: Sbox, s1: Sbox, v: W16)
    ensures S(s0, b => 0, v) == s0(v % 0x100) && S(b => 0, s1, v) == s1(v / 0x100)
    ensures S(s0, s1, v) == Xor16(S(s0, b => 0, v), S(b => 0, s1, v))
  {
    Ranges();
    XorBitsZero(s0(v % 0x100), 16);
    XorBitsZero(s1(v / 0x100), 16);
    Symmetric(0, s1(v / 0x100), 16);
  }

  /** Two bytes of the key from o on, the low one first. */
  function KeyWord(tk: Key, o: nat): (w: W16)
    requires o < 15
  {
    var lo: int, hi: int := tk[o], tk[o + 1];
    lo + 0x100 * hi
  }

  /** A word mixed with word n of the key and looked up: all that the two phases know
      of the S-box and, but for one step, of the key. */
  type Mixer = (W16, nat) -> W16

  function Mix(s0: Sbox, s1: Sbox, tk: Key): Mixer {
    (v, n) => if n < 8 then S(s0, s1, Xor16(v, TK16(tk, n))) else 0
  }

  /** The mixing with the two key bytes from o on. */
  function MixAt(s0: Sbox, s1: Sbox, tk: Key, v: W16, o: nat): W16
    requires o < 15
  {
    S(s0, s1, Xor16(v, KeyWord(tk, o)))
  }

  /** f mixes with the words of the key, two bytes each. */
  ghost predicate Mixes(f: Mixer, s0: Sbox, s1: Sbox, tk: Key) {
    forall v: W16, n: nat :: n < 8 ==> f(v, n) == MixAt(s0, s1, tk, v, 2 * n)
  }

  lemma MixMixes(s0: Sbox, s1: Sbox, tk: Key)
    ensures Mixes(Mix(s0, s1, tk), s0, s1, tk)
  {
  }

  // ----- phase 1

  datatype P1K = P1K(p0: W16, p1: W16, p2: W16, p3: W16, p4: W16)

  /** Round i of the Feistel cipher, whose key words are those of j = i & 1. */
  function Round(f: Mixer, i: nat, b: P1K): P1K
    requires i < 8
  {
    var j := i % 2;
    var p0 := Plus(b.p0, f(b.p4, j));
    var p1 := Plus(b.p1, f(p0, j + 2));
    var p2 := Plus(b.p2, f(p1, j + 4));
    var p3 := Plus(b.p3, f(p2, j + 6));
    var p4 := Plus(Plus(b.p4, f(p3, j)), i);
    P1K(p0, p1, p2, p3, p4)
  }

  /** The bytes of the key that a round uses: in the odd ones those two places further. */
  lemma RoundIs(f: Mixer, s0: Sbox, s1: Sbox, tk: Key, i: nat, o: nat, b: P1K)
    requires i < 8 && o == 2 * (i % 2) && Mixes(f, s0, s1, tk)
    ensures var c := Round(f, i, b);
            && c.p0 == Plus(b.p0, MixAt(s0, s1, tk, b.p4, o))
            && c.p1 == Plus(b.p1, MixAt(s0, s1, tk, c.p0, o + 4))
            && c.p2 == Plus(b.p2, MixAt(s0, s1, tk, c.p1, o + 8))
            && c.p3 == Plus(b.p3, MixAt(s0, s1, tk, c.p2, o + 12))
            && c.p4 == Plus(Plus(b.p4, MixAt(s0, s1, tk, c.p3, o)), i)
  {
  }

  /** The round run backwards. */
  function Unround(f: Mixer, i: nat, b: P1K): P1K
    requires i < 8
  {
    var j := i % 2;
    var p4 := Minus(Minus(b.p4, i), f(b.p3, j));
    var p3 := Minus(b.p3, f(b.p2, j + 6));
    var p2 := Minus(b.p2, f(b.p1, j + 4));
    var p1 := Minus(b.p1, f(b.p0, j + 2));
    var p0 := Minus(b.p0, f(p4, j));
    P1K(p0, p1, p2, p3, p4)
  }

  lemma RoundUndone(f: Mixer, i: nat, b: P1K)
    requires i < 8
    ensures Unround(f, i, Round(f, i, b)) == b
    ensures Round(f, i, Unround(f, i, b)) == b
  {
  }

  /** The first n rounds. */
  function Rounds(f: Mixer, n: nat, b: P1K): P1K
    requires n <= 8
  {
    if n == 0 then b else Round(f, n - 1, Rounds(f, n - 1, b))
  }

  function Unrounds(f: Mixer, n: nat, b: P1K): P1K
    requires n <= 8
  {
    if n == 0 then b else Unrounds(f, n - 1, Unround(f, n - 1, b))
  }

  /** Phase 1 is a permutation of the 80-bit blocks: it has an inverse on both sides. */
  lemma {:induction false} RoundsPermute(f: Mixer, n: nat, b: P1K)
    requires n <= 8
    ensures Unrounds(f, n, Rounds(f, n, b)) == b
    ensures Rounds(f, n, Unrounds(f, n, b)) == b
  {
    if n > 0 {
      var c, d := Rounds(f, n - 1, b), Unround(f, n - 1, b);
      RoundUndone(f, n - 1, c);
      RoundsPermute(f, n - 1, b);
      RoundUndone(f, n - 1, b);
      RoundsPermute(f, n - 1, d);
    }
  }

  type Address = a: seq<Byte> | |a| == 6 witness [0, 0, 0, 0, 0, 0]

  /** The block that phase 1 starts from. */
  function Start(ta: Address, iv32: W32): P1K {
    P1K(Lo16(iv32), Hi16(iv32), Mk16(ta[1], ta[0]), Mk16(ta[3], ta[2]), Mk16(ta[5], ta[4]))
  }

  /** The counter and the address as numbers, their low bytes first. */
  lemma StartIs(ta: Address, iv32: W32)
    ensures var b := Start(ta, iv32);
            var q0: int, q1: int, q2: int, q3: int, q4: int := b.p0, b.p1, b.p2, b.p3, b.p4;
            var a0: int, a1: int, a2: int, a3: int, a4: int, a5: int := ta[0], ta[1], ta[2], ta[3], ta[4], ta[5];
            && q0 + 0x1_0000 * q1 == iv32
            && q2 == a0 + 0x100 * a1 && q3 == a2 + 0x100 * a3 && q4 == a4 + 0x100 * a5
  {
  }

  lemma StartInjective(ta: Address, iv32: W32, ta1: Address, iv321: W32)
    requires Start(ta, iv32) == Start(ta1, iv321)
    ensures ta == ta1 && iv32 == iv321
  {
    HalvesOfWord(iv32, iv321);
    SameBytes(ta[1], ta[0], ta1[1], ta1[0]);
    SameBytes(ta[3], ta[2], ta1[3], ta1[2]);
    SameBytes(ta[5], ta[4], ta1[5], ta1[4]);
  }

  lemma SameBytes(hi: Byte, lo: Byte, hi1: Byte, lo1: Byte)
    requires Mk16(hi, lo) == Mk16(hi1, lo1)
    ensures hi == hi1 && lo == lo1
  {
    BytesOfWord(0, hi, lo);
    BytesOfWord(0, hi1, lo1);
  }

  /** Every block is where phase 1 starts from for some address and counter. */
  lemma StartSurjective(b: P1K) returns (ta: Address, iv32: W32)
    ensures Start(ta, iv32) == b
  {
    ta := [Lo8(b.p2), Hi8(b.p2), Lo8(b.p3), Hi8(b.p3), Lo8(b.p4), Hi8(b.p4)];
    iv32 := Mk32(b.p1, b.p0);
    BytesOfWord(b.p2, 0, 0);
    BytesOfWord(b.p3, 0, 0);
    BytesOfWord(b.p4, 0, 0);
    HalvesJoined(b.p1, b.p0);
  }

  function Mk32(hi: W16, lo: W16): W32 {
    lo + 0x1_0000 * hi
  }

  lemma HalvesJoined(hi: W16, lo: W16)
    ensures Lo16(Mk32(hi, lo)) == lo && Hi16(Mk32(hi, lo)) == hi
  {
  }

  function Phase1Of(f: Mixer, ta: Address, iv32: W32): P1K {
    Rounds(f, 8, Start(ta, iv32))
  }

  /** Phase 1 is the eight rounds in their order, an even and an odd one in turns. */
  lemma Phase1Is(f: Mixer, ta: Address, iv32: W32, b2: P1K, b4: P1K, b6: P1K)
    requires b2 == Round(f, 1, Round(f, 0, Start(ta, iv32))) && b4 == Round(f, 3, Round(f, 2, b2))
    requires b6 == Round(f, 5, Round(f, 4, b4))
    ensures Phase1Of(f, ta, iv32) == Round(f, 7, Round(f, 6, b6))
  {
    var b := Start(ta, iv32);
    TwoRounds(f, 0, b);
    TwoRounds(f, 2, b);
    TwoRounds(f, 4, b);
    TwoRounds(f, 6, b);
  }

  lemma TwoRounds(f: Mixer, n: nat, b: P1K)
    requires n <= 6
    ensures Rounds(f, n + 2, b) == Round(f, n + 1, Round(f, n, Rounds(f, n, b)))
  {
    assert Rounds(f, n + 1, b) == Round(f, n, Rounds(f, n, b));
  }

  /** Phase 1 maps the addresses and counters one to one onto the blocks. */
  lemma Phase1Bijective(f: Mixer, ta: Address, iv32: W32, ta1: Address, iv321: W32)
    ensures Phase1Of(f, ta, iv32) == Phase1Of(f, ta1, iv321) ==> ta == ta1 && iv32 == iv321
  {
    RoundsPermute(f, 8, Start(ta, iv32));
    RoundsPermute(f, 8, Start(ta1, iv321));
    if Phase1Of(f, ta, iv32) == Phase1Of(f, ta1, iv321) {
      StartInjective(ta, iv32, ta1, iv321);
    }
  }

  lemma Phase1Onto(f: Mixer, b: P1K) returns (ta: Address, iv32: W32)
    ensures Phase1Of(f, ta, iv32) == b
  {
    RoundsPermute(f, 8, b);
    ta, iv32 := StartSurjective(Unrounds(f, 8, b));
  }

  /** The block in an array. */
  function BlockOf(a: array<W16>): P1K
    requires a.Length >= 5
    reads a
  {
    P1K(a[0], a[1], a[2], a[3], a[4])
  }

  method Phase1Round(p1k: array<W16>, f: Mixer, i: nat)
    requires p1k.Length >= 5 && i < 8
    modifies p1k
    ensures BlockOf(p1k) == Round(f, i, old(BlockOf(p1k)))
  {
    var j := i % 2;
    p1k[0] := Plus(p1k[0], f(p1k[4], j));
    p1k[1] := Plus(p1k[1], f(p1k[0], j + 2));
    p1k[2] := Plus(p1k[2], f(p1k[1], j + 4));
    p1k[3] := Plus(p1k[3], f(p1k[2], j + 6));
    p1k[4] := Plus(p1k[4], f(p1k[3], j));
    p1k[4] := Plus(p1k[4], i);
  }

  /** tkhash_phase1 */
  method Phase1(p1k: array<W16>, tk: Key, ta: Address, iv32: W32, s0: Sbox, s1: Sbox)
    requires p1k.Length >= 5
    modifies p1k
    ensures BlockOf(p1k) == Phase1Of(Mix(s0, s1, tk), ta, iv32)
  {
    var f := Mix(s0, s1, tk);
    p1k[0], p1k[1] := Lo16(iv32), Hi16(iv32);
    p1k[2], p1k[3], p1k[4] := Mk16(ta[1], ta[0]), Mk16(ta[3], ta[2]), Mk16(ta[5], ta[4]);
    var i := 0;
    while i < 8
      invariant i <= 8 && BlockOf(p1k) == Rounds(f, i, Start(ta, iv32))
    {
      Phase1Round(p1k, f, i);
      i := i + 1;
    }
  }

  // ----- phase 2

  datatype PPK = PPK(q0: W16, q1: W16, q2: W16, q3: W16, q4: W16, q5: W16)

  /** The copy of the phase 1 key with the low counter added in. */
  function Extend(b: P1K, iv16: W16): PPK {
    PPK(b.p0, b.p1, b.p2, b.p3, b.p4, Plus(b.p4, iv16))
  }

  lemma ExtendInjective(b: P1K, iv16: W16, b1: P1K, iv161: W16)
    requires Extend(b, iv16) == Extend(b1, iv161)
    ensures b == b1 && iv16 == iv161
  {
  }

  /** The six additions, each with a function of the word changed before. */
  function Sweep(g0: W16 -> W16, g1: W16 -> W16, g2: W16 -> W16, g3: W16 -> W16, g4: W16 -> W16,
                 g5: W16 -> W16, q: PPK): PPK
  {
    var q0 := Plus(q.q0, g0(q.q5));
    var q1 := Plus(q.q1, g1(q0));
    var q2 := Plus(q.q2, g2(q1));
    var q3 := Plus(q.q3, g3(q2));
    var q4 := Plus(q.q4, g4(q3));
    var q5 := Plus(q.q5, g5(q4));
    PPK(q0, q1, q2, q3, q4, q5)
  }

  lemma SweepInjective(g0: W16 -> W16, g1: W16 -> W16, g2: W16 -> W16, g3: W16 -> W16, g4: W16 -> W16,
                       g5: W16 -> W16, q: PPK, r: PPK)
    requires Sweep(g0, g1, g2, g3, g4, g5, q) == Sweep(g0, g1, g2, g3, g4, g5, r)
    ensures q == r
  {
  }

  /** The mixing with the S-box. */
  function Mixed(f: Mixer, q: PPK): PPK {
    Sweep(v => f(v, 0), v => f(v, 1), v => f(v, 2), v => f(v, 3), v => f(v, 4), v => f(v, 5), q)
  }

  /** The final sweep with rotations, k6 and k7 being the last words of the key. */
  function Rotated(k6: W16, k7: W16, q: PPK): PPK {
    Sweep(v => RotR1(Xor16(v, k6)), v => RotR1(Xor16(v, k7)), RotR1, RotR1, RotR1, RotR1, q)
  }

  /** The bytes of the key that the sweep with the S-box uses. */
  lemma MixedIs(f: Mixer, s0: Sbox, s1: Sbox, tk: Key, q: PPK)
    requires Mixes(f, s0, s1, tk)
    ensures var c := Mixed(f, q);
            && c.q0 == Plus(q.q0, MixAt(s0, s1, tk, q.q5, 0)) && c.q1 == Plus(q.q1, MixAt(s0, s1, tk, c.q0, 2))
            && c.q2 == Plus(q.q2, MixAt(s0, s1, tk, c.q1, 4)) && c.q3 == Plus(q.q3, MixAt(s0, s1, tk, c.q2, 6))
            && c.q4 == Plus(q.q4, MixAt(s0, s1, tk, c.q3, 8)) && c.q5 == Plus(q.q5, MixAt(s0, s1, tk, c.q4, 10))
  {
  }

  /** And the one with the rotations. */
  lemma RotatedIs(tk: Key, q: PPK)
    ensures var c := Rotated(TK16(tk, 6), TK16(tk, 7), q);
            && c.q0 == Plus(q.q0, RotR1(Xor16(q.q5, KeyWord(tk, 12))))
            && c.q1 == Plus(q.q1, RotR1(Xor16(c.q0, KeyWord(tk, 14))))
            && c.q2 == Plus(q.q2, RotR1(c.q1)) && c.q3 == Plus(q.q3, RotR1(c.q2))
            && c.q4 == Plus(q.q4, RotR1(c.q3)) && c.q5 == Plus(q.q5, RotR1(c.q4))
  {
    assert TK16(tk, 6) == KeyWord(tk, 12) && TK16(tk, 7) == KeyWord(tk, 14);
  }

  function Phase2Of(f: Mixer, tk: Key, b: P1K, iv16: W16): PPK {
    Rotated(TK16(tk, 6), TK16(tk, 7), Mixed(f, Extend(b, iv16)))
  }

  lemma Phase2Injective(f: Mixer, tk: Key, b: P1K, iv16: W16, b1: P1K, iv161: W16)
    requires Phase2Of(f, tk, b, iv16) == Phase2Of(f, tk, b1, iv161)
    ensures b == b1 && iv16 == iv161
  {
    var k6, k7, e, e1 := TK16(tk, 6), TK16(tk, 7), Extend(b, iv16), Extend(b1, iv161);
    SweepInjective(v => RotR1(Xor16(v, k6)), v => RotR1(Xor16(v, k7)), RotR1, RotR1, RotR1, RotR1, Mixed(f, e),
                   Mixed(f, e1));
    SweepInjective(v => f(v, 0), v => f(v, 1), v => f(v, 2), v => f(v, 3), v => f(v, 4), v => f(v, 5), e, e1);
    ExtendInjective(b, iv16, b1, iv161);
  }

  // ----- the RC4 key

  /** Words as bytes, the low byte of each first. */
  function LittleEndian(s: seq<W16>): (b: seq<Byte>)
    ensures |b| == 2 * |s|
  {
    if |s| == 0 then [] else LittleEndian(s[..|s| - 1]) + [Lo8(s[|s| - 1]), Hi8(s[|s| - 1])]
  }

  lemma {:induction false} LittleEndianInjective(s: seq<W16>, t: seq<W16>)
    requires LittleEndian(s) == LittleEndian(t)
    ensures s == t
  {
    var b, n := LittleEndian(s), |s| - 1;
    assert |b| == 2 * |s| == 2 * |t|;
    if |s| > 0 {
      assert b[..2 * n] == LittleEndian(s[..n]) && b[..2 * n] == LittleEndian(t[..n]);
      assert b[2 * n] == Lo8(s[n]) == Lo8(t[n]) && b[2 * n + 1] == Hi8(s[n]) == Hi8(t[n]);
      LittleEndianInjective(s[..n], t[..n]);
      BytesOfWord(s[n], 0, 0);
      BytesOfWord(t[n], 0, 0);
      assert s == s[..n] + [s[n]] && t == t[..n] + [t[n]];
    }
  }

  function TailBytes(q: PPK): (b: seq<Byte>)
    ensures |b| == 12
  {
    LittleEndian([q.q0, q.q1, q.q2, q.q3, q.q4, q.q5])
  }

  lemma TailInjective(q: PPK, r: PPK)
    requires TailBytes(q) == TailBytes(r)
    ensures q == r
  {
    var s, t := [q.q0, q.q1, q.q2, q.q3, q.q4, q.q5], [r.q0, r.q1, r.q2, r.q3, r.q4, r.q5];
    LittleEndianInjective(s, t);
    assert s[0] == t[0] && s[1] == t[1] && s[2] == t[2] && s[3] == t[3] && s[4] == t[4] && s[5] == t[5];
  }

  /** (b | 0x20) & 0x7F */
  function NotWeak(b: Byte): Byte {
    (if b / 0x20 % 2 == 0 then b + 0x20 else b) % 0x80
  }

  /** Bit 5 is set and bit 7 is not; the others stay. */
  lemma NotWeakBits(b: Byte, i: nat)
    requires i < 8
    ensures Field.Bit(NotWeak(b), i) == if i == 5 then true else if i == 7 then false else Field.Bit(b, i)
  {
    var x: nat, h: nat := b % 0x20, b / 0x20;
    var c: nat := h % 4 / 2 * 2 + 1;
    NotWeakParts(b, x, h, c);
    BitsAbove(x, h, 5, i);
    BitsAbove(x, c, 5, i);
    if i >= 5 {
      TopBits(h, c, i - 5);
    }
  }

  lemma NotWeakParts(b: Byte, x: nat, h: nat, c: nat)
    requires x < 0x20 && b == x + 0x20 * h && c == h % 4 / 2 * 2 + 1
    ensures h < 8 && NotWeak(b) == x + Shift.Twos(c, 5) && b == x + Shift.Twos(h, 5) && x < Shift.Pow2(5)
  {
    assert b / 0x20 == h;
    Thirtytwo(c);
    Thirtytwo(h);
  }

  lemma Thirtytwo(h: nat)
    ensures Shift.Twos(h, 5) == 0x20 * h
  {
    assert Shift.Twos(h, 1) == 2 * h;
    assert Shift.Twos(h, 3) == 8 * h;
  }

  lemma TopBits(h: nat, c: nat, i: nat)
    requires h < 8 && c == h % 4 / 2 * 2 + 1 && i < 3
    ensures Field.Bit(c, i) == if i == 0 then true else if i == 2 then false else Field.Bit(h, 1)
  {
  }

  lemma {:induction false} BitsAbove(x: nat, h: nat, n: nat, i: nat)
    requires x < Shift.Pow2(n)
    ensures Field.Bit(x + Shift.Twos(h, n), i) == if i < n then Field.Bit(x, i) else Field.Bit(h, i - n)
  {
    if n > 0 && i > 0 {
      BitsAbove(x / 2, h, n - 1, i - 1);
    }
  }

  /** The first four bytes: three of the counter in clear and one of the mixing. */
  function HeadBytes(tk: Key, q: PPK, iv16: W16): seq<Byte> {
    [Hi8(iv16), NotWeak(Hi8(iv16)), Lo8(iv16), Lo8(Xor16(q.q5, TK16(tk, 0)) / 2)]
  }

  /** The key that both phases make of an address and a counter. */
  function Rc4Key(s0: Sbox, s1: Sbox, tk: Key, ta: Address, iv32: W32, iv16: W16): seq<Byte> {
    var f := Mix(s0, s1, tk);
    var q := Phase2Of(f, tk, Phase1Of(f, ta, iv32), iv16);
    HeadBytes(tk, q, iv16) + TailBytes(q)
  }

  /** The bytes of the key: the counter in clear, and the words of q with their low bytes
      first. */
  lemma KeyBytes(tk: Key, q: PPK, iv16: W16, i: nat)
    requires i < 6
    ensures var b := HeadBytes(tk, q, iv16) + TailBytes(q);
            && |b| == 16 && b[1] == NotWeak(b[0]) && b[3] == Xor16(q.q5, KeyWord(tk, 0)) / 2 % 0x100
            && (var hi: int, lo: int := b[0], b[2]; iv16 == 0x100 * hi + lo)
            && (var hi: int, lo: int := b[5 + 2 * i], b[4 + 2 * i];
                [q.q0, q.q1, q.q2, q.q3, q.q4, q.q5][i] == 0x100 * hi + lo)
  {
    var s, h := [q.q0, q.q1, q.q2, q.q3, q.q4, q.q5], HeadBytes(tk, q, iv16);
    LittleEndianAt(s, i);
    PartsAre(iv16, 0);
    PartsAre(s[i], 0);
    var b := h + TailBytes(q);
    assert b[4 + 2 * i] == TailBytes(q)[2 * i] && b[5 + 2 * i] == TailBytes(q)[2 * i + 1];
  }

  lemma {:induction false} LittleEndianAt(s: seq<W16>, i: nat)
    requires i < |s|
    ensures LittleEndian(s)[2 * i] == Lo8(s[i]) && LittleEndian(s)[2 * i + 1] == Hi8(s[i])
  {
    if i < |s| - 1 {
      LittleEndianAt(s[..|s| - 1], i);
    }
  }

  /** For a given temporal key no two packets get the same RC4 key, and not even the
      same last twelve bytes of it. */
  lemma KeysUnique(s0: Sbox, s1: Sbox, tk: Key, ta: Address, iv32: W32, iv16: W16, ta1: Address, iv321: W32, iv161: W16)
    requires Rc4Key(s0, s1, tk, ta, iv32, iv16)[4..] == Rc4Key(s0, s1, tk, ta1, iv321, iv161)[4..]
    ensures ta == ta1 && iv32 == iv321 && iv16 == iv161
  {
    var f := Mix(s0, s1, tk);
    var b, b1 := Phase1Of(f, ta, iv32), Phase1Of(f, ta1, iv321);
    var q, r := Phase2Of(f, tk, b, iv16), Phase2Of(f, tk, b1, iv161);
    assert (HeadBytes(tk, q, iv16) + TailBytes(q))[4..] == TailBytes(q);
    assert (HeadBytes(tk, r, iv161) + TailBytes(r))[4..] == TailBytes(r);
    TailInjective(q, r);
    Phase2Injective(f, tk, b, iv16, b1, iv161);
    Phase1Bijective(f, ta, iv32, ta1, iv321);
  }

  function KeyBlock(a: array<W16>): PPK
    requires a.Length >= 6
    reads a
  {
    PPK(a[0], a[1], a[2], a[3], a[4], a[5])
  }

  /** The two sweeps over PPK. */
  method MixKey(ppk: array<W16>, f: Mixer)
    requires ppk.Length >= 6
    modifies ppk
    ensures KeyBlock(ppk) == Mixed(f, old(KeyBlock(ppk)))
  {
    ppk[0] := Plus(ppk[0], f(ppk[5], 0));
    ppk[1] := Plus(ppk[1], f(ppk[0], 1));
    ppk[2] := Plus(ppk[2], f(ppk[1], 2));
    ppk[3] := Plus(ppk[3], f(ppk[2], 3));
    ppk[4] := Plus(ppk[4], f(ppk[3], 4));
    ppk[5] := Plus(ppk[5], f(ppk[4], 5));
  }

  method RotateKey(ppk: array<W16>, k6: W16, k7: W16)
    requires ppk.Length >= 6
    modifies ppk
    ensures KeyBlock(ppk) == Rotated(k6, k7, old(KeyBlock(ppk)))
  {
    ppk[0] := Plus(ppk[0], RotR1(Xor16(ppk[5], k6)));
    ppk[1] := Plus(ppk[1], RotR1(Xor16(ppk[0], k7)));
    ppk[2] := Plus(ppk[2], RotR1(ppk[1]));
    ppk[3] := Plus(ppk[3], RotR1(ppk[2]));
    ppk[4] := Plus(ppk[4], RotR1(ppk[3]));
    ppk[5] := Plus(ppk[5], RotR1(ppk[4]));
  }

  /** tkhash_phase2 */
  method Phase2(rc4key: array<Byte>, tk: Key, p1k: array<W16>, iv16: W16, s0: Sbox, s1: Sbox)
    requires rc4key.Length >= 16 && p1k.Length >= 5
    modifies rc4key
    ensures var q := Phase2Of(Mix(s0, s1, tk), tk, BlockOf(p1k), iv16);
            rc4key[..16] == HeadBytes(tk, q, iv16) + TailBytes(q)
  {
    var ppk := Phase2Block(tk, p1k, iv16, s0, s1);
    PutKey(rc4key, tk, ppk, iv16);
  }

  /** The two sweeps over the words. */
  method Phase2Block(tk: Key, p1k: array<W16>, iv16: W16, s0: Sbox, s1: Sbox) returns (ppk: array<W16>)
    requires p1k.Length >= 5
    ensures fresh(ppk) && ppk.Length == 6 && KeyBlock(ppk) == Phase2Of(Mix(s0, s1, tk), tk, BlockOf(p1k), iv16)
  {
    ppk := new W16[6];
    ppk[0], ppk[1], ppk[2], ppk[3], ppk[4] := p1k[0], p1k[1], p1k[2], p1k[3], p1k[4];
    ppk[5] := Plus(p1k[4], iv16);
    MixKey(ppk, Mix(s0, s1, tk));
    RotateKey(ppk, TK16(tk, 6), TK16(tk, 7));
  }

  /** The bytes of the key. */
  method PutKey(rc4key: array<Byte>, tk: Key, ppk: array<W16>, iv16: W16)
    requires rc4key.Length >= 16 && ppk.Length == 6
    modifies rc4key
    ensures rc4key[..16] == HeadBytes(tk, KeyBlock(ppk), iv16) + TailBytes(KeyBlock(ppk))
  {
    rc4key[0], rc4key[1], rc4key[2] := Hi8(iv16), NotWeak(Hi8(iv16)), Lo8(iv16);
    rc4key[3] := Lo8(Xor16(ppk[5], TK16(tk, 0)) / 2);
    assert rc4key[..4] == HeadBytes(tk, KeyBlock(ppk), iv16);
    PutTail(rc4key, ppk);
    assert rc4key[..16] == rc4key[..4] + rc4key[4..16];
  }

  method PutTail(rc4key: array<Byte>, ppk: array<W16>)
    requires rc4key.Length >= 16 && ppk.Length == 6
    modifies rc4key
    ensures rc4key[..4] == old(rc4key[..4]) && rc4key[4..16] == TailBytes(KeyBlock(ppk))
  {
    var i := 0;
    while i < 6
      invariant i <= 6 && rc4key[..4] == old(rc4key[..4])
      invariant rc4key[4..4 + 2 * i] == LittleEndian(ppk[..i])
    {
      ghost var s := rc4key[4..4 + 2 * i];
      rc4key[4 + 2 * i], rc4key[5 + 2 * i] := Lo8(ppk[i]), Hi8(ppk[i]);
      assert ppk[..i + 1][..i] == ppk[..i];
      assert rc4key[4..4 + 2 * i + 2] == s + [Lo8(ppk[i]), Hi8(ppk[i])];
      i := i + 1;
    }
    assert ppk[..6] == [ppk[0], ppk[1], ppk[2], ppk[3], ppk[4], ppk[5]];
  }
}
