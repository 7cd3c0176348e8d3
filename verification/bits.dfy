/** Bytes and the exclusive or, bit by bit. */
module Bits {
  import opened Shift

  type Byte = x: int | 0 <= x < 0x100
  type W16 = x: int | 0 <= x < 0x1_0000
  type W32 = x: int | 0 <= x < 0x1_0000_0000

  /** The block of a cipher, and a cipher under one key. */
  type Block = s: seq<Byte> | |s| == 16 witness seq(16, _ => 0)
  type Cipher = Block -> Block

  /** The lowest n bits of x ^ y. */
  function XorBits(x: nat, y: nat, n: nat): (z: nat)
    ensures z < Pow2(n)
  {
    if n == 0 then 0 else (x % 2 + y % 2) % 2 + 2 * XorBits(x / 2, y / 2, n - 1)
  }

  lemma Ranges()
    ensures Pow2(8) == 0x100 && Pow2(16) == 0x1_0000 && Pow2(32) == 0x1_0000_0000
  {
    assert Pow2(4) == 16;
    assert Pow2(12) == 4096;
    assert Pow2(20) == 0x10_0000;
    assert Pow2(24) == 0x100_0000;
    assert Pow2(28) == 0x1000_0000;
  }

  lemma {:induction false} XorUndone(x: nat, y: nat, n: nat)
    requires x < Pow2(n)
    ensures XorBits(XorBits(x, y, n), y, n) == x
  {
    if n > 0 {
      var e, r := (x % 2 + y % 2) % 2, XorBits(x / 2, y / 2, n - 1);
      XorUnfold(x, y, n);
      XorOnto(e, r, y, n);
      BitBack(x % 2, y % 2);
      XorUndone(x / 2, y / 2, n - 1);
    }
  }

  lemma {:induction false} XorOnto(e: nat, r: nat, y: nat, n: nat)
    requires e < 2 && n > 0
    ensures XorBits(e + 2 * r, y, n) == (e + y % 2) % 2 + 2 * XorBits(r, y / 2, n - 1)
  {
    SplitBit(e, r);
    XorUnfold(e + 2 * r, y, n);
  }

  lemma BitBack(p: nat, q: nat)
    requires p < 2 && q < 2
    ensures ((p + q) % 2 + q) % 2 == p
  {
  }

  lemma {:induction false} XorUnfold(x: nat, y: nat, n: nat)
    requires n > 0
    ensures XorBits(x, y, n) == (x % 2 + y % 2) % 2 + 2 * XorBits(x / 2, y / 2, n - 1)
  {
  }

  lemma SplitBit(e: nat, r: nat)
    requires e < 2
    ensures (e + 2 * r) % 2 == e && (e + 2 * r) / 2 == r
  {
  }

  /** x ^ y of bytes */
  function Xor(x: Byte, y: Byte): Byte {
    Ranges();
    XorBits(x, y, 8)
  }

  /** x ^ y of words */
  function Xor16(x: W16, y: W16): W16 {
    Ranges();
    XorBits(x, y, 16)
  }

  function Xor32(x: W32, y: W32): W32 {
    Ranges();
    XorBits(x, y, 32)
  }

  lemma XorTwice(x: Byte, y: Byte)
    ensures Xor(Xor(x, y), y) == x
  {
    Ranges();
    XorUndone(x, y, 8);
  }

  lemma {:induction false} XorBitsZero(x: nat, n: nat)
    requires x < Pow2(n)
    ensures XorBits(x, 0, n) == x
  {
    if n > 0 {
      XorBitsZero(x / 2, n - 1);
    }
  }

  lemma XorZero(x: Byte)
    ensures Xor(x, 0) == x
  {
    Ranges();
    XorBitsZero(x, 8);
  }

  lemma XorCommutes(x: Byte, y: Byte)
    ensures Xor(x, y) == Xor(y, x)
  {
    Symmetric(x, y, 8);
  }

  lemma ZeroXor(b: Byte)
    ensures Xor(0, b) == b
  {
    Symmetric(0, b, 8);
    XorZero(b);
  }

  lemma {:induction false} Symmetric(x: nat, y: nat, n: nat)
    ensures XorBits(x, y, n) == XorBits(y, x, n)
  {
    if n > 0 {
      Symmetric(x / 2, y / 2, n - 1);
    }
  }

  /** Xor with one changes the lowest bit. */
  lemma XorOne(x: Byte)
    ensures Xor(x, 1) == if x % 2 == 0 then x + 1 else x - 1
  {
    Ranges();
    XorBitsZero(x / 2, 7);
  }
}
