/** AES in counter mode and CCM mode (aes.c), over any block function. */
module Ccm {
  import opened Bits

  const SIZE_T: int := 0x1_0000_0000
  const CTR_MAX := 0x10_0000      // 16 * AES_CTR_MAXBLOCKS
  const AAD_MAX := 0xfeff

  // ----- counter mode

  /** A counter block after n increments of its last two bytes. */
  function Advance(a: Block, n: nat): (b: Block)
    ensures b[..14] == a[..14]
  {
    if n == 0 then a
    else
      var b := Advance(a, n - 1);
      if b[15] < 255 then b[15 := b[15] + 1]
      else if b[14] < 255 then b[14 := b[14] + 1][15 := 0]
      else b[14 := 0][15 := 0]
  }

  /** The number in the last two bytes. */
  function Number(a: Block): (v: int)
    ensures 0 <= v < 0x1_0000
  {
    var h: int, l: int := a[14], a[15];
    256 * h + l
  }

  lemma AdvanceOne(a: Block, n: nat)
    ensures var v := Number(Advance(a, n));
            Number(Advance(a, n + 1)) == if v < 0xffff then v + 1 else 0
  {
  }

  lemma NextResidue(x: nat)
    ensures (x + 1) % 0x1_0000 == if x % 0x1_0000 < 0xffff then x % 0x1_0000 + 1 else 0
  {
  }

  lemma {:induction false} AdvanceIs(a: Block, n: nat)
    ensures Number(Advance(a, n)) == (Number(a) + n) % 0x1_0000
  {
    if n > 0 {
      AdvanceIs(a, n - 1);
      AdvanceOne(a, n - 1);
      NextResidue(Number(a) + n - 1);
    }
  }

  /** Counter blocks are all different as long as there are no more than 65536. */
  lemma CountersDiffer(a: Block, i: nat, j: nat)
    requires i < j
    ensures j - i < 0x1_0000 ==> Advance(a, i) != Advance(a, j)
    ensures j - i == 0x1_0000 ==> Advance(a, i) == Advance(a, j)
  {
    AdvanceIs(a, i);
    AdvanceIs(a, j);
    if j - i == 0x1_0000 {
      SameNumber(Advance(a, i), Advance(a, j));
    }
  }

  lemma SameNumber(a: Block, b: Block)
    requires Number(a) == Number(b) && a[..14] == b[..14]
    ensures a == b
  {
    assert a == a[..14] + [a[14], a[15]] && b == b[..14] + [b[14], b[15]];
  }

  /** The key stream. */
  function Stream(E: Cipher, a: Block, k: nat): Byte {
    E(Advance(a, k / 16))[k % 16]
  }

  /** Counter mode: every byte with the byte of the key stream. */
  function Crypt(E: Cipher, a: Block, p: seq<Byte>): (c: seq<Byte>)
    ensures |c| == |p|
  {
    seq(|p|, k requires 0 <= k < |p| => Xor(p[k], Stream(E, a, k)))
  }

  lemma CryptTwice(E: Cipher, a: Block, p: seq<Byte>)
    ensures Crypt(E, a, Crypt(E, a, p)) == p
  {
    forall k | 0 <= k < |p| ensures Crypt(E, a, Crypt(E, a, p))[k] == p[k] {
      XorTwice(p[k], Stream(E, a, k));
    }
  }

  // ----- section 2.2 of RFC 3610

  function Zeros(n: nat): (z: seq<Byte>)
    ensures |z| == n
  {
    seq(n, _ => 0)
  }

  /** Zeros up to a full block. */
  function Padded(s: seq<Byte>): (t: seq<Byte>)
    ensures |t| % 16 == 0
  {
    if |s| % 16 == 0 then s else s + Zeros(16 - |s| % 16)
  }

  function XorBlock(x: Block, y: Block): Block {
    seq(16, k requires 0 <= k < 16 => Xor(x[k], y[k]))
  }

  /** The CBC chain over blocks. */
  function Cbc(E: Cipher, x: Block, s: seq<Byte>): Block
    decreases |s|
  {
    if |s| < 16 then x else Cbc(E, E(XorBlock(x, s[..16])), s[16..])
  }

  type Nonce = s: seq<Byte> | |s| == 13 witness seq(13, _ => 0)

  /** B_0: the flags (Adata, M and L), the nonce and the length of the message. */
  function FirstBlock(nonce: Nonce, adata: bool, n: nat): Block
  {
    [(if adata then 64 else 0) + 8 * ((8 - 2) / 2) + (2 - 1)] + nonce + TwoBytes(n)
  }

  function TwoBytes(n: nat): (b: seq<Byte>)
    ensures |b| == 2
  {
    [n / 256 % 256, n % 256]
  }

  /** All blocks that are authenticated: B_0, the additional data after its length, and the
      message, the last two filled up with zeros. */
  function Blocks(nonce: Nonce, aad: seq<Byte>, m: seq<Byte>): seq<Byte> {
    FirstBlock(nonce, |aad| > 0, |m|) + (if |aad| > 0 then Padded(TwoBytes(|aad|) + aad) else []) + Padded(m)
  }

  /** T */
  function Tag(E: Cipher, nonce: Nonce, aad: seq<Byte>, m: seq<Byte>): (t: seq<Byte>)
    ensures |t| == 8
  {
    Cbc(E, Zeros(16), Blocks(nonce, aad, m))[..8]
  }

  /** A_i of section 2.3 */
  function Counter(nonce: Nonce, i: nat): Block
    requires i < 0x1_0000
  {
    [2 - 1] + nonce + [i / 256, i % 256]
  }

  /** The message and the tag, encrypted. */
  function Sealed(E: Cipher, nonce: Nonce, aad: seq<Byte>, m: seq<Byte>): seq<Byte> {
    Crypt(E, Counter(nonce, 1), m) + Crypt(E, Counter(nonce, 0), Tag(E, nonce, aad, m))
  }

  datatype Option<T> = None | Some(value: T)

  function Opened(E: Cipher, nonce: Nonce, aad: seq<Byte>, c: seq<Byte>): Option<seq<Byte>> {
    if |c| < 8 then None
    else
      var m := Crypt(E, Counter(nonce, 1), c[..|c| - 8]);
      if Crypt(E, Counter(nonce, 0), c[|c| - 8..]) == Tag(E, nonce, aad, m) then Some(m) else None
  }

  /** B_0 tells the length of a message below 65536 bytes, as the standard has it. */
  lemma LengthTold(n: nat)
    ensures var b := TwoBytes(n); (var h: int, l: int := b[0], b[1]; 256 * h + l == n) <==> n < 0x1_0000
  {
  }

  /** No block of the message shares the counter of the tag, unless there are 65536. */
  lemma TagHasItsCounter(nonce: Nonce, blocks: nat)
    ensures (forall i :: 0 <= i < blocks ==> Advance(Counter(nonce, 1), i) != Counter(nonce, 0)) <==> blocks <= 0xffff
  {
    var a, b := Counter(nonce, 1), Counter(nonce, 0);
    forall i | 0 <= i < blocks && i < 0xffff ensures Advance(a, i) != b {
      AdvanceIs(a, i);
      assert Number(a) == 1 && Number(b) == 0;
    }
    if blocks > 0xffff {
      AdvanceIs(a, 0xffff);
      SameNumber(Advance(a, 0xffff), b);
    }
  }

  lemma SealedIsOpened(E: Cipher, nonce: Nonce, aad: seq<Byte>, m: seq<Byte>)
    ensures Opened(E, nonce, aad, Sealed(E, nonce, aad, m)) == Some(m)
  {
    var t, c := Tag(E, nonce, aad, m), Sealed(E, nonce, aad, m);
    CryptTwice(E, Counter(nonce, 1), m);
    CryptTwice(E, Counter(nonce, 0), t);
    assert c[..|c| - 8] == Crypt(E, Counter(nonce, 1), m) && c[|c| - 8..] == Crypt(E, Counter(nonce, 0), t);
  }

  lemma OpenedIsSealed(E: Cipher, nonce: Nonce, aad: seq<Byte>, m: seq<Byte>, c: seq<Byte>)
    requires Opened(E, nonce, aad, c) == Some(m)
    ensures c == Sealed(E, nonce, aad, m)
  {
    var d, e := c[..|c| - 8], c[|c| - 8..];
    CryptTwice(E, Counter(nonce, 1), d);
    CryptTwice(E, Counter(nonce, 0), e);
    assert c == d + e;
  }

  /** What was sealed opens, and only that does. */
  lemma SealedOpens(E: Cipher, nonce: Nonce, aad: seq<Byte>, m: seq<Byte>, c: seq<Byte>)
    ensures Opened(E, nonce, aad, c) == Some(m) <==> c == Sealed(E, nonce, aad, m)
  {
    SealedIsOpened(E, nonce, aad, m);
    if Opened(E, nonce, aad, c) == Some(m) {
      OpenedIsSealed(E, nonce, aad, m, c);
    }
  }

  // ----- the chain as the program computes it, byte by byte

  /** The first bytes of x with those of s. */
  function XorInto(x: Block, s: seq<Byte>): Block
    requires |s| <= 16
  {
    seq(16, k requires 0 <= k < 16 => if k < |s| then Xor(x[k], s[k]) else x[k])
  }

  /** X after the bytes s: full blocks are encrypted, the rest is only put in. */
  function Feed(E: Cipher, x: Block, s: seq<Byte>): Block
    decreases |s|
  {
    if |s| < 16 then XorInto(x, s) else Feed(E, E(XorBlock(x, s[..16])), s[16..])
  }

  function XorAt(x: Block, k: nat, b: Byte): Block
    requires k < 16
  {
    x[k := Xor(x[k], b)]
  }

  lemma Sixteen(n: nat)
    ensures n >= 16 ==> (n - 16) % 16 == n % 16
    ensures (n + 1) % 16 == if n % 16 == 15 then 0 else n % 16 + 1
  {
  }

  /** One byte more. */
  lemma {:induction false} FeedByte(E: Cipher, x: Block, s: seq<Byte>, b: Byte)
    ensures var y := XorAt(Feed(E, x, s), |s| % 16, b);
            Feed(E, x, s + [b]) == if |s| % 16 == 15 then E(y) else y
    decreases |s|
  {
    if |s| < 16 {
      LastByte(E, x, s, b);
    } else {
      assert (s + [b])[..16] == s[..16] && (s + [b])[16..] == s[16..] + [b];
      Sixteen(|s|);
      FeedByte(E, E(XorBlock(x, s[..16])), s[16..], b);
    }
  }

  lemma LastByte(E: Cipher, x: Block, s: seq<Byte>, b: Byte)
    requires |s| < 16
    ensures var y := XorAt(XorInto(x, s), |s|, b);
            Feed(E, x, s + [b]) == if |s| == 15 then E(y) else y
  {
    var t := s + [b];
    assert XorInto(x, t) == XorAt(XorInto(x, s), |s|, b);
    if |s| == 15 {
      assert t[..16] == t && t[16..] == [];
      assert XorInto(x, t) == XorBlock(x, t);
      Nothing(E, E(XorBlock(x, t)));
    }
  }

  lemma Nothing(E: Cipher, x: Block)
    ensures Feed(E, x, []) == x
  {
  }

  /** One block more. */
  lemma {:induction false} FeedBlock(E: Cipher, x: Block, s: seq<Byte>, b: Block)
    requires |s| % 16 == 0
    ensures Feed(E, x, s + b) == E(XorBlock(Feed(E, x, s), b))
    decreases |s|
  {
    if |s| < 16 {
      assert s + b == b && b[..16] == b && b[16..] == [] && s == [];
      Nothing(E, x);
      Nothing(E, E(XorBlock(x, b)));
    } else {
      assert (s + b)[..16] == s[..16] && (s + b)[16..] == s[16..] + b;
      FeedBlock(E, E(XorBlock(x, s[..16])), s[16..], b);
    }
  }

  lemma {:induction false} CbcAppend(E: Cipher, x: Block, s: seq<Byte>, t: seq<Byte>)
    requires |s| % 16 == 0
    ensures Cbc(E, x, s + t) == Cbc(E, Cbc(E, x, s), t)
    decreases |s|
  {
    if |s| < 16 {
      assert s + t == t;
    } else {
      assert (s + t)[..16] == s[..16] && (s + t)[16..] == s[16..] + t;
      CbcAppend(E, E(XorBlock(x, s[..16])), s[16..], t);
    }
  }

  /** The padding is implicit: a block that is not full is encrypted as it is. */
  lemma {:induction false} FeedEnd(E: Cipher, x: Block, s: seq<Byte>)
    ensures Cbc(E, x, Padded(s)) == if |s| % 16 == 0 then Feed(E, x, s) else E(Feed(E, x, s))
    decreases |s|
  {
    if |s| == 0 {
      Nothing(E, x);
    } else if |s| < 16 {
      ShortBlock(E, x, s);
    } else {
      Sixteen(|s|);
      assert Padded(s)[..16] == s[..16] && Padded(s)[16..] == Padded(s[16..]);
      FeedEnd(E, E(XorBlock(x, s[..16])), s[16..]);
    }
  }

  lemma ShortBlock(E: Cipher, x: Block, s: seq<Byte>)
    requires 0 < |s| < 16
    ensures Cbc(E, x, Padded(s)) == E(XorInto(x, s))
  {
    var p := Padded(s);
    assert p[..16] == p && p[16..] == [];
    forall k | 0 <= k < 16 ensures XorBlock(x, p)[k] == XorInto(x, s)[k] {
      XorZero(x[k]);
    }
    assert XorBlock(x, p) == XorInto(x, s);
  }

  // ----- the MAC

  /** aes_block_encrypt in place */
  method EncryptInPlace(E: Cipher, x: array<Byte>)
    requires x.Length == 16
    modifies x
    ensures x[..] == E(old(x[..]))
  {
    var y := E(x[..]);
    forall k | 0 <= k < 16 {
      x[k] := y[k];
    }
  }

  /** A byte into X, and the encryption when X is full. */
  method PutByte(E: Cipher, x: array<Byte>, k: nat, b: Byte, ghost x0: Block, ghost s: seq<Byte>) returns (n: nat)
    requires x.Length == 16 && k == |s| % 16 && x[..] == Feed(E, x0, s)
    modifies x
    ensures x[..] == Feed(E, x0, s + [b]) && n == (|s| + 1) % 16
  {
    FeedByte(E, x0, s, b);
    Sixteen(|s|);
    x[k] := Xor(x[k], b);
    n := k + 1;
    if n == 16 {
      EncryptInPlace(E, x);
      n := 0;
    }
  }

  /** What is left over after full blocks. */
  lemma {:induction false} FeedRest(E: Cipher, x: Block, s: seq<Byte>, t: seq<Byte>)
    requires |s| % 16 == 0 && |t| < 16
    ensures Feed(E, x, s + t) == XorInto(Feed(E, x, s), t)
    decreases |s|
  {
    if |s| < 16 {
      assert s == [] && s + t == t;
      Nothing(E, x);
    } else {
      assert (s + t)[..16] == s[..16] && (s + t)[16..] == s[16..] + t;
      FeedRest(E, E(XorBlock(x, s[..16])), s[16..], t);
    }
  }

  /** The additional data, after its length. */
  method MacAad(E: Cipher, aad: seq<Byte>, x: array<Byte>)
    requires x.Length == 16 && 0 < |aad| <= AAD_MAX
    modifies x
    ensures x[..] == Cbc(E, old(x[..]), Padded(TwoBytes(|aad|) + aad))
  {
    ghost var x0, l := x[..], TwoBytes(|aad|);
    x[0] := Xor(x[0], |aad| / 256 % 256);
    x[1] := Xor(x[1], |aad| % 256);
    assert x[..] == XorInto(x0, l);
    var k := MacBytes(E, aad, x, x0, l);
    FeedEnd(E, x0, l + aad);
    if k % 16 != 0 {
      EncryptInPlace(E, x);
    }
  }

  method MacBytes(E: Cipher, aad: seq<Byte>, x: array<Byte>, ghost x0: Block, ghost l: seq<Byte>) returns (k: nat)
    requires x.Length == 16 && |l| == 2 && x[..] == Feed(E, x0, l)
    modifies x
    ensures x[..] == Feed(E, x0, l + aad) && k == |l + aad| % 16
  {
    k := 2;
    var j := 0;
    assert l + aad[..0] == l;
    while j < |aad|
      invariant j <= |aad| && k == (2 + j) % 16 && x[..] == Feed(E, x0, l + aad[..j])
    {
      assert l + aad[..j + 1] == l + aad[..j] + [aad[j]];
      k := PutByte(E, x, k, aad[j], x0, l + aad[..j]);
      j := j + 1;
    }
    assert aad[..j] == aad;
  }

  /** xor_128bit_block into its first operand */
  method XorInPlace(x: array<Byte>, b: seq<Byte>)
    requires x.Length == 16 && |b| <= 16
    modifies x
    ensures x[..] == XorInto(old(x[..]), b)
  {
    var k := 0;
    while k < |b|
      invariant k <= |b| && x[..] == XorInto(old(x[..]), b[..k])
    {
      x[k] := Xor(x[k], b[k]);
      k := k + 1;
    }
    assert b[..k] == b;
  }

  method MacBlock(E: Cipher, x: array<Byte>, b: Block, ghost x0: Block, ghost s: seq<Byte>)
    requires x.Length == 16 && |s| % 16 == 0 && x[..] == Feed(E, x0, s)
    modifies x
    ensures x[..] == Feed(E, x0, s + b)
  {
    FeedBlock(E, x0, s, b);
    assert XorInto(x[..], b) == XorBlock(x[..], b);
    XorInPlace(x, b);
    EncryptInPlace(E, x);
  }

  method MacBlocks(E: Cipher, m: seq<Byte>, x: array<Byte>, n: nat)
    requires x.Length == 16 && 16 * n <= |m|
    modifies x
    ensures x[..] == Feed(E, old(x[..]), m[..16 * n])
  {
    ghost var x0 := x[..];
    Nothing(E, x0);
    var k := 0;
    while k < n
      invariant k <= n && x[..] == Feed(E, x0, m[..16 * k])
    {
      assert m[..16 * k + 16] == m[..16 * k] + m[16 * k..16 * k + 16];
      MacBlock(E, x, m[16 * k..16 * k + 16], x0, m[..16 * k]);
      k := k + 1;
    }
  }

  /** The message. */
  method MacData(E: Cipher, m: seq<Byte>, x: array<Byte>)
    requires x.Length == 16
    modifies x
    ensures x[..] == Cbc(E, old(x[..]), Padded(m))
  {
    ghost var x0 := x[..];
    var n := |m| / 16;
    var rest := m[16 * n..];
    MacBlocks(E, m, x, n);
    FeedRest(E, x0, m[..16 * n], rest);
    assert m == m[..16 * n] + rest;
    XorInPlace(x, rest);
    FeedEnd(E, x0, m);
    if |m| % 16 != 0 {
      EncryptInPlace(E, x);
    }
  }

  /** aes_ccm_mac: the tag, unless the additional data is too long for a length of two
      bytes. */
  method Mac(E: Cipher, nonce: Nonce, aad: seq<Byte>, m: seq<Byte>, mac: array<Byte>) returns (ret: int)
    requires mac.Length >= 8
    modifies mac
    ensures ret == if |aad| > AAD_MAX then -1 else 0
    ensures ret == 0 <==> |aad| < 0xff00
    ensures ret == 0 ==> mac[..8] == Tag(E, nonce, aad, m)
    ensures forall j :: 0 <= j < mac.Length && (ret != 0 || j >= 8) ==> mac[j] == old(mac[j])
  {
    if |aad| > AAD_MAX {
      return -1;
    }
    var flags: Byte := if |aad| != 0 then 0x40 + 25 else 25;
    var b0: Block := [flags] + nonce + [|m| / 256 % 256, |m| % 256];
    assert b0 == FirstBlock(nonce, |aad| > 0, |m|);
    var x := new Byte[16](_ => 0);
    var y := E(b0);
    forall k | 0 <= k < 16 {
      x[k] := y[k];
    }
    assert x[..] == y;
    if |aad| != 0 {
      MacAad(E, aad, x);
    }
    MacData(E, m, x);
    TagChain(E, nonce, aad, m);
    Copy(x, 0, mac, 0);
    assert mac[..8] == mac[0..0 + 8] && x[..8] == x[0..0 + 8];
    ret := 0;
  }

  /** The chain in three parts. */
  lemma TagChain(E: Cipher, nonce: Nonce, aad: seq<Byte>, m: seq<Byte>)
    ensures var x1 := E(FirstBlock(nonce, |aad| > 0, |m|));
            var x2 := if |aad| > 0 then Cbc(E, x1, Padded(TwoBytes(|aad|) + aad)) else x1;
            Tag(E, nonce, aad, m) == Cbc(E, x2, Padded(m))[..8]
  {
    var b0 := FirstBlock(nonce, |aad| > 0, |m|);
    var b1 := if |aad| > 0 then Padded(TwoBytes(|aad|) + aad) else [];
    FirstOfChain(E, b0, b1 + Padded(m));
    assert b0 + b1 + Padded(m) == b0 + (b1 + Padded(m));
    CbcAppend(E, E(b0), b1, Padded(m));
  }

  lemma FirstOfChain(E: Cipher, b: Block, s: seq<Byte>)
    ensures Cbc(E, Zeros(16), b + s) == Cbc(E, E(b), s)
  {
    assert (b + s)[..16] == b && (b + s)[16..] == s;
    forall k | 0 <= k < 16 ensures XorBlock(Zeros(16), b)[k] == b[k] {
      ZeroXor(b[k]);
    }
    assert XorBlock(Zeros(16), b) == b;
  }

  // ----- the formats of RFC 3610, byte by byte

  /** The tag of nothing: flags 0x19, the nonce and the length zero, encrypted. */
  lemma TagOfNothing(E: Cipher, nonce: Nonce)
    ensures Tag(E, nonce, [], []) == E([0x19] + nonce + [0, 0])[..8]
  {
    TagChain(E, nonce, [], []);
    assert FirstBlock(nonce, false, 0) == [0x19] + nonce + [0, 0];
  }

  lemma OneBlock(E: Cipher, x: Block, b: Block)
    ensures Cbc(E, x, b) == E(XorBlock(x, b))
  {
    assert b[..16] == b && b[16..] == [];
    assert Cbc(E, E(XorBlock(x, b)), []) == E(XorBlock(x, b));
  }

  /** The tag of a message of one block, which is filled up with zeros. */
  lemma TagOfMessage(E: Cipher, nonce: Nonce, m: seq<Byte>)
    requires 0 < |m| <= 16
    ensures Tag(E, nonce, [], m)
         == E(XorBlock(E([0x19] + nonce + [0, |m|]), m + seq(16 - |m|, _ => 0)))[..8]
  {
    TagChain(E, nonce, [], m);
    var b: Block := m + seq(16 - |m|, _ => 0);
    assert FirstBlock(nonce, false, |m|) == [0x19] + nonce + [0, |m|] && Padded(m) == b;
    OneBlock(E, E([0x19] + nonce + [0, |m|]), b);
  }

  /** The tag of additional data of one block: flags 0x59, and the data after its length. */
  lemma TagOfData(E: Cipher, nonce: Nonce, aad: seq<Byte>)
    requires 0 < |aad| <= 14
    ensures Tag(E, nonce, aad, [])
         == E(XorBlock(E([0x59] + nonce + [0, 0]), [0, |aad|] + aad + seq(14 - |aad|, _ => 0)))[..8]
  {
    TagChain(E, nonce, aad, []);
    var b: Block := [0, |aad|] + aad + seq(14 - |aad|, _ => 0);
    assert FirstBlock(nonce, true, 0) == [0x59] + nonce + [0, 0] && Padded(TwoBytes(|aad|) + aad) == b;
    OneBlock(E, E([0x59] + nonce + [0, 0]), b);
  }

  /** The i-th increment of the counter block 1 is A_(i + 1). */
  lemma CounterIs(nonce: Nonce, i: nat)
    requires i + 1 < 0x1_0000
    ensures Advance(Counter(nonce, 1), i) == [1] + nonce + [(i + 1) / 256, (i + 1) % 256]
  {
    var b: Block := [1] + nonce + [(i + 1) / 256, (i + 1) % 256];
    AdvanceIs(Counter(nonce, 1), i);
    assert Counter(nonce, 1)[..14] == b[..14];
    SameNumber(Advance(Counter(nonce, 1), i), b);
  }

  /** S_i */
  function KeyStream(E: Cipher, nonce: Nonce, i: nat): Block
    requires i < 0x1_0000
  {
    E([1] + nonce + [i / 256, i % 256])
  }

  /** Sections 2.3 and 2.4: byte k of the message goes with S_(k / 16 + 1) and the tag with
      S_0. */
  lemma SealedBytes(E: Cipher, nonce: Nonce, aad: seq<Byte>, m: seq<Byte>, k: nat)
    requires k < |m| + 8 && k / 16 + 1 < 0x1_0000
    ensures |Sealed(E, nonce, aad, m)| == |m| + 8
    ensures Sealed(E, nonce, aad, m)[k] ==
            if k < |m| then Xor(m[k], KeyStream(E, nonce, k / 16 + 1)[k % 16])
            else Xor(Tag(E, nonce, aad, m)[k - |m|], KeyStream(E, nonce, 0)[k - |m|])
  {
    if k < |m| {
      CounterIs(nonce, k / 16);
    } else {
      assert Advance(Counter(nonce, 0), (k - |m|) / 16) == Counter(nonce, 0) == [1] + nonce + [0, 0];
    }
  }

  /** bcopy of eight bytes */
  method Copy(src: array<Byte>, so: nat, dst: array<Byte>, d: nat)
    requires so + 8 <= src.Length && d + 8 <= dst.Length && src != dst
    modifies dst
    ensures dst[d..d + 8] == src[so..so + 8]
    ensures forall j :: 0 <= j < dst.Length && !(d <= j < d + 8) ==> dst[j] == old(dst[j])
  {
    forall k | 0 <= k < 8 {
      dst[d + k] := src[so + k];
    }
  }

  // ----- counter mode over buffers

  /** n bytes from so on in src, or in dst when the two are the same place, with those of t. */
  method XorRange(src: array<Byte>, so: nat, t: Block, dst: array<Byte>, d: nat, n: nat)
    requires n <= 16 && so + n <= src.Length && d + n <= dst.Length && (src == dst ==> so == d)
    modifies dst
    ensures forall j :: d <= j < d + n ==> dst[j] == Xor(old(src[so + (j - d)]), t[j - d])
    ensures forall j :: 0 <= j < dst.Length && !(d <= j < d + n) ==> dst[j] == old(dst[j])
  {
    var k := 0;
    while k < n
      invariant k <= n
      invariant forall j :: 0 <= j < dst.Length && !(d <= j < d + k) ==> dst[j] == old(dst[j])
      invariant forall j :: d <= j < d + k ==> dst[j] == Xor(old(src[so + (j - d)]), t[j - d])
      invariant forall j :: so + k <= j < so + n ==> src[j] == old(src[j])
    {
      dst[d + k] := Xor(src[so + k], t[k]);
      k := k + 1;
    }
  }

  /** The next counter block. */
  method Increment(ctr: Block, ghost a: Block, ghost n: nat) returns (next: Block)
    requires ctr == Advance(a, n)
    ensures next == Advance(a, n + 1)
  {
    next := ctr[15 := if ctr[15] < 255 then ctr[15] + 1 else 0];
    if next[15] == 0 {
      next := next[14 := if next[14] < 255 then next[14] + 1 else 0];
    }
  }

  /** The first o bytes of p are done, from d on in dst. */
  ghost predicate Done(E: Cipher, a: Block, p: seq<Byte>, o: nat, dst: array<Byte>, d: nat)
    requires o <= |p| && d + |p| <= dst.Length
    reads dst
  {
    forall j :: d <= j < d + o ==> dst[j] == Xor(p[j - d], Stream(E, a, j - d))
  }

  /** The others are still there, from so on in src. */
  ghost predicate Waiting(p: seq<Byte>, o: nat, src: array<Byte>, so: nat)
    requires o <= |p| && so + |p| <= src.Length
    reads src
  {
    forall j :: so + o <= j < so + |p| ==> src[j] == p[j - so]
  }

  lemma StreamOfBlock(E: Cipher, a: Block, o: nat, k: nat)
    requires o == 16 * k
    ensures forall m :: o <= m < o + 16 ==> Stream(E, a, m) == E(Advance(a, k))[m - o]
  {
    forall m | o <= m < o + 16 ensures Stream(E, a, m) == E(Advance(a, k))[m - o] {
      assert m / 16 == k && m % 16 == m - o;
    }
  }

  /** One block, or what is left of one. */
  method NextBlock(E: Cipher, ctr: Block, src: array<Byte>, so: nat, dst: array<Byte>, d: nat, o: nat, n: nat,
                   ghost a: Block, ghost k: nat, ghost p: seq<Byte>)
    requires so + |p| <= src.Length && d + |p| <= dst.Length && (src == dst ==> so == d)
    requires o == 16 * k && o + n <= |p| && n <= 16 && ctr == Advance(a, k)
    requires Done(E, a, p, o, dst, d) && Waiting(p, o, src, so)
    modifies dst
    ensures Done(E, a, p, o + n, dst, d) && Waiting(p, o + n, src, so)
    ensures forall j :: 0 <= j < dst.Length && !(d + o <= j < d + o + n) ==> dst[j] == old(dst[j])
  {
    StreamOfBlock(E, a, o, k);
    var tmp := E(ctr);
    XorRange(src, so + o, tmp, dst, d + o, n);
  }

  /** The full blocks. */
  method CryptBlocks(E: Cipher, nonce: Block, src: array<Byte>, so: nat, dst: array<Byte>, d: nat, m: nat,
                     ghost p: seq<Byte>)
    returns (ctr: Block)
    requires so + |p| <= src.Length && d + |p| <= dst.Length && (src == dst ==> so == d)
    requires 16 * m <= |p| && Waiting(p, 0, src, so)
    modifies dst
    ensures ctr == Advance(nonce, m)
    ensures Done(E, nonce, p, 16 * m, dst, d) && Waiting(p, 16 * m, src, so)
    ensures forall j :: 0 <= j < dst.Length && !(d <= j < d + 16 * m) ==> dst[j] == old(dst[j])
  {
    ctr := nonce;
    var k := 0;
    while k < m
      invariant k <= m && ctr == Advance(nonce, k)
      invariant Done(E, nonce, p, 16 * k, dst, d) && Waiting(p, 16 * k, src, so)
      invariant forall j :: 0 <= j < dst.Length && !(d <= j < d + 16 * k) ==> dst[j] == old(dst[j])
    {
      NextBlock(E, ctr, src, so, dst, d, 16 * k, 16, nonce, k, p);
      ctr := Increment(ctr, nonce, k);
      k := k + 1;
    }
  }

  /** aes_ctr_crypt: from and to buffers that may be the same place; nothing is done when
      there are more than 65536 blocks. */
  method CtrCrypt(E: Cipher, nonce: Block, n: nat, src: array<Byte>, so: nat, dst: array<Byte>, d: nat)
    returns (ret: int)
    requires n <= CTR_MAX ==> so + n <= src.Length && d + n <= dst.Length && (src == dst ==> so == d)
    modifies dst
    ensures ret == if n > CTR_MAX then -1 else 0
    ensures ret == 0 <==> (n + 15) / 16 <= 0x1_0000
    ensures ret == 0 ==> dst[d..d + n] == Crypt(E, nonce, old(src[so..so + n]))
    ensures forall j :: 0 <= j < dst.Length && !(ret == 0 && d <= j < d + n) ==> dst[j] == old(dst[j])
  {
    if n > CTR_MAX {
      return -1;
    }
    var m, r := n / 16, n % 16;
    ghost var p := src[so..so + n];
    var ctr := CryptBlocks(E, nonce, src, so, dst, d, m, p);
    if r != 0 {
      NextBlock(E, ctr, src, so, dst, d, 16 * m, r, nonce, m, p);
    }
    ret := 0;
  }

  // ----- CCM

  function A(nonce: Nonce, last: Byte): Block {
    [1] + nonce + [0, last]
  }

  lemma FirstCounters(nonce: Nonce)
    ensures A(nonce, 0) == Counter(nonce, 0) && A(nonce, 1) == Counter(nonce, 1)
  {
  }

  /** The tag, encrypted. */
  function EncryptedTag(E: Cipher, nonce: Nonce, aad: seq<Byte>, m: seq<Byte>): (t: seq<Byte>)
    ensures |t| == 8
  {
    Crypt(E, Counter(nonce, 0), Tag(E, nonce, aad, m))
  }

  /** The tag, encrypted where it is. */
  method EncryptTag(E: Cipher, nonce: Nonce, aad: seq<Byte>, m: seq<Byte>) returns (ret: int, x: array<Byte>)
    ensures fresh(x) && x.Length == 16
    ensures ret == if |aad| > AAD_MAX then -1 else 0
    ensures ret == 0 ==> x[0..8] == EncryptedTag(E, nonce, aad, m)
  {
    x := new Byte[16];
    ret := Mac(E, nonce, aad, m, x);
    if ret == 0 {
      assert x[0..0 + 8] == x[..8];
      FirstCounters(nonce);
      ret := CtrCrypt(E, A(nonce, 0), 8, x, 0, x, 0);
    }
  }

  /** The tag of a message, encrypted, into mac. */
  method PutTag(E: Cipher, nonce: Nonce, aad: seq<Byte>, m: seq<Byte>, mac: array<Byte>, mo: nat) returns (ret: int)
    requires mo + 8 <= mac.Length
    modifies mac
    ensures ret == if |aad| > AAD_MAX then -1 else 0
    ensures ret == 0 ==> mac[mo..mo + 8] == EncryptedTag(E, nonce, aad, m)
    ensures forall j :: 0 <= j < mac.Length && !(ret == 0 && mo <= j < mo + 8) ==> mac[j] == old(mac[j])
  {
    var x: array<Byte>;
    ret, x := EncryptTag(E, nonce, aad, m);
    if ret == 0 {
      Copy(x, 0, mac, mo);
    }
  }

  /** aes_ccm_encrypt: mac is written before the data, and not into it; it has been written
      when there turn out to be too many blocks. */
  method CcmEncrypt(E: Cipher, nonce: Nonce, aad: seq<Byte>, n: nat, src: array<Byte>, so: nat, dst: array<Byte>,
                    d: nat, mac: array<Byte>, mo: nat)
    returns (ret: int)
    requires so + n <= src.Length && d + n <= dst.Length && mo + 8 <= mac.Length && (src == dst ==> so == d)
    requires (mac == src ==> mo >= so + n || mo + 8 <= so) && (mac == dst ==> mo >= d + n || mo + 8 <= d)
    modifies dst, mac
    ensures ret == if |aad| > AAD_MAX || n > CTR_MAX then -1 else 0
    ensures ret == 0 ==> dst[d..d + n] == Crypt(E, Counter(nonce, 1), old(src[so..so + n]))
    ensures |aad| <= AAD_MAX ==> mac[mo..mo + 8] == EncryptedTag(E, nonce, aad, old(src[so..so + n]))
    ensures forall j | 0 <= j < dst.Length && !(ret == 0 && d <= j < d + n) ::
              !(dst == mac && |aad| <= AAD_MAX && mo <= j < mo + 8) ==> dst[j] == old(dst[j])
    ensures forall j | 0 <= j < mac.Length && !(|aad| <= AAD_MAX && mo <= j < mo + 8) ::
              !(mac == dst && ret == 0 && d <= j < d + n) ==> mac[j] == old(mac[j])
  {
    ghost var m := src[so..so + n];
    ret := PutTag(E, nonce, aad, src[so..so + n], mac, mo);
    if ret != 0 {
      return -1;
    }
    ghost var t := mac[mo..mo + 8];
    assert src[so..so + n] == m;
    FirstCounters(nonce);
    ret := CtrCrypt(E, A(nonce, 1), n, src, so, dst, d);
    assert mac[mo..mo + 8] == t;
  }

  /** When mac follows the data, as the source's callers have it, the two are the message
      sealed. */
  lemma SealedInPlace(E: Cipher, nonce: Nonce, aad: seq<Byte>, m: seq<Byte>, dst: array<Byte>, d: nat)
    requires d + |m| + 8 <= dst.Length && dst[d..d + |m|] == Crypt(E, Counter(nonce, 1), m)
    requires dst[d + |m|..d + |m| + 8] == EncryptedTag(E, nonce, aad, m)
    ensures dst[d..d + |m| + 8] == Sealed(E, nonce, aad, m)
  {
    assert dst[d..d + |m| + 8] == dst[d..d + |m|] + dst[d + |m|..d + |m| + 8];
  }

  /** The message and behind it the tag. */
  method DecryptBoth(E: Cipher, nonce: Nonce, k: nat, src: array<Byte>, so: nat, dst: array<Byte>, d: nat,
                     ghost c: seq<Byte>, ghost t: seq<Byte>)
    returns (ret: int)
    requires k <= CTR_MAX ==>
               && so + k + 8 <= src.Length && d + k + 8 <= dst.Length && (src == dst ==> so == d)
               && src[so..so + k] == c && src[so + k..so + k + 8] == t
    modifies dst
    ensures ret == if k > CTR_MAX then -1 else 0
    ensures ret == 0 ==> dst[d..d + k] == Crypt(E, Counter(nonce, 1), c)
    ensures ret == 0 ==> dst[d + k..d + k + 8] == Crypt(E, Counter(nonce, 0), t)
    ensures forall j :: 0 <= j < dst.Length && !(ret == 0 && d <= j < d + k + 8) ==> dst[j] == old(dst[j])
  {
    FirstCounters(nonce);
    ret := CtrCrypt(E, A(nonce, 1), k, src, so, dst, d);
    if ret != 0 {
      return -1;
    }
    ghost var u := dst[d..d + k];
    assert src[so + k..so + k + 8] == t;
    ret := CtrCrypt(E, A(nonce, 0), 8, src, so + k, dst, d + k);
    assert dst[d..d + k] == u;
  }

  /** The tag of the message against the one behind it. */
  method CheckTag(E: Cipher, nonce: Nonce, aad: seq<Byte>, p: seq<Byte>, t: seq<Byte>) returns (ret: int)
    requires |t| == 8
    ensures ret == if |aad| <= AAD_MAX && t == Tag(E, nonce, aad, p) then 0 else -1
  {
    var x := new Byte[16];
    ret := Mac(E, nonce, aad, p, x);
    if ret != 0 {
      return -1;
    }
    assert x[..8] == Tag(E, nonce, aad, p);
    ret := if x[..8] == t then 0 else -1;
  }

  /** What decryption leaves in the buffer, and whether it is accepted. */
  ghost predicate Decrypted(E: Cipher, nonce: Nonce, aad: seq<Byte>, c: seq<Byte>, p: seq<Byte>, ret: int)
    requires |c| >= 8 && |p| == |c|
  {
    var k := |c| - 8;
    && p == Crypt(E, Counter(nonce, 1), c[..k]) + Crypt(E, Counter(nonce, 0), c[k..])
    && (ret == 0 <==> |aad| <= AAD_MAX && Opened(E, nonce, aad, c).Some?)
    && (ret == 0 ==> Opened(E, nonce, aad, c) == Some(p[..k]))
  }

  lemma Accepted(E: Cipher, nonce: Nonce, aad: seq<Byte>, c: seq<Byte>, p: seq<Byte>, ret: int)
    requires |c| >= 8 && |p| == |c|
    requires p == Crypt(E, Counter(nonce, 1), c[..|c| - 8]) + Crypt(E, Counter(nonce, 0), c[|c| - 8..])
    requires ret == if |aad| <= AAD_MAX && p[|c| - 8..] == Tag(E, nonce, aad, p[..|c| - 8]) then 0 else -1
    ensures Decrypted(E, nonce, aad, c, p, ret)
  {
    assert p[..|c| - 8] == Crypt(E, Counter(nonce, 1), c[..|c| - 8]);
    assert p[|c| - 8..] == Crypt(E, Counter(nonce, 0), c[|c| - 8..]);
  }

  /** aes_ccm_decrypt: n counts the tag, and fewer bytes than a tag wrap to a length that
      counter mode refuses. The tag is decrypted behind the message. */
  method CcmDecrypt(E: Cipher, nonce: Nonce, aad: seq<Byte>, n: nat, src: array<Byte>, so: nat, dst: array<Byte>,
                    d: nat)
    returns (ret: int)
    requires n < SIZE_T
    requires n <= CTR_MAX + 8 ==> so + n <= src.Length && d + n <= dst.Length && (src == dst ==> so == d)
    modifies dst
    ensures ret == 0 || ret == -1
    ensures 8 <= n <= CTR_MAX + 8 ==> Decrypted(E, nonce, aad, old(src[so..so + n]), dst[d..d + n], ret)
    ensures !(8 <= n <= CTR_MAX + 8) ==> ret == -1
    ensures forall j :: 0 <= j < dst.Length && !(8 <= n <= CTR_MAX + 8 && d <= j < d + n) ==> dst[j] == old(dst[j])
  {
    var k := if n >= 8 then n - 8 else n - 8 + SIZE_T;
    ghost var c := if k <= CTR_MAX then src[so..so + n] else [];
    ret := DecryptBoth(E, nonce, k, src, so, dst, d, if k <= CTR_MAX then c[..k] else [],
                       if k <= CTR_MAX then c[k..] else []);
    if ret != 0 {
      return -1;
    }
    ret := CheckTag(E, nonce, aad, dst[d..d + k], dst[d + k..d + n]);
    ghost var p := dst[d..d + n];
    assert p == dst[d..d + k] + dst[d + k..d + n];
    Accepted(E, nonce, aad, c, p, ret);
  }
}
