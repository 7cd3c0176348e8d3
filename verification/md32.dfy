/** The collector that the 32-bit hash functions share (md32_common.h, in its big-endian
    form), over any function that mixes a block of sixteen words into a chaining value. */
module Collector {
  import opened Bits

  type Chain = seq<W32>
  type Mixer = (Chain, seq<W32>) -> Chain


  // ----- bytes and words

  function At(b: seq<Byte>, i: nat): (x: int)
    ensures 0 <= x < 0x100
  {
    if i < |b| then b[i] else 0
  }

  /** Up to four bytes as the high bytes of a word, the others zero. */
  function Pack(b: seq<Byte>): W32
    requires |b| <= 4
  {
    0x100_0000 * At(b, 0) + 0x1_0000 * At(b, 1) + 0x100 * At(b, 2) + At(b, 3)
  }

  /** Four bytes as a number, the most significant first. */
  lemma PackIs(b: seq<Byte>)
    requires |b| == 4
    ensures var b0: int, b1: int, b2: int, b3: int := b[0], b[1], b[2], b[3];
            Pack(b) == ((b0 * 0x100 + b1) * 0x100 + b2) * 0x100 + b3
  {
  }

  /** The bytes of s that belong to its word i. */
  function Part(s: seq<Byte>, i: nat): (b: seq<Byte>)
    requires 4 * i <= |s|
    ensures |b| <= 4
  {
    if |s| - 4 * i >= 4 then s[4 * i..4 * i + 4] else s[4 * i..]
  }

  /** The words d begin with the bytes s; the rest of the last word of s is zero. */
  ghost predicate Packed(d: seq<W32>, s: seq<Byte>)
  {
    forall i :: 0 <= i < |d| && 4 * i < |s| ==> d[i] == Pack(Part(s, i))
  }

  /** A block of bytes as words. */
  function Words(s: seq<Byte>): (w: seq<W32>)
    requires |s| == 64
    ensures |w| == 16
  {
    seq(16, i requires 0 <= i < 16 => Pack(Part(s, i)))
  }

  lemma PackedBlock(d: seq<W32>, s: seq<Byte>)
    requires |d| == 16 && |s| == 64 && Packed(d, s)
    ensures d == Words(s)
  {
  }

  // ----- the hash as a function

  /** All full blocks of s mixed in. */
  function Absorb(f: Mixer, h: Chain, s: seq<Byte>): Chain
    decreases |s|
  {
    if |s| < 64 then h else Absorb(f, f(h, Words(s[..64])), s[64..])
  }

  /** What of s is not in a full block. */
  function Tail(s: seq<Byte>): (t: seq<Byte>)
    ensures |t| == |s| % 64 < 64
  {
    s[|s| - |s| % 64..]
  }

  lemma {:induction false} AbsorbMore(f: Mixer, h: Chain, s: seq<Byte>, t: seq<Byte>)
    requires |s| % 64 == 0
    ensures Absorb(f, h, s + t) == Absorb(f, Absorb(f, h, s), t)
    decreases |s|
  {
    if |s| < 64 {
      assert s + t == t;
    } else {
      assert (s + t)[..64] == s[..64] && (s + t)[64..] == s[64..] + t;
      AbsorbMore(f, f(h, Words(s[..64])), s[64..], t);
    }
  }

  /** The full blocks of m and then the rest of them, with what was left of m in front. */
  lemma AbsorbTail(f: Mixer, h: Chain, m: seq<Byte>, d: seq<Byte>)
    ensures Absorb(f, h, m + d) == Absorb(f, Absorb(f, h, m), Tail(m) + d)
    ensures Tail(m + d) == Tail(Tail(m) + d)
  {
    var q := Quotient64(|m|);
    var k := 64 * q;
    Residue64(q, 0);
    assert m == m[..k] + Tail(m) && m + d == m[..k] + (Tail(m) + d);
    AbsorbMore(f, h, m[..k], Tail(m));
    AbsorbMore(f, h, m[..k], Tail(m) + d);
    Residue64(q, |Tail(m) + d|);
  }

  lemma Quotient64(n: nat) returns (q: nat)
    ensures n == 64 * q + n % 64
  {
    q := n / 64;
  }

  lemma Residue64(q: nat, n: nat)
    ensures (64 * q + n) % 64 == n % 64
  {
  }

  // ----- the context

  /** The length of n bytes in bits, as far as 64 bits can hold it. */
  function BitLength(n: nat): (l: nat)
    ensures l < 0x1_0000_0000_0000_0000
  {
    if n == 0 then 0
    else
      var l := BitLength(n - 1) + 8;
      if l < 0x1_0000_0000_0000_0000 then l else l - 0x1_0000_0000_0000_0000
  }

  lemma {:induction false} BitLengthIs(n: nat)
    ensures BitLength(n) == 8 * n % 0x1_0000_0000_0000_0000
  {
    if n > 0 {
      BitLengthIs(n - 1);
    }
  }

  class Ctx {
    var h: Chain
    var nl: W32
    var nh: W32
    var data: array<W32>
    var num: nat

    /** The bytes t wait in data. */
    ghost predicate Buffered(t: seq<Byte>)
      reads this, data
    {
      data.Length == 16 && num == |t| < 64 && Packed(data[..], t)
    }

    /** nh and nl are the length of n bytes in bits, modulo 2 to the 64. */
    ghost predicate Counted(n: nat)
      reads this
    {
      nl + 0x1_0000_0000 * nh == BitLength(n)
    }

    /** The context after the message m: the chaining value of its full blocks, the rest
        of it in data, and its length. */
    ghost predicate After(f: Mixer, h0: Chain, m: seq<Byte>)
      reads this, data
    {
      h == Absorb(f, h0, m) && Buffered(Tail(m)) && Counted(|m|)
    }

    /** The Init functions. */
    constructor (h0: Chain)
      ensures h == h0 && Buffered([]) && Counted(0) && fresh(data)
    {
      h, nl, nh, num := h0, 0, 0, 0;
      data := new W32[16];
      new;
    }

    lemma AfterNothing(f: Mixer, h0: Chain)
      requires h == h0 && Buffered([]) && Counted(0)
      ensures After(f, h0, [])
    {
      assert Tail([]) == [];
    }

    // ----- the partial word

    /** HOST_p_c2l: the bytes that complete a word of which the first sc are there. */
    method CompleteWord(i: nat, sc: nat, b: seq<Byte>, ghost had: seq<Byte>)
      requires i < data.Length && |had| == sc < 4 && |b| == 4 - sc
      requires sc > 0 ==> data[i] == Pack(had)
      modifies data
      ensures data[i] == Pack(had + b)
      ensures forall k :: 0 <= k < data.Length && k != i ==> data[k] == old(data[k])
    {
      var l: int := if sc == 0 then 0 else data[i];
      if sc == 0 {
        l := 0x100_0000 * At(b, 0);
      }
      if sc <= 1 {
        l := l + 0x1_0000 * At(b, 1 - sc);
      }
      if sc <= 2 {
        l := l + 0x100 * At(b, 2 - sc);
      }
      data[i] := l + At(b, 3 - sc);
    }

    /** HOST_p_c2l_p: bytes that do not complete the word they go to. */
    method ExtendWord(i: nat, sc: nat, b: seq<Byte>, ghost had: seq<Byte>)
      requires i < data.Length && |had| == sc && 0 < |b| && sc + |b| < 4
      requires sc > 0 ==> data[i] == Pack(had)
      modifies data
      ensures data[i] == Pack(had + b)
      ensures forall k :: 0 <= k < data.Length && k != i ==> data[k] == old(data[k])
    {
      var l: int, n := data[i], 0;
      if sc == 0 {
        l := 0x100_0000 * At(b, 0);
        n := 1;
      }
      if sc <= 1 && n < |b| {
        l := l + 0x1_0000 * At(b, n);
        n := n + 1;
      }
      if n < |b| {
        l := l + 0x100 * At(b, n);
      }
      data[i] := l;
    }

    // ----- bytes into data

    /** Full words of b from byte k on, into the words from i up to but not including to. */
    method PutWords(i: nat, to: nat, b: seq<Byte>, k: nat)
      requires i <= to <= data.Length && k + 4 * (to - i) <= |b|
      modifies data
      ensures forall j :: i <= j < to ==> data[j] == Pack(b[k + 4 * (j - i)..k + 4 * (j - i) + 4])
      ensures forall j :: 0 <= j < data.Length && !(i <= j < to) ==> data[j] == old(data[j])
    {
      var n := i;
      while n < to
        invariant i <= n <= to
        invariant forall j :: i <= j < n ==> data[j] == Pack(b[k + 4 * (j - i)..k + 4 * (j - i) + 4])
        invariant forall j :: 0 <= j < data.Length && !(i <= j < n) ==> data[j] == old(data[j])
      {
        data[n] := Pack(b[k + 4 * (n - i)..k + 4 * (n - i) + 4]);
        n := n + 1;
      }
    }

    /** The bytes that fill the block: the first completes the word that is partly
        there. */
    method FillBlock(b: seq<Byte>, ghost t: seq<Byte>)
      requires Buffered(t) && |t| > 0 && |t| + |b| == 64
      modifies data
      ensures data[..] == Words(t + b)
    {
      var sw, sc := num / 4, num % 4;
      ghost var d := data[..];
      StartWord(sw, sc, b[..4 - sc], t);
      PutWords(sw + 1, 16, b, 4 - sc);
      Filled(d, data[..], t, b);
    }

    /** The word that is partly there, or the next. */
    method StartWord(sw: nat, sc: nat, b: seq<Byte>, ghost t: seq<Byte>)
      requires Buffered(t) && sw == num / 4 && sc == num % 4 && |b| == 4 - sc
      modifies data
      ensures data[sw] == Pack(t[4 * sw..] + b)
      ensures forall k :: 0 <= k < 16 && k != sw ==> data[k] == old(data[k])
    {
      assert Part(t, sw) == t[4 * sw..];
      CompleteWord(sw, sc, b, t[4 * sw..]);
    }

    /** Bytes that complete the word that is partly there and go on from it. */
    method AppendWords(sw: nat, sc: nat, b: seq<Byte>, ghost t: seq<Byte>)
      requires data.Length == 16 && |t| > 0 && |t| + |b| < 64 && Packed(data[..], t) && num == |t| + |b|
      requires sw == |t| / 4 && sc == |t| % 4 && sc + |b| >= 4
      modifies data
      ensures Packed(data[..], t + b)
    {
      ghost var d := data[..];
      var ew, ec := num / 4, num % 4;
      assert Part(t, sw) == t[4 * sw..];
      CompleteWord(sw, sc, b[..4 - sc], t[4 * sw..]);
      PutWords(sw + 1, ew, b, 4 - sc);
      if ec != 0 {
        data[ew] := Pack(b[|b| - ec..]);
      }
      Appended(d, data[..], t, b);
    }

    /** Bytes that do not fill the block. */
    method Append(b: seq<Byte>, ghost t: seq<Byte>)
      requires Buffered(t) && |t| > 0 && 0 < |b| && |t| + |b| < 64
      modifies `num, data
      ensures Buffered(t + b)
    {
      var sw, sc := num / 4, num % 4;
      ghost var d := data[..];
      assert Part(t, sw) == t[4 * sw..];
      num := num + |b|;
      if sc + |b| < 4 {
        ExtendWord(sw, sc, b, t[4 * sw..]);
        Extended(d, data[..], t, b);
      } else {
        AppendWords(sw, sc, b, t);
      }
    }

    /** The rest of the data when nothing waits. */
    method Keep(b: seq<Byte>)
      requires Buffered([]) && 0 < |b| < 64
      modifies `num, data
      ensures Buffered(b)
    {
      num := |b|;
      var ew, ec := |b| / 4, |b| % 4;
      PutWords(0, ew, b, 0);
      data[ew] := Pack(b[|b| - ec..]);
    }

    /** The length of the message grows by n bytes. */
    method AddLength(n: nat, ghost m: nat)
      requires Counted(m)
      modifies `nl, `nh
      ensures Counted(m + n)
    {
      LongerBy(nl, nh, m, n);
      nh := HighSum(nl, nh, n);
      nl := LowSum(nl, n);
    }

    /** The block functions over data in bytes. */
    method Blocks(f: Mixer, b: seq<Byte>, sw: nat)
      requires sw == |b| / 64
      modifies `h
      ensures h == Absorb(f, old(h), b)
    {
      var i := 0;
      assert b[0..] == b;
      while i < sw
        invariant 0 <= i <= sw && Absorb(f, h, b[64 * i..]) == Absorb(f, old(h), b)
      {
        var rest := b[64 * i..];
        h := f(h, Words(rest[..64]));
        assert rest[64..] == b[64 * (i + 1)..];
        i := i + 1;
      }
    }

    // ----- the end

    /** The length at the end of a block whose other words are there. */
    method PutLength(ghost t: seq<Byte>, ghost n: nat)
      requires data.Length == 16 && |t| == 56 && Packed(data[..], t) && Counted(n)
      modifies data
      ensures data[..] == Words(t + LengthBytes(n))
    {
      ghost var d := data[..];
      data[14] := nh;
      data[15] := nl;
      WordsOfLength(n, nl, nh);
      WithLength(d, data[..], t, n);
    }

    /** The words from i up to but not including to are cleared. */
    method ClearWords(i: nat, to: nat)
      requires i <= to <= data.Length
      modifies data
      ensures forall j :: i <= j < to ==> data[j] == 0
      ensures forall j :: 0 <= j < data.Length && !(i <= j < to) ==> data[j] == old(data[j])
    {
      var n := i;
      while n < to
        invariant i <= n <= to
        invariant forall j :: i <= j < n ==> data[j] == 0
        invariant forall j :: 0 <= j < data.Length && !(i <= j < n) ==> data[j] == old(data[j])
      {
        data[n] := 0;
        n := n + 1;
      }
    }

    /** The bit after the message, in a word of its own or in the one that is partly
        there: the block so far is that of t, the bit and zeros to the end of the word. */
    method EndWord(ghost t: seq<Byte>) returns (i: nat)
      requires Buffered(t)
      modifies data
      ensures i == |t| / 4 + 1 && Packed(data[..], t + [0x80] + Zeros(3 - |t| % 4))
    {
      var sc := num % 4;
      i := num / 4;
      var end: seq<Byte> := [0x80, 0, 0, 0];
      ghost var d := data[..];
      StartWord(i, sc, end[..4 - sc], t);
      assert [0x80] + Zeros(3 - |t| % 4) == end[..4 - sc];
      Ended(d, data[..], t, end[..4 - sc]);
      assert t + [0x80] + Zeros(3 - |t| % 4) == t + end[..4 - sc];
      i := i + 1;
    }

    /** The end when the length has room in the block. */
    method ShortEnd(f: Mixer, i: nat, ghost t: seq<Byte>, ghost n: nat)
      requires data.Length == 16 && i <= 14 && |t| == 4 * i && Packed(data[..], t) && Counted(n)
      modifies `h, data
      ensures h == f(old(h), Words(t + Zeros(56 - 4 * i) + LengthBytes(n)))
    {
      FillWithZeros(i, t, t + Zeros(56 - 4 * i));
      LastBlock(f, t + Zeros(56 - 4 * i), n);
    }

    method FillWithZeros(i: nat, ghost t: seq<Byte>, ghost u: seq<Byte>)
      requires data.Length == 16 && i <= 14 && |t| == 4 * i && Packed(data[..], t) && u == t + Zeros(56 - 4 * i)
      modifies data
      ensures Packed(data[..], u)
    {
      ghost var d := data[..];
      ClearWords(i, 14);
      Cleared(d, data[..], t, 14 - i);
      assert 4 * (14 - i) == 56 - 4 * i;
    }

    /** The block with the length. */
    method LastBlock(f: Mixer, ghost u: seq<Byte>, ghost n: nat)
      requires data.Length == 16 && |u| == 56 && Packed(data[..], u) && Counted(n)
      modifies `h, data
      ensures h == f(old(h), Words(u + LengthBytes(n)))
    {
      PutLength(u, n);
      h := f(h, data[..]);
    }

    /** The end when it has not: the block is filled with zeros and mixed in first. */
    method LongEnd(f: Mixer, i: nat, ghost t: seq<Byte>, ghost n: nat)
      requires data.Length == 16 && 14 < i <= 16 && |t| == 4 * i && Packed(data[..], t) && Counted(n)
      modifies `h, data
      ensures h == f(f(old(h), Words(t + Zeros(64 - 4 * i))), Words(Zeros(56) + LengthBytes(n)))
    {
      ghost var d := data[..];
      if i < 16 {
        data[i] := 0;
      }
      Cleared(d, data[..], t, 16 - i);
      PackedBlock(data[..], t + Zeros(4 * (16 - i)));
      h := f(h, data[..]);
      ShortEnd(f, 0, [], n);
      assert [] + Zeros(56 - 4 * 0) == Zeros(56);
    }

    /** HASH_FINAL: the chaining value is the hash of the message. */
    method Final(f: Mixer, ghost h0: Chain, ghost m: seq<Byte>)
      requires After(f, h0, m)
      modifies this, data
      ensures h == Hash(f, h0, m) && num == 0
    {
      ghost var t := Tail(m);
      ghost var s := t + [0x80] + Zeros(3 - |t| % 4);
      var i := EndWord(t);
      if i > 14 {
        LongEndOf(f, h0, h, m, s, i);
        LongEnd(f, i, s, |m|);
      } else {
        ShortEndOf(f, h0, h, m, s, i);
        ShortEnd(f, i, s, |m|);
      }
      num := 0;
    }

    /** Data after the buffer has been emptied. */
    method UpdateRest(f: Mixer, b: seq<Byte>)
      requires Buffered([])
      modifies `h, `num, data
      ensures h == Absorb(f, old(h), b) && Buffered(Tail(b))
    {
      var sw := |b| / 64;
      if sw > 0 {
        Blocks(f, b, sw);
      }
      if |b| - 64 * sw != 0 {
        Keep(b[64 * sw..]);
      }
      assert Tail(b) == b[64 * sw..];
    }

    /** Data while something waits. */
    method UpdateFull(f: Mixer, b: seq<Byte>, ghost t: seq<Byte>)
      requires Buffered(t) && |t| > 0 && |t| + |b| >= 64
      modifies `h, `num, data
      ensures h == Absorb(f, old(h), t + b) && Buffered(Tail(t + b))
    {
      var n := 64 - num;
      FillBlock(b[..n], t);
      assert (t + b)[..64] == t + b[..n] && (t + b)[64..] == b[n..];
      h := f(h, data[..]);
      num := 0;
      UpdateRest(f, b[n..]);
      TailAfterBlock(t + b);
    }

    /** Data after the length has been counted: what waits and the data, block by block. */
    method UpdateData(f: Mixer, d: seq<Byte>, ghost t: seq<Byte>)
      requires Buffered(t) && |d| > 0
      modifies `h, `num, data
      ensures h == Absorb(f, old(h), t + d) && Buffered(Tail(t + d))
    {
      if num == 0 {
        assert t == [] && t + d == d;
        UpdateRest(f, d);
      } else if num + |d| >= 64 {
        UpdateFull(f, d, t);
      } else {
        Append(d, t);
        ShortTail(t + d);
      }
    }

    /** HASH_UPDATE: however a message is cut, the context after the parts is the one
        after the whole. */
    method Update(f: Mixer, d: seq<Byte>, ghost h0: Chain, ghost m: seq<Byte>)
      requires After(f, h0, m)
      modifies this, data
      ensures After(f, h0, m + d) && data == old(data)
    {
      if |d| == 0 {
        assert m + d == m;
        return;
      }
      AbsorbTail(f, h0, m, d);
      CountAndUpdate(f, d, Tail(m), |m|);
    }

    /** HASH_UPDATE with data that is not empty, after n bytes of which t wait. */
    method CountAndUpdate(f: Mixer, d: seq<Byte>, ghost t: seq<Byte>, ghost n: nat)
      requires Buffered(t) && Counted(n) && |d| > 0
      modifies this, data
      ensures h == Absorb(f, old(h), t + d) && Buffered(Tail(t + d)) && Counted(n + |d|) && data == old(data)
    {
      AddLength(|d|, n);
      UpdateData(f, d, t);
    }
  }

  // ----- padding

  /** HOST_l2c: the bytes of a word. */
  function WordBytes(w: W32): (b: seq<Byte>)
    ensures |b| == 4 && Pack(b) == w
  {
    [w / 0x100 / 0x100 / 0x100, w / 0x100 / 0x100 % 0x100, w / 0x100 % 0x100, w % 0x100]
  }

  function Zeros(n: nat): (z: seq<Byte>)
    ensures |z| == n && forall i :: 0 <= i < n ==> z[i] == 0
  {
    seq(n, _ => 0)
  }

  /** The two words of the length. */
  function LengthBytes(n: nat): (b: seq<Byte>)
    ensures |b| == 8
  {
    var l := BitLength(n);
    WordBytes(l / 0x1_0000_0000) + WordBytes(l % 0x1_0000_0000)
  }

  /** What follows a message of n bytes, in section 5.1.1 of FIPS 180-2: a bit that is
      set, zeros and the length in bits. */
  function Padding(n: nat): (b: seq<Byte>)
    ensures |b| == if n % 64 < 56 then 64 - n % 64 else 128 - n % 64
  {
    var k := n % 64;
    [0x80] + Zeros(if k < 56 then 55 - k else 119 - k) + LengthBytes(n)
  }

  /** A padded message is whole blocks. */
  lemma PaddedIsBlocks(m: seq<Byte>)
    ensures |Padded(m)| % 64 == 0
  {
    WholeBlocks(|m|);
  }

  lemma WholeBlocks(n: nat)
    ensures (n + if n % 64 < 56 then 64 - n % 64 else 128 - n % 64) % 64 == 0
  {
  }

  /** The padding of section 5.1.1 of FIPS 180-2: the message, a bit that is set, as few
      zeros as make whole blocks, and the length in bits as a number of 64 bits. */
  lemma PaddedIs(m: seq<Byte>)
    requires 8 * |m| < 0x1_0000_0000_0000_0000
    ensures var p := Padded(m);
            && |p| % 64 == 0 && |m| + 9 <= |p| < |m| + 9 + 64 && p[..|m|] == m && p[|m|] == 0x80
            && (forall i :: |m| < i < |p| - 8 ==> p[i] == 0)
            && 0x1_0000_0000 * Pack(p[|p| - 8..|p| - 4]) + Pack(p[|p| - 4..]) == 8 * |m|
  {
    var p, n := Padded(m), |m|;
    PaddedIsBlocks(m);
    TrueLength(n);
    var l := BitLength(n);
    assert p[|p| - 8..] == LengthBytes(n);
    assert p[|p| - 8..|p| - 4] == LengthBytes(n)[..4] == WordBytes(l / 0x1_0000_0000);
    assert p[|p| - 4..] == LengthBytes(n)[4..] == WordBytes(l % 0x1_0000_0000);
  }

  /** The length is the true one for messages below 2 to the 64 bits. */
  lemma TrueLength(n: nat)
    ensures BitLength(n) == 8 * n <==> 8 * n < 0x1_0000_0000_0000_0000
  {
    BitLengthIs(n);
  }

  /** The hash of a message. */
  function Hash(f: Mixer, h0: Chain, m: seq<Byte>): Chain {
    Absorb(f, h0, Padded(m))
  }

  // ----- messages in parts

  function Joined(parts: seq<seq<Byte>>): seq<Byte> {
    if |parts| == 0 then [] else Joined(parts[..|parts| - 1]) + parts[|parts| - 1]
  }

  lemma JoinedNext(parts: seq<seq<Byte>>, n: nat)
    requires n < |parts|
    ensures Joined(parts[..n + 1]) == Joined(parts[..n]) + parts[n]
  {
    assert parts[..n + 1][..n] == parts[..n];
  }

  method AllParts(c: Ctx, f: Mixer, parts: seq<seq<Byte>>, ghost h0: Chain)
    requires c.After(f, h0, [])
    modifies c, c.data
    ensures c.After(f, h0, Joined(parts)) && c.data == old(c.data)
  {
    var n := 0;
    ghost var m: seq<Byte> := [];
    while n < |parts|
      invariant n <= |parts| && m == Joined(parts[..n]) && c.After(f, h0, m) && c.data == old(c.data)
    {
      JoinedNext(parts, n);
      c.Update(f, parts[n], h0, m);
      m := m + parts[n];
      n := n + 1;
    }
    assert parts[..n] == parts;
  }

  /** Init, any number of updates and the end: the hash of the parts put together, however
      they were cut. */
  method OfParts(f: Mixer, h0: Chain, parts: seq<seq<Byte>>) returns (h: Chain)
    ensures h == Hash(f, h0, Joined(parts))
  {
    var c := new Ctx(h0);
    c.AfterNothing(f, h0);
    AllParts(c, f, parts, h0);
    c.Final(f, h0, Joined(parts));
    h := c.h;
  }

  lemma TailAfterBlock(s: seq<Byte>)
    requires |s| >= 64
    ensures Tail(s) == Tail(s[64..])
  {
  }

  lemma ShortTail(s: seq<Byte>)
    requires |s| < 64
    ensures Tail(s) == s
  {
  }

  /** Two words modulo their range. */
  lemma TwoWords(l: W32, k: nat)
    ensures (l + 0x1_0000_0000 * k) % 0x1_0000_0000_0000_0000 == l + 0x1_0000_0000 * (k % 0x1_0000_0000)
  {
    var q, r := k / 0x1_0000_0000, k % 0x1_0000_0000;
    assert k == 0x1_0000_0000 * q + r;
    assert l + 0x1_0000_0000 * k == (l + 0x1_0000_0000 * r) + 0x1_0000_0000_0000_0000 * q;
  }

  /** The sum of the low words with its carry. */
  lemma LowWords(nl: W32, n: nat) returns (c: nat)
    ensures var l := (nl + 8 * n % 0x1_0000_0000) % 0x1_0000_0000;
            c == (if l < nl then 1 else 0) && nl + 8 * n == l + 0x1_0000_0000 * (c + n / 0x2000_0000)
  {
    var q, r := n / 0x2000_0000, n % 0x2000_0000;
    assert n == 0x2000_0000 * q + r;
    assert 8 * n == 0x1_0000_0000 * q + 8 * r;
    assert 8 * n % 0x1_0000_0000 == 8 * r;
    var l := (nl + 8 * r) % 0x1_0000_0000;
    c := if l < nl then 1 else 0;
  }

  lemma TwoCarries(h: nat, c: nat, q: nat)
    ensures ((h + c) % 0x1_0000_0000 + q) % 0x1_0000_0000 == (h + c + q) % 0x1_0000_0000
  {
  }

  lemma LengthSum(m: nat, n: nat)
    ensures BitLength(m + n) == (BitLength(m) + 8 * n) % 0x1_0000_0000_0000_0000
  {
    BitLengthIs(m);
    BitLengthIs(m + n);
    ResidueSum(8 * m, 8 * n);
  }

  lemma ResidueSum(x: nat, y: nat)
    ensures (x % 0x1_0000_0000_0000_0000 + y) % 0x1_0000_0000_0000_0000 == (x + y) % 0x1_0000_0000_0000_0000
  {
    var q, r := x / 0x1_0000_0000_0000_0000, x % 0x1_0000_0000_0000_0000;
    assert x + y == (r + y) + 0x1_0000_0000_0000_0000 * q;
  }

  /** Nl + (len << 3) */
  function LowSum(nl: W32, n: nat): W32 {
    (nl + 8 * n % 0x1_0000_0000) % 0x1_0000_0000
  }

  /** Nh with the overflow of the low word and the bits that are not in it. */
  function HighSum(nl: W32, nh: W32, n: nat): W32 {
    var h := if LowSum(nl, n) < nl then (nh + 1) % 0x1_0000_0000 else nh;
    (h + n / 0x2000_0000) % 0x1_0000_0000
  }

  /** Adding the lengths in two words. */
  lemma LongerBy(nl: W32, nh: W32, m: nat, n: nat)
    requires nl + 0x1_0000_0000 * nh == BitLength(m)
    ensures LowSum(nl, n) + 0x1_0000_0000 * HighSum(nl, nh, n) == BitLength(m + n)
  {
    var l, q := LowSum(nl, n), n / 0x2000_0000;
    var c := LowWords(nl, n);
    LengthSum(m, n);
    TwoCarries(nh, c, q);
    TwoWords(l, nh + c + q);
    assert BitLength(m) + 8 * n == l + 0x1_0000_0000 * (nh + c + q);
  }

  /** The parts of t + b: those of t but for the last, the one that b completes and
      those of b. */
  lemma PartsOf(t: seq<Byte>, b: seq<Byte>, i: nat)
    requires 4 * i < |t| + |b|
    ensures 4 * i + 4 <= |t| ==> Part(t + b, i) == Part(t, i)
    ensures i == |t| / 4 && |t| % 4 + |b| >= 4 ==> Part(t + b, i) == t[4 * i..] + b[..4 - |t| % 4]
    ensures i == |t| / 4 && |t| % 4 + |b| < 4 ==> Part(t + b, i) == t[4 * i..] + b
    ensures i > |t| / 4 ==>
              var k := 4 * i - |t|;
              Part(t + b, i) == if k + 4 <= |b| then b[k..k + 4] else b[k..]
  {
  }

  /** The words of the length are the bytes at the end. */
  lemma WordsOfLength(n: nat, nl: W32, nh: W32)
    requires nl + 0x1_0000_0000 * nh == BitLength(n)
    ensures LengthBytes(n) == WordBytes(nh) + WordBytes(nl)
  {
    SplitWords(nl, nh);
  }

  lemma SplitWords(l: W32, h: W32)
    ensures (l + 0x1_0000_0000 * h) / 0x1_0000_0000 == h && (l + 0x1_0000_0000 * h) % 0x1_0000_0000 == l
  {
  }

  lemma WithLength(d: seq<W32>, e: seq<W32>, t: seq<Byte>, n: nat)
    requires |d| == |e| == 16 && |t| == 56 && Packed(d, t)
    requires forall k :: 0 <= k < 14 ==> e[k] == d[k]
    requires LengthBytes(n) == WordBytes(e[14]) + WordBytes(e[15])
    ensures e == Words(t + LengthBytes(n))
  {
    var b := LengthBytes(n);
    assert b[0..4] == WordBytes(e[14]) && b[4..8] == WordBytes(e[15]);
    forall k | 0 <= k < 16 ensures e[k] == Pack(Part(t + b, k)) {
      PartsOf(t, b, k);
      if k == 14 {
        assert t[56..] + b[..4] == b[0..4];
      }
    }
  }

  /** Zero words after full ones. */
  lemma Cleared(d: seq<W32>, e: seq<W32>, t: seq<Byte>, n: nat)
    requires |d| == |e| == 16 && |t| % 4 == 0 && |t| / 4 + n <= 16 && Packed(d, t)
    requires forall k :: 0 <= k < |t| / 4 ==> e[k] == d[k]
    requires forall k :: |t| / 4 <= k < |t| / 4 + n ==> e[k] == 0
    ensures Packed(e, t + Zeros(4 * n))
  {
    var z := Zeros(4 * n);
    forall k | 0 <= k < 16 && 4 * k < |t + z| ensures e[k] == Pack(Part(t + z, k)) {
      PartsOf(t, z, k);
      if k == |t| / 4 {
        assert t[4 * k..] + z[..4] == z[..4];
      }
    }
  }

  /** The padding of a message whose tail leaves room for the length. */
  lemma ShortPadding(f: Mixer, h: Chain, t: seq<Byte>, n: nat, i: nat)
    requires |t| == n % 64 && i == |t| / 4 + 1 <= 14
    ensures var s := t + [0x80] + Zeros(3 - |t| % 4);
            |s| == 4 * i && Absorb(f, h, t + Padding(n)) == f(h, Words(s + Zeros(56 - 4 * i) + LengthBytes(n)))
  {
    var s, l := t + [0x80] + Zeros(3 - |t| % 4), LengthBytes(n);
    var b := s + Zeros(56 - 4 * i) + l;
    assert t + Padding(n) == b;
    OneBlock(f, h, b);
  }

  /** The message and its padding. */
  function Padded(m: seq<Byte>): seq<Byte> {
    m + Padding(|m|)
  }

  lemma HashOfTail(f: Mixer, h0: Chain, m: seq<Byte>)
    ensures Hash(f, h0, m) == Absorb(f, Absorb(f, h0, m), Tail(m) + Padding(|m|))
  {
    AbsorbTail(f, h0, m, Padding(|m|));
  }

  /** What is left to do for the hash of m, after its full blocks and the word with the
      bit, when the length has room in the block. */
  lemma ShortEndOf(f: Mixer, h0: Chain, h: Chain, m: seq<Byte>, s: seq<Byte>, i: nat)
    requires h == Absorb(f, h0, m) && i == |Tail(m)| / 4 + 1 <= 14
    requires s == Tail(m) + [0x80] + Zeros(3 - |Tail(m)| % 4)
    ensures |s| == 4 * i && Hash(f, h0, m) == f(h, Words(s + Zeros(56 - 4 * i) + LengthBytes(|m|)))
  {
    HashOfTail(f, h0, m);
    ShortPadding(f, h, Tail(m), |m|, i);
  }

  lemma LongEndOf(f: Mixer, h0: Chain, h: Chain, m: seq<Byte>, s: seq<Byte>, i: nat)
    requires h == Absorb(f, h0, m) && 14 < i == |Tail(m)| / 4 + 1
    requires s == Tail(m) + [0x80] + Zeros(3 - |Tail(m)| % 4)
    ensures |s| == 4 * i
    ensures Hash(f, h0, m) == f(f(h, Words(s + Zeros(64 - 4 * i))), Words(Zeros(56) + LengthBytes(|m|)))
  {
    HashOfTail(f, h0, m);
    LongPadding(f, h, Tail(m), |m|, i);
  }

  lemma OneBlock(f: Mixer, h: Chain, b: seq<Byte>)
    requires |b| == 64
    ensures Absorb(f, h, b) == f(h, Words(b))
  {
    assert b[..64] == b && b[64..] == [];
  }

  lemma LongPadding(f: Mixer, h: Chain, t: seq<Byte>, n: nat, i: nat)
    requires |t| == n % 64 && 14 < i == |t| / 4 + 1
    ensures var s := t + [0x80] + Zeros(3 - |t| % 4);
            |s| == 4 * i && Absorb(f, h, t + Padding(n))
                            == f(f(h, Words(s + Zeros(64 - 4 * i))), Words(Zeros(56) + LengthBytes(n)))
  {
    var s, l := t + [0x80] + Zeros(3 - |t| % 4), LengthBytes(n);
    var b, c := s + Zeros(64 - 4 * i), Zeros(56) + l;
    assert t + Padding(n) == b + c;
    assert (b + c)[..64] == b && (b + c)[64..] == c;
    OneBlock(f, f(h, Words(b)), c);
  }

  lemma Ended(d: seq<W32>, e: seq<W32>, t: seq<Byte>, b: seq<Byte>)
    requires |d| == |e| == 16 && |t| < 64 && |b| == 4 - |t| % 4 && Packed(d, t)
    requires var sw := |t| / 4; (forall k :: 0 <= k < sw ==> e[k] == d[k]) && e[sw] == Pack(t[4 * sw..] + b)
    ensures Packed(e, t + b)
  {
    forall k | 0 <= k < 16 && 4 * k < |t + b| ensures e[k] == Pack(Part(t + b, k)) {
      PartsOf(t, b, k);
      assert b[..4 - |t| % 4] == b;
    }
  }

  lemma Filled(d: seq<W32>, e: seq<W32>, t: seq<Byte>, b: seq<Byte>)
    requires |d| == |e| == 16 && |t| + |b| == 64 && |t| > 0 && Packed(d, t)
    requires var sw, sc := |t| / 4, |t| % 4;
             && sw < 16 && (forall k :: 0 <= k < sw ==> e[k] == d[k])
             && e[sw] == Pack(t[4 * sw..] + b[..4 - sc])
             && forall k :: sw < k < 16 ==> e[k] == Pack(b[4 - sc + 4 * (k - sw - 1)..4 - sc + 4 * (k - sw - 1) + 4])
    ensures e == Words(t + b)
  {
    forall k | 0 <= k < 16 ensures e[k] == Pack(Part(t + b, k)) {
      PartsOf(t, b, k);
    }
  }

  lemma Extended(d: seq<W32>, e: seq<W32>, t: seq<Byte>, b: seq<Byte>)
    requires |d| == |e| == 16 && |t| + |b| < 64 && |t| % 4 + |b| < 4 && Packed(d, t)
    requires var sw := |t| / 4; (forall k :: 0 <= k < 16 && k != sw ==> e[k] == d[k]) && e[sw] == Pack(t[4 * sw..] + b)
    ensures Packed(e, t + b)
  {
    forall k | 0 <= k < 16 && 4 * k < |t + b| ensures e[k] == Pack(Part(t + b, k)) {
      PartsOf(t, b, k);
    }
  }

  lemma Appended(d: seq<W32>, e: seq<W32>, t: seq<Byte>, b: seq<Byte>)
    requires |d| == |e| == 16 && |t| + |b| < 64 && |t| % 4 + |b| >= 4 && Packed(d, t)
    requires var sw, sc := |t| / 4, |t| % 4;
             var ew, ec := (|t| + |b|) / 4, (|t| + |b|) % 4;
             && (forall k :: 0 <= k < sw ==> e[k] == d[k])
             && e[sw] == Pack(t[4 * sw..] + b[..4 - sc])
             && (forall k :: sw < k < ew ==> e[k] == Pack(b[4 - sc + 4 * (k - sw - 1)..4 - sc + 4 * (k - sw - 1) + 4]))
             && (ec != 0 ==> e[ew] == Pack(b[|b| - ec..]))
    ensures Packed(e, t + b)
  {
    var sw, sc, ew, ec := |t| / 4, |t| % 4, (|t| + |b|) / 4, (|t| + |b|) % 4;
    forall k | 0 <= k < 16 && 4 * k < |t + b| ensures e[k] == Pack(Part(t + b, k)) {
      if k <= sw {
        PartsOf(t, b, k);
      } else {
        LaterPart(t, b, k, sw, sc, ew, ec);
      }
    }
  }

  /** A part that is all in b, full or the last one. */
  lemma LaterPart(t: seq<Byte>, b: seq<Byte>, k: nat, sw: nat, sc: nat, ew: nat, ec: nat)
    requires |t| == 4 * sw + sc && sc < 4 && |t| + |b| == 4 * ew + ec && ec < 4 && sw < k && 4 * k < |t| + |b|
    ensures k < ew ==> Part(t + b, k) == b[4 - sc + 4 * (k - sw - 1)..4 - sc + 4 * (k - sw - 1) + 4]
    ensures k >= ew ==> k == ew && ec > 0 && Part(t + b, k) == b[|b| - ec..]
  {
  }
}
