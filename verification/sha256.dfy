/** The block function of SHA-256 (sha256.c): both versions of sha256_block against the
    schedule and the rounds of section 6.2.2 of FIPS 180-2. The six logical functions and
    the constants are parameters here. */
module Sha256 {
  import opened Bits
  import opened Collector

  type Unary = W32 -> W32
  type Binary = (W32, W32) -> W32
  type Ternary = (W32, W32, W32) -> W32

  /** The operations and constants of sections 3.2, 4.1.2 and 4.2.2 of FIPS 180-2. */
  datatype Suite = Suite(plus: Binary, sum0: Unary, sum1: Unary, sigma0: Unary, sigma1: Unary,
                         ch: Ternary, maj: Ternary, k: seq<W32>)
  {
    /** Sums do not depend on their order. */
    ghost predicate Adds() {
      && (forall x, y {:trigger Terms(x, y, y)} :: plus(x, y) == plus(y, x))
      && forall x, y, z {:trigger Terms(x, y, z)} :: plus(plus(x, y), z) == plus(x, plus(y, z))
    }

    ghost predicate Valid() {
      |k| == 64 && Adds()
    }

    lemma Commutes(x: W32, y: W32)
      requires Adds()
      ensures plus(x, y) == plus(y, x)
    {
      assert Terms(x, y, y);
    }

    lemma Associates(x: W32, y: W32, z: W32)
      requires Adds()
      ensures plus(plus(x, y), z) == plus(x, plus(y, z))
    {
      assert Terms(x, y, z);
    }
  }

  predicate Terms(x: W32, y: W32, z: W32) {
    true
  }

  datatype Regs = Regs(a: W32, b: W32, c: W32, d: W32, e: W32, f: W32, g: W32, h: W32)

  // ----- section 6.2.2 of FIPS 180-2

  /** Step 1, the message schedule. */
  function W(s: Suite, m: seq<W32>, t: nat): W32
    requires |m| == 16
  {
    if t < 16 then m[t]
    else s.plus(s.plus(s.plus(s.sigma1(W(s, m, t - 2)), W(s, m, t - 7)), s.sigma0(W(s, m, t - 15))), W(s, m, t - 16))
  }

  /** Step 3, one round. */
  function T1(s: Suite, r: Regs, k: W32, w: W32): W32 {
    s.plus(s.plus(s.plus(s.plus(r.h, s.sum1(r.e)), s.ch(r.e, r.f, r.g)), k), w)
  }

  function T2(s: Suite, r: Regs): W32 {
    s.plus(s.sum0(r.a), s.maj(r.a, r.b, r.c))
  }

  function Round(s: Suite, r: Regs, k: W32, w: W32): Regs {
    Regs(s.plus(T1(s, r, k, w), T2(s, r)), r.a, r.b, r.c, s.plus(r.d, T1(s, r, k, w)), r.e, r.f, r.g)
  }

  function Rounds(s: Suite, m: seq<W32>, r: Regs, n: nat): Regs
    requires s.Valid() && |m| == 16 && n <= 64
  {
    if n == 0 then r else Round(s, Rounds(s, m, r, n - 1), s.k[n - 1], W(s, m, n - 1))
  }

  /** Steps 2 and 4, around the rounds. */
  function Load(h: Chain): Regs
    requires |h| == 8
  {
    Regs(h[0], h[1], h[2], h[3], h[4], h[5], h[6], h[7])
  }

  function Sums(s: Suite, h: Chain, r: Regs): (n: Chain)
    requires |h| == 8
    ensures |n| == 8
  {
    [s.plus(h[0], r.a), s.plus(h[1], r.b), s.plus(h[2], r.c), s.plus(h[3], r.d),
     s.plus(h[4], r.e), s.plus(h[5], r.f), s.plus(h[6], r.g), s.plus(h[7], r.h)]
  }

  function Mix(s: Suite, h: Chain, m: seq<W32>): (n: Chain)
    requires s.Valid() && |h| == 8 && |m| == 16
    ensures |n| == 8
  {
    Sums(s, h, Rounds(s, m, Load(h), 64))
  }

  /** The blocks, words in the order of the machine or bytes. */
  datatype Input = Host(words: seq<W32>) | Data(bytes: seq<Byte>)
  {
    predicate Holds(num: nat) {
      match this
      case Host(words) => |words| >= 16 * num
      case Data(bytes) => |bytes| >= 64 * num
    }

    function Block(n: nat): (m: seq<W32>)
      requires Holds(n + 1)
      ensures |m| == 16
    {
      match this
      case Host(words) => words[16 * n..16 * n + 16]
      case Data(bytes) => Words(bytes[64 * n..64 * n + 64])
    }
  }

  function MixBlocks(s: Suite, h: Chain, i: Input, num: nat): (n: Chain)
    requires s.Valid() && |h| == 8 && i.Holds(num)
    ensures |n| == 8
  {
    if num == 0 then h else Mix(s, MixBlocks(s, h, i, num - 1), i.Block(num - 1))
  }

  // ----- the rolling window

  /** The sixteen words of x are the last sixteen of the schedule before word t. */
  ghost predicate Window(s: Suite, m: seq<W32>, x: seq<W32>, t: nat)
    requires |m| == 16
  {
    |x| == 16 && forall j :: 0 <= j < t <= j + 16 ==> x[j % 16] == W(s, m, j)
  }

  /** The sum in the order of the program. */
  function Next(s: Suite, x: seq<W32>, t: nat): W32
    requires |x| == 16
  {
    s.plus(x[t % 16], s.plus(s.plus(s.sigma0(x[(t + 1) % 16]), s.sigma1(x[(t + 14) % 16])), x[(t + 9) % 16]))
  }

  lemma Reordered(s: Suite, p: W32, q: W32, r: W32, u: W32)
    requires s.Adds()
    ensures s.plus(p, s.plus(s.plus(q, r), u)) == s.plus(s.plus(s.plus(r, u), q), p)
  {
    s.Commutes(p, s.plus(s.plus(q, r), u));
    s.Commutes(q, r);
    s.Associates(r, q, u);
    s.Commutes(q, u);
    s.Associates(r, u, q);
  }

  lemma Around(t: nat)
    requires t >= 16
    ensures (t + 1) % 16 == (t - 15) % 16 && (t + 14) % 16 == (t - 2) % 16
    ensures (t + 9) % 16 == (t - 7) % 16 && t % 16 == (t - 16) % 16
  {
  }

  lemma NextIs(s: Suite, m: seq<W32>, x: seq<W32>, t: nat)
    requires s.Adds() && |m| == 16 && t >= 16 && Window(s, m, x, t)
    ensures Next(s, x, t) == W(s, m, t)
  {
    Around(t);
    assert x[(t - 16) % 16] == W(s, m, t - 16) && x[(t - 15) % 16] == W(s, m, t - 15);
    assert x[(t - 7) % 16] == W(s, m, t - 7) && x[(t - 2) % 16] == W(s, m, t - 2);
    Reordered(s, W(s, m, t - 16), s.sigma0(W(s, m, t - 15)), s.sigma1(W(s, m, t - 2)), W(s, m, t - 7));
  }

  lemma OtherPlace(j: nat, t: nat)
    requires j < t < j + 16
    ensures j % 16 != t % 16
  {
  }

  lemma WindowMoves(s: Suite, m: seq<W32>, x: seq<W32>, t: nat)
    requires |m| == 16 && Window(s, m, x, t)
    ensures Window(s, m, x[t % 16 := W(s, m, t)], t + 1)
  {
    var y := x[t % 16 := W(s, m, t)];
    forall j | 0 <= j < t + 1 <= j + 16 ensures y[j % 16] == W(s, m, j) {
      if j < t {
        OtherPlace(j, t);
      }
    }
  }

  /** HOST_c2l, or a word of the host. */
  method ReadWord(i: Input, n: nat, t: nat) returns (w: W32)
    requires i.Holds(n + 1) && t < 16
    ensures w == i.Block(n)[t]
  {
    match i {
      case Host(words) =>
        w := words[16 * n + t];
      case Data(bytes) =>
        var p := 64 * n + 4 * t;
        assert bytes[p..p + 4] == Part(bytes[64 * n..64 * n + 64], t);
        w := Pack(bytes[p..p + 4]);
    }
  }

  /** Word t of a block, put into the window: the one that is read below sixteen, the sum
      of four others from there on. */
  method NextWord(s: Suite, i: Input, n: nat, t: nat, x: array<W32>) returns (w: W32)
    requires s.Adds() && i.Holds(n + 1) && Window(s, i.Block(n), x[..], t)
    modifies x
    ensures w == W(s, i.Block(n), t)
    ensures Window(s, i.Block(n), x[..], t + 1)
  {
    ghost var y, m := x[..], i.Block(n);
    if t < 16 {
      w := ReadWord(i, n, t);
    } else {
      var s0 := s.sigma0(x[(t + 1) % 16]);
      var s1 := s.sigma1(x[(t + 14) % 16]);
      w := s.plus(x[t % 16], s.plus(s.plus(s0, s1), x[(t + 9) % 16]));
      NextIs(s, m, y, t);
    }
    x[t % 16] := w;
    WindowMoves(s, m, y, t);
    assert x[..] == y[t % 16 := w];
  }

  // ----- the rounds

  /** T1 and T2 in the order of the program. */
  lemma SumOfFive(s: Suite, p: W32, q: W32, r: W32, k: W32, w: W32)
    requires s.Adds()
    ensures s.plus(w, s.plus(s.plus(s.plus(p, q), r), k)) == s.plus(s.plus(s.plus(s.plus(p, q), r), k), w)
  {
    s.Commutes(w, s.plus(s.plus(s.plus(p, q), r), k));
  }

  /** ROUND_00_15: the round with the registers where they are. What was d and h before
      is e and a after it. */
  method RoundInPlace(s: Suite, t1: W32, k: W32, a: W32, b: W32, c: W32, d: W32, e: W32, f: W32, g: W32, h: W32)
    returns (d': W32, h': W32)
    requires s.Adds()
    ensures Round(s, Regs(a, b, c, d, e, f, g, h), k, t1) == Regs(h', a, b, c, d', e, f, g)
  {
    var t := s.plus(t1, s.plus(s.plus(s.plus(h, s.sum1(e)), s.ch(e, f, g)), k));
    SumOfFive(s, h, s.sum1(e), s.ch(e, f, g), k, t1);
    h' := s.plus(s.sum0(a), s.maj(a, b, c));
    d' := s.plus(d, t);
    s.Commutes(h', t);
    h' := s.plus(h', t);
  }

  /** The round of the small version: T1 and T2, and the registers move. */
  method RoundMoving(s: Suite, w: W32, k: W32, r: Regs) returns (q: Regs)
    requires s.Adds()
    ensures q == Round(s, r, k, w)
  {
    var a, b, c, d, e, f, g, h := r.a, r.b, r.c, r.d, r.e, r.f, r.g, r.h;
    SumOfFive(s, h, s.sum1(e), s.ch(e, f, g), k, w);
    var t1 := s.plus(w, s.plus(s.plus(s.plus(h, s.sum1(e)), s.ch(e, f, g)), k));
    var t2 := s.plus(s.sum0(a), s.maj(a, b, c));
    h := g;
    g := f;
    f := e;
    e := s.plus(d, t1);
    d := c;
    c := b;
    b := a;
    a := s.plus(t1, t2);
    q := Regs(a, b, c, d, e, f, g, h);
  }

  /** One block of the small version: sixteen rounds with words that are read, and the
      others with words of the window. */
  method SmallBlock(s: Suite, i: Input, n: nat, h: Chain) returns (r: Regs)
    requires s.Valid() && |h| == 8 && i.Holds(n + 1)
    ensures r == Rounds(s, i.Block(n), Load(h), 64)
  {
    var x := new W32[16];
    r := Regs(h[0], h[1], h[2], h[3], h[4], h[5], h[6], h[7]);
    var t := 0;
    while t < 16
      invariant t <= 16 && r == Rounds(s, i.Block(n), Load(h), t)
      invariant fresh(x) && Window(s, i.Block(n), x[..], t)
    {
      var w := NextWord(s, i, n, t, x);
      r := RoundMoving(s, w, s.k[t], r);
      t := t + 1;
    }
    while t < 64
      invariant 16 <= t <= 64 && r == Rounds(s, i.Block(n), Load(h), t)
      invariant fresh(x) && Window(s, i.Block(n), x[..], t)
    {
      var w := NextWord(s, i, n, t, x);
      r := RoundMoving(s, w, s.k[t], r);
      t := t + 1;
    }
  }

  /** The same, as one of the rounds of a block. */
  method RoundOf(s: Suite, i: Input, n: nat, t: nat, x: array<W32>, ghost r0: Regs,
                 a: W32, b: W32, c: W32, d: W32, e: W32, f: W32, g: W32, h: W32)
    returns (d': W32, h': W32)
    requires s.Valid() && i.Holds(n + 1) && t < 64
    requires Window(s, i.Block(n), x[..], t) && Rounds(s, i.Block(n), r0, t) == Regs(a, b, c, d, e, f, g, h)
    modifies x
    ensures Window(s, i.Block(n), x[..], t + 1)
    ensures Rounds(s, i.Block(n), r0, t + 1) == Regs(h', a, b, c, d', e, f, g)
  {
    var w := NextWord(s, i, n, t, x);
    d', h' := RoundInPlace(s, w, s.k[t], a, b, c, d, e, f, g, h);
  }

  /** After e times eight rounds. */
  ghost predicate Eighths(s: Suite, m: seq<W32>, x: seq<W32>, r0: Regs, e: nat, r: Regs)
    requires s.Valid() && |m| == 16 && e <= 8
  {
    Window(s, m, x, 8 * e) && r == Rounds(s, m, r0, 8 * e)
  }

  /** Eight rounds in a row, each with the names of the registers turned by one; after
      eight they stand where they stood. */
  method EightRounds(s: Suite, i: Input, n: nat, t: nat, x: array<W32>, q: Regs, ghost r0: Regs, ghost k: nat)
    returns (r: Regs)
    requires s.Valid() && i.Holds(n + 1) && t == 8 * k && k < 8 && Eighths(s, i.Block(n), x[..], r0, k, q)
    modifies x
    ensures Eighths(s, i.Block(n), x[..], r0, k + 1, r)
  {
    var a, b, c, d, e, f, g, h := q.a, q.b, q.c, q.d, q.e, q.f, q.g, q.h;
    d, h := RoundOf(s, i, n, t, x, r0, a, b, c, d, e, f, g, h);
    c, g := RoundOf(s, i, n, t + 1, x, r0, h, a, b, c, d, e, f, g);
    b, f := RoundOf(s, i, n, t + 2, x, r0, g, h, a, b, c, d, e, f);
    a, e := RoundOf(s, i, n, t + 3, x, r0, f, g, h, a, b, c, d, e);
    h, d := RoundOf(s, i, n, t + 4, x, r0, e, f, g, h, a, b, c, d);
    g, c := RoundOf(s, i, n, t + 5, x, r0, d, e, f, g, h, a, b, c);
    f, b := RoundOf(s, i, n, t + 6, x, r0, c, d, e, f, g, h, a, b);
    e, a := RoundOf(s, i, n, t + 7, x, r0, b, c, d, e, f, g, h, a);
    r := Regs(a, b, c, d, e, f, g, h);
  }

  lemma AllEighths(s: Suite, m: seq<W32>, x: seq<W32>, r0: Regs, e: nat, r: Regs)
    requires s.Valid() && |m| == 16 && e == 8 && Eighths(s, m, x, r0, e, r)
    ensures r == Rounds(s, m, r0, 64)
  {
  }

  /** One block of the other version: eight rounds twice with words that are read, and
      then with words of the window. */
  method UnrolledBlock(s: Suite, i: Input, n: nat, h: Chain) returns (r: Regs)
    requires s.Valid() && |h| == 8 && i.Holds(n + 1)
    ensures r == Rounds(s, i.Block(n), Load(h), 64)
  {
    var x := new W32[16];
    r := Regs(h[0], h[1], h[2], h[3], h[4], h[5], h[6], h[7]);
    var t := 0;
    ghost var e := 0;
    while t < 16
      invariant t == 8 * e && e <= 2
      invariant fresh(x) && Eighths(s, i.Block(n), x[..], Load(h), e, r)
    {
      r := EightRounds(s, i, n, t, x, r, Load(h), e);
      t := t + 8;
      e := e + 1;
    }
    while t < 64
      invariant t == 8 * e && e <= 8
      invariant fresh(x) && Eighths(s, i.Block(n), x[..], Load(h), e, r)
    {
      r := EightRounds(s, i, n, t, x, r, Load(h), e);
      t := t + 8;
      e := e + 1;
    }
    AllEighths(s, i.Block(n), x[..], Load(h), e, r);
  }

  /** The sums at the end of a block. */
  method AddTo(s: Suite, h: array<W32>, r: Regs)
    requires h.Length == 8
    modifies h
    ensures h[..] == Sums(s, old(h[..]), r)
  {
    h[0], h[1], h[2], h[3] := s.plus(h[0], r.a), s.plus(h[1], r.b), s.plus(h[2], r.c), s.plus(h[3], r.d);
    h[4], h[5], h[6], h[7] := s.plus(h[4], r.e), s.plus(h[5], r.f), s.plus(h[6], r.g), s.plus(h[7], r.h);
  }

  /** sha256_block, small: any number of blocks. */
  method Small(s: Suite, h: array<W32>, i: Input, num: nat)
    requires s.Valid() && h.Length == 8 && i.Holds(num)
    modifies h
    ensures h[..] == MixBlocks(s, old(h[..]), i, num)
  {
    var n := 0;
    while n < num
      invariant n <= num && h[..] == MixBlocks(s, old(h[..]), i, n)
    {
      var r := SmallBlock(s, i, n, h[..]);
      AddTo(s, h, r);
      n := n + 1;
    }
  }

  /** sha256_block, unrolled: the same function of the same blocks. */
  method Unrolled(s: Suite, h: array<W32>, i: Input, num: nat)
    requires s.Valid() && h.Length == 8 && i.Holds(num)
    modifies h
    ensures h[..] == MixBlocks(s, old(h[..]), i, num)
  {
    var n := 0;
    while n < num
      invariant n <= num && h[..] == MixBlocks(s, old(h[..]), i, n)
    {
      var r := UnrolledBlock(s, i, n, h[..]);
      AddTo(s, h, r);
      n := n + 1;
    }
  }

  // ----- with the collector

  /** The mixer that the collector is given. */
  function Mixing(s: Suite): Mixer
    requires s.Valid()
  {
    (h: Chain, m: seq<W32>) => if |h| == 8 && |m| == 16 then Mix(s, h, m) else h
  }

  lemma {:induction false} Appending(s: Suite, h: Chain, b: seq<Byte>, n: nat)
    requires s.Valid() && |h| == 8 && |b| >= 64 * n
    ensures Absorb(Mixing(s), h, b[..64 * n]) == MixBlocks(s, h, Data(b), n)
  {
    if n > 0 {
      var k := n - 1;
      Appending(s, h, b, k);
      OneMore(s, h, b, k);
      assert b[..64 * n] == b[..64 * k + 64];
    }
  }

  lemma OneMore(s: Suite, h: Chain, b: seq<Byte>, n: nat)
    requires s.Valid() && |h| == 8 && |b| >= 64 * n + 64
    requires Absorb(Mixing(s), h, b[..64 * n]) == MixBlocks(s, h, Data(b), n)
    ensures Absorb(Mixing(s), h, b[..64 * n + 64]) == Mix(s, MixBlocks(s, h, Data(b), n), Data(b).Block(n))
  {
    ABlockMore(Mixing(s), h, b, n);
  }

  lemma ABlockMore(f: Mixer, h: Chain, b: seq<Byte>, n: nat)
    requires |b| >= 64 * n + 64
    ensures Absorb(f, h, b[..64 * n + 64]) == f(Absorb(f, h, b[..64 * n]), Words(b[64 * n..64 * n + 64]))
  {
    var u, v := b[..64 * n], b[64 * n..64 * n + 64];
    assert b[..64 * n + 64] == u + v;
    AbsorbMore(f, h, u, v);
    OneBlock(f, Absorb(f, h, u), v);
  }

  /** Mixing blocks of bytes is what the collector does with them. */
  lemma BlocksAreAbsorbed(s: Suite, h: Chain, b: seq<Byte>)
    requires s.Valid() && |h| == 8 && |b| % 64 == 0
    ensures Absorb(Mixing(s), h, b) == MixBlocks(s, h, Data(b), |b| / 64)
  {
    Appending(s, h, b, |b| / 64);
    assert b[..64 * (|b| / 64)] == b;
  }

  /** The hash of a message is what the block function makes of the padded message. */
  lemma HashIsBlocks(s: Suite, h: Chain, m: seq<Byte>)
    requires s.Valid() && |h| == 8
    ensures |Padded(m)| % 64 == 0
    ensures Hash(Mixing(s), h, m) == MixBlocks(s, h, Data(Padded(m)), |Padded(m)| / 64)
  {
    PaddedIsBlocks(m);
    BlocksAreAbsorbed(s, h, Padded(m));
  }

  // ----- the digest

  /** The bytes of the first n words. */
  function Bytes(h: Chain, n: nat): (b: seq<Byte>)
    requires n <= |h|
    ensures |b| == 4 * n
  {
    if n == 0 then [] else Bytes(h, n - 1) + WordBytes(h[n - 1])
  }

  /** Every word can be read back from the digest. */
  lemma {:induction false} DigestWords(h: Chain, n: nat, j: nat)
    requires j < n <= |h|
    ensures Pack(Bytes(h, n)[4 * j..4 * j + 4]) == h[j]
  {
    if j < n - 1 {
      DigestWords(h, n - 1, j);
      assert Bytes(h, n)[4 * j..4 * j + 4] == Bytes(h, n - 1)[4 * j..4 * j + 4];
    } else {
      assert Bytes(h, n)[4 * j..4 * j + 4] == WordBytes(h[j]);
    }
  }

  /** HASH_MAKE_STRING: nothing when md_len is too long, otherwise the whole words that
      md_len bytes hold. */
  method MakeString(h: Chain, mdLen: nat, md: array<Byte>) returns (ok: bool)
    requires |h| == 8 && (mdLen <= 32 ==> md.Length >= mdLen)
    modifies md
    ensures ok <==> mdLen <= 32
    ensures md[..] == if ok then Bytes(h, mdLen / 4) + old(md[..])[4 * (mdLen / 4)..] else old(md[..])
  {
    ok := mdLen == 28 || mdLen == 32 || mdLen <= 32;
    if ok {
      PutWords(h, mdLen / 4, md);
    }
  }

  method PutWords(h: Chain, k: nat, md: array<Byte>)
    requires k <= |h| && 4 * k <= md.Length
    modifies md
    ensures md[..] == Bytes(h, k) + old(md[..])[4 * k..]
  {
    var n := 0;
    while n < k
      invariant n <= k && md[..] == Bytes(h, n) + old(md[..])[4 * n..]
    {
      PutBytes(h[n], md, 4 * n);
      n := n + 1;
    }
  }

  /** HOST_l2c */
  method PutBytes(l: W32, md: array<Byte>, p: nat)
    requires p + 4 <= md.Length
    modifies md
    ensures md[..] == old(md[..p]) + WordBytes(l) + old(md[p + 4..])
  {
    var b := WordBytes(l);
    md[p] := b[0];
    md[p + 1] := b[1];
    md[p + 2] := b[2];
    md[p + 3] := b[3];
  }
}
