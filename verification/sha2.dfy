/** SHA-224 and SHA-256 as a whole (sha256.c): the logical functions, the constants, and
    messages that come in parts. */
module Sha2 {
  import opened Bits
  import opened Collector
  import opened Shift
  import opened Sha256
  import Field
  import opened Words

  // ----- rotations

  /** Section 2.2.2 of FIPS 180-2: one bit to the right and round. */
  function Turn(x: W32): W32 {
    if x % 2 == 1 then x / 2 + 0x8000_0000 else x / 2
  }

  function RotR(x: W32, n: nat): W32
    decreases n, x
  {
    if n == 0 then x else RotR(Turn(x), n - 1)
  }

  /** The low n bits of a word go to the top. */
  lemma {:induction false} RotRMoves(x: W32, q: nat, r: nat, n: nat)
    requires n <= 32 && x == Twos(q, n) + r && r < Pow2(n)
    ensures RotR(x, n) == q + Twos(r, 32 - n)
    decreases n
  {
    if n == 0 {
      Pow2Word();
      TwosZero(32);
    } else {
      var s, b := r / 2, r % 2;
      Turned(x, q, s, b, n);
      RotRMoves(Turn(x), q + Twos(b, 32 - n), s, n - 1);
      TwosAdd(2 * s, b, 32 - n);
      TwosTwos(s, 1, 32 - n);
    }
  }

  lemma {:induction false} TwosZero(n: nat)
    ensures Twos(0, n) == 0
  {
    if n > 0 {
      TwosZero(n - 1);
    }
  }

  lemma Turned(x: W32, q: nat, s: nat, b: nat, n: nat)
    requires 0 < n <= 32 && x == Twos(q, n) + 2 * s + b && b < 2
    ensures Turn(x) == Twos(q + Twos(b, 32 - n), n - 1) + s
  {
    TwosAdd(q, Twos(b, 32 - n), n - 1);
    TwosTwos(b, 32 - n, n - 1);
    TopBit(b);
    TurnIs(x, Twos(q, n - 1), s, b);
  }

  lemma TurnIs(x: W32, w: nat, s: nat, b: nat)
    requires x == 2 * w + 2 * s + b && b < 2
    ensures Turn(x) == w + s + b * 0x8000_0000
  {
  }

  lemma TopBit(b: nat)
    requires b < 2
    ensures Twos(b, 31) == b * 0x8000_0000
  {
    TwosIs(b, 31);
    Pow2Word();
  }

  /** x << n in 32 bits and x >> n. */
  function ShiftLeft(x: W32, n: nat): W32 {
    Twos(x, n) % 0x1_0000_0000
  }

  function ShiftRight(x: nat, n: nat): nat
    decreases n, x
  {
    if n == 0 then x else ShiftRight(x / 2, n - 1)
  }

  /** ROTATE: the two parts have no bit in common. */
  function Rotate(x: W32, n: nat): W32
    requires n <= 32
  {
    Whole(x, n);
    ShiftLeft(x, n) + ShiftRight(x, 32 - n)
  }

  lemma Whole(x: W32, n: nat)
    requires n <= 32
    ensures ShiftLeft(x, n) + ShiftRight(x, 32 - n) == RotR(x, 32 - n)
  {
    var q, r := Cut(x, 32 - n);
    RotRMoves(x, q, r, 32 - n);
    Left(x, q, r, n);
  }

  lemma {:induction false} Cut(x: nat, k: nat) returns (q: nat, r: nat)
    ensures x == Twos(q, k) + r && r < Pow2(k) && q == ShiftRight(x, k) && q <= x
    decreases k
  {
    if k == 0 {
      q, r := x, 0;
    } else {
      q, r := Cut(x / 2, k - 1);
      r := 2 * r + x % 2;
    }
  }

  lemma Left(x: W32, q: nat, r: nat, n: nat)
    requires n <= 32 && x == Twos(q, 32 - n) + r && r < Pow2(32 - n)
    ensures ShiftLeft(x, n) == Twos(r, n)
  {
    TwosAdd(Twos(q, 32 - n), r, n);
    TwosTwos(q, 32 - n, n);
    TwosIs(q, 32);
    Pow2Word();
    TwosLess(r, 32 - n, n);
    DivideExact(Twos(x, n), 0x1_0000_0000, q, Twos(r, n));
  }

  lemma {:induction false} TwosLess(r: nat, k: nat, n: nat)
    requires r < Pow2(k)
    ensures Twos(r, n) < Pow2(n + k)
  {
    if n > 0 {
      TwosLess(r, k, n - 1);
    }
  }

  /** The left rotations of the program are the right rotations of the standard. */
  lemma RotateIs(x: W32, n: nat)
    requires n <= 32
    ensures Rotate(x, 32 - n) == RotR(x, n)
  {
    Whole(x, 32 - n);
  }

  // ----- bits

  type Logic = (bool, bool, bool) -> bool

  function Number(b: bool): (n: nat)
    ensures n < 2
  {
    if b then 1 else 0
  }

  /** The lowest n bits of the words that f gives bit by bit. */
  function Bitwise(f: Logic, x: nat, y: nat, z: nat, n: nat): (w: nat)
    ensures w < Pow2(n)
  {
    if n == 0 then 0
    else Number(f(x % 2 == 1, y % 2 == 1, z % 2 == 1)) + 2 * Bitwise(f, x / 2, y / 2, z / 2, n - 1)
  }

  function Then(g: Logic, f0: Logic, f1: Logic, f2: Logic): Logic {
    (a, b, c) => g(f0(a, b, c), f1(a, b, c), f2(a, b, c))
  }

  /** Operations on words that work bit by bit, one after another. */
  lemma {:induction false} Composed(g: Logic, f0: Logic, f1: Logic, f2: Logic, x: nat, y: nat, z: nat, n: nat)
    ensures Bitwise(g, Bitwise(f0, x, y, z, n), Bitwise(f1, x, y, z, n), Bitwise(f2, x, y, z, n), n)
         == Bitwise(Then(g, f0, f1, f2), x, y, z, n)
  {
    if n > 0 {
      var p, q, r := x / 2, y / 2, z / 2;
      Lowest(f0, x, y, z, n);
      Lowest(f1, x, y, z, n);
      Lowest(f2, x, y, z, n);
      Composed(g, f0, f1, f2, p, q, r, n - 1);
    }
  }

  lemma Lowest(f: Logic, x: nat, y: nat, z: nat, n: nat)
    requires n > 0
    ensures Bitwise(f, x, y, z, n) % 2 == Number(f(x % 2 == 1, y % 2 == 1, z % 2 == 1))
    ensures Bitwise(f, x, y, z, n) / 2 == Bitwise(f, x / 2, y / 2, z / 2, n - 1)
  {
    SplitBit(Number(f(x % 2 == 1, y % 2 == 1, z % 2 == 1)), Bitwise(f, x / 2, y / 2, z / 2, n - 1));
  }

  lemma {:induction false} SameLogic(f: Logic, g: Logic, x: nat, y: nat, z: nat, n: nat)
    requires forall a, b, c :: f(a, b, c) == g(a, b, c)
    ensures Bitwise(f, x, y, z, n) == Bitwise(g, x, y, z, n)
  {
    if n > 0 {
      SameLogic(f, g, x / 2, y / 2, z / 2, n - 1);
    }
  }

  const FIRST: Logic := (a, b, c) => a
  const SECOND: Logic := (a, b, c) => b
  const THIRD: Logic := (a, b, c) => c

  lemma {:induction false} Itself(x: nat, y: nat, z: nat, n: nat)
    ensures x < Pow2(n) ==> Bitwise(FIRST, x, y, z, n) == x
    ensures y < Pow2(n) ==> Bitwise(SECOND, x, y, z, n) == y
    ensures z < Pow2(n) ==> Bitwise(THIRD, x, y, z, n) == z
  {
    if n > 0 {
      Itself(x / 2, y / 2, z / 2, n - 1);
    }
  }

  // ----- the operators of the program

  const AND: Logic := (a, b, c) => a && b
  const XOR: Logic := (a, b, c) => a != b
  const NOT: Logic := (a, b, c) => !a

  function OnWords(f: Logic, x: W32, y: W32, z: W32): W32 {
    Pow2Word();
    Bitwise(f, x, y, z, 32)
  }

  function And(x: W32, y: W32): W32 {
    OnWords(AND, x, y, y)
  }

  function Xor(x: W32, y: W32): (z: W32)
    ensures z == OnWords(XOR, x, y, y)
  {
    XorIsBitwise(x, y, 32);
    Xor32(x, y)
  }

  lemma {:induction false} XorIsBitwise(x: nat, y: nat, n: nat)
    ensures XorBits(x, y, n) == Bitwise(XOR, x, y, y, n)
  {
    if n > 0 {
      XorIsBitwise(x / 2, y / 2, n - 1);
    }
  }

  function Not(x: W32): W32 {
    OnWords(NOT, x, x, x)
  }

  /** The operators on words that are functions of three. */
  lemma Chained(g: Logic, f0: Logic, f1: Logic, x: W32, y: W32, z: W32)
    ensures OnWords(g, OnWords(f0, x, y, z), OnWords(f1, x, y, z), OnWords(f1, x, y, z))
         == OnWords(Then(g, f0, f1, f1), x, y, z)
  {
    Composed(g, f0, f1, f1, x, y, z, 32);
  }

  lemma Words3(x: W32, y: W32, z: W32)
    ensures OnWords(FIRST, x, y, z) == x && OnWords(SECOND, x, y, z) == y && OnWords(THIRD, x, y, z) == z
  {
    Pow2Word();
    Itself(x, y, z, 32);
  }

  // ----- the logical functions

  function Sum0(x: W32): W32 {
    Xor(Xor(Rotate(x, 30), Rotate(x, 19)), Rotate(x, 10))
  }

  function Sum1(x: W32): W32 {
    Xor(Xor(Rotate(x, 26), Rotate(x, 21)), Rotate(x, 7))
  }

  function Sigma0(x: W32): W32 {
    Xor(Xor(Rotate(x, 25), Rotate(x, 14)), Right(x, 3))
  }

  function Sigma1(x: W32): W32 {
    Xor(Xor(Rotate(x, 15), Rotate(x, 13)), Right(x, 10))
  }

  function Ch(x: W32, y: W32, z: W32): W32 {
    Xor(And(x, y), And(Not(x), z))
  }

  function Maj(x: W32, y: W32, z: W32): W32 {
    Xor(Xor(And(x, y), And(x, z)), And(y, z))
  }

  function Right(x: W32, n: nat): W32 {
    Less(x, n);
    ShiftRight(x, n)
  }

  lemma Less(x: nat, n: nat)
    ensures ShiftRight(x, n) <= x
  {
    var q, r := Cut(x, n);
  }

  // ----- section 4.1.2 of FIPS 180-2

  const PARITY: Logic := (a, b, c) => (a != b) != c
  const CHOOSE: Logic := (a, b, c) => if a then b else c
  const MAJORITY: Logic := (a, b, c) => if a then b || c else b && c

  /** Exclusive or of three words. */
  lemma XorIs(x: W32, y: W32, z: W32)
    ensures Xor(Xor(x, y), z) == OnWords(PARITY, x, y, z)
  {
    var f := Then(XOR, FIRST, SECOND, SECOND);
    Words3(x, y, z);
    Chained(XOR, FIRST, SECOND, x, y, z);
    Chained(XOR, f, THIRD, x, y, z);
    SameLogic(Then(XOR, f, THIRD, THIRD), PARITY, x, y, z, 32);
  }

  /** Ch chooses between y and z. */
  lemma ChIs(x: W32, y: W32, z: W32)
    ensures Ch(x, y, z) == OnWords(CHOOSE, x, y, z)
  {
    var f, g := Then(AND, FIRST, SECOND, SECOND), Then(NOT, FIRST, FIRST, FIRST);
    var h := Then(AND, g, THIRD, THIRD);
    Words3(x, y, z);
    Chained(AND, FIRST, SECOND, x, y, z);
    Chained(NOT, FIRST, FIRST, x, y, z);
    Chained(AND, g, THIRD, x, y, z);
    Chained(XOR, f, h, x, y, z);
    SameLogic(Then(XOR, f, h, h), CHOOSE, x, y, z, 32);
  }

  /** Maj is the majority. */
  lemma MajIs(x: W32, y: W32, z: W32)
    ensures Maj(x, y, z) == OnWords(MAJORITY, x, y, z)
  {
    var f, g := Then(AND, FIRST, SECOND, SECOND), Then(AND, FIRST, THIRD, THIRD);
    var h, i := Then(AND, SECOND, THIRD, THIRD), Then(XOR, f, g, g);
    Words3(x, y, z);
    Chained(AND, FIRST, SECOND, x, y, z);
    Chained(AND, FIRST, THIRD, x, y, z);
    Chained(AND, SECOND, THIRD, x, y, z);
    Chained(XOR, f, g, x, y, z);
    Chained(XOR, i, h, x, y, z);
    SameLogic(Then(XOR, i, h, h), MAJORITY, x, y, z, 32);
  }

  /** The six functions of the standard, over right rotations. */
  function Standard(k: seq<W32>): Suite {
    Suite(Plus,
          x => OnWords(PARITY, RotR(x, 2), RotR(x, 13), RotR(x, 22)),
          x => OnWords(PARITY, RotR(x, 6), RotR(x, 11), RotR(x, 25)),
          x => OnWords(PARITY, RotR(x, 7), RotR(x, 18), Right(x, 3)),
          x => OnWords(PARITY, RotR(x, 17), RotR(x, 19), Right(x, 10)),
          (x, y, z) => OnWords(CHOOSE, x, y, z), (x, y, z) => OnWords(MAJORITY, x, y, z), k)
  }

  function Program(k: seq<W32>): Suite {
    Suite(Plus, Sum0, Sum1, Sigma0, Sigma1, Ch, Maj, k)
  }

  function Plus(x: W32, y: W32): W32 {
    if x + y < 0x1_0000_0000 then x + y else x + y - 0x1_0000_0000
  }

  ghost predicate Agree(s: Suite, t: Suite) {
    && s.plus == t.plus && s.k == t.k
    && (forall x :: s.sum0(x) == t.sum0(x))
    && (forall x :: s.sum1(x) == t.sum1(x))
    && (forall x :: s.sigma0(x) == t.sigma0(x))
    && (forall x :: s.sigma1(x) == t.sigma1(x))
    && (forall x, y, z :: s.ch(x, y, z) == t.ch(x, y, z))
    && (forall x, y, z :: s.maj(x, y, z) == t.maj(x, y, z))
  }

  /** Sums of rotations, for any three amounts: left by a, b, c and right by i, j, k. */
  lemma RotationsAgree(x: W32, i: nat, a: nat, j: nat, b: nat, k: nat, c: nat)
    requires i + a == j + b == k + c == 32
    ensures Xor(Xor(Rotate(x, a), Rotate(x, b)), Rotate(x, c)) == OnWords(PARITY, RotR(x, i), RotR(x, j), RotR(x, k))
  {
    RotateIs(x, i);
    RotateIs(x, j);
    RotateIs(x, k);
    XorIs(RotR(x, i), RotR(x, j), RotR(x, k));
  }

  lemma ShiftsAgree(x: W32, i: nat, a: nat, j: nat, b: nat, k: nat)
    requires i + a == j + b == 32
    ensures Xor(Xor(Rotate(x, a), Rotate(x, b)), Right(x, k)) == OnWords(PARITY, RotR(x, i), RotR(x, j), Right(x, k))
  {
    RotateIs(x, i);
    RotateIs(x, j);
    XorIs(RotR(x, i), RotR(x, j), Right(x, k));
  }

  lemma Sum0Agrees(x: W32, k: seq<W32>)
    ensures Program(k).sum0(x) == Standard(k).sum0(x)
  {
    RotationsAgree(x, 2, 30, 13, 19, 22, 10);
  }

  lemma Sum1Agrees(x: W32, k: seq<W32>)
    ensures Program(k).sum1(x) == Standard(k).sum1(x)
  {
    RotationsAgree(x, 6, 26, 11, 21, 25, 7);
  }

  lemma Sigma0Agrees(x: W32, k: seq<W32>)
    ensures Program(k).sigma0(x) == Standard(k).sigma0(x)
  {
    ShiftsAgree(x, 7, 25, 18, 14, 3);
  }

  lemma Sigma1Agrees(x: W32, k: seq<W32>)
    ensures Program(k).sigma1(x) == Standard(k).sigma1(x)
  {
    ShiftsAgree(x, 17, 15, 19, 13, 10);
  }

  lemma AllAgree(k: seq<W32>)
    ensures Agree(Program(k), Standard(k))
  {
    var s, t := Program(k), Standard(k);
    forall x: W32 ensures s.sum0(x) == t.sum0(x) {
      Sum0Agrees(x, k);
    }
    forall x: W32 ensures s.sum1(x) == t.sum1(x) {
      Sum1Agrees(x, k);
    }
    forall x: W32 ensures s.sigma0(x) == t.sigma0(x) {
      Sigma0Agrees(x, k);
    }
    forall x: W32 ensures s.sigma1(x) == t.sigma1(x) {
      Sigma1Agrees(x, k);
    }
    forall x: W32, y: W32, z: W32 ensures s.ch(x, y, z) == t.ch(x, y, z) {
      ChIs(x, y, z);
    }
    forall x: W32, y: W32, z: W32 ensures s.maj(x, y, z) == t.maj(x, y, z) {
      MajIs(x, y, z);
    }
  }

  lemma Sums(x: W32, y: W32, z: W32)
    ensures Plus(x, y) == Plus(y, x) && Plus(Plus(x, y), z) == Plus(x, Plus(y, z))
  {
  }

  lemma PlusAdds(s: Suite)
    requires s.plus == Plus
    ensures s.Adds()
  {
    forall x: W32, y: W32 ensures s.plus(x, y) == s.plus(y, x) {
      Sums(x, y, y);
    }
    forall x: W32, y: W32, z: W32 ensures s.plus(s.plus(x, y), z) == s.plus(x, s.plus(y, z)) {
      Sums(x, y, z);
    }
  }

  lemma PlusIs(x: W32, y: W32)
    ensures Plus(x, y) == (x + y) % 0x1_0000_0000
  {
  }

  // ----- the logical functions bit by bit

  lemma TurnBit(x: W32, i: nat)
    requires i < 32
    ensures Field.Bit(Turn(x), i) == Field.Bit(x, (i + 1) % 32)
  {
    Pow2Word();
    Field.TopBit(x / 2, 31, i);
    Field.TopBit(x / 2, 31, 31);
  }

  lemma {:induction false} RotRBit(x: W32, n: nat, i: nat)
    requires i < 32
    ensures Field.Bit(RotR(x, n), i) == Field.Bit(x, (i + n) % 32)
    decreases n
  {
    if n > 0 {
      RotRBit(Turn(x), n - 1, i);
      TurnBit(x, (i + n - 1) % 32);
      OneMore(i + n - 1);
    }
  }

  lemma OneMore(k: nat)
    ensures (k % 32 + 1) % 32 == (k + 1) % 32
  {
  }

  lemma {:induction false} ShiftBit(x: nat, n: nat, i: nat)
    ensures Field.Bit(ShiftRight(x, n), i) == Field.Bit(x, i + n)
    decreases n
  {
    if n > 0 {
      ShiftBit(x / 2, n - 1, i);
    }
  }

  lemma {:induction false} NoHighBit(x: nat, n: nat, i: nat)
    requires x < Pow2(n) && n <= i
    ensures !Field.Bit(x, i)
  {
    if n > 0 {
      NoHighBit(x / 2, n - 1, i - 1);
    } else {
      Field.ZeroBit(i);
    }
  }

  lemma RightBit(x: W32, n: nat, i: nat)
    ensures Field.Bit(Right(x, n), i) == (i + n < 32 && Field.Bit(x, i + n))
  {
    ShiftBit(x, n, i);
    if i + n >= 32 {
      Pow2Word();
      NoHighBit(x, 32, i + n);
    }
  }

  lemma {:induction false} BitwiseBit(f: Logic, x: nat, y: nat, z: nat, n: nat, i: nat)
    requires i < n
    ensures Field.Bit(Bitwise(f, x, y, z, n), i) == f(Field.Bit(x, i), Field.Bit(y, i), Field.Bit(z, i))
  {
    Lowest(f, x, y, z, n);
    if i > 0 {
      BitwiseBit(f, x / 2, y / 2, z / 2, n - 1, i - 1);
    }
  }

  /** Section 4.1.2 of FIPS 180-2 for the functions of the program: bit i of each sum is
      odd or even as three bits of the operand are. */
  lemma SumBits(x: W32, i: nat)
    requires i < 32
    ensures Field.Bit(Sum0(x), i) == ((BitOf(x, i + 2) != BitOf(x, i + 13)) != BitOf(x, i + 22))
    ensures Field.Bit(Sum1(x), i) == ((BitOf(x, i + 6) != BitOf(x, i + 11)) != BitOf(x, i + 25))
  {
    Sum0Agrees(x, []);
    Sum1Agrees(x, []);
    ParityBit(RotR(x, 2), RotR(x, 13), RotR(x, 22), i);
    ParityBit(RotR(x, 6), RotR(x, 11), RotR(x, 25), i);
    RotRBit(x, 2, i);
    RotRBit(x, 13, i);
    RotRBit(x, 22, i);
    RotRBit(x, 6, i);
    RotRBit(x, 11, i);
    RotRBit(x, 25, i);
  }

  /** In the functions of the schedule the third bit is zero where it is shifted out. */
  lemma SigmaBits(x: W32, i: nat)
    requires i < 32
    ensures Field.Bit(Sigma0(x), i)
         == ((BitOf(x, i + 7) != BitOf(x, i + 18)) != (i + 3 < 32 && Field.Bit(x, i + 3)))
    ensures Field.Bit(Sigma1(x), i)
         == ((BitOf(x, i + 17) != BitOf(x, i + 19)) != (i + 10 < 32 && Field.Bit(x, i + 10)))
  {
    Sigma0Agrees(x, []);
    Sigma1Agrees(x, []);
    ParityBit(RotR(x, 7), RotR(x, 18), Right(x, 3), i);
    ParityBit(RotR(x, 17), RotR(x, 19), Right(x, 10), i);
    RotRBit(x, 7, i);
    RotRBit(x, 18, i);
    RightBit(x, 3, i);
    RotRBit(x, 17, i);
    RotRBit(x, 19, i);
    RightBit(x, 10, i);
  }

  function BitOf(x: W32, i: nat): bool {
    Field.Bit(x, i % 32)
  }

  lemma ParityBit(x: W32, y: W32, z: W32, i: nat)
    requires i < 32
    ensures Field.Bit(OnWords(PARITY, x, y, z), i) == ((Field.Bit(x, i) != Field.Bit(y, i)) != Field.Bit(z, i))
  {
    BitwiseBit(PARITY, x, y, z, 32, i);
  }

  /** Bit i of Ch is that of y or z, as x says, and of Maj the one that two of the three have. */
  lemma ChoiceBits(x: W32, y: W32, z: W32, i: nat)
    requires i < 32
    ensures Field.Bit(Ch(x, y, z), i) == if Field.Bit(x, i) then Field.Bit(y, i) else Field.Bit(z, i)
    ensures Field.Bit(Maj(x, y, z), i)
         == if Field.Bit(x, i) == Field.Bit(y, i) then Field.Bit(x, i) else Field.Bit(z, i)
  {
    ChIs(x, y, z);
    MajIs(x, y, z);
    BitwiseBit(CHOOSE, x, y, z, 32, i);
    BitwiseBit(MAJORITY, x, y, z, 32, i);
  }

  // ----- the block functions agree

  lemma {:induction false} SameSchedule(s: Suite, t: Suite, m: seq<W32>, n: nat)
    requires Agree(s, t) && |m| == 16
    ensures W(s, m, n) == W(t, m, n)
  {
    if n >= 16 {
      SameSchedule(s, t, m, n - 2);
      SameSchedule(s, t, m, n - 7);
      SameSchedule(s, t, m, n - 15);
      SameSchedule(s, t, m, n - 16);
    }
  }

  lemma SameRound(s: Suite, t: Suite, r: Regs, k: W32, w: W32)
    requires Agree(s, t)
    ensures Round(s, r, k, w) == Round(t, r, k, w)
  {
    assert s.ch(r.e, r.f, r.g) == t.ch(r.e, r.f, r.g) && s.maj(r.a, r.b, r.c) == t.maj(r.a, r.b, r.c);
  }

  lemma {:induction false} SameRounds(s: Suite, t: Suite, m: seq<W32>, r: Regs, n: nat)
    requires Agree(s, t) && s.Valid() && t.Valid() && |m| == 16 && n <= 64
    ensures Rounds(s, m, r, n) == Rounds(t, m, r, n)
  {
    if n > 0 {
      SameRounds(s, t, m, r, n - 1);
      SameSchedule(s, t, m, n - 1);
      SameRound(s, t, Rounds(s, m, r, n - 1), s.k[n - 1], W(s, m, n - 1));
    }
  }

  /** The block function of the program is that of the standard. */
  lemma MixIsStandard(k: seq<W32>, h: Chain, m: seq<W32>)
    requires |k| == 64 && |h| == 8 && |m| == 16
    ensures Program(k).Valid() && Standard(k).Valid() && Mix(Program(k), h, m) == Mix(Standard(k), h, m)
  {
    AllAgree(k);
    PlusAdds(Program(k));
    PlusAdds(Standard(k));
    SameRounds(Program(k), Standard(k), m, Load(h), 64);
  }

  // ----- section 6.2.2 of FIPS 180-2 in integers

  lemma PlusMod(x: W32, y: W32, a: int, b: int)
    requires x == a % 0x1_0000_0000 && y == b % 0x1_0000_0000
    ensures Plus(x, y) == (a + b) % 0x1_0000_0000
  {
    PlusIs(x, y);
  }

  lemma Plus4Is(p: W32, q: W32, r: W32, u: W32)
    ensures var a: int, b: int, c: int, d: int := p, q, r, u;
            Plus(Plus(Plus(p, q), r), u) == (a + b + c + d) % 0x1_0000_0000
  {
    var a: int, b: int, c: int, d: int := p, q, r, u;
    PlusIs(p, q);
    PlusMod(Plus(p, q), r, a + b, c);
    PlusMod(Plus(Plus(p, q), r), u, a + b + c, d);
  }

  lemma Plus5Is(p: W32, q: W32, r: W32, u: W32, v: W32)
    ensures var a: int, b: int, c: int, d: int, e: int := p, q, r, u, v;
            Plus(Plus(Plus(Plus(p, q), r), u), v) == (a + b + c + d + e) % 0x1_0000_0000
  {
    var a: int, b: int, c: int, d: int, e: int := p, q, r, u, v;
    Plus4Is(p, q, r, u);
    PlusMod(Plus(Plus(Plus(p, q), r), u), v, a + b + c + d, e);
  }

  /** The schedule: word t from those 2, 7, 15 and 16 places before it. */
  lemma ScheduleIs(k: seq<W32>, m: seq<W32>, t: nat)
    requires |k| == 64 && |m| == 16 && 16 <= t < 64
    ensures var s := Program(k);
            var p: int, q: int, r: int, u: int :=
              Sigma1(W(s, m, t - 2)), W(s, m, t - 7), Sigma0(W(s, m, t - 15)), W(s, m, t - 16);
            W(s, m, t) == (p + q + r + u) % 0x1_0000_0000
  {
    var s := Program(k);
    Plus4Is(Sigma1(W(s, m, t - 2)), W(s, m, t - 7), Sigma0(W(s, m, t - 15)), W(s, m, t - 16));
  }

  /** The sums of a round as integers. */
  function FirstSum(r: Regs, c: W32, w: W32): (t: int) {
    var h: int, e: int, f: int, x: int, y: int := r.h, Sum1(r.e), Ch(r.e, r.f, r.g), c, w;
    h + e + f + x + y
  }

  function SecondSum(r: Regs): (t: int) {
    var a: int, b: int := Sum0(r.a), Maj(r.a, r.b, r.c);
    a + b
  }

  /** A round: the registers move on, and two of them are sums. */
  lemma RoundIs(k: seq<W32>, r: Regs, c: W32, w: W32)
    ensures var n, d: int := Round(Program(k), r, c, w), r.d;
            && n.b == r.a && n.c == r.b && n.d == r.c && n.f == r.e && n.g == r.f && n.h == r.g
            && n.e == (d + FirstSum(r, c, w)) % 0x1_0000_0000
            && n.a == (FirstSum(r, c, w) + SecondSum(r)) % 0x1_0000_0000
  {
    T1Is(k, r, c, w);
    T2Is(k, r);
    TwoSums(r.d, T1(Program(k), r, c, w), T2(Program(k), r), FirstSum(r, c, w), SecondSum(r));
  }

  lemma TwoSums(d: W32, t1: W32, t2: W32, x: int, y: int)
    requires t1 == x % 0x1_0000_0000 && t2 == y % 0x1_0000_0000
    ensures var e: int := d; Plus(d, t1) == (e + x) % 0x1_0000_0000
    ensures Plus(t1, t2) == (x + y) % 0x1_0000_0000
  {
    PlusMod(d, t1, d, x);
    PlusMod(t1, t2, x, y);
  }

  lemma T1Is(k: seq<W32>, r: Regs, c: W32, w: W32)
    ensures T1(Program(k), r, c, w) == FirstSum(r, c, w) % 0x1_0000_0000
  {
    Plus5Is(r.h, Sum1(r.e), Ch(r.e, r.f, r.g), c, w);
  }

  lemma T2Is(k: seq<W32>, r: Regs)
    ensures T2(Program(k), r) == SecondSum(r) % 0x1_0000_0000
  {
    PlusIs(Sum0(r.a), Maj(r.a, r.b, r.c));
  }

  /** The end of a block: the chaining value and the registers are added. */
  lemma SumsAre(k: seq<W32>, h: Chain, r: Regs, i: nat)
    requires |h| == 8 && i < 8
    ensures var p: int, q: int := h[i], [r.a, r.b, r.c, r.d, r.e, r.f, r.g, r.h][i];
            Sha256.Sums(Program(k), h, r)[i] == (p + q) % 0x1_0000_0000
  {
    PlusIs(h[i], [r.a, r.b, r.c, r.d, r.e, r.f, r.g, r.h][i]);
  }

  // ----- the two hash functions

  /** Section 4.2.2 of FIPS 180-2. */
  const K0: seq<W32> := [0x428a2f98, 0x71374491, 0xb5c0fbcf, 0xe9b5dba5, 0x3956c25b, 0x59f111f1, 0x923f82a4, 0xab1c5ed5]
  const K1: seq<W32> := [0xd807aa98, 0x12835b01, 0x243185be, 0x550c7dc3, 0x72be5d74, 0x80deb1fe, 0x9bdc06a7, 0xc19bf174]
  const K2: seq<W32> := [0xe49b69c1, 0xefbe4786, 0x0fc19dc6, 0x240ca1cc, 0x2de92c6f, 0x4a7484aa, 0x5cb0a9dc, 0x76f988da]
  const K3: seq<W32> := [0x983e5152, 0xa831c66d, 0xb00327c8, 0xbf597fc7, 0xc6e00bf3, 0xd5a79147, 0x06ca6351, 0x14292967]
  const K4: seq<W32> := [0x27b70a85, 0x2e1b2138, 0x4d2c6dfc, 0x53380d13, 0x650a7354, 0x766a0abb, 0x81c2c92e, 0x92722c85]
  const K5: seq<W32> := [0xa2bfe8a1, 0xa81a664b, 0xc24b8b70, 0xc76c51a3, 0xd192e819, 0xd6990624, 0xf40e3585, 0x106aa070]
  const K6: seq<W32> := [0x19a4c116, 0x1e376c08, 0x2748774c, 0x34b0bcb5, 0x391c0cb3, 0x4ed8aa4a, 0x5b9cca4f, 0x682e6ff3]
  const K7: seq<W32> := [0x748f82ee, 0x78a5636f, 0x84c87814, 0x8cc70208, 0x90befffa, 0xa4506ceb, 0xbef9a3f7, 0xc67178f2]

  const K256: seq<W32> := K0 + K1 + K2 + K3 + K4 + K5 + K6 + K7

  /** SHA224_Init and SHA256_Init */
  const INIT224: Chain := [0xc1059ed8, 0x367cd507, 0x3070dd17, 0xf70e5939,
                           0xffc00b31, 0x68581511, 0x64f98fa7, 0xbefa4fa4]
  const INIT256: Chain := [0x6a09e667, 0xbb67ae85, 0x3c6ef372, 0xa54ff53a,
                           0x510e527f, 0x9b05688c, 0x1f83d9ab, 0x5be0cd19]

  /** Section 6.2 of FIPS 180-2, and 6.3 for the shorter digest. */
  function Compression(): (f: Mixer) {
    PlusAdds(Standard(K256));
    Mixing(Standard(K256))
  }

  /** The same as the program has it. */
  function Compress(): (f: Mixer) {
    PlusAdds(Program(K256));
    Mixing(Program(K256))
  }

  lemma {:induction false} SameAbsorb(h: Chain, s: seq<Byte>)
    requires |h| == 8
    ensures Absorb(Compress(), h, s) == Absorb(Compression(), h, s) && |Absorb(Compress(), h, s)| == 8
    decreases |s|
  {
    if |s| >= 64 {
      MixIsStandard(K256, h, Collector.Words(s[..64]));
      SameAbsorb(Compress()(h, Collector.Words(s[..64])), s[64..]);
    }
  }

  /** The digest of a message: SHA-256, or SHA-224 when short. */
  function Digest(short: bool, m: seq<Byte>): (d: seq<Byte>)
    ensures |d| == if short then 28 else 32
  {
    SameAbsorb(Start(short), Padded(m));
    Bytes(Hash(Compression(), Start(short), m), if short then 7 else 8)
  }

  function Start(short: bool): (h: Chain)
    ensures |h| == 8
  {
    if short then INIT224 else INIT256
  }

  // ----- where the constants come from

  /** The first sixty-four primes. */
  const P0: seq<nat> := [2, 3, 5, 7, 11, 13, 17, 19]
  const P1: seq<nat> := [23, 29, 31, 37, 41, 43, 47, 53]
  const P2: seq<nat> := [59, 61, 67, 71, 73, 79, 83, 89]
  const P3: seq<nat> := [97, 101, 103, 107, 109, 113, 127, 131]
  const P4: seq<nat> := [137, 139, 149, 151, 157, 163, 167, 173]
  const P5: seq<nat> := [179, 181, 191, 193, 197, 199, 211, 223]
  const P6: seq<nat> := [227, 229, 233, 239, 241, 251, 257, 263]
  const P7: seq<nat> := [269, 271, 277, 281, 283, 293, 307, 311]

  const PRIMES: seq<nat> := P0 + P1 + P2 + P3 + P4 + P5 + P6 + P7

  /** The integer parts of the square root and of the cube root of x. */
  ghost predicate SquareRoot(s: nat, x: nat) {
    s * s <= x < (s + 1) * (s + 1)
  }

  ghost predicate CubeRoot(s: nat, x: nat) {
    s * s * s <= x < (s + 1) * (s + 1) * (s + 1)
  }

  /** Section 5.3.2 of FIPS 180-2: the first 32 bits of the fractional parts of the square
      roots of the first eight primes. */
  lemma StartIsRoot(i: nat) returns (s: nat)
    requires i < 8
    ensures SquareRoot(s, PRIMES[i] * 0x1_0000_0000_0000_0000) && s % 0x1_0000_0000 == Start(false)[i]
  {
    assert PRIMES[i] == P0[i];
    match i
    case 0 => s := 0x1_6a09_e667; assert SquareRoot(0x1_6a09_e667, 2 * 0x1_0000_0000_0000_0000);
    case 1 => s := 0x1_bb67_ae85; assert SquareRoot(0x1_bb67_ae85, 3 * 0x1_0000_0000_0000_0000);
    case 2 => s := 0x2_3c6e_f372; assert SquareRoot(0x2_3c6e_f372, 5 * 0x1_0000_0000_0000_0000);
    case 3 => s := 0x2_a54f_f53a; assert SquareRoot(0x2_a54f_f53a, 7 * 0x1_0000_0000_0000_0000);
    case 4 => s := 0x3_510e_527f; assert SquareRoot(0x3_510e_527f, 11 * 0x1_0000_0000_0000_0000);
    case 5 => s := 0x3_9b05_688c; assert SquareRoot(0x3_9b05_688c, 13 * 0x1_0000_0000_0000_0000);
    case 6 => s := 0x4_1f83_d9ab; assert SquareRoot(0x4_1f83_d9ab, 17 * 0x1_0000_0000_0000_0000);
    case _ => s := 0x4_5be0_cd19; assert SquareRoot(0x4_5be0_cd19, 19 * 0x1_0000_0000_0000_0000);
  }

  /** SHA-224 starts with the second 32 bits of those of the ninth to the sixteenth prime. */
  lemma ShortStartIsRoot(i: nat) returns (s: nat)
    requires i < 8
    ensures SquareRoot(s, PRIMES[8 + i] * 0x1_0000_0000_0000_0000_0000_0000_0000_0000)
    ensures s % 0x1_0000_0000 == Start(true)[i]
  {
    assert PRIMES[8 + i] == P1[i];
    match i
    case 0 => s := 0x4_cbbb_9d5d_c105_9ed8;
      assert SquareRoot(0x4_cbbb_9d5d_c105_9ed8, 23 * 0x1_0000_0000_0000_0000_0000_0000_0000_0000);
    case 1 => s := 0x5_629a_292a_367c_d507;
      assert SquareRoot(0x5_629a_292a_367c_d507, 29 * 0x1_0000_0000_0000_0000_0000_0000_0000_0000);
    case 2 => s := 0x5_9159_015a_3070_dd17;
      assert SquareRoot(0x5_9159_015a_3070_dd17, 31 * 0x1_0000_0000_0000_0000_0000_0000_0000_0000);
    case 3 => s := 0x6_152f_ecd8_f70e_5939;
      assert SquareRoot(0x6_152f_ecd8_f70e_5939, 37 * 0x1_0000_0000_0000_0000_0000_0000_0000_0000);
    case 4 => s := 0x6_6733_2667_ffc0_0b31;
      assert SquareRoot(0x6_6733_2667_ffc0_0b31, 41 * 0x1_0000_0000_0000_0000_0000_0000_0000_0000);
    case 5 => s := 0x6_8eb4_4a87_6858_1511;
      assert SquareRoot(0x6_8eb4_4a87_6858_1511, 43 * 0x1_0000_0000_0000_0000_0000_0000_0000_0000);
    case 6 => s := 0x6_db0c_2e0d_64f9_8fa7;
      assert SquareRoot(0x6_db0c_2e0d_64f9_8fa7, 47 * 0x1_0000_0000_0000_0000_0000_0000_0000_0000);
    case _ => s := 0x7_47b5_481d_befa_4fa4;
      assert SquareRoot(0x7_47b5_481d_befa_4fa4, 53 * 0x1_0000_0000_0000_0000_0000_0000_0000_0000);
  }

  lemma RootsOfK0(i: nat) returns (s: nat)
    requires i < 8
    ensures CubeRoot(s, PRIMES[i] * 0x1_0000_0000_0000_0000_0000_0000) && s % 0x1_0000_0000 == K256[i]
  {
    assert PRIMES[i] == P0[i] && K256[i] == K0[i];
    match i
    case 0 => s := 0x1_428a_2f98; assert CubeRoot(0x1_428a_2f98, 2 * 0x1_0000_0000_0000_0000_0000_0000);
    case 1 => s := 0x1_7137_4491; assert CubeRoot(0x1_7137_4491, 3 * 0x1_0000_0000_0000_0000_0000_0000);
    case 2 => s := 0x1_b5c0_fbcf; assert CubeRoot(0x1_b5c0_fbcf, 5 * 0x1_0000_0000_0000_0000_0000_0000);
    case 3 => s := 0x1_e9b5_dba5; assert CubeRoot(0x1_e9b5_dba5, 7 * 0x1_0000_0000_0000_0000_0000_0000);
    case 4 => s := 0x2_3956_c25b; assert CubeRoot(0x2_3956_c25b, 11 * 0x1_0000_0000_0000_0000_0000_0000);
    case 5 => s := 0x2_59f1_11f1; assert CubeRoot(0x2_59f1_11f1, 13 * 0x1_0000_0000_0000_0000_0000_0000);
    case 6 => s := 0x2_923f_82a4; assert CubeRoot(0x2_923f_82a4, 17 * 0x1_0000_0000_0000_0000_0000_0000);
    case _ => s := 0x2_ab1c_5ed5; assert CubeRoot(0x2_ab1c_5ed5, 19 * 0x1_0000_0000_0000_0000_0000_0000);
  }

  lemma RootsOfK1(i: nat) returns (s: nat)
    requires i < 8
    ensures CubeRoot(s, PRIMES[8 + i] * 0x1_0000_0000_0000_0000_0000_0000) && s % 0x1_0000_0000 == K256[8 + i]
  {
    assert PRIMES[8 + i] == P1[i] && K256[8 + i] == K1[i];
    match i
    case 0 => s := 0x2_d807_aa98; assert CubeRoot(0x2_d807_aa98, 23 * 0x1_0000_0000_0000_0000_0000_0000);
    case 1 => s := 0x3_1283_5b01; assert CubeRoot(0x3_1283_5b01, 29 * 0x1_0000_0000_0000_0000_0000_0000);
    case 2 => s := 0x3_2431_85be; assert CubeRoot(0x3_2431_85be, 31 * 0x1_0000_0000_0000_0000_0000_0000);
    case 3 => s := 0x3_550c_7dc3; assert CubeRoot(0x3_550c_7dc3, 37 * 0x1_0000_0000_0000_0000_0000_0000);
    case 4 => s := 0x3_72be_5d74; assert CubeRoot(0x3_72be_5d74, 41 * 0x1_0000_0000_0000_0000_0000_0000);
    case 5 => s := 0x3_80de_b1fe; assert CubeRoot(0x3_80de_b1fe, 43 * 0x1_0000_0000_0000_0000_0000_0000);
    case 6 => s := 0x3_9bdc_06a7; assert CubeRoot(0x3_9bdc_06a7, 47 * 0x1_0000_0000_0000_0000_0000_0000);
    case _ => s := 0x3_c19b_f174; assert CubeRoot(0x3_c19b_f174, 53 * 0x1_0000_0000_0000_0000_0000_0000);
  }

  lemma RootsOfK2(i: nat) returns (s: nat)
    requires i < 8
    ensures CubeRoot(s, PRIMES[16 + i] * 0x1_0000_0000_0000_0000_0000_0000) && s % 0x1_0000_0000 == K256[16 + i]
  {
    assert PRIMES[16 + i] == P2[i] && K256[16 + i] == K2[i];
    match i
    case 0 => s := 0x3_e49b_69c1; assert CubeRoot(0x3_e49b_69c1, 59 * 0x1_0000_0000_0000_0000_0000_0000);
    case 1 => s := 0x3_efbe_4786; assert CubeRoot(0x3_efbe_4786, 61 * 0x1_0000_0000_0000_0000_0000_0000);
    case 2 => s := 0x4_0fc1_9dc6; assert CubeRoot(0x4_0fc1_9dc6, 67 * 0x1_0000_0000_0000_0000_0000_0000);
    case 3 => s := 0x4_240c_a1cc; assert CubeRoot(0x4_240c_a1cc, 71 * 0x1_0000_0000_0000_0000_0000_0000);
    case 4 => s := 0x4_2de9_2c6f; assert CubeRoot(0x4_2de9_2c6f, 73 * 0x1_0000_0000_0000_0000_0000_0000);
    case 5 => s := 0x4_4a74_84aa; assert CubeRoot(0x4_4a74_84aa, 79 * 0x1_0000_0000_0000_0000_0000_0000);
    case 6 => s := 0x4_5cb0_a9dc; assert CubeRoot(0x4_5cb0_a9dc, 83 * 0x1_0000_0000_0000_0000_0000_0000);
    case _ => s := 0x4_76f9_88da; assert CubeRoot(0x4_76f9_88da, 89 * 0x1_0000_0000_0000_0000_0000_0000);
  }

  lemma RootsOfK3(i: nat) returns (s: nat)
    requires i < 8
    ensures CubeRoot(s, PRIMES[24 + i] * 0x1_0000_0000_0000_0000_0000_0000) && s % 0x1_0000_0000 == K256[24 + i]
  {
    assert PRIMES[24 + i] == P3[i] && K256[24 + i] == K3[i];
    match i
    case 0 => s := 0x4_983e_5152; assert CubeRoot(0x4_983e_5152, 97 * 0x1_0000_0000_0000_0000_0000_0000);
    case 1 => s := 0x4_a831_c66d; assert CubeRoot(0x4_a831_c66d, 101 * 0x1_0000_0000_0000_0000_0000_0000);
    case 2 => s := 0x4_b003_27c8; assert CubeRoot(0x4_b003_27c8, 103 * 0x1_0000_0000_0000_0000_0000_0000);
    case 3 => s := 0x4_bf59_7fc7; assert CubeRoot(0x4_bf59_7fc7, 107 * 0x1_0000_0000_0000_0000_0000_0000);
    case 4 => s := 0x4_c6e0_0bf3; assert CubeRoot(0x4_c6e0_0bf3, 109 * 0x1_0000_0000_0000_0000_0000_0000);
    case 5 => s := 0x4_d5a7_9147; assert CubeRoot(0x4_d5a7_9147, 113 * 0x1_0000_0000_0000_0000_0000_0000);
    case 6 => s := 0x5_06ca_6351; assert CubeRoot(0x5_06ca_6351, 127 * 0x1_0000_0000_0000_0000_0000_0000);
    case _ => s := 0x5_1429_2967; assert CubeRoot(0x5_1429_2967, 131 * 0x1_0000_0000_0000_0000_0000_0000);
  }

  lemma RootsOfK4(i: nat) returns (s: nat)
    requires i < 8
    ensures CubeRoot(s, PRIMES[32 + i] * 0x1_0000_0000_0000_0000_0000_0000) && s % 0x1_0000_0000 == K256[32 + i]
  {
    assert PRIMES[32 + i] == P4[i] && K256[32 + i] == K4[i];
    match i
    case 0 => s := 0x5_27b7_0a85; assert CubeRoot(0x5_27b7_0a85, 137 * 0x1_0000_0000_0000_0000_0000_0000);
    case 1 => s := 0x5_2e1b_2138; assert CubeRoot(0x5_2e1b_2138, 139 * 0x1_0000_0000_0000_0000_0000_0000);
    case 2 => s := 0x5_4d2c_6dfc; assert CubeRoot(0x5_4d2c_6dfc, 149 * 0x1_0000_0000_0000_0000_0000_0000);
    case 3 => s := 0x5_5338_0d13; assert CubeRoot(0x5_5338_0d13, 151 * 0x1_0000_0000_0000_0000_0000_0000);
    case 4 => s := 0x5_650a_7354; assert CubeRoot(0x5_650a_7354, 157 * 0x1_0000_0000_0000_0000_0000_0000);
    case 5 => s := 0x5_766a_0abb; assert CubeRoot(0x5_766a_0abb, 163 * 0x1_0000_0000_0000_0000_0000_0000);
    case 6 => s := 0x5_81c2_c92e; assert CubeRoot(0x5_81c2_c92e, 167 * 0x1_0000_0000_0000_0000_0000_0000);
    case _ => s := 0x5_9272_2c85; assert CubeRoot(0x5_9272_2c85, 173 * 0x1_0000_0000_0000_0000_0000_0000);
  }

  lemma RootsOfK5(i: nat) returns (s: nat)
    requires i < 8
    ensures CubeRoot(s, PRIMES[40 + i] * 0x1_0000_0000_0000_0000_0000_0000) && s % 0x1_0000_0000 == K256[40 + i]
  {
    assert PRIMES[40 + i] == P5[i] && K256[40 + i] == K5[i];
    match i
    case 0 => s := 0x5_a2bf_e8a1; assert CubeRoot(0x5_a2bf_e8a1, 179 * 0x1_0000_0000_0000_0000_0000_0000);
    case 1 => s := 0x5_a81a_664b; assert CubeRoot(0x5_a81a_664b, 181 * 0x1_0000_0000_0000_0000_0000_0000);
    case 2 => s := 0x5_c24b_8b70; assert CubeRoot(0x5_c24b_8b70, 191 * 0x1_0000_0000_0000_0000_0000_0000);
    case 3 => s := 0x5_c76c_51a3; assert CubeRoot(0x5_c76c_51a3, 193 * 0x1_0000_0000_0000_0000_0000_0000);
    case 4 => s := 0x5_d192_e819; assert CubeRoot(0x5_d192_e819, 197 * 0x1_0000_0000_0000_0000_0000_0000);
    case 5 => s := 0x5_d699_0624; assert CubeRoot(0x5_d699_0624, 199 * 0x1_0000_0000_0000_0000_0000_0000);
    case 6 => s := 0x5_f40e_3585; assert CubeRoot(0x5_f40e_3585, 211 * 0x1_0000_0000_0000_0000_0000_0000);
    case _ => s := 0x6_106a_a070; assert CubeRoot(0x6_106a_a070, 223 * 0x1_0000_0000_0000_0000_0000_0000);
  }

  lemma RootsOfK6(i: nat) returns (s: nat)
    requires i < 8
    ensures CubeRoot(s, PRIMES[48 + i] * 0x1_0000_0000_0000_0000_0000_0000) && s % 0x1_0000_0000 == K256[48 + i]
  {
    assert PRIMES[48 + i] == P6[i] && K256[48 + i] == K6[i];
    match i
    case 0 => s := 0x6_19a4_c116; assert CubeRoot(0x6_19a4_c116, 227 * 0x1_0000_0000_0000_0000_0000_0000);
    case 1 => s := 0x6_1e37_6c08; assert CubeRoot(0x6_1e37_6c08, 229 * 0x1_0000_0000_0000_0000_0000_0000);
    case 2 => s := 0x6_2748_774c; assert CubeRoot(0x6_2748_774c, 233 * 0x1_0000_0000_0000_0000_0000_0000);
    case 3 => s := 0x6_34b0_bcb5; assert CubeRoot(0x6_34b0_bcb5, 239 * 0x1_0000_0000_0000_0000_0000_0000);
    case 4 => s := 0x6_391c_0cb3; assert CubeRoot(0x6_391c_0cb3, 241 * 0x1_0000_0000_0000_0000_0000_0000);
    case 5 => s := 0x6_4ed8_aa4a; assert CubeRoot(0x6_4ed8_aa4a, 251 * 0x1_0000_0000_0000_0000_0000_0000);
    case 6 => s := 0x6_5b9c_ca4f; assert CubeRoot(0x6_5b9c_ca4f, 257 * 0x1_0000_0000_0000_0000_0000_0000);
    case _ => s := 0x6_682e_6ff3; assert CubeRoot(0x6_682e_6ff3, 263 * 0x1_0000_0000_0000_0000_0000_0000);
  }

  lemma RootsOfK7(i: nat) returns (s: nat)
    requires i < 8
    ensures CubeRoot(s, PRIMES[56 + i] * 0x1_0000_0000_0000_0000_0000_0000) && s % 0x1_0000_0000 == K256[56 + i]
  {
    assert PRIMES[56 + i] == P7[i] && K256[56 + i] == K7[i];
    match i
    case 0 => s := 0x6_748f_82ee; assert CubeRoot(0x6_748f_82ee, 269 * 0x1_0000_0000_0000_0000_0000_0000);
    case 1 => s := 0x6_78a5_636f; assert CubeRoot(0x6_78a5_636f, 271 * 0x1_0000_0000_0000_0000_0000_0000);
    case 2 => s := 0x6_84c8_7814; assert CubeRoot(0x6_84c8_7814, 277 * 0x1_0000_0000_0000_0000_0000_0000);
    case 3 => s := 0x6_8cc7_0208; assert CubeRoot(0x6_8cc7_0208, 281 * 0x1_0000_0000_0000_0000_0000_0000);
    case 4 => s := 0x6_90be_fffa; assert CubeRoot(0x6_90be_fffa, 283 * 0x1_0000_0000_0000_0000_0000_0000);
    case 5 => s := 0x6_a450_6ceb; assert CubeRoot(0x6_a450_6ceb, 293 * 0x1_0000_0000_0000_0000_0000_0000);
    case 6 => s := 0x6_bef9_a3f7; assert CubeRoot(0x6_bef9_a3f7, 307 * 0x1_0000_0000_0000_0000_0000_0000);
    case _ => s := 0x6_c671_78f2; assert CubeRoot(0x6_c671_78f2, 311 * 0x1_0000_0000_0000_0000_0000_0000);
  }

  /** Section 4.2.2: the first 32 bits of the fractional parts of the cube roots of the
      first sixty-four primes. */
  lemma KIsRoot(i: nat) returns (s: nat)
    requires i < 64
    ensures CubeRoot(s, PRIMES[i] * 0x1_0000_0000_0000_0000_0000_0000) && s % 0x1_0000_0000 == K256[i]
  {
    if i < 8 {
      s := RootsOfK0(i);
    } else if i < 16 {
      s := RootsOfK1(i - 8);
    } else if i < 24 {
      s := RootsOfK2(i - 16);
    } else if i < 32 {
      s := RootsOfK3(i - 24);
    } else if i < 40 {
      s := RootsOfK4(i - 32);
    } else if i < 48 {
      s := RootsOfK5(i - 40);
    } else if i < 56 {
      s := RootsOfK6(i - 48);
    } else {
      s := RootsOfK7(i - 56);
    }
  }

  /** SHA256_Init or SHA224_Init, any number of calls of the update function and the final
      one: the digest is that of the parts put together. */
  method InParts(short: bool, parts: seq<seq<Byte>>) returns (md: array<Byte>)
    ensures md[..] == Digest(short, Joined(parts))
  {
    var h := OfParts(Compress(), Start(short), parts);
    SameAbsorb(Start(short), Padded(Joined(parts)));
    var size := if short then 28 else 32;
    md := new Byte[size];
    var ok := MakeString(h, size, md);
  }
}
