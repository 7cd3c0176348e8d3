/** The password hash of WPA (PBKDF2 of RFC 2898 with 4096 iterations and two blocks),
    at once and in steps. */
module PassHash {
  import opened Bits
  import Field

  type Digest = s: seq<Byte> | |s| == 20 witness seq(20, _ => 0)

  /** HMAC-SHA1 under the password. */
  type Prf = seq<Byte> -> Digest

  const ITERATIONS := 4096

  // ----- section 5.2 of RFC 2898

  /** INT(i): four bytes, the most significant first. */
  function Int(i: nat): seq<Byte> {
    [i / 0x100_0000 % 256, i / 0x1_0000 % 256, i / 0x100 % 256, i % 256]
  }

  /** U_k of block i */
  function U(f: Prf, salt: seq<Byte>, i: nat, k: nat): Digest
    requires k > 0
  {
    if k == 1 then f(salt + Int(i)) else f(U(f, salt, i, k - 1))
  }

  function XorAll(x: Digest, y: Digest): Digest {
    seq(20, j requires 0 <= j < 20 => Xor(x[j], y[j]))
  }

  /** The first c of the digests of block i together. */
  function Sum(f: Prf, salt: seq<Byte>, i: nat, c: nat): Digest
    requires c > 0
  {
    if c == 1 then U(f, salt, i, 1) else XorAll(Sum(f, salt, i, c - 1), U(f, salt, i, c))
  }

  /** The derived key: two blocks. */
  function Key(f: Prf, salt: seq<Byte>): seq<Byte> {
    Sum(f, salt, 1, ITERATIONS) + Sum(f, salt, 2, ITERATIONS)
  }

  lemma IntIs(i: nat)
    requires i < 0x1_0000_0000
    ensures |Int(i)| == 4
    ensures var b0: int, b1: int, b2: int, b3: int := Int(i)[0], Int(i)[1], Int(i)[2], Int(i)[3];
            ((b0 * 0x100 + b1) * 0x100 + b2) * 0x100 + b3 == i
  {
  }

  /** The first digest of the two blocks, and the next from the one before. */
  lemma Digests(f: Prf, salt: seq<Byte>, i: nat, k: nat)
    requires k > 0
    ensures U(f, salt, 1, 1) == f(salt + [0, 0, 0, 1]) && U(f, salt, 2, 1) == f(salt + [0, 0, 0, 2])
    ensures U(f, salt, i, k + 1) == f(U(f, salt, i, k))
  {
  }

  /** In how many of the first c digests of block i bit b of byte j is set. */
  function Ones(f: Prf, salt: seq<Byte>, i: nat, c: nat, j: nat, b: nat): nat
    requires j < 20
  {
    if c == 0 then 0 else Ones(f, salt, i, c - 1, j, b) + if Field.Bit(U(f, salt, i, c)[j], b) then 1 else 0
  }

  lemma {:induction false} SumBit(f: Prf, salt: seq<Byte>, i: nat, c: nat, j: nat, b: nat)
    requires c > 0 && j < 20 && b < 8
    ensures Field.Bit(Sum(f, salt, i, c)[j], b) == (Ones(f, salt, i, c, j, b) % 2 == 1)
  {
    if c > 1 {
      SumBit(f, salt, i, c - 1, j, b);
      Field.XorsAt(b);
    } else {
      assert Ones(f, salt, i, 0, j, b) == 0;
    }
  }

  /** T_1 and T_2: a bit of the key is set if it is set in an odd number of the 4096 digests
      of its block. */
  lemma KeyBits(f: Prf, salt: seq<Byte>, j: nat, b: nat)
    requires j < 40 && b < 8
    ensures |Key(f, salt)| == 40
    ensures Field.Bit(Key(f, salt)[j], b) == (Ones(f, salt, j / 20 + 1, 4096, j % 20, b) % 2 == 1)
  {
    SumBit(f, salt, j / 20 + 1, 4096, j % 20, b);
  }

  /** An ssid longer than 32 bytes is cut off. */
  function Clamped(ssid: seq<Byte>): (s: seq<Byte>)
    ensures s <= ssid && |s| <= 32 && (|s| < 32 ==> s == ssid)
  {
    if |ssid| > 32 then ssid[..32] else ssid
  }

  // ----- the loops

  /** output ^= digest */
  method XorInto(output: array<Byte>, at: nat, d: Digest)
    requires at + 20 <= output.Length
    modifies output
    ensures output[at..at + 20] == XorAll(old(output[at..at + 20]), d)
    ensures forall k :: 0 <= k < output.Length && !(at <= k < at + 20) ==> output[k] == old(output[k])
  {
    ghost var x := output[at..at + 20];
    var j := 0;
    while j < 20
      invariant 0 <= j <= 20
      invariant output[at..at + j] == XorAll(x, d)[..j] && output[at + j..at + 20] == x[j..]
      invariant forall k :: 0 <= k < output.Length && !(at <= k < at + 20) ==> output[k] == old(output[k])
    {
      assert output[at + j] == x[j];
      output[at + j] := Xor(output[at + j], d[j]);
      j := j + 1;
    }
  }

  /** F. The digest of a round is kept in a local buffer. */
  method F(f: Prf, ssid: seq<Byte>, iterations: nat, count: nat, output: array<Byte>, at: nat)
    requires 0 < iterations && at + 20 <= output.Length
    modifies output
    ensures output[at..at + 20] == Sum(f, Clamped(ssid), count, iterations)
    ensures forall k :: 0 <= k < output.Length && !(at <= k < at + 20) ==> output[k] == old(output[k])
  {
    ghost var salt := Clamped(ssid);
    var s := if |ssid| > 32 then ssid[..32] else ssid;
    var digest1 := f(s + Int(count));
    PutDigest(digest1, output, at);
    var i := 1;
    while i < iterations
      invariant 1 <= i <= iterations && digest1 == U(f, salt, count, i)
      invariant output[at..at + 20] == Sum(f, salt, count, i)
      invariant forall k :: 0 <= k < output.Length && !(at <= k < at + 20) ==> output[k] == old(output[k])
    {
      digest1 := f(digest1);
      XorInto(output, at, digest1);
      i := i + 1;
    }
  }

  /** bcopy of a digest */
  method PutDigest(d: Digest, output: array<Byte>, at: nat)
    requires at + 20 <= output.Length
    modifies output
    ensures output[at..at + 20] == d
    ensures forall k :: 0 <= k < output.Length && !(at <= k < at + 20) ==> output[k] == old(output[k])
  {
    var j := 0;
    while j < 20
      invariant 0 <= j <= 20 && output[at..at + j] == d[..j]
      invariant forall k :: 0 <= k < output.Length && !(at <= k < at + 20) ==> output[k] == old(output[k])
    {
      output[at + j] := d[j];
      j := j + 1;
    }
  }

  /** passhash, with the length that strlen finds for the password. */
  method Passhash(f: Prf, length: nat, ssid: seq<Byte>, output: array<Byte>) returns (ret: int)
    requires output.Length >= 40
    modifies output
    ensures ret == 0 <==> 8 <= length <= 63 && |ssid| <= 32
    ensures ret == 0 ==> output[..40] == Key(f, ssid)
    ensures ret != 0 ==> output[..] == old(output[..])
  {
    if length < 8 || length > 63 || |ssid| > 32 {
      return 1;
    }
    F(f, ssid, ITERATIONS, 1, output, 0);
    ghost var t := output[0..0 + 20];
    F(f, ssid, ITERATIONS, 2, output, 20);
    assert output[0..0 + 20] == t;
    assert output[..40] == output[0..0 + 20] + output[20..20 + 20];
    return 0;
  }

  // ----- in steps

  /** How many of the 2 * 4096 rounds are done after a call that asks for n more: a call
      stops at the end of a block. */
  function Advance(pos: nat, n: nat): nat
    requires pos < 2 * ITERATIONS
  {
    var end := (pos / ITERATIONS + 1) * ITERATIONS;
    if pos + n > end then end else pos + n
  }

  lemma EndOfBlock(block: nat, iters: nat)
    requires iters < ITERATIONS
    ensures ((ITERATIONS * block + iters) / ITERATIONS + 1) * ITERATIONS == ITERATIONS * block + ITERATIONS
  {
  }

  /** do_passhash's result: 0 if the call finishes the hash, 1 if there is more to do,
      -1 if there was nothing to do. */
  function Answer(pos: nat, n: nat): int {
    if pos >= 2 * ITERATIONS then -1 else if Advance(pos, n) == 2 * ITERATIONS then 0 else 1
  }

  /** The rounds done after calls that ask for the numbers of rounds in steps. */
  function After(steps: seq<nat>): (pos: nat)
    ensures pos <= 2 * ITERATIONS
  {
    if |steps| == 0 then 0
    else
      var pos := After(steps[..|steps| - 1]);
      if pos == 2 * ITERATIONS then pos else Advance(pos, steps[|steps| - 1])
  }

  /** The result of the last of the calls. */
  function LastAnswer(steps: seq<nat>): int
    requires |steps| > 0
  {
    Answer(After(steps[..|steps| - 1]), steps[|steps| - 1])
  }

  /** How many of the calls answer 0. */
  function Zeros(steps: seq<nat>): nat {
    if |steps| == 0 then 0 else Zeros(steps[..|steps| - 1]) + if LastAnswer(steps) == 0 then 1 else 0
  }

  ghost predicate Positive(steps: seq<nat>) {
    forall k :: 0 <= k < |steps| ==> steps[k] > 0
  }

  /** Whatever positive numbers of rounds the calls ask for, the hash is finished after
      8192 of them at the latest; one call answers 0 if it is finished, and none before. */
  lemma {:induction false} EveryRunEnds(steps: seq<nat>)
    ensures Positive(steps) ==> After(steps) == 2 * ITERATIONS || After(steps) >= |steps|
    ensures Zeros(steps) == if After(steps) == 2 * ITERATIONS then 1 else 0
  {
    if |steps| > 0 {
      EveryRunEnds(steps[..|steps| - 1]);
    }
  }

  class State {
    var f: Prf
    var ssid: seq<Byte>
    var digest: array<Byte>
    var output: array<Byte>
    var count: nat
    var iters: nat

    /** The rounds done. */
    function Pos(): nat
      requires count > 0
      reads this
    {
      ITERATIONS * (count - 1) + iters
    }

    ghost predicate Valid()
      reads this, digest, output
    {
      && digest.Length == 20 && output.Length == 40 && digest != output
      && 1 <= count <= 3 && iters < ITERATIONS && (count == 3 ==> iters == 0)
      && (count > 1 ==> output[0..20] == Sum(f, Clamped(ssid), 1, ITERATIONS))
      && (count > 2 ==> output[20..40] == Sum(f, Clamped(ssid), 2, ITERATIONS))
      && (iters > 0 ==> Block(iters))
    }

    /** The block at work after e of its rounds, and the one before it. */
    ghost predicate Block(e: nat)
      reads this, digest, output
    {
      && digest.Length == 20 && output.Length == 40 && digest != output && 1 <= count <= 2 && e > 0
      && digest[..] == U(f, Clamped(ssid), count, e)
      && output[20 * (count - 1)..20 * (count - 1) + 20] == Sum(f, Clamped(ssid), count, e)
      && (count > 1 ==> output[0..20] == Sum(f, Clamped(ssid), 1, ITERATIONS))
    }

    /** init_passhash, for a password whose length is checked first. */
    constructor (f0: Prf, ssid0: seq<Byte>)
      ensures Valid() && f == f0 && ssid == ssid0 && Pos() == 0 && fresh(digest) && fresh(output)
    {
      f, ssid := f0, ssid0;
      digest, output := new Byte[20](_ => 0), new Byte[40](_ => 0);
      count, iters := 1, 0;
    }

    /** init_F: the first round of a block. */
    method InitF()
      requires Valid() && count <= 2 && iters == 0
      modifies `iters, digest, output
      ensures Valid() && count == old(count) && iters == 1
    {
      var s := if |ssid| > 32 then ssid[..32] else ssid;
      var at := 20 * (count - 1);
      ghost var low := output[0..20];
      var u := f(s + Int(count));
      PutDigest(u, output, at);
      PutDigest(u, digest, 0);
      assert digest[..] == digest[0..0 + 20];
      assert count == 2 ==> output[0..20] == low;
      iters := 1;
    }

    /** A round of do_F. */
    method OneRound(ghost e: nat)
      requires Block(e)
      modifies digest, output
      ensures Block(e + 1)
    {
      var at := 20 * (count - 1);
      ghost var low := output[0..20];
      var u := f(digest[..]);
      XorInto(output, at, u);
      PutDigest(u, digest, 0);
      assert digest[..] == digest[0..0 + 20];
      assert count == 2 ==> output[0..20] == low;
    }

    /** do_F; a negative number of rounds is none. */
    method DoF(n: int)
      requires Block(iters)
      modifies digest, output
      ensures Block(iters + if n > 0 then n else 0)
    {
      var i := 0;
      while i < n
        invariant 0 <= i && (i <= n || i == 0) && Block(iters + i)
      {
        OneRound(iters + i);
        i := i + 1;
      }
    }

    /** do_passhash. Without any round asked for, a block that has not begun has its first
        round done but is still taken for one that has not begun. */
    method DoPasshash(n: nat) returns (ret: int)
      requires Valid()
      modifies `count, `iters, digest, output
      ensures Valid() && ret == Answer(old(Pos()), n)
      ensures Pos() == if old(Pos()) == 2 * ITERATIONS then old(Pos()) else Advance(old(Pos()), n)
    {
      if count > 2 {
        return -1;
      }
      EndOfBlock(count - 1, iters);
      var iterations: int := n;
      if iters == 0 {
        InitF();
        iterations := iterations - 1;
      }
      if iters + iterations > ITERATIONS {
        iterations := ITERATIONS - iters;
      }
      ret := Continue(iterations);
    }

    /** do_passhash, from its call of do_F on. */
    method Continue(iterations: int) returns (ret: int)
      requires Valid() && 0 < iters && iters + iterations <= ITERATIONS && (iterations >= 0 || iters + iterations == 0)
      modifies `count, `iters, digest, output
      ensures Valid() && Pos() == old(Pos()) + iterations
      ensures ret == if Pos() == 2 * ITERATIONS then 0 else 1
    {
      DoF(iterations);
      ret := EndCall(iterations);
    }

    /** do_passhash, from the end of its call of do_F on. */
    method EndCall(iterations: int) returns (ret: int)
      requires 0 < iters && iters + iterations <= ITERATIONS && (iterations >= 0 || iters + iterations == 0)
      requires Block(iters + if iterations > 0 then iterations else 0)
      modifies `count, `iters
      ensures Valid() && Pos() == old(Pos()) + iterations
      ensures ret == if Pos() == 2 * ITERATIONS then 0 else 1
    {
      iters := iters + iterations;
      if iters == ITERATIONS {
        count := count + 1;
        iters := 0;
        if count > 2 {
          return 0;
        }
      }
      return 1;
    }

    /** get_passhash: any part of the key, once it is finished. */
    method GetPasshash(out: array<Byte>, outlen: nat) returns (ret: int)
      requires Valid() && outlen <= out.Length && out != digest && out != output
      modifies out
      ensures ret == 0 <==> Pos() == 2 * ITERATIONS && outlen <= 40
      ensures ret == 0 ==> out[..outlen] == Key(f, Clamped(ssid))[..outlen]
      ensures ret != 0 ==> ret == -1 && out[..] == old(out[..])
    {
      if count > 2 && outlen <= 40 {
        assert output[..] == output[0..20] + output[20..40];
        var j := 0;
        while j < outlen
          invariant 0 <= j <= outlen && out[..j] == output[..j] && output[..] == old(output[..])
        {
          out[j] := output[j];
          j := j + 1;
        }
        return 0;
      }
      return -1;
    }
  }

  /** init_passhash, with the length that strlen finds for the password. Unlike passhash
      it takes an ssid of any length, of which the rounds use 32 bytes. */
  method InitPasshash(f: Prf, length: nat, ssid: seq<Byte>) returns (ret: int, ph: State?)
    ensures ret == 0 <==> 8 <= length <= 63
    ensures ret == 0 <==> ph != null
    ensures ret == 0 ==> fresh(ph) && fresh(ph.digest) && fresh(ph.output)
    ensures ret == 0 ==> ph.Valid() && ph.f == f && ph.ssid == ssid && ph.Pos() == 0
  {
    if length < 8 || length > 63 {
      return -1, null;
    }
    ph := new State(f, ssid);
    ret := 0;
  }

  /** A do_passhash for each of the numbers in steps. */
  method DoSteps(ph: State, steps: seq<nat>) returns (answers: seq<int>)
    requires ph.Valid() && ph.Pos() == 0
    modifies ph`count, ph`iters, ph.digest, ph.output
    ensures ph.Valid() && ph.Pos() == After(steps) && |answers| == |steps|
    ensures forall k :: 0 <= k < |steps| ==> answers[k] == LastAnswer(steps[..k + 1])
  {
    answers := [];
    var i := 0;
    while i < |steps|
      invariant 0 <= i <= |steps| == i + (|steps| - |answers|) && ph.Valid() && ph.Pos() == After(steps[..i])
      invariant forall k :: 0 <= k < i ==> answers[k] == LastAnswer(steps[..k + 1])
    {
      var ret := ph.DoPasshash(steps[i]);
      NextStep(steps, i);
      answers := answers + [ret];
      i := i + 1;
    }
    assert steps[..|steps|] == steps;
  }

  lemma NextStep(steps: seq<nat>, i: nat)
    requires i < |steps|
    ensures var pos := After(steps[..i]);
            && LastAnswer(steps[..i + 1]) == Answer(pos, steps[i])
            && After(steps[..i + 1]) == if pos == 2 * ITERATIONS then pos else Advance(pos, steps[i])
  {
    assert steps[..i + 1][..i] == steps[..i];
  }

  /** The key in steps: init_passhash, a do_passhash for each of the numbers in steps and
      get_passhash give the key of passhash, if the steps reach the end. They do so in
      8192 calls at the latest if each asks for some round. */
  method InSteps(f: Prf, length: nat, ssid: seq<Byte>, steps: seq<nat>, out: array<Byte>)
    returns (ret: int, answers: seq<int>)
    requires out.Length >= 40
    modifies out
    ensures ret == 0 <==> 8 <= length <= 63 && After(steps) == 2 * ITERATIONS
    ensures 8 <= length <= 63 && Positive(steps) && |steps| >= 2 * ITERATIONS ==> ret == 0
    ensures ret == 0 && |ssid| <= 32 ==> out[..40] == Key(f, ssid)
    ensures ret != 0 ==> out[..] == old(out[..])
    ensures 8 <= length <= 63 ==> |answers| == |steps|
    ensures forall k :: 0 <= k < |answers| == |steps| ==> answers[k] == LastAnswer(steps[..k + 1])
  {
    var ph;
    answers := [];
    ret, ph := InitPasshash(f, length, ssid);
    if ret != 0 {
      return;
    }
    answers := DoSteps(ph, steps);
    EveryRunEnds(steps);
    ret := ph.GetPasshash(out, 40);
  }
}
