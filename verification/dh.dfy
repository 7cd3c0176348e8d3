/** Diffie-Hellman key agreement. */
module DiffieHellman {
  import opened Words
  import opened Bignum
  import opened Bytes
  import opened Modular
  import opened Montgomery
  import opened Power
  import opened ModExp
  import ModExpWord
  import Product

  // ----- what the two parties compute

  /** The public key for the private key x. */
  ghost function PublicKey(g: nat, x: nat, p: nat): seq<Byte>
    requires p > 0
  {
    PowerNotNegative(g, x, p);
    BytesOf(PowerMod(g, x, p))
  }

  /** The shared key from the bytes of the other party's public key. */
  ghost function SharedKey(peer: seq<Byte>, x: nat, p: nat): seq<Byte>
    requires p > 0
  {
    PowerNotNegative(BytesVal(peer), x, p);
    BytesOf(PowerMod(BytesVal(peer), x, p))
  }

  lemma {:induction false} ExpMul(g: int, x: nat, y: nat)
    ensures x * y >= 0 && Exp(Exp(g, y), x) == Exp(g, x * y)
  {
    if x == 0 {
      assert x * y == 0;
    } else {
      ExpMul(g, x - 1, y);
      Distrib(x, 1, y);
      ExpAdd(g, y, (x - 1) * y);
    }
  }

  /** The power of a reduced power is the reduced power to the product. */
  lemma PowerOfPower(g: int, x: nat, y: nat, p: nat)
    requires p > 1
    ensures x * y >= 0 && PowerMod(PowerMod(g, y, p), x, p) == Exp(g, x * y) % p
  {
    var u, v := Exp(g, y), PowerMod(g, y, p);
    PowerIsReduced(g, y, p);
    PowerIsReduced(v, x, p);
    CongResidue(u, p);
    CongExp(u, v, x, p);
    ExpMul(g, x, y);
    ResidueIsMod(Exp(v, x), p);
    ResidueIsMod(Exp(u, x), p);
  }

  lemma PowerNotNegative(g: nat, x: nat, p: nat)
    requires p > 0
    ensures 0 <= PowerMod(g, x, p) <= p && (p > 1 ==> PowerMod(g, x, p) < p)
  {
    PowerIsReduced(g, x, p);
    CongResidue(Exp(g, x), p);
  }

  /** Whatever the private keys, each party computes the same bytes from the public key
      of the other. */
  lemma KeyAgreement(g: nat, x: nat, y: nat, p: nat)
    requires p > 1
    ensures SharedKey(PublicKey(g, y, p), x, p) == SharedKey(PublicKey(g, x, p), y, p)
  {
    PowerNotNegative(g, x, p);
    PowerNotNegative(g, y, p);
    ValueOfBytes(PowerMod(g, x, p));
    ValueOfBytes(PowerMod(g, y, p));
    PowerOfPower(g, x, y, p);
    PowerOfPower(g, y, x, p);
    MulEqual(x, y, y);
  }

  /** Modulo one the agreement can fail, because the exponent zero gives one. */
  lemma NoAgreementModuloOne(g: nat)
    ensures SharedKey(PublicKey(g, 1, 1), 0, 1) != SharedKey(PublicKey(g, 0, 1), 1, 1)
  {
    ValueOfBytes(1);
    assert Exp(1, 1) == 1;
    assert BytesOf(1) == [1];
  }

  /** And exactly then: when one of the keys is zero and the other is not. */
  lemma AgreementModuloOne(g: nat, x: nat, y: nat)
    ensures SharedKey(PublicKey(g, y, 1), x, 1) == SharedKey(PublicKey(g, x, 1), y, 1) <==> (x == 0 <==> y == 0)
  {
    ValueOfBytes(PowerMod(g, x, 1));
    ValueOfBytes(PowerMod(g, y, 1));
    assert BytesOf(0) == [] && BytesOf(1) == [1];
  }

  /** All private keys lead to an agreement exactly if p is not one. */
  lemma AllAgree(g: nat, p: nat)
    requires p > 0
    ensures (forall x: nat, y: nat :: SharedKey(PublicKey(g, y, p), x, p) == SharedKey(PublicKey(g, x, p), y, p))
        <==> p > 1
  {
    if p > 1 {
      forall x: nat, y: nat ensures SharedKey(PublicKey(g, y, p), x, p) == SharedKey(PublicKey(g, x, p), y, p) {
        KeyAgreement(g, x, y, p);
      }
    } else {
      NoAgreementModuloOne(g);
    }
  }

  /** Only zero has no bytes. */
  lemma NoBytes(v: nat)
    ensures |BytesOf(v)| == 0 <==> v == 0
  {
  }

  // ----- the code

  /** dh_bn_mod_exp: a base of one word takes the way of its own. */
  method DhModExp(r: Big, a: Big, e: Big, m: Big, mont: Mont?) returns (ok: bool)
    requires r.Valid() && a.Valid() && e.Valid() && m.Valid() && m.top > 0 && !a.neg && r.Sep(a) && a.Sep(e)
    requires mont != null && m.Mag() % 2 == 1 ==> ContextFor(mont, m, r, e) && ApartFrom(mont.RR, m)
    requires mont != null ==> ApartFrom(mont.N, a) && ApartFrom(mont.RR, a)
    modifies r, r.d, a.d, Spare(mont)
    ensures ok <==> old(m.Mag()) % 2 == 1
    ensures ok ==> r.Valid() && r.Int() == PowerMod(old(a.Mag()), old(e.Mag()), old(m.Mag()))
    ensures r.d == old(r.d) || fresh(r.d)
    ensures mont != null && ok ==> Ready(mont)
    ensures r != a ==> a.Valid() && a.d[..a.top] == old(a.d[..a.top])
  {
    if a.top == 1 {
      a.OneWord();
      var A := a.d[0];
      ok := ModExpWord.ModExpMontWord(r, A, e, m, mont);
    } else {
      ok := ModExpMont(r, a, e, m, mont);
    }
  }

  /** What a party owns. */
  class DH {
    const p: Big
    const g: Big
    var pubKey: Big?
    var privKey: Big?
    var cache: bool // DH_FLAG_CACHE_MONT_P
    var mont: Mont? // method_mont_p

    /** The parameters: neither is negative and p is not zero. */
    ghost predicate Parameters()
      reads p, p.d, g, g.d
    {
      p.Valid() && g.Valid() && p.top > 0 && p.Mag() > 0 && !g.neg && p != g && p.d != g.d
    }

    /** The cached context, if there is one, is for p. */
    ghost predicate Cached()
      requires p.Valid()
      reads this, p, p.d, g, mont, if mont == null then {} else {mont.N, mont.RR}
      reads if mont == null then {} else {mont.N.d, mont.RR.d}
    {
      mont != null ==>
        && ApartFrom(mont.N, p) && ApartFrom(mont.RR, p) && ApartFrom(mont.N, g) && ApartFrom(mont.RR, g)
        && (p.Mag() % 2 == 1 ==> Ready(mont) && mont.N.Mag() == p.Mag())
    }

    /** The keys, once there are any: the public one is the power to the private one. */
    ghost predicate Keys()
      requires Parameters()
      reads this, p, p.d, g, g.d, pubKey, if pubKey == null then {} else {pubKey.d}
      reads privKey, if privKey == null then {} else {privKey.d}
      reads mont, if mont == null then {} else {mont.RR}
    {
      && (pubKey == null <==> privKey == null)
      && (pubKey != null ==>
           && pubKey.Valid() && privKey.Valid() && pubKey.d != g.d && privKey.d != g.d
           && (mont != null ==> ApartFrom(mont.RR, pubKey) && ApartFrom(mont.RR, privKey))
           && pubKey.Mag() == PowerMod(g.Mag(), privKey.Mag(), p.Mag()))
    }

    /** DH_init, from the bytes of p and a small number g. */
    constructor (pbuf: seq<Byte>, g0: Word)
      ensures p.Valid() && g.Valid() && p.Mag() == BytesVal(pbuf) && g.Mag() == g0 && !g.neg
      ensures Parameters() <==> BytesVal(pbuf) > 0
      ensures pubKey == null && privKey == null && mont == null && cache
      ensures fresh(p) && fresh(p.d) && fresh(g) && fresh(g.d)
    {
      var p1 := new Big();
      Bin2Bn(pbuf, p1);
      var g1 := new Big();
      g1.SetWord(g0);
      p, g, pubKey, privKey, cache, mont := p1, g1, null, null, true, null;
      new;
      p.ZeroTop();
    }

    /** The context stays for p while only the spare words of RR are written. */
    twostate lemma ContextKept()
      requires old(p.Valid() && Cached()) && unchanged(this, p, g) && unchanged(p.d)
      requires mont != null ==> unchanged(mont) && unchanged(mont.N, mont.RR)
      requires mont != null && p.Mag() % 2 == 1 ==> Ready(mont) && unchanged(mont.N.d)
      ensures p.Valid() && p.Mag() == old(p.Mag()) && Cached()
    {
    }

    /** And so do the keys. */
    twostate lemma KeysKept()
      requires old(Parameters() && Keys()) && unchanged(this, p, g) && unchanged(p.d, g.d) && pubKey != null
      requires unchanged(pubKey, privKey) && unchanged(pubKey.d) && privKey.Valid()
      requires privKey.Mag() == old(privKey.Mag())
      requires mont != null ==> unchanged(mont) && unchanged(mont.RR)
      ensures Parameters() && Keys()
    {
    }

    /** A new context for p. */
    method NewContext() returns (ok: bool)
      requires Parameters()
      modifies `mont
      ensures Parameters() && mont != null && Cached() && ok == (p.Mag() % 2 == 1)
      ensures fresh(mont) && fresh(mont.N) && fresh(mont.N.d) && fresh(mont.RR) && fresh(mont.RR.d)
    {
      mont := new Mont();
      ok := Set(mont, p);
    }

    static method NewPair(random: seq<Byte>) returns (pub: Big, priv: Big)
      ensures fresh(pub) && fresh(pub.d) && fresh(priv) && fresh(priv.d) && pub.Valid() && pub.Sep(priv) && pub != priv
      ensures priv.Valid() && priv.Mag() == BytesVal(random)
    {
      pub := new Big();
      priv := new Big();
      Bin2Bn(random, priv);
    }

    /** The private key from random bytes and the public key that goes with it. */
    method NewKeys(random: seq<Byte>) returns (ok: bool, pub: Big, priv: Big)
      requires Parameters() && Cached()
      modifies g.d, Spare(mont)
      ensures Parameters() && g.Mag() == old(g.Mag()) && p.Mag() == old(p.Mag()) && Cached()
      ensures fresh(pub) && fresh(pub.d) && fresh(priv) && fresh(priv.d) && ok == (p.Mag() % 2 == 1)
      ensures priv.Valid() && priv.Mag() == BytesVal(random)
      ensures ok ==> pub.Valid() && pub.Int() == PowerMod(g.Mag(), BytesVal(random), p.Mag())
    {
      pub, priv := NewPair(random);
      ok := DhModExp(pub, g, priv, p, mont);
      ContextKept();
    }

    /** What is asked of a buffer for a key: BN_bn2bin does not look at its length. */
    ghost predicate Room(buf: array?<Byte>)
      requires Parameters()
      reads p, p.d, g, g.d
    {
      buf != null ==> |BytesOf(p.Mag())| <= buf.Length
    }

    /** DH_generate_key. The secret exponent of BN_rand is that of the given bytes; with
        keys at hand their public part is given out again. It fails, with zero, for an
        even p; a public key of zero has no bytes and looks the same. */
    method GenerateKey(random: seq<Byte>, pubbuf: array?<Byte>) returns (ret: nat)
      requires Parameters() && Cached() && Keys() && Room(pubbuf)
      modifies this, g.d, Spare(mont)
      modifies if pubbuf == null then {} else {pubbuf}
      ensures Parameters() && p.Mag() == old(p.Mag()) && g.Mag() == old(g.Mag())
      ensures Keys() && Cached() && cache == old(cache)
      ensures old(pubKey) != null ==> pubKey == old(pubKey) && privKey == old(privKey)
      ensures old(pubKey) == null ==> (pubKey != null <==> p.Mag() % 2 == 1)
      ensures old(pubKey) == null && pubKey != null ==> privKey.Mag() == BytesVal(random)
      ensures pubKey == null ==> ret == 0
      ensures pubKey != null ==> ret == |PublicKey(g.Mag(), privKey.Mag(), p.Mag())|
      ensures pubKey != null ==> (ret == 0 <==> PowerMod(g.Mag(), privKey.Mag(), p.Mag()) == 0)
      ensures pubKey != null && pubbuf != null ==>
                ret <= pubbuf.Length && pubbuf[..ret] == PublicKey(g.Mag(), privKey.Mag(), p.Mag())
    {
      if pubKey == null {
        var ok := FirstKeys(random);
        if !ok {
          return 0;
        }
      }
      ret := GiveOut(pubbuf);
    }

    /** The public key that is there. */
    method GiveOut(pubbuf: array?<Byte>) returns (ret: nat)
      requires Parameters() && Cached() && Keys() && pubKey != null && Room(pubbuf)
      modifies if pubbuf == null then {} else {pubbuf}
      ensures Parameters() && Cached() && Keys()
      ensures p.Mag() == old(p.Mag()) && g.Mag() == old(g.Mag()) && privKey.Mag() == old(privKey.Mag())
      ensures ret == |PublicKey(g.Mag(), privKey.Mag(), p.Mag())|
      ensures ret == 0 <==> PowerMod(g.Mag(), privKey.Mag(), p.Mag()) == 0
      ensures pubbuf != null ==>
                ret <= pubbuf.Length && pubbuf[..ret] == PublicKey(g.Mag(), privKey.Mag(), p.Mag())
    {
      PowerNotNegative(g.Mag(), privKey.Mag(), p.Mag());
      NoBytes(pubKey.Mag());
      ret := PutKey(pubKey, pubbuf);
    }

    /** The first time: a context, if it is to be cached, and the keys. */
    method FirstKeys(random: seq<Byte>) returns (ok: bool)
      requires Parameters() && Cached() && pubKey == null && privKey == null
      modifies this, g.d, Spare(mont)
      ensures Parameters() && p.Mag() == old(p.Mag()) && g.Mag() == old(g.Mag())
      ensures Keys() && Cached() && cache == old(cache) && ok == (p.Mag() % 2 == 1) == (pubKey != null)
      ensures ok ==> privKey.Mag() == BytesVal(random)
    {
      ok := true;
      if cache {
        ok := NewContext();
      }
      if ok {
        ok := SetKeys(random);
      }
    }

    method SetKeys(random: seq<Byte>) returns (ok: bool)
      requires Parameters() && Cached() && pubKey == null && privKey == null
      modifies `pubKey, `privKey, g.d, Spare(mont)
      ensures Parameters() && p.Mag() == old(p.Mag()) && g.Mag() == old(g.Mag())
      ensures Keys() && Cached() && ok == (p.Mag() % 2 == 1) == (pubKey != null)
      ensures ok ==> privKey.Mag() == BytesVal(random)
    {
      var pub, priv;
      ok, pub, priv := NewKeys(random);
      if ok {
        PowerNotNegative(g.Mag(), BytesVal(random), p.Mag());
        pub.ZeroTop();
        pubKey, privKey := pub, priv;
      }
    }

    /** The bytes of a key, or only their number. */
    method PutKey(key: Big, buf: array?<Byte>) returns (n: nat)
      requires Parameters() && key.Valid() && key.Mag() <= p.Mag() && Room(buf)
      modifies if buf == null then {} else {buf}
      ensures n == |BytesOf(key.Mag())| && (buf != null ==> n <= buf.Length && buf[..n] == BytesOf(key.Mag()))
    {
      FewerBytes(key.Mag(), p.Mag());
      if buf != null {
        n := Bn2Bin(key, buf);
      } else {
        n := NumBytes(key);
        CountBytes(key.Mag(), n);
      }
    }

    /** DH_compute_key_bn, which does not check the other party's number. */
    method ComputeKeyBn(key: array<Byte>, peer: Big) returns (ret: int)
      requires Parameters() && Cached() && Keys() && Room(key)
      requires peer.Valid() && !peer.neg && peer.d != p.d && peer.d != g.d
      requires privKey != null ==> peer.Sep(privKey) && peer.d != pubKey.d
      requires mont != null ==> ApartFrom(mont.N, peer) && ApartFrom(mont.RR, peer)
      modifies `mont, peer.d, Spare(mont), key
      ensures Parameters() && Cached() && Keys()
      ensures ret == -1 <==> privKey == null || p.Mag() % 2 == 0
      ensures ret != -1 ==> 0 <= ret <= key.Length
      ensures ret != -1 ==> key[..ret] == BytesOf(PowerMod(old(peer.Mag()), privKey.Mag(), p.Mag()))
    {
      if privKey == null {
        return -1;
      }
      var ok := true;
      if mont == null && cache {
        ok := NewContext();
      }
      if ok {
        ret := SharedBytes(key, peer);
      } else {
        ret := -1;
      }
    }

    method SharedBytes(key: array<Byte>, peer: Big) returns (ret: int)
      requires Parameters() && Cached() && Keys() && privKey != null && Room(key)
      requires peer.Valid() && !peer.neg && peer.d != p.d && peer.d != g.d && peer.Sep(privKey) && peer.d != pubKey.d
      requires mont != null ==> ApartFrom(mont.N, peer) && ApartFrom(mont.RR, peer)
      modifies peer.d, Spare(mont), key
      ensures Parameters() && Cached() && Keys()
      ensures ret == -1 <==> p.Mag() % 2 == 0
      ensures ret != -1 ==> 0 <= ret <= key.Length
      ensures ret != -1 ==> key[..ret] == BytesOf(PowerMod(old(peer.Mag()), privKey.Mag(), p.Mag()))
    {
      var ok, tmp := Shared(peer);
      if ok {
        ret := PutShared(tmp, key);
      } else {
        ret := -1;
      }
    }

    /** The bytes of the shared key. */
    method PutShared(tmp: Big, key: array<Byte>) returns (ret: nat)
      requires Parameters() && Cached() && Keys() && privKey != null && Room(key)
      requires tmp.Valid() && tmp.Mag() <= p.Mag()
      modifies key
      ensures Parameters() && Cached() && Keys()
      ensures p.Mag() == old(p.Mag()) && privKey.Mag() == old(privKey.Mag())
      ensures ret <= key.Length && key[..ret] == BytesOf(old(tmp.Mag()))
    {
      ret := PutKey(tmp, key);
    }

    /** The power of the other party's number. */
    method Shared(peer: Big) returns (ok: bool, tmp: Big)
      requires Parameters() && Cached() && Keys() && privKey != null
      requires peer.Valid() && !peer.neg && peer.d != p.d && peer.d != g.d && peer.Sep(privKey) && peer.d != pubKey.d
      requires mont != null ==> ApartFrom(mont.N, peer) && ApartFrom(mont.RR, peer)
      modifies peer.d, Spare(mont)
      ensures Parameters() && Cached() && Keys() && ok == (p.Mag() % 2 == 1)
      ensures privKey.Mag() == old(privKey.Mag()) && p.Mag() == old(p.Mag())
      ensures fresh(tmp) && (ok ==> tmp.Valid() && tmp.Mag() <= p.Mag())
      ensures ok ==> tmp.Mag() == PowerMod(old(peer.Mag()), privKey.Mag(), p.Mag())
    {
      tmp := Product.CtxGet();
      ok := DhModExp(tmp, peer, privKey, p, mont);
      ContextKept();
      KeysKept();
      if ok {
        PowerNotNegative(old(peer.Mag()), privKey.Mag(), p.Mag());
        tmp.ZeroTop();
      }
    }

    /** DH_compute_key */
    method ComputeKey(key: array<Byte>, pubbuf: seq<Byte>) returns (ret: int)
      requires Parameters() && Cached() && Keys() && Room(key)
      modifies `mont, Spare(mont), key
      ensures Parameters() && Cached() && Keys()
      ensures ret == -1 <==> privKey == null || p.Mag() % 2 == 0
      ensures ret != -1 ==> 0 <= ret <= key.Length && key[..ret] == SharedKey(pubbuf, privKey.Mag(), p.Mag())
    {
      var peer := new Big();
      Bin2Bn(pubbuf, peer);
      ret := ComputeKeyBn(key, peer);
    }
  }
}
