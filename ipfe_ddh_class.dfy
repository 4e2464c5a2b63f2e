/** The DDH-based inner-product functional encryption scheme as an object that owns
    its group parameters: the modulus p and the generator g, fixed at construction. */
module IpfeDdh {
  import opened ModArith
  import opened IpfeHelpers
  import opened DdhAlgebra

  class IPFEDDH {
    /** Group modulus and generator. Both are constant: no operation changes them. */
    const p: int
    const g: int

    /** The group is Z_p^* for a prime p, and g is a non-zero residue. */
    ghost predicate Valid() {
      IsPrime(p) && g % p != 0
    }

    /** Takes the parameters that the group's parameter generation produced. */
    constructor(p: int, g: int)
      requires IsPrime(p) && g % p != 0
      ensures this.p == p && this.g == g
      ensures Valid()
    {
      this.p := p;
      this.g := g;
    }

    /** l samples of the group's random source, each reduced modulo the given modulus. */
    function RandomVector(l: nat, modulus: int, draws: seq<int>): (v: seq<nat>)
      requires modulus > 0 && |draws| == l
      ensures |v| == l
      ensures forall i :: 0 <= i < l ==> v[i] < modulus
    {
      seq(l, i requires 0 <= i < l => draws[i] % modulus)
    }

    /** Samples the secret exponents and publishes h[i] = g^s[i]. */
    function Setup(l: nat, draws: seq<int>): (keys: (MPK, MSK))
      requires Valid() && |draws| == l
      ensures |keys.0.h| == l && |keys.1.s| == l
      ensures forall i :: 0 <= i < l ==> keys.1.s[i] < p
      ensures KeyPair(g, p, keys.0, keys.1)
    {
      var s := RandomVector(l, p, draws);
      (MPK(seq(l, i requires 0 <= i < l => ModPow(g, s[i], p))), MSK(s))
    }

    /** Encrypts the first l coordinates of x under the random exponent r:
        ct0 = g^r and cti[i] = h[i]^r * g^x[i]. */
    function Encrypt(mpk: MPK, x: seq<nat>, l: nat, r: nat): (ct: CT)
      requires Valid() && l <= |mpk.h| && l <= |x|
      ensures ct.ct0 == ModPow(g, r, p) && |ct.cti| == l
      ensures forall i :: 0 <= i < l ==> ct.cti[i] == (ModPow(mpk.h[i], r, p) * ModPow(g, x[i], p)) % p
    {
      CT(ModPow(g, r, p), seq(l, i requires 0 <= i < l => (ModPow(mpk.h[i], r, p) * ModPow(g, x[i], p)) % p))
    }

    /** The functional key for y: the inner product <s, y> over the first l coordinates,
        as an integer that is never reduced modulo p. */
    function Keyder(msk: MSK, y: seq<nat>, l: nat): (sk: SKy)
      requires l <= |y| && l <= |msk.s|
      ensures sk.key == SumProd(msk.s, y, l)
    {
      SumProdComm(y, msk.s, l);
      SKy(SumProd(y, msk.s, l))
    }

    /** Multiplies the residues cti[i]^y[i] as plain integers, then divides the product
        in the group by ct0^key. The master public key is not used. */
    method Decrypt(mpk: MPK, ct: CT, sk: SKy, y: seq<nat>, l: nat) returns (res: int)
      requires Valid() && l <= |ct.cti| && l <= |y|
      requires Invertible(ModPow(ct.ct0, sk.key, p), p)
      ensures res == Recover(ct, sk, y, l, p)
    {
      var tmp := seq(l, i requires 0 <= i < l => ModPow(ct.cti[i], y[i], p));
      res := 1;
      for i := 0 to |tmp|
        invariant res == ProdPow(ct.cti, y, i, p)
      {
        res := res * tmp[i];
      }
      res := Div(res, ModPow(ct.ct0, sk.key, p), p);
    }

    /** Under keys made by setup, each ciphertext component is g^(s[i]*r + x[i]). */
    lemma EncryptEncodes(mpk: MPK, msk: MSK, x: seq<nat>, l: nat, r: nat)
      requires Valid() && KeyPair(g, p, mpk, msk) && l <= |msk.s| && l <= |x|
      ensures Encrypt(mpk, x, l, r).ct0 == ModPow(g, r, p)
      ensures forall i :: 0 <= i < l ==> Encrypt(mpk, x, l, r).cti[i] == ModPow(g, msk.s[i] * r + x[i], p)
    {
      var ct := Encrypt(mpk, x, l, r);
      forall i | 0 <= i < l
        ensures ct.cti[i] == ModPow(g, msk.s[i] * r + x[i], p)
      {
        EncodeComponent(g, p, msk.s[i], r, x[i]);
      }
    }

    /** Correctness: decrypting an encryption of x with the key for y gives g^<x,y>. */
    lemma Correctness(mpk: MPK, msk: MSK, x: seq<nat>, y: seq<nat>, l: nat, r: nat)
      requires Valid() && KeyPair(g, p, mpk, msk)
      requires l <= |msk.s| && l <= |x| && l <= |y|
      ensures Invertible(ModPow(Encrypt(mpk, x, l, r).ct0, Keyder(msk, y, l).key, p), p)
      ensures Recover(Encrypt(mpk, x, l, r), Keyder(msk, y, l), y, l, p) == ModPow(g, SumProd(x, y, l), p)
    {
      var ct, sk := Encrypt(mpk, x, l, r), Keyder(msk, y, l);
      EncryptEncodes(mpk, msk, x, l, r);
      assert sk.key == SumProd(msk.s, y, l);
      RecoverInnerProduct(g, p, msk.s, x, y, r, ct, sk, l);
    }
  }
}
