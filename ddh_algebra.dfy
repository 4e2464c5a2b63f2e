/** The algebra shared by both versions of the DDH inner-product scheme: the key-pair
    relation that setup establishes, the value decrypt computes, and the identity
    that makes decryption of an encryption yield g^<x,y>. */
module DdhAlgebra {
  import opened ModArith
  import opened IpfeHelpers

  /** The relation setup establishes between the keys: h[i] = g^s[i] mod p. */
  ghost predicate KeyPair(g: int, p: int, mpk: MPK, msk: MSK)
    requires p > 0
    ensures KeyPair(g, p, mpk, msk) ==> forall i :: 0 <= i < |mpk.h| ==> 0 <= mpk.h[i] < p
  {
    |mpk.h| == |msk.s| && forall i :: 0 <= i < |msk.s| ==> mpk.h[i] == ModPow(g, msk.s[i], p)
  }

  /** Product, as plain integers, of the residues c[i]^y[i] mod p for i < n:
      decrypt's accumulator after n steps. */
  function ProdPow(c: seq<int>, y: seq<nat>, n: nat, p: int): (r: int)
    requires p > 0 && n <= |c| && n <= |y|
    ensures r >= 0
  {
    if n == 0 then 1 else ProdPow(c, y, n - 1, p) * ModPow(c[n - 1], y[n - 1], p)
  }

  /** What decrypt returns: the accumulated product divided, in the group, by ct0^key.
      It does not depend on the master public key. */
  function Recover(ct: CT, sk: SKy, y: seq<nat>, l: nat, p: int): (m: int)
    requires p > 1 && l <= |ct.cti| && l <= |y|
    requires Invertible(ModPow(ct.ct0, sk.key, p), p)
    ensures 0 <= m < p
    ensures (m * ModPow(ct.ct0, sk.key, p)) % p == ProdPow(ct.cti, y, l, p) % p
  {
    Div(ProdPow(ct.cti, y, l, p), ModPow(ct.ct0, sk.key, p), p)
  }

  /** If every c[i] encodes g^e[i], the product of the c[i]^y[i] encodes g^<e,y>. */
  lemma {:induction false} ProdPowEncodes(g: int, p: int, c: seq<int>, y: seq<nat>, e: seq<nat>, n: nat)
    requires p > 0 && n <= |c| && n <= |y| && n <= |e|
    requires forall i :: 0 <= i < n ==> c[i] == ModPow(g, e[i], p)
    ensures ProdPow(c, y, n, p) % p == ModPow(g, SumProd(e, y, n), p)
  {
    if n > 0 {
      var k := n - 1;
      ProdPowEncodes(g, p, c, y, e, k);
      var acc := ProdPow(c, y, k, p);
      ModMulLeft(acc, ModPow(c[k], y[k], p), p);
      ModPowPow(g, e[k], y[k], p);
      ModPowAdd(g, SumProd(e, y, k), e[k] * y[k], p);
    }
  }

  /** A ciphertext component h^r * g^x, with h = g^s, encodes g^(s*r + x). */
  lemma EncodeComponent(g: int, p: int, s: nat, r: nat, x: nat)
    requires p > 0
    ensures (ModPow(ModPow(g, s, p), r, p) * ModPow(g, x, p)) % p == ModPow(g, s * r + x, p)
  {
    ModPowPow(g, s, r, p);
    ModPowAdd(g, s * r, x, p);
  }

  /** The numerator of decryption encodes g^(r*<s,y> + <x,y>). */
  lemma NumeratorEncodes(g: int, p: int, s: seq<nat>, x: seq<nat>, y: seq<nat>, r: nat, c: seq<int>, l: nat)
    requires p > 0
    requires l <= |s| && l <= |x| && l <= |y| && l <= |c|
    requires forall i :: 0 <= i < l ==> c[i] == ModPow(g, s[i] * r + x[i], p)
    ensures ProdPow(c, y, l, p) % p == ModPow(g, r * SumProd(s, y, l) + SumProd(x, y, l), p)
  {
    var e: seq<nat> := seq(l, i requires 0 <= i < l => s[i] * r + x[i]);
    ProdPowEncodes(g, p, c, y, e, l);
    SumProdLinear(s, x, e, y, r, l);
  }

  /** The divisor of decryption, (g^r)^key, is g^(r*key) and is invertible. */
  lemma DivisorEncodes(g: int, p: int, r: nat, c0: int, key: nat)
    requires IsPrime(p) && g % p != 0
    requires c0 == ModPow(g, r, p)
    ensures ModPow(c0, key, p) == ModPow(g, r * key, p)
    ensures Invertible(ModPow(c0, key, p), p)
  {
    PowNonZero(g, r, p);
    SmallMod(c0, p);
    ModPowInvertible(c0, key, p);
    ModPowPow(g, r, key, p);
  }

  /** Dividing g^(r*k + a) by g^(r*k) leaves g^a. */
  lemma QuotientOfPowers(g: int, p: int, a: nat, r: nat, k: nat, num: int, d: int)
    requires p > 1 && Invertible(d, p)
    requires d == ModPow(g, r * k, p) && num % p == ModPow(g, r * k + a, p)
    ensures Div(num, d, p) == ModPow(g, a, p)
  {
    ModPowAdd(g, a, r * k, p);
    assert a + r * k == r * k + a;
    DivUnique(ModPow(g, a, p), num, d, p);
  }

  /** The scheme's correctness identity. With c0 = g^r, c[i] = g^(s[i]*r + x[i]) and
      key = <s,y>, the divisor c0^key is invertible and the recovered value is g^<x,y>. */
  lemma RecoverInnerProduct(g: int, p: int, s: seq<nat>, x: seq<nat>, y: seq<nat>, r: nat, ct: CT, sk: SKy, l: nat)
    requires IsPrime(p) && g % p != 0
    requires l <= |s| && l <= |x| && l <= |y| && l <= |ct.cti|
    requires ct.ct0 == ModPow(g, r, p)
    requires forall i :: 0 <= i < l ==> ct.cti[i] == ModPow(g, s[i] * r + x[i], p)
    requires sk.key == SumProd(s, y, l)
    ensures Invertible(ModPow(ct.ct0, sk.key, p), p)
    ensures Recover(ct, sk, y, l, p) == ModPow(g, SumProd(x, y, l), p)
  {
    var key, ip := sk.key, SumProd(x, y, l);
    DivisorEncodes(g, p, r, ct.ct0, key);
    NumeratorEncodes(g, p, s, x, y, r, ct.cti, l);
    QuotientOfPowers(g, p, ip, r, key, ProdPow(ct.cti, y, l, p), ModPow(ct.ct0, key, p));
  }
}
