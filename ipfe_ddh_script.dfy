/** The same scheme written as a script: the group parameters are module globals fixed
    at start-up, and encryption, key derivation and decryption always work on the
    global vector length L = 5 rather than on a length argument. */
module IpfeDdhScript {
  import opened ModArith
  import opened IpfeHelpers
  import opened DdhAlgebra
  import IpfeDdh

  /** The script's fixed vector length. */
  const L: nat := 5

  /** The global group modulus p and generator g, produced once by parameter generation. */
  datatype Globals = Globals(p: int, g: int)

  ghost predicate Valid(G: Globals) {
    IsPrime(G.p) && G.g % G.p != 0
  }

  /** l samples of the group's random source, each reduced modulo p. */
  function RandomVector(l: nat, p: int, draws: seq<int>): (v: seq<nat>)
    requires p > 0 && |draws| == l
    ensures |v| == l
    ensures forall i :: 0 <= i < l ==> v[i] < p
  {
    seq(l, i requires 0 <= i < l => draws[i] % p)
  }

  /** Samples l secret exponents and publishes h[i] = g^s[i]. */
  function Setup(G: Globals, l: nat, draws: seq<int>): (keys: (MPK, MSK))
    requires Valid(G) && |draws| == l
    ensures |keys.0.h| == l && |keys.1.s| == l
    ensures forall i :: 0 <= i < l ==> keys.1.s[i] < G.p
    ensures KeyPair(G.g, G.p, keys.0, keys.1)
  {
    var s := RandomVector(l, G.p, draws);
    (MPK(seq(l, i requires 0 <= i < l => ModPow(G.g, s[i], G.p))), MSK(s))
  }

  /** Always builds exactly L components cti[i] = h[i]^r * g^x[i], with ct0 = g^r. */
  function Encrypt(G: Globals, mpk: MPK, x: seq<nat>, r: nat): (ct: CT)
    requires Valid(G) && L <= |mpk.h| && L <= |x|
    ensures ct.ct0 == ModPow(G.g, r, G.p) && |ct.cti| == L
    ensures forall i :: 0 <= i < L ==> ct.cti[i] == (ModPow(mpk.h[i], r, G.p) * ModPow(G.g, x[i], G.p)) % G.p
  {
    CT(ModPow(G.g, r, G.p), seq(L, i requires 0 <= i < L => (ModPow(mpk.h[i], r, G.p) * ModPow(G.g, x[i], G.p)) % G.p))
  }

  /** The functional key: <s, y> over the first L coordinates, never reduced modulo p. */
  function Keyder(msk: MSK, y: seq<nat>): (sk: SKy)
    requires L <= |y| && L <= |msk.s|
    ensures sk.key == SumProd(msk.s, y, L)
  {
    SumProdComm(y, msk.s, L);
    SKy(SumProd(y, msk.s, L))
  }

  /** Multiplies the residues cti[i]^y[i] for i < L as plain integers, then divides the
      product in the group by ct0^key. The master public key is not used. */
  method Decrypt(G: Globals, mpk: MPK, ct: CT, sk: SKy, y: seq<nat>) returns (res: int)
    requires Valid(G) && L <= |ct.cti| && L <= |y|
    requires Invertible(ModPow(ct.ct0, sk.key, G.p), G.p)
    ensures res == Recover(ct, sk, y, L, G.p)
  {
    var tmp := seq(L, i requires 0 <= i < L => ModPow(ct.cti[i], y[i], G.p));
    res := 1;
    for i := 0 to L
      invariant res == ProdPow(ct.cti, y, i, G.p)
    {
      res := res * tmp[i];
    }
    res := Div(res, ModPow(ct.ct0, sk.key, G.p), G.p);
  }

  /** The end-to-end run of the script: set up, draw x, encrypt it, draw y, derive its key;
      decryption is then defined and equals g^expected with expected = <x, y>. */
  lemma MainCheck(G: Globals, sDraws: seq<int>, xDraws: seq<int>, yDraws: seq<int>, r: nat)
    requires Valid(G) && |sDraws| == L && |xDraws| == L && |yDraws| == L
    ensures var keys := Setup(G, L, sDraws);
            var x := RandomVector(L, G.p, xDraws);
            var y := RandomVector(L, G.p, yDraws);
            var ct := Encrypt(G, keys.0, x, r);
            var sk := Keyder(keys.1, y);
            Invertible(ModPow(ct.ct0, sk.key, G.p), G.p) &&
            Recover(ct, sk, y, L, G.p) == ModPow(G.g, SumProd(x, y, L), G.p)
  {
    var keys := Setup(G, L, sDraws);
    var x := RandomVector(L, G.p, xDraws);
    var y := RandomVector(L, G.p, yDraws);
    var ct := Encrypt(G, keys.0, x, r);
    forall i | 0 <= i < L
      ensures ct.cti[i] == ModPow(G.g, keys.1.s[i] * r + x[i], G.p)
    {
      EncodeComponent(G.g, G.p, keys.1.s[i], r, x[i]);
    }
    RecoverInnerProduct(G.g, G.p, keys.1.s, x, y, r, ct, Keyder(keys.1, y), L);
  }

  /** The script computes what the class computes with l = L over the same group. */
  lemma MatchesClass(obj: IpfeDdh.IPFEDDH, G: Globals, mpk: MPK, msk: MSK, x: seq<nat>, y: seq<nat>, r: nat, draws: seq<int>)
    requires Valid(G) && obj.p == G.p && obj.g == G.g
    requires L <= |mpk.h| && L <= |x| && L <= |msk.s| && L <= |y| && |draws| == L
    ensures Setup(G, L, draws) == obj.Setup(L, draws)
    ensures Encrypt(G, mpk, x, r) == obj.Encrypt(mpk, x, L, r)
    ensures Keyder(msk, y) == obj.Keyder(msk, y, L)
  {
  }
}
