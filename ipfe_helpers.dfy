/** The scheme's key and ciphertext records, and the integer inner product. */
module IpfeHelpers {

  /** Master public key: one group element h[i] = g^s[i] per coordinate. */
  datatype MPK = MPK(h: seq<int>)

  /** Master secret key: the exponents s[i]. */
  datatype MSK = MSK(s: seq<nat>)

  /** Ciphertext: ct0 = g^r and the components cti[i] = h[i]^r * g^x[i]. */
  datatype CT = CT(ct0: int, cti: seq<int>)

  /** Functional key for one query vector y: the (unreduced) sum of y[i] * s[i]. */
  datatype SKy = SKy(key: nat)

  /** Sum of a[i] * b[i] over the indices i < n; no modular reduction. */
  function SumProd(a: seq<int>, b: seq<int>, n: nat): (r: int)
    requires n <= |a| && n <= |b|
    ensures (forall i :: 0 <= i < n ==> a[i] >= 0 && b[i] >= 0) ==> r >= 0
  {
    if n == 0 then 0 else SumProd(a, b, n - 1) + a[n - 1] * b[n - 1]
  }

  /** The loop of inner_product: accumulate a[i] * b[i] over the indices of a. */
  method InnerProduct(a: seq<int>, b: seq<int>) returns (inner: int)
    requires |a| <= |b|
    ensures inner == SumProd(a, b, |a|)
    ensures |a| == 0 ==> inner == 0
  {
    var n := |a|;
    inner := 0;
    for i := 0 to n
      invariant inner == SumProd(a, b, i)
    {
      inner := inner + a[i] * b[i];
    }
  }

  /** The inner product is symmetric. */
  lemma {:induction false} SumProdComm(a: seq<int>, b: seq<int>, n: nat)
    requires n <= |a| && n <= |b|
    ensures SumProd(a, b, n) == SumProd(b, a, n)
  {
    if n > 0 {
      SumProdComm(a, b, n - 1);
    }
  }

  /** Only the first n entries of either vector matter. */
  lemma {:induction false} SumProdAgree(a: seq<int>, b: seq<int>, a': seq<int>, b': seq<int>, n: nat)
    requires n <= |a| && n <= |b| && n <= |a'| && n <= |b'|
    requires a[..n] == a'[..n] && b[..n] == b'[..n]
    ensures SumProd(a, b, n) == SumProd(a', b', n)
  {
    if n > 0 {
      assert a[n - 1] == a[..n][n - 1] && a'[n - 1] == a'[..n][n - 1];
      assert b[n - 1] == b[..n][n - 1] && b'[n - 1] == b'[..n][n - 1];
      assert a[..n - 1] == a[..n][..n - 1] && a'[..n - 1] == a'[..n][..n - 1];
      assert b[..n - 1] == b[..n][..n - 1] && b'[..n - 1] == b'[..n][..n - 1];
      SumProdAgree(a, b, a', b', n - 1);
    }
  }

  /** Linearity in the first vector: if e[i] = s[i] * r + x[i] then
      <e, y> = r * <s, y> + <x, y>. */
  lemma {:induction false} SumProdLinear(s: seq<int>, x: seq<int>, e: seq<int>, y: seq<int>, r: int, n: nat)
    requires n <= |s| && n <= |x| && n <= |e| && n <= |y|
    requires forall i :: 0 <= i < n ==> e[i] == s[i] * r + x[i]
    ensures SumProd(e, y, n) == r * SumProd(s, y, n) + SumProd(x, y, n)
  {
    if n > 0 {
      SumProdLinear(s, x, e, y, r, n - 1);
      var k := n - 1;
      assert e[k] * y[k] == r * (s[k] * y[k]) + x[k] * y[k];
      assert r * SumProd(s, y, n) == r * SumProd(s, y, k) + r * (s[k] * y[k]);
    }
  }
}
