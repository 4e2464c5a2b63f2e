# DDH inner-product functional encryption, modelled in Dafny

This project models the inner-product functional encryption (IPFE) scheme of
`imp-ipfe-ddh-demo-charm`. The scheme's security rests on the Decisional Diffie-Hellman assumption.
It has four algorithms:

- `setup` draws secret exponents `s[i]` and publishes `h[i] = g^s[i]`.
- `encrypt` turns a vector `x` into `ct0 = g^r` and `cti[i] = h[i]^r * g^x[i]`.
- `keyder` turns a query vector `y` into the key `<s, y>`.
- `decrypt` multiplies the `cti[i]^y[i]` and divides the product by `ct0^key`.

The composition yields `g^<x, y>`.

The repository contains the scheme twice, and both copies are modelled:

- `ipfe_ddh_class.dfy` models the class `IPFEDDH` in `ipfeddh.py`. The modulus `p` and the
  generator `g` are `const` fields set by the constructor, so no operation can change them.
  `random_vector`, `setup`, `encrypt` and `keyder` are functions. `decrypt` is a method whose
  loop multiplies into `res`.
- `ipfe_ddh_script.dfy` models the script `ipfe-ddh.py`. Its globals `p` and `g`
  (ipfe-ddh.py:13-16) are a value of the datatype `IpfeDdhScript.Globals`. Its vector length
  is the constant `IpfeDdhScript.L = 5` (ipfe-ddh.py:10). Encryption, key derivation
  and decryption use `L` and take no length argument. The lemma `MainCheck` states the
  equality that the script's `main` prints.

The shared parts are:

- `ipfe_helpers.dfy` holds the records `MPK`, `MSK`, `CT` and `SKy` as datatypes. It also
  holds `inner_product`, a loop proved against the recursive specification `SumProd`.
- `mod_arith.dfy` makes the integer group concrete as arithmetic modulo `p`:
  - `ModPow(b, e, p)` is `b^e mod p`.
  - A group product is a product reduced modulo `p`.
  - A group division `a / b` multiplies `a` by the inverse of `b` and reduces modulo `p`.
    The inverse comes from the extended Euclidean algorithm. `b` must be invertible, that is,
    `gcd(b mod p, p) = 1`.
- `ddh_algebra.dfy` holds three things shared by both copies:
  - the key-pair relation `h[i] = g^s[i]`;
  - `Recover`, the value that decryption computes;
  - the correctness identity.

Four details of the code are kept as written:

- The functional key is an unreduced integer sum.
- `decrypt` multiplies plain integers, namely the residues of `cti[i]^y[i]`. The product is
  reduced modulo `p` only by the division.
- `decrypt` never reads the master public key. Its result is `Recover(ct, sk, y, l, p)`,
  which has no key parameter.
- The exponents `s`, `x` and `y` are natural numbers. `random_vector` reduces its samples
  into `[0, p)`, and `r` is the integer value of a group sample.

Randomness is an input. The samples drawn by `random_vector` are the `draws` argument, and
encryption's exponent is the `r` argument.

The code differs from a stricter reading of the scheme in three ways, and the model follows
the code:

- Lengths are never checked. Each operation only indexes its inputs, so the lengths it needs
  are preconditions, and vectors may be longer than `l`.
- `keyder` does not reduce the key modulo `p`.
- `setup` does not reject `l = 0`.

## Model

| member | source | states |
|---|---|---|
| `IpfeHelpers.SumProd` | ipfehelpers.py:44-48 | specification of the accumulation `Σ_{i<n} a[i]*b[i]`; its contract: for non-negative vectors the sum is non-negative, which is why the functional key is a natural number |
| `IpfeHelpers.InnerProduct` | ipfehelpers.py:34-48 | after the loop, `inner` is the sum of `a[i]*b[i]` over every index of `a` (loop invariant: partial sum over indices `< i`); it is 0 for an empty `a`; needs `b` at least as long as `a` |
| `IpfeHelpers.SumProdComm` | ipfeddh.py:41 | `<a,b> = <b,a>`, so `keyder`'s `sum(y[i]*s[i])` is `<s,y>` |
| `IpfeHelpers.SumProdAgree` | ipfehelpers.py:44-48 | entries beyond the first `n` of either vector do not affect the result |
| `IpfeHelpers.SumProdLinear` | ipfeddh.py:36-50 | if `e[i] = s[i]*r + x[i]` then `<e,y> = r*<s,y> + <x,y>`, which is how the key's mask cancels |
| `ModArith.ModPow` | ipfeddh.py:29-50 | the group's `**` on an element: `b^e` reduced modulo p, always a residue in `[0,p)` |
| `ModArith.Inverse` | ipfeddh.py:50 | the inverse behind the group's division: the extended-Euclid coefficient of `b mod p`, a residue in `[0,p)` |
| `ModArith.InvertibleConverse` | ipfeddh.py:50 | if some `u` has `b*u = 1` mod p then the gcd test `Invertible(b, p)` succeeds; with `InverseCorrect` the test holds exactly when `b` has an inverse, which is when the division can succeed |
| `ModArith.InvertibleIffNonZero` | ipfeddh.py:50 | modulo a prime, `b` passes the gcd test if and only if `b mod p != 0` |
| `ModArith.ModPowAdd` | ipfeddh.py:36 | group product of powers: `g^a * g^b = g^(a+b)` mod p |
| `ModArith.ModPowPow` | ipfeddh.py:36 | power of a power: `(g^a)^b = g^(a*b)` mod p |
| `ModArith.PowMod` | ipfeddh.py:45 | reducing a base before exponentiating does not change the residue |
| `ModArith.ExtGcd` | ipfeddh.py:50 | extended Euclid returns `(x, y, d)` with `a*x + b*y = d` where `d` divides both `a` and `b` |
| `ModArith.InverseCorrect` | ipfeddh.py:50 | when `gcd(b mod p, p) = 1`, `b * Inverse(b, p) = 1` mod p |
| `ModArith.PrimeInvertible` | ipfeddh.py:50 | modulo a prime, every non-zero residue is invertible |
| `ModArith.ProductNonZero` | ipfeddh.py:50 | modulo a prime, a product of non-zero residues is non-zero (Euclid's lemma) |
| `ModArith.ModPowInvertible` | ipfeddh.py:50 | every power of a non-zero residue is invertible modulo a prime |
| `ModArith.Div` | ipfeddh.py:50 | the group quotient `q = a / b` lies in `[0,p)` and satisfies `q*b = a` mod p |
| `ModArith.DivUnique` | ipfeddh.py:50 | that quotient is the only residue with `q*b = a` mod p |
| `DdhAlgebra.KeyPair` | ipfeddh.py:29 | setup's relation `h[i] = g^s[i]` mod p for every index; every public-key element it admits is a residue in `[0,p)` |
| `DdhAlgebra.ProdPow` | ipfeddh.py:45-48 | decrypt's accumulator `res` after `n` steps: the plain-integer product of the residues `c[i]^y[i]`, starting from 1, so never negative |
| `DdhAlgebra.Recover` | ipfeddh.py:44-52 | decrypt's value is a residue `m` with `m * ct0^key = Π cti[i]^y[i]` mod p; it does not depend on the master public key |
| `DdhAlgebra.ProdPowEncodes` | ipfeddh.py:45-48 | if every `c[i] = g^e[i]`, the integer product of the residues `c[i]^y[i]` is `g^<e,y>` mod p |
| `DdhAlgebra.EncodeComponent` | ipfeddh.py:36 | with `h = g^s`, a component `h^r * g^x` equals `g^(s*r + x)` |
| `DdhAlgebra.NumeratorEncodes` | ipfeddh.py:45-48 | decrypt's accumulated product is `g^(r*<s,y> + <x,y>)` mod p |
| `DdhAlgebra.DivisorEncodes` | ipfeddh.py:50 | `ct0^key = g^(r*key)` and it is invertible |
| `DdhAlgebra.QuotientOfPowers` | ipfeddh.py:50 | dividing `g^(r*k + a)` by `g^(r*k)` leaves `g^a` |
| `DdhAlgebra.RecoverInnerProduct` | ipfeddh.py:27-52 | correctness identity: with `ct0 = g^r`, `cti[i] = g^(s[i]*r + x[i])` and `key = <s,y>`, the divisor is invertible and decryption yields `g^<x,y>` mod p |
| `IpfeDdh.IPFEDDH.constructor` | ipfeddh.py:16-20 | stores the generated `p` and `g` (prime modulus, non-zero generator); they are `const` and no later operation changes them |
| `IpfeDdh.IPFEDDH.RandomVector` | ipfeddh.py:22-24 | returns exactly `l` integers, each in `[0, p)` |
| `IpfeDdh.IPFEDDH.Setup` | ipfeddh.py:27-31 | `h` and `s` have length `l`, every `s[i] < p`, and `h[i] = g^s[i]` mod p for every `i < l` |
| `IpfeDdh.IPFEDDH.Encrypt` | ipfeddh.py:33-38 | `ct0 = g^r`, exactly `l` components, `cti[i] = h[i]^r * g^x[i]` mod p; needs `h` and `x` to have at least `l` entries |
| `IpfeDdh.IPFEDDH.Keyder` | ipfeddh.py:40-42 | the key is `<s,y>` over the first `l` coordinates, not reduced modulo p; needs `y` and `s` to have at least `l` entries |
| `IpfeDdh.IPFEDDH.Decrypt` | ipfeddh.py:44-52 | loop invariant: `res` is the integer product of `tmp[0..i)`; the result is that product divided in the group by `ct0^key`, i.e. `Recover`, whatever `mpk` is |
| `IpfeDdh.IPFEDDH.EncryptEncodes` | ipfeddh.py:33-38 | under keys from setup, `cti[i] = g^(s[i]*r + x[i])` mod p |
| `IpfeDdh.IPFEDDH.Correctness` | ipfeddh.py:27-52 | if `h[i] = g^s[i]`, decrypting `encrypt(mpk, x, l)` with `keyder(msk, y, l)` is defined and gives `g^(Σ_{i<l} x[i]*y[i])` mod p |
| `IpfeDdhScript.RandomVector` | ipfe-ddh.py:19-21 | returns exactly `l` integers, each in `[0, p)` |
| `IpfeDdhScript.Setup` | ipfe-ddh.py:24-28 | `h` and `s` have length `l`, every `s[i] < p`, and `h[i] = g^s[i]` mod p |
| `IpfeDdhScript.Encrypt` | ipfe-ddh.py:31-36 | always exactly `L = 5` components `cti[i] = h[i]^r * g^x[i]`, `ct0 = g^r`; needs `h` and `x` to have at least 5 entries |
| `IpfeDdhScript.Keyder` | ipfe-ddh.py:39-41 | the key is `<s,y>` over the first 5 coordinates, with no modular reduction |
| `IpfeDdhScript.Decrypt` | ipfe-ddh.py:44-52 | the loop over `i < L` keeps `res` equal to the product of `tmp[0..i)`; the result is that product divided by `ct0^key` |
| `IpfeDdhScript.MainCheck` | ipfe-ddh.py:56-67 | `main`'s check: the decrypted result equals `g^expected` with `expected = Σ_{i<5} x[i]*y[i]` |
| `IpfeDdhScript.MatchesClass` | ipfe-ddh.py:24-41 | the script's setup, encrypt and keyder equal the class's with `l = 5` over the same `p` and `g` |

## Left out

- Benchmarking (`benchmark.py`) is left out. It is wall-clock timing, float scaling, printing
  and CSV output.
- The group library's internals are left out: safe-prime parameter generation, `randomGen`,
  `getMod` and `toInt`. The constructor and `Globals` take the resulting `p` and `g`. The
  model assumes that `p` is prime and that `g` is a non-zero residue.
- The `sec_bits` argument is not modelled, because it only feeds parameter generation.
- Random sampling is left out. The samples are arguments, so uniformity and the freshness of
  `r` are not modelled.
- The `print` calls in `main` are left out. `MainCheck` keeps only the equality they display.
- The toolkit helper `modular_inverse`, the matrix/vector products mod p and the Lk / Lk_AB
  generators are not part of this model, because they are not in the modelled files. The
  group's own inverse, which decrypt's division uses, is modelled as `ModArith.Inverse`.
- InnerProduct: only vectors of plain integers are modelled, and the result is the unreduced
  sum. When `a` holds group elements, as its documentation says, the products and the sum
  are reduced modulo p. That case is not modelled, because no scheme algorithm calls
  `inner_product`.
- The group's division is modelled as multiplication by an extended-Euclid inverse.
  `Decrypt` requires the divisor to be invertible. The group library raises an error
  otherwise, and that error path is not modelled. `Correctness` and `MainCheck` prove that
  the condition holds for honestly made ciphertexts.
- Exponents are natural numbers. Negative exponents would mean inverses, and `SKy.key` is a
  `nat`, so a hand-made key with a negative value is outside the model.
- Whether the group library reduces exponents modulo the group order is not modelled. It
  does not change `b^e mod p` for the values used here.
- RandomVector: only a positive modulus is modelled. The code always passes the group's
  modulus, and the floor-division remainder that a negative modulus would give is not
  modelled.
- The record constructors of `MPK`, `MSK`, `CT` and `SKy` are datatype constructors. Storing
  their arguments unchanged holds by definition, so no separate member states it.
- Length errors are not modelled, because the code never checks lengths. Length agreement
  appears as preconditions.
