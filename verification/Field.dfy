/**
 The scalar field of BN254 as integers below its modulus.  No result here depends on the modulus
 being prime: the circuit never divides.
 */
module Field {
  import opened Numbers

  const P: int := 21888242871839275222246405745257275088548364400416034343698204186575808495617

  type F = x: int | 0 <= x < P

  /** Length of a canonical bit decomposition. */
  const FIELD_BITS: nat := 254

  function Mul(a: F, b: F): F { (a * b) % P }

  /** `Fr::from` on an unsigned machine integer. */
  function FromNat(n: nat): F { n % P }

  /** Reducing the factors first does not change a product. */
  lemma MulMod(a: int, b: int)
    ensures ((a % P) * (b % P)) % P == (a * b) % P
  {
    DivMod(a, P);
    DivMod(b, P);
    ProductParts(a % P, P * (a / P), b % P, P * (b / P));
    MulAssoc(P, a / P, b);
    MulAssoc(a % P, P, b / P);
    MulAssoc(P, a % P, b / P);
    assert a % P * P == P * (a % P);
    MulDistr(P, a / P * b, a % P * (b / P));
    AddMultiple((a % P) * (b % P), a / P * b + a % P * (b / P));
  }

  lemma ProductParts(a: int, s: int, b: int, t: int)
    ensures (s + a) * (t + b) == a * b + a * t + s * (t + b)
  {
  }

  lemma AddMultiple(x: int, k: int)
    ensures (x + P * k) % P == x % P
  {
    DivMod(x, P);
    MulDistr(P, x / P, k);
    ModUnique(x + P * k, P, x / P + k, x % P);
  }

  /** A field element is fixed by its class modulo P. */
  lemma ClassIs(m: int, y: F)
    ensures (m - y) % P == 0 <==> y == m % P
    ensures (y - m) % P == 0 <==> y == m % P
  {
  }
}
