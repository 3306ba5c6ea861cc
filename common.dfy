/** Shared vocabulary: bytes, an optional value, and the integer division
    facts that the pixel-layout proofs lean on. */
module Common {

  /** An unsigned 8-bit value, as `unsigned char` in the source. */
  type byte = b: int | 0 <= b < 256

  datatype Option<+T> = None | Some(value: T)

  function Min(a: int, b: int): int { if a < b then a else b }

  /** `x == q * d + r` with `0 <= r < d` pins down both quotient and remainder. */
  lemma DivModUnique(x: int, d: int, q: int, r: int)
    requires d > 0 && 0 <= r < d && x == q * d + r
    ensures x / d == q && x % d == r
  {
    var q', r' := x / d, x % d;
    assert (q' - q) * d == r - r';
    if q' > q {
      MulAtLeast(q' - q, d);
    } else if q' < q {
      MulAtLeast(q - q', d);
    }
  }

  lemma MulAtLeast(a: int, d: int)
    requires a >= 1 && d > 0
    ensures a * d >= d
  {
    assert a * d == (a - 1) * d + d;
    assert (a - 1) * d >= 0;
  }

  /** A quotient of a number below `n * d` is below `n`. */
  lemma DivBelow(k: int, d: int, n: int)
    requires d > 0 && 0 <= k < n * d
    ensures 0 <= k / d < n
  {
    if k / d >= n {
      MulMono(n, k / d, d);
    }
  }

  /** `q * d + r` with `q < n` and `r < d` stays below `n * d`. */
  lemma MulAddBelow(q: int, r: int, d: int, n: int)
    requires 0 <= q < n && 0 <= r < d
    ensures 0 <= q * d + r < n * d
  {
    MulMono(q + 1, n, d);
    MulMono(0, q, d);
    assert (q + 1) * d == q * d + d;
  }

  /** One more row of `s` bytes starts `s` bytes further on. */
  lemma MulSucc(j: int, s: int)
    ensures (j + 1) * s == j * s + s
  {
  }

  /** Multiplication by a non-negative factor is monotone. */
  lemma MulMono(a: int, b: int, m: int)
    requires a <= b && m >= 0
    ensures a * m <= b * m
  {
    assert b * m - a * m == (b - a) * m;
    assert (b - a) * m >= 0;
  }
}
