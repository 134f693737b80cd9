/**
Integer arithmetic that several parts share: extremes, two's complement, and remainders that a
multiple does not change.
 */
module Numbers {
  function Min(a: int, b: int): int {
    if a < b then a else b
  }

  function Max(a: int, b: int): int {
    if a > b then a else b
  }

  /** A pattern v, of which there are p, as a two's complement number */
  function AsSigned(v: int, p: nat): int {
    if 2 * v < p then v else v - p
  }

  /** A C cast to a two's complement type of the given modulus. */
  function ToSigned(bits: int, modulus: int): int
    requires modulus > 0
  {
    AsSigned(bits % modulus, modulus)
  }

  /** A multiple of m makes no difference modulo m. */
  lemma {:induction false} Multiple(y: int, k: int, m: nat)
    requires m > 0
    ensures (m * k + y) % m == y % m
    decreases if k < 0 then -k else k
  {
    if k > 0 {
      Multiple(y, k - 1, m);
      assert m * k + y == m * (k - 1) + y + m;
      OneMore(m * (k - 1) + y, m);
    } else if k < 0 {
      Multiple(y, k + 1, m);
      assert m * (k + 1) + y == m * k + y + m;
      OneMore(m * k + y, m);
    }
  }

  lemma OneMore(x: int, m: nat)
    requires m > 0
    ensures (x + m) % m == x % m
  {
    var q, r := x / m, x % m;
    assert x + m == m * q + r + m == m * (q + 1) + r;
    var d := (x + m) / m - (q + 1);
    assert m * d == r - (x + m) % m;
    MultipleFar(m, d);
  }

  lemma MultipleFar(m: int, d: int)
    requires m > 0
    ensures d == 0 || m * d >= m || m * d <= -m
  {
  }
}
