/**
 * C++ integer division and remainder on int, which truncate toward zero
 * (Dafny's own / and % are Euclidean).
 */
module CppInt {
  function TruncDiv(a: int, b: int): int
    requires b > 0
  {
    if a >= 0 then a / b else -((-a) / b)
  }

  function TruncRem(a: int, b: int): int
    requires b > 0
  {
    if a >= 0 then a % b else -((-a) % b)
  }

  /** The quotient and remainder recombine to the dividend; the remainder takes the dividend's sign. */
  lemma TruncDivRem(a: int, b: int)
    requires b > 0
    ensures TruncDiv(a, b) * b + TruncRem(a, b) == a
    ensures a >= 0 ==> 0 <= TruncRem(a, b) < b
    ensures a < 0 ==> -b < TruncRem(a, b) <= 0
  {
    if a < 0 {
      assert (-a) / b * b + (-a) % b == -a;
    }
  }

  /** Dividing q * 5 + r by 5, for a non-negative q and a remainder r in 0..4. */
  lemma TruncByFive(q: int, r: int)
    requires q >= 0 && 0 <= r < 5
    ensures TruncDiv(q * 5 + r, 5) == q && TruncRem(q * 5 + r, 5) == r
  {
  }
}
