/** Facts about multiplication and Euclidean division on naturals that the
    layout arithmetic needs and the solver does not find on its own. */
module Arith {

  function Min(a: nat, b: nat): nat {
    if a < b then a else b
  }

  lemma DivBounds(a: nat, m: nat)
    requires m > 0
    ensures (a / m) * m <= a < (a / m) * m + m
  {
  }

  /** An exact division multiplies back. */
  lemma DivExact(a: nat, m: nat)
    requires m > 0 && a % m == 0
    ensures (a / m) * m == a
  {
  }

  lemma MulLessCancel(x: int, y: int, b: int)
    requires b > 0
    requires x * b < y * b
    ensures x < y
  {
    assert (y - x) * b == y * b - x * b;
  }

  lemma MulLeMono(x: int, y: int, b: int)
    requires b >= 0
    requires x <= y
    ensures x * b <= y * b
  {
    assert (y - x) * b == y * b - x * b;
  }

  /** The quotient is the unique `q` with `q * m <= a < q * m + m`. */
  lemma DivUnique(a: nat, m: nat, q: nat)
    requires m > 0
    requires q * m <= a < q * m + m
    ensures a / m == q
  {
    var d := a / m;
    DivBounds(a, m);
    assert (q + 1) * m == q * m + m;
    assert (d + 1) * m == d * m + m;
    MulLessCancel(d, q + 1, m);
    MulLessCancel(q, d + 1, m);
  }

  lemma MulMod(q: nat, m: nat)
    requires m > 0
    ensures (q * m) % m == 0
    ensures (q * m) / m == q
  {
    DivUnique(q * m, m, q);
  }

  /** Sum of two multiples of `m` is a multiple of `m`. */
  lemma MultipleAdd(x: nat, y: nat, m: nat)
    requires m > 0 && x % m == 0 && y % m == 0
    ensures (x + y) % m == 0
  {
    assert x == (x / m) * m;
    assert y == (y / m) * m;
    assert x + y == (x / m + y / m) * m;
    MulMod(x / m + y / m, m);
  }
}
