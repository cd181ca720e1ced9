/** Numbers: minimum, maximum, powers of two, and division facts the solver does not find by itself. */
module Arith {

  function Max(a: int, b: int): int { if a < b then b else a }

  function Min(a: int, b: int): int { if a < b then a else b }

  function Pow2(n: nat): (r: nat)
    ensures r > 0
  {
    if n == 0 then 1 else 2 * Pow2(n - 1)
  }

  lemma MulAtLeast(a: int, m: int)
    requires a >= 1 && m >= 0
    ensures a * m >= m
  {
  }

  lemma DivModUnique(n: int, m: int, q: int, r: int)
    requires 0 <= r < m && n == q * m + r
    ensures n / m == q && n % m == r
  {
    var q', r' := n / m, n % m;
    Distribute(q, q', m);
    if q > q' {
      MulAtLeast(q - q', m);
      assert false;
    } else if q < q' {
      Distribute(q', q, m);
      MulAtLeast(q' - q, m);
      assert false;
    }
  }

  lemma Distribute(a: int, b: int, m: int)
    ensures (a - b) * m == a * m - b * m
  {
  }

  lemma MulMod(m: int, k: int)
    requires m > 0
    ensures (m * k) % m == 0 && (m * k) / m == k
  {
    DivModUnique(m * k, m, k, 0);
  }

  lemma ModAdd(a: int, b: int, m: int)
    requires m > 0 && a % m == 0 && b % m == 0
    ensures (a + b) % m == 0
  {
    assert a + b == m * (a / m + b / m);
    MulMod(m, a / m + b / m);
  }

  lemma ModSub(a: int, b: int, m: int)
    requires m > 0 && a % m == 0 && b % m == 0
    ensures (b - a) % m == 0
  {
    assert b - a == m * (b / m - a / m);
    MulMod(m, b / m - a / m);
  }

  /** Two multiples of m closer than m are equal. */
  lemma SameMultiple(a: int, b: int, m: int)
    requires m > 0 && a % m == 0 && b % m == 0 && a <= b < a + m
    ensures a == b
  {
    ModSub(a, b, m);
    DivModUnique(b - a, m, 0, b - a);
  }
}
