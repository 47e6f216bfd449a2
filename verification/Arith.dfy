/** The lesser and the greater of two numbers, and the division facts the loops over bit sets need. */
module Arith {
  function Min(a: int, b: int): int { if a < b then a else b }
  function Max(a: int, b: int): int { if a < b then b else a }

  lemma DivUnique(x: int, q: int, r: int, n: int)
    requires n > 0 && x == q * n + r && 0 <= r < n
    ensures q == x / n && r == x % n
  {
    var d := x / n - q;
    assert d * n == r - x % n;
    MultipleSize(d, n);
  }

  lemma MultipleSize(d: int, n: int)
    requires n > 0
    ensures d >= 1 ==> d * n >= n
    ensures d <= -1 ==> d * n <= -n
  {
  }

  lemma ModPlus(x: int, n: int)
    requires n > 0
    ensures (x + n) % n == x % n
  {
    var q := x / n;
    assert (q + 1) * n == q * n + n;
    DivUnique(x + n, q + 1, x % n, n);
  }

  lemma ModBetween(x: int, m: int, n: int)
    requires n > 0 && m % n == 0 && m < x < m + n
    ensures x % n == x - m
  {
    DivUnique(x, m / n, x - m, n);
  }
}
