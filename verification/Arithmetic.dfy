/** Division facts that the layouts need. */
module Arithmetic {
  lemma MultipleApart(n: int, e: int)
    requires 0 < n
    ensures e >= 1 ==> n * e >= n
    ensures e <= -1 ==> n * e <= -n
  {
  }

  lemma DivModUnique(q: int, n: int, r: int)
    requires 0 <= r < n
    ensures (q * n + r) / n == q && (q * n + r) % n == r
  {
    var a := q * n + r;
    assert a == n * (a / n) + a % n;
    assert n * (a / n - q) == n * (a / n) - n * q;
    MultipleApart(n, a / n - q);
  }

  lemma DivisionSign(a: int, n: int)
    requires 0 < n
    ensures 0 <= a % n < n && (0 <= a / n <==> 0 <= a)
  {
    assert a == n * (a / n) + a % n;
    MultipleApart(n, a / n);
  }
}
