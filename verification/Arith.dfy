// Division and multiplication facts used by the address arithmetic.
module Arith {

  lemma MulMono(a: int, b: int, m: int)
    requires a <= b && m >= 0
    ensures a * m <= b * m
  {
    assert (b - a) * m >= 0;
  }

  lemma MulGap(a: int, b: int, m: int)
    requires a < b && m >= 0
    ensures a * m + m <= b * m
  {
    MulMono(a + 1, b, m);
    assert (a + 1) * m == a * m + m;
  }

  lemma MultiplesApart(a: int, b: int, m: int)
    requires m >= 0
    ensures a * m < b * m ==> a * m + m <= b * m
  {
    if a < b { MulGap(a, b, m); } else { MulMono(b, a, m); }
  }

  lemma Distrib(a: int, b: int, m: int)
    ensures (a + b) * m == a * m + b * m
  {}

  lemma DivMod(x: int, d: int)
    requires d > 0
    ensures x == x / d * d + x % d && 0 <= x % d < d
  {}

  // The quotient and remainder are the only ones there are.
  lemma DivIs(x: int, q: int, r: int, d: int)
    requires d > 0 && 0 <= r < d && x == q * d + r
    ensures x / d == q && x % d == r
  {
    DivMod(x, d);
    if q < x / d { MulGap(q, x / d, d); }
    if x / d < q { MulGap(x / d, q, d); }
  }

  lemma DivBound(x: int, n: int, d: int)
    requires d > 0 && 0 <= x < n * d
    ensures 0 <= x / d < n
  {
    DivMod(x, d);
    if n <= x / d { MulMono(n, x / d, d); }
    if x / d < 0 { MulGap(x / d, 0, d); }
  }

  lemma DivMono(x: int, y: int, d: int)
    requires d > 0 && x <= y
    ensures x / d <= y / d
  {
    DivMod(x, d);
    DivMod(y, d);
    if y / d < x / d { MulGap(y / d, x / d, d); }
  }
}
