// The few facts about multiplication and division that flat array indices need.
module Arithmetic {

  lemma MulGrows(a: int, b: int)
    requires a >= 1 && b >= 0
    ensures a * b >= b
  {
    assert a * b == (a - 1) * b + b;
  }

  lemma MulMonotone(a: int, b: int, c: int)
    requires a <= b && 0 <= c
    ensures a * c <= b * c
  {
    assert b * c == a * c + (b - a) * c;
  }

  // Quotient and remainder are the only such pair.
  lemma DivModUnique(q: int, r: int, d: int)
    requires 0 <= r < d
    ensures (q * d + r) / d == q && (q * d + r) % d == r
  {
    var a := q * d + r;
    var q', r' := a / d, a % d;
    assert q' * d + r' == q * d + r;
    assert (q' - q) * d == r - r';
    if q' > q {
      MulGrows(q' - q, d);
    } else if q' < q {
      MulGrows(q - q', d);
    }
  }

  lemma SameMultiple(x: int, y: int, d: int)
    requires d > 0 && x % d == 0 && y % d == 0 && x <= y < x + d
    ensures x == y
  {
    assert x == x / d * d + x % d && y == y / d * d + y % d;
    assert (y / d - x / d) * d == y - x;
    if y / d > x / d {
      MulGrows(y / d - x / d, d);
    }
  }
}
