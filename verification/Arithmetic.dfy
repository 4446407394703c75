// Magnitudes, and products and quotients as row-by-row indexing needs them.
module Arithmetic {
  function Abs(v: int): nat { if v < 0 then -v else v }

  function Max(a: int, b: int): int { if a < b then b else a }

  function Min(a: int, b: int): int { if a < b then a else b }

  lemma ProductGrows(d: nat, x: int, y: int)
    ensures x <= y ==> d * x <= d * y
  {
  }

  lemma DivIsUnique(n: nat, d: nat, q: nat)
    requires d > 0 && d * q <= n < d * q + d
    ensures n / d == q && n % d == n - d * q
  {
    ProductGrows(d, n / d + 1, q);
    ProductGrows(d, q + 1, n / d);
  }

  lemma RowAndColumn(n: nat, y: nat, c: nat)
    requires c < n
    ensures (y * n + c) / n == y && (y * n + c) % n == c
  {
    DivIsUnique(y * n + c, n, y);
  }

  lemma RowsGrow(y: nat, height: nat, n: nat)
    requires y < height
    ensures y * n + n <= height * n
    ensures (y + 1) * n == y * n + n
  {
    ProductGrows(n, y + 1, height);
  }

  lemma QuotientAndRest(v: nat, p: nat)
    requires p > 0
    ensures v == p * (v / p) + v % p && 0 <= v % p < p
  {
  }

  lemma Distributes(p: nat, a: nat, b: nat)
    ensures p * (a + b) == p * a + p * b
  {
  }

  lemma AddMultiple(v: nat, p: nat, q: nat)
    requires p > 0
    ensures (v + p * q) / p == v / p + q
  {
    QuotientAndRest(v, p);
    Distributes(p, v / p, q);
    DivIsUnique(v + p * q, p, v / p + q);
  }

  lemma TwiceProduct(a: nat, b: nat)
    ensures 2 * (a * b) == (2 * a) * b
  {
  }

  /** An even multiple of p more leaves the digit at p alone. */
  lemma EvenShift(v: nat, p: nat, half: nat, shift: nat)
    requires p > 0 && shift == p * (2 * half)
    ensures (v + shift) / p % 2 == v / p % 2
  {
    AddMultiple(v, p, 2 * half);
  }

  lemma TopDigitOf(low: nat, top: nat)
    requires low < top
    ensures (low + top) / top == 1 && low / top == 0
  {
    DivIsUnique(low + top, top, 1);
    DivIsUnique(low, top, 0);
  }

  /** One binary digit more. */
  lemma OneDigitMore(v: nat, p: nat)
    requires p > 0
    ensures v % (2 * p) == v % p + if v / p % 2 == 1 then p else 0
  {
    var q := v / p;
    var h, d := q / 2, q % 2;
    QuotientAndRest(v, p);
    Distributes(p, h + h, d);
    Distributes(p, h, h);
    assert q == h + h + d;
    assert 2 * p * h == p * h + p * h by {
      Distributes(h, p, p);
    }
    assert p * d == if d == 1 then p else 0;
    DivIsUnique(v, 2 * p, h);
  }
}
