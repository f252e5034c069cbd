/** Unsigned shifts on unbounded naturals: the `>>` the trie uses to cut key prefixes. */
module Bits {

  function Pow2(n: nat): (r: nat)
    ensures r >= 1
  {
    if n == 0 then 1 else 2 * Pow2(n - 1)
  }

  /** `x >> n` for an unsigned integer. */
  function Shr(x: nat, n: nat): (r: nat)
    ensures r <= x
  {
    DivLe(x, Pow2(n));
    x / Pow2(n)
  }

  /** Dividing by a positive divisor never grows a natural. */
  lemma DivLe(x: nat, d: nat)
    requires d >= 1
    ensures 0 <= x / d <= x
  {
    var q := x / d;
    MulLe(1, d, q);
    assert q <= q * d <= x;
  }

  lemma {:induction false} Pow2Add(m: nat, n: nat)
    ensures Pow2(m + n) == Pow2(m) * Pow2(n)
  {
    if m > 0 {
      Pow2Add(m - 1, n);
      assert Pow2(m + n) == 2 * Pow2(m - 1 + n);
    }
  }

  lemma DivUnique(x: nat, d: nat, q: nat, r: nat)
    requires d > 0 && r < d && x == q * d + r
    ensures x / d == q
  {
    var q', r' := x / d, x % d;
    assert x == q' * d + r';
    if q' < q {
      assert q' * d + d <= q * d by { MulLe(q' + 1, q, d); }
    } else if q' > q {
      assert q * d + d <= q' * d by { MulLe(q + 1, q', d); }
    }
  }

  lemma MulLe(a: nat, b: nat, d: nat)
    requires a <= b
    ensures a * d <= b * d
  {
  }

  lemma DivDiv(x: nat, a: nat, b: nat)
    requires a > 0 && b > 0
    ensures x / a / b == x / (a * b)
  {
    var q, r := x / a, x % a;
    var q2, r2 := q / b, q % b;
    assert x == q * a + r;
    assert q == q2 * b + r2;
    Regroup(q2, r2, a, b);
    assert x == q2 * (a * b) + (r2 * a + r);
    RemBound(r2, r, a, b);
    DivUnique(x, a * b, q2, r2 * a + r);
  }

  lemma Regroup(q: nat, r: nat, a: nat, b: nat)
    ensures (q * b + r) * a == q * (a * b) + r * a
  {
  }

  /** Two remainders combine into one below the product of the divisors. */
  lemma RemBound(r2: nat, r: nat, a: nat, b: nat)
    requires r2 < b && r < a
    ensures r2 * a + r < a * b
  {
    MulLe(r2, b - 1, a);
    assert (b - 1) * a == a * b - a;
  }

  /** Shifting twice is shifting by the sum. */
  lemma ShrShr(x: nat, m: nat, n: nat)
    ensures Shr(Shr(x, m), n) == Shr(x, m + n)
  {
    Pow2Add(m, n);
    DivDiv(x, Pow2(m), Pow2(n));
  }

  lemma ShrMono(x: nat, y: nat, n: nat)
    requires x <= y
    ensures Shr(x, n) <= Shr(y, n)
  {
    var d := Pow2(n);
    var qx, qy := x / d, y / d;
    if qx > qy {
      MulLe(qy + 1, qx, d);
      assert false;
    }
  }

  lemma ShrBelow(x: nat, n: nat)
    requires x < Pow2(n)
    ensures Shr(x, n) == 0
  {
    DivUnique(x, Pow2(n), 0, x);
  }
}
