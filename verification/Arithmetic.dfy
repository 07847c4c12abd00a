/** Quotients and remainders, minima and maxima. */
module Arithmetic {
  function Min(x: int, y: int): int {
    if x < y then x else y
  }

  function Max(x: int, y: int): int {
    if x < y then y else x
  }

  lemma Product(t: int, d: int)
    requires t >= 1
    ensures (d >= 1 ==> t * d >= t) && (d <= -1 ==> t * d <= -t)
  {
  }

  lemma QuotientUnique(k: nat, t: nat, a: int, m: nat)
    requires t >= 1 && k == t * a + m && m < t
    ensures k / t == a && k % t == m
  {
    var b, n := k / t, k % t;
    assert k == t * b + n;
    Product(t, b - a);
    assert t * (b - a) == t * b - t * a == m - n;
  }

  lemma QuotientStep(k: nat, t: nat)
    requires t >= 1
    ensures if k < t then k / t == 0 else k / t == (k - t) / t + 1
  {
    if k < t {
      QuotientUnique(k, t, 0, k);
    } else {
      var a, m := (k - t) / t, (k - t) % t;
      assert k - t == t * a + m;
      assert t * (a + 1) == t * a + t;
      QuotientUnique(k, t, a + 1, m);
    }
  }

  /** Multiples: the next one, and the remainder above one. */
  lemma Multiples(x: nat, t: nat, r: nat)
    requires t >= 1 && x % t == 0 && r < t
    ensures (x + t) % t == 0 && (x + r) % t == r
  {
    var a := x / t;
    assert x == t * a;
    assert t * (a + 1) == t * a + t;
    QuotientUnique(x + t, t, a + 1, 0);
    QuotientUnique(x + r, t, a, r);
  }
}
