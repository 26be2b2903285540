/** The non-linear steps the shift and range proofs share. */
module Arith {
  lemma Monotone(a: nat, b: nat, d: nat)
    ensures a <= b ==> a * d <= b * d
  {
  }

  lemma QuotientIs(x: nat, d: nat, q: nat, r: nat)
    requires d > 0 && x == q * d + r && r < d
    ensures x / d == q && x % d == r
  {
    var k := x / d;
    assert x == k * d + x % d;
    assert (k + 1) * d == k * d + d && (q + 1) * d == q * d + d;
    Monotone(k + 1, q, d);
    Monotone(q + 1, k, d);
  }

  lemma Regroup(q: nat, b: nat, r: nat, a: nat)
    ensures (q * b + r) * a == q * (a * b) + r * a
  {
    assert (q * b + r) * a == q * b * a + r * a;
    assert q * b * a == q * (b * a);
  }

  lemma DivideTwiceInto(x: nat, a: nat, b: nat, q: nat, r: nat, s: nat)
    requires x == (q * b + r) * a + s && r < b && s < a
    ensures a * b > 0 && x / (a * b) == q
  {
    Regroup(q, b, r, a);
    Monotone(r + 1, b, a);
    assert (r + 1) * a == r * a + a && b * a == a * b;
    QuotientIs(x, a * b, q, r * a + s);
  }

  lemma DivideTwice(x: nat, a: nat, b: nat)
    requires a > 0 && b > 0
    ensures a * b > 0 && x / (a * b) == x / a / b
  {
    var y := x / a;
    assert x == y * a + x % a;
    assert y == y / b * b + y % b;
    DivideTwiceInto(x, a, b, y / b, y % b, x % a);
  }

  lemma FitsStep(high: nat, room: nat, d: nat, low: nat)
    requires high < room && low < d
    ensures high * d + low < room * d
  {
    Monotone(high + 1, room, d);
    assert (high + 1) * d == high * d + d;
  }

  lemma QuotientIsNat(v: nat, d: nat)
    requires d > 0
    ensures v / d >= 0
  {
  }

  lemma QuotientsClimb(a: nat, b: nat, d: nat)
    requires d > 0 && a <= b
    ensures a / d <= b / d
  {
    var x, y := a / d, b / d;
    assert d * (y + 1) == d * y + d;
    Monotone(y + 1, x, d);
  }
}
