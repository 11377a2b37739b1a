/** Facts about products, quotients and remainders that several modules use. */
module Arithmetic {

  lemma ProductIsMonotone(a: nat, b: nat, c: nat)
    requires a <= b
    ensures a * c <= b * c && c * a <= c * b
  {
  }

  lemma SmallProductIsZero(a: int, k: int)
    requires -a < a * k < a
    ensures k == 0
  {
    assert a * -k == -(a * k);
    if k >= 1 {
      ProductIsMonotone(1, k, a);
    } else if k <= -1 {
      ProductIsMonotone(1, -k, a);
    }
  }

  lemma QuotientAndRemainder(x: int, a: nat)
    requires a > 0
    ensures x == a * (x / a) + x % a && 0 <= x % a < a
  {
  }

  /// Division with remainder has one answer.
  lemma DivisionIsUnique(x: int, a: nat, q: int, r: int)
    requires a > 0 && x == a * q + r && 0 <= r < a
    ensures x / a == q && x % a == r
  {
    QuotientAndRemainder(x, a);
    var d := q - x / a;
    assert a * d == a * q - a * (x / a);
    assert a * d == x % a - r;
    SmallProductIsZero(a, d);
  }

  lemma MultipleHasNoRemainder(q: int, a: nat)
    requires a > 0
    ensures (a * q) % a == 0 && (q * a) % a == 0
  {
    DivisionIsUnique(a * q, a, q, 0);
    assert a * q == q * a;
  }

  lemma SumOfMultiples(x: int, y: int, a: nat)
    requires a > 0 && x % a == 0 && y % a == 0
    ensures (x + y) % a == 0
  {
    QuotientAndRemainder(x, a);
    QuotientAndRemainder(y, a);
    assert x + y == a * (x / a + y / a);
    MultipleHasNoRemainder(x / a + y / a, a);
  }

  /// Divisibility is transitive.
  lemma MultipleOfMultiple(x: int, b: nat, a: nat)
    requires a > 0 && b > 0 && x % b == 0 && b % a == 0
    ensures x % a == 0
  {
    QuotientAndRemainder(x, b);
    QuotientAndRemainder(b, a);
    var p, q := b / a, x / b;
    assert x == a * (p * q) by {
      assert b * q == (a * p) * q;
      assert (a * p) * q == a * (p * q);
    }
    MultipleHasNoRemainder(p * q, a);
  }

  // ---------------------------------------------------------------- congruence

  predicate Congruent(x: int, y: int, m: nat)
    requires m > 0
  {
    (x - y) % m == 0
  }

  lemma CongruentBy(x: int, y: int, m: nat, q: int)
    requires m > 0 && x == y + m * q
    ensures Congruent(x, y, m)
  {
    MultipleHasNoRemainder(q, m);
  }

  lemma CongruentQuotient(x: int, y: int, m: nat) returns (q: int)
    requires m > 0 && Congruent(x, y, m)
    ensures x == y + m * q
  {
    QuotientAndRemainder(x - y, m);
    q := (x - y) / m;
  }

  lemma RemainderIsCongruent(x: int, m: nat)
    requires m > 0
    ensures Congruent(x % m, x, m) && Congruent(x, x % m, m)
  {
    QuotientAndRemainder(x, m);
    CongruentBy(x, x % m, m, x / m);
    assert m * -(x / m) == -(m * (x / m));
    CongruentBy(x % m, x, m, -(x / m));
  }

  lemma CongruentSums(x: int, y: int, u: int, v: int, m: nat)
    requires m > 0 && Congruent(x, y, m) && Congruent(u, v, m)
    ensures Congruent(x + u, y + v, m) && Congruent(x - u, y - v, m)
  {
    var a := CongruentQuotient(x, y, m);
    var b := CongruentQuotient(u, v, m);
    assert m * (a + b) == m * a + m * b && m * (a - b) == m * a - m * b;
    CongruentBy(x + u, y + v, m, a + b);
    CongruentBy(x - u, y - v, m, a - b);
  }

  lemma CongruentProducts(x: int, y: int, u: int, v: int, m: nat)
    requires m > 0 && Congruent(x, y, m) && Congruent(u, v, m)
    ensures Congruent(x * u, y * v, m)
  {
    var a := CongruentQuotient(x, y, m);
    var b := CongruentQuotient(u, v, m);
    var q := y * b + a * v + a * (m * b);
    assert x * u == y * v + m * q by {
      assert (y + m * a) * (v + m * b) == y * v + y * (m * b) + (m * a) * v + (m * a) * (m * b);
      assert y * (m * b) == m * (y * b);
      assert (m * a) * v == m * (a * v);
      assert (m * a) * (m * b) == m * (a * (m * b));
      assert m * q == m * (y * b) + m * (a * v) + m * (a * (m * b));
    }
    CongruentBy(x * u, y * v, m, q);
  }

  lemma CongruentTransitive(x: int, y: int, z: int, m: nat)
    requires m > 0 && Congruent(x, y, m) && Congruent(y, z, m)
    ensures Congruent(x, z, m) && Congruent(y, x, m)
  {
    var a := CongruentQuotient(x, y, m);
    var b := CongruentQuotient(y, z, m);
    assert m * (a + b) == m * a + m * b && m * -a == -(m * a);
    CongruentBy(x, z, m, a + b);
    CongruentBy(y, x, m, -a);
  }

  /// Congruence modulo a multiple.
  lemma CongruentDivisor(x: int, y: int, m: nat, d: nat)
    requires m > 0 && d > 0 && m % d == 0 && Congruent(x, y, m)
    ensures Congruent(x, y, d)
  {
    MultipleOfMultiple(x - y, m, d);
  }

  lemma CongruentRemainders(x: int, y: int, m: nat)
    requires m > 0 && Congruent(x, y, m)
    ensures x % m == y % m
  {
    var q := CongruentQuotient(x, y, m);
    QuotientAndRemainder(y, m);
    assert x == m * (y / m + q) + y % m;
    DivisionIsUnique(x, m, y / m + q, y % m);
  }

  /// Two numbers that are close and congruent are equal.
  lemma CongruentAndClose(x: int, y: int, m: nat)
    requires m > 0 && Congruent(x, y, m) && x - y < m && y - x < m
    ensures x == y
  {
    var q := CongruentQuotient(x, y, m);
    SmallProductIsZero(m, q);
  }

  lemma RemaindersOfSumsDiffer(a: nat, b: nat, x: int, m: nat)
    requires a < m && b < m && (a + x) % m == (b + x) % m
    ensures a == b
  {
    QuotientAndRemainder(a + x, m);
    QuotientAndRemainder(b + x, m);
    var k := (a + x) / m - (b + x) / m;
    assert a - b == m * k;
    SmallProductIsZero(m, k);
  }
}
