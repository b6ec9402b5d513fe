/** Congruences, primes and inverses by the extended Euclidean algorithm. */
module Modular {

  ghost predicate IsMultiple(a: int, q: int, m: int) {
    a == q * m
  }

  ghost predicate Divides(d: int, a: int) {
    exists q :: IsMultiple(a, q, d)
  }

  ghost predicate Congruent(a: int, b: int, m: int) {
    Divides(m, a - b)
  }

  ghost predicate Prime(p: int) {
    p > 1 && forall d :: 1 < d < p ==> !Divides(d, p)
  }

  lemma DividesBy(d: int, a: int, q: int)
    requires a == q * d
    ensures Divides(d, a)
  {
    assert IsMultiple(a, q, d);
  }

  lemma CongruentToRemainder(a: int, m: int)
    requires m > 0
    ensures Congruent(a, a % m, m) && Congruent(a % m, a, m)
  {
    DividesBy(m, a - a % m, a / m);
    DividesBy(m, a % m - a, -(a / m));
  }

  lemma CongruentTransitive(a: int, b: int, c: int, m: int)
    requires Congruent(a, b, m) && Congruent(b, c, m)
    ensures Congruent(a, c, m)
  {
    var q :| IsMultiple(a - b, q, m);
    var r :| IsMultiple(b - c, r, m);
    DividesBy(m, a - c, q + r);
  }

  lemma CongruentSymmetric(a: int, b: int, m: int)
    requires Congruent(a, b, m)
    ensures Congruent(b, a, m)
  {
    var q :| IsMultiple(a - b, q, m);
    DividesBy(m, b - a, -q);
  }

  lemma CongruentAdd(a: int, a': int, b: int, b': int, m: int)
    requires Congruent(a, a', m) && Congruent(b, b', m)
    ensures Congruent(a + b, a' + b', m)
  {
    var q :| IsMultiple(a - a', q, m);
    var r :| IsMultiple(b - b', r, m);
    DividesBy(m, (a + b) - (a' + b'), q + r);
  }

  lemma CongruentScale(a: int, b: int, k: int, m: int)
    requires Congruent(a, b, m)
    ensures Congruent(k * a, k * b, m)
  {
    var q :| IsMultiple(a - b, q, m);
    calc {
      k * a - k * b;
      k * (a - b);
      k * (q * m);
      (k * q) * m;
    }
    DividesBy(m, k * a - k * b, k * q);
  }

  lemma SmallMultipleIsZero(a: int, q: int, m: int)
    requires -m < a < m && a == q * m
    ensures a == 0
  {
    assert q >= 1 ==> q * m >= m;
    assert q <= -1 ==> q * m <= -m;
  }

  lemma SmallRemainder(x: nat, m: nat)
    requires x < m
    ensures x % m == x
  {
    assert x - x % m == (x / m) * m;
    SmallMultipleIsZero(x - x % m, x / m, m);
  }

  /** Congruent numbers have equal remainders. */
  lemma CongruentRemainders(a: int, b: int, m: int)
    requires m > 0 && Congruent(a, b, m)
    ensures a % m == b % m
  {
    CongruentToRemainder(a, m);
    CongruentToRemainder(b, m);
    CongruentTransitive(a % m, a, b, m);
    CongruentTransitive(a % m, b, b % m, m);
    var q :| IsMultiple(a % m - b % m, q, m);
    SmallMultipleIsZero(a % m - b % m, q, m);
  }

  /** (g, x, y) with a x + b y = g. */
  function ExtendedEuclid(a: nat, b: nat): (r: (nat, int, int))
    ensures a * r.1 + b * r.2 == r.0
    decreases b
  {
    if b == 0 then (a, 1, 0)
    else
      var (g, x, y) := ExtendedEuclid(b, a % b);
      BezoutStep(a, b, x, y, g);
      (g, y, x - (a / b) * y)
  }

  lemma BezoutStep(a: nat, b: nat, x: int, y: int, g: int)
    requires b > 0 && b * x + (a % b) * y == g
    ensures a * y + b * (x - (a / b) * y) == g
  {
    assert a % b == a - (a / b) * b;
    calc {
      a * y + b * (x - (a / b) * y);
      a * y + b * x - b * ((a / b) * y);
      { assert b * ((a / b) * y) == ((a / b) * b) * y; }
      b * x + (a - (a / b) * b) * y;
      g;
    }
  }

  lemma {:induction false} EuclidDivides(a: nat, b: nat)
    requires a > 0 || b > 0
    ensures ExtendedEuclid(a, b).0 > 0
    ensures Divides(ExtendedEuclid(a, b).0, a) && Divides(ExtendedEuclid(a, b).0, b)
    decreases b
  {
    if b == 0 {
      DividesBy(a, a, 1);
      DividesBy(a, 0, 0);
    } else {
      EuclidDivides(b, a % b);
      var g := ExtendedEuclid(b, a % b).0;
      DividesCombination(g, b, a / b, a % b);
      assert a == (a / b) * b + a % b;
    }
  }

  lemma DividesCombination(g: int, b: int, k: int, r: int)
    requires Divides(g, b) && Divides(g, r)
    ensures Divides(g, k * b + r)
  {
    var q :| IsMultiple(b, q, g);
    var t :| IsMultiple(r, t, g);
    calc {
      k * b + r;
      k * (q * g) + t * g;
      (k * q + t) * g;
    }
    DividesBy(g, k * b + r, k * q + t);
  }

  lemma DivisorIsSmall(g: int, a: int)
    requires g > 0 && a > 0 && Divides(g, a)
    ensures g <= a
  {
    var q :| IsMultiple(a, q, g);
    assert q >= 1 ==> q * g >= g;
    assert q <= 0 ==> q * g <= 0;
  }

  lemma CoprimeToPrime(a: nat, m: nat)
    requires Prime(m) && 0 < a < m
    ensures ExtendedEuclid(a, m).0 == 1
  {
    EuclidDivides(a, m);
    DivisorIsSmall(ExtendedEuclid(a, m).0, a);
  }

  /** The inverse of a modulo m; 0 when a is 0. */
  function Inverse(a: nat, m: nat): (r: nat)
    requires m > 0
    ensures r < m
  {
    ExtendedEuclid(a, m).1 % m
  }

  lemma BezoutInverse(a: int, x: int, y: int, m: int)
    requires m > 1 && a * x + m * y == 1
    ensures Congruent(a * (x % m), 1, m)
    ensures x % m != 0
  {
    DividesBy(m, a * x - 1, -y);
    CongruentToRemainder(x, m);
    CongruentScale(x % m, x, a, m);
    CongruentTransitive(a * (x % m), a * x, 1, m);
    if x % m == 0 {
      CongruentRemainders(0, 1, m);
    }
  }

  lemma InverseIsInverse(a: nat, m: nat)
    requires Prime(m) && 0 < a < m
    ensures Congruent(a * Inverse(a, m), 1, m)
    ensures Inverse(a, m) > 0
  {
    CoprimeToPrime(a, m);
    var bezout := ExtendedEuclid(a, m);
    BezoutInverse(a, bezout.1, bezout.2, m);
  }
}
