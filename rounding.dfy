/** JavaScript's Math.round and Math.ceil, and the cent rounding that the
    pricing engine builds from them, over exact reals. */
module Rounding {

  /** Math.round(x): the nearest integer, ties going toward +infinity
      (so -2.5 rounds to -2, not to -3). */
  function RoundHalfUp(x: real): (n: int)
    ensures x - 0.5 < n as real <= x + 0.5
  {
    (x + 0.5).Floor
  }

  /** Math.ceil(x): the least integer not below x. */
  function Ceil(x: real): (n: int)
    ensures x <= n as real < x + 1.0
  {
    -((-x).Floor)
  }

  /** A real that is a whole number of cents. */
  predicate WholeCents(x: real) {
    (x * 100.0).Floor as real == x * 100.0
  }

  /** Math.round(x * 100) / 100: x rounded to a whole number of cents,
      within half a cent of x. */
  function RoundCents(x: real): (r: real)
    ensures WholeCents(r)
    ensures x - 0.005 < r <= x + 0.005
  {
    var n := RoundHalfUp(x * 100.0);
    assert (n as real / 100.0) * 100.0 == n as real;
    n as real / 100.0
  }

  /** The two bounds of RoundHalfUp pin its result down: it is the only
      integer in (x - 1/2, x + 1/2]. */
  lemma RoundHalfUpUnique(x: real, n: int)
    requires x - 0.5 < n as real <= x + 0.5
    ensures RoundHalfUp(x) == n
  {
    var m := RoundHalfUp(x);
    assert m as real - n as real < 1.0 && n as real - m as real < 1.0;
  }

  /** A tie between two integers goes to the upper one, also below zero. */
  lemma {:induction false} RoundHalfUpTieGoesUp(k: int)
    ensures RoundHalfUp(k as real + 0.5) == k + 1
    ensures RoundHalfUp(k as real - 0.5) == k
  {
    RoundHalfUpUnique(k as real + 0.5, k + 1);
    RoundHalfUpUnique(k as real - 0.5, k);
  }

  /** Math.ceil is the least integer at or above x. */
  lemma CeilIsLeast(x: real, m: int)
    requires x <= m as real
    ensures Ceil(x) <= m
  {
  }

  lemma RoundHalfUpMonotone(x: real, y: real)
    requires x <= y
    ensures RoundHalfUp(x) <= RoundHalfUp(y)
  {
  }

  lemma CeilMonotone(x: real, y: real)
    requires x <= y
    ensures Ceil(x) <= Ceil(y)
  {
  }

  /** Cent rounding never reverses the order of two amounts. */
  lemma RoundCentsMonotone(x: real, y: real)
    requires x <= y
    ensures RoundCents(x) <= RoundCents(y)
  {
    RoundHalfUpMonotone(x * 100.0, y * 100.0);
  }

  /** An amount that is already whole cents is left unchanged. */
  lemma RoundCentsOfWholeCents(x: real)
    requires WholeCents(x)
    ensures RoundCents(x) == x
  {
    var n := (x * 100.0).Floor;
    RoundHalfUpUnique(x * 100.0, n);
  }

  /** The difference of two whole-cent amounts is whole cents. */
  lemma WholeCentsDifference(a: real, b: real)
    requires WholeCents(a) && WholeCents(b)
    ensures WholeCents(a - b)
  {
    var na, nb := (a * 100.0).Floor, (b * 100.0).Floor;
    assert (a - b) * 100.0 == (na - nb) as real;
  }
}
