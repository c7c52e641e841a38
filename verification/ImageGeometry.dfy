/** How many rows, block rows and iMCU rows an image has (jcmaster.c, jutils.c). */
module ImageGeometry {

  /** jdiv_round_up. */
  function DivRoundUp(a: nat, b: nat): (q: nat)
    requires b > 0
    ensures a <= q * b && (a > 0 ==> (q - 1) * b < a)
  {
    var q := (a + b - 1) / b;
    assert (a + b - 1) == q * b + (a + b - 1) % b;
    q
  }

  /** The quotient is the only number with that property. */
  lemma {:induction false} RoundUpUnique(a: nat, b: nat, q: nat)
    requires b > 0 && a > 0 && (q - 1) * b < a <= q * b
    ensures DivRoundUp(a, b) == q
  {
    var p := DivRoundUp(a, b);
    MulLess(p - 1, q, b);
    MulLess(q - 1, p, b);
  }

  /** Quotient and remainder are the only numbers with their properties. */
  lemma {:induction false} Division(n: nat, q: nat, r: nat, m: nat)
    requires r < m && n == q * m + r
    ensures n / m == q && n % m == r
  {
    var k := n / m;
    assert n == k * m + n % m;
    assert (q + 1) * m == q * m + m && (k + 1) * m == k * m + m;
    MulLess(k, q + 1, m);
    MulLess(q, k + 1, m);
  }

  /** n units of size m. */
  function Times(n: nat, m: nat): nat {
    n * m
  }

  lemma {:induction false} TimesZero(m: nat)
    ensures Times(0, m) == 0
  {
  }

  lemma {:induction false} TimesNext(n: nat, m: nat)
    ensures Times(n + 1, m) == Times(n, m) + m
  {
  }

  lemma {:induction false} TimesAdd(n: nat, k: nat, m: nat)
    ensures Times(n + k, m) == Times(n, m) + Times(k, m)
  {
  }

  lemma {:induction false} TimesMonotonic(n: nat, k: nat, m: nat)
    requires n <= k
    ensures Times(n, m) <= Times(k, m)
  {
    MulMonotonic(n, k, m);
  }

  lemma {:induction false} MulMonotonic(x: int, y: int, b: nat)
    requires x <= y
    ensures x * b <= y * b
  {
  }

  lemma {:induction false} MulLess(x: int, y: int, b: nat)
    requires x * b < y * b
    ensures x < y
  {
    assert (y - x) * b > 0;
  }

  lemma {:induction false} MulCancel(x: int, y: int, b: nat)
    requires b > 0 && x * b <= y * b
    ensures x <= y
  {
    assert (x - 1) * b == x * b - b;
    MulLess(x - 1, y, b);
  }

  lemma {:induction false} Exchange(p: int, b: int, d: int, e: int)
    ensures p * (e * b) * d == p * (e * d) * b
  {
    assert (e * b) * d == (e * d) * b;
    assert p * (e * b) * d == p * ((e * b) * d);
    assert p * (e * d) * b == p * ((e * d) * b);
  }

  lemma {:induction false} Covered(x: nat, b: nat, d: nat, e: nat, y: nat, p: int)
    requires b > 0 && x * b <= y * d && y <= p * (e * b)
    ensures x <= p * (e * d)
  {
    MulMonotonic(y, p * (e * b), d);
    Exchange(p, b, d, e);
    MulCancel(x, p * (e * d), b);
  }

  lemma {:induction false} NotCovered(x: nat, b: nat, d: nat, e: nat, y: nat, p: int)
    requires b > 0 && (y - 1) * d < x * b && p * (e * b) < y
    ensures p * (e * d) < x
  {
    MulMonotonic(p * (e * b), y - 1, d);
    Exchange(p, b, d, e);
    if x <= p * (e * d) {
      MulMonotonic(x, p * (e * d), b);
    }
  }

  lemma {:induction false} Positive(a: nat, b: nat)
    requires a > 0 && b > 0
    ensures a * b > 0
  {
  }

  /** Scaling first and rounding up in between does not change how many units there are: an image of x rows, scaled
      by b/d and rounded up, has as many units of b * e rows as the unscaled image has units of d * e rows. */
  lemma {:induction false} RoundUpNested(x: nat, b: nat, d: nat, e: nat)
    requires x > 0 && b > 0 && d > 0 && e > 0
    ensures e * b > 0 && e * d > 0
    ensures DivRoundUp(DivRoundUp(x * b, d), e * b) == DivRoundUp(x, e * d)
  {
    hide DivRoundUp;
    Positive(x, b); Positive(e, b); Positive(e, d);
    var n, m, w := x * b, e * b, e * d;
    var y := DivRoundUp(n, d);
    assert y > 0;
    var p := DivRoundUp(y, m);
    Covered(x, b, d, e, y, p);
    NotCovered(x, b, d, e, y, p - 1);
    RoundUpUnique(x, w, p);
  }
}
