/** Division with remainder, for the places where counters wrap. */
module Arithmetic {
  lemma Difference(a: int, b: int, l: int)
    ensures (a - b) * l == a * l - b * l
  {
  }

  lemma Times(a: nat, l: nat)
    requires a > 0
    ensures a * l >= l
  {
    assert a * l == l + (a - 1) * l;
  }

  /** Quotient and remainder are determined by x == q * n + r with r below n. */
  lemma Division(x: nat, q: nat, r: nat, n: nat)
    requires r < n && x == q * n + r
    ensures x / n == q && x % n == r
  {
    var q1, r1 := x / n, x % n;
    assert x == q1 * n + r1;
    Difference(q, q1, n);
    Difference(q1, q, n);
    if q1 > q {
      Times(q1 - q, n);
    } else if q1 < q {
      Times(q - q1, n);
    }
  }

  /** Reducing a summand first makes no difference. */
  lemma ModAdd(a: nat, b: nat, n: nat)
    requires n > 0
    ensures (a % n + b) % n == (a + b) % n
  {
    var x := a % n + b;
    var q, r := x / n, x % n;
    assert x == q * n + r && a == a / n * n + a % n;
    Difference(a / n + q, q, n);
    Division(a + b, a / n + q, r, n);
  }

  // Named forms of the operators, for proofs that need their laws but not their definitions.

  /** The multiple p * a. */
  function Scale(p: nat, a: nat): nat
  {
    p * a
  }

  function Quot(a: nat, b: nat): nat
    requires b > 0
  {
    a / b
  }

  function Rem(a: nat, b: nat): (r: nat)
    requires b > 0
    ensures r < b
  {
    a % b
  }

  lemma QuotRem(a: nat, b: nat)
    requires b > 0
    ensures a == Scale(b, Quot(a, b)) + Rem(a, b)
  {
  }

  lemma QuotOf(b: nat, q: nat, r: nat)
    requires r < b
    ensures Quot(Scale(b, q) + r, b) == q && Rem(Scale(b, q) + r, b) == r
  {
    assert b * q == q * b;
    Division(Scale(b, q) + r, q, r, b);
  }

  lemma ScaleLaws(p: nat, a: nat, b: nat)
    ensures Scale(p, a + b) == Scale(p, a) + Scale(p, b) && Scale(p, 0) == 0 && Scale(p, 1) == p
    ensures a < b ==> Scale(p, a) + p <= Scale(p, b)
  {
    if a < b {
      Difference(b, a, p);
      Times(b - a, p);
      assert (b - a) * p == p * b - p * a;
    }
  }

  lemma ScaleTwice(p: nat, q: nat, a: nat)
    ensures Scale(Scale(p, q), a) == Scale(p, Scale(q, a)) && Scale(p, q) == Scale(q, p)
  {
    assert p * q * a == p * (q * a);
  }

  lemma QuotBelow(a: nat, b: nat, q: nat)
    requires b > 0 && a < Scale(b, q)
    ensures Quot(a, b) < q
  {
    QuotRem(a, b);
    ScaleLaws(b, q, Quot(a, b));
  }
}
