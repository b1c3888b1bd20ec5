/** Bitwise operators on natural numbers of any size, and powers of two. */
module Bitwise {
  import opened Arithmetic

  function And(a: nat, b: nat): (r: nat)
    ensures r <= b
  {
    if a == 0 || b == 0 then 0 else 2 * And(a / 2, b / 2) + (if a % 2 == 1 && b % 2 == 1 then 1 else 0)
  }

  function Or(a: nat, b: nat): nat
  {
    if a == 0 then b else if b == 0 then a else 2 * Or(a / 2, b / 2) + (if a % 2 == 1 || b % 2 == 1 then 1 else 0)
  }

  function Pow2(k: nat): (p: nat)
    ensures p > 0
  {
    if k == 0 then 1 else 2 * Pow2(k - 1)
  }

  lemma {:induction false} OrComm(a: nat, b: nat)
    ensures Or(a, b) == Or(b, a)
  {
    if a != 0 && b != 0 {
      OrComm(a / 2, b / 2);
    }
  }

  lemma HalfAnd(a: nat, b: nat)
    ensures And(a, b) == 2 * And(a / 2, b / 2) + (if a % 2 == 1 && b % 2 == 1 then 1 else 0)
  {
  }

  lemma HalfOr(a: nat, b: nat)
    ensures Or(a, b) == 2 * Or(a / 2, b / 2) + (if a % 2 == 1 || b % 2 == 1 then 1 else 0)
  {
  }

  lemma HalfMod(v: nat, p: nat)
    requires p > 0
    ensures v % (2 * p) == 2 * (v / 2 % p) + v % 2
  {
    var q, r := v / 2 / p, v / 2 % p;
    assert q * (2 * p) == 2 * (q * p);
    Division(v, q, 2 * r + v % 2, 2 * p);
  }

  lemma NextPow(k: nat)
    requires k > 0
    ensures Pow2(k) == 2 * Pow2(k - 1)
  {
  }

  lemma AndStep(p: nat, v: nat)
    requires p > 0
    ensures And(2 * p - 1, v) == 2 * And(p - 1, v / 2) + v % 2
  {
    hide And;
    HalfAnd(2 * p - 1, v);
    assert (2 * p - 1) / 2 == p - 1;
  }

  /** Masking with 2^k - 1 is the remainder modulo 2^k. */
  lemma {:induction false} AndLow(k: nat, v: nat)
    ensures And(Pow2(k) - 1, v) == v % Pow2(k)
    decreases k
  {
    if k > 0 {
      hide Pow2, And;
      NextPow(k);
      var p := Pow2(k - 1);
      AndStep(p, v);
      AndLow(k - 1, v / 2);
      HalfMod(v, p);
    }
  }

  lemma TwiceScale(p: nat, a: nat)
    ensures Scale(2 * p, a) == 2 * Scale(p, a)
  {
  }

  lemma OrStep(x: nat, y: nat, z: nat, lo: nat)
    requires Or(x + lo / 2, y) == z + lo / 2
    ensures Or(2 * x + lo, 2 * y) == 2 * z + lo
  {
    hide Or;
    HalfOr(2 * x + lo, 2 * y);
  }

  /** Multiples of 2^k are combined above the low k bits, which stay as they are. */
  lemma {:induction false} OrScale(k: nat, a: nat, b: nat, lo: nat)
    requires lo < Pow2(k)
    ensures Or(Scale(Pow2(k), a) + lo, Scale(Pow2(k), b)) == Scale(Pow2(k), Or(a, b)) + lo
    decreases k
  {
    if k > 0 {
      hide Pow2, Or, Scale;
      NextPow(k);
      var p := Pow2(k - 1);
      OrScale(k - 1, a, b, lo / 2);
      TwiceScale(p, a);
      TwiceScale(p, b);
      TwiceScale(p, Or(a, b));
      OrStep(Scale(p, a), Scale(p, b), Scale(p, Or(a, b)), lo);
    }
  }

  lemma OrOne(q: nat)
    ensures Or(2 * q, 1) == 2 * q + 1
    ensures Or(q, 0) == q == Or(0, q)
  {
  }

  lemma {:induction false} PowGrows(k: nat, m: nat)
    requires k < m
    ensures 2 * Pow2(k) <= Pow2(m)
    decreases m
  {
    if k < m - 1 {
      PowGrows(k, m - 1);
    }
  }
}
