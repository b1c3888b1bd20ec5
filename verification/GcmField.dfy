/**
 The blocks of GCM as polynomials over GF(2) modulo x^128 + x^7 + x^2 + x + 1
 (section 6.3 of NIST SP 800-38D): multiplication as a sum of shifted copies is the
 commutative ring product.
 */
module GcmField {
  /** The coefficients of 1, x, ..., x^127. */
  type Elem = s: seq<bool> | |s| == 128 witness seq(128, i => false)

  function Zero(): (r: Elem)
    ensures forall i :: 0 <= i < 128 ==> !r[i]
  {
    seq(128, i => false)
  }

  /** The monomial x^n. */
  function Mono(n: nat): (r: Elem)
    ensures forall i :: 0 <= i < 128 ==> r[i] == (i == n)
  {
    seq(128, i => i == n)
  }

  function Add(a: Elem, b: Elem): (r: Elem)
    ensures forall i :: 0 <= i < 128 ==> r[i] == (a[i] != b[i])
  {
    seq(128, i requires 0 <= i < 128 => a[i] != b[i])
  }

  /** The exponents of x^128 reduced: 1 + x + x^2 + x^7. */
  predicate Tap(i: nat)
  {
    i == 0 || i == 1 || i == 2 || i == 7
  }

  /** Multiplication by x. */
  function TimesX(a: Elem): (r: Elem)
    ensures r[0] == a[127]
    ensures forall i :: 1 <= i < 128 ==> r[i] == (a[i - 1] != (Tap(i) && a[127]))
  {
    seq(128, i requires 0 <= i < 128 => (i > 0 && a[i - 1]) != (Tap(i) && a[127]))
  }

  function Pick(c: bool, v: Elem): Elem
  {
    if c then v else Zero()
  }

  /** The sum of v times x^(k - i) over the coefficients k >= i of b. */
  function MulFrom(v: Elem, b: Elem, i: nat): Elem
    requires i <= 128
    decreases 128 - i
  {
    if i == 128 then Zero() else Add(Pick(b[i], v), MulFrom(TimesX(v), b, i + 1))
  }

  function Mul(a: Elem, b: Elem): Elem
  {
    MulFrom(a, b, 0)
  }

  // Addition.

  lemma AddLaws(a: Elem, b: Elem, c: Elem)
    ensures Add(a, b) == Add(b, a)
    ensures Add(Add(a, b), c) == Add(a, Add(b, c))
    ensures Add(a, Zero()) == a == Add(Zero(), a)
    ensures Add(a, a) == Zero()
  {
    hide Add, Zero;
  }

  lemma Regroup(a: Elem, b: Elem, c: Elem, d: Elem)
    ensures Add(Add(a, b), Add(c, d)) == Add(Add(a, c), Add(b, d))
  {
    hide Add, Zero;
  }

  lemma TimesXAdd(a: Elem, b: Elem)
    ensures TimesX(Add(a, b)) == Add(TimesX(a), TimesX(b))
    ensures TimesX(Zero()) == Zero()
  {
    hide Add, Zero, TimesX;
  }

  lemma PickAdd(c: bool, d: bool, v: Elem, w: Elem)
    ensures Pick(c, Add(v, w)) == Add(Pick(c, v), Pick(c, w))
    ensures Pick(c != d, v) == Add(Pick(c, v), Pick(d, v))
    ensures TimesX(Pick(c, v)) == Pick(c, TimesX(v))
  {
    AddLaws(v, Zero(), Zero());
    AddLaws(Zero(), Zero(), Zero());
    TimesXAdd(v, v);
  }

  // Multiplication distributes on both sides and commutes with x.

  lemma {:induction false} MulFromAddLeft(v: Elem, w: Elem, b: Elem, i: nat)
    requires i <= 128
    ensures MulFrom(Add(v, w), b, i) == Add(MulFrom(v, b, i), MulFrom(w, b, i))
    decreases 128 - i
  {
    hide Add, Zero, TimesX, Pick;
    if i == 128 {
      AddLaws(Zero(), Zero(), Zero());
    } else {
      TimesXAdd(v, w);
      MulFromAddLeft(TimesX(v), TimesX(w), b, i + 1);
      PickAdd(b[i], b[i], v, w);
      Regroup(Pick(b[i], v), Pick(b[i], w), MulFrom(TimesX(v), b, i + 1), MulFrom(TimesX(w), b, i + 1));
    }
  }

  lemma {:induction false} MulFromAddRight(v: Elem, b: Elem, c: Elem, i: nat)
    requires i <= 128
    ensures MulFrom(v, Add(b, c), i) == Add(MulFrom(v, b, i), MulFrom(v, c, i))
    decreases 128 - i
  {
    hide Add, Zero, TimesX, Pick;
    if i == 128 {
      AddLaws(Zero(), Zero(), Zero());
    } else {
      MulFromAddRight(TimesX(v), b, c, i + 1);
      PickAdd(b[i], c[i], v, v);
      Regroup(Pick(b[i], v), Pick(c[i], v), MulFrom(TimesX(v), b, i + 1), MulFrom(TimesX(v), c, i + 1));
    }
  }

  lemma {:induction false} MulFromTimesX(v: Elem, b: Elem, i: nat)
    requires i <= 128
    ensures MulFrom(TimesX(v), b, i) == TimesX(MulFrom(v, b, i))
    decreases 128 - i
  {
    hide Add, Zero, TimesX, Pick;
    if i == 128 {
      TimesXAdd(v, v);
    } else {
      MulFromTimesX(TimesX(v), b, i + 1);
      PickAdd(b[i], b[i], v, v);
      TimesXAdd(Pick(b[i], v), MulFrom(TimesX(v), b, i + 1));
    }
  }

  lemma {:induction false} MulFromZero(b: Elem, i: nat)
    requires i <= 128
    ensures MulFrom(Zero(), b, i) == Zero()
    decreases 128 - i
  {
    hide Add, Zero, TimesX;
    if i < 128 {
      MulFromZero(b, i + 1);
      TimesXAdd(Zero(), Zero());
      AddLaws(Zero(), Zero(), Zero());
    }
  }

  /** The product is linear in each factor. */
  lemma Bilinear(a: Elem, b: Elem, c: Elem)
    ensures Mul(Add(a, b), c) == Add(Mul(a, c), Mul(b, c))
    ensures Mul(a, Add(b, c)) == Add(Mul(a, b), Mul(a, c))
    ensures Mul(Zero(), a) == Zero()
  {
    hide MulFrom, Add, Zero, TimesX;
    MulFromAddLeft(a, b, c, 0);
    MulFromAddRight(a, b, c, 0);
    MulFromZero(a, 0);
  }

  /** Products of partial sums: the factors after the first may be exchanged. */
  lemma {:induction false} MulExchange(v: Elem, a: Elem, b: Elem, i: nat)
    requires i <= 128
    ensures Mul(MulFrom(v, a, i), b) == MulFrom(Mul(v, b), a, i)
    decreases 128 - i
  {
    hide Add, Zero, TimesX, Mul;
    if i == 128 {
      Bilinear(b, b, b);
    } else {
      MulExchange(TimesX(v), a, b, i + 1);
      Bilinear(Pick(a[i], v), MulFrom(TimesX(v), a, i + 1), b);
      Bilinear(b, b, b);
      MulTimesX(v, b);
    }
  }

  lemma MulTimesX(v: Elem, b: Elem)
    ensures Mul(TimesX(v), b) == TimesX(Mul(v, b))
  {
    MulFromTimesX(v, b, 0);
  }

  /** Starting from x^i, no shift below x^128 reduces, so each coefficient of b lands in its own place. */
  lemma {:induction false} UnitFrom(b: Elem, i: nat)
    requires i <= 128
    ensures forall k :: 0 <= k < 128 ==> MulFrom(Mono(i), b, i)[k] == (k >= i && b[k])
    decreases 128 - i
  {
    hide Add, Zero, TimesX, Mono;
    if i < 127 {
      assert TimesX(Mono(i)) == Mono(i + 1);
      UnitFrom(b, i + 1);
    } else if i == 127 {
      assert MulFrom(TimesX(Mono(127)), b, 128) == Zero();
    }
  }

  /** The block 0x80 00 ... 00 is the unit. */
  lemma Unit(a: Elem)
    ensures Mul(Mono(0), a) == a == Mul(a, Mono(0))
  {
    hide Add, Zero, TimesX, Mono, MulFrom, Mul;
    UnitLeft(a);
    Commutes(a, Mono(0));
  }

  lemma UnitLeft(a: Elem)
    ensures Mul(Mono(0), a) == a
  {
    hide Mono, MulFrom;
    UnitFrom(a, 0);
  }

  lemma Exchange(v: Elem, a: Elem, b: Elem)
    ensures Mul(Mul(v, a), b) == Mul(Mul(v, b), a)
  {
    hide MulFrom;
    MulExchange(v, a, b, 0);
  }

  lemma Commutes(a: Elem, b: Elem)
    ensures Mul(a, b) == Mul(b, a)
  {
    hide Mul, Mono;
    Exchange(Mono(0), a, b);
    UnitLeft(a);
    UnitLeft(b);
  }

  lemma Associates(a: Elem, b: Elem, c: Elem)
    ensures Mul(Mul(a, b), c) == Mul(a, Mul(b, c))
  {
    hide Mul;
    Commutes(a, b);
    Exchange(b, a, c);
    Commutes(a, Mul(b, c));
  }

  lemma NextMono(i: nat)
    requires i < 127
    ensures TimesX(Mono(i)) == Mono(i + 1)
  {
    hide TimesX, Mono;
  }

  /**
   Monomials multiply by adding exponents and x^128 reduces to 1 + x + x^2 + x^7. With Unit,
   Commutes, Associates and Bilinear this makes Mul the product of polynomials modulo that relation.
   */
  lemma {:induction false} Monomials(i: nat, j: nat)
    requires i + j < 128
    ensures Mul(Mono(i), Mono(j)) == Mono(i + j)
  {
    hide TimesX, Mono, Mul;
    if i == 0 {
      UnitLeft(Mono(j));
    } else {
      NextMono(i - 1);
      Monomials(i - 1, j);
      MulTimesX(Mono(i - 1), Mono(j));
      NextMono(i + j - 1);
    }
  }

  lemma Reduction(a: Elem)
    ensures TimesX(a) == Mul(a, Mono(1))
    ensures TimesX(Mono(127)) == Add(Add(Mono(0), Mono(1)), Add(Mono(2), Mono(7)))
  {
    hide TimesX, Mono, Mul, Add;
    NextMono(0);
    Commutes(a, Mono(1));
    MulTimesX(Mono(0), a);
    UnitLeft(a);
  }
}
