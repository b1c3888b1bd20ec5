/**
 The Rijndael block cipher over 32-bit words: key expansion, the table-driven rounds, and the
 equivalent inverse cipher (FIPS 197, sections 5.1 to 5.3.5).
 */
module Rijndael {
  import opened SBox

  function B0(w: bv32): bv8
  {
    (w >> 24) as bv8
  }

  function B1(w: bv32): bv8
  {
    ((w >> 16) & 0xff) as bv8
  }

  function B2(w: bv32): bv8
  {
    ((w >> 8) & 0xff) as bv8
  }

  function B3(w: bv32): bv8
  {
    (w & 0xff) as bv8
  }

  /** Four bytes as a word, most significant first (GETU32). */
  function Word(a: bv8, b: bv8, c: bv8, d: bv8): bv32
  {
    ((a as bv32) << 24) ^ ((b as bv32) << 16) ^ ((c as bv32) << 8) ^ (d as bv32)
  }

  lemma WordBytes(a: bv8, b: bv8, c: bv8, d: bv8)
    ensures B0(Word(a, b, c, d)) == a && B1(Word(a, b, c, d)) == b
    ensures B2(Word(a, b, c, d)) == c && B3(Word(a, b, c, d)) == d
  {
  }

  lemma BytesWord(w: bv32)
    ensures Word(B0(w), B1(w), B2(w), B3(w)) == w
  {
  }

  function Sum(v: bv32, w: bv32): bv32
  {
    v ^ w
  }

  lemma XorBytes(v: bv32, w: bv32)
    ensures B0(v ^ w) == B0(v) ^ B0(w) && B1(v ^ w) == B1(v) ^ B1(w)
    ensures B2(v ^ w) == B2(v) ^ B2(w) && B3(v ^ w) == B3(v) ^ B3(w)
  {
  }

  lemma SumBytes(v: bv32, w: bv32)
    ensures B0(Sum(v, w)) == Add(B0(v), B0(w)) && B1(Sum(v, w)) == Add(B1(v), B1(w))
    ensures B2(Sum(v, w)) == Add(B2(v), B2(w)) && B3(Sum(v, w)) == Add(B3(v), B3(w))
  {
    hide B0, B1, B2, B3;
    XorBytes(v, w);
  }

  lemma SumWords(a: bv8, b: bv8, c: bv8, d: bv8, a1: bv8, b1: bv8, c1: bv8, d1: bv8)
    ensures Sum(Word(a, b, c, d), Word(a1, b1, c1, d1)) == Word(Add(a, a1), Add(b, b1), Add(c, c1), Add(d, d1))
  {
  }

  lemma SumTwice(v: bv32, w: bv32)
    ensures Sum(Sum(v, w), w) == v
  {
  }

  // Multiples in GF(2^8).
  function X3(a: bv8): bv8 { Add(Double(a), a) }
  function X9(a: bv8): bv8 { Add(Double(Double(Double(a))), a) }
  function Xb(a: bv8): bv8 { Add(Add(Double(Double(Double(a))), Double(a)), a) }
  function Xd(a: bv8): bv8 { Add(Add(Double(Double(Double(a))), Double(Double(a))), a) }
  function Xe(a: bv8): bv8 { Add(Add(Double(Double(Double(a))), Double(Double(a))), Double(a)) }
  function Add4(a: bv8, b: bv8, c: bv8, d: bv8): bv8 { Add(Add(Add(a, b), c), d) }

  // The tables, by the definitions that head the source file.
  function Te0(x: bv8): bv32 { Word(Double(S(x)), S(x), S(x), X3(S(x))) }
  function Te1(x: bv8): bv32 { Word(X3(S(x)), Double(S(x)), S(x), S(x)) }
  function Te2(x: bv8): bv32 { Word(S(x), X3(S(x)), Double(S(x)), S(x)) }
  function Te3(x: bv8): bv32 { Word(S(x), S(x), X3(S(x)), Double(S(x))) }
  function Te4(x: bv8): bv32 { Word(S(x), S(x), S(x), S(x)) }
  function Td0(x: bv8): bv32 { Word(Xe(Si(x)), X9(Si(x)), Xd(Si(x)), Xb(Si(x))) }
  function Td1(x: bv8): bv32 { Word(Xb(Si(x)), Xe(Si(x)), X9(Si(x)), Xd(Si(x))) }
  function Td2(x: bv8): bv32 { Word(Xd(Si(x)), Xb(Si(x)), Xe(Si(x)), X9(Si(x))) }
  function Td3(x: bv8): bv32 { Word(X9(Si(x)), Xd(Si(x)), Xb(Si(x)), Xe(Si(x))) }
  function Td4(x: bv8): bv32 { Word(Si(x), Si(x), Si(x), Si(x)) }

  /** The four columns of the cipher state. */
  datatype State = State(s0: bv32, s1: bv32, s2: bv32, s3: bv32)

  function SubWord(w: bv32): bv32
  {
    Word(S(B0(w)), S(B1(w)), S(B2(w)), S(B3(w)))
  }

  function InvSubWord(w: bv32): bv32
  {
    Word(Si(B0(w)), Si(B1(w)), Si(B2(w)), Si(B3(w)))
  }

  function Mix(a: bv8, b: bv8, c: bv8, d: bv8): bv8
  {
    Add4(Double(a), X3(b), c, d)
  }

  function MixWord(w: bv32): bv32
  {
    var a, b, c, d := B0(w), B1(w), B2(w), B3(w);
    Word(Mix(a, b, c, d), Mix(b, c, d, a), Mix(c, d, a, b), Mix(d, a, b, c))
  }

  function InvMix(a: bv8, b: bv8, c: bv8, d: bv8): bv8
  {
    Add4(Xe(a), Xb(b), Xd(c), X9(d))
  }

  function InvMixWord(w: bv32): bv32
  {
    var a, b, c, d := B0(w), B1(w), B2(w), B3(w);
    Word(InvMix(a, b, c, d), InvMix(b, c, d, a), InvMix(c, d, a, b), InvMix(d, a, b, c))
  }

  function SubBytes(s: State): State
  {
    State(SubWord(s.s0), SubWord(s.s1), SubWord(s.s2), SubWord(s.s3))
  }

  function InvSubBytes(s: State): State
  {
    State(InvSubWord(s.s0), InvSubWord(s.s1), InvSubWord(s.s2), InvSubWord(s.s3))
  }

  function ShiftRows(s: State): State
  {
    State(Word(B0(s.s0), B1(s.s1), B2(s.s2), B3(s.s3)), Word(B0(s.s1), B1(s.s2), B2(s.s3), B3(s.s0)),
          Word(B0(s.s2), B1(s.s3), B2(s.s0), B3(s.s1)), Word(B0(s.s3), B1(s.s0), B2(s.s1), B3(s.s2)))
  }

  function InvShiftRows(s: State): State
  {
    State(Word(B0(s.s0), B1(s.s3), B2(s.s2), B3(s.s1)), Word(B0(s.s1), B1(s.s0), B2(s.s3), B3(s.s2)),
          Word(B0(s.s2), B1(s.s1), B2(s.s0), B3(s.s3)), Word(B0(s.s3), B1(s.s2), B2(s.s1), B3(s.s0)))
  }

  function MixColumns(s: State): State
  {
    State(MixWord(s.s0), MixWord(s.s1), MixWord(s.s2), MixWord(s.s3))
  }

  function InvMixColumns(s: State): State
  {
    State(InvMixWord(s.s0), InvMixWord(s.s1), InvMixWord(s.s2), InvMixWord(s.s3))
  }

  function AddRoundKey(s: State, k: State): State
  {
    State(Sum(s.s0, k.s0), Sum(s.s1, k.s1), Sum(s.s2, k.s2), Sum(s.s3, k.s3))
  }

  function RoundKey(rk: seq<bv32>, r: nat): State
    requires 4 * r + 4 <= |rk|
  {
    State(rk[4 * r], rk[4 * r + 1], rk[4 * r + 2], rk[4 * r + 3])
  }

  // Section 5.1: the cipher.

  function Round(s: State, k: State): State
  {
    AddRoundKey(MixColumns(ShiftRows(SubBytes(s))), k)
  }

  function Rounds(rk: seq<bv32>, r: nat, s: State): State
    requires 4 * r + 4 <= |rk|
  {
    if r == 0 then s else Round(Rounds(rk, r - 1, s), RoundKey(rk, r))
  }

  function Cipher(rk: seq<bv32>, nr: nat, s: State): State
    requires 0 < nr && 4 * nr + 4 <= |rk|
  {
    AddRoundKey(ShiftRows(SubBytes(Rounds(rk, nr - 1, AddRoundKey(s, RoundKey(rk, 0))))), RoundKey(rk, nr))
  }

  // Section 5.3: the inverse cipher, undoing one round after the other.

  function UndoRound(s: State, k: State): State
  {
    InvSubBytes(InvShiftRows(InvMixColumns(AddRoundKey(s, k))))
  }

  function UndoRounds(rk: seq<bv32>, r: nat, s: State): State
    requires 4 * r + 4 <= |rk|
  {
    if r == 0 then s else UndoRounds(rk, r - 1, UndoRound(s, RoundKey(rk, r)))
  }

  function InvCipher(rk: seq<bv32>, nr: nat, s: State): State
    requires 0 < nr && 4 * nr + 4 <= |rk|
  {
    AddRoundKey(UndoRounds(rk, nr - 1, InvSubBytes(InvShiftRows(AddRoundKey(s, RoundKey(rk, nr))))), RoundKey(rk, 0))
  }

  // Section 5.3.5: the equivalent inverse cipher, with the round order of the cipher.

  function EqRound(s: State, k: State): State
  {
    AddRoundKey(InvMixColumns(InvShiftRows(InvSubBytes(s))), k)
  }

  function EqRounds(dk: seq<bv32>, r: nat, s: State): State
    requires 4 * r + 4 <= |dk|
  {
    if r == 0 then s else EqRound(EqRounds(dk, r - 1, s), RoundKey(dk, r))
  }

  function EqInvCipher(dk: seq<bv32>, nr: nat, s: State): State
    requires 0 < nr && 4 * nr + 4 <= |dk|
  {
    AddRoundKey(InvShiftRows(InvSubBytes(EqRounds(dk, nr - 1, AddRoundKey(s, RoundKey(dk, 0))))), RoundKey(dk, nr))
  }

  /** dk is the reversed schedule ek with InvMixColumns applied to all but its first and last round keys. */
  ghost predicate DecryptKeys(ek: seq<bv32>, dk: seq<bv32>, nr: nat)
    requires 0 < nr && 4 * nr + 4 <= |ek| && 4 * nr + 4 <= |dk|
  {
    && RoundKey(dk, 0) == RoundKey(ek, nr)
    && RoundKey(dk, nr) == RoundKey(ek, 0)
    && forall i :: 0 < i < nr ==> RoundKey(dk, i) == InvMixColumns(RoundKey(ek, nr - i))
  }

  // The steps and their inverses.

  lemma SubUndone(w: bv32)
    ensures InvSubWord(SubWord(w)) == w && SubWord(InvSubWord(w)) == w
  {
    hide S, Si, B0, B1, B2, B3, Word;
    var a, b, c, d := B0(w), B1(w), B2(w), B3(w);
    BytesWord(w);
    WordBytes(S(a), S(b), S(c), S(d));
    WordBytes(Si(a), Si(b), Si(c), Si(d));
    Undone(a);
    Undone(b);
    Undone(c);
    Undone(d);
    Redone(a);
    Redone(b);
    Redone(c);
    Redone(d);
  }

  lemma SubBytesUndone(s: State)
    ensures InvSubBytes(SubBytes(s)) == s && SubBytes(InvSubBytes(s)) == s
  {
    hide SubWord, InvSubWord;
    SubUndone(s.s0);
    SubUndone(s.s1);
    SubUndone(s.s2);
    SubUndone(s.s3);
  }

  lemma DoubleAdd(a: bv8, b: bv8)
    ensures Double(Add(a, b)) == Add(Double(a), Double(b))
  {
  }

  lemma AddAssoc(a: bv8, b: bv8, c: bv8)
    ensures Add(Add(a, b), c) == Add(a, Add(b, c))
  {
  }

  lemma AddComm(a: bv8, b: bv8)
    ensures Add(a, b) == Add(b, a)
  {
  }

  lemma Regroup(a: bv8, b: bv8, c: bv8, d: bv8)
    ensures Add(Add(a, b), Add(c, d)) == Add(Add(a, c), Add(b, d))
  {
    hide Add;
    AddAssoc(a, b, Add(c, d));
    AddAssoc(b, c, d);
    AddComm(b, c);
    AddAssoc(c, b, d);
    AddAssoc(a, c, Add(b, d));
  }

  lemma Double3Add(a: bv8, b: bv8)
    ensures Double(Double(Double(Add(a, b)))) == Add(Double(Double(Double(a))), Double(Double(Double(b))))
    ensures Double(Double(Add(a, b))) == Add(Double(Double(a)), Double(Double(b)))
    ensures Double(Add(a, b)) == Add(Double(a), Double(b))
  {
    hide Double, Add;
    DoubleAdd(a, b);
    DoubleAdd(Double(a), Double(b));
    DoubleAdd(Double(Double(a)), Double(Double(b)));
  }

  /** The multiples distribute over the sum of bytes. */
  lemma MultiplesAdd(a: bv8, b: bv8)
    ensures X3(Add(a, b)) == Add(X3(a), X3(b))
    ensures X9(Add(a, b)) == Add(X9(a), X9(b))
    ensures Xb(Add(a, b)) == Add(Xb(a), Xb(b))
    ensures Xd(Add(a, b)) == Add(Xd(a), Xd(b))
    ensures Xe(Add(a, b)) == Add(Xe(a), Xe(b))
  {
    hide Double, Add;
    Double3Add(a, b);
    var a1, b1 := Double(a), Double(b);
    var a2, b2 := Double(a1), Double(b1);
    var a3, b3 := Double(a2), Double(b2);
    Regroup(a1, b1, a, b);
    Regroup(a3, b3, a, b);
    Regroup(a3, b3, a1, b1);
    Regroup(a3, b3, a2, b2);
    Regroup(Add(a3, a1), Add(b3, b1), a, b);
    Regroup(Add(a3, a2), Add(b3, b2), a, b);
    Regroup(Add(a3, a2), Add(b3, b2), a1, b1);
  }

  lemma Add4Pair(a: bv8, b: bv8, c: bv8, d: bv8, a1: bv8, b1: bv8, c1: bv8, d1: bv8)
    ensures Add(Add4(a, b, c, d), Add4(a1, b1, c1, d1)) == Add4(Add(a, a1), Add(b, b1), Add(c, c1), Add(d, d1))
  {
    hide Add;
    Regroup(a, b, a1, b1);
    Regroup(Add(a, b), c, Add(a1, b1), c1);
    Regroup(Add(Add(a, b), c), d, Add(Add(a1, b1), c1), d1);
  }

  lemma Rotate(a: bv8, b: bv8, c: bv8, d: bv8)
    ensures Add4(b, c, d, a) == Add4(a, b, c, d)
  {
    hide Add;
    AddComm(Add(Add(b, c), d), a);
    AddAssoc(Add(a, b), c, d);
    AddAssoc(a, b, Add(c, d));
    AddAssoc(b, c, d);
  }

  /** A sum of sixteen bytes by rows, each row starting one later, and by columns. */
  lemma Collect(a0: bv8, a1: bv8, a2: bv8, a3: bv8, b0: bv8, b1: bv8, b2: bv8, b3: bv8,
                c0: bv8, c1: bv8, c2: bv8, c3: bv8, d0: bv8, d1: bv8, d2: bv8, d3: bv8)
    ensures Add4(Add4(a0, b0, c0, d0), Add4(b1, c1, d1, a1), Add4(c2, d2, a2, b2), Add4(d3, a3, b3, c3))
         == Add4(Add4(a0, a1, a2, a3), Add4(b0, b1, b2, b3), Add4(c0, c1, c2, c3), Add4(d0, d1, d2, d3))
  {
    hide Add;
    assert Add4(b1, c1, d1, a1) == Add4(a1, b1, c1, d1) by {
      Rotate(a1, b1, c1, d1);
    }
    assert Add4(c2, d2, a2, b2) == Add4(a2, b2, c2, d2) by {
      Rotate(a2, b2, c2, d2);
      Rotate(b2, c2, d2, a2);
    }
    assert Add4(d3, a3, b3, c3) == Add4(a3, b3, c3, d3) by {
      Rotate(d3, a3, b3, c3);
    }
    Add4Pair(a0, b0, c0, d0, a1, b1, c1, d1);
    Add4Pair(Add(a0, a1), Add(b0, b1), Add(c0, c1), Add(d0, d1), a2, b2, c2, d2);
    Add4Pair(Add(Add(a0, a1), a2), Add(Add(b0, b1), b2), Add(Add(c0, c1), c2), Add(Add(d0, d1), d2), a3, b3, c3, d3);
  }

  lemma MultiplesAdd4(a: bv8, b: bv8, c: bv8, d: bv8)
    ensures X3(Add4(a, b, c, d)) == Add4(X3(a), X3(b), X3(c), X3(d))
    ensures X9(Add4(a, b, c, d)) == Add4(X9(a), X9(b), X9(c), X9(d))
    ensures Xb(Add4(a, b, c, d)) == Add4(Xb(a), Xb(b), Xb(c), Xb(d))
    ensures Xd(Add4(a, b, c, d)) == Add4(Xd(a), Xd(b), Xd(c), Xd(d))
    ensures Xe(Add4(a, b, c, d)) == Add4(Xe(a), Xe(b), Xe(c), Xe(d))
    ensures Double(Add4(a, b, c, d)) == Add4(Double(a), Double(b), Double(c), Double(d))
  {
    hide Double, Add, X3, X9, Xb, Xd, Xe;
    MultiplesAdd(a, b);
    MultiplesAdd(Add(a, b), c);
    MultiplesAdd(Add(Add(a, b), c), d);
    DoubleAdd(a, b);
    DoubleAdd(Add(a, b), c);
    DoubleAdd(Add(Add(a, b), c), d);
  }

  // The entries of the product of the two mixing matrices: one on the diagonal, zero elsewhere.

  lemma Entry0(a: bv8)
    ensures Add4(Xe(Double(a)), Xb(a), Xd(a), X9(X3(a))) == a
  {
  }

  lemma Entry1(a: bv8)
    ensures Add4(Xe(X3(a)), Xb(Double(a)), Xd(a), X9(a)) == 0
  {
  }

  lemma Entry2(a: bv8)
    ensures Add4(Xe(a), Xb(X3(a)), Xd(Double(a)), X9(a)) == 0
  {
  }

  lemma Entry3(a: bv8)
    ensures Add4(Xe(a), Xb(a), Xd(X3(a)), X9(Double(a))) == 0
  {
  }

  lemma Swap13(a: bv8, b: bv8, c: bv8, d: bv8)
    ensures Add4(a, d, c, b) == Add4(a, b, c, d)
  {
    hide Add;
    AddAssoc(a, d, c);
    AddComm(d, c);
    AddAssoc(a, Add(c, d), b);
    AddComm(Add(c, d), b);
    AddAssoc(a, b, Add(c, d));
    AddAssoc(Add(a, b), c, d);
  }

  lemma SwapPairs(a: bv8, b: bv8, c: bv8, d: bv8)
    ensures Add4(b, a, d, c) == Add4(a, b, c, d)
  {
    hide Add;
    AddComm(a, b);
    AddAssoc(Add(b, a), d, c);
    AddComm(d, c);
    AddAssoc(Add(a, b), c, d);
  }

  lemma Permuted(a: bv8, b: bv8, c: bv8, d: bv8)
    ensures Add4(a, d, c, b) == Add4(a, b, c, d)
    ensures Add4(b, a, d, c) == Add4(a, b, c, d)
    ensures Add4(c, b, a, d) == Add4(a, b, c, d)
    ensures Add4(d, c, b, a) == Add4(a, b, c, d)
  {
    hide Add4;
    Swap13(a, b, c, d);
    SwapPairs(a, b, c, d);
    Swap13(d, a, b, c);
    Rotate(d, a, b, c);
    Rotate(c, b, a, d);
    Rotate(b, a, d, c);
    Swap13(b, a, d, c);
  }

  /** Multiplying by two constants in either order. */
  lemma Commute(a: bv8)
    ensures Double(X9(a)) == X9(Double(a)) && X3(X9(a)) == X9(X3(a))
    ensures Double(Xb(a)) == Xb(Double(a)) && X3(Xb(a)) == Xb(X3(a))
    ensures Double(Xd(a)) == Xd(Double(a)) && X3(Xd(a)) == Xd(X3(a))
    ensures Double(Xe(a)) == Xe(Double(a)) && X3(Xe(a)) == Xe(X3(a))
  {
    hide Double, Add;
    var a1, a2, a3 := Double(a), Double(Double(a)), Double(Double(Double(a)));
    MultiplesAdd(a1, a);
    DoubleAdd(a3, a);
    DoubleAdd(a3, a1);
    DoubleAdd(Add(a3, a1), a);
    DoubleAdd(a3, a2);
    DoubleAdd(Add(a3, a2), a);
    DoubleAdd(Add(a3, a2), a1);
  }

  lemma Entries(a: bv8)
    ensures Add4(Double(Xe(a)), X3(X9(a)), Xd(a), Xb(a)) == a
    ensures Add4(Double(Xb(a)), X3(Xe(a)), X9(a), Xd(a)) == 0
    ensures Add4(Double(Xd(a)), X3(Xb(a)), Xe(a), X9(a)) == 0
    ensures Add4(Double(X9(a)), X3(Xd(a)), Xb(a), Xe(a)) == 0
  {
    hide Double, Add4, X3, X9, Xb, Xd, Xe;
    Commute(a);
    Entry0(a);
    Entry1(a);
    Entry2(a);
    Entry3(a);
    Permuted(Xe(Double(a)), Xb(a), Xd(a), X9(X3(a)));
    Permuted(Xe(X3(a)), Xb(Double(a)), Xd(a), X9(a));
    Permuted(Xe(a), Xb(X3(a)), Xd(Double(a)), X9(a));
    Permuted(Xe(a), Xb(a), Xd(X3(a)), X9(Double(a)));
  }

  lemma OnlyFirst(a: bv8)
    ensures Add4(a, 0, 0, 0) == a
  {
  }

  lemma MixUndone(a: bv8, b: bv8, c: bv8, d: bv8)
    ensures InvMix(Mix(a, b, c, d), Mix(b, c, d, a), Mix(c, d, a, b), Mix(d, a, b, c)) == a
  {
    hide Double, Add4, X3, X9, Xb, Xd, Xe;
    MultiplesAdd4(Double(a), X3(b), c, d);
    MultiplesAdd4(Double(b), X3(c), d, a);
    MultiplesAdd4(Double(c), X3(d), a, b);
    MultiplesAdd4(Double(d), X3(a), b, c);
    Collect(Xe(Double(a)), Xb(a), Xd(a), X9(X3(a)), Xe(X3(b)), Xb(Double(b)), Xd(b), X9(b),
            Xe(c), Xb(X3(c)), Xd(Double(c)), X9(c), Xe(d), Xb(d), Xd(X3(d)), X9(Double(d)));
    Entry0(a);
    Entry1(b);
    Entry2(c);
    Entry3(d);
    OnlyFirst(a);
  }

  lemma InvMixUndone(a: bv8, b: bv8, c: bv8, d: bv8)
    ensures Mix(InvMix(a, b, c, d), InvMix(b, c, d, a), InvMix(c, d, a, b), InvMix(d, a, b, c)) == a
  {
    hide Double, Add4, X3, X9, Xb, Xd, Xe;
    MultiplesAdd4(Xe(a), Xb(b), Xd(c), X9(d));
    MultiplesAdd4(Xe(b), Xb(c), Xd(d), X9(a));
    Collect(Double(Xe(a)), X3(X9(a)), Xd(a), Xb(a), Double(Xb(b)), X3(Xe(b)), X9(b), Xd(b),
            Double(Xd(c)), X3(Xb(c)), Xe(c), X9(c), Double(X9(d)), X3(Xd(d)), Xb(d), Xe(d));
    Entries(a);
    Entries(b);
    Entries(c);
    Entries(d);
    OnlyFirst(a);
  }

  lemma MixWordUndone(w: bv32)
    ensures InvMixWord(MixWord(w)) == w && MixWord(InvMixWord(w)) == w
  {
    hide Mix, InvMix, B0, B1, B2, B3, Word;
    var a, b, c, d := B0(w), B1(w), B2(w), B3(w);
    WordBytes(Mix(a, b, c, d), Mix(b, c, d, a), Mix(c, d, a, b), Mix(d, a, b, c));
    WordBytes(InvMix(a, b, c, d), InvMix(b, c, d, a), InvMix(c, d, a, b), InvMix(d, a, b, c));
    MixUndone(a, b, c, d);
    MixUndone(b, c, d, a);
    MixUndone(c, d, a, b);
    MixUndone(d, a, b, c);
    InvMixUndone(a, b, c, d);
    InvMixUndone(b, c, d, a);
    InvMixUndone(c, d, a, b);
    InvMixUndone(d, a, b, c);
    BytesWord(w);
  }

  lemma InvMixAdd(a: bv8, b: bv8, c: bv8, d: bv8, a1: bv8, b1: bv8, c1: bv8, d1: bv8)
    ensures InvMix(Add(a, a1), Add(b, b1), Add(c, c1), Add(d, d1)) == Add(InvMix(a, b, c, d), InvMix(a1, b1, c1, d1))
  {
    hide Add, X3, X9, Xb, Xd, Xe, Add4;
    MultiplesAdd(a, a1);
    MultiplesAdd(b, b1);
    MultiplesAdd(c, c1);
    MultiplesAdd(d, d1);
    Add4Pair(Xe(a), Xb(b), Xd(c), X9(d), Xe(a1), Xb(b1), Xd(c1), X9(d1));
  }

  /** InvMixColumns distributes over the sum of words. */
  lemma InvMixSum(v: bv32, w: bv32)
    ensures InvMixWord(Sum(v, w)) == Sum(InvMixWord(v), InvMixWord(w))
  {
    hide Add, InvMix, Sum, B0, B1, B2, B3, Word;
    var a, b, c, d := B0(v), B1(v), B2(v), B3(v);
    var a1, b1, c1, d1 := B0(w), B1(w), B2(w), B3(w);
    SumBytes(v, w);
    InvMixAdd(a, b, c, d, a1, b1, c1, d1);
    InvMixAdd(b, c, d, a, b1, c1, d1, a1);
    InvMixAdd(c, d, a, b, c1, d1, a1, b1);
    InvMixAdd(d, a, b, c, d1, a1, b1, c1);
    SumWords(InvMix(a, b, c, d), InvMix(b, c, d, a), InvMix(c, d, a, b), InvMix(d, a, b, c),
             InvMix(a1, b1, c1, d1), InvMix(b1, c1, d1, a1), InvMix(c1, d1, a1, b1), InvMix(d1, a1, b1, c1));
  }

  lemma ShiftUndone(s: State)
    ensures InvShiftRows(ShiftRows(s)) == s && ShiftRows(InvShiftRows(s)) == s
  {
    hide B0, B1, B2, B3, Word;
    WordBytes(B0(s.s0), B1(s.s1), B2(s.s2), B3(s.s3));
    WordBytes(B0(s.s1), B1(s.s2), B2(s.s3), B3(s.s0));
    WordBytes(B0(s.s2), B1(s.s3), B2(s.s0), B3(s.s1));
    WordBytes(B0(s.s3), B1(s.s0), B2(s.s1), B3(s.s2));
    WordBytes(B0(s.s0), B1(s.s3), B2(s.s2), B3(s.s1));
    WordBytes(B0(s.s1), B1(s.s0), B2(s.s3), B3(s.s2));
    WordBytes(B0(s.s2), B1(s.s1), B2(s.s0), B3(s.s3));
    WordBytes(B0(s.s3), B1(s.s2), B2(s.s1), B3(s.s0));
    BytesWord(s.s0);
    BytesWord(s.s1);
    BytesWord(s.s2);
    BytesWord(s.s3);
  }

  lemma MixColumnsUndone(s: State)
    ensures InvMixColumns(MixColumns(s)) == s && MixColumns(InvMixColumns(s)) == s
  {
    hide MixWord, InvMixWord;
    MixWordUndone(s.s0);
    MixWordUndone(s.s1);
    MixWordUndone(s.s2);
    MixWordUndone(s.s3);
  }

  lemma AddUndone(s: State, k: State)
    ensures AddRoundKey(AddRoundKey(s, k), k) == s
  {
    hide Sum;
    SumTwice(s.s0, k.s0);
    SumTwice(s.s1, k.s1);
    SumTwice(s.s2, k.s2);
    SumTwice(s.s3, k.s3);
  }

  lemma InvMixKey(s: State, k: State)
    ensures InvMixColumns(AddRoundKey(s, k)) == AddRoundKey(InvMixColumns(s), InvMixColumns(k))
  {
    hide InvMixWord, Sum;
    InvMixSum(s.s0, k.s0);
    InvMixSum(s.s1, k.s1);
    InvMixSum(s.s2, k.s2);
    InvMixSum(s.s3, k.s3);
  }

  /** Substitution works byte by byte, so it commutes with moving bytes. */
  lemma InvSubShift(s: State)
    ensures InvSubBytes(InvShiftRows(s)) == InvShiftRows(InvSubBytes(s))
  {
    hide B0, B1, B2, B3, Word, Si;
    WordBytes(B0(s.s0), B1(s.s3), B2(s.s2), B3(s.s1));
    WordBytes(B0(s.s1), B1(s.s0), B2(s.s3), B3(s.s2));
    WordBytes(B0(s.s2), B1(s.s1), B2(s.s0), B3(s.s3));
    WordBytes(B0(s.s3), B1(s.s2), B2(s.s1), B3(s.s0));
    WordBytes(Si(B0(s.s0)), Si(B1(s.s0)), Si(B2(s.s0)), Si(B3(s.s0)));
    WordBytes(Si(B0(s.s1)), Si(B1(s.s1)), Si(B2(s.s1)), Si(B3(s.s1)));
    WordBytes(Si(B0(s.s2)), Si(B1(s.s2)), Si(B2(s.s2)), Si(B3(s.s2)));
    WordBytes(Si(B0(s.s3)), Si(B1(s.s3)), Si(B2(s.s3)), Si(B3(s.s3)));
  }

  // Whole runs.

  lemma RoundUndone(s: State, k: State)
    ensures UndoRound(Round(s, k), k) == s && Round(UndoRound(s, k), k) == s
  {
    hide AddRoundKey, MixColumns, ShiftRows, SubBytes, InvMixColumns, InvShiftRows, InvSubBytes;
    var m := MixColumns(ShiftRows(SubBytes(s)));
    AddUndone(m, k);
    MixColumnsUndone(ShiftRows(SubBytes(s)));
    ShiftUndone(SubBytes(s));
    SubBytesUndone(s);
    var u := AddRoundKey(s, k);
    SubBytesUndone(InvShiftRows(InvMixColumns(u)));
    ShiftUndone(InvMixColumns(u));
    MixColumnsUndone(u);
    AddUndone(s, k);
  }

  lemma {:induction false} RoundsUndone(rk: seq<bv32>, r: nat, s: State)
    requires 4 * r + 4 <= |rk|
    ensures UndoRounds(rk, r, Rounds(rk, r, s)) == s
    ensures Rounds(rk, r, UndoRounds(rk, r, s)) == s
  {
    hide Round, UndoRound, RoundKey;
    if r > 0 {
      RoundUndone(Rounds(rk, r - 1, s), RoundKey(rk, r));
      RoundsUndone(rk, r - 1, s);
      RoundUndone(s, RoundKey(rk, r));
      RoundsUndone(rk, r - 1, UndoRound(s, RoundKey(rk, r)));
    }
  }

  /** The inverse cipher inverts the cipher on both sides, for every key schedule and block. */
  lemma CipherUndone(rk: seq<bv32>, nr: nat, s: State)
    requires 0 < nr && 4 * nr + 4 <= |rk|
    ensures InvCipher(rk, nr, Cipher(rk, nr, s)) == s
    ensures Cipher(rk, nr, InvCipher(rk, nr, s)) == s
  {
    hide AddRoundKey, ShiftRows, SubBytes, InvShiftRows, InvSubBytes, Rounds, UndoRounds, RoundKey;
    var first, last := RoundKey(rk, 0), RoundKey(rk, nr);
    var x := Rounds(rk, nr - 1, AddRoundKey(s, first));
    AddUndone(ShiftRows(SubBytes(x)), last);
    ShiftUndone(SubBytes(x));
    SubBytesUndone(x);
    RoundsUndone(rk, nr - 1, AddRoundKey(s, first));
    AddUndone(s, first);
    var y := InvSubBytes(InvShiftRows(AddRoundKey(s, last)));
    var z := UndoRounds(rk, nr - 1, y);
    AddUndone(z, first);
    RoundsUndone(rk, nr - 1, y);
    SubBytesUndone(InvShiftRows(AddRoundKey(s, last)));
    ShiftUndone(AddRoundKey(s, last));
    AddUndone(s, last);
  }

  /** r rounds of the equivalent inverse cipher, short of their last substitution, undo r rounds of the cipher. */
  lemma {:induction false} EqRoundsAre(ek: seq<bv32>, dk: seq<bv32>, nr: nat, r: nat, s: State)
    requires 0 < nr && 4 * nr + 4 <= |ek| && 4 * nr + 4 <= |dk| && DecryptKeys(ek, dk, nr) && r < nr
    ensures UndoRounds(ek, nr - 1, InvSubBytes(InvShiftRows(s)))
         == UndoRounds(ek, nr - 1 - r, InvSubBytes(InvShiftRows(EqRounds(dk, r, s))))
  {
    hide AddRoundKey, ShiftRows, InvShiftRows, InvSubBytes, InvMixColumns, RoundKey;
    if r > 0 {
      EqRoundsAre(ek, dk, nr, r - 1, s);
      var y, k := EqRounds(dk, r - 1, s), RoundKey(ek, nr - r);
      var x := InvSubBytes(InvShiftRows(y));
      InvSubShift(y);
      InvMixKey(x, k);
      assert UndoRound(x, k) == InvSubBytes(InvShiftRows(EqRound(y, RoundKey(dk, r))));
    }
  }

  /** The equivalent inverse cipher with the converted schedule is the inverse cipher. */
  lemma EquivalentInverse(ek: seq<bv32>, dk: seq<bv32>, nr: nat, s: State)
    requires 0 < nr && 4 * nr + 4 <= |ek| && 4 * nr + 4 <= |dk| && DecryptKeys(ek, dk, nr)
    ensures EqInvCipher(dk, nr, s) == InvCipher(ek, nr, s)
  {
    hide AddRoundKey, InvShiftRows, InvSubBytes, UndoRound, EqRound;
    var u := AddRoundKey(s, RoundKey(dk, 0));
    EqRoundsAre(ek, dk, nr, nr - 1, u);
    InvSubShift(EqRounds(dk, nr - 1, u));
  }
}
