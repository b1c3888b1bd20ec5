/**
 The key wrap over the Rijndael context: encryption with one schedule and decryption with the
 other are the mutually inverse pair that wrapping and unwrapping need.
 */
module KeyWrapAes {
  import opened KeyWrap
  import R = Rijndael
  import C = RijndaelCode

  function High(w: bv64): bv32
  {
    (w >> 32) as bv32
  }

  function Low(w: bv64): bv32
  {
    (w & 0xffff_ffff) as bv32
  }

  function Join(h: bv32, l: bv32): bv64
  {
    ((h as bv64) << 32) | (l as bv64)
  }

  lemma Halves(w: bv64)
    ensures Join(High(w), Low(w)) == w
  {
  }

  lemma Joined(h: bv32, l: bv32)
    ensures High(Join(h, l)) == h && Low(Join(h, l)) == l
  {
  }

  function In(b: Block): R.State
  {
    R.State(High(b.hi), Low(b.hi), High(b.lo), Low(b.lo))
  }

  function Out(s: R.State): Block
  {
    Block(Join(s.s0, s.s1), Join(s.s2, s.s3))
  }

  lemma HalfBytes(w: bv64)
    ensures var s := Bytes64(w); High(w) == R.Word(s[0], s[1], s[2], s[3]) && Low(w) == R.Word(s[4], s[5], s[6], s[7])
  {
  }

  lemma JoinBytes(h: bv32, l: bv32)
    ensures Bytes64(Join(h, l)) == C.WordOut(h) + C.WordOut(l)
  {
    hide Join, High, Low, Bytes64, R.Word, R.B0, R.B1, R.B2, R.B3;
    var s := Bytes64(Join(h, l));
    Joined(h, l);
    HalfBytes(Join(h, l));
    R.WordBytes(s[0], s[1], s[2], s[3]);
    R.WordBytes(s[4], s[5], s[6], s[7]);
  }

  /** The two words of a block are its sixteen bytes, as the cipher takes and returns them. */
  lemma BlockBytes(b: Block, s: R.State)
    ensures In(b) == C.Block(Bytes64(b.hi) + Bytes64(b.lo))
    ensures Bytes64(Out(s).hi) + Bytes64(Out(s).lo) == C.BlockOut(s)
  {
    hide High, Low, Join, Bytes64, R.Word, R.B0, R.B1, R.B2, R.B3, C.WordOut;
    HalfBytes(b.hi);
    HalfBytes(b.lo);
    JoinBytes(s.s0, s.s1);
    JoinBytes(s.s2, s.s3);
    var p := C.WordOut(s.s0) + C.WordOut(s.s1);
    assert p + (C.WordOut(s.s2) + C.WordOut(s.s3)) == p + C.WordOut(s.s2) + C.WordOut(s.s3);
  }

  ghost function Encryption(ek: seq<bv32>, nr: nat): BlockCipher
    requires 0 < nr && 4 * nr + 4 <= |ek|
  {
    b => Out(R.Cipher(ek, nr, In(b)))
  }

  ghost function Decryption(dk: seq<bv32>, nr: nat): BlockCipher
    requires 0 < nr && 4 * nr + 4 <= |dk|
  {
    b => Out(R.EqInvCipher(dk, nr, In(b)))
  }

  /** The two directions of a key context undo each other. */
  lemma ContextInverts(ek: seq<bv32>, dk: seq<bv32>, nr: nat)
    requires 0 < nr && 4 * nr + 4 <= |ek| && 4 * nr + 4 <= |dk| && R.DecryptKeys(ek, dk, nr)
    ensures Inverse(Encryption(ek, nr), Decryption(dk, nr))
  {
    hide R.Cipher, R.EqInvCipher, R.InvCipher, R.DecryptKeys, In, Out;
    var enc, dec := Encryption(ek, nr), Decryption(dk, nr);
    forall b: Block
      ensures dec(enc(b)) == b && enc(dec(b)) == b
    {
      InOut(b, R.Cipher(ek, nr, In(b)));
      InOut(b, R.EqInvCipher(dk, nr, In(b)));
      R.EquivalentInverse(ek, dk, nr, R.Cipher(ek, nr, In(b)));
      R.EquivalentInverse(ek, dk, nr, In(b));
      R.CipherUndone(ek, nr, In(b));
    }
  }

  lemma InOut(b: Block, s: R.State)
    ensures Out(In(b)) == b && In(Out(s)) == s
  {
    hide High, Low, Join;
    Halves(b.hi);
    Halves(b.lo);
    Joined(s.s0, s.s1);
    Joined(s.s2, s.s3);
  }

  /** Under one key context, unwrapping accepts exactly what wrapping produces. */
  lemma AesWrapUnwrap(ek: seq<bv32>, dk: seq<bv32>, nr: nat, p: seq<bv64>, c: seq<bv64>)
    requires 0 < nr && 4 * nr + 4 <= |ek| && 4 * nr + 4 <= |dk| && R.DecryptKeys(ek, dk, nr) && c != []
    ensures Unwrapped(Decryption(dk, nr), c) == KeyWrap.State(IV, p) <==> Wrapped(Encryption(ek, nr), p) == c
  {
    hide Wrapped, Unwrapped, Encryption, Decryption, R.DecryptKeys, Inverse;
    ContextInverts(ek, dk, nr);
    WrapUnwrap(Encryption(ek, nr), Decryption(dk, nr), p, c);
  }
}
