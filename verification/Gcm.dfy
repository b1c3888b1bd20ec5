/**
 AES-GCM on byte strings: the multiplication loop over bytes, the hash, the counter mode and
 authenticated encryption. The block cipher is any function from blocks to blocks.
 */
module Gcm {
  import opened Bitmap
  import opened Bytes
  import opened GcmField
  import opened Options

  type Cipher = seq<bv8> -> seq<bv8>

  /** The coefficients of a block: the leftmost bit belongs to x^0. */
  function Bits(v: seq<bv8>): (r: Elem)
    requires |v| == 16
    ensures forall i :: 0 <= i < 128 ==> r[i] == Bit(v, i)
  {
    seq(128, i requires 0 <= i < 128 => Bit(v, i))
  }

  function PackByte(e: Elem, k: nat): bv8
    requires k < 16
  {
    Pack8(e[8 * k], e[8 * k + 1], e[8 * k + 2], e[8 * k + 3], e[8 * k + 4], e[8 * k + 5], e[8 * k + 6], e[8 * k + 7])
  }

  function Pack(e: Elem): (r: seq<bv8>)
    ensures |r| == 16
  {
    seq(16, k requires 0 <= k < 16 => PackByte(e, k))
  }

  lemma SameMasks(x: bv8, y: bv8)
    requires (x & 0x80 != 0) == (y & 0x80 != 0) && (x & 0x40 != 0) == (y & 0x40 != 0)
    requires (x & 0x20 != 0) == (y & 0x20 != 0) && (x & 0x10 != 0) == (y & 0x10 != 0)
    requires (x & 0x08 != 0) == (y & 0x08 != 0) && (x & 0x04 != 0) == (y & 0x04 != 0)
    requires (x & 0x02 != 0) == (y & 0x02 != 0) && (x & 0x01 != 0) == (y & 0x01 != 0)
    ensures x == y
  {
  }

  lemma SameByte(x: bv8, y: bv8)
    requires forall j: nat :: j < 8 ==> Test(x, j) == Test(y, j)
    ensures x == y
  {
    hide Test;
    ByteBits(x);
    ByteBits(y);
    assert Test(x, 0) == Test(y, 0) && Test(x, 1) == Test(y, 1) && Test(x, 2) == Test(y, 2) && Test(x, 3) == Test(y, 3);
    assert Test(x, 4) == Test(y, 4) && Test(x, 5) == Test(y, 5) && Test(x, 6) == Test(y, 6) && Test(x, 7) == Test(y, 7);
    SameMasks(x, y);
  }

  /** Blocks with the same coefficients are the same. */
  lemma BitsInjective(u: seq<bv8>, v: seq<bv8>)
    requires |u| == 16 && |v| == 16 && Bits(u) == Bits(v)
    ensures u == v
  {
    hide Test, Bits;
    forall k | 0 <= k < 16
      ensures u[k] == v[k]
    {
      forall j: nat | j < 8
        ensures Test(u[k], j) == Test(v[k], j)
      {
        assert Bit(u, 8 * k + j) == Bits(u)[8 * k + j] == Bits(v)[8 * k + j] == Bit(v, 8 * k + j);
        assert (8 * k + j) / 8 == k && (8 * k + j) % 8 == j;
      }
      SameByte(u[k], v[k]);
    }
  }

  lemma PackedByte(e: Elem, k: nat, j: nat)
    requires k < 16 && j < 8
    ensures Test(PackByte(e, k), j) == e[8 * k + j]
  {
    hide Test, Pack8;
    var x := PackByte(e, k);
    PackBits(e[8 * k], e[8 * k + 1], e[8 * k + 2], e[8 * k + 3], e[8 * k + 4], e[8 * k + 5], e[8 * k + 6],
             e[8 * k + 7], x);
    hide PackByte;
    ByteBits(x);
  }

  lemma BitsPacked(e: Elem)
    ensures Bits(Pack(e)) == e
  {
    hide Test, PackByte, Bits;
    forall i | 0 <= i < 128
      ensures Bits(Pack(e))[i] == e[i]
    {
      PackedByte(e, i / 8, i % 8);
    }
  }

  /** The product of two blocks as bytes. */
  function MulBlocks(a: seq<bv8>, b: seq<bv8>): (r: seq<bv8>)
    requires |a| == 16 && |b| == 16
    ensures |r| == 16
  {
    Pack(Mul(Bits(a), Bits(b)))
  }

  lemma XorMask(x: bv8, y: bv8, m: bv8)
    requires m == 0x80 || m == 0x40 || m == 0x20 || m == 0x10 || m == 0x08 || m == 0x04 || m == 0x02 || m == 0x01
    ensures ((x ^ y) & m != 0) == ((x & m != 0) != (y & m != 0))
  {
  }

  lemma XorTest(x: bv8, y: bv8, j: nat)
    requires j < 8
    ensures Test(x ^ y, j) == (Test(x, j) != Test(y, j))
  {
    MaskValue(j);
    XorMask(x, y, Mask(j));
  }

  lemma XorBits(a: seq<bv8>, b: seq<bv8>)
    requires |a| == 16 && |b| == 16
    ensures Bits(Xor(a, b)) == Add(Bits(a), Bits(b))
  {
    hide Test, Bits, Xor, Add;
    forall i | 0 <= i < 128
      ensures Bits(Xor(a, b))[i] == Add(Bits(a), Bits(b))[i]
    {
      XorTest(a[i / 8], b[i / 8], i % 8);
    }
  }

  /** A byte shifted right, with the last bit of the byte before it moving in. */
  function Shifted(p: bv8, c: bv8): bv8
  {
    (c >> 1) | ((p << 7) & 0x80)
  }

  lemma ShiftedMasks(p: bv8, c: bv8)
    ensures (Shifted(p, c) & 0x80 != 0) == (p & 0x01 != 0) && (Shifted(p, c) & 0x40 != 0) == (c & 0x80 != 0)
    ensures (Shifted(p, c) & 0x20 != 0) == (c & 0x40 != 0) && (Shifted(p, c) & 0x10 != 0) == (c & 0x20 != 0)
    ensures (Shifted(p, c) & 0x08 != 0) == (c & 0x10 != 0) && (Shifted(p, c) & 0x04 != 0) == (c & 0x08 != 0)
    ensures (Shifted(p, c) & 0x02 != 0) == (c & 0x04 != 0) && (Shifted(p, c) & 0x01 != 0) == (c & 0x02 != 0)
  {
  }

  lemma ShiftedTest(p: bv8, c: bv8, j: nat)
    requires j < 8
    ensures Test(Shifted(p, c), j) == if j == 0 then Test(p, 7) else Test(c, j - 1)
  {
    hide Test, Shifted;
    ShiftedMasks(p, c);
    ByteBits(p);
    ByteBits(c);
    ByteBits(Shifted(p, c));
  }

  lemma FirstShifted(c: bv8)
    ensures Shifted(0, c) == c >> 1
  {
  }

  /** The byte before place k. */
  function Left(s: seq<bv8>, k: nat): bv8
    requires k < |s|
  {
    if k == 0 then 0 else s[k - 1]
  }

  ghost predicate ShiftedFrom(before: seq<bv8>, after: seq<bv8>, x: nat)
    requires |before| == 16
  {
    && |after| == 16
    && (forall k :: 0 <= k < 16 && k >= x ==> after[k] == Shifted(Left(before, k), before[k]))
    && (forall k :: 0 <= k < 16 && k < x ==> after[k] == before[k])
  }

  /** The shift moves every coefficient up by one. */
  lemma ShiftMoves(before: seq<bv8>, after: seq<bv8>, i: nat)
    requires |before| == 16 && |after| == 16 && ShiftedFrom(before, after, 0) && i < 128
    ensures Bit(after, i) == (i > 0 && Bit(before, i - 1))
  {
    hide Test, Shifted;
    var k, j := i / 8, i % 8;
    ShiftedTest(Left(before, k), before[k], j);
    TapBits(7);
    if j == 0 {
      assert k > 0 ==> (i - 1) / 8 == k - 1 && (i - 1) % 8 == 7;
    } else {
      assert (i - 1) / 8 == k && (i - 1) % 8 == j - 1;
    }
  }

  lemma TapBits(i: nat)
    requires i < 8
    ensures Test(0xe1, i) == Tap(i) && !Test(0, i)
  {
    hide Test;
    ByteBits(0xe1);
    ByteBits(0);
  }

  /** Shifts a block by one bit, the bits of each byte counted from the highest. */
  method RightShift(vec: array<bv8>)
    requires vec.Length == 16
    modifies vec
    ensures forall i: nat :: i < 128 ==> Bit(vec[..], i) == (i > 0 && Bit(old(vec[..]), i - 1))
    ensures ShiftedFrom(old(vec[..]), vec[..], 0)
  {
    var x := 15;
    while x > 0
      invariant 0 <= x <= 15 && ShiftedFrom(old(vec[..]), vec[..], x + 1)
    {
      var c := vec[x] >> 1;
      c := c | ((vec[x - 1] << 7) & 0x80);
      vec[x] := c;
      x := x - 1;
    }
    FirstShifted(vec[0]);
    vec[0] := vec[0] >> 1;
    ghost var before := old(vec[..]);
    hide Bit, ShiftedFrom;
    forall i: nat | i < 128
      ensures Bit(vec[..], i) == (i > 0 && Bit(before, i - 1))
    {
      ShiftMoves(before, vec[..], i);
    }
  }

  /** Shifting and folding the polynomial into the first byte when a one drops out is multiplication by x. */
  lemma ShiftIsTimesX(before: seq<bv8>, after: seq<bv8>, poly: bv8)
    requires |before| == 16 && |after| == 16 && ShiftedFrom(before, after, 0)
    requires poly == if before[15] & 1 != 0 then 0xe1 else 0x00
    ensures Bits(after[0 := after[0] ^ poly]) == TimesX(Bits(before))
  {
    hide Test, Shifted, ShiftedFrom, Bits, TimesX;
    var v := after[0 := after[0] ^ poly];
    ByteBits(before[15]);
    assert Bits(before)[127] == Test(before[15], 7);
    forall i | 0 <= i < 128
      ensures Bits(v)[i] == TimesX(Bits(before))[i]
    {
      ShiftMoves(before, after, i);
      if i < 8 {
        XorTest(after[0], poly, i);
        TapBits(i);
      }
    }
  }

  /** The loop's last three steps: shift, and fold the polynomial in. */
  method StepX(v: array<bv8>, poly: bv8)
    requires v.Length == 16 && poly == if v[15] & 1 != 0 then 0xe1 else 0x00
    modifies v
    ensures Bits(v[..]) == TimesX(old(Bits(v[..])))
  {
    hide Test, Bits, Shifted, ShiftedFrom, TimesX;
    ghost var before := v[..];
    RightShift(v);
    ghost var after := v[..];
    ShiftIsTimesX(before, after, poly);
    v[0] := v[0] ^ poly;
    assert v[..] == after[0 := after[0] ^ poly];
  }

  method GfMult(a: seq<bv8>, b: seq<bv8>) returns (z: seq<bv8>)
    requires |a| == 16 && |b| == 16
    ensures z == MulBlocks(a, b) && Bits(z) == Mul(Bits(a), Bits(b))
  {
    hide Test, Bits, Xor, Mul, Total, TimesX, Pack;
    z := seq(16, _ => 0);
    var v := new bv8[16](i requires 0 <= i < 16 => a[i]);
    assert v[..] == a;
    MultStart(z, a, b);
    var x := 0;
    while x < 128
      invariant 0 <= x <= 128 && |z| == 16
      invariant Total(z, Bits(v[..]), Bits(b), x) == Mul(Bits(a), Bits(b))
    {
      MultStep(z, v[..], b, x);
      if Test(b[x / 8], x % 8) {
        z := Xor(v[..], z);
      }
      var bit := v[15] & 1;
      StepX(v, if bit != 0 then 0xe1 else 0x00);
      x := x + 1;
    }
    MultEnd(z, v[..], b);
    BitsPacked(Mul(Bits(a), Bits(b)));
    BitsInjective(z, MulBlocks(a, b));
  }

  lemma ZeroBlock(z: seq<bv8>)
    requires |z| == 16 && forall i :: 0 <= i < 16 ==> z[i] == 0
    ensures Bits(z) == Zero()
  {
    hide Bits, Test, Zero;
    forall i | 0 <= i < 128
      ensures Bits(z)[i] == Zero()[i]
    {
      TapBits(i % 8);
    }
  }

  /** What is accumulated plus what is still to come. */
  ghost function Total(z: seq<bv8>, v: Elem, b: Elem, x: nat): Elem
    requires |z| == 16 && x <= 128
  {
    Add(Bits(z), MulFrom(v, b, x))
  }

  lemma MultStart(z: seq<bv8>, a: seq<bv8>, b: seq<bv8>)
    requires |z| == 16 && |a| == 16 && |b| == 16 && forall i :: 0 <= i < 16 ==> z[i] == 0
    ensures Total(z, Bits(a), Bits(b), 0) == Mul(Bits(a), Bits(b))
  {
    hide Bits, Add, Zero, MulFrom;
    ZeroBlock(z);
    AddLaws(MulFrom(Bits(a), Bits(b), 0), Zero(), Zero());
  }

  lemma MultStep(z: seq<bv8>, v: seq<bv8>, b: seq<bv8>, x: nat)
    requires |z| == 16 && |v| == 16 && |b| == 16 && x < 128
    ensures var z1 := if Test(b[x / 8], x % 8) then Xor(v, z) else z;
      Total(z, Bits(v), Bits(b), x) == Total(z1, TimesX(Bits(v)), Bits(b), x + 1)
  {
    hide Test, Bits, Xor, Add, TimesX, Zero;
    var rest := MulFrom(TimesX(Bits(v)), Bits(b), x + 1);
    var p := Pick(Bits(b)[x], Bits(v));
    XorBits(v, z);
    AddLaws(Bits(z), p, rest);
    AddLaws(Bits(v), Bits(z), Zero());
    AddLaws(Bits(z), Zero(), Zero());
  }

  lemma MultEnd(z: seq<bv8>, v: seq<bv8>, b: seq<bv8>)
    requires |z| == 16 && |v| == 16 && |b| == 16
    ensures Total(z, Bits(v), Bits(b), 128) == Bits(z)
  {
    hide Bits, Add, Zero;
    AddLaws(Bits(z), Zero(), Zero());
  }

  // The hash (section 6.4).

  function HashFrom(h: seq<bv8>, x: seq<bv8>, y: seq<bv8>): (r: seq<bv8>)
    requires |h| == 16 && |y| == 16
    ensures |r| == 16
    decreases |x|
  {
    if |x| < 16 then y else HashFrom(h, x[16..], MulBlocks(Xor(y, x[..16]), h))
  }

  function Padded(s: seq<bv8>): seq<bv8>
  {
    s + Zeros((16 - |s| % 16) % 16)
  }

  lemma PaddedWhole(s: seq<bv8>)
    ensures |Padded(s)| == 16 * (|Padded(s)| / 16)
  {
  }

  /** The bit count of a string fits its eight-byte field. */
  predicate Countable(s: seq<bv8>)
  {
    8 * |s| < 0x1_0000_0000_0000_0000
  }

  function Hash(h: seq<bv8>, auth: seq<bv8>, data: seq<bv8>): (r: seq<bv8>)
    requires |h| == 16
    ensures |r| == 16
  {
    HashFrom(h, Padded(auth) + Padded(data) + BigEndian(8 * |auth|, 8) + BigEndian(8 * |data|, 8), Zeros(16))
  }

  function Power(h: Elem, n: nat): Elem
  {
    if n == 0 then Mono(0) else Mul(h, Power(h, n - 1))
  }

  /** The blocks of x as coefficients of h^m, ..., h^1. */
  function Polynomial(h: seq<bv8>, x: seq<bv8>): Elem
    requires |h| == 16
    decreases |x|
  {
    if |x| < 16 then Zero() else Add(Mul(Bits(x[..16]), Power(Bits(h), |x| / 16)), Polynomial(h, x[16..]))
  }

  /** Hashing block after block evaluates the polynomial of the blocks at h. */
  lemma {:induction false} HashIsPolynomial(h: seq<bv8>, x: seq<bv8>, y: seq<bv8>)
    requires |h| == 16 && |y| == 16
    ensures Bits(HashFrom(h, x, y)) == Add(Mul(Bits(y), Power(Bits(h), |x| / 16)), Polynomial(h, x))
    decreases |x|
  {
    hide Bits, Xor, MulBlocks, Mul, Add, Mono, Zero;
    if |x| < 16 {
      Unit(Bits(y));
      AddLaws(Bits(y), Zero(), Zero());
    } else {
      var b, e := Bits(x[..16]), Bits(h);
      var y1 := MulBlocks(Xor(y, x[..16]), h);
      HashIsPolynomial(h, x[16..], y1);
      assert |x[16..]| / 16 == |x| / 16 - 1;
      var p := Power(e, |x| / 16 - 1);
      HashStep(y, x[..16], h, p);
      AddLaws(Mul(Bits(y), Mul(e, p)), Mul(b, Mul(e, p)), Polynomial(h, x[16..]));
    }
  }

  lemma HashStep(y: seq<bv8>, b: seq<bv8>, h: seq<bv8>, p: Elem)
    requires |y| == 16 && |b| == 16 && |h| == 16
    ensures Mul(Bits(MulBlocks(Xor(y, b), h)), p)
         == Add(Mul(Bits(y), Mul(Bits(h), p)), Mul(Bits(b), Mul(Bits(h), p)))
  {
    hide Bits, Xor, Mul, Add, Pack;
    XorBits(y, b);
    BitsPacked(Mul(Bits(Xor(y, b)), Bits(h)));
    Associates(Add(Bits(y), Bits(b)), Bits(h), p);
    Bilinear(Bits(y), Bits(b), Mul(Bits(h), p));
  }

  /** A length rounded up to whole blocks. */
  function Whole(n: nat): nat
  {
    (n + 15) / 16 * 16
  }

  /**
   What is hashed: the authenticated data and the text, each with zeros to the end of its last
   block, and their lengths in bits as two numbers of eight bytes, that of the authenticated data first.
   */
  ghost predicate HashInput(auth: seq<bv8>, data: seq<bv8>, x: seq<bv8>)
  {
    var m, n := Whole(|auth|), Whole(|data|);
    && |x| == m + n + 16 && x[..|auth|] == auth && x[m..m + |data|] == data
    && (forall i :: |auth| <= i < m ==> x[i] == 0)
    && (forall i :: m + |data| <= i < m + n ==> x[i] == 0)
    && Value(x[m + n..m + n + 8]) == 8 * |auth| && Value(x[m + n + 8..]) == 8 * |data|
  }

  /** The hash as the standard has it: the blocks of the input are the coefficients of a polynomial, taken at h. */
  ghost predicate Hashes(h: seq<bv8>, auth: seq<bv8>, data: seq<bv8>, r: seq<bv8>)
    requires |h| == 16
  {
    |r| == 16 && exists x: seq<bv8> :: HashInput(auth, data, x) && Bits(r) == Polynomial(h, x)
  }

  lemma PaddedIs(s: seq<bv8>)
    ensures |s| <= |Padded(s)| == Whole(|s|) && Padded(s)[..|s|] == s
    ensures forall i :: |s| <= i < Whole(|s|) ==> Padded(s)[i] == 0
  {
  }

  lemma LengthField(s: seq<bv8>)
    requires Countable(s)
    ensures Value(BigEndian(8 * |s|, 8)) == 8 * |s|
  {
    Powers();
    ValueBack(8 * |s|, 8);
  }

  lemma InputIs(auth: seq<bv8>, data: seq<bv8>)
    requires Countable(auth) && Countable(data)
    ensures HashInput(auth, data, Padded(auth) + Padded(data) + BigEndian(8 * |auth|, 8) + BigEndian(8 * |data|, 8))
  {
    hide Padded, BigEndian, Value, Whole;
    PaddedIs(auth);
    PaddedIs(data);
    LengthField(auth);
    LengthField(data);
    InputParts(auth, data, Padded(auth), Padded(data), BigEndian(8 * |auth|, 8), BigEndian(8 * |data|, 8));
  }

  lemma InputParts(auth: seq<bv8>, data: seq<bv8>, a: seq<bv8>, d: seq<bv8>, b: seq<bv8>, c: seq<bv8>)
    requires |b| == 8 && |c| == 8 && Value(b) == 8 * |auth| && Value(c) == 8 * |data|
    requires |auth| <= |a| == Whole(|auth|) && a[..|auth|] == auth && forall i :: |auth| <= i < |a| ==> a[i] == 0
    requires |data| <= |d| == Whole(|data|) && d[..|data|] == data && forall i :: |data| <= i < |d| ==> d[i] == 0
    ensures HashInput(auth, data, a + d + b + c)
  {
    hide Value, Whole;
    var x, m, n := a + d + b + c, |a|, |d|;
    FourParts(a, d, b, c);
    assert x[..|auth|] == auth by {
      assert forall i :: 0 <= i < |auth| ==> x[i] == a[i] == a[..|auth|][i];
    }
    assert x[m..m + |data|] == data by {
      assert forall i :: 0 <= i < |data| ==> x[m + i] == d[i] == d[..|data|][i];
    }
  }

  lemma FourParts(a: seq<bv8>, d: seq<bv8>, b: seq<bv8>, c: seq<bv8>)
    requires |b| == 8 && |c| == 8
    ensures var x, m, n := a + d + b + c, |a|, |d|;
      && x[m + n..m + n + 8] == b && x[m + n + 8..] == c
      && (forall i :: 0 <= i < m ==> x[i] == a[i]) && (forall i :: m <= i < m + n ==> x[i] == d[i - m])
  {
  }

  lemma HashMeans(h: seq<bv8>, auth: seq<bv8>, data: seq<bv8>)
    requires |h| == 16 && Countable(auth) && Countable(data)
    ensures Hashes(h, auth, data, Hash(h, auth, data))
  {
    hide Bits, HashFrom, HashInput, Polynomial, MulFrom, Add, Zero, BigEndian, Power;
    var x := Padded(auth) + Padded(data) + BigEndian(8 * |auth|, 8) + BigEndian(8 * |data|, 8);
    InputIs(auth, data);
    HashIsPolynomial(h, x, Zeros(16));
    ZeroBlock(Zeros(16));
    MulFromZero(Power(Bits(h), |x| / 16), 0);
    AddLaws(Polynomial(h, x), Zero(), Zero());
  }

  /** Fails exactly when a length in bits does not fit its field of eight bytes. */
  method Ghash(h: seq<bv8>, auth: seq<bv8>, data: seq<bv8>) returns (r: Option<seq<bv8>>)
    requires |h| == 16
    ensures r.Some? <==> 8 * |auth| < 0x1_0000_0000_0000_0000 && 8 * |data| < 0x1_0000_0000_0000_0000
    ensures r.Some? ==> Hashes(h, auth, data, r.value)
    ensures r == if Countable(auth) && Countable(data) then Some(Hash(h, auth, data)) else None
  {
    hide MulBlocks, Xor, HashFrom, Hashes, Mul, Bits, BigEndian;
    var u := (16 - |data| % 16) % 16;
    var v := (16 - |auth| % 16) % 16;
    var x := auth + Zeros(v) + data + Zeros(u);
    if !Countable(auth) || !Countable(data) {
      return None;
    }
    x := x + (BigEndian(8 * |auth|, 8) + BigEndian(8 * |data|, 8));
    assert x == Padded(auth) + Padded(data) + BigEndian(8 * |auth|, 8) + BigEndian(8 * |data|, 8);
    PaddedWhole(auth);
    PaddedWhole(data);
    ghost var m := |Padded(auth)| / 16 + |Padded(data)| / 16 + 1;
    ghost var j := 0;
    var y := Zeros(16);
    var i := 0;
    assert x[0..] == x;
    while i < |x|
      invariant i == 16 * j && j <= m && |x| == 16 * m && |y| == 16
      invariant HashFrom(h, x[i..], y) == Hash(h, auth, data)
    {
      HashNext(h, x[i..], y);
      assert x[i..][16..] == x[i + 16..] && x[i..][..16] == x[i..i + 16];
      y := Xor(y, x[i..i + 16]);
      y := GfMult(y, h);
      i := i + 16;
      j := j + 1;
    }
    HashEnd(h, x[i..], y);
    HashMeans(h, auth, data);
    return Some(y);
  }

  lemma HashNext(h: seq<bv8>, x: seq<bv8>, y: seq<bv8>)
    requires |h| == 16 && |y| == 16 && |x| >= 16
    ensures HashFrom(h, x, y) == HashFrom(h, x[16..], MulBlocks(Xor(y, x[..16]), h))
  {
  }

  lemma HashEnd(h: seq<bv8>, x: seq<bv8>, y: seq<bv8>)
    requires |h| == 16 && |y| == 16 && x == []
    ensures HashFrom(h, x, y) == y
  {
  }

  // Counter mode (section 6.5).

  const MAX_COUNTER: nat := 0xffff_ffff

  /** The next counter block; the counter must not wrap. */
  function Inc32(block: seq<bv8>): Option<seq<bv8>>
    requires |block| == 16
  {
    var counter := Value(block[12..]) + 1;
    if counter > MAX_COUNTER then None else Some(block[..12] + BigEndian(counter, 4))
  }

  lemma IncValue(block: seq<bv8>)
    requires |block| == 16 && Inc32(block).Some?
    ensures |Inc32(block).value| == 16 && Inc32(block).value[..12] == block[..12]
    ensures Value(Inc32(block).value[12..]) == Value(block[12..]) + 1
  {
    var counter := Value(block[12..]) + 1;
    assert Pow256(4) == 0x1_0000_0000 by {
      assert Pow256(1) == 0x100;
      assert Pow256(2) == 0x1_0000;
      assert Pow256(3) == 0x100_0000;
    }
    ValueBack(counter, 4);
    assert (block[..12] + BigEndian(counter, 4))[12..] == BigEndian(counter, 4);
  }

  ghost predicate Blocky(e: Cipher)
  {
    forall b: seq<bv8> :: |b| == 16 ==> |e(b)| == 16
  }

  /** The text of a counter mode run: each block of s masked with the cipher of the next counter block. */
  ghost function Masked(e: Cipher, cb: seq<bv8>, s: seq<bv8>): Option<seq<bv8>>
    requires Blocky(e) && |cb| == 16
    decreases |s|
  {
    if s == [] then
      Some([])
    else if Inc32(cb).None? then
      None
    else
      var n := if |s| < 16 then |s| else 16;
      var cb1 := Inc32(cb).value;
      Behind(Xor(s[..n], e(cb1)), Masked(e, cb1, s[n..]))
  }

  method Gctr(e: Cipher, icb: seq<bv8>, text: seq<bv8>) returns (r: Option<seq<bv8>>)
    requires Blocky(e) && |icb| == 16
    ensures r == Masked(e, icb, text)
    ensures r.None? <==> Value(icb[12..]) + (|text| + 15) / 16 > 0xffff_ffff && text != []
    ensures r.Some? ==> CounterMode(e, icb, text, r.value)
  {
    hide Xor, Inc32, Masked, Behind, CounterMode, Value;
    var y := [];
    if |text| == 0 {
      MaskEmpty(e, icb);
      GctrMeans(e, icb, text, Some(y));
      return Some(y);
    }
    var cb := icb;
    var i := 0;
    MaskStart(Masked(e, icb, text));
    assert text[0..] == text;
    while i < |text|
      invariant 0 <= i <= |text| && |cb| == 16
      invariant Masked(e, icb, text) == Behind(y, Masked(e, cb, text[i..]))
    {
      MaskNext(e, cb, text[i..]);
      var next := Inc32(cb);
      if next.None? {
        MaskStop(y);
        GctrMeans(e, icb, text, None);
        return None;
      }
      IncValue(cb);
      cb := next.value;
      var encrypted := e(cb);
      var n := if |text| - i < 16 then |text| - i else 16;
      assert text[i..][n..] == text[i + n..] && text[i..][..n] == text[i..i + n];
      MaskMore(y, Xor(text[i..i + n], encrypted), Masked(e, cb, text[i + n..]));
      y := y + Xor(text[i..i + n], encrypted);
      i := i + n;
    }
    assert text[i..] == [];
    MaskEmpty(e, cb);
    MaskStop(y);
    GctrMeans(e, icb, text, Some(y));
    return Some(y);
  }

  lemma GctrMeans(e: Cipher, icb: seq<bv8>, text: seq<bv8>, r: Option<seq<bv8>>)
    requires Blocky(e) && |icb| == 16 && r == Masked(e, icb, text)
    ensures r.None? <==> Value(icb[12..]) + (|text| + 15) / 16 > 0xffff_ffff && text != []
    ensures r.Some? ==> CounterMode(e, icb, text, r.value)
  {
    hide Masked, CounterMode, Value;
    MaskedFails(e, icb, text);
    if r.Some? {
      MaskedIs(e, icb, text);
    }
  }

  /** Counter block j of a run: the last four bytes are those of the start plus j. */
  function CounterBlock(icb: seq<bv8>, j: nat): (r: seq<bv8>)
    requires |icb| == 16
    ensures |r| == 16
  {
    icb[..12] + BigEndian(Value(icb[12..]) + j, 4)
  }

  /** Byte i of a text of counter mode is masked with byte i % 16 of the cipher of counter block i / 16 + 1. */
  ghost predicate CounterMode(e: Cipher, icb: seq<bv8>, s: seq<bv8>, r: seq<bv8>)
    requires Blocky(e) && |icb| == 16
  {
    |r| == |s| && forall i :: 0 <= i < |s| ==> r[i] == s[i] ^ e(CounterBlock(icb, i / 16 + 1))[i % 16]
  }

  lemma CounterNext(icb: seq<bv8>, j: nat)
    requires |icb| == 16 && Inc32(icb).Some?
    ensures |Inc32(icb).value| == 16 && CounterBlock(Inc32(icb).value, j) == CounterBlock(icb, j + 1)
    ensures CounterBlock(icb, 1) == Inc32(icb).value
  {
    hide Value, BigEndian;
    IncValue(icb);
  }

  lemma {:induction false} MaskedIs(e: Cipher, cb: seq<bv8>, s: seq<bv8>)
    requires Blocky(e) && |cb| == 16 && Masked(e, cb, s).Some?
    ensures CounterMode(e, cb, s, Masked(e, cb, s).value)
    decreases |s|
  {
    hide Inc32, CounterMode, Xor;
    if s == [] {
      NothingMasked(e, cb);
    } else {
      IncValue(cb);
      var cb1 := Inc32(cb).value;
      var n := if |s| < 16 then |s| else 16;
      MaskedIs(e, cb1, s[n..]);
      MoreMasked(e, cb, s, n, Masked(e, cb1, s[n..]).value);
    }
  }

  lemma NothingMasked(e: Cipher, cb: seq<bv8>)
    requires Blocky(e) && |cb| == 16
    ensures CounterMode(e, cb, [], [])
  {
  }

  lemma MoreMasked(e: Cipher, cb: seq<bv8>, s: seq<bv8>, n: nat, rest: seq<bv8>)
    requires Blocky(e) && |cb| == 16 && Inc32(cb).Some? && |Inc32(cb).value| == 16
    requires s != [] && n == (if |s| < 16 then |s| else 16) && CounterMode(e, Inc32(cb).value, s[n..], rest)
    ensures CounterMode(e, cb, s, Xor(s[..n], e(Inc32(cb).value)) + rest)
  {
    hide Inc32, CounterBlock, Xor;
    var cb1 := Inc32(cb).value;
    var first := Xor(s[..n], e(cb1));
    CounterNext(cb, 0);
    forall i | 0 <= i < |s|
      ensures (first + rest)[i] == s[i] ^ e(CounterBlock(cb, i / 16 + 1))[i % 16]
    {
      if i >= n {
        var j := i - 16;
        CounterNext(cb, j / 16 + 1);
        assert i / 16 == j / 16 + 1 && i % 16 == j % 16;
        assert (first + rest)[i] == rest[j] && s[n..][j] == s[i];
      } else {
        assert (first + rest)[i] == first[i] && s[..n][i] == s[i];
      }
    }
  }

  lemma MaskStop(a: seq<bv8>)
    ensures Behind(a, Some([])) == Some(a) && Behind(a, None) == None
  {
    assert a + [] == a;
  }

  lemma MaskEmpty(e: Cipher, cb: seq<bv8>)
    requires Blocky(e) && |cb| == 16
    ensures Masked(e, cb, []) == Some([])
  {
  }

  lemma MaskNext(e: Cipher, cb: seq<bv8>, s: seq<bv8>)
    requires Blocky(e) && |cb| == 16 && s != []
    ensures Inc32(cb).None? ==> Masked(e, cb, s) == None
    ensures Inc32(cb).Some? ==> |Inc32(cb).value| == 16
    ensures Inc32(cb).Some? ==> var n := if |s| < 16 then |s| else 16;
      Masked(e, cb, s) == Behind(Xor(s[..n], e(Inc32(cb).value)), Masked(e, Inc32(cb).value, s[n..]))
  {
    hide Inc32, Xor, Behind;
    if Inc32(cb).Some? {
      IncValue(cb);
    }
  }

  ghost function Behind(a: seq<bv8>, r: Option<seq<bv8>>): Option<seq<bv8>>
  {
    match r
    case None => None
    case Some(b) => Some(a + b)
  }

  lemma MaskStart(r: Option<seq<bv8>>)
    ensures Behind([], r) == r
  {
    if r.Some? {
      assert [] + r.value == r.value;
    }
  }

  lemma MaskMore(a: seq<bv8>, b: seq<bv8>, r: Option<seq<bv8>>)
    ensures Behind(a, Behind(b, r)) == Behind(a + b, r)
  {
    if r.Some? {
      assert a + (b + r.value) == a + b + r.value;
    }
  }

  /** Masking twice with the same counter gives the text back, for every length. */
  lemma {:induction false} MaskedTwice(e: Cipher, cb: seq<bv8>, s: seq<bv8>)
    requires Blocky(e) && |cb| == 16 && Masked(e, cb, s).Some?
    ensures |Masked(e, cb, s).value| == |s|
    ensures Masked(e, cb, Masked(e, cb, s).value) == Some(s)
    decreases |s|
  {
    hide Inc32;
    if s != [] {
      IncValue(cb);
      var cb1 := Inc32(cb).value;
      var n := if |s| < 16 then |s| else 16;
      MaskedTwice(e, cb1, s[n..]);
      var first, rest := Xor(s[..n], e(cb1)), Masked(e, cb1, s[n..]).value;
      XorTwice(s[..n], e(cb1));
      assert (first + rest)[..n] == first && (first + rest)[n..] == rest;
      assert s[..n] + s[n..] == s;
    }
  }

  lemma XorTwice(a: seq<bv8>, b: seq<bv8>)
    requires |a| <= |b|
    ensures Xor(Xor(a, b), b) == a
  {
  }

  lemma IncFails(block: seq<bv8>)
    requires |block| == 16
    ensures Inc32(block).None? <==> Value(block[12..]) + 1 > MAX_COUNTER
  {
    hide Value;
  }

  lemma BehindFails(a: seq<bv8>, r: Option<seq<bv8>>)
    ensures Behind(a, r).None? <==> r.None?
  {
  }

  /** Counter mode fails exactly when the text has more blocks than the 32-bit counter has values left. */
  lemma {:induction false} MaskedFails(e: Cipher, cb: seq<bv8>, s: seq<bv8>)
    requires Blocky(e) && |cb| == 16
    ensures Masked(e, cb, s).None? <==> Value(cb[12..]) + (|s| + 15) / 16 > MAX_COUNTER && s != []
    decreases |s|
  {
    hide Xor, Inc32, Masked, Behind, Value;
    if s == [] {
      MaskEmpty(e, cb);
    } else {
      MaskNext(e, cb, s);
      IncFails(cb);
      if Inc32(cb).Some? {
        IncValue(cb);
        var n := if |s| < 16 then |s| else 16;
        MaskedFails(e, Inc32(cb).value, s[n..]);
        BehindFails(Xor(s[..n], e(Inc32(cb).value)), Masked(e, Inc32(cb).value, s[n..]));
        assert n == 16 ==> (|s[n..]| + 15) / 16 == (|s| + 15) / 16 - 1;
        assert n < 16 ==> (|s| + 15) / 16 == 1;
      }
    }
  }

  // Authenticated encryption (section 7).

  /** The first counter block; none when the nonce is too long for its length field. */
  function First(e: Cipher, iv: seq<bv8>): (r: Option<seq<bv8>>)
    requires Blocky(e)
    ensures r.Some? ==> |r.value| == 16
  {
    if |iv| == 12 then Some(iv + [0, 0, 0, 1])
    else if Countable(iv) then Some(Hash(e(Zeros(16)), [], iv))
    else None
  }

  /** Ciphertext and tag; none when a length or the counter overflows. */
  ghost function Seal(e: Cipher, iv: seq<bv8>, plain: seq<bv8>, auth: seq<bv8>): Option<(seq<bv8>, seq<bv8>)>
    requires Blocky(e)
  {
    var y0 := First(e, iv);
    if y0.None? then None else
    var text := Masked(e, y0.value, plain);
    if text.None? || !Countable(auth) || !Countable(text.value) then None else
    Some((text.value, Xor(Hash(e(Zeros(16)), auth, text.value), e(y0.value))))
  }

  datatype Opened = Plain(text: seq<bv8>) | Invalid | Overflow

  ghost function Open(e: Cipher, iv: seq<bv8>, encrypted: seq<bv8>, auth: seq<bv8>, tag: seq<bv8>): Opened
    requires Blocky(e)
  {
    var y0 := First(e, iv);
    if y0.None? then Overflow else
    var text := Masked(e, y0.value, encrypted);
    if text.None? || !Countable(auth) || !Countable(encrypted) then Overflow else
    if Xor(Hash(e(Zeros(16)), auth, encrypted), e(y0.value)) != tag then Invalid else Plain(text.value)
  }

  /** The first counter block: a nonce of twelve bytes with the number 1 behind, or the hash of any other nonce. */
  ghost predicate FirstBlock(e: Cipher, iv: seq<bv8>, y0: seq<bv8>)
    requires Blocky(e)
  {
    if |iv| == 12 then y0 == iv + [0, 0, 0, 1] else Hashes(e(seq(16, _ => 0)), [], iv, y0)
  }

  /** The tag for hash value s: masked with the cipher of the first counter block. */
  ghost predicate TagOf(e: Cipher, y0: seq<bv8>, auth: seq<bv8>, text: seq<bv8>, s: seq<bv8>, tag: seq<bv8>)
    requires Blocky(e) && |y0| == 16
  {
    && Hashes(e(seq(16, _ => 0)), auth, text, s)
    && |tag| == 16 && forall i :: 0 <= i < 16 ==> tag[i] == s[i] ^ e(y0)[i]
  }

  /** Text and tag of an encryption. */
  ghost predicate Sealed(e: Cipher, iv: seq<bv8>, plain: seq<bv8>, auth: seq<bv8>, y0: seq<bv8>, s: seq<bv8>,
                         text: seq<bv8>, tag: seq<bv8>)
    requires Blocky(e)
  {
    |y0| == 16 && FirstBlock(e, iv, y0) && CounterMode(e, y0, plain, text) && TagOf(e, y0, auth, text, s, tag)
  }

  lemma ZeroIs()
    ensures Zeros(16) == seq(16, _ => 0)
  {
  }

  lemma FirstIs(e: Cipher, iv: seq<bv8>)
    requires Blocky(e) && First(e, iv).Some?
    ensures FirstBlock(e, iv, First(e, iv).value)
  {
    hide Hash, Hashes, Zeros;
    ZeroIs();
    if |iv| != 12 {
      NoBytes();
      HashMeans(e(Zeros(16)), [], iv);
    }
  }

  lemma TagIs(e: Cipher, y0: seq<bv8>, auth: seq<bv8>, text: seq<bv8>)
    requires Blocky(e) && |y0| == 16 && Countable(auth) && Countable(text)
    ensures var s := Hash(e(Zeros(16)), auth, text); TagOf(e, y0, auth, text, s, Xor(s, e(y0)))
  {
    hide Hash, Hashes, Zeros;
    ZeroIs();
    HashMeans(e(Zeros(16)), auth, text);
  }

  /** A nonce of twelve bytes leaves the counter at 1. */
  lemma NonceCounter(iv: seq<bv8>)
    requires |iv| == 12
    ensures Value((iv + [0, 0, 0, 1])[12..]) == 1
  {
    hide ToByte, Value, BigEndian;
    ByteOne();
    SmallNumber(1, 3);
    Powers();
    ValueBack(1, 4);
    assert (iv + [0, 0, 0, 1])[12..] == Zeros(3) + [1];
  }

  lemma ByteOne()
    ensures ToByte(1) == 1
  {
  }

  method FirstCounter(e: Cipher, iv: seq<bv8>, h: seq<bv8>) returns (y0: Option<seq<bv8>>)
    requires Blocky(e) && h == e(Zeros(16))
    ensures y0 == First(e, iv)
  {
    hide Hash, Zeros;
    if |iv| == 12 {
      y0 := Some(iv + [0, 0, 0, 1]);
    } else {
      NoBytes();
      y0 := Ghash(h, [], iv);
    }
  }

  lemma NoBytes()
    ensures Countable([])
  {
  }

  /** With a nonce of twelve bytes encryption fails exactly for 2^32 - 1 blocks of text or more, or too much else. */
  lemma SealNonce(e: Cipher, iv: seq<bv8>, plain: seq<bv8>, auth: seq<bv8>)
    requires Blocky(e)
    ensures |iv| == 12 ==>
      (Seal(e, iv, plain, auth).Some? <==> |plain| <= 16 * 0xffff_fffe && 8 * |auth| < 0x1_0000_0000_0000_0000)
  {
    hide Hash, Zeros, Xor, Masked, Value;
    if |iv| == 12 {
      var y0 := iv + [0, 0, 0, 1];
      NonceCounter(iv);
      MaskedFails(e, y0, plain);
      if Masked(e, y0, plain).Some? {
        MaskedTwice(e, y0, plain);
      }
    }
  }

  method GcmEncrypt(e: Cipher, iv: seq<bv8>, plain: seq<bv8>, auth: seq<bv8>) returns (r: Option<(seq<bv8>, seq<bv8>)>)
    requires Blocky(e)
    ensures r == Seal(e, iv, plain, auth)
    ensures r.Some? ==> exists y0: seq<bv8>, s: seq<bv8> :: Sealed(e, iv, plain, auth, y0, s, r.value.0, r.value.1)
    ensures |iv| == 12 ==> (r.Some? <==> |plain| <= 16 * 0xffff_fffe && 8 * |auth| < 0x1_0000_0000_0000_0000)
  {
    hide Hash, Zeros, Xor, First, Masked, Value, FirstBlock, TagOf, CounterMode;
    SealNonce(e, iv, plain, auth);
    var h := e(Zeros(16));
    var y0 := FirstCounter(e, iv, h);
    if y0.None? {
      return None;
    }
    var encrypted := Gctr(e, y0.value, plain);
    if encrypted.None? {
      return None;
    }
    var s := Ghash(h, auth, encrypted.value);
    if s.None? {
      return None;
    }
    var t := e(y0.value);
    FirstIs(e, iv);
    TagIs(e, y0.value, auth, encrypted.value);
    assert Sealed(e, iv, plain, auth, y0.value, s.value, encrypted.value, Xor(s.value, t));
    return Some((encrypted.value, Xor(s.value, t)));
  }

  method GcmDecrypt(e: Cipher, iv: seq<bv8>, encrypted: seq<bv8>, auth: seq<bv8>, tag: seq<bv8>) returns (r: Opened)
    requires Blocky(e)
    ensures r == Open(e, iv, encrypted, auth, tag)
    ensures r.Plain? ==> exists y0: seq<bv8>, s: seq<bv8> ::
      && |y0| == 16 && FirstBlock(e, iv, y0) && CounterMode(e, y0, encrypted, r.text)
      && TagOf(e, y0, auth, encrypted, s, tag)
    ensures r.Invalid? ==> exists y0: seq<bv8>, s: seq<bv8>, t: seq<bv8> ::
      |y0| == 16 && FirstBlock(e, iv, y0) && TagOf(e, y0, auth, encrypted, s, t) && t != tag
  {
    hide Hash, Zeros, Xor, First, Masked, Value, FirstBlock, TagOf, CounterMode;
    var h := e(Zeros(16));
    var y0 := FirstCounter(e, iv, h);
    if y0.None? {
      return Overflow;
    }
    var decrypted := Gctr(e, y0.value, encrypted);
    if decrypted.None? {
      return Overflow;
    }
    var s := Ghash(h, auth, encrypted);
    if s.None? {
      return Overflow;
    }
    var t := e(y0.value);
    FirstIs(e, iv);
    TagIs(e, y0.value, auth, encrypted);
    if Xor(s.value, t) != tag {
      return Invalid;
    }
    return Plain(decrypted.value);
  }

  /** Decryption accepts exactly what encryption produces, and returns what went in. */
  lemma OpenSeal(e: Cipher, iv: seq<bv8>, plain: seq<bv8>, auth: seq<bv8>, encrypted: seq<bv8>, tag: seq<bv8>)
    requires Blocky(e)
    ensures Seal(e, iv, plain, auth) == Some((encrypted, tag)) <==> Open(e, iv, encrypted, auth, tag) == Plain(plain)
  {
    hide Hash, Zeros, Xor, First, Masked, Countable;
    var y0 := First(e, iv);
    if y0.Some? {
      if Masked(e, y0.value, plain).Some? {
        MaskedTwice(e, y0.value, plain);
      }
      if Masked(e, y0.value, encrypted).Some? {
        MaskedTwice(e, y0.value, encrypted);
      }
    }
  }
}
