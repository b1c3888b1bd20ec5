/**
 Bytes and byte strings as numbers, most significant first, and byte-wise exclusive or.
 */
module Bytes {
  import opened Arithmetic
  import opened Bitmap

  function Pack8(a: bool, b: bool, c: bool, d: bool, e: bool, f: bool, g: bool, h: bool): bv8
  {
    (if a then 0x80 else 0) | (if b then 0x40 else 0) | (if c then 0x20 else 0) | (if d then 0x10 else 0)
    | (if e then 0x08 else 0) | (if f then 0x04 else 0) | (if g then 0x02 else 0) | (if h then 0x01 else 0)
  }

  // Bits of single bytes.

  lemma ByteBits(b: bv8)
    ensures Test(b, 0) == (b & 0x80 != 0) && Test(b, 1) == (b & 0x40 != 0)
    ensures Test(b, 2) == (b & 0x20 != 0) && Test(b, 3) == (b & 0x10 != 0)
    ensures Test(b, 4) == (b & 0x08 != 0) && Test(b, 5) == (b & 0x04 != 0)
    ensures Test(b, 6) == (b & 0x02 != 0) && Test(b, 7) == (b & 0x01 != 0)
  {
    MaskValue(0);
    MaskValue(1);
    MaskValue(2);
    MaskValue(3);
    MaskValue(4);
    MaskValue(5);
    MaskValue(6);
    MaskValue(7);
  }

  lemma PackBits(a: bool, b: bool, c: bool, d: bool, e: bool, f: bool, g: bool, h: bool, x: bv8)
    requires x == Pack8(a, b, c, d, e, f, g, h)
    ensures a == (x & 0x80 != 0) && b == (x & 0x40 != 0) && c == (x & 0x20 != 0) && d == (x & 0x10 != 0)
    ensures e == (x & 0x08 != 0) && f == (x & 0x04 != 0) && g == (x & 0x02 != 0) && h == (x & 0x01 != 0)
  {
  }

  /** x without the power of two p. */
  function Rest(x: nat, p: nat): nat
  {
    if x >= p then x - p else x
  }

  function Weight(c: bool, p: nat): nat
  {
    if c then p else 0
  }

  /** The byte of a number below 256, taking powers of two out from the top. */
  function ToByte(x: nat): bv8
  {
    var x6 := Rest(x, 128);
    var x5 := Rest(x6, 64);
    var x4 := Rest(x5, 32);
    var x3 := Rest(x4, 16);
    var x2 := Rest(x3, 8);
    var x1 := Rest(x2, 4);
    var x0 := Rest(x1, 2);
    Pack8(x >= 128, x6 >= 64, x5 >= 32, x4 >= 16, x3 >= 8, x2 >= 4, x1 >= 2, x0 >= 1)
  }

  function Sum8(a: bool, b: bool, c: bool, d: bool, e: bool, f: bool, g: bool, h: bool): nat
  {
    Weight(a, 128) + Weight(b, 64) + Weight(c, 32) + Weight(d, 16) + Weight(e, 8) + Weight(f, 4) + Weight(g, 2)
      + Weight(h, 1)
  }

  function ByteValue(b: bv8): nat
  {
    Sum8(Test(b, 0), Test(b, 1), Test(b, 2), Test(b, 3), Test(b, 4), Test(b, 5), Test(b, 6), Test(b, 7))
  }

  /** The n low bytes of a number, most significant first. */
  function BigEndian(x: nat, n: nat): (r: seq<bv8>)
    ensures |r| == n
  {
    if n == 0 then [] else BigEndian(x / 256, n - 1) + [ToByte(x % 256)]
  }

  /** A number from its bytes. */
  function Value(s: seq<bv8>): nat
  {
    if s == [] then 0 else 256 * Value(s[..|s| - 1]) + ByteValue(s[|s| - 1])
  }

  function Pow256(n: nat): nat
  {
    if n == 0 then 1 else 256 * Pow256(n - 1)
  }

  lemma PackTests(a: bool, b: bool, c: bool, d: bool, e: bool, f: bool, g: bool, h: bool)
    ensures var x := Pack8(a, b, c, d, e, f, g, h);
      && Test(x, 0) == a && Test(x, 1) == b && Test(x, 2) == c && Test(x, 3) == d
      && Test(x, 4) == e && Test(x, 5) == f && Test(x, 6) == g && Test(x, 7) == h
  {
    hide Test, Pack8;
    PackBits(a, b, c, d, e, f, g, h, Pack8(a, b, c, d, e, f, g, h));
    ByteBits(Pack8(a, b, c, d, e, f, g, h));
  }

  lemma TakeOut(x: nat, p: nat)
    requires x < 2 * p
    ensures Weight(x >= p, p) + Rest(x, p) == x && Rest(x, p) < p
  {
  }

  lemma SumBack(x: nat)
    requires x < 256
    ensures
      var x6 := Rest(x, 128);
      var x5 := Rest(x6, 64);
      var x4 := Rest(x5, 32);
      var x3 := Rest(x4, 16);
      var x2 := Rest(x3, 8);
      var x1 := Rest(x2, 4);
      var x0 := Rest(x1, 2);
      Sum8(x >= 128, x6 >= 64, x5 >= 32, x4 >= 16, x3 >= 8, x2 >= 4, x1 >= 2, x0 >= 1) == x
  {
    hide Rest, Weight;
    var x6 := Rest(x, 128);
    var x5 := Rest(x6, 64);
    var x4 := Rest(x5, 32);
    var x3 := Rest(x4, 16);
    var x2 := Rest(x3, 8);
    var x1 := Rest(x2, 4);
    var x0 := Rest(x1, 2);
    TakeOut(x, 128);
    TakeOut(x6, 64);
    TakeOut(x5, 32);
    TakeOut(x4, 16);
    TakeOut(x3, 8);
    TakeOut(x2, 4);
    TakeOut(x1, 2);
    TakeOut(x0, 1);
  }

  lemma ByteBack(x: nat)
    requires x < 256
    ensures ByteValue(ToByte(x)) == x
  {
    hide Pack8, Test, Rest, Sum8;
    SumBack(x);
    var x6 := Rest(x, 128);
    var x5 := Rest(x6, 64);
    var x4 := Rest(x5, 32);
    var x3 := Rest(x4, 16);
    var x2 := Rest(x3, 8);
    var x1 := Rest(x2, 4);
    var x0 := Rest(x1, 2);
    PackTests(x >= 128, x6 >= 64, x5 >= 32, x4 >= 16, x3 >= 8, x2 >= 4, x1 >= 2, x0 >= 1);
  }

  lemma {:induction false} ValueBack(x: nat, n: nat)
    requires x < Pow256(n)
    ensures Value(BigEndian(x, n)) == x
  {
    if n > 0 {
      ValueBack(x / 256, n - 1);
      ByteBack(x % 256);
      var s := BigEndian(x / 256, n - 1);
      assert (s + [ToByte(x % 256)])[..n - 1] == s;
    }
  }

  lemma WeightBits(b: bv8)
    ensures b as nat ==
      (if b & 0x80 != 0 then 128 else 0) + (if b & 0x40 != 0 then 64 else 0) + (if b & 0x20 != 0 then 32 else 0)
      + (if b & 0x10 != 0 then 16 else 0) + (if b & 0x08 != 0 then 8 else 0) + (if b & 0x04 != 0 then 4 else 0)
      + (if b & 0x02 != 0 then 2 else 0) + (if b & 0x01 != 0 then 1 else 0)
  {
  }

  /** The value of a byte is its unsigned number. */
  lemma ByteNumber(b: bv8)
    ensures ByteValue(b) == b as nat
  {
    hide Test;
    ByteBits(b);
    WeightBits(b);
  }

  lemma ToByteNumber(x: nat)
    requires x < 256
    ensures ToByte(x) as nat == x
  {
    hide ToByte, ByteValue;
    ByteNumber(ToByte(x));
    ByteBack(x);
  }

  /** The first byte weighs most. */
  lemma {:induction false} FirstByte(s: seq<bv8>)
    requires s != []
    ensures Value(s) == s[0] as nat * Pow256(|s| - 1) + Value(s[1..])
  {
    hide ByteValue;
    var n := |s| - 1;
    ByteNumber(s[n]);
    if n > 0 {
      FirstByte(s[..n]);
      assert s[..n][1..] == s[1..][..n - 1];
      TimesByte(s[0] as nat, Pow256(n - 1));
    } else {
      assert s[..0] == [] == s[1..];
    }
  }

  lemma TimesByte(a: nat, p: nat)
    ensures 256 * (a * p) == a * (256 * p)
  {
  }

  /** Byte k of a number is its quotient by 256^(n - 1 - k), modulo 256. */
  lemma {:induction false} BigEndianAt(x: nat, n: nat, k: nat)
    requires k < n
    ensures Pow256(n - 1 - k) > 0 && BigEndian(x, n)[k] as nat == x / Pow256(n - 1 - k) % 256
  {
    hide ToByte;
    if k == n - 1 {
      ToByteNumber(x % 256);
    } else {
      BigEndianAt(x / 256, n - 1, k);
      DivideTwice(x, Pow256(n - 2 - k));
    }
  }

  lemma DivideTwice(x: nat, p: nat)
    requires p > 0
    ensures 256 * p > 0 && x / 256 / p == x / (256 * p)
  {
    var q, r, b := x / 256 / p, x / 256 % p, x % 256;
    assert q * (256 * p) == 256 * (q * p);
    Division(x, q, 256 * r + b, 256 * p);
  }

  /** The lowest byte and what is above it, of a number cut to p times 256. */
  lemma LowStep(x: nat, p: nat)
    requires p > 0
    ensures 256 * p > 0 && x % (256 * p) % 256 == x % 256 && x % (256 * p) / 256 == x / 256 % p
  {
    var y, b := x / 256, x % 256;
    var q, z := y / p, y % p;
    assert q * (256 * p) == 256 * (q * p);
    assert x == q * (256 * p) + (256 * z + b);
    Division(x, q, 256 * z + b, 256 * p);
    Division(256 * z + b, z, b, 256);
  }

  /** Only the number modulo 256^n matters. */
  lemma {:induction false} LowBytes(x: nat, n: nat)
    ensures Pow256(n) > 0 && BigEndian(x % Pow256(n), n) == BigEndian(x, n)
  {
    hide ToByte;
    if n > 0 {
      LowBytes(x / 256, n - 1);
      LowStep(x, Pow256(n - 1));
    }
  }

  lemma Powers()
    ensures Pow256(1) == 0x100 && Pow256(2) == 0x1_0000 && Pow256(4) == 0x1_0000_0000
    ensures Pow256(8) == 0x1_0000_0000_0000_0000
  {
    assert Pow256(1) == 0x100;
    assert Pow256(2) == 0x1_0000;
    assert Pow256(3) == 0x100_0000;
    assert Pow256(4) == 0x1_0000_0000;
    assert Pow256(5) == 0x100_0000_0000;
    assert Pow256(6) == 0x1_0000_0000_0000;
    assert Pow256(7) == 0x100_0000_0000_0000;
  }

  /** Reading n bytes back gives the number modulo 256^n. */
  lemma ValueModulo(x: nat, n: nat)
    ensures Pow256(n) > 0 && Value(BigEndian(x, n)) == x % Pow256(n)
  {
    LowBytes(x, n);
    ValueBack(x % Pow256(n), n);
  }

  // Words of 32 bits, most significant byte first.

  function Word32(s: seq<bv8>): bv32
    requires |s| == 4
  {
    ((s[0] as bv32) << 24) | ((s[1] as bv32) << 16) | ((s[2] as bv32) << 8) | (s[3] as bv32)
  }

  function Bytes32(w: bv32): (s: seq<bv8>)
    ensures |s| == 4
  {
    [(w >> 24) as bv8, ((w >> 16) & 0xff) as bv8, ((w >> 8) & 0xff) as bv8, (w & 0xff) as bv8]
  }

  /** The bytes of a word are its digits to the base 256, the highest first. */
  lemma Digits32(w: bv32)
    ensures var s := Bytes32(w);
      && s[0] as bv32 == w >> 24 && s[1] as bv32 == (w >> 16) & 0xff
      && s[2] as bv32 == (w >> 8) & 0xff && s[3] as bv32 == w & 0xff
  {
  }

  lemma Word32Back(w: bv32)
    ensures Word32(Bytes32(w)) == w
  {
  }

  lemma Bytes32Back(s: seq<bv8>)
    requires |s| == 4
    ensures Bytes32(Word32(s)) == s
  {
  }

  function Zeros(n: nat): (r: seq<bv8>)
    ensures |r| == n && forall i :: 0 <= i < n ==> r[i] == 0
  {
    seq(n, _ => 0)
  }

  function Xor(a: seq<bv8>, b: seq<bv8>): (r: seq<bv8>)
    requires |a| <= |b|
    ensures |r| == |a| && forall i :: 0 <= i < |a| ==> r[i] == a[i] ^ b[i]
  {
    seq(|a|, i requires 0 <= i < |a| => a[i] ^ b[i])
  }

  lemma ToByteZero()
    ensures ToByte(0) == 0
  {
  }

  lemma {:induction false} SmallNumber(t: nat, n: nat)
    requires t < 256
    ensures BigEndian(0, n) == Zeros(n) && BigEndian(t, n + 1) == Zeros(n) + [ToByte(t)]
  {
    hide ToByte;
    ToByteZero();
    if n > 0 {
      SmallNumber(0, n - 1);
      assert Zeros(n - 1) + [0] == Zeros(n);
    }
  }
}
