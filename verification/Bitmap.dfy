/**
 The bitmaps of an HFS+ volume: one bit per node (B-tree header map record) or per
 allocation block (allocation file), most significant bit of each byte first.
 */
module Bitmap {

  /** The value `1 << (7 - i)`, reached by shifting 0x80 right i times. */
  function Mask(i: nat): bv8
    requires i < 8
  {
    if i == 0 then 0x80 else Mask(i - 1) >> 1
  }

  predicate Test(b: bv8, i: nat)
    requires i < 8
  {
    b & Mask(i) != 0
  }

  function On(b: bv8, i: nat): bv8
    requires i < 8
  {
    b | Mask(i)
  }

  function Off(b: bv8, i: nat): bv8
    requires i < 8
  {
    b & !Mask(i)
  }

  predicate Bit(bits: seq<bv8>, n: nat)
    requires n < 8 * |bits|
  {
    Test(bits[n / 8], n % 8)
  }

  function SetBit(bits: seq<bv8>, n: nat): seq<bv8>
    requires n < 8 * |bits|
  {
    bits[n / 8 := On(bits[n / 8], n % 8)]
  }

  function ClearBit(bits: seq<bv8>, n: nat): seq<bv8>
    requires n < 8 * |bits|
  {
    bits[n / 8 := Off(bits[n / 8], n % 8)]
  }

  /** The number of clear bits among the first n. */
  ghost function ClearCount(bits: seq<bv8>, n: nat): nat
    requires n <= 8 * |bits|
  {
    if n == 0 then 0 else ClearCount(bits, n - 1) + (if Bit(bits, n - 1) then 0 else 1)
  }

  lemma MaskValue(i: nat)
    requires i < 8
    ensures Mask(i) == [0x80, 0x40, 0x20, 0x10, 0x08, 0x04, 0x02, 0x01][i]
  {
    assert Mask(0) == 0x80;
    assert Mask(1) == 0x40;
    assert Mask(2) == 0x20;
    assert Mask(3) == 0x10;
    assert Mask(4) == 0x08;
    assert Mask(5) == 0x04;
    assert Mask(6) == 0x02;
  }

  lemma MasksApart(i: nat, j: nat)
    requires i < 8 && j < 8
    ensures Mask(i) != 0
    ensures i != j ==> Mask(i) & Mask(j) == 0
  {
    MaskValue(i);
    MaskValue(j);
  }

  lemma Masking(b: bv8, m: bv8, k: bv8)
    ensures (b | m) & m == m && (b & !m) & m == 0
    ensures m & k == 0 ==> (b | m) & k == b & k && (b & !m) & k == b & k
  {
  }

  lemma TestAt(b: bv8, i: nat, j: nat)
    requires i < 8 && j < 8
    ensures Test(On(b, i), j) == (i == j || Test(b, j))
    ensures Test(Off(b, i), j) == (i != j && Test(b, j))
  {
    MasksApart(i, j);
    Masking(b, Mask(i), Mask(j));
  }

  /** A byte is 0xFF exactly when all its bits are set. */
  lemma FullByte(b: bv8)
    ensures b == 0xFF <==> forall i: nat :: i < 8 ==> Test(b, i)
  {
    forall i: nat | i < 8
      ensures Mask(i) == [0x80, 0x40, 0x20, 0x10, 0x08, 0x04, 0x02, 0x01][i]
    {
      MaskValue(i);
    }
    if forall i: nat :: i < 8 ==> Test(b, i) {
      assert Test(b, 0) && Test(b, 1) && Test(b, 2) && Test(b, 3);
      assert Test(b, 4) && Test(b, 5) && Test(b, 6) && Test(b, 7);
    }
    forall i: nat | i < 8 && b == 0xFF
      ensures Test(b, i)
    {
      AllOnes(Mask(i));
    }
  }

  lemma AllOnes(m: bv8)
    ensures 0xFF & m == m
  {
  }

  lemma LowestClear(bits: seq<bv8>, p: nat, i: nat)
    requires p < |bits| && i < 8 && !Test(bits[p], i)
    requires forall j: nat :: j < i ==> Test(bits[p], j)
    requires forall m: nat :: m < 8 * p ==> Bit(bits, m)
    ensures (p * 8 + i) / 8 == p && (p * 8 + i) % 8 == i && !Bit(bits, p * 8 + i)
    ensures forall m: nat :: m < p * 8 + i ==> Bit(bits, m)
  {
    forall m: nat | 8 * p <= m < p * 8 + i
      ensures Bit(bits, m)
    {
      assert m / 8 == p && m % 8 == m - 8 * p;
    }
  }

  lemma ByteDone(bits: seq<bv8>, p: nat)
    requires p < |bits| && forall j: nat :: j < 8 ==> Test(bits[p], j)
    requires forall m: nat :: m < 8 * p ==> Bit(bits, m)
    ensures forall m: nat :: m < 8 * (p + 1) ==> Bit(bits, m)
  {
    forall m: nat | 8 * p <= m < 8 * p + 8
      ensures Bit(bits, m)
    {
      assert m / 8 == p && m % 8 == m - 8 * p;
    }
  }

  /** Setting or clearing bit n changes bit n and no other bit. */
  lemma UpdateBit(bits: seq<bv8>, n: nat, m: nat)
    requires n < 8 * |bits| && m < 8 * |bits|
    ensures Bit(SetBit(bits, n), m) == (n == m || Bit(bits, m))
    ensures Bit(ClearBit(bits, n), m) == (n != m && Bit(bits, m))
  {
    if n / 8 == m / 8 {
      TestAt(bits[n / 8], n % 8, m % 8);
    }
  }

  /** Setting a clear bit takes one from the clear count, clearing a set bit gives one back. */
  lemma {:induction false} UpdateCount(bits: seq<bv8>, n: nat, k: nat)
    requires n < 8 * |bits| && k <= 8 * |bits|
    ensures !Bit(bits, n) ==> ClearCount(SetBit(bits, n), k) == ClearCount(bits, k) - (if n < k then 1 else 0)
    ensures Bit(bits, n) ==> ClearCount(ClearBit(bits, n), k) == ClearCount(bits, k) + (if n < k then 1 else 0)
  {
    if k != 0 {
      UpdateBit(bits, n, k - 1);
      UpdateCount(bits, n, k - 1);
    }
  }

  /** The clear count is positive exactly when some bit below k is clear. */
  lemma {:induction false} ClearExists(bits: seq<bv8>, k: nat)
    requires k <= 8 * |bits|
    ensures ClearCount(bits, k) > 0 <==> exists n: nat :: n < k && !Bit(bits, n)
  {
    if k != 0 {
      ClearExists(bits, k - 1);
      if !Bit(bits, k - 1) {
        assert k - 1 < k;
      }
    }
  }
}
