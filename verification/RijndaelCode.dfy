/**
 The code of the cipher: key schedules filled in place and table-driven double rounds, shown
 to compute the functions of module Rijndael.
 */
module RijndaelCode {
  import opened SBox
  import opened Rijndael

  // Section 5.2: key expansion, word by word.

  function Power(n: nat): bv8
  {
    if n == 0 then 1 else Double(Power(n - 1))
  }

  const RCON: seq<bv32> := [
    0x01000000, 0x02000000, 0x04000000, 0x08000000, 0x10000000,
    0x20000000, 0x40000000, 0x80000000, 0x1B000000, 0x36000000
  ]

  lemma RconTable(i: nat)
    requires i < 10
    ensures RCON[i] == Word(Power(i), 0, 0, 0)
  {
    assert Power(0) == 0x01;
    assert Power(1) == 0x02;
    assert Power(2) == 0x04;
    assert Power(3) == 0x08;
    assert Power(4) == 0x10;
    assert Power(5) == 0x20;
    assert Power(6) == 0x40;
    assert Power(7) == 0x80;
    assert Power(8) == 0x1B;
    assert Power(9) == 0x36;
  }

  function RotWord(w: bv32): bv32
  {
    Word(B1(w), B2(w), B3(w), B0(w))
  }

  predicate KeySize(nk: nat)
  {
    nk == 4 || nk == 6 || nk == 8
  }

  function KeyStep(temp: bv32, nk: nat, i: nat): bv32
    requires KeySize(nk) && i >= nk
  {
    if i % nk == 0 then Sum(SubWord(RotWord(temp)), Word(Power(i / nk - 1), 0, 0, 0))
    else if nk > 6 && i % nk == 4 then SubWord(temp)
    else temp
  }

  /** Word i of the expanded key. */
  function KeyWord(key: seq<bv8>, nk: nat, i: nat): bv32
    requires KeySize(nk) && |key| >= 4 * nk
  {
    if i < nk then
      Word(key[4 * i], key[4 * i + 1], key[4 * i + 2], key[4 * i + 3])
    else
      Sum(KeyWord(key, nk, i - nk), KeyStep(KeyWord(key, nk, i - 1), nk, i))
  }

  /** The number of rounds for a key size in bits, 0 when there is none. */
  function RoundsFor(keyBits: int): nat
  {
    if keyBits == 128 then 10 else if keyBits == 192 then 12 else if keyBits == 256 then 14 else 0
  }

  // One byte of a table word in its place.
  function Byte0(w: bv32): bv32 { w & 0xff000000 }
  function Byte1(w: bv32): bv32 { w & 0x00ff0000 }
  function Byte2(w: bv32): bv32 { w & 0x0000ff00 }
  function Byte3(w: bv32): bv32 { w & 0x000000ff }

  // Exclusive or of several words, as the code writes it.
  function Xor4(a: bv32, b: bv32, c: bv32, d: bv32): bv32 { Sum(Sum(Sum(a, b), c), d) }
  function Xor5(a: bv32, b: bv32, c: bv32, d: bv32, e: bv32): bv32 { Sum(Xor4(a, b, c, d), e) }
  function Xor6(a: bv32, b: bv32, c: bv32, d: bv32, e: bv32, f: bv32): bv32 { Sum(Xor5(a, b, c, d, e), f) }

  lemma SumAssoc(a: bv32, b: bv32, c: bv32)
    ensures Sum(Sum(a, b), c) == Sum(a, Sum(b, c))
  {
  }

  lemma XorThen(w: bv32, a: bv32, b: bv32, c: bv32, d: bv32, k: bv32)
    ensures Xor5(w, a, b, c, d) == Sum(w, Xor4(a, b, c, d))
    ensures Xor6(w, a, b, c, d, k) == Sum(w, Sum(Xor4(a, b, c, d), k))
  {
    hide Sum;
    SumAssoc(w, a, b);
    SumAssoc(w, Sum(a, b), c);
    SumAssoc(w, Sum(Sum(a, b), c), d);
    SumAssoc(w, Xor4(a, b, c, d), k);
  }

  lemma Scatter(a: bv8, b: bv8, c: bv8, d: bv8)
    ensures Sum(Sum(Sum(Byte0(Word(a, a, a, a)), Byte1(Word(b, b, b, b))), Byte2(Word(c, c, c, c))),
                Byte3(Word(d, d, d, d)))
         == Word(a, b, c, d)
  {
  }

  lemma KeyMix(w: bv32, temp: bv32, k: bv32)
    ensures Xor6(w, Byte0(Te4(B1(temp))), Byte1(Te4(B2(temp))), Byte2(Te4(B3(temp))), Byte3(Te4(B0(temp))), k)
         == Sum(w, Sum(SubWord(RotWord(temp)), k))
  {
    hide S, B0, B1, B2, B3, Word, Sum, Byte0, Byte1, Byte2, Byte3;
    var a, b, c, d := B1(temp), B2(temp), B3(temp), B0(temp);
    WordBytes(a, b, c, d);
    Scatter(S(a), S(b), S(c), S(d));
    XorThen(w, Byte0(Te4(a)), Byte1(Te4(b)), Byte2(Te4(c)), Byte3(Te4(d)), k);
  }

  lemma KeySub(w: bv32, temp: bv32)
    ensures Xor5(w, Byte0(Te4(B0(temp))), Byte1(Te4(B1(temp))), Byte2(Te4(B2(temp))), Byte3(Te4(B3(temp))))
         == Sum(w, SubWord(temp))
  {
    hide S, B0, B1, B2, B3, Word, Sum, Byte0, Byte1, Byte2, Byte3;
    var a, b, c, d := B0(temp), B1(temp), B2(temp), B3(temp);
    Scatter(S(a), S(b), S(c), S(d));
    XorThen(w, Byte0(Te4(a)), Byte1(Te4(b)), Byte2(Te4(c)), Byte3(Te4(d)), 0);
  }

  lemma TeSum(a: bv8, b: bv8, c: bv8, d: bv8)
    ensures Sum(Sum(Sum(Te0(a), Te1(b)), Te2(c)), Te3(d)) == MixWord(Word(S(a), S(b), S(c), S(d)))
  {
    hide S, B0, B1, B2, B3, Word, Sum, Add, Double, X3;
    var x, y, z, w := S(a), S(b), S(c), S(d);
    WordBytes(x, y, z, w);
    SumWords(Double(x), x, x, X3(x), X3(y), Double(y), y, y);
    SumWords(Add(Double(x), X3(y)), Add(x, Double(y)), Add(x, y), Add(X3(x), y), z, X3(z), Double(z), z);
    SumWords(Add(Add(Double(x), X3(y)), z), Add(Add(x, Double(y)), X3(z)), Add(Add(x, y), Double(z)),
             Add(Add(X3(x), y), z),
             w, w, X3(w), Double(w));
    Rotate(x, Double(y), X3(z), w);
    Rotate(x, y, Double(z), X3(w));
    Rotate(y, Double(z), X3(w), x);
    Rotate(Double(w), X3(x), y, z);
  }

  lemma TdSum(a: bv8, b: bv8, c: bv8, d: bv8)
    ensures Sum(Sum(Sum(Td0(a), Td1(b)), Td2(c)), Td3(d)) == InvMixWord(Word(Si(a), Si(b), Si(c), Si(d)))
  {
    hide Si, B0, B1, B2, B3, Word, Sum, Add, X9, Xb, Xd, Xe;
    var x, y, z, w := Si(a), Si(b), Si(c), Si(d);
    WordBytes(x, y, z, w);
    SumWords(Xe(x), X9(x), Xd(x), Xb(x), Xb(y), Xe(y), X9(y), Xd(y));
    SumWords(Add(Xe(x), Xb(y)), Add(X9(x), Xe(y)), Add(Xd(x), X9(y)), Add(Xb(x), Xd(y)), Xd(z), Xb(z), Xe(z), X9(z));
    SumWords(Add(Add(Xe(x), Xb(y)), Xd(z)), Add(Add(X9(x), Xe(y)), Xb(z)), Add(Add(Xd(x), X9(y)), Xe(z)),
             Add(Add(Xb(x), Xd(y)), X9(z)),
             X9(w), Xd(w), Xb(w), Xe(w));
    Rotate(X9(x), Xe(y), Xb(z), Xd(w));
    Rotate(Xd(x), X9(y), Xe(z), Xb(w));
    Rotate(X9(y), Xe(z), Xb(w), Xd(x));
    Rotate(Xe(w), Xb(x), Xd(y), X9(z));
  }

  /** One column of a round from the tables. */
  lemma TeColumn(a: bv8, b: bv8, c: bv8, d: bv8, k: bv32)
    ensures Xor5(Te0(a), Te1(b), Te2(c), Te3(d), k) == Sum(MixWord(Word(S(a), S(b), S(c), S(d))), k)
  {
    hide Te0, Te1, Te2, Te3, MixWord, Word, S, Sum;
    TeSum(a, b, c, d);
  }

  lemma TdColumn(a: bv8, b: bv8, c: bv8, d: bv8, k: bv32)
    ensures Xor5(Td0(a), Td1(b), Td2(c), Td3(d), k) == Sum(InvMixWord(Word(Si(a), Si(b), Si(c), Si(d))), k)
  {
    hide Td0, Td1, Td2, Td3, InvMixWord, Word, Si, Sum;
    TdSum(a, b, c, d);
  }

  /** One column of the last round. */
  lemma TeLast(a: bv8, b: bv8, c: bv8, d: bv8, k: bv32)
    ensures Xor5(Byte0(Te4(a)), Byte1(Te4(b)), Byte2(Te4(c)), Byte3(Te4(d)), k)
         == Sum(Word(S(a), S(b), S(c), S(d)), k)
  {
    hide S, Word, Byte0, Byte1, Byte2, Byte3, Sum;
    Scatter(S(a), S(b), S(c), S(d));
  }

  lemma TdLast(a: bv8, b: bv8, c: bv8, d: bv8, k: bv32)
    ensures Xor5(Byte0(Td4(a)), Byte1(Td4(b)), Byte2(Td4(c)), Byte3(Td4(d)), k)
         == Sum(Word(Si(a), Si(b), Si(c), Si(d)), k)
  {
    hide Si, Word, Byte0, Byte1, Byte2, Byte3, Sum;
    Scatter(Si(a), Si(b), Si(c), Si(d));
  }

  lemma ShiftSub(s: State)
    ensures var t := ShiftRows(SubBytes(s));
      && t.s0 == Word(S(B0(s.s0)), S(B1(s.s1)), S(B2(s.s2)), S(B3(s.s3)))
      && t.s1 == Word(S(B0(s.s1)), S(B1(s.s2)), S(B2(s.s3)), S(B3(s.s0)))
      && t.s2 == Word(S(B0(s.s2)), S(B1(s.s3)), S(B2(s.s0)), S(B3(s.s1)))
      && t.s3 == Word(S(B0(s.s3)), S(B1(s.s0)), S(B2(s.s1)), S(B3(s.s2)))
  {
    hide B0, B1, B2, B3, Word, S;
    WordBytes(S(B0(s.s0)), S(B1(s.s0)), S(B2(s.s0)), S(B3(s.s0)));
    WordBytes(S(B0(s.s1)), S(B1(s.s1)), S(B2(s.s1)), S(B3(s.s1)));
    WordBytes(S(B0(s.s2)), S(B1(s.s2)), S(B2(s.s2)), S(B3(s.s2)));
    WordBytes(S(B0(s.s3)), S(B1(s.s3)), S(B2(s.s3)), S(B3(s.s3)));
  }

  lemma InvShiftSub(s: State)
    ensures var t := InvShiftRows(InvSubBytes(s));
      && t.s0 == Word(Si(B0(s.s0)), Si(B1(s.s3)), Si(B2(s.s2)), Si(B3(s.s1)))
      && t.s1 == Word(Si(B0(s.s1)), Si(B1(s.s0)), Si(B2(s.s3)), Si(B3(s.s2)))
      && t.s2 == Word(Si(B0(s.s2)), Si(B1(s.s1)), Si(B2(s.s0)), Si(B3(s.s3)))
      && t.s3 == Word(Si(B0(s.s3)), Si(B1(s.s2)), Si(B2(s.s1)), Si(B3(s.s0)))
  {
    hide B0, B1, B2, B3, Word, Si;
    WordBytes(Si(B0(s.s0)), Si(B1(s.s0)), Si(B2(s.s0)), Si(B3(s.s0)));
    WordBytes(Si(B0(s.s1)), Si(B1(s.s1)), Si(B2(s.s1)), Si(B3(s.s1)));
    WordBytes(Si(B0(s.s2)), Si(B1(s.s2)), Si(B2(s.s2)), Si(B3(s.s2)));
    WordBytes(Si(B0(s.s3)), Si(B1(s.s3)), Si(B2(s.s3)), Si(B3(s.s3)));
  }

  /** The four table expressions of a round are the round. */
  lemma RoundByTable(s: State, k: State)
    ensures Round(s, k) == State(
      Xor5(Te0(B0(s.s0)), Te1(B1(s.s1)), Te2(B2(s.s2)), Te3(B3(s.s3)), k.s0),
      Xor5(Te0(B0(s.s1)), Te1(B1(s.s2)), Te2(B2(s.s3)), Te3(B3(s.s0)), k.s1),
      Xor5(Te0(B0(s.s2)), Te1(B1(s.s3)), Te2(B2(s.s0)), Te3(B3(s.s1)), k.s2),
      Xor5(Te0(B0(s.s3)), Te1(B1(s.s0)), Te2(B2(s.s1)), Te3(B3(s.s2)), k.s3))
  {
    hide B0, B1, B2, B3, Word, S, Te0, Te1, Te2, Te3, MixWord, Sum, Xor5, ShiftRows, SubBytes;
    ShiftSub(s);
    TeColumn(B0(s.s0), B1(s.s1), B2(s.s2), B3(s.s3), k.s0);
    TeColumn(B0(s.s1), B1(s.s2), B2(s.s3), B3(s.s0), k.s1);
    TeColumn(B0(s.s2), B1(s.s3), B2(s.s0), B3(s.s1), k.s2);
    TeColumn(B0(s.s3), B1(s.s0), B2(s.s1), B3(s.s2), k.s3);
  }

  lemma EqRoundByTable(s: State, k: State)
    ensures EqRound(s, k) == State(
      Xor5(Td0(B0(s.s0)), Td1(B1(s.s3)), Td2(B2(s.s2)), Td3(B3(s.s1)), k.s0),
      Xor5(Td0(B0(s.s1)), Td1(B1(s.s0)), Td2(B2(s.s3)), Td3(B3(s.s2)), k.s1),
      Xor5(Td0(B0(s.s2)), Td1(B1(s.s1)), Td2(B2(s.s0)), Td3(B3(s.s3)), k.s2),
      Xor5(Td0(B0(s.s3)), Td1(B1(s.s2)), Td2(B2(s.s1)), Td3(B3(s.s0)), k.s3))
  {
    hide B0, B1, B2, B3, Word, Si, Td0, Td1, Td2, Td3, InvMixWord, Sum, Xor5, InvShiftRows, InvSubBytes;
    InvShiftSub(s);
    TdColumn(B0(s.s0), B1(s.s3), B2(s.s2), B3(s.s1), k.s0);
    TdColumn(B0(s.s1), B1(s.s0), B2(s.s3), B3(s.s2), k.s1);
    TdColumn(B0(s.s2), B1(s.s1), B2(s.s0), B3(s.s3), k.s2);
    TdColumn(B0(s.s3), B1(s.s2), B2(s.s1), B3(s.s0), k.s3);
  }

  lemma LastByTable(s: State, k: State)
    ensures AddRoundKey(ShiftRows(SubBytes(s)), k) == State(
      Xor5(Byte0(Te4(B0(s.s0))), Byte1(Te4(B1(s.s1))), Byte2(Te4(B2(s.s2))), Byte3(Te4(B3(s.s3))), k.s0),
      Xor5(Byte0(Te4(B0(s.s1))), Byte1(Te4(B1(s.s2))), Byte2(Te4(B2(s.s3))), Byte3(Te4(B3(s.s0))), k.s1),
      Xor5(Byte0(Te4(B0(s.s2))), Byte1(Te4(B1(s.s3))), Byte2(Te4(B2(s.s0))), Byte3(Te4(B3(s.s1))), k.s2),
      Xor5(Byte0(Te4(B0(s.s3))), Byte1(Te4(B1(s.s0))), Byte2(Te4(B2(s.s1))), Byte3(Te4(B3(s.s2))), k.s3))
  {
    hide B0, B1, B2, B3, Word, S, Te4, Sum, Xor5, Byte0, Byte1, Byte2, Byte3, ShiftRows, SubBytes;
    ShiftSub(s);
    TeLast(B0(s.s0), B1(s.s1), B2(s.s2), B3(s.s3), k.s0);
    TeLast(B0(s.s1), B1(s.s2), B2(s.s3), B3(s.s0), k.s1);
    TeLast(B0(s.s2), B1(s.s3), B2(s.s0), B3(s.s1), k.s2);
    TeLast(B0(s.s3), B1(s.s0), B2(s.s1), B3(s.s2), k.s3);
  }

  lemma InvLastByTable(s: State, k: State)
    ensures AddRoundKey(InvShiftRows(InvSubBytes(s)), k) == State(
      Xor5(Byte0(Td4(B0(s.s0))), Byte1(Td4(B1(s.s3))), Byte2(Td4(B2(s.s2))), Byte3(Td4(B3(s.s1))), k.s0),
      Xor5(Byte0(Td4(B0(s.s1))), Byte1(Td4(B1(s.s0))), Byte2(Td4(B2(s.s3))), Byte3(Td4(B3(s.s2))), k.s1),
      Xor5(Byte0(Td4(B0(s.s2))), Byte1(Td4(B1(s.s1))), Byte2(Td4(B2(s.s0))), Byte3(Td4(B3(s.s3))), k.s2),
      Xor5(Byte0(Td4(B0(s.s3))), Byte1(Td4(B1(s.s2))), Byte2(Td4(B2(s.s1))), Byte3(Td4(B3(s.s0))), k.s3))
  {
    hide B0, B1, B2, B3, Word, Si, Td4, Sum, Xor5, Byte0, Byte1, Byte2, Byte3, InvShiftRows, InvSubBytes;
    InvShiftSub(s);
    TdLast(B0(s.s0), B1(s.s3), B2(s.s2), B3(s.s1), k.s0);
    TdLast(B0(s.s1), B1(s.s0), B2(s.s3), B3(s.s2), k.s1);
    TdLast(B0(s.s2), B1(s.s1), B2(s.s0), B3(s.s3), k.s2);
    TdLast(B0(s.s3), B1(s.s2), B2(s.s1), B3(s.s0), k.s3);
  }

  /** The first n words of a schedule are those of the expanded key. */
  ghost predicate Filled(rk: seq<bv32>, key: seq<bv8>, nk: nat, n: nat)
    requires KeySize(nk) && |key| >= 4 * nk
  {
    n <= |rk| && forall j: nat :: j < n ==> rk[j] == KeyWord(key, nk, j)
  }

  lemma NextPlain(rk: seq<bv32>, key: seq<bv8>, nk: nat, n: nat)
    requires KeySize(nk) && |key| >= 4 * nk && n < |rk| && Filled(rk, key, nk, n) && n >= nk
    requires n % nk != 0 && !(nk == 8 && n % 8 == 4) && rk[n] == rk[n - nk] ^ rk[n - 1]
    ensures Filled(rk, key, nk, n + 1)
  {
    assert rk[n] == KeyWord(key, nk, n);
  }

  lemma NextMixed(rk: seq<bv32>, key: seq<bv8>, nk: nat, n: nat, temp: bv32)
    requires KeySize(nk) && |key| >= 4 * nk && n < |rk| && Filled(rk, key, nk, n) && n >= nk
    requires n % nk == 0 && n / nk - 1 < 10 && temp == rk[n - 1]
    requires rk[n] == Xor6(rk[n - nk], Byte0(Te4(B1(temp))), Byte1(Te4(B2(temp))), Byte2(Te4(B3(temp))),
                           Byte3(Te4(B0(temp))), RCON[n / nk - 1])
    ensures Filled(rk, key, nk, n + 1)
  {
    hide Xor6, Byte0, Byte1, Byte2, Byte3, Te4, B0, B1, B2, B3, SubWord, RotWord, Sum, Word, Power;
    KeyMix(rk[n - nk], temp, RCON[n / nk - 1]);
    RconTable(n / nk - 1);
    assert rk[n] == KeyWord(key, nk, n);
  }

  lemma NextSubbed(rk: seq<bv32>, key: seq<bv8>, n: nat, temp: bv32)
    requires |key| >= 32 && n < |rk| && Filled(rk, key, 8, n) && n >= 8 && n % 8 == 4 && temp == rk[n - 1]
    requires rk[n] == Xor5(rk[n - 8], Byte0(Te4(B0(temp))), Byte1(Te4(B1(temp))), Byte2(Te4(B2(temp))),
                           Byte3(Te4(B3(temp))))
    ensures Filled(rk, key, 8, n + 1)
  {
    hide Xor5, Byte0, Byte1, Byte2, Byte3, Te4, B0, B1, B2, B3, SubWord, RotWord, Sum, Word, Power;
    KeySub(rk[n - 8], temp);
    assert rk[n] == KeyWord(key, 8, n);
  }

  /** Words of a schedule that a write leaves alone. */
  lemma FilledKept(a: seq<bv32>, b: seq<bv32>, key: seq<bv8>, nk: nat, n: nat)
    requires KeySize(nk) && |key| >= 4 * nk && Filled(a, key, nk, n) && n <= |b| && a[..n] == b[..n]
    ensures Filled(b, key, nk, n)
  {
    assert forall j: nat :: j < n ==> a[j] == a[..n][j] == b[..n][j] == b[j];
  }

  method NextByXor(rk: array<bv32>, ghost key: seq<bv8>, nk: nat, n: nat)
    requires KeySize(nk) && |key| >= 4 * nk && nk <= n < rk.Length && Filled(rk[..], key, nk, n)
    requires n % nk != 0 && !(nk == 8 && n % 8 == 4)
    modifies rk
    ensures Filled(rk[..], key, nk, n + 1)
    ensures forall j :: n < j < rk.Length ==> rk[j] == old(rk[j])
  {
    hide Filled;
    ghost var s := rk[..];
    rk[n] := rk[n - nk] ^ rk[n - 1];
    FilledKept(s, rk[..], key, nk, n);
    NextPlain(rk[..], key, nk, n);
  }

  method NextByMix(rk: array<bv32>, ghost key: seq<bv8>, nk: nat, n: nat, rcon: bv32)
    requires KeySize(nk) && |key| >= 4 * nk && nk <= n < rk.Length && Filled(rk[..], key, nk, n)
    requires n % nk == 0 && n / nk - 1 < 10 && rcon == RCON[n / nk - 1]
    modifies rk
    ensures Filled(rk[..], key, nk, n + 1)
    ensures forall j :: n < j < rk.Length ==> rk[j] == old(rk[j])
  {
    hide Filled, Te4, Xor6, Byte0, Byte1, Byte2, Byte3, B0, B1, B2, B3;
    ghost var s := rk[..];
    var temp := rk[n - 1];
    rk[n] := Xor6(rk[n - nk], Byte0(Te4(B1(temp))), Byte1(Te4(B2(temp))), Byte2(Te4(B3(temp))), Byte3(Te4(B0(temp))),
                  rcon);
    FilledKept(s, rk[..], key, nk, n);
    NextMixed(rk[..], key, nk, n, temp);
  }

  method NextBySub(rk: array<bv32>, ghost key: seq<bv8>, n: nat)
    requires |key| >= 32 && 8 <= n < rk.Length && Filled(rk[..], key, 8, n) && n % 8 == 4
    modifies rk
    ensures Filled(rk[..], key, 8, n + 1)
    ensures forall j :: n < j < rk.Length ==> rk[j] == old(rk[j])
  {
    hide Filled, Te4, Xor5, Byte0, Byte1, Byte2, Byte3, B0, B1, B2, B3;
    ghost var s := rk[..];
    var temp := rk[n - 1];
    rk[n] := Xor5(rk[n - 8], Byte0(Te4(B0(temp))), Byte1(Te4(B1(temp))), Byte2(Te4(B2(temp))), Byte3(Te4(B3(temp))));
    FilledKept(s, rk[..], key, 8, n);
    NextSubbed(rk[..], key, n, temp);
  }

  method Expand128(rk: array<bv32>, ghost key: seq<bv8>)
    requires |key| >= 16 && rk.Length >= 44 && Filled(rk[..], key, 4, 4)
    modifies rk
    ensures Filled(rk[..], key, 4, 44)
    ensures forall j :: 44 <= j < rk.Length ==> rk[j] == old(rk[j])
  {
    hide Filled;
    var i := 0;
    while i < 10
      invariant 0 <= i <= 10 && Filled(rk[..], key, 4, 4 + 4 * i)
      invariant forall j :: 44 <= j < rk.Length ==> rk[j] == old(rk[j])
    {
      var p := 4 * i;
      NextByMix(rk, key, 4, p + 4, RCON[i]);
      NextByXor(rk, key, 4, p + 5);
      NextByXor(rk, key, 4, p + 6);
      NextByXor(rk, key, 4, p + 7);
      i := i + 1;
    }
  }

  method Expand192(rk: array<bv32>, ghost key: seq<bv8>)
    requires |key| >= 24 && rk.Length >= 52 && Filled(rk[..], key, 6, 6)
    modifies rk
    ensures Filled(rk[..], key, 6, 52)
    ensures forall j :: 52 <= j < rk.Length ==> rk[j] == old(rk[j])
  {
    hide Filled;
    var i := 0;
    while true
      invariant 0 <= i < 8 && Filled(rk[..], key, 6, 6 + 6 * i)
      invariant forall j :: 52 <= j < rk.Length ==> rk[j] == old(rk[j])
      decreases 8 - i
    {
      var p := 6 * i;
      NextByMix(rk, key, 6, p + 6, RCON[i]);
      NextByXor(rk, key, 6, p + 7);
      NextByXor(rk, key, 6, p + 8);
      NextByXor(rk, key, 6, p + 9);
      i := i + 1;
      if i == 8 {
        return;
      }
      NextByXor(rk, key, 6, p + 10);
      NextByXor(rk, key, 6, p + 11);
    }
  }

  method Expand256(rk: array<bv32>, ghost key: seq<bv8>)
    requires |key| >= 32 && rk.Length >= 60 && Filled(rk[..], key, 8, 8)
    modifies rk
    ensures Filled(rk[..], key, 8, 60)
    ensures forall j :: 60 <= j < rk.Length ==> rk[j] == old(rk[j])
  {
    hide Filled;
    var i := 0;
    while true
      invariant 0 <= i < 7 && Filled(rk[..], key, 8, 8 + 8 * i)
      invariant forall j :: 60 <= j < rk.Length ==> rk[j] == old(rk[j])
      decreases 7 - i
    {
      var p := 8 * i;
      NextByMix(rk, key, 8, p + 8, RCON[i]);
      NextByXor(rk, key, 8, p + 9);
      NextByXor(rk, key, 8, p + 10);
      NextByXor(rk, key, 8, p + 11);
      i := i + 1;
      if i == 7 {
        return;
      }
      NextBySub(rk, key, p + 12);
      NextByXor(rk, key, 8, p + 13);
      NextByXor(rk, key, 8, p + 14);
      NextByXor(rk, key, 8, p + 15);
    }
  }

  /** The first n words are the first n words of the key. */
  ghost predicate Loaded(rk: seq<bv32>, key: seq<bv8>, n: nat)
  {
    && n <= |rk| && 4 * n <= |key|
    && forall j: nat :: j < n ==> rk[j] == Word(key[4 * j], key[4 * j + 1], key[4 * j + 2], key[4 * j + 3])
  }

  lemma LoadedFills(rk: seq<bv32>, key: seq<bv8>, nk: nat)
    requires KeySize(nk) && Loaded(rk, key, nk)
    ensures Filled(rk, key, nk, nk)
  {
    hide Word;
  }

  lemma NothingLoaded(rk: seq<bv32>, key: seq<bv8>)
    ensures Loaded(rk, key, 0)
  {
  }

  method Load(rk: array<bv32>, key: seq<bv8>, n: nat)
    requires n < rk.Length && 4 * n + 4 <= |key| && Loaded(rk[..], key, n)
    modifies rk
    ensures Loaded(rk[..], key, n + 1)
    ensures forall j :: n < j < rk.Length ==> rk[j] == old(rk[j])
  {
    hide Word;
    rk[n] := Word(key[4 * n], key[4 * n + 1], key[4 * n + 2], key[4 * n + 3]);
  }

  /** The digits of a word to the base 256, the highest first. */
  lemma WordDigits(w: bv32)
    ensures B0(w) as bv32 == w >> 24 && B1(w) as bv32 == (w >> 16) & 0xff
    ensures B2(w) as bv32 == (w >> 8) & 0xff && B3(w) as bv32 == w & 0xff
  {
  }

  /** The first n words of a schedule hold the bytes of the key in their order. */
  ghost predicate StartsWith(rk: seq<bv32>, key: seq<bv8>, n: nat)
    requires n <= |rk| && 4 * n <= |key|
  {
    forall i: nat :: i < n ==>
      && B0(rk[i]) == key[4 * i] && B1(rk[i]) == key[4 * i + 1]
      && B2(rk[i]) == key[4 * i + 2] && B3(rk[i]) == key[4 * i + 3]
  }

  /** Word i of a schedule, byte by byte, from the words nk and one before it. */
  ghost predicate Follows(a: bv32, b: bv32, w: bv32, nk: nat, i: nat)
    requires KeySize(nk) && i >= nk
  {
    if i % nk == 0 then
      && B0(w) == Add(B0(a), Add(S(B1(b)), Power(i / nk - 1)))
      && B1(w) == Add(B1(a), S(B2(b))) && B2(w) == Add(B2(a), S(B3(b))) && B3(w) == Add(B3(a), S(B0(b)))
    else if nk == 8 && i % 8 == 4 then
      && B0(w) == Add(B0(a), S(B0(b))) && B1(w) == Add(B1(a), S(B1(b)))
      && B2(w) == Add(B2(a), S(B2(b))) && B3(w) == Add(B3(a), S(B3(b)))
    else
      && B0(w) == Add(B0(a), B0(b)) && B1(w) == Add(B1(a), B1(b))
      && B2(w) == Add(B2(a), B2(b)) && B3(w) == Add(B3(a), B3(b))
  }

  /** The first n words of a schedule follow from each other as section 5.2 of FIPS 197 says. */
  ghost predicate Scheduled(rk: seq<bv32>, nk: nat, n: nat)
    requires KeySize(nk) && n <= |rk|
  {
    forall i: nat :: nk <= i < n ==> Follows(rk[i - nk], rk[i - 1], rk[i], nk, i)
  }

  lemma FilledStarts(rk: seq<bv32>, key: seq<bv8>, nk: nat, n: nat)
    requires KeySize(nk) && |key| >= 4 * nk && nk <= n && Filled(rk, key, nk, n)
    ensures StartsWith(rk, key, nk)
    ensures BlockOut(RoundKey(rk, 0)) == key[..16]
  {
    hide Word, B0, B1, B2, B3, BlockOut;
    forall i: nat | i < nk
      ensures B0(rk[i]) == key[4 * i] && B1(rk[i]) == key[4 * i + 1]
      ensures B2(rk[i]) == key[4 * i + 2] && B3(rk[i]) == key[4 * i + 3]
    {
      WordBytes(key[4 * i], key[4 * i + 1], key[4 * i + 2], key[4 * i + 3]);
    }
    FirstBlock(rk, key, nk);
  }

  lemma FirstBlock(rk: seq<bv32>, key: seq<bv8>, nk: nat)
    requires 4 <= nk <= |rk| && 4 * nk <= |key| && StartsWith(rk, key, nk)
    ensures BlockOut(RoundKey(rk, 0)) == key[..16]
  {
    hide B0, B1, B2, B3, BlockOut, StartsWith, RoundKey;
    FirstKey(rk);
    KeyBytes(rk, key, nk, 0);
    KeyBytes(rk, key, nk, 1);
    KeyBytes(rk, key, nk, 2);
    KeyBytes(rk, key, nk, 3);
    ColumnBytes(RoundKey(rk, 0));
  }

  lemma KeyBytes(rk: seq<bv32>, key: seq<bv8>, nk: nat, i: nat)
    requires i < nk <= |rk| && 4 * nk <= |key| && StartsWith(rk, key, nk)
    ensures B0(rk[i]) == key[4 * i] && B1(rk[i]) == key[4 * i + 1]
    ensures B2(rk[i]) == key[4 * i + 2] && B3(rk[i]) == key[4 * i + 3]
  {
  }

  /** Byte 4 * i + j of a block is byte j of column i. */
  lemma ColumnBytes(s: State)
    ensures BlockOut(s) == [
      B0(s.s0), B1(s.s0), B2(s.s0), B3(s.s0), B0(s.s1), B1(s.s1), B2(s.s1), B3(s.s1),
      B0(s.s2), B1(s.s2), B2(s.s2), B3(s.s2), B0(s.s3), B1(s.s3), B2(s.s3), B3(s.s3)]
  {
    hide B0, B1, B2, B3;
  }

  lemma {:induction false} FilledSchedules(rk: seq<bv32>, key: seq<bv8>, nk: nat, n: nat)
    requires KeySize(nk) && |key| >= 4 * nk && Filled(rk, key, nk, n)
    ensures Scheduled(rk, nk, n)
  {
    hide KeyStep, Follows, Sum;
    forall i: nat | nk <= i < n
      ensures Follows(rk[i - nk], rk[i - 1], rk[i], nk, i)
    {
      StepFollows(rk[i - nk], rk[i - 1], nk, i);
    }
  }

  lemma StepFollows(a: bv32, b: bv32, nk: nat, i: nat)
    requires KeySize(nk) && i >= nk
    ensures Follows(a, b, Sum(a, KeyStep(b, nk, i)), nk, i)
  {
    hide Word, B0, B1, B2, B3, S, Sum, Power, Add, SubWord, RotWord;
    SumBytes(a, KeyStep(b, nk, i));
    if i % nk == 0 {
      MixedBytes(b, Power(i / nk - 1));
    } else {
      SubBytesOf(b);
    }
  }

  lemma SubBytesOf(w: bv32)
    ensures B0(SubWord(w)) == S(B0(w)) && B1(SubWord(w)) == S(B1(w))
    ensures B2(SubWord(w)) == S(B2(w)) && B3(SubWord(w)) == S(B3(w))
  {
    hide Word, B0, B1, B2, B3, S;
    WordBytes(S(B0(w)), S(B1(w)), S(B2(w)), S(B3(w)));
  }

  lemma MixedBytes(b: bv32, c: bv8)
    ensures var x := Sum(SubWord(RotWord(b)), Word(c, 0, 0, 0));
      B0(x) == Add(S(B1(b)), c) && B1(x) == S(B2(b)) && B2(x) == S(B3(b)) && B3(x) == S(B0(b))
  {
    hide Word, B0, B1, B2, B3, S, Sum, Add, SubWord;
    SubBytesOf(RotWord(b));
    WordBytes(B1(b), B2(b), B3(b), B0(b));
    WordBytes(c, 0, 0, 0);
    SumBytes(SubWord(RotWord(b)), Word(c, 0, 0, 0));
    ZeroByte(S(B2(b)));
    ZeroByte(S(B3(b)));
    ZeroByte(S(B0(b)));
  }

  lemma ZeroByte(b: bv8)
    ensures Add(b, 0) == b
  {
  }

  /** Fills the encryption schedule and returns the number of rounds, 0 for a key size the cipher does not have. */
  method KeySetupEnc(rk: array<bv32>, key: seq<bv8>, keyBits: int) returns (nr: nat)
    requires |key| >= 16 && (keyBits != 128 ==> |key| >= 24) && (keyBits != 128 && keyBits != 192 ==> |key| >= 32)
    requires rk.Length >= 60
    modifies rk
    ensures nr == RoundsFor(keyBits)
      == if keyBits == 128 then 10 else if keyBits == 192 then 12 else if keyBits == 256 then 14 else 0
    ensures nr != 0 ==> KeyWords(keyBits) == keyBits / 32 && Filled(rk[..], key, KeyWords(keyBits), 4 * nr + 4)
    ensures nr != 0 ==> StartsWith(rk[..], key, keyBits / 32) && BlockOut(RoundKey(rk[..], 0)) == key[..16]
    ensures nr != 0 ==> KeySize(keyBits / 32) && Scheduled(rk[..], keyBits / 32, 4 * nr + 4)
    ensures forall j :: 4 * nr + 4 <= j < rk.Length && j >= 8 ==> rk[j] == old(rk[j])
  {
    hide Loaded, Filled, StartsWith, Scheduled, BlockOut, RoundKey;
    NothingLoaded(rk[..], key);
    Load(rk, key, 0);
    Load(rk, key, 1);
    Load(rk, key, 2);
    Load(rk, key, 3);
    if keyBits == 128 {
      LoadedFills(rk[..], key, 4);
      Expand128(rk, key);
      FilledStarts(rk[..], key, 4, 44);
      FilledSchedules(rk[..], key, 4, 44);
      return 10;
    }
    Load(rk, key, 4);
    Load(rk, key, 5);
    if keyBits == 192 {
      LoadedFills(rk[..], key, 6);
      Expand192(rk, key);
      FilledStarts(rk[..], key, 6, 52);
      FilledSchedules(rk[..], key, 6, 52);
      return 12;
    }
    Load(rk, key, 6);
    Load(rk, key, 7);
    if keyBits == 256 {
      LoadedFills(rk[..], key, 8);
      Expand256(rk, key);
      FilledStarts(rk[..], key, 8, 60);
      FilledSchedules(rk[..], key, 8, 60);
      return 14;
    }
    return 0;
  }

  function KeyWords(keyBits: int): nat
  {
    if keyBits == 128 then 4 else if keyBits == 192 then 6 else 8
  }

  /** InvMixColumns on one word, through the tables: the substitution box cancels. */
  lemma InvMixByTable(w: bv32)
    ensures Xor4(Td0(B3(Te4(B0(w)))), Td1(B3(Te4(B1(w)))), Td2(B3(Te4(B2(w)))), Td3(B3(Te4(B3(w))))) == InvMixWord(w)
  {
    hide Sum, B0, B1, B2, B3, Word, S, Si, InvMixWord, Td0, Td1, Td2, Td3;
    var a, b, c, d := B0(w), B1(w), B2(w), B3(w);
    WordBytes(S(a), S(a), S(a), S(a));
    WordBytes(S(b), S(b), S(b), S(b));
    WordBytes(S(c), S(c), S(c), S(c));
    WordBytes(S(d), S(d), S(d), S(d));
    Undone(a);
    Undone(b);
    Undone(c);
    Undone(d);
    TdSum(S(a), S(b), S(c), S(d));
    BytesWord(w);
  }

  /** The first k words behind i and behind j are exchanged. */
  ghost predicate Swapped(s: seq<bv32>, t: seq<bv32>, i: nat, j: nat, k: nat)
    requires i + 4 <= j && j + 4 <= |s| && k <= 4
  {
    && |t| == |s|
    && (forall m :: i <= m < i + k ==> t[m] == s[m - i + j])
    && (forall m :: j <= m < j + k ==> t[m] == s[m - j + i])
    && (forall m :: 0 <= m < |s| && !(i <= m < i + k) && !(j <= m < j + k) ==> t[m] == s[m])
  }

  method SwapWord(rk: array<bv32>, ghost s: seq<bv32>, i: nat, j: nat, k: nat)
    requires i + 4 <= j && j + 4 <= |s| && k < 4 && Swapped(s, rk[..], i, j, k)
    modifies rk
    ensures Swapped(s, rk[..], i, j, k + 1)
  {
    var temp := rk[i + k];
    rk[i + k] := rk[j + k];
    rk[j + k] := temp;
  }

  lemma SwappedKeys(s: seq<bv32>, t: seq<bv32>, a: nat, b: nat, n: nat)
    requires a < b < n && 4 * n <= |s| && Swapped(s, t, 4 * a, 4 * b, 4)
    ensures Keys(t, n) == Keys(s, n)[a := RoundKey(s, b)][b := RoundKey(s, a)]
  {
  }

  /** Swaps two round keys. */
  method SwapKeys(rk: array<bv32>, a: nat, b: nat, ghost n: nat)
    requires a < b < n && 4 * n <= rk.Length
    modifies rk
    ensures Keys(rk[..], n) == old(Keys(rk[..], n)[a := RoundKey(rk[..], b)][b := RoundKey(rk[..], a)])
  {
    hide RoundKey, Keys;
    ghost var s := rk[..];
    var i, j := 4 * a, 4 * b;
    SwapWord(rk, s, i, j, 0);
    SwapWord(rk, s, i, j, 1);
    SwapWord(rk, s, i, j, 2);
    SwapWord(rk, s, i, j, 3);
    SwappedKeys(s, rk[..], a, b, n);
  }

  /** The first n round keys. */
  ghost function Keys(rk: seq<bv32>, n: nat): (r: seq<State>)
    requires 4 * n <= |rk|
    ensures |r| == n && forall i :: 0 <= i < n ==> r[i] == RoundKey(rk, i)
  {
    seq(n, i requires 0 <= i < n => RoundKey(rk, i))
  }

  method MixWordAt(rk: array<bv32>, i: nat)
    requires i < rk.Length
    modifies rk
    ensures rk[..] == old(rk[..][i := InvMixWord(rk[i])])
  {
    hide InvMixWord, B0, B1, B2, B3, Te4, Td0, Td1, Td2, Td3, Xor4;
    InvMixByTable(rk[i]);
    rk[i] := Xor4(Td0(B3(Te4(B0(rk[i])))), Td1(B3(Te4(B1(rk[i])))), Td2(B3(Te4(B2(rk[i])))), Td3(B3(Te4(B3(rk[i])))));
  }

  lemma MixedKeys(s: seq<bv32>, a: nat, n: nat)
    requires a < n && 4 * n <= |s|
    ensures var i := 4 * a;
      Keys(s[i := InvMixWord(s[i])][i + 1 := InvMixWord(s[i + 1])]
            [i + 2 := InvMixWord(s[i + 2])][i + 3 := InvMixWord(s[i + 3])], n)
      == Keys(s, n)[a := InvMixColumns(RoundKey(s, a))]
  {
    hide InvMixWord, Keys;
    var i := 4 * a;
    var t := s[i := InvMixWord(s[i])][i + 1 := InvMixWord(s[i + 1])]
              [i + 2 := InvMixWord(s[i + 2])][i + 3 := InvMixWord(s[i + 3])];
    forall r: nat | r < n
      ensures RoundKey(t, r) == if r == a then InvMixColumns(RoundKey(s, a)) else RoundKey(s, r)
    {
      assert r != a ==>
          && t[4 * r] == s[4 * r] && t[4 * r + 1] == s[4 * r + 1]
          && t[4 * r + 2] == s[4 * r + 2] && t[4 * r + 3] == s[4 * r + 3];
    }
    assert |Keys(t, n)| == n && forall r: nat :: r < n ==> Keys(t, n)[r] == RoundKey(t, r);
  }

  /** Applies InvMixColumns to one round key. */
  method MixKey(rk: array<bv32>, a: nat, ghost n: nat)
    requires a < n && 4 * n <= rk.Length
    modifies rk
    ensures Keys(rk[..], n) == old(Keys(rk[..], n)[a := InvMixColumns(RoundKey(rk[..], a))])
  {
    hide InvMixWord, Keys;
    var i := 4 * a;
    MixedKeys(rk[..], a, n);
    MixWordAt(rk, i);
    MixWordAt(rk, i + 1);
    MixWordAt(rk, i + 2);
    MixWordAt(rk, i + 3);
  }

  ghost predicate Reversed(before: seq<State>, after: seq<State>)
  {
    |after| == |before| && forall r :: 0 <= r < |before| ==> after[r] == before[|before| - 1 - r]
  }

  /** The round keys behind the first and before place a are mixed. */
  ghost predicate InnerMixed(before: seq<State>, after: seq<State>, a: nat)
  {
    |after| == |before| && forall r :: 0 <= r < |before| ==>
      after[r] == if 0 < r < a then InvMixColumns(before[r]) else before[r]
  }

  lemma MixStep(before: seq<State>, s: seq<State>, a: nat)
    requires InnerMixed(before, s, a) && 0 < a < |s|
    ensures InnerMixed(before, s[a := InvMixColumns(s[a])], a + 1)
  {
    hide InvMixColumns;
  }

  lemma MixStart(before: seq<State>)
    ensures InnerMixed(before, before, 1)
  {
  }

  lemma MadeDecryptKeys(ek: seq<bv32>, rev: seq<State>, dk: seq<bv32>, nr: nat)
    requires 0 < nr && 4 * nr + 4 <= |ek| && 4 * nr + 4 <= |dk|
    requires Reversed(Keys(ek, nr + 1), rev) && InnerMixed(rev, Keys(dk, nr + 1), nr)
    ensures DecryptKeys(ek, dk, nr)
  {
    hide RoundKey, InvMixColumns, Keys;
    assert forall r :: 0 <= r <= nr ==> rev[r] == RoundKey(ek, nr - r);
  }

  /** Fills the decryption schedule: the round keys in reverse, the inner ones mixed. */
  method KeySetupDec(rk: array<bv32>, key: seq<bv8>, keyBits: int) returns (nr: nat)
    requires |key| >= 16 && (keyBits != 128 ==> |key| >= 24) && (keyBits != 128 && keyBits != 192 ==> |key| >= 32)
    requires rk.Length >= 60
    modifies rk
    ensures nr == RoundsFor(keyBits)
    ensures nr != 0 ==> DecryptKeys(Expanded(key, KeyWords(keyBits), 4 * nr + 4), rk[..], nr)
  {
    hide Filled, Expanded, InvMixColumns, RoundKey, Keys, Reversed, InnerMixed, DecryptKeys;
    nr := KeySetupEnc(rk, key, keyBits);
    ghost var e := rk[..];
    ReverseKeys(rk, nr);
    ghost var rev := Keys(rk[..], nr + 1);
    MixStart(rev);
    var a := 1;
    while a < nr
      invariant 1 <= a && (nr > 0 ==> a <= nr)
      invariant InnerMixed(rev, Keys(rk[..], nr + 1), a)
    {
      MixStep(rev, Keys(rk[..], nr + 1), a);
      MixKey(rk, a, nr + 1);
      a := a + 1;
    }
    if nr != 0 {
      MadeDecryptKeys(e, rev, rk[..], nr);
      ExpandedFilled(key, KeyWords(keyBits), 4 * nr + 4);
      SameSchedule(Expanded(key, KeyWords(keyBits), 4 * nr + 4), e, rk[..], key, KeyWords(keyBits), nr);
    }
  }

  /** Round keys outside i..j are those of the mirrored place, the others as before. */
  ghost predicate Mirrored(before: seq<State>, after: seq<State>, i: nat, j: int)
  {
    && |after| == |before| && i + j == |before| - 1
    && forall r :: 0 <= r < |before| ==> after[r] == before[if r < i || r > j then i + j - r else r]
  }

  lemma MirrorStep(before: seq<State>, s: seq<State>, i: nat, j: nat)
    requires Mirrored(before, s, i, j) && i < j
    ensures Mirrored(before, s[i := s[j]][j := s[i]], i + 1, j - 1)
  {
  }

  lemma MirrorStart(before: seq<State>)
    requires |before| > 0
    ensures Mirrored(before, before, 0, |before| - 1)
  {
  }

  lemma MirrorEnd(before: seq<State>, s: seq<State>, i: nat, j: int)
    requires Mirrored(before, s, i, j) && i >= j
    ensures Reversed(before, s)
  {
  }

  /** Inverts the order of the round keys. */
  method ReverseKeys(rk: array<bv32>, nr: nat)
    requires 4 * nr + 4 <= rk.Length
    modifies rk
    ensures Reversed(old(Keys(rk[..], nr + 1)), Keys(rk[..], nr + 1))
  {
    hide RoundKey, Keys, Mirrored, Reversed;
    ghost var ks := Keys(rk[..], nr + 1);
    var i, j := 0, nr;
    MirrorStart(ks);
    while i < j
      invariant 0 <= i <= j + 1 && i + j == nr
      invariant Mirrored(ks, Keys(rk[..], nr + 1), i, j)
    {
      MirrorStep(ks, Keys(rk[..], nr + 1), i, j);
      SwapKeys(rk, i, j, nr + 1);
      i, j := i + 1, j - 1;
    }
    MirrorEnd(ks, Keys(rk[..], nr + 1), i, j);
  }

  /** The expanded key: what KeySetupEnc leaves in the schedule. */
  ghost function Expanded(key: seq<bv8>, nk: nat, n: nat): (r: seq<bv32>)
    requires KeySize(nk) && |key| >= 4 * nk
    ensures |r| == n && forall i :: 0 <= i < n ==> r[i] == KeyWord(key, nk, i)
  {
    seq(n, i requires 0 <= i < n => KeyWord(key, nk, i))
  }

  function Block(p: seq<bv8>): State
    requires |p| == 16
  {
    State(Word(p[0], p[1], p[2], p[3]), Word(p[4], p[5], p[6], p[7]),
          Word(p[8], p[9], p[10], p[11]), Word(p[12], p[13], p[14], p[15]))
  }

  function WordOut(w: bv32): seq<bv8>
  {
    [B0(w), B1(w), B2(w), B3(w)]
  }

  function BlockOut(s: State): (r: seq<bv8>)
    ensures |r| == 16
  {
    WordOut(s.s0) + WordOut(s.s1) + WordOut(s.s2) + WordOut(s.s3)
  }

  lemma BlockIn(s: State)
    ensures Block(BlockOut(s)) == s
  {
    hide B0, B1, B2, B3, Word;
    BytesWord(s.s0);
    BytesWord(s.s1);
    BytesWord(s.s2);
    BytesWord(s.s3);
  }

  lemma BlockBack(p: seq<bv8>)
    requires |p| == 16
    ensures BlockOut(Block(p)) == p
  {
    hide B0, B1, B2, B3, Word;
    WordBytes(p[0], p[1], p[2], p[3]);
    WordBytes(p[4], p[5], p[6], p[7]);
    WordBytes(p[8], p[9], p[10], p[11]);
    WordBytes(p[12], p[13], p[14], p[15]);
  }

  lemma NoRounds(rk: seq<bv32>, start: State)
    requires 4 <= |rk|
    ensures Rounds(rk, 0, start) == start == EqRounds(rk, 0, start)
  {
  }

  lemma FirstKey(rk: seq<bv32>)
    requires 4 <= |rk|
    ensures RoundKey(rk, 0) == State(rk[0], rk[1], rk[2], rk[3])
  {
  }

  lemma OneRound(rk: seq<bv32>, r: nat, start: State)
    requires 4 * r + 8 <= |rk|
    ensures Rounds(rk, r + 1, start) == Round(Rounds(rk, r, start), RoundKey(rk, r + 1))
    ensures EqRounds(rk, r + 1, start) == EqRound(EqRounds(rk, r, start), RoundKey(rk, r + 1))
  {
  }

  method TableRound(rk: array<bv32>, p: nat, ghost n: nat, s0: bv32, s1: bv32, s2: bv32, s3: bv32)
    returns (t0: bv32, t1: bv32, t2: bv32, t3: bv32)
    requires p == 4 * n && p + 4 <= rk.Length
    ensures State(t0, t1, t2, t3) == Round(State(s0, s1, s2, s3), RoundKey(rk[..], n))
  {
    hide B0, B1, B2, B3, Te0, Te1, Te2, Te3, Xor5, Round;
    RoundByTable(State(s0, s1, s2, s3), RoundKey(rk[..], n));
    t0 := Xor5(Te0(B0(s0)), Te1(B1(s1)), Te2(B2(s2)), Te3(B3(s3)), rk[p]);
    t1 := Xor5(Te0(B0(s1)), Te1(B1(s2)), Te2(B2(s3)), Te3(B3(s0)), rk[p + 1]);
    t2 := Xor5(Te0(B0(s2)), Te1(B1(s3)), Te2(B2(s0)), Te3(B3(s1)), rk[p + 2]);
    t3 := Xor5(Te0(B0(s3)), Te1(B1(s0)), Te2(B2(s1)), Te3(B3(s2)), rk[p + 3]);
  }

  method InvTableRound(rk: array<bv32>, p: nat, ghost n: nat, s0: bv32, s1: bv32, s2: bv32, s3: bv32)
    returns (t0: bv32, t1: bv32, t2: bv32, t3: bv32)
    requires p == 4 * n && p + 4 <= rk.Length
    ensures State(t0, t1, t2, t3) == EqRound(State(s0, s1, s2, s3), RoundKey(rk[..], n))
  {
    hide B0, B1, B2, B3, Td0, Td1, Td2, Td3, Xor5, EqRound;
    EqRoundByTable(State(s0, s1, s2, s3), RoundKey(rk[..], n));
    t0 := Xor5(Td0(B0(s0)), Td1(B1(s3)), Td2(B2(s2)), Td3(B3(s1)), rk[p]);
    t1 := Xor5(Td0(B0(s1)), Td1(B1(s0)), Td2(B2(s3)), Td3(B3(s2)), rk[p + 1]);
    t2 := Xor5(Td0(B0(s2)), Td1(B1(s1)), Td2(B2(s0)), Td3(B3(s3)), rk[p + 2]);
    t3 := Xor5(Td0(B0(s3)), Td1(B1(s2)), Td2(B2(s1)), Td3(B3(s0)), rk[p + 3]);
  }

  method LastTableRound(rk: array<bv32>, p: nat, ghost n: nat, t0: bv32, t1: bv32, t2: bv32, t3: bv32)
    returns (s0: bv32, s1: bv32, s2: bv32, s3: bv32)
    requires p == 4 * n && p + 4 <= rk.Length
    ensures State(s0, s1, s2, s3)
         == AddRoundKey(ShiftRows(SubBytes(State(t0, t1, t2, t3))), RoundKey(rk[..], n))
  {
    hide B0, B1, B2, B3, Te4, Xor5, Byte0, Byte1, Byte2, Byte3, AddRoundKey, ShiftRows, SubBytes;
    LastByTable(State(t0, t1, t2, t3), RoundKey(rk[..], n));
    s0 := Xor5(Byte0(Te4(B0(t0))), Byte1(Te4(B1(t1))), Byte2(Te4(B2(t2))), Byte3(Te4(B3(t3))), rk[p]);
    s1 := Xor5(Byte0(Te4(B0(t1))), Byte1(Te4(B1(t2))), Byte2(Te4(B2(t3))), Byte3(Te4(B3(t0))), rk[p + 1]);
    s2 := Xor5(Byte0(Te4(B0(t2))), Byte1(Te4(B1(t3))), Byte2(Te4(B2(t0))), Byte3(Te4(B3(t1))), rk[p + 2]);
    s3 := Xor5(Byte0(Te4(B0(t3))), Byte1(Te4(B1(t0))), Byte2(Te4(B2(t1))), Byte3(Te4(B3(t2))), rk[p + 3]);
  }

  method InvLastTableRound(rk: array<bv32>, p: nat, ghost n: nat, t0: bv32, t1: bv32, t2: bv32, t3: bv32)
    returns (s0: bv32, s1: bv32, s2: bv32, s3: bv32)
    requires p == 4 * n && p + 4 <= rk.Length
    ensures State(s0, s1, s2, s3)
         == AddRoundKey(InvShiftRows(InvSubBytes(State(t0, t1, t2, t3))), RoundKey(rk[..], n))
  {
    hide B0, B1, B2, B3, Td4, Xor5, Byte0, Byte1, Byte2, Byte3, AddRoundKey, InvShiftRows, InvSubBytes;
    InvLastByTable(State(t0, t1, t2, t3), RoundKey(rk[..], n));
    s0 := Xor5(Byte0(Td4(B0(t0))), Byte1(Td4(B1(t3))), Byte2(Td4(B2(t2))), Byte3(Td4(B3(t1))), rk[p]);
    s1 := Xor5(Byte0(Td4(B0(t1))), Byte1(Td4(B1(t0))), Byte2(Td4(B2(t3))), Byte3(Td4(B3(t2))), rk[p + 1]);
    s2 := Xor5(Byte0(Td4(B0(t2))), Byte1(Td4(B1(t1))), Byte2(Td4(B2(t0))), Byte3(Td4(B3(t3))), rk[p + 2]);
    s3 := Xor5(Byte0(Td4(B0(t3))), Byte1(Td4(B1(t2))), Byte2(Td4(B2(t1))), Byte3(Td4(B3(t0))), rk[p + 3]);
  }

  // The steps of the cipher on the sixteen bytes of a block, column by column.

  /** One column times the polynomial 3 x^3 + x^2 + x + 2. */
  function MixedColumn(a: bv8, b: bv8, c: bv8, d: bv8): seq<bv8>
  {
    [Add4(Times(a, 2), Times(b, 3), c, d), Add4(a, Times(b, 2), Times(c, 3), d),
     Add4(a, b, Times(c, 2), Times(d, 3)), Add4(Times(a, 3), b, c, Times(d, 2))]
  }

  lemma SmallTimes(a: bv8)
    ensures Times(a, 2) == Double(a) && Times(a, 3) == X3(a)
  {
  }

  lemma MixedIs(w: bv32)
    ensures WordOut(MixWord(w)) == MixedColumn(B0(w), B1(w), B2(w), B3(w))
  {
    hide B0, B1, B2, B3, Word, Add4, Times, Double, X3;
    var a, b, c, d := B0(w), B1(w), B2(w), B3(w);
    WordBytes(Mix(a, b, c, d), Mix(b, c, d, a), Mix(c, d, a, b), Mix(d, a, b, c));
    SmallTimes(a);
    SmallTimes(b);
    SmallTimes(c);
    SmallTimes(d);
    Rotate(a, Double(b), X3(c), d);
    Rotate(a, b, Double(c), X3(d));
    Rotate(b, Double(c), X3(d), a);
    Rotate(X3(a), b, c, Double(d));
    Rotate(b, c, Double(d), X3(a));
    Rotate(c, Double(d), X3(a), b);
  }

  /** What the steps do to the bytes of a block (sections 5.1.1 to 5.1.4 of FIPS 197). */
  lemma StepsOnBytes(s: State, k: State)
    ensures var p := BlockOut(s);
      BlockOut(SubBytes(s)) ==
         [S(p[0]), S(p[1]), S(p[2]), S(p[3]), S(p[4]), S(p[5]), S(p[6]), S(p[7]),
          S(p[8]), S(p[9]), S(p[10]), S(p[11]), S(p[12]), S(p[13]), S(p[14]), S(p[15])]
    ensures var p := BlockOut(s);
      && BlockOut(ShiftRows(s)) ==
         [p[0], p[5], p[10], p[15], p[4], p[9], p[14], p[3], p[8], p[13], p[2], p[7], p[12], p[1], p[6], p[11]]
      && BlockOut(MixColumns(s)) ==
         MixedColumn(p[0], p[1], p[2], p[3]) + MixedColumn(p[4], p[5], p[6], p[7])
         + MixedColumn(p[8], p[9], p[10], p[11]) + MixedColumn(p[12], p[13], p[14], p[15])
    ensures var p, q := BlockOut(s), BlockOut(k);
      BlockOut(AddRoundKey(s, k)) ==
         [Add(p[0], q[0]), Add(p[1], q[1]), Add(p[2], q[2]), Add(p[3], q[3]), Add(p[4], q[4]), Add(p[5], q[5]),
          Add(p[6], q[6]), Add(p[7], q[7]), Add(p[8], q[8]), Add(p[9], q[9]), Add(p[10], q[10]), Add(p[11], q[11]),
          Add(p[12], q[12]), Add(p[13], q[13]), Add(p[14], q[14]), Add(p[15], q[15])]
  {
    hide *;
    SubOnBytes(s);
    ShiftOnBytes(s);
    MixOnBytes(s);
    AddOnBytes(s, k);
  }

  lemma SubOnBytes(s: State)
    ensures var p := BlockOut(s);
      BlockOut(SubBytes(s)) ==
         [S(p[0]), S(p[1]), S(p[2]), S(p[3]), S(p[4]), S(p[5]), S(p[6]), S(p[7]),
          S(p[8]), S(p[9]), S(p[10]), S(p[11]), S(p[12]), S(p[13]), S(p[14]), S(p[15])]
  {
    hide B0, B1, B2, B3, S, SubWord, BlockOut;
    SubBytesOf(s.s0);
    SubBytesOf(s.s1);
    SubBytesOf(s.s2);
    SubBytesOf(s.s3);
    ColumnBytes(s);
    ColumnBytes(SubBytes(s));
  }

  lemma ShiftOnBytes(s: State)
    ensures var p := BlockOut(s);
      BlockOut(ShiftRows(s)) ==
      [p[0], p[5], p[10], p[15], p[4], p[9], p[14], p[3], p[8], p[13], p[2], p[7], p[12], p[1], p[6], p[11]]
  {
    hide B0, B1, B2, B3, Word, BlockOut;
    WordBytes(B0(s.s0), B1(s.s1), B2(s.s2), B3(s.s3));
    WordBytes(B0(s.s1), B1(s.s2), B2(s.s3), B3(s.s0));
    WordBytes(B0(s.s2), B1(s.s3), B2(s.s0), B3(s.s1));
    WordBytes(B0(s.s3), B1(s.s0), B2(s.s1), B3(s.s2));
    ColumnBytes(s);
    ColumnBytes(ShiftRows(s));
  }

  lemma MixOnBytes(s: State)
    ensures var p := BlockOut(s);
      BlockOut(MixColumns(s)) ==
      MixedColumn(p[0], p[1], p[2], p[3]) + MixedColumn(p[4], p[5], p[6], p[7])
      + MixedColumn(p[8], p[9], p[10], p[11]) + MixedColumn(p[12], p[13], p[14], p[15])
  {
    hide B0, B1, B2, B3, MixedColumn, MixWord, WordOut;
    MixedIs(s.s0);
    MixedIs(s.s1);
    MixedIs(s.s2);
    MixedIs(s.s3);
    ColumnBytes(s);
  }

  lemma AddOnBytes(s: State, k: State)
    ensures var p, q := BlockOut(s), BlockOut(k);
      BlockOut(AddRoundKey(s, k)) ==
         [Add(p[0], q[0]), Add(p[1], q[1]), Add(p[2], q[2]), Add(p[3], q[3]), Add(p[4], q[4]), Add(p[5], q[5]),
          Add(p[6], q[6]), Add(p[7], q[7]), Add(p[8], q[8]), Add(p[9], q[9]), Add(p[10], q[10]), Add(p[11], q[11]),
          Add(p[12], q[12]), Add(p[13], q[13]), Add(p[14], q[14]), Add(p[15], q[15])]
  {
    hide B0, B1, B2, B3, Sum, Add, BlockOut;
    SumBytes(s.s0, k.s0);
    SumBytes(s.s1, k.s1);
    SumBytes(s.s2, k.s2);
    SumBytes(s.s3, k.s3);
    ColumnBytes(s);
    ColumnBytes(k);
    ColumnBytes(AddRoundKey(s, k));
  }

  /**
   The states of an encryption with nr rounds: the block with the first four schedule words added,
   then after each of the rounds 1 to nr - 1; the last round leaves out the mixing.
   */
  ghost predicate CipherSteps(rk: seq<bv32>, nr: nat, pt: seq<bv8>, st: seq<State>, ct: seq<bv8>)
    requires 0 < nr && 4 * nr + 4 <= |rk| && |pt| == 16
  {
    && |st| == nr && st[0] == AddRoundKey(Block(pt), State(rk[0], rk[1], rk[2], rk[3]))
    && (forall r {:trigger st[r]} :: 1 <= r < nr ==>
          st[r] == AddRoundKey(MixColumns(ShiftRows(SubBytes(st[r - 1]))),
                               State(rk[4 * r], rk[4 * r + 1], rk[4 * r + 2], rk[4 * r + 3])))
    && ct == BlockOut(AddRoundKey(ShiftRows(SubBytes(st[nr - 1])),
                                  State(rk[4 * nr], rk[4 * nr + 1], rk[4 * nr + 2], rk[4 * nr + 3])))
  }

  lemma CipherRuns(rk: seq<bv32>, nr: nat, pt: seq<bv8>)
    requires 0 < nr && 4 * nr + 4 <= |rk| && |pt| == 16
    ensures exists st: seq<State> :: CipherSteps(rk, nr, pt, st, BlockOut(Cipher(rk, nr, Block(pt))))
  {
    hide SubBytes, ShiftRows, MixColumns, AddRoundKey, BlockOut, Block;
    var start := AddRoundKey(Block(pt), RoundKey(rk, 0));
    var st := seq(nr, r requires 0 <= r < nr => Rounds(rk, r, start));
    forall r | 1 <= r < nr
      ensures st[r] == Round(st[r - 1], RoundKey(rk, r))
    {
      OneRound(rk, r - 1, start);
    }
    assert CipherSteps(rk, nr, pt, st, BlockOut(Cipher(rk, nr, Block(pt))));
  }

  method Encrypt(rk: array<bv32>, nr: nat, pt: seq<bv8>) returns (ct: seq<bv8>)
    requires nr >= 2 && nr % 2 == 0 && 4 * nr + 4 <= rk.Length && |pt| == 16
    ensures ct == BlockOut(Cipher(rk[..], nr, Block(pt)))
    ensures exists st: seq<State> :: CipherSteps(rk[..], nr, pt, st, ct)
  {
    hide RoundKey, CipherSteps, Word, Sum, Round, Rounds, EqRounds, SubBytes, ShiftRows, BlockOut;
    var s0 := Sum(Word(pt[0], pt[1], pt[2], pt[3]), rk[0]);
    var s1 := Sum(Word(pt[4], pt[5], pt[6], pt[7]), rk[1]);
    var s2 := Sum(Word(pt[8], pt[9], pt[10], pt[11]), rk[2]);
    var s3 := Sum(Word(pt[12], pt[13], pt[14], pt[15]), rk[3]);
    ghost var start := State(s0, s1, s2, s3);
    FirstKey(rk[..]);
    var t0, t1, t2, t3;
    var r, p := nr / 2, 0;
    ghost var n := 0;
    NoRounds(rk[..], start);
    while true
      invariant 0 < r && n + 2 * r == nr && p == 4 * n && State(s0, s1, s2, s3) == Rounds(rk[..], n, start)
      decreases r
    {
      OneRound(rk[..], n, start);
      t0, t1, t2, t3 := TableRound(rk, p + 4, n + 1, s0, s1, s2, s3);
      p := p + 8;
      r := r - 1;
      if r == 0 {
        break;
      }
      OneRound(rk[..], n + 1, start);
      s0, s1, s2, s3 := TableRound(rk, p, n + 2, t0, t1, t2, t3);
      n := n + 2;
    }
    s0, s1, s2, s3 := LastTableRound(rk, p, nr, t0, t1, t2, t3);
    ct := BlockOut(State(s0, s1, s2, s3));
    CipherRuns(rk[..], nr, pt);
  }

  method Decrypt(rk: array<bv32>, nr: nat, ct: seq<bv8>) returns (pt: seq<bv8>)
    requires nr >= 2 && nr % 2 == 0 && 4 * nr + 4 <= rk.Length && |ct| == 16
    ensures pt == BlockOut(EqInvCipher(rk[..], nr, Block(ct)))
  {
    hide RoundKey, Word, Sum, EqRound, EqRounds, Rounds, InvSubBytes, InvShiftRows, BlockOut;
    var s0 := Sum(Word(ct[0], ct[1], ct[2], ct[3]), rk[0]);
    var s1 := Sum(Word(ct[4], ct[5], ct[6], ct[7]), rk[1]);
    var s2 := Sum(Word(ct[8], ct[9], ct[10], ct[11]), rk[2]);
    var s3 := Sum(Word(ct[12], ct[13], ct[14], ct[15]), rk[3]);
    ghost var start := State(s0, s1, s2, s3);
    FirstKey(rk[..]);
    var t0, t1, t2, t3;
    var r, p := nr / 2, 0;
    ghost var n := 0;
    NoRounds(rk[..], start);
    while true
      invariant 0 < r && n + 2 * r == nr && p == 4 * n && State(s0, s1, s2, s3) == EqRounds(rk[..], n, start)
      decreases r
    {
      OneRound(rk[..], n, start);
      t0, t1, t2, t3 := InvTableRound(rk, p + 4, n + 1, s0, s1, s2, s3);
      p := p + 8;
      r := r - 1;
      if r == 0 {
        break;
      }
      OneRound(rk[..], n + 1, start);
      s0, s1, s2, s3 := InvTableRound(rk, p, n + 2, t0, t1, t2, t3);
      n := n + 2;
    }
    s0, s1, s2, s3 := InvLastTableRound(rk, p, nr, t0, t1, t2, t3);
    pt := BlockOut(State(s0, s1, s2, s3));
  }

  /** A key context: both schedules of one key. */
  class Context {
    const ek: array<bv32>
    const dk: array<bv32>
    var nr: nat

    constructor ()
      ensures fresh(ek) && fresh(dk) && ek != dk && ek.Length == 60 && dk.Length == 60 && nr == 0
    {
      ek, dk, nr := new bv32[60], new bv32[60], 0;
    }

    ghost predicate Valid()
      reads this, ek, dk
    {
      && ek != dk && ek.Length == 60 && dk.Length == 60
      && (nr == 10 || nr == 12 || nr == 14)
      && DecryptKeys(ek[..], dk[..], nr)
    }

    /** Sets up both schedules; fails for a key size the cipher does not have. */
    method SetKey(key: seq<bv8>, bits: int) returns (ok: bool)
      requires ek != dk && ek.Length == 60 && dk.Length == 60
      requires |key| >= 16 && (bits != 128 ==> |key| >= 24) && (bits != 128 && bits != 192 ==> |key| >= 32)
      modifies this, ek, dk
      ensures ok <==> bits == 128 || bits == 192 || bits == 256
      ensures ok ==> Valid() && nr == RoundsFor(bits) && Filled(ek[..], key, KeyWords(bits), 4 * nr + 4)
    {
      hide Filled, DecryptKeys, Expanded;
      var rounds := KeySetupEnc(ek, key, bits);
      if rounds == 0 {
        return false;
      }
      var again := KeySetupDec(dk, key, bits);
      if again != rounds {
        return false;
      }
      nr := rounds;
      ExpandedFilled(key, KeyWords(bits), 4 * nr + 4);
      SameSchedule(ek[..], Expanded(key, KeyWords(bits), 4 * nr + 4), dk[..], key, KeyWords(bits), nr);
      return true;
    }

    method EncryptBlock(src: seq<bv8>) returns (dst: seq<bv8>)
      requires Valid() && |src| == 16
      ensures dst == BlockOut(Cipher(ek[..], nr, Block(src)))
    {
      dst := Encrypt(ek, nr, src);
    }

    /** Decryption yields the one block that encrypts to its input. */
    method DecryptBlock(src: seq<bv8>) returns (dst: seq<bv8>)
      requires Valid() && |src| == 16
      ensures dst == BlockOut(InvCipher(ek[..], nr, Block(src)))
      ensures BlockOut(Cipher(ek[..], nr, Block(dst))) == src
      ensures forall p: seq<bv8> :: |p| == 16 && BlockOut(Cipher(ek[..], nr, Block(p))) == src ==> dst == p
    {
      hide Cipher, InvCipher, EqInvCipher, Block, BlockOut, DecryptKeys;
      dst := Decrypt(dk, nr, src);
      EquivalentInverse(ek[..], dk[..], nr, Block(src));
      OnlyPreimage(ek[..], nr, src);
    }
  }

  lemma SameSchedule(a: seq<bv32>, b: seq<bv32>, dk: seq<bv32>, key: seq<bv8>, nk: nat, nr: nat)
    requires KeySize(nk) && |key| >= 4 * nk && 0 < nr && 4 * nr + 4 <= |dk|
    requires Filled(a, key, nk, 4 * nr + 4) && Filled(b, key, nk, 4 * nr + 4)
    requires DecryptKeys(b, dk, nr)
    ensures DecryptKeys(a, dk, nr)
  {
    hide KeyWord, InvMixColumns;
    assert forall r: nat :: r <= nr ==> RoundKey(a, r) == RoundKey(b, r);
  }

  lemma ExpandedFilled(key: seq<bv8>, nk: nat, n: nat)
    requires KeySize(nk) && |key| >= 4 * nk
    ensures Filled(Expanded(key, nk, n), key, nk, n)
  {
    hide KeyWord;
  }

  /** Decryption undoes encryption: for every schedule and number of rounds, a block has exactly one preimage. */
  lemma OnlyPreimage(ek: seq<bv32>, nr: nat, src: seq<bv8>)
    requires 0 < nr && 4 * nr + 4 <= |ek| && |src| == 16
    ensures var dst := BlockOut(InvCipher(ek, nr, Block(src)));
      BlockOut(Cipher(ek, nr, Block(dst))) == src
    ensures forall p: seq<bv8> :: |p| == 16 && BlockOut(Cipher(ek, nr, Block(p))) == src ==>
      BlockOut(InvCipher(ek, nr, Block(src))) == p
  {
    hide Cipher, InvCipher, Block, BlockOut;
    CipherUndone(ek, nr, Block(src));
    BlockIn(InvCipher(ek, nr, Block(src)));
    BlockBack(src);
    forall p: seq<bv8> | |p| == 16 && BlockOut(Cipher(ek, nr, Block(p))) == src
      ensures BlockOut(InvCipher(ek, nr, Block(src))) == p
    {
      BlockIn(Cipher(ek, nr, Block(p)));
      CipherUndone(ek, nr, Block(p));
      BlockBack(p);
    }
  }
}
