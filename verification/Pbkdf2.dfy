/**
 HMAC-SHA-1 and PBKDF2 (RFC 2104; section 5.2 of RFC 2898): the C function fills a buffer with a
 prefix of the stream that the Python object hands out in pieces.
 */
module Pbkdf2 {
  import opened Arithmetic
  import opened Bytes
  import opened Options
  import opened Sha1

  // HMAC.

  /** The key in one block: hashed when too long, zeros behind. */
  function KeyBlock(t: Transform, key: seq<bv8>): (r: seq<bv8>)
    ensures |r| == 64
  {
    var k := if |key| > 64 then Sha(t, key) else key;
    k + Zeros(64 - |k|)
  }

  function Repeat(b: bv8): (r: seq<bv8>)
    ensures |r| == 64 && forall i :: 0 <= i < 64 ==> r[i] == b
  {
    seq(64, _ => b)
  }

  function Hmac(t: Transform, key: seq<bv8>, text: seq<bv8>): (r: seq<bv8>)
    ensures |r| == 20
  {
    var k := KeyBlock(t, key);
    Sha(t, Xor(k, Repeat(0x5c)) + Sha(t, Xor(k, Repeat(0x36)) + text))
  }

  /** A key as one block of 64 bytes, masked with the pad byte. */
  ghost predicate KeyPad(key: seq<bv8>, mask: bv8, pad: seq<bv8>)
    requires |key| <= 64
  {
    |pad| == 64 && forall i :: 0 <= i < 64 ==> pad[i] == if i < |key| then key[i] ^ mask else mask
  }

  /**
   HMAC (RFC 2104): with k the key, or its hash when it is longer than a block, the hash of the outer
   pad and the hash of the inner pad and the text.
   */
  ghost predicate HmacOf(t: Transform, key: seq<bv8>, text: seq<bv8>, k: seq<bv8>, inner: seq<bv8>, outer: seq<bv8>,
                         digest: seq<bv8>)
  {
    && k == (if |key| > 64 then Sha(t, key) else key) && |k| <= 64
    && KeyPad(k, 0x36, inner) && KeyPad(k, 0x5c, outer) && digest == Sha(t, outer + Sha(t, inner + text))
  }

  lemma HmacMeans(t: Transform, key: seq<bv8>, text: seq<bv8>)
    ensures exists k: seq<bv8>, inner: seq<bv8>, outer: seq<bv8> ::
      HmacOf(t, key, text, k, inner, outer, Hmac(t, key, text))
  {
    hide Sha;
    ShaLength(t, key);
    var k := if |key| > 64 then Sha(t, key) else key;
    var b := KeyBlock(t, key);
    PadMeans(k, 0x36);
    PadMeans(k, 0x5c);
    assert HmacOf(t, key, text, k, Xor(b, Repeat(0x36)), Xor(b, Repeat(0x5c)), Hmac(t, key, text));
  }

  lemma PadMeans(k: seq<bv8>, mask: bv8)
    requires |k| <= 64
    ensures KeyPad(k, mask, Xor(k + Zeros(64 - |k|), Repeat(mask)))
  {
    ZeroMask(mask);
  }

  lemma ZeroMask(b: bv8)
    ensures 0 ^ b == b
  {
  }

  /** One block of the key masked with the pad byte. */
  method PadKey(key: seq<bv8>, mask: bv8) returns (kPad: array<bv8>)
    requires |key| <= 64
    ensures fresh(kPad) && kPad[..] == Xor(key + Zeros(64 - |key|), Repeat(mask))
  {
    kPad := new bv8[64](i requires 0 <= i < 64 => if i < |key| then key[i] else 0);
    ghost var k := key + Zeros(64 - |key|);
    var i := 0;
    while i < 64
      invariant 0 <= i <= 64
      invariant forall m :: 0 <= m < 64 ==> kPad[m] == if m < i then k[m] ^ mask else k[m]
    {
      kPad[i] := kPad[i] ^ mask;
      i := i + 1;
    }
  }

  /** The digest of two strings hashed one after the other. */
  method HashTwo(t: Transform, a: seq<bv8>, b: seq<bv8>) returns (digest: seq<bv8>)
    requires |a| < 0x2000_0000 && |b| < 0x2000_0000
    ensures digest == Sha(t, a + b)
  {
    TwoParts(a, b);
    digest := HashParts(t, [a, b]);
  }

  lemma TwoParts(a: seq<bv8>, b: seq<bv8>)
    ensures Concat([a, b]) == a + b && Concat([a]) == a
  {
    assert [a, b][..1] == [a] && [a][..0] == [];
    assert Concat([a]) == [] + a;
  }

  method HmacSha1(t: Transform, text: seq<bv8>, key: seq<bv8>) returns (digest: seq<bv8>)
    requires |text| < 0x2000_0000 && |key| < 0x2000_0000
    ensures digest == Hmac(t, key, text)
    ensures exists k: seq<bv8>, inner: seq<bv8>, outer: seq<bv8> :: HmacOf(t, key, text, k, inner, outer, digest)
  {
    hide Sha, Xor, Repeat, Zeros, HmacOf;
    HmacMeans(t, key, text);
    var k := key;
    if |k| > 64 {
      TwoParts(k, []);
      k := HashParts(t, [k]);
      ShaLength(t, key);
    }
    var kPad := PadKey(k, 0x36);
    digest := HashTwo(t, kPad[..], text);
    ShaLength(t, kPad[..] + text);
    kPad := PadKey(k, 0x5c);
    digest := HashTwo(t, kPad[..], digest);
  }

  lemma ShaLength(t: Transform, s: seq<bv8>)
    ensures |Sha(t, s)| == 20
  {
  }

  // The key stream.

  type Prf = (seq<bv8>, seq<bv8>) -> seq<bv8>

  ghost predicate Twenty(prf: Prf)
  {
    forall k: seq<bv8>, m: seq<bv8> :: |prf(k, m)| == 20
  }

  /** U_j of block i. */
  function U(prf: Prf, pass: seq<bv8>, salt: seq<bv8>, i: nat, j: nat): seq<bv8>
    requires j > 0
  {
    if j == 1 then prf(pass, salt + BigEndian(i, 4)) else prf(pass, U(prf, pass, salt, i, j - 1))
  }

  /** U_1 xor ... xor U_j. */
  function Folded(prf: Prf, pass: seq<bv8>, salt: seq<bv8>, i: nat, j: nat): (r: seq<bv8>)
    requires Twenty(prf) && j > 0
    ensures |r| == 20
  {
    if j == 1 then U(prf, pass, salt, i, 1) else Xor(Folded(prf, pass, salt, i, j - 1), U(prf, pass, salt, i, j))
  }

  /** Blocks 1 to n. */
  function Stream(prf: Prf, pass: seq<bv8>, salt: seq<bv8>, rounds: nat, n: nat): (r: seq<bv8>)
    requires Twenty(prf) && rounds > 0
    ensures |r| == 20 * n
  {
    if n == 0 then [] else Stream(prf, pass, salt, rounds, n - 1) + Folded(prf, pass, salt, n, rounds)
  }

  /**
   The iterations of block i: us are U_1, U_2, ... and ts the running exclusive ors of them; the first
   iteration takes the salt with the block number in four bytes, most significant first.
   */
  ghost predicate Iterations(prf: Prf, pass: seq<bv8>, salt: seq<bv8>, i: nat, us: seq<seq<bv8>>, ts: seq<seq<bv8>>)
  {
    && |us| == |ts| > 0
    && (exists x: seq<bv8> :: |x| == 4 && Value(x) == i % 0x1_0000_0000 && us[0] == prf(pass, salt + x))
    && ts[0] == us[0]
    && forall j {:trigger us[j]} :: 1 <= j < |us| ==> NextIteration(prf, pass, us[j - 1], ts[j - 1], us[j], ts[j])
  }

  ghost predicate NextIteration(prf: Prf, pass: seq<bv8>, u: seq<bv8>, t: seq<bv8>, u1: seq<bv8>, t1: seq<bv8>)
  {
    && u1 == prf(pass, u) && |t| == |t1| == |u1| == 20
    && forall k :: 0 <= k < 20 ==> t1[k] == t[k] ^ u1[k]
  }

  lemma UNext(prf: Prf, pass: seq<bv8>, salt: seq<bv8>, i: nat, j: nat)
    requires Twenty(prf) && j > 0
    ensures NextIteration(prf, pass, U(prf, pass, salt, i, j), Folded(prf, pass, salt, i, j),
                          U(prf, pass, salt, i, j + 1), Folded(prf, pass, salt, i, j + 1))
  {
  }

  lemma FirstIteration(prf: Prf, pass: seq<bv8>, salt: seq<bv8>, i: nat)
    requires Twenty(prf)
    ensures Folded(prf, pass, salt, i, 1) == U(prf, pass, salt, i, 1)
    ensures exists x: seq<bv8> ::
      |x| == 4 && Value(x) == i % 0x1_0000_0000 && U(prf, pass, salt, i, 1) == prf(pass, salt + x)
  {
    hide Value, BigEndian;
    Powers();
    ValueModulo(i, 4);
    var x := BigEndian(i, 4);
    assert |x| == 4 && Value(x) == i % 0x1_0000_0000 && U(prf, pass, salt, i, 1) == prf(pass, salt + x);
  }

  /** A block of the stream is the exclusive or of its iterations. */
  lemma FoldedMeans(prf: Prf, pass: seq<bv8>, salt: seq<bv8>, i: nat, rounds: nat)
    requires Twenty(prf) && rounds > 0
    ensures exists us: seq<seq<bv8>>, ts: seq<seq<bv8>> ::
      Iterations(prf, pass, salt, i, us, ts) && |us| == rounds && Folded(prf, pass, salt, i, rounds) == ts[rounds - 1]
  {
    hide Folded, U, Value, NextIteration;
    var us := seq(rounds, j requires 0 <= j < rounds => U(prf, pass, salt, i, j + 1));
    var ts := seq(rounds, j requires 0 <= j < rounds => Folded(prf, pass, salt, i, j + 1));
    FirstIteration(prf, pass, salt, i);
    forall j {:trigger us[j]} | 1 <= j < rounds
      ensures NextIteration(prf, pass, us[j - 1], ts[j - 1], us[j], ts[j])
    {
      UNext(prf, pass, salt, i, j);
    }
    assert Iterations(prf, pass, salt, i, us, ts);
  }

  /** Block b of the stream, counted from 1, is at 20 * (b - 1). */
  lemma {:induction false} StreamBlock(prf: Prf, pass: seq<bv8>, salt: seq<bv8>, rounds: nat, n: nat, b: nat)
    requires Twenty(prf) && rounds > 0 && 1 <= b <= n
    ensures exists us: seq<seq<bv8>>, ts: seq<seq<bv8>> ::
      && Iterations(prf, pass, salt, b, us, ts) && |us| == rounds
      && Stream(prf, pass, salt, rounds, n)[20 * (b - 1)..20 * b] == ts[rounds - 1]
  {
    hide Iterations, Folded;
    FoldedMeans(prf, pass, salt, b, rounds);
    StreamGrows(prf, pass, salt, rounds, b, n);
    var s := Stream(prf, pass, salt, rounds, n);
    assert s[20 * (b - 1)..20 * b] == s[..20 * b][20 * (b - 1)..];
    assert Stream(prf, pass, salt, rounds, b)[20 * (b - 1)..] == Folded(prf, pass, salt, b, rounds);
  }

  lemma {:induction false} StreamGrows(prf: Prf, pass: seq<bv8>, salt: seq<bv8>, rounds: nat, m: nat, n: nat)
    requires Twenty(prf) && rounds > 0 && m <= n
    ensures Stream(prf, pass, salt, rounds, n)[..20 * m] == Stream(prf, pass, salt, rounds, m)
    decreases n
  {
    if m < n {
      StreamGrows(prf, pass, salt, rounds, m, n - 1);
    }
  }

  lemma StreamNext(prf: Prf, pass: seq<bv8>, salt: seq<bv8>, rounds: nat, n: nat, from: nat)
    requires Twenty(prf) && rounds > 0 && n > 0 && from <= 20 * (n - 1)
    ensures Stream(prf, pass, salt, rounds, n)[from..]
         == Stream(prf, pass, salt, rounds, n - 1)[from..] + Folded(prf, pass, salt, n, rounds)
  {
    hide Folded;
  }

  lemma StreamCut(prf: Prf, pass: seq<bv8>, salt: seq<bv8>, rounds: nat, n: nat, from: nat, len: nat)
    requires Twenty(prf) && rounds > 0 && from + len <= 20 * n
    ensures var s := Stream(prf, pass, salt, rounds, n);
      s[from..][..len] == s[from..from + len] && s[from..][len..] == s[from + len..]
  {
    hide Stream;
  }

  const LAST: nat := 0xffff_ffff     // block numbers are 32 bits wide

  datatype Read = Got(bytes: seq<bv8>) | Closed | TooLong

  /** The file-like object: bytes computed but not handed out yet, and the last block computed. */
  class KeyStream {
    const prf: Prf
    const pass: seq<bv8>
    const salt: seq<bv8>
    const iterations: nat
    var buf: seq<bv8>
    var blockNum: nat
    var closed: bool
    ghost var position: nat

    ghost predicate Valid()
      reads this
    {
      && Twenty(prf) && iterations > 0 && blockNum <= LAST
      && position + |buf| == 20 * blockNum
      && buf == Stream(prf, pass, salt, iterations, blockNum)[position..]
    }

    constructor (prf: Prf, pass: seq<bv8>, salt: seq<bv8>, iterations: nat)
      requires Twenty(prf) && iterations >= 1
      ensures Valid() && position == 0 && !closed && blockNum == 0
      ensures this.prf == prf && this.pass == pass && this.salt == salt && this.iterations == iterations
    {
      this.prf, this.pass, this.salt, this.iterations := prf, pass, salt, iterations;
      buf, blockNum, closed, position := [], 0, false, 0;
    }

    method F(i: nat) returns (result: seq<bv8>)
      requires Valid() && 1 <= i <= LAST
      ensures result == Folded(prf, pass, salt, i, iterations)
      ensures exists us: seq<seq<bv8>>, ts: seq<seq<bv8>> ::
        Iterations(prf, pass, salt, i, us, ts) && |us| == iterations && result == ts[iterations - 1]
    {
      hide Iterations;
      FoldedMeans(prf, pass, salt, i, iterations);
      var u := prf(pass, salt + BigEndian(i, 4));
      result := u;
      var j := 2;
      while j < 1 + iterations
        invariant 2 <= j <= 1 + iterations
        invariant u == U(prf, pass, salt, i, j - 1) && result == Folded(prf, pass, salt, i, j - 1)
      {
        u := prf(pass, u);
        result := Xor(result, u);
        j := j + 1;
      }
    }

    /** The next n bytes of the stream. */
    method ReadBytes(n: nat) returns (r: Read)
      requires Valid()
      modifies this`buf, this`blockNum, this`position
      ensures Valid()
      ensures r == Closed <==> closed
      ensures r == TooLong <==> !closed && old(position) + n > 20 * LAST
      ensures r.Got? ==> position == old(position) + n <= 20 * blockNum
      ensures r.Got? ==> r.bytes == Stream(prf, pass, salt, iterations, blockNum)[old(position)..position]
      ensures blockNum >= old(blockNum)
      ensures !r.Got? ==> unchanged(this)
    {
      hide Folded, Stream;
      if closed {
        return Closed;
      }
      var blocks := buf;
      var i := blockNum;
      while |blocks| < n
        invariant blockNum <= i <= LAST && position + |blocks| == 20 * i
        invariant blocks == Stream(prf, pass, salt, iterations, i)[position..]
        modifies {}
      {
        i := i + 1;
        if i > LAST {
          return TooLong;
        }
        var block := F(i);
        StreamNext(prf, pass, salt, iterations, i, position);
        blocks := blocks + block;
      }
      StreamCut(prf, pass, salt, iterations, i, position, n);
      var retval := blocks[..n];
      buf := blocks[n..];
      blockNum := i;
      position := position + n;
      return Got(retval);
    }

    method Close()
      modifies this`closed
      ensures closed
    {
      closed := true;
    }
  }

  /** Reading in pieces gives the pieces of one long read. */
  method ReadPieces(stream: KeyStream, sizes: seq<nat>) returns (r: Option<seq<bv8>>)
    requires stream.Valid() && !stream.closed
    modifies stream`buf, stream`blockNum, stream`position
    ensures stream.Valid()
    ensures r.Some? <==> old(stream.position) + Total(sizes) <= 20 * LAST
    ensures r.Some? ==> stream.position == old(stream.position) + Total(sizes) <= 20 * stream.blockNum
    ensures r.Some? ==>
      r.value == Stream(stream.prf, stream.pass, stream.salt, stream.iterations,
                        stream.blockNum)[old(stream.position)..stream.position]
  {
    hide Folded, Stream;
    var got := [];
    var i := 0;
    ghost var from := stream.position;
    assert sizes[..0] == [];
    while i < |sizes|
      invariant 0 <= i <= |sizes| && stream.Valid() && !stream.closed
      invariant stream.position == from + Total(sizes[..i]) && (i > 0 ==> stream.position <= 20 * stream.blockNum)
        && stream.position <= 20 * LAST
      invariant |got| == Total(sizes[..i])
      invariant got == Stream(stream.prf, stream.pass, stream.salt, stream.iterations,
                              stream.blockNum)[from..stream.position]
    {
      TotalNext(sizes, i);
      ghost var n := stream.blockNum;
      var piece := stream.ReadBytes(sizes[i]);
      if !piece.Got? {
        return None;
      }
      StreamGrows(stream.prf, stream.pass, stream.salt, stream.iterations, n, stream.blockNum);
      got := got + piece.bytes;
      i := i + 1;
    }
    assert sizes[..i] == sizes;
    return Some(got);
  }

  function Total(sizes: seq<nat>): nat
  {
    if sizes == [] then 0 else sizes[0] + Total(sizes[1..])
  }

  lemma {:induction false} TotalCat(a: seq<nat>, b: seq<nat>)
    ensures Total(a + b) == Total(a) + Total(b)
  {
    if a == [] {
      assert a + b == b;
    } else {
      assert (a + b)[1..] == a[1..] + b;
      TotalCat(a[1..], b);
    }
  }

  lemma TotalNext(sizes: seq<nat>, i: nat)
    requires i < |sizes|
    ensures Total(sizes[..i + 1]) == Total(sizes[..i]) + sizes[i] <= Total(sizes)
  {
    assert sizes[..i + 1] == sizes[..i] + [sizes[i]];
    assert sizes == sizes[..i + 1] + sizes[i + 1..];
    TotalCat(sizes[..i], [sizes[i]]);
    TotalCat(sizes[..i + 1], sizes[i + 1..]);
  }

  // The C function.

  const COUNTS: nat := 0x1_0000_0000

  lemma CountBytes(n: nat)
    ensures BigEndian(n % COUNTS, 4) == BigEndian(n, 4)
  {
    Powers();
    LowBytes(n, 4);
  }

  /** HMAC-SHA-1 as the pseudorandom function. */
  function HmacPrf(t: Transform): Prf
  {
    (k, m) => Hmac(t, k, m)
  }

  lemma HmacTwenty(t: Transform)
    ensures Twenty(HmacPrf(t))
  {
  }

  /** T_n: the xor of `rounds` iterated HMACs of the salt with the block number. */
  method Block(t: Transform, pass: seq<bv8>, salt: seq<bv8>, count: nat, rounds: nat, ghost n: nat)
    returns (obuf: seq<bv8>)
    requires |pass| < 0x2000_0000 && |salt| + 4 < 0x2000_0000 && rounds >= 1 && count == n % COUNTS
    requires Twenty(HmacPrf(t))
    ensures obuf == Folded(HmacPrf(t), pass, salt, n, rounds)
  {
    hide Hmac, HmacOf;
    CountBytes(n);
    var asalt := salt + BigEndian(count, 4);
    var d1 := HmacSha1(t, asalt, pass);
    obuf := d1;
    var i := 1;
    while i < rounds
      invariant 1 <= i <= rounds
      invariant d1 == U(HmacPrf(t), pass, salt, n, i) && obuf == Folded(HmacPrf(t), pass, salt, n, i)
    {
      d1 := HmacSha1(t, d1, pass);
      obuf := Xor(obuf, d1);
      i := i + 1;
    }
  }

  /** Fills the first keyLen bytes of key; fails without touching it for no rounds, no key or no salt. */
  method Pkcs5Pbkdf2(t: Transform, pass: seq<bv8>, salt: seq<bv8>, key: array<bv8>, keyLen: nat, rounds: nat)
    returns (ok: bool)
    requires |pass| < 0x2000_0000 && |salt| + 4 < 0x2000_0000 && keyLen <= key.Length
    modifies key
    ensures ok <==> rounds >= 1 && keyLen > 0 && salt != []
    ensures !ok ==> unchanged(key)
    ensures ok ==> Twenty(HmacPrf(t)) && key[..keyLen] == Stream(HmacPrf(t), pass, salt, rounds, keyLen)[..keyLen]
    ensures key[keyLen..] == old(key[keyLen..])
  {
    hide Folded, Stream, HmacPrf, Twenty;
    if rounds < 1 || keyLen == 0 {
      return false;
    }
    if salt == [] {
      return false;
    }
    HmacTwenty(t);
    var prf := HmacPrf(t);
    var left, at := keyLen, 0;
    var count, n := 1, 1;
    while left > 0
      invariant 0 <= left && at + left == keyLen && n >= 1 && count == n % COUNTS
      invariant at <= 20 * (n - 1) && (left > 0 ==> at == 20 * (n - 1))
      invariant key[..at] == Stream(prf, pass, salt, rounds, n - 1)[..at]
      invariant key[keyLen..] == old(key[keyLen..])
    {
      var obuf := Block(t, pass, salt, count, rounds, n);
      var r := if left < 20 then left else 20;
      NextPart(prf, pass, salt, rounds, n, at, key[..at], obuf, r);
      Put(key, at, obuf[..r], keyLen);
      at, left := at + r, left - r;
      count, n := (count + 1) % COUNTS, n + 1;
    }
    Prefix(prf, pass, salt, rounds, n - 1, keyLen);
    return true;
  }

  method Put(key: array<bv8>, at: nat, data: seq<bv8>, ghost end: nat)
    requires at + |data| <= end <= key.Length
    modifies key
    ensures key[..at + |data|] == old(key[..at]) + data
    ensures key[end..] == old(key[end..])
  {
    forall k | 0 <= k < |data| {
      key[at + k] := data[k];
    }
  }

  lemma NextPart(prf: Prf, pass: seq<bv8>, salt: seq<bv8>, rounds: nat, n: nat, at: nat, done: seq<bv8>, obuf: seq<bv8>,
                 r: nat)
    requires Twenty(prf) && rounds > 0 && n >= 1 && at == 20 * (n - 1) && r <= 20
    requires done == Stream(prf, pass, salt, rounds, n - 1)[..at] && obuf == Folded(prf, pass, salt, n, rounds)
    ensures done + obuf[..r] == Stream(prf, pass, salt, rounds, n)[..at + r]
  {
    hide Folded;
  }

  /** More blocks than needed do not change a prefix. */
  lemma Prefix(prf: Prf, pass: seq<bv8>, salt: seq<bv8>, rounds: nat, n: nat, len: nat)
    requires Twenty(prf) && rounds > 0 && len <= 20 * n
    ensures Stream(prf, pass, salt, rounds, len)[..len] == Stream(prf, pass, salt, rounds, n)[..len]
  {
    hide Stream;
    var a, b := Stream(prf, pass, salt, rounds, len), Stream(prf, pass, salt, rounds, n);
    if n <= len {
      StreamGrows(prf, pass, salt, rounds, n, len);
      assert a[..len] == a[..20 * n][..len];
    } else {
      StreamGrows(prf, pass, salt, rounds, len, n);
      assert b[..len] == b[..20 * len][..len];
    }
  }

  /** Both implementations on one input: what the C function writes is what one read of a fresh stream returns. */
  method BothAgree(t: Transform, pass: seq<bv8>, salt: seq<bv8>, key: array<bv8>, keyLen: nat, rounds: nat)
    returns (ok: bool, r: Option<seq<bv8>>)
    requires |pass| < 0x2000_0000 && |salt| + 4 < 0x2000_0000 && keyLen <= key.Length && rounds >= 1
    modifies key
    ensures ok <==> keyLen > 0 && salt != []
    ensures r.Some? <==> keyLen <= 20 * LAST
    ensures ok && r.Some? ==> key[..keyLen] == r.value
  {
    hide Stream, HmacPrf, Twenty;
    ok := Pkcs5Pbkdf2(t, pass, salt, key, keyLen, rounds);
    r := OneRead(t, pass, salt, keyLen, rounds);
  }

  /** One read from the start of the stream. */
  method OneRead(t: Transform, pass: seq<bv8>, salt: seq<bv8>, keyLen: nat, rounds: nat) returns (r: Option<seq<bv8>>)
    requires rounds >= 1
    ensures Twenty(HmacPrf(t))
    ensures r.Some? <==> keyLen <= 20 * LAST
    ensures r.Some? ==> r.value == Stream(HmacPrf(t), pass, salt, rounds, keyLen)[..keyLen]
  {
    hide Folded, Stream, HmacPrf, Twenty;
    HmacTwenty(t);
    var stream := new KeyStream(HmacPrf(t), pass, salt, rounds);
    var read := stream.ReadBytes(keyLen);
    if !read.Got? {
      return None;
    }
    Prefix(stream.prf, pass, salt, rounds, stream.blockNum, keyLen);
    return Some(read.bytes);
  }
}
