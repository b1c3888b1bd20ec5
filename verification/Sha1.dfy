/**
 The streaming hash context of SHA-1 (FIPS 180-4, sections 5.1.1 and 6.1): any split of a
 message into updates hashes the padded message. The block function is a parameter.
 */
module Sha1 {
  import opened Arithmetic
  import opened Bytes

  type State = s: seq<bv32> | |s| == 5 witness [0, 0, 0, 0, 0]
  type Transform = (State, seq<bv8>) -> State

  const INIT: State := [0x67452301, 0xEFCDAB89, 0x98BADCFE, 0x10325476, 0xC3D2E1F0]

  /** The state after the whole 64-byte blocks of a string. */
  function Run(t: Transform, s: State, bytes: seq<bv8>): State
    decreases |bytes|
  {
    if |bytes| < 64 then s else Run(t, t(s, bytes[..64]), bytes[64..])
  }

  lemma {:induction false} RunCat(t: Transform, s: State, a: seq<bv8>, b: seq<bv8>, n: nat)
    requires |a| == 64 * n
    ensures Run(t, s, a + b) == Run(t, Run(t, s, a), b)
    decreases n
  {
    if n == 0 {
      assert a + b == b;
    } else {
      assert (a + b)[..64] == a[..64] && (a + b)[64..] == a[64..] + b;
      RunCat(t, t(s, a[..64]), a[64..], b, n - 1);
    }
  }

  function Digest(s: State): (r: seq<bv8>)
    ensures |r| == 20
  {
    Bytes32(s[0]) + Bytes32(s[1]) + Bytes32(s[2]) + Bytes32(s[3]) + Bytes32(s[4])
  }

  /** The padding behind a string with `fill` bytes in its last block, with the given bit count. */
  function Pad(fill: nat, bits: nat): seq<bv8>
    requires fill < 64
  {
    [0x80] + Zeros(Gap(fill)) + BigEndian(bits, 8)
  }

  /** Zero bytes between the one bit and the count, so that the whole ends a block. */
  function Gap(fill: nat): nat
    requires fill < 64
  {
    if fill < 56 then 55 - fill else 119 - fill
  }

  lemma GapIs(fill: nat, zeros: nat)
    requires fill < 64 && zeros <= Gap(fill)
    ensures (fill + 1 + zeros) % 64 == 56 <==> zeros == Gap(fill)
  {
  }

  lemma MoreZeros(m: seq<bv8>, n: nat)
    ensures m + Zeros(n) + [0] == m + Zeros(n + 1)
  {
  }

  const COUNT: nat := 0x1_0000_0000_0000_0000
  const LEN: nat := 0x1_0000_0000

  function Hash(t: Transform, message: seq<bv8>, bits: nat): seq<bv8>
  {
    Digest(Run(t, INIT, message + Pad(|message| % 64, bits)))
  }

  /** The hash of a message: its own length in bits in the padding. */
  function Sha(t: Transform, message: seq<bv8>): seq<bv8>
  {
    Hash(t, message, 8 * |message| % COUNT)
  }

  // The hash without the padding function.

  /** p is the message, a one bit, zeros up to eight bytes before the end of a block, and the bit count. */
  ghost predicate PaddedTo(message: seq<bv8>, bits: nat, p: seq<bv8>)
  {
    var n := |message|;
    && |p| % 64 == 0 && n + 9 <= |p| < n + 73 && p[..n] == message && p[n] == 0x80
    && (forall i :: n < i < |p| - 8 ==> p[i] == 0) && Value(p[|p| - 8..]) == bits
  }

  /** The five words of a digest, and the blocks of the padded message run from the initial state. */
  ghost predicate DigestOf(t: Transform, p: seq<bv8>, digest: seq<bv8>)
  {
    && |digest| == 20
    && [Word32(digest[..4]), Word32(digest[4..8]), Word32(digest[8..12]), Word32(digest[12..16]),
        Word32(digest[16..])]
       == Run(t, [0x67452301, 0xEFCDAB89, 0x98BADCFE, 0x10325476, 0xC3D2E1F0], p)
  }

  lemma DigestWords(s: State)
    ensures var d := Digest(s);
      [Word32(d[..4]), Word32(d[4..8]), Word32(d[8..12]), Word32(d[12..16]), Word32(d[16..])] == s
  {
    hide Word32, Bytes32;
    Word32Back(s[0]);
    Word32Back(s[1]);
    Word32Back(s[2]);
    Word32Back(s[3]);
    Word32Back(s[4]);
    var d := Digest(s);
    assert d[..4] == Bytes32(s[0]) && d[4..8] == Bytes32(s[1]) && d[8..12] == Bytes32(s[2]);
    assert d[12..16] == Bytes32(s[3]) && d[16..] == Bytes32(s[4]);
  }

  lemma PadIs(message: seq<bv8>, bits: nat)
    requires bits < COUNT
    ensures PaddedTo(message, bits, message + Pad(|message| % 64, bits))
  {
    hide BigEndian, Value;
    Powers();
    ValueBack(bits, 8);
    var n, fill := |message|, |message| % 64;
    var p := message + Pad(fill, bits);
    assert Pad(fill, bits)[1 + Gap(fill)..] == BigEndian(bits, 8);
    assert p[|p| - 8..] == BigEndian(bits, 8);
    assert |p| == n + 9 + Gap(fill);
    WholeBlocks(n);
  }

  lemma WholeBlocks(n: nat)
    ensures (n + 9 + Gap(n % 64)) % 64 == 0
  {
  }

  lemma HashMeans(t: Transform, message: seq<bv8>, bits: nat)
    requires bits < COUNT
    ensures exists p: seq<bv8> :: PaddedTo(message, bits, p) && DigestOf(t, p, Hash(t, message, bits))
  {
    hide PaddedTo, Run, Word32, Digest;
    var p := message + Pad(|message| % 64, bits);
    PadIs(message, bits);
    DigestWords(Run(t, INIT, p));
    assert DigestOf(t, p, Hash(t, message, bits));
  }

  /** The hash of a message is the digest of its blocks with its own length behind. */
  lemma ShaMeans(t: Transform, message: seq<bv8>)
    ensures exists p: seq<bv8> ::
      PaddedTo(message, 8 * |message| % 0x1_0000_0000_0000_0000, p) && DigestOf(t, p, Sha(t, message))
  {
    hide PaddedTo, DigestOf, Hash;
    HashMeans(t, message, 8 * |message| % COUNT);
  }

  class Context {
    const transform: Transform
    var state: State
    var count: nat
    const buffer: array<bv8>
    ghost var done: seq<bv8>     // the blocks already hashed
    ghost var blocks: nat

    /** The number of bytes waiting in the buffer, from the bit count. */
    function Fill(): (j: nat)
      reads this
      ensures j < 64
    {
      count / 8 % 64
    }

    ghost predicate Valid()
      reads this, buffer
    {
      && buffer.Length == 64
      && count % 8 == 0 && count < COUNT
      && |done| == 64 * blocks
      && state == Run(transform, INIT, done)
    }

    /** The bytes hashed so far. */
    ghost function Message(): seq<bv8>
      requires buffer.Length == 64
      reads this, buffer
    {
      done + buffer[..Fill()]
    }

    constructor (transform: Transform)
      ensures Valid() && Message() == [] && count == 0 && this.transform == transform && fresh(buffer)
    {
      this.transform := transform;
      count, state, buffer, done, blocks := 0, INIT, new bv8[64], [], 0;
    }

    method Copy(at: nat, data: seq<bv8>)
      requires at + |data| <= buffer.Length
      modifies buffer
      ensures buffer[..at + |data|] == old(buffer[..at]) + data
    {
      forall k | 0 <= k < |data| {
        buffer[at + k] := data[k];
      }
    }

    /** Adds bytes to the message; the bit count takes 8 * length modulo 2^32. */
    method Update(data: seq<bv8>)
      requires Valid() && |data| + 64 <= LEN
      modifies this`state, this`count, this`done, this`blocks, buffer
      ensures Valid() && Message() == old(Message()) + data
      ensures count == (old(count) + 8 * |data| % LEN) % COUNT
      ensures Fill() == (old(Fill()) + |data|) % 64
    {
      hide Run;
      ghost var message := Message();
      var j := count / 8 % 64;
      ghost var fill := j;
      FillAdds(count, |data|);
      count := (count + 8 * |data| % LEN) % COUNT;
      var i;
      if j + |data| > 63 {
        ghost var k;
        i, k := HashBlocks(j, data, message);
        j := 0;
        Division(fill + |data|, k, |data| - i, 64);
      } else {
        i := 0;
        Division(fill + |data|, 0, fill + |data|, 64);
      }
      assert Fill() == j + (|data| - i);
      assert done + buffer[..j] == message + data[..i];
      Appended(done, buffer[..j], message, data, i);
      Copy(j, data[i..]);
    }

    /** The part of an update that completes the buffered block and hashes whole blocks of the data. */
    method HashBlocks(j: nat, data: seq<bv8>, ghost message: seq<bv8>) returns (i: nat, ghost k: nat)
      requires buffer.Length == 64 && |done| == 64 * blocks && state == Run(transform, INIT, done)
      requires j < 64 && j + |data| > 63 && message == done + buffer[..j]
      modifies this`state, this`done, this`blocks, buffer
      ensures |done| == 64 * blocks && state == Run(transform, INIT, done)
      ensures i <= |data| < i + 64 && j + i == 64 * k && done == message + data[..i]
    {
      hide Run;
      i, k := 64 - j, 1;
      Copy(j, data[..i]);
      assert buffer[..] == buffer[..j] + data[..i];
      HashBlock(buffer[..]);
      assert done == message + data[..i];
      while i + 63 < |data|
        invariant i <= |data| && j + i == 64 * k
        invariant |done| == 64 * blocks && state == Run(transform, INIT, done)
        invariant done == message + data[..i]
        modifies this`state, this`done, this`blocks
      {
        HashBlock(data[i..i + 64]);
        assert data[..i] + data[i..i + 64] == data[..i + 64];
        i, k := i + 64, k + 1;
      }
    }

    /** Pads the message, adds the bit count and returns the digest. */
    method Final() returns (digest: seq<bv8>)
      requires Valid()
      modifies this`state, this`count, this`done, this`blocks, buffer
      ensures digest == Hash(transform, old(Message()), old(count))
      ensures exists p: seq<bv8> :: PaddedTo(old(Message()), old(count), p) && DigestOf(transform, p, digest)
    {
      hide Run, BigEndian, Zeros, Message, Fill, Gap, PaddedTo, DigestOf;
      HashMeans(transform, Message(), count);
      ghost var message, bits, fill := Message(), count, Fill();
      MessageFill();
      var finalcount := BigEndian(count, 8);
      Update([0x80]);
      ZeroFill(message + [0x80], fill);
      Update(finalcount);
      AllDone();
      assert message + [0x80] + Zeros(Gap(fill)) + finalcount == message + Pad(fill, bits);
      digest := Digest(state);
    }

    /** Zero bytes until eight are left in the block. */
    method ZeroFill(ghost message: seq<bv8>, ghost fill: nat)
      requires Valid() && Message() == message && fill < 64 && Fill() == (fill + 1) % 64
      modifies this`state, this`count, this`done, this`blocks, buffer
      ensures Valid() && Message() == message + Zeros(Gap(fill)) && Fill() == 56
    {
      hide Run, Zeros, Message, Fill, Gap;
      ghost var zeros: nat := 0;
      assert message + Zeros(0) == message;
      while Fill() != 56
        invariant Valid() && Message() == message + Zeros(zeros)
        invariant Fill() == (fill + 1 + zeros) % 64 && zeros <= Gap(fill)
        decreases Gap(fill) - zeros
      {
        GapIs(fill, zeros);
        Update([0]);
        Mod64c(fill + 1 + zeros, 1);
        MoreZeros(message, zeros);
        zeros := zeros + 1;
      }
      GapIs(fill, zeros);
    }

    lemma AllDone()
      requires Valid()
      ensures Fill() == 0 ==> Message() == done
    {
    }

    lemma MessageFill()
      requires Valid()
      ensures |Message()| % 64 == Fill()
    {
      Division(|Message()|, blocks, Fill(), 64);
    }

    method HashBlock(block: seq<bv8>)
      requires |block| == 64 && |done| == 64 * blocks && state == Run(transform, INIT, done)
      modifies this`state, this`done, this`blocks
      ensures |done| == 64 * blocks && state == Run(transform, INIT, done)
      ensures done == old(done) + block
    {
      RunCat(transform, INIT, done, block, blocks);
      OneBlock(transform, state, block);
      state := transform(state, block);
      done, blocks := done + block, blocks + 1;
    }
  }

  lemma Appended(done: seq<bv8>, head: seq<bv8>, message: seq<bv8>, data: seq<bv8>, i: nat)
    requires i <= |data| && done + head == message + data[..i]
    ensures done + (head + data[i..]) == message + data
  {
    assert done + (head + data[i..]) == done + head + data[i..];
    assert message + data[..i] + data[i..] == message + data;
  }

  lemma OneBlock(t: Transform, s: State, block: seq<bv8>)
    requires |block| == 64
    ensures Run(t, s, block) == t(s, block)
  {
    assert block[..64] == block;
  }

  /** The count's fill is the message length modulo 64 even where the count wraps. */
  lemma FillAdds(count: nat, len: nat)
    requires count % 8 == 0 && count < COUNT
    ensures var after := (count + 8 * len % LEN) % COUNT;
      after % 8 == 0 && after / 8 % 64 == (count / 8 % 64 + len) % 64
  {
    var c, q, m := count / 8, len / 0x2000_0000, len % 0x2000_0000;
    Division(8 * len, q, 8 * m, LEN);
    var s := c + m;
    var u, v := s / (COUNT / 8), s % (COUNT / 8);
    Division(8 * s, u, 8 * v, COUNT);
    assert (count + 8 * len % LEN) % COUNT == 8 * v;
    Mod64(len, q, m);
    Mod64b(s, u, v);
    Mod64c(c, m);
    Mod64c(c, len);
  }

  lemma Mod64(len: nat, q: nat, m: nat)
    requires len == 0x2000_0000 * q + m
    ensures len % 64 == m % 64
  {
    Division(len, 0x80_0000 * q + m / 64, m % 64, 64);
  }

  lemma Mod64b(s: nat, u: nat, v: nat)
    requires s == 0x2000_0000_0000_0000 * u + v
    ensures s % 64 == v % 64
  {
    Division(s, 0x80_0000_0000_0000 * u + v / 64, v % 64, 64);
  }

  lemma Mod64c(a: nat, b: nat)
    ensures (a % 64 + b) % 64 == (a + b) % 64 == (a % 64 + b % 64) % 64
  {
    ModAdd(a, b, 64);
    ModAdd(b, a % 64, 64);
  }

  // Any split of a message.

  function Concat(parts: seq<seq<bv8>>): seq<bv8>
  {
    if parts == [] then [] else Concat(parts[..|parts| - 1]) + parts[|parts| - 1]
  }

  /** The bit count a context holds after updates with these parts. */
  function CountOf(parts: seq<seq<bv8>>): nat
  {
    if parts == [] then 0 else (CountOf(parts[..|parts| - 1]) + 8 * |parts[|parts| - 1]| % LEN) % COUNT
  }

  /** How many times the shifted length of an update loses its top bits: once for every 2^29 bytes of it. */
  function Lost(parts: seq<seq<bv8>>): nat
  {
    if parts == [] then 0 else Lost(parts[..|parts| - 1]) + |parts[|parts| - 1]| / 0x2000_0000
  }

  lemma LengthParts(len: nat)
    ensures 8 * len == 8 * len % LEN + LEN * (len / 0x2000_0000)
  {
    var q, m := len / 0x2000_0000, len % 0x2000_0000;
    Division(8 * len, q, 8 * m, LEN);
  }

  /** The count and what was lost make up the bits of the message, modulo 2^64. */
  lemma {:induction false} CountAndLost(parts: seq<seq<bv8>>)
    ensures (CountOf(parts) + LEN * Lost(parts)) % COUNT == 8 * |Concat(parts)| % COUNT
  {
    if parts != [] {
      var n := |parts| - 1;
      var c, l, t, len := CountOf(parts[..n]), Lost(parts[..n]), |Concat(parts[..n])|, |parts[n]|;
      CountAndLost(parts[..n]);
      LengthParts(len);
      var kept, lost := 8 * len % LEN, len / 0x2000_0000;
      ModAdd(c + kept, LEN * (l + lost), COUNT);
      assert c + kept + LEN * (l + lost) == c + LEN * l + 8 * len;
      ModAdd(c + LEN * l, 8 * len, COUNT);
      ModAdd(8 * t, 8 * len, COUNT);
    }
  }

  lemma CountBound(parts: seq<seq<bv8>>)
    ensures CountOf(parts) < COUNT
  {
  }

  /** A multiple of 2^32 is no multiple of 2^64 unless the factor is one of 2^32. */
  lemma Vanishes(c: nat, l: nat)
    requires c < COUNT
    ensures (c + LEN * l) % COUNT == c <==> l % LEN == 0
  {
    var q, m := l / LEN, l % LEN;
    assert LEN * l == COUNT * q + LEN * m;
    var x := c + LEN * m;
    if x < COUNT {
      Division(c + LEN * l, q, x, COUNT);
    } else {
      Division(c + LEN * l, q + 1, x - COUNT, COUNT);
    }
  }

  /**
   The context's count is that of the message exactly when the updates lost a multiple of 2^32:
   the lengths, each divided by 2^29, must add up to one.
   */
  lemma CountRight(parts: seq<seq<bv8>>)
    ensures CountOf(parts) == 8 * |Concat(parts)| % COUNT <==> Lost(parts) % LEN == 0
  {
    CountAndLost(parts);
    CountBound(parts);
    Vanishes(CountOf(parts), Lost(parts));
  }

  ghost predicate Short(parts: seq<seq<bv8>>)
  {
    forall i :: 0 <= i < |parts| ==> |parts[i]| < 0x2000_0000
  }

  /** Updates shorter than 2^29 bytes lose nothing. */
  lemma {:induction false} ShortLosesNothing(parts: seq<seq<bv8>>)
    ensures Short(parts) ==> Lost(parts) == 0
  {
    if parts != [] && Short(parts) {
      ShortLosesNothing(parts[..|parts| - 1]);
    }
  }

  /** A single update counts its bits right exactly when it is shorter than 2^29 bytes. */
  lemma OneCount(part: seq<bv8>)
    requires |part| < LEN
    ensures CountOf([part]) == 8 * |Concat([part])| % COUNT <==> |part| < 0x2000_0000
  {
    CountRight([part]);
    assert [part][..0] == [];
  }

  lemma RightDigest(transform: Transform, parts: seq<seq<bv8>>)
    ensures Lost(parts) % LEN == 0 ==> Hash(transform, Concat(parts), CountOf(parts)) == Sha(transform, Concat(parts))
    ensures Short(parts) ==> Lost(parts) == 0
  {
    hide Lost, CountOf, Concat, Hash, Short;
    CountRight(parts);
    ShortLosesNothing(parts);
  }

  /** Hashing a message in any parts: the digest of the padded message with the context's own count. */
  method HashParts(transform: Transform, parts: seq<seq<bv8>>) returns (digest: seq<bv8>)
    requires forall i :: 0 <= i < |parts| ==> |parts[i]| + 64 <= LEN
    ensures digest == Hash(transform, Concat(parts), CountOf(parts))
    ensures Lost(parts) % LEN == 0 ==> exists p: seq<bv8> ::
      PaddedTo(Concat(parts), 8 * |Concat(parts)| % 0x1_0000_0000_0000_0000, p) && DigestOf(transform, p, digest)
    ensures Lost(parts) % LEN == 0 ==> digest == Sha(transform, Concat(parts))
    ensures Short(parts) ==> digest == Sha(transform, Concat(parts))
  {
    hide Lost, Hash, Short, PaddedTo, DigestOf;
    var context := new Context(transform);
    var i := 0;
    while i < |parts|
      invariant 0 <= i <= |parts| && fresh(context) && fresh(context.buffer)
      invariant context.Valid() && context.transform == transform
      invariant context.Message() == Concat(parts[..i]) && context.count == CountOf(parts[..i])
    {
      assert parts[..i + 1][..i] == parts[..i];
      context.Update(parts[i]);
      i := i + 1;
    }
    assert parts[..i] == parts;
    digest := context.Final();
    RightDigest(transform, parts);
    HashMeans(transform, Concat(parts), 8 * |Concat(parts)| % COUNT);
  }
}
