/**
 The passcode key derivation: the passcode hash is masked with a counter, encrypted in CBC mode
 by the accelerator in batches of 4096 bytes, and all cipher blocks are folded into the result.
 */
module Kdf {
  import opened Arithmetic
  import opened Bytes

  /** Four words: one block of the accelerator's cipher. */
  datatype Quad = Quad(w0: bv32, w1: bv32, w2: bv32, w3: bv32)
  type BlockCipher = Quad -> Quad

  function At(q: Quad, i: nat): bv32
    requires i < 4
  {
    if i == 0 then q.w0 else if i == 1 then q.w1 else if i == 2 then q.w2 else q.w3
  }

  function Mix(a: Quad, b: Quad): Quad
  {
    Quad(a.w0 ^ b.w0, a.w1 ^ b.w1, a.w2 ^ b.w2, a.w3 ^ b.w3)
  }

  const ZERO: Quad := Quad(0, 0, 0, 0)
  const WORDS: nat := 1024      // words in a derivation buffer
  const WRAP: nat := 0x1_0000_0000

  /** A 32-bit counter as a word. */
  function Key(n: nat): bv32
  {
    Word32(BigEndian(n, 4))
  }

  /** Its bytes are the digits of the number modulo 2^32. */
  lemma KeyIs(n: nat)
    ensures Value(Bytes32(Key(n))) == n % 0x1_0000_0000
  {
    hide Word32, Bytes32, Value, BigEndian;
    Powers();
    ValueModulo(n, 4);
    Bytes32Back(BigEndian(n, 4));
  }

  // The unbatched derivation, word by word of an endless stream.

  /** Word i of input xor key, input xor key + 1, and so on. */
  function Plain(input: seq<bv32>, key: nat, i: nat): bv32
    requires input != []
  {
    input[i % |input|] ^ Key(key + i / |input|)
  }

  function PlainQuad(input: seq<bv32>, key: nat, q: nat): Quad
    requires input != []
  {
    Quad(Plain(input, key, 4 * q), Plain(input, key, 4 * q + 1), Plain(input, key, 4 * q + 2),
         Plain(input, key, 4 * q + 3))
  }

  /** Block q of the stream in CBC mode. */
  function Chained(enc: BlockCipher, iv: Quad, input: seq<bv32>, key: nat, q: nat): Quad
    requires input != []
  {
    enc(Mix(PlainQuad(input, key, q), if q == 0 then iv else Chained(enc, iv, input, key, q - 1)))
  }

  function CipherWord(enc: BlockCipher, iv: Quad, input: seq<bv32>, key: nat, i: nat): bv32
    requires input != []
  {
    At(Chained(enc, iv, input, key, i / 4), i % 4)
  }

  /** acc with the first n words of the cipher stream folded in. */
  function Folded(enc: BlockCipher, iv: Quad, input: seq<bv32>, key: nat, acc: seq<bv32>, n: nat): (r: seq<bv32>)
    requires input != [] && |acc| == |input|
    ensures |r| == |acc|
  {
    if n == 0 then acc else
    var r := Folded(enc, iv, input, key, acc, n - 1);
    var j := (n - 1) % |acc|;
    r[j := r[j] ^ CipherWord(enc, iv, input, key, n - 1)]
  }

  /** The derived key: the input and iter cipher blocks of its own length folded together. */
  function Derived(enc: BlockCipher, input: seq<bv32>, iter: nat): seq<bv32>
    requires input != []
  {
    Folded(enc, ZERO, input, 1, input, iter * |input|)
  }

  /** The length of c copies of l words. */
  function Span(c: nat, l: nat): nat
  {
    c * l
  }

  /** Word r of copy c. */
  lemma Divided(c: nat, l: nat, r: nat)
    requires r < l
    ensures (Span(c, l) + r) / l == c && (Span(c, l) + r) % l == r
  {
    Division(Span(c, l) + r, c, r, l);
  }

  /** Filled so far: the first d words are those of the stream. */
  ghost predicate Expanded(dst: seq<bv32>, input: seq<bv32>, xorKey: nat, d: nat)
  {
    d <= |dst| && input != [] && forall k :: 0 <= k < d ==> dst[k] == Plain(input, xorKey, k)
  }

  method XorExpand(dst: array<bv32>, input: array<bv32>, xorKey: nat, ghost m: nat) returns (key: nat)
    requires dst != input && input.Length > 0 && dst.Length == Span(m, input.Length) && xorKey < WRAP
    modifies dst
    ensures key == (xorKey + m) % WRAP
    ensures Expanded(dst[..], input[..], xorKey, dst.Length)
    ensures forall k :: 0 <= k < dst.Length ==> dst[k] == input[k % input.Length] ^ Key(xorKey + k / input.Length)
  {
    hide Key, Plain, Span, Expanded;
    var d := 0;
    SpanNone(input.Length);
    NothingExpanded(dst[..], input[..], xorKey);
    key := xorKey;
    ghost var c: nat := 0;
    while d < dst.Length
      invariant c <= m && d == Span(c, input.Length) && key == (xorKey + c) % WRAP
      invariant Expanded(dst[..], input[..], xorKey, d)
    {
      Inside(c, m, input.Length, 0);
      KeyNext(xorKey + c);
      d := ExpandCopy(dst, input, d, key, xorKey, c, m);
      key := (key + 1) % WRAP;
      c := c + 1;
    }
    if c < m {
      Inside(c, m, input.Length, 0);
    }
    ExpandedIs(dst[..], input[..], xorKey, dst.Length);
  }

  lemma ExpandedIs(dst: seq<bv32>, input: seq<bv32>, xorKey: nat, d: nat)
    requires Expanded(dst, input, xorKey, d)
    ensures forall k :: 0 <= k < d ==> dst[k] == input[k % |input|] ^ Key(xorKey + k / |input|)
  {
  }

  lemma SpanNone(l: nat)
    ensures Span(0, l) == 0
  {
  }

  lemma NothingExpanded(dst: seq<bv32>, input: seq<bv32>, xorKey: nat)
    requires input != []
    ensures Expanded(dst, input, xorKey, 0)
  {
  }

  lemma KeyNext(n: nat)
    ensures (n % WRAP + 1) % WRAP == (n + 1) % WRAP
  {
  }

  /** One copy of the input, masked with one key. */
  method ExpandCopy(dst: array<bv32>, input: array<bv32>, d: nat, key: nat, ghost xorKey: nat, ghost c: nat,
                    ghost m: nat) returns (e: nat)
    requires dst != input && input.Length > 0 && dst.Length == Span(m, input.Length) && c < m
      && d == Span(c, input.Length)
    requires key == (xorKey + c) % WRAP && Expanded(dst[..], input[..], xorKey, d)
    modifies dst
    ensures e == Span(c + 1, input.Length) && Expanded(dst[..], input[..], xorKey, e)
  {
    hide Key, Plain, Expanded, Span;
    ghost var s := input[..];
    e := d;
    Inside(c, m, input.Length, 0);
    var i := 0;
    while i < input.Length
      invariant 0 <= i <= input.Length && e == Span(c, input.Length) + i
      invariant input[..] == s && Expanded(dst[..], s, xorKey, e)
    {
      Inside(c, m, input.Length, i);
      ExpandOne(dst[..], s, xorKey, c, i, key);
      dst[e] := input[i] ^ Key(key);
      e := e + 1;
      i := i + 1;
    }
  }

  lemma ExpandOne(dst: seq<bv32>, input: seq<bv32>, xorKey: nat, c: nat, i: nat, key: nat)
    requires i < |input| && key == (xorKey + c) % WRAP && Span(c, |input|) + i < |dst|
    requires Expanded(dst, input, xorKey, Span(c, |input|) + i)
    ensures Expanded(dst[Span(c, |input|) + i := input[i] ^ Key(key)], input, xorKey, Span(c, |input|) + i + 1)
  {
    hide Key;
    Divided(c, |input|, i);
    KeyWraps(xorKey + c);
  }

  lemma KeyWraps(n: nat)
    ensures Key(n % WRAP) == Key(n)
  {
    hide Word32, BigEndian;
    Powers();
    LowBytes(n, 4);
  }

  lemma Inside(c: nat, m: nat, l: nat, i: nat)
    requires c < m && i < l
    ensures Span(c, l) + i < Span(m, l) && Span(c + 1, l) == Span(c, l) + l
  {
    Difference(m, c, l);
    Times(m - c, l);
  }

  // Folding.

  /** words from `from` on folded into acc, place by place. */
  function Compressed(acc: seq<bv32>, words: seq<bv32>, n: nat): (r: seq<bv32>)
    requires acc != [] && n <= |words|
    ensures |r| == |acc|
  {
    if n == 0 then acc else
    var r := Compressed(acc, words, n - 1);
    var j := (n - 1) % |acc|;
    r[j := r[j] ^ words[n - 1]]
  }

  method XorCompress(input: array<bv32>, n: nat, output: array<bv32>)
    requires input != output && n <= input.Length && output.Length > 0
    modifies output
    ensures output[..] == Compressed(old(output[..]), input[..], n)
    ensures forall k: nat, j: nat :: n == Span(k, output.Length) && j < output.Length ==>
      output[j] == old(output[j]) ^ Column(input[..], output.Length, j, k)
  {
    hide Column;
    var i := 0;
    while i < n
      invariant 0 <= i <= n && input[..] == old(input[..])
      invariant output[..] == Compressed(old(output[..]), input[..], i)
    {
      output[i % output.Length] := output[i % output.Length] ^ input[i];
      i := i + 1;
    }
    ghost var acc := old(output[..]);
    WholeColumns(acc, input[..], n);
  }

  lemma SamePlace(c: nat, l: nat, i: nat)
    requires l > 0
    ensures (Span(c, l) + i) % l == i % l && (Span(c, l) + i) / l == c + i / l
  {
    var q, m := i / l, i % l;
    assert Span(c, l) + i == (c + q) * l + m;
    Divided(c + q, l, m);
  }

  /** Folding a buffer that holds the cipher stream. */
  lemma {:induction false} CompressFolds(enc: BlockCipher, iv: Quad, input: seq<bv32>, key: nat, acc: seq<bv32>,
                                         words: seq<bv32>, n: nat)
    requires input != [] && |acc| == |input| && n <= |words|
    requires forall i :: 0 <= i < |words| ==> words[i] == CipherWord(enc, iv, input, key, i)
    ensures Compressed(acc, words, n) == Folded(enc, iv, input, key, acc, n)
  {
    hide CipherWord;
    if n > 0 {
      CompressFolds(enc, iv, input, key, acc, words, n - 1);
    }
  }

  // The stream goes on: what is c copies and q0 blocks in starts again with key + c and the last block as iv.

  function IvAt(enc: BlockCipher, iv: Quad, input: seq<bv32>, key: nat, q0: nat): Quad
    requires input != []
  {
    if q0 == 0 then iv else Chained(enc, iv, input, key, q0 - 1)
  }

  lemma PlainGoesOn(input: seq<bv32>, key: nat, c: nat, i: nat)
    requires input != []
    ensures Plain(input, (key + c) % WRAP, i) == Plain(input, key, Span(c, |input|) + i)
  {
    hide Span, Key;
    SamePlace(c, |input|, i);
    KeyAdds(key + c, i / |input|);
  }

  lemma KeyAdds(a: nat, b: nat)
    ensures Key(a % WRAP + b) == Key(a + b)
  {
    hide Key;
    ModAdd(a, b, WRAP);
    KeyWraps(a % WRAP + b);
    KeyWraps(a + b);
  }

  lemma {:induction false} ChainGoesOn(enc: BlockCipher, iv: Quad, input: seq<bv32>, key: nat, c: nat, q0: nat, q: nat)
    requires input != [] && Span(c, |input|) == 4 * q0
    ensures Chained(enc, IvAt(enc, iv, input, key, q0), input, (key + c) % WRAP, q)
      == Chained(enc, iv, input, key, q0 + q)
    decreases q
  {
    hide Plain, Span, Mix;
    PlainGoesOn(input, key, c, 4 * q);
    PlainGoesOn(input, key, c, 4 * q + 1);
    PlainGoesOn(input, key, c, 4 * q + 2);
    PlainGoesOn(input, key, c, 4 * q + 3);
    assert PlainQuad(input, (key + c) % WRAP, q) == PlainQuad(input, key, q0 + q);
    if q > 0 {
      ChainGoesOn(enc, iv, input, key, c, q0, q - 1);
    }
  }

  lemma WordGoesOn(enc: BlockCipher, iv: Quad, input: seq<bv32>, key: nat, c: nat, q0: nat, i: nat)
    requires input != [] && Span(c, |input|) == 4 * q0
    ensures CipherWord(enc, IvAt(enc, iv, input, key, q0), input, (key + c) % WRAP, i)
         == CipherWord(enc, iv, input, key, Span(c, |input|) + i)
  {
    hide Chained, Span, IvAt;
    ChainGoesOn(enc, iv, input, key, c, q0, i / 4);
    assert (4 * q0 + i) / 4 == q0 + i / 4 && (4 * q0 + i) % 4 == i % 4;
  }

  lemma FoldNext(enc: BlockCipher, iv: Quad, input: seq<bv32>, key: nat, acc: seq<bv32>, n: nat)
    requires input != [] && |acc| == |input|
    ensures Folded(enc, iv, input, key, acc, 0) == acc
    ensures var r, j := Folded(enc, iv, input, key, acc, n), n % |acc|;
      Folded(enc, iv, input, key, acc, n + 1) == r[j := r[j] ^ CipherWord(enc, iv, input, key, n)]
  {
    hide CipherWord;
  }

  /** Folding in two parts is folding in one go. */
  lemma {:induction false} FoldGoesOn(enc: BlockCipher, iv: Quad, input: seq<bv32>, key: nat, acc: seq<bv32>, c: nat,
                                      q0: nat, n: nat)
    requires input != [] && |acc| == |input| && Span(c, |input|) == 4 * q0
    ensures Folded(enc, IvAt(enc, iv, input, key, q0), input, (key + c) % WRAP,
                   Folded(enc, iv, input, key, acc, Span(c, |input|)), n)
         == Folded(enc, iv, input, key, acc, Span(c, |input|) + n)
    decreases n
  {
    hide CipherWord, Span, IvAt, Folded;
    var o := Span(c, |input|);
    var iv1, key1, acc1 := IvAt(enc, iv, input, key, q0), (key + c) % WRAP, Folded(enc, iv, input, key, acc, o);
    FoldNext(enc, iv1, input, key1, acc1, 0);
    if n > 0 {
      FoldGoesOn(enc, iv, input, key, acc, c, q0, n - 1);
      FoldNext(enc, iv1, input, key1, acc1, n - 1);
      FoldNext(enc, iv, input, key, acc, o + n - 1);
      WordGoesOn(enc, iv, input, key, c, q0, n - 1);
      SamePlace(c, |input|, n - 1);
    }
  }

  // The derived key, without the stream functions.

  /** Copies of the input, the first masked with 1, the next with 2, and so on. */
  ghost predicate Copies(input: seq<bv32>, p: seq<bv32>)
    requires input != []
  {
    forall i :: 0 <= i < |p| ==> p[i] == input[i % |input|] ^ Key(1 + i / |input|)
  }

  function QuadAt(s: seq<bv32>, q: nat): Quad
    requires 4 * q + 4 <= |s|
  {
    Quad(s[4 * q], s[4 * q + 1], s[4 * q + 2], s[4 * q + 3])
  }

  /** c is the cipher text of p in CBC mode, starting from iv. */
  ghost predicate Cbc(enc: BlockCipher, iv: Quad, p: seq<bv32>, c: seq<bv32>)
  {
    && |c| == |p|
    && forall q: nat :: 4 * q + 4 <= |p| ==> QuadAt(c, q) == enc(Mix(QuadAt(p, q), Before(iv, c, q)))
  }

  function Before(iv: Quad, c: seq<bv32>, q: nat): Quad
    requires 4 * q <= |c|
  {
    if q == 0 then iv else QuadAt(c, q - 1)
  }

  /** The words j, l + j, 2 * l + j, ... of the first n copies of l words, added bit by bit. */
  function Column(c: seq<bv32>, l: nat, j: nat, n: nat): bv32
    requires j < l && Span(n, l) <= |c|
  {
    if n == 0 then 0 else
    Inside(n - 1, n, l, j);
    Column(c, l, j, n - 1) ^ c[Span(n - 1, l) + j]
  }

  lemma Xor3(a: bv32, b: bv32, c: bv32)
    ensures a ^ b ^ c == a ^ (b ^ c) && a ^ 0 == a
  {
  }

  function Added(a: bv32, b: bv32): bv32
  {
    a ^ b
  }

  lemma FoldWord(acc: seq<bv32>, words: seq<bv32>, n: nat, k: nat, j: nat)
    requires n < |words| && j < |acc| && n % |acc| == k
    ensures Compressed(acc, words, n + 1)[j] ==
      if j == k then Added(Compressed(acc, words, n)[j], words[n]) else Compressed(acc, words, n)[j]
  {
  }

  /** Some words behind whole copies are folded each into its own place. */
  lemma {:induction false} FoldPart(acc: seq<bv32>, words: seq<bv32>, n: nat, r: nat, j: nat)
    requires r <= |acc| && j < |acc| && Span(n, |acc|) + r <= |words|
    ensures var s := Span(n, |acc|);
      Compressed(acc, words, s + r)[j]
      == if j < r then Added(Compressed(acc, words, s)[j], words[s + j]) else Compressed(acc, words, s)[j]
    decreases r
  {
    hide Compressed, Span, Added;
    if r > 0 {
      FoldPart(acc, words, n, r - 1, j);
      Divided(n, |acc|, r - 1);
      FoldWord(acc, words, Span(n, |acc|) + r - 1, r - 1, j);
    }
  }

  /** Word j of the folded key is word j of the start and column j of the words folded in. */
  lemma {:induction false} FoldColumn(acc: seq<bv32>, c: seq<bv32>, n: nat, j: nat)
    requires j < |acc| && Span(n, |acc|) <= |c|
    ensures Compressed(acc, c, Span(n, |acc|))[j] == acc[j] ^ Column(c, |acc|, j, n)
    decreases n
  {
    hide Compressed, Span;
    var l := |acc|;
    if n == 0 {
      SpanNone(l);
      NothingFolded(acc, c);
      Xor3(acc[j], 0, 0);
    } else {
      Inside(n - 1, n, l, j);
      FoldColumn(acc, c, n - 1, j);
      FoldPart(acc, c, n - 1, l, j);
      Xor3(acc[j], Column(c, l, j, n - 1), c[Span(n - 1, l) + j]);
    }
  }

  lemma WholeColumns(acc: seq<bv32>, c: seq<bv32>, n: nat)
    requires acc != [] && n <= |c|
    ensures forall k: nat, j: nat :: n == Span(k, |acc|) && j < |acc| ==>
      Compressed(acc, c, n)[j] == acc[j] ^ Column(c, |acc|, j, k)
  {
    hide Compressed, Span, Column;
    forall k: nat, j: nat | n == Span(k, |acc|) && j < |acc|
      ensures Compressed(acc, c, n)[j] == acc[j] ^ Column(c, |acc|, j, k)
    {
      FoldColumn(acc, c, k, j);
    }
  }

  lemma NothingFolded(acc: seq<bv32>, c: seq<bv32>)
    requires acc != []
    ensures Compressed(acc, c, 0) == acc
  {
  }

  lemma ChainedCbc(enc: BlockCipher, iv: Quad, input: seq<bv32>, p: seq<bv32>, c: seq<bv32>)
    requires input != [] && |p| == |c| && |c| % 4 == 0
    requires forall i :: 0 <= i < |p| ==> p[i] == Plain(input, 1, i)
    requires forall i :: 0 <= i < |c| ==> c[i] == CipherWord(enc, iv, input, 1, i)
    ensures Cbc(enc, iv, p, c)
    ensures forall q: nat :: 4 * q + 4 <= |c| ==> QuadAt(c, q) == Chained(enc, iv, input, 1, q)
  {
    hide Plain, Mix;
    forall q: nat | 4 * q + 4 <= |c|
      ensures QuadAt(c, q) == Chained(enc, iv, input, 1, q) && QuadAt(p, q) == PlainQuad(input, 1, q)
    {
      QuadOf(enc, iv, input, q);
    }
  }

  lemma QuadOf(enc: BlockCipher, iv: Quad, input: seq<bv32>, q: nat)
    requires input != []
    ensures var b := Chained(enc, iv, input, 1, q);
      b == Quad(CipherWord(enc, iv, input, 1, 4 * q), CipherWord(enc, iv, input, 1, 4 * q + 1),
                CipherWord(enc, iv, input, 1, 4 * q + 2), CipherWord(enc, iv, input, 1, 4 * q + 3))
  {
    hide Chained;
    assert 4 * q / 4 == q && 4 * q % 4 == 0;
    assert (4 * q + 1) / 4 == q && (4 * q + 1) % 4 == 1;
    assert (4 * q + 2) / 4 == q && (4 * q + 2) % 4 == 2;
    assert (4 * q + 3) / 4 == q && (4 * q + 3) % 4 == 3;
  }

  /** The key with `copies` columns of the encrypted copies of it added. */
  ghost predicate KeyOf(enc: BlockCipher, iv: Quad, input: seq<bv32>, copies: nat, p: seq<bv32>, c: seq<bv32>,
                        out: seq<bv32>)
    requires input != []
  {
    && Copies(input, p) && Cbc(enc, iv, p, c) && Span(copies, |input|) <= |c|
    && |out| == |input| && forall j :: 0 <= j < |input| ==> out[j] == input[j] ^ Column(c, |input|, j, copies)
  }

  lemma DerivedMeans(enc: BlockCipher, input: seq<bv32>, iter: nat)
    requires input != []
    ensures exists p: seq<bv32>, c: seq<bv32> ::
      KeyOf(enc, Quad(0, 0, 0, 0), input, iter, p, c, Derived(enc, input, iter))
  {
    hide Plain, CipherWord, KeyOf, Folded;
    var n := 4 * Span(iter, |input|);
    var p := seq(n, i requires 0 <= i < n => Plain(input, 1, i));
    var c := seq(n, i requires 0 <= i < n => CipherWord(enc, ZERO, input, 1, i));
    KeyParts(enc, ZERO, input, iter, p, c);
    assert KeyOf(enc, Quad(0, 0, 0, 0), input, iter, p, c, Derived(enc, input, iter));
  }

  lemma KeyParts(enc: BlockCipher, iv: Quad, input: seq<bv32>, copies: nat, p: seq<bv32>, c: seq<bv32>)
    requires input != [] && |p| == |c| >= Span(copies, |input|) && |c| % 4 == 0
    requires forall i :: 0 <= i < |p| ==> p[i] == Plain(input, 1, i)
    requires forall i :: 0 <= i < |c| ==> c[i] == CipherWord(enc, iv, input, 1, i)
    ensures KeyOf(enc, iv, input, copies, p, c, Folded(enc, iv, input, 1, input, Span(copies, |input|)))
    ensures forall q: nat :: 4 * q + 4 <= |c| ==> QuadAt(c, q) == Chained(enc, iv, input, 1, q)
  {
    hide CipherWord, Folded, Compressed, Cbc, Column, Key;
    ChainedCbc(enc, iv, input, p, c);
    CompressFolds(enc, iv, input, 1, input, c, Span(copies, |input|));
    forall j | 0 <= j < |input|
      ensures Folded(enc, iv, input, 1, input, Span(copies, |input|))[j] == input[j] ^ Column(c, |input|, j, copies)
    {
      FoldColumn(input, c, copies, j);
    }
  }

  // The code.

  /** The first n words are those of the cipher stream. */
  ghost predicate Encrypted(enc: BlockCipher, iv: Quad, input: seq<bv32>, key: nat, dst: seq<bv32>, n: nat)
  {
    input != [] && n <= |dst| && forall i :: 0 <= i < n ==> dst[i] == CipherWord(enc, iv, input, key, i)
  }

  /** The accelerator's task: CBC encryption of one buffer into another; returns the iv to go on with. */
  method Accelerate(enc: BlockCipher, src: array<bv32>, iv: Quad, dst: array<bv32>,
                    ghost input: seq<bv32>, ghost key: nat) returns (out: Quad)
    requires src != dst && src.Length == WORDS == dst.Length && input != [] && Expanded(src[..], input, key, WORDS)
    modifies dst
    ensures Encrypted(enc, iv, input, key, dst[..], WORDS)
    ensures out == Chained(enc, iv, input, key, WORDS / 4 - 1)
  {
    hide Plain, Mix, Expanded, Encrypted;
    out := iv;
    ghost var s := src[..];
    NothingEncrypted(enc, iv, input, key, dst[..]);
    var q := 0;
    while q < WORDS / 4
      invariant 0 <= q <= WORDS / 4 && src[..] == s
      invariant out == if q == 0 then iv else Chained(enc, iv, input, key, q - 1)
      invariant Encrypted(enc, iv, input, key, dst[..], 4 * q)
    {
      BlockOfStream(s, input, key, q);
      out := enc(Mix(Quad(src[4 * q], src[4 * q + 1], src[4 * q + 2], src[4 * q + 3]), out));
      StoreQuad(enc, iv, input, key, dst, q, out);
      q := q + 1;
    }
  }

  lemma NothingEncrypted(enc: BlockCipher, iv: Quad, input: seq<bv32>, key: nat, dst: seq<bv32>)
    requires input != []
    ensures Encrypted(enc, iv, input, key, dst, 0)
  {
  }

  method StoreQuad(ghost enc: BlockCipher, ghost iv: Quad, ghost input: seq<bv32>, ghost key: nat, dst: array<bv32>,
                   q: nat, w: Quad)
    requires input != [] && 4 * q + 4 <= dst.Length && w == Chained(enc, iv, input, key, q)
    requires Encrypted(enc, iv, input, key, dst[..], 4 * q)
    modifies dst
    ensures Encrypted(enc, iv, input, key, dst[..], 4 * q + 4)
  {
    hide Chained;
    forall k | 0 <= k < 4 {
      dst[4 * q + k] := At(w, k);
    }
    forall i | 4 * q <= i < 4 * q + 4
      ensures dst[i] == CipherWord(enc, iv, input, key, i)
    {
      assert i / 4 == q && i % 4 == i - 4 * q;
    }
  }

  lemma BlockOfStream(src: seq<bv32>, input: seq<bv32>, key: nat, q: nat)
    requires |src| == WORDS && input != [] && Expanded(src, input, key, WORDS) && q < WORDS / 4
    ensures Quad(src[4 * q], src[4 * q + 1], src[4 * q + 2], src[4 * q + 3]) == PlainQuad(input, key, q)
  {
    hide Plain;
  }

  /** One turn of the loop: expand, encrypt, fold `copies` blocks of the result into data. */
  method Batch(enc: BlockCipher, buf1: array<bv32>, buf2: array<bv32>, buffer2: array<bv32>, data: array<bv32>,
               xorKey: nat, iv: Quad, copies: nat, ghost m: nat) returns (key: nat, out: Quad)
    requires buf1 != buf2 && buf1 != data && buf2 != data && buf1 != buffer2 && buf2 != buffer2
    requires buf1.Length == WORDS == buf2.Length && data.Length == buffer2.Length > 0
    requires Span(m, data.Length) == WORDS && copies <= m && xorKey < WRAP
    modifies buf1, buf2, data
    ensures data[..] == Folded(enc, iv, old(buffer2[..]), xorKey, old(data[..]), Span(copies, data.Length))
    ensures key == (xorKey + m) % WRAP
    ensures out == Chained(enc, iv, old(buffer2[..]), xorKey, WORDS / 4 - 1)
    ensures buffer2 != data ==> buffer2[..] == old(buffer2[..])
  {
    hide Expanded, Chained, Span, Folded, Compressed, CipherWord;
    ghost var input, acc := buffer2[..], data[..];
    key := XorExpand(buf1, buffer2, xorKey, m);
    out := Accelerate(enc, buf1, iv, buf2, input, xorKey);
    SpanUp(copies, m, data.Length);
    CompressFolds(enc, iv, input, xorKey, acc, buf2[..], Span(copies, data.Length));
    XorCompress(buf2, copies * data.Length, data);
  }

  lemma SpanUp(a: nat, b: nat, l: nat)
    requires a <= b
    ensures Span(a, l) <= Span(b, l) && Span(a, l) == a * l
  {
    Difference(b, a, l);
    if a < b {
      Times(b - a, l);
    }
  }

  /** Version 1 masks the key derived so far in every batch, always starting from key 1. */
  function Legacy(enc: BlockCipher, iv: Quad, data: seq<bv32>, m: nat, iter: nat): seq<bv32>
    requires data != [] && m > 0
    decreases iter
  {
    if iter == 0 then data else
    var copies := if m >= iter then iter else m;
    Legacy(enc, Chained(enc, iv, data, 1, WORDS / 4 - 1), Folded(enc, iv, data, 1, data, Span(copies, |data|)), m,
           iter - copies)
  }

  /** Where a version 2 derivation stands after `done` copies, all batches so far full. */
  ghost predicate Standing(enc: BlockCipher, input: seq<bv32>, done: nat, q0: nat, xorkey: nat, iv: Quad)
    requires input != []
  {
    Span(done, |input|) == 4 * q0 && xorkey == (1 + done) % WRAP && iv == IvAt(enc, ZERO, input, 1, q0)
  }

  lemma NextStanding(enc: BlockCipher, input: seq<bv32>, done: nat, q0: nat, xorkey: nat, iv: Quad, m: nat)
    requires input != [] && Standing(enc, input, done, q0, xorkey, iv) && Span(m, |input|) == WORDS
    ensures Standing(enc, input, done + m, q0 + WORDS / 4, (xorkey + m) % WRAP,
                     Chained(enc, iv, input, xorkey, WORDS / 4 - 1))
  {
    hide Chained, Span;
    SpanAdds(done, m, |input|);
    ModAdd(1 + done, m, WRAP);
    ChainGoesOn(enc, ZERO, input, 1, done, q0, WORDS / 4 - 1);
  }

  lemma SpanAdds(a: nat, b: nat, l: nat)
    ensures Span(a + b, l) == Span(a, l) + Span(b, l)
  {
  }

  lemma StandingFolds(enc: BlockCipher, input: seq<bv32>, done: nat, q0: nat, xorkey: nat, iv: Quad, copies: nat)
    requires input != [] && Standing(enc, input, done, q0, xorkey, iv)
    ensures Folded(enc, iv, input, xorkey, Folded(enc, ZERO, input, 1, input, Span(done, |input|)),
                   Span(copies, |input|))
         == Folded(enc, ZERO, input, 1, input, Span(done + copies, |input|))
  {
    hide Span, Folded, IvAt;
    SpanAdds(done, copies, |input|);
    FoldGoesOn(enc, ZERO, input, 1, input, done, q0, Span(copies, |input|));
  }

  /** What the loop keeps, by version. */
  ghost predicate Kept(enc: BlockCipher, input: seq<bv32>, vers: nat, m: nat, iter: nat, left: nat,
                       q0: nat, xorkey: nat, iv: Quad, data: seq<bv32>)
  {
    && input != [] && |data| == |input| && left <= iter && m > 0 && Span(m, |input|) == WORDS
    && if vers >= 2 then
         && data == Folded(enc, ZERO, input, 1, input, Span(iter - left, |input|))
         && (left > 0 ==> Standing(enc, input, iter - left, q0, xorkey, iv))
       else
         xorkey == 1 && Legacy(enc, iv, data, m, left) == Legacy(enc, ZERO, input, m, iter)
  }

  lemma KeptStart(enc: BlockCipher, input: seq<bv32>, vers: nat, m: nat, iter: nat)
    requires input != [] && m == WORDS / |input| && WORDS % |input| == 0
    ensures Kept(enc, input, vers, m, iter, iter, 0, 1, ZERO, input)
  {
    hide Legacy;
  }

  lemma KeptEnd(enc: BlockCipher, input: seq<bv32>, vers: nat, m: nat, iter: nat, q0: nat, xorkey: nat, iv: Quad,
                data: seq<bv32>)
    requires Kept(enc, input, vers, m, iter, 0, q0, xorkey, iv, data)
    ensures vers >= 2 ==> data == Derived(enc, input, iter)
    ensures vers < 2 ==> data == Legacy(enc, ZERO, input, m, iter)
  {
    hide Folded, Standing;
  }

  /** A turn of the loop keeps it: `base` is what the batch masked. */
  lemma KeptNext(enc: BlockCipher, input: seq<bv32>, vers: nat, m: nat, iter: nat, left: nat, q0: nat, xorkey: nat,
                 iv: Quad,
                 data: seq<bv32>, base: seq<bv32>, copies: nat)
    requires Kept(enc, input, vers, m, iter, left, q0, xorkey, iv, data) && left > 0
    requires copies == if m >= left then left else m
    requires base == if vers >= 2 then input else data
    ensures Kept(enc, input, vers, m, iter, left - copies, q0 + WORDS / 4,
                 if vers >= 2 then (xorkey + m) % WRAP else xorkey,
                 Chained(enc, iv, base, xorkey, WORDS / 4 - 1),
                 Folded(enc, iv, base, xorkey, data, Span(copies, |input|)))
  {
    hide Chained, Folded, Span, Standing, Legacy;
    if vers >= 2 {
      StandingFolds(enc, input, iter - left, q0, xorkey, iv, copies);
      NextStanding(enc, input, iter - left, q0, xorkey, iv, m);
    } else {
      LegacyNext(enc, iv, data, m, left);
    }
  }

  /**
   A batch of version 1 masks the key so far from 1 on, and goes on with the last cipher block: the
   key after it, and the block, are what the rest is derived from.
   */
  lemma LegacyBatch(enc: BlockCipher, iv: Quad, data: seq<bv32>, m: nat, iter: nat)
    returns (p: seq<bv32>, c: seq<bv32>, next: seq<bv32>)
    requires data != [] && m > 0 && iter > 0 && Span(m, |data|) == WORDS
    ensures |c| == 1024 && var copies := if m >= iter then iter else m;
      && next != [] && KeyOf(enc, iv, data, copies, p, c, next)
      && Legacy(enc, iv, data, m, iter) == Legacy(enc, QuadAt(c, 255), next, m, iter - copies)
  {
    hide Plain, CipherWord, KeyOf, Folded, Legacy, Span, QuadAt, Chained;
    var copies := if m >= iter then iter else m;
    p := seq(WORDS, i requires 0 <= i < WORDS => Plain(data, 1, i));
    c := seq(WORDS, i requires 0 <= i < WORDS => CipherWord(enc, iv, data, 1, i));
    next := Folded(enc, iv, data, 1, data, Span(copies, |data|));
    SpanUp(copies, m, |data|);
    KeyParts(enc, iv, data, copies, p, c);
    LegacyNext(enc, iv, data, m, iter);
    assert QuadAt(c, 255) == Chained(enc, iv, data, 1, 255);
  }

  /** In one batch both versions derive the same. */
  lemma OneBatch(enc: BlockCipher, data: seq<bv32>, m: nat, iter: nat)
    requires data != [] && m > 0
    ensures iter <= m ==> Legacy(enc, ZERO, data, m, iter) == Derived(enc, data, iter)
  {
    hide Chained;
    if 0 < iter <= m {
      var next := Chained(enc, ZERO, data, 1, WORDS / 4 - 1);
      assert Legacy(enc, next, Folded(enc, ZERO, data, 1, data, Span(iter, |data|)), m, 0)
        == Folded(enc, ZERO, data, 1, data, Span(iter, |data|));
    }
  }

  /** The derivation in batches; from version 2 on the result is that of the unbatched definition. */
  method Derivation(enc: BlockCipher, data: array<bv32>, iter: nat, vers: nat)
    requires data.Length > 0 && WORDS % data.Length == 0
    modifies data
    ensures vers >= 2 ==> data[..] == Derived(enc, old(data[..]), iter)
    ensures vers >= 2 || iter <= WORDS / data.Length ==>
      exists p: seq<bv32>, c: seq<bv32> :: KeyOf(enc, Quad(0, 0, 0, 0), old(data[..]), iter, p, c, data[..])
    ensures vers < 2 ==> data[..] == Legacy(enc, ZERO, old(data[..]), WORDS / data.Length, iter)
  {
    hide Kept, Folded, Span, Chained, KeyOf, Legacy;
    DerivedMeans(enc, data[..], iter);
    OneBatch(enc, data[..], WORDS / data.Length, iter);
    var buf1, buf2 := new bv32[WORDS], new bv32[WORDS];
    var iv := ZERO;
    var nBlocks: nat := WORDS / data.Length;
    var xorkey: nat := 1;
    var buffer2 := data;
    ghost var input := data[..];
    if vers >= 2 {
      buffer2 := new bv32[data.Length](i requires 0 <= i < data.Length reads data => data[i]);
      assert buffer2[..] == input;
    }
    ghost var q0: nat := 0;
    KeptStart(enc, input, vers, nBlocks, iter);
    Blocks(input, nBlocks);
    var left: nat := iter;
    while left > 0
      invariant data.Length == |input| == buffer2.Length && xorkey < WRAP
      invariant if vers >= 2 then buffer2 != data && buffer2[..] == input else buffer2 == data
      invariant Kept(enc, input, vers, nBlocks, iter, left, q0, xorkey, iv, data[..])
    {
      var r4 := nBlocks;
      if r4 >= left {
        r4 := left;
      }
      KeptNext(enc, input, vers, nBlocks, iter, left, q0, xorkey, iv, data[..], buffer2[..], r4);
      var next, out := Batch(enc, buf1, buf2, buffer2, data, xorkey, iv, r4, nBlocks);
      if vers >= 2 {
        xorkey := next;
      }
      iv := out;
      left := left - r4;
      q0 := q0 + WORDS / 4;
    }
    KeptEnd(enc, input, vers, nBlocks, iter, q0, xorkey, iv, data[..]);
  }

  lemma Blocks(input: seq<bv32>, m: nat)
    requires input != [] && m == WORDS / |input| && WORDS % |input| == 0
    ensures m > 0 && Span(m, |input|) == WORDS
  {
  }

  lemma LegacyNext(enc: BlockCipher, iv: Quad, data: seq<bv32>, m: nat, iter: nat)
    requires data != [] && m > 0 && iter > 0
    ensures var copies := if m >= iter then iter else m;
      Legacy(enc, iv, data, m, iter)
      == Legacy(enc, Chained(enc, iv, data, 1, WORDS / 4 - 1), Folded(enc, iv, data, 1, data, Span(copies, |data|)), m,
                iter - copies)
  {
    hide Chained, Folded, Span;
  }
}
