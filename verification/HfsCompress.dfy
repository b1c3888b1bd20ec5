/**
 Compressed files: a block directory of separately compressed 64 KB pieces in the resource fork,
 or one piece in the attribute, read through a cache of one piece and written through a cache of
 the whole file. The compression functions are a parameter, known only to be inverse.
 */
module HfsCompress {
  import opened Bytes
  import opened Options

  type byte = bv8
  type uint32 = x: nat | x < 0x1_0000_0000

  const BLOCK: nat := 0x10000
  const HEAD: nat := 0x100
  const MAGIC: nat := 0x636D7066

  datatype Codec = Codec(compress: seq<byte> -> seq<byte>, uncompress: seq<byte> -> seq<byte>)
  datatype Block = Block(offset: uint32, size: uint32)
  datatype Decmpfs = Decmpfs(magic: uint32, flags: uint32, size: nat, data: seq<byte>)

  ghost predicate Inverse(z: Codec)
  {
    forall s {:trigger z.compress(s)} :: |s| <= BLOCK ==> z.uncompress(z.compress(s)) == s && |z.compress(s)| <= 72101
  }

  // Little-endian numbers.

  function LittleEndian(x: nat, n: nat): (r: seq<byte>)
    ensures |r| == n
  {
    if n == 0 then [] else [ToByte(x % 256)] + LittleEndian(x / 256, n - 1)
  }

  function LittleValue(s: seq<byte>): nat
  {
    if s == [] then 0 else ByteValue(s[0]) + 256 * LittleValue(s[1..])
  }

  lemma {:induction false} LittleBack(x: nat, n: nat)
    requires x < Pow256(n)
    ensures LittleValue(LittleEndian(x, n)) == x
  {
    if n > 0 {
      LittleBack(x / 256, n - 1);
      ByteBack(x % 256);
      assert LittleEndian(x, n)[1..] == LittleEndian(x / 256, n - 1);
    }
  }

  lemma WordBack(x: uint32)
    ensures LittleValue(LittleEndian(x, 4)) == x && Value(BigEndian(x, 4)) == x
  {
    assert Pow256(4) == 0x1_0000_0000 by {
      assert Pow256(2) == 0x10000;
    }
    LittleBack(x, 4);
    ValueBack(x, 4);
  }

  // Pieces of a file.

  function NumBlocks(n: nat): nat
  {
    (n + 0xFFFF) / BLOCK
  }

  function Piece(s: seq<byte>, i: nat): (r: seq<byte>)
    requires i < NumBlocks(|s|)
    ensures 0 < |r| <= BLOCK
  {
    s[BLOCK * i..if |s| - BLOCK * i > BLOCK then BLOCK * i + BLOCK else |s|]
  }

  lemma PieceIs(s: seq<byte>, i: nat)
    requires i < NumBlocks(|s|)
    ensures s[BLOCK * i..][..if |s| - BLOCK * i > BLOCK then BLOCK else |s| - BLOCK * i] == Piece(s, i)
    ensures NumBlocks(|s|) == 1 ==> Piece(s, i) == s
  {
  }

  /** Where a write that may lengthen a file leaves it; a gap is filled with zeros. */
  function Put(f: seq<byte>, at: nat, d: seq<byte>): (r: seq<byte>)
    ensures |r| == if at + |d| > |f| then at + |d| else |f|
  {
    var g := if at + |d| > |f| then f + Zeros(at + |d| - |f|) else f;
    g[..at] + d + g[at + |d|..]
  }

  /** A write is read back, and touches nothing beside it. */
  lemma PutAt(f: seq<byte>, at: nat, d: seq<byte>, lo: nat, hi: nat)
    requires lo <= hi <= |f| && (hi <= at || at + |d| <= lo)
    ensures Put(f, at, d)[at..at + |d|] == d && Put(f, at, d)[lo..hi] == f[lo..hi]
  {
    var g := if at + |d| > |f| then f + Zeros(at + |d| - |f|) else f;
    var r := g[..at] + d + g[at + |d|..];
    assert r[at..at + |d|] == d;
    assert g[lo..hi] == f[lo..hi];
    assert r[lo..hi] == g[lo..hi];
  }

  // What is stored.

  /** Part of a fork, if it is there. */
  predicate Has(fork: seq<byte>, at: nat, d: seq<byte>)
  {
    at + |d| <= |fork| && fork[at..at + |d|] == d
  }

  /** The directory entries lead to the compressed pieces of s. */
  ghost predicate Leads(z: Codec, fork: seq<byte>, head: nat, blocks: seq<Block>, s: seq<byte>)
  {
    && |blocks| == NumBlocks(|s|)
    && forall i {:trigger blocks[i]} :: 0 <= i < |blocks| ==>
      && head + 4 + blocks[i].offset + blocks[i].size <= |fork|
      && z.uncompress(fork[head + 4 + blocks[i].offset..][..blocks[i].size]) == Piece(s, i)
  }

  /** The directory as it lies in the fork. */
  predicate Directory(fork: seq<byte>, head: nat, blocks: seq<Block>)
  {
    && head + 8 + 8 * |blocks| <= |fork|
    && LittleValue(fork[head + 4..][..4]) == |blocks|
    && forall i {:trigger blocks[i]} :: 0 <= i < |blocks| ==>
      && LittleValue(fork[head + 8 + 8 * i..][..4]) == blocks[i].offset
      && LittleValue(fork[head + 12 + 8 * i..][..4]) == blocks[i].size
  }

  /** The attribute and the fork hold the file s. */
  ghost predicate Stores(z: Codec, attribute: Decmpfs, fork: seq<byte>, s: seq<byte>)
  {
    && attribute.size == |s|
    && if attribute.flags == 3 then z.uncompress(attribute.data) == s
       else |fork| >= 16 && exists blocks ::
         Directory(fork, Value(fork[..4]), blocks) && Leads(z, fork, Value(fork[..4]), blocks, s)
  }

  /** They hold no other. */
  lemma StoresOne(z: Codec, attribute: Decmpfs, fork: seq<byte>, s: seq<byte>, t: seq<byte>)
    requires Stores(z, attribute, fork, s) && Stores(z, attribute, fork, t)
    ensures s == t
  {
    if attribute.flags != 3 {
      var head := Value(fork[..4]);
      var a :| Directory(fork, head, a) && Leads(z, fork, head, a, s);
      var b :| Directory(fork, head, b) && Leads(z, fork, head, b, t);
      assert a == b by {
        assert forall i :: 0 <= i < |a| ==> a[i] == b[i];
      }
      forall x | 0 <= x < |s|
        ensures s[x] == t[x]
      {
        InPiece(s, x);
        InPiece(t, x);
        assert a[x / BLOCK] == b[x / BLOCK];
      }
    }
  }

  lemma InPiece(s: seq<byte>, x: nat)
    requires x < |s|
    ensures x / BLOCK < NumBlocks(|s|) && x % BLOCK < |Piece(s, x / BLOCK)| && Piece(s, x / BLOCK)[x % BLOCK] == s[x]
  {
  }

  /** What a write leaves of a file: d at a position, the rest as it was. */
  function Spliced(s: seq<byte>, at: nat, d: seq<byte>): (r: seq<byte>)
    requires at <= |s|
    ensures |r| == if at + |d| <= |s| then |s| else at + |d|
    ensures forall k :: 0 <= k < |r| ==> r[k] == if at <= k < at + |d| then d[k - at] else s[k]
  {
    s[..at] + d + if at + |d| <= |s| then s[at + |d|..] else []
  }

  lemma SliceOf(s: seq<byte>, lo: nat, hi: nat, at: nat, n: nat)
    requires lo <= at && at + n <= hi <= |s|
    ensures s[lo..hi][at - lo..][..n] == s[at..at + n]
  {
  }

  /** A buffer into which the first n bytes from a position have been read. */
  ghost function Filled(s: seq<byte>, location: nat, n: nat, was: seq<byte>): seq<byte>
    requires location + n <= |s| && n <= |was|
  {
    s[location..location + n] + was[n..]
  }

  lemma NoneFilled(s: seq<byte>, location: nat, was: seq<byte>)
    requires location <= |s|
    ensures Filled(s, location, 0, was) == was
  {
  }

  lemma MoreFilled(s: seq<byte>, location: nat, at: nat, n: nat, was: seq<byte>)
    requires location + at + n <= |s| && at + n <= |was|
    ensures |Filled(s, location, at, was)| == |was|
    ensures var before := Filled(s, location, at, was);
      before[..at] + s[location + at..location + at + n] + before[at + n..] == Filled(s, location, at + n, was)
  {
    assert Filled(s, location, at, was)[..at] + s[location + at..location + at + n] == s[location..location + at + n];
  }

  /** What a file is lengthened by does not matter when the write covers it. */
  lemma SplicedLong(s: seq<byte>, more: seq<byte>, at: nat, d: seq<byte>)
    requires at <= |s| && at + |d| == |s| + |more|
    ensures Spliced(s + more, at, d) == s[..at] + d
    ensures |more| > 0 ==> Spliced(s, at, d) == s[..at] + d
  {
  }

  // Writing a file out.

  /** The bytes the first i compressed pieces take. */
  ghost function Packed(z: Codec, s: seq<byte>, i: nat): nat
    requires i <= NumBlocks(|s|)
  {
    if i == 0 then 0 else Packed(z, s, i - 1) + |z.compress(Piece(s, i - 1))|
  }

  lemma PackedNext(z: Codec, s: seq<byte>, i: nat)
    requires i < NumBlocks(|s|)
    ensures Packed(z, s, 0) == 0 && Packed(z, s, i + 1) == Packed(z, s, i) + |z.compress(Piece(s, i))|
  {
  }

  /** Every position in the fork is below 2^32. */
  ghost predicate Fits(z: Codec, s: seq<byte>)
  {
    HEAD + 8 + 8 * NumBlocks(|s|) + Packed(z, s, NumBlocks(|s|)) < 0x1_0000_0000
  }

  lemma {:induction false} PackedGrows(z: Codec, s: seq<byte>, i: nat, j: nat)
    requires i <= j <= NumBlocks(|s|)
    ensures Packed(z, s, i) <= Packed(z, s, j)
    decreases j
  {
    if i < j {
      PackedGrows(z, s, i, j - 1);
    }
  }

  /** A file goes into the attribute alone when it is one piece and compresses to at most 3556 bytes. */
  ghost predicate Inline(z: Codec, s: seq<byte>)
  {
    NumBlocks(|s|) <= 1 && |z.compress(s)| <= 3556
  }

  function Entry(b: Block): (r: seq<byte>)
    ensures |r| == 8
  {
    LittleEndian(b.offset, 4) + LittleEndian(b.size, 4)
  }

  function Entries(blocks: seq<Block>): (r: seq<byte>)
    ensures |r| == 8 * |blocks|
  {
    if blocks == [] then [] else Entries(blocks[..|blocks| - 1]) + Entry(blocks[|blocks| - 1])
  }

  lemma {:induction false} EntryAt(blocks: seq<Block>, i: nat)
    requires i < |blocks|
    ensures Entries(blocks)[8 * i..8 * i + 8] == Entry(blocks[i])
  {
    var n := |blocks| - 1;
    if i < n {
      EntryAt(blocks[..n], i);
      assert Entries(blocks)[8 * i..8 * i + 8] == Entries(blocks[..n])[8 * i..8 * i + 8];
    }
  }

  /** The directory: its length, the number of entries, the entries. */
  function Table(dataSize: uint32, blocks: seq<Block>): (r: seq<byte>)
    requires |blocks| < 0x1_0000_0000
    ensures |r| == 8 + 8 * |blocks|
  {
    BigEndian(dataSize, 4) + LittleEndian(|blocks|, 4) + Entries(blocks)
  }

  function Header(headerSize: uint32, totalSize: uint32, dataSize: uint32): (r: seq<byte>)
    ensures |r| == 16
  {
    BigEndian(headerSize, 4) + BigEndian(totalSize, 4) + BigEndian(dataSize, 4) + BigEndian(0x32, 4)
  }

  function Trailer(): (r: seq<byte>)
    ensures |r| == 50
  {
    Zeros(24) + BigEndian(0x1C, 2) + BigEndian(0x32, 2) + BigEndian(0, 2) + BigEndian(MAGIC, 4) + BigEndian(0xA, 4)
    + LittleEndian(0xFFFF01, 8) + LittleEndian(0, 4)
  }

  lemma Within(fork: seq<byte>, at: nat, d: seq<byte>, a: nat, n: nat)
    requires Has(fork, at, d) && a + n <= |d|
    ensures fork[at + a..][..n] == d[a..a + n]
  {
    var l, r := fork[at + a..][..n], d[a..a + n];
    forall k | 0 <= k < n
      ensures l[k] == r[k]
    {
      assert fork[at..at + |d|][a + k] == fork[at + a + k];
    }
  }

  lemma EntryIn(dataSize: uint32, blocks: seq<Block>, i: nat)
    requires i < |blocks| < 0x1_0000_0000
    ensures Table(dataSize, blocks)[8 + 8 * i..12 + 8 * i] == LittleEndian(blocks[i].offset, 4)
    ensures Table(dataSize, blocks)[12 + 8 * i..16 + 8 * i] == LittleEndian(blocks[i].size, 4)
  {
    hide LittleEndian, BigEndian, Entries;
    EntryAt(blocks, i);
    var t, e := Table(dataSize, blocks), Entry(blocks[i]);
    assert t[8 + 8 * i..16 + 8 * i] == Entries(blocks)[8 * i..8 * i + 8] == e;
    assert t[8 + 8 * i..12 + 8 * i] == e[..4] && t[12 + 8 * i..16 + 8 * i] == e[4..];
  }

  lemma CountIn(dataSize: uint32, blocks: seq<Block>)
    requires |blocks| < 0x1_0000_0000
    ensures Table(dataSize, blocks)[4..8] == LittleEndian(|blocks|, 4)
  {
    hide LittleEndian, BigEndian, Entries;
  }

  lemma TableEntry(fork: seq<byte>, head: nat, dataSize: uint32, blocks: seq<Block>, i: nat)
    requires i < |blocks| < 0x1_0000_0000 && Has(fork, head, Table(dataSize, blocks))
    ensures LittleValue(fork[head + 8 + 8 * i..][..4]) == blocks[i].offset
    ensures LittleValue(fork[head + 12 + 8 * i..][..4]) == blocks[i].size
  {
    hide LittleEndian, LittleValue, BigEndian, Entries, Table, Has;
    var t, a, b := Table(dataSize, blocks), 8 + 8 * i, 12 + 8 * i;
    EntryIn(dataSize, blocks, i);
    Within(fork, head, t, a, 4);
    Within(fork, head, t, b, 4);
    WordBack(blocks[i].offset);
    WordBack(blocks[i].size);
  }

  lemma TableAt(fork: seq<byte>, head: nat, dataSize: uint32, blocks: seq<Block>)
    requires |blocks| < 0x1_0000_0000 && Has(fork, head, Table(dataSize, blocks))
    ensures Directory(fork, head, blocks)
  {
    hide LittleEndian, LittleValue, BigEndian, Entries, Table;
    Within(fork, head, Table(dataSize, blocks), 4, 4);
    CountIn(dataSize, blocks);
    WordBack(|blocks|);
    forall i {:trigger blocks[i]} | 0 <= i < |blocks|
      ensures LittleValue(fork[head + 8 + 8 * i..][..4]) == blocks[i].offset
      ensures LittleValue(fork[head + 12 + 8 * i..][..4]) == blocks[i].size
    {
      TableEntry(fork, head, dataSize, blocks, i);
    }
  }

  /** The first pieces lie one behind the other from the end of the directory. */
  ghost predicate LaidOut(z: Codec, fork: seq<byte>, blocks: seq<Block>, s: seq<byte>)
    requires |blocks| <= NumBlocks(|s|)
  {
    forall i {:trigger blocks[i]} :: 0 <= i < |blocks| ==>
      && blocks[i].offset == 4 + 8 * NumBlocks(|s|) + Packed(z, s, i)
      && blocks[i].size == |z.compress(Piece(s, i))|
      && Has(fork, HEAD + 4 + blocks[i].offset, z.compress(Piece(s, i)))
  }

  lemma LayNext(z: Codec, fork: seq<byte>, blocks: seq<Block>, s: seq<byte>, b: Block)
    requires |blocks| < NumBlocks(|s|) && LaidOut(z, fork, blocks, s)
    requires b.offset == 4 + 8 * NumBlocks(|s|) + Packed(z, s, |blocks|) && b.size == |z.compress(Piece(s, |blocks|))|
    ensures LaidOut(z, Put(fork, HEAD + 4 + b.offset, z.compress(Piece(s, |blocks|))), blocks + [b], s)
  {
    hide Put, Packed, Piece;
    var n := |blocks|;
    var at, d := HEAD + 4 + b.offset, z.compress(Piece(s, n));
    var after := Put(fork, at, d);
    forall i | 0 <= i <= n
      ensures Has(after, HEAD + 4 + (blocks + [b])[i].offset, z.compress(Piece(s, i)))
    {
      if i < n {
        PackedTo(z, s, i, n);
        assert blocks[i] == blocks[i];
        var lo := HEAD + 4 + blocks[i].offset;
        PutAt(fork, at, d, lo, lo + |z.compress(Piece(s, i))|);
      } else {
        PutAt(fork, at, d, 0, 0);
      }
    }
  }

  lemma PackedTo(z: Codec, s: seq<byte>, i: nat, j: nat)
    requires i < j <= NumBlocks(|s|)
    ensures Packed(z, s, i) + |z.compress(Piece(s, i))| <= Packed(z, s, j)
  {
    PackedGrows(z, s, i + 1, j);
  }

  lemma NothingLaid(z: Codec, fork: seq<byte>, s: seq<byte>)
    ensures LaidOut(z, fork, [], s) && Packed(z, s, 0) == 0
  {
  }

  lemma InlineIff(z: Codec, s: seq<byte>)
    requires s != []
    ensures Inline(z, s) <==> NumBlocks(|s|) <= 1 && |z.compress(Piece(s, 0))| <= 3556
  {
    PieceIs(s, 0);
  }

  /** A write outside the pieces leaves them. */
  lemma LaidStays(z: Codec, fork: seq<byte>, blocks: seq<Block>, s: seq<byte>, at: nat, d: seq<byte>)
    requires |blocks| == NumBlocks(|s|) && LaidOut(z, fork, blocks, s)
    requires at + |d| <= HEAD + 8 + 8 * |blocks| || HEAD + 8 + 8 * |blocks| + Packed(z, s, |blocks|) <= at
    ensures LaidOut(z, Put(fork, at, d), blocks, s)
  {
    forall i | 0 <= i < |blocks|
      ensures Has(Put(fork, at, d), HEAD + 4 + blocks[i].offset, z.compress(Piece(s, i)))
    {
      PackedGrows(z, s, i + 1, |blocks|);
      var lo := HEAD + 4 + blocks[i].offset;
      PutAt(fork, at, d, lo, lo + |z.compress(Piece(s, i))|);
    }
  }

  lemma LaidLeads(z: Codec, fork: seq<byte>, blocks: seq<Block>, s: seq<byte>)
    requires Inverse(z) && |blocks| == NumBlocks(|s|) && LaidOut(z, fork, blocks, s)
    ensures Leads(z, fork, HEAD, blocks, s)
  {
    forall i {:trigger blocks[i]} | 0 <= i < |blocks|
      ensures HEAD + 4 + blocks[i].offset + blocks[i].size <= |fork|
      ensures z.uncompress(fork[HEAD + 4 + blocks[i].offset..][..blocks[i].size]) == Piece(s, i)
    {
      var lo, d := HEAD + 4 + blocks[i].offset, z.compress(Piece(s, i));
      assert fork[lo..][..|d|] == fork[lo..lo + |d|] == d;
    }
  }

  /** Header, directory and trailer around the pieces make the file. */
  lemma Finished(z: Codec, fork: seq<byte>, blocks: seq<Block>, s: seq<byte>, head: seq<byte>, dataSize: uint32,
                 total: nat)
    requires Inverse(z) && s != [] && |s| < 0x1_0000_0000
    requires |blocks| == NumBlocks(|s|) && LaidOut(z, fork, blocks, s)
    requires |head| == 16 && head[..4] == BigEndian(HEAD, 4)
      && total == HEAD + 8 + 8 * |blocks| + Packed(z, s, |blocks|)
    ensures |blocks| < 0x1_0000_0000
    ensures var after := Put(Put(Put(fork, 0, head), HEAD, Table(dataSize, blocks)), total, Trailer());
      && Stores(z, Decmpfs(MAGIC, 4, |s|, []), after, s)
      && Has(after, 0, head) && Has(after, HEAD, Table(dataSize, blocks)) && Has(after, total, Trailer())
      && LaidOut(z, after, blocks, s)
  {
    var t := Table(dataSize, blocks);
    FinishedHead(fork, head, t, total);
    FinishedParts(fork, head, t, total);
    hide Has, LaidOut, Leads, Directory, Put, Packed, BigEndian, Trailer, Table, Value;
    var fork1 := Put(fork, 0, head);
    var fork2 := Put(fork1, HEAD, t);
    var fork3 := Put(fork2, total, Trailer());
    LaidStays(z, fork, blocks, s, 0, head);
    LaidStays(z, fork1, blocks, s, HEAD, t);
    LaidStays(z, fork2, blocks, s, total, Trailer());
    LaidLeads(z, fork3, blocks, s);
    TableAt(fork3, HEAD, dataSize, blocks);
  }

  lemma HasPut(f: seq<byte>, at: nat, d: seq<byte>, lo: nat, e: seq<byte>)
    ensures Has(Put(f, at, d), at, d)
    ensures Has(f, lo, e) && (lo + |e| <= at || at + |d| <= lo) ==> Has(Put(f, at, d), lo, e)
  {
    PutAt(f, at, d, 0, 0);
    if Has(f, lo, e) && (lo + |e| <= at || at + |d| <= lo) {
      PutAt(f, at, d, lo, lo + |e|);
    }
    hide Put;
  }

  lemma FinishedParts(fork: seq<byte>, head: seq<byte>, t: seq<byte>, total: nat)
    requires |head| == 16 && HEAD + |t| <= total
    ensures var after := Put(Put(Put(fork, 0, head), HEAD, t), total, Trailer());
      Has(after, 0, head) && Has(after, HEAD, t) && Has(after, total, Trailer())
  {
    hide Put, Trailer, Has;
    var fork1 := Put(fork, 0, head);
    var fork2 := Put(fork1, HEAD, t);
    HasPut(fork, 0, head, 0, head);
    HasPut(fork1, HEAD, t, 0, head);
    HasPut(fork2, total, Trailer(), 0, head);
    HasPut(fork2, total, Trailer(), HEAD, t);
  }

  lemma FinishedHead(fork: seq<byte>, head: seq<byte>, t: seq<byte>, total: nat)
    requires |head| == 16 && head[..4] == BigEndian(HEAD, 4) && HEAD + |t| <= total
    ensures var after := Put(Put(Put(fork, 0, head), HEAD, t), total, Trailer());
      |after| >= 16 && Value(after[..4]) == HEAD && Has(after, HEAD, t)
  {
    hide Put, BigEndian, Trailer, Value;
    var fork1 := Put(fork, 0, head);
    var fork2 := Put(fork1, HEAD, t);
    var fork3 := Put(fork2, total, Trailer());
    PutAt(fork, 0, head, 0, 0);
    PutAt(fork1, HEAD, t, 0, 16);
    PutAt(fork2, total, Trailer(), HEAD, HEAD + |t|);
    PutAt(fork2, total, Trailer(), 0, 16);
    assert fork3[0..16] == fork1[0..16] == head;
    assert fork3[..4] == fork3[0..16][..4];
    WordBack(HEAD);
  }

  // The stored form, field by field.

  /** A number of n bytes in the fork, most significant first, or last. */
  predicate Big(fork: seq<byte>, at: nat, n: nat, x: nat)
  {
    at + n <= |fork| && Value(fork[at..][..n]) == x
  }

  predicate Little(fork: seq<byte>, at: nat, n: nat, x: nat)
  {
    at + n <= |fork| && LittleValue(fork[at..][..n]) == x
  }

  lemma BigField(fork: seq<byte>, at: nat, d: seq<byte>, a: nat, n: nat, x: nat)
    requires Has(fork, at, d) && a + n <= |d| && d[a..a + n] == BigEndian(x, n) && x < Pow256(n)
    ensures Big(fork, at + a, n, x)
  {
    hide Value, BigEndian, Pow256;
    Within(fork, at, d, a, n);
    ValueBack(x, n);
  }

  lemma LittleField(fork: seq<byte>, at: nat, d: seq<byte>, a: nat, n: nat, x: nat)
    requires Has(fork, at, d) && a + n <= |d| && d[a..a + n] == LittleEndian(x, n) && x < Pow256(n)
    ensures Little(fork, at + a, n, x)
  {
    hide LittleValue, LittleEndian, Pow256;
    Within(fork, at, d, a, n);
    LittleBack(x, n);
  }

  /** The sixteen bytes at the start: place of the directory, place of the trailer, bytes between, flags. */
  ghost predicate HeaderFields(fork: seq<byte>, dataSize: nat)
  {
    && Big(fork, 0, 4, 0x100) && Big(fork, 4, 4, 0x100 + dataSize)
    && Big(fork, 8, 4, dataSize) && Big(fork, 12, 4, 0x32)
  }

  /** The directory at 0x100: its size without its first word, and the number of entries. */
  ghost predicate DirectoryFields(fork: seq<byte>, dataSize: nat, n: nat)
  {
    dataSize >= 4 && Big(fork, 0x100, 4, dataSize - 4) && Little(fork, 0x104, 4, n)
  }

  /** The fifty bytes at the end. */
  ghost predicate TrailerFields(fork: seq<byte>, at: nat)
  {
    && at + 50 <= |fork| && (forall k :: at <= k < at + 24 ==> fork[k] == 0)
    && Big(fork, at + 24, 2, 0x1C) && Big(fork, at + 26, 2, 0x32) && Big(fork, at + 28, 2, 0)
    && Big(fork, at + 30, 4, 0x636D7066) && Big(fork, at + 34, 4, 0xA)
    && Little(fork, at + 38, 8, 0xFFFF01) && Little(fork, at + 46, 4, 0)
  }

  /** Entry i of the directory, and the compressed piece it leads to, counted from 0x104. */
  ghost predicate PieceAt(z: Codec, fork: seq<byte>, s: seq<byte>, i: nat, offset: nat)
    requires 0x10000 * i < |s|
  {
    var d := z.compress(s[0x10000 * i..if |s| < 0x10000 * i + 0x10000 then |s| else 0x10000 * i + 0x10000]);
    && Little(fork, 0x108 + 8 * i, 4, offset) && Little(fork, 0x10C + 8 * i, 4, |d|)
    && Has(fork, 0x104 + offset, d)
  }

  /** The fork holds a file in pieces of 64 KB, the compressed pieces one behind the other. */
  ghost predicate OnDisk(z: Codec, fork: seq<byte>, s: seq<byte>, dataSize: nat)
  {
    var n := (|s| + 0xFFFF) / 0x10000;
    && dataSize == 8 + 8 * n + Packed(z, s, n)
    && HeaderFields(fork, dataSize) && DirectoryFields(fork, dataSize, n) && TrailerFields(fork, 0x100 + dataSize)
    && forall i: nat :: i < n ==> PieceAt(z, fork, s, i, 4 + 8 * n + Packed(z, s, i))
  }

  lemma HeaderParts(headerSize: uint32, totalSize: uint32, dataSize: uint32)
    ensures var h := Header(headerSize, totalSize, dataSize);
      && h[0..4] == BigEndian(headerSize, 4) && h[4..8] == BigEndian(totalSize, 4)
      && h[8..12] == BigEndian(dataSize, 4) && h[12..16] == BigEndian(0x32, 4)
  {
    hide BigEndian;
  }

  lemma HeaderIs(fork: seq<byte>, dataSize: uint32)
    requires 0x100 + dataSize < 0x1_0000_0000 && Has(fork, 0, Header(0x100, 0x100 + dataSize, dataSize))
    ensures HeaderFields(fork, dataSize)
  {
    hide BigEndian, Value, Has, Big;
    Powers();
    var h := Header(0x100, 0x100 + dataSize, dataSize);
    HeaderParts(0x100, 0x100 + dataSize, dataSize);
    BigField(fork, 0, h, 0, 4, 0x100);
    BigField(fork, 0, h, 4, 4, 0x100 + dataSize);
    BigField(fork, 0, h, 8, 4, dataSize);
    BigField(fork, 0, h, 12, 4, 0x32);
  }

  lemma DirectoryIs(fork: seq<byte>, dataSize: uint32, blocks: seq<Block>)
    requires dataSize >= 4 && |blocks| < 0x1_0000_0000 && Has(fork, 0x100, Table(dataSize - 4, blocks))
    ensures DirectoryFields(fork, dataSize, |blocks|)
  {
    hide BigEndian, LittleEndian, Value, LittleValue, Has, Big, Little, Entries;
    Powers();
    var t := Table(dataSize - 4, blocks);
    BigField(fork, 0x100, t, 0, 4, dataSize - 4);
    LittleField(fork, 0x100, t, 4, 4, |blocks|);
  }

  lemma TrailerIs(fork: seq<byte>, at: nat)
    requires Has(fork, at, Trailer())
    ensures TrailerFields(fork, at)
  {
    Powers();
    var t := Trailer();
    TrailerZeros(fork, at);
    hide BigEndian, LittleEndian, Value, LittleValue, Has, Big, Little, Pow256;
    TrailerParts();
    BigField(fork, at, t, 24, 2, 0x1C);
    BigField(fork, at, t, 26, 2, 0x32);
    BigField(fork, at, t, 28, 2, 0);
    BigField(fork, at, t, 30, 4, 0x636D7066);
    BigField(fork, at, t, 34, 4, 0xA);
    LittleField(fork, at, t, 38, 8, 0xFFFF01);
    LittleField(fork, at, t, 46, 4, 0);
  }

  lemma TrailerParts()
    ensures var t := Trailer();
      && t[24..26] == BigEndian(0x1C, 2) && t[26..28] == BigEndian(0x32, 2) && t[28..30] == BigEndian(0, 2)
      && t[30..34] == BigEndian(0x636D7066, 4) && t[34..38] == BigEndian(0xA, 4)
      && t[38..46] == LittleEndian(0xFFFF01, 8) && t[46..50] == LittleEndian(0, 4)
  {
    hide BigEndian, LittleEndian;
    var a, b := LittleEndian(0xFFFF01, 8), LittleEndian(0, 4);
    assert Trailer()[38..] == a + b;
    assert (a + b)[..8] == a && (a + b)[8..] == b;
  }

  lemma TrailerZeros(fork: seq<byte>, at: nat)
    requires Has(fork, at, Trailer())
    ensures at + 50 <= |fork| && forall k :: at <= k < at + 24 ==> fork[k] == 0
  {
    hide BigEndian, LittleEndian;
    forall k | at <= k < at + 24
      ensures fork[k] == 0
    {
      assert fork[at..at + 50][k - at] == Trailer()[k - at];
    }
  }

  lemma PieceIsAt(z: Codec, fork: seq<byte>, blocks: seq<Block>, s: seq<byte>, dataSize: uint32, i: nat)
    requires i < |blocks| == NumBlocks(|s|) && |blocks| < 0x1_0000_0000 && LaidOut(z, fork, blocks, s)
    requires Has(fork, HEAD, Table(dataSize, blocks))
    ensures 0x10000 * i < |s| && PieceAt(z, fork, s, i, 4 + 8 * |blocks| + Packed(z, s, i))
  {
    hide Packed, Table, LittleValue, Value;
    TableEntry(fork, HEAD, dataSize, blocks, i);
    assert blocks[i] == blocks[i];
    PieceIs(s, i);
  }

  /** What is in the fork after the last write. */
  lemma WrittenForm(z: Codec, fork: seq<byte>, blocks: seq<Block>, s: seq<byte>, dataSize: uint32)
    requires s != [] && |blocks| == NumBlocks(|s|) < 0x1_0000_0000 && LaidOut(z, fork, blocks, s)
    requires dataSize == 8 + 8 * |blocks| + Packed(z, s, |blocks|) && 0x100 + dataSize < 0x1_0000_0000
    requires Has(fork, 0, Header(0x100, 0x100 + dataSize, dataSize)) && Has(fork, HEAD, Table(dataSize - 4, blocks))
    requires Has(fork, 0x100 + dataSize, Trailer())
    ensures OnDisk(z, fork, s, dataSize)
  {
    hide Header, Table, Trailer, Has, LaidOut, Packed, HeaderFields, DirectoryFields, TrailerFields, PieceAt;
    HeaderIs(fork, dataSize);
    DirectoryIs(fork, dataSize, blocks);
    TrailerIs(fork, 0x100 + dataSize);
    forall i: nat | i < |blocks|
      ensures 0x10000 * i < |s| && PieceAt(z, fork, s, i, 4 + 8 * |blocks| + Packed(z, s, i))
    {
      PieceIsAt(z, fork, blocks, s, dataSize - 4, i);
    }
  }

  method Copy(buffer: array<byte>, at: nat, piece: seq<byte>)
    requires at + |piece| <= buffer.Length
    modifies buffer
    ensures buffer[..] == old(buffer[..])[..at] + piece + old(buffer[..])[at + |piece|..]
  {
    forall k | 0 <= k < |piece| {
      buffer[at + k] := piece[k];
    }
  }

  /** The three last writes of a file that has gone to the fork. */
  lemma ClosedFork(z: Codec, fork: seq<byte>, list: seq<Block>, s: seq<byte>, head: seq<byte>, table: seq<byte>,
                   dataSize: uint32, total: uint32)
    requires Inverse(z) && s != [] && |s| < 0x1_0000_0000
    requires |list| == NumBlocks(|s|) < 0x1_0000_0000 && LaidOut(z, fork, list, s)
    requires dataSize == 8 + 8 * |list| + Packed(z, s, |list|) && total == 0x100 + dataSize
    requires head == Header(0x100, total, dataSize) && table == Table(dataSize - 4, list)
    ensures var after := Put(Put(Put(fork, 0, head), 0x100, table), total, Trailer());
      Stores(z, Decmpfs(MAGIC, 4, |s|, []), after, s) && OnDisk(z, after, s, dataSize)
  {
    hide Inverse, LaidOut, Put, Packed, Header, Table, Trailer, Stores, OnDisk, Has, NumBlocks, BigEndian,
         LittleEndian, Entries, Piece, Value;
    HeaderParts(0x100, total, dataSize);
    Finished(z, fork, list, s, head, dataSize - 4, total);
    WrittenForm(z, Put(Put(Put(fork, 0, head), 0x100, table), total, Trailer()), list, s, dataSize);
  }

  lemma InlineSmall(z: Codec, s: seq<byte>)
    ensures Inline(z, s) <==> |s| <= 0x10000 && |z.compress(s)| + 16 + 524 <= 0x1000
  {
  }

  lemma InlineStores(z: Codec, s: seq<byte>)
    requires Inverse(z) && Inline(z, s) && s != [] && |s| < 0x1_0000_0000
    ensures forall fork :: Stores(z, Decmpfs(MAGIC, 3, |s|, z.compress(s)), fork, s)
  {
    assert |s| <= BLOCK;
  }

  /** The attribute and the resource fork of a file on the volume. */
  class Store {
    var attribute: Option<Decmpfs>
    var fork: seq<byte>

    /** The file stored, with an absent attribute for a file that was never compressed. */
    ghost predicate Keeps(z: Codec, s: seq<byte>)
      reads this
    {
      if attribute.None? then s == [] else Stores(z, attribute.value, fork, s)
    }
  }

  class Compressed {
    const z: Codec
    const store: Store
    var decmpfs: Decmpfs
    var headerSize: uint32
    var blocks: Option<seq<Block>>
    var dirty: bool
    var cached: Option<seq<byte>>
    var cachedStart: uint32
    var cachedEnd: uint32
    ghost var contents: seq<byte>

    predicate Cached(loc: nat)
      reads this
    {
      cached.Some? && cachedStart <= loc < cachedEnd
    }

    /** The whole file is cached. */
    predicate Whole()
      reads this
    {
      cachedStart == 0 && cachedEnd == decmpfs.size && (cached.None? ==> cachedEnd == 0)
    }

    ghost predicate Valid()
      reads this, store
    {
      && Inverse(z) && |contents| == decmpfs.size < 0x1_0000_0000
      && (cached.None? ==> cachedStart == cachedEnd == 0)
      && (cached.Some? ==> cachedStart <= cachedEnd <= |contents| && cached.value == contents[cachedStart..cachedEnd])
      && (Whole() || (blocks.Some? && Leads(z, store.fork, headerSize, blocks.value, contents)))
      && (dirty ==> Whole())
      && (!dirty ==> store.Keeps(z, contents))
    }

    /** Opens the file s that the volume holds. */
    constructor (z: Codec, store: Store, ghost s: seq<byte>)
      requires Inverse(z) && store.Keeps(z, s) && |s| < 0x1_0000_0000
      ensures Valid() && contents == s && this.store == store && this.z == z && !dirty
    {
      this.z, this.store := z, store;
      cached, cachedStart, cachedEnd := None, 0, 0;
      blocks, dirty, headerSize := None, false, 0;
      contents := s;
      if store.attribute.None? {
        decmpfs := Decmpfs(0, 0, 0, []);
      } else {
        decmpfs := store.attribute.value;
        if store.attribute.value.flags == 3 {
          var whole := z.uncompress(store.attribute.value.data);
          cached, cachedStart, cachedEnd := Some(whole), 0, |whole|;
        } else {
          var fork := store.fork;
          ghost var there :| Directory(fork, Value(fork[..4]), there) && Leads(z, fork, Value(fork[..4]), there, s);
          var head := Value(fork[..4]);
          WordSmall(fork[..4]);
          var read := ReadDirectory(fork, head, there);
          headerSize, blocks := head, Some(read);
        }
      }
    }

    /** Copies part of the file into the buffer, through the cache. */
    method Read(location: nat, size: nat, buffer: array<byte>)
      requires Valid() && location + size <= |contents| && size <= buffer.Length
      modifies this`cached, this`cachedStart, this`cachedEnd, buffer
      ensures Valid()
      ensures buffer[..] == Filled(contents, location, size, old(buffer[..]))
    {
      hide Valid, Filled;
      ghost var was := buffer[..];
      NoneFilled(contents, location, was);
      var at, loc, left := 0, location, size;
      while left > 0
        invariant Valid() && at <= size && at + left == size && loc == location + at
        invariant buffer[..] == Filled(contents, location, at, was)
        decreases left, if Cached(loc) then 0 else 1
      {
        if Cached(loc) {
          var toRead := CopyCached(loc, left, buffer, at);
          MoreFilled(contents, location, at, toRead, was);
          left, loc, at := left - toRead, loc + toRead, at + toRead;
        }
        if left == 0 {
          break;
        }
        Load(loc);
      }
    }

    /** Copies what the cache has from a position on. */
    method CopyCached(loc: nat, left: nat, buffer: array<byte>, at: nat) returns (toRead: nat)
      requires Valid() && Cached(loc) && left > 0 && loc + left <= |contents| && at + left <= buffer.Length
      modifies buffer
      ensures Valid() && 0 < toRead <= left && (toRead < left ==> loc + toRead == cachedEnd)
      ensures buffer[..] == old(buffer[..])[..at] + contents[loc..loc + toRead] + old(buffer[..])[at + toRead..]
    {
      hide Inverse, Leads, Stores;
      toRead := if cachedEnd - loc < left then cachedEnd - loc else left;
      SliceOf(contents, cachedStart, cachedEnd, loc, toRead);
      Copy(buffer, at, cached.value[loc - cachedStart..][..toRead]);
    }

    /** Caches the piece around a position. */
    method Load(loc: nat)
      requires Valid() && !Cached(loc) && loc < |contents|
      modifies this`cached, this`cachedStart, this`cachedEnd
      ensures Valid() && Cached(loc)
    {
      var block := loc / BLOCK;
      InPiece(contents, loc);
      assert blocks.value[block] == blocks.value[block];
      var b := blocks.value[block];
      var compressed := store.fork[headerSize + 4 + b.offset..][..b.size];
      var plain := z.uncompress(compressed);
      assert plain == Piece(contents, block);
      cached, cachedStart := Some(plain), block * BLOCK;
      cachedEnd := cachedStart + |plain|;
    }

    /** Caches the whole file unless it is. */
    method CacheAll()
      requires Valid()
      modifies this`cached, this`cachedStart, this`cachedEnd
      ensures Valid() && Whole() && contents == if cached.Some? then cached.value else []
    {
      hide Inverse, Leads, Stores;
      if cachedStart != 0 || cachedEnd != decmpfs.size {
        var newCache := new byte[decmpfs.size];
        Read(0, decmpfs.size, newCache);
        cached, cachedStart, cachedEnd := Some(newCache[..]), 0, decmpfs.size;
        assert newCache[..] == contents;
      }
    }

    /** Writes into the cached file, or past its end without a gap. */
    method Write(location: nat, data: seq<byte>)
      requires Valid() && location <= |contents| && location + |data| < 0x1_0000_0000
      modifies this`cached, this`cachedStart, this`cachedEnd, this`decmpfs, this`dirty, this`contents
      ensures Valid() && dirty && contents == Spliced(old(contents), location, data)
    {
      hide Inverse, Leads, Stores;
      CacheAll();
      ghost var s := contents;
      if location + |data| > decmpfs.size {
        assert |Zeros(location + |data| - decmpfs.size)| == location + |data| - decmpfs.size;
        var more: seq<byte> :| |more| == location + |data| - decmpfs.size;
        decmpfs := decmpfs.(size := location + |data|);
        cached := Some((if cached.Some? then cached.value else []) + more);
        cachedEnd := decmpfs.size;
        SplicedLong(s, more, location, data);
      }
      if cached.Some? {
        cached := Some(Spliced(cached.value, location, data));
      }
      contents := Spliced(contents, location, data);
      dirty := true;
    }

    /** Writes a changed file back. The fork of an empty file is never opened, so a changed file has to have a byte. */
    method Close()
      requires Valid() && (dirty ==> contents != [] && Fits(z, contents))
      modifies this, store
      ensures contents == old(contents) && store.Keeps(z, contents)
      ensures !old(dirty) ==> unchanged(store)
      ensures old(dirty) && |contents| <= 0x10000 && |z.compress(contents)| + 16 + 524 <= 0x1000 ==>
        store.attribute == Some(Decmpfs(0x636D7066, 3, |contents|, z.compress(contents)))
      ensures old(dirty) && !(|contents| <= 0x10000 && |z.compress(contents)| + 16 + 524 <= 0x1000) ==>
        && store.attribute == Some(Decmpfs(0x636D7066, 4, |contents|, []))
        && exists dataSize: nat :: OnDisk(z, store.fork, contents, dataSize)
    {
      hide Header, OnDisk, Has, Inverse, LaidOut, Leads, Directory, Stores, Packed, Piece, Put, Inline, Table, Trailer;
      if dirty {
        var size := decmpfs.size;
        var numBlocks: uint32 := (size + 0xFFFF) / BLOCK;
        var blocksSize: uint32 := 8 + 8 * numBlocks;
        headerSize := HEAD;
        assert cached.value == contents;
        InlineSmall(z, contents);
        var flags, list, dataSize := WriteBlocks(numBlocks, blocksSize);
        if flags == 3 {
          InlineStores(z, contents);
        }
        if flags == 4 {
          var totalSize: uint32 := headerSize + dataSize;
          ghost var fork := store.fork;
          store.fork := Put(store.fork, 0, Header(headerSize, totalSize, dataSize));
          store.fork := Put(store.fork, headerSize, Table(dataSize - 4, list));
          store.fork := Put(store.fork, totalSize, Trailer());
          ClosedFork(z, fork, list, contents, Header(headerSize, totalSize, dataSize), Table(dataSize - 4, list),
                     dataSize, totalSize);
        }
        store.attribute := Some(Decmpfs(MAGIC, flags, size, if flags == 3 then decmpfs.data else []));
      }
    }

    /** Compresses the cached file piece by piece, into the attribute if it fits there, else into the fork. */
    method WriteBlocks(numBlocks: uint32, blocksSize: uint32)
      returns (flags: uint32, list: seq<Block>, dataSize: uint32)
      requires cached == Some(contents) && contents != [] && |contents| == decmpfs.size < 0x1_0000_0000
      requires numBlocks == NumBlocks(|contents|) && blocksSize == 8 + 8 * numBlocks && headerSize == HEAD
        && Fits(z, contents)
      modifies this`decmpfs, store`fork
      ensures flags in {3, 4} && (flags == 3 <==> Inline(z, contents)) && decmpfs.size == old(decmpfs.size)
      ensures flags == 3 ==> decmpfs.data == z.compress(contents)
      ensures flags == 4 ==>
        && |list| == numBlocks && LaidOut(z, store.fork, list, contents)
        && dataSize == blocksSize + Packed(z, contents, numBlocks)
    {
      hide LaidOut, Packed, Piece, Put, Inline;
      var size := decmpfs.size;
      list, flags, dataSize := [], 4, blocksSize;
      var curFileOffset: uint32 := blocksSize - 4;
      var i: nat := 0;
      NothingLaid(z, store.fork, contents);
      while i < numBlocks && flags == 4
        invariant i <= numBlocks && i == |list| && flags in {3, 4} && decmpfs.size == size
        invariant flags == 4 ==>
          && LaidOut(z, store.fork, list, contents) && (i > 0 ==> !Inline(z, contents))
          && curFileOffset == blocksSize - 4 + Packed(z, contents, i) && dataSize == blocksSize + Packed(z, contents, i)
        invariant flags == 3 ==> Inline(z, contents) && decmpfs.data == z.compress(contents)
        decreases numBlocks - i + (if flags == 4 then 1 else 0)
      {
        var from := BLOCK * i;
        var length := if size - from > BLOCK then BLOCK else size - from;
        PieceIs(contents, i);
        InlineIff(z, contents);
        var buffer := z.compress(cached.value[from..][..length]);
        if numBlocks <= 1 && |buffer| + 16 + 524 <= 0x1000 {
          flags := 3;
          decmpfs := decmpfs.(data := buffer);
        } else {
          PackedTo(z, contents, i, numBlocks);
          PackedNext(z, contents, i);
          var b := Block(curFileOffset, |buffer|);
          LayNext(z, store.fork, list, contents, b);
          store.fork := Put(store.fork, headerSize + 4 + b.offset, buffer);
          list := list + [b];
          curFileOffset := curFileOffset + |buffer|;
          dataSize := dataSize + |buffer|;
          i := i + 1;
        }
      }
    }
  }

  lemma WordSmall(s: seq<byte>)
    requires |s| == 4
    ensures Value(s) < 0x1_0000_0000
  {
    ValueSmall(s);
    assert Pow256(4) == 0x1_0000_0000 by {
      assert Pow256(2) == 0x10000;
    }
  }

  lemma {:induction false} ValueSmall(s: seq<byte>)
    ensures Value(s) < Pow256(|s|)
  {
    if s != [] {
      ValueSmall(s[..|s| - 1]);
    }
  }

  /** Reads the directory that lies in a fork. */
  method ReadDirectory(fork: seq<byte>, head: nat, ghost there: seq<Block>) returns (blocks: seq<Block>)
    requires Directory(fork, head, there)
    ensures blocks == there
  {
    var numBlocks := LittleValue(fork[head + 4..][..4]);
    blocks := [];
    for i := 0 to numBlocks
      invariant i == |blocks| && blocks == there[..i]
    {
      assert there[i] == there[i];
      var offset, size := LittleValue(fork[head + 8 + 8 * i..][..4]), LittleValue(fork[head + 12 + 8 * i..][..4]);
      blocks := blocks + [Block(offset, size)];
    }
  }

  // A file over whole sessions.

  datatype Access = Get(at: nat, size: nat) | Set(at: nat, data: seq<byte>)

  /** Reads lie within the file; writes leave no gap and keep it below 4 GB. */
  predicate Allowed(s: seq<byte>, a: Access)
  {
    match a
    case Get(at, size) => at + size <= |s|
    case Set(at, data) => at <= |s| && at + |data| < 0x1_0000_0000
  }

  ghost predicate InRange(s: seq<byte>, accesses: seq<Access>)
    decreases |accesses|
  {
    accesses == [] || (Allowed(s, accesses[0]) && InRange(After(s, accesses[0]), accesses[1..]))
  }

  // The plain file: what reads return and what writes leave.

  ghost function After(s: seq<byte>, a: Access): seq<byte>
    requires Allowed(s, a)
  {
    if a.Set? then Spliced(s, a.at, a.data) else s
  }

  ghost function Reply(s: seq<byte>, a: Access): seq<seq<byte>>
    requires Allowed(s, a)
  {
    if a.Get? then [s[a.at..a.at + a.size]] else []
  }

  ghost function Replies(s: seq<byte>, accesses: seq<Access>): seq<seq<byte>>
    requires InRange(s, accesses)
    decreases |accesses|
  {
    if accesses == [] then [] else Reply(s, accesses[0]) + Replies(After(s, accesses[0]), accesses[1..])
  }

  ghost function Final(s: seq<byte>, accesses: seq<Access>): seq<byte>
    requires InRange(s, accesses)
    decreases |accesses|
  {
    if accesses == [] then s else Final(After(s, accesses[0]), accesses[1..])
  }

  lemma FilledAll(s: seq<byte>, at: nat, was: seq<byte>)
    requires at + |was| <= |s|
    ensures Filled(s, at, |was|, was) == s[at..at + |was|]
  {
  }

  method UseOnce(c: Compressed, a: Access) returns (reply: seq<seq<byte>>)
    requires c.Valid() && Allowed(c.contents, a)
    modifies c
    ensures c.Valid() && reply == Reply(old(c.contents), a) && c.contents == After(old(c.contents), a)
    ensures a.Get? ==> c.dirty == old(c.dirty)
  {
    hide Spliced, Filled;
    match a {
      case Get(at, size) =>
        var buffer := new byte[size];
        FilledAll(c.contents, at, buffer[..]);
        c.Read(at, size, buffer);
        reply := [buffer[..]];
      case Set(at, data) =>
        c.Write(at, data);
        reply := [];
    }
  }

  /** Any reads and writes go to the file as if there were no cache and no compression. */
  method Use(c: Compressed, accesses: seq<Access>) returns (replies: seq<seq<byte>>)
    requires c.Valid() && InRange(c.contents, accesses)
    modifies c
    ensures c.Valid() && replies == Replies(old(c.contents), accesses) && c.contents == Final(old(c.contents), accesses)
    ensures (forall a :: a in accesses ==> a.Get?) ==> c.dirty == old(c.dirty)
  {
    hide Compressed.Valid, Allowed, After, Reply;
    replies := [];
    ghost var rest := accesses;
    for i := 0 to |accesses|
      invariant c.Valid() && rest == accesses[i..] && InRange(c.contents, rest)
      invariant Replies(old(c.contents), accesses) == replies + Replies(c.contents, rest)
      invariant Final(old(c.contents), accesses) == Final(c.contents, rest)
      invariant (forall a :: a in accesses ==> a.Get?) ==> c.dirty == old(c.dirty)
    {
      assert rest[0] == accesses[i] && rest[1..] == accesses[i + 1..];
      var reply := UseOnce(c, accesses[i]);
      replies := replies + reply;
      rest := rest[1..];
    }
  }

  /** Opened, used, closed and opened again, a file holds what the writes left. */
  method Sessions(z: Codec, store: Store, ghost s: seq<byte>, accesses: seq<Access>)
    returns (replies: seq<seq<byte>>, again: Compressed)
    requires Inverse(z) && store.Keeps(z, s) && |s| < 0x1_0000_0000 && InRange(s, accesses)
    requires Final(s, accesses) != [] || forall a :: a in accesses ==> a.Get?
    requires Fits(z, Final(s, accesses))
    modifies store
    ensures replies == Replies(s, accesses)
    ensures fresh(again) && again.Valid() && again.contents == Final(s, accesses)
  {
    hide Fits, Stores;
    var c := new Compressed(z, store, s);
    replies := Use(c, accesses);
    ghost var t := c.contents;
    c.Close();
    again := new Compressed(z, store, t);
  }
}
