/**
 Extent lists of a file: the blocks they name, the bytes they hold, and how a write inside
 one extent shows up in the file's contents.
 */
module Extents {
  type byte = b: int | 0 <= b < 256

  datatype Extent = Extent(startBlock: nat, blockCount: nat)

  function Run(e: Extent): (r: seq<nat>)
    ensures |r| == e.blockCount && forall j :: 0 <= j < |r| ==> r[j] == e.startBlock + j
  {
    seq(e.blockCount, j => e.startBlock + j)
  }

  /** The block numbers of an extent list in file order. */
  function Flat(es: seq<Extent>): seq<nat>
  {
    if es == [] then [] else Run(es[0]) + Flat(es[1..])
  }

  ghost predicate Distinct(s: seq<nat>)
  {
    forall i, j :: 0 <= i < j < |s| ==> s[i] != s[j]
  }

  /** The byte address of a block. */
  function Addr(b: nat, size: nat): nat
  {
    b * size
  }

  lemma AddrLaws(a: nat, b: nat, size: nat)
    ensures Addr(a + b, size) == Addr(a, size) + Addr(b, size)
    ensures a <= b ==> Addr(a, size) <= Addr(b, size)
    ensures Addr(0, size) == 0 && Addr(1, size) == size
  {
    if a <= b {
      assert (b - a) * size >= 0;
    }
  }

  ghost predicate Inside(es: seq<Extent>, total: nat)
  {
    forall i :: 0 <= i < |es| ==> es[i].startBlock + es[i].blockCount <= total
  }

  ghost function Segment(image: seq<byte>, e: Extent, size: nat): (r: seq<byte>)
    requires Addr(e.startBlock + e.blockCount, size) <= |image|
    ensures |r| == Addr(e.blockCount, size)
  {
    AddrLaws(e.startBlock, e.blockCount, size);
    image[Addr(e.startBlock, size)..Addr(e.startBlock + e.blockCount, size)]
  }

  /** The bytes of all blocks of a file in order. */
  ghost function FileBytes(image: seq<byte>, es: seq<Extent>, size: nat): seq<byte>
    requires Fits(image, es, size)
  {
    if es == [] then [] else Segment(image, es[0], size) + FileBytes(image, es[1..], size)
  }

  ghost predicate Fits(image: seq<byte>, es: seq<Extent>, size: nat)
  {
    forall i :: 0 <= i < |es| ==> Addr(es[i].startBlock + es[i].blockCount, size) <= |image|
  }

  function Count(es: seq<Extent>): nat
  {
    if es == [] then 0 else es[0].blockCount + Count(es[1..])
  }

  lemma {:induction false} FlatLength(es: seq<Extent>)
    ensures |Flat(es)| == Count(es)
  {
    if es != [] {
      FlatLength(es[1..]);
    }
  }

  lemma {:induction false} FileLength(image: seq<byte>, es: seq<Extent>, size: nat)
    requires Fits(image, es, size)
    ensures |FileBytes(image, es, size)| == Addr(Count(es), size)
  {
    AddrLaws(0, 0, size);
    if es != [] {
      FileLength(image, es[1..], size);
      AddrLaws(es[0].blockCount, Count(es[1..]), size);
    }
  }

  lemma {:induction false} FlatCat(a: seq<Extent>, b: seq<Extent>)
    ensures Flat(a + b) == Flat(a) + Flat(b) && Count(a + b) == Count(a) + Count(b)
  {
    if a == [] {
      assert a + b == b;
    } else {
      FlatCat(a[1..], b);
      assert (a + b)[1..] == a[1..] + b && (a + b)[0] == a[0];
      assert Run(a[0]) + (Flat(a[1..]) + Flat(b)) == Run(a[0]) + Flat(a[1..]) + Flat(b);
    }
  }

  lemma {:induction false} FileCat(image: seq<byte>, a: seq<Extent>, b: seq<Extent>, size: nat)
    requires Fits(image, a, size) && Fits(image, b, size)
    ensures Fits(image, a + b, size)
    ensures FileBytes(image, a + b, size) == FileBytes(image, a, size) + FileBytes(image, b, size)
  {
    if a == [] {
      assert a + b == b;
    } else {
      FileCat(image, a[1..], b, size);
      assert (a + b)[1..] == a[1..] + b && (a + b)[0] == a[0];
      var s, x, y := Segment(image, a[0], size), FileBytes(image, a[1..], size), FileBytes(image, b, size);
      assert s + (x + y) == s + x + y;
    }
  }

  lemma FlatOne(e: Extent)
    ensures Flat([e]) == Run(e) && Count([e]) == e.blockCount
  {
    assert [e][1..] == [];
  }

  lemma FileOne(image: seq<byte>, e: Extent, size: nat)
    requires Addr(e.startBlock + e.blockCount, size) <= |image|
    ensures Fits(image, [e], size) && FileBytes(image, [e], size) == Segment(image, e, size)
  {
    assert [e][1..] == [];
  }

  /** One more block at the end of the last extent is one more block of the file. */
  lemma FlatGrow(es: seq<Extent>, e: Extent)
    ensures Flat(es + [Extent(e.startBlock, e.blockCount + 1)]) == Flat(es + [e]) + [e.startBlock + e.blockCount]
  {
    var f := Extent(e.startBlock, e.blockCount + 1);
    FlatCat(es, [e]);
    FlatCat(es, [f]);
    FlatOne(e);
    FlatOne(f);
    assert Run(f) == Run(e) + [e.startBlock + e.blockCount];
  }

  /** The position in the block list of a block of extent i. */
  lemma FlatAt(es: seq<Extent>, i: nat, j: nat)
    requires i < |es| && j < es[i].blockCount
    ensures Count(es[..i]) + j < |Flat(es)| && Flat(es)[Count(es[..i]) + j] == es[i].startBlock + j
  {
    var a, b := es[..i], es[i + 1..];
    assert es == a + [es[i]] + b;
    FlatCat(a + [es[i]], b);
    FlatCat(a, [es[i]]);
    FlatOne(es[i]);
    FlatLength(a);
    assert (Flat(a) + Run(es[i]) + Flat(b))[|Flat(a)| + j] == Run(es[i])[j];
  }

  /** Extents of a list without repeated blocks do not overlap. */
  lemma Apart(es: seq<Extent>, i: nat, k: nat, x: nat)
    requires Distinct(Flat(es)) && i < |es| && k < |es| && i != k
    requires es[i].startBlock <= x < es[i].startBlock + es[i].blockCount
    ensures !(es[k].startBlock <= x < es[k].startBlock + es[k].blockCount)
  {
    if es[k].startBlock <= x < es[k].startBlock + es[k].blockCount {
      var p, q := Count(es[..i]) + (x - es[i].startBlock), Count(es[..k]) + (x - es[k].startBlock);
      CountStep(es, if i < k then i else k, if i < k then k else i);
      assert p != q;
      FlatAt(es, i, x - es[i].startBlock);
      FlatAt(es, k, x - es[k].startBlock);
    }
  }

  lemma {:induction false} CountStep(es: seq<Extent>, i: nat, k: nat)
    requires i < k <= |es|
    ensures Count(es[..i]) + es[i].blockCount <= Count(es[..k])
    decreases k
  {
    assert es[..k] == es[..k - 1] + [es[k - 1]];
    FlatCat(es[..k - 1], [es[k - 1]]);
    FlatOne(es[k - 1]);
    if i < k - 1 {
      CountStep(es, i, k - 1);
    }
  }

  function WriteAt(s: seq<byte>, at: nat, d: seq<byte>): (r: seq<byte>)
    requires at + |d| <= |s|
    ensures |r| == |s|
  {
    s[..at] + d + s[at + |d|..]
  }

  /** The data are read back where they were written, and every other byte is as before. */
  lemma WriteAtIs(s: seq<byte>, at: nat, d: seq<byte>)
    requires at + |d| <= |s|
    ensures WriteAt(s, at, d)[at..at + |d|] == d
    ensures forall k :: 0 <= k < |s| && !(at <= k < at + |d|) ==> WriteAt(s, at, d)[k] == s[k]
  {
  }

  /** The bytes of a block. */
  ghost function Block(image: seq<byte>, b: nat, size: nat): seq<byte>
    requires Addr(b + 1, size) <= |image|
  {
    AddrLaws(b, 1, size);
    image[Addr(b, size)..Addr(b + 1, size)]
  }

  /** Images that agree on the blocks of a file hold the same file. */
  lemma {:induction false} SameFile(a: seq<byte>, b: seq<byte>, es: seq<Extent>, size: nat)
    requires Fits(a, es, size) && Fits(b, es, size)
    requires forall i, k ::
               && 0 <= i < |es|
               && Addr(es[i].startBlock, size) <= k < Addr(es[i].startBlock + es[i].blockCount, size)
               ==> a[k] == b[k]
    ensures FileBytes(a, es, size) == FileBytes(b, es, size)
  {
    if es != [] {
      var t := es[1..];
      assert forall i :: 0 <= i < |t| ==> t[i] == es[i + 1];
      SameFile(a, b, t, size);
      assert Segment(a, es[0], size) == Segment(b, es[0], size);
    }
  }

  /** A write inside extent i is a write inside the file, at the extent's place in the file. */
  lemma WriteInExtent(image: seq<byte>, es: seq<Extent>, size: nat, i: nat, off: nat, d: seq<byte>)
    requires Fits(image, es, size) && Distinct(Flat(es)) && i < |es| && size > 0
    requires off + |d| <= Addr(es[i].blockCount, size)
    ensures Addr(es[i].startBlock, size) + off + |d| <= |image|
    ensures Addr(Count(es[..i]), size) + off + |d| <= |FileBytes(image, es, size)|
    ensures var after := WriteAt(image, Addr(es[i].startBlock, size) + off, d);
      Fits(after, es, size)
      && FileBytes(after, es, size) == WriteAt(FileBytes(image, es, size), Addr(Count(es[..i]), size) + off, d)
  {
    hide Segment, Addr, Run, FileBytes, WriteAt;
    var e, a, b := es[i], es[..i], es[i + 1..];
    AddrLaws(e.startBlock, e.blockCount, size);
    var after := WriteAt(image, Addr(e.startBlock, size) + off, d);
    Parts(image, es, i, size);
    Parts(after, es, i, size);
    assert FileBytes(after, a, size) == FileBytes(image, a, size)
      && FileBytes(after, b, size) == FileBytes(image, b, size) by {
      forall k, x | 0 <= k < |es| && k != i
          && Addr(es[k].startBlock, size) <= x < Addr(es[k].startBlock + es[k].blockCount, size)
        ensures after[x] == image[x]
      {
        Elsewhere(image, es, size, i, off, d, k, x);
      }
      assert forall k :: 0 <= k < |b| ==> b[k] == es[i + 1 + k];
      SameFile(after, image, a, size);
      SameFile(after, image, b, size);
    }
    FileLength(image, a, size);
    SegmentWrite(image, e, size, off, d);
    Splice(FileBytes(image, a, size), Segment(image, e, size), FileBytes(image, b, size), off, d);
  }

  lemma SliceSlice(s: seq<byte>, a: nat, b: nat, off: nat, n: nat)
    requires a + off + n <= b <= |s|
    ensures s[a..b][off..off + n] == s[a + off..a + off + n]
  {
    var t, u := s[a..b][off..off + n], s[a + off..a + off + n];
    assert |t| == |u| && forall k :: 0 <= k < n ==> t[k] == u[k];
  }

  /** What lies inside extent i lies at the extent's place in the file. */
  lemma ReadInExtent(image: seq<byte>, es: seq<Extent>, size: nat, i: nat, off: nat, n: nat)
    requires Fits(image, es, size) && i < |es| && off + n <= Addr(es[i].blockCount, size)
    ensures Addr(es[i].startBlock, size) + off + n <= |image|
    ensures Addr(Count(es[..i]), size) + off + n <= |FileBytes(image, es, size)|
    ensures var from, at := Addr(es[i].startBlock, size) + off, Addr(Count(es[..i]), size) + off;
      image[from..from + n] == FileBytes(image, es, size)[at..at + n]
  {
    hide Addr, Run, FileBytes;
    var e := es[i];
    AddrLaws(e.startBlock, e.blockCount, size);
    Parts(image, es, i, size);
    FileLength(image, es[..i], size);
    var from, at := Addr(e.startBlock, size) + off, Addr(Count(es[..i]), size) + off;
    SliceSlice(image, Addr(e.startBlock, size), Addr(e.startBlock + e.blockCount, size), off, n);
    var whole := FileBytes(image, es[..i], size) + Segment(image, e, size) + FileBytes(image, es[i + 1..], size);
    assert whole == FileBytes(image, es, size);
    assert whole[at..at + n] == Segment(image, e, size)[off..off + n];
  }

  lemma Parts(image: seq<byte>, es: seq<Extent>, i: nat, size: nat)
    requires Fits(image, es, size) && i < |es|
    ensures Fits(image, es[..i], size) && Fits(image, es[i + 1..], size)
    ensures FileBytes(image, es, size) == FileBytes(image, es[..i], size) + Segment(image, es[i], size)
      + FileBytes(image, es[i + 1..], size)
  {
    FileOne(image, es[i], size);
    FileCat(image, es[..i], [es[i]], size);
    assert es == es[..i] + [es[i]] + es[i + 1..];
    FileCat(image, es[..i] + [es[i]], es[i + 1..], size);
  }

  /** A write inside extent i leaves the bytes of the other extents alone. */
  lemma Elsewhere(image: seq<byte>, es: seq<Extent>, size: nat, i: nat, off: nat, d: seq<byte>, k: nat, x: nat)
    requires Fits(image, es, size) && Distinct(Flat(es)) && i < |es| && k < |es| && k != i && size > 0
    requires off + |d| <= Addr(es[i].blockCount, size)
    requires Addr(es[k].startBlock, size) <= x < Addr(es[k].startBlock + es[k].blockCount, size)
    ensures x < |image| && Addr(es[i].startBlock, size) + off + |d| <= |image|
    ensures WriteAt(image, Addr(es[i].startBlock, size) + off, d)[x] == image[x]
  {
    hide Flat, Distinct, Run, Addr;
    AddrLaws(es[i].startBlock, es[i].blockCount, size);
    var n := x / size;
    BlockOf(x, size, es[k].startBlock, es[k].blockCount);
    if Addr(es[i].startBlock, size) + off <= x < Addr(es[i].startBlock, size) + off + |d| {
      BlockOf(x, size, es[i].startBlock, es[i].blockCount);
      Apart(es, i, k, n);
    }
  }

  /** The block a byte address falls in. */
  lemma BlockOf(x: nat, size: nat, start: nat, count: nat)
    requires size > 0 && Addr(start, size) <= x < Addr(start + count, size)
    ensures start <= x / size < start + count
  {
    var n := x / size;
    assert n * size <= x < (n + 1) * size;
    if n < start {
      AddrLaws(n + 1, start, size);
    } else if n >= start + count {
      AddrLaws(start + count, n, size);
    }
  }

  lemma SegmentWrite(image: seq<byte>, e: Extent, size: nat, off: nat, d: seq<byte>)
    requires Addr(e.startBlock + e.blockCount, size) <= |image| && off + |d| <= Addr(e.blockCount, size)
    ensures Addr(e.startBlock, size) + off + |d| <= |image|
    ensures Segment(WriteAt(image, Addr(e.startBlock, size) + off, d), e, size)
      == WriteAt(Segment(image, e, size), off, d)
  {
    AddrLaws(e.startBlock, e.blockCount, size);
    hide Addr, WriteAt;
    WriteShifted(image, Addr(e.startBlock, size), Addr(e.startBlock + e.blockCount, size), off, d);
  }

  lemma WriteShifted(s: seq<byte>, lo: nat, hi: nat, off: nat, d: seq<byte>)
    requires lo + off + |d| <= hi <= |s|
    ensures WriteAt(s, lo + off, d)[lo..hi] == WriteAt(s[lo..hi], off, d)
  {
    var a, b := WriteAt(s, lo + off, d)[lo..hi], WriteAt(s[lo..hi], off, d);
    forall k | 0 <= k < |a|
      ensures a[k] == b[k]
    {
      assert a[k] == WriteAt(s, lo + off, d)[lo + k];
    }
  }

  lemma Splice(a: seq<byte>, m: seq<byte>, b: seq<byte>, off: nat, d: seq<byte>)
    requires off + |d| <= |m|
    ensures a + WriteAt(m, off, d) + b == WriteAt(a + m + b, |a| + off, d)
  {
  }

  ghost predicate BlocksFit(image: seq<byte>, s: seq<nat>, size: nat)
  {
    forall i :: 0 <= i < |s| ==> Addr(s[i] + 1, size) <= |image|
  }

  /** The bytes of a list of blocks, one block after the other. */
  ghost function Blocks(image: seq<byte>, s: seq<nat>, size: nat): (r: seq<byte>)
    requires BlocksFit(image, s, size)
  {
    if s == [] then [] else Block(image, s[0], size) + Blocks(image, s[1..], size)
  }

  lemma {:induction false} BlocksLength(image: seq<byte>, s: seq<nat>, size: nat)
    requires BlocksFit(image, s, size)
    ensures |Blocks(image, s, size)| == Addr(|s|, size)
  {
    AddrLaws(0, 0, size);
    if s != [] {
      AddrLaws(s[0], 1, size);
      BlocksLength(image, s[1..], size);
      AddrLaws(1, |s| - 1, size);
    }
  }

  lemma {:induction false} BlocksCat(image: seq<byte>, a: seq<nat>, b: seq<nat>, size: nat)
    requires BlocksFit(image, a, size) && BlocksFit(image, b, size)
    ensures BlocksFit(image, a + b, size)
    ensures Blocks(image, a + b, size) == Blocks(image, a, size) + Blocks(image, b, size)
  {
    hide Block, Addr;
    if a == [] {
      assert a + b == b;
    } else {
      BlocksCat(image, a[1..], b, size);
      assert (a + b)[1..] == a[1..] + b && (a + b)[0] == a[0];
      var s, x, y := Block(image, a[0], size), Blocks(image, a[1..], size), Blocks(image, b, size);
      assert s + (x + y) == s + x + y;
    }
  }

  /** Blocks that read the same in two images give the same bytes. */
  lemma {:induction false} SameBlocks(a: seq<byte>, b: seq<byte>, s: seq<nat>, size: nat)
    requires BlocksFit(a, s, size) && BlocksFit(b, s, size)
    requires forall i :: 0 <= i < |s| ==> Block(a, s[i], size) == Block(b, s[i], size)
    ensures Blocks(a, s, size) == Blocks(b, s, size)
  {
    if s != [] {
      var t := s[1..];
      assert forall i :: 0 <= i < |t| ==> t[i] == s[i + 1];
      SameBlocks(a, b, t, size);
    }
  }

  lemma {:induction false} RunBytes(image: seq<byte>, e: Extent, size: nat)
    requires Addr(e.startBlock + e.blockCount, size) <= |image|
    ensures BlocksFit(image, Run(e), size)
    ensures Blocks(image, Run(e), size) == Segment(image, e, size)
    decreases e.blockCount
  {
    forall i | 0 <= i < e.blockCount
      ensures Addr(Run(e)[i] + 1, size) <= |image|
    {
      AddrLaws(Run(e)[i] + 1, e.startBlock + e.blockCount, size);
    }
    AddrLaws(e.startBlock, 0, size);
    if e.blockCount > 0 {
      var f := Extent(e.startBlock + 1, e.blockCount - 1);
      assert Run(e) == [e.startBlock] + Run(f);
      RunBytes(image, f, size);
      AddrLaws(e.startBlock, 1, size);
      AddrLaws(e.startBlock + 1, e.startBlock + e.blockCount, size);
    }
  }

  /** A file's bytes depend on its block list alone, not on how extents group the blocks. */
  lemma {:induction false} FileIsBlocks(image: seq<byte>, es: seq<Extent>, size: nat)
    requires Fits(image, es, size)
    ensures BlocksFit(image, Flat(es), size)
    ensures FileBytes(image, es, size) == Blocks(image, Flat(es), size)
  {
    if es != [] {
      RunBytes(image, es[0], size);
      FileIsBlocks(image, es[1..], size);
      BlocksCat(image, Run(es[0]), Flat(es[1..]), size);
    }
  }

  /** Cutting extent i down to c blocks and dropping what follows keeps a prefix of the blocks. */
  lemma FlatCut(es: seq<Extent>, i: nat, c: nat)
    requires i < |es| && c <= es[i].blockCount
    ensures Count(es[..i]) + c <= |Flat(es)|
    ensures Flat(es[..i] + [Extent(es[i].startBlock, c)]) == Flat(es)[..Count(es[..i]) + c]
  {
    var a, e, b := es[..i], es[i], es[i + 1..];
    var f := Extent(e.startBlock, c);
    assert es == a + [e] + b;
    FlatCat(a + [e], b);
    FlatCat(a, [e]);
    FlatCat(a, [f]);
    FlatOne(e);
    FlatOne(f);
    FlatLength(a);
    assert Run(f) == Run(e)[..c];
  }
}
