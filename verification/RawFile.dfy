/**
 The block allocator of an HFS+ volume and the files stored in its extents: growth from the
 roving pointer, truncation, and reading and writing across extents. New blocks are zeroed at a
 32-bit position, so what growth promises of bytes holds below 4 GB of the volume.
 */
module RawFile {
  import opened Bitmap
  import opened Extents
  import opened Options

  const WORD: nat := 0x1_0000_0000

  /** Where the zeros for block b are written: a product of two 32-bit numbers. */
  function ZeroPlace(b: nat, size: nat): nat
  {
    Addr(b, size) % WORD
  }

  lemma ZeroPlaceFits(b: nat, size: nat)
    ensures Addr(b + 1, size) == Addr(b, size) + size && ZeroPlace(b, size) <= Addr(b, size)
    ensures ZeroPlace(b, size) == Addr(b, size) <==> Addr(b, size) < WORD
  {
    AddrLaws(b, 1, size);
  }

  /** The image after the zeros for one block. */
  function ZeroOne(image: seq<byte>, b: nat, size: nat): (r: seq<byte>)
    requires Addr(b + 1, size) <= |image|
    ensures |r| == |image|
  {
    ZeroPlaceFits(b, size);
    WriteAt(image, ZeroPlace(b, size), seq(size, _ => 0))
  }

  /** The image after the zeros for the blocks of a list, in order. */
  ghost function Zeroings(image: seq<byte>, s: seq<nat>, size: nat): (r: seq<byte>)
    requires BlocksFit(image, s, size)
    ensures |r| == |image|
  {
    if s == [] then image else ZeroOne(Zeroings(image, s[..|s| - 1], size), s[|s| - 1], size)
  }

  /** The blocks begin where 32 bits can say it. */
  predicate AllLow(s: seq<nat>, size: nat)
  {
    forall i :: 0 <= i < |s| ==> Addr(s[i], size) < WORD
  }

  /** The blocks a longer list has behind a shorter one. */
  function Added(before: seq<nat>, after: seq<nat>): seq<nat>
  {
    if |before| <= |after| then after[|before|..] else []
  }

  /** The blocks of s that are among the first n of the map are exactly those set since. */
  ghost predicate Marked(before: seq<bv8>, after: seq<bv8>, s: seq<nat>)
  {
    && |after| == |before|
    && forall n: nat :: n < 8 * |before| ==> (Bit(after, n) <==> Bit(before, n) || n in s)
  }

  class Volume {
    const blockSize: nat
    const totalBlocks: nat
    var freeBlocks: nat
    var nextAllocation: nat
    var bits: seq<bv8>       // the allocation file
    var image: seq<byte>

    /** The free-block count is right and the last block, reserved for the alternate header, is used. */
    ghost predicate Valid()
      reads this
    {
      && blockSize > 0
      && 0 < totalBlocks <= 8 * |bits|
      && |image| == Addr(totalBlocks, blockSize)
      && freeBlocks == ClearCount(bits, totalBlocks)
      && Bit(bits, totalBlocks - 1)
      && nextAllocation < totalBlocks
    }

    /** Whether the block's bit is set, the bits of a byte counted from the highest. */
    method IsBlockUsed(block: nat) returns (used: bool)
      requires block < 8 * |bits|
      ensures used == Bit(bits, block)
    {
      var byte := bits[block / 8];
      used := Test(byte, block % 8);
    }

    /** Marks a block as used or free, and no other block. */
    method SetBlockUsed(block: nat, used: bool)
      requires block < 8 * |bits|
      modifies this`bits
      ensures |bits| == |old(bits)| && Bit(bits, block) == used
      ensures forall b: nat :: b < 8 * |bits| && b != block ==> Bit(bits, b) == Bit(old(bits), b)
      ensures bits == if used then SetBit(old(bits), block) else ClearBit(old(bits), block)
    {
      ghost var before := bits;
      var byte := bits[block / 8];
      byte := if used then On(byte, block % 8) else Off(byte, block % 8);
      bits := bits[block / 8 := byte];
      hide Bit;
      forall b: nat | b < 8 * |bits|
        ensures Bit(bits, b) == if b == block then used else Bit(before, b)
      {
        UpdateBit(before, block, b);
      }
    }

    /** Takes a free block for a file and writes a block of zeros where the 32-bit product leads. */
    method Claim(block: nat)
      requires Valid() && block < totalBlocks && !Bit(bits, block)
      modifies this`bits, this`freeBlocks, this`image
      ensures Valid() && freeBlocks == old(freeBlocks) - 1 && bits == SetBit(old(bits), block)
      ensures Addr(block + 1, blockSize) <= |image| && image == ZeroOne(old(image), block, blockSize)
    {
      ZeroPlaceFits(block, blockSize);
      AddrLaws(block + 1, totalBlocks, blockSize);
      UpdateBit(bits, block, totalBlocks - 1);
      UpdateCount(bits, block, totalBlocks);
      image := WriteAt(image, Addr(block, blockSize) % WORD, seq(blockSize, _ => 0));
      SetBlockUsed(block, true);
      freeBlocks := freeBlocks - 1;
    }

    /** Gives a block of a file back. */
    method Release(block: nat)
      requires Valid() && block + 1 < totalBlocks && Bit(bits, block)
      modifies this`bits, this`freeBlocks
      ensures Valid() && freeBlocks == old(freeBlocks) + 1 && bits == ClearBit(old(bits), block)
    {
      UpdateBit(bits, block, totalBlocks - 1);
      UpdateCount(bits, block, totalBlocks);
      SetBlockUsed(block, false);
      freeBlocks := freeBlocks + 1;
    }

    /** A block number that ran past the end of the volume goes on at the roving pointer. */
    method Around(block: nat) returns (next: nat)
      ensures next == if block >= totalBlocks then nextAllocation else block
    {
      next := block;
      if next >= totalBlocks {
        next := nextAllocation;
      }
    }

    /** Reads the roving pointer and moves it up by one, around at the end of the volume. */
    method Rove() returns (block: nat)
      requires Valid()
      modifies this`nextAllocation
      ensures Valid() && block == old(nextAllocation)
      ensures nextAllocation == (if block + 1 == totalBlocks then 0 else block + 1)
    {
      block := nextAllocation;
      nextAllocation := nextAllocation + 1;
      if nextAllocation >= totalBlocks {
        nextAllocation := 0;
      }
    }
  }

  /** How far the roving pointer x is from block b, going up and around. */
  function Distance(x: nat, b: nat, total: nat): int
  {
    if x <= b then b - x else total - x + b
  }

  /** The number of blocks that hold size bytes. */
  function BlocksFor(size: nat, blockSize: nat): nat
    requires blockSize > 0
  {
    size / blockSize + if size % blockSize == 0 then 0 else 1
  }

  ghost predicate ExtentsOk(es: seq<Extent>, bits: seq<bv8>, total: nat)
  {
    && (forall i :: 0 <= i < |es| ==> es[i].blockCount > 0)
    && Distinct(Flat(es))
    && BlocksOk(Flat(es), bits, total)
  }

  /** Blocks in use, none of them the reserved last one. */
  ghost predicate BlocksOk(s: seq<nat>, bits: seq<bv8>, total: nat)
  {
    forall i :: 0 <= i < |s| ==> s[i] < 8 * |bits| && s[i] + 1 < total && Bit(bits, s[i])
  }

  /** The image after zeroing the blocks of s. */
  ghost predicate Zeroed(before: seq<byte>, after: seq<byte>, s: seq<nat>, size: nat)
    requires size > 0
  {
    && |after| == |before|
    && forall x :: 0 <= x < |after| ==> after[x] == if x / size in s then 0 else before[x]
  }

  /** What growing has done so far: `taken` are the blocks taken, all of them free before. */
  ghost predicate Grown(es0: seq<Extent>, es: seq<Extent>, taken: seq<nat>, bits0: seq<bv8>, bits: seq<bv8>,
                        image0: seq<byte>, image: seq<byte>, size: nat, total: nat)
  {
    && size > 0 && total <= 8 * |bits0|
    && Flat(es) == Flat(es0) + taken
    && Distinct(taken) && (forall i :: 0 <= i < |taken| ==> taken[i] + 1 < total && !Bit(bits0, taken[i]))
    && Marked(bits0, bits, taken)
    && BlocksFit(image0, taken, size) && image == Zeroings(image0, taken, size)
  }

  class File {
    const volume: Volume
    var extents: seq<Extent>
    var logicalSize: nat
    var totalBlocks: nat

    constructor (volume: Volume)
      requires volume.Valid()
      ensures Valid() && this.volume == volume && extents == [] && logicalSize == 0
    {
      this.volume, extents, logicalSize, totalBlocks := volume, [], 0, 0;
    }

    /** The file's blocks are distinct, used and inside the volume, and their number is right. */
    ghost predicate Sound()
      reads this, volume
    {
      && volume.Valid()
      && ExtentsOk(extents, volume.bits, volume.totalBlocks)
      && totalBlocks == |Flat(extents)|
    }

    /** They are also as many as the file's size needs. */
    ghost predicate Valid()
      reads this, volume
    {
      Sound() && totalBlocks == BlocksFor(logicalSize, volume.blockSize)
    }

    /** All bytes of the file's blocks in file order. */
    ghost function Bytes(): seq<byte>
      reads this, volume
      requires Fits(volume.image, extents, volume.blockSize)
    {
      FileBytes(volume.image, extents, volume.blockSize)
    }

    /** Appends free blocks, going on behind the last extent and then from the roving pointer. */
    method Grow(count: nat) returns (ghost taken: seq<nat>)
      requires volume.Valid() && ExtentsOk(extents, volume.bits, volume.totalBlocks)
      requires 0 < count <= volume.freeBlocks
      modifies this`extents, volume`bits, volume`image, volume`freeBlocks, volume`nextAllocation
      ensures volume.Valid() && |taken| == count && volume.freeBlocks == old(volume.freeBlocks) - count
      ensures forall i :: 0 <= i < |extents| ==> extents[i].blockCount > 0
      ensures Grown(old(extents), extents, taken, old(volume.bits), volume.bits, old(volume.image), volume.image,
                    volume.blockSize, volume.totalBlocks)
    {
      hide Grown, ExtentsOk, Flat, ClearCount, Bit, SetBit, Addr, ZeroOne;
      var blocksToAllocate := count;
      ghost var es0, bits0, image0 := extents, volume.bits, volume.image;
      taken := [];
      var curBlock: nat;
      if extents == [] {
        extents := [Extent(0, 0)];
        curBlock := volume.nextAllocation;
      } else {
        var last := extents[|extents| - 1];
        curBlock := last.startBlock + last.blockCount;
      }
      GrowStart(es0, extents, bits0, image0, volume.blockSize, volume.totalBlocks);
      LastInside(es0, bits0, volume.totalBlocks);
      ghost var free: nat := SomeFree(volume.bits, volume.totalBlocks);
      while blocksToAllocate > 0
        invariant volume.Valid() && |taken| + blocksToAllocate == count
        invariant volume.freeBlocks == old(volume.freeBlocks) - |taken|
        invariant Grown(es0, extents, taken, bits0, volume.bits, image0, volume.image, volume.blockSize,
                        volume.totalBlocks)
        invariant extents != [] && (forall i :: 0 <= i < |extents| - 1 ==> extents[i].blockCount > 0)
        invariant blocksToAllocate == 0 ==> extents[|extents| - 1].blockCount > 0
        invariant curBlock < volume.totalBlocks
        invariant extents[|extents| - 1].blockCount > 0 ==>
          curBlock == extents[|extents| - 1].startBlock + extents[|extents| - 1].blockCount
        invariant blocksToAllocate > 0 ==> free < volume.totalBlocks && !Bit(volume.bits, free)
        decreases blocksToAllocate,
                  if Bit(volume.bits, curBlock) then 1 + Distance(volume.nextAllocation, free, volume.totalBlocks)
                  else 0
      {
        var used := volume.IsBlockUsed(curBlock);
        var last := extents[|extents| - 1];
        if used {
          if last.blockCount > 0 {
            MoreExtents(es0, extents, taken, bits0, volume.bits, image0, volume.image, volume.blockSize,
                        volume.totalBlocks);
            extents := extents + [Extent(0, 0)];
          }
          curBlock := volume.Rove();
        } else {
          if last.blockCount == 0 {
            last := Extent(curBlock, 0);
          }
          GrowStep(es0, extents, taken, bits0, volume.bits, image0, volume.image, volume.blockSize, volume.totalBlocks,
                   last, curBlock);
          volume.Claim(curBlock);
          blocksToAllocate := blocksToAllocate - 1;
          extents := extents[..|extents| - 1] + [Extent(last.startBlock, last.blockCount + 1)];
          taken := taken + [curBlock];
          curBlock := volume.Around(curBlock + 1);
          if blocksToAllocate > 0 {
            free := SomeFree(volume.bits, volume.totalBlocks);
          }
        }
      }
    }

    /** Gives back all blocks from position `needed` of the file on and cuts the extent list there. */
    method Shrink(needed: nat)
      requires volume.Valid() && ExtentsOk(extents, volume.bits, volume.totalBlocks) && needed < |Flat(extents)|
      modifies this`extents, volume`bits, volume`freeBlocks
      ensures volume.Valid() && volume.freeBlocks == old(volume.freeBlocks) + |old(Flat(extents))| - needed
      ensures Flat(extents) == old(Flat(extents))[..needed]
      ensures forall i :: 0 <= i < |extents| ==> extents[i].blockCount > 0
      ensures Cleared(old(volume.bits), volume.bits, old(Flat(extents))[needed..])
    {
      hide Cleared, Flat, Distinct, BlocksOk, Count, ClearCount, Bit, ClearBit, Addr;
      var blocksToAllocate: nat, i: nat := needed, 0;
      var all := extents;
      FlatLength(all);
      CountNone(all);
      while blocksToAllocate > 0 && blocksToAllocate > all[i].blockCount
        invariant i < |all| && Count(all[..i]) + blocksToAllocate == needed
        decreases |all| - i
        modifies {}
      {
        CountNext(all, i);
        blocksToAllocate := blocksToAllocate - all[i].blockCount;
        i := i + 1;
      }
      if blocksToAllocate == 0 && i > 0 {
        extents := extents[..i];
        FlatCut(all, i, 0);
        FlatNone(all[..i], all[i]);
      } else if needed == 0 {
        extents := [];
        FlatEmpty(all);
      }
      ghost var p := needed;
      ClearStart(volume.bits, all, needed);
      while i < |all|
        invariant i <= |all| && p == Count(all[..i]) + blocksToAllocate && needed <= p <= |Flat(all)|
        invariant blocksToAllocate != 0 ==>
          i < |all| && blocksToAllocate <= all[i].blockCount && p == needed && extents == all
        invariant blocksToAllocate == 0 ==> Flat(extents) == Flat(all)[..needed]
        invariant forall i :: 0 <= i < |extents| ==> extents[i].blockCount > 0
        invariant volume.Valid() && volume.freeBlocks == old(volume.freeBlocks) + p - needed
        invariant Cleared(old(volume.bits), volume.bits, Flat(all)[needed..p])
      {
        var curBlock := all[i].startBlock + blocksToAllocate;
        CountNext(all, i);
        while curBlock < all[i].startBlock + all[i].blockCount
          modifies volume`bits, volume`freeBlocks
          invariant all[i].startBlock <= curBlock <= all[i].startBlock + all[i].blockCount
          invariant p == Count(all[..i]) + (curBlock - all[i].startBlock) && needed <= p <= |Flat(all)|
          invariant volume.Valid() && volume.freeBlocks == old(volume.freeBlocks) + p - needed
          invariant Cleared(old(volume.bits), volume.bits, Flat(all)[needed..p])
        {
          FlatAt(all, i, curBlock - all[i].startBlock);
          ClearStep(old(volume.bits), volume.bits, Flat(all), needed, p, volume.totalBlocks);
          volume.Release(curBlock);
          p := p + 1;
          curBlock := curBlock + 1;
        }
        if blocksToAllocate != 0 {
          FlatCut(all, i, blocksToAllocate);
          extents := all[..i] + [Extent(all[i].startBlock, blocksToAllocate)];
        }
        blocksToAllocate := 0;
        i := i + 1;
      }
      CountAll(all);
    }

    /**
     Gives the file room for `size` bytes, in a number of blocks cut to 32 bits: right exactly for
     sizes of fewer than 2^32 blocks. Fails, changing nothing, exactly when the volume has too few
     free blocks. Kept blocks keep their place, and new ones come behind and are none of another
     file's. While the new blocks begin below 4 GB they read as zero, the kept ones keep their
     bytes, and no other file's bytes change; the image is in any case the old one with the zeros
     for the new blocks where the code puts them.
     */
    method Allocate(size: nat) returns (ok: bool)
      requires Valid()
      modifies this`extents, this`logicalSize, this`totalBlocks
      modifies volume`bits, volume`image, volume`freeBlocks, volume`nextAllocation
      ensures Sound()
      ensures ok <==> BlocksFor(size, volume.blockSize) % WORD <= old(totalBlocks + volume.freeBlocks)
      ensures size <= Addr(WORD - 1, volume.blockSize) ==>
        (ok <==> size <= Addr(old(totalBlocks + volume.freeBlocks), volume.blockSize))
      ensures ok && size <= Addr(WORD - 1, volume.blockSize) ==>
        Valid() && size <= Addr(totalBlocks, volume.blockSize) < size + volume.blockSize
      ensures !ok ==> unchanged(this) && unchanged(volume)
      ensures ok ==> (Valid() <==> BlocksFor(size, volume.blockSize) < WORD)
      ensures ok ==> logicalSize == size && totalBlocks == BlocksFor(size, volume.blockSize) % WORD
      ensures totalBlocks + volume.freeBlocks == old(totalBlocks + volume.freeBlocks)
      ensures Flat(extents) <= old(Flat(extents)) || old(Flat(extents)) <= Flat(extents)
      ensures BlocksKept(old(Flat(extents)), Flat(extents), old(volume.bits), volume.bits)
      ensures Room() && old(Room())
      ensures BlocksFit(old(volume.image), Added(old(Flat(extents)), Flat(extents)), volume.blockSize)
      ensures volume.image == Zeroings(old(volume.image), Added(old(Flat(extents)), Flat(extents)), volume.blockSize)
      ensures AllLow(Added(old(Flat(extents)), Flat(extents)), volume.blockSize) ==>
        && Bytes() == Resized(old(Bytes()), Addr(totalBlocks, volume.blockSize))
        && OthersKept(old(Flat(extents)), Flat(extents), old(volume.bits), volume.bits, old(volume.image),
                      volume.image, volume.blockSize)
      ensures Addr(volume.totalBlocks, volume.blockSize) <= WORD ==>
        AllLow(Added(old(Flat(extents)), Flat(extents)), volume.blockSize)
    {
      hide BlocksFor, Flat, Grown, Cleared, BlocksOk, Distinct, OthersKept, BlocksKept, FileBytes, Fits,
           Addr, Bit, AllLow, Added, Zeroings, BlocksFit;
      ghost var es0, bits0, image0 := extents, volume.bits, volume.image;
      RoomAlways();
      NothingDone(es0, bits0, image0, volume.blockSize, volume.totalBlocks);
      NothingAdded(Flat(es0), Flat(es0), image0, volume.blockSize);
      var blocksNeeded := BlocksFor(size, volume.blockSize) % WORD;
      RoomFor(size, volume.blockSize, totalBlocks + volume.freeBlocks);
      RoomFor(size, volume.blockSize, WORD - 1);
      if blocksNeeded > totalBlocks {
        var blocksToAllocate := blocksNeeded - totalBlocks;
        if blocksToAllocate > volume.freeBlocks {
          return false;
        }
        ghost var taken := Grow(blocksToAllocate);
        GrowResult(es0, extents, taken, bits0, volume.bits, image0, volume.image, volume.blockSize, volume.totalBlocks);
      } else if blocksNeeded < totalBlocks {
        Shrink(blocksNeeded);
        ShrinkResult(es0, extents, blocksNeeded, bits0, volume.bits, image0, volume.blockSize, volume.totalBlocks);
        NothingAdded(Flat(es0), Flat(extents), image0, volume.blockSize);
      }
      logicalSize := size;
      totalBlocks := blocksNeeded;
      SmallVolume(Flat(es0), Flat(extents), volume.bits, volume.blockSize, volume.totalBlocks);
      return true;
    }

    /** The extent a file position falls in and the position inside it; past the last extent, the number of extents. */
    method Locate(location: nat) returns (i: nat, inside: nat)
      requires Valid() && extents != []
      ensures i <= |extents| && Addr(Count(extents[..i]), volume.blockSize) + inside == location
      ensures i < |extents| ==> inside < Addr(extents[i].blockCount, volume.blockSize)
    {
      hide Flat, Addr, Distinct, BlocksOk, Count, ClearCount, Bit;
      i, inside := 0, location;
      var fileLoc: nat := 0;
      CountNone(extents);
      AddrLaws(0, 0, volume.blockSize);
      while true
        invariant i < |extents| && fileLoc == Addr(Count(extents[..i]), volume.blockSize)
          && fileLoc + inside == location
        decreases |extents| - i
      {
        CountNext(extents, i);
        AddrLaws(Count(extents[..i]), extents[i].blockCount, volume.blockSize);
        fileLoc := fileLoc + Addr(extents[i].blockCount, volume.blockSize);
        if fileLoc <= location {
          inside := inside - Addr(extents[i].blockCount, volume.blockSize);
          i := i + 1;
          if i == |extents| {
            break;
          }
        } else {
          break;
        }
      }
    }

    /** Reads across extents: the slice of the file's bytes, or failure when the file is empty or too short. */
    method Read(location: nat, size: nat) returns (r: Option<seq<byte>>)
      requires Valid()
      ensures Room()
      ensures extents == [] ==> r == None
      ensures extents != [] && size == 0 ==> r == Some([])
      ensures extents != [] && size > 0 ==>
        r == if location + size <= |Bytes()| then Some(Bytes()[location..location + size]) else None
    {
      hide Flat, FileBytes, Addr, Distinct, BlocksOk, Count, Fits, ClearCount, Bit;
      RoomAlways();
      if extents == [] {
        return None;
      }
      var i: nat, inside: nat := Locate(location);
      var left: nat := size;
      var buffer := [];
      ghost var bytes := Bytes();
      FileLength(volume.image, extents, volume.blockSize);
      CountWhole(extents);
      while left > 0
        invariant i <= |extents| && |buffer| + left == size
        invariant Addr(Count(extents[..i]), volume.blockSize) + inside == location + |buffer|
        invariant i < |extents| ==> inside <= Addr(extents[i].blockCount, volume.blockSize)
        invariant buffer != [] ==> location + |buffer| <= |bytes| && buffer == bytes[location..location + |buffer|]
        decreases |extents| - i
      {
        if i == |extents| {
          return None;
        }
        var e := extents[i];
        var possible := Addr(e.blockCount, volume.blockSize) - inside;
        var n := if left > possible then possible else left;
        ReadInExtent(volume.image, extents, volume.blockSize, i, inside, n);
        var from := Addr(e.startBlock, volume.blockSize) + inside;
        NextPiece(bytes, location, |buffer|, n);
        buffer := buffer + volume.image[from..from + n];
        if left > possible {
          CountNext(extents, i);
          AddrLaws(Count(extents[..i]), e.blockCount, volume.blockSize);
          left := left - possible;
          i := i + 1;
        } else {
          break;
        }
        inside := 0;
      }
      return Some(buffer);
    }

    /**
     Writes across extents, first making room when the file is too short. Fails, changing
     nothing, exactly when there are too few free blocks for that. The data go where they belong
     on any volume; the other bytes of this file and of other files are as before while the blocks
     that made room begin below 4 GB.
     */
    method Write(location: nat, data: seq<byte>) returns (ok: bool)
      requires Valid() && (extents != [] || location + |data| > 0)
      requires location + |data| <= Addr(WORD - 1, volume.blockSize)
      modifies this`extents, this`logicalSize, this`totalBlocks
      modifies volume`bits, volume`image, volume`freeBlocks, volume`nextAllocation
      ensures Valid()
      ensures ok <==> location + |data| <= Addr(old(totalBlocks + volume.freeBlocks), volume.blockSize)
      ensures logicalSize <= Addr(totalBlocks, volume.blockSize) < logicalSize + volume.blockSize
      ensures !ok ==> unchanged(this) && unchanged(volume)
      ensures ok ==> logicalSize == if old(logicalSize) < location + |data| then location + |data| else old(logicalSize)
      ensures totalBlocks + volume.freeBlocks == old(totalBlocks + volume.freeBlocks)
      ensures old(Flat(extents)) <= Flat(extents)
      ensures BlocksKept(old(Flat(extents)), Flat(extents), old(volume.bits), volume.bits)
      ensures Room() && old(Room())
      ensures ok ==>
        && location + |data| <= Addr(totalBlocks, volume.blockSize)
        && WrittenOver(old(volume.image), volume.image, Added(old(Flat(extents)), Flat(extents)), extents, volume.bits,
                       volume.blockSize, location, data)
      ensures ok && AllLow(Added(old(Flat(extents)), Flat(extents)), volume.blockSize) ==>
        Bytes() == WriteAt(Resized(old(Bytes()), Addr(totalBlocks, volume.blockSize)), location, data)
      ensures AllLow(Added(old(Flat(extents)), Flat(extents)), volume.blockSize) ==>
        OthersKept(old(Flat(extents)), Flat(extents), old(volume.bits), volume.bits, old(volume.image),
                   volume.image, volume.blockSize)
      ensures Addr(volume.totalBlocks, volume.blockSize) <= WORD ==>
        AllLow(Added(old(Flat(extents)), Flat(extents)), volume.blockSize)
    {
      hide Flat, FileBytes, Addr, Distinct, BlocksOk, OthersKept, BlocksKept, Fits, WriteAt, Resized, Bit, AllLow,
           Added, Zeroings, BlocksFit;
      RoomAlways();
      ghost var es0, bits0, image0 := extents, volume.bits, volume.image;
      NothingDone(es0, bits0, image0, volume.blockSize, volume.totalBlocks);
      NothingAdded(Flat(es0), Flat(es0), image0, volume.blockSize);
      SmallVolume(Flat(es0), Flat(es0), bits0, volume.blockSize, volume.totalBlocks);
      BlocksForLaws(logicalSize, location + |data|, volume.blockSize);
      RoomFor(location + |data|, volume.blockSize, WORD - 1);
      RoomFor(logicalSize, volume.blockSize, totalBlocks);
      AddrLaws(totalBlocks, volume.freeBlocks, volume.blockSize);
      if logicalSize < location + |data| {
        ok := Allocate(location + |data|);
        if !ok {
          return;
        }
      }
      ghost var image1, bytes1 := volume.image, Bytes();
      BlocksForLaws(location + |data|, logicalSize, volume.blockSize);
      RoomFor(logicalSize, volume.blockSize, totalBlocks);
      FileLength(image1, extents, volume.blockSize);
      FlatLength(extents);
      Overwrite(location, data);
      if AllLow(Added(Flat(es0), Flat(extents)), volume.blockSize) {
        KeptTwice(Flat(es0), Flat(extents), bits0, volume.bits, image0, image1, volume.image, volume.blockSize);
      }
      return true;
    }

    /** Puts data into the blocks the file has. */
    method Overwrite(location: nat, data: seq<byte>)
      requires Valid() && extents != [] && location + |data| <= Addr(Count(extents), volume.blockSize)
      modifies volume`image
      ensures Valid() && Room() && old(Room()) && location + |data| <= old(|Bytes()|)
      ensures Bytes() == WriteAt(old(Bytes()), location, data)
      ensures OthersKept(Flat(extents), Flat(extents), volume.bits, volume.bits, old(volume.image), volume.image,
                         volume.blockSize)
    {
      hide Flat, FileBytes, Addr, Distinct, BlocksOk, OthersKept, Fits, WriteAt, Resized, Bit, Count;
      RoomAlways();
      ghost var image0, bytes := volume.image, Bytes();
      NothingDone(extents, volume.bits, image0, volume.blockSize, volume.totalBlocks);
      FileLength(image0, extents, volume.blockSize);
      CountWhole(extents);
      WriteNothing(bytes, location);
      var i: nat, inside: nat := Locate(location);
      var left := data;
      ghost var done: nat := 0;
      while |left| > 0
        invariant done + |left| == |data| && left == data[done..] && i <= |extents|
        invariant |left| > 0 ==> Addr(Count(extents[..i]), volume.blockSize) + inside == location + done
        invariant i < |extents| ==> inside <= Addr(extents[i].blockCount, volume.blockSize)
        invariant |volume.image| == |image0| && Fits(volume.image, extents, volume.blockSize)
        invariant Bytes() == WriteAt(bytes, location, data[..done])
        invariant OthersKept(Flat(extents), Flat(extents), volume.bits, volume.bits, image0, volume.image,
                             volume.blockSize)
        decreases |extents| - i
        modifies volume`image
      {
        if i == |extents| {
          assert false;
        }
        var e := extents[i];
        var possible := Addr(e.blockCount, volume.blockSize) - inside;
        var n := if |left| > possible then possible else |left|;
        WriteInExtent(volume.image, extents, volume.blockSize, i, inside, left[..n]);
        WriteStep(extents, volume.bits, image0, volume.image, volume.blockSize, i, inside, left[..n]);
        WriteMore(bytes, location, data, done, n);
        volume.image := WriteAt(volume.image, Addr(e.startBlock, volume.blockSize) + inside, left[..n]);
        done := done + n;
        left := left[n..];
        if |left| == 0 {
          break;
        }
        CountNext(extents, i);
        AddrLaws(Count(extents[..i]), e.blockCount, volume.blockSize);
        i := i + 1;
        inside := 0;
      }
      assert data[..done] == data;
    }

    /** The file's extents lie inside the image. */
    ghost predicate Room()
      reads this, volume
    {
      Fits(volume.image, extents, volume.blockSize)
    }

    lemma RoomAlways()
      requires Sound()
      ensures Room()
    {
      OkFits(extents, volume.bits, volume.image, volume.blockSize, volume.totalBlocks);
    }
  }

  /** After the zeros for the new blocks, the data have gone over the file's bytes and over nothing else. */
  ghost predicate WrittenOver(image0: seq<byte>, image: seq<byte>, fresh0: seq<nat>, es: seq<Extent>, bits: seq<bv8>,
                              size: nat, location: nat, data: seq<byte>)
  {
    && BlocksFit(image0, fresh0, size) && |image| == |image0| && Fits(image, es, size)
    && Fits(Zeroings(image0, fresh0, size), es, size)
    && location + |data| <= |FileBytes(Zeroings(image0, fresh0, size), es, size)|
    && FileBytes(image, es, size) == WriteAt(FileBytes(Zeroings(image0, fresh0, size), es, size), location, data)
    && OthersKept(Flat(es), Flat(es), bits, bits, Zeroings(image0, fresh0, size), image, size)
  }

  /** s cut or filled up with zeros to n bytes. */
  ghost function Resized(s: seq<byte>, n: nat): (r: seq<byte>)
    ensures |r| == n
  {
    if n <= |s| then s[..n] else s + seq(n - |s|, _ => 0)
  }

  /** The blocks of other files stay in use and do not come to this one. */
  ghost predicate BlocksKept(own0: seq<nat>, own: seq<nat>, bits0: seq<bv8>, bits: seq<bv8>)
  {
    && |bits| == |bits0|
    && forall b: nat :: b < 8 * |bits0| && Bit(bits0, b) && b !in own0 ==> Bit(bits, b) && b !in own
  }

  /** What a change of one file's block list leaves alone: every other block in use, and its bytes. */
  ghost predicate OthersKept(own0: seq<nat>, own: seq<nat>, bits0: seq<bv8>, bits: seq<bv8>,
                             image0: seq<byte>, image: seq<byte>, size: nat)
  {
    && size > 0 && BlocksKept(own0, own, bits0, bits) && |image| == |image0|
    && (forall x: nat :: x < |image| && x / size < 8 * |bits0| && Bit(bits0, x / size) && x / size !in own0 ==>
      image[x] == image0[x])
  }

  /** The block count is the least one with room for the size. */
  lemma RoomFor(size: nat, blockSize: nat, n: nat)
    requires blockSize > 0
    ensures size <= Addr(n, blockSize) <==> BlocksFor(size, blockSize) <= n
    ensures size <= Addr(BlocksFor(size, blockSize), blockSize) < size + blockSize
  {
    var m := BlocksFor(size, blockSize);
    var q := size / blockSize;
    assert q * blockSize <= size < q * blockSize + blockSize;
    AddrLaws(q, 1, blockSize);
    if m <= n {
      AddrLaws(m, n, blockSize);
    } else {
      AddrLaws(n + 1, m, blockSize);
      AddrLaws(n, 1, blockSize);
    }
  }

  lemma BlocksForLaws(a: nat, b: nat, size: nat)
    requires size > 0
    ensures a <= b ==> BlocksFor(a, size) <= BlocksFor(b, size)
    ensures a <= Addr(BlocksFor(a, size), size) && b <= Addr(BlocksFor(b, size), size)
    ensures a == 0 ==> BlocksFor(a, size) == 0
    ensures a > 0 ==> BlocksFor(a, size) > 0
  {
    hide BlocksFor, Addr;
    RoomFor(a, size, BlocksFor(b, size));
    RoomFor(b, size, BlocksFor(b, size));
    RoomFor(a, size, BlocksFor(a, size));
    RoomFor(a, size, 0);
    AddrLaws(0, 0, size);
  }

  lemma NextPiece(s: seq<byte>, at: nat, m: nat, n: nat)
    requires at + m + n <= |s|
    ensures s[at..at + m] + s[at + m..at + m + n] == s[at..at + m + n]
    ensures m == 0 ==> s[at..at + m] == []
  {
  }

  lemma WriteNothing(s: seq<byte>, at: nat)
    requires at <= |s|
    ensures WriteAt(s, at, []) == s
  {
  }

  lemma WriteMore(s: seq<byte>, at: nat, d: seq<byte>, done: nat, n: nat)
    requires at + |d| <= |s| && done + n <= |d|
    ensures WriteAt(WriteAt(s, at, d[..done]), at + done, d[done..][..n]) == WriteAt(s, at, d[..done + n])
  {
  }

  lemma KeptTwice(own0: seq<nat>, own: seq<nat>, bits0: seq<bv8>, bits: seq<bv8>,
                  image0: seq<byte>, image1: seq<byte>, image: seq<byte>, size: nat)
    requires OthersKept(own0, own, bits0, bits, image0, image1, size)
    requires OthersKept(own, own, bits, bits, image1, image, size)
    ensures OthersKept(own0, own, bits0, bits, image0, image, size)
  {
    hide Bit;
  }

  /** A write inside an extent touches no block of another file. */
  lemma WriteStep(es: seq<Extent>, bits: seq<bv8>, image0: seq<byte>, image: seq<byte>, size: nat, i: nat, off: nat,
                  d: seq<byte>)
    requires OthersKept(Flat(es), Flat(es), bits, bits, image0, image, size)
    requires Fits(image, es, size) && i < |es| && off + |d| <= Addr(es[i].blockCount, size)
    ensures Addr(es[i].startBlock, size) + off + |d| <= |image|
    ensures OthersKept(Flat(es), Flat(es), bits, bits, image0, WriteAt(image, Addr(es[i].startBlock, size) + off, d),
                       size)
  {
    hide Bit, Flat, Addr;
    var e := es[i];
    AddrLaws(e.startBlock, e.blockCount, size);
    var at := Addr(e.startBlock, size) + off;
    forall x: nat | at <= x < at + |d|
      ensures x / size in Flat(es)
    {
      BlockOf(x, size, e.startBlock, e.blockCount);
      FlatAt(es, i, x / size - e.startBlock);
    }
  }

  /** A file none of whose blocks belong to the changed file keeps its bytes and its blocks to itself. */
  lemma OtherFile(es: seq<Extent>, own0: seq<nat>, own: seq<nat>, bits0: seq<bv8>, bits: seq<bv8>,
                  image0: seq<byte>, image: seq<byte>, size: nat, total: nat)
    requires OthersKept(own0, own, bits0, bits, image0, image, size)
    requires ExtentsOk(es, bits0, total) && forall b :: b in Flat(es) ==> b !in own0
    requires |image0| == Addr(total, size) && total <= 8 * |bits0|
    ensures ExtentsOk(es, bits, total) && forall b :: b in Flat(es) ==> b !in own
    ensures Fits(image0, es, size) && Fits(image, es, size)
    ensures FileBytes(image, es, size) == FileBytes(image0, es, size)
  {
    hide Flat, Distinct, FileBytes, Fits;
    assert BlocksOk(Flat(es), bits, total) by {
      forall i | 0 <= i < |Flat(es)|
        ensures Bit(bits, Flat(es)[i])
      {
        assert Flat(es)[i] in Flat(es);
      }
    }
    OkFits(es, bits0, image0, size, total);
    OkFits(es, bits, image, size, total);
    forall i, x | 0 <= i < |es| && Addr(es[i].startBlock, size) <= x < Addr(es[i].startBlock + es[i].blockCount, size)
      ensures x < |image| && image[x] == image0[x]
    {
      OtherByte(es, own0, own, bits0, bits, image0, image, size, total, i, x);
    }
    SameFile(image, image0, es, size);
  }

  lemma OtherByte(es: seq<Extent>, own0: seq<nat>, own: seq<nat>, bits0: seq<bv8>, bits: seq<bv8>,
                  image0: seq<byte>, image: seq<byte>, size: nat, total: nat, i: nat, x: nat)
    requires OthersKept(own0, own, bits0, bits, image0, image, size)
    requires ExtentsOk(es, bits0, total) && forall b :: b in Flat(es) ==> b !in own0
    requires |image0| == Addr(total, size) && total <= 8 * |bits0|
    requires i < |es| && Addr(es[i].startBlock, size) <= x < Addr(es[i].startBlock + es[i].blockCount, size)
    ensures x < |image| && image[x] == image0[x]
  {
    hide Flat, Distinct, Addr;
    OkFits(es, bits0, image0, size, total);
    assert Addr(es[i].startBlock + es[i].blockCount, size) <= |image0|;
    BlockOf(x, size, es[i].startBlock, es[i].blockCount);
    FlatAt(es, i, x / size - es[i].startBlock);
    assert x / size in Flat(es);
  }

  lemma OkFits(es: seq<Extent>, bits: seq<bv8>, image: seq<byte>, size: nat, total: nat)
    requires ExtentsOk(es, bits, total) && |image| == Addr(total, size)
    ensures Fits(image, es, size)
  {
    forall i | 0 <= i < |es|
      ensures Addr(es[i].startBlock + es[i].blockCount, size) <= |image|
    {
      FlatAt(es, i, es[i].blockCount - 1);
      AddrLaws(es[i].startBlock + es[i].blockCount, total, size);
    }
  }

  lemma NothingDone(es: seq<Extent>, bits: seq<bv8>, image: seq<byte>, size: nat, total: nat)
    requires ExtentsOk(es, bits, total) && |image| == Addr(total, size) && size > 0
    ensures BlocksKept(Flat(es), Flat(es), bits, bits)
    ensures OthersKept(Flat(es), Flat(es), bits, bits, image, image, size)
    ensures Fits(image, es, size)
      && FileBytes(image, es, size) == Resized(FileBytes(image, es, size), Addr(|Flat(es)|, size))
  {
    OkFits(es, bits, image, size, total);
    FileLength(image, es, size);
    FlatLength(es);
  }

  lemma ShrinkResult(es0: seq<Extent>, es: seq<Extent>, n: nat, bits0: seq<bv8>, bits: seq<bv8>, image: seq<byte>,
                     size: nat, total: nat)
    requires ExtentsOk(es0, bits0, total) && |image| == Addr(total, size) && size > 0
    requires n <= |Flat(es0)| && Flat(es) == Flat(es0)[..n] && forall i :: 0 <= i < |es| ==> es[i].blockCount > 0
    requires Cleared(bits0, bits, Flat(es0)[n..])
    ensures ExtentsOk(es, bits, total) && |Flat(es)| == n && Flat(es) <= Flat(es0)
    ensures BlocksKept(Flat(es0), Flat(es), bits0, bits)
    ensures OthersKept(Flat(es0), Flat(es), bits0, bits, image, image, size)
    ensures Fits(image, es, size) && Fits(image, es0, size)
    ensures FileBytes(image, es, size) == Resized(FileBytes(image, es0, size), Addr(n, size))
  {
    hide Flat, FileBytes, Blocks, Bit, Addr;
    ShrinkBlocks(Flat(es0), n, bits0, bits, total);
    OkFits(es0, bits0, image, size, total);
    OkFits(es, bits, image, size, total);
    FileIsBlocks(image, es0, size);
    FileIsBlocks(image, es, size);
    var s := Flat(es0);
    assert s == s[..n] + s[n..];
    BlocksCat(image, s[..n], s[n..], size);
    BlocksLength(image, s[..n], size);
  }

  lemma ShrinkBlocks(s: seq<nat>, n: nat, bits0: seq<bv8>, bits: seq<bv8>, total: nat)
    requires n <= |s| && Distinct(s) && BlocksOk(s, bits0, total) && Cleared(bits0, bits, s[n..])
    ensures Distinct(s[..n]) && BlocksOk(s[..n], bits, total)
    ensures forall b: nat :: b < 8 * |bits0| && Bit(bits0, b) && b !in s ==> Bit(bits, b) && b !in s[..n]
  {
    hide Bit;
    forall i | 0 <= i < n
      ensures s[i] < 8 * |bits| && Bit(bits, s[i])
    {
      assert s[i] !in s[n..];
    }
  }

  /**
   Growth takes blocks that were free and puts them behind the old ones. When they all begin below
   4 GB the file gains zeros and nothing else changes.
   */
  lemma GrowResult(es0: seq<Extent>, es: seq<Extent>, taken: seq<nat>, bits0: seq<bv8>, bits: seq<bv8>,
                   image0: seq<byte>, image: seq<byte>, size: nat, total: nat)
    requires ExtentsOk(es0, bits0, total) && |image0| == Addr(total, size)
    requires Grown(es0, es, taken, bits0, bits, image0, image, size, total)
    requires forall i :: 0 <= i < |es| ==> es[i].blockCount > 0
    ensures ExtentsOk(es, bits, total) && |Flat(es)| == |Flat(es0)| + |taken| && Flat(es0) <= Flat(es)
    ensures Added(Flat(es0), Flat(es)) == taken && BlocksKept(Flat(es0), Flat(es), bits0, bits)
    ensures BlocksFit(image0, taken, size) && image == Zeroings(image0, taken, size)
    ensures Fits(image, es, size) && Fits(image0, es0, size)
    ensures AllLow(taken, size) ==>
      && OthersKept(Flat(es0), Flat(es), bits0, bits, image0, image, size)
      && FileBytes(image, es, size) == Resized(FileBytes(image0, es0, size), Addr(|Flat(es)|, size))
  {
    hide Flat, FileBytes, Blocks, Bit, Addr, BlocksOk, Distinct, OthersKept, BlocksKept, AllLow, Zeroings, BlocksFit;
    GrowBlocks(Flat(es0), taken, bits0, bits, total);
    OkFits(es0, bits0, image0, size, total);
    OkFits(es, bits, image, size, total);
    if AllLow(taken, size) {
      LowZeroed(image0, taken, size);
      GrowKeeps(Flat(es0), taken, bits0, bits, image0, image, size);
      FileIsBlocks(image0, es0, size);
      FileIsBlocks(image, es, size);
      GrowBytes(Flat(es0), taken, bits0, bits, image0, image, size, total);
    }
  }

  lemma GrowKeeps(s: seq<nat>, taken: seq<nat>, bits0: seq<bv8>, bits: seq<bv8>, image0: seq<byte>, image: seq<byte>,
                  size: nat)
    requires size > 0 && BlocksKept(s, s + taken, bits0, bits) && Zeroed(image0, image, taken, size)
    requires forall i :: 0 <= i < |taken| ==> taken[i] >= 8 * |bits0| || !Bit(bits0, taken[i])
    ensures OthersKept(s, s + taken, bits0, bits, image0, image, size)
  {
    hide Bit;
  }

  lemma GrowBlocks(s: seq<nat>, taken: seq<nat>, bits0: seq<bv8>, bits: seq<bv8>, total: nat)
    requires total <= 8 * |bits0| && Distinct(s) && BlocksOk(s, bits0, total) && Distinct(taken)
    requires forall i :: 0 <= i < |taken| ==> taken[i] + 1 < total && !Bit(bits0, taken[i])
    requires Marked(bits0, bits, taken)
    ensures Distinct(s + taken) && BlocksOk(s + taken, bits, total) && BlocksOk(s, bits, total)
      && BlocksOk(taken, bits, total)
    ensures forall i :: 0 <= i < |s| ==> s[i] !in taken
    ensures BlocksKept(s, s + taken, bits0, bits)
  {
    hide Bit;
  }

  /** Zeros for blocks that begin below 4 GB land on these blocks. */
  lemma {:induction false} LowZeroed(image: seq<byte>, s: seq<nat>, size: nat)
    requires size > 0 && BlocksFit(image, s, size) && AllLow(s, size)
    ensures Zeroed(image, Zeroings(image, s, size), s, size)
    decreases |s|
  {
    if s != [] {
      var n := |s| - 1;
      LowZeroed(image, s[..n], size);
      ZeroPlaceFits(s[n], size);
      ZeroStep(image, Zeroings(image, s[..n], size), s[..n], size, s[n]);
      assert s == s[..n] + [s[n]];
    }
  }

  /** Zeros written at 32-bit positions never reach the end of a block that begins above. */
  lemma {:induction false} NeverReached(image: seq<byte>, s: seq<nat>, size: nat, x: nat)
    requires size > 0 && BlocksFit(image, s, size) && WORD + size - 1 <= x < |image|
    ensures Zeroings(image, s, size)[x] == image[x]
    decreases |s|
  {
    if s != [] {
      NeverReached(image, s[..|s| - 1], size, x);
      ZeroPlaceFits(s[|s| - 1], size);
    }
  }

  /**
   The zeros for a list of blocks land on these blocks, and on no other, whatever the volume holds,
   if and only if all of them begin below 4 GB.
   */
  lemma ZerosLand(s: seq<nat>, size: nat, n: nat)
    requires size > 0 && forall i :: 0 <= i < |s| ==> Addr(s[i] + 1, size) <= n
    ensures (forall image: seq<byte> :: |image| == n && BlocksFit(image, s, size) ==>
               Zeroed(image, Zeroings(image, s, size), s, size))
      <==> AllLow(s, size)
  {
    hide Zeroed, Zeroings;
    if AllLow(s, size) {
      forall image: seq<byte> | |image| == n && BlocksFit(image, s, size)
        ensures Zeroed(image, Zeroings(image, s, size), s, size)
      {
        LowZeroed(image, s, size);
      }
    } else {
      var i :| 0 <= i < |s| && Addr(s[i], size) >= WORD;
      var ones: seq<byte> := seq(n, _ => 1);
      assert BlocksFit(ones, s, size);
      var x := Addr(s[i], size) + size - 1;
      ZeroPlaceFits(s[i], size);
      NeverReached(ones, s, size, x);
      LastByte(ones, s, size, i, x);
    }
  }

  lemma LastByte(image: seq<byte>, s: seq<nat>, size: nat, i: nat, x: nat)
    requires size > 0 && BlocksFit(image, s, size) && i < |s| && x == Addr(s[i], size) + size - 1 < |image|
    requires Zeroings(image, s, size)[x] == image[x] == 1
    ensures !Zeroed(image, Zeroings(image, s, size), s, size)
  {
    hide Zeroings;
    InBlock(x, size, s[i]);
    assert x / size in s;
  }

  /** A block that begins above 4 GB keeps its old bytes when it is taken. */
  lemma HighKeeps(image: seq<byte>, b: nat, size: nat)
    requires size <= WORD <= Addr(b, size) && Addr(b + 1, size) <= |image|
    ensures Block(ZeroOne(image, b, size), b, size) == Block(image, b, size)
  {
    hide Addr;
    ZeroPlaceFits(b, size);
    var q := Addr(b, size) / WORD;
    assert q >= 1 && ZeroPlace(b, size) == Addr(b, size) - q * WORD;
  }

  /** With blocks of 4096 bytes, taking block 2^20 zeroes block 0, where the volume header is. */
  method TakeHighBlock(volume: Volume)
    requires volume.Valid() && volume.blockSize == 4096
    requires 0x10_0000 < volume.totalBlocks && !Bit(volume.bits, 0x10_0000)
    modifies volume`bits, volume`freeBlocks, volume`image
    ensures volume.Valid() && Bit(volume.bits, 0x10_0000)
    ensures Addr(0x10_0001, 4096) <= |volume.image| == |old(volume.image)| && Addr(1, 4096) <= |volume.image|
    ensures Block(volume.image, 0, 4096) == seq(4096, _ => 0)
    ensures Block(volume.image, 0x10_0000, 4096) == old(Block(volume.image, 0x10_0000, 4096))
  {
    ghost var image, bits := volume.image, volume.bits;
    volume.Claim(0x10_0000);
    UpdateBit(bits, 0x10_0000, 0x10_0000);
    HighKeeps(image, 0x10_0000, 4096);
    BlockZeroed(image);
  }

  lemma BlockZeroed(image: seq<byte>)
    requires Addr(0x10_0001, 4096) <= |image|
    ensures Addr(1, 4096) <= |image| && Block(ZeroOne(image, 0x10_0000, 4096), 0, 4096) == seq(4096, _ => 0)
  {
    assert ZeroPlace(0x10_0000, 4096) == 0;
  }

  /**
   On a volume of ones, a file that takes block 2^20 does not read as zero there, and the file in
   block 0 is zeroed.
   */
  lemma HighVolume()
    ensures var image := seq(Addr(0x10_0002, 4096), _ => 1 as byte);
      && BlocksFit(image, [0x10_0000], 4096)
      && Fits(image, [Extent(0, 1)], 4096) && Fits(image, [Extent(0x10_0000, 1)], 4096)
      && FileBytes(image, [Extent(0, 1)], 4096) == seq(4096, _ => 1)
      && FileBytes(Zeroings(image, [0x10_0000], 4096), [Extent(0, 1)], 4096) == seq(4096, _ => 0)
      && FileBytes(Zeroings(image, [0x10_0000], 4096), [Extent(0x10_0000, 1)], 4096) == seq(4096, _ => 1)
  {
    var image := seq(Addr(0x10_0002, 4096), _ => 1 as byte);
    HighImage(image);
  }

  lemma HighImage(image: seq<byte>)
    requires |image| == Addr(0x10_0002, 4096) && forall x :: 0 <= x < |image| ==> image[x] == 1
    ensures BlocksFit(image, [0x10_0000], 4096)
      && Fits(image, [Extent(0, 1)], 4096) && Fits(image, [Extent(0x10_0000, 1)], 4096)
      && FileBytes(image, [Extent(0, 1)], 4096) == seq(4096, _ => 1)
      && FileBytes(Zeroings(image, [0x10_0000], 4096), [Extent(0, 1)], 4096) == seq(4096, _ => 0)
      && FileBytes(Zeroings(image, [0x10_0000], 4096), [Extent(0x10_0000, 1)], 4096) == seq(4096, _ => 1)
  {
    var after := ZeroOne(image, 0x10_0000, 4096);
    assert [0x10_0000 as nat][..0] == [];
    assert Zeroings(image, [], 4096) == image;
    assert Zeroings(image, [0x10_0000], 4096) == after;
    BlockZeroed(image);
    HighKeeps(image, 0x10_0000, 4096);
    OneBlockFile(image, 0, 4096);
    OneBlockFile(after, 0, 4096);
    OneBlockFile(after, 0x10_0000, 4096);
  }

  lemma OneBlockFile(image: seq<byte>, b: nat, size: nat)
    requires Addr(b + 1, size) <= |image|
    ensures Fits(image, [Extent(b, 1)], size) && FileBytes(image, [Extent(b, 1)], size) == Block(image, b, size)
  {
    FileIsBlocks(image, [Extent(b, 1)], size);
    FlatOne(Extent(b, 1));
  }

  lemma NothingAdded(before: seq<nat>, after: seq<nat>, image: seq<byte>, size: nat)
    requires |after| <= |before|
    ensures Added(before, after) == [] && BlocksFit(image, [], size) && Zeroings(image, [], size) == image
    ensures AllLow([], size)
  {
  }

  /** On a volume of at most 4 GB every block begins below 4 GB. */
  lemma SmallVolume(before: seq<nat>, own: seq<nat>, bits: seq<bv8>, size: nat, total: nat)
    requires BlocksOk(own, bits, total) && size > 0
    ensures Addr(total, size) <= WORD ==> AllLow(Added(before, own), size)
  {
    hide Bit, Addr;
    var s := Added(before, own);
    forall i | 0 <= i < |s|
      ensures Addr(s[i], size) < Addr(total, size)
    {
      assert s[i] == own[|before| + i];
      ZeroPlaceFits(s[i], size);
      AddrLaws(s[i] + 1, total, size);
    }
  }

  lemma GrowBytes(s: seq<nat>, taken: seq<nat>, bits0: seq<bv8>, bits: seq<bv8>, image0: seq<byte>, image: seq<byte>,
                  size: nat, total: nat)
    requires size > 0 && |image0| == Addr(total, size) && BlocksOk(s, bits0, total)
    requires BlocksOk(s, bits, total) && BlocksOk(taken, bits, total) && Zeroed(image0, image, taken, size)
    requires forall i :: 0 <= i < |s| ==> s[i] !in taken
    ensures BlocksFit(image0, s, size) && BlocksFit(image, s + taken, size)
    ensures Blocks(image, s + taken, size) == Resized(Blocks(image0, s, size), Addr(|s + taken|, size))
  {
    hide Blocks, Bit, Addr;
    OkBlocksFit(s, bits0, image0, size, total);
    OkBlocksFit(s, bits, image, size, total);
    OkBlocksFit(taken, bits, image, size, total);
    BlocksCat(image, s, taken, size);
    forall i | 0 <= i < |s|
      ensures Block(image, s[i], size) == Block(image0, s[i], size)
    {
      SameBlock(image0, image, taken, size, s[i]);
    }
    SameBlocks(image, image0, s, size);
    ZeroBlocks(image0, image, taken, taken, size);
    BlocksLength(image0, s, size);
    AddrLaws(|s|, |taken|, size);
  }

  lemma OkBlocksFit(s: seq<nat>, bits: seq<bv8>, image: seq<byte>, size: nat, total: nat)
    requires BlocksOk(s, bits, total) && |image| == Addr(total, size)
    ensures BlocksFit(image, s, size)
  {
    forall i | 0 <= i < |s|
      ensures Addr(s[i] + 1, size) <= |image|
    {
      AddrLaws(s[i] + 1, total, size);
    }
  }

  lemma SameBlock(before: seq<byte>, image: seq<byte>, taken: seq<nat>, size: nat, b: nat)
    requires size > 0 && Zeroed(before, image, taken, size) && b !in taken && Addr(b + 1, size) <= |image|
    ensures Block(image, b, size) == Block(before, b, size)
  {
    AddrLaws(b, 1, size);
    forall x | Addr(b, size) <= x < Addr(b + 1, size)
      ensures image[x] == before[x]
    {
      InBlock(x, size, b);
    }
  }

  lemma {:induction false} ZeroBlocks(before: seq<byte>, image: seq<byte>, taken: seq<nat>, s: seq<nat>, size: nat)
    requires size > 0 && Zeroed(before, image, taken, size) && BlocksFit(image, s, size)
    requires forall i :: 0 <= i < |s| ==> s[i] in taken
    ensures Blocks(image, s, size) == seq(Addr(|s|, size), _ => 0)
  {
    AddrLaws(0, 0, size);
    if s != [] {
      ZeroBlocks(before, image, taken, s[1..], size);
      AddrLaws(s[0], 1, size);
      AddrLaws(1, |s| - 1, size);
      forall x | Addr(s[0], size) <= x < Addr(s[0] + 1, size)
        ensures image[x] == 0
      {
        InBlock(x, size, s[0]);
      }
      assert Block(image, s[0], size) == seq(size, _ => 0);
    }
  }

  /** The bits after clearing those of s. */
  ghost predicate Cleared(before: seq<bv8>, after: seq<bv8>, s: seq<nat>)
  {
    && |after| == |before|
    && forall n: nat :: n < 8 * |before| ==> (Bit(after, n) <==> Bit(before, n) && n !in s)
  }

  lemma CountNone(es: seq<Extent>)
    ensures Count(es[..0]) == 0
  {
  }

  lemma CountAll(es: seq<Extent>)
    ensures Count(es[..|es|]) == |Flat(es)| && Flat(es)[..|Flat(es)|] == Flat(es)
  {
    assert es[..|es|] == es;
    FlatLength(es);
  }

  lemma CountNext(es: seq<Extent>, i: nat)
    requires i < |es|
    ensures Count(es[..i + 1]) == Count(es[..i]) + es[i].blockCount
    ensures Count(es[..i + 1]) <= |Flat(es)| && (i + 1 == |es| ==> Count(es[..i + 1]) == |Flat(es)|)
  {
    assert es[..i + 1] == es[..i] + [es[i]];
    FlatCat(es[..i], [es[i]]);
    FlatOne(es[i]);
    assert es == es[..i + 1] + es[i + 1..];
    FlatCat(es[..i + 1], es[i + 1..]);
    FlatLength(es[..i + 1]);
  }

  lemma CountWhole(es: seq<Extent>)
    ensures Count(es[..|es|]) == Count(es)
  {
    assert es[..|es|] == es;
  }

  lemma FlatEmpty(es: seq<Extent>)
    ensures Flat([]) == [] == Flat(es)[..0]
  {
  }

  /** An extent without blocks adds nothing. */
  lemma FlatNone(es: seq<Extent>, e: Extent)
    ensures Flat(es + [Extent(e.startBlock, 0)]) == Flat(es)
  {
    FlatCat(es, [Extent(e.startBlock, 0)]);
    FlatOne(Extent(e.startBlock, 0));
  }

  lemma ClearStart(bits: seq<bv8>, es: seq<Extent>, p: nat)
    requires p <= |Flat(es)|
    ensures Cleared(bits, bits, Flat(es)[p..p])
  {
  }

  /** Clearing the next block of the tail. */
  lemma ClearStep(before: seq<bv8>, bits: seq<bv8>, s: seq<nat>, from: nat, p: nat, total: nat)
    requires from <= p < |s| && Distinct(s) && BlocksOk(s, before, total) && 0 < total <= 8 * |before|
    requires Cleared(before, bits, s[from..p])
    ensures s[p] < 8 * |bits| && s[p] + 1 < total && Bit(bits, s[p])
    ensures Cleared(before, ClearBit(bits, s[p]), s[from..p + 1])
  {
    var c := s[p];
    assert s[from..p + 1] == s[from..p] + [c];
    assert c !in s[from..p];
    forall n: nat | n < 8 * |before|
      ensures Bit(ClearBit(bits, c), n) <==> Bit(before, n) && n !in s[from..p + 1]
    {
      UpdateBit(bits, c, n);
    }
  }

  lemma SomeFree(bits: seq<bv8>, total: nat) returns (b: nat)
    requires total <= 8 * |bits| && ClearCount(bits, total) > 0
    ensures b < total && !Bit(bits, b)
  {
    ClearExists(bits, total);
    b :| b < total && !Bit(bits, b);
  }

  lemma FlatNewExtent(es: seq<Extent>)
    ensures Flat(es + [Extent(0, 0)]) == Flat(es)
  {
    FlatCat(es, [Extent(0, 0)]);
    FlatOne(Extent(0, 0));
  }

  lemma GrowStart(es0: seq<Extent>, es: seq<Extent>, bits: seq<bv8>, image: seq<byte>, size: nat, total: nat)
    requires es == (if es0 == [] then [Extent(0, 0)] else es0) && size > 0 && total <= 8 * |bits|
    ensures Grown(es0, es, [], bits, bits, image, image, size, total)
  {
    FlatOne(Extent(0, 0));
  }

  /** The block behind the last extent is still inside the volume. */
  lemma LastInside(es: seq<Extent>, bits: seq<bv8>, total: nat)
    requires ExtentsOk(es, bits, total)
    ensures es != [] ==> es[|es| - 1].blockCount > 0 && es[|es| - 1].startBlock + es[|es| - 1].blockCount < total
    ensures forall i :: 0 <= i < |es| ==> es[i].blockCount > 0
  {
    if es != [] {
      var i := |es| - 1;
      FlatAt(es, i, es[i].blockCount - 1);
    }
  }

  lemma MoreExtents(es0: seq<Extent>, es: seq<Extent>, taken: seq<nat>, bits0: seq<bv8>, bits: seq<bv8>,
                    image0: seq<byte>, image: seq<byte>, size: nat, total: nat)
    requires Grown(es0, es, taken, bits0, bits, image0, image, size, total)
    ensures Grown(es0, es + [Extent(0, 0)], taken, bits0, bits, image0, image, size, total)
  {
    FlatNewExtent(es);
  }

  /** Taking block c for the last extent: it is free, follows the extent, and the zeros for it are written. */
  lemma GrowStep(es0: seq<Extent>, es: seq<Extent>, taken: seq<nat>, bits0: seq<bv8>, bits: seq<bv8>,
                 image0: seq<byte>, image: seq<byte>, size: nat, total: nat, last: Extent, c: nat)
    requires Grown(es0, es, taken, bits0, bits, image0, image, size, total) && es != []
    requires |image| == Addr(total, size) && 0 < total && c < total && !Bit(bits, c) && Bit(bits, total - 1)
    requires last == (if es[|es| - 1].blockCount == 0 then Extent(c, 0) else es[|es| - 1])
    requires es[|es| - 1].blockCount > 0 ==> c == last.startBlock + last.blockCount
    ensures c + 1 < total && Addr(c + 1, size) <= |image|
    ensures var grown := es[..|es| - 1] + [Extent(last.startBlock, last.blockCount + 1)];
      Grown(es0, grown, taken + [c], bits0, SetBit(bits, c), image0, ZeroOne(image, c, size), size, total)
    ensures Bit(SetBit(bits, c), total - 1)
    ensures ClearCount(SetBit(bits, c), total) == ClearCount(bits, total) - 1
  {
    hide Zeroings, ZeroOne, Addr, Bit, SetBit, ClearCount, Flat;
    AddrLaws(c + 1, total, size);
    var n := |es| - 1;
    assert es == es[..n] + [es[n]];
    FlatGrow(es[..n], last);
    if es[n].blockCount == 0 {
      FlatCat(es[..n], [es[n]]);
      FlatCat(es[..n], [last]);
      FlatOne(es[n]);
      FlatOne(last);
    }
    assert Flat(es0) + taken + [c] == Flat(es0) + (taken + [c]);
    MarkStep(bits0, bits, taken, c);
    UpdateBit(bits, c, total - 1);
    UpdateCount(bits, c, total);
    ZeroingsStep(image0, taken, c, size);
  }

  lemma ZeroingsStep(image: seq<byte>, s: seq<nat>, c: nat, size: nat)
    requires BlocksFit(image, s, size) && Addr(c + 1, size) <= |image|
    ensures BlocksFit(image, s + [c], size)
    ensures Zeroings(image, s + [c], size) == ZeroOne(Zeroings(image, s, size), c, size)
  {
    assert (s + [c])[..|s|] == s;
  }

  lemma MarkStep(before: seq<bv8>, bits: seq<bv8>, s: seq<nat>, c: nat)
    requires Marked(before, bits, s) && c < 8 * |bits| && !Bit(bits, c)
    ensures Marked(before, SetBit(bits, c), s + [c]) && c !in s && !Bit(before, c)
  {
    forall n: nat | n < 8 * |before|
      ensures Bit(SetBit(bits, c), n) <==> Bit(before, n) || n in s + [c]
    {
      UpdateBit(bits, c, n);
    }
  }

  lemma ZeroStep(before: seq<byte>, image: seq<byte>, s: seq<nat>, size: nat, c: nat)
    requires size > 0 && Zeroed(before, image, s, size) && Addr(c, size) + size <= |image|
    ensures Zeroed(before, WriteAt(image, Addr(c, size), seq(size, _ => 0)), s + [c], size)
  {
    var zeros := seq(size, _ => 0);
    var after := WriteAt(image, Addr(c, size), zeros);
    forall x | 0 <= x < |after|
      ensures after[x] == if x / size in s + [c] then 0 else before[x]
    {
      InBlock(x, size, c);
      if Addr(c, size) <= x < Addr(c, size) + size {
        assert after[x] == zeros[x - Addr(c, size)];
        assert x / size == (s + [c])[|s|];
      } else {
        assert x / size in s + [c] <==> x / size in s;
      }
    }
  }

  lemma InBlock(x: nat, size: nat, c: nat)
    requires size > 0
    ensures Addr(c, size) <= x < Addr(c, size) + size <==> x / size == c
  {
    AddrLaws(c, 1, size);
    if Addr(c, size) <= x < Addr(c, size) + size {
      BlockOf(x, size, c, 1);
    }
    assert x / size * size <= x < x / size * size + size;
  }
}
