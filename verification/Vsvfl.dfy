/**
 The virtual flash layer: virtual page numbers are interleaved over banks, translated to blocks
 of a chip by one of two vendor rules, and bad blocks are replaced from a reserved pool.
 */
module Vsvfl {
  import opened Arithmetic
  import opened Bitmap
  import opened Bitwise
  import opened Options

  datatype Vendor = Single | Masked | Divided     // 10001, the form of 100014, the form of 150011

  /** The sizes of a device. Two banks per chip for the vendors with a two-bank rule. */
  datatype Geometry = Geometry(vendor: Vendor, ces: nat, pagesPerBlock: nat, blocksPerBankVfl: nat,
                               blocksPerBank: nat, bankAddressSpace: nat, pagesPerBlock2: nat, poolStart: nat)
  {
    function Banks(): nat
    {
      if vendor == Single then 1 else 2
    }

    function BanksTotal(): nat
    {
      ces * Banks()
    }

    function BlocksPerCe(): nat
    {
      blocksPerBankVfl * Banks()
    }

    function PagesPerSublk(): nat
    {
      pagesPerBlock * BanksTotal()
    }

    function PoolSize(): nat
      requires poolStart <= blocksPerBankVfl
    {
      blocksPerBankVfl - poolStart
    }

    /**
     What the code needs of a device: a power of two of pages per block, banks that do not overlap,
     block numbers below the map's marks.
     */
    ghost predicate Valid()
    {
      && ces > 0 && 0 < blocksPerBank <= bankAddressSpace && poolStart < blocksPerBankVfl
      && pagesPerBlock <= pagesPerBlock2 && BlocksPerCe() <= 0xFFF0
      && (exists k :: pagesPerBlock == Pow2(k))
      && (vendor == Divided ==> pagesPerBlock >= 128)
    }
  }

  /** The rule of 0x150011: the page bits stay low, the bank bit goes in above them. */
  function MaskedPage(ces: nat, ppb: nat, vBank: nat, vPage: nat): nat
    requires ces > 0 && ppb > 0
  {
    var low := And(ppb - 1, vPage);
    var page := Or(low, 2 * (vPage - low));
    if Rem(Quot(vBank, ces), 2) == 1 then Or(page, ppb) else page
  }

  /** The rule of 0x100010, 0x100014 and 0x120014: division by the block size, and a page modulo 128. */
  function DividedPage(ces: nat, ppb: nat, vBank: nat, vPage: nat): nat
    requires ces > 0 && ppb > 0
  {
    var pBlock := 2 * Quot(vPage, ppb) + (if Rem(vBank, 2 * ces) >= ces then 1 else 0);
    Or(Scale(ppb, pBlock), Rem(vPage, 128))
  }

  function VirtualToPhysical(g: Geometry, vBank: nat, vPage: nat): (nat, nat)
    requires g.ces > 0 && g.pagesPerBlock > 0
  {
    match g.vendor
    case Single => (vBank, vPage)
    case Masked => (Rem(vBank, g.ces), MaskedPage(g.ces, g.pagesPerBlock, vBank, vPage))
    case Divided => (Rem(vBank, g.ces), DividedPage(g.ces, g.pagesPerBlock, vBank, vPage))
  }

  function BlockOf(g: Geometry, vBank: nat, vBlock: nat): nat
    requires g.ces > 0 && g.pagesPerBlock > 0
  {
    Quot(VirtualToPhysical(g, vBank, Scale(g.pagesPerBlock, vBlock)).1, g.pagesPerBlock)
  }

  // The two vendor rules.

  /** The bank of a chip a virtual bank means: 0 or 1. */
  function Side(ces: nat, vBank: nat): (r: nat)
    requires ces > 0
    ensures r < 2
  {
    Rem(Quot(vBank, ces), 2)
  }

  lemma SideBit(ces: nat, vBank: nat)
    requires ces > 0
    ensures Side(ces, vBank) == if Rem(vBank, 2 * ces) >= ces then 1 else 0
  {
    var q, r := Quot(vBank, ces), Rem(vBank, ces);
    QuotRem(vBank, ces);
    var h, s := q / 2, q % 2;
    hide Scale, Quot, Rem;
    ScaleLaws(ces, 2 * h, s);
    ScaleLaws(ces, h, h);
    ScaleTwice(2, ces, h);
    ScaleTwice(ces, h, 2);
    assert Scale(ces, 2 * h) == Scale(2 * ces, h);
    ScaleLaws(ces, 0, 1);
    QuotOf(2 * ces, h, Scale(ces, s) + r);
    QuotOf(2, h, s);
  }

  /** The masking rule doubles the block number, adds the bank, and keeps the page in the block. */
  lemma MaskedIs(k: nat, ces: nat, vBank: nat, vPage: nat)
    requires ces > 0
    ensures var p := Pow2(k);
      MaskedPage(ces, p, vBank, vPage) == Scale(p, 2 * Quot(vPage, p) + Side(ces, vBank)) + Rem(vPage, p)
  {
    hide Scale, Quot, Pow2, Or, And;
    var p, q, low := Pow2(k), Quot(vPage, Pow2(k)), Rem(vPage, Pow2(k));
    AndLow(k, vPage);
    QuotRem(vPage, p);
    ScaleLaws(p, q, q);
    ScaleLaws(p, 0, 0);
    OrScale(k, 0, 2 * q, low);
    OrOne(2 * q);
    ScaleLaws(p, 1, 1);
    OrScale(k, 2 * q, 1, low);
    OrOne(q);
  }

  /** With 128 pages per block the dividing rule does the same. */
  lemma DividedIs(ces: nat, vBank: nat, vPage: nat)
    requires ces > 0
    ensures Pow2(7) == 128
    ensures DividedPage(ces, 128, vBank, vPage) == Scale(128, 2 * Quot(vPage, 128) + Side(ces, vBank)) + Rem(vPage, 128)
  {
    SevenBits();
    hide Scale, Quot, Pow2, Or, Rem, Side;
    SideBit(ces, vBank);
    var b, low := 2 * Quot(vPage, 128) + Side(ces, vBank), Rem(vPage, 128);
    ScaleLaws(128, 0, 0);
    OrScale(7, 0, b, low);
    OrOne(b);
    OrComm(Scale(128, b), low);
  }

  lemma SevenBits()
    ensures Pow2(7) == 128
  {
    assert Pow2(3) == 8;
    assert Pow2(5) == 32;
  }

  /** The two rules agree on every bank and page exactly when a block has 128 pages. */
  lemma RulesAgree(k: nat, ces: nat)
    requires ces > 0
    ensures (forall vBank: nat, vPage: nat ::
               MaskedPage(ces, Pow2(k), vBank, vPage) == DividedPage(ces, Pow2(k), vBank, vPage))
      <==> Pow2(k) == 128
  {
    hide MaskedPage, DividedPage, Pow2, Scale, Quot, Rem;
    var p := Pow2(k);
    SevenBits();
    if p == 128 {
      forall vBank: nat, vPage: nat
        ensures MaskedPage(ces, p, vBank, vPage) == DividedPage(ces, p, vBank, vPage)
      {
        MaskedIs(k, ces, vBank, vPage);
        DividedIs(ces, vBank, vPage);
      }
    } else {
      PowerOrder(k);
      RulesDiffer(k, ces);
    }
  }

  /** Powers of two other than 128 are at most 64 or at least 256. */
  lemma PowerOrder(k: nat)
    ensures k < 7 ==> Pow2(k) <= 64
    ensures k == 7 ==> Pow2(k) == 128
    ensures k > 7 ==> Pow2(k) >= 256
  {
    hide Pow2;
    SevenBits();
    if k < 7 {
      PowGrows(k, 7);
    } else if k > 7 {
      PowGrows(7, k);
    }
  }

  lemma RulesDiffer(k: nat, ces: nat)
    requires ces > 0 && k != 7
    ensures exists vPage: nat :: MaskedPage(ces, Pow2(k), 0, vPage) != DividedPage(ces, Pow2(k), 0, vPage)
  {
    hide Pow2, Or, And, Scale, Quot, Rem, MaskedPage;
    var p := Pow2(k);
    PowerOrder(k);
    ZeroDivided(ces);
    ZeroDivided(2 * ces);
    ZeroDivided(2);
    if k < 7 {
      SmallBlock(k, 2);
      ScaleLaws(p, 1, 1);
      ScaleLaws(p, 2, 1);
      QuotOf(p, 1, 0);
      MaskedIs(k, ces, 0, p);
      assert DividedPage(ces, p, 0, p) == Scale(p, 3);
      assert MaskedPage(ces, p, 0, p) == Scale(p, 2);
    } else {
      ScaleLaws(p, 0, 0);
      QuotOf(p, 0, 128);
      ScaleLaws(128, 1, 0);
      QuotOf(128, 1, 0);
      OrOne(0);
      MaskedIs(k, ces, 0, 128);
      assert DividedPage(ces, p, 0, 128) == 0;
      assert MaskedPage(ces, p, 0, 128) == 128;
    }
  }

  lemma ZeroDivided(b: nat)
    requires b > 0
    ensures Quot(0, b) == 0 && Rem(0, b) == 0
  {
  }

  /** With fewer than 128 pages the page of block 1 sets a bit inside the block number. */
  lemma SmallBlock(k: nat, b: nat)
    requires k < 7 && (b == 2 || b == 3)
    ensures Or(Scale(Pow2(k), b), Rem(Pow2(k), 128)) == Scale(Pow2(k), 3)
  {
    assert Or(2, 1) == 3 && Or(3, 1) == 3;
    hide Pow2, Or, Scale, Rem;
    PowerOrder(k);
    var p := Pow2(k);
    ScaleLaws(128, 0, 0);
    QuotOf(128, 0, p);
    ScaleLaws(p, 1, 0);
    OrScale(k, b, 1, 0);
  }

  /** Blocks of 128 pages or more start at a multiple of 128. */
  lemma LargeBlock(k: nat, v: nat)
    requires k >= 7
    ensures Rem(Scale(Pow2(k), v), 128) == 0
  {
    var m := PowMultiple(k);
    hide Pow2, Scale, Rem;
    ScaleTwice(128, m, v);
    QuotOf(128, Scale(m, v), 0);
  }

  lemma {:induction false} PowMultiple(k: nat) returns (m: nat)
    requires k >= 7
    ensures Pow2(k) == Scale(128, m)
    decreases k
  {
    if k == 7 {
      SevenBits();
      m := 1;
    } else {
      var m1 := PowMultiple(k - 1);
      m := 2 * m1;
    }
  }

  /** The block a virtual block of a bank is on: for two banks, twice its number plus the bank. */
  lemma BlockIs(g: Geometry, k: nat, vBank: nat, v: nat)
    requires g.ces > 0 && g.pagesPerBlock == Pow2(k) && (g.vendor == Divided ==> k >= 7)
    ensures BlockOf(g, vBank, v) == if g.vendor == Single then v else 2 * v + Side(g.ces, vBank)
  {
    hide Pow2, Or, And, Scale, Quot, Rem, MaskedPage, Side;
    var p, vPage := g.pagesPerBlock, Scale(g.pagesPerBlock, v);
    QuotOf(p, v, 0);
    match g.vendor {
      case Single =>
      case Masked =>
        MaskedIs(k, g.ces, vBank, vPage);
        QuotOf(p, 2 * v + Side(g.ces, vBank), 0);
      case Divided =>
        LargeBlock(k, v);
        SideBit(g.ces, vBank);
        OrOne(Scale(p, 2 * v + Side(g.ces, vBank)));
        QuotOf(p, 2 * v + Side(g.ces, vBank), 0);
    }
  }

  /**
   Under the dividing rule block 1 of both banks of a chip is one physical block when a block has
   fewer than 128 pages.
   */
  lemma BlocksCollide(g: Geometry, k: nat)
    requires g.ces > 0 && g.pagesPerBlock == Pow2(k) && g.vendor == Divided && k < 7
    ensures BlockOf(g, 0, 1) == BlockOf(g, g.ces, 1)
  {
    hide Pow2, Or, Scale, Quot, Rem;
    var p, c := g.pagesPerBlock, g.ces;
    SmallBlock(k, 2);
    SmallBlock(k, 3);
    ScaleLaws(p, 1, 0);
    QuotOf(p, 1, 0);
    ScaleLaws(2 * c, 0, 0);
    QuotOf(2 * c, 0, 0);
    QuotOf(2 * c, 0, c);
    assert DividedPage(c, p, 0, p) == Scale(p, 3) == DividedPage(c, p, c, p);
  }

  lemma SideOf(ces: nat, s: nat)
    requires ces > 0 && s < 2
    ensures Side(ces, Scale(ces, s)) == s
  {
    hide Scale, Quot, Rem;
    QuotOf(ces, s, 0);
    ScaleLaws(2, 0, 0);
    QuotOf(2, 0, s);
  }

  ghost predicate Apart(g: Geometry)
    requires g.ces > 0 && g.pagesPerBlock > 0
  {
    forall s: nat, t: nat, v: nat, w: nat ::
      s < 2 && t < 2 && BlockOf(g, Scale(g.ces, s), v) == BlockOf(g, Scale(g.ces, t), w) ==> s == t && v == w
  }

  /** The dividing rule keeps the blocks of a chip apart exactly when a block has at least 128 pages. */
  lemma DividedApart(g: Geometry, k: nat)
    requires g.ces > 0 && g.pagesPerBlock == Pow2(k) && g.vendor == Divided
    ensures g.pagesPerBlock >= 128 <==> Apart(g)
  {
    hide BlockOf, Scale, Pow2, Side;
    PowerOrder(k);
    if k < 7 {
      BlocksCollide(g, k);
      ScaleLaws(g.ces, 0, 0);
      assert BlockOf(g, Scale(g.ces, 0), 1) == BlockOf(g, Scale(g.ces, 1), 1);
    } else {
      forall s: nat, t: nat, v: nat, w: nat | s < 2 && t < 2
          && BlockOf(g, Scale(g.ces, s), v) == BlockOf(g, Scale(g.ces, t), w)
        ensures s == t && v == w
      {
        BlockIs(g, k, Scale(g.ces, s), v);
        BlockIs(g, k, Scale(g.ces, t), w);
        SideOf(g.ces, s);
        SideOf(g.ces, t);
      }
    }
  }

  // Remapping.

  /** Entry i of a chip's pool map replaces a block, is unused (0xFFF0), or marks its own pool block bad (above). */
  ghost predicate MapOk(g: Geometry, pool: seq<nat>)
    requires g.poolStart <= g.blocksPerBankVfl
  {
    |pool| >= g.PoolSize() * g.Banks() && forall i :: 0 <= i < |pool| ==> pool[i] < g.BlocksPerCe() || pool[i] >= 0xFFF0
  }

  /** The pool block that entry i stands for. */
  function PoolBlock(g: Geometry, ce: nat, i: nat): nat
    requires g.ces > 0 && g.pagesPerBlock > 0 && g.poolStart < g.blocksPerBankVfl
  {
    BlockOf(g, ce + Scale(g.ces, Quot(i, g.PoolSize())), g.poolStart + Rem(i, g.PoolSize()))
  }

  /** The first of the n first entries that names a block; n when there is none. */
  function FirstEntry(pool: seq<nat>, n: nat, block: nat): (i: nat)
    requires n <= |pool|
    ensures i <= n && (i < n ==> pool[i] == block) && forall j :: 0 <= j < i ==> pool[j] != block
  {
    if n == 0 then 0 else
    var i := FirstEntry(pool, n - 1, block);
    if i < n - 1 then i else if pool[n - 1] == block then n - 1 else n
  }

  /** A block is bad when an entry replaces it or marks it. */
  ghost predicate Bad(g: Geometry, pool: seq<nat>, ce: nat, n: nat, block: nat)
    requires g.ces > 0 && g.pagesPerBlock > 0 && g.poolStart < g.blocksPerBankVfl && n <= |pool|
  {
    exists i :: 0 <= i < n && Condemns(g, pool, ce, i, block)
  }

  predicate Condemns(g: Geometry, pool: seq<nat>, ce: nat, i: nat, block: nat)
    requires g.ces > 0 && g.pagesPerBlock > 0 && g.poolStart < g.blocksPerBankVfl && i < |pool|
  {
    pool[i] != 0xFFF0 && if pool[i] < g.BlocksPerCe() then pool[i] == block else PoolBlock(g, ce, i) == block
  }

  /** Bit `block` of a bad-block table, lowest bit first: set for a good block. */
  predicate Good(bbt: seq<bv8>, block: nat)
    requires block < 8 * |bbt|
  {
    Test(bbt[block / 8], 7 - block % 8)
  }

  const LOW_FIRST: seq<bv8> := [0x01, 0x02, 0x04, 0x08, 0x10, 0x20, 0x40, 0x80]

  /** Entry i of a pool map: an unused one (0xFFF0) says nothing, a block number that this block is bad, and any
      other mark that the pool block it stands for is. */
  lemma CondemnsWhat(g: Geometry, pool: seq<nat>, ce: nat, i: nat, block: nat)
    requires g.Valid() && ce < g.ces && i < |pool| && i < g.PoolSize() * g.Banks()
    ensures pool[i] == 0xFFF0 ==> !Condemns(g, pool, ce, i, block)
    ensures pool[i] < g.BlocksPerCe() ==> (Condemns(g, pool, ce, i, block) <==> pool[i] == block)
    ensures pool[i] > 0xFFF0 ==> (Condemns(g, pool, ce, i, block) <==>
      block == Numbered(g, Quot(i, g.PoolSize()), g.poolStart + Rem(i, g.PoolSize())))
  {
    hide PoolBlock, Quot, Rem;
    PoolBlockInside(g, ce, i);
  }

  lemma GoodBit(bbt: seq<bv8>, block: nat)
    requires block < 8 * |bbt|
    ensures Good(bbt, block) <==> bbt[block / 8] & LOW_FIRST[block % 8] != 0
  {
    MaskValue(7 - block % 8);
  }

  /** A table that has exactly the bad blocks of the first n entries cleared. */
  ghost predicate Table(g: Geometry, pool: seq<nat>, ce: nat, n: nat, bbt: seq<bv8>)
    requires g.ces > 0 && g.pagesPerBlock > 0 && g.poolStart < g.blocksPerBankVfl && n <= |pool|
  {
    && g.BlocksPerCe() <= 8 * |bbt|
    && forall b: nat :: b < g.BlocksPerCe() ==> (Good(bbt, b) <==> !Bad(g, pool, ce, n, b))
  }

  lemma GoodAfter(bbt: seq<bv8>, b: nat, c: nat)
    requires b < 8 * |bbt| && c < 8 * |bbt|
    ensures Good(bbt[c / 8 := Off(bbt[c / 8], 7 - c % 8)], b) == (b != c && Good(bbt, b))
  {
    if b / 8 == c / 8 {
      TestAt(bbt[c / 8], 7 - c % 8, 7 - b % 8);
    }
  }

  lemma ScaleIs(p: nat, a: nat)
    ensures Scale(p, a) == p * a
  {
  }

  /** Pool blocks are blocks of the chip. */
  lemma PoolBlockInside(g: Geometry, ce: nat, i: nat)
    requires g.Valid() && ce < g.ces && i < g.PoolSize() * g.Banks()
    ensures PoolBlock(g, ce, i) < g.BlocksPerCe()
    ensures Quot(i, g.PoolSize()) < g.Banks()
    ensures PoolBlock(g, ce, i) == Numbered(g, Quot(i, g.PoolSize()), g.poolStart + Rem(i, g.PoolSize()))
  {
    hide Pow2, BlockOf, Scale, Quot, Rem;
    var k :| g.pagesPerBlock == Pow2(k);
    PowerOrder(k);
    var n, q, r := g.PoolSize(), Quot(i, g.PoolSize()), Rem(i, g.PoolSize());
    ScaleIs(n, g.Banks());
    QuotBelow(i, n, g.Banks());
    BlockIs(g, k, ce + Scale(g.ces, q), g.poolStart + r);
    SideAt(g.ces, ce, q);
  }

  /** The block number of virtual block v on bank s of a chip. */
  function Numbered(g: Geometry, s: nat, v: nat): nat
  {
    if g.vendor == Single then v else 2 * v + s
  }

  lemma SideAt(ces: nat, ce: nat, s: nat)
    requires ce < ces && s < 2
    ensures Side(ces, ce + Scale(ces, s)) == s
  {
    hide Scale, Quot, Rem;
    QuotOf(ces, s, ce);
    ScaleLaws(2, 0, 0);
    QuotOf(2, 0, s);
  }

  /** The bad-block table of a chip. */
  method BuildTable(g: Geometry, pool: seq<nat>, ce: nat) returns (bbt: seq<bv8>)
    requires g.Valid() && MapOk(g, pool) && ce < g.ces
    ensures Table(g, pool, ce, g.PoolSize() * g.Banks(), bbt)
    ensures g.BlocksPerCe() <= 8 * |bbt| && forall b: nat :: b < g.BlocksPerCe() ==>
      (bbt[b / 8] & LOW_FIRST[b % 8] == 0 <==> Bad(g, pool, ce, g.PoolSize() * g.Banks(), b))
  {
    hide Table, PoolBlock, Quot, Rem, Scale, Bad;
    bbt := seq((g.BlocksPerCe() + 7) / 8, _ => 0xFF);
    FreshTable(g, pool, ce, bbt);
    var n := g.PoolSize();
    var bank: nat := 0;
    while bank < g.Banks()
      invariant bank <= g.Banks() && n * bank <= |pool| && Table(g, pool, ce, n * bank, bbt)
    {
      var i: nat := 0;
      Within(n, bank, g.Banks());
      while i < n
        invariant i <= n && Table(g, pool, ce, n * bank + i, bbt)
      {
        var at := n * bank + i;
        var entry := pool[at];
        PoolAt(g, ce, bank, i);
        PoolBlockInside(g, ce, at);
        TableSize(g, pool, ce, at, bbt);
        if entry == 0xFFF0 {
          NextEntry(g, pool, ce, at, bbt, if entry < g.BlocksPerCe() then entry else PoolBlock(g, ce, at), bbt);
        } else {
          var pBlock;
          if entry < g.BlocksPerCe() {
            pBlock := entry;
          } else {
            pBlock := BlockOf(g, ce + Scale(g.ces, bank), g.poolStart + i);
          }
          var after := bbt[pBlock / 8 := Off(bbt[pBlock / 8], 7 - pBlock % 8)];
          NextEntry(g, pool, ce, at, bbt, pBlock, after);
          bbt := after;
        }
        i := i + 1;
      }
      bank := bank + 1;
    }
    ClearedBits(g, pool, ce, bbt);
  }

  lemma ClearedBits(g: Geometry, pool: seq<nat>, ce: nat, bbt: seq<bv8>)
    requires g.Valid() && MapOk(g, pool) && Table(g, pool, ce, g.PoolSize() * g.Banks(), bbt)
    ensures g.BlocksPerCe() <= 8 * |bbt| && forall b: nat :: b < g.BlocksPerCe() ==>
      (bbt[b / 8] & LOW_FIRST[b % 8] == 0 <==> Bad(g, pool, ce, g.PoolSize() * g.Banks(), b))
  {
    hide Good, Bad;
    forall b: nat | b < g.BlocksPerCe()
      ensures bbt[b / 8] & LOW_FIRST[b % 8] == 0 <==> Bad(g, pool, ce, g.PoolSize() * g.Banks(), b)
    {
      GoodBit(bbt, b);
    }
  }

  lemma Within(n: nat, bank: nat, banks: nat)
    requires bank < banks
    ensures n * bank + n == n * (bank + 1) <= n * banks
  {
    ScaleLaws(n, bank, banks);
  }

  lemma PoolAt(g: Geometry, ce: nat, bank: nat, i: nat)
    requires g.ces > 0 && g.pagesPerBlock > 0 && g.poolStart < g.blocksPerBankVfl && i < g.PoolSize()
    ensures PoolBlock(g, ce, g.PoolSize() * bank + i) == BlockOf(g, ce + Scale(g.ces, bank), g.poolStart + i)
  {
    hide BlockOf, Quot, Rem;
    QuotOf(g.PoolSize(), bank, i);
  }

  lemma FreshTable(g: Geometry, pool: seq<nat>, ce: nat, bbt: seq<bv8>)
    requires g.ces > 0 && g.pagesPerBlock > 0 && g.poolStart < g.blocksPerBankVfl
    requires g.BlocksPerCe() <= 8 * |bbt| && forall k :: 0 <= k < |bbt| ==> bbt[k] == 0xFF
    ensures Table(g, pool, ce, 0, bbt)
  {
    FullByte(0xFF);
  }

  lemma TableSize(g: Geometry, pool: seq<nat>, ce: nat, n: nat, bbt: seq<bv8>)
    requires g.ces > 0 && g.pagesPerBlock > 0 && g.poolStart < g.blocksPerBankVfl && n <= |pool|
    requires Table(g, pool, ce, n, bbt)
    ensures g.BlocksPerCe() <= 8 * |bbt|
  {
  }

  lemma BadNext(g: Geometry, pool: seq<nat>, ce: nat, n: nat, b: nat)
    requires g.ces > 0 && g.pagesPerBlock > 0 && g.poolStart < g.blocksPerBankVfl && n < |pool|
    ensures Bad(g, pool, ce, n + 1, b) <==> Bad(g, pool, ce, n, b) || Condemns(g, pool, ce, n, b)
  {
    hide Condemns;
    if Bad(g, pool, ce, n, b) {
      var i :| 0 <= i < n && Condemns(g, pool, ce, i, b);
      assert 0 <= i < n + 1 && Condemns(g, pool, ce, i, b);
    }
    if Condemns(g, pool, ce, n, b) {
      assert 0 <= n < n + 1;
    }
  }

  /** Clearing the block of entry n makes the table right for n + 1 entries. */
  lemma NextEntry(g: Geometry, pool: seq<nat>, ce: nat, n: nat, bbt: seq<bv8>, c: nat, after: seq<bv8>)
    requires g.ces > 0 && g.pagesPerBlock > 0 && g.poolStart < g.blocksPerBankVfl && n < |pool|
    requires Table(g, pool, ce, n, bbt) && PoolBlock(g, ce, n) < g.BlocksPerCe()
    requires c == (if pool[n] < g.BlocksPerCe() then pool[n] else PoolBlock(g, ce, n)) && c < 8 * |bbt|
    requires after == if pool[n] == 0xFFF0 then bbt else bbt[c / 8 := Off(bbt[c / 8], 7 - c % 8)]
    ensures Table(g, pool, ce, n + 1, after)
  {
    hide PoolBlock, Good, Bad;
    forall b: nat | b < g.BlocksPerCe()
      ensures Good(after, b) <==> !Bad(g, pool, ce, n + 1, b)
    {
      BadNext(g, pool, ce, n, b);
      if pool[n] != 0xFFF0 {
        GoodAfter(bbt, b, c);
      }
    }
  }

  /** Where a block is found: itself when good, else the pool block of the first entry that names it. */
  function Remapped(g: Geometry, pool: seq<nat>, ce: nat, bbt: seq<bv8>, block: nat): nat
    requires g.ces > 0 && g.pagesPerBlock > 0 && g.poolStart < g.blocksPerBankVfl && block < 8 * |bbt|
    requires g.PoolSize() * g.Banks() <= |pool|
  {
    if Good(bbt, block) then block else
    var i := FirstEntry(pool, g.PoolSize() * g.Banks(), block);
    if i < g.PoolSize() * g.Banks() then PoolBlock(g, ce, i) else block
  }

  /** Entry i of a pool map names block b, and no entry before it does. */
  ghost predicate Names(g: Geometry, pool: seq<nat>, i: nat, b: nat)
    requires g.poolStart <= g.blocksPerBankVfl && g.PoolSize() * g.Banks() <= |pool|
  {
    i < g.PoolSize() * g.Banks() && pool[i] == b && forall j :: 0 <= j < i ==> pool[j] != b
  }

  /**
   Where a user block is found: with no entry naming it in its own place, else in the pool, whose
   blocks go bank after bank.
   */
  ghost predicate FoundAt(g: Geometry, pool: seq<nat>, b: nat, block: nat)
    requires g.poolStart < g.blocksPerBankVfl && g.PoolSize() * g.Banks() <= |pool|
  {
    && ((forall i :: 0 <= i < g.PoolSize() * g.Banks() ==> pool[i] != b) ==> block == b)
    && (forall i: nat :: Names(g, pool, i, b) ==>
          block == Numbered(g, Quot(i, g.PoolSize()), g.poolStart + Rem(i, g.PoolSize())))
  }

  lemma BadFound(g: Geometry, pool: seq<nat>, ce: nat, bbt: seq<bv8>, block: nat)
    requires g.Valid() && MapOk(g, pool) && block < 8 * |bbt|
    ensures ce < g.ces && !Good(bbt, block) ==> FoundAt(g, pool, block, Remapped(g, pool, ce, bbt, block))
  {
    hide PoolBlock, Good, Quot, Rem;
    if ce < g.ces && !Good(bbt, block) {
      var n, z := g.PoolSize() * g.Banks(), Remapped(g, pool, ce, bbt, block);
      forall i: nat | Names(g, pool, i, block)
        ensures z == Numbered(g, Quot(i, g.PoolSize()), g.poolStart + Rem(i, g.PoolSize()))
      {
        PoolBlockInside(g, ce, i);
          IsFirst(pool, n, i, block);
      }
    }
  }

  method RemapBlock(g: Geometry, pool: seq<nat>, ce: nat, bbt: seq<bv8>, block: nat) returns (z: nat)
    requires g.Valid() && block < 8 * |bbt| && MapOk(g, pool)
    ensures z == Remapped(g, pool, ce, bbt, block)
    ensures bbt[block / 8] & LOW_FIRST[block % 8] != 0 ==> z == block
    ensures bbt[block / 8] & LOW_FIRST[block % 8] == 0 && ce < g.ces ==> FoundAt(g, pool, block, z)
  {
    hide Good, BlockOf, Quot, Rem, Scale, FoundAt;
    GoodBit(bbt, block);
    BadFound(g, pool, ce, bbt, block);
    if Good(bbt, block) {
      return block;
    }
    var n: nat := g.PoolSize() * g.Banks();
    var i: nat := 0;
    while i < n
      invariant i <= n && FirstEntry(pool, i, block) == i
    {
      if pool[i] == block {
        FirstFound(pool, n, i, block);
        var vBank := ce + Scale(g.ces, Quot(i, g.PoolSize()));
        var vBlock := g.poolStart + Rem(i, g.PoolSize());
        return BlockOf(g, vBank, vBlock);
      }
      i := i + 1;
    }
    return block;
  }

  lemma {:induction false} FirstFound(pool: seq<nat>, n: nat, i: nat, block: nat)
    requires i < n <= |pool| && FirstEntry(pool, i, block) == i && pool[i] == block
    ensures FirstEntry(pool, n, block) == i
    decreases n
  {
    if i < n - 1 {
      FirstFound(pool, n - 1, i, block);
    }
  }

  /** The page number on the chip of page `off` of a block: banks start at multiples of their address space. */
  function PageOf(g: Geometry, block: nat, off: nat): nat
    requires g.blocksPerBank > 0
  {
    Scale(g.pagesPerBlock2, Scale(g.bankAddressSpace, Quot(block, g.blocksPerBank)) + Rem(block, g.blocksPerBank)) + off
  }

  ghost predicate Opened(g: Geometry, pools: seq<seq<nat>>, tables: seq<seq<bv8>>)
  {
    && g.Valid() && |pools| == g.ces == |tables|
    && forall ce :: 0 <= ce < g.ces ==>
         MapOk(g, pools[ce]) && Table(g, pools[ce], ce, g.PoolSize() * g.Banks(), tables[ce])
  }

  /** A page of a block below the pool. */
  ghost predicate Usable(g: Geometry, vpn: nat)
    requires g.ces > 0 && g.pagesPerBlock > 0
  {
    Sized(g);
    Quot(vpn, g.PagesPerSublk()) < g.poolStart
  }

  lemma Sized(g: Geometry)
    requires g.ces > 0 && g.pagesPerBlock > 0
    ensures g.BanksTotal() > 0 && g.PagesPerSublk() > 0
  {
  }

  lemma UserBlockInside(g: Geometry, vBank: nat, v: nat)
    requires g.Valid() && vBank < g.BanksTotal() && v < g.blocksPerBankVfl
    ensures var s := Quot(vBank, g.ces);
      s < g.Banks() && BlockOf(g, vBank, v) == Numbered(g, s, v) < g.BlocksPerCe()
    ensures vBank == Scale(g.ces, Quot(vBank, g.ces)) + Rem(vBank, g.ces)
  {
    hide Pow2, BlockOf, Scale, Quot, Rem;
    var k :| g.pagesPerBlock == Pow2(k);
    PowerOrder(k);
    ScaleIs(g.ces, g.Banks());
    QuotBelow(vBank, g.ces, g.Banks());
    QuotRem(vBank, g.ces);
    SideAt(g.ces, Rem(vBank, g.ces), Quot(vBank, g.ces));
    BlockIs(g, k, vBank, v);
  }

  /** Chip and page of a virtual page. */
  ghost function Translated(g: Geometry, pools: seq<seq<nat>>, tables: seq<seq<bv8>>, vpn: nat): (nat, nat)
    requires Opened(g, pools, tables) && Usable(g, vpn)
  {
    Sized(g);
    var vBank := Rem(vpn, g.BanksTotal());
    var ce, v := Rem(vBank, g.ces), Quot(vpn, g.PagesPerSublk());
    UserBlockInside(g, vBank, v);
    var block := Remapped(g, pools[ce], ce, tables[ce], BlockOf(g, vBank, v));
    (ce, PageOf(g, block, Quot(Rem(vpn, g.PagesPerSublk()), g.BanksTotal())))
  }

  lemma UserFound(g: Geometry, pool: seq<nat>, ce: nat, bbt: seq<bv8>, s: nat, v: nat)
    requires g.Valid() && MapOk(g, pool) && ce < g.ces && Table(g, pool, ce, g.PoolSize() * g.Banks(), bbt)
    requires s < g.Banks() && v < g.poolStart
    ensures Numbered(g, s, v) < g.BlocksPerCe() <= 8 * |bbt|
    ensures FoundAt(g, pool, Numbered(g, s, v), Remapped(g, pool, ce, bbt, Numbered(g, s, v)))
  {
    hide PoolBlock, Remapped, Table, Quot, Rem;
    UserRemap(g, pool, ce, bbt, s, v);
    var b, n := Numbered(g, s, v), g.PoolSize() * g.Banks();
    forall i: nat | Names(g, pool, i, b)
      ensures Remapped(g, pool, ce, bbt, b) == Numbered(g, Quot(i, g.PoolSize()), g.poolStart + Rem(i, g.PoolSize()))
    {
      PoolBlockInside(g, ce, i);
      IsFirst(pool, n, i, b);
    }
  }

  lemma IsFirst(pool: seq<nat>, n: nat, i: nat, b: nat)
    requires i < n <= |pool| && pool[i] == b && forall j :: 0 <= j < i ==> pool[j] != b
    ensures FirstEntry(pool, n, b) == i
  {
  }

  /** Block and page offset are quotient and remainder of the page number. */
  lemma PageParts(g: Geometry, block: nat, off: nat)
    requires 0 < g.blocksPerBank && off < g.pagesPerBlock2
    ensures PageOf(g, block, off) % g.pagesPerBlock2 == off
    ensures PageOf(g, block, off) / g.pagesPerBlock2
      == g.bankAddressSpace * (block / g.blocksPerBank) + block % g.blocksPerBank
  {
    QuotOf(g.pagesPerBlock2,
           Scale(g.bankAddressSpace, Quot(block, g.blocksPerBank)) + Rem(block, g.blocksPerBank), off);
  }

  /** Chip and page offset of a virtual page: banks take turns page by page, and a block's pages keep their order. */
  ghost predicate Striped(total: nat, ces: nat, sublk: nat, perBlock: nat, vpn: nat, ce: nat, page: nat)
    requires total > 0 && ces > 0 && sublk > 0 && perBlock > 0
  {
    ce == vpn % total % ces && page % perBlock == vpn % sublk / total
  }

  /** The page number of a block's pages: a bank begins at a multiple of the address space of banks. */
  ghost predicate Placed(perBlock: nat, perBank: nat, space: nat, block: nat, page: nat)
    requires perBlock > 0 && perBank > 0
  {
    page / perBlock == space * (block / perBank) + block % perBank
  }

  /** The user block a virtual page belongs to, before remapping. */
  function UserBlock(g: Geometry, vpn: nat): nat
    requires g.ces > 0 && g.BanksTotal() > 0 && g.PagesPerSublk() > 0
  {
    Numbered(g, vpn % g.BanksTotal() / g.ces, vpn / g.PagesPerSublk())
  }

  /** The chip and the page of a virtual page, with the block it is on. */
  method PageToPhysical(g: Geometry, pools: seq<seq<nat>>, tables: seq<seq<bv8>>, vpn: nat)
    returns (ce: nat, page: nat, ghost block: nat)
    requires Opened(g, pools, tables) && Usable(g, vpn)
    ensures (ce, page) == Translated(g, pools, tables, vpn)
    ensures g.BanksTotal() > 0 && g.PagesPerSublk() > 0
    ensures Striped(g.BanksTotal(), g.ces, g.PagesPerSublk(), g.pagesPerBlock2, vpn, ce, page)
    ensures Placed(g.pagesPerBlock2, g.blocksPerBank, g.bankAddressSpace, block, page)
    ensures ce < |pools| && g.PoolSize() * g.Banks() <= |pools[ce]| && FoundAt(g, pools[ce], UserBlock(g, vpn), block)
  {
    hide BlockOf, Remapped, Quot, Rem, Scale, Table, FoundAt, Striped, Placed, UserBlock;
    Parts(g, vpn);
    var vBank := Rem(vpn, g.BanksTotal());
    ce := Rem(vBank, g.ces);
    var v := Quot(vpn, g.PagesPerSublk());
    UserBlockInside(g, vBank, v);
    var pBlock := BlockOf(g, vBank, v);
    TableSize(g, pools[ce], ce, g.PoolSize() * g.Banks(), tables[ce]);
    UserFound(g, pools[ce], ce, tables[ce], Quot(vBank, g.ces), v);
    pBlock := RemapBlock(g, pools[ce], ce, tables[ce], pBlock);
    block := pBlock;
    var bankOffset := Scale(g.bankAddressSpace, Quot(pBlock, g.blocksPerBank));
    var off := Quot(Rem(vpn, g.PagesPerSublk()), g.BanksTotal());
    page := Scale(g.pagesPerBlock2, bankOffset + Rem(pBlock, g.blocksPerBank)) + off;
    PageStriped(g, vpn, pBlock, off);
    UserBlockIs(g, vpn);
  }

  lemma PageStriped(g: Geometry, vpn: nat, block: nat, off: nat)
    requires g.ces > 0 && g.BanksTotal() > 0 && g.PagesPerSublk() > 0 && 0 < g.blocksPerBank
    requires off == Quot(Rem(vpn, g.PagesPerSublk()), g.BanksTotal()) < g.pagesPerBlock2
    ensures Striped(g.BanksTotal(), g.ces, g.PagesPerSublk(), g.pagesPerBlock2, vpn,
                    Rem(Rem(vpn, g.BanksTotal()), g.ces), PageOf(g, block, off))
    ensures Placed(g.pagesPerBlock2, g.blocksPerBank, g.bankAddressSpace, block, PageOf(g, block, off))
  {
    PageParts(g, block, off);
    hide PageOf;
  }

  lemma UserBlockIs(g: Geometry, vpn: nat)
    requires g.ces > 0 && g.BanksTotal() > 0 && g.PagesPerSublk() > 0
    ensures UserBlock(g, vpn) == Numbered(g, Quot(Rem(vpn, g.BanksTotal()), g.ces), Quot(vpn, g.PagesPerSublk()))
  {
  }

  /** Different entries stand for different pool blocks, none of them a user block. */
  lemma PoolApart(g: Geometry, ce: nat, i: nat, j: nat)
    requires g.Valid() && ce < g.ces && i < g.PoolSize() * g.Banks() && j < g.PoolSize() * g.Banks()
    ensures PoolBlock(g, ce, i) == PoolBlock(g, ce, j) ==> i == j
    ensures forall s: nat, v: nat :: s < g.Banks() && v < g.poolStart ==> Numbered(g, s, v) != PoolBlock(g, ce, i)
  {
    PoolBlockInside(g, ce, i);
    PoolBlockInside(g, ce, j);
    QuotRem(i, g.PoolSize());
    QuotRem(j, g.PoolSize());
    hide PoolBlock, Quot, Rem, Scale;
  }

  /** A user block is remapped exactly when an entry names it. */
  lemma UserRemap(g: Geometry, pool: seq<nat>, ce: nat, bbt: seq<bv8>, s: nat, v: nat)
    requires g.Valid() && MapOk(g, pool) && ce < g.ces && Table(g, pool, ce, g.PoolSize() * g.Banks(), bbt)
    requires s < g.Banks() && v < g.poolStart
    ensures Numbered(g, s, v) < g.BlocksPerCe() <= 8 * |bbt|
    ensures var b, n := Numbered(g, s, v), g.PoolSize() * g.Banks();
      var i := FirstEntry(pool, n, b);
      Remapped(g, pool, ce, bbt, b) == if i < n then PoolBlock(g, ce, i) else b
  {
    hide PoolBlock, Good, FirstEntry;
    var b, n := Numbered(g, s, v), g.PoolSize() * g.Banks();
    var i := FirstEntry(pool, n, b);
    if i < n {
      assert Condemns(g, pool, ce, i, b);
      assert !Good(bbt, b);
    } else {
      forall j | 0 <= j < n
        ensures !Condemns(g, pool, ce, j, b)
      {
        PoolApart(g, ce, j, j);
      }
      assert Good(bbt, b);
    }
  }

  /** Remapping keeps user blocks of a chip apart. */
  lemma RemapApart(g: Geometry, pool: seq<nat>, ce: nat, bbt: seq<bv8>, s: nat, v: nat, t: nat, w: nat)
    requires g.Valid() && MapOk(g, pool) && ce < g.ces && Table(g, pool, ce, g.PoolSize() * g.Banks(), bbt)
    requires s < g.Banks() && v < g.poolStart && t < g.Banks() && w < g.poolStart
    requires Numbered(g, s, v) < 8 * |bbt| && Numbered(g, t, w) < 8 * |bbt|
    requires Remapped(g, pool, ce, bbt, Numbered(g, s, v)) == Remapped(g, pool, ce, bbt, Numbered(g, t, w))
    ensures s == t && v == w
  {
    hide Remapped, Table, PoolBlock;
    var n := g.PoolSize() * g.Banks();
    UserRemap(g, pool, ce, bbt, s, v);
    UserRemap(g, pool, ce, bbt, t, w);
    var i, j := FirstEntry(pool, n, Numbered(g, s, v)), FirstEntry(pool, n, Numbered(g, t, w));
    hide FirstEntry;
    if i < n {
      PoolApart(g, ce, i, i);
      if j < n {
        PoolApart(g, ce, i, j);
      }
    } else if j < n {
      PoolApart(g, ce, j, j);
    }
    assert Numbered(g, s, v) == Numbered(g, t, w);
  }

  /** Block and page offset can be read off the page number, gaps between banks included. */
  lemma PageApart(g: Geometry, a: nat, m: nat, b: nat, n: nat)
    requires 0 < g.blocksPerBank <= g.bankAddressSpace && m < g.pagesPerBlock2 && n < g.pagesPerBlock2
    requires PageOf(g, a, m) == PageOf(g, b, n)
    ensures a == b && m == n
  {
    hide Scale, Quot, Rem;
    var x := Scale(g.bankAddressSpace, Quot(a, g.blocksPerBank)) + Rem(a, g.blocksPerBank);
    var y := Scale(g.bankAddressSpace, Quot(b, g.blocksPerBank)) + Rem(b, g.blocksPerBank);
    QuotOf(g.pagesPerBlock2, x, m);
    QuotOf(g.pagesPerBlock2, y, n);
    QuotOf(g.bankAddressSpace, Quot(a, g.blocksPerBank), Rem(a, g.blocksPerBank));
    QuotOf(g.bankAddressSpace, Quot(b, g.blocksPerBank), Rem(b, g.blocksPerBank));
    QuotRem(a, g.blocksPerBank);
    QuotRem(b, g.blocksPerBank);
  }

  /** A virtual page number is made of its block, its place in the super block, and its bank. */
  lemma Parts(g: Geometry, vpn: nat)
    requires g.ces > 0 && g.pagesPerBlock > 0
    ensures g.BanksTotal() > 0 && g.PagesPerSublk() > 0
    ensures Quot(Rem(vpn, g.PagesPerSublk()), g.BanksTotal()) < g.pagesPerBlock
    ensures vpn == Scale(g.PagesPerSublk(), Quot(vpn, g.PagesPerSublk()))
                 + Scale(g.BanksTotal(), Quot(Rem(vpn, g.PagesPerSublk()), g.BanksTotal())) + Rem(vpn, g.BanksTotal())
  {
    Sized(g);
    var bt, ps := g.BanksTotal(), g.PagesPerSublk();
    assert ps == Scale(bt, g.pagesPerBlock);
    hide Scale, Quot, Rem;
    var v, r := Quot(vpn, ps), Rem(vpn, ps);
    var o, b := Quot(r, bt), Rem(r, bt);
    QuotRem(vpn, ps);
    QuotRem(r, bt);
    QuotBelow(r, bt, g.pagesPerBlock);
    ScaleTwice(bt, g.pagesPerBlock, v);
    ScaleLaws(bt, Scale(g.pagesPerBlock, v), o);
    QuotOf(bt, Scale(g.pagesPerBlock, v) + o, b);
  }

  /** No two usable virtual pages are one physical page, whatever blocks are bad. */
  lemma TranslationInjective(g: Geometry, pools: seq<seq<nat>>, tables: seq<seq<bv8>>, a: nat, b: nat)
    requires Opened(g, pools, tables) && Usable(g, a) && Usable(g, b)
    requires Translated(g, pools, tables, a) == Translated(g, pools, tables, b)
    ensures a == b
  {
    hide BlockOf, Remapped, Quot, Rem, Scale, PageOf, Table;
    Parts(g, a);
    Parts(g, b);
    var aBank, bBank := Rem(a, g.BanksTotal()), Rem(b, g.BanksTotal());
    var v, w := Quot(a, g.PagesPerSublk()), Quot(b, g.PagesPerSublk());
    UserBlockInside(g, aBank, v);
    UserBlockInside(g, bBank, w);
    var ce, s, t := Rem(aBank, g.ces), Quot(aBank, g.ces), Quot(bBank, g.ces);
    var pool, bbt := pools[ce], tables[ce];
    UserRemap(g, pool, ce, bbt, s, v);
    UserRemap(g, pool, ce, bbt, t, w);
    PageApart(g, Remapped(g, pool, ce, bbt, Numbered(g, s, v)), Quot(Rem(a, g.PagesPerSublk()), g.BanksTotal()),
              Remapped(g, pool, ce, bbt, Numbered(g, t, w)), Quot(Rem(b, g.PagesPerSublk()), g.BanksTotal()));
    RemapApart(g, pool, ce, bbt, s, v, t, w);
  }

  /** The smallest power of two that is not below z. */
  method NextPowerOfTwo(z: nat) returns (i: nat)
    ensures i >= z && (exists k :: i == Pow2(k)) && (i > 1 ==> i / 2 < z)
  {
    i := 1;
    ghost var k := 0;
    while i < z
      invariant i == Pow2(k) && (i > 1 ==> i / 2 < z)
      decreases z - i
    {
      i, k := i * 2, k + 1;
    }
  }
}
