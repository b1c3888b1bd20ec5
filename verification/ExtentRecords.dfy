/**
 Storing a file's extents: eight descriptors in the fork record and, behind them, records of
 eight in the extents tree. Records are written under the disk block they start at but looked
 up by the file block they start at.
 */
module ExtentRecords {
  import opened Extents
  import opened Options

  /** The fork record of a file and its records in the extents tree, by the start block of their key. */
  datatype Fork = Fork(inline: seq<Extent>, overflow: map<nat, seq<Extent>>)

  ghost predicate Positive(es: seq<Extent>)
  {
    forall i :: 0 <= i < |es| ==> es[i].blockCount > 0
  }

  /** Records of eight descriptors whose first one is in use. */
  ghost predicate Records(m: map<nat, seq<Extent>>)
  {
    forall k :: k in m ==> |m[k]| == 8 && m[k][0].blockCount > 0
  }

  /** Adding a record whose key is taken leaves the tree alone. */
  function Put(m: map<nat, seq<Extent>>, k: nat, d: seq<Extent>): map<nat, seq<Extent>>
  {
    if k in m then m else m[k := d]
  }

  function Min8(n: nat): nat
  {
    if n < 8 then n else 8
  }

  function Blank(): (r: seq<Extent>)
    ensures |r| == 8
  {
    seq(8, _ => Extent(0, 0))
  }

  /** The overflow records after writing `rest`; a short last record keeps what the descriptors held before. */
  function WriteRest(rest: seq<Extent>, descriptors: seq<Extent>, m: map<nat, seq<Extent>>): map<nat, seq<Extent>>
    requires |descriptors| == 8
    decreases |rest|
  {
    if rest == [] then m else
      var n := Min8(|rest|);
      var d := rest[..n] + descriptors[n..];
      WriteRest(rest[n..], d, Put(m, d[0].startBlock, d))
  }

  /** The form written for a list beside the records of the file that are still in the tree. */
  function Written(es: seq<Extent>, m: map<nat, seq<Extent>>): Fork
  {
    var n := Min8(|es|);
    Fork(es[..n] + Blank()[n..], WriteRest(es[n..], Blank(), m))
  }

  /**
   The records left after removing those of the old list, found by file block; none when one is
   missing, which ends the program.
   */
  function RemoveRest(m: map<nat, seq<Extent>>, descriptors: seq<Extent>, cur: nat, block: nat,
                      left: nat): Option<map<nat, seq<Extent>>>
    requires Records(m) && |descriptors| == 8 && cur <= 8
    decreases left, Waiting(descriptors, cur)
  {
    if left == 0 then
      Some(m)
    else if cur == 8 then
      if block !in m then None else RemoveRest(m - {block}, m[block], 0, block, left)
    else
      var e := descriptors[cur];
      if e.blockCount > left then
        None
      else
        RemoveRest(m, descriptors, cur + 1, block + e.blockCount, left - e.blockCount)
  }

  /** A fork rewritten for a new list: the old list's records go first. */
  function Rewritten(f: Fork, totalBlocks: nat, es: seq<Extent>): Option<Fork>
    requires |f.inline| == 8 && Records(f.overflow)
  {
    var m := RemoveRest(f.overflow, f.inline, 0, 0, totalBlocks);
    if m.None? then None else Some(Written(es, m.value))
  }

  /** The extents read from descriptor `cur` on, with `left` blocks to come and `block` file blocks behind. */
  function ReadRest(m: map<nat, seq<Extent>>, descriptors: seq<Extent>, cur: nat, block: nat,
                    left: nat): Option<seq<Extent>>
    requires Records(m) && |descriptors| == 8 && cur <= 8
    decreases left, Waiting(descriptors, cur)
  {
    if left == 0 then
      Some([])
    else if cur == 8 then
      if block !in m then None else ReadRest(m, m[block], 0, block, left)
    else
      var e := descriptors[cur];
      if e.blockCount > left then
        None
      else
        Behind([e], ReadRest(m, descriptors, cur + 1, block + e.blockCount, left - e.blockCount))
  }

  function Behind(es: seq<Extent>, r: Option<seq<Extent>>): Option<seq<Extent>>
  {
    if r.None? then None else Some(es + r.value)
  }

  /** How many more steps until blocks are read. */
  function Waiting(descriptors: seq<Extent>, cur: nat): int
    requires |descriptors| == 8 && cur <= 8
  {
    if cur < 8 && descriptors[cur].blockCount > 0 then 0 else 9 - cur
  }

  method RemoveExtents(f: Fork, totalBlocks: nat) returns (r: Option<map<nat, seq<Extent>>>)
    requires |f.inline| == 8 && Records(f.overflow)
    ensures r == RemoveRest(f.overflow, f.inline, 0, 0, totalBlocks)
  {
    var blocksLeft: nat, currentBlock: nat, currentExtent: nat := totalBlocks, 0, 0;
    var descriptors, m: map<nat, seq<Extent>> := f.inline, f.overflow;
    while blocksLeft > 0
      invariant |descriptors| == 8 && currentExtent <= 8 && Records(m)
      invariant RemoveRest(f.overflow, f.inline, 0, 0, totalBlocks)
             == RemoveRest(m, descriptors, currentExtent, currentBlock, blocksLeft)
      decreases blocksLeft, Waiting(descriptors, currentExtent)
    {
      if currentExtent == 8 {
        if currentBlock !in m {
          return None;
        }
        descriptors, m := m[currentBlock], m - {currentBlock};
        currentExtent := 0;
        continue;
      }
      var e := descriptors[currentExtent];
      if e.blockCount > blocksLeft {
        return None;
      }
      currentBlock := currentBlock + e.blockCount;
      blocksLeft := blocksLeft - e.blockCount;
      currentExtent := currentExtent + 1;
    }
    return Some(m);
  }

  /** Replaces the stored form of a file's old list, of totalBlocks blocks, by that of a new one. */
  method WriteExtents(old0: Fork, totalBlocks: nat, es: seq<Extent>) returns (r: Option<Fork>)
    requires |old0.inline| == 8 && Records(old0.overflow)
    ensures r == Rewritten(old0, totalBlocks, es)
  {
    var kept := RemoveExtents(old0, totalBlocks);
    if kept.None? {
      return None;
    }
    var f := WriteList(es, kept.value);
    return Some(f);
  }

  method WriteList(es: seq<Extent>, m: map<nat, seq<Extent>>) returns (f: Fork)
    ensures f == Written(es, m)
  {
    ghost var written := Written(es, m);
    assert written.overflow == WriteRest(es[Min8(|es|)..], Blank(), m);
    hide WriteRest;
    var descriptors := Blank();
    var i: nat := 0;
    while i < |es| && i < 8
      invariant i <= Min8(|es|)
      invariant descriptors == es[..i] + Blank()[i..]
    {
      descriptors := descriptors[i := es[i]];
      i := i + 1;
    }
    var overflow := m;
    NoMore(Blank(), m);
    if i < |es| {
      overflow := WriteOverflow(es, m);
    }
    f := Fork(descriptors, overflow);
  }

  method WriteOverflow(es: seq<Extent>, m: map<nat, seq<Extent>>) returns (overflow: map<nat, seq<Extent>>)
    requires |es| > 8
    ensures overflow == WriteRest(es[8..], Blank(), m)
  {
    hide WriteRest;
    var d := Blank();
    var cur: nat, i: nat := 0, 8;
    overflow := m;
    assert d[..0] + es[8..] == es[8..];
    while i < |es|
      invariant 8 <= i <= |es| && |d| == 8 && cur <= 8 && (if i > 8 then cur > 0 else d == Blank())
      invariant WriteRest(es[8..], Blank(), m) == WriteRest(d[..cur] + es[i..], d, overflow)
    {
      if cur == 0 {
        d := Blank();
      }
      if cur == 8 {
        Flush(d, es[i..], overflow);
        overflow := Put(overflow, d[0].startBlock, d);
        cur := 0;
      }
      StoreOne(d, cur, es, i, overflow);
      d := d[cur := es[i]];
      cur := cur + 1;
      i := i + 1;
    }
    assert es[i..] == [];
    assert d[..cur] + es[i..] == d[..cur];
    Last(d, cur, overflow);
    overflow := Put(overflow, d[0].startBlock, d);
  }

  lemma Flush(d: seq<Extent>, rest: seq<Extent>, m: map<nat, seq<Extent>>)
    requires |d| == 8
    ensures WriteRest(d[..8] + rest, d, m) == WriteRest(d[..0] + rest, d, Put(m, d[0].startBlock, d))
  {
    var s := d[..8] + rest;
    assert s[..8] + d[8..] == d && s[8..] == rest && d[..0] + rest == rest;
  }

  lemma NoMore(d: seq<Extent>, m: map<nat, seq<Extent>>)
    requires |d| == 8
    ensures WriteRest([], d, m) == m
  {
  }

  lemma Last(d: seq<Extent>, cur: nat, m: map<nat, seq<Extent>>)
    requires |d| == 8 && 0 < cur <= 8
    ensures WriteRest(d[..cur], d, m) == Put(m, d[0].startBlock, d)
  {
    var s := d[..cur];
    assert s[..cur] + d[cur..] == d && s[cur..] == [];
  }

  lemma StoreOne(d: seq<Extent>, cur: nat, es: seq<Extent>, i: nat, m: map<nat, seq<Extent>>)
    requires |d| == 8 && cur < 8 && i < |es|
    ensures var d1 := d[cur := es[i]];
      WriteRest(d[..cur] + es[i..], d, m) == WriteRest(d1[..cur + 1] + es[i + 1..], d1, m)
  {
    var d1 := d[cur := es[i]];
    var s := d[..cur] + es[i..];
    assert d1[..cur + 1] + es[i + 1..] == s;
    var n := Min8(|s|);
    assert s[..n] + d[n..] == s[..n] + d1[n..];
  }

  method ReadExtents(f: Fork, totalBlocks: nat) returns (r: Option<seq<Extent>>)
    requires |f.inline| == 8 && Records(f.overflow)
    ensures r == ReadRest(f.overflow, f.inline, 0, 0, totalBlocks)
  {
    var blocksLeft: nat, currentBlock: nat, currentExtent: nat := totalBlocks, 0, 0;
    var descriptors := f.inline;
    var es := [];
    BehindNone(ReadRest(f.overflow, f.inline, 0, 0, totalBlocks));
    while blocksLeft > 0
      invariant |descriptors| == 8 && currentExtent <= 8
      invariant ReadRest(f.overflow, f.inline, 0, 0, totalBlocks)
             == Behind(es, ReadRest(f.overflow, descriptors, currentExtent, currentBlock, blocksLeft))
      decreases blocksLeft, Waiting(descriptors, currentExtent)
    {
      if currentExtent == 8 {
        if currentBlock !in f.overflow {
          return None;
        }
        descriptors := f.overflow[currentBlock];
        currentExtent := 0;
        continue;
      }
      var e := descriptors[currentExtent];
      if e.blockCount > blocksLeft {
        return None;
      }
      BehindOne(es, e, ReadRest(f.overflow, descriptors, currentExtent + 1, currentBlock + e.blockCount,
                                blocksLeft - e.blockCount));
      currentBlock := currentBlock + e.blockCount;
      blocksLeft := blocksLeft - e.blockCount;
      currentExtent := currentExtent + 1;
      es := es + [e];
    }
    assert es + [] == es;
    return Some(es);
  }

  lemma BehindNone(r: Option<seq<Extent>>)
    ensures Behind([], r) == r
  {
    if r.Some? {
      assert [] + r.value == r.value;
    }
  }

  lemma BehindOne(es: seq<Extent>, e: Extent, r: Option<seq<Extent>>)
    ensures Behind(es, Behind([e], r)) == Behind(es + [e], r)
  {
    if r.Some? {
      assert es + ([e] + r.value) == es + [e] + r.value;
    }
  }

  /**
   Record g of a list, eight extents behind eight times g others. Descriptors the list does not fill are
   blank in the first overflow record and hold what the record before it has in a later one.
   */
  function GroupRecord(es: seq<Extent>, g: nat): (d: seq<Extent>)
    requires g > 0 && 8 * g < |es|
    ensures |d| == 8
  {
    seq(8, j requires 0 <= j < 8 =>
      if 8 * g + j < |es| then es[8 * g + j] else if g == 1 then Extent(0, 0) else es[8 * (g - 1) + j])
  }

  function GroupKey(es: seq<Extent>, g: nat): nat
    requires 8 * g < |es|
  {
    es[8 * g].startBlock
  }

  /** The records from group g on have been added, each under the disk block it starts at unless that is taken. */
  ghost predicate GroupsAdded(es: seq<Extent>, g: nat, m: map<nat, seq<Extent>>, after: map<nat, seq<Extent>>)
    requires g > 0
  {
    && (forall k :: k in m ==> k in after && after[k] == m[k])
    && (forall k :: k in after && k !in m ==> exists h: nat :: h >= g && 8 * h < |es| && GroupKey(es, h) == k)
    && forall h: nat :: h >= g && 8 * h < |es| && GroupKey(es, h) !in m ==>
      && GroupKey(es, h) in after
      && ((forall i: nat :: g <= i < h ==> GroupKey(es, i) != GroupKey(es, h)) ==>
            after[GroupKey(es, h)] == GroupRecord(es, h))
  }

  lemma {:induction false} GroupsWritten(es: seq<Extent>, g: nat, d: seq<Extent>, m: map<nat, seq<Extent>>)
    requires g > 0 && 8 * g <= |es| && |d| == 8
    requires d == if g == 1 then Blank() else GroupRecord(es, g - 1)
    ensures GroupsAdded(es, g, m, WriteRest(es[8 * g..], d, m))
    decreases |es| - 8 * g
  {
    hide WriteRest, GroupRecord, GroupsAdded, GroupKey, Put;
    NoGroups(es, g, m);
    if 8 * g == |es| {
      assert es[8 * g..] == [];
      NoMore(d, m);
    } else {
      NextGroup(es, g, d, m);
      var m1 := Put(m, GroupKey(es, g), GroupRecord(es, g));
      NoGroups(es, g + 1, m1);
      if |es| >= 8 * (g + 1) {
        GroupsWritten(es, g + 1, GroupRecord(es, g), m1);
      }
      OneGroup(es, g, m, WriteRest(es[8 * g..], d, m));
    }
  }

  lemma NoGroups(es: seq<Extent>, g: nat, m: map<nat, seq<Extent>>)
    requires g > 0
    ensures 8 * g >= |es| ==> GroupsAdded(es, g, m, m)
  {
  }

  lemma OneGroup(es: seq<Extent>, g: nat, m: map<nat, seq<Extent>>, after: map<nat, seq<Extent>>)
    requires g > 0 && 8 * g < |es| && GroupsAdded(es, g + 1, Put(m, GroupKey(es, g), GroupRecord(es, g)), after)
    ensures GroupsAdded(es, g, m, after)
  {
    hide GroupRecord, GroupKey;
    assert GroupKey(es, g) in after;
  }

  lemma NextGroup(es: seq<Extent>, g: nat, d: seq<Extent>, m: map<nat, seq<Extent>>)
    requires g > 0 && 8 * g < |es| && |d| == 8
    requires d == if g == 1 then Blank() else GroupRecord(es, g - 1)
    ensures var d1 := GroupRecord(es, g);
      WriteRest(es[8 * g..], d, m)
      == if |es| >= 8 * (g + 1) then WriteRest(es[8 * (g + 1)..], d1, Put(m, GroupKey(es, g), d1))
         else Put(m, GroupKey(es, g), d1)
  {
    var rest, d1 := es[8 * g..], GroupRecord(es, g);
    var n := Min8(|rest|);
    assert rest[..n] + d[n..] == d1;
    if |es| >= 8 * (g + 1) {
      assert rest[n..] == es[8 * (g + 1)..];
    } else {
      assert rest[n..] == [];
    }
  }

  /** What is written for a list: eight descriptors in the fork, and the overflow records. */
  lemma WrittenIs(es: seq<Extent>, m: map<nat, seq<Extent>>)
    ensures |Written(es, m).inline| == 8
    ensures forall j :: 0 <= j < 8 ==> Written(es, m).inline[j] == if j < |es| then es[j] else Extent(0, 0)
    ensures GroupsAdded(es, 1, m, Written(es, m).overflow)
  {
    if |es| >= 8 {
      GroupsWritten(es, 1, Blank(), m);
    } else {
      assert es[Min8(|es|)..] == [];
      NoMore(Blank(), m);
    }
  }

  /** Every overflow record begins at the disk block whose number is its place in the file. */
  ghost predicate KeysAgree(es: seq<Extent>)
  {
    forall g: nat :: g > 0 && 8 * g < |es| ==> es[8 * g].startBlock == Count(es[..8 * g])
  }

  /** Records stored under the disk block they start at. */
  ghost predicate Keyed(m: map<nat, seq<Extent>>)
  {
    Records(m) && forall k :: k in m ==> m[k][0].startBlock == k
  }

  lemma {:induction false} WriteKeyed(rest: seq<Extent>, d: seq<Extent>, m: map<nat, seq<Extent>>)
    requires |d| == 8 && Positive(rest) && Keyed(m)
    ensures Keyed(WriteRest(rest, d, m))
    decreases |rest|
  {
    if rest != [] {
      var n := Min8(|rest|);
      var d1 := rest[..n] + d[n..];
      assert d1[0] == rest[0];
      WriteKeyed(rest[n..], d1, Put(m, d1[0].startBlock, d1));
    }
  }

  /** The record holds the extents of the list from `at` on, as many as there are. */
  ghost predicate Holds(d: seq<Extent>, es: seq<Extent>, at: nat)
  {
    |d| == 8 && forall j: nat :: j < 8 && at + j < |es| ==> d[j] == es[at + j]
  }

  /** With agreeing keys every group of eight is stored under its place in the file. */
  lemma {:induction false} WriteHolds(es: seq<Extent>, g: nat, rest: seq<Extent>, d: seq<Extent>,
                                      m: map<nat, seq<Extent>>, after: map<nat, seq<Extent>>)
    requires Positive(es) && KeysAgree(es) && |d| == 8 && g > 0 && 8 * g <= |es| && rest == es[8 * g..]
    requires forall h: nat :: h >= g && 8 * h < |es| && Count(es[..8 * h]) in m ==> Stored(m, es, h)
    requires after == WriteRest(rest, d, m)
    ensures forall k :: k in m ==> k in after && after[k] == m[k]
    ensures forall h: nat :: h >= g && 8 * h < |es| ==> Stored(after, es, h)
    decreases |es| - 8 * g
  {
    if rest != [] {
      var n := Min8(|rest|);
      var d1 := rest[..n] + d[n..];
      var k := d1[0].startBlock;
      assert d1[0] == es[8 * g];
      assert k == Count(es[..8 * g]);
      var m1 := Put(m, k, d1);
      assert Holds(m1[k], es, 8 * g);
      if n == 8 {
        CountStep(es, 8 * g, 8 * (g + 1));
        assert rest[8..] == es[8 * (g + 1)..];
        forall h: nat | h >= g + 1 && 8 * h < |es| && Count(es[..8 * h]) in m1
          ensures Stored(m1, es, h)
        {
          CountStep(es, 8 * g, 8 * h);
        }
        WriteHolds(es, g + 1, rest[8..], d1, m1, after);
      }
      assert Stored(after, es, g);
    }
  }

  ghost predicate Stored(m: map<nat, seq<Extent>>, es: seq<Extent>, g: nat)
    requires 8 * g < |es|
  {
    Count(es[..8 * g]) in m && Holds(m[Count(es[..8 * g])], es, 8 * g)
  }

  /** Reading on from extent n, at descriptor `cur` of a record that holds the group of n. */
  lemma {:induction false} ReadsBack(m: map<nat, seq<Extent>>, d: seq<Extent>, cur: nat, es: seq<Extent>, n: nat)
    requires Records(m) && Positive(es) && cur <= 8 && cur <= n <= |es| && Holds(d, es, n - cur) && (n - cur) % 8 == 0
    requires forall h: nat :: h > 0 && 8 * h < |es| ==> Stored(m, es, h)
    ensures ReadRest(m, d, cur, Count(es[..n]), Count(es[n..])) == Some(es[n..])
    decreases |es| - n, Waiting(d, cur)
  {
    if n == |es| {
      assert es[n..] == [];
    } else {
      hide Count;
      CountAround(es, n);
      if cur == 8 {
        var h := n / 8;
        assert Stored(m, es, h);
        ReadsBack(m, m[Count(es[..n])], 0, es, n);
      } else {
        assert d[cur] == es[n - cur + cur];
        ReadsBack(m, d, cur + 1, es, n + 1);
        assert [es[n]] + es[n + 1..] == es[n..];
      }
    }
  }

  lemma CountAround(es: seq<Extent>, n: nat)
    requires n < |es|
    ensures Count(es[..n + 1]) == Count(es[..n]) + es[n].blockCount
    ensures Count(es[n..]) == es[n].blockCount + Count(es[n + 1..])
  {
    assert es[..n + 1] == es[..n] + [es[n]];
    FlatCat(es[..n], [es[n]]);
    FlatOne(es[n]);
    assert es[n..][1..] == es[n + 1..];
  }

  /** What is read from a descriptor on is what the record holds from there. */
  lemma {:induction false} ReadTail(m: map<nat, seq<Extent>>, d: seq<Extent>, cur: nat, es: seq<Extent>, n: nat, j: nat)
    requires Records(m) && Positive(es) && |d| == 8 && cur <= 8 && n <= |es| && cur + j < 8 && n + j < |es|
    requires ReadRest(m, d, cur, Count(es[..n]), Count(es[n..])) == Some(es[n..])
    ensures d[cur + j] == es[n + j]
    decreases j
  {
    CountAround(es, n);
    hide Count;
    assert es[n] == es[n..][0] == d[cur];
    assert es[n..][1..] == es[n + 1..];
    if j > 0 {
      ReadTail(m, d, cur + 1, es, n + 1, j - 1);
    }
  }

  /** Extents read from behind a group boundary came from a record keyed by their place in the file. */
  lemma {:induction false} ReadAgrees(m: map<nat, seq<Extent>>, d: seq<Extent>, cur: nat, es: seq<Extent>, n: nat,
                                      g: nat)
    requires Keyed(m) && Positive(es) && |d| == 8 && cur <= 8 && cur <= n <= |es| && (n - cur) % 8 == 0
    requires ReadRest(m, d, cur, Count(es[..n]), Count(es[n..])) == Some(es[n..])
    requires 8 * g < |es| && (n < 8 * g || (n == 8 * g && cur == 8))
    ensures es[8 * g].startBlock == Count(es[..8 * g]) && Stored(m, es, g)
    decreases |es| - n, Waiting(d, cur)
  {
    CountAround(es, n);
    if cur == 8 {
      var d1 := m[Count(es[..n])];
      if n == 8 * g {
        GroupRead(m, es, n);
        assert es[n] == es[n..][0] == d1[0];
      } else {
        ReadAgrees(m, d1, 0, es, n, g);
      }
    } else {
      assert es[n] == es[n..][0] == d[cur];
      assert es[n..][1..] == es[n + 1..];
      ReadAgrees(m, d, cur + 1, es, n + 1, g);
    }
  }

  lemma GroupRead(m: map<nat, seq<Extent>>, es: seq<Extent>, n: nat)
    requires Records(m) && Positive(es) && n < |es| && Count(es[..n]) in m
    requires ReadRest(m, m[Count(es[..n])], 0, Count(es[..n]), Count(es[n..])) == Some(es[n..])
    ensures Holds(m[Count(es[..n])], es, n)
  {
    hide ReadRest;
    forall j: nat | j < 8 && n + j < |es|
      ensures m[Count(es[..n])][j] == es[n + j]
    {
      ReadTail(m, m[Count(es[..n])], 0, es, n, j);
    }
  }

  /** No record left in the tree stands where the list needs another one. */
  ghost predicate Clear(m: map<nat, seq<Extent>>, es: seq<Extent>)
  {
    forall g: nat :: g > 0 && 8 * g < |es| && Count(es[..8 * g]) in m ==> Holds(m[Count(es[..8 * g])], es, 8 * g)
  }

  /**
   A list written beside records still in the tree is read back exactly when every overflow record
   happens to start at the disk block equal to its place in the file, and no record in its way
   says otherwise.
   */
  lemma WriteBack(es: seq<Extent>, m: map<nat, seq<Extent>>)
    requires Positive(es) && Keyed(m)
    ensures Records(Written(es, m).overflow)
    ensures ReadRest(Written(es, m).overflow, Written(es, m).inline, 0, 0, Count(es)) == Some(es)
      <==> KeysAgree(es) && Clear(m, es)
  {
    hide WriteRest, ReadRest, Count, KeysAgree, Holds, Stored, Clear;
    var n := Min8(|es|);
    var f := Written(es, m);
    WriteKeyed(es[n..], Blank(), m);
    FirstGroup(es, m);
    if KeysAgree(es) && Clear(m, es) {
      AllStored(es, m);
      ReadsBack(f.overflow, f.inline, 0, es, 0);
    }
    if ReadRest(f.overflow, f.inline, 0, 0, Count(es)) == Some(es) {
      AllAgree(f.overflow, f.inline, es);
      StillClear(es, m);
    }
  }

  lemma FirstGroup(es: seq<Extent>, m: map<nat, seq<Extent>>)
    ensures es[..0] == [] && es[0..] == es && Count(es[..0]) == 0
    ensures Holds(Written(es, m).inline, es, 0)
  {
  }

  lemma AllStored(es: seq<Extent>, m: map<nat, seq<Extent>>)
    requires Positive(es) && KeysAgree(es) && Clear(m, es)
    ensures forall h: nat :: h > 0 && 8 * h < |es| ==> Stored(Written(es, m).overflow, es, h)
  {
    if |es| >= 8 {
      WriteHolds(es, 1, es[8..], Blank(), m, Written(es, m).overflow);
    }
  }

  lemma AllAgree(m: map<nat, seq<Extent>>, d: seq<Extent>, es: seq<Extent>)
    requires Keyed(m) && Positive(es) && |d| == 8 && ReadRest(m, d, 0, 0, Count(es)) == Some(es)
    ensures KeysAgree(es) && Clear(m, es)
  {
    FirstGroup(es, m);
    forall g: nat | g > 0 && 8 * g < |es|
      ensures es[8 * g].startBlock == Count(es[..8 * g]) && Stored(m, es, g)
    {
      ReadAgrees(m, d, 0, es, 0, g);
    }
  }

  /** Writing never replaces a record. */
  lemma {:induction false} WriteKeeps(rest: seq<Extent>, d: seq<Extent>, m: map<nat, seq<Extent>>)
    requires |d| == 8
    ensures forall k :: k in m ==> k in WriteRest(rest, d, m) && WriteRest(rest, d, m)[k] == m[k]
    decreases |rest|
  {
    if rest != [] {
      var n := Min8(|rest|);
      var d1 := rest[..n] + d[n..];
      WriteKeeps(rest[n..], d1, Put(m, d1[0].startBlock, d1));
    }
  }

  lemma StillClear(es: seq<Extent>, m: map<nat, seq<Extent>>)
    requires Clear(Written(es, m).overflow, es)
    ensures Clear(m, es)
  {
    WriteKeeps(es[Min8(|es|)..], Blank(), m);
  }

  /** The first form written for a file is read back exactly when its keys agree; so always for eight extents. */
  lemma RoundTrip(es: seq<Extent>)
    requires Positive(es)
    ensures Records(Written(es, map[]).overflow)
    ensures ReadRest(Written(es, map[]).overflow, Written(es, map[]).inline, 0, 0, Count(es)) == Some(es)
      <==> KeysAgree(es)
    ensures |es| <= 8 ==> KeysAgree(es)
  {
    hide Written, ReadRest;
    WriteBack(es, map[]);
  }

  // Writing a list over another one.

  ghost predicate PlaceOf(es: seq<Extent>, h: nat, k: nat)
  {
    8 * h < |es| && k == Count(es[..8 * h])
  }

  /** The records are those of the groups behind place n. */
  ghost predicate Places(m: map<nat, seq<Extent>>, es: seq<Extent>, n: nat)
  {
    && (forall k :: k in m ==> exists h: nat :: n < 8 * h && PlaceOf(es, h, k))
    && (forall h: nat :: n < 8 * h < |es| ==> Stored(m, es, h))
  }

  /** With agreeing keys only the groups' places are written to. */
  lemma {:induction false} WritePlaces(es: seq<Extent>, g: nat, rest: seq<Extent>, d: seq<Extent>,
                                       m: map<nat, seq<Extent>>, k: nat)
    requires Positive(es) && KeysAgree(es) && |d| == 8 && g > 0 && 8 * g <= |es| && rest == es[8 * g..]
    requires k in WriteRest(rest, d, m)
    ensures k in m || exists h: nat :: h >= g && PlaceOf(es, h, k)
    decreases |es| - 8 * g
  {
    hide Count;
    if rest != [] {
      var n := Min8(|rest|);
      var d1 := rest[..n] + d[n..];
      assert d1[0] == es[8 * g];
      assert PlaceOf(es, g, d1[0].startBlock);
      var m1 := Put(m, d1[0].startBlock, d1);
      if n == 8 {
        assert rest[8..] == es[8 * (g + 1)..];
        WritePlaces(es, g + 1, rest[8..], d1, m1, k);
      } else {
        NoMore(d1, m1);
        assert rest[n..] == [];
      }
    }
  }

  /** With agreeing keys removal finds each group's record in turn and leaves none. */
  lemma {:induction false} RemoveAll(m: map<nat, seq<Extent>>, d: seq<Extent>, cur: nat, es: seq<Extent>, n: nat)
    requires Records(m) && Positive(es) && cur <= 8 && cur <= n <= |es| && Holds(d, es, n - cur) && (n - cur) % 8 == 0
    requires Places(m, es, n - cur)
    ensures RemoveRest(m, d, cur, Count(es[..n]), Count(es[n..])) == Some(map[])
    decreases |es| - n, Waiting(d, cur)
  {
    hide Count, Stored;
    if n == |es| {
      assert es[n..] == [];
      NoPlaces(m, es, n - cur);
      NoBlocks();
    } else {
      CountAround(es, n);
      if cur == 8 {
        var h := n / 8;
        NextPlaces(m, es, h);
        RemoveAll(m - {Count(es[..n])}, m[Count(es[..n])], 0, es, n);
      } else {
        assert d[cur] == es[n - cur + cur];
        RemoveAll(m, d, cur + 1, es, n + 1);
      }
    }
  }

  lemma NoBlocks()
    ensures Count([]) == 0
  {
  }

  lemma NoPlaces(m: map<nat, seq<Extent>>, es: seq<Extent>, n: nat)
    requires Places(m, es, n) && n % 8 == 0 && |es| <= n + 8
    ensures m == map[]
  {
    forall h: nat, k: nat | n < 8 * h
      ensures !PlaceOf(es, h, k)
    {
    }
    assert forall k :: k !in m;
  }

  lemma NextPlaces(m: map<nat, seq<Extent>>, es: seq<Extent>, h: nat)
    requires Records(m) && Positive(es) && h > 0 && 8 * h < |es| && Places(m, es, 8 * h - 8)
    ensures Count(es[..8 * h]) in m && Holds(m[Count(es[..8 * h])], es, 8 * h)
    ensures Records(m - {Count(es[..8 * h])}) && Places(m - {Count(es[..8 * h])}, es, 8 * h)
  {
    hide Count, Holds;
    assert Stored(m, es, h);
    var m1 := m - {Count(es[..8 * h])};
    forall i: nat | 8 * h < 8 * i < |es|
      ensures Stored(m1, es, i)
    {
      CountStep(es, 8 * h, 8 * i);
      assert Stored(m, es, i);
    }
    forall k | k in m1
      ensures exists i: nat :: 8 * h < 8 * i && PlaceOf(es, i, k)
    {
      var i: nat :| 8 * h - 8 < 8 * i && PlaceOf(es, i, k);
    }
  }

  /**
   Rewriting a file. Over a list whose keys agree the old records are all removed, and the new list
   is read back exactly when its own keys agree; in general also the records that removal missed
   must not be in its way.
   */
  lemma SecondWrite(es0: seq<Extent>, es: seq<Extent>)
    requires Positive(es0) && Positive(es)
    ensures Records(Written(es0, map[]).overflow)
    ensures var f := Written(es0, map[]);
      var m := RemoveRest(f.overflow, f.inline, 0, 0, Count(es0));
      && (KeysAgree(es0) ==> m == Some(map[]))
      && (m.Some? ==>
            && Records(Written(es, m.value).overflow)
            && (ReadRest(Written(es, m.value).overflow, Written(es, m.value).inline, 0, 0, Count(es)) == Some(es)
                <==> KeysAgree(es) && Clear(m.value, es)))
  {
    hide WriteRest, ReadRest, RemoveRest, Count, KeysAgree, Holds, Stored, Clear, Written;
    var f := Written(es0, map[]);
    WrittenKeyed(es0);
    var m := RemoveRest(f.overflow, f.inline, 0, 0, Count(es0));
    if KeysAgree(es0) {
      RemovedAll(es0);
    }
    RemoveKeyed(f.overflow, f.inline, 0, 0, Count(es0));
    if m.Some? {
      WriteBack(es, m.value);
    }
  }

  lemma WrittenKeyed(es: seq<Extent>)
    requires Positive(es)
    ensures Keyed(Written(es, map[]).overflow) && |Written(es, map[]).inline| == 8
  {
    WriteKeyed(es[Min8(|es|)..], Blank(), map[]);
  }

  lemma RemovedAll(es: seq<Extent>)
    requires Positive(es) && KeysAgree(es) && Records(Written(es, map[]).overflow)
    ensures RemoveRest(Written(es, map[]).overflow, Written(es, map[]).inline, 0, 0, Count(es)) == Some(map[])
  {
    hide WriteRest, RemoveRest, Count, KeysAgree, Holds, Stored;
    var f := Written(es, map[]);
    FirstGroup(es, map[]);
    AllStored(es, map[]);
    forall k | k in f.overflow
      ensures exists h: nat :: 0 < 8 * h && PlaceOf(es, h, k)
    {
      WrittenPlace(es, k);
    }
    RemoveAll(f.overflow, f.inline, 0, es, 0);
  }

  lemma WrittenPlace(es: seq<Extent>, k: nat)
    requires Positive(es) && KeysAgree(es) && k in Written(es, map[]).overflow
    ensures exists h: nat :: 0 < 8 * h && PlaceOf(es, h, k)
  {
    hide Count;
    if |es| >= 8 {
      WritePlaces(es, 1, es[8..], Blank(), map[], k);
    }
  }

  lemma {:induction false} RemoveKeyed(m: map<nat, seq<Extent>>, d: seq<Extent>, cur: nat, block: nat, left: nat)
    requires Keyed(m) && |d| == 8 && cur <= 8
    ensures var r := RemoveRest(m, d, cur, block, left);
      r.Some? ==> Keyed(r.value)
    decreases left, Waiting(d, cur)
  {
    if left > 0 {
      if cur == 8 {
        if block in m {
          RemoveKeyed(m - {block}, m[block], 0, block, left);
        }
      } else if d[cur].blockCount <= left {
        RemoveKeyed(m, d, cur + 1, block + d[cur].blockCount, left - d[cur].blockCount);
      }
    }
  }

  /**
   Nine extents of one block each, on every other block of the volume: stored, they are not read
   back, and writing any list over them ends the program.
   */
  lemma NineExtents(again: seq<Extent>)
    ensures var es := seq(9, i requires 0 <= i => Extent(2 * i + 1, 1));
      && Positive(es) && Distinct(Flat(es)) && Records(Written(es, map[]).overflow)
      && ReadRest(Written(es, map[]).overflow, Written(es, map[]).inline, 0, 0, Count(es)) != Some(es)
      && Rewritten(Written(es, map[]), Count(es), again) == None
  {
    var es := seq(9, i requires 0 <= i => Extent(2 * i + 1, 1));
    RoundTrip(es);
    assert es[8 * 1].startBlock == 17;
    OneBlockEach(es[..8]);
    assert !KeysAgree(es);
    OneBlockEach(es);
    var f := Written(es, map[]);
    assert es[8..] == [es[8]];
    OneOverflow(es[8]);
    NineRemoved(f, 0);
  }

  lemma OneOverflow(e: Extent)
    ensures WriteRest([e], Blank(), map[]).Keys == {e.startBlock}
  {
    var d := [e][..1] + Blank()[1..];
    NoMore(d, Put(map[], d[0].startBlock, d));
    assert [e][1..] == [];
  }

  lemma {:induction false} NineRemoved(f: Fork, cur: nat)
    requires |f.inline| == 8 && Records(f.overflow) && cur <= 8 && 8 !in f.overflow
    requires forall j :: 0 <= j < 8 ==> f.inline[j].blockCount == 1
    ensures RemoveRest(f.overflow, f.inline, cur, cur, 9 - cur) == None
    decreases 8 - cur
  {
    if cur < 8 {
      NineRemoved(f, cur + 1);
    }
  }

  lemma {:induction false} OneBlockEach(es: seq<Extent>)
    requires forall i :: 0 <= i < |es| ==> es[i].blockCount == 1
    ensures Count(es) == |es| == |Flat(es)|
    ensures forall i :: 0 <= i < |es| ==> Flat(es)[i] == es[i].startBlock
  {
    if es != [] {
      OneBlockEach(es[1..]);
    }
  }
}
