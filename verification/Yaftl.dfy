/**
 Rebuilding the flash translation map: blocks are read newest first and the first entry for a
 logical page wins, which is replaying all page writes in order with the last one winning.
 */
module Yaftl {
  import opened Arithmetic
  import opened Options

  const INVALID := 0xFFFF_FFFF
  const PAGETYPE_INDEX := 0x4
  const PAGETYPE_LBN := 0x10

  /** What the spare area of a written page says. */
  datatype Spare = Spare(lpn: nat, usn: nat, kind: nat)

  /** A device: the spare areas by block and page, none where a page cannot be read, and the raw
      table of contents of each block, none when one of its pages cannot be read. */
  datatype Flash = Flash(pages: seq<seq<Option<Spare>>>, toc: seq<Option<seq<nat>>>,
                         pagesPerSublk: nat, userPages: nat, totalPages: nat)
  {
    ghost predicate Valid()
    {
      && 0 < userPages <= pagesPerSublk && totalPages < INVALID && |pages| == |toc|
      && (forall b :: 0 <= b < |pages| ==> |pages[b]| == pagesPerSublk)
      && (forall b :: 0 <= b < |toc| && toc[b].Some? ==> |toc[b].value| >= userPages)
    }

    /** The block holds user data: its first page says so. */
    predicate User(b: nat)
      requires b < |pages| && |pages[b]| > 0
    {
      pages[b][0].Some? && pages[b][0].value.kind == PAGETYPE_LBN
    }

    function Usn(b: nat): nat
      requires b < |pages| && |pages[b]| > 0 && User(b)
    {
      pages[b][0].value.usn
    }
  }

  /** The virtual page number of a page of a block. */
  function Vpn(f: Flash, b: nat, i: nat): nat
  {
    b * f.pagesPerSublk + i
  }

  /** A logical page written to a virtual page. */
  datatype Write = Write(lpn: nat, vpn: nat)

  /** Replaying writes in order, the last one wins. */
  function Latest(w: seq<Write>): map<nat, nat>
  {
    if w == [] then map[] else Latest(w[..|w| - 1])[w[|w| - 1].lpn := w[|w| - 1].vpn]
  }

  /** An earlier write counts only where no later one is known. */
  lemma {:induction false} EarlierWrite(e: Write, w: seq<Write>)
    ensures Latest([e] + w) == if e.lpn in Latest(w) then Latest(w) else Latest(w)[e.lpn := e.vpn]
  {
    if w == [] {
      assert ([e] + w)[..0] == [];
    } else {
      var n := |w| - 1;
      EarlierWrite(e, w[..n]);
      assert ([e] + w)[..n + 1] == [e] + w[..n];
    }
  }

  /** Entries above the highest page number are marked invalid. */
  function Clip(entry: nat, maxVal: nat): nat
  {
    if entry > maxVal then INVALID else entry
  }

  /** What page i of a block says it holds: by the table of contents, or by its own spare area. */
  function Entry(f: Flash, b: nat, i: nat): Option<nat>
    requires f.Valid() && b < |f.pages| && i < f.userPages
  {
    if f.toc[b].Some? then Some(Clip(f.toc[b].value[i], f.totalPages))
    else if f.pages[b][i].Some? then Some(f.pages[b][i].value.lpn)
    else None
  }

  /** The writes of the pages i and up of a block. */
  function BlockWrites(f: Flash, b: nat, i: nat): seq<Write>
    requires f.Valid() && b < |f.pages| && i <= f.userPages
    decreases f.userPages - i
  {
    if i == f.userPages then [] else
    var rest := BlockWrites(f, b, i + 1);
    if Entry(f, b, i).Some? then [Write(Entry(f, b, i).value, Vpn(f, b, i))] + rest else rest
  }

  ghost predicate Blocks(f: Flash, order: seq<nat>)
  {
    forall k :: 0 <= k < |order| ==> order[k] < |f.pages|
  }

  /** The writes of blocks in the given order. */
  function Writes(f: Flash, order: seq<nat>): seq<Write>
    requires f.Valid() && Blocks(f, order)
  {
    if order == [] then [] else BlockWrites(f, order[0], 0) + Writes(f, order[1..])
  }

  /** The table of contents with out-of-range entries marked; none when a page of it cannot be read. */
  method ReadBtocPages(f: Flash, block: nat, maxVal: nat) returns (btoc: Option<seq<nat>>)
    requires f.Valid() && block < |f.pages|
    ensures btoc.None? <==> f.toc[block].None?
    ensures btoc.Some? ==> |btoc.value| == |f.toc[block].value|
    ensures btoc.Some? ==> forall i :: 0 <= i < |btoc.value| ==>
      btoc.value[i] == if f.toc[block].value[i] > maxVal then 0xFFFF_FFFF else f.toc[block].value[i]
  {
    if f.toc[block].None? {
      return None;
    }
    var t := f.toc[block].value;
    var i := 0;
    while i < |t|
      invariant 0 <= i <= |t| == |f.toc[block].value|
      invariant forall k :: 0 <= k < |t| ==> t[k] == if k < i then Clip(f.toc[block].value[k], maxVal)
        else f.toc[block].value[k]
    {
      if t[i] > maxVal {
        t := t[i := INVALID];
      }
      i := i + 1;
    }
    return Some(t);
  }

  lemma NoPages(f: Flash, b: nat, w: seq<Write>)
    requires f.Valid() && b < |f.pages|
    ensures BlockWrites(f, b, f.userPages) + w == w
  {
  }

  lemma EarlierPage(f: Flash, b: nat, i: nat, w: seq<Write>)
    requires f.Valid() && b < |f.pages| && i < f.userPages
    ensures var m, e := Latest(BlockWrites(f, b, i + 1) + w), Entry(f, b, i);
      Latest(BlockWrites(f, b, i) + w) == if e.None? || e.value in m then m else m[e.value := Vpn(f, b, i)]
  {
    hide Latest, Vpn, Entry;
    if Entry(f, b, i).Some? {
      var e := Write(Entry(f, b, i).value, Vpn(f, b, i));
      EarlierWrite(e, BlockWrites(f, b, i + 1) + w);
      assert [e] + (BlockWrites(f, b, i + 1) + w) == BlockWrites(f, b, i) + w;
    }
  }

  /** One block of the restore: its pages from the last to the first, entries already known stay. */
  method RestoreBlock(f: Flash, b: nat, known: map<nat, nat>, ghost w: seq<Write>) returns (lpnToVpn: map<nat, nat>)
    requires f.Valid() && b < |f.pages| && known == Latest(w)
    ensures lpnToVpn == Latest(BlockWrites(f, b, 0) + w)
  {
    hide Latest, Vpn, BlockWrites;
    NoPages(f, b, w);
    lpnToVpn := known;
    var btoc := ReadBtocPages(f, b, f.totalPages);
    var i := f.userPages;
    while i > 0
      invariant 0 <= i <= f.userPages && lpnToVpn == Latest(BlockWrites(f, b, i) + w)
    {
      i := i - 1;
      var vpn := Vpn(f, b, i);
      EarlierPage(f, b, i, w);
      if btoc.Some? {
        if btoc.value[i] !in lpnToVpn {
          lpnToVpn := lpnToVpn[btoc.value[i] := vpn];
        }
      } else {
        var s := f.pages[b][i];
        if s.Some? && s.value.lpn !in lpnToVpn {
          lpnToVpn := lpnToVpn[s.value.lpn := vpn];
        }
      }
    }
  }

  /** User blocks by sequence number; of two with the same number the later block stays. */
  ghost predicate Found(f: Flash, blocks: map<nat, nat>, n: nat)
    requires f.Valid() && n <= |f.pages|
  {
    && (forall u :: u in blocks ==> blocks[u] < n && f.User(blocks[u]) && f.Usn(blocks[u]) == u)
    && (forall b: nat :: b < n && f.User(b) ==> f.Usn(b) in blocks && b <= blocks[f.Usn(b)])
  }

  /** The first page of a block has the given type. */
  predicate Typed(f: Flash, b: nat, kind: nat)
    requires f.Valid() && b < |f.pages|
    ensures Typed(f, b, kind) && kind == PAGETYPE_LBN ==> f.User(b)
  {
    f.pages[b][0].Some? && f.pages[b][0].value.kind == kind
  }

  method FindUserBlocks(f: Flash) returns (userBlocks: map<nat, nat>)
    requires f.Valid()
    ensures Found(f, userBlocks, |f.pages|)
  {
    userBlocks := map[];
    var b := 0;
    while b < |f.pages|
      invariant 0 <= b <= |f.pages| && Found(f, userBlocks, b)
    {
      var s := f.pages[b][0];
      if s.Some? && s.value.kind == PAGETYPE_LBN {
        userBlocks := userBlocks[s.value.usn := b];
      }
      b := b + 1;
    }
  }

  /** The numbers of a set in descending order. */
  method SortedDown(keys: set<nat>) returns (r: seq<nat>)
    ensures forall k :: k in keys <==> k in r
    ensures forall i, j :: 0 <= i < j < |r| ==> r[i] > r[j]
  {
    r := [];
    var left := keys;
    while left != {}
      invariant left <= keys && forall k :: k in keys <==> k in r || k in left
      invariant forall i, j :: 0 <= i < j < |r| ==> r[i] > r[j]
      invariant forall i, k :: 0 <= i < |r| && k in left ==> r[i] > k
      decreases left
    {
      HasMaximum(left);
      var m :| m in left && forall k :: k in left ==> k <= m;
      r := r + [m];
      left := left - {m};
    }
  }

  lemma {:induction false} HasMaximum(s: set<nat>)
    requires s != {}
    ensures exists m :: m in s && forall k :: k in s ==> k <= m
    decreases |s|
  {
    var m := Maximum(s);
  }

  lemma {:induction false} Maximum(s: set<nat>) returns (m: nat)
    requires s != {}
    ensures m in s && forall k :: k in s ==> k <= m
    decreases |s|
  {
    m :| m in s;
    var rest := s - {m};
    assert s == rest + {m};
    if rest != {} {
      var n := Maximum(rest);
      if n > m {
        m := n;
      }
    }
  }

  /** The user blocks, oldest first. */
  ghost predicate Ascending(f: Flash, userBlocks: map<nat, nat>, order: seq<nat>)
    requires f.Valid()
  {
    && Blocks(f, order)
    && (forall k :: 0 <= k < |order| ==>
          f.User(order[k]) && f.Usn(order[k]) in userBlocks && userBlocks[f.Usn(order[k])] == order[k])
    && (forall i, j :: 0 <= i < j < |order| ==> f.Usn(order[i]) < f.Usn(order[j]))
  }

  /** The restore: newest block first, first entry wins. The result is the replay of all writes in order. */
  method Restore(f: Flash) returns (lpnToVpn: map<nat, nat>, userBlocks: map<nat, nat>, order: seq<nat>)
    requires f.Valid()
    ensures Found(f, userBlocks, |f.pages|)
    ensures Ascending(f, userBlocks, order) && (forall u :: u in userBlocks ==> userBlocks[u] in order)
    ensures lpnToVpn == Latest(Writes(f, order))
    ensures MapsHeld(f, order, lpnToVpn) && MapsLatest(f, order, lpnToVpn)
    ensures forall b: nat :: b < |f.pages| && (b in order || Typed(f, b, 0x10)) ==>
      Typed(f, b, 0x10) && f.Usn(b) in userBlocks && userBlocks[f.Usn(b)] in order && b <= userBlocks[f.Usn(b)]
  {
    hide Writes, Latest, BlockWrites, Ascending, Found, Later, MapsHeld, MapsLatest;
    var found := FindUserBlocks(f);
    userBlocks := found;
    var usns := SortedDown(found.Keys);
    order := [];
    lpnToVpn := map[];
    NoWrites(f);
    NoBlocks(f, userBlocks, usns);
    var k := 0;
    while k < |usns|
      invariant 0 <= k <= |usns| && Ascending(f, userBlocks, order) && Later(f, order, userBlocks, usns, k)
      invariant Blocks(f, order) && lpnToVpn == Latest(Writes(f, order))
    {
      NextBlock(f, order, userBlocks, usns, k);
      var b := found[usns[k]];
      lpnToVpn := RestoreBlock(f, b, lpnToVpn, Writes(f, order));
      OlderBlock(f, b, order);
      order := [b] + order;
      k := k + 1;
    }
    AllBlocks(f, order, userBlocks, usns);
    RestoredMeans(f, userBlocks, order);
    TypedBlocks(f, userBlocks, order);
  }

  lemma TypedBlocks(f: Flash, userBlocks: map<nat, nat>, order: seq<nat>)
    requires f.Valid() && Found(f, userBlocks, |f.pages|) && Ascending(f, userBlocks, order)
    requires forall u :: u in userBlocks ==> userBlocks[u] in order
    ensures forall b: nat :: b < |f.pages| && (b in order || Typed(f, b, 0x10)) ==>
      Typed(f, b, 0x10) && f.Usn(b) in userBlocks && userBlocks[f.Usn(b)] in order && b <= userBlocks[f.Usn(b)]
  {
  }

  /** The blocks taken so far are those of the first k numbers, all newer than the numbers to come. */
  ghost predicate Later(f: Flash, order: seq<nat>, userBlocks: map<nat, nat>, usns: seq<nat>, k: nat)
    requires f.Valid()
  {
    && k <= |usns| && Blocks(f, order)
    && (forall i :: 0 <= i < k ==> usns[i] in userBlocks && userBlocks[usns[i]] in order)
    && (forall i, j :: 0 <= i < |order| && k <= j < |usns| ==> f.User(order[i]) && f.Usn(order[i]) > usns[j])
  }

  lemma NoBlocks(f: Flash, userBlocks: map<nat, nat>, usns: seq<nat>)
    requires f.Valid()
    ensures Ascending(f, userBlocks, []) && Later(f, [], userBlocks, usns, 0)
  {
  }

  lemma NextBlock(f: Flash, order: seq<nat>, userBlocks: map<nat, nat>, usns: seq<nat>, k: nat)
    requires f.Valid() && Found(f, userBlocks, |f.pages|) && k < |usns|
    requires Ascending(f, userBlocks, order) && Later(f, order, userBlocks, usns, k)
    requires forall u :: u in userBlocks.Keys <==> u in usns
    requires forall i, j :: 0 <= i < j < |usns| ==> usns[i] > usns[j]
    ensures usns[k] in userBlocks && userBlocks[usns[k]] < |f.pages|
    ensures var next := [userBlocks[usns[k]]] + order;
      Ascending(f, userBlocks, next) && Later(f, next, userBlocks, usns, k + 1)
  {
    hide Ascending, Later;
    assert usns[k] in usns;
    var b := userBlocks[usns[k]];
    assert f.User(b) && f.Usn(b) == usns[k];
    NextAscending(f, order, userBlocks, usns, k, b);
    NextLater(f, order, userBlocks, usns, k, b);
  }

  lemma NextAscending(f: Flash, order: seq<nat>, userBlocks: map<nat, nat>, usns: seq<nat>, k: nat, b: nat)
    requires f.Valid() && k < |usns| && Ascending(f, userBlocks, order) && Later(f, order, userBlocks, usns, k)
    requires b < |f.pages| && f.User(b) && f.Usn(b) == usns[k] && usns[k] in userBlocks && userBlocks[usns[k]] == b
    ensures Ascending(f, userBlocks, [b] + order)
  {
    var next := [b] + order;
    forall i | 0 <= i < |next|
      ensures next[i] < |f.pages| && f.User(next[i]) && f.Usn(next[i]) in userBlocks
        && userBlocks[f.Usn(next[i])] == next[i]
    {
      if i > 0 {
        assert next[i] == order[i - 1];
      }
    }
    forall i, j | 0 <= i < j < |next|
      ensures f.Usn(next[i]) < f.Usn(next[j])
    {
      assert next[j] == order[j - 1];
      if i > 0 {
        assert next[i] == order[i - 1];
      }
    }
  }

  lemma NextLater(f: Flash, order: seq<nat>, userBlocks: map<nat, nat>, usns: seq<nat>, k: nat, b: nat)
    requires f.Valid() && k < |usns| && Later(f, order, userBlocks, usns, k)
    requires forall i, j :: 0 <= i < j < |usns| ==> usns[i] > usns[j]
    requires b < |f.pages| && f.User(b) && f.Usn(b) == usns[k] && usns[k] in userBlocks && userBlocks[usns[k]] == b
    ensures Later(f, [b] + order, userBlocks, usns, k + 1)
  {
    var next := [b] + order;
    assert b == next[0];
    assert forall x :: x in order ==> x in next;
    forall i | 0 <= i < |next|
      ensures next[i] < |f.pages| && f.User(next[i]) && forall j :: k + 1 <= j < |usns| ==> f.Usn(next[i]) > usns[j]
    {
      if i > 0 {
        assert next[i] == order[i - 1];
      }
    }
  }

  lemma AllBlocks(f: Flash, order: seq<nat>, userBlocks: map<nat, nat>, usns: seq<nat>)
    requires f.Valid() && Later(f, order, userBlocks, usns, |usns|) && forall u :: u in userBlocks.Keys <==> u in usns
    ensures forall u :: u in userBlocks ==> userBlocks[u] in order
  {
  }

  lemma NoWrites(f: Flash)
    requires f.Valid()
    ensures Writes(f, []) == [] && Latest([]) == map[]
  {
  }

  lemma OlderBlock(f: Flash, b: nat, order: seq<nat>)
    requires f.Valid() && b < |f.pages| && Blocks(f, order)
    ensures Blocks(f, [b] + order) && Writes(f, [b] + order) == BlockWrites(f, b, 0) + Writes(f, order)
  {
    assert ([b] + order)[1..] == order;
  }

  // What the map says.

  /** The last write of a logical page. */
  function Last(w: seq<Write>, lpn: nat): Option<nat>
  {
    if w == [] then None else if w[|w| - 1].lpn == lpn then Some(w[|w| - 1].vpn) else Last(w[..|w| - 1], lpn)
  }

  lemma {:induction false} LatestIsLast(w: seq<Write>, lpn: nat)
    ensures lpn in Latest(w) <==> Last(w, lpn).Some?
    ensures lpn in Latest(w) ==> Latest(w)[lpn] == Last(w, lpn).value
  {
    if w != [] {
      LatestIsLast(w[..|w| - 1], lpn);
    }
  }

  lemma {:induction false} LastCat(a: seq<Write>, b: seq<Write>, lpn: nat)
    ensures Last(a + b, lpn) == if Last(b, lpn).Some? then Last(b, lpn) else Last(a, lpn)
  {
    if b == [] {
      assert a + b == a;
    } else {
      LastCat(a, b[..|b| - 1], lpn);
      assert (a + b)[..|a + b| - 1] == a + b[..|b| - 1];
    }
  }

  /** The last page from i on of a block that holds a logical page; the number of user pages when none does. */
  function LastPage(f: Flash, b: nat, i: nat, lpn: nat): (p: nat)
    requires f.Valid() && b < |f.pages| && i <= f.userPages
    ensures i <= p <= f.userPages
    ensures p < f.userPages ==> Entry(f, b, p) == Some(lpn)
    ensures forall q :: (if p < f.userPages then p < q else i <= q) && q < f.userPages ==> Entry(f, b, q) != Some(lpn)
    decreases f.userPages - i
  {
    if i == f.userPages then i else
    var p := LastPage(f, b, i + 1, lpn);
    if p < f.userPages then p else if Entry(f, b, i) == Some(lpn) then i else p
  }

  lemma {:induction false} BlockLast(f: Flash, b: nat, i: nat, lpn: nat)
    requires f.Valid() && b < |f.pages| && i <= f.userPages
    ensures var p := LastPage(f, b, i, lpn);
      Last(BlockWrites(f, b, i), lpn) == if p < f.userPages then Some(Vpn(f, b, p)) else None
    decreases f.userPages - i
  {
    hide Entry;
    if i < f.userPages {
      BlockLast(f, b, i + 1, lpn);
      if Entry(f, b, i).Some? {
        var e := Write(Entry(f, b, i).value, Vpn(f, b, i));
        LastCat([e], BlockWrites(f, b, i + 1), lpn);
        assert [e][..0] == [];
      }
    }
  }

  /** The place of the newest block that holds a logical page; the number of blocks when none does. */
  function NewestBlock(f: Flash, order: seq<nat>, lpn: nat): (k: nat)
    requires f.Valid() && Blocks(f, order)
    ensures k <= |order|
    ensures k < |order| ==> LastPage(f, order[k], 0, lpn) < f.userPages
    ensures forall j :: 0 <= j < |order| && (k < |order| ==> k < j) ==> LastPage(f, order[j], 0, lpn) == f.userPages
  {
    if order == [] then 0 else
    var rest := order[1..];
    assert forall j :: 1 <= j < |order| ==> order[j] == rest[j - 1];
    var k := NewestBlock(f, rest, lpn);
    if k < |rest| then k + 1 else if LastPage(f, order[0], 0, lpn) < f.userPages then 0 else |order|
  }

  /** Each logical page maps to the page with the highest sequence number and, in its block, the highest place. */
  lemma MapsToNewest(f: Flash, order: seq<nat>, lpn: nat)
    requires f.Valid() && Blocks(f, order)
    ensures var m, k := Latest(Writes(f, order)), NewestBlock(f, order, lpn);
      && (lpn in m <==> k < |order|)
      && (lpn in m ==> m[lpn] == Vpn(f, order[k], LastPage(f, order[k], 0, lpn)))
  {
    hide Latest, Writes, LastPage;
    LatestIsLast(Writes(f, order), lpn);
    NewestWrite(f, order, lpn);
  }

  lemma {:induction false} NewestWrite(f: Flash, order: seq<nat>, lpn: nat)
    requires f.Valid() && Blocks(f, order)
    ensures var k := NewestBlock(f, order, lpn);
      Last(Writes(f, order), lpn) == if k < |order| then Some(Vpn(f, order[k], LastPage(f, order[k], 0, lpn))) else None
  {
    hide BlockWrites, LastPage, Last;
    if order == [] {
      LastNone(lpn);
    } else {
      NewestWrite(f, order[1..], lpn);
      BlockLast(f, order[0], 0, lpn);
      LastCat(BlockWrites(f, order[0], 0), Writes(f, order[1..]), lpn);
    }
  }

  lemma LastNone(lpn: nat)
    ensures Last([], lpn) == None
  {
  }

  // The map without writes: places are read off the virtual page number.

  /** The block of a virtual page, and the page's place in it. */
  function BlockOf(f: Flash, vpn: nat): nat
    requires f.pagesPerSublk > 0
  {
    vpn / f.pagesPerSublk
  }

  function PlaceOf(f: Flash, vpn: nat): nat
    requires f.pagesPerSublk > 0
  {
    vpn % f.pagesPerSublk
  }

  lemma VpnParts(f: Flash, b: nat, i: nat)
    requires i < f.pagesPerSublk
    ensures BlockOf(f, Vpn(f, b, i)) == b && PlaceOf(f, Vpn(f, b, i)) == i
  {
    Division(Vpn(f, b, i), b, i, f.pagesPerSublk);
  }

  /**
   Page i of block b counts as logical page lpn: by the block's table of contents, where an entry
   above the highest page number counts as 0xFFFFFFFF, or without a table by its spare area.
   */
  predicate Holds(f: Flash, b: nat, i: nat, lpn: nat)
    requires f.Valid()
  {
    && b < |f.pages| && i < f.userPages
    && match f.toc[b]
       case Some(toc) => lpn == if toc[i] > f.totalPages then 0xFFFF_FFFF else toc[i]
       case None => f.pages[b][i].Some? && f.pages[b][i].value.lpn == lpn
  }

  /** A mapped logical page is held by the page it is mapped to, in one of the blocks. */
  ghost predicate MapsHeld(f: Flash, order: seq<nat>, m: map<nat, nat>)
    requires f.Valid()
  {
    forall lpn :: lpn in m ==> BlockOf(f, m[lpn]) in order && Holds(f, BlockOf(f, m[lpn]), PlaceOf(f, m[lpn]), lpn)
  }

  /**
   Every logical page held by a page of the blocks is mapped; where it is mapped to another page,
   that one is in a block with a higher sequence number, or further on in the same block.
   */
  ghost predicate MapsLatest(f: Flash, order: seq<nat>, m: map<nat, nat>)
    requires f.Valid()
  {
    forall b: nat, i: nat, lpn: nat :: b in order && Holds(f, b, i, lpn) ==> lpn in m && Outlasts(f, b, i, m[lpn])
  }

  ghost predicate Outlasts(f: Flash, b: nat, i: nat, vpn: nat)
    requires f.Valid()
  {
    var c := BlockOf(f, vpn);
    && b < |f.pages| && c < |f.pages| && f.User(b) && f.User(c)
    && (f.Usn(b) < f.Usn(c) || (b == c && i <= PlaceOf(f, vpn)))
  }

  lemma HoldsEntry(f: Flash, b: nat, i: nat, lpn: nat)
    requires f.Valid() && b < |f.pages| && i < f.userPages
    ensures Holds(f, b, i, lpn) <==> Entry(f, b, i) == Some(lpn)
  {
  }

  /** The restored map says where each logical page was written last. */
  lemma RestoredMeans(f: Flash, userBlocks: map<nat, nat>, order: seq<nat>)
    requires f.Valid() && Ascending(f, userBlocks, order)
    ensures MapsHeld(f, order, Latest(Writes(f, order))) && MapsLatest(f, order, Latest(Writes(f, order)))
  {
    hide Latest, Writes, Entry, Holds, BlockOf, PlaceOf, Vpn, Overwritten, Outlasts;
    var m := Latest(Writes(f, order));
    forall lpn | lpn in m
      ensures BlockOf(f, m[lpn]) in order && Holds(f, BlockOf(f, m[lpn]), PlaceOf(f, m[lpn]), lpn)
    {
      var k, i := Newest(f, order, lpn);
      VpnParts(f, order[k], i);
      HoldsEntry(f, order[k], i, lpn);
    }
    forall b: nat, i: nat, lpn: nat | b in order && Holds(f, b, i, lpn)
      ensures lpn in m && Outlasts(f, b, i, m[lpn])
    {
      var n :| 0 <= n < |order| && order[n] == b;
      HoldsInside(f, b, i, lpn);
      HoldsEntry(f, b, i, lpn);
      Held(f, order, n, i, lpn);
      var k, j := Newest(f, order, lpn);
      NewestOutlasts(f, userBlocks, order, n, i, k, j, lpn);
    }
  }

  lemma HoldsInside(f: Flash, b: nat, i: nat, lpn: nat)
    requires f.Valid() && Holds(f, b, i, lpn)
    ensures b < |f.pages| && i < f.userPages
  {
  }

  lemma NewestOutlasts(f: Flash, userBlocks: map<nat, nat>, order: seq<nat>, n: nat, i: nat, k: nat, j: nat, lpn: nat)
    requires f.Valid() && Ascending(f, userBlocks, order) && n < |order| && k < |order|
    requires i < f.userPages && j < f.userPages
    requires Entry(f, order[n], i) == Some(lpn) && !Overwritten(f, order, k, j, lpn)
    ensures Outlasts(f, order[n], i, Vpn(f, order[k], j))
  {
    hide Entry, BlockOf, PlaceOf, Vpn;
    VpnParts(f, order[k], j);
  }

  // The two ways of reading a block.

  /** The device as the page scan sees it: no table of contents. */
  function Scanned(f: Flash): Flash
  {
    f.(toc := seq(|f.toc|, _ => None))
  }

  /** Each table of contents says what the spare areas say, as far as logical pages in range go. */
  ghost predicate TocMatches(f: Flash)
    requires f.Valid()
  {
    forall b, i :: 0 <= b < |f.pages| && f.toc[b].Some? && 0 <= i < f.userPages ==>
      if f.pages[b][i].Some? && f.pages[b][i].value.lpn <= f.totalPages then
        f.toc[b].value[i] == f.pages[b][i].value.lpn
      else f.toc[b].value[i] > f.totalPages
  }

  lemma {:induction false} SameLastPage(f: Flash, b: nat, i: nat, lpn: nat)
    requires f.Valid() && Scanned(f).Valid() && TocMatches(f) && b < |f.pages| && i <= f.userPages
      && lpn <= f.totalPages
    ensures LastPage(f, b, i, lpn) == LastPage(Scanned(f), b, i, lpn)
    decreases f.userPages - i
  {
    if i < f.userPages {
      SameLastPage(f, b, i + 1, lpn);
      assert Entry(f, b, i) == Some(lpn) <==> Entry(Scanned(f), b, i) == Some(lpn);
    }
  }

  lemma {:induction false} SameNewest(f: Flash, order: seq<nat>, lpn: nat)
    requires f.Valid() && Scanned(f).Valid() && TocMatches(f) && Blocks(f, order) && lpn <= f.totalPages
    ensures Blocks(Scanned(f), order) && NewestBlock(f, order, lpn) == NewestBlock(Scanned(f), order, lpn)
  {
    hide LastPage;
    if order != [] {
      SameNewest(f, order[1..], lpn);
      SameLastPage(f, order[0], 0, lpn);
    }
  }

  /** Both ways build the same map on all logical pages in range. */
  lemma TocAgrees(f: Flash, order: seq<nat>, lpn: nat)
    requires f.Valid() && TocMatches(f) && Blocks(f, order) && lpn <= f.totalPages
    ensures Scanned(f).Valid() && Blocks(Scanned(f), order)
    ensures var m, s := Latest(Writes(f, order)), Latest(Writes(Scanned(f), order));
      && (lpn in m <==> lpn in s)
      && (lpn in m ==> m[lpn] == s[lpn])
  {
    hide Latest, Writes, LastPage, NewestBlock, TocMatches;
    assert Scanned(f).Valid();
    SameNewest(f, order, lpn);
    MapsToNewest(f, order, lpn);
    MapsToNewest(Scanned(f), order, lpn);
    var k := NewestBlock(f, order, lpn);
    if k < |order| {
      SameLastPage(f, order[k], 0, lpn);
    }
  }

  // Outside that range: the invalid page number.

  /** What the restore takes page i of a block for is the invalid page number. */
  predicate MarkedInvalid(f: Flash, b: nat, i: nat)
    requires f.Valid() && b < |f.pages| && i < f.userPages
  {
    if f.toc[b].Some? then f.toc[b].value[i] > f.totalPages
    else f.pages[b][i].Some? && f.pages[b][i].value.lpn == INVALID
  }

  /**
   The invalid page number is in the map exactly when a table of contents has an entry out of range,
   or a page read by its spare area has that number there.
   */
  lemma InvalidMapped(f: Flash, order: seq<nat>)
    requires f.Valid() && Blocks(f, order)
    ensures INVALID in Latest(Writes(f, order))
      <==> exists k: nat, i: nat :: k < |order| && i < f.userPages && MarkedInvalid(f, order[k], i)
  {
    hide Latest, Writes, LastPage, NewestBlock;
    MapsToNewest(f, order, INVALID);
    var n := NewestBlock(f, order, INVALID);
    if n < |order| {
      assert MarkedInvalid(f, order[n], LastPage(f, order[n], 0, INVALID));
    } else {
      forall k: nat, i: nat | k < |order| && i < f.userPages
        ensures !MarkedInvalid(f, order[k], i)
      {
        assert LastPage(f, order[k], 0, INVALID) == f.userPages;
        assert Entry(f, order[k], i) != Some(INVALID);
      }
    }
  }

  /** Every entry of a table of contents of the blocks is in range. */
  ghost predicate TocInRange(f: Flash, order: seq<nat>)
    requires f.Valid() && Blocks(f, order)
  {
    forall k, i :: 0 <= k < |order| && f.toc[order[k]].Some? && 0 <= i < f.userPages ==>
      f.toc[order[k]].value[i] <= f.totalPages
  }

  /** The two ways differ on a page whose table entry is out of range while its spare number is not the invalid one. */
  predicate Differs(f: Flash, b: nat, i: nat)
    requires f.Valid() && b < |f.pages| && i < f.userPages
  {
    && f.toc[b].Some? && f.toc[b].value[i] > f.totalPages
    && !(f.pages[b][i].Some? && f.pages[b][i].value.lpn == INVALID)
  }

  /** A later page of the order holds the logical page, too. */
  ghost predicate Overwritten(f: Flash, order: seq<nat>, k: nat, i: nat, lpn: nat)
    requires f.Valid() && Blocks(f, order)
  {
    exists m: nat, j: nat ::
      m < |order| && j < f.userPages && (m > k || (m == k && j > i)) && Entry(f, order[m], j) == Some(lpn)
  }

  /**
   Every page the two ways differ on is overwritten later: for the table path under the invalid
   number, and for the page scan under the number in its spare area.
   */
  ghost predicate AllHidden(f: Flash, order: seq<nat>)
    requires f.Valid() && Scanned(f).Valid() && Blocks(f, order) && Blocks(Scanned(f), order)
  {
    forall k: nat, i: nat :: k < |order| && i < f.userPages && Differs(f, order[k], i) ==>
      && Overwritten(f, order, k, i, INVALID)
      && (f.pages[order[k]][i].Some? ==> Overwritten(Scanned(f), order, k, i, f.pages[order[k]][i].value.lpn))
  }

  /**
   With tables that match, both ways build the same map if and only if every page they differ on is
   overwritten later in both.
   */
  lemma TocSameMap(f: Flash, order: seq<nat>)
    requires f.Valid() && TocMatches(f) && Blocks(f, order)
    ensures Scanned(f).Valid() && Blocks(Scanned(f), order)
    ensures Latest(Writes(f, order)) == Latest(Writes(Scanned(f), order)) <==> AllHidden(f, order)
  {
    assert Scanned(f).Valid();
    hide Latest, Writes, TocMatches, LastPage, NewestBlock, Differs, Overwritten;
    var m, s := Latest(Writes(f, order)), Latest(Writes(Scanned(f), order));
    if AllHidden(f, order) {
      forall lpn: nat
        ensures lpn in m <==> lpn in s
        ensures lpn in m ==> m[lpn] == s[lpn]
      {
        SameNumber(f, order, lpn);
      }
    } else {
      var k: nat, i: nat :| k < |order| && i < f.userPages && Differs(f, order[k], i)
        && !(&& Overwritten(f, order, k, i, INVALID)
             && (f.pages[order[k]][i].Some? ==> Overwritten(Scanned(f), order, k, i, f.pages[order[k]][i].value.lpn)));
      Shown(f, order, k, i);
    }
  }

  /** The place of a logical page in a map is that of a page that is not overwritten. */
  lemma Newest(f: Flash, order: seq<nat>, lpn: nat) returns (k: nat, i: nat)
    requires f.Valid() && Blocks(f, order) && lpn in Latest(Writes(f, order))
    ensures k < |order| && i < f.userPages && Entry(f, order[k], i) == Some(lpn)
    ensures Latest(Writes(f, order))[lpn] == Vpn(f, order[k], i) && !Overwritten(f, order, k, i, lpn)
  {
    hide Latest, Writes, Entry;
    MapsToNewest(f, order, lpn);
    k := NewestBlock(f, order, lpn);
    i := LastPage(f, order[k], 0, lpn);
    forall m: nat, j: nat | m < |order| && j < f.userPages && (m > k || (m == k && j > i))
      ensures Entry(f, order[m], j) != Some(lpn)
    {
      if m > k {
        assert LastPage(f, order[m], 0, lpn) == f.userPages;
      }
    }
  }

  /** A page that is not overwritten is the place of its logical page. */
  lemma NotOverwritten(f: Flash, order: seq<nat>, k: nat, i: nat, lpn: nat)
    requires f.Valid() && Blocks(f, order) && k < |order| && i < f.userPages
    requires Entry(f, order[k], i) == Some(lpn) && !Overwritten(f, order, k, i, lpn)
    ensures lpn in Latest(Writes(f, order)) && Latest(Writes(f, order))[lpn] == Vpn(f, order[k], i)
  {
    hide Latest, Writes, Entry;
    Held(f, order, k, i, lpn);
    var n, j := Newest(f, order, lpn);
    assert n == k && j == i;
  }

  lemma Held(f: Flash, order: seq<nat>, k: nat, i: nat, lpn: nat)
    requires f.Valid() && Blocks(f, order) && k < |order| && i < f.userPages && Entry(f, order[k], i) == Some(lpn)
    ensures lpn in Latest(Writes(f, order))
  {
    hide Latest, Writes, Entry;
    MapsToNewest(f, order, lpn);
    assert LastPage(f, order[k], 0, lpn) < f.userPages;
  }

  /** Where the two ways do not differ on a page they take it for the same, with matching tables. */
  lemma SameEntry(f: Flash, b: nat, i: nat)
    requires f.Valid() && Scanned(f).Valid() && TocMatches(f) && b < |f.pages| && i < f.userPages
    ensures Entry(f, b, i) == Entry(Scanned(f), b, i) <==> !Differs(f, b, i)
    ensures Differs(f, b, i) ==> Entry(f, b, i) == Some(INVALID)
    ensures f.pages[b][i].Some? ==> Entry(Scanned(f), b, i) == Some(f.pages[b][i].value.lpn)
    ensures f.pages[b][i].None? ==> Entry(Scanned(f), b, i) == None
  {
  }

  /** When all differing pages are overwritten, a logical page has one place. */
  lemma SameNumber(f: Flash, order: seq<nat>, lpn: nat)
    requires f.Valid() && Scanned(f).Valid() && TocMatches(f) && Blocks(f, order) && Blocks(Scanned(f), order)
    requires AllHidden(f, order)
    ensures var m, s := Latest(Writes(f, order)), Latest(Writes(Scanned(f), order));
      (lpn in m <==> lpn in s) && (lpn in m ==> m[lpn] == s[lpn])
  {
    var g := Scanned(f);
    hide Latest, Writes, TocMatches, Entry, Differs, Overwritten;
    var m, s := Latest(Writes(f, order)), Latest(Writes(g, order));
    if lpn in m {
      var k, i := Newest(f, order, lpn);
      SameEntry(f, order[k], i);
      assert !Differs(f, order[k], i);
      Held(g, order, k, i, lpn);
    }
    if lpn in s {
      var n, j := Newest(g, order, lpn);
      SameEntry(f, order[n], j);
      assert !Differs(f, order[n], j);
      Held(f, order, n, j, lpn);
      var k, i := Newest(f, order, lpn);
      SameEntry(f, order[k], i);
      assert !Differs(f, order[k], i);
      OnePlace(f, order, k, i, n, j, lpn);
    }
  }

  /** Of two pages holding a logical page in both ways, neither overwritten, there is only one. */
  lemma OnePlace(f: Flash, order: seq<nat>, k: nat, i: nat, n: nat, j: nat, lpn: nat)
    requires f.Valid() && Scanned(f).Valid() && Blocks(f, order) && Blocks(Scanned(f), order)
    requires k < |order| && i < f.userPages && n < |order| && j < f.userPages
    requires Entry(f, order[n], j) == Some(lpn) && !Overwritten(f, order, k, i, lpn)
    requires Entry(Scanned(f), order[k], i) == Some(lpn) && !Overwritten(Scanned(f), order, n, j, lpn)
    ensures k == n && i == j
  {
    hide Entry;
  }

  /** A differing page that is not overwritten shows: one map has it where the other has another page or none. */
  lemma Shown(f: Flash, order: seq<nat>, k: nat, i: nat)
    requires f.Valid() && Scanned(f).Valid() && TocMatches(f) && Blocks(f, order) && Blocks(Scanned(f), order)
    requires k < |order| && i < f.userPages && Differs(f, order[k], i)
    requires Overwritten(f, order, k, i, INVALID) ==>
      && f.pages[order[k]][i].Some?
      && !Overwritten(Scanned(f), order, k, i, f.pages[order[k]][i].value.lpn)
    ensures Latest(Writes(f, order)) != Latest(Writes(Scanned(f), order))
  {
    var g, lpn := Scanned(f), if f.pages[order[k]][i].Some? then f.pages[order[k]][i].value.lpn else 0;
    SameEntry(f, order[k], i);
    assert lpn != INVALID;
    hide Latest, Writes, TocMatches, Entry, Differs, Overwritten;
    var m, s := Latest(Writes(f, order)), Latest(Writes(g, order));
    if !Overwritten(f, order, k, i, INVALID) {
      NotOverwritten(f, order, k, i, INVALID);
      if INVALID in s {
        var n, j := Newest(g, order, INVALID);
        if m[INVALID] == s[INVALID] {
          SameVpnPage(f, order[k], i, order[n], j);
        }
      }
    } else {
      NotOverwritten(g, order, k, i, lpn);
      if lpn in m {
        var n, j := Newest(f, order, lpn);
        if m[lpn] == s[lpn] {
          SameVpnPage(f, order[k], i, order[n], j);
        }
      }
    }
  }

  lemma SameVpnPage(f: Flash, b: nat, i: nat, c: nat, j: nat)
    requires f.Valid() && i < f.userPages && j < f.userPages && Vpn(f, b, i) == Vpn(f, c, j)
    ensures b == c && i == j
  {
    Division(Vpn(f, b, i), b, i, f.pagesPerSublk);
    Division(Vpn(f, b, i), c, j, f.pagesPerSublk);
  }

  /**
   In particular, with no spare area holding the invalid number, the maps are the same exactly when
   every table entry is in range: no page of a block with a table is unreadable or out of range.
   */
  lemma TocInRangeSame(f: Flash, order: seq<nat>)
    requires f.Valid() && TocMatches(f) && Blocks(f, order)
    requires forall k, i :: 0 <= k < |order| && 0 <= i < f.userPages && f.pages[order[k]][i].Some? ==>
               f.pages[order[k]][i].value.lpn != INVALID
    ensures Scanned(f).Valid() && Blocks(Scanned(f), order)
    ensures Latest(Writes(f, order)) == Latest(Writes(Scanned(f), order)) <==> TocInRange(f, order)
  {
    assert Scanned(f).Valid();
    hide Latest, Writes, TocMatches;
    if TocInRange(f, order) {
      SameWrites(f, order);
    } else {
      var k, i :| 0 <= k < |order| && f.toc[order[k]].Some? && 0 <= i < f.userPages
        && f.toc[order[k]].value[i] > f.totalPages;
      InvalidMapped(f, order);
      assert MarkedInvalid(f, order[k], i);
      InvalidMapped(Scanned(f), order);
    }
  }

  lemma {:induction false} SameWrites(f: Flash, order: seq<nat>)
    requires f.Valid() && Scanned(f).Valid() && TocMatches(f) && Blocks(f, order) && TocInRange(f, order)
    ensures Writes(f, order) == Writes(Scanned(f), order)
  {
    if order != [] {
      var b, rest := order[0], order[1..];
      assert forall k :: 0 <= k < |rest| ==> rest[k] == order[k + 1];
      SameWrites(f, rest);
      forall i | 0 <= i < f.userPages
        ensures Entry(f, b, i) == Entry(Scanned(f), b, i)
      {
        if f.toc[b].Some? {
          assert f.toc[order[0]].value[i] <= f.totalPages;
        }
      }
      SameBlockWrites(f, b, 0);
    }
  }

  lemma {:induction false} SameBlockWrites(f: Flash, b: nat, i: nat)
    requires f.Valid() && Scanned(f).Valid() && b < |f.pages| && i <= f.userPages
    requires forall j :: 0 <= j < f.userPages ==> Entry(f, b, j) == Entry(Scanned(f), b, j)
    ensures BlockWrites(f, b, i) == BlockWrites(Scanned(f), b, i)
    decreases f.userPages - i
  {
    hide Entry;
    if i < f.userPages {
      SameBlockWrites(f, b, i + 1);
    }
  }

  /** One user block with a table of contents, whose second page cannot be read. */
  function OneBlock(): Flash
  {
    Flash([[Some(Spare(0, 1, PAGETYPE_LBN)), None]], [Some([0, INVALID])], 2, 2, 10)
  }

  lemma OneBlockValid()
    ensures OneBlock().Valid() && OneBlock().User(0) && TocMatches(OneBlock()) && Scanned(OneBlock()).Valid()
    ensures Blocks(OneBlock(), [0]) && Blocks(Scanned(OneBlock()), [0])
    ensures OneBlock().toc[0].Some? && Scanned(OneBlock()).toc[0].None?
  {
  }

  /** Its table matches, yet the table path maps the invalid page number and the page scan does not. */
  lemma InvalidExample()
    ensures OneBlock().Valid() && OneBlock().User(0) && TocMatches(OneBlock()) && Scanned(OneBlock()).Valid()
    ensures Blocks(OneBlock(), [0]) && Blocks(Scanned(OneBlock()), [0])
    ensures Latest(Writes(OneBlock(), [0])) == map[0 := 0, INVALID := 1]
    ensures Latest(Writes(Scanned(OneBlock()), [0])) == map[0 := 0]
  {
    OneBlockValid();
    OneBlockWrites(OneBlock());
    OneBlockWrites(Scanned(OneBlock()));
    hide Writes, Latest, TocMatches, OneBlock, Scanned;
    LatestOfTwo(Write(0, 0), Write(INVALID, 1));
  }

  lemma LatestOfTwo(x: Write, y: Write)
    requires x.lpn != y.lpn
    ensures Latest([x]) == map[x.lpn := x.vpn] && Latest([x, y]) == map[x.lpn := x.vpn, y.lpn := y.vpn]
  {
    assert [x, y][..1] == [x] && [x][..0] == [];
  }

  lemma OneBlockWrites(f: Flash)
    requires f == OneBlock() || f == Scanned(OneBlock())
    requires f.Valid()
    ensures Writes(f, [0]) == if f.toc[0].Some? then [Write(0, 0), Write(INVALID, 1)] else [Write(0, 0)]
  {
    assert BlockWrites(f, 0, 2) == [];
    assert BlockWrites(f, 0, 1) == if f.toc[0].Some? then [Write(INVALID, 1)] else [];
    assert [0][1..] == [];
    assert Writes(f, [0]) == BlockWrites(f, 0, 0) + Writes(f, []);
  }

  /** How many pages of a block can be read before the first that cannot. */
  function Readable(f: Flash, b: nat, n: nat): (r: nat)
    requires f.Valid() && b < |f.pages| && n <= f.userPages && forall p :: 0 <= p < n ==> f.pages[b][p].Some?
    ensures n <= r <= f.userPages && (forall p :: 0 <= p < r ==> f.pages[b][p].Some?)
      && (r < f.userPages ==> f.pages[b][r].None?)
    decreases f.userPages - n
  {
    if n < f.userPages && f.pages[b][n].Some? then Readable(f, b, n + 1) else n
  }

  /** The map of one block by its spare areas, up to the first page that cannot be read. */
  method BlockLpnToVpn(f: Flash, block: nat) returns (res: map<nat, nat>)
    requires f.Valid() && block < |f.pages|
    ensures res == Latest(Upto(f, block, Readable(f, block, 0)))
    ensures forall lpn :: lpn in res ==>
      && BlockOf(f, res[lpn]) == block && PlaceOf(f, res[lpn]) < Readable(f, block, 0)
      && f.pages[block][PlaceOf(f, res[lpn])].value.lpn == lpn
    ensures forall i :: 0 <= i < Readable(f, block, 0) ==>
      && f.pages[block][i].value.lpn in res && i <= PlaceOf(f, res[f.pages[block][i].value.lpn])
  {
    hide Latest, BlockOf, PlaceOf, Vpn, Upto;
    var n := 0;
    res := map[];
    NothingUpto(f, block);
    while n < f.userPages
      invariant 0 <= n <= f.userPages
      invariant forall p :: 0 <= p < n ==> f.pages[block][p].Some?
      invariant Readable(f, block, n) == Readable(f, block, 0)
      invariant res == Latest(Upto(f, block, n))
    {
      var s := f.pages[block][n];
      if s.None? {
        break;
      }
      NextLatest(Upto(f, block, n), Write(s.value.lpn, Vpn(f, block, n)));
      UptoNext(f, block, n);
      res := res[s.value.lpn := Vpn(f, block, n)];
      n := n + 1;
    }
    UptoMeans(f, block, n);
  }

  lemma UptoNext(f: Flash, b: nat, n: nat)
    requires f.Valid() && b < |f.pages| && n < f.userPages && forall p :: 0 <= p <= n ==> f.pages[b][p].Some?
    ensures Upto(f, b, n + 1) == Upto(f, b, n) + [Write(f.pages[b][n].value.lpn, Vpn(f, b, n))]
  {
  }

  /** Each logical page of the first n pages of a block is mapped to the last of them that holds it. */
  lemma {:induction false} UptoMeans(f: Flash, b: nat, n: nat)
    requires f.Valid() && b < |f.pages| && n <= f.userPages && forall p :: 0 <= p < n ==> f.pages[b][p].Some?
    ensures var m := Latest(Upto(f, b, n));
      && (forall lpn :: lpn in m ==>
            BlockOf(f, m[lpn]) == b && PlaceOf(f, m[lpn]) < n && f.pages[b][PlaceOf(f, m[lpn])].value.lpn == lpn)
      && (forall i :: 0 <= i < n ==>
            f.pages[b][i].value.lpn in m && i <= PlaceOf(f, m[f.pages[b][i].value.lpn]))
  {
    hide Latest, BlockOf, PlaceOf, Vpn, Upto;
    if n == 0 {
      NothingUpto(f, b);
    } else {
      UptoMeans(f, b, n - 1);
      UptoNext(f, b, n - 1);
      NextLatest(Upto(f, b, n - 1), Write(f.pages[b][n - 1].value.lpn, Vpn(f, b, n - 1)));
      VpnParts(f, b, n - 1);
    }
  }

  lemma NothingUpto(f: Flash, b: nat)
    requires f.Valid() && b < |f.pages|
    ensures Latest(Upto(f, b, 0)) == map[]
  {
  }

  lemma NextLatest(w: seq<Write>, e: Write)
    ensures Latest(w + [e]) == Latest(w)[e.lpn := e.vpn]
  {
    assert (w + [e])[..|w|] == w;
  }

  /** For a block whose pages can all be read this is what the page scan of the restore adds. */
  lemma WholeBlock(f: Flash, b: nat)
    requires f.Valid() && b < |f.pages| && Readable(f, b, 0) == f.userPages
    ensures Scanned(f).Valid() && Upto(f, b, Readable(f, b, 0)) == BlockWrites(Scanned(f), b, 0)
  {
    AllPages(f, b, 0);
  }

  function Upto(f: Flash, b: nat, n: nat): seq<Write>
    requires f.Valid() && b < |f.pages| && n <= f.userPages && forall p :: 0 <= p < n ==> f.pages[b][p].Some?
  {
    if n == 0 then [] else Upto(f, b, n - 1) + [Write(f.pages[b][n - 1].value.lpn, Vpn(f, b, n - 1))]
  }

  lemma SameVpn(f: Flash, b: nat, i: nat)
    ensures Vpn(Scanned(f), b, i) == Vpn(f, b, i)
  {
  }

  lemma {:induction false} AllPages(f: Flash, b: nat, i: nat)
    requires f.Valid() && Scanned(f).Valid() && b < |f.pages| && i <= f.userPages
    requires forall p :: 0 <= p < f.userPages ==> f.pages[b][p].Some?
    ensures Upto(f, b, f.userPages) == Upto(f, b, i) + BlockWrites(Scanned(f), b, i)
    decreases f.userPages - i
  {
    SameVpn(f, b, i);
    hide Vpn;
    if i < f.userPages {
      AllPages(f, b, i + 1);
      var e := Write(f.pages[b][i].value.lpn, Vpn(f, b, i));
      assert Upto(f, b, i) + [e] + BlockWrites(Scanned(f), b, i + 1)
        == Upto(f, b, i) + ([e] + BlockWrites(Scanned(f), b, i + 1));
    }
  }

  /** The lookup without a restored map: index pages read on demand and kept. */
  class Index {
    const entriesPerPage: nat
    const tocArray: seq<nat>             // the index page of each range of logical pages
    const stored: map<nat, seq<nat>>     // the index pages that can be read
    var cache: map<nat, seq<nat>>

    ghost predicate Valid()
      reads this
    {
      && entriesPerPage > 0
      && (forall p :: p in stored ==> |stored[p]| == entriesPerPage)
      && (forall p :: p in cache ==> p in stored && cache[p] == stored[p])
    }

    /** What the index pages say, read afresh. */
    function Says(lpn: nat): nat
      requires entriesPerPage > 0 && lpn / entriesPerPage < |tocArray|
      requires forall p :: p in stored ==> |stored[p]| == entriesPerPage
    {
      var page := tocArray[lpn / entriesPerPage];
      if page == INVALID || page !in stored then INVALID else stored[page][lpn % entriesPerPage]
    }

    method Translate(lpn: nat) returns (vpn: nat)
      requires Valid() && lpn / entriesPerPage < |tocArray|
      modifies this`cache
      ensures Valid() && vpn == Says(lpn)
      ensures var page := tocArray[lpn / entriesPerPage];
        && (page != 0xFFFF_FFFF && page in stored ==> vpn == stored[page][lpn % entriesPerPage])
        && (page == 0xFFFF_FFFF || page !in stored ==> vpn == 0xFFFF_FFFF)
      ensures forall p :: p in old(cache) ==> p in cache
    {
      var indexPage := tocArray[lpn / entriesPerPage];
      if indexPage == INVALID {
        return INVALID;
      }
      var buffer;
      if indexPage in cache {
        buffer := cache[indexPage];
      } else {
        if indexPage !in stored {
          return INVALID;
        }
        buffer := stored[indexPage];
        cache := cache[indexPage := buffer];
      }
      return buffer[lpn % entriesPerPage];
    }
  }
}
