/**
 Three ways of reading a B-tree that know nothing of its list of levels: walking down from
 the root, following the sibling links of the leaves, and collecting reachable node numbers.
 In a well-formed tree they give the leaf records, the leaf level and the marked nodes.

 `TreeReader` is the read-only reader of the Python tools over the same nodes.
 */
module TreeViews {
  import opened Bitmap
  import opened BTree
  import opened NodeLists
  import opened Options
  import opened SortedRecords
  import opened TreeShape

  /** A well-formed, nonempty tree as a value. */
  ghost predicate TreeOk(g: Geometry, nodes: seq<Node>, levels: seq<seq<nat>>, root: nat)
  {
    && LevelsOk(g, nodes, levels) && levels != [] && levels[|levels| - 1] == [root]
    && Agree(nodes, levels, |levels| - 1)
    && Sorted(Recs(nodes, levels[0]))
  }

  /** The child node number of a pointer record. */
  function ChildOf(r: Rec): nat
  {
    if r.data.Child? then r.data.node else 0
  }

  /** The leaf records below node n of height h + 1, found by walking down. */
  ghost function Walk(nodes: seq<Node>, n: nat, h: nat): seq<Rec>
    decreases h, 1, 0
  {
    if n >= |nodes| then [] else if h == 0 then nodes[n].recs else WalkAll(nodes, nodes[n].recs, h - 1)
  }

  ghost function WalkAll(nodes: seq<Node>, s: seq<Rec>, h: nat): seq<Rec>
    decreases h, 2, |s|
  {
    if s == [] then [] else Walk(nodes, ChildOf(s[0]), h) + WalkAll(nodes, s[1..], h)
  }

  lemma {:induction false} WalkCat(nodes: seq<Node>, a: seq<Rec>, b: seq<Rec>, h: nat)
    ensures WalkAll(nodes, a + b, h) == WalkAll(nodes, a, h) + WalkAll(nodes, b, h)
    decreases |a|
  {
    if a == [] {
      assert a + b == b;
    } else {
      WalkCat(nodes, a[1..], b, h);
      assert (a + b)[1..] == a[1..] + b && (a + b)[0] == a[0];
    }
  }

  /** Walking down from all nodes of a level is walking down from all records on it. */
  lemma {:induction false} WalkLevel(nodes: seq<Node>, L: seq<nat>, h: nat)
    requires InRange(nodes, L)
    ensures WalkAll(nodes, Summary(nodes, L), h) == if h == 0 then Recs(nodes, L)
      else WalkAll(nodes, Recs(nodes, L), h - 1)
    decreases |L|
  {
    if L != [] {
      var s, T := Summary(nodes, L), L[1..];
      assert s[1..] == Summary(nodes, T);
      WalkLevel(nodes, T, h);
      if h > 0 {
        WalkCat(nodes, nodes[L[0]].recs, Recs(nodes, T), h - 1);
      }
    }
  }

  lemma {:induction false} WalkDown(g: Geometry, nodes: seq<Node>, levels: seq<seq<nat>>, h: nat)
    requires LevelsOk(g, nodes, levels) && h < |levels| && Agree(nodes, levels, h)
    ensures WalkAll(nodes, Summary(nodes, levels[h]), h) == Recs(nodes, levels[0])
  {
    assert LevelOk(g, nodes, levels[h], h);
    LevelNonempty(g, nodes, levels[h], h);
    WalkLevel(nodes, levels[h], h);
    if h > 0 {
      assert Recs(nodes, levels[h]) == Summary(nodes, levels[h - 1]);
      WalkDown(g, nodes, levels, h - 1);
    }
  }

  /** Walking down from the root visits the leaf records from left to right. */
  lemma WalkIsContents(g: Geometry, nodes: seq<Node>, levels: seq<seq<nat>>, root: nat)
    requires TreeOk(g, nodes, levels, root)
    ensures Walk(nodes, root, |levels| - 1) == Recs(nodes, levels[0])
  {
    var h := |levels| - 1;
    WalkDown(g, nodes, levels, h);
    var s := Summary(nodes, levels[h]);
    assert s[1..] == [] && ChildOf(s[0]) == root;
    assert WalkAll(nodes, s[1..], h) == [];
  }

  /** The node numbers met by following forward links from node n, at most k of them. */
  ghost function Chain(nodes: seq<Node>, n: nat, k: nat): seq<nat>
    decreases k
  {
    if n == 0 || n >= |nodes| || k == 0 then [] else [n] + Chain(nodes, nodes[n].fLink, k - 1)
  }

  lemma {:induction false} ChainFrom(g: Geometry, nodes: seq<Node>, L: seq<nat>, h: nat, p: nat, k: nat)
    requires LevelOk(g, nodes, L, h) && p <= |L| && k >= |L| - p
    ensures Chain(nodes, if p < |L| then L[p] else 0, k) == L[p..]
    decreases |L| - p
  {
    if p < |L| {
      LinkAt(g, nodes, L, h, p);
      ChainFrom(g, nodes, L, h, p + 1, k - 1);
      assert L[p..] == [L[p]] + L[p + 1..];
    }
  }

  /** Following the leaves' forward links from the first leaf meets exactly the leaves, in order. */
  lemma ChainIsLeaves(g: Geometry, nodes: seq<Node>, levels: seq<seq<nat>>, k: nat)
    requires LevelsOk(g, nodes, levels) && levels != [] && k >= |levels[0]|
    ensures Chain(nodes, FirstOf(levels[0]), k) == levels[0]
  {
    assert LevelOk(g, nodes, levels[0], 0);
    ChainFrom(g, nodes, levels[0], 0, 0, k);
    assert levels[0][0..] == levels[0];
  }

  /** The node numbers reachable from the children of a record sequence, h levels further down. */
  ghost function Below(nodes: seq<Node>, s: seq<Rec>, h: nat): set<nat>
    decreases h, |s|
  {
    if s == [] then {} else
      {ChildOf(s[0])} + Below(nodes, s[1..], h)
      + if h == 0 || ChildOf(s[0]) >= |nodes| then {} else Below(nodes, nodes[ChildOf(s[0])].recs, h - 1)
  }

  lemma {:induction false} BelowCat(nodes: seq<Node>, a: seq<Rec>, b: seq<Rec>, h: nat)
    ensures Below(nodes, a + b, h) == Below(nodes, a, h) + Below(nodes, b, h)
    decreases |a|
  {
    if a == [] {
      assert a + b == b;
    } else {
      BelowCat(nodes, a[1..], b, h);
      assert (a + b)[1..] == a[1..] + b && (a + b)[0] == a[0];
    }
  }

  lemma {:induction false} BelowLevel(nodes: seq<Node>, L: seq<nat>, h: nat)
    requires InRange(nodes, L)
    ensures Below(nodes, Summary(nodes, L), h) == Elements(L) + if h == 0 then {}
      else Below(nodes, Recs(nodes, L), h - 1)
    decreases |L|
  {
    if L != [] {
      var s, T := Summary(nodes, L), L[1..];
      assert s[1..] == Summary(nodes, T);
      BelowLevel(nodes, T, h);
      if h > 0 {
        BelowCat(nodes, nodes[L[0]].recs, Recs(nodes, T), h - 1);
      }
    }
  }

  ghost function Elements(L: seq<nat>): set<nat>
  {
    if L == [] then {} else {L[0]} + Elements(L[1..])
  }

  lemma {:induction false} InElements(L: seq<nat>, n: nat)
    ensures n in Elements(L) <==> n in L
  {
    if L != [] {
      InElements(L[1..], n);
    }
  }

  lemma {:induction false} BelowDown(g: Geometry, nodes: seq<Node>, levels: seq<seq<nat>>, h: nat)
    requires LevelsOk(g, nodes, levels) && h < |levels| && Agree(nodes, levels, h)
    ensures {0} + Below(nodes, Summary(nodes, levels[h]), h) == Used(levels[..h + 1])
  {
    hide Used, Below, NodeOk;
    assert LevelOk(g, nodes, levels[h], h);
    LevelNonempty(g, nodes, levels[h], h);
    BelowLevel(nodes, levels[h], h);
    if h > 0 {
      assert Recs(nodes, levels[h]) == Summary(nodes, levels[h - 1]);
      BelowDown(g, nodes, levels, h - 1);
      UsedStep(levels, h);
    } else {
      UsedStep(levels, 0);
    }
  }

  lemma UsedStep(levels: seq<seq<nat>>, h: nat)
    requires h < |levels|
    ensures Used(levels[..h + 1]) == (if h == 0 then {0} else Used(levels[..h])) + Elements(levels[h])
  {
    var a, b := levels[..h], levels[..h + 1];
    forall n
      ensures n in Used(b) <==> n in Used(a) || n in Elements(levels[h])
    {
      InElements(levels[h], n);
      if n != 0 && n in Used(b) {
        var f, q :| 0 <= f < |b| && 0 <= q < |b[f]| && b[f][q] == n;
        assert f < h ==> a[f][q] == n;
      }
      if n != 0 && n in Used(a) {
        var f, q :| 0 <= f < |a| && 0 <= q < |a[f]| && a[f][q] == n;
        assert b[f][q] == n;
      }
      if n in levels[h] {
        var q :| 0 <= q < |levels[h]| && levels[h][q] == n;
        assert b[h][q] == n;
      }
    }
    if h == 0 {
      assert Used(a) == {0};
    }
  }

  /** The header map record marks the header node and exactly the nodes reachable from the root. */
  lemma MarkedIsReachable(g: Geometry, nodes: seq<Node>, levels: seq<seq<nat>>, root: nat, bits: seq<bv8>, free: nat,
                          n: nat)
    requires TreeOk(g, nodes, levels, root) && MapOk(bits, |nodes|, free, Used(levels)) && n < 8 * |bits|
    ensures Bit(bits, n) <==> n == 0 || n in Below(nodes, [Rec(FirstKey(nodes, root), Child(root))], |levels| - 1)
  {
    var h := |levels| - 1;
    BelowDown(g, nodes, levels, h);
    assert levels[..h + 1] == levels;
    assert Summary(nodes, [root]) == [Rec(FirstKey(nodes, root), Child(root))];
  }

  /** The longest prefix of s whose keys all pass the filter. */
  function TakeWhile(s: seq<Rec>, keep: int -> bool): seq<Rec>
  {
    if s == [] || !keep(s[0].key) then [] else [s[0]] + TakeWhile(s[1..], keep)
  }

  /** The records whose keys lie in [low, high). */
  function InKeyRange(s: seq<Rec>, low: int, high: int): seq<Rec>
  {
    if s == [] then [] else (if low <= s[0].key < high then [s[0]] else []) + InKeyRange(s[1..], low, high)
  }

  lemma {:induction false} NoneFrom(s: seq<Rec>, low: int, high: int)
    requires Sorted(s) && (s != [] ==> high <= s[0].key)
    ensures InKeyRange(s, low, high) == []
  {
    if s != [] {
      assert s[1..] != [] ==> s[0].key < s[1].key;
      NoneFrom(s[1..], low, high);
    }
  }

  /** Collecting from the first key not below low while keys stay below high finds exactly the range. */
  lemma {:induction false} RangeIsTaken(s: seq<Rec>, low: int, high: int, keep: int -> bool)
    requires Sorted(s) && forall k :: keep(k) <==> low <= k < high
    ensures TakeWhile(s[Rank(s, low)..], keep) == InKeyRange(s, low, high)
  {
    if s != [] {
      var t := s[1..];
      assert Sorted(t);
      RangeIsTaken(t, low, high, keep);
      if s[0].key < low {
        assert s[Rank(s, low)..] == t[Rank(t, low)..];
      } else {
        assert s[0..] == s;
        if s[0].key < high {
          assert t != [] ==> s[0].key < t[0].key;
          RankIs(t, low, 0);
          assert t[0..] == t;
        } else {
          NoneFrom(s, low, high);
        }
      }
    }
  }

  class TreeReader {
    const rootNode: nat
    const firstLeafNode: nat
    const nodes: seq<Node>
    var lastnodeNumber: nat
    var lastRecordNumber: nat

    constructor (rootNode: nat, firstLeafNode: nat, nodes: seq<Node>)
      ensures this.rootNode == rootNode && this.firstLeafNode == firstLeafNode && this.nodes == nodes
    {
      this.rootNode, this.firstLeafNode, this.nodes := rootNode, firstLeafNode, nodes;
      lastnodeNumber, lastRecordNumber := 0, 0;
    }

    /** Finds a key's data from node p of level h down, and remembers the leaf position of the key. */
    method Search(key: int, node: nat, g: Geometry, ghost levels: seq<seq<nat>>, ghost h: nat, ghost p: nat)
      returns (r: Option<Payload>, ghost q: nat)
      requires LevelsOk(g, nodes, levels) && At(levels, h, p, node) && Agree(nodes, levels, h)
      requires Sorted(Recs(nodes, levels[0])) && Route(nodes, levels[h], p, key)
      modifies this
      ensures r == Find(Recs(nodes, levels[0]), key)
      ensures At(levels, 0, q, lastnodeNumber) && lastnodeNumber < |nodes|
        && lastRecordNumber <= |nodes[lastnodeNumber].recs|
      ensures |Recs(nodes, levels[0][..q])| + lastRecordNumber == Rank(Recs(nodes, levels[0]), key)
      decreases h
    {
      hide LevelsOk, Recs, Sorted, Agree, Summary, Route, Rank;
      NodeAt(g, nodes, levels, h, p);
      lastnodeNumber := node;
      var stuff := nodes[node].recs;
      if nodes[node].kind == Index {
        var i := 0;
        while i < |stuff| && !(key < stuff[i].key)
          invariant 0 <= i <= |stuff|
          invariant forall j :: 0 <= j < i ==> stuff[j].key <= key
        {
          i := i + 1;
        }
        FirstChild(g, nodes, levels, h, p, key, i);
        if i > 0 {
          i := i - 1;
        }
        AgreeLess(nodes, levels, h);
        ghost var f := Descend(g, nodes, levels, h, p, key, i);
        r, q := Search(key, stuff[i].data.node, g, levels, h - 1, f);
      } else {
        q := p;
        lastRecordNumber := 0;
        while lastRecordNumber < |stuff|
          invariant 0 <= lastRecordNumber <= |stuff| && lastnodeNumber == node
          invariant forall j :: 0 <= j < lastRecordNumber ==> stuff[j].key < key
        {
          if stuff[lastRecordNumber].key == key {
            FoundHere(g, nodes, levels, p, key, lastRecordNumber);
            return Some(stuff[lastRecordNumber].data), q;
          }
          if key < stuff[lastRecordNumber].key {
            break;
          }
          lastRecordNumber := lastRecordNumber + 1;
        }
        AbsentHere(g, nodes, levels, p, key, lastRecordNumber);
        r := None;
      }
    }

    /** The records from the key's position on, across leaf boundaries, while the filter accepts them. */
    method SearchMultiple(key: int, keep: int -> bool, g: Geometry, ghost levels: seq<seq<nat>>) returns (kv: seq<Rec>)
      requires TreeOk(g, nodes, levels, rootNode)
      modifies this
      ensures kv == TakeWhile(Recs(nodes, levels[0])[Rank(Recs(nodes, levels[0]), key)..], keep)
    {
      hide LevelsOk, Recs, Sorted, Agree, Summary, Route, Rank, TakeWhile;
      RootRoute(nodes, rootNode, key);
      ghost var L := levels[0];
      var r, q := Search(key, rootNode, g, levels, |levels| - 1, 0);
      var nodeNumber, recordNumber := lastnodeNumber, lastRecordNumber;
      kv := [];
      LeafRest(g, nodes, levels, q, recordNumber, Rank(Recs(nodes, L), key));
      ghost var rest := nodes[nodeNumber].recs[recordNumber..] + Recs(nodes, L[q + 1..]);
      ghost var whole := TakeWhile(rest, keep);
      assert rest == Recs(nodes, L)[Rank(Recs(nodes, L), key)..];
      assert kv + TakeWhile(rest, keep) == whole;
      while nodeNumber != 0
        invariant q <= |L| && nodeNumber == (if q < |L| then L[q] else 0)
        invariant q < |L| ==> 0 < nodeNumber < |nodes| && recordNumber <= |nodes[nodeNumber].recs|
        invariant rest == if q < |L| then nodes[nodeNumber].recs[recordNumber..] + Recs(nodes, L[q + 1..]) else []
        invariant kv + TakeWhile(rest, keep) == whole
        decreases |L| - q
      {
        var stopped;
        kv, stopped := TakeNode(nodes[nodeNumber].recs, recordNumber, keep, kv, Recs(nodes, L[q + 1..]));
        if stopped {
          return;
        }
        NextLeaf(g, nodes, levels, q);
        rest := nodes[nodeNumber].recs[|nodes[nodeNumber].recs|..] + Recs(nodes, L[q + 1..]);
        nodeNumber := nodes[nodeNumber].fLink;
        recordNumber := 0;
        q := q + 1;
      }
      TakeNil(keep, kv);
    }

    /** Appends the records of one leaf from a position on, stopping at the first one the filter rejects. */
    static method TakeNode(stuff: seq<Rec>, first: nat, keep: int -> bool, before: seq<Rec>, ghost more: seq<Rec>)
      returns (kv: seq<Rec>, stopped: bool)
      requires first <= |stuff|
      ensures stopped ==> kv == before + TakeWhile(stuff[first..] + more, keep)
      ensures !stopped ==>
        kv + TakeWhile(stuff[|stuff|..] + more, keep) == before + TakeWhile(stuff[first..] + more, keep)
    {
      hide TakeWhile;
      kv := before;
      var recordNumber := first;
      while recordNumber < |stuff|
        invariant recordNumber <= |stuff|
        invariant kv + TakeWhile(stuff[recordNumber..] + more, keep) == before + TakeWhile(stuff[first..] + more, keep)
      {
        var rec := stuff[recordNumber];
        TakeStep(stuff[recordNumber..] + more, rec, stuff[recordNumber + 1..] + more, keep, kv);
        if keep(rec.key) {
          kv := kv + [rec];
        } else {
          return kv, true;
        }
        recordNumber := recordNumber + 1;
      }
      return kv, false;
    }
  }

  lemma TakeNil(keep: int -> bool, kv: seq<Rec>)
    ensures TakeWhile([], keep) == [] && kv + [] == kv
  {
  }

  lemma TakeStep(rest: seq<Rec>, r: Rec, more: seq<Rec>, keep: int -> bool, kv: seq<Rec>)
    requires rest != [] && rest[0] == r && rest[1..] == more
    ensures TakeWhile(rest, keep) == if keep(r.key) then [r] + TakeWhile(more, keep) else []
    ensures kv + ([r] + TakeWhile(more, keep)) == kv + [r] + TakeWhile(more, keep)
    ensures kv + [] == kv
  {
  }

  lemma FirstChild(g: Geometry, nodes: seq<Node>, levels: seq<seq<nat>>, h: nat, p: nat, k: int, i: nat)
    requires LevelsOk(g, nodes, levels) && h < |levels| && p < |levels[h]| && Agree(nodes, levels, h)
    requires Sorted(Recs(nodes, levels[0])) && Route(nodes, levels[h], p, k) && levels[h][p] < |nodes|
    requires nodes[levels[h][p]].recs != [] && i <= |nodes[levels[h][p]].recs|
    requires forall j :: 0 <= j < i ==> nodes[levels[h][p]].recs[j].key <= k
    requires i < |nodes[levels[h][p]].recs| ==> k < nodes[levels[h][p]].recs[i].key
    ensures var recs, c := nodes[levels[h][p]].recs, if i == 0 then 0 else i - 1;
      && c < |recs| && ((c == 0 && p == 0) || recs[c].key <= k)
      && (c + 1 < |recs| ==> k < recs[c + 1].key)
  {
    SortedUp(g, nodes, levels, h);
    Between(nodes, levels[h], p, k);
  }

  lemma AbsentHere(g: Geometry, nodes: seq<Node>, levels: seq<seq<nat>>, p: nat, k: int, i: nat)
    requires LevelsOk(g, nodes, levels) && levels != [] && p < |levels[0]| && Sorted(Recs(nodes, levels[0]))
    requires Route(nodes, levels[0], p, k) && levels[0][p] < |nodes| && Scanned(nodes[levels[0][p]].recs, k, i)
    ensures Find(Recs(nodes, levels[0]), k) == None
    ensures |Recs(nodes, levels[0][..p])| + i == Rank(Recs(nodes, levels[0]), k)
  {
    LeavesNonempty(g, nodes, levels);
    Between(nodes, levels[0], p, k);
    var A, m, B := Recs(nodes, levels[0][..p]), nodes[levels[0][p]].recs, Recs(nodes, levels[0][p + 1..]);
    ScanRank(m, k, i);
    RankMiddle(A, m, B, k);
    AbsentMiddle(A, m, B, k);
    FindHas(A + m + B, k);
  }

  lemma LeafRest(g: Geometry, nodes: seq<Node>, levels: seq<seq<nat>>, q: nat, i: nat, start: nat)
    requires LevelsOk(g, nodes, levels) && levels != [] && q < |levels[0]| && levels[0][q] < |nodes|
    requires i <= |nodes[levels[0][q]].recs| && start == |Recs(nodes, levels[0][..q])| + i
    ensures start <= |Recs(nodes, levels[0])|
    ensures Recs(nodes, levels[0])[start..] == nodes[levels[0][q]].recs[i..] + Recs(nodes, levels[0][q + 1..])
    ensures levels[0][q] != 0
  {
    LeavesNonempty(g, nodes, levels);
    RecsAt(nodes, levels[0], q);
    CutMiddle(Recs(nodes, levels[0][..q]), nodes[levels[0][q]].recs, Recs(nodes, levels[0][q + 1..]), i);
    assert LevelOk(g, nodes, levels[0], 0);
  }

  lemma NextLeaf(g: Geometry, nodes: seq<Node>, levels: seq<seq<nat>>, q: nat)
    requires LevelsOk(g, nodes, levels) && levels != [] && q < |levels[0]| && levels[0][q] < |nodes|
    ensures nodes[levels[0][q]].fLink == if q + 1 < |levels[0]| then levels[0][q + 1] else 0
    ensures q + 1 < |levels[0]| ==> 0 < levels[0][q + 1] < |nodes|
    ensures var rest := nodes[levels[0][q]].recs[|nodes[levels[0][q]].recs|..] + Recs(nodes, levels[0][q + 1..]);
      rest == if q + 1 < |levels[0]| then nodes[levels[0][q + 1]].recs[0..] + Recs(nodes, levels[0][q + 2..]) else []
  {
    var L := levels[0];
    assert LevelOk(g, nodes, L, 0);
    LinkAt(g, nodes, L, 0, q);
    if q + 1 < |L| {
      assert L[q + 1..][0] == L[q + 1] && L[q + 1..][1..] == L[q + 2..];
      assert nodes[L[q + 1]].recs[0..] == nodes[L[q + 1]].recs;
    }
  }
}
