/**
 The B-tree of an HFS+ volume as it is changed in place: node allocation from the header
 map record, node splits, record insertion with height growth, recursive removal, and search.

 The ghost field `levels` lists the node numbers of every level, leaves first.
 */
module BTree {
  import opened Bitmap
  import opened NodeLists
  import opened Options
  import opened SortedRecords
  import opened TreeShape

  /** Each level above the leaves records the first key and number of every node below it. */
  ghost predicate Agree(nodes: seq<Node>, levels: seq<seq<nat>>, h: nat)
  {
    forall g :: 1 <= g <= h && g < |levels| ==> Recs(nodes, levels[g]) == Summary(nodes, levels[g - 1])
  }

  ghost function FirstOf(L: seq<nat>): nat { if L == [] then 0 else L[0] }

  ghost function LastOf(L: seq<nat>): nat { if L == [] then 0 else L[|L| - 1] }

  /** Levels, sibling links, free-node map and the ends of the leaf chain fit together. */
  ghost predicate ShapeOk(g: Geometry, nodes: seq<Node>, levels: seq<seq<nat>>, bits: seq<bv8>, free: nat, first: nat,
                          last: nat)
  {
    && LevelsOk(g, nodes, levels)
    && MapOk(bits, |nodes|, free, Used(levels))
    && (levels != [] ==> first == FirstOf(levels[0]) && last == LastOf(levels[0]))
  }

  /** The nodes of all levels but h are the same in both node arrays. */
  ghost predicate SameElsewhere(a: seq<Node>, b: seq<Node>, levels: seq<seq<nat>>, h: nat)
  {
    forall g, j :: 0 <= g < |levels| && g != h && 0 <= j < |levels[g]| ==>
      levels[g][j] < |a| && levels[g][j] < |b| && b[levels[g][j]] == a[levels[g][j]]
  }

  /** How many nodes growing the file can still add while one header map record covers it. */
  ghost function Growth(mapBits: nat, total: nat, clump: nat): nat
    requires clump > 0
    decreases mapBits - total
  {
    if total + clump < mapBits then clump + Growth(mapBits, total + clump, clump) else 0
  }

  class BTree {
    const geo: Geometry
    const clump: nat   // nodes gained each time the file grows
    var treeDepth: nat
    var rootNode: nat
    var leafRecords: nat
    var firstLeafNode: nat
    var lastLeafNode: nat
    var totalNodes: nat
    var freeNodes: nat
    var bits: seq<bv8>      // the header map record
    var nodes: seq<Node>
    ghost var levels: seq<seq<nat>>

    ghost predicate Shape()
      reads this
    {
      && geo.Valid() && clump > 0 && |bits| == geo.nodeSize - 256 && |nodes| == totalNodes
      && ShapeOk(geo, nodes, levels, bits, freeNodes, firstLeafNode, lastLeafNode)
    }

    /** How many nodes can still be allocated before the header map record is exhausted. */
    ghost function Slots(): nat
      requires clump > 0
      reads this`freeNodes, this`bits, this`totalNodes
    {
      freeNodes + Growth(8 * |bits|, totalNodes, clump)
    }

    /**
     The code finds node n at n * nodeSize, a product of 32-bit numbers: it is exact for every node
     when nodes have at most 16 KB.
     */
    lemma PositionsFit()
      requires Shape() && geo.nodeSize <= 0x4000
      ensures forall n: nat {:trigger nodes[n]} :: n < totalNodes ==> n * geo.nodeSize + geo.nodeSize <= 0x1_0000_0000
    {
      forall n: nat | n < totalNodes
        ensures n * geo.nodeSize + geo.nodeSize <= 0x1_0000_0000
      {
        PositionFits(n, geo.nodeSize);
      }
    }

    /** Takes the first clear bit of the header map record. */
    method FindFree() returns (n: nat)
      requires 0 < totalNodes <= 8 * |bits| && freeNodes == ClearCount(bits, totalNodes) && freeNodes > 0
      modifies this`bits, this`freeNodes
      ensures n < totalNodes && !Bit(old(bits), n) && forall m: nat :: m < n ==> Bit(old(bits), m)
      ensures bits == SetBit(old(bits), n) && freeNodes == old(freeNodes) - 1
    {
      n := 0;
      ClearExists(bits, totalNodes);
      var byteNumber := 0;
      while byteNumber < |bits|
        invariant bits == old(bits) && freeNodes == old(freeNodes)
        invariant 0 <= byteNumber <= |bits|
        invariant forall m: nat :: m < 8 * byteNumber ==> Bit(bits, m)
      {
        var byte := bits[byteNumber];
        var i := 0;
        while byte != 0xFF && i < 8
          invariant bits == old(bits) && freeNodes == old(freeNodes)
          invariant 0 <= i <= 8
          invariant forall j: nat :: j < i ==> Test(byte, j)
        {
          if !Test(byte, i) {
            n := byteNumber * 8 + i;
            LowestClear(bits, byteNumber, i);
            freeNodes := freeNodes - 1;
            bits := bits[byteNumber := On(byte, i)];
            return;
          }
          i := i + 1;
        }
        FullByte(byte);
        ByteDone(bits, byteNumber);
        byteNumber := byteNumber + 1;
      }
    }

    /** Appends a clump of clear nodes to the file. */
    method GrowBTree()
      requires Shape() && freeNodes == 0 && totalNodes + clump < 8 * |bits|
      modifies this`totalNodes, this`freeNodes, this`nodes
      ensures Shape() && freeNodes > 0 && Slots() == old(Slots())
      ensures |old(nodes)| <= |nodes| && nodes[..|old(nodes)|] == old(nodes)
    {
      hide Used, LevelsOk;
      ghost var before, total := nodes, totalNodes;
      nodes := nodes + seq(clump, _ => Node(Unused, 0, 0, 0, []));
      totalNodes := totalNodes + clump;
      freeNodes := freeNodes + clump;
      assert nodes[..|before|] == before;
      GrownLevels(geo, before, nodes, levels);
      GrownMap(bits, total, clump, Used(levels));
    }

    /** A fresh node number, growing the file when no node is free. */
    method GetNewNode() returns (n: nat)
      requires Shape() && Slots() > 0
      modifies this`totalNodes, this`freeNodes, this`nodes, this`bits
      ensures |bits| == |old(bits)| && |nodes| == totalNodes && |old(nodes)| <= |nodes|
        && nodes[..|old(nodes)|] == old(nodes)
      ensures LevelsOk(geo, nodes, levels)
      ensures 0 < n < totalNodes && n !in Used(levels)
      ensures MapOk(bits, totalNodes, freeNodes, Used(levels) + {n})
      ensures Slots() == old(Slots()) - 1
    {
      if freeNodes == 0 {
        GrowBTree();
      }
      ghost var before := bits;
      n := FindFree();
      UpdateCount(before, n, totalNodes);
      forall m: nat | m < 8 * |bits|
        ensures Bit(bits, m) <==> m in Used(levels) + {n}
      {
        UpdateBit(before, n, m);
      }
      assert Bit(before, 0);
    }

    /** Moves the upper half of a node's records to a new right neighbour on the same level. */
    method SplitNode(node: nat, ghost h: nat, ghost p: nat) returns (x: nat)
      requires Shape() && Slots() > 0 && At(levels, h, p, node) && |nodes[node].recs| >= 2
      modifies this`totalNodes, this`freeNodes, this`nodes, this`bits, this`lastLeafNode, this`levels
      ensures Shape() && Slots() == old(Slots()) - 1
      ensures 0 < x < |nodes| && x !in Used(old(levels)) && levels == old(levels)[h := Insert(old(levels)[h], p + 1, x)]
      ensures node < |nodes| && nodes[node].recs == old(nodes)[node].recs[..|old(nodes)[node].recs| / 2]
      ensures nodes[x].recs == old(nodes)[node].recs[|old(nodes)[node].recs| / 2..]
      ensures SameElsewhere(old(nodes), nodes, old(levels), h)
      ensures SameRecsBut(old(nodes), nodes, old(levels)[h], p)
    {
      ghost var before, oldLevels := nodes, levels;
      hide Used, MapOk, LevelsOk;
      LinkedNode(geo, before, before, levels, h, p);
      var half := |nodes[node].recs| / 2;
      x := GetNewNode();
      ghost var grown := nodes;
      LinkedNode(geo, before, grown, levels, h, p);
      var d := nodes[node];
      WriteSplit(node, x, d, half);
      if d.kind == Leaf && node == lastLeafNode {
        lastLeafNode := x;
      }
      levels := levels[h := Insert(levels[h], p + 1, x)];
      SplitShapeOk(geo, before, grown, nodes, oldLevels, h, p, x, d.recs[..half], d.recs[half..],
                   bits, freeNodes, firstLeafNode, old(lastLeafNode));
    }

    /** Inserts a record into a node that has room for it; false, and no change, if its key is there already. */
    method DoAddRecord(node: nat, r: Rec, ghost h: nat, ghost p: nat) returns (added: bool)
      requires Shape() && At(levels, h, p, node) && node < |nodes|
      requires geo.Free(nodes[node].kind, |nodes[node].recs| + 1) >= 0 && (r.data.Value? <==> h == 0)
      modifies this`nodes, this`leafRecords
      ensures Shape()
      ensures added <==> Find(old(nodes)[node].recs, r.key).None?
      ensures added ==> nodes == old(nodes)[node := old(nodes)[node].(recs := Ins(old(nodes)[node].recs, r))]
      ensures added ==> leafRecords == old(leafRecords) + (if h == 0 then 1 else 0)
      ensures !added ==> nodes == old(nodes) && leafRecords == old(leafRecords)
      ensures SameElsewhere(old(nodes), nodes, levels, h) && SameRecsBut(old(nodes), nodes, levels[h], p)
    {
      hide Used, MapOk;
      NodeAt(geo, nodes, levels, h, p);
      var d := nodes[node];
      var i := 0;
      while i < |d.recs|
        invariant 0 <= i <= |d.recs|
        invariant forall j :: 0 <= j < i ==> d.recs[j].key < r.key
        invariant nodes == old(nodes) && leafRecords == old(leafRecords)
      {
        if d.recs[i].key == r.key {
          RankIs(d.recs, r.key, i);
          SameSelf(geo, nodes, levels, h, p);
          return false;
        } else if d.recs[i].key > r.key {
          break;
        }
        i := i + 1;
      }
      RankIs(d.recs, r.key, i);
      RewriteShapeOk(geo, nodes, levels, h, p, Ins(d.recs, r), bits, freeNodes, firstLeafNode, lastLeafNode) by {
        InsOk(geo, d, h, r);
      }
      nodes := nodes[node := d.(recs := d.recs[..i] + [r] + d.recs[i..])];
      if d.height == 1 {
        leafRecords := leafRecords + 1;
      }
      return true;
    }

    /** Adds a record to a node, splitting the node first when the record does not fit. */
    method Place(node: nat, i: nat, r: Rec, ghost h: nat, ghost p: nat) returns (x: nat)
      requires Shape() && Slots() > 0 && At(levels, h, p, node) && node < |nodes| && (r.data.Value? <==> h == 0)
      requires Find(nodes[node].recs, r.key).None?
      requires i == Rank(nodes[node].recs, r.key) || (i == 0 && Rank(nodes[node].recs, r.key) == 1)
      modifies this`totalNodes, this`freeNodes, this`nodes, this`bits, this`lastLeafNode, this`levels, this`leafRecords
      ensures Shape() && Slots() >= old(Slots()) - 1
      ensures leafRecords == old(leafRecords) + (if h == 0 then 1 else 0)
      ensures levels == old(levels)[h := Grown(old(levels)[h], p, x)] && node < |nodes| && nodes[node].recs != []
      ensures x == 0 ==> nodes[node].recs == Ins(old(nodes)[node].recs, r)
      ensures x != 0 ==> x < |nodes| && x !in Used(old(levels)) && nodes[x].recs != []
      ensures x != 0 ==> nodes[node].recs + nodes[x].recs == Ins(old(nodes)[node].recs, r)
      ensures SameElsewhere(old(nodes), nodes, old(levels), h) && SameRecsBut(old(nodes), nodes, old(levels)[h], p)
    {
      hide Used, MapOk, LevelsOk, SameElsewhere, SameRecsBut, Rank;
      NodeAt(geo, nodes, levels, h, p);
      ghost var recs := nodes[node].recs;
      var d := nodes[node];
      var freeSpace := geo.Free(d.kind, |d.recs|);
      geo.FreeShrinks(d.kind, |d.recs|, |d.recs|);
      if freeSpace < geo.RecSize(d.kind) + 2 {
        TwoRecords(geo, d.kind, |d.recs|);
        x := SplitNode(node, h, p);
        ghost var split, grown := nodes, levels;
        HalfFits(geo, d.kind, |d.recs|);
        HalvesIns(recs, |recs| / 2, r, i);
        SplitEntries(old(levels)[h], p, x);
        ghost var added;
        if i < |nodes[node].recs| {
          NodeAt(geo, nodes, levels, h, p);
          added := DoAddRecord(node, r, h, p);
          SameThenNode(old(nodes), split, nodes, old(levels), h, p, x);
        } else {
          NodeAt(geo, nodes, levels, h, p + 1);
          added := DoAddRecord(x, r, h, p + 1);
          SameThenNew(old(nodes), split, nodes, old(levels), h, p, x);
        }
      } else {
        var added := DoAddRecord(node, r, h, p);
        x := 0;
      }
    }

    /** A well-formed nonempty tree, except that index levels need not agree with the levels below. */
    ghost predicate Core()
      reads this
    {
      Shape() && levels != [] && Sorted(Recs(nodes, levels[0])) && leafRecords == |Recs(nodes, levels[0])|
    }

    /** The leaf case of insertion. */
    method AddToLeaf(node: nat, i: nat, key: int, data: seq<bv8>, ghost p: nat) returns (x: nat)
      requires Core() && At(levels, 0, p, node) && Route(nodes, levels[0], p, key) && Slots() > 0 && node < |nodes|
      requires Find(nodes[node].recs, key).None? && i == Rank(nodes[node].recs, key)
      modifies this`totalNodes, this`freeNodes, this`nodes, this`bits, this`lastLeafNode, this`levels, this`leafRecords
      ensures Core() && Slots() >= old(Slots()) - 1 && |levels| == |old(levels)|
      ensures !Has(Recs(old(nodes), old(levels)[0]), key)
      ensures Added(old(nodes), nodes, old(levels), levels, 0, p, x, Rec(key, Value(data)))
    {
      hide Used, MapOk, LevelsOk, SameElsewhere, SameRecsBut, Rank, Ins, Sorted, Recs, Added, Route;
      SortedUp(geo, nodes, levels, 0);
      NodeAt(geo, nodes, levels, 0, p);
      ghost var before, oldLevels := nodes, levels;
      var r := Rec(key, Value(data));
      x := Place(node, i, r, 0, p);
      LeafAdded(geo, before, nodes, oldLevels, levels, p, x, r);
    }

    /** The index case of insertion: key goes below the last record not above it, or below the first. */
    method AddBelow(node: nat, i: nat, key: int, data: seq<bv8>, ghost h: nat, ghost p: nat) returns (x: nat)
      requires Core() && h > 0 && At(levels, h, p, node) && Agree(nodes, levels, h) && node < |nodes|
      requires Route(nodes, levels[h], p, key) && Slots() > h
      requires Scanned(nodes[node].recs, key, i) && nodes[node].recs != []
      modifies this`totalNodes, this`freeNodes, this`nodes, this`bits, this`lastLeafNode, this`levels, this`leafRecords
      ensures Core() && Slots() >= old(Slots()) - h - 1 && |levels| == |old(levels)| && Agree(nodes, levels, h)
      ensures Has(Recs(old(nodes), old(levels)[0]), key) ==> x == 0 && Unchanged()
      ensures !Has(Recs(old(nodes), old(levels)[0]), key) ==>
        Added(old(nodes), nodes, old(levels), levels, h, p, x, Rec(key, Value(data)))
      decreases h, 0
    {
      hide Used, MapOk, LevelsOk, SameElsewhere, SameRecsBut, Rank, Ins, Sorted, Recs, Added, Route, Agree, Summary,
           SameAbove;
      ghost var before, la := nodes, levels;
      NodeAt(geo, nodes, levels, h, p);
      var c := if i == 0 then 0 else i - 1;
      ScanRoute(geo, before, la, h, p, key, i);
      ghost var f := Descend(geo, before, la, h, p, key, c);
      var d := nodes[node];
      var child := d.recs[c].data.node;
      if i == 0 {
        SmallerThanAll(geo, before, la, h, key);
        nodes := nodes[node := d.(recs := d.recs[0 := Rec(key, Child(child))])];
      }
      ghost var first := nodes;
      Lowered(geo, before, first, la, h, p, key, i, f, bits, freeNodes, firstLeafNode, lastLeafNode);
      ghost var free := Slots();
      assert Core();
      x := AddRecord(child, key, data, h - 1, f);
      if x == 0 {
        if Has(Recs(before, la[0]), key) {
        } else {
          BelowKept(geo, before, first, nodes, la, levels, h, p, f, Rec(key, Value(data)));
        }
      } else {
        ghost var second, lb, y := nodes, levels, x;
        BelowFits(geo, before, first, second, la, lb, h, p, f, i, y, Rec(key, Value(data)));
        var r := Rec(nodes[x].recs[0].key, Child(x));
        x := Place(node, i, r, h, p);
        BelowAdded(geo, before, first, second, nodes, la, lb, levels, h, p, f, y, x, Rec(key, Value(data)), r);
      }
    }

    twostate predicate Unchanged()
      reads this
    {
      && nodes == old(nodes) && levels == old(levels) && bits == old(bits) && leafRecords == old(leafRecords)
      && totalNodes == old(totalNodes) && freeNodes == old(freeNodes) && lastLeafNode == old(lastLeafNode)
    }

    method AddRecord(node: nat, key: int, data: seq<bv8>, ghost h: nat, ghost p: nat) returns (x: nat)
      requires Core() && At(levels, h, p, node) && Agree(nodes, levels, h)
      requires Route(nodes, levels[h], p, key) && Slots() > h
      modifies this`totalNodes, this`freeNodes, this`nodes, this`bits, this`lastLeafNode, this`levels, this`leafRecords
      ensures Core() && Slots() >= old(Slots()) - h - 1 && |levels| == |old(levels)| && Agree(nodes, levels, h)
      ensures Has(Recs(old(nodes), old(levels)[0]), key) ==> x == 0 && Unchanged()
      ensures !Has(Recs(old(nodes), old(levels)[0]), key) ==>
        Added(old(nodes), nodes, old(levels), levels, h, p, x, Rec(key, Value(data)))
      decreases h, 1
    {
      hide Used, MapOk, LevelsOk, SameElsewhere, SameRecsBut, Rank, Ins, Sorted, Recs, Added, Route, Summary, SameAbove;
      NodeAt(geo, nodes, levels, h, p);
      var d := nodes[node];
      var i := 0;
      while i < |d.recs|
        invariant 0 <= i <= |d.recs|
        invariant forall j :: 0 <= j < i ==> d.recs[j].key < key
        invariant Unchanged() && Core()
      {
        if d.recs[i].key == key {
          IndexKeyPresent(geo, nodes, levels, h, p, i);
          return 0;
        } else if d.recs[i].key > key {
          break;
        }
        i := i + 1;
      }
      if d.kind == Leaf {
        ScanRank(d.recs, key, i);
        x := AddToLeaf(node, i, key, data, p);
      } else {
        x := AddBelow(node, i, key, data, h, p);
      }
    }

    /** The tree is well-formed; an empty tree has no root and no levels. */
    ghost predicate Valid()
      reads this
    {
      if rootNode == 0 then
        Shape() && levels == [] && firstLeafNode == 0 && lastLeafNode == 0 && leafRecords == 0
      else
        Core() && treeDepth == |levels| && levels[treeDepth - 1] == [rootNode] && Agree(nodes, levels, treeDepth - 1)
    }

    /** The leaf records from left to right. */
    ghost function Contents(): seq<Rec>
      reads this
    {
      if levels == [] then [] else Recs(nodes, levels[0])
    }

    /** Puts a new root above the old root and its new right neighbour. */
    method IncreaseHeight(newNode: nat)
      requires Core() && treeDepth == |levels| && levels[treeDepth - 1] == [rootNode, newNode]
      requires Agree(nodes, levels, treeDepth - 1) && Slots() > 0
      modifies this`totalNodes, this`freeNodes, this`nodes, this`bits, this`levels, this`rootNode, this`treeDepth
      ensures Valid() && rootNode != 0 && Contents() == old(Contents()) && treeDepth == old(treeDepth) + 1
    {
      hide Used, MapOk, LevelsOk, Recs, Sorted, Agree, Summary;
      ghost var before, la, top := nodes, levels, treeDepth - 1;
      NodeAt(geo, nodes, levels, top, 0);
      NodeAt(geo, nodes, levels, top, 1);
      var oldRoot := rootNode;
      var oldRootKey, newNodeKey := nodes[oldRoot].recs[0].key, nodes[newNode].recs[0].key;
      var newRoot := GetNewNode();
      ghost var grown := nodes;
      rootNode := newRoot;
      treeDepth := treeDepth + 1;
      nodes := nodes[newRoot := Node(Index, treeDepth, 0, 0,
                                     [Rec(oldRootKey, Child(oldRoot)), Rec(newNodeKey, Child(newNode))])];
      levels := levels + [[newRoot]];
      NewTop(geo, before, grown, nodes, la, newRoot, bits, freeNodes, firstLeafNode, lastLeafNode);
      TopAgrees(geo, before, nodes, la, newRoot, oldRoot, newNode);
    }

    /** Stores data under a key that is not in the tree; leaves the tree as it is when the key is there. */
    method AddToBTree(key: int, data: seq<bv8>)
      requires Valid() && Slots() > |levels|
      modifies this
      ensures Valid()
      ensures Has(old(Contents()), key) ==> Contents() == old(Contents())
      ensures !Has(old(Contents()), key) ==> Contents() == Ins(old(Contents()), Rec(key, Value(data)))
      ensures Map() == if key in old(Map()) then old(Map()) else old(Map())[key := Value(data)]
    {
      hide Used, MapOk, LevelsOk, Recs, Sorted, Agree, Summary, Route, Added, Ins, AsMap, Growth, Grown;
      AddAsMap(Contents(), Rec(key, Value(data)));
      if rootNode != 0 {
        RootRoute(nodes, rootNode, key);
        ghost var before, la, root := nodes, levels, rootNode;
        var newNode := AddRecord(rootNode, key, data, treeDepth - 1, 0);
        if !Has(Recs(before, la[0]), key) {
          AddedTop(before, nodes, la, levels, root, newNode, Rec(key, Value(data)));
        }
        if newNode != 0 {
          IncreaseHeight(newNode);
        }
      } else {
        FirstLeaf(key, data);
      }
    }

    method FirstLeaf(key: int, data: seq<bv8>)
      requires Shape() && levels == [] && Slots() > 0
      modifies this
      ensures Valid() && rootNode != 0 && Contents() == Ins([], Rec(key, Value(data)))
    {
      hide Used, MapOk, Growth;
      ghost var before := nodes;
      rootNode := GetNewNode();
      ghost var grown := nodes;
      firstLeafNode := rootNode;
      lastLeafNode := rootNode;
      leafRecords := 1;
      treeDepth := 1;
      nodes := nodes[rootNode := Node(Leaf, 1, 0, 0, [Rec(key, Value(data))])];
      levels := [[rootNode]];
      assert [] + [[rootNode]] == levels;
      NewTop(geo, before, grown, nodes, [], rootNode, bits, freeNodes, 0, 0);
      RecsOne(nodes, rootNode);
      assert Sorted(Contents());
    }

    /** Clears a node's map bit and takes it out of its sibling list, moving the ends of the leaf chain. */
    method RemoveNode(node: nat)
      requires node < |nodes| && node < 8 * |bits| && nodes[node].fLink < |nodes| && nodes[node].bLink < |nodes|
      modifies this`bits, this`freeNodes, this`firstLeafNode, this`lastLeafNode, this`rootNode, this`nodes
      ensures bits == ClearBit(old(bits), node) && freeNodes == old(freeNodes) + 1
      ensures firstLeafNode == if old(firstLeafNode) == node then old(nodes)[node].fLink else old(firstLeafNode)
      ensures lastLeafNode == if old(lastLeafNode) == node then old(nodes)[node].bLink else old(lastLeafNode)
      ensures rootNode == if old(rootNode) == node then 0 else old(rootNode)
      ensures nodes == Unlink(old(nodes), node)
    {
      var byte := bits[node / 8];
      byte := Off(byte, node % 8);
      freeNodes := freeNodes + 1;
      var d := nodes[node];
      if firstLeafNode == node {
        firstLeafNode := d.fLink;
      }
      if lastLeafNode == node {
        lastLeafNode := d.bLink;
      }
      if node == rootNode {
        rootNode := 0;
      }
      if d.bLink != 0 {
        nodes := nodes[d.bLink := nodes[d.bLink].(fLink := d.fLink)];
      }
      if d.fLink != 0 {
        nodes := nodes[d.fLink := nodes[d.fLink].(bLink := d.bLink)];
      }
      bits := bits[node / 8 := byte];
    }

    /** Drops a record from a node, and the node with its last record. */
    method Drop(node: nat, i: nat, ghost h: nat, ghost p: nat) returns (gone: bool)
      requires Shape() && At(levels, h, p, node) && node < |nodes| && i < |nodes[node].recs|
      modifies this`bits, this`freeNodes, this`firstLeafNode, this`lastLeafNode, this`rootNode, this`nodes, this`levels
      ensures Shape() && levels == old(levels)[h := Shrunk(old(levels)[h], p, gone)]
      ensures gone <==> |old(nodes)[node].recs| == 1
      ensures node < |nodes| && nodes[node].recs == Remove(old(nodes)[node].recs, i)
      ensures rootNode == if gone && old(rootNode) == node then 0 else old(rootNode)
      ensures SameElsewhere(old(nodes), nodes, old(levels), h) && SameRecsBut(old(nodes), nodes, old(levels)[h], p)
    {
      hide Used, MapOk;
      NodeAt(geo, nodes, levels, h, p);
      ghost var before, la := nodes, levels;
      var d := nodes[node];
      var recs := d.recs[..i] + d.recs[i + 1..];
      nodes := nodes[node := d.(recs := recs)];
      gone := recs == [];
      if gone {
        ghost var cut, map0, free0 := nodes, bits, freeNodes;
        LinkedNode(geo, before, before, la, h, p);
        InUse(geo, before, la, h, p, bits, freeNodes);
        RemoveNode(node);
        levels := levels[h := Remove(levels[h], p)];
        GoneShapeOk(geo, before, nodes, la, h, p, map0, free0, old(firstLeafNode), old(lastLeafNode));
        assert Shrunk(la[h], p, true) == levels[h];
      } else {
        RemoveOk(geo, d, h, i);
        RewriteShapeOk(geo, before, la, h, p, recs, bits, freeNodes, firstLeafNode, lastLeafNode);
        assert levels == la[h := Shrunk(la[h], p, false)];
      }
    }

    /**
     Removes a key below node p of level h. In an index node the record of a vanished child goes
     too, and the separator of a child whose first key went is rewritten.
     */
    method RemoveRecord(node: nat, key: int, ghost h: nat, ghost p: nat) returns (gone: bool)
      requires Core() && At(levels, h, p, node) && Agree(nodes, levels, h) && levels[|levels| - 1] == [rootNode]
      requires Route(nodes, levels[h], p, key) && Stops(nodes, levels[0], key)
      modifies this`bits, this`freeNodes, this`firstLeafNode, this`lastLeafNode, this`rootNode, this`nodes,
               this`levels, this`leafRecords
      ensures Core() && |levels| == |old(levels)| && Agree(nodes, levels, h)
      ensures rootNode == if gone && h == |levels| - 1 then 0 else old(rootNode)
      ensures Has(Recs(old(nodes), old(levels)[0]), key) ==>
        Removed(old(nodes), nodes, old(levels), levels, h, p, gone, key)
      ensures !Has(Recs(old(nodes), old(levels)[0]), key) ==> !gone && Unchanged()
      decreases h, 1
    {
      hide Used, MapOk, LevelsOk, SameElsewhere, SameRecsBut, Rank, Del, Sorted, Recs, Removed, Route, Summary,
           SameAbove, Stops, Agree;
      ghost var before, la := nodes, levels;
      gone := false;
      NodeAt(geo, nodes, levels, h, p);
      var d := nodes[node];
      var i, child, changed := 0, 0, false;
      while i < |d.recs|
        invariant 0 <= i <= |d.recs| && child == 0 && !changed
        invariant forall j :: 0 <= j < i ==> d.recs[j].key < key
        invariant Unchanged() && Core()
      {
        if d.recs[i].key == key {
          if d.kind == Leaf {
            gone := Drop(node, i, 0, p);
            RootOrNot(geo, before, la, h, p, old(rootNode));
            LeafRemoved(geo, before, nodes, la, levels, p, gone, key, i);
            AgreeAtLeaves(nodes, levels);
            leafRecords := leafRecords - 1;
            return;
          }
          child := d.recs[i].data.node;
          changed := true;
          break;
        } else if d.recs[i].key > key {
          if i == 0 || d.kind == Leaf {
            NotFound(geo, nodes, levels, h, p, key, i);
            return;
          }
          child := d.recs[i - 1].data.node;
          break;
        }
        i := i + 1;
      }
      IsIndex(geo, nodes, levels, h, p, key, i);
      ghost var c := if changed then i else i - 1;
      if changed {
        KeysAfter(geo, nodes, levels, h, p, key, c);
      }
      ghost var f := Descend(geo, nodes, levels, h, p, key, c);
      if i == |d.recs| {
        i := |d.recs| - 1;
        child := d.recs[i].data.node;
      }
      gone := RemoveBelow(node, i, child, changed, key, h, p, f, c);
    }

    /** Removes a key below a child and then brings the child's record up to date. */
    method RemoveBelow(node: nat, i: nat, child: nat, changed: bool, key: int, ghost h: nat, ghost p: nat, ghost f: nat,
                       ghost c: nat) returns (gone: bool)
      requires Core() && h > 0 && At(levels, h, p, node) && Agree(nodes, levels, h)
        && levels[|levels| - 1] == [rootNode]
      requires Stops(nodes, levels[0], key) && At(levels, h - 1, f, child) && Route(nodes, levels[h - 1], f, key)
      requires node < |nodes| && c < |nodes[node].recs| && i < |nodes[node].recs|
        && f == |Recs(nodes, levels[h][..p])| + c
      requires nodes[node].recs[c] == Rec(FirstKey(nodes, child), Child(child)) && nodes[node].recs[c].key <= key
      requires changed == (nodes[node].recs[c].key == key) && (changed ==> i == c)
      modifies this`bits, this`freeNodes, this`firstLeafNode, this`lastLeafNode, this`rootNode, this`nodes,
               this`levels, this`leafRecords
      ensures Core() && |levels| == |old(levels)| && Agree(nodes, levels, h)
      ensures rootNode == if gone && h == |levels| - 1 then 0 else old(rootNode)
      ensures Has(Recs(old(nodes), old(levels)[0]), key) ==>
        Removed(old(nodes), nodes, old(levels), levels, h, p, gone, key)
      ensures !Has(Recs(old(nodes), old(levels)[0]), key) ==> !gone && Unchanged()
      decreases h, 0
    {
      hide Used, MapOk, LevelsOk, SameElsewhere, SameRecsBut, Rank, Del, Sorted, Recs, Removed, Route, Summary,
           SameAbove, Stops, Agree;
      ghost var before, la := nodes, levels;
      NodeAt(geo, nodes, levels, h, p);
      if changed {
        IndexKeyPresent(geo, nodes, levels, h, p, c);
      }
      AgreeLess(nodes, levels, h);
      RootOrNot(geo, nodes, levels, h, p, rootNode);
      var childGone := RemoveRecord(child, key, h - 1, f);
      ghost var second, lb := nodes, levels;
      gone := false;
      if Has(Recs(before, la[0]), key) {
        ChildRemoved(geo, before, second, la, lb, h, p, f, c, childGone, key);
      }
      if childGone {
        gone := Drop(node, i, h, p);
        BelowDropped(geo, before, second, nodes, la, lb, levels, h, p, f, c, gone, key);
      } else if changed {
        var d := nodes[node];
        var recs := d.recs[i := Rec(nodes[child].recs[0].key, Child(child))];
        Rekeyed(geo, second, lb, h, p, i, recs, bits, freeNodes, firstLeafNode, lastLeafNode);
        nodes := nodes[node := d.(recs := recs)];
        BelowRekeyed(geo, before, second, nodes, la, lb, h, p, f, c, key);
      } else if Has(Recs(before, la[0]), key) {
        BelowSteady(geo, before, second, la, lb, h, p, f, c, key);
      }
    }

    /** Removes a key; a key that is absent, but whose leaf ends beyond it, leaves the tree as it is. */
    method RemoveFromBTree(key: int)
      requires Valid() && rootNode != 0 && Stops(nodes, levels[0], key)
      modifies this
      ensures Valid() && Contents() == Del(old(Contents()), key)
      ensures Map() == old(Map()) - {key}
    {
      hide Used, MapOk, LevelsOk, Recs, Sorted, Agree, Summary, Route, Del, AsMap, Stops, Rank, Removed, Has, Growth;
      DelAsMap(Contents(), key);
      RootRoute(nodes, rootNode, key);
      ghost var top, before := treeDepth - 1, Contents();
      AbsentDel(before, key);
      ghost var old0, la := nodes, levels;
      var gone := RemoveRecord(rootNode, key, top, 0);
      if Has(before, key) {
        RemovedTop(old0, nodes, la, levels, old(rootNode), gone, key);
      }
      if gone {
        NoLevels(geo, nodes, levels, bits, freeNodes, firstLeafNode, lastLeafNode);
        levels := [];
      }
    }

    /** The contents as a finite map. */
    ghost function Map(): map<int, Payload>
      reads this
    {
      AsMap(Contents())
    }

    /**
     Finds the data stored under a key, or under the greatest smaller key. None stands for the end of
     the program: with no key that small the search calls the tree inconsistent and exits. The
     position found is the key's rank among all leaf records.
     */
    method Search(key: int) returns (data: Option<Payload>, exact: bool, nodeNumber: nat, recordNumber: nat)
      requires Valid() && rootNode != 0
      ensures exact <==> key in Map()
      ensures data == if exact then Some(Map()[key]) else Predecessor(Contents(), key)
      ensures data.Some? ==> AtRank(nodes, levels[0], nodeNumber, recordNumber, key)
      ensures exact ==>
        && nodeNumber < |nodes| && recordNumber < |nodes[nodeNumber].recs|
        && nodes[nodeNumber].recs[recordNumber].key == key
    {
      hide Used, MapOk, LevelsOk, Recs, Sorted, Agree, Summary, Route, AsMap, Rank;
      RootRoute(nodes, rootNode, key);
      FindHas(Contents(), key);
      MapIsFind(Contents(), key);
      data, exact, nodeNumber, recordNumber := SearchNode(rootNode, key, treeDepth - 1, 0);
    }

    method SearchNode(node: nat, key: int, ghost h: nat, ghost p: nat)
      returns (data: Option<Payload>, exact: bool, nodeNumber: nat, recordNumber: nat)
      requires Core() && At(levels, h, p, node) && Agree(nodes, levels, h) && Route(nodes, levels[h], p, key)
      ensures exact <==> Find(Contents(), key).Some?
      ensures data == if exact then Find(Contents(), key) else Predecessor(Contents(), key)
      ensures data.Some? ==> AtRank(nodes, levels[0], nodeNumber, recordNumber, key)
      ensures exact ==>
        && nodeNumber < |nodes| && recordNumber < |nodes[nodeNumber].recs|
        && nodes[nodeNumber].recs[recordNumber].key == key
      decreases h
    {
      hide Used, MapOk, LevelsOk, Recs, Sorted, Agree, Summary, Route, Rank, Below, Above;
      NodeAt(geo, nodes, levels, h, p);
      var d := nodes[node];
      var i := 0;
      while i < |d.recs|
        invariant 0 <= i <= |d.recs|
        invariant forall j :: 0 <= j < i ==> d.recs[j].key < key
      {
        if d.recs[i].key == key {
          if d.kind == Leaf {
            FoundHere(geo, nodes, levels, p, key, i);
            return Some(d.recs[i].data), true, node, i;
          }
          KeysAfter(geo, nodes, levels, h, p, key, i);
          AgreeLess(nodes, levels, h);
          ghost var f := Descend(geo, nodes, levels, h, p, key, i);
          data, exact, nodeNumber, recordNumber := SearchNode(d.recs[i].data.node, key, h - 1, f);
          return;
        } else if d.recs[i].key > key {
          break;
        }
        i := i + 1;
      }
      if i == 0 {
        ScanRoute(geo, nodes, levels, h, p, key, i);
        SmallerThanAll(geo, nodes, levels, h, key);
        NoPredecessor(geo, nodes, levels, h, key);
        return None, false, node, 0;
      }
      if d.kind == Leaf {
        NotHere(geo, nodes, levels, p, key, i);
        return Some(d.recs[i - 1].data), false, node, i;
      }
      AgreeLess(nodes, levels, h);
      ghost var f := Descend(geo, nodes, levels, h, p, key, i - 1);
      data, exact, nodeNumber, recordNumber := SearchNode(d.recs[i - 1].data.node, key, h - 1, f);
    }

    /** Writes the new node, the back link of its right neighbour, and the shortened old node. */
    method WriteSplit(node: nat, x: nat, d: Node, half: nat)
      requires node < |nodes| && x < |nodes| && d == nodes[node] && d.fLink < |nodes|
      requires half <= |d.recs|
      modifies this`nodes
      ensures nodes == Split(old(nodes), node, x, d.recs[..half], d.recs[half..])
      ensures node != x ==> nodes[node].recs == d.recs[..half]
      ensures x != node && x != d.fLink ==> nodes[x].recs == d.recs[half..]
    {
      nodes := nodes[x := Node(d.kind, d.height, d.fLink, node, d.recs[half..])];
      if d.fLink != 0 {
        nodes := nodes[d.fLink := nodes[d.fLink].(bLink := x)];
      }
      nodes := nodes[node := d.(fLink := x, recs := d.recs[..half])];
    }
  }

  lemma PositionFits(n: nat, size: nat)
    requires 256 <= size <= 0x4000 && n < 8 * (size - 256)
    ensures n * size + size <= 0x1_0000_0000
  {
    AtMost(n, 0x1F7FF, size);
  }

  lemma AtMost(a: nat, b: nat, c: nat)
    requires a <= b
    ensures a * c <= b * c
  {
    assert b * c == a * c + (b - a) * c;
  }

  /** Rewriting the records of one node, within its size, keeps the shape. */
  lemma RewriteShapeOk(g: Geometry, nodes: seq<Node>, levels: seq<seq<nat>>, h: nat, p: nat, recs: seq<Rec>,
                       bits: seq<bv8>, free: nat, first: nat, last: nat)
    requires ShapeOk(g, nodes, levels, bits, free, first, last) && h < |levels| && p < |levels[h]|
    requires levels[h][p] < |nodes| && NodeOk(g, nodes[levels[h][p]].(recs := recs), h)
    ensures var after := nodes[levels[h][p] := nodes[levels[h][p]].(recs := recs)];
      && ShapeOk(g, after, levels, bits, free, first, last)
      && SameElsewhere(nodes, after, levels, h)
      && SameRecsBut(nodes, after, levels[h], p)
  {
    var n := levels[h][p];
    var after := nodes[n := nodes[n].(recs := recs)];
    LevelsApart(g, nodes, levels, h, p);
    forall f | 0 <= f < |levels|
      ensures LevelOk(g, after, levels[f], f)
    {
      assert LevelOk(g, nodes, levels[f], f);
      if f != h {
        SameLevel(g, nodes, after, levels[f], f);
      } else {
        forall q | 0 <= q < |levels[h]|
          ensures EntryOk(g, after, levels[h], h, q)
        {
          assert EntryOk(g, nodes, levels[h], h, q);
        }
      }
    }
    forall f, q | 0 <= f < |levels| && f != h && 0 <= q < |levels[f]|
      ensures levels[f][q] < |nodes| && after[levels[f][q]] == nodes[levels[f][q]]
    {
      assert LevelOk(g, nodes, levels[f], f);
    }
    assert LevelOk(g, nodes, levels[h], h);
  }

  lemma SplitEntries(L: seq<nat>, p: nat, x: nat)
    requires p < |L|
    ensures Insert(L, p + 1, x)[p] == L[p] && Insert(L, p + 1, x)[p + 1] == x
  {
  }

  lemma TwoRecords(g: Geometry, kind: Kind, n: nat)
    requires g.Valid() && (kind == Leaf || kind == Index) && g.Free(kind, n) < g.RecSize(kind) + 2
    ensures n >= 2
  {
    if n < 2 {
      g.FreeShrinks(kind, n + 1, 2);
      g.FreeShrinks(kind, n, n);
    }
  }

  lemma HalfFits(g: Geometry, kind: Kind, n: nat)
    requires n >= 2 && g.Free(kind, n) >= 0
    ensures g.Free(kind, n / 2 + 1) >= 0 && g.Free(kind, n - n / 2 + 1) >= 0
  {
    g.FreeShrinks(kind, n / 2 + 1, n);
    g.FreeShrinks(kind, n - n / 2 + 1, n);
  }

  /** Inserting into the half the scan position falls in inserts into the whole. */
  lemma HalvesIns(s: seq<Rec>, half: nat, r: Rec, i: nat)
    requires 0 < half < |s| && Find(s, r.key).None?
    requires i == Rank(s, r.key) || (i == 0 && Rank(s, r.key) == 1)
    ensures i < half ==> Ins(s[..half], r) + s[half..] == Ins(s, r) && Find(s[..half], r.key).None?
    ensures i >= half ==> s[..half] + Ins(s[half..], r) == Ins(s, r) && Find(s[half..], r.key).None?
  {
    hide Rank;
    var n := Rank(s, r.key);
    if i < half {
      LowerIns(s, half, r, n);
    } else {
      UpperIns(s, half, r, n);
    }
  }

  lemma LowerIns(s: seq<Rec>, half: nat, r: Rec, n: nat)
    requires n <= half < |s| && Find(s, r.key).None? && n == Rank(s, r.key)
    ensures Ins(s[..half], r) + s[half..] == Ins(s, r) && Find(s[..half], r.key).None?
  {
    RankIs(s[..half], r.key, n);
    hide Rank;
    CutInsLow(s, half, r, n);
  }

  lemma CutInsLow(s: seq<Rec>, half: nat, r: Rec, n: nat)
    requires n <= half <= |s|
    ensures s[..half][..n] + [r] + s[..half][n..] + s[half..] == s[..n] + [r] + s[n..]
  {
    assert s[..half][..n] == s[..n];
    assert s[..half][n..] + s[half..] == s[n..];
    Assoc(s[..n] + [r], s[..half][n..], s[half..]);
  }

  lemma UpperIns(s: seq<Rec>, half: nat, r: Rec, n: nat)
    requires half <= n && half < |s| && Find(s, r.key).None? && n == Rank(s, r.key)
    ensures s[..half] + Ins(s[half..], r) == Ins(s, r) && Find(s[half..], r.key).None?
  {
    RankIs(s[half..], r.key, n - half);
    hide Rank;
    CutIns(s, half, r, n);
  }

  lemma CutIns(s: seq<Rec>, half: nat, r: Rec, n: nat)
    requires half <= n <= |s|
    ensures s[..half] + (s[half..][..n - half] + [r] + s[half..][n - half..]) == s[..n] + [r] + s[n..]
  {
    var X, Y := s[..half], s[half..];
    assert X + Y[..n - half] == s[..n];
    assert Y[n - half..] == s[n..];
    Assoc(X, Y[..n - half], [r]);
    Assoc(X, Y[..n - half] + [r], Y[n - half..]);
  }

  /** A split of node p followed by a change of node p only. */
  lemma SameThenNode(a: seq<Node>, b: seq<Node>, c: seq<Node>, levels: seq<seq<nat>>, h: nat, p: nat, x: nat)
    requires h < |levels| && p < |levels[h]|
    requires SameElsewhere(a, b, levels, h) && SameRecsBut(a, b, levels[h], p)
    requires var after := levels[h := Insert(levels[h], p + 1, x)];
      SameElsewhere(b, c, after, h) && SameRecsBut(b, c, after[h], p)
    ensures SameElsewhere(a, c, levels, h) && SameRecsBut(a, c, levels[h], p)
    ensures x < |b| && x < |c| && c[x].recs == b[x].recs
  {
    var L := levels[h];
    var after := levels[h := Insert(L, p + 1, x)];
    forall f, q | 0 <= f < |levels| && f != h && 0 <= q < |levels[f]|
      ensures levels[f][q] < |a| && levels[f][q] < |c| && c[levels[f][q]] == a[levels[f][q]]
    {
      assert after[f][q] == levels[f][q];
    }
    forall q | 0 <= q < |L| && q != p
      ensures L[q] < |a| && L[q] < |c| && c[L[q]].recs == a[L[q]].recs
    {
      InsertAt(L, p + 1, x, if q < p then q else q + 1);
    }
    InsertAt(L, p + 1, x, p + 1);
  }

  /** A split of node p followed by a change of its new neighbour only. */
  lemma SameThenNew(a: seq<Node>, b: seq<Node>, c: seq<Node>, levels: seq<seq<nat>>, h: nat, p: nat, x: nat)
    requires h < |levels| && p < |levels[h]|
    requires SameElsewhere(a, b, levels, h) && SameRecsBut(a, b, levels[h], p)
    requires var after := levels[h := Insert(levels[h], p + 1, x)];
      SameElsewhere(b, c, after, h) && SameRecsBut(b, c, after[h], p + 1)
    ensures SameElsewhere(a, c, levels, h) && SameRecsBut(a, c, levels[h], p)
    ensures levels[h][p] < |b| && levels[h][p] < |c| && c[levels[h][p]].recs == b[levels[h][p]].recs
  {
    var L := levels[h];
    var after := levels[h := Insert(L, p + 1, x)];
    forall f, q | 0 <= f < |levels| && f != h && 0 <= q < |levels[f]|
      ensures levels[f][q] < |a| && levels[f][q] < |c| && c[levels[f][q]] == a[levels[f][q]]
    {
      assert after[f][q] == levels[f][q];
    }
    forall q | 0 <= q < |L| && q != p
      ensures L[q] < |a| && L[q] < |c| && c[L[q]].recs == a[L[q]].recs
    {
      InsertAt(L, p + 1, x, if q < p then q else q + 1);
    }
    InsertAt(L, p + 1, x, p);
  }

  lemma SameSelf(g: Geometry, nodes: seq<Node>, levels: seq<seq<nat>>, h: nat, p: nat)
    requires LevelsOk(g, nodes, levels) && h < |levels| && p < |levels[h]|
    ensures SameElsewhere(nodes, nodes, levels, h) && SameRecsBut(nodes, nodes, levels[h], p)
  {
    forall f, q | 0 <= f < |levels| && 0 <= q < |levels[f]|
      ensures levels[f][q] < |nodes|
    {
      assert LevelOk(g, nodes, levels[f], f);
    }
  }

  lemma NodeAt(g: Geometry, nodes: seq<Node>, levels: seq<seq<nat>>, h: nat, p: nat)
    requires LevelsOk(g, nodes, levels) && h < |levels| && p < |levels[h]|
    ensures 0 < levels[h][p] < |nodes| && NodeOk(g, nodes[levels[h][p]], h)
  {
    assert LevelOk(g, nodes, levels[h], h);
    assert EntryOk(g, nodes, levels[h], h, p);
  }

  lemma InsOk(g: Geometry, n: Node, h: nat, r: Rec)
    requires NodeOk(g, n, h) && g.Free(n.kind, |n.recs| + 1) >= 0 && (r.data.Value? <==> h == 0)
    ensures NodeOk(g, n.(recs := Ins(n.recs, r)), h)
  {
    var i, t := Rank(n.recs, r.key), Ins(n.recs, r);
    forall j | 0 <= j < |t|
      ensures t[j].data.Value? <==> h == 0
    {
      assert t[j] == if j < i then n.recs[j] else if j == i then r else n.recs[j - 1];
    }
  }

  /** What is known of a node after the file has grown behind it. */
  lemma LinkedNode(g: Geometry, before: seq<Node>, nodes: seq<Node>, levels: seq<seq<nat>>, h: nat, p: nat)
    requires LevelsOk(g, before, levels) && h < |levels| && p < |levels[h]|
    requires |before| <= |nodes| && nodes[..|before|] == before
    ensures var node := levels[h][p];
      && node in Used(levels) && node < |before| && nodes[node] == before[node]
      && nodes[node].fLink < |nodes| && nodes[node].fLink in Used(levels)
      && (nodes[node].kind == Leaf <==> h == 0)
  {
    var L, node := levels[h], levels[h][p];
    assert LevelOk(g, before, L, h);
    LinkAt(g, before, L, h, p);
    assert nodes[..|before|][node] == before[node];
    if p + 1 < |L| {
      assert levels[h][p + 1] == nodes[node].fLink;
    }
  }

  ghost predicate At(levels: seq<seq<nat>>, h: nat, p: nat, node: nat)
  {
    h < |levels| && p < |levels[h]| && levels[h][p] == node
  }

  lemma SplitShape(g: Geometry, before: seq<Node>, nodes: seq<Node>, after: seq<Node>, levels: seq<seq<nat>>,
                   h: nat, p: nat, x: nat, left: seq<Rec>, right: seq<Rec>)
    requires LevelsOk(g, before, levels) && LevelsOk(g, nodes, levels) && h < |levels| && p < |levels[h]|
    requires |before| <= |nodes| && nodes[..|before|] == before
    requires 0 < x < |nodes| && x !in Used(levels)
    requires levels[h][p] < |nodes| && nodes[levels[h][p]].fLink < |nodes|
    requires nodes[levels[h][p]].recs == left + right && left != [] && right != []
    requires after == Split(nodes, levels[h][p], x, left, right)
    ensures LevelsOk(g, after, levels[h := Insert(levels[h], p + 1, x)])
    ensures SameElsewhere(before, after, levels, h)
    ensures SameRecsBut(before, after, levels[h], p)
  {
    var L := levels[h];
    assert LevelOk(g, nodes, L, h) && LevelOk(g, before, L, h);
    forall q | 0 <= q < |L|
      ensures L[q] != x
    {
      assert levels[h][q] in Used(levels);
    }
    SplitKeepsLevel(g, nodes, L, h, p, x, left, right);
    forall f, q | 0 <= f < |levels| && f != h && 0 <= q < |levels[f]|
      ensures levels[f][q] < |before| && after[levels[f][q]] == before[levels[f][q]]
    {
      assert levels[f][q] in Used(levels);
      assert LevelOk(g, before, levels[f], f);
      LevelsApart(g, nodes, levels, f, q);
      SplitKeepsOthers(g, nodes, L, h, p, x, left, right, levels[f][q]);
    }
    forall q | 0 <= q < |L| && q != p
      ensures L[q] < |before| && after[L[q]].recs == before[L[q]].recs
    {
      SplitKeepsOthers(g, nodes, L, h, p, x, left, right, L[q]);
    }
    forall f | 0 <= f < |levels| && f != h
      ensures LevelOk(g, after, levels[f], f)
    {
      assert LevelOk(g, before, levels[f], f);
      SameLevel(g, before, after, levels[f], f);
    }
  }

  lemma SplitShapeOk(g: Geometry, before: seq<Node>, nodes: seq<Node>, after: seq<Node>, levels: seq<seq<nat>>,
                     h: nat, p: nat, x: nat, left: seq<Rec>, right: seq<Rec>, bits: seq<bv8>, free: nat, first: nat,
                     last: nat)
    requires LevelsOk(g, before, levels) && LevelsOk(g, nodes, levels) && h < |levels| && p < |levels[h]|
    requires first == FirstOf(levels[0]) && last == LastOf(levels[0])
    requires |before| <= |nodes| && nodes[..|before|] == before
    requires 0 < x < |nodes| && x !in Used(levels) && MapOk(bits, |nodes|, free, Used(levels) + {x})
    requires levels[h][p] < |nodes| && nodes[levels[h][p]].fLink < |nodes|
    requires nodes[levels[h][p]].recs == left + right && left != [] && right != []
    requires after == Split(nodes, levels[h][p], x, left, right)
    ensures ShapeOk(g, after, levels[h := Insert(levels[h], p + 1, x)], bits, free, first,
                    if nodes[levels[h][p]].kind == Leaf && levels[h][p] == last then x else last)
    ensures SameElsewhere(before, after, levels, h)
    ensures SameRecsBut(before, after, levels[h], p)
  {
    SplitShape(g, before, nodes, after, levels, h, p, x, left, right);
    UsedInsert(levels, h, p + 1, x);
    SplitEnds(g, before, levels, h, p, x);
    LinkedNode(g, before, nodes, levels, h, p);
  }

  /** Only the last leaf's split changes an end of the leaf chain. */
  lemma SplitEnds(g: Geometry, nodes: seq<Node>, levels: seq<seq<nat>>, h: nat, p: nat, x: nat)
    requires LevelsOk(g, nodes, levels) && h < |levels| && p < |levels[h]|
    ensures var after := levels[h := Insert(levels[h], p + 1, x)];
      && FirstOf(after[0]) == FirstOf(levels[0])
      && LastOf(after[0]) == (if h == 0 && levels[h][p] == LastOf(levels[0]) then x else LastOf(levels[0]))
  {
    assert LevelOk(g, nodes, levels[h], h);
    if h == 0 && p + 1 < |levels[h]| {
      InsertAt(levels[h], p + 1, x, |levels[h]|);
    }
  }

  lemma GrownLevels(g: Geometry, a: seq<Node>, b: seq<Node>, levels: seq<seq<nat>>)
    requires LevelsOk(g, a, levels) && |a| <= |b| && b[..|a|] == a
    ensures LevelsOk(g, b, levels)
  {
    forall h | 0 <= h < |levels|
      ensures LevelOk(g, b, levels[h], h)
    {
      assert LevelOk(g, a, levels[h], h);
      SameLevel(g, a, b, levels[h], h);
    }
  }

  lemma GrownMap(bits: seq<bv8>, total: nat, clump: nat, used: set<nat>)
    requires MapOk(bits, total, 0, used) && total + clump < 8 * |bits|
    ensures MapOk(bits, total + clump, clump, used)
  {
    ClearBeyond(bits, total, total + clump);
  }

  lemma {:induction false} ClearBeyond(bits: seq<bv8>, n: nat, m: nat)
    requires n <= m <= 8 * |bits| && forall i: nat :: n <= i < m ==> !Bit(bits, i)
    ensures ClearCount(bits, m) == ClearCount(bits, n) + (m - n)
  {
    if n < m {
      ClearBeyond(bits, n, m - 1);
    }
  }

  /** On every level the records are sorted. */
  lemma {:induction false} SortedUp(g: Geometry, nodes: seq<Node>, levels: seq<seq<nat>>, h: nat)
    requires LevelsOk(g, nodes, levels) && h < |levels| && Agree(nodes, levels, h)
    requires Sorted(Recs(nodes, levels[0]))
    ensures InRange(nodes, levels[h]) && Nonempty(nodes, levels[h]) && Sorted(Recs(nodes, levels[h]))
  {
    assert LevelOk(g, nodes, levels[h], h);
    LevelNonempty(g, nodes, levels[h], h);
    if h > 0 {
      SortedUp(g, nodes, levels, h - 1);
      SummarySorted(nodes, levels[h - 1]);
    }
  }

  /** The child that record c of an index node points to, and why key k belongs to it. */
  lemma Descend(g: Geometry, nodes: seq<Node>, levels: seq<seq<nat>>, h: nat, p: nat, k: int, c: nat) returns (f: nat)
    requires LevelsOk(g, nodes, levels) && 1 <= h < |levels| && p < |levels[h]| && Agree(nodes, levels, h)
    requires levels[h][p] < |nodes| && c < |nodes[levels[h][p]].recs| && Route(nodes, levels[h], p, k)
    requires (c == 0 && p == 0) || nodes[levels[h][p]].recs[c].key <= k
    requires c + 1 < |nodes[levels[h][p]].recs| ==> k < nodes[levels[h][p]].recs[c + 1].key
    ensures f == |Recs(nodes, levels[h][..p])| + c && f < |levels[h - 1]| && f < |Recs(nodes, levels[h])|
    ensures nodes[levels[h][p]].recs[c] == Rec(FirstKey(nodes, levels[h - 1][f]), Child(levels[h - 1][f]))
    ensures Recs(nodes, levels[h])[f] == nodes[levels[h][p]].recs[c]
    ensures Route(nodes, levels[h - 1], f, k)
  {
    var L, recs := levels[h], nodes[levels[h][p]].recs;
    assert LevelOk(g, nodes, L, h);
    LevelNonempty(g, nodes, L, h);
    RecsAt(nodes, L, p);
    var A, B := Recs(nodes, L[..p]), Recs(nodes, L[p + 1..]);
    f := |A| + c;
    assert Recs(nodes, L)[f] == recs[c];
    assert Recs(nodes, L) == Summary(nodes, levels[h - 1]);
    if f + 1 < |levels[h - 1]| {
      if c + 1 < |recs| {
        assert Recs(nodes, L)[f + 1] == recs[c + 1];
      } else {
        assert Recs(nodes, L)[f + 1] == B[0];
        assert L[p + 1..] != [];
        RecsHead(nodes, L[p + 1..]);
      }
    }
  }

  /** Levels below h agree as long as neither their node lists nor their nodes change. */
  lemma AgreeBelow(a: seq<Node>, b: seq<Node>, la: seq<seq<nat>>, lb: seq<seq<nat>>, h: nat)
    requires Agree(a, la, h) && h < |la| && h < |lb|
    requires forall g :: 0 <= g <= h ==> la[g] == lb[g] && SameRecsBut(a, b, la[g], |la[g]|)
    ensures Agree(b, lb, h) && Recs(b, lb[h]) == Recs(a, la[h]) && Summary(b, lb[h]) == Summary(a, la[h])
    ensures Recs(b, lb[0]) == Recs(a, la[0])
  {
    forall g | 0 <= g <= h
      ensures Recs(b, lb[g]) == Recs(a, la[g]) && Summary(b, lb[g]) == Summary(a, la[g])
    {
      RecsSame(a, b, la[g]);
    }
  }

  function Min(a: int, b: int): int { if a < b then a else b }

  /**
   What inserting record r below node p of level h does: this level and lower ones change,
   node p may get the right neighbour x, and the leaves gain exactly r.
   */
  ghost predicate Added(a: seq<Node>, b: seq<Node>, la: seq<seq<nat>>, lb: seq<seq<nat>>, h: nat, p: nat, x: nat,
                        r: Rec)
  {
    && h < |la| == |lb| && p < |la[h]|
    && (forall g :: h < g < |la| ==> lb[g] == la[g])
    && SameAbove(a, b, la, h)
    && lb[h] == Grown(la[h], p, x)
    && SameRecsBut(a, b, la[h], p)
    && FirstKey(b, la[h][p]) == Min(r.key, FirstKey(a, la[h][p]))
    && Recs(b, lb[0]) == Ins(Recs(a, la[0]), r)
  }

  ghost predicate SameAbove(a: seq<Node>, b: seq<Node>, levels: seq<seq<nat>>, h: nat)
  {
    forall g, j :: h < g < |levels| && 0 <= j < |levels[g]| ==>
      levels[g][j] < |a| && levels[g][j] < |b| && b[levels[g][j]] == a[levels[g][j]]
  }

  lemma InsFirst(s: seq<Rec>, r: Rec)
    requires s != [] && Find(s, r.key).None?
    ensures Ins(s, r)[0].key == Min(r.key, s[0].key)
  {
  }

  lemma LeafAdded(g: Geometry, a: seq<Node>, b: seq<Node>, la: seq<seq<nat>>, lb: seq<seq<nat>>, p: nat, x: nat, r: Rec)
    requires la != [] && p < |la[0]| && lb == la[0 := Grown(la[0], p, x)]
    requires LevelsOk(g, a, la) && LevelsOk(g, b, lb)
    requires InRange(a, la[0]) && Nonempty(a, la[0]) && Sorted(Recs(a, la[0])) && Route(a, la[0], p, r.key)
    requires Find(a[la[0][p]].recs, r.key).None?
    requires SameElsewhere(a, b, la, 0) && SameRecsBut(a, b, la[0], p)
    requires la[0][p] < |b| && b[la[0][p]].recs != [] && (x != 0 ==> x < |b|)
    requires Ins(a[la[0][p]].recs, r) == b[la[0][p]].recs + if x == 0 then [] else b[x].recs
    ensures !Has(Recs(a, la[0]), r.key) && Added(a, b, la, lb, 0, p, x, r)
    ensures Sorted(Recs(b, lb[0])) && |Recs(b, lb[0])| == |Recs(a, la[0])| + 1
  {
    var L, m := la[0], a[la[0][p]].recs;
    Between(a, L, p, r.key);
    var A, B := Recs(a, L[..p]), Recs(a, L[p + 1..]);
    assert InRange(b, L) by {
      forall j | 0 <= j < |L|
        ensures L[j] < |b|
      {
        if j != p {
          assert b[L[j]].recs == a[L[j]].recs;
        }
      }
    }
    RecsGrown(a, b, L, p, x, Ins(m, r));
    InsMiddle(A, m, B, r);
    AbsentMiddle(A, m, B, r.key);
    InsKeepsSorted(Recs(a, L), r);
    InsFirst(m, r);
    assert SameAbove(a, b, la, 0);
  }

  lemma AbsentMiddle(a: seq<Rec>, m: seq<Rec>, b: seq<Rec>, k: int)
    requires Below(a, k) && Above(b, k) && Sorted(m) && Find(m, k).None?
    ensures !Has(a + m + b, k)
  {
    FindHas(m, k);
    var s := a + m + b;
    forall i | 0 <= i < |s|
      ensures s[i].key != k
    {
      assert s[i] == if i < |a| then a[i] else if i < |a| + |m| then m[i - |a|] else b[i - |a| - |m|];
    }
  }

  /** Where a left-to-right scan for k stops when it does not meet k itself. */
  ghost predicate Scanned(s: seq<Rec>, k: int, i: nat)
  {
    i <= |s| && (forall j :: 0 <= j < i ==> s[j].key < k) && (i < |s| ==> k < s[i].key)
  }

  lemma ScanRank(s: seq<Rec>, k: int, i: nat)
    requires Scanned(s, k, i)
    ensures Rank(s, k) == i && Find(s, k).None?
  {
    RankIs(s, k, i);
  }

  lemma ScanRoute(g: Geometry, nodes: seq<Node>, levels: seq<seq<nat>>, h: nat, p: nat, k: int, i: nat)
    requires LevelsOk(g, nodes, levels) && h < |levels| && p < |levels[h]| && Agree(nodes, levels, h)
    requires Sorted(Recs(nodes, levels[0])) && Route(nodes, levels[h], p, k)
    requires levels[h][p] < |nodes| && nodes[levels[h][p]].recs != [] && Scanned(nodes[levels[h][p]].recs, k, i)
    ensures i == 0 ==> p == 0 && k < FirstKey(nodes, levels[h][0])
    ensures var recs, c := nodes[levels[h][p]].recs, if i == 0 then 0 else i - 1;
      && c < |recs| && ((c == 0 && p == 0) || recs[c].key <= k)
      && (c + 1 < |recs| ==> k < recs[c + 1].key)
  {
    SortedUp(g, nodes, levels, h);
    Between(nodes, levels[h], p, k);
  }

  /** A key below the first key of a level is in no leaf. */
  lemma {:induction false} SmallerThanAll(g: Geometry, nodes: seq<Node>, levels: seq<seq<nat>>, h: nat, k: int)
    requires LevelsOk(g, nodes, levels) && h < |levels| && Agree(nodes, levels, h)
    requires Sorted(Recs(nodes, levels[0])) && levels[h] != [] && k < FirstKey(nodes, levels[h][0])
    ensures !Has(Recs(nodes, levels[0]), k)
  {
    SortedUp(g, nodes, levels, h);
    RecsHead(nodes, levels[h]);
    if h > 0 {
      assert Recs(nodes, levels[h]) == Summary(nodes, levels[h - 1]);
      SmallerThanAll(g, nodes, levels, h - 1, k);
    }
  }

  /** The leftmost separator is lowered to a key smaller than every key of the tree. */
  lemma Lowered(g: Geometry, before: seq<Node>, first: seq<Node>, levels: seq<seq<nat>>, h: nat, p: nat, k: int, i: nat,
                f: nat,
                bits: seq<bv8>, free: nat, head: nat, tail: nat)
    requires ShapeOk(g, before, levels, bits, free, head, tail) && 0 < h < |levels| && p < |levels[h]|
      && Agree(before, levels, h)
    requires levels[h][p] < |before| && before[levels[h][p]].recs != [] && i <= |before[levels[h][p]].recs|
    requires var recs, c := before[levels[h][p]].recs, if i == 0 then 0 else i - 1;
      && f == |Recs(before, levels[h][..p])| + c && f < |levels[h - 1]|
      && recs[c] == Rec(FirstKey(before, levels[h - 1][f]), Child(levels[h - 1][f]))
      && (if i == 0 then
            && k < recs[0].key
            && first == before[levels[h][p] := before[levels[h][p]].(recs := recs[0 := Rec(k, recs[0].data)])]
          else first == before && recs[c].key <= k)
    requires Route(before, levels[h - 1], f, k)
    ensures ShapeOk(g, first, levels, bits, free, head, tail) && Agree(first, levels, h - 1)
    ensures Recs(first, levels[0]) == Recs(before, levels[0]) && Route(first, levels[h - 1], f, k)
    ensures SameAbove(before, first, levels, h) && SameRecsBut(before, first, levels[h], p)
    ensures Summary(first, levels[h - 1]) == Summary(before, levels[h - 1])
    ensures Recs(first, levels[h]) == SetKey(Summary(first, levels[h - 1]), f, k)
    ensures |first| == |before|
  {
    hide NodeOk, Recs, MapOk, Used, Nonempty;
    var n := levels[h][p];
    var recs, c := before[n].recs, if i == 0 then 0 else i - 1;
    NodeAt(g, before, levels, h, p);
    SameSelf(g, before, levels, h, p);
    if i == 0 {
      LoweredNode(g, before[n], h, k);
      RewriteShapeOk(g, before, levels, h, p, recs[0 := Rec(k, recs[0].data)], bits, free, head, tail);
    }
    SameElsewhereSame(before, first, levels, h);
    AgreeBelow(before, first, levels, levels, h - 1);
    LevelRewritten(g, before, first, levels, h, p, first[n].recs, false);
    var A, B := Recs(before, levels[h][..p]), Recs(before, levels[h][p + 1..]);
    assert A + recs + B == Summary(before, levels[h - 1]);
    assert first[n].recs == SetKey(recs, c, k);
    SetKeyMiddle(A, recs, B, c, k);
    RouteSame(before, first, levels[h - 1], f, k);
  }

  lemma LoweredNode(g: Geometry, n: Node, h: nat, k: int)
    requires NodeOk(g, n, h)
    ensures NodeOk(g, n.(recs := n.recs[0 := Rec(k, n.recs[0].data)]), h)
  {
    var t := n.recs[0 := Rec(k, n.recs[0].data)];
    assert forall j :: 0 <= j < |t| ==> t[j].data == n.recs[j].data;
  }

  lemma SameElsewhereSame(a: seq<Node>, b: seq<Node>, levels: seq<seq<nat>>, h: nat)
    requires h < |levels| && SameElsewhere(a, b, levels, h)
    ensures forall q :: 0 <= q < h ==> SameRecsBut(a, b, levels[q], |levels[q]|)
    ensures SameAbove(a, b, levels, h)
  {
  }

  /** Record i with its key lowered to k if k is smaller. */
  function SetKey(s: seq<Rec>, i: nat, k: int): seq<Rec>
    requires i < |s|
  {
    s[i := Rec(Min(k, s[i].key), s[i].data)]
  }

  lemma SetKeyMiddle(a: seq<Rec>, m: seq<Rec>, b: seq<Rec>, c: nat, k: int)
    requires c < |m|
    ensures SetKey(a + m + b, |a| + c, k) == a + SetKey(m, c, k) + b
  {
  }

  lemma RouteSame(a: seq<Node>, b: seq<Node>, L: seq<nat>, p: nat, k: int)
    requires p < |L| && Summary(a, L) == Summary(b, L) && Route(a, L, p, k)
    ensures Route(b, L, p, k)
  {
    assert Summary(a, L)[p] == Summary(b, L)[p];
    if p + 1 < |L| {
      assert Summary(a, L)[p + 1] == Summary(b, L)[p + 1];
    }
  }

  /** Every key of an index level is the key of some leaf record. */
  lemma {:induction false} KeyDown(g: Geometry, nodes: seq<Node>, levels: seq<seq<nat>>, h: nat, q: nat)
    requires LevelsOk(g, nodes, levels) && h < |levels| && Agree(nodes, levels, h) && q < |Recs(nodes, levels[h])|
    ensures Has(Recs(nodes, levels[0]), Recs(nodes, levels[h])[q].key)
  {
    if h > 0 {
      var L := levels[h - 1];
      assert LevelOk(g, nodes, L, h - 1);
      LevelNonempty(g, nodes, L, h - 1);
      assert Recs(nodes, levels[h]) == Summary(nodes, L);
      RecsAt(nodes, L, q);
      var j := |Recs(nodes, L[..q])|;
      assert Recs(nodes, L)[j] == nodes[L[q]].recs[0];
      KeyDown(g, nodes, levels, h - 1, j);
    }
  }

  lemma IndexKeyPresent(g: Geometry, nodes: seq<Node>, levels: seq<seq<nat>>, h: nat, p: nat, i: nat)
    requires LevelsOk(g, nodes, levels) && h < |levels| && p < |levels[h]| && Agree(nodes, levels, h)
    requires levels[h][p] < |nodes| && i < |nodes[levels[h][p]].recs|
    ensures Has(Recs(nodes, levels[0]), nodes[levels[h][p]].recs[i].key)
  {
    var L := levels[h];
    assert LevelOk(g, nodes, L, h);
    RecsAt(nodes, L, p);
    var j := |Recs(nodes, L[..p])| + i;
    assert Recs(nodes, L)[j] == nodes[L[p]].recs[i];
    KeyDown(g, nodes, levels, h, j);
  }

  /** After an insertion below record f of level h - 1, its summary is the lowered one, with x's record next to f. */
  lemma ChildSummary(a: seq<Node>, b: seq<Node>, la: seq<seq<nat>>, lb: seq<seq<nat>>, h: nat, f: nat, x: nat, r: Rec)
    requires h > 0 && Added(a, b, la, lb, h - 1, f, x, r) && h < |la|
    ensures f < |Summary(a, la[h - 1])|
    ensures var s := SetKey(Summary(a, la[h - 1]), f, r.key);
      Summary(b, lb[h - 1]) == if x == 0 then s else Insert(s, f + 1, Rec(FirstKey(b, x), Child(x)))
    ensures lb[h] == la[h] && Recs(b, lb[h]) == Recs(a, la[h])
  {
    SummaryGrown(a, b, la[h - 1], f, x);
    forall j | 0 <= j < |la[h]|
      ensures la[h][j] < |a| && la[h][j] < |b| && b[la[h][j]] == a[la[h][j]]
    {
    }
    RecsSame(a, b, la[h]);
  }

  /** The chain of changes above and beside the insertion path. */
  lemma AddedAbove(before: seq<Node>, first: seq<Node>, second: seq<Node>, la: seq<seq<nat>>, lb: seq<seq<nat>>,
                   h: nat, p: nat, f: nat, x: nat, r: Rec)
    requires 0 < h < |la| && p < |la[h]| && Added(first, second, la, lb, h - 1, f, x, r)
    requires SameAbove(before, first, la, h) && SameRecsBut(before, first, la[h], p)
    ensures |lb| == |la| && forall g :: h <= g < |la| ==> lb[g] == la[g]
    ensures SameAbove(before, second, la, h) && SameRecsBut(before, second, la[h], p)
    ensures la[h][p] < |first| && la[h][p] < |second| && second[la[h][p]] == first[la[h][p]]
  {
    forall g, j | h <= g < |la| && 0 <= j < |la[g]|
      ensures la[g][j] < |first| && la[g][j] < |second| && second[la[g][j]] == first[la[g][j]]
    {
    }
  }

  lemma BelowKept(g: Geometry, before: seq<Node>, first: seq<Node>, second: seq<Node>, la: seq<seq<nat>>,
                  lb: seq<seq<nat>>,
                  h: nat, p: nat, f: nat, r: Rec)
    requires 0 < h < |la| && p < |la[h]| && Added(first, second, la, lb, h - 1, f, 0, r)
    requires SameAbove(before, first, la, h) && SameRecsBut(before, first, la[h], p)
    requires f < |la[h - 1]| && Recs(first, la[h]) == SetKey(Summary(first, la[h - 1]), f, r.key)
    requires Agree(second, lb, h - 1) && Recs(first, la[0]) == Recs(before, la[0])
    requires FirstKey(first, la[h][p]) == Min(r.key, FirstKey(before, la[h][p]))
    ensures Agree(second, lb, h) && Added(before, second, la, lb, h, p, 0, r)
  {
    ChildSummary(first, second, la, lb, h, f, 0, r);
    AddedAbove(before, first, second, la, lb, h, p, f, 0, r);
  }

  lemma MiddleRank(a: seq<Rec>, m: seq<Rec>, b: seq<Rec>, c: nat, k: int)
    requires c < |m| && Below((a + m + b)[..|a| + c + 1], k) && Above((a + m + b)[|a| + c + 1..], k)
    ensures Below(a, k) && Above(b, k) && Rank(m, k) == c + 1 && Find(m, k).None?
  {
    hide Rank;
    var s := a + m + b;
    var low, high := s[..|a| + c + 1], s[|a| + c + 1..];
    assert forall j :: 0 <= j < |a| ==> low[j] == a[j];
    assert forall j :: 0 <= j <= c ==> low[|a| + j] == m[j];
    assert forall j :: 0 <= j < |b| ==> high[|m| - c - 1 + j] == b[j];
    assert c + 1 < |m| ==> high[0] == m[c + 1];
    RankIs(m, k, c + 1);
  }

  /** After the child split off y, the record of y has its place right behind record c of node p. */
  lemma BelowFits(g: Geometry, before: seq<Node>, first: seq<Node>, second: seq<Node>, la: seq<seq<nat>>,
                  lb: seq<seq<nat>>,
                  h: nat, p: nat, f: nat, i: nat, y: nat, r: Rec)
    requires 0 < h < |la| && p < |la[h]| && Added(first, second, la, lb, h - 1, f, y, r) && y != 0
    requires LevelsOk(g, second, lb) && Sorted(Recs(second, lb[0])) && Agree(second, lb, h - 1)
    requires SameAbove(before, first, la, h) && SameRecsBut(before, first, la[h], p)
    requires f < |la[h - 1]| && Recs(first, la[h]) == SetKey(Summary(first, la[h - 1]), f, r.key)
    requires la[h][p] < |first| && i <= |first[la[h][p]].recs| && first[la[h][p]].recs != []
    requires f == |Recs(before, la[h][..p])| + if i == 0 then 0 else i - 1
    ensures y < |second| && second[y].recs != [] && la[h][p] < |second| && second[la[h][p]] == first[la[h][p]]
    ensures At(lb, h, p, la[h][p]) && lb[h] == la[h]
    ensures var k, c := second[y].recs[0].key, if i == 0 then 0 else i - 1;
      && Find(second[la[h][p]].recs, k).None? && Rank(second[la[h][p]].recs, k) == c + 1
      && Below(Recs(second, lb[h][..p]), k) && Above(Recs(second, lb[h][p + 1..]), k)
      && Summary(second, lb[h - 1]) == Ins(Recs(second, lb[h]), Rec(k, Child(y)))
  {
    hide Recs, Sorted, Rank, SameAbove, NodeOk, Added, SameRecsBut, LevelsOk, Agree, Below, Above, Find, Ins, Summary;
    var c := if i == 0 then 0 else i - 1;
    AddedAbove(before, first, second, la, lb, h, p, f, y, r);
    ChildSummary(first, second, la, lb, h, f, y, r);
    NewNeighbour(g, first, second, la, lb, h - 1, f, y, r);
    var R, r2 := Recs(second, lb[h]), Rec(second[y].recs[0].key, Child(y));
    var s := SetKey(Summary(first, la[h - 1]), f, r.key);
    assert Sorted(Insert(s, f + 1, r2)) by {
      SortedUp(g, second, lb, h - 1);
      SummarySorted(second, lb[h - 1]);
    }
    assert R == s;
    InsIs(R, f + 1, r2);
    PartsAt(g, before, second, la, lb, h, p);
    MiddleRank(Recs(second, lb[h][..p]), second[la[h][p]].recs, Recs(second, lb[h][p + 1..]), c, r2.key);
  }

  lemma NewNeighbour(g: Geometry, a: seq<Node>, b: seq<Node>, la: seq<seq<nat>>, lb: seq<seq<nat>>, h: nat, f: nat,
                     y: nat, r: Rec)
    requires Added(a, b, la, lb, h, f, y, r) && y != 0 && LevelsOk(g, b, lb)
    ensures 0 < y < |b| && b[y].recs != []
  {
    InsertAt(la[h], f + 1, y, f + 1);
    NodeAt(g, b, lb, h, f + 1);
  }

  lemma PartsAt(g: Geometry, before: seq<Node>, second: seq<Node>, la: seq<seq<nat>>, lb: seq<seq<nat>>, h: nat, p: nat)
    requires h < |la| && h < |lb| && lb[h] == la[h] && p < |la[h]| && LevelsOk(g, second, lb)
    requires SameRecsBut(before, second, la[h], p)
    ensures la[h][p] < |second|
    ensures Recs(second, lb[h]) == Recs(second, lb[h][..p]) + second[la[h][p]].recs + Recs(second, lb[h][p + 1..])
    ensures Recs(second, lb[h][..p]) == Recs(before, la[h][..p])
  {
    assert LevelOk(g, second, lb[h], h);
    RecsAt(second, lb[h], p);
    RecsSame(before, second, la[h][..p]) by {
      assert forall j :: 0 <= j < |la[h][..p]| ==> la[h][..p][j] == la[h][j];
    }
  }

  lemma BelowAdded(g: Geometry, before: seq<Node>, first: seq<Node>, second: seq<Node>, third: seq<Node>,
                   la: seq<seq<nat>>, lb: seq<seq<nat>>, lc: seq<seq<nat>>,
                   h: nat, p: nat, f: nat, y: nat, x: nat, r: Rec, r2: Rec)
    requires 0 < h < |la| && p < |la[h]| && Added(first, second, la, lb, h - 1, f, y, r)
    requires LevelsOk(g, second, lb) && LevelsOk(g, third, lc) && Agree(second, lb, h - 1)
    requires SameAbove(before, first, la, h) && SameRecsBut(before, first, la[h], p)
    requires Recs(first, la[0]) == Recs(before, la[0]) && lb[h] == la[h]
    requires la[h][p] < |second| && second[la[h][p]].recs != []
    requires FirstKey(second, la[h][p]) == Min(r.key, FirstKey(before, la[h][p]))
    requires Find(second[la[h][p]].recs, r2.key).None? && Rank(second[la[h][p]].recs, r2.key) > 0
    requires Below(Recs(second, lb[h][..p]), r2.key) && Above(Recs(second, lb[h][p + 1..]), r2.key)
    requires Summary(second, lb[h - 1]) == Ins(Recs(second, lb[h]), r2)
    requires lc == lb[h := Grown(lb[h], p, x)] && la[h][p] < |third| && third[la[h][p]].recs != []
      && (x != 0 ==> x < |third|)
    requires Ins(second[la[h][p]].recs, r2) == third[la[h][p]].recs + if x == 0 then [] else third[x].recs
    requires SameElsewhere(second, third, lb, h) && SameRecsBut(second, third, lb[h], p)
    ensures Agree(third, lc, h) && Added(before, third, la, lc, h, p, x, r)
    ensures Recs(third, lc[0]) == Recs(second, lb[0])
  {
    hide Recs, Rank, NodeOk, LevelsOk, InRange, Below, Above, Find, Ins, Summary, SameAbove;
    AddedAbove(before, first, second, la, lb, h, p, f, y, r);
    PlacedRecs(g, second, third, lb, h, p, x, r2);
    LowerSame(second, third, lb, lc, h);
    InsAfterFirst(second[la[h][p]].recs, r2);
    AboveStep(before, second, third, la, lb, h, p);
  }

  lemma LowerSame(a: seq<Node>, b: seq<Node>, la: seq<seq<nat>>, lb: seq<seq<nat>>, h: nat)
    requires 0 < h <= |la| && h <= |lb| && Agree(a, la, h - 1) && SameElsewhere(a, b, la, h)
    requires forall g :: 0 <= g < h ==> lb[g] == la[g]
    ensures Agree(b, lb, h - 1) && Summary(b, lb[h - 1]) == Summary(a, la[h - 1]) && Recs(b, lb[0]) == Recs(a, la[0])
  {
    forall q | 0 <= q < h
      ensures SameRecsBut(a, b, la[q], |la[q]|)
    {
    }
    AgreeBelow(a, b, la, lb, h - 1);
  }

  lemma InsAfterFirst(s: seq<Rec>, r: Rec)
    requires s != [] && Rank(s, r.key) > 0
    ensures Ins(s, r) != [] && Ins(s, r)[0] == s[0]
  {
  }

  lemma AboveStep(before: seq<Node>, second: seq<Node>, third: seq<Node>, la: seq<seq<nat>>, lb: seq<seq<nat>>, h: nat,
                  p: nat)
    requires h < |la| == |lb| && forall g :: h <= g < |la| ==> lb[g] == la[g]
    requires SameAbove(before, second, la, h) && SameRecsBut(before, second, la[h], p)
    requires SameElsewhere(second, third, lb, h) && SameRecsBut(second, third, lb[h], p)
    ensures SameAbove(before, third, la, h) && SameRecsBut(before, third, la[h], p)
  {
    forall q, j | h < q < |la| && 0 <= j < |la[q]|
      ensures la[q][j] < |before| && la[q][j] < |third| && third[la[q][j]] == before[la[q][j]]
    {
      assert lb[q] == la[q];
    }
  }

  /** A record placed into node p, which may have been split, is inserted into its level. */
  lemma PlacedRecs(g: Geometry, a: seq<Node>, b: seq<Node>, levels: seq<seq<nat>>, h: nat, p: nat, x: nat, r: Rec)
    requires LevelsOk(g, a, levels) && h < |levels| && p < |levels[h]|
    requires SameRecsBut(a, b, levels[h], p) && levels[h][p] < |a| && levels[h][p] < |b| && (x != 0 ==> x < |b|)
    requires Ins(a[levels[h][p]].recs, r) == b[levels[h][p]].recs + if x == 0 then [] else b[x].recs
    requires Below(Recs(a, levels[h][..p]), r.key) && Above(Recs(a, levels[h][p + 1..]), r.key)
    ensures Recs(b, Grown(levels[h], p, x)) == Ins(Recs(a, levels[h]), r)
  {
    var L := levels[h];
    assert LevelOk(g, a, L, h);
    assert InRange(b, L) by {
      forall j | 0 <= j < |L|
        ensures L[j] < |b|
      {
        if j != p {
          assert b[L[j]].recs == a[L[j]].recs;
        }
      }
    }
    RecsGrown(a, b, L, p, x, Ins(a[L[p]].recs, r));
    InsMiddle(Recs(a, L[..p]), a[L[p]].recs, Recs(a, L[p + 1..]), r);
  }

  lemma AddedTop(a: seq<Node>, b: seq<Node>, la: seq<seq<nat>>, lb: seq<seq<nat>>, root: nat, x: nat, r: Rec)
    requires la != [] && la[|la| - 1] == [root] && Added(a, b, la, lb, |la| - 1, 0, x, r)
    ensures |lb| == |la| && lb[|la| - 1] == (if x == 0 then [root] else [root, x])
      && Recs(b, lb[0]) == Ins(Recs(a, la[0]), r)
  {
  }

  lemma RootRoute(nodes: seq<Node>, root: nat, k: int)
    ensures Route(nodes, [root], 0, k)
  {
  }

  lemma UsedTop(levels: seq<seq<nat>>, x: nat)
    ensures Used(levels + [[x]]) == Used(levels) + {x}
  {
    var after := levels + [[x]];
    assert after[|levels|][0] == x;
    forall n
      ensures n in Used(after) <==> n in Used(levels) + {x}
    {
      if n != 0 && n in Used(levels) {
        var g, q :| 0 <= g < |levels| && 0 <= q < |levels[g]| && levels[g][q] == n;
        assert after[g][q] == n;
      }
      if n != 0 && n in Used(after) {
        var g, q :| 0 <= g < |after| && 0 <= q < |after[g]| && after[g][q] == n;
        assert g < |levels| ==> levels[g][q] == n;
      }
    }
  }

  /** A fresh node becomes the only node of a new top level. */
  lemma NewTop(g: Geometry, before: seq<Node>, grown: seq<Node>, after: seq<Node>, levels: seq<seq<nat>>, x: nat,
               bits: seq<bv8>, free: nat, first: nat, last: nat)
    requires LevelsOk(g, before, levels) && |before| <= |grown| && grown[..|before|] == before
    requires 0 < x < |grown| && x !in Used(levels) && MapOk(bits, |grown|, free, Used(levels) + {x})
    requires levels != [] ==> first == FirstOf(levels[0]) && last == LastOf(levels[0])
    requires |after| == |grown| && after == grown[x := after[x]]
    requires NodeOk(g, after[x], |levels|) && after[x].fLink == 0 && after[x].bLink == 0
    ensures ShapeOk(g, after, levels + [[x]], bits, free, if levels == [] then x else first,
                    if levels == [] then x else last)
    ensures SameElsewhere(before, after, levels, |levels|)
  {
    var lb := levels + [[x]];
    UsedTop(levels, x);
    forall f | 0 <= f < |levels|
      ensures LevelOk(g, after, lb[f], f)
      ensures forall j :: 0 <= j < |levels[f]| ==>
        levels[f][j] < |before| && after[levels[f][j]] == before[levels[f][j]]
    {
      assert LevelOk(g, before, levels[f], f);
      forall j | 0 <= j < |levels[f]|
        ensures after[levels[f][j]] == before[levels[f][j]]
      {
        assert levels[f][j] in Used(levels);
      }
      SameLevel(g, before, after, levels[f], f);
    }
    assert EntryOk(g, after, [x], |levels|, 0);
  }

  lemma TopAgrees(g: Geometry, before: seq<Node>, after: seq<Node>, levels: seq<seq<nat>>, x: nat, l: nat, r: nat)
    requires levels != [] && Agree(before, levels, |levels| - 1) && levels[|levels| - 1] == [l, r]
    requires SameElsewhere(before, after, levels, |levels|)
    requires l < |before| && r < |before| && before[l].recs != [] && before[r].recs != []
    requires x < |after|
      && after[x].recs == [Rec(before[l].recs[0].key, Child(l)), Rec(before[r].recs[0].key, Child(r))]
    ensures Agree(after, levels + [[x]], |levels|) && Recs(after, (levels + [[x]])[0]) == Recs(before, levels[0])
  {
    var lb := levels + [[x]];
    LowerSame(before, after, levels, lb, |levels|);
    RecsOne(after, x);
    assert levels[|levels| - 1][0] == l && levels[|levels| - 1][1] == r;
    assert Summary(after, [l, r]) == after[x].recs;
  }

  /** A level that may have lost its node p. */
  ghost function Shrunk(L: seq<nat>, p: nat, gone: bool): seq<nat>
    requires p < |L|
  {
    if gone then Remove(L, p) else L
  }

  lemma RemoveOk(g: Geometry, n: Node, h: nat, i: nat)
    requires NodeOk(g, n, h) && i < |n.recs| && |n.recs| > 1
    ensures NodeOk(g, n.(recs := Remove(n.recs, i)), h)
  {
    g.FreeShrinks(n.kind, |n.recs| - 1, |n.recs|);
    var t := Remove(n.recs, i);
    forall j | 0 <= j < |t|
      ensures t[j].data.Value? <==> h == 0
    {
      assert t[j] == if j < i then n.recs[j] else n.recs[j + 1];
    }
  }

  lemma InUse(g: Geometry, nodes: seq<Node>, levels: seq<seq<nat>>, h: nat, p: nat, bits: seq<bv8>, free: nat)
    requires LevelsOk(g, nodes, levels) && h < |levels| && p < |levels[h]| && MapOk(bits, |nodes|, free, Used(levels))
    ensures var n := levels[h][p];
      && n < |nodes| <= 8 * |bits| && Bit(bits, n)
      && nodes[n].fLink < |nodes| && nodes[n].bLink < |nodes|
  {
    assert LevelOk(g, nodes, levels[h], h);
    LinkAt(g, nodes, levels[h], h, p);
    assert levels[h][p] in Used(levels);
  }

  /** Dropping a node that has lost its last record keeps the shape. */
  lemma GoneShapeOk(g: Geometry, before: seq<Node>, after: seq<Node>, levels: seq<seq<nat>>, h: nat, p: nat,
                    bits: seq<bv8>, free: nat, first: nat, last: nat)
    requires ShapeOk(g, before, levels, bits, free, first, last) && h < |levels| && p < |levels[h]|
    requires var n := levels[h][p];
      && n < |before| <= 8 * |bits| && before[n].fLink < |before| && before[n].bLink < |before|
      && after == Unlink(before[n := before[n].(recs := [])], n)
    ensures var n := levels[h][p];
      && ShapeOk(g, after, levels[h := Remove(levels[h], p)], ClearBit(bits, n), free + 1,
                 if first == n then before[n].fLink else first, if last == n then before[n].bLink else last)
      && SameElsewhere(before, after, levels, h) && SameRecsBut(before, after, levels[h], p)
      && after[n].recs == []
  {
    var n, L, lb := levels[h][p], levels[h], levels[h := Remove(levels[h], p)];
    assert LevelOk(g, before, L, h);
    LinkAt(g, before, L, h, p);
    UnlinkKeepsLevel(g, before, L, h, p);
    var mid := Unlink(before, n);
    assert before[n].fLink != n && before[n].bLink != n;
    assert after == mid[n := mid[n].(recs := [])];
    forall j | 0 <= j < |L| && j != p
      ensures after[L[j]] == mid[L[j]] && after[L[j]].recs == before[L[j]].recs
    {
      UnlinkKeepsOthers(g, before, L, h, p, L[j]);
    }
    UnlinkKeepsOthers(g, before, L, h, p, n);
    forall j | 0 <= j < |lb[h]|
      ensures mid[lb[h][j]] == after[lb[h][j]]
    {
      RemoveAt(L, p, j);
    }
    SameLevel(g, mid, after, lb[h], h);
    GoneElsewhere(g, before, after, levels, h, p);
    UsedRemove(g, before, levels, h, p);
    GoneMap(bits, |before|, free, Used(levels), n);
    GoneEnds(g, before, levels, h, p);
  }

  lemma GoneElsewhere(g: Geometry, before: seq<Node>, after: seq<Node>, levels: seq<seq<nat>>, h: nat, p: nat)
    requires LevelsOk(g, before, levels) && h < |levels| && p < |levels[h]|
    requires var n := levels[h][p];
      && n < |before| && before[n].fLink < |before| && before[n].bLink < |before|
      && |after| == |before| && forall i :: 0 <= i < |after| && i != n ==> after[i] == Unlink(before, n)[i]
    ensures SameElsewhere(before, after, levels, h)
    ensures forall f :: 0 <= f < |levels| && f != h ==> LevelOk(g, after, levels[f], f)
  {
    assert LevelOk(g, before, levels[h], h);
    forall f, q | 0 <= f < |levels| && f != h && 0 <= q < |levels[f]|
      ensures levels[f][q] < |before| && after[levels[f][q]] == before[levels[f][q]]
    {
      assert LevelOk(g, before, levels[f], f);
      LevelsApart(g, before, levels, f, q);
      UnlinkKeepsOthers(g, before, levels[h], h, p, levels[f][q]);
    }
    forall f | 0 <= f < |levels| && f != h
      ensures LevelOk(g, after, levels[f], f)
    {
      assert LevelOk(g, before, levels[f], f);
      SameLevel(g, before, after, levels[f], f);
    }
  }

  lemma GoneMap(bits: seq<bv8>, total: nat, free: nat, used: set<nat>, n: nat)
    requires MapOk(bits, total, free, used) && n in used
    ensures n < 8 * |bits| && MapOk(ClearBit(bits, n), total, free + 1, used - {n})
  {
    UpdateCount(bits, n, total);
    forall m: nat | m < 8 * |bits|
      ensures Bit(ClearBit(bits, n), m) <==> m in used - {n}
    {
      UpdateBit(bits, n, m);
    }
  }

  lemma GoneEnds(g: Geometry, nodes: seq<Node>, levels: seq<seq<nat>>, h: nat, p: nat)
    requires LevelsOk(g, nodes, levels) && h < |levels| && p < |levels[h]|
    ensures var n, lb := levels[h][p], levels[h := Remove(levels[h], p)];
      && n < |nodes|
      && FirstOf(lb[0]) == (if FirstOf(levels[0]) == n then nodes[n].fLink else FirstOf(levels[0]))
      && LastOf(lb[0]) == (if LastOf(levels[0]) == n then nodes[n].bLink else LastOf(levels[0]))
  {
    var L := levels[h];
    assert LevelOk(g, nodes, L, h);
    LinkAt(g, nodes, L, h, p);
    LevelsApart(g, nodes, levels, h, p);
    if h == 0 {
      assert p > 0 ==> L[0] != L[p];
      assert p < |L| - 1 ==> L[|L| - 1] != L[p];
    } else if levels[0] != [] {
      assert levels[0][0] != L[p] && levels[0][|levels[0]| - 1] != L[p];
    }
  }

  /** The leaf that key k belongs to ends with a key not below k, so a scan of it stops. */
  ghost predicate Stops(nodes: seq<Node>, L: seq<nat>, k: int)
  {
    exists p :: 0 <= p < |L| && Route(nodes, L, p, k) && Reaches(nodes, L[p], k)
  }

  ghost predicate Reaches(nodes: seq<Node>, n: nat, k: int)
  {
    n < |nodes| && nodes[n].recs != [] && k <= nodes[n].recs[|nodes[n].recs| - 1].key
  }

  /** Every key of the tree meets that condition. */
  lemma PresentStops(g: Geometry, nodes: seq<Node>, L: seq<nat>, k: int)
    requires LevelOk(g, nodes, L, 0) && Sorted(Recs(nodes, L)) && Has(Recs(nodes, L), k)
    ensures Stops(nodes, L, k)
  {
    LevelNonempty(g, nodes, L, 0);
    var p := LeafOf(nodes, L, k);
    Between(nodes, L, p, k);
    var m := nodes[L[p]].recs;
    if !Has(m, k) {
      FindHas(m, k);
      AbsentMiddle(Recs(nodes, L[..p]), m, Recs(nodes, L[p + 1..]), k);
    }
    assert Reaches(nodes, L[p], k);
  }

  /** The one node of a level that a key not below its first key belongs to. */
  lemma {:induction false} LeafOf(nodes: seq<Node>, L: seq<nat>, k: int) returns (p: nat)
    requires Nonempty(nodes, L) && L != []
    ensures p < |L| && Route(nodes, L, p, k)
    decreases |L|
  {
    p := 0;
    while p + 1 < |L| && FirstKey(nodes, L[p + 1]) <= k
      invariant p < |L| && (p == 0 || FirstKey(nodes, L[p]) <= k)
    {
      p := p + 1;
    }
  }

  lemma RouteUnique(nodes: seq<Node>, L: seq<nat>, p: nat, q: nat, k: int)
    requires Nonempty(nodes, L) && Sorted(Recs(nodes, L)) && p < |L| && q < |L|
    requires Route(nodes, L, p, k) && Route(nodes, L, q, k)
    ensures p == q
  {
    SummarySorted(nodes, L);
    var s := Summary(nodes, L);
    assert forall j :: 0 <= j < |L| ==> s[j].key == FirstKey(nodes, L[j]);
    assert p + 1 < |L| ==> k < s[p + 1].key;
    assert q + 1 < |L| ==> k < s[q + 1].key;
  }

  /**
   What removing key k below node p of level h does: this level and lower ones change, node p may
   vanish, its first key changes only if it was k, and the leaves lose exactly k.
   */
  ghost predicate Removed(a: seq<Node>, b: seq<Node>, la: seq<seq<nat>>, lb: seq<seq<nat>>, h: nat, p: nat, gone: bool,
                          k: int)
  {
    && h < |la| == |lb| && p < |la[h]|
    && (forall g :: h < g < |la| ==> lb[g] == la[g])
    && SameAbove(a, b, la, h)
    && lb[h] == Shrunk(la[h], p, gone)
    && SameRecsBut(a, b, la[h], p)
    && Recs(b, lb[0]) == Del(Recs(a, la[0]), k)
    && (gone ==> FirstKey(a, la[h][p]) == k)
    && (!gone && FirstKey(a, la[h][p]) != k ==> FirstKey(b, la[h][p]) == FirstKey(a, la[h][p]))
  }

  lemma LeafHit(nodes: seq<Node>, L: seq<nat>, p: nat, k: int)
    requires InRange(nodes, L) && Nonempty(nodes, L) && Sorted(Recs(nodes, L)) && p < |L| && Route(nodes, L, p, k)
    ensures Has(nodes[L[p]].recs, k) <==> Has(Recs(nodes, L), k)
  {
    Between(nodes, L, p, k);
    var A, m, B := Recs(nodes, L[..p]), nodes[L[p]].recs, Recs(nodes, L[p + 1..]);
    FindHas(m, k);
    if Has(m, k) {
      var i :| 0 <= i < |m| && m[i].key == k;
      assert (A + m + B)[|A| + i] == m[i];
    } else {
      AbsentMiddle(A, m, B, k);
    }
  }

  lemma LeafRemoved(g: Geometry, a: seq<Node>, b: seq<Node>, la: seq<seq<nat>>, lb: seq<seq<nat>>, p: nat, gone: bool,
                    k: int, i: nat)
    requires la != [] && p < |la[0]| && lb == la[0 := Shrunk(la[0], p, gone)]
    requires LevelsOk(g, a, la) && Sorted(Recs(a, la[0])) && Route(a, la[0], p, k)
    requires la[0][p] < |a| && i < |a[la[0][p]].recs| && a[la[0][p]].recs[i].key == k
    requires forall j :: 0 <= j < i ==> a[la[0][p]].recs[j].key < k
    requires la[0][p] < |b| && b[la[0][p]].recs == Remove(a[la[0][p]].recs, i) && (gone <==> |a[la[0][p]].recs| == 1)
    requires SameElsewhere(a, b, la, 0) && SameRecsBut(a, b, la[0], p)
    ensures Has(Recs(a, la[0]), k) && Removed(a, b, la, lb, 0, p, gone, k)
    ensures Sorted(Recs(b, lb[0])) && |Recs(b, lb[0])| == |Recs(a, la[0])| - 1
  {
    hide LevelsOk, NodeOk, Recs, Route, Del;
    var L, m := la[0], a[la[0][p]].recs;
    assert InRange(a, L) && Nonempty(a, L) by {
      LeavesNonempty(g, a, la);
    }
    Between(a, L, p, k);
    LeafHit(a, L, p, k);
    RankIs(m, k, i);
    LevelRewritten(g, a, b, la, 0, p, Remove(m, i), gone);
    DelMiddle(Recs(a, L[..p]), m, Recs(a, L[p + 1..]), k);
    DelIsRemove(m, k, i);
    DelLength(Recs(a, L), k);
    DropFirst(a, b, L[p], i, k);
    assert SameAbove(a, b, la, 0);
  }

  lemma LeavesNonempty(g: Geometry, nodes: seq<Node>, levels: seq<seq<nat>>)
    requires LevelsOk(g, nodes, levels) && levels != []
    ensures InRange(nodes, levels[0]) && Nonempty(nodes, levels[0])
  {
    LevelNonempty(g, nodes, levels[0], 0);
  }

  lemma DelIsRemove(s: seq<Rec>, k: int, i: nat)
    requires i < |s| && Rank(s, k) == i && s[i].key == k
    ensures Del(s, k) == Remove(s, i)
  {
  }

  lemma DelLength(s: seq<Rec>, k: int)
    requires Sorted(s) && Has(s, k)
    ensures Sorted(Del(s, k)) && |Del(s, k)| == |s| - 1
  {
    RankHas(s, k);
    DelKeepsSorted(s, k);
  }

  /** A scan that stops at a larger key without meeting k proves that k is absent. */
  lemma NotFound(g: Geometry, nodes: seq<Node>, levels: seq<seq<nat>>, h: nat, p: nat, k: int, i: nat)
    requires LevelsOk(g, nodes, levels) && h < |levels| && p < |levels[h]| && Agree(nodes, levels, h)
    requires Sorted(Recs(nodes, levels[0])) && Route(nodes, levels[h], p, k)
    requires levels[h][p] < |nodes| && i < |nodes[levels[h][p]].recs| && Scanned(nodes[levels[h][p]].recs, k, i)
    requires i == 0 || h == 0
    ensures !Has(Recs(nodes, levels[0]), k)
  {
    if i == 0 {
      ScanRoute(g, nodes, levels, h, p, k, 0);
      SmallerThanAll(g, nodes, levels, h, k);
    } else {
      SortedUp(g, nodes, levels, 0);
      LeafHit(nodes, levels[0], p, k);
      Between(nodes, levels[0], p, k);
      ScanRank(nodes[levels[0][p]].recs, k, i);
      FindHas(nodes[levels[0][p]].recs, k);
    }
  }

  lemma AgreeAtLeaves(nodes: seq<Node>, levels: seq<seq<nat>>)
    ensures Agree(nodes, levels, 0)
  {
  }

  lemma AgreeLess(nodes: seq<Node>, levels: seq<seq<nat>>, h: nat)
    requires Agree(nodes, levels, h) && h > 0
    ensures Agree(nodes, levels, h - 1)
  {
  }

  lemma RootOrNot(g: Geometry, nodes: seq<Node>, levels: seq<seq<nat>>, h: nat, p: nat, root: nat)
    requires LevelsOk(g, nodes, levels) && h < |levels| && p < |levels[h]| && levels[|levels| - 1] == [root]
    ensures levels[h][p] == root <==> h == |levels| - 1
  {
    LevelsApart(g, nodes, levels, |levels| - 1, 0);
  }

  lemma IsIndex(g: Geometry, nodes: seq<Node>, levels: seq<seq<nat>>, h: nat, p: nat, k: int, i: nat)
    requires LevelsOk(g, nodes, levels) && h < |levels| && p < |levels[h]| && Sorted(Recs(nodes, levels[0]))
    requires Route(nodes, levels[h], p, k) && Stops(nodes, levels[0], k) && levels[h][p] < |nodes|
    requires i <= |nodes[levels[h][p]].recs| && forall j :: 0 <= j < i ==> nodes[levels[h][p]].recs[j].key < k
    requires i < |nodes[levels[h][p]].recs| ==> h > 0
    ensures h > 0
  {
    if h == 0 {
      assert LevelOk(g, nodes, levels[0], 0);
      LevelNonempty(g, nodes, levels[0], 0);
      var q :| 0 <= q < |levels[0]| && Route(nodes, levels[0], q, k) && Reaches(nodes, levels[0][q], k);
      RouteUnique(nodes, levels[0], p, q, k);
    }
  }

  lemma KeysAfter(g: Geometry, nodes: seq<Node>, levels: seq<seq<nat>>, h: nat, p: nat, k: int, c: nat)
    requires LevelsOk(g, nodes, levels) && h < |levels| && p < |levels[h]| && Agree(nodes, levels, h)
    requires Sorted(Recs(nodes, levels[0])) && levels[h][p] < |nodes|
    requires c < |nodes[levels[h][p]].recs| && nodes[levels[h][p]].recs[c].key == k
    ensures c + 1 < |nodes[levels[h][p]].recs| ==> k < nodes[levels[h][p]].recs[c + 1].key
  {
    SortedUp(g, nodes, levels, h);
    RecsAt(nodes, levels[h], p);
    SortedParts(Recs(nodes, levels[h][..p]) + nodes[levels[h][p]].recs, Recs(nodes, levels[h][p + 1..]));
    SortedParts(Recs(nodes, levels[h][..p]), nodes[levels[h][p]].recs);
  }

  lemma SummaryShrunk(a: seq<Node>, b: seq<Node>, L: seq<nat>, p: nat)
    requires p < |L| && SameRecsBut(a, b, L, p)
    ensures p < |Summary(a, L)| && Summary(b, Remove(L, p)) == Remove(Summary(a, L), p)
  {
    var s, t := Remove(Summary(a, L), p), Summary(b, Remove(L, p));
    forall j | 0 <= j < |t|
      ensures t[j] == s[j]
    {
      RemoveAt(L, p, j);
    }
  }

  /** The summary of the child's level after a removal, and the untouched level above it. */
  ghost predicate ChildStep(second: seq<Node>, la: seq<seq<nat>>, lb: seq<seq<nat>>, h: nat, f: nat, childGone: bool,
                            S: seq<Rec>)
  {
    && 0 < h < |la| == |lb| && f < |la[h - 1]| && f < |S| && lb[h] == la[h]
    && Recs(second, lb[h]) == S
    && Summary(second, lb[h - 1]) == if childGone then Remove(S, f)
      else S[f := Rec(FirstKey(second, la[h - 1][f]), Child(la[h - 1][f]))]
  }

  lemma ChildRemoved(g: Geometry, a: seq<Node>, b: seq<Node>, la: seq<seq<nat>>, lb: seq<seq<nat>>, h: nat, p: nat,
                     f: nat, c: nat, childGone: bool, k: int)
    requires 0 < h < |la| && p < |la[h]| && f < |la[h - 1]| && Agree(a, la, h)
      && Removed(a, b, la, lb, h - 1, f, childGone, k)
    requires LevelsOk(g, a, la) && LevelsOk(g, b, lb) && f == |Recs(a, la[h][..p])| + c
    requires la[h][p] < |a| && c < |a[la[h][p]].recs|
    requires a[la[h][p]].recs[c].key == FirstKey(a, la[h - 1][f]) && a[la[h][p]].recs[c].data == Child(la[h - 1][f])
    ensures ChildStep(b, la, lb, h, f, childGone, Summary(a, la[h - 1]))
    ensures la[h][p] < |b| && b[la[h][p]] == a[la[h][p]] && At(lb, h, p, la[h][p])
    ensures f == |Recs(b, lb[h][..p])| + c
    ensures !childGone ==> At(lb, h - 1, f, la[h - 1][f]) && la[h - 1][f] < |b| && b[la[h - 1][f]].recs != []
    ensures childGone ==> FirstKey(a, la[h - 1][f]) == k
    ensures forall j :: 0 <= j < |la[h]| ==> la[h][j] < |a| && la[h][j] < |b| && b[la[h][j]] == a[la[h][j]]
  {
    hide NodeOk, Del, Sorted;
    assert forall j :: 0 <= j < |la[h]| ==> la[h][j] < |a| && la[h][j] < |b| && b[la[h][j]] == a[la[h][j]];
    RecsSame(a, b, la[h]);
    assert Recs(a, la[h]) == Summary(a, la[h - 1]);
    if childGone {
      SummaryShrunk(a, b, la[h - 1], f);
    } else {
      SummaryGrown(a, b, la[h - 1], f, 0);
      NodeAtNonempty(g, b, lb, h - 1, f);
    }
    assert SameRecsBut(a, b, la[h], |la[h]|);
    PartsAt(g, a, b, la, lb, h, p);
  }

  lemma NodeAtNonempty(g: Geometry, nodes: seq<Node>, levels: seq<seq<nat>>, h: nat, p: nat)
    requires LevelsOk(g, nodes, levels) && h < |levels| && p < |levels[h]|
    ensures levels[h][p] < |nodes| && nodes[levels[h][p]].recs != []
  {
    NodeAt(g, nodes, levels, h, p);
  }

  /** The records of level h when node p holds m afterwards, or has vanished with m empty. */
  lemma LevelRewritten(g: Geometry, a: seq<Node>, b: seq<Node>, levels: seq<seq<nat>>, h: nat, p: nat, m: seq<Rec>,
                       gone: bool)
    requires LevelsOk(g, a, levels) && h < |levels| && p < |levels[h]| && SameRecsBut(a, b, levels[h], p)
    requires levels[h][p] < |a| && levels[h][p] < |b| && b[levels[h][p]].recs == m && (gone ==> m == [])
    ensures Recs(a, levels[h]) == Recs(a, levels[h][..p]) + a[levels[h][p]].recs + Recs(a, levels[h][p + 1..])
    ensures Recs(b, Shrunk(levels[h], p, gone)) == Recs(a, levels[h][..p]) + m + Recs(a, levels[h][p + 1..])
  {
    var L := levels[h];
    assert LevelOk(g, a, L, h);
    assert InRange(b, L) by {
      forall j | 0 <= j < |L|
        ensures L[j] < |b|
      {
        if j != p {
          assert b[L[j]].recs == a[L[j]].recs;
        }
      }
    }
    RecsUpdate(a, b, L, p);
    if gone {
      RecsDrop(b, L, p);
    }
  }

  /** The levels above h and the other nodes of level h after a removal below node p. */
  lemma RemovedAbove(a: seq<Node>, b: seq<Node>, c3: seq<Node>, la: seq<seq<nat>>, lb: seq<seq<nat>>, h: nat, p: nat,
                     f: nat, childGone: bool, k: int)
    requires 0 < h < |la| && p < |la[h]| && Removed(a, b, la, lb, h - 1, f, childGone, k)
    requires SameElsewhere(b, c3, lb, h) && SameRecsBut(b, c3, lb[h], p)
    ensures |lb| == |la| && forall g :: h <= g < |la| ==> lb[g] == la[g]
    ensures SameAbove(a, c3, la, h) && SameRecsBut(a, c3, la[h], p)
    ensures Recs(b, lb[0]) == Del(Recs(a, la[0]), k)
  {
    forall q, j | h < q < |la| && 0 <= j < |la[q]|
      ensures la[q][j] < |a| && la[q][j] < |c3| && c3[la[q][j]] == a[la[q][j]]
    {
      assert lb[q] == la[q];
    }
    forall j | 0 <= j < |la[h]| && j != p
      ensures la[h][j] < |a| && la[h][j] < |c3| && c3[la[h][j]].recs == a[la[h][j]].recs
    {
      assert lb[h][j] == la[h][j];
    }
  }

  lemma RemoveMiddle(a: seq<Rec>, m: seq<Rec>, b: seq<Rec>, c: nat)
    requires c < |m|
    ensures Remove(a + m + b, |a| + c) == a + Remove(m, c) + b
  {
    CutMiddle(a, m, b, c);
    CutMiddle(a, m, b, c + 1);
    Assoc4(a, m[..c], m[c + 1..], b);
  }

  lemma BelowDropped(g: Geometry, a: seq<Node>, b: seq<Node>, c3: seq<Node>, la: seq<seq<nat>>, lb: seq<seq<nat>>,
                     lc: seq<seq<nat>>,
                     h: nat, p: nat, f: nat, c: nat, gone: bool, k: int)
    requires 0 < h < |la| && p < |la[h]| && Removed(a, b, la, lb, h - 1, f, true, k)
    requires LevelsOk(g, b, lb) && Agree(b, lb, h - 1) && ChildStep(b, la, lb, h, f, true, Summary(a, la[h - 1]))
    requires la[h][p] < |a| && la[h][p] < |b| && b[la[h][p]] == a[la[h][p]] && f == |Recs(b, lb[h][..p])| + c
    requires c < |a[la[h][p]].recs| && a[la[h][p]].recs[c].key == k
    requires lc == lb[h := Shrunk(lb[h], p, gone)] && (gone <==> |b[la[h][p]].recs| == 1)
    requires la[h][p] < |c3| && c3[la[h][p]].recs == Remove(b[la[h][p]].recs, c)
    requires SameElsewhere(b, c3, lb, h) && SameRecsBut(b, c3, lb[h], p)
    ensures Agree(c3, lc, h) && Removed(a, c3, la, lc, h, p, gone, k) && Recs(c3, lc[0]) == Recs(b, lb[0])
  {
    hide Recs, Summary, NodeOk, Del, LevelsOk;
    var m := b[la[h][p]].recs;
    RemovedAbove(a, b, c3, la, lb, h, p, f, true, k);
    LevelRewritten(g, b, c3, lb, h, p, Remove(m, c), gone);
    RemoveMiddle(Recs(b, lb[h][..p]), m, Recs(b, lb[h][p + 1..]), c);
    LowerSame(b, c3, lb, lc, h);
    DropFirst(a, c3, la[h][p], c, k);
  }

  lemma DropFirst(a: seq<Node>, b: seq<Node>, n: nat, c: nat, k: int)
    requires n < |a| && n < |b| && c < |a[n].recs| && a[n].recs[c].key == k && b[n].recs == Remove(a[n].recs, c)
    ensures |a[n].recs| == 1 ==> FirstKey(a, n) == k
    ensures |a[n].recs| > 1 && FirstKey(a, n) != k ==> FirstKey(b, n) == FirstKey(a, n)
  {
  }

  lemma Rekeyed(g: Geometry, nodes: seq<Node>, levels: seq<seq<nat>>, h: nat, p: nat, i: nat, recs: seq<Rec>,
                bits: seq<bv8>, free: nat, first: nat, last: nat)
    requires ShapeOk(g, nodes, levels, bits, free, first, last) && 0 < h < |levels| && p < |levels[h]|
    requires levels[h][p] < |nodes| && i < |nodes[levels[h][p]].recs|
    requires |recs| == |nodes[levels[h][p]].recs|
      && recs == nodes[levels[h][p]].recs[i := recs[i]] && recs[i].data.Child?
    ensures var after := nodes[levels[h][p] := nodes[levels[h][p]].(recs := recs)];
      && ShapeOk(g, after, levels, bits, free, first, last)
      && SameElsewhere(nodes, after, levels, h)
      && SameRecsBut(nodes, after, levels[h], p)
  {
    NodeAt(g, nodes, levels, h, p);
    assert forall j :: 0 <= j < |recs| ==> recs[j] == if j == i then recs[i] else nodes[levels[h][p]].recs[j];
    RewriteShapeOk(g, nodes, levels, h, p, recs, bits, free, first, last);
  }

  lemma BelowRekeyed(g: Geometry, a: seq<Node>, b: seq<Node>, c3: seq<Node>, la: seq<seq<nat>>, lb: seq<seq<nat>>,
                     h: nat, p: nat, f: nat, c: nat, k: int)
    requires 0 < h < |la| && p < |la[h]| && Removed(a, b, la, lb, h - 1, f, false, k)
    requires LevelsOk(g, b, lb) && Agree(b, lb, h - 1) && ChildStep(b, la, lb, h, f, false, Summary(a, la[h - 1]))
    requires la[h][p] < |a| && la[h][p] < |b| && b[la[h][p]] == a[la[h][p]] && f == |Recs(b, lb[h][..p])| + c
    requires c < |a[la[h][p]].recs| && a[la[h][p]].recs[c].key == k && f < |la[h - 1]|
    requires la[h][p] < |c3|
    requires c3[la[h][p]].recs == a[la[h][p]].recs[c := Rec(FirstKey(b, la[h - 1][f]), Child(la[h - 1][f]))]
    requires SameElsewhere(b, c3, lb, h) && SameRecsBut(b, c3, lb[h], p)
    ensures Agree(c3, lb, h) && Removed(a, c3, la, lb, h, p, false, k) && Recs(c3, lb[0]) == Recs(b, lb[0])
  {
    hide Recs, Summary, NodeOk, Del, LevelsOk;
    var m, r := b[la[h][p]].recs, Rec(FirstKey(b, la[h - 1][f]), Child(la[h - 1][f]));
    RemovedAbove(a, b, c3, la, lb, h, p, f, false, k);
    LevelRewritten(g, b, c3, lb, h, p, m[c := r], false);
    UpdateMiddle(Recs(b, lb[h][..p]), m, Recs(b, lb[h][p + 1..]), c, r);
    LowerSame(b, c3, lb, lb, h);
    RekeyFirst(a, c3, la[h][p], c, r, k);
  }

  lemma RekeyFirst(a: seq<Node>, b: seq<Node>, n: nat, c: nat, r: Rec, k: int)
    requires n < |a| && n < |b| && c < |a[n].recs| && a[n].recs[c].key == k && b[n].recs == a[n].recs[c := r]
    ensures FirstKey(a, n) != k ==> FirstKey(b, n) == FirstKey(a, n)
  {
  }

  lemma UpdateMiddle(a: seq<Rec>, m: seq<Rec>, b: seq<Rec>, c: nat, r: Rec)
    requires c < |m|
    ensures (a + m + b)[|a| + c := r] == a + m[c := r] + b
  {
  }

  lemma BelowSteady(g: Geometry, a: seq<Node>, b: seq<Node>, la: seq<seq<nat>>, lb: seq<seq<nat>>,
                    h: nat, p: nat, f: nat, c: nat, k: int)
    requires 0 < h < |la| && p < |la[h]| && Removed(a, b, la, lb, h - 1, f, false, k)
    requires LevelsOk(g, b, lb) && Agree(b, lb, h - 1) && ChildStep(b, la, lb, h, f, false, Summary(a, la[h - 1]))
    requires la[h][p] < |a| && la[h][p] < |b| && b[la[h][p]] == a[la[h][p]] && f < |la[h - 1]|
    requires FirstKey(a, la[h - 1][f]) != k
    ensures Agree(b, lb, h) && Removed(a, b, la, lb, h, p, false, k)
  {
    hide Recs, NodeOk, Del, LevelsOk;
    assert Summary(a, la[h - 1])[f] == Rec(FirstKey(a, la[h - 1][f]), Child(la[h - 1][f]));
    assert lb[h - 1] == la[h - 1];
    forall j | 0 <= j < |la[h]| && j != p
      ensures la[h][j] < |a| && la[h][j] < |b| && b[la[h][j]].recs == a[la[h][j]].recs
    {
    }
    assert SameAbove(a, b, la, h);
  }

  lemma AddAsMap(s: seq<Rec>, r: Rec)
    requires Sorted(s)
    ensures r.key in AsMap(s) <==> Has(s, r.key)
    ensures !Has(s, r.key) ==> AsMap(Ins(s, r)) == AsMap(s)[r.key := r.data]
  {
    FindHas(s, r.key);
    MapIsFind(s, r.key);
    if !Has(s, r.key) {
      InsAsMap(s, r);
    }
  }

  lemma AbsentDel(s: seq<Rec>, k: int)
    requires Sorted(s)
    ensures !Has(s, k) ==> Del(s, k) == s
  {
    RankHas(s, k);
  }

  /** When the top level is empty, so are all levels. */
  lemma {:induction false} AllEmpty(nodes: seq<Node>, levels: seq<seq<nat>>, h: nat)
    requires h < |levels| && Agree(nodes, levels, h) && levels[h] == []
    ensures forall g :: 0 <= g <= h ==> levels[g] == []
  {
    if h > 0 {
      assert Recs(nodes, levels[h]) == Summary(nodes, levels[h - 1]);
      AllEmpty(nodes, levels, h - 1);
    }
  }

  lemma EmptyShape(g: Geometry, nodes: seq<Node>, levels: seq<seq<nat>>, bits: seq<bv8>, free: nat, first: nat,
                   last: nat)
    requires ShapeOk(g, nodes, levels, bits, free, first, last) && levels != []
    requires forall h :: 0 <= h < |levels| ==> levels[h] == []
    ensures ShapeOk(g, nodes, [], bits, free, 0, 0) && first == 0 && last == 0 && Recs(nodes, levels[0]) == []
  {
    assert levels[0] == [];
    assert Used(levels) == Used([]);
  }

  lemma NoLevels(g: Geometry, nodes: seq<Node>, levels: seq<seq<nat>>, bits: seq<bv8>, free: nat, first: nat, last: nat)
    requires ShapeOk(g, nodes, levels, bits, free, first, last) && levels != []
    requires Agree(nodes, levels, |levels| - 1) && levels[|levels| - 1] == []
    ensures ShapeOk(g, nodes, [], bits, free, 0, 0) && first == 0 && last == 0 && Recs(nodes, levels[0]) == []
  {
    AllEmpty(nodes, levels, |levels| - 1);
    EmptyShape(g, nodes, levels, bits, free, first, last);
  }

  lemma RemovedTop(a: seq<Node>, b: seq<Node>, la: seq<seq<nat>>, lb: seq<seq<nat>>, root: nat, gone: bool, k: int)
    requires la != [] && la[|la| - 1] == [root] && Removed(a, b, la, lb, |la| - 1, 0, gone, k)
    ensures |lb| == |la| && lb[|la| - 1] == (if gone then [] else [root]) && Recs(b, lb[0]) == Del(Recs(a, la[0]), k)
  {
  }

  /** Record i of leaf n, counted through the whole level, is where k stands among its records. */
  ghost predicate AtRank(nodes: seq<Node>, L: seq<nat>, n: nat, i: nat, k: int)
  {
    && n < |nodes| && i <= |nodes[n].recs|
    && exists p :: 0 <= p < |L| && L[p] == n && |Recs(nodes, L[..p])| + i == Rank(Recs(nodes, L), k)
  }

  /** The data of the greatest key below k. */
  ghost function Predecessor(s: seq<Rec>, k: int): Option<Payload>
  {
    if Rank(s, k) == 0 then None else Some(s[Rank(s, k) - 1].data)
  }

  lemma FoundHere(g: Geometry, nodes: seq<Node>, levels: seq<seq<nat>>, p: nat, k: int, i: nat)
    requires LevelsOk(g, nodes, levels) && levels != [] && p < |levels[0]| && Sorted(Recs(nodes, levels[0]))
    requires Route(nodes, levels[0], p, k) && levels[0][p] < |nodes| && i < |nodes[levels[0][p]].recs|
    requires nodes[levels[0][p]].recs[i].key == k && forall j :: 0 <= j < i ==> nodes[levels[0][p]].recs[j].key < k
    ensures Find(Recs(nodes, levels[0]), k) == Some(nodes[levels[0][p]].recs[i].data)
    ensures |Recs(nodes, levels[0][..p])| + i == Rank(Recs(nodes, levels[0]), k)
  {
    LeavesNonempty(g, nodes, levels);
    Between(nodes, levels[0], p, k);
    var A, m, B := Recs(nodes, levels[0][..p]), nodes[levels[0][p]].recs, Recs(nodes, levels[0][p + 1..]);
    RankIs(m, k, i);
    RankMiddle(A, m, B, k);
    assert (A + m + B)[|A| + i] == m[i];
  }

  lemma NotHere(g: Geometry, nodes: seq<Node>, levels: seq<seq<nat>>, p: nat, k: int, i: nat)
    requires LevelsOk(g, nodes, levels) && levels != [] && p < |levels[0]| && Sorted(Recs(nodes, levels[0]))
    requires Route(nodes, levels[0], p, k) && levels[0][p] < |nodes| && 0 < i && Scanned(nodes[levels[0][p]].recs, k, i)
    ensures Find(Recs(nodes, levels[0]), k) == None
    ensures Predecessor(Recs(nodes, levels[0]), k) == Some(nodes[levels[0][p]].recs[i - 1].data)
    ensures |Recs(nodes, levels[0][..p])| + i == Rank(Recs(nodes, levels[0]), k)
  {
    LeavesNonempty(g, nodes, levels);
    Between(nodes, levels[0], p, k);
    var A, m, B := Recs(nodes, levels[0][..p]), nodes[levels[0][p]].recs, Recs(nodes, levels[0][p + 1..]);
    ScanRank(m, k, i);
    RankMiddle(A, m, B, k);
    AbsentMiddle(A, m, B, k);
    FindHas(A + m + B, k);
    assert (A + m + B)[|A| + i - 1] == m[i - 1];
  }

  lemma NoPredecessor(g: Geometry, nodes: seq<Node>, levels: seq<seq<nat>>, h: nat, k: int)
    requires LevelsOk(g, nodes, levels) && h < |levels| && Agree(nodes, levels, h)
    requires Sorted(Recs(nodes, levels[0])) && levels[h] != [] && k < FirstKey(nodes, levels[h][0])
    ensures Predecessor(Recs(nodes, levels[0]), k) == None && Find(Recs(nodes, levels[0]), k) == None
    decreases h
  {
    SortedUp(g, nodes, levels, h);
    RecsHead(nodes, levels[h]);
    if h > 0 {
      assert Recs(nodes, levels[h]) == Summary(nodes, levels[h - 1]);
      NoPredecessor(g, nodes, levels, h - 1, k);
    } else {
      RankIs(Recs(nodes, levels[0]), k, 0);
    }
  }
}
