/**
 The shape of a B-tree file: what every node of a level looks like, which node numbers
 are in use, and why splitting and unlinking a node keep both.
 */
module TreeShape {
  import opened NodeLists
  import opened Options
  import opened SortedRecords
  import opened Bitmap

  /** Node size in bytes, key size with its length word, and leaf data size; all fixed per tree. */
  datatype Geometry = Geometry(nodeSize: nat, keySize: nat, dataLen: nat) {

    /** The size of a node's record: key and leaf data, or key and 32-bit node pointer. */
    function RecSize(kind: Kind): nat {
      keySize + (if kind == Leaf then dataLen else 4)
    }

    /** Bytes between the last record and the offset table of a node with n records. */
    function Free(kind: Kind, n: nat): int {
      nodeSize - 16 - n * (RecSize(kind) + 2)
    }

    /** Nodes hold at least two records of either kind, and the header node a map record. */
    predicate Valid() {
      nodeSize > 256 && Free(Leaf, 2) >= 0 && Free(Index, 2) >= 0
    }

    lemma FreeShrinks(kind: Kind, m: nat, n: nat)
      requires m <= n
      ensures Free(kind, m) >= Free(kind, n)
      ensures Free(kind, m + 1) == Free(kind, m) - (RecSize(kind) + 2)
    {
      Times(m, n, RecSize(kind) + 2);
    }
  }

  lemma Times(m: nat, n: nat, c: nat)
    requires m <= n
    ensures m * c <= n * c && (m + 1) * c == m * c + c
  {
    assert n * c == m * c + (n - m) * c;
  }

  /** A node of height h + 1: the kind its height calls for, at least one record, no overflow. */
  ghost predicate NodeOk(g: Geometry, n: Node, h: nat)
  {
    && n.kind == (if h == 0 then Leaf else Index)
    && n.height == h + 1
    && n.recs != []
    && g.Free(n.kind, |n.recs|) >= 0
    && forall i :: 0 <= i < |n.recs| ==> (n.recs[i].data.Value? <==> h == 0)
  }

  ghost predicate EntryOk(g: Geometry, nodes: seq<Node>, L: seq<nat>, h: nat, p: nat)
    requires p < |L|
  {
    0 < L[p] < |nodes| && NodeOk(g, nodes[L[p]], h) && LinkedAt(nodes[L[p]], L, p)
  }

  ghost predicate LevelOk(g: Geometry, nodes: seq<Node>, L: seq<nat>, h: nat)
  {
    && Distinct(L)
    && (forall p :: 0 <= p < |L| ==> 0 < L[p] < |nodes|)
    && (forall p :: 0 <= p < |L| ==> EntryOk(g, nodes, L, h, p))
  }

  ghost predicate LevelsOk(g: Geometry, nodes: seq<Node>, levels: seq<seq<nat>>)
  {
    forall h :: 0 <= h < |levels| ==> LevelOk(g, nodes, levels[h], h)
  }

  /** The node numbers in use: the header node and every node of every level. */
  ghost function Used(levels: seq<seq<nat>>): set<nat>
  {
    {0} + set h, p | 0 <= h < |levels| && 0 <= p < |levels[h]| :: levels[h][p]
  }

  /** The header map record marks exactly the nodes in use and freeNodes counts its clear bits. */
  ghost predicate MapOk(bits: seq<bv8>, total: nat, free: nat, used: set<nat>)
  {
    && 0 < total <= 8 * |bits|
    && free == ClearCount(bits, total)
    && (forall n: nat :: n < 8 * |bits| ==> (Bit(bits, n) <==> n in used))
    && (forall n :: n in used ==> n < total)
  }

  lemma UsedInsert(levels: seq<seq<nat>>, h: nat, p: nat, x: nat)
    requires h < |levels| && p <= |levels[h]|
    ensures Used(levels[h := Insert(levels[h], p, x)]) == Used(levels) + {x}
  {
    var after := levels[h := Insert(levels[h], p, x)];
    assert after[h][p] == x;
    forall n | n in Used(levels)
      ensures n in Used(after)
    {
      if n != 0 {
        var g, q :| 0 <= g < |levels| && 0 <= q < |levels[g]| && levels[g][q] == n;
        assert after[g][if g == h && q >= p then q + 1 else q] == n;
      }
    }
    forall n | n in Used(after)
      ensures n in Used(levels) + {x}
    {
      if n != 0 {
        var g, q :| 0 <= g < |after| && 0 <= q < |after[g]| && after[g][q] == n;
        assert n == x || n == levels[g][if g == h && q > p then q - 1 else q];
      }
    }
  }

  /** Node numbers of different levels differ, because the nodes' heights do. */
  lemma LevelsApart(g: Geometry, nodes: seq<Node>, levels: seq<seq<nat>>, h: nat, p: nat)
    requires LevelsOk(g, nodes, levels) && h < |levels| && p < |levels[h]|
    ensures forall f, q :: 0 <= f < |levels| && 0 <= q < |levels[f]| && (f != h || q != p) ==>
      levels[f][q] != levels[h][p]
  {
    forall f, q | 0 <= f < |levels| && 0 <= q < |levels[f]| && (f != h || q != p)
      ensures levels[f][q] != levels[h][p]
    {
      assert LevelOk(g, nodes, levels[f], f) && LevelOk(g, nodes, levels[h], h);
      assert EntryOk(g, nodes, levels[f], f, q) && EntryOk(g, nodes, levels[h], h, p);
    }
  }

  lemma UsedRemove(g: Geometry, nodes: seq<Node>, levels: seq<seq<nat>>, h: nat, p: nat)
    requires LevelsOk(g, nodes, levels) && h < |levels| && p < |levels[h]|
    ensures Used(levels[h := Remove(levels[h], p)]) == Used(levels) - {levels[h][p]}
  {
    LevelsApart(g, nodes, levels, h, p);
    var x, after := levels[h][p], levels[h := Remove(levels[h], p)];
    assert x != 0 by {
      assert LevelOk(g, nodes, levels[h], h);
    }
    UsedInsert(after, h, p, x);
    assert after[h := Insert(after[h], p, x)] == levels by {
      assert Insert(Remove(levels[h], p), p, x) == levels[h];
    }
    forall f, q | 0 <= f < |after| && 0 <= q < |after[f]|
      ensures after[f][q] != x
    {
      assert after[f][q] == levels[f][if f == h && q >= p then q + 1 else q];
    }
  }

  /** The node array after node n hands `right` to the new node x and keeps `left`. */
  function Split(nodes: seq<Node>, n: nat, x: nat, left: seq<Rec>, right: seq<Rec>): seq<Node>
    requires n < |nodes| && x < |nodes| && nodes[n].fLink < |nodes|
  {
    var d := nodes[n];
    var b := nodes[x := Node(d.kind, d.height, d.fLink, n, right)];
    var c := if d.fLink != 0 then b[d.fLink := b[d.fLink].(bLink := x)] else b;
    c[n := d.(fLink := x, recs := left)]
  }

  /** The node array after node n is taken out of its sibling list. */
  function Unlink(nodes: seq<Node>, n: nat): seq<Node>
    requires n < |nodes| && nodes[n].fLink < |nodes| && nodes[n].bLink < |nodes|
  {
    var d := nodes[n];
    var b := if d.bLink != 0 then nodes[d.bLink := nodes[d.bLink].(fLink := d.fLink)] else nodes;
    if d.fLink != 0 then b[d.fLink := b[d.fLink].(bLink := d.bLink)] else b
  }

  lemma LinkAt(g: Geometry, nodes: seq<Node>, L: seq<nat>, h: nat, p: nat)
    requires LevelOk(g, nodes, L, h) && p < |L|
    ensures EntryOk(g, nodes, L, h, p)
    ensures nodes[L[p]].bLink < |nodes| && nodes[L[p]].fLink < |nodes|
    ensures nodes[L[p]].bLink != 0 <==> p > 0
    ensures nodes[L[p]].fLink != 0 <==> p + 1 < |L|
  {
    assert EntryOk(g, nodes, L, h, p);
    assert p > 0 ==> 0 < L[p - 1] < |nodes|;
    assert p + 1 < |L| ==> 0 < L[p + 1] < |nodes|;
  }

  lemma InsertAt<T>(s: seq<T>, i: nat, x: T, j: nat)
    requires i <= |s| && j <= |s|
    ensures Insert(s, i, x)[j] == if j < i then s[j] else if j == i then x else s[j - 1]
  {
  }

  lemma RemoveAt<T>(s: seq<T>, i: nat, j: nat)
    requires i < |s| && j + 1 < |s|
    ensures Remove(s, i)[j] == if j < i then s[j] else s[j + 1]
  {
  }

  lemma InsertDistinct(L: seq<nat>, p: nat, x: nat)
    requires Distinct(L) && p <= |L| && x !in L
    ensures Distinct(Insert(L, p, x))
  {
    forall i, j | 0 <= i < j <= |L|
      ensures Insert(L, p, x)[i] != Insert(L, p, x)[j]
    {
      InsertAt(L, p, x, i);
      InsertAt(L, p, x, j);
    }
  }

  lemma RemoveDistinct(L: seq<nat>, p: nat)
    requires Distinct(L) && p < |L|
    ensures Distinct(Remove(L, p))
  {
    forall i, j | 0 <= i < j < |L| - 1
      ensures Remove(L, p)[i] != Remove(L, p)[j]
    {
      RemoveAt(L, p, i);
      RemoveAt(L, p, j);
    }
  }

  lemma SplitKeepsLevel(g: Geometry, nodes: seq<Node>, L: seq<nat>, h: nat, p: nat, x: nat, left: seq<Rec>,
                        right: seq<Rec>)
    requires LevelOk(g, nodes, L, h) && p < |L| && 0 < x < |nodes| && x !in L
    requires nodes[L[p]].recs == left + right && left != [] && right != []
    ensures nodes[L[p]].fLink < |nodes|
    ensures LevelOk(g, Split(nodes, L[p], x, left, right), Insert(L, p + 1, x), h)
  {
    LinkAt(g, nodes, L, h, p);
    HalvesOk(g, nodes[L[p]], h, left, right);
    InsertDistinct(L, p + 1, x);
    var b, M := Split(nodes, L[p], x, left, right), Insert(L, p + 1, x);
    forall q | 0 <= q < |M|
      ensures EntryOk(g, b, M, h, q)
    {
      SplitAt(g, nodes, L, h, p, x, left, right, q);
    }
  }

  lemma SplitKeepsOthers(g: Geometry, nodes: seq<Node>, L: seq<nat>, h: nat, p: nat, x: nat, left: seq<Rec>,
                         right: seq<Rec>, i: nat)
    requires LevelOk(g, nodes, L, h) && p < |L| && 0 < x < |nodes| && nodes[L[p]].fLink < |nodes| && i < |nodes|
      && i != x
    ensures i != L[p] ==> Split(nodes, L[p], x, left, right)[i].recs == nodes[i].recs
    ensures i !in L ==> Split(nodes, L[p], x, left, right)[i] == nodes[i]
  {
    LinkAt(g, nodes, L, h, p);
  }

  lemma HalvesOk(g: Geometry, d: Node, h: nat, left: seq<Rec>, right: seq<Rec>)
    requires NodeOk(g, d, h) && d.recs == left + right && left != [] && right != []
    ensures NodeOk(g, d.(recs := left), h) && NodeOk(g, d.(recs := right), h)
  {
    g.FreeShrinks(d.kind, |left|, |d.recs|);
    g.FreeShrinks(d.kind, |right|, |d.recs|);
    assert forall i :: 0 <= i < |left| ==> left[i] == d.recs[i];
    assert forall i :: 0 <= i < |right| ==> right[i] == d.recs[|left| + i];
  }

  lemma SplitAt(g: Geometry, nodes: seq<Node>, L: seq<nat>, h: nat, p: nat, x: nat, left: seq<Rec>, right: seq<Rec>,
                q: nat)
    requires LevelOk(g, nodes, L, h) && p < |L| && 0 < x < |nodes| && x !in L && q <= |L|
    requires nodes[L[p]].fLink < |nodes|
    requires NodeOk(g, nodes[L[p]].(recs := left), h) && NodeOk(g, nodes[L[p]].(recs := right), h)
    ensures EntryOk(g, Split(nodes, L[p], x, left, right), Insert(L, p + 1, x), h, q)
  {
    LinkAt(g, nodes, L, h, p);
    InsertAt(L, p + 1, x, q);
    if q > 0 {
      InsertAt(L, p + 1, x, q - 1);
    }
    if q < |L| {
      InsertAt(L, p + 1, x, q + 1);
    }
    var b := Split(nodes, L[p], x, left, right);
    if q == p + 1 {
      assert b[x] == Node(nodes[L[p]].kind, nodes[L[p]].height, nodes[L[p]].fLink, L[p], right);
    } else {
      var j := if q <= p then q else q - 1;
      LinkAt(g, nodes, L, h, j);
      assert j != p ==> L[j] != L[p];
      assert p + 1 < |L| && j != p + 1 ==> L[j] != L[p + 1];
      assert b[L[j]] == if j == p then nodes[L[p]].(fLink := x, recs := left)
                        else if j == p + 1 then nodes[L[j]].(bLink := x)
                        else nodes[L[j]];
    }
  }

  lemma UnlinkKeepsLevel(g: Geometry, nodes: seq<Node>, L: seq<nat>, h: nat, p: nat)
    requires LevelOk(g, nodes, L, h) && p < |L|
    ensures nodes[L[p]].fLink < |nodes| && nodes[L[p]].bLink < |nodes|
    ensures LevelOk(g, Unlink(nodes, L[p]), Remove(L, p), h)
  {
    LinkAt(g, nodes, L, h, p);
    RemoveDistinct(L, p);
    forall q | 0 <= q < |L| - 1
      ensures EntryOk(g, Unlink(nodes, L[p]), Remove(L, p), h, q)
    {
      UnlinkAt(g, nodes, L, h, p, q);
    }
  }

  lemma UnlinkKeepsOthers(g: Geometry, nodes: seq<Node>, L: seq<nat>, h: nat, p: nat, i: nat)
    requires LevelOk(g, nodes, L, h) && p < |L| && i < |nodes|
    requires nodes[L[p]].fLink < |nodes| && nodes[L[p]].bLink < |nodes|
    ensures Unlink(nodes, L[p])[i].recs == nodes[i].recs
    ensures i !in L || i == L[p] ==> Unlink(nodes, L[p])[i] == nodes[i]
  {
    LinkAt(g, nodes, L, h, p);
  }

  lemma UnlinkAt(g: Geometry, nodes: seq<Node>, L: seq<nat>, h: nat, p: nat, q: nat)
    requires LevelOk(g, nodes, L, h) && p < |L| && q + 1 < |L|
    requires nodes[L[p]].fLink < |nodes| && nodes[L[p]].bLink < |nodes|
    ensures EntryOk(g, Unlink(nodes, L[p]), Remove(L, p), h, q)
  {
    var j := if q < p then q else q + 1;
    LinkAt(g, nodes, L, h, p);
    LinkAt(g, nodes, L, h, j);
    RemoveAt(L, p, q);
    if q > 0 {
      RemoveAt(L, p, q - 1);
    }
    if q + 2 < |L| {
      RemoveAt(L, p, q + 1);
    }
    assert p > 0 && j != p - 1 ==> L[j] != L[p - 1];
    assert p + 1 < |L| && j != p + 1 ==> L[j] != L[p + 1];
    assert Unlink(nodes, L[p])[L[j]] ==
      if j + 1 == p then nodes[L[j]].(fLink := nodes[L[p]].fLink)
      else if j == p + 1 then nodes[L[j]].(bLink := nodes[L[p]].bLink)
      else nodes[L[j]];
  }

  lemma LevelNonempty(g: Geometry, nodes: seq<Node>, L: seq<nat>, h: nat)
    requires LevelOk(g, nodes, L, h)
    ensures InRange(nodes, L) && Nonempty(nodes, L)
  {
    forall p | 0 <= p < |L|
      ensures nodes[L[p]].recs != []
    {
      assert EntryOk(g, nodes, L, h, p);
    }
  }

  /** A level none of whose nodes changed is still in order. */
  lemma SameLevel(g: Geometry, a: seq<Node>, b: seq<Node>, L: seq<nat>, h: nat)
    requires LevelOk(g, a, L, h) && |a| <= |b|
    requires forall p :: 0 <= p < |L| ==> a[L[p]] == b[L[p]]
    ensures LevelOk(g, b, L, h) && InRange(a, L) && InRange(b, L) && Recs(a, L) == Recs(b, L)
    ensures Nonempty(a, L) && Nonempty(b, L) && Summary(a, L) == Summary(b, L)
  {
    forall p | 0 <= p < |L|
      ensures EntryOk(g, b, L, h, p)
    {
      assert EntryOk(g, a, L, h, p);
    }
    LevelNonempty(g, a, L, h);
    LevelNonempty(g, b, L, h);
    RecsSame(a, b, L);
  }
}
