/**
 Listing a folder from the catalog tree. Keys are ranks: the keys of one parent id are those in
 [thread, end), the thread record's key being the least because its name is empty.
 */
module FolderContents {
  import opened BTree
  import opened NodeLists
  import opened Options
  import opened SortedRecords
  import opened TreeShape
  import opened TreeViews

  lemma {:induction false} ThreadFirst(s: seq<Rec>, thread: int, end: int)
    requires Sorted(s) && Find(s, thread).Some? && thread < end
    ensures InKeyRange(s, thread, end) == [s[Rank(s, thread)]] + InKeyRange(s, thread + 1, end)
  {
    var t := s[1..];
    assert Sorted(t);
    if s[0].key == thread {
      SameRange(t, thread, end);
    } else {
      assert Find(t, thread) == Find(s, thread);
      ThreadFirst(t, thread, end);
    }
  }

  lemma {:induction false} SameRange(t: seq<Rec>, thread: int, end: int)
    requires Above(t, thread)
    ensures InKeyRange(t, thread, end) == InKeyRange(t, thread + 1, end)
  {
    if t != [] {
      SameRange(t[1..], thread, end);
    }
  }

  /** Whether a key belongs to the folder. */
  function Belongs(thread: int, end: int): int -> bool
  {
    k => thread <= k < end
  }

  /** From the thread on, the keys of the folder come one after the other. */
  lemma AfterThread(s: seq<Rec>, thread: int, end: int)
    requires Sorted(s) && Find(s, thread).Some? && thread < end
    ensures TakeWhile(s[Rank(s, thread) + 1..], Belongs(thread, end)) == InKeyRange(s, thread + 1, end)
  {
    FindAt(s, thread);
    hide TakeWhile, InKeyRange, Rank, Sorted, Find;
    var i, keep := Rank(s, thread), Belongs(thread, end);
    RangeIsTaken(s, thread, end, keep);
    ThreadFirst(s, thread, end);
    var rest, more := s[i..], s[i + 1..];
    TakeStep(rest, s[i], more, keep, []);
    assert ([s[i]] + TakeWhile(more, keep))[1..] == TakeWhile(more, keep);
    assert ([s[i]] + InKeyRange(s, thread + 1, end))[1..] == InKeyRange(s, thread + 1, end);
  }

  lemma FindAt(s: seq<Rec>, k: int)
    requires Find(s, k).Some?
    ensures Rank(s, k) < |s| && s[Rank(s, k)].key == k
  {
  }

  lemma {:induction false} NoneInRange(s: seq<Rec>, from: nat, thread: int, end: int)
    requires from <= |s| && forall j :: 0 <= j < |s| ==> !(thread <= s[j].key < end)
    ensures InKeyRange(s, thread + 1, end) == [] && TakeWhile(s[from..], Belongs(thread, end)) == []
  {
    if s != [] {
      NoneInRange(s[1..], if from == 0 then 0 else from - 1, thread, end);
    }
  }

  /**
   What the listing collects from its start: the folder's records, or nothing when there is no
   thread and none of them.
   */
  lemma Collected(s: seq<Rec>, from: nat, thread: int, end: int)
    requires Sorted(s) && from <= |s| && thread < end
    requires if Find(s, thread).Some? then from == Rank(s, thread) + 1
             else forall j :: 0 <= j < |s| ==> !(thread <= s[j].key < end)
    ensures TakeWhile(s[from..], Belongs(thread, end)) == InKeyRange(s, thread + 1, end)
  {
    if Find(s, thread).Some? {
      AfterThread(s, thread, end);
    } else {
      NoneInRange(s, from, thread, end);
    }
  }

  /** Where the listing starts, behind the position a search found: at a record, or past the end of a leaf. */
  lemma StartAt(g: Geometry, nodes: seq<Node>, levels: seq<seq<nat>>, n: nat, i: nat, k: int)
    returns (q: nat, from: nat)
    requires LevelsOk(g, nodes, levels) && levels != [] && Sorted(Recs(nodes, levels[0]))
      && AtRank(nodes, levels[0], n, i, k)
    requires Find(Recs(nodes, levels[0]), k).Some? ==> i < |nodes[n].recs|
    ensures At(levels, 0, q, n) && n != 0 && n < |nodes| && from <= |Recs(nodes, levels[0])|
    ensures Find(Recs(nodes, levels[0]), k).Some? ==> from == Rank(Recs(nodes, levels[0]), k) + 1
    ensures Recs(nodes, levels[0])[from..] == Rest(nodes, levels[0], q, i + 1)
  {
    hide Rank, Recs, Sorted;
    q :| 0 <= q < |levels[0]| && levels[0][q] == n &&
         |Recs(nodes, levels[0][..q])| + i == Rank(Recs(nodes, levels[0]), k);
    assert LevelOk(g, nodes, levels[0], 0);
    var m := if i < |nodes[n].recs| then i + 1 else i;
    from := |Recs(nodes, levels[0][..q])| + m;
    LeafRest(g, nodes, levels, q, m, from);
  }

  lemma AbsentKeys(s: seq<Rec>, thread: int, end: int)
    requires Sorted(s) && thread !in AsMap(s) && forall k :: k in AsMap(s) ==> !(thread <= k < end)
    ensures forall j :: 0 <= j < |s| ==> !(thread <= s[j].key < end)
  {
    hide AsMap;
    forall j | 0 <= j < |s|
      ensures !(thread <= s[j].key < end)
    {
      FindHas(s, s[j].key);
      MapIsFind(s, s[j].key);
    }
  }

  /** The leaf records from record i of the q-th leaf on. */
  ghost function Rest(nodes: seq<Node>, L: seq<nat>, q: nat, i: nat): seq<Rec>
  {
    if q >= |L| || L[q] >= |nodes| then [] else
    (if i < |nodes[L[q]].recs| then nodes[L[q]].recs[i..]
      else nodes[L[q]].recs[|nodes[L[q]].recs|..]) + Recs(nodes, L[q + 1..])
  }

  /** From the end of a leaf the forward link leads to the start of the next one. */
  lemma RestNext(g: Geometry, nodes: seq<Node>, levels: seq<seq<nat>>, q: nat, i: nat)
    requires LevelsOk(g, nodes, levels) && levels != [] && q < |levels[0]| && levels[0][q] < |nodes|
    requires i >= |nodes[levels[0][q]].recs|
    ensures nodes[levels[0][q]].fLink == if q + 1 < |levels[0]| then levels[0][q + 1] else 0
    ensures q + 1 < |levels[0]| ==> 0 < levels[0][q + 1] < |nodes|
    ensures Rest(nodes, levels[0], q, i) == Rest(nodes, levels[0], q + 1, 0)
  {
    hide LevelsOk, Recs;
    NextLeaf(g, nodes, levels, q);
    if q + 1 < |levels[0]| {
      var recs := nodes[levels[0][q + 1]].recs;
      assert recs == [] ==> recs[0..] == recs[|recs|..];
    }
  }

  /** Collects from a leaf position on, following the leaves' links, while the keys belong to the folder. */
  method CollectFrom(tree: BTree, first: nat, index: nat, keep: int -> bool, ghost start: nat) returns (list: seq<Rec>)
    requires tree.Core() && At(tree.levels, 0, start, first) && 0 < first < |tree.nodes|
    ensures list == TakeWhile(Rest(tree.nodes, tree.levels[0], start, index), keep)
  {
    hide MapOk, LevelsOk, Recs, Sorted, TakeWhile, Summary, Rest;
    ghost var nodes, levels, L := tree.nodes, tree.levels, tree.levels[0];
    var nodeNumber, recordNumber: nat := first, index;
    ghost var q := start;
    list := [];
    ghost var whole := TakeWhile(Rest(nodes, L, start, index), keep);
    while nodeNumber != 0
      invariant q <= |L| && nodeNumber == (if q < |L| then L[q] else 0)
      invariant q < |L| ==> 0 < nodeNumber < |nodes|
      invariant list + TakeWhile(Rest(nodes, L, q, recordNumber), keep) == whole
      decreases |L| - q
    {
      var stopped;
      list, stopped := CollectNode(tree, nodeNumber, recordNumber, keep, list, q);
      if stopped {
        return;
      }
      RestNext(tree.geo, nodes, levels, q, |tree.nodes[nodeNumber].recs|);
      nodeNumber := tree.nodes[nodeNumber].fLink;
      recordNumber := 0;
      q := q + 1;
    }
    RestNil(nodes, L, q, recordNumber, keep, list);
  }

  lemma RestNil(nodes: seq<Node>, L: seq<nat>, q: nat, i: nat, keep: int -> bool, list: seq<Rec>)
    requires q >= |L|
    ensures list + TakeWhile(Rest(nodes, L, q, i), keep) == list
  {
  }

  /** One leaf's share: stopped at the first key of another folder, or with the leaf behind. */
  method CollectNode(tree: BTree, node: nat, first: nat, keep: int -> bool, before: seq<Rec>, ghost q: nat)
    returns (list: seq<Rec>, stopped: bool)
    requires tree.levels != [] && At(tree.levels, 0, q, node) && node < |tree.nodes|
    ensures var L, nodes := tree.levels[0], tree.nodes;
      && (stopped ==> list == before + TakeWhile(Rest(nodes, L, q, first), keep))
      && (!stopped ==>
            list + TakeWhile(Rest(nodes, L, q, |nodes[node].recs|), keep)
            == before + TakeWhile(Rest(nodes, L, q, first), keep))
  {
    hide Recs, TakeWhile;
    var recs := tree.nodes[node].recs;
    list, stopped := before, false;
    if first < |recs| {
      list, stopped := TreeReader.TakeNode(recs, first, keep, before, Recs(tree.nodes, tree.levels[0][q + 1..]));
    }
  }

  /**
   Lists the records of a folder in key order, from behind its thread record. None stands for the
   end of the program: the search exits when no key of the tree is that small.
   */
  method GetFolderContents(tree: BTree, thread: int, end: int) returns (list: Option<seq<Rec>>)
    requires tree.Valid() && tree.rootNode != 0 && thread < end
    requires thread in tree.Map() || forall k :: k in tree.Map() ==> !(thread <= k < end)
    ensures list.None? <==> thread !in tree.Map() && Rank(tree.Contents(), thread) == 0
    ensures list.Some? ==> list.value == InKeyRange(tree.Contents(), thread + 1, end)
  {
    hide MapOk, LevelsOk, Recs, Sorted, Agree, Summary, Rank, TakeWhile, AsMap, InKeyRange;
    var data, exact, nodeNumber, recordNumber := tree.Search(thread);
    if data.None? {
      return None;
    }
    ghost var s := tree.Contents();
    MapIsFind(s, thread);
    ghost var q, from := StartAt(tree.geo, tree.nodes, tree.levels, nodeNumber, recordNumber, thread);
    if !exact {
      AbsentKeys(s, thread, end);
    }
    Collected(s, from, thread, end);
    var kv := CollectFrom(tree, nodeNumber, recordNumber + 1, Belongs(thread, end), q);
    return Some(kv);
  }
}
