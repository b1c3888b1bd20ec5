/**
 The nodes of a B-tree file and the doubly linked list of nodes on one level.

 A level is the sequence of its node numbers from left to right. All records on a
 level, read left to right, are the concatenation of its nodes' records; the level
 above stores exactly one record (first key, node number) per node of this level.
 */
module NodeLists {
  import opened Options
  import opened SortedRecords

  datatype Kind = Header | Leaf | Index | Unused

  datatype Node = Node(kind: Kind, height: nat, fLink: nat, bLink: nat, recs: seq<Rec>)

  ghost predicate InRange(nodes: seq<Node>, L: seq<nat>)
  {
    forall p :: 0 <= p < |L| ==> L[p] < |nodes|
  }

  ghost predicate Nonempty(nodes: seq<Node>, L: seq<nat>)
  {
    forall p :: 0 <= p < |L| ==> L[p] < |nodes| && nodes[L[p]].recs != []
  }

  ghost predicate Distinct(L: seq<nat>)
  {
    forall i, j :: 0 <= i < j < |L| ==> L[i] != L[j]
  }

  /** Siblings are doubly linked in level order, with 0 at both ends. */
  ghost predicate LinkedAt(n: Node, L: seq<nat>, p: nat)
    requires p < |L|
  {
    && n.bLink == (if p == 0 then 0 else L[p - 1])
    && n.fLink == (if p == |L| - 1 then 0 else L[p + 1])
  }

  /** The records on a level, left to right. */
  ghost function Recs(nodes: seq<Node>, L: seq<nat>): seq<Rec>
  {
    if L == [] then [] else (if L[0] < |nodes| then nodes[L[0]].recs else []) + Recs(nodes, L[1..])
  }

  ghost function FirstKey(nodes: seq<Node>, n: nat): int
  {
    if n < |nodes| && nodes[n].recs != [] then nodes[n].recs[0].key else 0
  }

  /** What the level above stores about a level: each node's first key and number. */
  ghost function Summary(nodes: seq<Node>, L: seq<nat>): seq<Rec>
  {
    seq(|L|, p requires 0 <= p < |L| => Rec(FirstKey(nodes, L[p]), Child(L[p])))
  }

  function Insert<T>(s: seq<T>, i: nat, x: T): seq<T>
    requires i <= |s|
  {
    s[..i] + [x] + s[i..]
  }

  function Remove<T>(s: seq<T>, i: nat): seq<T>
    requires i < |s|
  {
    s[..i] + s[i + 1..]
  }

  lemma {:induction false} RecsCat(nodes: seq<Node>, A: seq<nat>, B: seq<nat>)
    requires InRange(nodes, A) && InRange(nodes, B)
    ensures InRange(nodes, A + B)
    ensures Recs(nodes, A + B) == Recs(nodes, A) + Recs(nodes, B)
  {
    if A == [] {
      assert A + B == B;
    } else {
      RecsCat(nodes, A[1..], B);
      assert (A + B)[1..] == A[1..] + B;
      assert (A + B)[0] == A[0];
    }
  }

  lemma {:induction false} RecsSame(a: seq<Node>, b: seq<Node>, L: seq<nat>)
    requires InRange(a, L) && InRange(b, L)
    requires forall p :: 0 <= p < |L| ==> a[L[p]].recs == b[L[p]].recs
    ensures Recs(a, L) == Recs(b, L)
  {
    if L != [] {
      assert forall p :: 0 <= p < |L[1..]| ==> L[1..][p] == L[p + 1];
      RecsSame(a, b, L[1..]);
    }
  }

  /** The records of one node in the middle of its level. */
  lemma RecsAt(nodes: seq<Node>, L: seq<nat>, p: nat)
    requires InRange(nodes, L) && p < |L|
    ensures InRange(nodes, L[..p]) && InRange(nodes, L[p + 1..])
    ensures Recs(nodes, L) == Recs(nodes, L[..p]) + nodes[L[p]].recs + Recs(nodes, L[p + 1..])
  {
    var A, x, B := L[..p], [L[p]], L[p + 1..];
    RecsCat(nodes, A, x);
    RecsCat(nodes, A + x, B);
    assert L == A + x + B;
    RecsOne(nodes, L[p]);
  }

  /** Rewriting the records of one node rewrites its part of the level. */
  lemma RecsUpdate(a: seq<Node>, b: seq<Node>, L: seq<nat>, p: nat)
    requires InRange(a, L) && InRange(b, L) && p < |L| 
    requires forall j :: 0 <= j < |L| && j != p ==> a[L[j]].recs == b[L[j]].recs
    ensures InRange(a, L[..p]) && InRange(a, L[p + 1..])
    ensures Recs(a, L) == Recs(a, L[..p]) + a[L[p]].recs + Recs(a, L[p + 1..])
    ensures Recs(b, L) == Recs(a, L[..p]) + b[L[p]].recs + Recs(a, L[p + 1..])
  {
    RecsAt(a, L, p);
    RecsAt(b, L, p);
    RecsSame(a, b, L[..p]);
    var right := L[p + 1..];
    assert forall j :: 0 <= j < |right| ==> right[j] == L[p + 1 + j];
    RecsSame(a, b, L[p + 1..]);
  }

  lemma RecsOne(nodes: seq<Node>, x: nat)
    requires x < |nodes|
    ensures Recs(nodes, [x]) == nodes[x].recs
  {
    assert [x][1..] == [];
  }

  lemma RecsPair(nodes: seq<Node>, A: seq<nat>, x: nat, y: nat, B: seq<nat>)
    requires InRange(nodes, A) && InRange(nodes, B) && x < |nodes| && y < |nodes|
    ensures InRange(nodes, A + [x] + [y] + B)
    ensures Recs(nodes, A + [x] + [y] + B) == Recs(nodes, A) + nodes[x].recs + nodes[y].recs + Recs(nodes, B)
  {
    RecsOne(nodes, x);
    RecsOne(nodes, y);
    RecsCat(nodes, A, [x]);
    RecsCat(nodes, A + [x], [y]);
    RecsCat(nodes, A + [x] + [y], B);
  }

  /** Taking an emptied node off a level keeps the level's records. */
  lemma RecsDrop(nodes: seq<Node>, L: seq<nat>, p: nat)
    requires InRange(nodes, L) && p < |L| && nodes[L[p]].recs == []
    ensures InRange(nodes, Remove(L, p))
    ensures Recs(nodes, Remove(L, p)) == Recs(nodes, L)
  {
    RecsAt(nodes, L, p);
    RecsCat(nodes, L[..p], L[p + 1..]);
  }

  /** The first keys of the nodes of a sorted level are sorted. */
  lemma {:induction false} SummarySorted(nodes: seq<Node>, L: seq<nat>)
    requires Nonempty(nodes, L) && Sorted(Recs(nodes, L))
    ensures Sorted(Summary(nodes, L))
    ensures L != [] ==> Recs(nodes, L) != [] && Recs(nodes, L)[0] == nodes[L[0]].recs[0]
  {
    if L != [] {
      var a, T := nodes[L[0]].recs, L[1..];
      assert forall p :: 0 <= p < |T| ==> T[p] == L[p + 1];
      SortedParts(a, Recs(nodes, T));
      SummarySorted(nodes, T);
      var s, t := Summary(nodes, L), Summary(nodes, T);
      assert forall p :: 0 <= p < |t| ==> t[p] == s[p + 1];
      forall i, j | 0 <= i < j < |s|
        ensures s[i].key < s[j].key
      {
        assert s[j] == t[j - 1];
        if i == 0 {
          assert a[0].key < Recs(nodes, T)[0].key;
          assert t[0].key == Recs(nodes, T)[0].key;
        } else {
          assert s[i] == t[i - 1];
        }
      }
    }
  }

  /** A key between the first keys of node p and node p + 1 lies beyond all earlier and before all later nodes. */
  lemma Between(nodes: seq<Node>, L: seq<nat>, p: nat, k: int)
    requires Nonempty(nodes, L) && Sorted(Recs(nodes, L)) && p < |L|
    requires Route(nodes, L, p, k)
    ensures Recs(nodes, L) == Recs(nodes, L[..p]) + nodes[L[p]].recs + Recs(nodes, L[p + 1..])
    ensures Below(Recs(nodes, L[..p]), k) && Above(Recs(nodes, L[p + 1..]), k) && Sorted(nodes[L[p]].recs)
  {
    RecsAt(nodes, L, p);
    var A, m, B := Recs(nodes, L[..p]), nodes[L[p]].recs, Recs(nodes, L[p + 1..]);
    SortedParts(A + m, B);
    SortedParts(A, m);
    if p + 1 < |L| {
      var right := L[p + 1..];
      assert forall j :: 0 <= j < |right| ==> right[j] == L[p + 1 + j];
      SummarySorted(nodes, L[p + 1..]);
      assert B[0].key == FirstKey(nodes, L[p + 1]);
    } 
  }

  /** A level after node p may have gained the right neighbour x; 0 stands for none. */
  ghost function Grown(L: seq<nat>, p: nat, x: nat): seq<nat>
    requires p < |L|
  {
    if x == 0 then L else Insert(L, p + 1, x)
  }

  /** The nodes of a level, except the one at p, hold the same records in both node arrays. */
  ghost predicate SameRecsBut(a: seq<Node>, b: seq<Node>, L: seq<nat>, p: nat)
  {
    forall j :: 0 <= j < |L| && j != p ==> L[j] < |a| && L[j] < |b| && b[L[j]].recs == a[L[j]].recs
  }

  /** How a level's records change when node p, with a possible new neighbour, holds m. */
  lemma RecsGrown(a: seq<Node>, b: seq<Node>, L: seq<nat>, p: nat, x: nat, m: seq<Rec>)
    requires InRange(a, L) && InRange(b, L) && p < |L| && SameRecsBut(a, b, L, p)
    requires x != 0 ==> x < |b|
    requires m == b[L[p]].recs + if x == 0 then [] else b[x].recs
    ensures Recs(a, L) == Recs(a, L[..p]) + a[L[p]].recs + Recs(a, L[p + 1..])
    ensures Recs(b, Grown(L, p, x)) == Recs(a, L[..p]) + m + Recs(a, L[p + 1..])
  {
    hide Recs;
    RecsUpdate(a, b, L, p);
    if x != 0 {
      RecsGrownPair(a, b, L, p, x);
    }
  }

  lemma RecsGrownPair(a: seq<Node>, b: seq<Node>, L: seq<nat>, p: nat, x: nat)
    requires InRange(a, L) && InRange(b, L) && p < |L| && SameRecsBut(a, b, L, p) && x < |b|
    ensures Recs(b, Insert(L, p + 1, x)) == Recs(a, L[..p]) + (b[L[p]].recs + b[x].recs) + Recs(a, L[p + 1..])
  {
    var A, B := L[..p], L[p + 1..];
    RecsSame(a, b, A);
    assert forall j :: 0 <= j < |B| ==> B[j] == L[p + 1 + j];
    RecsSame(a, b, B);
    RecsPair(b, A, L[p], x, B);
    assert Insert(L, p + 1, x) == A + [L[p]] + [x] + B;
    Assoc(Recs(a, A), b[L[p]].recs, b[x].recs);
  }

  /** How a level's summary changes in the same situation. */
  lemma SummaryGrown(a: seq<Node>, b: seq<Node>, L: seq<nat>, p: nat, x: nat)
    requires p < |L| && SameRecsBut(a, b, L, p)
    ensures Summary(a, L)[p] == Rec(FirstKey(a, L[p]), Child(L[p]))
    ensures var s := Summary(a, L)[p := Rec(FirstKey(b, L[p]), Child(L[p]))];
      Summary(b, Grown(L, p, x)) == if x == 0 then s else Insert(s, p + 1, Rec(FirstKey(b, x), Child(x)))
  {
    var s := Summary(a, L)[p := Rec(FirstKey(b, L[p]), Child(L[p]))];
    forall j | 0 <= j < |L|
      ensures Summary(b, L)[j] == s[j]
    {
    }
    if x != 0 {
      var t, u := Summary(b, Insert(L, p + 1, x)), Insert(s, p + 1, Rec(FirstKey(b, x), Child(x)));
      forall j | 0 <= j <= |L|
        ensures t[j] == u[j]
      {
        assert Insert(L, p + 1, x)[j] == if j <= p then L[j] else if j == p + 1 then x else L[j - 1];
      }
    }
  }

  /** Key k belongs to node p of the level: not below its first key, below the next node's. */
  ghost predicate Route(nodes: seq<Node>, L: seq<nat>, p: nat, k: int)
    requires p < |L|
  {
    && (p == 0 || FirstKey(nodes, L[p]) <= k)
    && (p + 1 < |L| ==> k < FirstKey(nodes, L[p + 1]))
  }

  lemma RecsHead(nodes: seq<Node>, L: seq<nat>)
    requires L != [] && L[0] < |nodes| && nodes[L[0]].recs != []
    ensures Recs(nodes, L) != [] && Recs(nodes, L)[0] == nodes[L[0]].recs[0]
  {
  }
}
