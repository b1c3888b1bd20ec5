/**
 How the byte pages and the nodes of the tree model fit together: under any encoding of
 records into a fixed number of bytes, page operations carry out the node operations, and a
 page's free space is the free space the tree model computes from the record count.
 */
module PageNodes {
  import P = Page
  import opened NodeLists
  import opened SortedRecords
  import opened TreeShape

  /** Page s holds exactly the encodings of the records, in order. */
  ghost predicate Represents(s: seq<P.byte>, recs: seq<Rec>, enc: Rec -> seq<P.byte>)
  {
    P.Layout(s, |recs|) && forall i :: 0 <= i < |recs| ==> P.Records(s, |recs|)[i] == enc(recs[i])
  }

  lemma {:induction false} FixedSize(rs: seq<seq<P.byte>>, size: nat)
    requires forall i :: 0 <= i < |rs| ==> |rs[i]| == size
    ensures P.Size(rs) == |rs| * size
  {
    if rs != [] {
      FixedSize(rs[..|rs| - 1], size);
    }
  }

  /** The page's free bytes, as getFreeSpace reads them, are what the tree model computes. */
  lemma FreeSpaceAgrees(g: Geometry, kind: Kind, s: seq<P.byte>, recs: seq<Rec>, enc: Rec -> seq<P.byte>)
    requires Represents(s, recs, enc) && |s| == g.nodeSize
    requires forall i :: 0 <= i < |recs| ==> |enc(recs[i])| == g.RecSize(kind)
    ensures |s| - 2 * (|recs| + 1) - P.Off(s, |recs|) == g.Free(kind, |recs|)
  {
    var n := |recs|;
    P.OffIsSize(s, n, n);
    assert P.Records(s, n)[..n] == P.Records(s, n);
    FixedSize(P.Records(s, n), g.RecSize(kind));
    assert n * (g.RecSize(kind) + 2) == n * g.RecSize(kind) + 2 * n;
  }

  /** Putting the encoded record in at its rank turns a page of recs into a page of Ins(recs, r). */
  lemma InsertAgrees(s: seq<P.byte>, t: seq<P.byte>, recs: seq<Rec>, r: Rec, enc: Rec -> seq<P.byte>)
    requires Represents(s, recs, enc)
    requires P.Layout(t, |recs| + 1)
    requires var i, rs := Rank(recs, r.key), P.Records(s, |recs|);
      P.Records(t, |recs| + 1) == rs[..i] + [enc(r)] + rs[i..]
    ensures Represents(t, Ins(recs, r), enc)
  {
    var i, u := Rank(recs, r.key), Ins(recs, r);
    forall j | 0 <= j < |u|
      ensures P.Records(t, |u|)[j] == enc(u[j])
    {
      assert u[j] == if j < i then recs[j] else if j == i then r else recs[j - 1];
    }
  }

  /**
   Splitting a page splits the node: the page keeps the lower half of the records, as the node
   does, and the other page holds the upper half.
   */
  method SplitAgrees(page: P.Page, other: P.Page, ghost recs: seq<Rec>, ghost enc: Rec -> seq<P.byte>)
    requires page.Valid() && other != page && |other.data| == |page.data|
    requires page.numRecords == |recs| && Represents(page.data, recs, enc)
    modifies page, other
    ensures page.Valid() && page.numRecords == |recs| / 2 && Represents(page.data, recs[..|recs| / 2], enc)
    ensures other.Valid() && other.numRecords == |recs| - |recs| / 2 && Represents(other.data, recs[|recs| / 2..], enc)
  {
    ghost var before, half := page.Contents(), |recs| / 2;
    page.SplitInto(other);
    HalfRepresents(before, 0, half, recs, enc, page.data);
    HalfRepresents(before, half, |recs|, recs, enc, other.data);
  }

  lemma HalfRepresents(all: seq<seq<P.byte>>, lo: nat, hi: nat, recs: seq<Rec>, enc: Rec -> seq<P.byte>, t: seq<P.byte>)
    requires lo <= hi <= |recs| == |all| && forall i :: 0 <= i < |recs| ==> all[i] == enc(recs[i])
    requires P.Layout(t, hi - lo) && P.Records(t, hi - lo) == all[lo..hi]
    ensures Represents(t, recs[lo..hi], enc)
  {
    var u := recs[lo..hi];
    forall j | 0 <= j < |u|
      ensures P.Records(t, |u|)[j] == enc(u[j])
    {
      assert all[lo..hi][j] == all[lo + j];
    }
  }

  /** Deleting record i of the page deletes record i of the node. */
  lemma DeleteAgrees(s: seq<P.byte>, t: seq<P.byte>, recs: seq<Rec>, i: nat, enc: Rec -> seq<P.byte>)
    requires Represents(s, recs, enc) && i < |recs|
    requires P.Layout(t, |recs| - 1)
      && P.Records(t, |recs| - 1) == P.Records(s, |recs|)[..i] + P.Records(s, |recs|)[i + 1..]
    ensures Represents(t, Remove(recs, i), enc)
  {
    var u := Remove(recs, i);
    forall j | 0 <= j < |u|
      ensures P.Records(t, |u|)[j] == enc(u[j])
    {
      assert u[j] == if j < i then recs[j] else recs[j + 1];
    }
  }
}
