/** Keys of the extents overflow tree and the comparator that orders them. */
module ExtentKeys {

  datatype ExtentKey = ExtentKey(keyLength: nat, forkType: nat, fileID: nat, startBlock: nat) {
    /** Field widths of the on-disk key, whose length word is always 10. */
    predicate Valid() {
      keyLength == 10 && forkType < 0x100 && fileID < 0x1_0000_0000 && startBlock < 0x1_0000_0000
    }
  }

  function Compare(left: ExtentKey, right: ExtentKey): int
  {
    if left.forkType < right.forkType then -1
    else if left.forkType > right.forkType then 1
    else if left.fileID < right.fileID then -1
    else if left.fileID > right.fileID then 1
    else if left.startBlock < right.startBlock then -1
    else if left.startBlock > right.startBlock then 1
    else if left.keyLength == right.keyLength then 0
    else if left.keyLength < right.keyLength then -1
    else 1
  }

  /** The integer that stands for a key in the tree model. */
  function KeyRank(k: ExtentKey): int
  {
    (k.forkType * 0x1_0000_0000 + k.fileID) * 0x1_0000_0000 + k.startBlock
  }

  /** The comparator orders well-formed keys exactly as their ranks, and equal ranks mean equal keys. */
  lemma CompareIsRankOrder(a: ExtentKey, b: ExtentKey)
    requires a.Valid() && b.Valid()
    ensures Compare(a, b) < 0 <==> KeyRank(a) < KeyRank(b)
    ensures Compare(a, b) == 0 <==> a == b
    ensures Compare(a, b) == 0 <==> KeyRank(a) == KeyRank(b)
  {
    var fa, fb := a.forkType * 0x1_0000_0000 + a.fileID, b.forkType * 0x1_0000_0000 + b.fileID;
    if a.forkType < b.forkType {
      assert fa < fb;
    } else if a.forkType > b.forkType {
      assert fa > fb;
    }
  }

  /** The order of the Python reader of the same tree: the file id comes first. */
  function ReaderCompare(left: ExtentKey, right: ExtentKey): int
  {
    if left.fileID != right.fileID then (if left.fileID < right.fileID then -1 else 1)
    else if left.forkType != right.forkType then (if left.forkType < right.forkType then -1 else 1)
    else if left.startBlock != right.startBlock then (if left.startBlock < right.startBlock then -1 else 1)
    else 0
  }

  /** Fork type and file id order two keys oppositely. */
  predicate Crossed(a: ExtentKey, b: ExtentKey)
  {
    (a.forkType < b.forkType && a.fileID > b.fileID) || (a.forkType > b.forkType && a.fileID < b.fileID)
  }

  /** The reader orders two keys as the tree does exactly when fork type and file id do not cross. */
  lemma OrdersAgree(a: ExtentKey, b: ExtentKey)
    requires a.Valid() && b.Valid()
    ensures Compare(a, b) == ReaderCompare(a, b) <==> !Crossed(a, b)
    ensures Compare(a, b) == 0 <==> ReaderCompare(a, b) == 0
  {
  }

  /**
   On a set of keys the reader's ranks are in the tree's order, as its search needs, exactly when no
   two of them cross; so always among the keys of one fork type.
   */
  lemma ReaderOrder(s: seq<ExtentKey>)
    requires forall i :: 0 <= i < |s| ==> s[i].Valid()
    requires forall i, j :: 0 <= i < j < |s| ==> KeyRank(s[i]) < KeyRank(s[j])
    ensures (forall i, j :: 0 <= i < j < |s| ==> ReaderCompare(s[i], s[j]) < 0)
      <==> (forall i, j :: 0 <= i < j < |s| ==> !Crossed(s[i], s[j]))
    ensures (forall i, j :: 0 <= i < j < |s| ==> s[i].forkType == s[j].forkType) ==>
      forall i, j :: 0 <= i < j < |s| ==> ReaderCompare(s[i], s[j]) < 0
  {
    hide KeyRank, Compare, ReaderCompare, Crossed;
    forall i, j | 0 <= i < j < |s|
      ensures ReaderCompare(s[i], s[j]) < 0 <==> !Crossed(s[i], s[j])
      ensures s[i].forkType == s[j].forkType ==> !Crossed(s[i], s[j])
    {
      CompareIsRankOrder(s[i], s[j]);
      CrossedOrders(s[i], s[j]);
    }
  }

  lemma CrossedOrders(a: ExtentKey, b: ExtentKey)
    requires a.Valid() && b.Valid() && Compare(a, b) < 0
    ensures ReaderCompare(a, b) < 0 <==> !Crossed(a, b)
    ensures a.forkType == b.forkType ==> !Crossed(a, b)
  {
  }

  /** A data fork record of file 20 and a resource fork record of file 16: the two orders differ. */
  lemma OrdersDiffer()
    ensures var a, b := ExtentKey(10, 0, 20, 0), ExtentKey(10, 0xFF, 16, 0);
      a.Valid() && b.Valid() && Compare(a, b) < 0 && ReaderCompare(a, b) > 0
  {
  }
}
