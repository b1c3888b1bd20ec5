/**
 Records of a B-tree, ordered by key, and what inserting and deleting one record means
 for a sorted sequence of them. Keys are integer ranks: `ExtentKeys` shows that the
 extents tree comparator orders keys exactly as their ranks.
 */
module SortedRecords {
  import opened Options

  datatype Payload = Value(bytes: seq<bv8>) | Child(node: nat)

  datatype Rec = Rec(key: int, data: Payload)

  ghost predicate Sorted(s: seq<Rec>)
  {
    forall i, j :: 0 <= i < j < |s| ==> s[i].key < s[j].key
  }

  predicate Has(s: seq<Rec>, k: int)
  {
    exists i :: 0 <= i < |s| && s[i].key == k
  }

  ghost predicate Below(s: seq<Rec>, k: int)
  {
    forall i :: 0 <= i < |s| ==> s[i].key < k
  }

  ghost predicate Above(s: seq<Rec>, k: int)
  {
    forall i :: 0 <= i < |s| ==> k < s[i].key
  }

  /** The position of the first record whose key is not below k. */
  function Rank(s: seq<Rec>, k: int): (i: nat)
    ensures i <= |s|
    ensures forall j :: 0 <= j < i ==> s[j].key < k
    ensures i < |s| ==> k <= s[i].key
  {
    if s == [] || k <= s[0].key then 0 else 1 + Rank(s[1..], k)
  }

  /** The sorted insertion of one record. */
  function Ins(s: seq<Rec>, r: Rec): seq<Rec>
  {
    var i := Rank(s, r.key);
    s[..i] + [r] + s[i..]
  }

  /** The removal of the record with key k. */
  function Del(s: seq<Rec>, k: int): seq<Rec>
  {
    var i := Rank(s, k);
    if i < |s| && s[i].key == k then s[..i] + s[i + 1..] else s
  }

  /** The data stored under key k of a sorted sequence. */
  function Find(s: seq<Rec>, k: int): Option<Payload>
  {
    var i := Rank(s, k);
    if i < |s| && s[i].key == k then Some(s[i].data) else None
  }

  /** The finite map a sorted record sequence stands for. */
  function AsMap(s: seq<Rec>): map<int, Payload>
  {
    map k | k in (set r | r in s :: r.key) && Find(s, k).Some? :: Find(s, k).value
  }

  lemma RankIs(s: seq<Rec>, k: int, i: nat)
    requires i <= |s| && (forall j :: 0 <= j < i ==> s[j].key < k) && (i < |s| ==> k <= s[i].key)
    ensures Rank(s, k) == i
  {
  }

  lemma SortedParts(a: seq<Rec>, b: seq<Rec>)
    ensures Sorted(a + b) ==> Sorted(a) && Sorted(b)
    ensures Sorted(a + b) ==> forall i, j :: 0 <= i < |a| && 0 <= j < |b| ==> a[i].key < b[j].key
  {
    var s := a + b;
    assert forall i :: 0 <= i < |a| ==> s[i] == a[i];
    assert forall j :: 0 <= j < |b| ==> s[|a| + j] == b[j];
  }

  lemma RankMiddle(a: seq<Rec>, m: seq<Rec>, b: seq<Rec>, k: int)
    requires Below(a, k) && (Rank(m, k) == |m| && b != [] ==> k <= b[0].key)
    ensures Rank(a + m + b, k) == |a| + Rank(m, k)
  {
    var s, i := a + m + b, Rank(m, k);
    forall j | 0 <= j < |a| + i
      ensures s[j].key < k
    {
      assert s[j] == if j < |a| then a[j] else m[j - |a|];
    }
    RankIs(s, k, |a| + i);
  }

  lemma CutMiddle(a: seq<Rec>, m: seq<Rec>, b: seq<Rec>, i: nat)
    requires i <= |m|
    ensures (a + m + b)[..|a| + i] == a + m[..i]
    ensures (a + m + b)[|a| + i..] == m[i..] + b
  {
  }

  lemma Assoc(a: seq<Rec>, x: seq<Rec>, y: seq<Rec>)
    ensures a + x + y == a + (x + y)
  {
  }

  lemma Assoc4(a: seq<Rec>, x: seq<Rec>, y: seq<Rec>, b: seq<Rec>)
    ensures a + x + (y + b) == a + (x + y) + b
  {
  }

  /** An insertion between a lower and an upper part happens in the middle part. */
  lemma InsMiddle(a: seq<Rec>, m: seq<Rec>, b: seq<Rec>, r: Rec)
    requires Below(a, r.key) && Above(b, r.key)
    ensures Ins(a + m + b, r) == a + Ins(m, r) + b
  {
    hide Rank;
    RankMiddle(a, m, b, r.key);
    var i := Rank(m, r.key);
    CutMiddle(a, m, b, i);
    Assoc(a, m[..i], [r]);
    Assoc4(a, m[..i] + [r], m[i..], b);
  }

  lemma DelMiddle(a: seq<Rec>, m: seq<Rec>, b: seq<Rec>, k: int)
    requires Below(a, k) && Rank(m, k) < |m| && m[Rank(m, k)].key == k
    ensures Del(a + m + b, k) == a + Del(m, k) + b
  {
    hide Rank;
    RankMiddle(a, m, b, k);
    var i := Rank(m, k);
    CutMiddle(a, m, b, i);
    CutMiddle(a, m, b, i + 1);
    Assoc4(a, m[..i], m[i + 1..], b);
    assert (a + m + b)[|a| + i] == m[i];
  }

  /** In a sorted sequence the key is present exactly when it is found at its rank. */
  lemma RankHas(s: seq<Rec>, k: int)
    requires Sorted(s)
    ensures Has(s, k) <==> Rank(s, k) < |s| && s[Rank(s, k)].key == k
  {
    if Has(s, k) {
      var i :| 0 <= i < |s| && s[i].key == k;
      assert Below(s[..i], k);
      RankIs(s, k, i);
    }
  }

  lemma InsKeepsSorted(s: seq<Rec>, r: Rec)
    requires Sorted(s) && !Has(s, r.key)
    ensures Sorted(Ins(s, r))
  {
    var i, t := Rank(s, r.key), Ins(s, r);
    assert i < |s| ==> s[i].key != r.key;
    forall j | 0 <= j < |t|
      ensures t[j] == if j < i then s[j] else if j == i then r else s[j - 1]
      ensures j < i ==> t[j].key < r.key
      ensures j > i ==> r.key < t[j].key
    {
      if j > i + 1 {
        assert s[i].key < s[j - 1].key;
      }
    }
  }

  lemma DelKeepsSorted(s: seq<Rec>, k: int)
    requires Sorted(s)
    ensures Sorted(Del(s, k)) && !Has(Del(s, k), k)
  {
    RankHas(s, k);
    var i, t := Rank(s, k), Del(s, k);
    if Has(s, k) {
      forall j | 0 <= j < |t|
        ensures t[j] == if j < i then s[j] else s[j + 1]
        ensures t[j].key != k
      {
      }
    }
  }

  /** A sorted sequence with one more record is the sorted insertion of that record. */
  lemma InsIs(s: seq<Rec>, i: nat, r: Rec)
    requires i <= |s| && Sorted(s[..i] + [r] + s[i..])
    ensures Ins(s, r) == s[..i] + [r] + s[i..]
    ensures Below(s[..i], r.key) && Above(s[i..], r.key)
  {
    var t := s[..i] + [r] + s[i..];
    assert forall j :: 0 <= j < i ==> t[j] == s[j];
    assert t[i] == r;
    assert forall j :: i <= j < |s| ==> t[j + 1] == s[j];
    RankIs(s, r.key, i);
  }

  lemma MapIsFind(s: seq<Rec>, k: int)
    ensures k in AsMap(s) <==> Find(s, k).Some?
    ensures k in AsMap(s) ==> AsMap(s)[k] == Find(s, k).value
  {
    var i := Rank(s, k);
    if i < |s| && s[i].key == k {
      assert s[i] in s;
    }
  }

  lemma FindAt(s: seq<Rec>, i: nat)
    requires Sorted(s) && i < |s|
    ensures Find(s, s[i].key) == Some(s[i].data)
  {
    RankIs(s, s[i].key, i);
  }

  lemma FindHas(s: seq<Rec>, k: int)
    requires Sorted(s)
    ensures Find(s, k).Some? <==> Has(s, k)
  {
    RankHas(s, k);
  }

  lemma InsFind(s: seq<Rec>, r: Rec, k: int)
    requires Sorted(s) && !Has(s, r.key)
    ensures Find(Ins(s, r), k) == if k == r.key then Some(r.data) else Find(s, k)
  {
    InsKeepsSorted(s, r);
    var n, t, i := Rank(s, r.key), Ins(s, r), Rank(s, k);
    assert t[n] == r;
    FindAt(t, n);
    if i < |s| && s[i].key == k {
      assert t[if i < n then i else i + 1] == s[i];
      FindAt(t, if i < n then i else i + 1);
    } else {
      RankHas(s, k);
      forall j | 0 <= j < |t| && j != n
        ensures t[j].key != k
      {
        assert t[j] in s;
      }
      FindHas(t, k);
    }
  }

  lemma DelFind(s: seq<Rec>, k: int, x: int)
    requires Sorted(s)
    ensures Find(Del(s, k), x) == if x == k then None else Find(s, x)
  {
    DelKeepsSorted(s, k);
    var n, t, i := Rank(s, k), Del(s, k), Rank(s, x);
    if x == k {
      FindHas(t, k);
    } else if i < |s| && s[i].key == x {
      assert t[if i < n || t == s then i else i - 1] == s[i];
      FindAt(t, if i < n || t == s then i else i - 1);
    } else {
      RankHas(s, x);
      forall j | 0 <= j < |t|
        ensures t[j].key != x
      {
        assert t[j] in s;
      }
      FindHas(t, x);
    }
  }

  /** Insertion adds exactly one binding to the map. */
  lemma InsAsMap(s: seq<Rec>, r: Rec)
    requires Sorted(s) && !Has(s, r.key)
    ensures r.key !in AsMap(s)
    ensures AsMap(Ins(s, r)) == AsMap(s)[r.key := r.data]
  {
    FindHas(s, r.key);
    MapIsFind(s, r.key);
    var m, t := AsMap(s)[r.key := r.data], Ins(s, r);
    forall k
      ensures k in AsMap(t) <==> k in m
      ensures k in m ==> AsMap(t)[k] == m[k]
    {
      InsFind(s, r, k);
      MapIsFind(s, k);
      MapIsFind(t, k);
    }
  }

  /** Deletion removes exactly one binding. */
  lemma DelAsMap(s: seq<Rec>, k: int)
    requires Sorted(s)
    ensures AsMap(Del(s, k)) == AsMap(s) - {k}
  {
    var m, t := AsMap(s) - {k}, Del(s, k);
    forall x
      ensures x in AsMap(t) <==> x in m
      ensures x in m ==> AsMap(t)[x] == m[x]
    {
      DelFind(s, k, x);
      MapIsFind(s, x);
      MapIsFind(t, x);
    }
  }
}
