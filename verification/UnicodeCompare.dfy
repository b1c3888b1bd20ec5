/**
 The order of catalog names. Case folding goes through a two-level table: 256 offsets, one for
 each high byte and 0 for none, then subtables of 256; ignored characters fold to 0.
 */
module UnicodeCompare {
  type uint16 = x: nat | x < 0x1_0000

  /** Every offset leads to a whole subtable. */
  predicate WellFormed(table: seq<uint16>)
  {
    |table| >= 256 && forall i :: 0 <= i < 256 ==> table[i] + 256 <= |table|
  }

  /** What the table has for a character: itself when its high byte has no subtable. */
  function Fold(table: seq<uint16>, c: uint16): (r: uint16)
    requires WellFormed(table)
    ensures table[c / 256] == 0 ==> r == c
    ensures table[c / 256] != 0 ==> r == table[table[c / 256] + c % 256]
  {
    var temp := table[c / 256];
    if temp != 0 then table[temp + c % 256] else c
  }

  /** A colon counts as a slash. */
  function Slash(c: nat): nat
  {
    if c == 58 then 47 else c
  }

  /** A name as it is compared: folded, without ignored characters, with slashes for colons. */
  function Folded(table: seq<uint16>, s: seq<uint16>): seq<nat>
    requires WellFormed(table)
  {
    if s == [] then []
    else if Fold(table, s[0]) == 0 then Folded(table, s[1..])
    else [Slash(Fold(table, s[0]))] + Folded(table, s[1..])
  }

  /** Lexicographic order: -1, 0 or 1. */
  function Lex(a: seq<nat>, b: seq<nat>): int
  {
    if a == [] then (if b == [] then 0 else -1)
    else if b == [] then 1
    else if a[0] < b[0] then -1
    else if a[0] > b[0] then 1
    else Lex(a[1..], b[1..])
  }

  // Lexicographic order is a total order.

  lemma {:induction false} LexZero(a: seq<nat>, b: seq<nat>)
    ensures Lex(a, b) == 0 <==> a == b
  {
    if a != [] && b != [] && a[0] == b[0] {
      LexZero(a[1..], b[1..]);
      assert a == [a[0]] + a[1..] && b == [b[0]] + b[1..];
    }
  }

  lemma {:induction false} LexMirror(a: seq<nat>, b: seq<nat>)
    ensures Lex(b, a) == -Lex(a, b)
  {
    if a != [] && b != [] && a[0] == b[0] {
      LexMirror(a[1..], b[1..]);
    }
  }

  lemma {:induction false} LexChain(a: seq<nat>, b: seq<nat>, c: seq<nat>)
    requires Lex(a, b) <= 0 && Lex(b, c) <= 0
    ensures Lex(a, c) <= 0 && (Lex(a, c) == 0 ==> Lex(a, b) == 0 && Lex(b, c) == 0)
  {
    if a != [] && b != [] && c != [] && a[0] == b[0] == c[0] {
      LexChain(a[1..], b[1..], c[1..]);
    }
  }

  /** a comes before b: it is a proper prefix, or smaller at the first place where they differ. */
  ghost predicate Precedes(a: seq<nat>, b: seq<nat>)
  {
    exists k: nat :: k <= |a| && k < |b| && a[..k] == b[..k] && (k == |a| || a[k] < b[k])
  }

  lemma {:induction false} LexMeans(a: seq<nat>, b: seq<nat>)
    ensures Lex(a, b) == if a == b then 0 else if Precedes(a, b) then -1 else 1
  {
    LexZero(a, b);
    if a != [] && b != [] && a[0] == b[0] {
      LexMeans(a[1..], b[1..]);
      SameHead(a, b);
    } else if a == [] {
      assert b != [] ==> a[..0] == b[..0];
    } else if b != [] {
      if a[0] < b[0] {
        assert a[..0] == b[..0];
      } else {
        forall k: nat | k <= |a| && k < |b| && a[..k] == b[..k]
          ensures k == 0
        {
          SameFirst(a, b, k);
        }
      }
    }
  }

  lemma SameFirst(a: seq<nat>, b: seq<nat>, k: nat)
    requires k <= |a| && k <= |b| && a[..k] == b[..k]
    ensures k > 0 ==> a[0] == b[0]
  {
    if k > 0 {
      assert a[..k][0] == b[..k][0];
    }
  }

  lemma NotBefore(a: seq<nat>)
    ensures !Precedes(a, a)
  {
  }

  lemma SameHead(a: seq<nat>, b: seq<nat>)
    requires a != [] && b != [] && a[0] == b[0]
    ensures Precedes(a, b) <==> Precedes(a[1..], b[1..])
    ensures a == b <==> a[1..] == b[1..]
  {
    assert a == [a[0]] + a[1..] && b == [b[0]] + b[1..];
    if Precedes(a, b) {
      var k: nat :| k <= |a| && k < |b| && a[..k] == b[..k] && (k == |a| || a[k] < b[k]);
      assert k > 0;
      assert a[1..][..k - 1] == a[..k][1..] && b[1..][..k - 1] == b[..k][1..];
    }
    if Precedes(a[1..], b[1..]) {
      var k: nat :| k <= |a[1..]| && k < |b[1..]| && a[1..][..k] == b[1..][..k]
        && (k == |a[1..]| || a[1..][k] < b[1..][k]);
      assert a[..k + 1] == [a[0]] + a[1..][..k] && b[..k + 1] == [b[0]] + b[1..][..k];
    }
  }

  /**
   r is a name as it is compared, character by character: at holds the places of the characters that
   the table does not send to 0, in order, and a colon is a slash.
   */
  ghost predicate ComparedAs(table: seq<uint16>, s: seq<uint16>, at: seq<nat>, r: seq<nat>)
    requires WellFormed(table)
  {
    && |at| == |r| && Places(table, s, at)
    && forall i :: 0 <= i < |at| ==> at[i] < |s| && r[i] == Character(table, s[at[i]])
  }

  function Character(table: seq<uint16>, c: uint16): nat
    requires WellFormed(table)
  {
    if Fold(table, c) == 58 then 47 else Fold(table, c)
  }

  /** The places of the characters that are not ignored. */
  ghost predicate Places(table: seq<uint16>, s: seq<uint16>, at: seq<nat>)
    requires WellFormed(table)
  {
    && (forall i, j :: 0 <= i < j < |at| ==> at[i] < at[j])
    && (forall i: nat :: i < |s| ==> (i in at <==> Fold(table, s[i]) != 0))
  }

  lemma {:induction false} FoldedMeans(table: seq<uint16>, s: seq<uint16>) returns (at: seq<nat>)
    requires WellFormed(table)
    ensures ComparedAs(table, s, at, Folded(table, s))
  {
    hide Fold, Places, ComparedAs;
    if s == [] {
      at := [];
      NothingCompared(table);
    } else {
      var rest := FoldedMeans(table, s[1..]);
      at := OneCompared(table, s, rest, Folded(table, s[1..]));
    }
  }

  lemma NothingCompared(table: seq<uint16>)
    requires WellFormed(table)
    ensures ComparedAs(table, [], [], [])
  {
  }

  lemma OneCompared(table: seq<uint16>, s: seq<uint16>, rest: seq<nat>, r: seq<nat>) returns (at: seq<nat>)
    requires WellFormed(table) && s != [] && ComparedAs(table, s[1..], rest, r)
    ensures ComparedAs(table, s, at, if Fold(table, s[0]) == 0 then r else [Slash(Fold(table, s[0]))] + r)
  {
    hide Fold, Places, WellFormed, Character;
    var up := seq(|rest|, i requires 0 <= i < |rest| => rest[i] + 1);
    MorePlaces(table, s, rest, up);
    forall i | 0 <= i < |up|
      ensures up[i] < |s| && r[i] == Character(table, s[up[i]])
    {
      assert s[1..][rest[i]] == s[up[i]];
    }
    if Fold(table, s[0]) == 0 {
      at := up;
    } else {
      at := [0] + up;
      CharacterIs(table, s[0]);
      var more := [Slash(Fold(table, s[0]))] + r;
      forall i | 0 <= i < |at|
        ensures at[i] < |s| && more[i] == Character(table, s[at[i]])
      {
        assert i > 0 ==> at[i] == up[i - 1] && more[i] == r[i - 1];
      }
    }
  }

  lemma CharacterIs(table: seq<uint16>, c: uint16)
    requires WellFormed(table)
    ensures Character(table, c) == Slash(Fold(table, c))
  {
  }

  lemma MorePlaces(table: seq<uint16>, s: seq<uint16>, rest: seq<nat>, up: seq<nat>)
    requires WellFormed(table) && s != [] && Places(table, s[1..], rest)
    requires |up| == |rest| && forall i :: 0 <= i < |up| ==> up[i] == rest[i] + 1
    ensures Places(table, s, if Fold(table, s[0]) == 0 then up else [0] + up)
  {
    hide Fold;
    var at := if Fold(table, s[0]) == 0 then up else [0] + up;
    forall i: nat | i < |s|
      ensures i in at <==> Fold(table, s[i]) != 0
    {
      InRaised(rest, up, i);
      assert i > 0 ==> s[1..][i - 1] == s[i];
      assert i in at <==> i in up || (i == 0 && Fold(table, s[0]) != 0);
    }
  }

  lemma InRaised(rest: seq<nat>, up: seq<nat>, i: nat)
    requires |up| == |rest| && forall k :: 0 <= k < |up| ==> up[k] == rest[k] + 1
    ensures i in up <==> i > 0 && i - 1 in rest
  {
    if i > 0 && i - 1 in rest {
      var k :| 0 <= k < |rest| && rest[k] == i - 1;
      assert up[k] == i;
    }
  }

  /** The next character that is not ignored, and the position behind it; 0 at the end of the name. */
  method Next(table: seq<uint16>, s: seq<uint16>, from: nat) returns (c: uint16, to: nat)
    requires WellFormed(table) && from <= |s|
    ensures from <= to <= |s| && (c == 0 ==> to == |s|) && (c != 0 ==> from < to)
    ensures Folded(table, s[from..]) == if c == 0 then [] else [Slash(c)] + Folded(table, s[to..])
  {
    c, to := 0, from;
    while to < |s| && c == 0
      invariant from <= to <= |s| && (c != 0 ==> from < to)
      invariant Folded(table, s[from..]) == (if c == 0 then [] else [Slash(c)]) + Folded(table, s[to..])
      decreases |s| - to
    {
      c := s[to];
      assert s[to..][1..] == s[to + 1..];
      to := to + 1;
      var temp := table[c / 256];
      if temp != 0 {
        c := table[temp + c % 256];
      }
    }
  }

  /** Compares two names character by character: the lexicographic order of the folded names. */
  method FastUnicodeCompare(table: seq<uint16>, str1: seq<uint16>, str2: seq<uint16>) returns (r: int)
    requires WellFormed(table)
    ensures r == Lex(Folded(table, str1), Folded(table, str2))
    ensures r == if Folded(table, str1) == Folded(table, str2) then 0
                 else if Precedes(Folded(table, str1), Folded(table, str2)) then -1 else 1
  {
    LexMeans(Folded(table, str1), Folded(table, str2));
    var i, j := 0, 0;
    assert str1[0..] == str1 && str2[0..] == str2;
    while true
      invariant i <= |str1| && j <= |str2|
      invariant Lex(Folded(table, str1), Folded(table, str2)) == Lex(Folded(table, str1[i..]), Folded(table, str2[j..]))
      decreases |str1| - i
    {
      hide Folded;
      var c1, c2;
      c1, i := Next(table, str1, i);
      c2, j := Next(table, str2, j);
      LexHeads(if c1 == 0 then [] else [Slash(c1)], Folded(table, str1[i..]),
               if c2 == 0 then [] else [Slash(c2)], Folded(table, str2[j..]));
      if c1 == 58 {
        c1 := 47;
      }
      if c2 == 58 {
        c2 := 47;
      }
      if c1 != c2 {
        return if c1 < c2 then -1 else 1;
      }
      if c1 == 0 {
        return 0;
      }
    }
  }

  lemma LexHeads(x: seq<nat>, a: seq<nat>, y: seq<nat>, b: seq<nat>)
    requires |x| <= 1 && |y| <= 1 && (x == [] ==> a == []) && (y == [] ==> b == [])
    ensures Lex(x + a, y + b) ==
      if x == [] && y == [] then 0
      else if x == [] then -1
      else if y == [] then 1
      else if x[0] < y[0] then -1
      else if x[0] > y[0] then 1
      else Lex(a, b)
  {
    assert x != [] ==> (x + a)[1..] == a;
    assert y != [] ==> (y + b)[1..] == b;
  }

  /** The comparison is a weak order whose ties are the names that fold to the same. */
  lemma WeakOrder(table: seq<uint16>, a: seq<uint16>, b: seq<uint16>, c: seq<uint16>)
    requires WellFormed(table)
    ensures Lex(Folded(table, a), Folded(table, b)) == 0 <==> Folded(table, a) == Folded(table, b)
    ensures Lex(Folded(table, b), Folded(table, a)) == -Lex(Folded(table, a), Folded(table, b))
    ensures Lex(Folded(table, a), Folded(table, b)) <= 0 && Lex(Folded(table, b), Folded(table, c)) <= 0 ==>
              Lex(Folded(table, a), Folded(table, c)) <= 0
  {
    hide Folded, Lex;
    LexZero(Folded(table, a), Folded(table, b));
    LexMirror(Folded(table, a), Folded(table, b));
    if Lex(Folded(table, a), Folded(table, b)) <= 0 && Lex(Folded(table, b), Folded(table, c)) <= 0 {
      LexChain(Folded(table, a), Folded(table, b), Folded(table, c));
    }
  }

  /**
   A name ties with the empty name, and so with its own folder's thread record, exactly when all its
   characters are ignored.
   */
  lemma {:induction false} TiesWithThread(table: seq<uint16>, s: seq<uint16>)
    requires WellFormed(table)
    ensures Lex(Folded(table, s), []) == 0 <==> forall i :: 0 <= i < |s| ==> Fold(table, s[i]) == 0
  {
    if s != [] {
      TiesWithThread(table, s[1..]);
      if Fold(table, s[0]) == 0 && forall i :: 0 <= i < |s| - 1 ==> Fold(table, s[1..][i]) == 0 {
        forall i | 0 <= i < |s|
          ensures Fold(table, s[i]) == 0
        {
          assert i > 0 ==> s[i] == s[1..][i - 1];
        }
      }
    }
  }

  // Catalog keys: the parent id first, then the name.

  datatype CatalogKey = CatalogKey(parent: nat, name: seq<uint16>)

  function Slashed(s: seq<uint16>): (r: seq<nat>)
    ensures |r| == |s| && forall i :: 0 <= i < |s| ==> r[i] == if s[i] == 58 then 47 else s[i]
  {
    if s == [] then [] else [Slash(s[0])] + Slashed(s[1..])
  }

  function KeyOrder(a: nat, x: seq<nat>, b: nat, y: seq<nat>): int
  {
    if a < b then -1 else if a > b then 1 else Lex(x, y)
  }

  /** The case-sensitive comparison, character by character. */
  method CatalogCompare(left: CatalogKey, right: CatalogKey) returns (r: int)
    ensures r == KeyOrder(left.parent, Slashed(left.name), right.parent, Slashed(right.name))
    ensures r < 0 <==>
      left.parent < right.parent
      || (left.parent == right.parent && Precedes(Slashed(left.name), Slashed(right.name)))
    ensures r == 0 <==> left.parent == right.parent && Slashed(left.name) == Slashed(right.name)
  {
    LexMeans(Slashed(left.name), Slashed(right.name));
    if Slashed(left.name) == Slashed(right.name) {
      NotBefore(Slashed(left.name));
    }
    if left.parent < right.parent {
      return -1;
    } else if left.parent > right.parent {
      return 1;
    }
    var x, y := left.name, right.name;
    ghost var a, b := Slashed(x), Slashed(y);
    assert a[0..] == a && b[0..] == b;
    var i := 0;
    while i < |x|
      invariant 0 <= i <= |x| && i <= |y|
      invariant Lex(a, b) == Lex(a[i..], b[i..])
    {
      if i >= |y| {
        return 1;
      }
      var cLeft := if x[i] == 58 then 47 else x[i];
      var cRight := if y[i] == 58 then 47 else y[i];
      if cLeft < cRight {
        return -1;
      } else if cLeft > cRight {
        return 1;
      }
      assert a[i..][1..] == a[i + 1..] && b[i..][1..] == b[i + 1..];
      i := i + 1;
    }
    return if i < |y| then -1 else 0;
  }

  method CatalogCompareCS(table: seq<uint16>, left: CatalogKey, right: CatalogKey) returns (r: int)
    requires WellFormed(table)
    ensures r == KeyOrder(left.parent, Folded(table, left.name), right.parent, Folded(table, right.name))
    ensures r < 0 <==>
      left.parent < right.parent
      || (left.parent == right.parent && Precedes(Folded(table, left.name), Folded(table, right.name)))
    ensures r == 0 <==> left.parent == right.parent && Folded(table, left.name) == Folded(table, right.name)
  {
    if Folded(table, left.name) == Folded(table, right.name) {
      NotBefore(Folded(table, left.name));
    }
    if left.parent < right.parent {
      return -1;
    } else if left.parent > right.parent {
      return 1;
    }
    r := FastUnicodeCompare(table, left.name, right.name);
  }

  /** Ordering keys: ties are exactly the keys with the same parent and the same compared name. */
  lemma KeyWeakOrder(a: nat, x: seq<nat>, b: nat, y: seq<nat>, c: nat, w: seq<nat>)
    ensures KeyOrder(a, x, b, y) == 0 <==> a == b && x == y
    ensures KeyOrder(b, y, a, x) == -KeyOrder(a, x, b, y)
    ensures KeyOrder(a, x, b, y) <= 0 && KeyOrder(b, y, c, w) <= 0 ==> KeyOrder(a, x, c, w) <= 0
  {
    hide Lex;
    LexZero(x, y);
    LexMirror(x, y);
    if Lex(x, y) <= 0 && Lex(y, w) <= 0 {
      LexChain(x, y, w);
    }
  }

  /**
   The thread key, with the empty name, comes before the folder's other keys and behind every key of
   a smaller parent.
   */
  lemma ThreadIsFirst(parent: nat, b: nat, y: seq<nat>)
    ensures KeyOrder(parent, [], b, y) <= 0 <==> b >= parent
    ensures KeyOrder(parent, [], b, y) == 0 <==> b == parent && y == []
  {
  }
}
