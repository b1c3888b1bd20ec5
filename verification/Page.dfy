/**
 A B-tree node as raw bytes: records grow up from offset 14, a table of 16-bit big-endian
 offsets grows down from the end, and its last entry is where the free space starts.
 Insertion, deletion and splitting move bytes; they are proved to insert, delete and
 halve the sequence of records.
 */
module Page {
  type byte = b: int | 0 <= b < 256

  function WriteAt(s: seq<byte>, at: nat, b: seq<byte>): (r: seq<byte>)
    requires at + |b| <= |s|
    ensures |r| == |s|
    ensures forall k {:trigger r[k]} :: 0 <= k < |s| ==> r[k] == if at <= k < at + |b| then b[k - at] else s[k]
  {
    s[..at] + b + s[at + |b|..]
  }

  function Word(s: seq<byte>, at: nat): nat
    requires at + 2 <= |s|
  {
    256 * (s[at] as int) + (s[at + 1] as int)
  }

  function WordBytes(w: nat): (r: seq<byte>)
    requires w < 0x1_0000
    ensures |r| == 2
  {
    [w / 256, w % 256]
  }

  /** Words as they lie in memory one after the other. */
  function Bytes(ws: seq<nat>): (r: seq<byte>)
    requires forall j :: 0 <= j < |ws| ==> ws[j] < 0x1_0000
    ensures |r| == 2 * |ws|
  {
    if ws == [] then [] else WordBytes(ws[0]) + Bytes(ws[1..])
  }

  lemma {:induction false} BytesAt(ws: seq<nat>, j: nat)
    requires (forall i :: 0 <= i < |ws| ==> ws[i] < 0x1_0000) && j < |ws|
    ensures Word(Bytes(ws), 2 * j) == ws[j]
  {
    if j > 0 {
      var more := Bytes(ws[1..]);
      BytesAt(ws[1..], j - 1);
      assert Bytes(ws)[2 * j] == more[2 * (j - 1)] && Bytes(ws)[2 * j + 1] == more[2 * (j - 1) + 1];
    }
  }

  lemma WordWritten(s: seq<byte>, at: nat, b: seq<byte>, x: nat)
    requires at + |b| <= |s| && x + 2 <= |b|
    ensures Word(WriteAt(s, at, b), at + x) == Word(b, x)
  {
    hide WriteAt;
    var r := WriteAt(s, at, b);
    assert r[at + x] == b[x] && r[at + x + 1] == b[x + 1];
  }

  lemma WordOfBytes(s: seq<byte>, at: nat, ws: seq<nat>, j: nat)
    requires forall i :: 0 <= i < |ws| ==> ws[i] < 0x1_0000
    requires at + 2 * |ws| <= |s| && j < |ws|
    ensures Word(WriteAt(s, at, Bytes(ws)), at + 2 * j) == ws[j]
  {
    hide Bytes, WriteAt, Word;
    BytesAt(ws, j);
    WordWritten(s, at, Bytes(ws), 2 * j);
  }

  /** Entry i of the offset table, counted from the end of the page. */
  function Off(s: seq<byte>, i: nat): nat
    requires 2 * (i + 1) <= |s|
  {
    Word(s, |s| - 2 * (i + 1))
  }

  /** n records from offset 14 on, in order, clear of the table's n + 1 entries. */
  ghost predicate Layout(s: seq<byte>, n: nat)
  {
    && 14 + 2 * (n + 1) <= |s| < 0x1_0000
    && Off(s, 0) == 14
    && (forall i, j :: 0 <= i <= j <= n ==> Off(s, i) <= Off(s, j))
    && Off(s, n) + 2 * (n + 1) <= |s|
  }

  ghost function Record(s: seq<byte>, n: nat, i: nat): seq<byte>
    requires Layout(s, n) && i < n
  {
    s[Off(s, i)..Off(s, i + 1)]
  }

  /** The sequence of records a page stands for. */
  ghost function Records(s: seq<byte>, n: nat): (r: seq<seq<byte>>)
    requires Layout(s, n)
    ensures |r| == n && forall i :: 0 <= i < n ==> r[i] == Record(s, n, i)
  {
    seq(n, i requires 0 <= i < n => Record(s, n, i))
  }

  /** The bytes taken by a record sequence. */
  function Size(rs: seq<seq<byte>>): nat
  {
    if rs == [] then 0 else Size(rs[..|rs| - 1]) + |rs[|rs| - 1]|
  }

  lemma {:induction false} OffIsSize(s: seq<byte>, n: nat, i: nat)
    requires Layout(s, n) && i <= n
    ensures Off(s, i) == 14 + Size(Records(s, n)[..i])
    ensures 256 * (s[|s| - 2 * i - 2] as int) + (s[|s| - 2 * i - 1] as int) == 14 + Size(Records(s, n)[..i])
  {
    if i > 0 {
      OffIsSize(s, n, i - 1);
      var r := Records(s, n)[..i];
      assert r[..|r| - 1] == Records(s, n)[..i - 1];
    }
  }

  /** The offsets and bytes of page t are those of s with record b put in at i. */
  ghost predicate Opened(s: seq<byte>, n: nat, i: nat, b: seq<byte>, t: seq<byte>)
    requires Layout(s, n) && i <= n
  {
    && |t| == |s| && Off(s, n) + |b| + 2 * (n + 2) <= |s|
    && (forall j :: 0 <= j <= i ==> Off(t, j) == Off(s, j))
    && (forall j :: i < j <= n + 1 ==> Off(t, j) == Off(s, j - 1) + |b|)
    && Off(s, 0) <= Off(s, i) <= Off(s, n)
    && (forall k :: 0 <= k < Off(s, i) ==> t[k] == s[k])
    && (forall k :: 0 <= k < |b| ==> t[k + Off(s, i)] == b[k])
    && (forall k :: Off(s, i) <= k < Off(s, n) ==> t[k + |b|] == s[k])
  }

  lemma OpenedLayout(s: seq<byte>, n: nat, i: nat, b: seq<byte>, t: seq<byte>)
    requires Layout(s, n) && i <= n && Opened(s, n, i, b, t)
    ensures Layout(t, n + 1)
  {
    hide Word;
    assert Off(t, 0) == 14;
    forall x, y | 0 <= x <= y <= n + 1
      ensures Off(t, x) <= Off(t, y)
    {
      assert Off(s, if x <= i then x else x - 1) <= Off(s, if y <= i then y else y - 1);
    }
  }

  lemma Shifted(s: seq<byte>, t: seq<byte>, x: nat, y: nat, u: nat)
    requires x <= y <= |s| && u + (y - x) <= |t|
    requires forall k :: x <= k < y ==> t[k + u - x] == s[k]
    ensures t[u..u + (y - x)] == s[x..y]
  {
    forall k | 0 <= k < y - x
      ensures t[u..u + (y - x)][k] == s[x..y][k]
    {
      assert t[x + k + u - x] == s[x + k];
    }
  }

  lemma SamePart(s: seq<byte>, t: seq<byte>, x: nat, y: nat)
    requires x <= y <= |s| && y <= |t| && forall k :: x <= k < y ==> t[k] == s[k]
    ensures t[x..y] == s[x..y]
  {
  }

  lemma OpenedBefore(s: seq<byte>, n: nat, i: nat, b: seq<byte>, t: seq<byte>, j: nat)
    requires Layout(s, n) && i <= n && Opened(s, n, i, b, t) && Layout(t, n + 1) && j < i
    ensures Record(t, n + 1, j) == Record(s, n, j)
  {
    hide Word, Off;
    SamePart(s, t, Off(s, j), Off(s, j + 1));
  }

  lemma OpenedNew(s: seq<byte>, n: nat, i: nat, b: seq<byte>, t: seq<byte>)
    requires Layout(s, n) && i <= n && Opened(s, n, i, b, t) && Layout(t, n + 1)
    ensures Record(t, n + 1, i) == b
  {
    hide Word, Off;
    forall k | 0 <= k < |b|
      ensures t[k + Off(s, i) - 0] == b[k]
    {
    }
    Shifted(b, t, 0, |b|, Off(s, i));
    assert b[0..|b|] == b;
  }

  lemma OpenedByte(s: seq<byte>, n: nat, i: nat, b: seq<byte>, t: seq<byte>, k: nat)
    requires Layout(s, n) && i <= n && Opened(s, n, i, b, t) && Off(s, i) <= k < Off(s, n)
    ensures k + |b| < |t| && t[k + |b|] == s[k]
  {
    hide Word, Off;
  }

  lemma OpenedEntries(s: seq<byte>, n: nat, i: nat, b: seq<byte>, t: seq<byte>, j: nat)
    requires Layout(s, n) && i <= n && Opened(s, n, i, b, t) && i < j <= n
    ensures |t| == |s| && Off(t, j) == Off(s, j - 1) + |b| && Off(t, j + 1) == Off(s, j) + |b|
    ensures Off(s, i) <= Off(s, j - 1) <= Off(s, j) <= Off(s, n)
  {
    hide Word, Off;
  }

  lemma OpenedAfter(s: seq<byte>, n: nat, i: nat, b: seq<byte>, t: seq<byte>, j: nat)
    requires Layout(s, n) && i <= n && Opened(s, n, i, b, t) && Layout(t, n + 1) && i < j <= n
    ensures Record(t, n + 1, j) == Record(s, n, j - 1)
  {
    OpenedEntries(s, n, i, b, t, j);
    hide Word, Off, Opened, Layout;
    var x, y := Off(s, j - 1), Off(s, j);
    var u, v := Record(t, n + 1, j), Record(s, n, j - 1);
    forall k | 0 <= k < y - x
      ensures u[k] == v[k]
    {
      OpenedByte(s, n, i, b, t, x + k);
    }
  }

  lemma OpenedRecords(s: seq<byte>, n: nat, i: nat, b: seq<byte>, t: seq<byte>)
    requires Layout(s, n) && i <= n && Opened(s, n, i, b, t)
    ensures Layout(t, n + 1) && Records(t, n + 1) == Records(s, n)[..i] + [b] + Records(s, n)[i..]
  {
    OpenedLayout(s, n, i, b, t);
    hide Opened, Layout, Off, Word, Record;
    var u, v := Records(t, n + 1), Records(s, n)[..i] + [b] + Records(s, n)[i..];
    forall j | 0 <= j <= n
      ensures u[j] == v[j]
    {
      if j < i {
        OpenedBefore(s, n, i, b, t, j);
      } else if j == i {
        OpenedNew(s, n, i, b, t);
      } else {
        OpenedAfter(s, n, i, b, t, j);
      }
    }
  }

  /** The offsets and bytes of page t are those of s with record i taken out. */
  ghost predicate Closed(s: seq<byte>, n: nat, i: nat, t: seq<byte>)
    requires Layout(s, n) && i < n
  {
    && |t| == |s|
    && Off(s, 0) <= Off(s, i) <= Off(s, i + 1) <= Off(s, n)
    && (forall j :: 0 <= j <= i ==> Off(t, j) == Off(s, j))
    && (forall j :: i + 1 < j <= n ==> Off(t, j - 1) == Off(s, j) - (Off(s, i + 1) - Off(s, i)))
    && (forall k :: 0 <= k < Off(s, i) ==> t[k] == s[k])
    && (forall k :: Off(s, i + 1) <= k < Off(s, n) ==> t[k - (Off(s, i + 1) - Off(s, i))] == s[k])
  }

  lemma ClosedLayout(s: seq<byte>, n: nat, i: nat, t: seq<byte>)
    requires Layout(s, n) && i < n && Closed(s, n, i, t)
    ensures Layout(t, n - 1)
  {
    assert Off(t, 0) == 14;
    forall x, y | 0 <= x <= y <= n - 1
      ensures Off(t, x) <= Off(t, y)
    {
      assert Off(s, if x <= i then x else x + 1) <= Off(s, if y <= i then y else y + 1);
      assert x > i ==> Off(t, x + 1 - 1) == Off(s, x + 1) - (Off(s, i + 1) - Off(s, i));
      assert y > i ==> Off(t, y + 1 - 1) == Off(s, y + 1) - (Off(s, i + 1) - Off(s, i));
    }
  }

  lemma ClosedRecords(s: seq<byte>, n: nat, i: nat, t: seq<byte>)
    requires Layout(s, n) && i < n && Closed(s, n, i, t)
    ensures Layout(t, n - 1) && Records(t, n - 1) == Records(s, n)[..i] + Records(s, n)[i + 1..]
  {
    ClosedLayout(s, n, i, t);
    hide Closed, Layout, Off, Word, Record;
    var u, v := Records(t, n - 1), Records(s, n)[..i] + Records(s, n)[i + 1..];
    forall j | 0 <= j < |u|
      ensures u[j] == v[j]
    {
      if j < i {
        ClosedBefore(s, n, i, t, j);
      } else {
        ClosedAfter(s, n, i, t, j);
      }
    }
  }

  lemma ClosedByte(s: seq<byte>, n: nat, i: nat, t: seq<byte>, k: nat)
    requires Layout(s, n) && i < n && Closed(s, n, i, t) && Off(s, i + 1) <= k < Off(s, n)
    ensures var at := k - (Off(s, i + 1) - Off(s, i)); 0 <= at < |t| && t[at] == s[k]
  {
    hide Word, Off;
  }

  lemma ClosedEntries(s: seq<byte>, n: nat, i: nat, t: seq<byte>, j: nat)
    requires Layout(s, n) && i < n && Closed(s, n, i, t) && i <= j < n - 1
    ensures var len := Off(s, i + 1) - Off(s, i);
      |t| == |s| && Off(t, j) == Off(s, j + 1) - len && Off(t, j + 1) == Off(s, j + 2) - len
    ensures Off(s, i + 1) <= Off(s, j + 1) <= Off(s, j + 2) <= Off(s, n)
  {
    hide Word, Off;
    assert Off(t, j + 2 - 1) == Off(s, j + 2) - (Off(s, i + 1) - Off(s, i));
    assert j > i ==> Off(t, j + 1 - 1) == Off(s, j + 1) - (Off(s, i + 1) - Off(s, i));
  }

  lemma ClosedBefore(s: seq<byte>, n: nat, i: nat, t: seq<byte>, j: nat)
    requires Layout(s, n) && i < n && Closed(s, n, i, t) && Layout(t, n - 1) && j < i
    ensures Record(t, n - 1, j) == Record(s, n, j)
  {
    hide Word, Off;
    SamePart(s, t, Off(s, j), Off(s, j + 1));
  }

  lemma ClosedAfter(s: seq<byte>, n: nat, i: nat, t: seq<byte>, j: nat)
    requires Layout(s, n) && i < n && Closed(s, n, i, t) && Layout(t, n - 1) && i <= j < n - 1
    ensures Record(t, n - 1, j) == Record(s, n, j + 1)
  {
    ClosedEntries(s, n, i, t, j);
    hide Word, Off, Closed, Layout;
    var x, y := Off(s, j + 1), Off(s, j + 2);
    var u, v := Record(t, n - 1, j), Record(s, n, j + 1);
    forall k | 0 <= k < y - x
      ensures u[k] == v[k]
    {
      ClosedByte(s, n, i, t, x + k);
    }
  }

  /** Page t holds the records of s from i on. */
  ghost predicate TailOf(s: seq<byte>, n: nat, i: nat, t: seq<byte>)
    requires Layout(s, n) && i <= n
  {
    && |t| == |s|
    && (forall j :: 0 <= j <= n - i ==> Off(t, j) == Off(s, i + j) - Off(s, i) + 14)
    && (forall k :: Off(s, i) <= k < Off(s, n) && 0 <= k - Off(s, i) + 14 < |t| ==> t[k - Off(s, i) + 14] == s[k])
  }

  lemma TailRecords(s: seq<byte>, n: nat, i: nat, t: seq<byte>)
    requires Layout(s, n) && i <= n && TailOf(s, n, i, t)
    ensures Layout(t, n - i) && Records(t, n - i) == Records(s, n)[i..]
  {
    TailLayout(s, n, i, t);
    var u := Records(s, n)[i..];
    forall j | 0 <= j < |u|
      ensures Records(t, n - i)[j] == u[j]
    {
      TailRecord(s, n, i, t, j);
    }
  }

  lemma TailLayout(s: seq<byte>, n: nat, i: nat, t: seq<byte>)
    requires Layout(s, n) && i <= n && TailOf(s, n, i, t)
    ensures Layout(t, n - i)
  {
    hide Word;
    assert Off(t, 0) == 14;
    forall x, y | 0 <= x <= y <= n - i
      ensures Off(t, x) <= Off(t, y)
    {
      assert Off(s, i + x) <= Off(s, i + y);
    }
  }

  lemma TailRecord(s: seq<byte>, n: nat, i: nat, t: seq<byte>, j: nat)
    requires Layout(s, n) && i <= n && TailOf(s, n, i, t) && Layout(t, n - i) && j < n - i
    ensures Record(t, n - i, j) == Record(s, n, i + j)
  {
    hide Word, Off;
    var x, y, u := Off(s, i + j), Off(s, i + j + 1), Off(s, i + j) - Off(s, i) + 14;
    forall k | x <= k < y
      ensures t[k + u - x] == s[k]
    {
      assert k + u - x == k - Off(s, i) + 14;
    }
    Shifted(s, t, x, y, u);
  }

  lemma HeadRecords(s: seq<byte>, n: nat, i: nat)
    requires Layout(s, n) && i <= n
    ensures Layout(s, i) && Records(s, i) == Records(s, n)[..i]
  {
    assert forall j :: 0 <= j < i ==> Record(s, i, j) == Record(s, n, j);
  }

  /** Entries r..n of the offset table in memory order (last entry first), each moved by len. */
  ghost function MovedWords(s: seq<byte>, n: nat, r: nat, len: int): (ws: seq<nat>)
    requires Layout(s, n) && r <= n && 0 <= Off(s, r) + len && Off(s, n) + len < 0x1_0000
    ensures |ws| == n + 1 - r && forall j :: 0 <= j < |ws| ==> ws[j] == Off(s, n - j) + len && ws[j] < 0x1_0000
    decreases n - r
  {
    assert r < n ==> Off(s, r) <= Off(s, r + 1);
    assert Off(s, r) <= Off(s, n);
    (if r == n then [] else MovedWords(s, n, r + 1, len)) + [Off(s, r) + len]
  }

  ghost predicate CanMove(s: seq<byte>, n: nat, r: nat, len: int, dir: int)
  {
    && Layout(s, n) && r <= n && -1 <= dir <= 1 && 1 <= r + dir + 1
    && 14 <= Off(s, r) + len && Off(s, n) + len + 2 * (n + 1 + dir) <= |s|
    && Off(s, n) + 2 * (n + 1 + dir) <= |s|
  }

  /** The page after records r.. have moved by len bytes and their entries by dir places. */
  ghost function MoveDown(s: seq<byte>, n: nat, r: nat, len: int, dir: int): seq<byte>
    requires CanMove(s, n, r, len, dir)
  {
    var t := WriteAt(s, Off(s, r) + len, s[Off(s, r)..Off(s, n)]);
    WriteAt(t, |s| - 2 * (n + 1 + dir), Bytes(MovedWords(s, n, r, len)))
  }

  lemma WordSame(s: seq<byte>, at: nat, b: seq<byte>, x: nat)
    requires at + |b| <= |s| && x + 2 <= |s| && (x + 2 <= at || at + |b| <= x)
    ensures Word(WriteAt(s, at, b), x) == Word(s, x)
  {
  }

  lemma MovedEntry(s: seq<byte>, n: nat, r: nat, len: int, dir: int, j: nat)
    requires CanMove(s, n, r, len, dir) && 2 * (j + 1) <= |s| && j <= n + dir
    ensures Off(MoveDown(s, n, r, len, dir), j) == if j < r + dir then Off(s, j) else Off(s, j - dir) + len
  {
    hide Word;
    var b := s[Off(s, r)..Off(s, n)];
    var t := WriteAt(s, Off(s, r) + len, b);
    var at, ws := |s| - 2 * (n + 1 + dir), MovedWords(s, n, r, len);
    if j >= r + dir {
      WordOfBytes(t, at, ws, n + dir - j);
    } else {
      WordSame(t, at, Bytes(ws), |s| - 2 * (j + 1));
      WordSame(s, Off(s, r) + len, b, |s| - 2 * (j + 1));
    }
  }

  lemma MovedByte(s: seq<byte>, n: nat, r: nat, len: int, dir: int, k: nat)
    requires CanMove(s, n, r, len, dir)
    ensures k < Off(s, r) && k < Off(s, r) + len ==> MoveDown(s, n, r, len, dir)[k] == s[k]
    ensures Off(s, r) <= k < Off(s, n) ==> MoveDown(s, n, r, len, dir)[k + len] == s[k]
  {
    hide Word;
    assert Off(s, r) <= Off(s, n);
    var b := s[Off(s, r)..Off(s, n)];
    var t := WriteAt(s, Off(s, r) + len, b);
    assert Off(s, r) <= k < Off(s, n) ==> t[k + len] == b[k - Off(s, r)];
    assert k < Off(s, r) && k < Off(s, r) + len ==> t[k] == s[k];
  }

  lemma WordBack(s: seq<byte>, at: nat, w: nat)
    requires at + 2 <= |s| && w < 0x1_0000
    ensures Word(WriteAt(s, at, WordBytes(w)), at) == w
  {
  }

  lemma OpenedEntry(s: seq<byte>, n: nat, i: nat, b: seq<byte>, t: seq<byte>, j: nat)
    requires Layout(s, n) && i < n && Off(s, n) + |b| + 2 * (n + 2) <= |s| && j <= n + 1
    requires CanMove(s, n, i, |b|, 1) && |MoveDown(s, n, i, |b|, 1)| == |s| && Off(s, i) <= Off(s, n)
    requires t == WriteAt(WriteAt(MoveDown(s, n, i, |b|, 1), Off(s, i), b), |s| - 2 * (i + 1), WordBytes(Off(s, i)))
    ensures Off(t, j) == if j <= i then Off(s, j) else Off(s, j - 1) + |b|
  {
    hide Word, MoveDown, CanMove, WordBytes;
    var m := MoveDown(s, n, i, |b|, 1);
    var u := WriteAt(m, Off(s, i), b);
    if j == i {
      WordBack(u, |s| - 2 * (i + 1), Off(s, i));
    } else {
      MovedEntry(s, n, i, |b|, 1, j);
      WordSame(m, Off(s, i), b, |s| - 2 * (j + 1));
      WordSame(u, |s| - 2 * (i + 1), WordBytes(Off(s, i)), |s| - 2 * (j + 1));
    }
  }

  /** An insertion before another record: the tail moves up, the record and its entry are written. */
  lemma OpenedInside(s: seq<byte>, n: nat, i: nat, b: seq<byte>, t: seq<byte>)
    requires Layout(s, n) && i < n && Off(s, n) + |b| + 2 * (n + 2) <= |s|
    requires CanMove(s, n, i, |b|, 1) && |MoveDown(s, n, i, |b|, 1)| == |s| && Off(s, i) <= Off(s, n)
    requires t == WriteAt(WriteAt(MoveDown(s, n, i, |b|, 1), Off(s, i), b), |s| - 2 * (i + 1), WordBytes(Off(s, i)))
    ensures Opened(s, n, i, b, t)
  {
    hide Word, MoveDown, CanMove, WordBytes;
    assert Off(s, 0) <= Off(s, i) <= Off(s, n);
    var m := MoveDown(s, n, i, |b|, 1);
    var u := WriteAt(m, Off(s, i), b);
    forall j | 0 <= j <= i
      ensures Off(t, j) == Off(s, j)
    {
      OpenedEntry(s, n, i, b, t, j);
    }
    forall j | i < j <= n + 1
      ensures Off(t, j) == Off(s, j - 1) + |b|
    {
      OpenedEntry(s, n, i, b, t, j);
    }
    forall k | 0 <= k < Off(s, n)
      ensures k < Off(s, i) ==> t[k] == s[k]
      ensures k >= Off(s, i) ==> t[k + |b|] == s[k]
    {
      MovedByte(s, n, i, |b|, 1, k);
    }
    forall k | 0 <= k < |b|
      ensures t[k + Off(s, i)] == b[k]
    {
      assert u[k + Off(s, i)] == b[k];
    }
  }

  lemma CanOpen(s: seq<byte>, n: nat, i: nat, len: nat)
    requires Layout(s, n) && i <= n && Off(s, n) + len + 2 * (n + 2) <= |s|
    ensures CanMove(s, n, i, len, 1) && |MoveDown(s, n, i, len, 1)| == |s|
    ensures 14 <= Off(s, i) <= Off(s, n)
  {
    assert Off(s, 0) <= Off(s, i);
  }

  /** An insertion behind the last record: the record and the new free-space entry are written. */
  lemma OpenedAtEnd(s: seq<byte>, n: nat, b: seq<byte>, t: seq<byte>)
    requires Layout(s, n) && Off(s, n) + |b| + 2 * (n + 2) <= |s|
    requires t == WriteAt(WriteAt(s, Off(s, n), b), |s| - 2 * (n + 2), WordBytes(Off(s, n) + |b|))
    ensures Opened(s, n, n, b, t)
  {
    hide Word, WordBytes;
    assert Off(s, 0) <= Off(s, n);
    var u, w := WriteAt(s, Off(s, n), b), WordBytes(Off(s, n) + |b|);
    forall j | 0 <= j <= n + 1
      ensures Off(t, j) == if j <= n then Off(s, j) else Off(s, n) + |b|
    {
      if j == n + 1 {
        WordBack(u, |s| - 2 * (n + 2), Off(s, n) + |b|);
      } else {
        WordSame(s, Off(s, n), b, |s| - 2 * (j + 1));
        WordSame(u, |s| - 2 * (n + 2), w, |s| - 2 * (j + 1));
      }
    }
    forall k | 0 <= k < |b|
      ensures t[k + Off(s, n)] == b[k]
    {
      assert u[k + Off(s, n)] == b[k];
    }
  }

  /** Removing record i by moving the later records and entries back over it. */
  lemma ClosedInside(s: seq<byte>, n: nat, i: nat)
    requires Layout(s, n) && i + 1 < n
    ensures CanMove(s, n, i + 1, Off(s, i) - Off(s, i + 1), -1)
    ensures Closed(s, n, i, MoveDown(s, n, i + 1, Off(s, i) - Off(s, i + 1), -1))
  {
    hide Word, MoveDown;
    assert Off(s, 0) <= Off(s, i) <= Off(s, i + 1) <= Off(s, n);
    var len := Off(s, i) - Off(s, i + 1);
    assert CanMove(s, n, i + 1, len, -1);
    var t := MoveDown(s, n, i + 1, len, -1);
    MovedSize(s, n, i + 1, len, -1);
    forall j | 0 <= j <= i
      ensures Off(t, j) == Off(s, j)
    {
      MovedEntry(s, n, i + 1, len, -1, j);
    }
    forall j | i + 1 < j <= n
      ensures Off(t, j - 1) == Off(s, j) + len
    {
      MovedEntry(s, n, i + 1, len, -1, j - 1);
    }
    forall k | 0 <= k < Off(s, n)
      ensures k < Off(s, i) ==> t[k] == s[k]
      ensures k >= Off(s, i + 1) ==> t[k + len] == s[k]
    {
      MovedByte(s, n, i + 1, len, -1, k);
    }
    forall k | Off(s, i + 1) <= k < Off(s, n)
      ensures t[k - (Off(s, i + 1) - Off(s, i))] == s[k]
    {
      assert k - (Off(s, i + 1) - Off(s, i)) == k + len;
    }
  }

  lemma MovedSize(s: seq<byte>, n: nat, r: nat, len: int, dir: int)
    requires CanMove(s, n, r, len, dir)
    ensures |MoveDown(s, n, r, len, dir)| == |s|
  {
  }

  class Page {
    var data: seq<byte>
    var numRecords: nat

    ghost predicate Valid()
      reads this
    {
      Layout(data, numRecords)
    }

    ghost function Contents(): (r: seq<seq<byte>>)
      reads this
      requires Valid()
      ensures |r| == numRecords
    {
      Records(data, numRecords)
    }

    function GetRecordOffset(num: nat): (r: nat)
      reads this
      requires Valid() && num <= numRecords
      ensures r == 14 + Size(Contents()[..num])
    {
      OffIsSize(data, numRecords, num);
      Off(data, num)
    }

    /** The free bytes: the page less its descriptor, its records and their n + 1 table entries. */
    function GetFreeSpace(): (r: nat)
      reads this
      requires Valid()
      ensures r == |data| - 14 - Size(Contents()) - 2 * (numRecords + 1)
    {
      OffIsSize(data, numRecords, numRecords);
      assert Contents()[..numRecords] == Contents();
      |data| - 2 * (numRecords + 1) - Off(data, numRecords)
    }

    /** Copies records r.. and their table entries out, and back in at their new places. */
    method MoveRecordsDown(record: nat, length: int, moveOffsets: int)
      requires CanMove(data, numRecords, record, length, moveOffsets)
      modifies this`data
      ensures data == MoveDown(old(data), numRecords, record, length, moveOffsets)
    {
      hide Word, Bytes, WriteAt, MovedWords;
      var firstRecordStart, lastRecordEnd := Off(data, record), Off(data, numRecords);
      assert Off(data, record) <= Off(data, numRecords);
      var records := data[firstRecordStart..lastRecordEnd];
      var firstOffsetStart := |data| - 2 * (numRecords + 1);
      var offsets := ReadOffsets(record, length);
      data := WriteAt(data, firstRecordStart + length, records);
      if moveOffsets > 0 {
        data := WriteAt(data, firstOffsetStart - 2, Bytes(offsets));
      } else if moveOffsets < 0 {
        data := WriteAt(data, firstOffsetStart + 2, Bytes(offsets));
      } else {
        data := WriteAt(data, firstOffsetStart, Bytes(offsets));
      }
    }

    /** The table entries r.. in memory order, each moved by length. */
    method ReadOffsets(record: nat, length: int) returns (offsets: seq<nat>)
      requires Valid() && record <= numRecords && 0 <= Off(data, record) + length
        && Off(data, numRecords) + length < 0x1_0000
      ensures offsets == MovedWords(data, numRecords, record, length)
    {
      hide Word;
      offsets := [];
      var i := 0;
      while i < numRecords + 1 - record
        invariant 0 <= i <= numRecords + 1 - record && |offsets| == i
        invariant forall j :: 0 <= j < i ==> offsets[j] == Off(data, numRecords - j) + length
      {
        assert Off(data, record) <= Off(data, numRecords - i) <= Off(data, numRecords);
        var offset := Word(data, |data| - 2 * (numRecords + 1) + 2 * i);
        offsets := offsets + [(offset + length) % 0x1_0000];
        i := i + 1;
      }
    }

    /** Inserts a record that fits before record i, or behind the last one. */
    method InsertRecord(i: nat, b: seq<byte>)
      requires Valid() && i <= numRecords && |b| + 2 <= GetFreeSpace()
      modifies this
      ensures Valid() && Contents() == old(Contents())[..i] + [b] + old(Contents())[i..]
      ensures |data| == |old(data)|
    {
      hide Word, MoveDown, CanMove, Opened, WriteAt, Size;
      ghost var s, n := data, numRecords;
      CanOpen(s, n, i, |b|);
      var recordOffset := GetRecordOffset(i);
      if i != numRecords {
        MoveRecordsDown(i, |b|, 1);
        data := WriteAt(data, recordOffset, b);
        data := WriteAt(data, |data| - 2 * (i + 1), WordBytes(recordOffset));
        OpenedInside(s, n, i, b, data);
      } else {
        data := WriteAt(data, recordOffset, b);
        data := WriteAt(data, |data| - 2 * (numRecords + 2), WordBytes(recordOffset + |b|));
        OpenedAtEnd(s, n, b, data);
      }
      OpenedRecords(s, n, i, b, data);
      numRecords := numRecords + 1;
    }

    /** Deletes record i; the last record's old entry becomes the free-space entry. */
    method DeleteRecord(i: nat)
      requires Valid() && i < numRecords
      modifies this
      ensures Valid() && Contents() == old(Contents())[..i] + old(Contents())[i + 1..]
      ensures |data| == |old(data)|
    {
      hide Closed, Word, MoveDown, Record;
      ghost var s, n := data, numRecords;
      if i != numRecords - 1 {
        var length := GetRecordOffset(i + 1) - GetRecordOffset(i);
        ClosedInside(s, n, i);
        MovedSize(s, n, i + 1, -length, -1);
        MoveRecordsDown(i + 1, -length, -1);
        ClosedRecords(s, n, i, data);
      } else {
        HeadRecords(s, n, i);
        assert Records(s, n)[i + 1..] == [];
      }
      numRecords := numRecords - 1;
    }

    /** Writes the upper half of the records to an empty page; this page keeps the lower half. */
    method SplitInto(other: Page)
      requires Valid() && other != this && |other.data| == |data|
      modifies this, other
      ensures Valid() && other.Valid()
      ensures Contents() == old(Contents())[..old(numRecords) / 2]
      ensures other.Contents() == old(Contents())[old(numRecords) / 2..]
      ensures data == old(data) && |other.data| == |data|
    {
      ghost var s, n := data, numRecords;
      hide Word, Bytes, WriteAt, MovedWords, TailOf;
      var half := numRecords / 2;
      assert Off(data, 0) <= Off(data, half) <= Off(data, numRecords);
      var nodesToMove := numRecords - half;
      var toMove: int := Off(data, half);
      var buffer := data[toMove..Off(data, numRecords)];
      var offsets := ReadOffsets(half, 14 - toMove);
      other.data := WriteAt(other.data, 14, buffer);
      other.data := WriteAt(other.data, |data| - 2 * (nodesToMove + 1), Bytes(offsets));
      other.numRecords := nodesToMove;
      numRecords := half;
      SplitTail(s, n, half, old(other.data), other.data);
      TailRecords(s, n, half, other.data);
      HeadRecords(s, n, half);
    }
  }

  lemma SplitTail(s: seq<byte>, n: nat, i: nat, u: seq<byte>, t: seq<byte>)
    requires Layout(s, n) && i <= n && |u| == |s|
    requires t == WriteAt(WriteAt(u, 14, s[Off(s, i)..Off(s, n)]), |s| - 2 * (n - i + 1),
                          Bytes(MovedWords(s, n, i, 14 - Off(s, i))))
    ensures TailOf(s, n, i, t)
  {
    hide Word, Bytes, WriteAt, MovedWords;
    assert Off(s, 0) <= Off(s, i) <= Off(s, n);
    var b, ws, at := s[Off(s, i)..Off(s, n)], MovedWords(s, n, i, 14 - Off(s, i)), |s| - 2 * (n - i + 1);
    var v := WriteAt(u, 14, b);
    assert 14 + |b| <= at && at + 2 * |ws| == |s|;
    SplitEntries(s, n, i, v, t, ws);
    forall k | Off(s, i) <= k < Off(s, n) && 0 <= k - Off(s, i) + 14 < |t|
      ensures t[k - Off(s, i) + 14] == s[k]
    {
      TailByte(s, v, u, Off(s, i), Off(s, n), k);
    }
  }

  lemma SplitEntries(s: seq<byte>, n: nat, i: nat, v: seq<byte>, t: seq<byte>, ws: seq<nat>)
    requires Layout(s, n) && i <= n && |v| == |s| && 14 - Off(s, i) + Off(s, i) >= 0
      && 14 - Off(s, i) + Off(s, n) < 0x1_0000
    requires ws == MovedWords(s, n, i, 14 - Off(s, i)) && t == WriteAt(v, |s| - 2 * (n - i + 1), Bytes(ws))
    ensures forall j :: 0 <= j <= n - i ==> Off(t, j) == Off(s, i + j) - Off(s, i) + 14
  {
    hide Word, Bytes, WriteAt, MovedWords;
    forall j | 0 <= j <= n - i
      ensures Off(t, j) == Off(s, i + j) - Off(s, i) + 14
    {
      WordOfBytes(v, |s| - 2 * (n - i + 1), ws, n - i - j);
      assert ws[n - i - j] == Off(s, n - (n - i - j)) + (14 - Off(s, i));
    }
  }

  lemma TailByte(s: seq<byte>, v: seq<byte>, u: seq<byte>, x: nat, y: nat, k: nat)
    requires x <= k < y <= |s| && 14 + (y - x) <= |u| && v == WriteAt(u, 14, s[x..y])
    ensures v[k - x + 14] == s[k]
  {
    assert s[x..y][k - x] == s[k];
  }
}
