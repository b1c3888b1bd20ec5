/**
 The LZSS decoder: a ring buffer of 4096 bytes against plain LZ77, where a copy reaches back any
 distance up to 4096 into everything decoded so far.
 */
module Lzss {
  import opened Arithmetic
  import opened Bitmap
  import opened Bytes

  const N := 4096
  const F := 18
  const SPACE: bv8 := 0x20

  datatype Token = Literal(b: bv8) | Copy(position: nat, len: nat)

  /** The ring position in a copy token. */
  function Position(i: bv8, j: bv8): nat
  {
    ((i as bv16) | (((j & 0xF0) as bv16) << 4)) as nat
  }

  /** The length of a copy token: the low four bits plus three. */
  function Length(j: bv8): nat
  {
    ((j & 0x0F) as nat) + 3
  }

  /** Position and length as numbers: twelve and four bits, the upper four of the position above the lower eight. */
  lemma CopyFields(i: bv8, j: bv8)
    ensures Position(i, j) == i as nat + 256 * (j as nat / 16) < 4096
    ensures Length(j) == j as nat % 16 + 3
  {
    PositionIs(i, j);
    LengthIs(j);
  }

  lemma PositionIs(i: bv8, j: bv8)
    ensures Position(i, j) == i as nat + 256 * (j as nat / 16)
  {
  }

  lemma LengthIs(j: bv8)
    ensures Length(j) == j as nat % 16 + 3
  {
  }

  /** Token k of a group is a literal when bit k of the flag byte, from the lowest, is set. */
  predicate IsLiteral(flag: bv8, k: nat)
    requires k < 8
  {
    Test(flag, 7 - k)
  }

  /** The tokens from place `at` on: a flag byte announces every group of eight. */
  function Groups(src: seq<bv8>, at: nat): seq<Token>
    decreases |src| - at, 9
  {
    if at >= |src| then [] else Group(src, at + 1, src[at], 0)
  }

  /** Tokens k to 7 of a group, and the groups behind; a token cut off by the end of input is dropped. */
  function Group(src: seq<bv8>, at: nat, flag: bv8, k: nat): seq<Token>
    requires k <= 8
    decreases |src| - at, if k == 8 then 10 else 8 - k
  {
    if k == 8 then Groups(src, at)
    else if at >= |src| then []
    else if IsLiteral(flag, k) then [Literal(src[at])] + Group(src, at + 1, flag, k + 1)
    else if at + 1 >= |src| then []
    else [Copy(Position(src[at], src[at + 1]), Length(src[at + 1]))] + Group(src, at + 2, flag, k + 1)
  }

  /** The ring slot of byte m of the history, which starts with N spaces. */
  function Slot(m: nat): nat
  {
    (m + N - F) % N
  }

  /** How far back from the end of a history of n bytes a ring position reaches: 1 to N. */
  function Back(n: nat, position: nat): (d: nat)
    ensures 1 <= d <= N
  {
    var d := (Slot(n) + N - position % N) % N;
    if d == 0 then N else d
  }

  /** LZ77: one byte after the other from distance d back. */
  function Extend(h: seq<bv8>, d: nat, len: nat): (r: seq<bv8>)
    requires 1 <= d <= |h|
    ensures |r| == |h| + len
  {
    if len == 0 then h else
    var r := Extend(h, d, len - 1);
    r + [r[|r| - d]]
  }

  function Decode(tokens: seq<Token>, h: seq<bv8>): (r: seq<bv8>)
    requires |h| >= N
    ensures |r| >= |h| && r[..|h|] == h
  {
    if tokens == [] then h else
    match tokens[0]
    case Literal(b) => Decode(tokens[1..], h + [b])
    case Copy(position, len) =>
      Extended(h, Back(|h|, position), len);
      Decode(tokens[1..], Extend(h, Back(|h|, position), len))
  }

  lemma {:induction false} Extended(h: seq<bv8>, d: nat, len: nat)
    requires 1 <= d <= |h|
    ensures Extend(h, d, len)[..|h|] == h
  {
    if len > 0 {
      Extended(h, d, len - 1);
    }
  }

  function Spaces(n: nat): (r: seq<bv8>)
    ensures |r| == n && forall i :: 0 <= i < n ==> r[i] == SPACE
  {
    seq(n, _ => SPACE)
  }

  /** What the input stands for. */
  function Output(src: seq<bv8>): seq<bv8>
  {
    Decode(Groups(src, 0), Spaces(N))[N..]
  }

  /** A letter and a copy of three bytes from the place it was written to. */
  lemma FourLetters(c: bv8)
    ensures Output([0x01, c, 0xEE, 0xF0]) == [c, c, c, c]
  {
    var h := Spaces(N);
    FourTokens(c);
    assert |h + [c]| == 4097;
    CopyFields(0xEE, 0xF0);
    assert Back(4097, 0xFEE) == 1;
    var tokens := [Literal(c), Copy(0xFEE, 3)];
    assert tokens[1..] == [Copy(0xFEE, 3)] && tokens[1..][1..] == [];
    hide Groups, Back, Spaces;
    CopyThree(h, c);
    assert Decode(tokens, h) == Decode(tokens[1..], h + [c]);
    assert Decode(tokens[1..], h + [c]) == Decode([], Extend(h + [c], 1, 3));
  }

  lemma CopyThree(h: seq<bv8>, c: bv8)
    ensures Extend(h + [c], 1, 3) == h + [c, c, c, c]
  {
    var g := h + [c];
    assert Extend(g, 1, 1) == g + [c];
    assert Extend(g, 1, 2) == g + [c] + [c];
    assert Extend(g, 1, 3) == g + [c] + [c] + [c];
  }

  /** Bit 0 of the flag byte announces the letter, bit 1 the copy. */
  lemma FourTokens(c: bv8)
    ensures Groups([0x01, c, 0xEE, 0xF0], 0) == [Literal(c), Copy(0xFEE, 3)]
  {
    var src := [0x01, c, 0xEE, 0xF0];
    CopyFields(0xEE, 0xF0);
    MaskValue(7);
    MaskValue(6);
    assert IsLiteral(0x01, 0) && !IsLiteral(0x01, 1);
    hide IsLiteral, Position, Length;
    assert Group(src, 4, 0x01, 2) == [];
    assert Group(src, 2, 0x01, 1) == [Copy(0xFEE, 3)];
    assert Group(src, 1, 0x01, 0) == [Literal(c)] + Group(src, 2, 0x01, 1);
  }

  // The flag word.

  /** The flag byte under eight ones, shifted k times. */
  function Flags(flag: bv8, k: nat): bv16
  {
    if k == 0 then (flag as bv16) | 0xFF00 else Flags(flag, k - 1) >> 1
  }

  lemma FlagBits(flag: bv8)
    ensures Flags(flag, 1) == ((flag as bv16) | 0xFF00) >> 1 && Flags(flag, 2) == ((flag as bv16) | 0xFF00) >> 2
    ensures Flags(flag, 3) == ((flag as bv16) | 0xFF00) >> 3 && Flags(flag, 4) == ((flag as bv16) | 0xFF00) >> 4
    ensures Flags(flag, 5) == ((flag as bv16) | 0xFF00) >> 5 && Flags(flag, 6) == ((flag as bv16) | 0xFF00) >> 6
    ensures Flags(flag, 7) == ((flag as bv16) | 0xFF00) >> 7 && Flags(flag, 8) == ((flag as bv16) | 0xFF00) >> 8
  {
  }

  /** The word lasts eight tokens: bit 8 drops out with the eighth shift, and bit 0 is bit m of the flag byte. */
  lemma FlagWord(flag: bv8, m: nat)
    requires m <= 8
    ensures Flags(flag, m) & 0x100 == 0 <==> m == 8
    ensures m < 8 ==> (Flags(flag, m) & 1 != 0 <==> IsLiteral(flag, m))
  {
    hide Flags, Mask;
    FlagBits(flag);
    FlagFirst(flag);
    if m < 8 {
      MaskValue(7 - m);
      FlagMasks(flag);
    } else {
      FlagEnd(flag);
    }
  }

  lemma FlagFirst(flag: bv8)
    ensures Flags(flag, 0) == (flag as bv16) | 0xFF00
  {
  }

  lemma FlagMasks(flag: bv8)
    ensures var w := (flag as bv16) | 0xFF00;
      && w & 0x100 != 0 && (w >> 1) & 0x100 != 0 && (w >> 2) & 0x100 != 0 && (w >> 3) & 0x100 != 0
      && (w >> 4) & 0x100 != 0 && (w >> 5) & 0x100 != 0 && (w >> 6) & 0x100 != 0 && (w >> 7) & 0x100 != 0
      && (w & 1 != 0 <==> flag & 0x01 != 0) && ((w >> 1) & 1 != 0 <==> flag & 0x02 != 0)
      && ((w >> 2) & 1 != 0 <==> flag & 0x04 != 0) && ((w >> 3) & 1 != 0 <==> flag & 0x08 != 0)
      && ((w >> 4) & 1 != 0 <==> flag & 0x10 != 0) && ((w >> 5) & 1 != 0 <==> flag & 0x20 != 0)
      && ((w >> 6) & 1 != 0 <==> flag & 0x40 != 0) && ((w >> 7) & 1 != 0 <==> flag & 0x80 != 0)
  {
  }

  lemma FlagEnd(flag: bv8)
    ensures (((flag as bv16) | 0xFF00) >> 8) & 0x100 == 0
  {
  }

  // The ring.

  /** The ring holds the last N bytes of the history, each in its slot. */
  ghost predicate Ring(text: seq<bv8>, h: seq<bv8>)
  {
    && |text| == N + F - 1 && |h| >= N
    && forall m :: |h| - N <= m < |h| ==> text[Slot(m)] == h[m]
  }

  lemma SlotsApart(a: nat, b: nat)
    requires a < b < a + N
    ensures Slot(a) != Slot(b)
  {
  }

  lemma SlotNext(n: nat)
    ensures Slot(n + 1) == (Slot(n) + 1) % N
  {
    ModAdd(n + N - F, 1, N);
  }

  lemma RingWrite(text: seq<bv8>, h: seq<bv8>, c: bv8)
    requires Ring(text, h)
    ensures Ring(text[Slot(|h|) := c], h + [c])
  {
    var n := |h|;
    forall m | n + 1 - N <= m < n
      ensures Slot(m) != Slot(n)
    {
      SlotsApart(m, n);
    }
  }

  /** A ring position holds the byte that far back. */
  lemma RingRead(text: seq<bv8>, h: seq<bv8>, position: nat)
    requires Ring(text, h) && |h| >= N && |text| >= N
    ensures text[position % N] == h[|h| - Back(|h|, position)]
  {
    hide Ring;
    BackSlot(|h|, position);
    InRing(text, h, |h| - Back(|h|, position));
  }

  lemma InRing(text: seq<bv8>, h: seq<bv8>, m: nat)
    requires Ring(text, h) && |h| - N <= m < |h|
    ensures Slot(m) < |text| && text[Slot(m)] == h[m]
  {
  }

  lemma BackSlot(n: nat, position: nat)
    requires n >= N
    ensures Slot(n - Back(n, position)) == position % N
  {
    var p, s := position % N, Slot(n);
    var d := Back(n, position);
    assert d == (if s > p then s - p else s + N - p);
    SlotBack(n, d);
  }

  lemma SlotBack(n: nat, d: nat)
    requires n >= N && 1 <= d <= N
    ensures Slot(n - d) == if Slot(n) >= d then Slot(n) - d else Slot(n) + N - d
  {
  }

  lemma BackNext(n: nat, position: nat)
    ensures Back(n + 1, position + 1) == Back(n, position)
  {
    var a, b := Slot(n), position % N;
    assert Slot(n + 1) == if a == N - 1 then 0 else a + 1;
    assert (position + 1) % N == if b == N - 1 then 0 else b + 1;
  }

  /** Source and target move on together, so the distance of a copy stays the same. */
  lemma {:induction false} BackSame(n: nat, position: nat, k: nat)
    ensures Back(n + k, position + k) == Back(n, position)
  {
    hide Back;
    if k > 0 {
      BackSame(n, position, k - 1);
      BackNext(n + k - 1, position + k - 1);
    }
  }

  // The decoder.

  datatype Result = NoMagic | ShortHeader | Overflow | Data(bytes: seq<bv8>)

  /** What the loop keeps: the bytes put out, the ring, and the write position. */
  ghost predicate Going(dst: seq<bv8>, text: seq<bv8>, h: seq<bv8>, d: nat, r: nat)
  {
    && Ring(text, h) && r == Slot(|h|) && |h| == N + d && d <= |dst|
    && dst[..d] == h[N..] && forall k :: d <= k < |dst| ==> dst[k] == SPACE
  }

  /** Appends one byte to the output and the ring. */
  method Emit(dst: array<bv8>, text: array<bv8>, c: bv8, d: nat, r: nat, ghost h: seq<bv8>) returns (d1: nat, r1: nat)
    requires dst != text && Going(dst[..], text[..], h, d, r) && d < dst.Length
    modifies dst, text
    ensures Going(dst[..], text[..], h + [c], d1, r1) && d1 == d + 1
  {
    RingWrite(text[..], h, c);
    SlotNext(|h|);
    dst[d] := c;
    d1 := d + 1;
    text[r] := c;
    assert text[..] == old(text[..])[r := c];
    r1 := (r + 1) % N;
  }

  /** Copies len bytes from a ring position, as far as the output has room. */
  method CopyOut(dst: array<bv8>, text: array<bv8>, position: nat, len: nat, d: nat, r: nat, ghost h: seq<bv8>)
    returns (ok: bool, d1: nat, r1: nat)
    requires dst != text && Going(dst[..], text[..], h, d, r)
    modifies dst, text
    ensures ok <==> d + len <= dst.Length
    ensures ok ==> |h| >= N && Going(dst[..], text[..], Extend(h, Back(|h|, position), len), d1, r1)
  {
    hide Going, Back;
    d1, r1 := d, r;
    GoingFacts(dst[..], text[..], h, d, r);
    ghost var b, g := Back(|h|, position), h;
    var k := 0;
    while k < len
      invariant 0 <= k <= len && |h| >= N && g == Extend(h, b, k)
      invariant d1 == d + k <= dst.Length && Going(dst[..], text[..], g, d1, r1)
    {
      if d1 >= dst.Length {
        return false, d1, r1;
      }
      GoingFacts(dst[..], text[..], g, d1, r1);
      BackSame(|h|, position, k);
      RingRead(text[..], g, position + k);
      var c := text[(position + k) % N];
      d1, r1 := Emit(dst, text, c, d1, r1, g);
      g := g + [c];
      k := k + 1;
    }
    return true, d1, r1;
  }

  lemma GoingFacts(dst: seq<bv8>, text: seq<bv8>, h: seq<bv8>, d: nat, r: nat)
    requires Going(dst, text, h, d, r)
    ensures Ring(text, h) && |h| == N + d && |text| >= N && d <= |dst|
    ensures d == |dst| ==> dst == h[N..]
  {
    assert dst[..|dst|] == dst;
  }

  /** Decodes the body; overflows exactly when its output is longer than announced. Output not filled stays spaces. */
  method DecodeBody(src: seq<bv8>, size: nat) returns (r: Result)
    ensures r == if |Output(src)| > size then Overflow else Data(Output(src) + Spaces(size - |Output(src)|))
  {
    hide Going, Flags, Back, IsLiteral, Extend, Group, Groups, Decode, Position, Length;
    var dst, text := new bv8[size](_ => SPACE), new bv8[N + F - 1](_ => SPACE);
    var at: nat, srcidx: nat, d: nat, flags: bv16 := N - F, 0, 0, 0;
    ghost var h, m, flag := Spaces(N), 8, 0;
    Begin(dst[..], text[..]);
    GroupEnd(src, 0, flag, h);
    while true
      invariant Going(dst[..], text[..], h, d, at) && srcidx <= |src|
      invariant (m == 8 && flags == 0) || (1 <= m <= 8 && flags == Flags(flag, m - 1))
      invariant |h| >= N && Decode(Group(src, srcidx, flag, m), h) == Decode(Groups(src, 0), Spaces(N))
      decreases |src| - srcidx, 8 - m
    {
      GoingFacts(dst[..], text[..], h, d, at);
      if m >= 1 && flags == Flags(flag, m - 1) {
        NextFlags(flag, m);
        FlagWord(flag, m);
      }
      flags := flags >> 1;
      if flags & 0x100 == 0 {
        GroupEnd(src, srcidx, flag, h);
        if srcidx >= |src| {
          break;
        }
        flag := src[srcidx];
        flags := (src[srcidx] as bv16) | 0xFF00;
        srcidx := srcidx + 1;
        m := 0;
        FlagFirst(flag);
        FlagWord(flag, 0);
      }
      GroupNext(src, srcidx, flag, m, h);
      if flags & 1 != 0 {
        if srcidx >= |src| {
          break;
        }
        var c := src[srcidx];
        srcidx := srcidx + 1;
        if d >= dst.Length {
          return Overflow;
        }
        d, at := Emit(dst, text, c, d, at, h);
        h := h + [c];
      } else {
        if srcidx >= |src| {
          break;
        }
        var i := src[srcidx];
        srcidx := srcidx + 1;
        if srcidx >= |src| {
          break;
        }
        var j := src[srcidx];
        srcidx := srcidx + 1;
        ghost var b := Back(|h|, Position(i, j));
        var ok;
        ok, d, at := CopyOut(dst, text, Position(i, j), Length(j), d, at, h);
        if !ok {
          return Overflow;
        }
        h := Extend(h, b, Length(j));
      }
      m := m + 1;
    }
    Finish(dst[..], text[..], h, d, at);
    return Data(dst[..]);
  }

  lemma Begin(dst: seq<bv8>, text: seq<bv8>)
    requires |text| == N + F - 1 && forall k :: 0 <= k < |text| ==> text[k] == SPACE
    requires forall k :: 0 <= k < |dst| ==> dst[k] == SPACE
    ensures Going(dst, text, Spaces(N), 0, N - F)
  {
  }

  lemma Finish(dst: seq<bv8>, text: seq<bv8>, h: seq<bv8>, d: nat, r: nat)
    requires Going(dst, text, h, d, r)
    ensures dst == h[N..] + Spaces(|dst| - |h[N..]|)
  {
  }

  lemma NextFlags(flag: bv8, m: nat)
    requires m > 0
    ensures Flags(flag, m) == Flags(flag, m - 1) >> 1
  {
  }

  /** Behind eight tokens comes the next flag byte, or the end. */
  lemma GroupEnd(src: seq<bv8>, at: nat, flag: bv8, h: seq<bv8>)
    requires |h| >= N
    ensures Group(src, at, flag, 8) == Groups(src, at)
    ensures at >= |src| ==> Decode(Groups(src, at), h) == h
    ensures at < |src| ==> Groups(src, at) == Group(src, at + 1, src[at], 0)
  {
  }

  /** One token of a group. */
  lemma GroupNext(src: seq<bv8>, at: nat, flag: bv8, m: nat, h: seq<bv8>)
    requires m < 8 && |h| >= N
    ensures at >= |src| ==> Decode(Group(src, at, flag, m), h) == h
    ensures at < |src| && IsLiteral(flag, m) ==>
      Decode(Group(src, at, flag, m), h) == Decode(Group(src, at + 1, flag, m + 1), h + [src[at]])
    ensures at + 1 == |src| && !IsLiteral(flag, m) ==> Decode(Group(src, at, flag, m), h) == h
    ensures at + 1 < |src| && !IsLiteral(flag, m) ==>
      Decode(Group(src, at, flag, m), h)
      == Decode(Group(src, at + 2, flag, m + 1),
                Extend(h, Back(|h|, Position(src[at], src[at + 1])), Length(src[at + 1])))
  {
    hide IsLiteral, Back, Extend, Position, Length;
  }

  /** The letters complzss. */
  const MAGIC: seq<bv8> := [0x63, 0x6f, 0x6d, 0x70, 0x6c, 0x7a, 0x73, 0x73]
  const BODY := 0x180

  /** The whole file: header with the output size at byte 12, body from byte 0x180. */
  method Decompress(str: seq<bv8>) returns (r: Result)
    ensures r == NoMagic <==> !([0x63, 0x6f, 0x6d, 0x70, 0x6c, 0x7a, 0x73, 0x73] <= str)
    ensures r == ShortHeader <==> MAGIC <= str && |str| < 16
    ensures MAGIC <= str && |str| >= 16 ==>
      var size, out := Value(str[12..16]), Output(if |str| > 0x180 then str[0x180..] else []);
      r == if |out| > size then Overflow else Data(out + Spaces(size - |out|))
  {
    hide Output, Value;
    if |str| < 8 || str[..8] != MAGIC {
      return NoMagic;
    }
    if |str| < 16 {
      return ShortHeader;
    }
    r := DecodeBody(if |str| > BODY then str[BODY..] else [], Value(str[12..16]));
  }
}
