/**
 AES key wrap (RFC 3394, sections 2.2.1 and 2.2.2): the in-place form with a running counter
 and the index form on lists, both shown to run the same steps. The block cipher is any pair of
 mutually inverse functions on two 64-bit words.
 */
module KeyWrap {
  import opened Arithmetic
  import opened Bytes

  datatype Block = Block(hi: bv64, lo: bv64)
  type BlockCipher = Block -> Block

  ghost predicate Inverse(enc: BlockCipher, dec: BlockCipher)
  {
    && (forall b: Block :: dec(enc(b)) == b)
    && (forall b: Block :: enc(dec(b)) == b)
  }

  const IV: bv64 := 0xa6a6_a6a6_a6a6_a6a6

  function Word64(s: seq<bv8>): bv64
    requires |s| == 8
  {
    ((s[0] as bv64) << 56) | ((s[1] as bv64) << 48) | ((s[2] as bv64) << 40) | ((s[3] as bv64) << 32)
    | ((s[4] as bv64) << 24) | ((s[5] as bv64) << 16) | ((s[6] as bv64) << 8) | (s[7] as bv64)
  }

  function Bytes64(w: bv64): (s: seq<bv8>)
    ensures |s| == 8
  {
    [(w >> 56) as bv8, ((w >> 48) & 0xff) as bv8, ((w >> 40) & 0xff) as bv8, ((w >> 32) & 0xff) as bv8,
     ((w >> 24) & 0xff) as bv8, ((w >> 16) & 0xff) as bv8, ((w >> 8) & 0xff) as bv8, (w & 0xff) as bv8]
  }

  lemma Word64Back(w: bv64)
    ensures Word64(Bytes64(w)) == w
  {
  }

  lemma Bytes64Back(s: seq<bv8>)
    requires |s| == 8
    ensures Bytes64(Word64(s)) == s
  {
  }

  /** The bytes of a word are its digits to the base 256, the highest first. */
  lemma WordDigits(w: bv64)
    ensures var s := Bytes64(w);
      && s[0] as bv64 == w >> 56 && s[1] as bv64 == (w >> 48) & 0xff && s[2] as bv64 == (w >> 40) & 0xff
      && s[3] as bv64 == (w >> 32) & 0xff && s[4] as bv64 == (w >> 24) & 0xff && s[5] as bv64 == (w >> 16) & 0xff
      && s[6] as bv64 == (w >> 8) & 0xff && s[7] as bv64 == w & 0xff
  {
  }

  /** A 64-bit counter as a word. */
  function Counter(t: nat): bv64
  {
    Word64(BigEndian(t, 8))
  }

  function Xor64(a: bv64, b: bv64): bv64
  {
    a ^ b
  }

  /** A word with the counter t added bit by bit. */
  function Mark(a: bv64, t: nat): bv64
  {
    Xor64(a, Counter(t))
  }

  lemma MarkTwice(a: bv64, t: nat)
    ensures Mark(Mark(a, t), t) == a
  {
    hide Counter;
  }

  /** Marking commutes with exclusive or, and leaves the number t of a zero word, modulo 2^64. */
  lemma MarkIs(a: bv64, b: bv64, t: nat)
    ensures Mark(a ^ b, t) == a ^ Mark(b, t)
    ensures Value(Bytes64(Mark(0, t))) == t % 0x1_0000_0000_0000_0000
    ensures t < 0x1_0000_0000_0000_0000 ==> Value(Bytes64(Mark(0, t))) == t
  {
    hide Word64, Bytes64, Value, BigEndian;
    Powers();
    ValueModulo(t, 8);
    Bytes64Back(BigEndian(t, 8));
    ZeroXor(Counter(t));
  }

  lemma ZeroXor(w: bv64)
    ensures 0 ^ w == w
  {
  }

  datatype State = State(a: bv64, r: seq<bv64>)

  /** One step on register i with counter t. */
  function Step(enc: BlockCipher, s: State, i: nat, t: nat): (u: State)
    requires i < |s.r|
    ensures |u.r| == |s.r|
  {
    var b := enc(Block(s.a, s.r[i]));
    State(Mark(b.hi, t), s.r[i := b.lo])
  }

  function Unstep(dec: BlockCipher, s: State, i: nat, t: nat): (u: State)
    requires i < |s.r|
    ensures |u.r| == |s.r|
  {
    var b := dec(Block(Mark(s.a, t), s.r[i]));
    State(b.hi, s.r[i := b.lo])
  }

  /** The first i steps of pass j: the step on the i-th register counts n * j + i. */
  function Pass(enc: BlockCipher, s: State, j: nat, i: nat): (u: State)
    requires i <= |s.r|
    ensures |u.r| == |s.r|
  {
    if i == 0 then s else Step(enc, Pass(enc, s, j, i - 1), i - 1, |s.r| * j + i)
  }

  function Passes(enc: BlockCipher, s: State, j: nat): (u: State)
    ensures |u.r| == |s.r|
  {
    if j == 0 then s else Pass(enc, Passes(enc, s, j - 1), j - 1, |s.r|)
  }

  function Unpass(dec: BlockCipher, s: State, j: nat, i: nat): (u: State)
    requires i <= |s.r|
    ensures |u.r| == |s.r|
    decreases i
  {
    if i == 0 then s else Unpass(dec, Unstep(dec, s, i - 1, |s.r| * j + i), j, i - 1)
  }

  function Unpasses(dec: BlockCipher, s: State, j: nat): (u: State)
    ensures |u.r| == |s.r|
    decreases j
  {
    if j == 0 then s else Unpasses(dec, Unpass(dec, s, j - 1, |s.r|), j - 1)
  }

  lemma StepUndone(enc: BlockCipher, dec: BlockCipher, s: State, i: nat, t: nat)
    requires Inverse(enc, dec) && i < |s.r|
    ensures Unstep(dec, Step(enc, s, i, t), i, t) == s
    ensures Step(enc, Unstep(dec, s, i, t), i, t) == s
  {
    hide Mark;
    var b := enc(Block(s.a, s.r[i]));
    MarkTwice(b.hi, t);
    assert s.r[i := b.lo][i := s.r[i]] == s.r;
    var c := dec(Block(Mark(s.a, t), s.r[i]));
    MarkTwice(s.a, t);
    assert dec(enc(Block(s.a, s.r[i]))) == Block(s.a, s.r[i]);
    assert enc(c) == Block(Mark(s.a, t), s.r[i]);
    assert s.r[i := c.lo][i := s.r[i]] == s.r;
  }

  lemma {:induction false} PassUndone(enc: BlockCipher, dec: BlockCipher, s: State, j: nat, i: nat)
    requires Inverse(enc, dec) && i <= |s.r|
    ensures Unpass(dec, Pass(enc, s, j, i), j, i) == s
    ensures Pass(enc, Unpass(dec, s, j, i), j, i) == s
    decreases i
  {
    hide Step, Unstep, Inverse;
    if i > 0 {
      var t := |s.r| * j + i;
      StepUndone(enc, dec, Pass(enc, s, j, i - 1), i - 1, t);
      PassUndone(enc, dec, s, j, i - 1);
      StepUndone(enc, dec, s, i - 1, t);
      PassUndone(enc, dec, Unstep(dec, s, i - 1, t), j, i - 1);
    }
  }

  lemma {:induction false} PassesUndone(enc: BlockCipher, dec: BlockCipher, s: State, j: nat)
    requires Inverse(enc, dec)
    ensures Unpasses(dec, Passes(enc, s, j), j) == s
    ensures Passes(enc, Unpasses(dec, s, j), j) == s
    decreases j
  {
    hide Pass, Unpass, Inverse;
    if j > 0 {
      var n := |s.r|;
      PassUndone(enc, dec, Passes(enc, s, j - 1), j - 1, n);
      PassesUndone(enc, dec, s, j - 1);
      PassUndone(enc, dec, s, j - 1, n);
      PassesUndone(enc, dec, Unpass(dec, s, j - 1, n), j - 1);
    }
  }

  /**
   Step t of a wrap encrypts the check word with the register whose turn it is, and adds t to the
   check word (section 2.2.1 of RFC 3394).
   */
  ghost predicate Stepped(enc: BlockCipher, n: nat, t: nat, s: State, u: State)
    requires 0 < n == |s.r| && t > 0
  {
    var i := (t - 1) % n;
    var b := enc(Block(s.a, s.r[i]));
    u == State(Xor64(b.hi, Counter(t)), s.r[i := b.lo])
  }

  ghost predicate StepAt(enc: BlockCipher, n: nat, st: seq<State>, t: nat)
    requires 1 <= t < |st|
  {
    0 < n == |st[t - 1].r| && Stepped(enc, n, t, st[t - 1], st[t])
  }

  /** The states of the first steps of a wrap. */
  ghost predicate Begun(enc: BlockCipher, p: seq<bv64>, st: seq<State>)
  {
    && 0 < |st| <= 6 * |p| + 1 && st[0] == State(0xa6a6_a6a6_a6a6_a6a6, p)
    && forall t :: 1 <= t < |st| ==> StepAt(enc, |p|, st, t)
  }

  /** The states of a whole wrap: six steps for every register, counted from 1. */
  ghost predicate Steps(enc: BlockCipher, p: seq<bv64>, st: seq<State>)
  {
    |st| == 6 * |p| + 1 && Begun(enc, p, st)
  }

  lemma {:induction false} PassSteps(enc: BlockCipher, p: seq<bv64>, s: State, j: nat, i: nat, st: seq<State>)
    returns (more: seq<State>)
    requires |s.r| == |p| && i <= |p| && j < 6 && |st| == |p| * j + 1
    requires Begun(enc, p, st) && st[|p| * j] == s
    ensures |more| == |p| * j + i + 1 && Begun(enc, p, more) && more[|p| * j + i] == Pass(enc, s, j, i)
    decreases i
  {
    hide Pass, Begun, Stepped;
    PassStart(enc, s, j);
    more := st;
    if i > 0 {
      var before := PassSteps(enc, p, s, j, i - 1, st);
      PassStepped(enc, s, j, i);
      Turn(|p|, j, i);
      BegunMore(enc, p, before, Pass(enc, s, j, i));
      more := before + [Pass(enc, s, j, i)];
    }
  }

  lemma PassStepped(enc: BlockCipher, s: State, j: nat, i: nat)
    requires 1 <= i <= |s.r| && j < 6
    ensures 0 < |s.r| * j + i && Stepped(enc, |s.r|, |s.r| * j + i, Pass(enc, s, j, i - 1), Pass(enc, s, j, i))
  {
    hide Mark, Pass;
    var t, u := |s.r| * j + i, Pass(enc, s, j, i - 1);
    PassNext(enc, s, j, i, t, u);
    Turn(|s.r|, j, i);
    MarkedStep(enc, u, i - 1, t, Pass(enc, s, j, i));
  }

  lemma MarkedStep(enc: BlockCipher, u: State, k: nat, t: nat, v: State)
    requires k < |u.r| && t > 0 && (t - 1) % |u.r| == k
    requires var b := enc(Block(u.a, u.r[k])); v == State(Mark(b.hi, t), u.r[k := b.lo])
    ensures Stepped(enc, |u.r|, t, u, v)
  {
    hide Counter;
  }

  lemma BegunMore(enc: BlockCipher, p: seq<bv64>, st: seq<State>, u: State)
    requires Begun(enc, p, st) && |st| <= 6 * |p| && |st[|st| - 1].r| == |p|
    requires Stepped(enc, |p|, |st|, st[|st| - 1], u)
    ensures Begun(enc, p, st + [u])
  {
    hide Stepped;
    var more := st + [u];
    assert more[0] == st[0];
    forall t | 1 <= t < |more|
      ensures StepAt(enc, |p|, more, t)
    {
      assert t < |st| ==> StepAt(enc, |p|, st, t);
    }
  }

  /** In step n * j + i it is the turn of register i. */
  lemma Turn(n: nat, j: nat, i: nat)
    requires 1 <= i <= n && j < 6
    ensures 0 < n * j + i <= 6 * n && (n * j + i - 1) % n == i - 1
  {
    Division(n * j + i - 1, j, i - 1, n);
    assert n * j <= n * 5;
  }

  lemma {:induction false} PassesSteps(enc: BlockCipher, p: seq<bv64>, j: nat) returns (st: seq<State>)
    requires j <= 6
    ensures |st| == |p| * j + 1 && Begun(enc, p, st) && st[|p| * j] == Passes(enc, State(IV, p), j)
  {
    hide Pass, Begun;
    if j == 0 {
      st := [State(IV, p)];
      OneState(enc, p);
    } else {
      var before := PassesSteps(enc, p, j - 1);
      st := PassSteps(enc, p, Passes(enc, State(IV, p), j - 1), j - 1, |p|, before);
      assert |p| * (j - 1) + |p| == |p| * j;
    }
  }

  lemma OneState(enc: BlockCipher, p: seq<bv64>)
    ensures Begun(enc, p, [State(IV, p)])
  {
  }

  /** The wrapped form is the last state of the steps. */
  lemma WrapSteps(enc: BlockCipher, p: seq<bv64>)
    ensures exists st: seq<State> :: Steps(enc, p, st) && Wrapped(enc, p) == [st[6 * |p|].a] + st[6 * |p|].r
  {
    hide Passes;
    var st := PassesSteps(enc, p, 6);
    assert Steps(enc, p, st);
  }

  /** The wrapped form of the words p: the check word and the registers after six passes. */
  function Wrapped(enc: BlockCipher, p: seq<bv64>): (c: seq<bv64>)
    ensures |c| == |p| + 1
  {
    var s := Passes(enc, State(IV, p), 6);
    [s.a] + s.r
  }

  /** The check word and the words a wrapped form stands for. */
  function Unwrapped(dec: BlockCipher, c: seq<bv64>): (s: State)
    requires c != []
    ensures |s.r| == |c| - 1
  {
    Unpasses(dec, State(c[0], c[1..]), 6)
  }

  /** Unwrapping yields the right check word and the words p for exactly one input, the wrapped form of p. */
  lemma WrapUnwrap(enc: BlockCipher, dec: BlockCipher, p: seq<bv64>, c: seq<bv64>)
    requires Inverse(enc, dec) && c != []
    ensures Unwrapped(dec, c) == State(IV, p) <==> Wrapped(enc, p) == c
  {
    hide Inverse, Passes, Unpasses;
    PassesUndone(enc, dec, State(IV, p), 6);
    PassesUndone(enc, dec, State(c[0], c[1..]), 6);
    var s := Passes(enc, State(IV, p), 6);
    assert ([s.a] + s.r)[1..] == s.r;
    assert [c[0]] + c[1..] == c;
  }

  lemma SmallCounter(t: nat)
    requires t < 256
    ensures Bytes64(Counter(t)) == [0, 0, 0, 0, 0, 0, 0, ToByte(t)]
  {
    hide Word64, Bytes64, ToByte;
    Bytes64Back(BigEndian(t, 8));
    ToByteZero();
    SmallNumber(t, 7);
  }

  /** The counters of the steps of one word. */
  lemma FirstCounters()
    ensures Counter(1) == 1 && Counter(2) == 2 && Counter(3) == 3
    ensures Counter(4) == 4 && Counter(5) == 5 && Counter(6) == 6
  {
    CounterIs(1, 1);
    CounterIs(2, 2);
    CounterIs(3, 3);
    CounterIs(4, 4);
    CounterIs(5, 5);
    CounterIs(6, 6);
  }

  lemma CounterIs(t: nat, b: bv8)
    requires t < 256 && ToByte(t) == b
    ensures Counter(t) == b as bv64
  {
    hide ToByte, Word64, Bytes64, Counter;
    SmallCounter(t);
    Word64Back(Counter(t));
    LowByte(b);
  }

  lemma LowByte(b: bv8)
    ensures Word64([0, 0, 0, 0, 0, 0, 0, b]) == b as bv64
  {
  }

  /** One word is wrapped in six steps, marked 1 to 6. */
  lemma OneWord(enc: BlockCipher, p: bv64)
    ensures
      var b1 := enc(Block(0xa6a6_a6a6_a6a6_a6a6, p));
      var b2 := enc(Block(Xor64(b1.hi, 1), b1.lo));
      var b3 := enc(Block(Xor64(b2.hi, 2), b2.lo));
      var b4 := enc(Block(Xor64(b3.hi, 3), b3.lo));
      var b5 := enc(Block(Xor64(b4.hi, 4), b4.lo));
      var b6 := enc(Block(Xor64(b5.hi, 5), b5.lo));
      Wrapped(enc, [p]) == [Xor64(b6.hi, 6), b6.lo]
  {
    hide Counter, Wrapped, Begun, Xor64;
    FirstCounters();
    WrapSteps(enc, [p]);
    var st: seq<State> :| Steps(enc, [p], st) && Wrapped(enc, [p]) == [st[6].a] + st[6].r;
    SingleStart(enc, p, st);
    var b1, b2, b3 := ThreeSteps(enc, p, st, 1, 0xa6a6_a6a6_a6a6_a6a6, p);
    var b4, b5, b6 := ThreeSteps(enc, p, st, 4, Xor64(b3.hi, Counter(3)), b3.lo);
  }

  lemma ThreeSteps(enc: BlockCipher, p: bv64, st: seq<State>, t: nat, a: bv64, r: bv64)
    returns (b1: Block, b2: Block, b3: Block)
    requires Steps(enc, [p], st) && 1 <= t <= 4 && st[t - 1] == State(a, [r])
    ensures b1 == enc(Block(a, r)) && b2 == enc(Block(Xor64(b1.hi, Counter(t)), b1.lo))
    ensures b3 == enc(Block(Xor64(b2.hi, Counter(t + 1)), b2.lo))
    ensures |st| == 7 && st[t + 2] == State(Xor64(b3.hi, Counter(t + 2)), [b3.lo])
  {
    hide Counter, Begun, Xor64;
    b1 := SingleStep(enc, p, st, t, a, r);
    b2 := SingleStep(enc, p, st, t + 1, Xor64(b1.hi, Counter(t)), b1.lo);
    b3 := SingleStep(enc, p, st, t + 2, Xor64(b2.hi, Counter(t + 1)), b2.lo);
  }

  lemma SingleStart(enc: BlockCipher, p: bv64, st: seq<State>)
    requires Steps(enc, [p], st)
    ensures st[0] == State(0xa6a6_a6a6_a6a6_a6a6, [p])
  {
  }

  lemma SingleStep(enc: BlockCipher, p: bv64, st: seq<State>, t: nat, a: bv64, r: bv64) returns (b: Block)
    requires Steps(enc, [p], st) && 1 <= t <= 6 && st[t - 1] == State(a, [r])
    ensures b == enc(Block(a, r)) && |st| == 7 && st[t] == State(Xor64(b.hi, Counter(t)), [b.lo])
  {
    hide Counter, Xor64;
    assert StepAt(enc, 1, st, t);
    b := enc(Block(a, r));
    OneRegister(enc, t, State(a, [r]), st[t]);
  }

  lemma OneRegister(enc: BlockCipher, t: nat, s: State, u: State)
    requires |s.r| == 1 && t > 0 && Stepped(enc, 1, t, s, u)
    ensures var b := enc(Block(s.a, s.r[0])); u == State(Xor64(b.hi, Counter(t)), [b.lo])
  {
    hide Counter, Xor64;
    assert (t - 1) % 1 == 0;
    var b := enc(Block(s.a, s.r[0]));
    assert s.r[0 := b.lo] == [b.lo];
  }

  /** Copies n words, the two ranges overlapping or not. */
  method Move(mem: array<bv64>, from: nat, to: nat, n: nat)
    requires from + n <= mem.Length && to + n <= mem.Length
    modifies mem
    ensures mem[to..to + n] == old(mem[from..from + n])
    ensures forall m :: 0 <= m < mem.Length && !(to <= m < to + n) ==> mem[m] == old(mem[m])
  {
    forall k | 0 <= k < n {
      mem[to + k] := mem[from + k];
    }
  }

  /** The words outside c..c + n + 1 are as before. */
  ghost predicate Outside(before: seq<bv64>, after: seq<bv64>, c: nat, n: nat)
  {
    |after| == |before| && forall m :: 0 <= m < |before| && !(c <= m < c + n) ==> after[m] == before[m]
  }

  ghost function StateAt(m: seq<bv64>, c: nat, n: nat): (s: State)
    requires c + n + 1 <= |m|
    ensures |s.r| == n
  {
    State(m[c], m[c + 1..c + 1 + n])
  }

  lemma AtState(m: seq<bv64>, c: nat, n: nat, i: nat)
    requires c + n + 1 <= |m| && i <= n
    ensures m[c] == StateAt(m, c, n).a
    ensures i > 0 ==> m[c + i] == StateAt(m, c, n).r[i - 1]
    ensures m[c..c + n + 1] == [StateAt(m, c, n).a] + StateAt(m, c, n).r
  {
  }

  method StoreStep(mem: array<bv64>, ghost before: seq<bv64>, c: nat, n: nat, i: nat, a: bv64, r: bv64)
    requires 1 <= i <= n && c + n + 1 <= mem.Length && Outside(before, mem[..], c, n + 1)
    modifies mem
    ensures Outside(before, mem[..], c, n + 1)
    ensures StateAt(mem[..], c, n) == State(a, old(StateAt(mem[..], c, n)).r[i - 1 := r])
  {
    mem[c] := a;
    mem[c + i] := r;
  }

  /** Wraps the n words at p into the n + 1 words at c, counting steps as it goes. */
  method Wrap(enc: BlockCipher, mem: array<bv64>, p: nat, n: nat, c: nat)
    requires p + n <= mem.Length && c + n + 1 <= mem.Length
    modifies mem
    ensures mem[c..c + n + 1] == Wrapped(enc, old(mem[p..p + n]))
    ensures exists st: seq<State> ::
      Steps(enc, old(mem[p..p + n]), st) && mem[c..c + n + 1] == [st[6 * n].a] + st[6 * n].r
    ensures Outside(old(mem[..]), mem[..], c, n + 1)
  {
    hide Mark, Step, Pass, Passes, Outside, StateAt, Begun;
    ghost var before, s := mem[..], State(IV, mem[p..p + n]);
    WrapSteps(enc, mem[p..p + n]);
    Start(mem, p, n, c);
    PassesStart(enc, s);
    var j, t := 0, 1;
    while j <= 5
      invariant 0 <= j <= 6 && t == n * j + 1 && Outside(before, mem[..], c, n + 1)
      invariant StateAt(mem[..], c, n) == Passes(enc, s, j)
    {
      ghost var u := Passes(enc, s, j);
      PassStart(enc, u, j);
      var i := 1;
      while i <= n
        invariant 1 <= i <= n + 1 && t == n * j + i && Outside(before, mem[..], c, n + 1)
        invariant StateAt(mem[..], c, n) == Pass(enc, u, j, i - 1)
      {
        PassNext(enc, u, j, i, t, StateAt(mem[..], c, n));
        AtState(mem[..], c, n, i);
        var b := enc(Block(mem[c], mem[c + i]));
        StoreStep(mem, before, c, n, i, Mark(b.hi, t), b.lo);
        i, t := i + 1, t + 1;
      }
      PassesNext(enc, s, j);
      j := j + 1;
      assert n * (j - 1) + n == n * j;
    }
    AtState(mem[..], c, n, 0);
    assert mem[c..c + n + 1] == mem[..][c..c + n + 1];
  }

  /** The input moved behind the check word, and the check word set. */
  method Start(mem: array<bv64>, p: nat, n: nat, c: nat)
    requires p + n <= mem.Length && c + n + 1 <= mem.Length
    modifies mem
    ensures StateAt(mem[..], c, n) == State(IV, old(mem[p..p + n]))
    ensures Outside(old(mem[..]), mem[..], c, n + 1)
  {
    Move(mem, p, c + 1, n);
    mem[c] := IV;
  }

  lemma PassesStart(enc: BlockCipher, s: State)
    ensures Passes(enc, s, 0) == s
  {
  }

  lemma PassStart(enc: BlockCipher, s: State, j: nat)
    ensures Pass(enc, s, j, 0) == s
  {
  }

  lemma PassesNext(enc: BlockCipher, s: State, j: nat)
    ensures Passes(enc, s, j + 1) == Pass(enc, Passes(enc, s, j), j, |s.r|)
  {
  }

  lemma PassNext(enc: BlockCipher, s: State, j: nat, i: nat, t: nat, u: State)
    requires 1 <= i <= |s.r| && t == |s.r| * j + i && u == Pass(enc, s, j, i - 1)
    ensures var b := enc(Block(u.a, u.r[i - 1]));
      Pass(enc, s, j, i) == State(Mark(b.hi, t), u.r[i - 1 := b.lo])
  {
    hide Mark;
  }

  lemma UnpassesNext(dec: BlockCipher, s: State, j: nat)
    ensures Unpasses(dec, s, j + 1) == Unpasses(dec, Unpass(dec, s, j, |s.r|), j)
    ensures Unpasses(dec, s, 0) == s == Unpass(dec, s, j, 0)
  {
  }

  lemma UnpassNext(dec: BlockCipher, s: State, j: nat, i: nat, t: nat)
    requires 1 <= i <= |s.r| && t == |s.r| * j + i
    ensures var b := dec(Block(Mark(s.a, t), s.r[i - 1]));
      Unpass(dec, s, j, i) == Unpass(dec, State(b.hi, s.r[i - 1 := b.lo]), j, i - 1)
  {
    hide Mark;
  }

  /** Unwraps the n + 1 words at c into the n words at p, counting steps down; fails when the check word is wrong. */
  method Unwrap(dec: BlockCipher, mem: array<bv64>, c: nat, p: nat, n: nat) returns (ok: bool)
    requires p + n <= mem.Length && c + n + 1 <= mem.Length
    modifies mem
    ensures var s := Unwrapped(dec, old(mem[c..c + n + 1]));
      mem[p..p + n] == s.r && ok == (s.a == IV)
    ensures Outside(old(mem[..]), mem[..], p, n)
  {
    hide Mark, Unstep, Unpass, Unpasses, Outside, RegsAt;
    ghost var before, s := mem[..], State(mem[c], mem[c + 1..c + n + 1]);
    assert mem[c..c + n + 1][1..] == s.r;
    var a := mem[c];
    FetchWords(mem, c, p, n);
    var j, t := 5, 6 * n;
    while j >= 0
      invariant -1 <= j <= 5 && t == n * (j + 1) && Outside(before, mem[..], p, n)
      invariant Unpasses(dec, s, 6) == Unpasses(dec, State(a, RegsAt(mem[..], p, n)), j + 1)
    {
      UnpassesNext(dec, State(a, RegsAt(mem[..], p, n)), j);
      var i := n;
      assert t == n * j + i;
      while i >= 1
        invariant 0 <= i <= n && t == n * j + i && Outside(before, mem[..], p, n)
        invariant Unpasses(dec, s, 6) == Unpasses(dec, Unpass(dec, State(a, RegsAt(mem[..], p, n)), j, i), j)
      {
        UnpassNext(dec, State(a, RegsAt(mem[..], p, n)), j, i, t);
        RegAt(mem[..], p, n, i - 1);
        var b := dec(Block(Mark(a, t), mem[p + i - 1]));
        a := b.hi;
        StoreWord(mem, before, p, n, i - 1, b.lo);
        i, t := i - 1, t - 1;
      }
      UnpassesNext(dec, State(a, RegsAt(mem[..], p, n)), j);
      j := j - 1;
    }
    UnpassesNext(dec, State(a, RegsAt(mem[..], p, n)), 0);
    RegAt(mem[..], p, n, 0);
    assert mem[p..p + n] == mem[..][p..p + n];
    return a == IV;
  }

  ghost function RegsAt(m: seq<bv64>, p: nat, n: nat): (r: seq<bv64>)
    requires p + n <= |m|
    ensures |r| == n
  {
    m[p..p + n]
  }

  lemma RegAt(m: seq<bv64>, p: nat, n: nat, i: nat)
    requires p + n <= |m|
    ensures i < n ==> m[p + i] == RegsAt(m, p, n)[i]
    ensures m[p..p + n] == RegsAt(m, p, n)
  {
  }

  method FetchWords(mem: array<bv64>, c: nat, p: nat, n: nat)
    requires p + n <= mem.Length && c + n + 1 <= mem.Length
    modifies mem
    ensures RegsAt(mem[..], p, n) == old(mem[c + 1..c + n + 1])
    ensures Outside(old(mem[..]), mem[..], p, n)
  {
    Move(mem, c + 1, p, n);
  }

  method StoreWord(mem: array<bv64>, ghost before: seq<bv64>, p: nat, n: nat, i: nat, r: bv64)
    requires i < n && p + n <= mem.Length && Outside(before, mem[..], p, n)
    modifies mem
    ensures Outside(before, mem[..], p, n)
    ensures RegsAt(mem[..], p, n) == old(RegsAt(mem[..], p, n))[i := r]
  {
    mem[p + i] := r;
  }

  // The index form on byte strings.

  /** The whole words of a string; up to seven bytes at its end are dropped. */
  function Words(s: seq<bv8>): seq<bv64>
  {
    if |s| < 8 then [] else [Word64(s[..8])] + Words(s[8..])
  }

  function Packed(r: seq<bv64>): seq<bv8>
  {
    if r == [] then [] else Bytes64(r[0]) + Packed(r[1..])
  }

  lemma {:induction false} WordsPacked(r: seq<bv64>)
    ensures Words(Packed(r)) == r && |Packed(r)| == 8 * |r|
  {
    hide Word64, Bytes64;
    if r != [] {
      WordsPacked(r[1..]);
      Word64Back(r[0]);
      assert (Bytes64(r[0]) + Packed(r[1..]))[..8] == Bytes64(r[0]);
      assert (Bytes64(r[0]) + Packed(r[1..]))[8..] == Packed(r[1..]);
    }
  }

  lemma {:induction false} PackedWords(s: seq<bv8>)
    ensures |Words(s)| == |s| / 8 && Packed(Words(s)) == s[..8 * (|s| / 8)]
  {
    hide Word64, Bytes64;
    if |s| >= 8 {
      PackedWords(s[8..]);
      Bytes64Back(s[..8]);
      assert |s[8..]| / 8 == |s| / 8 - 1;
    }
  }

  /** Word i of a string is its bytes 8 * i to 8 * i + 7 as a big-endian number, and back. */
  lemma {:induction false} WordsAt(s: seq<bv8>, i: nat)
    requires i < |s| / 8
    ensures |Words(s)| == |s| / 8 && Bytes64(Words(s)[i]) == s[8 * i..8 * i + 8]
    decreases i
  {
    hide Word64;
    PackedWords(s);
    if i == 0 {
      Bytes64Back(s[..8]);
      assert s[0..8] == s[..8];
    } else {
      WordsAt(s[8..], i - 1);
      assert s[8..][8 * (i - 1)..8 * (i - 1) + 8] == s[8 * i..8 * i + 8];
    }
  }

  /** A packed word has its bytes at its place. */
  lemma {:induction false} PackedAt(r: seq<bv64>, i: nat)
    requires i < |r|
    ensures |Packed(r)| == 8 * |r| && Packed(r)[8 * i..8 * i + 8] == Bytes64(r[i])
    decreases i
  {
    hide Word64, Bytes64;
    WordsPacked(r);
    if i > 0 {
      PackedAt(r[1..], i - 1);
      assert Packed(r)[8 * i..8 * i + 8] == Packed(r[1..])[8 * (i - 1)..8 * (i - 1) + 8];
    }
  }

  datatype Result = Ok(data: seq<bv8>) | BadCheck | NoWords

  function Wrapping(enc: BlockCipher, data: seq<bv8>): seq<bv8>
  {
    Packed(Wrapped(enc, Words(data)))
  }

  function Unwrapping(dec: BlockCipher, wrapped: seq<bv8>): Result
  {
    var c := Words(wrapped);
    if c == [] then NoWords else
    var s := Unwrapped(dec, c);
    if s.a != IV then BadCheck else Ok(Packed(s.r))
  }

  /**
   Unwrapping a wrapped string gives its whole words back: the string itself exactly when its length
   is a multiple of eight.
   */
  lemma WrapThenUnwrap(enc: BlockCipher, dec: BlockCipher, data: seq<bv8>)
    requires Inverse(enc, dec)
    ensures Unwrapping(dec, Wrapping(enc, data)) == Ok(data[..8 * (|data| / 8)])
    ensures Unwrapping(dec, Wrapping(enc, data)) == Ok(data) <==> |data| % 8 == 0
  {
    hide Inverse, Wrapped, Unwrapped, Words, Packed;
    var p := Words(data);
    WordsPacked(Wrapped(enc, p));
    WrapUnwrap(enc, dec, p, Wrapped(enc, p));
    PackedWords(data);
  }

  /** A string that unwraps is, up to a dropped tail, the wrapped form of what it unwraps to. */
  lemma UnwrapThenWrap(enc: BlockCipher, dec: BlockCipher, wrapped: seq<bv8>)
    requires Inverse(enc, dec)
    ensures var r := Unwrapping(dec, wrapped);
      r.Ok? ==> Wrapping(enc, r.data) == wrapped[..8 * (|wrapped| / 8)]
  {
    hide Inverse, Wrapped, Unwrapped, Words, Packed;
    var c := Words(wrapped);
    if c != [] && Unwrapped(dec, c).a == IV {
      var s := Unwrapped(dec, c);
      WrapUnwrap(enc, dec, s.r, c);
      WordsPacked(s.r);
      PackedWords(wrapped);
    }
  }

  /** The list of whole words, taken eight bytes at a time. */
  method Split(s: seq<bv8>) returns (r: seq<bv64>)
    ensures r == Words(s)
  {
    hide Word64;
    r := [];
    var i := 0;
    assert s[0..] == s;
    while i < |s| / 8
      invariant 0 <= i <= |s| / 8 && r + Words(s[8 * i..]) == Words(s)
    {
      assert s[8 * i..][..8] == s[8 * i..8 * i + 8] && s[8 * i..][8..] == s[8 * (i + 1)..];
      r := r + [Word64(s[8 * i..8 * i + 8])];
      i := i + 1;
    }
  }

  method AesWrap(enc: BlockCipher, data: seq<bv8>) returns (res: seq<bv8>)
    ensures res == Wrapping(enc, data)
    ensures exists st: seq<State> ::
      Steps(enc, Words(data), st) && res == Packed([st[6 * |Words(data)|].a] + st[6 * |Words(data)|].r)
  {
    hide Mark, Step, Pass, Passes, Packed, Words, Begun;
    WrapSteps(enc, Words(data));
    var a := IV;
    var r := Split(data);
    var n := |r|;
    ghost var s := State(a, r);
    PassesStart(enc, s);
    var j := 0;
    while j < 6
      invariant 0 <= j <= 6 && |r| == n
      invariant State(a, r) == Passes(enc, s, j)
    {
      ghost var u := Passes(enc, s, j);
      PassStart(enc, u, j);
      var i := 1;
      while i < n + 1
        invariant 1 <= i <= n + 1 && |r| == n
        invariant State(a, r) == Pass(enc, u, j, i - 1)
      {
        PassNext(enc, u, j, i, n * j + i, State(a, r));
        var b := enc(Block(a, r[i - 1]));
        a := Mark(b.hi, n * j + i);
        r := r[i - 1 := b.lo];
        i := i + 1;
      }
      PassesNext(enc, s, j);
      j := j + 1;
    }
    PackedMore(a, r);
    res := Bytes64(a) + Packed(r);
  }

  lemma PackedMore(a: bv64, r: seq<bv64>)
    ensures Packed([a] + r) == Bytes64(a) + Packed(r)
  {
    assert ([a] + r)[1..] == r;
  }

  method AesUnwrap(dec: BlockCipher, wrapped: seq<bv8>) returns (res: Result)
    ensures res == Unwrapping(dec, wrapped)
  {
    hide Mark, Unstep, Unpass, Unpasses, Packed, Words;
    var c := Split(wrapped);
    if c == [] {
      return NoWords;
    }
    var n := |c| - 1;
    var a, r := c[0], c[1..];
    ghost var s := State(a, r);
    var j := 5;
    while j >= 0
      invariant -1 <= j <= 5 && |r| == n
      invariant Unpasses(dec, s, 6) == Unpasses(dec, State(a, r), j + 1)
    {
      UnpassesNext(dec, State(a, r), j);
      var i := n;
      while i >= 1
        invariant 0 <= i <= n && |r| == n
        invariant Unpasses(dec, s, 6) == Unpasses(dec, Unpass(dec, State(a, r), j, i), j)
      {
        UnpassNext(dec, State(a, r), j, i, n * j + i);
        var b := dec(Block(Mark(a, n * j + i), r[i - 1]));
        a := b.hi;
        r := r[i - 1 := b.lo];
        i := i - 1;
      }
      UnpassesNext(dec, State(a, r), j);
      j := j - 1;
    }
    UnpassesNext(dec, State(a, r), 0);
    if a != IV {
      return BadCheck;
    }
    return Ok(Packed(r));
  }
}
