/**
  The Jenkins hash of cmn/jhash.h, over bytes and over words. Words are numbers below 2^32, and
  arithmetic on them wraps around.
 */
module JHash {
  import opened Common
  import opened PackedTime

  type Byte = x: int | 0 <= x < 0x100
  type Word = x: int | 0 <= x < 0x1_0000_0000

  const GOLDEN_RATIO: Word := 0x9e3779b9

  datatype Abc = Abc(a: Word, b: Word, c: Word)

  function Add(a: int, b: int): Word { (a + b) % WORD }

  function Sub(a: Word, b: Word): Word { (a - b) % WORD }

  // ---------------------------------------------------------------- exclusive or

  function Xor(a: nat, b: nat): (r: nat)
    decreases a + b
  {
    if a == 0 && b == 0 then 0 else 2 * Xor(a / 2, b / 2) + if a % 2 == b % 2 then 0 else 1
  }

  lemma {:induction false} XorTwice(a: nat, b: nat)
    ensures Xor(Xor(a, b), b) == a
    decreases a + b
  {
    if a == 0 && b == 0 {
    } else {
      XorTwice(a / 2, b / 2);
      XorZero(Xor(a, b), b);
    }
  }

  lemma XorZero(a: nat, b: nat)
    ensures Xor(a, b) == 2 * Xor(a / 2, b / 2) + if a % 2 == b % 2 then 0 else 1
  {
  }

  lemma {:induction false} XorBelow(a: nat, b: nat, k: nat)
    requires a < Up(1, k) && b < Up(1, k)
    ensures Xor(a, b) < Up(1, k)
  {
    if k == 0 || (a == 0 && b == 0) {
    } else {
      XorBelow(a / 2, b / 2, k - 1);
    }
  }

  function XorWord(a: Word, b: Word): (r: Word)
    ensures r == Xor(a, b)
  {
    WordDigits();
    XorBelow(a, b, 32);
    Xor(a, b)
  }

  lemma WordDigits()
    ensures Up(1, 32) == WORD
  {
    assert Up(1, 8) == 0x100;
    assert Up(1, 16) == 0x1_0000;
    assert Up(1, 24) == 0x100_0000;
  }

  // ---------------------------------------------------------------- mixing

  function Right(x: Word, k: nat): (r: Word)
  {
    RightBelow(x, k);
    Shr(x, k)
  }

  lemma RightBelow(x: nat, k: nat)
    ensures Shr(x, k) <= x
  {
  }

  function Step(a: Word, b: Word, c: Word, x: Word): Word { XorWord(Sub(Sub(a, b), c), x) }

  function Back(a: Word, b: Word, c: Word, x: Word): Word { Add(Add(XorWord(a, x), c), b) }

  lemma StepBack(a: Word, b: Word, c: Word, x: Word)
    ensures Back(Step(a, b, c, x), b, c, x) == a && Step(Back(a, b, c, x), b, c, x) == a
  {
    var d := Sub(Sub(a, b), c);
    XorTwice(d, x);
    SubAdd(Sub(a, b), c);
    SubAdd(a, b);
    var y := XorWord(a, x);
    XorTwice(a, x);
    SubAdd(y, c);
    SubAdd(Add(y, c), b);
  }

  lemma SubAdd(a: Word, b: Word)
    ensures Add(Sub(a, b), b) == a && Sub(Add(a, b), b) == a
  {
  }

  function Round(s: Abc, i: nat, j: nat, k: nat): Abc {
    var a := Step(s.a, s.b, s.c, Right(s.c, i));
    var b := Step(s.b, s.c, a, Shl(a, j));
    Abc(a, b, Step(s.c, a, b, Right(b, k)))
  }

  function Mix(s: Abc): Abc { Round(Round(Round(s, 13, 8, 13), 12, 16, 5), 3, 10, 15) }

  function Unround(s: Abc, i: nat, j: nat, k: nat): Abc {
    var c := Back(s.c, s.a, s.b, Right(s.b, k));
    var b := Back(s.b, c, s.a, Shl(s.a, j));
    Abc(Back(s.a, b, c, Right(c, i)), b, c)
  }

  function Unmix(s: Abc): Abc { Unround(Unround(Unround(s, 3, 10, 15), 12, 16, 5), 13, 8, 13) }

  lemma RoundBijective(s: Abc, i: nat, j: nat, k: nat)
    ensures Unround(Round(s, i, j, k), i, j, k) == s && Round(Unround(s, i, j, k), i, j, k) == s
  {
    var r, u := Round(s, i, j, k), Unround(s, i, j, k);
    StepBack(s.c, r.a, r.b, Right(r.b, k));
    StepBack(s.b, s.c, r.a, Shl(r.a, j));
    StepBack(s.a, s.b, s.c, Right(s.c, i));
    StepBack(s.c, s.a, s.b, Right(s.b, k));
    StepBack(s.b, u.c, s.a, Shl(s.a, j));
    StepBack(s.a, u.b, u.c, Right(u.c, i));
  }

  /** Mixing is a bijection: no two states become the same, and every state is reached. */
  lemma MixBijective(s: Abc)
    ensures Unmix(Mix(s)) == s && Mix(Unmix(s)) == s
  {
    var r1 := Round(s, 13, 8, 13);
    var r2 := Round(r1, 12, 16, 5);
    RoundBijective(s, 13, 8, 13);
    RoundBijective(r1, 12, 16, 5);
    RoundBijective(r2, 3, 10, 15);
    var u3 := Unround(s, 3, 10, 15);
    var u2 := Unround(u3, 12, 16, 5);
    RoundBijective(s, 3, 10, 15);
    RoundBijective(u3, 12, 16, 5);
    RoundBijective(u2, 13, 8, 13);
  }

  // ---------------------------------------------------------------- blocks

  function WordOf(b0: Byte, b1: Byte, b2: Byte, b3: Byte): Word { b0 + 0x100 * b1 + 0x1_0000 * b2 + 0x100_0000 * b3 }

  function BytesOf(w: Word): seq<Byte> { [w % 0x100, w / 0x100 % 0x100, w / 0x1_0000 % 0x100, w / 0x100_0000] }

  lemma WordRoundTrip(b: seq<Byte>, w: Word)
    requires b == BytesOf(w)
    ensures |b| == 4 && WordOf(b[0], b[1], b[2], b[3]) == w
  {
    assert w / 0x1_0000 == w / 0x100 / 0x100 && w / 0x100_0000 == w / 0x1_0000 / 0x100;
  }

  lemma WordInjective(a0: Byte, a1: Byte, a2: Byte, a3: Byte, b0: Byte, b1: Byte, b2: Byte, b3: Byte)
    requires WordOf(a0, a1, a2, a3) == WordOf(b0, b1, b2, b3)
    ensures a0 == b0 && a1 == b1 && a2 == b2 && a3 == b3
  {
    var x3, x2, x1 := a3, a2 + 0x100 * a3, a1 + 0x100 * (a2 + 0x100 * a3);
    var y3, y2, y1 := b3, b2 + 0x100 * b3, b1 + 0x100 * (b2 + 0x100 * b3);
    LowByte(a0, x1, b0, y1);
    LowByte(a1, x2, b1, y2);
    LowByte(a2, x3, b2, y3);
  }

  lemma LowByte(a: Byte, x: nat, b: Byte, y: nat)
    requires a + 0x100 * x == b + 0x100 * y
    ensures a == b && x == y
  {
  }

  function Load(s: Abc, w: Abc): Abc { Abc(Add(s.a, w.a), Add(s.b, w.b), Add(s.c, w.c)) }

  function Block(k: seq<Byte>): Abc
    requires |k| >= 12
  {
    Abc(WordOf(k[0], k[1], k[2], k[3]), WordOf(k[4], k[5], k[6], k[7]), WordOf(k[8], k[9], k[10], k[11]))
  }

  function At(k: seq<Byte>, i: nat): Byte { if i < |k| then k[i] else 0 }

  /** The last bytes as a block: filled up with zeros, and leaving the lowest byte of `c` to the length. */
  function LastBlock(k: seq<Byte>): Abc
    requires |k| < 12
  {
    Abc(WordOf(At(k, 0), At(k, 1), At(k, 2), At(k, 3)), WordOf(At(k, 4), At(k, 5), At(k, 6), At(k, 7)),
        WordOf(0, At(k, 8), At(k, 9), At(k, 10)))
  }

  /** The blocks of a key. */
  function Blocks(k: seq<Byte>): (r: seq<Abc>)
    ensures r != []
  {
    if |k| < 12 then [LastBlock(k)] else [Block(k)] + Blocks(k[12..])
  }

  /** The blocks of a key of words. */
  function WordBlocks(ws: seq<Word>): (r: seq<Abc>)
    ensures r != []
  {
    if |ws| < 3 then [Abc(if |ws| >= 1 then ws[0] else 0, if |ws| == 2 then ws[1] else 0, 0)]
    else [Abc(ws[0], ws[1], ws[2])] + WordBlocks(ws[3..])
  }

  /** What the loops do with a block. */
  function Absorb(s: Abc, w: Abc): Abc { Mix(Load(s, w)) }

  /** The internal state at the end, for the rest of the blocks of a key of `n` bytes. */
  function Fold(step: (Abc, Abc) -> Abc, s: Abc, bs: seq<Abc>, n: nat): Abc
    requires bs != []
    decreases |bs|
  {
    if |bs| == 1 then step(s.(c := Add(s.c, n)), bs[0]) else Fold(step, step(s, bs[0]), bs[1..], n)
  }

  function Start(initval: Word): Abc { Abc(GOLDEN_RATIO, GOLDEN_RATIO, initval) }

  /** The state that jhash ends in; its result is the word `c`. */
  function HashState(k: seq<Byte>, initval: Word): Abc { Fold(Absorb, Start(initval), Blocks(k), |k|) }

  /** The state that jhash2 ends in. */
  function HashWordsState(ws: seq<Word>, initval: Word): Abc { Fold(Absorb, Start(initval), WordBlocks(ws), 4 * |ws|) }

  // ---------------------------------------------------------------- the two forms agree

  function Bytes(ws: seq<Word>): (r: seq<Byte>)
    ensures |r| == 4 * |ws|
  {
    if ws == [] then [] else BytesOf(ws[0]) + Bytes(ws[1..])
  }

  lemma {:induction false} BytesAt(ws: seq<Word>, i: nat)
    requires i < |ws|
    ensures Bytes(ws)[4 * i..4 * i + 4] == BytesOf(ws[i])
  {
    if i == 0 {
    } else {
      BytesAt(ws[1..], i - 1);
      var r := Bytes(ws[1..]);
      assert Bytes(ws) == BytesOf(ws[0]) + r;
      assert Bytes(ws)[4 * i..4 * i + 4] == r[4 * (i - 1)..4 * (i - 1) + 4];
    }
  }

  lemma WordAt(ws: seq<Word>, i: nat)
    requires i < |ws|
    ensures var b := Bytes(ws); WordOf(b[4 * i], b[4 * i + 1], b[4 * i + 2], b[4 * i + 3]) == ws[i]
  {
    BytesAt(ws, i);
    WordRoundTrip(Bytes(ws)[4 * i..4 * i + 4], ws[i]);
    SliceAt(Bytes(ws), 4 * i);
  }

  lemma SliceAt(b: seq<Byte>, i: nat)
    requires i + 4 <= |b|
    ensures var q := b[i..i + 4]; q[0] == b[i] && q[1] == b[i + 1] && q[2] == b[i + 2] && q[3] == b[i + 3]
  {
  }

  /** The bytes are those of the words, from the lowest to the highest in each. */
  predicate LittleEndian(b: seq<Byte>, ws: seq<Word>) {
    |b| == 4 * |ws| && forall i :: 0 <= i < |ws| ==> WordOf(b[4 * i], b[4 * i + 1], b[4 * i + 2], b[4 * i + 3]) == ws[i]
  }

  lemma BytesLittleEndian(ws: seq<Word>)
    ensures LittleEndian(Bytes(ws), ws)
  {
    forall i | 0 <= i < |ws|
      ensures var b := Bytes(ws); WordOf(b[4 * i], b[4 * i + 1], b[4 * i + 2], b[4 * i + 3]) == ws[i]
    {
      WordAt(ws, i);
    }
  }

  lemma LittleEndianDrop(b: seq<Byte>, ws: seq<Word>)
    requires LittleEndian(b, ws) && |ws| >= 3
    ensures LittleEndian(b[12..], ws[3..])
  {
    var b', ws' := b[12..], ws[3..];
    forall i | 0 <= i < |ws'|
      ensures WordOf(b'[4 * i], b'[4 * i + 1], b'[4 * i + 2], b'[4 * i + 3]) == ws'[i]
    {
      assert ws'[i] == ws[i + 3];
    }
  }

  lemma LastWords(b: seq<Byte>, ws: seq<Word>)
    requires LittleEndian(b, ws) && |ws| < 3
    ensures LastBlock(b) == Abc(if |ws| >= 1 then ws[0] else 0, if |ws| == 2 then ws[1] else 0, 0)
  {
    if |ws| >= 1 { assert WordOf(b[0], b[1], b[2], b[3]) == ws[0]; }
    if |ws| == 2 { assert WordOf(b[4], b[5], b[6], b[7]) == ws[1]; }
  }

  lemma FirstWords(b: seq<Byte>, ws: seq<Word>)
    requires LittleEndian(b, ws) && |ws| >= 3
    ensures Block(b) == Abc(ws[0], ws[1], ws[2])
  {
    assert WordOf(b[4 * 0], b[1], b[2], b[3]) == ws[0];
    assert WordOf(b[4 * 1], b[5], b[6], b[7]) == ws[1];
    assert WordOf(b[4 * 2], b[9], b[10], b[11]) == ws[2];
  }

  lemma {:induction false} BlocksAgree(b: seq<Byte>, ws: seq<Word>)
    requires LittleEndian(b, ws)
    ensures Blocks(b) == WordBlocks(ws)
    decreases |ws|
  {
    if |ws| < 3 {
      LastWords(b, ws);
    } else {
      FirstWords(b, ws);
      LittleEndianDrop(b, ws);
      BlocksAgree(b[12..], ws[3..]);
    }
  }

  /** The hash of words is that of their bytes. */
  lemma WordsAgree(ws: seq<Word>, initval: Word)
    ensures HashWordsState(ws, initval) == HashState(Bytes(ws), initval)
  {
    BytesLittleEndian(ws);
    BlocksAgree(Bytes(ws), ws);
  }

  // ---------------------------------------------------------------- keys that differ in one block

  lemma AddInjective(a: Word, b: Word, x: Word)
    requires Add(a, x) == Add(b, x) || Add(x, a) == Add(x, b)
    ensures a == b
  {
  }

  lemma LoadInjective(s: Abc, t: Abc, w: Abc)
    requires Load(s, w) == Load(t, w) || Load(w, s) == Load(w, t)
    ensures s == t
  {
    AddInjective(s.a, t.a, w.a);
    AddInjective(s.b, t.b, w.b);
    AddInjective(s.c, t.c, w.c);
  }

  /** Neither different states nor different blocks lead to the same state. */
  ghost predicate Injective(step: (Abc, Abc) -> Abc) {
    (forall s, t, w :: step(s, w) == step(t, w) ==> s == t) && (forall s, v, w :: step(s, v) == step(s, w) ==> v == w)
  }

  lemma MixInjective(s: Abc, t: Abc)
    requires Mix(s) == Mix(t)
    ensures s == t
  {
    MixBijective(s);
    MixBijective(t);
  }

  lemma AbsorbInjective()
    ensures Injective(Absorb)
  {
    forall s, t, w | Absorb(s, w) == Absorb(t, w) ensures s == t {
      MixInjective(Load(s, w), Load(t, w));
      LoadInjective(s, t, w);
    }
    forall s, v, w | Absorb(s, v) == Absorb(s, w) ensures v == w {
      MixInjective(Load(s, v), Load(s, w));
      LoadInjective(v, w, s);
    }
  }

  lemma AddTwice(a: Word, b: Word, n: nat)
    ensures Add(a, n) == Add(b, n) ==> a == b
  {
  }

  lemma BlockInjective(k: seq<Byte>, l: seq<Byte>)
    requires |k| >= 12 && |l| >= 12
    ensures Block(k) == Block(l) ==> k[..12] == l[..12]
  {
    FourSame(k, l, 0);
    FourSame(k, l, 4);
    FourSame(k, l, 8);
    assert k[..12] == k[0..4] + k[4..8] + k[8..12] && l[..12] == l[0..4] + l[4..8] + l[8..12];
  }

  lemma FourSame(k: seq<Byte>, l: seq<Byte>, i: nat)
    requires i + 4 <= |k| && i + 4 <= |l|
    ensures WordOf(k[i], k[i + 1], k[i + 2], k[i + 3]) == WordOf(l[i], l[i + 1], l[i + 2], l[i + 3]) ==>
            k[i..i + 4] == l[i..i + 4]
  {
    if WordOf(k[i], k[i + 1], k[i + 2], k[i + 3]) == WordOf(l[i], l[i + 1], l[i + 2], l[i + 3]) {
      WordInjective(k[i], k[i + 1], k[i + 2], k[i + 3], l[i], l[i + 1], l[i + 2], l[i + 3]);
    }
  }

  lemma LastBlockInjective(k: seq<Byte>, l: seq<Byte>)
    requires |k| == |l| < 12
    ensures LastBlock(k) == LastBlock(l) ==> k == l
  {
    if LastBlock(k) == LastBlock(l) {
      WordInjective(At(k, 0), At(k, 1), At(k, 2), At(k, 3), At(l, 0), At(l, 1), At(l, 2), At(l, 3));
      WordInjective(At(k, 4), At(k, 5), At(k, 6), At(k, 7), At(l, 4), At(l, 5), At(l, 6), At(l, 7));
      WordInjective(0, At(k, 8), At(k, 9), At(k, 10), 0, At(l, 8), At(l, 9), At(l, 10));
      forall i | 0 <= i < |k| ensures k[i] == l[i] {
        assert At(k, i) == At(l, i);
      }
    }
  }

  /** What follows in a key never makes two different states the same. */
  lemma {:induction false} FoldInjective(step: (Abc, Abc) -> Abc, s: Abc, t: Abc, bs: seq<Abc>, n: nat)
    requires Injective(step) && bs != [] && Fold(step, s, bs, n) == Fold(step, t, bs, n)
    ensures s == t
    decreases |bs|
  {
    if |bs| == 1 {
      AddTwice(s.c, t.c, n);
    } else {
      FoldInjective(step, step(s, bs[0]), step(t, bs[0]), bs[1..], n);
    }
  }

  /** Keys that differ in one block only end in different states. */
  lemma {:induction false} FoldApart(step: (Abc, Abc) -> Abc, s: Abc, bs: seq<Abc>, cs: seq<Abc>, j: nat, n: nat)
    requires Injective(step) && j < |bs| == |cs| && bs[j] != cs[j]
    requires forall i :: 0 <= i < |bs| && i != j ==> bs[i] == cs[i]
    ensures Fold(step, s, bs, n) != Fold(step, s, cs, n)
    decreases |bs|
  {
    if |bs| <= 1 {
    } else {
      if j == 0 {
        assert bs[1..] == cs[1..];
        if Fold(step, s, bs, n) == Fold(step, s, cs, n) {
          FoldInjective(step, step(s, bs[0]), step(s, cs[0]), bs[1..], n);
        }
      } else {
        FoldApart(step, step(s, bs[0]), bs[1..], cs[1..], j - 1, n);
      }
    }
  }

  /** Two keys of the same length that differ, but only within one block of twelve bytes. */
  predicate OneBlockApart(k: seq<Byte>, l: seq<Byte>, at: nat) {
    |k| == |l| && k != l && at % 12 == 0 &&
    forall i :: 0 <= i < |k| && k[i] != l[i] ==> at <= i < at + 12
  }

  lemma {:induction false} BlocksApart(k: seq<Byte>, l: seq<Byte>, at: nat) returns (j: nat)
    requires OneBlockApart(k, l, at)
    ensures var bs, cs := Blocks(k), Blocks(l);
            j < |bs| == |cs| && bs[j] != cs[j] && forall i :: 0 <= i < |bs| && i != j ==> bs[i] == cs[i]
    decreases |k|
  {
    j := 0;
    if |k| < 12 {
      LastBlockInjective(k, l);
    } else if at == 0 {
      FirstBlock(k, l);
    } else {
      LaterBlock(k, l, at);
      j := BlocksApart(k[12..], l[12..], at - 12);
      j := j + 1;
    }
  }

  lemma FirstBlock(k: seq<Byte>, l: seq<Byte>)
    requires OneBlockApart(k, l, 0) && |k| >= 12
    ensures Block(k) != Block(l) && k[12..] == l[12..]
  {
    assert k[12..] == l[12..];
    assert k == k[..12] + k[12..] && l == l[..12] + l[12..];
    BlockInjective(k, l);
  }

  lemma LaterBlock(k: seq<Byte>, l: seq<Byte>, at: nat)
    requires OneBlockApart(k, l, at) && at > 0 && |k| >= 12
    ensures at >= 12 && OneBlockApart(k[12..], l[12..], at - 12) && Block(k) == Block(l)
  {
    assert at >= 12;
    assert forall i :: 0 <= i < 12 ==> k[i] == l[i];
    assert k == k[..12] + k[12..] && l == l[..12] + l[12..] && k[..12] == l[..12];
    forall i | 0 <= i < |k[12..]| && k[12..][i] != l[12..][i] ensures at - 12 <= i < at {
      assert k[12 + i] != l[12 + i];
    }
  }

  /** Such keys never lead to the same internal state. */
  lemma OneBlockDiffers(k: seq<Byte>, l: seq<Byte>, at: nat, initval: Word)
    requires OneBlockApart(k, l, at)
    ensures HashState(k, initval) != HashState(l, initval)
  {
    AbsorbInjective();
    var j := BlocksApart(k, l, at);
    FoldApart(Absorb, Start(initval), Blocks(k), Blocks(l), j, |k|);
  }

  // ---------------------------------------------------------------- length and initial value

  lemma AddApart(a: Word, m: nat, n: nat)
    requires m % WORD != n % WORD
    ensures Add(a, m) != Add(a, n)
  {
  }

  /** The same blocks with another length, modulo 2^32, end in another state. */
  lemma {:induction false} LengthApart(step: (Abc, Abc) -> Abc, s: Abc, bs: seq<Abc>, m: nat, n: nat)
    requires Injective(step) && bs != [] && m % WORD != n % WORD
    ensures Fold(step, s, bs, m) != Fold(step, s, bs, n)
    decreases |bs|
  {
    if |bs| == 1 {
      AddApart(s.c, m, n);
    } else {
      LengthApart(step, step(s, bs[0]), bs[1..], m, n);
    }
  }

  /** So two keys of different length with the same blocks never lead to the same internal state. */
  lemma LengthCounts(k: seq<Byte>, l: seq<Byte>, initval: Word)
    requires Blocks(k) == Blocks(l) && |k| != |l| && |k| < WORD && |l| < WORD
    ensures HashState(k, initval) != HashState(l, initval)
  {
    AbsorbLengths(Start(initval), Blocks(k), |k|, |l|);
  }

  lemma AbsorbLengths(s: Abc, bs: seq<Abc>, m: nat, n: nat)
    requires bs != [] && m != n && m < WORD && n < WORD
    ensures Fold(Absorb, s, bs, m) != Fold(Absorb, s, bs, n)
  {
    AbsorbInjective();
    LengthApart(Absorb, s, bs, m, n);
  }

  /** Nor do two keys of words. */
  lemma WordLengthCounts(k: seq<Word>, l: seq<Word>, initval: Word)
    requires WordBlocks(k) == WordBlocks(l) && |k| != |l| && 4 * |k| < WORD && 4 * |l| < WORD
    ensures HashWordsState(k, initval) != HashWordsState(l, initval)
  {
    AbsorbLengths(Start(initval), WordBlocks(k), 4 * |k|, 4 * |l|);
  }

  lemma {:induction false} ZeroAfter(k: seq<Byte>)
    requires |k| % 12 != 11
    ensures Blocks(k + [0]) == Blocks(k)
    decreases |k|
  {
    if |k| < 12 {
      assert forall i: nat :: At(k + [0], i) == At(k, i);
    } else {
      assert (k + [0])[12..] == k[12..] + [0];
      ZeroAfter(k[12..]);
    }
  }

  /** For example a key and the same key with a zero byte after it, unless that fills a block. */
  lemma ZeroCounts(k: seq<Byte>, initval: Word)
    requires |k| % 12 != 11 && |k| + 1 < WORD
    ensures HashState(k + [0], initval) != HashState(k, initval)
  {
    ZeroAfter(k);
    LengthCounts(k + [0], k, initval);
  }

  /** Different initial values lead to different states. */
  lemma InitvalCounts(k: seq<Byte>, v: Word, w: Word)
    requires v != w
    ensures HashState(k, v) != HashState(k, w)
  {
    AbsorbInjective();
    if HashState(k, v) == HashState(k, w) { FoldInjective(Absorb, Start(v), Start(w), Blocks(k), |k|); }
  }

  // ---------------------------------------------------------------- the code

  lemma BytePowers()
    ensures Pow2(8) == 0x100 && Pow2(16) == 0x1_0000 && Pow2(24) == 0x100_0000
  {
    assert Pow2(8) == 0x100;
    assert Pow2(16) == 0x100 * Pow2(8);
    assert Pow2(24) == 0x100 * Pow2(16);
  }

  lemma ByteShifts(b: Byte)
    ensures Shl(b, 8) == 0x100 * b && Shl(b, 16) == 0x1_0000 * b && Shl(b, 24) == 0x100_0000 * b
  {
    BytePowers();
  }

  lemma JoinedWord(b0: Byte, b1: Byte, b2: Byte, b3: Byte)
    ensures Add(Add(Add(b0, Shl(b1, 8)), Shl(b2, 16)), Shl(b3, 24)) == WordOf(b0, b1, b2, b3)
  {
    ByteShifts(b1);
    ByteShifts(b2);
    ByteShifts(b3);
    AddSmall(b0, 0x100 * b1);
    AddSmall(b0 + 0x100 * b1, 0x1_0000 * b2);
    AddSmall(b0 + 0x100 * b1 + 0x1_0000 * b2, 0x100_0000 * b3);
  }

  lemma AddSmall(x: nat, y: nat)
    requires x + y < WORD
    ensures Add(x, y) == x + y
  {
  }

  /** Adding the bytes of a word one by one, the highest first, adds the word. */
  lemma AddedWord(a: Word, b0: Byte, b1: Byte, b2: Byte, b3: Byte)
    ensures Add(Add(Add(Add(a, Shl(b3, 24)), Shl(b2, 16)), Shl(b1, 8)), b0) == Add(a, WordOf(b0, b1, b2, b3))
    ensures Add(Add(Add(a, Shl(b3, 24)), Shl(b2, 16)), Shl(b1, 8)) == Add(a, WordOf(0, b1, b2, b3))
  {
    ByteShifts(b1);
    ByteShifts(b2);
    ByteShifts(b3);
    var x3, x2, x1 := 0x100_0000 * b3, 0x1_0000 * b2, 0x100 * b1;
    AddAdd(a, x3, x2);
    AddAdd(a, x3 + x2, x1);
    AddAdd(a, x3 + x2 + x1, b0);
  }

  lemma AddAdd(a: Word, x: nat, y: nat)
    ensures Add(Add(a, x), y) == Add(a, x + y)
  {
  }

  lemma AddNothing(a: Word, t: seq<Byte>, i: nat)
    ensures Add(a, 0) == a
    ensures i >= |t| ==> Shl(At(t, i), 8) == 0 && Shl(At(t, i), 16) == 0 && Shl(At(t, i), 24) == 0
  {
    ByteShifts(At(t, i));
  }

  method MixWords(a0: Word, b0: Word, c0: Word) returns (a: Word, b: Word, c: Word)
    ensures Abc(a, b, c) == Mix(Abc(a0, b0, c0))
  {
    a, b, c := a0, b0, c0;
    a := Sub(a, b); a := Sub(a, c); a := XorWord(a, Right(c, 13));
    b := Sub(b, c); b := Sub(b, a); b := XorWord(b, Shl(a, 8));
    c := Sub(c, a); c := Sub(c, b); c := XorWord(c, Right(b, 13));
    a := Sub(a, b); a := Sub(a, c); a := XorWord(a, Right(c, 12));
    b := Sub(b, c); b := Sub(b, a); b := XorWord(b, Shl(a, 16));
    c := Sub(c, a); c := Sub(c, b); c := XorWord(c, Right(b, 5));
    a := Sub(a, b); a := Sub(a, c); a := XorWord(a, Right(c, 3));
    b := Sub(b, c); b := Sub(b, a); b := XorWord(b, Shl(a, 10));
    c := Sub(c, a); c := Sub(c, b); c := XorWord(c, Right(b, 15));
  }

  /** The switch at the end of jhash, whose cases fall through. */
  method AddLast(a0: Word, b0: Word, c0: Word, t: seq<Byte>) returns (a: Word, b: Word, c: Word)
    requires |t| < 12
    ensures Abc(a, b, c) == Load(Abc(a0, b0, c0), LastBlock(t))
  {
    c := AddHigh(c0, t, 7);
    b := AddHigh(b0, t, 4);
    if |t| >= 5 { b := Add(b, t[4]); }
    a := AddHigh(a0, t, 0);
    if |t| >= 1 { a := Add(a, t[0]); }
    AddedWord(a0, At(t, 0), At(t, 1), At(t, 2), At(t, 3));
    AddedWord(b0, At(t, 4), At(t, 5), At(t, 6), At(t, 7));
    AddedWord(c0, At(t, 7), At(t, 8), At(t, 9), At(t, 10));
    AddNothing(b, t, 4);
    AddNothing(a, t, 0);
  }

  /** The upper three bytes of a word. */
  method AddHigh(a0: Word, t: seq<Byte>, i: nat) returns (a: Word)
    ensures a == Add(Add(Add(a0, Shl(At(t, i + 3), 24)), Shl(At(t, i + 2), 16)), Shl(At(t, i + 1), 8))
  {
    a := a0;
    AddNothing(a, t, i + 3);
    if |t| >= i + 4 { a := Add(a, Shl(t[i + 3], 24)); }
    AddNothing(a, t, i + 2);
    if |t| >= i + 3 { a := Add(a, Shl(t[i + 2], 16)); }
    AddNothing(a, t, i + 1);
    if |t| >= i + 2 { a := Add(a, Shl(t[i + 1], 8)); }
  }

  method AddBlock(a0: Word, b0: Word, c0: Word, k: seq<Byte>) returns (a: Word, b: Word, c: Word)
    requires |k| >= 12
    ensures Abc(a, b, c) == Load(Abc(a0, b0, c0), Block(k))
  {
    JoinedWord(k[0], k[1], k[2], k[3]);
    JoinedWord(k[4], k[5], k[6], k[7]);
    JoinedWord(k[8], k[9], k[10], k[11]);
    a := Add(a0, Add(Add(Add(k[0], Shl(k[1], 8)), Shl(k[2], 16)), Shl(k[3], 24)));
    b := Add(b0, Add(Add(Add(k[4], Shl(k[5], 8)), Shl(k[6], 16)), Shl(k[7], 24)));
    c := Add(c0, Add(Add(Add(k[8], Shl(k[9], 8)), Shl(k[10], 16)), Shl(k[11], 24)));
  }

  method HashBytes(key: seq<Byte>, initval: Word) returns (h: Word)
    requires |key| < WORD
    ensures h == HashState(key, initval).c
  {
    var a: Word, b: Word, c: Word, k := GOLDEN_RATIO, GOLDEN_RATIO, initval, key;
    while |k| >= 12
      invariant Fold(Absorb, Abc(a, b, c), Blocks(k), |key|) == HashState(key, initval)
    {
      a, b, c := AddBlock(a, b, c, k);
      a, b, c := MixWords(a, b, c);
      k := k[12..];
    }
    c := Add(c, |key|);
    a, b, c := AddLast(a, b, c, k);
    a, b, c := MixWords(a, b, c);
    return c;
  }

  method HashWords(key: seq<Word>, initval: Word) returns (h: Word)
    requires |key| < WORD
    ensures h == HashWordsState(key, initval).c
  {
    var a: Word, b: Word, c: Word, k := GOLDEN_RATIO, GOLDEN_RATIO, initval, key;
    while |k| >= 3
      invariant Fold(Absorb, Abc(a, b, c), WordBlocks(k), 4 * |key|) == HashWordsState(key, initval)
    {
      a, b, c := Add(a, k[0]), Add(b, k[1]), Add(c, k[2]);
      a, b, c := MixWords(a, b, c);
      k := k[3..];
    }
    LengthWraps(c, |key|);
    c := Add(c, (|key| * 4) % WORD);
    a, b := AddLastWords(a, b, k);
    AddNone(c);
    a, b, c := MixWords(a, b, c);
    return c;
  }

  method AddLastWords(a0: Word, b0: Word, k: seq<Word>) returns (a: Word, b: Word)
    requires |k| < 3
    ensures a == Add(a0, if |k| >= 1 then k[0] else 0) && b == Add(b0, if |k| == 2 then k[1] else 0)
  {
    AddNone(a0);
    AddNone(b0);
    a, b := a0, b0;
    if |k| == 2 { b := Add(b, k[1]); }
    if |k| >= 1 { a := Add(a, k[0]); }
  }

  lemma AddNone(a: Word)
    ensures Add(a, 0) == a
  {
  }

  lemma LengthWraps(c: Word, n: nat)
    ensures Add(c, (n * 4) % WORD) == Add(c, 4 * n)
  {
  }
}
