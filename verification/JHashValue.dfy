/**
  The hash of one key, worked out step by step. Numbers are taken digit by digit in base 16, and the
  facts about them are stated so that they are used only where they are asked for.
 */
module JHashValue {
  import opened Common
  import opened PackedTime
  import opened JHash

  // ---------------------------------------------------------------- exclusive or, digit by digit

  ghost predicate IsXor(a: nat, b: nat, c: nat) { forall d: nat, e: nat :: d == a && e == b ==> Xor(d, e) == c }

  lemma Double(a: nat, b: nat, c: nat, x: nat, y: nat, a': nat, b': nat, c': nat)
    requires IsXor(a, b, c) && x < 2 && y < 2
    requires a' == 2 * a + x && b' == 2 * b + y && c' == 2 * c + Differ(x, y)
    ensures IsXor(a', b', c')
  {
    forall d: nat, e: nat | d == a' && e == b' ensures Xor(d, e) == c' {
      Halves(d, e, a, b, x, y);
      assert Xor(a, b) == c;
    }
  }

  lemma Halves(d: nat, e: nat, a: nat, b: nat, x: nat, y: nat)
    requires x < 2 && y < 2 && d == 2 * a + x && e == 2 * b + y
    ensures Xor(d, e) == 2 * Xor(a, b) + Differ(x, y)
  {
    assert d / 2 == a && e / 2 == b && d % 2 == x && e % 2 == y;
    XorZero(d, e);
  }

  function Differ(x: nat, y: nat): nat { if x == y then 0 else 1 }

  /** A digit without its bit `p`, if it has it. */
  function Low(x: int, p: int): int { if x >= p then x - p else x }

  /** The bit `p`, the highest of the three digits, is that of the exclusive or. */
  predicate TopBit(x: int, y: int, z: int, p: int) { z >= p <==> (x >= p) != (y >= p) }

  /** `z` is the exclusive or of the digits `x` and `y`. */
  predicate Digit(x: nat, y: nat, z: nat) {
    x < 16 && y < 16 && z < 16 && TopBit(x, y, z, 8) &&
    var x2, y2, z2 := Low(x, 8), Low(y, 8), Low(z, 8);
    TopBit(x2, y2, z2, 4) &&
    var x1, y1, z1 := Low(x2, 4), Low(y2, 4), Low(z2, 4);
    TopBit(x1, y1, z1, 2) && TopBit(Low(x1, 2), Low(y1, 2), Low(z1, 2), 1)
  }

  lemma AddBits(a: nat, b: nat, c: nat, x3: nat, x2: nat, x1: nat, x0: nat, y3: nat, y2: nat, y1: nat, y0: nat,
                a': nat, b': nat, c': nat)
    requires IsXor(a, b, c) && x3 < 2 && x2 < 2 && x1 < 2 && x0 < 2 && y3 < 2 && y2 < 2 && y1 < 2 && y0 < 2
    requires a' == 16 * a + 8 * x3 + 4 * x2 + 2 * x1 + x0 && b' == 16 * b + 8 * y3 + 4 * y2 + 2 * y1 + y0
    requires c' == 16 * c + 8 * Differ(x3, y3) + 4 * Differ(x2, y2) + 2 * Differ(x1, y1) + Differ(x0, y0)
    ensures IsXor(a', b', c')
  {
    var a3, b3, c3 := 2 * a + x3, 2 * b + y3, 2 * c + Differ(x3, y3);
    var a2, b2, c2 := 2 * a3 + x2, 2 * b3 + y2, 2 * c3 + Differ(x2, y2);
    var a1, b1, c1 := 2 * a2 + x1, 2 * b2 + y1, 2 * c2 + Differ(x1, y1);
    Double(a, b, c, x3, y3, a3, b3, c3);
    Double(a3, b3, c3, x2, y2, a2, b2, c2);
    Double(a2, b2, c2, x1, y1, a1, b1, c1);
    Double(a1, b1, c1, x0, y0, a', b', c');
  }

  function Bit(x: int, p: int): nat { if x >= p then 1 else 0 }

  lemma AddDigit(a: nat, b: nat, c: nat, x: nat, y: nat, z: nat, a': nat, b': nat, c': nat)
    requires IsXor(a, b, c) && Digit(x, y, z) && a' == 16 * a + x && b' == 16 * b + y && c' == 16 * c + z
    ensures IsXor(a', b', c')
  {
    var x2, y2 := Low(x, 8), Low(y, 8);
    var x1, y1 := Low(x2, 4), Low(y2, 4);
    var x0, y0 := Low(x1, 2), Low(y1, 2);
    AddBits(a, b, c, Bit(x, 8), Bit(x2, 4), Bit(x1, 2), x0, Bit(y, 8), Bit(y2, 4), Bit(y1, 2), y0, a', b', c');
  }

  lemma NoDigits()
    ensures IsXor(0, 0, 0)
  {
  }

  /** A number of four more digits, the highest first. */
  predicate Four(s: nat, x3: nat, x2: nat, x1: nat, x0: nat, s': nat) {
    s' == 0x1_0000 * s + 0x1000 * x3 + 0x100 * x2 + 0x10 * x1 + x0
  }

  lemma FourDigits(a: nat, b: nat, c: nat, x3: nat, x2: nat, x1: nat, x0: nat, y3: nat, y2: nat, y1: nat, y0: nat,
                   z3: nat, z2: nat, z1: nat, z0: nat, a': nat, b': nat, c': nat)
    requires IsXor(a, b, c) && Digit(x3, y3, z3) && Digit(x2, y2, z2) && Digit(x1, y1, z1) && Digit(x0, y0, z0)
    requires Four(a, x3, x2, x1, x0, a') && Four(b, y3, y2, y1, y0, b') && Four(c, z3, z2, z1, z0, c')
    ensures IsXor(a', b', c')
  {
    var a3, b3, c3 := 16 * a + x3, 16 * b + y3, 16 * c + z3;
    var a2, b2, c2 := 16 * a3 + x2, 16 * b3 + y2, 16 * c3 + z2;
    var a1, b1, c1 := 16 * a2 + x1, 16 * b2 + y1, 16 * c2 + z1;
    AddDigit(a, b, c, x3, y3, z3, a3, b3, c3);
    AddDigit(a3, b3, c3, x2, y2, z2, a2, b2, c2);
    AddDigit(a2, b2, c2, x1, y1, z1, a1, b1, c1);
    AddDigit(a1, b1, c1, x0, y0, z0, a', b', c');
  }

  // ---------------------------------------------------------------- one line, one round

  ghost predicate StepTo(a: Word, b: Word, c: Word, x: Word, r: Word) {
    forall d: Word :: d == a ==> Step(d, b, c, x) == r
  }

  lemma Stepped(a: Word, b: Word, c: Word, x: Word, d: Word, k: int, r: Word)
    requires d == a - b - c + k * WORD && IsXor(d, x, r)
    ensures StepTo(a, b, c, x, r)
  {
    SubTwice(a, b, c, d, k);
  }

  lemma SubTwice(a: Word, b: Word, c: Word, d: Word, k: int)
    requires d == a - b - c + k * WORD
    ensures Sub(Sub(a, b), c) == d
  {
    var j := if a >= b then 0 else 1;
    assert Sub(a, b) == a - b + j * WORD;
  }

  ghost predicate RightTo(x: Word, k: nat, y: Word) { forall d: Word :: d == x ==> Right(d, k) == y }

  ghost predicate LeftTo(x: Word, k: nat, y: Word) { forall d: Word :: d == x ==> Shl(d, k) == y }

  lemma RightIs(x: Word, k: nat, y: Word, p: nat, rest: nat)
    requires Pow2(k) == p && x == y * p + rest && rest < p
    ensures RightTo(x, k, y)
  {
    Whole(x, p, y, rest);
  }

  lemma Whole(n: nat, p: nat, q: nat, rest: nat)
    requires p > 0 && n == q * p + rest && rest < p
    ensures n / p == q
  {
    var q', rest' := n / p, n % p;
    assert n == q' * p + rest';
    if q' < q {
      More(q', q, p);
    } else if q < q' {
      More(q, q', p);
    }
  }

  lemma More(a: nat, b: nat, p: nat)
    requires a < b
    ensures a * p + p <= b * p
  {
    assert (a + 1) * p <= b * p;
  }

  lemma LeftIs(x: Word, k: nat, y: Word, p: nat, over: nat)
    requires Pow2(k) == p && x * p == over * WORD + y
    ensures LeftTo(x, k, y)
  {
  }

  ghost predicate RoundTo(s: Abc, i: nat, j: nat, k: nat, r: Abc) { forall t: Abc :: t == s ==> Round(t, i, j, k) == r }

  lemma Rounded(s: Abc, i: nat, j: nat, k: nat, r: Abc, x: Word, y: Word, z: Word)
    requires RightTo(s.c, i, x) && LeftTo(r.a, j, y) && RightTo(r.b, k, z)
    requires StepTo(s.a, s.b, s.c, x, r.a) && StepTo(s.b, s.c, r.a, y, r.b) && StepTo(s.c, r.a, r.b, z, r.c)
    ensures RoundTo(s, i, j, k, r)
  {
  }

  lemma FirstA()
    ensures StepTo(0xa23a7bba, 0xa63e7fbe, 0x1d3e5f83, 0xe9f2, 0xdebd758b)
  {
    NoDigits();
    FourDigits(0, 0, 0, 0xd, 0xe, 0xb, 0xd, 0x0, 0x0, 0x0, 0x0, 0xd, 0xe, 0xb, 0xd, 0xdebd, 0x0, 0xdebd);
    FourDigits(0xdebd, 0x0, 0xdebd, 0x9, 0xc, 0x7, 0x9, 0xe, 0x9, 0xf, 0x2, 0x7, 0x5, 0x8, 0xb,
               0xdebd9c79, 0xe9f2, 0xdebd758b);
    Stepped(0xa23a7bba, 0xa63e7fbe, 0x1d3e5f83, 0xe9f2, 0xdebd9c79, 1, 0xdebd758b);
  }

  lemma FirstB()
    ensures StepTo(0xa63e7fbe, 0x1d3e5f83, 0xdebd758b, 0xbd758b00, 0x173721b0)
  {
    NoDigits();
    FourDigits(0, 0, 0, 0xa, 0xa, 0x4, 0x2, 0xb, 0xd, 0x7, 0x5, 0x1, 0x7, 0x3, 0x7, 0xaa42, 0xbd75, 0x1737);
    FourDigits(0xaa42, 0xbd75, 0x1737, 0xa, 0xa, 0xb, 0x0, 0x8, 0xb, 0x0, 0x0, 0x2, 0x1, 0xb, 0x0,
               0xaa42aab0, 0xbd758b00, 0x173721b0);
    Stepped(0xa63e7fbe, 0x1d3e5f83, 0xdebd758b, 0xbd758b00, 0xaa42aab0, 1, 0x173721b0);
  }

  lemma FirstC()
    ensures StepTo(0x1d3e5f83, 0xdebd758b, 0x173721b0, 0xb9b9, 0x274971f1)
  {
    NoDigits();
    FourDigits(0, 0, 0, 0x2, 0x7, 0x4, 0x9, 0x0, 0x0, 0x0, 0x0, 0x2, 0x7, 0x4, 0x9, 0x2749, 0x0, 0x2749);
    FourDigits(0x2749, 0x0, 0x2749, 0xc, 0x8, 0x4, 0x8, 0xb, 0x9, 0xb, 0x9, 0x7, 0x1, 0xf, 0x1,
               0x2749c848, 0xb9b9, 0x274971f1);
    Stepped(0x1d3e5f83, 0xdebd758b, 0x173721b0, 0xb9b9, 0x2749c848, 1, 0x274971f1);
  }

  lemma FirstRound()
    ensures RoundTo(Abc(0xa23a7bba, 0xa63e7fbe, 0x1d3e5f83), 13, 8, 13, Abc(0xdebd758b, 0x173721b0, 0x274971f1))
  {
    FirstA();
    FirstB();
    FirstC();
    RightIs(0x1d3e5f83, 13, 0xe9f2, 0x2000, 0x1f83);
    LeftIs(0xdebd758b, 8, 0xbd758b00, 0x100, 0xde);
    RightIs(0x173721b0, 13, 0xb9b9, 0x2000, 0x1b0);
    Rounded(Abc(0xa23a7bba, 0xa63e7fbe, 0x1d3e5f83), 13, 8, 13,
            Abc(0xdebd758b, 0x173721b0, 0x274971f1), 0xe9f2, 0xbd758b00, 0xb9b9);
  }

  lemma SecondA()
    ensures StepTo(0xdebd758b, 0x173721b0, 0x274971f1, 0x27497, 0xa03e957d)
  {
    NoDigits();
    FourDigits(0, 0, 0, 0xa, 0x0, 0x3, 0xc, 0x0, 0x0, 0x0, 0x2, 0xa, 0x0, 0x3, 0xe, 0xa03c, 0x2, 0xa03e);
    FourDigits(0xa03c, 0x2, 0xa03e, 0xe, 0x1, 0xe, 0xa, 0x7, 0x4, 0x9, 0x7, 0x9, 0x5, 0x7, 0xd,
               0xa03ce1ea, 0x27497, 0xa03e957d);
    Stepped(0xdebd758b, 0x173721b0, 0x274971f1, 0x27497, 0xa03ce1ea, 0, 0xa03e957d);
  }

  lemma SecondB()
    ensures StepTo(0x173721b0, 0x274971f1, 0xa03e957d, 0x957d0000, 0xdad21a42)
  {
    NoDigits();
    FourDigits(0, 0, 0, 0x4, 0xf, 0xa, 0xf, 0x9, 0x5, 0x7, 0xd, 0xd, 0xa, 0xd, 0x2, 0x4faf, 0x957d, 0xdad2);
    FourDigits(0x4faf, 0x957d, 0xdad2, 0x1, 0xa, 0x4, 0x2, 0x0, 0x0, 0x0, 0x0, 0x1, 0xa, 0x4, 0x2,
               0x4faf1a42, 0x957d0000, 0xdad21a42);
    Stepped(0x173721b0, 0x274971f1, 0xa03e957d, 0x957d0000, 0x4faf1a42, 1, 0xdad21a42);
  }

  lemma SecondC()
    ensures StepTo(0x274971f1, 0xa03e957d, 0xdad21a42, 0x6d690d2, 0xaaee52e0)
  {
    NoDigits();
    FourDigits(0, 0, 0, 0xa, 0xc, 0x3, 0x8, 0x0, 0x6, 0xd, 0x6, 0xa, 0xa, 0xe, 0xe, 0xac38, 0x6d6, 0xaaee);
    FourDigits(0xac38, 0x6d6, 0xaaee, 0xc, 0x2, 0x3, 0x2, 0x9, 0x0, 0xd, 0x2, 0x5, 0x2, 0xe, 0x0,
               0xac38c232, 0x6d690d2, 0xaaee52e0);
    Stepped(0x274971f1, 0xa03e957d, 0xdad21a42, 0x6d690d2, 0xac38c232, 2, 0xaaee52e0);
  }

  lemma SecondRound()
    ensures RoundTo(Abc(0xdebd758b, 0x173721b0, 0x274971f1), 12, 16, 5, Abc(0xa03e957d, 0xdad21a42, 0xaaee52e0))
  {
    SecondA();
    SecondB();
    SecondC();
    RightIs(0x274971f1, 12, 0x27497, 0x1000, 0x1f1);
    LeftIs(0xa03e957d, 16, 0x957d0000, 0x10000, 0xa03e);
    RightIs(0xdad21a42, 5, 0x6d690d2, 0x20, 0x2);
    Rounded(Abc(0xdebd758b, 0x173721b0, 0x274971f1), 12, 16, 5,
            Abc(0xa03e957d, 0xdad21a42, 0xaaee52e0), 0x27497, 0x957d0000, 0x6d690d2);
  }

  lemma ThirdA()
    ensures StepTo(0xa03e957d, 0xdad21a42, 0xaaee52e0, 0x155dca5c, 0xf23e207)
  {
    NoDigits();
    FourDigits(0, 0, 0, 0x1, 0xa, 0x7, 0xe, 0x1, 0x5, 0x5, 0xd, 0x0, 0xf, 0x2, 0x3, 0x1a7e, 0x155d, 0xf23);
    FourDigits(0x1a7e, 0x155d, 0xf23, 0x2, 0x8, 0x5, 0xb, 0xc, 0xa, 0x5, 0xc, 0xe, 0x2, 0x0, 0x7,
               0x1a7e285b, 0x155dca5c, 0xf23e207);
    Stepped(0xa03e957d, 0xdad21a42, 0xaaee52e0, 0x155dca5c, 0x1a7e285b, 1, 0xf23e207);
  }

  lemma ThirdB()
    ensures StepTo(0xdad21a42, 0xaaee52e0, 0xf23e207, 0x8f881c00, 0xaf37f95b)
  {
    NoDigits();
    FourDigits(0, 0, 0, 0x2, 0x0, 0xb, 0xf, 0x8, 0xf, 0x8, 0x8, 0xa, 0xf, 0x3, 0x7, 0x20bf, 0x8f88, 0xaf37);
    FourDigits(0x20bf, 0x8f88, 0xaf37, 0xe, 0x5, 0x5, 0xb, 0x1, 0xc, 0x0, 0x0, 0xf, 0x9, 0x5, 0xb,
               0x20bfe55b, 0x8f881c00, 0xaf37f95b);
    Stepped(0xdad21a42, 0xaaee52e0, 0xf23e207, 0x8f881c00, 0x20bfe55b, 0, 0xaf37f95b);
  }

  lemma ThirdC()
    ensures StepTo(0xaaee52e0, 0xf23e207, 0xaf37f95b, 0x15e6f, 0xec932911)
  {
    NoDigits();
    FourDigits(0, 0, 0, 0xe, 0xc, 0x9, 0x2, 0x0, 0x0, 0x0, 0x1, 0xe, 0xc, 0x9, 0x3, 0xec92, 0x1, 0xec93);
    FourDigits(0xec92, 0x1, 0xec93, 0x7, 0x7, 0x7, 0xe, 0x5, 0xe, 0x6, 0xf, 0x2, 0x9, 0x1, 0x1,
               0xec92777e, 0x15e6f, 0xec932911);
    Stepped(0xaaee52e0, 0xf23e207, 0xaf37f95b, 0x15e6f, 0xec92777e, 1, 0xec932911);
  }

  lemma ThirdRound()
    ensures RoundTo(Abc(0xa03e957d, 0xdad21a42, 0xaaee52e0), 3, 10, 15, Abc(0xf23e207, 0xaf37f95b, 0xec932911))
  {
    ThirdA();
    ThirdB();
    ThirdC();
    RightIs(0xaaee52e0, 3, 0x155dca5c, 0x8, 0x0);
    LeftIs(0xf23e207, 10, 0x8f881c00, 0x400, 0x3c);
    RightIs(0xaf37f95b, 15, 0x15e6f, 0x8000, 0x795b);
    Rounded(Abc(0xa03e957d, 0xdad21a42, 0xaaee52e0), 3, 10, 15,
            Abc(0xf23e207, 0xaf37f95b, 0xec932911), 0x155dca5c, 0x8f881c00, 0x15e6f);
  }

  // ---------------------------------------------------------------- the hash of one key

  lemma MixKnown(s: Abc)
    requires s == Abc(0xa23a7bba, 0xa63e7fbe, 0x1d3e5f83)
    ensures Mix(s) == Abc(0xf23e207, 0xaf37f95b, 0xec932911)
  {
    FirstRound();
    SecondRound();
    ThirdRound();
  }

  /** The eleven bytes from 1 to 11 fill the last block; its lowest byte is left to the length. */
  lemma LastKnown(key: seq<Byte>)
    requires key == [1, 2, 3, 4, 5, 6, 7, 8, 9, 10, 11]
    ensures Blocks(key) == [Abc(0x4030201, 0x8070605, 0xb0a0900)]
  {
  }

  lemma LoadKnown(s: Abc)
    requires s == Abc(GOLDEN_RATIO, GOLDEN_RATIO, 0x12345678 + 11)
    ensures Load(s, Abc(0x4030201, 0x8070605, 0xb0a0900)) == Abc(0xa23a7bba, 0xa63e7fbe, 0x1d3e5f83)
  {
  }

  lemma KnownHash(key: seq<Byte>, initval: Word)
    requires key == [1, 2, 3, 4, 5, 6, 7, 8, 9, 10, 11] && initval == 0x12345678
    ensures HashState(key, initval) == Abc(0xf23e207, 0xaf37f95b, 0xec932911)
  {
    LastKnown(key);
    var s := Abc(GOLDEN_RATIO, GOLDEN_RATIO, 0x12345678 + 11);
    LoadKnown(s);
    MixKnown(Load(s, Abc(0x4030201, 0x8070605, 0xb0a0900)));
    assert Start(initval).(c := Add(initval, 11)) == s;
  }
}
