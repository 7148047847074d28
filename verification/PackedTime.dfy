/**
  The packed time format of TIMERS/inc/tmrtypes.h: hours, minutes, seconds and ticks in the
  10, 6, 6 and 10 bits of a 32-bit word. Words are numbers, and the bit operations of C are
  defined on their binary digits.
 */
module PackedTime {
  import opened Common

  const WORD := 0x1_0000_0000

  function Or(a: nat, b: nat): (r: nat)
    decreases a + b
  {
    if a == 0 then b else if b == 0 then a
    else 2 * Or(a / 2, b / 2) + if a % 2 == 1 || b % 2 == 1 then 1 else 0
  }

  function And(a: nat, b: nat): (r: nat) {
    if a == 0 then 0 else 2 * And(a / 2, b / 2) + if a % 2 == 1 && b % 2 == 1 then 1 else 0
  }

  function Shl(a: nat, k: nat): nat { (a * Pow2(k)) % WORD }

  function Shr(a: nat, k: nat): nat { Per(a, Pow2(k)) }

  function Per(d: nat, rate: nat): nat
    requires rate > 0
  {
    d / rate
  }

  // ---------------------------------------------------------------- laws of the bit operations

  /** `a` with `k` zero digits appended. */
  function Up(a: nat, k: nat): nat { if k == 0 then a else 2 * Up(a, k - 1) }

  lemma {:induction false} UpIsTimes(a: nat, k: nat)
    ensures Up(a, k) == a * Pow2(k)
  {
    if k == 0 {
    } else {
      UpIsTimes(a, k - 1);
      assert a * Pow2(k) == 2 * (a * Pow2(k - 1));
    }
  }

  lemma {:induction false} OrShifted(a: nat, q: nat, k: nat)
    requires a < Pow2(k)
    ensures Or(a, Up(q, k)) == a + Up(q, k)
  {
    if k == 0 {
    } else {
      OrShifted(a / 2, q, k - 1);
    }
  }

  lemma AndHalf(a: nat, b: nat, x: nat, y: nat)
    ensures And(a + 2 * b, x + 2 * y) == 2 * And(a / 2 + b, x / 2 + y) + if a % 2 == 1 && x % 2 == 1 then 1 else 0
  {
    assert (a + 2 * b) / 2 == a / 2 + b && (x + 2 * y) / 2 == x / 2 + y;
    assert (a + 2 * b) % 2 == a % 2 && (x + 2 * y) % 2 == x % 2;
  }

  /** And works on the low `k` digits and on the rest independently. */
  lemma {:induction false} AndSplit(a: nat, b: nat, x: nat, y: nat, k: nat)
    requires a < Pow2(k) && x < Pow2(k)
    ensures And(a + Up(b, k), x + Up(y, k)) == And(a, x) + Up(And(b, y), k)
  {
    if k == 0 {
    } else {
      AndSplit(a / 2, b, x / 2, y, k - 1);
      AndHalf(a, Up(b, k - 1), x, Up(y, k - 1));
      AndDigits(a, x);
    }
  }

  lemma AndDigits(a: nat, x: nat)
    ensures And(a, x) == 2 * And(a / 2, x / 2) + if a % 2 == 1 && x % 2 == 1 then 1 else 0
  {
  }

  lemma {:induction false} AndZero(a: nat)
    ensures And(a, 0) == 0
  {
    if a == 0 {
    } else {
      AndZero(a / 2);
    }
  }

  lemma {:induction false} AndOnes(a: nat, k: nat)
    requires a < Pow2(k)
    ensures And(a, Pow2(k) - 1) == a == And(Pow2(k) - 1, a)
  {
    if k == 0 {
    } else {
      assert (Pow2(k) - 1) / 2 == Pow2(k - 1) - 1 && (Pow2(k) - 1) % 2 == 1;
      AndOnes(a / 2, k - 1);
    }
  }

  // ---------------------------------------------------------------- the packed word

  const TICK := 0
  const SEC := 1
  const MIN := 2
  const HRS := 3

  /** What is left of a duration, by unit. */
  datatype Left = Left(t: nat, s: nat, m: nat, h: nat) {
    predicate Zero() { t == 0 && s == 0 && m == 0 && h == 0 }

    function Cleared(wheel: nat): Left {
      if wheel == HRS then this.(h := 0) else if wheel == MIN then this.(m := 0)
      else if wheel == SEC then this.(s := 0) else this.(t := 0)
    }
  }

  /** A duration by units; the hours wrap at 1024. */
  function Units(d: nat, rate: nat): Left
    requires rate > 0
  {
    var secs := Per(d, rate);
    Left(d % rate, secs % 60, secs / 60 % 60, secs / 60 / 60 % 0x400)
  }

  /** The fields of a packed word, as the GET_ macros read them. */
  function Fields(ct: nat): Left { Left(Get(ct, TICK), Get(ct, SEC), Get(ct, MIN), Get(ct, HRS)) }

  function Join(t: nat, s: nat, m: nat, h: nat): nat { t + 0x400 * s + 0x1_0000 * m + 0x40_0000 * h }

  predicate InRange(t: nat, s: nat, m: nat, h: nat) { t < 0x400 && s < 0x40 && m < 0x40 && h < 0x400 }

  /** The SET_ macros, applied in turn by calc_time to a zeroed word. */
  function Pack(d: nat, rate: nat): (ct: nat)
    requires rate > 0
  {
    var secs := Per(d, rate);
    var mins := secs / 60;
    var hrs := mins / 60;
    Or(Or(Or(Or(0, d % rate), Shl(secs % 60, 10)), Shl(mins % 60, 16)), Shl(hrs, 22))
  }

  /** A word of `k` ones. */
  function Ones(k: nat): nat { Pow2(k) - 1 }

  /** The GET_ macros. */
  function Get(ct: nat, wheel: nat): nat {
    if wheel == HRS then And(Ones(10), Shr(ct, 22))
    else if wheel == MIN then And(Ones(6), Shr(ct, 16))
    else if wheel == SEC then And(Ones(6), Shr(ct, 10))
    else And(Ones(10), ct)
  }

  /** The masking of clear_wheel_timer. */
  function Clear(ct: nat, wheel: nat): nat {
    And(ct, if wheel == HRS then 0x3F_FFFF else if wheel == MIN then 0xFFC0_FFFF
            else if wheel == SEC then 0xFFFF_03FF else 0xFFFF_FC00)
  }

  lemma AndLow(a: nat, b: nat, k: nat)
    requires a < Pow2(k)
    ensures And(Pow2(k) - 1, a + Up(b, k)) == a == And(a + Up(b, k), Pow2(k) - 1)
  {
    assert Up(0, k) == 0 by { UpIsTimes(0, k); }
    AndSplit(Pow2(k) - 1, 0, a, b, k);
    AndSplit(a, b, Pow2(k) - 1, 0, k);
    AndOnes(a, k);
    AndZero(b);
  }

  lemma Powers()
    ensures Pow2(6) == 0x40 && Pow2(10) == 0x400 && Pow2(16) == 0x1_0000 && Pow2(22) == 0x40_0000
  {
    assert Pow2(6) == 0x40;
    assert Pow2(10) == 0x10 * Pow2(6);
    assert Pow2(16) == 0x40 * Pow2(10);
    assert Pow2(22) == 0x40 * Pow2(16);
  }

  lemma Ups(a: nat)
    ensures Up(a, 6) == 0x40 * a && Up(a, 10) == 0x400 * a && Up(a, 16) == 0x1_0000 * a && Up(a, 22) == 0x40_0000 * a
  {
    Powers();
    UpIsTimes(a, 6);
    UpIsTimes(a, 10);
    UpIsTimes(a, 16);
    UpIsTimes(a, 22);
  }

  /** Reading a field of a packed word gives what was put there. */
  lemma GetJoin(t: nat, s: nat, m: nat, h: nat)
    requires InRange(t, s, m, h)
    ensures Fields(Join(t, s, m, h)) == Left(t, s, m, h)
  {
    Shifted(t, s, m, h);
    GetLow(t, s + 0x40 * m + 0x1000 * h);
    GetHigh(s, m + 0x40 * h);
    GetHigh(m, h);
    GetLow(h, 0);
    FieldsOf(Join(t, s, m, h), t, s, m, h);
  }

  lemma FieldsOf(ct: nat, t: nat, s: nat, m: nat, h: nat)
    requires And(Ones(10), ct) == t && And(Ones(6), Shr(ct, 10)) == s
    requires And(Ones(6), Shr(ct, 16)) == m && And(Ones(10), Shr(ct, 22)) == h
    ensures Fields(ct) == Left(t, s, m, h)
  {
  }

  lemma Shifted(t: nat, s: nat, m: nat, h: nat)
    requires InRange(t, s, m, h)
    ensures var ct := Join(t, s, m, h);
            Shr(ct, 10) == s + 0x40 * m + 0x1000 * h && Shr(ct, 16) == m + 0x40 * h && Shr(ct, 22) == h
  {
    Powers();
  }

  lemma GetLow(t: nat, r: nat)
    requires t < 0x400
    ensures And(Ones(10), t + 0x400 * r) == t
  {
    Powers();
    Ups(r);
    AndLow(t, r, 10);
  }

  lemma GetHigh(s: nat, r: nat)
    requires s < 0x40
    ensures And(Ones(6), s + 0x40 * r) == s
  {
    Powers();
    Ups(r);
    AndLow(s, r, 6);
  }

  /** Clearing a field of a packed word leaves the other fields alone. */
  lemma ClearJoin(t: nat, s: nat, m: nat, h: nat)
    requires InRange(t, s, m, h)
    ensures var ct := Join(t, s, m, h);
            Clear(ct, TICK) == Join(0, s, m, h) && Clear(ct, SEC) == Join(t, 0, m, h) &&
            Clear(ct, MIN) == Join(t, s, 0, h) && Clear(ct, HRS) == Join(t, s, m, 0)
  {
    ClearJoinLow(t, s, m, h);
    ClearJoinHigh(t, s, m, h);
  }

  lemma ClearJoinLow(t: nat, s: nat, m: nat, h: nat)
    requires InRange(t, s, m, h)
    ensures var ct := Join(t, s, m, h); Clear(ct, TICK) == Join(0, s, m, h) && Clear(ct, SEC) == Join(t, 0, m, h)
  {
    ClearTick(t, s + 0x40 * m + 0x1000 * h);
    ClearSecs(t, s, m + 0x40 * h);
  }

  lemma ClearJoinHigh(t: nat, s: nat, m: nat, h: nat)
    requires InRange(t, s, m, h)
    ensures var ct := Join(t, s, m, h); Clear(ct, MIN) == Join(t, s, 0, h) && Clear(ct, HRS) == Join(t, s, m, 0)
  {
    ClearMins(t + 0x400 * s, m, h);
    ClearHours(t + 0x400 * s + 0x1_0000 * m, h);
  }

  lemma ClearTick(t: nat, r: nat)
    requires t < 0x400 && r < 0x40_0000
    ensures And(t + 0x400 * r, 0xFFFF_FC00) == 0x400 * r
  {
    Powers();
    Ups(r);
    Ups(0x3F_FFFF);
    ClearBelow(t, r, 10, 22, 0x400 * r, 0xFFFF_FC00);
  }

  lemma ClearSecs(low: nat, f: nat, high: nat)
    requires low < 0x400 && f < 0x40 && high < 0x1_0000
    ensures And(low + 0x400 * (f + 0x40 * high), 0xFFFF_03FF) == low + 0x1_0000 * high
  {
    Powers();
    Masks();
    Ups(f + 0x40 * high);
    Ups(0x40 * high);
    ClearField(low, f, high, 10, 16, 0x400 * (f + 0x40 * high), 0xFFFF_03FF, 0x1_0000 * high);
  }

  lemma ClearMins(low: nat, f: nat, high: nat)
    requires low < 0x1_0000 && f < 0x40 && high < 0x400
    ensures And(low + 0x1_0000 * (f + 0x40 * high), 0xFFC0_FFFF) == low + 0x40_0000 * high
  {
    Powers();
    Masks();
    Ups(f + 0x40 * high);
    Ups(0x40 * high);
    ClearField(low, f, high, 16, 10, 0x1_0000 * (f + 0x40 * high), 0xFFC0_FFFF, 0x40_0000 * high);
  }

  lemma Masks()
    ensures Pow2(10) - 1 + Up(0x40 * (Pow2(16) - 1), 10) == 0xFFFF_03FF
    ensures Pow2(16) - 1 + Up(0x40 * (Pow2(10) - 1), 16) == 0xFFC0_FFFF
  {
    Powers();
    Ups(0x40 * (Pow2(16) - 1));
    Ups(0x40 * (Pow2(10) - 1));
  }

  /** A mask of `j` ones above `k` zero digits clears the digits below. */
  lemma ClearBelow(low: nat, high: nat, k: nat, j: nat, up: nat, mask: nat)
    requires low < Pow2(k) && high < Pow2(j) && up == Up(high, k) && mask == Up(Pow2(j) - 1, k)
    ensures And(low + up, mask) == up
  {
    AndSplit(low, high, 0, Pow2(j) - 1, k);
    AndZero(low);
    AndOnes(high, j);
  }

  /** A mask of ones but for six digits clears these, and leaves `k` digits below and `j` above. */
  lemma ClearField(low: nat, f: nat, high: nat, k: nat, j: nat, up: nat, mask: nat, up': nat)
    requires low < Pow2(k) && f < 0x40 && high < Pow2(j) && up == Up(f + 0x40 * high, k) && up' == Up(0x40 * high, k)
    requires mask == Pow2(k) - 1 + Up(0x40 * (Pow2(j) - 1), k)
    ensures And(low + up, mask) == low + up'
  {
    AndSplit(low, f + 0x40 * high, Pow2(k) - 1, 0x40 * (Pow2(j) - 1), k);
    AndOnes(low, k);
    SixCleared(f, high, j);
  }

  lemma SixCleared(f: nat, high: nat, j: nat)
    requires f < 0x40 && high < Pow2(j)
    ensures And(f + 0x40 * high, 0x40 * (Pow2(j) - 1)) == 0x40 * high
  {
    Powers();
    Ups(high);
    Ups(Pow2(j) - 1);
    ClearBelow(f, high, 6, j, 0x40 * high, 0x40 * (Pow2(j) - 1));
  }

  lemma ClearHours(low: nat, h: nat)
    requires low < 0x40_0000
    ensures And(low + 0x40_0000 * h, 0x3F_FFFF) == low
  {
    Powers();
    Ups(h);
    AndLow(low, h, 22);
  }

  /** Packing a duration is exact but for the hours, which wrap at 1024. */
  lemma PackJoin(d: nat, rate: nat)
    requires 0 < rate <= 0x400
    ensures var u := Units(d, rate); Pack(d, rate) == Join(u.t, u.s, u.m, u.h) && InRange(u.t, u.s, u.m, u.h)
  {
    PackOr(d % rate, Per(d, rate) % 60, (Per(d, rate) / 60) % 60, Per(d, rate) / 60 / 60);
  }

  lemma PackOr(t: nat, s: nat, m: nat, hrs: nat)
    requires t < 0x400 && s < 0x40 && m < 0x40
    ensures Or(Or(Or(Or(0, t), Shl(s, 10)), Shl(m, 16)), Shl(hrs, 22)) == Join(t, s, m, hrs % 0x400)
  {
    Shifts(s, m, hrs);
    OrFields(t, s, m, hrs % 0x400);
  }

  lemma OrFields(t: nat, s: nat, m: nat, h: nat)
    requires InRange(t, s, m, h)
    ensures Or(Or(Or(Or(0, t), 0x400 * s), 0x1_0000 * m), 0x40_0000 * h) == Join(t, s, m, h)
  {
    OrSecs(t, s);
    OrMins(t + 0x400 * s, m);
    OrHours(t + 0x400 * s + 0x1_0000 * m, h);
  }

  lemma OrSecs(low: nat, s: nat)
    requires low < 0x400
    ensures Or(low, 0x400 * s) == low + 0x400 * s
  {
    Powers();
    Ups(s);
    OrShifted(low, s, 10);
  }

  lemma OrMins(low: nat, m: nat)
    requires low < 0x1_0000
    ensures Or(low, 0x1_0000 * m) == low + 0x1_0000 * m
  {
    Powers();
    Ups(m);
    OrShifted(low, m, 16);
  }

  lemma OrHours(low: nat, h: nat)
    requires low < 0x40_0000
    ensures Or(low, 0x40_0000 * h) == low + 0x40_0000 * h
  {
    Powers();
    Ups(h);
    OrShifted(low, h, 22);
  }

  lemma Shifts(s: nat, m: nat, hrs: nat)
    requires s < 0x40 && m < 0x40
    ensures Shl(s, 10) == Up(s, 10) == 0x400 * s
    ensures Shl(m, 16) == Up(m, 16) == 0x1_0000 * m
    ensures Shl(hrs, 22) == Up(hrs % 0x400, 22) == 0x40_0000 * (hrs % 0x400)
  {
    Powers();
    Ups(s);
    Ups(m);
    Ups(hrs % 0x400);
    assert (hrs * 0x40_0000) % WORD == (hrs % 0x400) * 0x40_0000;
  }

  /** Every word is the join of its fields. */
  lemma Unjoin(ct: nat) returns (t: nat, s: nat, m: nat, h: nat)
    requires ct < WORD
    ensures InRange(t, s, m, h) && ct == Join(t, s, m, h)
  {
    var r10 := ct / 0x400;
    assert ct == ct % 0x400 + 0x400 * r10 && r10 < 0x40_0000;
    var r16 := r10 / 0x40;
    assert r10 == r10 % 0x40 + 0x40 * r16 && r16 < 0x1_0000;
    t, s, m, h := ct % 0x400, r10 % 0x40, r16 % 0x40, r16 / 0x40;
  }

  // ---------------------------------------------------------------- words stand for durations by unit

  lemma PackFields(d: nat, rate: nat)
    requires 0 < rate <= 0x400
    ensures Pack(d, rate) < WORD && Fields(Pack(d, rate)) == Units(d, rate)
  {
    PackJoin(d, rate);
    var u := Units(d, rate);
    GetJoin(u.t, u.s, u.m, u.h);
  }

  lemma ClearFields(ct: nat, wheel: nat)
    requires ct < WORD && wheel <= HRS
    ensures Clear(ct, wheel) < WORD && Fields(Clear(ct, wheel)) == Fields(ct).Cleared(wheel)
  {
    var t, s, m, h := Unjoin(ct);
    GetJoin(t, s, m, h);
    var u := Left(t, s, m, h).Cleared(wheel);
    ClearedJoin(t, s, m, h, wheel);
    GetJoin(u.t, u.s, u.m, u.h);
  }

  lemma ClearedJoin(t: nat, s: nat, m: nat, h: nat, wheel: nat)
    requires InRange(t, s, m, h) && wheel <= HRS
    ensures var u := Left(t, s, m, h).Cleared(wheel);
            InRange(u.t, u.s, u.m, u.h) && Clear(Join(t, s, m, h), wheel) == Join(u.t, u.s, u.m, u.h) < WORD
  {
    ClearJoin(t, s, m, h);
  }

  /** IS_TMR_EXPD looks at the whole word at once. */
  lemma ZeroFields(ct: nat)
    requires ct < WORD
    ensures ct == 0 <==> Fields(ct).Zero()
  {
    var t, s, m, h := Unjoin(ct);
    GetJoin(t, s, m, h);
  }
}
