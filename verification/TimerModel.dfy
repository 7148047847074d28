/**
  The timer service as a state machine over values: a four-level clock and timers that move from
  wheel to wheel until they expire. `rate` is the number of ticks per second.
 */
module TimerModel {
  import opened Common
  import opened PackedTime

  const MAX_TIMERS := 2000

  // ---------------------------------------------------------------- the clock

  /** clk[TICK], clk[SEC], clk[MIN] and clk[HRS]. */
  datatype Clock = Clock(tick: nat, sec: nat, min: nat, hr: nat) {
    function Read(wheel: nat): nat {
      if wheel == HRS then hr else if wheel == MIN then min else if wheel == SEC then sec else tick
    }

    predicate NextSec(rate: nat) requires rate > 0 { tick % rate == 0 }
    predicate NextMin() { sec != 0 && sec % 60 == 0 }
    predicate NextHr() { min != 0 && min % 60 == 0 }
  }

  /** The counting part of update_times. */
  function Advance(c: Clock, rate: nat): Clock
    requires rate > 0
  {
    if (c.tick + 1) % rate != 0 then c.(tick := c.tick + 1)
    else if (c.sec + 1) % 60 != 0 then c.(tick := c.tick + 1, sec := c.sec + 1)
    else if (c.min + 1) % 60 != 0 then c.(tick := c.tick + 1, sec := c.sec + 1, min := c.min + 1)
    else Clock(c.tick + 1, c.sec + 1, c.min + 1, c.hr + 1)
  }

  /** The four counters tell the same time. */
  predicate ClockOk(c: Clock, rate: nat) {
    rate > 0 && c.sec == c.tick / rate && c.min == c.sec / 60 && c.hr == c.min / 60
  }

  lemma DivSucc(n: nat, rate: nat)
    requires rate > 0
    ensures (n + 1) / rate == n / rate + if (n + 1) % rate == 0 then 1 else 0
  {
    var q, r := n / rate, n % rate;
    assert n == q * rate + r;
    if r + 1 == rate {
      Quotient(n + 1, rate, q + 1, 0);
    } else {
      Quotient(n + 1, rate, q, r + 1);
    }
  }

  /** Quotient and remainder are determined by what they satisfy. */
  lemma Quotient(n: nat, d: nat, q: nat, r: nat)
    requires d > 0 && n == q * d + r && r < d
    ensures n / d == q && n % d == r
  {
    var q', r' := n / d, n % d;
    assert n == q' * d + r';
    assert (q' + 1) * d == q' * d + d && (q + 1) * d == q * d + d;
    if q' < q {
      TimesMono(q' + 1, q, d);
    } else if q' > q {
      TimesMono(q + 1, q', d);
    }
  }

  lemma AdvanceOk(c: Clock, rate: nat)
    requires ClockOk(c, rate)
    ensures ClockOk(Advance(c, rate), rate) && Advance(c, rate).tick == c.tick + 1
  {
    DivSucc(c.tick, rate);
  }

  // ---------------------------------------------------------------- one timer

  datatype Timer = Timer(left: Left, wheel: nat, rt: nat, exp: nat)

  /** find_tmr_slot_and_place: the wheel of the largest unit left, and the expiry on it. */
  function Place(c: Clock, tm: Timer): Option<Timer> {
    if tm.left.h != 0 then Some(tm.(wheel := HRS, rt := c.hr + tm.left.h))
    else if tm.left.m != 0 then Some(tm.(wheel := MIN, rt := c.min + tm.left.m))
    else if tm.left.s != 0 then Some(tm.(wheel := SEC, rt := c.sec + tm.left.s))
    else if tm.left.t != 0 then Some(tm.(wheel := TICK, rt := c.tick + tm.left.t))
    else None
  }

  /** calc_time and the first placing of a timer that start_timer makes. */
  function Begin(c: Clock, rate: nat, d: nat): Option<Timer>
    requires rate > 0
  {
    Place(c, Timer(Units(d, rate), TICK, 0, c.tick + d))
  }

  /** What becomes of a timer when its wheel is served. */
  datatype Fate = Waits(timer: Timer) | Expires | Unplaced

  /** process_timers on one timer: only one that is due on that wheel is touched. */
  function Served(c: Clock, tm: Timer, wheel: nat): Fate {
    if tm.wheel != wheel || tm.rt != c.Read(wheel) then Waits(tm)
    else
      var left := tm.left.Cleared(wheel);
      if left.Zero() then Expires
      else match Place(c, tm.(left := left)) case Some(tm') => Waits(tm') case None => Unplaced
  }

  function Then(c: Clock, f: Fate, wheel: nat): Fate {
    if f.Waits? then Served(c, f.timer, wheel) else f
  }

  /** tm_process_tick_and_update_timers on one timer. */
  function Ticked(c: Clock, rate: nat, tm: Timer): Fate
    requires rate > 0
  {
    var f0 := Served(c, tm, TICK);
    if !c.NextSec(rate) then f0 else
      var f1 := Then(c, f0, SEC);
      if !c.NextMin() then f1 else
        var f2 := Then(c, f1, MIN);
        if !c.NextHr() then f2 else Then(c, f2, HRS)
  }

  /** The tick at which a timer on a wheel is going to expire. */
  function Due(tm: Timer, rate: nat): nat {
    if tm.wheel == HRS then (3600 * tm.rt + 60 * tm.left.m + tm.left.s) * rate + tm.left.t
    else if tm.wheel == MIN then (60 * tm.rt + tm.left.s) * rate + tm.left.t
    else if tm.wheel == SEC then tm.rt * rate + tm.left.t
    else tm.rt
  }

  /** A timer on a wheel has nothing left above that wheel, and the wheel has yet to reach it. */
  predicate TimerOk(c: Clock, tm: Timer) {
    tm.wheel <= HRS && tm.rt > c.Read(tm.wheel) &&
    (tm.wheel < HRS ==> tm.left.h == 0) &&
    (tm.wheel < MIN ==> tm.left.m == 0) &&
    (tm.wheel < SEC ==> tm.left.s == 0)
  }

  lemma TimesMono(a: nat, b: nat, rate: nat)
    requires a <= b
    ensures a * rate <= b * rate
  {
  }

  lemma TickBounds(c: Clock, rate: nat)
    requires ClockOk(c, rate)
    ensures c.sec * rate <= c.tick < (c.sec + 1) * rate
    ensures c.NextSec(rate) ==> c.tick == c.sec * rate
    ensures 60 * c.min <= c.sec < 60 * c.min + 60 && 60 * c.hr <= c.min < 60 * c.hr + 60
  {
    assert c.tick == c.sec * rate + c.tick % rate;
    assert (c.sec + 1) * rate == c.sec * rate + rate;
  }

  /** A timer its wheel has yet to reach is not due yet. */
  lemma NotDueYet(c: Clock, rate: nat, tm: Timer)
    requires ClockOk(c, rate) && TimerOk(c, tm)
    ensures c.tick < Due(tm, rate)
  {
    TickBounds(c, rate);
    if tm.wheel == HRS {
      TimesMono(c.sec + 1, 3600 * tm.rt + 60 * tm.left.m + tm.left.s, rate);
    } else if tm.wheel == MIN {
      TimesMono(c.sec + 1, 60 * tm.rt + tm.left.s, rate);
    } else if tm.wheel == SEC {
      TimesMono(c.sec + 1, tm.rt, rate);
    }
  }

  /** The ticks in what is left of a duration. */
  function Ticks(left: Left, rate: nat): nat { (3600 * left.h + 60 * left.m + left.s) * rate + left.t }

  /** At a boundary of the wheel `w`, all clocks up to `w` start afresh. */
  predicate AtBoundary(c: Clock, rate: nat, w: nat)
    requires rate > 0
  {
    (w >= SEC ==> c.NextSec(rate)) && (w >= MIN ==> c.NextMin()) && (w >= HRS ==> c.NextHr())
  }

  /** A timer placed at a boundary above its wheel expires exactly its remaining time later. */
  lemma PlaceDue(c: Clock, rate: nat, tm: Timer)
    requires ClockOk(c, rate) && !tm.left.Zero()
    ensures Place(c, tm).Some? && TimerOk(c, Place(c, tm).value) && Place(c, tm).value.exp == tm.exp
    ensures AtBoundary(c, rate, Place(c, tm).value.wheel) ==>
            Due(Place(c, tm).value, rate) == c.tick + Ticks(tm.left, rate)
  {
    TickBounds(c, rate);
    var tm' := Place(c, tm).value;
    if AtBoundary(c, rate, tm'.wheel) && tm'.wheel >= SEC {
      var a, b := c.sec, 3600 * tm.left.h + 60 * tm.left.m + tm.left.s;
      assert (a + b) * rate == a * rate + b * rate;
    }
  }

  /** A wheel reaches a timer on it only at a boundary of that wheel: none is ever skipped. */
  lemma ReachedAtBoundary(c: Clock, rate: nat, tm: Timer)
    requires ClockOk(c, rate) && TimerOk(c, tm)
    ensures var c' := Advance(c, rate);
            c'.Read(tm.wheel) <= tm.rt && (tm.rt == c'.Read(tm.wheel) ==> AtBoundary(c', rate, tm.wheel))
  {
  }

  /** At a boundary of its wheel, a timer with `rt` equal to the clock has just its lower units to go. */
  lemma DueAtBoundary(c: Clock, rate: nat, tm: Timer)
    requires ClockOk(c, rate) && tm.wheel <= HRS && tm.rt == c.Read(tm.wheel) && AtBoundary(c, rate, tm.wheel)
    requires (tm.wheel < HRS ==> tm.left.h == 0) && (tm.wheel < MIN ==> tm.left.m == 0) &&
             (tm.wheel < SEC ==> tm.left.s == 0)
    ensures Due(tm, rate) == c.tick + Ticks(tm.left.Cleared(tm.wheel), rate)
  {
    TickBounds(c, rate);
    var l := tm.left.Cleared(tm.wheel);
    var a, b := c.sec, 3600 * l.h + 60 * l.m + l.s;
    assert (a + b) * rate == a * rate + b * rate;
  }

  /** Cascading from a wheel at its boundary lands on a lower wheel, with the same due time. */
  lemma ServedAtBoundary(c: Clock, rate: nat, tm: Timer)
    requires ClockOk(c, rate) && tm.wheel <= HRS && tm.rt == c.Read(tm.wheel) && AtBoundary(c, rate, tm.wheel)
    requires (tm.wheel < HRS ==> tm.left.h == 0) && (tm.wheel < MIN ==> tm.left.m == 0) &&
             (tm.wheel < SEC ==> tm.left.s == 0)
    ensures var f := Served(c, tm, tm.wheel);
            if Due(tm, rate) == c.tick then f == Expires
            else f.Waits? && TimerOk(c, f.timer) && f.timer.wheel < tm.wheel &&
                 Due(f.timer, rate) == Due(tm, rate) && f.timer.exp == tm.exp
  {
    DueAtBoundary(c, rate, tm);
    var l := tm.left.Cleared(tm.wheel);
    if l.Zero() {
      assert Ticks(l, rate) == 0;
    } else {
      PlaceDue(c, rate, tm.(left := l));
      NotDueYet(c, rate, Place(c, tm.(left := l)).value);
    }
  }

  /** One tick on one timer: it expires exactly at its due time, and until then it keeps that
      due time, on a wheel that has yet to reach it. */
  lemma TickTimer(c: Clock, rate: nat, tm: Timer)
    requires ClockOk(c, rate) && TimerOk(c, tm)
    ensures var c' := Advance(c, rate);
            var f := Ticked(c', rate, tm);
            ClockOk(c', rate) &&
            if Due(tm, rate) == c'.tick then f == Expires
            else c'.tick < Due(tm, rate) && f.Waits? && TimerOk(c', f.timer) &&
                 Due(f.timer, rate) == Due(tm, rate) && f.timer.exp == tm.exp
  {
    var c' := Advance(c, rate);
    AdvanceOk(c, rate);
    ReachedAtBoundary(c, rate, tm);
    if tm.rt == c'.Read(tm.wheel) {
      ServedAtBoundary(c', rate, tm);
      var f := Served(c', tm, tm.wheel);
      if f.Waits? { NotDueYet(c', rate, f.timer); }
    } else {
      NotDueYet(c', rate, tm);
    }
  }

  // ---------------------------------------------------------------- when a timer fires

  /** Durations wrap here, for want of bits in the field of the hours. */
  function Span(rate: nat): nat { 0x400 * 3600 * rate }

  /** The ticks of the largest unit of which the duration `e` has at least one. */
  function Unit(e: nat, rate: nat): nat {
    if e >= 3600 * rate then 3600 * rate else if e >= 60 * rate then 60 * rate else if e >= rate then rate else 1
  }

  /** The tick at which a timer started at tick `s` for `d` ticks fires. */
  function FireTime(s: nat, d: nat, rate: nat): int
    requires rate > 0
  {
    var e := d % Span(rate);
    s - s % Unit(e, rate) + e
  }

  /** The units of a duration make up the duration, but for what wraps. */
  lemma UnitsTicks(d: nat, rate: nat)
    requires rate > 0
    ensures Ticks(Units(d, rate), rate) == d % Span(rate)
    ensures Units(d, rate).t < rate
  {
    var u, secs := Units(d, rate), Per(d, rate);
    WholeSeconds(d, rate);
    SecondsUnits(secs);
    WrappedSeconds(d, rate, secs / 3686400, 3600 * u.h + 60 * u.m + u.s, u.t);
  }

  lemma WholeSeconds(d: nat, rate: nat)
    requires rate > 0
    ensures d == Per(d, rate) * rate + d % rate
  {
  }

  lemma SecondsUnits(secs: nat)
    ensures var a := 3600 * (secs / 60 / 60 % 0x400) + 60 * (secs / 60 % 60) + secs % 60;
            secs == 3686400 * (secs / 3686400) + a && a < 3686400
  {
    var mins := secs / 60;
    var hrs := mins / 60;
    assert secs == 60 * mins + secs % 60 && mins == 60 * hrs + mins % 60 && hrs == 0x400 * (hrs / 0x400) + hrs % 0x400;
    var a := 3600 * (hrs % 0x400) + 60 * (mins % 60) + secs % 60;
    Quotient(secs, 3686400, hrs / 0x400, a);
  }

  /** Seconds and ticks modulo the span. */
  lemma WrappedSeconds(d: nat, rate: nat, k: nat, a: nat, t: nat)
    requires t < rate && a < 3686400 && d == (3686400 * k + a) * rate + t
    ensures d % Span(rate) == a * rate + t
  {
    Distribute(3686400 * k, a, rate);
    Associate(k, rate);
    TimesMono(a + 1, 3686400, rate);
    Distribute(a, 1, rate);
    Remainder(d, Span(rate), k, k * Span(rate), a * rate, t, rate);
  }

  lemma Remainder(d: nat, span: nat, k: nat, whole: nat, x: nat, t: nat, rate: nat)
    requires whole == k * span && d == whole + x + t && t < rate && x + rate <= span
    ensures d % span == x + t
  {
    Quotient(d, span, k, x + t);
  }

  lemma Associate(k: nat, rate: nat)
    ensures (3686400 * k) * rate == k * Span(rate) && Span(rate) == 3686400 * rate
  {
  }

  /** A number of seconds plus a fraction reaches a whole number of them iff the seconds do. */
  lemma SecondsCompare(a: nat, t: nat, b: nat, rate: nat)
    requires t < rate
    ensures a * rate + t >= b * rate <==> a >= b
  {
    assert (a + 1) * rate == a * rate + rate;
    if a >= b { TimesMono(b, a, rate); } else { TimesMono(a + 1, b, rate); }
  }

  /** The clock rounded down to a whole number of `k` seconds. */
  lemma RoundDown(c: Clock, rate: nat, k: nat, q: nat)
    requires ClockOk(c, rate) && k > 0 && k * q <= c.sec < k * q + k
    ensures c.tick - c.tick % (k * rate) == k * q * rate
  {
    ManySeconds(c, rate, k, q);
    assert k * q * rate == q * (k * rate);
    Quotient(c.tick, k * rate, q, c.tick - q * (k * rate));
  }

  lemma ManySeconds(c: Clock, rate: nat, k: nat, q: nat)
    requires ClockOk(c, rate) && k > 0 && k * q <= c.sec < k * q + k
    ensures k * rate > 0 && q * (k * rate) <= c.tick < q * (k * rate) + k * rate
  {
    TickBounds(c, rate);
    TimesMono(k * q, c.sec, rate);
    TimesMono(c.sec + 1, k * q + k, rate);
    Regrouped(k, q, rate);
    TimesMono(1, k, rate);
  }

  lemma Regrouped(k: nat, q: nat, rate: nat)
    ensures (k * q) * rate == q * (k * rate) && (k * q + k) * rate == q * (k * rate) + k * rate
  {
  }

  /** A timer is placed unless its duration wraps to nothing, and is due at its fire time. */
  lemma BeginDue(c: Clock, rate: nat, d: nat)
    requires ClockOk(c, rate)
    ensures Begin(c, rate, d).None? <==> d % Span(rate) == 0
    ensures Begin(c, rate, d).Some? ==>
              var tm := Begin(c, rate, d).value;
              TimerOk(c, tm) && tm.exp == c.tick + d && Due(tm, rate) == FireTime(c.tick, d, rate)
  {
    UnitsTicks(d, rate);
    var u := Units(d, rate);
    var a := 3600 * u.h + 60 * u.m + u.s;
    NothingLeft(a, u.t, rate);
    if !u.Zero() {
      SecondsCompare(a, u.t, 3600, rate);
      SecondsCompare(a, u.t, 60, rate);
      SecondsCompare(a, u.t, 1, rate);
      BeginDuePlaced(c, rate, d, a);
    }
  }

  lemma NothingLeft(a: nat, t: nat, rate: nat)
    requires rate > 0
    ensures a * rate + t == 0 <==> a == 0 && t == 0
  {
    if a > 0 { TimesMono(1, a, rate); }
  }

  lemma BeginDuePlaced(c: Clock, rate: nat, d: nat, a: nat)
    requires ClockOk(c, rate) && !Units(d, rate).Zero()
    requires var u := Units(d, rate); a == 3600 * u.h + 60 * u.m + u.s && d % Span(rate) == a * rate + u.t
    requires var e := d % Span(rate);
             (e >= 3600 * rate <==> a >= 3600) && (e >= 60 * rate <==> a >= 60) && (e >= rate <==> a >= 1)
    ensures Begin(c, rate, d).Some?
    ensures var tm := Begin(c, rate, d).value;
            TimerOk(c, tm) && tm.exp == c.tick + d && Due(tm, rate) == FireTime(c.tick, d, rate)
  {
    var u, e := Units(d, rate), d % Span(rate);
    TickBounds(c, rate);
    var k := if u.h != 0 then 3600 else if u.m != 0 then 60 else 1;
    var q := if u.h != 0 then c.hr else if u.m != 0 then c.min else c.sec;
    if a == 0 {
      assert e == u.t && e % 1 == 0 && Unit(e, rate) == 1;
    } else {
      RoundDown(c, rate, k, q);
      Distribute(k * q, a, rate);
      assert Due(Begin(c, rate, d).value, rate) == (k * q + a) * rate + u.t by {
        PlacedDue(c, rate, Timer(u, TICK, 0, c.tick + d), a, k * q);
      }
      assert Unit(e, rate) == k * rate;
    }
  }

  lemma Distribute(x: nat, y: nat, rate: nat)
    ensures (x + y) * rate == x * rate + y * rate
  {
  }

  lemma PlacedDue(c: Clock, rate: nat, tm: Timer, a: nat, base: nat)
    requires var u := tm.left; a == 3600 * u.h + 60 * u.m + u.s && a > 0
    requires base == if tm.left.h != 0 then 3600 * c.hr else if tm.left.m != 0 then 60 * c.min else c.sec
    ensures Place(c, tm).Some? && Due(Place(c, tm).value, rate) == (base + a) * rate + tm.left.t
  {
    var tm' := Place(c, tm).value;
    assert tm'.wheel == HRS ==> 3600 * tm'.rt + 60 * tm.left.m + tm.left.s == base + a;
    assert tm'.wheel == MIN ==> 60 * tm'.rt + tm.left.s == base + a;
    assert tm'.wheel == SEC ==> tm'.rt == base + a;
  }

  lemma UnitBelow(e: nat, rate: nat)
    requires rate > 0 && e > 0
    ensures 1 <= Unit(e, rate) <= e
  {
    TimesMono(1, 3600, rate);
  }

  /** The fire time is after the start, never later than asked, and early by less than the largest
      unit of the duration. It is the promised one exactly when the duration does not wrap. */
  lemma FireTimeBounds(s: nat, d: nat, rate: nat)
    requires rate > 0 && d % Span(rate) != 0
    ensures var e := d % Span(rate);
            s < FireTime(s, d, rate) <= s + e && s + e - Unit(e, rate) < FireTime(s, d, rate)
    ensures d < Span(rate) <==> FireTime(s, d, rate) == s - s % Unit(d, rate) + d
  {
    var e := d % Span(rate);
    UnitBelow(e, rate);
    if d < Span(rate) {
      Quotient(d, Span(rate), 0, d);
    } else {
      WrappedFar(s, d, rate);
    }
  }

  /** The shortest duration that wraps is the span of the packed format: a timer started for it is never
      placed. One started for a tick more fires on the next tick. */
  lemma ShortestWrap(c: Clock, rate: nat)
    requires ClockOk(c, rate)
    ensures Begin(c, rate, Span(rate)).None? && FireTime(c.tick, Span(rate) + 1, rate) == c.tick + 1
    ensures forall d: nat :: 0 < d < Span(rate) ==> Begin(c, rate, d).Some?
  {
    BeginDue(c, rate, Span(rate));
    Quotient(Span(rate), Span(rate), 1, 0);
    Quotient(Span(rate) + 1, Span(rate), 1, 1);
    forall d: nat | 0 < d < Span(rate) ensures Begin(c, rate, d).Some? {
      BeginDue(c, rate, d);
      Quotient(d, Span(rate), 0, d);
    }
  }

  /** A duration that wraps is cut short by more than rounding can make up for. */
  lemma WrappedFar(s: nat, d: nat, rate: nat)
    requires rate > 0 && d >= Span(rate)
    ensures s + d % Span(rate) < s - s % Unit(d, rate) + d
  {
    TimesMono(1, 3600, rate);
    assert Unit(d, rate) == 3600 * rate;
    WrapCuts(d, Span(rate));
    TimesMono(7200, 3686400, rate);
  }

  lemma WrapCuts(d: nat, span: nat)
    requires span > 0 && d >= span
    ensures d % span <= d - span
  {
    assert d == (d / span) * span + d % span;
    TimesMono(1, d / span, span);
  }

  // ---------------------------------------------------------------- all timers at once

  /** process_timers on all timers. */
  function ServeAll<I>(c: Clock, a: map<I, Timer>, wheel: nat): map<I, Timer> {
    map i | i in a && Served(c, a[i], wheel).Waits? :: Served(c, a[i], wheel).timer
  }

  /** The timers that expire when a wheel is served. */
  function Dying<I>(c: Clock, a: map<I, Timer>, wheel: nat): set<I> {
    set i | i in a && Served(c, a[i], wheel).Expires?
  }

  function TickAll<I>(c: Clock, rate: nat, a: map<I, Timer>): map<I, Timer>
    requires rate > 0
  {
    map i | i in a && Ticked(c, rate, a[i]).Waits? :: Ticked(c, rate, a[i]).timer
  }

  function TickDying<I>(c: Clock, rate: nat, a: map<I, Timer>): set<I>
    requires rate > 0
  {
    set i | i in a && Ticked(c, rate, a[i]).Expires?
  }

  /** Serving one wheel after another, as tm_process_tick_and_update_timers does, is serving each
      timer by itself. */
  lemma Stages<I>(c: Clock, rate: nat, a: map<I, Timer>)
    requires rate > 0
    ensures var a0 := ServeAll(c, a, TICK);
            var a1 := if c.NextSec(rate) then ServeAll(c, a0, SEC) else a0;
            var a2 := if c.NextSec(rate) && c.NextMin() then ServeAll(c, a1, MIN) else a1;
            var a3 := if c.NextSec(rate) && c.NextMin() && c.NextHr() then ServeAll(c, a2, HRS) else a2;
            a3 == TickAll(c, rate, a)
  {
  }

  lemma StagesDying<I>(c: Clock, rate: nat, a: map<I, Timer>)
    requires rate > 0
    ensures var a0 := ServeAll(c, a, TICK);
            var a1 := if c.NextSec(rate) then ServeAll(c, a0, SEC) else a0;
            var a2 := if c.NextSec(rate) && c.NextMin() then ServeAll(c, a1, MIN) else a1;
            var d0 := Dying(c, a, TICK);
            var d1 := if c.NextSec(rate) then Dying(c, a0, SEC) else {};
            var d2 := if c.NextSec(rate) && c.NextMin() then Dying(c, a1, MIN) else {};
            var d3 := if c.NextSec(rate) && c.NextMin() && c.NextHr() then Dying(c, a2, HRS) else {};
            d0 + d1 + d2 + d3 == TickDying(c, rate, a) && d0 !! d1 !! d2 !! d3
  {
  }

  /** timers_pending_for_service. */
  predicate Pending<I>(c: Clock, rate: nat, count: nat, a: map<I, Timer>)
    requires rate > 0
  {
    count != 0 &&
    ((exists i :: i in a && a[i].wheel == TICK) ||
     (c.NextSec(rate) && exists i :: i in a && a[i].wheel == SEC) ||
     (c.NextMin() && exists i :: i in a && a[i].wheel == MIN) ||
     (c.NextHr() && exists i :: i in a && a[i].wheel == HRS))
  }

  /** When the filter says that there is nothing to serve, serving would change nothing. */
  lemma FilterSound<I>(c: Clock, rate: nat, count: nat, a: map<I, Timer>)
    requires rate > 0 && !Pending(c, rate, count, a) && (count == 0 ==> a == map[])
    ensures TickAll(c, rate, a) == a && TickDying(c, rate, a) == {}
  {
    forall i | i in a ensures Ticked(c, rate, a[i]) == Waits(a[i]) {
    }
  }
}
