/**
  Runs of the timer service: any sequence of starts, deletions, ticks and handler calls. The
  state carries the history that the theorems speak about: when each timer was started and for
  how long, when it was put on the expired list, and which handlers have run.
 */
module TimerRun {
  import opened Common
  import opened PackedTime
  import opened TimerModel

  datatype Birth = Birth(at: nat, ticks: nat)

  datatype State<I> = State(
    clock: Clock,
    active: map<I, Timer>,   // the timers on the wheels
    expired: seq<I>,         // expd_tmrs
    count: nat,              // tmrrq.count
    born: map<I, Birth>,     // every timer ever started, but for those forgotten
    log: map<I, nat>,        // the tick at which a timer went to the expired list
    deleted: set<I>,
    unplaced: set<I>,        // started for a duration that wraps to nothing
    ran: seq<I>)             // the timers whose handlers have run, in order

  datatype Op<I> =
    | Start(i: I, ticks: nat)
    | Delete(i: I)
    | Tick(order: seq<I>)
    | Handle
    | Forget(i: I)           // the record of a timer has been freed, and is going to be used again

  function Initial<I>(): State<I> { State(Clock(0, 0, 0, 0), map[], [], 0, map[], map[], {}, {}, []) }

  predicate Enumerates<I(==)>(q: seq<I>, s: set<I>) {
    (forall i, j :: 0 <= i < j < |q| ==> q[i] != q[j]) && (forall i :: 0 <= i < |q| ==> q[i] in s) && |q| == |s|
  }

  /** start_timer; it fails when too many timers are counted. */
  function Started<I(==)>(s: State<I>, rate: nat, i: I, d: nat): State<I>
    requires rate > 0
  {
    if s.count > MAX_TIMERS then s else Entered(s, i, Birth(s.clock.tick, d), Begin(s.clock, rate, d))
  }

  function Entered<I(==)>(s: State<I>, i: I, b: Birth, placed: Option<Timer>): State<I> {
    var s' := s.(count := s.count + 1, born := s.born[i := b]);
    match placed
    case Some(tm) => s'.(active := s.active[i := tm])
    case None => s'.(unplaced := s.unplaced + {i})
  }

  /** del_timer; a timer that does not run is left alone. */
  function Deleted<I(==)>(s: State<I>, i: I): State<I> {
    if i in s.active && s.count > 0 then
      s.(active := s.active - {i}, count := s.count - 1, deleted := s.deleted + {i})
    else s
  }

  /** update_times with everything it sets off; `q` is the order in which the trees give up the
      timers that expire. */
  function Advanced<I(==)>(s: State<I>, rate: nat, q: seq<I>): State<I>
    requires rate > 0 && |q| <= s.count
  {
    var c := Advance(s.clock, rate);
    Passed(s, c, TickAll(c, rate, s.active), q)
  }

  function Passed<I(==)>(s: State<I>, c: Clock, stay: map<I, Timer>, q: seq<I>): State<I>
    requires |q| <= s.count
  {
    s.(clock := c, active := stay, expired := s.expired + q, count := s.count - |q|,
       log := s.log + map i | i in q :: c.tick)
  }

  /** One round of process_expd_timers. */
  function Handled<I>(s: State<I>): State<I>
    requires s.expired != []
  {
    s.(expired := s.expired[1..], ran := s.ran + [s.expired[0]])
  }

  /** The timers whose records have been freed: stop_timer does so, and process_expd_timers once the
      handler has run. */
  predicate Freed<I(==)>(s: State<I>, i: I) { i in s.deleted || i in s.ran }

  function Forgotten<I(==)>(s: State<I>, i: I): State<I> {
    s.(born := s.born - {i}, log := s.log - {i}, deleted := s.deleted - {i}, ran := Remove(s.ran, i))
  }

  /** An operation that cannot happen in a state leaves it as it is. */
  function Apply<I(==)>(s: State<I>, rate: nat, op: Op<I>): State<I>
    requires rate > 0
  {
    match op
    case Start(i, d) => if i in s.born then s else Started(s, rate, i, d)
    case Delete(i) => Deleted(s, i)
    case Tick(q) =>
      if Enumerates(q, TickDying(Advance(s.clock, rate), rate, s.active)) && |q| <= s.count then Advanced(s, rate, q)
      else s
    case Handle => if s.expired == [] then s else Handled(s)
    case Forget(i) => if Freed(s, i) then Forgotten(s, i) else s
  }

  function After<I(==)>(rate: nat, ops: seq<Op<I>>): State<I>
    requires rate > 0
  {
    if ops == [] then Initial() else Apply(After(rate, ops[..|ops| - 1]), rate, ops[|ops| - 1])
  }

  // ---------------------------------------------------------------- the invariant

  /** Every timer ever started is in exactly one place. */
  predicate Places<I(==)>(s: State<I>) {
    Parts(s.born.Keys, s.active.Keys, s.log.Keys, s.deleted, s.unplaced) && s.count == |s.active.Keys| + |s.unplaced|
  }

  predicate Parts<I(==)>(all: set<I>, a: set<I>, b: set<I>, c: set<I>, d: set<I>) {
    (forall x :: x in a ==> x in all && x !in b && x !in c && x !in d) &&
    (forall x :: x in b ==> x in all && x !in c && x !in d) &&
    (forall x :: x in c ==> x in all && x !in d) &&
    (forall x :: x in d ==> x in all) &&
    (forall x :: x in all ==> x in a || x in b || x in c || x in d)
  }

  lemma Without<I>(a: set<I>, m: set<I>)
    requires m <= a
    ensures |a - m| == |a| - |m|
  {
    assert a == (a - m) + m;
  }

  /** A timer that started with birth `b` is on its wheel with its fire time before it. */
  predicate OnTime(c: Clock, rate: nat, tm: Timer, b: Birth)
    requires rate > 0
  {
    TimerOk(c, tm) && Due(tm, rate) == FireTime(b.at, b.ticks, rate) && tm.exp == b.at + b.ticks &&
    b.ticks % Span(rate) != 0 && b.at <= c.tick
  }

  /** `b` is the birth of a timer that fired at tick `n`. */
  predicate FiredAt(rate: nat, n: nat, b: Birth)
    requires rate > 0
  {
    n == FireTime(b.at, b.ticks, rate) && b.ticks % Span(rate) != 0
  }

  predicate Times<I(==)>(s: State<I>, rate: nat) {
    ClockOk(s.clock, rate) &&
    (forall i :: i in s.active ==> i in s.born && OnTime(s.clock, rate, s.active[i], s.born[i])) &&
    (forall i :: i in s.log ==> i in s.born && s.log[i] <= s.clock.tick && FiredAt(rate, s.log[i], s.born[i])) &&
    (forall i :: i in s.deleted ==> i in s.born && s.born[i].ticks % Span(rate) != 0) &&
    (forall i :: i in s.unplaced ==> i in s.born && s.born[i].ticks % Span(rate) == 0)
  }

  /** Handlers have run, or wait to run, once for each timer logged, in the order of the log. */
  predicate Queue<I(==)>(s: State<I>) { InOrder(s.ran + s.expired, s.log) }

  predicate InOrder<I(==)>(q: seq<I>, log: map<I, nat>) {
    (forall i, j :: 0 <= i < j < |q| ==> q[i] != q[j]) &&
    (forall i :: 0 <= i < |q| ==> q[i] in log) && (forall x :: x in log ==> x in q) &&
    (forall i, j :: 0 <= i < j < |q| ==> log[q[i]] <= log[q[j]])
  }

  predicate Inv<I(==)>(s: State<I>, rate: nat) { Places(s) && Times(s, rate) && Queue(s) }

  lemma EnterPlaces<I>(s: State<I>, i: I, b: Birth, placed: Option<Timer>)
    requires Places(s) && i !in s.born
    ensures Places(Entered(s, i, b, placed))
  {
    EnteredKeys(s, i, b, placed);
    PartsMore(s.born.Keys, s.active.Keys, s.log.Keys, s.deleted, s.unplaced, i);
    OneMore(s.active.Keys, i);
    OneMore(s.unplaced, i);
  }

  lemma EnteredKeys<I>(s: State<I>, i: I, b: Birth, placed: Option<Timer>)
    ensures var s' := Entered(s, i, b, placed);
            s'.born.Keys == s.born.Keys + {i} &&
            s'.active.Keys == (if placed.Some? then s.active.Keys + {i} else s.active.Keys)
  {
  }

  lemma PartsMore<I>(all: set<I>, a: set<I>, b: set<I>, c: set<I>, d: set<I>, i: I)
    requires Parts(all, a, b, c, d) && i !in all
    ensures i !in a && i !in d && Parts(all + {i}, a + {i}, b, c, d) && Parts(all + {i}, a, b, c, d + {i})
  {
  }

  lemma OneMore<I>(a: set<I>, i: I)
    ensures i !in a ==> |a + {i}| == |a| + 1
  {
  }

  lemma StartKeeps<I>(s: State<I>, rate: nat, i: I, d: nat)
    requires Inv(s, rate) && i !in s.born
    ensures Inv(Started(s, rate, i, d), rate)
  {
    BeginDue(s.clock, rate, d);
    EnterPlaces(s, i, Birth(s.clock.tick, d), Begin(s.clock, rate, d));
    EnterTimes(s, rate, i, Birth(s.clock.tick, d), Begin(s.clock, rate, d));
  }

  lemma EnterTimes<I>(s: State<I>, rate: nat, i: I, b: Birth, placed: Option<Timer>)
    requires rate > 0 && Times(s, rate) && i !in s.born
    requires if placed.Some? then OnTime(s.clock, rate, placed.value, b) else b.ticks % Span(rate) == 0
    ensures Times(Entered(s, i, b, placed), rate)
  {
  }

  lemma DeleteKeeps<I>(s: State<I>, rate: nat, i: I)
    requires Inv(s, rate)
    ensures Inv(Deleted(s, i), rate)
  {
    DeletePlaces(s, i);
  }

  lemma DeletePlaces<I>(s: State<I>, i: I)
    requires Places(s)
    ensures Places(Deleted(s, i))
  {
    if i in s.active && s.count > 0 {
      assert (s.active - {i}).Keys == s.active.Keys - {i};
    }
  }

  lemma HandleKeeps<I>(s: State<I>, rate: nat)
    requires Inv(s, rate) && s.expired != []
    ensures Inv(Handled(s), rate)
  {
    HandleQueue(s);
  }

  lemma HandleQueue<I>(s: State<I>)
    requires Queue(s) && s.expired != []
    ensures Queue(Handled(s))
  {
    assert Handled(s).ran + Handled(s).expired == s.ran + s.expired;
  }

  lemma ForgetKeeps<I>(s: State<I>, rate: nat, i: I)
    requires Inv(s, rate) && Freed(s, i)
    ensures Inv(Forgotten(s, i), rate)
  {
    ForgetPlaces(s, i);
    ForgetQueue(s, i);
  }

  lemma ForgetPlaces<I>(s: State<I>, i: I)
    requires Places(s) && Queue(s) && Freed(s, i)
    ensures Places(Forgotten(s, i))
  {
    assert i in s.ran ==> i in s.ran + s.expired;
    assert (s.born - {i}).Keys == s.born.Keys - {i} && (s.log - {i}).Keys == s.log.Keys - {i};
    PartsLess(s.born.Keys, s.active.Keys, s.log.Keys, s.deleted, s.unplaced, i);
  }

  lemma PartsLess<I>(all: set<I>, a: set<I>, b: set<I>, c: set<I>, d: set<I>, i: I)
    requires Parts(all, a, b, c, d) && (i in b || i in c)
    ensures Parts(all - {i}, a, b - {i}, c - {i}, d)
  {
  }

  lemma ForgetQueue<I>(s: State<I>, i: I)
    requires Places(s) && Queue(s) && Freed(s, i)
    ensures Queue(Forgotten(s, i))
  {
    if i in s.ran {
      RanLess(s.ran, s.expired, s.log, i);
    } else {
      assert i in s.deleted && i !in s.log;
      assert s.log - {i} == s.log;
      NotRemoved(s.ran, i);
    }
  }

  lemma RanLess<I>(ran: seq<I>, expired: seq<I>, log: map<I, nat>, i: I)
    requires i in ran && InOrder(ran + expired, log)
    ensures InOrder(Remove(ran, i) + expired, log - {i})
  {
    var a, b := RemoveSplit(ran, i);
    Grouping(a + [i], b, expired);
    Grouping(a, b, expired);
    InOrderLess(a, i, b + expired, log);
  }

  lemma {:induction false} NotRemoved<I>(l: seq<I>, i: I)
    requires i !in l
    ensures Remove(l, i) == l
  {
    if l == [] {
    } else {
      NotRemoved(l[1..], i);
    }
  }

  lemma InOrderLess<I>(a: seq<I>, i: I, b: seq<I>, log: map<I, nat>)
    requires InOrder(a + [i] + b, log)
    ensures InOrder(a + b, log - {i})
  {
    var q, r := a + [i] + b, a + b;
    assert q[|a|] == i;
    forall k | 0 <= k < |r| ensures r[k] == q[if k < |a| then k else k + 1] && r[k] != i {
    }
    forall x | x in log - {i} ensures x in r {
      assert x in q;
    }
  }

  /** One timer through one tick. */
  lemma TickOnTime(c: Clock, rate: nat, tm: Timer, b: Birth)
    requires ClockOk(c, rate) && OnTime(c, rate, tm, b)
    ensures var c' := Advance(c, rate);
            var f := Ticked(c', rate, tm);
            (f.Waits? && OnTime(c', rate, f.timer, b)) || (f.Expires? && FiredAt(rate, c'.tick, b))
  {
    TickTimer(c, rate, tm);
  }

  /** A tick parts the timers on the wheels into those that stay and those that expire. */
  lemma TickParts<I>(s: State<I>, rate: nat)
    requires Times(s, rate)
    ensures var c := Advance(s.clock, rate);
            var stay, dying := TickAll(c, rate, s.active), TickDying(c, rate, s.active);
            stay.Keys == s.active.Keys - dying && dying <= s.active.Keys &&
            (forall i :: i in dying ==> FiredAt(rate, c.tick, s.born[i])) &&
            (forall i :: i in stay ==> OnTime(c, rate, stay[i], s.born[i]))
  {
    forall i | i in s.active
      ensures var c := Advance(s.clock, rate);
              var f := Ticked(c, rate, s.active[i]);
              (f.Waits? && OnTime(c, rate, f.timer, s.born[i])) || (f.Expires? && FiredAt(rate, c.tick, s.born[i]))
    {
      TickOnTime(s.clock, rate, s.active[i], s.born[i]);
    }
  }

  lemma {:induction false} EnumeratesAll<I>(q: seq<I>, s: set<I>)
    requires Enumerates(q, s)
    ensures forall x :: x in q <==> x in s
  {
    if q == [] {
    } else {
      var p, x := q[..|q| - 1], q[|q| - 1];
      EnumeratesAll(p, s - {x});
      forall y ensures y in q <==> y in s {
        assert q == p + [x];
        assert y in q <==> y in p || y == x;
      }
    }
  }

  lemma PassPlaces<I>(s: State<I>, c: Clock, stay: map<I, Timer>, q: seq<I>, dying: set<I>)
    requires Places(s) && Enumerates(q, dying) && dying <= s.active.Keys && stay.Keys == s.active.Keys - dying
    ensures |q| <= s.count && Places(Passed(s, c, stay, q))
  {
    EnumeratesAll(q, dying);
    Without(s.active.Keys, dying);
    assert forall x :: x in Passed(s, c, stay, q).log.Keys <==> x in s.log || x in dying;
  }

  lemma PassTimes<I>(s: State<I>, rate: nat, c: Clock, stay: map<I, Timer>, q: seq<I>)
    requires Times(s, rate) && |q| <= s.count && ClockOk(c, rate) && s.clock.tick <= c.tick &&
             stay.Keys <= s.active.Keys
    requires forall i :: i in q ==> i in s.active && FiredAt(rate, c.tick, s.born[i])
    requires forall i :: i in stay ==> OnTime(c, rate, stay[i], s.born[i])
    ensures Times(Passed(s, c, stay, q), rate)
  {
  }

  lemma PassQueue<I>(s: State<I>, c: Clock, stay: map<I, Timer>, q: seq<I>)
    requires Queue(s) && |q| <= s.count
    requires forall i, j :: 0 <= i < j < |q| ==> q[i] != q[j]
    requires forall i :: i in q ==> i !in s.log
    requires forall i :: i in s.log ==> s.log[i] <= c.tick
    ensures Queue(Passed(s, c, stay, q))
  {
    assert s.ran + (s.expired + q) == (s.ran + s.expired) + q;
    InOrderMore(s.ran + s.expired, q, s.log, c.tick);
  }

  lemma InOrderMore<I>(p: seq<I>, q: seq<I>, log: map<I, nat>, t: nat)
    requires InOrder(p, log) && forall i, j :: 0 <= i < j < |q| ==> q[i] != q[j]
    requires (forall i :: i in q ==> i !in log) && forall i :: i in log ==> log[i] <= t
    ensures InOrder(p + q, log + map i | i in q :: t)
  {
    var r, log' := p + q, log + map i | i in q :: t;
    forall i | 0 <= i < |r| ensures r[i] in log' && log'[r[i]] == (if i < |p| then log[p[i]] else t) {
      if i >= |p| { assert r[i] in q; }
    }
    forall i, j | 0 <= i < j < |r| ensures r[i] != r[j] {
      if i < |p| <= j { assert r[j] in q; }
    }
    forall x | x in log' ensures x in r {
      assert x in p || x in q;
    }
  }

  lemma TickKeeps<I>(s: State<I>, rate: nat, q: seq<I>)
    requires Inv(s, rate) && Enumerates(q, TickDying(Advance(s.clock, rate), rate, s.active))
    ensures |q| <= s.count && Inv(Advanced(s, rate, q), rate)
  {
    var c := Advance(s.clock, rate);
    var stay, dying := TickAll(c, rate, s.active), TickDying(c, rate, s.active);
    TickParts(s, rate);
    AdvanceOk(s.clock, rate);
    EnumeratesAll(q, dying);
    PassPlaces(s, c, stay, q, dying);
    PassTimes(s, rate, c, stay, q);
    PassQueue(s, c, stay, q);
  }

  lemma ApplyKeeps<I>(s: State<I>, rate: nat, op: Op<I>)
    requires Inv(s, rate)
    ensures Inv(Apply(s, rate, op), rate)
  {
    match op
    case Start(i, d) => if i !in s.born { StartKeeps(s, rate, i, d); }
    case Delete(i) => DeleteKeeps(s, rate, i);
    case Tick(q) => if Enumerates(q, TickDying(Advance(s.clock, rate), rate, s.active)) { TickKeeps(s, rate, q); }
    case Handle => if s.expired != [] { HandleKeeps(s, rate); }
    case Forget(i) => if Freed(s, i) { ForgetKeeps(s, rate, i); }
  }

  /** The invariant holds after every run. */
  lemma {:induction false} RunInv<I>(rate: nat, ops: seq<Op<I>>)
    requires rate > 0
    ensures Inv(After(rate, ops), rate)
  {
    if ops == [] {
    } else {
      RunInv(rate, ops[..|ops| - 1]);
      ApplyKeeps(After(rate, ops[..|ops| - 1]), rate, ops[|ops| - 1]);
    }
  }

  // ---------------------------------------------------------------- what every run guarantees

  /** A timer that is not deleted goes to the expired list exactly at its fire time: before it the
      timer is on a wheel, from then on it is in the log under that tick. The fire time is after
      the start, not after the time asked for, and early by less than the largest unit asked for;
      durations that do not fit the packed format count modulo its span. */
  lemma ExactFiring<I>(rate: nat, ops: seq<Op<I>>, i: I)
    requires rate > 0
    requires var s := After(rate, ops); i in s.born && i !in s.deleted && s.born[i].ticks % Span(rate) != 0
    ensures var s := After(rate, ops);
            var b := s.born[i];
            var fire, e := FireTime(b.at, b.ticks, rate), b.ticks % Span(rate);
            (i in s.log <==> fire <= s.clock.tick) && (i in s.active <==> s.clock.tick < fire) &&
            (i in s.log ==> s.log[i] == fire) &&
            b.at < fire <= b.at + e && b.at + e - Unit(e, rate) < fire
  {
    RunInv(rate, ops);
    var s := After(rate, ops);
    FireTimeBounds(s.born[i].at, s.born[i].ticks, rate);
    if i in s.active { NotDueYet(s.clock, rate, s.active[i]); }
  }

  /** The same for all timers at once. */
  ghost predicate AllExact<I(!new)>(s: State<I>, rate: nat)
    requires rate > 0
  {
    forall i :: i in s.born && i !in s.deleted && s.born[i].ticks % Span(rate) != 0 ==>
      ExactAt(s, FireTime(s.born[i].at, s.born[i].ticks, rate), i)
  }

  predicate ExactAt<I(==)>(s: State<I>, fire: int, i: I) {
    (i in s.log <==> fire <= s.clock.tick) && (i in s.active <==> s.clock.tick < fire) &&
    (i in s.log ==> s.log[i] == fire)
  }

  lemma AllFireExactly<I(!new)>(rate: nat, ops: seq<Op<I>>)
    requires rate > 0
    ensures AllExact(After(rate, ops), rate)
  {
    var s := After(rate, ops);
    forall i | i in s.born && i !in s.deleted && s.born[i].ticks % Span(rate) != 0
      ensures ExactAt(s, FireTime(s.born[i].at, s.born[i].ticks, rate), i)
    {
      ExactFiring(rate, ops, i);
    }
  }

  /** After every run the clocks agree, every timer lies ahead of the clock of its wheel, and the
      filter does not hold back a tick on which some timer expires or moves. */
  lemma NoneMissed<I>(rate: nat, ops: seq<Op<I>>)
    requires rate > 0
    ensures var s := After(rate, ops);
            var c, c' := s.clock, Advance(s.clock, rate);
            c.sec == c.tick / rate && c.min == c.tick / (60 * rate) && c.hr == c.tick / (3600 * rate) &&
            (forall i :: i in s.active ==> s.active[i].rt > c.Read(s.active[i].wheel)) &&
            (!Pending(c', rate, s.count, s.active) ==>
              TickAll(c', rate, s.active) == s.active && TickDying(c', rate, s.active) == {})
  {
    RunInv(rate, ops);
    var s := After(rate, ops);
    ClockExact(s.clock, rate);
    if !Pending(Advance(s.clock, rate), rate, s.count, s.active) {
      assert s.count == 0 ==> s.active.Keys == {};
      FilterSound(Advance(s.clock, rate), rate, s.count, s.active);
    }
    forall i | i in s.active ensures s.active[i].rt > s.clock.Read(s.active[i].wheel) {
      assert OnTime(s.clock, rate, s.active[i], s.born[i]);
    }
  }

  lemma ClockExact(c: Clock, rate: nat)
    requires ClockOk(c, rate)
    ensures c.min == c.tick / (60 * rate) && c.hr == c.tick / (3600 * rate)
  {
    TickBounds(c, rate);
    CountExactly(c, rate, 60, c.min);
    CountExactly(c, rate, 3600, c.hr);
  }

  lemma CountExactly(c: Clock, rate: nat, k: nat, q: nat)
    requires ClockOk(c, rate) && k > 0 && k * q <= c.sec < k * q + k
    ensures k * rate > 0 && c.tick / (k * rate) == q
  {
    ManySeconds(c, rate, k, q);
    Quotient(c.tick, k * rate, q, c.tick - q * (k * rate));
  }

  /** After every run each timer ever started is on the wheels, logged as expired, deleted or never
      placed, and only one of these; the count is that of the timers on the wheels, exactly when
      no timer was started for a duration that wraps to nothing. */
  lemma OnePlace<I>(rate: nat, ops: seq<Op<I>>)
    requires rate > 0
    ensures var s := After(rate, ops);
            Parts(s.born.Keys, s.active.Keys, s.log.Keys, s.deleted, s.unplaced) &&
            (s.count == |s.active| <==> forall i :: i in s.born ==> s.born[i].ticks % Span(rate) != 0)
  {
    RunInv(rate, ops);
    CountExact(After(rate, ops), rate);
  }

  /** Such a timer is counted from its start on, though it is on no wheel. */
  lemma CountedUnplaced<I>(rate: nat, i: I, d: nat)
    requires rate > 0 && d % Span(rate) == 0
    ensures var s := After(rate, [Start(i, d)]); s.count == 1 && s.active == map[] && s.unplaced == {i}
  {
    assert [Start(i, d)][..0] == [];
    BeginDue(Clock(0, 0, 0, 0), rate, d);
    assert After<I>(rate, []) == Initial();
  }

  lemma CountExact<I>(s: State<I>, rate: nat)
    requires Inv(s, rate)
    ensures s.count == |s.active| <==> forall i :: i in s.born ==> s.born[i].ticks % Span(rate) != 0
  {
    assert |s.active| == |s.active.Keys|;
    forall i | i in s.born ensures i in s.unplaced <==> s.born[i].ticks % Span(rate) == 0 {
      if i in s.active { assert OnTime(s.clock, rate, s.active[i], s.born[i]); }
      if i in s.log { assert FiredAt(rate, s.log[i], s.born[i]); }
    }
    if s.unplaced != {} {
      var x :| x in s.unplaced;
      assert x in s.born;
    }
  }

  /** After every run, each handler has run at most once, handlers run in the order of expiry, and
      a timer logged as expired has either run or is still waiting on the expired list. */
  lemma HandlersOnce<I>(rate: nat, ops: seq<Op<I>>)
    requires rate > 0
    ensures var s := After(rate, ops);
            var q := s.ran + s.expired;
            (forall i, j :: 0 <= i < j < |q| ==> q[i] != q[j]) &&
            (forall x :: x in s.log <==> x in q) &&
            (forall i, j :: 0 <= i < j < |q| ==> q[i] in s.log && q[j] in s.log && s.log[q[i]] <= s.log[q[j]])
  {
    RunInv(rate, ops);
  }

  /** timer_get_remaining_time of a running timer: an unsigned difference read as a signed one. */
  function Remaining(exp: nat, tick: nat): nat {
    var t := (exp - tick) % WORD;
    if t >= WORD / 2 then 0 else t
  }

  lemma TimeLeft(c: Clock, rate: nat, tm: Timer, b: Birth)
    requires ClockOk(c, rate) && OnTime(c, rate, tm, b)
    ensures c.tick < tm.exp <= c.tick + b.ticks
  {
    NotDueYet(c, rate, tm);
    FireTimeBounds(b.at, b.ticks, rate);
    ModAtMost(b.ticks, Span(rate));
  }

  /** A running timer has time left, no more than it was started for. This is what is returned, exactly
      if it fits a signed number; for more, the branch for a negative difference may be taken. */
  lemma RemainingPositive<I>(rate: nat, ops: seq<Op<I>>, i: I)
    requires rate > 0 && i in After(rate, ops).active
    ensures var s := After(rate, ops);
            var left := s.active[i].exp - s.clock.tick;
            i in s.born && s.active[i].exp == s.born[i].at + s.born[i].ticks && 0 < left <= s.born[i].ticks &&
            (Remaining(s.active[i].exp, s.clock.tick) == left <==> left < WORD / 2)
  {
    RunInv(rate, ops);
    StateRemaining(After(rate, ops), rate, i);
  }

  /** Right after the start of a longer timer it is wrong. */
  lemma RemainingFails<I>(rate: nat, i: I, d: nat)
    requires rate > 0 && d >= WORD / 2 && d % Span(rate) != 0
    ensures var s := After(rate, [Start(i, d)]);
            i in s.active && i in s.born && s.born[i].ticks == d && s.clock.tick == 0 && s.active[i].exp == d &&
            Remaining(d, 0) != d
  {
    assert [Start(i, d)][..0] == [];
    BeginDue(Clock(0, 0, 0, 0), rate, d);
    assert After<I>(rate, []) == Initial();
  }

  /** Over every run in which timers are started for `d` ticks, it is right for all of them. */
  ghost predicate AlwaysRight<I(!new)>(rate: nat, d: nat)
    requires rate > 0
  {
    forall ops: seq<Op<I>>, i: I :: i in After(rate, ops).active && i in After(rate, ops).born ==>
      After(rate, ops).born[i].ticks == d ==> RightAt(After(rate, ops), i)
  }

  predicate RightAt<I>(s: State<I>, i: I)
    requires i in s.active
  {
    Remaining(s.active[i].exp, s.clock.tick) == s.active[i].exp - s.clock.tick
  }

  /** What a caller can check: that is so exactly for durations of less than 2^31 ticks. */
  lemma RemainingIff<I(!new)>(rate: nat, i: I, d: nat)
    requires rate > 0 && d % Span(rate) != 0
    ensures AlwaysRight<I>(rate, d) <==> d < WORD / 2
  {
    if d < WORD / 2 {
      forall ops: seq<Op<I>>, j: I | j in After(rate, ops).active && j in After(rate, ops).born
        ensures After(rate, ops).born[j].ticks == d ==> RightAt(After(rate, ops), j)
      {
        RemainingPositive(rate, ops, j);
      }
    } else {
      RemainingFails(rate, i, d);
      assert !RightAt(After(rate, [Start(i, d)]), i);
    }
  }

  lemma StateRemaining<I>(s: State<I>, rate: nat, i: I)
    requires Inv(s, rate) && i in s.active
    ensures var left := s.active[i].exp - s.clock.tick;
            i in s.born && s.active[i].exp == s.born[i].at + s.born[i].ticks && 0 < left <= s.born[i].ticks &&
            (Remaining(s.active[i].exp, s.clock.tick) == left <==> left < WORD / 2)
  {
    TimeLeft(s.clock, rate, s.active[i], s.born[i]);
  }

  lemma ModAtMost(d: nat, m: nat)
    requires m > 0
    ensures d % m <= d
  {
    if d < m {
      Quotient(d, m, 0, d);
    }
  }
}
