/**
  What the state of the timers says about the run that has led there: the clock counts the ticks, a
  timer is known by the call that started it, and one that is deleted by the call that deleted it.
 */
module TimerHistory {
  import opened Common
  import opened PackedTime
  import opened TimerModel
  import opened TimerRun

  // ---------------------------------------------------------------- one operation

  /** The timers on the wheels whose fire time is the next tick. */
  function DueNext<I(==)>(s: State<I>, rate: nat): set<I>
    requires rate > 0
  {
    set i | i in s.active && i in s.born && FireTime(s.born[i].at, s.born[i].ticks, rate) == s.clock.tick + 1
  }

  /** A tick in which these timers expire, in some order. */
  predicate Taken<I(==)>(s: State<I>, rate: nat, op: Op<I>)
    requires rate > 0
  {
    op.Tick? && Enumerates(op.order, DueNext(s, rate))
  }

  lemma DyingAreDue<I>(s: State<I>, rate: nat)
    requires Inv(s, rate)
    ensures TickDying(Advance(s.clock, rate), rate, s.active) == DueNext(s, rate)
  {
    forall i | i in s.active
      ensures Ticked(Advance(s.clock, rate), rate, s.active[i]).Expires? <==>
              FireTime(s.born[i].at, s.born[i].ticks, rate) == s.clock.tick + 1
    {
      AdvanceOk(s.clock, rate);
      TickTimer(s.clock, rate, s.active[i]);
      assert OnTime(s.clock, rate, s.active[i], s.born[i]);
    }
  }

  /** Exactly these ticks are taken. They move the clock by one, and the timers that are due from the wheels
      to the expired list. */
  lemma TickMoves<I>(s: State<I>, rate: nat, q: seq<I>)
    requires Inv(s, rate)
    ensures var s' := Apply(s, rate, Tick(q));
            if Taken(s, rate, Tick(q)) then
              s'.clock.tick == s.clock.tick + 1 && s'.expired == s.expired + q &&
              s'.active.Keys == s.active.Keys - DueNext(s, rate) && s'.log.Keys == s.log.Keys + DueNext(s, rate) &&
              s'.born == s.born && s'.deleted == s.deleted && s'.ran == s.ran
            else s' == s
  {
    DyingAreDue(s, rate);
    if Taken(s, rate, Tick(q)) {
      TickKeeps(s, rate, q);
      AdvancedFacts(s, rate, q, DueNext(s, rate));
    }
  }

  lemma AdvancedFacts<I>(s: State<I>, rate: nat, q: seq<I>, due: set<I>)
    requires Inv(s, rate) && due == TickDying(Advance(s.clock, rate), rate, s.active)
    requires Enumerates(q, due) && |q| <= s.count
    ensures var s' := Advanced(s, rate, q);
            s'.clock.tick == s.clock.tick + 1 && s'.expired == s.expired + q &&
            s'.active.Keys == s.active.Keys - due && s'.log.Keys == s.log.Keys + due &&
            s'.born == s.born && s'.deleted == s.deleted && s'.ran == s.ran
  {
    AdvanceOk(s.clock, rate);
    TickParts(s, rate);
    PassedLog(s, Advance(s.clock, rate), TickAll(Advance(s.clock, rate), rate, s.active), q, due);
  }

  lemma PassedLog<I>(s: State<I>, c: Clock, stay: map<I, Timer>, q: seq<I>, due: set<I>)
    requires Enumerates(q, due) && |q| <= s.count
    ensures Passed(s, c, stay, q).log.Keys == s.log.Keys + due
  {
    EnumeratesAll(q, due);
    var added := map i | i in q :: c.tick;
    assert added.Keys == due;
    assert (s.log + added).Keys == s.log.Keys + added.Keys;
  }

  /** What the other operations do to the history. */
  lemma OthersKeep<I>(s: State<I>, rate: nat, op: Op<I>)
    requires rate > 0 && !op.Tick?
    ensures var s' := Apply(s, rate, op);
            s'.clock == s.clock &&
            (forall i :: i in s.born && op != Forget(i) ==> i in s'.born && s'.born[i] == s.born[i]) &&
            (forall i :: i in s.deleted && op != Forget(i) ==> i in s'.deleted) &&
            (forall i :: i in s'.born && i !in s.born ==> op.Start? && op.i == i) &&
            (forall i :: i in s'.born && i in s.born ==> s'.born[i] == s.born[i]) &&
            (forall i :: i in s'.deleted && i !in s.deleted ==> op == Delete(i) && i in s.active)
  {
  }

  /** A start is taken exactly if the record is not in use and not too many timers are counted. */
  lemma StartTaken<I>(s: State<I>, rate: nat, i: I, d: nat)
    requires rate > 0
    ensures var s' := Apply(s, rate, Start(i, d));
            if i !in s.born && s.count <= MAX_TIMERS then
              i in s'.born && s'.born[i] == Birth(s.clock.tick, d) && s'.count == s.count + 1
            else s' == s
  {
  }

  /** A deletion is taken exactly if the timer is on a wheel. */
  lemma DeleteTaken<I>(s: State<I>, rate: nat, i: I)
    requires Inv(s, rate)
    ensures var s' := Apply(s, rate, Delete(i));
            if i in s.active then i in s'.deleted && i !in s'.active && s'.count == s.count - 1 else s' == s
  {
    if i in s.active { assert s.active.Keys != {}; }
  }

  // ---------------------------------------------------------------- the clock

  /** The ticks taken in a run. */
  function TicksTaken<I(==)>(rate: nat, ops: seq<Op<I>>): nat
    requires rate > 0
  {
    if ops == [] then 0
    else
      var n := |ops| - 1;
      TicksTaken(rate, ops[..n]) + if Taken(After(rate, ops[..n]), rate, ops[n]) then 1 else 0
  }

  /** After every run the clock tells how many ticks were taken. */
  lemma {:induction false} ClockCounts<I>(rate: nat, ops: seq<Op<I>>)
    requires rate > 0
    ensures After(rate, ops).clock.tick == TicksTaken(rate, ops)
  {
    if ops == [] {
    } else {
      var n := |ops| - 1;
      ClockCounts(rate, ops[..n]);
      RunInv(rate, ops[..n]);
      if ops[n].Tick? {
        TickMoves(After(rate, ops[..n]), rate, ops[n].order);
      } else {
        OthersKeep(After(rate, ops[..n]), rate, ops[n]);
      }
    }
  }

  lemma {:induction false} InSomeOrder<I>(s: set<I>) returns (q: seq<I>)
    ensures Enumerates(q, s)
  {
    q := [];
    if s == {} {
    } else {
      var x :| x in s;
      q := InSomeOrder(s - {x});
      q := q + [x];
    }
  }

  /** After every run a tick can be taken. */
  lemma SomeTick<I>(rate: nat, ops: seq<Op<I>>) returns (q: seq<I>)
    requires rate > 0
    ensures Taken(After(rate, ops), rate, Tick(q)) && TicksTaken(rate, ops + [Tick(q)]) == TicksTaken(rate, ops) + 1
  {
    q := InSomeOrder(DueNext(After(rate, ops), rate));
    assert (ops + [Tick(q)])[..|ops|] == ops;
  }

  /** And as many as one likes. */
  lemma {:induction false} ManyTicks<I>(rate: nat, ops: seq<Op<I>>, n: nat) returns (more: seq<Op<I>>)
    requires rate > 0
    ensures |more| == n && forall k :: 0 <= k < n ==> more[k].Tick?
    ensures var s, s' := After(rate, ops), After(rate, ops + more);
            s'.clock.tick == s.clock.tick + n && s'.born == s.born && s'.deleted == s.deleted
  {
    more := [];
    if n == 0 {
      assert ops + [] == ops;
    } else {
      more := ManyTicks(rate, ops, n - 1);
      var q := SomeTick(rate, ops + more);
      OneTick(rate, ops + more, q);
      Grouping(ops, more, [Tick(q)]);
      more := more + [Tick(q)];
    }
  }

  lemma OneTick<I>(rate: nat, ops: seq<Op<I>>, q: seq<I>)
    requires rate > 0 && Taken(After(rate, ops), rate, Tick(q))
    ensures var s, s' := After(rate, ops), After(rate, ops + [Tick(q)]);
            s'.clock.tick == s.clock.tick + 1 && s'.born == s.born && s'.deleted == s.deleted
  {
    RunInv(rate, ops);
    TickMoves(After(rate, ops), rate, q);
    assert (ops + [Tick(q)])[..|ops|] == ops;
  }

  /** The clock of a wheel turns at this tick, as the filter sees it: for all ticks of a second that begins a
      minute, and of a minute that begins an hour, but the first. */
  predicate Turns(w: nat, tick: nat, rate: nat)
    requires rate > 0
  {
    w == TICK || (w == SEC && tick % rate == 0) ||
    (w == MIN && tick / rate != 0 && tick / rate % 60 == 0) ||
    (w == HRS && tick / (60 * rate) != 0 && tick / (60 * rate) % 60 == 0)
  }

  /** Over every run, the filter lets a tick through exactly if a wheel that turns has a timer. */
  lemma FilterExact<I>(rate: nat, ops: seq<Op<I>>)
    requires rate > 0
    ensures var s := After(rate, ops);
            Pending(Advance(s.clock, rate), rate, s.count, s.active) <==> SomeTurns(s.active, s.clock.tick + 1, rate)
  {
    var s := After(rate, ops);
    NextClock(rate, ops);
    PendingTurns(Advance(s.clock, rate), rate, s.count, s.active);
  }

  predicate SomeTurns<I>(a: map<I, Timer>, tick: nat, rate: nat)
    requires rate > 0
  {
    exists i :: i in a && Turns(a[i].wheel, tick, rate)
  }

  lemma NextClock<I>(rate: nat, ops: seq<Op<I>>)
    requires rate > 0
    ensures var s := After(rate, ops);
            ClockOk(Advance(s.clock, rate), rate) && Advance(s.clock, rate).tick == s.clock.tick + 1 &&
            (s.active.Keys != {} ==> s.count > 0)
  {
    RunInv(rate, ops);
    AdvanceOk(After(rate, ops).clock, rate);
  }

  lemma PendingTurns<I>(c: Clock, rate: nat, count: nat, a: map<I, Timer>)
    requires ClockOk(c, rate) && (a.Keys != {} ==> count > 0)
    ensures Pending(c, rate, count, a) <==> SomeTurns(a, c.tick, rate)
  {
    forall w: nat ensures Turns(w, c.tick, rate) <==> Served(c, rate, w) { TurnsServed(c, rate, w); }
    if i :| i in a && Turns(a[i].wheel, c.tick, rate) { assert i in a.Keys && Served(c, rate, a[i].wheel); }
    if i :| i in a && Served(c, rate, a[i].wheel) { assert Turns(a[i].wheel, c.tick, rate); }
  }

  /** The same, read off the clocks. */
  predicate Served(c: Clock, rate: nat, w: nat)
    requires rate > 0
  {
    w == TICK || (w == SEC && c.NextSec(rate)) || (w == MIN && c.NextMin()) || (w == HRS && c.NextHr())
  }

  lemma TurnsServed(c: Clock, rate: nat, w: nat)
    requires ClockOk(c, rate)
    ensures Turns(w, c.tick, rate) <==> Served(c, rate, w)
  {
    ClockExact(c, rate);
  }

  // ---------------------------------------------------------------- every timer started fires

  /** Over every run, a timer that is not deleted has expired exactly if enough ticks were taken, and that is
      no more than until the time asked for. */
  lemma FiresInTime<I>(rate: nat, ops: seq<Op<I>>, i: I)
    requires rate > 0
    requires var s := After(rate, ops); i in s.born && i !in s.deleted && s.born[i].ticks % Span(rate) != 0
    ensures var s := After(rate, ops);
            var b := s.born[i];
            (i in s.log <==> FireTime(b.at, b.ticks, rate) <= TicksTaken(rate, ops)) &&
            (b.at + b.ticks <= TicksTaken(rate, ops) ==> i in s.log)
  {
    ClockCounts(rate, ops);
    ExactFiring(rate, ops, i);
    FireNoLater(After(rate, ops).born[i], rate);
  }

  lemma FireNoLater(b: Birth, rate: nat)
    requires rate > 0 && b.ticks % Span(rate) != 0
    ensures FireTime(b.at, b.ticks, rate) <= b.at + b.ticks
  {
    FireTimeBounds(b.at, b.ticks, rate);
    ModAtMost(b.ticks, Span(rate));
  }

  /** From every state, ticks alone make a timer on the wheels expire, and as many as are left to its fire
      time. */
  lemma Fires<I>(rate: nat, ops: seq<Op<I>>, i: I) returns (more: seq<Op<I>>)
    requires rate > 0 && i in After(rate, ops).active
    ensures forall k :: 0 <= k < |more| ==> more[k].Tick?
    ensures var s := After(rate, ops);
            i in s.born && |more| == FireTime(s.born[i].at, s.born[i].ticks, rate) - s.clock.tick > 0 &&
            i in After(rate, ops + more).log
  {
    RunInv(rate, ops);
    var s := After(rate, ops);
    assert OnTime(s.clock, rate, s.active[i], s.born[i]);
    ExactFiring(rate, ops, i);
    more := ManyTicks(rate, ops, FireTime(s.born[i].at, s.born[i].ticks, rate) - s.clock.tick);
    ExactFiring(rate, ops + more, i);
  }

  // ---------------------------------------------------------------- starts and deletions

  /** The start of a timer in a run: the call, when it was made, and that the record was not in use. */
  predicate StartedBy<I(==)>(rate: nat, ops: seq<Op<I>>, j: nat, i: I, b: Birth)
    requires rate > 0
  {
    j < |ops| && ops[j] == Start(i, b.ticks) && b.at == TicksTaken(rate, ops[..j]) &&
    i !in After(rate, ops[..j]).born && After(rate, ops[..j]).count <= MAX_TIMERS
  }

  /** Over every run, a timer is known by the call that started it. */
  lemma {:induction false} BornBy<I>(rate: nat, ops: seq<Op<I>>, i: I) returns (j: nat)
    requires rate > 0 && i in After(rate, ops).born
    ensures StartedBy(rate, ops, j, i, After(rate, ops).born[i])
  {
    var n := |ops| - 1;
    var s := After(rate, ops[..n]);
    RunInv(rate, ops[..n]);
    StepBorn(s, rate, ops[n], i);
    if i in s.born {
      j := BornBy(rate, ops[..n], i);
      assert ops[..n][..j] == ops[..j];
    } else {
      j := n;
      ClockCounts(rate, ops[..n]);
    }
  }

  lemma StepBorn<I>(s: State<I>, rate: nat, op: Op<I>, i: I)
    requires Inv(s, rate) && i in Apply(s, rate, op).born
    ensures var b := Apply(s, rate, op).born[i];
            if i in s.born then b == s.born[i]
            else op == Start(i, b.ticks) && b.at == s.clock.tick && s.count <= MAX_TIMERS
  {
    if op.Tick? {
      TickMoves(s, rate, op.order);
    } else {
      OthersKeep(s, rate, op);
      if op.Start? { StartTaken(s, rate, op.i, op.ticks); }
    }
  }

  lemma StepKeeps<I>(s: State<I>, rate: nat, op: Op<I>, i: I)
    requires Inv(s, rate) && op != Forget(i)
    ensures var s' := Apply(s, rate, op);
            (i in s.born ==> i in s'.born && s'.born[i] == s.born[i]) && (i in s.deleted ==> i in s'.deleted)
  {
    if op.Tick? { TickMoves(s, rate, op.order); } else { OthersKeep(s, rate, op); }
  }

  /** The last operation of a run keeps what is known of a timer, unless its record is used again. */
  lemma RunKeeps<I>(rate: nat, ops: seq<Op<I>>, i: I)
    requires rate > 0 && ops != [] && ops[|ops| - 1] != Forget(i)
    ensures var s, s' := After(rate, ops[..|ops| - 1]), After(rate, ops);
            (i in s.born ==> i in s'.born && s'.born[i] == s.born[i]) && (i in s.deleted ==> i in s'.deleted)
  {
    RunInv(rate, ops[..|ops| - 1]);
    StepKeeps(After(rate, ops[..|ops| - 1]), rate, ops[|ops| - 1], i);
  }

  /** The record of a timer is not used again after the operation `j`. */
  predicate NotReused<I(==)>(ops: seq<Op<I>>, j: nat, i: I) { forall k :: j < k < |ops| ==> ops[k] != Forget(i) }

  /** Over every run, a timer started so is known until its record is used again. */
  lemma {:induction false} StaysBorn<I>(rate: nat, ops: seq<Op<I>>, j: nat, i: I, b: Birth)
    requires rate > 0 && StartedBy(rate, ops, j, i, b) && NotReused(ops, j, i)
    ensures i in After(rate, ops).born && After(rate, ops).born[i] == b
  {
    if j == |ops| - 1 {
      RunStarts(rate, ops, i, b);
    } else {
      StartedPrefix(rate, ops, j, i, b);
      StaysBorn(rate, ops[..|ops| - 1], j, i, b);
      RunKeeps(rate, ops, i);
    }
  }

  lemma RunStarts<I>(rate: nat, ops: seq<Op<I>>, i: I, b: Birth)
    requires rate > 0 && ops != [] && StartedBy(rate, ops, |ops| - 1, i, b)
    ensures i in After(rate, ops).born && After(rate, ops).born[i] == b
  {
    ClockCounts(rate, ops[..|ops| - 1]);
    StartTaken(After(rate, ops[..|ops| - 1]), rate, i, b.ticks);
  }

  lemma StartedPrefix<I>(rate: nat, ops: seq<Op<I>>, j: nat, i: I, b: Birth)
    requires rate > 0 && j < |ops| - 1
    ensures StartedBy(rate, ops[..|ops| - 1], j, i, b) <==> StartedBy(rate, ops, j, i, b)
  {
    assert ops[..|ops| - 1][..j] == ops[..j];
  }

  /** The deletion of a timer that was on a wheel. */
  predicate DeletedBy<I(==)>(rate: nat, ops: seq<Op<I>>, j: nat, i: I)
    requires rate > 0
  {
    j < |ops| && ops[j] == Delete(i) && i in After(rate, ops[..j]).active
  }

  /** Over every run, a timer counts as deleted only if it was deleted when it was on a wheel. */
  lemma {:induction false} GoneBy<I>(rate: nat, ops: seq<Op<I>>, i: I) returns (j: nat)
    requires rate > 0 && i in After(rate, ops).deleted
    ensures DeletedBy(rate, ops, j, i)
  {
    var n := |ops| - 1;
    var s := After(rate, ops[..n]);
    RunInv(rate, ops[..n]);
    if ops[n].Tick? { TickMoves(s, rate, ops[n].order); } else { OthersKeep(s, rate, ops[n]); }
    if i in s.deleted {
      j := GoneBy(rate, ops[..n], i);
      assert ops[..n][..j] == ops[..j];
    } else {
      j := n;
    }
  }

  lemma {:induction false} StaysDeleted<I>(rate: nat, ops: seq<Op<I>>, j: nat, i: I)
    requires rate > 0 && DeletedBy(rate, ops, j, i) && NotReused(ops, j, i)
    ensures i in After(rate, ops).deleted
  {
    var n := |ops| - 1;
    if j == n {
      RunInv(rate, ops[..n]);
      DeleteTaken(After(rate, ops[..n]), rate, i);
    } else {
      assert ops[..n][..j] == ops[..j];
      StaysDeleted(rate, ops[..n], j, i);
      RunKeeps(rate, ops, i);
    }
  }

  /** Over every run, a timer deleted so stays deleted until its record is used again: it is on no wheel, does
      not expire, and its handler is not run. */
  lemma StaysGone<I>(rate: nat, ops: seq<Op<I>>, j: nat, i: I)
    requires rate > 0 && DeletedBy(rate, ops, j, i) && NotReused(ops, j, i)
    ensures var s := After(rate, ops);
            i in s.deleted && i !in s.active && i !in s.log && i !in s.ran && i !in s.expired
  {
    StaysDeleted(rate, ops, j, i);
    DeletedOnly(rate, ops, i);
  }

  lemma DeletedOnly<I>(rate: nat, ops: seq<Op<I>>, i: I)
    requires rate > 0 && i in After(rate, ops).deleted
    ensures var s := After(rate, ops); i !in s.active && i !in s.log && i !in s.ran && i !in s.expired
  {
    RunInv(rate, ops);
    var s := After(rate, ops);
    assert i in s.ran || i in s.expired ==> i in s.ran + s.expired;
  }
}
