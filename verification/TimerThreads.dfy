/**
  The timers and the two threads that serve them, as one system. The ticking thread makes timers
  expire, as in TimerRun, and then sends its event; the service thread runs their handlers, one at a
  time, as in BottomHalf. Timers are started and deleted at any time between. Each timer has a
  record of its own.
 */
module TimerThreads {
  import opened Common
  import opened TimerModel
  import T = TimerRun
  import H = TimerHistory
  import B = BottomHalf

  /** Both machines, each with the run that has led there. */
  datatype System<I> = System(timers: T.State<I>, threads: B.State<I>, ops: seq<T.Op<I>>, steps: seq<B.Step<I>>)

  datatype Event<I> =
    | Start(i: I, ticks: nat)
    | Delete(i: I)
    | Tick(q: seq<I>)          // by the ticking thread, when it has sent its last event
    | Thread(step: B.Step<I>)  // any other step of either thread

  function Initial<I>(): System<I> { System(T.Initial(), B.Initial(), [], []) }

  /** The timers of `q` are those that expire in the next tick. */
  predicate Expires<I(==)>(t: T.State<I>, rate: nat, q: seq<I>)
    requires rate > 0
  {
    T.Enumerates(q, TickDying(Advance(t.clock, rate), rate, t.active)) && |q| <= t.count
  }

  /** Some timer expires or moves in the next tick, so that the event has to be sent. */
  predicate Moves<I(==)>(t: T.State<I>, rate: nat)
    requires rate > 0
  {
    TickAll(Advance(t.clock, rate), rate, t.active) != t.active
  }

  /** The service thread is about to run a handler. */
  predicate Handles<I(==)>(b: B.State<I>, step: B.Step<I>) { step.Visit? && b.server.Draining? && b.expired != [] }

  function Called<I(==)>(s: System<I>, rate: nat, op: T.Op<I>): System<I>
    requires rate > 0
  {
    s.(timers := T.Apply(s.timers, rate, op), ops := s.ops + [op])
  }

  function Stepped<I(==)>(s: System<I>, step: B.Step<I>): System<I> {
    s.(threads := B.Apply(s.threads, step), steps := s.steps + [step])
  }

  /** An event that cannot happen in a state leaves it as it is. */
  function Apply<I(==)>(s: System<I>, rate: nat, e: Event<I>): System<I>
    requires rate > 0
  {
    match e
    case Start(i, d) => Called(s, rate, T.Start(i, d))
    case Delete(i) => Called(s, rate, T.Delete(i))
    case Tick(q) =>
      if s.threads.ticker.Idle? && Expires(s.timers, rate, q) then
        Stepped(Called(s, rate, T.Tick(q)), B.Expire(q, Moves(s.timers, rate)))
      else s
    case Thread(step) =>
      if step.Expire? then s
      else if Handles(s.threads, step) then Stepped(Called(s, rate, T.Handle), step)
      else Stepped(s, step)
  }

  function After<I(==)>(rate: nat, events: seq<Event<I>>): System<I>
    requires rate > 0
  {
    if events == [] then Initial() else Apply(After(rate, events[..|events| - 1]), rate, events[|events| - 1])
  }

  /** Each part is in the state its run leads to, and they agree on the expired list and the handlers. */
  ghost predicate Joined<I>(s: System<I>, rate: nat)
    requires rate > 0
  {
    s.timers == T.After(rate, s.ops) && s.threads == B.After(s.steps) &&
    s.timers.expired == s.threads.expired && s.timers.ran == s.threads.ran
  }

  lemma CalledRun<I>(s: System<I>, rate: nat, op: T.Op<I>)
    requires rate > 0 && s.timers == T.After(rate, s.ops)
    ensures var s' := Called(s, rate, op); s'.timers == T.After(rate, s'.ops)
  {
    assert (s.ops + [op])[..|s.ops|] == s.ops;
  }

  lemma SteppedRun<I>(s: System<I>, step: B.Step<I>)
    requires s.threads == B.After(s.steps)
    ensures var s' := Stepped(s, step); s'.threads == B.After(s'.steps)
  {
    assert (s.steps + [step])[..|s.steps|] == s.steps;
  }

  /** Timers that expire have never expired before. */
  lemma ExpireFresh<I>(s: System<I>, rate: nat, q: seq<I>)
    requires rate > 0 && Joined(s, rate) && Expires(s.timers, rate, q)
    ensures B.Fresh(s.threads, q)
  {
    T.RunInv(rate, s.ops);
    B.NoneStranded(s.steps);
    assert s.threads.put == s.timers.ran + s.timers.expired;
    forall i | 0 <= i < |q| ensures q[i] !in s.threads.put {
      assert q[i] in s.timers.active;
    }
  }

  lemma TickKeeps<I>(s: System<I>, rate: nat, q: seq<I>)
    requires rate > 0 && Joined(s, rate) && s.threads.ticker.Idle? && Expires(s.timers, rate, q)
    ensures Joined(Stepped(Called(s, rate, T.Tick(q)), B.Expire(q, Moves(s.timers, rate))), rate)
  {
    ExpireFresh(s, rate, q);
    CalledRun(s, rate, T.Tick(q));
    SteppedRun(Called(s, rate, T.Tick(q)), B.Expire(q, Moves(s.timers, rate)));
  }

  lemma HandleKeeps<I>(s: System<I>, rate: nat, step: B.Step<I>)
    requires rate > 0 && Joined(s, rate) && Handles(s.threads, step)
    ensures Joined(Stepped(Called(s, rate, T.Handle), step), rate)
  {
    CalledRun(s, rate, T.Handle);
    SteppedRun(Called(s, rate, T.Handle), step);
  }

  lemma StepKeeps<I>(s: System<I>, rate: nat, step: B.Step<I>)
    requires rate > 0 && Joined(s, rate) && !step.Expire? && !Handles(s.threads, step)
    ensures Joined(Stepped(s, step), rate)
  {
    SteppedRun(s, step);
  }

  lemma CallKeeps<I>(s: System<I>, rate: nat, op: T.Op<I>)
    requires rate > 0 && Joined(s, rate) && (op.Start? || op.Delete?)
    ensures Joined(Called(s, rate, op), rate)
  {
    CalledRun(s, rate, op);
  }

  lemma ApplyKeeps<I>(s: System<I>, rate: nat, e: Event<I>)
    requires rate > 0 && Joined(s, rate)
    ensures Joined(Apply(s, rate, e), rate)
  {
    match e
    case Start(i, d) => CallKeeps(s, rate, T.Start(i, d));
    case Delete(i) => CallKeeps(s, rate, T.Delete(i));
    case Tick(q) => if s.threads.ticker.Idle? && Expires(s.timers, rate, q) { TickKeeps(s, rate, q); }
    case Thread(step) =>
      if step.Expire? {
      } else if Handles(s.threads, step) {
        HandleKeeps(s, rate, step);
      } else {
        StepKeeps(s, rate, step);
      }
  }

  lemma {:induction false} RunJoined<I>(rate: nat, events: seq<Event<I>>)
    requires rate > 0
    ensures Joined(After(rate, events), rate)
  {
    if events == [] {
    } else {
      RunJoined(rate, events[..|events| - 1]);
      ApplyKeeps(After(rate, events[..|events| - 1]), rate, events[|events| - 1]);
    }
  }

  /** Over every run of the system, every timer that is not deleted expires exactly at its fire time, and no
      expired timer is stranded. */
  lemma ExactAndHanded<I(!new)>(rate: nat, events: seq<Event<I>>)
    requires rate > 0
    ensures var s := After(rate, events);
            T.AllExact(s.timers, rate) && B.Inv(s.threads) &&
            forall i :: i in s.timers.log <==> i in s.threads.put
  {
    RunJoined(rate, events);
    var s := After(rate, events);
    T.AllFireExactly(rate, s.ops);
    T.RunInv(rate, s.ops);
    B.NoneStranded(s.steps);
  }

  /** A step of the service thread. */
  predicate ByServer<I>(e: Event<I>) { e.Thread? && (e.step.Visit? || e.step.Begin? || e.step.Check?) }

  /** The same timers were started and deleted, and it is the same tick. */
  predicate SameTimers<I(==)>(t: T.State<I>, t': T.State<I>) {
    t'.clock == t.clock && t'.born == t.born && t'.deleted == t.deleted
  }

  /** The service thread takes its own next step. */
  lemma OwnEvent<I>(rate: nat, events: seq<Event<I>>) returns (e: Event<I>)
    requires rate > 0
    ensures ByServer(e)
    ensures var s, s' := After(rate, events), After(rate, events + [e]);
            s'.threads == B.Own(s.threads) && SameTimers(s.timers, s'.timers)
  {
    var s := After(rate, events);
    e := Thread(B.OwnStep(s.threads));
    assert (events + [e])[..|events|] == events;
  }

  /** From one state of the system to the other by steps of the service thread alone. */
  ghost predicate OwnsTo<I>(s: System<I>, s': System<I>, n: nat) {
    s'.threads == B.Owns(s.threads, n) && SameTimers(s.timers, s'.timers)
  }

  lemma {:induction false} OwnEvents<I>(rate: nat, events: seq<Event<I>>, n: nat) returns (more: seq<Event<I>>)
    requires rate > 0
    ensures forall e :: e in more ==> ByServer(e)
    ensures OwnsTo(After(rate, events), After(rate, events + more), n)
    decreases n
  {
    if n == 0 {
      more := [];
      assert events + [] == events;
    } else {
      var e := OwnEvent(rate, events);
      var rest := OwnEvents(rate, events + [e], n - 1);
      more := [e] + rest;
      OwnsJoin(After(rate, events), After(rate, events + [e]), After(rate, events + [e] + rest), n);
      Grouping(events, [e], rest);
    }
  }

  lemma OwnsJoin<I>(s: System<I>, s1: System<I>, s': System<I>, n: nat)
    requires n > 0 && s1.threads == B.Own(s.threads) && SameTimers(s.timers, s1.timers) && OwnsTo(s1, s', n - 1)
    ensures OwnsTo(s, s', n)
  {
    OwnsFirst(s.threads, n);
  }

  lemma OwnsFirst<I>(b: B.State<I>, n: nat)
    requires n > 0
    ensures B.Owns(b, n) == B.Owns(B.Own(b), n - 1)
  {
  }

  /** From every state of the system, once the event is sent, the service thread by its own steps runs the
      handlers of exactly the timers whose fire time has come, and no other step is needed. */
  lemma FiredAreHandled<I(!new)>(rate: nat, events: seq<Event<I>>) returns (more: seq<Event<I>>)
    requires rate > 0 && After(rate, events).threads.ticker.Idle?
    ensures forall e :: e in more ==> ByServer(e)
    ensures var s, t := After(rate, events), After(rate, events + more).timers;
            SameTimers(s.timers, t) && t.expired == [] && HandledExactly(t, rate)
  {
    RunJoined(rate, events);
    B.NoneStranded(After(rate, events).steps);
    var n := B.AllHandled(After(rate, events).threads);
    more := OwnEvents(rate, events, n);
    RunJoined(rate, events + more);
    ExactAndHanded(rate, events + more);
    AllRan(rate, After(rate, events + more));
  }

  /** The handlers of exactly the timers whose fire time has come have run. */
  ghost predicate HandledExactly<I(!new)>(t: T.State<I>, rate: nat)
    requires rate > 0
  {
    forall i :: i in t.born && i !in t.deleted && t.born[i].ticks % Span(rate) != 0 ==>
      (i in t.ran <==> FireTime(t.born[i].at, t.born[i].ticks, rate) <= t.clock.tick)
  }

  lemma AllRan<I(!new)>(rate: nat, s: System<I>)
    requires rate > 0 && T.AllExact(s.timers, rate) && s.timers.expired == [] && s.timers.ran == s.threads.ran
    requires s.threads.ran + s.threads.expired == s.threads.put && s.threads.expired == []
    requires forall i :: i in s.timers.log <==> i in s.threads.put
    ensures HandledExactly(s.timers, rate)
  {
    assert s.threads.put == s.timers.ran + [] == s.timers.ran;
    forall i | i in s.timers.born && i !in s.timers.deleted && s.timers.born[i].ticks % Span(rate) != 0
      ensures i in s.timers.ran <==> FireTime(s.timers.born[i].at, s.timers.born[i].ticks, rate) <= s.timers.clock.tick
    {
      assert T.ExactAt(s.timers, FireTime(s.timers.born[i].at, s.timers.born[i].ticks, rate), i);
    }
  }

  // ---------------------------------------------------------------- every event does its part

  /** A tick that the ticking thread takes: it has sent its last event, and `q` are the timers due. */
  predicate Ticks<I(==)>(s: System<I>, rate: nat, e: Event<I>)
    requires rate > 0
  {
    e.Tick? && s.threads.ticker.Idle? && H.Taken(s.timers, rate, T.Tick(e.q))
  }

  /** Exactly these ticks are taken: they move the clock by one and put the timers due on the list, and the
      event has to be sent if and only if some timer has expired or moved. */
  lemma TickTaken<I>(s: System<I>, rate: nat, q: seq<I>)
    requires rate > 0 && Joined(s, rate)
    ensures var s' := Apply(s, rate, Tick(q));
            if Ticks(s, rate, Tick(q)) then
              s'.timers.clock.tick == s.timers.clock.tick + 1 && s'.threads.expired == s.threads.expired + q &&
              (s'.threads.ticker.MustSend? <==> s'.timers.active != s.timers.active)
            else s' == s
  {
    TimersTick(s.timers, rate, q, s.ops);
    if Ticks(s, rate, Tick(q)) { ExpireFresh(s, rate, q); }
  }

  lemma TimersTick<I>(t: T.State<I>, rate: nat, q: seq<I>, ops: seq<T.Op<I>>)
    requires rate > 0 && t == T.After(rate, ops)
    ensures Expires(t, rate, q) <==> H.Taken(t, rate, T.Tick(q))
    ensures var t' := T.Apply(t, rate, T.Tick(q));
            Expires(t, rate, q) ==>
              t'.clock.tick == t.clock.tick + 1 && t'.expired == t.expired + q &&
              (q != [] || Moves(t, rate) <==> t'.active != t.active)
  {
    T.RunInv(rate, ops);
    H.DyingAreDue(t, rate);
    H.TickMoves(t, rate, q);
    if H.Taken(t, rate, T.Tick(q)) {
      T.TickKeeps(t, rate, q);
      DueMove(t, rate, q);
    }
  }

  lemma DueMove<I>(t: T.State<I>, rate: nat, q: seq<I>)
    requires T.Inv(t, rate) && Expires(t, rate, q) && H.Taken(t, rate, T.Tick(q))
    ensures var t' := T.Apply(t, rate, T.Tick(q));
            (Moves(t, rate) <==> t'.active != t.active) && (q != [] ==> t'.active != t.active)
  {
    H.TickMoves(t, rate, q);
    SomeoneGoes(q, H.DueNext(t, rate), t.active, T.Apply(t, rate, T.Tick(q)).active);
  }

  lemma SomeoneGoes<I>(q: seq<I>, due: set<I>, a: map<I, Timer>, a': map<I, Timer>)
    requires T.Enumerates(q, due) && due <= a.Keys && a'.Keys == a.Keys - due
    ensures q != [] ==> a' != a
  {
    T.EnumeratesAll(q, due);
    if q != [] { assert q[0] in a && q[0] !in a'; }
  }

  /** The ticks taken in a run of the system. */
  function TickCount<I(==)>(rate: nat, events: seq<Event<I>>): nat
    requires rate > 0
  {
    if events == [] then 0
    else
      var n := |events| - 1;
      TickCount(rate, events[..n]) + if Ticks(After(rate, events[..n]), rate, events[n]) then 1 else 0
  }

  lemma {:induction false} ClockCounts<I>(rate: nat, events: seq<Event<I>>)
    requires rate > 0
    ensures After(rate, events).timers.clock.tick == TickCount(rate, events)
  {
    if events == [] {
    } else {
      var n := |events| - 1;
      ClockCounts(rate, events[..n]);
      RunJoined(rate, events[..n]);
      EventClock(After(rate, events[..n]), rate, events[n]);
    }
  }

  lemma EventClock<I>(s: System<I>, rate: nat, e: Event<I>)
    requires rate > 0 && Joined(s, rate)
    ensures Apply(s, rate, e).timers.clock.tick == s.timers.clock.tick + if Ticks(s, rate, e) then 1 else 0
  {
    match e
    case Start(i, d) => H.OthersKeep(s.timers, rate, T.Start(i, d));
    case Delete(i) => H.OthersKeep(s.timers, rate, T.Delete(i));
    case Tick(q) => TickTaken(s, rate, q);
    case Thread(step) => H.OthersKeep(s.timers, rate, T.Op<I>.Handle);
  }

  /** From every state of the system the next tick is one or two events away. */
  lemma TickPossible<I>(rate: nat, events: seq<Event<I>>) returns (more: seq<Event<I>>)
    requires rate > 0
    ensures 1 <= |more| <= 2 && TickCount(rate, events + more) == TickCount(rate, events) + 1
  {
    var s := After(rate, events);
    if s.threads.ticker.Idle? {
      var q := H.InSomeOrder(H.DueNext(s.timers, rate));
      TickNext(rate, events, q);
      more := [Tick(q)];
    } else {
      var sent := events + [Thread(B.Send)];
      assert sent[..|events|] == events;
      assert TickCount(rate, sent) == TickCount(rate, events);
      var q := H.InSomeOrder(H.DueNext(After(rate, sent).timers, rate));
      TickNext(rate, sent, q);
      more := [Thread(B.Send), Tick(q)];
      assert events + more == sent + [Tick(q)];
    }
  }

  lemma TickNext<I>(rate: nat, events: seq<Event<I>>, q: seq<I>)
    requires rate > 0 && Ticks(After(rate, events), rate, Tick(q))
    ensures TickCount(rate, events + [Tick(q)]) == TickCount(rate, events) + 1
  {
    assert (events + [Tick(q)])[..|events|] == events;
  }

  /** A timer that is started is known with its duration and the present tick. */
  lemma StartTaken<I>(s: System<I>, rate: nat, i: I, d: nat)
    requires rate > 0 && i !in s.timers.born && s.timers.count <= MAX_TIMERS
    ensures var t := Apply(s, rate, Start(i, d)).timers; i in t.born && t.born[i] == T.Birth(s.timers.clock.tick, d)
  {
    H.StartTaken(s.timers, rate, i, d);
  }

  lemma {:induction false} StaysDeleted<I>(rate: nat, events: seq<Event<I>>, i: I, n: nat)
    requires rate > 0 && n <= |events| && i in After(rate, events[..n]).timers.deleted
    ensures i in After(rate, events).timers.deleted
    decreases |events|
  {
    if n == |events| {
      assert events[..n] == events;
    } else {
      var z := |events| - 1;
      assert events[..z][..n] == events[..n];
      StaysDeleted(rate, events[..z], i, n);
      LastKeeps(rate, events, i);
    }
  }

  lemma LastKeeps<I>(rate: nat, events: seq<Event<I>>, i: I)
    requires rate > 0 && events != [] && i in After(rate, events[..|events| - 1]).timers.deleted
    ensures i in After(rate, events).timers.deleted
  {
    RunJoined(rate, events[..|events| - 1]);
    EventDeleted(After(rate, events[..|events| - 1]), rate, events[|events| - 1], i);
  }

  lemma EventDeleted<I>(s: System<I>, rate: nat, e: Event<I>, i: I)
    requires rate > 0 && Joined(s, rate) && i in s.timers.deleted
    ensures i in Apply(s, rate, e).timers.deleted
  {
    T.RunInv(rate, s.ops);
    match e
    case Start(j, d) => H.StepKeeps(s.timers, rate, T.Start(j, d), i);
    case Delete(j) => H.StepKeeps(s.timers, rate, T.Delete(j), i);
    case Tick(q) => H.StepKeeps(s.timers, rate, T.Tick(q), i);
    case Thread(step) => H.StepKeeps(s.timers, rate, T.Op<I>.Handle, i);
  }

  /** A timer that is deleted before it has expired never expires, and its handler is never run, whatever
      either thread does. */
  lemma DeletedNeverRuns<I>(rate: nat, events: seq<Event<I>>, i: I, more: seq<Event<I>>)
    requires rate > 0 && i in After(rate, events).timers.active
    ensures var s := After(rate, events + [Delete(i)] + more);
            i in s.timers.deleted && i !in s.timers.log && i !in s.timers.ran &&
            i !in s.threads.put && i !in s.threads.ran
  {
    var all, n := events + [Delete(i)] + more, |events| + 1;
    RunJoined(rate, events);
    DeletedNow(rate, events, i);
    assert all[..n] == events + [Delete(i)];
    StaysDeleted(rate, all, i, n);
    RunJoined(rate, all);
    var s := After(rate, all);
    H.DeletedOnly(rate, s.ops, i);
    B.NoneStranded(s.steps);
  }

  lemma DeletedNow<I>(rate: nat, events: seq<Event<I>>, i: I)
    requires rate > 0 && i in After(rate, events).timers.active && Joined(After(rate, events), rate)
    ensures i in After(rate, events + [Delete(i)]).timers.deleted
  {
    T.RunInv(rate, After(rate, events).ops);
    H.DeleteTaken(After(rate, events).timers, rate, i);
    assert (events + [Delete(i)])[..|events|] == events;
  }
}
