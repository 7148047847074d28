/**
  Where the steps of the scheduler put a task: on which list, at which end, and for how long.
 */
module SchedSteps {
  import opened Common
  import opened Sched

  lemma OnIff(s: State, t: Task, k: nat)
    requires Queues(s)
    ensures On(s, t, k) <==> t in s.at && s.at[t] == k
  {
  }

  /** schedule moves no task to another list, and leaves the lists of waiting tasks as they are. */
  lemma ScheduleStays(s: State)
    requires Books(s)
    ensures Schedule(s).at == s.at && Schedule(s).prio == s.prio
    ensures forall k :: MAX_PRIO <= k < LISTS ==> Schedule(s).lists[k] == s.lists[k]
  {
    var q := First(s.lists, 0);
    if q < MAX_PRIO { ReadyStays(s, q); }
  }

  lemma ReadyStays(s: State, q: nat)
    requires Books(s) && q == First(s.lists, 0) < MAX_PRIO
    ensures var s' := NextReady(s).0;
            s' == s.(lists := s'.lists) && |s'.lists| == LISTS &&
            forall k :: MAX_PRIO <= k < LISTS ==> s'.lists[k] == s.lists[k]
  {
    MovedBack(s, q);
    assert s.at[s.lists[q][0] := q] == s.at;
  }

  // ---------------------------------------------------------------- waiting

  /** The list on which a step makes the running task wait. */
  function WaitList(step: Step): nat
    requires step.Block? || (step.WaitOn? && step.fd < MAX_FDS)
  {
    if step.Block? then WAIT else WAIT + 1 + step.fd
  }

  /** A task that waits is last on that list and cannot run. The other lists of waiting tasks stay. */
  lemma WaitsLast(s: State, step: Step)
    requires Inv(s) && Allowed(s, step) && (step.Block? || step.WaitOn?)
    ensures var s', q := Apply(s, step), WaitList(step);
            Inv(s') && s'.lists[q] == s.lists[q] + [s.current] && On(s', s.current, q) && !Runnable(s', s.current) &&
            forall k :: MAX_PRIO <= k < LISTS && k != q ==> s'.lists[k] == s.lists[k]
  {
    var q := WaitList(step);
    ParkedKeeps(s, q);
    ApplyKeeps(s, step);
    ScheduleStays(Parked(s, s.current, q));
    var s' := Apply(s, step);
    assert s'.lists[q] == s.lists[q] + [s.current];
    assert s'.lists[q][|s.lists[q]|] == s.current;
  }

  // ---------------------------------------------------------------- waking and starting

  /** A task that is woken is first on the run list of its priority, and off the list it was on. */
  lemma WakesFirst(s: State, t: Task)
    requires Inv(s) && Allowed(s, Wake(t))
    ensures var s' := Apply(s, Wake(t));
            if Runnable(s, t) then s'.lists == s.lists
            else s'.lists == s.lists[s.at[t] := Remove(s.lists[s.at[t]], t)][s.prio[t] := [t] + s.lists[s.prio[t]]]
  {
  }

  /** A task that is started is last on the run list of the priority it is given. */
  lemma StartsLast(s: State, t: Task, p: nat)
    requires Inv(s) && Allowed(s, Start(t, p))
    ensures var s' := Apply(s, Start(t, p)); s'.lists == s.lists[p := s.lists[p] + [t]] && s'.prio == s.prio[t := p]
  {
  }

  /** The tasks of a list that have a priority, the last first. */
  function Front(prio: map<Task, nat>, ts: seq<Task>, p: nat): seq<Task> {
    if ts == [] then [] else Front(prio, ts[1..], p) + Alone(prio, ts[0], p)
  }

  function Alone(prio: map<Task, nat>, t: Task, p: nat): seq<Task> { if t in prio && prio[t] == p then [t] else [] }

  /** What waking a task does to it and to the run lists. */
  ghost predicate WokenTo(s: State, t: Task, s': State) {
    t in s.prio && |s.lists| == LISTS && Books(s') && s'.prio == s.prio && s'.current == s.current &&
    s'.onrq == s.onrq + {t} && s'.at == s.at[t := s.prio[t]] &&
    (forall p :: 0 <= p < MAX_PRIO ==> s'.lists[p] == Alone(s.prio, t, p) + s.lists[p]) &&
    match s.imm
    case None => s'.imm == Some(t)
    case Some(x) => x in s.prio && s'.imm == if s.prio[x] <= s.prio[t] then s.imm else Some(t)
  }

  lemma WakeOne(s: State, t: Task)
    requires Books(s) && t in s.at && t !in s.onrq && (s.imm.Some? ==> s.imm.value in s.prio)
    ensures WokenTo(s, t, Woken(s, t))
  {
    WokenBooks(s, t);
  }

  /** Waking the tasks of a list puts them one by one in front of the run lists. */
  lemma {:induction false} WakesInFront(s: State, ts: seq<Task>, p: nat)
    requires Wakeable(s, ts) && NoDuplicates(ts) && p < MAX_PRIO && forall t :: t in ts ==> t !in s.onrq
    ensures var s' := WokenAll(s, ts); Books(s') && s'.lists[p] == Front(s.prio, ts, p) + s.lists[p]
    decreases |ts|
  {
    if ts == [] {
    } else {
      var s' := Woken(s, ts[0]);
      WakeOne(s, ts[0]);
      WakesInFront(s', ts[1..], p);
      Grouping(Front(s.prio, ts[1..], p), Alone(s.prio, ts[0], p), s.lists[p]);
    }
  }

  lemma {:induction false} WakesOnly(s: State, ts: seq<Task>, t: Task)
    requires Wakeable(s, ts) && t in s.at
    ensures var s' := WokenAll(s, ts);
            t in s'.at && (t !in ts ==> s'.at[t] == s.at[t]) && (t in ts || Runnable(s, t) ==> Runnable(s', t))
    decreases |ts|
  {
    if ts == [] {
    } else {
      WokenBooks(s, ts[0]);
      WakesOnly(Woken(s, ts[0]), ts[1..], t);
    }
  }

  /** wake_io_task wakes exactly the tasks on the list of the descriptor, each to the front of the run list of
      its priority, and leaves that list empty. */
  lemma WakesWaiting(s: State, fd: nat)
    requires Inv(s) && fd < MAX_FDS
    ensures var s', q := Apply(s, WakeWaiting(fd)), WAIT + 1 + fd;
            Inv(s') && (forall t :: t in s.lists[q] ==> Runnable(s', t)) && s'.lists[q] == [] &&
            (forall t :: t in s.at && t !in s.lists[q] ==> t in s'.at && s'.at[t] == s.at[t]) &&
            forall p :: 0 <= p < MAX_PRIO ==> s'.lists[p] == Front(s.prio, s.lists[q], p) + s.lists[p]
  {
    var q := WAIT + 1 + fd;
    var s' := Apply(s, WakeWaiting(fd));
    ApplyKeeps(s, WakeWaiting(fd));
    Asleep(s, q);
    forall t | t in s.at
      ensures t in s'.at && (t in s.lists[q] ==> Runnable(s', t)) && (t !in s.lists[q] ==> s'.at[t] == s.at[t])
    {
      WakesOnly(s, s.lists[q], t);
    }
    forall p | 0 <= p < MAX_PRIO ensures s'.lists[p] == Front(s.prio, s.lists[q], p) + s.lists[p] {
      WakesInFront(s, s.lists[q], p);
    }
    WakeKeys(s, s.lists[q]);
    NoneThere(s', q);
  }

  lemma NoneThere(s: State, q: nat)
    requires Queues(s) && q < LISTS && forall t :: t in s.at ==> s.at[t] != q
    ensures s.lists[q] == []
  {
    if s.lists[q] != [] {
      var t := Someone(s, q);
      assert false;
    }
  }

  lemma Someone(s: State, q: nat) returns (t: Task)
    requires Queues(s) && q < LISTS && s.lists[q] != []
    ensures t in s.at && s.at[t] == q && (q < MAX_PRIO ==> Runnable(s, t))
  {
    t := s.lists[q][0];
    assert t in s.lists[q];
  }

  lemma {:induction false} WakeKeys(s: State, ts: seq<Task>)
    requires Wakeable(s, ts)
    ensures WokenAll(s, ts).at.Keys == s.at.Keys
    decreases |ts|
  {
    if ts == [] {
    } else {
      WokenBooks(s, ts[0]);
      WakeKeys(Woken(s, ts[0]), ts[1..]);
    }
  }

  /** Two tasks of one priority that both wait, no task as urgent being there to run. */
  ghost predicate BothAsleep(s: State, a: Task, b: Task, p: nat) {
    a != b && a in s.at && b in s.at && a !in s.onrq && b !in s.onrq && a in s.prio && b in s.prio &&
    s.prio[a] == s.prio[b] == p && s.imm.None? && forall t :: Runnable(s, t) ==> t in s.prio && p < s.prio[t]
  }

  /** Of two such tasks that are woken, the first runs at once and the second has the next turn. */
  lemma WokenInTurn(s: State, a: Task, b: Task, p: nat)
    requires Inv(s) && BothAsleep(s, a, b, p)
    ensures After(s, [Wake(a), Wake(b), Yield]).current == a && After(s, [Wake(a), Wake(b), Yield, Yield]).current == b
  {
    InTurnThen(s, a, b, p, [Yield], [Wake(a), Wake(b), Yield], [Yield, Yield], [Wake(a), Wake(b), Yield, Yield]);
  }

  lemma InTurnThen(s: State, a: Task, b: Task, p: nat, rest: seq<Step>, all: seq<Step>, rest': seq<Step>,
                   all': seq<Step>)
    requires Inv(s) && BothAsleep(s, a, b, p) && all == [Wake(a), Wake(b)] + rest && all' == [Wake(a), Wake(b)] + rest'
    requires rest == [Yield] && rest' == [Yield, Yield]
    ensures After(s, all).current == a && After(s, all').current == b
  {
    var s' := BothWoken(s, a, b, p, rest, all, rest', all');
    Yields(s', a, b, p);
  }

  lemma BothWoken(s: State, a: Task, b: Task, p: nat, rest: seq<Step>, all: seq<Step>, rest': seq<Step>,
                  all': seq<Step>) returns (s': State)
    requires Inv(s) && BothAsleep(s, a, b, p) && all == [Wake(a), Wake(b)] + rest && all' == [Wake(a), Wake(b)] + rest'
    ensures Inv(s') && s'.imm == Some(a) && NextInTurn(s', p, b)
    ensures After(s, all) == After(s', rest) && After(s, all') == After(s', rest')
  {
    var mid, mid' := [Wake(b)] + rest, [Wake(b)] + rest';
    var s1 := WakeThen(s, a, mid, all, mid', all');
    s' := WakeThen(s1, b, rest, mid, rest', mid');
    TwoInFront(s, s1, s', a, b, p);
  }

  lemma NotCurrent(s: State, t: Task)
    requires Inv(s) && t in s.at && t !in s.onrq
    ensures t != s.current
  {
  }

  lemma WakeThen(s: State, t: Task, rest: seq<Step>, all: seq<Step>, rest': seq<Step>, all': seq<Step>)
    returns (s': State)
    requires Inv(s) && t in s.at && t !in s.onrq && all == [Wake(t)] + rest && all' == [Wake(t)] + rest'
    ensures WokenTo(s, t, s') && Inv(s') && After(s, all) == After(s', rest) && After(s, all') == After(s', rest')
  {
    s' := Woken(s, t);
    NotCurrent(s, t);
    WakeOne(s, t);
    WakeStep(s, t, rest, all);
    WakeStep(s, t, rest', all');
  }

  /** The task is the first of the most urgent run list that is not empty. */
  predicate NextInTurn(s: State, p: nat, t: Task) {
    |s.lists| == LISTS && p < MAX_PRIO && s.lists[p] != [] && s.lists[p][0] == t &&
    forall k :: 0 <= k < p ==> s.lists[k] == []
  }

  lemma TwoInFront(s: State, s1: State, s2: State, a: Task, b: Task, p: nat)
    requires Inv(s) && BothAsleep(s, a, b, p) && WokenTo(s, a, s1) && WokenTo(s1, b, s2)
    ensures s2.imm == Some(a) && NextInTurn(s2, p, b)
  {
    assert s1.imm == Some(a);
    assert s2.lists[p] == [b] + s1.lists[p];
    forall k | 0 <= k < p ensures s2.lists[k] == [] { NoneMoreUrgent(s, k, p); }
  }

  lemma Yields(s: State, a: Task, b: Task, p: nat)
    requires Inv(s) && s.imm == Some(a) && a != b && NextInTurn(s, p, b)
    ensures After(s, [Yield]).current == a && After(s, [Yield, Yield]).current == b
  {
    TwoTurns(s, a, b, p);
    YieldStep(s, [], [Yield]);
    YieldStep(s, [Yield], [Yield, Yield]);
    YieldStep(Schedule(s), [], [Yield]);
  }

  lemma TwoTurns(s: State, a: Task, b: Task, p: nat)
    requires Inv(s) && s.imm == Some(a) && a != b && NextInTurn(s, p, b)
    ensures Schedule(s).current == a && Inv(Schedule(s)) && Schedule(Schedule(s)).current == b
  {
    SomeRunnable(s);
    ScheduleKeeps(s);
    FirstIs(s.lists, 0, p);
    SomeRunnable(Schedule(s));
  }

  lemma WakeStep(s: State, t: Task, rest: seq<Step>, all: seq<Step>)
    requires Inv(s) && t in s.at && t != s.current && all == [Wake(t)] + rest
    ensures Inv(Woken(s, t)) && After(s, all) == After(Woken(s, t), rest)
  {
    WokenKeeps(s, t);
    assert all[1..] == rest;
  }

  lemma YieldStep(s: State, rest: seq<Step>, all: seq<Step>)
    requires Inv(s) && all == [Yield] + rest
    ensures Inv(Schedule(s)) && After(s, all) == After(Schedule(s), rest)
  {
    ScheduleKeeps(s);
    assert all[1..] == rest;
  }

  lemma NoneMoreUrgent(s: State, k: nat, p: nat)
    requires Books(s) && k < p < MAX_PRIO && forall t :: Runnable(s, t) ==> t in s.prio && p < s.prio[t]
    ensures s.lists[k] == []
  {
    if s.lists[k] != [] {
      var t := Someone(s, k);
      assert false;
    }
  }

  // ---------------------------------------------------------------- how long a task waits

  /** The step wakes the task, which is on the list `q`. */
  predicate WakesUp(step: Step, t: Task, q: nat) { step == Wake(t) || (step.WakeWaiting? && WAIT + 1 + step.fd == q) }

  lemma StepStays(s: State, step: Step, t: Task, q: nat)
    requires Inv(s) && Allowed(s, step) && On(s, t, q) && MAX_PRIO <= q < LISTS && !WakesUp(step, t, q)
    ensures On(Apply(s, step), t, q)
  {
    ApplyKeeps(s, step);
    OnIff(s, t, q);
    StepAt(s, step, t, q);
    OnIff(Apply(s, step), t, q);
  }

  lemma StepAt(s: State, step: Step, t: Task, q: nat)
    requires Inv(s) && Allowed(s, step) && t in s.at && s.at[t] == q && MAX_PRIO <= q < LISTS && !WakesUp(step, t, q)
    ensures t in Apply(s, step).at && Apply(s, step).at[t] == q
  {
    match step
    case Yield => ScheduleStays(s); assert Apply(s, step) == Schedule(s);
    case Block => WaitStepStays(s, step, t);
    case WaitOn(_) => WaitStepStays(s, step, t);
    case Wake(x) => WakeStepStays(s, x, t);
    case WakeWaiting(fd) => WaitingStays(s, fd, t);
    case Start(x, p) => StartStepStays(s, x, p, t);
  }

  lemma WaitStepStays(s: State, step: Step, t: Task)
    requires Inv(s) && Allowed(s, step) && (step.Block? || step.WaitOn?) && t in s.at && s.at[t] >= MAX_PRIO
    ensures t in Apply(s, step).at && Apply(s, step).at[t] == s.at[t]
  {
    ParkedStays(s, WaitList(step), t);
    assert Apply(s, step) == Waited(s, WaitList(step));
  }

  lemma WakeStepStays(s: State, x: Task, t: Task)
    requires Inv(s) && Allowed(s, Wake(x)) && x != t && t in s.at
    ensures t in Apply(s, Wake(x)).at && Apply(s, Wake(x)).at[t] == s.at[t]
  {
    assert Apply(s, Wake(x)) == Woken(s, x);
  }

  lemma StartStepStays(s: State, x: Task, p: nat, t: Task)
    requires Inv(s) && Allowed(s, Start(x, p)) && t in s.at
    ensures t in Apply(s, Start(x, p)).at && Apply(s, Start(x, p)).at[t] == s.at[t]
  {
    assert Apply(s, Start(x, p)) == Started(s, x, p);
  }

  lemma WaitingStays(s: State, fd: nat, t: Task)
    requires Inv(s) && fd < MAX_FDS && t in s.at && s.at[t] != WAIT + 1 + fd
    ensures t in Apply(s, WakeWaiting(fd)).at && Apply(s, WakeWaiting(fd)).at[t] == s.at[t]
  {
    Asleep(s, WAIT + 1 + fd);
    WakesOnly(s, s.lists[WAIT + 1 + fd], t);
  }

  lemma ParkedStays(s: State, q: nat, t: Task)
    requires Inv(s) && s.current != s.idle && MAX_PRIO <= q < LISTS && t in s.at && s.at[t] >= MAX_PRIO
    ensures Waited(s, q).at == s.at[s.current := q] && t != s.current
  {
    ParkedKeeps(s, q);
    ScheduleStays(Parked(s, s.current, q));
  }

  lemma {:induction false} RunStays(s: State, steps: seq<Step>, t: Task, q: nat)
    requires Inv(s) && On(s, t, q) && MAX_PRIO <= q < LISTS && forall step :: step in steps ==> !WakesUp(step, t, q)
    ensures On(After(s, steps), t, q)
    decreases |steps|
  {
    if steps == [] {
    } else if !Allowed(s, steps[0]) {
      RunStays(s, steps[1..], t, q);
    } else {
      ApplyKeeps(s, steps[0]);
      StepStays(s, steps[0], t, q);
      RunStays(Apply(s, steps[0]), steps[1..], t, q);
    }
  }

  lemma {:induction false} OneMoreStep(s: State, steps: seq<Step>, step: Step)
    requires Inv(s)
    ensures var p := After(s, steps); After(s, steps + [step]) == if Allowed(p, step) then Apply(p, step) else p
    decreases |steps|
  {
    if steps == [] {
      if Allowed(s, step) {
        ApplyKeeps(s, step);
        assert After(Apply(s, step), []) == Apply(s, step);
      }
      assert [step][1..] == [];
    } else {
      assert (steps + [step])[1..] == steps[1..] + [step];
      if Allowed(s, steps[0]) {
        ApplyKeeps(s, steps[0]);
        OneMoreStep(Apply(s, steps[0]), steps[1..], step);
      } else {
        OneMoreStep(s, steps[1..], step);
      }
    }
  }

  lemma WaitFirst(s: State, wait: Step, more: seq<Step>)
    requires Inv(s) && Allowed(s, wait) && (wait.Block? || wait.WaitOn?)
    requires forall step :: step in more ==> !WakesUp(step, s.current, WaitList(wait))
    ensures On(After(s, [wait] + more), s.current, WaitList(wait))
  {
    ApplyKeeps(s, wait);
    WaitsLast(s, wait);
    assert ([wait] + more)[1..] == more;
    RunStays(Apply(s, wait), more, s.current, WaitList(wait));
  }

  /** A task that waits for a descriptor or an event stays on that list, and cannot run, whatever else
      happens; and it can run once it, or its descriptor, is woken. */
  lemma WaitsUntilWoken(s: State, wait: Step, more: seq<Step>, wake: Step)
    requires Inv(s) && Allowed(s, wait) && (wait.Block? || wait.WaitOn?)
    requires forall step :: step in more ==> !WakesUp(step, s.current, WaitList(wait))
    requires WakesUp(wake, s.current, WaitList(wait))
    ensures var s' := After(s, [wait] + more); On(s', s.current, WaitList(wait)) && !Runnable(s', s.current)
    ensures Runnable(After(s, [wait] + more + [wake]), s.current)
  {
    WaitFirst(s, wait, more);
    var s' := After(s, [wait] + more);
    OnIff(s', s.current, WaitList(wait));
    OneMoreStep(s, [wait] + more, wake);
    if wake.Wake? {
      WokenBooks(s', s.current);
    } else {
      WakesWaiting(s', wake.fd);
    }
  }
}
