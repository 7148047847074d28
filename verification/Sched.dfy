/**
  The queues of the scheduler: run lists by priority, the wait list, a list per file descriptor,
  and what schedule and the wakeups do to them. Models the queue part of core/sched.c and
  core/iostream.c.
 */
module Sched {
  import opened Common

  const MAX_PRIO := 20
  const MAX_FDS := 16

  /** The lists are numbered: run lists by priority, then the wait list, then those of descriptors. */
  const WAIT := MAX_PRIO
  const LISTS := MAX_PRIO + 1 + MAX_FDS

  type Task = int

  datatype State = State(
    lists: seq<seq<Task>>,
    current: Task, idle: Task,
    imm: Option<Task>,         // nxt_imm_task
    nrp: int, nwp: int,        // rq.nrp, wq.nwp
    onrq: set<Task>,           // the tasks whose flag onrq is set
    prio: map<Task, nat>,
    at: map<Task, nat>,        // the list that a task is on
    woken: set<Task>)          // the tasks woken or started since the last dispatch

  // ---------------------------------------------------------------- lists

  function Sum(ls: seq<seq<Task>>): nat { if ls == [] then 0 else Sum(ls[..|ls| - 1]) + |ls[|ls| - 1]| }

  lemma {:induction false} SumUpdate(ls: seq<seq<Task>>, k: nat, l: seq<Task>)
    requires k < |ls|
    ensures Sum(ls[k := l]) == Sum(ls) - |ls[k]| + |l|
  {
    var n := |ls| - 1;
    if k < n {
      assert ls[k := l][..n] == ls[..n][k := l];
      SumUpdate(ls[..n], k, l);
    } else {
      assert ls[k := l][..n] == ls[..n];
    }
  }

  lemma {:induction false} SumPositive(ls: seq<seq<Task>>)
    ensures Sum(ls) == 0 <==> forall k :: 0 <= k < |ls| ==> ls[k] == []
  {
    if ls == [] {
    } else {
      var n := |ls| - 1;
      SumPositive(ls[..n]);
      assert forall k :: 0 <= k < n ==> ls[..n][k] == ls[k];
    }
  }

  // ---------------------------------------------------------------- the moves

  function Put(l: seq<Task>, t: Task, last: bool): seq<Task> { if last then l + [t] else [t] + l }

  predicate Listable(s: State, t: Task) { |s.lists| == LISTS && (t in s.at ==> s.at[t] < LISTS) }

  /** The lists once a task is off the one it is on, if any. */
  function Unlisted(s: State, t: Task): (ls: seq<seq<Task>>)
    requires Listable(s, t)
    ensures |ls| == LISTS
  {
    if t in s.at then s.lists[s.at[t] := Remove(s.lists[s.at[t]], t)] else s.lists
  }

  /** Unlink a task from the list it is on, if any, and link it to the list `q`, last or first. */
  function Moved(s: State, t: Task, q: nat, last: bool): State
    requires Listable(s, t) && q < LISTS
  {
    var ls := Unlisted(s, t);
    s.(lists := ls[q := Put(ls[q], t, last)], at := s.at[t := q])
  }

  /** Every task but the idle one is on exactly one list, and once. */
  ghost predicate Queues(s: State) {
    |s.lists| == LISTS && s.idle !in s.at &&
    (forall q, t :: 0 <= q < LISTS && t in s.lists[q] ==> t in s.at && s.at[t] == q) &&
    (forall t :: t in s.at ==> s.at[t] < LISTS && t in s.lists[s.at[t]]) &&
    (forall q :: 0 <= q < LISTS ==> NoDuplicates(s.lists[q]))
  }

  function RunTotal(ls: seq<seq<Task>>): nat
    requires |ls| == LISTS
  {
    Sum(ls[..MAX_PRIO])
  }

  function WaitTotal(ls: seq<seq<Task>>): nat
    requires |ls| == LISTS
  {
    Sum(ls[MAX_PRIO..])
  }

  predicate Counted(s: State) { |s.lists| == LISTS && s.nrp == RunTotal(s.lists) && s.nwp == WaitTotal(s.lists) }

  /** A run list holds tasks of its own priority, and onrq is set for these tasks only. */
  predicate Flagged(s: State) {
    forall t :: t in s.at ==>
      t in s.prio && s.prio[t] < MAX_PRIO && (s.at[t] < MAX_PRIO ==> s.at[t] == s.prio[t]) &&
      (t in s.onrq <==> s.at[t] < MAX_PRIO)
  }

  ghost predicate Books(s: State) { Queues(s) && Counted(s) && Flagged(s) }

  predicate Runnable(s: State, t: Task) { t in s.at && s.at[t] < MAX_PRIO }

  /** The shortcut names a task on a run list that does not run already. */
  predicate ShortcutOk(s: State) { s.imm.Some? ==> Runnable(s, s.imm.value) && s.imm.value != s.current }

  /** The shortcut names one of the tasks woken since the last dispatch, and the most urgent. */
  predicate MostUrgent(s: State) {
    (s.imm.None? <==> s.woken == {}) &&
    (s.imm.Some? ==>
      s.imm.value in s.woken && s.imm.value in s.prio &&
      forall t :: t in s.woken ==> t in s.prio && s.prio[s.imm.value] <= s.prio[t])
  }

  predicate CurrentOk(s: State) { s.current == s.idle || Runnable(s, s.current) }

  predicate Known(s: State) { forall t :: t in s.prio ==> t == s.idle || t in s.at }

  ghost predicate Inv(s: State) { Books(s) && Known(s) && ShortcutOk(s) && MostUrgent(s) && CurrentOk(s) }

  lemma PutFacts(l: seq<Task>, t: Task, last: bool)
    requires NoDuplicates(l) && t !in l
    ensures NoDuplicates(Put(l, t, last)) && |Put(l, t, last)| == |l| + 1
    ensures forall x :: x in Put(l, t, last) <==> x in l || x == t
  {
  }

  lemma MovedQueues(s: State, t: Task, q: nat, last: bool)
    requires Queues(s) && t in s.at && q < LISTS
    ensures Queues(Moved(s, t, q, last))
  {
    var p := s.at[t];
    RemoveFacts(s.lists[p], t);
    var ls := s.lists[p := Remove(s.lists[p], t)];
    PutFacts(ls[q], t, last);
    var s' := Moved(s, t, q, last);
    forall v, x | 0 <= v < LISTS && x in s'.lists[v] ensures x in s'.at && s'.at[x] == v {
      if v == q { assert x in ls[q] || x == t; }
    }
    forall x | x in s'.at ensures s'.at[x] < LISTS && x in s'.lists[s'.at[x]] {
      if x != t { assert x in s.lists[s.at[x]]; }
    }
  }

  function InRun(q: nat): int { if q < MAX_PRIO then 1 else 0 }

  /** What replacing one list does to the totals. */
  lemma TotalsUpdate(ls: seq<seq<Task>>, k: nat, l: seq<Task>)
    requires |ls| == LISTS && k < LISTS
    ensures RunTotal(ls[k := l]) == RunTotal(ls) + if k < MAX_PRIO then |l| - |ls[k]| else 0
    ensures WaitTotal(ls[k := l]) == WaitTotal(ls) + if k < MAX_PRIO then 0 else |l| - |ls[k]|
  {
    if k < MAX_PRIO {
      assert ls[k := l][..MAX_PRIO] == ls[..MAX_PRIO][k := l] && ls[k := l][MAX_PRIO..] == ls[MAX_PRIO..];
      SumUpdate(ls[..MAX_PRIO], k, l);
    } else {
      assert ls[k := l][MAX_PRIO..] == ls[MAX_PRIO..][k - MAX_PRIO := l] && ls[k := l][..MAX_PRIO] == ls[..MAX_PRIO];
      SumUpdate(ls[MAX_PRIO..], k - MAX_PRIO, l);
    }
  }

  lemma MovedTotals(s: State, t: Task, q: nat, last: bool)
    requires Queues(s) && t in s.at && q < LISTS
    ensures var ls' := Moved(s, t, q, last).lists;
            RunTotal(ls') == RunTotal(s.lists) - InRun(s.at[t]) + InRun(q) &&
            WaitTotal(ls') == WaitTotal(s.lists) + InRun(s.at[t]) - InRun(q)
  {
    var p := s.at[t];
    var l := Remove(s.lists[p], t);
    RemoveFacts(s.lists[p], t);
    TotalsUpdate(s.lists, p, l);
    var ls := s.lists[p := l];
    TotalsUpdate(ls, q, Put(ls[q], t, last));
  }

  /** A move together with what it does to the counts and the flag. */
  function Booked(s: State, t: Task, q: nat, last: bool): State
    requires Listable(s, t) && t in s.at && q < LISTS
  {
    Moved(s, t, q, last).(
      nrp := s.nrp - InRun(s.at[t]) + InRun(q), nwp := s.nwp + InRun(s.at[t]) - InRun(q),
      onrq := if q < MAX_PRIO then s.onrq + {t} else s.onrq - {t})
  }

  lemma BookedBooks(s: State, t: Task, q: nat, last: bool)
    requires Books(s) && t in s.at && q < LISTS && (q < MAX_PRIO ==> q == s.prio[t])
    ensures Books(Booked(s, t, q, last))
  {
    MovedQueues(s, t, q, last);
    MovedTotals(s, t, q, last);
    var s', m := Booked(s, t, q, last), Moved(s, t, q, last);
    assert s'.lists == m.lists && s'.at == m.at;
  }

  // ---------------------------------------------------------------- schedule

  /** The most urgent run list that is not empty, from `p` on; MAX_PRIO if there is none. */
  function First(ls: seq<seq<Task>>, p: nat): (q: nat)
    requires |ls| == LISTS && p <= MAX_PRIO
    ensures p <= q <= MAX_PRIO && (q < MAX_PRIO ==> ls[q] != []) && forall k :: p <= k < q ==> ls[k] == []
    decreases MAX_PRIO - p
  {
    if p < MAX_PRIO && ls[p] == [] then First(ls, p + 1) else p
  }

  /** next_task_ready_to_run, without its own test of nrp, which its caller has made. */
  function NextReady(s: State): (State, Option<Task>)
    requires Books(s)
  {
    var q := First(s.lists, 0);
    if q == MAX_PRIO then (s, None)
    else
      MovedBack(s, q);
      var p := s.lists[q][0];
      (if p != s.current then Moved(s, p, s.prio[p], true) else s, Some(p))
  }

  /** get_next_eligible_task_to_run. */
  function NextEligible(s: State): (State, Option<Task>)
    requires Books(s)
  {
    if s.nrp == 0 then (s, Some(s.idle))
    else if s.imm.Some? then (if s.current != s.imm.value then s.(imm := None) else s, s.imm)
    else NextReady(s)
  }

  function Schedule(s: State): (r: State)
    requires Books(s)
    ensures r.idle == s.idle
  {
    var (s', next) := NextEligible(s);
    if next.None? then s' else s'.(current := next.value, woken := {})
  }

  lemma SomeRunnable(s: State)
    requires Books(s)
    ensures s.nrp == 0 <==> First(s.lists, 0) == MAX_PRIO
    ensures s.nrp == 0 <==> forall t :: !Runnable(s, t)
  {
    FirstEmpty(s);
    var q := First(s.lists, 0);
    if q < MAX_PRIO {
      assert s.lists[q][0] in s.lists[q];
      assert Runnable(s, s.lists[q][0]);
    }
  }

  lemma FirstEmpty(s: State)
    requires Counted(s)
    ensures s.nrp == 0 <==> First(s.lists, 0) == MAX_PRIO
  {
    var ls, q := s.lists[..MAX_PRIO], First(s.lists, 0);
    SumPositive(ls);
    if q < MAX_PRIO {
      assert ls[q] != [];
    } else {
      assert forall k :: 0 <= k < MAX_PRIO ==> ls[k] == s.lists[k];
    }
  }

  lemma MovedBack(s: State, q: nat)
    requires Books(s) && q < MAX_PRIO && s.lists[q] != []
    ensures var t := s.lists[q][0];
            t in s.at && s.at[t] == q && s.prio[t] == q && Moved(s, t, q, true) == Booked(s, t, q, true)
  {
    var t := s.lists[q][0];
    assert s.onrq + {t} == s.onrq;
  }

  lemma ReadyKeeps(s: State)
    requires Books(s) && First(s.lists, 0) < MAX_PRIO
    ensures var (s', next) := NextReady(s);
            Books(s') && next.Some? && Runnable(s', next.value) && s' == s.(lists := s'.lists, at := s'.at) &&
            s'.at.Keys == s.at.Keys
  {
    var q := First(s.lists, 0);
    MovedBack(s, q);
    BookedBooks(s, s.lists[q][0], q, true);
  }

  lemma Dispatched(s: State, t: Task)
    requires Books(s) && Known(s) && (t == s.idle || Runnable(s, t))
    ensures Inv(s.(current := t, imm := None, woken := {}))
  {
  }

  /** The running task need not be one that can run: it may have been moved to a wait list just now. */
  lemma ScheduleKeeps(s: State)
    requires Books(s) && Known(s) && ShortcutOk(s) && MostUrgent(s)
    ensures Inv(Schedule(s))
  {
    SomeRunnable(s);
    if s.nrp != 0 && s.imm.None? {
      ReadyKeeps(s);
      var (s', next) := NextReady(s);
      Dispatched(s', next.value);
    } else {
      Dispatched(s, NextEligible(s).1.value);
    }
  }

  /** The idle task runs exactly when no task can; otherwise it is a task from a run list that runs:
      the most urgent of those woken since the last dispatch, or else one of the most urgent. */
  lemma Dispatches(s: State)
    requires Inv(s)
    ensures var s' := Schedule(s);
            (s'.current == s.idle <==> forall t :: !Runnable(s, t)) &&
            (s'.current != s.idle ==> Runnable(s, s'.current) && Runnable(s', s'.current)) &&
            (s.woken != {} ==> s'.current in s.woken && forall t :: t in s.woken ==> s.prio[s'.current] <= s.prio[t]) &&
            (s.woken == {} && s'.current != s.idle ==> forall t :: Runnable(s, t) ==> s.prio[s'.current] <= s.prio[t])
  {
    SomeRunnable(s);
    ScheduleKeeps(s);
    if s.nrp != 0 && s.imm.None? {
      var q := First(s.lists, 0);
      MovedBack(s, q);
      forall t | Runnable(s, t) ensures q <= s.prio[t] {
        assert t in s.lists[s.at[t]];
      }
    }
  }

  // ---------------------------------------------------------------- the other steps

  /** The end of wakeup_task and wakeup_new_task: the shortcut is to the woken task, unless it is
      to a task that is at least as urgent. */
  function Nominated(s: State, t: Task): State
    requires t in s.prio && (s.imm.Some? ==> s.imm.value in s.prio)
  {
    s.(imm := if s.imm.Some? && s.prio[s.imm.value] <= s.prio[t] then s.imm else Some(t), woken := s.woken + {t})
  }

  function Woken(s: State, t: Task): (r: State)
    requires Books(s) && t in s.at && (s.imm.Some? ==> s.imm.value in s.prio)
    ensures r.idle == s.idle
  {
    Nominated(
      if t in s.onrq then s
      else Moved(s, t, s.prio[t], false).(onrq := s.onrq + {t}, nrp := s.nrp + 1, nwp := s.nwp - 1), t)
  }

  function Started(s: State, t: Task, prio: nat): State
    requires |s.lists| == LISTS && prio < MAX_PRIO && (s.imm.Some? ==> s.imm.value in s.prio)
  {
    Nominated(
      s.(lists := s.lists[prio := s.lists[prio] + [t]], at := s.at[t := prio], prio := s.prio[t := prio],
         onrq := s.onrq + {t}, nrp := s.nrp + 1), t)
  }

  /** Moves a task from its run list to the list of a wait, last. */
  function Parked(s: State, t: Task, q: nat): State
    requires Listable(s, t) && MAX_PRIO <= q < LISTS
  {
    Moved(s, t, q, true).(nrp := s.nrp - 1, nwp := s.nwp + 1, onrq := s.onrq - {t})
  }

  lemma ParkedKeeps(s: State, q: nat)
    requires Inv(s) && s.current != s.idle && MAX_PRIO <= q < LISTS
    ensures var s' := Parked(s, s.current, q);
            Books(s') && Known(s') && ShortcutOk(s') && MostUrgent(s') && s'.current == s.current
  {
    BookedBooks(s, s.current, q, true);
    assert Parked(s, s.current, q) == Booked(s, s.current, q, true);
  }

  /** The running task goes to a list of waiting tasks, and another is dispatched. */
  function Waited(s: State, q: nat): (r: State)
    requires Inv(s) && s.current != s.idle && MAX_PRIO <= q < LISTS
    ensures r.idle == s.idle
  {
    ParkedKeeps(s, q);
    Schedule(Parked(s, s.current, q))
  }

  lemma WaitedKeeps(s: State, q: nat)
    requires Inv(s) && s.current != s.idle && MAX_PRIO <= q < LISTS
    ensures Inv(Waited(s, q))
  {
    ParkedKeeps(s, q);
    ScheduleKeeps(Parked(s, s.current, q));
  }

  lemma WokenBooks(s: State, t: Task)
    requires Books(s) && t in s.at && (s.imm.Some? ==> s.imm.value in s.prio)
    ensures Books(Woken(s, t)) && Runnable(Woken(s, t), t)
    ensures forall x :: Runnable(s, x) ==> Runnable(Woken(s, t), x)
  {
    if t !in s.onrq {
      BookedBooks(s, t, s.prio[t], false);
      assert Woken(s, t) == Nominated(Booked(s, t, s.prio[t], false), t);
    }
  }

  lemma WokenKeeps(s: State, t: Task)
    requires Inv(s) && t in s.at && t != s.current
    ensures Inv(Woken(s, t))
  {
    WokenBooks(s, t);
  }

  lemma StartedQueues(s: State, t: Task, prio: nat)
    requires Queues(s) && prio < MAX_PRIO && t !in s.at && t != s.idle && (s.imm.Some? ==> s.imm.value in s.prio)
    ensures Queues(Started(s, t, prio))
    ensures var ls' := Started(s, t, prio).lists;
            RunTotal(ls') == RunTotal(s.lists) + 1 && WaitTotal(ls') == WaitTotal(s.lists)
  {
    assert t !in s.lists[prio];
    PutFacts(s.lists[prio], t, true);
    TotalsUpdate(s.lists, prio, Put(s.lists[prio], t, true));
    var s' := Started(s, t, prio);
    forall x | x in s'.at ensures s'.at[x] < LISTS && x in s'.lists[s'.at[x]] {
      if x != t { assert x in s.lists[s.at[x]]; }
    }
  }

  lemma StartedKeeps(s: State, t: Task, prio: nat)
    requires Inv(s) && prio < MAX_PRIO && t !in s.at && t != s.idle
    ensures Inv(Started(s, t, prio))
  {
    StartedQueues(s, t, prio);
  }

  /** The tasks on a list of waiting tasks can be woken, and none of them is running. */
  lemma Asleep(s: State, q: nat)
    requires Inv(s) && MAX_PRIO <= q < LISTS
    ensures Wakeable(s, s.lists[q]) && forall t :: t in s.lists[q] ==> t in s.at && t != s.current && t !in s.onrq
  {
  }

  ghost predicate Wakeable(s: State, ts: seq<Task>) {
    Books(s) && (forall t :: t in ts ==> t in s.at) && (s.imm.Some? ==> s.imm.value in s.prio)
  }

  /** wake_io_task: the tasks of a list are woken one by one, from the first on. */
  function WokenAll(s: State, ts: seq<Task>): (r: State)
    requires Wakeable(s, ts)
    ensures r.idle == s.idle
    decreases |ts|
  {
    if ts == [] then s
    else
      WokenBooks(s, ts[0]);
      WokenAll(Woken(s, ts[0]), ts[1..])
  }

  lemma WokenNext(s: State, ts: seq<Task>, i: nat)
    requires i < |ts| && Wakeable(s, ts[i..])
    ensures ts[i] in s.at
    ensures var s' := Woken(s, ts[i]); Wakeable(s', ts[i + 1..]) && WokenAll(s', ts[i + 1..]) == WokenAll(s, ts[i..])
  {
    assert ts[i..][0] == ts[i];
    WokenBooks(s, ts[i]);
    assert ts[i..][1..] == ts[i + 1..];
  }

  lemma {:induction false} WokenAllKeeps(s: State, ts: seq<Task>)
    requires Inv(s) && forall t :: t in ts ==> t in s.at && t != s.current
    ensures Inv(WokenAll(s, ts))
    decreases |ts|
  {
    if ts == [] {
    } else {
      WokenKeeps(s, ts[0]);
      WokenAllKeeps(Woken(s, ts[0]), ts[1..]);
    }
  }

  function WokenWaiting(s: State, q: nat): (r: State)
    requires Inv(s) && MAX_PRIO <= q < LISTS
    ensures r.idle == s.idle
  {
    Asleep(s, q);
    WokenAll(s, s.lists[q])
  }

  lemma WokenWaitingKeeps(s: State, q: nat)
    requires Inv(s) && MAX_PRIO <= q < LISTS
    ensures Inv(WokenWaiting(s, q))
  {
    Asleep(s, q);
    WokenAllKeeps(s, s.lists[q]);
  }

  // ---------------------------------------------------------------- runs

  datatype Step =
    | Yield
    | Block                      // add_current_task_wait_Q, then schedule
    | WaitOn(fd: nat)
    | Wake(t: Task)
    | WakeWaiting(fd: nat)
    | Start(t: Task, prio: nat)

  /** Who calls what: only a task other than the idle one blocks; wakeups are of other tasks than the
      running one; new tasks are new and have a priority with a run list. */
  predicate Allowed(s: State, step: Step) {
    match step
    case Yield => true
    case Block => s.current != s.idle
    case WaitOn(fd) => s.current != s.idle && fd < MAX_FDS
    case Wake(t) => t in s.at && t != s.current
    case WakeWaiting(fd) => fd < MAX_FDS
    case Start(t, prio) => t !in s.at && t != s.idle && prio < MAX_PRIO
  }

  function Apply(s: State, step: Step): (r: State)
    requires Inv(s) && Allowed(s, step)
    ensures r.idle == s.idle
  {
    match step
    case Yield => Schedule(s)
    case Block => Waited(s, WAIT)
    case WaitOn(fd) => Waited(s, WAIT + 1 + fd)
    case Wake(t) => Woken(s, t)
    case WakeWaiting(fd) => WokenWaiting(s, WAIT + 1 + fd)
    case Start(t, prio) => Started(s, t, prio)
  }

  lemma WaitStepKeeps(s: State, step: Step, q: nat)
    requires Inv(s) && Allowed(s, step) && ((step.Block? && q == WAIT) || (step.WaitOn? && q == WAIT + 1 + step.fd))
    ensures Inv(Apply(s, step))
  {
    WaitedKeeps(s, q);
    assert Apply(s, step) == Waited(s, q);
  }

  lemma WakeStepKeeps(s: State, step: Step)
    requires Inv(s) && Allowed(s, step) && (step.Wake? || step.WakeWaiting?)
    ensures Inv(Apply(s, step))
  {
    if step.Wake? {
      WokenKeeps(s, step.t);
      assert Apply(s, step) == Woken(s, step.t);
    } else {
      WokenWaitingKeeps(s, WAIT + 1 + step.fd);
      assert Apply(s, step) == WokenWaiting(s, WAIT + 1 + step.fd);
    }
  }

  lemma StartStepKeeps(s: State, t: Task, prio: nat)
    requires Inv(s) && Allowed(s, Start(t, prio))
    ensures Inv(Apply(s, Start(t, prio)))
  {
    StartedKeeps(s, t, prio);
    assert Apply(s, Start(t, prio)) == Started(s, t, prio);
  }

  lemma ApplyKeeps(s: State, step: Step)
    requires Inv(s) && Allowed(s, step)
    ensures Inv(Apply(s, step))
  {
    match step
    case Yield => ScheduleKeeps(s); assert Apply(s, step) == Schedule(s);
    case Block => WaitStepKeeps(s, step, WAIT);
    case WaitOn(fd) => WaitStepKeeps(s, step, WAIT + 1 + fd);
    case Wake(_) => WakeStepKeeps(s, step);
    case WakeWaiting(_) => WakeStepKeeps(s, step);
    case Start(t, prio) => StartStepKeeps(s, t, prio);
  }

  /** A run: the steps that are allowed when their turn comes, in order. */
  function After(s: State, steps: seq<Step>): (r: State)
    requires Inv(s)
    ensures Inv(r) && r.idle == s.idle
    decreases |steps|
  {
    if steps == [] then s
    else if !Allowed(s, steps[0]) then After(s, steps[1..])
    else
      ApplyKeeps(s, steps[0]);
      After(Apply(s, steps[0]), steps[1..])
  }

  // ---------------------------------------------------------------- start-up

  function EmptyLists(): seq<seq<Task>> { seq(LISTS, i => []) }

  /** After create_parent_task and create_idle_task: the parent task runs and has its flag set but is
      on no list; the idle task has been unlinked but is still counted, and is still the shortcut. */
  function Booted(main: Task, idle: Task): State {
    State(EmptyLists(), main, idle, Some(idle), 1, 0, {main, idle}, map[main := 1, idle := 19], map[], {})
  }

  function StartedAll(s: State, tasks: seq<(Task, nat)>): (r: State)
    requires |s.lists| == LISTS && (forall p :: p in tasks ==> p.1 < MAX_PRIO) &&
             (s.imm.Some? ==> s.imm.value in s.prio)
    ensures |r.lists| == LISTS && (r.imm.Some? ==> r.imm.value in r.prio)
  {
    if tasks == [] then s else Started(StartedAll(s, tasks[..|tasks| - 1]), tasks[|tasks| - 1].0, tasks[|tasks| - 1].1)
  }

  /** Before the parent task waits, the books are right but for the parent and the idle task. */
  ghost predicate Starting(s: State) {
    Queues(s) && Flagged(s) && s.nrp == RunTotal(s.lists) + 1 && s.nwp == WaitTotal(s.lists) &&
    s.current != s.idle && s.current !in s.at && s.current in s.prio && s.prio[s.current] < MAX_PRIO &&
    (forall t :: t in s.prio ==> t == s.idle || t == s.current || t in s.at) &&
    s.idle in s.prio && s.prio[s.idle] == 19 &&
    (if s.woken == {} then s.imm == Some(s.idle) else ShortcutOk(s) && MostUrgent(s))
  }

  predicate Fresh(main: Task, idle: Task, tasks: seq<(Task, nat)>) {
    main != idle && (forall p :: p in tasks ==> p.0 != main && p.0 != idle && p.1 < MAX_PRIO) &&
    (forall i, j :: 0 <= i < j < |tasks| ==> tasks[i].0 != tasks[j].0) &&
    (tasks != [] ==> tasks[0].1 < 19)
  }

  lemma {:induction false} EmptySum(ls: seq<seq<Task>>)
    requires forall k :: 0 <= k < |ls| ==> ls[k] == []
    ensures Sum(ls) == 0
  {
    SumPositive(ls);
  }

  lemma BootedStarting(main: Task, idle: Task)
    requires main != idle
    ensures Starting(Booted(main, idle))
  {
    var s := Booted(main, idle);
    EmptySum(s.lists[..MAX_PRIO]);
    EmptySum(s.lists[MAX_PRIO..]);
  }

  lemma StartedStarting(s: State, t: Task, prio: nat)
    requires Starting(s) && prio < MAX_PRIO && t !in s.at && t != s.idle && t != s.current &&
             (s.woken == {} ==> prio < 19)
    ensures Starting(Started(s, t, prio))
  {
    StartedQueues(s, t, prio);
  }

  function Names(tasks: seq<(Task, nat)>): set<Task> { set p | p in tasks :: p.0 }

  lemma {:induction false} AllStarting(main: Task, idle: Task, tasks: seq<(Task, nat)>)
    requires Fresh(main, idle, tasks)
    ensures var s := StartedAll(Booted(main, idle), tasks);
            Starting(s) && s.current == main && s.idle == idle && (s.woken == {} <==> tasks == []) &&
            s.at.Keys == Names(tasks)
  {
    if tasks == [] {
      BootedStarting(main, idle);
    } else {
      var n := |tasks| - 1;
      AllStarting(main, idle, tasks[..n]);
      NamesMore(tasks);
      OneMoreStarting(StartedAll(Booted(main, idle), tasks[..n]), tasks[n].0, tasks[n].1);
    }
  }

  lemma NamesMore(tasks: seq<(Task, nat)>)
    requires tasks != [] && forall i, j :: 0 <= i < j < |tasks| ==> tasks[i].0 != tasks[j].0
    ensures var n := |tasks| - 1; Names(tasks) == Names(tasks[..n]) + {tasks[n].0} && tasks[n].0 !in Names(tasks[..n])
  {
    var n := |tasks| - 1;
    assert tasks == tasks[..n] + [tasks[n]];
    assert forall p :: p in tasks <==> p in tasks[..n] || p == tasks[n];
  }

  lemma OneMoreStarting(s: State, t: Task, prio: nat)
    requires Starting(s) && prio < MAX_PRIO && t !in s.at && t != s.idle && t != s.current &&
             (s.woken == {} ==> prio < 19)
    ensures var s' := Started(s, t, prio);
            Starting(s') && s'.woken != {} && s'.current == s.current && s'.idle == s.idle &&
            s'.at.Keys == s.at.Keys + {t}
  {
    StartedStarting(s, t, prio);
    assert t in Started(s, t, prio).woken;
  }

  /** The first time the parent task waits, it is on no list, and taking it off the count makes up for
      the idle task. */
  lemma FirstParkedKeeps(s: State, q: nat)
    requires Starting(s) && s.woken != {} && MAX_PRIO <= q < LISTS
    ensures var s' := Parked(s, s.current, q); Books(s') && Known(s') && ShortcutOk(s') && MostUrgent(s')
  {
    assert s.current !in s.lists[q];
    PutFacts(s.lists[q], s.current, true);
    TotalsUpdate(s.lists, q, Put(s.lists[q], s.current, true));
    var s' := Parked(s, s.current, q);
    forall x | x in s'.at ensures s'.at[x] < LISTS && x in s'.lists[s'.at[x]] {
      if x != s.current { assert x in s.lists[s.at[x]]; }
    }
  }

  ghost function FirstScheduled(s: State, q: nat): State
    requires Starting(s) && s.woken != {} && MAX_PRIO <= q < LISTS
  {
    FirstParkedKeeps(s, q);
    Schedule(Parked(s, s.current, q))
  }

  /** A state some time after start-up: any tasks were started, the soft-irq task first, then the
      parent waited on the list `q`, and then the steps followed. */
  ghost predicate Reached(s: State, main: Task, idle: Task, tasks: seq<(Task, nat)>, q: nat, steps: seq<Step>)
    requires Fresh(main, idle, tasks) && tasks != [] && MAX_PRIO <= q < LISTS
  {
    var s0 := StartedAll(Booted(main, idle), tasks);
    AllStarting(main, idle, tasks);
    FirstParkedKeeps(s0, q);
    ScheduleKeeps(Parked(s0, main, q));
    s == After(FirstScheduled(s0, q), steps)
  }

  predicate On(s: State, t: Task, q: nat) { |s.lists| == LISTS && q < LISTS && t in s.lists[q] }

  /** Each task but the idle one is on exactly one list, once; its flag says whether that is a run list,
      and then it is the one of its priority; both counts are exact; the shortcut is to a task that can
      run and does not; and the idle task or one that can run is running. */
  ghost predicate Accounted(s: State) {
    |s.lists| == LISTS && (forall k :: 0 <= k < LISTS ==> NoDuplicates(s.lists[k]) && s.idle !in s.lists[k]) &&
    (forall t :: t in s.prio && t != s.idle ==> exists k: nat :: On(s, t, k)) &&
    (forall t, j: nat, k: nat :: On(s, t, j) && On(s, t, k) ==> j == k) &&
    (forall t, k: nat :: On(s, t, k) ==>
      t in s.prio && (t in s.onrq <==> k < MAX_PRIO) && (k < MAX_PRIO ==> k == s.prio[t])) &&
    s.nrp == Sum(s.lists[..MAX_PRIO]) && s.nwp == Sum(s.lists[MAX_PRIO..]) &&
    (s.imm.Some? ==> s.imm.value != s.current && exists k: nat :: k < MAX_PRIO && On(s, s.imm.value, k)) &&
    (s.current == s.idle || exists k: nat :: k < MAX_PRIO && On(s, s.current, k))
  }

  lemma InvAccounts(s: State)
    requires Inv(s)
    ensures Accounted(s)
  {
    forall t | t in s.prio && t != s.idle ensures exists k: nat :: On(s, t, k) {
      assert On(s, t, s.at[t]);
    }
    forall t, j: nat, k: nat | On(s, t, j) && On(s, t, k) ensures j == k {
      assert s.at[t] == j && s.at[t] == k;
    }
    if s.imm.Some? { assert On(s, s.imm.value, s.at[s.imm.value]); }
    if s.current != s.idle { assert On(s, s.current, s.at[s.current]); }
  }

  /** Over every run from start-up. */
  lemma OneListEach(s: State, main: Task, idle: Task, tasks: seq<(Task, nat)>, q: nat, steps: seq<Step>)
    requires Fresh(main, idle, tasks) && tasks != [] && MAX_PRIO <= q < LISTS && Reached(s, main, idle, tasks, q, steps)
    ensures Accounted(s) && Inv(s) && s.idle == idle
  {
    AllStarting(main, idle, tasks);
    InvAccounts(s);
  }

  // ---------------------------------------------------------------- round robin

  function Schedules(s: State, n: nat): (r: State)
    requires Inv(s)
    ensures Inv(r)
    decreases n
  {
    if n == 0 then s
    else
      ScheduleKeeps(s);
      Schedules(Schedule(s), n - 1)
  }

  /** No wakeup is pending, and `l` is the most urgent list of tasks that can run. */
  ghost predicate Turn(s: State, l: seq<Task>) {
    match s.imm
    case None => Inv(s) && First(s.lists, 0) < MAX_PRIO && s.lists[First(s.lists, 0)] == l
    case Some(_) => false
  }

  lemma FirstIs(ls: seq<seq<Task>>, p: nat, q: nat)
    requires |ls| == LISTS && p <= q < MAX_PRIO && ls[q] != [] && forall k :: p <= k < q ==> ls[k] == []
    ensures First(ls, p) == q
  {
  }

  /** A schedule runs the first task of the list and moves it to the end. */
  lemma TurnPasses(s: State, l: seq<Task>)
    requires Turn(s, l) && s.current != l[0]
    ensures Turn(Schedule(s), l[1..] + [l[0]]) && Schedule(s).current == l[0]
  {
    SomeRunnable(s);
    ScheduleKeeps(s);
    var q := First(s.lists, 0);
    MovedBack(s, q);
    var s' := Moved(s, l[0], q, true);
    assert s'.lists == s.lists[q := l[1..] + [l[0]]];
    FirstIs(s'.lists, 0, q);
  }

  /** While the first task of the list runs, schedule lets it go on. */
  lemma TurnKept(s: State, l: seq<Task>)
    requires Turn(s, l) && s.current == l[0]
    ensures Schedule(s) == s
  {
    SomeRunnable(s);
  }

  /** If the running task is not first in the list, its tasks run one after the other. After one round
      the list is as it was, and if it has several tasks the first is not the running one: so it goes on. */
  lemma {:induction false} InTurn(s: State, l: seq<Task>, n: nat)
    requires Turn(s, l) && s.current != l[0] && 0 < n <= |l|
    ensures Schedules(s, n).current == l[n - 1] && Turn(Schedules(s, n), l[n..] + l[..n])
    decreases n
  {
    Rotated(l, n);
    var s', l' := NextTurn(s, l, n);
    if n == 1 {
    } else {
      InTurn(s', l', n - 1);
    }
  }

  lemma NextTurn(s: State, l: seq<Task>, n: nat) returns (s': State, l': seq<Task>)
    requires Turn(s, l) && s.current != l[0] && n > 0
    ensures l' == l[1..] + [l[0]] && Turn(s', l') && s'.current == l[0] && (|l| > 1 ==> s'.current != l'[0])
    ensures Schedules(s, n) == Schedules(s', n - 1) && (n == 1 ==> Schedules(s, n) == s')
  {
    s', l' := Schedule(s), l[1..] + [l[0]];
    TurnPasses(s, l);
    OneMore(s, n);
    if |l| > 1 { FirstDiffers(s, l); }
  }

  lemma OneMore(s: State, n: nat)
    requires Inv(s) && n > 0
    ensures Inv(Schedule(s)) && Schedules(s, n) == Schedules(Schedule(s), n - 1)
    ensures n == 1 ==> Schedules(s, n) == Schedule(s)
  {
    ScheduleKeeps(s);
  }

  lemma FirstDiffers(s: State, l: seq<Task>)
    requires Turn(s, l) && |l| > 1
    ensures l[1] != l[0]
  {
  }

  lemma Rotated(l: seq<Task>, n: nat)
    requires 0 < n <= |l|
    ensures var l' := l[1..] + [l[0]];
            (n == 1 ==> l[n..] + l[..n] == l') &&
            (n > 1 ==> l'[n - 2] == l[n - 1] && l'[n - 1..] + l'[..n - 1] == l[n..] + l[..n])
  {
  }

  lemma {:induction false} Stays(s: State, l: seq<Task>, n: nat)
    requires Turn(s, l) && s.current == l[0]
    ensures Schedules(s, n) == s
  {
    if n == 0 {
    } else {
      TurnKept(s, l);
      Stays(s, l, n - 1);
    }
  }

  predicate HasTurn(s: State, t: Task, n: nat)
    requires Inv(s)
  {
    exists k :: 0 < k <= n && Schedules(s, k).current == t
  }

  /** With nothing else going on, as many schedules as there are tasks on the most urgent list give
      each of them a turn, unless it is the first of several that runs at the outset. */
  lemma RoundRobin(s: State, l: seq<Task>)
    requires Turn(s, l)
    ensures (forall t :: t in l ==> HasTurn(s, t, |l|)) <==> s.current != l[0] || |l| == 1
  {
    if s.current == l[0] {
      if |l| > 1 {
        OthersWait(s, l, l[1], |l|);
        assert l[1] in l;
      } else {
        Stays(s, l, 1);
        assert HasTurn(s, l[0], 1);
      }
    } else {
      forall t | t in l ensures HasTurn(s, t, |l|) {
        var i :| 0 <= i < |l| && l[i] == t;
        InTurn(s, l, i + 1);
      }
    }
  }

  lemma OthersWait(s: State, l: seq<Task>, t: Task, n: nat)
    requires Turn(s, l) && s.current == l[0] && t != l[0]
    ensures !HasTurn(s, t, n)
  {
    forall k | 0 < k <= n ensures Schedules(s, k).current != t { Stays(s, l, k); }
  }

  // ---------------------------------------------------------------- a task that wakes itself

  /** Waking any task keeps the books. It keeps the shortcut right unless a task wakes itself while the
      shortcut is to no task as urgent. */
  lemma WakesOther(s: State, t: Task)
    requires Inv(s) && t in s.at
    ensures Books(Woken(s, t))
    ensures ShortcutOk(Woken(s, t)) <==> t != s.current || (s.imm.Some? && s.prio[s.imm.value] <= s.prio[t])
  {
    WokenBooks(s, t);
  }

  /** Then, when the task waits, the shortcut is to a task that cannot run, and if others can run it is
      this task that goes on. */
  lemma WakesItself(s: State, q: nat)
    requires Inv(s) && s.current != s.idle && !ShortcutOk(Woken(s, s.current)) && MAX_PRIO <= q < LISTS
    ensures var p := Parked(Woken(s, s.current), s.current, q);
            Books(p) && Schedule(p).imm == Some(s.current) && !Runnable(Schedule(p), s.current) &&
            Schedule(p).current == if s.nrp > 1 then s.current else s.idle
  {
    var w := Woken(s, s.current);
    WokenBooks(s, s.current);
    BookedBooks(w, s.current, q, true);
    assert Parked(w, s.current, q) == Booked(w, s.current, q, true);
  }

  // ---------------------------------------------------------------- right after start-up

  /** The state in which the first task runs after start-up. */
  ghost function Outset(main: Task, idle: Task, tasks: seq<(Task, nat)>, q: nat): State
    requires Fresh(main, idle, tasks) && tasks != [] && MAX_PRIO <= q < LISTS
  {
    AllStarting(main, idle, tasks);
    FirstScheduled(StartedAll(Booted(main, idle), tasks), q)
  }

  /** The parent is parked, and the first task started is waiting to run and nominated. */
  lemma OutsetParked(main: Task, idle: Task, tasks: seq<(Task, nat)>, q: nat)
    requires Fresh(main, idle, tasks) && tasks != [] && MAX_PRIO <= q < LISTS
    requires forall p :: p in tasks ==> tasks[0].1 <= p.1
    ensures var s0 := StartedAll(Booted(main, idle), tasks);
            Starting(s0) && s0.current == main && Listable(s0, main) &&
            var p := Parked(s0, main, q);
            Books(p) && Known(p) && ShortcutOk(p) && MostUrgent(p) &&
            Runnable(p, tasks[0].0) && p.imm == Some(tasks[0].0) &&
            forall k :: 0 <= k < MAX_PRIO ==> p.lists[k] == s0.lists[k]
  {
    AllStarting(main, idle, tasks);
    FirstNominated(main, idle, tasks);
    FirstParkedKeeps(StartedAll(Booted(main, idle), tasks), q);
  }

  /** If no task has a better priority than the first, it is the first that runs. */
  lemma OutsetFacts(main: Task, idle: Task, tasks: seq<(Task, nat)>, q: nat)
    requires Fresh(main, idle, tasks) && tasks != [] && MAX_PRIO <= q < LISTS
    requires forall p :: p in tasks ==> tasks[0].1 <= p.1
    ensures var s, s0 := Outset(main, idle, tasks, q), StartedAll(Booted(main, idle), tasks);
            Reached(s, main, idle, tasks, q, []) && Inv(s) && s.current == tasks[0].0 && s.current in s.at &&
            s.imm.None? &&
            forall k :: 0 <= k < MAX_PRIO ==> s.lists[k] == s0.lists[k]
  {
    OutsetParked(main, idle, tasks, q);
    AllStarting(main, idle, tasks);
    var p := Parked(StartedAll(Booted(main, idle), tasks), main, q);
    ScheduleKeeps(p);
    SomeRunnable(p);
  }

  lemma {:induction false} FirstNominated(main: Task, idle: Task, tasks: seq<(Task, nat)>)
    requires Fresh(main, idle, tasks) && tasks != [] && forall p :: p in tasks ==> tasks[0].1 <= p.1
    ensures var s := StartedAll(Booted(main, idle), tasks);
            s.imm == Some(tasks[0].0) && tasks[0].0 in s.prio && s.prio[tasks[0].0] == tasks[0].1
  {
    var n := |tasks| - 1;
    if n == 0 {
      assert tasks[..0] == [];
    } else {
      assert tasks[..n][0] == tasks[0];
      assert forall p :: p in tasks[..n] ==> p in tasks;
      FirstNominated(main, idle, tasks[..n]);
      assert tasks[n] in tasks;
    }
  }

  /** A task can wake itself with no shortcut set: the soft-irq task, right after start-up. */
  lemma WakesItselfFirst(main: Task, idle: Task, softIrq: Task, q: nat)
    requires Fresh(main, idle, [(softIrq, 1)]) && MAX_PRIO <= q < LISTS
    ensures var s := Outset(main, idle, [(softIrq, 1)], q);
            Reached(s, main, idle, [(softIrq, 1)], q, []) && s.current == softIrq && softIrq in s.at &&
            !ShortcutOk(Woken(s, softIrq))
  {
    OutsetFacts(main, idle, [(softIrq, 1)], q);
    WakesOther(Outset(main, idle, [(softIrq, 1)], q), softIrq);
  }

  /** The running task can be the first of several in its list: right after start-up, if a task of its
      priority was started after it. Then only this task ever runs. */
  lemma FirstStays(main: Task, idle: Task, a: Task, b: Task, q: nat)
    requires Fresh(main, idle, [(a, 1), (b, 1)]) && MAX_PRIO <= q < LISTS
    ensures var s := Outset(main, idle, [(a, 1), (b, 1)], q);
            Reached(s, main, idle, [(a, 1), (b, 1)], q, []) && s.current == a && Turn(s, [a, b]) &&
            forall n: nat :: !HasTurn(s, b, n)
  {
    FirstTurn(main, idle, a, b, [(a, 1), (b, 1)], q);
    forall n: nat ensures !HasTurn(Outset(main, idle, [(a, 1), (b, 1)], q), b, n) {
      OthersWait(Outset(main, idle, [(a, 1), (b, 1)], q), [a, b], b, n);
    }
  }

  lemma FirstTurn(main: Task, idle: Task, a: Task, b: Task, tasks: seq<(Task, nat)>, q: nat)
    requires tasks == [(a, 1), (b, 1)] && Fresh(main, idle, tasks) && MAX_PRIO <= q < LISTS
    ensures var s := Outset(main, idle, tasks, q);
            Reached(s, main, idle, tasks, q, []) && s.current == a && Turn(s, [a, b]) && a != b
  {
    OutsetFacts(main, idle, tasks, q);
    TwoStarted(main, idle, a, b);
    FirstIs(Outset(main, idle, tasks, q).lists, 0, 1);
    assert tasks[0].0 != tasks[1].0;
  }

  lemma TwoStarted(main: Task, idle: Task, a: Task, b: Task)
    ensures var s := StartedAll(Booted(main, idle), [(a, 1), (b, 1)]); s.lists[0] == [] && s.lists[1] == [a, b]
  {
    var one: seq<(Task, nat)>, two: seq<(Task, nat)> := [(a, 1)], [(a, 1), (b, 1)];
    var s0 := Booted(main, idle);
    assert one[..0] == [] && two[..1] == one;
    var s1 := Started(s0, a, 1);
    assert StartedAll(s0, one) == s1;
    assert StartedAll(s0, two) == Started(s1, b, 1);
  }
}
