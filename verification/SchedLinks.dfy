/**
  The code of core/sched.c and core/iostream.c on the rings of cmn/list.h: every list of the scheduler is
  a ring of links, all in one memory, and every call takes one step of the machine of Sched.
 */
module SchedLinks {
  import opened Common
  import opened Sched
  import ListHead

  type Ptr = ListHead.Ptr
  type Mem = ListHead.Mem

  // ---------------------------------------------------------------- all rings at once

  /** No list has an entry of another list, or a head. */
  ghost predicate Apart(heads: seq<Ptr>, ls: seq<seq<Task>>) {
    |heads| == |ls| == LISTS && NoDuplicates(heads) &&
    (forall q, r :: 0 <= q < LISTS && 0 <= r < LISTS ==> heads[r] !in ls[q]) &&
    (forall q, r, t :: 0 <= q < LISTS && 0 <= r < LISTS && q != r && t in ls[q] ==> t !in ls[r])
  }

  /** The ring around each head holds the tasks of its list, in order. */
  ghost predicate Rings(m: Mem, heads: seq<Ptr>, ls: seq<seq<Task>>) {
    Apart(heads, ls) && forall q :: 0 <= q < LISTS ==> ListHead.Ring(m, heads[q], ls[q])
  }

  predicate OnNone(ls: seq<seq<Task>>, t: Task) { forall r :: 0 <= r < |ls| ==> t !in ls[r] }

  /** Changing one list, and only its own links. */
  lemma OneRing(m: Mem, m': Mem, heads: seq<Ptr>, ls: seq<seq<Task>>, q: nat, l: seq<Task>)
    requires Rings(m, heads, ls) && q < LISTS && Apart(heads, ls[q := l]) && m.Keys <= m'.Keys
    requires ListHead.Ring(m', heads[q], l)
    requires forall x :: x in m && x != heads[q] && x !in ls[q] && x !in l ==> m'[x] == m[x]
    ensures Rings(m', heads, ls[q := l])
  {
    forall r | 0 <= r < LISTS && r != q ensures ListHead.Ring(m', heads[r], ls[r]) {
      assert ls[q := l][r] == ls[r];
      assert forall x :: x in ls[r] ==> x !in ls[q] && x !in ls[q := l][q] && x != heads[q];
      assert heads[r] !in ls[q] && heads[r] !in ls[q := l][q] && heads[r] != heads[q];
      ListHead.RingFrame(m, m', heads[r], ls[r]);
    }
  }

  /** list_del of a task takes it off its ring, and a second time changes nothing. */
  lemma DelRings(m: Mem, heads: seq<Ptr>, ls: seq<seq<Task>>, q: nat, t: Task)
    requires Rings(m, heads, ls) && q < LISTS && t in ls[q]
    ensures t in m && Rings(ListHead.Del(m, t), heads, ls[q := Remove(ls[q], t)])
    ensures t in ListHead.Del(m, t) && ListHead.Del(ListHead.Del(m, t), t) == ListHead.Del(m, t)
    ensures OnNone(ls[q := Remove(ls[q], t)], t) && t !in heads
    ensures forall x :: x in m && x !in heads && OnNone(ls, x) ==> ListHead.Del(m, t)[x] == m[x]
  {
    var a, b := RemoveSplit(ls[q], t);
    ListHead.DelRing(m, heads[q], a, t, b);
    ListHead.DelTwice(m, heads[q], a, t, b);
    ApartWithout(heads, ls, q, t);
    assert forall x :: x !in ls[q] ==> x !in a && x !in b;
    OneRing(m, ListHead.Del(m, t), heads, ls, q, Remove(ls[q], t));
  }

  lemma ApartWithout(heads: seq<Ptr>, ls: seq<seq<Task>>, q: nat, t: Task)
    requires Apart(heads, ls) && q < LISTS && t in ls[q] && NoDuplicates(ls[q])
    ensures var ls' := ls[q := Remove(ls[q], t)]; Apart(heads, ls') && OnNone(ls', t) && t !in heads
  {
    RemoveFacts(ls[q], t);
  }

  function Linked(m: Mem, t: Task, h: Ptr, last: bool): Mem
    requires h in m
  {
    if last then ListHead.AddTail(m, t, h) else ListHead.Add(m, t, h)
  }

  lemma AddRings(m: Mem, heads: seq<Ptr>, ls: seq<seq<Task>>, q: nat, t: Task, last: bool)
    requires Rings(m, heads, ls) && q < LISTS && t in m && t !in heads && OnNone(ls, t)
    ensures heads[q] in m && Rings(Linked(m, t, heads[q], last), heads, ls[q := Put(ls[q], t, last)])
    ensures forall x :: x in m && x !in heads && x != t && OnNone(ls, x) ==> Linked(m, t, heads[q], last)[x] == m[x]
  {
    PutFacts(ls[q], t, last);
    if last {
      ListHead.AddTailRing(m, heads[q], ls[q], t);
    } else {
      ListHead.AddRing(m, heads[q], ls[q], t);
    }
    OneRing(m, Linked(m, t, heads[q], last), heads, ls, q, Put(ls[q], t, last));
  }

  // ---------------------------------------------------------------- one task and the rings

  /** Once the task is unlinked, perhaps not for the first time, the rings hold the other tasks. */
  ghost predicate Ready(m: Mem, heads: seq<Ptr>, s: State, t: Task) {
    t in m && t !in heads && Listable(s, t) && Rings(ListHead.Del(m, t), heads, Unlisted(s, t)) &&
    OnNone(Unlisted(s, t), t)
  }

  /** A task on a list may be unlinked once or twice. */
  lemma ReadyListed(m: Mem, heads: seq<Ptr>, s: State, t: Task)
    requires Rings(m, heads, s.lists) && Queues(s) && t in s.at
    ensures Ready(m, heads, s, t) && Ready(ListHead.Del(m, t), heads, s, t)
  {
    DelRings(m, heads, s.lists, s.at[t], t);
  }

  /** A task that is linked to itself and on no list may be unlinked as well. */
  lemma ReadySelf(m: Mem, heads: seq<Ptr>, s: State, t: Task)
    requires Rings(m, heads, s.lists) && Queues(s) && t !in s.at && t !in heads && t in m &&
             m[t] == ListHead.Links(t, t)
    ensures Ready(m, heads, s, t)
  {
    ListHead.DelSelf(m, t);
  }

  /** Unlinking a task and linking it to a ring. */
  lemma MovedRings(m: Mem, heads: seq<Ptr>, s: State, t: Task, q: nat, last: bool)
    requires Ready(m, heads, s, t) && q < LISTS
    ensures heads[q] in ListHead.Del(m, t)
    ensures Rings(Linked(ListHead.Del(m, t), t, heads[q], last), heads, Moved(s, t, q, last).lists)
  {
    AddRings(ListHead.Del(m, t), heads, Unlisted(s, t), q, t, last);
  }

  // ---------------------------------------------------------------- the code

  /** The loop of next_task_ready_to_run. */
  method FirstRunList(m: Mem, heads: seq<Ptr>, ghost ls: seq<seq<Task>>) returns (p: nat)
    requires Rings(m, heads, ls)
    ensures p == First(ls, 0)
  {
    p := 0;
    while p < MAX_PRIO
      invariant 0 <= p <= MAX_PRIO && First(ls, 0) == First(ls, p)
    {
      ListHead.EmptyRing(m, heads[p], ls[p]);
      if m[heads[p]].next != heads[p] { break; }
      p := p + 1;
    }
  }

  class Scheduler {
    const heads: seq<Ptr>      // rq.hd, wq.hd and io_Q.io_wait_task
    const idle: Task
    var mem: Mem               // the links of the heads and of the tasks
    var current: Task
    var imm: Option<Task>
    var nrp: int
    var nwp: int
    var onrq: set<Task>
    var prio: map<Task, nat>
    ghost var lists: seq<seq<Task>>
    ghost var at: map<Task, nat>
    ghost var woken: set<Task>

    ghost predicate Valid()
      reads this
    {
      Rings(mem, heads, lists)
    }

    ghost function View(): State
      reads this
    {
      State(lists, current, idle, imm, nrp, nwp, onrq, prio, at, woken)
    }

    /** The task is linked to itself, as spawn_task leaves it, and on no list. */
    ghost predicate Alone(t: Task)
      reads this
    {
      t !in heads && t in mem && mem[t] == ListHead.Links(t, t) && OnNone(lists, t)
    }

    /** init_scheduler, init_io, create_parent_task and create_idle_task. */
    constructor (main: Task, idleTask: Task, heads: seq<Ptr>)
      requires |heads| == LISTS && NoDuplicates(heads) && main !in heads && idleTask !in heads && main != idleTask
      ensures Valid() && View() == Booted(main, idleTask) && Alone(main) && this.heads == heads
    {
      this.heads, idle, mem, current, imm := heads, idleTask, map[], main, None;
      nrp, nwp, onrq, prio := 0, 0, {}, map[];
      lists, at, woken := EmptyLists(), map[], {};
      new;
      InitLists();
      var _ := Spawn(main, 1, false);
      onrq := onrq + {main};
      CreateIdleTask();
    }

    method CreateIdleTask()
      requires Valid() && idle !in heads && idle != current && lists == EmptyLists() && at == map[] && imm.None?
      modifies this`mem, this`lists, this`at, this`nrp, this`onrq, this`imm, this`woken, this`prio
      ensures Valid() && (old(Alone(current)) ==> Alone(current))
      ensures View() == old(View()).(imm := Some(idle), nrp := old(nrp) + 1, onrq := old(onrq) + {idle},
                                     prio := old(prio)[idle := 19],
                                     woken := {})
    {
      var _ := Spawn(idle, 19, true);
      assert EmptyLists()[19] + [idle] == [idle];
      Delist();
    }

    /** list_del of the idle task, the only one on a list, which stays counted. */
    method Delist()
      requires Valid() && lists == EmptyLists()[19 := [idle]]
      modifies this`mem, this`lists, this`at, this`woken
      ensures Valid() && lists == EmptyLists() && at == map[] && woken == {}
      ensures forall x :: old(Alone(x)) ==> Alone(x)
    {
      DelRings(mem, heads, lists, 19, idle);
      assert Remove([idle], idle) == [];
      mem := ListHead.Del(mem, idle);
      lists := lists[19 := []];
      at, woken := map[], {};
    }

    method InitLists()
      requires |heads| == LISTS && NoDuplicates(heads) && lists == EmptyLists()
      modifies this`mem
      ensures Valid()
    {
      var i := 0;
      while i < LISTS
        invariant 0 <= i <= LISTS
        invariant forall q :: 0 <= q < i ==> heads[q] in mem && mem[heads[q]] == ListHead.Links(heads[q], heads[q])
      {
        mem := mem[heads[i] := ListHead.Links(heads[i], heads[i])];
        i := i + 1;
      }
    }

    /** spawn_task; a task without a function to run, as the parent task is, is not woken. The code does not
        test the priority: there is a run list for it or not, and then nothing is promised. */
    method Spawn(t: Task, p: nat, run: bool) returns (ok: bool)
      requires Valid() && t !in heads && OnNone(lists, t) && (imm.Some? ==> imm.value in prio)
      modifies this`mem, this`lists, this`at, this`nrp, this`onrq, this`imm, this`woken, this`prio
      ensures ok <==> !run || p < 20
      ensures ok ==> Valid()
      ensures ok ==>
                View() == if run then Started(old(View()), t, p) else old(View()).(prio := old(prio)[t := p])
      ensures !run ==> Alone(t)
      ensures forall x :: x != t && old(Alone(x)) ==> Alone(x)
    {
      ok := !run || p < MAX_PRIO;
      ghost var m := mem;
      mem := mem[t := ListHead.Links(t, t)];
      NewNode(m, heads, lists, t);
      prio := prio[t := p];
      if run && ok { WakeupNewTask(t); }
    }

    method WakeupNewTask(t: Task)
      requires Valid() && t !in heads && t in mem && OnNone(lists, t) && t in prio && prio[t] < MAX_PRIO &&
               (imm.Some? ==> imm.value in prio)
      modifies this`mem, this`lists, this`at, this`nrp, this`onrq, this`imm, this`woken
      ensures Valid() && View() == Started(old(View()), t, prio[t])
      ensures forall x :: x != t && old(Alone(x)) ==> Alone(x)
    {
      ghost var p := prio[t];
      AddRings(mem, heads, lists, p, t, true);
      mem := ListHead.AddTail(mem, t, heads[prio[t]]);
      lists := lists[p := lists[p] + [t]];
      at := at[t := p];
      onrq := onrq + {t};
      nrp := nrp + 1;
      Nominate(t);
      assert prio[t := p] == prio;
    }

    method Nominate(t: Task)
      requires t in prio && (imm.Some? ==> imm.value in prio)
      modifies this`imm, this`woken
      ensures View() == Nominated(old(View()), t)
    {
      if imm.Some? {
        if prio[imm.value] > prio[t] { imm := Some(t); }
      } else {
        imm := Some(t);
      }
      woken := woken + {t};
    }

    /** list_del, then list_add or list_add_tail. */
    method Move(t: Task, q: nat, last: bool)
      requires Ready(mem, heads, View(), t) && q < LISTS
      modifies this`mem, this`lists, this`at
      ensures Valid() && View() == Moved(old(View()), t, q, last)
    {
      ghost var s := View();
      MovedRings(mem, heads, s, t, q, last);
      mem := ListHead.Del(mem, t);
      if last {
        mem := ListHead.AddTail(mem, t, heads[q]);
      } else {
        mem := ListHead.Add(mem, t, heads[q]);
      }
      lists, at := Moved(s, t, q, last).lists, Moved(s, t, q, last).at;
    }

    method NextTaskReady() returns (next: Option<Task>)
      requires Valid() && Books(View())
      modifies this`mem, this`lists, this`at
      ensures Valid() && (View(), next) == NextReady(old(View()))
    {
      ghost var s := View();
      SomeRunnable(s);
      if nrp == 0 { return None; }
      var p := FirstRunList(mem, heads, lists);
      if p == MAX_PRIO { return None; }
      ListHead.EmptyRing(mem, heads[p], lists[p]);
      var t := mem[heads[p]].next;
      MovedBack(s, p);
      if t != current {
        ReadyListed(mem, heads, s, t);
        Move(t, prio[t], true);
      }
      return Some(t);
    }

    method NextEligibleTask() returns (next: Option<Task>)
      requires Valid() && Books(View())
      modifies this`mem, this`lists, this`at, this`imm
      ensures Valid() && (View(), next) == NextEligible(old(View()))
    {
      next := imm;
      if nrp == 0 { return Some(idle); }
      if next.Some? {
        if current != next.value { imm := None; }
      } else {
        next := NextTaskReady();
      }
    }

    /** schedule, which never finds no task at all to run. */
    method Reschedule()
      requires Valid() && Books(View()) && Known(View()) && ShortcutOk(View()) && MostUrgent(View())
      modifies this`mem, this`lists, this`at, this`imm, this`current, this`woken
      ensures Valid() && View() == Schedule(old(View())) && Inv(View())
    {
      EligibleFound(View());
      var next := NextEligibleTask();
      if current != next.value { current := next.value; }
      woken := {};
    }

    /** For any task; one that is not flagged as on a run list is reported and left alone. */
    method AddTaskToWaitQueue(t: Task)
      requires Valid() && (t in onrq ==> Ready(mem, heads, View(), t))
      modifies this`mem, this`lists, this`at, this`nrp, this`nwp, this`onrq
      ensures Valid() && View() == if t in old(onrq) then Parked(old(View()), t, WAIT) else old(View())
    {
      if t in onrq {
        Move(t, WAIT, true);
        nrp := nrp - 1;
        onrq := onrq - {t};
        nwp := nwp + 1;
      }
    }

    method AddTaskToIoWaitQueue(fd: nat)
      requires Ready(mem, heads, View(), current) && fd < MAX_FDS
      modifies this`mem, this`lists, this`at, this`nrp, this`nwp, this`onrq
      ensures Valid() && View() == Parked(old(View()), current, WAIT + 1 + fd)
    {
      Move(current, WAIT + 1 + fd, true);
      nrp := nrp - 1;
      nwp := nwp + 1;
      onrq := onrq - {current};
    }

    /** wait_on_fd, which does not test the descriptor. */
    method WaitOnFd(fd: int) returns (ok: bool)
      requires Valid() && Inv(View()) && current != idle
      modifies this
      ensures ok <==> 0 <= fd < 16
      ensures ok ==> Valid() && View() == Apply(old(View()), WaitOn(fd)) && Inv(View())
    {
      ok := 0 <= fd < MAX_FDS;
      if ok { WaitInQueue(fd); }
    }

    method WaitInQueue(fd: nat)
      requires Valid() && Inv(View()) && Allowed(View(), WaitOn(fd))
      modifies this
      ensures Valid() && View() == Apply(old(View()), WaitOn(fd)) && Inv(View())
    {
      ParkedKeeps(View(), WAIT + 1 + fd);
      ReadyListed(mem, heads, View(), current);
      AddTaskToIoWaitQueue(fd);
      Reschedule();
    }

    method WaitForEvent()
      requires Valid() && Inv(View()) && Allowed(View(), Block)
      modifies this
      ensures Valid() && View() == Apply(old(View()), Block) && Inv(View())
    {
      ParkedKeeps(View(), WAIT);
      ReadyListed(mem, heads, View(), current);
      AddTaskToWaitQueue(current);
      Reschedule();
    }

    /** The parent task waits for the first time, for an event or on a descriptor: it is on no list, and
        unlinking it changes nothing. */
    method FirstWait(q: nat)
      requires Valid() && Alone(current) && current in onrq && Starting(View()) && woken != {} && MAX_PRIO <= q < LISTS
      modifies this
      ensures Valid() && Inv(View()) && View() == FirstScheduled(old(View()), q)
    {
      FirstParkedKeeps(View(), q);
      ReadySelf(mem, heads, View(), current);
      if q == WAIT {
        AddTaskToWaitQueue(current);
      } else {
        AddTaskToIoWaitQueue(q - WAIT - 1);
      }
      Reschedule();
    }

    /** A task that is off the run lists may have been unlinked before. */
    method WakeupTask(t: Task)
      requires Books(View()) && t in at && (imm.Some? ==> imm.value in prio)
      requires if t in onrq then Valid() else Ready(mem, heads, View(), t)
      modifies this`mem, this`lists, this`at, this`nrp, this`nwp, this`onrq, this`imm, this`woken
      ensures Valid() && View() == Woken(old(View()), t)
    {
      if t !in onrq {
        Move(t, prio[t], false);
        onrq := onrq + {t};
        nrp := nrp + 1;
        nwp := nwp - 1;
      }
      Nominate(t);
    }

    /** wake_io_task, which does not test the descriptor either. */
    method WakeIoTask(fd: int) returns (ok: bool)
      requires Valid() && Inv(View())
      modifies this`mem, this`lists, this`at, this`nrp, this`nwp, this`onrq, this`imm, this`woken
      ensures ok <==> 0 <= fd < 16
      ensures ok ==> Valid() && View() == Apply(old(View()), WakeWaiting(fd)) && Inv(View())
    {
      ok := 0 <= fd < MAX_FDS;
      if ok { WakeWaiters(fd); }
    }

    /** Saves the link to the next task, as list_for_each_safe does, before the present one is unlinked
        and woken, which unlinks it again. */
    method WakeWaiters(fd: nat)
      requires Valid() && Inv(View()) && fd < MAX_FDS
      modifies this`mem, this`lists, this`at, this`nrp, this`nwp, this`onrq, this`imm, this`woken
      ensures Valid() && View() == Apply(old(View()), WakeWaiting(fd)) && Inv(View())
    {
      ghost var q, s0, ts, i := WAIT + 1 + fd, View(), lists[WAIT + 1 + fd], 0;
      WakingStart(mem, heads, s0, q);
      var head := heads[WAIT + 1 + fd];
      if mem[head].next != head {
        var p := mem[head].next;
        var n := SavedNext(mem, p, head, ts);
        while p != head
          invariant Waking(mem, heads, View(), s0, ts, i, q) && p == ListHead.First(ts[i..], head)
          invariant ts[i..] != [] ==> n == ListHead.First(ts[i..][1..], head)
          decreases |ts| - i
        {
          WakeWaiter(p, s0, ts, i, q);
          i := i + 1;
          p := n;
          n := SavedNext(mem, p, head, ts[i..]);
        }
      }
      WakingEnd(mem, heads, View(), s0, ts, i, fd);
    }

    /** The body of the loop. */
    method WakeWaiter(p: Task, ghost s0: State, ghost ts: seq<Task>, ghost i: nat, ghost q: nat)
      requires Waking(mem, heads, View(), s0, ts, i, q) && p == ListHead.First(ts[i..], heads[q]) && p != heads[q]
      modifies this`mem, this`lists, this`at, this`nrp, this`nwp, this`onrq, this`imm, this`woken
      ensures Waking(mem, heads, View(), s0, ts, i + 1, q) && ts[i..][1..] == ts[i + 1..]
    {
      ghost var s := View();
      WakingStep(s, s0, ts, i, q);
      ReadyListed(mem, heads, s, p);
      mem := ListHead.Del(mem, p);
      WakeupTask(p);
    }
  }

  /** Start-up as a whole, up to the first dispatch: the parent and the idle task are created, then the
      other tasks, and the parent waits. */
  method StartUp(main: Task, idle: Task, tasks: seq<(Task, nat)>, q: nat, heads: seq<Ptr>) returns (sched: Scheduler)
    requires |heads| == LISTS && NoDuplicates(heads)
    requires main !in heads && idle !in heads && forall p :: p in tasks ==> p.0 !in heads
    requires Fresh(main, idle, tasks) && tasks != [] && MAX_PRIO <= q < LISTS
    ensures fresh(sched) && sched.Valid() && sched.View() == Outset(main, idle, tasks, q) && Inv(sched.View())
  {
    sched := new Scheduler(main, idle, heads);
    var i := 0;
    while i < |tasks|
      invariant 0 <= i <= |tasks| && fresh(sched) && sched.heads == heads && sched.Valid() && sched.Alone(main) &&
                main in sched.onrq
      invariant sched.View() == StartedAll(Booted(main, idle), tasks[..i])
    {
      NextFresh(main, idle, tasks, i);
      var _ := sched.Spawn(tasks[i].0, tasks[i].1, true);
      i := i + 1;
    }
    assert tasks[..i] == tasks;
    AllStarting(main, idle, tasks);
    sched.FirstWait(q);
  }

  lemma NextFresh(main: Task, idle: Task, tasks: seq<(Task, nat)>, i: nat)
    requires Fresh(main, idle, tasks) && i < |tasks|
    ensures var s := StartedAll(Booted(main, idle), tasks[..i]);
            OnNone(s.lists, tasks[i].0) && tasks[i].0 != main && (s.imm.Some? ==> s.imm.value in s.prio) &&
            StartedAll(Booted(main, idle), tasks[..i + 1]) == Started(s, tasks[i].0, tasks[i].1)
  {
    var s := StartedAll(Booted(main, idle), tasks[..i]);
    assert tasks[..i + 1][..i] == tasks[..i];
    AllStarting(main, idle, tasks[..i]);
    NamesMore(tasks[..i + 1]);
    Unknown(s, tasks[i].0);
  }

  lemma Unknown(s: State, t: Task)
    requires Queues(s) && t !in s.at.Keys
    ensures OnNone(s.lists, t)
  {
  }

  lemma EligibleFound(s: State)
    requires Books(s) && Known(s) && ShortcutOk(s) && MostUrgent(s)
    ensures var (s', next) := NextEligible(s);
            next.Some? && Schedule(s) == s'.(current := next.value, woken := {}) && Inv(Schedule(s))
  {
    ScheduleKeeps(s);
    SomeRunnable(s);
  }

  /** The link that the loop saves. */
  method SavedNext(m: Mem, p: Ptr, head: Ptr, ghost ts: seq<Task>) returns (n: Ptr)
    requires ListHead.Ring(m, head, ts) && p == ListHead.First(ts, head)
    ensures ts != [] ==> n == ListHead.First(ts[1..], head)
  {
    if p != head { ListHead.SecondRing(m, head, ts); }
    n := m[p].next;
  }

  /** The invariant of the loop: `i` of the tasks have been woken. */
  ghost predicate Waking(m: Mem, heads: seq<Ptr>, s: State, s0: State, ts: seq<Task>, i: nat, q: nat) {
    Rings(m, heads, s.lists) && MAX_PRIO <= q < LISTS && i <= |ts| && s.lists[q] == ts[i..] &&
    Wakeable(s, ts[i..]) && Wakeable(s0, ts) && WokenAll(s, ts[i..]) == WokenAll(s0, ts)
  }

  lemma WakingStart(m: Mem, heads: seq<Ptr>, s: State, q: nat)
    requires Rings(m, heads, s.lists) && Inv(s) && MAX_PRIO <= q < LISTS
    ensures var ts := s.lists[q];
            Waking(m, heads, s, s, ts, 0, q) && ts[0..] == ts &&
            m[heads[q]].next == ListHead.First(ts, heads[q]) && (m[heads[q]].next == heads[q] <==> ts == [])
  {
    Asleep(s, q);
    ListHead.EmptyRing(m, heads[q], s.lists[q]);
    assert s.lists[q][0..] == s.lists[q];
  }

  /** The first task of a list of waiting tasks is off it once it is woken. */
  lemma WakingStep(s: State, s0: State, ts: seq<Task>, i: nat, q: nat)
    requires MAX_PRIO <= q < LISTS && i < |ts| && Wakeable(s, ts[i..]) && s.lists[q] == ts[i..]
    requires Wakeable(s0, ts) && WokenAll(s, ts[i..]) == WokenAll(s0, ts)
    ensures ts[i] in s.at && ts[i] !in s.onrq && ts[i..][1..] == ts[i + 1..]
    ensures var s' := Woken(s, ts[i]);
            s'.lists[q] == ts[i + 1..] && Wakeable(s', ts[i + 1..]) && WokenAll(s', ts[i + 1..]) == WokenAll(s0, ts)
  {
    assert s.lists[q][0] == ts[i];
    WokenNext(s, ts, i);
  }

  lemma WakingEnd(m: Mem, heads: seq<Ptr>, s: State, s0: State, ts: seq<Task>, i: nat, fd: nat)
    requires fd < MAX_FDS && Inv(s0) && ts == s0.lists[WAIT + 1 + fd] && Waking(m, heads, s, s0, ts, i, WAIT + 1 + fd)
    requires var h := heads[WAIT + 1 + fd]; ListHead.First(ts[i..], h) == h
    ensures s == Apply(s0, WakeWaiting(fd)) && Inv(s)
  {
    ApplyKeeps(s0, WakeWaiting(fd));
    assert ts[i..] == [];
  }

  lemma NewNode(m: Mem, heads: seq<Ptr>, ls: seq<seq<Task>>, t: Task)
    requires Rings(m, heads, ls) && t !in heads && OnNone(ls, t)
    ensures Rings(m[t := ListHead.Links(t, t)], heads, ls)
  {
    forall q | 0 <= q < LISTS ensures ListHead.Ring(m[t := ListHead.Links(t, t)], heads[q], ls[q]) {
      ListHead.RingFrame(m, m[t := ListHead.Links(t, t)], heads[q], ls[q]);
    }
  }
}
