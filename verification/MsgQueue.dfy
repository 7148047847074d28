/**
  The message queue of core/msg_queue.c as a monitor: each step below runs under the queue's mutex,
  and threads interleave between steps. A receiver that finds the queue empty waits on the
  condition variable; a signal wakes one or more of the waiting threads, and waits may also end
  spuriously. A thread that has been woken still has to take the mutex and look again.
 */
module MsgQueue {
  import opened Common
  import opened Pool

  /** sizeof (struct msg). */
  const MSG_SIZE := 24

  type Tid = nat

  datatype Node<P> = Node(addr: nat, msg: P)

  datatype Monitor<P> =
    | Monitor(
        ledger: Ledger, queue: seq<Node<P>>,
        blocked: set<Tid>,    // waiting, not yet woken
        woken: set<Tid>,      // woken, still to look again
        accepted: seq<P>, received: seq<P>)
    | Corrupt                 // after a release that breaks the pool

  datatype Step<P> =
    | Send(msg: P, signalled: set<Tid>)
    | Receive(t: Tid)     // a thread enters msg_rcv
    | Recheck(t: Tid)     // a woken thread has the mutex again
    | Spurious(t: Tid)

  /** msg_create_Q: the block size and the number of blocks go to mem_pool_create the other way
      round, so that there are as many blocks as a message node has bytes. */
  function Initial<P>(saddr: nat, maxmsg: nat): Monitor<P> {
    Monitor(Created(saddr, maxmsg * MSG_SIZE, MSG_SIZE), [], {}, {}, [], [])
  }

  /** A signal wakes at least one of the waiting threads, if there are any. */
  predicate Signals(blocked: set<Tid>, signalled: set<Tid>) {
    signalled <= blocked && (blocked != {} ==> signalled != {})
  }

  function Sent<P>(s: Monitor<P>, msg: P): Monitor<P>
    requires s.Monitor?
  {
    var (l, a) := Allocated(s.ledger);
    if a == NULL then s else s.(ledger := l, queue := s.queue + [Node(a, msg)], accepted := s.accepted + [msg])
  }

  /** What msg_rcv does once it has the mutex. */
  function Looked<P>(s: Monitor<P>, t: Tid): Monitor<P>
    requires s.Monitor?
  {
    if s.queue == [] then s.(blocked := s.blocked + {t}, woken := s.woken - {t})
    else if Breaks(s.ledger, s.queue[0].addr) then Corrupt
    else
      s.(ledger := Returned(s.ledger, s.queue[0].addr).0, queue := s.queue[1..],
         received := s.received + [s.queue[0].msg], woken := s.woken - {t})
  }

  /** A step that cannot happen in a state leaves it as it is. */
  function Apply<P>(s: Monitor<P>, step: Step<P>): Monitor<P> {
    if s.Corrupt? then Corrupt
    else
      match step
      case Send(msg, signalled) =>
        if Signals(s.blocked, signalled) then
          Sent(s, msg).(blocked := s.blocked - signalled, woken := s.woken + signalled)
        else s
      case Receive(t) => if t in s.blocked || t in s.woken then s else Looked(s, t)
      case Recheck(t) => if t in s.woken then Looked(s, t) else s
      case Spurious(t) => if t in s.blocked then s.(blocked := s.blocked - {t}, woken := s.woken + {t}) else s
  }

  function After<P>(s: Monitor<P>, steps: seq<Step<P>>): Monitor<P> {
    if steps == [] then s else Apply(After(s, steps[..|steps| - 1]), steps[|steps| - 1])
  }

  function Messages<P>(q: seq<Node<P>>): seq<P> { seq(|q|, i requires 0 <= i < |q| => q[i].msg) }

  /** The blocks that are out are exactly those of the queued messages, and can be given back. */
  ghost predicate Blocks<P>(s: Monitor<P>) {
    s.Monitor? && Balanced(s.ledger) && Roomy(s.ledger) && Returning(s.ledger) && |s.queue| == s.ledger.useblks &&
    (forall i :: 0 <= i < |s.queue| ==> Outstanding(s.ledger, s.queue[i].addr)) &&
    (forall i, j :: 0 <= i < j < |s.queue| ==> s.queue[i].addr != s.queue[j].addr)
  }

  /** What has been received and what is queued, in that order, is what has been accepted. */
  predicate Fifo<P(==)>(s: Monitor<P>) { s.Monitor? ==> s.received + Messages(s.queue) == s.accepted }

  /** While some receiver is left blocked, every queued message has a woken receiver coming. */
  predicate Awake<P>(s: Monitor<P>) {
    s.Monitor? ==> s.blocked !! s.woken && (s.blocked != {} ==> |s.queue| <= |s.woken|)
  }

  ghost predicate Inv<P>(s: Monitor<P>) { Blocks(s) && Fifo(s) && Awake(s) }

  // ---------------------------------------------------------------- order and wakeups, for any pool

  lemma SentFifo<P>(s: Monitor<P>, msg: P)
    requires s.Monitor? && Fifo(s)
    ensures var s' := Sent(s, msg);
            Fifo(s') && s'.blocked == s.blocked && s'.woken == s.woken && |s.queue| <= |s'.queue| <= |s.queue| + 1
  {
    var (l, a) := Allocated(s.ledger);
    if a != NULL {
      assert Messages(s.queue + [Node(a, msg)]) == Messages(s.queue) + [msg];
      Grouping(s.received, Messages(s.queue), [msg]);
    }
  }

  lemma LookedFifo<P>(s: Monitor<P>, t: Tid)
    requires s.Monitor? && Fifo(s)
    ensures Fifo(Looked(s, t))
  {
    if s.queue != [] {
      assert Messages(s.queue) == [s.queue[0].msg] + Messages(s.queue[1..]);
      Grouping(s.received, [s.queue[0].msg], Messages(s.queue[1..]));
    }
  }

  lemma WokenMore(woken: set<Tid>, signalled: set<Tid>)
    requires woken !! signalled
    ensures |woken + signalled| == |woken| + |signalled|
  {
  }

  lemma ApplyOrder<P>(s: Monitor<P>, step: Step<P>)
    requires s.Monitor? && Fifo(s) && Awake(s)
    ensures Fifo(Apply(s, step)) && Awake(Apply(s, step))
  {
    match step
    case Send(msg, signalled) =>
      SentFifo(s, msg);
      if Signals(s.blocked, signalled) { WokenMore(s.woken, signalled); }
    case Receive(t) => LookedFifo(s, t);
    case Recheck(t) => LookedFifo(s, t);
    case Spurious(t) => if t in s.blocked { WokenMore(s.woken, {t}); }
  }

  lemma {:induction false} RunOrder<P>(s: Monitor<P>, steps: seq<Step<P>>)
    requires Fifo(s) && Awake(s)
    ensures Fifo(After(s, steps)) && Awake(After(s, steps))
  {
    if steps == [] {
    } else {
      var p := After(s, steps[..|steps| - 1]);
      RunOrder(s, steps[..|steps| - 1]);
      if p.Monitor? { ApplyOrder(p, steps[|steps| - 1]); }
    }
  }

  /** The pool has a block to hand out. */
  predicate HasBlock(l: Ledger) { l.fblks != 0 && exists i :: 0 <= i < |l.slots| && l.slots[i] != NULL }

  /** What a step brings: the message of a send, if it can happen and there is a block for it. */
  function Brings<P>(s: Monitor<P>, step: Step<P>): seq<P> {
    match step
    case Send(msg, signalled) =>
      if s.Monitor? && Signals(s.blocked, signalled) && HasBlock(s.ledger) then [msg] else []
    case _ => []
  }

  /** The messages that the sends of a run have brought, in their order. */
  function Brought<P>(s: Monitor<P>, steps: seq<Step<P>>): seq<P> {
    if steps == [] then []
    else
      var n := |steps| - 1;
      Brought(s, steps[..n]) + Brings(After(s, steps[..n]), steps[n])
  }

  lemma StepBrings<P>(s: Monitor<P>, step: Step<P>)
    requires s.Monitor?
    ensures Apply(s, step).Monitor? ==> Apply(s, step).accepted == s.accepted + Brings(s, step)
  {
    if step.Send? { BlockOrNone(s.ledger); }
  }

  lemma BlockOrNone(l: Ledger)
    ensures Allocated(l).1 != NULL <==> HasBlock(l)
  {
    var k := FirstFree(l.slots, 0);
    if k < |l.slots| { assert l.slots[k] != NULL; }
  }

  /** What counts as accepted is what the sends have brought. */
  lemma {:induction false} AcceptedIsBrought<P>(saddr: nat, maxmsg: nat, steps: seq<Step<P>>)
    ensures var s := After(Initial<P>(saddr, maxmsg), steps);
            s.Monitor? ==> s.accepted == Brought(Initial(saddr, maxmsg), steps)
  {
    if steps == [] {
    } else {
      var n := |steps| - 1;
      AcceptedIsBrought(saddr, maxmsg, steps[..n]);
      var p := After(Initial<P>(saddr, maxmsg), steps[..n]);
      if p.Monitor? { StepBrings(p, steps[n]); }
    }
  }

  /** A thread enters msg_rcv. */
  predicate Enters<P>(s: Monitor<P>, step: Step<P>) {
    s.Monitor? && step.Receive? && step.t !in s.blocked && step.t !in s.woken
  }

  function Entered<P>(s: Monitor<P>, steps: seq<Step<P>>): nat {
    if steps == [] then 0
    else
      var n := |steps| - 1;
      Entered(s, steps[..n]) + if Enters(After(s, steps[..n]), steps[n]) then 1 else 0
  }

  /** The threads that have received a message, wait, or have been woken. */
  function Receivers<P>(s: Monitor<P>): nat
    requires s.Monitor?
  {
    |s.received| + |s.blocked| + |s.woken|
  }

  lemma LookedReceivers<P>(s: Monitor<P>, t: Tid)
    requires s.Monitor? && s.blocked !! s.woken && t !in s.blocked && Looked(s, t).Monitor?
    ensures Receivers(Looked(s, t)) == Receivers(s) + if t in s.woken then 0 else 1
  {
    if t in s.woken {
      MoveOver(s.woken, s.blocked, {t});
    } else {
      assert s.woken - {t} == s.woken;
    }
  }

  lemma SentReceivers<P>(s: Monitor<P>, msg: P, signalled: set<Tid>)
    requires s.Monitor? && s.blocked !! s.woken && Signals(s.blocked, signalled)
    ensures Apply(s, Send(msg, signalled)).Monitor? && Receivers(Apply(s, Send(msg, signalled))) == Receivers(s)
  {
    MoveOver(s.blocked, s.woken, signalled);
  }

  lemma StepReceivers<P>(s: Monitor<P>, step: Step<P>)
    requires s.Monitor? && s.blocked !! s.woken && Apply(s, step).Monitor?
    ensures Receivers(Apply(s, step)) == Receivers(s) + if Enters(s, step) then 1 else 0
  {
    match step
    case Send(msg, signalled) => if Signals(s.blocked, signalled) { SentReceivers(s, msg, signalled); }
    case Receive(t) => if Enters(s, step) { LookedReceivers(s, t); }
    case Recheck(t) => if t in s.woken { LookedReceivers(s, t); }
    case Spurious(t) => if t in s.blocked { MoveOver(s.blocked, s.woken, {t}); }
  }

  lemma MoveOver(a: set<Tid>, b: set<Tid>, m: set<Tid>)
    requires a !! b && m <= a
    ensures |a - m| + |b + m| == |a| + |b| && |a - m| == |a| - |m|
  {
    assert a == (a - m) + m;
    WokenMore(b, m);
  }

  /** Over every run, each thread that has entered msg_rcv has one message, or waits, or has been woken. */
  lemma {:induction false} ReceiversConserved<P>(saddr: nat, maxmsg: nat, steps: seq<Step<P>>)
    ensures var s := After(Initial<P>(saddr, maxmsg), steps);
            s.Monitor? ==> Receivers(s) == Entered(Initial(saddr, maxmsg), steps)
  {
    if steps == [] {
    } else {
      var n := |steps| - 1;
      ReceiversConserved(saddr, maxmsg, steps[..n]);
      RunOrder(Initial<P>(saddr, maxmsg), steps[..n]);
      var p := After(Initial<P>(saddr, maxmsg), steps[..n]);
      if p.Monitor? && Apply(p, steps[n]).Monitor? { StepReceivers(p, steps[n]); }
    }
  }

  /** No wakeup is lost, and messages stay in order: after every run that has not broken the pool, if some
      receiver is still blocked, the messages in the queue are no more than the receivers that have been
      woken and are still to look; and what was received, followed by what is queued, is what the sends
      have brought. */
  lemma NoLostWakeup<P>(saddr: nat, maxmsg: nat, steps: seq<Step<P>>)
    requires maxmsg > 0
    ensures var s := After(Initial<P>(saddr, maxmsg), steps);
            s.Monitor? ==>
              (s.blocked != {} ==> |s.queue| <= |s.woken|) &&
              s.received + Messages(s.queue) == Brought(Initial(saddr, maxmsg), steps)
  {
    RunOrder(Initial<P>(saddr, maxmsg), steps);
    AcceptedIsBrought(saddr, maxmsg, steps);
  }

  // ---------------------------------------------------------------- the blocks

  lemma SentKeeps<P>(s: Monitor<P>, msg: P)
    requires Blocks(s)
    ensures var s' := Sent(s, msg);
            Blocks(s') && |s'.ledger.slots| == |s.ledger.slots| && (s' == s <==> |s.queue| == |s.ledger.slots|)
  {
    AllocExact(s.ledger);
  }

  /** Taking a message releases its block, which always succeeds. */
  lemma LookedKeeps<P>(s: Monitor<P>, t: Tid)
    requires Blocks(s)
    ensures var s' := Looked(s, t);
            Blocks(s') && |s'.ledger.slots| == |s.ledger.slots| &&
            (s.queue != [] ==> Returned(s.ledger, s.queue[0].addr).1.Freed? && s'.queue == s.queue[1..])
  {
    if s.queue != [] {
      FreeExact(s.ledger, s.queue[0].addr);
      OutReturns(s.ledger, s.queue[0].addr);
    }
  }

  lemma ApplyKeeps<P>(s: Monitor<P>, step: Step<P>)
    requires Inv(s)
    ensures var s' := Apply(s, step); Inv(s') && |s'.ledger.slots| == |s.ledger.slots|
  {
    ApplyOrder(s, step);
    match step
    case Send(msg, signalled) => SentKeeps(s, msg);
    case Receive(t) => LookedKeeps(s, t);
    case Recheck(t) => LookedKeeps(s, t);
    case Spurious(t) =>
  }

  lemma {:induction false} RunInv<P>(s: Monitor<P>, steps: seq<Step<P>>)
    requires Inv(s)
    ensures var s' := After(s, steps); Inv(s') && |s'.ledger.slots| == |s.ledger.slots|
  {
    if steps == [] {
    } else {
      RunInv(s, steps[..|steps| - 1]);
      ApplyKeeps(After(s, steps[..|steps| - 1]), steps[|steps| - 1]);
    }
  }

  // ---------------------------------------------------------------- messages reach the receivers

  /** A thread looks at the queue: it enters msg_rcv, or has been woken and has the mutex again. */
  predicate Looks<P>(s: Monitor<P>, step: Step<P>, t: Tid)
    requires s.Monitor?
  {
    (step == Receive(t) && t !in s.blocked && t !in s.woken) || (step == Recheck(t) && t in s.woken)
  }

  /** It takes the first message, and if there is none it waits. */
  lemma TakesFirst<P>(s: Monitor<P>, step: Step<P>, t: Tid)
    requires Blocks(s) && Looks(s, step, t)
    ensures var s' := Apply(s, step);
            s'.Monitor? &&
            if s.queue != [] then
              s'.queue == s.queue[1..] && s'.received == s.received + [s.queue[0].msg] &&
              s'.blocked == s.blocked && s'.woken == s.woken - {t}
            else t in s'.blocked && s'.received == s.received
  {
    LookedKeeps(s, t);
    assert Apply(s, step) == Looked(s, t);
  }

  /** A wait that ends spuriously makes the thread look again. */
  lemma SpuriousLooks<P>(s: Monitor<P>, t: Tid)
    requires s.Monitor? && t in s.blocked
    ensures var s' := Apply(s, Spurious(t)); s'.Monitor? && Looks(s', Recheck(t), t) && t !in s'.blocked
  {
  }

  function Rechecks<P>(ts: seq<Tid>): (steps: seq<Step<P>>)
    ensures |steps| == |ts|
  {
    seq(|ts|, i requires 0 <= i < |ts| => Recheck(ts[i]))
  }

  /** From every state in which some receiver is still blocked, the receivers that have been woken empty the
      queue by looking at it: no message is left over. */
  lemma {:induction false} WokenEmpty<P>(s: Monitor<P>) returns (ts: seq<Tid>)
    requires Inv(s) && s.blocked != {}
    ensures |ts| == |s.queue| && (forall t :: t in ts ==> t in s.woken)
    ensures var s' := After(s, Rechecks(ts));
            s'.Monitor? && s'.queue == [] && s'.received == s.received + Messages(s.queue)
    decreases |s.queue|
  {
    if s.queue == [] {
      ts := [];
      assert s.received + [] == s.received;
    } else {
      var t :| t in s.woken;
      var s1 := Apply(s, Recheck(t));
      TakesFirst(s, Recheck(t), t);
      ApplyKeeps(s, Recheck(t));
      var rest := WokenEmpty(s1);
      ts := [t] + rest;
      FirstRecheck(s, t, rest, ts);
      assert Messages(s.queue) == [s.queue[0].msg] + Messages(s.queue[1..]);
      Grouping(s.received, [s.queue[0].msg], Messages(s.queue[1..]));
    }
  }

  lemma FirstRecheck<P>(s: Monitor<P>, t: Tid, rest: seq<Tid>, ts: seq<Tid>)
    requires ts == [t] + rest
    ensures After(s, Rechecks(ts)) == After(Apply(s, Recheck(t)), Rechecks(rest))
  {
    assert Rechecks<P>(ts) == [Recheck(t)] + Rechecks(rest);
    StepFirst(s, Recheck(t), Rechecks(rest));
  }

  lemma {:induction false} StepFirst<P>(s: Monitor<P>, step: Step<P>, steps: seq<Step<P>>)
    ensures After(s, [step] + steps) == After(Apply(s, step), steps)
    decreases |steps|
  {
    if steps == [] {
      assert ([step] + steps)[..0] == [] && After(s, []) == s;
    } else {
      var n := |steps| - 1;
      StepFirst(s, step, steps[..n]);
      assert ([step] + steps)[..|steps|] == [step] + steps[..n];
    }
  }

  /** Few enough messages for the size of the pool to fit. */
  predicate Fits(maxmsg: nat) { maxmsg * MSG_SIZE * MSG_SIZE < UINT }

  /** The blocks of the messages lie in the memory of the queue's pool, exactly then. */
  lemma FitsIff(saddr: nat, maxmsg: nat)
    requires maxmsg > 0
    ensures var l := Initial<int>(saddr, maxmsg).ledger;
            (forall i :: 0 <= i < MSG_SIZE ==> BlockAddr(l, i) + l.size <= l.eaddr) <==> Fits(maxmsg)
  {
    var size := maxmsg * MSG_SIZE;
    BlocksFitIff(saddr, size, MSG_SIZE);
    assert Initial<int>(saddr, maxmsg).ledger == Created(saddr, size, MSG_SIZE);
    assert size * MSG_SIZE + ALIGNMENT <= UINT <==> Fits(maxmsg);
  }

  /** Few enough for the offset of the last block to be an int: up to 3890368. */
  predicate Recycles(maxmsg: nat) { maxmsg * MSG_SIZE * (MSG_SIZE - 1) < INT }

  /** Every block of the pool can be given back, exactly then. */
  lemma RecyclesIff(maxmsg: nat)
    requires maxmsg > 0
    ensures Returnable(maxmsg * MSG_SIZE, MSG_SIZE) <==> Recycles(maxmsg)
    ensures Recycles(maxmsg) <==> maxmsg <= 3890368
  {
    if (UINT - 1) % (maxmsg * MSG_SIZE) == 0 {
      WholeBlocks(UINT - 1, maxmsg * MSG_SIZE);
      Even((UINT - 1) / (maxmsg * MSG_SIZE), maxmsg);
    }
  }

  lemma Even(k: nat, m: nat)
    ensures (k * (m * MSG_SIZE)) % 2 == 0
  {
    assert k * (m * MSG_SIZE) == 2 * (k * (m * (MSG_SIZE / 2)));
  }

  lemma InitialInv<P>(saddr: nat, maxmsg: nat)
    requires saddr > 0 && maxmsg > 0 && Recycles(maxmsg)
    ensures Inv(Initial<P>(saddr, maxmsg)) && |Initial<P>(saddr, maxmsg).ledger.slots| == MSG_SIZE
  {
    CreatedBalanced(saddr, maxmsg * MSG_SIZE, MSG_SIZE);
    RoomyIff(saddr, maxmsg * MSG_SIZE, MSG_SIZE);
    RecyclesIff(maxmsg);
    RoundedIff(maxmsg * MSG_SIZE * MSG_SIZE);
  }

  /** What a step brings if 24 messages fit the queue. */
  function BringsUpTo24<P>(s: Monitor<P>, step: Step<P>): seq<P> {
    match step
    case Send(msg, signalled) =>
      if s.Monitor? && Signals(s.blocked, signalled) && |s.queue| < MSG_SIZE then [msg] else []
    case _ => []
  }

  function BroughtUpTo24<P>(s: Monitor<P>, steps: seq<Step<P>>): seq<P> {
    if steps == [] then []
    else
      var n := |steps| - 1;
      BroughtUpTo24(s, steps[..n]) + BringsUpTo24(After(s, steps[..n]), steps[n])
  }

  lemma {:induction false} SameBrought<P>(saddr: nat, maxmsg: nat, steps: seq<Step<P>>)
    requires saddr > 0 && maxmsg > 0 && Recycles(maxmsg)
    ensures Brought(Initial<P>(saddr, maxmsg), steps) == BroughtUpTo24(Initial<P>(saddr, maxmsg), steps)
  {
    if steps == [] {
    } else {
      var n := |steps| - 1;
      SameBrought(saddr, maxmsg, steps[..n]);
      RoomLeft(saddr, maxmsg, steps[..n]);
    }
  }

  lemma RoomLeft<P>(saddr: nat, maxmsg: nat, steps: seq<Step<P>>)
    requires saddr > 0 && maxmsg > 0 && Recycles(maxmsg)
    ensures var s := After(Initial<P>(saddr, maxmsg), steps);
            s.Monitor? && (HasBlock(s.ledger) <==> |s.queue| < MSG_SIZE)
  {
    InitialInv<P>(saddr, maxmsg);
    RunInv(Initial<P>(saddr, maxmsg), steps);
    var l := After(Initial<P>(saddr, maxmsg), steps).ledger;
    OutAll(l.slots);
    AllocExact(l);
    BlockOrNone(l);
  }

  /** First in, first out, and no block leaks: after every run, the messages received followed by those
      queued are those of the sends that found fewer than 24 queued, and the pool has as many blocks out as
      there are messages queued. */
  lemma Conserved<P>(saddr: nat, maxmsg: nat, steps: seq<Step<P>>)
    requires saddr > 0 && maxmsg > 0 && Recycles(maxmsg)
    ensures var s := After(Initial<P>(saddr, maxmsg), steps);
            s.Monitor? && s.received + Messages(s.queue) == BroughtUpTo24(Initial(saddr, maxmsg), steps) &&
            |s.queue| == s.ledger.useblks && |s.queue| <= MSG_SIZE
  {
    InitialInv<P>(saddr, maxmsg);
    RunInv(Initial<P>(saddr, maxmsg), steps);
    OutAll(After(Initial<P>(saddr, maxmsg), steps).ledger.slots);
    AcceptedIsBrought(saddr, maxmsg, steps);
    SameBrought(saddr, maxmsg, steps);
  }

  /** A message is dropped exactly when 24 are queued, whatever `maxmsg` of these was asked for. */
  lemma DroppedWhenFull<P>(saddr: nat, maxmsg: nat, steps: seq<Step<P>>, msg: P)
    requires saddr > 0 && maxmsg > 0 && Recycles(maxmsg)
    ensures var s := After(Initial<P>(saddr, maxmsg), steps);
            s.Monitor? && (Sent(s, msg) == s <==> |s.queue| == MSG_SIZE)
  {
    InitialInv<P>(saddr, maxmsg);
    RunInv(Initial<P>(saddr, maxmsg), steps);
    SentKeeps(After(Initial<P>(saddr, maxmsg), steps), msg);
  }

  // ---------------------------------------------------------------- a block that is lost

  /** So many messages are sent, so many are received, and then some more are sent. */
  function Traffic<P>(msg: P, sends: nat, receives: nat, more: nat): (steps: seq<Step<P>>)
    ensures |steps| == sends + receives + more
  {
    seq(sends + receives + more, i => if sends <= i < sends + receives then Receive(0) else Send(msg, {}))
  }

  /** No receiver waits, and the messages from `k` to `n` are queued in the blocks of these numbers. */
  ghost predicate Queued<P>(s: Monitor<P>, l0: Ledger, k: nat, n: nat) {
    s.Monitor? && s.blocked == {} && s.woken == {} && k <= n && |s.queue| == n - k &&
    forall i :: 0 <= i < n - k ==> s.queue[i].addr == BlockAddr(l0, k + i)
  }

  lemma {:induction false} SendsFill<P>(saddr: nat, maxmsg: nat, msg: P, k: nat)
    requires saddr > 0 && k <= MSG_SIZE
    ensures var s, l := After(Initial(saddr, maxmsg), Traffic(msg, k, 0, 0)), Initial<P>(saddr, maxmsg).ledger;
            Queued(s, l, 0, k) && FirstOut(l, s.ledger, k)
  {
    if k == 0 {
    } else {
      SendsFill(saddr, maxmsg, msg, k - 1);
      assert Traffic(msg, k, 0, 0)[..k - 1] == Traffic(msg, k - 1, 0, 0);
      var s, l := After(Initial(saddr, maxmsg), Traffic(msg, k - 1, 0, 0)), Initial<P>(saddr, maxmsg).ledger;
      SentFills(s, l, msg, k - 1);
      assert Apply(s, Send(msg, {})) == Sent(s, msg);
    }
  }

  lemma SentFills<P>(s: Monitor<P>, l: Ledger, msg: P, k: nat)
    requires Queued(s, l, 0, k) && FirstOut(l, s.ledger, k) && k < |l.slots| && l.saddr > 0
    ensures Queued(Sent(s, msg), l, 0, k + 1) && FirstOut(l, Sent(s, msg).ledger, k + 1)
  {
    NextOut(l, s.ledger, k);
  }

  /** The books while messages are received: no more blocks have come back than messages have gone, and not
      the last block. */
  ghost predicate Receiving(l0: Ledger, l: Ledger, k: nat) {
    SameShape(l0, l) && l.fblks + l.useblks == MSG_SIZE && MSG_SIZE - k <= l.useblks <= MSG_SIZE && l.useblks >= 1
  }

  ghost predicate Loses<P>(s: Monitor<P>, l0: Ledger, k: nat) {
    match s
    case Monitor(l, _, _, _, _, _) => Queued(s, l0, k, MSG_SIZE) && Receiving(l0, l, k)
    case Corrupt => true
  }

  lemma {:induction false} ReceivesLose<P>(saddr: nat, maxmsg: nat, msg: P, k: nat)
    requires saddr > 0 && maxmsg > 0 && !Recycles(maxmsg) && k <= MSG_SIZE
    ensures Loses(After(Initial(saddr, maxmsg), Traffic(msg, MSG_SIZE, k, 0)), Initial<P>(saddr, maxmsg).ledger, k)
  {
    if k == 0 {
      SendsFill(saddr, maxmsg, msg, MSG_SIZE);
    } else {
      ReceivesLose(saddr, maxmsg, msg, k - 1);
      assert Traffic(msg, MSG_SIZE, k, 0)[..MSG_SIZE + k - 1] == Traffic(msg, MSG_SIZE, k - 1, 0);
      var s, l := After(Initial(saddr, maxmsg), Traffic(msg, MSG_SIZE, k - 1, 0)), Initial<P>(saddr, maxmsg).ledger;
      if s.Monitor? {
        if k == MSG_SIZE { LastStuck(saddr, maxmsg, s.ledger); }
        LookedLoses(s, l, k - 1);
        assert Apply(s, Receive(0)) == Looked(s, 0);
      }
    }
  }

  lemma LookedLoses<P>(s: Monitor<P>, l: Ledger, k: nat)
    requires k < MSG_SIZE && s.Monitor? && Loses(s, l, k)
    requires k == MSG_SIZE - 1 ==> !Returned(s.ledger, BlockAddr(l, k)).1.Freed?
    ensures Loses(Looked(s, 0), l, k + 1)
  {
    assert s.queue[0].addr == BlockAddr(l, k + 0);
  }

  lemma LastStuck(saddr: nat, maxmsg: nat, l: Ledger)
    requires maxmsg > 0 && !Recycles(maxmsg) && SameShape(Initial<int>(saddr, maxmsg).ledger, l)
    ensures !Returned(l, BlockAddr(l, MSG_SIZE - 1)).1.Freed?
  {
    RecyclesIff(maxmsg);
    RoomyIff(saddr, maxmsg * MSG_SIZE, MSG_SIZE);
    RoundedIff(maxmsg * MSG_SIZE * MSG_SIZE);
    Stuck(l, MSG_SIZE - 1);
  }

  /** Once 24 messages have been sent and received, a block is missing though no message is queued. */
  lemma BlockLost<P>(saddr: nat, maxmsg: nat, msg: P)
    requires saddr > 0 && maxmsg > 0 && !Recycles(maxmsg)
    ensures var s := After(Initial(saddr, maxmsg), Traffic(msg, MSG_SIZE, MSG_SIZE, 0));
            s.Monitor? ==> s.queue == [] && s.ledger.useblks >= 1
  {
    ReceivesLose(saddr, maxmsg, msg, MSG_SIZE);
  }

  ghost predicate AlwaysBalanced<P(!new)>(saddr: nat, maxmsg: nat) {
    forall steps: seq<Step<P>> :: BalancedAt(After(Initial(saddr, maxmsg), steps))
  }

  predicate BalancedAt<P>(s: Monitor<P>) { s.Monitor? && |s.queue| == s.ledger.useblks }

  /** Over every run a block is out for each queued message, exactly if the last offset is an int. */
  lemma ConservedIff<P(!new)>(saddr: nat, maxmsg: nat, msg: P)
    requires saddr > 0 && maxmsg > 0
    ensures AlwaysBalanced<P>(saddr, maxmsg) <==> Recycles(maxmsg)
  {
    if Recycles(maxmsg) {
      forall steps: seq<Step<P>> ensures BalancedAt(After(Initial(saddr, maxmsg), steps)) {
        Conserved(saddr, maxmsg, steps);
      }
    } else {
      BlockLost(saddr, maxmsg, msg);
      assert !BalancedAt(After(Initial(saddr, maxmsg), Traffic(msg, MSG_SIZE, MSG_SIZE, 0)));
    }
  }

  /** From then on, the queue takes at most 23 messages. */
  lemma {:induction false} SendsDrop<P>(saddr: nat, maxmsg: nat, msg: P, k: nat)
    requires saddr > 0 && maxmsg > 0 && !Recycles(maxmsg) && k < MSG_SIZE
    ensures var s := After(Initial(saddr, maxmsg), Traffic(msg, MSG_SIZE, MSG_SIZE, k));
            s.Monitor? ==> s.blocked == {} && |s.queue| <= k && 0 <= s.ledger.fblks &&
                           (Allocated(s.ledger).1 == NULL || s.ledger.fblks < MSG_SIZE - k)
  {
    if k == 0 {
      ReceivesLose(saddr, maxmsg, msg, MSG_SIZE);
    } else {
      SendsDrop(saddr, maxmsg, msg, k - 1);
      assert Traffic(msg, MSG_SIZE, MSG_SIZE, k)[..2 * MSG_SIZE + k - 1] == Traffic(msg, MSG_SIZE, MSG_SIZE, k - 1);
    }
  }

  lemma DroppedEarly<P>(saddr: nat, maxmsg: nat, msg: P)
    requires saddr > 0 && maxmsg > 0 && !Recycles(maxmsg)
    ensures var s := After(Initial(saddr, maxmsg), Traffic(msg, MSG_SIZE, MSG_SIZE, MSG_SIZE - 1));
            s.Monitor? ==> Sent(s, msg) == s && |s.queue| < MSG_SIZE
  {
    SendsDrop(saddr, maxmsg, msg, MSG_SIZE - 1);
  }

  /** With no messages asked for, all blocks are empty, and receiving a message divides by zero. */
  lemma NoneAsked<P>(saddr: nat, msg: P)
    requires saddr > 0
    ensures After(Initial(saddr, 0), Traffic(msg, 1, 1, 0)) == Corrupt
  {
    SendsFill(saddr, 0, msg, 1);
    assert Traffic(msg, 1, 1, 0)[..1] == Traffic(msg, 1, 0, 0);
  }
}
