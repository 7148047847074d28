/**
  The hand-over of expired timers from the ticking thread to the service thread: the expired list,
  the event word that evt_snd and evt_rx share, and the loop that runs the handlers. The two
  threads interleave at the steps below; a wait on a condition variable may end spuriously.
 */
module BottomHalf {
  import opened Common

  /** The bit of TMR_SERVE_TIMERS in an event word; a word is the set of its bits. */
  const SERVE := 0

  datatype Ticker = Idle | MustSend

  /** Where the service thread is. `more` says that the node it is at had a successor when the
      loop moved there, which is when list_for_each_safe looks. */
  datatype Server =
    | Checking              // in evt_rx, about to test the word
    | Waiting               // in pthread_cond_wait
    | Serving               // has taken the event
    | Draining(more: bool)  // in process_expd_timers, at the first node

  datatype State<I> = State(
    word: set<nat>, ticker: Ticker, server: Server,
    expired: seq<I>, ran: seq<I>,
    put: seq<I>)            // all timers ever put on the expired list, in order

  datatype Step<I> =
    | Expire(q: seq<I>, moved: bool)  // a tick puts `q` on the list, or moves timers between wheels
    | Send                            // evt_snd by the ticker
    | SendOther(bits: set<nat>)       // evt_snd by someone else
    | Check | Spurious | Begin | Visit

  function Initial<I>(): State<I> { State({}, Idle, Checking, [], [], []) }

  /** evt_snd: set the bits and signal. */
  function Sent<I>(s: State<I>, bits: set<nat>): State<I> {
    s.(word := s.word + bits, server := if s.server.Waiting? then Checking else s.server)
  }

  /** A step that cannot happen in a state leaves it as it is. */
  function Apply<I(==)>(s: State<I>, step: Step<I>): State<I> {
    match step
    case Expire(q, moved) =>
      if s.ticker.Idle? && Fresh(s, q) then
        s.(expired := s.expired + q, put := s.put + q, ticker := if q != [] || moved then MustSend else Idle)
      else s
    case Send => if s.ticker.MustSend? then Sent(s, {SERVE}).(ticker := Idle) else s
    case SendOther(bits) => Sent(s, bits - {SERVE})
    case Check =>
      if !s.server.Checking? then s
      else if SERVE in s.word then s.(word := {}, server := Serving)
      else s.(server := Waiting)
    case Spurious => if s.server.Waiting? then s.(server := Checking) else s
    case Begin =>
      if s.server.Serving? then s.(server := if s.expired == [] then Checking else Draining(|s.expired| > 1)) else s
    case Visit =>
      if s.server.Draining? && s.expired != [] then
        s.(ran := s.ran + [s.expired[0]], expired := s.expired[1..],
           server := if s.server.more then Draining(|s.expired| > 2) else Checking)
      else s
  }

  /** Each timer expires once. */
  predicate Fresh<I(==)>(s: State<I>, q: seq<I>) {
    (forall i :: 0 <= i < |q| ==> q[i] !in s.put) && (forall i, j :: 0 <= i < j < |q| ==> q[i] != q[j])
  }

  function After<I(==)>(steps: seq<Step<I>>): State<I> {
    if steps == [] then Initial() else Apply(After(steps[..|steps| - 1]), steps[|steps| - 1])
  }

  /** Someone is going to make the server look at the list. */
  predicate Announced<I>(s: State<I>) { SERVE in s.word || s.ticker.MustSend? }

  predicate Inv<I(==)>(s: State<I>) {
    s.ran + s.expired == s.put && (forall i, j :: 0 <= i < j < |s.put| ==> s.put[i] != s.put[j]) &&
    match s.server
    case Checking => s.expired != [] ==> Announced(s)
    case Waiting => SERVE !in s.word && (s.expired != [] ==> s.ticker.MustSend?)
    case Serving => true
    case Draining(more) =>
      s.expired != [] && (more ==> |s.expired| > 1) && (!more && |s.expired| > 1 ==> Announced(s))
  }

  lemma ApplyKeeps<I>(s: State<I>, step: Step<I>)
    requires Inv(s)
    ensures Inv(Apply(s, step))
  {
    match step
    case Expire(q, moved) =>
      if s.ticker.Idle? && Fresh(s, q) {
        Grouping(s.ran, s.expired, q);
        FreshPut(s.put, q);
      }
    case Visit => if s.expired != [] { Grouping(s.ran, [s.expired[0]], s.expired[1..]); }
    case _ =>
  }

  lemma FreshPut<I>(p: seq<I>, q: seq<I>)
    requires (forall i, j :: 0 <= i < j < |p| ==> p[i] != p[j]) && (forall i, j :: 0 <= i < j < |q| ==> q[i] != q[j])
    requires forall i :: 0 <= i < |q| ==> q[i] !in p
    ensures forall i, j :: 0 <= i < j < |p + q| ==> (p + q)[i] != (p + q)[j]
  {
    forall i, j | 0 <= i < j < |p + q| ensures (p + q)[i] != (p + q)[j] {
      if i < |p| <= j { assert p[i] in p && (p + q)[j] == q[j - |p|]; }
    }
  }

  /** No expired timer is stranded. After every run, whenever the list is not empty and the server
      is not working on it, the event is pending or the ticker is about to send it; the server
      never sleeps on a pending event. Handlers have run once each, in the order of expiry. */
  lemma {:induction false} NoneStranded<I>(steps: seq<Step<I>>)
    ensures Inv(After(steps))
  {
    if steps == [] {
    } else {
      NoneStranded(steps[..|steps| - 1]);
      ApplyKeeps(After(steps[..|steps| - 1]), steps[|steps| - 1]);
    }
  }

  // ---------------------------------------------------------------- the server gets everything done

  /** The next step of the service thread by itself. */
  function OwnStep<I>(s: State<I>): Step<I> {
    if s.server.Draining? then Visit else if s.server.Serving? then Begin else Check
  }

  function Own<I(==)>(s: State<I>): State<I> { Apply(s, OwnStep(s)) }

  function Owns<I(==)>(s: State<I>, n: nat): State<I>
    decreases n
  {
    if n == 0 then s else Owns(Own(s), n - 1)
  }

  function Phase(server: Server): nat {
    match server case Waiting => 3 case Checking => 2 case Serving => 1 case Draining(_) => 0
  }

  lemma OwnKeeps<I>(s: State<I>)
    requires Inv(s)
    ensures Inv(Own(s)) && Own(s).put == s.put && Own(s).ticker == s.ticker
  {
    ApplyKeeps(s, OwnStep(s));
  }

  /** Once the ticker has sent its event, the service thread needs no help to run all handlers. */
  lemma {:induction false} AllHandled<I>(s: State<I>) returns (n: nat)
    requires Inv(s) && s.ticker.Idle?
    ensures Owns(s, n).expired == [] && Owns(s, n).ran == s.put
    decreases |s.expired|, Phase(s.server)
  {
    if s.expired == [] {
      n := 0;
      assert s.ran + [] == s.ran;
    } else {
      OwnKeeps(s);
      n := AllHandled(Own(s));
      n := n + 1;
    }
  }

  lemma AllHandledAfter<I>(steps: seq<Step<I>>)
    requires After(steps).ticker.Idle?
    ensures exists n: nat :: Owns(After(steps), n).ran == After(steps).put
  {
    NoneStranded(steps);
    var n := AllHandled(After(steps));
  }

  /** And then it sleeps, until the next event. */
  lemma Rests<I>(s: State<I>) returns (n: nat)
    requires Inv(s) && s.ticker.Idle?
    ensures Owns(s, n).server.Waiting? && Owns(s, n).ran == s.put && SERVE !in Owns(s, n).word
  {
    n := AllHandled(s);
    OwnsKeep(s, n);
    var k := Settles(Owns(s, n));
    OwnsMore(s, n, k);
    n := n + k;
  }

  lemma {:induction false} OwnsKeep<I>(s: State<I>, n: nat)
    requires Inv(s)
    ensures Inv(Owns(s, n)) && Owns(s, n).put == s.put && Owns(s, n).ticker == s.ticker
    decreases n
  {
    if n == 0 {
    } else {
      OwnKeeps(s);
      OwnsKeep(Own(s), n - 1);
    }
  }

  lemma {:induction false} OwnsMore<I>(s: State<I>, n: nat, k: nat)
    ensures Owns(Owns(s, n), k) == Owns(s, n + k)
    decreases n
  {
    if n == 0 {
    } else {
      OwnsMore(Own(s), n - 1, k);
    }
  }

  /** With nothing on the list, the server looks at the word at most twice. */
  lemma Settles<I>(s: State<I>) returns (k: nat)
    requires Inv(s) && s.expired == []
    ensures Owns(s, k).server.Waiting? && Owns(s, k).ran == s.ran && SERVE !in Owns(s, k).word
  {
    match s.server
    case Waiting => k := 0;
    case Checking => k := Looks(s);
    case Serving =>
      k := Looks(Own(s));
      k := k + 1;
  }

  lemma Looks<I>(s: State<I>) returns (k: nat)
    requires s.server.Checking? && s.expired == []
    ensures Owns(s, k).server.Waiting? && Owns(s, k).ran == s.ran && SERVE !in Owns(s, k).word
  {
    if SERVE in s.word { k := Thrice(s); } else { k := Once(s); }
  }

  lemma Once<I>(s: State<I>) returns (k: nat)
    requires s.server.Checking? && SERVE !in s.word
    ensures k == 1 && Owns(s, k) == s.(server := Waiting)
  {
    k := 1;
    assert Owns(Own(s), 0) == Own(s);
  }

  lemma Thrice<I>(s: State<I>) returns (k: nat)
    requires s.server.Checking? && SERVE in s.word && s.expired == []
    ensures k == 3 && Owns(s, k) == s.(word := {}, server := Waiting)
  {
    var s1 := Own(s);
    var s2 := Own(s1);
    k := Once(s2);
    k := 3;
    assert Owns(s1, 2) == Owns(s2, 1);
  }

  /** What is sent stays in the word until the server takes the event; a wait that ends spuriously makes the
      server look again. */
  lemma WordKept<I>(s: State<I>, step: Step<I>)
    ensures var s' := Apply(s, step);
            (s.word <= s'.word || (step.Check? && s.server.Checking? && SERVE in s.word && s'.server.Serving?)) &&
            (step.SendOther? ==> step.bits - {SERVE} <= s'.word) &&
            (step.Send? && s.ticker.MustSend? ==> SERVE in s'.word && s'.ticker.Idle?) &&
            (step.Spurious? && s.server.Waiting? ==> s'.server.Checking?)
  {
  }
}
