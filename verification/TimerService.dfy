/**
  The timer service as the program runs it: global state that start_timer, del_timer, update_times
  and process_expd_timers change in place. Every call takes one step of the machine of TimerRun,
  so that what is proved of all its runs holds of all sequences of calls.
 */
module TimerService {
  import opened Common
  import opened RbTree
  import opened RbLinks
  import opened PackedTime
  import opened TimerModel
  import opened TimerRun
  import opened TimerHistory
  import opened TimerTables

  /** The global variables: the clocks, the timers and their wheels, their count, and the expired
      timers whose handlers have not run yet. */
  datatype Globals = Globals(clk: Clock, tables: Tables, count: nat, expd: seq<Ptr>)

  /** What the globals stand for: the shapes of the trees, the state of the machine of TimerRun, and the
      run that has led there. */
  datatype Meaning = Meaning(trees: Trees, st: State<Ptr>, ops: seq<Op<Ptr>>)

  class Service {
    const rate: nat
    var g: Globals
    ghost var m: Meaning

    ghost predicate Valid()
      reads this
    {
      Sound(rate, g, m)
    }

    /** init_timer_mgr on zeroed globals. */
    constructor (rate: nat)
      requires 0 < rate <= 0x400
      ensures Valid() && m.ops == [] && this.rate == rate
    {
      this.rate := rate;
      g := Globals(Clock(0, 0, 0, 0), Tables(map[], [NULL, NULL, NULL, NULL], map[], map[]), 0, []);
      m := Meaning([Leaf, Leaf, Leaf, Leaf], Initial(), []);
      new;
      RunInv<Ptr>(rate, []);
    }

    /** start_timer; `p` is the block that the allocator hands out, new or freed before. */
    method StartTimer(p: Ptr, ticks: nat) returns (ok: bool)
      requires Valid() && p != NULL && Available(m.st, p)
      modifies this
      ensures Valid() && m.ops == old(m.ops) + [Forget(p), Start(p, ticks)] && g.clk == old(g.clk)
      ensures ok == (old(g.count) <= 2000)
      ensures if ok then p in m.st.born && m.st.born[p] == Birth(g.clk.tick, ticks) && g.count == old(g.count) + 1
              else g == old(g)
    {
      ok, g, m := Admit(p, ticks, rate, g, m);
    }

    /** del_timer; a timer that is not running is left alone. Once its handler has run, the record of a timer
        is freed, and may not be passed any more. */
    method DelTimer(p: Ptr)
      requires Valid() && p in m.st.born && p !in m.st.ran
      modifies this
      ensures Valid() && m.ops == old(m.ops) + [Delete(p)] && g.clk == old(g.clk)
      ensures if p in old(m.st).active then
                p in m.st.deleted && p !in m.st.active && g.count == old(g.count) - 1
              else g == old(g)
    {
      g, m := Cancel(p, rate, g, m);
    }

    /** update_times: advance the clocks and, if any timer could be due, serve the wheels. The
        result tells whether the bottom half has been sent its event; `q` are the timers that
        have expired, in order. */
    method UpdateTimes() returns (sent: bool, ghost q: seq<Ptr>)
      requires Valid()
      modifies this
      ensures Valid() && m.ops == old(m.ops) + [Tick(q)]
      ensures g.clk.tick == old(g.clk).tick + 1 && g.expd == old(g.expd) + q
      ensures rate > 0 && Enumerates(q, DueNext(old(m.st), rate))
      ensures sent <==> Touched(g.clk, rate, old(m.st).active) != {}
    {
      g, m, sent, q := TickOnce(rate, g, m);
    }

    /** One round of the loop of process_expd_timers; between two rounds, timers may be started, deleted and
        expire. */
    method ProcessNext() returns (p: Ptr)
      requires Valid() && g.expd != []
      modifies this
      ensures Valid() && m.ops == old(m.ops) + [Handle] && p == old(g.expd)[0] && g.expd == old(g.expd)[1..]
      ensures m.st.ran == old(m.st).ran + [p] && g.tables == old(g.tables) && g.clk == old(g.clk)
    {
      p := g.expd[0];
      HandleMatches(rate, g.clk, g.tables, m.trees, g.count, g.expd, m.st);
      Extended(rate, m.ops, Handle);
      g, m := g.(expd := g.expd[1..]), m.(st := Apply(m.st, rate, Handle), ops := m.ops + [Handle]);
    }

    /** process_expd_timers, when nothing is added meanwhile: the handlers of all expired timers
        run, in order, and nothing else changes. */
    method ProcessExpired() returns (ran: seq<Ptr>)
      requires Valid()
      modifies this
      ensures Valid() && m.ops == old(m.ops) + Handles(|ran|) && g.expd == [] && ran == old(g.expd)
      ensures m.st == old(m.st).(expired := [], ran := old(m.st).ran + ran)
    {
      ran, g, m := Drain(rate, g, m);
    }

    /** What is proved of all runs holds of the service: every timer that is not deleted expires exactly at
        its fire time, and the clocks tell the number of ticks taken. */
    lemma Exact()
      requires Valid()
      ensures rate > 0 && AllExact(m.st, rate) && m.st.active == Live(g.tables, m.trees) && m.st.clock == g.clk
      ensures g.clk.tick == TicksTaken(rate, m.ops) && g.clk.sec == g.clk.tick / rate &&
              g.clk.min == g.clk.tick / (60 * rate) && g.clk.hr == g.clk.tick / (3600 * rate)
    {
      AllFireExactly(rate, m.ops);
      ClockCounts(rate, m.ops);
      NoneMissed(rate, m.ops);
    }
  }

  /** The block is in use by no timer. One started for a duration that wraps to nothing is never freed. */
  predicate Available(st: State<Ptr>, p: Ptr) { p !in st.born || Freed(st, p) }

  function Handles(n: nat): (ops: seq<Op<Ptr>>)
    ensures |ops| == n
  {
    if n == 0 then [] else Handles(n - 1) + [Handle]
  }

  lemma Extended(rate: nat, ops: seq<Op<Ptr>>, op: Op<Ptr>)
    requires rate > 0
    ensures TimerRun.After(rate, ops + [op]) == Apply(TimerRun.After(rate, ops), rate, op)
  {
    assert (ops + [op])[..|ops|] == ops;
  }

  /** The handlers of the timers `ran` have run, and nothing else has changed. */
  ghost predicate Drained(rate: nat, g0: Globals, m0: Meaning, g: Globals, m: Meaning, ran: seq<Ptr>) {
    Sound(rate, g, m) && m.ops == m0.ops + Handles(|ran|) && g0.expd == ran + g.expd &&
    m.st == m0.st.(expired := g.expd, ran := m0.st.ran + ran)
  }

  lemma DrainStart(rate: nat, g: Globals, m: Meaning)
    requires Sound(rate, g, m)
    ensures Drained(rate, g, m, g, m, [])
  {
    assert m.ops + [] == m.ops && [] + g.expd == g.expd && m.st.ran + [] == m.st.ran;
  }

  lemma DrainNext(rate: nat, g0: Globals, m0: Meaning, g: Globals, m: Meaning, ran: seq<Ptr>)
    requires Drained(rate, g0, m0, g, m, ran) && g.expd != []
    ensures rate > 0
    ensures var g', m' := g.(expd := g.expd[1..]), m.(st := Apply(m.st, rate, Handle), ops := m.ops + [Handle]);
            Drained(rate, g0, m0, g', m', ran + [g.expd[0]])
  {
    HandleMatches(rate, g.clk, g.tables, m.trees, g.count, g.expd, m.st);
    Extended(rate, m.ops, Handle);
    PopHead(ran, g.expd);
    Grouping(m0.st.ran, ran, [g.expd[0]]);
    MoreHandles(m0.ops, |ran|);
  }

  lemma MoreHandles(ops: seq<Op<Ptr>>, n: nat)
    ensures ops + Handles(n) + [Handle] == ops + Handles(n + 1)
  {
  }

  /** The loop of process_expd_timers. */
  method Drain(rate: nat, g0: Globals, ghost m0: Meaning) returns (ran: seq<Ptr>, g: Globals, ghost m: Meaning)
    requires Sound(rate, g0, m0)
    ensures Drained(rate, g0, m0, g, m, ran) && g.expd == [] && ran == g0.expd
  {
    ran, g, m := [], g0, m0;
    DrainStart(rate, g, m);
    while g.expd != []
      invariant Drained(rate, g0, m0, g, m, ran)
      decreases |g.expd|
    {
      DrainNext(rate, g0, m0, g, m, ran);
      ran := ran + [g.expd[0]];
      g := g.(expd := g.expd[1..]);
      m := m.(st := Apply(m.st, rate, Handle), ops := m.ops + [Handle]);
    }
    assert ran + [] == ran;
  }

  ghost predicate Matches(rate: nat, clk: Clock, tb: Tables, ts: Trees, count: nat, expd: seq<Ptr>, st: State<Ptr>) {
    0 < rate <= 0x400 && Kept(tb, ts, st.born.Keys) &&
    st.clock == clk && st.active == Live(tb, ts) && st.expired == expd && st.count == count && Inv(st, rate)
  }

  ghost predicate Sound(rate: nat, g: Globals, m: Meaning) {
    Matches(rate, g.clk, g.tables, m.trees, g.count, g.expd, m.st) && m.st == TimerRun.After(rate, m.ops)
  }

  /** One call of start_timer: it fails when alloc_timer_id does. */
  method Admit(p: Ptr, ticks: nat, rate: nat, g: Globals, ghost m: Meaning)
    returns (ok: bool, g': Globals, ghost m': Meaning)
    requires Sound(rate, g, m) && p != NULL && Available(m.st, p)
    ensures Sound(rate, g', m') && m'.ops == m.ops + [Forget(p), Start(p, ticks)] && g'.clk == g.clk
    ensures ok == (g.count <= MAX_TIMERS)
    ensures if ok then p in m'.st.born && m'.st.born[p] == Birth(g.clk.tick, ticks) && g'.count == g.count + 1
            else g' == g
  {
    ghost var st := Apply(m.st, rate, Forget(p));
    ForgetMatches(rate, g.clk, g.tables, m.trees, g.count, g.expd, m.st, p);
    Extended(rate, m.ops, Forget(p));
    Extended(rate, m.ops + [Forget(p)], Start(p, ticks));
    assert m.ops + [Forget(p)] + [Start(p, ticks)] == m.ops + [Forget(p), Start(p, ticks)];
    ok, g' := g.count <= MAX_TIMERS, g;
    m' := m.(st := Apply(st, rate, Start(p, ticks)), ops := m.ops + [Forget(p), Start(p, ticks)]);
    StartTaken(st, rate, p, ticks);
    if ok {
      var tb;
      ghost var ts;
      tb, ts := Enter(p, ticks, rate, g.clk, g.tables, m.trees, st.born.Keys);
      StartMatches(rate, g.clk, g.tables, m.trees, g.count, g.expd, st, p, ticks, tb, ts);
      g', m' := g.(tables := tb, count := g.count + 1), m'.(trees := ts);
    }
  }

  lemma ForgetMatches(rate: nat, clk: Clock, tb: Tables, ts: Trees, count: nat, expd: seq<Ptr>, st: State<Ptr>, p: Ptr)
    requires Matches(rate, clk, tb, ts, count, expd, st) && Available(st, p)
    ensures var s' := Apply(st, rate, Forget(p));
            Matches(rate, clk, tb, ts, count, expd, s') && p !in s'.born && p !in Live(tb, ts)
  {
    ApplyKeeps(st, rate, Forget(p));
    if p in st.ran { assert p in st.ran + st.expired; }
  }

  lemma StartMatches(rate: nat, clk: Clock, tb: Tables, ts: Trees, count: nat, expd: seq<Ptr>, st: State<Ptr>, p: Ptr,
                     d: nat, tb': Tables, ts': Trees)
    requires Matches(rate, clk, tb, ts, count, expd, st) && p !in st.born && count <= MAX_TIMERS
    requires Kept(tb', ts', st.born.Keys + {p})
    requires var placed := Begin(clk, rate, d);
             Live(tb', ts') == if placed.Some? then Live(tb, ts)[p := placed.value] else Live(tb, ts)
    ensures Matches(rate, clk, tb', ts', count + 1, expd, Apply(st, rate, Start(p, d)))
  {
    ApplyKeeps(st, rate, Start(p, d));
    StartLive(st, rate, p, d);
  }

  /** The tables are sound and hold the timers ever started. */
  ghost predicate Kept(tb: Tables, ts: Trees, born: set<Ptr>) {
    Stored(tb, ts) && Flagged(tb, ts, {}) && born <= tb.apps.Keys && NULL !in born
  }

  /** What start_timer does to the state, when it does not fail. */
  lemma StartLive(s: State<Ptr>, rate: nat, p: Ptr, d: nat)
    requires rate > 0 && p !in s.born && s.count <= MAX_TIMERS
    ensures var s', placed := Apply(s, rate, Start(p, d)), Begin(s.clock, rate, d);
            s'.active == (if placed.Some? then s.active[p := placed.value] else s.active) &&
            s'.clock == s.clock && s'.expired == s.expired && s'.count == s.count + 1 &&
            s'.born.Keys == s.born.Keys + {p}
  {
  }

  /** A fresh record of a timer that is on no wheel yet. */
  function Registered(tb: Tables, p: Ptr, app: App): Tables { tb.(rt := tb.rt[p := 0], apps := tb.apps[p := app]) }

  lemma Register(p: Ptr, app: App, tb: Tables, ts: Trees)
    requires Stored(tb, ts) && Flagged(tb, ts, {}) && p !in Live(tb, ts) && !app.running
    ensures var tb1 := Registered(tb, p, app);
            p !in AllNodes(ts) && Stored(tb1, ts) && Flagged(tb1, ts, {}) && SameBut(tb, ts, tb1, ts, p) &&
            Live(tb1, ts) == Live(tb, ts)
  {
    RegisterStored(p, app, tb, ts);
    LiveBut(tb, ts, Registered(tb, p, app), ts, p);
    assert Live(tb, ts) - {p} == Live(tb, ts);
  }

  lemma RegisterStored(p: Ptr, app: App, tb: Tables, ts: Trees)
    requires Stored(tb, ts) && Flagged(tb, ts, {}) && p !in Live(tb, ts) && !app.running
    ensures var tb1 := Registered(tb, p, app);
            p !in AllNodes(ts) && Stored(tb1, ts) && Flagged(tb1, ts, {}) && SameBut(tb, ts, tb1, ts, p)
  {
    LiveKeys(tb, ts);
    StoredUpdate(tb, ts, p, 0, app);
  }

  /** calc_time on a new record, and its first placing. */
  method Enter(p: Ptr, ticks: nat, rate: nat, c: Clock, tb: Tables, ghost ts: Trees, ghost born: set<Ptr>)
    returns (tb': Tables, ghost ts': Trees)
    requires 0 < rate <= 0x400 && Kept(tb, ts, born) && p != NULL && p !in Live(tb, ts)
    ensures Kept(tb', ts', born + {p})
    ensures var placed := Begin(c, rate, ticks);
            Live(tb', ts') == if placed.Some? then Live(tb, ts)[p := placed.value] else Live(tb, ts)
  {
    var app := App(Pack(ticks, rate), TICK, c.tick + ticks, false);
    var tb1 := Registered(tb, p, app);
    Register(p, app, tb, ts);
    NewTimer(tb, p, ticks, rate, c);
    tb', ts' := PlaceNew(p, c, tb1, ts);
  }

  lemma NewTimer(tb: Tables, p: Ptr, ticks: nat, rate: nat, c: Clock)
    requires 0 < rate <= 0x400
    ensures var app := App(Pack(ticks, rate), TICK, c.tick + ticks, false);
            var tb1 := Registered(tb, p, app);
            app.ctime < WORD && p in tb1.apps && tb1.apps[p] == app && p in tb1.rt &&
            tb1.apps.Keys == tb.apps.Keys + {p} &&
            Place(c, TimerOf(tb1, p)) == Begin(c, rate, ticks)
  {
    PackFields(ticks, rate);
    var tb1 := Registered(tb, p, App(Pack(ticks, rate), TICK, c.tick + ticks, false));
    assert TimerOf(tb1, p) == Timer(Units(ticks, rate), TICK, 0, c.tick + ticks);
  }

  method PlaceNew(p: Ptr, c: Clock, tb: Tables, ghost ts: Trees) returns (tb': Tables, ghost ts': Trees)
    requires Stored(tb, ts) && Flagged(tb, ts, {}) && p != NULL && p !in AllNodes(ts) && p in tb.apps &&
             tb.apps[p].ctime < WORD
    ensures Stored(tb', ts') && Flagged(tb', ts', {}) && tb'.apps.Keys == tb.apps.Keys
    ensures var placed := Place(c, TimerOf(tb, p));
            Live(tb', ts') == if placed.Some? then Live(tb, ts)[p := placed.value] else Live(tb, ts)
  {
    tb', ts' := FindSlotAndPlace(p, c, tb, ts);
    var placed := Place(c, TimerOf(tb, p));
    if placed.Some? {
      PlaceKeeps(c, TimerOf(tb, p));
      PlacedBut(tb, ts, tb', ts', p, placed.value);
      ServedBut(tb, ts, tb, ts, tb', ts', p);
    }
  }

  lemma PlaceKeeps(c: Clock, tm: Timer)
    ensures Place(c, tm).Some? ==>
            Place(c, tm).value == tm.(wheel := Place(c, tm).value.wheel, rt := Place(c, tm).value.rt)
  {
  }

  // ---------------------------------------------------------------- deletion

  method IsRunning(p: Ptr, tb: Tables, ghost ts: Trees, ghost born: set<Ptr>) returns (b: bool)
    requires Kept(tb, ts, born) && p in born
    ensures b <==> p in Live(tb, ts)
  {
    LiveKeys(tb, ts);
    b := tb.apps[p].running;
  }

  method StopTimer(p: Ptr, tb: Tables, ghost ts: Trees, ghost born: set<Ptr>) returns (tb': Tables, ghost ts': Trees)
    requires Kept(tb, ts, born) && p in Live(tb, ts)
    ensures Kept(tb', ts', born) && Live(tb', ts') == Live(tb, ts) - {p}
  {
    LiveKeys(tb, ts);
    var tb1;
    tb1, ts' := Detach(p, tb, ts);
    DetachedNodes(tb, ts, ts', tb.apps[p].wheel, p);
    tb' := tb1.(apps := tb1.apps[p := tb1.apps[p].(running := false)]);
    Unflagged(tb1, ts', p);
    ServedBut(tb, ts, tb1, ts', tb', ts', p);
  }

  lemma Unflagged(tb: Tables, ts: Trees, p: Ptr)
    requires Stored(tb, ts) && p !in AllNodes(ts) && p in tb.apps && p in tb.rt
    ensures var tb' := tb.(apps := tb.apps[p := tb.apps[p].(running := false)]);
            Stored(tb', ts) && SameBut(tb, ts, tb', ts, p) && tb'.apps.Keys == tb.apps.Keys
  {
    StoredUpdate(tb, ts, p, tb.rt[p], tb.apps[p].(running := false));
    assert tb.rt[p := tb.rt[p]] == tb.rt;
  }

  method Cancel(p: Ptr, rate: nat, g: Globals, ghost m: Meaning) returns (g': Globals, ghost m': Meaning)
    requires Sound(rate, g, m) && p in m.st.born
    ensures Sound(rate, g', m') && m'.ops == m.ops + [Delete(p)] && g'.clk == g.clk
    ensures if p in m.st.active then p in m'.st.deleted && p !in m'.st.active && g'.count == g.count - 1 else g' == g
  {
    DeleteFacts(rate, g.clk, g.tables, m.trees, g.count, g.expd, m.st, p);
    Extended(rate, m.ops, Delete(p));
    g', m' := g, m.(st := Apply(m.st, rate, Delete(p)), ops := m.ops + [Delete(p)]);
    var running := IsRunning(p, g.tables, m.trees, m.st.born.Keys);
    if running {
      var tb;
      ghost var ts;
      tb, ts := StopTimer(p, g.tables, m.trees, m.st.born.Keys);
      DeleteMatches(rate, g.clk, g.tables, m.trees, g.count, g.expd, m.st, p, tb, ts);
      g', m' := g.(tables := tb, count := g.count - 1), m'.(trees := ts);
    }
  }

  lemma DeleteFacts(rate: nat, clk: Clock, tb: Tables, ts: Trees, count: nat, expd: seq<Ptr>, st: State<Ptr>, p: Ptr)
    requires Matches(rate, clk, tb, ts, count, expd, st)
    ensures Kept(tb, ts, st.born.Keys) && (p in Live(tb, ts) ==> count > 0) &&
            (p !in Live(tb, ts) ==> Apply(st, rate, Delete(p)) == st)
    ensures var s' := Apply(st, rate, Delete(p));
            p in st.active <==> p in Live(tb, ts) && p in s'.deleted && p !in s'.active
  {
    DeleteTaken(st, rate, p);
    if p in st.active { assert st.active.Keys != {}; }
  }

  lemma DeleteMatches(rate: nat, clk: Clock, tb: Tables, ts: Trees, count: nat, expd: seq<Ptr>, st: State<Ptr>, p: Ptr,
                      tb': Tables, ts': Trees)
    requires Matches(rate, clk, tb, ts, count, expd, st) && p in Live(tb, ts) && count > 0
    requires Kept(tb', ts', st.born.Keys) && Live(tb', ts') == Live(tb, ts) - {p}
    ensures Matches(rate, clk, tb', ts', count - 1, expd, Apply(st, rate, Delete(p)))
  {
    ApplyKeeps(st, rate, Delete(p));
    DeletedState(st, rate, p);
  }

  lemma DeletedState(st: State<Ptr>, rate: nat, p: Ptr)
    requires rate > 0 && p in st.active && st.count > 0
    ensures var s' := Apply(st, rate, Delete(p));
            s'.active == st.active - {p} && s'.count == st.count - 1 &&
            s'.clock == st.clock && s'.expired == st.expired && s'.born == st.born
  {
  }

  // ---------------------------------------------------------------- ticking

  /** The increments of update_times. */
  method CountUp(c0: Clock, rate: nat) returns (c: Clock)
    requires rate > 0
    ensures c == Advance(c0, rate)
  {
    c := c0.(tick := c0.tick + 1);
    if c.tick % rate == 0 {
      c := c.(sec := c.sec + 1);
      if c.sec % 60 == 0 {
        c := c.(min := c.min + 1);
        if c.min % 60 == 0 {
          c := c.(hr := c.hr + 1);
        }
      }
    }
  }

  lemma TickFacts(rate: nat, clk: Clock, tb: Tables, ts: Trees, count: nat, expd: seq<Ptr>, st: State<Ptr>)
    requires Matches(rate, clk, tb, ts, count, expd, st)
    ensures rate > 0 && Stored(tb, ts) && Flagged(tb, ts, {}) && |Live(tb, ts)| <= count && expd + [] == expd
  {
    assert |st.active| == |st.active.Keys|;
  }

  /** A tick that the filter holds back would have changed nothing but the clock. */
  lemma QuietTick(rate: nat, clk: Clock, tb: Tables, ts: Trees, count: nat, expd: seq<Ptr>, st: State<Ptr>)
    requires Matches(rate, clk, tb, ts, count, expd, st) && !Pending(Advance(clk, rate), rate, count, Live(tb, ts))
    ensures var c, a := Advance(clk, rate), Live(tb, ts);
            TickAll(c, rate, a) == a && Enumerates([], TickDying(c, rate, a)) && Touched(c, rate, a) == {}
  {
    assert count == 0 ==> st.active.Keys == {};
    FilterSound(Advance(clk, rate), rate, count, Live(tb, ts));
  }

  /** One call of update_times. */
  method TickOnce(rate: nat, g: Globals, ghost m: Meaning)
    returns (g': Globals, ghost m': Meaning, sent: bool, ghost q: seq<Ptr>)
    requires Sound(rate, g, m)
    ensures Sound(rate, g', m') && m'.ops == m.ops + [Tick(q)] && g'.clk.tick == g.clk.tick + 1 && g'.expd == g.expd + q
    ensures Enumerates(q, DueNext(m.st, rate)) && (sent <==> Touched(g'.clk, rate, m.st.active) != {})
  {
    TickDue(rate, g.clk, g.tables, m.trees, g.count, g.expd, m.st);
    TickFacts(rate, g.clk, g.tables, m.trees, g.count, g.expd, m.st);
    var c := CountUp(g.clk, rate);
    sent, q := false, [];
    var tb, n, e := g.tables, g.count, g.expd;
    ghost var ts := m.trees;
    var pending := TimersPending(c, rate, n, tb, ts);
    if pending {
      var k;
      tb, ts, n, e, k, q := ProcessTick(c, rate, g.tables, m.trees, g.count, g.expd);
      sent := k != 0;
    } else {
      QuietTick(rate, g.clk, g.tables, m.trees, g.count, g.expd, m.st);
    }
    TickMatches(rate, g.clk, g.tables, m.trees, g.count, g.expd, m.st, c, tb, ts, n, e, q);
    Extended(rate, m.ops, Tick(q));
    g', m' := Globals(c, tb, n, e), Meaning(ts, Apply(m.st, rate, Tick(q)), m.ops + [Tick(q)]);
  }

  lemma TickDue(rate: nat, clk: Clock, tb: Tables, ts: Trees, count: nat, expd: seq<Ptr>, st: State<Ptr>)
    requires Matches(rate, clk, tb, ts, count, expd, st)
    ensures Advance(clk, rate).tick == clk.tick + 1
    ensures TickDying(Advance(clk, rate), rate, Live(tb, ts)) == DueNext(st, rate)
  {
    AdvanceOk(clk, rate);
    DyingAreDue(st, rate);
  }

  lemma TickMatches(rate: nat, clk: Clock, tb: Tables, ts: Trees, count: nat, expd: seq<Ptr>, st: State<Ptr>, c: Clock,
                    tb': Tables, ts': Trees, count': nat, expd': seq<Ptr>, q: seq<Ptr>)
    requires Matches(rate, clk, tb, ts, count, expd, st) && c == Advance(clk, rate)
    requires Stored(tb', ts') && Flagged(tb', ts', {}) && tb'.apps.Keys == tb.apps.Keys
    requires Live(tb', ts') == TickAll(c, rate, Live(tb, ts)) && Enumerates(q, TickDying(c, rate, Live(tb, ts)))
    requires |q| <= count && count' == count - |q| && expd' == expd + q
    ensures Matches(rate, c, tb', ts', count', expd', Apply(st, rate, Tick(q)))
    ensures Apply(st, rate, Tick(q)).clock == c
  {
    ApplyKeeps(st, rate, Tick(q));
  }

  lemma PopHead(ran: seq<Ptr>, e: seq<Ptr>)
    ensures [] + e == e && ran + [] == ran
    ensures e != [] ==> (ran + [e[0]]) + e[1..] == ran + e
  {
  }

  lemma HandleMatches(rate: nat, clk: Clock, tb: Tables, ts: Trees, count: nat, expd: seq<Ptr>, st: State<Ptr>)
    requires Matches(rate, clk, tb, ts, count, expd, st) && expd != []
    ensures rate > 0
    ensures var s' := Apply(st, rate, Handle);
            Matches(rate, clk, tb, ts, count, expd[1..], s') && s'.ran == st.ran + [expd[0]] && s'.log == st.log &&
            s'.active == st.active
  {
    ApplyKeeps(st, rate, Op<Ptr>.Handle);
  }
}
