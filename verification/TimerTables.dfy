/**
  The data of the timer service: four trees in one memory, the records of the timers, and the
  operations that move timers between them. Models find_tmr_slot_and_place, stop_timer and
  process_timers, step by step on that data.
 */
module TimerTables {
  import opened Common
  import opened RbTree
  import opened RbLinks
  import opened RbWalk
  import opened PackedTime
  import opened TimerModel
  import opened TimerRun
  import opened TimerTree

  /** The fields of a TIMER_T and its APP_TIMER_T that the service works on; `rt` is kept apart. */
  datatype App = App(ctime: nat, wheel: nat, exp: nat, running: bool)

  datatype Tables = Tables(mem: Mem, roots: seq<Ptr>, rt: Keys, apps: map<Ptr, App>)

  type Trees = seq<Shape>

  ghost function AllNodes(ts: Trees): set<Ptr>
    requires |ts| == 4
  {
    Nodes(ts[0]) + Nodes(ts[1]) + Nodes(ts[2]) + Nodes(ts[3])
  }

  /** The four roots hang four sound wheels, and every timer knows the wheel it is on. */
  ghost predicate Stored(tb: Tables, ts: Trees) {
    |tb.roots| == 4 && |ts| == 4 &&
    (forall w :: 0 <= w < 4 ==> Wheel(tb.mem, tb.roots[w], ts[w], tb.rt)) &&
    (forall w, i :: 0 <= w < 4 && i in Nodes(ts[w]) ==> OnWheel(tb, w, i))
  }

  ghost predicate OnWheel(tb: Tables, w: nat, i: Ptr) {
    i in tb.apps && tb.apps[i].wheel == w && tb.apps[i].ctime < WORD && i in tb.rt && tb.rt[i] >= 0
  }

  function TimerOf(tb: Tables, i: Ptr): Timer
    requires i in tb.apps
  {
    Timer(Fields(tb.apps[i].ctime), tb.apps[i].wheel, if i in tb.rt && tb.rt[i] >= 0 then tb.rt[i] else 0,
          tb.apps[i].exp)
  }

  /** The timers on the wheels. */
  ghost function Live(tb: Tables, ts: Trees): map<Ptr, Timer>
    requires |ts| == 4
  {
    map i | i in AllNodes(ts) && i in tb.apps :: TimerOf(tb, i)
  }

  /** The flag is_running tells whether a timer is on a wheel; `out` are those just taken off. */
  ghost predicate Flagged(tb: Tables, ts: Trees, out: set<Ptr>)
    requires |ts| == 4
  {
    forall i :: i in tb.apps ==> (tb.apps[i].running <==> i in AllNodes(ts) || i in out)
  }

  lemma WheelFrame(m: Mem, m': Mem, root: Ptr, t: Shape, rt: Keys, rt': Keys)
    requires Wheel(m, root, t, rt) && SameOn(m, m', Nodes(t))
    requires forall x :: x in Nodes(t) && x in rt ==> x in rt' && rt'[x] == rt[x]
    ensures Wheel(m', root, t, rt')
  {
    ZipFrame(m, m', root, Top, t);
    var q := Inorder(t);
    forall i | 0 <= i < |q| ensures q[i] in rt && q[i] in rt' && rt'[q[i]] == rt[q[i]] { InorderNode(t, q[i]); }
  }

  /** Different wheels hold different timers. */
  lemma WheelsApart(tb: Tables, ts: Trees, v: nat, w: nat)
    requires Stored(tb, ts) && v < 4 && w < 4 && v != w
    ensures Nodes(ts[v]) !! Nodes(ts[w])
  {
    forall i | i in Nodes(ts[v]) ensures i !in Nodes(ts[w]) {
      assert OnWheel(tb, v, i);
    }
  }

  /** A timer that is on no wheel can be changed freely. */
  lemma WheelUpdate(tb: Tables, ts: Trees, p: Ptr, k: int, w: nat)
    requires Stored(tb, ts) && p !in AllNodes(ts) && w < 4
    ensures Wheel(tb.mem, tb.roots[w], ts[w], tb.rt[p := k])
  {
    assert p !in Nodes(ts[w]);
    WheelFrame(tb.mem, tb.mem, tb.roots[w], ts[w], tb.rt, tb.rt[p := k]);
  }

  lemma StoredUpdate(tb: Tables, ts: Trees, p: Ptr, k: int, app: App)
    requires Stored(tb, ts) && p !in AllNodes(ts)
    ensures Stored(tb.(rt := tb.rt[p := k], apps := tb.apps[p := app]), ts)
  {
    var tb' := tb.(rt := tb.rt[p := k], apps := tb.apps[p := app]);
    forall w | 0 <= w < 4 ensures Wheel(tb'.mem, tb'.roots[w], ts[w], tb'.rt) {
      WheelUpdate(tb, ts, p, k, w);
    }
    forall w, i | 0 <= w < 4 && i in Nodes(ts[w]) ensures OnWheel(tb', w, i) {
      assert OnWheel(tb, w, i) && i != p;
    }
  }

  /** One wheel may be rebuilt as long as the nodes of the others are left alone. */
  lemma StoredRebuild(tb: Tables, ts: Trees, w: nat, m: Mem, root: Ptr, t: Shape, p: Ptr)
    requires Stored(tb, ts) && w < 4 && Wheel(m, root, t, tb.rt)
    requires forall i :: i in Nodes(t) ==> OnWheel(tb, w, i)
    requires forall x :: x in tb.mem && x !in Nodes(ts[w]) && x != p ==> x in m && m[x] == tb.mem[x]
    requires forall v :: 0 <= v < 4 && v != w ==> p !in Nodes(ts[v])
    ensures Stored(tb.(mem := m, roots := tb.roots[w := root]), ts[w := t])
  {
    var tb', ts' := tb.(mem := m, roots := tb.roots[w := root]), ts[w := t];
    forall v | 0 <= v < 4 ensures Wheel(tb'.mem, tb'.roots[v], ts'[v], tb'.rt) {
      if v != w {
        WheelsApart(tb, ts, v, w);
        NoNullBelow(tb.mem, ts[v], NULL);
        WheelFrame(tb.mem, m, tb.roots[v], ts[v], tb.rt, tb.rt);
      }
    }
    forall v, i | 0 <= v < 4 && i in Nodes(ts'[v]) ensures OnWheel(tb', v, i) {
      if v != w { assert OnWheel(tb, v, i); }
    }
  }

  /** Put a timer on the wheel its record names. */
  method Attach(p: Ptr, w: nat, tb: Tables, ghost ts: Trees) returns (tb': Tables, ghost ts': Trees)
    requires Stored(tb, ts) && w < 4 && p != NULL && p !in AllNodes(ts) && OnWheel(tb, w, p)
    ensures Stored(tb', ts') && tb' == tb.(mem := tb'.mem, roots := tb'.roots)
    ensures ts' == ts[w := ts'[w]] && Nodes(ts'[w]) == Nodes(ts[w]) + {p}
  {
    assert p !in Nodes(ts[w]);
    var m, root;
    ghost var t;
    m, root, t := TimerAdd(p, tb.mem, tb.roots[w], tb.rt, ts[w]);
    forall i | i in Nodes(t) ensures OnWheel(tb, w, i) {
    }
    StoredRebuild(tb, ts, w, m, root, t, p);
    tb', ts' := tb.(mem := m, roots := tb.roots[w := root]), ts[w := t];
  }

  /** Take a timer off the wheel its record names. */
  method Detach(p: Ptr, tb: Tables, ghost ts: Trees) returns (tb': Tables, ghost ts': Trees)
    requires Stored(tb, ts) && p in AllNodes(ts)
    ensures Stored(tb', ts') && tb' == tb.(mem := tb'.mem, roots := tb'.roots)
    ensures p in tb.apps && tb.apps[p].wheel < 4 &&
            var w := tb.apps[p].wheel;
            p in Nodes(ts[w]) && ts' == ts[w := ts'[w]] && Nodes(ts'[w]) == Nodes(ts[w]) - {p}
  {
    ghost var v :| 0 <= v < 4 && p in Nodes(ts[v]);
    assert OnWheel(tb, v, p);
    var w := tb.apps[p].wheel;
    var m, root;
    ghost var t;
    m, root, t := TimerDel(p, tb.mem, tb.roots[w], tb.rt, ts[w]);
    forall u | 0 <= u < 4 && u != w ensures p !in Nodes(ts[u]) { WheelsApart(tb, ts, u, w); }
    forall i | i in Nodes(t) ensures OnWheel(tb, w, i) {
    }
    StoredRebuild(tb, ts, w, m, root, t, p);
    tb', ts' := tb.(mem := m, roots := tb.roots[w := root]), ts[w := t];
  }

  /** The tables and trees after `p` has gone to a wheel as `tm`; nothing else has changed. */
  ghost predicate Placed(tb: Tables, ts: Trees, tb': Tables, ts': Trees, p: Ptr, tm: Timer)
    requires p in tb.apps && |ts| == 4 && |ts'| == 4
  {
    tb'.rt == tb.rt[p := tm.rt] && tb'.apps == tb.apps[p := tb.apps[p].(wheel := tm.wheel, running := true)] &&
    tm.wheel < 4 && ts' == ts[tm.wheel := ts'[tm.wheel]] && Nodes(ts'[tm.wheel]) == Nodes(ts[tm.wheel]) + {p}
  }

  /** find_tmr_slot_and_place. */
  method FindSlotAndPlace(p: Ptr, c: Clock, tb: Tables, ghost ts: Trees) returns (tb': Tables, ghost ts': Trees)
    requires Stored(tb, ts) && p != NULL && p !in AllNodes(ts) && p in tb.apps && tb.apps[p].ctime < WORD
    ensures Stored(tb', ts')
    ensures var placed := Place(c, TimerOf(tb, p));
            if placed.Some? then Placed(tb, ts, tb', ts', p, placed.value) else tb' == tb && ts' == ts
  {
    tb', ts' := tb, ts;
    var wheel, t := FindSlot(tb.apps[p].ctime);
    if wheel >= 0 {
      tb', ts' := PutOn(p, wheel, c.Read(wheel) + t, tb, ts);
    }
  }

  method PutOn(p: Ptr, wheel: nat, rt: nat, tb: Tables, ghost ts: Trees) returns (tb': Tables, ghost ts': Trees)
    requires Stored(tb, ts) && p != NULL && p !in AllNodes(ts) && p in tb.apps && tb.apps[p].ctime < WORD && wheel < 4
    ensures Stored(tb', ts')
    ensures forall tm: Timer :: tm.wheel == wheel && tm.rt == rt ==> Placed(tb, ts, tb', ts', p, tm)
  {
    var app := tb.apps[p].(wheel := wheel, running := true);
    var tb1 := tb.(rt := tb.rt[p := rt], apps := tb.apps[p := app]);
    StoredUpdate(tb, ts, p, rt, app);
    tb', ts' := Attach(p, wheel, tb1, ts);
  }

  /** The choice of the wheel: the largest unit of which something is left, and how much. */
  method FindSlot(ct: nat) returns (wheel: int, t: nat)
    ensures var l := Fields(ct);
            (wheel, t) == if l.h != 0 then (HRS, l.h) else if l.m != 0 then (MIN, l.m)
                          else if l.s != 0 then (SEC, l.s) else if l.t != 0 then (TICK, l.t) else (-1, 0)
  {
    wheel := -1;
    t := Get(ct, HRS);
    if t != 0 {
      wheel := HRS;
    } else {
      t := Get(ct, MIN);
      if t != 0 {
        wheel := MIN;
      } else {
        t := Get(ct, SEC);
        if t != 0 {
          wheel := SEC;
        } else {
          t := Get(ct, TICK);
          if t != 0 {
            wheel := TICK;
          }
        }
      }
    }
  }

  lemma OnSomeWheel(ts: Trees, i: Ptr)
    requires |ts| == 4
    ensures i in AllNodes(ts) <==> exists v :: 0 <= v < 4 && i in Nodes(ts[v])
  {
    if i in AllNodes(ts) { assert i in Nodes(ts[0]) || i in Nodes(ts[1]) || i in Nodes(ts[2]) || i in Nodes(ts[3]); }
  }

  /** What changing one wheel does to the timers on all wheels. */
  lemma AllNodesUpdate(ts: Trees, w: nat, t: Shape, i: Ptr)
    requires |ts| == 4 && w < 4
    requires forall v :: 0 <= v < 4 && v != w && i in Nodes(ts[v]) ==> i !in Nodes(ts[w]) && i !in Nodes(t)
    ensures i in AllNodes(ts[w := t]) <==>
            if i in Nodes(t) then true else if i in Nodes(ts[w]) then false else i in AllNodes(ts)
  {
    OnSomeWheel(ts, i);
    OnSomeWheel(ts[w := t], i);
  }

  /** Only `p` differs. */
  ghost predicate SameBut(tb: Tables, ts: Trees, tb': Tables, ts': Trees, p: Ptr)
    requires |ts| == 4 && |ts'| == 4
  {
    (forall i :: i != p ==> (i in AllNodes(ts') <==> i in AllNodes(ts))) &&
    (forall i :: i != p ==> (i in tb'.apps <==> i in tb.apps) && (i in tb.apps ==> tb'.apps[i] == tb.apps[i])) &&
    (forall i :: i != p ==> (i in tb'.rt <==> i in tb.rt) && (i in tb.rt ==> tb'.rt[i] == tb.rt[i]))
  }

  lemma LiveKeys(tb: Tables, ts: Trees)
    requires Stored(tb, ts)
    ensures Live(tb, ts).Keys == AllNodes(ts)
    ensures forall i :: i in AllNodes(ts) ==> i in tb.apps && i in tb.rt && tb.rt[i] >= 0
  {
    forall i | i in AllNodes(ts) ensures i in tb.apps && i in tb.rt && tb.rt[i] >= 0 {
      OnSomeWheel(ts, i);
      var v :| 0 <= v < 4 && i in Nodes(ts[v]);
      assert OnWheel(tb, v, i);
    }
  }

  lemma LiveBut(tb: Tables, ts: Trees, tb': Tables, ts': Trees, p: Ptr)
    requires Stored(tb, ts) && Stored(tb', ts') && SameBut(tb, ts, tb', ts', p)
    ensures p !in AllNodes(ts') ==> Live(tb', ts') == Live(tb, ts) - {p}
    ensures p in AllNodes(ts') ==> p in tb'.apps && Live(tb', ts') == Live(tb, ts)[p := TimerOf(tb', p)]
  {
    LiveKeys(tb, ts);
    LiveKeys(tb', ts');
    forall i | i in AllNodes(ts) && i != p ensures Live(tb', ts')[i] == Live(tb, ts)[i] {
      TimerSame(tb, tb', i);
    }
    MapBut(Live(tb, ts), Live(tb', ts'), p);
  }

  lemma TimerSame(tb: Tables, tb': Tables, i: Ptr)
    requires i in tb.apps && i in tb'.apps && tb.apps[i] == tb'.apps[i] && i in tb.rt && i in tb'.rt &&
             tb.rt[i] == tb'.rt[i]
    ensures TimerOf(tb, i) == TimerOf(tb', i)
  {
  }

  lemma MapBut(m: map<Ptr, Timer>, m': map<Ptr, Timer>, p: Ptr)
    requires forall i :: i != p ==> (i in m <==> i in m') && (i in m ==> m'[i] == m[i])
    ensures p !in m' ==> m' == m - {p}
    ensures p in m' ==> m' == m[p := m'[p]]
  {
    SplitBySign(m.Keys);
    SplitBySign(m'.Keys);
  }

  /** A set is its elements of either sign: names the elements, where a set has to be proved equal to
      another. */
  lemma SplitBySign(s: set<Ptr>)
    ensures s == (set i: Ptr | i in s && i >= 0) + (set i: Ptr | i in s && i < 0)
  {
  }

  lemma DetachedNodes(tb: Tables, ts: Trees, ts': Trees, w: nat, p: Ptr)
    requires Stored(tb, ts) && |ts'| == 4 && w < 4 && p in Nodes(ts[w])
    requires ts' == ts[w := ts'[w]] && Nodes(ts'[w]) == Nodes(ts[w]) - {p}
    ensures forall i :: i in AllNodes(ts') <==> i in AllNodes(ts) && i != p
  {
    forall i ensures i in AllNodes(ts') <==> i in AllNodes(ts) && i != p {
      forall v | 0 <= v < 4 && v != w ensures Nodes(ts[v]) !! Nodes(ts[w]) { WheelsApart(tb, ts, v, w); }
      AllNodesUpdate(ts, w, ts'[w], i);
    }
  }

  lemma AttachedNodes(ts: Trees, ts': Trees, w: nat, p: Ptr)
    requires |ts| == 4 && |ts'| == 4 && w < 4
    requires ts' == ts[w := ts'[w]] && Nodes(ts'[w]) == Nodes(ts[w]) + {p}
    ensures forall i :: i in AllNodes(ts') <==> i in AllNodes(ts) || i == p
  {
    forall i ensures i in AllNodes(ts') <==> i in AllNodes(ts) || i == p {
      OnSomeWheel(ts, i);
      OnSomeWheel(ts', i);
    }
  }

  /** Clearing the field of its wheel does not take a timer off the wheel. */
  lemma StoredClear(tb: Tables, ts: Trees, p: Ptr)
    requires Stored(tb, ts) && p in AllNodes(ts) && p in tb.apps && tb.apps[p].wheel <= HRS && tb.apps[p].ctime < WORD
    ensures var ct := Clear(tb.apps[p].ctime, tb.apps[p].wheel);
            ct < WORD && Fields(ct) == Fields(tb.apps[p].ctime).Cleared(tb.apps[p].wheel) &&
            (ct == 0 <==> Fields(ct).Zero()) &&
            Stored(tb.(apps := tb.apps[p := tb.apps[p].(ctime := ct)]), ts)
  {
    ClearFields(tb.apps[p].ctime, tb.apps[p].wheel);
    var ct := Clear(tb.apps[p].ctime, tb.apps[p].wheel);
    ZeroFields(ct);
    var tb' := tb.(apps := tb.apps[p := tb.apps[p].(ctime := ct)]);
    forall w, i | 0 <= w < 4 && i in Nodes(ts[w]) ensures OnWheel(tb', w, i) {
      assert OnWheel(tb, w, i);
    }
  }

  /** The timer that expires now: timer_expiry_action on a timer with nothing left. */
  method Retire(p: Ptr, tb: Tables, ghost ts: Trees, count: nat, expd: seq<Ptr>)
    returns (tb': Tables, count': nat, expd': seq<Ptr>)
    requires Stored(tb, ts) && p !in AllNodes(ts) && p in tb.apps && p in tb.rt && count > 0
    ensures Stored(tb', ts) && tb' == tb.(apps := tb.apps[p := tb.apps[p].(running := false)]) &&
            SameBut(tb, ts, tb', ts, p)
    ensures count' == count - 1 && expd' == expd + [p]
  {
    count' := count - 1;
    StoredUpdate(tb, ts, p, tb.rt[p], tb.apps[p].(running := false));
    assert tb.rt[p := tb.rt[p]] == tb.rt;
    tb' := tb.(apps := tb.apps[p := tb.apps[p].(running := false)]);
    expd' := expd + [p];
  }

  /** clear_wheel_timer and timer_del on a timer of the wheel `w`. */
  method TakeOff(p: Ptr, w: nat, tb: Tables, ghost ts: Trees) returns (tb': Tables, ghost ts': Trees)
    requires Stored(tb, ts) && w <= HRS && p in Nodes(ts[w])
    ensures Stored(tb', ts') && p !in AllNodes(ts') && Nodes(ts'[w]) == Nodes(ts[w]) - {p} &&
            SameBut(tb, ts, tb', ts', p)
    ensures p in tb.apps && tb'.rt == tb.rt && p in tb.rt && p != NULL
    ensures p in tb'.apps && tb'.apps.Keys == tb.apps.Keys && tb'.apps[p] == tb.apps[p].(ctime := tb'.apps[p].ctime) &&
            tb.apps[p].wheel == w
    ensures tb'.apps[p].ctime < WORD && Fields(tb'.apps[p].ctime) == Fields(tb.apps[p].ctime).Cleared(w)
    ensures tb'.apps[p].ctime == 0 <==> Fields(tb'.apps[p].ctime).Zero()
  {
    assert OnWheel(tb, w, p);
    assert p in AllNodes(ts) by { OnSomeWheel(ts, p); }
    NoNullBelow(tb.mem, ts[w], NULL);
    StoredClear(tb, ts, p);
    var ct := Clear(tb.apps[p].ctime, tb.apps[p].wheel);
    tb', ts' := Detach(p, tb.(apps := tb.apps[p := tb.apps[p].(ctime := ct)]), ts);
    DetachedNodes(tb, ts, ts', w, p);
  }

  /** Placing a timer again, below the wheel `w` it came from. */
  method Cascade(p: Ptr, w: nat, c: Clock, tb: Tables, ghost ts: Trees) returns (tb': Tables, ghost ts': Trees)
    requires Stored(tb, ts) && p != NULL && p !in AllNodes(ts) && p in tb.apps && tb.apps[p].ctime < WORD && w <= HRS
    requires !Fields(tb.apps[p].ctime).Zero() && Fields(tb.apps[p].ctime) == Fields(tb.apps[p].ctime).Cleared(w)
    ensures Stored(tb', ts') && p in AllNodes(ts') && Nodes(ts'[w]) == Nodes(ts[w]) && SameBut(tb, ts, tb', ts', p)
    ensures p in tb'.apps && tb'.apps.Keys == tb.apps.Keys && tb'.apps[p].running
    ensures Place(c, TimerOf(tb, p)) == Some(TimerOf(tb', p))
  {
    PlaceElsewhere(c, TimerOf(tb, p), w);
    tb', ts' := FindSlotAndPlace(p, c, tb, ts);
    PlacedBut(tb, ts, tb', ts', p, Place(c, TimerOf(tb, p)).value);
  }

  lemma PlaceElsewhere(c: Clock, tm: Timer, w: nat)
    requires !tm.left.Zero() && tm.left == tm.left.Cleared(w)
    ensures Place(c, tm).Some? &&
            Place(c, tm).value == tm.(wheel := Place(c, tm).value.wheel, rt := Place(c, tm).value.rt)
    ensures Place(c, tm).value.wheel <= HRS && (w <= HRS ==> Place(c, tm).value.wheel != w)
  {
  }

  lemma PlacedBut(tb: Tables, ts: Trees, tb': Tables, ts': Trees, p: Ptr, tm: Timer)
    requires p in tb.apps && |ts| == 4 && |ts'| == 4 && Placed(tb, ts, tb', ts', p, tm)
    ensures SameBut(tb, ts, tb', ts', p) && p in AllNodes(ts') && tb'.apps.Keys == tb.apps.Keys
    ensures TimerOf(tb', p) == TimerOf(tb, p).(wheel := tm.wheel, rt := tm.rt)
    ensures forall w :: 0 <= w < 4 && w != tm.wheel ==> ts'[w] == ts[w]
  {
    AttachedNodes(ts, ts', tm.wheel, p);
  }

  /** The fate of a timer that is served, by what is left of it. */
  lemma ServedFate(c: Clock, tm: Timer, w: nat, left: Left, rt: nat)
    requires tm.wheel == w && tm.rt == c.Read(w) && left == tm.left.Cleared(w)
    ensures Served(c, tm, w) ==
            if left.Zero() then Expires
            else match Place(c, Timer(left, w, rt, tm.exp)) case Some(t) => Waits(t) case None => Unplaced
  {
  }

  /** One round of process_timers, for a timer that was found on the wheel `w`. */
  method ServeOne(p: Ptr, w: nat, c: Clock, tb: Tables, ghost ts: Trees, count: nat, expd: seq<Ptr>)
    returns (tb': Tables, ghost ts': Trees, count': nat, expd': seq<Ptr>)
    requires Stored(tb, ts) && Flagged(tb, ts, {}) && w <= HRS && p in Nodes(ts[w]) && p in tb.rt &&
             tb.rt[p] == c.Read(w) && count > 0
    ensures Stored(tb', ts') && Flagged(tb', ts', {}) && Nodes(ts'[w]) == Nodes(ts[w]) - {p} && p in Live(tb, ts)
    ensures tb'.apps.Keys == tb.apps.Keys
    ensures var f := Served(c, Live(tb, ts)[p], w);
            if f.Expires? then Live(tb', ts') == Live(tb, ts) - {p} && count' == count - 1 && expd' == expd + [p]
            else f.Waits? && Live(tb', ts') == Live(tb, ts)[p := f.timer] && count' == count && expd' == expd
  {
    LiveKeys(tb, ts);
    OnSomeWheel(ts, p);
    var tb1;
    ghost var ts1;
    tb1, ts1 := TakeOff(p, w, tb, ts);
    TakenFate(c, tb, tb1, p, w);
    count', expd', ts' := count, expd, ts1;
    if tb1.apps[p].ctime == 0 {
      tb', count', expd' := Retire(p, tb1, ts1, count, expd);
      ServedBut(tb, ts, tb1, ts1, tb', ts', p);
    } else {
      tb', ts' := Cascade(p, w, c, tb1, ts1);
      ServedBut(tb, ts, tb1, ts1, tb', ts', p);
    }
  }

  lemma TakenFate(c: Clock, tb: Tables, tb1: Tables, p: Ptr, w: nat)
    requires p in tb.apps && p in tb1.apps && tb1.rt == tb.rt && p in tb.rt && tb.rt[p] == c.Read(w)
    requires tb1.apps[p] == tb.apps[p].(ctime := tb1.apps[p].ctime) && tb.apps[p].wheel == w
    requires Fields(tb1.apps[p].ctime) == Fields(tb.apps[p].ctime).Cleared(w)
    requires tb1.apps[p].ctime == 0 <==> Fields(tb1.apps[p].ctime).Zero()
    ensures Served(c, TimerOf(tb, p), w)
         == if tb1.apps[p].ctime == 0 then Expires
            else match Place(c, TimerOf(tb1, p)) case Some(t) => Waits(t) case None => Unplaced
    ensures Fields(tb1.apps[p].ctime) == Fields(tb1.apps[p].ctime).Cleared(w)
  {
    ServedFate(c, TimerOf(tb, p), w, Fields(tb1.apps[p].ctime), tb.rt[p]);
  }

  lemma ServedBut(tb: Tables, ts: Trees, tb1: Tables, ts1: Trees, tb2: Tables, ts2: Trees, p: Ptr)
    requires Stored(tb, ts) && |ts1| == 4 && Stored(tb2, ts2) && Flagged(tb, ts, {})
    requires SameBut(tb, ts, tb1, ts1, p) && SameBut(tb1, ts1, tb2, ts2, p)
    requires p in tb2.apps && (tb2.apps[p].running <==> p in AllNodes(ts2))
    ensures Flagged(tb2, ts2, {})
    ensures p !in AllNodes(ts2) ==> Live(tb2, ts2) == Live(tb, ts) - {p}
    ensures p in AllNodes(ts2) ==> Live(tb2, ts2) == Live(tb, ts)[p := TimerOf(tb2, p)]
  {
    assert SameBut(tb, ts, tb2, ts2, p);
    LiveBut(tb, ts, tb2, ts2, p);
  }

  // ---------------------------------------------------------------- process_timers

  /** The timers on wheel `w` that its clock has reached. */
  ghost function Reached(c: Clock, w: nat, a: map<Ptr, Timer>): set<Ptr> {
    set i | i in a && a[i].wheel == w && a[i].rt == c.Read(w)
  }

  /** What serving wheel `w` makes of each timer. */
  ghost function Fates(c: Clock, w: nat, a: map<Ptr, Timer>): map<Ptr, Fate> { map i | i in a :: Served(c, a[i], w) }

  /** Of the timers `a0` with fates `f`, those in `done` have met their fate, of which `dead` have expired. */
  ghost predicate Progress(a0: map<Ptr, Timer>, f: map<Ptr, Fate>, a: map<Ptr, Timer>, done: set<Ptr>, dead: set<Ptr>) {
    (forall i :: i in a ==> i in a0) &&
    (forall i :: i in a0 && i !in done ==> i in a && a[i] == a0[i]) &&
    (forall i :: i in done ==> i in a0 && i in f && Met(i, f[i], a, dead)) &&
    (forall i :: i in dead ==> i in done)
  }

  ghost predicate Met(i: Ptr, f: Fate, a: map<Ptr, Timer>, dead: set<Ptr>) {
    if f.Expires? then i !in a && i in dead else f.Waits? && i in a && a[i] == f.timer && i !in dead
  }

  lemma ProgressEnd(c: Clock, w: nat, a0: map<Ptr, Timer>, a: map<Ptr, Timer>, done: set<Ptr>, dead: set<Ptr>)
    requires Progress(a0, Fates(c, w, a0), a, done, dead) && Reached(c, w, a0) == done
    ensures a == ServeAll(c, a0, w) && dead == Dying(c, a0, w)
  {
    SplitBySign(a.Keys);
    SplitBySign(a0.Keys);
    SplitBySign(dead);
    forall i | i in a0 && i !in done ensures Served(c, a0[i], w) == Waits(a0[i]) {
    }
    forall i | i in done ensures Met(i, Served(c, a0[i], w), a, dead) {
    }
  }

  lemma ProgressStep(a0: map<Ptr, Timer>, f: map<Ptr, Fate>, a: map<Ptr, Timer>, done: set<Ptr>, dead: set<Ptr>, p: Ptr,
                     a': map<Ptr, Timer>)
    requires Progress(a0, f, a, done, dead) && p in a && p !in done && p in f
    requires if f[p].Expires? then a' == a - {p} else f[p].Waits? && a' == a[p := f[p].timer]
    ensures Progress(a0, f, a', done + {p}, dead + if f[p].Expires? then {p} else {})
    ensures p !in dead
  {
    var dead' := dead + if f[p].Expires? then {p} else {};
    forall i | i in done + {p} ensures i in a0 && i in f && Met(i, f[i], a', dead') {
      if i != p { assert Met(i, f[i], a, dead); }
    }
  }

  lemma StillCounted(a0: map<Ptr, Timer>, f: map<Ptr, Fate>, a: map<Ptr, Timer>, done: set<Ptr>, dead: set<Ptr>, p: Ptr)
    requires Progress(a0, f, a, done, dead) && p in a
    ensures |dead| < |a0|
  {
    SplitBySign(dead);
    assert p in done ==> Met(p, f[p], a, dead);
    assert dead + {p} <= a0.Keys && p !in dead;
    SubsetSize(dead + {p}, a0.Keys);
  }

  lemma {:induction false} SubsetSize(a: set<Ptr>, b: set<Ptr>)
    requires a <= b
    ensures |a| <= |b|
  {
    assert b == a + (b - a);
  }

  lemma LiveOnWheel(tb: Tables, ts: Trees, w: nat, i: Ptr)
    requires Stored(tb, ts) && w < 4
    ensures i in Nodes(ts[w]) <==> i in Live(tb, ts) && Live(tb, ts)[i].wheel == w
    ensures i in Nodes(ts[w]) ==> i in tb.rt && Live(tb, ts)[i].rt == tb.rt[i]
  {
    LiveKeys(tb, ts);
    OnSomeWheel(ts, i);
    if i in AllNodes(ts) {
      var v :| 0 <= v < 4 && i in Nodes(ts[v]);
      assert OnWheel(tb, v, i);
      if i in Nodes(ts[w]) { assert OnWheel(tb, w, i); }
    }
  }

  /** A timer that is served is not on the same wheel again. */
  lemma ReachedStep(c: Clock, w: nat, a: map<Ptr, Timer>, p: Ptr, a': map<Ptr, Timer>)
    requires w <= HRS && p in Reached(c, w, a)
    requires var f := Served(c, a[p], w); if f.Expires? then a' == a - {p} else f.Waits? && a' == a[p := f.timer]
    ensures Reached(c, w, a') == Reached(c, w, a) - {p}
  {
    var l := a[p].left.Cleared(w);
    if !l.Zero() { PlaceElsewhere(c, a[p].(left := l), w); }
  }

  /** What serving `p` does to the timers on the wheels; `gone` lists it if it expires. */
  ghost predicate Serves(c: Clock, w: nat, a: map<Ptr, Timer>, p: Ptr, a': map<Ptr, Timer>, gone: seq<Ptr>) {
    p in Reached(c, w, a) &&
    var f := Served(c, a[p], w);
    if f.Expires? then a' == a - {p} && gone == [p] else f.Waits? && a' == a[p := f.timer] && gone == []
  }

  /** One turn of the loop of process_timers: search the tree, and serve what is found. */
  method ServeNext(w: nat, c: Clock, tb: Tables, ghost ts: Trees, count: nat, expd: seq<Ptr>)
    returns (found: Ptr, tb': Tables, ghost ts': Trees, count': nat, expd': seq<Ptr>, ghost gone: seq<Ptr>)
    requires Stored(tb, ts) && Flagged(tb, ts, {}) && w <= HRS && (Live(tb, ts) != map[] ==> count > 0)
    ensures Stored(tb', ts') && Flagged(tb', ts', {}) && tb'.apps.Keys == tb.apps.Keys
    ensures |gone| <= count && count' == count - |gone| && expd' == expd + gone
    ensures if found == NULL then Reached(c, w, Live(tb, ts)) == {} && Live(tb', ts') == Live(tb, ts) && gone == []
            else Serves(c, w, Live(tb, ts), found, Live(tb', ts'), gone)
  {
    tb', ts', count', expd', gone := tb, ts, count, expd, [];
    ghost var steps;
    found, steps := TimerTreeWalk(tb.roots[w], c.Read(w), tb.mem, tb.rt, ts[w]);
    if found == NULL {
      forall i | i in Reached(c, w, Live(tb, ts)) ensures false { LiveOnWheel(tb, ts, w, i); }
    } else {
      LiveOnWheel(tb, ts, w, found);
      tb', ts', count', expd' := ServeOne(found, w, c, tb, ts, count, expd);
      gone := if Served(c, Live(tb, ts)[found], w).Expires? then [found] else [];
    }
  }

  /** The loop invariant of process_timers; `q` lists the timers that have expired. */
  ghost predicate Serving(c: Clock, w: nat, a0: map<Ptr, Timer>, a: map<Ptr, Timer>, done: set<Ptr>, dead: set<Ptr>,
                          q: seq<Ptr>)
  {
    Progress(a0, Fates(c, w, a0), a, done, dead) && Enumerates(q, dead) &&
    Reached(c, w, a) == Reached(c, w, a0) - done && done <= Reached(c, w, a0)
  }

  lemma ServingStep(c: Clock, w: nat, a0: map<Ptr, Timer>, a: map<Ptr, Timer>, done: set<Ptr>, dead: set<Ptr>,
                    q: seq<Ptr>, p: Ptr, a': map<Ptr, Timer>, gone: seq<Ptr>)
    returns (dead': set<Ptr>)
    requires Serving(c, w, a0, a, done, dead, q) && w <= HRS && Serves(c, w, a, p, a', gone)
    ensures Serving(c, w, a0, a', done + {p}, dead', q + gone)
    ensures |done + {p}| == |done| + 1 && |Reached(c, w, a')| < |Reached(c, w, a)|
  {
    dead' := dead + if gone == [] then {} else {p};
    ReachedLess(c, w, a0, a, done, p, a', gone);
    ProgressStep(a0, Fates(c, w, a0), a, done, dead, p, a');
    EnumeratesMore(q, dead, p);
  }

  lemma ReachedLess(c: Clock, w: nat, a0: map<Ptr, Timer>, a: map<Ptr, Timer>, done: set<Ptr>, p: Ptr,
                    a': map<Ptr, Timer>, gone: seq<Ptr>)
    requires w <= HRS && Serves(c, w, a, p, a', gone) && Reached(c, w, a) == Reached(c, w, a0) - done &&
             done <= Reached(c, w, a0)
    ensures Reached(c, w, a') == Reached(c, w, a0) - (done + {p}) && done + {p} <= Reached(c, w, a0)
    ensures |done + {p}| == |done| + 1 && |Reached(c, w, a')| < |Reached(c, w, a)|
  {
    ReachedStep(c, w, a, p, a');
    SubsetSize(Reached(c, w, a'), Reached(c, w, a) - {p});
  }

  lemma ServingStart(c: Clock, w: nat, a: map<Ptr, Timer>)
    ensures Serving(c, w, a, a, {}, {}, [])
  {
  }

  lemma ServingDone(c: Clock, w: nat, a0: map<Ptr, Timer>, a: map<Ptr, Timer>, done: set<Ptr>, dead: set<Ptr>,
                    q: seq<Ptr>)
    requires Serving(c, w, a0, a, done, dead, q) && Reached(c, w, a) == {}
    ensures a == ServeAll(c, a0, w) && Enumerates(q, Dying(c, a0, w)) && |done| == |Reached(c, w, a0)|
  {
    var r := Reached(c, w, a0);
    assert forall i :: i in r && i !in done ==> i in r - done;
    assert done == r;
    ProgressEnd(c, w, a0, a, done, dead);
  }

  lemma EnumeratesMore(q: seq<Ptr>, dead: set<Ptr>, p: Ptr)
    requires Enumerates(q, dead) && p !in dead
    ensures Enumerates(q + [p], dead + {p}) && Enumerates(q + [], dead + {})
  {
    assert q + [] == q && dead + {} == dead;
  }

  lemma ServingCount(c: Clock, w: nat, a0: map<Ptr, Timer>, a: map<Ptr, Timer>, done: set<Ptr>, dead: set<Ptr>,
                     q: seq<Ptr>)
    requires Serving(c, w, a0, a, done, dead, q)
    ensures a != map[] ==> |q| < |a0|
  {
    SplitBySign(a.Keys);
    if a != map[] {
      var p :| p in a;
      StillCounted(a0, Fates(c, w, a0), a, done, dead, p);
    }
  }

  /** process_timers: serve every timer that the clock of the wheel has reached, in whatever order
      the tree gives them up. */
  method ProcessTimers(w: nat, c: Clock, tb0: Tables, ghost ts0: Trees, count0: nat, expd0: seq<Ptr>)
    returns (tb: Tables, ghost ts: Trees, count: nat, expd: seq<Ptr>, n: nat, ghost q: seq<Ptr>)
    requires Stored(tb0, ts0) && Flagged(tb0, ts0, {}) && w <= HRS && |Live(tb0, ts0)| <= count0
    ensures Stored(tb, ts) && Flagged(tb, ts, {}) && tb.apps.Keys == tb0.apps.Keys
    ensures Live(tb, ts) == ServeAll(c, Live(tb0, ts0), w)
    ensures expd == expd0 + q && count == count0 - |q| && Enumerates(q, Dying(c, Live(tb0, ts0), w))
    ensures n == |Reached(c, w, Live(tb0, ts0))|
  {
    tb, ts, count, expd, n, q := tb0, ts0, count0, expd0, 0, [];
    ghost var a0, a, done, dead := Live(tb0, ts0), Live(tb0, ts0), {}, {};
    ServingStart(c, w, a0);
    Grouping(expd0, [], []);
    while true
      invariant Stored(tb, ts) && Flagged(tb, ts, {}) && tb.apps.Keys == tb0.apps.Keys && a == Live(tb, ts)
      invariant Serving(c, w, a0, a, done, dead, q)
      invariant expd == expd0 + q && count + |q| == count0 && n == |done|
      decreases |Reached(c, w, a)|
    {
      ServingCount(c, w, a0, a, done, dead, q);
      var p;
      ghost var gone;
      p, tb, ts, count, expd, gone := ServeNext(w, c, tb, ts, count, expd);
      if p == NULL {
        ServingDone(c, w, a0, a, done, dead, q);
        return;
      }
      n := n + 1;
      dead := ServingStep(c, w, a0, a, done, dead, q, p, Live(tb, ts), gone);
      Grouping(expd0, q, gone);
      q, done, a := q + gone, done + {p}, Live(tb, ts);
    }
  }

  // ---------------------------------------------------------------- one tick

  lemma ServedCount(c: Clock, w: nat, a: map<Ptr, Timer>, count: nat, q: seq<Ptr>)
    requires |a| <= count && Enumerates(q, Dying(c, a, w))
    ensures |q| <= count && |ServeAll(c, a, w)| <= count - |q|
  {
    var d, s := Dying(c, a, w), ServeAll(c, a, w);
    SubsetSize(s.Keys, a.Keys - d);
    Without(a.Keys, d);
    assert |s| == |s.Keys| && |a| == |a.Keys|;
  }

  lemma EnumeratesJoin(q: seq<Ptr>, s: set<Ptr>, q': seq<Ptr>, s': set<Ptr>)
    requires Enumerates(q, s) && Enumerates(q', s') && s !! s'
    ensures Enumerates(q + q', s + s')
  {
  }

  /** What a stage makes of the timers `a`: those that stay, the list of those that expire, and the number
      of those reached. */
  ghost predicate Staged(turned: bool, w: nat, c: Clock, a: map<Ptr, Timer>, a': map<Ptr, Timer>, q: seq<Ptr>, n: nat) {
    a' == (if turned then ServeAll(c, a, w) else a) && Enumerates(q, if turned then Dying(c, a, w) else {}) &&
    n == if turned then |Reached(c, w, a)| else 0
  }

  /** One stage of tm_process_tick_and_update_timers: a wheel is served if its unit has turned. */
  method Stage(turned: bool, w: nat, c: Clock, tb0: Tables, ghost ts0: Trees, count0: nat, expd0: seq<Ptr>)
    returns (tb: Tables, ghost ts: Trees, count: nat, expd: seq<Ptr>, n: nat, ghost q: seq<Ptr>)
    requires Stored(tb0, ts0) && Flagged(tb0, ts0, {}) && w <= HRS && |Live(tb0, ts0)| <= count0
    ensures Stored(tb, ts) && Flagged(tb, ts, {}) && tb.apps.Keys == tb0.apps.Keys && |Live(tb, ts)| <= count
    ensures expd == expd0 + q && |q| <= count0 && count == count0 - |q|
    ensures Staged(turned, w, c, Live(tb0, ts0), Live(tb, ts), q, n)
  {
    tb, ts, count, expd, n, q := tb0, ts0, count0, expd0, 0, [];
    Grouping(expd0, [], []);
    if turned {
      tb, ts, count, expd, n, q := ProcessTimers(w, c, tb0, ts0, count0, expd0);
      ServedCount(c, w, Live(tb0, ts0), count0, q);
    }
  }

  /** Whether a wheel is served in this tick. */
  predicate Turned(c: Clock, rate: nat, w: nat)
    requires rate > 0
  {
    w == TICK || (c.NextSec(rate) && (w == SEC || (c.NextMin() && (w == MIN || (c.NextHr() && w == HRS)))))
  }

  /** The timers that the clock of a wheel has reached which is served in this tick. */
  ghost function Touched(c: Clock, rate: nat, a: map<Ptr, Timer>): set<Ptr>
    requires rate > 0
  {
    set i | i in a && Turned(c, rate, a[i].wheel) && a[i].rt == c.Read(a[i].wheel)
  }

  /** They are the timers that expire or move in this tick. */
  lemma TouchedIff(c: Clock, rate: nat, a: map<Ptr, Timer>, i: Ptr)
    requires rate > 0 && i in a && a[i].wheel <= HRS
    ensures i in Touched(c, rate, a) <==> Ticked(c, rate, a[i]) != Waits(a[i])
  {
  }

  /** Serving a wheel leaves alone the timers that another has reached, and adds none. */
  lemma ReachedAfter(c: Clock, a: map<Ptr, Timer>, v: nat, w: nat)
    requires v <= HRS && w <= HRS && v != w
    ensures Reached(c, w, ServeAll(c, a, v)) == Reached(c, w, a)
  {
    SplitBySign(Reached(c, w, ServeAll(c, a, v)));
    SplitBySign(Reached(c, w, a));
  }

  /** The stages reach each of the touched timers once. */
  lemma TouchedStages(c: Clock, rate: nat, a: map<Ptr, Timer>)
    requires rate > 0
    ensures var a0 := ServeAll(c, a, TICK);
            var a1 := if c.NextSec(rate) then ServeAll(c, a0, SEC) else a0;
            var a2 := if c.NextSec(rate) && c.NextMin() then ServeAll(c, a1, MIN) else a1;
            |Touched(c, rate, a)| == |Reached(c, TICK, a)| + (if c.NextSec(rate) then |Reached(c, SEC, a0)| else 0) +
              (if c.NextSec(rate) && c.NextMin() then |Reached(c, MIN, a1)| else 0) +
              (if c.NextSec(rate) && c.NextMin() && c.NextHr() then |Reached(c, HRS, a2)| else 0)
  {
    var a0 := ServeAll(c, a, TICK);
    var a1 := if c.NextSec(rate) then ServeAll(c, a0, SEC) else a0;
    ReachedAfter(c, a, TICK, SEC);
    ReachedAfter(c, a, TICK, MIN);
    ReachedAfter(c, a, TICK, HRS);
    ReachedAfter(c, a0, SEC, MIN);
    ReachedAfter(c, a0, SEC, HRS);
    ReachedAfter(c, a1, MIN, HRS);
    TouchedSize(c, rate, a);
  }

  lemma TouchedSize(c: Clock, rate: nat, a: map<Ptr, Timer>)
    requires rate > 0
    ensures |Touched(c, rate, a)| ==
            |Reached(c, TICK, a)| + (if Turned(c, rate, SEC) then |Reached(c, SEC, a)| else 0) +
            (if Turned(c, rate, MIN) then |Reached(c, MIN, a)| else 0) +
            (if Turned(c, rate, HRS) then |Reached(c, HRS, a)| else 0)
  {
    var r1 := if Turned(c, rate, SEC) then Reached(c, SEC, a) else {};
    var r2 := if Turned(c, rate, MIN) then Reached(c, MIN, a) else {};
    var r3 := if Turned(c, rate, HRS) then Reached(c, HRS, a) else {};
    FourParts(Touched(c, rate, a), Reached(c, TICK, a), r1, r2, r3);
  }

  lemma FourParts(t: set<Ptr>, r0: set<Ptr>, r1: set<Ptr>, r2: set<Ptr>, r3: set<Ptr>)
    requires forall i :: i in t <==> i in r0 || i in r1 || i in r2 || i in r3
    requires (forall i :: i in r0 ==> i !in r1 && i !in r2 && i !in r3) &&
             (forall i :: i in r1 ==> i !in r2 && i !in r3)
    requires forall i :: i in r2 ==> i !in r3
    ensures |t| == |r0| + |r1| + |r2| + |r3|
  {
    SplitBySign(t);
    SplitBySign(r0);
    SplitBySign(r1);
    SplitBySign(r2);
    SplitBySign(r3);
    assert t == r0 + r1 + r2 + r3;
    assert r0 !! r1 !! r2 !! r3;
  }

  /** tm_process_tick_and_update_timers. */
  method ProcessTick(c: Clock, rate: nat, tb0: Tables, ghost ts0: Trees, count0: nat, expd0: seq<Ptr>)
    returns (tb: Tables, ghost ts: Trees, count: nat, expd: seq<Ptr>, n: nat, ghost q: seq<Ptr>)
    requires Stored(tb0, ts0) && Flagged(tb0, ts0, {}) && |Live(tb0, ts0)| <= count0 && rate > 0
    ensures Stored(tb, ts) && Flagged(tb, ts, {}) && tb.apps.Keys == tb0.apps.Keys
    ensures Live(tb, ts) == TickAll(c, rate, Live(tb0, ts0)) && Enumerates(q, TickDying(c, rate, Live(tb0, ts0)))
    ensures expd == expd0 + q && |q| <= count0 && count == count0 - |q|
    ensures n == |Touched(c, rate, Live(tb0, ts0))|
  {
    ghost var q0, q1, q2, q3;
    var n0, n1, n2, n3;
    tb, ts, count, expd, n0, q0 := Stage(true, TICK, c, tb0, ts0, count0, expd0);
    ghost var a0 := Live(tb, ts);
    tb, ts, count, expd, n1, q1 := Stage(c.NextSec(rate), SEC, c, tb, ts, count, expd);
    ghost var a1 := Live(tb, ts);
    tb, ts, count, expd, n2, q2 := Stage(c.NextSec(rate) && c.NextMin(), MIN, c, tb, ts, count, expd);
    ghost var a2 := Live(tb, ts);
    tb, ts, count, expd, n3, q3 := Stage(c.NextSec(rate) && c.NextMin() && c.NextHr(), HRS, c, tb, ts, count, expd);
    n := n0 + n1 + n2 + n3;
    q := q0 + q1 + q2 + q3;
    JoinStages(c, rate, Live(tb0, ts0), a0, a1, a2, Live(tb, ts), q0, q1, q2, q3, n0, n1, n2, n3);
    Grouping4(expd0, q0, q1, q2, q3);
  }

  lemma Grouping4(a: seq<Ptr>, b: seq<Ptr>, c: seq<Ptr>, d: seq<Ptr>, e: seq<Ptr>)
    ensures a + b + c + d + e == a + (b + c + d + e)
  {
  }

  /** The four stages make up the tick. */
  lemma JoinStages(c: Clock, rate: nat, a: map<Ptr, Timer>, a0: map<Ptr, Timer>, a1: map<Ptr, Timer>,
                   a2: map<Ptr, Timer>, a3: map<Ptr, Timer>, q0: seq<Ptr>, q1: seq<Ptr>, q2: seq<Ptr>, q3: seq<Ptr>,
                   n0: nat, n1: nat, n2: nat, n3: nat)
    requires rate > 0 && Staged(true, TICK, c, a, a0, q0, n0) && Staged(c.NextSec(rate), SEC, c, a0, a1, q1, n1)
    requires Staged(c.NextSec(rate) && c.NextMin(), MIN, c, a1, a2, q2, n2)
    requires Staged(c.NextSec(rate) && c.NextMin() && c.NextHr(), HRS, c, a2, a3, q3, n3)
    ensures a3 == TickAll(c, rate, a) && Enumerates(q0 + q1 + q2 + q3, TickDying(c, rate, a))
    ensures n0 + n1 + n2 + n3 == |Touched(c, rate, a)|
  {
    Stages(c, rate, a);
    StagesDying(c, rate, a);
    TouchedStages(c, rate, a);
    JoinLists(q0, Dying(c, a, TICK), q1, if c.NextSec(rate) then Dying(c, a0, SEC) else {},
              q2, if c.NextSec(rate) && c.NextMin() then Dying(c, a1, MIN) else {},
              q3, if c.NextSec(rate) && c.NextMin() && c.NextHr() then Dying(c, a2, HRS) else {});
  }

  lemma JoinLists(q0: seq<Ptr>, d0: set<Ptr>, q1: seq<Ptr>, d1: set<Ptr>, q2: seq<Ptr>, d2: set<Ptr>, q3: seq<Ptr>,
                  d3: set<Ptr>)
    requires Enumerates(q0, d0) && Enumerates(q1, d1) && Enumerates(q2, d2) && Enumerates(q3, d3) &&
             d0 !! d1 !! d2 !! d3
    ensures Enumerates(q0 + q1 + q2 + q3, d0 + d1 + d2 + d3)
  {
    EnumeratesJoin(q0, d0, q1, d1);
    EnumeratesJoin(q0 + q1, d0 + d1, q2, d2);
    EnumeratesJoin(q0 + q1 + q2, d0 + d1 + d2, q3, d3);
  }

  /** Whether a wheel holds any timer, as rb_first tells. */
  method Occupied(w: nat, tb: Tables, ghost ts: Trees) returns (b: bool)
    requires Stored(tb, ts) && w <= HRS
    ensures b <==> exists i :: i in Live(tb, ts) && Live(tb, ts)[i].wheel == w
  {
    var first := Extreme(L, tb.roots[w], tb.mem, ts[w], NULL);
    b := first != NULL;
    NoNullBelow(tb.mem, ts[w], NULL);
    forall i ensures i in Nodes(ts[w]) <==> i in Live(tb, ts) && Live(tb, ts)[i].wheel == w {
      LiveOnWheel(tb, ts, w, i);
    }
    FirstOf(ts[w]);
  }

  lemma FirstOf(t: Shape)
    requires NULL !in Nodes(t)
    ensures End(L, Inorder(t)) != NULL <==> exists i :: i in Nodes(t)
    ensures End(L, Inorder(t)) != NULL ==> End(L, Inorder(t)) in Nodes(t)
  {
    if t.Node? {
      InorderNode(t, Inorder(t)[0]);
      assert t.n in Nodes(t);
    }
  }

  /** timers_pending_for_service. */
  method TimersPending(c: Clock, rate: nat, count: nat, tb: Tables, ghost ts: Trees) returns (b: bool)
    requires Stored(tb, ts) && rate > 0
    ensures b <==> Pending(c, rate, count, Live(tb, ts))
  {
    if count != 0 {
      var some := Occupied(TICK, tb, ts);
      if some {
        return true;
      }
      if c.NextSec(rate) {
        some := Occupied(SEC, tb, ts);
        if some {
          return true;
        }
      }
      if c.NextMin() {
        some := Occupied(MIN, tb, ts);
        if some {
          return true;
        }
      }
      if c.NextHr() {
        some := Occupied(HRS, tb, ts);
        if some {
          return true;
        }
      }
    }
    return false;
  }
}
