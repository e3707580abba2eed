/** The main loop over an abstract queue: what one call of decoder34401_process does, access by access,
    when interrupts may arrive before each access, and what that means for resets, times and pairs. */
module MainLoop {
  import opened Basics
  import opened Wire
  import opened SnifferRing
  import opened Panel
  import opened PanelRuns

  /** What happens while the main loop is between two accesses: interrupts, and the clock moves. */
  datatype Slot = Slot(irqs: seq<Interrupt>, now: u32)

  /** The queue, what the main loop has done, every interrupt so far, and how many of them had come when
      the loop last cleared the reset flag. */
  datatype Loop = Loop(queue: Queue, log: seq<Event>, irqs: seq<Interrupt>, acked: nat)

  /** A loop with what is yet to happen during the call, and the time it last read. */
  datatype Moment = Moment(m: Loop, slots: seq<Slot>, now: u32)

  function Interrupted(m: Loop, irqs: seq<Interrupt>): Loop {
    m.(queue := ArrivedAll(m.queue, irqs), irqs := m.irqs + irqs)
  }

  /** An interleaving point. */
  function Paused(c: Moment): Moment {
    if c.slots == [] then c
    else Moment(Interrupted(c.m, c.slots[0].irqs), c.slots[1..], c.slots[0].now)
  }

  function PausedFor(c: Moment, n: nat): Moment {
    if n == 0 then c else Paused(PausedFor(c, n - 1))
  }

  /** The loop guard: the write index is read, then, if the ring is empty, the reset flag. */
  function GuardHolds(c: Moment): bool {
    Paused(c).m.queue.waiting != [] || PausedFor(c, 2).m.queue.reset
  }

  function Guarded(c: Moment): Moment {
    PausedFor(c, if Paused(c).m.queue.waiting != [] then 2 else 3)
  }

  /** process_reset; its last write clears the flag. */
  function ResetHandled(c: Moment): Moment {
    var d := Paused(c.(m := c.m.(log := c.m.log + [ResetSeen])));
    d.(m := d.m.(queue := d.m.queue.(reset := false), acked := |d.m.irqs|))
  }

  /** The oldest pair is taken and goes through the frame machine. */
  function PairHandled(c: Moment): Moment
    requires c.m.queue.waiting != []
  {
    PausesAppend(c, 4);
    var d := PausedFor(c, 4);
    var q := d.m.queue;
    var e := Paused(d.(m := d.m.(queue := q.(waiting := q.waiting[1..]))));
    e.(m := e.m.(log := e.m.log + [Consume(q.waiting[0], e.now)]))
  }

  lemma {:induction false} PausesAppend(c: Moment, n: nat)
    ensures var d := PausedFor(c, n);
            && c.m.queue.waiting <= d.m.queue.waiting && c.m.log == d.m.log && c.m.acked == d.m.acked
            && (c.m.queue.reset ==> d.m.queue.reset)
            && |d.slots| <= |c.slots| && (c.slots != [] && n > 0 ==> |d.slots| < |c.slots|)
            && (c.slots == [] ==> d == c)
  {
    hide ArrivedAll;
    if n > 0 {
      PausesAppend(c, n - 1);
      var d := PausedFor(c, n - 1);
      if d.slots != [] {
        ArrivalsAppend(d.m.queue, d.slots[0].irqs);
      }
    }
  }

  lemma GuardedFacts(c: Moment)
    ensures var d := Guarded(c);
            && c.m.queue.waiting <= d.m.queue.waiting && c.m.log == d.m.log && c.m.acked == d.m.acked
            && (c.m.queue.reset ==> d.m.queue.reset)
            && |d.slots| <= |c.slots| && (c.slots != [] ==> |d.slots| < |c.slots|)
            && (c.slots == [] ==> d == c)
            && (GuardHolds(c) && !d.m.queue.reset ==> d.m.queue.waiting != [])
            && (!GuardHolds(c) ==> c.m.queue.waiting == [] && !c.m.queue.reset)
  {
    hide Paused;
    PausesAppend(c, 1);
    PausesAppend(c, 2);
    PausesAppend(c, 3);
    PausesAppend(Paused(c), 1);
    PausesAppend(PausedFor(c, 2), 1);
    assert PausedFor(c, 0) == c && PausedFor(c, 1) == Paused(c);
    assert PausedFor(Paused(c), 0) == Paused(c) && PausedFor(Paused(c), 1) == PausedFor(c, 2);
    assert PausedFor(PausedFor(c, 2), 0) == PausedFor(c, 2) && PausedFor(PausedFor(c, 2), 1) == PausedFor(c, 3);
  }

  lemma PairFacts(c: Moment)
    requires c.m.queue.waiting != []
    ensures var d := PairHandled(c);
            && |d.slots| <= |c.slots|
            && (c.slots == [] ==> d == c.(m := c.m.(queue := c.m.queue.(waiting := c.m.queue.waiting[1..]),
                                                    log := c.m.log + [Consume(c.m.queue.waiting[0], c.now)])))
            && c.m.queue.waiting[1..] <= d.m.queue.waiting
            && d.m.log == c.m.log + [Consume(c.m.queue.waiting[0], d.now)]
            && d.m.acked == c.m.acked
  {
    hide Paused;
    PausesAppend(c, 4);
    var d := PausedFor(c, 4);
    var q := d.m.queue;
    var e := d.(m := d.m.(queue := q.(waiting := q.waiting[1..])));
    PausesAppend(e, 1);
    assert PausedFor(e, 0) == e && PausedFor(e, 1) == Paused(e);
  }

  /** The drain loop. */
  function Drained(c: Moment): Moment
    decreases |c.slots|, |c.m.queue.waiting|
  {
    GuardedFacts(c);
    var d := Guarded(c);
    if !GuardHolds(c) then d
    else if d.m.queue.reset then ResetHandled(d)
    else
      PairFacts(d);
      Drained(PairHandled(d))
  }

  /** decoder34401_process. */
  function Processed(m: Loop, slots: seq<Slot>, start: u32): Loop {
    Drained(Moment(m.(log := m.log + [Tick(start)]), slots, start)).m
  }

  // ---- Resets ----

  function SeenResets(es: seq<Event>): nat {
    if es == [] then 0 else SeenResets(es[..|es| - 1]) + if es[|es| - 1] == ResetSeen then 1 else 0
  }

  function SentResets(irqs: seq<Interrupt>): nat {
    if irqs == [] then 0 else SentResets(irqs[..|irqs| - 1]) + if irqs[|irqs| - 1] == Reset then 1 else 0
  }

  lemma {:induction false} SeenSnoc(es: seq<Event>, e: Event)
    ensures SeenResets(es + [e]) == SeenResets(es) + if e == ResetSeen then 1 else 0
  {
    assert (es + [e])[..|es|] == es;
  }

  lemma {:induction false} SentConcat(a: seq<Interrupt>, b: seq<Interrupt>)
    ensures SentResets(a + b) == SentResets(a) + SentResets(b)
    ensures Reset in b <==> SentResets(b) > 0
  {
    if b == [] {
      assert a + b == a;
    } else {
      assert (a + b)[..|a + b| - 1] == a + b[..|b| - 1] && b == b[..|b| - 1] + [b[|b| - 1]];
      SentConcat(a, b[..|b| - 1]);
    }
  }

  /** The flag is up exactly if a reset came since it was last cleared, and every reset the loop has
      shown is one that came. */
  ghost predicate LoopInv(m: Loop) {
    && m.acked <= |m.irqs|
    && (m.queue.reset <==> Reset in m.irqs[m.acked..])
    && SeenResets(m.log) <= SentResets(m.irqs[..m.acked])
  }

  lemma InterruptedInv(m: Loop, irqs: seq<Interrupt>)
    requires LoopInv(m)
    ensures LoopInv(Interrupted(m, irqs))
  {
    ArrivalsAppend(m.queue, irqs);
    assert (m.irqs + irqs)[m.acked..] == m.irqs[m.acked..] + irqs;
    assert (m.irqs + irqs)[..m.acked] == m.irqs[..m.acked];
  }

  lemma {:induction false} PausesInv(c: Moment, n: nat)
    requires LoopInv(c.m)
    ensures LoopInv(PausedFor(c, n).m)
  {
    hide LoopInv, Interrupted;
    if n > 0 {
      PausesInv(c, n - 1);
      var d := PausedFor(c, n - 1);
      if d.slots != [] {
        InterruptedInv(d.m, d.slots[0].irqs);
      }
    }
  }

  /** The loop has shown a pending reset and clears the flag. */
  function Acknowledged(m: Loop): Loop {
    m.(log := m.log + [ResetSeen], queue := m.queue.(reset := false), acked := |m.irqs|)
  }

  lemma AcknowledgedInv(m: Loop)
    requires LoopInv(m) && m.queue.reset
    ensures LoopInv(Acknowledged(m))
  {
    SeenSnoc(m.log, ResetSeen);
    SentConcat(m.irqs[..m.acked], m.irqs[m.acked..]);
    assert m.irqs == m.irqs[..m.acked] + m.irqs[m.acked..] && m.irqs[..|m.irqs|] == m.irqs;
  }

  lemma ResetHandledFacts(c: Moment)
    ensures var d := Paused(c);
            ResetHandled(c) == d.(m := Acknowledged(d.m))
    ensures ResetHandled(c).m.log == c.m.log + [ResetSeen] && c.m.queue.waiting <= ResetHandled(c).m.queue.waiting
  {
    PausesAppend(c, 1);
    assert PausedFor(c, 0) == c && PausedFor(c, 1) == Paused(c);
    hide ArrivedAll;
  }

  lemma ResetHandledInv(c: Moment)
    requires LoopInv(c.m) && c.m.queue.reset
    ensures LoopInv(ResetHandled(c).m)
  {
    hide LoopInv, Paused, ResetHandled, Acknowledged;
    ResetHandledFacts(c);
    PausesInv(c, 1);
    PausesAppend(c, 1);
    assert PausedFor(c, 0) == c && PausedFor(c, 1) == Paused(c);
    AcknowledgedInv(Paused(c).m);
  }

  lemma PairHandledInv(c: Moment)
    requires LoopInv(c.m) && c.m.queue.waiting != []
    ensures LoopInv(PairHandled(c).m)
  {
    hide Paused;
    PausesInv(c, 4);
    PausesAppend(c, 4);
    var d := PausedFor(c, 4);
    var q := d.m.queue;
    var e := d.(m := d.m.(queue := q.(waiting := q.waiting[1..])));
    assert PausedFor(e, 0) == e && PausedFor(e, 1) == Paused(e);
    PausesInv(e, 1);
    SeenSnoc(Paused(e).m.log, Consume(q.waiting[0], Paused(e).now));
  }

  lemma {:induction false} DrainedInv(c: Moment)
    requires LoopInv(c.m)
    ensures LoopInv(Drained(c).m)
    decreases |c.slots|, |c.m.queue.waiting|
  {
    hide LoopInv, Guarded, GuardHolds, PairHandled, ResetHandled;
    GuardedFacts(c);
    var d := Guarded(c);
    assert LoopInv(d.m) by { GuardedInv(c); }
    if GuardHolds(c) {
      if d.m.queue.reset {
        ResetHandledInv(d);
      } else {
        PairFacts(d);
        PairHandledInv(d);
        DrainedInv(PairHandled(d));
      }
    }
  }

  lemma GuardedInv(c: Moment)
    requires LoopInv(c.m)
    ensures LoopInv(Guarded(c).m)
  {
    hide LoopInv;
    PausesInv(c, 2);
    PausesInv(c, 3);
  }

  lemma ProcessedInv(m: Loop, slots: seq<Slot>, start: u32)
    requires LoopInv(m)
    ensures LoopInv(Processed(m, slots, start))
  {
    SeenSnoc(m.log, Tick(start));
    DrainedInv(Moment(m.(log := m.log + [Tick(start)]), slots, start));
  }

  /** Without a reset on the line none is ever shown. */
  lemma {:induction false} UnsentIsUnseen(es: seq<Event>, irqs: seq<Interrupt>)
    ensures SeenResets(es) == 0 ==> ResetSeen !in es
    ensures Reset !in irqs ==> SentResets(irqs) == 0
  {
    SentConcat([], irqs);
    assert [] + irqs == irqs;
    if es != [] {
      UnsentIsUnseen(es[..|es| - 1], irqs);
      assert es == es[..|es| - 1] + [es[|es| - 1]];
    }
  }

  // ---- What one call does ----

  /** The times are readings of a clock that showed these values one after another. */
  ghost predicate ReadFrom(ts: seq<u32>, clock: seq<u32>)
    decreases |ts|, |clock|
  {
    ts == [] || (clock != [] && ((ts[0] == clock[0] && ReadFrom(ts[1..], clock)) || ReadFrom(ts, clock[1..])))
  }

  /** The times the call may read: the one it starts with, then one for every slot. */
  function Times(c: Moment): (ts: seq<u32>)
    ensures |ts| == |c.slots| + 1
    decreases |c.slots|
  {
    [c.now] + if c.slots == [] then [] else Times(Paused(c))
  }

  /** A reset arrives in one of the slots. */
  ghost predicate ResetComes(slots: seq<Slot>) {
    exists i :: 0 <= i < |slots| && Reset in slots[i].irqs
  }

  /** d is a later moment of the same call: what was to come is still to come, or has. */
  ghost predicate Later(c: Moment, d: Moment) {
    && |d.slots| <= |c.slots| && Times(d) == Times(c)[|c.slots| - |d.slots|..]
    && (ResetComes(d.slots) || d.m.queue.reset ==> ResetComes(c.slots) || c.m.queue.reset)
  }

  lemma LaterPause(c: Moment)
    ensures Later(c, Paused(c))
  {
    hide ArrivedAll;
    if c.slots != [] {
      ArrivalsAppend(c.m.queue, c.slots[0].irqs);
      var rest := c.slots[1..];
      assert ResetComes(rest) ==> ResetComes(c.slots) by {
        if i :| 0 <= i < |rest| && Reset in rest[i].irqs {
          assert c.slots[i + 1] == rest[i];
        }
      }
      assert Times(c)[1..] == Times(Paused(c));
    } else {
      assert Times(c)[0..] == Times(c);
    }
  }

  lemma LaterTransitive(c: Moment, d: Moment, e: Moment)
    requires Later(c, d) && Later(d, e)
    ensures Later(c, e)
  {
    var i, j := |c.slots| - |d.slots|, |d.slots| - |e.slots|;
    assert Times(c)[i..][j..] == Times(c)[i + j..];
  }

  lemma {:induction false} LaterPauses(c: Moment, n: nat)
    ensures Later(c, PausedFor(c, n))
  {
    if n == 0 {
      assert Times(c)[0..] == Times(c);
    } else {
      hide Paused, Later;
      LaterPauses(c, n - 1);
      LaterPause(PausedFor(c, n - 1));
      LaterTransitive(c, PausedFor(c, n - 1), PausedFor(c, n));
    }
  }

  lemma LaterPair(c: Moment)
    requires c.m.queue.waiting != []
    ensures Later(c, PairHandled(c))
  {
    PausesAppend(c, 4);
    LaterPauses(c, 4);
    hide Paused;
    var d := PausedFor(c, 4);
    var q := d.m.queue;
    var e := d.(m := d.m.(queue := q.(waiting := q.waiting[1..])));
    SameTimes(d, e);
    LaterPause(e);
    SameTimes(Paused(e), PairHandled(c));
    hide Later, Times;
    LaterTransitive(c, d, e);
    LaterTransitive(c, e, Paused(e));
    LaterTransitive(c, Paused(e), PairHandled(c));
  }

  lemma {:induction false} SameTimes(c: Moment, d: Moment)
    requires c.slots == d.slots && c.now == d.now && c.m.queue.reset == d.m.queue.reset
    ensures Times(c) == Times(d) && Later(c, d)
    decreases |c.slots|
  {
    hide ArrivedAll;
    if c.slots != [] {
      ArrivalsAppend(c.m.queue, c.slots[0].irqs);
      ArrivalsAppend(d.m.queue, c.slots[0].irqs);
      SameTimes(Paused(c), Paused(d));
    }
    assert Times(c) == Times(d) && Times(c)[0..] == Times(c);
  }

  lemma {:induction false} ReadFromLater(ts: seq<u32>, clock: seq<u32>, i: nat)
    requires i <= |clock| && ReadFrom(ts, clock[i..])
    ensures ReadFrom(ts, clock)
  {
    if i == 0 {
      assert clock[0..] == clock;
    } else {
      assert clock[1..][i - 1..] == clock[i..];
      ReadFromLater(ts, clock[1..], i - 1);
    }
  }

  lemma LaterGuarded(c: Moment)
    ensures Later(c, Guarded(c))
  {
    LaterPauses(c, 2);
    LaterPauses(c, 3);
  }

  lemma ShownResetCame(c: Moment, d: Moment)
    requires Later(c, d) && (ResetComes(d.slots) || d.m.queue.reset)
    ensures ResetComes(c.slots) || c.m.queue.reset
  {
  }

  lemma {:induction false} FirstTime(c: Moment, ts: seq<u32>)
    requires ReadFrom(ts, Times(c))
    ensures ReadFrom([c.now] + ts, Times(c))
  {
    assert ([c.now] + ts)[1..] == ts;
  }

  lemma {:induction false} LaterTimes(c: Moment, d: Moment, ts: seq<u32>)
    requires Later(c, d) && ReadFrom(ts, Times(d))
    ensures ReadFrom(ts, Times(c))
  {
    ReadFromLater(ts, Times(c), |c.slots| - |d.slots|);
  }

  lemma {:induction false} ConsumedCons(p: Pair, t: u32, ps: seq<Pair>, ts: seq<u32>)
    requires |ps| == |ts|
    ensures Consumed([p] + ps, [t] + ts) == [Consume(p, t)] + Consumed(ps, ts)
  {
    assert ([p] + ps)[1..] == ps && ([t] + ts)[1..] == ts;
  }

  lemma FirstPair(waiting: seq<Pair>, now: seq<Pair>, rest: seq<Pair>, ps: seq<Pair>)
    requires now != [] && waiting <= now && now[1..] <= rest
    requires ps <= rest || rest <= ps
    ensures [now[0]] + ps <= waiting || waiting <= [now[0]] + ps
    ensures rest <= ps ==> waiting <= [now[0]] + ps
  {
    if waiting != [] {
      assert waiting[1..] <= now[1..];
      assert waiting == [now[0]] + waiting[1..];
      assert waiting[1..] <= rest;
    }
  }

  /** From c to r the call consumed these pairs, oldest first, stamped with times of its own clock, and
      may have ended by showing a reset: at once if one was pending, only if one was or came, and if
      it did not, with all pairs that had been waiting consumed. */
  ghost predicate Went(c: Moment, r: Moment, ps: seq<Pair>, ts: seq<u32>, shown: bool) {
    && |ps| == |ts| && ReadFrom(ts, Times(c))
    && r.m.log == c.m.log + Consumed(ps, ts) + (if shown then [ResetSeen] else [])
    && (ps <= c.m.queue.waiting || c.m.queue.waiting <= ps)
    && (c.m.queue.reset ==> shown && ps == [])
    && (shown ==> c.m.queue.reset || ResetComes(c.slots))
    && (!shown ==> c.m.queue.waiting <= ps)
  }

  lemma WentPair(c: Moment, d: Moment, r: Moment, ps: seq<Pair>, ts: seq<u32>, shown: bool)
    requires d == Guarded(c) && GuardHolds(c) && !d.m.queue.reset && d.m.queue.waiting != []
    requires Went(PairHandled(d), r, ps, ts, shown)
    ensures Went(c, r, [d.m.queue.waiting[0]] + ps, [PairHandled(d).now] + ts, shown)
  {
    hide PairHandled, Paused, Times, ReadFrom, Consumed, Later, ResetComes;
    var p, f := d.m.queue.waiting[0], PairHandled(d);
    GuardedFacts(c);
    LaterGuarded(c);
    PairFacts(d);
    LaterPair(d);
    hide Guarded, GuardHolds;
    LaterTransitive(c, d, f);
    FirstTime(f, ts);
    LaterTimes(c, f, [f.now] + ts);
    FirstPair(c.m.queue.waiting, d.m.queue.waiting, f.m.queue.waiting, ps);
    ConsumedCons(p, f.now, ps, ts);
    LogCons(c.m.log, Consume(p, f.now), Consumed(ps, ts), if shown then [ResetSeen] else []);
    if shown {
      ShownResetCame(c, f);
    }
  }

  lemma LogCons(log: seq<Event>, e: Event, es: seq<Event>, tail: seq<Event>)
    ensures log + [e] + es + tail == log + ([e] + es) + tail
  {
  }

  /** What one call does, whatever arrives meanwhile. It goes on until, at one look, the ring is empty
      and, at the next, no reset is pending, or until it finds one pending behind the guard. */
  lemma {:induction false} OneCall(c: Moment) returns (ps: seq<Pair>, ts: seq<u32>, shown: bool, end: Moment)
    ensures Went(c, Drained(c), ps, ts, shown)
    ensures if shown then Guarded(end).m.queue.reset && Drained(c) == ResetHandled(Guarded(end))
            else !GuardHolds(end) && Drained(c) == Guarded(end)
    decreases |c.slots|, |c.m.queue.waiting|
  {
    hide PairHandled, ResetHandled, Paused;
    var d := Guarded(c);
    GuardedFacts(c);
    hide Guarded, GuardHolds, Went;
    if GuardHolds(c) && !d.m.queue.reset {
      PairFacts(d);
      ps, ts, shown, end := OneCall(PairHandled(d));
      WentPair(c, d, Drained(c), ps, ts, shown);
      ps, ts := [d.m.queue.waiting[0]] + ps, [PairHandled(d).now] + ts;
    } else {
      ps, ts, shown, end := [], [], GuardHolds(c), c;
      WentNowhere(c, shown);
    }
  }

  lemma {:induction false} WentNowhere(c: Moment, shown: bool)
    requires shown == GuardHolds(c) && (shown ==> Guarded(c).m.queue.reset)
    ensures Went(c, Drained(c), [], [], shown)
  {
    hide ResetHandled, PairHandled, Paused, Times, Later, ResetComes;
    GuardedFacts(c);
    LaterGuarded(c);
    var d := Guarded(c);
    hide Guarded, GuardHolds;
    assert Consumed([], []) == [];
    if shown {
      ResetHandledFacts(d);
      ShownResetCame(c, d);
    }
  }

  lemma {:induction false} QuietTurn(c: Moment)
    requires c.slots == []
    ensures Drained(c) ==
            if c.m.queue.reset then c.(m := Acknowledged(c.m))
            else if c.m.queue.waiting == [] then c
            else Drained(c.(m := Taken(c.m, c.now)))
  {
    hide PairHandled, ResetHandled, Paused;
    GuardedFacts(c);
    PausesAppend(c, 1);
    PausesAppend(c, 2);
    assert PausedFor(c, 0) == c && PausedFor(c, 1) == Paused(c);
    assert GuardHolds(c) <==> c.m.queue.waiting != [] || c.m.queue.reset;
    hide Guarded, GuardHolds;
    if c.m.queue.reset {
      ResetHandledFacts(c);
    } else if c.m.queue.waiting != [] {
      PairFacts(c);
    }
  }

  /** The oldest pair is taken with nothing else happening. */
  function Taken(m: Loop, now: u32): Loop
    requires m.queue.waiting != []
  {
    m.(queue := m.queue.(waiting := m.queue.waiting[1..]), log := m.log + [Consume(m.queue.waiting[0], now)])
  }

  /** All pairs are taken. */
  function Emptied(m: Loop, ts: seq<u32>): Loop
    requires |ts| == |m.queue.waiting|
  {
    m.(queue := m.queue.(waiting := []), log := m.log + Consumed(m.queue.waiting, ts))
  }

  lemma EmptiedTaken(m: Loop, ts: seq<u32>)
    requires |ts| == |m.queue.waiting|
    ensures if ts == [] then Emptied(m, ts) == m else Emptied(Taken(m, ts[0]), ts[1..]) == Emptied(m, ts)
  {
    if ts == [] {
      assert m.log + [] == m.log;
    } else {
      var w := m.queue.waiting;
      assert w == [w[0]] + w[1..] && ts == [ts[0]] + ts[1..];
      ConsumedCons(w[0], ts[0], w[1..], ts[1..]);
      hide Consumed;
      assert m.log + [Consume(w[0], ts[0])] + Consumed(w[1..], ts[1..]) == m.log + Consumed(w, ts);
    }
  }

  lemma {:induction false} QuietDrain(c: Moment, ts: seq<u32>)
    requires c.slots == [] && |ts| == |c.m.queue.waiting| && forall i :: 0 <= i < |ts| ==> ts[i] == c.now
    ensures Drained(c).m == if c.m.queue.reset then Acknowledged(c.m) else Emptied(c.m, ts)
    decreases |ts|
  {
    QuietTurn(c);
    EmptiedTaken(c.m, ts);
    hide Drained, Acknowledged, Emptied;
    if ts != [] && !c.m.queue.reset {
      QuietDrain(c.(m := Taken(c.m, c.now)), ts[1..]);
    }
  }

  /** When nothing arrives, a pending reset is shown and the ring left as it is; otherwise the ring is
      emptied. */
  lemma QuietCall(m: Loop, start: u32)
    ensures var (r, n) := (m.(log := m.log + [Tick(start)]), |m.queue.waiting|);
            Processed(m, [], start) == if m.queue.reset then Acknowledged(r) else Emptied(r, seq(n, i => start))
  {
    QuietDrain(Moment(m.(log := m.log + [Tick(start)]), [], start), seq(|m.queue.waiting|, i => start));
  }

  /** A call only adds to the log. */
  lemma ProcessedAppends(m: Loop, slots: seq<Slot>, start: u32)
    ensures m.log <= Processed(m, slots, start).log
  {
    hide Drained, Times;
    var c := Moment(m.(log := m.log + [Tick(start)]), slots, start);
    var ps, ts, shown, end := OneCall(c);
    assert m.log <= m.log + [Tick(start)] <= Drained(c).m.log;
  }
}
