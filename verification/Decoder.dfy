/** The decoder as a whole: the main loop drains the ring while interrupts arrive between any two of
    its accesses to shared state. Interrupts run to completion, as on one core. Every method does to
    the ring, the flag and the log exactly what module MainLoop says. */
module Decoder {
  import opened Basics
  import opened Wire
  import opened SnifferRing
  import opened FrontPanelDecoder
  import opened Frames
  import opened Panel
  import opened PanelRuns
  import opened MainLoop

  class DmmContext {
    const ring: Sniffer
    const panel: FrontPanel
    ghost var log: seq<Event>         // what the main loop did since decoder34401_init
    ghost var irqs: seq<Interrupt>    // every interrupt since then
    ghost var acked: nat              // how many of them had come when reset_received was last cleared

    ghost function RingObjects(): set<object> {
      var o: set<object> := {ring, ring.fifoIn, ring.fifoOut};
      o
    }

    ghost function PanelObjects(): set<object> {
      {panel} + panel.Arrays()
    }

    /** What the interrupts alone determine. */
    ghost predicate RingSide()
      reads this`irqs, RingObjects()
    {
      && ring.Valid()
      && ring.Registers() == After(POWER_ON, irqs)
      && ring.attempts == |Emitted(POWER_ON, irqs)|
      && (ring.overruns == 0 ==> ring.stored == Emitted(POWER_ON, irqs))
    }

    ghost predicate PanelSide()
      reads this`log, PanelObjects()
    {
      && panel.Shape() && panel.State() == Reached(log)
    }

    ghost predicate Consistent()
      reads this, RingObjects(), PanelObjects()
    {
      && RingObjects() !! PanelObjects() && this !in RingObjects() && this !in PanelObjects()
      && RingSide() && PanelSide()
      && Pairs(log) == ring.consumed
    }

    ghost predicate Valid()
      reads this, RingObjects(), PanelObjects()
    {
      Consistent() && LoopInv(Machine())
    }

    ghost function Machine(): Loop
      requires |ring.consumed| <= |ring.stored|
      reads this`log, this`irqs, this`acked, ring
    {
      Loop(ring.Now(), log, irqs, acked)
    }

    /** The machine with what is yet to happen. */
    ghost function At(slots: seq<Slot>, now: u32): Moment
      requires |ring.consumed| <= |ring.stored|
      reads this`log, this`irqs, this`acked, ring
    {
      Moment(Machine(), slots, now)
    }

    constructor ()
      ensures Valid() && log == [] && irqs == [] && acked == 0 && fresh(RingObjects()) && fresh(PanelObjects())
    {
      ring := new Sniffer();
      panel := new FrontPanel();
      log, irqs, acked := [], [], 0;
    }

    /** Interrupts arrive. */
    method Deliver(arriving: seq<Interrupt>)
      requires RingSide() && this !in RingObjects()
      modifies this`irqs, RingObjects()
      ensures RingSide() && ring.OnlyAdds()
      ensures Machine() == Interrupted(old(Machine()), arriving)
    {
      hide Arrived, ArrivedAll, OnEdge, After, Emitted;
      EmittedConcat(POWER_ON, irqs, arriving);
      ArrivalsEmit(ring.Now(), arriving);
      assert ring.stored == ring.consumed + ring.Now().waiting;
      ring.Interrupts(arriving);
      assert ring.stored == ring.consumed + ring.Now().waiting;
      irqs := irqs + arriving;
    }

    /** An interleaving point of the main loop. */
    method Pause(slots: seq<Slot>, now: u32) returns (rest: seq<Slot>, later: u32)
      requires RingSide() && this !in RingObjects()
      modifies this`irqs, RingObjects()
      ensures RingSide() && ring.OnlyAdds()
      ensures At(rest, later) == Paused(old(At(slots, now)))
    {
      hide Interrupted;
      if slots == [] {
        return [], now;
      }
      Deliver(slots[0].irqs);
      return slots[1..], slots[0].now;
    }

    /** The two halves of the oldest pair are read one at a time, with interrupts in between, and still
        they are the halves of one pair. */
    method ReadOldest(slots: seq<Slot>, now: u32) returns (inp: byte, out: byte, rest: seq<Slot>, later: u32)
      requires RingSide() && this !in RingObjects() && ring.Level() > 0
      modifies this`irqs, RingObjects()
      ensures RingSide() && ring.OnlyAdds()
      ensures Pair(inp, out) == old(ring.stored)[|old(ring.consumed)|]
      ensures At(rest, later) == PausedFor(old(At(slots, now)), 2)
    {
      hide Paused, After, Emitted;
      ghost var c := At(slots, now);
      assert PausedFor(c, 1) == Paused(PausedFor(c, 0));
      rest, later := Pause(slots, now);
      ring.Oldest();
      inp := ring.fifoIn[ring.fifoRd];
      rest, later := Pause(rest, later);
      ring.Oldest();
      out := ring.fifoOut[ring.fifoRd];
    }

    /** Take the oldest pair out of the ring: each half and the read index are accessed on their own, with
        interrupts in between, and the pair is the one that was stored. */
    method TakePair(slots: seq<Slot>, now: u32) returns (inp: byte, out: byte, rest: seq<Slot>, later: u32)
      requires RingSide() && this !in RingObjects() && ring.Level() > 0
      modifies this`irqs, RingObjects()
      ensures RingSide() && old(ring.stored) <= ring.stored
      ensures ring.consumed == old(ring.consumed) + [Pair(inp, out)]
      ensures Pair(inp, out) == old(ring.stored)[|old(ring.consumed)|]
      ensures var d := PausedFor(old(At(slots, now)), 4);
              && d.m.queue.waiting != [] && Pair(inp, out) == d.m.queue.waiting[0]
              && At(rest, later) == d.(m := d.m.(queue := d.m.queue.(waiting := d.m.queue.waiting[1..])))
    {
      hide Paused, After, Emitted;
      ghost var c := At(slots, now);
      inp, out, rest, later := ReadOldest(slots, now);
      assert PausedFor(c, 3) == Paused(PausedFor(c, 2));
      rest, later := Pause(rest, later);
      var next := (ring.fifoRd + 1) % BYTE_FIFO_SIZE;
      rest, later := Pause(rest, later);
      ring.Oldest();
      ring.AdvanceRead(next);
    }

    /** The loop guard: write index, then reset flag, each read on its own. */
    method MoreToDo(slots: seq<Slot>, now: u32) returns (more: bool, rest: seq<Slot>, later: u32)
      requires RingSide() && this !in RingObjects()
      modifies this`irqs, RingObjects()
      ensures RingSide() && ring.OnlyAdds()
      ensures more == GuardHolds(old(At(slots, now))) && At(rest, later) == Guarded(old(At(slots, now)))
    {
      hide Paused, After, Emitted;
      ghost var c := At(slots, now);
      assert PausedFor(c, 1) == Paused(PausedFor(c, 0));
      var rd := ring.fifoRd;
      rest, later := Pause(slots, now);
      ring.EmptyWhenMet();
      more := rd != ring.fifoWr;
      if !more {
        rest, later := Pause(rest, later);
        more := ring.resetReceived;
      }
      rest, later := Pause(rest, later);
    }

    method PanelReset()
      requires PanelSide() && this !in PanelObjects()
      modifies this`log, PanelObjects()
      ensures PanelSide() && log == old(log) + [ResetSeen] && Pairs(log) == Pairs(old(log))
    {
      hide Reached, Restarted, Pairs;
      PairsSnoc(log, ResetSeen);
      ReachedSnoc(log, ResetSeen);
      assert Step(panel.State(), ResetSeen) == Restarted(panel.State());
      panel.ProcessReset();
      log := log + [ResetSeen];
    }

    method PanelTick(now: u32)
      requires PanelSide() && this !in PanelObjects()
      modifies this`log, PanelObjects()
      ensures PanelSide() && log == old(log) + [Tick(now)] && Pairs(log) == Pairs(old(log))
    {
      hide Reached, CloseWindow, Pairs;
      PairsSnoc(log, Tick(now));
      ReachedSnoc(log, Tick(now));
      assert Step(panel.State(), Tick(now)) == CloseWindow(panel.State(), now);
      panel.ProcessShiftWindow(now);
      log := log + [Tick(now)];
    }

    method PanelConsume(inp: byte, out: byte, now: u32)
      requires PanelSide() && this !in PanelObjects()
      modifies this`log, PanelObjects()
      ensures PanelSide() && log == old(log) + [Consume(Pair(inp, out), now)]
      ensures Pairs(log) == Pairs(old(log)) + [Pair(inp, out)]
    {
      hide Reached, Step, PanelInv, Pairs;
      PairsSnoc(log, Consume(Pair(inp, out), now));
      ReachedInv(log);
      ReachedSnoc(log, Consume(Pair(inp, out), now));
      panel.ConsumeByte(inp, out, now);
      log := log + [Consume(Pair(inp, out), now)];
    }

    /** process_reset, and its last write, which clears the flag: a reset that arrives meanwhile is
        acknowledged with the one that is being handled. */
    method HandleReset(slots: seq<Slot>, now: u32) returns (rest: seq<Slot>, later: u32)
      requires Consistent()
      modifies this, RingObjects(), PanelObjects()
      ensures Consistent() && ring.consumed == old(ring.consumed) && old(ring.stored) <= ring.stored
      ensures At(rest, later) == ResetHandled(old(At(slots, now)))
    {
      hide Reached, After, Emitted, Pairs, Paused;
      PanelReset();
      rest, later := Pause(slots, now);
      ring.resetReceived := false;
      acked := |irqs|;
    }

    /** One turn of the drain loop on a pair. */
    method ConsumeOne(slots: seq<Slot>, now: u32) returns (rest: seq<Slot>, later: u32)
      requires Consistent() && ring.Level() > 0
      modifies this, RingObjects(), PanelObjects()
      ensures Consistent() && old(ring.stored) <= ring.stored && old(ring.consumed) <= ring.consumed
      ensures At(rest, later) == PairHandled(old(At(slots, now)))
    {
      hide Reached, After, Emitted, Pairs, Paused, PausedFor;
      var inp, out;
      inp, out, rest, later := TakePair(slots, now);
      rest, later := Pause(rest, later);
      PanelConsume(inp, out, later);
    }

    /** The drain loop. Whatever interrupts arrive between its accesses, it does what the loop over the
        queue does. */
    method Drain(slots: seq<Slot>, start: u32)
      requires Consistent()
      modifies this, RingObjects(), PanelObjects()
      ensures Consistent() && old(ring.stored) <= ring.stored && old(ring.consumed) <= ring.consumed
      ensures Machine() == Drained(old(At(slots, start))).m
    {
      hide Reached, After, Emitted, Pairs, Paused, PausedFor, Guarded, GuardHolds, PairHandled, ResetHandled;
      var now, rest := start, slots;
      while true
        invariant Consistent() && old(ring.stored) <= ring.stored && old(ring.consumed) <= ring.consumed
        invariant Drained(At(rest, now)) == Drained(old(At(slots, start)))
        decreases |rest|, ring.Level()
      {
        GuardedFacts(At(rest, now));
        var more;
        more, rest, now := MoreToDo(rest, now);
        if !more {
          break;
        }
        if ring.resetReceived {
          rest, now := HandleReset(rest, now);
          break;
        }
        PairFacts(At(rest, now));
        rest, now := ConsumeOne(rest, now);
      }
    }

    /** decoder34401_process. */
    method Process(slots: seq<Slot>, start: u32)
      requires Valid()
      modifies this, RingObjects(), PanelObjects()
      ensures Valid() && old(ring.stored) <= ring.stored && old(ring.consumed) <= ring.consumed && old(log) <= log
      ensures Machine() == Processed(old(Machine()), slots, start)
    {
      hide Reached, After, Emitted, Pairs, Drained, LoopInv;
      ProcessedAppends(Machine(), slots, start);
      ProcessedInv(Machine(), slots, start);
      PanelTick(start);
      Drain(slots, start);
    }

    /** Interrupts while the main loop is elsewhere. */
    method Idle(arriving: seq<Interrupt>)
      requires Valid()
      modifies this`irqs, RingObjects()
      ensures Valid() && ring.OnlyAdds() && log == old(log) && panel.State() == old(panel.State())
      ensures Machine() == Interrupted(old(Machine()), arriving)
    {
      hide LoopInv, Reached, After, Emitted, Pairs, ArrivedAll;
      InterruptedInv(Machine(), arriving);
      Deliver(arriving);
    }

    /** A call of the main loop, and interrupts until its next one. */
    method ProcessThenIdle(slots: seq<Slot>, start: u32, idle: seq<Interrupt>)
      requires Valid()
      modifies this, RingObjects(), PanelObjects()
      ensures Valid() && old(log) <= log
      ensures Machine() == Interrupted(Processed(old(Machine()), slots, start), idle)
    {
      hide LoopInv, Processed, Interrupted, Consistent;
      Process(slots, start);
      Idle(idle);
    }
  }
}
