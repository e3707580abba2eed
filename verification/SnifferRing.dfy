/** The interrupt side of the decoder: shift registers and the 256-slot single-producer,
    single-consumer ring through which it hands byte pairs to the main loop. */
module SnifferRing {
  import opened Basics
  import opened Wire

  const BYTE_FIFO_SIZE: int := 256

  lemma FullWhenNextMeets(w: nat, r: nat)
    requires r <= w < r + BYTE_FIFO_SIZE
    ensures (w % BYTE_FIFO_SIZE + 1) % BYTE_FIFO_SIZE == (w + 1) % BYTE_FIFO_SIZE
    ensures (w + 1) % BYTE_FIFO_SIZE == r % BYTE_FIFO_SIZE <==> w == r + 255
  {
  }

  lemma SlotsDiffer(k: nat, w: nat)
    requires k < w < k + BYTE_FIFO_SIZE
    ensures k % BYTE_FIFO_SIZE != w % BYTE_FIFO_SIZE
  {
  }

  // ---- The ring as a queue ----

  /** What the interrupts share with the main loop: pairs waiting, oldest first, and a pending reset. */
  datatype Queue = Queue(shifter: Shifter, waiting: seq<Pair>, reset: bool, lost: nat)

  function Arrived(q: Queue, i: Interrupt): Queue {
    match i
    case Reset => q.(shifter := q.shifter.(len := 0), reset := true)
    case Clock(e) =>
      var (next, out) := OnEdge(q.shifter, e);
      if |q.waiting| < 255 then q.(shifter := next, waiting := q.waiting + out)
      else q.(shifter := next, lost := q.lost + |out|)
  }

  /** The pair in the registers joins the queue, or is lost when 255 are waiting. */
  function Appended(q: Queue): Queue {
    var s := q.shifter.(len := 0);
    if |q.waiting| < 255 then q.(shifter := s, waiting := q.waiting + [Pair(s.inAcc, s.outAcc)])
    else q.(shifter := s, lost := q.lost + 1)
  }

  function ArrivedAll(q: Queue, irqs: seq<Interrupt>): Queue
    decreases |irqs|
  {
    if irqs == [] then q else ArrivedAll(Arrived(q, irqs[0]), irqs[1..])
  }

  /** Interrupts only append, and only they raise the flag. */
  lemma {:induction false} ArrivalsAppend(q: Queue, irqs: seq<Interrupt>)
    ensures var r := ArrivedAll(q, irqs);
            q.waiting <= r.waiting && r.reset == (q.reset || Reset in irqs)
    decreases |irqs|
  {
    if irqs != [] {
      hide OnEdge;
      ArrivalsAppend(Arrived(q, irqs[0]), irqs[1..]);
    }
  }

  /** With nothing lost, what waits is what the interrupts emitted; nothing is lost while it fits. */
  lemma {:induction false} ArrivalsEmit(q: Queue, irqs: seq<Interrupt>)
    requires q.shifter.len < 8
    ensures var r := ArrivedAll(q, irqs);
            && r.shifter == After(q.shifter, irqs) && q.lost <= r.lost
            && (r.lost == q.lost ==> r.waiting == q.waiting + Emitted(q.shifter, irqs))
            && (|q.waiting| + |Emitted(q.shifter, irqs)| <= 255 ==> r.lost == q.lost)
    decreases |irqs|
  {
    if irqs != [] {
      hide OnEdge;
      AtMostOne(q.shifter, irqs[0]);
      ArrivalsEmit(Arrived(q, irqs[0]), irqs[1..]);
    }
  }

  lemma AtMostOne(s: Shifter, i: Interrupt)
    requires s.len < 8
    ensures |OnInterrupt(s, i).1| <= 1 && OnInterrupt(s, i).0.len < 8
  {
  }

  lemma {:induction false} NothingArrived(q: Queue)
    ensures ArrivedAll(q, []) == q && Emitted(q.shifter, []) == []
  {
  }

  lemma {:induction false} EmittedSnoc(s: Shifter, irqs: seq<Interrupt>, i: Interrupt)
    ensures Emitted(s, irqs + [i]) == Emitted(s, irqs) + OnInterrupt(After(s, irqs), i).1
  {
    EmittedConcat(s, irqs, [i]);
    assert [i][1..] == [];
  }

  lemma {:induction false} ArrivalsSnoc(q: Queue, irqs: seq<Interrupt>, i: Interrupt)
    ensures ArrivedAll(q, irqs + [i]) == Arrived(ArrivedAll(q, irqs), i)
    decreases |irqs|
  {
    hide Arrived;
    if irqs == [] {
      assert [i][1..] == [] && irqs + [i] == [i];
    } else {
      assert (irqs + [i])[0] == irqs[0] && (irqs + [i])[1..] == irqs[1..] + [i];
      ArrivalsSnoc(Arrived(q, irqs[0]), irqs[1..], i);
    }
  }

  class Sniffer {
    var inputAcc: byte
    var outputAcc: byte
    var byteLen: nat
    var lastUs: u32
    const fifoIn: array<byte>
    const fifoOut: array<byte>
    var fifoWr: nat
    var fifoRd: nat
    var resetReceived: bool
    ghost var overruns: nat          // dbg_byte_overrun_count, unbounded
    ghost var attempts: nat          // calls of fifo_append
    ghost var stored: seq<Pair>      // every pair ever stored, oldest first
    ghost var consumed: seq<Pair>    // every pair the main loop has taken out

    /** The ring holds exactly the pairs stored and not yet consumed, each in one piece. */
    ghost predicate RingValid()
      reads this, fifoIn, fifoOut
    {
      && fifoIn.Length == BYTE_FIFO_SIZE && fifoOut.Length == BYTE_FIFO_SIZE && fifoIn != fifoOut
      && |consumed| <= |stored| < |consumed| + BYTE_FIFO_SIZE
      && fifoRd == |consumed| % BYTE_FIFO_SIZE
      && fifoWr == |stored| % BYTE_FIFO_SIZE
      && consumed == stored[..|consumed|]
      && (forall k :: |consumed| <= k < |stored| ==>
            Pair(fifoIn[k % BYTE_FIFO_SIZE], fifoOut[k % BYTE_FIFO_SIZE]) == stored[k])
      && attempts == |stored| + overruns
    }

    ghost predicate Valid()
      reads this, fifoIn, fifoOut
    {
      RingValid() && byteLen < 8
    }

    ghost function Level(): int
      reads this
    {
      |stored| - |consumed|
    }

    ghost function Registers(): Shifter
      reads this
    {
      Shifter(inputAcc, outputAcc, byteLen, lastUs)
    }

    ghost function Now(): Queue
      requires |consumed| <= |stored|
      reads this
    {
      Queue(Registers(), stored[|consumed|..], resetReceived, overruns)
    }

    /** The slot at the read index holds the oldest pair. */
    lemma Oldest()
      requires RingValid() && Level() > 0
      ensures Now().waiting != [] && Now().waiting[0] == stored[|consumed|]
      ensures stored[|consumed|] == Pair(fifoIn[fifoRd], fifoOut[fifoRd])
    {
    }

    /** The indices meet when nothing waits. */
    lemma EmptyWhenMet()
      requires RingValid()
      ensures fifoRd == fifoWr <==> Now().waiting == []
    {
    }

    constructor ()
      ensures Valid() && fresh(fifoIn) && fresh(fifoOut)
      ensures Registers() == Shifter(0, 0, 0, 0) && stored == [] && consumed == [] && overruns == 0
      ensures !resetReceived
    {
      fifoIn := new byte[BYTE_FIFO_SIZE](_ => 0);
      fifoOut := new byte[BYTE_FIFO_SIZE](_ => 0);
      inputAcc, outputAcc, byteLen, lastUs := 0, 0, 0, 0;
      fifoWr, fifoRd, resetReceived := 0, 0, false;
      overruns, attempts, stored, consumed := 0, 0, [], [];
    }

    /** What the interrupt handler keeps of the main loop's side. */
    twostate predicate OnlyAdds()
      reads this
    {
      && consumed == old(consumed) && fifoRd == old(fifoRd)
      && old(stored) <= stored
      && old(attempts) <= attempts && old(overruns) <= overruns
    }

    /** fifo_append: the pair in the registers is stored, or counted as an overrun when the ring is full. */
    method FifoAppend()
      requires RingValid()
      modifies this, fifoIn, fifoOut
      ensures RingValid() && OnlyAdds()
      ensures attempts == old(attempts) + 1
      ensures Now() == Appended(old(Now()))
    {
      FullWhenNextMeets(|stored|, |consumed|);
      var nextWr := (fifoWr + 1) % BYTE_FIFO_SIZE;
      if nextWr == fifoRd {
        overruns := overruns + 1;
      } else {
        fifoIn[fifoWr] := inputAcc;
        fifoOut[fifoWr] := outputAcc;
        fifoWr := nextWr;
        forall k | |consumed| <= k < |stored|
          ensures k % BYTE_FIFO_SIZE != |stored| % BYTE_FIFO_SIZE
        {
          SlotsDiffer(k, |stored|);
        }
        stored := stored + [Pair(inputAcc, outputAcc)];
      }
      attempts := attempts + 1;
      byteLen := 0;
    }

    /** The main loop's one write to the ring: the oldest pair is consumed. */
    method AdvanceRead(next: nat)
      requires RingValid() && Level() > 0 && next == (fifoRd + 1) % BYTE_FIFO_SIZE
      modifies this`fifoRd, this`consumed
      ensures RingValid() && consumed == old(consumed) + [stored[|old(consumed)|]]
      ensures Now() == old(Now()).(waiting := old(Now()).waiting[1..])
    {
      FullWhenNextMeets(|consumed|, |consumed|);
      fifoRd := next;
      consumed := consumed + [stored[|consumed|]];
    }

    /** decoder34401_sckedge, from the sampled bits on. */
    method SckEdge(e: Edge)
      requires Valid()
      modifies this, fifoIn, fifoOut
      ensures Valid() && OnlyAdds()
      ensures attempts == old(attempts) + |OnEdge(old(Registers()), e).1|
      ensures Now() == Arrived(old(Now()), Clock(e))
    {
      hide Elapsed, ShiftIn;
      if lastUs > 0 {
        if byteLen != 0 && Elapsed(e.now, lastUs) > MAX_SCK_DELAY_US {
          inputAcc := 0x00;
          outputAcc := 0xbb;
          FifoAppend();
        }
      }
      lastUs := e.now;
      outputAcc := ShiftIn(outputAcc, e.do_);
      inputAcc := ShiftIn(inputAcc, e.di);
      byteLen := byteLen + 1;
      if byteLen >= 8 {
        FifoAppend();
      }
    }

    /** decoder34401_reset: the byte in progress is dropped, the ring is not. */
    method ResetEdge()
      requires Valid()
      modifies this
      ensures Valid() && OnlyAdds() && attempts == old(attempts)
      ensures Now() == Arrived(old(Now()), Reset)
    {
      byteLen := 0;
      resetReceived := true;
    }

    /** Any number of interrupts in a row, as they may arrive between two accesses of the main loop. */
    method Interrupts(irqs: seq<Interrupt>)
      requires Valid()
      modifies this, fifoIn, fifoOut
      ensures Valid() && OnlyAdds()
      ensures Now() == ArrivedAll(old(Now()), irqs)
      ensures attempts == old(attempts) + |Emitted(old(Registers()), irqs)|
    {
      hide OnEdge, Arrived, ArrivedAll, Emitted;
      ghost var s0, q0 := Registers(), Now();
      var i := 0;
      NothingArrived(q0);
      while i < |irqs|
        invariant 0 <= i <= |irqs| && Valid() && OnlyAdds()
        invariant Now() == ArrivedAll(q0, irqs[..i])
        invariant attempts == old(attempts) + |Emitted(s0, irqs[..i])|
      {
        assert irqs[..i + 1] == irqs[..i] + [irqs[i]];
        EmittedSnoc(s0, irqs[..i], irqs[i]);
        ArrivalsSnoc(q0, irqs[..i], irqs[i]);
        ArrivalsEmit(q0, irqs[..i]);
        match irqs[i] {
          case Clock(e) => SckEdge(e);
          case Reset => ResetEdge();
        }
        i := i + 1;
      }
      assert irqs[..i] == irqs;
    }
  }
}
