/** The two data lines as the clock interrupt sees them: one bit of each line per falling clock
    edge, most significant bit first, and a time stamp that wraps at 2^32 microseconds. */
module Wire {
  import opened Basics

  const MAX_SCK_DELAY_US: int := 1500

  /** One byte from the meter to the panel (inp) and the byte sampled beside it (out). */
  datatype Pair = Pair(inp: byte, out: byte)

  /** The frame end; the interrupt handler stores the same pair where a byte broke off. */
  const EOF := Pair(0x00, 0xbb)

  datatype Edge = Edge(now: u32, di: bool, do_: bool)

  datatype Interrupt = Clock(edge: Edge) | Reset

  /** The shift registers between two interrupts. */
  datatype Shifter = Shifter(inAcc: byte, outAcc: byte, len: nat, lastUs: u32)

  const POWER_ON := Shifter(0, 0, 0, 0)

  /** Unsigned 32-bit difference, as C computes it. */
  function Elapsed(now: u32, start: u32): u32 { (now - start) % 0x1_0000_0000 }

  function ShiftIn(acc: byte, bit: bool): byte { (2 * acc + if bit then 1 else 0) % 256 }

  /** A byte broke off and the pause is seen; a previous edge at time 0 counts as no edge. */
  predicate BreaksOff(s: Shifter, now: u32) {
    s.len != 0 && s.lastUs != 0 && Elapsed(now, s.lastUs) > MAX_SCK_DELAY_US
  }

  function OnEdge(s: Shifter, e: Edge): (r: (Shifter, seq<Pair>)) {
    var marked := BreaksOff(s, e.now);
    var inAcc := ShiftIn(if marked then EOF.inp else s.inAcc, e.di);
    var outAcc := ShiftIn(if marked then EOF.out else s.outAcc, e.do_);
    var len := if marked then 1 else s.len + 1;
    var marker := if marked then [EOF] else [];
    if len >= 8
    then (Shifter(inAcc, outAcc, 0, e.now), marker + [Pair(inAcc, outAcc)])
    else (Shifter(inAcc, outAcc, len, e.now), marker)
  }

  /** What one interrupt does to the shift registers, and the pairs it hands to the ring. */
  function OnInterrupt(s: Shifter, i: Interrupt): (Shifter, seq<Pair>) {
    match i
    case Clock(e) => OnEdge(s, e)
    case Reset => (s.(len := 0), [])
  }

  function After(s: Shifter, irqs: seq<Interrupt>): Shifter
    decreases |irqs|
  {
    if irqs == [] then s else After(OnInterrupt(s, irqs[0]).0, irqs[1..])
  }

  function Emitted(s: Shifter, irqs: seq<Interrupt>): seq<Pair>
    decreases |irqs|
  {
    if irqs == [] then [] else OnInterrupt(s, irqs[0]).1 + Emitted(OnInterrupt(s, irqs[0]).0, irqs[1..])
  }

  lemma {:induction false} EmittedConcat(s: Shifter, irqs: seq<Interrupt>, more: seq<Interrupt>)
    ensures After(s, irqs + more) == After(After(s, irqs), more)
    ensures Emitted(s, irqs + more) == Emitted(s, irqs) + Emitted(After(s, irqs), more)
    decreases |irqs|
  {
    if irqs == [] {
      assert irqs + more == more;
    } else {
      assert (irqs + more)[0] == irqs[0] && (irqs + more)[1..] == irqs[1..] + more;
      EmittedConcat(OnInterrupt(s, irqs[0]).0, irqs[1..], more);
    }
  }

  // ---- The bit-level round trip ----

  /** The i most significant bits of a byte, as a number. */
  function TopBits(b: byte, i: nat): byte
    requires i <= 8
    decreases 8 - i
  {
    if i == 8 then b else TopBits(b, i + 1) / 2
  }

  /** The i-th bit of a byte, counted from the most significant one. */
  predicate BitOf(b: byte, i: nat)
    requires i < 8
  {
    TopBits(b, i + 1) % 2 == 1
  }

  /** Eight edges that carry a pair, no two of them further apart than the byte gap limit. */
  ghost predicate Carries(es: seq<Edge>, p: Pair) {
    && |es| == 8
    && (forall i :: 0 <= i < 8 ==> es[i].di == BitOf(p.inp, i) && es[i].do_ == BitOf(p.out, i))
    && (forall i :: 0 <= i < 7 ==> Elapsed(es[i + 1].now, es[i].now) <= MAX_SCK_DELAY_US)
  }

  function Clocks(es: seq<Edge>): (r: seq<Interrupt>)
    ensures |r| == |es| && forall i :: 0 <= i < |es| ==> r[i] == Clock(es[i])
  {
    if es == [] then [] else [Clock(es[0])] + Clocks(es[1..])
  }

  /** A register that started as a, after the first i bits of b were shifted in. */
  function Register(a: byte, b: byte, i: nat): byte
    requires i <= 8
  {
    if i == 0 then a else ShiftIn(Register(a, b, i - 1), BitOf(b, i - 1))
  }

  function Doubled(a: nat, i: nat): nat { if i == 0 then a else 2 * Doubled(a, i - 1) }

  lemma TopBitsStep(b: byte, i: nat)
    requires i < 8
    ensures TopBits(b, i + 1) == 2 * TopBits(b, i) + if BitOf(b, i) then 1 else 0
  {
  }

  lemma ShiftInValue(r: byte, bit: bool)
    ensures ShiftIn(r, bit) == 2 * r + (if bit then 1 else 0) - if r >= 128 then 256 else 0
  {
  }

  /** The register is its old contents shifted up plus the new bits, less what fell out at the top. */
  lemma {:induction false} RegisterValue(a: byte, b: byte, i: nat) returns (lost: nat)
    requires i <= 8
    ensures Doubled(a, i) + TopBits(b, i) == Register(a, b, i) + 256 * lost
  {
    hide ShiftIn, TopBits, BitOf;
    if i == 0 {
      TopIsZero(b);
      lost := 0;
    } else {
      var before := RegisterValue(a, b, i - 1);
      lost := 2 * before + if Register(a, b, i - 1) >= 128 then 1 else 0;
      TopBitsStep(b, i - 1);
      ShiftInValue(Register(a, b, i - 1), BitOf(b, i - 1));
    }
  }

  /** Eight shifts replace the whole register. */
  lemma {:induction false} EightBits(a: byte, b: byte)
    ensures Register(a, b, 8) == b
  {
    var lost := RegisterValue(a, b, 8);
    assert Doubled(a, 1) == 2 * a;
    assert Doubled(a, 3) == 8 * a;
    assert Doubled(a, 5) == 32 * a;
    assert Doubled(a, 7) == 128 * a;
  }

  lemma {:induction false} TopIsZero(b: byte)
    ensures TopBits(b, 0) == 0
  {
    assert TopBits(b, 8) < 256 && TopBits(b, 7) < 128 && TopBits(b, 6) < 64 && TopBits(b, 5) < 32;
    assert TopBits(b, 4) < 16 && TopBits(b, 3) < 8 && TopBits(b, 2) < 4 && TopBits(b, 1) < 2;
  }

  /** From the i-th bit of a byte on, whatever the registers held before its first bit. */
  lemma {:induction false} RestOfByte(s: Shifter, es: seq<Edge>, p: Pair, i: nat, inAcc: byte, outAcc: byte)
    requires Carries(es, p) && i < 8 && s.len == i && (i > 0 ==> s.lastUs == es[i - 1].now)
    requires s.inAcc == Register(inAcc, p.inp, i) && s.outAcc == Register(outAcc, p.out, i)
    ensures Emitted(s, Clocks(es[i..])) == [p]
    ensures After(s, Clocks(es[i..])) == Shifter(p.inp, p.out, 0, es[7].now)
    decreases 8 - i
  {
    var (next, out) := OnEdge(s, es[i]);
    assert es[i..][0] == es[i] && es[i..][1..] == es[i + 1..];
    if i == 7 {
      EightBits(inAcc, p.inp);
      EightBits(outAcc, p.out);
      assert Clocks(es[8..]) == [];
    } else {
      RestOfByte(next, es, p, i + 1, inAcc, outAcc);
    }
  }

  /** A whole byte on an idle register is stored as it was sent. */
  lemma {:induction false} SentByte(s: Shifter, es: seq<Edge>, p: Pair)
    requires Carries(es, p) && s.len == 0
    ensures Emitted(s, Clocks(es)) == [p] && After(s, Clocks(es)) == Shifter(p.inp, p.out, 0, es[7].now)
  {
    assert es[0..] == es;
    RestOfByte(s, es, p, 0, s.inAcc, s.outAcc);
  }

  function Edges(bursts: seq<seq<Edge>>): seq<Edge> {
    if bursts == [] then [] else bursts[0] + Edges(bursts[1..])
  }

  ghost predicate CarryAll(bursts: seq<seq<Edge>>, ps: seq<Pair>) {
    |bursts| == |ps| && forall k :: 0 <= k < |ps| ==> Carries(bursts[k], ps[k])
  }

  lemma {:induction false} ClocksConcat(es: seq<Edge>, fs: seq<Edge>)
    ensures Clocks(es + fs) == Clocks(es) + Clocks(fs)
  {
  }

  /** Any list of pairs, each sent within the gap limit but with any pauses between bytes, arrives. */
  lemma {:induction false} SentBytes(s: Shifter, bursts: seq<seq<Edge>>, ps: seq<Pair>)
    requires s.len == 0 && CarryAll(bursts, ps)
    ensures Emitted(s, Clocks(Edges(bursts))) == ps && After(s, Clocks(Edges(bursts))).len == 0
    decreases |ps|
  {
    if ps != [] {
      SentByte(s, bursts[0], ps[0]);
      ClocksConcat(bursts[0], Edges(bursts[1..]));
      EmittedConcat(s, Clocks(bursts[0]), Clocks(Edges(bursts[1..])));
      SentBytes(After(s, Clocks(bursts[0])), bursts[1..], ps[1..]);
      assert [ps[0]] + ps[1..] == ps;
    }
  }

  /** A reset drops the fragment of a byte, and the next byte is stored as it was sent. */
  lemma {:induction false} ByteAfterReset(s: Shifter, es: seq<Edge>, p: Pair)
    requires Carries(es, p)
    ensures Emitted(s, [Reset] + Clocks(es)) == [p]
  {
    assert ([Reset] + Clocks(es))[1..] == Clocks(es);
    SentByte(s.(len := 0), es, p);
  }

  /** After a byte that broke off, a pause brings the decoder back into step: one frame-end pair is
      stored for the fragment and the next byte decodes exactly. The code ignores the pause when the
      last edge fell on time 0, and then, and only then, the next byte is not decoded. */
  lemma {:induction false} ResyncAfterGap(s: Shifter, es: seq<Edge>, p: Pair)
    requires 1 <= s.len < 8 && Carries(es, p) && Elapsed(es[0].now, s.lastUs) > MAX_SCK_DELAY_US
    ensures Emitted(s, Clocks(es)) == [EOF, p] <==> s.lastUs != 0
    ensures s.lastUs != 0 ==> After(s, Clocks(es)).len == 0
  {
    var (next, out) := OnEdge(s, es[0]);
    assert es[0..] == es;
    if s.lastUs != 0 {
      RestOfByte(next, es, p, 1, EOF.inp, EOF.out);
    } else {
      EmissionCount(s, es, 0);
    }
  }

  /** It does happen: when the first edge ever falls on time 0, no pause after it is seen, and the byte
      behind the pause is not decoded, whatever it is. */
  lemma {:induction false} EdgeAtTimeZero(e: Edge, es: seq<Edge>, p: Pair)
    requires e.now == 0 && Carries(es, p) && es[0].now > MAX_SCK_DELAY_US
    ensures Emitted(POWER_ON, [Clock(e)] + Clocks(es)) != [EOF, p]
  {
    var s := OnEdge(POWER_ON, e).0;
    assert ([Clock(e)] + Clocks(es))[1..] == Clocks(es);
    assert Emitted(POWER_ON, [Clock(e)] + Clocks(es)) == Emitted(s, Clocks(es));
    ResyncAfterGap(s, es, p);
  }

  /** Without a break every eighth edge emits one pair, whatever the alignment. */
  lemma {:induction false} EmissionCount(s: Shifter, es: seq<Edge>, i: nat)
    requires i <= |es| == 8 && s.len < 8
    requires i < 8 ==> !BreaksOff(s, es[i].now)
    requires forall k :: 0 <= k < 7 ==> Elapsed(es[k + 1].now, es[k].now) <= MAX_SCK_DELAY_US
    ensures |Emitted(s, Clocks(es[i..]))| == if s.len + 8 - i >= 8 then 1 else 0
    decreases 8 - i
  {
    if i < 8 {
      var (next, out) := OnEdge(s, es[i]);
      assert es[i..][0] == es[i] && es[i..][1..] == es[i + 1..];
      EmissionCount(next, es, i + 1);
    }
  }

  /** The fragment, the pause, and then a whole list of bytes. */
  lemma {:induction false} ResyncedBytes(s: Shifter, bursts: seq<seq<Edge>>, ps: seq<Pair>)
    requires 1 <= s.len < 8 && s.lastUs != 0
    requires ps != [] && CarryAll(bursts, ps) && Elapsed(bursts[0][0].now, s.lastUs) > MAX_SCK_DELAY_US
    ensures Emitted(s, Clocks(Edges(bursts))) == [EOF] + ps
  {
    var (first, rest) := (bursts[0], bursts[1..]);
    ResyncAfterGap(s, first, ps[0]);
    ClocksConcat(first, Edges(rest));
    hide Carries, Emitted, After;
    EmittedConcat(s, Clocks(first), Clocks(Edges(rest)));
    assert CarryAll(rest, ps[1..]);
    SentBytes(After(s, Clocks(first)), rest, ps[1..]);
    assert [EOF, ps[0]] + ps[1..] == [EOF] + ps;
  }
}
