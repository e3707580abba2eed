/** The frame layer: how consumed byte pairs are cut into frames, and what each frame asks for.
    Nothing above this layer influences it. */
module Frames {
  import opened Basics
  import opened Wire

  datatype FrameState = INIT | UNKNOWN | MESSAGE | ANNUNCIATORS | CONTROL | BUTTON

  const BUF_LEN: int := 100

  /** frame_state, and the first buf_len entries of input_buf and output_buf. */
  datatype Framer = Framer(state: FrameState, pairs: seq<Pair>)

  const START := Framer(INIT, [])
  const SYNCED := Framer(UNKNOWN, [])

  /** What a pair does besides moving the frame layer. */
  datatype Action =
    | Nothing
    | BodyByte(b: byte)                     // one more byte of a display message
    | EndMessage                            // the display message is complete
    | SetAnnunciators(hi: byte, lo: byte)
    | ControlCode(hi: byte, lo: byte)
    | PressShift
    | PressOther

  const SHIFT_CODE := 7839183

  function ButtonCode(ps: seq<Pair>): int
    requires |ps| >= 3
  {
    0x10000 * ps[0].out + 0x100 * ps[1].out + ps[2].out
  }

  /** The frame buffer after the pair, before the overflow test. */
  function Buffered(f: Framer, p: Pair): seq<Pair> { f.pairs + [p] }

  /** The kind of frame that two first pairs announce. */
  function Kind(first: Pair, second: Pair): FrameState {
    if first.inp == 0x00 && second.inp % 0x80 == 0x7F then MESSAGE
    else if first.inp % 0x80 == 0x7F && second.inp == 0x00 then ANNUNCIATORS
    else CONTROL
  }

  function Moved(f: Framer, p: Pair): Framer {
    var b := Buffered(f, p);
    if p == EOF then SYNCED
    else
      match f.state
      case UNKNOWN =>
        if |b| == 1 && p == Pair(0x00, 0x77) then Framer(BUTTON, b)
        else if |b| >= 2 then Framer(Kind(b[0], b[1]), b)
        else Framer(UNKNOWN, b)
      case BUTTON => if p.inp == 0x66 then SYNCED else Framer(BUTTON, b)
      case _ => Framer(f.state, b)
  }

  /** A frame that fills its buffer is given up. */
  predicate Overflows(f: Framer, p: Pair) { |Moved(f, p).pairs| >= BUF_LEN }

  function Next(f: Framer, p: Pair): Framer {
    if Overflows(f, p) then SYNCED else Moved(f, p)
  }

  function Asked(f: Framer, p: Pair): Action {
    var b := Buffered(f, p);
    match f.state
    case INIT => Nothing
    case UNKNOWN => Nothing
    case MESSAGE => if p == EOF then EndMessage else BodyByte(p.inp)
    case ANNUNCIATORS => if p == EOF && |b| >= 4 then SetAnnunciators(b[3].inp, b[2].inp) else Nothing
    case CONTROL => if p == EOF && |b| >= 2 then ControlCode(b[0].inp, b[1].inp) else Nothing
    case BUTTON =>
      if p != EOF && p.inp == 0x66 && |b| >= 3
      then if ButtonCode(b) == SHIFT_CODE then PressShift else PressOther
      else Nothing
  }

  function FramesAfter(f: Framer, ps: seq<Pair>): Framer
    decreases |ps|
  {
    if ps == [] then f else FramesAfter(Next(f, ps[0]), ps[1..])
  }

  lemma {:induction false} FramesConcat(f: Framer, ps: seq<Pair>, qs: seq<Pair>)
    ensures FramesAfter(f, ps + qs) == FramesAfter(FramesAfter(f, ps), qs)
    decreases |ps|
  {
    if ps == [] {
      assert ps + qs == qs;
    } else {
      assert (ps + qs)[0] == ps[0] && (ps + qs)[1..] == ps[1..] + qs;
      FramesConcat(Next(f, ps[0]), ps[1..], qs);
    }
  }

  /** The frame buffer never fills up between pairs, and a frame state matches its buffer. */
  ghost predicate Framed(f: Framer) {
    && |f.pairs| < BUF_LEN
    && (f.state == UNKNOWN ==> |f.pairs| < 2)
    && (f.state in {MESSAGE, ANNUNCIATORS, CONTROL} ==> |f.pairs| >= 2)
    && (f.state == BUTTON ==> |f.pairs| >= 1 && f.pairs[0] == Pair(0x00, 0x77))
    && (f.state == MESSAGE ==> Kind(f.pairs[0], f.pairs[1]) == MESSAGE)
    && (f.state != INIT ==> EOF !in f.pairs)
  }

  lemma {:induction false} StaysFramed(f: Framer, ps: seq<Pair>)
    requires Framed(f)
    ensures Framed(FramesAfter(f, ps))
    decreases |ps|
  {
    if ps != [] {
      StaysFramed(Next(f, ps[0]), ps[1..]);
    }
  }

  /** Self-synchronisation: whatever two decoders have seen before, one frame-end pair brings them
      together, and the same later pairs keep them together. */
  lemma {:induction false} EofSynchronises(before: seq<Pair>, before': seq<Pair>, later: seq<Pair>)
    ensures FramesAfter(START, before + [EOF]) == SYNCED
    ensures FramesAfter(START, before + [EOF] + later) == FramesAfter(START, before' + [EOF] + later)
  {
    FramesConcat(START, before, [EOF]);
    FramesConcat(START, before', [EOF]);
    FramesConcat(START, before + [EOF], later);
    FramesConcat(START, before' + [EOF], later);
    assert FramesAfter(FramesAfter(START, before), [EOF]) == Next(FramesAfter(START, before), EOF);
    assert FramesAfter(FramesAfter(START, before'), [EOF]) == Next(FramesAfter(START, before'), EOF);
  }
}
