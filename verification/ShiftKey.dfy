/** The SHIFT annunciator. The instrument does not report SHIFT, so the decoder tracks it from key
    presses: bit 11 of ann_state follows the abstract key below, which counts without bound. */
module ShiftKey {
  import opened Basics
  import opened Wire
  import opened Frames
  import opened Messages
  import opened Panel
  import opened PanelRuns

  datatype Window = Closed | Open(start: u32, count: nat)

  datatype Key = Key(on: bool, window: Window)

  datatype Gesture = Idle | Press(now: u32) | OtherKey | Look(now: u32) | Restart

  function KeyStep(k: Key, g: Gesture): Key {
    match g
    case Idle => k
    case Press(now) => k.(window := Open(now, if k.window.Open? then k.window.count + 1 else 1))
    case OtherKey => Key(false, Closed)
    case Restart => Key(false, Closed)
    case Look(now) =>
      if k.window.Open? && Elapsed(now, k.window.start) > SHIFT_WINDOW_US
      then Key(if k.window.count % 2 == 1 then !k.on else k.on, Closed)
      else k
  }

  /** What an event is to the SHIFT key: only finished button frames, resets and looks at the clock
      matter. The frame layer alone decides; annunciator frames in particular are idle. */
  function GestureOf(f: Framer, e: Event): Gesture {
    match e
    case Tick(now) => Look(now)
    case ResetSeen => Restart
    case Consume(p, now) =>
      match Asked(f, p)
      case PressShift => Press(now)
      case PressOther => OtherKey
      case _ => Idle
  }

  function KeyOf(es: seq<Event>): Key {
    if es == [] then Key(false, Closed)
    else
      var front := es[..|es| - 1];
      KeyStep(KeyOf(front), GestureOf(FramesAfter(START, Pairs(front)), es[|es| - 1]))
  }

  predicate ShiftBit(ann: bv16) { ann & SHIFT_BIT != 0 }

  ghost predicate Follows(s: Panel, k: Key) {
    && ShiftBit(s.ann) == k.on
    && s.winActive == k.window.Open?
    && (k.window.Open? ==> s.winStart == k.window.start && s.presses == k.window.count % 256)
  }

  lemma BitFacts(ann: bv16)
    ensures ShiftBit(ToggleShift(ann)) == !ShiftBit(ann)
    ensures !ShiftBit(ClearShift(ann))
  {
  }

  lemma AnnunciatorsKeepShift(ann: bv16, hi: byte, lo: byte)
    ensures ShiftBit(WithShift(ann, hi, lo)) == ShiftBit(ann)
  {
    var x := ((hi as bv16) << 8) | lo as bv16;
    MaskFact(x, ann);
  }

  lemma MaskFact(x: bv16, ann: bv16)
    ensures ((x & 0xF7FF) | (ann & SHIFT_BIT)) & SHIFT_BIT == ann & SHIFT_BIT
  {
  }

  lemma FollowsAct(s: Panel, k: Key, a: Action, now: u32)
    requires Sized(s) && Follows(s, k)
    ensures Follows(Act(s, a, now),
                    KeyStep(k, match a case PressShift => Press(now) case PressOther => OtherKey case _ => Idle))
  {
    hide ShiftBit, WithShift, AddByte, Judged, BlinkCode, BlinkTarget, Counted, ClearShift, ToggleShift;
    BitFacts(s.ann);
    if a.SetAnnunciators? {
      AnnunciatorsKeepShift(s.ann, a.hi, a.lo);
    }
  }

  lemma WrapKeepsParity(n: nat)
    ensures (n % 256) % 2 == n % 2
  {
    assert n == 256 * (n / 256) + n % 256;
  }

  lemma FollowsLook(s: Panel, k: Key, now: u32)
    requires Sized(s) && Follows(s, k)
    ensures Follows(CloseWindow(s, now), KeyStep(k, Look(now)))
  {
    hide ShiftBit, ClearShift, ToggleShift, Elapsed, Counted;
    BitFacts(s.ann);
    if k.window.Open? {
      WrapKeepsParity(k.window.count);
    }
  }

  lemma FollowsStep(s: Panel, k: Key, e: Event)
    requires Sized(s) && Follows(s, k)
    ensures Follows(Step(s, e), KeyStep(k, GestureOf(s.framer, e)))
  {
    hide ShiftBit, Asked, Next, Act, CloseWindow, Elapsed;
    match e
    case Tick(now) => FollowsLook(s, k, now);
    case ResetSeen => ZeroBit();
    case Consume(p, now) => FollowsAct(s, k, Asked(s.framer, p), now);
  }

  lemma ZeroBit()
    ensures !ShiftBit(0)
  {
  }

  /** Over every run bit 11 is the abstract key: the 8-bit press counter may wrap without harm. */
  lemma {:induction false} ShiftFollowsKey(es: seq<Event>)
    ensures Follows(Run(Init(), es), KeyOf(es))
  {
    if es == [] {
      ZeroBit();
    } else {
      var front := es[..|es| - 1];
      ShiftFollowsKey(front);
      FramerOfRun(Init(), front);
      FollowsStep(Run(Init(), front), KeyOf(front), es[|es| - 1]);
    }
  }

  /** Bit 11 changes only when a window closes on an odd press count, or falls with another key or a
      reset; in particular no annunciator, message or control frame ever changes it. */
  lemma {:induction false} ShiftBitChanges(es: seq<Event>, e: Event)
    ensures var before, after := ShiftBit(Run(Init(), es).ann), ShiftBit(Run(Init(), es + [e]).ann);
            var f, k := Run(Init(), es).framer, KeyOf(es);
            before != after <==>
              || (before && (e == ResetSeen || (e.Consume? && Asked(f, e.p) == PressOther)))
              || (e.Tick? && k.window.Open? && Elapsed(e.now, k.window.start) > SHIFT_WINDOW_US
                  && k.window.count % 2 == 1)
  {
    hide ShiftBit, KeyOf, Run, Elapsed, Asked, FramesAfter;
    ShiftFollowsKey(es);
    ShiftFollowsKey(es + [e]);
    FramerOfRun(Init(), es);
    KeyOfSnoc(es, e);
  }

  lemma {:induction false} KeyOfSnoc(es: seq<Event>, e: Event)
    ensures KeyOf(es + [e]) == KeyStep(KeyOf(es), GestureOf(FramesAfter(START, Pairs(es)), e))
  {
    assert (es + [e])[..|es|] == es;
  }

  // ---- What the window is for ----

  function Gestures(k: Key, gs: seq<Gesture>): Key
    decreases |gs|
  {
    if gs == [] then k else Gestures(KeyStep(k, gs[0]), gs[1..])
  }

  function Presses(gs: seq<Gesture>): nat {
    if gs == [] then 0 else (if gs[0].Press? then 1 else 0) + Presses(gs[1..])
  }

  /** SHIFT is pressed with no other key in between, and the clock is never seen more than the
      window after a press. */
  ghost predicate Together(k: Key, gs: seq<Gesture>)
    decreases |gs|
  {
    gs == [] ||
    (&& gs[0] != OtherKey && gs[0] != Restart
     && (gs[0].Look? && k.window.Open? ==> Elapsed(gs[0].now, k.window.start) <= SHIFT_WINDOW_US)
     && Together(KeyStep(k, gs[0]), gs[1..]))
  }

  function Count(w: Window): nat { if w.Open? then w.count else 0 }

  lemma {:induction false} TogetherCounts(k: Key, gs: seq<Gesture>)
    requires Together(k, gs) && (k.window.Open? ==> k.window.count > 0)
    ensures var r := Gestures(k, gs);
            && r.on == k.on && Count(r.window) == Count(k.window) + Presses(gs)
            && (r.window.Open? <==> Count(r.window) > 0)
    decreases |gs|
  {
    if gs != [] {
      TogetherCounts(KeyStep(k, gs[0]), gs[1..]);
    }
  }

  /** Presses of SHIFT that belong together toggle the annunciator once the window has passed if
      their number is odd, and leave it alone if it is even. */
  lemma {:induction false} WindowParity(k: Key, gs: seq<Gesture>, now: u32)
    requires k.window == Closed && Together(k, gs) && Presses(gs) > 0
    requires var w := Gestures(k, gs).window; w.Open? ==> Elapsed(now, w.start) > SHIFT_WINDOW_US
    ensures KeyStep(Gestures(k, gs), Look(now)) == Key(if Presses(gs) % 2 == 1 then !k.on else k.on, Closed)
  {
    TogetherCounts(k, gs);
  }

  function PressesAt(ts: seq<u32>): seq<Gesture> {
    if ts == [] then [] else PressesAt(ts[..|ts| - 1]) + [Press(ts[|ts| - 1])]
  }

  lemma {:induction false} GesturesSnoc(k: Key, gs: seq<Gesture>, g: Gesture)
    ensures Gestures(k, gs + [g]) == KeyStep(Gestures(k, gs), g)
    decreases |gs|
  {
    hide KeyStep;
    if gs == [] {
      assert [g][1..] == [] && gs + [g] == [g];
    } else {
      assert (gs + [g])[0] == gs[0] && (gs + [g])[1..] == gs[1..] + [g];
      GesturesSnoc(KeyStep(k, gs[0]), gs[1..], g);
    }
  }

  lemma {:induction false} PressesOpen(k: Key, ts: seq<u32>)
    requires k.window == Closed && ts != []
    ensures Gestures(k, PressesAt(ts)) == Key(k.on, Open(ts[|ts| - 1], |ts|))
  {
    var front, t := ts[..|ts| - 1], ts[|ts| - 1];
    GesturesSnoc(k, PressesAt(front), Press(t));
    if front == [] {
      assert PressesAt(front) == [] && Gestures(k, []) == k;
    } else {
      PressesOpen(k, front);
    }
  }

  /** Every press extends the window: after presses at these times, the first look at the clock more than
      300 ms after the last of them toggles SHIFT if they are odd in number and leaves it if even; a look
      before that does nothing. */
  lemma {:induction false} PressesThenLook(k: Key, ts: seq<u32>, now: u32)
    requires k.window == Closed && ts != []
    ensures var g := Gestures(k, PressesAt(ts));
            && g.on == k.on
            && KeyStep(g, Look(now)) == if (now - ts[|ts| - 1]) % 0x1_0000_0000 > 300000
                                        then Key(if |ts| % 2 == 1 then !k.on else k.on, Closed) else g
  {
    PressesOpen(k, ts);
  }
}
