/** The decoder's main-loop state as a whole, one step per consumed pair, reset or look at the
    clock, and what holds over every run of such steps. */
module Panel {
  import opened Basics
  import opened Wire
  import opened Frames
  import opened Messages
  import opened Recognisers
  import Reading = ReadingRecogniser
  import Menu = MenuRecogniser

  const SHIFT_BIT: bv16 := 0x0800
  const SHIFT_WINDOW_US: int := 300000

  datatype Panel = Panel(
    framer: Framer,
    msg: Message,
    main: string,             // the text on display
    lastReading: string,
    blinkMask: bv16,
    ann: bv16,                // ann_state
    winActive: bool, winStart: u32, presses: byte,  // the SHIFT window, its 8-bit press counter
    news: u32)                // new_data_counter

  datatype Event =
    | Consume(p: Pair, now: u32)
    | Tick(now: u32)          // processShiftWindow, once per call of the main loop
    | ResetSeen               // process_reset

  function SystemReset(): (w: string)
    ensures |w| == DISPLAY_BUF_LEN
  {
    "SYSTEM RESET  " + [NUL, NUL]
  }

  /** decoder34401_init. */
  function Init(): Panel {
    Panel(START, Message(Blank(), 0, 0, true, false, false, false), Blank(), NoText(), 0, 0, false, 0, 0, 0)
  }

  function WithShift(ann: bv16, hi: byte, lo: byte): bv16 {
    ((((hi as bv16) << 8) | lo as bv16) & 0xF7FF) | (ann & SHIFT_BIT)
  }

  function ClearShift(ann: bv16): bv16 { ann & !SHIFT_BIT }

  function ToggleShift(ann: bv16): bv16 { ann ^ SHIFT_BIT }

  /** decodeControlFrame: the bit of the one character that a code makes blink; 0 for other codes. */
  function BlinkTarget(hi: byte, lo: byte): bv16 {
    if lo != 0x49 then 0
    else if hi == 0x00 then 0x001 else if hi == 0x71 then 0x002 else if hi == 0x62 then 0x004
    else if hi == 0x13 then 0x008 else if hi == 0x54 then 0x010 else if hi == 0x25 then 0x020
    else if hi == 0x36 then 0x040 else if hi == 0x47 then 0x080 else if hi == 0x38 then 0x100
    else if hi == 0x49 then 0x200 else if hi == 0x5A then 0x400 else if hi == 0x2B then 0x800
    else 0
  }

  function BlinkCode(mask: bv16, hi: byte, lo: byte): bv16 {
    if BlinkTarget(hi, lo) == 0 then mask else BlinkTarget(hi, lo)
  }

  /** The 32-bit counter is stepped when something happened. */
  function Counted(news: u32, happened: bool): u32 {
    if happened then (news + 1) % 0x1_0000_0000 else news
  }

  ghost predicate Sized(s: Panel) {
    |s.main| == DISPLAY_BUF_LEN && |s.lastReading| == DISPLAY_BUF_LEN && |s.msg.work| == DISPLAY_BUF_LEN
    && s.msg.idx <= DISPLAY_BUF_LEN - 1
  }

  function ShiftPressed(s: Panel, now: u32): Panel {
    s.(winActive := true, winStart := now, presses := if s.winActive then (s.presses + 1) % 256 else 1)
  }

  function OtherPressed(s: Panel): Panel {
    s.(winActive := false, presses := 0, ann := ClearShift(s.ann), news := Counted(s.news, ClearShift(s.ann) != s.ann))
  }

  ghost function Act(s: Panel, a: Action, now: u32): (r: Panel)
    requires Sized(s)
    ensures Sized(r) && r.framer == s.framer
  {
    match a
    case Nothing => s
    case BodyByte(b) => s.(msg := AddByte(s.msg, b))
    case EndMessage =>
      var m := Judged(s.msg);
      s.(main := m.work, lastReading := if m.valid then m.work else s.lastReading,
         blinkMask := m.blink, msg := m.(needReset := true), news := Counted(s.news, true))
    case SetAnnunciators(hi, lo) =>
      var ann := WithShift(s.ann, hi, lo);
      s.(ann := ann, news := Counted(s.news, ann != s.ann))
    case ControlCode(hi, lo) =>
      s.(blinkMask := BlinkCode(s.blinkMask, hi, lo), news := Counted(s.news, BlinkTarget(hi, lo) != 0))
    case PressShift => ShiftPressed(s, now)
    case PressOther => OtherPressed(s)
  }

  /** processShiftWindow. */
  function CloseWindow(s: Panel, now: u32): Panel {
    if s.winActive && Elapsed(now, s.winStart) > SHIFT_WINDOW_US
    then s.(ann := if s.presses % 2 == 1 then ToggleShift(s.ann) else s.ann, presses := 0, winActive := false,
            news := Counted(s.news, s.presses % 2 == 1))
    else s
  }

  /** process_reset: neither the ring nor the frame buffer is touched. */
  function Restarted(s: Panel): Panel {
    s.(presses := 0, winActive := false, main := SystemReset(), ann := 0, blinkMask := 0,
       news := Counted(s.news, true),
       msg := s.msg.(needReset := true, corrupt := false, menu := false, valid := false))
  }

  ghost function Step(s: Panel, e: Event): (r: Panel)
    requires Sized(s)
    ensures Sized(r)
  {
    match e
    case Consume(p, now) => Act(s, Asked(s.framer, p), now).(framer := Next(s.framer, p))
    case Tick(now) => CloseWindow(s, now)
    case ResetSeen => Restarted(s)
  }

  ghost function Run(s: Panel, es: seq<Event>): (r: Panel)
    requires Sized(s)
    ensures Sized(r)
  {
    if es == [] then s else Step(Run(s, es[..|es| - 1]), es[|es| - 1])
  }

  // ---- Every reachable state ----

  ghost predicate PanelInv(s: Panel) {
    && Sized(s) && Framed(s.framer) && MessageInv(s.msg) && WellFormed(s.main)
    && (s.msg.valid || s.msg.menu ==> s.main == s.msg.work)
    && (s.lastReading == NoText() || (WellFormed(s.lastReading) && Reading.IsReading(CString(s.lastReading))))
  }

  lemma StepInv(s: Panel, e: Event)
    requires PanelInv(s)
    ensures PanelInv(Step(s, e))
  {
    hide Reading.IsReading, Menu.IsMenu, IsText;
    match e
    case Consume(p, now) =>
      StaysFramed(s.framer, [p]);
      assert FramesAfter(s.framer, [p]) == Next(s.framer, p);
      match Asked(s.framer, p) {
        case BodyByte(b) => AddByteInv(s.msg, b);
        case EndMessage => JudgedInv(s.msg);
        case _ =>
      }
    case Tick(now) =>
    case ResetSeen =>
  }

  /** A verdict that stands is one on the displayed text. */
  lemma VerdictIsOnMain(s: Panel)
    requires PanelInv(s)
    ensures s.msg.valid ==> Reading.IsReading(CString(s.main))
    ensures s.msg.menu ==> Menu.IsMenu(CString(s.main))
  {
  }

  predicate SameDisplay(s: Panel, r: Panel) {
    r.main == s.main && r.lastReading == s.lastReading && r.ann == s.ann && r.blinkMask == s.blinkMask
  }

  /** From s to r the counter moved on by one, or the display is the same. */
  predicate Reported(s: Panel, r: Panel) {
    if r.news == s.news then SameDisplay(s, r) else r.news == Counted(s.news, true)
  }

  lemma ActIsReported(s: Panel, a: Action, now: u32)
    requires Sized(s)
    ensures Reported(s, Act(s, a, now))
  {
    hide Judged, AddByte, WithShift, ClearShift, BlinkTarget;
  }

  lemma CloseIsReported(s: Panel, now: u32)
    ensures Reported(s, CloseWindow(s, now))
  {
    hide ToggleShift, Elapsed;
  }

  /** new_data_counter keeps its promise: a step changes the displayed text, the last reading, the
      annunciators or the blink mask only if it moves the counter on, and it moves it by one at most. */
  lemma ChangesAreCounted(s: Panel, e: Event)
    requires Sized(s)
    ensures Reported(s, Step(s, e))
  {
    match e
    case Consume(p, now) =>
      ActIsReported(s, Asked(s.framer, p), now);
      hide Act, Next, Asked, Counted;
    case Tick(now) => CloseIsReported(s, now);
    case ResetSeen => hide SystemReset;
  }

  /** How often the counter is stepped. */
  ghost function Steps(s: Panel, es: seq<Event>): (n: nat)
    requires Sized(s)
    ensures n <= |es|
  {
    if es == [] then 0
    else
      var front := Run(s, es[..|es| - 1]);
      Steps(s, es[..|es| - 1]) + if Step(front, es[|es| - 1]).news != front.news then 1 else 0
  }

  lemma {:induction false} StepsAreCounted(s: Panel, es: seq<Event>)
    requires Sized(s)
    ensures Run(s, es).news == (s.news + Steps(s, es)) % 0x1_0000_0000
    ensures Steps(s, es) == 0 ==> SameDisplay(s, Run(s, es))
  {
    if es != [] {
      var front := Run(s, es[..|es| - 1]);
      StepsAreCounted(s, es[..|es| - 1]);
      ChangesAreCounted(front, es[|es| - 1]);
      OneMore(s.news, Steps(s, es[..|es| - 1]));
      hide Step, Sized;
    }
  }

  lemma {:induction false} StepsAfter(s: Panel, es: seq<Event>, e: Event, more: seq<Event>)
    requires Sized(s) && Step(Run(s, es), e).news != Run(s, es).news
    ensures Steps(s, es + [e] + more) > 0
  {
    hide Step, Run;
    var all := es + [e] + more;
    if more == [] {
      assert all == es + [e] && all[..|all| - 1] == es && all[|all| - 1] == e;
    } else {
      assert all[..|all| - 1] == es + [e] + more[..|more| - 1];
      StepsAfter(s, es, e, more[..|more| - 1]);
    }
  }

  lemma OneMore(a: nat, n: nat)
    ensures ((a + n) % 0x1_0000_0000 + 1) % 0x1_0000_0000 == (a + (n + 1)) % 0x1_0000_0000
  {
  }

  lemma NoWrap(a: u32, n: nat)
    requires n < 0x1_0000_0000 && (a + n) % 0x1_0000_0000 == a
    ensures n == 0
  {
  }

  lemma {:induction false} StepsAreSeen(s: Panel, es: seq<Event>)
    requires Sized(s) && |es| < 0x1_0000_0000
    ensures Run(s, es).news == s.news <==> Steps(s, es) == 0
  {
    hide *;
    StepsAreCounted(s, es);
    if Run(s, es).news == s.news {
      NoWrap(s.news, Steps(s, es));
    }
  }

  /** A counted step is seen at the end of any run of fewer than 2^32 events. */
  lemma {:induction false} CountedIsSeen(s: Panel, es: seq<Event>, e: Event, more: seq<Event>, all: seq<Event>)
    requires Sized(s) && all == es + [e] + more && |all| < 0x1_0000_0000
    requires Step(Run(s, es), e).news != Run(s, es).news
    ensures Run(s, all).news != s.news
  {
    hide *;
    StepsAfter(s, es, e, more);
    StepsAreSeen(s, all);
  }

  /** Over any run of fewer than 2^32 events an unchanged counter means an unchanged display. */
  lemma {:induction false} UnchangedCounter(s: Panel, es: seq<Event>)
    requires Sized(s) && |es| < 0x1_0000_0000 && Run(s, es).news == s.news
    ensures SameDisplay(s, Run(s, es))
  {
    hide *;
    StepsAreCounted(s, es);
    NoWrap(s.news, Steps(s, es));
  }

  /** In every run, resets and overflows included: the displayed text and the working text are
      printable C strings of 14 or 15 characters, the verdicts exclude each other, the last reading
      is none or a text the recogniser accepts, and the frame buffer holds at most 99 pairs. */
  lemma {:induction false} ReachableInv(es: seq<Event>)
    ensures PanelInv(Run(Init(), es))
  {
    if es == [] {
      assert WellFormed(Blank());
    } else {
      ReachableInv(es[..|es| - 1]);
      StepInv(Run(Init(), es[..|es| - 1]), es[|es| - 1]);
    }
  }

  /** The state that a log of events leads to. */
  ghost function Reached(es: seq<Event>): (s: Panel)
    ensures Sized(s)
  {
    Run(Init(), es)
  }

  lemma ReachedSnoc(es: seq<Event>, e: Event)
    ensures Reached(es + [e]) == Step(Reached(es), e)
  {
    assert (es + [e])[..|es|] == es;
  }

  lemma ReachedInv(es: seq<Event>)
    ensures PanelInv(Reached(es))
  {
    ReachableInv(es);
  }
}
