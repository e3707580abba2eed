/** The loop of the second core: the decoder runs, and when it reports something new, or a timer is due,
    display_status is called. What the panel shows is traced back to the decoder. */
module Core1 {
  import opened Basics
  import opened Wire
  import opened Frames
  import opened FrameLaws
  import opened Messages
  import opened Panel
  import opened PanelRuns
  import opened MainLoop
  import opened Decoder
  import opened Cells
  import opened Display
  import opened Status
  import Reading = ReadingRecogniser
  import Menu = MenuRecogniser
  import Recognisers

  const NOTHING_HELD := Hold(NOTHING, NOTHING, 0)

  /** What display_status would read of a decoder. */
  function ShotOf(s: Panel): Shot { Shot(s.main + s.lastReading, s.blinkMask) }

  /** The decoder after the first n events of its log. */
  ghost function StateAt(log: seq<Event>, n: nat): (s: Panel)
    requires n <= |log|
    ensures Sized(s)
  {
    Reached(log[..n])
  }

  /** The i-th call was made after at[i] events: with new data exactly if the counter had moved since
      the call before, and then with what the decoder displayed. */
  ghost predicate Traced(log: seq<Event>, calls: seq<Call>, at: seq<nat>, i: nat)
    requires |at| == |calls| && i < |at| && forall j :: 0 <= j < |at| ==> at[j] <= |log|
  {
    var s := StateAt(log, at[i]);
    var before := if i == 0 then 0 else StateAt(log, at[i - 1]).news;
    match calls[i]
    case NewData(shot, accepted, _) =>
      s.news != before && shot == ShotOf(s) && accepted == (!s.msg.corrupt && (s.msg.valid || s.msg.menu))
    case Poll(_) => s.news == before
  }

  ghost predicate AllTraced(log: seq<Event>, calls: seq<Call>, at: seq<nat>) {
    && |at| == |calls|
    && (forall i :: 0 <= i < |at| ==> at[i] <= |log|)
    && (forall i, j :: 0 <= i < j < |at| ==> at[i] <= at[j])
    && (forall i :: 0 <= i < |at| ==> Traced(log, calls, at, i))
  }

  lemma NothingTraced()
    ensures AllTraced([], [], [])
  {
  }

  lemma StateLater(log: seq<Event>, more: seq<Event>, n: nat)
    requires n <= |log|
    ensures StateAt(log + more, n) == StateAt(log, n)
  {
    assert (log + more)[..n] == log[..n];
  }

  lemma TracedLater(log: seq<Event>, more: seq<Event>, calls: seq<Call>, at: seq<nat>)
    requires AllTraced(log, calls, at)
    ensures AllTraced(log + more, calls, at)
    ensures at != [] ==> StateAt(log + more, at[|at| - 1]) == StateAt(log, at[|at| - 1])
  {
    hide StateAt;
    forall j | 0 <= j < |at| ensures StateAt(log + more, at[j]) == StateAt(log, at[j]) {
      StateLater(log, more, at[j]);
    }
    forall i | 0 <= i < |at| ensures Traced(log + more, calls, at, i) {
      assert Traced(log, calls, at, i);
    }
  }

  /** The call that display_status is given in a state of the decoder. */
  ghost function CallIn(s: Panel, last: u32, now: nat): Call {
    if s.news != last then NewData(ShotOf(s), !s.msg.corrupt && (s.msg.valid || s.msg.menu), now) else Poll(now)
  }

  lemma TracedSnoc(log: seq<Event>, calls: seq<Call>, at: seq<nat>, now: nat)
    requires AllTraced(log, calls, at)
    ensures var last := if at == [] then 0 else StateAt(log, at[|at| - 1]).news;
            AllTraced(log, calls + [CallIn(Reached(log), last, now)], at + [|log|])
  {
    hide Reached;
    assert log[..|log|] == log;
    var last := if at == [] then 0 else StateAt(log, at[|at| - 1]).news;
    var c := CallIn(Reached(log), last, now);
    forall i | 0 <= i <= |at| ensures Traced(log, calls + [c], at + [|log|], i) {
      if i < |at| {
        assert Traced(log, calls, at, i);
      }
    }
  }

  class DisplayLoop {
    const dmm: DmmContext
    const status: StatusDisplay
    var dmmLast: u32
    ghost var calls: seq<Call>      // the calls of display_status so far
    ghost var at: seq<nat>          // how many events the decoder had seen at each

    ghost function DecoderObjects(): set<object> {
      {dmm} + dmm.RingObjects() + dmm.PanelObjects()
    }

    ghost predicate Apart() {
      this !in DecoderObjects() && this !in status.Objects() && DecoderObjects() !! status.Objects()
    }

    /** The calls of display_status so far come from the decoder. */
    ghost predicate FromDecoder()
      reads this, dmm`log
    {
      && AllTraced(dmm.log, calls, at)
      && dmmLast == (if at == [] then 0 else StateAt(dmm.log, at[|at| - 1]).news)
    }

    /** They have had their effect. */
    ghost predicate Displayed()
      reads this`calls, status.Objects()
    {
      && status.Valid() && status.Held() == CalledAll(NOTHING_HELD, calls)
      && (calls != [] ==> status.OnPanel())
    }

    ghost predicate Valid()
      reads this, DecoderObjects(), status.Objects()
    {
      Apart() && dmm.Valid() && FromDecoder() && Displayed()
    }

    constructor (screen: Screen)
      requires screen.Valid()
      ensures Valid() && calls == [] && dmm.log == []
    {
      hide AllTraced, StateAt, LoopInv, Reached;
      hide DmmContext.Consistent, StatusDisplay.OnPanel, StatusDisplay.Valid, DmmContext.Machine;
      NothingTraced();
      dmm := new DmmContext();
      status := new StatusDisplay(screen);
      dmmLast, calls, at := 0, [], [];
    }

    /** decoder34401_process, and interrupts until the display is looked after. */
    method RunDecoder(slots: seq<Slot>, start: u32, idle: seq<Interrupt>)
      requires Valid()
      modifies DecoderObjects()
      ensures Valid() && old(dmm.log) <= dmm.log
      ensures dmm.Machine() == Interrupted(Processed(old(dmm.Machine()), slots, start), idle)
    {
      hide AllTraced, StateAt, Processed, Interrupted, LoopInv, CalledAll;
      hide DmmContext.Consistent, StatusDisplay.OnPanel, StatusDisplay.Valid, DmmContext.Machine;
      ghost var log := dmm.log;
      dmm.ProcessThenIdle(slots, start, idle);
      assert dmm.log == log + dmm.log[|log|..];
      TracedLater(log, dmm.log[|log|..], calls, at);
    }

    /** display_status is given what the decoder displays. */
    method CallDisplay(ghost c: Call, now: nat, clock: seq<u32>)
      requires Apart() && dmm.Consistent() && status.Valid() && |clock| == DISPLAY_COLS
      requires c == CallIn(Reached(dmm.log), dmmLast, now)
      modifies status.Objects()
      ensures status.Valid() && status.OnPanel() && status.Held() == Called(old(status.Held()), c)
      ensures status.screen.times == clock
    {
      hide Reached, Called;
      assert Reached(dmm.log) == dmm.panel.State();
      hide DmmContext.Consistent, StatusDisplay.OnPanel, StatusDisplay.Valid, StatusDisplay.Held;
      status.DisplayStatus(dmm.panel.main[..] + dmm.panel.lastReading[..], dmm.panel.blinkMask,
                           dmm.panel.corruptMsg, dmm.panel.validReading, dmm.panel.menuMsg,
                           dmm.panel.newDataCounter != dmmLast, now, clock);
    }

    /** The display is brought up to date. */
    method Refresh(now: nat, clock: seq<u32>)
      requires Valid() && |clock| == DISPLAY_COLS
      modifies this`dmmLast, this`calls, this`at, status.Objects()
      ensures Valid() && status.screen.times == clock
      ensures calls == old(calls) + [CallIn(Reached(dmm.log), old(dmmLast), now)] && at == old(at) + [|dmm.log|]
    {
      hide AllTraced, StateAt, LoopInv, CalledAll, Called, CallIn, Reached, DisplayLoop.FromDecoder;
      hide DmmContext.Consistent, StatusDisplay.OnPanel, StatusDisplay.Valid, DmmContext.Machine, StatusDisplay.Held;
      ghost var c := CallIn(Reached(dmm.log), dmmLast, now);
      CallDisplay(c, now, clock);
      CalledSnoc(NOTHING_HELD, calls, c);
      Record(c, now);
    }

    /** The display is looked after when there is news or the timer is due. */
    method ShowNews(due: bool, now: nat, clock: seq<u32>)
      requires Valid() && |clock| == DISPLAY_COLS
      modifies this`dmmLast, this`calls, this`at, status.Objects()
      ensures Valid()
      ensures var c := CallIn(Reached(dmm.log), old(dmmLast), now);
              if due || c.NewData?
              then calls == old(calls) + [c] && at == old(at) + [|dmm.log|] && status.screen.times == clock
              else calls == old(calls) && at == old(at)
    {
      hide CallIn, Reached, DmmContext.Consistent, DisplayLoop.Displayed, DisplayLoop.FromDecoder, LoopInv;
      SameCounter(now);
      if due || dmm.panel.newDataCounter != dmmLast {
        Refresh(now, clock);
      }
    }

    lemma SameCounter(now: nat)
      requires dmm.Consistent()
      ensures dmm.panel.newDataCounter != dmmLast <==> CallIn(Reached(dmm.log), dmmLast, now).NewData?
    {
      hide Reached;
      assert Reached(dmm.log) == dmm.panel.State();
    }

    method Record(ghost c: Call, ghost now: nat)
      requires dmm.Consistent() && FromDecoder() && c == CallIn(Reached(dmm.log), dmmLast, now)
      modifies this`dmmLast, this`calls, this`at
      ensures FromDecoder() && calls == old(calls) + [c] && at == old(at) + [|dmm.log|]
    {
      hide AllTraced, Reached, CallIn;
      assert Reached(dmm.log) == dmm.panel.State();
      TracedSnoc(dmm.log, calls, at, now);
      assert dmm.log[..|dmm.log|] == dmm.log;
      calls, at := calls + [c], at + [|dmm.log|];
      dmmLast := dmm.panel.newDataCounter;
    }

    /** One turn of the loop. */
    method Turn(slots: seq<Slot>, start: u32, idle: seq<Interrupt>, due: bool, now: nat, clock: seq<u32>)
      requires Valid() && |clock| == DISPLAY_COLS
      modifies this, DecoderObjects(), status.Objects()
      ensures Valid()
      ensures dmm.Machine() == Interrupted(Processed(old(dmm.Machine()), slots, start), idle)
      ensures var c := CallIn(Reached(dmm.log), old(dmmLast), now);
              if due || c.NewData?
              then calls == old(calls) + [c] && at == old(at) + [|dmm.log|] && status.screen.times == clock
              else calls == old(calls) && at == old(at)
    {
      hide AllTraced, StateAt, Processed, Interrupted, LoopInv, CalledAll, Reached;
      RunDecoder(slots, start, idle);
      ShowNews(due, now, clock);
    }
  }

  lemma {:induction false} CalledSnoc(h: Hold, cs: seq<Call>, c: Call)
    ensures CalledAll(h, cs + [c]) == Called(CalledAll(h, cs), c)
  {
    assert (cs + [c])[..|cs|] == cs;
  }

  // ---- What the panel shows ----

  /** At the j-th call the decoder displayed this text with this blink mask. */
  ghost predicate DisplayedAt(log: seq<Event>, at: seq<nat>, j: nat, text: string, mask: bv16)
    requires j < |at| && at[j] <= |log|
  {
    StateAt(log, at[j]).main == text && StateAt(log, at[j]).blinkMask == mask
  }

  /** The j-th call found this on display and judged to be a reading or a menu. */
  ghost predicate Recognised(log: seq<Event>, at: seq<nat>, j: nat, text: string, mask: bv16) {
    && j < |at| && at[j] <= |log| && DisplayedAt(log, at, j, text, mask)
    && |text| == DISPLAY_BUF_LEN && (Reading.IsReading(CString(text)) || Menu.IsMenu(CString(text)))
  }

  /** From the j-th to the k-th call, more than 300 ms, the counter stood still; and so, unless 2^32
      events passed, did the display. */
  ghost predicate Stood(log: seq<Event>, calls: seq<Call>, at: seq<nat>, j: nat, k: nat, text: string, mask: bv16) {
    && j < k < |at| && |at| == |calls| && (forall i :: j <= i <= k ==> at[i] <= |log|)
    && DisplayedAt(log, at, j, text, mask) && calls[k].now > calls[j].now + HOLD_US
    && (forall i :: j <= i <= k ==> StateAt(log, at[i]).news == StateAt(log, at[j]).news)
    && (forall i :: j <= i <= k && at[i] < at[j] + 0x1_0000_0000 ==> DisplayedAt(log, at, i, text, mask))
  }

  lemma {:induction false} PollsStandStill(log: seq<Event>, calls: seq<Call>, at: seq<nat>, j: nat, i: nat)
    requires AllTraced(log, calls, at) && j <= i < |at|
    requires forall n :: j < n <= i ==> calls[n].Poll?
    ensures StateAt(log, at[i]).news == StateAt(log, at[j]).news
    decreases i
  {
    hide StateAt;
    if j < i {
      assert Traced(log, calls, at, i);
      PollsStandStill(log, calls, at, j, i - 1);
    }
  }

  lemma StillDisplayed(log: seq<Event>, m: nat, n: nat)
    requires m <= n <= |log| && n - m < 0x1_0000_0000 && StateAt(log, n).news == StateAt(log, m).news
    ensures StateAt(log, n).main == StateAt(log, m).main && StateAt(log, n).blinkMask == StateAt(log, m).blinkMask
  {
    assert log[..n] == log[..m] + log[m..n];
    RunConcat(Init(), log[..m], log[m..n]);
    UnchangedCounter(Reached(log[..m]), log[m..n]);
  }

  lemma OutwaitedStood(log: seq<Event>, calls: seq<Call>, at: seq<nat>, j: nat, k: nat, t: Shot)
    requires AllTraced(log, calls, at) && Outwaited(calls, j, k, t)
    ensures var s := StateAt(log, at[j]);
            t == ShotOf(s) && Stood(log, calls, at, j, k, s.main, s.blinkMask)
  {
    hide StateAt;
    assert Traced(log, calls, at, j);
    var s := StateAt(log, at[j]);
    forall i | j <= i <= k
      ensures StateAt(log, at[i]).news == s.news
      ensures at[i] < at[j] + 0x1_0000_0000 ==> DisplayedAt(log, at, i, s.main, s.blinkMask)
    {
      PollsStandStill(log, calls, at, j, i);
      assert at[j] <= at[i];
      if at[i] < at[j] + 0x1_0000_0000 {
        StillDisplayed(log, at[j], at[i]);
      }
    }
  }

  lemma AcceptedIsRecognised(log: seq<Event>, calls: seq<Call>, at: seq<nat>, j: nat, t: Shot)
    requires AllTraced(log, calls, at) && Accepted(calls, j, t)
    ensures var s := StateAt(log, at[j]);
            t == ShotOf(s) && Recognised(log, at, j, s.main, s.blinkMask)
  {
    assert Traced(log, calls, at, j);
    ReachedInv(log[..at[j]]);
    VerdictIsOnMain(StateAt(log, at[j]));
  }

  /** What is on the panel has been on the decoder's display and is either a reading or a menu, or it
      stood there for more than 300 ms; before that, nothing. The cells are those of the text alone,
      whatever lies behind it in memory. */
  lemma WhatThePanelShows(l: DisplayLoop) returns (text: string, mask: bv16)
    requires l.Valid() && l.calls != []
    ensures |text| == DISPLAY_BUF_LEN && l.status.screen.visible < 2
    ensures var (screen, cells) := (l.status.screen, Parsed(text + [NUL, NUL], mask, DISPLAY_COLS));
            forall i :: 0 <= i < DISPLAY_COLS ==>
              ShownAt(screen.tiles, screen.fb[screen.visible, i], cells[i], screen.times[i])
    ensures || (text == NoText() && mask == 0)
            || (exists j :: Recognised(l.dmm.log, l.at, j, text, mask))
            || (exists j, k :: Stood(l.dmm.log, l.calls, l.at, j, k, text, mask))
  {
    hide Parsed, ShownAt, StateAt, AllTraced, Stood, Recognised, CalledAll, LoopInv, DmmContext.Consistent;
    var t := CalledAll(NOTHING_HELD, l.calls).published;
    ShownForAReason(NOTHING_HELD, l.calls);
    if t == NOTHING {
      text, mask := NoText(), 0;
    } else {
      CallsInLog(l.dmm.log, l.calls, l.at);
      var n: nat;
      if j: nat :| Accepted(l.calls, j, t) {
        AcceptedIsRecognised(l.dmm.log, l.calls, l.at, j, t);
        n := j;
      } else {
        var j: nat, k: nat :| Outwaited(l.calls, j, k, t);
        OutwaitedStood(l.dmm.log, l.calls, l.at, j, k, t);
        n := j;
      }
      var s := StateAt(l.dmm.log, l.at[n]);
      text, mask := s.main, s.blinkMask;
      TextAlone(l.dmm.log, l.at[n], mask);
    }
  }

  /** The panel shows what the decoder displayed after n events. */
  ghost predicate OnThePanel(l: DisplayLoop, n: nat)
    requires l.Valid() && n <= |l.dmm.log|
    reads l, l.DecoderObjects(), l.status.Objects()
  {
    var (screen, s) := (l.status.screen, StateAt(l.dmm.log, n));
    screen.visible < 2 &&
    forall i :: 0 <= i < DISPLAY_COLS ==>
      ShownAt(screen.tiles, screen.fb[screen.visible, i],
              Parsed(s.main + [NUL, NUL], s.blinkMask, DISPLAY_COLS)[i], screen.times[i])
  }

  /** The latest report is on the panel if it was recognised, or once a call that came more than 300 ms
      after it found no news. */
  lemma ReportIsShown(l: DisplayLoop, j: nat)
    requires l.Valid() && j < |l.calls| && l.calls[j].NewData? && forall i :: j < i < |l.calls| ==> l.calls[i].Poll?
    requires l.calls[j].accepted
             || (l.calls[j].now > 0 && exists k :: j < k < |l.calls| && l.calls[k].now > l.calls[j].now + 300000)
    ensures |l.at| == |l.calls| && l.at[j] <= |l.dmm.log| && OnThePanel(l, l.at[j])
  {
    hide Parsed, ShownAt, StateAt, LoopInv, DmmContext.Consistent, CalledAll;
    assert Traced(l.dmm.log, l.calls, l.at, j);
    hide AllTraced;
    Publication(NOTHING_HELD, l.calls, j);
    var s := StateAt(l.dmm.log, l.at[j]);
    TextAlone(l.dmm.log, l.at[j], s.blinkMask);
  }

  /** The counter moved before the j-th call and has stood still since. */
  ghost predicate StandsFrom(log: seq<Event>, at: seq<nat>, j: nat) {
    && j < |at| && (forall i :: 0 <= i < |at| ==> at[i] <= |log|)
    && StateAt(log, at[j]).news != (if j == 0 then 0 else StateAt(log, at[j - 1]).news)
    && forall i :: j <= i < |at| ==> StateAt(log, at[i]).news == StateAt(log, at[j]).news
  }

  lemma StandingIsPolled(log: seq<Event>, calls: seq<Call>, at: seq<nat>, j: nat)
    requires AllTraced(log, calls, at) && StandsFrom(log, at, j)
    ensures calls[j].NewData? && forall i :: j < i < |calls| ==> calls[i].Poll?
  {
    hide StateAt;
    assert Traced(log, calls, at, j);
    forall i | j < i < |calls| ensures calls[i].Poll? {
      assert Traced(log, calls, at, i);
    }
  }

  /** A text that stays is shown: if the counter moved before the j-th call and has stood still since, and a
      later call came more than 300 ms after it, what the decoder displayed then is on the panel. */
  lemma StoodIsShown(l: DisplayLoop, j: nat, k: nat)
    requires l.Valid() && j < k < |l.calls| && StandsFrom(l.dmm.log, l.at, j)
    requires l.calls[j].now > 0 && l.calls[k].now > l.calls[j].now + 300000
    ensures OnThePanel(l, l.at[j])
  {
    hide Parsed, ShownAt, LoopInv, DmmContext.Consistent, CalledAll, AllTraced, StandsFrom;
    StandingIsPolled(l.dmm.log, l.calls, l.at, j);
    ReportIsShown(l, j);
  }

  /** Nothing in a run adds to a message, ends one or resets. */
  ghost predicate LeavesMessage(f: Framer, es: seq<Event>) {
    es == [] ||
    (var front := es[..|es| - 1]; var e := es[|es| - 1];
     && LeavesMessage(f, front) && e != ResetSeen
     && (e.Consume? ==> var a := Asked(FramesAfter(f, Pairs(front)), e.p); !a.BodyByte? && !a.EndMessage?))
  }

  lemma {:induction false} MessageLeft(s: Panel, es: seq<Event>)
    requires Sized(s) && LeavesMessage(s.framer, es)
    ensures Run(s, es).msg == s.msg && Run(s, es).main == s.main
  {
    if es != [] {
      var front, e := es[..|es| - 1], es[|es| - 1];
      MessageLeft(s, front);
      FramerOfRun(s, front);
      OneLeft(Run(s, front), e);
      hide Step;
    }
  }

  lemma OneLeft(s: Panel, e: Event)
    requires Sized(s) && e != ResetSeen
    requires e.Consume? ==> !Asked(s.framer, e.p).BodyByte? && !Asked(s.framer, e.p).EndMessage?
    ensures Step(s, e).msg == s.msg && Step(s, e).main == s.main
  {
    hide Asked, Next;
  }

  /** The log up to a call: a message frame with a body comes to its end in it, after the call before, and
      nothing of another message or a reset has come since. */
  ghost predicate FrameBefore(log: seq<Event>, at: seq<nat>, j: nat, es: seq<Event>, t: u32, more: seq<Event>)
    requires j < |at| && at[j] <= |log|
  {
    && log[..at[j]] == es + [Consume(Pair(0x00, 0xbb), t)] + more && (j > 0 ==> at[j - 1] <= |es|)
    && Undisturbed(es) && Run(Init(), es).framer.state == MESSAGE && |Run(Init(), es).framer.pairs| > 2
    && LeavesMessage(SYNCED, more)
  }

  lemma {:induction false} CounterMoved(log: seq<Event>, n: nat, m: nat, es: seq<Event>, e: Event, more: seq<Event>)
    requires n <= |es| && m <= |log| && log[..m] == es + [e] + more && m < 0x1_0000_0000
    requires Step(Run(Init(), es), e).news != Run(Init(), es).news
    ensures StateAt(log, m).news != StateAt(log, n).news
  {
    hide Step, StateAt, Run;
    Pieces(log, n, m, es, e, more);
    StateFrom(log, n, |es|);
    StateFrom(log, n, m);
    ReachedIsRun(log, |es|);
    CountedIsSeen(StateAt(log, n), es[n..], e, more, log[n..m]);
  }

  lemma {:induction false} FrameEndIsCounted(es: seq<Event>, t: u32)
    requires Undisturbed(es) && Run(Init(), es).framer.state == MESSAGE && |Run(Init(), es).framer.pairs| > 2
    ensures Step(Run(Init(), es), Consume(Pair(0x00, 0xbb), t)).news != Run(Init(), es).news
  {
    hide *;
    MessageVerdict(es, t);
  }

  lemma FrameIsNews(log: seq<Event>, calls: seq<Call>, at: seq<nat>, j: nat, es: seq<Event>, t: u32, more: seq<Event>)
    requires AllTraced(log, calls, at) && j < |at| && at[j] < 0x1_0000_0000
    requires FrameBefore(log, at, j, es, t, more)
    ensures calls[j].NewData?
  {
    hide Step, Undisturbed, LeavesMessage, StateAt, Run;
    assert Traced(log, calls, at, j);
    NothingYet(log);
    FrameEndIsCounted(es, t);
    CounterMoved(log, if j == 0 then 0 else at[j - 1], at[j], es, Consume(EOF, t), more);
  }

  lemma Pieces(log: seq<Event>, n: nat, m: nat, es: seq<Event>, e: Event, more: seq<Event>)
    requires n <= |es| && m <= |log| && log[..m] == es + [e] + more
    ensures |es| < m && log[..|es|] == es && log[n..|es|] == es[n..] && log[n..m] == es[n..] + [e] + more
  {
    assert log[..m][..|es|] == log[..|es|] && log[..m][n..|es|] == log[n..|es|] && log[..m][n..] == log[n..m];
  }

  lemma StateFrom(log: seq<Event>, n: nat, m: nat)
    requires n <= m <= |log|
    ensures StateAt(log, m) == Run(StateAt(log, n), log[n..m])
  {
    assert log[..m] == log[..n] + log[n..m];
    RunConcat(Init(), log[..n], log[n..m]);
  }

  lemma ReachedIsRun(log: seq<Event>, n: nat)
    requires n <= |log|
    ensures StateAt(log, n) == Run(Init(), log[..n])
  {
  }

  lemma NothingYet(log: seq<Event>)
    ensures StateAt(log, 0).news == 0
  {
    assert log[..0] == [];
  }

  lemma {:induction false} FrameStillThere(log: seq<Event>, at: seq<nat>, j: nat, es: seq<Event>, t: u32,
                                           more: seq<Event>)
    requires j < |at| && at[j] <= |log| && FrameBefore(log, at, j, es, t, more)
    ensures var (s, r) := (StateAt(log, at[j]), Step(Run(Init(), es), Consume(EOF, t)));
            s.main == r.main && s.msg == r.msg
  {
    var e := Consume(EOF, t);
    var mid := Run(Init(), es);
    PublishedTextIsPure(es, t);
    ReachedIsRun(log, at[j]);
    RunConcat(Init(), es + [e], more);
    RunSnoc(es, e);
    hide Step, Undisturbed, LeavesMessage;
    MessageLeft(Step(mid, e), more);
  }

  lemma {:induction false} RunSnoc(es: seq<Event>, e: Event)
    ensures Run(Init(), es + [e]) == Step(Run(Init(), es), e)
  {
    assert (es + [e])[..|es|] == es;
  }

  /** The body of the message frame in progress is printable and a reading or a menu. */
  ghost predicate WillBeRecognised(es: seq<Event>)
    requires |Run(Init(), es).framer.pairs| > 2
  {
    var codes := Codes(Inputs(Run(Init(), es).framer.pairs[2..]));
    !Garbled(codes) && (Reading.IsReading(CString(Text(codes))) || Menu.IsMenu(CString(Text(codes))))
  }

  lemma {:induction false} VerdictOnFrame(es: seq<Event>, t: u32)
    requires Undisturbed(es) && Run(Init(), es).framer.state == MESSAGE && |Run(Init(), es).framer.pairs| > 2
    requires WillBeRecognised(es)
    ensures var r := Step(Run(Init(), es), Consume(EOF, t));
            && (r.msg.valid || r.msg.menu) && !r.msg.corrupt
            && r.main == Text(Codes(Inputs(Run(Init(), es).framer.pairs[2..])))
  {
    MessageVerdict(es, t);
    hide Step, Undisturbed, Run, Text, Codes, Garbled, Inputs, Reading.IsReading, Menu.IsMenu, Recognisers.IsText;
  }

  /** A message frame that shows a reading or a menu, in printable characters, is recognised by the first
      call after it, and while no other report follows it is on the panel. */
  lemma {:induction false} RecognisedIsShown(l: DisplayLoop, j: nat, es: seq<Event>, t: u32, more: seq<Event>)
    requires l.Valid() && j < |l.calls| == |l.at| && l.at[j] <= |l.dmm.log| && l.at[j] < 0x1_0000_0000
    requires FrameBefore(l.dmm.log, l.at, j, es, t, more) && forall i :: j < i < |l.calls| ==> l.calls[i].Poll?
    requires WillBeRecognised(es)
    ensures l.calls[j].NewData? && l.calls[j].accepted && OnThePanel(l, l.at[j])
    ensures StateAt(l.dmm.log, l.at[j]).main == Text(Codes(Inputs(Run(Init(), es).framer.pairs[2..])))
  {
    hide Parsed, ShownAt, StateAt, LoopInv, DmmContext.Consistent, CalledAll, Text, Codes, Garbled, Inputs, Step;
    hide Reading.IsReading, Menu.IsMenu, Recognisers.IsText;
    var log := l.dmm.log;
    FrameIsNews(log, l.calls, l.at, j, es, t, more);
    FrameStillThere(log, l.at, j, es, t, more);
    VerdictOnFrame(es, t);
    assert Traced(log, l.calls, l.at, j);
    hide FrameBefore, AllTraced, WillBeRecognised;
    ReportIsShown(l, j);
  }

  lemma CallsInLog(log: seq<Event>, calls: seq<Call>, at: seq<nat>)
    requires AllTraced(log, calls, at)
    ensures |at| == |calls| && forall i :: 0 <= i < |at| ==> at[i] <= |log|
  {
  }

  lemma {:induction false} TextAlone(log: seq<Event>, n: nat, mask: bv16)
    requires n <= |log|
    ensures var s := StateAt(log, n);
            Parsed(s.main + s.lastReading, mask, DISPLAY_COLS) == Parsed(s.main + [NUL, NUL], mask, DISPLAY_COLS)
  {
    ReachedInv(log[..n]);
    OverrunIsHarmless(StateAt(log, n), mask);
  }
}
