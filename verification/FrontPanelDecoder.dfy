/** The main-loop side of the decoder, updated in place as the source updates dmm_context_t. Every
    method is proved against the step functions of module Panel. */
module FrontPanelDecoder {
  import opened Basics
  import opened Wire
  import opened Frames
  import opened Messages
  import opened Panel
  import Recognisers
  import Reading = ReadingRecogniser
  import Menu = MenuRecogniser

  function Zip(ins: seq<byte>, outs: seq<byte>): (ps: seq<Pair>)
    requires |ins| == |outs|
    ensures |ps| == |ins| && forall i :: 0 <= i < |ps| ==> ps[i] == Pair(ins[i], outs[i])
  {
    if ins == [] then [] else [Pair(ins[0], outs[0])] + Zip(ins[1..], outs[1..])
  }

  class FrontPanel {
    const inputBuf: array<byte>
    const outputBuf: array<byte>
    var bufLen: nat
    var frameState: FrameState
    const msgWork: array<char>
    var msgIdx: nat
    var msgBlinkWork: bv16
    var msgWorkNeedReset: bool
    var corruptMsg: bool
    var menuMsg: bool
    var validReading: bool
    const main: array<char>
    const lastReading: array<char>
    var blinkMask: bv16
    var annState: bv16
    var shiftWindowActive: bool
    var shiftWindowStartUs: u32
    var shiftPressCount: byte
    var newDataCounter: u32

    ghost function Arrays(): set<object>
    {
      var bytes: set<object> := {inputBuf, outputBuf};
      var texts: set<object> := {msgWork, main, lastReading};
      bytes + texts
    }

    ghost predicate Shape()
      reads this`bufLen, this`msgIdx
    {
      && inputBuf.Length == BUF_LEN && outputBuf.Length == BUF_LEN && inputBuf != outputBuf
      && msgWork.Length == DISPLAY_BUF_LEN && main.Length == DISPLAY_BUF_LEN && lastReading.Length == DISPLAY_BUF_LEN
      && msgWork != main && main != lastReading && msgWork != lastReading
      && bufLen <= BUF_LEN && msgIdx <= DISPLAY_BUF_LEN - 1
    }

    ghost function Msg(): Message
      reads this`msgIdx, this`msgBlinkWork, this`msgWorkNeedReset, this`corruptMsg, this`menuMsg, this`validReading
      reads msgWork
    {
      Message(msgWork[..], msgIdx, msgBlinkWork, msgWorkNeedReset, corruptMsg, menuMsg, validReading)
    }

    ghost function Fr(): Framer
      requires bufLen <= inputBuf.Length && bufLen <= outputBuf.Length
      reads this`bufLen, this`frameState, inputBuf, outputBuf
    {
      Framer(frameState, Zip(inputBuf[..bufLen], outputBuf[..bufLen]))
    }

    ghost function State(): (s: Panel)
      requires Shape()
      reads this, Arrays()
      ensures Sized(s)
    {
      Panel(Fr(), Msg(), main[..], lastReading[..], blinkMask, annState,
            shiftWindowActive, shiftWindowStartUs, shiftPressCount, newDataCounter)
    }

    /** decoder34401_init. */
    constructor ()
      ensures Shape() && State() == Init() && fresh(Arrays())
    {
      inputBuf := new byte[BUF_LEN](_ => 0);
      outputBuf := new byte[BUF_LEN](_ => 0);
      msgWork := new char[DISPLAY_BUF_LEN](i => if 0 <= i < 14 then ' ' else NUL);
      main := new char[DISPLAY_BUF_LEN](i => if 0 <= i < 14 then ' ' else NUL);
      lastReading := new char[DISPLAY_BUF_LEN](_ => NUL);
      bufLen, frameState := 0, INIT;
      msgIdx, msgBlinkWork, msgWorkNeedReset := 0, 0, true;
      corruptMsg, menuMsg, validReading := false, false, false;
      blinkMask, annState := 0, 0;
      shiftWindowActive, shiftWindowStartUs, shiftPressCount, newDataCounter := false, 0, 0, 0;
      new;
      assert msgWork[..] == Blank() && main[..] == Blank() && lastReading[..] == NoText();
    }

    /** dmm_putc_safe. */
    method PutcSafe(c: byte)
      requires Shape()
      modifies this`msgIdx, this`corruptMsg, msgWork
      ensures Shape() && Msg() == PutChar(old(Msg()), c)
    {
      if msgIdx >= DISPLAY_BUF_LEN - 1 {
        return;
      }
      msgWork[msgIdx] := if Printable(c) then c as char else ' ';
      msgIdx := msgIdx + 1;
      if corruptMsg {
        return;
      }
      if !Printable(c) {
        corruptMsg := true;
      }
    }

    /** The first byte of a message clears what the previous one left. */
    method StartMessage()
      requires Shape()
      modifies this`msgIdx, this`corruptMsg, this`msgBlinkWork, this`menuMsg, this`validReading,
               this`msgWorkNeedReset, msgWork
      ensures Shape() && Msg() == Fresh(old(Msg()))
    {
      if msgWorkNeedReset {
        msgIdx := 0;
        msgBlinkWork := 0;
        forall i | 0 <= i < DISPLAY_BUF_LEN - 2 {
          msgWork[i] := ' ';
        }
        msgWork[DISPLAY_BUF_LEN - 2] := NUL;
        msgWork[DISPLAY_BUF_LEN - 1] := NUL;
        corruptMsg := false;
        menuMsg := false;
        validReading := false;
        msgWorkNeedReset := false;
        assert msgWork[..] == Blank();
      }
    }

    method BlinkLast()
      requires Shape()
      modifies this`msgBlinkWork
      ensures Shape() && Msg() == BlinkBefore(old(Msg()))
    {
      hide BlinkBit;
      if msgIdx > 0 {
        msgBlinkWork := msgBlinkWork | BlinkBit(msgIdx - 1);
      }
    }

    method MessageByte(b: byte)
      requires Shape()
      modifies this`msgIdx, this`corruptMsg, this`msgBlinkWork, this`menuMsg, this`validReading,
               this`msgWorkNeedReset, msgWork
      ensures Shape() && Msg() == AddByte(old(Msg()), b)
    {
      hide Fresh, PutChar, BlinkBefore;
      StartMessage();
      match b {
        case 0x84 => PutcSafe(0x2e);
        case 0x86 => PutcSafe(0x2c);
        case 0x8d =>
          BlinkLast();
          PutcSafe(0x3a);
        case 0x8c => PutcSafe(0x3a);
        case 0x81 =>
        case 0x00 =>
        case _ => PutcSafe(b);
      }
    }

    method EndFrame()
      requires Shape()
      modifies this`bufLen, this`frameState
      ensures Shape() && Fr() == SYNCED
    {
      bufLen := 0;
      frameState := UNKNOWN;
    }

    method LastBytesAreEof() returns (eof: bool)
      requires Shape()
      ensures eof <==> bufLen > 0 && Fr().pairs[bufLen - 1] == EOF
    {
      eof := bufLen > 0 && inputBuf[bufLen - 1] == 0x00 && outputBuf[bufLen - 1] == 0xbb;
    }

    method CountNews()
      modifies this`newDataCounter
      ensures newDataCounter == Counted(old(newDataCounter), true)
    {
      newDataCounter := (newDataCounter + 1) % 0x1_0000_0000;
    }

    method PublishAnnunciators(h: byte, l: byte)
      modifies this`annState, this`newDataCounter
      ensures annState == WithShift(old(annState), h, l)
      ensures newDataCounter == Counted(old(newDataCounter), annState != old(annState))
    {
      var state := ((h as bv16) << 8) | l as bv16;
      var newState := (state & 0xF7FF) | (annState & 0x0800);
      if newState != annState {
        annState := newState;
        CountNews();
      }
    }

    method DecodeControlFrame()
      requires Shape()
      modifies this`blinkMask, this`newDataCounter
      ensures bufLen < 2 ==> blinkMask == old(blinkMask) && newDataCounter == old(newDataCounter)
      ensures bufLen >= 2 ==>
                var (hi, lo) := (Fr().pairs[0].inp, Fr().pairs[1].inp);
                && blinkMask == BlinkCode(old(blinkMask), hi, lo)
                && newDataCounter == Counted(old(newDataCounter), BlinkTarget(hi, lo) != 0)
    {
      if bufLen < 2 {
        return;
      }
      assert Fr().pairs[0].inp == inputBuf[0] && Fr().pairs[1].inp == inputBuf[1];
      hide Zip, Counted;
      var hi: int, lo: int := inputBuf[0], inputBuf[1];
      var cmd := 0x100 * hi + lo;
      match cmd {
        case 0x0049 => blinkMask := 0x001;
        case 0x7149 => blinkMask := 0x002;
        case 0x6249 => blinkMask := 0x004;
        case 0x1349 => blinkMask := 0x008;
        case 0x5449 => blinkMask := 0x010;
        case 0x2549 => blinkMask := 0x020;
        case 0x3649 => blinkMask := 0x040;
        case 0x4749 => blinkMask := 0x080;
        case 0x3849 => blinkMask := 0x100;
        case 0x4949 => blinkMask := 0x200;
        case 0x5A49 => blinkMask := 0x400;
        case 0x2B49 => blinkMask := 0x800;
        case _ => return;
      }
      CountNews();
    }

    /** The verdict on a complete message. */
    method JudgeMessage()
      requires Shape() && WellFormed(msgWork[..])
      modifies this`validReading, this`menuMsg, this`corruptMsg
      ensures Msg() == Judged(old(Msg()))
    {
      hide Reading.IsReading, Menu.IsMenu, Recognisers.IsText;
      if !corruptMsg {
        ghost var end := Length(msgWork[..]);
        assert msgWork[..end] == CString(msgWork[..]);
        var reading := Reading.RegexValidReading(msgWork, end);
        if reading {
          validReading := true;
        } else {
          var menu := Menu.RegexInMenu(msgWork, end);
          if menu {
            menuMsg := true;
          } else {
            var text := Recognisers.RegexTextDisplay(msgWork, end);
            if !text {
              corruptMsg := true;
            }
          }
        }
      }
    }

    /** The end of a message frame, up to endFrame: verdict, publication, blink mask. */
    method PublishMessage()
      requires Shape() && WellFormed(msgWork[..])
      modifies this`validReading, this`menuMsg, this`corruptMsg, this`blinkMask, this`msgWorkNeedReset,
               this`newDataCounter, main, lastReading
      ensures Shape() && Msg() == Judged(old(Msg())).(needReset := true)
      ensures newDataCounter == Counted(old(newDataCounter), true)
      ensures main[..] == msgWork[..] && blinkMask == msgBlinkWork
      ensures lastReading[..] == if Judged(old(Msg())).valid then msgWork[..] else old(lastReading[..])
    {
      hide Judged;
      JudgeMessage();
      forall i | 0 <= i < DISPLAY_BUF_LEN {
        main[i] := msgWork[i];
      }
      if validReading {
        forall i | 0 <= i < DISPLAY_BUF_LEN {
          lastReading[i] := msgWork[i];
        }
      }
      blinkMask := msgBlinkWork;
      CountNews();
      msgWorkNeedReset := true;
    }

    method ShowReset()
      requires main.Length == DISPLAY_BUF_LEN
      modifies main
      ensures main[..] == SystemReset()
    {
      var text := SystemReset();
      forall i | 0 <= i < DISPLAY_BUF_LEN {
        main[i] := text[i];
      }
    }

    /** process_reset. The frame buffer, its state and the ring are left as they are. */
    method ProcessReset()
      requires Shape()
      modifies this, main
      ensures Shape() && State() == Restarted(old(State()))
    {
      hide SystemReset;
      shiftPressCount := 0;
      shiftWindowActive := false;
      msgWorkNeedReset := true;
      corruptMsg := false;
      menuMsg := false;
      validReading := false;
      ShowReset();
      annState := 0;
      blinkMask := 0;
      CountNews();
    }

    method ProcessShiftWindow(now: u32)
      requires Shape()
      modifies this`annState, this`shiftPressCount, this`shiftWindowActive, this`newDataCounter
      ensures Shape() && State() == CloseWindow(old(State()), now)
    {
      if shiftWindowActive {
        if Elapsed(now, shiftWindowStartUs) > SHIFT_WINDOW_US {
          if shiftPressCount % 2 == 1 {
            annState := annState ^ 0x0800;
            CountNews();
          }
          shiftPressCount := 0;
          shiftWindowActive := false;
        }
      }
    }

    /** A pressed key other than SHIFT. */
    method OtherKeyPressed()
      modifies this`shiftWindowActive, this`shiftPressCount, this`annState, this`newDataCounter
      ensures !shiftWindowActive && shiftPressCount == 0 && annState == ClearShift(old(annState))
      ensures newDataCounter == Counted(old(newDataCounter), annState != old(annState))
    {
      shiftWindowActive := false;
      shiftPressCount := 0;
      if annState & 0x0800 != 0 {
        annState := annState & !0x0800;
        CountNews();
      }
    }

    method ShiftKeyPressed(now: u32)
      modifies this`shiftWindowActive, this`shiftWindowStartUs, this`shiftPressCount
      ensures shiftWindowActive && shiftWindowStartUs == now
      ensures shiftPressCount == if old(shiftWindowActive) then (old(shiftPressCount) + 1) % 256 else 1
    {
      if !shiftWindowActive {
        shiftWindowActive := true;
        shiftWindowStartUs := now;
        shiftPressCount := 1;
      } else {
        shiftPressCount := (shiftPressCount + 1) % 256;
        shiftWindowStartUs := now;
      }
    }

    /** What the frame machine asks for in state BUTTON, case by case. */
    lemma ButtonCases(s0: Panel, p: Pair, now: u32)
      requires Sized(s0) && s0.framer.state == BUTTON && p != EOF
      ensures var b := Buffered(s0.framer, p);
              Target(s0, p, now) ==
                if p.inp != 0x66 then s0.(framer := Framer(BUTTON, b))
                else if |b| < 3 then s0.(framer := SYNCED)
                else if ButtonCode(b) == SHIFT_CODE then ShiftPressed(s0, now).(framer := SYNCED)
                else OtherPressed(s0).(framer := SYNCED)
    {
      hide ShiftPressed, OtherPressed;
    }

    method LastButtonCode() returns (code: int)
      requires Shape() && 3 <= bufLen
      ensures code == ButtonCode(Fr().pairs)
    {
      var b0: int, b1: int, b2: int := outputBuf[0], outputBuf[1], outputBuf[2];
      code := 0x10000 * b0 + 0x100 * b1 + b2;
    }

    method KeyPressed(now: u32)
      requires Shape() && 3 <= bufLen
      modifies this`shiftWindowActive, this`shiftWindowStartUs, this`shiftPressCount, this`annState,
               this`newDataCounter
      ensures State() == if ButtonCode(Fr().pairs) == SHIFT_CODE then ShiftPressed(old(State()), now)
                         else OtherPressed(old(State()))
    {
      hide ButtonCode, Zip, ClearShift, Counted;
      var code := LastButtonCode();
      if code == SHIFT_CODE {
        ShiftKeyPressed(now);
      } else {
        OtherKeyPressed();
      }
    }

    /** The frame machine in state BUTTON, when the last pair does not end the frame. */
    method ButtonByte(ghost s0: Panel, ghost p: Pair, now: u32)
      requires Shape() && bufLen > 0 && frameState == BUTTON && s0.framer.state == BUTTON && p != EOF
      requires State() == s0.(framer := Framer(BUTTON, Buffered(s0.framer, p)))
      modifies this`shiftWindowActive, this`shiftWindowStartUs, this`shiftPressCount, this`annState,
               this`newDataCounter, this`bufLen, this`frameState
      ensures Shape() && State() == Target(s0, p, now)
    {
      hide Target, ClearShift, Counted, Zip, ButtonCode;
      ButtonCases(s0, p, now);
      assert Fr().pairs == Buffered(s0.framer, p) && |Fr().pairs| == bufLen;
      assert inputBuf[bufLen - 1] == p.inp;
      if inputBuf[bufLen - 1] == 0x66 {
        if bufLen >= 3 {
          KeyPressed(now);
        }
        EndFrame();
      }
    }

    lemma MessageCases(s0: Panel, p: Pair, now: u32)
      requires Sized(s0) && s0.framer.state == MESSAGE
      ensures Target(s0, p, now) ==
              if p == EOF then
                var m := Judged(s0.msg);
                s0.(framer := SYNCED, main := m.work, blinkMask := m.blink, msg := m.(needReset := true),
                    lastReading := if m.valid then m.work else s0.lastReading, news := Counted(s0.news, true))
              else s0.(framer := Framer(MESSAGE, Buffered(s0.framer, p)), msg := AddByte(s0.msg, p.inp))
    {
      hide Judged, AddByte;
    }

    method MessageEnd(ghost s0: Panel, ghost now: u32)
      requires Shape() && WellFormed(msgWork[..]) && s0.framer.state == MESSAGE
      requires State() == s0.(framer := Fr())
      modifies this`validReading, this`menuMsg, this`corruptMsg, this`blinkMask, this`msgWorkNeedReset,
               this`newDataCounter, this`bufLen, this`frameState, main, lastReading
      ensures Shape() && State() == Target(s0, EOF, now)
    {
      hide Target, Judged, Zip, WellFormed;
      MessageCases(s0, EOF, now);
      PublishMessage();
      EndFrame();
    }

    /** The kind of a frame is decided by its first pair, or its first two. */
    method UnknownFrame(eof: bool, ghost s0: Panel, ghost p: Pair, ghost now: u32)
      requires Shape() && bufLen > 0 && s0.framer.state == UNKNOWN && frameState == UNKNOWN
      requires State() == s0.(framer := Framer(UNKNOWN, Buffered(s0.framer, p))) && eof == (p == EOF)
      modifies this`bufLen, this`frameState
      ensures Shape() && State() == Target(s0, p, now)
    {
      assert Fr().pairs == Buffered(s0.framer, p) && |Fr().pairs| == bufLen;
      assert Target(s0, p, now) == s0.(framer := Moved(s0.framer, p));
      hide Target;
      if eof {
        EndFrame();
      } else if bufLen == 1 && inputBuf[0] == 0x00 && outputBuf[0] == 0x77 {
        frameState := BUTTON;
      } else if bufLen >= 2 {
        if inputBuf[0] == 0x00 && inputBuf[1] % 0x80 == 0x7F {
          frameState := MESSAGE;
        } else if inputBuf[0] % 0x80 == 0x7F && inputBuf[1] == 0x00 {
          frameState := ANNUNCIATORS;
        } else {
          frameState := CONTROL;
        }
      }
    }

    lemma OtherCases(s0: Panel, p: Pair, now: u32)
      requires Sized(s0) && Framed(s0.framer) && s0.framer.state !in {UNKNOWN, MESSAGE}
      ensures var (f, b) := (s0.framer, Buffered(s0.framer, p));
              if p == EOF then
                Target(s0, p, now) ==
                  if f.state == ANNUNCIATORS && |b| >= 4
                  then s0.(framer := SYNCED, ann := WithShift(s0.ann, b[3].inp, b[2].inp),
                           news := Counted(s0.news, WithShift(s0.ann, b[3].inp, b[2].inp) != s0.ann))
                  else if f.state == CONTROL
                  then s0.(framer := SYNCED, blinkMask := BlinkCode(s0.blinkMask, b[0].inp, b[1].inp),
                           news := Counted(s0.news, BlinkTarget(b[0].inp, b[1].inp) != 0))
                  else s0.(framer := SYNCED)
              else f.state != BUTTON ==> Target(s0, p, now) == s0.(framer := Framer(f.state, b))
    {
      hide WithShift, BlinkCode, BlinkTarget, Counted;
    }

    /** The end of a frame that is neither a message nor of unknown kind. */
    method OtherEnd(ghost s0: Panel, ghost now: u32)
      requires Shape() && Framed(s0.framer) && frameState == s0.framer.state && frameState !in {UNKNOWN, MESSAGE}
      requires State() == s0.(framer := Fr()) && Fr().pairs == Buffered(s0.framer, EOF) && |Fr().pairs| == bufLen
      modifies this`annState, this`blinkMask, this`newDataCounter, this`bufLen, this`frameState
      ensures Shape() && State() == Target(s0, EOF, now)
    {
      hide Target, WithShift, BlinkCode, BlinkTarget, Counted, Zip;
      OtherCases(s0, EOF, now);
      if frameState == ANNUNCIATORS {
        if bufLen >= 4 {
          PublishAnnunciators(inputBuf[3], inputBuf[2]);
        }
      } else if frameState == CONTROL {
        DecodeControlFrame();
      }
      EndFrame();
    }

    /** The frame machine on a pair that has just been buffered. */
    method SwitchFrame(ghost s0: Panel, ghost p: Pair, now: u32)
      requires Shape() && bufLen > 0 && WellFormed(msgWork[..]) && Framed(s0.framer)
      requires State() == s0.(framer := Framer(s0.framer.state, Buffered(s0.framer, p)))
      modifies this, msgWork, main, lastReading
      ensures Shape() && State() == Target(s0, p, now)
    {
      hide Target, Zip, WellFormed, AddByte, Framed;
      assert Fr().pairs == Buffered(s0.framer, p) && |Fr().pairs| == bufLen;
      var eof := LastBytesAreEof();
      if frameState == UNKNOWN {
        UnknownFrame(eof, s0, p, now);
      } else if eof {
        if frameState == MESSAGE {
          MessageEnd(s0, now);
        } else {
          OtherEnd(s0, now);
        }
      } else if frameState == MESSAGE {
        MessageCases(s0, p, now);
        MessageByte(inputBuf[bufLen - 1]);
      } else if frameState == BUTTON {
        ButtonByte(s0, p, now);
      } else {
        OtherCases(s0, p, now);
      }
    }

    /** One pair of the drain loop: buffer it, run the frame machine, give up a full buffer. */
    method ConsumeByte(inp: byte, out: byte, now: u32)
      requires Shape() && PanelInv(State())
      modifies this, Arrays()
      ensures Shape() && State() == Step(old(State()), Consume(Pair(inp, out), now))
    {
      hide Target, Step;
      ghost var s0, p := State(), Pair(inp, out);
      StepIsTarget(s0, p, now);
      assert |s0.framer.pairs| == bufLen;
      BufferPair(inp, out);
      SwitchFrame(s0, p, now);
      assert |Fr().pairs| == bufLen;
      if bufLen >= BUF_LEN {
        EndFrame();
      }
    }

    method BufferPair(inp: byte, out: byte)
      requires Shape() && bufLen < BUF_LEN
      modifies this`bufLen, inputBuf, outputBuf
      ensures Shape() && bufLen == old(bufLen) + 1
      ensures Fr() == Framer(frameState, Buffered(old(Fr()), Pair(inp, out)))
    {
      inputBuf[bufLen] := inp;
      outputBuf[bufLen] := out;
      bufLen := bufLen + 1;
      assert Fr().pairs == Buffered(old(Fr()), Pair(inp, out));
    }
  }

  /** The state after a pair, before the test for a full frame buffer. */
  ghost function Target(s: Panel, p: Pair, now: u32): (r: Panel)
    requires Sized(s)
    ensures Sized(r)
  {
    Act(s, Asked(s.framer, p), now).(framer := Moved(s.framer, p))
  }

  lemma StepIsTarget(s: Panel, p: Pair, now: u32)
    requires Sized(s)
    ensures var t := Target(s, p, now);
            Step(s, Consume(p, now)) == if |t.framer.pairs| >= BUF_LEN then t.(framer := SYNCED) else t
  {
    hide Act;
  }
}
