/** display_status: which message is on display. A reading or a menu text is shown at once; any other
    text is held back for 300 ms in case the next message replaces it. */
module Status {
  import opened Basics
  import opened Messages
  import opened Cells
  import opened Display

  const HOLD_US: int := 300000

  // ---- The hold as an abstract machine ----

  /** What display_status reads of a message: the bytes from the text on, and the blink mask. */
  datatype Shot = Shot(mem: string, mask: bv16)

  /** What state->disp and the cells on display stand for, what is held back, and new_disp_time (0 when
      nothing is held). */
  datatype Hold = Hold(published: Shot, pending: Shot, since: nat)

  datatype Call =
    | NewData(shot: Shot, accepted: bool, now: nat)   // accepted: a valid reading or a menu display
    | Poll(now: nat)

  function Called(h: Hold, c: Call): Hold {
    match c
    case NewData(shot, accepted, now) => Hold(if accepted then shot else h.published, shot, if accepted then 0 else now)
    case Poll(now) =>
      if h.since > 0 && now > h.since + HOLD_US then Hold(h.pending, h.pending, 0) else h
  }

  function CalledAll(h: Hold, cs: seq<Call>): Hold {
    if cs == [] then h else Called(CalledAll(h, cs[..|cs| - 1]), cs[|cs| - 1])
  }

  /** The j-th call brought a message that was accepted. */
  ghost predicate Accepted(cs: seq<Call>, j: nat, t: Shot) {
    j < |cs| && cs[j].NewData? && cs[j].shot == t && cs[j].accepted
  }

  /** The j-th call brought a doubtful message, nothing new was reported up to the k-th call, and the
      k-th call found it more than 300 ms old. */
  ghost predicate Outwaited(cs: seq<Call>, j: nat, k: nat, t: Shot) {
    && j < k < |cs| && cs[j].NewData? && cs[j].shot == t && !cs[j].accepted
    && (forall i :: j < i <= k ==> cs[i].Poll?)
    && cs[k].now > cs[j].now + HOLD_US
  }

  /** What is held back is what was reported last, doubtful and followed by no other report. */
  ghost predicate Holding(cs: seq<Call>, j: nat, h: Hold) {
    && j < |cs| && cs[j] == NewData(h.pending, false, h.since)
    && (forall i :: j < i < |cs| ==> cs[i].Poll?)
  }

  lemma {:induction false} HeldIsLatest(h: Hold, cs: seq<Call>) returns (j: nat)
    requires h.since == 0
    ensures CalledAll(h, cs).since > 0 ==> Holding(cs, j, CalledAll(h, cs))
  {
    j := 0;
    if cs != [] {
      var front, c := cs[..|cs| - 1], cs[|cs| - 1];
      j := HeldIsLatest(h, front);
      if c.NewData? {
        j := |front|;
      }
    }
  }

  /** No doubtful message is ever shown before its time: in every run of calls, what is on display was
      there at the start, or came as an accepted message, or is a doubtful one that was the latest
      report for more than 300 ms. */
  lemma {:induction false} ShownForAReason(h: Hold, cs: seq<Call>)
    requires h.since == 0
    ensures var t := CalledAll(h, cs).published;
            t == h.published || (exists j :: Accepted(cs, j, t)) || (exists j, k :: Outwaited(cs, j, k, t))
  {
    if cs != [] {
      var front, c := cs[..|cs| - 1], cs[|cs| - 1];
      var before, after := CalledAll(h, front), CalledAll(h, cs);
      var t := after.published;
      if c.NewData? && c.accepted {
        assert Accepted(cs, |front|, t);
      } else if c.Poll? && before.since > 0 && c.now > before.since + HOLD_US {
        var j := HeldIsLatest(h, front);
        assert Outwaited(cs, j, |front|, t);
      } else {
        ShownForAReason(h, front);
        if j :| Accepted(front, j, t) {
          assert Accepted(cs, j, t);
        } else if j, k :| Outwaited(front, j, k, t) {
          assert Outwaited(cs, j, k, t);
        }
      }
    }
  }

  /** What is on display, in full: an accepted report at once, a doubtful one from the first poll on that
      comes more than 300 ms after it with no report in between, and until then, and for ever if the
      report came at time 0, what was on display before. */
  lemma {:induction false} Publication(h: Hold, cs: seq<Call>, j: nat)
    requires j < |cs| && cs[j].NewData? && forall i :: j < i < |cs| ==> cs[i].Poll?
    ensures var late := cs[j].now > 0 && exists k :: j < k < |cs| && cs[k].now > cs[j].now + 300000;
            CalledAll(h, cs).published ==
            if cs[j].accepted || late then cs[j].shot else CalledAll(h, cs[..j]).published
    ensures CalledAll(h, cs).pending == cs[j].shot
    ensures var late := exists k :: j < k < |cs| && cs[k].now > cs[j].now + 300000;
            CalledAll(h, cs).since == if cs[j].accepted || late then 0 else cs[j].now
  {
    var front, c := cs[..|cs| - 1], cs[|cs| - 1];
    if j == |cs| - 1 {
      assert front == cs[..j];
    } else {
      Publication(h, front, j);
      assert front[..j] == cs[..j];
      assert forall k :: j < k < |front| ==> front[k] == cs[k];
      var late := exists k :: j < k < |front| && front[k].now > front[j].now + 300000;
      if late {
        var k :| j < k < |front| && front[k].now > front[j].now + 300000;
        assert cs[k].now > cs[j].now + 300000;
      }
    }
  }

  // ---- The code ----

  const NOTHING := Shot(NoText() + [NUL, NUL], 0)

  lemma NoTextIsEmpty()
    ensures forall i :: 0 <= i < DISPLAY_COLS ==> Parsed(NOTHING.mem, 0, DISPLAY_COLS)[i] == EMPTY_CELL
  {
    forall i | 0 <= i < DISPLAY_COLS ensures CellAt(NOTHING.mem, 0, i) == EMPTY_CELL {
      NothingBlinks(i);
    }
  }

  lemma NothingBlinks(i: nat)
    requires i < 16
    ensures !Blinking(0, i)
  {
  }

  class StatusDisplay {
    const screen: Screen
    const published: array<char>     // state->disp
    const curDispTxt: array<char>
    const curDisp: array<Cell>
    const disp: array<Cell>
    var newDispTime: nat
    ghost var shown: Shot            // what the published text and cells were taken from
    ghost var held: Shot

    ghost function Objects(): set<object> {
      var o: set<object> := {this, published, curDispTxt, curDisp, disp, screen, screen.cache, screen.fb};
      o
    }

    /** The text and the cells published are those of one message, and so are those held back. */
    ghost predicate Valid()
      reads Objects()
    {
      && screen.Valid()
      && published.Length == DISPLAY_BUF_LEN && curDispTxt.Length == DISPLAY_BUF_LEN && published != curDispTxt
      && curDisp.Length == DISPLAY_COLS && disp.Length == DISPLAY_COLS && curDisp != disp
      && |shown.mem| > DISPLAY_BUF_LEN && |held.mem| > DISPLAY_BUF_LEN
      && published[..] == shown.mem[..DISPLAY_BUF_LEN] && curDisp[..] == Parsed(shown.mem, shown.mask, DISPLAY_COLS)
      && curDispTxt[..] == held.mem[..DISPLAY_BUF_LEN] && disp[..] == Parsed(held.mem, held.mask, DISPLAY_COLS)
    }

    /** The static variables start as zeros: no text, empty cells, nothing held back. */
    constructor (screen: Screen)
      requires screen.Valid()
      ensures Valid() && this.screen == screen && Held() == Hold(NOTHING, NOTHING, 0)
      ensures fresh(Objects() - {screen, screen.cache, screen.fb})
    {
      this.screen := screen;
      published := new char[DISPLAY_BUF_LEN](_ => NUL);
      curDispTxt := new char[DISPLAY_BUF_LEN](_ => NUL);
      curDisp := new Cell[DISPLAY_COLS](_ => EMPTY_CELL);
      disp := new Cell[DISPLAY_COLS](_ => EMPTY_CELL);
      newDispTime := 0;
      shown, held := NOTHING, NOTHING;
      new;
      assert published[..] == NoText() && curDispTxt[..] == NoText();
      NoTextIsEmpty();
    }

    ghost function Held(): Hold
      reads this
    {
      Hold(shown, held, newDispTime)
    }

    /** The layer on the panel shows the cells of the published message. */
    ghost predicate OnPanel()
      requires Valid()
      reads Objects()
    {
      screen.visible < 2 &&
      forall i :: 0 <= i < DISPLAY_COLS ==>
        ShownAt(screen.tiles, screen.fb[screen.visible, i], Parsed(shown.mem, shown.mask, DISPLAY_COLS)[i],
                screen.times[i])
    }

    /** The cell parser. */
    method ParseCells(mem: string, mask: bv16)
      requires |mem| > DISPLAY_BUF_LEN && disp.Length == DISPLAY_COLS
      modifies disp
      ensures disp[..] == Parsed(mem, mask, DISPLAY_COLS)
    {
      var d := 0;
      for i := 0 to DISPLAY_COLS
        invariant d == Position(mem, i)
        invariant forall j :: 0 <= j < i ==> disp[j] == CellAt(mem, mask, j)
      {
        if d > DISPLAY_BUF_LEN - 1 {
          d := DISPLAY_BUF_LEN - 1;
        }
        var c := mem[d];
        d := d + 1;
        var flags: bv8 := 0;
        match mem[d] {
          case '.' =>
            flags := PERIOD;
            if mem[d - 1] != '.' { d := d + 1; }
          case ',' =>
            flags := COMMA;
            if mem[d - 1] != ',' { d := d + 1; }
          case ':' =>
            flags := COLON;
            if mem[d - 1] != ':' { d := d + 1; }
          case _ =>
        }
        disp[i] := Cell(c, flags, Blinking(mask, i));
      }
    }

    method Publish()
      requires Valid()
      modifies published, curDisp, this`newDispTime, this`shown
      ensures Valid() && Held() == Hold(old(held), old(held), 0)
    {
      hide Parsed, Shows, ShownAt;
      forall i | 0 <= i < DISPLAY_BUF_LEN {
        published[i] := curDispTxt[i];
      }
      forall i | 0 <= i < DISPLAY_COLS {
        curDisp[i] := disp[i];
      }
      newDispTime := 0;
      shown := held;
      assert disp[..] == old(disp[..]) && curDispTxt[..] == old(curDispTxt[..]);
      assert published[..] == curDispTxt[..] && curDisp[..] == disp[..];
    }

    /** A message arrives: it is parsed and becomes the text held back. */
    method Receive(mem: string, mask: bv16, now: nat)
      requires Valid() && |mem| > DISPLAY_BUF_LEN
      modifies disp, curDispTxt, this`newDispTime, this`held
      ensures Valid() && Held() == Hold(old(shown), Shot(mem, mask), now)
    {
      hide Parsed, Shows, ShownAt;
      ParseCells(mem, mask);
      newDispTime := now;
      forall i | 0 <= i < DISPLAY_BUF_LEN {
        curDispTxt[i] := mem[i];
      }
      held := Shot(mem, mask);
      assert curDisp[..] == old(curDisp[..]) && published[..] == old(published[..]);
      assert curDispTxt[..] == mem[..DISPLAY_BUF_LEN];
    }

    /** display_status. mem is the decoder's text and the bytes behind it. */
    method DisplayStatus(mem: string, mask: bv16, corrupt: bool, valid: bool, menu: bool, newData: bool,
                         now: nat, clock: seq<u32>)
      requires Valid() && |mem| > DISPLAY_BUF_LEN && |clock| == DISPLAY_COLS
      modifies Objects()
      ensures Valid() && OnPanel() && screen.calls == old(screen.calls) + 1 && screen.times == clock
      ensures Held() == Called(old(Held()), if newData
                                            then NewData(Shot(mem, mask), !corrupt && (valid || menu), now)
                                            else Poll(now))
      ensures old(screen.calls) > 0 ==> !screen.disturbed
    {
      hide Parsed, Shows, ShownAt;
      if !newData {
        if newDispTime > 0 && now > newDispTime + HOLD_US {
          Publish();
        }
        screen.UpdateDisplay(curDisp, false, clock);
        return;
      }
      Receive(mem, mask, now);
      if !corrupt {
        if valid || menu {
          Publish();
        }
      }
      screen.UpdateDisplay(curDisp, false, clock);
    }
  }
}
