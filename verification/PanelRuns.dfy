/** What the displayed text and the frame layer amount to over whole runs. */
module PanelRuns {
  import opened Basics
  import opened Wire
  import opened Frames
  import opened Messages
  import opened Panel

  lemma {:induction false} RunConcat(s: Panel, es: seq<Event>, fs: seq<Event>)
    requires Sized(s)
    ensures Run(s, es + fs) == Run(Run(s, es), fs)
  {
    if fs == [] {
      assert es + fs == es;
    } else {
      assert (es + fs)[..|es + fs| - 1] == es + fs[..|fs| - 1];
      RunConcat(s, es, fs[..|fs| - 1]);
    }
  }

  // ---- The frame layer depends on the consumed pairs alone ----

  function Pairs(es: seq<Event>): seq<Pair> {
    if es == [] then []
    else
      var front := Pairs(es[..|es| - 1]);
      match es[|es| - 1]
      case Consume(p, _) => front + [p]
      case _ => front
  }

  /** Pairs were consumed, at these times, and nothing else was done. */
  function Consumed(ps: seq<Pair>, ts: seq<u32>): (es: seq<Event>)
    requires |ps| == |ts|
    ensures |es| == |ps| && forall i :: 0 <= i < |es| ==> es[i] == Consume(ps[i], ts[i])
  {
    if ps == [] then [] else [Consume(ps[0], ts[0])] + Consumed(ps[1..], ts[1..])
  }

  lemma {:induction false} PairsSnoc(es: seq<Event>, e: Event)
    ensures Pairs(es + [e]) == if e.Consume? then Pairs(es) + [e.p] else Pairs(es)
  {
    assert (es + [e])[..|es|] == es;
  }

  lemma {:induction false} FramerOfRun(s: Panel, es: seq<Event>)
    requires Sized(s)
    ensures Run(s, es).framer == FramesAfter(s.framer, Pairs(es))
  {
    if es != [] {
      var front := es[..|es| - 1];
      FramerOfRun(s, front);
      match es[|es| - 1]
      case Consume(p, _) =>
        FramesConcat(s.framer, Pairs(front), [p]);
        assert FramesAfter(FramesAfter(s.framer, Pairs(front)), [p]) == Next(FramesAfter(s.framer, Pairs(front)), p);
      case _ =>
    }
  }

  /** Self-synchronisation of whole decoders: from every reachable state the frame-end pair leaves an
      empty frame buffer in state UNKNOWN, and two decoders with different histories then agree on
      frame state and buffer after the same later pairs, however resets and clock looks fall. */
  lemma {:induction false} Synchronises(before: seq<Event>, before': seq<Event>, later: seq<Event>, later': seq<Event>,
                                      t: u32, t': u32)
    requires Pairs(later) == Pairs(later')
    ensures Run(Init(), before + [Consume(EOF, t)]).framer == SYNCED
    ensures Run(Init(), before + [Consume(EOF, t)] + later).framer
         == Run(Init(), before' + [Consume(EOF, t')] + later').framer
  {
    var a, b := Run(Init(), before), Run(Init(), before');
    RunConcat(Init(), before, [Consume(EOF, t)]);
    RunConcat(Init(), before', [Consume(EOF, t')]);
    assert [Consume(EOF, t)][..0] == [] && [Consume(EOF, t')][..0] == [];
    assert Run(a, [Consume(EOF, t)]) == Step(Run(a, []), Consume(EOF, t));
    assert Run(b, [Consume(EOF, t')]) == Step(Run(b, []), Consume(EOF, t'));
    RunConcat(Init(), before + [Consume(EOF, t)], later);
    RunConcat(Init(), before' + [Consume(EOF, t')], later');
    FramerOfRun(Run(a, [Consume(EOF, t)]), later);
    FramerOfRun(Run(b, [Consume(EOF, t')]), later');
  }

  // ---- The displayed text ----

  /** The body bytes since the working buffer was last closed, and the text they put on display. */
  datatype Feed = Feed(framer: Framer, bytes: seq<byte>, closed: bool, shown: string)

  function Fed(f: Feed, e: Event): Feed {
    match e
    case Tick(_) => f
    case ResetSeen => f.(closed := true, shown := SystemReset())
    case Consume(p, _) =>
      var g := f.(framer := Next(f.framer, p));
      match Asked(f.framer, p)
      case BodyByte(b) => g.(bytes := if f.closed then [b] else f.bytes + [b], closed := false)
      case EndMessage => g.(closed := true, shown := Text(Codes(f.bytes)))
      case _ => g
  }

  function FeedOf(es: seq<Event>): Feed {
    if es == [] then Feed(START, [], true, Blank()) else Fed(FeedOf(es[..|es| - 1]), es[|es| - 1])
  }

  /** The working buffer holds the text of the bytes fed to it; while it is open, the whole message
      is a function of them. */
  ghost predicate Tracks(s: Panel, f: Feed) {
    && s.framer == f.framer && s.main == f.shown && s.msg.needReset == f.closed
    && s.msg.work == Text(Codes(f.bytes)) && s.msg.idx == Fitting(|Codes(f.bytes)|) && s.msg.blink == Blinks(f.bytes)
    && (f.bytes == [] ==> f.closed)
    && (!f.closed ==> s.msg == Pure(f.bytes))
  }

  lemma TracksStep(s: Panel, f: Feed, e: Event)
    requires Sized(s) && Tracks(s, f)
    ensures Tracks(Step(s, e), Fed(f, e))
  {
    hide Codes, Text, Blinks, Garbled;
    match e
    case Tick(_) =>
    case ResetSeen =>
    case Consume(p, _) =>
      match Asked(s.framer, p) {
        case BodyByte(b) =>
          if f.closed {
            AssembledIsPure(s.msg, [b]);
            assert [b][..0] == [];
            assert Assembled(s.msg, []) == s.msg;
          } else {
            AddBytePure(f.bytes, b);
          }
        case _ =>
      }
  }

  /** In every run the displayed text is the text of the body bytes that were fed to the working
      buffer since it was last closed, by a frame end or a reset, or the reset notice. A message
      frame without a body byte therefore shows the previous text again, and a message frame after
      an overflowed one shows the bytes of both. */
  lemma {:induction false} DisplayedText(es: seq<Event>)
    ensures Tracks(Run(Init(), es), FeedOf(es))
  {
    if es == [] {
      EmptyIsBlank();
    } else {
      DisplayedText(es[..|es| - 1]);
      TracksStep(Run(Init(), es[..|es| - 1]), FeedOf(es[..|es| - 1]), es[|es| - 1]);
    }
  }

  function Inputs(ps: seq<Pair>): (bs: seq<byte>)
    ensures |bs| == |ps| && forall i :: 0 <= i < |ps| ==> bs[i] == ps[i].inp
  {
    if ps == [] then [] else Inputs(ps[..|ps| - 1]) + [ps[|ps| - 1].inp]
  }

  /** No message frame is cut short by a reset or by a full buffer. */
  ghost predicate Undisturbed(es: seq<Event>) {
    es == [] ||
    (var front := es[..|es| - 1]; var f := FeedOf(front).framer; var e := es[|es| - 1];
     && Undisturbed(front)
     && (f.state == MESSAGE ==> e != ResetSeen && (e.Consume? ==> !Overflows(f, e.p))))
  }

  /** The body of the message frame in progress. */
  function Body(f: Framer): seq<byte> {
    if f.state == MESSAGE && |f.pairs| >= 2 then Inputs(f.pairs[2..]) else []
  }

  lemma {:induction false} FeedFramed(es: seq<Event>)
    ensures Framed(FeedOf(es).framer)
  {
    DisplayedText(es);
    ReachableInv(es);
  }

  ghost predicate OwnBody(f: Feed) {
    (f.closed <==> Body(f.framer) == []) && (!f.closed ==> f.bytes == Body(f.framer))
  }

  lemma BodyGrows(f: Framer, p: Pair)
    requires Framed(f) && f.state == MESSAGE && p != EOF && !Overflows(f, p)
    ensures Body(Next(f, p)) == Body(f) + [p.inp]
  {
    assert (f.pairs + [p])[2..] == f.pairs[2..] + [p];
    assert (f.pairs[2..] + [p])[..|f.pairs| - 2] == f.pairs[2..];
  }

  lemma NoBody(f: Framer, p: Pair)
    requires Framed(f) && (f.state != MESSAGE || p == EOF)
    ensures Body(Next(f, p)) == []
  {
    var n := Next(f, p);
    assert n.state == MESSAGE ==> |n.pairs| == 2 && n.pairs[2..] == [];
  }

  lemma OwnBodyStep(f: Feed, e: Event)
    requires Framed(f.framer) && OwnBody(f)
    requires f.framer.state == MESSAGE ==> e != ResetSeen && (e.Consume? ==> !Overflows(f.framer, e.p))
    ensures OwnBody(Fed(f, e))
  {
    hide Next, Body, Text, Codes;
    match e
    case Tick(_) =>
    case ResetSeen => assert Body(f.framer) == [] by { BodyOutside(f.framer); }
    case Consume(p, _) =>
      if f.framer.state == MESSAGE && p != EOF {
        BodyGrows(f.framer, p);
      } else {
        NoBody(f.framer, p);
        BodyOutside(f.framer);
      }
  }

  lemma BodyOutside(f: Framer)
    ensures f.state != MESSAGE ==> Body(f) == []
  {
  }

  lemma {:induction false} UndisturbedBody(es: seq<Event>)
    requires Undisturbed(es)
    ensures OwnBody(FeedOf(es))
  {
    if es != [] {
      UndisturbedBody(es[..|es| - 1]);
      FeedFramed(es[..|es| - 1]);
      OwnBodyStep(FeedOf(es[..|es| - 1]), es[|es| - 1]);
    }
  }

  /** In any run whose message frames are neither cut by a reset nor overflow, the text published at
      the end of a message frame with at least one body byte is a function of that frame's body
      alone, and so are the blink mask and whether the message counts as garbled. */
  lemma {:induction false} PublishedTextIsPure(es: seq<Event>, now: u32)
    requires Undisturbed(es)
    requires Run(Init(), es).framer.state == MESSAGE && |Run(Init(), es).framer.pairs| > 2
    ensures var s := Run(Init(), es); var body := Inputs(s.framer.pairs[2..]);
            && Step(s, Consume(EOF, now)).main == Text(Codes(body))
            && Step(s, Consume(EOF, now)).blinkMask == Blinks(body)
            && s.msg.corrupt == Garbled(Codes(body)) && s.msg == Pure(body)
            && Step(s, Consume(EOF, now)).framer == SYNCED
  {
    hide Text, Codes, Blinks, Garbled, Inputs, Undisturbed, FeedOf;
    DisplayedText(es);
    UndisturbedBody(es);
  }
}
