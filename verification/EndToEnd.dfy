/** From clock edges to the text on display. */
module EndToEnd {
  import opened Wire
  import opened Frames
  import opened Messages
  import opened Panel
  import opened PanelRuns
  import opened SnifferRing
  import opened MainLoop
  import opened Decoder

  // ---- The feed as a function of the pairs ----

  function FeedPairs(f: Feed, ps: seq<Pair>): Feed {
    if ps == [] then f else Fed(FeedPairs(f, ps[..|ps| - 1]), Consume(ps[|ps| - 1], 0))
  }

  lemma {:induction false} FeedPairsConcat(f: Feed, ps: seq<Pair>, qs: seq<Pair>)
    ensures FeedPairs(f, ps + qs) == FeedPairs(FeedPairs(f, ps), qs)
  {
    if qs == [] {
      assert ps + qs == ps;
    } else {
      assert (ps + qs)[..|ps + qs| - 1] == ps + qs[..|qs| - 1];
      FeedPairsConcat(f, ps, qs[..|qs| - 1]);
    }
  }

  const FEED0 := Feed(START, [], true, Blank())

  lemma FedIgnoresClock(f: Feed, e: Event)
    requires e != ResetSeen
    ensures Fed(f, e) == if e.Consume? then Fed(f, Consume(e.p, 0)) else f
  {
  }

  lemma {:induction false} FeedIgnoresClock(es: seq<Event>)
    requires ResetSeen !in es
    ensures FeedOf(es) == FeedPairs(FEED0, Pairs(es))
  {
    if es != [] {
      var front, e := es[..|es| - 1], es[|es| - 1];
      FeedIgnoresClock(front);
      FedIgnoresClock(FeedOf(front), e);
      hide Fed;
      if e.Consume? {
        assert (Pairs(front) + [e.p])[..|Pairs(front)|] == Pairs(front);
      }
    }
  }

  // ---- One message frame ----

  ghost predicate MessageFrame(h0: Pair, h1: Pair, body: seq<Pair>) {
    && h0.inp == 0x00 && h0 != EOF && h0 != Pair(0x00, 0x77) && h1.inp % 0x80 == 0x7F
    && body != [] && EOF !in body && |body| <= 97
  }

  lemma {:induction false} FeedBody(f: Feed, h0: Pair, h1: Pair, body: seq<Pair>)
    requires f.framer == Framer(MESSAGE, [h0, h1]) && f.closed && EOF !in body && |body| <= 97
    ensures var g := FeedPairs(f, body);
            g.framer == Framer(MESSAGE, [h0, h1] + body) && g.closed == (body == [])
            && (body != [] ==> g.bytes == Inputs(body))
  {
    if body != [] {
      var front, p := body[..|body| - 1], body[|body| - 1];
      FeedBody(f, h0, h1, front);
      assert [h0, h1] + front + [p] == [h0, h1] + body;
      assert front == [] ==> Inputs(front) == [];
    }
  }

  /** A whole message frame shows the text of its body. */
  lemma {:induction false} FrameShows(f: Feed, h0: Pair, h1: Pair, body: seq<Pair>)
    requires f.framer == SYNCED && f.closed && MessageFrame(h0, h1, body)
    ensures var g := FeedPairs(f, [h0, h1] + body + [EOF]);
            g.shown == Text(Codes(Inputs(body))) && g.framer == SYNCED && g.closed
  {
    hide Text, Codes, Inputs;
    var f0 := FeedPairs(f, [h0]);
    assert [h0][..0] == [] && f0 == Fed(FeedPairs(f, []), Consume(h0, 0));
    assert f0.framer == Framer(UNKNOWN, [h0]) && f0.closed;
    assert [h0, h1][..1] == [h0];
    var f1 := FeedPairs(f, [h0, h1]);
    assert f1 == Fed(f0, Consume(h1, 0));
    assert f1.framer == Framer(MESSAGE, [h0, h1]) && f1.closed;
    FeedBody(f1, h0, h1, body);
    FeedPairsConcat(f, [h0, h1], body);
    FeedPairsConcat(f, [h0, h1] + body, [EOF]);
    var g := FeedPairs(f1, body);
    assert FeedPairs(g, [EOF]) == Fed(FeedPairs(g, [EOF][..0]), Consume(EOF, 0));
  }

  // ---- The whole pipeline ----

  /** What the interrupts of a powered-on decoder determine: with nothing lost the consumed pairs are a
      prefix of what was on the wire, the ring holds at most 255 pairs, and every attempt to store a
      pair is accounted for. */
  lemma ConsumedFromWire(d: DmmContext)
    requires d.Valid()
    ensures d.ring.consumed <= d.ring.stored && 0 <= d.ring.Level() <= 255
    ensures d.ring.attempts == |d.ring.consumed| + d.ring.Level() + d.ring.overruns
    ensures d.ring.overruns == 0 ==> d.ring.consumed <= Emitted(POWER_ON, d.irqs)
    ensures Pairs(d.log) == d.ring.consumed && PanelInv(d.panel.State())
  {
    ReachableInv(d.log);
  }

  /** Bytes on the wire to text on display. A decoder has seen, since power-on, clock edges carrying
      some pairs and then a message frame and no reset; it lost none to a full ring and has consumed
      them all, in however many calls of the main loop and with whatever interleaving. If the pairs
      before the frame left it between frames, it shows exactly the text of the frame's body. */
  lemma {:induction false} WireToDisplay(d: DmmContext, bursts: seq<seq<Edge>>, before: seq<Pair>,
                                       h0: Pair, h1: Pair, body: seq<Pair>)
    requires d.Valid() && d.ring.overruns == 0 && d.ring.consumed == d.ring.stored
    requires d.irqs == Clocks(Edges(bursts)) && CarryAll(bursts, before + ([h0, h1] + body + [EOF]))
    requires FeedPairs(FEED0, before).framer == SYNCED && FeedPairs(FEED0, before).closed
    requires MessageFrame(h0, h1, body)
    ensures d.panel.State().main == Text(Codes(Inputs(body)))
  {
    var ps := before + ([h0, h1] + body + [EOF]);
    SentBytes(POWER_ON, bursts, ps);
    assert d.ring.consumed == ps;
    UnsentIsUnseen(d.log, d.irqs[..d.acked]);
    DisplayedText(d.log);
    FeedIgnoresClock(d.log);
    FeedPairsConcat(FEED0, before, [h0, h1] + body + [EOF]);
    FrameShows(FeedPairs(FEED0, before), h0, h1, body);
  }
}
