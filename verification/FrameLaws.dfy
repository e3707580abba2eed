/** What each kind of frame does, from its bytes: frames that arrive whole, in any state between two
    frames and at any times, and the state they leave. */
module FrameLaws {
  import opened Basics
  import opened Wire
  import opened Frames
  import opened Messages
  import opened Panel
  import opened PanelRuns
  import Recognisers
  import Reading = ReadingRecogniser
  import Menu = MenuRecogniser

  /** The state after pairs consumed at these times. */
  ghost function Sent(s: Panel, ps: seq<Pair>, ts: seq<u32>): (r: Panel)
    requires Sized(s) && |ps| == |ts|
    ensures Sized(r)
  {
    Run(s, Consumed(ps, ts))
  }

  lemma SentOne(s: Panel, p: Pair, t: u32)
    requires Sized(s)
    ensures Sent(s, [p], [t]) == Step(s, Consume(p, t))
  {
    hide Step;
    assert Consumed([p], [t]) == [Consume(p, t)];
    assert [Consume(p, t)][..0] == [];
    assert Run(s, []) == s;
  }

  lemma {:induction false} ConsumedConcat(ps: seq<Pair>, ts: seq<u32>, qs: seq<Pair>, us: seq<u32>)
    requires |ps| == |ts| && |qs| == |us|
    ensures Consumed(ps + qs, ts + us) == Consumed(ps, ts) + Consumed(qs, us)
  {
  }

  lemma {:induction false} SentConcat(s: Panel, ps: seq<Pair>, ts: seq<u32>, qs: seq<Pair>, us: seq<u32>)
    requires Sized(s) && |ps| == |ts| && |qs| == |us|
    ensures Sent(s, ps + qs, ts + us) == Sent(Sent(s, ps, ts), qs, us)
  {
    hide Consumed;
    ConsumedConcat(ps, ts, qs, us);
    RunConcat(s, Consumed(ps, ts), Consumed(qs, us));
  }

  lemma SentFirst(s: Panel, qs: seq<Pair>, ts: seq<u32>)
    requires Sized(s) && |qs| == |ts| && qs != []
    ensures Sent(s, qs, ts) == Sent(Step(s, Consume(qs[0], ts[0])), qs[1..], ts[1..])
  {
    hide Sent, Step;
    assert qs == [qs[0]] + qs[1..] && ts == [ts[0]] + ts[1..];
    SentConcat(s, [qs[0]], [ts[0]], qs[1..], ts[1..]);
    SentOne(s, qs[0], ts[0]);
  }

  lemma SentLast(s: Panel, front: seq<Pair>, p: Pair, ts: seq<u32>)
    requires Sized(s) && |ts| == |front| + 1
    ensures Sent(s, front + [p], ts) == Step(Sent(s, front, ts[..|front|]), Consume(p, ts[|front|]))
  {
    hide Sent, Step;
    var n := |front|;
    assert ts == ts[..n] + [ts[n]];
    SentConcat(s, front, ts[..n], [p], [ts[n]]);
    SentOne(Sent(s, front, ts[..n]), p, ts[n]);
  }

  lemma Grouped(ps: seq<Pair>, qs: seq<Pair>)
    requires qs != []
    ensures ps + [qs[0]] + qs[1..] == ps + qs
  {
  }

  lemma GatheredOne(s: Panel, q: Pair, t: u32)
    requires Sized(s) && q != EOF && s.framer.state in {ANNUNCIATORS, CONTROL, BUTTON, INIT}
    requires |s.framer.pairs| < 99 && (s.framer.state == BUTTON ==> q.inp != 0x66)
    ensures Step(s, Consume(q, t)) == s.(framer := Framer(s.framer.state, s.framer.pairs + [q]))
  {
  }

  /** Inside a frame that is neither a message nor of unknown kind, pairs are only gathered. */
  lemma {:induction false} Gathered(s: Panel, qs: seq<Pair>, ts: seq<u32>)
    requires Sized(s) && |qs| == |ts| && EOF !in qs && s.framer.state in {ANNUNCIATORS, CONTROL, BUTTON, INIT}
    requires |s.framer.pairs| + |qs| < 100 && (s.framer.state == BUTTON ==> forall q <- qs :: q.inp != 0x66)
    ensures Sent(s, qs, ts) == s.(framer := Framer(s.framer.state, s.framer.pairs + qs))
    decreases |qs|
  {
    if qs == [] {
      assert Consumed(qs, ts) == [] && s.framer.pairs + [] == s.framer.pairs;
    } else {
      var r := s.(framer := Framer(s.framer.state, s.framer.pairs + [qs[0]]));
      hide Step, Run, Sent, Consumed;
      GatheredOne(s, qs[0], ts[0]);
      Gathered(r, qs[1..], ts[1..]);
      SentFirst(s, qs, ts);
      Grouped(s.framer.pairs, qs);
    }
  }

  lemma OpenedOne(s: Panel, p: Pair, t: u32)
    requires Sized(s) && s.framer == SYNCED && p != EOF && p != Pair(0x00, 0x77)
    ensures Step(s, Consume(p, t)) == s.(framer := Framer(UNKNOWN, [p]))
  {
  }

  lemma OpenedTwo(s: Panel, p: Pair, q: Pair, u: u32)
    requires Sized(s) && s.framer == Framer(UNKNOWN, [p]) && p != EOF && q != EOF
    ensures Step(s, Consume(q, u)) ==
            s.(framer := Framer(if p.inp == 0x00 && q.inp in {0x7f, 0xff} then MESSAGE
                                else if p.inp in {0x7f, 0xff} && q.inp == 0x00 then ANNUNCIATORS
                                else CONTROL, [p, q]))
  {
    assert [p] + [q] == [p, q];
  }

  /** The first two pairs of a frame decide its kind. */
  lemma Opened(s: Panel, p: Pair, q: Pair, t: u32, u: u32)
    requires Sized(s) && s.framer == SYNCED && p != Pair(0x00, 0xbb) && q != Pair(0x00, 0xbb) && p != Pair(0x00, 0x77)
    ensures Sent(s, [p, q], [t, u]) ==
            s.(framer := Framer(if p.inp == 0x00 && q.inp in {0x7f, 0xff} then MESSAGE
                                else if p.inp in {0x7f, 0xff} && q.inp == 0x00 then ANNUNCIATORS
                                else CONTROL, [p, q]))
  {
    hide Sent, Step;
    assert [p, q] == [p] + [q] && [t, u] == [t] + [u];
    OpenedOne(s, p, t);
    var r := s.(framer := Framer(UNKNOWN, [p]));
    OpenedTwo(r, p, q, u);
    SentOne(s, p, t);
    SentOne(r, q, u);
    SentConcat(s, [p], [t], [q], [u]);
  }

  /** A whole frame: its first two pairs, what it gathers and what its last pair does. */
  lemma WholeFrame(s: Panel, head: seq<Pair>, more: seq<Pair>, last: Pair, ts: seq<u32>, r: Panel)
    requires Sized(s) && |ts| == |head| + |more| + 1
    requires Sent(s, head, ts[..|head|]) == r && EOF !in more && r.framer.state in {ANNUNCIATORS, CONTROL, BUTTON}
    requires |r.framer.pairs| + |more| < 100 && (r.framer.state == BUTTON ==> forall q <- more :: q.inp != 0x66)
    ensures Sent(s, head + more + [last], ts) ==
            Step(r.(framer := Framer(r.framer.state, r.framer.pairs + more)), Consume(last, ts[|ts| - 1]))
  {
    hide Sent, Step;
    var n, m := |head|, |head| + |more|;
    Gathered(r, more, ts[n..m]);
    assert ts == ts[..n] + ts[n..m] + [ts[m]];
    SentConcat(s, head, ts[..n], more, ts[n..m]);
    SentConcat(s, head + more, ts[..n] + ts[n..m], [last], [ts[m]]);
    SentOne(r.(framer := Framer(r.framer.state, r.framer.pairs + more)), last, ts[m]);
  }

  lemma NotEof(ps: seq<Pair>, n: nat)
    requires Pair(0x00, 0xbb) !in ps && n == |ps|
    ensures forall i :: 0 <= i < n ==> ps[i] != EOF
  {
  }

  // ---- Annunciators ----

  lemma WordIs(ann: bv16, hi: byte, lo: byte)
    ensures var w := WithShift(ann, hi, lo);
            && w & 0x00ff == lo as bv16
            && w & 0xf700 == ((hi as bv16) << 8) & 0xf700
            && w & 0x0800 == ann & 0x0800
  {
    assert lo as bv16 & 0xff00 == 0;
    Merged(hi as bv16, lo as bv16, ann);
  }

  lemma Merged(hi: bv16, lo: bv16, ann: bv16)
    requires lo & 0xff00 == 0
    ensures var w := (((hi << 8) | lo) & 0xF7FF) | (ann & SHIFT_BIT);
            w & 0x00ff == lo && w & 0xf700 == (hi << 8) & 0xf700 && w & 0x0800 == ann & 0x0800
  {
  }

  lemma AnnunciatorEnd(s: Panel, t: u32)
    requires Sized(s) && s.framer.state == ANNUNCIATORS && 4 <= |s.framer.pairs| < 100
    ensures var w := WithShift(s.ann, s.framer.pairs[3].inp, s.framer.pairs[2].inp);
            Step(s, Consume(EOF, t)) == s.(framer := SYNCED, ann := w, news := Counted(s.news, w != s.ann))
  {
    hide WithShift, Counted;
  }

  lemma AnnunciatorsSent(s: Panel, h: Pair, z: Pair, lo: Pair, hi: Pair, rest: seq<Pair>, ts: seq<u32>)
    requires Sized(s) && s.framer == SYNCED && h.inp in {0x7f, 0xff} && z.inp == 0x00
    requires EOF !in rest && EOF !in [z, lo, hi] && |rest| <= 95 && |ts| == |rest| + 5
    ensures var w := WithShift(s.ann, hi.inp, lo.inp);
            Sent(s, [h, z] + ([lo, hi] + rest) + [EOF], ts) == s.(ann := w, news := Counted(s.news, w != s.ann))
  {
    var more := [lo, hi] + rest;
    NotEof([z, lo, hi], 3);
    assert EOF !in more && ts[..2] == [ts[0], ts[1]];
    Opened(s, h, z, ts[0], ts[1]);
    var s2 := s.(framer := Framer(ANNUNCIATORS, [h, z] + more));
    assert s2.framer.pairs[2] == lo && s2.framer.pairs[3] == hi;
    hide Sent, Step, WithShift, Counted;
    WholeFrame(s, [h, z], more, EOF, ts, s.(framer := Framer(ANNUNCIATORS, [h, z])));
    hide Sized, Consumed;
    AnnunciatorEnd(s2, ts[|ts| - 1]);
  }

  /** A frame headed by 7F or FF and then 00, with at least two more inputs lo and hi, sets the low byte of
      the annunciators to lo and the high byte to hi, all but bit 11, which stays; it counts as news if
      that is a change, and does nothing else. */
  lemma AnnunciatorFrame(s: Panel, h: Pair, z: Pair, lo: Pair, hi: Pair, rest: seq<Pair>, ts: seq<u32>)
    requires Sized(s) && s.framer == SYNCED && h.inp in {0x7f, 0xff} && z.inp == 0x00
    requires Pair(0x00, 0xbb) !in rest && Pair(0x00, 0xbb) !in [z, lo, hi] && |rest| <= 95 && |ts| == |rest| + 5
    ensures var r := Sent(s, [h, z] + ([lo, hi] + rest) + [Pair(0x00, 0xbb)], ts);
            && r.ann & 0x00ff == lo.inp as bv16
            && r.ann & 0xf700 == ((hi.inp as bv16) << 8) & 0xf700
            && r.ann & 0x0800 == s.ann & 0x0800
            && r == s.(ann := r.ann, news := if r.ann == s.ann then s.news else (s.news + 1) % 0x1_0000_0000)
  {
    AnnunciatorsSent(s, h, z, lo, hi, rest, ts);
    WordIs(s.ann, hi.inp, lo.inp);
    hide Sent, WithShift, Consumed, Sized;
  }

  /** Without an input after its head an annunciator frame does nothing. */
  lemma EmptyAnnunciatorFrame(s: Panel, h: Pair, z: Pair, ts: seq<u32>)
    requires Sized(s) && s.framer == SYNCED && h.inp in {0x7f, 0xff} && z.inp == 0x00
    requires z != Pair(0x00, 0xbb) && |ts| == 3
    ensures Sent(s, [h, z] + [] + [Pair(0x00, 0xbb)], ts) == s
  {
    assert ts[..2] == [ts[0], ts[1]] && [h, z] + [] == [h, z];
    Opened(s, h, z, ts[0], ts[1]);
    hide Sent, Step, WithShift;
    WholeFrame(s, [h, z], [], EOF, ts, s.(framer := Framer(ANNUNCIATORS, [h, z])));
    hide Sized, Consumed;
    ShortEnds(s.(framer := Framer(ANNUNCIATORS, [h, z])), ts[2]);
    NotCounted(s.news);
  }

  lemma ShortAnnunciatorsSent(s: Panel, h: Pair, z: Pair, lo: Pair, ts: seq<u32>)
    requires Sized(s) && s.framer == SYNCED && h.inp in {0x7f, 0xff} && z.inp == 0x00
    requires EOF !in [z, lo] && |ts| == 4
    ensures var w := WithShift(s.ann, 0, lo.inp);
            Sent(s, [h, z] + [lo] + [EOF], ts) == s.(ann := w, news := Counted(s.news, w != s.ann))
  {
    NotEof([z, lo], 2);
    assert ts[..2] == [ts[0], ts[1]];
    Opened(s, h, z, ts[0], ts[1]);
    hide Sent, Step, WithShift, Counted;
    WholeFrame(s, [h, z], [lo], EOF, ts, s.(framer := Framer(ANNUNCIATORS, [h, z])));
    hide Sized, Consumed;
    ShortEnds(s.(framer := Framer(ANNUNCIATORS, [h, z] + [lo])), ts[3]);
  }

  /** The frame end counts towards the four pairs that it needs: with only lo before it the high byte is that
      of the frame end, 00. */
  lemma ShortAnnunciatorFrame(s: Panel, h: Pair, z: Pair, lo: Pair, ts: seq<u32>)
    requires Sized(s) && s.framer == SYNCED && h.inp in {0x7f, 0xff} && z.inp == 0x00
    requires Pair(0x00, 0xbb) !in [z, lo] && |ts| == 4
    ensures var r := Sent(s, [h, z] + [lo] + [Pair(0x00, 0xbb)], ts);
            && r.ann & 0x00ff == lo.inp as bv16 && r.ann & 0xf700 == 0 && r.ann & 0x0800 == s.ann & 0x0800
            && r == s.(ann := r.ann, news := if r.ann == s.ann then s.news else (s.news + 1) % 0x1_0000_0000)
  {
    ShortAnnunciatorsSent(s, h, z, lo, ts);
    WordIs(s.ann, 0, lo.inp);
    ZeroHigh();
    hide Sent, WithShift, Consumed, Sized;
  }

  lemma ZeroHigh()
    ensures ((0 as bv16) << 8) & 0xf700 == 0
  {
  }

  lemma ShortEnds(s: Panel, t: u32)
    requires Sized(s) && s.framer.state == ANNUNCIATORS && 2 <= |s.framer.pairs| <= 3
    ensures var w := if |s.framer.pairs| == 2 then s.ann else WithShift(s.ann, 0, s.framer.pairs[2].inp);
            Step(s, Consume(EOF, t)) == s.(framer := SYNCED, ann := w, news := Counted(s.news, w != s.ann))
  {
    hide WithShift, Counted;
    assert Counted(s.news, false) == s.news by { NotCounted(s.news); }
  }

  lemma NotCounted(n: u32)
    ensures Counted(n, false) == n
  {
  }

  // ---- Control frames ----

  lemma ControlEnd(s: Panel, t: u32)
    requires Sized(s) && s.framer.state == CONTROL && 2 <= |s.framer.pairs| < 100
    ensures var (a, b) := (s.framer.pairs[0].inp, s.framer.pairs[1].inp);
            Step(s, Consume(EOF, t)) ==
            s.(framer := SYNCED, blinkMask := BlinkCode(s.blinkMask, a, b),
               news := Counted(s.news, BlinkTarget(a, b) != 0))
  {
    hide BlinkCode, BlinkTarget, Counted;
  }

  lemma TargetIs(a: byte, b: byte)
    ensures var codes := [0x00, 0x71, 0x62, 0x13, 0x54, 0x25, 0x36, 0x47, 0x38, 0x49, 0x5a, 0x2b];
            && (forall k :: 0 <= k < 12 && a == codes[k] && b == 0x49 ==> BlinkTarget(a, b) == 1 << k)
            && (b != 0x49 || a !in codes <==> BlinkTarget(a, b) == 0)
  {
  }

  lemma ControlSent(s: Panel, a: Pair, b: Pair, rest: seq<Pair>, ts: seq<u32>)
    requires Sized(s) && s.framer == SYNCED && EOF !in rest && EOF !in [a, b] && a != Pair(0x00, 0x77)
    requires !(a.inp == 0x00 && b.inp in {0x7f, 0xff}) && !(a.inp in {0x7f, 0xff} && b.inp == 0x00)
    requires |rest| <= 97 && |ts| == |rest| + 3
    ensures Sent(s, [a, b] + rest + [EOF], ts) ==
            s.(blinkMask := BlinkCode(s.blinkMask, a.inp, b.inp),
               news := Counted(s.news, BlinkTarget(a.inp, b.inp) != 0))
  {
    NotEof([a, b], 2);
    assert ts[..2] == [ts[0], ts[1]];
    Opened(s, a, b, ts[0], ts[1]);
    var s2 := s.(framer := Framer(CONTROL, [a, b] + rest));
    assert s2.framer.pairs[0] == a && s2.framer.pairs[1] == b;
    hide Sent, Step, BlinkTarget, BlinkCode, Counted;
    WholeFrame(s, [a, b], rest, EOF, ts, s.(framer := Framer(CONTROL, [a, b])));
    hide Sized, Consumed;
    ControlEnd(s2, ts[|ts| - 1]);
  }

  /** Any other frame of two or more pairs makes character k the only one that blinks, if its first two
      inputs are the k-th of the twelve codes and 49, and counts as news then; otherwise it does
      nothing. */
  lemma ControlFrame(s: Panel, a: Pair, b: Pair, rest: seq<Pair>, ts: seq<u32>)
    requires Sized(s) && s.framer == SYNCED && Pair(0x00, 0xbb) !in rest
    requires Pair(0x00, 0xbb) !in [a, b] && a != Pair(0x00, 0x77)
    requires !(a.inp == 0x00 && b.inp in {0x7f, 0xff}) && !(a.inp in {0x7f, 0xff} && b.inp == 0x00)
    requires |rest| <= 97 && |ts| == |rest| + 3
    ensures var r := Sent(s, [a, b] + rest + [Pair(0x00, 0xbb)], ts);
            var codes := [0x00, 0x71, 0x62, 0x13, 0x54, 0x25, 0x36, 0x47, 0x38, 0x49, 0x5a, 0x2b];
            && r == s.(blinkMask := r.blinkMask, news := r.news)
            && (forall k :: 0 <= k < 12 && a.inp == codes[k] && b.inp == 0x49 ==>
                  r.blinkMask == 1 << k && r.news == (s.news + 1) % 0x1_0000_0000)
            && (b.inp != 0x49 || a.inp !in codes ==> r.blinkMask == s.blinkMask && r.news == s.news)
  {
    ControlSent(s, a, b, rest, ts);
    TargetIs(a.inp, b.inp);
    hide Sent, BlinkTarget, Consumed, Sized;
  }

  // ---- Buttons ----

  lemma ButtonEnd(s: Panel, last: Pair, t: u32)
    requires Sized(s) && s.framer.state == BUTTON && last.inp == 0x66 && |s.framer.pairs| < 100
    ensures var b := s.framer.pairs + [last];
            Step(s, Consume(last, t)) ==
            (if |b| < 3 then s
             else if ButtonCode(b) == SHIFT_CODE then ShiftPressed(s, t) else OtherPressed(s)).(framer := SYNCED)
  {
    hide ButtonCode, ShiftPressed, OtherPressed;
  }

  lemma CodeIs(b: seq<Pair>)
    requires |b| >= 3
    ensures ButtonCode(b) == SHIFT_CODE <==> b[0].out == 0x77 && b[1].out == 0x9d && b[2].out == 0xcf
  {
  }

  lemma ShiftCleared(ann: bv16)
    ensures ClearShift(ann) & 0x0800 == 0 && ClearShift(ann) & 0xf7ff == ann & 0xf7ff
  {
  }

  lemma ButtonSent(s: Panel, mid: seq<Pair>, last: Pair, ts: seq<u32>)
    requires Sized(s) && s.framer == SYNCED && last.inp == 0x66 && |mid| <= 98 && |ts| == |mid| + 2
    requires EOF !in mid && forall q <- mid :: q.inp != 0x66
    ensures var b := [Pair(0x00, 0x77)] + mid + [last];
            Sent(s, b, ts) ==
            if |b| < 3 then s
            else if ButtonCode(b) == SHIFT_CODE then ShiftPressed(s, ts[|ts| - 1]) else OtherPressed(s)
  {
    hide Sent, Step, ButtonCode, Counted, ClearShift, ShiftPressed, OtherPressed;
    var first, now := Pair(0x00, 0x77), ts[|ts| - 1];
    var s1 := s.(framer := Framer(BUTTON, [first]));
    KeyOpened(s, ts[0]);
    assert ts[..1] == [ts[0]];
    WholeFrame(s, [first], mid, last, ts, s1);
    hide Sized, Consumed;
    var s2 := s.(framer := Framer(BUTTON, [first] + mid));
    ButtonEnd(s2, last, now);
    PressesIgnoreFrame(s, s2.framer, now);
  }

  lemma KeyOpened(s: Panel, t: u32)
    requires Sized(s) && s.framer == SYNCED
    ensures Sent(s, [Pair(0x00, 0x77)], [t]) == s.(framer := Framer(BUTTON, [Pair(0x00, 0x77)]))
  {
    SentOne(s, Pair(0x00, 0x77), t);
    hide Sent;
  }

  lemma PressesIgnoreFrame(s: Panel, f: Framer, t: u32)
    requires s.framer == SYNCED
    ensures s.(framer := f).(framer := SYNCED) == s
    ensures ShiftPressed(s.(framer := f), t).(framer := SYNCED) == ShiftPressed(s, t)
    ensures OtherPressed(s.(framer := f)).(framer := SYNCED) == OtherPressed(s)
  {
  }

  /** A key: the pair 00 77 opens its frame and an input 66 closes it. Outputs 77 9D CF are a press of SHIFT,
      which opens or extends the window; any other code of three bytes closes the window and clears bit
      11, and a shorter frame does nothing. */
  lemma ButtonFrame(s: Panel, mid: seq<Pair>, last: Pair, ts: seq<u32>)
    requires Sized(s) && s.framer == SYNCED && last.inp == 0x66 && |mid| <= 98 && |ts| == |mid| + 2
    requires Pair(0x00, 0xbb) !in mid && forall q <- mid :: q.inp != 0x66
    ensures var b, now := [Pair(0x00, 0x77)] + mid + [last], ts[|ts| - 1];
            var r := Sent(s, b, ts);
            && (mid == [] ==> r == s)
            && (mid != [] && b[1].out == 0x9d && b[2].out == 0xcf ==>
                  r == s.(winActive := true, winStart := now,
                          presses := if s.winActive then (s.presses + 1) % 256 else 1))
            && (mid != [] && !(b[1].out == 0x9d && b[2].out == 0xcf) ==>
                  && r.ann & 0x0800 == 0 && r.ann & 0xf7ff == s.ann & 0xf7ff
                  && r == s.(winActive := false, presses := 0, ann := r.ann,
                             news := if r.ann == s.ann then s.news else (s.news + 1) % 0x1_0000_0000))
  {
    var b := [Pair(0x00, 0x77)] + mid + [last];
    ButtonSent(s, mid, last, ts);
    if |b| >= 3 {
      CodeIs(b);
    }
    ShiftCleared(s.ann);
    hide Sent, ButtonCode, ClearShift, Consumed, Sized;
  }

  /** A frame end in the middle of a key does nothing. */
  lemma ButtonCut(s: Panel, mid: seq<Pair>, ts: seq<u32>)
    requires Sized(s) && s.framer == SYNCED && |mid| <= 98 && |ts| == |mid| + 2
    requires Pair(0x00, 0xbb) !in mid && forall q <- mid :: q.inp != 0x66
    ensures Sent(s, [Pair(0x00, 0x77)] + mid + [Pair(0x00, 0xbb)], ts) == s
  {
    hide Sent, Step;
    var first := Pair(0x00, 0x77);
    KeyOpened(s, ts[0]);
    assert ts[..1] == [ts[0]];
    WholeFrame(s, [first], mid, EOF, ts, s.(framer := Framer(BUTTON, [first])));
    hide Sized, Consumed;
    ButtonCutEnd(s.(framer := Framer(BUTTON, [first] + mid)), ts[|ts| - 1]);
  }

  lemma ButtonCutEnd(s: Panel, t: u32)
    requires Sized(s) && s.framer.state == BUTTON && |s.framer.pairs| < 100
    ensures Step(s, Consume(EOF, t)) == s.(framer := SYNCED)
  {
  }

  // ---- Messages ----

  /** Inside a message every pair adds a byte. */
  lemma {:induction false} BodyGathered(s: Panel, body: seq<Pair>, ts: seq<u32>)
    requires Sized(s) && |body| == |ts| && EOF !in body && s.framer.state == MESSAGE && |s.framer.pairs| + |body| < 100
    ensures Sent(s, body, ts) ==
            s.(framer := Framer(MESSAGE, s.framer.pairs + body), msg := Assembled(s.msg, Inputs(body)))
  {
    hide Sent, Step, Consumed, Assembled, AddByte, Inputs;
    if body == [] {
      NothingSent(s);
      NothingAssembled(s.msg);
    } else {
      var n := |body| - 1;
      var front, p := body[..n], body[n];
      BodyGathered(s, front, ts[..n]);
      LastOf(s.framer.pairs, body);
      SentLast(s, front, p, ts);
      AssembledSnoc(s.msg, front, p);
      hide Sized;
      BodyOne(s.(framer := Framer(MESSAGE, s.framer.pairs + front), msg := Assembled(s.msg, Inputs(front))), p, ts[n]);
    }
  }

  lemma NothingSent(s: Panel)
    requires Sized(s)
    ensures Sent(s, [], []) == s && s.framer.pairs + [] == s.framer.pairs
  {
  }

  lemma LastOf(ps: seq<Pair>, body: seq<Pair>)
    requires body != []
    ensures body == body[..|body| - 1] + [body[|body| - 1]]
    ensures ps + body[..|body| - 1] + [body[|body| - 1]] == ps + body
  {
  }

  lemma {:induction false} NothingAssembled(m: Message)
    requires |m.work| == DISPLAY_BUF_LEN && m.idx <= DISPLAY_BUF_LEN - 1
    ensures Assembled(m, Inputs([])) == m
  {
  }

  lemma {:induction false} AssembledSnoc(m: Message, front: seq<Pair>, p: Pair)
    requires |m.work| == DISPLAY_BUF_LEN && m.idx <= DISPLAY_BUF_LEN - 1
    ensures Assembled(m, Inputs(front + [p])) == AddByte(Assembled(m, Inputs(front)), p.inp)
  {
    assert (front + [p])[..|front|] == front;
    assert Inputs(front + [p]) == Inputs(front) + [p.inp];
    assert (Inputs(front) + [p.inp])[..|front|] == Inputs(front);
  }

  lemma BodyOne(s: Panel, p: Pair, t: u32)
    requires Sized(s) && p != EOF && s.framer.state == MESSAGE && |s.framer.pairs| < 99
    ensures Step(s, Consume(p, t)) ==
            s.(framer := Framer(MESSAGE, s.framer.pairs + [p]), msg := AddByte(s.msg, p.inp))
  {
    hide AddByte;
  }

  lemma MessageEnds(s: Panel, t: u32)
    requires Sized(s) && s.framer.state == MESSAGE && |s.framer.pairs| < 100
    ensures var m := Judged(s.msg);
            Step(s, Consume(EOF, t)) ==
            s.(framer := SYNCED, main := m.work, lastReading := if m.valid then m.work else s.lastReading,
               blinkMask := m.blink, msg := m.(needReset := true), news := Counted(s.news, true))
  {
    hide Judged, Counted;
  }

  lemma {:induction false} MessageGathered(s: Panel, h0: Pair, h1: Pair, body: seq<Pair>, ts: seq<u32>)
    requires Sized(s) && s.framer == SYNCED && s.msg.needReset && h0.inp == 0x00 && h1.inp in {0x7f, 0xff}
    requires h0.out !in {0x77, 0xbb} && EOF !in body && 1 <= |body| <= 97 && |ts| == |body| + 2
    ensures Sent(s, [h0, h1] + body, ts) ==
            s.(framer := Framer(MESSAGE, [h0, h1] + body), msg := Pure(Inputs(body)))
  {
    hide Sent, Step, Consumed, Pure, Assembled, Inputs;
    assert ts[..2] == [ts[0], ts[1]] && ts == ts[..2] + ts[2..];
    Opened(s, h0, h1, ts[0], ts[1]);
    SentConcat(s, [h0, h1], ts[..2], body, ts[2..]);
    BodyGathered(s.(framer := Framer(MESSAGE, [h0, h1])), body, ts[2..]);
    AssembledIsPure(s.msg, Inputs(body));
  }

  lemma {:induction false} MessageSent(s: Panel, h0: Pair, h1: Pair, body: seq<Pair>, ts: seq<u32>)
    requires Sized(s) && s.framer == SYNCED && s.msg.needReset && h0.inp == 0x00 && h1.inp in {0x7f, 0xff}
    requires h0.out !in {0x77, 0xbb} && EOF !in body && 1 <= |body| <= 97 && |ts| == |body| + 3
    ensures var m := Judged(Pure(Inputs(body)));
            Sent(s, [h0, h1] + body + [EOF], ts) ==
            s.(main := m.work, lastReading := if m.valid then m.work else s.lastReading,
               blinkMask := m.blink, msg := m.(needReset := true), news := Counted(s.news, true))
  {
    hide Sent, Step, Consumed, Judged, Pure, Counted, Inputs;
    var n := |body| + 2;
    MessageGathered(s, h0, h1, body, ts[..n]);
    SentLast(s, [h0, h1] + body, EOF, ts);
    MessageEnds(s.(framer := Framer(MESSAGE, [h0, h1] + body), msg := Pure(Inputs(body))), ts[n]);
  }

  /** A message: 00, then 7F or FF, then at least one input. Its text, cut and padded, is displayed with
      its own blinks, exactly a recognised reading becomes the last one, and it counts as news in any
      case. */
  lemma {:induction false} MessageFrame(s: Panel, h0: Pair, h1: Pair, body: seq<Pair>, ts: seq<u32>)
    requires Sized(s) && s.framer == SYNCED && s.msg.needReset && h0.inp == 0x00 && h1.inp in {0x7f, 0xff}
    requires h0.out !in {0x77, 0xbb} && Pair(0x00, 0xbb) !in body && 1 <= |body| <= 97 && |ts| == |body| + 3
    ensures var r := Sent(s, [h0, h1] + body + [Pair(0x00, 0xbb)], ts);
            var w := Text(Codes(Inputs(body)));
            && r.main == w && r.blinkMask == Blinks(Inputs(body))
            && r.lastReading == (if r.msg.valid then w else s.lastReading)
            && r.news == (s.news + 1) % 0x1_0000_0000 && r.msg.needReset
            && r == s.(main := w, lastReading := r.lastReading, blinkMask := r.blinkMask, msg := r.msg, news := r.news)
  {
    hide Sent, Judged, Pure, Consumed, Text, Codes, Garbled, Blinks, Inputs;
    hide Reading.IsReading, Menu.IsMenu, Recognisers.IsText;
    MessageSent(s, h0, h1, body, ts);
    VerdictIs(Inputs(body));
  }

  /** If all its characters are printable it is recognised exactly when it is a reading, or else a menu, and
      if it is neither of these nor a text, or not printable, it counts as corrupt. */
  lemma {:induction false} MessageRecognised(s: Panel, h0: Pair, h1: Pair, body: seq<Pair>, ts: seq<u32>)
    requires Sized(s) && s.framer == SYNCED && s.msg.needReset && h0.inp == 0x00 && h1.inp in {0x7f, 0xff}
    requires h0.out !in {0x77, 0xbb} && Pair(0x00, 0xbb) !in body && 1 <= |body| <= 97 && |ts| == |body| + 3
    ensures var m := Sent(s, [h0, h1] + body + [Pair(0x00, 0xbb)], ts).msg;
            var codes := Codes(Inputs(body));
            var t := CString(Text(codes));
            && (m.valid <==> !Garbled(codes) && Reading.IsReading(t))
            && (m.menu <==> !Garbled(codes) && Menu.IsMenu(t))
            && (m.corrupt <==> Garbled(codes) || (!Reading.IsReading(t) && !Menu.IsMenu(t) && !Recognisers.IsText(t)))
  {
    hide Sent, Judged, Pure, Consumed, Text, Codes, Garbled, Blinks, Inputs;
    hide Reading.IsReading, Menu.IsMenu, Recognisers.IsText;
    MessageSent(s, h0, h1, body, ts);
    VerdictIs(Inputs(body));
  }

  /** The same verdict in any run whose message frames are neither cut by a reset nor overflow. */
  lemma {:induction false} MessageVerdict(es: seq<Event>, now: u32)
    requires Undisturbed(es)
    requires Run(Init(), es).framer.state == MESSAGE && |Run(Init(), es).framer.pairs| > 2
    ensures var s := Run(Init(), es);
            var (r, codes) := (Step(s, Consume(Pair(0x00, 0xbb), now)), Codes(Inputs(s.framer.pairs[2..])));
            var t := CString(Text(codes));
            && r.main == Text(codes)
            && (r.msg.valid <==> !Garbled(codes) && Reading.IsReading(t))
            && (r.msg.menu <==> !Garbled(codes) && Menu.IsMenu(t))
            && (r.msg.corrupt <==>
                Garbled(codes) || (!Reading.IsReading(t) && !Menu.IsMenu(t) && !Recognisers.IsText(t)))
            && r.lastReading == (if r.msg.valid then Text(codes) else s.lastReading)
            && r.news == (s.news + 1) % 0x1_0000_0000
  {
    hide Run, Undisturbed, Judged, Pure, Text, Codes, Garbled, Blinks, Inputs, Framed;
    hide Reading.IsReading, Menu.IsMenu, Recognisers.IsText;
    var s := Run(Init(), es);
    PublishedTextIsPure(es, now);
    FramedRun(es);
    hide Step;
    MessageEnds(s, now);
    VerdictIs(Inputs(s.framer.pairs[2..]));
  }

  lemma {:induction false} FramedRun(es: seq<Event>)
    ensures |Run(Init(), es).framer.pairs| < 100
  {
    ReachableInv(es);
  }

  // ---- Before the first frame end, full buffers, resets ----

  /** Until the first frame end nothing is taken for a frame. */
  lemma BeforeFirstEnd(ps: seq<Pair>, ts: seq<u32>)
    requires Pair(0x00, 0xbb) !in ps && |ps| < 100 && |ts| == |ps| + 1
    ensures Sent(Init(), ps, ts[..|ps|]) == Init().(framer := Framer(INIT, ps))
    ensures Sent(Init(), ps + [Pair(0x00, 0xbb)], ts) == Init().(framer := SYNCED)
  {
    hide Sent;
    Gathered(Init(), ps, ts[..|ps|]);
    assert [] + ps == ps;
    SentLast(Init(), ps, EOF, ts);
  }

  /** The hundredth pair of a frame ends it, without what its frame end would have done; of a message it
      still adds a byte, and the message stays open. */
  lemma FullBuffer(s: Panel, p: Pair, t: u32)
    requires Sized(s) && |s.framer.pairs| == 99 && p != Pair(0x00, 0xbb)
    requires s.framer.state in {MESSAGE, ANNUNCIATORS, CONTROL, INIT}
    ensures Step(s, Consume(p, t)) ==
            s.(framer := SYNCED, msg := if s.framer.state == MESSAGE then AddByte(s.msg, p.inp) else s.msg)
  {
    hide AddByte;
  }

  /** A reset: the notice is displayed, all annunciators and blinks are off, no window is open, no verdict
      stands and the next message starts afresh; the frame in progress goes on and the last reading
      stays. */
  lemma ResetLaw(s: Panel)
    requires Sized(s)
    ensures var r := Step(s, ResetSeen);
            && r.main == "SYSTEM RESET  " + ['\0', '\0']
            && r.ann == 0 && r.blinkMask == 0 && !r.winActive && r.presses == 0
            && r.msg == s.msg.(needReset := true, corrupt := false, menu := false, valid := false)
            && r.framer == s.framer && r.lastReading == s.lastReading && r.winStart == s.winStart
            && r.news == (s.news + 1) % 0x1_0000_0000
  {
  }
}
