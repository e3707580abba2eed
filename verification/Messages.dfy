/** The text of a display message: how body bytes are assembled one by one into the 16-byte
    working buffer, and what text that amounts to. */
module Messages {
  import opened Basics
  import opened Wire
  import opened Recognisers
  import Reading = ReadingRecogniser
  import Menu = MenuRecogniser

  const DISPLAY_BUF_LEN: int := 16

  /** msg_work with the fields that go with it. */
  datatype Message = Message(work: string, idx: nat, blink: bv16,
                             needReset: bool, corrupt: bool, menu: bool, valid: bool)

  predicate Printable(c: byte) { 0x20 <= c <= 0x7e }

  function Glyph(c: byte): char { if Printable(c) then c as char else ' ' }

  function Blank(): (w: string)
    ensures |w| == DISPLAY_BUF_LEN && forall i :: 0 <= i < 16 ==> w[i] == if i < 14 then ' ' else NUL
  {
    seq(16, i => if 0 <= i < 14 then ' ' else NUL)
  }

  /** A text buffer of zeros. */
  function NoText(): (w: string)
    ensures |w| == DISPLAY_BUF_LEN && forall i :: 0 <= i < 16 ==> w[i] == NUL
  {
    seq(16, i => NUL)
  }

  function Fresh(m: Message): Message {
    if m.needReset then Message(Blank(), 0, 0, false, false, false, false) else m
  }

  /** dmm_putc_safe. */
  function PutChar(m: Message, c: byte): Message
    requires |m.work| == DISPLAY_BUF_LEN
  {
    if m.idx >= DISPLAY_BUF_LEN - 1 then m
    else m.(work := m.work[m.idx := Glyph(c)], idx := m.idx + 1, corrupt := m.corrupt || !Printable(c))
  }

  function BlinkBit(k: nat): bv16
    requires k < 16
  {
    1 << k
  }

  function Joined(x: bv16, y: bv16): bv16 { x | y }

  function Common(x: bv16, y: bv16): bv16 { x & y }

  predicate Meet(x: bv16, y: bv16) { Common(x, y) != 0 }

  /** The character before a 0x8d blinks. */
  function BlinkBefore(m: Message): (r: Message)
    requires m.idx <= DISPLAY_BUF_LEN
    ensures r == m.(blink := r.blink)
  {
    if m.idx > 0 then m.(blink := Joined(m.blink, BlinkBit(m.idx - 1))) else m
  }

  /** The character code a body byte shows, if it shows one. */
  function Shown(b: byte): seq<byte> {
    if b == 0x84 then [0x2e] else if b == 0x86 then [0x2c]
    else if b == 0x8d || b == 0x8c then [0x3a]
    else if b == 0x81 || b == 0x00 then []
    else [b]
  }

  /** messageByte. */
  function AddByte(m: Message, b: byte): (r: Message)
    requires |m.work| == DISPLAY_BUF_LEN && m.idx <= DISPLAY_BUF_LEN - 1
    ensures |r.work| == DISPLAY_BUF_LEN && r.idx <= DISPLAY_BUF_LEN - 1
  {
    var f := Fresh(m);
    var blinking := if b == 0x8d then BlinkBefore(f) else f;
    if Shown(b) == [] then blinking else PutChar(blinking, Shown(b)[0])
  }

  // ---- The text as a function of the body bytes ----

  /** The character codes that a body shows, in order. */
  function Codes(body: seq<byte>): seq<byte> {
    if body == [] then [] else Codes(body[..|body| - 1]) + Shown(body[|body| - 1])
  }

  /** At most fifteen characters, padded with spaces to fourteen, then NUL. */
  function Text(codes: seq<byte>): (w: string)
    ensures |w| == DISPLAY_BUF_LEN
  {
    seq(16, i => if 0 <= i < 15 && i < |codes| then Glyph(codes[i]) else if i < 14 then ' ' else NUL)
  }

  /** A character among the fifteen that fit was not printable. */
  predicate Garbled(codes: seq<byte>) {
    exists i :: 0 <= i < 15 && i < |codes| && !Printable(codes[i])
  }

  function Fitting(n: nat): nat { if n < 15 then n else 15 }

  /** A byte 0x8d makes the character before it blink. */
  function Blinks(body: seq<byte>): bv16 {
    if body == [] then 0
    else
      var front := body[..|body| - 1];
      var n := Fitting(|Codes(front)|);
      if body[|body| - 1] == 0x8d && n > 0 then Joined(Blinks(front), BlinkBit(n - 1)) else Blinks(front)
  }

  function Pure(body: seq<byte>): Message {
    Message(Text(Codes(body)), Fitting(|Codes(body)|), Blinks(body), false, Garbled(Codes(body)), false, false)
  }

  /** The body bytes of one message, added one by one. */
  function Assembled(m: Message, body: seq<byte>): Message
    requires |m.work| == DISPLAY_BUF_LEN && m.idx <= DISPLAY_BUF_LEN - 1
    ensures |Assembled(m, body).work| == DISPLAY_BUF_LEN && Assembled(m, body).idx <= DISPLAY_BUF_LEN - 1
  {
    if body == [] then m else AddByte(Assembled(m, body[..|body| - 1]), body[|body| - 1])
  }

  lemma PutCharPure(codes: seq<byte>, c: byte)
    ensures Text(codes + [c]) == if |codes| < 15 then Text(codes)[|codes| := Glyph(c)] else Text(codes)
    ensures Garbled(codes + [c]) == (Garbled(codes) || (|codes| < 15 && !Printable(c)))
  {
    if |codes| < 15 && !Printable(c) {
      assert (codes + [c])[|codes|] == c;
    }
    if i :| 0 <= i < 15 && i < |codes| && !Printable(codes[i]) {
      assert (codes + [c])[i] == codes[i];
    }
  }

  lemma ShownOne(b: byte)
    ensures Shown(b) == [] || Shown(b) == [Shown(b)[0]]
    ensures b == 0x8d ==> Shown(b) != []
  {
  }

  lemma {:induction false} CodesSnoc(body: seq<byte>, b: byte)
    ensures (body + [b])[..|body|] == body && Codes(body + [b]) == Codes(body) + Shown(b)
    ensures Shown(b) == [] ==> Codes(body + [b]) == Codes(body)
  {
    assert (body + [b])[..|body|] == body;
  }

  /** One more byte extends the pure text by one more byte. */
  lemma AddBytePure(body: seq<byte>, b: byte)
    ensures AddByte(Pure(body), b) == Pure(body + [b])
  {
    hide Codes, Text, Garbled, Glyph, Shown, BlinkBit, Printable;
    CodesSnoc(body, b);
    ShownOne(b);
    if Shown(b) != [] {
      PutCharPure(Codes(body), Shown(b)[0]);
    }
  }

  lemma EmptyIsBlank()
    ensures Pure([]) == Message(Blank(), 0, 0, false, false, false, false)
  {
    assert Text([]) == Blank();
  }

  /** A message that starts afresh is a function of its body bytes, whatever was assembled before. */
  lemma {:induction false} AssembledIsPure(m: Message, body: seq<byte>)
    requires |m.work| == DISPLAY_BUF_LEN && m.idx <= DISPLAY_BUF_LEN - 1 && m.needReset && body != []
    ensures Assembled(m, body) == Pure(body)
  {
    var front, b := body[..|body| - 1], body[|body| - 1];
    assert body == front + [b];
    AddBytePure(front, b);
    if front == [] {
      EmptyIsBlank();
      assert AddByte(m, b) == AddByte(Fresh(m), b);
    } else {
      AssembledIsPure(m, front);
    }
  }

  // ---- The closed form in other words ----

  predicate Blinking(mask: bv16, i: nat)
    requires i < 16
  {
    Meet(mask, BlinkBit(i))
  }

  /** The control codes: 84 is a point, 86 a comma, 8C and 8D are colons, 81 and 00 are nothing; everything
      else stands for itself. */
  lemma BodyByte(b: byte)
    ensures b == 0x84 ==> Shown(b) == ['.' as int]
    ensures b == 0x86 ==> Shown(b) == [',' as int]
    ensures b in {0x8c, 0x8d} ==> Shown(b) == [':' as int]
    ensures b in {0x81, 0x00} ==> Shown(b) == []
    ensures b !in {0x84, 0x86, 0x8c, 0x8d, 0x81, 0x00} ==> Shown(b) == [b]
  {
  }

  lemma {:induction false} CodesConcat(a: seq<byte>, b: seq<byte>)
    ensures Codes(a + b) == Codes(a) + Codes(b)
  {
    hide Shown;
    if b == [] {
      assert a + b == a;
    } else {
      var n := |b| - 1;
      assert (a + b)[..|a + b| - 1] == a + b[..n];
      CodesConcat(a, b[..n]);
      assert Codes(a) + Codes(b[..n]) + Shown(b[n]) == Codes(a) + (Codes(b[..n]) + Shown(b[n]));
    }
  }

  /** Printable characters are shown as they are, others as spaces; the string is cut at fifteen and filled
      up to fourteen. */
  lemma TextReads(codes: seq<byte>)
    ensures var t := CString(Text(codes));
            && |t| == (if |codes| >= 15 then 15 else 14)
            && (forall i :: 0 <= i < |t| ==>
                  t[i] == if i < |codes| && 0x20 <= codes[i] <= 0x7e then codes[i] as char else ' ')
    ensures Garbled(codes) <==> exists i :: 0 <= i < |codes| && i < 15 && !(0x20 <= codes[i] <= 0x7e)
  {
  }

  lemma BitsApart(k: nat, j: nat)
    requires k < 16 && j < 16
    ensures Blinking(BlinkBit(k), j) <==> k == j
    ensures !Blinking(0, j)
  {
  }

  lemma EitherBlinks(x: bv16, y: bv16, j: nat)
    requires j < 16
    ensures Blinking(Joined(x, y), j) <==> Blinking(x, j) || Blinking(y, j)
  {
    hide Joined, Meet, BlinkBit;
    Distributes(x, y, BlinkBit(j));
  }

  lemma Distributes(x: bv16, y: bv16, z: bv16)
    ensures Meet(Joined(x, y), z) <==> Meet(x, z) || Meet(y, z)
  {
    hide Joined, Common;
    CommonJoined(x, y, z);
    NothingJoined(Common(x, z), Common(y, z));
  }

  lemma CommonJoined(x: bv16, y: bv16, z: bv16)
    ensures Common(Joined(x, y), z) == Joined(Common(x, z), Common(y, z))
  {
  }

  lemma NothingJoined(x: bv16, y: bv16)
    ensures Joined(x, y) == 0 <==> x == 0 && y == 0
  {
  }

  /** A character blinks exactly if a byte 8D follows it; once the buffer is full, it is the fifteenth. */
  ghost predicate Marked(body: seq<byte>, k: nat) {
    exists m :: 0 <= m < |body| && body[m] == 0x8d && Fitting(|Codes(body[..m])|) == k + 1
  }

  lemma {:induction false} BlinksAre(body: seq<byte>, k: nat)
    requires k < 15
    ensures Blinking(Blinks(body), k) <==> Marked(body, k)
  {
    hide Codes, BlinkBit, Blinking, Fitting;
    if body == [] {
      BitsApart(0, k);
    } else {
      var front, b := body[..|body| - 1], body[|body| - 1];
      BlinksAre(front, k);
      MarkedSnoc(front, b, k);
      assert front + [b] == body;
      FittingIs(|Codes(front)|);
      if b == 0x8d && Fitting(|Codes(front)|) > 0 {
        EitherBlinks(Blinks(front), BlinkBit(Fitting(|Codes(front)|) - 1), k);
        BitsApart(Fitting(|Codes(front)|) - 1, k);
      }
    }
  }

  lemma FittingIs(n: nat)
    ensures Fitting(n) <= 15
  {
  }

  lemma {:induction false} MarkedSnoc(front: seq<byte>, b: byte, k: nat)
    ensures Marked(front + [b], k) <==> Marked(front, k) || (b == 0x8d && Fitting(|Codes(front)|) == k + 1)
  {
    hide Codes, Fitting;
    var body := front + [b];
    assert forall m :: 0 <= m <= |front| ==> body[..m] == front[..m];
    assert front[..|front|] == front && body[|front|] == b;
    if m :| 0 <= m < |front| && front[m] == 0x8d && Fitting(|Codes(front[..m])|) == k + 1 {
      assert body[m] == front[m] && body[..m] == front[..m];
    }
  }

  // ---- Well-formed buffers ----

  /** A NUL-terminated printable string of length 14 or 15 in a 16-byte buffer. */
  ghost predicate WellFormed(w: string) {
    && |w| == DISPLAY_BUF_LEN
    && (forall i :: 0 <= i < 14 ==> ' ' <= w[i] <= '~')
    && (w[14] == NUL || ' ' <= w[14] <= '~')
    && w[15] == NUL
  }

  function Length(w: string): nat
    requires |w| == DISPLAY_BUF_LEN
  {
    if w[14] == NUL then 14 else 15
  }

  /** The C string in the buffer. */
  function CString(w: string): string
    requires |w| == DISPLAY_BUF_LEN
  {
    w[..Length(w)]
  }

  // ---- The end of a message ----

  /** The verdict on a complete message that was not garbled on the way. */
  ghost function Judged(m: Message): (r: Message)
    requires |m.work| == DISPLAY_BUF_LEN
    ensures r.work == m.work && r.idx == m.idx && r.blink == m.blink && r.needReset == m.needReset
  {
    var text := CString(m.work);
    if m.corrupt then m
    else if Reading.IsReading(text) then m.(valid := true)
    else if Menu.IsMenu(text) then m.(menu := true)
    else if IsText(text) then m
    else m.(corrupt := true)
  }

  /** The verdict in terms of the three languages, for a message assembled from these bytes. */
  lemma {:induction false} VerdictIs(body: seq<byte>)
    ensures var (m, codes) := (Judged(Pure(body)), Codes(body));
            var t := CString(Text(codes));
            && m.work == Text(codes) && m.blink == Blinks(body)
            && (m.valid <==> !Garbled(codes) && Reading.IsReading(t))
            && (m.menu <==> !Garbled(codes) && Menu.IsMenu(t))
            && (m.corrupt <==> Garbled(codes) || (!Reading.IsReading(t) && !Menu.IsMenu(t) && !IsText(t)))
  {
    hide Reading.IsReading, Menu.IsMenu, IsText, Codes, Text, Garbled, Blinks;
    ReadingIsNotMenu(CString(Text(Codes(body))));
  }

  /** What holds of the working buffer between any two bytes, in every run. The three verdicts
      exclude each other, and a verdict stands only until the next message begins. */
  ghost predicate MessageInv(m: Message) {
    && WellFormed(m.work) && m.idx <= DISPLAY_BUF_LEN - 1
    && (m.valid ==> m.needReset && !m.corrupt && !m.menu && Reading.IsReading(CString(m.work)))
    && (m.menu ==> m.needReset && !m.corrupt && !m.valid && Menu.IsMenu(CString(m.work)))
  }

  lemma AddByteInv(m: Message, b: byte)
    requires MessageInv(m)
    ensures MessageInv(AddByte(m, b)) && !AddByte(m, b).needReset
  {
    hide Reading.IsReading, Menu.IsMenu;
    assert WellFormed(Fresh(m).work);
  }

  lemma JudgedInv(m: Message)
    requires MessageInv(m)
    ensures MessageInv(Judged(m).(needReset := true))
    ensures Judged(m).valid ==> Reading.IsReading(CString(m.work))
  {
    hide Reading.IsReading, Menu.IsMenu, IsText;
    ReadingIsNotMenu(CString(m.work));
  }
}
