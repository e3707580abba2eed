/** Bit masks as lists of numbers and ranges: the printer that writes into a fixed buffer, the parser,
    and what survives the way through both. */
module Bitmask {
  import opened Word32
  import opened Spans

  const BUFFER := 112

  /** (1 << len) - 1 */
  function Ones(len: nat): bv32
    requires len < 32
  {
    Pred(OneHot(len))
  }

  // ---- Printing ----

  /** The printer's variables: the text so far, whether it has written nothing, a number or the start of
      a range, the last bit seen and the end of the open range. */
  datatype Pen = Pen(text: string, state: nat, prev: int, last: int)

  /** The printer meets a set bit. */
  function Mark(p: Pen, i: nat, base: nat, range: bool): Pen
    requires i < 32 && base < 256 && -2 <= p.prev && 0 <= p.last < 32
  {
    var joins := i - p.prev == 1;
    var number := Decimal(i + base);
    if p.state == 0 then Pen(p.text + Clip(number, 2), 1, i, p.last)
    else if p.state == 1 then
      if range && joins then Pen(p.text, 2, i, i)
      else Pen(p.text + Clip("," + number, 3), 1, i, p.last)
    else
      if joins then Pen(p.text, 2, i, i)
      else Pen(p.text + Clip("-" + Decimal(p.last + base) + "," + number, 6), 1, i, p.last)
  }

  function Marks(mask: bv32, n: nat, base: nat, range: bool): (p: Pen)
    requires n <= 32 && base < 256
    ensures -2 <= p.prev < n && 0 <= p.last < 32
  {
    if n == 0 then Pen("", 0, -2, 0)
    else
      var p := Marks(mask, n - 1, base, range);
      if Bit(mask, n - 1) then Mark(p, n - 1, base, range) else p
  }

  predicate Starred(mask: bv32, len: nat, range: bool)
    requires len == 32 ==> range
  {
    !range && len < 32 && mask == Ones(len)
  }

  function Printed(mask: bv32, len: nat, base: nat, range: bool): string
    requires base < 256 && (len == 32 ==> range)
  {
    if len < 1 || len > 32 then ""
    else if Starred(mask, len, range) then "*"
    else
      var p := Marks(mask, len, base, range);
      if range && p.state == 2 then p.text + "-" + Decimal(p.last + base) else p.text
  }

  predicate Clean(s: string) {
    forall i :: 0 <= i < |s| ==> s[i] != '\0'
  }

  /** The buffer holds this text as a C string. */
  ghost predicate Holds(b: seq<char>, t: string) {
    |t| < |b| && b[..|t|] == t && b[|t|] == '\0' && Clean(t)
  }

  lemma DecimalClean(n: nat)
    requires n < 1000
    ensures Clean(Decimal(n)) && 1 <= |Decimal(n)| <= 3
  {
  }

  /** Three characters a bit, and an open range has one bit's worth to spare. */
  lemma {:induction false} RoomLeft(mask: bv32, n: nat, base: nat, range: bool)
    requires n <= 32 && base < 256
    ensures var p := Marks(mask, n, base, range);
      Clean(p.text) && p.state <= 2 && (p.state == 2 ==> range) &&
      |p.text| <= 3 * n && (p.state == 2 ==> |p.text| <= 3 * (n - 1))
  {
    hide Bit, Decimal;
    if n > 0 {
      RoomLeft(mask, n - 1, base, range);
      var p := Marks(mask, n - 1, base, range);
      DecimalClean(n - 1 + base);
      DecimalClean(p.last + base);
    }
  }

  /** snprintf of a text into size characters at the end of what the buffer holds; the result is the
      length the text would have had. */
  method Snprintf(buf: array<char>, at: nat, size: nat, text: string, ghost before: string)
    returns (w: nat)
    requires size > 0 && at + |Clip(text, size - 1)| < buf.Length && Clean(text)
    requires Holds(buf[..], before) && at == |before|
    modifies buf
    ensures w == |text| && Holds(buf[..], before + Clip(text, size - 1))
  {
    w := |text|;
    var n := if w < size then w else size - 1;
    assert buf[..at] == before;
    for i := 0 to n
      invariant buf[..at] == before
      invariant buf[at..at + i] == text[..i]
    {
      buf[at + i] := text[i];
    }
    buf[at + n] := '\0';
    assert buf[..][..at + n] == buf[..at] + buf[at..at + n];
  }

  /** The printer meets a set bit. */
  method MarkBit(buf: array<char>, i: nat, base: nat, range: bool, state: nat, prev: int, last: int, s: nat,
                 ghost p: Pen)
    returns (state': nat, last': int, s': nat)
    requires buf.Length == BUFFER && i < 32 && base < 256
    requires -2 <= p.prev && 0 <= p.last < 32 && state <= 2 && s <= 93
    requires p == Pen(p.text, state, prev, last) && Holds(buf[..], p.text) && s == |p.text|
    modifies buf
    ensures var q := Mark(p, i, base, range);
      q == Pen(q.text, state', i, last') && Holds(buf[..], q.text) && s' == |q.text|
  {
    hide Decimal;
    hide Holds;
    state', last', s' := state, last, s;
    var consecutive := i - prev == 1;
    var w;
    DecimalClean(i + base);
    DecimalClean(last + base);
    if state == 0 {
      w := Snprintf(buf, s, 3, Decimal(i + base), p.text);
      if w > 2 { w := 2; }
      s' := s + w;
      state' := 1;
    } else if state == 1 {
      if range && consecutive {
        last' := i;
        state' := 2;
      } else {
        w := Snprintf(buf, s, 4, "," + Decimal(i + base), p.text);
        if w > 3 { w := 3; }
        s' := s + w;
      }
    } else if state == 2 {
      if consecutive {
        last' := i;
      } else {
        w := Snprintf(buf, s, 7, "-" + Decimal(last + base) + "," + Decimal(i + base), p.text);
        if w > 6 { w := 6; }
        s' := s + w;
        state' := 1;
      }
    }
  }

  /** What is printed fits the buffer whatever the mask, the length and the base. */
  method BitmaskToStr(mask: bv32, len: nat, base: nat, range: bool, buf: array<char>)
    requires buf.Length == BUFFER && base < 256 && (len == 32 ==> range)
    modifies buf
    ensures Holds(buf[..], Printed(mask, len, base, range))
  {
    hide Bit, Decimal, Ones, Mark;
    var state, prev: int, last: int, s := 0, -2, 0, 0;
    buf[0] := '\0';
    if len < 1 || len > 32 {
      return;
    }
    if !range && mask == Ones(len) {
      buf[0] := '*';
      buf[1] := '\0';
      return;
    }
    assert Holds(buf[..], "");
    hide Holds;
    for i := 0 to len
      invariant var p := Marks(mask, i, base, range);
        p == Pen(p.text, state, prev, last) && Holds(buf[..], p.text) && s == |p.text|
    {
      if Bit(mask, i) {
        RoomLeft(mask, i, base, range);
        state, last, s := MarkBit(buf, i, base, range, state, prev, last, s, Marks(mask, i, base, range));
        prev := i;
      }
    }
    RoomLeft(mask, len, base, range);
    if range && state == 2 {
      DecimalClean(last + base);
      var _ := Snprintf(buf, s, 12, "-" + Decimal(last + base), Marks(mask, len, base, range).text);
    }
  }

  // ---- Parsing ----

  /** Sets the bits lo to hi. */
  function Fill(m: bv32, lo: int, hi: int): bv32
    decreases hi + 1 - lo
  {
    if lo > hi then m else Fill(SetBit(m, lo), lo + 1, hi)
  }

  /** |= 1 << i; a negative count sets nothing. */
  function SetBit(m: bv32, i: int): bv32 {
    if i < 0 then m else Or(m, OneHot(i))
  }

  /** One element of the list: a number, or a range cut at '-'. */
  function ReadItem(m: bv32, item: string, len: nat, base: nat): bv32 {
    match Strtok(item, '-')
    case End => m
    case Token(first, rest) =>
      match StrToInt(first)
      case NoNumber => m
      case Number(x) =>
        var a := x - base;
        var m1 := if 0 <= a < len then SetBit(m, a) else m;
        match Strtok(rest, '-')
        case End => m1
        case Token(second, _) =>
          match StrToInt(second)
          case NoNumber => m1
          case Number(y) => if a < y - base < len then Fill(m1, a + 1, y - base) else m1
  }

  function ReadList(m: bv32, s: string, len: nat, base: nat): bv32
    decreases |s|
  {
    match Strtok(s, ',')
    case End => m
    case Token(item, rest) =>
      StrtokShrinks(s, ',');
      ReadList(ReadItem(m, item, len, base), rest, len, base)
  }

  /** The parser's status and the mask it leaves. */
  function Parsed(s: string, len: nat, base: nat): (int, bv32)
    requires len == 32 ==> s != "*"
  {
    if len < 1 || len > 32 then (-2, 0)
    else if s == "*" then (0, Ones(len))
    else (0, ReadList(0, s, len, base))
  }

  method StrToBitmask(str: string, len: nat, base: nat) returns (code: int, mask: bv32)
    requires len == 32 ==> str != "*"
    ensures (code, mask) == Parsed(str, len, base)
  {
    hide StrToInt, Strtok, OneHot;
    mask := 0;
    if len < 1 || len > 32 {
      return -2, mask;
    }
    if str == "*" {
      return 0, Ones(len);
    }
    var tok := Strtok(str, ',');
    ghost var s := str;
    while tok.Token?
      invariant tok == Strtok(s, ',')
      invariant ReadList(mask, s, len, base) == ReadList(0, str, len, base)
      decreases |s|
    {
      ghost var before := mask;
      StrtokShrinks(s, ',');
      var part := Strtok(tok.text, '-');
      var x := if part.Token? then StrToInt(part.text) else NoNumber;
      if x.Number? {
        var a := x.value - base;
        if a >= 0 && a < len {
          mask := SetBit(mask, a);
        }
        part := Strtok(part.rest, '-');
        var y := if part.Token? then StrToInt(part.text) else NoNumber;
        if y.Number? {
          var b := y.value - base;
          if b > a && b < len {
            ghost var m1 := mask;
            a := a + 1;
            while a <= b
              invariant a <= b + 1 && Fill(mask, a, b) == Fill(m1, x.value - base + 1, b)
            {
              mask := SetBit(mask, a);
              a := a + 1;
            }
          }
        }
      }
      assert mask == ReadItem(before, tok.text, len, base);
      s := tok.rest;
      tok := Strtok(tok.rest, ',');
    }
    code := 0;
  }
}
