/** The twelve display cells: punctuation is folded into the cell before it. */
module Cells {
  import opened Basics
  import opened Messages
  import opened Panel
  import Recognisers
  import Reading = ReadingRecogniser

  const DISPLAY_COLS: int := 12

  // Overlay flags: OVERLAY_PERIOD, OVERLAY_COMMA and OVERLAY_DOT are bits 0 to 2.
  const PERIOD: bv8 := 0x01
  const COMMA: bv8 := 0x02
  const COLON: bv8 := 0x05

  datatype Cell = Cell(c: char, flags: bv8, blink: bool)

  /** The punctuation character that a cell's flags stand for. */
  function Mark(flags: bv8): string {
    if flags == PERIOD then "." else if flags == COMMA then "," else if flags == COLON then ":" else ""
  }

  function FlagsOf(next: char): bv8 {
    if next == '.' then PERIOD else if next == ',' then COMMA else if next == ':' then COLON else 0
  }

  /** The index a cell is read from: at the end of the buffer it sticks to the last byte. */
  function Capped(d: nat): nat { if d > DISPLAY_BUF_LEN - 1 then DISPLAY_BUF_LEN - 1 else d }

  /** The text position after i cells. mem is the 16-byte text and at least the byte behind it. */
  function Position(mem: string, i: nat): (d: nat)
    requires |mem| > DISPLAY_BUF_LEN
    ensures d <= DISPLAY_BUF_LEN + 1
  {
    if i == 0 then 0
    else
      var d := Capped(Position(mem, i - 1));
      if FlagsOf(mem[d + 1]) != 0 && mem[d] != mem[d + 1] then d + 2 else d + 1
  }

  function CellAt(mem: string, mask: bv16, i: nat): Cell
    requires |mem| > DISPLAY_BUF_LEN && i < DISPLAY_COLS
  {
    var d := Capped(Position(mem, i));
    Cell(mem[d], FlagsOf(mem[d + 1]), Blinking(mask, i))
  }

  function Parsed(mem: string, mask: bv16, n: nat): (cells: seq<Cell>)
    requires |mem| > DISPLAY_BUF_LEN && n <= DISPLAY_COLS
    ensures |cells| == n && forall i :: 0 <= i < n ==> cells[i] == CellAt(mem, mask, i)
  {
    if n == 0 then [] else Parsed(mem, mask, n - 1) + [CellAt(mem, mask, n - 1)]
  }

  /** A cell in plain terms: a character, the mark that follows it as overlay flags, and the blink bit of
      the cell's own number; the walk goes on behind the mark, unless the character is that mark itself. */
  lemma CellIs(mem: string, mask: bv16, i: nat)
    requires |mem| > DISPLAY_BUF_LEN && i < DISPLAY_COLS
    ensures Position(mem, 0) == 0
    ensures var (d, cell) := (if Position(mem, i) > 15 then 15 else Position(mem, i), CellAt(mem, mask, i));
            && cell.c == mem[d]
            && cell.flags == (match mem[d + 1] case '.' => 1 case ',' => 2 case ':' => 5 case _ => 0)
            && (cell.blink <==> mask & (1 << i) != 0)
            && Position(mem, i + 1) == d + if mem[d + 1] in {'.', ',', ':'} && mem[d + 1] != mem[d] then 2 else 1
  {
  }

  // ---- Nothing is lost in folding ----

  function UnfoldCell(cell: Cell): string {
    if Mark(cell.flags) != "" && Mark(cell.flags) != [cell.c] then [cell.c] + Mark(cell.flags) else [cell.c]
  }

  function Unfolded(cells: seq<Cell>): string {
    if cells == [] then "" else Unfolded(cells[..|cells| - 1]) + UnfoldCell(cells[|cells| - 1])
  }

  /** The walk never has to stick to the last byte of the buffer. */
  ghost predicate NeverCapped(mem: string, n: nat)
    requires |mem| > DISPLAY_BUF_LEN
  {
    forall i :: 0 <= i < n ==> Position(mem, i) <= DISPLAY_BUF_LEN - 1
  }

  lemma MarkOfFlags(next: char)
    ensures Mark(FlagsOf(next)) == if FlagsOf(next) != 0 then [next] else ""
  {
  }

  lemma UnfoldOne(mem: string, mask: bv16, i: nat)
    requires |mem| > DISPLAY_BUF_LEN + 1 && i < DISPLAY_COLS
    ensures var d := Capped(Position(mem, i));
            UnfoldCell(CellAt(mem, mask, i)) == mem[d..d + (Position(mem, i + 1) - d)]
  {
    var d := Capped(Position(mem, i));
    var c, next, cell := mem[d], mem[d + 1], CellAt(mem, mask, i);
    MarkOfFlags(next);
    assert cell.c == c && cell.flags == FlagsOf(next);
    assert Position(mem, i + 1) == if FlagsOf(next) != 0 && c != next then d + 2 else d + 1;
    hide FlagsOf, Mark, Capped, Blinking, Position, CellAt;
    CharsApart(c, next);
    OneAndTwo(mem, d);
  }

  lemma CharsApart(c: char, d: char)
    ensures [d] != "" && ([d] == [c] <==> d == c)
  {
    assert [d][0] == d && [c][0] == c;
  }

  lemma OneAndTwo(s: string, d: nat)
    requires d + 2 <= |s|
    ensures s[d..d + 1] == [s[d]] && s[d..d + 2] == [s[d]] + [s[d + 1]]
  {
  }

  lemma UnfoldedSnoc(mem: string, mask: bv16, n: nat)
    requires |mem| > DISPLAY_BUF_LEN + 1 && 0 < n <= DISPLAY_COLS
    ensures var d := Capped(Position(mem, n - 1));
            Unfolded(Parsed(mem, mask, n)) == Unfolded(Parsed(mem, mask, n - 1)) + mem[d..Position(mem, n)]
  {
    var cells := Parsed(mem, mask, n);
    assert cells[..n - 1] == Parsed(mem, mask, n - 1);
    UnfoldOne(mem, mask, n - 1);
  }

  lemma {:induction false} UnfoldedLength(mem: string, mask: bv16, n: nat)
    requires |mem| > DISPLAY_BUF_LEN + 1 && n <= DISPLAY_COLS
    ensures |Unfolded(Parsed(mem, mask, n))| >= Position(mem, n)
    ensures |Unfolded(Parsed(mem, mask, n))| == Position(mem, n) <==> NeverCapped(mem, n)
  {
    if n > 0 {
      UnfoldedSnoc(mem, mask, n);
      UnfoldedLength(mem, mask, n - 1);
      hide Parsed, Unfolded, Position, NeverCapped;
      NeverCappedSnoc(mem, n);
    }
  }

  lemma NeverCappedSnoc(mem: string, n: nat)
    requires |mem| > DISPLAY_BUF_LEN && n > 0
    ensures NeverCapped(mem, n) <==> NeverCapped(mem, n - 1) && Position(mem, n - 1) <= DISPLAY_BUF_LEN - 1
    ensures Capped(Position(mem, n - 1)) < Position(mem, n)
  {
  }

  /** Writing the marks back between the cells gives the consumed text again, exactly when the walk
      stays inside the buffer; otherwise the last byte is shown more than once. */
  lemma {:induction false} UnfoldParsed(mem: string, mask: bv16, n: nat)
    requires |mem| > DISPLAY_BUF_LEN + 1 && n <= DISPLAY_COLS
    ensures Unfolded(Parsed(mem, mask, n)) == mem[..Position(mem, n)] <==> NeverCapped(mem, n)
  {
    UnfoldedLength(mem, mask, n);
    if n > 0 {
      hide Parsed, NeverCapped, Unfolded, Position;
      NeverCappedSnoc(mem, n);
      if NeverCapped(mem, n) {
        UnfoldParsed(mem, mask, n - 1);
        UnfoldedSnoc(mem, mask, n);
        var d := Position(mem, n - 1);
        Adjacent(mem, d, Position(mem, n));
      }
    }
  }

  lemma Adjacent(s: string, d: nat, e: nat)
    requires d <= e <= |s|
    ensures s[..d] + s[d..e] == s[..e]
  {
  }

  /** The first n digits, each with a point after it. */
  function Pointed(n: nat): seq<byte>
    requires n <= 7
  {
    if n == 0 then [] else Pointed(n - 1) + [0x30 + n, 0x84]
  }

  lemma {:induction false} PointedCodes(n: nat)
    requires n <= 7
    ensures var codes := Codes(Pointed(n));
            |codes| == 2 * n && forall i :: 0 <= i < n ==> codes[2 * i] == 0x31 + i && codes[2 * i + 1] == 0x2e
  {
    if n > 0 {
      PointedCodes(n - 1);
      CodesSnoc(Pointed(n - 1), 0x30 + n);
      CodesSnoc(Pointed(n - 1) + [0x30 + n], 0x84);
      assert Pointed(n) == Pointed(n - 1) + [0x30 + n] + [0x84];
    }
  }

  /** The walk does run out of text: seven digits with a point after each leave cells to spare. */
  lemma PointsCrowdTheText()
    ensures var mem := Text(Codes(Pointed(7))) + [NUL, NUL];
            && !NeverCapped(mem, DISPLAY_COLS)
            && Unfolded(Parsed(mem, 0, DISPLAY_COLS)) != mem[..Position(mem, DISPLAY_COLS)]
  {
    PointedCodes(7);
    var mem := Text(Codes(Pointed(7))) + [NUL, NUL];
    hide Codes, Text, Unfolded, Parsed;
    PointedWalk(mem, 7);
    assert Position(mem, 9) == 16;
    UnfoldParsed(mem, 0, DISPLAY_COLS);
  }

  lemma {:induction false} PointedWalk(mem: string, n: nat)
    requires |mem| > DISPLAY_BUF_LEN && n <= 7
    requires forall i :: 0 <= i < 7 ==> mem[2 * i] != '.' && mem[2 * i + 1] == '.'
    ensures Position(mem, n) == 2 * n
  {
    if n > 0 {
      PointedWalk(mem, n - 1);
      assert mem[2 * (n - 1)] != '.' && mem[2 * (n - 1) + 1] == '.';
    }
  }

  // ---- The byte behind the text ----

  lemma {:induction false} PositionIgnoresMore(mem: string, mem': string, i: nat)
    requires |mem| > DISPLAY_BUF_LEN && |mem'| > DISPLAY_BUF_LEN && mem[..16] == mem'[..16]
    requires FlagsOf(mem[16]) == 0 && FlagsOf(mem'[16]) == 0
    ensures Position(mem, i) == Position(mem', i)
  {
    if i > 0 {
      PositionIgnoresMore(mem, mem', i - 1);
      var d := Capped(Position(mem, i - 1));
      assert mem[d] == mem[..16][d] && mem'[d] == mem'[..16][d];
      if d < 15 {
        assert mem[d + 1] == mem[..16][d + 1] && mem'[d + 1] == mem'[..16][d + 1];
      }
    }
  }

  lemma LastReadingStart(s: Panel)
    requires PanelInv(s)
    ensures FlagsOf(s.lastReading[0]) == 0
  {
    hide Reading.IsReading;
    if s.lastReading != NoText() {
      Recognisers.ReadingStart(CString(s.lastReading));
      assert CString(s.lastReading)[0] == s.lastReading[0];
    }
  }

  lemma CellIgnoresMore(mem: string, mem': string, mask: bv16, i: nat)
    requires |mem| > DISPLAY_BUF_LEN && |mem'| > DISPLAY_BUF_LEN && mem[..16] == mem'[..16] && i < DISPLAY_COLS
    requires FlagsOf(mem[16]) == 0 && FlagsOf(mem'[16]) == 0
    ensures CellAt(mem, mask, i) == CellAt(mem', mask, i)
  {
    PositionIgnoresMore(mem, mem', i);
    hide Position;
    var d := Capped(Position(mem, i));
    assert mem[d] == mem[..16][d] && mem'[d] == mem'[..16][d];
    if d < 15 {
      assert mem[d + 1] == mem[..16][d + 1] && mem'[d + 1] == mem'[..16][d + 1];
    }
  }

  lemma {:induction false} ParsedIgnoresMore(mem: string, mem': string, mask: bv16)
    requires |mem| > DISPLAY_BUF_LEN && |mem'| > DISPLAY_BUF_LEN && mem[..16] == mem'[..16]
    requires FlagsOf(mem[16]) == 0 && FlagsOf(mem'[16]) == 0
    ensures Parsed(mem, mask, 12) == Parsed(mem', mask, 12)
  {
    hide CellAt, FlagsOf, Parsed;
    forall i | 0 <= i < 12 ensures CellAt(mem, mask, i) == CellAt(mem', mask, i) {
      CellIgnoresMore(mem, mem', mask, i);
    }
  }

  /** The walk may look one byte past the displayed text. In memory that byte is the first one of the
      last reading, and in every reachable state of the decoder it is no punctuation: the cells are
      those of the displayed text alone. */
  lemma {:induction false} OverrunIsHarmless(s: Panel, mask: bv16)
    requires PanelInv(s)
    ensures Parsed(s.main + s.lastReading, mask, 12) == Parsed(s.main + [NUL, NUL], mask, 12)
  {
    hide Parsed, WellFormed, MessageInv, Reading.IsReading;
    LastReadingStart(s);
    ParsedIgnoresMore(s.main + s.lastReading, s.main + [NUL, NUL], mask);
  }
}
