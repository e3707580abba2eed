/** Printing a mask and parsing the text gives the mask back, except for bits whose number has no room
    in the text. */
module BitmaskRoundTrip {
  import opened Word32
  import opened Spans
  import opened Bitmask

  /** The digits that have room in a number written after the ranges r. */
  function Room(r: seq<Span>, base: nat): nat {
    if r != [] && r[|r| - 1].lo < r[|r| - 1].hi && r[|r| - 1].hi + base >= 100 then 1 else 2
  }

  /** Bit i comes after the ranges r. */
  function Extended(r: seq<Span>, i: nat, base: nat, range: bool): seq<Span> {
    if range && r != [] && r[|r| - 1].hi + 1 == i then r[..|r| - 1] + [r[|r| - 1].(hi := i)]
    else r + [Span(i, i, Room(r, base))]
  }

  /** The set bits below n, each alone or joined into ranges, in ascending order. */
  function Runs(mask: bv32, n: nat, base: nat, range: bool): seq<Span>
    requires n <= 32
  {
    if n == 0 then []
    else
      var r := Runs(mask, n - 1, base, range);
      if Bit(mask, n - 1) then Extended(r, n - 1, base, range) else r
  }

  lemma CoversSnoc(ss: seq<Span>, s: Span, k: nat)
    ensures Covers(ss + [s], k) <==> Covers(ss, k) || s.lo <= k <= s.hi
  {
    if Covers(ss + [s], k) && !(s.lo <= k <= s.hi) {
      var j :| 0 <= j < |ss + [s]| && (ss + [s])[j].lo <= k <= (ss + [s])[j].hi;
      assert ss[j].lo <= k <= ss[j].hi;
    }
    if Covers(ss, k) {
      var j :| 0 <= j < |ss| && ss[j].lo <= k <= ss[j].hi;
      assert (ss + [s])[j] == ss[j];
    }
    assert (ss + [s])[|ss|] == s;
  }

  /** The ranges cover exactly the bits set. */
  lemma {:induction false} RunsCover(mask: bv32, n: nat, base: nat, range: bool, k: nat)
    requires n <= 32
    ensures Covers(Runs(mask, n, base, range), k) <==> k < n && Bit(mask, k)
    ensures forall s <- Runs(mask, n, base, range) :: s.lo <= s.hi < n && (range || s.lo == s.hi)
  {
    hide Bit, Covers, Room;
    if n == 0 {
      assert !Covers([], k) by { NoneCovered(k); }
    } else {
      RunsCover(mask, n - 1, base, range, k);
      var r := Runs(mask, n - 1, base, range);
      if r != [] {
        CoversSnoc(r[..|r| - 1], r[|r| - 1], k);
        assert r[..|r| - 1] + [r[|r| - 1]] == r;
        CoversSnoc(r[..|r| - 1], r[|r| - 1].(hi := n - 1), k);
      }
      CoversSnoc(r, Span(n - 1, n - 1, Room(r, base)), k);
    }
  }

  lemma NoneCovered(k: nat)
    ensures !Covers([], k)
  {
  }

  /** A bit whose number has three digits continues a range. */
  predicate HasRoom(mask: bv32, base: nat, range: bool, i: nat)
    requires i < 32
  {
    i + base >= 100 ==> range && i > 0 && Bit(mask, i - 1)
  }

  /** No number of three digits is written first. */
  ghost predicate Legible(mask: bv32, n: nat, base: nat, range: bool)
    requires n <= 32
  {
    forall i: nat :: i < n && Bit(mask, i) ==> HasRoom(mask, base, range, i)
  }

  /** A range that begins at a number of three digits is a single bit. */
  ghost predicate Tame(mask: bv32, n: nat, base: nat)
    requires n <= 32
  {
    forall i: nat :: i + 1 < n && Bit(mask, i) && Bit(mask, i + 1) && i + base >= 100 ==> i > 0 && Bit(mask, i - 1)
  }

  /** What the pen has written when the ranges so far are r; the end of an open range is not written
      yet. */
  ghost predicate Wrote(p: Pen, r: seq<Span>, base: nat) {
    Small(r, base) &&
    if r == [] then p.state == 0 && p.text == "" && p.prev == -2
    else
      var s := r[|r| - 1];
      p.prev == s.hi && (p.state == 1 || p.state == 2) &&
      (p.state == 1 ==> s.lo == s.hi && p.text == Render(r, base)) &&
      (p.state == 2 ==> s.lo < s.hi && p.last == s.hi && s.lo + base < 100 && Begun(p, r[..|r| - 1], s.lo, base))
  }

  /** The text so far ends with the start of an open range. */
  ghost predicate Begun(p: Pen, front: seq<Span>, lo: nat, base: nat) {
    Small(front + [Span(lo, lo, 2)], base) && p.text == Render(front + [Span(lo, lo, 2)], base)
  }

  lemma {:induction false} Widened(p: Pen, front: seq<Span>, lo: nat, hi: nat, base: nat)
    requires Small(front, base) && lo < hi && lo + base < 100 && hi + base < 1000
    requires Begun(p, front, lo, base)
    ensures Small(front + [Span(lo, hi, 2)], base)
    ensures Render(front + [Span(lo, hi, 2)], base) == p.text + "-" + Decimal(hi + base)
  {
    hide Decimal, Render;
    RenderSnoc(front, Span(lo, lo, 2), base);
    RenderSnoc(front, Span(lo, hi, 2), base);
  }

  lemma ClipComma(s: string)
    ensures Clip("," + s, 3) == "," + Clip(s, 2)
  {
  }

  lemma SmallFront(r: seq<Span>, base: nat)
    requires Small(r, base) && r != []
    ensures Small(r[..|r| - 1], base) && r[..|r| - 1] + [r[|r| - 1]] == r
  {
  }

  /** A number after the end of a range: of six characters those before the number come first. */
  lemma ClipRange(a: nat, b: nat)
    requires a < b < 1000 && b < a + 32
    ensures Clip("-" + Decimal(a) + "," + Decimal(b), 6) ==
            "-" + Decimal(a) + "," + Clip(Decimal(b), if a >= 100 then 1 else 2)
  {
  }

  lemma Joined(p: Pen, r: seq<Span>, i: nat, base: nat)
    requires Wrote(p, r, base) && r != [] && p.prev == i - 1 && i < 32 && base < 256 && 0 <= p.last < 32
    requires r[|r| - 1].lo + base < 100
    ensures Wrote(Mark(p, i, base, true), Extended(r, i, base, true), base)
  {
    hide Decimal, Render;
    SmallFront(r, base);
    var front, lo := r[..|r| - 1], r[|r| - 1].lo;
    var q := Mark(p, i, base, true);
    RenderSnoc(front, Span(lo, lo, 2), base);
    assert Begun(q, front, lo, base);
    assert Extended(r, i, base, true)[..|r| - 1] == front;
    Widened(q, front, lo, i, base);
  }

  /** A number that does not join the range before it. */
  lemma Added(p: Pen, r: seq<Span>, i: nat, base: nat, range: bool)
    requires Wrote(p, r, base) && !(range && p.prev == i - 1) && p.prev < i < 32 && p.state != 2
    requires base < 256 && -2 <= p.prev && 0 <= p.last < 32
    ensures Wrote(Mark(p, i, base, range), Extended(r, i, base, range), base)
    ensures Mark(p, i, base, range).state == 1
  {
    hide Decimal, Render;
    DecimalClean(i + base);
    RenderSnoc(r, Span(i, i, 2), base);
    ClipComma(Decimal(i + base));
  }

  lemma MarkAfterRange(p: Pen, i: nat, base: nat, whole: string)
    requires p.state == 2 && p.prev < i - 1 && -2 <= p.prev && 0 <= p.last < i < 32 && base < 256
    requires whole == p.text + "-" + Decimal(p.last + base)
    ensures Mark(p, i, base, true) ==
            Pen(whole + "," + Clip(Decimal(i + base), if p.last + base >= 100 then 1 else 2), 1, i, p.last)
  {
    hide Decimal, Clip;
    ClipRange(p.last + base, i + base);
    Regrouped(p.text, Decimal(p.last + base), Clip(Decimal(i + base), if p.last + base >= 100 then 1 else 2));
  }

  lemma Regrouped(s: string, a: string, b: string)
    ensures s + ("-" + a + "," + b) == s + "-" + a + "," + b
  {
  }

  lemma SingleItem(i: nat, base: nat, room: nat)
    requires i < 32 && base < 256 && 1 <= room <= 2 && (i + base < 100 ==> room == 2)
    ensures Tidy(Span(i, i, room), base) && Item(Span(i, i, room), base) == Clip(Decimal(i + base), room)
  {
    hide Decimal;
  }

  /** A number after an open range, whose end is written first. */
  lemma AddedAfterRange(p: Pen, r: seq<Span>, i: nat, base: nat)
    requires Wrote(p, r, base) && p.state == 2 && p.prev < i - 1 && i < 32
    requires base < 256 && -2 <= p.prev && 0 <= p.last < 32
    ensures Wrote(Mark(p, i, base, true), Extended(r, i, base, true), base)
    ensures Mark(p, i, base, true).state == 1
  {
    var s, room := r[|r| - 1], Room(r, base);
    SmallFront(r, base);
    assert Tidy(s, base) && s == Span(s.lo, s.hi, 2) && room == if s.hi + base >= 100 then 1 else 2;
    assert p.last == s.hi && p.prev == s.hi && Extended(r, i, base, true) == r + [Span(i, i, room)];
    hide Decimal, Render, Clip, Mark, Room, Tidy, Item;
    Widened(p, r[..|r| - 1], s.lo, s.hi, base);
    hide Wrote, Extended, Begun, Small;
    MarkAfterRange(p, i, base, Render(r, base));
    SingleItem(i, base, room);
    RenderSnoc(r, Span(i, i, room), base);
    WroteNumber(Mark(p, i, base, true), r, Span(i, i, room), base);
  }

  lemma {:induction false} WroteNumber(p: Pen, r: seq<Span>, s: Span, base: nat)
    requires Small(r + [s], base) && s.lo == s.hi == p.prev && p.state == 1 && p.text == Render(r + [s], base)
    ensures Wrote(p, r + [s], base)
  {
  }

  lemma {:induction false} Written(mask: bv32, n: nat, base: nat, range: bool)
    requires n <= 32 && base < 256 && (range ==> Tame(mask, n, base))
    ensures Wrote(Marks(mask, n, base, range), Runs(mask, n, base, range), base)
    ensures !range ==> Marks(mask, n, base, range).state != 2
  {
    hide Bit, Extended, Mark;
    hide Wrote, Tidy;
    if n == 0 {
      NothingWritten(base);
    } else {
      Written(mask, n - 1, base, range);
      var p, r, i := Marks(mask, n - 1, base, range), Runs(mask, n - 1, base, range), n - 1;
      if Bit(mask, i) {
        LastOfRun(mask, n - 1, base, range);
        Ends(p, r, base);
        if range && p.prev == i - 1 {
          Joined(p, r, i, base);
        } else if p.state == 2 {
          AddedAfterRange(p, r, i, base);
        } else {
          Added(p, r, i, base, range);
        }
      }
    }
  }

  lemma Ends(p: Pen, r: seq<Span>, base: nat)
    requires Wrote(p, r, base)
    ensures if r == [] then p.prev == -2 else p.prev == r[|r| - 1].hi && Tidy(r[|r| - 1], base)
  {
  }

  /** The last range ends with the last bit, and begins where no bit precedes it. */
  lemma {:induction false} LastOfRun(mask: bv32, n: nat, base: nat, range: bool)
    requires n <= 32
    ensures var r := Runs(mask, n, base, range);
            && (n > 0 && Bit(mask, n - 1) ==> r != [] && r[|r| - 1].hi == n - 1)
            && (r != [] ==> r[|r| - 1].lo <= r[|r| - 1].hi < n && Bit(mask, r[|r| - 1].hi))
            && (range && r != [] ==> r[|r| - 1].lo == 0 || !Bit(mask, r[|r| - 1].lo - 1))
  {
    hide Bit, Room;
    if n > 0 {
      LastOfRun(mask, n - 1, base, range);
    }
  }

  lemma NothingWritten(base: nat)
    ensures Wrote(Pen("", 0, -2, 0), [], base)
  {
  }

  /** The whole text is the ranges, separated by commas. */
  lemma {:induction false} PrintedIsRender(mask: bv32, len: nat, base: nat, range: bool)
    requires 1 <= len <= 32 && base < 256 && (len == 32 ==> range) && !Starred(mask, len, range)
    requires range ==> Tame(mask, len, base)
    ensures Small(Runs(mask, len, base, range), base)
    ensures Printed(mask, len, base, range) == Render(Runs(mask, len, base, range), base)
  {
    hide Decimal, Bit, Starred, Tame, Marks, Runs;
    Written(mask, len, base, range);
    var p, r := Marks(mask, len, base, range), Runs(mask, len, base, range);
    if r != [] && p.state == 2 {
      SmallFront(r, base);
      Widened(p, r[..|r| - 1], r[|r| - 1].lo, p.last, base);
    }
  }

  // ---- Reading ranges back ----

  lemma SetBitSets(m: bv32, i: nat, k: nat)
    requires i < 32 && k < 32
    ensures Bit(SetBit(m, i), k) <==> Bit(m, k) || k == i
  {
    hide Bit, OneHot;
    OrBit(m, OneHot(i), k);
    OneHotBit(i, k);
  }

  lemma {:induction false} FillSets(m: bv32, lo: int, hi: int, k: nat)
    requires hi < 32 && k < 32
    ensures Bit(Fill(m, lo, hi), k) <==> Bit(m, k) || lo <= k <= hi
    decreases hi + 1 - lo
  {
    hide Bit, OneHot;
    if lo <= hi {
      FillSets(SetBit(m, lo), lo + 1, hi, k);
      if lo >= 0 {
        SetBitSets(m, lo, k);
      }
    }
  }

  /** A range, as the parser sees it, sets its bits, unless its first number was cut short. */
  lemma ItemReads(m: bv32, s: Span, len: nat, base: nat, k: nat)
    requires Tidy(s, base) && s.hi < len <= 32 && base < 256 && k < 32
    ensures Bit(ReadItem(m, Item(s, base), len, base), k) <==>
            Bit(m, k) || (s.lo + base < 100 && s.lo <= k <= s.hi)
  {
    hide Bit, Fill, SetBit, Decimal, StrToInt, Strtok, Clip;
    var first, second := Clip(Decimal(s.lo + base), s.room), Decimal(s.hi + base);
    ClippedReads(s.lo + base, s.room);
    DecimalReads(s.hi + base);
    StrtokPlain(first, '-', second);
    StrtokPlain(second, '-', "");
    assert Strtok("", '-') == End by { NoToken('-'); }
    if s.lo + base < 100 {
      SetBitSets(m, s.lo, k);
      FillSets(SetBit(m, s.lo), s.lo + 1, s.hi, k);
      if s.lo < s.hi {
        assert Item(s, base) == first + ['-'] + second;
      } else {
        assert Item(s, base) == first;
      }
    } else {
      assert Item(s, base) == first;
    }
  }

  lemma NoToken(d: char)
    ensures Strtok("", d) == End
  {
  }

  lemma ItemPlain(s: Span, base: nat)
    requires Tidy(s, base)
    ensures Plain(Item(s, base), ',')
  {
    hide Decimal, StrToInt, Clip;
    ClippedReads(s.lo + base, s.room);
    DecimalReads(s.hi + base);
  }

  /** The bits the parser finds again. */
  predicate Kept(ss: seq<Span>, base: nat, k: nat) {
    exists j :: 0 <= j < |ss| && ss[j].lo <= k <= ss[j].hi && ss[j].lo + base < 100
  }

  lemma KeptCons(ss: seq<Span>, base: nat, k: nat)
    requires ss != []
    ensures Kept(ss, base, k) <==>
            Kept(ss[1..], base, k) || (ss[0].lo + base < 100 && ss[0].lo <= k <= ss[0].hi)
  {
    if Kept(ss[1..], base, k) {
      var j :| 0 <= j < |ss[1..]| && ss[1..][j].lo <= k <= ss[1..][j].hi && ss[1..][j].lo + base < 100;
      assert ss[j + 1] == ss[1..][j];
    }
    if Kept(ss, base, k) {
      var j :| 0 <= j < |ss| && ss[j].lo <= k <= ss[j].hi && ss[j].lo + base < 100;
      assert j > 0 ==> ss[1..][j - 1] == ss[j];
    }
  }

  lemma {:induction false} ListReads(m: bv32, ss: seq<Span>, len: nat, base: nat, k: nat)
    requires Small(ss, base) && len <= 32 && base < 256 && k < 32
    requires forall s <- ss :: s.hi < len
    ensures Bit(ReadList(m, Render(ss, base), len, base), k) <==> Bit(m, k) || Kept(ss, base, k)
    decreases |ss|
  {
    hide Bit, Item, ReadItem, Strtok, Tidy, Kept;
    NoToken(',');
    if ss == [] {
      NoneKept(base, k);
    } else {
      var item := Item(ss[0], base);
      assert Small(ss[1..], base);
      ItemPlain(ss[0], base);
      ItemReads(m, ss[0], len, base, k);
      KeptCons(ss, base, k);
      ListReads(ReadItem(m, item, len, base), ss[1..], len, base, k);
      if |ss| == 1 {
        StrtokPlain(item, ',', "");
      } else {
        StrtokPlain(item, ',', Render(ss[1..], base));
        assert Render(ss, base) == item + [','] + Render(ss[1..], base);
      }
    }
  }

  lemma NoneKept(base: nat, k: nat)
    ensures !Kept([], base, k)
  {
  }

  lemma {:induction false} NoStar(ss: seq<Span>, base: nat)
    requires Small(ss, base)
    ensures Render(ss, base) != "*"
  {
    hide Decimal;
    if ss != [] {
      assert Tidy(ss[0], base);
      StartsWithDigit(ss[0].lo + base);
      assert Item(ss[0], base)[0] == Decimal(ss[0].lo + base)[0];
      assert Render(ss, base)[0] == Item(ss[0], base)[0];
    }
  }

  lemma StartsWithDigit(n: nat)
    requires n < 1000
    ensures Decimal(n) != "" && IsDigit(Decimal(n)[0])
  {
  }

  // ---- The round trip ----

  /** What parsing the printed text gives, bit by bit: the ranges whose first number was not cut. */
  lemma {:induction false} ReadsBack(mask: bv32, len: nat, base: nat, range: bool, k: nat)
    requires 1 <= len <= 32 && base < 256 && (len == 32 ==> range) && !Starred(mask, len, range) && k < 32
    requires range ==> Tame(mask, len, base)
    ensures Printed(mask, len, base, range) != "*"
    ensures var (code, m) := Parsed(Printed(mask, len, base, range), len, base);
      code == 0 && (Bit(m, k) <==> Kept(Runs(mask, len, base, range), base, k))
  {
    hide Bit, OneHot, Starred, Tame, Runs, Render, Kept, Covers, Printed;
    var ss := Runs(mask, len, base, range);
    PrintedIsRender(mask, len, base, range);
    NoStar(ss, base);
    RunsCover(mask, len, base, range, k);
    ListReads(0, ss, len, base, k);
    ZeroBits(k);
  }

  lemma {:induction false} LegibleStarts(mask: bv32, n: nat, base: nat, range: bool)
    requires n <= 32 && Legible(mask, n, base, range)
    ensures forall s <- Runs(mask, n, base, range) :: s.lo + base < 100
  {
    hide Bit, Room;
    if n > 0 {
      LegibleStarts(mask, n - 1, base, range);
      LastOfRun(mask, n - 1, base, range);
    }
  }

  /** A kept bit is covered; the converse holds of every bit exactly if no number of three digits is
      written first. */
  lemma {:induction false} KeptIsCovered(mask: bv32, len: nat, base: nat, range: bool, k: nat)
    requires len <= 32
    ensures var ss := Runs(mask, len, base, range);
            && (Kept(ss, base, k) ==> k < len && Bit(mask, k))
            && (Legible(mask, len, base, range) && k < len && Bit(mask, k) ==> Kept(ss, base, k))
            && (Kept(ss, base, k) ==> HasRoom(mask, base, range, k))
  {
    hide Bit, Legible, Runs;
    var ss := Runs(mask, len, base, range);
    RunsCover(mask, len, base, range, k);
    if k > 0 {
      RunsCover(mask, len, base, range, k - 1);
    }
    if Legible(mask, len, base, range) {
      LegibleStarts(mask, len, base, range);
    }
    if j :| 0 <= j < |ss| && ss[j].lo <= k <= ss[j].hi {
      assert ss[j] in ss;
    }
    if j :| 0 <= j < |ss| && ss[j].lo <= k <= ss[j].hi && ss[j].lo + base < 100 {
      assert ss[j] in ss;
      assert k + base >= 100 ==> ss[j].lo <= k - 1 <= ss[j].hi;
    }
  }

  /** Parsing undoes printing exactly when every set bit is below the length and no number of three
      digits is written first; "*" always comes back. */
  lemma ParsingUndoesPrinting(mask: bv32, len: nat, base: nat, range: bool)
    requires 1 <= len <= 32 && base < 256 && (len == 32 ==> range)
    requires range ==> Tame(mask, len, base)
    ensures len == 32 ==> Printed(mask, len, base, range) != "*"
    ensures Parsed(Printed(mask, len, base, range), len, base) == (0, mask) <==>
            Starred(mask, len, range) ||
            (Legible(mask, len, base, range) && forall k: nat :: k < 32 && Bit(mask, k) ==> k < len)
  {
    hide Bit, Tame, Ones;
    if !Starred(mask, len, range) {
      hide Starred, Printed, Parsed, Runs, Kept, HasRoom;
      ReadsBack(mask, len, base, range, 0);
      var (code, m) := Parsed(Printed(mask, len, base, range), len, base);
      if Legible(mask, len, base, range) && forall k: nat :: k < 32 && Bit(mask, k) ==> k < len {
        forall k | 0 <= k < 32 ensures Bit(m, k) == Bit(mask, k) {
          ReadsBack(mask, len, base, range, k);
          KeptIsCovered(mask, len, base, range, k);
        }
        SameBits(m, mask);
      }
      if m == mask {
        forall k: nat | k < 32 && Bit(mask, k)
          ensures k < len && HasRoom(mask, base, range, k)
        {
          ReadsBack(mask, len, base, range, k);
          KeptIsCovered(mask, len, base, range, k);
        }
      }
    }
  }

  /** With every number of two digits or fewer, all masks below the length come back, in both styles. */
  lemma RoundTrip(mask: bv32, len: nat, base: nat, range: bool)
    requires 1 <= len <= 31 && len - 1 + base <= 99
    requires forall k: nat :: k < 32 && Bit(mask, k) ==> k < len
    ensures Parsed(Printed(mask, len, base, range), len, base) == (0, mask)
  {
    hide Bit, Parsed, Printed, Starred;
    ParsingUndoesPrinting(mask, len, base, range);
  }

  /** A mask whose only number has three digits is printed as its first two and lost, in both styles. */
  lemma ThreeDigitsAreLost(range: bool)
    ensures Printed(1, 2, 100, range) == "10"
    ensures Parsed("10", 2, 100) == (0, 0)
  {
    hide Pred;
    assert StrToInt("10") == Number(10) by { DecimalReads(10); }
    assert Strtok("10", ',') == Token("10", "") && Strtok("10", '-') == Token("10", "") by {
      DecimalReads(10);
      StrtokPlain("10", ',', "");
      StrtokPlain("10", '-', "");
    }
    NoToken('-');
    NoToken(',');
    OnlyFirst();
    hide StrToInt, Strtok, Bit;
    assert Clip(Decimal(100), 2) == "10";
    assert Marks(1, 1, 100, range) == Pen("10", 1, 0, 0);
    assert Marks(1, 2, 100, range) == Pen("10", 1, 0, 0);
  }

  lemma OnlyFirst()
    ensures Bit(1, 0) && !Bit(1, 1) && Ones(2) != 1
  {
    assert OneHot(1) == 2;
  }

  /** Bits 1, 2, 3 and 5 of eight, counted from 1, in both styles. */
  lemma FourBitsPrinted(mask: bv32)
    requires forall i :: 0 <= i < 8 ==> (Bit(mask, i) <==> i in {1, 2, 3, 5})
    ensures Printed(mask, 8, 1, true) == "2-4,6"
    ensures !Starred(mask, 8, false) ==> Printed(mask, 8, 1, false) == "2,3,4,6"
  {
    RangesMarked(mask);
    NumbersMarked(mask);
    SingleDigits();
    hide Bit, Ones, Marks;
  }

  lemma {:induction false} RangesMarked(mask: bv32)
    requires forall i :: 0 <= i < 8 ==> (Bit(mask, i) <==> i in {1, 2, 3, 5})
    ensures Marks(mask, 8, 1, true) == Pen("2-4,6", 1, 5, 3)
  {
    hide Bit, Decimal;
    SingleDigits();
    assert Marks(mask, 0, 1, true) == Pen("", 0, -2, 0);
    assert Marks(mask, 1, 1, true) == Pen("", 0, -2, 0);
    assert Marks(mask, 2, 1, true) == Pen("2", 1, 1, 0);
    assert Marks(mask, 3, 1, true) == Pen("2", 2, 2, 2);
    assert Marks(mask, 4, 1, true) == Pen("2", 2, 3, 3);
    assert Marks(mask, 5, 1, true) == Pen("2", 2, 3, 3);
    assert Marks(mask, 6, 1, true) == Pen("2-4,6", 1, 5, 3);
    assert Marks(mask, 7, 1, true) == Pen("2-4,6", 1, 5, 3);
    assert Marks(mask, 8, 1, true) == Pen("2-4,6", 1, 5, 3);
  }

  lemma {:induction false} NumbersMarked(mask: bv32)
    requires forall i :: 0 <= i < 8 ==> (Bit(mask, i) <==> i in {1, 2, 3, 5})
    ensures Marks(mask, 8, 1, false) == Pen("2,3,4,6", 1, 5, 0)
  {
    hide Bit, Decimal;
    SingleDigits();
    assert Marks(mask, 0, 1, false) == Pen("", 0, -2, 0);
    assert Marks(mask, 1, 1, false) == Pen("", 0, -2, 0);
    assert Marks(mask, 2, 1, false) == Pen("2", 1, 1, 0);
    assert Marks(mask, 3, 1, false) == Pen("2,3", 1, 2, 0);
    assert Marks(mask, 4, 1, false) == Pen("2,3,4", 1, 3, 0);
    assert Marks(mask, 5, 1, false) == Pen("2,3,4", 1, 3, 0);
    assert Marks(mask, 6, 1, false) == Pen("2,3,4,6", 1, 5, 0);
    assert Marks(mask, 7, 1, false) == Pen("2,3,4,6", 1, 5, 0);
    assert Marks(mask, 8, 1, false) == Pen("2,3,4,6", 1, 5, 0);
  }

  lemma SingleDigits()
    ensures Decimal(2) == "2" && Decimal(3) == "3" && Decimal(4) == "4" && Decimal(6) == "6"
  {
  }

  // ---- Any text ----

  lemma OnesStep(x: bv32)
    requires And(x, Pred(x)) == 0
    ensures Pred(Shl(x)) == Or(Pred(x), x) && And(Shl(x), Pred(Shl(x))) == 0
  {
  }

  lemma {:induction false} OnesBits(n: nat, k: nat)
    requires n < 32 && k < 32
    ensures And(OneHot(n), Pred(OneHot(n))) == 0
    ensures Bit(Ones(n), k) <==> k < n
  {
    hide Bit, Or, And, Shl, Pred;
    if n == 0 {
      ZeroBits(k);
      PredOne();
    } else {
      OnesBits(n - 1, k);
      OnesStep(OneHot(n - 1));
      OrBit(Ones(n - 1), OneHot(n - 1), k);
      OneHotBit(n - 1, k);
    }
  }

  lemma PredOne()
    ensures Pred(1) == 0 && And(1, 0) == 0
  {
  }

  lemma ItemBelow(m: bv32, item: string, len: nat, base: nat, k: nat)
    requires len <= 32 && k < 32 && k >= len
    ensures Bit(ReadItem(m, item, len, base), k) == Bit(m, k)
  {
    hide Bit, StrToInt, Strtok, SetBit;
    match Strtok(item, '-')
    case End =>
    case Token(first, rest) =>
      match StrToInt(first)
      case NoNumber =>
      case Number(x) =>
        var a := x - base;
        if 0 <= a < len {
          SetBitSets(m, a, k);
        }
        var m1 := if 0 <= a < len then SetBit(m, a) else m;
        match Strtok(rest, '-')
        case End =>
        case Token(second, _) =>
          match StrToInt(second)
          case NoNumber =>
          case Number(y) =>
            if a < y - base < len {
              FillSets(m1, a + 1, y - base, k);
            }
  }

  /** What an element of a list means, whatever its text: a number sets its own bit, a range sets all bits
      after its first number up to the second, and numbers that do not count below the length set none. */
  lemma ItemMeans(m: bv32, item: string, x: int, y: int, rest: string, more: string, len: nat, base: nat, k: nat)
    requires len <= 32 && k < 32
    requires Strtok(item, '-').Token? && StrToInt(Strtok(item, '-').text) == Number(x) && Strtok(item, '-').rest == rest
    ensures (Strtok(rest, '-') == End || StrToInt(Strtok(rest, '-').text) == NoNumber ==>
               (Bit(ReadItem(m, item, len, base), k) <==> Bit(m, k) || (k < len && k == x - base)))
    ensures (Strtok(rest, '-').Token? && StrToInt(Strtok(rest, '-').text) == Number(y) ==>
               (Bit(ReadItem(m, item, len, base), k) <==>
                || Bit(m, k) || (k < len && k == x - base)
                || (y - base < len && x - base < k <= y - base)))
  {
    hide Bit, StrToInt, Strtok, SetBit, Fill;
    var a := x - base;
    if 0 <= a < len {
      SetBitSets(m, a, k);
    }
    var m1 := if 0 <= a < len then SetBit(m, a) else m;
    if y - base < len {
      FillSets(m1, a + 1, y - base, k);
    }
  }

  /** The first element of a list is read, then the others. */
  lemma {:induction false} ListMeans(m: bv32, item: string, rest: string, len: nat, base: nat)
    requires Plain(item, ',')
    ensures ReadList(m, item + [','] + rest, len, base) == ReadList(ReadItem(m, item, len, base), rest, len, base)
    ensures ReadList(m, ",", len, base) == m
  {
    hide Strtok, ReadItem;
    StrtokPlain(item, ',', rest);
    assert Strtok(",", ',') == End by { OnlyDelimiter(','); }
  }

  lemma OnlyDelimiter(d: char)
    ensures Strtok([d], d) == End
  {
    assert Skipped([d], d) == Skipped("", d);
  }

  /** strtol skips spaces, takes a sign, stops at the first character that is no digit and finds nothing
      where there is none; strtok_r skips delimiters. */
  lemma NumbersRead()
    ensures StrToInt(" \t42x") == Number(42) && StrToInt("+7") == Number(7) && StrToInt("-7") == Number(-7)
    ensures StrToInt("x7") == NoNumber && StrToInt("+") == NoNumber && StrToInt("") == NoNumber
    ensures Strtok("--5-7", '-') == Token("5", "7")
  {
    var t := " \t42x";
    assert t[1..][1..] == "42x";
    assert StrToInt("42x") == Number(42) by {
      DigitsOf("42x", 4, 0);
      DigitsOf("42x"[1..], 2, 4);
      assert "42x"[1..][1..] == "x" && Digits("x", 42) == 42;
    }
    assert StrToInt(t[1..]) == Number(42);
    assert "+7"[1..] == "7" && "-7"[1..] == "7";
    DigitsOf("7", 7, 0);
    assert "--5-7"[1..] == "-5-7" && "-5-7"[1..] == "5-7";
    assert "5-7" == "5" + ['-'] + "7";
    assert Skipped("--5-7", '-') == Skipped("-5-7", '-') == Skipped("5-7", '-') == "5-7";
    StrtokPlain("5", '-', "7");
  }

  /** Whatever the text, no bit beyond the length is ever set. */
  lemma {:induction false} ListBelow(m: bv32, s: string, len: nat, base: nat, k: nat)
    requires len <= k < 32
    ensures Bit(ReadList(m, s, len, base), k) == Bit(m, k)
    decreases |s|
  {
    hide Bit, Strtok, ReadItem;
    match Strtok(s, ',')
    case End =>
    case Token(item, rest) =>
      StrtokShrinks(s, ',');
      ItemBelow(m, item, len, base, k);
      ListBelow(ReadItem(m, item, len, base), rest, len, base, k);
  }

  lemma NothingBeyondLength(s: string, len: nat, base: nat, k: nat)
    requires (len == 32 ==> s != "*") && len <= k < 32
    ensures !Bit(Parsed(s, len, base).1, k)
  {
    hide Bit, ReadList, Ones;
    ZeroBits(k);
    ListBelow(0, s, len, base, k);
    if 1 <= len {
      OnesBits(len, k);
    }
  }
}
