/** The screen: two frame buffers, a cache of what each cell of each buffer shows, and the logic that
    decides which text the cells stand for. Drawing is abstract: a cell of a frame buffer holds a
    character tile and the set of overlays drawn over it. */
module Display {
  import opened Basics
  import opened Messages
  import opened Cells

  datatype Picture = Cleared | Drawn(tile: nat, overlays: set<nat>)

  const OVERLAY_COUNT: int := 3
  const EMPTY_CELL := Cell(NUL, 0, false)

  function OverlayBit(o: nat): bv8
    requires o < OVERLAY_COUNT
  {
    if o == 0 then 1 else if o == 1 then 2 else 4
  }

  predicate HasOverlay(flags: bv8, o: nat)
    requires o < OVERLAY_COUNT
  {
    flags & OverlayBit(o) != 0
  }

  function Overlays(flags: bv8, n: nat): set<nat>
    requires n <= OVERLAY_COUNT
  {
    if n == 0 then {}
    else if HasOverlay(flags, n - 1) then Overlays(flags, n - 1) + {n - 1} else Overlays(flags, n - 1)
  }

  function TileOf(tiles: seq<nat>, c: char): nat
    requires |tiles| == 256
  {
    tiles[c as int % 256]
  }

  /** A blinking cell is dark in every other tenth of a second. */
  predicate Dark(t: u32) { t / 100000 % 2 == 1 }

  /** What a full redraw at time t puts into a cell. */
  function PictureOf(tiles: seq<nat>, cell: Cell, t: u32): Picture
    requires |tiles| == 256
  {
    Drawn(TileOf(tiles, if cell.blink && Dark(t) then ' ' else cell.c), Overlays(cell.flags, OVERLAY_COUNT))
  }

  /** A picture is right for a cell: the full redraw of it at the time; and a cell cleared at start-up
      stands for the empty cell. */
  predicate ShownAt(tiles: seq<nat>, pic: Picture, cell: Cell, t: u32)
    requires |tiles| == 256
  {
    pic == PictureOf(tiles, cell, t) || (cell == EMPTY_CELL && pic == Cleared)
  }

  /** A picture was right for a cell at some time. */
  predicate Shows(tiles: seq<nat>, pic: Picture, cell: Cell)
    requires |tiles| == 256
  {
    ShownAt(tiles, pic, cell, 0) || ShownAt(tiles, pic, cell, 100000)
  }

  /** The redraw in plain terms: the tile of the character, or of a space in the dark phase of a blinking
      one, and over it each overlay whose flag is set. */
  lemma RedrawIs(tiles: seq<nat>, cell: Cell, t: u32)
    requires |tiles| == 256
    ensures var pic := PictureOf(tiles, cell, t);
            && pic.Drawn?
            && pic.tile == tiles[if cell.blink && t / 100000 % 2 == 1 then 0x20 else cell.c as int % 256]
            && (0 in pic.overlays <==> cell.flags & 1 != 0)
            && (1 in pic.overlays <==> cell.flags & 2 != 0)
            && (2 in pic.overlays <==> cell.flags & 4 != 0)
            && forall o <- pic.overlays :: o < 3
  {
    OverlaysAre(cell.flags, 3);
  }

  lemma {:induction false} OverlaysAre(flags: bv8, n: nat)
    requires n <= 3
    ensures forall o: nat :: o in Overlays(flags, n) <==> o < n && HasOverlay(flags, o)
  {
    hide HasOverlay;
    if n > 0 {
      OverlaysAre(flags, n - 1);
    }
  }

  /** A point draws overlay 0, a comma overlay 1, a colon overlays 0 and 2, anything else none. */
  lemma PunctuationDrawn(next: char)
    ensures Overlays(FlagsOf(next), OVERLAY_COUNT) ==
            if next == '.' then {0} else if next == ',' then {1} else if next == ':' then {0, 2} else {}
  {
    var f := FlagsOf(next);
    assert HasOverlay(f, 0) <==> next == '.' || next == ':';
    assert HasOverlay(f, 1) <==> next == ',';
    assert HasOverlay(f, 2) <==> next == ':';
    hide HasOverlay, FlagsOf;
    assert Overlays(f, 0) == {};
    assert Overlays(f, 1) == if HasOverlay(f, 0) then {0} else {};
    assert Overlays(f, 2) == if HasOverlay(f, 1) then Overlays(f, 1) + {1} else Overlays(f, 1);
    assert Overlays(f, 3) == if HasOverlay(f, 2) then Overlays(f, 2) + {2} else Overlays(f, 2);
  }

  class Screen {
    const tiles: seq<nat>               // display_tile_map
    const cache: array2<Cell>           // display_state
    const fb: array2<Picture>           // the two layers in video memory
    var state: nat                      // the layer to draw next
    var visible: nat                    // the layer on the panel
    ghost var calls: nat
    ghost var disturbed: bool           // the visible layer was drawn on in the last call
    ghost var times: seq<u32>           // the clock in the last call, cell by cell

    ghost predicate Valid()
      reads this, cache, fb
    {
      && |tiles| == 256 && state < 2
      && cache.Length0 == 2 && cache.Length1 == DISPLAY_COLS && fb.Length0 == 2 && fb.Length1 == DISPLAY_COLS
      && (forall b, i :: 0 <= b < 2 && 0 <= i < DISPLAY_COLS ==> Shows(tiles, fb[b, i], cache[b, i]))
      && (calls > 0 ==> visible == 1 - state) && |times| == DISPLAY_COLS
    }

    /** init_theme, after clear_display; the panel may show either layer. */
    constructor (tiles: seq<nat>, visible: nat)
      requires |tiles| == 256
      ensures Valid() && this.tiles == tiles && calls == 0 && state == 0 && fresh(cache) && fresh(fb)
    {
      this.tiles := tiles;
      this.visible := visible;
      state, calls, disturbed, times := 0, 0, false, seq(DISPLAY_COLS, i => 0);
      cache := new Cell[2, DISPLAY_COLS]((b, i) => EMPTY_CELL);
      fb := new Picture[2, DISPLAY_COLS]((b, i) => Cleared);
    }

    /** Copy a character tile and its overlays into a cell of a layer. */
    method DrawCell(layer: nat, i: nat, tile: nat, flags: bv8)
      requires layer < fb.Length0 && i < fb.Length1
      modifies fb, this`disturbed
      ensures fb[layer, i] == Drawn(tile, Overlays(flags, OVERLAY_COUNT))
      ensures forall b, j :: 0 <= b < fb.Length0 && 0 <= j < fb.Length1 && (b, j) != (layer, i) ==>
                fb[b, j] == old(fb[b, j])
      ensures disturbed == (old(disturbed) || layer == visible)
    {
      disturbed := disturbed || layer == visible;
      fb[layer, i] := Drawn(tile, {});
      for o := 0 to OVERLAY_COUNT
        invariant fb[layer, i] == Drawn(tile, Overlays(flags, o)) && disturbed == (old(disturbed) || layer == visible)
        invariant forall b, j :: 0 <= b < fb.Length0 && 0 <= j < fb.Length1 && (b, j) != (layer, i) ==>
                    fb[b, j] == old(fb[b, j])
      {
        if HasOverlay(flags, o) {
          fb[layer, i] := Drawn(tile, fb[layer, i].overlays + {o});
        }
      }
    }

    /** Redraw one cell of the next layer if the cache does not vouch for it; a blinking cell always. */
    method RefreshCell(i: nat, cell: Cell, force: bool, t: u32)
      requires Valid() && i < DISPLAY_COLS
      modifies cache, fb, this`disturbed
      ensures Valid() && cache[state, i] == cell && ShownAt(tiles, fb[state, i], cell, t)
      ensures force || cell.blink ==> fb[state, i] == PictureOf(tiles, cell, t)
      ensures forall b, j :: 0 <= b < 2 && 0 <= j < DISPLAY_COLS && (b, j) != (state, i) ==>
                fb[b, j] == old(fb[b, j]) && cache[b, j] == old(cache[b, j])
      ensures disturbed ==> old(disturbed) || state == visible
    {
      if force || cell.c != cache[state, i].c || cell.flags != cache[state, i].flags
         || cell.blink || cache[state, i].blink
      {
        cache[state, i] := cell;
        var tile := TileOf(tiles, cache[state, i].c);
        if cell.blink {
          if t / 100000 % 2 == 1 {
            tile := TileOf(tiles, ' ');
          }
        }
        DrawCell(state, i, tile, cache[state, i].flags);
      }
    }

    /** update_display. After the call the layer on the panel shows the new cells as a full redraw would
        at the times read; only the other layer was drawn on, and from the second call on it was not
        visible. */
    method UpdateDisplay(newState: array<Cell>, force: bool, clock: seq<u32>)
      requires Valid() && newState.Length == DISPLAY_COLS && |clock| == DISPLAY_COLS
      modifies this`state, this`visible, this`calls, this`disturbed, this`times, cache, fb
      ensures Valid() && visible == old(state) && state == 1 - old(state) && calls == old(calls) + 1 && times == clock
      ensures forall i :: 0 <= i < DISPLAY_COLS ==> ShownAt(tiles, fb[visible, i], newState[i], clock[i])
      ensures forall i :: 0 <= i < DISPLAY_COLS && (force || newState[i].blink) ==>
                fb[visible, i] == PictureOf(tiles, newState[i], clock[i])
      ensures forall b, i :: 0 <= b < 2 && b != visible && 0 <= i < DISPLAY_COLS ==> fb[b, i] == old(fb[b, i])
      ensures old(calls) > 0 ==> !disturbed && old(visible) != visible
    {
      hide PictureOf, Shows, ShownAt;
      disturbed := false;
      for i := 0 to DISPLAY_COLS
        invariant Valid() && state == old(state) && visible == old(visible) && calls == old(calls)
        invariant forall j :: 0 <= j < i ==> cache[state, j] == newState[j]
        invariant forall j :: 0 <= j < i ==> ShownAt(tiles, fb[state, j], newState[j], clock[j])
        invariant forall j :: 0 <= j < i && (force || newState[j].blink) ==>
                    fb[state, j] == PictureOf(tiles, newState[j], clock[j])
        invariant forall b, j :: 0 <= b < 2 && b != state && 0 <= j < DISPLAY_COLS ==> fb[b, j] == old(fb[b, j])
        invariant old(calls) > 0 ==> !disturbed
      {
        RefreshCell(i, newState[i], force, clock[i]);
      }
      visible := state;
      state := if state == 0 then 1 else 0;
      calls := calls + 1;
      times := clock;
    }
  }
}
