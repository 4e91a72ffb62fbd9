/**
 Map assembly: each metatile index of a level's block stream names four
 8x8 tiles, one per quadrant table, and a cursor walks the map so that each
 metatile's quadrants land in a 2x2 square. Sixteen metatiles make a row of
 a 32x32-tile screen, sixteen rows make the screen, `verticalSlices`
 screens make a band, and bands stack downwards.
 */
module MapAssembly {
  import opened Results
  import opened Banks
  import Arithmetic
  import Catalog

  /**
   The VRAM tile slot a tile number refers to: numbers above 0x7F are
   reduced modulo 0x80 and the others are moved up by 0x80. The slot always
   exists, keeps the low seven bits, and has bit 7 set exactly when the
   number is below 0x80.
   */
  function Slot(tile: nat): (s: nat)
    ensures s < 256
    ensures s % 0x80 == tile % 0x80
    ensures s >= 0x80 <==> tile < 0x80
  {
    if tile > 0x7F then tile % 0x80 else tile + 0x80
  }

  /** For a byte, the slot is the byte with bit 7 flipped. */
  lemma SlotIsXor(tile: bv8)
    ensures Slot(tile as int) == (tile ^ 0x80) as int
  {
  }

  /** On bytes, the mapping is its own inverse. */
  lemma SlotInvolution(tile: byte)
    ensures Slot(Slot(tile)) == tile
  {
  }

  lemma SlotExamples()
    ensures Slot(0x05) == 0x85 && Slot(0x90) == 0x10 && Slot(0x100) == 0x00
  {
  }

  /** `Array.prototype.slice(begin, end)` for bounds that are not negative: both are clamped to the array. */
  function Slice(s: seq<nat>, begin: nat, end: nat): (r: seq<nat>)
    ensures end <= |s| && begin <= end ==> r == s[begin..end]
    ensures end <= begin || |s| <= begin ==> r == []
  {
    var b := if begin <= |s| then begin else |s|;
    var e := if end <= |s| then end else |s|;
    if e <= b then [] else s[b..e]
  }

  /** Entry `number` of a quadrant table; a number past the table is JavaScript's `undefined`. */
  function Lookup(layer: seq<Option<nat>>, number: nat): Option<nat> {
    if number < |layer| then layer[number] else None
  }

  /**
   The 16 bytes of the tile that entry `number` of a quadrant table names. An
   undefined entry ends up as `slice(NaN, NaN)`, which is empty.
   */
  function GetTiles(data: seq<nat>, layer: seq<Option<nat>>, number: nat): (r: seq<nat>)
    ensures Lookup(layer, number).None? ==> r == []
    ensures Lookup(layer, number).Some? && |data| >= 0x1000 ==>
              var s := Slot(Lookup(layer, number).value);
              |r| == 16 && r == data[s * 16..s * 16 + 16]
  {
    match Lookup(layer, number)
    case None => []
    case Some(tile) => Slice(data, Slot(tile) * 16, Slot(tile) * 16 + 16)
  }

  /** The cursor of the map walk, in tile units. */
  datatype Cursor = Cursor(x: nat, y: nat, oldX: nat, oldY: nat, verticalSlice: nat, horizontalSlice: nat)

  const Start: Cursor := Cursor(0, 0, 0, 0, 0, 0)

  /**
   Moves the cursor past one metatile: two tiles right; at the right edge of
   the screen back to its left edge and two tiles down; at the bottom of the
   screen on to the next screen of the band; after the last screen of the
   band to the left edge of the next band.
   */
  function Step(c: Cursor, verticalSlices: nat): Cursor {
    var x := c.x + 2;
    var (x, y) := if x % 32 == 0 then (c.oldX, c.y + 2) else (x, c.y);
    var (x, y, oldX, slice) :=
      if x % 32 == 0 && y % 32 == 0 then (x + 32, c.oldY, x + 32, c.verticalSlice + 1)
      else (x, y, c.oldX, c.verticalSlice);
    if slice >= verticalSlices then Cursor(0, y + 32, 0, y + 32, 0, c.horizontalSlice + 1)
    else Cursor(x, y, oldX, c.oldY, slice, c.horizontalSlice)
  }

  /** All four coordinates of the cursor are even. */
  predicate Even(c: Cursor) {
    c.x % 2 == 0 && c.y % 2 == 0 && c.oldX % 2 == 0 && c.oldY % 2 == 0
  }

  /**
   A step keeps the cursor on even tiles and the screen index below
   `verticalSlices`; the band counter moves on by at most one, and when it
   does the cursor is back at the left edge of the band's first screen.
   */
  lemma StepKeeps(c: Cursor, verticalSlices: nat)
    ensures Even(c) ==> Even(Step(c, verticalSlices))
    ensures verticalSlices >= 1 ==> Step(c, verticalSlices).verticalSlice < verticalSlices
    ensures var r := Step(c, verticalSlices);
      r.horizontalSlice == c.horizontalSlice || r.horizontalSlice == c.horizontalSlice + 1
    ensures var r := Step(c, verticalSlices);
      r.horizontalSlice != c.horizontalSlice ==> r.x == 0 && r.oldX == 0 && r.verticalSlice == 0
  {
    if Even(c) {
      var x := c.x + 2;
      assert x % 2 == 0 && (c.y + 2) % 2 == 0;
      assert (x + 32) % 2 == 0 && (c.oldX + 32) % 2 == 0;
      assert (c.y + 2 + 32) % 2 == 0 && (c.y + 32) % 2 == 0;
    }
  }

  /** The cursor when metatile `m` is placed. */
  function CursorAt(m: nat, verticalSlices: nat): (c: Cursor)
    ensures Even(c)
    ensures verticalSlices >= 1 ==> c.verticalSlice < verticalSlices
    ensures c.horizontalSlice <= m
  {
    if m == 0 then Start
    else
      var previous := CursorAt(m - 1, verticalSlices);
      StepKeeps(previous, verticalSlices);
      Step(previous, verticalSlices)
  }

  /** The cursor stays on even tiles inside the current 32x32 screen, which is screen `verticalSlice` of its band. */
  predicate Invariant(c: Cursor, verticalSlices: nat) {
    c.oldX % 32 == 0 && c.oldY % 32 == 0 && c.x % 2 == 0 && c.y % 2 == 0 &&
    c.oldX <= c.x < c.oldX + 32 && c.oldY <= c.y < c.oldY + 32 &&
    c.verticalSlice < verticalSlices && c.oldX == 32 * c.verticalSlice
  }

  /** The cursor at column `col` and row `row` of screen `slice` of band `band`. */
  function Pos(col: nat, row: nat, slice: nat, band: nat): Cursor {
    Cursor(32 * slice + 2 * col, 32 * band + 2 * row, 32 * slice, 32 * band, slice, band)
  }

  /** One step moves the cursor on like an odometer: column, row, screen, band. */
  lemma StepPos(col: nat, row: nat, slice: nat, band: nat, verticalSlices: nat)
    requires col < 16 && row < 16 && slice < verticalSlices
    ensures Step(Pos(col, row, slice, band), verticalSlices) ==
              if col < 15 then Pos(col + 1, row, slice, band)
              else if row < 15 then Pos(0, row + 1, slice, band)
              else if slice + 1 < verticalSlices then Pos(0, 0, slice + 1, band)
              else Pos(0, 0, 0, band + 1)
  {
    var c := Pos(col, row, slice, band);
    Arithmetic.DivModUnique(32 * slice, 32, slice, 0);
    Arithmetic.DivModUnique(32 * band, 32, band, 0);
    if col < 15 {
      Arithmetic.DivModUnique(c.x + 2, 32, slice, 2 * col + 2);
    } else {
      Arithmetic.DivModUnique(c.x + 2, 32, slice + 1, 0);
      if row < 15 {
        Arithmetic.DivModUnique(c.y + 2, 32, band, 2 * row + 2);
      } else {
        Arithmetic.DivModUnique(c.y + 2, 32, band + 1, 0);
      }
    }
  }

  /**
   Where metatile `m` goes, in closed form: screen `m / 256` counted along
   bands of `verticalSlices` screens, row `(m / 16) % 16` of the screen and
   column `m % 16` of the row, each metatile two tiles square.
   */
  function Closed(m: nat, verticalSlices: nat): (c: Cursor)
    requires verticalSlices >= 1
  {
    var screen: nat := m / 16 / 16;
    var slice: nat := screen % verticalSlices;
    var band: nat := screen / verticalSlices;
    Pos(m % 16, m / 16 % 16, slice, band)
  }

  lemma StepClosed(m: nat, verticalSlices: nat)
    requires verticalSlices >= 1
    ensures Step(Closed(m, verticalSlices), verticalSlices) == Closed(m + 1, verticalSlices)
  {
    var row := m / 16;
    var screen := row / 16;
    StepPos(m % 16, row % 16, screen % verticalSlices, screen / verticalSlices, verticalSlices);
    if m % 16 < 15 {
      NextInRow(m, row, screen, verticalSlices);
    } else if row % 16 < 15 {
      NextRow(m, row, screen, verticalSlices);
    } else {
      NextScreen(m, row, screen, verticalSlices);
    }
  }

  /** The metatile after one that is not last in its row is in the same row. */
  lemma NextInRow(m: nat, row: nat, screen: nat, verticalSlices: nat)
    requires verticalSlices >= 1 && row == m / 16 && screen == row / 16 && m % 16 < 15
    ensures Closed(m + 1, verticalSlices) == Pos(m % 16 + 1, row % 16, screen % verticalSlices, screen / verticalSlices)
  {
    Arithmetic.DivModStep(m, 16);
  }

  /** The metatile after the last of a row that is not the last row starts the next row. */
  lemma NextRow(m: nat, row: nat, screen: nat, verticalSlices: nat)
    requires verticalSlices >= 1 && row == m / 16 && screen == row / 16 && m % 16 == 15 && row % 16 < 15
    ensures Closed(m + 1, verticalSlices) == Pos(0, row % 16 + 1, screen % verticalSlices, screen / verticalSlices)
  {
    Arithmetic.DivModStep(m, 16);
    Arithmetic.DivModStep(row, 16);
  }

  /** The metatile after the last of a screen starts the next screen, or the next band. */
  lemma NextScreen(m: nat, row: nat, screen: nat, verticalSlices: nat)
    requires verticalSlices >= 1 && row == m / 16 && screen == row / 16 && m % 16 == 15 && row % 16 == 15
    ensures Closed(m + 1, verticalSlices) ==
              if screen % verticalSlices + 1 < verticalSlices then Pos(0, 0, screen % verticalSlices + 1, screen / verticalSlices)
              else Pos(0, 0, 0, screen / verticalSlices + 1)
  {
    Arithmetic.DivModStep(m, 16);
    Arithmetic.DivModStep(row, 16);
    Arithmetic.DivModStep(screen, verticalSlices);
  }

  /** The walk agrees with the closed form at every metatile. */
  lemma {:induction false} CursorIsClosed(m: nat, verticalSlices: nat)
    requires verticalSlices >= 1
    ensures CursorAt(m, verticalSlices) == Closed(m, verticalSlices)
  {
    if m > 0 {
      var previous := CursorAt(m - 1, verticalSlices);
      assert CursorAt(m, verticalSlices) == Step(previous, verticalSlices);
      CursorIsClosed(m - 1, verticalSlices);
      StepClosed(m - 1, verticalSlices);
    }
  }

  /** In closed form the cursor satisfies the invariant. */
  lemma PosInvariant(col: nat, row: nat, slice: nat, band: nat, verticalSlices: nat)
    requires col < 16 && row < 16 && slice < verticalSlices
    ensures Invariant(Pos(col, row, slice, band), verticalSlices)
  {
    Arithmetic.DivModUnique(32 * slice, 32, slice, 0);
    Arithmetic.DivModUnique(32 * band, 32, band, 0);
    Arithmetic.DivModUnique(32 * slice + 2 * col, 2, 16 * slice + col, 0);
    Arithmetic.DivModUnique(32 * band + 2 * row, 2, 16 * band + row, 0);
  }

  /** Whenever a metatile is placed, the cursor satisfies the invariant. */
  lemma InvariantHolds(m: nat, verticalSlices: nat)
    requires verticalSlices >= 1
    ensures Invariant(CursorAt(m, verticalSlices), verticalSlices)
  {
    CursorIsClosed(m, verticalSlices);
    var screen := m / 16 / 16;
    PosInvariant(m % 16, m / 16 % 16, screen % verticalSlices, screen / verticalSlices, verticalSlices);
  }

  /** With no vertical slices at all, every metatile starts a new band at the left edge. */
  lemma {:induction false} NoSlicesStacks(m: nat)
    ensures CursorAt(m, 0) == Cursor(0, 32 * m, 0, 32 * m, 0, m)
  {
    if m > 0 {
      NoSlicesStacks(m - 1);
    }
  }

  /** One plotted tile: its 16 bytes and its tile coordinates. */
  datatype Placement = Placement(tile: seq<nat>, x: nat, y: nat)

  /**
   Placement `j` of a level: quadrant `j % 4` of metatile `j / 4`, at offset
   (`q % 2`, `q / 2`) from the cursor, so top left, top right, bottom left,
   bottom right.
   */
  function PlacementOf(level: Catalog.Level, j: nat): (p: Placement)
    requires j < 4 * |level.blocks| && |level.assets.tiles.layers| >= 4
    ensures p.x % 2 == j % 2 && p.y % 2 == j % 4 / 2
    ensures |level.assets.tiles.data| >= 0x1000 ==> |p.tile| == 16 || p.tile == []
  {
    var m, q := j / 4, j % 4;
    var c := CursorAt(m, level.verticalSlices);
    var tiles := level.assets.tiles;
    QuadrantParity(c.x, c.y, j);
    Placement(GetTiles(tiles.data, tiles.layers[q], level.blocks[m]), c.x + q % 2, c.y + q / 2)
  }

  /** Quadrant `j % 4` sits at the parity its position in the square gives it. */
  lemma QuadrantParity(x: nat, y: nat, j: nat)
    requires x % 2 == 0 && y % 2 == 0
    ensures (x + j % 4 % 2) % 2 == j % 2 && (y + j % 4 / 2) % 2 == j % 4 / 2
  {
    var m, q := j / 4, j % 4;
    assert j == 4 * m + q;
    assert j % 2 == q % 2 by {
      Arithmetic.DivModUnique(j, 2, 2 * m + q / 2, q % 2);
    }
  }

  /**
   Places every metatile of a level. A level with blocks but fewer than four
   quadrant tables fails as the source's `layer[q][number]` read would.
   */
  method RenderLevel(level: Catalog.Level) returns (r: Result<seq<Placement>>)
    ensures r.Failure? <==> |level.blocks| > 0 && |level.assets.tiles.layers| < 4
    ensures r.Success? ==> |r.value| == 4 * |level.blocks|
    ensures r.Success? ==> forall j :: 0 <= j < |r.value| ==> r.value[j] == PlacementOf(level, j)
  {
    var tiles := level.assets.tiles;
    if |level.blocks| > 0 && |tiles.layers| < 4 {
      return Failure(OutOfRange(|tiles.layers|));
    }
    if |level.blocks| == 0 {
      return Success([]);
    }
    var placed: seq<Placement> := [];
    var c := Start;
    var i := 0;
    while i < |level.blocks|
      invariant 0 <= i <= |level.blocks|
      invariant c == CursorAt(i, level.verticalSlices)
      invariant |placed| == 4 * i
      invariant forall j :: 0 <= j < |placed| ==> placed[j] == PlacementOf(level, j)
    {
      var square := Square(level, i, c);
      Extend(level, placed, square, i);
      placed := placed + square;
      c := Step(c, level.verticalSlices);
      i := i + 1;
    }
    return Success(placed);
  }

  /** The four placements of metatile `i`, with the cursor at `c`. */
  function Square(level: Catalog.Level, i: nat, c: Cursor): (s: seq<Placement>)
    requires i < |level.blocks| && |level.assets.tiles.layers| >= 4
    requires c == CursorAt(i, level.verticalSlices)
    ensures |s| == 4 && forall q :: 0 <= q < 4 ==> s[q] == PlacementOf(level, 4 * i + q)
  {
    var tiles, b := level.assets.tiles, level.blocks[i];
    var s := [Placement(GetTiles(tiles.data, tiles.layers[0], b), c.x, c.y),
              Placement(GetTiles(tiles.data, tiles.layers[1], b), c.x + 1, c.y),
              Placement(GetTiles(tiles.data, tiles.layers[2], b), c.x, c.y + 1),
              Placement(GetTiles(tiles.data, tiles.layers[3], b), c.x + 1, c.y + 1)];
    assert forall q :: 0 <= q < 4 ==> s[q] == PlacementOf(level, 4 * i + q) by {
      forall q | 0 <= q < 4
        ensures s[q] == PlacementOf(level, 4 * i + q)
      {
        QuadrantPlacement(level, i, c, q);
        if q == 0 {
          assert s[q] == Placement(GetTiles(tiles.data, tiles.layers[q], b), c.x + q % 2, c.y + q / 2);
        } else if q == 1 {
          assert s[q] == Placement(GetTiles(tiles.data, tiles.layers[q], b), c.x + q % 2, c.y + q / 2);
        } else if q == 2 {
          assert s[q] == Placement(GetTiles(tiles.data, tiles.layers[q], b), c.x + q % 2, c.y + q / 2);
        } else {
          assert s[q] == Placement(GetTiles(tiles.data, tiles.layers[q], b), c.x + q % 2, c.y + q / 2);
        }
      }
    }
    s
  }

  /** Placement `4i + q` is quadrant `q` of metatile `i`, at its offset from the cursor. */
  lemma QuadrantPlacement(level: Catalog.Level, i: nat, c: Cursor, q: nat)
    requires i < |level.blocks| && |level.assets.tiles.layers| >= 4 && q < 4
    requires c == CursorAt(i, level.verticalSlices)
    ensures var tiles := level.assets.tiles;
      PlacementOf(level, 4 * i + q) ==
        Placement(GetTiles(tiles.data, tiles.layers[q], level.blocks[i]), c.x + q % 2, c.y + q / 2)
  {
    QuadrantOf(i, q);
  }

  lemma QuadrantOf(i: nat, q: nat)
    requires q < 4
    ensures (4 * i + q) / 4 == i && (4 * i + q) % 4 == q
  {
    Arithmetic.DivModUnique(4 * i + q, 4, i, q);
  }

  lemma Extend(level: Catalog.Level, placed: seq<Placement>, square: seq<Placement>, i: nat)
    requires i < |level.blocks| && |level.assets.tiles.layers| >= 4
    requires |placed| == 4 * i && |square| == 4
    requires forall j :: 0 <= j < |placed| ==> placed[j] == PlacementOf(level, j)
    requires forall q :: 0 <= q < 4 ==> square[q] == PlacementOf(level, 4 * i + q)
    ensures forall j :: 0 <= j < |placed + square| ==> (placed + square)[j] == PlacementOf(level, j)
  {
    forall j | 0 <= j < |placed + square|
      ensures (placed + square)[j] == PlacementOf(level, j)
    {
      if j >= |placed| {
        assert (placed + square)[j] == square[j - 4 * i];
      }
    }
  }

  /**
   The source's `render`: a missing or empty level list, or an index
   outside it, is rejected before anything is placed.
   */
  method Render(levels: Option<seq<Catalog.Level>>, index: int) returns (r: Result<seq<Placement>>)
    ensures (levels.None? || |levels.value| == 0) ==> r == Failure(NoLevels)
    ensures levels.Some? && |levels.value| > 0 && !(0 <= index < |levels.value|) ==> r == Failure(UnknownLevel(index))
    ensures levels.Some? && 0 <= index < |levels.value| ==>
              var level := levels.value[index];
              (r.Success? <==> |level.blocks| == 0 || |level.assets.tiles.layers| >= 4) &&
              (r.Success? ==>
                 |r.value| == 4 * |level.blocks| &&
                 forall j :: 0 <= j < |r.value| ==> r.value[j] == PlacementOf(level, j))
  {
    if levels.None? || |levels.value| == 0 {
      return Failure(NoLevels);
    }
    if index >= |levels.value| || index < 0 {
      return Failure(UnknownLevel(index));
    }
    r := RenderLevel(levels.value[index]);
  }
}
