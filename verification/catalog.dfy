/**
 The level catalog: the pointer table of the 177 levels, each level's fixed
 header, and the tile assets a header points to. Every multi-byte pointer is
 a little-endian bank-relative offset followed by its bank byte.
 */
module Catalog {
  import opened Results
  import opened Banks
  import Hal
  import Vram

  datatype Geometry = Geometry(left: byte, top: byte, right: byte, bottom: byte)

  /** The tile graphics of a level and the four quadrant tables that index them. */
  datatype Tiles = Tiles(
    address: nat,
    bank: byte,
    vram: nat,                              // the tile-addressing mode, 0x8000 or 0x8800
    data: seq<nat>,                         // the padded and overlaid VRAM window
    chunkSize: byte,
    translation: seq<nat>,
    layers: seq<seq<Option<nat>>>)

  datatype Assets = Assets(address: nat, bank: byte, tiles: Tiles)

  datatype Level = Level(
    address: nat,
    bank: byte,
    verticalSlices: byte,
    horizontalSlices: byte,
    geometry: Geometry,
    assets: Assets,
    blocks: seq<nat>)                       // the decompressed metatile indices, in map order

  /** The number of levels in the pointer table. */
  const LevelCount: nat := 177

  /** The first entry of the pointer table, one byte past `calculateAddress(0x511F, 8)`. */
  const TableBase: nat := 0x21120

  lemma TableBaseFollowsLevelTable()
    ensures TableBase == CalculateAddress(0x511F, 8) + 1
  {
  }

  /**
   Reads an asset block at `address` in `bank`: a tile pointer, then the
   VRAM control byte and the compressed tiles at the tile pointer, then the
   chunk size and the compressed translation stream after the tile pointer.
   */
  function ParseAssets(rom: seq<byte>, address: nat, bank: byte): (r: Result<Assets>)
    ensures r.Success? ==>
              |r.value.tiles.data| >= 0x1000 &&
              forall i :: 0xFD0 <= i < 0x1000 ==> r.value.tiles.data[i] == Vram.FillByte(i)
    ensures r.Success? ==>
              var a := CalculateAddress(address, bank);
              a + 3 < |rom| &&
              var t := CalculateAddress(ByteSwap(rom[a], rom[a + 1]), rom[a + 2]);
              t < |rom| &&
              var tiles := r.value.tiles;
              var start := Vram.VramStart(rom[t]);
              var pixels := Hal.Decompress(rom, t + 1);
              r.value.address == address && r.value.bank == bank &&
              tiles.address == ByteSwap(rom[a], rom[a + 1]) && tiles.bank == rom[a + 2] &&
              (tiles.vram == 0x8000 <==> rom[t] >= 0xE4) &&
              tiles.vram == Vram.TileMode(start) &&
              pixels.Success? && start - tiles.vram + |pixels.value| <= Vram.WindowLength(tiles.vram) &&
              |tiles.data| == Vram.WindowLength(tiles.vram) &&
              (forall i :: 0 <= i < |tiles.data| && !(0xFD0 <= i < 0x1000) ==>
                 Vram.PaddedAt(tiles.data, pixels.value, start, tiles.vram, i)) &&
              tiles.chunkSize == rom[a + 3] &&
              Hal.Decompress(rom, a + 4) == Success(tiles.translation) &&
              tiles.layers == Vram.SplitLayers(tiles.translation, rom[a + 3])
  {
    var a := CalculateAddress(address, bank);
    var lo :- At(rom, a);
    var hi :- At(rom, a + 1);
    var tileBank :- At(rom, a + 2);
    var tileAddress := ByteSwap(lo, hi);
    var t := CalculateAddress(tileAddress, tileBank);
    var control :- At(rom, t);
    var start := Vram.VramStart(control);
    var mode := Vram.TileMode(start);
    Vram.ModeOfControl(control);
    var pixels :- Hal.Decompress(rom, t + 1);
    var padded :- Vram.Pad(pixels, start, mode);
    var data := Vram.Overlay(padded);
    PaddingSurvivesOverlay(padded, data, pixels, start, mode);
    FillSlots(padded, data);
    var chunk :- At(rom, a + 3);
    var translation :- Hal.Decompress(rom, a + 4);
    var layers := Vram.SplitLayers(translation, chunk);
    Success(Assets(address, bank, Tiles(tileAddress, tileBank, mode, data, chunk, translation, layers)))
  }

  /** Outside the three fill tiles the overlaid window is still the padded one. */
  lemma PaddingSurvivesOverlay(padded: seq<nat>, data: seq<nat>, pixels: seq<nat>, start: nat, mode: nat)
    requires mode <= start && |padded| >= 0x1000
    requires forall i :: 0 <= i < |padded| ==> Vram.PaddedAt(padded, pixels, start, mode, i)
    requires data == Vram.Overlay(padded)
    ensures |data| == |padded|
    ensures forall i :: 0 <= i < |data| && !(0xFD0 <= i < 0x1000) ==> Vram.PaddedAt(data, pixels, start, mode, i)
  {
    forall i | 0 <= i < |data| && !(0xFD0 <= i < 0x1000)
      ensures Vram.PaddedAt(data, pixels, start, mode, i)
    {
      assert data[i] == padded[i];
      assert Vram.PaddedAt(padded, pixels, start, mode, i);
    }
  }

  /**
   Parsing an asset block succeeds exactly when its four bytes and the
   control byte are in the ROM, both streams decompress, and the tiles fit
   in the window.
   */
  lemma AssetsParse(rom: seq<byte>, address: nat, bank: byte)
    ensures var a := CalculateAddress(address, bank);
      ParseAssets(rom, address, bank).Success? <==>
        a + 3 < |rom| &&
        var t := CalculateAddress(ByteSwap(rom[a], rom[a + 1]), rom[a + 2]);
        t < |rom| &&
        var start := Vram.VramStart(rom[t]);
        var pixels := Hal.Decompress(rom, t + 1);
        pixels.Success? &&
        start - Vram.TileMode(start) + |pixels.value| <= Vram.WindowLength(Vram.TileMode(start)) &&
        Hal.Decompress(rom, a + 4).Success?
  {
  }

  /** Tile slots 0xFD, 0xFE and 0xFF of the overlaid window hold the three fill tiles. */
  lemma FillSlots(padded: seq<nat>, data: seq<nat>)
    requires |padded| >= 0x1000 && data == Vram.Overlay(padded)
    ensures |data| >= 0x1000
    ensures forall i :: 0xFD0 <= i < 0x1000 ==> data[i] == Vram.FillByte(i)
  {
    forall i | 0xFD0 <= i < 0x1000
      ensures data[i] == Vram.FillByte(i)
    {
      assert data[i] == Vram.OverlayByte(padded, i);
    }
  }

  /**
   Reads the level header at `address` in `bank`: the slice counts, the
   geometry, the asset pointer at offset 6 with its bank at offset 8, and
   the compressed metatile stream at offset 16.
   */
  function ParseLevel(rom: seq<byte>, address: nat, bank: byte): (r: Result<Level>)
    ensures var h := CalculateAddress(address, bank);
      r.Success? <==>
        h + 8 < |rom| &&
        ParseAssets(rom, ByteSwap(rom[h + 6], rom[h + 7]), rom[h + 8]).Success? &&
        Hal.Decompress(rom, h + 16).Success?
    ensures r.Success? ==>
              var h := CalculateAddress(address, bank);
              h + 8 < |rom| &&
              r.value.address == address && r.value.bank == bank &&
              r.value.verticalSlices == rom[h] && r.value.horizontalSlices == rom[h + 1] &&
              r.value.geometry == Geometry(rom[h + 2], rom[h + 3], rom[h + 4], rom[h + 5]) &&
              Success(r.value.assets) == ParseAssets(rom, ByteSwap(rom[h + 6], rom[h + 7]), rom[h + 8]) &&
              Success(r.value.blocks) == Hal.Decompress(rom, h + 16)
  {
    var h := CalculateAddress(address, bank);
    var vertical :- At(rom, h);
    var horizontal :- At(rom, h + 1);
    var left :- At(rom, h + 2);
    var top :- At(rom, h + 3);
    var right :- At(rom, h + 4);
    var bottom :- At(rom, h + 5);
    var assetLo :- At(rom, h + 6);
    var assetHi :- At(rom, h + 7);
    var assetBank :- At(rom, h + 8);
    var assets :- ParseAssets(rom, ByteSwap(assetLo, assetHi), assetBank);
    // The object table (3 bytes), the door table (3 bytes) and one unknown byte are skipped.
    var blocks :- Hal.Decompress(rom, h + 16);
    Success(Level(address, bank, vertical, horizontal, Geometry(left, top, right, bottom), assets, blocks))
  }

  /** Reads pointer-table entry `k`: a little-endian header offset and its bank. */
  function ReadEntry(rom: seq<byte>, k: nat): (r: Result<(nat, byte)>)
    ensures r.Success? <==> TableBase + 3 * k + 2 < |rom|
    ensures r.Success? ==> r.value.0 == ByteSwap(rom[TableBase + 3 * k], rom[TableBase + 3 * k + 1])
    ensures r.Success? ==> r.value.1 == rom[TableBase + 3 * k + 2]
  {
    var p := TableBase + 3 * k;
    var lsb :- At(rom, p);
    var msb :- At(rom, p + 1);
    var bank :- At(rom, p + 2);
    Success((ByteSwap(lsb, msb), bank))
  }

  /** Entry `k` of the pointer table is readable and so is the level it points to. */
  predicate EntryParses(rom: seq<byte>, k: nat) {
    var e := ReadEntry(rom, k);
    e.Success? && ParseLevel(rom, e.value.0, e.value.1).Success?
  }

  /** `level` is what entry `k` of the pointer table describes. */
  predicate IsEntry(rom: seq<byte>, k: nat, level: Level) {
    var e := ReadEntry(rom, k);
    e.Success? && ParseLevel(rom, e.value.0, e.value.1) == Success(level)
  }

  /** The first `n` levels of the table, read and parsed in table order. */
  function ParseTable(rom: seq<byte>, n: nat): (r: Result<seq<Level>>)
    ensures r.Success? <==> forall k :: 0 <= k < n ==> EntryParses(rom, k)
    ensures r.Success? ==> |r.value| == n && forall k :: 0 <= k < n ==> IsEntry(rom, k, r.value[k])
  {
    if n == 0 then Success([])
    else
      var previous := ParseTable(rom, n - 1);
      if previous.Failure? then
        Failure(previous.error)
      else
        var entry := ReadEntry(rom, n - 1);
        if entry.Failure? then
          assert !EntryParses(rom, n - 1);
          Failure(entry.error)
        else
          var level := ParseLevel(rom, entry.value.0, entry.value.1);
          if level.Failure? then
            assert !EntryParses(rom, n - 1);
            Failure(level.error)
          else
            AppendEntry(rom, n - 1, previous.value, level.value);
            Success(previous.value + [level.value])
  }

  lemma AppendEntry(rom: seq<byte>, n: nat, previous: seq<Level>, level: Level)
    requires |previous| == n && forall k :: 0 <= k < n ==> IsEntry(rom, k, previous[k])
    requires IsEntry(rom, n, level)
    ensures forall k :: 0 <= k < n + 1 ==> IsEntry(rom, k, (previous + [level])[k])
    ensures forall k :: 0 <= k < n + 1 ==> EntryParses(rom, k)
  {
    forall k | 0 <= k < n + 1
      ensures IsEntry(rom, k, (previous + [level])[k]) && EntryParses(rom, k)
    {
      if k < n {
        assert (previous + [level])[k] == previous[k];
      }
    }
  }

  /**
   The source's `parseROM`: all 177 levels. Level `k` takes its header
   pointer from bytes `3k` and `3k + 1` of the table and its bank from byte `3k + 2`.
   */
  function ParseRom(rom: seq<byte>): (r: Result<seq<Level>>)
    ensures r.Success? <==> forall k :: 0 <= k < LevelCount ==> EntryParses(rom, k)
    ensures r.Success? ==> |r.value| == LevelCount
    ensures r.Success? ==> forall k :: 0 <= k < LevelCount ==> IsEntry(rom, k, r.value[k])
    ensures r.Success? ==> forall k :: 0 <= k < LevelCount ==>
              TableBase + 3 * k + 2 < |rom| &&
              r.value[k].address == ByteSwap(rom[TableBase + 3 * k], rom[TableBase + 3 * k + 1]) &&
              r.value[k].bank == rom[TableBase + 3 * k + 2]
  {
    var levels := ParseTable(rom, LevelCount);
    if levels.Success? then
      EntriesLayout(rom, levels.value);
      levels
    else
      levels
  }

  lemma EntriesLayout(rom: seq<byte>, levels: seq<Level>)
    requires |levels| == LevelCount && forall k :: 0 <= k < LevelCount ==> IsEntry(rom, k, levels[k])
    ensures forall k :: 0 <= k < LevelCount ==>
              TableBase + 3 * k + 2 < |rom| &&
              levels[k].address == ByteSwap(rom[TableBase + 3 * k], rom[TableBase + 3 * k + 1]) &&
              levels[k].bank == rom[TableBase + 3 * k + 2]
  {
    forall k | 0 <= k < LevelCount
      ensures TableBase + 3 * k + 2 < |rom|
      ensures levels[k].address == ByteSwap(rom[TableBase + 3 * k], rom[TableBase + 3 * k + 1])
      ensures levels[k].bank == rom[TableBase + 3 * k + 2]
    {
      assert IsEntry(rom, k, levels[k]);
    }
  }
}
