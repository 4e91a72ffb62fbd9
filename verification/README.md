# KDL2 ROM decoding, modelled in Dafny

This project models the decoding core of KDL2Renderer, a viewer for the maps of
the Game Boy game Kirby's Dreamland 2. From a ROM image the viewer reads a
table of 177 levels. Each level has a fixed header. The header points to tile
graphics and metatile streams, which are compressed with HAL Laboratory's
byte-opcode scheme. The viewer then lays the tiles out on a grid of 32x32-tile
screens.

The model is made of functions and heap-free methods over the ROM as a `seq<byte>`. A
JavaScript exception, or an out-of-range `getUint8`, becomes a `Failure` value.

The modules:

- `Results` holds the error, option and result types.
- `Banks` covers banked addressing (`calculateAddress`) and byte joining (`byteSwap`).
- `Procedural` covers the run-time generated lookup table (`generateProceduralData`). It proves the table is the 8-bit bit reversal.
- `Hal` is the decompressor (`decompress`). It is split into reading one operation and applying it.
- `HalEncoding` is a reference encoder used to state the decompressor's round trip, which it proves.
- `Vram` holds the VRAM simulation of `parseAssets`: the start address, the addressing mode, padding, the fill-tile overlay and the quadrant tables.
- `Catalog` holds `parseROM`, `parseLevel` and `parseAssets`.
- `MapAssembly` holds `render`: `getTiles` and the cursor that walks the map. It proves the cursor has a closed form.
- `Arithmetic` holds small division facts the proofs use.

## Model

| member | source | states |
|---|---|---|
| Banks.ByteSwap | kdl2v.js:38-40 | the joined word is below 0x10000; dividing it by 256 gives back the high byte and the remainder gives back the low byte |
| Banks.ByteSwapIsShiftOr | kdl2v.js:38-40 | `(msb << 8) \| lsb` on bytes is the same number as the arithmetic join |
| Banks.CalculateAddress | kdl2v.js:430-432 | the position lies inside the given bank; its quotient by 0x4000 is the bank and its remainder is the offset's remainder |
| Banks.MaskIsRemainder | kdl2v.js:431 | for a 16-bit offset built from two bytes, `& 0x3FFF` equals the remainder modulo the bank size |
| Banks.HighBitsIgnored | kdl2v.js:431 | offsets that differ by a multiple of 0x4000 give the same ROM position |
| Banks.LevelTableAddress | kdl2v_babel.js:213-215 | offset 0x511F of bank 8 is ROM position 0x2111F |
| Banks.At | kdl2v_babel.js:222-226 | a byte read succeeds exactly inside the ROM, returns that byte, and otherwise reports the position |
| Procedural.RrcRla | kdl2v.js:55-62 | the registers stay bytes; the index is rotated right (its old low bit becomes bit 7); `a` is shifted left with the index's old low bit coming in, and its old top bit becomes the carry |
| Procedural.OnePass | kdl2v.js:55-62 | one `rrc l` / `rla` pass rotates the index right by one bit; `a` takes the index's old low bit at the bottom and passes its own top bit to the carry |
| Procedural.InnerLoop | kdl2v.js:53-63 | the inner `for` loop leaves the registers exactly as eight `rrc l` / `rla` passes do |
| Procedural.EightPasses | kdl2v.js:53-63 | after eight passes the index is unchanged and `a` is the index read backwards, whatever `a` held before |
| Procedural.OnlyLastReversesToMax | kdl2v.js:65-71 | the reversed index is 255 exactly for index 255, so `a + 1` wraps to zero only after the last entry |
| Procedural.Table | kdl2v.js:46-74 | the table the decompressor reads through has 256 entries, each a byte; it is the bit-reversal reference the generated list is proved equal to |
| Procedural.GenerateProceduralData | kdl2v.js:46-74 | the loop yields exactly 256 bytes, and entry i is the bit reversal of i (the independent reference) |
| Procedural.TableIsInvolution | kdl2v.js:46-74 | every table entry is a byte, and looking an entry up again gives the index back, so the table is a permutation |
| Hal.High3IsMask | kdl2v.js:96 | `op & 0xE0` is the selector the model uses |
| Hal.Low5IsMask | kdl2v.js:97 | `op & 0x1F` is the count field the model uses |
| Hal.ExtendedTagIsShiftMask | kdl2v.js:103 | `(op << 3) & 0xE0` gives the same selector whether the shift is 8-bit or the 32-bit JavaScript shift: bits 2..4 of the opcode moved to bits 5..7 |
| Hal.ReadHeader | kdl2v.js:92-106 | reading the opcode fails exactly when an extended opcode is the last ROM byte; the count is 1..256, and the selector is a multiple of 32 up to 0xE0: the opcode's top three bits (`op & 0xE0`), or for an extended opcode its bits 2..4 moved up (`(op << 3) & 0xE0`); a short opcode has its operands at the next byte and a count of at most 32; an extended one takes its count from the next byte plus one |
| Hal.ReadOperands | kdl2v.js:108-181 | the operation keeps the header's count; it consumes exactly its operand bytes; it gets the header's selector when that is one of the six known ones, and the literal copy otherwise |
| Hal.OperandsRead | kdl2v.js:108-181 | each operand is the ROM byte (or big-endian byte pair, for the three copies) at the operand cursor, and a literal copy carries exactly the next count bytes; reading fails exactly when the ROM ends before the one or two operand bytes the selector needs, or before the count literal bytes |
| Hal.ReadOp | kdl2v.js:95-181 | a read operation strictly advances the cursor by the header plus operand bytes, and its count is the 5-bit field plus one or the extension byte plus one |
| Hal.Operand | kdl2v.js:112 | an operand read succeeds exactly inside the ROM and returns that byte |
| Hal.Repeat | kdl2v.js:110-115 | the output keeps the old bytes and gains n copies of the value |
| Hal.RepeatPair | kdl2v.js:117-126 | the output keeps the old bytes and gains n alternating pairs |
| Hal.Increment | kdl2v.js:128-136 | the output keeps the old bytes and gains seed, seed+1, ..., with no wrap at 0x100 |
| Hal.ForwardCopy | kdl2v.js:138-148 | the copy succeeds exactly when the first read is inside the output; each new byte equals the one `|buf| - start` places earlier |
| Hal.ForwardCopyPeriodic | kdl2v.js:138-148 | an overlapping forward copy repeats the bytes from `start` to the old end periodically |
| Hal.TableCopy | kdl2v.js:150-162 | the copy succeeds exactly when every byte read is already present and is a table index; each new byte is the table entry of the byte it read |
| Hal.BackwardCopy | kdl2v.js:164-173 | the copy succeeds exactly when the first and last reads are inside the old output; new byte k is old byte `start - k` |
| Hal.ApplyEmits | kdl2v.js:108-181 | a literal appends its bytes unchanged (the default case); each fill appends its run and each copy what its copy loop pushes; applying fails exactly when a copy of at least one byte would read a byte that is missing, or for the table copy not a table index |
| Hal.Apply | kdl2v.js:108-181 | applying an operation appends exactly the number of bytes it produces and keeps the old output |
| Hal.DecodeFrom | kdl2v.js:92-185 | the output only grows: the starting output is a prefix of the result |
| Hal.DecodeStep | kdl2v.js:95-185 | one round of the loop: decoding continues after the operation with its output, or stops with its error |
| Hal.DecompressStart | kdl2v.js:81-95 | `decompress` starts with an empty output at `address`: an address past the ROM fails as the first `getUint8` would, and a success implies the address is in the ROM (the lone-0xFF case is `Hal.EmptyStream`) |
| Hal.EmptyStream | kdl2v.js:92-95 | a lone 0xFF decodes to the empty output |
| Hal.UnterminatedFails | kdl2v.js:183-185 | a stream with no 0xFF before the end of the ROM is an error, never a short output |
| Hal.LiteralExample | kdl2v.js:175-180 | opcode 0x03 copies the four bytes after it |
| Hal.FillExample | kdl2v.js:110-115 | opcode 0x22 repeats the next byte three times |
| Hal.RampPastByteExample | kdl2v.js:128-136 | a ramp from 0xFF continues with 0x100 |
| Hal.OverlapExample | kdl2v.js:138-148 | a forward copy that overlaps what it writes expands one byte into five |
| Hal.BackwardExample | kdl2v.js:92-185 | the stream 03 01 02 03 04 C1 00 03 FF decodes to 1, 2, 3, 4, 4, 3: a four-byte literal, then a backward copy from position 3 |
| Hal.ExtendedLiteral | kdl2v.js:96-181 | for every ROM, an opcode 0xFC, 0xFD or 0xFE selects 0xE0, which no case matches, so it reads as a literal copy of the count-plus-one bytes after its count byte |
| Hal.ExtendedLiteralExample | kdl2v.js:101-106 | the stream FC 01 07 08 FF decodes to 7, 8 |
| HalEncoding.ReadEncoded | kdl2v.js:95-181 | the decoder reads an encoded operation back unchanged and moves past exactly its encoding |
| HalEncoding.DecodeEncoded | kdl2v.js:92-185 | operations laid out one after another and closed by 0xFF decode to the output of running them in order, errors included |
| HalEncoding.LaidOut | kdl2v.js:92-185 | the concatenated encoding followed by 0xFF lays out the operations one after another |
| HalEncoding.DecompressEncoded | kdl2v.js:81-188 | `decompress` of an encoded list plus 0xFF equals running the list from the empty output |
| Vram.VramStart | kdl2v_babel.js:308 | the start lies in 0x8640..0x9630 on a 16-byte boundary and is 0x9630 minus 16 per control step |
| Vram.VramStartIsBitwise | kdl2v_babel.js:308 | the shift-subtract-mask of the source equals the arithmetic start |
| Vram.VramStartInverse | kdl2v_babel.js:308 | the control byte is recovered from the start address |
| Vram.TileMode | kdl2v_babel.js:311-315 | the mode is 0x8000 exactly when the start is below 0x8800, and 0x8800 otherwise |
| Vram.ModeOfControl | kdl2v_babel.js:308-315 | the 0x8000 mode is chosen exactly by control bytes 0xE4..0xFF |
| Vram.PrePaddingBounds | kdl2v_babel.js:323 | the leading zero count is never negative and at most 0xE30 |
| Vram.Pad | kdl2v_babel.js:322-331 | padding succeeds exactly when both zero counts are non-negative; otherwise it fails with the negative length; the window is `mode + 0x1800` long and holds the tiles at `start - mode`, with zeros around them |
| Vram.Splice | kdl2v_babel.js:334-336 | inside the array the items replace the deleted run and the rest is kept; past the end they are appended |
| Vram.Overlay | kdl2v_babel.js:334-336 | in a window of at least 0x1000 bytes only slots 0xFD..0xFF change, to the two stripe tiles and the blank tile |
| Vram.SplitLayers | kdl2v_babel.js:350-359 | four tables of `chunkSize` entries; entry i of table k is translation byte `k * chunk + i`, and is undefined exactly past the stream |
| Vram.SplitCoversStream | kdl2v_babel.js:350-359 | when the stream is long enough, the four tables concatenated give back its first `4 * chunk` bytes |
| Catalog.TableBaseFollowsLevelTable | kdl2v_babel.js:215-219 | the first table entry is one byte past the level table address |
| Catalog.AssetsParse | kdl2v_babel.js:286-360 | parsing an asset block succeeds exactly when its four bytes and the control byte are in the ROM, both streams decompress, and the tiles fit the window |
| Catalog.ParseAssets | kdl2v_babel.js:286-360 | on success: the tile pointer and bank come from the asset block; the mode follows the control byte; the tiles decompress and fit the window; the window is the padded tiles except in the three fill slots, which hold the FF/00 and 00/FF stripes and a zero tile; and the chunk size, translation stream and quadrant tables come from the bytes after the pointer |
| Catalog.ParseLevel | kdl2v_babel.js:245-283 | parsing succeeds exactly when the nine header bytes exist and the assets and the blocks at offset 16 decode; the fields are the header bytes in order |
| Catalog.ReadEntry | kdl2v_babel.js:222-229 | entry k succeeds exactly when its three bytes exist; its address joins bytes 3k and 3k+1 and its bank is byte 3k+2 |
| Catalog.ParseTable | kdl2v_babel.js:221-239 | the first n levels parse exactly when every entry does, in table order |
| Catalog.ParseRom | kdl2v_babel.js:211-242 | all 177 levels parse exactly when every entry does; level k is the level `ParseLevel` reads at the header that entry k points to, every field included, and takes its address and bank from table bytes 3k..3k+2 |
| MapAssembly.Slot | kdl2v_babel.js:389-393 | the slot is a byte, keeps the low seven bits, and has bit 7 set exactly for numbers below 0x80 |
| MapAssembly.SlotIsXor | kdl2v_babel.js:389-393 | on bytes the slot is the number with bit 7 flipped |
| MapAssembly.SlotInvolution | kdl2v_babel.js:389-393 | on bytes, mapping twice gives the number back |
| MapAssembly.Slice | kdl2v_babel.js:396 | inside the array slice is the subsequence, and an empty or out-of-range window is empty |
| MapAssembly.GetTiles | kdl2v_babel.js:385-397 | an undefined entry gives no bytes; a defined one gives the 16 bytes of its slot |
| MapAssembly.StepKeeps | kdl2v_babel.js:420-447 | a step of `Step` keeps the cursor on even tiles and keeps the screen index below `verticalSlices`; the band counter advances by at most one, and when it does the cursor is back on the left edge of the first screen |
| MapAssembly.CursorAt | kdl2v_babel.js:401-447 | the cursor before each metatile has even coordinates, is inside one of the band's screens, and has moved down at most one band per metatile |
| MapAssembly.StepPos | kdl2v_babel.js:420-447 | one step moves the cursor like an odometer: column, row, screen, band |
| MapAssembly.StepClosed | kdl2v_babel.js:420-447 | stepping the closed-form cursor of metatile m gives that of metatile m + 1 |
| MapAssembly.CursorIsClosed | kdl2v_babel.js:401-448 | metatile m is placed at column m mod 16, row (m / 16) mod 16, screen (m / 256) mod V, band (m / 256) / V |
| MapAssembly.InvariantHolds | kdl2v_babel.js:401-448 | whenever a metatile is placed the cursor is on even tiles inside screen `verticalSlice` of its band |
| MapAssembly.NoSlicesStacks | kdl2v_babel.js:438-447 | with zero vertical slices every metatile starts a new band at the left edge |
| MapAssembly.PlacementOf | kdl2v_babel.js:408-418 | quadrant q of a metatile is plotted in column parity q mod 2 and row parity q / 2, so the four quadrants fill distinct cells of a 2x2 square; each plotted tile is 16 bytes, or none for an undefined entry |
| MapAssembly.RenderLevel | kdl2v_babel.js:408-448 | four placements per metatile in order, each the metatile's quadrant tile at its cursor offset; failure exactly when there are blocks but fewer than four tables |
| MapAssembly.Render | kdl2v_babel.js:366-379 | no levels, or an index outside the list, is rejected; otherwise the result is that of the chosen level |

## Left out

- Reading the file (`open`, `FileReader`), `errorHandler`, the canvas and `GameBoyTilePlotter` are left out. So are the UI files (`ui.js`, `ui_babel.js`) and Babel's class helpers. They are I/O or drawing, and the rendered placements are returned instead of plotted.
- `kdl2v.js` and `kdl2v_babel.js` repeat the same class. The level parsing is modelled from the Babel copy and the decompressor from `kdl2v.js`. The two copies agree on those lines.
- JavaScript exceptions are not modelled as exceptions. A `getUint8` past the ROM, a `new Array` of negative length and a read of a missing quadrant table end in a `Failure` value instead.
- Hal.ForwardCopy: the source pushes `undefined` when a copy reads past the output and carries on decoding, and later operations are unaffected. An `undefined` pixel byte contributes 0 bits to its bit plane (`undefined >> bit & 1` is 0), and an `undefined` tile or block number gives `slice(NaN, NaN)`, which is empty, so the source still renders the level. The model fails with `OutOfRange` instead. That fails the level's parse, and with it the whole of `Catalog.ParseRom`.
- Hal.BackwardCopy: the same difference holds for a backward copy that reads before position 0 or past the output.
- Hal.TableCopy: a table copy whose byte read is not a table index (0x100 or more) or is missing pushes `undefined` in the source and carries on. The model fails instead, with the same consequence as for `Hal.ForwardCopy`.
- Catalog.ParseLevel: the object table, the door table and the unknown byte at header offsets 9 to 15 are skipped, as in the source.
- MapAssembly.Render: the source would throw a `TypeError` later for a negative level index. The model rejects it as an unknown level.
- MapAssembly.RenderLevel: a level with blocks but fewer than four quadrant tables fails. Levels from `ParseRom` always have four.
- Vram.Splice and MapAssembly.Slice model only start and end arguments that are not negative, which is all the source passes.
- Procedural.RrcRla: the source's bitwise `|` joins disjoint bits, so the model writes it as `+`.
- The encoder in `HalEncoding` does not exist in the source. It is an independent reference used to state the decompressor's round trip.
