/**
 The HAL Laboratory decompressor of Kirby's Dreamland 2: a byte-opcode state
 machine over the ROM. The top three bits of an opcode select what to emit,
 the low five bits (or, after an 0xE0 prefix, the whole next byte) give the
 count minus one, and 0xFF ends the stream. Decoding is split into reading
 one operation from the ROM (`ReadOp`) and appending its output (`Apply`).
 */
module Hal {
  import opened Results
  import opened Banks
  import Procedural
  import Arithmetic

  /** The byte that ends a compressed stream. */
  const EndOfStream: byte := 0xFF

  /** The output of the decompressor; an incrementing run can go past 0xFF. */
  type Output = seq<nat>

  /** One decoded operation, with its operands already read from the ROM. */
  datatype Op =
    | Literal(bytes: seq<byte>)                           // copy the bytes as they are
    | Fill(value: byte, count: nat)                       // one byte, `count` times
    | FillPair(first: byte, second: byte, count: nat)     // two bytes, alternately, `count` times each
    | Ramp(seed: byte, count: nat)                        // seed, seed+1, ..., `count` values
    | CopyForward(start: nat, count: nat)                 // out[start], out[start+1], ...
    | CopyTable(start: nat, count: nat)                   // table[out[start]], table[out[start+1]], ...
    | CopyBackward(start: nat, count: nat)                // out[start], out[start-1], ...

  /** `op & 0xE0`. */
  function High3(op: byte): nat {
    op / 32 * 32
  }

  /** `op & 0x1F`. */
  function Low5(op: byte): nat {
    op % 32
  }

  /** `(op << 3) & 0xE0`: the selector of an extended opcode, taken from bits 2..4. */
  function ExtendedTag(op: byte): nat {
    op * 8 % 256 / 32 * 32
  }

  /** The masks above are the source's bitwise operations. */
  lemma High3IsMask(op: bv8)
    ensures (op & 0xE0) as int == High3(op as int)
  {
  }

  lemma Low5IsMask(op: bv8)
    ensures (op & 0x1F) as int == Low5(op as int)
  {
  }

  /** Bits shifted past bit 7 are masked away, so an 8-bit shift and the 32-bit JavaScript shift give the same selector. */
  lemma ExtendedTagIsShiftMask(op: bv8)
    ensures ((op << 3) & 0xE0) as int == ExtendedTag(op as int)
    ensures (((op as bv32) << 3) & 0xE0) as int == ExtendedTag(op as int)
  {
    assert ((op as bv32) << 3) & 0xE0 == (((op << 3) & 0xE0) as bv32);
    var sel := (op >> 2) & 7;
    ShiftMaskMovesSelector(op);
    SelectorShift(sel);
    SelectorBits(op);
    SelectorArithmetic(op as int);
  }

  lemma ShiftMaskMovesSelector(op: bv8)
    ensures (op << 3) & 0xE0 == ((op >> 2) & 7) << 5
  {
  }

  lemma SelectorShift(sel: bv8)
    requires sel < 8
    ensures (sel << 5) as int == sel as int * 32
  {
  }

  lemma SelectorBits(op: bv8)
    ensures ((op >> 2) & 7) as int == op as int / 4 % 8
  {
  }

  lemma SelectorArithmetic(v: int)
    requires 0 <= v < 256
    ensures v * 8 % 256 / 32 * 32 == v / 4 % 8 * 32
  {
    var q, r := v / 32, v % 32;
    var s, t := r / 4, r % 4;
    assert v == 32 * q + r && r == 4 * s + t;
    Arithmetic.DivModUnique(v * 8, 256, q, 8 * r);
    Arithmetic.DivModUnique(8 * r, 32, s, 8 * t);
    Arithmetic.DivModUnique(v, 4, 8 * q + s, t);
    Arithmetic.DivModUnique(8 * q + s, 8, q, s);
  }

  /** An opcode whose top three bits are all set carries its count in the next byte. */
  predicate Extended(op: byte) {
    High3(op) == 0xE0
  }

  /** The selector and the count of an opcode, and where its operands start. */
  datatype Header = Header(tag: nat, count: nat, operands: nat)

  /** Reads the opcode at `at` and, if it is extended, its count byte. */
  function ReadHeader(rom: seq<byte>, at: nat): (r: Result<Header>)
    requires at < |rom|
    ensures r.Failure? <==> Extended(rom[at]) && at + 1 == |rom|
    ensures r.Success? ==> 1 <= r.value.count <= 256 && r.value.tag % 32 == 0 && r.value.tag <= 0xE0
    ensures r.Success? ==> r.value.tag == if Extended(rom[at]) then ExtendedTag(rom[at]) else High3(rom[at])
    ensures r.Success? && !Extended(rom[at]) ==>
              r.value.operands == at + 1 && r.value.count <= 32 && r.value.tag != 0xE0
    ensures r.Success? && Extended(rom[at]) ==>
              r.value.operands == at + 2 && r.value.count == rom[at + 1] as int + 1
  {
    var op := rom[at];
    if Extended(op) then
      if at + 1 < |rom| then Success(Header(ExtendedTag(op), rom[at + 1] as int + 1, at + 2))
      else Failure(TruncatedStream(at + 1))
    else
      Success(Header(High3(op), Low5(op) + 1, at + 1))
  }

  /** A checked read of an operand byte; running off the ROM truncates the stream. */
  function Operand(rom: seq<byte>, i: nat): (r: Result<byte>)
    ensures r.Success? <==> i < |rom|
    ensures r.Success? ==> r.value == rom[i]
  {
    if i < |rom| then Success(rom[i]) else Failure(TruncatedStream(i))
  }

  /** The number of ROM bytes an operation reads after its header. */
  function OperandLength(op: Op): nat {
    match op
    case Literal(bytes) => |bytes|
    case Fill(_, _) => 1
    case FillPair(_, _, _) => 2
    case Ramp(_, _) => 1
    case CopyForward(_, _) => 2
    case CopyTable(_, _) => 2
    case CopyBackward(_, _) => 2
  }

  /** The number of bytes an operation emits. */
  function Produced(op: Op): nat {
    match op
    case Literal(bytes) => |bytes|
    case Fill(_, n) => n
    case FillPair(_, _, n) => 2 * n
    case Ramp(_, n) => n
    case CopyForward(_, n) => n
    case CopyTable(_, n) => n
    case CopyBackward(_, n) => n
  }

  /** The repeat count an operation carries. */
  function Count(op: Op): nat {
    match op
    case Literal(bytes) => |bytes|
    case Fill(_, n) => n
    case FillPair(_, _, n) => n
    case Ramp(_, n) => n
    case CopyForward(_, n) => n
    case CopyTable(_, n) => n
    case CopyBackward(_, n) => n
  }

  /** The selector of an operation; literal copy is the default for every other tag. */
  function TagOf(op: Op): nat {
    match op
    case Literal(_) => 0x00
    case Fill(_, _) => 0x20
    case FillPair(_, _, _) => 0x40
    case Ramp(_, _) => 0x60
    case CopyForward(_, _) => 0x80
    case CopyTable(_, _) => 0xA0
    case CopyBackward(_, _) => 0xC0
  }

  /** The operand bytes an opcode with selector `tag` and count `n` reads. */
  function Needed(tag: nat, n: nat): nat {
    if tag == 0x20 || tag == 0x60 then 1
    else if tag == 0x40 || tag == 0x80 || tag == 0xA0 || tag == 0xC0 then 2
    else n
  }

  /**
   The operands of `op` are the ROM bytes from `p` on: literal bytes in
   order, fill values as they stand, and a copy start high byte first.
   */
  predicate OperandsAt(rom: seq<byte>, p: nat, op: Op)
    requires p + OperandLength(op) <= |rom|
  {
    match op
    case Literal(bytes) => bytes == rom[p..p + |bytes|]
    case Fill(v, _) => v == rom[p]
    case FillPair(first, second, _) => first == rom[p] && second == rom[p + 1]
    case Ramp(seed, _) => seed == rom[p]
    case CopyForward(start, _) => start == rom[p] as int * 256 + rom[p + 1]
    case CopyTable(start, _) => start == rom[p] as int * 256 + rom[p + 1]
    case CopyBackward(start, _) => start == rom[p] as int * 256 + rom[p + 1]
  }

  /**
   Reads the operands of the operation a header announces. Copies take a
   big-endian start address: the byte at the lower position is the high byte.
   */
  function ReadOperands(rom: seq<byte>, h: Header): (r: Result<(Op, nat)>)
    requires 1 <= h.count
    ensures r.Success? ==> r.value.1 == h.operands + OperandLength(r.value.0) <= |rom|
    ensures r.Success? ==> Count(r.value.0) == h.count
    ensures r.Success? ==> TagOf(r.value.0) == (if h.tag in {0x20, 0x40, 0x60, 0x80, 0xA0, 0xC0} then h.tag else 0)
  {
    var p, n := h.operands, h.count;
    if h.tag == 0x20 then
      var v :- Operand(rom, p);
      Success((Fill(v, n), p + 1))
    else if h.tag == 0x40 then
      var b1 :- Operand(rom, p);
      var b2 :- Operand(rom, p + 1);
      Success((FillPair(b1, b2, n), p + 2))
    else if h.tag == 0x60 then
      var seed :- Operand(rom, p);
      Success((Ramp(seed, n), p + 1))
    else if h.tag == 0x80 || h.tag == 0xA0 || h.tag == 0xC0 then
      var lo :- Operand(rom, p + 1);
      var hi := rom[p];
      var start := ByteSwap(lo, hi);
      if h.tag == 0x80 then Success((CopyForward(start, n), p + 2))
      else if h.tag == 0xA0 then Success((CopyTable(start, n), p + 2))
      else Success((CopyBackward(start, n), p + 2))
    else if p + n <= |rom| then
      Success((Literal(rom[p..p + n]), p + n))
    else
      Failure(TruncatedStream(|rom|))
  }

  /**
   The operands are read from the ROM as they stand, and reading fails
   exactly when the ROM ends before the operand bytes the selector needs.
   */
  lemma OperandsRead(rom: seq<byte>, h: Header)
    requires 1 <= h.count
    ensures ReadOperands(rom, h).Success? ==> OperandsAt(rom, h.operands, ReadOperands(rom, h).value.0)
    ensures ReadOperands(rom, h).Failure? <==> |rom| < h.operands + Needed(h.tag, h.count)
  {
  }

  /** The length of the opcode (one byte, or two when extended). */
  function HeaderLength(op: byte): nat {
    if Extended(op) then 2 else 1
  }

  /**
   Reads one operation at `at`. It consumes the header and exactly the
   operand bytes the operation needs, so the cursor strictly advances.
   */
  function ReadOp(rom: seq<byte>, at: nat): (r: Result<(Op, nat)>)
    requires at < |rom| && rom[at] != EndOfStream
    ensures r.Success? ==> at < r.value.1 <= |rom|
    ensures r.Success? ==> r.value.1 == at + HeaderLength(rom[at]) + OperandLength(r.value.0)
    ensures r.Success? ==> 1 <= Count(r.value.0) <= 256
    ensures r.Success? && !Extended(rom[at]) ==> Count(r.value.0) == Low5(rom[at]) + 1
    ensures r.Success? && Extended(rom[at]) ==> Count(r.value.0) == rom[at + 1] as int + 1
  {
    var h :- ReadHeader(rom, at);
    ReadOperands(rom, h)
  }

  /** Pushes `v` `n` times. */
  function Repeat(buf: Output, v: nat, n: nat): (r: Output)
    ensures |r| == |buf| + n && r[..|buf|] == buf
    ensures forall k :: |buf| <= k < |r| ==> r[k] == v
    decreases n
  {
    if n == 0 then buf else Repeat(buf + [v], v, n - 1)
  }

  /** Pushes `first` then `second`, `n` times over. */
  function RepeatPair(buf: Output, first: nat, second: nat, n: nat): (r: Output)
    ensures |r| == |buf| + 2 * n && r[..|buf|] == buf
    ensures forall k :: |buf| <= k < |r| ==> r[k] == if (k - |buf|) % 2 == 0 then first else second
    decreases n
  {
    if n == 0 then buf else RepeatPair(buf + [first, second], first, second, n - 1)
  }

  /** Pushes `v` and increments it, `n` times; nothing wraps the value at 0x100. */
  function Increment(buf: Output, v: nat, n: nat): (r: Output)
    ensures |r| == |buf| + n && r[..|buf|] == buf
    ensures forall k :: |buf| <= k < |r| ==> r[k] == v + (k - |buf|)
    decreases n
  {
    if n == 0 then buf else Increment(buf + [v], v + 1, n - 1)
  }

  /**
   Pushes `buf[start]` and advances `start`, `n` times, reading bytes this
   very copy has pushed once `start` reaches them. Every read is in bounds
   exactly when the first one is.
   */
  function ForwardCopy(buf: Output, start: nat, n: nat): (r: Result<Output>)
    ensures r.Success? <==> n == 0 || start < |buf|
    ensures r.Success? ==> |r.value| == |buf| + n && r.value[..|buf|] == buf
    ensures r.Success? ==> forall k :: |buf| <= k < |r.value| ==> r.value[k] == r.value[k - (|buf| - start)]
    decreases n
  {
    if n == 0 then Success(buf)
    else if start >= |buf| then Failure(OutOfRange(start))
    else ForwardCopy(buf + [buf[start]], start + 1, n - 1)
  }

  /**
   A forward copy whose source overlaps what it writes repeats the bytes from
   `start` to the end of the buffer periodically (the LZ77 self-copy).
   */
  lemma {:induction false} ForwardCopyPeriodic(buf: Output, start: nat, n: nat, k: nat)
    requires start < |buf| && k < n
    ensures ForwardCopy(buf, start, n).Success?
    ensures ForwardCopy(buf, start, n).value[|buf| + k] == buf[start + k % (|buf| - start)]
    decreases k
  {
    var r, d := ForwardCopy(buf, start, n).value, |buf| - start;
    var i := |buf| + k;
    assert r[i] == r[i - d];
    if k < d {
      Arithmetic.ModSmall(k, d);
      assert i - d == start + k;
    } else {
      ForwardCopyPeriodic(buf, start, n, k - d);
      Arithmetic.ModShift(k, d);
      assert i - d == |buf| + (k - d);
    }
  }

  /**
   Byte `k` of `out`, pushed by a table copy that began reading at `start`
   when the buffer held `base` bytes, is the table entry for the byte it read.
   */
  predicate LooksUp(out: Output, base: nat, start: nat, k: nat)
    requires start <= base <= k < |out|
  {
    out[k - (base - start)] < 256 && out[k] == Procedural.Table()[out[k - (base - start)]]
  }

  /**
   Like `ForwardCopy`, but pushes the procedural table's entry for each byte
   read. A byte read that is not a table index (0x100 or more) is an error.
   */
  function TableCopy(buf: Output, start: nat, n: nat): (r: Result<Output>)
    ensures r.Success? <==> n == 0 || (start < |buf| && TableIndices(buf, start, start + n))
    ensures r.Success? ==> |r.value| == |buf| + n && r.value[..|buf|] == buf
    ensures r.Success? ==> forall k :: |buf| <= k < |r.value| ==> LooksUp(r.value, |buf|, start, k)
    decreases n
  {
    if n == 0 then Success(buf)
    else if start >= |buf| then Failure(OutOfRange(start))
    else if buf[start] >= 256 then Failure(OutOfRange(buf[start]))
    else
      var x := Procedural.Table()[buf[start]];
      var rest := TableCopy(buf + [x], start + 1, n - 1);
      TableIndicesStep(buf, start, start + n);
      TableIndicesAppend(buf, x, start + 1, start + n);
      if rest.Success? then
        LooksUpShift(rest.value, |buf|, start, |buf| + 1, start + 1);
        rest
      else
        rest
  }

  /** Every byte of `buf` in positions `lo` up to (not including) `hi` is a table index. */
  predicate TableIndices(buf: Output, lo: nat, hi: nat) {
    forall j :: lo <= j < hi && j < |buf| ==> buf[j] < 256
  }

  lemma TableIndicesStep(buf: Output, lo: nat, hi: nat)
    requires lo < hi && lo < |buf|
    ensures TableIndices(buf, lo, hi) <==> buf[lo] < 256 && TableIndices(buf, lo + 1, hi)
  {
  }

  lemma TableIndicesAppend(buf: Output, x: nat, lo: nat, hi: nat)
    requires x < 256
    ensures TableIndices(buf + [x], lo, hi) <==> TableIndices(buf, lo, hi)
  {
    if TableIndices(buf, lo, hi) {
      forall j | lo <= j < hi && j < |buf| + 1
        ensures (buf + [x])[j] < 256
      {
        if j < |buf| {
          assert (buf + [x])[j] == buf[j];
        }
      }
    }
    if TableIndices(buf + [x], lo, hi) {
      forall j | lo <= j < hi && j < |buf|
        ensures buf[j] < 256
      {
        assert (buf + [x])[j] == buf[j];
      }
    }
  }

  /** Table lookups pushed from `base + 1` on, plus one more at `base`. */
  lemma LooksUpShift(out: Output, base: nat, start: nat, base': nat, start': nat)
    requires start < base < |out| && out[start] < 256
    requires base' == base + 1 && start' == start + 1
    requires out[base] == Procedural.Table()[out[start]]
    requires forall k :: base' <= k < |out| ==> LooksUp(out, base', start', k)
    ensures forall k :: base <= k < |out| ==> LooksUp(out, base, start, k)
  {
    forall k | base <= k < |out|
      ensures LooksUp(out, base, start, k)
    {
      if k > base {
        assert LooksUp(out, base + 1, start + 1, k);
      }
    }
  }

  /**
   Pushes `buf[start]` and steps `start` back, `n` times. Every read is in
   bounds exactly when the first is below the buffer length and the last one
   is not below zero; all reads then come from the bytes present before.
   */
  function BackwardCopy(buf: Output, start: int, n: nat): (r: Result<Output>)
    ensures r.Success? <==> n == 0 || (n - 1 <= start < |buf|)
    ensures r.Success? ==> |r.value| == |buf| + n && r.value[..|buf|] == buf
    ensures r.Success? ==> forall k :: |buf| <= k < |r.value| ==>
              0 <= start - (k - |buf|) < |buf| && r.value[k] == buf[start - (k - |buf|)]
    decreases n
  {
    if n == 0 then Success(buf)
    else if start < 0 || start >= |buf| then Failure(OutOfRange(start))
    else BackwardCopy(buf + [buf[start]], start - 1, n - 1)
  }

  /** Appends the output of one operation. */
  function Apply(op: Op, out: Output): (r: Result<Output>)
    ensures r.Success? ==> |r.value| == |out| + Produced(op) && r.value[..|out|] == out
  {
    match op
    case Literal(bytes) => Success(out + bytes)
    case Fill(v, n) => Success(Repeat(out, v, n))
    case FillPair(b1, b2, n) => Success(RepeatPair(out, b1, b2, n))
    case Ramp(seed, n) => Success(Increment(out, seed, n))
    case CopyForward(start, n) => ForwardCopy(out, start, n)
    case CopyTable(start, n) => TableCopy(out, start, n)
    case CopyBackward(start, n) => BackwardCopy(out, start, n)
  }

  /**
   What each operation appends: a literal appends its bytes unchanged, the
   three fills append their runs, and the three copies append what their
   copy loops push. Only a copy can fail, and exactly when it would read a
   byte that is not there (or, for the table copy, is not a table index).
   */
  lemma ApplyEmits(op: Op, out: Output)
    ensures op.Literal? ==> Apply(op, out) == Success(out + op.bytes)
    ensures op.Fill? ==> Apply(op, out) == Success(Repeat(out, op.value, op.count))
    ensures op.FillPair? ==> Apply(op, out) == Success(RepeatPair(out, op.first, op.second, op.count))
    ensures op.Ramp? ==> Apply(op, out) == Success(Increment(out, op.seed, op.count))
    ensures op.CopyForward? ==> Apply(op, out) == ForwardCopy(out, op.start, op.count)
    ensures op.CopyTable? ==> Apply(op, out) == TableCopy(out, op.start, op.count)
    ensures op.CopyBackward? ==> Apply(op, out) == BackwardCopy(out, op.start, op.count)
    ensures Apply(op, out).Failure? <==>
              match op
              case CopyForward(start, n) => n > 0 && start >= |out|
              case CopyTable(start, n) => n > 0 && !(start < |out| && TableIndices(out, start, start + n))
              case CopyBackward(start, n) => n > 0 && !(n - 1 <= start < |out|)
              case _ => false
  {
  }

  /**
   Decodes operations from `at` onwards, appending to `out`, up to the
   first 0xFF opcode. The output only grows: `out` is a prefix of the result.
   */
  function DecodeFrom(rom: seq<byte>, at: nat, out: Output): (r: Result<Output>)
    ensures r.Success? ==> |out| <= |r.value| && r.value[..|out|] == out
    decreases |rom| - at
  {
    if at >= |rom| then Failure(TruncatedStream(at))
    else if rom[at] == EndOfStream then Success(out)
    else
      var step :- ReadOp(rom, at);
      var next :- Apply(step.0, out);
      DecodeFrom(rom, step.1, next)
  }

  /** One step of the decoding loop, once the operation at `at` is known. */
  lemma DecodeStep(rom: seq<byte>, at: nat, out: Output, op: Op, next: nat)
    requires at < |rom| && rom[at] != EndOfStream
    requires ReadOp(rom, at) == Success((op, next))
    ensures Apply(op, out).Success? ==> DecodeFrom(rom, at, out) == DecodeFrom(rom, next, Apply(op, out).value)
    ensures Apply(op, out).Failure? ==> DecodeFrom(rom, at, out) == Failure(Apply(op, out).error)
  {
  }

  /** The source's `decompress(data, address)`. */
  function Decompress(rom: seq<byte>, address: nat): Result<Output> {
    DecodeFrom(rom, address, [])
  }

  /**
   Decoding starts at `address` with an empty output: an address past the
   ROM fails as the first read would, and a success read its first byte there.
   */
  lemma DecompressStart(rom: seq<byte>, address: nat)
    ensures address >= |rom| ==> Decompress(rom, address) == Failure(TruncatedStream(address))
    ensures Decompress(rom, address).Success? ==> address < |rom|
  {
  }

  /** An empty stream is a lone 0xFF and decodes to nothing. */
  lemma EmptyStream(rom: seq<byte>, at: nat)
    requires at < |rom| && rom[at] == EndOfStream
    ensures Decompress(rom, at) == Success([])
  {
  }

  /** A stream that runs off the end of the ROM before its 0xFF is an error, not a short output. */
  lemma {:induction false} UnterminatedFails(rom: seq<byte>, at: nat, out: Output)
    requires forall i :: at <= i < |rom| ==> rom[i] != EndOfStream
    ensures DecodeFrom(rom, at, out).Failure?
    decreases |rom| - at
  {
    if at < |rom| {
      var step := ReadOp(rom, at);
      if step.Success? {
        var next := Apply(step.value.0, out);
        if next.Success? {
          UnterminatedFails(rom, step.value.1, next.value);
        }
      }
    }
  }

  /** A short literal: opcode 0x03 copies the four bytes after it. */
  lemma LiteralExample()
    ensures Decompress([0x03, 0x11, 0x22, 0x33, 0x44, 0xFF], 0) == Success([0x11, 0x22, 0x33, 0x44])
  {
    var rom: seq<byte> := [0x03, 0x11, 0x22, 0x33, 0x44, 0xFF];
    assert ReadHeader(rom, 0) == Success(Header(0, 4, 1));
    assert rom[1..5] == [0x11, 0x22, 0x33, 0x44];
    assert ReadOp(rom, 0) == Success((Literal([0x11, 0x22, 0x33, 0x44]), 5));
    assert DecodeFrom(rom, 5, [0x11, 0x22, 0x33, 0x44]) == Success([0x11, 0x22, 0x33, 0x44]);
  }

  /** Opcode 0x22 repeats the one byte after it three times and consumes it once. */
  lemma FillExample()
    ensures Decompress([0x22, 0xAB, 0xFF], 0) == Success([0xAB, 0xAB, 0xAB])
  {
    var rom: seq<byte> := [0x22, 0xAB, 0xFF];
    assert ReadHeader(rom, 0) == Success(Header(0x20, 3, 1));
    assert ReadOp(rom, 0) == Success((Fill(0xAB, 3), 2));
    assert Repeat([], 0xAB, 3) == [0xAB, 0xAB, 0xAB];
    assert DecodeFrom(rom, 2, [0xAB, 0xAB, 0xAB]) == Success([0xAB, 0xAB, 0xAB]);
  }

  /** An incrementing run is not wrapped: seed 0xFF continues with 0x100. */
  lemma RampPastByteExample()
    ensures Decompress([0x61, 0xFF, 0xFF], 0) == Success([0xFF, 0x100])
  {
    var rom: seq<byte> := [0x61, 0xFF, 0xFF];
    assert ReadHeader(rom, 0) == Success(Header(0x60, 2, 1));
    assert ReadOp(rom, 0) == Success((Ramp(0xFF, 2), 2));
    assert Increment([], 0xFF, 2) == [0xFF, 0x100];
    assert DecodeFrom(rom, 2, [0xFF, 0x100]) == Success([0xFF, 0x100]);
  }

  /** Opcode 0x83 at start 0, after a one-byte literal, expands that byte four more times. */
  lemma OverlapExample()
    ensures Decompress([0x00, 0x01, 0x83, 0x00, 0x00, 0xFF], 0) == Success([1, 1, 1, 1, 1])
  {
    var rom: seq<byte> := [0x00, 0x01, 0x83, 0x00, 0x00, 0xFF];
    OverlapOps(rom);
    OverlapCopy();
    assert Apply(CopyForward(0, 4), [1]) == Success([1, 1, 1, 1, 1]);
    DecodeStep(rom, 0, [], Literal([1]), 2);
    DecodeStep(rom, 2, [1], CopyForward(0, 4), 5);
    assert DecodeFrom(rom, 5, [1, 1, 1, 1, 1]) == Success([1, 1, 1, 1, 1]);
  }

  /** The two operations of the example above. */
  lemma OverlapOps(rom: seq<byte>)
    requires rom == [0x00, 0x01, 0x83, 0x00, 0x00, 0xFF]
    ensures ReadOp(rom, 0) == Success((Literal([1]), 2))
    ensures ReadOp(rom, 2) == Success((CopyForward(0, 4), 5))
  {
    assert ReadHeader(rom, 0) == Success(Header(0, 1, 1));
    assert rom[1..2] == [1];
    assert ReadHeader(rom, 2) == Success(Header(0x80, 4, 3));
  }

  /** The copy of the example above: one byte repeated four more times. */
  lemma OverlapCopy()
    ensures ForwardCopy([1], 0, 4) == Success([1, 1, 1, 1, 1])
  {
    var r := ForwardCopy([1], 0, 4).value;
    forall i | 1 <= i < 5
      ensures r[i] == 1
    {
      ForwardCopyPeriodic([1], 0, 4, i - 1);
    }
    assert r == [1, 1, 1, 1, 1];
  }

  /** A literal 1, 2, 3, 4 and then opcode 0xC1 at start 3, which appends 4 then 3. */
  lemma BackwardExample()
    ensures Decompress([0x03, 1, 2, 3, 4, 0xC1, 0x00, 0x03, 0xFF], 0) == Success([1, 2, 3, 4, 4, 3])
  {
    var rom: seq<byte> := [0x03, 1, 2, 3, 4, 0xC1, 0x00, 0x03, 0xFF];
    BackwardOps(rom);
    BackwardCopyExample();
    assert Apply(CopyBackward(3, 2), [1, 2, 3, 4]) == Success([1, 2, 3, 4, 4, 3]);
    DecodeStep(rom, 0, [], Literal([1, 2, 3, 4]), 5);
    DecodeStep(rom, 5, [1, 2, 3, 4], CopyBackward(3, 2), 8);
    assert DecodeFrom(rom, 8, [1, 2, 3, 4, 4, 3]) == Success([1, 2, 3, 4, 4, 3]);
  }

  /** The two operations of the example above. */
  lemma BackwardOps(rom: seq<byte>)
    requires rom == [0x03, 1, 2, 3, 4, 0xC1, 0x00, 0x03, 0xFF]
    ensures ReadOp(rom, 0) == Success((Literal([1, 2, 3, 4]), 5))
    ensures ReadOp(rom, 5) == Success((CopyBackward(3, 2), 8))
  {
    assert ReadHeader(rom, 0) == Success(Header(0, 4, 1));
    var literal := rom[1..5];
    assert literal[0] == 1 && literal[1] == 2 && literal[2] == 3 && literal[3] == 4;
    assert literal == [1, 2, 3, 4];
    assert ReadHeader(rom, 5) == Success(Header(0xC0, 2, 6));
  }

  /** The copy of the example above: from position 3 backwards, two bytes. */
  lemma BackwardCopyExample()
    ensures BackwardCopy([1, 2, 3, 4], 3, 2) == Success([1, 2, 3, 4, 4, 3])
  {
    var r := BackwardCopy([1, 2, 3, 4], 3, 2).value;
    assert r[4] == 4 && r[5] == 3;
    assert r == [1, 2, 3, 4, 4, 3];
  }

  /**
   Every extended opcode whose bits 2..4 are all set (0xFC to 0xFE; 0xFF ends
   the stream) falls through to the literal copy of the next count bytes.
   */
  lemma ExtendedLiteral(rom: seq<byte>, at: nat)
    requires at + 1 < |rom| && 0xFC <= rom[at] <= 0xFE
    ensures ReadOp(rom, at).Success? ==>
              ReadOp(rom, at).value.0 == Literal(rom[at + 2..at + 2 + rom[at + 1] as int + 1])
  {
    assert Extended(rom[at]) && ExtendedTag(rom[at]) == 0xE0;
    assert ReadHeader(rom, at).value == Header(0xE0, rom[at + 1] as int + 1, at + 2);
  }

  /** Extended opcodes whose bits 2..4 are all set (0xFC to 0xFE) fall through to a literal copy. */
  lemma ExtendedLiteralExample()
    ensures Decompress([0xFC, 0x01, 0x07, 0x08, 0xFF], 0) == Success([7, 8])
  {
    var rom: seq<byte> := [0xFC, 0x01, 0x07, 0x08, 0xFF];
    assert Extended(rom[0]) && ExtendedTag(rom[0]) == 0xE0;
    assert ReadHeader(rom, 0) == Success(Header(0xE0, 2, 2));
    assert rom[2..4] == [7, 8];
    assert ReadOp(rom, 0) == Success((Literal([7, 8]), 4));
    assert DecodeFrom(rom, 4, [7, 8]) == Success([7, 8]);
  }
}
