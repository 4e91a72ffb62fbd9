/**
 A reference encoder for the HAL stream format, used to state the
 decompressor's round trip: an operation list encoded and closed with 0xFF
 decodes to exactly the output of running the operations one after another.
 */
module HalEncoding {
  import opened Results
  import opened Banks
  import opened Hal

  /** An operation the format can carry: 1 to 256 repeats and a 16-bit copy start. */
  predicate WellFormed(op: Op) {
    1 <= Count(op) <= 256 &&
    match op
    case CopyForward(start, _) => start < 0x10000
    case CopyTable(start, _) => start < 0x10000
    case CopyBackward(start, _) => start < 0x10000
    case _ => true
  }

  predicate AllWellFormed(ops: seq<Op>) {
    forall i :: 0 <= i < |ops| ==> WellFormed(ops[i])
  }

  /** A short opcode when the count fits in five bits, otherwise 0xE0-prefixed with a count byte. */
  function EncodeHeader(op: Op): (h: seq<byte>)
    requires WellFormed(op)
    ensures 1 <= |h| <= 2 && h[0] != EndOfStream
  {
    var tag, n := TagOf(op), Count(op);
    if n <= 32 then [tag + n - 1] else [0xE0 + tag / 8, n - 1]
  }

  /** The operand bytes; a copy start is written high byte first. */
  function EncodeOperands(op: Op): (b: seq<byte>)
    requires WellFormed(op)
    ensures |b| == OperandLength(op)
  {
    match op
    case Literal(bytes) => bytes
    case Fill(v, _) => [v]
    case FillPair(first, second, _) => [first, second]
    case Ramp(seed, _) => [seed]
    case CopyForward(start, _) => [start / 256, start % 256]
    case CopyTable(start, _) => [start / 256, start % 256]
    case CopyBackward(start, _) => [start / 256, start % 256]
  }

  function Encode(op: Op): (b: seq<byte>)
    requires WellFormed(op)
  {
    EncodeHeader(op) + EncodeOperands(op)
  }

  function EncodeAll(ops: seq<Op>): (b: seq<byte>)
    requires AllWellFormed(ops)
  {
    if ops == [] then [] else Encode(ops[0]) + EncodeAll(ops[1..])
  }

  /** The output of applying the operations in order, starting from `out`. */
  function Run(ops: seq<Op>, out: Output): Result<Output> {
    if ops == [] then Success(out)
    else
      var next :- Apply(ops[0], out);
      Run(ops[1..], next)
  }

  /** The header the decompressor reads back from an encoded header. */
  lemma ReadEncodedHeader(rom: seq<byte>, at: nat, op: Op)
    requires WellFormed(op)
    requires at + |EncodeHeader(op)| <= |rom| && rom[at..at + |EncodeHeader(op)|] == EncodeHeader(op)
    ensures ReadHeader(rom, at) == Success(Header(TagOf(op), Count(op), at + |EncodeHeader(op)|))
  {
    var tag, n := TagOf(op), Count(op);
    var h := EncodeHeader(op);
    assert rom[at] == h[0];
    if n <= 32 {
      assert High3(rom[at]) == tag && Low5(rom[at]) == n - 1;
    } else {
      assert rom[at + 1] == h[1];
      assert High3(rom[at]) == 0xE0;
      assert ExtendedTag(rom[at]) == tag;
    }
  }

  /** Reading an encoded operation gives back the operation and the position after it. */
  lemma ReadEncoded(rom: seq<byte>, at: nat, op: Op)
    requires WellFormed(op)
    requires at + |Encode(op)| <= |rom| && rom[at..at + |Encode(op)|] == Encode(op)
    ensures rom[at] != EndOfStream
    ensures ReadOp(rom, at) == Success((op, at + |Encode(op)|))
  {
    var h, b := EncodeHeader(op), EncodeOperands(op);
    var p := at + |h|;
    assert rom[at..p] == h by {
      assert rom[at..p] == rom[at..at + |Encode(op)|][..|h|];
    }
    assert rom[p..p + |b|] == b by {
      assert rom[p..p + |b|] == rom[at..at + |Encode(op)|][|h|..];
    }
    assert rom[at] == h[0];
    ReadEncodedHeader(rom, at, op);
    ReadEncodedOperands(rom, p, op);
  }

  /** Reading encoded operands after the header of `op` gives back `op`. */
  lemma ReadEncodedOperands(rom: seq<byte>, p: nat, op: Op)
    requires WellFormed(op)
    requires p + |EncodeOperands(op)| <= |rom| && rom[p..p + |EncodeOperands(op)|] == EncodeOperands(op)
    ensures ReadOperands(rom, Header(TagOf(op), Count(op), p)) == Success((op, p + |EncodeOperands(op)|))
  {
    var b := EncodeOperands(op);
    if |b| >= 1 {
      assert rom[p] == rom[p..p + |b|][0] == b[0];
    }
    if |b| >= 2 {
      assert rom[p + 1] == rom[p..p + |b|][1] == b[1];
    }
    match op
    case Literal(bytes) =>
    case Fill(v, _) =>
    case FillPair(first, second, _) =>
    case Ramp(seed, _) =>
    case CopyForward(start, _) =>
    case CopyTable(start, _) =>
    case CopyBackward(start, _) =>
  }

  /** `bytes` sit at `at` in the ROM and are followed by the end-of-stream opcode. */
  predicate Terminated(rom: seq<byte>, at: nat, bytes: seq<byte>) {
    at + |bytes| < |rom| && rom[at..at + |bytes|] == bytes && rom[at + |bytes|] == EndOfStream
  }

  /**
   The ROM holds the encoded operations one after another from `at`, then
   the end-of-stream opcode.
   */
  predicate EncodedAt(rom: seq<byte>, at: nat, ops: seq<Op>)
    decreases |ops|
  {
    if ops == [] then at < |rom| && rom[at] == EndOfStream
    else
      WellFormed(ops[0]) && at + |Encode(ops[0])| <= |rom| &&
      rom[at..at + |Encode(ops[0])|] == Encode(ops[0]) && EncodedAt(rom, at + |Encode(ops[0])|, ops[1..])
  }

  /**
   Round trip: a stream made of encoded operations followed by 0xFF decodes
   to the output of running those operations, failures included.
   */
  lemma {:induction false} DecodeEncoded(rom: seq<byte>, at: nat, ops: seq<Op>, out: Output)
    requires EncodedAt(rom, at, ops)
    ensures DecodeFrom(rom, at, out) == Run(ops, out)
    decreases |ops|
  {
    if ops != [] {
      var e := Encode(ops[0]);
      ReadEncoded(rom, at, ops[0]);
      DecodeStep(rom, at, out, ops[0], at + |e|);
      RunStep(ops, out);
      var next := Apply(ops[0], out);
      if next.Success? {
        DecodeEncoded(rom, at + |e|, ops[1..], next.value);
      }
    }
  }

  /** The concatenated encoding, followed by 0xFF, lays the operations out one after another. */
  lemma {:induction false} LaidOut(rom: seq<byte>, at: nat, ops: seq<Op>)
    requires AllWellFormed(ops) && Terminated(rom, at, EncodeAll(ops))
    ensures EncodedAt(rom, at, ops)
    decreases |ops|
  {
    if ops == [] {
      assert rom[at] == EndOfStream;
    } else {
      SplitEncoded(rom, at, ops);
      LaidOut(rom, at + |Encode(ops[0])|, ops[1..]);
    }
  }

  /** Running a non-empty list is applying its first operation, then running the rest. */
  lemma RunStep(ops: seq<Op>, out: Output)
    requires ops != []
    ensures Apply(ops[0], out).Success? ==> Run(ops, out) == Run(ops[1..], Apply(ops[0], out).value)
    ensures Apply(ops[0], out).Failure? ==> Run(ops, out) == Failure(Apply(ops[0], out).error)
  {
  }

  /** The first encoded operation and the rest of the stream, as the preconditions above need them. */
  lemma SplitEncoded(rom: seq<byte>, at: nat, ops: seq<Op>)
    requires AllWellFormed(ops) && ops != []
    requires Terminated(rom, at, EncodeAll(ops))
    ensures WellFormed(ops[0]) && AllWellFormed(ops[1..])
    ensures at + |Encode(ops[0])| <= |rom| && rom[at..at + |Encode(ops[0])|] == Encode(ops[0])
    ensures Terminated(rom, at + |Encode(ops[0])|, EncodeAll(ops[1..]))
  {
    TailWellFormed(ops);
    EncodeAllCons(ops);
    TerminatedConcat(rom, at, Encode(ops[0]), EncodeAll(ops[1..]));
  }

  lemma EncodeAllCons(ops: seq<Op>)
    requires AllWellFormed(ops) && ops != []
    ensures WellFormed(ops[0]) && AllWellFormed(ops[1..])
    ensures EncodeAll(ops) == Encode(ops[0]) + EncodeAll(ops[1..])
  {
    TailWellFormed(ops);
  }

  /** A terminated concatenation is its first part followed by the terminated second part. */
  lemma TerminatedConcat(rom: seq<byte>, at: nat, e: seq<byte>, rest: seq<byte>)
    requires Terminated(rom, at, e + rest)
    ensures at + |e| <= |rom| && rom[at..at + |e|] == e && Terminated(rom, at + |e|, rest)
  {
    assert rom[at..at + |e|] == rom[at..at + |e| + |rest|][..|e|];
    assert rom[at + |e|..at + |e| + |rest|] == rom[at..at + |e| + |rest|][|e|..];
  }

  lemma TailWellFormed(ops: seq<Op>)
    requires AllWellFormed(ops) && ops != []
    ensures WellFormed(ops[0]) && AllWellFormed(ops[1..])
  {
    forall i | 0 <= i < |ops[1..]|
      ensures WellFormed(ops[1..][i])
    {
      assert ops[1..][i] == ops[i + 1];
    }
  }

  /** The whole-ROM form: `decompress` of an encoded stream at address 0. */
  lemma DecompressEncoded(ops: seq<Op>)
    requires AllWellFormed(ops)
    ensures Decompress(EncodeAll(ops) + [EndOfStream], 0) == Run(ops, [])
  {
    var rom := EncodeAll(ops) + [EndOfStream];
    assert rom[0..|EncodeAll(ops)|] == EncodeAll(ops);
    assert Terminated(rom, 0, EncodeAll(ops));
    LaidOut(rom, 0, ops);
    DecodeEncoded(rom, 0, ops, []);
  }
}
