/**
 The 256-entry lookup table the game builds at run time by running a
 `rrc l` / `rla` loop on the Game Boy CPU, and which the table-indexed copy
 of the decompressor reads through. The simulated loop is shown to produce
 exactly the 8-bit bit-reversal of each index.
 */
module Procedural {

  /** `v` shifted right by `k` bits. */
  function Shr(v: int, k: nat): int {
    if k == 0 then v else Shr(v, k - 1) / 2
  }

  /** Bit `k` of `v`, 0 being the lowest. */
  function Bit(v: int, k: nat): int {
    Shr(v, k) % 2
  }

  /** All eight digits are binary. */
  predicate Binary8(d0: int, d1: int, d2: int, d3: int, d4: int, d5: int, d6: int, d7: int) {
    0 <= d0 < 2 && 0 <= d1 < 2 && 0 <= d2 < 2 && 0 <= d3 < 2
    && 0 <= d4 < 2 && 0 <= d5 < 2 && 0 <= d6 < 2 && 0 <= d7 < 2
  }

  /** The byte with binary digits d0 (lowest) to d7. */
  function Digits(d0: int, d1: int, d2: int, d3: int, d4: int, d5: int, d6: int, d7: int): int {
    d0 + 2 * d1 + 4 * d2 + 8 * d3 + 16 * d4 + 32 * d5 + 64 * d6 + 128 * d7
  }

  /** The byte whose bit 7-k is bit k of `v`: the independent reference for the table. */
  function Reverse8(v: int): int {
    Digits(Bit(v, 7), Bit(v, 6), Bit(v, 5), Bit(v, 4), Bit(v, 3), Bit(v, 2), Bit(v, 1), Bit(v, 0))
  }

  /** The table as the decompressor uses it. */
  function Table(): (t: seq<int>)
    ensures |t| == 256
    ensures forall i :: 0 <= i < 256 ==> 0 <= t[i] < 256
  {
    seq(256, i => Reverse8(i))
  }

  /** Halving a number made of a low bit `b` and a rest `q` gives back `b` and `q`. */
  lemma Halve(x: int, b: int, q: int)
    requires b == 0 || b == 1
    requires x == b + 2 * q
    ensures x % 2 == b && x / 2 == q
  {
  }

  /** Splitting off the low byte of `w = lo + 256 * hi` gives back `lo` and `hi`. */
  lemma LowByte(w: int, lo: int, hi: int)
    requires 0 <= lo < 256
    requires w == lo + 256 * hi
    ensures w % 256 == lo && w / 256 == hi
  {
  }

  /** Every byte is the sum of its eight bits. */
  lemma BitsOfByte(v: int)
    requires 0 <= v < 256
    ensures Binary8(Bit(v, 0), Bit(v, 1), Bit(v, 2), Bit(v, 3), Bit(v, 4), Bit(v, 5), Bit(v, 6), Bit(v, 7))
    ensures v == Digits(Bit(v, 0), Bit(v, 1), Bit(v, 2), Bit(v, 3), Bit(v, 4), Bit(v, 5), Bit(v, 6), Bit(v, 7))
  {
    var s1, s2, s3, s4 := Shr(v, 1), Shr(v, 2), Shr(v, 3), Shr(v, 4);
    var s5, s6, s7 := Shr(v, 5), Shr(v, 6), Shr(v, 7);
    ShrStep(v, 0);
    ShrStep(v, 1);
    ShrStep(v, 2);
    ShrStep(v, 3);
    ShrStep(v, 4);
    ShrStep(v, 5);
    ShrStep(v, 6);
    SplitLowBit(v, s1);
    SplitLowBit(s1, s2);
    SplitLowBit(s2, s3);
    SplitLowBit(s3, s4);
    SplitLowBit(s4, s5);
    SplitLowBit(s5, s6);
    SplitLowBit(s6, s7);
    var b0, b1, b2, b3 := v % 2, s1 % 2, s2 % 2, s3 % 2;
    var b4, b5, b6 := s4 % 2, s5 % 2, s6 % 2;
    assert Bit(v, 0) == b0 && Bit(v, 1) == b1 && Bit(v, 2) == b2 && Bit(v, 3) == b3;
    assert Bit(v, 4) == b4 && Bit(v, 5) == b5 && Bit(v, 6) == b6 && Bit(v, 7) == s7 % 2;
    Combine(v, s1, s2, s3, s4, s5, s6, s7, b0, b1, b2, b3, b4, b5, b6);
  }

  /** The linear end of `BitsOfByte`: the top quotient is itself a bit. */
  lemma Combine(v: int, s1: int, s2: int, s3: int, s4: int, s5: int, s6: int, s7: int,
                b0: int, b1: int, b2: int, b3: int, b4: int, b5: int, b6: int)
    requires 0 <= v < 256
    requires v == b0 + 2 * s1 && s1 == b1 + 2 * s2 && s2 == b2 + 2 * s3 && s3 == b3 + 2 * s4
    requires s4 == b4 + 2 * s5 && s5 == b5 + 2 * s6 && s6 == b6 + 2 * s7
    requires 0 <= b0 < 2 && 0 <= b1 < 2 && 0 <= b2 < 2 && 0 <= b3 < 2
    requires 0 <= b4 < 2 && 0 <= b5 < 2 && 0 <= b6 < 2
    ensures 0 <= s7 < 2 && s7 % 2 == s7
    ensures Binary8(b0, b1, b2, b3, b4, b5, b6, s7)
    ensures v == Digits(b0, b1, b2, b3, b4, b5, b6, s7)
  {
  }

  lemma ShrStep(v: int, k: nat)
    ensures Shr(v, k + 1) == Shr(v, k) / 2 && Shr(v, 0) == v
  {
  }

  /** A number is its low bit plus twice its half. */
  lemma SplitLowBit(x: int, half: int)
    requires half == x / 2
    ensures x == x % 2 + 2 * half && 0 <= x % 2 < 2
  {
  }

  /** Conversely, the bits of a sum of eight 0/1 digits are those digits. */
  lemma DigitsAreBits(r: int, c0: int, c1: int, c2: int, c3: int, c4: int, c5: int, c6: int, c7: int)
    requires Binary8(c0, c1, c2, c3, c4, c5, c6, c7)
    requires r == Digits(c0, c1, c2, c3, c4, c5, c6, c7)
    ensures Bit(r, 0) == c0 && Bit(r, 1) == c1 && Bit(r, 2) == c2 && Bit(r, 3) == c3
    ensures Bit(r, 4) == c4 && Bit(r, 5) == c5 && Bit(r, 6) == c6 && Bit(r, 7) == c7
  {
    var q7 := c7;
    var q6 := c6 + 2 * q7;
    var q5 := c5 + 2 * q6;
    var q4 := c4 + 2 * q5;
    var q3 := c3 + 2 * q4;
    var q2 := c2 + 2 * q3;
    var q1 := c1 + 2 * q2;
    Halve(r, c0, q1);
    Halve(q1, c1, q2);
    Halve(q2, c2, q3);
    Halve(q3, c3, q4);
    Halve(q4, c4, q5);
    Halve(q5, c5, q6);
    Halve(q6, c6, q7);
    assert Shr(r, 1) == q1;
    assert Shr(r, 2) == q2;
    assert Shr(r, 3) == q3;
    assert Shr(r, 4) == q4;
    assert Shr(r, 5) == q5;
    assert Shr(r, 6) == q6;
    assert Shr(r, 7) == q7;
  }

  /** Reversing the bits of a byte gives a byte, and reversing twice gives the byte back. */
  lemma ReverseInvolution(v: int)
    requires 0 <= v < 256
    ensures 0 <= Reverse8(v) < 256
    ensures Reverse8(Reverse8(v)) == v
  {
    BitsOfByte(v);
    DigitsAreBits(Reverse8(v), Bit(v, 7), Bit(v, 6), Bit(v, 5), Bit(v, 4),
                  Bit(v, 3), Bit(v, 2), Bit(v, 1), Bit(v, 0));
  }

  /** The table holds 256 bytes and is its own inverse, so it is a permutation of 0..255. */
  lemma TableIsInvolution(i: int)
    requires 0 <= i < 256
    ensures 0 <= Table()[i] < 256
    ensures Table()[Table()[i]] == i
  {
    ReverseInvolution(i);
  }

  /** Only index 255 reverses to 255, so the generating loop stops exactly after it. */
  lemma OnlyLastReversesToMax(k: int)
    requires 0 <= k < 256
    ensures 0 <= Reverse8(k) < 256
    ensures Reverse8(k) == 255 <==> k == 255
  {
    ReverseInvolution(k);
    DigitsAreBits(255, 1, 1, 1, 1, 1, 1, 1, 1);
    assert Reverse8(255) == 255;
  }

  /** The three CPU registers the generating loop uses: `a`, the carry flag and `l` (the index). */
  datatype Cpu = Cpu(a: int, carry: int, index: int)

  predicate Bytes(s: Cpu) {
    0 <= s.a < 256 && 0 <= s.index < 256
  }

  /**
   One pass of the inner loop: `rrc l` rotates the index right, its low bit
   going to the carry and to bit 7; `rla` shifts that carry into `a` from the
   right and takes bit 7 of `a` as the new carry. While the index is a byte
   the source's bitwise `or`s join disjoint bits, so they are sums here.
   */
  function RrcRla(s: Cpu): (r: Cpu)
    requires Bytes(s)
    ensures Bytes(r)
    ensures r.index / 128 == s.index % 2 && r.index % 128 == s.index / 2
    ensures r.a % 2 == s.index % 2 && r.a / 2 == s.a % 128
    ensures r.carry == s.a / 128
  {
    var carry := s.index % 2;
    var index := carry * 128 + s.index / 2;
    var wide := s.a * 2 + carry;
    Cpu(wide % 256, wide / 256 % 2, index)
  }

  /** The state after `k` passes of the inner loop. */
  function Passes(s: Cpu, k: nat): (r: Cpu)
    requires Bytes(s)
    ensures Bytes(r)
  {
    if k == 0 then s else RrcRla(Passes(s, k - 1))
  }

  /**
   One pass, on registers given by their binary digits: the index rotates
   right by one, and `a` shifts left by one with the index's old low bit
   coming in and its own top bit going to the carry.
   */
  lemma OnePass(s: Cpu, i0: int, i1: int, i2: int, i3: int, i4: int, i5: int, i6: int, i7: int,
                        a0: int, a1: int, a2: int, a3: int, a4: int, a5: int, a6: int, a7: int)
    requires Binary8(i0, i1, i2, i3, i4, i5, i6, i7) && Binary8(a0, a1, a2, a3, a4, a5, a6, a7)
    requires s.index == Digits(i0, i1, i2, i3, i4, i5, i6, i7)
    requires s.a == Digits(a0, a1, a2, a3, a4, a5, a6, a7)
    ensures RrcRla(s).index == Digits(i1, i2, i3, i4, i5, i6, i7, i0)
    ensures RrcRla(s).a == Digits(i0, a0, a1, a2, a3, a4, a5, a6)
    ensures RrcRla(s).carry == a7
  {
    var rest := Digits(i1, i2, i3, i4, i5, i6, i7, 0);
    Halve(s.index, i0, rest);
    var low := Digits(i0, a0, a1, a2, a3, a4, a5, a6);
    LowByte(s.a * 2 + i0, low, a7);
    PassParts(s, i0, rest, low, a7);
  }

  /** `RrcRla` in terms of the index's low bit and rest and the low byte and top bit of `2a + carry`. */
  lemma PassParts(s: Cpu, bit: int, rest: int, low: int, top: int)
    requires Bytes(s)
    requires s.index % 2 == bit && s.index / 2 == rest
    requires (s.a * 2 + bit) % 256 == low && (s.a * 2 + bit) / 256 == top && (top == 0 || top == 1)
    ensures RrcRla(s) == Cpu(low, top, bit * 128 + rest)
  {
  }

  /**
   Eight passes rotate the index once around, so it comes back unchanged, and
   shift the old `a` out entirely: what is left is the index read backwards.
   */
  lemma EightPasses(s: Cpu)
    requires Bytes(s)
    ensures Passes(s, 8).index == s.index
    ensures Passes(s, 8).a == Reverse8(s.index)
  {
    var v, w := s.index, s.a;
    BitsOfByte(v);
    BitsOfByte(w);
    EightPassesOnDigits(s, Bit(v, 0), Bit(v, 1), Bit(v, 2), Bit(v, 3), Bit(v, 4), Bit(v, 5), Bit(v, 6), Bit(v, 7),
                           Bit(w, 0), Bit(w, 1), Bit(w, 2), Bit(w, 3), Bit(w, 4), Bit(w, 5), Bit(w, 6), Bit(w, 7));
  }

  /** `EightPasses`, for registers given by their binary digits. */
  lemma EightPassesOnDigits(s: Cpu, i0: int, i1: int, i2: int, i3: int, i4: int, i5: int, i6: int, i7: int,
                                    a0: int, a1: int, a2: int, a3: int, a4: int, a5: int, a6: int, a7: int)
    requires Binary8(i0, i1, i2, i3, i4, i5, i6, i7) && Binary8(a0, a1, a2, a3, a4, a5, a6, a7)
    requires s.index == Digits(i0, i1, i2, i3, i4, i5, i6, i7)
    requires s.a == Digits(a0, a1, a2, a3, a4, a5, a6, a7)
    ensures Passes(s, 8).index == s.index
    ensures Passes(s, 8).a == Digits(i7, i6, i5, i4, i3, i2, i1, i0)
  {
    OnePass(s, i0, i1, i2, i3, i4, i5, i6, i7, a0, a1, a2, a3, a4, a5, a6, a7);
    var s1 := RrcRla(s);
    OnePass(s1, i1, i2, i3, i4, i5, i6, i7, i0, i0, a0, a1, a2, a3, a4, a5, a6);
    var s2 := RrcRla(s1);
    OnePass(s2, i2, i3, i4, i5, i6, i7, i0, i1, i1, i0, a0, a1, a2, a3, a4, a5);
    var s3 := RrcRla(s2);
    OnePass(s3, i3, i4, i5, i6, i7, i0, i1, i2, i2, i1, i0, a0, a1, a2, a3, a4);
    var s4 := RrcRla(s3);
    OnePass(s4, i4, i5, i6, i7, i0, i1, i2, i3, i3, i2, i1, i0, a0, a1, a2, a3);
    var s5 := RrcRla(s4);
    OnePass(s5, i5, i6, i7, i0, i1, i2, i3, i4, i4, i3, i2, i1, i0, a0, a1, a2);
    var s6 := RrcRla(s5);
    OnePass(s6, i6, i7, i0, i1, i2, i3, i4, i5, i5, i4, i3, i2, i1, i0, a0, a1);
    var s7 := RrcRla(s6);
    OnePass(s7, i7, i0, i1, i2, i3, i4, i5, i6, i6, i5, i4, i3, i2, i1, i0, a0);
    var s8 := RrcRla(s7);
    assert Passes(s, 1) == s1;
    assert Passes(s, 2) == s2;
    assert Passes(s, 3) == s3;
    assert Passes(s, 4) == s4;
    assert Passes(s, 5) == s5;
    assert Passes(s, 6) == s6;
    assert Passes(s, 7) == s7;
    assert Passes(s, 8) == s8;
  }

  /** The eight `rrc l` / `rla` passes of one round of the generating loop. */
  method InnerLoop(a0: int, carry0: int, index0: int) returns (a: int, carryBit: int, index: int)
    requires Bytes(Cpu(a0, carry0, index0))
    ensures Cpu(a, carryBit, index) == Passes(Cpu(a0, carry0, index0), 8)
  {
    a, carryBit, index := a0, carry0, index0;
    var b := 0;
    while b < 8
      invariant 0 <= b <= 8
      invariant Cpu(a, carryBit, index) == Passes(Cpu(a0, carry0, index0), b)
    {
      // rrc l
      carryBit := index % 2;
      index := carryBit * 128 + index / 2;
      // rla
      a := a * 2 + carryBit;
      carryBit := a / 256 % 2;
      a := a % 256;
      b := b + 1;
    }
  }

  /**
   The source's generating loop, step for step. It stops when `a` wraps to
   zero, which happens right after the entry for index 255, so the table
   has exactly 256 entries and entry i is the bit-reversal of i.
   */
  method GenerateProceduralData() returns (list: seq<int>)
    ensures |list| == 256
    ensures forall i :: 0 <= i < 256 ==> 0 <= list[i] < 256
    ensures forall i :: 0 <= i < 256 ==> list[i] == Reverse8(i)
    ensures list == Table()
  {
    list := [];
    var a := 0x07;
    var carryBit := 0;
    var index := 0;
    while a != 0
      invariant 0 <= |list| <= 256
      invariant index == |list|
      invariant 0 <= a < 256
      invariant a == 0 <==> |list| == 256
      invariant forall k :: 0 <= k < |list| ==> list[k] == Reverse8(k)
      invariant forall k :: 0 <= k < |list| ==> 0 <= list[k] < 256
      decreases 256 - |list|
    {
      ghost var s0 := Cpu(a, carryBit, index);
      a, carryBit, index := InnerLoop(a, carryBit, index);
      EightPasses(s0);
      OnlyLastReversesToMax(|list|);
      list := list + [a];
      index := index + 1;
      a := a + 1;
      if a > 0xFF {
        a := 0;
      }
    }
  }
}
