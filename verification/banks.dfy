/**
 Banked addressing of the cartridge image: 16-bit bank-relative offsets are
 turned into positions of the flat ROM buffer, and two bytes are joined into
 a 16-bit word.
 */
module Banks {
  import opened Results
  import Arithmetic

  type byte = b: int | 0 <= b < 256

  /** The size of one ROM bank. */
  const BankSize: nat := 0x4000

  /**
   Joins a low and a high byte into a 16-bit word (the source's `byteSwap`).
   Splitting the word again gives back both bytes.
   */
  function ByteSwap(lsb: byte, msb: byte): (w: nat)
    ensures w < 0x10000
    ensures w / 256 == msb && w % 256 == lsb
  {
    msb * 256 + lsb
  }

  /** The shift-and-or of the source is the same word as the arithmetic above. */
  lemma ByteSwapIsShiftOr(lsb: bv8, msb: bv8)
    ensures ((msb as bv16 << 8) | lsb as bv16) as int == ByteSwap(lsb as int, msb as int)
  {
  }

  /**
   The linear ROM position of a bank-relative offset: only the low 14 bits of
   the offset select within the bank, so the result always lies inside `bank`.
   */
  function CalculateAddress(offset: nat, bank: nat): (p: nat)
    ensures bank * BankSize <= p < (bank + 1) * BankSize
    ensures p / BankSize == bank
    ensures p % BankSize == offset % BankSize
  {
    BankSize * bank + offset % BankSize
  }

  /**
   For a 16-bit offset built from two bytes, masking with 0x3FFF (as the
   source does) is the remainder modulo the bank size used above.
   */
  lemma MaskIsRemainder(lsb: bv8, msb: bv8)
    ensures (((msb as bv16 << 8) | lsb as bv16) & 0x3FFF) as int
            == ByteSwap(lsb as int, msb as int) % BankSize
  {
    var low6 := msb & 0x3F;
    MaskKeepsLowBits(lsb, msb);
    ByteSwapIsShiftOr(lsb, low6);
    LowSixBits(msb);
    RemainderOfWord(lsb as int, msb as int);
  }

  /** Masking the joined word with 0x3FFF keeps the low six bits of the high byte. */
  lemma MaskKeepsLowBits(lsb: bv8, msb: bv8)
    ensures (((msb as bv16 << 8) | lsb as bv16) & 0x3FFF) == (((msb & 0x3F) as bv16 << 8) | lsb as bv16)
  {
  }

  lemma LowSixBits(msb: bv8)
    ensures (msb & 0x3F) as int == msb as int % 64
  {
  }

  /** The bank remainder of a word keeps the low six bits of its high byte. */
  lemma RemainderOfWord(lsb: byte, msb: byte)
    ensures ByteSwap(lsb, msb) % BankSize == (msb % 64) * 256 + lsb
  {
    var mid := (msb % 64) * 256 + lsb;
    assert ByteSwap(lsb, msb) == (msb / 64) * BankSize + mid;
    Arithmetic.DivModUnique(ByteSwap(lsb, msb), BankSize, msb / 64, mid);
  }

  /** Offsets that agree in their low 14 bits name the same ROM position. */
  lemma {:induction false} HighBitsIgnored(offset: nat, bank: nat, k: nat)
    ensures CalculateAddress(offset + k * BankSize, bank) == CalculateAddress(offset, bank)
  {
    assert (offset + k * BankSize) % BankSize == offset % BankSize by {
      ModAddMultiple(offset, k);
    }
  }

  lemma {:induction false} ModAddMultiple(a: nat, k: nat)
    ensures (a + k * BankSize) % BankSize == a % BankSize
  {
    if k > 0 {
      ModAddMultiple(a, k - 1);
      assert a + k * BankSize == (a + (k - 1) * BankSize) + BankSize;
    }
  }

  /** The level pointer table of Kirby's Dreamland 2 sits at offset 0x511F of bank 8. */
  lemma LevelTableAddress()
    ensures CalculateAddress(0x511F, 8) == 0x2111F
  {
  }

  /** A checked read of one ROM byte: a position past the end is an error. */
  function At(rom: seq<byte>, i: int): (r: Result<byte>)
    ensures r.Success? <==> 0 <= i < |rom|
    ensures r.Success? ==> r.value == rom[i]
    ensures r.Failure? ==> r.error == OutOfRange(i)
  {
    if 0 <= i < |rom| then Success(rom[i]) else Failure(OutOfRange(i))
  }
}
