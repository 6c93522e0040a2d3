/**
 The bit operations of the source against the arithmetic that stands for them elsewhere in
 the model.
 */
module BitOps {
  import opened Bytes
  import opened Operands
  import opened ObjectFile
  import opened Encoder
  import opened HeapModel

  function SizeBits(x: bv8): int {
    (x & 0xC0) as int
  }

  function NegativeByte(x: bv8): int {
    (x | !0x7F) as int
  }

  /** The first byte of a long form: its top bits are set if bit 0x20 of the masked size is. */
  function HighByte(x: bv8): int {
    (if (x & 0xC0) & 0x20 != 0 then x | !0x3F else x & 0x3F) as int
  }

  lemma SizeIs(x: bv8)
    ensures SizeBits(x) == x as int / 64 * 64
  {
  }

  lemma NegativeIs(x: bv8)
    ensures NegativeByte(x) == x as int % 0x80 + 0x80
  {
  }

  lemma HighIs(x: bv8)
    ensures HighByte(x) == x as int % 64
  {
  }

  /** The loader's operand decoder with its masks, for a first byte `x`. */
  function BitwiseOperand(x: bv8, b: seq<byte>): Operand
    requires |b| >= 4
  {
    if SizeBits(x) == 0x00 then Byte(Signed(b[0], 1))
    else if SizeBits(x) == 0x40 then Byte(Signed(NegativeByte(x), 1))
    else if SizeBits(x) == 0x80 then Short(Signed(BigEndian2(HighByte(x), b[1]), 2))
    else Word(Signed(BigEndian4(HighByte(x), b[1], b[2], b[3]), 4))
  }

  lemma ParseOperandIsBitwise(x: bv8, b: seq<byte>)
    requires |b| >= 4 && b[0] == x as int
    ensures ParseOperand(b) == BitwiseOperand(x, b)
  {
    hide Signed, SizeBits, NegativeByte, HighByte;
    SizeIs(x);
    NegativeIs(x);
    HighIs(x);
    SmallByte(b[0]);
    MaskedSize(b[0]);
  }

  lemma MaskedSize(b: byte)
    ensures b as int / 64 * 64 / 32 % 2 == 0
    ensures b as int / 64 * 64 == 0 <==> b < 0x40
  {
  }

  lemma SmallByte(b: byte)
    ensures b < 0x40 ==> Signed(b, 1) == b
  {
  }

  /** Shifting right by `i` and testing the low bit. */
  lemma {:induction false} BitIsShift(x: bv8, i: nat)
    requires i < 8
    ensures Bit(x as nat, i) <==> (x >> i) & 1 == 1
    decreases i
  {
    if i == 0 {
      LowBit(x);
    } else {
      BitIsShift(x >> 1, i - 1);
      HalfShift(x, i);
    }
  }

  lemma LowBit(x: bv8)
    ensures x as int % 2 == 1 <==> x & 1 == 1
  {
  }

  lemma HalfShift(x: bv8, i: nat)
    requires 0 < i < 8
    ensures (x >> 1) as int == x as int / 2 && (x >> 1) >> (i - 1) == x >> i
  {
  }

  /** Word `w` is marked by bit `7 - w % 8` of map byte `w / 8`, and no word behind the map is. */
  lemma MarkedIsShift(map_: seq<byte>, w: nat, x: bv8)
    requires w / 8 < |map_| ==> map_[w / 8] == x as int
    ensures Marked(map_, w) <==> w < 8 * |map_| && (x >> (7 - w % 8)) & 1 == 1
  {
    BitIsShift(x, 7 - w % 8);
  }

  /** The three modes of the address byte, by shifts and masks: their numbers are its bits. */
  lemma AddressBits(x: bv8)
    ensures ModeNumber(DestMode(x as int)) == (x & 7) as int
    ensures ModeNumber(SourceMode(x as int)) == ((x >> 3) & 7) as int
    ensures MiddleNumber(MiddleModeAt(x as int)) == (x >> 6) as int
  {
    assert (x & 7) as int == x as int % 8;
    assert ((x >> 3) & 7) as int == x as int / 8 % 8;
    assert (x >> 6) as int == x as int / 64;
  }
}
