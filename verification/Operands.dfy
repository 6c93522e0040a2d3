/**
 The variable-length operand of a Dis object file: the decoder the loader runs, the
 decoder and the encoder the object-file format prescribes, and how they relate.
 */
module Operands {
  import opened Bytes

  datatype Operand = Byte(v: int) | Short(v: int) | Word(v: int) {

    function Size(): nat {
      match this
      case Byte(_) => 1
      case Short(_) => 2
      case Word(_) => 4
    }

    function IntoI32(): int {
      v
    }

    /** A word is truncated to its low 16 bits. */
    function IntoI16(): int {
      if Word? then Signed(v % 0x1_0000, 2) else v
    }

    /** Panics on a word. */
    function IntoU16(): Result<int> {
      if Word? then Fail else Ok(v % 0x1_0000)
    }
  }

  function BigEndian2(h: int, b1: int): int {
    0x100 * h + b1
  }

  function BigEndian4(h: int, b1: int, b2: int, b3: int): int {
    0x100_0000 * h + 0x1_0000 * b1 + 0x100 * b2 + b3
  }

  /**
   The loader's decoder. The mask 0xC0 has already cleared bit 0x20 of `size` when
   that bit is tested, so the sign-extending arms are never taken.
   */
  function ParseOperand(b: seq<byte>): Operand
    requires |b| >= 4
  {
    var size := b[0] / 64 * 64;
    if size == 0x00 then Byte(b[0])
    else if size == 0x40 then Byte(Signed(b[0] % 0x80 + 0x80, 1))
    else
      var negative := size / 32 % 2 != 0;
      var hi: int := if negative then b[0] % 64 + 0xC0 else b[0] % 64;
      if size == 0x80 then Short(Signed(BigEndian2(hi, b[1]), 2))
      else Word(Signed(BigEndian4(hi, b[1], b[2], b[3]), 4))
  }

  /** The operand at offset `o`, which the loader always slices as four bytes. */
  function OperandAt(b: seq<byte>, o: nat): (r: Result<(Operand, nat)>)
    ensures r.Ok? ==> o + 1 <= r.value.1 <= |b|
  {
    if o + 4 <= |b| then
      var p := ParseOperand(b[o..o + 4]);
      Ok((p, o + p.Size()))
    else Fail
  }

  /** The operand's value, as `into_i32` gives it. */
  function IntAt(b: seq<byte>, o: nat): (r: Result<(int, nat)>)
    ensures r.Ok? ==> o + 1 <= r.value.1 <= |b|
  {
    var (p, o1) :- OperandAt(b, o);
    Ok((p.IntoI32(), o1))
  }

  /** How many bytes the format gives an operand whose first byte is `b0`. */
  function FormSize(b0: byte): nat {
    if b0 < 0x80 then 1 else if b0 < 0xC0 then 2 else 4
  }

  /** What the format says the operand denotes: two's complement of 7, 14 or 30 bits. */
  function SpecValue(b: seq<byte>): int
    requires |b| >= 4
  {
    var field: int := if b[0] < 0x80 then b[0]
                 else if b[0] < 0xC0 then BigEndian2(b[0] - 0x80, b[1])
                 else BigEndian4(b[0] - 0xC0, b[1], b[2], b[3]);
    var span: int := if b[0] < 0x80 then 0x80 else if b[0] < 0xC0 then 0x4000 else 0x4000_0000;
    if 2 * field < span then field else field - span
  }

  /** By how much the loader overshoots the format's value. */
  function Overshoot(b0: byte): int {
    if 0x80 <= b0 < 0xC0 && b0 / 32 % 2 == 1 then 0x4000
    else if 0xC0 <= b0 && b0 / 32 % 2 == 1 then 0x4000_0000
    else 0
  }

  /**
   The loader's value is the format's, plus 2^14 or 2^30 exactly when a long form has
   its sign bit 0x20 set; and it consumes the bytes the first byte announces.
   */
  lemma ParseVersusSpec(b: seq<byte>)
    requires |b| >= 4
    ensures ParseOperand(b).v == SpecValue(b) + Overshoot(b[0])
    ensures ParseOperand(b).v == SpecValue(b) <==> b[0] < 0x80 || b[0] / 32 % 2 == 0
    ensures ParseOperand(b).Size() == FormSize(b[0])
  {
    Widths();
    var b0: int := b[0];
    if b0 < 0x80 {
      assert b0 / 64 == 0 || b0 / 64 == 1;
    } else if b0 < 0xC0 {
      assert b0 / 64 == 2;
      assert b0 / 32 == 4 || b0 / 32 == 5;
    } else {
      assert b0 / 64 == 3;
      assert b0 / 32 == 6 || b0 / 32 == 7;
    }
  }

  /** The value the format can carry. */
  predicate Representable(v: int) {
    -0x2000_0000 <= v < 0x2000_0000
  }

  function WordForm(u: int): (e: seq<byte>)
    requires 0 <= u < 0x4000_0000
    ensures |e| == 4 && e[0] >= 0xC0
    ensures u == BigEndian4(e[0] - 0xC0, e[1], e[2], e[3])
  {
    Digits(u);
    [0xC0 + u / 0x100_0000, u / 0x1_0000 % 0x100, u / 0x100 % 0x100, u % 0x100]
  }

  lemma Digits(u: nat)
    ensures u == BigEndian4(u / 0x100_0000, u / 0x1_0000 % 0x100, u / 0x100 % 0x100, u % 0x100)
  {
    assert u / 0x100 / 0x100 == u / 0x1_0000;
    assert u / 0x1_0000 / 0x100 == u / 0x100_0000;
  }

  /** The format's encoder: the shortest form that holds `v`. */
  function Encode(v: int): (e: seq<byte>)
    requires Representable(v)
    ensures 1 <= |e| <= 4
  {
    if -64 <= v < 64 then [if v < 0 then v + 0x80 else v]
    else if -0x2000 <= v < 0x2000 then
      var u := if v < 0 then v + 0x4000 else v;
      [0x80 + u / 256, u % 256]
    else
      WordForm(if v < 0 then v + 0x4000_0000 else v)
  }

  /** What the loader makes of the format's encoding of `v`. */
  function Seen(v: int): int {
    if v >= -64 then v else if v >= -0x2000 then v + 0x4000 else v + 0x4000_0000
  }

  /** The same where the operand goes through `into_i16`. */
  function SeenShort(v: int): int {
    if -0x2000 <= v < 0x2000 then Seen(v) else Signed(Seen(v) % 0x1_0000, 2)
  }

  lemma EncodeBytes(v: int, b: seq<byte>)
    requires Representable(v) && |b| >= 4 && b[..|Encode(v)|] == Encode(v)
    ensures SpecValue(b) == v && FormSize(b[0]) == |Encode(v)|
    ensures Overshoot(b[0]) == Seen(v) - v
  {
    var e := Encode(v);
    assert forall i :: 0 <= i < |e| ==> b[i] == b[..|e|][i];
    if |e| == 2 {
      Widths();
      assert v == (if v < 0 then BigEndian2(b[0] - 0x80, b[1]) - 0x4000 else BigEndian2(b[0] - 0x80, b[1]));
    } else if |e| == 4 {
      assert BigEndian4(b[0] - 0xC0, b[1], b[2], b[3]) == if v < 0 then v + 0x4000_0000 else v;
    }
  }

  /**
   Reading the format's encoding of `v` yields `Seen(v)` and stops at its end: `v`
   itself exactly when `v >= -64`, never a smaller number otherwise.
   */
  lemma ParseOfEncode(v: int, b: seq<byte>)
    requires Representable(v) && |b| >= 4 && b[..|Encode(v)|] == Encode(v)
    ensures ParseOperand(b).v == Seen(v)
    ensures ParseOperand(b).v == v <==> v >= -64
    ensures ParseOperand(b).Size() == |Encode(v)|
    ensures SpecValue(b) == v
  {
    EncodeBytes(v, b);
    ParseVersusSpec(b);
  }

  /** The loader reads an encoded operand wherever four bytes are there to slice. */
  lemma OperandAtEncode(b: seq<byte>, o: nat, v: int)
    requires Representable(v) && Has(b, o, Encode(v)) && o + 4 <= |b|
    ensures OperandAt(b, o).Ok?
    ensures var (p, o1) := OperandAt(b, o).value;
            o1 == o + p.Size() == o + |Encode(v)| && p.IntoI32() == Seen(v) && p.IntoI16() == SeenShort(v)
    ensures IntAt(b, o) == Ok((Seen(v), o + |Encode(v)|))
  {
    var w := b[o..o + 4];
    assert w[..|Encode(v)|] == b[o..o + |Encode(v)|];
    ParseOfEncode(v, w);
  }

  /** A first operand never swallows part of a second one: encodings are prefix-free. */
  lemma EncodePrefixFree(v: int, w: int, s: seq<byte>, t: seq<byte>)
    requires Representable(v) && Representable(w)
    requires Encode(v) + s == Encode(w) + t
    ensures v == w && s == t
  {
    var pad: seq<byte> := [0, 0, 0];
    var b := Encode(v) + s + pad;
    assert b == Encode(v) + (s + pad) == Encode(w) + (t + pad);
    EncodeBytes(v, b);
    EncodeBytes(w, b);
    assert s == (Encode(v) + s)[|Encode(v)|..] && t == (Encode(w) + t)[|Encode(w)|..];
  }

  /** The inverse of the loader's own decoder, on everything it can produce. */
  function EncodeLoadable(v: int): seq<byte>
    requires -64 <= v < 0x4000_0000
  {
    if Representable(v) then Encode(v)
    else WordForm(v)
  }

  lemma ParseOfEncodeLoadable(v: int, b: seq<byte>)
    requires -64 <= v < 0x4000_0000 && |b| >= 4
    requires b[..|EncodeLoadable(v)|] == EncodeLoadable(v)
    ensures ParseOperand(b).v == v && ParseOperand(b).Size() == |EncodeLoadable(v)|
  {
    if Representable(v) {
      ParseOfEncode(v, b);
    } else {
      var e := EncodeLoadable(v);
      assert forall i :: 0 <= i < |e| ==> b[i] == b[..|e|][i];
      Widths();
    }
  }

  /** The decoder's range is that interval. */
  lemma ParseRange(b: seq<byte>)
    requires |b| >= 4
    ensures -64 <= ParseOperand(b).v < 0x4000_0000
  {
    Widths();
  }
}
