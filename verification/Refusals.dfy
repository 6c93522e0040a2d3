/**
 What the loader refuses, for arbitrary bytes: the round trips say what becomes of encoded
 files, and here is what becomes of bytes that no encoder writes.
 */
module Refusals {
  import opened Bytes
  import opened Operands
  import opened ObjectFile
  import opened Encoder
  import opened RoundTrip
  import opened WholeFile
  import opened Handlers

  // Names and words

  /** A name is read exactly where a zero byte follows, and is what an encoder writes. */
  lemma {:induction false} NameExactly(b: seq<byte>, o: nat)
    ensures NameAt(b, o).Ok? <==> exists i :: o <= i < |b| && b[i] == 0
    ensures NameAt(b, o).Ok? ==>
              EncodableName(NameAt(b, o).value.0) && Has(b, o, EncodeName(NameAt(b, o).value.0))
    decreases |b| - o
  {
    if o < |b| && b[o] != 0 {
      NameExactly(b, o + 1);
      if NameAt(b, o + 1).Ok? {
        var s := NameAt(b, o + 1).value.0;
        assert EncodeName([b[o]] + s) == [b[o]] + EncodeName(s);
        assert Has(b, o, [b[o]]);
        HasConcat(b, o, [b[o]], EncodeName(s));
      }
    }
  }

  // Header

  /** A flag is one of the eight, in one byte or two. */
  lemma FlagExactly(b: seq<byte>, o: nat)
    ensures FlagAt(b, o).Ok? <==> IntAt(b, o).Ok? && FormatFlag(IntAt(b, o).value.0) && FormSize(b[o]) < 4
    ensures FlagAt(b, o).Ok? ==> FlagAt(b, o) == IntAt(b, o)
  {
    if o + 4 <= |b| {
      ParseVersusSpec(b[o..o + 4]);
      ParseRange(b[o..o + 4]);
    }
    hide ParseOperand;
  }

  /** An accepted header starts with one of two magic numbers; its sizes are not negative. */
  lemma HeaderRefusals(b: seq<byte>, o: nat)
    requires HeaderAt(b, o).Ok?
    ensures var h := HeaderAt(b, o).value.0;
            && IntAt(b, o).Ok? && IntAt(b, o).value.0 == (if h.signature.Some? then SIGNED_MAGIC else PLAIN_MAGIC)
            && FormatFlag(h.flag)
            && h.codeSize >= 0 && h.dataSize >= 0 && h.typeSize >= 0 && h.linkSize >= 0
  {
    hide IntAt, FlagAt, Many;
    FlagExactly(b, SignatureAt(b, o).value.1);
  }

  /** The length of a signature is an operand, which must not be negative. */
  lemma SignatureRefusals(b: seq<byte>, o: nat)
    requires SignatureAt(b, o).Ok? && SignatureAt(b, o).value.0.Some?
    ensures var (s, o2) := SignatureAt(b, o).value;
            && IntAt(b, IntAt(b, o).value.1).Ok? && IntAt(b, IntAt(b, o).value.1).value.0 == |s.value|
            && o2 == IntAt(b, IntAt(b, o).value.1).value.1 + |s.value| <= |b|
            && s.value == b[o2 - |s.value|..o2]
  {
    hide OperandAt;
  }

  // Code

  /** An instruction with a reserved destination is refused. */
  lemma ReservedDestination(b: seq<byte>, o: nat, source: Mode, middle: MiddleMode, dest: Mode)
    requires o + 2 <= |b| && b[o + 1] == AddressByte(dest, source, middle)
    requires dest == Reserved1 || dest == Reserved2
    ensures InstructionAt(b, o) == Fail
  {
    hide AddressByte, DestMode, SourceMode, MiddleModeAt, OperandAt;
    ModesOfAddress(dest, source, middle);
    assert b[o..o + 2][1] == b[o + 1];
  }

  /** Under a reserved source one operand is read and dropped. */
  lemma ReservedSource(b: seq<byte>, o: nat, ins: Instruction, dropped: int)
    requires EncodableMiddle(ins.middle) && EncodableSourceDest(ins.dest) && Representable(dropped)
    requires ins.src.mode == Reserved1 || ins.src.mode == Reserved2
    requires ins.address == AddressByte(ins.dest.mode, ins.src.mode, ins.middle.mode)
    requires var e := EncodeMiddle(ins.middle) + (Encode(dropped) + EncodeSourceDest(ins.dest));
             Has(b, o, [ins.opcode, ins.address] + e) && o + 2 + |e| + SLACK <= |b|
    ensures InstructionAt(b, o).Ok?
    ensures var (i, o1) := InstructionAt(b, o).value;
            && i == SeenInstruction(ins.(src := SourceDest(ins.src.mode, 0, 0, 0)))
            && o1 == o + 2 + |EncodeMiddle(ins.middle)| + |Encode(dropped)| + |EncodeSourceDest(ins.dest)|
  {
    ModesOfAddress(ins.dest.mode, ins.src.mode, ins.middle.mode);
    hide Encode, MiddleAt, EncodeSourceDest, EncodeMiddle, AddressByte, DestMode, SourceMode, MiddleModeAt, IntAt;
    var head := [ins.opcode, ins.address];
    var m, s, d := EncodeMiddle(ins.middle), Encode(dropped), EncodeSourceDest(ins.dest);
    HasConcat(b, o, head, m + (s + d));
    assert SliceAt(b, o, 2) == Ok((head, o + 2));
    hide Has;
    HasConcat(b, o + 2, m, s + d);
    HasConcat(b, o + 2 + |m|, s, d);
    MiddleAtEncode(b, o + 2, ins.middle);
    OperandAtEncode(b, o + 2 + |m|, dropped);
    SourceDestAtEncode(b, o + 2 + |m| + |s|, ins.dest, true);
  }

  // Data items

  /** An item with an unknown code, or a negative count, is refused. */
  lemma ItemRefusals(b: seq<byte>, o: nat)
    requires o < |b| && b[o] != 0
    requires b[o] / 16 == 0 || b[o] / 16 > 8 || (b[o] % 16 == 0 && IntAt(b, o + 1).Ok? && IntAt(b, o + 1).value.0 < 0)
    ensures ItemAt(b, o) == Fail && ItemsAt(b, o) == Fail
  {
    hide IntAt, ScalarsAt, WordAt, SliceAt;
  }

  /** The data section ends in a zero byte, and no item starts with one. */
  lemma {:induction false} ItemsEndInZero(b: seq<byte>, o: nat)
    requires ItemsAt(b, o).Ok?
    ensures b[ItemsAt(b, o).value.1 - 1] == 0 && (ItemsAt(b, o).value.0 == [] <==> b[o] == 0)
    decreases |b| - o
  {
    if b[o] != 0 {
      hide ItemAt;
      ItemsEndInZero(b, ItemAt(b, o).value.1);
    }
  }

  // Imports and handlers

  /** A negative count of imports or of handlers is refused. */
  lemma NegativeCounts(b: seq<byte>, o: nat)
    requires IntAt(b, o).Ok? && IntAt(b, o).value.0 < 0
    ensures ImportsAt(b, o) == Fail && ImportsOfModuleAt(b, o) == Fail && HandlerCountAt(b, o) == Fail
  {
  }

  // Whole files

  /** Whatever the bytes, contents that are accepted pass the checks. */
  lemma AcceptedContents(b: seq<byte>)
    requires DisAt(b, 0).Ok?
    ensures Accepted(DisAt(b, 0).value.0)
  {
    hide HeaderAt, InstructionAt, TypeDescAt, ItemsAt, NameAt, ImportsAt, LinkReader;
    var ((h, code, types), o1) := FrontAt(b, 0).value;
    var o2 := ItemsAt(b, o1).value.1;
    var o3 := NameAt(b, o2).value.1;
    AcceptedLinks(b, o3, h.linkSize, |types|);
  }

  lemma {:induction false} AcceptedLinks(b: seq<byte>, o: nat, n: nat, nTypes: nat)
    requires Many(LinkReader(nTypes), b, o, n).Ok?
    ensures LinksKnown(Many(LinkReader(nTypes), b, o, n).value.0, nTypes)
    decreases n
  {
    if n > 0 {
      ManyCons(LinkReader(nTypes), b, o, n - 1);
      hide LinkReader, DescKnown;
      AcceptedLinks(b, LinkReader(nTypes)(b, o).value.1, n - 1, nTypes);
      AcceptedLink(b, o, nTypes);
    }
  }

  lemma AcceptedLink(b: seq<byte>, o: nat, nTypes: nat)
    requires LinkReader(nTypes)(b, o).Ok?
    ensures DescKnown(LinkReader(nTypes)(b, o).value.0, nTypes)
  {
    hide IntAt, WordAt, NameAt;
  }
}
