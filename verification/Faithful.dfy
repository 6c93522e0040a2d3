/**
 Which encoded contents the loader reads back unchanged. The format sign-extends every
 operand; the loader does so only for the one-byte form, so a value below -64 comes back
 larger. A middle operand is cut to 16 bits, which undoes the error of the four-byte form.
 */
module Faithful {
  import opened Bytes
  import opened Operands
  import opened ObjectFile
  import opened Encoder
  import opened RoundTrip
  import opened WholeFile

  predicate Survives(v: int) {
    v >= -64
  }

  predicate ShortSurvives(v: int) {
    v >= -64 || v < -0x2000
  }

  lemma SeenIdentity(v: int)
    ensures Seen(v) == v <==> Survives(v)
    ensures Seen(v) >= v
    ensures RepresentableShort(v) ==> (SeenShort(v) == v <==> ShortSurvives(v))
  {
  }

  predicate MiddleSurvives(m: Middle) {
    match m.mode
    case MNone => true
    case MImmediate => ShortSurvives(m.imm)
    case _ => ShortSurvives(m.ind)
  }

  predicate SourceDestSurvives(d: SourceDest) {
    match d.mode
    case Immediate => Survives(d.imm)
    case OffsetMP | OffsetFP => Survives(d.ind)
    case DoubleMP | DoubleFP => Survives(d.ind) && Survives(d.ind2)
    case _ => true
  }

  predicate InstructionSurvives(ins: Instruction) {
    MiddleSurvives(ins.middle) && SourceDestSurvives(ins.src) && SourceDestSurvives(ins.dest)
  }

  lemma InstructionIdentity(ins: Instruction)
    requires EncodableInstruction(ins)
    ensures SeenInstruction(ins) == ins <==> InstructionSurvives(ins)
  {
    var m, s, d := ins.middle, ins.src, ins.dest;
    SeenIdentity(m.imm);
    SeenIdentity(m.ind);
    SeenIdentity(0);
    SourceDestIdentity(s);
    SourceDestIdentity(d);
  }

  lemma SourceDestIdentity(d: SourceDest)
    requires EncodableSourceDest(d)
    ensures SeenSourceDest(d) == d <==> SourceDestSurvives(d)
  {
  }

  predicate CodeSurvives(code: seq<Instruction>) {
    forall ins :: ins in code ==> InstructionSurvives(ins)
  }

  lemma CodeIdentity(code: seq<Instruction>)
    requires forall ins :: ins in code ==> EncodableInstruction(ins)
    ensures Map(SeenInstruction, code) == code <==> CodeSurvives(code)
  {
    MapIdentity(SeenInstruction, code);
    forall ins | ins in code
      ensures SeenInstruction(ins) == ins <==> InstructionSurvives(ins)
    {
      InstructionIdentity(ins);
    }
  }

  /**
   The code section, for every list of instructions with no reserved mode: decoding its
   encoding stops at its end, and returns the same list exactly when no operand falls
   in the range the loader misreads.
   */
  lemma CodeSurvivesExactly(b: seq<byte>, o: nat, code: seq<Instruction>)
    requires forall ins :: ins in code ==> EncodableInstruction(ins)
    requires Has(b, o, Concat(EncodeInstruction, code)) && o + |Concat(EncodeInstruction, code)| + SLACK <= |b|
    ensures Many(InstructionAt, b, o, |code|).Ok?
    ensures Many(InstructionAt, b, o, |code|).value.1 == o + |Concat(EncodeInstruction, code)|
    ensures Many(InstructionAt, b, o, |code|).value.0 == code <==> CodeSurvives(code)
  {
    hide *;
    CodeRoundTrip(b, o, code);
    CodeIdentity(code);
  }

  predicate TypesSurvive(types: seq<TypeDesc>) {
    forall t :: t in types ==> Survives(t.no) && Survives(t.size)
  }

  predicate ItemsSurvive(items: seq<Item>) {
    forall it :: it in items ==> Survives(it.offset)
  }

  predicate LinksSurvive(links: seq<Link>) {
    forall l :: l in links ==> Survives(l.entryPc) && Survives(l.desc)
  }

  predicate HeaderSurvives(h: Header) {
    Survives(h.stackExtent) && Survives(h.entryPc) && Survives(h.entryType)
  }

  /** Every operand of the file that is not a count. */
  predicate DisSurvives(d: Dis) {
    && HeaderSurvives(d.header) && CodeSurvives(d.code) && TypesSurvive(d.types)
    && ItemsSurvive(d.items) && LinksSurvive(d.links)
  }

  lemma TypesIdentity(types: seq<TypeDesc>)
    ensures Map(SeenType, types) == types <==> TypesSurvive(types)
  {
  }

  lemma ItemsIdentity(items: seq<Item>)
    ensures Map(SeenItem, items) == items <==> ItemsSurvive(items)
  {
  }

  lemma LinksIdentity(links: seq<Link>)
    ensures Map(SeenLink, links) == links <==> LinksSurvive(links)
  {
  }

  lemma DisIdentity(d: Dis)
    requires Encodable(d)
    ensures SeenDis(d) == d <==> DisSurvives(d)
  {
    hide Map, SeenInstruction, SeenType, SeenItem, SeenLink, CodeSurvives, TypesSurvive, ItemsSurvive, LinksSurvive;
    CodeIdentity(d.code);
    TypesIdentity(d.types);
    ItemsIdentity(d.items);
    LinksIdentity(d.links);
  }

  /**
   An encoded file is read back as the very contents it encodes exactly when every operand
   survives, the loader's checks accept the contents, and its import lists are covered.
   */
  lemma FileSurvivesExactly(d: Dis, more: seq<byte>)
    requires Encodable(d) && Follows(d, more)
    ensures DisAt(EncodeDis(d) + more, 0) == Ok((d, |EncodeDis(d)|)) <==>
            DisSurvives(d) && Accepted(d) && Covered(TailOf(d), d.header, |more|)
  {
    hide *;
    FileRoundTrip(d, more);
    DisIdentity(d);
  }

  /** A module that imports nothing, as the header's flag announces, with no source path. */
  function ImportsNothing(): Dis {
    Dis(Header(None, IMPORT_FLAG, 64, 0, 0, 1, 0, 0, 0), [], [TypeDesc(0, 0, 0, [])], [], [], [], [], Some([]))
  }

  /** Its operands survive and the loader's checks pass, but its last operand slice leaves the file. */
  lemma EmptyImportsAreRefused()
    ensures var d := ImportsNothing();
            Encodable(d) && DisSurvives(d) && Accepted(d) && DisAt(EncodeDis(d), 0) == Fail
  {
    hide DisAt, EncodeDis;
    var d := ImportsNothing();
    DisIdentity(d);
    FileRoundTrip(d, []);
    assert EncodeDis(d) + [] == EncodeDis(d);
  }

  /** The smallest misreading: -65 comes back as 16319. */
  lemma NegativeOperandIsMisread(b: seq<byte>)
    requires |b| == 4 && b == Encode(-65) + [0, 0]
    ensures IntAt(b, 0) == Ok((-65 + 0x4000, 2))
  {
  }
}
