/**
 The encoder of the Dis object-file format, and what the loader is bound to read from
 an encoded file: the same contents with every operand `v` replaced by `Seen(v)`.
 */
module Encoder {
  import opened Bytes
  import opened Operands
  import opened ObjectFile

  function Concat<T>(e: T --> seq<byte>, xs: seq<T>): (r: seq<byte>)
    requires forall x :: x in xs ==> e.requires(x)
  {
    if xs == [] then [] else e(xs[0]) + Concat(e, xs[1..])
  }

  function Map<T, U>(f: T -> U, xs: seq<T>): (r: seq<U>)
    ensures |r| == |xs|
    ensures forall i :: 0 <= i < |xs| ==> r[i] == f(xs[i])
  {
    if xs == [] then [] else [f(xs[0])] + Map(f, xs[1..])
  }

  // The numbers of the format, stated apart from those the loader compares with

  const PLAIN_MAGIC: int := 819248
  const SIGNED_MAGIC: int := 923426
  const EXCEPTION_FLAG: int := 32
  const IMPORT_FLAG: int := 64

  /** One of the eight flags, alone. */
  predicate FormatFlag(f: int) {
    f == 1 || f == 2 || f == 4 || f == 8 || f == 16 || f == EXCEPTION_FLAG || f == IMPORT_FLAG || f == 128
  }

  function ModeNumber(m: Mode): (n: nat)
    ensures n < 8
  {
    match m
    case OffsetMP => 0
    case OffsetFP => 1
    case Immediate => 2
    case NoOperand => 3
    case DoubleMP => 4
    case DoubleFP => 5
    case Reserved1 => 6
    case Reserved2 => 7
  }

  function MiddleNumber(m: MiddleMode): (n: nat)
    ensures n < 4
  {
    match m
    case MNone => 0
    case MImmediate => 1
    case MOffsetFP => 2
    case MOffsetMP => 3
  }

  /** The address byte: destination in bits 0 to 2, source in bits 3 to 5, middle in bits 6 and 7. */
  function AddressByte(dest: Mode, source: Mode, middle: MiddleMode): byte {
    ModeNumber(dest) + 8 * ModeNumber(source) + 64 * MiddleNumber(middle)
  }

  /** The size of a scalar in the file. */
  function ScalarBytes(kind: Kind): nat {
    match kind
    case Byte8 => 1
    case Int32 => 4
    case Float64 => 8
    case Int64 => 8
  }

  /** The values of a kind; a float's are its bit patterns. */
  predicate Carries(kind: Kind, v: int) {
    match kind
    case Byte8 => 0 <= v < 0x100
    case Int32 => -0x8000_0000 <= v < 0x8000_0000
    case Float64 => 0 <= v < 0x1_0000_0000_0000_0000
    case Int64 => -0x8000_0000_0000_0000 <= v < 0x8000_0000_0000_0000
  }

  // Code

  predicate RepresentableShort(v: int) {
    InSigned(v, 2)
  }

  /** The fields a mode does not use are zero. */
  predicate EncodableMiddle(m: Middle) {
    match m.mode
    case MNone => m.imm == 0 && m.ind == 0
    case MImmediate => RepresentableShort(m.imm) && m.ind == 0
    case _ => RepresentableShort(m.ind) && m.imm == 0
  }

  predicate EncodableSourceDest(d: SourceDest) {
    match d.mode
    case NoOperand => d.imm == 0 && d.ind == 0 && d.ind2 == 0
    case Immediate => Representable(d.imm) && d.ind == 0 && d.ind2 == 0
    case OffsetMP | OffsetFP => Representable(d.ind) && d.imm == 0 && d.ind2 == 0
    case DoubleMP | DoubleFP => Representable(d.ind) && Representable(d.ind2) && d.imm == 0
    case Reserved1 | Reserved2 => false
  }

  /** No reserved mode, and the operands are the ones the address byte announces. */
  predicate EncodableInstruction(ins: Instruction) {
    && EncodableMiddle(ins.middle) && EncodableSourceDest(ins.src) && EncodableSourceDest(ins.dest)
    && ins.address == AddressByte(ins.dest.mode, ins.src.mode, ins.middle.mode)
  }

  function EncodeMiddle(m: Middle): seq<byte>
    requires EncodableMiddle(m)
  {
    Widths();
    match m.mode
    case MNone => []
    case MImmediate => Encode(m.imm)
    case _ => Encode(m.ind)
  }

  function EncodeSourceDest(d: SourceDest): seq<byte>
    requires EncodableSourceDest(d)
  {
    match d.mode
    case NoOperand => []
    case Immediate => Encode(d.imm)
    case OffsetMP | OffsetFP => Encode(d.ind)
    case _ => Encode(d.ind) + Encode(d.ind2)
  }

  function EncodeInstruction(ins: Instruction): (e: seq<byte>)
    requires EncodableInstruction(ins)
  {
    [ins.opcode, ins.address] + (EncodeMiddle(ins.middle) + (EncodeSourceDest(ins.src) + EncodeSourceDest(ins.dest)))
  }

  function SeenInstruction(ins: Instruction): Instruction {
    ins.(middle := Middle(ins.middle.mode, SeenShort(ins.middle.imm), SeenShort(ins.middle.ind)),
         src := SeenSourceDest(ins.src), dest := SeenSourceDest(ins.dest))
  }

  function SeenSourceDest(d: SourceDest): SourceDest {
    SourceDest(d.mode, Seen(d.imm), Seen(d.ind), Seen(d.ind2))
  }

  // Type descriptors

  predicate EncodableType(t: TypeDesc) {
    && Representable(t.no) && Representable(t.size)
    && Representable(t.mapSize) && t.mapSize == |t.map_|
  }

  function EncodeType(t: TypeDesc): seq<byte>
    requires EncodableType(t)
  {
    Encode(t.no) + (Encode(t.size) + (Encode(t.mapSize) + t.map_))
  }

  function SeenType(t: TypeDesc): TypeDesc {
    t.(no := Seen(t.no), size := Seen(t.size))
  }

  // Data items

  function EncodeWord(v: int): seq<byte>
    requires InSigned(v, 4)
  {
    Widths();
    BE(v, 4)
  }

  /** The high nibble of the code byte. */
  function Code(p: Payload): nat {
    match p
    case Scalars(Byte8, _) => 1
    case Scalars(Int32, _) => 2
    case Text(_) => 3
    case Scalars(Float64, _) => 4
    case Array(_, _) => 5
    case SetIndex(_) => 6
    case Restore => 7
    case Scalars(Int64, _) => 8
  }

  predicate EncodablePayload(p: Payload, count: int) {
    match p
    case Scalars(kind, vals) => |vals| == count && forall v :: v in vals ==> Carries(kind, v)
    case Text(s) => |s| == count
    case Array(typ, len) => InSigned(typ, 4) && InSigned(len, 4)
    case SetIndex(index) => InSigned(index, 4)
    case Restore => true
  }

  /** A count of 1 to 15 may sit in the code byte; any other is escaped. */
  predicate EncodableItem(it: Item) {
    && (if it.escaped then it.count >= 0 && Representable(it.count) else 1 <= it.count <= 15)
    && Representable(it.offset)
    && EncodablePayload(it.payload, it.count)
  }

  function ScalarEncoder(kind: Kind): int --> seq<byte> {
    (v: int) requires Carries(kind, v) => BE(v, ScalarBytes(kind))
  }

  function EncodePayload(p: Payload, count: int): seq<byte>
    requires EncodablePayload(p, count)
  {
    match p
    case Scalars(kind, vals) => Concat(ScalarEncoder(kind), vals)
    case Text(s) => s
    case Array(typ, len) => EncodeWord(typ) + EncodeWord(len)
    case SetIndex(index) => EncodeWord(index)
    case Restore => []
  }

  function CodeByte(it: Item): (c: byte)
    requires EncodableItem(it)
    ensures c != 0 && c / 16 == Code(it.payload) && c % 16 == if it.escaped then 0 else it.count
  {
    16 * Code(it.payload) + if it.escaped then 0 else it.count
  }

  function EncodeItem(it: Item): (e: seq<byte>)
    requires EncodableItem(it)
    ensures |e| >= 2 && e[0] != 0
  {
    [CodeByte(it)] + ((if it.escaped then Encode(it.count) else [])
      + (Encode(it.offset) + EncodePayload(it.payload, it.count)))
  }

  function SeenItem(it: Item): Item {
    it.(offset := Seen(it.offset))
  }

  // Names, links and imports

  predicate EncodableName(s: seq<byte>) {
    forall i :: 0 <= i < |s| ==> s[i] != 0
  }

  function EncodeName(s: seq<byte>): seq<byte> {
    s + [0]
  }

  predicate EncodableLink(l: Link) {
    Representable(l.entryPc) && Representable(l.desc) && InSigned(l.sig, 4) && EncodableName(l.name)
  }

  function EncodeLink(l: Link): seq<byte>
    requires EncodableLink(l)
  {
    Encode(l.entryPc) + (Encode(l.desc) + (EncodeWord(l.sig) + EncodeName(l.name)))
  }

  function SeenLink(l: Link): Link {
    l.(entryPc := Seen(l.entryPc), desc := Seen(l.desc))
  }

  predicate EncodableImport(i: Import) {
    InSigned(i.sig, 4) && EncodableName(i.name)
  }

  function EncodeImport(i: Import): seq<byte>
    requires EncodableImport(i)
  {
    EncodeWord(i.sig) + EncodeName(i.name)
  }

  predicate EncodableImports(ms: seq<Import>) {
    Representable(|ms|) && forall i :: i in ms ==> EncodableImport(i)
  }

  function EncodeImports(ms: seq<Import>): (e: seq<byte>)
    requires EncodableImports(ms)
    ensures |e| >= 1 && (ms == [] ==> |e| == 1)
  {
    Encode(|ms|) + Concat(EncodeImport, ms)
  }

  // Header

  predicate EncodableHeader(h: Header) {
    && (h.signature.Some? ==> Representable(|h.signature.value|))
    && FormatFlag(h.flag)
    && Representable(h.stackExtent) && Representable(h.entryPc) && Representable(h.entryType)
    && 0 <= h.codeSize && Representable(h.codeSize)
    && 0 <= h.dataSize && Representable(h.dataSize)
    && 0 <= h.typeSize && Representable(h.typeSize)
    && 0 <= h.linkSize && Representable(h.linkSize)
  }

  function EncodeSignature(s: Option<seq<byte>>): seq<byte>
    requires s.Some? ==> Representable(|s.value|)
  {
    match s
    case None => Encode(PLAIN_MAGIC)
    case Some(bytes) => Encode(SIGNED_MAGIC) + (Encode(|bytes|) + bytes)
  }

  function HeaderFields(h: Header): seq<int> {
    [h.stackExtent, h.codeSize, h.dataSize, h.typeSize, h.linkSize, h.entryPc, h.entryType]
  }

  function EncodeHeader(h: Header): seq<byte>
    requires EncodableHeader(h)
  {
    EncodeSignature(h.signature) + (Encode(h.flag) + Concat(Encode, HeaderFields(h)))
  }

  function SeenHeader(h: Header): Header {
    h.(stackExtent := Seen(h.stackExtent), entryPc := Seen(h.entryPc), entryType := Seen(h.entryType))
  }

  // The whole file

  predicate EncodableTail(t: Tail, h: Header) {
    && EncodableName(t.name)
    && |t.links| == h.linkSize && (forall l :: l in t.links ==> EncodableLink(l))
    && (h.flag != IMPORT_FLAG ==> t.imports == [])
    && Representable(|t.imports|) && (forall ms :: ms in t.imports ==> EncodableImports(ms))
    && (h.flag == EXCEPTION_FLAG <==> t.path.None?)
    && (t.path.Some? ==> EncodableName(t.path.value))
  }

  predicate Encodable(d: Dis) {
    && EncodableHeader(d.header)
    && |d.code| == d.header.codeSize && (forall ins :: ins in d.code ==> EncodableInstruction(ins))
    && |d.types| == d.header.typeSize && (forall t :: t in d.types ==> EncodableType(t))
    && (forall it :: it in d.items ==> EncodableItem(it))
    && EncodableTail(TailOf(d), d.header)
  }

  function TailOf(d: Dis): Tail {
    Tail(d.name, d.links, d.imports, d.path)
  }

  /** The import section: counted lists, then one byte the loader skips. */
  function EncodeImportSection(h: Header, imports: seq<seq<Import>>): seq<byte>
    requires Representable(|imports|) && forall ms :: ms in imports ==> EncodableImports(ms)
  {
    if h.flag == IMPORT_FLAG then Encode(|imports|) + (Concat(EncodeImports, imports) + [0]) else []
  }

  function EncodePath(p: Option<seq<byte>>): seq<byte> {
    match p
    case None => []
    case Some(s) => EncodeName(s)
  }

  function EncodeTail(t: Tail, h: Header): seq<byte>
    requires EncodableTail(t, h)
  {
    EncodeName(t.name) + (Concat(EncodeLink, t.links) + (EncodeImportSection(h, t.imports) + EncodePath(t.path)))
  }

  function EncodeDis(d: Dis): seq<byte>
    requires Encodable(d)
  {
    EncodeHeader(d.header) + (Concat(EncodeInstruction, d.code) + (Concat(EncodeType, d.types)
      + (Concat(EncodeItem, d.items) + ([0] + EncodeTail(TailOf(d), d.header)))))
  }

  function SeenDis(d: Dis): Dis {
    Dis(SeenHeader(d.header), Map(SeenInstruction, d.code), Map(SeenType, d.types), Map(SeenItem, d.items),
        d.name, Map(SeenLink, d.links), d.imports, d.path)
  }
}
