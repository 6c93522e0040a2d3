/**
 The contents of a Dis object file, and the pure functions that say what the loader
 reads from a byte string: each takes the file and a cursor and returns the value
 read with the new cursor, or `Fail` where the loader panics.
 */
module ObjectFile {
  import opened Bytes
  import opened Operands

  // Sequences of fixed length

  type Reader<T> = (seq<byte>, nat) -> Result<(T, nat)>

  /** Reads `n` values one after the other. */
  function Many<T>(f: Reader<T>, b: seq<byte>, o: nat, n: nat): (r: Result<(seq<T>, nat)>)
    ensures r.Ok? ==> |r.value.0| == n
    decreases n
  {
    if n == 0 then Ok(([], o))
    else
      var (x, o1) :- f(b, o);
      var (xs, o2) :- Many(f, b, o1, n - 1);
      Ok(([x] + xs, o2))
  }

  /** The outcome `r` of a read that had already produced `acc`. */
  function Prepend<T>(acc: seq<T>, r: Result<(seq<T>, nat)>): Result<(seq<T>, nat)> {
    if r.Fail? then Fail else Ok((acc + r.value.0, r.value.1))
  }

  lemma PrependNothing<T>(r: Result<(seq<T>, nat)>)
    ensures Prepend([], r) == r
  {
    if r.Ok? {
      assert [] + r.value.0 == r.value.0;
    }
  }

  lemma ManyDone<T>(f: Reader<T>, b: seq<byte>, o: nat, acc: seq<T>)
    ensures Prepend(acc, Many(f, b, o, 0)) == Ok((acc, o))
  {
    assert acc + [] == acc;
  }

  /** One round of a loop that collects what `Many` describes. */
  lemma ManyStep<T>(f: Reader<T>, b: seq<byte>, o: nat, n: nat, acc: seq<T>)
    requires n > 0
    ensures Prepend(acc, Many(f, b, o, n)) ==
            if f(b, o).Fail? then Fail
            else Prepend(acc + [f(b, o).value.0], Many(f, b, f(b, o).value.1, n - 1))
  {
    if f(b, o).Ok? {
      var (x, o1) := f(b, o).value;
      var r := Many(f, b, o1, n - 1);
      if r.Ok? {
        assert acc + ([x] + r.value.0) == acc + [x] + r.value.0;
      }
    }
  }

  // Fixed-width fields

  function SliceAt(b: seq<byte>, o: nat, n: nat): (r: Result<(seq<byte>, nat)>)
    ensures r.Ok? ==> |r.value.0| == n && r.value.1 == o + n <= |b|
  {
    if o + n <= |b| then Ok((b[o..o + n], o + n)) else Fail
  }

  /** A big-endian signed 32-bit word. */
  function WordAt(b: seq<byte>, o: nat): (r: Result<(int, nat)>)
    ensures r.Ok? ==> r.value.1 == o + 4 <= |b| && InSigned(r.value.0, 4)
  {
    var (bs, o1) :- SliceAt(b, o, 4);
    Ok((Signed(FromBE(bs), 4), o1))
  }

  /** A string of bytes up to a zero byte, which is consumed. */
  function NameAt(b: seq<byte>, o: nat): (r: Result<(seq<byte>, nat)>)
    ensures r.Ok? ==> o < r.value.1 == o + |r.value.0| + 1 <= |b|
    decreases |b| - o
  {
    if o >= |b| then Fail
    else if b[o] == 0 then Ok(([], o + 1))
    else
      var (s, o1) :- NameAt(b, o + 1);
      Ok(([b[o]] + s, o1))
  }

  // Code

  datatype MiddleMode = MNone | MImmediate | MOffsetFP | MOffsetMP

  datatype Mode =
    | OffsetMP | OffsetFP | Immediate | NoOperand
    | DoubleMP | DoubleFP | Reserved1 | Reserved2

  datatype Middle = Middle(mode: MiddleMode, imm: int, ind: int)

  datatype SourceDest = SourceDest(mode: Mode, imm: int, ind: int, ind2: int)

  datatype Instruction =
    Instruction(opcode: byte, address: byte, middle: Middle, src: SourceDest, dest: SourceDest)

  /** The address byte: destination in bits 0-2, source in bits 3-5, middle in bits 6-7. */
  function ModeOf(bits: int): Mode {
    match bits
    case 0 => OffsetMP
    case 1 => OffsetFP
    case 2 => Immediate
    case 3 => NoOperand
    case 4 => DoubleMP
    case 5 => DoubleFP
    case 6 => Reserved1
    case _ => Reserved2
  }

  function MiddleModeOf(bits: int): MiddleMode {
    match bits
    case 0 => MNone
    case 1 => MImmediate
    case 2 => MOffsetFP
    case _ => MOffsetMP
  }

  function DestMode(address: byte): Mode {
    ModeOf(address % 8)
  }

  function SourceMode(address: byte): Mode {
    ModeOf(address / 8 % 8)
  }

  function MiddleModeAt(address: byte): MiddleMode {
    MiddleModeOf(address / 64)
  }

  function MiddleAt(b: seq<byte>, o: nat, mode: MiddleMode): Result<(Middle, nat)> {
    if mode == MNone then Ok((Middle(MNone, 0, 0), o))
    else
      var (p, o1) :- OperandAt(b, o);
      Ok((if mode == MImmediate then Middle(mode, p.IntoI16(), 0) else Middle(mode, 0, p.IntoI16()), o1))
  }

  /**
   A source or destination operand. A reserved mode makes the loader panic on a
   destination, and read and drop one operand on a source.
   */
  function SourceDestAt(b: seq<byte>, o: nat, mode: Mode, isDest: bool): Result<(SourceDest, nat)> {
    if mode == NoOperand then Ok((SourceDest(NoOperand, 0, 0, 0), o))
    else
      var (v, o1) :- IntAt(b, o);
      match mode
      case Immediate => Ok((SourceDest(mode, v, 0, 0), o1))
      case DoubleMP | DoubleFP =>
        var (w, o2) :- IntAt(b, o1);
        Ok((SourceDest(mode, 0, v, w), o2))
      case Reserved1 | Reserved2 =>
        if isDest then Fail else Ok((SourceDest(mode, 0, 0, 0), o1))
      case _ => Ok((SourceDest(mode, 0, v, 0), o1))
  }

  function InstructionAt(b: seq<byte>, o: nat): Result<(Instruction, nat)> {
    var (head, o1) :- SliceAt(b, o, 2);
    var (middle, o2) :- MiddleAt(b, o1, MiddleModeAt(head[1]));
    var (src, o3) :- SourceDestAt(b, o2, SourceMode(head[1]), false);
    var (dest, o4) :- SourceDestAt(b, o3, DestMode(head[1]), true);
    Ok((Instruction(head[0], head[1], middle, src, dest), o4))
  }

  // Type descriptors

  datatype TypeDesc = TypeDesc(no: int, size: int, mapSize: int, map_: seq<byte>)

  function TypeDescAt(b: seq<byte>, o: nat): Result<(TypeDesc, nat)> {
    var (no, o1) :- IntAt(b, o);
    var (size, o2) :- IntAt(b, o1);
    var (mapSize, o3) :- IntAt(b, o2);
    var (map_, o4) :- SliceAt(b, o3, if mapSize < 0 then 0 else mapSize);
    Ok((TypeDesc(no, size, mapSize, map_), o4))
  }

  // Data items

  /** The scalar kinds of data; a float is carried as its bit pattern. */
  datatype Kind = Byte8 | Int32 | Float64 | Int64 {

    function Width(): (w: nat)
      ensures w == 1 || w == 4 || w == 8
    {
      match this
      case Byte8 => 1
      case Int32 => 4
      case _ => 8
    }

    /** The value of a bit pattern. */
    function Value(u: int): int {
      if Int32? || Int64? then Signed(u, Width()) else u
    }

    predicate InRange(v: int) {
      if Int32? || Int64? then InSigned(v, Width()) else 0 <= v < Pow256(Width())
    }
  }

  datatype Payload =
    | Scalars(kind: Kind, vals: seq<int>)
    | Text(text: seq<byte>)
    | Array(typ: int, len: int)
    | SetIndex(index: int)
    | Restore

  /** `escaped`: the count was not in the code byte but in an operand after it. */
  datatype Item = Item(count: int, escaped: bool, offset: int, payload: Payload)

  function ScalarReader(kind: Kind): Reader<int> {
    (b, o) =>
      var (bs, o1) :- SliceAt(b, o, kind.Width());
      Ok((kind.Value(FromBE(bs)), o1))
  }

  lemma ManyScalarsAdvance(kind: Kind, b: seq<byte>, o: nat, n: nat)
    requires Many(ScalarReader(kind), b, o, n).Ok?
    ensures Many(ScalarReader(kind), b, o, n).value.1 == o + n * kind.Width()
    ensures n > 0 ==> o + n * kind.Width() <= |b|
    decreases n
  {
    if n > 0 {
      var o1 := ScalarReader(kind)(b, o).value.1;
      ManyScalarsAdvance(kind, b, o1, n - 1);
      assert n * kind.Width() == (n - 1) * kind.Width() + kind.Width();
    }
  }

  /** What follows the code byte, the count and the offset of an item. */
  function PayloadAt(b: seq<byte>, o: nat, code: int, count: nat): (r: Result<(Payload, nat)>)
    requires o <= |b|
    ensures r.Ok? ==> o <= r.value.1 <= |b|
  {
    match code
    case 1 => ScalarsAt(b, o, Byte8, count)
    case 2 => ScalarsAt(b, o, Int32, count)
    case 3 =>
      var (s, o1) :- SliceAt(b, o, count);
      Ok((Text(s), o1))
    case 4 => ScalarsAt(b, o, Float64, count)
    case 5 =>
      var (typ, o1) :- WordAt(b, o);
      var (len, o2) :- WordAt(b, o1);
      Ok((Array(typ, len), o2))
    case 6 =>
      var (index, o1) :- WordAt(b, o);
      Ok((SetIndex(index), o1))
    case 7 => Ok((Restore, o))
    case 8 => ScalarsAt(b, o, Int64, count)
    case _ => Fail
  }

  function ScalarsAt(b: seq<byte>, o: nat, kind: Kind, count: nat): (r: Result<(Payload, nat)>)
    requires o <= |b|
    ensures r.Ok? ==> o <= r.value.1 <= |b|
  {
    var (vals, o1) :- Many(ScalarReader(kind), b, o, count);
    ManyScalarsAdvance(kind, b, o, count);
    Ok((Scalars(kind, vals), o1))
  }

  /** The count: the low nibble, or an operand where that is zero. */
  function CountAt(b: seq<byte>, o: nat, low: nat): (r: Result<(int, nat)>)
    ensures r.Ok? ==> o <= r.value.1
    ensures r.Ok? && low == 0 ==> o < r.value.1 <= |b|
  {
    if low == 0 then IntAt(b, o) else Ok((low, o))
  }

  /** An item takes at least two bytes, and its code byte is never zero. */
  function ItemAt(b: seq<byte>, o: nat): (r: Result<(Item, nat)>)
    ensures r.Ok? ==> o + 2 <= r.value.1 <= |b| && b[o] != 0
  {
    if o >= |b| then Fail
    else
      var (count, o1) :- CountAt(b, o + 1, b[o] % 16);
      if count < 0 then Fail
      else
        var (offset, o2) :- IntAt(b, o1);
        var (payload, o3) :- PayloadAt(b, o2, b[o] / 16, count);
        Ok((Item(count, b[o] % 16 == 0, offset, payload), o3))
  }

  /** The data section: items up to a zero byte. */
  function ItemsAt(b: seq<byte>, o: nat): (r: Result<(seq<Item>, nat)>)
    ensures r.Ok? ==> o < r.value.1 <= |b|
    decreases |b| - o
  {
    if o >= |b| then Fail
    else if b[o] == 0 then Ok(([], o + 1))
    else
      var (it, o1) :- ItemAt(b, o);
      var (its, o2) :- ItemsAt(b, o1);
      Ok(([it] + its, o2))
  }

  // Links

  datatype Link = Link(entryPc: int, desc: int, sig: int, name: seq<byte>)

  /** `nTypes` type descriptors are known; a non-zero `desc` must index one of them. */
  function LinkReader(nTypes: nat): Reader<Link> {
    (b, o) =>
      var (entryPc, o1) :- IntAt(b, o);
      var (desc, o2) :- IntAt(b, o1);
      if desc != 0 && !(0 <= desc < nTypes) then Fail
      else
        var (sig, o3) :- WordAt(b, o2);
        var (name, o4) :- NameAt(b, o3);
        Ok((Link(entryPc, desc, sig, name), o4))
  }

  // Header

  const XMAGIC := 819248
  const SMAGIC := 923426
  const HASEXCEPT := 32
  const HASLDT2 := 64

  predicate RuntimeFlag(f: int) {
    f in {1, 2, 4, 8, 16, 32, 64, 128}
  }

  /** `signature` is present exactly under the magic number SMAGIC. */
  datatype Option<+T> = None | Some(value: T)

  datatype Header = Header(
    signature: Option<seq<byte>>, flag: int, stackExtent: int,
    codeSize: int, dataSize: int, typeSize: int, linkSize: int, entryPc: int, entryType: int)

  function SignatureAt(b: seq<byte>, o: nat): Result<(Option<seq<byte>>, nat)> {
    var (magic, o1) :- IntAt(b, o);
    if magic == XMAGIC then Ok((None, o1))
    else if magic == SMAGIC then
      var (length, o2) :- IntAt(b, o1);
      if length < 0 then Fail
      else
        var (s, o3) :- SliceAt(b, o2, length);
        Ok((Some(s), o3))
    else Fail
  }

  function FlagAt(b: seq<byte>, o: nat): Result<(int, nat)> {
    var (p, o1) :- OperandAt(b, o);
    var flag :- p.IntoU16();
    if RuntimeFlag(flag) then Ok((flag, o1)) else Fail
  }

  function HeaderAt(b: seq<byte>, o: nat): Result<(Header, nat)> {
    var (signature, o1) :- SignatureAt(b, o);
    var (flag, o2) :- FlagAt(b, o1);
    var (v, o3) :- Many(IntAt, b, o2, 7);
    var h := Header(signature, flag, v[0], v[1], v[2], v[3], v[4], v[5], v[6]);
    if h.codeSize < 0 || h.dataSize < 0 || h.typeSize < 0 || h.linkSize < 0 then Fail
    else Ok((h, o3))
  }

  // Imports

  datatype Import = Import(sig: int, name: seq<byte>)

  function ImportAt(b: seq<byte>, o: nat): Result<(Import, nat)> {
    var (sig, o1) :- WordAt(b, o);
    var (name, o2) :- NameAt(b, o1);
    Ok((Import(sig, name), o2))
  }

  /** A count read by `into_usize`: a negative one makes the loop run out of file. */
  function LengthAt(b: seq<byte>, o: nat): (r: Result<(nat, nat)>) {
    var (n, o1) :- IntAt(b, o);
    if n < 0 then Fail else Ok((n as nat, o1))
  }

  function ImportsOfModuleAt(b: seq<byte>, o: nat): Result<(seq<Import>, nat)> {
    var (n, o1) :- LengthAt(b, o);
    Many(ImportAt, b, o1, n)
  }

  /** The byte after the import lists is skipped unread. */
  function ImportsAt(b: seq<byte>, o: nat): Result<(seq<seq<Import>>, nat)> {
    var (n, o1) :- LengthAt(b, o);
    var (ms, o2) :- Many(ImportsOfModuleAt, b, o1, n);
    Ok((ms, o2 + 1))
  }

  // The whole file

  /**
   Everything read from a file. `path` is absent when the runtime flag announces an
   exception section: `Handlers` continues from there.
   */
  datatype Dis = Dis(
    header: Header, code: seq<Instruction>, types: seq<TypeDesc>, items: seq<Item>,
    name: seq<byte>, links: seq<Link>, imports: seq<seq<Import>>, path: Option<seq<byte>>)

  /** The checks between the type descriptors and the data section. */
  predicate TypesUsable(h: Header, types: seq<TypeDesc>) {
    && 0 <= h.entryType < |types|
    && types[0].size >= 0
    && (h.dataSize != 0 ==> types[0].size == h.dataSize)
  }

  /** What the sections after the data section hold. */
  datatype Tail = Tail(name: seq<byte>, links: seq<Link>, imports: seq<seq<Import>>, path: Option<seq<byte>>)

  function TailAt(b: seq<byte>, o: nat, h: Header, nTypes: nat): Result<(Tail, nat)> {
    var (name, o1) :- NameAt(b, o);
    var (links, o2) :- Many(LinkReader(nTypes), b, o1, if h.linkSize < 0 then 0 else h.linkSize);
    var (imports, o3) :- if h.flag == HASLDT2 then ImportsAt(b, o2) else Ok(([], o2));
    if h.flag == HASEXCEPT then Ok((Tail(name, links, imports, None), o3))
    else
      var (path, o4) :- NameAt(b, o3);
      Ok((Tail(name, links, imports, Some(path)), o4))
  }

  /** The sections before the data section. */
  function FrontAt(b: seq<byte>, o: nat): (r: Result<((Header, seq<Instruction>, seq<TypeDesc>), nat)>)
    ensures r.Ok? ==> r.value.0.0.linkSize >= 0 && TypesUsable(r.value.0.0, r.value.0.2)
  {
    var (h, o1) :- HeaderAt(b, o);
    var (code, o2) :- Many(InstructionAt, b, o1, h.codeSize);
    var (types, o3) :- Many(TypeDescAt, b, o2, h.typeSize);
    if TypesUsable(h, types) then Ok(((h, code, types), o3)) else Fail
  }

  function DisAt(b: seq<byte>, o: nat): Result<(Dis, nat)> {
    var ((h, code, types), o1) :- FrontAt(b, o);
    var (items, o2) :- ItemsAt(b, o1);
    var (t, o3) :- TailAt(b, o2, h, |types|);
    Ok((Dis(h, code, types, items, t.name, t.links, t.imports, t.path), o3))
  }
}
