/**
 Decoding the format's encoding: section by section, then for a whole file. Every
 section is found at its cursor in a file `b`, and the loader's four-byte operand
 slices are paid for by `slack` bytes behind it.
 */
module RoundTrip {
  import opened Bytes
  import opened Operands
  import opened ObjectFile
  import opened Encoder

  const SLACK := 3

  // Sequences

  /** `f` reads back the encoding of `x` as `seen(x)`, or fails where `ok(x)` does not hold. */
  ghost predicate ReadsBack<T, U>(
      f: Reader<U>, e: T --> seq<byte>, seen: T -> U, ok: T -> bool, b: seq<byte>, slack: nat, x: T)
    requires e.requires(x)
  {
    forall p: nat :: Has(b, p, e(x)) && p + |e(x)| + slack <= |b| ==>
      f(b, p) == if ok(x) then Ok((seen(x), p + |e(x)|)) else Fail
  }

  /** If `f` reads back each element, then `Many(f)` reads back the encoded sequence. */
  lemma {:induction false} ManyConcat<T, U>(
      f: Reader<U>, e: T --> seq<byte>, seen: T -> U, ok: T -> bool, xs: seq<T>, b: seq<byte>, o: nat, slack: nat)
    requires forall x :: x in xs ==> e.requires(x) && ReadsBack(f, e, seen, ok, b, slack, x)
    requires Has(b, o, Concat(e, xs)) && o + |Concat(e, xs)| + slack <= |b|
    ensures Many(f, b, o, |xs|) ==
            if forall x :: x in xs ==> ok(x) then Ok((Map(seen, xs), o + |Concat(e, xs)|)) else Fail
    decreases |xs|
  {
    hide Has, ReadsBack;
    if xs != [] {
      var x, rest := xs[0], xs[1..];
      assert Concat(e, xs) == e(x) + Concat(e, rest);
      assert Map(seen, xs) == [seen(x)] + Map(seen, rest);
      AllOk(ok, xs);
      hide Concat, Map;
      HasConcat(b, o, e(x), Concat(e, rest));
      ReadsOne(f, e, seen, ok, b, slack, x, o);
      ManyCons(f, b, o, |rest|);
      hide Many;
      ManyConcat(f, e, seen, ok, rest, b, o + |e(x)|, slack);
    }
  }

  lemma ReadsOne<T, U>(
      f: Reader<U>, e: T --> seq<byte>, seen: T -> U, ok: T -> bool, b: seq<byte>, slack: nat, x: T, o: nat)
    requires e.requires(x) && ReadsBack(f, e, seen, ok, b, slack, x)
    requires Has(b, o, e(x)) && o + |e(x)| + slack <= |b|
    ensures f(b, o) == if ok(x) then Ok((seen(x), o + |e(x)|)) else Fail
  {
  }

  lemma AllOk<T>(ok: T -> bool, xs: seq<T>)
    requires xs != []
    ensures (forall x :: x in xs ==> ok(x)) <==> ok(xs[0]) && forall x :: x in xs[1..] ==> ok(x)
  {
  }

  /** One more element in front. */
  lemma ManyCons<T>(f: Reader<T>, b: seq<byte>, o: nat, n: nat)
    ensures Many(f, b, o, n + 1) ==
            if f(b, o).Fail? then Fail else Prepend([f(b, o).value.0], Many(f, b, f(b, o).value.1, n))
  {
  }

  lemma {:induction false} MapIdentity<T>(f: T -> T, xs: seq<T>)
    ensures Map(f, xs) == xs <==> forall x :: x in xs ==> f(x) == x
  {
  }

  // Fields

  lemma WordAtEncode(b: seq<byte>, o: nat, v: int)
    requires InSigned(v, 4) && Has(b, o, EncodeWord(v))
    ensures WordAt(b, o) == Ok((v, o + 4)) && |EncodeWord(v)| == 4
  {
    Widths();
    FromBEOfBE(v, 4);
  }

  lemma {:induction false} NameAtEncode(b: seq<byte>, o: nat, s: seq<byte>)
    requires EncodableName(s) && Has(b, o, EncodeName(s))
    ensures NameAt(b, o) == Ok((s, o + |EncodeName(s)|))
    decreases |s|
  {
    assert b[o] == b[o..o + |EncodeName(s)|][0];
    if s == [] {
    } else {
      assert EncodeName(s) == [s[0]] + EncodeName(s[1..]);
      HasConcat(b, o, [s[0]], EncodeName(s[1..]));
      NameAtEncode(b, o + 1, s[1..]);
      assert [b[o]] + s[1..] == s;
    }
  }

  // Code

  lemma MiddleAtEncode(b: seq<byte>, o: nat, m: Middle)
    requires EncodableMiddle(m) && Has(b, o, EncodeMiddle(m)) && o + |EncodeMiddle(m)| + SLACK <= |b|
    ensures MiddleAt(b, o, m.mode) ==
            Ok((Middle(m.mode, SeenShort(m.imm), SeenShort(m.ind)), o + |EncodeMiddle(m)|))
  {
    Widths();
    if m.mode != MNone {
      OperandAtEncode(b, o, if m.mode == MImmediate then m.imm else m.ind);
    }
  }

  lemma SourceDestAtEncode(b: seq<byte>, o: nat, d: SourceDest, isDest: bool)
    requires EncodableSourceDest(d) && Has(b, o, EncodeSourceDest(d))
    requires o + |EncodeSourceDest(d)| + SLACK <= |b|
    ensures SourceDestAt(b, o, d.mode, isDest) == Ok((SeenSourceDest(d), o + |EncodeSourceDest(d)|))
  {
    hide Has, Encode, OperandAt, IntAt;
    match d.mode
    case NoOperand =>
    case Immediate => OperandAtEncode(b, o, d.imm);
    case OffsetMP | OffsetFP => OperandAtEncode(b, o, d.ind);
    case DoubleMP | DoubleFP =>
      HasConcat(b, o, Encode(d.ind), Encode(d.ind2));
      OperandAtEncode(b, o, d.ind);
      OperandAtEncode(b, o + |Encode(d.ind)|, d.ind2);
  }

  /** The loader finds in every address byte the three modes it was made of, reserved ones included. */
  lemma ModesOfAddress(dest: Mode, source: Mode, middle: MiddleMode)
    ensures var a := AddressByte(dest, source, middle);
            DestMode(a) == dest && SourceMode(a) == source && MiddleModeAt(a) == middle
  {
    AddressDigits(ModeNumber(dest), ModeNumber(source), MiddleNumber(middle));
    NumberOfMode(dest);
    NumberOfMode(source);
    hide ModeOf, ModeNumber;
  }

  lemma AddressDigits(d: nat, s: nat, m: nat)
    requires d < 8 && s < 8 && m < 4
    ensures var a := d + 8 * s + 64 * m; a % 8 == d && a / 8 % 8 == s && a / 64 == m
  {
  }

  lemma NumberOfMode(m: Mode)
    ensures ModeOf(ModeNumber(m)) == m
  {
  }

  lemma InstructionAtEncode(b: seq<byte>, o: nat, ins: Instruction)
    requires EncodableInstruction(ins) && Has(b, o, EncodeInstruction(ins))
    requires o + |EncodeInstruction(ins)| + SLACK <= |b|
    ensures InstructionAt(b, o) == Ok((SeenInstruction(ins), o + |EncodeInstruction(ins)|))
  {
    hide Encode, SourceDestAt, MiddleAt, EncodeSourceDest, EncodeMiddle;
    ModesOfAddress(ins.dest.mode, ins.src.mode, ins.middle.mode);
    hide AddressByte, DestMode, SourceMode, MiddleModeAt;
    var head := [ins.opcode, ins.address];
    var m, s, d := EncodeMiddle(ins.middle), EncodeSourceDest(ins.src), EncodeSourceDest(ins.dest);
    HasConcat(b, o, head, m + (s + d));
    assert SliceAt(b, o, 2) == Ok((head, o + 2));
    hide Has;
    HasConcat(b, o + 2, m, s + d);
    HasConcat(b, o + 2 + |m|, s, d);
    MiddleAtEncode(b, o + 2, ins.middle);
    SourceDestAtEncode(b, o + 2 + |m|, ins.src, false);
    SourceDestAtEncode(b, o + 2 + |m| + |s|, ins.dest, true);
  }

  /** The code section, for every list of encodable instructions. */
  lemma CodeRoundTrip(b: seq<byte>, o: nat, code: seq<Instruction>)
    requires forall ins :: ins in code ==> EncodableInstruction(ins)
    requires Has(b, o, Concat(EncodeInstruction, code)) && o + |Concat(EncodeInstruction, code)| + SLACK <= |b|
    ensures Many(InstructionAt, b, o, |code|) ==
            Ok((Map(SeenInstruction, code), o + |Concat(EncodeInstruction, code)|))
  {
    hide Has, EncodeInstruction, InstructionAt, SeenInstruction, EncodableInstruction, Concat, Many, Map;
    var ok := (ins: Instruction) => true;
    forall ins | ins in code
      ensures ReadsBack(InstructionAt, EncodeInstruction, SeenInstruction, ok, b, SLACK, ins)
    {
      forall p: nat | Has(b, p, EncodeInstruction(ins)) && p + |EncodeInstruction(ins)| + SLACK <= |b| {
        InstructionAtEncode(b, p, ins);
      }
    }
    ManyConcat(InstructionAt, EncodeInstruction, SeenInstruction, ok, code, b, o, SLACK);
  }

  // Type descriptors

  lemma TypeDescAtEncode(b: seq<byte>, o: nat, t: TypeDesc)
    requires EncodableType(t) && Has(b, o, EncodeType(t)) && o + |EncodeType(t)| + SLACK <= |b|
    ensures TypeDescAt(b, o) == Ok((SeenType(t), o + |EncodeType(t)|))
  {
    hide Encode, OperandAt, IntAt;
    var e1, e2, e3 := Encode(t.no), Encode(t.size), Encode(t.mapSize);
    HasConcat(b, o, e1, e2 + (e3 + t.map_));
    HasConcat(b, o + |e1|, e2, e3 + t.map_);
    HasConcat(b, o + |e1| + |e2|, e3, t.map_);
    OperandAtEncode(b, o, t.no);
    OperandAtEncode(b, o + |e1|, t.size);
    OperandAtEncode(b, o + |e1| + |e2|, t.mapSize);
  }

  lemma TypesRoundTrip(b: seq<byte>, o: nat, types: seq<TypeDesc>)
    requires forall t :: t in types ==> EncodableType(t)
    requires Has(b, o, Concat(EncodeType, types)) && o + |Concat(EncodeType, types)| + SLACK <= |b|
    ensures Many(TypeDescAt, b, o, |types|) == Ok((Map(SeenType, types), o + |Concat(EncodeType, types)|))
  {
    hide Has, EncodeType, TypeDescAt, SeenType, EncodableType, Concat, Many, Map;
    var ok := (t: TypeDesc) => true;
    forall t | t in types
      ensures ReadsBack(TypeDescAt, EncodeType, SeenType, ok, b, SLACK, t)
    {
      forall p: nat | Has(b, p, EncodeType(t)) && p + |EncodeType(t)| + SLACK <= |b| {
        TypeDescAtEncode(b, p, t);
      }
    }
    ManyConcat(TypeDescAt, EncodeType, SeenType, ok, types, b, o, SLACK);
  }

  // Data items

  /** Sizes and ranges of the scalar kinds are those of the format. */
  lemma KindsExactly(kind: Kind, v: int)
    ensures kind.Width() == ScalarBytes(kind)
    ensures kind.InRange(v) <==> Carries(kind, v)
  {
    Widths();
  }

  lemma ScalarAtEncode(b: seq<byte>, o: nat, kind: Kind, v: int)
    requires Carries(kind, v) && Has(b, o, ScalarEncoder(kind)(v))
    ensures ScalarReader(kind)(b, o) == Ok((v, o + |ScalarEncoder(kind)(v)|))
  {
    Widths();
    FromBEOfBE(v, kind.Width());
  }

  lemma ScalarsRoundTrip(b: seq<byte>, o: nat, kind: Kind, vals: seq<int>)
    requires forall v :: v in vals ==> Carries(kind, v)
    requires Has(b, o, Concat(ScalarEncoder(kind), vals))
    ensures Many(ScalarReader(kind), b, o, |vals|) == Ok((vals, o + |Concat(ScalarEncoder(kind), vals)|))
  {
    hide Has, Many, Concat, Map, BE, FromBE, Kind.Value;
    var e := ScalarEncoder(kind);
    var id, ok := (v: int) => v, (v: int) => true;
    forall v | v in vals
      ensures ReadsBack(ScalarReader(kind), e, id, ok, b, 0, v)
    {
      forall p: nat | Has(b, p, e(v)) && p + |e(v)| + 0 <= |b| {
        ScalarAtEncode(b, p, kind, v);
      }
    }
    ManyConcat(ScalarReader(kind), e, id, ok, vals, b, o, 0);
    MapIdentity(id, vals);
  }

  lemma PayloadAtEncode(b: seq<byte>, o: nat, p: Payload, count: nat)
    requires EncodablePayload(p, count) && Has(b, o, EncodePayload(p, count))
    ensures PayloadAt(b, o, Code(p), count) == Ok((p, o + |EncodePayload(p, count)|))
  {
    hide Many, Concat, WordAt, EncodeWord;
    match p
    case Scalars(kind, vals) => ScalarsRoundTrip(b, o, kind, vals);
    case Text(s) =>
    case Array(typ, len) =>
      HasConcat(b, o, EncodeWord(typ), EncodeWord(len));
      WordAtEncode(b, o, typ);
      WordAtEncode(b, o + 4, len);
    case SetIndex(index) => WordAtEncode(b, o, index);
    case Restore =>
  }

  lemma ItemAtEncode(b: seq<byte>, o: nat, it: Item)
    requires EncodableItem(it) && Has(b, o, EncodeItem(it)) && o + |EncodeItem(it)| + SLACK <= |b|
    ensures ItemAt(b, o) == Ok((SeenItem(it), o + |EncodeItem(it)|))
  {
    hide Encode, OperandAt, IntAt, PayloadAt, EncodePayload;
    var c := if it.escaped then Encode(it.count) else [];
    var f, p := Encode(it.offset), EncodePayload(it.payload, it.count);
    HasConcat(b, o, [CodeByte(it)], c + (f + p));
    HasConcat(b, o + 1, c, f + p);
    HasConcat(b, o + 1 + |c|, f, p);
    assert b[o..o + 1][0] == b[o];
    if it.escaped {
      OperandAtEncode(b, o + 1, it.count);
    }
    OperandAtEncode(b, o + 1 + |c|, it.offset);
    PayloadAtEncode(b, o + 1 + |c| + |f|, it.payload, it.count);
  }

  /**
   The data section: any list of items and the closing zero byte are read back as the
   same kinds, counts and payloads, each offset as the loader sees it.
   */
  lemma {:induction false} ItemsRoundTrip(b: seq<byte>, o: nat, items: seq<Item>)
    requires forall it :: it in items ==> EncodableItem(it)
    requires Has(b, o, Concat(EncodeItem, items)) && o + |Concat(EncodeItem, items)| + SLACK <= |b|
    requires b[o + |Concat(EncodeItem, items)|] == 0
    ensures ItemsAt(b, o) == Ok((Map(SeenItem, items), o + |Concat(EncodeItem, items)| + 1))
    decreases |items|
  {
    hide EncodeItem, EncodableItem, SeenItem, ItemAt;
    if items != [] {
      var e, rest := EncodeItem(items[0]), Concat(EncodeItem, items[1..]);
      assert Concat(EncodeItem, items) == e + rest;
      assert Map(SeenItem, items) == [SeenItem(items[0])] + Map(SeenItem, items[1..]);
      HasConcat(b, o, e, rest);
      assert b[o..o + |e|][0] == b[o];
      hide Has, Map, Concat;
      ItemAtEncode(b, o, items[0]);
      ItemsRoundTrip(b, o + |e|, items[1..]);
    }
  }

  // Header

  lemma HeaderAtEncode(b: seq<byte>, o: nat, h: Header)
    requires EncodableHeader(h) && Has(b, o, EncodeHeader(h)) && o + |EncodeHeader(h)| + SLACK <= |b|
    ensures HeaderAt(b, o) == Ok((SeenHeader(h), o + |EncodeHeader(h)|))
  {
    hide Has, Encode, OperandAt, SignatureAt, FlagAt, EncodeSignature, Concat, Map, Many;
    var fs := HeaderFields(h);
    var s, f, w := EncodeSignature(h.signature), Encode(h.flag), Concat(Encode, fs);
    HasConcat(b, o, s, f + w);
    HasConcat(b, o + |s|, f, w);
    SignatureAtEncode(b, o, h.signature);
    FlagAtEncode(b, o + |s|, h.flag);
    FieldsAtEncode(b, o + |s| + |f|, fs);
  }

  lemma FlagAtEncode(b: seq<byte>, o: nat, flag: int)
    requires FormatFlag(flag) && Has(b, o, Encode(flag)) && o + 4 <= |b|
    ensures FlagAt(b, o) == Ok((flag, o + |Encode(flag)|))
  {
    OperandAtEncode(b, o, flag);
  }

  lemma FieldsAtEncode(b: seq<byte>, o: nat, vs: seq<int>)
    requires forall v :: v in vs ==> Representable(v)
    requires Has(b, o, Concat(Encode, vs)) && o + |Concat(Encode, vs)| + SLACK <= |b|
    ensures Many(IntAt, b, o, |vs|) == Ok((Map(Seen, vs), o + |Concat(Encode, vs)|))
  {
    hide Has, Encode, IntAt, OperandAt, Concat, Many, Map;
    var ok := (v: int) => true;
    forall v | v in vs
      ensures ReadsBack(IntAt, Encode, Seen, ok, b, SLACK, v)
    {
      forall p: nat | Has(b, p, Encode(v)) && p + |Encode(v)| + SLACK <= |b| {
        OperandAtEncode(b, p, v);
      }
    }
    ManyConcat(IntAt, Encode, Seen, ok, vs, b, o, SLACK);
  }

  lemma SignatureAtEncode(b: seq<byte>, o: nat, s: Option<seq<byte>>)
    requires s.Some? ==> Representable(|s.value|)
    requires Has(b, o, EncodeSignature(s)) && o + |EncodeSignature(s)| + SLACK <= |b|
    ensures SignatureAt(b, o) == Ok((s, o + |EncodeSignature(s)|))
  {
    match s
    case None => OperandAtEncode(b, o, PLAIN_MAGIC);
    case Some(bytes) =>
      HasConcat(b, o, Encode(SIGNED_MAGIC), Encode(|bytes|) + bytes);
      HasConcat(b, o + |Encode(SIGNED_MAGIC)|, Encode(|bytes|), bytes);
      OperandAtEncode(b, o, SIGNED_MAGIC);
      OperandAtEncode(b, o + |Encode(SIGNED_MAGIC)|, |bytes|);
  }

  // Name, links, imports and path

  predicate DescKnown(l: Link, nTypes: nat) {
    l.desc == 0 || 0 <= l.desc < nTypes
  }

  lemma LinkAtEncode(b: seq<byte>, o: nat, l: Link, nTypes: nat)
    requires EncodableLink(l) && Has(b, o, EncodeLink(l))
    ensures LinkReader(nTypes)(b, o) ==
            if DescKnown(SeenLink(l), nTypes) then Ok((SeenLink(l), o + |EncodeLink(l)|)) else Fail
  {
    hide Has, Encode, OperandAt, IntAt, EncodeWord, EncodeName, WordAt, NameAt;
    var e1, e2, e3, e4 := Encode(l.entryPc), Encode(l.desc), EncodeWord(l.sig), EncodeName(l.name);
    HasConcat(b, o, e1, e2 + (e3 + e4));
    HasConcat(b, o + |e1|, e2, e3 + e4);
    HasConcat(b, o + |e1| + |e2|, e3, e4);
    WordAtEncode(b, o + |e1| + |e2|, l.sig);
    OperandAtEncode(b, o, l.entryPc);
    OperandAtEncode(b, o + |e1|, l.desc);
    NameAtEncode(b, o + |e1| + |e2| + 4, l.name);
    assert |EncodeLink(l)| == |e1| + |e2| + 4 + |e4|;
    var seen := Link(Seen(l.entryPc), Seen(l.desc), l.sig, l.name);
    assert LinkReader(nTypes)(b, o) == if DescKnown(seen, nTypes) then Ok((seen, o + |EncodeLink(l)|)) else Fail;
  }

  lemma LinksRoundTrip(b: seq<byte>, o: nat, links: seq<Link>, nTypes: nat)
    requires forall l :: l in links ==> EncodableLink(l)
    requires Has(b, o, Concat(EncodeLink, links))
    ensures Many(LinkReader(nTypes), b, o, |links|) ==
            if forall l :: l in links ==> DescKnown(SeenLink(l), nTypes)
            then Ok((Map(SeenLink, links), o + |Concat(EncodeLink, links)|)) else Fail
  {
    hide Has, EncodeLink, LinkReader, SeenLink, EncodableLink, Concat, Many, Map, DescKnown;
    var ok := (l: Link) => DescKnown(SeenLink(l), nTypes);
    forall l | l in links
      ensures ReadsBack(LinkReader(nTypes), EncodeLink, SeenLink, ok, b, 0, l)
    {
      forall p: nat | Has(b, p, EncodeLink(l)) && p + |EncodeLink(l)| + 0 <= |b| {
        LinkAtEncode(b, p, l, nTypes);
      }
    }
    ManyConcat(LinkReader(nTypes), EncodeLink, SeenLink, ok, links, b, o, 0);
    assert forall l :: ok(l) <==> DescKnown(SeenLink(l), nTypes);
  }

  lemma ImportAtEncode(b: seq<byte>, o: nat, i: Import)
    requires EncodableImport(i) && Has(b, o, EncodeImport(i))
    ensures ImportAt(b, o) == Ok((i, o + |EncodeImport(i)|))
  {
    HasConcat(b, o, EncodeWord(i.sig), EncodeName(i.name));
    WordAtEncode(b, o, i.sig);
    NameAtEncode(b, o + 4, i.name);
  }

  lemma ImportsOfModuleAtEncode(b: seq<byte>, o: nat, ms: seq<Import>)
    requires EncodableImports(ms) && Has(b, o, EncodeImports(ms)) && o + 4 <= |b|
    ensures ImportsOfModuleAt(b, o) == Ok((ms, o + |EncodeImports(ms)|))
  {
    hide EncodeImport, ImportAt, EncodableImport, Encode, OperandAt, Has;
    var n := Encode(|ms|);
    HasConcat(b, o, n, Concat(EncodeImport, ms));
    OperandAtEncode(b, o, |ms|);
    var id, ok := (i: Import) => i, (i: Import) => true;
    forall i | i in ms
      ensures ReadsBack(ImportAt, EncodeImport, id, ok, b, 0, i)
    {
      forall p: nat | Has(b, p, EncodeImport(i)) && p + |EncodeImport(i)| + 0 <= |b| {
        ImportAtEncode(b, p, i);
      }
    }
    ManyConcat(ImportAt, EncodeImport, id, ok, ms, b, o + |n|, 0);
    MapIdentity(id, ms);
  }

  /** Enough bytes follow the last import count for the four-byte slice. */
  predicate ImportsCovered(ms: seq<seq<Import>>, behind: nat) {
    behind >= SLACK || (ms != [] && ms[|ms| - 1] != [])
  }

  lemma {:induction false} LongConcat(ms: seq<seq<Import>>)
    requires forall m :: m in ms ==> EncodableImports(m)
    requires ms != [] && ms[|ms| - 1] != []
    ensures |Concat(EncodeImports, ms)| > SLACK
  {
    if |ms| > 1 {
      LongConcat(ms[1..]);
    } else {
      var m := ms[0];
      assert EncodableImports(m) && EncodableImport(m[0]);
      assert Concat(EncodeImport, m) == EncodeImport(m[0]) + Concat(EncodeImport, m[1..]);
    }
  }

  /** The lists of imported names; `behind` bytes follow them in the file. */
  lemma {:induction false} ModulesRoundTrip(b: seq<byte>, o: nat, ms: seq<seq<Import>>, behind: nat)
    requires forall m :: m in ms ==> EncodableImports(m)
    requires Has(b, o, Concat(EncodeImports, ms)) && o + |Concat(EncodeImports, ms)| + behind == |b|
    ensures ms == [] || ImportsCovered(ms, behind) ==>
              Many(ImportsOfModuleAt, b, o, |ms|) == Ok((ms, o + |Concat(EncodeImports, ms)|))
    ensures ms != [] && !ImportsCovered(ms, behind) ==> Many(ImportsOfModuleAt, b, o, |ms|) == Fail
    decreases |ms|
  {
    hide EncodeImports, EncodableImports, ImportsOfModuleAt;
    if ms != [] {
      var m, e, rest := ms[0], EncodeImports(ms[0]), Concat(EncodeImports, ms[1..]);
      assert Concat(EncodeImports, ms) == e + rest;
      assert [m] + ms[1..] == ms;
      if ms[|ms| - 1] != [] {
        LongConcat(ms);
      }
      HasConcat(b, o, e, rest);
      hide Has, Concat;
      ModulesRoundTrip(b, o + |e|, ms[1..], behind);
      if o + 4 <= |b| {
        ImportsOfModuleAtEncode(b, o, m);
      } else {
        NoImportsBeyond(b, o);
      }
    }
  }

  lemma NoImportsBeyond(b: seq<byte>, o: nat)
    requires o + 4 > |b|
    ensures ImportsOfModuleAt(b, o) == Fail
  {
  }
}
