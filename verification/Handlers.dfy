/**
 The exception section and the source path behind it, which close a file whose header
 announces exceptions. The loader moves over the handler count by its value and over each
 pc by four bytes, so only one shape of section is read as it was written.
 */
module Handlers {
  import opened Bytes
  import opened Operands
  import opened ObjectFile
  import opened Encoder
  import opened RoundTrip
  import opened WholeFile
  import opened Faithful

  datatype Handler = Handler(name: seq<byte>, pc: int)

  datatype Section = Section(
    frameOffset: int, pcStart: int, pcEnd: int, typeDesc: int, handlers: seq<Handler>, defaultPc: int)

  /** What follows the imports of a file with an exception section. */
  datatype Ending = Ending(section: Section, path: seq<byte>)

  /** A whole file. `ending` is present exactly under the exception flag. */
  datatype File = File(dis: Dis, ending: Option<Ending>)

  // Reading

  /** The cursor moves by the count itself: a negative one takes it out of the file. */
  function HandlerCountAt(b: seq<byte>, o: nat): Result<(nat, nat)> {
    var (n, _) :- IntAt(b, o);
    if n < 0 then Fail else Ok((n as nat, o + n))
  }

  /** The cursor moves by four bytes whatever the operand's size. */
  function PcAt(b: seq<byte>, o: nat): Result<(int, nat)> {
    var (pc, _) :- IntAt(b, o);
    Ok((pc, o + 4))
  }

  function HandlerAt(b: seq<byte>, o: nat): Result<(Handler, nat)> {
    var (name, o1) :- NameAt(b, o);
    var (pc, o2) :- PcAt(b, o1);
    Ok((Handler(name, pc), o2))
  }

  function SectionAt(b: seq<byte>, o: nat): Result<(Section, nat)> {
    var (v, o1) :- Many(IntAt, b, o, 4);
    var (n, o2) :- HandlerCountAt(b, o1);
    var (hs, o3) :- Many(HandlerAt, b, o2, n);
    var (pc, o4) :- PcAt(b, o3);
    Ok((Section(v[0], v[1], v[2], v[3], hs, pc), o4))
  }

  function EndingAt(b: seq<byte>, o: nat): Result<(Ending, nat)> {
    var (s, o1) :- SectionAt(b, o);
    var (path, o2) :- NameAt(b, o1);
    Ok((Ending(s, path), o2))
  }

  /** The ending, of a file that has one. */
  function OptionalEndingAt(b: seq<byte>, o: nat, h: Header): Result<(Option<Ending>, nat)> {
    if h.flag != HASEXCEPT then Ok((None, o))
    else
      var (e, o1) :- EndingAt(b, o);
      Ok((Some(e), o1))
  }

  function FileAt(b: seq<byte>, o: nat): Result<(File, nat)> {
    var (d, o1) :- DisAt(b, o);
    var (e, o2) :- OptionalEndingAt(b, o1, d.header);
    Ok((File(d, e), o2))
  }

  // Writing

  predicate EncodableHandler(h: Handler) {
    EncodableName(h.name) && Representable(h.pc)
  }

  predicate EncodableSection(s: Section) {
    && (forall v :: v in Fields(s) ==> Representable(v))
    && Representable(|s.handlers|) && (forall h :: h in s.handlers ==> EncodableHandler(h))
    && Representable(s.defaultPc)
  }

  predicate EncodableEnding(e: Ending) {
    EncodableSection(e.section) && EncodableName(e.path)
  }

  predicate EncodableFile(f: File) {
    && Encodable(f.dis) && (f.ending.Some? <==> f.dis.header.flag == EXCEPTION_FLAG)
    && (f.ending.Some? ==> EncodableEnding(f.ending.value))
  }

  function Fields(s: Section): (r: seq<int>)
    ensures |r| == 4
  {
    [s.frameOffset, s.pcStart, s.pcEnd, s.typeDesc]
  }

  function EncodeHandler(h: Handler): seq<byte>
    requires EncodableHandler(h)
  {
    EncodeName(h.name) + Encode(h.pc)
  }

  function EncodeSection(s: Section): seq<byte>
    requires EncodableSection(s)
  {
    Concat(Encode, Fields(s)) +
    (Encode(|s.handlers|) + (Concat(EncodeHandler, s.handlers) + Encode(s.defaultPc)))
  }

  function EncodeEnding(e: Option<Ending>): seq<byte>
    requires e.Some? ==> EncodableEnding(e.value)
  {
    if e.None? then [] else EncodeSection(e.value.section) + EncodeName(e.value.path)
  }

  function EncodeFile(f: File): seq<byte>
    requires EncodableFile(f)
  {
    EncodeDis(f.dis) + EncodeEnding(f.ending)
  }

  // Lengths

  /** The length of the names with their zeros. */
  function NameBytes(hs: seq<Handler>): nat {
    if hs == [] then 0 else |hs[0].name| + 1 + NameBytes(hs[1..])
  }

  /** The length of the encoded pcs. */
  function PcBytes(hs: seq<Handler>): (n: nat)
    requires forall h :: h in hs ==> EncodableHandler(h)
    ensures |hs| <= n <= 4 * |hs|
  {
    if hs == [] then 0
    else
      assert EncodableHandler(hs[0]);
      |Encode(hs[0].pc)| + PcBytes(hs[1..])
  }

  /** How far the loader moves over handlers, whatever it makes of them. */
  lemma {:induction false} HandlersRead(b: seq<byte>, o: nat, n: nat)
    requires Many(HandlerAt, b, o, n).Ok?
    ensures var (hs, o1) := Many(HandlerAt, b, o, n).value; o1 == o + NameBytes(hs) + 4 * n
    decreases n
  {
    if n > 0 {
      var (h, o1) := HandlerAt(b, o).value;
      HandlersRead(b, o1, n - 1);
      var hs := Many(HandlerAt, b, o1, n - 1).value.0;
      assert ([h] + hs)[1..] == hs;
    }
  }

  lemma {:induction false} HandlersWritten(hs: seq<Handler>)
    requires forall h :: h in hs ==> EncodableHandler(h)
    ensures |Concat(EncodeHandler, hs)| == NameBytes(hs) + PcBytes(hs)
    decreases |hs|
  {
    hide Encode;
    if hs != [] {
      HandlersWritten(hs[1..]);
    }
  }

  /** One handler, and both pcs in the four-byte form: then the loader's steps are right. */
  predicate Aligned(s: Section)
    requires EncodableSection(s)
  {
    && |s.handlers| == 1
    && (assert s.handlers[0] in s.handlers; |Encode(s.handlers[0].pc)| == 4 && |Encode(s.defaultPc)| == 4)
  }

  function SeenSection(s: Section): Section {
    Section(Seen(s.frameOffset), Seen(s.pcStart), Seen(s.pcEnd), Seen(s.typeDesc),
            Map(SeenHandler, s.handlers), Seen(s.defaultPc))
  }

  lemma PcAtEncode(b: seq<byte>, o: nat, pc: int)
    requires Representable(pc) && Has(b, o, Encode(pc)) && o + 4 <= |b|
    ensures PcAt(b, o) == Ok((Seen(pc), o + 4))
  {
    OperandAtEncode(b, o, pc);
  }

  lemma FourFields(b: seq<byte>, o: nat, s: Section)
    requires EncodableSection(s) && Has(b, o, EncodeSection(s)) && o + |EncodeSection(s)| < |b|
    ensures var e := Concat(Encode, Fields(s)); Many(IntAt, b, o, 4) == Ok((Map(Seen, Fields(s)), o + |e|))
  {
    hide Encode, Has, Concat, Map, Many, Fields, IntAt;
    var e := Concat(Encode, Fields(s));
    HasConcat(b, o, e, Encode(|s.handlers|) + (Concat(EncodeHandler, s.handlers) + Encode(s.defaultPc)));
    FieldsAtEncode(b, o, Fields(s));
  }

  function SeenHandler(h: Handler): Handler {
    h.(pc := Seen(h.pc))
  }

  /** Handlers as the loader takes them to be laid out: each pc in four bytes, whatever fills them. */
  ghost predicate LaidOut(b: seq<byte>, o: nat, hs: seq<Handler>)
    requires forall h :: h in hs ==> EncodableHandler(h)
    decreases |hs|
  {
    hs == [] ||
    (assert EncodableHandler(hs[0]);
     var o1 := o + |hs[0].name| + 1;
     && Has(b, o, EncodeName(hs[0].name)) && Has(b, o1, Encode(hs[0].pc)) && o1 + 4 <= |b|
     && LaidOut(b, o1 + 4, hs[1..]))
  }

  lemma {:induction false} PaddedHandlers(b: seq<byte>, o: nat, hs: seq<Handler>)
    requires (forall h :: h in hs ==> EncodableHandler(h)) && LaidOut(b, o, hs)
    ensures Many(HandlerAt, b, o, |hs|) == Ok((Map(SeenHandler, hs), o + NameBytes(hs) + 4 * |hs|))
    decreases |hs|
  {
    hide Has, Encode, HandlerAt, SeenHandler;
    if hs != [] {
      var h, rest := hs[0], hs[1..];
      assert EncodableHandler(h);
      PaddedHandler(b, o, h);
      PaddedHandlers(b, o + |h.name| + 5, rest);
      assert Map(SeenHandler, hs) == [SeenHandler(h)] + Map(SeenHandler, rest);
      hide Many, Map;
      ManyCons(HandlerAt, b, o, |rest|);
    }
  }

  lemma PaddedHandler(b: seq<byte>, o: nat, h: Handler)
    requires EncodableHandler(h) && Has(b, o, EncodeName(h.name))
    requires Has(b, o + |h.name| + 1, Encode(h.pc)) && o + |h.name| + 5 <= |b|
    ensures HandlerAt(b, o) == Ok((SeenHandler(h), o + |h.name| + 5))
  {
    hide Has, Encode, NameAt, PcAt;
    NameAtEncode(b, o, h.name);
    PcAtEncode(b, o + |h.name| + 1, h.pc);
  }

  /**
   The sections the loader reads as meant, with any number of handlers: the count fills as
   many bytes as it says, and each pc four.
   */
  lemma PaddedSection(b: seq<byte>, o: nat, s: Section)
    requires EncodableSection(s)
    requires var e, n := Concat(Encode, Fields(s)), |s.handlers|;
             var o1 := o + |e|;
             var o2 := o1 + n + NameBytes(s.handlers) + 4 * n;
             && Has(b, o, e) && Has(b, o1, Encode(n)) && o1 + 4 <= |b|
             && LaidOut(b, o1 + n, s.handlers) && Has(b, o2, Encode(s.defaultPc)) && o2 + 4 <= |b|
    ensures var n := |Concat(Encode, Fields(s))| + 5 * |s.handlers| + NameBytes(s.handlers) + 4;
            SectionAt(b, o) == Ok((SeenSection(s), o + n))
  {
    hide Has, IntAt, Encode, NameAt, PcAt, Many, Concat, NameBytes, LaidOut;
    var o1 := o + |Concat(Encode, Fields(s))|;
    FieldsAtEncode(b, o, Fields(s));
    OperandAtEncode(b, o1, |s.handlers|);
    PaddedHandlers(b, o1 + |s.handlers|, s.handlers);
    PcAtEncode(b, o1 + 5 * |s.handlers| + NameBytes(s.handlers), s.defaultPc);
  }

  /** An aligned section is read to its end, with every operand as the loader sees it. */
  lemma AlignedSection(b: seq<byte>, o: nat, s: Section)
    requires EncodableSection(s) && Has(b, o, EncodeSection(s)) && o + |EncodeSection(s)| < |b|
    requires Aligned(s)
    ensures SectionAt(b, o) == Ok((SeenSection(s), o + |EncodeSection(s)|))
  {
    hide Has, Encode, Concat, SectionAt, Fields;
    var h, e0, e3 := s.handlers[0], Concat(Encode, Fields(s)), Encode(s.defaultPc);
    assert EncodableHandler(h);
    var o1, e, f := o + |e0|, EncodeName(h.name), Encode(h.pc);
    OneEncoded(s.handlers);
    SmallCount(1);
    HasConcat(b, o, e0, Encode(1) + ((e + f) + e3));
    HasConcat(b, o1, Encode(1), (e + f) + e3);
    HasConcat(b, o1 + 1, e + f, e3);
    HasConcat(b, o1 + 1, e, f);
    PaddedSection(b, o, s);
  }

  lemma OneEncoded(hs: seq<Handler>)
    requires |hs| == 1 && EncodableHandler(hs[0])
    ensures Concat(EncodeHandler, hs) == EncodeName(hs[0].name) + Encode(hs[0].pc)
    ensures NameBytes(hs) == |hs[0].name| + 1
    ensures hs[1..] == []
  {
    assert Concat(EncodeHandler, hs[1..]) == [];
  }

  /** Reading a section as written, up to its very end, is a matter of lengths: it must be aligned. */
  lemma ReadMeansAligned(b: seq<byte>, o: nat, s: Section)
    requires EncodableSection(s) && Has(b, o, EncodeSection(s)) && o + |EncodeSection(s)| < |b|
    requires SectionAt(b, o) == Ok((s, o + |EncodeSection(s)|))
    ensures Aligned(s)
  {
    hide Has, Many, Encode, Concat, Fields, SectionAt;
    FourFields(b, o, s);
    SectionRead(b, o);
    HandlersWritten(s.handlers);
    SmallCount(|s.handlers|);
    FormOf(s.defaultPc);
    if |s.handlers| == 1 {
      assert EncodableHandler(s.handlers[0]);
      assert PcBytes(s.handlers) == |Encode(s.handlers[0].pc)| + PcBytes(s.handlers[1..]);
    }
  }

  /** How far the loader moves over a section, whatever it makes of it. */
  lemma SectionRead(b: seq<byte>, o: nat)
    requires SectionAt(b, o).Ok?
    ensures Many(IntAt, b, o, 4).Ok?
    ensures var (s, o1) := SectionAt(b, o).value;
            o1 == Many(IntAt, b, o, 4).value.1 + 5 * |s.handlers| + NameBytes(s.handlers) + 4
  {
    hide IntAt, HandlerAt, NameBytes;
    var o1 := Many(IntAt, b, o, 4).value.1;
    var (n, o2) := HandlerCountAt(b, o1).value;
    hide Many;
    HandlersRead(b, o2, n);
  }

  lemma SmallCount(n: nat)
    requires Representable(n)
    ensures n <= 4 ==> |Encode(n)| == 1
  {
  }

  lemma FormOf(v: int)
    requires Representable(v)
    ensures |Encode(v)| == 4 <==> v < -0x2000 || v >= 0x2000
    ensures |Encode(v)| != 3
  {
  }

  // Which files survive

  /** The one shape: a single handler, and both pcs at 0x2000 or above. */
  predicate SectionSurvives(s: Section) {
    && Survives(s.frameOffset) && Survives(s.pcStart) && Survives(s.pcEnd) && Survives(s.typeDesc)
    && |s.handlers| == 1 && s.handlers[0].pc >= 0x2000 && s.defaultPc >= 0x2000
  }

  lemma SectionIdentity(s: Section)
    requires EncodableSection(s)
    ensures Aligned(s) && SeenSection(s) == s <==> SectionSurvives(s)
  {
    hide Encode;
    SeenIdentity(s.frameOffset);
    SeenIdentity(s.pcStart);
    SeenIdentity(s.pcEnd);
    SeenIdentity(s.typeDesc);
    SeenIdentity(s.defaultPc);
    FormOf(s.defaultPc);
    if |s.handlers| == 1 {
      assert s.handlers[0] in s.handlers;
      FormOf(s.handlers[0].pc);
      SeenIdentity(s.handlers[0].pc);
    }
  }

  /** The ending of a file is read as written exactly when its section has that shape. */
  lemma EndingSurvivesExactly(b: seq<byte>, o: nat, e: Ending)
    requires EncodableEnding(e) && Has(b, o, EncodeEnding(Some(e)))
    ensures EndingAt(b, o) == Ok((e, o + |EncodeEnding(Some(e))|)) <==> SectionSurvives(e.section)
  {
    hide Encode, EncodeSection, SectionAt, SectionSurvives, EncodableSection, Aligned, SeenSection, NameAt;
    var s := EncodeSection(e.section);
    HasConcat(b, o, s, EncodeName(e.path));
    assert o + |s| < |b|;
    hide Has;
    NameAtEncode(b, o + |s|, e.path);
    SectionIdentity(e.section);
    if EndingAt(b, o) == Ok((e, o + |EncodeEnding(Some(e))|)) {
      NameEnd(b, SectionAt(b, o).value.1);
      ReadMeansAligned(b, o, e.section);
    }
    if Aligned(e.section) {
      AlignedSection(b, o, e.section);
    }
  }

  lemma NameEnd(b: seq<byte>, o: nat)
    requires NameAt(b, o).Ok?
    ensures NameAt(b, o).value.1 == o + |NameAt(b, o).value.0| + 1
  {
  }

  /**
   A whole encoded file, exception section included, is read back as the very contents it
   encodes exactly when every operand survives, the loader's checks accept the contents,
   its import lists are covered, and its exception section, if any, has one handler and
   both pcs at 0x2000 or above.
   */
  lemma WholeFileSurvivesExactly(f: File, more: seq<byte>)
    requires EncodableFile(f)
    ensures FileAt(EncodeFile(f) + more, 0) == Ok((f, |EncodeFile(f)|)) <==>
            && DisSurvives(f.dis) && Accepted(f.dis)
            && Covered(TailOf(f.dis), f.dis.header, |EncodeEnding(f.ending) + more|)
            && (f.ending.Some? ==> SectionSurvives(f.ending.value.section))
  {
    hide Encodable, EncodeDis, DisAt, DisSurvives, Accepted, Covered, EndingAt, SectionSurvives, SeenDis,
         EncodableEnding, EncodeEnding;
    var d, e := f.dis, EncodeEnding(f.ending);
    EndingFollows(f);
    assert EncodeFile(f) + more == EncodeDis(d) + (e + more);
    FileSurvivesExactly(d, e + more);
    FileRoundTrip(d, e + more);
    var b := EncodeFile(f) + more;
    assert Has(b, |EncodeDis(d)|, e);
    hide Has;
    var n := |EncodeDis(d)|;
    assert DisAt(b, 0).Ok? ==> DisAt(b, 0).value.1 == n;
    if f.ending.Some? {
      assert f.ending == Some(f.ending.value);
      EndingSurvivesExactly(b, n, f.ending.value);
    } else {
      NoEnding();
    }
    FileOfParts(b, f, n, |EncodeFile(f)|);
  }

  lemma FileOfParts(b: seq<byte>, f: File, n: nat, end: nat)
    requires DisAt(b, 0).Ok? ==> DisAt(b, 0).value.1 == n
    requires f.ending.Some? <==> f.dis.header.flag == EXCEPTION_FLAG
    ensures FileAt(b, 0) == Ok((f, end)) <==>
            && DisAt(b, 0) == Ok((f.dis, n))
            && if f.ending.Some? then EndingAt(b, n) == Ok((f.ending.value, end)) else n == end
  {
    hide DisAt, EndingAt;
    if DisAt(b, 0).Ok? && DisAt(b, 0).value.0 == f.dis {
      assert DisAt(b, 0).value == (f.dis, n);
      if f.ending.None? {
        assert OptionalEndingAt(b, n, f.dis.header) == Ok((None, n));
        assert FileAt(b, 0) == Ok((File(f.dis, None), n));
      } else if EndingAt(b, n).Ok? {
        var (e, o) := EndingAt(b, n).value;
        assert FileAt(b, 0) == Ok((File(f.dis, Some(e)), o));
      }
    }
  }

  lemma EndingFollows(f: File)
    requires EncodableFile(f)
    ensures forall more :: Follows(f.dis, EncodeEnding(f.ending) + more)
  {
  }

  lemma NoEnding()
    ensures EncodeEnding(None) == []
  {
  }
}
