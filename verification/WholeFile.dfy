/**
 The whole object file: where each section starts, what is read from it, and exactly
 which files are read back unchanged.
 */
module WholeFile {
  import opened Bytes
  import opened Operands
  import opened ObjectFile
  import opened Encoder
  import opened RoundTrip

  /** The import section, `behind` bytes from the end of the file. */
  lemma ImportSectionRoundTrip(b: seq<byte>, o: nat, h: Header, ms: seq<seq<Import>>, behind: nat)
    requires h.flag == IMPORT_FLAG
    requires Representable(|ms|) && forall m :: m in ms ==> EncodableImports(m)
    requires Has(b, o, EncodeImportSection(h, ms)) && o + |EncodeImportSection(h, ms)| + behind == |b|
    requires behind >= 1
    ensures ImportsAt(b, o) ==
            if ImportsCovered(ms, 1 + behind) then Ok((ms, o + |EncodeImportSection(h, ms)|)) else Fail
  {
    hide EncodeImports, EncodableImports, ImportsOfModuleAt, Encode, OperandAt, ImportsCovered, IntAt;
    var n, e := Encode(|ms|), Concat(EncodeImports, ms);
    HasConcat(b, o, n, e + [0]);
    HasConcat(b, o + |n|, e, [0]);
    ImportCount(b, o, ms, 1 + behind);
    if o + 4 <= |b| {
      OperandAtEncode(b, o, |ms|);
      ModulesRoundTrip(b, o + |n|, ms, 1 + behind);
    }
  }

  lemma ImportCount(b: seq<byte>, o: nat, ms: seq<seq<Import>>, behind: nat)
    requires Representable(|ms|) && forall m :: m in ms ==> EncodableImports(m)
    requires o + |Encode(|ms|)| + |Concat(EncodeImports, ms)| + behind == |b|
    ensures ImportsCovered(ms, behind) ==> o + 4 <= |b|
    ensures ms == [] && !ImportsCovered(ms, behind) ==> o + 4 > |b|
    ensures o + 4 > |b| ==> IntAt(b, o) == Fail
  {
    if ms != [] && ms[|ms| - 1] != [] {
      LongConcat(ms);
    }
  }

  predicate LinksKnown(links: seq<Link>, nTypes: nat) {
    forall l :: l in links ==> DescKnown(l, nTypes)
  }

  /** Every four-byte slice of the import section lies inside the file. */
  predicate Covered(t: Tail, h: Header, more: nat) {
    h.flag == IMPORT_FLAG ==> ImportsCovered(t.imports, 1 + |EncodePath(t.path)| + more)
  }

  /** Name and links, each read at the sum of the lengths before it. */
  lemma NameAndLinksRoundTrip(b: seq<byte>, o: nat, t: Tail, h: Header, nTypes: nat)
    requires EncodableTail(t, h) && Has(b, o, EncodeTail(t, h))
    ensures NameAt(b, o) == Ok((t.name, o + |EncodeName(t.name)|))
    ensures Many(LinkReader(nTypes), b, o + |EncodeName(t.name)|, |t.links|) ==
            if LinksKnown(Map(SeenLink, t.links), nTypes)
            then Ok((Map(SeenLink, t.links), o + |EncodeName(t.name)| + |Concat(EncodeLink, t.links)|)) else Fail
  {
    hide EncodeLink, EncodableLink, SeenLink, LinkReader, EncodableName, EncodableImports, EncodeName,
         NameAt, EncodeImportSection, DescKnown, Has, Map, Concat, Many, LinksKnown;
    var e1, e2, e3 :=
      EncodeName(t.name), Concat(EncodeLink, t.links), EncodeImportSection(h, t.imports) + EncodePath(t.path);
    HasConcat(b, o, e1, e2 + e3);
    HasConcat(b, o + |e1|, e2, e3);
    NameAtEncode(b, o, t.name);
    LinksRoundTrip(b, o + |e1|, t.links, nTypes);
    SeenLinksKnown(t.links, nTypes);
  }

  /** Name, links, imports and path, with `more` bytes behind them in the file. */
  lemma TailRoundTrip(b: seq<byte>, o: nat, t: Tail, h: Header, nTypes: nat, more: nat)
    requires EncodableTail(t, h) && Has(b, o, EncodeTail(t, h))
    requires o + |EncodeTail(t, h)| + more == |b|
    ensures TailAt(b, o, SeenHeader(h), nTypes) ==
            if LinksKnown(Map(SeenLink, t.links), nTypes) && Covered(t, h, more)
            then Ok((t.(links := Map(SeenLink, t.links)), o + |EncodeTail(t, h)|)) else Fail
  {
    hide EncodeLink, EncodableLink, SeenLink, LinkReader, EncodableName, EncodableImports, EncodeName,
         NameAt, EncodeImportSection, ImportsAt, ImportsCovered, DescKnown;
    var e1, e2, e3, e4 :=
      EncodeName(t.name), Concat(EncodeLink, t.links), EncodeImportSection(h, t.imports), EncodePath(t.path);
    HasConcat(b, o, e1, e2 + (e3 + e4));
    HasConcat(b, o + |e1|, e2, e3 + e4);
    HasConcat(b, o + |e1| + |e2|, e3, e4);
    hide Has;
    NameAndLinksRoundTrip(b, o, t, h, nTypes);
    hide Map, LinksKnown, Concat, Many, EncodePath;
    if h.flag == IMPORT_FLAG {
      PathIsNotEmpty(t.path);
      ImportSectionRoundTrip(b, o + |e1| + |e2|, h, t.imports, |e4| + more);
    } else {
      assert e3 == [] by { NoImportSection(h, t.imports); }
    }
    if t.path.Some? {
      PathIs(t.path);
      NameAtEncode(b, o + |e1| + |e2| + |e3|, t.path.value);
    }
  }

  lemma SeenLinksKnown(links: seq<Link>, nTypes: nat)
    ensures LinksKnown(Map(SeenLink, links), nTypes) <==> forall l :: l in links ==> DescKnown(SeenLink(l), nTypes)
  {
  }

  lemma PathIsNotEmpty(p: Option<seq<byte>>)
    ensures p.Some? ==> |EncodePath(p)| >= 1
  {
  }

  lemma PathIs(p: Option<seq<byte>>)
    requires p.Some?
    ensures EncodePath(p) == EncodeName(p.value)
  {
  }

  lemma NoImportSection(h: Header, ms: seq<seq<Import>>)
    requires h.flag != IMPORT_FLAG && Representable(|ms|) && forall m :: m in ms ==> EncodableImports(m)
    ensures EncodeImportSection(h, ms) == []
  {
  }

  /** The cursor at each section boundary is the sum of the encoded lengths before it. */
  function CodeStart(d: Dis): nat
    requires Encodable(d)
  {
    |EncodeHeader(d.header)|
  }

  function TypesStart(d: Dis): nat
    requires Encodable(d)
  {
    CodeStart(d) + |Concat(EncodeInstruction, d.code)|
  }

  function DataStart(d: Dis): nat
    requires Encodable(d)
  {
    TypesStart(d) + |Concat(EncodeType, d.types)|
  }

  function TailStart(d: Dis): nat
    requires Encodable(d)
  {
    DataStart(d) + |Concat(EncodeItem, d.items)| + 1
  }

  /** The encoded file, section by section. */
  lemma Layout(d: Dis, b: seq<byte>)
    requires Encodable(d) && Has(b, 0, EncodeDis(d))
    ensures Has(b, 0, EncodeHeader(d.header))
    ensures Has(b, CodeStart(d), Concat(EncodeInstruction, d.code))
    ensures Has(b, TypesStart(d), Concat(EncodeType, d.types))
    ensures Has(b, DataStart(d), Concat(EncodeItem, d.items))
    ensures Has(b, TailStart(d) - 1, [0])
    ensures Has(b, TailStart(d), EncodeTail(TailOf(d), d.header))
    ensures |EncodeDis(d)| == TailStart(d) + |EncodeTail(TailOf(d), d.header)|
  {
    hide EncodeHeader, EncodeInstruction, EncodeType, EncodeItem, EncodeTail, Concat, Has,
         EncodableHeader, EncodableInstruction, EncodableType, EncodableItem, EncodableTail;
    var e1, e2, e3 := EncodeHeader(d.header), Concat(EncodeInstruction, d.code), Concat(EncodeType, d.types);
    var e4, e5 := Concat(EncodeItem, d.items), EncodeTail(TailOf(d), d.header);
    assert EncodeDis(d) == e1 + (e2 + (e3 + (e4 + ([0] + e5))));
    HasConcat(b, 0, e1, e2 + (e3 + (e4 + ([0] + e5))));
    HasConcat(b, |e1|, e2, e3 + (e4 + ([0] + e5)));
    HasConcat(b, |e1| + |e2|, e3, e4 + ([0] + e5));
    HasConcat(b, |e1| + |e2| + |e3|, e4, [0] + e5);
    HasConcat(b, |e1| + |e2| + |e3| + |e4|, [0], e5);
  }

  /**
   Header, code, types and data of an encoded file, each read at its boundary: the same
   contents, with every operand as the loader sees it.
   */
  lemma SectionsRoundTrip(d: Dis, b: seq<byte>)
    requires Encodable(d) && Has(b, 0, EncodeDis(d))
    requires |b| >= TailStart(d) - 1 + SLACK
    ensures HeaderAt(b, 0) == Ok((SeenHeader(d.header), CodeStart(d)))
    ensures Many(InstructionAt, b, CodeStart(d), |d.code|) == Ok((Map(SeenInstruction, d.code), TypesStart(d)))
    ensures Many(TypeDescAt, b, TypesStart(d), |d.types|) == Ok((Map(SeenType, d.types), DataStart(d)))
    ensures ItemsAt(b, DataStart(d)) == Ok((Map(SeenItem, d.items), TailStart(d)))
  {
    hide EncodeDis, EncodeHeader, EncodeInstruction, EncodeType, EncodeItem, EncodeTail, EncodableHeader,
         EncodableInstruction, EncodableType, EncodableItem, EncodableTail, SeenHeader, SeenInstruction,
         SeenType, SeenItem, HeaderAt, InstructionAt, TypeDescAt, ItemsAt, Has, Concat, Many, Map;
    Layout(d, b);
    HasByte(b, TailStart(d) - 1, 0);
    HeaderAtEncode(b, 0, d.header);
    CodeRoundTrip(b, CodeStart(d), d.code);
    TypesRoundTrip(b, TypesStart(d), d.types);
    ItemsRoundTrip(b, DataStart(d), d.items);
  }

  /**
   What a file must satisfy to be accepted: the entry type exists, the first descriptor's
   size is that of the module data where the header announces data, and is never negative,
   and the links refer to known descriptors.
   */
  predicate Accepted(d: Dis) {
    && 0 <= d.header.entryType < |d.types|
    && d.types[0].size >= 0 && (d.header.dataSize == 0 || d.header.dataSize == d.types[0].size)
    && LinksKnown(d.links, |d.types|)
  }

  /** The bytes that follow: an exception section where the header announces one. */
  predicate Follows(d: Dis, more: seq<byte>) {
    d.path.None? ==> more != []
  }

  /**
   Reading an encoded file. The loader gets through exactly when its checks accept the
   contents as it sees them and the import lists are covered, and then holds those
   contents and has consumed the encoding to its last byte.
   */
  lemma FileRoundTrip(d: Dis, more: seq<byte>)
    requires Encodable(d) && Follows(d, more)
    ensures DisAt(EncodeDis(d) + more, 0) ==
            if Accepted(SeenDis(d)) && Covered(TailOf(d), d.header, |more|)
            then Ok((SeenDis(d), |EncodeDis(d)|)) else Fail
  {
    hide EncodeDis, EncodeHeader, EncodeInstruction, EncodeType, EncodeItem, EncodeTail, EncodableInstruction,
         EncodableType, EncodableItem, EncodableTail, SeenInstruction, SeenType, SeenItem, HeaderAt,
         InstructionAt, TypeDescAt, ItemsAt, TailAt, Concat, Many, Map, LinksKnown, Covered;
    var b := EncodeDis(d) + more;
    assert Has(b, 0, EncodeDis(d));
    hide Has;
    Layout(d, b);
    TailLength(TailOf(d), d.header);
    SectionsRoundTrip(d, b);
    TailRoundTrip(b, TailStart(d), TailOf(d), d.header, |d.types|, |more|);
  }

  lemma TailLength(t: Tail, h: Header)
    requires EncodableTail(t, h)
    ensures |EncodeTail(t, h)| >= if t.path.Some? then 2 else 1
  {
  }
}
