/**
 `load_module`: the loops that read an object file through a running offset, and the
 hand-over of that offset to the buffered reader for the data section and back.
 */
module Loader {
  import opened Bytes
  import opened Operands
  import opened ObjectFile
  import opened Encoder
  import opened Handlers
  import opened HeapModel
  import opened DebugRead
  import opened Reader
  import opened ModuleHeap
  import opened LoadData

  // The loops, section by section

  method ReadHeader(b: seq<byte>, start: nat) returns (r: Result<(Header, nat)>)
    ensures r == HeaderAt(b, start)
  {
    hide IntAt, OperandAt, FlagAt, Many, Prepend;
    var offset: nat := start;
    var magic :- IntAt(b, offset);
    offset := magic.1;
    var signature: Option<seq<byte>> := None;
    if magic.0 == SMAGIC {
      var length :- IntAt(b, offset);
      offset := length.1;
      if length.0 < 0 || offset + length.0 > |b| {
        return Fail;
      }
      signature := Some(b[offset..offset + length.0]);
      offset := offset + length.0;
    } else if magic.0 != XMAGIC {
      return Fail;
    }
    var flag :- FlagAt(b, offset);
    offset := flag.1;
    var fields: seq<int> := [];
    PrependNothing(Many(IntAt, b, offset, 7));
    while |fields| < 7
      invariant |fields| <= 7
      invariant Many(IntAt, b, flag.1, 7) == Prepend(fields, Many(IntAt, b, offset, 7 - |fields|))
    {
      ManyStep(IntAt, b, offset, 7 - |fields|, fields);
      var v :- IntAt(b, offset);
      offset := v.1;
      fields := fields + [v.0];
    }
    ManyDone(IntAt, b, offset, fields);
    var h := Header(signature, flag.0, fields[0], fields[1], fields[2], fields[3], fields[4], fields[5], fields[6]);
    if h.codeSize < 0 || h.dataSize < 0 || h.typeSize < 0 || h.linkSize < 0 {
      return Fail;
    }
    r := Ok((h, offset));
  }

  method ReadCode(b: seq<byte>, start: nat, size: nat) returns (r: Result<(seq<Instruction>, nat)>)
    ensures r == Many(InstructionAt, b, start, size)
  {
    hide MiddleAt, SourceDestAt, Many, Prepend;
    var code: seq<Instruction> := [];
    var offset: nat := start;
    PrependNothing(Many(InstructionAt, b, start, size));
    while |code| < size
      invariant |code| <= size
      invariant Many(InstructionAt, b, start, size) == Prepend(code, Many(InstructionAt, b, offset, size - |code|))
    {
      ManyStep(InstructionAt, b, offset, size - |code|, code);
      if offset + 2 > |b| {
        return Fail;
      }
      var opcode, address := b[offset], b[offset + 1];
      offset := offset + 2;
      var middle :- MiddleAt(b, offset, MiddleModeAt(address));
      offset := middle.1;
      var src :- SourceDestAt(b, offset, SourceMode(address), false);
      offset := src.1;
      var dest :- SourceDestAt(b, offset, DestMode(address), true);
      offset := dest.1;
      code := code + [Instruction(opcode, address, middle.0, src.0, dest.0)];
    }
    ManyDone(InstructionAt, b, offset, code);
    r := Ok((code, offset));
  }

  method ReadTypes(b: seq<byte>, start: nat, size: nat) returns (r: Result<(seq<TypeDesc>, nat)>)
    ensures r == Many(TypeDescAt, b, start, size)
  {
    hide IntAt, Many, Prepend;
    var types: seq<TypeDesc> := [];
    var offset: nat := start;
    PrependNothing(Many(TypeDescAt, b, start, size));
    while |types| < size
      invariant |types| <= size
      invariant Many(TypeDescAt, b, start, size) == Prepend(types, Many(TypeDescAt, b, offset, size - |types|))
    {
      ManyStep(TypeDescAt, b, offset, size - |types|, types);
      var no :- IntAt(b, offset);
      offset := no.1;
      var typeSize :- IntAt(b, offset);
      offset := typeSize.1;
      var mapSize :- IntAt(b, offset);
      offset := mapSize.1;
      var map_: seq<byte> := [];
      while |map_| < mapSize.0
        invariant |map_| <= if mapSize.0 < 0 then 0 else mapSize.0
        invariant offset == mapSize.1 + |map_| <= |b| && map_ == b[mapSize.1..offset]
      {
        if offset >= |b| {
          return Fail;
        }
        map_ := map_ + [b[offset]];
        offset := offset + 1;
      }
      types := types + [TypeDesc(no.0, typeSize.0, mapSize.0, map_)];
    }
    ManyDone(TypeDescAt, b, offset, types);
    r := Ok((types, offset));
  }

  method ReadName(b: seq<byte>, start: nat) returns (r: Result<(seq<byte>, nat)>)
    ensures r == NameAt(b, start)
  {
    var name: seq<byte> := [];
    var offset: nat := start;
    PrependNothing(NameAt(b, start));
    while true
      invariant NameAt(b, start) == Prepend(name, NameAt(b, offset))
      decreases |b| - offset
    {
      if offset >= |b| {
        return Fail;
      }
      var c := b[offset];
      offset := offset + 1;
      if c == 0 {
        assert name + [] == name;
        return Ok((name, offset));
      }
      NameStep(b, offset - 1, name);
      name := name + [c];
    }
  }

  lemma NameStep(b: seq<byte>, o: nat, name: seq<byte>)
    requires o < |b| && b[o] != 0
    ensures Prepend(name, NameAt(b, o)) == Prepend(name + [b[o]], NameAt(b, o + 1))
  {
    var r := NameAt(b, o + 1);
    if r.Ok? {
      assert name + ([b[o]] + r.value.0) == name + [b[o]] + r.value.0;
    }
  }

  method ReadLinks(b: seq<byte>, start: nat, size: nat, nTypes: nat) returns (r: Result<(seq<Link>, nat)>)
    ensures r == Many(LinkReader(nTypes), b, start, size)
  {
    hide IntAt, WordAt, NameAt, Many, Prepend;
    var links: seq<Link> := [];
    var offset: nat := start;
    PrependNothing(Many(LinkReader(nTypes), b, start, size));
    while |links| < size
      invariant |links| <= size
      invariant Many(LinkReader(nTypes), b, start, size) ==
                Prepend(links, Many(LinkReader(nTypes), b, offset, size - |links|))
    {
      ManyStep(LinkReader(nTypes), b, offset, size - |links|, links);
      var entryPc :- IntAt(b, offset);
      offset := entryPc.1;
      var desc :- IntAt(b, offset);
      offset := desc.1;
      if desc.0 != 0 && !(0 <= desc.0 < nTypes) {
        return Fail;
      }
      var sig :- WordAt(b, offset);
      offset := sig.1;
      var name := ReadName(b, offset);
      if name.Fail? {
        return Fail;
      }
      offset := name.value.1;
      links := links + [Link(entryPc.0, desc.0, sig.0, name.value.0)];
    }
    ManyDone(LinkReader(nTypes), b, offset, links);
    r := Ok((links, offset));
  }

  method ReadImportList(b: seq<byte>, start: nat) returns (r: Result<(seq<Import>, nat)>)
    ensures r == ImportsOfModuleAt(b, start)
  {
    hide IntAt, WordAt, NameAt, Many, Prepend;
    var size :- LengthAt(b, start);
    var imports: seq<Import> := [];
    var offset: nat := size.1;
    PrependNothing(Many(ImportAt, b, size.1, size.0));
    while |imports| < size.0
      invariant |imports| <= size.0
      invariant Many(ImportAt, b, size.1, size.0) == Prepend(imports, Many(ImportAt, b, offset, size.0 - |imports|))
    {
      ManyStep(ImportAt, b, offset, size.0 - |imports|, imports);
      var sig :- WordAt(b, offset);
      offset := sig.1;
      var name := ReadName(b, offset);
      if name.Fail? {
        return Fail;
      }
      offset := name.value.1;
      imports := imports + [Import(sig.0, name.value.0)];
    }
    ManyDone(ImportAt, b, offset, imports);
    r := Ok((imports, offset));
  }

  method ReadImports(b: seq<byte>, start: nat) returns (r: Result<(seq<seq<Import>>, nat)>)
    ensures r == ImportsAt(b, start)
  {
    hide IntAt, ImportsOfModuleAt, Many, Prepend;
    var size :- LengthAt(b, start);
    var modules: seq<seq<Import>> := [];
    var offset: nat := size.1;
    PrependNothing(Many(ImportsOfModuleAt, b, size.1, size.0));
    while |modules| < size.0
      invariant |modules| <= size.0
      invariant Many(ImportsOfModuleAt, b, size.1, size.0) ==
                Prepend(modules, Many(ImportsOfModuleAt, b, offset, size.0 - |modules|))
    {
      ManyStep(ImportsOfModuleAt, b, offset, size.0 - |modules|, modules);
      var list := ReadImportList(b, offset);
      if list.Fail? {
        return Fail;
      }
      offset := list.value.1;
      modules := modules + [list.value.0];
    }
    ManyDone(ImportsOfModuleAt, b, offset, modules);
    r := Ok((modules, offset + 1));
  }

  /** Four operands in a row. */
  lemma FourInts(b: seq<byte>, o: nat)
    ensures Many(IntAt, b, o, 4) ==
            var (v0, o1) :- IntAt(b, o);
            var (v1, o2) :- IntAt(b, o1);
            var (v2, o3) :- IntAt(b, o2);
            var (v3, o4) :- IntAt(b, o3);
            Ok(([v0, v1, v2, v3], o4))
  {
    hide IntAt, Many, Prepend;
    PrependNothing(Many(IntAt, b, o, 4));
    ManyStep(IntAt, b, o, 4, []);
    if IntAt(b, o).Ok? {
      var (v0, o1) := IntAt(b, o).value;
      assert [] + [v0] == [v0];
      ManyStep(IntAt, b, o1, 3, [v0]);
      if IntAt(b, o1).Ok? {
        var (v1, o2) := IntAt(b, o1).value;
        assert [v0] + [v1] == [v0, v1];
        ManyStep(IntAt, b, o2, 2, [v0, v1]);
        if IntAt(b, o2).Ok? {
          var (v2, o3) := IntAt(b, o2).value;
          assert [v0, v1] + [v2] == [v0, v1, v2];
          ManyStep(IntAt, b, o3, 1, [v0, v1, v2]);
          if IntAt(b, o3).Ok? {
            var (v3, o4) := IntAt(b, o3).value;
            assert [v0, v1, v2] + [v3] == [v0, v1, v2, v3];
            ManyDone(IntAt, b, o4, [v0, v1, v2, v3]);
          }
        }
      }
    }
  }

  method ReadHandlers(b: seq<byte>, start: nat, size: nat) returns (r: Result<(seq<Handler>, nat)>)
    ensures r == Many(HandlerAt, b, start, size)
  {
    hide IntAt, NameAt, Many, Prepend;
    var handlers: seq<Handler> := [];
    var offset: nat := start;
    PrependNothing(Many(HandlerAt, b, start, size));
    while |handlers| < size
      invariant |handlers| <= size
      invariant Many(HandlerAt, b, start, size) == Prepend(handlers, Many(HandlerAt, b, offset, size - |handlers|))
    {
      ManyStep(HandlerAt, b, offset, size - |handlers|, handlers);
      var name := ReadName(b, offset);
      if name.Fail? {
        return Fail;
      }
      offset := name.value.1;
      var pc :- IntAt(b, offset);
      offset := offset + 4;
      handlers := handlers + [Handler(name.value.0, pc.0)];
    }
    ManyDone(HandlerAt, b, offset, handlers);
    r := Ok((handlers, offset));
  }

  method ReadSection(b: seq<byte>, start: nat) returns (r: Result<(Section, nat)>)
    ensures r == SectionAt(b, start)
  {
    hide IntAt, Many;
    FourInts(b, start);
    var frameOffset :- IntAt(b, start);
    var offset := frameOffset.1;
    var pcStart :- IntAt(b, offset);
    offset := pcStart.1;
    var pcEnd :- IntAt(b, offset);
    offset := pcEnd.1;
    var desc :- IntAt(b, offset);
    offset := desc.1;
    var count :- IntAt(b, offset);
    if count.0 < 0 {
      return Fail;
    }
    offset := offset + count.0;
    var handlers := ReadHandlers(b, offset, count.0);
    if handlers.Fail? {
      return Fail;
    }
    offset := handlers.value.1;
    var defaultPc :- IntAt(b, offset);
    offset := offset + 4;
    r := Ok((Section(frameOffset.0, pcStart.0, pcEnd.0, desc.0, handlers.value.0, defaultPc.0), offset));
  }

  // The whole loader

  /**
   A loaded module, apart from its heap. `origmp` is the address of its data, if it has any.
   The path of a file with an exception section is in the ending, not in the tail.
   */
  datatype Module = Module(
    header: Header, code: seq<Instruction>, types: seq<TypeDesc>, origmp: Option<nat>, tail: Tail,
    ending: Option<Ending>)

  /** The handlers are read and dropped. */
  function Kept(e: Option<Ending>): Option<Ending> {
    match e
    case None => None
    case Some(ending) => Some(ending.(section := ending.section.(handlers := [])))
  }

  /** What loading a file gives: the module, its heap, and the cursor at the end. */
  datatype Loaded = Loaded(m: Module, heap: Heap, end: nat)

  function Sizes(types: seq<TypeDesc>): (r: seq<int>)
    ensures |r| == |types|
  {
    Map((t: TypeDesc) => t.size, types)
  }

  function OrigMp(h: Header): Option<nat> {
    if h.dataSize != 0 then Some(ORG) else None
  }

  function LoadedFrom(b: seq<byte>): Result<Loaded> {
    var ((h, code, types), o1) :- FrontAt(b, 0);
    var heap0 :- FreshHeap(types[0]);
    var (heap, o2) :- DataLoadedAt(heap0, Sizes(types), b, o1);
    if !DebugReads(heap) then Fail
    else
      var (t, o3) :- TailAt(b, o2, h, |types|);
      var (e, o4) :- OptionalEndingAt(b, o3, h);
      Ok(Loaded(Module(h, code, types, OrigMp(h), t, Kept(e)), heap, o4))
  }

  method ReadTail(b: seq<byte>, start: nat, h: Header, nTypes: nat) returns (r: Result<(Tail, nat)>)
    ensures r == TailAt(b, start, h, nTypes)
  {
    hide NameAt, Many, LinkReader, ImportsAt;
    var name := ReadName(b, start);
    if name.Fail? {
      return Fail;
    }
    var links := ReadLinks(b, name.value.1, if h.linkSize < 0 then 0 else h.linkSize, nTypes);
    if links.Fail? {
      return Fail;
    }
    var imports: seq<seq<Import>>, offset := [], links.value.1;
    if h.flag == HASLDT2 {
      var ms := ReadImports(b, offset);
      if ms.Fail? {
        return Fail;
      }
      imports, offset := ms.value.0, ms.value.1;
    }
    if h.flag == HASEXCEPT {
      return Ok((Tail(name.value.0, links.value.0, imports, None), offset));
    }
    var path := ReadName(b, offset);
    if path.Fail? {
      return Fail;
    }
    r := Ok((Tail(name.value.0, links.value.0, imports, Some(path.value.0)), path.value.1));
  }

  method ReadEnding(b: seq<byte>, start: nat, h: Header) returns (r: Result<(Option<Ending>, nat)>)
    ensures r == OptionalEndingAt(b, start, h)
  {
    hide SectionAt, NameAt;
    if h.flag != HASEXCEPT {
      return Ok((None, start));
    }
    var section := ReadSection(b, start);
    if section.Fail? {
      return Fail;
    }
    var path := ReadName(b, section.value.1);
    if path.Fail? {
      return Fail;
    }
    r := Ok((Some(Ending(section.value.0, path.value.0)), path.value.1));
  }

  method LoadModule(b: seq<byte>) returns (r: Result<(Module, ModuleHeap, nat)>)
    ensures r.Ok? <==> LoadedFrom(b).Ok?
    ensures r.Ok? ==>
              var l := LoadedFrom(b).value;
              r.value.0 == l.m && r.value.1.State() == l.heap && r.value.2 == l.end && fresh(r.value.1)
  {
    hide HeaderAt, Many, FreshHeap, DataLoadedAt, TailAt, Sizes, DebugReads, OptionalEndingAt;
    var header := ReadHeader(b, 0);
    if header.Fail? {
      return Fail;
    }
    var (h, o1) := header.value;
    HeaderSizes(b, 0);
    var code := ReadCode(b, o1, h.codeSize);
    if code.Fail? {
      return Fail;
    }
    var types := ReadTypes(b, code.value.1, h.typeSize);
    if types.Fail? {
      return Fail;
    }
    var ts, offset := types.value.0, types.value.1;
    if !TypesUsable(h, ts) {
      return Fail;
    }
    var heap := ModuleHeap.New(ts[0]);
    if heap.Fail? {
      return Fail;
    }
    var reader := new BufferedReader(b, offset);
    var ok := LoadItems(heap.value, Sizes(ts), reader);
    if !ok {
      return Fail;
    }
    var printed := PrintArray(heap.value);
    if printed.Fail? {
      return Fail;
    }
    offset := reader.offset;
    var tail := ReadTail(b, offset, h, |ts|);
    if tail.Fail? {
      return Fail;
    }
    var ending := ReadEnding(b, tail.value.1, h);
    if ending.Fail? {
      return Fail;
    }
    var m := Module(h, code.value.0, ts, OrigMp(h), tail.value.0, Kept(ending.value.0));
    r := Ok((m, heap.value, ending.value.1));
  }

  lemma HeaderSizes(b: seq<byte>, o: nat)
    requires HeaderAt(b, o).Ok?
    ensures var h := HeaderAt(b, o).value.0; h.codeSize >= 0 && h.dataSize >= 0 && h.typeSize >= 0 && h.linkSize >= 0
  {
    hide Many, FlagAt, SignatureAt;
  }
}
