/**
 Loading an encoded module: the file is read back, its data items are loaded in order, and
 the heap ends up as the simple store says.
 */
module LoadTheorem {
  import opened Bytes
  import opened ObjectFile
  import opened Encoder
  import opened WholeFile
  import opened Faithful
  import opened Handlers
  import opened HeapModel
  import opened Store
  import opened Refinement
  import opened HeapLayout
  import opened Targets
  import opened DebugRead
  import opened LoadData
  import opened Loader

  /** A file's contents as a loaded module with this heap. */
  function AsLoaded(f: File, heap: Heap, end: nat): Loaded {
    var d := f.dis;
    var origmp := if d.header.dataSize == 0 then None else Some(0x80000);
    Loaded(Module(d.header, d.code, d.types, origmp, TailOf(d), WithoutHandlers(f.ending)), heap, end)
  }

  function WithoutHandlers(e: Option<Ending>): Option<Ending> {
    if e.None? then None
    else
      var Section(frameOffset, pcStart, pcEnd, typeDesc, _, defaultPc) := e.value.section;
      Some(Ending(Section(frameOffset, pcStart, pcEnd, typeDesc, [], defaultPc), e.value.path))
  }

  /** The element size of each type. */
  function ElementSizes(d: Dis): seq<int> {
    seq(|d.types|, i requires 0 <= i < |d.types| => d.types[i].size)
  }

  lemma SizesAre(d: Dis)
    ensures Sizes(d.types) == ElementSizes(d)
  {
  }

  /** The items of a file, loaded in order into a fresh heap. */
  function DataHeap(d: Dis): Result<Heap> {
    if d.types == [] then Fail
    else
      var heap0 :- FreshHeap(d.types[0]);
      LoadAll(heap0, ElementSizes(d), d.items)
  }

  /** The loader reads the file's contents, loads its items, and reads the heap at offset 312. */
  function ReadThenLoaded(b: seq<byte>): Result<Loaded> {
    var (f, end) :- FileAt(b, 0);
    var heap :- DataHeap(f.dis);
    if DebugReads(heap) then Ok(AsLoaded(f, heap, end)) else Fail
  }

  lemma LoadedFromContents(b: seq<byte>)
    ensures LoadedFrom(b) == ReadThenLoaded(b)
  {
    if FrontAt(b, 0).Ok? {
      var ((h, code, types), o1) := FrontAt(b, 0).value;
      assert 0 <= h.entryType < |types|;
      hide FrontAt, ItemsAt, FreshHeap, LoadAll, TailAt, DataLoadedAt, Sizes, ElementSizes, DebugReads,
           OptionalEndingAt;
      if ItemsAt(b, o1).Ok? && TailAt(b, ItemsAt(b, o1).value.1, h, |types|).Ok? {
        SizesAre(DisAt(b, 0).value.0);
      }
      if FreshHeap(types[0]).Ok? {
        LoadingInTurns(FreshHeap(types[0]).value, Sizes(types), b, o1);
      }
    } else {
      hide FrontAt;
    }
  }

  /** The store a module's data describes, in a region of `cap` bytes. */
  predicate DataWellFormed(d: Dis) {
    && d.types != [] && FreshHeap(d.types[0]).Ok? && InSigned(d.types[0].size, 4)
    && WellFormed(Empty(d.types[0].size), |FreshHeap(d.types[0]).value.mem|, ElementSizes(d), d.items)
  }

  function DataStore(d: Dis): Store
    requires DataWellFormed(d)
  {
    Run(Empty(d.types[0].size), |FreshHeap(d.types[0]).value.mem|, ElementSizes(d), d.items)
  }

  /** Well-formed data loads, into a heap that agrees with the store it describes. */
  lemma WellFormedDataLoads(d: Dis)
    requires DataWellFormed(d)
    ensures DataHeap(d).Ok? && DataStore(d).size == d.types[0].size
    ensures Agrees(DataStore(d), FreshHeap(d.types[0]).value.mem, DataHeap(d).value) && Rooted(DataStore(d).objs)
    ensures Sized(DataStore(d).objs, ElementSizes(d))
  {
    hide FreshHeap, LoadAll, Agrees, WellFormed, Run, ElementSizes, Rooted, Sized;
    var heap0, s0 := FreshHeap(d.types[0]).value, Empty(d.types[0].size);
    FreshAgrees(d.types[0]);
    RunAgrees(s0, heap0.mem, heap0, ElementSizes(d), d.items);
    NothingRooted(d.types[0].size);
    RunRooted(s0, |heap0.mem|, ElementSizes(d), d.items);
    RunSized(s0, |heap0.mem|, ElementSizes(d), d.items);
    ObjectsStay(s0, |heap0.mem|, ElementSizes(d), d.items);
  }

  /** The file is read back as it was written. */
  predicate FileSurvives(f: File, more: seq<byte>)
    requires EncodableFile(f)
  {
    && DisSurvives(f.dis) && Accepted(f.dis)
    && Covered(TailOf(f.dis), f.dis.header, |EncodeEnding(f.ending) + more|)
    && (f.ending.Some? ==> SectionSurvives(f.ending.value.section))
  }

  /**
   A module whose operands survive, whose checks pass and whose data is well-formed: its
   encoding loads to the last byte, into exactly its own header, code, types, names and
   links, and into a heap that agrees with the store its data items describe. What alone
   can stop it is the debug read of that heap.
   */
  lemma EncodedModuleLoads(f: File, more: seq<byte>)
    requires EncodableFile(f) && FileSurvives(f, more) && DataWellFormed(f.dis)
    ensures DataHeap(f.dis).Ok?
    ensures LoadedFrom(EncodeFile(f) + more) ==
            if DebugReads(DataHeap(f.dis).value) then Ok(AsLoaded(f, DataHeap(f.dis).value, |EncodeFile(f)|)) else Fail
    ensures Agrees(DataStore(f.dis), FreshHeap(f.dis.types[0]).value.mem, DataHeap(f.dis).value)
    ensures Rooted(DataStore(f.dis).objs)
  {
    WholeFileSurvivesExactly(f, more);
    hide *;
    WellFormedDataLoads(f.dis);
    LoadedFromContents(EncodeFile(f) + more);
    LoadedWhenRead(EncodeFile(f) + more, f, |EncodeFile(f)|);
  }

  lemma LoadedWhenRead(b: seq<byte>, f: File, end: nat)
    requires FileAt(b, 0) == Ok((f, end)) && DataHeap(f.dis).Ok?
    ensures var heap := DataHeap(f.dis).value;
            ReadThenLoaded(b) == if DebugReads(heap) then Ok(AsLoaded(f, heap, end)) else Fail
  {
    hide FileAt, DataHeap, DebugReads;
  }

  /**
   Such a module with a pointer to object `k` at offset 312 loads exactly when as many
   words as the object has elements fit behind its descriptor.
   */
  lemma PointerDecidesLoading(f: File, more: seq<byte>, k: nat)
    requires EncodableFile(f) && FileSurvives(f, more) && DataWellFormed(f.dis)
    requires k < |DataStore(f.dis).objs| && Holds(DataStore(f.dis), InModule, 312, Pointer(k))
    requires InSigned(LengthField(DataStore(f.dis).objs[k].body), 4)
    ensures var o, cap := DataStore(f.dis).objs[k], |FreshHeap(f.dis.types[0]).value.mem|;
            var n := LengthField(o.body);
            LoadedFrom(EncodeFile(f) + more).Ok? <==>
            n == 0 || (o.at + HEADER + DESCRIPTOR + 4 * n <= cap && InSigned(4 * (n - 1), 4))
  {
    hide FileSurvives, EncodableFile, EncodeFile, DataHeap, DataStore, Holds, Agrees, Rooted, FreshHeap, LoadedFrom,
         DebugReads, InSigned, LengthField;
    EncodedModuleLoads(f, more);
    var s, init, h := DataStore(f.dis), FreshHeap(f.dis.types[0]).value.mem, DataHeap(f.dis).value;
    RegionOf(s, init, h);
    DebugReadFollows(s, init, h, k);
  }

  /** Such a module with that word in its data and nothing written to it, or with the break below it, does not load. */
  lemma NoPointerNoLoading(f: File, more: seq<byte>)
    requires EncodableFile(f) && FileSurvives(f, more) && DataWellFormed(f.dis)
    requires DataStore(f.dis).size < 316 ==> DataStore(f.dis).brk < 312
    requires forall l: Loc :: l.place == InModule && l.at / 4 == 78 ==> l !in DataStore(f.dis).cells
    ensures LoadedFrom(EncodeFile(f) + more) == Fail
  {
    hide FileSurvives, EncodableFile, EncodeFile, DataHeap, DataStore, Agrees, Rooted, FreshMemory, MapFits, LoadedFrom,
         DebugReads;
    EncodedModuleLoads(f, more);
    var t := f.dis.types[0];
    DebugReadUntouched(DataStore(f.dis), t.map_, t.size + HEAP_SIZE / 2, DataHeap(f.dis).value);
  }

  /** No code, 316 bytes of data, and in their last word a pointer to an array without elements. */
  function Smallest(): File {
    var it := Item(1, false, 312, Array(0, 0));
    var h := Header(None, 1, 0, 0, 316, 1, 0, 0, 0);
    File(Dis(h, [], [TypeDesc(0, 316, 0, [])], [it], [], [], [], Some([])), None)
  }

  /** That module loads: the conditions above can all be met. */
  lemma SmallestLoads()
    ensures EncodableFile(Smallest()) && FileSurvives(Smallest(), []) && DataWellFormed(Smallest().dis)
    ensures LoadedFrom(EncodeFile(Smallest()) + []).Ok?
  {
    var f := Smallest();
    SmallestSurvives();
    SmallestStore();
    assert InSigned(0, 4) by { Widths(); }
    hide *;
    PointerDecidesLoading(f, [], 0);
  }

  lemma SmallestSurvives()
    ensures EncodableFile(Smallest()) && FileSurvives(Smallest(), [])
  {
    DisIdentity(Smallest().dis);
  }

  lemma SmallestStore()
    ensures DataWellFormed(Smallest().dis)
    ensures var s := DataStore(Smallest().dis);
            && |s.objs| == 1 && LengthField(s.objs[0].body) == 0
            && Holds(s, InModule, 312, Pointer(0))
  {
    var d := Smallest().dis;
    var s0, cap, sizes := Empty(316), |FreshHeap(d.types[0]).value.mem|, ElementSizes(d);
    Widths();
    assert Fits(s0, cap, sizes, d.items[0]);
    UpdateKeeps(Create(s0, ArrayBody(0, 0, 0, 0)), 312, Pointer(0));
    UpdateHolds(Create(s0, ArrayBody(0, 0, 0, 0)), 312, Pointer(0));
    hide Update, Fits, Pointer, Holds;
    assert Run(Step(s0, cap, sizes, d.items[0]), cap, sizes, []) == Step(s0, cap, sizes, d.items[0]);
  }

  /** Negative offsets and sizes below -64 are read as large positive ones, and loading goes on. */
  lemma MisreadContentsLoad(d: Dis, more: seq<byte>)
    requires Encodable(d) && Follows(d, more)
    ensures LoadedFrom(EncodeDis(d) + more).Ok? <==>
            && Accepted(SeenDis(d)) && Covered(TailOf(d), d.header, |more|)
            && DataHeap(SeenDis(d)).Ok? && DebugReads(DataHeap(SeenDis(d)).value)
            && OptionalEndingAt(EncodeDis(d) + more, |EncodeDis(d)|, d.header).Ok?
  {
    hide Encodable, Follows, Accepted, Covered, EncodeDis, DisAt, DataHeap, LoadedFrom, SeenDis, DebugReads,
         OptionalEndingAt;
    FileRoundTrip(d, more);
    FlagIsSeen(EncodeDis(d) + more, d);
    LoadedFromContents(EncodeDis(d) + more);
  }

  lemma FlagIsSeen(b: seq<byte>, d: Dis)
    ensures forall o: nat :: OptionalEndingAt(b, o, SeenDis(d).header) == OptionalEndingAt(b, o, d.header)
  {
    hide EndingAt;
  }

  /** The payload size of every array is its length times its type's size, and stands in the header. */
  ghost predicate ArraysSized(m: seq<byte>, objs: seq<Obj>, types: seq<TypeDesc>) {
    forall k :: 0 <= k < |objs| && objs[k].body.ArrayBody? ==>
      && objs[k].body.typ < |types|
      && objs[k].body.span == types[objs[k].body.typ].size * objs[k].body.len
      && WordIs(m, objs[k].at, 1, 16 + types[objs[k].body.typ].size * objs[k].body.len)
  }

  lemma ArraySizes(d: Dis, s: Store, init: seq<byte>, h: Heap)
    requires Agrees(s, init, h) && Rooted(s.objs) && Sized(s.objs, ElementSizes(d))
    ensures ArraysSized(h.mem, s.objs, d.types)
  {
    hide Agrees, Rooted, WordIs;
    forall k | 0 <= k < |s.objs| && s.objs[k].body.ArrayBody?
      ensures s.objs[k].body.typ < |d.types|
      ensures s.objs[k].body.span == d.types[s.objs[k].body.typ].size * s.objs[k].body.len
      ensures WordIs(h.mem, s.objs[k].at, 1, 16 + s.objs[k].body.span)
    {
      HeaderReadsBack(s, init, h, k);
    }
  }

  /**
   What any reader finds in the heap of a loaded module: the objects can be walked, their
   headers, descriptors and texts stand there word by word, arrays have the size their
   types give them, the array roots form a chain, and every string reads back.
   */
  lemma LoadedHeapIsSound(f: File, more: seq<byte>)
    requires EncodableFile(f) && FileSurvives(f, more) && DataWellFormed(f.dis)
    requires LoadedFrom(EncodeFile(f) + more).Ok?
    ensures var h, s := LoadedFrom(EncodeFile(f) + more).value.heap, DataStore(f.dis);
            && Walk(h.mem, f.dis.types[0].size, h.brk) == (Offsets(s.objs), h.brk)
            && (forall k :: 0 <= k < |s.objs| ==> InBytes(h.mem, s.objs[k]))
            && ArraysSized(h.mem, s.objs, f.dis.types)
            && RootChain(h.mem, h.last, ArrayHeaders(s.objs)) && Descending(ArrayHeaders(s.objs))
            && forall k :: 0 <= k < |s.objs| && s.objs[k].body.TextBody? ==>
                 var t := s.objs[k].body.text; StringAt(h.mem, DataAddress(s, k)) == Ok(StringDesc(|t|, |t|, t))
  {
    hide FileSurvives, EncodableFile, EncodeFile, FreshHeap, Agrees, WellFormed, DataStore, DataHeap, Rooted,
         LoadedFrom, Walk, Offsets, RootChain, Descending, ArrayHeaders, StringAt, DataAddress, DebugReads, InBytes,
         ArraysSized, Sized;
    EncodedModuleLoads(f, more);
    WellFormedDataLoads(f.dis);
    var h, s, init := DataHeap(f.dis).value, DataStore(f.dis), FreshHeap(f.dis.types[0]).value.mem;
    HeapIsWalkable(s, init, h);
    RootsFormAChain(s, init, h);
    ArraySizes(f.dis, s, init, h);
    forall k | 0 <= k < |s.objs|
      ensures InBytes(h.mem, s.objs[k])
    {
      HeaderReadsBack(s, init, h, k);
    }
    forall k | 0 <= k < |s.objs| && s.objs[k].body.TextBody?
      ensures var t := s.objs[k].body.text; StringAt(h.mem, DataAddress(s, k)) == Ok(StringDesc(|t|, |t|, t))
    {
      StringReadsBack(s, init, h, k);
    }
  }
}
