/**
 What any reader of the byte region finds in it: the objects tile the heap and can be
 walked by their size fields, strings read back, and the array roots form a chain. This
 holds wherever the heap agrees with the store, so after every well-formed stream; where
 the break ends up is stated for every stream the loader gets through.
 */
module HeapLayout {
  import opened Bytes
  import opened ObjectFile
  import opened HeapModel
  import opened Store
  import opened Refinement

  // Walking the heap

  /** `VmObject::size`: header and what its size field counts. */
  function ObjectSize(m: seq<byte>, at: nat): nat
    requires at + 8 <= |m|
  {
    HEADER + ReadWord(m, at + 4)
  }

  /** The headers met from `at` to `end` by stepping over rounded sizes, and where that stops. */
  function Walk(m: seq<byte>, at: nat, end: nat): (seq<nat>, nat)
    decreases end - at
  {
    if at >= end || at + 8 > |m| then ([], at)
    else
      var (rest, stop) := Walk(m, at + RoundUp4(ObjectSize(m, at)), end);
      ([at] + rest, stop)
  }

  function Offsets(objs: seq<Obj>): (r: seq<nat>)
    ensures |r| == |objs| && forall k :: 0 <= k < |objs| ==> r[k] == objs[k].at
  {
    seq(|objs|, k requires 0 <= k < |objs| => objs[k].at)
  }

  lemma SizeField(m: seq<byte>, o: Obj)
    requires HasImage(m, o) && |m| < TWO_TO_THE_32 && NextBlock(o) <= |m|
    ensures o.at + 8 <= |m| && o.at + RoundUp4(ObjectSize(m, o.at)) == NextBlock(o)
  {
    hide HasImage, ReadWord;
    assert BodySize(o.body) <= BlockSize(o.body);
    hide RoundUp4;
    PrologueAt(m, o, 1);
  }

  lemma WalkStep(m: seq<byte>, o: Obj, end: nat)
    requires HasImage(m, o) && |m| < TWO_TO_THE_32 && NextBlock(o) <= |m| && o.at < end
    ensures Walk(m, o.at, end) == ([o.at] + Walk(m, NextBlock(o), end).0, Walk(m, NextBlock(o), end).1)
  {
    hide HasImage, ReadWord, RoundUp4, BlockSize, ObjectSize, NextBlock;
    SizeField(m, o);
  }

  /** Where block `k` starts, or the break behind the last one. */
  function StartOf(s: Store, k: nat): nat
    requires k <= |s.objs|
  {
    if k == |s.objs| then s.brk else s.objs[k].at
  }

  lemma BlockStarts(s: Store, m: seq<byte>, k: nat)
    requires Tiled(s.objs, s.size, s.brk) && Images(m, s.objs) && k < |s.objs|
    ensures HasImage(m, s.objs[k]) && s.objs[k].at < s.brk
    ensures NextBlock(s.objs[k]) == StartOf(s, k + 1) <= s.brk
  {
    hide HasImage, RoundUp4;
    assert NextBlock(s.objs[k]) <= s.brk;
  }

  lemma {:induction false} WalkFrom(s: Store, m: seq<byte>, k: nat)
    requires Tiled(s.objs, s.size, s.brk) && Images(m, s.objs) && s.brk <= |m| < TWO_TO_THE_32
    requires k <= |s.objs|
    ensures Walk(m, StartOf(s, k), s.brk) == (Offsets(s.objs[k..]), s.brk)
    decreases |s.objs| - k
  {
    hide HasImage, NextBlock, Tiled, Images;
    if k == |s.objs| {
      assert s.objs[k..] == [];
    } else {
      hide Walk;
      BlockStarts(s, m, k);
      WalkStep(m, s.objs[k], s.brk);
      WalkFrom(s, m, k + 1);
      assert [s.objs[k].at] + Offsets(s.objs[k + 1..]) == Offsets(s.objs[k..]);
    }
  }

  function TotalBlocks(objs: seq<Obj>): nat {
    if objs == [] then 0 else TotalBlocks(objs[..|objs| - 1]) + BlockSize(objs[|objs| - 1].body)
  }

  lemma {:induction false} BreakIsTotal(objs: seq<Obj>, size: nat, brk: nat)
    requires Tiled(objs, size, brk)
    ensures brk == size + TotalBlocks(objs) && TotalBlocks(objs) % 4 == 0
    decreases |objs|
  {
    hide BlockSize;
    if objs != [] {
      var last, front := objs[|objs| - 1], objs[..|objs| - 1];
      FrontTiled(objs, size, brk);
      BreakIsTotal(front, size, last.at);
    }
  }

  lemma FrontTiled(objs: seq<Obj>, size: nat, brk: nat)
    requires Tiled(objs, size, brk) && objs != []
    ensures Tiled(objs[..|objs| - 1], size, objs[|objs| - 1].at)
  {
  }

  /**
   The heap is walkable: from the end of the module data, stepping by rounded object
   sizes visits exactly the created objects in order and stops at the break.
   */
  lemma HeapIsWalkable(s: Store, init: seq<byte>, h: Heap)
    requires Agrees(s, init, h)
    ensures Walk(h.mem, s.size, h.brk) == (Offsets(s.objs), h.brk)
    ensures h.brk == s.size + TotalBlocks(s.objs) && h.brk % 4 == s.size % 4
    ensures forall j, k :: 0 <= j < k < |s.objs| ==> s.objs[j].at + BlockSize(s.objs[j].body) <= s.objs[k].at
  {
    hide Agrees, Tiled, Images, Walk, Offsets, BlockSize, TotalBlocks, RoundUp4;
    AgreesTiled(s, init, h);
    BreakIsTotal(s.objs, s.size, s.brk);
    BlocksDisjoint(s.objs, s.size, s.brk);
    WalkFrom(s, h.mem, 0);
    assert s.objs[0..] == s.objs;
  }

  lemma AgreesTiled(s: Store, init: seq<byte>, h: Heap)
    requires Agrees(s, init, h)
    ensures Tiled(s.objs, s.size, s.brk) && Images(h.mem, s.objs) && StartOf(s, 0) == s.size
    ensures h.brk == s.brk <= |h.mem| < TWO_TO_THE_32
  {
    hide Images, CellsValid, CellsAgree, StackAgrees, LastRoot, BlockSize;
  }

  lemma BlocksDisjoint(objs: seq<Obj>, size: nat, brk: nat)
    requires Tiled(objs, size, brk)
    ensures forall j, k :: 0 <= j < k < |objs| ==> objs[j].at + BlockSize(objs[j].body) <= objs[k].at
  {
    hide BlockSize;
  }

  /** What an item takes from the heap. */
  function Taken(sizes: seq<int>, p: Payload): (n: nat)
    ensures n % 4 == 0
  {
    match p
    case Text(t) => BlockSize(TextBody(t))
    case Array(typ, len) =>
      if 0 <= typ < |sizes| && sizes[typ] * len >= 0 then RoundUp4(HEADER + DESCRIPTOR + sizes[typ] * len) else 0
    case _ => 0
  }

  function TakenBy(sizes: seq<int>, items: seq<Item>): (n: nat)
    ensures n % 4 == 0
  {
    if items == [] then 0 else Taken(sizes, items[0].payload) + TakenBy(sizes, items[1..])
  }

  lemma TakenByOne(h: Heap, sizes: seq<int>, it: Item)
    requires Load(h, sizes, it).Ok?
    ensures Load(h, sizes, it).value.brk == h.brk + Taken(sizes, it.payload)
    ensures |Load(h, sizes, it).value.mem| == |h.mem|
  {
    hide Dest, Image, Cells;
  }

  lemma {:induction false} BreakMoves(h: Heap, sizes: seq<int>, items: seq<Item>)
    requires LoadAll(h, sizes, items).Ok?
    ensures LoadAll(h, sizes, items).value.brk == h.brk + TakenBy(sizes, items)
    ensures |LoadAll(h, sizes, items).value.mem| == |h.mem|
    decreases |items|
  {
    if items != [] {
      hide Load, Taken;
      TakenByOne(h, sizes, items[0]);
      BreakMoves(Load(h, sizes, items[0]).value, sizes, items[1..]);
    }
  }

  /**
   For every stream the loader gets through, well-formed or not: the break moves by the
   rounded sizes of the strings and arrays created, so its alignment never changes, and
   the region keeps its size.
   */
  lemma BreakOfStream(h: Heap, sizes: seq<int>, items: seq<Item>)
    requires LoadAll(h, sizes, items).Ok?
    ensures LoadAll(h, sizes, items).value.brk == h.brk + TakenBy(sizes, items)
    ensures LoadAll(h, sizes, items).value.brk % 4 == h.brk % 4
    ensures |LoadAll(h, sizes, items).value.mem| == |h.mem|
  {
    hide *;
    BreakMoves(h, sizes, items);
  }

  // Objects stay

  lemma ObjectsKept(s: Store, cap: nat, sizes: seq<int>, it: Item)
    requires Fits(s, cap, sizes, it)
    ensures s.objs <= Step(s, cap, sizes, it).objs && Step(s, cap, sizes, it).size == s.size
  {
  }

  lemma {:induction false} ObjectsStay(s: Store, cap: nat, sizes: seq<int>, items: seq<Item>)
    requires WellFormed(s, cap, sizes, items)
    ensures s.objs <= Run(s, cap, sizes, items).objs && Run(s, cap, sizes, items).size == s.size
    decreases |items|
  {
    if items != [] {
      hide Fits, Step;
      ObjectsKept(s, cap, sizes, items[0]);
      ObjectsStay(Step(s, cap, sizes, items[0]), cap, sizes, items[1..]);
    }
  }

  /** Header, descriptor and text of an object never change while a stream is loaded. */
  lemma ImagesStay(s: Store, init: seq<byte>, h: Heap, sizes: seq<int>, items: seq<Item>, k: nat)
    requires Agrees(s, init, h) && WellFormed(s, |init|, sizes, items) && k < |s.objs|
    ensures LoadAll(h, sizes, items).Ok?
    ensures var m, i := LoadAll(h, sizes, items).value.mem, s.objs[k].at;
            var n := |Image(ORG + i, s.objs[k].body)|;
            i + n <= |m| == |h.mem| && m[i..i + n] == h.mem[i..i + n]
  {
    hide Run, WellFormed, LoadAll, Image, Tiled, CellsAgree, CellsValid, StackAgrees, LastRoot;
    ObjectsStay(s, |init|, sizes, items);
    RunAgrees(s, init, h, sizes, items);
    var s' := Run(s, |init|, sizes, items);
    assert s'.objs[k] == s.objs[k];
    assert HasImage(h.mem, s.objs[k]) && HasImage(LoadAll(h, sizes, items).value.mem, s'.objs[k]);
  }

  // Strings

  datatype StringDesc = StringDesc(len: nat, max: nat, text: seq<byte>)

  /** The string whose descriptor a pointer refers to. */
  function StringAt(m: seq<byte>, p: nat): Result<StringDesc> {
    if p < ORG || p - ORG + DESCRIPTOR > |m| then Fail
    else
      var i := p - ORG;
      var len, max, data := ReadWord(m, i), ReadWord(m, i + 4), ReadWord(m, i + 12);
      if data < ORG || data - ORG + len > |m| then Fail
      else Ok(StringDesc(len, max, m[data - ORG..data - ORG + len]))
  }

  lemma TextAt(m: seq<byte>, o: Obj)
    requires HasImage(m, o) && o.body.TextBody?
    ensures o.at + HEADER + DESCRIPTOR + |o.body.text| <= |m|
    ensures m[o.at + HEADER + DESCRIPTOR..o.at + HEADER + DESCRIPTOR + |o.body.text|] == o.body.text
  {
    hide Words, Has;
    var ws := Words(Prologue(ORG + o.at, o.body));
    HasConcat(m, o.at, ws, o.body.text);
    assert Has(m, o.at + |ws|, o.body.text);
    HasSlice(m, o.at + |ws|, o.body.text);
  }

  lemma HasSlice(m: seq<byte>, i: nat, e: seq<byte>)
    requires Has(m, i, e)
    ensures i + |e| <= |m| && m[i..i + |e|] == e
  {
  }

  /** A created string reads back through its pointer, whatever was loaded since. */
  lemma StringReadsBack(s: Store, init: seq<byte>, h: Heap, k: nat)
    requires Agrees(s, init, h) && k < |s.objs| && s.objs[k].body.TextBody?
    ensures var t := s.objs[k].body.text; StringAt(h.mem, DataAddress(s, k)) == Ok(StringDesc(|t|, |t|, t))
  {
    hide CellsValid, CellsAgree, StackAgrees, LastRoot, HasImage, ReadWord;
    var o, m := s.objs[k], h.mem;
    assert HasImage(m, o) && NextBlock(o) <= s.brk;
    assert |o.body.text| < NextBlock(o);
    hide Tiled, Images, BlockSize;
    TextAt(m, o);
    PrologueAt(m, o, 6);
    PrologueAt(m, o, 7);
    PrologueAt(m, o, 9);
  }

  // Arrays

  datatype ArrayDesc = ArrayDesc(len: nat, typ: nat, root: nat, data: nat)

  function ArrayAt(m: seq<byte>, p: nat): Result<ArrayDesc> {
    if p < ORG || p - ORG + DESCRIPTOR > |m| then Fail
    else
      var i := p - ORG;
      Ok(ArrayDesc(ReadWord(m, i), ReadWord(m, i + 4), ReadWord(m, i + 8), ReadWord(m, i + 12)))
  }

  /** Array fields are 32-bit words, and each root is the array created before. */
  ghost predicate Rooted(objs: seq<Obj>) {
    forall k :: 0 <= k < |objs| && objs[k].body.ArrayBody? ==>
      objs[k].body.len < TWO_TO_THE_32 && objs[k].body.typ < TWO_TO_THE_32 && objs[k].body.root == LastRoot(objs[..k])
  }

  lemma NothingRooted(size: nat)
    ensures Rooted(Empty(size).objs) && forall sizes :: Sized(Empty(size).objs, sizes)
  {
  }

  lemma RootedAppend(objs: seq<Obj>, o: Obj)
    requires Rooted(objs)
    requires o.body.ArrayBody? ==>
               o.body.len < TWO_TO_THE_32 && o.body.typ < TWO_TO_THE_32 && o.body.root == LastRoot(objs)
    ensures Rooted(objs + [o])
  {
    forall k | 0 <= k < |objs + [o]|
      ensures (objs + [o])[..k] == objs[..k]
    {
    }
    assert objs[..|objs|] == objs;
  }

  lemma StepRooted(s: Store, cap: nat, sizes: seq<int>, it: Item)
    requires Fits(s, cap, sizes, it) && Rooted(s.objs)
    ensures Rooted(Step(s, cap, sizes, it).objs)
  {
    if it.payload.Text? || it.payload.Array? {
      Widths();
      RootedAppend(s.objs, Obj(s.brk, BodyOf(s, sizes, it.payload)));
    }
  }

  lemma {:induction false} RunRooted(s: Store, cap: nat, sizes: seq<int>, items: seq<Item>)
    requires WellFormed(s, cap, sizes, items) && Rooted(s.objs)
    ensures Rooted(Run(s, cap, sizes, items).objs)
    decreases |items|
  {
    if items != [] {
      hide Fits, Step, Rooted;
      StepRooted(s, cap, sizes, items[0]);
      RunRooted(Step(s, cap, sizes, items[0]), cap, sizes, items[1..]);
    }
  }

  lemma {:induction false} RootBelow(objs: seq<Obj>, size: nat, brk: nat)
    requires Tiled(objs, size, brk)
    ensures LastRoot(objs) == 0 || ORG <= LastRoot(objs) < ORG + brk
  {
  }

  /** The descriptor of a created array reads back through its pointer. */
  lemma ArrayReadsBack(s: Store, init: seq<byte>, h: Heap, k: nat)
    requires Agrees(s, init, h) && Rooted(s.objs) && k < |s.objs| && s.objs[k].body.ArrayBody?
    ensures var o := s.objs[k].body;
            ArrayAt(h.mem, DataAddress(s, k)) == Ok(ArrayDesc(o.len, o.typ, o.root, ORG + PlaceStart(s, InArray(k))))
    ensures s.objs[k].body.root == LastRoot(s.objs[..k])
    ensures DataAddress(s, k) - ORG + DESCRIPTOR <= |h.mem|
  {
    hide CellsValid, CellsAgree, StackAgrees, LastRoot, HasImage, ReadWord;
    var o, m := s.objs[k], h.mem;
    assert HasImage(m, o) && NextBlock(o) <= s.brk;
    assert o.body.root == LastRoot(s.objs[..k]);
    PrefixTiled(s.objs, s.size, s.brk, k);
    RootBelow(s.objs[..k], s.size, o.at);
    hide Tiled, Images, RoundUp4, Rooted;
    PrologueAt(m, o, 6);
    PrologueAt(m, o, 7);
    PrologueAt(m, o, 8);
    PrologueAt(m, o, 9);
  }

  lemma PrefixTiled(objs: seq<Obj>, size: nat, brk: nat, k: nat)
    requires Tiled(objs, size, brk) && k < |objs|
    ensures Tiled(objs[..k], size, objs[k].at)
  {
    hide NextBlock;
    var front := objs[..k];
    assert forall j :: 0 <= j < k ==> front[j] == objs[j];
    assert k > 0 ==> objs[k].at == NextBlock(objs[k - 1]);
  }

  // Whole objects

  /** Word `i` of the object at `at`. */
  predicate WordIs(m: seq<byte>, at: nat, i: nat, v: int) {
    at + 4 * i + 4 <= |m| && ReadWord(m, at + 4 * i) == v
  }

  /**
   The bytes of an object, word by word: two zeros around the size, tag, address of the
   descriptor; behind the padding the descriptor, which ends in the address of the payload.
   */
  ghost predicate InBytes(m: seq<byte>, o: Obj) {
    var at, p := o.at, 0x80000 + o.at;
    && WordIs(m, at, 0, 0) && WordIs(m, at, 2, 0) && WordIs(m, at, 4, p + 24) && WordIs(m, at, 9, p + 40)
    && match o.body
       case TextBody(t) =>
         && WordIs(m, at, 1, 16 + |t|) && WordIs(m, at, 3, 3)
         && WordIs(m, at, 6, |t|) && WordIs(m, at, 7, |t|) && WordIs(m, at, 8, 0)
         && at + 40 + |t| <= |m| && m[at + 40..at + 40 + |t|] == t
       case ArrayBody(typ, len, span, root) =>
         && WordIs(m, at, 1, 16 + span) && WordIs(m, at, 3, 4)
         && WordIs(m, at, 6, len) && WordIs(m, at, 7, typ) && WordIs(m, at, 8, root)
  }

  /** Header, descriptor and text of every object stand in the bytes, word by word. */
  lemma HeaderReadsBack(s: Store, init: seq<byte>, h: Heap, k: nat)
    requires Agrees(s, init, h) && Rooted(s.objs) && k < |s.objs|
    ensures InBytes(h.mem, s.objs[k])
  {
    hide *;
    var o := s.objs[k];
    if o.body.TextBody? {
      TextWords(s, init, h, k);
    } else {
      ArrayWords(s, init, h, k);
    }
  }

  lemma HeaderWords(s: Store, init: seq<byte>, h: Heap, k: nat)
    requires Agrees(s, init, h) && k < |s.objs|
    ensures HasImage(h.mem, s.objs[k]) && NextBlock(s.objs[k]) <= |h.mem| && ORG + |h.mem| < TWO_TO_THE_32
    ensures var m, at, p, o := h.mem, s.objs[k].at, 0x80000 + s.objs[k].at, s.objs[k].body;
            && WordIs(m, at, 0, 0) && WordIs(m, at, 1, 16 + if o.TextBody? then |o.text| else o.span)
            && WordIs(m, at, 2, 0) && WordIs(m, at, 3, if o.TextBody? then 3 else 4)
            && WordIs(m, at, 4, p + 24) && WordIs(m, at, 9, p + 40)
  {
    hide ReadWord, RoundUp4, HasImage, CellsValid, CellsAgree, StackAgrees, LastRoot;
    var o, m := s.objs[k], h.mem;
    assert HasImage(m, o) && NextBlock(o) <= s.brk;
    hide Agrees;
    PrologueAt(m, o, 0);
    PrologueAt(m, o, 1);
    PrologueAt(m, o, 2);
    PrologueAt(m, o, 3);
    PrologueAt(m, o, 4);
    PrologueAt(m, o, 9);
  }

  lemma TextWords(s: Store, init: seq<byte>, h: Heap, k: nat)
    requires Agrees(s, init, h) && k < |s.objs| && s.objs[k].body.TextBody?
    ensures InBytes(h.mem, s.objs[k])
  {
    hide Agrees, ReadWord, HasImage, RoundUp4;
    HeaderWords(s, init, h, k);
    var o, m := s.objs[k], h.mem;
    PrologueAt(m, o, 6);
    PrologueAt(m, o, 7);
    PrologueAt(m, o, 8);
    TextAt(m, o);
  }

  lemma ArrayWords(s: Store, init: seq<byte>, h: Heap, k: nat)
    requires Agrees(s, init, h) && Rooted(s.objs) && k < |s.objs| && s.objs[k].body.ArrayBody?
    ensures InBytes(h.mem, s.objs[k])
  {
    hide Agrees, ReadWord, HasImage, Rooted, RoundUp4;
    HeaderWords(s, init, h, k);
    ArrayReadsBack(s, init, h, k);
  }

  /** The next object starts, or the free heap does, at the first multiple of 4 behind the payload. */
  lemma BlockEnds(s: Store, init: seq<byte>, h: Heap, k: nat)
    requires Agrees(s, init, h) && k < |s.objs|
    ensures var o := s.objs[k].body;
            var end := s.objs[k].at + 40 + if o.TextBody? then |o.text| else o.span;
            end <= StartOf(s, k + 1) < end + 4 && (StartOf(s, k + 1) - s.objs[k].at) % 4 == 0
  {
    hide CellsValid, CellsAgree, StackAgrees, LastRoot, HasImage;
    BlockStarts(s, h.mem, k);
  }

  /** The payload of an array is its length times the element size of its type. */
  ghost predicate Sized(objs: seq<Obj>, sizes: seq<int>) {
    forall k :: 0 <= k < |objs| && objs[k].body.ArrayBody? ==>
      objs[k].body.typ < |sizes| && objs[k].body.span == sizes[objs[k].body.typ] * objs[k].body.len
  }

  lemma StepSized(s: Store, cap: nat, sizes: seq<int>, it: Item)
    requires Fits(s, cap, sizes, it) && Sized(s.objs, sizes)
    ensures Sized(Step(s, cap, sizes, it).objs, sizes)
  {
  }

  lemma {:induction false} RunSized(s: Store, cap: nat, sizes: seq<int>, items: seq<Item>)
    requires WellFormed(s, cap, sizes, items) && Sized(s.objs, sizes)
    ensures Sized(Run(s, cap, sizes, items).objs, sizes)
    decreases |items|
  {
    if items != [] {
      hide Fits, Step, Sized;
      StepSized(s, cap, sizes, items[0]);
      RunSized(Step(s, cap, sizes, items[0]), cap, sizes, items[1..]);
    }
  }

  // The chain of array roots

  /** The headers of the arrays, most recent first. */
  function ArrayHeaders(objs: seq<Obj>): seq<nat> {
    if objs == [] then []
    else
      var last, rest := objs[|objs| - 1], ArrayHeaders(objs[..|objs| - 1]);
      if last.body.ArrayBody? then [ORG + last.at] + rest else rest
  }

  /** Following `root` fields from header `a` visits `path` and then reaches 0. */
  ghost predicate RootChain(m: seq<byte>, a: nat, path: seq<nat>)
    decreases |path|
  {
    if path == [] then a == 0
    else
      && path[0] == a && a >= ORG
      && var d := ArrayAt(m, a + HEADER);
         d.Ok? && RootChain(m, d.value.root, path[1..])
  }

  ghost predicate Descending(path: seq<nat>) {
    forall i, j :: 0 <= i < j < |path| ==> path[i] > path[j]
  }

  lemma EmptyChain(m: seq<byte>)
    ensures RootChain(m, LastRoot([]), ArrayHeaders([])) && ArrayHeaders([]) == [] && Descending(ArrayHeaders([]))
  {
  }

  /** One more object: an array heads the chain of the arrays before it. */
  lemma ChainStep(m: seq<byte>, front: seq<Obj>, o: Obj)
    requires RootChain(m, LastRoot(front), ArrayHeaders(front)) && Descending(ArrayHeaders(front))
    requires forall a :: a in ArrayHeaders(front) ==> ORG <= a < ORG + o.at
    requires o.body.ArrayBody? ==>
               ArrayAt(m, ORG + o.at + HEADER).Ok? && ArrayAt(m, ORG + o.at + HEADER).value.root == LastRoot(front)
    ensures RootChain(m, LastRoot(front + [o]), ArrayHeaders(front + [o])) && Descending(ArrayHeaders(front + [o]))
    ensures forall a :: a in ArrayHeaders(front + [o]) ==> ORG <= a <= ORG + o.at
  {
    hide LastRoot, Descending, ArrayAt;
    assert (front + [o])[..|front|] == front;
    LastRootAppend(front, o);
    if o.body.ArrayBody? {
      var rest := ArrayHeaders(front);
      assert ArrayHeaders(front + [o]) == [ORG + o.at] + rest && ([ORG + o.at] + rest)[1..] == rest;
      DescendingCons(ORG + o.at, rest);
    }
  }

  lemma {:induction false} ChainFrom(s: Store, init: seq<byte>, h: Heap, n: nat)
    requires Agrees(s, init, h) && Rooted(s.objs) && n <= |s.objs|
    ensures RootChain(h.mem, LastRoot(s.objs[..n]), ArrayHeaders(s.objs[..n]))
    ensures Descending(ArrayHeaders(s.objs[..n]))
    ensures forall a :: a in ArrayHeaders(s.objs[..n]) ==> n > 0 && ORG <= a <= ORG + s.objs[n - 1].at
    decreases n
  {
    hide Agrees, ArrayAt, Rooted, LastRoot, Descending, RootChain, ArrayHeaders;
    if n == 0 {
      assert s.objs[..n] == [];
      EmptyChain(h.mem);
    } else {
      assert s.objs[..n] == s.objs[..n - 1] + [s.objs[n - 1]];
      ChainFrom(s, init, h, n - 1);
      BlocksAscend(s, init, h, n - 1);
      if s.objs[n - 1].body.ArrayBody? {
        ArrayReadsBack(s, init, h, n - 1);
      }
      ChainStep(h.mem, s.objs[..n - 1], s.objs[n - 1]);
    }
  }

  lemma DescendingCons(a: nat, rest: seq<nat>)
    requires Descending(rest) && forall x :: x in rest ==> x < a
    ensures Descending([a] + rest)
  {
    forall i, j | 0 <= i < j < |[a] + rest|
      ensures ([a] + rest)[i] > ([a] + rest)[j]
    {
      assert rest[j - 1] in rest;
    }
  }

  lemma BlocksAscend(s: Store, init: seq<byte>, h: Heap, k: nat)
    requires Agrees(s, init, h) && k < |s.objs|
    ensures k > 0 ==> s.objs[k - 1].at < s.objs[k].at
  {
    hide Images, CellsValid, CellsAgree, StackAgrees, LastRoot;
  }

  /**
   From the most recent array, the roots visit every array created so far, in reverse
   order of creation and at strictly decreasing addresses, and end at 0.
   */
  lemma RootsFormAChain(s: Store, init: seq<byte>, h: Heap)
    requires Agrees(s, init, h) && Rooted(s.objs)
    ensures RootChain(h.mem, h.last, ArrayHeaders(s.objs)) && Descending(ArrayHeaders(s.objs))
  {
    assert h.last == LastRoot(s.objs);
    hide Agrees, Rooted, RootChain, Descending, LastRoot;
    ChainFrom(s, init, h, |s.objs|);
    assert s.objs[..|s.objs|] == s.objs;
  }

  /** The headers visited are those of the arrays, each once. */
  lemma {:induction false} ArrayHeadersAreArrays(objs: seq<Obj>, a: nat)
    ensures a in ArrayHeaders(objs) <==> exists o :: o in objs && o.body.ArrayBody? && a == ORG + o.at
    decreases |objs|
  {
    if objs != [] {
      var front, last := objs[..|objs| - 1], objs[|objs| - 1];
      ArrayHeadersAreArrays(front, a);
      assert forall o :: o in objs <==> o in front || o == last;
    }
  }
}
