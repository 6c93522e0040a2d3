/**
 What a stream leaves behind: an item whose target no later item touches reads back from
 the bytes, scalars as their values and strings and arrays through their pointer.
 */
module Targets {
  import opened Bytes
  import opened ObjectFile
  import opened HeapModel
  import opened Store
  import opened Refinement
  import opened HeapLayout

  // Later items spare a target

  /** Bytes `from` to `from + n` of a place lie outside the target of `it`. */
  predicate MissedBy(s: Store, it: Item, p: Place, from: nat, n: nat) {
    HasTarget(it.payload) ==>
      s.cur.place != p || s.cur.start + it.offset + Width(it.payload) <= from || from + n <= s.cur.start + it.offset
  }

  predicate Spared(s: Store, cap: nat, sizes: seq<int>, items: seq<Item>, p: Place, from: nat, n: nat)
    requires WellFormed(s, cap, sizes, items)
    decreases |items|
  {
    items == [] ||
    (MissedBy(s, items[0], p, from, n) && Spared(Step(s, cap, sizes, items[0]), cap, sizes, items[1..], p, from, n))
  }

  lemma StepSpares(s: Store, cap: nat, sizes: seq<int>, it: Item, p: Place, from: nat, n: nat, l: Loc)
    requires Fits(s, cap, sizes, it) && MissedBy(s, it, p, from, n)
    requires l.place == p && from <= l.at < from + n && l in s.cells
    ensures l in Step(s, cap, sizes, it).cells && Step(s, cap, sizes, it).cells[l] == s.cells[l]
  {
    match it.payload
    case Scalars(kind, vals) => UpdateLookup(s, it.offset, Literals(Cells(kind, vals)), l);
    case Text(_) | Array(_, _) =>
      UpdateLookup(Create(s, BodyOf(s, sizes, it.payload)), it.offset, Pointer(|s.objs|), l);
    case _ =>
  }

  lemma {:induction false} RunSpares(
      s: Store, cap: nat, sizes: seq<int>, items: seq<Item>, p: Place, from: nat, n: nat, l: Loc)
    requires WellFormed(s, cap, sizes, items) && Spared(s, cap, sizes, items, p, from, n)
    requires l.place == p && from <= l.at < from + n && l in s.cells
    ensures l in Run(s, cap, sizes, items).cells && Run(s, cap, sizes, items).cells[l] == s.cells[l]
    decreases |items|
  {
    if items != [] {
      hide Fits, Step, MissedBy;
      StepSpares(s, cap, sizes, items[0], p, from, n, l);
      RunSpares(Step(s, cap, sizes, items[0]), cap, sizes, items[1..], p, from, n, l);
    }
  }

  /** The symbolic bytes `syms` stand in place `p` from `from` on. */
  ghost predicate Holds(s: Store, p: Place, from: nat, syms: seq<Sym>) {
    && from + |syms| <= Extent(s, p)
    && forall l: Loc :: l.place == p && from <= l.at < from + |syms| ==> l in s.cells && s.cells[l] == syms[l.at - from]
  }

  lemma UpdateHolds(s: Store, offset: nat, syms: seq<Sym>)
    requires s.cur.start + offset + |syms| <= Extent(s, s.cur.place)
    ensures Holds(Update(s, offset, syms), s.cur.place, s.cur.start + offset, syms)
  {
    forall l: Loc {
      UpdateLookup(s, offset, syms, l);
    }
  }

  lemma RunHolds(s: Store, cap: nat, sizes: seq<int>, items: seq<Item>, p: Place, from: nat, syms: seq<Sym>)
    requires WellFormed(s, cap, sizes, items) && Spared(s, cap, sizes, items, p, from, |syms|)
    requires Holds(s, p, from, syms) && Extent(s, p) > 0
    ensures Holds(Run(s, cap, sizes, items), p, from, syms)
    ensures s.objs <= Run(s, cap, sizes, items).objs
    ensures PlaceStart(Run(s, cap, sizes, items), p) == PlaceStart(s, p)
  {
    hide Run, WellFormed, Spared;
    ObjectsStay(s, cap, sizes, items);
    var s' := Run(s, cap, sizes, items);
    forall l: Loc | l.place == p && from <= l.at < from + |syms|
      ensures l in s'.cells && s'.cells[l] == syms[l.at - from]
    {
      RunSpares(s, cap, sizes, items, p, from, |syms|, l);
    }
  }

  /** The region bytes of what a place holds. */
  lemma HoldsBytes(s: Store, init: seq<byte>, h: Heap, p: Place, from: nat, syms: seq<Sym>, bs: seq<byte>)
    requires Agrees(s, init, h) && Holds(s, p, from, syms) && 0 < |syms| == |bs|
    requires forall i :: 0 <= i < |syms| ==> ValidSym(s, syms[i]) ==> Concrete(s, syms[i]) == bs[i]
    ensures Has(h.mem, PlaceStart(s, p) + from, bs)
  {
    hide Tiled, Images, LastRoot, StackAgrees, Concrete, Extent, PlaceStart;
    var i0 := PlaceStart(s, p) + from;
    forall i | 0 <= i < |bs|
      ensures i0 + i < |h.mem| && h.mem[i0 + i] == bs[i]
    {
      var l := Loc(p, from + i);
      assert l in s.cells && s.cells[l] == syms[i] && Valid(s, l) && Index(s, l) == i0 + i;
    }
    var last := Loc(p, from + |bs| - 1);
    assert last in s.cells && Valid(s, last) && Index(s, last) == i0 + |bs| - 1;
    HasAll(h.mem, i0, bs);
  }

  // Reading a loaded item

  /** Scalar `j` of the cells at index `i`. */
  function CellAt(m: seq<byte>, i: nat, kind: Kind, j: nat): int
    requires i + (j + 1) * kind.Width() <= |m|
  {
    kind.Value(FromLE(m[i + j * kind.Width()..i + (j + 1) * kind.Width()]))
  }

  lemma {:induction false} CellsHold(kind: Kind, vals: seq<int>, j: nat)
    requires j < |vals|
    ensures Has(Cells(kind, vals), j * kind.Width(), LE(vals[j], kind.Width()))
    decreases j
  {
    hide LE, Has;
    var w := kind.Width();
    assert Cells(kind, vals) == LE(vals[0], w) + Cells(kind, vals[1..]);
    hide Cells;
    var e, rest := LE(vals[0], w), Cells(kind, vals[1..]);
    if j == 0 {
      HasAll(e + rest, 0, e);
    } else {
      assert vals[1..][j - 1] == vals[j];
      CellsHold(kind, vals[1..], j - 1);
      HasBehind(e, rest, (j - 1) * w, LE(vals[j], w));
      assert w + (j - 1) * w == j * w;
    }
  }

  lemma HasBehind(e: seq<byte>, rest: seq<byte>, k: nat, v: seq<byte>)
    requires Has(rest, k, v)
    ensures Has(e + rest, |e| + k, v)
  {
  }

  lemma HasWithin(m: seq<byte>, i: nat, e: seq<byte>, k: nat, v: seq<byte>)
    requires Has(m, i, e) && Has(e, k, v)
    ensures Has(m, i + k, v)
  {
    forall j | 0 <= j < |v|
      ensures m[i + k + j] == v[j]
    {
      assert m[i..i + |e|][k + j] == e[k..k + |v|][j];
    }
    HasAll(m, i + k, v);
  }

  lemma HasAll(m: seq<byte>, i: nat, v: seq<byte>)
    requires i + |v| <= |m| && forall j :: 0 <= j < |v| ==> m[i + j] == v[j]
    ensures Has(m, i, v)
  {
  }

  lemma ValueOfLE(kind: Kind, v: int)
    requires kind.InRange(v)
    ensures kind.Value(FromLE(LE(v, kind.Width()))) == v
  {
    Widths();
    FromLEOfLE(v, kind.Width());
  }

  lemma CellReadsBack(m: seq<byte>, i: nat, kind: Kind, vals: seq<int>, j: nat)
    requires Has(m, i, Cells(kind, vals)) && j < |vals| && kind.InRange(vals[j])
    ensures i + (j + 1) * kind.Width() <= |m| && CellAt(m, i, kind, j) == vals[j]
  {
    hide Cells, Has, LE;
    var w := kind.Width();
    CellsHold(kind, vals, j);
    HasWithin(m, i, Cells(kind, vals), j * w, LE(vals[j], w));
    assert j * w + w == (j + 1) * w;
    HasSlice(m, i + j * w, LE(vals[j], w));
    ValueOfLE(kind, vals[j]);
  }

  lemma RunCons(s: Store, cap: nat, sizes: seq<int>, it: Item, later: seq<Item>)
    requires WellFormed(s, cap, sizes, [it] + later)
    ensures Fits(s, cap, sizes, it) && WellFormed(Step(s, cap, sizes, it), cap, sizes, later)
    ensures Run(s, cap, sizes, [it] + later) == Run(Step(s, cap, sizes, it), cap, sizes, later)
  {
  }

  /** What an item writes at its target, as symbolic bytes. */
  function Written(s: Store, p: Payload): seq<Sym>
    requires HasTarget(p)
  {
    match p
    case Scalars(kind, vals) => Literals(Cells(kind, vals))
    case _ => Pointer(|s.objs|)
  }

  /** The target of `it` is not touched again by the items after it. */
  predicate TargetSpared(s: Store, cap: nat, sizes: seq<int>, it: Item, later: seq<Item>)
    requires WellFormed(s, cap, sizes, [it] + later) && HasTarget(it.payload)
  {
    RunCons(s, cap, sizes, it, later);
    Spared(Step(s, cap, sizes, it), cap, sizes, later, s.cur.place, s.cur.start + it.offset, Width(it.payload))
  }

  lemma StepHolds(s: Store, cap: nat, sizes: seq<int>, it: Item)
    requires Fits(s, cap, sizes, it) && HasTarget(it.payload)
    ensures var s', p := Step(s, cap, sizes, it), s.cur.place;
            && Holds(s', p, s.cur.start + it.offset, Written(s, it.payload))
            && |Written(s, it.payload)| == Width(it.payload)
            && PlaceStart(s', p) == PlaceStart(s, p) && Extent(s', p) == Extent(s, p) > 0
            && s.objs <= s'.objs && (!it.payload.Scalars? ==> |s'.objs| == |s.objs| + 1)
  {
    hide Update, BlockSize;
    match it.payload
    case Scalars(kind, vals) =>
      UpdateKeeps(s, it.offset, Literals(Cells(kind, vals)));
      UpdateHolds(s, it.offset, Literals(Cells(kind, vals)));
    case Text(_) | Array(_, _) =>
      var s1 := Create(s, BodyOf(s, sizes, it.payload));
      UpdateKeeps(s1, it.offset, Pointer(|s.objs|));
      UpdateHolds(s1, it.offset, Pointer(|s.objs|));
  }

  lemma UpdateKeeps(s: Store, offset: nat, syms: seq<Sym>)
    ensures var s' := Update(s, offset, syms); s' == s.(cells := s'.cells)
  {
  }

  lemma FitsTarget(s: Store, cap: nat, sizes: seq<int>, it: Item)
    requires Fits(s, cap, sizes, it) && HasTarget(it.payload)
    ensures it.offset >= 0
    ensures it.payload.Array? ==> it.payload.len >= 0 && it.payload.typ >= 0
  {
  }

  /** After the rest of the stream, the target of an item that was spared holds what it wrote. */
  lemma StreamHolds(s: Store, init: seq<byte>, h: Heap, sizes: seq<int>, it: Item, later: seq<Item>)
    requires Agrees(s, init, h) && WellFormed(s, |init|, sizes, [it] + later) && HasTarget(it.payload)
    requires TargetSpared(s, |init|, sizes, it, later)
    ensures LoadAll(h, sizes, [it] + later).Ok?
    ensures var s', p := Run(s, |init|, sizes, [it] + later), s.cur.place;
            && Agrees(s', init, LoadAll(h, sizes, [it] + later).value)
            && Holds(s', p, s.cur.start + it.offset, Written(s, it.payload))
            && PlaceStart(s', p) == PlaceStart(s, p)
            && Step(s, |init|, sizes, it).objs <= s'.objs
  {
    hide Agrees, Fits, Step, LoadAll, WellFormed, Run, Spared, Holds, PlaceStart, Extent, Written, TargetFits;
    RunCons(s, |init|, sizes, it, later);
    FitsTarget(s, |init|, sizes, it);
    StepHolds(s, |init|, sizes, it);
    RunAgrees(s, init, h, sizes, [it] + later);
    var s1, from := Step(s, |init|, sizes, it), s.cur.start + it.offset;
    RunHolds(s1, |init|, sizes, later, s.cur.place, from, Written(s, it.payload));
  }

  /**
   Scalars read back: at the end of the stream the bytes at the target of a scalar item
   decode to exactly its values, unless a later item has written over them.
   */
  lemma ScalarsReadBack(s: Store, init: seq<byte>, h: Heap, sizes: seq<int>, it: Item, later: seq<Item>, j: nat)
    requires Agrees(s, init, h) && WellFormed(s, |init|, sizes, [it] + later) && it.payload.Scalars?
    requires TargetSpared(s, |init|, sizes, it, later)
    requires j < |it.payload.vals| && it.payload.kind.InRange(it.payload.vals[j])
    ensures LoadAll(h, sizes, [it] + later).Ok?
    ensures it.offset >= 0
    ensures var m, i := LoadAll(h, sizes, [it] + later).value.mem, TargetIndex(s, it.offset);
            && i + (j + 1) * it.payload.kind.Width() <= |m|
            && CellAt(m, i, it.payload.kind, j) == it.payload.vals[j]
  {
    hide Agrees, Step, Fits, LoadAll, WellFormed, Run, Holds, TargetSpared, Cells, Has, Concrete;
    RunCons(s, |init|, sizes, it, later);
    FitsTarget(s, |init|, sizes, it);
    StreamHolds(s, init, h, sizes, it, later);
    var kind, vals := it.payload.kind, it.payload.vals;
    var h', s' := LoadAll(h, sizes, [it] + later).value, Run(s, |init|, sizes, [it] + later);
    LiteralBytes(s', Cells(kind, vals));
    HoldsBytes(s', init, h', s.cur.place, s.cur.start + it.offset, Literals(Cells(kind, vals)), Cells(kind, vals));
    CellReadsBack(h'.mem, TargetIndex(s, it.offset), kind, vals, j);
  }

  lemma LiteralBytes(s: Store, bs: seq<byte>)
    ensures forall i :: 0 <= i < |bs| ==> ValidSym(s, Literals(bs)[i]) && Concrete(s, Literals(bs)[i]) == bs[i]
  {
  }

  lemma PointerBytes(s: Store, k: nat)
    requires k < |s.objs|
    ensures var p := Pointer(k);
            forall i :: 0 <= i < 4 ==> ValidSym(s, p[i]) && Concrete(s, p[i]) == LE(DataAddress(s, k), 4)[i]
  {
  }

  lemma DataAddressSmall(s: Store, init: seq<byte>, h: Heap, k: nat)
    requires Agrees(s, init, h) && k < |s.objs|
    ensures DataAddress(s, k) < TWO_TO_THE_32
  {
  }

  /** A place that holds a pointer to object `k`: the word there is its data address. */
  lemma PointerReads(s: Store, init: seq<byte>, h: Heap, p: Place, from: nat, k: nat)
    requires Agrees(s, init, h) && k < |s.objs| && Holds(s, p, from, Pointer(k))
    ensures PlaceStart(s, p) + from + 4 <= |h.mem|
    ensures ReadWord(h.mem, PlaceStart(s, p) + from) == DataAddress(s, k)
  {
    hide Agrees, Holds, Has, DataAddress, ReadWord, Concrete;
    PointerBytes(s, k);
    HoldsBytes(s, init, h, p, from, Pointer(k), LE(DataAddress(s, k), 4));
    DataAddressSmall(s, init, h, k);
    WordAtLE(h.mem, PlaceStart(s, p) + from, DataAddress(s, k));
  }

  /**
   Strings read back: at the end of the stream, following the pointer at the target of a
   string item leads to a descriptor of its length and to exactly its bytes.
   */
  lemma TextReadsBack(s: Store, init: seq<byte>, h: Heap, sizes: seq<int>, it: Item, later: seq<Item>)
    requires Agrees(s, init, h) && WellFormed(s, |init|, sizes, [it] + later) && it.payload.Text?
    requires TargetSpared(s, |init|, sizes, it, later)
    ensures LoadAll(h, sizes, [it] + later).Ok?
    ensures it.offset >= 0
    ensures var m, i, t := LoadAll(h, sizes, [it] + later).value.mem, TargetIndex(s, it.offset), it.payload.text;
            i + 4 <= |m| && StringAt(m, ReadWord(m, i)) == Ok(StringDesc(|t|, |t|, t))
  {
    hide Agrees, Step, Fits, LoadAll, WellFormed, Run, Holds, TargetSpared, StringAt, Pointer, PlaceStart, ReadWord;
    RunCons(s, |init|, sizes, it, later);
    FitsTarget(s, |init|, sizes, it);
    NewObject(s, |init|, sizes, it);
    StreamHolds(s, init, h, sizes, it, later);
    var h', s', k := LoadAll(h, sizes, [it] + later).value, Run(s, |init|, sizes, [it] + later), |s.objs|;
    assert s'.objs[k] == Step(s, |init|, sizes, it).objs[k];
    PointerReads(s', init, h', s.cur.place, s.cur.start + it.offset, k);
    StringReadsBack(s', init, h', k);
  }

  lemma NewObject(s: Store, cap: nat, sizes: seq<int>, it: Item)
    requires Fits(s, cap, sizes, it) && (it.payload.Text? || it.payload.Array?)
    ensures Step(s, cap, sizes, it).objs == s.objs + [Obj(s.brk, BodyOf(s, sizes, it.payload))]
  {
  }

  /**
   Arrays read back: the pointer at the target of an array item leads to its length, its
   type, the array created before it, and the payload right behind the descriptor.
   */
  lemma ArrayReadsBackAtTarget(s: Store, init: seq<byte>, h: Heap, sizes: seq<int>, it: Item, later: seq<Item>)
    requires Agrees(s, init, h) && WellFormed(s, |init|, sizes, [it] + later) && it.payload.Array?
    requires TargetSpared(s, |init|, sizes, it, later) && Rooted(s.objs)
    ensures LoadAll(h, sizes, [it] + later).Ok?
    ensures it.offset >= 0 && it.payload.len >= 0 && it.payload.typ >= 0
    ensures var m, i := LoadAll(h, sizes, [it] + later).value.mem, TargetIndex(s, it.offset);
            && i + 4 <= |m|
            && var p := ReadWord(m, i);
               ArrayAt(m, p) == Ok(ArrayDesc(it.payload.len, it.payload.typ, LastRoot(s.objs), p + DESCRIPTOR))
  {
    hide Agrees, Step, LoadAll, WellFormed, Run, Holds, TargetSpared, ArrayAt, Pointer, Rooted, LastRoot, ReadWord;
    RunCons(s, |init|, sizes, it, later);
    FitsTarget(s, |init|, sizes, it);
    NewObject(s, |init|, sizes, it);
    hide Fits;
    StreamHolds(s, init, h, sizes, it, later);
    var h', s', k := LoadAll(h, sizes, [it] + later).value, Run(s, |init|, sizes, [it] + later), |s.objs|;
    assert s'.objs[k] == Step(s, |init|, sizes, it).objs[k];
    RunRooted(s, |init|, sizes, [it] + later);
    PointerReads(s', init, h', s.cur.place, s.cur.start + it.offset, k);
    ArrayReadsBack(s', init, h', k);
  }
}
