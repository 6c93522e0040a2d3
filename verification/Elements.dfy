/**
 Where a set-index item sends the writes after it, against where it should: the loader
 adds the index without the element size, and uses the array created last instead of the
 one whose pointer stands at the item's target.
 */
module Elements {
  import opened Bytes
  import opened ObjectFile
  import opened HeapModel
  import opened Store
  import opened Refinement
  import opened HeapLayout
  import opened Targets

  /** Offset `offset` from element `index` of elements of `size` bytes. */
  function ElementAddress(data: nat, index: nat, size: int, offset: nat): int {
    data + index * size + offset
  }

  lemma SetIndexBase(s: Store, init: seq<byte>, h: Heap, index: nat)
    requires Agrees(s, init, h) && Rooted(s.objs) && LastArray(s.objs) >= 0
    ensures LoadSetIndex(h, index).Ok? && ArrayAt(h.mem, DataAddress(s, LastArray(s.objs))).Ok?
    ensures LoadSetIndex(h, index).value.base ==
            AtElement(ArrayAt(h.mem, DataAddress(s, LastArray(s.objs))).value.data, index)
    ensures ArrayAt(h.mem, DataAddress(s, LastArray(s.objs))).value.data ==
            ORG + PlaceStart(s, InArray(LastArray(s.objs)))
  {
    hide Rooted, ArrayAt, LastArray, LoadSetIndex;
    SetIndexAgrees(s, init, h, index);
    ArrayReadsBack(s, init, h, LastArray(s.objs));
    hide Tiled, Images, CellsValid, CellsAgree;
  }

  /** A set-index is accepted exactly when its index is not negative and an array has been created. */
  lemma SetIndexExactly(s: Store, init: seq<byte>, h: Heap, index: int)
    requires Agrees(s, init, h) && Rooted(s.objs)
    ensures LoadSetIndex(h, index).Ok? <==> index >= 0 && LastArray(s.objs) >= 0
  {
    if index >= 0 && LastArray(s.objs) >= 0 {
      SetIndexBase(s, init, h, index);
    } else {
      NoArrayYet(s, init, h);
    }
  }

  lemma NoArrayYet(s: Store, init: seq<byte>, h: Heap)
    requires Agrees(s, init, h)
    ensures LastArray(s.objs) < 0 ==> h.last == 0
  {
    hide Tiled, Images, CellsValid, CellsAgree, StackAgrees;
  }

  /**
   After set-index `index`, offset `offset` denotes the byte `index + offset` of the last
   array's payload. That is the addressed element exactly for index 0 or one-byte elements.
   */
  lemma ElementTarget(s: Store, init: seq<byte>, h: Heap, index: nat, offset: nat, size: int)
    requires Agrees(s, init, h) && Rooted(s.objs) && LastArray(s.objs) >= 0
    requires index + offset < s.objs[LastArray(s.objs)].body.span
    ensures LoadSetIndex(h, index).Ok? && ArrayAt(h.mem, DataAddress(s, LastArray(s.objs))).Ok?
    ensures var data := ArrayAt(h.mem, DataAddress(s, LastArray(s.objs))).value.data;
            var dest := Dest(LoadSetIndex(h, index).value, offset);
            && dest == Ok(data + index + offset)
            && (dest == Ok(ElementAddress(data, index, size, offset)) <==> index == 0 || size == 1)
  {
    hide Agrees, Rooted, ArrayAt, LoadSetIndex, DataAddress, Dest;
    SetIndexBase(s, init, h, index);
    SetIndexAgrees(s, init, h, index);
    var k := LastArray(s.objs);
    var s1 := s.(cur := Cursor(InArray(k), index), stack := s.stack + [s.cur]);
    DestAgrees(s1, init, LoadSetIndex(h, index).value, offset);
    if index * size == index {
      assert index * (size - 1) == 0;
    }
  }

  /**
   A write of scalars into the current array that ends inside its payload changes those
   bytes of the payload and no other byte of the region.
   */
  lemma ElementWriteStays(s: Store, init: seq<byte>, h: Heap, offset: nat, kind: Kind, vals: seq<int>)
    requires Agrees(s, init, h) && s.cur.place.InArray?
    requires s.cur.start + offset + Max(1, |vals| * kind.Width()) <= Extent(s, s.cur.place)
    ensures WriteScalars(h, offset, kind, vals).Ok?
    ensures var m, i, n := WriteScalars(h, offset, kind, vals).value.mem, TargetIndex(s, offset), |vals| * kind.Width();
            && PlaceStart(s, s.cur.place) <= i
            && i + n <= PlaceStart(s, s.cur.place) + Extent(s, s.cur.place) <= h.brk
            && |m| == |h.mem| && m[i..i + n] == Cells(kind, vals)
            && forall x :: 0 <= x < |m| && !(i <= x < i + n) ==> m[x] == h.mem[x]
  {
    hide Images, CellsValid, CellsAgree, StackAgrees, LastRoot, Cells, Dest;
    DestAgrees(s, init, h, offset);
    PlaceBelow(s, s.cur.place);
    hide Tiled;
    var bs, i := Cells(kind, vals), TargetIndex(s, offset);
    if bs != [] {
      assert Splice(h.mem, i, bs)[i..i + |bs|] == bs;
    }
  }

  /** The array a set-index item points at is used exactly when it is the one created last. */
  lemma SetIndexPicksTheLast(s: Store, init: seq<byte>, h: Heap, offset: nat, index: nat, k: nat)
    requires Agrees(s, init, h) && Rooted(s.objs)
    requires k < |s.objs| && s.objs[k].body.ArrayBody?
    requires Holds(s, s.cur.place, s.cur.start + offset, Pointer(k))
    ensures LoadSetIndex(h, index).Ok? && LoadSetIndex(h, index).value.base.AtElement?
    ensures TargetIndex(s, offset) + 4 <= |h.mem|
    ensures var d := ArrayAt(h.mem, ReadWord(h.mem, TargetIndex(s, offset)));
            d.Ok? && (LoadSetIndex(h, index).value.base.ptr == d.value.data <==> k == LastArray(s.objs))
  {
    hide Agrees, Rooted, ArrayAt, LoadSetIndex, ReadWord, Holds, DataAddress, Pointer, LastArray, PlaceStart;
    ArraysDiffer(s, init, h, k);
    SetIndexBase(s, init, h, index);
    PointerReads(s, init, h, s.cur.place, s.cur.start + offset, k);
    ArrayReadsBack(s, init, h, k);
  }

  lemma ArraysDiffer(s: Store, init: seq<byte>, h: Heap, k: nat)
    requires Agrees(s, init, h) && k < |s.objs| && s.objs[k].body.ArrayBody?
    ensures LastArray(s.objs) >= k
    ensures k < LastArray(s.objs) ==> PlaceStart(s, InArray(k)) < PlaceStart(s, InArray(LastArray(s.objs)))
  {
  }

  // An array of arrays

  function ItemOf(offset: int, p: Payload): Item {
    Item(1, false, offset, p)
  }

  /** An array of two pointers at 0, and an array of four bytes for each of its elements. */
  function Nested(): seq<Item> {
    [ItemOf(0, Array(0, 2))] + ([ItemOf(0, SetIndex(0))] + ([ItemOf(0, Array(1, 4))] + ([ItemOf(4, Array(1, 4))] + [])))
  }

  const SIZES: seq<int> := [4, 1]

  lemma OneStep(s: Store, cap: nat, it: Item, rest: seq<Item>)
    requires Fits(s, cap, SIZES, it) && WellFormed(Step(s, cap, SIZES, it), cap, SIZES, rest)
    ensures WellFormed(s, cap, SIZES, [it] + rest)
    ensures Run(s, cap, SIZES, [it] + rest) == Run(Step(s, cap, SIZES, it), cap, SIZES, rest)
  {
  }

  /** An inner array of four bytes, whose pointer goes to offset `at` of the outer one. */
  lemma InnerStep(s: Store, cap: nat, at: nat)
    requires s.cur == Cursor(InArray(0), 0) && s.objs != [] && s.objs[0].body.ArrayBody? && s.objs[0].body.span == 8
    requires at <= 4 && s.brk + 44 <= cap
    ensures Fits(s, cap, SIZES, ItemOf(at, Array(1, 4)))
    ensures var s' := Step(s, cap, SIZES, ItemOf(at, Array(1, 4)));
            && s'.cur == s.cur && s'.brk == s.brk + 44
            && s'.objs == s.objs + [Obj(s.brk, ArrayBody(1, 4, 4, LastRoot(s.objs)))]
            && Holds(s', InArray(0), at, Pointer(|s.objs|)) && LastArray(s'.objs) == |s.objs|
  {
    hide Update, LastRoot;
    Widths();
    var o := ArrayBody(1, 4, 4, LastRoot(s.objs));
    UpdateKeeps(Create(s, o), at, Pointer(|s.objs|));
    UpdateHolds(Create(s, o), at, Pointer(|s.objs|));
  }

  lemma OuterStep(cap: nat)
    requires cap >= 56
    ensures Fits(Empty(8), cap, SIZES, ItemOf(0, Array(0, 2)))
    ensures var s := Step(Empty(8), cap, SIZES, ItemOf(0, Array(0, 2)));
            && s.objs == [Obj(8, ArrayBody(0, 2, 8, 0))] && s.brk == 56 && s.cur == Cursor(InModule, 0)
            && LastArray(s.objs) == 0
  {
    hide Update;
    Widths();
    UpdateKeeps(Create(Empty(8), ArrayBody(0, 2, 8, 0)), 0, Pointer(0));
  }

  /**
   Arrays of arrays go wrong: the stream is well-formed and element 0 of the outer array
   holds the first inner array (object 1), but a set-index there selects object 2.
   */
  lemma NestedArraysMisdirected(cap: nat)
    requires cap >= 144
    ensures WellFormed(Empty(8), cap, SIZES, Nested())
    ensures var s := Run(Empty(8), cap, SIZES, Nested());
            && s.cur == Cursor(InArray(0), 0) && Extent(s, s.cur.place) == 8 && Holds(s, s.cur.place, 0, Pointer(1))
            && |s.objs| == 3 && s.objs[1].body.ArrayBody? && LastArray(s.objs) == 2
  {
    hide WellFormed, Run, Fits, Step, Holds, LastArray, LastRoot, Pointer;
    var i0, i1 := ItemOf(0, Array(0, 2)), ItemOf(0, SetIndex(0));
    var i2, i3 := ItemOf(0, Array(1, 4)), ItemOf(4, Array(1, 4));
    OuterStep(cap);
    var s1 := Step(Empty(8), cap, SIZES, i0);
    IndexStep(s1, cap);
    var s2 := Step(s1, cap, SIZES, i1);
    InnerStep(s2, cap, 0);
    var s3 := Step(s2, cap, SIZES, i2);
    InnerStep(s3, cap, 4);
    var s4 := Step(s3, cap, SIZES, i3);
    StepMisses(s3, cap, SIZES, i3, InArray(0), 0, Pointer(1));
    NoSteps(s4, cap);
    OneStep(s3, cap, i3, []);
    OneStep(s2, cap, i2, [i3] + []);
    OneStep(s1, cap, i1, [i2] + ([i3] + []));
    OneStep(Empty(8), cap, i0, [i1] + ([i2] + ([i3] + [])));
  }

  /** The word the base stands at points to an array, and a set-index takes the base to another. */
  predicate SetIndexMisses(h: Heap) {
    && h.base.AtElement? && Dest(h, 0) == Ok(h.base.ptr) && ORG <= h.base.ptr <= ORG + |h.mem| - 4
    && var inner := ArrayAt(h.mem, ReadWord(h.mem, h.base.ptr - ORG));
       && inner.Ok? && LoadSetIndex(h, 0).Ok? && LoadSetIndex(h, 0).value.base.AtElement?
       && LoadSetIndex(h, 0).value.base.ptr != inner.value.data
  }

  /**
   The same on bytes: the stream loads, and a set-index at element 0 of the outer array
   moves the base away from the payload of the array whose pointer stands there.
   */
  lemma NestedSetIndexGoesWrong(t: TypeDesc)
    requires t.size == 8 && FreshHeap(t).Ok?
    ensures LoadAll(FreshHeap(t).value, SIZES, Nested()).Ok?
    ensures SetIndexMisses(LoadAll(FreshHeap(t).value, SIZES, Nested()).value)
  {
    hide WellFormed, Run, LoadAll, Agrees, Holds, ArrayAt, LoadSetIndex, Rooted, ReadWord, MapFits,
         LastArray, Pointer, Dest, Nested, Marked;
    var h0, s0 := FreshHeap(t).value, Empty(8);
    FreshAgrees(t);
    NestedArraysMisdirected(|h0.mem|);
    RunAgrees(s0, h0.mem, h0, SIZES, Nested());
    NothingRooted(8);
    RunRooted(s0, |h0.mem|, SIZES, Nested());
    var s, h := Run(s0, |h0.mem|, SIZES, Nested()), LoadAll(h0, SIZES, Nested()).value;
    SetIndexPicksTheLast(s, h0.mem, h, 0, 0, 1);
    BaseOfArray(s, h0.mem, h);
  }

  lemma BaseOfArray(s: Store, init: seq<byte>, h: Heap)
    requires Agrees(s, init, h) && s.cur.place.InArray? && s.cur.start == 0 && Extent(s, s.cur.place) > 0
    ensures h.base == AtElement(ORG + TargetIndex(s, 0), 0) && Dest(h, 0) == Ok(ORG + TargetIndex(s, 0))
  {
    hide Images, CellsValid, CellsAgree, LastRoot;
    DestAgrees(s, init, h, 0);
  }

  lemma NoSteps(s: Store, cap: nat)
    ensures WellFormed(s, cap, SIZES, []) && Run(s, cap, SIZES, []) == s
  {
  }

  lemma IndexStep(s: Store, cap: nat)
    requires LastArray(s.objs) == 0
    ensures Fits(s, cap, SIZES, ItemOf(0, SetIndex(0)))
    ensures var s' := Step(s, cap, SIZES, ItemOf(0, SetIndex(0)));
            s' == s.(cur := Cursor(InArray(0), 0), stack := s.stack + [s.cur])
  {
  }

  lemma StepMisses(s: Store, cap: nat, sizes: seq<int>, it: Item, p: Place, from: nat, syms: seq<Sym>)
    requires Fits(s, cap, sizes, it) && MissedBy(s, it, p, from, |syms|) && Holds(s, p, from, syms)
    requires Extent(s, p) > 0
    ensures Holds(Step(s, cap, sizes, it), p, from, syms)
  {
    ObjectsKept(s, cap, sizes, it);
    hide Step, Fits, MissedBy;
    forall l: Loc | l.place == p && from <= l.at < from + |syms|
      ensures l in Step(s, cap, sizes, it).cells && Step(s, cap, sizes, it).cells[l] == syms[l.at - from]
    {
      StepSpares(s, cap, sizes, it, p, from, |syms|, l);
    }
  }
}
