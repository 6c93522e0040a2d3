/**
 The byte-level loader refines the simple store: what the two have to agree on, and that
 every item of a well-formed stream keeps them in agreement.
 */
module Refinement {
  import opened Bytes
  import opened ObjectFile
  import opened HeapModel
  import opened Store

  /** The region holds the image of `o`. */
  predicate HasImage(m: seq<byte>, o: Obj) {
    Has(m, o.at, Image(ORG + o.at, o.body))
  }

  function NextBlock(o: Obj): nat {
    o.at + BlockSize(o.body)
  }

  /** The blocks lie one after the other from `size` on, up to `brk`. */
  ghost predicate Tiled(objs: seq<Obj>, size: nat, brk: nat) {
    && (forall k :: 0 <= k < |objs| ==> size <= objs[k].at && NextBlock(objs[k]) <= brk)
    && (forall j, k :: 0 <= j < k < |objs| ==> NextBlock(objs[j]) <= objs[k].at)
    && (objs != [] ==> objs[0].at == size)
    && (forall j, k :: 0 <= j && k == j + 1 < |objs| ==> objs[k].at == NextBlock(objs[j]))
    && brk == if objs == [] then size else NextBlock(objs[|objs| - 1])
  }

  predicate Valid(s: Store, l: Loc) {
    l.at < Extent(s, l.place)
  }

  function PlaceStart(s: Store, p: Place): nat {
    match p
    case InModule => 0
    case InArray(k) => if k < |s.objs| then s.objs[k].at + HEADER + DESCRIPTOR else 0
  }

  /** Where a location lies in the region. */
  function Index(s: Store, l: Loc): nat {
    PlaceStart(s, l.place) + l.at
  }

  predicate ValidSym(s: Store, y: Sym) {
    y.PtrByte? ==> y.k < |s.objs| && y.j < 4
  }

  /** The data address of object `k`: past its header. */
  function DataAddress(s: Store, k: nat): nat
    requires k < |s.objs|
  {
    ORG + s.objs[k].at + HEADER
  }

  function Concrete(s: Store, y: Sym): byte
    requires ValidSym(s, y)
  {
    match y
    case Lit(b) => b
    case PtrByte(k, j) => LE(DataAddress(s, k), 4)[j]
  }

  /** Cells are inside their places and hold bytes of known objects. */
  ghost predicate CellsValid(s: Store) {
    forall l :: l in s.cells ==> Valid(s, l) && ValidSym(s, s.cells[l])
  }

  /** What location `l` holds: the byte last written there, or what was there at the start. */
  function Content(s: Store, init: seq<byte>, l: Loc): byte
    requires Index(s, l) < |init|
    requires l in s.cells ==> ValidSym(s, s.cells[l])
  {
    if l in s.cells then Concrete(s, s.cells[l]) else init[Index(s, l)]
  }

  ghost predicate CellsAgree(s: Store, init: seq<byte>, m: seq<byte>)
    requires CellsValid(s)
  {
    forall l :: Valid(s, l) ==> Index(s, l) < |m| && Index(s, l) < |init| && m[Index(s, l)] == Content(s, init, l)
  }

  /** The base pointer of a cursor. */
  predicate BaseAgrees(s: Store, c: Cursor, b: Base) {
    match c.place
    case InModule => c.start == 0 && b == AtModule
    case InArray(k) =>
      k < |s.objs| && s.objs[k].body.ArrayBody? && b == AtElement(ORG + PlaceStart(s, c.place), c.start)
  }

  ghost predicate StackAgrees(s: Store, h: Heap) {
    && BaseAgrees(s, s.cur, h.base)
    && |s.stack| == |h.stack|
    && forall i :: 0 <= i < |s.stack| ==> BaseAgrees(s, s.stack[i], h.stack[i])
  }

  ghost predicate Images(m: seq<byte>, objs: seq<Obj>) {
    forall k :: 0 <= k < |objs| ==> HasImage(m, objs[k])
  }

  /** The heap `h`, whose region started as `init`, agrees with the store. */
  ghost predicate Agrees(s: Store, init: seq<byte>, h: Heap) {
    && |h.mem| == |init| && ORG + |init| < TWO_TO_THE_32
    && s.size <= h.brk == s.brk <= |init|
    && Tiled(s.objs, s.size, s.brk)
    && Images(h.mem, s.objs)
    && (forall i :: s.brk <= i < |init| ==> h.mem[i] == init[i])
    && h.last == LastRoot(s.objs)
    && StackAgrees(s, h)
    && CellsValid(s)
    && CellsAgree(s, init, h.mem)
  }

  // Where things lie

  /** A place ends below the break. */
  lemma PlaceBelow(s: Store, p: Place)
    requires Tiled(s.objs, s.size, s.brk) && s.size <= s.brk && Extent(s, p) > 0
    ensures PlaceStart(s, p) + Extent(s, p) <= s.brk
  {
  }

  /** No object's image reaches into a place. */
  lemma PlaceApart(s: Store, p: Place)
    requires Tiled(s.objs, s.size, s.brk) && s.size <= s.brk && Extent(s, p) > 0
    ensures forall o :: o in s.objs ==>
              PlaceStart(s, p) + Extent(s, p) <= o.at || o.at + |Image(ORG + o.at, o.body)| <= PlaceStart(s, p)
  {
    hide Image, RoundUp4;
    forall o | o in s.objs
      ensures PlaceStart(s, p) + Extent(s, p) <= o.at || o.at + |Image(ORG + o.at, o.body)| <= PlaceStart(s, p)
    {
      var k :| 0 <= k < |s.objs| && s.objs[k] == o;
      if p.InArray? && p.k < k {
        assert NextBlock(s.objs[p.k]) <= s.objs[k].at;
      } else if p.InArray? && k < p.k {
        assert NextBlock(s.objs[k]) <= s.objs[p.k].at;
      }
    }
  }

  lemma PlacesDisjoint(s: Store, p: Place, q: Place)
    requires Tiled(s.objs, s.size, s.brk) && p != q && Extent(s, p) > 0 && Extent(s, q) > 0
    ensures PlaceStart(s, p) + Extent(s, p) <= PlaceStart(s, q) || PlaceStart(s, q) + Extent(s, q) <= PlaceStart(s, p)
  {
    hide RoundUp4;
    if p.InArray? && q.InArray? {
      if p.k < q.k {
        assert NextBlock(s.objs[p.k]) <= s.objs[q.k].at;
      } else {
        assert NextBlock(s.objs[q.k]) <= s.objs[p.k].at;
      }
    }
  }

  // Writing at a target

  function TargetIndex(s: Store, offset: nat): nat {
    PlaceStart(s, s.cur.place) + s.cur.start + offset
  }

  lemma DestInside(h: Heap, offset: nat)
    requires ORG + h.brk < TWO_TO_THE_32
    requires offset + (match h.base case AtModule => 0 case AtElement(p, i) => p + i - ORG) < h.brk
    requires h.base.AtElement? ==> h.base.ptr >= ORG
    ensures Dest(h, offset) == Ok(offset + match h.base case AtModule => ORG case AtElement(p, i) => p + i)
  {
  }

  lemma DestAgrees(s: Store, init: seq<byte>, h: Heap, offset: nat)
    requires Agrees(s, init, h)
    requires s.cur.start + offset < Extent(s, s.cur.place)
    ensures Dest(h, offset) == Ok(ORG + TargetIndex(s, offset))
    ensures TargetIndex(s, offset) < h.brk <= |h.mem|
  {
    hide Tiled, Images, CellsValid, CellsAgree, LastRoot, Dest, Extent;
    PlaceBelow(s, s.cur.place);
    DestInside(h, offset);
  }

  /** A write inside a place changes the cells it covers and nothing else. */
  lemma UpdateAgrees(s: Store, init: seq<byte>, h: Heap, offset: nat, syms: seq<Sym>, bs: seq<byte>)
    requires Agrees(s, init, h)
    requires Writable(s, offset, syms, bs)
    ensures TargetIndex(s, offset) + |bs| <= |h.mem|
    ensures Agrees(Update(s, offset, syms), init, h.(mem := Splice(h.mem, TargetIndex(s, offset), bs)))
  {
    hide CellsValid, CellsAgree, Images, Concrete, ValidSym, LastRoot, Tiled, Extent;
    PlaceBelow(s, s.cur.place);
    ImagesUntouched(s, h.mem, s.cur.start + offset, bs);
    UpdateCells(s, init, h.mem, offset, syms, bs);
  }

  lemma ImagesUntouched(s: Store, m: seq<byte>, from: nat, bs: seq<byte>)
    requires Tiled(s.objs, s.size, s.brk) && s.size <= s.brk <= |m|
    requires 0 < |bs| && from + |bs| <= Extent(s, s.cur.place)
    requires PlaceStart(s, s.cur.place) + from + |bs| <= |m|
    requires Images(m, s.objs)
    ensures Images(Splice(m, PlaceStart(s, s.cur.place) + from, bs), s.objs)
  {
    hide Image, BlockSize, Tiled, Extent;
    PlaceApart(s, s.cur.place);
    var i0 := PlaceStart(s, s.cur.place) + from;
    forall k | 0 <= k < |s.objs|
      ensures HasImage(Splice(m, i0, bs), s.objs[k])
    {
      var o := s.objs[k];
      assert o in s.objs && HasImage(m, o);
      SpliceElsewhere(m, i0, bs, o.at, |Image(ORG + o.at, o.body)|);
    }
  }

  lemma SpliceElsewhere(m: seq<byte>, i: nat, bs: seq<byte>, j: nat, n: nat)
    requires i + |bs| <= |m| && j + n <= |m| && (i + |bs| <= j || j + n <= i)
    ensures Splice(m, i, bs)[j..j + n] == m[j..j + n]
  {
  }

  ghost predicate Writable(s: Store, offset: nat, syms: seq<Sym>, bs: seq<byte>) {
    && 0 < |syms| == |bs| && s.cur.start + offset + |syms| <= Extent(s, s.cur.place)
    && forall i :: 0 <= i < |syms| ==> ValidSym(s, syms[i]) && bs[i] == Concrete(s, syms[i])
  }

  lemma UpdateCells(s: Store, init: seq<byte>, m: seq<byte>, offset: nat, syms: seq<Sym>, bs: seq<byte>)
    requires Tiled(s.objs, s.size, s.brk) && s.size <= s.brk <= |m| == |init|
    requires CellsValid(s) && CellsAgree(s, init, m) && Writable(s, offset, syms, bs)
    requires TargetIndex(s, offset) + |bs| <= |m|
    ensures CellsValid(Update(s, offset, syms))
    ensures CellsAgree(Update(s, offset, syms), init, Splice(m, TargetIndex(s, offset), bs))
  {
    var s' := Update(s, offset, syms);
    forall l | l in s'.cells
      ensures Valid(s', l) && ValidSym(s', s'.cells[l])
    {
      UpdateLookup(s, offset, syms, l);
    }
    hide Update, Splice, Tiled, Writable, Content;
    forall l | Valid(s', l)
      ensures Index(s', l) < |m| && Index(s', l) < |init|
      ensures Splice(m, TargetIndex(s, offset), bs)[Index(s', l)] == Content(s', init, l)
    {
      UpdateCell(s, init, m, offset, syms, bs, l);
    }
  }

  lemma UpdateCell(s: Store, init: seq<byte>, m: seq<byte>, offset: nat, syms: seq<Sym>, bs: seq<byte>, l: Loc)
    requires Tiled(s.objs, s.size, s.brk) && Valid(s, l) && Writable(s, offset, syms, bs)
    requires Index(s, l) < |m| == |init| && (l in s.cells ==> ValidSym(s, s.cells[l]))
    requires m[Index(s, l)] == Content(s, init, l)
    requires TargetIndex(s, offset) + |bs| <= |m|
    ensures var s' := Update(s, offset, syms);
            && Index(s', l) == Index(s, l) && (l in s'.cells ==> ValidSym(s', s'.cells[l]))
            && Splice(m, TargetIndex(s, offset), bs)[Index(s, l)] == Content(s', init, l)
  {
    hide Tiled, Extent, LE, Splice;
    var s' := Update(s, offset, syms);
    assert s'.objs == s.objs && Index(s', l) == Index(s, l);
    UpdateLookup(s, offset, syms, l);
    CoveredBytes(s, offset, |syms|, l);
    hide Update, PlaceStart, Covers;
  }

  /** The bytes of a target are the locations it covers. */
  lemma CoveredBytes(s: Store, offset: nat, n: nat, l: Loc)
    requires Tiled(s.objs, s.size, s.brk) && Valid(s, l)
    requires 0 < n && s.cur.start + offset + n <= Extent(s, s.cur.place)
    ensures Covers(s, offset, n, l) <==> TargetIndex(s, offset) <= Index(s, l) < TargetIndex(s, offset) + n
    ensures Covers(s, offset, n, l) ==> Index(s, l) - TargetIndex(s, offset) == l.at - s.cur.start - offset
  {
    if l.place != s.cur.place {
      PlacesDisjoint(s, l.place, s.cur.place);
    }
  }

  // Creating an object

  lemma TiledAppend(s: Store, o: Body)
    requires Tiled(s.objs, s.size, s.brk) && s.size <= s.brk
    ensures Tiled(Create(s, o).objs, s.size, Create(s, o).brk)
  {
    AppendTiled(s.objs, s.size, s.brk, Obj(s.brk, o));
  }

  lemma AppendTiled(objs: seq<Obj>, size: nat, brk: nat, o: Obj)
    requires Tiled(objs, size, brk) && size <= brk && o.at == brk
    ensures Tiled(objs + [o], size, NextBlock(o))
  {
    hide BlockSize;
    var n := objs + [o];
    assert NextBlock(o) >= brk;
    hide NextBlock;
    forall j, k | 0 <= j && k == j + 1 < |n|
      ensures n[k].at == NextBlock(n[j])
    {
      assert k < |objs| ==> objs[k].at == NextBlock(objs[j]);
    }
  }

  lemma LastRootAppend(objs: seq<Obj>, o: Obj)
    ensures LastRoot(objs + [o]) == if o.body.ArrayBody? then ORG + o.at else LastRoot(objs)
  {
  }

  lemma ImagesAppend(s: Store, m: seq<byte>, o: Body)
    requires Tiled(s.objs, s.size, s.brk) && s.size <= s.brk && s.brk + BlockSize(o) <= |m|
    requires Images(m, s.objs)
    ensures Images(Splice(m, s.brk, Image(ORG + s.brk, o)), Create(s, o).objs)
  {
    hide Image, BlockSize;
    var bs := Image(ORG + s.brk, o);
    var objs, m' := Create(s, o).objs, Splice(m, s.brk, bs);
    forall k | 0 <= k < |objs|
      ensures HasImage(m', objs[k])
    {
      if k < |s.objs| {
        var at, n := objs[k].at, |Image(ORG + objs[k].at, objs[k].body)|;
        assert HasImage(m, s.objs[k]) && at + n <= NextBlock(s.objs[k]) <= s.brk;
        SpliceElsewhere(m, s.brk, bs, at, n);
      } else {
        assert m'[s.brk..s.brk + |bs|] == bs;
      }
    }
  }

  lemma CellsAppend(s: Store, init: seq<byte>, m: seq<byte>, o: Body)
    requires Tiled(s.objs, s.size, s.brk) && s.size <= s.brk && s.brk + BlockSize(o) <= |m| == |init|
    requires CellsValid(s) && CellsAgree(s, init, m)
    requires forall i :: s.brk <= i < |init| ==> m[i] == init[i]
    ensures CellsValid(Create(s, o))
    ensures CellsAgree(Create(s, o), init, Splice(m, s.brk, Image(ORG + s.brk, o)))
  {
    hide Image, RoundUp4, Tiled;
    var s', m' := Create(s, o), Splice(m, s.brk, Image(ORG + s.brk, o));
    assert forall k :: 0 <= k < |s.objs| ==> s'.objs[k] == s.objs[k];
    forall l | Valid(s', l)
      ensures Index(s', l) < |m'| && m'[Index(s', l)] == Content(s', init, l)
    {
      if Valid(s, l) {
        PlaceBelow(s, l.place);
        assert Index(s', l) == Index(s, l) < s.brk;
      } else {
        assert l.place == InArray(|s.objs|) && l !in s.cells;
      }
    }
  }

  /** Allocation takes the block at the break and disturbs nothing below it. */
  lemma CreateAgrees(s: Store, init: seq<byte>, h: Heap, o: Body)
    requires Agrees(s, init, h) && s.brk + BlockSize(o) <= |init|
    ensures Allocate(h, o).Ok?
    ensures var (h1, p) := Allocate(h, o).value;
            && p == ORG + s.brk && h1.last == h.last && h1.base == h.base && h1.brk == h.brk + BlockSize(o)
            && Agrees(Create(s, o), init, h1.(last := if o.ArrayBody? then p else h.last))
  {
    hide Image, BlockSize, Tiled, Images, CellsValid, CellsAgree, LastRoot;
    TiledAppend(s, o);
    LastRootAppend(s.objs, Obj(s.brk, o));
    ImagesAppend(s, h.mem, o);
    CellsAppend(s, init, h.mem, o);
  }

  lemma LiteralsConcrete(s: Store, bs: seq<byte>, offset: nat)
    requires 0 < |bs| && s.cur.start + offset + |bs| <= Extent(s, s.cur.place)
    ensures Writable(s, offset, Literals(bs), bs)
  {
  }

  lemma PointerConcrete(s: Store, k: nat, offset: nat)
    requires k < |s.objs| && s.cur.start + offset + 4 <= Extent(s, s.cur.place)
    ensures Writable(s, offset, Pointer(k), LE(DataAddress(s, k), 4))
  {
  }

  lemma ScalarsAgree(s: Store, init: seq<byte>, h: Heap, offset: int, kind: Kind, vals: seq<int>)
    requires Agrees(s, init, h)
    requires offset >= 0 && s.cur.start + offset + Max(1, |vals| * kind.Width()) <= Extent(s, s.cur.place)
    ensures WriteScalars(h, offset, kind, vals).Ok?
    ensures Agrees(Update(s, offset, Literals(Cells(kind, vals))), init, WriteScalars(h, offset, kind, vals).value)
  {
    hide Agrees, Dest, Cells;
    var bs := Cells(kind, vals);
    DestAgrees(s, init, h, offset);
    if bs == [] {
      UpdateNothing(s, offset);
    } else {
      LiteralsConcrete(s, bs, offset);
      UpdateAgrees(s, init, h, offset, Literals(bs), bs);
    }
  }

  lemma UpdateNothing(s: Store, offset: nat)
    ensures Update(s, offset, []) == s
    ensures Literals([]) == []
  {
  }

  lemma PointerAgrees(s: Store, init: seq<byte>, h: Heap, offset: nat, k: nat)
    requires Agrees(s, init, h) && k < |s.objs|
    requires s.cur.start + offset + 4 <= Extent(s, s.cur.place)
    ensures Dest(h, offset).Ok? && WritePointer(h, Dest(h, offset).value, DataAddress(s, k)).Ok?
    ensures Agrees(Update(s, offset, Pointer(k)), init, WritePointer(h, Dest(h, offset).value, DataAddress(s, k)).value)
  {
    hide Agrees, Dest, Update, Pointer;
    DestAgrees(s, init, h, offset);
    PointerConcrete(s, k, offset);
    UpdateAgrees(s, init, h, offset, Pointer(k), LE(DataAddress(s, k), 4));
  }

  lemma SameTarget(s: Store, o: Body, offset: nat)
    requires s.cur.start + offset + 4 <= Extent(s, s.cur.place)
    ensures var s1 := Create(s, o);
            && Extent(s1, s1.cur.place) == Extent(s, s.cur.place) && s1.cur == s.cur
            && TargetIndex(s1, offset) == TargetIndex(s, offset)
            && |s1.objs| == |s.objs| + 1 && DataAddress(s1, |s.objs|) == ORG + s.brk + HEADER
  {
  }

  lemma DestOfLast(h: Heap, last: nat, offset: int)
    ensures Dest(h.(last := last), offset) == Dest(h, offset)
  {
  }

  /** The heap after an object is created and a pointer to it written at the target. */
  function StoreObject(h: Heap, offset: int, o: Body): Result<Heap> {
    var (h1, p) :- Allocate(h, o);
    var dest :- Dest(h1, offset);
    var h2 :- WritePointer(h1, dest, p + HEADER);
    Ok(h2.(last := if o.ArrayBody? then p else h.last))
  }

  lemma ObjectAgrees(s: Store, init: seq<byte>, h: Heap, offset: nat, o: Body)
    requires Agrees(s, init, h) && s.brk + BlockSize(o) <= |init|
    requires s.cur.start + offset + 4 <= Extent(s, s.cur.place)
    ensures StoreObject(h, offset, o).Ok?
    ensures Agrees(Update(Create(s, o), offset, Pointer(|s.objs|)), init, StoreObject(h, offset, o).value)
  {
    hide Agrees, Allocate, BlockSize, Update, Create, TargetIndex, Dest, Extent, Pointer, DataAddress;
    CreateAgrees(s, init, h, o);
    SameTarget(s, o, offset);
    var (h1, p) := Allocate(h, o).value;
    var h2 := h1.(last := if o.ArrayBody? then p else h.last);
    DestOfLast(h1, h2.last, offset);
    PointerAgrees(Create(s, o), init, h2, offset, |s.objs|);
  }

  // Reading an image back

  lemma WordAtLE(m: seq<byte>, i: nat, v: nat)
    requires Has(m, i, LE(v, 4)) && v < TWO_TO_THE_32
    ensures ReadWord(m, i) == v
  {
    Widths();
    FromLEOfLE(v, 4);
  }

  lemma {:induction false} WordsAt(m: seq<byte>, i: nat, ws: seq<nat>, j: nat)
    requires Has(m, i, Words(ws)) && j < |ws| && ws[j] < TWO_TO_THE_32
    ensures ReadWord(m, i + 4 * j) == ws[j]
    decreases j
  {
    hide Has, LE, ReadWord;
    assert Words(ws) == LE(ws[0], 4) + Words(ws[1..]);
    hide Words;
    HasConcat(m, i, LE(ws[0], 4), Words(ws[1..]));
    if j == 0 {
      WordAtLE(m, i, ws[0]);
    } else {
      var rest := ws[1..];
      assert rest[j - 1] == ws[j];
      WordsAt(m, i + 4, rest, j - 1);
    }
  }

  /** The words of an object's header and descriptor, as they stand in the region. */
  lemma PrologueAt(m: seq<byte>, o: Obj, j: nat)
    requires HasImage(m, o) && j < 10 && Prologue(ORG + o.at, o.body)[j] < TWO_TO_THE_32
    ensures o.at + 4 * j + 4 <= |m|
    ensures ReadWord(m, o.at + 4 * j) == Prologue(ORG + o.at, o.body)[j]
  {
    hide Words, ReadWord, Has, Prologue;
    var ws, tail := Prologue(ORG + o.at, o.body), if o.body.TextBody? then o.body.text else [];
    HasConcat(m, o.at, Words(ws), tail);
    WordsAt(m, o.at, ws, j);
  }

  // Items and streams

  lemma SetIndexAgrees(s: Store, init: seq<byte>, h: Heap, index: nat)
    requires Agrees(s, init, h) && LastArray(s.objs) >= 0
    ensures LoadSetIndex(h, index).Ok?
    ensures Agrees(s.(cur := Cursor(InArray(LastArray(s.objs)), index), stack := s.stack + [s.cur]), init,
                   LoadSetIndex(h, index).value)
  {
    hide Images, Tiled, Image, LastArray, Extent, ReadWord, HasImage, CellsValid, CellsAgree, BlockSize;
    var k := LastArray(s.objs);
    PlacePrologue(s, h.mem, k);
    SameCells(s, s.(cur := Cursor(InArray(k), index), stack := s.stack + [s.cur]), init, h.mem);
  }

  lemma PlacePrologue(s: Store, m: seq<byte>, k: nat)
    requires Images(m, s.objs) && Tiled(s.objs, s.size, s.brk) && s.brk <= |m| && ORG + |m| < TWO_TO_THE_32
    requires k < |s.objs| && s.objs[k].body.ArrayBody?
    ensures s.objs[k].at + HEADER + DESCRIPTOR <= |m|
    ensures ReadWord(m, s.objs[k].at + HEADER + 12) == ORG + PlaceStart(s, InArray(k))
  {
    hide RoundUp4, Image, HasImage, ReadWord, Has, Words;
    assert HasImage(m, s.objs[k]) && NextBlock(s.objs[k]) <= s.brk;
    hide Tiled, Images;
    PrologueAt(m, s.objs[k], 9);
  }

  /** The cells do not depend on the base and its stack. */
  lemma SameCells(s: Store, s': Store, init: seq<byte>, m: seq<byte>)
    requires s' == s.(cur := s'.cur, stack := s'.stack)
    requires CellsValid(s) && CellsAgree(s, init, m)
    ensures CellsValid(s') && CellsAgree(s', init, m)
  {
    forall l | Valid(s', l)
      ensures Index(s', l) < |m| && Index(s', l) < |init| && m[Index(s', l)] == Content(s', init, l)
    {
      assert Valid(s, l) && Content(s', init, l) == Content(s, init, l);
    }
  }

  lemma RestoreAgrees(s: Store, init: seq<byte>, h: Heap)
    requires Agrees(s, init, h) && s.stack != []
    ensures LoadRestore(h).Ok?
    ensures Agrees(s.(cur := s.stack[|s.stack| - 1], stack := s.stack[..|s.stack| - 1]), init, LoadRestore(h).value)
  {
    hide Images, Tiled, Image, LastArray, Extent, CellsValid, CellsAgree;
    SameCells(s, s.(cur := s.stack[|s.stack| - 1], stack := s.stack[..|s.stack| - 1]), init, h.mem);
  }

  /** An item that fits is loaded, and the heap agrees with the store afterwards. */
  lemma StepAgrees(s: Store, init: seq<byte>, h: Heap, sizes: seq<int>, it: Item)
    requires Agrees(s, init, h) && Fits(s, |init|, sizes, it)
    ensures Load(h, sizes, it).Ok?
    ensures Agrees(Step(s, |init|, sizes, it), init, Load(h, sizes, it).value)
  {
    hide Update, Create, Agrees, BlockSize, Extent, LastRoot, LastArray, WriteScalars, LoadText, LoadArray,
         LoadSetIndex, LoadRestore, StoreObject, Literals, Cells, Pointer;
    match it.payload
    case Scalars(kind, vals) => ScalarsAgree(s, init, h, it.offset, kind, vals);
    case Text(t) =>
      ObjectAgrees(s, init, h, it.offset, TextBody(t));
      TextIsStoreObject(s, init, h, it.offset, t);
    case Array(typ, len) =>
      ObjectAgrees(s, init, h, it.offset, BodyOf(s, sizes, it.payload));
      ArrayIsStoreObject(s, init, h, it.offset, sizes, it.payload);
    case SetIndex(index) => SetIndexAgrees(s, init, h, index);
    case Restore => RestoreAgrees(s, init, h);
  }

  lemma ArrayIsStoreObject(s: Store, init: seq<byte>, h: Heap, offset: nat, sizes: seq<int>, p: Payload)
    requires Agrees(s, init, h) && p.Array? && ArrayKnown(sizes, p.typ, p.len)
    ensures LoadArray(h, offset, sizes, p.typ, p.len) == StoreObject(h, offset, BodyOf(s, sizes, p))
  {
  }

  /** Whether the target is computed before or after the allocation makes no difference. */
  lemma TextIsStoreObject(s: Store, init: seq<byte>, h: Heap, offset: nat, t: seq<byte>)
    requires Agrees(s, init, h) && s.brk + BlockSize(TextBody(t)) <= |init|
    requires s.cur.start + offset + 4 <= Extent(s, s.cur.place)
    ensures LoadText(h, offset, t) == StoreObject(h, offset, TextBody(t))
  {
    var o := TextBody(t);
    hide Agrees, BlockSize, Create, Extent, Dest, Allocate, TargetIndex;
    CreateAgrees(s, init, h, o);
    SameTarget(s, o, offset);
    DestAgrees(s, init, h, offset);
    var h1 := Allocate(h, o).value.0;
    assert h1.(last := h.last) == h1;
    DestAgrees(Create(s, o), init, h1, offset);
  }

  /** Every well-formed stream is loaded to the end, and the heap then agrees with the store. */
  lemma {:induction false} RunAgrees(s: Store, init: seq<byte>, h: Heap, sizes: seq<int>, items: seq<Item>)
    requires Agrees(s, init, h) && WellFormed(s, |init|, sizes, items)
    ensures LoadAll(h, sizes, items).Ok?
    ensures Agrees(Run(s, |init|, sizes, items), init, LoadAll(h, sizes, items).value)
    decreases |items|
  {
    if items != [] {
      hide Agrees, Fits, Step, Load;
      StepAgrees(s, init, h, sizes, items[0]);
      RunAgrees(Step(s, |init|, sizes, items[0]), init, Load(h, sizes, items[0]).value, sizes, items[1..]);
    }
  }

  /** The fresh heap agrees with the empty store. */
  lemma FreshAgrees(t: TypeDesc)
    requires FreshHeap(t).Ok? && InSigned(t.size, 4)
    ensures var h := FreshHeap(t).value; Agrees(Empty(t.size), h.mem, h)
  {
  }
}
