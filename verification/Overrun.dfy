/**
 Scalar writes that do not fit: which ones the loader's checks let through, and which of
 those can damage the header, descriptor or text of an object.
 */
module Overrun {
  import opened Bytes
  import opened ObjectFile
  import opened HeapModel
  import opened Store
  import opened Refinement
  import opened HeapLayout
  import opened Targets

  /** The address of the current base. */
  function BaseAddress(s: Store): nat {
    ORG + PlaceStart(s, s.cur.place) + s.cur.start
  }

  /** Where in the region a write at `offset` goes, the address being 32 bits wide. */
  function Landing(s: Store, offset: int): int {
    (BaseAddress(s) + offset) % TWO_TO_THE_32 - ORG
  }

  /** A write of `n` bytes gets through: its first byte is below the break, its last in the region. */
  predicate Accepts(s: Store, cap: nat, offset: int, n: nat) {
    && Aimed(s, s.brk, offset)
    && (n > 0 ==> 0 <= Landing(s, offset) && Landing(s, offset) + n <= cap)
  }

  /** The target is below the break `brk`, which is 32 bits wide in this comparison only. */
  predicate Aimed(s: Store, brk: nat, offset: int) {
    && 0 <= offset <= brk && BaseAddress(s) < TWO_TO_THE_32
    && Landing(s, offset) < brk % TWO_TO_THE_32 && 0x80000 + brk % TWO_TO_THE_32 < TWO_TO_THE_32
  }

  lemma BaseIs(s: Store, init: seq<byte>, h: Heap)
    requires Agrees(s, init, h)
    ensures BaseAddress(s) == match h.base case AtModule => ORG case AtElement(p, i) => p + i
    ensures h.brk == s.brk && |h.mem| == |init| && ORG + |h.mem| < TWO_TO_THE_32 && s.brk <= |h.mem|
  {
    hide Tiled, Images, CellsValid, CellsAgree, LastRoot;
  }

  /** Where an offset leads, the break having moved to `brk` since. */
  lemma DestExactly(s: Store, init: seq<byte>, h: Heap, brk: nat, offset: int)
    requires Agrees(s, init, h)
    ensures Dest(h.(brk := brk), offset) ==
            if Aimed(s, brk, offset) then Ok(0x80000 + Landing(s, offset)) else Fail
    ensures h.(brk := s.brk) == h
  {
    hide Agrees, BaseAddress;
    BaseIs(s, init, h);
  }

  lemma CellsLength(kind: Kind, vals: seq<int>)
    ensures |Cells(kind, vals)| == |vals| * kind.Width()
    ensures vals != [] ==> |Cells(kind, vals)| >= 1
  {
  }

  /**
   What the loader's own checks accept, at any base. That the write ends inside the place
   it starts in is not checked.
   */
  lemma AcceptedExactly(s: Store, init: seq<byte>, h: Heap, offset: int, kind: Kind, vals: seq<int>)
    requires Agrees(s, init, h)
    ensures WriteScalars(h, offset, kind, vals).Ok? <==> Accepts(s, |h.mem|, offset, |vals| * kind.Width())
    ensures WriteScalars(h, offset, kind, vals).Ok? && vals != [] ==>
              0 <= Landing(s, offset) && Landing(s, offset) + |vals| * kind.Width() <= |h.mem| &&
              WriteScalars(h, offset, kind, vals).value ==
              h.(mem := Splice(h.mem, Landing(s, offset), Cells(kind, vals)))
  {
    hide Agrees, Cells, Kind.Width, BaseAddress, Landing, Dest;
    BaseIs(s, init, h);
    DestExactly(s, init, h, s.brk, offset);
    CellsLength(kind, vals);
    assert vals == [] ==> Cells(kind, vals) == [];
  }

  // Strings and arrays

  /** What the break moves by for an object with `n` bytes of payload. */
  function Block(n: nat): nat {
    (40 + n + 3) / 4 * 4
  }

  lemma BlockIs(o: Body)
    ensures BlockSize(o) == Block(if o.TextBody? then |o.text| else o.span)
  {
  }

  lemma PokeExactly(m: seq<byte>, a: nat, bs: seq<byte>)
    requires bs != []
    ensures Poke(m, a, bs).Ok? <==> 0 <= a - 0x80000 && a - 0x80000 + |bs| <= |m|
    ensures Poke(m, a, bs).Ok? ==> Poke(m, a, bs).value[a - 0x80000..a - 0x80000 + |bs|] == bs
  {
    if 0 <= a - ORG && a - ORG + |bs| <= |m| {
      assert Splice(m, a - ORG, bs)[a - ORG..a - ORG + |bs|] == bs;
    }
  }

  /** An object is accepted if all that is written of it lies in the region. */
  lemma ImageFits(s: Store, init: seq<byte>, h: Heap, o: Body)
    requires Agrees(s, init, h)
    ensures Allocate(h, o).Ok? <==> s.brk + 40 + (if o.TextBody? then |o.text| else 0) <= |h.mem|
    ensures Allocate(h, o).Ok? ==>
              var (h1, p) := Allocate(h, o).value;
              && p == 0x80000 + s.brk && |h1.mem| == |h.mem|
              && h1 == h.(mem := h1.mem, brk := s.brk + Block(if o.TextBody? then |o.text| else o.span))
  {
    hide Agrees, Image, Poke, Block, BlockSize, BaseAddress;
    BaseIs(s, init, h);
    BlockIs(o);
    PokeExactly(h.mem, ORG + s.brk, Image(ORG + s.brk, o));
  }

  lemma AcceptsPointer(s: Store, cap: nat, offset: int)
    ensures Accepts(s, cap, offset, 4) <==>
            Aimed(s, s.brk, offset) && 0 <= Landing(s, offset) && Landing(s, offset) + 4 <= cap
  {
    hide Aimed, Landing;
  }

  /**
   Which strings are accepted, at any base: the target's first byte is below the break as
   it was, all four are in the region, and so is the object.
   */
  lemma TextAcceptedExactly(s: Store, init: seq<byte>, h: Heap, offset: int, t: seq<byte>)
    requires Agrees(s, init, h)
    ensures LoadText(h, offset, t).Ok? <==> Accepts(s, |h.mem|, offset, 4) && s.brk + 40 + |t| <= |h.mem|
    ensures LoadText(h, offset, t).Ok? ==>
              var h1 := LoadText(h, offset, t).value;
              && h1 == h.(mem := h1.mem, brk := s.brk + Block(|t|)) && |h1.mem| == |h.mem|
              && h1.mem[Landing(s, offset)..Landing(s, offset) + 4] == LE(0x80000 + s.brk + 24, 4)
  {
    hide Agrees, Landing, BaseAddress, Dest, Allocate, LE, Block, Accepts, Aimed, WritePointer;
    AcceptsPointer(s, |h.mem|, offset);
    DestExactly(s, init, h, s.brk, offset);
    ImageFits(s, init, h, TextBody(t));
    if Allocate(h, TextBody(t)).Ok? && Dest(h, offset).Ok? {
      PointerTarget(Allocate(h, TextBody(t)).value.0, Dest(h, offset).value, 0x80000 + s.brk + 24);
    }
  }

  lemma PointerTarget(h: Heap, dest: nat, p: nat)
    ensures WritePointer(h, dest, p).Ok? <==> 0 <= dest - 0x80000 && dest - 0x80000 + 4 <= |h.mem|
    ensures WritePointer(h, dest, p).Ok? ==>
              var h1 := WritePointer(h, dest, p).value;
              h1 == h.(mem := h1.mem) && |h1.mem| == |h.mem| && h1.mem[dest - 0x80000..dest - 0x80000 + 4] == LE(p, 4)
  {
    hide LE, Poke;
    PokeExactly(h.mem, dest, LE(p, 4));
  }

  /**
   Which arrays are accepted, at any base: type and length must be known and their product
   32 bits wide, and header and descriptor in the region. The payload is not compared with
   the region's end, and the target is compared with the break behind the new array.
   */
  lemma ArrayAcceptedExactly(s: Store, init: seq<byte>, h: Heap, offset: int, sizes: seq<int>, typ: int, len: int)
    requires Agrees(s, init, h)
    ensures LoadArray(h, offset, sizes, typ, len).Ok? <==>
            && 0 <= typ < |sizes| && len >= 0 && 0 <= sizes[typ] * len < 0x8000_0000
            && s.brk + 40 <= |h.mem| && Aimed(s, s.brk + Block(sizes[typ] * len), offset)
            && 0 <= Landing(s, offset) && Landing(s, offset) + 4 <= |h.mem|
    ensures LoadArray(h, offset, sizes, typ, len).Ok? ==>
              var h1 := LoadArray(h, offset, sizes, typ, len).value;
              && h1 == h.(mem := h1.mem, brk := s.brk + Block(sizes[typ] * len), last := 0x80000 + s.brk)
              && |h1.mem| == |h.mem|
              && h1.mem[Landing(s, offset)..Landing(s, offset) + 4] == LE(0x80000 + s.brk + 24, 4)
  {
    Widths();
    if 0 <= typ < |sizes| && len >= 0 && 0 <= sizes[typ] * len < 0x8000_0000 {
      NewArrayAccepted(s, init, h, offset, sizes, typ, len, sizes[typ] * len);
    }
  }

  lemma NewArrayAccepted(
      s: Store, init: seq<byte>, h: Heap, offset: int, sizes: seq<int>, typ: nat, len: nat, span: nat)
    requires Agrees(s, init, h) && typ < |sizes| && span == sizes[typ] * len < 0x8000_0000
    ensures var r, brk := LoadArray(h, offset, sizes, typ, len), s.brk + Block(span);
            && (r.Ok? <==> && s.brk + 40 <= |h.mem| && Aimed(s, brk, offset)
                           && 0 <= Landing(s, offset) && Landing(s, offset) + 4 <= |h.mem|)
            && (r.Ok? ==> && r.value == h.(mem := r.value.mem, brk := brk, last := 0x80000 + s.brk)
                          && |r.value.mem| == |h.mem|
                          && r.value.mem[Landing(s, offset)..Landing(s, offset) + 4] == LE(0x80000 + s.brk + 24, 4))
  {
    hide Agrees, Landing, BaseAddress, Dest, Allocate, LE, Block, Aimed, WritePointer;
    Widths();
    var o := ArrayBody(typ, len, span, h.last);
    ImageFits(s, init, h, o);
    DestExactly(s, init, h, s.brk + Block(span), offset);
    if Allocate(h, o).Ok? {
      var h1 := Allocate(h, o).value.0;
      DestIgnoresBytes(h.(brk := h1.brk), h1, offset);
      if Dest(h1, offset).Ok? {
        PointerTarget(h1, Dest(h1, offset).value, 0x80000 + s.brk + 24);
      }
    }
  }

  lemma DestIgnoresBytes(h: Heap, h1: Heap, offset: int)
    requires h1 == h.(mem := h1.mem)
    ensures Dest(h1, offset) == Dest(h, offset)
  {
  }

  // Damage

  /** Where the address does not wrap, the landing is the target; in the module data, the offset. */
  lemma LandingIsTarget(s: Store, init: seq<byte>, h: Heap, offset: nat)
    requires Agrees(s, init, h) && offset <= s.brk
    ensures BaseAddress(s) + offset < TWO_TO_THE_32 ==> Landing(s, offset) == TargetIndex(s, offset)
    ensures s.cur.place == InModule ==> Landing(s, offset) == offset
    ensures s.cur.place == InModule ==>
              forall n :: Accepts(s, |h.mem|, offset, n) <==> offset < s.brk && offset + n <= |h.mem|
  {
    hide Tiled, Images, CellsValid, CellsAgree, LastRoot;
  }

  /** `n` bytes at `t` lie outside every object's header, descriptor and text. */
  predicate ClearOf(objs: seq<Obj>, t: int, n: nat) {
    forall o :: o in objs ==> t + n <= o.at || o.at + |Image(ORG + o.at, o.body)| <= t
  }

  predicate AllInRange(kind: Kind, vals: seq<int>) {
    forall v :: v in vals ==> kind.InRange(v)
  }

  /** Whatever the `n` values are, the write leaves every object intact. */
  ghost predicate Harmless(s: Store, h: Heap, offset: int, kind: Kind, n: nat) {
    forall vals: seq<int> :: |vals| == n && AllInRange(kind, vals) ==>
      WriteScalars(h, offset, kind, vals).Ok? && Images(WriteScalars(h, offset, kind, vals).value.mem, s.objs)
  }

  /** The safe direction, for any values. */
  lemma ClearIsHarmless(s: Store, init: seq<byte>, h: Heap, offset: int, kind: Kind, vals: seq<int>)
    requires Agrees(s, init, h) && vals != [] && Accepts(s, |h.mem|, offset, |vals| * kind.Width())
    requires ClearOf(s.objs, Landing(s, offset), |vals| * kind.Width())
    ensures WriteScalars(h, offset, kind, vals).Ok?
    ensures Images(WriteScalars(h, offset, kind, vals).value.mem, s.objs)
  {
    assert Images(h.mem, s.objs);
    hide Agrees, Cells, Images, ClearOf, Landing, Accepts, WriteScalars, Kind.Width;
    AcceptedExactly(s, init, h, offset, kind, vals);
    CellsLength(kind, vals);
    ImagesClear(h.mem, s.objs, Landing(s, offset), Cells(kind, vals));
  }

  lemma ImagesClear(m: seq<byte>, objs: seq<Obj>, t: nat, bs: seq<byte>)
    requires Images(m, objs) && ClearOf(objs, t, |bs|) && t + |bs| <= |m|
    ensures Images(Splice(m, t, bs), objs)
  {
    hide Image;
    forall k | 0 <= k < |objs|
      ensures HasImage(Splice(m, t, bs), objs[k])
    {
      var o := objs[k];
      assert o in objs && HasImage(m, o);
      SpliceElsewhere(m, t, bs, o.at, |Image(ORG + o.at, o.body)|);
    }
  }

  // Two writes that cannot both leave an object intact

  /** `n` scalars whose bytes are all `c`: 0 or 0xFF. */
  function Fill(kind: Kind, n: nat, ones: bool): (vals: seq<int>)
    ensures |vals| == n
  {
    seq(n, i => if !ones then 0 else if kind.Int32? || kind.Int64? then -1 else Pow256(kind.Width()) - 1)
  }

  function FillByte(ones: bool): byte {
    if ones then 0xFF else 0
  }

  lemma {:induction false} FillWord(v: int, w: nat, ones: bool)
    requires v == if ones then -1 else 0
    ensures forall i :: 0 <= i < w ==> LE(v, w)[i] == FillByte(ones)
    decreases w
  {
    if w > 0 {
      assert v / 256 == v;
      FillWord(v, w - 1, ones);
    }
  }

  lemma {:induction false} TopValue(v: int, w: nat)
    requires v == Pow256(w) - 1
    ensures forall i :: 0 <= i < w ==> LE(v, w)[i] == 0xFF
    decreases w
  {
    if w > 0 {
      assert v / 256 == Pow256(w - 1) - 1 && v % 256 == 0xFF;
      TopValue(v / 256, w - 1);
    }
  }

  lemma FillCell(kind: Kind, n: nat, ones: bool, j: nat, i: nat)
    requires j < n && i < kind.Width()
    ensures kind.InRange(Fill(kind, n, ones)[j]) && LE(Fill(kind, n, ones)[j], kind.Width())[i] == FillByte(ones)
  {
    hide LE;
    Widths();
    FillWord(if ones then -1 else 0, kind.Width(), ones);
    TopValue(Pow256(kind.Width()) - 1, kind.Width());
  }

  lemma FillInRange(kind: Kind, n: nat, ones: bool)
    ensures AllInRange(kind, Fill(kind, n, ones))
  {
    forall v | v in Fill(kind, n, ones)
      ensures kind.InRange(v)
    {
      var j :| 0 <= j < n && Fill(kind, n, ones)[j] == v;
      FillCell(kind, n, ones, j, 0);
    }
  }

  lemma FillCells(kind: Kind, n: nat, ones: bool, x: nat)
    requires x < n * kind.Width()
    ensures Cells(kind, Fill(kind, n, ones))[x] == FillByte(ones)
  {
    hide Fill, LE, Cells, Has;
    var w, vals := kind.Width(), Fill(kind, n, ones);
    var j, i := x / w, x % w;
    assert x == j * w + i && j < n;
    CellsHold(kind, vals, j);
    HasSlice(Cells(kind, vals), j * w, LE(vals[j], w));
    assert Cells(kind, vals)[j * w..j * w + w][i] == Cells(kind, vals)[x];
    FillCell(kind, n, ones, j, i);
  }

  /** A byte of an object's image that the write covers. */
  lemma CoveredByte(s: Store, init: seq<byte>, h: Heap, offset: int, kind: Kind, n: nat, o: Obj, ones: bool)
    requires Agrees(s, init, h) && Accepts(s, |h.mem|, offset, n * kind.Width()) && n > 0
    requires Harmless(s, h, offset, kind, n) && o in s.objs
    requires !(Landing(s, offset) + n * kind.Width() <= o.at)
    requires !(o.at + |Image(ORG + o.at, o.body)| <= Landing(s, offset))
    ensures var x := Max(0, Landing(s, offset) - o.at); Image(ORG + o.at, o.body)[x] == FillByte(ones)
  {
    hide Agrees, Accepts, Landing, Image, HasImage, Cells, Fill, WriteScalars, Kind.Width;
    var vals, t := Fill(kind, n, ones), Landing(s, offset);
    FillInRange(kind, n, ones);
    AcceptedExactly(s, init, h, offset, kind, vals);
    CellsLength(kind, vals);
    var m := WriteScalars(h, offset, kind, vals).value.mem;
    assert Images(m, s.objs);
    var k :| 0 <= k < |s.objs| && s.objs[k] == o;
    assert HasImage(m, o);
    hide Images, Harmless;
    var x := Max(0, t - o.at);
    ImageByte(m, o, x);
    FillCells(kind, n, ones, o.at + x - t);
  }

  lemma ImageByte(m: seq<byte>, o: Obj, x: nat)
    requires HasImage(m, o) && x < |Image(ORG + o.at, o.body)|
    ensures o.at + x < |m| && m[o.at + x] == Image(ORG + o.at, o.body)[x]
  {
    hide Image;
    var e := Image(ORG + o.at, o.body);
    assert m[o.at..o.at + |e|][x] == m[o.at + x];
  }

  /**
   An accepted write can damage an object exactly when it overlaps one: every choice of
   values leaves all headers, descriptors and texts intact if and only if the bytes
   written lie outside all of them.
   */
  lemma DamageExactly(s: Store, init: seq<byte>, h: Heap, offset: int, kind: Kind, n: nat)
    requires Agrees(s, init, h) && n > 0 && Accepts(s, |h.mem|, offset, n * kind.Width())
    ensures Harmless(s, h, offset, kind, n) <==> ClearOf(s.objs, Landing(s, offset), n * kind.Width())
  {
    hide Agrees, Accepts, Landing, Image, Images, WriteScalars;
    if ClearOf(s.objs, Landing(s, offset), n * kind.Width()) {
      forall vals: seq<int> | |vals| == n && AllInRange(kind, vals)
        ensures WriteScalars(h, offset, kind, vals).Ok?
        ensures Images(WriteScalars(h, offset, kind, vals).value.mem, s.objs)
      {
        ClearIsHarmless(s, init, h, offset, kind, vals);
      }
    }
    if Harmless(s, h, offset, kind, n) {
      hide Harmless;
      forall o | o in s.objs
        ensures Landing(s, offset) + n * kind.Width() <= o.at ||
                o.at + |Image(ORG + o.at, o.body)| <= Landing(s, offset)
      {
        if !(Landing(s, offset) + n * kind.Width() <= o.at) &&
           !(o.at + |Image(ORG + o.at, o.body)| <= Landing(s, offset))
        {
          CoveredByte(s, init, h, offset, kind, n, o, false);
          CoveredByte(s, init, h, offset, kind, n, o, true);
        }
      }
    }
  }

  // The end of the module data

  /** The first byte of an intact object is 0. */
  lemma FirstByte(m: seq<byte>, o: Obj)
    requires HasImage(m, o)
    ensures o.at < |m| && m[o.at] == 0
  {
  }

  /** An accepted word on the last byte of the module data runs into the first object's header. */
  lemma OverrunDamagesHeader(s: Store, init: seq<byte>, h: Heap)
    requires Agrees(s, init, h) && s.cur.place == InModule && s.objs != [] && s.size > 0
    ensures Accepts(s, |h.mem|, s.size - 1, 4) && !Harmless(s, h, s.size - 1, Int32, 1)
    ensures WriteScalars(h, s.size - 1, Int32, [-1]).Ok?
    ensures !HasImage(WriteScalars(h, s.size - 1, Int32, [-1]).value.mem, s.objs[0])
  {
    hide Agrees, Cells, Image, Accepts, Landing, Harmless, ClearOf, WriteScalars, HasImage;
    OverrunAccepted(s, init, h);
    DamageExactly(s, init, h, s.size - 1, Int32, 1);
    AcceptedExactly(s, init, h, s.size - 1, Int32, [-1]);
    OnesDamage(h.mem, s.size - 1, s.objs[0]);
  }

  lemma OverrunAccepted(s: Store, init: seq<byte>, h: Heap)
    requires Agrees(s, init, h) && s.cur.place == InModule && s.objs != [] && s.size > 0
    ensures Accepts(s, |h.mem|, s.size - 1, 4) && Landing(s, s.size - 1) == s.size - 1
    ensures !ClearOf(s.objs, s.size - 1, 4) && s.objs[0].at == s.size && s.size + 3 <= |h.mem|
  {
    hide Agrees, Accepts, Landing, Image;
    FirstBlock(s, init, h);
    LandingIsTarget(s, init, h, s.size - 1);
  }

  /** A word of ones whose second byte is the first of an object. */
  lemma OnesDamage(m: seq<byte>, i: nat, o: Obj)
    requires o.at == i + 1 && i + 4 <= |m|
    ensures !HasImage(Splice(m, i, Cells(Int32, [-1])), o)
  {
    hide LE, Cells, HasImage, Splice;
    FillWord(-1, 4, true);
    OneCell(-1);
    var r := Splice(m, i, Cells(Int32, [-1]));
    assert r[o.at] == 0xFF;
    if HasImage(r, o) {
      FirstByte(r, o);
    }
  }

  lemma OneCell(v: int)
    ensures Cells(Int32, [v]) == LE(v, 4)
  {
    assert Cells(Int32, [v]) == LE(v, 4) + Cells(Int32, []);
  }

  lemma FirstBlock(s: Store, init: seq<byte>, h: Heap)
    requires Agrees(s, init, h) && s.objs != []
    ensures s.objs[0] in s.objs && s.objs[0].at == s.size
    ensures s.size + HEADER <= s.size + |Image(ORG + s.size, s.objs[0].body)| <= s.brk == h.brk <= |h.mem|
  {
    hide Images, CellsValid, CellsAgree, LastRoot;
    assert NextBlock(s.objs[0]) <= s.brk;
  }
}
