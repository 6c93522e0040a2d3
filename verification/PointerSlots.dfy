/**
 The words of the module data that the pointer map marks: they start as null pointers and
 stay pointers while a stream is loaded that writes no scalars into them.
 */
module PointerSlots {
  import opened Bytes
  import opened ObjectFile
  import opened HeapModel
  import opened Store
  import opened Refinement
  import opened HeapLayout
  import opened Targets

  // Pointer slots hold pointers

  /** Word `w` lies in the module data. */
  predicate Slot(s: Store, map_: seq<byte>, w: nat) {
    Marked(map_, w) && 4 * w + 4 <= s.size
  }

  /** Byte offset `at` belongs to a marked word. */
  predicate SlotByte(s: Store, map_: seq<byte>, at: nat) {
    Slot(s, map_, at / 4)
  }

  /** The `n` bytes at `offset` from the base touch no marked word of the module data. */
  ghost predicate ClearOfSlots(s: Store, map_: seq<byte>, offset: nat, n: nat) {
    forall l: Loc :: Covers(s, offset, n, l) && l.place == InModule ==> !SlotByte(s, map_, l.at)
  }

  /** A target that touches a marked word is that of a pointer, and word-aligned. */
  ghost predicate Typed(s: Store, map_: seq<byte>, it: Item) {
    HasTarget(it.payload) && it.offset >= 0 && !ClearOfSlots(s, map_, it.offset, Width(it.payload)) ==>
      !it.payload.Scalars? && (s.cur.start + it.offset) % 4 == 0
  }

  ghost predicate TypedStream(s: Store, cap: nat, sizes: seq<int>, map_: seq<byte>, items: seq<Item>)
    requires WellFormed(s, cap, sizes, items)
    decreases |items|
  {
    items == [] ||
    (Typed(s, map_, items[0]) && TypedStream(Step(s, cap, sizes, items[0]), cap, sizes, map_, items[1..]))
  }

  /** A slot was never written, or holds the four bytes of one pointer. */
  ghost predicate SlotSafe(s: Store, w: nat) {
    || (forall l: Loc :: l.place == InModule && l.at / 4 == w ==> l !in s.cells)
    || (exists k: nat :: k < |s.objs| && Holds(s, InModule, 4 * w, Pointer(k)))
  }

  ghost predicate SlotsSafe(s: Store, map_: seq<byte>) {
    forall w: nat :: Slot(s, map_, w) ==> SlotSafe(s, w)
  }

  /** A write that misses a slot leaves it as it was. */
  lemma UpdateMisses(s: Store, offset: nat, syms: seq<Sym>, w: nat)
    requires SlotSafe(s, w)
    requires forall l: Loc :: Covers(s, offset, |syms|, l) && l.place == InModule ==> l.at / 4 != w
    ensures SlotSafe(Update(s, offset, syms), w)
  {
    var s' := Update(s, offset, syms);
    forall l: Loc {
      UpdateLookup(s, offset, syms, l);
    }
    if k: nat :| k < |s.objs| && Holds(s, InModule, 4 * w, Pointer(k)) {
      assert Holds(s', InModule, 4 * w, Pointer(k));
    }
  }

  lemma CreateSafe(s: Store, o: Body, w: nat)
    requires SlotSafe(s, w)
    ensures SlotSafe(Create(s, o), w)
  {
  }

  lemma PointerSafe(s: Store, map_: seq<byte>, offset: nat, k: nat, w: nat)
    requires SlotSafe(s, w) && Slot(s, map_, w) && k < |s.objs|
    requires s.cur.start + offset + 4 <= Extent(s, s.cur.place)
    requires ClearOfSlots(s, map_, offset, 4) || (s.cur.start + offset) % 4 == 0
    ensures SlotSafe(Update(s, offset, Pointer(k)), w)
  {
    hide Update, Holds, SlotSafe, Slot;
    var s' := Update(s, offset, Pointer(k));
    if s.cur.place == InModule && s.cur.start + offset == 4 * w {
      UpdateHolds(s, offset, Pointer(k));
      UpdateKeeps(s, offset, Pointer(k));
      SafeIfHolds(s', w, k);
    } else {
      UpdateMisses(s, offset, Pointer(k), w);
    }
  }

  lemma SafeIfHolds(s: Store, w: nat, k: nat)
    requires k < |s.objs| && Holds(s, InModule, 4 * w, Pointer(k))
    ensures SlotSafe(s, w)
  {
  }

  lemma StepSafe(s: Store, cap: nat, sizes: seq<int>, map_: seq<byte>, it: Item)
    requires Fits(s, cap, sizes, it) && Typed(s, map_, it) && SlotsSafe(s, map_)
    ensures SlotsSafe(Step(s, cap, sizes, it), map_)
  {
    hide Update, Marked, BlockSize, SlotSafe;
    var s' := Step(s, cap, sizes, it);
    StepKeepsSize(s, cap, sizes, it);
    forall w: nat | Slot(s', map_, w)
      ensures SlotSafe(s', w)
    {
      assert Slot(s, map_, w) && SlotSafe(s, w);
      match it.payload
      case Scalars(kind, vals) =>
        var syms := Literals(Cells(kind, vals));
        assert ClearOfSlots(s, map_, it.offset, |syms|);
        UpdateMisses(s, it.offset, syms, w);
      case Text(_) | Array(_, _) =>
        var o := BodyOf(s, sizes, it.payload);
        CreateSafe(s, o, w);
        PointerSafe(Create(s, o), map_, it.offset, |s.objs|, w);
      case _ => CursorSafe(s, s', w);
    }
  }

  lemma StepKeepsSize(s: Store, cap: nat, sizes: seq<int>, it: Item)
    requires Fits(s, cap, sizes, it)
    ensures Step(s, cap, sizes, it).size == s.size
  {
  }

  lemma CursorSafe(s: Store, s': Store, w: nat)
    requires s' == s.(cur := s'.cur, stack := s'.stack) && SlotSafe(s, w)
    ensures SlotSafe(s', w)
  {
  }

  lemma {:induction false} RunSafe(s: Store, cap: nat, sizes: seq<int>, map_: seq<byte>, items: seq<Item>)
    requires WellFormed(s, cap, sizes, items) && TypedStream(s, cap, sizes, map_, items) && SlotsSafe(s, map_)
    ensures SlotsSafe(Run(s, cap, sizes, items), map_)
    decreases |items|
  {
    if items != [] {
      hide Fits, Step, Typed, SlotsSafe;
      StepSafe(s, cap, sizes, map_, items[0]);
      RunSafe(Step(s, cap, sizes, items[0]), cap, sizes, map_, items[1..]);
    }
  }

  /** What the word of a safe slot is, in the bytes. */
  lemma SafeSlotReads(s: Store, map_: seq<byte>, n: nat, h: Heap, w: nat)
    requires Agrees(s, FreshMemory(map_, n), h) && Slot(s, map_, w) && SlotSafe(s, w)
    ensures 4 * w + 4 <= |h.mem|
    ensures ReadWord(h.mem, 4 * w) == VM_NULLPTR
            || exists k :: 0 <= k < |s.objs| && ReadWord(h.mem, 4 * w) == DataAddress(s, k)
  {
    hide Holds, DataAddress, Agrees, ReadWord, FreshMemory, Marked;
    if k: nat :| k < |s.objs| && Holds(s, InModule, 4 * w, Pointer(k)) {
      PointerReads(s, FreshMemory(map_, n), h, InModule, 4 * w, k);
    } else {
      UntouchedSlot(s, map_, n, h, w);
    }
  }

  lemma UntouchedSlot(s: Store, map_: seq<byte>, n: nat, h: Heap, w: nat)
    requires Agrees(s, FreshMemory(map_, n), h) && Slot(s, map_, w)
    requires forall l: Loc :: l.place == InModule && l.at / 4 == w ==> l !in s.cells
    ensures 4 * w + 4 <= |h.mem| && ReadWord(h.mem, 4 * w) == VM_NULLPTR
  {
    hide Tiled, Images, StackAgrees, LastRoot, Marked;
    var m := h.mem;
    assert 4 * w + 4 <= s.size <= |m|;
    forall i | 4 * w <= i < 4 * w + 4
      ensures m[i] == 0xFF
    {
      var l := Loc(InModule, i);
      assert l.at / 4 == w && Valid(s, l) && Index(s, l) == i;
      assert m[Index(s, l)] == Content(s, FreshMemory(map_, n), l);
    }
    HasAll(m, 4 * w, [0xFF, 0xFF, 0xFF, 0xFF]);
    hide Agrees;
    AllOnes(m, 4 * w);
  }

  lemma AllOnes(m: seq<byte>, i: nat)
    requires Has(m, i, [0xFF, 0xFF, 0xFF, 0xFF])
    ensures ReadWord(m, i) == VM_NULLPTR
  {
  }

  /**
   Pointer slots stay safe: after any well-formed stream that keeps scalars out of the
   marked words, each marked word of the module data is the null pointer or the data
   address of an object the heap holds.
   */
  lemma PointerSlotsAreSafe(t: TypeDesc, sizes: seq<int>, items: seq<Item>, w: nat)
    requires FreshHeap(t).Ok? && InSigned(t.size, 4)
    requires WellFormed(Empty(t.size), |FreshHeap(t).value.mem|, sizes, items)
    requires TypedStream(Empty(t.size), |FreshHeap(t).value.mem|, sizes, t.map_, items)
    requires Marked(t.map_, w) && 4 * w + 4 <= t.size
    ensures LoadAll(FreshHeap(t).value, sizes, items).Ok?
    ensures var h := LoadAll(FreshHeap(t).value, sizes, items).value;
            var s := Run(Empty(t.size), |FreshHeap(t).value.mem|, sizes, items);
            && Agrees(s, FreshHeap(t).value.mem, h)
            && 4 * w + 4 <= |h.mem|
            && (ReadWord(h.mem, 4 * w) == VM_NULLPTR
                || exists k :: 0 <= k < |s.objs| && ReadWord(h.mem, 4 * w) == DataAddress(s, k))
  {
    hide WellFormed, TypedStream, LoadAll, Run, Agrees, Marked, MapFits, ReadWord, DataAddress, FreshMemory;
    var h0, s0 := FreshHeap(t).value, Empty(t.size);
    FreshAgrees(t);
    RunAgrees(s0, h0.mem, h0, sizes, items);
    EmptySafe(t.size, t.map_);
    RunSafe(s0, |h0.mem|, sizes, t.map_, items);
    ObjectsStay(s0, |h0.mem|, sizes, items);
    var s := Run(s0, |h0.mem|, sizes, items);
    assert Slot(s, t.map_, w) && SlotSafe(s, w);
    hide SlotSafe, SlotsSafe;
    SafeSlotReads(s, t.map_, t.size + HEAP_SIZE / 2, LoadAll(h0, sizes, items).value, w);
  }

  lemma EmptySafe(size: nat, map_: seq<byte>)
    ensures SlotsSafe(Empty(size), map_)
  {
  }
}
