/**
 The read that follows the data loop: whatever the module, the loader takes the word at
 offset 312 for a pointer to an array and prints that array's words. It is part of what
 decides whether a module loads.
 */
module DebugRead {
  import opened Bytes
  import opened HeapModel
  import opened Store
  import opened Refinement
  import opened HeapLayout
  import opened Targets
  import opened PointerSlots
  import opened ModuleHeap

  const DEBUG_OFFSET: nat := 312

  /** The array descriptor the word at that offset points to. */
  function DebugArray(h: Heap): Result<ArrayDesc> {
    if DEBUG_OFFSET > h.brk || DEBUG_OFFSET + 4 > |h.mem| then Fail
    else ArrayAt(h.mem, ReadWord(h.mem, DEBUG_OFFSET))
  }

  /** `n` words from address `data` on can be read, with a 32-bit signed offset and no wrap-around. */
  predicate WordsReadable(m: seq<byte>, data: nat, n: int) {
    n > 0 ==>
      && ORG <= data && data + 4 * n <= ORG + |m|
      && InSigned(4 * (n - 1), 4) && data + 4 * (n - 1) < TWO_TO_THE_32
  }

  /** The debug read gets through. */
  predicate DebugReads(h: Heap) {
    && DebugArray(h).Ok?
    && WordsReadable(h.mem, DebugArray(h).value.data, Signed(DebugArray(h).value.len, 4))
  }

  /** Word `i` of them can be read. */
  predicate WordReadable(m: seq<byte>, data: nat, i: nat) {
    && InSigned(4 * i, 4) && data + 4 * i < TWO_TO_THE_32
    && ORG <= data + 4 * i && data + 4 * i + 4 <= ORG + |m|
  }

  lemma OneMoreWord(m: seq<byte>, data: nat, i: nat, n: int)
    requires WordsReadable(m, data, i) && i < n
    ensures WordReadable(m, data, i) ==> WordsReadable(m, data, i + 1)
    ensures WordsReadable(m, data, n) ==> WordReadable(m, data, i)
    ensures WordReadable(m, data, i) ==> ORG <= data + 4 * i && data + 4 * i + 4 <= ORG + |m|
  {
  }

  lemma NoWords(m: seq<byte>, data: nat, n: int)
    ensures n <= 0 ==> WordsReadable(m, data, n)
  {
  }

  /** Reads the array's length, a signed word, and that many words; it returns what is printed. */
  method PrintArray(heap: ModuleHeap) returns (r: Result<seq<nat>>)
    ensures r.Ok? <==> DebugReads(heap.State())
    ensures r.Ok? ==>
              var m, a := heap.State().mem, DebugArray(heap.State()).value;
              && |r.value| == Max(0, Signed(a.len, 4))
              && forall i :: 0 <= i < |r.value| ==> WordAtIndex(m, a.data, i, r.value[i])
  {
    hide ReadWord, WordsReadable, WordReadable, Signed, ArrayAt;
    var m := heap.region[..];
    if DEBUG_OFFSET > heap.brk || DEBUG_OFFSET + 4 > |m| {
      return Fail;
    }
    var a :- ArrayAt(m, ReadWord(m, DEBUG_OFFSET));
    var len := Signed(a.len, 4);
    var words: seq<nat> := [];
    NoWords(m, a.data, len);
    NoWords(m, a.data, 0);
    while |words| < len
      invariant |words| <= Max(0, len)
      invariant WordsReadable(m, a.data, |words|)
      invariant forall j :: 0 <= j < |words| ==> WordAtIndex(m, a.data, j, words[j])
    {
      var i := |words|;
      OneMoreWord(m, a.data, i, len);
      if !WordReadable(m, a.data, i) {
        return Fail;
      }
      words := words + [ReadWord(m, a.data + 4 * i - ORG)];
    }
    r := Ok(words);
  }

  /** `v` is word `i` of those at `data`. */
  predicate WordAtIndex(m: seq<byte>, data: nat, i: nat, v: nat) {
    && ORG <= data + 4 * i && data + 4 * i + 4 <= ORG + |m|
    && v == ReadWord(m, data + 4 * i - ORG)
  }

  /** Number of elements of an array, of bytes of a string: what the length field holds. */
  function LengthField(o: Body): nat {
    match o
    case TextBody(t) => |t|
    case ArrayBody(_, len, _, _) => len
  }

  lemma RegionOf(s: Store, init: seq<byte>, h: Heap)
    requires Agrees(s, init, h)
    ensures s.size <= s.brk == h.brk <= |h.mem| == |init| && ORG + |h.mem| < TWO_TO_THE_32
  {
    hide Tiled, Images, CellsValid, CellsAgree, StackAgrees, LastRoot;
  }

  lemma HoldsInside(s: Store, k: nat)
    requires Holds(s, InModule, 312, Pointer(k))
    ensures 316 <= s.size
  {
  }

  lemma DescriptorReads(s: Store, init: seq<byte>, h: Heap, k: nat)
    requires Agrees(s, init, h) && Rooted(s.objs) && k < |s.objs|
    ensures var d := ArrayAt(h.mem, DataAddress(s, k));
            && d.Ok? && d.value.len == LengthField(s.objs[k].body)
            && d.value.data == ORG + s.objs[k].at + HEADER + DESCRIPTOR
  {
    hide CellsValid, CellsAgree, StackAgrees, LastRoot, HasImage, ReadWord;
    var o, m := s.objs[k], h.mem;
    assert HasImage(m, o) && NextBlock(o) <= s.brk;
    assert o.body.TextBody? ==> |o.body.text| < NextBlock(o);
    assert o.body.ArrayBody? ==> o.body.len < TWO_TO_THE_32;
    hide Tiled, Images, RoundUp4, Rooted;
    PrologueAt(m, o, 6);
    PrologueAt(m, o, 9);
  }

  /**
   Where the module data holds a pointer to an object of the heap at that offset, the read
   gets through exactly when as many words as the object has elements fit behind its
   descriptor, which only word-sized elements promise.
   */
  lemma DebugReadFollows(s: Store, init: seq<byte>, h: Heap, k: nat)
    requires Agrees(s, init, h) && Rooted(s.objs) && k < |s.objs|
    requires Holds(s, InModule, 312, Pointer(k)) && InSigned(LengthField(s.objs[k].body), 4)
    ensures var n := LengthField(s.objs[k].body);
            DebugReads(h) <==>
            n == 0 || (s.objs[k].at + HEADER + DESCRIPTOR + 4 * n <= |h.mem| && InSigned(4 * (n - 1), 4))
  {
    var n, data := LengthField(s.objs[k].body), ORG + s.objs[k].at + HEADER + DESCRIPTOR;
    hide Agrees, Holds, Rooted, ReadWord, ArrayAt, DataAddress, Pointer, InSigned, LengthField, WordsReadable, Signed,
         DebugReads;
    HoldsInside(s, k);
    RegionOf(s, init, h);
    PointerReads(s, init, h, InModule, DEBUG_OFFSET, k);
    DescriptorReads(s, init, h, k);
    SignedSmall(n);
    DebugReadIs(h, DataAddress(s, k), n, data);
    WordsInRegion(h.mem, data, n);
  }

  lemma DebugReadIs(h: Heap, p: nat, n: nat, data: nat)
    requires DEBUG_OFFSET <= h.brk && DEBUG_OFFSET + 4 <= |h.mem| && ReadWord(h.mem, DEBUG_OFFSET) == p
    requires ArrayAt(h.mem, p).Ok? && ArrayAt(h.mem, p).value.len == n && ArrayAt(h.mem, p).value.data == data
    ensures DebugReads(h) <==> WordsReadable(h.mem, data, Signed(n, 4))
  {
    hide ReadWord, ArrayAt, WordsReadable, Signed;
  }

  /** A length whose top bit is set is negative: nothing is read. */
  lemma NegativeLength(h: Heap)
    requires h.brk >= 312 && |h.mem| >= 316
    requires var d := ArrayAt(h.mem, ReadWord(h.mem, 312)); d.Ok? && d.value.len >= 0x8000_0000
    ensures DebugReads(h)
  {
    Widths();
    hide ReadWord;
    WordBounds(h.mem, ReadWord(h.mem, 312) - ORG);
  }

  lemma WordBounds(m: seq<byte>, i: nat)
    requires i + 4 <= |m|
    ensures ReadWord(m, i) < TWO_TO_THE_32
  {
    Widths();
  }

  lemma WordsInRegion(m: seq<byte>, data: nat, n: nat)
    requires ORG <= data && ORG + |m| < TWO_TO_THE_32
    ensures WordsReadable(m, data, n) <==> n == 0 || (data + 4 * n <= ORG + |m| && InSigned(4 * (n - 1), 4))
  {
  }

  lemma SignedSmall(n: nat)
    requires InSigned(n, 4)
    ensures Signed(n, 4) == n
  {
  }

  /** Where nothing is written to that word of the module data, or the break is below it, the read fails. */
  lemma DebugReadUntouched(s: Store, map_: seq<byte>, n: nat, h: Heap)
    requires Agrees(s, FreshMemory(map_, n), h)
    requires s.size < 316 ==> s.brk < 312
    requires forall l: Loc :: l.place == InModule && l.at / 4 == 78 ==> l !in s.cells
    ensures !DebugReads(h)
  {
    RegionOf(s, FreshMemory(map_, n), h);
    hide Marked, Agrees, ReadWord, FreshMemory;
    if s.size >= DEBUG_OFFSET + 4 {
      if Marked(map_, DEBUG_OFFSET / 4) {
        UntouchedSlot(s, map_, n, h, DEBUG_OFFSET / 4);
      } else {
        UntouchedZero(s, map_, n, h, DEBUG_OFFSET / 4);
      }
    }
  }

  lemma UntouchedZero(s: Store, map_: seq<byte>, n: nat, h: Heap, w: nat)
    requires Agrees(s, FreshMemory(map_, n), h) && !Marked(map_, w) && 4 * w + 4 <= s.size
    requires forall l: Loc :: l.place == InModule && l.at / 4 == w ==> l !in s.cells
    ensures 4 * w + 4 <= |h.mem| && ReadWord(h.mem, 4 * w) == 0
  {
    hide Tiled, Images, StackAgrees, LastRoot, Marked;
    var m := h.mem;
    assert 4 * w + 4 <= s.size <= |m|;
    forall i | 4 * w <= i < 4 * w + 4
      ensures m[i] == 0
    {
      var l := Loc(InModule, i);
      assert l.at / 4 == w && Valid(s, l) && Index(s, l) == i;
      assert m[Index(s, l)] == Content(s, FreshMemory(map_, n), l);
    }
    hide Agrees;
    assert m[4 * w..4 * w + 4] == [0, 0, 0, 0];
    ZeroWord();
  }

  lemma ZeroWord()
    ensures FromLE([0, 0, 0, 0]) == 0
  {
  }
}
