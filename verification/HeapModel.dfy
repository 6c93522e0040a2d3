/**
 The module heap as a value, and what each loader operation makes of it. One byte region
 holds the module data at its start and, above it, the objects allocated so far. All
 addresses are 32-bit addresses; the region starts at `ORG`.
 */
module HeapModel {
  import opened Bytes
  import opened ObjectFile

  /** Where the region is mapped, and how much of it lies above the module data. */
  const ORG: nat := 0x80000
  const HEAP_SIZE: nat := 1024 * 1024
  const VM_NULLPTR: nat := 0xFFFF_FFFF

  /** Sizes of an object header (padding included) and of a string or array descriptor. */
  const HEADER: nat := 24
  const DESCRIPTOR: nat := 16

  datatype Base = AtModule | AtElement(ptr: nat, start: nat)

  datatype Heap = Heap(mem: seq<byte>, brk: nat, base: Base, stack: seq<Base>, last: nat)

  function RoundUp4(n: nat): (r: nat)
    ensures n <= r < n + 4 && r % 4 == 0
  {
    if n % 4 != 0 then (n / 4 + 1) * 4 else n
  }

  function ReadWord(m: seq<byte>, i: nat): nat
    requires i + 4 <= |m|
  {
    FromLE(m[i..i + 4])
  }

  /** Stores at an address; outside the region there is no memory to store to. */
  function Poke(m: seq<byte>, a: nat, bs: seq<byte>): (r: Result<seq<byte>>)
    ensures r.Ok? ==> |r.value| == |m|
  {
    if bs == [] then Ok(m)
    else if ORG <= a && a + |bs| <= ORG + |m| then Ok(Splice(m, a - ORG, bs))
    else Fail
  }

  // Objects

  /** A string, or an array of `span` payload bytes whose root is the array before it. */
  datatype Body =
    | TextBody(text: seq<byte>)
    | ArrayBody(typ: nat, len: nat, span: nat, root: nat)

  /** The size field of the header: descriptor and payload. */
  function BodySize(o: Body): nat {
    DESCRIPTOR + match o case TextBody(s) => |s| case ArrayBody(_, _, span, _) => span
  }

  /** The bytes an object takes from the heap. */
  function BlockSize(o: Body): (r: nat)
    ensures r % 4 == 0 && r >= HEADER + BodySize(o)
  {
    RoundUp4(HEADER + BodySize(o))
  }

  function TypeTag(o: Body): nat {
    if o.TextBody? then 3 else 4
  }

  function Words(ws: seq<nat>): (bs: seq<byte>)
    ensures |bs| == 4 * |ws|
  {
    if ws == [] then [] else LE(ws[0], 4) + Words(ws[1..])
  }

  /** Header and descriptor of an object at address `p`, as ten words. */
  function Prologue(p: nat, o: Body): (ws: seq<nat>)
    ensures |ws| == 10
  {
    [0, BodySize(o), 0, TypeTag(o), p + HEADER, 0] +
    match o
    case TextBody(s) => [|s|, |s|, 0, p + HEADER + DESCRIPTOR]
    case ArrayBody(typ, len, _, root) => [len, typ, root, p + HEADER + DESCRIPTOR]
  }

  /** What is written when the object is created: an array payload is not. */
  function Image(p: nat, o: Body): (bs: seq<byte>)
    ensures |bs| == HEADER + DESCRIPTOR + if o.TextBody? then |o.text| else 0
    ensures |bs| <= BlockSize(o)
  {
    Words(Prologue(p, o)) + if o.TextBody? then o.text else []
  }

  /** Takes a block at the break and writes the object's image into it. */
  function Allocate(h: Heap, o: Body): Result<(Heap, nat)> {
    var p := (ORG + h.brk) % TWO_TO_THE_32;
    var mem :- Poke(h.mem, p, Image(p, o));
    Ok((h.(mem := mem, brk := h.brk + BlockSize(o)), p))
  }

  // Writing a data item

  /**
   The address an item's offset denotes. The loader compares the offset with the break,
   and the first byte of the target with the end of the allocated heap.
   */
  function Dest(h: Heap, offset: int): Result<nat> {
    if offset < 0 || offset > h.brk then Fail
    else
      var base := match h.base case AtModule => ORG case AtElement(p, s) => p + s;
      var end := ORG + h.brk % TWO_TO_THE_32;
      var dest := (base + offset) % TWO_TO_THE_32;
      if base >= TWO_TO_THE_32 || end >= TWO_TO_THE_32 || dest >= end then Fail else Ok(dest)
  }

  /** The little-endian cells of scalar values. */
  function Cells(kind: Kind, vals: seq<int>): (bs: seq<byte>)
    ensures |bs| == |vals| * kind.Width()
  {
    if vals == [] then [] else LE(vals[0], kind.Width()) + Cells(kind, vals[1..])
  }

  function WriteScalars(h: Heap, offset: int, kind: Kind, vals: seq<int>): Result<Heap> {
    var dest :- Dest(h, offset);
    var mem :- Poke(h.mem, dest, Cells(kind, vals));
    Ok(h.(mem := mem))
  }

  function WritePointer(h: Heap, dest: nat, ptr: nat): Result<Heap> {
    var mem :- Poke(h.mem, dest, LE(ptr, 4));
    Ok(h.(mem := mem))
  }

  /** The string object, then a pointer to its descriptor at the item's target. */
  function LoadText(h: Heap, offset: int, s: seq<byte>): Result<Heap> {
    var dest :- Dest(h, offset);
    var (h1, p) :- Allocate(h, TextBody(s));
    WritePointer(h1, dest, p + HEADER)
  }

  /** `sizes[t]` is the element size of type `t`. */
  function LoadArray(h: Heap, offset: int, sizes: seq<int>, typ: int, len: int): Result<Heap> {
    if typ < 0 || len < 0 || typ >= |sizes| then Fail
    else
      var span := sizes[typ] * len;
      if span < 0 || !InSigned(span, 4) then Fail
      else
        var (h1, p) :- Allocate(h, ArrayBody(typ, len, span, h.last));
        var dest :- Dest(h1, offset);
        var h2 :- WritePointer(h1, dest, p + HEADER);
        Ok(h2.(last := p))
  }

  /** The base moves to the payload of the most recent array, `index` bytes in. */
  function LoadSetIndex(h: Heap, index: int): Result<Heap> {
    var d := h.last + HEADER;
    if index < 0 || d < ORG || d + DESCRIPTOR > ORG + |h.mem| then Fail
    else Ok(h.(base := AtElement(ReadWord(h.mem, d - ORG + 12), index), stack := h.stack + [h.base]))
  }

  function LoadRestore(h: Heap): Result<Heap> {
    if h.stack == [] then Fail
    else Ok(h.(base := h.stack[|h.stack| - 1], stack := h.stack[..|h.stack| - 1]))
  }

  function Load(h: Heap, sizes: seq<int>, it: Item): Result<Heap> {
    match it.payload
    case Scalars(kind, vals) => WriteScalars(h, it.offset, kind, vals)
    case Text(s) => LoadText(h, it.offset, s)
    case Array(typ, len) => LoadArray(h, it.offset, sizes, typ, len)
    case SetIndex(index) => LoadSetIndex(h, index)
    case Restore => LoadRestore(h)
  }

  function LoadAll(h: Heap, sizes: seq<int>, items: seq<Item>): Result<Heap>
    decreases |items|
  {
    if items == [] then Ok(h)
    else
      var h1 :- Load(h, sizes, items[0]);
      LoadAll(h1, sizes, items[1..])
  }

  lemma {:induction false} LoadAllSplit(h: Heap, sizes: seq<int>, xs: seq<Item>, ys: seq<Item>)
    ensures LoadAll(h, sizes, xs + ys) ==
            if LoadAll(h, sizes, xs).Fail? then Fail else LoadAll(LoadAll(h, sizes, xs).value, sizes, ys)
    decreases |xs|
  {
    if xs == [] {
      assert xs + ys == ys;
    } else {
      assert (xs + ys)[0] == xs[0] && (xs + ys)[1..] == xs[1..] + ys;
      if Load(h, sizes, xs[0]).Ok? {
        LoadAllSplit(Load(h, sizes, xs[0]).value, sizes, xs[1..], ys);
      }
    }
  }

  // The fresh heap

  /** Word `w` of the module data is a pointer: maps run from the high bit of byte 0. */
  predicate Marked(map_: seq<byte>, w: nat) {
    w / 8 < |map_| && Bit(map_[w / 8], 7 - w % 8)
  }

  /** Bit `i` of `b`: shifted right `i` times, `b` is odd. */
  predicate Bit(b: nat, i: nat)
    decreases i
  {
    if i == 0 then b % 2 == 1 else Bit(b / 2, i - 1)
  }

  /** Every marked word lies in a region of `n` bytes. */
  predicate MapFits(map_: seq<byte>, n: nat) {
    forall w: nat :: w < 8 * |map_| && Marked(map_, w) ==> 4 * w + 4 <= n
  }

  /** A zeroed region with `VM_NULLPTR` in the words the pointer map marks. */
  function FreshMemory(map_: seq<byte>, n: nat): (m: seq<byte>) {
    seq(n, i requires i >= 0 => if Marked(map_, i / 4) then 0xFF else 0)
  }

  function FreshHeap(t: TypeDesc): Result<Heap> {
    var n := t.size + HEAP_SIZE / 2;
    if t.size < 0 || !MapFits(t.map_, n) then Fail
    else Ok(Heap(FreshMemory(t.map_, n), t.size, AtModule, [], 0))
  }

  /** The region a module starts with, byte by byte, and when there is one. */
  lemma FreshHeapExactly(t: TypeDesc)
    ensures FreshHeap(t).Ok? <==>
            t.size >= 0 && forall w: nat :: Marked(t.map_, w) ==> 4 * w + 4 <= t.size + 524288
    ensures FreshHeap(t).Ok? ==>
              var h := FreshHeap(t).value;
              && h == Heap(h.mem, t.size, AtModule, [], 0) && |h.mem| == t.size + 524288
              && forall i :: 0 <= i < |h.mem| ==> h.mem[i] == if Marked(t.map_, i / 4) then 0xFF else 0
  {
    hide Bit;
  }
}
