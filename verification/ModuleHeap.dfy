/**
 The module heap as the loader keeps it: a byte array it writes in place, a break, the
 current base and the stack of saved ones. Each method is proved to make of the heap's
 state what the functions of `HeapModel` say.
 */
module ModuleHeap {
  import opened Bytes
  import opened ObjectFile
  import opened HeapModel

  // Piecewise writes

  /** Writing `bs + cs` is writing `bs` and then `cs` behind it. */
  lemma PokeAppend(m: seq<byte>, a: nat, bs: seq<byte>, cs: seq<byte>)
    ensures Poke(m, a, bs + cs) ==
            if Poke(m, a, bs).Fail? then Fail else Poke(Poke(m, a, bs).value, a + |bs|, cs)
  {
    if bs == [] {
      assert bs + cs == cs;
    } else if cs == [] {
      assert bs + cs == bs;
    } else if ORG <= a && a + |bs + cs| <= ORG + |m| {
      SpliceAppend(m, a - ORG, bs, cs);
    }
  }

  /** Rewriting the same bytes: only the last write shows. */
  lemma PokeAgain(m: seq<byte>, a: nat, bs: seq<byte>, cs: seq<byte>)
    requires |bs| == |cs|
    ensures Poke(m, a, cs) == if Poke(m, a, bs).Fail? then Fail else Poke(Poke(m, a, bs).value, a, cs)
  {
    if bs != [] && Poke(m, a, bs).Ok? {
      assert Splice(Splice(m, a - ORG, bs), a - ORG, cs) == Splice(m, a - ORG, cs);
    }
  }

  lemma {:induction false} CellsSnoc(kind: Kind, vals: seq<int>, i: nat)
    requires i < |vals|
    ensures Cells(kind, vals[..i + 1]) == Cells(kind, vals[..i]) + LE(vals[i], kind.Width())
    decreases |vals|
  {
    hide LE;
    if i == 0 {
      assert vals[..1] == [vals[0]] && vals[..1][1..] == [] && vals[..0] == [];
    } else {
      CellsSnoc(kind, vals[1..], i - 1);
      assert vals[..i + 1][1..] == vals[1..][..i] && vals[..i][1..] == vals[1..][..i - 1];
      var e := LE(vals[0], kind.Width());
      assert Cells(kind, vals[..i + 1]) == e + Cells(kind, vals[1..][..i]);
      assert Cells(kind, vals[..i]) == e + Cells(kind, vals[1..][..i - 1]);
    }
  }

  lemma CellsSplit(kind: Kind, vals: seq<int>, i: nat)
    requires i <= |vals|
    ensures Cells(kind, vals) == Cells(kind, vals[..i]) + Cells(kind, vals[i..])
    decreases i
  {
    hide LE;
    if i == 0 {
      assert vals[..0] == [] && vals[0..] == vals;
    } else {
      CellsSplit(kind, vals[1..], i - 1);
      assert vals[..i][1..] == vals[1..][..i - 1] && vals[1..][i - 1..] == vals[i..];
      assert Cells(kind, vals[..i]) == LE(vals[0], kind.Width()) + Cells(kind, vals[1..][..i - 1]);
    }
  }

  /** One byte of a string, and the failure of the whole where it fails. */
  lemma TextStep(m: seq<byte>, a: nat, s: seq<byte>, i: nat)
    requires i < |s| && Poke(m, a, s[..i]).Ok?
    ensures Poke(m, a, s[..i + 1]) == Poke(Poke(m, a, s[..i]).value, a + i, [s[i]])
    ensures Poke(m, a, s[..i + 1]).Fail? ==> Poke(m, a, s).Fail?
  {
    hide Poke;
    assert s[..i + 1] == s[..i] + [s[i]] && s == s[..i + 1] + s[i + 1..];
    PokeAppend(m, a, s[..i], [s[i]]);
    PokeAppend(m, a, s[..i + 1], s[i + 1..]);
  }

  /** The region after the first `i` scalars. */
  function CellsUpTo(m: seq<byte>, a: nat, kind: Kind, vals: seq<int>, i: nat): Result<seq<byte>>
    requires i <= |vals|
  {
    Poke(m, a, Cells(kind, vals[..i]))
  }

  /** Where scalar `i` goes. */
  function CellAddress(dest: nat, kind: Kind, i: nat): nat {
    dest + i * kind.Width()
  }

  /** One scalar, and the failure of the whole where it fails. */
  lemma CellStep(m: seq<byte>, a: nat, kind: Kind, vals: seq<int>, i: nat)
    requires i < |vals| && CellsUpTo(m, a, kind, vals, i).Ok?
    ensures CellsUpTo(m, a, kind, vals, i + 1) ==
            Poke(CellsUpTo(m, a, kind, vals, i).value, CellAddress(a, kind, i), LE(vals[i], kind.Width()))
    ensures CellsUpTo(m, a, kind, vals, i + 1).Fail? ==> CellsUpTo(m, a, kind, vals, |vals|).Fail?
  {
    assert vals[..|vals|] == vals;
    hide Poke, Cells, LE;
    CellsSnoc(kind, vals, i);
    CellsSplit(kind, vals, i + 1);
    PokeAppend(m, a, Cells(kind, vals[..i]), LE(vals[i], kind.Width()));
    PokeAppend(m, a, Cells(kind, vals[..i + 1]), Cells(kind, vals[i + 1..]));
  }

  lemma CellsBounds(m: seq<byte>, a: nat, kind: Kind, vals: seq<int>)
    ensures CellsUpTo(m, a, kind, vals, 0) == Ok(m)
    ensures CellsUpTo(m, a, kind, vals, |vals|) == Poke(m, a, Cells(kind, vals))
  {
    assert vals[..|vals|] == vals;
  }

  lemma {:induction false} ZeroBits(i: nat)
    ensures !Bit(0, i)
    decreases i
  {
    if i > 0 {
      ZeroBits(i - 1);
    }
  }

  lemma NoBits(map_: seq<byte>, k: nat)
    requires k < |map_| && map_[k] == 0
    ensures forall w: nat :: w / 8 == k ==> !Marked(map_, w)
  {
    forall w: nat | w / 8 == k
      ensures !Marked(map_, w)
    {
      ZeroBits(7 - w % 8);
    }
  }

  /** What one data item carries to its target. */
  datatype Data = ScalarData(kind: Kind, vals: seq<int>) | TextData(text: seq<byte>) | ArrayData(ptr: nat)

  function WriteDataTo(h: Heap, offset: int, d: Data): Result<Heap> {
    match d
    case ScalarData(kind, vals) => WriteScalars(h, offset, kind, vals)
    case TextData(s) => LoadText(h, offset, s)
    case ArrayData(ptr) =>
      var dest :- Dest(h, offset);
      WritePointer(h, dest, ptr)
  }

  /** The region with the marked words set to all ones. */
  function Stamped(map_: seq<byte>, m: seq<byte>): seq<byte> {
    seq(|m|, i requires 0 <= i < |m| => if Marked(map_, i / 4) then 0xFF else m[i])
  }

  class ModuleHeap {
    const region: array<byte>
    var brk: nat
    var base: Base
    var stack: seq<Base>
    var last: nat

    function State(): Heap
      reads this, region
    {
      Heap(region[..], brk, base, stack, last)
    }

    constructor (region: array<byte>, brk: nat)
      ensures this.region == region && this.brk == brk
      ensures base == AtModule && stack == [] && last == 0
    {
      this.region, this.brk := region, brk;
      base, stack, last := AtModule, [], 0;
    }

    /** Puts all ones into the words the pointer map marks, and changes no other byte. */
    static method SetupPointers(region: array<byte>, map_: seq<byte>) returns (ok: bool)
      modifies region
      ensures ok <==> MapFits(map_, region.Length)
      ensures ok ==> region[..] == Stamped(map_, old(region[..]))
    {
      ghost var m := region[..];
      var k := 0;
      while k < |map_|
        invariant 0 <= k <= |map_|
        invariant forall w: nat :: w < 8 * k && Marked(map_, w) ==> 4 * w + 4 <= region.Length
        invariant forall i :: 0 <= i < region.Length ==>
                    region[i] == if i / 4 < 8 * k && Marked(map_, i / 4) then 0xFF else m[i]
      {
        var i := 0;
        if map_[k] == 0 {
          i := 8;
          NoBits(map_, k);
        }
        while i < 8
          invariant 0 <= i <= 8
          invariant forall w: nat :: w < 8 * k + i && Marked(map_, w) ==> 4 * w + 4 <= region.Length
          invariant forall j :: 0 <= j < region.Length ==>
                      region[j] == if j / 4 < 8 * k + i && Marked(map_, j / 4) then 0xFF else m[j]
        {
          var w := 8 * k + i;
          assert w / 8 == k && w % 8 == i;
          if Bit(map_[k], 7 - i) {
            assert Marked(map_, w);
            if 4 * w + 4 > region.Length {
              return false;
            }
            forall j | 4 * w <= j < 4 * w + 4 {
              region[j] := 0xFF;
            }
          }
          i := i + 1;
        }
        k := k + 1;
      }
      ok := true;
    }

    /** A zeroed region for the type's size and the fixed heap above it. */
    static method New(t: TypeDesc) returns (r: Result<ModuleHeap>)
      ensures r.Ok? <==> FreshHeap(t).Ok?
      ensures r.Ok? ==> fresh(r.value) && fresh(r.value.region) && r.value.State() == FreshHeap(t).value
    {
      if t.size < 0 {
        return Fail;
      }
      var region := new byte[t.size + HEAP_SIZE / 2](i => 0);
      var ok := SetupPointers(region, t.map_);
      if !ok {
        return Fail;
      }
      var h := new ModuleHeap(region, t.size);
      r := Ok(h);
    }

    method Write(bs: seq<byte>, a: nat) returns (ok: bool)
      modifies region
      ensures ok <==> Poke(old(region[..]), a, bs).Ok?
      ensures ok ==> region[..] == Poke(old(region[..]), a, bs).value
    {
      if bs == [] {
        return true;
      }
      if a < ORG || a + |bs| > ORG + region.Length {
        return false;
      }
      forall i | 0 <= i < |bs| {
        region[a - ORG + i] := bs[i];
      }
      assert region[..] == Splice(old(region[..]), a - ORG, bs);
      ok := true;
    }

    method AllocateBytes(n: nat) returns (ptr: nat)
      modifies this`brk
      ensures ptr == (ORG + old(brk)) % TWO_TO_THE_32
      ensures brk == old(brk) + RoundUp4(n)
    {
      ptr := (ORG + brk) % TWO_TO_THE_32;
      var size := n;
      if size % 4 != 0 {
        size := (size / 4 + 1) * 4;
      }
      brk := brk + size;
    }

    /** A block for a header and `n` bytes, with a blank header. */
    method Nheap(n: nat) returns (r: Result<nat>)
      modifies this`brk, region
      ensures var p := (ORG + old(brk)) % TWO_TO_THE_32;
              var blank := Poke(old(region[..]), p, Words([0, 0, 0, 0, 0, 0]));
              if blank.Fail? then r == Fail else r == Ok(p) && region[..] == blank.value
      ensures brk == old(brk) + RoundUp4(HEADER + n)
    {
      var p := AllocateBytes(HEADER + n);
      var ok := Write(Words([0, 0, 0, 0, 0, 0]), p);
      r := if ok then Ok(p) else Fail;
    }

    /** Header and descriptor of a new object; a string's text is written by its caller. */
    method NewObject(o: Body) returns (r: Result<nat>)
      modifies this`brk, region
      ensures var p := (ORG + old(brk)) % TWO_TO_THE_32;
              var image := Poke(old(region[..]), p, Words(Prologue(p, o)));
              if image.Fail? then r == Fail else r == Ok(p) && region[..] == image.value
      ensures brk == old(brk) + BlockSize(o)
    {
      hide Poke, Words, Prologue;
      ghost var m := region[..];
      r := Nheap(BodySize(o));
      if r.Fail? {
        PrologueFails(m, (ORG + old(brk)) % TWO_TO_THE_32, o);
        return;
      }
      var p := r.value;
      var header, descriptor := Words(Prologue(p, o)[..6]), Words(Prologue(p, o)[6..]);
      PokeAgain(m, p, Words([0, 0, 0, 0, 0, 0]), header);
      PrologueSplit(p, o);
      PokeAppend(m, p, header, descriptor);
      var ok := Write(header, p);
      if ok {
        ok := Write(descriptor, p + HEADER);
      }
      r := if ok then Ok(p) else Fail;
    }

    method NewString(s: seq<byte>) returns (r: Result<nat>)
      modifies this`brk, region
      ensures r.Ok? <==> Allocate(old(State()), TextBody(s)).Ok?
      ensures r.Ok? ==> var (h, p) := Allocate(old(State()), TextBody(s)).value; State() == h && r.value == p + HEADER
    {
      ghost var h0 := State();
      TextImage(h0, s);
      hide Words, Prologue, Image, Poke;
      var obj := NewObject(TextBody(s));
      if obj.Fail? {
        return Fail;
      }
      ghost var m1 := region[..];
      var start := obj.value + HEADER + DESCRIPTOR;
      var i := 0;
      while i < |s|
        invariant 0 <= i <= |s|
        invariant Poke(m1, start, s[..i]) == Ok(region[..])
        invariant brk == h0.brk + BlockSize(TextBody(s))
      {
        TextStep(m1, start, s, i);
        var ok := Write([s[i]], start + i);
        if !ok {
          return Fail;
        }
        i := i + 1;
      }
      assert s[..|s|] == s;
      r := Ok(obj.value + HEADER);
    }

    method WriteScalarData(dest: nat, kind: Kind, vals: seq<int>) returns (ok: bool)
      modifies region
      ensures ok <==> Poke(old(region[..]), dest, Cells(kind, vals)).Ok?
      ensures ok ==> region[..] == Poke(old(region[..]), dest, Cells(kind, vals)).value
    {
      ghost var m := region[..];
      hide Poke, Cells, LE, Kind.Width, CellsUpTo, CellAddress;
      var i := 0;
      CellsBounds(m, dest, kind, vals);
      while i < |vals|
        invariant 0 <= i <= |vals|
        invariant CellsUpTo(m, dest, kind, vals, i) == Ok(region[..])
      {
        CellStep(m, dest, kind, vals, i);
        var done := Write(LE(vals[i], kind.Width()), CellAddress(dest, kind, i));
        if !done {
          return false;
        }
        i := i + 1;
      }
      ok := true;
    }

    method WriteData(data: Data, offset: int) returns (ok: bool)
      modifies this`brk, region
      ensures ok <==> WriteDataTo(old(State()), offset, data).Ok?
      ensures ok ==> State() == WriteDataTo(old(State()), offset, data).value
    {
      hide Poke, Cells, LE, Image;
      if offset < 0 || offset > brk {
        return false;
      }
      var b := match base case AtModule => ORG case AtElement(ptr, start) => ptr + start;
      var end := ORG + brk % TWO_TO_THE_32;
      if b >= TWO_TO_THE_32 || end >= TWO_TO_THE_32 {
        return false;
      }
      var dest := (b + offset) % TWO_TO_THE_32;
      if dest >= end {
        return false;
      }
      match data
      case TextData(s) =>
        var str := NewString(s);
        if str.Fail? {
          return false;
        }
        ok := Write(LE(str.value, 4), dest);
      case ScalarData(kind, vals) =>
        ok := WriteScalarData(dest, kind, vals);
      case ArrayData(ptr) =>
        ok := Write(LE(ptr, 4), dest);
    }

    method SetIndex(index: int) returns (ok: bool)
      modifies this`base, this`stack
      ensures ok <==> LoadSetIndex(old(State()), index).Ok?
      ensures ok ==> State() == LoadSetIndex(old(State()), index).value
    {
      var d := last + HEADER;
      if index < 0 || d < ORG || d + DESCRIPTOR > ORG + region.Length {
        return false;
      }
      stack := stack + [base];
      base := AtElement(ReadWord(region[..], d - ORG + 12), index);
      ok := true;
    }

    method RestoreBase() returns (ok: bool)
      modifies this`base, this`stack
      ensures ok <==> LoadRestore(old(State())).Ok?
      ensures ok ==> State() == LoadRestore(old(State())).value
    {
      if stack == [] {
        return false;
      }
      base, stack := stack[|stack| - 1], stack[..|stack| - 1];
      ok := true;
    }

    method NewArray(sizes: seq<int>, typ: int, len: int, offset: int) returns (ok: bool)
      modifies this`brk, this`last, region
      ensures ok <==> LoadArray(old(State()), offset, sizes, typ, len).Ok?
      ensures ok ==> State() == LoadArray(old(State()), offset, sizes, typ, len).value
    {
      hide Words, Prologue, Image, Poke, Dest, BlockSize, InSigned, WritePointer;
      if typ < 0 || len < 0 || typ >= |sizes| {
        return false;
      }
      var span := sizes[typ] * len;
      if span < 0 || !InSigned(span, 4) {
        return false;
      }
      var o := ArrayBody(typ, len, span, last);
      ghost var h0 := State();
      ArrayImage(h0, o);
      var obj := NewObject(o);
      if obj.Fail? {
        return false;
      }
      ok := WriteData(ArrayData(obj.value + HEADER), offset);
      if ok {
        last := obj.value;
      }
    }
  }

  lemma TextImage(h: Heap, s: seq<byte>)
    ensures var p, o := (ORG + h.brk) % TWO_TO_THE_32, TextBody(s);
            var head := Poke(h.mem, p, Words(Prologue(p, o)));
            && Poke(h.mem, p, Image(p, o)) ==
               (if head.Fail? then Fail else Poke(head.value, p + HEADER + DESCRIPTOR, s))
            && (head.Ok? ==> Poke(head.value, p + HEADER + DESCRIPTOR, []) == head)
  {
    var p, o := (ORG + h.brk) % TWO_TO_THE_32, TextBody(s);
    PokeAppend(h.mem, p, Words(Prologue(p, o)), s);
  }

  lemma ArrayImage(h: Heap, o: Body)
    requires o.ArrayBody?
    ensures var p := (ORG + h.brk) % TWO_TO_THE_32; Image(p, o) == Words(Prologue(p, o))
  {
  }

  lemma WordsAppend(ws: seq<nat>, vs: seq<nat>)
    ensures Words(ws + vs) == Words(ws) + Words(vs)
    decreases |ws|
  {
    hide LE;
    if ws == [] {
      assert ws + vs == vs;
    } else {
      assert (ws + vs)[1..] == ws[1..] + vs;
      WordsAppend(ws[1..], vs);
    }
  }

  lemma PrologueSplit(p: nat, o: Body)
    ensures Words(Prologue(p, o)) == Words(Prologue(p, o)[..6]) + Words(Prologue(p, o)[6..])
  {
    assert Prologue(p, o) == Prologue(p, o)[..6] + Prologue(p, o)[6..];
    WordsAppend(Prologue(p, o)[..6], Prologue(p, o)[6..]);
  }

  /** Where the blank header does not fit, nothing does. */
  lemma PrologueFails(m: seq<byte>, p: nat, o: Body)
    requires Poke(m, p, Words([0, 0, 0, 0, 0, 0])).Fail?
    ensures Poke(m, p, Words(Prologue(p, o))).Fail?
  {
  }
}
