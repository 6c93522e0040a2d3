/**
 `load_data`: reads one data item through the buffered reader and applies it to the heap,
 and the loop that does so until the zero byte.
 */
module LoadData {
  import opened Bytes
  import opened Operands
  import opened ObjectFile
  import opened HeapModel
  import opened Reader
  import opened ModuleHeap

  /** Reading the item behind code byte and count, then loading it. */
  function ItemLoadedAt(h: Heap, sizes: seq<int>, b: seq<byte>, o: nat, code: int, count: nat): Result<(Heap, nat)> {
    var (offset, o1) :- IntAt(b, o);
    var (payload, o2) :- PayloadAt(b, o1, code, count);
    var h1 :- Load(h, sizes, Item(count, false, offset, payload));
    Ok((h1, o2))
  }

  lemma ItemAdvances(h: Heap, sizes: seq<int>, b: seq<byte>, o: nat, code: int, count: nat)
    requires ItemLoadedAt(h, sizes, b, o, code, count).Ok?
    ensures o < ItemLoadedAt(h, sizes, b, o, code, count).value.1 <= |b|
  {
  }

  /** The data section as the loader runs it: each item is loaded before the next is read. */
  function DataLoadedAt(h: Heap, sizes: seq<int>, b: seq<byte>, o: nat): Result<(Heap, nat)>
    decreases |b| - o
  {
    if o >= |b| then Fail
    else if b[o] == 0 then Ok((h, o + 1))
    else
      var (count, o1) :- CountAt(b, o + 1, b[o] % 16);
      if count < 0 then Fail
      else
        var (h1, o2) :- ItemLoadedAt(h, sizes, b, o1, b[o] / 16, count);
        if o2 <= o then Fail else DataLoadedAt(h1, sizes, b, o2)
  }

  lemma CountIgnored(h: Heap, sizes: seq<int>, it: Item, count: int, escaped: bool)
    ensures Load(h, sizes, it) == Load(h, sizes, it.(count := count, escaped := escaped))
  {
  }

  /** Reading and loading in turns comes to reading all items and then loading them in order. */
  lemma {:induction false} LoadingInTurns(h: Heap, sizes: seq<int>, b: seq<byte>, o: nat)
    ensures DataLoadedAt(h, sizes, b, o) ==
            if ItemsAt(b, o).Fail? then Fail
            else
              var (items, o1) := ItemsAt(b, o).value;
              if LoadAll(h, sizes, items).Fail? then Fail else Ok((LoadAll(h, sizes, items).value, o1))
    decreases |b| - o
  {
    hide CountAt, IntAt, PayloadAt, Load;
    if o < |b| && b[o] != 0 && ItemAt(b, o).Ok? {
      var (it, o1) := ItemAt(b, o).value;
      CountIgnored(h, sizes, it, it.count, false);
      if Load(h, sizes, it).Ok? {
        LoadingInTurns(Load(h, sizes, it).value, sizes, b, o1);
      }
      if ItemsAt(b, o1).Ok? {
        var items := ItemsAt(b, o1).value.0;
        assert ([it] + items)[1..] == items;
      }
    }
  }

  // The loops over scalars

  lemma ByteIsScalar(b: seq<byte>, o: nat)
    ensures ScalarReader(Byte8)(b, o) ==
            if ByteAt(b, o).Fail? then Fail else Ok((ByteAt(b, o).value.0 as int, ByteAt(b, o).value.1))
  {
  }

  lemma WordIsScalar(b: seq<byte>, o: nat)
    ensures ScalarReader(Int32)(b, o) == WordAt(b, o)
  {
  }

  lemma LongIsScalar(b: seq<byte>, o: nat)
    ensures ScalarReader(Int64)(b, o) == LongAt(b, o)
  {
  }

  lemma FloatIsScalar(b: seq<byte>, o: nat)
    ensures ScalarReader(Float64)(b, o) == FloatAt(b, o)
  {
  }

  method ReadScalar(reader: BufferedReader, kind: Kind) returns (r: Result<int>)
    modifies reader
    ensures r == ValueOf(ScalarReader(kind)(reader.buffer, old(reader.offset)))
    ensures reader.offset == CursorOf(ScalarReader(kind)(reader.buffer, old(reader.offset)), old(reader.offset))
  {
    ghost var b, o := reader.buffer, reader.offset;
    match kind
    case Byte8 =>
      ByteIsScalar(b, o);
      var v := reader.U8();
      r := if v.Ok? then Ok(v.value as int) else Fail;
    case Int32 =>
      WordIsScalar(b, o);
      r := reader.I32e("unable to read int");
    case Float64 =>
      FloatIsScalar(b, o);
      r := reader.F64();
    case Int64 =>
      LongIsScalar(b, o);
      r := reader.I64e("Unable to read int64 datum");
  }

  method ReadScalars(reader: BufferedReader, kind: Kind, count: nat) returns (r: Result<seq<int>>)
    modifies reader
    ensures r == ValueOf(Many(ScalarReader(kind), reader.buffer, old(reader.offset), count))
    ensures r.Ok? ==> reader.offset == Many(ScalarReader(kind), reader.buffer, old(reader.offset), count).value.1
  {
    hide ScalarReader;
    ghost var b, o := reader.buffer, reader.offset;
    var vals: seq<int> := [];
    var i := 0;
    PrependNothing(Many(ScalarReader(kind), b, o, count));
    while i < count
      invariant 0 <= i <= count && |vals| == i
      invariant Many(ScalarReader(kind), b, o, count) ==
                Prepend(vals, Many(ScalarReader(kind), b, reader.offset, count - i))
    {
      ManyStep(ScalarReader(kind), b, reader.offset, count - i, vals);
      var v := ReadScalar(reader, kind);
      if v.Fail? {
        return Fail;
      }
      vals := vals + [v.value];
      i := i + 1;
    }
    assert vals + [] == vals;
    r := Ok(vals);
  }

  /** `load_data` for an item with this code and count. */
  method LoadData(heap: ModuleHeap, sizes: seq<int>, reader: BufferedReader, code: int, count: nat) returns (ok: bool)
    modifies heap`brk, heap`base, heap`stack, heap`last, heap.region, reader
    ensures var spec := ItemLoadedAt(old(heap.State()), sizes, reader.buffer, old(reader.offset), code, count);
            (ok <==> spec.Ok?) && (ok ==> heap.State() == spec.value.0 && reader.offset == spec.value.1)
  {
    hide WriteScalars, LoadText, LoadArray, LoadSetIndex, LoadRestore, OperandAt, WordAt, SliceAt, Many;
    var p := reader.ReadOperand();
    if p.Fail? {
      return false;
    }
    var offset := p.value.IntoI32();
    match code
    case 1 => ok := LoadScalars(heap, reader, Byte8, count, offset);
    case 2 => ok := LoadScalars(heap, reader, Int32, count, offset);
    case 3 =>
      var s := reader.Reade(count, "Unable to read utf8 string");
      if s.Fail? {
        return false;
      }
      ok := heap.WriteData(TextData(s.value), offset);
    case 4 => ok := LoadScalars(heap, reader, Float64, count, offset);
    case 5 =>
      var typ := reader.I32e("Unable to read array type");
      if typ.Fail? {
        return false;
      }
      var len := reader.I32e("Unable to read array elements count");
      if len.Fail? {
        return false;
      }
      ok := heap.NewArray(sizes, typ.value, len.value, offset);
    case 6 =>
      var index := reader.I32e("Unable to read array base address");
      if index.Fail? {
        return false;
      }
      ok := heap.SetIndex(index.value);
    case 7 => ok := heap.RestoreBase();
    case 8 => ok := LoadScalars(heap, reader, Int64, count, offset);
    case _ => return false;
  }

  method LoadScalars(heap: ModuleHeap, reader: BufferedReader, kind: Kind, count: nat, offset: int) returns (ok: bool)
    modifies heap`brk, heap.region, reader
    ensures var vals := Many(ScalarReader(kind), reader.buffer, old(reader.offset), count);
            && (ok <==> vals.Ok? && WriteScalars(old(heap.State()), offset, kind, vals.value.0).Ok?)
            && (ok ==> heap.State() == WriteScalars(old(heap.State()), offset, kind, vals.value.0).value)
            && (ok ==> reader.offset == vals.value.1)
  {
    hide WriteScalars, Many;
    var vals := ReadScalars(reader, kind, count);
    if vals.Fail? {
      return false;
    }
    ok := heap.WriteData(ScalarData(kind, vals.value), offset);
  }

  /** The data loop, up to and including the zero byte. */
  method LoadItems(heap: ModuleHeap, sizes: seq<int>, reader: BufferedReader) returns (ok: bool)
    modifies heap`brk, heap`base, heap`stack, heap`last, heap.region, reader
    ensures var spec := DataLoadedAt(old(heap.State()), sizes, reader.buffer, old(reader.offset));
            (ok <==> spec.Ok?) && (ok ==> heap.State() == spec.value.0 && reader.offset == spec.value.1)
  {
    hide OperandAt, ItemLoadedAt;
    ghost var spec := DataLoadedAt(heap.State(), sizes, reader.buffer, reader.offset);
    ok := false;
    while true
      invariant !ok && spec == DataLoadedAt(heap.State(), sizes, reader.buffer, reader.offset)
      decreases |reader.buffer| - reader.offset
    {
      ghost var o, h := reader.offset, heap.State();
      var c := reader.U8();
      if c.Fail? {
        return;
      }
      if c.value == 0 {
        return true;
      }
      var count := c.value % 16;
      if count == 0 {
        var p := reader.ReadOperand();
        if p.Fail? {
          return;
        }
        count := p.value.IntoI32();
      }
      if count < 0 {
        return;
      }
      if ItemLoadedAt(h, sizes, reader.buffer, reader.offset, c.value / 16, count).Ok? {
        ItemAdvances(h, sizes, reader.buffer, reader.offset, c.value / 16, count);
      }
      var done := LoadData(heap, sizes, reader, c.value / 16, count);
      if !done {
        return;
      }
    }
  }
}
