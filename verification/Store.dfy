/**
 A simple store that says what a stream of data items means: no addresses, no bytes of
 headers, only places (the module data and the payload of each array), the symbolic byte
 last written to each location, and the list of objects created.
 */
module Store {
  import opened Bytes
  import opened ObjectFile
  import opened HeapModel

  datatype Place = InModule | InArray(k: nat)

  datatype Loc = Loc(place: Place, at: nat)

  /** A literal byte, or byte `j` of a pointer to object `k`. */
  datatype Sym = Lit(b: byte) | PtrByte(k: nat, j: nat)

  datatype Cursor = Cursor(place: Place, start: nat)

  /** An object and the offset of its header in the region. */
  datatype Obj = Obj(at: nat, body: Body)

  datatype Store = Store(
    size: nat, brk: nat, objs: seq<Obj>, cur: Cursor, stack: seq<Cursor>, cells: map<Loc, Sym>)

  function Empty(size: nat): Store {
    Store(size, size, [], Cursor(InModule, 0), [], map[])
  }

  /** How many bytes a place has. */
  function Extent(s: Store, p: Place): nat {
    match p
    case InModule => s.size
    case InArray(k) => if k < |s.objs| && s.objs[k].body.ArrayBody? then s.objs[k].body.span else 0
  }

  /** The most recent array, if any. */
  function LastArray(objs: seq<Obj>): (k: int)
    ensures -1 <= k < |objs| && (k >= 0 ==> objs[k].body.ArrayBody?)
    ensures forall j :: k < j < |objs| ==> !objs[j].body.ArrayBody?
  {
    if objs == [] then -1
    else if objs[|objs| - 1].body.ArrayBody? then |objs| - 1
    else LastArray(objs[..|objs| - 1])
  }

  function LastRoot(objs: seq<Obj>): nat {
    var k := LastArray(objs);
    if k < 0 then 0 else ORG + objs[k].at
  }

  // One item

  /** `cells` with the locations of `p` from `from` on overwritten by `syms`. */
  function Put(cells: map<Loc, Sym>, p: Place, from: nat, syms: seq<Sym>): map<Loc, Sym>
    decreases |syms|
  {
    if syms == [] then cells else Put(cells[Loc(p, from) := syms[0]], p, from + 1, syms[1..])
  }

  function Update(s: Store, offset: nat, syms: seq<Sym>): Store {
    s.(cells := Put(s.cells, s.cur.place, s.cur.start + offset, syms))
  }

  predicate Covers(s: Store, offset: nat, n: nat, l: Loc) {
    l.place == s.cur.place && s.cur.start + offset <= l.at < s.cur.start + offset + n
  }

  lemma {:induction false} PutLookup(cells: map<Loc, Sym>, p: Place, from: nat, syms: seq<Sym>, l: Loc)
    ensures var r := Put(cells, p, from, syms);
            if l.place == p && from <= l.at < from + |syms| then l in r && r[l] == syms[l.at - from]
            else (l in r <==> l in cells) && (l in r ==> r[l] == cells[l])
    decreases |syms|
  {
    if syms != [] {
      PutLookup(cells[Loc(p, from) := syms[0]], p, from + 1, syms[1..], l);
    }
  }

  /** The last write to a location is the one that counts. */
  lemma UpdateLookup(s: Store, offset: nat, syms: seq<Sym>, l: Loc)
    ensures var cells := Update(s, offset, syms).cells;
            if Covers(s, offset, |syms|, l) then l in cells && cells[l] == syms[l.at - s.cur.start - offset]
            else (l in cells <==> l in s.cells) && (l in cells ==> cells[l] == s.cells[l])
  {
    PutLookup(s.cells, s.cur.place, s.cur.start + offset, syms, l);
  }

  function Literals(bs: seq<byte>): (r: seq<Sym>)
    ensures |r| == |bs| && forall i :: 0 <= i < |bs| ==> r[i] == Lit(bs[i])
  {
    seq(|bs|, i requires 0 <= i < |bs| => Lit(bs[i]))
  }

  function Pointer(k: nat): (r: seq<Sym>)
    ensures |r| == 4
  {
    [PtrByte(k, 0), PtrByte(k, 1), PtrByte(k, 2), PtrByte(k, 3)]
  }

  function Create(s: Store, o: Body): Store {
    s.(objs := s.objs + [Obj(s.brk, o)], brk := s.brk + BlockSize(o))
  }

  /** The object an item creates, given the element sizes. */
  function BodyOf(s: Store, sizes: seq<int>, p: Payload): (o: Body)
    requires p.Text? || (p.Array? && ArrayKnown(sizes, p.typ, p.len))
  {
    match p
    case Text(t) => TextBody(t)
    case Array(typ, len) => ArrayBody(typ, len, sizes[typ] * len, LastRoot(s.objs))
  }

  predicate ArrayKnown(sizes: seq<int>, typ: int, len: int) {
    && 0 <= typ < |sizes| && len >= 0 && InSigned(typ, 4) && InSigned(len, 4)
    && 0 <= sizes[typ] * len && InSigned(sizes[typ] * len, 4)
  }

  /** How many bytes an item writes at its target. */
  function Width(p: Payload): nat {
    match p
    case Scalars(kind, vals) => |vals| * kind.Width()
    case Text(_) | Array(_, _) => 4
    case _ => 0
  }

  predicate HasTarget(p: Payload) {
    p.Scalars? || p.Text? || p.Array?
  }

  /** The target lies inside its place; of an empty item, the first byte does. */
  predicate TargetFits(s: Store, it: Item) {
    && it.offset >= 0
    && s.cur.start + it.offset + Max(1, Width(it.payload)) <= Extent(s, s.cur.place)
  }

  function Max(a: int, b: int): int {
    if a < b then b else a
  }

  /** A new object fits below the end `cap` of the region. */
  predicate ObjectFits(s: Store, cap: nat, sizes: seq<int>, p: Payload) {
    match p
    case Text(_) => s.brk + BlockSize(BodyOf(s, sizes, p)) <= cap
    case Array(typ, len) => ArrayKnown(sizes, typ, len) && s.brk + BlockSize(BodyOf(s, sizes, p)) <= cap
    case _ => true
  }

  /** An item a well-formed stream may hold next. */
  predicate Fits(s: Store, cap: nat, sizes: seq<int>, it: Item) {
    && (HasTarget(it.payload) ==> TargetFits(s, it))
    && ObjectFits(s, cap, sizes, it.payload)
    && (it.payload.SetIndex? ==> it.payload.index >= 0 && LastArray(s.objs) >= 0)
    && (it.payload.Restore? ==> s.stack != [])
  }

  function Step(s: Store, cap: nat, sizes: seq<int>, it: Item): Store
    requires Fits(s, cap, sizes, it)
  {
    match it.payload
    case Scalars(kind, vals) => Update(s, it.offset, Literals(Cells(kind, vals)))
    case Text(_) | Array(_, _) =>
      Update(Create(s, BodyOf(s, sizes, it.payload)), it.offset, Pointer(|s.objs|))
    case SetIndex(index) =>
      s.(cur := Cursor(InArray(LastArray(s.objs)), index), stack := s.stack + [s.cur])
    case Restore =>
      s.(cur := s.stack[|s.stack| - 1], stack := s.stack[..|s.stack| - 1])
  }

  /** A well-formed stream: every item fits when its turn comes. */
  predicate WellFormed(s: Store, cap: nat, sizes: seq<int>, items: seq<Item>)
    decreases |items|
  {
    items == [] ||
    (Fits(s, cap, sizes, items[0]) && WellFormed(Step(s, cap, sizes, items[0]), cap, sizes, items[1..]))
  }

  function Run(s: Store, cap: nat, sizes: seq<int>, items: seq<Item>): Store
    requires WellFormed(s, cap, sizes, items)
    decreases |items|
  {
    if items == [] then s else Run(Step(s, cap, sizes, items[0]), cap, sizes, items[1..])
  }
}
