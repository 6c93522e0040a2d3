/**
 The cursor the data section is read through: every read is the corresponding pure read of
 the file at the current offset, and moves the offset by exactly the bytes it used.
 */
module Reader {
  import opened Bytes
  import opened Operands
  import opened ObjectFile

  function ValueOf<T>(r: Result<(T, nat)>): Result<T> {
    if r.Fail? then Fail else Ok(r.value.0)
  }

  /** The cursor after a read at `o`: a read that panics does not move it. */
  function CursorOf<T>(r: Result<(T, nat)>, o: nat): nat {
    if r.Fail? then o else r.value.1
  }

  function ByteAt(b: seq<byte>, o: nat): Result<(byte, nat)> {
    if o < |b| then Ok((b[o], o + 1)) else Fail
  }

  function LongAt(b: seq<byte>, o: nat): Result<(int, nat)> {
    var (bs, o1) :- SliceAt(b, o, 8);
    Ok((Signed(FromBE(bs), 8), o1))
  }

  /** A float's bit pattern. */
  function FloatAt(b: seq<byte>, o: nat): Result<(int, nat)> {
    var (bs, o1) :- SliceAt(b, o, 8);
    Ok((FromBE(bs), o1))
  }

  class BufferedReader {
    const buffer: seq<byte>
    var offset: nat
    var error: string

    constructor (buffer: seq<byte>, offset: nat)
      ensures this.buffer == buffer && this.offset == offset && this.error == ""
    {
      this.buffer := buffer;
      this.offset := offset;
      this.error := "";
    }

    /** The reads below keep this; only `Skip` can break it. */
    predicate Inside()
      reads this
    {
      offset <= |buffer|
    }

    method Peek(n: nat) returns (r: Result<seq<byte>>)
      ensures r == ValueOf(SliceAt(buffer, offset, n))
    {
      if offset + n <= |buffer| {
        r := Ok(buffer[offset..offset + n]);
      } else {
        r := Fail;
      }
    }

    method Read(n: nat) returns (r: Result<seq<byte>>)
      modifies this`offset
      ensures r == ValueOf(SliceAt(buffer, old(offset), n))
      ensures offset == CursorOf(SliceAt(buffer, old(offset), n), old(offset))
      ensures old(Inside()) ==> Inside()
    {
      r := Peek(n);
      if r.Ok? {
        offset := offset + n;
      }
    }

    method Reade(n: nat, err: string) returns (r: Result<seq<byte>>)
      modifies this
      ensures r == ValueOf(SliceAt(buffer, old(offset), n))
      ensures offset == CursorOf(SliceAt(buffer, old(offset), n), old(offset)) && error == err
      ensures old(Inside()) ==> Inside()
    {
      error := err;
      r := Read(n);
    }

    method U8() returns (r: Result<byte>)
      modifies this`offset
      ensures r == ValueOf(ByteAt(buffer, old(offset)))
      ensures offset == CursorOf(ByteAt(buffer, old(offset)), old(offset))
      ensures old(Inside()) ==> Inside()
    {
      var bs := Read(1);
      r := if bs.Ok? then Ok(bs.value[0]) else Fail;
    }

    method I32() returns (r: Result<int>)
      modifies this`offset
      ensures r == ValueOf(WordAt(buffer, old(offset)))
      ensures offset == CursorOf(WordAt(buffer, old(offset)), old(offset))
      ensures old(Inside()) ==> Inside()
    {
      var bs := Read(4);
      r := if bs.Ok? then Ok(Signed(FromBE(bs.value), 4)) else Fail;
    }

    method I32e(err: string) returns (r: Result<int>)
      modifies this
      ensures r == ValueOf(WordAt(buffer, old(offset)))
      ensures offset == CursorOf(WordAt(buffer, old(offset)), old(offset)) && error == err
      ensures old(Inside()) ==> Inside()
    {
      error := err;
      r := I32();
    }

    method I64e(err: string) returns (r: Result<int>)
      modifies this
      ensures r == ValueOf(LongAt(buffer, old(offset)))
      ensures offset == CursorOf(LongAt(buffer, old(offset)), old(offset)) && error == err
      ensures old(Inside()) ==> Inside()
    {
      error := err;
      var bs := Read(8);
      r := if bs.Ok? then Ok(Signed(FromBE(bs.value), 8)) else Fail;
    }

    method F64() returns (r: Result<int>)
      modifies this`offset
      ensures r == ValueOf(FloatAt(buffer, old(offset)))
      ensures offset == CursorOf(FloatAt(buffer, old(offset)), old(offset))
      ensures old(Inside()) ==> Inside()
    {
      var bs := Read(8);
      r := if bs.Ok? then Ok(FromBE(bs.value)) else Fail;
    }

    /** Slices four bytes, but moves by the operand's own size. */
    method ReadOperand() returns (r: Result<Operand>)
      modifies this`offset
      ensures r == ValueOf(OperandAt(buffer, old(offset)))
      ensures offset == CursorOf(OperandAt(buffer, old(offset)), old(offset))
      ensures old(Inside()) ==> Inside()
    {
      var bs := Peek(4);
      if bs.Fail? {
        return Fail;
      }
      var p := ParseOperand(bs.value);
      offset := offset + p.Size();
      r := Ok(p);
    }

    method Skip(n: nat)
      modifies this`offset
      ensures offset == old(offset) + n
    {
      offset := offset + n;
    }

    /** One of the reads above. */
    method Perform(c: Call) returns (r: Result<Got>)
      modifies this
      ensures r == ValueOf(Outcome(buffer, old(offset), c))
      ensures offset == CursorOf(Outcome(buffer, old(offset), c), old(offset))
    {
      hide SliceAt, ByteAt, WordAt, LongAt, FloatAt, OperandAt;
      match c
      case CallRead(n) =>
        var v := Read(n);
        r := if v.Ok? then Ok(Slice(v.value)) else Fail;
      case CallReade(n, err) =>
        var v := Reade(n, err);
        r := if v.Ok? then Ok(Slice(v.value)) else Fail;
      case CallU8 =>
        var v := U8();
        r := if v.Ok? then Ok(Number(v.value as int)) else Fail;
      case CallI32e(err) =>
        var v := I32e(err);
        r := if v.Ok? then Ok(Number(v.value)) else Fail;
      case CallI64e(err) =>
        var v := I64e(err);
        r := if v.Ok? then Ok(Number(v.value)) else Fail;
      case CallF64 =>
        var v := F64();
        r := if v.Ok? then Ok(Number(v.value)) else Fail;
      case CallOperand =>
        var v := ReadOperand();
        r := if v.Ok? then Ok(Parsed(v.value)) else Fail;
    }

    /** Any sequence of reads, up to the first that panics. */
    method PerformAll(cs: seq<Call>) returns (r: Result<seq<Got>>)
      modifies this
      ensures r == ValueOf(Outcomes(buffer, old(offset), cs))
      ensures r.Ok? ==> offset == Outcomes(buffer, old(offset), cs).value.1
    {
      hide Outcome;
      ghost var o := offset;
      var gots: seq<Got> := [];
      PrependNothing(Outcomes(buffer, o, cs));
      assert cs[0..] == cs;
      for i := 0 to |cs|
        invariant Outcomes(buffer, o, cs) == Prepend(gots, Outcomes(buffer, offset, cs[i..]))
      {
        OutcomesStep(buffer, offset, cs[i..], gots);
        var got := Perform(cs[i]);
        if got.Fail? {
          return Fail;
        }
        gots := gots + [got.value];
        assert cs[i..][1..] == cs[i + 1..];
      }
      assert gots + [] == gots;
      r := Ok(gots);
    }
  }

  // Sequences of reads

  datatype Call =
    | CallRead(n: nat)
    | CallReade(n: nat, err: string)
    | CallU8
    | CallI32e(err: string)
    | CallI64e(err: string)
    | CallF64
    | CallOperand

  /** What a call returns. */
  datatype Got = Slice(bytes: seq<byte>) | Number(v: int) | Parsed(p: Operand)

  function Tagged<T>(r: Result<(T, nat)>, tag: T -> Got): Result<(Got, nat)> {
    if r.Fail? then Fail else Ok((tag(r.value.0), r.value.1))
  }

  function Outcome(b: seq<byte>, o: nat, c: Call): Result<(Got, nat)> {
    match c
    case CallRead(n) => Tagged(SliceAt(b, o, n), bs => Slice(bs))
    case CallReade(n, _) => Tagged(SliceAt(b, o, n), bs => Slice(bs))
    case CallU8 => Tagged(ByteAt(b, o), (v: byte) => Number(v as int))
    case CallI32e(_) => Tagged(WordAt(b, o), v => Number(v))
    case CallI64e(_) => Tagged(LongAt(b, o), v => Number(v))
    case CallF64 => Tagged(FloatAt(b, o), v => Number(v))
    case CallOperand => Tagged(OperandAt(b, o), p => Parsed(p))
  }

  function Outcomes(b: seq<byte>, o: nat, cs: seq<Call>): (r: Result<(seq<Got>, nat)>)
    decreases |cs|
  {
    if cs == [] then Ok(([], o))
    else
      var (got, o1) :- Outcome(b, o, cs[0]);
      var (gots, o2) :- Outcomes(b, o1, cs[1..]);
      Ok(([got] + gots, o2))
  }

  lemma OutcomesStep(b: seq<byte>, o: nat, cs: seq<Call>, acc: seq<Got>)
    requires cs != []
    ensures Prepend(acc, Outcomes(b, o, cs)) ==
            if Outcome(b, o, cs[0]).Fail? then Fail
            else Prepend(acc + [Outcome(b, o, cs[0]).value.0], Outcomes(b, Outcome(b, o, cs[0]).value.1, cs[1..]))
  {
    hide Outcome;
    if Outcome(b, o, cs[0]).Ok? {
      var (got, o1) := Outcome(b, o, cs[0]).value;
      var r := Outcomes(b, o1, cs[1..]);
      if r.Ok? {
        assert acc + ([got] + r.value.0) == acc + [got] + r.value.0;
      }
    }
  }

  /** An operand's own bytes, with zeros for the ones its slice takes from behind it. */
  function Padded(x: seq<byte>): (r: seq<byte>)
    ensures |r| == 4
  {
    (x + [0, 0, 0, 0])[..4]
  }

  /** The value a call makes of the bytes `x` it moves over, and of no others. */
  function Meaning(c: Call, x: seq<byte>): Got {
    match c
    case CallRead(_) | CallReade(_, _) => Slice(x)
    case CallU8 | CallF64 => Number(FromBE(x))
    case CallI32e(_) => Number(Signed(FromBE(x), 4))
    case CallI64e(_) => Number(Signed(FromBE(x), 8))
    case CallOperand => Parsed(ParseOperand(Padded(x)))
  }

  /** `x` cut into the bytes of each call in turn, each value being made of its own part. */
  ghost predicate Explains(x: seq<byte>, cs: seq<Call>, gots: seq<Got>)
    decreases |cs|
  {
    if cs == [] then x == [] && gots == []
    else
      && gots != []
      && exists n :: 0 <= n <= |x| && Meaning(cs[0], x[..n]) == gots[0] && Explains(x[n..], cs[1..], gots[1..])
  }

  /**
   Whatever calls are made in whatever order, they use up the file from the first cursor
   to the last without gap or overlap, and each value is made of its own bytes alone.
   */
  lemma {:induction false} ReadsAreContiguous(b: seq<byte>, o: nat, cs: seq<Call>)
    requires o <= |b| && Outcomes(b, o, cs).Ok?
    ensures var (gots, o1) := Outcomes(b, o, cs).value; o <= o1 <= |b| && Explains(b[o..o1], cs, gots)
    decreases |cs|
  {
    if cs != [] {
      hide Outcome, Meaning;
      var (got, o1) := Outcome(b, o, cs[0]).value;
      OneRead(b, o, cs[0]);
      ReadsAreContiguous(b, o1, cs[1..]);
      var (gots, o2) := Outcomes(b, o, cs).value;
      var x, n := b[o..o2], o1 - o;
      assert x[..n] == b[o..o1] && x[n..] == b[o1..o2];
      assert gots[1..] == Outcomes(b, o1, cs[1..]).value.0;
    }
  }

  lemma OneRead(b: seq<byte>, o: nat, c: Call)
    requires Outcome(b, o, c).Ok? && o <= |b|
    ensures var (got, o1) := Outcome(b, o, c).value; o <= o1 <= |b| && got == Meaning(c, b[o..o1])
  {
    hide ParseOperand, FromBE;
    if c.CallU8? {
      OneByte(b[o..o + 1]);
    } else if c.CallOperand? {
      OwnBytes(b, o);
    }
  }

  lemma OneByte(x: seq<byte>)
    requires |x| == 1
    ensures FromBE(x) == x[0]
  {
    assert FromBE(x[..0]) == 0;
  }

  /** Behind its size, an operand's four-byte slice does not matter. */
  lemma OwnBytes(b: seq<byte>, o: nat)
    requires o + 4 <= |b|
    ensures ParseOperand(b[o..o + 4]) == ParseOperand(Padded(b[o..o + ParseOperand(b[o..o + 4]).Size()]))
  {
    var x := b[o..o + 4];
    ParseVersusSpec(x);
    var y := Padded(b[o..o + FormSize(x[0])]);
    assert forall i :: 0 <= i < FormSize(x[0]) ==> y[i] == x[i];
  }
}
