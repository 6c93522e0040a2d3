/**
 The execution context and the fetch loop: how many instructions a program fetches, and
 from where, for every code length and entry point.
 */
module Execution {
  import opened Bytes
  import opened ObjectFile

  const TWO_TO_THE_64: nat := 0x1_0000_0000_0000_0000

  /** `pc as usize` for a 32-bit `pc`: the 64-bit number that is congruent to it. */
  function AsUsize(pc: int): (u: int)
    ensures pc >= 0 ==> u == pc
    ensures InSigned(pc, 4) ==> 0 <= u < TWO_TO_THE_64 && (u - pc) % TWO_TO_THE_64 == 0
  {
    Widths();
    if pc < 0 then pc + TWO_TO_THE_64 else pc
  }

  /**
   The entry frame is as large as the header's stack extent and as the frame and 16 bytes
   more. An empty one cannot be mapped. A module without data has no data address to start
   with, and the program panics.
   */
  predicate Startable(frame: nat, stackExtent: int, entrySize: int, origmp: Option<nat>) {
    && entrySize + 16 < 0x8000_0000 && (stackExtent > 0 || entrySize + 16 > 0) && origmp.Some?
    && frame + stackExtent < TWO_TO_THE_32 && frame + entrySize + 16 < TWO_TO_THE_32
  }

  class ExecutionContext {
    const code: seq<Instruction>
    /** What the memory behind the code happens to hold: fetching does not check its index. */
    const beyond: int -> Instruction
    var pc: int
    var insLeft: nat
    var mp: nat
    var fp: nat
    var sp: nat
    var ts: nat

    constructor (code: seq<Instruction>, beyond: int -> Instruction)
      ensures this.code == code && this.beyond == beyond
      ensures pc == 0 && insLeft == |code|
    {
      this.code, this.beyond := code, beyond;
      pc, insLeft := 0, |code|;
      mp, fp, sp, ts := 0, 0, 0, 0;
    }

    /**
     The entry frame, allocated at `frame`: room for the stack the header asks for and for
     the entry frame with its 16 bytes of bookkeeping.
     */
    method SetupEntryFrame(frame: nat, stackExtent: int, entrySize: int, entryPc: int, origmp: Option<nat>)
      returns (ok: bool)
      requires InSigned(stackExtent, 4) && InSigned(entrySize, 4) && InSigned(entryPc, 4)
      modifies this`pc, this`mp, this`fp, this`sp, this`ts
      ensures ok <==> Startable(frame, stackExtent, entrySize, origmp)
      ensures ok ==> sp == fp == frame && ts - sp >= stackExtent && ts - fp >= entrySize + 16
      ensures ok ==> ts - sp == stackExtent || ts - sp == entrySize + 16
      ensures ok ==> pc == AsUsize(entryPc) && mp == origmp.value
    {
      Widths();
      if !InSigned(entrySize + 16, 4) {
        return false;
      }
      var size := if stackExtent < entrySize + 16 then entrySize + 16 else stackExtent;
      if size <= 0 || frame + size >= TWO_TO_THE_32 {
        return false;
      }
      sp := frame;
      ts := frame + size;
      pc := AsUsize(entryPc);
      fp := sp;
      if origmp.None? {
        return false;
      }
      mp := origmp.value;
      ok := true;
    }

    function InstructionAt(i: int): Instruction {
      if 0 <= i < |code| then code[i] else beyond(i)
    }

    /** The instruction at the program counter; neither of the two counters may overflow. */
    method Fetch() returns (r: Result<Instruction>)
      modifies this`pc, this`insLeft
      ensures r == if old(insLeft) == 0 || old(pc) + 1 >= TWO_TO_THE_64 then Fail else Ok(InstructionAt(old(pc)))
      ensures r.Ok? && 0 <= old(pc) < |code| ==> r.value == code[old(pc)]
      ensures r.Ok? ==> pc == old(pc) + 1 && insLeft == old(insLeft) - 1
    {
      if insLeft == 0 {
        return Fail;
      }
      var ins := InstructionAt(pc);
      insLeft := insLeft - 1;
      if pc + 1 >= TWO_TO_THE_64 {
        return Fail;
      }
      pc := pc + 1;
      r := Ok(ins);
    }

    /** The fetch loop, for instruction bodies that do nothing. It returns what is fetched. */
    method Xec() returns (r: Result<seq<Fetched>>)
      modifies this`pc, this`insLeft
      ensures r.Ok? <==> old(insLeft) > 0 && old(pc) + old(insLeft) < TWO_TO_THE_64
      ensures r.Ok? ==> |r.value| == old(insLeft)
      ensures r.Ok? ==> forall k :: 0 <= k < |r.value| ==>
                r.value[k].at == old(pc) + k && IsIn(r.value[k], code, beyond)
      ensures r.Ok? ==> insLeft == 0 && pc == old(pc) + old(insLeft)
    {
      var fetched: seq<Fetched> := [];
      while true
        invariant pc + insLeft == old(pc) + old(insLeft)
        invariant |fetched| == pc - old(pc)
        invariant forall k :: 0 <= k < |fetched| ==> fetched[k].at == old(pc) + k && IsIn(fetched[k], code, beyond)
        invariant old(insLeft) > 0 <==> insLeft > 0
        invariant pc == old(pc) || pc < TWO_TO_THE_64
        decreases insLeft
      {
        var at := pc;
        var ins := Fetch();
        if ins.Fail? {
          return Fail;
        }
        fetched := fetched + [Fetched(at, ins.value)];
        if insLeft == 0 {
          break;
        }
      }
      r := Ok(fetched);
    }
  }

  /** An instruction and the index it was fetched from. */
  datatype Fetched = Fetched(at: int, ins: Instruction)

  /** The instruction is the one of the code at that index, or whatever lies there beside the code. */
  predicate IsIn(f: Fetched, code: seq<Instruction>, beyond: int -> Instruction) {
    f.ins == if 0 <= f.at < |code| then code[f.at] else beyond(f.at)
  }

  /** The indices from `from` on, `n` of them. */
  function Consecutive(from: int, n: nat): (r: seq<int>)
    ensures |r| == n && forall i :: 0 <= i < n ==> r[i] == from + i
  {
    seq(n, i requires 0 <= i < n => from + i)
  }

  function Indices(fs: seq<Fetched>): (r: seq<int>)
    ensures |r| == |fs| && forall i :: 0 <= i < |fs| ==> r[i] == fs[i].at
  {
    seq(|fs|, i requires 0 <= i < |fs| => fs[i].at)
  }

  function Instructions(fs: seq<Fetched>): (r: seq<Instruction>)
    ensures |r| == |fs| && forall i :: 0 <= i < |fs| ==> r[i] == fs[i].ins
  {
    seq(|fs|, i requires 0 <= i < |fs| => fs[i].ins)
  }

  /**
   With entry point `e` and `n > 0` instructions, exactly `n` are fetched, at `e` to
   `e + n - 1`: inside the code, and the whole of it, exactly when `e` is 0.
   */
  lemma FetchesInsideExactly(e: int, n: nat)
    requires n > 0
    ensures (forall i :: i in Consecutive(AsUsize(e), n) ==> 0 <= i < n) <==> AsUsize(e) == 0
    ensures InSigned(e, 4) ==> (AsUsize(e) == 0 <==> e == 0)
  {
    Widths();
    var r := Consecutive(AsUsize(e), n);
    assert r[0] in r && r[n - 1] in r;
  }

  /** A program set up with entry point `e` and run to the end. */
  method Start(
      code: seq<Instruction>, beyond: int -> Instruction, frame: nat, stackExtent: int, entrySize: int, entryPc: int,
      origmp: Option<nat>) returns (r: Result<seq<Fetched>>)
    requires InSigned(stackExtent, 4) && InSigned(entrySize, 4) && InSigned(entryPc, 4)
    ensures r.Ok? <==> && code != [] && Startable(frame, stackExtent, entrySize, origmp)
                       && AsUsize(entryPc) + |code| < TWO_TO_THE_64
    ensures r.Ok? ==> Indices(r.value) == Consecutive(AsUsize(entryPc), |code|)
    ensures r.Ok? ==> ((forall i :: i in Indices(r.value) ==> 0 <= i < |code|) <==> entryPc == 0)
    ensures r.Ok? && 0 <= entryPc ==> forall k :: 0 <= k < |code| - entryPc ==> r.value[k].ins == code[entryPc + k]
    ensures r.Ok? && entryPc == 0 ==> Instructions(r.value) == code
  {
    var ctx := new ExecutionContext(code, beyond);
    var ok := ctx.SetupEntryFrame(frame, stackExtent, entrySize, entryPc, origmp);
    if !ok {
      return Fail;
    }
    r := ctx.Xec();
    if r.Ok? {
      assert Indices(r.value) == Consecutive(AsUsize(entryPc), |code|);
      FetchesInsideExactly(entryPc, |code|);
    }
  }
}
