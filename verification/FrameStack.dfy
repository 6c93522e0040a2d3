/**
 The frame stack: frames are pushed at the front and popped from the back, and a push
 copies the prepared frame. That is a queue, and this module says exactly when it passes
 for the call stack it is meant to be.
 */
module FrameStack {
  import opened Bytes
  import opened ObjectFile

  datatype Frame = Frame(base: nat, entryIp: int)

  datatype Call = NewFrame(base: nat) | Push | Pop

  /** Held frames, oldest first, and the prepared frame. */
  datatype Frames = Frames(held: seq<Frame>, next: Option<Frame>)

  /** A queue: the oldest frame leaves first. The popped frame, if any, is returned too. */
  function Queue(s: Frames, c: Call): Result<(Frames, Option<Frame>)> {
    match c
    case NewFrame(base) => Ok((s.(next := Some(Frame(base, 0))), None))
    case Push => if s.next.None? then Fail else Ok((s.(held := s.held + [s.next.value]), None))
    case Pop => if s.held == [] then Fail else Ok((s.(held := s.held[1..]), Some(s.held[0])))
  }

  /** A call stack: the newest frame leaves first. */
  function CallStack(s: Frames, c: Call): Result<(Frames, Option<Frame>)> {
    match c
    case Pop =>
      if s.held == [] then Fail
      else Ok((s.(held := s.held[..|s.held| - 1]), Some(s.held[|s.held| - 1])))
    case _ => Queue(s, c)
  }

  /** The frames a sequence of calls pushes: each the one made last, as it was made. */
  function Pushed(next: Option<Frame>, cs: seq<Call>): seq<Frame>
    decreases |cs|
  {
    if cs == [] then []
    else
      match cs[0]
      case NewFrame(base) => Pushed(Some(Frame(base, 0)), cs[1..])
      case Push => (if next.Some? then [next.value] else []) + Pushed(next, cs[1..])
      case Pop => Pushed(next, cs[1..])
  }

  /** The frame prepared after a sequence of calls. */
  function Prepared(next: Option<Frame>, cs: seq<Call>): Option<Frame>
    decreases |cs|
  {
    if cs == [] then next
    else Prepared(if cs[0].NewFrame? then Some(Frame(cs[0].base, 0)) else next, cs[1..])
  }

  /** With `n` frames held: every push comes after a frame was made, and no pop finds none held. */
  predicate Permitted(n: nat, made: bool, cs: seq<Call>)
    decreases |cs|
  {
    cs == [] ||
    match cs[0]
    case NewFrame(_) => Permitted(n, true, cs[1..])
    case Push => made && Permitted(n + 1, made, cs[1..])
    case Pop => n > 0 && Permitted(n - 1, made, cs[1..])
  }

  class Stack {
    var frames: seq<Frame>
    var next: Option<Frame>

    constructor ()
      ensures State() == Frames([], None)
    {
      frames, next := [], None;
    }

    /** The deque runs from the newest frame to the oldest. */
    function State(): Frames
      reads this
    {
      Frames(Reversed(frames), next)
    }

    method PrepareFrame(base: nat)
      modifies this`next
      ensures Queue(old(State()), NewFrame(base)) == Ok((State(), None))
    {
      next := Some(Frame(base, 0));
    }

    method PushFrame() returns (ok: bool)
      modifies this`frames
      ensures ok <==> Queue(old(State()), Push).Ok?
      ensures ok ==> Queue(old(State()), Push) == Ok((State(), None))
    {
      if next.None? {
        return false;
      }
      frames := [next.value] + frames;
      ok := true;
    }

    method PopFrame() returns (r: Result<Frame>)
      modifies this`frames
      ensures r.Ok? <==> Queue(old(State()), Pop).Ok?
      ensures r.Ok? ==> Queue(old(State()), Pop) == Ok((State(), Some(r.value)))
    {
      ReversedEnds(frames);
      if frames == [] {
        return Fail;
      }
      r := Ok(frames[|frames| - 1]);
      frames := frames[..|frames| - 1];
    }

    /** Any sequence of calls: it returns the frames popped. First in, first out. */
    method Perform(cs: seq<Call>) returns (r: Result<seq<Frame>>)
      modifies this
      ensures r.Ok? <==> Permitted(|old(State()).held|, old(State()).next.Some?, cs)
      ensures r.Ok? ==> old(State()).held + Pushed(old(State()).next, cs) == r.value + State().held
      ensures r.Ok? ==> State().next == Prepared(old(State()).next, cs)
    {
      ghost var s0 := State();
      var popped: seq<Frame> := [];
      assert cs[0..] == cs && [] + State().held == State().held;
      for i := 0 to |cs|
        invariant s0.held + Pushed(s0.next, cs) == popped + State().held + Pushed(next, cs[i..])
        invariant Prepared(s0.next, cs) == Prepared(next, cs[i..])
        invariant Permitted(|s0.held|, s0.next.Some?, cs) <==> Permitted(|State().held|, next.Some?, cs[i..])
      {
        ghost var s := State();
        assert cs[i..][1..] == cs[i + 1..];
        match cs[i] {
          case NewFrame(base) =>
            PrepareFrame(base);
          case Push =>
            var ok := PushFrame();
            if !ok {
              return Fail;
            }
            PushMoves(popped, s.held, s.next.value, Pushed(next, cs[i + 1..]));
          case Pop =>
            var f := PopFrame();
            if f.Fail? {
              return Fail;
            }
            PopMoves(popped, s.held, f.value, State().held, Pushed(next, cs[i + 1..]));
            popped := popped + [f.value];
        }
      }
      r := Ok(popped);
    }
  }

  lemma PushMoves(popped: seq<Frame>, held: seq<Frame>, f: Frame, rest: seq<Frame>)
    ensures popped + held + ([f] + rest) == popped + (held + [f]) + rest
  {
  }

  lemma PopMoves(popped: seq<Frame>, held: seq<Frame>, f: Frame, left: seq<Frame>, rest: seq<Frame>)
    requires held == [f] + left
    ensures popped + held + rest == popped + [f] + left + rest
  {
  }

  function Reversed(s: seq<Frame>): (r: seq<Frame>)
    ensures |r| == |s|
  {
    if s == [] then [] else Reversed(s[1..]) + [s[0]]
  }

  lemma {:induction false} ReversedEnds(s: seq<Frame>)
    ensures s != [] ==> Reversed(s)[0] == s[|s| - 1] && Reversed(s)[1..] == Reversed(s[..|s| - 1])
    decreases |s|
  {
    if |s| > 1 {
      ReversedEnds(s[1..]);
      assert s[1..][..|s| - 2] == s[..|s| - 1][1..];
      assert Reversed(s)[1..] == Reversed(s[1..])[1..] + [s[0]];
    }
  }

  // Whole runs

  /** The states after each call of a run, and the frames popped. */
  datatype Trace = Trace(states: seq<Frames>, popped: seq<Frame>)

  function Run(step: (Frames, Call) -> Result<(Frames, Option<Frame>)>, s: Frames, cs: seq<Call>): Result<Trace>
    decreases |cs|
  {
    if cs == [] then Ok(Trace([], []))
    else
      var (s1, out) :- step(s, cs[0]);
      var t :- Run(step, s1, cs[1..]);
      Ok(Trace([s1] + t.states, (if out.Some? then [out.value] else []) + t.popped))
  }

  /** The state at the end of a run. */
  function Final(s: Frames, t: Trace): Frames {
    if t.states == [] then s else t.states[|t.states| - 1]
  }

  /** A run succeeds exactly when every push finds a frame made and every pop a frame held. */
  lemma {:induction false} RunSucceedsExactly(s: Frames, cs: seq<Call>)
    ensures Run(Queue, s, cs).Ok? <==> Permitted(|s.held|, s.next.Some?, cs)
    decreases |cs|
  {
    if cs != [] && Queue(s, cs[0]).Ok? {
      RunSucceedsExactly(Queue(s, cs[0]).value.0, cs[1..]);
    }
  }

  /**
   First in, first out: over every run, the frames held at the start and then the frames
   pushed are the frames popped and then the frames held at the end.
   */
  lemma {:induction false} FirstInFirstOut(s: Frames, cs: seq<Call>)
    requires Run(Queue, s, cs).Ok?
    ensures var t := Run(Queue, s, cs).value;
            && s.held + Pushed(s.next, cs) == t.popped + Final(s, t).held
            && Final(s, t).next == Prepared(s.next, cs)
    decreases |cs|
  {
    if cs != [] {
      var (s1, out) := Queue(s, cs[0]).value;
      var t1 := Run(Queue, s1, cs[1..]).value;
      FirstInFirstOut(s1, cs[1..]);
      assert Final(s, Run(Queue, s, cs).value) == Final(s1, t1);
      OneIn(s, cs);
      hide Queue, Pushed, Prepared, Final, Run;
      OneOut(s.held, PushedBy(s, cs[0]), Pushed(s1.next, cs[1..]), if out.Some? then [out.value] else [], s1.held,
             t1.popped, Final(s1, t1).held);
    }
  }

  /** The frame a call pushes. */
  function PushedBy(s: Frames, c: Call): seq<Frame> {
    if c.Push? && s.next.Some? then [s.next.value] else []
  }

  lemma OneIn(s: Frames, cs: seq<Call>)
    requires cs != [] && Queue(s, cs[0]).Ok?
    ensures var (s1, out) := Queue(s, cs[0]).value;
            && s.held + PushedBy(s, cs[0]) == (if out.Some? then [out.value] else []) + s1.held
            && Pushed(s.next, cs) == PushedBy(s, cs[0]) + Pushed(s1.next, cs[1..])
            && Prepared(s.next, cs) == Prepared(s1.next, cs[1..])
  {
    if cs[0].Pop? {
      assert s.held == [s.held[0]] + s.held[1..];
    }
  }

  lemma OneOut(held: seq<Frame>, one: seq<Frame>, rest: seq<Frame>, out: seq<Frame>, held1: seq<Frame>,
               popped: seq<Frame>, final: seq<Frame>)
    requires held + one == out + held1 && held1 + rest == popped + final
    ensures held + (one + rest) == (out + popped) + final
  {
    assert held + (one + rest) == (held + one) + rest;
    assert (out + held1) + rest == out + (held1 + rest);
  }

  predicate Uniform(held: seq<Frame>) {
    forall i :: 0 <= i < |held| ==> held[i] == held[0]
  }

  /** No pop happens while two differing frames are held. */
  predicate PopsUniform(s: Frames, cs: seq<Call>)
    decreases |cs|
  {
    cs == [] ||
    ((cs[0].Pop? ==> Uniform(s.held)) &&
     (Queue(s, cs[0]).Ok? ==> PopsUniform(Queue(s, cs[0]).value.0, cs[1..])))
  }

  /** Dropping the first element and dropping the last come to the same only if all are equal. */
  lemma {:induction false} DropsAgree(held: seq<Frame>, i: nat)
    requires held != [] && i < |held| && held[1..] == held[..|held| - 1]
    ensures held[i] == held[0]
    decreases i
  {
    if i > 0 {
      DropsAgree(held, i - 1);
      assert held[i] == held[1..][i - 1] == held[..|held| - 1][i - 1];
    }
  }

  lemma StepsAgree(s: Frames, c: Call)
    ensures Queue(s, c) == CallStack(s, c) <==> (c.Pop? ==> Uniform(s.held))
    ensures Queue(s, c).Ok? <==> CallStack(s, c).Ok?
    ensures Queue(s, c).Ok? && Queue(s, c).value.0 == CallStack(s, c).value.0 ==> Queue(s, c) == CallStack(s, c)
  {
    if c.Pop? && s.held != [] {
      var n := |s.held|;
      if s.held[1..] == s.held[..n - 1] {
        forall i | 0 <= i < n
          ensures s.held[i] == s.held[0]
        {
          DropsAgree(s.held, i);
        }
      }
    }
  }

  /**
   The frame stack passes for a call stack, in every state and every popped frame of a run,
   exactly on the runs in which no pop happens while two or more differing frames are held.
   */
  lemma {:induction false} QueueIsCallStackExactly(s: Frames, cs: seq<Call>)
    requires Run(Queue, s, cs).Ok?
    ensures Run(Queue, s, cs) == Run(CallStack, s, cs) <==> PopsUniform(s, cs)
    decreases |cs|
  {
    if cs != [] {
      StepsAgree(s, cs[0]);
      QueueIsCallStackExactly(Queue(s, cs[0]).value.0, cs[1..]);
      var (q, out) := Queue(s, cs[0]).value;
      var (c, out') := CallStack(s, cs[0]).value;
      var tq := Run(Queue, q, cs[1..]).value;
      var rc := Run(CallStack, c, cs[1..]);
      assert Run(Queue, s, cs).value.states[0] == q;
      if rc.Ok? {
        assert Run(CallStack, s, cs).value.states[0] == c;
        if q == c {
          assert [q] + tq.states == [c] + rc.value.states ==> tq.states == rc.value.states by {
            assert ([q] + tq.states)[1..] == tq.states && ([c] + rc.value.states)[1..] == rc.value.states;
          }
          assert out == out';
          SameTail(if out.Some? then [out.value] else [], tq.popped, rc.value.popped);
        }
      }
    }
  }

  lemma SameTail(x: seq<Frame>, y: seq<Frame>, z: seq<Frame>)
    ensures x + y == x + z <==> y == z
  {
    assert (x + y)[|x|..] == y && (x + z)[|x|..] == z;
  }

  /** Two calls from the empty stack, at different frames, and one return. */
  function TwoCalls(a: nat, b: nat): seq<Call> {
    [NewFrame(a), Push, NewFrame(b), Push, Pop]
  }

  /** A call that pops nothing, in front of a run. */
  lemma RunStep(step: (Frames, Call) -> Result<(Frames, Option<Frame>)>, s: Frames, c: Call, rest: seq<Call>, t: Trace)
    requires step(s, c).Ok? && step(s, c).value.1 == None && Run(step, step(s, c).value.0, rest) == Ok(t)
    ensures Run(step, s, [c] + rest) == Ok(Trace([step(s, c).value.0] + t.states, t.popped))
  {
    assert ([c] + rest)[1..] == rest && [] + t.popped == t.popped;
  }

  lemma RunPop(step: (Frames, Call) -> Result<(Frames, Option<Frame>)>, s: Frames)
    requires step(s, Pop).Ok? && step(s, Pop).value.1.Some?
    ensures Run(step, s, [Pop]) == Ok(Trace([step(s, Pop).value.0], [step(s, Pop).value.1.value]))
  {
    var (s1, out) := step(s, Pop).value;
    assert Run(step, s1, [Pop][1..]) == Ok(Trace([], []));
    assert [s1] + [] == [s1] && [out.value] + [] == [out.value];
  }

  /** A run of `TwoCalls`: only its last state and the popped frame depend on the order of popping. */
  lemma TwoCallsRun(step: (Frames, Call) -> Result<(Frames, Option<Frame>)>, a: nat, b: nat, left: Frame, out: Frame)
    requires forall s: Frames, c: Call :: !c.Pop? ==> step(s, c) == Queue(s, c)
    requires var next := Some(Frame(b, 0));
             step(Frames([Frame(a, 0), Frame(b, 0)], next), Pop) == Ok((Frames([left], next), Some(out)))
    ensures var f, g := Frame(a, 0), Frame(b, 0);
            Run(step, Frames([], None), TwoCalls(a, b)) ==
            Ok(Trace([Frames([], Some(f)), Frames([f], Some(f)), Frames([f], Some(g)), Frames([f, g], Some(g)),
                      Frames([left], Some(g))], [out]))
  {
    hide Run;
    var f, g := Frame(a, 0), Frame(b, 0);
    var s0, s1, s2, s3, s4, s5 := Frames([], None), Frames([], Some(f)), Frames([f], Some(f)),
                                  Frames([f], Some(g)), Frames([f, g], Some(g)), Frames([left], Some(g));
    assert [] + [f] == [f] && [f] + [g] == [f, g];
    RunPop(step, s4);
    RunStep(step, s3, Push, [Pop], Trace([s5], [out]));
    RunStep(step, s2, NewFrame(b), [Push] + [Pop], Trace([s4] + [s5], [out]));
    RunStep(step, s1, Push, [NewFrame(b)] + ([Push] + [Pop]), Trace([s3] + ([s4] + [s5]), [out]));
    RunStep(step, s0, NewFrame(a), [Push] + ([NewFrame(b)] + ([Push] + [Pop])),
            Trace([s2] + ([s3] + ([s4] + [s5])), [out]));
    assert [NewFrame(a)] + ([Push] + ([NewFrame(b)] + ([Push] + [Pop]))) == TwoCalls(a, b);
    assert [s1] + ([s2] + ([s3] + ([s4] + [s5]))) == [s1, s2, s3, s4, s5];
  }

  /** The return gives back the older frame, where a call stack gives back the newer one. */
  lemma TwoFramesTellThemApart(a: nat, b: nat)
    requires a != b
    ensures var q := Run(Queue, Frames([], None), TwoCalls(a, b));
            q.Ok? && q.value.popped == [Frame(a, 0)] && |q.value.states| == 5 && q.value.states[4].held == [Frame(b, 0)]
    ensures var c := Run(CallStack, Frames([], None), TwoCalls(a, b));
            c.Ok? && c.value.popped == [Frame(b, 0)] && |c.value.states| == 5 && c.value.states[4].held == [Frame(a, 0)]
  {
    hide Run;
    var held := [Frame(a, 0), Frame(b, 0)];
    assert held[1..] == [Frame(b, 0)] && held[..1] == [Frame(a, 0)];
    TwoCallsRun(Queue, a, b, Frame(b, 0), Frame(a, 0));
    TwoCallsRun(CallStack, a, b, Frame(a, 0), Frame(b, 0));
  }
}
