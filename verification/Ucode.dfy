/** The micro-code sequencer of the MAC engine: a flat state machine that walks a nest of
    hardware loops, and the interpreter of the micro-instructions it issues. */
module Ucode {
  import Arith

  /** One entry of the loop table. `ucodeAddr` is the address of the first instruction of its block. */
  datatype Loop = Loop(nbOps: nat, range: int, ucodeAddr: nat)

  datatype State = State(addr: nat, loop: nat, op: nat, idx: seq<int>)

  datatype StepResult = StepResult(execute: bool, end: bool, busy: bool, next: State)

  /** The instruction `op` of the block of `loop`, issued from address `addr`. */
  datatype Event = Event(loop: nat, op: nat, addr: nat)

  ghost predicate Shape(loops: seq<Loop>, s: State) {
    s.loop < |loops| == |s.idx|
  }

  function Zeros(n: nat): (z: seq<int>)
    ensures |z| == n && forall j :: 0 <= j < n ==> z[j] == 0
  {
    seq(n, _ => 0)
  }

  /** What one call of the state machine returns, as a function of the state it was given. */
  function Step(loops: seq<Loop>, s: State): (r: StepResult)
    requires s.loop < |loops| == |s.idx|
  {
    var l := loops[s.loop];
    if s.idx[s.loop] < l.range - 1 && s.op < l.nbOps - 1 then
      StepResult(true, false, true, State(s.addr + 1, s.loop, s.op + 1, s.idx))
    else if s.idx[s.loop] < l.range - 1 then
      var cleared := Zeros(s.loop) + [s.idx[s.loop] + 1] + s.idx[s.loop + 1..];
      StepResult(true, false, false, State(loops[0].ucodeAddr, 0, 0, cleared))
    else if s.loop < |loops| - 1 then
      StepResult(false, false, true, State(loops[s.loop + 1].ucodeAddr, s.loop + 1, 0, s.idx))
    else
      StepResult(false, true, false, State(0, 0, 0, Zeros(|loops|)))
  }

  /** The state machine itself. The index vector is updated in place: the array that comes back is
      the one that went in, except at termination, where a fresh zero vector replaces it. */
  method StateMachine(loops: seq<Loop>, addr: nat, loop: nat, op: nat, idx: array<int>)
    returns (execute: bool, end: bool, busy: bool, nextAddr: nat, nextLoop: nat, nextOp: nat, nextIdx: array<int>)
    requires loop < |loops| == idx.Length
    modifies idx
    ensures StepResult(execute, end, busy, State(nextAddr, nextLoop, nextOp, nextIdx[..]))
            == Step(loops, State(addr, loop, op, old(idx[..])))
    ensures if end then fresh(nextIdx) && idx[..] == old(idx[..]) else nextIdx == idx
  {
    nextAddr, nextLoop, nextOp, nextIdx := addr, loop, op, idx;
    end, busy, execute := false, false, false;
    if idx[loop] < loops[loop].range - 1 && op < loops[loop].nbOps - 1 {
      nextAddr := addr + 1;
      nextOp := op + 1;
      busy := true;
      execute := true;
    } else if idx[loop] < loops[loop].range - 1 && loop > 0 {
      nextLoop := 0;
      for j := 0 to loop
        invariant forall i :: 0 <= i < j ==> idx[i] == 0
        invariant forall i :: j <= i < idx.Length ==> idx[i] == old(idx[i])
      {
        idx[j] := 0;
      }
      idx[loop] := idx[loop] + 1;
      assert idx[..] == Zeros(loop) + [old(idx[loop]) + 1] + old(idx[loop + 1..]);
      nextAddr := loops[0].ucodeAddr;
      nextOp := 0;
      busy := false;
      execute := true;
    } else if idx[loop] < loops[loop].range - 1 {
      nextAddr := loops[loop].ucodeAddr;
      nextOp := 0;
      idx[loop] := idx[loop] + 1;
      assert idx[..] == Zeros(0) + [old(idx[0]) + 1] + old(idx[1..]);
      busy := false;
      execute := true;
    } else if loop < |loops| - 1 {
      nextLoop := loop + 1;
      nextAddr := loops[loop + 1].ucodeAddr;
      nextOp := 0;
      busy := true;
      execute := false;
    } else {
      end := true;
      nextLoop, nextAddr, nextOp := 0, 0, 0;
      nextIdx := new int[|loops|](_ => 0);
      assert nextIdx[..] == Zeros(|loops|);
      busy := false;
      execute := false;
    }
  }

  /** The three flags: an instruction is issued as long as the current loop has iterations left; the machine is busy as
      long as the indices stand and the run has not ended; the end issues nothing. */
  lemma {:induction false} StepFlags(loops: seq<Loop>, s: State)
    requires Shape(loops, s)
    ensures var r := Step(loops, s);
            && (r.execute <==> s.idx[s.loop] < loops[s.loop].range - 1)
            && (r.busy <==> !r.end && r.next.idx == s.idx)
            && (r.end <==> !r.execute && s.loop == |loops| - 1)
  {
    var r := Step(loops, s);
    if r.execute && !r.busy {
      assert r.next.idx[s.loop] == s.idx[s.loop] + 1;
    }
  }

  // ---- The structured program that the loop table stands for ----

  /** A loop of range r runs its own block r - 1 times, between r passes over the loops below it. */
  function Reps(l: Loop): nat { if l.range >= 1 then l.range - 1 else 0 }

  function Range(l: Loop): nat { Reps(l) + 1 }

  /** A block issues at least one instruction each time it is entered. */
  function Len(l: Loop): nat { if l.nbOps >= 1 then l.nbOps else 1 }

  function BlockFrom(loops: seq<Loop>, k: nat, o: nat): seq<Event>
    requires k < |loops| && o <= Len(loops[k])
    decreases Len(loops[k]) - o
  {
    if o == Len(loops[k]) then []
    else [Event(k, o, loops[k].ucodeAddr + o)] + BlockFrom(loops, k, o + 1)
  }

  function Repeat(n: nat, t: seq<Event>): seq<Event> {
    if n == 0 then [] else t + Repeat(n - 1, t)
  }

  /** Trace of the nest formed by the loops below k:
      body(k + 1) is body(k) followed by (block k; body(k)) repeated range - 1 times. */
  function Body(loops: seq<Loop>, k: nat): seq<Event>
    requires k <= |loops|
  {
    if k == 0 then []
    else Body(loops, k - 1)
         + Repeat(Reps(loops[k - 1]), BlockFrom(loops, k - 1, 0) + Body(loops, k - 1))
  }

  /** Steps that the machine spends before it reaches loop k with every loop below exhausted. */
  function Steps(loops: seq<Loop>, k: nat): nat
    requires k <= |loops|
  {
    if k == 0 then 0
    else Steps(loops, k - 1) + Reps(loops[k - 1]) * (Len(loops[k - 1]) + Steps(loops, k - 1)) + 1
  }

  // ---- Runs of the machine ----

  /** What n consecutive steps issue, the state they reach, how many index increments (executing
      steps that are not busy) and how many terminations they contain. */
  datatype Outcome = Outcome(trace: seq<Event>, state: State, increments: nat, ends: nat)

  function Run(loops: seq<Loop>, s: State, n: nat): (out: Outcome)
    requires s.loop < |loops| == |s.idx|
    ensures Shape(loops, out.state)
    decreases n
  {
    if n == 0 then Outcome([], s, 0, 0)
    else
      var r := Step(loops, s);
      var rest := Run(loops, r.next, n - 1);
      Outcome((if r.execute then [Event(s.loop, s.op, s.addr)] else []) + rest.trace,
              rest.state,
              (if r.execute && !r.busy then 1 else 0) + rest.increments,
              (if r.end then 1 else 0) + rest.ends)
  }

  function Joined(a: Outcome, b: Outcome): Outcome {
    Outcome(a.trace + b.trace, b.state, a.increments + b.increments, a.ends + b.ends)
  }

  /** What one step contributes. */
  function First(loops: seq<Loop>, s: State): Outcome
    requires s.loop < |loops| == |s.idx|
  {
    var r := Step(loops, s);
    Outcome(if r.execute then [Event(s.loop, s.op, s.addr)] else [], r.next,
            if r.execute && !r.busy then 1 else 0, if r.end then 1 else 0)
  }

  lemma {:induction false} JoinedAssoc(a: Outcome, b: Outcome, c: Outcome)
    ensures Joined(Joined(a, b), c) == Joined(a, Joined(b, c))
  {
    assert (a.trace + b.trace) + c.trace == a.trace + (b.trace + c.trace);
  }

  lemma {:induction false} JoinedNothing(s: State, a: Outcome)
    ensures Joined(Outcome([], s, 0, 0), a) == a
  {
    assert [] + a.trace == a.trace;
  }

  lemma {:induction false} RunUnfold(loops: seq<Loop>, s: State, n: nat)
    requires Shape(loops, s) && n > 0
    ensures Run(loops, s, n) == Joined(First(loops, s), Run(loops, Step(loops, s).next, n - 1))
  {
  }

  /** The run of m + n steps is that of m steps, continued for n. */
  ghost predicate Splits(loops: seq<Loop>, s: State, m: nat, n: nat)
    requires Shape(loops, s)
  {
    Run(loops, s, m + n) == Joined(Run(loops, s, m), Run(loops, Run(loops, s, m).state, n))
  }

  lemma {:induction false} SplitNone(loops: seq<Loop>, s: State, n: nat)
    requires Shape(loops, s)
    ensures Splits(loops, s, 0, n)
  {
    JoinedNothing(s, Run(loops, s, n));
  }

  /** One more step in front of a run that is already split. */
  lemma {:induction false} SplitOnce(loops: seq<Loop>, s: State, m: nat, n: nat)
    requires Shape(loops, s) && m > 0 && Splits(loops, Step(loops, s).next, m - 1, n)
    ensures Splits(loops, s, m, n)
  {
    var a := Run(loops, Step(loops, s).next, m - 1);
    RunUnfold(loops, s, m);
    RunUnfold(loops, s, m + n);
    JoinedAssoc(First(loops, s), a, Run(loops, a.state, n));
  }

  lemma {:induction false} RunSplit(loops: seq<Loop>, s: State, m: nat, n: nat)
    requires Shape(loops, s)
    ensures Run(loops, s, m + n) == Joined(Run(loops, s, m), Run(loops, Run(loops, s, m).state, n))
    decreases m
  {
    if m == 0 {
      SplitNone(loops, s, n);
    } else {
      RunSplit(loops, Step(loops, s).next, m - 1, n);
      SplitOnce(loops, s, m, n);
    }
    assert Splits(loops, s, m, n);
  }

  lemma {:induction false} RunOne(loops: seq<Loop>, s: State)
    requires Shape(loops, s)
    ensures var r := Step(loops, s);
            Run(loops, s, 1) == Outcome(if r.execute then [Event(s.loop, s.op, s.addr)] else [], r.next,
                                        if r.execute && !r.busy then 1 else 0, if r.end then 1 else 0)
  {
    var r := Step(loops, s);
    assert Run(loops, r.next, 0) == Outcome([], r.next, 0, 0);
  }

  /** One more step behind a run. */
  lemma {:induction false} RunNext(loops: seq<Loop>, s: State, n: nat)
    requires Shape(loops, s)
    ensures Run(loops, s, n + 1) == Joined(Run(loops, s, n), First(loops, Run(loops, s, n).state))
  {
    RunSplit(loops, s, n, 1);
    RunOne(loops, Run(loops, s, n).state);
  }

  // ---- The flat machine issues the trace of the nest ----

  function Entry(loops: seq<Loop>, k: nat, idx: seq<int>): State
    requires k < |loops|
  {
    State(loops[k].ucodeAddr, k, 0, idx)
  }

  function Top(loops: seq<Loop>, k: nat): (t: seq<int>)
    requires k <= |loops|
    ensures |t| == k && forall j :: 0 <= j < k ==> t[j] == Reps(loops[j])
  {
    seq(k, j requires 0 <= j < k => Reps(loops[j]))
  }

  ghost predicate Reaches(loops: seq<Loop>, s: State, n: nat, trace: seq<Event>, t: State) {
    Shape(loops, s) && Run(loops, s, n).trace == trace && Run(loops, s, n).state == t
    && Run(loops, s, n).ends == 0
  }

  lemma {:induction false} ReachesTrans(loops: seq<Loop>, s: State, m: nat, a: seq<Event>, t: State, n: nat,
                                        b: seq<Event>, u: State)
    requires Reaches(loops, s, m, a, t) && Reaches(loops, t, n, b, u)
    ensures Reaches(loops, s, m + n, a + b, u)
  {
    RunSplit(loops, s, m, n);
  }

  lemma {:induction false} ReachesStep(loops: seq<Loop>, s: State)
    requires Shape(loops, s) && !Step(loops, s).end
    ensures var r := Step(loops, s);
            Reaches(loops, s, 1, if r.execute then [Event(s.loop, s.op, s.addr)] else [], r.next)
  {
    RunOne(loops, s);
  }

  function Carried(k: nat, idx: seq<int>): seq<int>
    requires k < |idx|
  {
    Zeros(k) + [idx[k] + 1] + idx[k + 1..]
  }

  lemma {:induction false} RunBlock(loops: seq<Loop>, k: nat, o: nat, idx: seq<int>)
    requires k < |loops| == |idx| && o < Len(loops[k]) && 0 <= idx[k] < Reps(loops[k])
    ensures Reaches(loops, State(loops[k].ucodeAddr + o, k, o, idx), Len(loops[k]) - o,
                    BlockFrom(loops, k, o), Entry(loops, 0, Carried(k, idx)))
    decreases Len(loops[k]) - o
  {
    var s := State(loops[k].ucodeAddr + o, k, o, idx);
    ReachesStep(loops, s);
    if o + 1 < Len(loops[k]) {
      RunBlock(loops, k, o + 1, idx);
      ReachesTrans(loops, s, 1, [Event(k, o, s.addr)], Step(loops, s).next,
                   Len(loops[k]) - o - 1, BlockFrom(loops, k, o + 1), Entry(loops, 0, Carried(k, idx)));
    } else {
      assert BlockFrom(loops, k, o) == [Event(k, o, s.addr)];
    }
  }

  /** One execution of the block of loop k, and the climb back to it. */
  lemma {:induction false} RunOnce(loops: seq<Loop>, k: nat, idx: seq<int>)
    requires k < |loops| == |idx| && idx[..k] == Top(loops, k) && 0 <= idx[k] < Reps(loops[k])
    ensures Reaches(loops, Entry(loops, k, idx), Len(loops[k]) + Steps(loops, k),
                    BlockFrom(loops, k, 0) + Body(loops, k), Entry(loops, k, idx[k := idx[k] + 1]))
    decreases k, 1
  {
    RunBlock(loops, k, 0, idx);
    var carried := Carried(k, idx);
    assert carried[..k] == Zeros(k);
    RunBody(loops, k, carried);
    assert Top(loops, k) + carried[k..] == idx[k := idx[k] + 1];
    ReachesTrans(loops, Entry(loops, k, idx), Len(loops[k]), BlockFrom(loops, k, 0), Entry(loops, 0, carried),
                 Steps(loops, k), Body(loops, k), Entry(loops, k, idx[k := idx[k] + 1]));
  }

  lemma {:induction false} RunIterations(loops: seq<Loop>, k: nat, idx: seq<int>, m: nat)
    requires k < |loops| == |idx| && idx[..k] == Top(loops, k) && idx[k] == Reps(loops[k]) - m >= 0
    ensures Reaches(loops, Entry(loops, k, idx), m * (Len(loops[k]) + Steps(loops, k)),
                    Repeat(m, BlockFrom(loops, k, 0) + Body(loops, k)),
                    Entry(loops, k, idx[k := Reps(loops[k])]))
    decreases k, m + 1
  {
    var s, last := Entry(loops, k, idx), Entry(loops, k, idx[k := Reps(loops[k])]);
    if m == 0 {
      assert idx[k := Reps(loops[k])] == idx;
    } else {
      var pass, d := BlockFrom(loops, k, 0) + Body(loops, k), Len(loops[k]) + Steps(loops, k);
      var next := idx[k := idx[k] + 1];
      RunOnce(loops, k, idx);
      assert next[..k] == idx[..k];
      RunIterations(loops, k, next, m - 1);
      assert next[k := Reps(loops[k])] == idx[k := Reps(loops[k])];
      ReachesTrans(loops, s, d, pass, Entry(loops, k, next), (m - 1) * d, Repeat(m - 1, pass), last);
      Arith.Distribute(m - 1, 1, d);
    }
  }

  lemma {:induction false} RunBody(loops: seq<Loop>, k: nat, idx: seq<int>)
    requires k < |loops| == |idx| && idx[..k] == Zeros(k)
    ensures Reaches(loops, Entry(loops, 0, idx), Steps(loops, k), Body(loops, k),
                    Entry(loops, k, Top(loops, k) + idx[k..]))
    decreases k, 0
  {
    if k == 0 {
      assert Top(loops, 0) + idx[0..] == idx;
    } else {
      var j := k - 1;
      var out := RunNest(loops, j, idx);
      var s := Entry(loops, j, out);
      assert Step(loops, s).next == Entry(loops, k, out);
      ReachesStep(loops, s);
      ReachesTrans(loops, Entry(loops, 0, idx), Steps(loops, k) - 1, Body(loops, k), s, 1, [], Entry(loops, k, out));
      assert Body(loops, k) + [] == Body(loops, k);
    }
  }

  lemma {:induction false} NextLoop(loops: seq<Loop>, k: nat)
    requires k < |loops|
    ensures Steps(loops, k + 1) - 1 == Steps(loops, k) + Reps(loops[k]) * (Len(loops[k]) + Steps(loops, k))
    ensures Body(loops, k + 1) == Body(loops, k) + Repeat(Reps(loops[k]), BlockFrom(loops, k, 0) + Body(loops, k))
  {
  }

  lemma {:induction false} NextTop(loops: seq<Loop>, k: nat, idx: seq<int>)
    requires k < |loops| == |idx|
    ensures (Top(loops, k) + idx[k..])[k := Reps(loops[k])] == Top(loops, k + 1) + idx[k + 1..]
  {
  }

  /** The passes of loop k after the first run of the nest below it. */
  lemma {:induction false} NestThenPasses(loops: seq<Loop>, k: nat, s: State, mid: State, out: State)
    requires k < |loops| && Reaches(loops, s, Steps(loops, k), Body(loops, k), mid)
    requires Reaches(loops, mid, Reps(loops[k]) * (Len(loops[k]) + Steps(loops, k)),
                     Repeat(Reps(loops[k]), BlockFrom(loops, k, 0) + Body(loops, k)), out)
    ensures Reaches(loops, s, Steps(loops, k + 1) - 1, Body(loops, k + 1), out)
  {
    NextLoop(loops, k);
    ReachesTrans(loops, s, Steps(loops, k), Body(loops, k), mid, Reps(loops[k]) * (Len(loops[k]) + Steps(loops, k)),
                 Repeat(Reps(loops[k]), BlockFrom(loops, k, 0) + Body(loops, k)), out);
  }

  /** Up to the point where loop k itself is exhausted. */
  lemma {:induction false} RunNest(loops: seq<Loop>, k: nat, idx: seq<int>) returns (out: seq<int>)
    requires k < |loops| == |idx| && idx[..k + 1] == Zeros(k + 1)
    ensures out == Top(loops, k + 1) + idx[k + 1..]
    ensures Reaches(loops, Entry(loops, 0, idx), Steps(loops, k + 1) - 1, Body(loops, k + 1), Entry(loops, k, out))
    decreases k, Reps(loops[k]) + 2
  {
    assert idx[..k] == idx[..k + 1][..k] == Zeros(k);
    assert idx[k] == idx[..k + 1][k] == 0;
    RunBody(loops, k, idx);
    var mid := Top(loops, k) + idx[k..];
    assert mid[..k] == Top(loops, k);
    out := mid[k := Reps(loops[k])];
    RunIterations(loops, k, mid, Reps(loops[k]));
    NestThenPasses(loops, k, Entry(loops, 0, idx), Entry(loops, k, mid), Entry(loops, k, out));
    NextTop(loops, k, idx);
  }

  /** The state the machine is started in, and comes back to. */
  function Start(loops: seq<Loop>): State { State(0, 0, 0, Zeros(|loops|)) }

  /** Everything but the last step of a complete run: the state it leaves is the one that terminates. */
  lemma {:induction false} RunUpToEnd(loops: seq<Loop>) returns (last: State)
    requires |loops| > 0 && loops[0].ucodeAddr == 0
    ensures Steps(loops, |loops|) > 0
    ensures Reaches(loops, Start(loops), Steps(loops, |loops|) - 1, Body(loops, |loops|), last)
    ensures Step(loops, last) == StepResult(false, true, false, Start(loops))
  {
    var k := |loops| - 1;
    var out := RunNest(loops, k, Start(loops).idx);
    last := Entry(loops, k, out);
  }

  lemma {:induction false} EndsGrow(loops: seq<Loop>, s: State, m: nat, n: nat)
    requires Shape(loops, s) && m <= n
    ensures Run(loops, s, m).ends <= Run(loops, s, n).ends
  {
    RunSplit(loops, s, m, n - m);
  }

  lemma {:induction false} LastStep(loops: seq<Loop>, last: State)
    requires |loops| > 0 && loops[0].ucodeAddr == 0 && Steps(loops, |loops|) > 0
    requires Reaches(loops, Start(loops), Steps(loops, |loops|) - 1, Body(loops, |loops|), last)
    requires Step(loops, last) == StepResult(false, true, false, Start(loops))
    ensures var out := Run(loops, Start(loops), Steps(loops, |loops|));
            out.trace == Body(loops, |loops|) && out.state == Start(loops) && out.ends == 1
  {
    var body := Body(loops, |loops|);
    RunSplit(loops, Start(loops), Steps(loops, |loops|) - 1, 1);
    RunOne(loops, last);
    assert body + [] == body;
  }

  lemma {:induction false} NotBefore(loops: seq<Loop>, s: State, n: nat)
    requires Shape(loops, s) && n > 0 && Run(loops, s, n - 1).ends == 0
    ensures forall m: nat :: m < n ==> Run(loops, s, m).ends == 0
  {
    forall m: nat | m < n ensures Run(loops, s, m).ends == 0 {
      EndsGrow(loops, s, m, n - 1);
    }
  }

  /** Compiler correctness: from the zero state the machine issues exactly the trace of the loop
      nest, terminates at its `Steps`-th step and not before, and is then back in the zero state. */
  lemma {:induction false} MachineRunsTheNest(loops: seq<Loop>)
    requires |loops| > 0 && loops[0].ucodeAddr == 0
    ensures var n := Steps(loops, |loops|);
            var out := Run(loops, Start(loops), n);
            && out.trace == Body(loops, |loops|)
            && out.state == Start(loops)
            && out.ends == 1
            && forall m: nat :: m < n ==> Run(loops, Start(loops), m).ends == 0
  {
    var last := RunUpToEnd(loops);
    LastStep(loops, last);
    NotBefore(loops, Start(loops), Steps(loops, |loops|));
  }
}
