/** The state machine and the interpreter together, from the zero state until the machine reports the end. */
module UcodeRun {
  import opened Ucode
  import opened UcodeProgram

  /** After n steps of a run the machine is in s, and the registers have come from `first` to `now`. */
  ghost predicate At(loops: seq<Loop>, code: seq<Instr>, n: nat, s: State, first: seq<int>, now: seq<int>)
    requires |loops| > 0 && Encodable(code, |first|)
  {
    var out := Run(loops, Start(loops), n);
    out.state == s && Within(out.trace, code) && now == ApplyAll(code, out.trace, first)
  }

  lemma {:induction false} AtStart(loops: seq<Loop>, code: seq<Instr>, first: seq<int>)
    requires |loops| > 0 && Encodable(code, |first|)
    ensures At(loops, code, 0, Start(loops), first, first)
  {
    assert Run(loops, Start(loops), 0).trace == [];
  }

  /** What one step does to the registers. */
  function Updated(loops: seq<Loop>, code: seq<Instr>, s: State, regs: seq<int>): seq<int>
    requires s.loop < |loops| == |s.idx| && s.addr < |code| && Encodable(code, |regs|)
  {
    if Step(loops, s).execute then Apply(code[s.addr], regs) else regs
  }

  lemma {:induction false} ApplyOne(code: seq<Instr>, e: Event, regs: seq<int>)
    requires Encodable(code, |regs|) && e.addr < |code|
    ensures Within([e], code) && ApplyAll(code, [e], regs) == Apply(code[e.addr], regs)
  {
    ApplyFirst(code, [e], regs);
    assert [e][1..] == [];
  }

  lemma {:induction false} AtNext(loops: seq<Loop>, code: seq<Instr>, n: nat, s: State, first: seq<int>, now: seq<int>)
    requires |loops| > 0 && Encodable(code, |first|) && At(loops, code, n, s, first, now) && s.addr < |code|
    ensures Shape(loops, s) && |now| == |first|
    ensures At(loops, code, n + 1, Step(loops, s).next, first, Updated(loops, code, s, now))
  {
    var out, next := Run(loops, Start(loops), n), First(loops, s).trace;
    RunNext(loops, Start(loops), n);
    assert Within(next, code) && ApplyAll(code, next, now) == Updated(loops, code, s, now) by {
      if Step(loops, s).execute {
        ApplyOne(code, Event(s.loop, s.op, s.addr), now);
      }
    }
    ApplyAllSplit(code, out.trace, next, first);
  }

  /** The step that ends a run is the last of the nest. */
  lemma {:induction false} EndsAtSteps(loops: seq<Loop>, n: nat)
    requires |loops| > 0 && loops[0].ucodeAddr == 0 && n < Steps(loops, |loops|)
    ensures Step(loops, Run(loops, Start(loops), n).state).end <==> n + 1 == Steps(loops, |loops|)
  {
    MachineRunsTheNest(loops);
    RunNext(loops, Start(loops), n);
    assert Run(loops, Start(loops), n).ends == 0;
    assert Run(loops, Start(loops), n + 1).ends == First(loops, Run(loops, Start(loops), n).state).ends;
  }

  /** The run after n steps, the last of which has reported the end or not. */
  ghost predicate Going(loops: seq<Loop>, ops: seq<nat>, code: seq<Instr>, n: nat, end: bool, s: State, first: seq<int>,
                        now: seq<int>)
  {
    Layout(loops, ops, code) && Encodable(code, |first|) && At(loops, code, n, s, first, now)
    && n <= Steps(loops, |loops|) && (end <==> n == Steps(loops, |loops|))
  }

  lemma {:induction false} GoingStart(loops: seq<Loop>, ops: seq<nat>, code: seq<Instr>, first: seq<int>)
    requires Layout(loops, ops, code) && Encodable(code, |first|)
    ensures Going(loops, ops, code, 0, false, Start(loops), first, first)
  {
    AtStart(loops, code, first);
    var last := RunUpToEnd(loops);
  }

  lemma {:induction false} GoingNext(loops: seq<Loop>, ops: seq<nat>, code: seq<Instr>, n: nat, s: State,
                                     first: seq<int>, now: seq<int>)
    requires Going(loops, ops, code, n, false, s, first, now)
    ensures n < Steps(loops, |loops|) && Shape(loops, s) && s.addr < |code| && Encodable(code, |now|)
    ensures Going(loops, ops, code, n + 1, Step(loops, s).end, Step(loops, s).next, first, Updated(loops, code, s, now))
  {
    AddressInCode(loops, ops, code, n);
    EndsAtSteps(loops, n);
    AtNext(loops, code, n, s, first, now);
  }

  lemma {:induction false} GoingDone(loops: seq<Loop>, ops: seq<nat>, code: seq<Instr>, n: nat, s: State,
                                     first: seq<int>, now: seq<int>)
    requires Going(loops, ops, code, n, true, s, first, now)
    ensures now == Nest(loops, ops, code, |loops|, first)
  {
    RunComputesTheNest(loops, ops, code, first);
  }

  /** One call of the state machine, and the instruction that was current if it says so. */
  method Cycle(loops: seq<Loop>, code: seq<Instr>, addr: nat, loop: nat, op: nat, idx: array<int>,
               registers: array<int>)
    returns (end: bool, nextAddr: nat, nextLoop: nat, nextOp: nat, nextIdx: array<int>, newRegisters: array<int>)
    requires loop < |loops| == idx.Length && addr < |code| && Encodable(code, registers.Length) && idx != registers
    modifies idx
    ensures var s := State(addr, loop, op, old(idx[..]));
            end == Step(loops, s).end && State(nextAddr, nextLoop, nextOp, nextIdx[..]) == Step(loops, s).next
            && newRegisters[..] == Updated(loops, code, s, old(registers[..]))
    ensures (nextIdx == idx || fresh(nextIdx)) && (newRegisters == registers || fresh(newRegisters))
    ensures nextIdx != newRegisters
  {
    var execute, busy;
    execute, end, busy, nextAddr, nextLoop, nextOp, nextIdx := StateMachine(loops, addr, loop, op, idx);
    newRegisters := registers;
    if execute {
      newRegisters := Execute(addr, code, registers);
    }
  }

  /** One cycle of a run that has not ended. */
  method Turn(loops: seq<Loop>, code: seq<Instr>, addr: nat, loop: nat, op: nat, idx: array<int>, registers: array<int>,
              ghost ops: seq<nat>, ghost n: nat, ghost first: seq<int>)
    returns (end: bool, nextAddr: nat, nextLoop: nat, nextOp: nat, nextIdx: array<int>, newRegisters: array<int>)
    requires Going(loops, ops, code, n, false, State(addr, loop, op, idx[..]), first, registers[..]) && idx != registers
    modifies idx
    ensures Going(loops, ops, code, n + 1, end, State(nextAddr, nextLoop, nextOp, nextIdx[..]), first, newRegisters[..])
    ensures (nextIdx == idx || fresh(nextIdx)) && (newRegisters == registers || fresh(newRegisters))
    ensures nextIdx != newRegisters && n < Steps(loops, |loops|)
  {
    GoingNext(loops, ops, code, n, State(addr, loop, op, idx[..]), first, registers[..]);
    end, nextAddr, nextLoop, nextOp, nextIdx, newRegisters := Cycle(loops, code, addr, loop, op, idx, registers);
  }

  /** A whole run from the zero state. The registers that come back are those of the nested loops; the ones that went in
      are as they were. */
  method RunProgram(loops: seq<Loop>, ops: seq<nat>, code: seq<Instr>, registers: array<int>)
    returns (final: array<int>)
    requires Layout(loops, ops, code) && Encodable(code, registers.Length)
    ensures final[..] == Nest(loops, ops, code, |loops|, registers[..])
  {
    ghost var n, first := 0, registers[..];
    var addr, loop, op, idx := 0, 0, 0, new int[|loops|](_ => 0);
    assert idx[..] == Zeros(|loops|);
    GoingStart(loops, ops, code, first);
    final := registers;
    var end := false;
    while !end
      invariant fresh(idx) && idx != final && registers[..] == first
      invariant Going(loops, ops, code, n, end, State(addr, loop, op, idx[..]), first, final[..])
      decreases Steps(loops, |loops|) - n
    {
      end, addr, loop, op, idx, final := Turn(loops, code, addr, loop, op, idx, final, ops, n, first);
      n := n + 1;
    }
    GoingDone(loops, ops, code, n, State(addr, loop, op, idx[..]), first, final[..]);
  }
}
