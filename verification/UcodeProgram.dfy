/** From the micro-code source to the loop table, the meaning of an instruction, and what a whole
    run of the sequencer does to the registers and how long it takes. */
module UcodeProgram {
  import opened Ucode
  import UcodeOdometer

  /** An operand is a mnemonic or already a register number. */
  datatype Operand = Mnemonic(name: string) | Number(n: nat)

  datatype SourceOp = SourceOp(op: string, a: Operand, b: Operand)

  datatype LoadedOp = LoadedOp(add: bool, a: Operand, b: Operand)

  /** `add`: a := a + b; otherwise a move, a := b. */
  datatype Instr = Instr(add: bool, a: nat, b: nat)

  function PrefixSum(ops: seq<nat>, k: nat): nat
    requires k <= |ops|
  {
    if k == 0 then 0 else PrefixSum(ops, k - 1) + ops[k - 1]
  }

  function Flatten<T>(blocks: seq<seq<T>>): seq<T> {
    if blocks == [] then [] else Flatten(blocks[..|blocks| - 1]) + blocks[|blocks| - 1]
  }

  /** r is the instruction c with its mnemonics replaced: an operand that is a mnemonic becomes the register it stands
      for, any other stays as it is. */
  ghost predicate Translates(mnemonics: map<Operand, Operand>, c: SourceOp, r: LoadedOp) {
    && (r.add <==> c.op == "add")
    && (c.a in mnemonics ==> r.a == mnemonics[c.a]) && (c.a !in mnemonics ==> r.a == c.a)
    && (c.b in mnemonics ==> r.b == mnemonics[c.b]) && (c.b !in mnemonics ==> r.b == c.b)
  }

  lemma {:induction false} FlattenAt<T>(blocks: seq<seq<T>>, ops: seq<nat>, k: nat, o: nat)
    requires |ops| == |blocks| && forall j :: 0 <= j < |blocks| ==> ops[j] == |blocks[j]|
    requires k < |blocks| && o < |blocks[k]|
    ensures |Flatten(blocks)| == PrefixSum(ops, |ops|)
    ensures PrefixSum(ops, k) + o < |Flatten(blocks)|
    ensures Flatten(blocks)[PrefixSum(ops, k) + o] == blocks[k][o]
  {
    var n := |blocks| - 1;
    FlattenLength(blocks, ops);
    FlattenLength(blocks[..n], ops[..n]);
    PrefixSumCut(ops, n, n);
    if k < n {
      FlattenAt(blocks[..n], ops[..n], k, o);
      PrefixSumCut(ops, n, k);
    }
  }

  lemma {:induction false} FlattenLength<T>(blocks: seq<seq<T>>, ops: seq<nat>)
    requires |ops| == |blocks| && forall j :: 0 <= j < |blocks| ==> ops[j] == |blocks[j]|
    ensures |Flatten(blocks)| == PrefixSum(ops, |ops|)
    decreases |blocks|
  {
    if blocks != [] {
      var n := |blocks| - 1;
      FlattenLength(blocks[..n], ops[..n]);
      PrefixSumCut(ops, n, n);
    }
  }

  lemma {:induction false} PrefixSumCut(ops: seq<nat>, n: nat, k: nat)
    requires k <= n <= |ops|
    ensures PrefixSum(ops[..n], k) == PrefixSum(ops, k)
    decreases k
  {
    if k > 0 {
      PrefixSumCut(ops, n, k - 1);
    }
  }

  ghost predicate Holds(code: seq<LoadedOp>, addr: nat, mnemonics: map<Operand, Operand>, c: SourceOp) {
    addr < |code| && Translates(mnemonics, c, code[addr])
  }

  /** Flattens the blocks into one code list. Instruction o of block k lands at the address that
      the loop table will give to block k, plus o. */
  method Load(mnemonics: map<Operand, Operand>, program: seq<seq<SourceOp>>)
    returns (loopsOps: seq<nat>, code: seq<LoadedOp>)
    ensures |loopsOps| == |program| && |code| == PrefixSum(loopsOps, |loopsOps|)
    ensures forall k :: 0 <= k < |program| ==> loopsOps[k] == |program[k]|
    ensures forall k, o {:trigger program[k][o]} :: 0 <= k < |program| && 0 <= o < |program[k]| ==>
              Holds(code, PrefixSum(loopsOps, k) + o, mnemonics, program[k][o])
  {
    var codeL: seq<SourceOp> := [];
    loopsOps := [];
    for l := 0 to |program|
      invariant codeL == Flatten(program[..l])
      invariant |loopsOps| == l && forall k :: 0 <= k < l ==> loopsOps[k] == |program[k]|
    {
      codeL := codeL + program[l];
      loopsOps := loopsOps + [|program[l]|];
      assert program[..l + 1][..l] == program[..l];
    }
    assert program[..|program|] == program;
    code := [];
    for i := 0 to |codeL|
      invariant |code| == i && forall j :: 0 <= j < i ==> Translates(mnemonics, codeL[j], code[j])
    {
      var c := codeL[i];
      var a := if c.a in mnemonics then mnemonics[c.a] else c.a;
      var b := if c.b in mnemonics then mnemonics[c.b] else c.b;
      code := code + [LoadedOp(c.op == "add", a, b)];
    }
    FlattenLength(program, loopsOps);
    forall k, o {:trigger program[k][o]} | 0 <= k < |program| && 0 <= o < |program[k]|
      ensures Holds(code, PrefixSum(loopsOps, k) + o, mnemonics, program[k][o])
    {
      FlattenAt(program, loopsOps, k, o);
    }
  }

  /** The loop table: block k starts where the blocks before it end. */
  ghost predicate Table(loops: seq<Loop>, ops: seq<nat>) {
    |loops| <= |ops| && forall k :: 0 <= k < |loops| ==>
      loops[k].nbOps == ops[k] && loops[k].ucodeAddr == PrefixSum(ops, k)
  }

  lemma {:induction false} TableNext(loops: seq<Loop>, ops: seq<nat>, range: int)
    requires |loops| < |ops| && Table(loops, ops)
    ensures Table(loops + [Loop(ops[|loops|], range, PrefixSum(ops, |loops|))], ops)
    ensures PrefixSum(ops, |loops| + 1) == PrefixSum(ops, |loops|) + ops[|loops|]
  {
  }

  method GetLoops(loopsOps: seq<nat>, loopsRange: seq<int>) returns (loops: seq<Loop>)
    ensures |loops| == if |loopsOps| <= |loopsRange| then |loopsOps| else |loopsRange|
    ensures Table(loops, loopsOps)
    ensures forall k :: 0 <= k < |loops| ==> loops[k].range == loopsRange[k]
  {
    loops := [];
    var a := 0;
    while |loops| < |loopsOps| && |loops| < |loopsRange|
      invariant |loops| <= |loopsOps| && |loops| <= |loopsRange| && a == PrefixSum(loopsOps, |loops|)
      invariant Table(loops, loopsOps)
      invariant forall k :: 0 <= k < |loops| ==> loops[k].range == loopsRange[k]
      decreases |loopsOps| - |loops|
    {
      var o, r := loopsOps[|loops|], loopsRange[|loops|];
      TableNext(loops, loopsOps, r);
      loops := loops + [Loop(o, r, a)];
      a := a + o;
    }
  }

  // ---- Meaning of the instructions ----

  predicate Encodable(code: seq<Instr>, nregs: nat) {
    forall i :: 0 <= i < |code| ==> code[i].a < nregs && code[i].b < nregs
  }

  function Apply(i: Instr, regs: seq<int>): (r: seq<int>)
    requires i.a < |regs| && i.b < |regs|
    ensures |r| == |regs|
  {
    regs[i.a := if i.add then regs[i.a] + regs[i.b] else regs[i.b]]
  }

  /** Executes the instruction at `addr` on a copy of the registers. */
  method Execute(addr: nat, code: seq<Instr>, registers: array<int>) returns (newRegisters: array<int>)
    requires addr < |code| && Encodable(code, registers.Length)
    ensures fresh(newRegisters) && newRegisters[..] == Apply(code[addr], registers[..])
    ensures newRegisters.Length == registers.Length
    ensures var i := code[addr];
            newRegisters[i.a] == (if i.add then registers[i.a] + registers[i.b] else registers[i.b])
            && forall r :: 0 <= r < registers.Length && r != i.a ==> newRegisters[r] == registers[r]
  {
    newRegisters := new int[registers.Length](i requires 0 <= i < registers.Length reads registers => registers[i]);
    assert newRegisters[..] == registers[..];
    if code[addr].add {
      newRegisters[code[addr].a] := registers[code[addr].a] + registers[code[addr].b];
    } else {
      newRegisters[code[addr].a] := registers[code[addr].b];
    }
  }

  ghost predicate Within(t: seq<Event>, code: seq<Instr>) {
    forall i :: 0 <= i < |t| ==> t[i].addr < |code|
  }

  function ApplyAll(code: seq<Instr>, t: seq<Event>, regs: seq<int>): (r: seq<int>)
    requires Encodable(code, |regs|) && (forall i :: 0 <= i < |t| ==> t[i].addr < |code|)
    ensures |r| == |regs|
  {
    if t == [] then regs else ApplyAll(code, t[1..], Apply(code[t[0].addr], regs))
  }

  lemma {:induction false} ApplyAllSplit(code: seq<Instr>, s: seq<Event>, t: seq<Event>, regs: seq<int>)
    requires Encodable(code, |regs|) && Within(s, code) && Within(t, code)
    ensures Within(s + t, code)
    ensures ApplyAll(code, s + t, regs) == ApplyAll(code, t, ApplyAll(code, s, regs))
    decreases |s|
  {
    if s == [] {
      assert s + t == t;
    } else {
      assert (s + t)[1..] == s[1..] + t;
      ApplyAllSplit(code, s[1..], t, Apply(code[s[0].addr], regs));
    }
  }

  /** The layout of a whole program: the table of loops, each block inside the code. */
  ghost predicate Layout(loops: seq<Loop>, ops: seq<nat>, code: seq<Instr>) {
    && 0 < |loops| && Table(loops, ops) && |code| == PrefixSum(ops, |ops|)
    && forall k :: 0 <= k < |loops| ==> ops[k] >= 1
  }

  lemma {:induction false} PrefixSumMono(ops: seq<nat>, j: nat, k: nat)
    requires j <= k <= |ops|
    ensures PrefixSum(ops, j) <= PrefixSum(ops, k)
    decreases k
  {
    if j < k {
      PrefixSumMono(ops, j, k - 1);
    }
  }

  lemma {:induction false} AddressOfInv(loops: seq<Loop>, ops: seq<nat>, code: seq<Instr>, s: State)
    requires Layout(loops, ops, code) && UcodeOdometer.Inv(loops, s)
    ensures s.addr == PrefixSum(ops, s.loop) + s.op < |code|
  {
    PrefixSumMono(ops, s.loop + 1, |ops|);
  }

  /** Before every step of a run the address is ucode_addr[loop] + op, and points into the code. */
  lemma {:induction false} AddressInCode(loops: seq<Loop>, ops: seq<nat>, code: seq<Instr>, m: nat)
    requires Layout(loops, ops, code) && m < Steps(loops, |loops|)
    ensures var s := Run(loops, Start(loops), m).state;
            s.addr == PrefixSum(ops, s.loop) + s.op < |code|
  {
    UcodeOdometer.OdometerSoFar(loops, m);
    AddressOfInv(loops, ops, code, Run(loops, Start(loops), m).state);
  }

  lemma {:induction false} BlockWithin(loops: seq<Loop>, ops: seq<nat>, code: seq<Instr>, k: nat, o: nat)
    requires Layout(loops, ops, code) && k < |loops| && o <= Len(loops[k])
    ensures Within(BlockFrom(loops, k, o), code)
    decreases Len(loops[k]) - o
  {
    if o < Len(loops[k]) {
      PrefixSumMono(ops, k + 1, |ops|);
      BlockWithin(loops, ops, code, k, o + 1);
    }
  }

  // ---- Big-step meaning of the loop nest, with no machine in it ----

  function Block(loops: seq<Loop>, ops: seq<nat>, code: seq<Instr>, k: nat, o: nat, regs: seq<int>): (r: seq<int>)
    requires Layout(loops, ops, code) && k < |loops| && o <= ops[k] && Encodable(code, |regs|)
    ensures |r| == |regs|
    decreases ops[k] - o
  {
    if o == ops[k] then regs
    else
      PrefixSumMono(ops, k + 1, |ops|);
      Block(loops, ops, code, k, o + 1, Apply(code[PrefixSum(ops, k) + o], regs))
  }

  /** for i in range(r_k): if i > 0 { block k }; the nest of the loops below k, here from pass i on. */
  function Passes(loops: seq<Loop>, ops: seq<nat>, code: seq<Instr>, k: nat, i: nat, regs: seq<int>): (r: seq<int>)
    requires Layout(loops, ops, code) && k < |loops| && i <= Range(loops[k]) && Encodable(code, |regs|)
    ensures |r| == |regs|
    decreases k, Range(loops[k]) - i + 1
  {
    if i == Range(loops[k]) then regs
    else
      var entered := if i > 0 then Block(loops, ops, code, k, 0, regs) else regs;
      Passes(loops, ops, code, k, i + 1, Nest(loops, ops, code, k, entered))
  }

  /** The loops below k, outermost first. */
  function Nest(loops: seq<Loop>, ops: seq<nat>, code: seq<Instr>, k: nat, regs: seq<int>): (r: seq<int>)
    requires Layout(loops, ops, code) && k <= |loops| && Encodable(code, |regs|)
    ensures |r| == |regs|
    decreases k, 0
  {
    if k == 0 then regs else Passes(loops, ops, code, k - 1, 0, regs)
  }

  lemma {:induction false} BlockMeaning(loops: seq<Loop>, ops: seq<nat>, code: seq<Instr>, k: nat, o: nat,
                                        regs: seq<int>)
    requires Layout(loops, ops, code) && k < |loops| && o <= ops[k] && Encodable(code, |regs|)
    ensures Within(BlockFrom(loops, k, o), code)
    ensures ApplyAll(code, BlockFrom(loops, k, o), regs) == Block(loops, ops, code, k, o, regs)
    decreases ops[k] - o
  {
    var t := BlockFrom(loops, k, o);
    BlockWithin(loops, ops, code, k, o);
    if o == ops[k] {
      assert t == [];
    } else {
      BlockUnfold(loops, ops, code, k, o, regs);
      var next := Apply(code[PrefixSum(ops, k) + o], regs);
      assert t == [Event(k, o, PrefixSum(ops, k) + o)] + BlockFrom(loops, k, o + 1);
      BlockMeaning(loops, ops, code, k, o + 1, next);
      ApplyFirst(code, t, regs);
      assert t[1..] == BlockFrom(loops, k, o + 1);
    }
  }

  lemma {:induction false} ApplyFirst(code: seq<Instr>, t: seq<Event>, regs: seq<int>)
    requires Encodable(code, |regs|) && Within(t, code) && t != []
    ensures ApplyAll(code, t, regs) == ApplyAll(code, t[1..], Apply(code[t[0].addr], regs))
  {
  }

  lemma {:induction false} BlockUnfold(loops: seq<Loop>, ops: seq<nat>, code: seq<Instr>, k: nat, o: nat,
                                       regs: seq<int>)
    requires Layout(loops, ops, code) && k < |loops| && o < ops[k] && Encodable(code, |regs|)
    ensures PrefixSum(ops, k) + o < |code|
    ensures Block(loops, ops, code, k, o, regs)
         == Block(loops, ops, code, k, o + 1, Apply(code[PrefixSum(ops, k) + o], regs))
  {
    PrefixSumMono(ops, k + 1, |ops|);
  }

  lemma {:induction false} PassesUnfold(loops: seq<Loop>, ops: seq<nat>, code: seq<Instr>, k: nat, i: nat,
                                        regs: seq<int>)
    requires Layout(loops, ops, code) && k < |loops| && 1 <= i < Range(loops[k]) && Encodable(code, |regs|)
    ensures Passes(loops, ops, code, k, i, regs)
         == Passes(loops, ops, code, k, i + 1, Nest(loops, ops, code, k, Block(loops, ops, code, k, 0, regs)))
  {
  }

  /** Executing the block and then the nest below it. */
  lemma {:induction false} PassMeaning(loops: seq<Loop>, ops: seq<nat>, code: seq<Instr>, k: nat, regs: seq<int>)
    requires Layout(loops, ops, code) && k < |loops| && Encodable(code, |regs|)
    ensures var pass := BlockFrom(loops, k, 0) + Body(loops, k);
            Within(pass, code)
            && ApplyAll(code, pass, regs) == Nest(loops, ops, code, k, Block(loops, ops, code, k, 0, regs))
    decreases k, 1
  {
    BlockMeaning(loops, ops, code, k, 0, regs);
    NestMeaning(loops, ops, code, k, Block(loops, ops, code, k, 0, regs));
    ApplyAllSplit(code, BlockFrom(loops, k, 0), Body(loops, k), regs);
  }

  lemma {:induction false} PassesMeaning(loops: seq<Loop>, ops: seq<nat>, code: seq<Instr>, k: nat, i: nat,
                                         regs: seq<int>)
    requires Layout(loops, ops, code) && k < |loops| && 1 <= i <= Range(loops[k]) && Encodable(code, |regs|)
    ensures var t := Repeat(Range(loops[k]) - i, BlockFrom(loops, k, 0) + Body(loops, k));
            Within(t, code) && ApplyAll(code, t, regs) == Passes(loops, ops, code, k, i, regs)
    decreases k, Range(loops[k]) - i + 2
  {
    var pass := BlockFrom(loops, k, 0) + Body(loops, k);
    if i < Range(loops[k]) {
      var next := Nest(loops, ops, code, k, Block(loops, ops, code, k, 0, regs));
      PassMeaning(loops, ops, code, k, regs);
      PassesMeaning(loops, ops, code, k, i + 1, next);
      RepeatMeaning(code, Range(loops[k]) - i, pass, regs, next);
      PassesUnfold(loops, ops, code, k, i, regs);
    }
  }

  /** The first repetition takes the registers to `next`, the others on from there. */
  lemma {:induction false} RepeatMeaning(code: seq<Instr>, n: nat, pass: seq<Event>, regs: seq<int>, next: seq<int>)
    requires Encodable(code, |regs|) && n > 0 && Within(pass, code) && Within(Repeat(n - 1, pass), code)
    requires next == ApplyAll(code, pass, regs)
    ensures Within(Repeat(n, pass), code)
    ensures |next| == |regs| && ApplyAll(code, Repeat(n, pass), regs) == ApplyAll(code, Repeat(n - 1, pass), next)
  {
    ApplyAllSplit(code, pass, Repeat(n - 1, pass), regs);
  }

  lemma {:induction false} NestUnfold(loops: seq<Loop>, ops: seq<nat>, code: seq<Instr>, j: nat, regs: seq<int>)
    requires Layout(loops, ops, code) && j < |loops| && Encodable(code, |regs|)
    ensures Nest(loops, ops, code, j + 1, regs)
         == Passes(loops, ops, code, j, 1, Nest(loops, ops, code, j, regs))
  {
    assert Passes(loops, ops, code, j, 0, regs) == Passes(loops, ops, code, j, 1, Nest(loops, ops, code, j, regs));
  }

  lemma {:induction false} NestMeaning(loops: seq<Loop>, ops: seq<nat>, code: seq<Instr>, k: nat, regs: seq<int>)
    requires Layout(loops, ops, code) && k <= |loops| && Encodable(code, |regs|)
    ensures Within(Body(loops, k), code)
    ensures ApplyAll(code, Body(loops, k), regs) == Nest(loops, ops, code, k, regs)
    decreases k, 0
  {
    if k > 0 {
      var j := k - 1;
      var first := Nest(loops, ops, code, j, regs);
      var rest := Repeat(Reps(loops[j]), BlockFrom(loops, j, 0) + Body(loops, j));
      NestMeaning(loops, ops, code, j, regs);
      PassesMeaning(loops, ops, code, j, 1, first);
      ApplyAllSplit(code, Body(loops, j), rest, regs);
      NextLoop(loops, j);
      assert Body(loops, k) == Body(loops, j) + rest;
      NestUnfold(loops, ops, code, j, regs);
    }
  }

  /** The registers after a complete run of the machine are those of the nested loops. */
  lemma {:induction false} RunComputesTheNest(loops: seq<Loop>, ops: seq<nat>, code: seq<Instr>, regs: seq<int>)
    requires Layout(loops, ops, code) && Encodable(code, |regs|)
    ensures var out := Run(loops, Start(loops), Steps(loops, |loops|));
            && out.ends == 1
            && Within(out.trace, code)
            && ApplyAll(code, out.trace, regs) == Nest(loops, ops, code, |loops|, regs)
  {
    MachineRunsTheNest(loops);
    NestMeaning(loops, ops, code, |loops|, regs);
  }
}
