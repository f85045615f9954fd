/** The moves of the micro-code: what a register that is only moved into holds at the end of a run. */
module UcodeMoves {
  import opened Collections
  import opened Ucode
  import opened UcodeCost
  import opened UcodeProgram

  /** Register a is only ever moved into, from registers that the program does not change. */
  ghost predicate Latch(code: seq<Instr>, a: nat) {
    forall i :: 0 <= i < |code| && code[i].a == a ==> !code[i].add && NeverWritten(code, code[i].b)
  }

  /** Event k is the last one of the trace that writes register a. */
  ghost predicate LastWrite(code: seq<Instr>, t: seq<Event>, a: nat, k: nat)
    requires Within(t, code) && k < |t|
  {
    code[t[k].addr].a == a && forall j :: k < j < |t| ==> code[t[j].addr].a != a
  }

  ghost predicate Writes(code: seq<Instr>, t: seq<Event>, a: nat)
    requires Within(t, code)
  {
    exists k :: 0 <= k < |t| && code[t[k].addr].a == a
  }

  /** A register that no event writes keeps its value. */
  lemma {:induction false} Untouched(code: seq<Instr>, t: seq<Event>, regs: seq<int>, a: nat)
    requires Encodable(code, |regs|) && Within(t, code) && a < |regs| && !Writes(code, t, a)
    ensures ApplyAll(code, t, regs)[a] == regs[a]
    decreases |t|
  {
    if t != [] {
      assert code[t[0].addr].a != a;
      forall k | 0 <= k < |t[1..]| ensures code[t[1..][k].addr].a != a {
        assert t[1..][k] == t[k + 1];
      }
      Untouched(code, t[1..], Apply(code[t[0].addr], regs), a);
    }
  }

  lemma {:induction false} SourceKept(code: seq<Instr>, t: seq<Event>, regs: seq<int>, b: nat)
    requires Encodable(code, |regs|) && Within(t, code) && b < |regs| && NeverWritten(code, b)
    ensures ApplyAll(code, t, regs)[b] == regs[b]
  {
    Untouched(code, t, regs, b);
  }

  /** After any trace such a register holds the source of the last move into it, and is unchanged if there was none. */
  lemma {:induction false} LastMoveWins(code: seq<Instr>, t: seq<Event>, regs: seq<int>, a: nat)
    requires Encodable(code, |regs|) && Within(t, code) && a < |regs| && Latch(code, a)
    ensures !Writes(code, t, a) ==> ApplyAll(code, t, regs)[a] == regs[a]
    ensures forall k :: 0 <= k < |t| && LastWrite(code, t, a, k) ==>
              ApplyAll(code, t, regs)[a] == regs[code[t[k].addr].b]
  {
    if !Writes(code, t, a) {
      Untouched(code, t, regs, a);
    }
    forall k | 0 <= k < |t| && LastWrite(code, t, a, k)
      ensures ApplyAll(code, t, regs)[a] == regs[code[t[k].addr].b]
    {
      MoveThenOthers(code, t, regs, a, k);
    }
  }

  lemma {:induction false} MoveThenOthers(code: seq<Instr>, t: seq<Event>, regs: seq<int>, a: nat, k: nat)
    requires Encodable(code, |regs|) && Within(t, code) && a < |regs| && Latch(code, a)
    requires k < |t| && LastWrite(code, t, a, k)
    ensures ApplyAll(code, t, regs)[a] == regs[code[t[k].addr].b]
  {
    var before, here, later, i := t[..k], [t[k]], t[k + 1..], code[t[k].addr];
    var was := ApplyAll(code, before, regs);
    assert t == before + (here + later);
    ApplyAllSplit(code, before, here + later, regs);
    ApplyAllSplit(code, here, later, was);
    ApplyFirst(code, here, was);
    assert here[1..] == [];
    var now := Apply(i, was);
    SourceKept(code, before, regs, i.b);
    forall j | 0 <= j < |later| ensures code[later[j].addr].a != a {
      assert later[j] == t[k + 1 + j];
    }
    Untouched(code, later, now, a);
  }

  // ---- Which move is the last of a whole run ----

  /** The greatest address of lo .. hi - 1 whose instruction writes register a. */
  function LastIn(code: seq<Instr>, a: nat, lo: nat, hi: nat): Option<nat>
    requires lo <= hi <= |code|
    decreases hi - lo
  {
    if lo == hi then None
    else if code[hi - 1].a == a then Some(hi - 1)
    else LastIn(code, a, lo, hi - 1)
  }

  lemma {:induction false} LastInIff(code: seq<Instr>, a: nat, lo: nat, hi: nat, i: nat)
    requires lo <= hi <= |code|
    ensures LastIn(code, a, lo, hi) == Some(i)
            <==> lo <= i < hi && code[i].a == a && forall j :: i < j < hi ==> code[j].a != a
    ensures LastIn(code, a, lo, hi) == None <==> forall j :: lo <= j < hi ==> code[j].a != a
    decreases hi - lo
  {
    if lo < hi && code[hi - 1].a != a {
      LastInIff(code, a, lo, hi - 1, i);
    }
  }

  lemma {:induction false} LastInFirst(code: seq<Instr>, a: nat, lo: nat, hi: nat)
    requires lo < hi <= |code|
    ensures LastIn(code, a, lo, hi)
            == if LastIn(code, a, lo + 1, hi).Some? then LastIn(code, a, lo + 1, hi)
               else if code[lo].a == a then Some(lo) else None
    decreases hi - lo
  {
    if lo + 1 < hi && code[hi - 1].a != a {
      LastInFirst(code, a, lo, hi - 1);
    }
  }

  /** The move that decides register a in the loops below n: the last one in the block of the lowest loop whose block is
      executed at all and writes a. */
  function Decider(loops: seq<Loop>, ops: seq<nat>, code: seq<Instr>, a: nat, n: nat): Option<nat>
    requires Layout(loops, ops, code) && n <= |loops|
  {
    if n == 0 then None
    else
      var below := Decider(loops, ops, code, a, n - 1);
      if below.Some? || Reps(loops[n - 1]) == 0 then below
      else
        PrefixSumMono(ops, n, |ops|);
        LastIn(code, a, PrefixSum(ops, n - 1), PrefixSum(ops, n))
  }

  /** The trace leaves `writer` as the last instruction that has written register a. */
  ghost predicate Leaves(code: seq<Instr>, t: seq<Event>, a: nat, writer: Option<nat>) {
    Within(t, code)
    && if writer.None? then !Writes(code, t, a)
       else exists k :: 0 <= k < |t| && LastWrite(code, t, a, k) && t[k].addr == writer.value
  }

  lemma {:induction false} LeavesJoin(code: seq<Instr>, s: seq<Event>, t: seq<Event>, a: nat, first: Option<nat>,
                                      second: Option<nat>)
    requires Leaves(code, s, a, first) && Leaves(code, t, a, second)
    ensures Leaves(code, s + t, a, if second.Some? then second else first)
  {
    if second.Some? {
      var k :| 0 <= k < |t| && LastWrite(code, t, a, k) && t[k].addr == second.value;
      assert (s + t)[|s| + k] == t[k];
      assert LastWrite(code, s + t, a, |s| + k);
    } else if first.Some? {
      var k :| 0 <= k < |s| && LastWrite(code, s, a, k) && s[k].addr == first.value;
      assert (s + t)[k] == s[k];
      assert LastWrite(code, s + t, a, k);
    }
  }

  lemma {:induction false} LeavesRepeat(code: seq<Instr>, n: nat, t: seq<Event>, a: nat, writer: Option<nat>)
    requires Leaves(code, t, a, writer)
    ensures Leaves(code, Repeat(n, t), a, if n == 0 then None else writer)
  {
    if n > 0 {
      LeavesRepeat(code, n - 1, t, a, writer);
      LeavesJoin(code, t, Repeat(n - 1, t), a, writer, if n == 1 then None else writer);
    }
  }

  lemma {:induction false} LeavesOne(code: seq<Instr>, e: Event, a: nat)
    requires e.addr < |code|
    ensures Leaves(code, [e], a, if code[e.addr].a == a then Some(e.addr) else None)
  {
    if code[e.addr].a == a {
      assert LastWrite(code, [e], a, 0) && [e][0].addr == e.addr;
    }
  }

  lemma {:induction false} LeavesFirst(code: seq<Instr>, e: Event, rest: seq<Event>, a: nat, hi: nat)
    requires e.addr < hi <= |code| && Leaves(code, rest, a, LastIn(code, a, e.addr + 1, hi))
    ensures Leaves(code, [e] + rest, a, LastIn(code, a, e.addr, hi))
  {
    LeavesOne(code, e, a);
    LeavesJoin(code, [e], rest, a, if code[e.addr].a == a then Some(e.addr) else None, LastIn(code, a, e.addr + 1, hi));
    LastInFirst(code, a, e.addr, hi);
  }

  lemma {:induction false} LeavesBlock(loops: seq<Loop>, ops: seq<nat>, code: seq<Instr>, k: nat, o: nat, a: nat)
    requires Layout(loops, ops, code) && k < |loops| && o <= ops[k]
    ensures PrefixSum(ops, k) + o <= PrefixSum(ops, k + 1) <= |code|
    ensures Leaves(code, BlockFrom(loops, k, o), a, LastIn(code, a, PrefixSum(ops, k) + o, PrefixSum(ops, k + 1)))
    decreases ops[k] - o
  {
    PrefixSumMono(ops, k + 1, |ops|);
    if o < ops[k] {
      var lo, hi := PrefixSum(ops, k) + o, PrefixSum(ops, k + 1);
      var e := Event(k, o, lo);
      LeavesBlock(loops, ops, code, k, o + 1, a);
      LeavesFirst(code, e, BlockFrom(loops, k, o + 1), a, hi);
      assert BlockFrom(loops, k, o) == [e] + BlockFrom(loops, k, o + 1);
    }
  }

  lemma {:induction false} LeavesBody(loops: seq<Loop>, ops: seq<nat>, code: seq<Instr>, a: nat, n: nat)
    requires Layout(loops, ops, code) && n <= |loops|
    ensures Leaves(code, Body(loops, n), a, Decider(loops, ops, code, a, n))
  {
    if n > 0 {
      var k := n - 1;
      LeavesBody(loops, ops, code, a, k);
      LeavesBlock(loops, ops, code, k, 0, a);
      var below, block := Decider(loops, ops, code, a, k), LastIn(code, a, PrefixSum(ops, k), PrefixSum(ops, n));
      var pass := if below.Some? then below else block;
      LeavesJoin(code, BlockFrom(loops, k, 0), Body(loops, k), a, block, below);
      LeavesRepeat(code, Reps(loops[k]), BlockFrom(loops, k, 0) + Body(loops, k), a, pass);
      NextLoop(loops, k);
      LeavesJoin(code, Body(loops, k), Repeat(Reps(loops[k]), BlockFrom(loops, k, 0) + Body(loops, k)), a, below,
                 if Reps(loops[k]) == 0 then None else pass);
    }
  }

  /** Closed form of a register that is only moved into, after a complete run. */
  lemma {:induction false} LatchedRegister(loops: seq<Loop>, ops: seq<nat>, code: seq<Instr>, regs: seq<int>, a: nat)
    requires Layout(loops, ops, code) && Encodable(code, |regs|) && a < |regs| && Latch(code, a)
    ensures var t, d := Run(loops, Start(loops), Steps(loops, |loops|)).trace, Decider(loops, ops, code, a, |loops|);
            Within(t, code) && (d.Some? ==> d.value < |code| && code[d.value].a == a)
            && ApplyAll(code, t, regs)[a] == if d.None? then regs[a] else regs[code[d.value].b]
  {
    MachineRunsTheNest(loops);
    LeavesBody(loops, ops, code, a, |loops|);
    LastMoveWins(code, Body(loops, |loops|), regs, a);
  }
}
