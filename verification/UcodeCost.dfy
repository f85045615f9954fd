/** Closed forms: how often the sequencer issues each instruction, how long a run takes, and what
    a register used as an address generator holds at the end. */
module UcodeCost {
  import opened Arith
  import opened Ucode
  import opened UcodeProgram

  /** Product of the ranges strictly between positions k and n: how often loop k is restarted. */
  function Above(loops: seq<Loop>, k: nat, n: nat): nat
    requires k < n <= |loops|
  {
    if n == k + 1 then 1 else Above(loops, k, n - 1) * Range(loops[n - 1])
  }

  /** How often the block of loop k is entered while the loops below n run once. */
  function Entries(loops: seq<Loop>, k: nat, n: nat): nat
    requires k < n <= |loops|
  {
    Reps(loops[k]) * Above(loops, k, n)
  }

  /** Sum over the first k loops of c[k] times the number of entries of their block. */
  function Weighted(loops: seq<Loop>, c: seq<int>, k: nat, n: nat): int
    requires k <= n <= |loops| && k <= |c|
  {
    if k == 0 then 0 else Weighted(loops, c, k - 1, n) + c[k - 1] * Entries(loops, k - 1, n)
  }

  lemma {:induction false} EntriesGrow(loops: seq<Loop>, k: nat, n: nat)
    requires k < n < |loops|
    ensures Entries(loops, k, n + 1) == Entries(loops, k, n) * Range(loops[n])
    ensures Entries(loops, n, n + 1) == Reps(loops[n])
  {
    assert Above(loops, n, n + 1) == 1;
    Assoc(Reps(loops[k]), Above(loops, k, n), Range(loops[n]));
  }

  lemma {:induction false} Assoc(a: int, b: int, c: int)
    ensures a * (b * c) == (a * b) * c
  {
  }

  lemma {:induction false} WeightedGrow(loops: seq<Loop>, c: seq<int>, k: nat, n: nat)
    requires k <= n < |loops| && n < |c|
    ensures Weighted(loops, c, k, n + 1) == Weighted(loops, c, k, n) * Range(loops[n])
    decreases k
  {
    if k > 0 {
      WeightedGrow(loops, c, k - 1, n);
      EntriesGrow(loops, k - 1, n);
      var r := Range(loops[n]);
      Assoc(c[k - 1], Entries(loops, k - 1, n), r);
      Distribute(Weighted(loops, c, k - 1, n), c[k - 1] * Entries(loops, k - 1, n), r);
    }
  }

  /** `below` once, and then r times something that adds `block` followed by `below`. */
  function Repeated(below: int, r: nat, block: int): int { below + r * (block + below) }

  /** One more loop around the nest: everything below is repeated, the new block comes on top. */
  lemma {:induction false} WeightedNext(loops: seq<Loop>, c: seq<int>, n: nat)
    requires n < |loops| && n < |c|
    ensures Weighted(loops, c, n + 1, n + 1)
            == Repeated(Weighted(loops, c, n, n), Reps(loops[n]), c[n])
  {
    WeightedGrow(loops, c, n, n);
    assert Above(loops, n, n + 1) == 1;
    assert Entries(loops, n, n + 1) == Reps(loops[n]);
    var w, r := Weighted(loops, c, n, n), Reps(loops[n]);
    Distribute(r, 1, w);
    Distribute(c[n], w, r);
  }

  function StepCosts(loops: seq<Loop>): (c: seq<int>)
    ensures |c| == |loops|
  {
    seq(|loops|, k requires 0 <= k < |loops| => k + Len(loops[k]))
  }

  /** Exact cost: one step per loop, plus, for every entry of the block of loop k, its instructions
      and the k steps that climb back to loop k afterwards. */
  lemma {:induction false} StepsClosedForm(loops: seq<Loop>, n: nat)
    requires n <= |loops|
    ensures Steps(loops, n) == n + Weighted(loops, StepCosts(loops), n, n)
  {
    if n > 0 {
      var c, m := StepCosts(loops), n - 1;
      StepsClosedForm(loops, m);
      WeightedNext(loops, c, m);
      var w, r, l := Weighted(loops, c, m, m), Reps(loops[m]), Len(loops[m]);
      assert l + Steps(loops, m) == c[m] + w;
      assert Steps(loops, n) == m + w + r * (c[m] + w) + 1;
    }
  }

  // ---- Sums over traces ----

  ghost function Sum(w: Event -> int, t: seq<Event>): int {
    if t == [] then 0 else w(t[0]) + Sum(w, t[1..])
  }

  lemma {:induction false} SumSplit(w: Event -> int, s: seq<Event>, t: seq<Event>)
    ensures Sum(w, s + t) == Sum(w, s) + Sum(w, t)
    decreases |s|
  {
    if s == [] {
      assert s + t == t;
    } else {
      assert (s + t)[1..] == s[1..] + t;
      SumSplit(w, s[1..], t);
    }
  }

  lemma {:induction false} SumRepeat(w: Event -> int, n: nat, t: seq<Event>)
    ensures Sum(w, Repeat(n, t)) == n * Sum(w, t)
  {
    if n > 0 {
      SumRepeat(w, n - 1, t);
      SumSplit(w, t, Repeat(n - 1, t));
      Distribute(n - 1, 1, Sum(w, t));
    }
  }

  ghost function BlockSums(loops: seq<Loop>, w: Event -> int): (c: seq<int>)
    ensures |c| == |loops|
    ensures forall k :: 0 <= k < |loops| ==> c[k] == Sum(w, BlockFrom(loops, k, 0))
  {
    seq(|loops|, k requires 0 <= k < |loops| => Sum(w, BlockFrom(loops, k, 0)))
  }

  /** Whatever is summed over the trace of the nest, each block counts once per entry. */
  lemma {:induction false} SumOverNest(loops: seq<Loop>, w: Event -> int, n: nat)
    requires n <= |loops|
    ensures Sum(w, Body(loops, n)) == Weighted(loops, BlockSums(loops, w), n, n)
  {
    if n > 0 {
      var m, c := n - 1, BlockSums(loops, w);
      SumOverNest(loops, w, m);
      var below, r, block := Sum(w, Body(loops, m)), Reps(loops[m]), Sum(w, BlockFrom(loops, m, 0));
      assert Sum(w, Body(loops, n)) == Repeated(below, r, block) by {
        SumNext(loops, w, m);
      }
      assert Weighted(loops, c, n, n) == Repeated(below, r, block) by {
        WeightedNext(loops, c, m);
        assert c[m] == block;
      }
    }
  }

  lemma {:induction false} SumNext(loops: seq<Loop>, w: Event -> int, m: nat)
    requires m < |loops|
    ensures Sum(w, Body(loops, m + 1))
         == Repeated(Sum(w, Body(loops, m)), Reps(loops[m]), Sum(w, BlockFrom(loops, m, 0)))
  {
    var block, body, r := BlockFrom(loops, m, 0), Body(loops, m), Reps(loops[m]);
    SumSplit(w, body, Repeat(r, block + body));
    SumRepeat(w, r, block + body);
    SumSplit(w, block, body);
  }

  // ---- How often one instruction is issued ----

  ghost function Occurrences(e: Event, t: seq<Event>): int { Sum(x => if x == e then 1 else 0, t) }

  lemma {:induction false} OccurrencesAreMultiplicity(e: Event, t: seq<Event>)
    ensures Occurrences(e, t) == multiset(t)[e]
    decreases |t|
  {
    if t != [] {
      assert t == [t[0]] + t[1..];
      OccurrencesAreMultiplicity(e, t[1..]);
    }
  }

  lemma {:induction false} OccurrencesInBlock(loops: seq<Loop>, e: Event, k: nat, o: nat)
    requires k < |loops| && o <= Len(loops[k])
    ensures multiset(BlockFrom(loops, k, o))[e]
            == if e.loop == k && o <= e.op < Len(loops[k]) && e.addr == loops[k].ucodeAddr + e.op then 1 else 0
    decreases Len(loops[k]) - o
  {
    if o < Len(loops[k]) {
      var first, rest := Event(k, o, loops[k].ucodeAddr + o), BlockFrom(loops, k, o + 1);
      OccurrencesInBlock(loops, e, k, o + 1);
      assert BlockFrom(loops, k, o) == [first] + rest;
      assert multiset([first] + rest)[e] == multiset([first])[e] + multiset(rest)[e];
    }
  }

  lemma {:induction false} WeightedUnit(loops: seq<Loop>, c: seq<int>, k: nat, n: nat, i: nat)
    requires i < |loops| == |c| && k <= n <= |loops|
    requires forall j :: 0 <= j < |c| ==> c[j] == if j == i then 1 else 0
    ensures Weighted(loops, c, k, n) == if i < k then Entries(loops, i, n) else 0
    decreases k
  {
    if k > 0 {
      WeightedUnit(loops, c, k - 1, n, i);
    }
  }

  /** In a complete run instruction o of block k is issued once per entry of its block,
      (range_k - 1) * product of the ranges above k, and nothing else is issued. */
  lemma {:induction false} IssueCount(loops: seq<Loop>, e: Event)
    requires 0 < |loops| && loops[0].ucodeAddr == 0
    ensures multiset(Run(loops, Start(loops), Steps(loops, |loops|)).trace)[e]
            == if e.loop < |loops| && e.op < Len(loops[e.loop]) && e.addr == loops[e.loop].ucodeAddr + e.op
               then Entries(loops, e.loop, |loops|) else 0
  {
    var n, w := |loops|, (x: Event) => if x == e then 1 else 0;
    MachineRunsTheNest(loops);
    SumOverNest(loops, w, n);
    assert Sum(w, Body(loops, n)) == Occurrences(e, Body(loops, n));
    OccurrencesAreMultiplicity(e, Body(loops, n));
    var c := BlockSums(loops, w);
    forall k | 0 <= k < n
      ensures c[k] == if e.loop == k && e.op < Len(loops[k]) && e.addr == loops[k].ucodeAddr + e.op then 1 else 0
    {
      assert c[k] == Occurrences(e, BlockFrom(loops, k, 0));
      OccurrencesAreMultiplicity(e, BlockFrom(loops, k, 0));
      OccurrencesInBlock(loops, e, k, 0);
    }
    if e.loop < n && c[e.loop] == 1 {
      WeightedUnit(loops, c, n, n, e.loop);
    } else {
      WeightedZero(loops, c, n, n);
    }
  }

  lemma {:induction false} WeightedZero(loops: seq<Loop>, c: seq<int>, k: nat, n: nat)
    requires |loops| == |c| && k <= n <= |loops| && forall j :: 0 <= j < |c| ==> c[j] == 0
    ensures Weighted(loops, c, k, n) == 0
    decreases k
  {
    if k > 0 {
      WeightedZero(loops, c, k - 1, n);
    }
  }

  // ---- Address generators ----

  ghost predicate NeverWritten(code: seq<Instr>, b: nat) {
    forall i :: 0 <= i < |code| ==> code[i].a != b
  }

  /** Register a is only ever added to, from registers that the program does not change. */
  ghost predicate Generator(code: seq<Instr>, a: nat) {
    forall i :: 0 <= i < |code| && code[i].a == a ==> code[i].add && NeverWritten(code, code[i].b)
  }

  ghost function Increment(code: seq<Instr>, regs: seq<int>, a: nat): Event -> int {
    (e: Event) =>
      if e.addr < |code| && code[e.addr].a == a && code[e.addr].b < |regs| then regs[code[e.addr].b] else 0
  }

  lemma {:induction false} GeneratorSum(code: seq<Instr>, t: seq<Event>, regs: seq<int>, now: seq<int>, a: nat)
    requires |now| == |regs| && Encodable(code, |regs|) && Within(t, code) && Generator(code, a) && a < |regs|
    requires forall b :: 0 <= b < |regs| && NeverWritten(code, b) ==> now[b] == regs[b]
    ensures ApplyAll(code, t, now)[a] == now[a] + Sum(Increment(code, regs, a), t)
    decreases |t|
  {
    if t != [] {
      var i := code[t[0].addr];
      var next := Apply(i, now);
      GeneratorSum(code, t[1..], regs, next, a);
      if i.a == a {
        assert NeverWritten(code, i.b);
      }
    }
  }

  /** Closed form of an address generator after a complete run. */
  lemma {:induction false} AddressGenerator(loops: seq<Loop>, ops: seq<nat>, code: seq<Instr>, regs: seq<int>, a: nat)
    requires Layout(loops, ops, code) && Encodable(code, |regs|) && a < |regs| && Generator(code, a)
    ensures var t := Run(loops, Start(loops), Steps(loops, |loops|)).trace;
            Within(t, code)
            && ApplyAll(code, t, regs)[a]
               == regs[a] + Weighted(loops, BlockSums(loops, Increment(code, regs, a)), |loops|, |loops|)
  {
    RunComputesTheNest(loops, ops, code, regs);
    MachineRunsTheNest(loops);
    GeneratorSum(code, Body(loops, |loops|), regs, regs, a);
    SumOverNest(loops, Increment(code, regs, a), |loops|);
  }
}
