/** The loop indices of the sequencer form a mixed-radix counter. */
module UcodeOdometer {
  import opened Arith
  import opened Ucode

  /** Weight of digit k: the product of the ranges below it. */
  function Place(loops: seq<Loop>, k: nat): (p: nat)
    requires k <= |loops|
    ensures p >= 1
  {
    if k == 0 then 1 else Place(loops, k - 1) * Range(loops[k - 1])
  }

  lemma {:induction false} PlaceNext(loops: seq<Loop>, k: nat)
    requires k < |loops|
    ensures Place(loops, k + 1) == Reps(loops[k]) * Place(loops, k) + Place(loops, k)
  {
    var p, r := Place(loops, k), Reps(loops[k]);
    assert Place(loops, k + 1) == p * (r + 1);
    Distribute(r, 1, p);
  }

  /** The number that the lowest k digits stand for. */
  function Value(loops: seq<Loop>, idx: seq<int>, k: nat): int
    requires k <= |loops| == |idx|
  {
    if k == 0 then 0 else Value(loops, idx, k - 1) + idx[k - 1] * Place(loops, k - 1)
  }

  ghost predicate InRange(loops: seq<Loop>, idx: seq<int>) {
    |idx| == |loops| && forall j :: 0 <= j < |idx| ==> 0 <= idx[j] <= Reps(loops[j])
  }

  /** What holds in every state that the machine passes through. */
  ghost predicate Inv(loops: seq<Loop>, s: State) {
    && Shape(loops, s) && InRange(loops, s.idx)
    && (forall j :: 0 <= j < s.loop ==> s.idx[j] == Reps(loops[j]))
    && s.op < Len(loops[s.loop])
    && (s.op > 0 ==> s.idx[s.loop] < Reps(loops[s.loop]))
    && s.addr == loops[s.loop].ucodeAddr + s.op
  }

  lemma {:induction false} ValueOfTop(loops: seq<Loop>, idx: seq<int>, k: nat)
    requires k <= |loops| == |idx| && forall j :: 0 <= j < k ==> idx[j] == Reps(loops[j])
    ensures Value(loops, idx, k) == Place(loops, k) - 1
  {
    if k > 0 {
      ValueOfTop(loops, idx, k - 1);
      PlaceNext(loops, k - 1);
    }
  }

  lemma {:induction false} ValueOfZeros(loops: seq<Loop>, idx: seq<int>, k: nat)
    requires k <= |loops| == |idx| && forall j :: 0 <= j < k ==> idx[j] == 0
    ensures Value(loops, idx, k) == 0
  {
    if k > 0 {
      ValueOfZeros(loops, idx, k - 1);
    }
  }

  /** Digits above position k contribute their difference and nothing else. */
  lemma {:induction false} ValueSameAbove(loops: seq<Loop>, a: seq<int>, b: seq<int>, k: nat, n: nat)
    requires k <= n <= |loops| == |a| == |b| && forall j :: k <= j < n ==> a[j] == b[j]
    ensures Value(loops, a, n) - Value(loops, a, k) == Value(loops, b, n) - Value(loops, b, k)
  {
    if n > k {
      ValueSameAbove(loops, a, b, k, n - 1);
    }
  }

  /** A carry out of position k is an increment: the saturated digits below give back what it adds. */
  lemma {:induction false} CarryIncrements(loops: seq<Loop>, idx: seq<int>, k: nat)
    requires k < |loops| == |idx| && forall j :: 0 <= j < k ==> idx[j] == Reps(loops[j])
    ensures Value(loops, Carried(k, idx), |loops|) == Value(loops, idx, |loops|) + 1
  {
    var c := Carried(k, idx);
    ValueOfTop(loops, idx, k);
    ValueOfZeros(loops, c, k);
    assert (idx[k] + 1) * Place(loops, k) == idx[k] * Place(loops, k) + Place(loops, k);
    ValueSameAbove(loops, c, idx, k + 1, |loops|);
  }

  lemma {:induction false} StepInv(loops: seq<Loop>, s: State)
    requires Inv(loops, s) && loops[0].ucodeAddr == 0
    ensures Inv(loops, Step(loops, s).next)
  {
    var t := Step(loops, s).next;
    forall j | 0 <= j < |loops| ensures 0 <= t.idx[j] <= Reps(loops[j]) {
      assert 0 <= s.idx[j] <= Reps(loops[j]);
    }
  }

  lemma {:induction false} LargestIsTop(loops: seq<Loop>, idx: seq<int>)
    requires InRange(loops, idx) && Value(loops, idx, |loops|) == Place(loops, |loops|) - 1
    ensures idx == Top(loops, |loops|)
  {
    ValueOfTop(loops, Top(loops, |loops|), |loops|);
    SameIndex(loops, idx, Top(loops, |loops|));
  }

  /** A step raises the counter by one exactly when it executes and is not busy. */
  lemma {:induction false} StepCounts(loops: seq<Loop>, s: State)
    requires Inv(loops, s) && !Step(loops, s).end
    ensures var r := Step(loops, s);
            Value(loops, r.next.idx, |loops|)
            == Value(loops, s.idx, |loops|) + if r.execute && !r.busy then 1 else 0
  {
    var k, r := s.loop, Step(loops, s);
    if r.execute && !r.busy {
      assert r.next.idx == Carried(k, s.idx);
      CarryIncrements(loops, s.idx, k);
    } else {
      assert r.next.idx == s.idx;
    }
  }

  /** Termination happens in the top loop, on the largest value of the counter and on no other. */
  lemma {:induction false} StepEnds(loops: seq<Loop>, s: State)
    requires Inv(loops, s)
    ensures Step(loops, s).end
            <==> s.loop == |loops| - 1 && Value(loops, s.idx, |loops|) == Place(loops, |loops|) - 1
  {
    if s.loop == |loops| - 1 {
      if s.idx[s.loop] == Reps(loops[s.loop]) {
        ValueOfTop(loops, s.idx, |loops|);
      } else if Value(loops, s.idx, |loops|) == Place(loops, |loops|) - 1 {
        LargestIsTop(loops, s.idx);
      }
    }
  }

  lemma {:induction false} InRangeBound(loops: seq<Loop>, idx: seq<int>, k: nat)
    requires InRange(loops, idx) && k <= |loops|
    ensures 0 <= Value(loops, idx, k) < Place(loops, k)
  {
    if k > 0 {
      InRangeBound(loops, idx, k - 1);
      var p, r := Place(loops, k - 1), Reps(loops[k - 1]);
      MulMono(0, idx[k - 1], p);
      MulMono(idx[k - 1], r, p);
      PlaceNext(loops, k - 1);
    }
  }

  /** An index vector is determined by its value. */
  lemma {:induction false} ValueInjective(loops: seq<Loop>, a: seq<int>, b: seq<int>, k: nat)
    requires InRange(loops, a) && InRange(loops, b) && k <= |loops|
    requires Value(loops, a, k) == Value(loops, b, k)
    ensures a[..k] == b[..k]
  {
    if k > 0 {
      var p := Place(loops, k - 1);
      InRangeBound(loops, a, k - 1);
      InRangeBound(loops, b, k - 1);
      SameQuotient(a[k - 1], Value(loops, a, k - 1), b[k - 1], Value(loops, b, k - 1), p);
      ValueInjective(loops, a, b, k - 1);
      assert a[..k] == a[..k - 1] + [a[k - 1]];
      assert b[..k] == b[..k - 1] + [b[k - 1]];
    }
  }

  /** As long as nothing has ended, the counter has grown by the increments of the n steps from s. */
  ghost predicate Counts(loops: seq<Loop>, s: State, n: nat)
    requires Inv(loops, s)
  {
    var out := Run(loops, s, n);
    Inv(loops, out.state)
    && (out.ends == 0 ==> Value(loops, out.state.idx, |loops|) == Value(loops, s.idx, |loops|) + out.increments)
  }

  lemma {:induction false} CountsNext(loops: seq<Loop>, s: State, n: nat)
    requires Inv(loops, s) && loops[0].ucodeAddr == 0 && Counts(loops, s, n)
    ensures Counts(loops, s, n + 1)
  {
    var t := Run(loops, s, n).state;
    RunNext(loops, s, n);
    StepInv(loops, t);
    if !Step(loops, t).end {
      StepCounts(loops, t);
    }
  }

  /** Over a whole run the counter equals the number of increments, as long as nothing has ended. */
  lemma {:induction false} RunOdometer(loops: seq<Loop>, s: State, n: nat)
    requires Inv(loops, s) && loops[0].ucodeAddr == 0
    ensures Counts(loops, s, n)
  {
    assert Counts(loops, s, 0);
    for i := 0 to n
      invariant Counts(loops, s, i)
    {
      CountsNext(loops, s, i);
    }
  }

  lemma {:induction false} StartInv(loops: seq<Loop>)
    requires |loops| > 0 && loops[0].ucodeAddr == 0
    ensures Inv(loops, Start(loops)) && Value(loops, Start(loops).idx, |loops|) == 0
  {
    ValueOfZeros(loops, Start(loops).idx, |loops|);
  }

  lemma {:induction false} IncrementsGrow(loops: seq<Loop>, s: State, m: nat)
    requires Shape(loops, s)
    ensures Run(loops, s, m).increments <= Run(loops, s, m + 1).increments <= Run(loops, s, m).increments + 1
  {
    RunSplit(loops, s, m, 1);
    var t := Run(loops, s, m).state;
    assert Run(loops, Step(loops, t).next, 0).increments == 0;
  }

  /** The counter passes through every value up to the one it has after m steps. */
  lemma {:induction false} ReachesCount(loops: seq<Loop>, s: State, m: nat, v: nat) returns (i: nat)
    requires Shape(loops, s) && v <= Run(loops, s, m).increments
    ensures i <= m && Run(loops, s, i).increments == v
  {
    i := m;
    if v < Run(loops, s, m).increments {
      assert m > 0;
      IncrementsGrow(loops, s, m - 1);
      i := ReachesCount(loops, s, m - 1, v);
    }
  }

  /** The machine on its way through one complete run. */
  lemma {:induction false} OdometerSoFar(loops: seq<Loop>, m: nat)
    requires |loops| > 0 && loops[0].ucodeAddr == 0 && m < Steps(loops, |loops|)
    ensures var out := Run(loops, Start(loops), m);
            && Inv(loops, out.state) && out.ends == 0
            && Value(loops, out.state.idx, |loops|) == out.increments
  {
    StartInv(loops);
    MachineRunsTheNest(loops);
    RunOdometer(loops, Start(loops), m);
    assert Counts(loops, Start(loops), m);
  }

  lemma {:induction false} SameIndex(loops: seq<Loop>, a: seq<int>, b: seq<int>)
    requires InRange(loops, a) && InRange(loops, b)
    requires Value(loops, a, |loops|) == Value(loops, b, |loops|)
    ensures a == b
  {
    ValueInjective(loops, a, b, |loops|);
    assert a[..|loops|] == a && b[..|loops|] == b;
  }

  /** A complete run makes product(range) - 1 increments. */
  lemma {:induction false} OdometerTotal(loops: seq<Loop>)
    requires |loops| > 0 && loops[0].ucodeAddr == 0
    ensures Run(loops, Start(loops), Steps(loops, |loops|)).increments == Place(loops, |loops|) - 1
    ensures Steps(loops, |loops|) > 0
    ensures Run(loops, Start(loops), Steps(loops, |loops|) - 1).increments == Place(loops, |loops|) - 1
  {
    var n := Steps(loops, |loops|);
    var last := RunUpToEnd(loops);
    RunSplit(loops, Start(loops), n - 1, 1);
    RunOne(loops, last);
    OdometerSoFar(loops, n - 1);
    StepEnds(loops, last);
  }

  /** Every index vector within the ranges is visited. */
  lemma {:induction false} OdometerReaches(loops: seq<Loop>, v: seq<int>) returns (m: nat)
    requires |loops| > 0 && loops[0].ucodeAddr == 0 && InRange(loops, v)
    ensures m < Steps(loops, |loops|) && Run(loops, Start(loops), m).state.idx == v
  {
    InRangeBound(loops, v, |loops|);
    OdometerTotal(loops);
    m := ReachesCount(loops, Start(loops), Steps(loops, |loops|) - 1, Value(loops, v, |loops|));
    OdometerSoFar(loops, m);
    SameIndex(loops, Run(loops, Start(loops), m).state.idx, v);
  }

  /** The odometer law. In a complete run from the zero state the index vector reads, before every
      step, the number of increments made so far in mixed radix: so it takes the values
      0 .. product(range) - 1 in order, and comes back to none of them. */
  lemma {:induction false} OdometerLaw(loops: seq<Loop>, m: nat, v: seq<int>)
    requires |loops| > 0 && loops[0].ucodeAddr == 0 && m < Steps(loops, |loops|) && InRange(loops, v)
    ensures Run(loops, Start(loops), m).state.idx == v
            <==> Run(loops, Start(loops), m).increments == Value(loops, v, |loops|)
  {
    OdometerSoFar(loops, m);
    if Run(loops, Start(loops), m).increments == Value(loops, v, |loops|) {
      SameIndex(loops, Run(loops, Start(loops), m).state.idx, v);
    }
  }
}
