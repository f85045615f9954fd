/** The bit-level encoding of a micro-code program, and its seven configuration registers. */
module Bytecode {
  import opened Arith
  import opened Bits
  import opened Collections
  import opened UcodeProgram

  datatype Image = Image(code: seq<bool>, loops: seq<bool>)

  const CODE_BITS := 176

  /** A bit array of fixed length can only be made from a number that fits. */
  function FromUint(v: nat, length: nat): Option<seq<bool>> {
    if v < Pow2(length) then Some(Digits(v, length)) else None
  }

  ghost predicate InstrFits(i: Instr) { i.a < 32 && i.b < 32 }

  ghost function InstrBits(i: Instr): (b: seq<bool>)
    ensures |b| == 11
  {
    [i.add] + Digits(i.a, 5) + Digits(i.b, 5)
  }

  ghost function CodeBits(code: seq<Instr>): (b: seq<bool>)
    ensures |b| == 11 * |code|
  {
    if code == [] then [] else CodeBits(code[1..]) + InstrBits(code[0])
  }

  ghost predicate LoopFits(ops: seq<nat>, k: nat)
    requires k < |ops|
  {
    PrefixSum(ops, k) < 32 && ops[k] < 8
  }

  ghost function LoopBits(ops: seq<nat>, k: nat): (b: seq<bool>)
    requires k <= |ops|
    ensures |b| == 8 * (|ops| - k)
    decreases |ops| - k
  {
    if k == |ops| then [] else LoopBits(ops, k + 1) + (Digits(PrefixSum(ops, k), 5) + Digits(ops[k], 3))
  }

  /** Bits [11i, 11i + 11) of b hold the instruction. */
  ghost predicate HoldsInstr(b: seq<bool>, i: nat, instr: Instr) {
    11 * i + 11 <= |b|
    && Field(b, 11 * i, 5) == instr.b && Field(b, 11 * i + 5, 5) == instr.a
    && Field(b, 11 * i + 10, 1) == if instr.add then 1 else 0
  }

  /** Bits [8k, 8k + 8) of b hold the block address and the block length. */
  ghost predicate HoldsLoop(b: seq<bool>, k: nat, addr: nat, nbOps: nat) {
    8 * k + 8 <= |b| && Field(b, 8 * k, 3) == nbOps && Field(b, 8 * k + 3, 5) == addr
  }

  lemma {:induction false} Pow2Small()
    ensures Pow2(1) == 2 && Pow2(3) == 8 && Pow2(5) == 32
  {
    assert Pow2(2) == 4 && Pow2(4) == 16;
  }

  /** Reading from the right end, what is prepended does not matter. */
  lemma {:induction false} FieldSuffix(p: seq<bool>, b: seq<bool>, lo: nat, w: nat)
    requires lo + w <= |b|
    ensures Field(p + b, lo, w) == Field(b, lo, w)
  {
    assert (p + b)[|p + b| - lo - w..|p + b| - lo] == b[|b| - lo - w..|b| - lo];
  }

  /** Reading past what is appended. */
  lemma {:induction false} FieldPrefix(p: seq<bool>, b: seq<bool>, lo: nat, w: nat)
    requires lo + w <= |p|
    ensures Field(p + b, lo + |b|, w) == Field(p, lo, w)
  {
    assert (p + b)[|p + b| - lo - |b| - w..|p + b| - lo - |b|] == p[|p| - lo - w..|p| - lo];
  }

  lemma {:induction false} InstrBitsHold(i: Instr)
    requires InstrFits(i)
    ensures HoldsInstr(InstrBits(i), 0, i)
  {
    Pow2Small();
    var op, a, b := [i.add], Digits(i.a, 5), Digits(i.b, 5);
    WholeField(i.a, 5);
    WholeField(i.b, 5);
    FieldSuffix(op + a, b, 0, 5);
    FieldPrefix(op + a, b, 0, 5);
    FieldSuffix(op, a, 0, 5);
    FieldPrefix(op + a, b, 5, 1);
    FieldPrefix(op, a, 0, 1);
    assert Field(op, 0, 1) == ValueOf([i.add]) by { assert op[0..1] == [i.add]; }
    assert ValueOf([i.add]) == if i.add then 1 else 0 by { assert [i.add][..0] == []; }
  }

  lemma {:induction false} WholeField(v: nat, n: nat)
    requires v < Pow2(n)
    ensures Field(Digits(v, n), 0, n) == v
  {
    DigitsValue(v, n);
    assert Digits(v, n)[0..n] == Digits(v, n);
  }

  lemma {:induction false} CodeBitsHold(code: seq<Instr>, i: nat)
    requires i < |code| && InstrFits(code[i])
    ensures HoldsInstr(CodeBits(code), i, code[i])
    decreases |code|
  {
    var rest, last := CodeBits(code[1..]), InstrBits(code[0]);
    if i == 0 {
      InstrBitsHold(code[0]);
      FieldSuffix(rest, last, 0, 5);
      FieldSuffix(rest, last, 5, 5);
      FieldSuffix(rest, last, 10, 1);
    } else {
      CodeBitsHold(code[1..], i - 1);
      FieldPrefix(rest, last, 11 * (i - 1), 5);
      FieldPrefix(rest, last, 11 * (i - 1) + 5, 5);
      FieldPrefix(rest, last, 11 * (i - 1) + 10, 1);
    }
  }

  lemma {:induction false} LoopBitsHold(ops: seq<nat>, j: nat, k: nat)
    requires j <= k < |ops| && LoopFits(ops, k)
    ensures HoldsLoop(LoopBits(ops, j), k - j, PrefixSum(ops, k), ops[k])
    decreases k - j
  {
    var rest, last := LoopBits(ops, j + 1), Digits(PrefixSum(ops, j), 5) + Digits(ops[j], 3);
    if j == k {
      Pow2Small();
      DigitsValue(PrefixSum(ops, k), 5);
      DigitsValue(ops[k], 3);
      assert last[5..8] == Digits(ops[k], 3) && last[0..5] == Digits(PrefixSum(ops, k), 5);
      FieldSuffix(rest, last, 0, 3);
      FieldSuffix(rest, last, 3, 5);
    } else {
      LoopBitsHold(ops, j + 1, k);
      FieldPrefix(rest, last, 8 * (k - j - 1), 3);
      FieldPrefix(rest, last, 8 * (k - j - 1) + 3, 5);
    }
  }

  ghost predicate EncodesCode(b: seq<bool>, code: seq<Instr>) {
    && |b| == (if 11 * |code| < CODE_BITS then CODE_BITS else 11 * |code|)
    && (forall i :: 0 <= i < |code| ==> HoldsInstr(b, i, code[i]))
    && (forall i :: |code| <= i && 11 * i + 11 <= |b| ==> HoldsInstr(b, i, Instr(false, 0, 0)))
  }

  ghost predicate EncodesLoops(b: seq<bool>, ops: seq<nat>) {
    |b| == 8 * |ops| && forall k :: 0 <= k < |ops| ==> HoldsLoop(b, k, PrefixSum(ops, k), ops[k])
  }

  /** What a decoder reads back from an image: the program, then moves of x0 into itself. */
  ghost predicate Encodes(image: Image, code: seq<Instr>, ops: seq<nat>) {
    EncodesCode(image.code, code) && EncodesLoops(image.loops, ops)
  }

  lemma {:induction false} PaddedHold(code: seq<Instr>, pad: seq<bool>)
    requires forall i :: 0 <= i < |pad| ==> !pad[i]
    requires forall i :: 0 <= i < |code| ==> InstrFits(code[i])
    ensures forall i :: 0 <= i < |code| ==> HoldsInstr(pad + CodeBits(code), i, code[i])
    ensures forall i :: |code| <= i && 11 * i + 11 <= |pad| + 11 * |code| ==>
              HoldsInstr(pad + CodeBits(code), i, Instr(false, 0, 0))
  {
    var b := CodeBits(code);
    forall i | 0 <= i < |code| ensures HoldsInstr(pad + b, i, code[i]) {
      CodeBitsHold(code, i);
      FieldSuffix(pad, b, 11 * i, 5);
      FieldSuffix(pad, b, 11 * i + 5, 5);
      FieldSuffix(pad, b, 11 * i + 10, 1);
    }
    forall i | |code| <= i && 11 * i + 11 <= |pad| + 11 * |code|
      ensures HoldsInstr(pad + b, i, Instr(false, 0, 0))
    {
      var lo := 11 * i - |b|;
      FieldPrefix(pad, b, lo, 5);
      FieldPrefix(pad, b, lo + 5, 5);
      FieldPrefix(pad, b, lo + 10, 1);
      ValueOfFalse(pad[|pad| - lo - 5..|pad| - lo]);
      ValueOfFalse(pad[|pad| - lo - 10..|pad| - lo - 5]);
      ValueOfFalse(pad[|pad| - lo - 11..|pad| - lo - 10]);
    }
  }

  /** The instructions, last one first, padded on the left. */
  method EncodeCode(code: seq<Instr>) returns (r: Option<seq<bool>>)
    ensures r.Some? <==> forall i :: 0 <= i < |code| ==> InstrFits(code[i])
    ensures r.Some? ==> EncodesCode(r.value, code)
  {
    Pow2Small();
    var bits: seq<bool> := [];
    var i := |code|;
    while i > 0
      invariant 0 <= i <= |code| && bits == CodeBits(code[i..])
      invariant forall j :: i <= j < |code| ==> InstrFits(code[j])
    {
      i := i - 1;
      var c := code[i];
      var a, b := FromUint(c.a, 5), FromUint(c.b, 5);
      if a.None? || b.None? {
        assert !InstrFits(code[i]);
        return None;
      }
      assert code[i..][1..] == code[i + 1..];
      bits := bits + ([c.add] + a.value + b.value);
    }
    assert code[0..] == code;
    var pad := [];
    if |bits| < CODE_BITS {
      pad := seq(CODE_BITS - |bits|, _ => false);
    }
    PaddedHold(code, pad);
    r := Some(pad + bits);
  }

  lemma {:induction false} LoopBitsDecode(ops: seq<nat>)
    requires forall k :: 0 <= k < |ops| ==> LoopFits(ops, k)
    ensures EncodesLoops(LoopBits(ops, 0), ops)
  {
    forall k | 0 <= k < |ops|
      ensures HoldsLoop(LoopBits(ops, 0), k, PrefixSum(ops, k), ops[k])
    {
      LoopBitsHold(ops, 0, k);
    }
  }

  method StartAddresses(loopsOps: seq<nat>) returns (addrs: seq<nat>)
    ensures |addrs| == |loopsOps| && forall j :: 0 <= j < |addrs| ==> addrs[j] == PrefixSum(loopsOps, j)
  {
    addrs := [];
    var a := 0;
    for k := 0 to |loopsOps|
      invariant |addrs| == k && a == PrefixSum(loopsOps, k)
      invariant forall j :: 0 <= j < k ==> addrs[j] == PrefixSum(loopsOps, j)
    {
      addrs := addrs + [a];
      a := a + loopsOps[k];
    }
  }

  /** The blocks, last one first, with their start addresses. */
  method EncodeLoops(loopsOps: seq<nat>) returns (r: Option<seq<bool>>)
    ensures r.Some? <==> forall k :: 0 <= k < |loopsOps| ==> LoopFits(loopsOps, k)
    ensures r.Some? ==> EncodesLoops(r.value, loopsOps)
  {
    Pow2Small();
    var addrs := StartAddresses(loopsOps);
    var loops: seq<bool> := [];
    var k := |loopsOps|;
    while k > 0
      invariant 0 <= k <= |loopsOps| && loops == LoopBits(loopsOps, k)
      invariant forall j :: k <= j < |loopsOps| ==> LoopFits(loopsOps, j)
    {
      k := k - 1;
      var addr, ops := FromUint(addrs[k], 5), FromUint(loopsOps[k], 3);
      if addr.None? || ops.None? {
        assert !LoopFits(loopsOps, k);
        return None;
      }
      loops := loops + (addr.value + ops.value);
    }
    LoopBitsDecode(loopsOps);
    r := Some(loops);
  }

  /** Encoding succeeds exactly when every field fits its width, and then decodes to the program. */
  method Encode(code: seq<Instr>, loopsOps: seq<nat>) returns (r: Option<Image>)
    ensures r.Some? <==> (forall i :: 0 <= i < |code| ==> InstrFits(code[i]))
                         && (forall k :: 0 <= k < |loopsOps| ==> LoopFits(loopsOps, k))
    ensures r.Some? ==> Encodes(r.value, code, loopsOps)
  {
    var bits := EncodeCode(code);
    var loops := EncodeLoops(loopsOps);
    r := if bits.None? || loops.None? then None else Some(Image(bits.value, loops.value));
  }

  /** The decoder determines the program: two programs with the same image agree. */
  lemma {:induction false} EncodingInjective(image: Image, c1: seq<Instr>, o1: seq<nat>, c2: seq<Instr>, o2: seq<nat>)
    requires Encodes(image, c1, o1) && Encodes(image, c2, o2)
    ensures o1 == o2
    ensures |c1| == |c2| ==> c1 == c2
    ensures forall i :: 0 <= i < |c1| && i >= |c2| ==> c1[i] == Instr(false, 0, 0)
  {
    assert |o1| == |o2|;
    forall k | 0 <= k < |o1| ensures o1[k] == o2[k] {
      assert HoldsLoop(image.loops, k, PrefixSum(o1, k), o1[k]);
      assert HoldsLoop(image.loops, k, PrefixSum(o2, k), o2[k]);
    }
    forall i | 0 <= i < |c1|
      ensures i < |c2| ==> c1[i] == c2[i]
      ensures i >= |c2| ==> c1[i] == Instr(false, 0, 0)
    {
      assert HoldsInstr(image.code, i, c1[i]);
      if i < |c2| {
        assert HoldsInstr(image.code, i, c2[i]);
      } else {
        assert HoldsInstr(image.code, i, Instr(false, 0, 0));
      }
    }
  }

  // ---- The seven 32-bit registers: BYTECODE0 .. BYTECODE4, LOOPS0 & BYTECODE5, LOOPS1 ----

  /** The bits make up exactly n words of w bits. */
  ghost predicate Divides(bits: seq<bool>, w: nat, n: nat) {
    if n == 0 then bits == [] else |bits| >= w && Divides(bits[w..], w, n - 1)
  }

  lemma {:induction false} DividesIf(bits: seq<bool>, w: nat, n: nat)
    requires |bits| == n * w
    ensures Divides(bits, w, n)
    decreases n
  {
    if n > 0 {
      Distribute(n - 1, 1, w);
      MulMono(0, n - 1, w);
      DividesIf(bits[w..], w, n - 1);
    }
  }

  /** The bits, cut into n words of w bits, the lowest word first. */
  ghost function Cut(bits: seq<bool>, w: nat, n: nat): (words: seq<nat>)
    requires Divides(bits, w, n)
    ensures |words| == n
  {
    if n == 0 then [] else Cut(bits[w..], w, n - 1) + [ValueOf(bits[..w])]
  }

  /** The bits that the words hold, the highest word first. */
  ghost function Join(words: seq<nat>, w: nat): seq<bool> {
    if words == [] then [] else Digits(words[|words| - 1], w) + Join(words[..|words| - 1], w)
  }

  lemma {:induction false} JoinTop(words: seq<nat>, top: seq<bool>)
    ensures Join(words + [ValueOf(top)], |top|) == top + Join(words, |top|)
  {
    ValueDigits(top);
    assert (words + [ValueOf(top)])[..|words|] == words;
  }

  lemma {:induction false} SplitAt(bits: seq<bool>, w: nat)
    requires w <= |bits|
    ensures bits[..w] + bits[w..] == bits
  {
  }

  lemma {:induction false} JoinCut(bits: seq<bool>, w: nat, n: nat)
    requires Divides(bits, w, n)
    ensures Join(Cut(bits, w, n), w) == bits
    decreases n
  {
    if n > 0 {
      var words, top := Cut(bits[w..], w, n - 1), bits[..w];
      JoinCut(bits[w..], w, n - 1);
      assert Cut(bits, w, n) == words + [ValueOf(top)];
      assert |top| == w;
      JoinTop(words, top);
      SplitAt(bits, w);
    }
  }

  /** The highest word. */
  lemma {:induction false} TopField(bits: seq<bool>, lo: nat, w: nat)
    requires |bits| == lo + w
    ensures Field(bits, lo, w) == ValueOf(bits[..w])
  {
    assert bits[|bits| - lo - w..|bits| - lo] == bits[..w];
  }

  lemma {:induction false} LowerField(bits: seq<bool>, lo: nat, w: nat)
    requires |bits| >= lo + w + w
    ensures Field(bits, lo, w) == Field(bits[w..], lo, w)
  {
    SplitAt(bits, w);
    FieldSuffix(bits[..w], bits[w..], lo, w);
  }

  /** Word j holds bits [w j, w j + w). */
  lemma {:induction false} CutAt(bits: seq<bool>, w: nat, n: nat, j: nat)
    requires Divides(bits, w, n) && j < n
    ensures w * j + w <= |bits| && Cut(bits, w, n)[j] == Field(bits, w * j, w)
    decreases n
  {
    var words, lo := Cut(bits[w..], w, n - 1), w * j;
    DividesLength(bits[w..], w, n - 1);
    assert Cut(bits, w, n) == words + [ValueOf(bits[..w])];
    if j == n - 1 {
      TopField(bits, lo, w);
    } else {
      CutAt(bits[w..], w, n - 1, j);
      LowerField(bits, lo, w);
    }
  }

  lemma {:induction false} DividesLength(bits: seq<bool>, w: nat, n: nat)
    requires Divides(bits, w, n)
    ensures |bits| == w * n
  {
    if n > 0 {
      DividesLength(bits[w..], w, n - 1);
      Distribute(n - 1, 1, w);
    }
  }

  /** For six loops and at most sixteen instructions, n = 7 registers of w = 32 bits hold the whole image. */
  lemma {:induction false} RegistersLoseNothing(image: Image, code: seq<Instr>, ops: seq<nat>, w: nat, n: nat)
    requires Encodes(image, code, ops) && |ops| == 6 && |code| <= 16 && w == 32 && n == 7
    ensures Divides(image.loops + image.code, w, n)
    ensures Join(Cut(image.loops + image.code, w, n), w) == image.loops + image.code
  {
    var bits := image.loops + image.code;
    assert |image.code| == CODE_BITS && |image.loops| == 48;
    assert n * w == 224;
    DividesIf(bits, w, n);
    JoinCut(bits, w, n);
  }
}
