/** The stimuli generator: loads the segments of a binary into a memory of little-endian words. A word holds `width`
    bytes, a power of two, and a store into it clears `width` bits first. */
module StimMemory {
  import opened Arith
  import opened Bits
  import opened Words

  ghost predicate IsBytes(data: seq<nat>) { forall i :: 0 <= i < |data| ==> data[i] < 256 }

  // ---- One word ----

  /** Clears `width` bits from byte `shift` on, then ors the chunk in. */
  function NewWord(word: nat, shift: nat, chunk: seq<nat>, width: nat): nat {
    Or(AndNot(word, Shl(Pow2(width) - 1, 8 * shift)), Shl(FromBytes(chunk), 8 * shift))
  }

  /** What is left of a byte o that stands j bytes behind the first one stored. */
  function Cleared(o: nat, j: nat, width: nat): nat {
    if width <= 8 * j then o else AndNot(o, Pow2(width - 8 * j) - 1)
  }

  lemma {:induction false} OrBound(x: nat, y: nat, n: nat)
    requires x < Pow2(n) && y < Pow2(n)
    ensures Or(x, y) < Pow2(n)
    decreases n
  {
    if n > 0 && x != 0 && y != 0 {
      OrBound(x / 2, y / 2, n - 1);
    }
  }

  lemma {:induction false} AndNotBound(x: nat, y: nat)
    ensures AndNot(x, y) <= x
  {
    if x != 0 {
      AndNotBound(x / 2, y / 2);
    }
  }

  lemma {:induction false} ShlBound(x: nat, n: nat, m: nat)
    requires x < Pow2(m)
    ensures Shl(x, n) < Pow2(m + n)
  {
    if n > 0 {
      ShlBound(x, n - 1, m);
    }
  }

  lemma {:induction false} FromBytesBound(data: seq<nat>)
    requires IsBytes(data)
    ensures FromBytes(data) < Pow2(8 * |data|)
  {
    if data != [] {
      FromBytesBound(data[1..]);
      var p := 8 * |data[1..]|;
      assert Pow2(p + 8) == 256 * Pow2(p) by {
        assert Pow2(p + 4) == 16 * Pow2(p) by { assert Pow2(p + 2) == 4 * Pow2(p); }
        assert Pow2(p + 6) == 4 * Pow2(p + 4);
      }
    }
  }

  /** A word stays within its width. */
  lemma {:induction false} NewWordBound(word: nat, shift: nat, chunk: seq<nat>, width: nat)
    requires word < Pow2(8 * width) && IsBytes(chunk) && shift + |chunk| <= width
    ensures NewWord(word, shift, chunk, width) < Pow2(8 * width)
  {
    AndNotBound(word, Shl(Pow2(width) - 1, 8 * shift));
    FromBytesBound(chunk);
    ShlBound(FromBytes(chunk), 8 * shift, 8 * |chunk|);
    Pow2Mono(8 * |chunk| + 8 * shift, 8 * width);
    OrBound(AndNot(word, Shl(Pow2(width) - 1, 8 * shift)), Shl(FromBytes(chunk), 8 * shift), 8 * width);
  }

  ghost predicate Packed(mem: map<nat, nat>, width: nat) { forall a :: a in mem ==> mem[a] < Pow2(8 * width) }

  /** Every bit of the new word. */
  lemma {:induction false} NewWordBit(word: nat, shift: nat, chunk: seq<nat>, width: nat, p: nat)
    ensures Bit(NewWord(word, shift, chunk, width), p)
            <==> (Bit(word, p) && !(8 * shift <= p < 8 * shift + width))
                 || (p >= 8 * shift && Bit(FromBytes(chunk), p - 8 * shift))
  {
    var n := 8 * shift;
    BitOr(AndNot(word, Shl(Pow2(width) - 1, n)), Shl(FromBytes(chunk), n), p);
    BitAndNot(word, Shl(Pow2(width) - 1, n), p);
    BitShl(Pow2(width) - 1, n, p);
    BitShl(FromBytes(chunk), n, p);
    if p >= n {
      BitOnes(width, p - n);
    }
  }

  lemma {:induction false} ChunkBit(chunk: seq<nat>, j: nat, b: nat)
    requires IsBytes(chunk) && b < 8
    ensures Bit(FromBytes(chunk), 8 * j + b) <==> j < |chunk| && Bit(chunk[j], b)
  {
    FromBytesAt(chunk, j);
    BitOfByte(FromBytes(chunk), j, b);
    BitZero(b);
  }

  lemma {:induction false} ClearedBit(o: nat, j: nat, width: nat, b: nat)
    ensures Bit(Cleared(o, j, width), b) <==> Bit(o, b) && !(8 * j + b < width)
  {
    if width > 8 * j {
      BitAndNot(o, Pow2(width - 8 * j) - 1, b);
      BitOnes(width - 8 * j, b);
    }
  }

  lemma {:induction false} ClearedBound(o: nat, j: nat, width: nat)
    ensures Cleared(o, j, width) <= o
  {
    if width > 8 * j {
      AndNotBound(o, Pow2(width - 8 * j) - 1);
    }
  }

  /** What a byte becomes: the bits left of it, and the byte d stored over it, if any. */
  function Stored(o: nat, j: nat, d: nat, width: nat): nat { Or(Cleared(o, j, width), d) }

  lemma {:induction false} StoredBit(o: nat, j: nat, d: nat, width: nat, b: nat)
    ensures Bit(Stored(o, j, d, width), b) <==> (Bit(o, b) && !(8 * j + b < width)) || Bit(d, b)
  {
    ClearedBit(o, j, width, b);
    BitOr(Cleared(o, j, width), d, b);
  }

  lemma {:induction false} StoredBound(o: nat, j: nat, d: nat, width: nat)
    requires o < 256 && d < 256
    ensures Stored(o, j, d, width) < 256
  {
    var n := 8;
    Pow2Of8();
    ClearedBound(o, j, width);
    OrBound(Cleared(o, j, width), d, n);
  }

  /** The byte of the chunk that is stored at offset j. */
  function ChunkByte(chunk: seq<nat>, j: nat): nat { if j < |chunk| then chunk[j] else 0 }

  /** Every byte of the new word, whatever the width. */
  lemma {:induction false} NewWordByte(word: nat, shift: nat, chunk: seq<nat>, width: nat, i: nat)
    requires IsBytes(chunk)
    ensures ByteAt(NewWord(word, shift, chunk, width), i)
            == if i < shift then ByteAt(word, i)
               else Stored(ByteAt(word, i), i - shift, ChunkByte(chunk, i - shift), width)
  {
    var w, o, n := NewWord(word, shift, chunk, width), ByteAt(word, i), 8;
    if i < shift {
      forall b | 0 <= b < 8 ensures BitIn(w, i, b) <==> BitIn(word, i, b) {
        NewWordBit(word, shift, chunk, width, 8 * i + b);
      }
      ByteByBits(w, i, word, i);
    } else {
      var j, d := i - shift, ChunkByte(chunk, i - shift);
      forall b | 0 <= b < n ensures Bit(ByteAt(w, i), b) <==> Bit(Stored(o, j, d, width), b) {
        BitOfByte(w, i, b);
        BitOfByte(word, i, b);
        NewWordBit(word, shift, chunk, width, 8 * i + b);
        ChunkBit(chunk, j, b);
        StoredBit(o, j, d, width, b);
        BitZero(b);
      }
      Pow2Of8();
      StoredBound(o, j, d, width);
      SameBits(ByteAt(w, i), Stored(o, j, d, width), n);
    }
  }

  // ---- The memory ----

  function Aligned(a: nat, width: nat): nat
    requires width > 0
  {
    a - a % width
  }

  /** base & ~(width - 1) rounds down to a word. */
  lemma {:induction false} MaskAligns(a: nat, width: nat)
    requires PowerOf2(width)
    ensures width > 0 && AndNot(a, width - 1) == Aligned(a, width)
  {
    var k: nat :| width == Pow2(k);
    AndNotOnes(a, k);
  }

  /** self.mem.get(a), zero if there is none. */
  function WordAt(mem: map<nat, nat>, a: nat): nat { if a in mem then mem[a] else 0 }

  /** The byte at address a; what was never written reads as zero. */
  function ByteOf(mem: map<nat, nat>, width: nat, a: nat): nat
    requires width > 0
  {
    if Aligned(a, width) in mem then ByteAt(mem[Aligned(a, width)], a % width) else 0
  }

  /** A run of bytes that is stored in one go. */
  datatype Run = Run(base: nat, data: seq<nat>)

  predicate Covers(run: Run, a: nat) { run.base <= a < run.base + |run.data| }

  /** The run stores into the word at address a. */
  predicate Touches(run: Run, width: nat, a: nat)
    requires width > 0
  {
    run.data != [] && a % width == 0 && Aligned(run.base, width) <= a < run.base + |run.data|
  }

  /** Address a is not in front of the run, and lies in a word that the run stores into. */
  predicate Reached(run: Run, width: nat, a: nat)
    requires width > 0
  {
    run.base <= a && Aligned(a, width) < run.base + |run.data| && run.data != []
  }

  /** Where in the word of address a the run begins to store. */
  function From(run: Run, width: nat, a: nat): (start: nat)
    requires width > 0 && Reached(run, width, a)
    ensures start <= a
  {
    if run.base <= Aligned(a, width) then Aligned(a, width) else run.base
  }

  /** What a run makes of the byte o at address a. */
  function AfterRun(o: nat, run: Run, width: nat, a: nat): nat
    requires width > 0
  {
    if Reached(run, width, a)
    then Stored(o, a - From(run, width, a), if Covers(run, a) then run.data[a - run.base] else 0, width)
    else o
  }

  lemma {:induction false} AlignedIff(a: nat, b: nat, width: nat)
    requires width > 0
    ensures Aligned(a, width) == Aligned(b, width) <==> Aligned(b, width) <= a < Aligned(b, width) + width
    ensures Aligned(b, width) % width == 0
    ensures Aligned(a, width) == Aligned(b, width) ==> a - Aligned(b, width) == a % width
  {
    var q := b / width;
    assert Aligned(b, width) == q * width;
    ModUnique(q * width, q, 0, width);
    if q * width <= a < q * width + width {
      ModUnique(a, q, a - q * width, width);
    }
  }

  lemma {:induction false} NextAligned(a: nat, width: nat)
    requires width > 0
    ensures (Aligned(a, width) + width) % width == 0
  {
    Distribute(a / width, 1, width);
    ModUnique(Aligned(a, width) + width, a / width + 1, 0, width);
  }

  /** Rounding down is monotone. */
  lemma {:induction false} AlignedMono(a: nat, b: nat, width: nat)
    requires width > 0 && a <= b
    ensures Aligned(a, width) <= Aligned(b, width)
    ensures a % width == 0 ==> a <= Aligned(b, width)
  {
    if Aligned(b, width) <= a {
      AlignedIff(a, b, width);
    }
  }

  /** One store into one word. */
  lemma {:induction false} OneWordStored(mem: map<nat, nat>, width: nat, base: nat, chunk: seq<nat>, a: nat)
    requires width > 0 && IsBytes(chunk) && chunk != [] && base % width + |chunk| <= width
    ensures var w := Aligned(base, width);
            var value := NewWord(WordAt(mem, w), base - w, chunk, width);
            ByteOf(mem[w := value], width, a) == AfterRun(ByteOf(mem, width, a), Run(base, chunk), width, a)
  {
    var w, run := Aligned(base, width), Run(base, chunk);
    var was := WordAt(mem, w);
    AlignedIff(a, base, width);
    AlignedIff(base, base, width);
    if Aligned(a, width) == w {
      ByteOfZero(a % width);
      NewWordByte(was, base - w, chunk, width, a % width);
    } else if base <= a {
      AlignedMono(base, a, width);
      AlignedIff(Aligned(a, width), base, width);
      AlignedIff(Aligned(a, width), a, width);
      assert !Reached(run, width, a);
    }
  }

  /** A run that ends at a word boundary and the chunk that follows it are one run. */
  lemma {:induction false} RunExtends(o: nat, base: nat, data: seq<nat>, done: nat, more: nat, width: nat, a: nat)
    requires width > 0 && done + more <= |data| && more > 0 && (done == 0 || (base + done) % width == 0)
    ensures AfterRun(AfterRun(o, Run(base, data[..done]), width, a),
                     Run(base + done, data[done..done + more]), width, a)
            == AfterRun(o, Run(base, data[..done + more]), width, a)
  {
    if done > 0 {
      var mid := base + done;
      if a >= mid {
        AlignedMono(mid, a, width);
      } else if Aligned(a, width) < mid {
        AlignedIff(a, a, width);
      }
    } else {
      assert data[..0] == [] && data[0..more] == data[..more];
    }
  }

  // ---- Loads, run by run ----

  /** The byte at address a when the runs have been stored one after the other into an empty memory. */
  function LoadedByte(runs: seq<Run>, width: nat, a: nat): nat
    requires width > 0
  {
    if runs == [] then 0 else AfterRun(LoadedByte(runs[..|runs| - 1], width, a), runs[|runs| - 1], width, a)
  }

  /** Some run stores into the word at address a. */
  predicate Touched(runs: seq<Run>, width: nat, a: nat)
    requires width > 0
  {
    runs != [] && (Touched(runs[..|runs| - 1], width, a) || Touches(runs[|runs| - 1], width, a))
  }

  /** The memory is what the runs make of an empty one: its bytes, its words, and nothing beyond their width. */
  ghost predicate Holds(mem: map<nat, nat>, width: nat, runs: seq<Run>)
    requires width > 0
  {
    && (forall a: nat :: ByteOf(mem, width, a) == LoadedByte(runs, width, a))
    && (forall a: nat :: a in mem <==> Touched(runs, width, a))
    && Packed(mem, width)
  }

  /** What a memory `mem` becomes by one more run. */
  ghost predicate StoredRun(was: map<nat, nat>, mem: map<nat, nat>, width: nat, run: Run)
    requires width > 0
  {
    && (forall a: nat :: ByteOf(mem, width, a) == AfterRun(ByteOf(was, width, a), run, width, a))
    && (forall a: nat :: a in mem <==> a in was || Touches(run, width, a))
    && (Packed(was, width) ==> Packed(mem, width))
  }

  lemma {:induction false} HoldsOneMore(was: map<nat, nat>, mem: map<nat, nat>, width: nat, runs: seq<Run>, run: Run)
    requires width > 0 && Holds(was, width, runs) && StoredRun(was, mem, width, run)
    ensures Holds(mem, width, runs + [run])
  {
    assert (runs + [run])[..|runs|] == runs;
  }

  class Stim {
    var mem: map<nat, nat>
    const areas: seq<(nat, nat)>

    constructor (areas: seq<(nat, nat)>)
      ensures mem == map[] && this.areas == areas
    {
      this.mem := map[];
      this.areas := areas;
    }

    /** Stores as many bytes as fit in one word. */
    method AddMemWord(base: nat, size: nat, data: seq<nat>, width: nat) returns (iterSize: nat)
      requires PowerOf2(width) && 0 < size == |data| && IsBytes(data)
      modifies this
      ensures width > 0 && 0 < iterSize <= size && (iterSize == size || (base + iterSize) % width == 0)
      ensures iterSize <= width - base % width && StoredRun(old(mem), mem, width, Run(base, data[..iterSize]))
    {
      MaskAligns(base, width);
      var alignedBase := AndNot(base, width - 1);
      var shift := base - alignedBase;
      iterSize := width - shift;
      if iterSize > size {
        iterSize := size;
      }
      var value := WordAt(mem, alignedBase);
      ghost var was := value;
      value := AndNot(value, Shl(Pow2(width) - 1, shift * 8));
      value := Or(value, Shl(FromBytes(data[0..iterSize]), shift * 8));
      WordStored(mem, width, base, data[..iterSize], was, value);
      NextAligned(base, width);
      mem := mem[alignedBase := value];
    }

    /** Stores a run of bytes, word by word. */
    method AddMem(start: nat, length: nat, bytes: seq<nat>, width: nat)
      requires PowerOf2(width) && length == |bytes| && IsBytes(bytes)
      modifies this
      ensures width > 0 && StoredRun(old(mem), mem, width, Run(start, bytes))
    {
      MaskAligns(0, width);
      var base, size, data := start, length, bytes;
      ghost var done, run := 0, Run(start, []);
      NothingStored(mem, width, start);
      while size > 0
        invariant 0 <= done <= length && base == start + done && size == length - done && data == bytes[done..]
        invariant done == 0 || size == 0 || base % width == 0
        invariant run == Run(start, bytes[..done]) && StoredRun(old(mem), mem, width, run)
      {
        ghost var before := mem;
        var iterSize := AddMemWord(base, size, data, width);
        assert data[..iterSize] == bytes[done..done + iterSize];
        RunsJoin(old(mem), before, mem, width, start, bytes, done, iterSize);
        run := Run(start, bytes[..done + iterSize]);
        size := size - iterSize;
        base := base + iterSize;
        data := data[iterSize..];
        done := done + iterSize;
      }
      assert bytes[..done] == bytes;
    }

    /** The segment lies in one of the target areas, or there are none. */
    predicate Targeted(s: Segment) {
      areas == [] || exists k :: 0 <= k < |areas| && areas[k].0 <= s.addr && s.addr + |s.data| <= areas[k].1
    }

    /** The segments that are loaded, in order. */
    function Loaded(segments: seq<Segment>): seq<Segment> {
      if segments == [] then []
      else
        var last := segments[|segments| - 1];
        if last.load && Targeted(last) then Loaded(segments[..|segments| - 1]) + [last]
        else Loaded(segments[..|segments| - 1])
    }

    /** One segment is loaded if and only if it is loadable and, when there are target areas, lies in one of them. */
    lemma {:induction false} LoadedOne(s: Segment)
      ensures Loaded([s]) == if s.load && (areas == [] || InsideOne(s.addr, s.addr + |s.data|)) then [s] else []
    {
      assert [s][..0] == [];
    }

    ghost predicate InsideOne(from: nat, to: nat) {
      exists k :: 0 <= k < |areas| && areas[k].0 <= from && to <= areas[k].1
    }

    /** Lists of segments are loaded one after the other. */
    lemma {:induction false} LoadedInOrder(s: seq<Segment>, t: seq<Segment>)
      ensures Loaded(s + t) == Loaded(s) + Loaded(t)
      decreases |t|
    {
      if t == [] {
        assert s + t == s;
      } else {
        var n := |t| - 1;
        LoadedInOrder(s, t[..n]);
        assert (s + t)[..|s + t| - 1] == s + t[..n];
      }
    }

    lemma {:induction false} LoadedNext(segments: seq<Segment>, n: nat)
      requires n < |segments|
      ensures Loaded(segments[..n + 1])
           == if segments[n].load && Targeted(segments[n]) then Loaded(segments[..n]) + [segments[n]]
              else Loaded(segments[..n])
    {
      assert segments[..n + 1][..n] == segments[..n];
    }

    /** Loads the program headers of all binaries, one after the other, zero-initialised parts included. */
    method ParseBinaries(segments: seq<Segment>, width: nat)
      requires PowerOf2(width) && forall i :: 0 <= i < |segments| ==> IsBytes(segments[i].data)
      modifies this
      ensures width > 0 && Holds(mem, width, RunsOf(Loaded(segments)))
    {
      MaskAligns(0, width);
      mem := map[];
      for n := 0 to |segments|
        invariant Holds(mem, width, RunsOf(Loaded(segments[..n])))
      {
        LoadedNext(segments, n);
        HandleSegment(segments[n], Loaded(segments[..n]), width);
      }
      assert segments[..|segments|] == segments;
    }

    /** One program header: loaded, or left alone. */
    method HandleSegment(s: Segment, ghost before: seq<Segment>, width: nat)
      requires PowerOf2(width) && IsBytes(s.data) && width > 0 && Holds(mem, width, RunsOf(before))
      modifies this
      ensures Holds(mem, width, RunsOf(if s.load && Targeted(s) then before + [s] else before))
    {
      var load := true;
      if areas != [] {
        load := InAreas(s.addr, |s.data|);
      }
      if s.load && load {
        LoadSegment(s, before, width);
      }
    }

    method InAreas(addr: nat, size: nat) returns (load: bool)
      ensures load <==> exists k :: 0 <= k < |areas| && areas[k].0 <= addr && addr + size <= areas[k].1
    {
      load := false;
      for k := 0 to |areas|
        invariant !load && forall j :: 0 <= j < k ==> !(areas[j].0 <= addr && addr + size <= areas[j].1)
      {
        if addr >= areas[k].0 && addr + size <= areas[k].1 {
          load := true;
          break;
        }
      }
    }

    /** One segment: the bytes from the file, then zeros up to its size in memory. */
    method LoadSegment(s: Segment, ghost before: seq<Segment>, width: nat)
      requires PowerOf2(width) && IsBytes(s.data) && width > 0 && Holds(mem, width, RunsOf(before))
      modifies this
      ensures Holds(mem, width, RunsOf(before + [s]))
    {
      ghost var runs := RunsOf(before);
      RunsOfOneMore(before, s);
      AddRun(s.addr, |s.data|, s.data, width, runs);
      if |s.data| < s.memSize {
        var addr, size := s.addr + |s.data|, s.memSize - |s.data|;
        AddRun(addr, size, Zeros(size), width, runs + [Run(s.addr, s.data)]);
      }
    }

    /** `AddMem`, as one more run of a load. */
    method AddRun(base: nat, size: nat, data: seq<nat>, width: nat, ghost runs: seq<Run>)
      requires PowerOf2(width) && width > 0 && size == |data| && IsBytes(data) && Holds(mem, width, runs)
      modifies this
      ensures Holds(mem, width, runs + [Run(base, data)])
    {
      ghost var was := mem;
      AddMem(base, size, data, width);
      HoldsOneMore(was, mem, width, runs, Run(base, data));
    }
  }

  lemma {:induction false} WordStored(mem: map<nat, nat>, width: nat, base: nat, chunk: seq<nat>, was: nat, value: nat)
    requires width > 0 && IsBytes(chunk) && chunk != [] && base % width + |chunk| <= width
    requires was == WordAt(mem, Aligned(base, width))
    requires value == NewWord(was, base - Aligned(base, width), chunk, width)
    ensures StoredRun(mem, mem[Aligned(base, width) := value], width, Run(base, chunk))
  {
    var w, run := Aligned(base, width), Run(base, chunk);
    forall a: nat ensures ByteOf(mem[w := value], width, a) == AfterRun(ByteOf(mem, width, a), run, width, a) {
      OneWordStored(mem, width, base, chunk, a);
    }
    forall a: nat ensures Touches(run, width, a) <==> a == w {
      AlignedIff(base, base, width);
      AlignedIff(a, base, width);
    }
    if Packed(mem, width) {
      NewWordBound(was, base - w, chunk, width);
    }
  }

  lemma {:induction false} NothingStored(mem: map<nat, nat>, width: nat, base: nat)
    requires width > 0
    ensures StoredRun(mem, mem, width, Run(base, []))
  {
  }

  lemma {:induction false} RunsJoin(was: map<nat, nat>, mid: map<nat, nat>, mem: map<nat, nat>, width: nat, base: nat,
                                    data: seq<nat>, done: nat, more: nat)
    requires width > 0 && done + more <= |data| && more > 0 && (done == 0 || (base + done) % width == 0)
    requires StoredRun(was, mid, width, Run(base, data[..done]))
    requires StoredRun(mid, mem, width, Run(base + done, data[done..done + more]))
    ensures StoredRun(was, mem, width, Run(base, data[..done + more]))
  {
    var whole := Run(base, data[..done + more]);
    forall a: nat ensures ByteOf(mem, width, a) == AfterRun(ByteOf(was, width, a), whole, width, a) {
      RunExtends(ByteOf(was, width, a), base, data, done, more, width, a);
    }
    forall a: nat ensures a in mem <==> a in was || Touches(whole, width, a) {
      TouchesJoin(base, data, done, more, width, a);
    }
  }

  lemma {:induction false} TouchesJoin(base: nat, data: seq<nat>, done: nat, more: nat, width: nat, a: nat)
    requires width > 0 && done + more <= |data| && more > 0 && (done == 0 || (base + done) % width == 0)
    ensures Touches(Run(base, data[..done + more]), width, a)
            <==> Touches(Run(base, data[..done]), width, a)
                 || Touches(Run(base + done, data[done..done + more]), width, a)
  {
    if done > 0 {
      AlignedIff(base + done, base + done, width);
      AlignedMono(base, base + done, width);
    }
  }

  // ---- Segments ----

  /** A program header: loadable or not, where, the bytes in the file, and the size in memory. */
  datatype Segment = Segment(load: bool, addr: nat, data: seq<nat>, memSize: nat)

  function SizeOf(s: Segment): nat { if |s.data| < s.memSize then s.memSize else |s.data| }

  predicate Contains(s: Segment, a: nat) { s.addr <= a < s.addr + SizeOf(s) }

  /** [0] * n */
  function Zeros(n: nat): (z: seq<nat>)
    ensures |z| == n && IsBytes(z) && forall i :: 0 <= i < n ==> z[i] == 0
  {
    seq(n, _ => 0)
  }

  /** The runs of one segment, and of a list of them. */
  function RunsOfOne(s: Segment): seq<Run> {
    [Run(s.addr, s.data)]
    + if |s.data| < s.memSize then [Run(s.addr + |s.data|, Zeros(s.memSize - |s.data|))] else []
  }

  function RunsOf(segments: seq<Segment>): seq<Run> {
    if segments == [] then [] else RunsOf(segments[..|segments| - 1]) + RunsOfOne(segments[|segments| - 1])
  }

  lemma {:induction false} RunsOfOneMore(before: seq<Segment>, s: Segment)
    ensures RunsOf(before + [s]) == RunsOf(before) + RunsOfOne(s)
    ensures |s.data| >= s.memSize ==> RunsOf(before + [s]) == RunsOf(before) + [Run(s.addr, s.data)]
    ensures |s.data| < s.memSize ==>
              RunsOf(before + [s]) == RunsOf(before) + [Run(s.addr, s.data)]
                                      + [Run(s.addr + |s.data|, Zeros(s.memSize - |s.data|))]
  {
    assert (before + [s])[..|before|] == before;
  }
}
