/** The flat binary image: the bytes of a memory of one-byte words, in address order, gaps filled in.
    The keys of that memory are strings, so they come out of the sort in textual order. */
module StimBin {
  import opened Bits
  import opened Sorting
  import opened StimImage
  import opened StimMemory
  import opened TextOrder
  import opened Words

  /** The order of the keys, each being the decimal notation of an address. */
  predicate TextLess(a: nat, b: nat) { StringLess(Decimal(a), Decimal(b)) }

  lemma {:induction false} TextIsOrder()
    ensures StrictOrder(TextLess)
  {
    forall a: nat, b: nat, c: nat
      ensures !TextLess(a, a)
      ensures TextLess(a, b) && TextLess(b, c) ==> TextLess(a, c)
      ensures a == b || TextLess(a, b) || TextLess(b, a)
    {
      StringOrder(Decimal(a), Decimal(b), Decimal(c));
      if Decimal(a) == Decimal(b) {
        DecimalOrder(a, b);
      }
    }
  }

  /** sorted(mem.keys()) */
  ghost predicate SortedKeys(mem: map<nat, nat>, keys: seq<nat>) { Sorted(TextLess, mem.Keys, keys) }

  ghost predicate Ascending(keys: seq<nat>) { forall i, j :: 0 <= i < j < |keys| ==> keys[i] < keys[j] }

  /** prev_addr after n rounds of the gap loop. */
  function CountedUp(prevAddr: int, n: nat): int { prevAddr + n }

  /** The gap loop comes to its end. */
  ghost predicate GapEnds(prevAddr: int, addr: int) { exists n: nat :: CountedUp(prevAddr, n) == addr - 1 }

  /** The emission ends exactly when the keys ascend as numbers. */
  lemma {:induction false} EmissionEndsIff(keys: seq<nat>)
    ensures Ascending(keys) <==> forall i :: 1 <= i < |keys| ==> GapEnds(keys[i - 1], keys[i])
  {
    if forall i :: 1 <= i < |keys| ==> GapEnds(keys[i - 1], keys[i]) {
      forall i, j | 0 <= i < j < |keys| ensures keys[i] < keys[j] {
        Chain(keys, i, j);
      }
    }
    if Ascending(keys) {
      forall i | 1 <= i < |keys| ensures GapEnds(keys[i - 1], keys[i]) {
        assert CountedUp(keys[i - 1], keys[i] - 1 - keys[i - 1]) == keys[i] - 1;
      }
    }
  }

  lemma {:induction false} Chain(keys: seq<nat>, i: nat, j: nat)
    requires i < j < |keys| && forall k :: 1 <= k < |keys| ==> GapEnds(keys[k - 1], keys[k])
    ensures keys[i] < keys[j]
    decreases j - i
  {
    assert GapEnds(keys[j - 1], keys[j]);
    if i < j - 1 {
      Chain(keys, i, j - 1);
    }
  }

  /** Mixed lengths break it: 10 sorts before 9, and the emission never gets from 10 down to 8. */
  lemma {:induction false} MixedDigitsDiverge(mem: map<nat, nat>)
    requires mem.Keys == {9, 10}
    ensures SortedKeys(mem, [10, 9]) && !Ascending([10, 9])
  {
    var keys := [10, 9];
    assert Decimal(10) == [Digit(1), Digit(0)] && Decimal(9) == [Digit(9)];
    assert TextLess(10, 9);
    assert keys[0] > keys[1];
  }

  /** The file holds the bytes of addresses first .. last. */
  ghost predicate Emitted(mem: map<nat, nat>, first: nat, last: int, file: seq<nat>) {
    |file| == last - first + 1 && forall i :: 0 <= i < |file| ==> file[i] == ByteOf(mem, 1, first + i)
  }

  lemma {:induction false} EmitOne(mem: map<nat, nat>, first: nat, last: int, file: seq<nat>, b: nat)
    requires Emitted(mem, first, last, file) && last >= first - 1 && b == ByteOf(mem, 1, last + 1)
    ensures Emitted(mem, first, last + 1, file + [b])
  {
  }

  /** Zeros up to the address below addr. */
  method FillGap(mem: map<nat, nat>, keys: seq<nat>, ghost k: nat, prevAddr: int, addr: nat, file: seq<nat>)
    returns (filled: seq<nat>)
    requires SortedKeys(mem, keys) && Ascending(keys) && 0 < k < |keys| && prevAddr == keys[k - 1] && addr == keys[k]
    requires Emitted(mem, keys[0], prevAddr, file) && prevAddr >= keys[0]
    ensures Emitted(mem, keys[0], addr - 1, filled)
  {
    filled := file;
    var prev := prevAddr;
    while prev != addr - 1
      invariant prevAddr <= prev <= addr - 1 && Emitted(mem, keys[0], prev, filled)
      decreases addr - 1 - prev
    {
      NotAKey(mem, keys, k, prev + 1);
      EmitOne(mem, keys[0], prev, filled, 0);
      filled := filled + [0];
      prev := prev + 1;
    }
  }

  /** The emission: one byte for every address from the first key to the last. */
  method GenStimBin(mem: map<nat, nat>, keys: seq<nat>) returns (file: seq<nat>)
    requires SortedKeys(mem, keys) && Ascending(keys) && forall a :: a in mem ==> mem[a] < 256
    ensures if keys == [] then file == [] else Emitted(mem, keys[0], keys[|keys| - 1], file)
  {
    file := [];
    var prevAddr: int := -1;
    for k := 0 to |keys|
      invariant if k == 0 then file == [] && prevAddr == -1
                else prevAddr == keys[k - 1] >= keys[0] && Emitted(mem, keys[0], prevAddr, file)
    {
      var addr := keys[k];
      if prevAddr != -1 {
        file := FillGap(mem, keys, k, prevAddr, addr, file);
      }
      prevAddr := addr;
      WordIsByte(mem, addr);
      EmitOne(mem, keys[0], (addr as int) - 1, file, mem[addr]);
      file := file + [mem[addr]];
    }
  }

  lemma {:induction false} WordIsByte(mem: map<nat, nat>, a: nat)
    requires a in mem && mem[a] < 256
    ensures ByteOf(mem, 1, a) == mem[a]
  {
    assert a % 1 == 0;
  }

  /** Between two consecutive keys nothing was loaded. */
  lemma {:induction false} NotAKey(mem: map<nat, nat>, keys: seq<nat>, k: nat, a: nat)
    requires SortedKeys(mem, keys) && Ascending(keys) && 0 < k < |keys| && keys[k - 1] < a < keys[k]
    ensures ByteOf(mem, 1, a) == 0
  {
    forall i | 0 <= i < |keys| ensures keys[i] != a {
      assert i < k - 1 ==> keys[i] < keys[k - 1];
      assert i > k ==> keys[k] < keys[i];
    }
    assert a % 1 == 0;
  }

  // ---- From the segments to the file ----

  /** The addresses that the segments claim stand in the same order as texts and as numbers. */
  ghost predicate InTextOrder(segments: seq<Segment>) {
    forall a: nat, b: nat {:trigger TextLess(a, b)} ::
      a < b && Claims(segments, a) > 0 && Claims(segments, b) > 0 ==> TextLess(a, b)
  }

  /** They do when all have equally many digits. */
  lemma {:induction false} SameDigitsInOrder(segments: seq<Segment>, digits: nat)
    requires forall a: nat :: Claims(segments, a) > 0 ==> |Decimal(a)| == digits
    ensures InTextOrder(segments)
  {
    forall a: nat, b: nat | a < b && Claims(segments, a) > 0 && Claims(segments, b) > 0 ensures TextLess(a, b) {
      DecimalOrder(a, b);
    }
  }

  lemma {:induction false} ByteWords(run: Run, a: nat)
    ensures Touches(run, 1, a) <==> Covers(run, a)
  {
    assert a % 1 == 0 && run.base % 1 == 0;
  }

  lemma {:induction false} TouchedIff(runs: seq<Run>, a: nat)
    ensures Touched(runs, 1, a) <==> Covering(runs, a) > 0
  {
    if runs != [] {
      TouchedIff(runs[..|runs| - 1], a);
      ByteWords(runs[|runs| - 1], a);
    }
  }

  /** The keys of a memory of bytes are the addresses that the segments claim. */
  lemma {:induction false} KeysAreClaimed(mem: map<nat, nat>, segments: seq<Segment>)
    requires Holds(mem, 1, RunsOf(segments))
    ensures forall a: nat :: a in mem <==> Claims(segments, a) > 0
    ensures forall a: nat :: a in mem ==> mem[a] < 256
  {
    Pow2Of8();
    forall a: nat ensures a in mem <==> Claims(segments, a) > 0 {
      TouchedIff(RunsOf(segments), a);
      RunsOfSegments(segments, a);
    }
  }

  /** So the gap loops end, see `EmissionEndsIff`, exactly when the claimed addresses are in text order. */
  lemma {:induction false} KeysAscendIff(mem: map<nat, nat>, segments: seq<Segment>, keys: seq<nat>)
    requires SortedKeys(mem, keys) && forall a: nat :: a in mem <==> Claims(segments, a) > 0
    ensures Ascending(keys) <==> InTextOrder(segments)
  {
    TextIsOrder();
    if InTextOrder(segments) {
      forall i, j | 0 <= i < j < |keys| ensures keys[i] < keys[j] {
        var x, y := keys[i], keys[j];
        assert x in keys && y in keys && TextLess(x, y) && !TextLess(x, x) && !TextLess(y, x);
      }
    }
    if Ascending(keys) {
      forall a: nat, b: nat | a < b && Claims(segments, a) > 0 && Claims(segments, b) > 0 ensures TextLess(a, b) {
        assert a in keys && b in keys;
        var i, j :| 0 <= i < |keys| && 0 <= j < |keys| && keys[i] == a && keys[j] == b;
        assert i < j;
      }
    }
  }

  /** The byte that one segment has for address a: from the file, or zero behind that. */
  function OwnByte(s: Segment, a: nat): nat
    requires s.addr <= a
  {
    if a < s.addr + |s.data| then s.data[a - s.addr] else 0
  }

  /** The byte at address a when segments may overlap: each one that claims the address clears the lowest bit, which is
      all that a store into a word of one byte clears, and ors its own byte in. */
  function MergedByte(segments: seq<Segment>, a: nat): nat {
    if segments == [] then 0
    else
      var before, last := MergedByte(segments[..|segments| - 1], a), segments[|segments| - 1];
      if Contains(last, a) then Or(AndNot(before, 1), OwnByte(last, a)) else before
  }

  lemma {:induction false} AfterByteRun(o: nat, run: Run, a: nat)
    ensures AfterRun(o, run, 1, a) == if Covers(run, a) then Or(AndNot(o, 1), run.data[a - run.base]) else o
  {
    assert a % 1 == 0 && Aligned(a, 1) == a;
    assert Reached(run, 1, a) <==> Covers(run, a);
    assert Cleared(o, 0, 1) == AndNot(o, Pow2(1) - 1) == AndNot(o, 1);
  }

  lemma {:induction false} LoadedNextRun(runs: seq<Run>, run: Run, a: nat)
    ensures LoadedByte(runs + [run], 1, a)
            == if Covers(run, a) then Or(AndNot(LoadedByte(runs, 1, a), 1), run.data[a - run.base])
               else LoadedByte(runs, 1, a)
  {
    assert (runs + [run])[..|runs|] == runs;
    AfterByteRun(LoadedByte(runs, 1, a), run, a);
  }

  /** What the runs of the segments leave in memory, segment by segment. */
  lemma {:induction false} MergedIsLoaded(segments: seq<Segment>, a: nat)
    ensures LoadedByte(RunsOf(segments), 1, a) == MergedByte(segments, a)
  {
    if segments != [] {
      var before, s := segments[..|segments| - 1], segments[|segments| - 1];
      MergedIsLoaded(before, a);
      RunsOfOneMore(before, s);
      assert before + [s] == segments;
      var runs, file := RunsOf(before), Run(s.addr, s.data);
      LoadedNextRun(runs, file, a);
      if |s.data| < s.memSize {
        LoadedNextRun(runs + [file], Run(s.addr + |s.data|, Zeros(s.memSize - |s.data|)), a);
      }
    }
  }

  /** Where at most one segment claims the address, its byte is there. */
  lemma {:induction false} MergedOnce(segments: seq<Segment>, a: nat)
    requires Claims(segments, a) <= 1
    ensures MergedByte(segments, a) == SegmentByte(segments, a)
    ensures Claims(segments, a) == 0 ==> MergedByte(segments, a) == 0
  {
    if segments != [] {
      MergedOnce(segments[..|segments| - 1], a);
    }
  }

  /** The file holds one byte for every address from the least to the greatest that the segments claim: the byte that
      they make there together, or zero. */
  ghost predicate IsImage(segments: seq<Segment>, file: seq<nat>, lo: nat, hi: nat) {
    if forall a: nat :: Claims(segments, a) == 0 then file == []
    else
      && Claims(segments, lo) > 0 && Claims(segments, hi) > 0
      && (forall a: nat :: Claims(segments, a) > 0 ==> lo <= a <= hi)
      && |file| == hi - lo + 1 && forall i :: 0 <= i < |file| ==> file[i] == MergedByte(segments, lo + i)
  }

  /** Of segments that do not overlap the file holds the bytes themselves. */
  lemma {:induction false} DisjointFile(segments: seq<Segment>, file: seq<nat>, lo: nat, hi: nat)
    requires IsImage(segments, file, lo, hi) && Disjoint(segments)
    ensures forall i :: 0 <= i < |file| ==> file[i] == SegmentByte(segments, lo + i)
  {
    forall i | 0 <= i < |file| ensures file[i] == SegmentByte(segments, lo + i) {
      MergedOnce(segments, lo + i);
    }
  }

  lemma {:induction false} BytesMerged(mem: map<nat, nat>, segments: seq<Segment>)
    requires Holds(mem, 1, RunsOf(segments))
    ensures forall a: nat :: ByteOf(mem, 1, a) == MergedByte(segments, a)
  {
    forall a: nat ensures ByteOf(mem, 1, a) == MergedByte(segments, a) {
      MergedIsLoaded(segments, a);
    }
  }

  lemma {:induction false} EmittedIsImage(mem: map<nat, nat>, segments: seq<Segment>, keys: seq<nat>, file: seq<nat>)
    requires Sorted(TextLess, mem.Keys, keys) && Ascending(keys) && keys != []
    requires forall a: nat :: a in mem <==> Claims(segments, a) > 0
    requires forall a: nat :: ByteOf(mem, 1, a) == MergedByte(segments, a)
    requires Emitted(mem, keys[0], keys[|keys| - 1], file)
    ensures IsImage(segments, file, keys[0], keys[|keys| - 1])
  {
    var lo, hi := keys[0], keys[|keys| - 1];
    assert lo in keys && hi in keys;
    forall a: nat | Claims(segments, a) > 0 ensures lo <= a <= hi {
      assert a in keys;
      var i :| 0 <= i < |keys| && keys[i] == a;
      assert i > 0 ==> keys[0] < keys[i];
      assert i < |keys| - 1 ==> keys[i] < keys[|keys| - 1];
    }
  }

  /** The whole generator, for segments that overlap or not: load them into bytes, sort the keys, emit. */
  method StimFile(stim: Stim, segments: seq<Segment>) returns (file: seq<nat>, ghost lo: nat, ghost hi: nat)
    requires forall i :: 0 <= i < |segments| ==> IsBytes(segments[i].data)
    requires InTextOrder(stim.Loaded(segments))
    modifies stim
    ensures IsImage(stim.Loaded(segments), file, lo, hi)
  {
    var width := 1;
    assert width == Pow2(0);
    stim.ParseBinaries(segments, width);
    ghost var loaded := stim.Loaded(segments);
    BytesMerged(stim.mem, loaded);
    KeysAreClaimed(stim.mem, loaded);
    TextIsOrder();
    var keys := Sort(stim.mem.Keys, TextLess);
    KeysAscendIff(stim.mem, loaded, keys);
    file := GenStimBin(stim.mem, keys);
    if keys == [] {
      lo, hi := 0, 0;
      assert forall a: nat :: a !in keys;
    } else {
      lo, hi := keys[0], keys[|keys| - 1];
      EmittedIsImage(stim.mem, loaded, keys, file);
    }
  }
}
