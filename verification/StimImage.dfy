/** What a load leaves in memory: when the image is the one that the segments describe, for words of any width. */
module StimImage {
  import opened StimMemory
  import opened Words
  import opened Bits

  // ---- Runs ----

  /** How many runs cover the address. */
  function Covering(runs: seq<Run>, a: nat): nat {
    if runs == [] then 0 else Covering(runs[..|runs| - 1], a) + if Covers(runs[|runs| - 1], a) then 1 else 0
  }

  /** No address is covered twice. */
  ghost predicate Apart(runs: seq<Run>) { forall a: nat :: Covering(runs, a) <= 1 }

  ghost predicate AllBytes(runs: seq<Run>) { forall i :: 0 <= i < |runs| ==> IsBytes(runs[i].data) }

  /** The byte that the last run covering the address holds there; zero if there is none. */
  function ImageByte(runs: seq<Run>, a: nat): nat {
    if runs == [] then 0
    else
      var last := runs[|runs| - 1];
      if Covers(last, a) then last.data[a - last.base] else ImageByte(runs[..|runs| - 1], a)
  }

  lemma {:induction false} NothingCovers(runs: seq<Run>, a: nat)
    requires Covering(runs, a) == 0
    ensures ImageByte(runs, a) == 0
  {
    if runs != [] {
      NothingCovers(runs[..|runs| - 1], a);
    }
  }

  /** The runs put nothing where `run` goes. */
  ghost predicate Untouched(runs: seq<Run>, run: Run) { forall a: nat :: Covers(run, a) ==> ImageByte(runs, a) == 0 }

  lemma {:induction false} ApartInit(runs: seq<Run>)
    requires Apart(runs) && runs != []
    ensures Apart(runs[..|runs| - 1])
    ensures Untouched(runs[..|runs| - 1], runs[|runs| - 1])
  {
    var init := runs[..|runs| - 1];
    forall a: nat ensures Covering(init, a) <= 1 {
      assert Covering(runs, a) <= 1;
    }
    forall a: nat | Covers(runs[|runs| - 1], a) ensures ImageByte(init, a) == 0 {
      assert Covering(runs, a) <= 1;
      NothingCovers(init, a);
    }
  }

  /** Address a stands behind the run, in the word in which it ends. */
  predicate Behind(run: Run, width: nat, a: nat)
    requires width > 0
  {
    Reached(run, width, a) && !Covers(run, a)
  }

  /** The run leaves the byte v behind its end as it is. */
  predicate Spares(run: Run, width: nat, a: nat, v: nat)
    requires width > 0
  {
    Behind(run, width, a) ==> Cleared(v, a - From(run, width, a), width) == v
  }

  /** Run number n leaves what the ones before it have loaded. */
  ghost predicate SparesAll(runs: seq<Run>, width: nat, n: nat)
    requires width > 0 && n < |runs|
  {
    forall a: nat :: Spares(runs[n], width, a, ImageByte(runs[..n], a))
  }

  /** No run clears bits of a byte that an earlier one has loaded. */
  ghost predicate Harmless(runs: seq<Run>, width: nat)
    requires width > 0
  {
    forall n :: 0 <= n < |runs| ==> SparesAll(runs, width, n)
  }

  /** What the last run makes of what the others have left. */
  lemma {:induction false} LastRun(runs: seq<Run>, width: nat, a: nat)
    requires runs != [] && Apart(runs) && width > 0
    requires LoadedByte(runs[..|runs| - 1], width, a) <= ImageByte(runs[..|runs| - 1], a)
    ensures var last, o := runs[|runs| - 1], LoadedByte(runs[..|runs| - 1], width, a);
            LoadedByte(runs, width, a)
            == if Covers(last, a) then ImageByte(runs, a)
               else if Behind(last, width, a) then Cleared(o, a - From(last, width, a), width) else o
  {
    ApartInit(runs);
    var last := runs[|runs| - 1];
    if Covers(last, a) {
      CoveredIsReached(last, width, a);
      ClearedBound(0, a - From(last, width, a), width);
    }
  }

  lemma {:induction false} CoveredIsReached(run: Run, width: nat, a: nat)
    requires width > 0 && Covers(run, a)
    ensures Reached(run, width, a)
  {
  }

  /** A load can only lose bits. */
  lemma {:induction false} AtMostImage(runs: seq<Run>, width: nat, a: nat)
    requires Apart(runs) && width > 0
    ensures LoadedByte(runs, width, a) <= ImageByte(runs, a)
  {
    if runs != [] {
      var init, last := runs[..|runs| - 1], runs[|runs| - 1];
      ApartInit(runs);
      AtMostImage(init, width, a);
      LastRun(runs, width, a);
      if Behind(last, width, a) {
        ClearedBound(LoadedByte(init, width, a), a - From(last, width, a), width);
      }
    }
  }

  /** What is lost stays lost. */
  lemma {:induction false} LossStays(runs: seq<Run>, width: nat, a: nat)
    requires Apart(runs) && runs != [] && width > 0
    requires LoadedByte(runs[..|runs| - 1], width, a) != ImageByte(runs[..|runs| - 1], a)
    ensures LoadedByte(runs, width, a) != ImageByte(runs, a)
  {
    var init, last := runs[..|runs| - 1], runs[|runs| - 1];
    ApartInit(runs);
    AtMostImage(init, width, a);
    LastRun(runs, width, a);
    if Behind(last, width, a) {
      ClearedBound(LoadedByte(init, width, a), a - From(last, width, a), width);
    }
  }

  lemma {:induction false} SparesAllInit(runs: seq<Run>, width: nat, k: nat)
    requires k < |runs| - 1 && width > 0
    ensures SparesAll(runs[..|runs| - 1], width, k) <==> SparesAll(runs, width, k)
  {
    var init := runs[..|runs| - 1];
    assert init[..k] == runs[..k] && init[k] == runs[k];
  }

  lemma {:induction false} HarmlessInit(runs: seq<Run>, width: nat)
    requires runs != [] && width > 0
    ensures Harmless(runs, width) <==> Harmless(runs[..|runs| - 1], width) && SparesAll(runs, width, |runs| - 1)
  {
    var init := runs[..|runs| - 1];
    forall k | 0 <= k < |init| ensures SparesAll(init, width, k) <==> SparesAll(runs, width, k) {
      SparesAllInit(runs, width, k);
    }
  }

  /** The memory is the image of the runs. */
  ghost predicate Keeps(runs: seq<Run>, width: nat)
    requires width > 0
  {
    forall a: nat :: LoadedByte(runs, width, a) == ImageByte(runs, a)
  }

  /** For runs that do not overlap, every byte is kept exactly when no run ends in a word in which it clears bits of a
      byte loaded before. */
  lemma {:induction false} KeepsIff(runs: seq<Run>, width: nat)
    requires Apart(runs) && width > 0
    ensures Keeps(runs, width) <==> Harmless(runs, width)
  {
    if runs != [] {
      var n := |runs| - 1;
      var init, last := runs[..n], runs[n];
      ApartInit(runs);
      HarmlessInit(runs, width);
      KeepsIff(init, width);
      if Keeps(init, width) {
        forall a: nat
          ensures LoadedByte(runs, width, a) == ImageByte(runs, a) <==> Spares(last, width, a, ImageByte(init, a))
        {
          AtMostImage(init, width, a);
          LastRun(runs, width, a);
        }
      } else {
        var a: nat :| LoadedByte(init, width, a) != ImageByte(init, a);
        LossStays(runs, width, a);
      }
    }
  }

  // ---- Which widths are safe ----

  /** Words of up to eight bytes: a store clears no more than its first byte, so nothing is ever lost. */
  lemma {:induction false} NarrowIsHarmless(runs: seq<Run>, width: nat)
    requires 0 < width <= 8
    ensures Harmless(runs, width)
  {
  }

  /** With words of 8m bytes, m bytes are cleared in full. */
  lemma {:induction false} WideClears(v: nat, j: nat, m: nat)
    requires v < 256
    ensures Cleared(v, j, 8 * m) == if j < m then 0 else v
  {
    if j < m {
      var n := 8;
      Pow2Of8();
      Pow2Mono(8, 8 * m - 8 * j);
      var c := Cleared(v, j, 8 * m);
      forall b | 0 <= b < n ensures Bit(c, b) <==> Bit(0, b) {
        ClearedBit(v, j, 8 * m, b);
        BitZero(b);
      }
      ClearedBound(v, j, 8 * m);
      SameBits(c, 0, n);
    }
  }

  lemma {:induction false} ImageIsByte(runs: seq<Run>, a: nat)
    requires AllBytes(runs)
    ensures ImageByte(runs, a) < 256
  {
    if runs != [] {
      ImageIsByte(runs[..|runs| - 1], a);
    }
  }

  /** Within m bytes from where run n begins in the word in which it ends, the runs before it put nothing behind it. */
  ghost predicate ZeroBehind(runs: seq<Run>, m: nat, n: nat)
    requires m > 0 && n < |runs|
  {
    forall a: nat :: Behind(runs[n], 8 * m, a) && a - From(runs[n], 8 * m, a) < m ==> ImageByte(runs[..n], a) == 0
  }

  lemma {:induction false} SparesAllWide(runs: seq<Run>, m: nat, n: nat)
    requires AllBytes(runs) && m > 0 && n < |runs|
    ensures SparesAll(runs, 8 * m, n) <==> ZeroBehind(runs, m, n)
  {
    var run, before, width := runs[n], runs[..n], 8 * m;
    forall a: nat
      ensures Spares(run, width, a, ImageByte(before, a))
              <==> (Behind(run, width, a) && a - From(run, width, a) < m ==> ImageByte(before, a) == 0)
    {
      ImageIsByte(before, a);
      if Behind(run, width, a) {
        WideClears(ImageByte(before, a), a - From(run, width, a), m);
      }
    }
  }

  /** For words of 8m bytes: every byte is kept exactly when no run ends in a word that holds a non-zero byte, loaded
      before, within the m bytes that the run clears there. */
  lemma {:induction false} WideKeepsIff(runs: seq<Run>, m: nat)
    requires Apart(runs) && AllBytes(runs) && m > 0
    ensures Keeps(runs, 8 * m) <==> forall n :: 0 <= n < |runs| ==> ZeroBehind(runs, m, n)
  {
    KeepsIff(runs, 8 * m);
    forall n | 0 <= n < |runs| ensures SparesAll(runs, 8 * m, n) <==> ZeroBehind(runs, m, n) {
      SparesAllWide(runs, m, n);
    }
  }

  /** At width 16 a byte can be lost: the byte at address 1, when a later run ends at address 0. */
  lemma {:induction false} WideLoadLoses(runs: seq<Run>, width: nat, d: nat, e: nat)
    requires runs == [Run(1, [d]), Run(0, [e])] && width == 16 && 0 < d < 256 && e < 256
    ensures Apart(runs) && AllBytes(runs)
    ensures LoadedByte(runs, width, 1) == 0 && ImageByte(runs, 1) == d
  {
    var first, second, a := runs[0], runs[1], 1;
    assert runs[..1] == [first] && [first][..0] == [];
    forall x: nat ensures Covering(runs, x) <= 1 {
      assert Covering([first], x) == Covering([], x) + if Covers(first, x) then 1 else 0;
    }
    assert ImageByte([first], a) == d;
    assert Reached(first, width, a) && Reached(second, width, a);
    assert From(first, width, a) == 1 && From(second, width, a) == 0;
    assert LoadedByte([first], width, a) == AfterRun(LoadedByte([], width, a), first, width, a);
    ClearedBound(0, 0, width);
    assert LoadedByte([first], width, a) == d;
    WideClears(d, 1, 2);
    assert LoadedByte(runs, width, a) == Stored(d, 1, 0, width);
  }

  // ---- Segments ----

  /** How many segments claim the address. */
  function Claims(segments: seq<Segment>, a: nat): nat {
    if segments == [] then 0
    else Claims(segments[..|segments| - 1], a) + if Contains(segments[|segments| - 1], a) then 1 else 0
  }

  /** The segments do not overlap, their zero-initialised parts included. */
  ghost predicate Disjoint(segments: seq<Segment>) { forall a: nat :: Claims(segments, a) <= 1 }

  /** The byte that the segments put at address a: from the file, or zero behind that. */
  function SegmentByte(segments: seq<Segment>, a: nat): nat {
    if segments == [] then 0
    else
      var last := segments[|segments| - 1];
      if Contains(last, a) then (if a < last.addr + |last.data| then last.data[a - last.addr] else 0)
      else SegmentByte(segments[..|segments| - 1], a)
  }

  /** One segment claims its bytes in the file and, where the memory is larger, zeros behind them; nothing else. */
  lemma {:induction false} OneSegment(s: Segment, a: nat)
    ensures s.addr <= a < s.addr + |s.data| ==> Claims([s], a) == 1 && SegmentByte([s], a) == s.data[a - s.addr]
    ensures s.addr + |s.data| <= a < s.addr + s.memSize ==> Claims([s], a) == 1 && SegmentByte([s], a) == 0
    ensures a < s.addr || (s.addr + |s.data| <= a && s.addr + s.memSize <= a) ==> Claims([s], a) == 0
  {
    assert [s][..0] == [];
  }

  /** The runs of the segments say the same as the segments. */
  lemma {:induction false} RunsOfSegments(segments: seq<Segment>, a: nat)
    ensures Covering(RunsOf(segments), a) == Claims(segments, a)
    ensures ImageByte(RunsOf(segments), a) == SegmentByte(segments, a)
  {
    if segments != [] {
      var before, s := segments[..|segments| - 1], segments[|segments| - 1];
      var runs, file := RunsOf(before), Run(s.addr, s.data);
      RunsOfSegments(before, a);
      RunsOfOneMore(before, s);
      assert before + [s] == segments;
      assert (runs + [file])[..|runs|] == runs;
      if |s.data| < s.memSize {
        var zero := Run(s.addr + |s.data|, Zeros(s.memSize - |s.data|));
        assert (runs + [file] + [zero])[..|runs| + 1] == runs + [file];
      }
    }
  }

  /** Of segments that do not overlap every byte is in memory exactly when no run of theirs does harm. */
  lemma {:induction false} LoadIff(mem: map<nat, nat>, width: nat, segments: seq<Segment>)
    requires width > 0 && Holds(mem, width, RunsOf(segments)) && Disjoint(segments)
    ensures (forall a: nat :: ByteOf(mem, width, a) == SegmentByte(segments, a)) <==> Harmless(RunsOf(segments), width)
  {
    var runs := RunsOf(segments);
    forall a: nat ensures Covering(runs, a) <= 1 && ImageByte(runs, a) == SegmentByte(segments, a) {
      RunsOfSegments(segments, a);
    }
    KeepsIff(runs, width);
    if Keeps(runs, width) {
      forall a: nat ensures ByteOf(mem, width, a) == SegmentByte(segments, a) {
      }
    }
    if forall a: nat :: ByteOf(mem, width, a) == SegmentByte(segments, a) {
      forall a: nat ensures LoadedByte(runs, width, a) == ImageByte(runs, a) {
        assert ByteOf(mem, width, a) == SegmentByte(segments, a);
      }
    }
  }

  /** With words of up to eight bytes the memory is what the segments say, and so the same for all such widths. */
  lemma {:induction false} NarrowImage(mem: map<nat, nat>, width: nat, segments: seq<Segment>)
    requires 0 < width <= 8 && Holds(mem, width, RunsOf(segments)) && Disjoint(segments)
    ensures forall a: nat :: ByteOf(mem, width, a) == SegmentByte(segments, a)
  {
    NarrowIsHarmless(RunsOf(segments), width);
    LoadIff(mem, width, segments);
  }
}
