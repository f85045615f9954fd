/** The register pictures of the documentation generator: a register is cut into slices, and each
    slice is drawn as boxes of so many bits, one for a bit field or grey for reserved bits. */
module BitBox {

  datatype Field = Field(name: string, position: int, size: int)

  /** What a box shows: grey, or the name of a bit field, shrunk when the field is small. */
  datatype Label = Reserved | Tiny(name: string) | Resized(name: string) | Plain(name: string)

  datatype Box = Box(width: int, show: Label)

  /** The bits that are left for the next slice and the boxes drawn, or an input error. */
  datatype Result = Done(remaining: seq<Field>, boxes: seq<Box>) | OutOfRange(at: Field)

  function LabelOf(f: Field, downsize: bool): Label {
    if downsize && f.size <= 2 && |f.name| <= 3 then Tiny(f.name)
    else if downsize && f.size <= 2 then Resized(f.name)
    else Plain(f.name)
  }

  function Max(a: int, b: int): int { if a >= b then a else b }

  function Min(a: int, b: int): int { if a <= b then a else b }

  // ---- Specification, bit by bit ----

  /** The label over bit b: that of the first field that covers it, or grey. */
  function Over(fields: seq<Field>, b: int, downsize: bool): Label {
    if fields == [] then Reserved
    else if fields[0].position <= b < fields[0].position + fields[0].size then LabelOf(fields[0], downsize)
    else Over(fields[1..], b, downsize)
  }

  /** Bits from - 1, ..., to, high to low. */
  function Bits(fields: seq<Field>, from: int, to: int, downsize: bool): seq<Label>
    decreases from - to
  {
    if from <= to then [] else [Over(fields, from - 1, downsize)] + Bits(fields, from - 1, to, downsize)
  }

  function Copies(n: int, t: Label): seq<Label> { if n <= 0 then [] else [t] + Copies(n - 1, t) }

  /** Boxes drawn out bit by bit. */
  function Expand(boxes: seq<Box>): seq<Label> {
    if boxes == [] then [] else Expand(boxes[..|boxes| - 1]) + Copies(boxes[|boxes| - 1].width, boxes[|boxes| - 1].show)
  }

  /** Fields of at least one bit, highest first, without overlap, from bit 0 on. The first field of a
      slice may stick out at its top, where the slice before has drawn it already. */
  ghost predicate Sorted(fields: seq<Field>) {
    fields == []
    || (0 <= fields[0].position && 1 <= fields[0].size && Sorted(fields[1..])
        && (|fields| > 1 ==> fields[1].position + fields[1].size <= fields[0].position))
  }

  /** The same, with all fields below bit `top`. */
  ghost predicate Descending(fields: seq<Field>, top: int) {
    Sorted(fields) && (fields == [] || fields[0].position + fields[0].size <= top)
  }

  /** The fields with a bit below `stop`. */
  function Below(fields: seq<Field>, stop: int): seq<Field> {
    if fields == [] then []
    else
      var last := fields[|fields| - 1];
      if last.position < stop then Below(fields[..|fields| - 1], stop) + [last]
      else Below(fields[..|fields| - 1], stop)
  }

  lemma {:induction false} BitsSplit(fields: seq<Field>, from: int, mid: int, to: int, downsize: bool)
    requires from >= mid >= to
    ensures Bits(fields, from, to, downsize) == Bits(fields, from, mid, downsize) + Bits(fields, mid, to, downsize)
    decreases from - mid
  {
    if from > mid {
      BitsSplit(fields, from - 1, mid, to, downsize);
      var first := [Over(fields, from - 1, downsize)];
      assert first + (Bits(fields, from - 1, mid, downsize) + Bits(fields, mid, to, downsize))
          == (first + Bits(fields, from - 1, mid, downsize)) + Bits(fields, mid, to, downsize);
    }
  }

  lemma {:induction false} BitsConstant(fields: seq<Field>, from: int, to: int, t: Label, downsize: bool)
    requires forall b :: to <= b < from ==> Over(fields, b, downsize) == t
    ensures Bits(fields, from, to, downsize) == Copies(from - to, t)
    decreases from - to
  {
    if from > to {
      BitsConstant(fields, from - 1, to, t, downsize);
    }
  }

  /** Drawing one more box is right when all its bits carry its label. */
  lemma {:induction false} OneMoreBox(fields: seq<Field>, boxes: seq<Box>, start: int, from: int, to: int, t: Label,
                                      downsize: bool)
    requires start >= from >= to && Expand(boxes) == Bits(fields, start, from, downsize)
    requires forall b :: to <= b < from ==> Over(fields, b, downsize) == t
    ensures Expand(boxes + [Box(from - to, t)]) == Bits(fields, start, to, downsize)
  {
    var more := boxes + [Box(from - to, t)];
    assert more[..|more| - 1] == boxes;
    BitsConstant(fields, from, to, t, downsize);
    BitsSplit(fields, start, from, to, downsize);
  }

  lemma {:induction false} NothingAbove(fields: seq<Field>, top: int, b: int, downsize: bool)
    requires Descending(fields, top) && b >= top
    ensures Over(fields, b, downsize) == Reserved
    decreases fields
  {
    if fields != [] {
      NothingAbove(fields[1..], fields[0].position, b, downsize);
    }
  }

  lemma {:induction false} DescendingWider(fields: seq<Field>, top: int, top': int)
    requires Descending(fields, top) && top <= top'
    ensures Descending(fields, top')
  {
  }

  /** How far the drawing has come when the fields before position n have been treated. */
  ghost predicate Drawn(fields: seq<Field>, n: nat, start: int, stop: int, index: int, boxes: seq<Box>, downsize: bool)
    requires n <= |fields|
  {
    && index <= start && stop <= start
    && (if n == 0 then index == start && Sorted(fields) else Descending(fields[n..], index))
    && Expand(boxes) == Bits(fields, start, Max(index, stop), downsize)
    && forall b :: stop <= b < index ==> Over(fields, b, downsize) == Over(fields[n..], b, downsize)
  }

  /** What the next field does to the labels over the bits that are still to be drawn. */
  lemma {:induction false} NextField(fields: seq<Field>, n: nat, start: int, stop: int, index: int, boxes: seq<Box>,
                                     downsize: bool)
    requires n < |fields| && Drawn(fields, n, start, stop, index, boxes, downsize)
    ensures var f := fields[n];
            && (n > 0 ==> f.position + f.size <= index) && f.size >= 1
            && Descending(fields[n + 1..], f.position)
            && (forall b :: stop <= b < index && b >= f.position + f.size ==> Over(fields, b, downsize) == Reserved)
            && (forall b :: stop <= b < index && f.position <= b < f.position + f.size ==>
                  Over(fields, b, downsize) == LabelOf(f, downsize))
            && (forall b :: stop <= b < index && b < f.position ==>
                  Over(fields, b, downsize) == Over(fields[n + 1..], b, downsize))
  {
    var f, rest := fields[n], fields[n..];
    assert rest[1..] == fields[n + 1..];
    assert n == 0 ==> rest == fields;
    forall b | stop <= b < index && b >= f.position + f.size ensures Over(fields, b, downsize) == Reserved {
      NothingAbove(rest[1..], f.position, b, downsize);
    }
  }

  function Gap(index: int, top: int): seq<Box> { if top < index then [Box(index - top, Reserved)] else [] }

  /** The boxes that a field adds when drawing has come down to bit `index`. */
  function Added(f: Field, stop: int, index: int, downsize: bool): seq<Box> {
    var top := Min(f.position + f.size, index);
    if top <= stop then []
    else Gap(index, top) + [Box(top - Max(f.position, stop), LabelOf(f, downsize))]
  }

  function Lowered(f: Field, stop: int, index: int): int {
    if Min(f.position + f.size, index) <= stop then index else f.position
  }

  /** The grey box above a field, and the box of the field. */
  lemma {:induction false} BothDrawn(fields: seq<Field>, start: int, index: int, top: int, bottom: int, boxes: seq<Box>,
                                     shown: Label, downsize: bool)
    requires start >= index >= top >= bottom && Expand(boxes) == Bits(fields, start, index, downsize)
    requires forall b :: top <= b < index ==> Over(fields, b, downsize) == Reserved
    requires forall b :: bottom <= b < top ==> Over(fields, b, downsize) == shown
    ensures Expand(boxes + (Gap(index, top) + [Box(top - bottom, shown)])) == Bits(fields, start, bottom, downsize)
  {
    GapDrawn(fields, start, index, top, boxes, downsize);
    var grey := boxes + Gap(index, top);
    OneMoreBox(fields, grey, start, top, bottom, shown, downsize);
    assert boxes + (Gap(index, top) + [Box(top - bottom, shown)]) == grey + [Box(top - bottom, shown)];
  }

  lemma {:induction false} NextBoxes(fields: seq<Field>, n: nat, start: int, stop: int, index: int, boxes: seq<Box>,
                                     downsize: bool)
    requires n < |fields| && Drawn(fields, n, start, stop, index, boxes, downsize) && fields[n].position <= index
    ensures Expand(boxes + Added(fields[n], stop, index, downsize))
            == Bits(fields, start, Max(Lowered(fields[n], stop, index), stop), downsize)
  {
    var f := fields[n];
    var top := Min(f.position + f.size, index);
    if top > stop {
      NextField(fields, n, start, stop, index, boxes, downsize);
      BothDrawn(fields, start, index, top, Max(f.position, stop), boxes, LabelOf(f, downsize), downsize);
    } else {
      assert boxes + [] == boxes;
    }
  }

  lemma {:induction false} GapDrawn(fields: seq<Field>, start: int, index: int, top: int, boxes: seq<Box>,
                                    downsize: bool)
    requires start >= index >= top && Expand(boxes) == Bits(fields, start, index, downsize)
    requires forall b :: top <= b < index ==> Over(fields, b, downsize) == Reserved
    ensures Expand(boxes + Gap(index, top)) == Bits(fields, start, top, downsize)
  {
    if top < index {
      OneMoreBox(fields, boxes, start, index, top, Reserved, downsize);
    } else {
      assert boxes + [] == boxes;
    }
  }

  lemma {:induction false} DrawnNext(fields: seq<Field>, n: nat, start: int, stop: int, index: int, boxes: seq<Box>,
                                     downsize: bool)
    requires n < |fields| && Drawn(fields, n, start, stop, index, boxes, downsize) && fields[n].position <= index
    ensures Drawn(fields, n + 1, start, stop, Lowered(fields[n], stop, index),
                  boxes + Added(fields[n], stop, index, downsize), downsize)
  {
    NextBoxes(fields, n, start, stop, index, boxes, downsize);
    NextField(fields, n, start, stop, index, boxes, downsize);
    DescendingWider(fields[n + 1..], fields[n].position, index);
  }

  ghost predicate Positive(boxes: seq<Box>) { forall i :: 0 <= i < |boxes| ==> boxes[i].width >= 1 }

  /** A box of width zero comes from a field that begins where the drawing stands. */
  lemma {:induction false} AddedPositive(boxes: seq<Box>, f: Field, stop: int, index: int, downsize: bool)
    requires f.position <= index && f.size >= 1
    ensures Positive(boxes + Added(f, stop, index, downsize))
            <==> Positive(boxes) && !(f.position == index && index > stop)
  {
    var added := Added(f, stop, index, downsize);
    var all := boxes + added;
    assert forall i :: 0 <= i < |boxes| ==> all[i] == boxes[i];
    assert forall i :: 0 <= i < |added| ==> all[|boxes| + i] == added[i];
    if f.position == index && index > stop {
      assert added[0].width == 0;
    }
  }

  /** How many boxes show a field. */
  function Shown(boxes: seq<Box>): nat {
    if boxes == [] then 0 else Shown(boxes[..|boxes| - 1]) + if boxes[|boxes| - 1].show == Reserved then 0 else 1
  }

  /** How many fields begin at the start of the slice or below, and end above its last bit. */
  function Reaching(fields: seq<Field>, start: int, stop: int): nat {
    if fields == [] then 0
    else
      var last := fields[|fields| - 1];
      Reaching(fields[..|fields| - 1], start, stop)
      + if stop < start && last.position <= start && last.position + last.size > stop then 1 else 0
  }

  /** No grey box follows another. */
  ghost predicate GapsJoined(boxes: seq<Box>) {
    forall i :: 0 < i < |boxes| ==> !(boxes[i - 1].show == Reserved && boxes[i].show == Reserved)
  }

  ghost predicate EndsInField(boxes: seq<Box>) { boxes == [] || boxes[|boxes| - 1].show != Reserved }

  lemma {:induction false} ShownMore(boxes: seq<Box>, b: Box)
    ensures Shown(boxes + [b]) == Shown(boxes) + if b.show == Reserved then 0 else 1
    ensures GapsJoined(boxes) && (b.show != Reserved || EndsInField(boxes)) ==> GapsJoined(boxes + [b])
  {
    assert (boxes + [b])[..|boxes|] == boxes;
  }

  /** The boxes so far, of which k show a field. */
  ghost predicate Tidy(boxes: seq<Box>, k: nat) { GapsJoined(boxes) && EndsInField(boxes) && Shown(boxes) == k }

  lemma {:induction false} TidyMore(boxes: seq<Box>, k: nat, own: Box)
    requires Tidy(boxes, k) && own.show != Reserved
    ensures Tidy(boxes + [own], k + 1)
  {
    ShownMore(boxes, own);
  }

  lemma {:induction false} TidyGap(boxes: seq<Box>, k: nat, gap: Box, own: Box)
    requires Tidy(boxes, k) && gap.show == Reserved && own.show != Reserved
    ensures Tidy(boxes + [gap] + [own], k + 1)
  {
    ShownMore(boxes, gap);
    ShownMore(boxes + [gap], own);
  }

  /** A field that reaches into the slice adds one box of its own, and at most one grey box before it. */
  lemma {:induction false} AddedOnce(boxes: seq<Box>, k: nat, f: Field, stop: int, index: int, downsize: bool)
    requires Tidy(boxes, k)
    ensures Tidy(boxes + Added(f, stop, index, downsize), k + if Min(f.position + f.size, index) > stop then 1 else 0)
  {
    var top := Min(f.position + f.size, index);
    if top <= stop {
      assert boxes + [] == boxes;
    } else {
      var own := Box(top - Max(f.position, stop), LabelOf(f, downsize));
      if top < index {
        var gap := Box(index - top, Reserved);
        TidyGap(boxes, k, gap, own);
        assert boxes + ([gap] + [own]) == boxes + [gap] + [own];
      } else {
        TidyMore(boxes, k, own);
        assert boxes + ([] + [own]) == boxes + [own];
      }
    }
  }

  lemma {:induction false} ReachingNext(fields: seq<Field>, n: nat, start: int, stop: int)
    requires n < |fields|
    ensures Reaching(fields[..n + 1], start, stop)
            == Reaching(fields[..n], start, stop)
               + if stop < start && fields[n].position <= start && fields[n].position + fields[n].size > stop then 1
                 else 0
  {
    assert fields[..n + 1][..n] == fields[..n];
  }

  /** Every field that reaches into the slice has one box, and every stretch of grey bits has one. */
  ghost predicate OneBoxEach(boxes: seq<Box>, fields: seq<Field>, start: int, stop: int) {
    GapsJoined(boxes) && Shown(boxes) == Reaching(fields, start, stop)
  }

  /** Where the drawing stands when the first n fields have been treated. */
  ghost predicate Progress(fields: seq<Field>, n: nat, start: int, stop: int, index: int, boxes: seq<Box>,
                           remaining: seq<Field>, downsize: bool)
    requires n <= |fields|
  {
    && (n > 0 ==> fields[0].position <= start)
    && Drawn(fields, n, start, stop, index, boxes, downsize)
    && remaining == Below(fields[..n], stop)
    && (Positive(boxes) <==> n == 0 || start == stop || fields[0].position != start)
    && Tidy(boxes, Reaching(fields[..n], start, stop))
  }

  lemma {:induction false} ProgressNext(fields: seq<Field>, n: nat, start: int, stop: int, index: int, boxes: seq<Box>,
                                        remaining: seq<Field>, downsize: bool)
    requires n < |fields| && Progress(fields, n, start, stop, index, boxes, remaining, downsize)
    requires fields[n].position <= index
    ensures var f := fields[n];
            && f.size >= 1 && index <= start && (f.position + f.size > index ==> index == start)
            && Progress(fields, n + 1, start, stop, Lowered(f, stop, index), boxes + Added(f, stop, index, downsize),
                        if f.position < stop then remaining + [f] else remaining, downsize)
  {
    var f := fields[n];
    DrawnNext(fields, n, start, stop, index, boxes, downsize);
    NextField(fields, n, start, stop, index, boxes, downsize);
    AddedOnce(boxes, Reaching(fields[..n], start, stop), f, stop, index, downsize);
    ReachingNext(fields, n, start, stop);
    AddedPositive(boxes, f, stop, index, downsize);
    assert fields[..n + 1][..n] == fields[..n];
  }

  lemma {:induction false} ProgressBegin(fields: seq<Field>, start: int, stop: int, downsize: bool)
    requires Sorted(fields) && stop <= start
    ensures Progress(fields, 0, start, stop, start, [], [], downsize)
  {
    assert fields[0..] == fields && fields[..0] == [];
  }

  /** The rest of the slice is grey. */
  lemma {:induction false} ProgressEnd(fields: seq<Field>, start: int, stop: int, index: int, boxes: seq<Box>,
                                       remaining: seq<Field>, downsize: bool)
    requires Progress(fields, |fields|, start, stop, index, boxes, remaining, downsize)
    ensures var all := if index > stop then boxes + [Box(index - stop, Reserved)] else boxes;
            && remaining == Below(fields, stop)
            && Expand(all) == Bits(fields, start, stop, downsize) && OneBoxEach(all, fields, start, stop)
            && (Positive(all) <==> start == stop || fields == [] || fields[0].position != start)
  {
    assert fields[..|fields|] == fields;
    if index > stop {
      OneMoreBox(fields, boxes, start, index, stop, Reserved, downsize);
      ShownMore(boxes, Box(index - stop, Reserved));
      assert (boxes + [Box(index - stop, Reserved)])[..|boxes|] == boxes;
    }
  }

  /** Cuts bits start - 1 .. start - length out of a register. The fields it cannot finish are handed
      back for the next slice. */
  method WriteBitbox(fields: seq<Field>, start: int, length: nat, downsize: bool) returns (r: Result)
    requires Sorted(fields)
    ensures r.OutOfRange? <==> fields != [] && fields[0].position > start
    ensures r.Done? ==> r.remaining == Below(fields, start - length)
    ensures r.Done? ==> Expand(r.boxes) == Bits(fields, start, start - length, downsize)
    ensures r.Done? ==> OneBoxEach(r.boxes, fields, start, start - length)
    ensures r.Done? ==> (Positive(r.boxes) <==> length == 0 || fields == [] || fields[0].position != start)
  {
    var boxes: seq<Box> := [];
    var remaining: seq<Field> := [];
    var index := start;
    var stop := start - length;
    ProgressBegin(fields, start, stop, downsize);
    for n := 0 to |fields|
      invariant Progress(fields, n, start, stop, index, boxes, remaining, downsize)
    {
      if fields[n].position > index {
        NotBehind(fields, n, start, stop, index, boxes, remaining, downsize);
        return OutOfRange(fields[n]);
      }
      index, boxes, remaining := NextBitfield(fields, n, start, stop, index, boxes, remaining, downsize);
    }
    ProgressEnd(fields, start, stop, index, boxes, remaining, downsize);
    if index > stop {
      boxes := boxes + [Box(index - stop, Reserved)];
    }
    r := Done(remaining, boxes);
  }

  /** Draws one field, and keeps it for the next slice if it is not finished. */
  method NextBitfield(fields: seq<Field>, n: nat, start: int, stop: int, index: int, boxes: seq<Box>,
                      remaining: seq<Field>, downsize: bool)
    returns (index': int, boxes': seq<Box>, remaining': seq<Field>)
    requires n < |fields| && Progress(fields, n, start, stop, index, boxes, remaining, downsize)
    requires fields[n].position <= index
    ensures Progress(fields, n + 1, start, stop, index', boxes', remaining', downsize)
  {
    var bf := fields[n];
    ProgressNext(fields, n, start, stop, index, boxes, remaining, downsize);
    index', boxes' := DrawField(bf, start, stop, index, boxes, downsize);
    remaining' := remaining;
    if bf.position < stop {
      remaining' := remaining' + [bf];
    }
  }

  /** Only the first field can lie above the drawing. */
  lemma {:induction false} NotBehind(fields: seq<Field>, n: nat, start: int, stop: int, index: int, boxes: seq<Box>,
                                     remaining: seq<Field>, downsize: bool)
    requires n < |fields| && Progress(fields, n, start, stop, index, boxes, remaining, downsize)
    requires fields[n].position > index
    ensures n == 0 && fields[0].position > start
  {
    NextField(fields, n, start, stop, index, boxes, downsize);
  }

  /** Draws one field, and the gap above it. */
  method DrawField(bf: Field, start: int, stop: int, index: int, boxes: seq<Box>, downsize: bool)
    returns (index': int, boxes': seq<Box>)
    requires bf.position <= index <= start && bf.size >= 1 && (bf.position + bf.size > index ==> index == start)
    ensures index' == Lowered(bf, stop, index) && boxes' == boxes + Added(bf, stop, index, downsize)
    ensures Positive(boxes') <==> Positive(boxes) && !(bf.position == index && index > stop)
  {
    AddedPositive(boxes, bf, stop, index, downsize);
    index', boxes' := index, boxes;
    var position, size := bf.position, bf.size;
    var text := LabelOf(bf, downsize);
    if position + size > index {
      size := start - position;
    }
    if position + size < index && position + size > stop {
      boxes' := boxes' + [Box(index - Max(position + size, stop), Reserved)];
      index' := Max(position + size, stop);
    }
    if position + size > stop {
      index' := index' - size;
      size := Min(size, position + size - stop);
      boxes' := boxes' + [Box(size, text)];
    }
  }

  // ---- Consecutive slices ----

  const REGISTER: nat := 32
  const SLICE: nat := 16

  /** The fields left for the next slice say the same about the bits of that slice. */
  lemma {:induction false} BelowKeeps(fields: seq<Field>, stop: int, b: int, downsize: bool)
    requires b < stop
    ensures Over(Below(fields, stop), b, downsize) == Over(fields, b, downsize)
    decreases |fields|
  {
    if fields != [] {
      var n := |fields| - 1;
      BelowKeeps(fields[..n], stop, b, downsize);
      OverSnoc(fields[..n], fields[n], b, downsize);
      OverSnoc(Below(fields[..n], stop), fields[n], b, downsize);
      assert fields == fields[..n] + [fields[n]];
    }
  }

  lemma {:induction false} OverSnoc(fields: seq<Field>, f: Field, b: int, downsize: bool)
    ensures Over(fields + [f], b, downsize)
            == if Over(fields, b, downsize) == Reserved && f.position <= b < f.position + f.size
               then LabelOf(f, downsize)
               else Over(fields, b, downsize)
    decreases |fields|
  {
    if fields == [] {
      assert fields + [f] == [f];
    } else {
      assert (fields + [f])[1..] == fields[1..] + [f];
      OverSnoc(fields[1..], f, b, downsize);
    }
  }

  lemma {:induction false} BelowBits(fields: seq<Field>, stop: int, to: int, downsize: bool)
    ensures Bits(Below(fields, stop), stop, to, downsize) == Bits(fields, stop, to, downsize)
  {
    BelowBitsFrom(fields, stop, stop, to, downsize);
  }

  lemma {:induction false} BelowBitsFrom(fields: seq<Field>, stop: int, from: int, to: int, downsize: bool)
    requires from <= stop
    ensures Bits(Below(fields, stop), from, to, downsize) == Bits(fields, from, to, downsize)
    decreases from - to
  {
    if from > to {
      BelowKeeps(fields, stop, from - 1, downsize);
      BelowBitsFrom(fields, stop, from - 1, to, downsize);
    }
  }

  lemma {:induction false} BelowFront(fields: seq<Field>, stop: int)
    requires fields != []
    ensures Below(fields, stop)
            == if fields[0].position < stop then [fields[0]] + Below(fields[1..], stop) else Below(fields[1..], stop)
    decreases |fields|
  {
    var n := |fields| - 1;
    if n > 0 {
      BelowFront(fields[..n], stop);
      assert fields[..n][1..] == fields[1..][..n - 1];
    }
  }

  /** What is left below `stop` begins below `stop`, and is still sorted. */
  lemma {:induction false} BelowSorted(fields: seq<Field>, stop: int)
    requires Sorted(fields)
    ensures Sorted(Below(fields, stop))
    ensures Below(fields, stop) != [] ==> Below(fields, stop)[0].position < stop
    ensures fields != [] && fields[0].position < stop ==> Below(fields, stop) == fields
    decreases |fields|
  {
    if fields != [] {
      BelowFront(fields, stop);
      BelowSorted(fields[1..], stop);
    }
  }

  function SumOf(lengths: seq<nat>): nat { if lengths == [] then 0 else lengths[0] + SumOf(lengths[1..]) }

  /** What the slices show, one after the other. */
  function ExpandAll(slices: seq<seq<Box>>): seq<Label> {
    if slices == [] then [] else Expand(slices[0]) + ExpandAll(slices[1..])
  }

  /** The widths of the boxes of a slice, added up. */
  function WidthOf(boxes: seq<Box>): int {
    if boxes == [] then 0 else WidthOf(boxes[..|boxes| - 1]) + boxes[|boxes| - 1].width
  }

  lemma {:induction false} CopiesLength(n: nat, t: Label)
    ensures |Copies(n, t)| == n
  {
    if n > 0 {
      CopiesLength(n - 1, t);
    }
  }

  /** The widths add up to the number of bits shown. */
  lemma {:induction false} WidthIsLength(boxes: seq<Box>)
    requires Positive(boxes)
    ensures WidthOf(boxes) == |Expand(boxes)|
  {
    if boxes != [] {
      var last := boxes[|boxes| - 1];
      WidthIsLength(boxes[..|boxes| - 1]);
      CopiesLength(last.width, last.show);
    }
  }

  /** Each slice has boxes of at least one bit that are together as wide as the slice is long. */
  ghost predicate Filled(slices: seq<seq<Box>>, lengths: seq<nat>) {
    |slices| == |lengths|
    && forall i :: 0 <= i < |slices| ==>
         Positive(slices[i]) && WidthOf(slices[i]) == |Expand(slices[i])| == lengths[i]
  }

  /** Slice by slice, each with the fields that the one before hands on. */
  ghost predicate OneBoxEachIn(slices: seq<seq<Box>>, fields: seq<Field>, top: int, lengths: seq<nat>)
    decreases |lengths|
  {
    if lengths == [] then slices == []
    else
      slices != [] && OneBoxEach(slices[0], fields, top, top - lengths[0])
      && OneBoxEachIn(slices[1..], Below(fields, top - lengths[0]), top - lengths[0], lengths[1..])
  }

  /** Cuts a register, from bit top - 1 on, into consecutive slices of the given lengths, each drawn from the fields
      that the one before hands on. */
  method WriteSlices(fields: seq<Field>, top: int, lengths: seq<nat>, downsize: bool) returns (slices: seq<seq<Box>>)
    requires Sorted(fields) && (fields == [] || fields[0].position < top)
    ensures Filled(slices, lengths) && OneBoxEachIn(slices, fields, top, lengths)
    ensures ExpandAll(slices) == Bits(fields, top, top - SumOf(lengths), downsize)
    decreases |lengths|
  {
    if lengths == [] {
      return [];
    }
    var mid := top - lengths[0];
    var first := WriteBitbox(fields, top, lengths[0], downsize);
    BelowSorted(fields, mid);
    var rest := WriteSlices(first.remaining, mid, lengths[1..], downsize);
    SlicesJoin(fields, top, lengths, downsize, first.boxes, rest);
    slices := [first.boxes] + rest;
  }

  lemma {:induction false} SlicesJoin(fields: seq<Field>, top: int, lengths: seq<nat>, downsize: bool, first: seq<Box>,
                                      rest: seq<seq<Box>>)
    requires lengths != [] && Positive(first)
    requires var mid, below := top - lengths[0], Below(fields, top - lengths[0]);
             && Expand(first) == Bits(fields, top, mid, downsize) && OneBoxEach(first, fields, top, mid)
             && Filled(rest, lengths[1..]) && OneBoxEachIn(rest, below, mid, lengths[1..])
             && ExpandAll(rest) == Bits(below, mid, mid - SumOf(lengths[1..]), downsize)
    ensures var slices := [first] + rest;
            && Filled(slices, lengths) && OneBoxEachIn(slices, fields, top, lengths)
            && ExpandAll(slices) == Bits(fields, top, top - SumOf(lengths), downsize)
  {
    var mid := top - lengths[0];
    TwoSlices(fields, top, mid, mid - SumOf(lengths[1..]), downsize);
    WidthIsLength(first);
    var slices := [first] + rest;
    assert slices[1..] == rest;
    forall i | 0 <= i < |slices|
      ensures Positive(slices[i]) && WidthOf(slices[i]) == |Expand(slices[i])| == lengths[i]
    {
      assert i > 0 ==> slices[i] == rest[i - 1] && lengths[i] == lengths[1..][i - 1];
    }
  }

  /** A 32-bit register as two 16-bit slices: together they show every bit of it. */
  method WriteRegDoc(fields: seq<Field>) returns (upper: seq<Box>, lower: seq<Box>)
    requires Descending(fields, REGISTER)
    ensures Expand(upper) + Expand(lower) == Bits(fields, REGISTER, 0, true)
    ensures Filled([upper, lower], [SLICE, SLICE])
    ensures OneBoxEach(upper, fields, REGISTER, SLICE) && OneBoxEach(lower, Below(fields, SLICE), SLICE, 0)
  {
    var lengths := [SLICE, SLICE];
    var slices := WriteSlices(fields, REGISTER, lengths, true);
    TwoOfThem(slices, lengths);
    upper, lower := slices[0], slices[1];
  }

  lemma {:induction false} TwoOfThem(slices: seq<seq<Box>>, lengths: seq<nat>)
    requires |slices| == 2 == |lengths|
    ensures ExpandAll(slices) == Expand(slices[0]) + Expand(slices[1])
    ensures SumOf(lengths) == lengths[0] + lengths[1]
    ensures slices == [slices[0], slices[1]]
  {
    assert slices[1..][1..] == [] && lengths[1..][1..] == [];
    assert ExpandAll(slices[1..]) == Expand(slices[1]) + [];
    assert SumOf(lengths[1..]) == lengths[1] + SumOf(lengths[1..][1..]);
  }

  lemma {:induction false} TwoSlices(fields: seq<Field>, top: int, mid: int, bottom: int, downsize: bool)
    requires top >= mid >= bottom
    ensures Bits(fields, top, mid, downsize) + Bits(Below(fields, mid), mid, bottom, downsize)
            == Bits(fields, top, bottom, downsize)
    ensures |Bits(fields, top, mid, downsize)| == top - mid
    ensures |Bits(Below(fields, mid), mid, bottom, downsize)| == mid - bottom
  {
    BelowBits(fields, mid, bottom, downsize);
    BitsSplit(fields, top, mid, bottom, downsize);
    BitsLength(fields, top, mid, downsize);
    BitsLength(fields, mid, bottom, downsize);
  }

  lemma {:induction false} BitsLength(fields: seq<Field>, from: int, to: int, downsize: bool)
    requires from >= to
    ensures |Bits(fields, from, to, downsize)| == from - to
    decreases from - to
  {
    if from > to {
      BitsLength(fields, from - 1, to, downsize);
    }
  }

  // ---- What is seen in a picture ----

  /** Over every bit of a field stands its own name, tiny or resized if the field has at most two bits and text may be
      shrunk, by the length of the name. */
  lemma {:induction false} FieldShown(fields: seq<Field>, i: nat, b: int, downsize: bool)
    requires Sorted(fields) && i < |fields| && fields[i].position <= b < fields[i].position + fields[i].size
    ensures var f, l := fields[i], Over(fields, b, downsize);
            && (l == Plain(f.name) <==> !downsize || f.size > 2)
            && (l == Tiny(f.name) <==> downsize && f.size <= 2 && |f.name| <= 3)
            && (l == Resized(f.name) <==> downsize && f.size <= 2 && |f.name| > 3)
    decreases |fields|
  {
    if i > 0 {
      SortedBelow(fields, i);
      FieldShown(fields[1..], i - 1, b, downsize);
    }
  }

  lemma {:induction false} SortedBelow(fields: seq<Field>, i: nat)
    requires Sorted(fields) && 0 < i < |fields|
    ensures fields[i].position + fields[i].size <= fields[0].position
    decreases |fields|
  {
    if i > 1 {
      SortedBelow(fields[1..], i - 1);
    }
  }

  /** A bit is grey exactly when no field has it. */
  lemma {:induction false} GreyIff(fields: seq<Field>, b: int, downsize: bool)
    ensures Over(fields, b, downsize) == Reserved
            <==> forall i :: 0 <= i < |fields| ==> !(fields[i].position <= b < fields[i].position + fields[i].size)
    decreases |fields|
  {
    if fields != [] {
      GreyIff(fields[1..], b, downsize);
      if Over(fields, b, downsize) == Reserved {
        forall i | 0 <= i < |fields| ensures !(fields[i].position <= b < fields[i].position + fields[i].size) {
          assert i > 0 ==> fields[i] == fields[1..][i - 1];
        }
      }
    }
  }

  lemma {:induction false} BitsAt(fields: seq<Field>, from: int, to: int, downsize: bool, k: nat)
    requires k < from - to
    ensures k < |Bits(fields, from, to, downsize)|
    ensures Bits(fields, from, to, downsize)[k] == Over(fields, from - 1 - k, downsize)
    decreases from - to
  {
    BitsLength(fields, from, to, downsize);
    if k > 0 {
      BitsAt(fields, from - 1, to, downsize, k - 1);
    }
  }

  lemma {:induction false} CopiesAt(n: nat, t: Label, k: nat)
    requires k < n
    ensures k < |Copies(n, t)| && Copies(n, t)[k] == t
  {
    CopiesLength(n, t);
    if k > 0 {
      CopiesAt(n - 1, t, k - 1);
    }
  }

  /** Box j stands above the bits that come after the widths of the boxes before it. */
  lemma {:induction false} BoxAbove(boxes: seq<Box>, j: nat, k: nat)
    requires Positive(boxes) && j < |boxes| && WidthOf(boxes[..j]) <= k < WidthOf(boxes[..j + 1])
    ensures k < |Expand(boxes)| && Expand(boxes)[k] == boxes[j].show
    decreases |boxes|
  {
    var n := |boxes| - 1;
    var front, last := Expand(boxes[..n]), boxes[n];
    WidthIsLength(boxes[..n]);
    if j == n {
      assert boxes[..j + 1] == boxes;
      CopiesAt(last.width, last.show, k - |front|);
    } else {
      assert boxes[..n][..j] == boxes[..j] && boxes[..n][..j + 1] == boxes[..j + 1];
      BoxAbove(boxes[..n], j, k);
    }
  }

  /** In a slice that begins at bit start - 1, every box shows what belongs over each of its bits. */
  lemma {:induction false} BoxShows(fields: seq<Field>, boxes: seq<Box>, start: int, stop: int, downsize: bool, j: nat,
                                    b: int)
    requires Positive(boxes) && start >= stop && Expand(boxes) == Bits(fields, start, stop, downsize)
    requires j < |boxes| && start - WidthOf(boxes[..j + 1]) <= b < start - WidthOf(boxes[..j])
    ensures stop <= b < start && boxes[j].show == Over(fields, b, downsize)
  {
    var k := start - 1 - b;
    WidthIsLength(boxes[..j]);
    BoxAbove(boxes, j, k);
    BitsLength(fields, start, stop, downsize);
    BitsAt(fields, start, stop, downsize, k);
  }
}
