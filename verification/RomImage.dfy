/** The boot ROM image: S-record bytes gathered into words, and the words listed for the ROM. */
module RomImage {
  import opened Collections
  import opened Sorting

  // ---- Words of four bytes, each byte two hexadecimal digits ----

  /** In the order of the text, highest byte first. */
  datatype Word = Word(byte0: HexByte, byte1: HexByte, byte2: HexByte, byte3: HexByte)

  /** Byte k of a word, counted from the lowest. */
  function Lane(w: Word, k: nat): HexByte {
    match k
    case 0 => w.byte3
    case 1 => w.byte2
    case 2 => w.byte1
    case _ => w.byte0
  }

  lemma {:induction false} SameLanes(v: Word, w: Word)
    requires forall k :: 0 <= k < 4 ==> Lane(v, k) == Lane(w, k)
    ensures v == w
  {
    assert Lane(v, 0) == Lane(w, 0) && Lane(v, 1) == Lane(w, 1) && Lane(v, 2) == Lane(w, 2) && Lane(v, 3) == Lane(w, 3);
  }

  function ZeroWord(): Word { Word(ZERO, ZERO, ZERO, ZERO) }

  /** The word with byte k replaced. */
  function Replaced(w: Word, k: nat, b: HexByte): (r: Word)
    requires k < 4
    ensures forall j :: 0 <= j < 4 ==> Lane(r, j) == if j == k then b else Lane(w, j)
  {
    match k
    case 0 => Word(w.byte0, w.byte1, w.byte2, b)
    case 1 => Word(w.byte0, w.byte1, b, w.byte3)
    case 2 => Word(w.byte0, b, w.byte2, w.byte3)
    case _ => Word(b, w.byte1, w.byte2, w.byte3)
  }

  // ---- Gathering bytes ----

  /** The word at address a before any byte is put in. */
  function Before(words: map<nat, Word>, a: nat): Word {
    if a in words then words[a] else ZeroWord()
  }

  /** Byte k of the word at address a once every byte is in its place. */
  function Expected(bytes: map<nat, HexByte>, words: map<nat, Word>, a: nat, k: nat): HexByte
    requires k < 4
  {
    if 4 * a + k in bytes then bytes[4 * a + k] else Lane(Before(words, a), k)
  }

  /** Some byte belongs to the word at address a. */
  predicate Holds(bytes: map<nat, HexByte>, a: nat) {
    4 * a in bytes || 4 * a + 1 in bytes || 4 * a + 2 in bytes || 4 * a + 3 in bytes
  }

  /** `after` is `before` with every byte in its place, and nothing else. */
  ghost predicate Gathered(bytes: map<nat, HexByte>, before: map<nat, Word>, after: map<nat, Word>) {
    && (forall a: nat :: a in after <==> a in before || Holds(bytes, a))
    && (forall a, k :: a in after && 0 <= k < 4 ==> Lane(after[a], k) == Expected(bytes, before, a, k))
  }

  /** An iteration order of a dictionary: each key once. */
  ghost predicate OrderOf(order: seq<nat>, bytes: map<nat, HexByte>) {
    && (forall i, j :: 0 <= i < j < |order| ==> order[i] != order[j])
    && (forall i :: 0 <= i < |order| ==> order[i] in bytes)
    && (forall a :: a in bytes ==> a in order)
  }

  /** The bytes met so far. */
  function Met(bytes: map<nat, HexByte>, order: seq<nat>, n: nat): map<nat, HexByte>
    requires n <= |order|
  {
    map a | a in bytes && a in order[..n] :: bytes[a]
  }

  lemma {:induction false} MeetOne(bytes: map<nat, HexByte>, order: seq<nat>, n: nat)
    requires n < |order| && OrderOf(order, bytes)
    ensures Met(bytes, order, n + 1) == Met(bytes, order, n)[order[n] := bytes[order[n]]]
  {
    assert order[..n + 1] == order[..n] + [order[n]];
  }

  /** So far every byte met is in its place, also in the words not there yet. */
  lemma {:induction false} LaneSoFar(met: map<nat, HexByte>, before: map<nat, Word>, words: map<nat, Word>,
                                     a: nat, k: nat)
    requires Gathered(met, before, words) && k < 4
    ensures Lane(Before(words, a), k) == Expected(met, before, a, k)
  {
    if a !in words {
      assert a !in before && !Holds(met, a);
      assert 4 * a + k !in met;
    }
  }

  function WithByte(words: map<nat, Word>, addr: nat, b: HexByte): map<nat, Word> {
    words[addr / 4 := Replaced(Before(words, addr / 4), addr % 4, b)]
  }

  lemma {:induction false} LaneAfter(met: map<nat, HexByte>, before: map<nat, Word>, words: map<nat, Word>,
                                     addr: nat, b: HexByte, a: nat, k: nat)
    requires Gathered(met, before, words) && k < 4
    requires a in WithByte(words, addr, b)
    ensures Lane(WithByte(words, addr, b)[a], k) == Expected(met[addr := b], before, a, k)
  {
    LaneSoFar(met, before, words, a, k);
    assert 4 * a + k == addr <==> a == addr / 4 && k == addr % 4;
  }

  lemma {:induction false} HoldsOneMore(met: map<nat, HexByte>, addr: nat, b: HexByte, a: nat)
    ensures Holds(met[addr := b], a) <==> Holds(met, a) || a == addr / 4
  {
    assert a == addr / 4 <==> addr == 4 * a || addr == 4 * a + 1 || addr == 4 * a + 2 || addr == 4 * a + 3;
  }

  lemma {:induction false} KeysAfter(met: map<nat, HexByte>, before: map<nat, Word>, words: map<nat, Word>,
                                     addr: nat, b: HexByte, a: nat)
    requires Gathered(met, before, words)
    ensures a in WithByte(words, addr, b) <==> a in before || Holds(met[addr := b], a)
  {
    HoldsOneMore(met, addr, b, a);
    assert a in words <==> a in before || Holds(met, a);
  }

  /** Putting one more byte in. */
  lemma {:induction false} GatherOne(met: map<nat, HexByte>, before: map<nat, Word>, words: map<nat, Word>,
                                     addr: nat, b: HexByte)
    requires Gathered(met, before, words)
    ensures Gathered(met[addr := b], before, WithByte(words, addr, b))
  {
    var after := WithByte(words, addr, b);
    forall a: nat ensures a in after <==> a in before || Holds(met[addr := b], a) {
      KeysAfter(met, before, words, addr, b, a);
    }
    forall a, k | a in after && 0 <= k < 4
      ensures Lane(after[a], k) == Expected(met[addr := b], before, a, k) {
      LaneAfter(met, before, words, addr, b, a, k);
    }
  }

  lemma {:induction false} MeetAndGather(bytes: map<nat, HexByte>, order: seq<nat>, n: nat, before: map<nat, Word>,
                                         words: map<nat, Word>)
    requires n < |order| && OrderOf(order, bytes)
    requires Gathered(Met(bytes, order, n), before, words)
    ensures Gathered(Met(bytes, order, n + 1), before, WithByte(words, order[n], bytes[order[n]]))
  {
    MeetOne(bytes, order, n);
    GatherOne(Met(bytes, order, n), before, words, order[n], bytes[order[n]]);
  }

  lemma {:induction false} AllMet(bytes: map<nat, HexByte>, order: seq<nat>)
    requires OrderOf(order, bytes)
    ensures Met(bytes, order, 0) == map[] && Met(bytes, order, |order|) == bytes
  {
    assert order[..|order|] == order;
  }

  lemma {:induction false} NothingGathered(words: map<nat, Word>)
    ensures Gathered(map[], words, words)
  {
  }

  method BytesToWords(bytes: map<nat, HexByte>, order: seq<nat>, words: map<nat, Word>)
    returns (gathered: map<nat, Word>)
    requires OrderOf(order, bytes)
    ensures Gathered(bytes, words, gathered)
  {
    gathered := words;
    AllMet(bytes, order);
    NothingGathered(words);
    for n := 0 to |order|
      invariant Gathered(Met(bytes, order, n), words, gathered)
    {
      MeetAndGather(bytes, order, n, words, gathered);
      var addr: nat := order[n];
      var data := if addr / 4 in gathered then gathered[addr / 4] else ZeroWord();
      gathered := gathered[addr / 4 := Replaced(data, addr % 4, bytes[addr])];
    }
  }

  /** Whatever order the bytes are met in, the words are the same. */
  lemma {:induction false} OrderIsIrrelevant(bytes: map<nat, HexByte>, before: map<nat, Word>,
                                             one: map<nat, Word>, other: map<nat, Word>)
    requires Gathered(bytes, before, one) && Gathered(bytes, before, other)
    ensures one == other
  {
    forall a ensures a in one <==> a in other {
    }
    forall a | a in one ensures one[a] == other[a] {
      SameLanes(one[a], other[a]);
    }
    assert one.Keys == other.Keys;
  }

  // ---- Listing the ROM ----

  /** The ROM in word addresses. */
  const FIRST: nat := 0x680_0000
  const LAST: nat := 0x680_07FF

  predicate Below(a: nat, b: nat) { a < b }

  /** sorted(slm_dict.keys()) */
  ghost predicate SortedKeys(words: map<nat, Word>, keys: seq<nat>) { Sorted(Below, words.Keys, keys) }

  /** Every word of the ROM has been filled in. */
  ghost predicate RomFilled(words: map<nat, Word>) { forall a :: FIRST <= a <= LAST ==> a in words }

  /** The last ROM word among the first n keys; FIRST - 1 if there is none. */
  function LastListed(keys: seq<nat>, n: nat): int
    requires n <= |keys|
  {
    if n == 0 || keys[n - 1] < FIRST then FIRST - 1 else if keys[n - 1] > LAST then LAST else keys[n - 1]
  }

  /** The next key, if it is in the ROM, is the next word of the ROM. */
  lemma {:induction false} NoWordMissing(words: map<nat, Word>, keys: seq<nat>, n: nat)
    requires n < |keys| && SortedKeys(words, keys) && RomFilled(words)
    ensures FIRST <= keys[n] <= LAST ==> keys[n] == LastListed(keys, n) + 1
    ensures keys[n] > LAST ==> LastListed(keys, n) == LAST
  {
    assert n > 0 ==> Below(keys[n - 1], keys[n]);
    if keys[n] > FIRST {
      var before := if keys[n] > LAST then LAST else keys[n] - 1;
      assert before in words && before in keys;
      var i :| 0 <= i < |keys| && keys[i] == before;
      assert n < i ==> Below(keys[n], keys[i]);
      assert i < n - 1 ==> Below(keys[i], keys[n - 1]);
    }
  }

  /** One line of the listing: 64'h and two words, the odd one first, or 32'h and one word. */
  datatype Line = Double(odd: Word, even: Word) | Single(word: Word)

  /** The listing up to the ROM word `last`. */
  ghost predicate Listed(words: map<nat, Word>, last: int, is64: bool, lines: seq<Line>)
    requires RomFilled(words) && FIRST - 1 <= last <= LAST
  {
    if is64 then
      && |lines| == (last + 1 - FIRST) / 2
      && forall j :: 0 <= j < |lines| ==> lines[j] == Double(words[FIRST + 2 * j + 1], words[FIRST + 2 * j])
    else
      |lines| == last + 1 - FIRST && forall j :: 0 <= j < |lines| ==> lines[j] == Single(words[FIRST + j])
  }

  /** The emission; `alarm` says whether the sanity check ever failed. */
  method Emit(words: map<nat, Word>, keys: seq<nat>, is64: bool) returns (lines: seq<Line>, alarm: bool)
    requires SortedKeys(words, keys) && RomFilled(words)
    ensures !alarm && Listed(words, LAST, is64, lines)
  {
    lines, alarm := [], false;
    var addrLast: int := FIRST - 1;
    var dataEven := ZeroWord();
    for n := 0 to |keys|
      invariant !alarm && addrLast == LastListed(keys, n) && FIRST - 1 <= addrLast <= LAST
      invariant Listed(words, addrLast, is64, lines)
      invariant addrLast >= FIRST && addrLast % 2 == 0 ==> dataEven == words[addrLast]
    {
      NoWordMissing(words, keys, n);
      var addr: nat := keys[n];
      assert addr in keys;
      var data := words[addr];
      if FIRST <= addr <= LAST {
        if addr != addrLast + 1 {
          alarm := true;
        }
        addrLast := addr;
        if !is64 {
          lines := lines + [Single(data)];
        } else if addr % 2 != 0 {
          lines := lines + [Double(data, dataEven)];
        }
        if addr % 2 == 0 {
          dataEven := data;
        }
      }
    }
    AllListed(words, keys);
  }

  lemma {:induction false} AllListed(words: map<nat, Word>, keys: seq<nat>)
    requires SortedKeys(words, keys) && RomFilled(words)
    ensures LastListed(keys, |keys|) == LAST
  {
    assert LAST in words && LAST in keys;
    var i :| 0 <= i < |keys| && keys[i] == LAST;
    assert i < |keys| - 1 ==> Below(LAST, keys[|keys| - 1]);
  }

  /** Byte k of a line, counted from the lowest. */
  function LineByte(line: Line, k: nat): HexByte {
    match line
    case Double(odd, even) => if k < 4 then Lane(even, k) else Lane(odd, k - 4)
    case Single(word) => Lane(word, k)
  }

  /** The words before any byte is put in: zeros for the ROM. */
  ghost predicate ZeroFilled(words: map<nat, Word>) {
    && (forall a: nat :: a in words <==> FIRST <= a <= LAST)
    && (forall a :: a in words ==> words[a] == ZeroWord())
  }

  method FillZeros() returns (words: map<nat, Word>)
    ensures ZeroFilled(words)
  {
    words := map[];
    var wordaddr := FIRST;
    while wordaddr < LAST + 1
      invariant FIRST <= wordaddr <= LAST + 1
      invariant forall a: nat :: a in words <==> FIRST <= a < wordaddr
      invariant forall a :: a in words ==> words[a] == ZeroWord()
    {
      words := words[wordaddr := ZeroWord()];
      wordaddr := wordaddr + 1;
    }
  }

  lemma {:induction false} RomStaysFilled(bytes: map<nat, HexByte>, filled: map<nat, Word>, words: map<nat, Word>)
    requires ZeroFilled(filled) && Gathered(bytes, filled, words)
    ensures RomFilled(words)
  {
    forall a: nat | FIRST <= a <= LAST ensures a in words {
      assert a in filled;
    }
  }

  lemma {:induction false} ZeroOrByte(bytes: map<nat, HexByte>, filled: map<nat, Word>, a: nat, k: nat)
    requires ZeroFilled(filled) && k < 4
    ensures FIRST <= a <= LAST ==>
              Expected(bytes, filled, a, k) == if 4 * a + k in bytes then bytes[4 * a + k] else ZERO
  {
  }

  /** Byte k of the ROM word at address a. */
  lemma {:induction false} RomByte(bytes: map<nat, HexByte>, filled: map<nat, Word>, words: map<nat, Word>,
                                   a: nat, k: nat)
    requires ZeroFilled(filled) && Gathered(bytes, filled, words)
    requires FIRST <= a <= LAST && a in words && k < 4
    ensures Lane(words[a], k) == if 4 * a + k in bytes then bytes[4 * a + k] else ZERO
  {
    assert Lane(words[a], k) == Expected(bytes, filled, a, k);
    ZeroOrByte(bytes, filled, a, k);
  }

  /** Byte x of the ROM: from the S-records, or zero. */
  function RomContent(bytes: map<nat, HexByte>, x: nat): HexByte {
    if 0x1A00_0000 + x in bytes then bytes[0x1A00_0000 + x] else ZERO
  }

  /** The lines hold the 8192 bytes of the ROM in order, 8 or 4 on a line, the lowest one last. */
  ghost predicate Faithful(bytes: map<nat, HexByte>, is64: bool, lines: seq<Line>) {
    if is64 then
      |lines| == 1024 && forall x: nat :: x < 8192 ==> LineByte(lines[x / 8], x % 8) == RomContent(bytes, x)
    else
      |lines| == 2048 && forall x: nat :: x < 8192 ==> LineByte(lines[x / 4], x % 4) == RomContent(bytes, x)
  }

  lemma {:induction false} WordHolds(bytes: map<nat, HexByte>, filled: map<nat, Word>, words: map<nat, Word>, x: nat)
    requires ZeroFilled(filled) && Gathered(bytes, filled, words) && RomFilled(words) && x < 8192
    ensures FIRST + x / 4 in words && Lane(words[FIRST + x / 4], x % 4) == RomContent(bytes, x)
  {
    RomAddress(x);
    RomByte(bytes, filled, words, FIRST + x / 4, x % 4);
  }

  lemma {:induction false} RomAddress(x: nat)
    requires x < 8192
    ensures FIRST <= FIRST + x / 4 <= LAST && 4 * (FIRST + x / 4) + x % 4 == 0x1A00_0000 + x
  {
  }

  lemma {:induction false} LineHolds(words: map<nat, Word>, is64: bool, lines: seq<Line>, x: nat)
    requires RomFilled(words) && Listed(words, LAST, is64, lines) && x < 8192
    ensures |lines| == if is64 then 1024 else 2048
    ensures FIRST + x / 4 in words
    ensures is64 ==> LineByte(lines[x / 8], x % 8) == Lane(words[FIRST + x / 4], x % 4)
    ensures !is64 ==> LineByte(lines[x / 4], x % 4) == Lane(words[FIRST + x / 4], x % 4)
  {
    if is64 {
      var j := x / 8;
      assert x / 4 == 2 * j + (x % 8) / 4 && x % 4 == (x % 8) % 4;
      assert lines[j] == Double(words[FIRST + 2 * j + 1], words[FIRST + 2 * j]);
    }
  }

  lemma {:induction false} ListingIsFaithful(bytes: map<nat, HexByte>, filled: map<nat, Word>, words: map<nat, Word>,
                                             is64: bool, lines: seq<Line>)
    requires ZeroFilled(filled) && Gathered(bytes, filled, words)
    requires RomFilled(words) && Listed(words, LAST, is64, lines)
    ensures Faithful(bytes, is64, lines)
  {
    forall x: nat | x < 8192
      ensures is64 ==> LineByte(lines[x / 8], x % 8) == RomContent(bytes, x)
      ensures !is64 ==> LineByte(lines[x / 4], x % 4) == RomContent(bytes, x)
    {
      WordHolds(bytes, filled, words, x);
      LineHolds(words, is64, lines, x);
    }
  }

  /** The hexadecimal digits of a line, as they are written. */
  function TextOf(line: Line): string {
    match line
    case Double(odd, even) => Digits(odd) + Digits(even)
    case Single(word) => Digits(word)
  }

  function Digits(w: Word): string { w.byte0 + w.byte1 + w.byte2 + w.byte3 }

  ghost predicate TwoDigits(w: Word) { |w.byte0| == |w.byte1| == |w.byte2| == |w.byte3| == 2 }

  ghost predicate Written(line: Line) {
    match line
    case Double(odd, even) => TwoDigits(odd) && TwoDigits(even)
    case Single(word) => TwoDigits(word)
  }

  /** The pair of digits that has k pairs to its right. */
  function Pair(s: string, k: nat): string
    requires 2 * k + 2 <= |s|
  {
    s[|s| - 2 * k - 2..|s| - 2 * k]
  }

  lemma {:induction false} PairRight(s: string, t: string, k: nat)
    requires 2 * k + 2 <= |t|
    ensures Pair(s + t, k) == Pair(t, k)
  {
    var lo := |t| - 2 * k - 2;
    assert (s + t)[|s| + lo..|s| + lo + 2] == t[lo..lo + 2];
  }

  lemma {:induction false} PairLeft(s: string, t: string, k: nat, n: nat)
    requires |t| == 2 * n && 2 * k + 2 <= |s|
    ensures Pair(s + t, k + n) == Pair(s, k)
  {
    var lo := |s| - 2 * k - 2;
    assert (s + t)[lo..lo + 2] == s[lo..lo + 2];
  }

  lemma {:induction false} LaneInText(w: Word, k: nat)
    requires TwoDigits(w) && k < 4
    ensures |Digits(w)| == 8 && Pair(Digits(w), k) == Lane(w, k)
  {
  }

  lemma {:induction false} PairOfBoth(s: string, t: string, k: nat)
    requires |s| == 8 == |t| && k < 8
    ensures |s + t| == 16 && Pair(s + t, k) == if k < 4 then Pair(t, k) else Pair(s, k - 4)
  {
    if k < 4 {
      PairRight(s, t, k);
    } else {
      PairLeft(s, t, k - 4, 4);
    }
  }

  lemma {:induction false} ByteInDouble(odd: Word, even: Word, k: nat)
    requires TwoDigits(odd) && TwoDigits(even) && k < 8
    ensures |Digits(odd) + Digits(even)| == 16
    ensures Pair(Digits(odd) + Digits(even), k) == if k < 4 then Lane(even, k) else Lane(odd, k - 4)
  {
    LaneInText(odd, if k < 4 then k else k - 4);
    LaneInText(even, if k < 4 then k else k - 4);
    PairOfBoth(Digits(odd), Digits(even), k);
  }

  /** Byte k of a line is the pair of digits with k pairs to its right: the lines are numbers, the lowest byte last. */
  lemma {:induction false} ByteInText(line: Line, k: nat)
    requires Written(line) && k < if line.Double? then 8 else 4
    ensures |TextOf(line)| == (if line.Double? then 16 else 8) && Pair(TextOf(line), k) == LineByte(line, k)
  {
    match line
    case Double(odd, even) => ByteInDouble(odd, even, k);
    case Single(word) => LaneInText(word, k);
  }

  /** The whole conversion, for any iteration order of the dictionary of bytes. */
  method Convert(bytes: map<nat, HexByte>, order: seq<nat>, is64: bool) returns (lines: seq<Line>, alarm: bool)
    requires OrderOf(order, bytes)
    ensures !alarm && Faithful(bytes, is64, lines)
  {
    var filled := FillZeros();
    var words := BytesToWords(bytes, order, filled);
    RomStaysFilled(bytes, filled, words);
    var keys := Sort(words.Keys, Below);
    lines, alarm := Emit(words, keys, is64);
    ListingIsFaithful(bytes, filled, words, is64, lines);
  }
}
