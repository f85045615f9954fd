/** An insertion-ordered dictionary: a map from keys to the cells of a circular, doubly linked list
    with a sentinel, next to the plain dictionary of values. */
module OrderedDictionary {
  import opened Collections

  /** A list cell [key, prev, next]; the sentinel has no key. */
  class Cell<K> {
    const key: Option<K>
    var prev: Cell<K>
    var next: Cell<K>

    constructor Sentinel()
      ensures key == None && prev == this && next == this
    {
      key := None;
      prev := this;
      next := this;
    }

    constructor (key: K, prev: Cell<K>, next: Cell<K>)
      ensures this.key == Some(key) && this.prev == prev && this.next == next
    {
      this.key := Some(key);
      this.prev := prev;
      this.next := next;
    }
  }

  // ---- Specification: a sequence of keys and a map ----

  datatype Contents<K, V> = Contents(keys: seq<K>, values: map<K, V>)

  function Put<K(==), V>(c: Contents<K, V>, k: K, v: V): Contents<K, V> {
    Contents(if k in c.values then c.keys else c.keys + [k], c.values[k := v])
  }

  function Remove<K(==), V>(c: Contents<K, V>, k: K): Contents<K, V> {
    Contents(RemoveFirst(c.keys, k), c.values - {k})
  }

  lemma {:induction false} RemoveFirstAt<K>(s: seq<K>, i: nat)
    requires Distinct(s) && i < |s|
    ensures RemoveFirst(s, s[i]) == s[..i] + s[i + 1..]
    decreases |s|
  {
    if i > 0 {
      RemoveFirstAt(s[1..], i - 1);
      assert s[1..][..i - 1] == s[1..i];
      assert s[1..][i..] == s[i + 1..];
      assert [s[0]] + (s[1..i] + s[i + 1..]) == s[..i] + s[i + 1..];
    }
  }

  /** Keys are listed once each, and are the keys of the values. */
  ghost predicate Consistent<K, V>(c: Contents<K, V>) {
    Distinct(c.keys) && (forall k <- c.keys :: k in c.values) && (forall k <- c.values :: k in c.keys)
  }

  /** The list of items of a dictionary. */
  ghost predicate Lists<K, V>(items: seq<(K, V)>, c: Contents<K, V>) {
    |items| == |c.keys|
    && forall i :: 0 <= i < |items| ==> c.keys[i] in c.values && items[i] == (c.keys[i], c.values[c.keys[i]])
  }

  /** The items determine the dictionary, order included. */
  lemma {:induction false} SameItems<K, V>(c: Contents<K, V>, mine: seq<(K, V)>, d: Contents<K, V>, theirs: seq<(K, V)>)
    requires Consistent(c) && Consistent(d) && Lists(mine, c) && Lists(theirs, d)
    ensures mine == theirs <==> c == d
  {
    if c == d {
      assert forall i :: 0 <= i < |mine| ==> mine[i] == theirs[i];
    }
    if mine == theirs {
      forall i | 0 <= i < |mine| ensures c.keys[i] == d.keys[i] {
        assert mine[i].0 == theirs[i].0;
      }
      assert c.keys == d.keys;
      forall k | k in c.values ensures k in d.values && c.values[k] == d.values[k] {
        var i :| 0 <= i < |c.keys| && c.keys[i] == k;
        assert mine[i] == theirs[i];
      }
      assert c.values.Keys == d.values.Keys;
    }
  }

  method SameList<T(==)>(mine: seq<T>, theirs: seq<T>) returns (r: bool)
    ensures r <==> mine == theirs
  {
    if |mine| != |theirs| {
      return false;
    }
    for i := 0 to |mine|
      invariant forall j :: 0 <= j < i ==> mine[j] == theirs[j]
    {
      if mine[i] != theirs[i] {
        return false;
      }
    }
    r := true;
  }

  // ---- The circle of cells ----

  /** Cell number i of the circle; the sentinel stands before the first and after the last. */
  ghost function Node<K>(end: Cell<K>, cells: seq<Cell<K>>, i: int): Cell<K> {
    if 0 <= i < |cells| then cells[i] else end
  }

  ghost predicate Ring<K>(end: Cell<K>, cells: seq<Cell<K>>)
    reads end, cells
  {
    && end !in cells && Distinct(cells)
    && (forall i {:trigger Node(end, cells, i).next} :: -1 <= i < |cells| ==>
          Node(end, cells, i).next == Node(end, cells, i + 1))
    && (forall i {:trigger Node(end, cells, i).prev} :: 0 <= i <= |cells| ==>
          Node(end, cells, i).prev == Node(end, cells, i - 1))
  }

  ghost predicate Keyed<K>(cells: seq<Cell<K>>) {
    forall i :: 0 <= i < |cells| ==> cells[i].key.Some?
  }

  ghost function KeysOf<K>(cells: seq<Cell<K>>): (ks: seq<K>)
    requires Keyed(cells)
    ensures |ks| == |cells| && forall i :: 0 <= i < |ks| ==> ks[i] == cells[i].key.value
  {
    seq(|cells|, i requires 0 <= i < |cells| => cells[i].key.value)
  }

  /** The map leads from every key to its cell, and knows no other keys. */
  ghost predicate Indexed<K>(cells: seq<Cell<K>>, cellOf: map<K, Cell<K>>) {
    && Keyed(cells) && Distinct(KeysOf(cells))
    && (forall i :: 0 <= i < |cells| ==> cells[i].key.value in cellOf && cellOf[cells[i].key.value] == cells[i])
    && (forall k :: k in cellOf ==> k in KeysOf(cells))
  }

  lemma {:induction false} IndexedAppend<K>(cells: seq<Cell<K>>, cellOf: map<K, Cell<K>>, c: Cell<K>)
    requires Indexed(cells, cellOf) && c.key.Some? && c.key.value !in cellOf
    ensures Indexed(cells + [c], cellOf[c.key.value := c])
    ensures KeysOf(cells + [c]) == KeysOf(cells) + [c.key.value]
  {
    assert KeysOf(cells + [c]) == KeysOf(cells) + [c.key.value];
    forall i | 0 <= i < |cells| ensures KeysOf(cells)[i] != c.key.value {
      assert cells[i].key.value in cellOf;
    }
  }

  lemma {:induction false} DropMembers<T>(s: seq<T>, i: nat)
    requires Distinct(s) && i < |s|
    ensures Distinct(Drop(s, i)) && s[i] !in Drop(s, i)
    ensures forall x :: x in s && x != s[i] ==> x in Drop(s, i)
    ensures forall x :: x in Drop(s, i) ==> x in s
  {
    assert s == s[..i] + ([s[i]] + s[i + 1..]);
    assert forall x :: x in s <==> x in s[..i] || x == s[i] || x in s[i + 1..];
  }

  lemma {:induction false} KeysOfDrop<K>(cells: seq<Cell<K>>, i: nat)
    requires Keyed(cells) && Distinct(KeysOf(cells)) && i < |cells|
    ensures Keyed(Drop(cells, i)) && KeysOf(Drop(cells, i)) == Drop(KeysOf(cells), i)
    ensures KeysOf(Drop(cells, i)) == RemoveFirst(KeysOf(cells), cells[i].key.value)
  {
    RemoveFirstAt(KeysOf(cells), i);
    assert KeysOf(Drop(cells, i)) == Drop(KeysOf(cells), i);
  }

  lemma {:induction false} IndexedDrop<K>(cells: seq<Cell<K>>, cellOf: map<K, Cell<K>>, i: nat)
    requires Indexed(cells, cellOf) && i < |cells|
    ensures Indexed(Drop(cells, i), cellOf - {cells[i].key.value})
  {
    var rest, key := Drop(cells, i), cells[i].key.value;
    KeysOfDrop(cells, i);
    DropMembers(KeysOf(cells), i);
    forall j | 0 <= j < |rest|
      ensures rest[j].key.value != key && rest[j].key.value in cellOf && cellOf[rest[j].key.value] == rest[j]
    {
      var j' := if j < i then j else j + 1;
      assert rest[j] == cells[j'] && KeysOf(cells)[j'] != KeysOf(cells)[i];
    }
  }

  /** curr[2] = end[1] = [key, curr, end] */
  method Link<K>(end: Cell<K>, key: K, ghost cells: seq<Cell<K>>) returns (c: Cell<K>)
    requires Ring(end, cells)
    modifies end, cells
    ensures fresh(c) && c.key == Some(key) && Ring(end, cells + [c])
  {
    var curr := end.prev;
    assert end == Node(end, cells, |cells|) && Node(end, cells, |cells|).prev == Node(end, cells, |cells| - 1);
    c := new Cell<K>(key, curr, end);
    curr.next := c;
    end.prev := c;
    ghost var now := cells + [c];
    forall i | -1 <= i < |now| ensures Node(end, now, i).next == Node(end, now, i + 1) {
      assert i < |cells| ==> Node(end, now, i) == Node(end, cells, i);
    }
    forall i | 0 <= i <= |now| ensures Node(end, now, i).prev == Node(end, now, i - 1) {
      assert i < |cells| ==> Node(end, now, i) == Node(end, cells, i);
    }
  }

  ghost function Drop<T>(s: seq<T>, i: nat): seq<T>
    requires i < |s|
  {
    s[..i] + s[i + 1..]
  }

  lemma {:induction false} DropAt<T>(s: seq<T>, i: nat, j: nat)
    requires i < |s| && j < |s| - 1
    ensures Drop(s, i)[j] == s[if j < i then j else j + 1]
  {
  }

  lemma {:induction false} DropEnd<T>(s: seq<T>, last: bool)
    requires s != []
    ensures Drop(s, if last then |s| - 1 else 0) == if last then s[..|s| - 1] else s[1..]
  {
  }

  /** prev[2] = next; next[1] = prev */
  method Unlink<K>(c: Cell<K>, ghost end: Cell<K>, ghost cells: seq<Cell<K>>, ghost k: nat)
    requires Ring(end, cells) && k < |cells| && cells[k] == c
    modifies end, cells
    ensures Ring(end, Drop(cells, k))
  {
    var prev, next := c.prev, c.next;
    assert Node(end, cells, k).prev == Node(end, cells, k - 1) && Node(end, cells, k).next == Node(end, cells, k + 1);
    prev.next := next;
    next.prev := prev;
    ghost var now := Drop(cells, k);
    forall i | -1 <= i < |now| ensures Node(end, now, i).next == Node(end, now, i + 1) {
      var j := if i < k then i else i + 1;
      assert Node(end, now, i) == Node(end, cells, j);
      assert old(Node(end, cells, j).next) == Node(end, cells, j + 1);
    }
    forall i | 0 <= i <= |now| ensures Node(end, now, i).prev == Node(end, now, i - 1) {
      var j := if i < k then i else i + 1;
      assert Node(end, now, i) == Node(end, cells, j);
      assert old(Node(end, cells, j).prev) == Node(end, cells, j - 1);
    }
  }

  class OrderedDict<K(==), V(==)> {
    var end: Cell<K>
    var cellOf: map<K, Cell<K>>
    var dict: map<K, V>
    /** The cells in list order. */
    ghost var cells: seq<Cell<K>>

    ghost predicate Valid()
      reads this, end, cells
    {
      && Ring(end, cells)
      && end.key == None && Indexed(cells, cellOf) && dict.Keys == cellOf.Keys
    }

    ghost function Keys(): (ks: seq<K>)
      requires Valid()
      reads this, end, cells
    {
      KeysOf(cells)
    }

    ghost function View(): Contents<K, V>
      requires Valid()
      reads this, end, cells
    {
      Contents(Keys(), dict)
    }

    lemma {:induction false} ViewConsistent()
      requires Valid()
      ensures Consistent(View())
    {
      forall k | k in KeysOf(cells) ensures k in dict {
        var i :| 0 <= i < |cells| && KeysOf(cells)[i] == k;
        assert cells[i].key.value in cellOf;
      }
    }

    constructor ()
      ensures Valid() && View() == Contents([], map[]) && fresh(end)
    {
      end := new Cell<K>.Sentinel();
      cellOf := map[];
      dict := map[];
      cells := [];
    }

    method Clear()
      modifies this
      ensures Valid() && View() == Contents([], map[]) && fresh(end) && cells == []
    {
      end := new Cell<K>.Sentinel();
      cellOf := map[];
      dict := map[];
      cells := [];
    }

    method SetItem(key: K, value: V)
      requires Valid()
      modifies this, end, cells
      ensures Valid() && View() == Put(old(View()), key, value)
      ensures Keys() == if key in old(dict) then old(Keys()) else old(Keys()) + [key]
      ensures dict.Keys == old(dict.Keys) + {key} && dict[key] == value
      ensures forall k :: k in old(dict) && k != key ==> dict[k] == old(dict)[k]
      ensures end == old(end) && fresh(set c | c in cells && c !in old(cells))
    {
      if key !in dict {
        var c := Link(end, key, cells);
        IndexedAppend(cells, cellOf, c);
        cellOf := cellOf[key := c];
        cells := cells + [c];
      }
      dict := dict[key := value];
    }

    /** Takes the key at position i out of the dictionary, the map and the list. */
    method Take(key: K, ghost i: nat)
      requires Valid() && i < |cells| && Keys()[i] == key
      modifies this, end, cells
      ensures Valid() && end == old(end)
      ensures cells == Drop(old(cells), i) && Keys() == Drop(old(Keys()), i)
      ensures View() == Remove(old(View()), key)
    {
      assert cells[i].key.value in cellOf;
      dict := dict - {key};
      var c := cellOf[key];
      IndexedDrop(cells, cellOf, i);
      KeysOfDrop(cells, i);
      cellOf := cellOf - {key};
      Unlink(c, end, cells, i);
      cells := Drop(cells, i);
    }

    /** del self[key]; a missing key leaves everything as it is. */
    method DelItem(key: K) returns (found: bool, ghost i: nat)
      requires Valid()
      modifies this, end, cells
      ensures Valid() && end == old(end)
      ensures found <==> key in old(dict)
      ensures View() == if found then Remove(old(View()), key) else old(View())
      ensures if found then i < |old(cells)| && cells == Drop(old(cells), i) else cells == old(cells)
      ensures forall c :: c in cells ==> c in old(cells)
    {
      found, i := key in dict, 0;
      if found {
        i := Position(key);
        Take(key, i);
      }
    }

    /** Forward walk, from the sentinel back to it. */
    method Iterate() returns (keys: seq<K>)
      requires Valid()
      ensures keys == Keys()
    {
      keys := [];
      var curr := end.next;
      assert Node(end, cells, -1).next == Node(end, cells, 0);
      ghost var i := 0;
      while curr != end
        invariant 0 <= i <= |cells| && curr == Node(end, cells, i)
        invariant keys == Keys()[..i]
        decreases |cells| - i
      {
        assert Node(end, cells, i).next == Node(end, cells, i + 1);
        keys := keys + [curr.key.value];
        curr := curr.next;
        i := i + 1;
      }
    }

    /** Backward walk. */
    method Reversed() returns (keys: seq<K>)
      requires Valid()
      ensures keys == Reverse(Keys())
    {
      keys := [];
      var curr := end.prev;
      assert Node(end, cells, |cells|).prev == Node(end, cells, |cells| - 1);
      ghost var i := 0;
      while curr != end
        invariant 0 <= i <= |cells| && curr == Node(end, cells, |cells| - 1 - i)
        invariant keys == Reverse(Keys())[..i]
        decreases |cells| - i
      {
        assert Node(end, cells, |cells| - 1 - i).prev == Node(end, cells, |cells| - 2 - i);
        keys := keys + [curr.key.value];
        curr := curr.prev;
        i := i + 1;
      }
    }

    /** Removes and returns the last or the first item; None for an empty dictionary. */
    method PopItem(last: bool) returns (item: Option<(K, V)>)
      requires Valid()
      modifies this, end, cells
      ensures Valid() && end == old(end)
      ensures item.None? ==> cells == old(cells)
      ensures forall c :: c in cells ==> c in old(cells)
      ensures item.Some? ==>
                old(cells) != [] && cells == if last then old(cells)[..|old(cells)| - 1] else old(cells)[1..]
      ensures item.None? <==> old(dict) == map[]
      ensures item.None? ==> View() == old(View())
      ensures item.Some? ==>
                var ks := old(Keys());
                && item.value.0 == (if last then ks[|ks| - 1] else ks[0])
                && item.value.1 == old(dict)[item.value.0]
                && View() == Remove(old(View()), item.value.0)
                && Keys() == if last then ks[..|ks| - 1] else ks[1..]
    {
      if dict == map[] {
        return None;
      }
      NotEmpty();
      var key, value := PopEnd(last);
      item := Some((key, value));
    }

    method PopEnd(last: bool) returns (key: K, value: V)
      requires Valid() && cells != []
      modifies this, end, cells
      ensures Valid() && end == old(end)
      ensures cells == if last then old(cells)[..|old(cells)| - 1] else old(cells)[1..]
      ensures var ks := old(Keys());
              key == (if last then ks[|ks| - 1] else ks[0]) && Keys() == if last then ks[..|ks| - 1] else ks[1..]
      ensures key in old(dict) && value == old(dict)[key] && View() == Remove(old(View()), key)
    {
      ghost var i := if last then |cells| - 1 else 0;
      ghost var cs, ks := cells, Keys();
      key := EndKey(last);
      assert cells[i].key.value in cellOf;
      value := dict[key];
      Take(key, i);
      DropEnd(cs, last);
      DropEnd(ks, last);
    }

    lemma {:induction false} NotEmpty()
      requires Valid() && dict != map[]
      ensures cells != []
    {
      var k :| k in dict;
      assert k in KeysOf(cells);
    }

    /** The first key that a walk from the back or from the front comes to. */
    method EndKey(last: bool) returns (key: K)
      requires Valid() && cells != []
      ensures key == Keys()[if last then |cells| - 1 else 0]
    {
      assert Node(end, cells, |cells|).prev == Node(end, cells, |cells| - 1);
      assert Node(end, cells, -1).next == Node(end, cells, 0);
      var cell := if last then end.prev else end.next;
      key := cell.key.value;
    }

    /** The key-value pairs, in order. */
    method Items() returns (items: seq<(K, V)>)
      requires Valid()
      ensures Lists(items, View())
    {
      var keys := Iterate();
      items := [];
      for i := 0 to |keys|
        invariant |items| == i
        invariant forall j :: 0 <= j < i ==> keys[j] in dict && items[j] == (keys[j], dict[keys[j]])
      {
        items := items + [(keys[i], dict[keys[i]])];
      }
    }

    /** Equality with another ordered dictionary looks at the order too. */
    method Equals(other: OrderedDict<K, V>) returns (r: bool)
      requires Valid() && other.Valid()
      ensures r <==> View() == other.View()
    {
      var mine := Items();
      var theirs := other.Items();
      r := SameList(mine, theirs);
      ViewConsistent();
      other.ViewConsistent();
      SameItems(View(), mine, other.View(), theirs);
    }

    /** Equality with a plain dictionary does not: the keys of the list are its keys, in any order. */
    method EqualsPlain(other: map<K, V>) returns (r: bool)
      requires Valid()
      ensures r <==> (forall k :: k in other <==> k in Keys())
                     && forall k :: k in other ==> other[k] == View().values[k]
    {
      ViewConsistent();
      r := dict == other;
    }

    ghost function Position(key: K): (i: nat)
      requires Keyed(cells) && key in KeysOf(cells)
      reads this
      ensures i < |cells| && KeysOf(cells)[i] == key
    {
      var i :| 0 <= i < |cells| && KeysOf(cells)[i] == key;
      i
    }
  }

  // ---- Histories ----

  datatype Op<K, V> = SetOp(key: K, value: V) | DelOp(key: K) | PopLast | PopFirst | ClearOp

  /** What each operation does to keys and values, failed ones included. */
  function Apply<K(==), V>(c: Contents<K, V>, op: Op<K, V>): Contents<K, V> {
    match op
    case SetOp(k, v) => Put(c, k, v)
    case DelOp(k) => if k in c.values then Remove(c, k) else c
    case PopLast => if c.keys == [] then c else Remove(c, c.keys[|c.keys| - 1])
    case PopFirst => if c.keys == [] then c else Remove(c, c.keys[0])
    case ClearOp => Contents([], map[])
  }

  function After<K(==), V>(ops: seq<Op<K, V>>): Contents<K, V> {
    if ops == [] then Contents([], map[]) else Apply(After(ops[..|ops| - 1]), ops[|ops| - 1])
  }

  /** The operation that brought key k in: since then it has been there all the time. */
  ghost function Born<K, V>(ops: seq<Op<K, V>>, k: K): nat
    requires k in After(ops).values
  {
    var n := |ops| - 1;
    if k in After(ops[..n]).values && k in Apply(After(ops[..n]), ops[n]).values then Born(ops[..n], k) else n
  }

  /** Keys stand in the order in which they came in. */
  ghost predicate ByBirth<K, V>(ops: seq<Op<K, V>>) {
    var c := After(ops);
    Consistent(c) && forall i, j :: 0 <= i < j < |c.keys| ==> Born(ops, c.keys[i]) < Born(ops, c.keys[j])
  }

  lemma {:induction false} RemoveConsistent<K, V>(c: Contents<K, V>, k: K) returns (i: nat)
    requires Consistent(c) && k in c.values
    ensures Consistent(Remove(c, k))
    ensures i < |c.keys| && c.keys[i] == k && Remove(c, k).keys == Drop(c.keys, i)
  {
    i :| 0 <= i < |c.keys| && c.keys[i] == k;
    RemoveFirstAt(c.keys, i);
    DropMembers(c.keys, i);
    assert Remove(c, k).keys == Drop(c.keys, i);
  }

  lemma {:induction false} BornBound<K, V>(ops: seq<Op<K, V>>, k: K)
    requires k in After(ops).values
    ensures Born(ops, k) < |ops|
  {
    if ops != [] {
      var n := |ops| - 1;
      if k in After(ops[..n]).values {
        BornBound(ops[..n], k);
      }
    }
  }

  /** The key that an operation takes out, if any. */
  function Taken<K(==), V>(c: Contents<K, V>, op: Op<K, V>): Option<K> {
    match op
    case DelOp(k) => if k in c.values then Some(k) else None
    case PopLast => if c.keys == [] then None else Some(c.keys[|c.keys| - 1])
    case PopFirst => if c.keys == [] then None else Some(c.keys[0])
    case _ => None
  }

  /** The last operation leaves the keys as they are. */
  lemma {:induction false} SameKeys<K, V>(ops: seq<Op<K, V>>)
    requires ops != [] && ByBirth(ops[..|ops| - 1]) && After(ops).keys == After(ops[..|ops| - 1]).keys
    requires Consistent(After(ops))
    ensures ByBirth(ops)
  {
    var c, d := After(ops[..|ops| - 1]), After(ops);
    forall a, b | 0 <= a < b < |d.keys| ensures Born(ops, d.keys[a]) < Born(ops, d.keys[b]) {
      assert c.keys[a] in c.keys && d.keys[a] in d.keys && c.keys[b] in c.keys && d.keys[b] in d.keys;
    }
  }

  /** A key that is there before and after an operation keeps its birth. */
  lemma {:induction false} BornStays<K, V>(ops: seq<Op<K, V>>, k: K)
    requires ops != [] && k in After(ops[..|ops| - 1]).values && k in After(ops).values
    ensures Born(ops, k) == Born(ops[..|ops| - 1], k)
  {
  }

  lemma {:induction false} BirthsKept<K, V>(ops: seq<Op<K, V>>, x: K, y: K, i: nat, j: nat)
    requires ops != [] && ByBirth(ops[..|ops| - 1]) && i < j < |After(ops[..|ops| - 1]).keys|
    requires x == After(ops[..|ops| - 1]).keys[i] && y == After(ops[..|ops| - 1]).keys[j]
    requires x in After(ops).values && y in After(ops).values
    ensures Born(ops, x) < Born(ops, y)
  {
    var before := ops[..|ops| - 1];
    assert x in After(before).keys && y in After(before).keys;
    BornStays(ops, x);
    BornStays(ops, y);
  }

  /** The last operation drops one key from the list. */
  lemma {:induction false} DroppedKey<K, V>(ops: seq<Op<K, V>>, i: nat)
    requires ops != [] && ByBirth(ops[..|ops| - 1]) && i < |After(ops[..|ops| - 1]).keys|
    requires After(ops).keys == Drop(After(ops[..|ops| - 1]).keys, i) && Consistent(After(ops))
    ensures ByBirth(ops)
  {
    var c, d := After(ops[..|ops| - 1]), After(ops);
    forall a, b | 0 <= a < b < |d.keys| ensures Born(ops, d.keys[a]) < Born(ops, d.keys[b]) {
      DropAt(c.keys, i, a);
      DropAt(c.keys, i, b);
      assert d.keys[a] in d.keys && d.keys[b] in d.keys;
      BirthsKept(ops, d.keys[a], d.keys[b], if a < i then a else a + 1, if b < i then b else b + 1);
    }
  }

  lemma {:induction false} NewKeyIsLast<K, V>(ops: seq<Op<K, V>>)
    requires ops != [] && ByBirth(ops[..|ops| - 1]) && ops[|ops| - 1].SetOp?
    requires ops[|ops| - 1].key !in After(ops[..|ops| - 1]).values
    ensures ByBirth(ops)
  {
    var before, k := ops[..|ops| - 1], ops[|ops| - 1].key;
    var c, d := After(before), After(ops);
    assert d.keys == c.keys + [k] && d.values.Keys == c.values.Keys + {k};
    forall a, b | 0 <= a < b < |d.keys| ensures Born(ops, d.keys[a]) < Born(ops, d.keys[b]) {
      var x, y := d.keys[a], d.keys[b];
      assert x == c.keys[a] && x in c.keys;
      if b < |c.keys| {
        assert y == c.keys[b] && y in c.keys;
        BirthsKept(ops, x, y, a, b);
      } else {
        BornStays(ops, x);
        BornBound(before, x);
      }
    }
  }

  /** First-insertion order, whatever the history: setting a key again never moves it. */
  lemma {:induction false} OrderIsByBirth<K, V>(ops: seq<Op<K, V>>)
    ensures ByBirth(ops)
  {
    if ops != [] {
      var n := |ops| - 1;
      var c, op := After(ops[..n]), ops[n];
      OrderIsByBirth(ops[..n]);
      if op.SetOp? {
        if op.key in c.values {
          SameKeys(ops);
        } else {
          NewKeyIsLast(ops);
        }
      } else if !op.ClearOp? {
        if Taken(c, op).None? {
          SameKeys(ops);
        } else {
          var k := Taken(c, op).value;
          assert k in c.values by { assert op.DelOp? || k in c.keys; }
          var i := RemoveConsistent(c, k);
          DroppedKey(ops, i);
        }
      }
    }
  }

  /** Operation i is the last one that sets key k. */
  ghost predicate LastSet<K, V>(ops: seq<Op<K, V>>, k: K, i: nat) {
    i < |ops| && ops[i].SetOp? && ops[i].key == k
    && forall j :: i < j < |ops| && ops[j].SetOp? ==> ops[j].key != k
  }

  /** The value that the last such operation brings, which is not older than the key itself. */
  ghost predicate SetLast<K, V>(ops: seq<Op<K, V>>, k: K, v: V)
    requires k in After(ops).values
  {
    exists i :: Born(ops, k) <= i < |ops| && LastSet(ops, k, i) && ops[i].value == v
  }

  /** Every key that is there has the value it was set to last. */
  ghost predicate ByLastSet<K, V>(ops: seq<Op<K, V>>) {
    forall k :: k in After(ops).values ==> SetLast(ops, k, After(ops).values[k])
  }

  lemma {:induction false} SetJustNow<K, V>(ops: seq<Op<K, V>>, k: K)
    requires ops != [] && ops[|ops| - 1].SetOp? && ops[|ops| - 1].key == k
    ensures k in After(ops).values && SetLast(ops, k, After(ops).values[k])
  {
    BornBound(ops, k);
    assert LastSet(ops, k, |ops| - 1);
  }

  lemma {:induction false} SetBefore<K, V>(ops: seq<Op<K, V>>, k: K)
    requires ops != [] && ByLastSet(ops[..|ops| - 1]) && Consistent(After(ops[..|ops| - 1]))
    requires k in After(ops).values && !(ops[|ops| - 1].SetOp? && ops[|ops| - 1].key == k)
    ensures SetLast(ops, k, After(ops).values[k])
  {
    var before := ops[..|ops| - 1];
    assert k in After(before).values && After(ops).values[k] == After(before).values[k];
    BornStays(ops, k);
    var i :| Born(before, k) <= i < |before| && LastSet(before, k, i) && before[i].value == After(before).values[k];
    assert LastSet(ops, k, i) by {
      forall j | i < j < |ops| && ops[j].SetOp? ensures ops[j].key != k {
        assert j < |before| ==> ops[j] == before[j];
      }
    }
  }

  /** Whatever the history: setting a key again gives it the new value, and nothing else touches a value. */
  lemma {:induction false} ValueIsLastSet<K, V>(ops: seq<Op<K, V>>)
    ensures ByLastSet(ops)
  {
    if ops != [] {
      var before, op := ops[..|ops| - 1], ops[|ops| - 1];
      ValueIsLastSet(before);
      OrderIsByBirth(before);
      forall k | k in After(ops).values ensures SetLast(ops, k, After(ops).values[k]) {
        if op.SetOp? && op.key == k {
          SetJustNow(ops, k);
        } else {
          SetBefore(ops, k);
        }
      }
    }
  }

  // ---- The class goes through the same histories ----

  /** The method call that an operation stands for. */
  method Perform<K(==), V(==)>(d: OrderedDict<K, V>, op: Op<K, V>)
    requires d.Valid()
    modifies d, d.end, d.cells
    ensures d.Valid() && d.View() == Apply(old(d.View()), op)
    ensures d.end == old(d.end) || fresh(d.end)
    ensures fresh(set c | c in d.cells && c !in old(d.cells))
  {
    d.ViewConsistent();
    match op {
      case SetOp(k, v) =>
        d.SetItem(k, v);
      case DelOp(k) =>
        var found, i := d.DelItem(k);
      case PopLast =>
        var item := d.PopItem(true);
      case PopFirst =>
        var item := d.PopItem(false);
      case ClearOp =>
        d.Clear();
    }
  }

  /** A dictionary in the state that a sequence of operations leads to: its list holds the keys in the order of
      `OrderIsByBirth`, and every key has the value of `ValueIsLastSet`. */
  method Replay<K(==), V(==)>(ops: seq<Op<K, V>>) returns (d: OrderedDict<K, V>)
    ensures fresh(d) && d.Valid() && d.View() == After(ops) && ByBirth(ops) && ByLastSet(ops)
  {
    d := new OrderedDict();
    for i := 0 to |ops|
      invariant fresh(d) && fresh(d.end) && d.Valid() && fresh(set c | c in d.cells)
      invariant d.View() == After(ops[..i])
    {
      ghost var before := d.cells;
      Perform(d, ops[i]);
      forall c | c in d.cells ensures fresh(c) {
        assert c in before || c in (set x | x in d.cells && x !in before);
      }
      assert ops[..i + 1][..i] == ops[..i];
    }
    assert ops[..|ops|] == ops;
    OrderIsByBirth(ops);
    ValueIsLastSet(ops);
  }
}
