/** sorted(): a set of numbers in ascending order, for any strict total order. */
module Sorting {
  ghost predicate StrictOrder(less: (nat, nat) -> bool) {
    && (forall a :: !less(a, a))
    && (forall a, b, c :: less(a, b) && less(b, c) ==> less(a, c))
    && (forall a, b :: a == b || less(a, b) || less(b, a))
  }

  ghost predicate Ordered(less: (nat, nat) -> bool, s: seq<nat>) {
    forall i, j :: 0 <= i < j < |s| ==> less(s[i], s[j])
  }

  /** The elements of the set, in order. */
  ghost predicate Sorted(less: (nat, nat) -> bool, keys: set<nat>, s: seq<nat>) {
    Ordered(less, s) && forall a: nat :: a in s <==> a in keys
  }

  function Insert(less: (nat, nat) -> bool, a: nat, s: seq<nat>): seq<nat> {
    if s == [] then [a] else if less(a, s[0]) then [a] + s else [s[0]] + Insert(less, a, s[1..])
  }

  lemma {:induction false} InsertMembers(less: (nat, nat) -> bool, a: nat, s: seq<nat>, x: nat)
    ensures x in Insert(less, a, s) <==> x == a || x in s
  {
    if s != [] && !less(a, s[0]) {
      InsertMembers(less, a, s[1..], x);
      assert s == [s[0]] + s[1..];
    }
  }

  lemma {:induction false} InsertOrdered(less: (nat, nat) -> bool, a: nat, s: seq<nat>)
    requires StrictOrder(less) && Ordered(less, s) && a !in s
    ensures Ordered(less, Insert(less, a, s))
  {
    if s != [] {
      if less(a, s[0]) {
        forall j | 0 <= j < |s| ensures less(a, s[j]) {
          assert j > 0 ==> less(s[0], s[j]);
        }
      } else {
        var rest := Insert(less, a, s[1..]);
        InsertOrdered(less, a, s[1..]);
        forall j | 0 <= j < |rest| ensures less(s[0], rest[j]) {
          InsertMembers(less, a, s[1..], rest[j]);
          assert rest[j] in rest;
        }
      }
    }
  }

  method Sort(keys: set<nat>, less: (nat, nat) -> bool) returns (s: seq<nat>)
    requires StrictOrder(less)
    ensures Sorted(less, keys, s)
  {
    s := [];
    var rest := keys;
    while rest != {}
      invariant rest <= keys && Sorted(less, keys - rest, s)
      decreases |rest|
    {
      var a :| a in rest;
      InsertOrdered(less, a, s);
      forall x: nat ensures x in Insert(less, a, s) <==> x in keys - (rest - {a}) {
        InsertMembers(less, a, s, x);
      }
      s := Insert(less, a, s);
      rest := rest - {a};
    }
  }
}
