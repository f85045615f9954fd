/** Powers of two, and bit strings, written most significant bit first. */
module Bits {
  import opened Arith

  function Pow2(n: nat): (p: nat)
    ensures p >= 1
  {
    if n == 0 then 1 else 2 * Pow2(n - 1)
  }

  /** The n lowest bits of v. */
  function Digits(v: nat, n: nat): (b: seq<bool>)
    ensures |b| == n
  {
    if n == 0 then [] else Digits(v / 2, n - 1) + [v % 2 == 1]
  }

  function ValueOf(b: seq<bool>): nat {
    if b == [] then 0 else 2 * ValueOf(b[..|b| - 1]) + if b[|b| - 1] then 1 else 0
  }

  /** The number in the w bits of b whose lowest one is bit lo, counted from the right end. */
  function Field(b: seq<bool>, lo: nat, w: nat): nat
    requires lo + w <= |b|
  {
    ValueOf(b[|b| - lo - w..|b| - lo])
  }

  lemma {:induction false} DigitsValue(v: nat, n: nat)
    requires v < Pow2(n)
    ensures ValueOf(Digits(v, n)) == v
  {
    if n > 0 {
      DigitsValue(v / 2, n - 1);
      assert Digits(v, n)[..n - 1] == Digits(v / 2, n - 1);
    }
  }

  lemma {:induction false} ValueDigits(b: seq<bool>)
    ensures ValueOf(b) < Pow2(|b|) && Digits(ValueOf(b), |b|) == b
  {
    if b != [] {
      ValueDigits(b[..|b| - 1]);
    }
  }

  lemma {:induction false} ValueOfFalse(b: seq<bool>)
    requires forall i :: 0 <= i < |b| ==> !b[i]
    ensures ValueOf(b) == 0
  {
    if b != [] {
      ValueOfFalse(b[..|b| - 1]);
    }
  }

  lemma {:induction false} Pow2Mono(k: nat, n: nat)
    requires k <= n
    ensures Pow2(k) <= Pow2(n)
  {
    if k < n {
      Pow2Mono(k, n - 1);
    }
  }

  lemma {:induction false} HalfMod(x: nat, p: nat)
    requires p > 0
    ensures x % (2 * p) == 2 * ((x / 2) % p) + x % 2
  {
    var q, r := (x / 2) / p, (x / 2) % p;
    assert x / 2 == q * p + r;
    assert x == 2 * (x / 2) + x % 2;
    assert x == q * (2 * p) + (2 * r + x % 2) by {
      Distribute(q * p, q * p, 1);
      assert q * (2 * p) == 2 * (q * p);
    }
    ModUnique(x, q, 2 * r + x % 2, 2 * p);
  }

  lemma {:induction false} ModUnique(x: nat, q: nat, r: nat, d: nat)
    requires r < d && x == q * d + r
    ensures x % d == r && x / d == q
  {
    SameQuotient(x / d, x % d, q, r, d);
  }
}
