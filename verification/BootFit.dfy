/** Where the boot loader may put itself: the search for the first block-aligned gap. */
module BootFit {
  import opened Arith
  import opened Bits
  import opened BootLayout

  /** The test of the search: the loader at addr would collide with the area. */
  predicate Blocked(a: Area, addr: nat) {
    (a.ptr <= addr < a.ptr + a.size) || (addr < a.ptr < addr + SIZEOF_BOOT_CODE)
  }

  predicate InArea(a: Area, x: nat) { a.ptr <= x < a.ptr + a.size }

  predicate InLoader(addr: nat, x: nat) { addr <= x < addr + SIZEOF_BOOT_CODE }

  /** Some byte belongs to both. */
  ghost predicate Meets(a: Area, addr: nat) {
    exists x: nat :: InArea(a, x) && InLoader(addr, x)
  }

  lemma {:induction false} BlockedIffMeets(a: Area, addr: nat)
    requires a.size > 0
    ensures Blocked(a, addr) <==> Meets(a, addr)
  {
    if Blocked(a, addr) {
      var x := if a.ptr <= addr then addr else a.ptr;
      assert InArea(a, x) && InLoader(addr, x);
    }
  }

  /** None of the first n areas is in the way. */
  ghost predicate Free(areas: seq<Area>, n: nat, addr: nat)
    requires n <= |areas|
  {
    forall i :: 0 <= i < n ==> !Blocked(areas[i], addr)
  }

  ghost predicate Sorted(areas: seq<Area>) {
    forall i, j :: 0 <= i < j < |areas| ==> areas[i].ptr + areas[i].size <= areas[j].ptr
  }

  /** x rounded up to a multiple of 2^k, by the mask of the source. */
  function AlignUp(x: nat, k: nat): nat { MaskDown(x + Pow2(k) - 1, k) }

  lemma {:induction false} AlignUpIs(x: nat, k: nat)
    ensures AlignUp(x, k) == x + Pow2(k) - 1 - (x + Pow2(k) - 1) % Pow2(k)
  {
    MaskDownIs(x + Pow2(k) - 1, k);
  }

  /** r is the least multiple of p that is not below x. */
  ghost predicate LeastMultiple(x: nat, p: nat, r: nat)
    requires p > 0
  {
    x <= r < x + p && r % p == 0 && forall y :: x <= y && y % p == 0 ==> r <= y
  }

  lemma {:induction false} AlignUpIsLeast(x: nat, k: nat)
    ensures LeastMultiple(x, Pow2(k), AlignUp(x, k))
  {
    var p := Pow2(k);
    AlignUpIs(x, k);
    RoundedUp(x, p);
  }

  lemma {:induction false} RoundedUp(x: nat, p: nat)
    requires p > 0
    ensures LeastMultiple(x, p, x + p - 1 - (x + p - 1) % p)
  {
    var t := x + p - 1;
    var q, m := t / p, t % p;
    assert t - m == q * p;
    ModUnique(q * p, q, 0, p);
    forall y | x <= y && y % p == 0 ensures q * p <= y {
      MultipleAbove(q, y, p);
    }
  }

  /** There is no multiple of p strictly between (q - 1) p and q p. */
  lemma {:induction false} MultipleAbove(q: int, y: nat, p: nat)
    requires p > 0 && y % p == 0 && q * p - p < y
    ensures q * p <= y
  {
    var z := y / p;
    assert y == z * p;
    Distribute(q, -1, p);
    if z <= q - 1 {
      MulMono(z, q - 1, p);
    } else {
      MulMono(q, z, p);
    }
  }

  /** First fit: the least aligned address from the start of L2 on that no area blocks. */
  ghost predicate FirstFit(areas: seq<Area>, k: nat, addr: nat) {
    && L2_BASE <= addr && addr % Pow2(k) == 0 && Free(areas, |areas|, addr)
    && forall a: nat :: L2_BASE <= a < addr && a % Pow2(k) == 0 ==> !Free(areas, |areas|, a)
  }

  /** The search position after the first n areas have been looked at. */
  ghost predicate Scanned(areas: seq<Area>, n: nat, k: nat, addr: nat)
    requires n <= |areas|
  {
    && L2_BASE <= addr && addr % Pow2(k) == 0 && Free(areas, n, addr)
    && forall a: nat :: L2_BASE <= a < addr && a % Pow2(k) == 0 ==> !Free(areas, n, a)
  }

  function Advance(a: Area, k: nat, addr: nat): nat {
    if Blocked(a, addr) then AlignUp(a.ptr + a.size, k) else addr
  }

  lemma {:induction false} ScanNext(areas: seq<Area>, n: nat, k: nat, addr: nat)
    requires Sorted(areas) && n < |areas| && k <= 16 && Scanned(areas, n, k, addr)
    requires areas[n].ptr + areas[n].size + Pow2(k) <= U32
    ensures Scanned(areas, n + 1, k, Advance(areas[n], k, addr))
  {
    if Blocked(areas[n], addr) {
      ScanMoved(areas, n, k, addr);
    } else {
      forall x: nat | L2_BASE <= x < addr && x % Pow2(k) == 0 ensures !Free(areas, n + 1, x) {
        assert !Free(areas, n, x);
      }
    }
  }

  lemma {:induction false} ScanMoved(areas: seq<Area>, n: nat, k: nat, addr: nat)
    requires Sorted(areas) && n < |areas| && k <= 16 && Scanned(areas, n, k, addr) && Blocked(areas[n], addr)
    requires areas[n].ptr + areas[n].size + Pow2(k) <= U32
    ensures Scanned(areas, n + 1, k, AlignUp(areas[n].ptr + areas[n].size, k))
  {
    var end := areas[n].ptr + areas[n].size;
    var next := AlignUp(end, k);
    AlignUpIsLeast(end, k);
    forall i | 0 <= i < n + 1 ensures !Blocked(areas[i], next) {
      assert areas[i].ptr + areas[i].size <= end;
    }
    forall x: nat | L2_BASE <= x < next && x % Pow2(k) == 0 ensures !Free(areas, n + 1, x) {
      if x < addr {
        assert !Free(areas, n, x);
      } else {
        assert x < end;
        assert Blocked(areas[n], x);
      }
    }
  }

  lemma {:induction false} ScanStart(areas: seq<Area>, k: nat)
    requires k <= 16
    ensures Scanned(areas, 0, k, L2_BASE)
  {
    BaseIsAligned(k);
  }

  lemma {:induction false} BaseIsAligned(k: nat)
    requires k <= 16
    ensures L2_BASE % Pow2(k) == 0
  {
    assert Pow2(26) == 67108864 by {
      PowersOfTwo();
      assert Pow2(24) == 16777216;
    }
    PowAdd(26 - k, k);
    MultipleIsAligned(7, Pow2(26 - k), Pow2(k));
  }

  lemma {:induction false} MultipleIsAligned(c: nat, a: nat, p: nat)
    requires p > 0
    ensures (c * (a * p)) % p == 0
  {
    assert c * (a * p) == (c * a) * p;
    ModUnique(c * (a * p), c * a, 0, p);
  }

  lemma {:induction false} PowAdd(a: nat, b: nat)
    ensures Pow2(a) * Pow2(b) == Pow2(a + b)
  {
    if a > 0 {
      PowAdd(a - 1, b);
      assert 2 * Pow2(a - 1) * Pow2(b) == 2 * (Pow2(a - 1) * Pow2(b));
    }
  }

  /** The whole search is a first fit, whatever the areas are, as long as they are sorted and disjoint. */
  lemma {:induction false} ScanEnd(areas: seq<Area>, k: nat, addr: nat)
    requires Scanned(areas, |areas|, k, addr)
    ensures FirstFit(areas, k, addr)
  {
  }

  /** No byte of a loader at addr lies in an area. */
  ghost predicate Apart(areas: seq<Area>, addr: nat) { forall i :: 0 <= i < |areas| ==> !Meets(areas[i], addr) }

  /** The best place there is: the least aligned address at which the loader shares no byte with an area. */
  ghost predicate Best(areas: seq<Area>, k: nat, addr: nat) {
    && L2_BASE <= addr && addr % Pow2(k) == 0 && Apart(areas, addr)
    && forall a: nat :: L2_BASE <= a < addr && a % Pow2(k) == 0 ==> !Apart(areas, a)
  }

  /** An empty area begins strictly inside a loader at addr. */
  ghost predicate EmptyInside(areas: seq<Area>, addr: nat) {
    exists i :: 0 <= i < |areas| && areas[i].size == 0 && addr < areas[i].ptr < addr + SIZEOF_BOOT_CODE
  }

  /** Only an empty area inside makes the test of the search differ from sharing a byte. */
  lemma {:induction false} FreeIff(areas: seq<Area>, addr: nat)
    ensures Free(areas, |areas|, addr) <==> Apart(areas, addr) && !EmptyInside(areas, addr)
  {
    forall i | 0 <= i < |areas|
      ensures Blocked(areas[i], addr)
              <==> Meets(areas[i], addr) || (areas[i].size == 0 && addr < areas[i].ptr < addr + SIZEOF_BOOT_CODE)
    {
      if areas[i].size > 0 {
        BlockedIffMeets(areas[i], addr);
      }
    }
  }

  /** The search finds the best place exactly when no empty area begins inside a loader put there. */
  lemma {:induction false} OptimalIff(areas: seq<Area>, k: nat, addr: nat, best: nat)
    requires FirstFit(areas, k, addr) && Best(areas, k, best)
    ensures best <= addr
    ensures addr == best <==> !EmptyInside(areas, best)
  {
    FreeIff(areas, addr);
    FreeIff(areas, best);
  }

  lemma {:induction false} BestExists(areas: seq<Area>, k: nat, addr: nat) returns (best: nat)
    requires L2_BASE <= addr && addr % Pow2(k) == 0 && Apart(areas, addr)
    ensures Best(areas, k, best)
    decreases addr
  {
    if a: nat :| L2_BASE <= a < addr && a % Pow2(k) == 0 && Apart(areas, a) {
      best := BestExists(areas, k, a);
    } else {
      best := addr;
    }
  }

  /** So it is always found when no area is empty. */
  lemma {:induction false} FirstFitIsOptimal(areas: seq<Area>, k: nat, addr: nat)
    requires FirstFit(areas, k, addr) && forall i :: 0 <= i < |areas| ==> areas[i].size > 0
    ensures Best(areas, k, addr)
  {
    FreeIff(areas, addr);
    var best := BestExists(areas, k, addr);
    OptimalIff(areas, k, addr, best);
  }

  /** An empty area still pushes the loader away. */
  lemma {:induction false} EmptyAreaMovesLoader(addr: nat)
    requires addr == AlignUp(L2_BASE + 1, 12)
    ensures addr == L2_BASE + 4096 && FirstFit([Area(0, L2_BASE + 1, 0, 0)], 12, addr)
    ensures Best([Area(0, L2_BASE + 1, 0, 0)], 12, L2_BASE)
  {
    var areas := [Area(0, L2_BASE + 1, 0, 0)];
    PowersOfTwo();
    ScanStart(areas, 12);
    ScanNext(areas, 0, 12, L2_BASE);
    ScanEnd(areas, 12, addr);
    AlignUpIsLeast(L2_BASE + 1, 12);
    assert (L2_BASE + 4096) % 4096 == 0;
  }
}
