/** The flash image and the structures of the ROM boot loader, and the arithmetic of loading one area
    in blocks. Sizes and offsets are those of a 32-bit target with 4-byte alignment. */
module BootLayout {
  import opened Arith
  import opened Bits
  import opened Words

  type Byte = x: int | 0 <= x < 256

  const U32 := 0x1_0000_0000
  const FLASH_BLOCK_SIZE := 4096
  const HYPER_FLASH_BLOCK_SIZE := 1024
  const MAX_NB_AREA := 16
  const L2_BASE := 0x1C00_0000
  const L2_END := 0x1D00_0000

  // Offsets into boot_code_t
  const UDMA_BUFFER := 4096
  const SPI_FLASH_ID := 5120
  const HEADER := 5128
  const MEM_AREA := 5144
  const HYPERFLASH := 6428
  const BLOCK_SIZE := 6432
  const QPI := 6436
  const SIZEOF_BOOT_CODE := 6440

  const SIZEOF_HEADER := 16
  const SIZEOF_AREA := 16

  datatype Area = Area(start: nat, ptr: nat, size: nat, blocks: nat)

  function Combine(b0: Byte, b1: Byte, b2: Byte, b3: Byte): (w: nat)
    ensures w < U32
  {
    b0 + 256 * b1 + 65536 * b2 + 16777216 * b3
  }

  lemma {:induction false} SplitBytes(v: nat)
    requires v < U32
    ensures v / 16777216 < 256
    ensures Combine(v % 256, v / 256 % 256, v / 65536 % 256, v / 16777216) == v
  {
    assert v / 65536 == v / 256 / 256 && v / 16777216 == v / 65536 / 256;
  }

  function WordAt(s: seq<Byte>, a: nat): (w: nat)
    requires a + 4 <= |s|
    ensures w < U32
  {
    Combine(s[a], s[a + 1], s[a + 2], s[a + 3])
  }

  function NbAreas(flash: seq<Byte>): nat
    requires |flash| >= SIZEOF_HEADER
  {
    WordAt(flash, 4)
  }

  function AreaAt(flash: seq<Byte>, i: nat): Area
    requires SIZEOF_HEADER + 16 * (i + 1) <= |flash|
  {
    var a := SIZEOF_HEADER + 16 * i;
    Area(WordAt(flash, a), WordAt(flash, a + 4), WordAt(flash, a + 8), WordAt(flash, a + 12))
  }

  lemma {:induction false} FromFour(d: seq<nat>)
    requires |d| == 4
    ensures FromBytes(d) == d[0] + 256 * d[1] + 65536 * d[2] + 16777216 * d[3]
  {
    var d1, d2, d3 := d[1..], d[2..], d[3..];
    assert d1[1..] == d2 && d2[1..] == d3 && d3[1..] == [];
    assert FromBytes(d3) == d[3];
    assert FromBytes(d2) == d[2] + 256 * FromBytes(d3);
    assert FromBytes(d1) == d[1] + 256 * FromBytes(d2);
  }

  /** Words are little-endian, as `Words.FromBytes` defines it. */
  lemma {:induction false} LittleEndian(s: seq<Byte>, a: nat)
    requires a + 4 <= |s|
    ensures WordAt(s, a) == FromBytes(s[a..a + 4])
  {
    FromFour(s[a..a + 4]);
  }

  /** The image begins with a header, whose second word is the number of areas, and 16 bytes for each area: where it is
      in flash, where it goes, how long it is, and how many blocks are to be read. */
  lemma {:induction false} TableFormat(flash: seq<Byte>, i: nat)
    requires 16 * i + 32 <= |flash|
    ensures NbAreas(flash) == FromBytes(flash[4..8])
    ensures var a, e := AreaAt(flash, i), flash[16 * i + 16..16 * i + 32];
            && a.start == FromBytes(e[0..4]) && a.ptr == FromBytes(e[4..8])
            && a.size == FromBytes(e[8..12]) && a.blocks == FromBytes(e[12..16])
  {
    var b := 16 * i + 16;
    var e := flash[b..b + 16];
    LittleEndian(flash, 4);
    LittleEndian(flash, b);
    LittleEndian(flash, b + 4);
    LittleEndian(flash, b + 8);
    LittleEndian(flash, b + 12);
    assert e[0..4] == flash[b..b + 4] && e[4..8] == flash[b + 4..b + 8];
    assert e[8..12] == flash[b + 8..b + 12] && e[12..16] == flash[b + 12..b + 16];
  }

  /** The sum of two unsigned 32-bit numbers. */
  function Wrap(a: nat): (r: nat)
    requires a < 2 * U32
    ensures r < U32 && r == a % U32
  {
    if a < U32 then a else a - U32
  }

  // ---- Rounding ----

  function RoundUp4(x: nat): (r: nat)
    ensures x <= r < x + 4 && r % 4 == 0
  {
    (x + 3) / 4 * 4
  }

  /** x & ~(2^k - 1). The source writes 0xfffffffc for ~3. */
  function MaskDown(x: nat, k: nat): nat { AndNot(x, Pow2(k) - 1) }

  lemma {:induction false} PowersOfTwo()
    ensures Pow2(2) == 4 && Pow2(10) == HYPER_FLASH_BLOCK_SIZE && Pow2(12) == FLASH_BLOCK_SIZE && Pow2(32) == U32
  {
    assert Pow2(4) == 16 && Pow2(6) == 64 && Pow2(8) == 256;
    assert Pow2(14) == 16384 && Pow2(16) == 65536 && Pow2(18) == 262144 && Pow2(20) == 1048576;
    assert Pow2(22) == 4194304 && Pow2(24) == 16777216 && Pow2(26) == 67108864 && Pow2(28) == 268435456;
    assert Pow2(30) == 1073741824;
  }

  lemma {:induction false} MaskDownIs(x: nat, k: nat)
    ensures MaskDown(x, k) == x - x % Pow2(k)
  {
    AndNotOnes(x, k);
  }

  // ---- Loading one area in blocks ----

  /** Bytes moved by one iteration with `size` bytes left to go. */
  function IterSize(size: nat, bs: nat): nat {
    if bs > size then RoundUp4(size) else bs
  }

  /** The 32-bit counter of bytes left wraps around when the last block is rounded up. */
  function Left(size: nat, iterSize: nat): (r: nat)
    requires size < U32 && iterSize <= U32
    ensures r < U32
  {
    if iterSize <= size then size - iterSize else size - iterSize + U32
  }

  /** Bytes moved by n iterations. */
  function Extent(size: nat, n: nat, bs: nat): nat
    requires size < U32 && bs <= U32 - 4
    decreases n
  {
    if n == 0 then 0
    else IterSize(size, bs) + Extent(Left(size, IterSize(size, bs)), n - 1, bs)
  }

  lemma {:induction false} ExtentStep(size: nat, n: nat, bs: nat)
    requires size < U32 && bs <= U32 - 4 && n > 0
    ensures Extent(size, n, bs) == IterSize(size, bs) + Extent(Left(size, IterSize(size, bs)), n - 1, bs)
    ensures size >= bs ==> Extent(size, n, bs) == bs + Extent(size - bs, n - 1, bs)
  {
  }

  function BlocksNeeded(size: nat, bs: nat): nat
    requires bs > 0
  {
    if size == 0 then 0 else if size < bs then 1 else 1 + BlocksNeeded(size - bs, bs)
  }

  lemma {:induction false} BlocksNeededIsCeiling(size: nat, bs: nat)
    requires bs > 0
    ensures BlocksNeeded(size, bs) == (size + bs - 1) / bs
  {
    if size == 0 {
      ModUnique(bs - 1, 0, bs - 1, bs);
    } else if size < bs {
      ModUnique(size + bs - 1, 1, size - 1, bs);
    } else {
      BlocksNeededIsCeiling(size - bs, bs);
      DivShift(size - 1, bs);
    }
  }

  lemma {:induction false} ExtentZero(n: nat, bs: nat)
    requires 0 < bs <= U32 - 4
    ensures Extent(0, n, bs) == 0
    decreases n
  {
    if n > 0 {
      ExtentZero(n - 1, bs);
    }
  }

  lemma {:induction false} DivShift(x: nat, d: nat)
    requires d > 0
    ensures (x + d) / d == x / d + 1
  {
    var q, r := x / d, x % d;
    assert x == q * d + r;
    Distribute(q, 1, d);
    ModUnique(x + d, q + 1, r, d);
  }

  lemma {:induction false} RoundShift(x: nat, bs: nat)
    requires bs % 4 == 0
    ensures RoundUp4(x + bs) == RoundUp4(x) + bs
  {
  }

  /** How the bytes e that n iterations move relate to the size of an area that needs b blocks. */
  ghost predicate Moves(e: nat, size: nat, n: nat, b: nat) {
    if n < b then e < size
    else if n == b || size % 4 == 0 then e == RoundUp4(size)
    else e > RoundUp4(size)
  }

  lemma {:induction false} MovesOneMore(e: nat, size: nat, n: nat, b: nat, bs: nat)
    requires Moves(e, size, n, b) && bs % 4 == 0
    ensures Moves(bs + e, size + bs, n + 1, b + 1)
  {
    RoundShift(size, bs);
    assert (size + bs) % 4 == size % 4;
  }

  /** Too few blocks cut the area short. More than needed, with a size that is not a multiple of four,
      make the loader run on past the end, because the counter of bytes left has wrapped around. */
  lemma {:induction false} ExtentCases(size: nat, n: nat, bs: nat)
    requires size < U32 && 4 <= bs <= 0x1_0000 && bs % 4 == 0
    ensures Moves(Extent(size, n, bs), size, n, BlocksNeeded(size, bs))
    decreases n
  {
    if n == 0 {
    } else if size >= bs {
      ExtentCases(size - bs, n - 1, bs);
      MovesOneMore(Extent(size - bs, n - 1, bs), size - bs, n - 1, BlocksNeeded(size - bs, bs), bs);
      ExtentStep(size, n, bs);
    } else if size == 0 {
      ExtentZero(n, bs);
    } else {
      ExtentOfLastBlock(size, n, bs);
    }
  }

  /** Loading moves the whole area, and stops at the next word boundary, exactly when the block count
      is the number of blocks needed, or is larger and the size is a multiple of four. */
  lemma {:induction false} ExtentExactIff(size: nat, n: nat, bs: nat)
    requires size < U32 && 4 <= bs <= 0x1_0000 && bs % 4 == 0
    ensures Extent(size, n, bs) == RoundUp4(size)
            <==> n == BlocksNeeded(size, bs) || (n > BlocksNeeded(size, bs) && size % 4 == 0)
    ensures Extent(size, n, bs) >= size <==> n >= BlocksNeeded(size, bs)
  {
    ExtentCases(size, n, bs);
  }

  lemma {:induction false} ExtentOfLastBlock(size: nat, n: nat, bs: nat)
    requires 0 < size < bs <= 0x1_0000 && bs % 4 == 0 && n > 0
    ensures RoundUp4(size) <= bs
    ensures if n == 1 || size % 4 == 0 then Extent(size, n, bs) == RoundUp4(size)
            else Extent(size, n, bs) > RoundUp4(size)
  {
    var left := Left(size, RoundUp4(size));
    if size % 4 == 0 {
      assert left == 0;
      ExtentZero(n - 1, bs);
    } else {
      assert left >= U32 - 3;
      assert n > 1 ==> Extent(left, n - 1, bs) >= IterSize(left, bs) == bs;
    }
  }
}
