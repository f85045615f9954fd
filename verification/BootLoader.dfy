/** The ROM boot loader: it reads the table of areas, moves its own state out of their way, and
    copies every area from flash to memory. Memory is the whole 32-bit address space. */
module BootLoader {
  import opened BootFit
  import opened BootLayout
  import opened Bits
  import opened Words

  /** Address bits that the SPI read command carries. */
  const SPI_SPACE := 0x100_0000

  /** The end of memArea in boot_code_t. */
  const TABLE_END := 5400

  /** Byte x of the loader is neither in its two buffers nor in its copy of the table: state, stack, configuration. */
  predicate Private(data: nat, x: nat) {
    data + SPI_FLASH_ID <= x < data + HEADER || data + TABLE_END <= x < data + SIZEOF_BOOT_CODE
  }

  /** What an area occupies once it is loaded. */
  function Span(a: Area, bs: nat): nat
    requires a.size < U32 && bs <= FLASH_BLOCK_SIZE
  {
    Extent(a.size, a.blocks, bs)
  }

  /** Byte x belongs to one of the first n areas as they are loaded. */
  ghost predicate Covered(areas: seq<Area>, n: nat, x: int, bs: nat)
    requires n <= |areas| && bs <= FLASH_BLOCK_SIZE && forall i :: 0 <= i < n ==> areas[i].size < U32
  {
    exists i :: 0 <= i < n && areas[i].ptr <= x < areas[i].ptr + Span(areas[i], bs)
  }

  predicate Disjoint(a: nat, n: nat, b: nat, m: nat) { a + n <= b || b + m <= a }

  /** Byte x holds hyperflash, blockSize or qpi. */
  predicate InConfiguration(data: nat, x: nat) { data + HYPERFLASH <= x < data + SIZEOF_BOOT_CODE }

  class BootRom {
    const mem: array<Byte>
    const flash: seq<Byte>
    /** The seven command words that a SPI read puts in the uDMA buffer, as bytes. */
    const spiCommands: (nat, nat) -> seq<Byte>

    ghost predicate Valid() {
      mem.Length == U32 && SIZEOF_HEADER <= |flash| < U32 && forall a, n :: |spiCommands(a, n)| == 28
    }

    function Word(a: nat): (w: nat)
      requires a + 4 <= mem.Length
      reads mem
      ensures w < U32
    {
      Combine(mem[a], mem[a + 1], mem[a + 2], mem[a + 3])
    }

    method StoreWord(a: nat, v: nat)
      requires a + 4 <= mem.Length && v < U32
      modifies mem
      ensures Word(a) == v
      ensures forall x :: 0 <= x < mem.Length && !(a <= x < a + 4) ==> mem[x] == old(mem[x])
    {
      SplitBytes(v);
      mem[a] := v % 256;
      mem[a + 1] := v / 256 % 256;
      mem[a + 2] := v / 65536 % 256;
      mem[a + 3] := v / 16777216;
    }

    /** data->hyperflash */
    predicate Hyper(data: nat)
      requires data + SIZEOF_BOOT_CODE <= mem.Length
      reads mem
    {
      Word(data + HYPERFLASH) != 0
    }

    method FlashRead(data: nat, flashAddr: nat, l2Addr: nat, size: nat)
      requires Valid() && data + SIZEOF_BOOT_CODE <= U32 && l2Addr + size <= U32 && flashAddr + size <= |flash|
      requires !Hyper(data) ==> |flash| <= SPI_SPACE
      modifies mem
      ensures forall a :: l2Addr <= a < l2Addr + size ==> mem[a] == flash[flashAddr + (a - l2Addr)]
      ensures forall a :: 0 <= a < U32 && !(l2Addr <= a < l2Addr + size)
                          && !(data + UDMA_BUFFER <= a < data + SPI_FLASH_ID)
                          ==> mem[a] == old(mem[a])
    {
      var from := flashAddr;
      if !Hyper(data) {
        var cmd := spiCommands(flashAddr, size);
        forall a | data + UDMA_BUFFER <= a < data + UDMA_BUFFER + 28 {
          mem[a] := cmd[a - data - UDMA_BUFFER];
        }
        from := flashAddr % 0x100_0000;
        assert size > 0 ==> from == flashAddr;
      }
      forall a | l2Addr <= a < l2Addr + size {
        mem[a] := flash[from + (a - l2Addr)];
      }
    }

    method MemCpy(dest: nat, src: nat, n: nat)
      requires Valid() && dest + n <= U32 && src + n <= U32 && Disjoint(dest, n, src, n)
      modifies mem
      ensures forall a :: dest <= a < dest + n ==> mem[a] == old(mem[src + (a - dest)])
      ensures forall a :: 0 <= a < U32 && !(dest <= a < dest + n) ==> mem[a] == old(mem[a])
    {
      var d, s, len := dest, src, n;
      while len > 0
        invariant 0 <= len <= n && d == dest + (n - len) && s == src + (n - len)
        invariant forall a :: dest <= a < d ==> mem[a] == old(mem[src + (a - dest)])
        invariant forall a :: 0 <= a < U32 && !(dest <= a < d) ==> mem[a] == old(mem[a])
      {
        len := len - 1;
        mem[d] := mem[s];
        d, s := d + 1, s + 1;
      }
    }

    /** The first n bytes from ptr on are those from start on in the flash. */
    ghost predicate Copied(ptr: nat, start: nat, n: nat)
      requires ptr + n <= mem.Length && start + n <= |flash|
      reads mem
    {
      forall a :: ptr <= a < ptr + n ==> mem[a] == flash[start + (a - ptr)]
    }

    /** A load of n bytes to ptr changes nothing else outside the loader. */
    twostate predicate OnlyChanges(data: nat, ptr: nat, n: nat)
      requires mem.Length == U32
      reads mem
    {
      forall a :: 0 <= a < U32 && !(ptr <= a < ptr + n) && !(data <= a < data + SIZEOF_BOOT_CODE) ==>
                    mem[a] == old(mem[a])
    }

    /** The loader keeps everything but its two buffers. */
    twostate predicate LoaderKept(data: nat)
      requires mem.Length == U32 && data + SIZEOF_BOOT_CODE <= U32
      reads mem
    {
      forall a :: data + SPI_FLASH_ID <= a < data + SIZEOF_BOOT_CODE ==> mem[a] == old(mem[a])
    }

    /** One block, straight to L2 or through the flash buffer. */
    method LoadBlock(data: nat, isL2Section: bool, flashAddr: nat, areaAddr: nat, iterSize: nat)
      requires Valid() && data + SIZEOF_BOOT_CODE <= U32 && iterSize <= FLASH_BLOCK_SIZE
      requires areaAddr + iterSize <= U32 && flashAddr + iterSize <= |flash|
      requires Disjoint(areaAddr, iterSize, data, SIZEOF_BOOT_CODE)
      requires !Hyper(data) ==> |flash| <= SPI_SPACE
      modifies mem
      ensures Copied(areaAddr, flashAddr, iterSize) && OnlyChanges(data, areaAddr, iterSize) && LoaderKept(data)
    {
      if isL2Section {
        FlashRead(data, flashAddr, areaAddr, iterSize);
      } else {
        FlashRead(data, flashAddr, data, iterSize);
        MemCpy(areaAddr, data, iterSize);
      }
    }

    method NextSize(size: nat, blockSize: nat) returns (iterSize: nat)
      requires size < U32 && blockSize <= FLASH_BLOCK_SIZE && blockSize % 4 == 0
      ensures iterSize == IterSize(size, blockSize) <= FLASH_BLOCK_SIZE
    {
      iterSize := blockSize;
      if iterSize > size {
        PowersOfTwo();
        MaskDownIs(Wrap(size + 3), 2);
        iterSize := MaskDown(Wrap(size + 3), 2);
      }
    }

    /** The block size of the loader, and a flash that its read command can address. */
    ghost predicate Configured(data: nat, bs: nat)
      requires data + SIZEOF_BOOT_CODE <= mem.Length
      reads mem
    {
      Word(data + BLOCK_SIZE) == bs && 4 <= bs <= FLASH_BLOCK_SIZE && bs % 4 == 0
      && (!Hyper(data) ==> |flash| <= SPI_SPACE)
    }

    /** The fields of the area descriptor at address `area`. */
    ghost predicate Describes(area: nat, d: Area)
      requires area + SIZEOF_AREA <= mem.Length
      reads mem
    {
      Word(area) == d.start && Word(area + 4) == d.ptr && Word(area + 8) == d.size && Word(area + 12) == d.blocks
    }

    /** n bytes can be read, and land outside the loader. */
    ghost predicate Fits(data: nat, d: Area, n: nat) {
      d.start + n <= |flash| && d.ptr + n <= U32 && Disjoint(d.ptr, n, data, SIZEOF_BOOT_CODE)
    }

    /** Where the loop of an area stands, when it is to copy n bytes in all: `done` bytes copied, k
        iterations and `size` bytes to go. */
    ghost predicate Progress(data: nat, d: Area, n: nat, bs: nat, done: nat, k: nat,
                             flashAddr: nat, areaAddr: nat, size: nat)
      requires mem.Length == U32
      reads mem
    {
      && size < U32 && bs <= FLASH_BLOCK_SIZE && done + Extent(size, k, bs) == n && Fits(data, d, n)
      && flashAddr == d.start + done && areaAddr == Wrap(d.ptr + done)
      && Copied(d.ptr, d.start, done)
    }

    method LoadMore(data: nat, isL2Section: bool, flashAddr: nat, areaAddr: nat, iterSize: nat,
                    ghost d: Area, ghost bs: nat, ghost done: nat)
      requires Valid() && data + SIZEOF_BOOT_CODE <= U32 && iterSize <= FLASH_BLOCK_SIZE
      requires Configured(data, bs) && Fits(data, d, done + iterSize)
      requires flashAddr == d.start + done && areaAddr == Wrap(d.ptr + done)
      requires Copied(d.ptr, d.start, done)
      modifies mem
      ensures Copied(d.ptr, d.start, done + iterSize)
      ensures OnlyChanges(data, d.ptr + done, iterSize) && LoaderKept(data)
    {
      assert iterSize > 0 ==> areaAddr == d.ptr + done;
      LoadBlock(data, isL2Section, flashAddr, areaAddr, iterSize);
      assert OnlyChanges(data, d.ptr + done, iterSize);
    }

    /** One iteration: the next block of the area. */
    method LoadNext(data: nat, isL2Section: bool, flashAddr: nat, areaAddr: nat, size: nat,
                    ghost d: Area, ghost n: nat, ghost bs: nat, ghost done: nat, ghost k: nat)
      returns (flashAddr': nat, areaAddr': nat, size': nat, ghost done': nat)
      requires Valid() && data + SIZEOF_BOOT_CODE <= U32 && Configured(data, bs)
      requires k > 0 && Progress(data, d, n, bs, done, k, flashAddr, areaAddr, size)
      modifies mem
      ensures Progress(data, d, n, bs, done', k - 1, flashAddr', areaAddr', size') && done <= done'
      ensures OnlyChanges(data, d.ptr, done') && LoaderKept(data) && Configured(data, bs)
    {
      var iterSize := NextSize(size, Word(data + BLOCK_SIZE));
      ExtentStep(size, k, bs);
      LoadMore(data, isL2Section, flashAddr, areaAddr, iterSize, d, bs, done);
      areaAddr' := Wrap(areaAddr + iterSize);
      flashAddr' := Wrap(flashAddr + iterSize);
      size' := Left(size, iterSize);
      done' := done + iterSize;
    }

    /** Copies one area. The counter of bytes left is an unsigned 32-bit number: see `Extent` for how
        many bytes that moves. */
    method LoadSection(data: nat, area: nat, ghost d: Area, ghost bs: nat)
      requires Valid() && data + SIZEOF_BOOT_CODE <= U32 && Configured(data, bs)
      requires data + HEADER <= area && area + SIZEOF_AREA <= data + SIZEOF_BOOT_CODE
      requires d.size < U32 && Describes(area, d) && Fits(data, d, Extent(d.size, d.blocks, bs))
      modifies mem
      ensures Copied(d.ptr, d.start, Extent(d.size, d.blocks, bs))
      ensures OnlyChanges(data, d.ptr, Extent(d.size, d.blocks, bs)) && LoaderKept(data)
    {
      var flashAddr: nat, areaAddr: nat, size: nat := Word(area), Word(area + 4), Word(area + 8);
      var isL2Section := areaAddr >= L2_BASE && areaAddr < L2_END;
      ghost var done: nat, k, n := 0, d.blocks, Extent(d.size, d.blocks, bs);
      var i: nat := 0;
      while i < Word(area + 12)
        invariant i + k == d.blocks && Progress(data, d, n, bs, done, k, flashAddr, areaAddr, size)
        invariant Word(area + 12) == d.blocks && Configured(data, bs)
        invariant OnlyChanges(data, d.ptr, done) && LoaderKept(data)
        decreases k
      {
        flashAddr, areaAddr, size, done :=
          LoadNext(data, isL2Section, flashAddr, areaAddr, size, d, n, bs, done, k);
        i, k := i + 1, k - 1;
      }
    }

    // ---- The table of areas ----

    /** The header and the first n area descriptors of the flash are in the loader's state. */
    ghost predicate TableLoaded(data: nat, n: nat)
      requires data + SIZEOF_BOOT_CODE <= mem.Length && n <= MAX_NB_AREA && SIZEOF_HEADER + 16 * n <= |flash|
      reads mem
    {
      forall a :: data + HEADER <= a < data + MEM_AREA + 16 * n ==> mem[a] == flash[a - data - HEADER]
    }

    lemma {:induction false} TableWord(data: nat, n: nat, j: nat)
      requires data + SIZEOF_BOOT_CODE <= mem.Length && n <= MAX_NB_AREA && SIZEOF_HEADER + 16 * n <= |flash|
      requires TableLoaded(data, n) && j + 4 <= SIZEOF_HEADER + 16 * n
      ensures Word(data + HEADER + j) == WordAt(flash, j)
    {
      var a := data + HEADER + j;
      assert mem[a] == flash[j] && mem[a + 1] == flash[j + 1];
      assert mem[a + 2] == flash[j + 2] && mem[a + 3] == flash[j + 3];
    }

    method ReadHeader(data: nat)
      requires Valid() && data + SIZEOF_BOOT_CODE <= U32 && (!Hyper(data) ==> |flash| <= SPI_SPACE)
      modifies mem
      ensures TableLoaded(data, 0) && (!Hyper(data) ==> |flash| <= SPI_SPACE)
      ensures forall a :: 0 <= a < U32 && (Private(data, a) || !InLoader(data, a)) ==> mem[a] == old(mem[a])
    {
      FlashRead(data, 0, data + HEADER, SIZEOF_HEADER);
    }

    /** Reads the header, then as many descriptors as it announces, sixteen at the most. */
    method GetMemAreas(data: nat)
      requires Valid() && data + SIZEOF_BOOT_CODE <= U32
      requires NbAreas(flash) < 0x8000_0000 && (!Hyper(data) ==> |flash| <= SPI_SPACE)
      requires var n := if NbAreas(flash) >= MAX_NB_AREA then MAX_NB_AREA else NbAreas(flash);
               SIZEOF_HEADER + 16 * n <= |flash|
      modifies mem
      ensures TableLoaded(data, if NbAreas(flash) >= MAX_NB_AREA then MAX_NB_AREA else NbAreas(flash))
      ensures forall a :: 0 <= a < U32 && (Private(data, a) || !InLoader(data, a)) ==> mem[a] == old(mem[a])
    {
      ReadHeader(data);
      TableWord(data, 0, 4);
      var nbArea := Word(data + HEADER + 4);
      if nbArea >= MAX_NB_AREA {
        nbArea := MAX_NB_AREA;
      }
      if nbArea != 0 {
        FlashRead(data, SIZEOF_HEADER, data + MEM_AREA, 16 * nbArea);
      }
    }

    ghost predicate Image() {
      SIZEOF_HEADER <= |flash| && NbAreas(flash) <= MAX_NB_AREA
      && SIZEOF_HEADER + 16 * NbAreas(flash) <= |flash|
    }

    /** The areas that the table in flash describes. */
    ghost predicate IsTable(areas: seq<Area>) {
      Image() && |areas| == NbAreas(flash) && forall i :: 0 <= i < |areas| ==> areas[i] == AreaAt(flash, i)
    }

    /** Moves behind one area if that is in the way. */
    method Avoid(ptr: nat, size: nat, blockSize: nat, addr: nat, ghost a: Area, ghost k: nat) returns (next: nat)
      requires 2 <= k <= 12 && blockSize == Pow2(k) && a.ptr == ptr && a.size == size
      requires addr + SIZEOF_BOOT_CODE <= U32 && ptr + size + blockSize + SIZEOF_BOOT_CODE <= U32
      ensures next == Advance(a, k, addr) && next + SIZEOF_BOOT_CODE <= U32
    {
      next := addr;
      ghost var end := AlignedEnd(a, blockSize, k);
      if (addr >= ptr && addr < Wrap(ptr + size)) || (addr < ptr && Wrap(addr + SIZEOF_BOOT_CODE) > ptr) {
        next := AndNot(Wrap(Wrap(ptr + size) + blockSize - 1), blockSize - 1);
      }
    }

    /** The masked sum of the source is the end of the area, aligned, and there is room behind it. */
    lemma {:induction false} AlignedEnd(a: Area, blockSize: nat, k: nat) returns (end: nat)
      requires 2 <= k <= 12 && blockSize == Pow2(k) && a.ptr + a.size + blockSize + SIZEOF_BOOT_CODE <= U32
      ensures end == AlignUp(a.ptr + a.size, k)
      ensures end == AndNot(Wrap(Wrap(a.ptr + a.size) + blockSize - 1), blockSize - 1)
      ensures end + SIZEOF_BOOT_CODE <= U32
    {
      PowersOfTwo();
      Pow2Mono(k, 12);
      end := AlignUp(a.ptr + a.size, k);
      AlignUpIsLeast(a.ptr + a.size, k);
      assert Wrap(Wrap(a.ptr + a.size) + blockSize - 1) == a.ptr + a.size + blockSize - 1;
    }

    /** The place for the loader's state: the first fit among the areas of the table. */
    method FindDataFit(data: nat, ghost areas: seq<Area>, ghost k: nat) returns (addr: nat)
      requires Valid() && data + SIZEOF_BOOT_CODE <= U32 && IsTable(areas) && TableLoaded(data, |areas|)
      requires 2 <= k <= 12 && Word(data + BLOCK_SIZE) == Pow2(k) && Sorted(areas)
      requires forall i :: 0 <= i < |areas| ==> areas[i].ptr + areas[i].size + Pow2(k) + SIZEOF_BOOT_CODE <= U32
      ensures FirstFit(areas, k, addr) && addr + SIZEOF_BOOT_CODE <= U32
    {
      ScanStart(areas, k);
      TableWord(data, |areas|, 4);
      addr := L2_BASE;
      var i := 0;
      while i < Word(data + HEADER + 4)
        invariant i <= |areas| && Scanned(areas, i, k, addr) && addr + SIZEOF_BOOT_CODE <= U32
      {
        var area := data + MEM_AREA + 16 * i;
        TableDescribes(data, i, areas[i]);
        ScanNext(areas, i, k, addr);
        addr := Avoid(Word(area + 4), Word(area + 8), Word(data + BLOCK_SIZE), addr, areas[i], k);
        i := i + 1;
      }
      ScanEnd(areas, k, addr);
    }

    /** Entry i of the table in memory is area i of the flash. */
    lemma {:induction false} TableDescribes(data: nat, i: nat, d: Area)
      requires Valid() && data + SIZEOF_BOOT_CODE <= U32 && Image() && TableLoaded(data, NbAreas(flash))
      requires i < NbAreas(flash) && d == AreaAt(flash, i)
      ensures Describes(data + MEM_AREA + 16 * i, d) && d.size < U32
    {
      var n, o := NbAreas(flash), SIZEOF_HEADER + 16 * i;
      assert Word(data + HEADER + o) == d.start by { TableWord(data, n, o); }
      assert Word(data + HEADER + o + 4) == d.ptr by { TableWord(data, n, o + 4); }
      assert Word(data + HEADER + o + 8) == d.size by { TableWord(data, n, o + 8); }
      assert Word(data + HEADER + o + 12) == d.blocks by { TableWord(data, n, o + 12); }
    }

    /** Every area can be read and lands outside the loader and outside the other areas. */
    ghost predicate Loadable(areas: seq<Area>, data: nat, bs: nat) {
      && bs <= FLASH_BLOCK_SIZE
      && (forall i :: 0 <= i < |areas| ==> areas[i].size < U32 && Fits(data, areas[i], Span(areas[i], bs)))
      && (forall i, j :: 0 <= i < |areas| && 0 <= j < |areas| && i != j ==>
            Disjoint(areas[i].ptr, Span(areas[i], bs), areas[j].ptr, Span(areas[j], bs)))
    }

    /** The area has been copied from flash to its place. */
    ghost predicate AreaLoaded(a: Area, bs: nat)
      requires a.size < U32 && bs <= FLASH_BLOCK_SIZE
      requires a.ptr + Span(a, bs) <= mem.Length && a.start + Span(a, bs) <= |flash|
      reads mem
    {
      Copied(a.ptr, a.start, Span(a, bs))
    }

    /** The same, in an earlier memory. */
    ghost predicate LoadedIn(was: seq<Byte>, a: Area, bs: nat)
      requires |was| == U32 && a.size < U32 && bs <= FLASH_BLOCK_SIZE
      requires a.ptr + Span(a, bs) <= U32 && a.start + Span(a, bs) <= |flash|
    {
      forall x :: a.ptr <= x < a.ptr + Span(a, bs) ==> was[x] == flash[a.start + (x - a.ptr)]
    }

    /** The areas that were loaded still are, if only area i and the loader have changed since. */
    lemma {:induction false} StillLoaded(was: seq<Byte>, areas: seq<Area>, i: nat, data: nat, bs: nat)
      requires mem.Length == U32 == |was| && Loadable(areas, data, bs) && i < |areas|
      requires forall x :: 0 <= x < U32 && !(areas[i].ptr <= x < areas[i].ptr + Span(areas[i], bs))
                           && !InLoader(data, x)
                           ==> mem[x] == was[x]
      ensures forall j :: 0 <= j < |areas| && j != i && LoadedIn(was, areas[j], bs) ==> AreaLoaded(areas[j], bs)
    {
      forall j | 0 <= j < |areas| && j != i && LoadedIn(was, areas[j], bs) ensures AreaLoaded(areas[j], bs) {
        var a, e := areas[j], Span(areas[j], bs);
        assert Disjoint(a.ptr, e, areas[i].ptr, Span(areas[i], bs)) && Fits(data, a, e);
        forall x | a.ptr <= x < a.ptr + e ensures mem[x] == flash[a.start + (x - a.ptr)] {
          assert mem[x] == was[x];
        }
      }
    }

    /** One turn of the load loop. */
    method LoadTableEntry(data: nat, i: nat, ghost areas: seq<Area>, ghost bs: nat)
      requires Valid() && data + SIZEOF_BOOT_CODE <= U32 && Image() && Configured(data, bs) && Loadable(areas, data, bs)
      requires |areas| == NbAreas(flash) && i < |areas| && areas[i] == AreaAt(flash, i) && TableLoaded(data, |areas|)
      modifies mem
      ensures AreaLoaded(areas[i], bs) && LoaderKept(data) && OnlyChanges(data, areas[i].ptr, Span(areas[i], bs))
      ensures forall j :: 0 <= j < |areas| && j != i && old(AreaLoaded(areas[j], bs)) ==> AreaLoaded(areas[j], bs)
    {
      ghost var was := mem[..];
      assert forall j :: 0 <= j < |areas| && AreaLoaded(areas[j], bs) ==> LoadedIn(was, areas[j], bs);
      TableDescribes(data, i, areas[i]);
      LoadSection(data, data + MEM_AREA + 16 * i, areas[i], bs);
      StillLoaded(was, areas, i, data, bs);
    }

    /** The load loop: reads the table again, then copies area after area. The table it walks lies in
        memory, so it must itself survive the loading. */
    method LoadBinary(data: nat, ghost areas: seq<Area>, ghost bs: nat)
      requires Valid() && data + SIZEOF_BOOT_CODE <= U32 && Configured(data, bs)
      requires IsTable(areas) && Loadable(areas, data, bs)
      modifies mem
      ensures forall i :: 0 <= i < |areas| ==> AreaLoaded(areas[i], bs)
      ensures TableLoaded(data, |areas|)
      ensures forall a :: 0 <= a < U32 && !(data <= a < data + SIZEOF_BOOT_CODE) && !Covered(areas, |areas|, a, bs)
                          ==> mem[a] == old(mem[a])
      ensures forall a :: 0 <= a < U32 && Private(data, a) ==> mem[a] == old(mem[a])
    {
      GetMemAreas(data);
      ghost var n := |areas|;
      TableWord(data, n, 4);
      var i := 0;
      while i < Word(data + HEADER + 4)
        invariant i <= n && TableLoaded(data, n) && Word(data + HEADER + 4) == n
        invariant Configured(data, bs)
        invariant forall j :: 0 <= j < i ==> AreaLoaded(areas[j], bs)
        invariant forall a :: 0 <= a < U32 && !(data <= a < data + SIZEOF_BOOT_CODE) && !Covered(areas, i, a, bs)
                              ==> mem[a] == old(mem[a])
        invariant forall a :: 0 <= a < U32 && Private(data, a) ==> mem[a] == old(mem[a])
      {
        LoadTableEntry(data, i, areas, bs);
        i := i + 1;
      }
    }

    /** A word-aligned, readable area, with a block count that moves exactly the area, and room behind it. */
    ghost predicate WellFormedArea(a: Area, bs: nat)
      requires 0 < bs
    {
      && a.size < U32 && a.ptr % 4 == 0
      && a.ptr + a.size + bs + SIZEOF_BOOT_CODE <= U32 && a.start + RoundUp4(a.size) <= |flash|
      && (a.blocks == BlocksNeeded(a.size, bs) || (a.blocks > BlocksNeeded(a.size, bs) && a.size % 4 == 0))
    }

    /** What the loader asks of a flash image: such areas, sorted, and apart even after rounding up. */
    ghost predicate WellFormed(areas: seq<Area>, bs: nat)
      requires 0 < bs
    {
      && (forall i :: 0 <= i < |areas| ==> WellFormedArea(areas[i], bs))
      && (forall i, j :: 0 <= i < j < |areas| ==> areas[i].ptr + RoundUp4(areas[i].size) <= areas[j].ptr)
    }

    /** From the static state of the ROM to a place for the loader, with its configuration. */
    method Relocate(bootCode: nat, hyperflash: bool, qpi: bool, ghost areas: seq<Area>) returns (newData: nat)
      requires Valid() && IsTable(areas) && bootCode + SIZEOF_BOOT_CODE <= U32 && (!hyperflash ==> |flash| <= SPI_SPACE)
      requires WellFormed(areas, BlockSize(hyperflash))
      modifies mem
      ensures newData + SIZEOF_BOOT_CODE <= U32 && FirstFit(areas, Log2BlockSize(hyperflash), newData)
      ensures HasConfiguration(newData, hyperflash, qpi)
      ensures forall a :: 0 <= a < U32 && !InLoader(bootCode, a) && !InConfiguration(newData, a) ==>
                            mem[a] == old(mem[a])
    {
      var data := bootCode;
      Configure(data, hyperflash, qpi);
      GetMemAreas(data);
      BlockSizeIsPower(hyperflash);
      newData := FindDataFit(data, areas, Log2BlockSize(hyperflash));
      Configure(newData, hyperflash, qpi);
    }

    /** The whole boot from flash: read the table, pick a place, move there, load every area. */
    method BootFromRom(bootCode: nat, hyperflash: bool, qpi: bool, ghost areas: seq<Area>)
      returns (newData: nat, ghost relocated: seq<Byte>)
      requires Valid() && IsTable(areas) && bootCode + SIZEOF_BOOT_CODE <= U32 && (!hyperflash ==> |flash| <= SPI_SPACE)
      requires WellFormed(areas, BlockSize(hyperflash))
      modifies mem
      ensures newData + SIZEOF_BOOT_CODE <= U32 && FirstFit(areas, Log2BlockSize(hyperflash), newData)
      ensures forall i :: 0 <= i < |areas| ==> Copied(areas[i].ptr, areas[i].start, areas[i].size)
      ensures TableLoaded(newData, |areas|) && HasConfiguration(newData, hyperflash, qpi)
      ensures Word(newData + BLOCK_SIZE) == if hyperflash then 1024 else 4096
      ensures newData % (if hyperflash then 1024 else 4096) == 0
      ensures |relocated| == U32 && forall a :: 0 <= a < U32 && Private(newData, a) ==> mem[a] == relocated[a]
      ensures forall a :: 0 <= a < U32 && !InLoader(bootCode, a) && !InConfiguration(newData, a)
                          ==> relocated[a] == old(mem[a])
      ensures forall a ::
                0 <= a < U32 && !InLoader(bootCode, a) && !InLoader(newData, a)
                && !Covered(areas, |areas|, a, BlockSize(hyperflash))
                ==> mem[a] == old(mem[a])
    {
      newData := Relocate(bootCode, hyperflash, qpi, areas);
      relocated := mem[..];
      BlockSizeIsPower(hyperflash);
      WellFormedLoadable(areas, Log2BlockSize(hyperflash), newData);
      LoadBinary(newData, areas, BlockSize(hyperflash));
      assert HasConfiguration(newData, hyperflash, qpi);
      LoadedIsCopied(areas, newData, BlockSize(hyperflash));
    }

    lemma {:induction false} LoadedIsCopied(areas: seq<Area>, data: nat, bs: nat)
      requires mem.Length == U32 && Loadable(areas, data, bs)
      requires forall i :: 0 <= i < |areas| ==> AreaLoaded(areas[i], bs) && Span(areas[i], bs) >= areas[i].size
      ensures forall i :: 0 <= i < |areas| ==>
                areas[i].ptr + areas[i].size <= U32 && areas[i].start + areas[i].size <= |flash|
                && Copied(areas[i].ptr, areas[i].start, areas[i].size)
    {
      forall i | 0 <= i < |areas|
        ensures areas[i].ptr + areas[i].size <= U32 && areas[i].start + areas[i].size <= |flash|
                && Copied(areas[i].ptr, areas[i].start, areas[i].size)
      {
        assert AreaLoaded(areas[i], bs) && Fits(data, areas[i], Span(areas[i], bs));
      }
    }

    /** The flash kind, the block size that goes with it, and the transfer mode, as read back from memory. */
    ghost predicate HasConfiguration(data: nat, hyperflash: bool, qpi: bool)
      requires data + SIZEOF_BOOT_CODE <= mem.Length
      reads mem
    {
      (Hyper(data) <==> hyperflash) && Word(data + BLOCK_SIZE) == BlockSize(hyperflash)
      && Word(data + QPI) == if qpi then 1 else 0
    }

    /** Sets the configuration. */
    method Configure(data: nat, hyperflash: bool, qpi: bool)
      requires Valid() && data + SIZEOF_BOOT_CODE <= U32
      modifies mem
      ensures HasConfiguration(data, hyperflash, qpi)
      ensures Word(data + HYPERFLASH) == (if hyperflash then 1 else 0) && Word(data + QPI) == if qpi then 1 else 0
      ensures Word(data + BLOCK_SIZE) == if hyperflash then 1024 else 4096
      ensures forall a :: 0 <= a < U32 && !InConfiguration(data, a) ==> mem[a] == old(mem[a])
    {
      StoreWord(data + HYPERFLASH, if hyperflash then 1 else 0);
      StoreWord(data + BLOCK_SIZE, if hyperflash then HYPER_FLASH_BLOCK_SIZE else FLASH_BLOCK_SIZE);
      assert Word(data + HYPERFLASH) == if hyperflash then 1 else 0;
      StoreWord(data + QPI, if qpi then 1 else 0);
      assert Word(data + HYPERFLASH) == if hyperflash then 1 else 0;
      assert Word(data + BLOCK_SIZE) == BlockSize(hyperflash);
    }

    /** An area next to the place found, loader and area rounded up to whole words. */
    lemma {:induction false} AreaLoadable(a: Area, k: nat, data: nat)
      requires 2 <= k && 4 <= Pow2(k) <= FLASH_BLOCK_SIZE && Pow2(k) % 4 == 0
      requires WellFormedArea(a, Pow2(k)) && !Blocked(a, data) && data % 4 == 0
      ensures Span(a, Pow2(k)) == RoundUp4(a.size) && Fits(data, a, Span(a, Pow2(k)))
    {
      ExtentExactIff(a.size, a.blocks, Pow2(k));
    }

    lemma {:induction false} WellFormedLoadable(areas: seq<Area>, k: nat, data: nat)
      requires 2 <= k && Pow2(k) <= FLASH_BLOCK_SIZE && FirstFit(areas, k, data) && WellFormed(areas, Pow2(k))
      ensures Loadable(areas, data, Pow2(k)) && Pow2(k) % 4 == 0 && Pow2(k) >= 4
      ensures forall i :: 0 <= i < |areas| ==> Span(areas[i], Pow2(k)) >= areas[i].size
    {
      PowerMultipleOf4(k);
      DivisibleBy4(data, k);
      forall i | 0 <= i < |areas|
        ensures areas[i].size < U32 && Span(areas[i], Pow2(k)) == RoundUp4(areas[i].size)
                && Fits(data, areas[i], Span(areas[i], Pow2(k)))
      {
        AreaLoadable(areas[i], k, data);
      }
      forall i, j | 0 <= i < |areas| && 0 <= j < |areas| && i != j
        ensures Disjoint(areas[i].ptr, Span(areas[i], Pow2(k)), areas[j].ptr, Span(areas[j], Pow2(k)))
      {
        assert i < j ==> areas[i].ptr + RoundUp4(areas[i].size) <= areas[j].ptr;
        assert j < i ==> areas[j].ptr + RoundUp4(areas[j].size) <= areas[i].ptr;
      }
    }
  }

  function BlockSize(hyperflash: bool): nat {
    if hyperflash then HYPER_FLASH_BLOCK_SIZE else FLASH_BLOCK_SIZE
  }

  function Log2BlockSize(hyperflash: bool): nat { if hyperflash then 10 else 12 }

  lemma {:induction false} BlockSizeIsPower(hyperflash: bool)
    ensures Pow2(Log2BlockSize(hyperflash)) == BlockSize(hyperflash)
  {
    PowersOfTwo();
  }

  lemma {:induction false} PowerMultipleOf4(k: nat)
    requires k >= 2
    ensures Pow2(k) % 4 == 0 && Pow2(k) >= 4
  {
    if k > 2 {
      PowerMultipleOf4(k - 1);
    } else {
      assert Pow2(1) == 2;
    }
  }

  lemma {:induction false} DivisibleBy4(x: nat, k: nat)
    requires k >= 2 && x % Pow2(k) == 0
    ensures x % 4 == 0
  {
    PowerMultipleOf4(k);
    var p := Pow2(k);
    var q := x / p;
    assert x == q * p && p == 4 * (p / 4);
    assert x == 4 * (q * (p / 4));
  }
}
