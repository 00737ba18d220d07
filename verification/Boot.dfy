/** GatesOfHell's use of the page tables: the three initial mappings, the operating system's own directory,
    and the write protection of kernel code. */
module Boot {
  import Bits
  import opened Common
  import opened PageTables

  const INITIAL_PAGING_AREA_SIZE := 384 * 1024
  const INITIAL_KERNEL_HEAP_SIZE := 96 * 1024
  const PAGING_AREA_SIZE := 16 * 1024 * 1024
  const KERNEL_HEAP_END_ADDRESS := 0x8000000

  /** Frames that the page directory and its tables may occupy. */
  const PAGING_FRAMES := INITIAL_PAGING_AREA_SIZE / PAGESIZE

  function AlignUp(address: nat): (a: nat)
    ensures address <= a < address + PAGESIZE
  {
    (address + PAGESIZE - 1) / PAGESIZE * PAGESIZE
  }

  /** What the page walk should give once the three ranges are mapped. */
  function InitialMap(d: nat, heapFrame: nat, kernel: nat, paging: nat, heap: nat, page: nat): Option<Entry>
    requires kernel <= paging <= heap
  {
    if kernel <= page < paging then Some(Entry(page, PRESENT + WRITABLE))
    else if paging <= page < paging + PAGING_FRAMES then Some(Entry(d + page - paging, PRESENT + WRITABLE))
    else if heap <= page < heap + INITIAL_KERNEL_HEAP_SIZE / PAGESIZE then Some(Entry(heapFrame + page - heap, PRESENT + WRITABLE))
    else None
  }

  /** Each used slot of the second directory holds a virtual address that the hardware translates to
      the table in the same slot of the real directory. */
  ghost predicate Mirrors(frames: Frames, d: nat, vdir: Table) {
    d in frames && forall s | 0 <= s < ENTRIES_PER_TABLE && !frames[d][s].IsUnused() ::
      var w := Walk(frames, d, vdir[s].address);
      w.Some? && w.value.address == frames[d][s].address
  }

  function WithoutWrite(e: Entry): Entry {
    Entry(e.address, e.flags - e.flags / 2 % 2 * 2)
  }

  /** Exactly the bit that makes a page writable is cleared. */
  lemma WriteBit(e: Entry, k: nat)
    ensures WithoutWrite(e).address == e.address
    ensures Bits.Bit(WithoutWrite(e).flags, k) == if k == 1 then 0 else Bits.Bit(e.flags, k)
    ensures WithoutWrite(Entry(e.address, PRESENT + WRITABLE)) == Entry(e.address, PRESENT)
  {
    var f, g := e.flags, WithoutWrite(e).flags;
    assert g % 2 == f % 2 && g / 2 % 2 == 0 && g / 4 == f / 4;
    if k >= 2 {
      assert Bits.Bit(g, k) == Bits.Bit(g / 4, k - 2) && Bits.Bit(f, k) == Bits.Bit(f / 4, k - 2);
    }
  }

  class Memory {
    var frames: Frames

    /** Maps pageCount pages from virtualStart to physicalStart; new tables come from the frames at tableMemory. */
    method CreateInitialMapping(d: nat, tableMemory: nat, physicalStart: nat, virtualStart: nat, pageCount: nat) returns (tables: nat)
      requires tableMemory > d && InOrder(frames, d, tableMemory - d - 1)
      requires forall f | d <= f < d + PAGING_FRAMES :: f in frames
      requires UsedUpTo(frames[d], virtualStart / PAGESIZE / ENTRIES_PER_TABLE)
      requires virtualStart / PAGESIZE + pageCount <= (PAGING_FRAMES - 1) * ENTRIES_PER_TABLE
      modifies this
      ensures frames.Keys == old(frames.Keys)
      ensures InOrder(frames, d, tableMemory - d - 1 + tables)
      ensures UsedUpTo(frames[d], (virtualStart / PAGESIZE + pageCount) / ENTRIES_PER_TABLE)
      ensures forall page: nat :: Walk(frames, d, page) ==
                if virtualStart / PAGESIZE <= page < virtualStart / PAGESIZE + pageCount
                then Some(Entry(physicalStart / PAGESIZE + page - virtualStart / PAGESIZE, PRESENT + WRITABLE))
                else Walk(old(frames), d, page)
    {
      hide Walk, UsedBelow, InOrder;
      tables := 0;
      var next := tableMemory;
      ghost var v0, p0 := virtualStart / PAGESIZE, physicalStart / PAGESIZE;
      for i := 0 to pageCount
        invariant next == tableMemory + tables && frames.Keys == old(frames.Keys)
        invariant InOrder(frames, d, next - d - 1) && UsedUpTo(frames[d], (v0 + i) / ENTRIES_PER_TABLE)
        invariant forall page: nat :: Walk(frames, d, page) ==
                    if v0 <= page < v0 + i then Some(Entry(p0 + page - v0, PRESENT + WRITABLE)) else Walk(old(frames), d, page)
      {
        var physicalAddress := physicalStart + i * PAGESIZE;
        var virtualAddress := virtualStart + i * PAGESIZE;
        var directoryIndex := virtualAddress / 0x400000;
        assert virtualAddress / PAGESIZE == v0 + i && directoryIndex == (v0 + i) / ENTRIES_PER_TABLE;
        if frames[d][directoryIndex].IsUnused() {
          AllocateTable(d, next, directoryIndex);
          next := next + 1;
          tables := tables + 1;
        }
        MapPage(d, next - d - 1, v0 + i, directoryIndex, virtualAddress / PAGESIZE % ENTRIES_PER_TABLE, physicalAddress);
      }
    }

    /** A new cleared table for an unused slot above all used ones: no translation changes. */
    method AllocateTable(d: nat, next: nat, s: nat)
      requires next > d && InOrder(frames, d, next - d - 1) && s < PAGING_FRAMES - 1
      requires forall f | d <= f < d + PAGING_FRAMES :: f in frames
      requires frames[d][s].IsUnused() && UsedUpTo(frames[d], s)
      modifies this
      ensures frames.Keys == old(frames.Keys) && InOrder(frames, d, next - d)
      ensures !frames[d][s].IsUnused() && UsedUpTo(frames[d], s)
      ensures forall page: nat :: Walk(frames, d, page) == Walk(old(frames), d, page)
    {
      hide Walk, UsedBelow;
      ghost var n := next - d - 1;
      RoomForTable(frames, d, n, s);
      NewTableInOrder(frames, d, n, s);
      forall page: nat ensures Walk(WithNewTable(frames, d, n, s), d, page) == Walk(frames, d, page) {
        NewTableWalk(frames, d, n, s, page);
      }
      frames := frames[next := Cleared(ENTRIES_PER_TABLE)];
      frames := frames[d := frames[d][s := Entry(next, PRESENT + WRITABLE)]];
    }

    /** Writes one entry of the table in a used slot. */
    method MapPage(d: nat, ghost n: nat, ghost page: nat, s: nat, index: nat, physicalAddress: nat)
      requires InOrder(frames, d, n) && s < ENTRIES_PER_TABLE && index < ENTRIES_PER_TABLE
      requires page / ENTRIES_PER_TABLE == s && page % ENTRIES_PER_TABLE == index && !frames[d][s].IsUnused()
      modifies this
      ensures frames.Keys == old(frames.Keys) && InOrder(frames, d, n) && frames[d] == old(frames[d])
      ensures forall other: nat :: Walk(frames, d, other) ==
                if other == page then Some(Entry(physicalAddress / PAGESIZE, PRESENT + WRITABLE)) else Walk(old(frames), d, other)
    {
      assert d in frames;
      hide Walk, UsedBelow, InOrder, Separate;
      var e := Entry(physicalAddress / PAGESIZE, PRESENT + WRITABLE);
      InOrderSeparate(frames, d, n);
      PageInOrder(frames, d, n, page, e);
      forall other: nat ensures Walk(WithPage(frames, d, page, e), d, other) == if other == page then Some(e) else Walk(frames, d, other) {
        PageWalk(frames, d, page, e, other);
      }
      var table := frames[d][s].address;
      frames := frames[table := frames[table][index := e]];
    }

    /** The directory and the mappings of the kernel, of the paging area and of the kernel heap. */
    method CreateKernelMappings(pagingAreaPhysical: nat, kernelHeapPhysical: nat, kernelStart: nat, kernelEnd: nat)
      returns (tables: nat, pagingAreaVirtual: nat)
      requires pagingAreaPhysical % PAGESIZE == 0 && kernelStart % PAGESIZE == 0 && kernelStart <= kernelEnd
      requires forall f | pagingAreaPhysical / PAGESIZE <= f < pagingAreaPhysical / PAGESIZE + PAGING_FRAMES :: f in frames
      requires AlignUp(kernelEnd) + PAGING_AREA_SIZE + INITIAL_KERNEL_HEAP_SIZE <= KERNEL_HEAP_END_ADDRESS
      modifies this
      ensures frames.Keys == old(frames.Keys)
      ensures pagingAreaVirtual == AlignUp(kernelEnd) && tables < PAGING_FRAMES
      ensures InOrder(frames, pagingAreaPhysical / PAGESIZE, tables)
      ensures forall page: nat :: Walk(frames, pagingAreaPhysical / PAGESIZE, page) ==
                InitialMap(pagingAreaPhysical / PAGESIZE, kernelHeapPhysical / PAGESIZE, kernelStart / PAGESIZE,
                           pagingAreaVirtual / PAGESIZE, (pagingAreaVirtual + PAGING_AREA_SIZE) / PAGESIZE, page)
    {
      hide Walk, UsedBelow, InOrder;
      var d := pagingAreaPhysical / PAGESIZE;
      frames := frames[d := Cleared(ENTRIES_PER_TABLE)];
      EmptyDirectory(frames, d);
      var tableMemory := d + 1;
      var kernelSize := AlignUp(kernelEnd - kernelStart);
      KernelPages(kernelStart, kernelEnd);
      var count := CreateInitialMapping(d, tableMemory, kernelStart, kernelStart, kernelSize / PAGESIZE);
      tableMemory := tableMemory + count;
      pagingAreaVirtual := AlignUp(kernelEnd);
      count := CreateInitialMapping(d, tableMemory, pagingAreaPhysical, pagingAreaVirtual, PAGING_FRAMES);
      tableMemory := tableMemory + count;
      var kernelHeapVirtual := pagingAreaVirtual + PAGING_AREA_SIZE;
      WeakerTop(frames[d], (pagingAreaVirtual / PAGESIZE + PAGING_FRAMES) / ENTRIES_PER_TABLE, kernelHeapVirtual / PAGESIZE / ENTRIES_PER_TABLE);
      count := CreateInitialMapping(d, tableMemory, kernelHeapPhysical, kernelHeapVirtual, INITIAL_KERNEL_HEAP_SIZE / PAGESIZE);
      tableMemory := tableMemory + count;
      tables := tableMemory - d - 1;
      TablesBelow(frames, d, tables, (kernelHeapVirtual + INITIAL_KERNEL_HEAP_SIZE) / PAGESIZE / ENTRIES_PER_TABLE);
    }

    /** The second directory: a copy of the first whose used slots are renumbered in order. */
    method RebuildVirtualDirectory(d: nat, ghost n: nat, pagingAreaVirtual: nat) returns (vdir: Table)
      requires InOrder(frames, d, n) && n < PAGING_FRAMES && pagingAreaVirtual % PAGESIZE == 0
      requires PagingAreaMapped(frames, d, pagingAreaVirtual / PAGESIZE)
      ensures Mirrors(frames, d, vdir)
      ensures forall s | 0 <= s < ENTRIES_PER_TABLE :: vdir[s].flags == frames[d][s].flags
      ensures forall s | 0 <= s < ENTRIES_PER_TABLE :: vdir[s].IsUnused() <==> frames[d][s].IsUnused()
    {
      hide PagingAreaMapped, Walk, UsedBelow;
      ghost var dir := frames[d];
      UsedStart(dir);
      var v := pagingAreaVirtual / PAGESIZE;
      vdir := frames[d];
      var updated := 0;
      for i := 0 to ENTRIES_PER_TABLE
        invariant updated == UsedBelow(dir, i)
        invariant forall s | i <= s < ENTRIES_PER_TABLE :: vdir[s] == dir[s]
        invariant forall s | 0 <= s < i :: vdir[s] == if dir[s].IsUnused() then dir[s] else Entry(v + 1 + UsedBelow(dir, s), dir[s].flags)
      {
        UsedStep(dir, i);
        var entry := vdir[i];
        if !entry.IsUnused() {
          var address := pagingAreaVirtual + PAGESIZE + PAGESIZE * updated;
          assert address / PAGESIZE == v + 1 + updated;
          vdir := vdir[i := Entry(address / PAGESIZE, entry.flags)];
          updated := updated + 1;
        }
      }
      RebuiltMirrors(frames, d, n, v, vdir);
    }

    /** Everything from the empty directory to the finished pair of directories. */
    method SetUpPaging(pagingAreaPhysical: nat, kernelHeapPhysical: nat, kernelStart: nat, kernelEnd: nat)
      returns (vdir: Table, ghost tables: nat)
      requires pagingAreaPhysical % PAGESIZE == 0 && kernelStart % PAGESIZE == 0 && kernelStart <= kernelEnd
      requires forall f | pagingAreaPhysical / PAGESIZE <= f < pagingAreaPhysical / PAGESIZE + PAGING_FRAMES :: f in frames
      requires AlignUp(kernelEnd) + PAGING_AREA_SIZE + INITIAL_KERNEL_HEAP_SIZE <= KERNEL_HEAP_END_ADDRESS
      modifies this
      ensures InOrder(frames, pagingAreaPhysical / PAGESIZE, tables) && Mirrors(frames, pagingAreaPhysical / PAGESIZE, vdir)
      ensures Separate(frames, pagingAreaPhysical / PAGESIZE)
      ensures forall page | kernelStart / PAGESIZE <= page < AlignUp(kernelEnd) / PAGESIZE ::
                Walk(frames, pagingAreaPhysical / PAGESIZE, page) == Some(Entry(page, PRESENT + WRITABLE))
    {
      hide Walk, UsedBelow, InOrder, Mirrors;
      var count, pagingAreaVirtual := CreateKernelMappings(pagingAreaPhysical, kernelHeapPhysical, kernelStart, kernelEnd);
      tables := count;
      KernelPages(kernelStart, kernelEnd);
      vdir := RebuildVirtualDirectory(pagingAreaPhysical / PAGESIZE, tables, pagingAreaVirtual);
      InOrderSeparate(frames, pagingAreaPhysical / PAGESIZE, tables);
    }

    /** Takes the writable flag from every page of a mapped range, reaching the tables through the second directory.
        Tables added since the second directory was made may lie anywhere, as long as the two directories agree. */
    method WriteProtect(d: nat, vdir: Table, start: nat, end: nat)
      requires Separate(frames, d) && Mirrors(frames, d, vdir) && start <= end
      requires forall page | start / PAGESIZE <= page < (end + PAGESIZE - 1) / PAGESIZE :: Walk(frames, d, page).Some?
      modifies this
      ensures frames.Keys == old(frames.Keys) && Separate(frames, d) && Mirrors(frames, d, vdir)
      ensures forall page: nat :: Walk(frames, d, page) ==
                var w := Walk(old(frames), d, page);
                if start / PAGESIZE <= page && start + (page - start / PAGESIZE) * PAGESIZE < end && w.Some?
                then Some(WithoutWrite(w.value)) else w
    {
      hide Walk, Separate;
      ghost var first := start / PAGESIZE;
      ghost var i := 0;
      var address := start;
      while address < end
        invariant address == start + i * PAGESIZE
        invariant frames.Keys == old(frames.Keys) && Separate(frames, d) && Mirrors(frames, d, vdir)
        invariant i > 0 ==> start + (i - 1) * PAGESIZE < end
        invariant forall page: nat :: Walk(frames, d, page) ==
                    var w := Walk(old(frames), d, page);
                    if first <= page < first + i && w.Some? then Some(WithoutWrite(w.value)) else w
        decreases end - address
      {
        assert address / PAGESIZE == first + i;
        ProtectPage(d, vdir, address);
        address := address + PAGESIZE;
        i := i + 1;
      }
    }

    method ProtectPage(d: nat, vdir: Table, address: nat)
      requires Separate(frames, d) && Mirrors(frames, d, vdir)
      requires Walk(frames, d, address / PAGESIZE).Some?
      modifies this
      ensures frames.Keys == old(frames.Keys) && Separate(frames, d) && Mirrors(frames, d, vdir)
      ensures forall page: nat :: Walk(frames, d, page) ==
                var w := Walk(old(frames), d, page);
                if page == address / PAGESIZE then Some(WithoutWrite(w.value)) else w
    {
      var page := address / PAGESIZE;
      var s, index := address / 0x400000, page % ENTRIES_PER_TABLE;
      assert s == page / ENTRIES_PER_TABLE;
      UsedSlot(frames, d, page);
      // The table is written at its virtual address, which the hardware translates.
      var table := Walk(frames, d, vdir[s].address).value.address;
      var e := WithoutWrite(frames[table][index]);
      ProtectedPage(frames, d, vdir, page);
      frames := frames[table := frames[table][index := e]];
    }
  }

  /** The frames of the paging area, seen through the page tables. */
  ghost predicate PagingAreaMapped(frames: Frames, d: nat, v: nat) {
    forall page | v <= page < v + PAGING_FRAMES :: Walk(frames, d, page) == Some(Entry(d + page - v, PRESENT + WRITABLE))
  }

  /** Counting used slots finds the right virtual address because tables were allocated in slot order. */
  lemma RebuiltMirrors(frames: Frames, d: nat, n: nat, v: nat, vdir: Table)
    requires InOrder(frames, d, n) && n < PAGING_FRAMES && PagingAreaMapped(frames, d, v)
    requires forall s | 0 <= s < ENTRIES_PER_TABLE && !frames[d][s].IsUnused() :: vdir[s].address == v + 1 + UsedBelow(frames[d], s)
    ensures Mirrors(frames, d, vdir)
  {
    hide Walk, UsedBelow;
    forall s | 0 <= s < ENTRIES_PER_TABLE && !frames[d][s].IsUnused()
      ensures Walk(frames, d, vdir[s].address) == Some(Entry(frames[d][s].address, PRESENT + WRITABLE))
    {
      UsedMono(frames[d], s, ENTRIES_PER_TABLE);
    }
  }

  /** Rewriting a page's flags through either directory has the same effect, and keeps the two in step. */
  lemma ProtectedPage(frames: Frames, d: nat, vdir: Table, page: nat)
    requires Separate(frames, d) && Mirrors(frames, d, vdir) && Walk(frames, d, page).Some?
    requires page / ENTRIES_PER_TABLE < ENTRIES_PER_TABLE && frames[d][page / ENTRIES_PER_TABLE].address in frames
    requires !frames[d][page / ENTRIES_PER_TABLE].IsUnused()
    ensures var e := WithoutWrite(Walk(frames, d, page).value);
            var after := WithPage(frames, d, page, e);
            && frames[frames[d][page / ENTRIES_PER_TABLE].address][page % ENTRIES_PER_TABLE] == Walk(frames, d, page).value
            && Separate(after, d) && Mirrors(after, d, vdir)
            && forall other: nat :: Walk(after, d, other) == if other == page then Some(e) else Walk(frames, d, other)
  {
    var w := Walk(frames, d, page).value;
    var e := WithoutWrite(w);
    WalkEntry(frames, d, page);
    hide Walk, Separate, WithPage, Mirrors;
    StillPresent(w);
    PageSeparate(frames, d, page, e);
    var after := WithPage(frames, d, page, e);
    forall other: nat ensures Walk(after, d, other) == if other == page then Some(e) else Walk(frames, d, other) {
      PageWalk(frames, d, page, e, other);
    }
    StillMirrors(frames, after, d, vdir, page, e);
  }

  lemma WalkEntry(frames: Frames, d: nat, page: nat)
    requires Walk(frames, d, page).Some?
    ensures d in frames && page / ENTRIES_PER_TABLE < ENTRIES_PER_TABLE && Walk(frames, d, page).value.IsPresent()
    ensures var t := frames[d][page / ENTRIES_PER_TABLE].address;
            t in frames && frames[t][page % ENTRIES_PER_TABLE] == Walk(frames, d, page).value
  {
  }

  lemma StillMirrors(frames: Frames, after: Frames, d: nat, vdir: Table, page: nat, e: Entry)
    requires Mirrors(frames, d, vdir) && d in after && after[d] == frames[d]
    requires Walk(frames, d, page).Some? && e.address == Walk(frames, d, page).value.address
    requires forall other: nat :: Walk(after, d, other) == if other == page then Some(e) else Walk(frames, d, other)
    ensures Mirrors(after, d, vdir)
  {
    hide Walk;
  }

  lemma StillPresent(e: Entry)
    requires e.IsPresent()
    ensures WithoutWrite(e).IsPresent() && WithoutWrite(e).address == e.address && WithoutWrite(e).flags / 2 % 2 == 0
  {
  }

  lemma RoomForTable(frames: Frames, d: nat, n: nat, s: nat)
    requires InOrder(frames, d, n) && s < ENTRIES_PER_TABLE
    requires frames[d][s].IsUnused() && UsedUpTo(frames[d], s)
    ensures n <= s
  {
    NoneAbove(frames[d], s, ENTRIES_PER_TABLE);
    UsedMono(frames[d], 0, s);
  }

  lemma EmptyDirectory(frames: Frames, d: nat)
    requires d in frames && frames[d] == Cleared(ENTRIES_PER_TABLE)
    ensures InOrder(frames, d, 0) && UsedUpTo(frames[d], 0)
    ensures forall page: nat :: Walk(frames, d, page) == None
  {
    NoneAbove(frames[d], 0, ENTRIES_PER_TABLE);
  }

  /** With an aligned start, the kernel's pages end where the paging area begins. */
  lemma KernelPages(kernelStart: nat, kernelEnd: nat)
    requires kernelStart % PAGESIZE == 0 && kernelStart <= kernelEnd
    ensures kernelStart / PAGESIZE + AlignUp(kernelEnd - kernelStart) / PAGESIZE == AlignUp(kernelEnd) / PAGESIZE
    ensures AlignUp(kernelEnd) % PAGESIZE == 0
  {
  }

  lemma WeakerTop(dir: Table, top: nat, higher: nat)
    requires UsedUpTo(dir, top) && top <= higher
    ensures UsedUpTo(dir, higher)
  {
  }

  lemma TablesBelow(frames: Frames, d: nat, n: nat, top: nat)
    requires InOrder(frames, d, n) && UsedUpTo(frames[d], top) && top < ENTRIES_PER_TABLE
    ensures n <= top + 1
  {
    NoneAbove(frames[d], top + 1, ENTRIES_PER_TABLE);
    UsedMono(frames[d], 0, top + 1);
  }

  /** A mapped page lies in a used slot. */
  lemma UsedSlot(frames: Frames, d: nat, page: nat)
    requires Separate(frames, d) && Walk(frames, d, page).Some?
    ensures page / ENTRIES_PER_TABLE < ENTRIES_PER_TABLE && !frames[d][page / ENTRIES_PER_TABLE].IsUnused()
    ensures frames[d][page / ENTRIES_PER_TABLE].address in frames
  {
  }
}
