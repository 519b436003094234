/** Loading programs obeys the rule under which `PagingIsolation` keeps processes apart. */
module LoadIsolation {
  import opened Base
  import opened Bytes
  import opened Bitmap
  import opened PagingBits
  import opened PagingSpec
  import opened PagingTheorems
  import opened PagingIsolation
  import opened LoaderSpec
  import opened LoadSpec
  import LT = LoadTheorems

  /** A frame just taken is mapped nowhere. */
  lemma FreshUnmapped(l: Layout, k: Kernel, p: Pages, n: nat)
    requires Safe(l, k, p) && FrameAlloc(p).1 == Some(n)
    ensures var p1 := FrameAlloc(p).0; Safe(l, k, p1) && n < FRAME_COUNT && p1.frames[n] && !Mapped(l, p1, n)
  {
    var p1 := FrameAlloc(p).0;
    FlagsSafe(l, k, p, p1);
    forall d: nat, i: nat, j: nat ensures !(Shown(l, p1, d, i, j).Some? && Shown(l, p1, d, i, j).value.frame == l.frame[n]) {
      assert Shown(l, p1, d, i, j) == Shown(l, p, d, i, j);
    }
  }

  lemma MapFreshSafe(l: Layout, k: Kernel, p: Pages, n: nat, d: nat, i: nat, j: nat)
    requires Safe(l, k, p) && FrameAlloc(p).1 == Some(n) && d < THREAD_LIMIT && p.pdUsed[d] && KERNEL_TABLES <= i < ENTRIES && j < ENTRIES
    ensures n < FRAME_COUNT && |l.addr| == ARRAYS && |l.frame| == FRAME_COUNT
    ensures var q := MapPage(l, FrameAlloc(p).0, PD(d), i, j, UserPage(l.frame[n]));
            Safe(l, k, q) && q.pdUsed == p.pdUsed && q.frames == FrameAlloc(p).0.frames
  {
    FreshUnmapped(l, k, p, n);
    MapPageKeepsInv(l, k, FrameAlloc(p).0, d, i, j, UserPage(l.frame[n]));
    MapSafe(l, k, FrameAlloc(p).0, d, i, j, n, UserPage(l.frame[n]));
  }

  lemma LoadPageSafe(l: Layout, k: Kernel, m: Machine, d: nat, disk: seq<Byte>, e: DirEntry, page: nat)
    requires m.Shape() && Safe(l, k, m.pages) && d < THREAD_LIMIT && m.pages.pdUsed[d] && page + Clear(m.pages.frames) <= FRAME_COUNT
    ensures var m1 := LoadPage(l, m, d, disk, e, page).0; Safe(l, k, m1.pages) && m1.pages.pdUsed == m.pages.pdUsed
    ensures FrameAlloc(m.pages).1.Some? ==>
              page < FRAME_COUNT && page + 1 + Clear(LoadPage(l, m, d, disk, e, page).0.pages.frames) <= FRAME_COUNT
  {
    if FrameAlloc(m.pages).1.Some? {
      var n := FrameAlloc(m.pages).1.value;
      ClearIff(m.pages.frames);
      ClearAfterSet(m.pages.frames, n);
      LT.Slots(page);
      MapFreshSafe(l, k, m.pages, n, d, SlotI(page), SlotJ(page));
    }
  }

  lemma {:induction false} LoadPagesSafe(l: Layout, k: Kernel, m: Machine, d: nat, disk: seq<Byte>, e: DirEntry, page: nat)
    requires m.Shape() && Safe(l, k, m.pages) && d < THREAD_LIMIT && m.pages.pdUsed[d] && page + Clear(m.pages.frames) <= FRAME_COUNT
    ensures Safe(l, k, LoadPages(l, m, d, disk, e, page).0.pages)
    decreases NumPages(e.sectors) - page
  {
    if page < NumPages(e.sectors) {
      var (m1, ok) := LoadPage(l, m, d, disk, e, page);
      LoadPageSafe(l, k, m, d, disk, e, page);
      if ok { LoadPagesSafe(l, k, m1, d, disk, e, page + 1); }
    }
  }

  lemma NewSpaceSafe(l: Layout, k: Kernel, m: Machine, kernelStack: bool, callExit: nat)
    requires m.Shape() && Safe(l, k, m.pages) && callExit < WORD
    ensures var (m1, d) := NewSpace(l, m, kernelStack, callExit);
            Safe(l, k, m1.pages) && (d.Some? ==> m1.pages.pdUsed[d.value])
  {
    var (p, d) := AllocPageDirectory(m.pages);
    AllocSafe(l, k, m.pages);
    if d.Some? && FrameAlloc(p).1.Some? {
      MapFreshSafe(l, k, p, FrameAlloc(p).1.value, d.value, STACK_I, STACK_J);
    }
  }

  /**
  Whatever is on the disk and whether or not it succeeds, `load_program` leaves every frame mapped at no
  more than one place of one address space, and the kernel's tables untouched.
  */
  lemma LoadKeepsApart(l: Layout, k: Kernel, m: Machine, disk: seq<Byte>, name: seq<Byte>, memory: bool, number: bool, kernelStack: bool, callExit: nat)
    requires m.Shape() && Safe(l, k, m.pages) && callExit < WORD
    ensures Safe(l, k, LoadProgram(l, m, disk, name, memory, number, kernelStack, callExit).0.pages)
  {
    if Lookup(disk, name).Some? && number {
      NewSpaceSafe(l, k, m, kernelStack, callExit);
      var (m1, d) := NewSpace(l, m, kernelStack, callExit);
      if d.Some? { LoadPagesSafe(l, k, m1, d.value, disk, Lookup(disk, name).value, 0); }
    }
  }

  // ---------------------------------------------------------------- the other processes

  /** Directory `c` shows what it did, and the frames taken before hold what they did. */
  ghost predicate Undisturbed(l: Layout, m: Machine, m1: Machine, c: nat)
    requires m.Shape() && |l.addr| == ARRAYS && c < THREAD_LIMIT
  {
    && m1.Shape() && m1.pages.pdUsed[c]
    && (forall i, j | 0 <= i < ENTRIES && 0 <= j < ENTRIES :: Translate(l, m1.pages, PD(c), i, j) == Translate(l, m.pages, PD(c), i, j))
    && forall n | 0 <= n < FRAME_COUNT && m.pages.frames[n] :: m1.pages.frames[n] && m1.ram[n] == m.ram[n]
  }

  /** A frame taken, mapped elsewhere and filled. */
  lemma MapFreshKeeps(l: Layout, k: Kernel, m: Machine, n: nat, d: nat, i: nat, j: nat, frame: seq<Byte>, c: nat)
    requires m.Shape() && Safe(l, k, m.pages) && FrameAlloc(m.pages).1 == Some(n) && |frame| == PAGE
    requires d < THREAD_LIMIT && m.pages.pdUsed[d] && KERNEL_TABLES <= i < ENTRIES && j < ENTRIES
    requires c < THREAD_LIMIT && m.pages.pdUsed[c] && c != d
    ensures n < FRAME_COUNT
    ensures Undisturbed(l, m, Machine(MapPage(l, FrameAlloc(m.pages).0, PD(d), i, j, UserPage(l.frame[n])), m.ram[n := frame]), c)
  {
    var p := FrameAlloc(m.pages).0;
    FreshUnmapped(l, k, m.pages, n);
    MapPageKeepsInv(l, k, p, d, i, j, UserPage(l.frame[n]));
    forall a, b | 0 <= a < ENTRIES && 0 <= b < ENTRIES
      ensures Translate(l, MapPage(l, p, PD(d), i, j, UserPage(l.frame[n])), PD(c), a, b) == Translate(l, m.pages, PD(c), a, b)
    {
      MapPageRefines(l, k, p, d, i, j, UserPage(l.frame[n]), c, a, b);
      SameTranslation(l, m.pages, p, PD(c), a, b);
    }
  }

  lemma LoadPageKeeps(l: Layout, k: Kernel, m: Machine, d: nat, disk: seq<Byte>, e: DirEntry, page: nat, c: nat)
    requires m.Shape() && Safe(l, k, m.pages) && d < THREAD_LIMIT && m.pages.pdUsed[d] && page + Clear(m.pages.frames) <= FRAME_COUNT
    requires c < THREAD_LIMIT && m.pages.pdUsed[c] && c != d && page < NumPages(e.sectors)
    ensures Undisturbed(l, m, LoadPage(l, m, d, disk, e, page).0, c)
  {
    if FrameAlloc(m.pages).1.Some? {
      var n := FrameAlloc(m.pages).1.value;
      ClearIff(m.pages.frames);
      LT.Slots(page);
      MapFreshKeeps(l, k, m, n, d, SlotI(page), SlotJ(page), ReadInto(m.ram[n], disk, e, page, 0).0, c);
    }
  }

  lemma {:induction false} LoadPagesKeep(l: Layout, k: Kernel, m: Machine, d: nat, disk: seq<Byte>, e: DirEntry, page: nat, c: nat)
    requires m.Shape() && Safe(l, k, m.pages) && d < THREAD_LIMIT && m.pages.pdUsed[d] && page + Clear(m.pages.frames) <= FRAME_COUNT
    requires c < THREAD_LIMIT && m.pages.pdUsed[c] && c != d
    ensures Undisturbed(l, m, LoadPages(l, m, d, disk, e, page).0, c)
    decreases NumPages(e.sectors) - page
  {
    if page < NumPages(e.sectors) {
      var (m1, ok) := LoadPage(l, m, d, disk, e, page);
      LoadPageSafe(l, k, m, d, disk, e, page);
      LoadPageKeeps(l, k, m, d, disk, e, page, c);
      if ok { LoadPagesKeep(l, k, m1, d, disk, e, page + 1, c); }
    }
  }

  lemma AllocKeeps(l: Layout, k: Kernel, m: Machine, c: nat)
    requires m.Shape() && Safe(l, k, m.pages) && c < THREAD_LIMIT && m.pages.pdUsed[c]
    ensures Undisturbed(l, m, m.(pages := AllocPageDirectory(m.pages).0), c)
  {
    AllocKeepsInv(l, k, m.pages);
    forall i, j | 0 <= i < ENTRIES && 0 <= j < ENTRIES
      ensures Translate(l, AllocPageDirectory(m.pages).0, PD(c), i, j) == Translate(l, m.pages, PD(c), i, j)
    {
      AllocTranslation(l, k, m.pages, c, i, j);
    }
  }

  lemma NewSpaceKeeps(l: Layout, k: Kernel, m: Machine, kernelStack: bool, callExit: nat, c: nat)
    requires m.Shape() && Safe(l, k, m.pages) && callExit < WORD && c < THREAD_LIMIT && m.pages.pdUsed[c]
    ensures var (m1, d) := NewSpace(l, m, kernelStack, callExit); Undisturbed(l, m, m1, c) && d != Some(c)
  {
    var (p, d) := AllocPageDirectory(m.pages);
    AllocSafe(l, k, m.pages);
    AllocKeeps(l, k, m, c);
    if d.Some? && kernelStack && FrameAlloc(p).1.Some? {
      var n := FrameAlloc(p).1.value;
      MapFreshKeeps(l, k, m.(pages := p), n, d.value, STACK_I, STACK_J, m.ram[n][..4088] + Le32(callExit) + Le32(callExit), c);
    }
  }

  lemma LoadUndisturbed(l: Layout, k: Kernel, m: Machine, disk: seq<Byte>, name: seq<Byte>, memory: bool, number: bool, kernelStack: bool, callExit: nat, c: nat)
    requires m.Shape() && Safe(l, k, m.pages) && callExit < WORD && c < THREAD_LIMIT && m.pages.pdUsed[c]
    ensures Undisturbed(l, m, LoadProgram(l, m, disk, name, memory, number, kernelStack, callExit).0, c)
  {
    if Lookup(disk, name).Some? && number {
      NewSpaceSafe(l, k, m, kernelStack, callExit);
      NewSpaceKeeps(l, k, m, kernelStack, callExit, c);
      var (m1, d) := NewSpace(l, m, kernelStack, callExit);
      if d.Some? { LoadPagesKeep(l, k, m1, d.value, disk, Lookup(disk, name).value, 0, c); }
    }
  }

  /** The byte behind a page ring 3 may use, while nothing disturbs its directory. */
  lemma SameByte(l: Layout, k: Kernel, m: Machine, m1: Machine, c: nat, i: nat, j: nat, o: nat)
    requires m.Shape() && Safe(l, k, m.pages) && c < THREAD_LIMIT && m.pages.pdUsed[c] && Undisturbed(l, m, m1, c)
    requires i < ENTRIES && j < ENTRIES && o < PAGE
    ensures ReadAt(l, m1, Translate(l, m1.pages, PD(c), i, j), o) == ReadAt(l, m, Translate(l, m.pages, PD(c), i, j), o)
  {
    var x := Translate(l, m.pages, PD(c), i, j);
    if x.Some? && x.value.user {
      if i < KERNEL_TABLES { SharedTable(l, k, m.pages, c, i); }
      assert Shown(l, m.pages, c, i, j) == x;
      var n :| 0 <= n < FRAME_COUNT && m.pages.frames[n] && x.value.frame == l.frame[n];
      assert l.FrameAt(l.frame[n]) == Some(n);
    }
  }

  /** Loading a program, well or badly, changes no byte any process that was there before can read. */
  lemma LoadKeepsMemory(l: Layout, k: Kernel, m: Machine, disk: seq<Byte>, name: seq<Byte>, memory: bool, number: bool, kernelStack: bool, callExit: nat,
                        c: nat, va: bv32)
    requires m.Shape() && Safe(l, k, m.pages) && callExit < WORD && c < THREAD_LIMIT && m.pages.pdUsed[c]
    ensures UserRead(l, LoadProgram(l, m, disk, name, memory, number, kernelStack, callExit).0, c, va) == UserRead(l, m, c, va)
  {
    var m1 := LoadProgram(l, m, disk, name, memory, number, kernelStack, callExit).0;
    LoadUndisturbed(l, k, m, disk, name, memory, number, kernelStack, callExit, c);
    SameByte(l, k, m, m1, c, PdIndex(va), PtIndex(va), Offset(va));
  }

  // ---------------------------------------------------------------- a load that fails

  lemma MapKeepsFlags(l: Layout, p: Pages, dir: nat, i: nat, j: nat, e: PagingSpec.Entry)
    requires p.Shape() && dir < ARRAYS && i < ENTRIES && j < ENTRIES && |l.addr| == ARRAYS
    ensures MapPage(l, p, dir, i, j, e).pdUsed == p.pdUsed
  {
  }

  lemma {:induction false} LoadPagesKeepFlags(l: Layout, m: Machine, d: nat, disk: seq<Byte>, e: DirEntry, page: nat)
    requires m.Shape() && |l.addr| == ARRAYS && |l.frame| == FRAME_COUNT && d < THREAD_LIMIT
    ensures LoadPages(l, m, d, disk, e, page).0.pages.pdUsed == m.pages.pdUsed
    decreases NumPages(e.sectors) - page
  {
    if page < NumPages(e.sectors) {
      var (m1, ok) := LoadPage(l, m, d, disk, e, page);
      if FrameAlloc(m.pages).1.Some? {
        MapKeepsFlags(l, FrameAlloc(m.pages).0, PD(d), SlotI(page), SlotJ(page), UserPage(l.frame[FrameAlloc(m.pages).1.value]));
      }
      if ok { LoadPagesKeepFlags(l, m1, d, disk, e, page + 1); }
    }
  }

  lemma NewSpaceTakesDirectory(l: Layout, m: Machine, kernelStack: bool, callExit: nat)
    requires m.Shape() && |l.addr| == ARRAYS && |l.frame| == FRAME_COUNT && callExit < WORD
    ensures NewSpace(l, m, kernelStack, callExit).0.pages.pdUsed == AllocPageDirectory(m.pages).0.pdUsed
  {
    var (p, d) := AllocPageDirectory(m.pages);
    if d.Some? && FrameAlloc(p).1.Some? {
      MapKeepsFlags(l, FrameAlloc(p).0, PD(d.value), STACK_I, STACK_J, UserPage(l.frame[FrameAlloc(p).1.value]));
    }
  }

  /**
  A load that fails leaves everything as it was if and only if it fails before a directory is taken: the name
  is not found, there is no thread number, or no directory. Otherwise the directory stays taken.
  */
  lemma FailedLoadCleanIff(l: Layout, m: Machine, disk: seq<Byte>, name: seq<Byte>, memory: bool, number: bool, kernelStack: bool, callExit: nat)
    requires m.Shape() && |l.addr| == ARRAYS && |l.frame| == FRAME_COUNT && callExit < WORD
    requires LoadProgram(l, m, disk, name, memory, number, kernelStack, callExit).1.None?
    ensures LoadProgram(l, m, disk, name, memory, number, kernelStack, callExit).0 == m
            <==> Lookup(disk, name).None? || !number || FirstClear(m.pages.pdUsed) == THREAD_LIMIT
  {
    if Lookup(disk, name).Some? && number {
      NewSpaceTakesDirectory(l, m, kernelStack, callExit);
      var (m1, d) := NewSpace(l, m, kernelStack, callExit);
      if d.Some? && memory { LoadPagesKeepFlags(l, m1, d.value, disk, Lookup(disk, name).value, 0); }
    }
  }
}
