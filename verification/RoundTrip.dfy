/** The image written by `createimage` and the loader agree, down to the bytes a process reads. */
module RoundTrip {
  import opened Base
  import opened Bytes
  import opened Bitmap
  import opened PagingBits
  import opened PagingSpec
  import opened ImageSpec
  import opened LoaderSpec
  import opened ImageTheorems
  import opened LoadSpec
  import opened LoadTheorems

  // ---------------------------------------------------------------- addresses of a program

  const PROG_LOAD_BASE: bv32 := 0x0804_8000

  function PageAddress(w: bv32): bv32 { PROG_LOAD_BASE + w * 0x1000 }

  lemma NextAddress(w: bv32)
    ensures PageAddress(w + 1) == PageAddress(w) + 0x1000
  {
  }

  lemma AddressLow(w: bv32)
    requires w < 6144
    ensures PageAddress(w) < 0xF000_0000
  {
  }

  lemma LastEntry(va: bv32)
    ensures PtIndex(va) == 1023 <==> (va >> 12) & 0x3FF == 0x3FF
  {
    if PtIndex(va) == 1023 { NatInjective((va >> 12) & 0x3FF, 0x3FF); }
  }

  lemma SlotNext(n: nat)
    requires n < FRAME_COUNT
    ensures if SlotJ(n) == 1023 then SlotI(n + 1) == SlotI(n) + 1 && SlotJ(n + 1) == 0
            else SlotI(n + 1) == SlotI(n) && SlotJ(n + 1) == SlotJ(n) + 1
  {
  }

  lemma BaseSlot()
    ensures PdIndex(PageAddress(0)) == 32 && PtIndex(PageAddress(0)) == 72
  {
    assert (PageAddress(0) >> 22) & 0x3FF == 32 && (PageAddress(0) >> 12) & 0x3FF == 72;
  }

  lemma NextSlot(va: bv32)
    requires va < 0xF000_0000
    ensures if (va >> 12) & 0x3FF == 0x3FF then PdIndex(va + 0x1000) == PdIndex(va) + 1 && PtIndex(va + 0x1000) == 0
            else PdIndex(va + 0x1000) == PdIndex(va) && PtIndex(va + 0x1000) == PtIndex(va) + 1
  {
    if (va >> 12) & 0x3FF == 0x3FF { NextInDirectory(va); } else { NextInTable(va); }
  }

  lemma SlotStep(n: nat, va: bv32)
    requires n < FRAME_COUNT && va < 0xF000_0000 && PdIndex(va) == SlotI(n) && PtIndex(va) == SlotJ(n)
    ensures PdIndex(va + 0x1000) == SlotI(n + 1) && PtIndex(va + 0x1000) == SlotJ(n + 1)
  {
    LastEntry(va);
    SlotNext(n);
    NextSlot(va);
  }

  ghost predicate AtSlot(n: nat, w: bv32) { PdIndex(PageAddress(w)) == SlotI(n) && PtIndex(PageAddress(w)) == SlotJ(n) }

  lemma NextAtSlot(n: nat, v: bv32)
    requires n < FRAME_COUNT && v as nat == n && AtSlot(n, v)
    ensures AtSlot(n + 1, v + 1)
  {
    NextAddress(v);
    BelowCount(n, v);
    AddressLow(v);
    SlotStep(n, PageAddress(v));
  }

  /** Page `n` of a program has the indices of its address. */
  lemma {:induction false} ProgramPage(n: nat) returns (w: bv32)
    requires n <= FRAME_COUNT
    ensures w as nat == n && AtSlot(n, w)
  {
    if n == 0 {
      w := 0;
      BaseSlot();
    } else {
      var v := ProgramPage(n - 1);
      w := NextWord(n - 1, v);
      NextAtSlot(n - 1, v);
    }
  }

  lemma NextWord(n: nat, v: bv32) returns (w: bv32)
    requires n < FRAME_COUNT && v as nat == n
    ensures w as nat == n + 1 && w == v + 1
  {
    BelowCount(n, v);
    NatSuccessor(v);
    w := v + 1;
  }

  lemma SamePageAs(w: bv32, o: bv32)
    requires o < 0x1000
    ensures PageOf(PageAddress(w) + o) == PageOf(PageAddress(w))
  {
  }

  lemma OffsetAs(w: bv32, o: bv32)
    requires o < 0x1000
    ensures (PageAddress(w) + o) & 0xFFF == o
  {
  }

  lemma AddressSlot(n: nat, w: bv32, o: bv32)
    requires n < FRAME_COUNT && w as nat == n && o < 0x1000
    ensures PdIndex(PageAddress(w) + o) == SlotI(n) && PtIndex(PageAddress(w) + o) == SlotJ(n)
  {
    var v := ProgramPage(n);
    NatInjective(v, w);
    SamePageAs(w, o);
    SamePageIff(PageAddress(w) + o, PageAddress(w));
  }

  function PageNumber(v: bv32): nat { (v >> 12) as nat }

  function PlaceInPage(v: bv32): (o: nat)
    ensures o < PAGE
  {
    var o := v & 0xFFF;
    assert o < 0x1000;
    o as nat
  }

  /** The value of a machine word, by its page and its place in the page. */
  function Value(v: bv32): nat { 4096 * PageNumber(v) + PlaceInPage(v) }

  ghost predicate AddressIs(va: bv32, q: nat, f: nat) { PdIndex(va) == SlotI(q) && PtIndex(va) == SlotJ(q) && Offset(va) == f }

  lemma PartsSlot(q: nat, f: nat, w: bv32, o: bv32, va: bv32)
    requires q < FRAME_COUNT && w as nat == q && o as nat == f && o < 0x1000 && va == PageAddress(w) + o
    ensures AddressIs(va, q, f)
  {
    AddressSlot(q, w, o);
    OffsetIs(w, o);
  }

  /** Word arithmetic: the base, a page and a place in it. */
  lemma Sum(v: bv32)
    ensures PROG_LOAD_BASE + v == PageAddress(v >> 12) + (v & 0xFFF)
  {
  }

  lemma PlaceSmall(v: bv32)
    ensures v & 0xFFF < 0x1000
  {
  }

  /** The address of byte `v` leads to its page and its place there. */
  lemma ByteSlot(v: bv32)
    requires PageNumber(v) < FRAME_COUNT
    ensures AddressIs(PROG_LOAD_BASE + v, PageNumber(v), PlaceInPage(v))
  {
    Sum(v);
    PlaceSmall(v);
    PartsSlot(PageNumber(v), PlaceInPage(v), v >> 12, v & 0xFFF, PROG_LOAD_BASE + v);
  }

  /** Every number up to the size of the frame pool is the value of a word. */
  lemma ValueOnto(j: nat) returns (v: bv32)
    requires j < 4096 * FRAME_COUNT
    ensures Value(v) == j
  {
    var w := Word(j / 4096);
    var o := Word(j % 4096);
    v := Joined(j / 4096, j % 4096, w, o);
  }

  lemma OffsetSmall(o: bv32, f: nat)
    requires o as nat == f < 4096
    ensures o < 0x1000
  {
  }

  lemma JoinedParts(w: bv32, o: bv32)
    requires w < 6144 && o < 0x1000
    ensures (w * 0x1000 + o) >> 12 == w && (w * 0x1000 + o) & 0xFFF == o
  {
  }

  lemma Joined(q: nat, f: nat, w: bv32, o: bv32) returns (v: bv32)
    requires q < FRAME_COUNT && f < 4096 && w as nat == q && o as nat == f
    ensures PageNumber(v) == q && PlaceInPage(v) == f
  {
    BelowCount(q, w);
    OffsetSmall(o, f);
    JoinedParts(w, o);
    v := w * 0x1000 + o;
  }

  lemma OffsetIs(w: bv32, o: bv32)
    requires o < 0x1000
    ensures Offset(PageAddress(w) + o) == o as nat
  {
    OffsetAs(w, o);
  }

  // ---------------------------------------------------------------- loading from an image

  lemma {:induction false} BeforeGrows(us: seq<Source>, i: nat)
    requires i < |us|
    ensures Before(us, i) + Sectors(us[i].size) <= Before(us, |us|)
  {
    if i == 0 {
    } else {
      BeforeGrows(us[1..], i - 1);
    }
  }

  /** The image holds program `i` where its directory entry says. */
  lemma ImageHolds(boot: Source, kernel: Source, us: seq<Source>, i: nat, e: DirEntry)
    requires Writable(boot, kernel, us) && i < |us| && e.lba == Programs(kernel) + Before(us, i) && e.sectors == Sectors(us[i].size)
    ensures Held(Image(boot, kernel, us), e, us[i].Block())
  {
    var disk := Image(boot, kernel, us);
    ImageTail(boot, kernel, us);
    BlockLength(us[i]);
    BeforeGrows(us, i);
    HeldAt(disk, Programs(kernel), us, i, e);
  }

  lemma NoWrap(x: nat)
    requires x < WORD
    ensures x % WORD == x
  {
  }

  lemma HeldAt(disk: seq<Byte>, first: nat, us: seq<Source>, i: nat, e: DirEntry)
    requires 512 * first <= |disk| && disk[512 * first..] == Blocks(us) && AllComplete(us) && i < |us|
    requires e.lba == first + Before(us, i) && e.sectors == Sectors(us[i].size) && e.lba + e.sectors < WORD
    ensures Held(disk, e, us[i].Block())
  {
    BlockLength(us[i]);
    var block := us[i].Block();
    forall t | 0 <= t < e.sectors ensures ReadSector(disk, (e.lba + t) % WORD) == Some(block[512 * t..512 * t + 512]) {
      SectorHeld(disk, first, us, i, e.lba, t);
    }
  }

  lemma SectorHeld(disk: seq<Byte>, first: nat, us: seq<Source>, i: nat, lba: nat, t: nat)
    requires 512 * first <= |disk| && disk[512 * first..] == Blocks(us) && AllComplete(us) && i < |us|
    requires lba == first + Before(us, i) && t < Sectors(us[i].size) && lba + t < WORD
    ensures |us[i].Block()| == 512 * Sectors(us[i].size)
    ensures ReadSector(disk, (lba + t) % WORD) == Some(us[i].Block()[512 * t..512 * t + 512])
  {
    ProgramSector(disk, first, us, i, t);
    NoWrap(lba + t);
  }

  /** Loading a program the disk holds, once its entry has been found. */
  lemma LoadFound(l: Layout, k: Kernel, m: Machine, disk: seq<Byte>, name: seq<Byte>, e: DirEntry, block: seq<Byte>,
                  memory: bool, number: bool, kernelStack: bool, callExit: nat)
    returns (ns: seq<nat>)
    requires m.Shape() && Inv(l, k, m.pages) && callExit < WORD && Lookup(disk, name) == Some(e) && Held(disk, e, block)
    ensures var (m1, d) := LoadProgram(l, m, disk, name, memory, number, kernelStack, callExit);
            && (d.Some? <==> && memory && number && kernelStack && FirstClear(m.pages.pdUsed) < THREAD_LIMIT
                             && 1 + NumPages(e.sectors) <= Clear(m.pages.frames))
            && (d.Some? ==> |ns| == NumPages(e.sectors) && Loading(l, k, m1, d.value.dir, block, ns, ForProgram(m.pages)) && d.value.eip == e.entry)
  {
    ns := [];
    NewSpaceReady(l, k, m, kernelStack, callExit, block);
    var (m1, d) := NewSpace(l, m, kernelStack, callExit);
    if d.Some? { ns := LoadPagesLoads(l, k, m1, d.value, disk, e, block, [], ForProgram(m.pages)); }
  }

  /**
  Loading a program that is in the directory succeeds if and only if there is room for a thread and a
  frame for its stack and for every page; then each page lies in a frame of its own.
  */
  lemma LoadIff(l: Layout, k: Kernel, m: Machine, boot: Source, kernel: Source, us: seq<Source>, name: seq<Byte>, i: nat,
                memory: bool, number: bool, kernelStack: bool, callExit: nat)
    returns (ns: seq<nat>)
    requires m.Shape() && Inv(l, k, m.pages) && callExit < WORD && Writable(boot, kernel, us) && IsFirst(us, Truncated(name), i)
    ensures var (m1, d) := LoadProgram(l, m, Image(boot, kernel, us), name, memory, number, kernelStack, callExit);
            && (d.Some? <==> && memory && number && kernelStack && FirstClear(m.pages.pdUsed) < THREAD_LIMIT
                             && 1 + NumPages(Sectors(us[i].size)) <= Clear(m.pages.frames))
            && (d.Some? ==> |ns| == NumPages(Sectors(us[i].size)) && Loading(l, k, m1, d.value.dir, us[i].Block(), ns, ForProgram(m.pages))
                            && d.value.eip == us[i].entry)
  {
    LookupFinds(boot, kernel, us, name, i);
    var e := Lookup(Image(boot, kernel, us), name).value;
    ImageHolds(boot, kernel, us, i, e);
    ns := LoadFound(l, k, m, Image(boot, kernel, us), name, e, us[i].Block(), memory, number, kernelStack, callExit);
  }

  /** A name no program has, or one the scan never gets to, changes nothing. */
  lemma LoadUnknown(l: Layout, m: Machine, boot: Source, kernel: Source, us: seq<Source>, name: seq<Byte>,
                    memory: bool, number: bool, kernelStack: bool, callExit: nat)
    requires m.Shape() && |l.addr| == ARRAYS && |l.frame| == FRAME_COUNT && callExit < WORD && Writable(boot, kernel, us)
    requires !exists i :: IsFirst(us, Truncated(name), i)
    ensures LoadProgram(l, m, Image(boot, kernel, us), name, memory, number, kernelStack, callExit) == (m, None)
  {
    LookupIff(boot, kernel, us, name);
  }

  // ---------------------------------------------------------------- reading it back

  lemma ReadShown(l: Layout, m: Machine, d: nat, q: nat, n: nat, block: seq<Byte>, total: nat, o: nat)
    requires m.Shape() && l.Ok() && d < THREAD_LIMIT && PageLoaded(l, m, d, q, n, block, total) && o < PAGE && 4096 * q + o < |block|
    ensures ReadAt(l, m, Translate(l, m.pages, PD(d), SlotI(q), SlotJ(q)), o)
              == if SlotI(q) < 32 + total then Some(block[4096 * q + o]) else None
  {
    assert l.FrameAt(l.frame[n]) == Some(n);
  }

  lemma AddressRead(l: Layout, m: Machine, d: nat, va: bv32, q: nat, f: nat)
    requires m.Shape() && |l.addr| == ARRAYS && |l.frame| == FRAME_COUNT && d < THREAD_LIMIT && AddressIs(va, q, f)
    ensures f < PAGE && UserRead(l, m, d, va) == ReadAt(l, m, Translate(l, m.pages, PD(d), SlotI(q), SlotJ(q)), f)
  {
  }

  lemma ReadPage(l: Layout, k: Kernel, m: Machine, d: nat, block: seq<Byte>, ns: seq<nat>, total: nat, q: nat, f: nat, va: bv32)
    requires Loading(l, k, m, d, block, ns, total) && q < |ns| && f < PAGE && 4096 * q + f < |block| && AddressIs(va, q, f)
    ensures UserRead(l, m, d, va) == if SlotI(q) < 32 + total then Some(block[4096 * q + f]) else None
  {
    AddressRead(l, m, d, va, q, f);
    assert PageLoaded(l, m, d, q, ns[q], block, total);
    ReadShown(l, m, d, q, ns[q], block, total, f);
  }

  /** Byte `v` of a loaded program: its own if there was a table for its page, and no byte at all if not. */
  lemma ReadLoaded(l: Layout, k: Kernel, m: Machine, d: nat, block: seq<Byte>, ns: seq<nat>, total: nat, v: bv32)
    requires Loading(l, k, m, d, block, ns, total) && Value(v) < |block| && PageNumber(v) < |ns|
    ensures UserRead(l, m, d, PROG_LOAD_BASE + v) == if SlotI(PageNumber(v)) < 32 + total then Some(block[Value(v)]) else None
  {
    ByteSlot(v);
    ReadPage(l, k, m, d, block, ns, total, PageNumber(v), PlaceInPage(v), PROG_LOAD_BASE + v);
  }

  /** The loader's page count is right if and only if the bytes, rounded up, fit 32 bits. */
  lemma PageCountIff(sectors: nat)
    requires sectors < WORD
    ensures NumPages(sectors) == (sectors + 7) / 8 <==> sectors * 512 + 4095 < WORD
  {
    assert (sectors * 512 + 4095) / 4096 == (sectors + 7) / 8;
    if sectors * 512 < WORD <= sectors * 512 + 4095 {
      assert (sectors * 512 + 4095) % WORD == sectors * 512 + 4095 - WORD;
    }
  }

  /** Frames for a stack and `pages` pages are too few for 32-bit arithmetic to go wrong. */
  lemma EnoughPages(sectors: nat)
    requires (sectors + 7) / 8 < FRAME_COUNT
    ensures NumPages(sectors) == (sectors + 7) / 8
  {
    PageCountIff(sectors);
  }

  lemma PageWithin(sectors: nat, q: nat, o: nat)
    requires 4096 * q + o < 512 * sectors
    ensures q < (sectors + 7) / 8
  {
  }

  lemma EnoughTables(q: nat, pages: nat, total: nat)
    requires q < pages <= FRAME_COUNT && TablesFor(pages) <= total
    ensures SlotI(q) < 32 + total
  {
  }

  /** What a process should find at byte `j`: the file's byte, and zeros up to the end of the last sector. */
  function FileOrZero(s: Source, j: nat): Byte
    requires s.Complete()
  {
    if j < s.size then s.data[s.start + j] else 0
  }

  lemma FileByte(s: Source, j: nat)
    requires s.Complete() && j < 512 * Sectors(s.size)
    ensures j < |s.Block()| && s.Block()[j] == FileOrZero(s, j)
  {
    BlockLength(s);
    Padding(s);
    if j < s.size { assert s.Block()[j] == s.Block()[..s.size][j]; }
  }

  /** All pages of a file are in frames of their own and have a table. */
  ghost predicate FileLoaded(l: Layout, k: Kernel, m: Machine, d: nat, s: Source, total: nat) {
    exists ns: seq<nat> :: Loading(l, k, m, d, s.Block(), ns, total) && |ns| == (Sectors(s.size) + 7) / 8 && TablesFor(|ns|) <= total
  }

  lemma ReadFileIn(l: Layout, k: Kernel, m: Machine, d: nat, s: Source, ns: seq<nat>, total: nat, v: bv32, j: nat)
    requires s.Complete() && Loading(l, k, m, d, s.Block(), ns, total) && j == Value(v) < 512 * Sectors(s.size)
    requires PageNumber(v) < |ns| && SlotI(PageNumber(v)) < 32 + total
    ensures UserRead(l, m, d, PROG_LOAD_BASE + v) == Some(FileOrZero(s, j))
  {
    FileByte(s, j);
    ReadLoaded(l, k, m, d, s.Block(), ns, total, v);
  }

  lemma ReadFile(l: Layout, k: Kernel, m: Machine, d: nat, s: Source, total: nat, v: bv32)
    requires m.Shape() && |l.addr| == ARRAYS && |l.frame| == FRAME_COUNT && d < THREAD_LIMIT
    requires s.Complete() && FileLoaded(l, k, m, d, s, total) && Value(v) < 512 * Sectors(s.size)
    ensures UserRead(l, m, d, PROG_LOAD_BASE + v) == Some(FileOrZero(s, Value(v)))
  {
    var ns :| Loading(l, k, m, d, s.Block(), ns, total) && |ns| == (Sectors(s.size) + 7) / 8 && TablesFor(|ns|) <= total;
    PageWithin(Sectors(s.size), PageNumber(v), PlaceInPage(v));
    EnoughTables(PageNumber(v), |ns|, total);
    ReadFileIn(l, k, m, d, s, ns, total, v, Value(v));
  }

  /** Room for a program of `size` bytes in a new address space. */
  ghost predicate Room(p: Pages, size: nat) {
    && FirstClear(p.pdUsed) < THREAD_LIMIT
    && var pages := (Sectors(size) + 7) / 8; 1 + pages <= Clear(p.frames) && 1 + TablesFor(pages) <= Clear(p.uptUsed)
  }

  ghost predicate DistinctlyNamed(us: seq<Source>) {
    (forall a | 0 <= a < |us| :: 0 < |us[a].name| <= 15) && forall a, b | 0 <= a < b < |us| :: us[a].name != us[b].name
  }

  lemma ImageLoads(l: Layout, k: Kernel, m: Machine, boot: Source, kernel: Source, us: seq<Source>, i: nat, callExit: nat)
    requires m.Shape() && Inv(l, k, m.pages) && callExit < WORD && Writable(boot, kernel, us) && DistinctlyNamed(us)
    requires i < |us| && i < DIR_ENTRIES && Room(m.pages, us[i].size)
    ensures var (m1, d) := LoadProgram(l, m, Image(boot, kernel, us), us[i].name, true, true, true, callExit);
            d.Some? && d.value.eip == us[i].entry && FileLoaded(l, k, m1, d.value.dir, us[i], ForProgram(m.pages))
  {
    DistinctNames(us, i);
    EnoughPages(Sectors(us[i].size));
    var ns := LoadIff(l, k, m, boot, kernel, us, us[i].name, i, true, true, true, callExit);
  }

  /** Byte number `v` of the source is what ring 3 reads at 0x08048000 + v, with zeros up to the end of the last sector. */
  ghost predicate ReadsBack(l: Layout, m: Machine, d: nat, s: Source)
    requires m.Shape() && |l.addr| == ARRAYS && |l.frame| == FRAME_COUNT && d < THREAD_LIMIT && s.Complete()
  {
    && 512 * Sectors(s.size) <= 4096 * FRAME_COUNT
    && forall v: bv32 {:trigger Value(v)} | Value(v) < 512 * Sectors(s.size) ::
         UserRead(l, m, d, PROG_LOAD_BASE + v) == Some(FileOrZero(s, Value(v)))
  }

  lemma FileReadsBack(l: Layout, k: Kernel, m: Machine, d: nat, s: Source, total: nat)
    requires m.Shape() && |l.addr| == ARRAYS && |l.frame| == FRAME_COUNT && d < THREAD_LIMIT
    requires s.Complete() && FileLoaded(l, k, m, d, s, total)
    ensures ReadsBack(l, m, d, s)
  {
    WithinFrames(l, k, m, d, s, total);
    forall v: bv32 {:trigger Value(v)} | Value(v) < 512 * Sectors(s.size)
      ensures UserRead(l, m, d, PROG_LOAD_BASE + v) == Some(FileOrZero(s, Value(v)))
    {
      ReadFile(l, k, m, d, s, total, v);
    }
  }

  lemma WithinFrames(l: Layout, k: Kernel, m: Machine, d: nat, s: Source, total: nat)
    requires FileLoaded(l, k, m, d, s, total)
    ensures 512 * Sectors(s.size) <= 4096 * FRAME_COUNT
  {
  }

  /**
  The round trip. Programs with distinct names of 1 to 15 bytes are put on an image; any of the first
  sixteen, loaded by name with enough frames and tables, is readable from 0x08048000 on in the new
  thread's address space, byte for byte as it was in its file, and the thread begins at the file's entry point.
  */
  lemma ImageRoundTrip(l: Layout, k: Kernel, m: Machine, boot: Source, kernel: Source, us: seq<Source>, i: nat, callExit: nat)
    requires m.Shape() && Inv(l, k, m.pages) && callExit < WORD && Writable(boot, kernel, us) && DistinctlyNamed(us)
    requires i < |us| && i < DIR_ENTRIES && Room(m.pages, us[i].size)
    ensures var (m1, d) := LoadProgram(l, m, Image(boot, kernel, us), us[i].name, true, true, true, callExit);
            d.Some? && d.value.eip == us[i].entry && ReadsBack(l, m1, d.value.dir, us[i])
  {
    ImageLoads(l, k, m, boot, kernel, us, i, callExit);
    var (m1, d) := LoadProgram(l, m, Image(boot, kernel, us), us[i].name, true, true, true, callExit);
    FileReadsBack(l, k, m1, d.value.dir, us[i], ForProgram(m.pages));
  }

  /** No byte is left out: byte `j` is the one at the address with that offset. */
  lemma EveryByte(l: Layout, m: Machine, d: nat, s: Source, j: nat) returns (v: bv32)
    requires m.Shape() && |l.addr| == ARRAYS && |l.frame| == FRAME_COUNT && d < THREAD_LIMIT && s.Complete()
    requires ReadsBack(l, m, d, s) && j < 512 * Sectors(s.size)
    ensures Value(v) == j && UserRead(l, m, d, PROG_LOAD_BASE + v) == Some(FileOrZero(s, j))
  {
    v := ValueOnto(j);
  }
}
