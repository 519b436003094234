/** A loaded program is readable, byte for byte, at 0x08048000 (kernel/loader.cpp). */
module LoadTheorems {
  import opened Base
  import opened Bytes
  import opened Bitmap
  import opened PagingBits
  import opened PagingSpec
  import opened PagingTheorems
  import opened ImageSpec
  import opened LoaderSpec
  import opened LoadSpec

  // ---------------------------------------------------------------- the sectors of one page

  /** The disk holds `block` where the entry says. */
  ghost predicate Held(disk: seq<Byte>, e: DirEntry, block: seq<Byte>) {
    && |block| == 512 * e.sectors
    && forall t | 0 <= t < e.sectors :: ReadSector(disk, (e.lba + t) % WORD) == Some(block[512 * t..512 * t + 512])
  }

  /** The first `upto` bytes of a frame are those of the page, as far as the program goes. */
  ghost predicate Holds(frame: seq<Byte>, block: seq<Byte>, page: nat, upto: nat)
    requires |frame| == PAGE && upto <= PAGE
  {
    forall o | 0 <= o < upto && 4096 * page + o < |block| :: frame[o] == block[4096 * page + o]
  }

  lemma OneSector(frame: seq<Byte>, block: seq<Byte>, page: nat, s: nat, b: seq<Byte>)
    requires |frame| == PAGE && s < 8 && Holds(frame, block, page, 512 * s)
    requires 4096 * page + 512 * s + 512 <= |block| && b == block[4096 * page + 512 * s..4096 * page + 512 * s + 512]
    ensures Holds(frame[..512 * s] + b + frame[512 * s + 512..], block, page, 512 * s + 512)
  {
    var f := frame[..512 * s] + b + frame[512 * s + 512..];
    forall o | 0 <= o < 512 * s + 512 && 4096 * page + o < |block| ensures f[o] == block[4096 * page + o] {
      if o < 512 * s { assert f[o] == frame[o]; } else { assert f[o] == b[o - 512 * s]; }
    }
  }

  lemma {:induction false} ReadIntoHolds(frame: seq<Byte>, disk: seq<Byte>, e: DirEntry, page: nat, s: nat, block: seq<Byte>)
    requires |frame| == PAGE && s <= 8 && Held(disk, e, block) && Holds(frame, block, page, 512 * s)
    ensures ReadInto(frame, disk, e, page, s).1 && Holds(ReadInto(frame, disk, e, page, s).0, block, page, PAGE)
    decreases 8 - s
  {
    if s < 8 && page * 8 + s < e.sectors {
      var t := page * 8 + s;
      assert e.lba + page * 8 + s == e.lba + t;
      var b := block[512 * t..512 * t + 512];
      OneSector(frame, block, page, s, b);
      ReadIntoHolds(frame[..512 * s] + b + frame[512 * s + 512..], disk, e, page, s + 1, block);
    }
  }

  // ---------------------------------------------------------------- tables for the pages

  /** Tables the first `page` pages need. */
  function TablesFor(page: nat): nat { if page == 0 then 0 else (0x8048 + page - 1) / 1024 - 31 }

  lemma Slots(page: nat)
    requires page < FRAME_COUNT
    ensures 32 <= SlotI(page) < 40 && SlotI(page) == (0x8048 + page) / 1024
    ensures SlotI(page) == 31 + TablesFor(page) || (SlotI(page) == 32 + TablesFor(page) && (page == 0 || SlotJ(page) == 0))
  {
  }

  lemma SlotsDiffer(q: nat, page: nat)
    requires q < page < FRAME_COUNT
    ensures SlotI(q) != SlotI(page) || SlotJ(q) != SlotJ(page)
  {
  }

  /** With `total` tables for the program, the first ones are in place after `page` pages. */
  ghost predicate Accounts(p: Pages, d: nat, page: nat, total: nat)
    requires p.Shape() && d < THREAD_LIMIT
  {
    var taken := Min(total, TablesFor(page));
    && Clear(p.uptUsed) == total - taken
    && forall i | KERNEL_TABLES <= i < STACK_I :: p.mem[PD(d)][i].present <==> 32 <= i < 32 + taken
  }

  /** A page finds a table exactly when its place among the program's tables is below their number. */
  lemma MapAccounts(l: Layout, k: Kernel, p: Pages, d: nat, page: nat, e: Entry, total: nat)
    requires Inv(l, k, p) && d < THREAD_LIMIT && p.pdUsed[d] && page < FRAME_COUNT && Accounts(p, d, page, total)
    ensures CanMap(p, d, SlotI(page)) <==> SlotI(page) < 32 + total
    ensures Accounts(MapPage(l, p, PD(d), SlotI(page), SlotJ(page), e), d, page + 1, total)
  {
    var i := SlotI(page);
    Slots(page);
    ClearIff(p.uptUsed);
    MapPageKeepsInv(l, k, p, d, i, SlotJ(page), e);
    if CanMap(p, d, i) {
      var p1, t := MapPageSteps(l, k, p, d, i, SlotJ(page), e);
      if !p.mem[PD(d)][i].present {
        EnsureEntries(l, k, p, d, i);
        ClearAfterSet(p.uptUsed, FirstClear(p.uptUsed));
      }
    }
  }

  // ---------------------------------------------------------------- the page loop

  /** Page `q` is in frame `n`, and is shown if there was a table for it. */
  ghost predicate PageLoaded(l: Layout, m: Machine, d: nat, q: nat, n: nat, block: seq<Byte>, total: nat)
    requires m.Shape() && l.Ok() && d < THREAD_LIMIT
  {
    && n < FRAME_COUNT && m.pages.frames[n] && Holds(m.ram[n], block, q, PAGE)
    && Translate(l, m.pages, PD(d), SlotI(q), SlotJ(q)) == if SlotI(q) < 32 + total then Some(Page(l.frame[n], 7, true)) else None
  }

  /** The machine after `|ns|` pages, the frames of which are `ns`. */
  ghost predicate Loading(l: Layout, k: Kernel, m: Machine, d: nat, block: seq<Byte>, ns: seq<nat>, total: nat) {
    && m.Shape() && Inv(l, k, m.pages) && d < THREAD_LIMIT && m.pages.pdUsed[d]
    && |ns| + Clear(m.pages.frames) <= FRAME_COUNT && Accounts(m.pages, d, |ns|, total)
    && forall q | 0 <= q < |ns| :: PageLoaded(l, m, d, q, ns[q], block, total)
  }

  lemma TakeFrame(l: Layout, k: Kernel, p: Pages)
    requires Inv(l, k, p) && 0 < Clear(p.frames)
    ensures var n, p0 := FirstClear(p.frames), FrameAlloc(p).0;
            && FrameAlloc(p).1 == Some(n) && n < FRAME_COUNT && !p.frames[n] && p0.frames == p.frames[n := true]
            && Inv(l, k, p0) && Clear(p0.frames) == Clear(p.frames) - 1 && p0 == p.(frames := p0.frames)
  {
    ClearIff(p.frames);
    FlagsKeepInv(l, k, p, FrameAlloc(p).0);
    ClearAfterSet(p.frames, FirstClear(p.frames));
  }

  /** Mapping the next page: it shows if there is a table for it, and the other pages show what they did. */
  lemma MapShows(l: Layout, k: Kernel, p: Pages, d: nat, page: nat, a: bv32, q: nat, total: nat)
    requires Inv(l, k, p) && d < THREAD_LIMIT && p.pdUsed[d] && q <= page < FRAME_COUNT && Accounts(p, d, page, total)
    ensures Translate(l, MapPage(l, p, PD(d), SlotI(page), SlotJ(page), UserPage(a)), PD(d), SlotI(q), SlotJ(q))
              == if q < page then Translate(l, p, PD(d), SlotI(q), SlotJ(q))
                 else if SlotI(page) < 32 + total then Some(Page(a, 7, true)) else None
  {
    Slots(page);
    MapAccounts(l, k, p, d, page, UserPage(a), total);
    MapPageRefines(l, k, p, d, SlotI(page), SlotJ(page), UserPage(a), d, SlotI(q), SlotJ(q));
    if q < page { SlotsDiffer(q, page); }
  }

  /** The pages loaded before are not disturbed by the next one. */
  lemma LoadPageKeeps(l: Layout, k: Kernel, m: Machine, d: nat, disk: seq<Byte>, e: DirEntry, block: seq<Byte>, ns: seq<nat>, total: nat, q: nat)
    requires Loading(l, k, m, d, block, ns, total) && 0 < Clear(m.pages.frames) && q < |ns|
    ensures PageLoaded(l, LoadPage(l, m, d, disk, e, |ns|).0, d, q, ns[q], block, total)
  {
    var n, p0 := FirstClear(m.pages.frames), FrameAlloc(m.pages).0;
    TakeFrame(l, k, m.pages);
    assert PageLoaded(l, m, d, q, ns[q], block, total);
    MapPageKeepsInvAt(l, k, p0, d, |ns|, UserPage(l.frame[n]));
    MapShows(l, k, p0, d, |ns|, l.frame[n], q, total);
  }

  lemma MapPageKeepsInvAt(l: Layout, k: Kernel, p: Pages, d: nat, page: nat, e: Entry)
    requires Inv(l, k, p) && d < THREAD_LIMIT && p.pdUsed[d] && page < FRAME_COUNT
    ensures var p' := MapPage(l, p, PD(d), SlotI(page), SlotJ(page), e); Inv(l, k, p') && p'.pdUsed == p.pdUsed && p'.frames == p.frames
  {
    Slots(page);
    MapPageKeepsInv(l, k, p, d, SlotI(page), SlotJ(page), e);
  }

  lemma LoadPageState(l: Layout, k: Kernel, m: Machine, d: nat, disk: seq<Byte>, e: DirEntry, block: seq<Byte>, ns: seq<nat>, total: nat)
    requires Loading(l, k, m, d, block, ns, total) && Held(disk, e, block) && 0 < Clear(m.pages.frames)
    ensures var (m1, ok) := LoadPage(l, m, d, disk, e, |ns|);
            && ok && Inv(l, k, m1.pages) && m1.pages.pdUsed == m.pages.pdUsed && Accounts(m1.pages, d, |ns| + 1, total)
            && Clear(m1.pages.frames) == Clear(m.pages.frames) - 1
  {
    var n, p0 := FirstClear(m.pages.frames), FrameAlloc(m.pages).0;
    TakeFrame(l, k, m.pages);
    ReadIntoHolds(m.ram[n], disk, e, |ns|, 0, block);
    MapPageKeepsInvAt(l, k, p0, d, |ns|, UserPage(l.frame[n]));
    MapAccounts(l, k, p0, d, |ns|, UserPage(l.frame[n]), total);
  }

  lemma LoadPageNew(l: Layout, k: Kernel, m: Machine, d: nat, disk: seq<Byte>, e: DirEntry, block: seq<Byte>, ns: seq<nat>, total: nat)
    requires Loading(l, k, m, d, block, ns, total) && Held(disk, e, block) && 0 < Clear(m.pages.frames)
    ensures PageLoaded(l, LoadPage(l, m, d, disk, e, |ns|).0, d, |ns|, FirstClear(m.pages.frames), block, total)
  {
    var n, p0 := FirstClear(m.pages.frames), FrameAlloc(m.pages).0;
    TakeFrame(l, k, m.pages);
    ReadIntoHolds(m.ram[n], disk, e, |ns|, 0, block);
    MapPageKeepsInvAt(l, k, p0, d, |ns|, UserPage(l.frame[n]));
    MapShows(l, k, p0, d, |ns|, l.frame[n], |ns|, total);
  }

  lemma ExtendLoading(l: Layout, k: Kernel, m: Machine, d: nat, block: seq<Byte>, ns: seq<nat>, n: nat, total: nat)
    requires m.Shape() && Inv(l, k, m.pages) && d < THREAD_LIMIT && m.pages.pdUsed[d]
    requires |ns| + 1 + Clear(m.pages.frames) <= FRAME_COUNT && Accounts(m.pages, d, |ns| + 1, total)
    requires forall q | 0 <= q < |ns| :: PageLoaded(l, m, d, q, ns[q], block, total)
    requires PageLoaded(l, m, d, |ns|, n, block, total)
    ensures Loading(l, k, m, d, block, ns + [n], total)
  {
  }

  lemma LoadPageStep(l: Layout, k: Kernel, m: Machine, d: nat, disk: seq<Byte>, e: DirEntry, block: seq<Byte>, ns: seq<nat>, total: nat)
    requires Loading(l, k, m, d, block, ns, total) && Held(disk, e, block) && 0 < Clear(m.pages.frames)
    ensures var (m1, ok) := LoadPage(l, m, d, disk, e, |ns|);
            && ok && Loading(l, k, m1, d, block, ns + [FirstClear(m.pages.frames)], total)
            && Clear(m1.pages.frames) == Clear(m.pages.frames) - 1
  {
    var m1 := LoadPage(l, m, d, disk, e, |ns|).0;
    LoadPageState(l, k, m, d, disk, e, block, ns, total);
    LoadPageNew(l, k, m, d, disk, e, block, ns, total);
    forall q | 0 <= q < |ns| ensures PageLoaded(l, m1, d, q, ns[q], block, total) {
      LoadPageKeeps(l, k, m, d, disk, e, block, ns, total, q);
    }
    ExtendLoading(l, k, m1, d, block, ns, FirstClear(m.pages.frames), total);
  }

  /** The loop ends well if and only if there is a frame for every page; then every page is in its frame. */
  lemma {:induction false} LoadPagesLoads(l: Layout, k: Kernel, m: Machine, d: nat, disk: seq<Byte>, e: DirEntry, block: seq<Byte>,
                                          ns: seq<nat>, total: nat)
    returns (ns': seq<nat>)
    requires Loading(l, k, m, d, block, ns, total) && Held(disk, e, block) && |ns| <= NumPages(e.sectors)
    ensures LoadPages(l, m, d, disk, e, |ns|).1 <==> NumPages(e.sectors) <= |ns| + Clear(m.pages.frames)
    ensures LoadPages(l, m, d, disk, e, |ns|).1 ==>
              |ns'| == NumPages(e.sectors) && Loading(l, k, LoadPages(l, m, d, disk, e, |ns|).0, d, block, ns', total)
    decreases NumPages(e.sectors) - |ns|
  {
    ns' := ns;
    if |ns| < NumPages(e.sectors) {
      ClearIff(m.pages.frames);
      if 0 < Clear(m.pages.frames) {
        LoadPageStep(l, k, m, d, disk, e, block, ns, total);
        ns' := LoadPagesLoads(l, k, LoadPage(l, m, d, disk, e, |ns|).0, d, disk, e, block, ns + [FirstClear(m.pages.frames)], total);
      }
    }
  }

  // ---------------------------------------------------------------- the new address space

  /** Tables left for a program once the stack has taken one. */
  function ForProgram(p: Pages): nat { if Clear(p.uptUsed) == 0 then 0 else Clear(p.uptUsed) - 1 }

  /** A new directory has no table of its own. */
  lemma NewDirectory(l: Layout, k: Kernel, p: Pages, d: nat)
    requires Inv(l, k, p) && AllocPageDirectory(p).1 == Some(d)
    ensures var p1 := AllocPageDirectory(p).0;
            && Inv(l, k, p1) && d < THREAD_LIMIT && p1.pdUsed[d] && p1.frames == p.frames && p1.uptUsed == p.uptUsed
            && forall i | KERNEL_TABLES <= i < ENTRIES :: !p1.mem[PD(d)][i].present
  {
    AllocKeepsInv(l, k, p);
  }

  /** After the stack is mapped the program's tables are counted from none. */
  lemma StackAccounts(l: Layout, k: Kernel, p: Pages, d: nat, e: Entry)
    requires Inv(l, k, p) && d < THREAD_LIMIT && p.pdUsed[d] && forall i | KERNEL_TABLES <= i < ENTRIES :: !p.mem[PD(d)][i].present
    ensures var q := MapPage(l, p, PD(d), STACK_I, STACK_J, e);
            Inv(l, k, q) && q.pdUsed == p.pdUsed && q.frames == p.frames && Accounts(q, d, 0, ForProgram(p))
  {
    MapPageKeepsInv(l, k, p, d, STACK_I, STACK_J, e);
    ClearIff(p.uptUsed);
    if CanMap(p, d, STACK_I) {
      var p1, t := MapPageSteps(l, k, p, d, STACK_I, STACK_J, e);
      EnsureEntries(l, k, p, d, STACK_I);
      ClearAfterSet(p.uptUsed, FirstClear(p.uptUsed));
    }
  }

  /** `thread_create` needs a directory, a kernel stack and a frame; then the program can be loaded from page 0. */
  lemma NewSpaceReady(l: Layout, k: Kernel, m: Machine, kernelStack: bool, callExit: nat, block: seq<Byte>)
    requires m.Shape() && Inv(l, k, m.pages) && callExit < WORD
    ensures var (m1, d) := NewSpace(l, m, kernelStack, callExit);
            && (d.Some? <==> FirstClear(m.pages.pdUsed) < THREAD_LIMIT && kernelStack && 0 < Clear(m.pages.frames))
            && (d.Some? ==> Clear(m1.pages.frames) == Clear(m.pages.frames) - 1
                            && Loading(l, k, m1, d.value, block, [], ForProgram(m.pages)))
  {
    var (p1, dd) := AllocPageDirectory(m.pages);
    ClearIff(m.pages.frames);
    if dd.Some? && kernelStack && 0 < Clear(m.pages.frames) {
      NewDirectory(l, k, m.pages, dd.value);
      TakeFrame(l, k, p1);
      StackAccounts(l, k, FrameAlloc(p1).0, dd.value, UserPage(l.frame[FirstClear(p1.frames)]));
    }
  }
}
