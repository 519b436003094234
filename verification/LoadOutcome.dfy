/** When `load_program` succeeds, for any disk and any state of the machine (kernel/loader.cpp). */
module LoadOutcome {
  import opened Base
  import opened Bytes
  import opened Bitmap
  import opened PagingBits
  import opened PagingSpec
  import opened LoaderSpec
  import opened LoadSpec

  predicate SectorReadable(disk: seq<Byte>, e: DirEntry, t: nat) { ReadSector(disk, (e.lba + t) % WORD).Some? }

  /** The program's sectors from `lo` up to `hi` can be read, as far as it has them. */
  ghost predicate Readable(disk: seq<Byte>, e: DirEntry, lo: nat, hi: nat) {
    forall t | lo <= t < hi && t < e.sectors :: SectorReadable(disk, e, t)
  }

  lemma {:induction false} ReadIntoIff(frame: seq<Byte>, disk: seq<Byte>, e: DirEntry, page: nat, s: nat)
    requires |frame| == PAGE && s <= 8
    ensures ReadInto(frame, disk, e, page, s).1 <==> Readable(disk, e, 8 * page + s, 8 * page + 8)
    decreases 8 - s
  {
    if s < 8 && page * 8 + s < e.sectors {
      var t := 8 * page + s;
      assert e.lba + page * 8 + s == e.lba + t;
      match ReadSector(disk, (e.lba + t) % WORD)
      case None => assert !SectorReadable(disk, e, t);
      case Some(b) =>
        assert SectorReadable(disk, e, t);
        ReadIntoIff(frame[..512 * s] + b + frame[512 * s + 512..], disk, e, page, s + 1);
    }
  }

  lemma MapKeepsFrames(l: Layout, p: Pages, dir: nat, i: nat, j: nat, e: PagingSpec.Entry)
    requires p.Shape() && dir < ARRAYS && i < ENTRIES && j < ENTRIES && |l.addr| == ARRAYS
    ensures MapPage(l, p, dir, i, j, e).frames == p.frames
  {
  }

  /** A page can be loaded if and only if there is a frame and its sectors can be read; then one frame less is left. */
  lemma LoadPageIff(l: Layout, m: Machine, d: nat, disk: seq<Byte>, e: DirEntry, page: nat)
    requires m.Shape() && |l.addr| == ARRAYS && |l.frame| == FRAME_COUNT && d < THREAD_LIMIT
    ensures var (m1, ok) := LoadPage(l, m, d, disk, e, page);
            && (ok <==> 0 < Clear(m.pages.frames) && Readable(disk, e, 8 * page, 8 * page + 8))
            && (0 < Clear(m.pages.frames) ==> Clear(m1.pages.frames) == Clear(m.pages.frames) - 1)
  {
    ClearIff(m.pages.frames);
    if 0 < Clear(m.pages.frames) {
      var n := FirstClear(m.pages.frames);
      ReadIntoIff(m.ram[n], disk, e, page, 0);
      ClearAfterSet(m.pages.frames, n);
      MapKeepsFrames(l, FrameAlloc(m.pages).0, PD(d), SlotI(page), SlotJ(page), UserPage(l.frame[n]));
    }
  }

  /** There are frames and readable sectors for the pages from `page` up to `pages`. */
  ghost predicate Loadable(clear: nat, disk: seq<Byte>, e: DirEntry, page: nat, pages: nat) {
    pages - page <= clear && Readable(disk, e, 8 * page, 8 * pages)
  }

  lemma LoadableStep(clear: nat, disk: seq<Byte>, e: DirEntry, page: nat, pages: nat)
    requires page < pages
    ensures Loadable(clear, disk, e, page, pages) <==>
              0 < clear && Readable(disk, e, 8 * page, 8 * page + 8) && Loadable(clear - 1, disk, e, page + 1, pages)
  {
    ReadableSplit(disk, e, 8 * page, 8 * page + 8, 8 * pages);
  }

  lemma ReadableSplit(disk: seq<Byte>, e: DirEntry, lo: nat, mid: nat, hi: nat)
    requires lo <= mid <= hi
    ensures Readable(disk, e, lo, hi) <==> Readable(disk, e, lo, mid) && Readable(disk, e, mid, hi)
  {
  }

  /** A run of the page loop that starts at `page` and gets through. */
  ghost predicate GetsThrough(l: Layout, m: Machine, d: nat, disk: seq<Byte>, e: DirEntry, page: nat) {
    && m.Shape() && |l.addr| == ARRAYS && |l.frame| == FRAME_COUNT && d < THREAD_LIMIT
    && LoadPages(l, m, d, disk, e, page).1
  }

  lemma LoadPagesUnfold(l: Layout, m: Machine, d: nat, disk: seq<Byte>, e: DirEntry, page: nat)
    requires m.Shape() && |l.addr| == ARRAYS && |l.frame| == FRAME_COUNT && d < THREAD_LIMIT && page < NumPages(e.sectors)
    ensures var (m1, ok) := LoadPage(l, m, d, disk, e, page);
            GetsThrough(l, m, d, disk, e, page) <==> ok && GetsThrough(l, m1, d, disk, e, page + 1)
  {
  }

  /** One round of the loop on both sides. */
  lemma LoadPagesStep(l: Layout, m: Machine, d: nat, disk: seq<Byte>, e: DirEntry, page: nat, pages: nat)
    requires m.Shape() && |l.addr| == ARRAYS && |l.frame| == FRAME_COUNT && d < THREAD_LIMIT && page < pages == NumPages(e.sectors)
    ensures var (m1, ok) := LoadPage(l, m, d, disk, e, page);
            && (GetsThrough(l, m, d, disk, e, page) <==> ok && GetsThrough(l, m1, d, disk, e, page + 1))
            && (Loadable(Clear(m.pages.frames), disk, e, page, pages) <==> ok && Loadable(Clear(m1.pages.frames), disk, e, page + 1, pages))
  {
    LoadPagesUnfold(l, m, d, disk, e, page);
    LoadPageIff(l, m, d, disk, e, page);
    LoadableStep(Clear(m.pages.frames), disk, e, page, pages);
  }

  lemma {:induction false} LoadPagesIff(l: Layout, m: Machine, d: nat, disk: seq<Byte>, e: DirEntry, page: nat, pages: nat)
    requires m.Shape() && |l.addr| == ARRAYS && |l.frame| == FRAME_COUNT && d < THREAD_LIMIT && page <= pages == NumPages(e.sectors)
    ensures GetsThrough(l, m, d, disk, e, page) <==> Loadable(Clear(m.pages.frames), disk, e, page, pages)
    decreases pages - page
  {
    if page < pages {
      LoadPagesStep(l, m, d, disk, e, page, pages);
      LoadPagesIff(l, LoadPage(l, m, d, disk, e, page).0, d, disk, e, page + 1, pages);
    }
  }

  lemma NewSpaceIff(l: Layout, m: Machine, kernelStack: bool, callExit: nat)
    requires m.Shape() && |l.addr| == ARRAYS && |l.frame| == FRAME_COUNT && callExit < WORD
    ensures var (m1, d) := NewSpace(l, m, kernelStack, callExit);
            && (d.Some? <==> FirstClear(m.pages.pdUsed) < THREAD_LIMIT && kernelStack && 0 < Clear(m.pages.frames))
            && (d.Some? ==> Clear(m1.pages.frames) == Clear(m.pages.frames) - 1)
  {
    var (p, d) := AllocPageDirectory(m.pages);
    ClearIff(m.pages.frames);
    if d.Some? && 0 < Clear(m.pages.frames) {
      var n := FirstClear(p.frames);
      ClearAfterSet(p.frames, n);
      MapKeepsFrames(l, FrameAlloc(p).0, PD(d.value), STACK_I, STACK_J, UserPage(l.frame[n]));
    }
  }

  /**
  For any disk: `load_program` succeeds if and only if the name is in the directory, there are a thread block, a
  number, a directory and a kernel stack, frames for the stack and every page, and no sector that the loop asks
  for is beyond the end of the disk. The thread then begins at the entry point the directory gives.
  */
  lemma LoadProgramIff(l: Layout, m: Machine, disk: seq<Byte>, name: seq<Byte>, memory: bool, number: bool, kernelStack: bool, callExit: nat)
    requires m.Shape() && |l.addr| == ARRAYS && |l.frame| == FRAME_COUNT && callExit < WORD
    ensures var t, e := LoadProgram(l, m, disk, name, memory, number, kernelStack, callExit).1, Lookup(disk, name);
            && (t.Some? <==>
                 && e.Some? && memory && number && kernelStack && FirstClear(m.pages.pdUsed) < THREAD_LIMIT
                 && 0 < Clear(m.pages.frames) && Loadable(Clear(m.pages.frames) - 1, disk, e.value, 0, NumPages(e.value.sectors)))
            && (t.Some? ==> t.value.eip == e.value.entry)
  {
    NewSpaceIff(l, m, kernelStack, callExit);
    var (m1, d) := NewSpace(l, m, kernelStack, callExit);
    if Lookup(disk, name).Some? && d.Some? { LoadPagesIff(l, m1, d.value, disk, Lookup(disk, name).value, 0, NumPages(Lookup(disk, name).value.sectors)); }
  }
}
