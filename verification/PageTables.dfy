/** The page tables as the kernel keeps them: static arrays of words, updated in place (kernel/paging.cpp). */
module PageTables {
  import opened Base
  import opened Bitmap
  import opened PagingBits
  import opened PagingSpec
  import opened PagingBoot
  import opened PagingIsolation
  import opened PagingTheorems

  /** What the processor reads in a word of a directory or table. */
  function Unpack(word: bv32): Entry { Entry(Has(word, PRESENT), Has(word, USER), PageOf(word), word & FLAGS) }

  lemma UnpackTable(a: bv32)
    requires Aligned(a)
    ensures Unpack(a | PRESENT | RW | USER) == Entry(true, true, a, 7)
  {
  }

  lemma UnpackKernel(a: bv32)
    requires Aligned(a)
    ensures Unpack(a | PRESENT | RW) == Entry(true, false, a, 3)
  {
  }

  /** A frame and low flags come back out of the word `map_page` writes. */
  lemma UnpackPage(a: bv32, flags: bv32)
    requires Aligned(a) && PageOf(flags) == 0
    ensures Unpack(a | flags | PRESENT) == Entry(true, Has(flags, USER), a, flags | PRESENT)
  {
  }

  lemma MapMeans(l: Layout, k: Kernel, p: Pages, d: nat, i: nat, j: nat, e: Entry, c: nat, a: nat, b: nat, same: bool)
    requires Inv(l, k, p) && d < THREAD_LIMIT && p.pdUsed[d] && c < THREAD_LIMIT && p.pdUsed[c] && e.present
    requires KERNEL_TABLES <= i < ENTRIES && j < ENTRIES && a < ENTRIES && b < ENTRIES && (same <==> a == i && b == j)
    ensures Translate(l, MapPage(l, p, PD(d), i, j, e), PD(c), a, b)
              == if CanMap(p, d, i) && c == d && same then Some(Page(e.page, e.flags, e.user)) else Translate(l, p, PD(c), a, b)
  {
    MapPageRefines(l, k, p, d, i, j, e, c, a, b);
  }

  /** In terms of addresses: the pages of `va`, and no others, come to show the entry. */
  lemma MapPageAt(l: Layout, k: Kernel, p: Pages, d: nat, va: bv32, e: Entry, c: nat, vb: bv32)
    requires Inv(l, k, p) && d < THREAD_LIMIT && p.pdUsed[d] && c < THREAD_LIMIT && p.pdUsed[c] && KERNEL_END <= va && e.present
    ensures Translate(l, MapPage(l, p, PD(d), PdIndex(va), PtIndex(va), e), PD(c), PdIndex(vb), PtIndex(vb))
              == if CanMap(p, d, PdIndex(va)) && c == d && PageOf(vb) == PageOf(va) then Some(Page(e.page, e.flags, e.user))
                 else Translate(l, p, PD(c), PdIndex(vb), PtIndex(vb))
  {
    KernelHalf(va);
    SamePageIff(vb, va);
    MapMeans(l, k, p, d, PdIndex(va), PtIndex(va), e, c, PdIndex(vb), PtIndex(vb), PageOf(vb) == PageOf(va));
  }

  /**
  `map_page` in the user half, with the word it writes: the page of `va` in directory `d` becomes the frame with
  its flags and the present bit, if a table is there or left for it; every other page stays what it was.
  */
  lemma MapPageMeaning(l: Layout, k: Kernel, p: Pages, d: nat, va: bv32, pa: bv32, flags: bv32, e: Entry, c: nat, vb: bv32)
    requires Inv(l, k, p) && d < THREAD_LIMIT && p.pdUsed[d] && c < THREAD_LIMIT && p.pdUsed[c]
    requires KERNEL_END <= va && Aligned(pa) && PageOf(flags) == 0 && e == Unpack(pa | flags | PRESENT)
    ensures Translate(l, MapPage(l, p, PD(d), PdIndex(va), PtIndex(va), e), PD(c), PdIndex(vb), PtIndex(vb))
              == if CanMap(p, d, PdIndex(va)) && c == d && PageOf(vb) == PageOf(va)
                 then Some(Page(pa, flags | PRESENT, Has(flags, USER)))
                 else Translate(l, p, PD(c), PdIndex(vb), PtIndex(vb))
  {
    UnpackPage(pa, flags);
    MapPageAt(l, k, p, d, va, e, c, vb);
  }

  class PageTables {
    const layout: Layout
    const storage: array2<bv32>
    const pdUsed: array<bool>
    const uptUsed: array<bool>
    const frameBitmap: array<bv8>
    var ptCount: nat
    ghost var pages: Pages

    ghost predicate Valid()
      reads this, storage, pdUsed, uptUsed, frameBitmap
    {
      && Linked(layout) && pages.Shape() && pdUsed != uptUsed
      && storage.Length0 == ARRAYS && storage.Length1 == ENTRIES
      && (forall k, i | 0 <= k < ARRAYS && 0 <= i < ENTRIES :: pages.mem[k][i] == Unpack(storage[k, i]))
      && ptCount == pages.ptCount && pdUsed[..] == pages.pdUsed && uptUsed[..] == pages.uptUsed
      && Bits(frameBitmap[..]) == pages.frames
    }

    /** One word of a directory or table. */
    method Write(k: nat, i: nat, word: bv32)
      requires Valid() && k < ARRAYS && i < ENTRIES
      modifies storage, `pages
      ensures Valid() && pages == old(pages).Set(k, i, Unpack(word))
    {
      storage[k, i] := word;
      pages := pages.Set(k, i, Unpack(word));
    }

    method CopyRow(k: nat, from: nat)
      requires Valid() && k < ARRAYS && from < ARRAYS && k != from
      modifies storage, `pages
      ensures Valid() && pages == old(pages).(mem := old(pages).mem[k := old(pages).mem[from]])
    {
      for j := 0 to ENTRIES
        modifies storage
        invariant forall i | 0 <= i < j :: storage[k, i] == old(storage[from, i])
        invariant forall n, i | 0 <= n < ARRAYS && 0 <= i < ENTRIES && n != k :: storage[n, i] == old(storage[n, i])
      {
        storage[k, j] := storage[from, j];
      }
      pages := pages.(mem := pages.mem[k := pages.mem[from]]);
    }

    method ClearRow(k: nat)
      requires Valid() && k < ARRAYS
      modifies storage, `pages
      ensures Valid() && pages == old(pages).(mem := old(pages).mem[k := EmptyTable()])
    {
      for j := 0 to ENTRIES
        modifies storage
        invariant forall i | 0 <= i < j :: storage[k, i] == 0
        invariant forall n, i | 0 <= n < ARRAYS && 0 <= i < ENTRIES && n != k :: storage[n, i] == old(storage[n, i])
      {
        storage[k, j] := 0;
      }
      pages := pages.(mem := pages.mem[k := EmptyTable()]);
    }

    method AllocPageTable() returns (k: Option<nat>)
      requires Valid()
      modifies `ptCount, `pages
      ensures Valid()
      ensures if old(ptCount) < KERNEL_TABLES
              then k == Some(KPT(old(ptCount))) && pages == old(pages).(ptCount := old(ptCount) + 1)
              else k.None? && pages == old(pages)
    {
      if ptCount >= KERNEL_TABLES { return None; }
      k := Some(KPT(ptCount));
      ptCount := ptCount + 1;
      pages := pages.(ptCount := ptCount);
    }

    /** The first slot of a flag array that is not in use. */
    static method FirstUnused(used: array<bool>) returns (i: nat)
      ensures i == FirstClear(used[..])
    {
      i := 0;
      while i < used.Length && used[i]
        invariant i <= used.Length && forall j | 0 <= j < i :: used[j]
      {
        i := i + 1;
      }
      FirstClearIs(used[..], i);
    }

    method AllocPageDirectory() returns (pd: Option<nat>)
      requires Valid()
      modifies storage, pdUsed, `pages
      ensures Valid()
      ensures pages == PagingSpec.AllocPageDirectory(old(pages)).0
      ensures pd == match PagingSpec.AllocPageDirectory(old(pages)).1 case None => None case Some(d) => Some(PD(d))
    {
      var i := FirstUnused(pdUsed);
      if i == THREAD_LIMIT { return None; }
      pdUsed[i] := true;
      pages := pages.(pdUsed := pages.pdUsed[i := true]);
      CopyRow(PD(i), KDIR);
      pd := Some(PD(i));
    }

    /** Frees the directory held in array `pd`; an array that is no process directory is ignored. */
    method FreePageDirectory(pd: nat)
      requires Valid()
      modifies pdUsed, `pages
      ensures Valid()
      ensures pages == if PD(0) <= pd < PD(THREAD_LIMIT) then PagingSpec.FreePageDirectory(old(pages), pd - PD(0)) else old(pages)
    {
      for i := 0 to THREAD_LIMIT
        modifies pdUsed, `pages
        invariant Valid() && pages == old(pages)
        invariant !(PD(0) <= pd < PD(i))
      {
        if PD(i) == pd {
          pdUsed[i] := false;
          pages := pages.(pdUsed := pages.pdUsed[i := false]);
          return;
        }
      }
    }

    /** The address of a frame no one has, now taken, or 0 when there is none. */
    method FrameAlloc() returns (paddr: bv32)
      requires Valid()
      modifies frameBitmap, `pages
      ensures Valid()
      ensures pages == PagingSpec.FrameAlloc(old(pages)).0
      ensures match PagingSpec.FrameAlloc(old(pages)).1 case None => paddr == 0 case Some(n) => paddr == layout.frame[n]
    {
      var i := 0;
      while i < FRAME_COUNT && Get(frameBitmap[..], i)
        invariant i <= FRAME_COUNT && forall j | 0 <= j < i :: pages.frames[j]
      {
        i := i + 1;
      }
      FirstClearIs(pages.frames, i);
      if i == FRAME_COUNT { return 0; }
      Mark(frameBitmap, i);
      pages := pages.(frames := pages.frames[i := true]);
      paddr := FRAME_START + (i as bv32) * 0x1000;
    }

    /** An address outside the frames is ignored. */
    method FrameFree(paddr: bv32)
      requires Valid()
      modifies frameBitmap, `pages
      ensures Valid()
      ensures pages == if FRAME_START <= paddr < FRAME_END then PagingSpec.FrameFree(old(pages), FrameIndex(paddr)) else old(pages)
    {
      if paddr < FRAME_START || paddr >= FRAME_END { return; }
      var i := FrameIndex(paddr);
      Unmark(frameBitmap, i);
      pages := pages.(frames := pages.frames[i := false]);
    }

    method AllocUserPageTable() returns (k: Option<nat>)
      requires Valid()
      modifies storage, uptUsed, `pages
      ensures Valid()
      ensures var t := FirstClear(old(pages).uptUsed);
              if t == MAX_USER_PT then k.None? && pages == old(pages) else k == Some(UPT(t)) && pages == TakeTable(old(pages), t)
    {
      var i := FirstUnused(uptUsed);
      if i == MAX_USER_PT { return None; }
      uptUsed[i] := true;
      pages := pages.(uptUsed := pages.uptUsed[i := true]);
      ClearRow(UPT(i));
      k := Some(UPT(i));
    }

    /** The table behind a directory entry. */
    method Follow(pd: nat, i: nat) returns (k: Option<nat>)
      requires Valid() && pd < ARRAYS && i < ENTRIES && pages.mem[pd][i].present
      ensures k == TableOf(layout, pages, pd, i)
    {
      k := layout.At(PageOf(storage[pd, i]));
    }

    /** Makes the directory entry present, if it can. */
    method EnsureTable(pd: nat, i: nat) returns (ok: bool)
      requires Valid() && pd < ARRAYS && i < ENTRIES
      modifies storage, uptUsed, `pages
      ensures Valid() && pages == PagingSpec.EnsureTable(layout, old(pages), pd, i)
      ensures ok == pages.mem[pd][i].present
    {
      if Has(storage[pd, i], PRESENT) { return true; }
      var pt := AllocUserPageTable();
      if pt.None? { return false; }
      UnpackTable(layout.addr[pt.value]);
      Write(pd, i, layout.addr[pt.value] | PRESENT | RW | USER);
      ok := true;
    }

    method MapPage(pd: nat, vaddr: bv32, paddr: bv32, flags: bv32)
      requires Valid() && pd < ARRAYS
      modifies storage, uptUsed, `pages
      ensures Valid()
      ensures pages == PagingSpec.MapPage(layout, old(pages), pd, PdIndex(vaddr), PtIndex(vaddr), Unpack(paddr | flags | PRESENT))
    {
      var pdi, pti := PdIndex(vaddr), PtIndex(vaddr);
      var ok := EnsureTable(pd, pdi);
      if !ok { return; }
      var pt := Follow(pd, pdi);
      if pt.Some? { Write(pt.value, pti, paddr | flags | PRESENT); }
    }

    /** Makes an entry of a directory present, if a static table is left. */
    method EnsureKernelTable(dir: nat, i: nat) returns (ok: bool)
      requires Valid() && dir < ARRAYS && i < ENTRIES
      modifies storage, `ptCount, `pages
      ensures Valid() && ok == (old(pages).mem[dir][i].present || old(pages).ptCount < KERNEL_TABLES)
      ensures pages == if old(pages).mem[dir][i].present || !ok then old(pages)
                       else old(pages).(ptCount := old(pages).ptCount + 1).Set(dir, i, KernelEntry(layout, old(pages).ptCount))
    {
      if Has(storage[dir, i], PRESENT) { return true; }
      var pt := AllocPageTable();
      if pt.None? { return false; }
      UnpackKernel(layout.addr[pt.value]);
      Write(dir, i, layout.addr[pt.value] | PRESENT | RW);
      ok := true;
    }

    method WriteIdentity(dir: nat, va: bv32)
      requires Valid() && dir < ARRAYS && Aligned(va) && pages.mem[dir][PdIndex(va)].present
      modifies storage, `pages
      ensures Valid() && pages == PagingBoot.WriteIdentity(layout, old(pages), dir, va)
    {
      var pt := Follow(dir, PdIndex(va));
      UnpackKernel(va);
      if pt.Some? { Write(pt.value, PtIndex(va), va | PRESENT | RW); }
    }

    /** One round of `identity_map`; false when it has to stop. */
    method IdentityPage(dir: nat, va: bv32) returns (ok: bool)
      requires Valid() && dir < ARRAYS && Aligned(va)
      modifies storage, `ptCount, `pages
      ensures Valid()
      ensures match IdentityStep(layout, old(pages), dir, va) case None => !ok && pages == old(pages) case Some(p) => ok && pages == p
    {
      ok := EnsureKernelTable(dir, PdIndex(va));
      if ok { WriteIdentity(dir, va); }
    }

    /** `identity_map` of a directory, up to 0x2000000 at most. */
    method IdentityMap(dir: nat, start: bv32, end: bv32)
      requires Valid() && dir < ARRAYS && end <= KERNEL_END
      modifies storage, `ptCount, `pages
      ensures Valid() && pages == PagingBoot.IdentityMap(layout, old(pages), dir, PageOf(start), end)
    {
      var va := PageOf(start);
      var ok := true;
      while va < end && ok
        modifies storage, `ptCount, `pages
        invariant Valid() && Aligned(va)
        invariant ok ==> PagingBoot.IdentityMap(layout, pages, dir, va, end) == PagingBoot.IdentityMap(layout, old(pages), dir, PageOf(start), end)
        invariant !ok ==> pages == PagingBoot.IdentityMap(layout, old(pages), dir, PageOf(start), end)
        decreases PagesLeft(va), ok
      {
        ok := IdentityPage(dir, va);
        if ok {
          NextAligned(va);
          FewerPagesLeft(va);
          va := va + 0x1000;
        }
      }
    }

    /** The arrays as the loader leaves them: all zero. */
    constructor (layout: Layout)
      requires Linked(layout)
      ensures Valid() && Blank(pages) && this.layout == layout
      ensures fresh(storage) && fresh(pdUsed) && fresh(uptUsed) && fresh(frameBitmap)
    {
      this.layout := layout;
      storage := new bv32[ARRAYS, ENTRIES]((_, _) => 0);
      pdUsed := new bool[THREAD_LIMIT](_ => false);
      uptUsed := new bool[MAX_USER_PT](_ => false);
      frameBitmap := new bv8[FRAME_COUNT / 8](_ => 0);
      ptCount := 0;
      new;
      pages := Pages(seq(ARRAYS, _ => EmptyTable()), 0, pdUsed[..], uptUsed[..], Bits(frameBitmap[..]));
    }

    method InitPaging()
      requires Valid() && Blank(pages)
      modifies storage, `ptCount, `pages
      ensures Valid() && pages == PagingBoot.IdentityMap(layout, old(pages), KDIR, 0, KERNEL_END)
      ensures ptCount == KERNEL_TABLES && Booted(layout, KernelOf(pages), pages)
    {
      IdentityMap(KDIR, 0, KERNEL_END);
      PagingBoot.InitPaging(layout, old(pages), 0);
    }
  }
}
