/** `init_paging`: the identity map of the kernel, from 0 up to 0x2000000 (kernel/paging.cpp). */
module PagingBoot {
  import opened Base
  import opened PagingBits
  import opened PagingSpec
  import opened PagingTheorems
  import opened PagingIsolation

  const KERNEL_END: bv32 := 0x200_0000

  /** The linker aligns the arrays and puts them below the frames. */
  ghost predicate Linked(l: Layout) {
    && |l.addr| == ARRAYS && Distinct(l.addr) && (forall k | 0 <= k < ARRAYS :: Aligned(l.addr[k]) && l.addr[k] < FRAME_START)
    && |l.frame| == FRAME_COUNT && (forall n | 0 <= n < FRAME_COUNT :: l.frame[n] == FrameAddress(n))
  }

  lemma LinkedOk(l: Layout)
    requires Linked(l)
    ensures l.Ok()
  {
    forall n | 0 <= n < FRAME_COUNT ensures FRAME_START <= l.frame[n] < FRAME_END && FrameIndex(l.frame[n]) == n {
      FrameRoundTrip(n);
    }
    forall k, n | 0 <= k < ARRAYS && 0 <= n < FRAME_COUNT ensures l.addr[k] != l.frame[n] {
      assert l.addr[k] < FRAME_START;
    }
  }

  /** The kernel's entry for the page at `va`: itself, present and writable, not for ring 3. */
  function Identity(va: bv32): Entry { Entry(true, false, va, 3) }

  /** `identity_map` of directory `dir` for one page: a table if there is none, then the entry. Stops when tables run out. */
  function IdentityStep(l: Layout, p: Pages, dir: nat, va: bv32): (r: Option<Pages>)
    requires p.Shape() && |l.addr| == ARRAYS && dir < ARRAYS
    ensures r.Some? ==> r.value.Shape()
  {
    var i := PdIndex(va);
    if p.mem[dir][i].present then Some(WriteIdentity(l, p, dir, va))
    else if p.ptCount >= KERNEL_TABLES then None
    else Some(WriteIdentity(l, p.(ptCount := p.ptCount + 1).Set(dir, i, KernelEntry(l, p.ptCount)), dir, va))
  }

  function WriteIdentity(l: Layout, p: Pages, dir: nat, va: bv32): (r: Pages)
    requires p.Shape() && |l.addr| == ARRAYS && dir < ARRAYS
    ensures r.Shape()
  {
    match TableOf(l, p, dir, PdIndex(va))
    case None => p
    case Some(k) => p.Set(k, PtIndex(va), Identity(va))
  }

  /** From page `va` on, up to `end`. */
  function IdentityMap(l: Layout, p: Pages, dir: nat, va: bv32, end: bv32): (r: Pages)
    requires p.Shape() && |l.addr| == ARRAYS && dir < ARRAYS && end <= KERNEL_END
    ensures r.Shape()
    decreases PagesLeft(va)
  {
    if va >= end then p
    else
      match IdentityStep(l, p, dir, va)
      case None => p
      case Some(p') => FewerPagesLeft(va); IdentityMap(l, p', dir, va + 0x1000, end)
  }

  // ---------------------------------------------------------------- how far it has come

  /** Pages below `va` are mapped to themselves, with just the tables they need. */
  ghost predicate Tables(l: Layout, p: Pages) {
    && l.Ok() && p.Shape()
    && (forall i | 0 <= i < p.ptCount :: p.mem[KDIR][i] == KernelEntry(l, i))
    && (forall i | p.ptCount <= i < ENTRIES :: !p.mem[KDIR][i].present)
  }

  /** A page begins at `w`, below `va`. */
  predicate PageBelow(w: bv32, va: bv32) { Aligned(w) && w < va }

  ghost predicate FilledAt(p: Pages, w: bv32)
    requires p.Shape()
  {
    PdIndex(w) < KERNEL_TABLES && p.mem[KPT(PdIndex(w))][PtIndex(w)] == Identity(w)
  }

  ghost predicate Filled(p: Pages, va: bv32)
    requires p.Shape()
  {
    forall w: bv32 {:trigger FilledAt(p, w)} | PageBelow(w, va) :: FilledAt(p, w)
  }

  ghost predicate Progress(l: Layout, p: Pages, va: bv32) {
    && Tables(l, p) && Aligned(va) && va <= KERNEL_END && Filled(p, va)
    && p.ptCount == PdIndex(va) + (if PtIndex(va) == 0 then 0 else 1)
  }

  /** One page: its table is there afterwards, and the entry is written into it. */
  lemma StepTables(l: Layout, p: Pages, va: bv32)
    requires Progress(l, p, va) && va < KERNEL_END
    ensures IdentityStep(l, p, KDIR, va).Some?
    ensures var p' := IdentityStep(l, p, KDIR, va).value;
            && Tables(l, p') && p'.ptCount == PdIndex(va) + 1 && PdIndex(va) < KERNEL_TABLES
            && Written(p, p', PdIndex(va), PtIndex(va), Identity(va)) && p'.pdUsed == p.pdUsed
  {
    KernelHalf(va);
    AtAddress(l, KPT(PdIndex(va)));
  }

  lemma OtherSlot(va: bv32, w: bv32)
    requires Aligned(va) && Aligned(w) && va != w
    ensures PdIndex(va) != PdIndex(w) || PtIndex(va) != PtIndex(w)
  {
    SamePageIff(va, w);
    AlignedPage(va);
    AlignedPage(w);
  }

  /** One entry of one kernel table has been written. */
  ghost predicate Written(p: Pages, p': Pages, i: nat, j: nat, e: Entry)
    requires p.Shape() && p'.Shape() && i < KERNEL_TABLES && j < ENTRIES
  {
    && p'.mem[KPT(i)] == p.mem[KPT(i)][j := e]
    && forall n | 0 < n < ARRAYS && n != KPT(i) :: p'.mem[n] == p.mem[n]
  }

  lemma WrittenElsewhere(p: Pages, p': Pages, i: nat, j: nat, e: Entry, a: nat, b: nat)
    requires p.Shape() && p'.Shape() && i < KERNEL_TABLES && j < ENTRIES && Written(p, p', i, j, e) && a < KERNEL_TABLES && b < ENTRIES
    ensures p'.mem[KPT(a)][b] == if a == i && b == j then e else p.mem[KPT(a)][b]
  {
  }

  /** A page up to `va` is that of `va`, or an earlier one with other indices. */
  lemma SlotCase(va: bv32, w: bv32)
    requires Aligned(va) && Aligned(w) && va < KERNEL_END && w < va + 0x1000
    ensures w == va || (w < va && (PdIndex(va) != PdIndex(w) || PtIndex(va) != PtIndex(w)))
  {
    NothingBetween(va, w);
    if w != va { OtherSlot(va, w); }
  }

  lemma StepCount(va: bv32)
    requires va < KERNEL_END
    ensures PdIndex(va) + 1 == PdIndex(va + 0x1000) + (if PtIndex(va + 0x1000) == 0 then 0 else 1)
  {
    if (va >> 12) & 0x3FF == 0x3FF { NextInDirectory(va); } else { NextInTable(va); }
  }

  lemma FillsAt(p: Pages, va: bv32, p': Pages, w: bv32)
    requires p.Shape() && p'.Shape() && Aligned(va) && va < KERNEL_END && PdIndex(va) < KERNEL_TABLES
    requires Written(p, p', PdIndex(va), PtIndex(va), Identity(va))
    requires PageBelow(w, va + 0x1000) && (PageBelow(w, va) ==> FilledAt(p, w))
    ensures FilledAt(p', w)
  {
    SlotCase(va, w);
    if w == va {
      WrittenElsewhere(p, p', PdIndex(va), PtIndex(va), Identity(va), PdIndex(va), PtIndex(va));
    } else {
      WrittenElsewhere(p, p', PdIndex(va), PtIndex(va), Identity(va), PdIndex(w), PtIndex(w));
    }
  }

  lemma FillsNext(p: Pages, va: bv32, p': Pages)
    requires p.Shape() && p'.Shape() && Aligned(va) && va < KERNEL_END && PdIndex(va) < KERNEL_TABLES && Filled(p, va)
    requires Written(p, p', PdIndex(va), PtIndex(va), Identity(va))
    ensures Filled(p', va + 0x1000)
  {
    forall w: bv32 | PageBelow(w, va + 0x1000) ensures FilledAt(p', w) {
      assert PageBelow(w, va) ==> FilledAt(p, w);
      FillsAt(p, va, p', w);
    }
  }

  lemma StepProgress(l: Layout, p: Pages, va: bv32)
    requires Progress(l, p, va) && va < KERNEL_END
    ensures IdentityStep(l, p, KDIR, va).Some? && Progress(l, IdentityStep(l, p, KDIR, va).value, va + 0x1000)
    ensures IdentityStep(l, p, KDIR, va).value.pdUsed == p.pdUsed
  {
    StepTables(l, p, va);
    StepCount(va);
    NextAligned(va);
    FillsNext(p, va, IdentityStep(l, p, KDIR, va).value);
  }

  lemma {:induction false} MapProgress(l: Layout, p: Pages, va: bv32)
    requires Progress(l, p, va)
    ensures Progress(l, IdentityMap(l, p, KDIR, va, KERNEL_END), KERNEL_END) && IdentityMap(l, p, KDIR, va, KERNEL_END).pdUsed == p.pdUsed
    decreases PagesLeft(va)
  {
    if va < KERNEL_END {
      StepProgress(l, p, va);
      FewerPagesLeft(va);
      MapProgress(l, IdentityStep(l, p, KDIR, va).value, va + 0x1000);
    }
  }

  // ---------------------------------------------------------------- what it leaves

  /** The static arrays before `init_paging`: all zero. */
  ghost predicate Blank(p: Pages) {
    && p.Shape() && p.ptCount == 0 && (forall k, i | 0 <= k < ARRAYS && 0 <= i < ENTRIES :: !p.mem[k][i].present)
    && (forall d | 0 <= d < THREAD_LIMIT :: !p.pdUsed[d])
  }

  function KernelOf(p: Pages): (k: Kernel)
    requires p.Shape()
    ensures KernelKept(k, p)
  {
    Kernel(p.mem[KDIR], p.mem[KPT(0)..KPT(KERNEL_TABLES)])
  }

  lemma EndIndices()
    ensures PdIndex(KERNEL_END) == 8 && PtIndex(KERNEL_END) == 0
  {
    assert (KERNEL_END >> 22) & 0x3FF == 8 && (KERNEL_END >> 12) & 0x3FF == 0;
  }

  /**
  `identity_map` takes exactly the 8 static tables without running out. Afterwards every page below
  0x2000000 translates to itself for ring 0, and nothing above it is mapped.
  */
  lemma InitPaging(l: Layout, p: Pages, va: bv32)
    requires Linked(l) && Blank(p)
    ensures var q := IdentityMap(l, p, KDIR, 0, KERNEL_END);
            && q.ptCount == KERNEL_TABLES && Booted(l, KernelOf(q), q)
            && Translate(l, q, KDIR, PdIndex(va), PtIndex(va))
                 == if va < KERNEL_END then Some(Page(PageOf(va), 3, false)) else None
  {
    LinkedOk(l);
    assert Progress(l, p, 0);
    MapProgress(l, p, 0);
    EndIndices();
    BelowEnd(l, IdentityMap(l, p, KDIR, 0, KERNEL_END), va);
  }

  lemma SamePage(va: bv32)
    ensures Aligned(PageOf(va)) && PdIndex(PageOf(va)) == PdIndex(va) && PtIndex(PageOf(va)) == PtIndex(va)
  {
    assert PageOf(PageOf(va)) == PageOf(va);
    SamePageIff(PageOf(va), va);
  }

  lemma PageBelowEnd(va: bv32)
    requires va < KERNEL_END
    ensures PageOf(va) < KERNEL_END
  {
  }

  lemma FilledPage(q: Pages, va: bv32)
    requires q.Shape() && Filled(q, KERNEL_END) && va < KERNEL_END && PdIndex(va) < KERNEL_TABLES
    ensures q.mem[KPT(PdIndex(va))][PtIndex(va)] == Identity(PageOf(va))
  {
    PageBelowEnd(va);
    SamePage(va);
    assert PageBelow(PageOf(va), KERNEL_END) && FilledAt(q, PageOf(va));
  }

  lemma KernelTranslation(l: Layout, q: Pages, i: nat, j: nat)
    requires Tables(l, q) && q.ptCount == KERNEL_TABLES && i < ENTRIES && j < ENTRIES
    ensures i < KERNEL_TABLES && q.mem[KPT(i)][j].present && !q.mem[KPT(i)][j].user ==>
              Translate(l, q, KDIR, i, j) == Some(Page(q.mem[KPT(i)][j].page, q.mem[KPT(i)][j].flags, false))
    ensures KERNEL_TABLES <= i ==> Translate(l, q, KDIR, i, j).None?
  {
    if i < KERNEL_TABLES { AtAddress(l, KPT(i)); }
  }

  lemma BelowEnd(l: Layout, q: Pages, va: bv32)
    requires Tables(l, q) && Filled(q, KERNEL_END) && q.ptCount == KERNEL_TABLES
    ensures Translate(l, q, KDIR, PdIndex(va), PtIndex(va)) == if va < KERNEL_END then Some(Page(PageOf(va), 3, false)) else None
  {
    KernelHalf(va);
    KernelTranslation(l, q, PdIndex(va), PtIndex(va));
    if va < KERNEL_END { FilledPage(q, va); }
  }

  /** Over every run the kernel's pages stay mapped to themselves, for ring 0 only, in every directory in use. */
  lemma KernelStaysMapped(l: Layout, p: Pages, calls: seq<Call>, d: nat, va: bv32)
    requires Linked(l) && Blank(p) && Runs(l, IdentityMap(l, p, KDIR, 0, KERNEL_END), calls)
    requires var q := End(l, IdentityMap(l, p, KDIR, 0, KERNEL_END), calls); q.Shape() && d < THREAD_LIMIT && q.pdUsed[d]
    requires va < KERNEL_END
    ensures Translate(l, End(l, IdentityMap(l, p, KDIR, 0, KERNEL_END), calls), PD(d), PdIndex(va), PtIndex(va)) == Some(Page(PageOf(va), 3, false))
  {
    var q := IdentityMap(l, p, KDIR, 0, KERNEL_END);
    InitPaging(l, p, va);
    KernelHalf(va);
    RunSafe(l, KernelOf(q), q, calls);
    AtAddress(l, KPT(PdIndex(va)));
    KernelShared(l, KernelOf(q), End(l, q, calls), d, PdIndex(va), PtIndex(va));
  }
}
