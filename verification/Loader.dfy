/** `load_program` as it runs: loops over the directory, the pages and the sectors (kernel/loader.cpp). */
module Loader {
  import opened Base
  import opened Bytes
  import opened Bitmap
  import opened PagingBits
  import opened PagingSpec
  import opened PagingBoot
  import opened PageTables
  import opened ImageSpec
  import opened LoaderSpec
  import opened LoadSpec
  import opened RoundTrip

  /** The words of a page of ring 3. */
  lemma UserPageWord(a: bv32)
    requires Aligned(a)
    ensures Unpack(a | (RW | USER) | PRESENT) == UserPage(a)
  {
    UnpackPage(a, RW | USER);
    assert (RW | USER) | PRESENT == 7 && Has(RW | USER, USER);
  }

  /** The loader's address for page `n`. */
  lemma ProgramAddress(n: nat)
    requires n < FRAME_COUNT
    ensures PdIndex(PageAddress(n as bv32)) == SlotI(n) && PtIndex(PageAddress(n as bv32)) == SlotJ(n)
  {
    var w := ProgramPage(n);
    WordAgain(w);
  }

  lemma StackAddress()
    ensures PdIndex(0xBFFF_F000) == STACK_I && PtIndex(0xBFFF_F000) == STACK_J
  {
    assert ((0xBFFF_F000 as bv32) >> 22) & 0x3FF == 767 && ((0xBFFF_F000 as bv32) >> 12) & 0x3FF == 1023;
  }

  /** Taking a frame leaves one fewer. */
  lemma OneFrameLess(p: Pages)
    requires p.Shape() && FrameAlloc(p).1.Some?
    ensures Clear(FrameAlloc(p).0.frames) == Clear(p.frames) - 1
  {
    ClearAfterSet(p.frames, FirstClear(p.frames));
  }

  /** No frame lies at address 0, so 0 says there is none. */
  lemma NotZero(p: Pages, l: Layout)
    requires p.Shape() && Linked(l)
    ensures FrameAlloc(p).1.Some? ==> l.frame[FrameAlloc(p).1.value] != 0
  {
    if FrameAlloc(p).1.Some? { FrameRoundTrip(FrameAlloc(p).1.value); }
  }

  lemma NoFrame(p: Pages, page: nat)
    requires p.Shape() && page + Clear(p.frames) <= FRAME_COUNT <= page
    ensures FrameAlloc(p).1.None?
  {
    ClearIff(p.frames);
  }

  lemma LoadPageFrames(l: Layout, m: Machine, d: nat, disk: seq<Byte>, e: DirEntry, page: nat)
    requires m.Shape() && |l.addr| == ARRAYS && |l.frame| == FRAME_COUNT && d < THREAD_LIMIT
    ensures var (m1, ok) := LoadPage(l, m, d, disk, e, page); ok ==> Clear(m1.pages.frames) + 1 == Clear(m.pages.frames)
  {
    if FrameAlloc(m.pages).1.Some? { OneFrameLess(m.pages); }
  }

  class Loader {
    const tables: PageTables
    const ram: array<seq<Byte>>
    const disk: seq<Byte>
    const callExit: nat

    constructor (tables: PageTables, disk: seq<Byte>, callExit: nat)
      requires tables.Valid() && callExit < WORD
      ensures Valid() && this.tables == tables && this.disk == disk && fresh(ram)
    {
      this.tables := tables;
      this.disk := disk;
      this.callExit := callExit;
      ram := new seq<Byte>[FRAME_COUNT](_ => Zeros(PAGE));
    }

    ghost predicate Valid()
      reads tables, tables.storage, tables.pdUsed, tables.uptUsed, tables.frameBitmap, ram
    {
      tables.Valid() && callExit < WORD && ram.Length == FRAME_COUNT && forall n | 0 <= n < FRAME_COUNT :: |ram[n]| == PAGE
    }

    ghost function View(): (m: Machine)
      reads tables, tables.storage, tables.pdUsed, tables.uptUsed, tables.frameBitmap, ram
      requires Valid()
      ensures m.Shape()
    {
      Machine(tables.pages, ram[..])
    }

    /** The first 15 bytes of the name. */
    method CopyName(name: seq<Byte>) returns (kname: seq<Byte>)
      ensures kname == Cut(name)
    {
      kname := [];
      var i := 0;
      while i < 15 && i < |name|
        invariant i <= 15 && i <= |name| && kname == name[..i]
      {
        kname := kname + [name[i]];
        i := i + 1;
      }
    }

    /** The entry of that name, as the scan of the directory finds it. */
    method FindEntry(dir: seq<Byte>, name: seq<Byte>) returns (r: Option<nat>)
      requires |dir| == 512
      ensures r == Find(dir, name, 0)
    {
      var i := 0;
      while i < MAX_ENTRIES
        invariant i <= MAX_ENTRIES && Find(dir, name, i) == Find(dir, name, 0)
      {
        if dir[32 * i] == 0 { return None; }
        if EntryAt(dir, i).name == name { return Some(i); }
        i := i + 1;
      }
      r := None;
    }

    method LookUp(name: seq<Byte>) returns (r: Option<DirEntry>)
      ensures r == Lookup(disk, name)
    {
      var kname := CopyName(name);
      var lba := ReadProgDirLba(disk);
      if lba == 0 { return None; }
      var dir := ReadSector(disk, lba);
      if dir.None? { return None; }
      var i := FindEntry(dir.value, kname);
      if i.None? { return None; }
      r := Some(EntryAt(dir.value, i.value));
    }

    /** The sectors of a page, read one by one into frame `n`. */
    method ReadSectors(n: nat, e: DirEntry, page: nat) returns (ok: bool)
      requires n < ram.Length && |ram[n]| == PAGE
      modifies ram
      ensures (ram[n], ok) == ReadInto(old(ram[n]), disk, e, page, 0)
      ensures ram[..] == old(ram[..])[n := ram[n]]
    {
      var s := 0;
      while s < 8
        invariant s <= 8 && |ram[n]| == PAGE && ReadInto(ram[n], disk, e, page, s) == ReadInto(old(ram[n]), disk, e, page, 0)
        invariant forall k | 0 <= k < ram.Length && k != n :: ram[k] == old(ram[k])
      {
        if page * 8 + s >= e.sectors { return true; }
        var b := ReadSector(disk, (e.lba + page * 8 + s) % WORD);
        if b.None? { return false; }
        ram[n] := ram[n][..512 * s] + b.value + ram[n][512 * s + 512..];
        s := s + 1;
      }
      ok := true;
    }

    /** A frame and its number; None when there is no frame. */
    method TakeFrame() returns (paddr: bv32, n: Option<nat>)
      requires Valid()
      modifies tables`pages, tables.frameBitmap
      ensures Valid() && n == FrameAlloc(old(tables.pages)).1 && tables.pages == FrameAlloc(old(tables.pages)).0
      ensures n.Some? ==> paddr == tables.layout.frame[n.value] && Unpack(paddr | (RW | USER) | PRESENT) == UserPage(paddr)
    {
      ghost var before := tables.pages;
      paddr := tables.FrameAlloc();
      NotZero(before, tables.layout);
      if paddr == 0 { return paddr, None; }
      FrameRoundTrip(PagingSpec.FrameAlloc(before).1.value);
      UserPageWord(paddr);
      n := Some(FrameIndex(paddr));
    }

    /** A frame mapped at a user address of directory `d`. */
    method MapFrame(d: nat, vaddr: bv32) returns (n: Option<nat>)
      requires Valid() && d < THREAD_LIMIT
      modifies tables`pages, tables.storage, tables.uptUsed, tables.frameBitmap
      ensures Valid() && n == FrameAlloc(old(tables.pages)).1
      ensures tables.pages == match n
                              case None => old(tables.pages)
                              case Some(f) =>
                                MapPage(tables.layout, FrameAlloc(old(tables.pages)).0, PD(d), PdIndex(vaddr), PtIndex(vaddr),
                                        UserPage(tables.layout.frame[f]))
    {
      var paddr;
      paddr, n := TakeFrame();
      if n.None? { return; }
      tables.MapPage(PD(d), vaddr, paddr, RW | USER);
    }

    method LoadPage(d: nat, e: DirEntry, page: nat) returns (ok: bool)
      requires Valid() && d < THREAD_LIMIT && page + Clear(tables.pages.frames) <= FRAME_COUNT
      modifies tables`pages, tables.storage, tables.uptUsed, tables.frameBitmap, ram
      ensures Valid() && (View(), ok) == LoadSpec.LoadPage(tables.layout, old(View()), d, disk, e, page)
    {
      if page >= FRAME_COUNT {
        NoFrame(tables.pages, page);
        return false;
      }
      ProgramAddress(page);
      var n := MapFrame(d, PageAddress(page as bv32));
      if n.None? { return false; }
      ok := ReadSectors(n.value, e, page);
    }

    method LoadPages(d: nat, e: DirEntry) returns (ok: bool)
      requires Valid() && d < THREAD_LIMIT
      modifies tables`pages, tables.storage, tables.uptUsed, tables.frameBitmap, ram
      ensures Valid() && (View(), ok) == LoadSpec.LoadPages(tables.layout, old(View()), d, disk, e, 0)
    {
      var page := 0;
      ok := true;
      while page < NumPages(e.sectors)
        invariant Valid() && page <= NumPages(e.sectors) && page + Clear(tables.pages.frames) <= FRAME_COUNT
        invariant LoadSpec.LoadPages(tables.layout, View(), d, disk, e, page) == LoadSpec.LoadPages(tables.layout, old(View()), d, disk, e, 0)
      {
        LoadPageFrames(tables.layout, View(), d, disk, e, page);
        ok := LoadPage(d, e, page);
        if !ok { return; }
        page := page + 1;
      }
    }

    /** The address space of a new thread. */
    method NewSpace(kernelStack: bool) returns (d: Option<nat>)
      requires Valid()
      modifies tables`pages, tables.storage, tables.pdUsed, tables.uptUsed, tables.frameBitmap, ram
      ensures Valid() && (View(), d) == LoadSpec.NewSpace(tables.layout, old(View()), kernelStack, callExit)
    {
      var pd := tables.AllocPageDirectory();
      if pd.None? || !kernelStack { return None; }
      StackAddress();
      var n := MapFrame(pd.value - PD(0), 0xBFFF_F000);
      if n.None? { return None; }
      ram[n.value] := ram[n.value][..4088] + Le32(callExit) + Le32(callExit);
      d := Some(pd.value - PD(0));
    }

    /** Where the thread that runs the program begins, or None. */
    method LoadProgram(name: seq<Byte>, memory: bool, number: bool, kernelStack: bool) returns (t: Option<Start>)
      requires Valid()
      modifies tables`pages, tables.storage, tables.pdUsed, tables.uptUsed, tables.frameBitmap, ram
      ensures Valid() && (View(), t) == LoadSpec.LoadProgram(tables.layout, old(View()), disk, name, memory, number, kernelStack, callExit)
    {
      var e := LookUp(name);
      if e.None? || !number { return None; }
      var d := NewSpace(kernelStack);
      if d.None? || !memory { return None; }
      var esp: bv32 := 0xBFFF_F000 + 0x1000 - 4;
      esp := esp - 4;
      var ok := LoadPages(d.value, e.value);
      t := if ok then Some(Start(d.value, e.value.entry, esp)) else None;
    }
  }
}
