/** Loading a program into a new address space, on values (kernel/loader.cpp, kernel/kernel.cpp). */
module LoadSpec {
  import opened Base
  import opened Bytes
  import opened Bitmap
  import opened PagingBits
  import opened PagingSpec
  import opened ImageSpec
  import opened LoaderSpec

  const PAGE: nat := 4096

  /** The page tables and the contents of every frame. */
  datatype Machine = Machine(pages: Pages, ram: seq<seq<Byte>>) {
    predicate Shape() { pages.Shape() && |ram| == FRAME_COUNT && forall n | 0 <= n < FRAME_COUNT :: |ram[n]| == PAGE }
  }

  /** Indices of page `k` of a program, counted from 0x08048000. */
  function SlotI(k: nat): (i: nat) ensures i < ENTRIES { (0x8048 + k) / 1024 % 1024 }

  function SlotJ(k: nat): (j: nat) ensures j < ENTRIES { (0x8048 + k) % 1024 }

  /** Indices of the stack's page, at 0xBFFFF000. */
  const STACK_I: nat := 767
  const STACK_J: nat := 1023

  /** Where a new thread begins in ring 3: its directory, first instruction and stack pointer. */
  datatype Start = Start(dir: nat, eip: nat, esp: bv32)

  /** Two words below the top of the stack's page. */
  const USER_ESP: bv32 := 0xBFFF_FFF8

  /** A page of ring 3: present, writable. */
  function UserPage(a: bv32): PagingSpec.Entry { PagingSpec.Entry(true, true, a, 7) }

  /** The pages for a number of sectors, in 32-bit arithmetic. */
  function NumPages(sectors: nat): nat { (sectors * 512 % WORD + 4095) % WORD / 4096 }

  /** The sectors of one page, from sector `s` of the page on; false on a read error. */
  function ReadInto(frame: seq<Byte>, disk: seq<Byte>, e: DirEntry, page: nat, s: nat): (r: (seq<Byte>, bool))
    requires |frame| == PAGE && s <= 8
    ensures |r.0| == PAGE
    decreases 8 - s
  {
    if s == 8 || page * 8 + s >= e.sectors then (frame, true)
    else
      match ReadSector(disk, (e.lba + page * 8 + s) % WORD)
      case None => (frame, false)
      case Some(b) => ReadInto(frame[..512 * s] + b + frame[512 * s + 512..], disk, e, page, s + 1)
  }

  /** One page: a frame, its mapping and its sectors. */
  function LoadPage(l: Layout, m: Machine, d: nat, disk: seq<Byte>, e: DirEntry, page: nat): (r: (Machine, bool))
    requires m.Shape() && |l.addr| == ARRAYS && |l.frame| == FRAME_COUNT && d < THREAD_LIMIT
    ensures r.0.Shape()
  {
    match FrameAlloc(m.pages).1
    case None => (m, false)
    case Some(n) =>
      var p := MapPage(l, FrameAlloc(m.pages).0, PD(d), SlotI(page), SlotJ(page), UserPage(l.frame[n]));
      var (frame, ok) := ReadInto(m.ram[n], disk, e, page, 0);
      (Machine(p, m.ram[n := frame]), ok)
  }

  function LoadPages(l: Layout, m: Machine, d: nat, disk: seq<Byte>, e: DirEntry, page: nat): (r: (Machine, bool))
    requires m.Shape() && |l.addr| == ARRAYS && |l.frame| == FRAME_COUNT && d < THREAD_LIMIT
    ensures r.0.Shape()
    decreases NumPages(e.sectors) - page
  {
    if page >= NumPages(e.sectors) then (m, true)
    else
      var (m1, ok) := LoadPage(l, m, d, disk, e, page);
      if ok then LoadPages(l, m1, d, disk, e, page + 1) else (m1, false)
  }

  /** What `thread_create` does to the address space: a directory, and a stack page that returns to `call_exit`. */
  function NewSpace(l: Layout, m: Machine, kernelStack: bool, callExit: nat): (r: (Machine, Option<nat>))
    requires m.Shape() && |l.addr| == ARRAYS && |l.frame| == FRAME_COUNT && callExit < WORD
    ensures r.0.Shape() && (r.1.Some? ==> r.1.value < THREAD_LIMIT)
  {
    var (p, d) := AllocPageDirectory(m.pages);
    if d.None? || !kernelStack then (m.(pages := p), None)
    else
      match FrameAlloc(p).1
      case None => (m.(pages := p), None)
      case Some(n) =>
        var q := MapPage(l, FrameAlloc(p).0, PD(d.value), STACK_I, STACK_J, UserPage(l.frame[n]));
        (Machine(q, m.ram[n := m.ram[n][..4088] + Le32(callExit) + Le32(callExit)]), d)
  }

  /**
  `load_program`: where the new thread begins, or None on any error. `number` and `kernelStack` say whether
  there is a thread number and memory for a kernel stack; `memory` whether there was memory for the thread
  itself. The code does not look at the last: without it the thread is set up at address 0 all the same,
  and only the null pointer that `thread_create` returns in the end makes `load_program` give up.
  */
  function LoadProgram(l: Layout, m: Machine, disk: seq<Byte>, name: seq<Byte>, memory: bool, number: bool, kernelStack: bool, callExit: nat)
    : (r: (Machine, Option<Start>))
    requires m.Shape() && |l.addr| == ARRAYS && |l.frame| == FRAME_COUNT && callExit < WORD
    ensures r.0.Shape() && (r.1.Some? ==> r.1.value.dir < THREAD_LIMIT)
  {
    match Lookup(disk, name)
    case None => (m, None)
    case Some(e) =>
      if !number then (m, None)
      else
        var (m1, d) := NewSpace(l, m, kernelStack, callExit);
        if d.None? || !memory then (m1, None)
        else
          var (m2, ok) := LoadPages(l, m1, d.value, disk, e, 0);
          (m2, if ok then Some(Start(d.value, e.entry, USER_ESP)) else None)
  }

  /** The byte at offset `o` of a page ring 3 may use. */
  function ReadAt(l: Layout, m: Machine, page: Option<Page>, o: nat): Option<Byte>
    requires m.Shape() && |l.frame| == FRAME_COUNT && o < PAGE
  {
    if page.None? || !page.value.user then None
    else
      match l.FrameAt(page.value.frame)
      case None => None
      case Some(n) => Some(m.ram[n][o])
  }

  /** Reading one byte in ring 3 through a directory. */
  function UserRead(l: Layout, m: Machine, d: nat, va: bv32): Option<Byte>
    requires m.Shape() && |l.addr| == ARRAYS && |l.frame| == FRAME_COUNT && d < THREAD_LIMIT
  {
    ReadAt(l, m, Translate(l, m.pages, PD(d), PdIndex(va), PtIndex(va)), Offset(va))
  }

  function Offset(va: bv32): (o: nat)
    ensures o < PAGE
  {
    var o := va & 0xFFF;
    assert o < 0x1000;
    o as nat
  }
}
