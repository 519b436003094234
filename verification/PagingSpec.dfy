/**
Page directories and tables on values (kernel/paging.cpp). The static arrays are numbered pages of 1024
entries each: the kernel directory, its 8 tables, 12 process directories and 32 user tables. An entry
holds a physical address; following it means finding which of the arrays lies there. Entries are
unpacked here; `PageTables` holds them as 32-bit words.
*/
module PagingSpec {
  import opened Base
  import opened Bitmap
  import opened PagingBits

  const KERNEL_TABLES: nat := 8
  const THREAD_LIMIT: nat := 12
  const MAX_USER_PT: nat := 32
  const ENTRIES: nat := 1024

  /** Numbers of the arrays. */
  const KDIR: nat := 0
  function KPT(i: nat): nat { 1 + i }
  function PD(d: nat): nat { 9 + d }
  function UPT(t: nat): nat { 21 + t }
  const ARRAYS: nat := 53

  /** Physical addresses of pages and flag bits stay as the words they are. */
  datatype Entry = Entry(present: bool, user: bool, page: bv32, flags: bv32)

  /** Where the linker put the arrays, and where the frames are. */
  datatype Layout = Layout(addr: seq<bv32>, frame: seq<bv32>) {
    ghost predicate Ok() {
      && |addr| == ARRAYS && Distinct(addr) && |frame| == FRAME_COUNT && Distinct(frame)
      && (forall k, n | 0 <= k < ARRAYS && 0 <= n < FRAME_COUNT :: addr[k] != frame[n])
    }

    /** The array at physical address `a`, if there is one. */
    function At(a: bv32): (r: Option<nat>)
      ensures r.Some? ==> r.value < |addr| && addr[r.value] == a
    {
      PlaceOf(addr, a, 0)
    }

    /** The frame at physical address `a`, if there is one. */
    function FrameAt(a: bv32): (r: Option<nat>)
      ensures r.Some? ==> r.value < |frame| && frame[r.value] == a
    {
      PlaceOf(frame, a, 0)
    }
  }

  function PlaceOf(s: seq<bv32>, a: bv32, k: nat): (r: Option<nat>)
    requires k <= |s|
    ensures r.Some? ==> r.value < |s| && s[r.value] == a
    ensures r.None? ==> forall i | k <= i < |s| :: s[i] != a
    decreases |s| - k
  {
    if k == |s| then None else if s[k] == a then Some(k) else PlaceOf(s, a, k + 1)
  }

  datatype Pages = Pages(mem: seq<seq<Entry>>, ptCount: nat, pdUsed: seq<bool>, uptUsed: seq<bool>, frames: seq<bool>) {
    predicate Shape() {
      && |mem| == ARRAYS && (forall k | 0 <= k < ARRAYS :: |mem[k]| == ENTRIES)
      && ptCount <= KERNEL_TABLES && |pdUsed| == THREAD_LIMIT && |uptUsed| == MAX_USER_PT && |frames| == FRAME_COUNT
    }

    function Set(k: nat, i: nat, e: Entry): (r: Pages)
      requires Shape() && k < ARRAYS && i < ENTRIES
      ensures r.Shape()
    {
      this.(mem := mem[k := mem[k][i := e]])
    }
  }

  // ---------------------------------------------------------------- translation

  /** A page as the processor sees it: its frame, the entry's flags, and whether ring 3 may use it. */
  datatype Page = Page(frame: bv32, flags: bv32, user: bool)

  /** The table a directory entry leads to. */
  function TableOf(l: Layout, p: Pages, dir: nat, i: nat): (r: Option<nat>)
    requires p.Shape() && dir < ARRAYS && i < ENTRIES && |l.addr| == ARRAYS
    ensures r.Some? ==> r.value < ARRAYS
  {
    if p.mem[dir][i].present then l.At(p.mem[dir][i].page) else None
  }

  /** The page with directory index `i` and table index `j`. */
  function Translate(l: Layout, p: Pages, dir: nat, i: nat, j: nat): Option<Page>
    requires p.Shape() && dir < ARRAYS && i < ENTRIES && j < ENTRIES && |l.addr| == ARRAYS
  {
    match TableOf(l, p, dir, i)
    case None => None
    case Some(k) =>
      var e := p.mem[k][j];
      if e.present then Some(Page(e.page, e.flags, p.mem[dir][i].user && e.user)) else None
  }

  /** Ring 3 may write to a page that it may use if the entries of both levels say so. */
  predicate MayWrite(l: Layout, p: Pages, dir: nat, i: nat, j: nat)
    requires p.Shape() && dir < ARRAYS && i < ENTRIES && j < ENTRIES && |l.addr| == ARRAYS
  {
    match TableOf(l, p, dir, i)
    case None => false
    case Some(k) => p.mem[k][j].present && Has(p.mem[dir][i].flags, RW) && Has(p.mem[k][j].flags, RW)
  }

  // ---------------------------------------------------------------- operations

  function EmptyTable(): (t: seq<Entry>)
    ensures |t| == ENTRIES && forall i | 0 <= i < ENTRIES :: t[i] == Entry(false, false, 0, 0)
  {
    seq(ENTRIES, _ => Entry(false, false, 0, 0))
  }

  /** Entries for a user table and a kernel table: flags 7 and 3. */
  function UserEntry(l: Layout, t: nat): Entry requires |l.addr| == ARRAYS && t < MAX_USER_PT { Entry(true, true, l.addr[UPT(t)], 7) }

  function KernelEntry(l: Layout, i: nat): Entry requires |l.addr| == ARRAYS && i < KERNEL_TABLES { Entry(true, false, l.addr[KPT(i)], 3) }

  /** `alloc_page_directory`: a copy of the kernel directory in the first unused slot, if any. */
  function AllocPageDirectory(p: Pages): (r: (Pages, Option<nat>))
    requires p.Shape()
  {
    var d := FirstClear(p.pdUsed);
    if d == THREAD_LIMIT then (p, None)
    else (p.(pdUsed := p.pdUsed[d := true], mem := p.mem[PD(d) := p.mem[KDIR]]), Some(d))
  }

  /** `free_page_directory` clears the slot's flag; the tables stay taken. */
  function FreePageDirectory(p: Pages, d: nat): Pages
    requires p.Shape() && d < THREAD_LIMIT
  {
    p.(pdUsed := p.pdUsed[d := false])
  }

  /** `frame_alloc`: the lowest frame that is not taken, if any. */
  function FrameAlloc(p: Pages): (r: (Pages, Option<nat>))
    requires p.Shape()
  {
    var n := FirstClear(p.frames);
    if n == FRAME_COUNT then (p, None) else (p.(frames := p.frames[n := true]), Some(n))
  }

  /** `frame_free` of an address within frame `n`. */
  function FrameFree(p: Pages, n: nat): Pages
    requires p.Shape() && n < FRAME_COUNT
  {
    p.(frames := p.frames[n := false])
  }

  /** `alloc_user_page_table`: mark the table taken and clear it. */
  function TakeTable(p: Pages, t: nat): (r: Pages)
    requires p.Shape() && t < MAX_USER_PT
    ensures r.Shape()
  {
    p.(uptUsed := p.uptUsed[t := true], mem := p.mem[UPT(t) := EmptyTable()])
  }

  /** The first half of `map_page`: make the directory entry present, if a table is left for it. */
  function EnsureTable(l: Layout, p: Pages, dir: nat, i: nat): (r: Pages)
    requires p.Shape() && dir < ARRAYS && i < ENTRIES && |l.addr| == ARRAYS
    ensures r.Shape()
  {
    var t := FirstClear(p.uptUsed);
    if p.mem[dir][i].present || t == MAX_USER_PT then p
    else TakeTable(p, t).Set(dir, i, UserEntry(l, t))
  }

  /** `map_page` at directory index `i` and table index `j`, writing the entry `e`. */
  function MapPage(l: Layout, p: Pages, dir: nat, i: nat, j: nat, e: Entry): (r: Pages)
    requires p.Shape() && dir < ARRAYS && i < ENTRIES && j < ENTRIES && |l.addr| == ARRAYS
    ensures r.Shape()
  {
    var p1 := EnsureTable(l, p, dir, i);
    match TableOf(l, p1, dir, i)
    case None => p1
    case Some(k) => p1.Set(k, j, e)
  }

  // ---------------------------------------------------------------- the invariant

  /** The kernel's directory and tables, as `init_paging` leaves them. */
  datatype Kernel = Kernel(dir: seq<Entry>, tables: seq<seq<Entry>>)

  /** The lower 8 entries lead to the kernel tables, for ring 0; the others are absent. */
  ghost predicate KernelOk(l: Layout, k: Kernel) {
    && |l.addr| == ARRAYS && |k.dir| == ENTRIES && |k.tables| == KERNEL_TABLES
    && (forall i | 0 <= i < KERNEL_TABLES :: k.dir[i] == KernelEntry(l, i))
    && (forall i | KERNEL_TABLES <= i < ENTRIES :: !k.dir[i].present)
  }

  /** No one has touched the kernel's directory and tables. */
  ghost predicate KernelKept(k: Kernel, p: Pages)
    requires p.Shape()
  {
    p.mem[KDIR] == k.dir && |k.tables| == KERNEL_TABLES && forall i | 0 <= i < KERNEL_TABLES :: p.mem[KPT(i)] == k.tables[i]
  }

  /** `e` is the entry of user table `t`, which is taken. */
  predicate Refers(l: Layout, p: Pages, e: Entry, t: nat)
    requires p.Shape() && |l.addr| == ARRAYS
  {
    t < MAX_USER_PT && e == UserEntry(l, t) && p.uptUsed[t]
  }

  /** A directory in use shares the kernel's entries; its other entries are its own tables. */
  ghost predicate DirectoryOk(l: Layout, p: Pages, d: nat)
    requires p.Shape() && d < THREAD_LIMIT && |l.addr| == ARRAYS
  {
    && (forall i | 0 <= i < KERNEL_TABLES :: p.mem[PD(d)][i] == p.mem[KDIR][i])
    && (forall i | KERNEL_TABLES <= i < ENTRIES && p.mem[PD(d)][i].present :: exists t :: Refers(l, p, p.mem[PD(d)][i], t))
  }

  /** No user table hangs off two entries of directories in use. */
  ghost predicate TablesExclusive(p: Pages)
    requires p.Shape()
  {
    forall d, i, c, j | 0 <= d < THREAD_LIMIT && 0 <= c < THREAD_LIMIT && p.pdUsed[d] && p.pdUsed[c]
      && KERNEL_TABLES <= i < ENTRIES && KERNEL_TABLES <= j < ENTRIES
      && p.mem[PD(d)][i].present && p.mem[PD(d)][i] == p.mem[PD(c)][j] :: d == c && i == j
  }

  ghost predicate Inv(l: Layout, k: Kernel, p: Pages) {
    && l.Ok() && p.Shape() && KernelOk(l, k) && KernelKept(k, p)
    && (forall d | 0 <= d < THREAD_LIMIT && p.pdUsed[d] :: DirectoryOk(l, p, d))
    && TablesExclusive(p)
  }
}
