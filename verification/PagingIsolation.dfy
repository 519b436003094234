/**
Processes stay apart over every run of the paging calls, when each frame is mapped once and is not
given back while some directory in use maps it.
*/
module PagingIsolation {
  import opened Base
  import opened Bitmap
  import opened PagingBits
  import opened PagingSpec
  import opened PagingTheorems

  /** What directory `d`, while in use, shows at a page of the user half. */
  function Shown(l: Layout, p: Pages, d: nat, i: nat, j: nat): Option<Page>
    requires p.Shape() && |l.addr| == ARRAYS
  {
    if d < THREAD_LIMIT && p.pdUsed[d] && KERNEL_TABLES <= i < ENTRIES && j < ENTRIES then Translate(l, p, PD(d), i, j) else None
  }

  /** Some directory in use maps frame `n` in its user half. */
  ghost predicate Mapped(l: Layout, p: Pages, n: nat)
    requires p.Shape() && |l.addr| == ARRAYS && n < |l.frame|
  {
    exists d: nat, i: nat, j: nat :: Shown(l, p, d, i, j).Some? && Shown(l, p, d, i, j).value.frame == l.frame[n]
  }

  /** What is mapped in the user half is a frame that is taken. */
  ghost predicate Owned(l: Layout, p: Pages)
    requires p.Shape() && l.Ok()
  {
    forall d: nat, i: nat, j: nat | Shown(l, p, d, i, j).Some? ::
      exists n | 0 <= n < FRAME_COUNT :: p.frames[n] && Shown(l, p, d, i, j).value.frame == l.frame[n]
  }

  /** No frame is mapped at two places. */
  ghost predicate Isolated(l: Layout, p: Pages)
    requires p.Shape() && |l.addr| == ARRAYS
  {
    forall d: nat, i: nat, j: nat, c: nat, a: nat, b: nat
      | Shown(l, p, d, i, j).Some? && Shown(l, p, c, a, b).Some?
        && Shown(l, p, d, i, j).value.frame == Shown(l, p, c, a, b).value.frame ::
      d == c && i == a && j == b
  }

  ghost predicate Safe(l: Layout, k: Kernel, p: Pages) { Inv(l, k, p) && Owned(l, p) && Isolated(l, p) }

  // ---------------------------------------------------------------- runs

  datatype Call =
    | AllocDirectory
    | FreeDirectory(d: nat)
    | AllocFrame
    | FreeFrame(n: nat)
    | Map(d: nat, i: nat, j: nat, n: nat, user: bool, flags: bv32)

  ghost predicate Allowed(l: Layout, p: Pages, call: Call) {
    && p.Shape() && l.Ok()
    && match call
       case AllocDirectory => true
       case FreeDirectory(d) => d < THREAD_LIMIT
       case AllocFrame => true
       case FreeFrame(n) => n < FRAME_COUNT && !Mapped(l, p, n)
       case Map(d, i, j, n, _, _) =>
         && d < THREAD_LIMIT && p.pdUsed[d] && KERNEL_TABLES <= i < ENTRIES && j < ENTRIES
         && n < FRAME_COUNT && p.frames[n] && !Mapped(l, p, n)
  }

  ghost function After(l: Layout, p: Pages, call: Call): (r: Pages)
    requires Allowed(l, p, call)
    ensures r.Shape()
  {
    match call
    case AllocDirectory => AllocPageDirectory(p).0
    case FreeDirectory(d) => FreePageDirectory(p, d)
    case AllocFrame => FrameAlloc(p).0
    case FreeFrame(n) => FrameFree(p, n)
    case Map(d, i, j, n, user, flags) => MapPage(l, p, PD(d), i, j, Entry(true, user, l.frame[n], flags))
  }

  ghost predicate Runs(l: Layout, p: Pages, calls: seq<Call>)
    decreases |calls|
  {
    calls == [] || (Allowed(l, p, calls[0]) && Runs(l, After(l, p, calls[0]), calls[1..]))
  }

  ghost function End(l: Layout, p: Pages, calls: seq<Call>): Pages
    requires Runs(l, p, calls)
    decreases |calls|
  {
    if calls == [] then p else End(l, After(l, p, calls[0]), calls[1..])
  }

  // ---------------------------------------------------------------- each call

  /** A state that shows no more than a safe one, and has the same frames taken, is as safe. */
  lemma ShowsLess(l: Layout, p: Pages, p': Pages)
    requires l.Ok() && p.Shape() && p'.Shape() && Owned(l, p) && Isolated(l, p)
    requires forall d: nat, i: nat, j: nat | Shown(l, p', d, i, j).Some? :: Shown(l, p', d, i, j) == Shown(l, p, d, i, j)
    requires forall n | 0 <= n < FRAME_COUNT && p.frames[n] :: p'.frames[n] || !Mapped(l, p, n)
    ensures Owned(l, p') && Isolated(l, p')
  {
    forall d: nat, i: nat, j: nat | Shown(l, p', d, i, j).Some?
      ensures exists n | 0 <= n < FRAME_COUNT :: p'.frames[n] && Shown(l, p', d, i, j).value.frame == l.frame[n]
    {
      var n :| 0 <= n < FRAME_COUNT && p.frames[n] && Shown(l, p, d, i, j).value.frame == l.frame[n];
      assert Mapped(l, p, n);
    }
  }

  lemma AllocSafe(l: Layout, k: Kernel, p: Pages)
    requires Safe(l, k, p)
    ensures Safe(l, k, AllocPageDirectory(p).0)
  {
    var p' := AllocPageDirectory(p).0;
    AllocKeepsInv(l, k, p);
    forall d: nat, i: nat, j: nat | Shown(l, p', d, i, j).Some? ensures Shown(l, p', d, i, j) == Shown(l, p, d, i, j) {
      AllocTranslation(l, k, p, d, i, j);
    }
    ShowsLess(l, p, p');
  }

  lemma FlagsSafe(l: Layout, k: Kernel, p: Pages, p': Pages)
    requires Safe(l, k, p) && p' == p.(pdUsed := p'.pdUsed, frames := p'.frames) && p'.Shape()
    requires forall c | 0 <= c < THREAD_LIMIT && p'.pdUsed[c] :: p.pdUsed[c]
    requires forall n | 0 <= n < FRAME_COUNT && p.frames[n] :: p'.frames[n] || !Mapped(l, p, n)
    ensures Safe(l, k, p')
  {
    FlagsKeepInv(l, k, p, p');
    ShowsLess(l, p, p');
  }

  /** What is shown after a page is mapped: the new page at its place, everything else as before. */
  lemma MapShows(l: Layout, k: Kernel, p: Pages, d: nat, i: nat, j: nat, e: Entry, c: nat, a: nat, b: nat)
    requires Inv(l, k, p) && d < THREAD_LIMIT && p.pdUsed[d] && KERNEL_TABLES <= i < ENTRIES && j < ENTRIES && e.present
    ensures Shown(l, MapPage(l, p, PD(d), i, j, e), c, a, b)
              == if CanMap(p, d, i) && c == d && a == i && b == j then Some(Page(e.page, e.flags, e.user)) else Shown(l, p, c, a, b)
  {
    MapPageKeepsInv(l, k, p, d, i, j, e);
    if c < THREAD_LIMIT && p.pdUsed[c] && KERNEL_TABLES <= a < ENTRIES && b < ENTRIES { MapPageRefines(l, k, p, d, i, j, e, c, a, b); }
  }

  lemma MapSafe(l: Layout, k: Kernel, p: Pages, d: nat, i: nat, j: nat, n: nat, e: Entry)
    requires Safe(l, k, p) && d < THREAD_LIMIT && p.pdUsed[d] && KERNEL_TABLES <= i < ENTRIES && j < ENTRIES
    requires n < FRAME_COUNT && p.frames[n] && !Mapped(l, p, n) && e.present && e.page == l.frame[n]
    ensures Safe(l, k, MapPage(l, p, PD(d), i, j, e))
  {
    var p' := MapPage(l, p, PD(d), i, j, e);
    MapPageKeepsInv(l, k, p, d, i, j, e);
    forall c: nat, a: nat, b: nat
      ensures Shown(l, p', c, a, b) == if CanMap(p, d, i) && c == d && a == i && b == j then Some(Page(e.page, e.flags, e.user))
                                       else Shown(l, p, c, a, b)
    {
      MapShows(l, k, p, d, i, j, e, c, a, b);
    }
  }

  lemma AfterSafe(l: Layout, k: Kernel, p: Pages, call: Call)
    requires Safe(l, k, p) && Allowed(l, p, call)
    ensures Safe(l, k, After(l, p, call))
  {
    match call {
      case AllocDirectory => AllocSafe(l, k, p);
      case FreeDirectory(d) => FlagsSafe(l, k, p, FreePageDirectory(p, d));
      case AllocFrame => FlagsSafe(l, k, p, FrameAlloc(p).0);
      case FreeFrame(n) => FlagsSafe(l, k, p, FrameFree(p, n));
      case Map(d, i, j, n, user, flags) => MapSafe(l, k, p, d, i, j, n, Entry(true, user, l.frame[n], flags));
    }
  }

  lemma {:induction false} RunSafe(l: Layout, k: Kernel, p: Pages, calls: seq<Call>)
    requires Safe(l, k, p) && Runs(l, p, calls)
    ensures Safe(l, k, End(l, p, calls))
    decreases |calls|
  {
    if calls != [] {
      AfterSafe(l, k, p, calls[0]);
      RunSafe(l, k, After(l, p, calls[0]), calls[1..]);
    }
  }

  // ---------------------------------------------------------------- from start-up

  /** After `init_paging`: the kernel's tables are there and nothing else is in use. */
  ghost predicate Booted(l: Layout, k: Kernel, p: Pages) {
    && l.Ok() && p.Shape() && KernelOk(l, k) && KernelKept(k, p)
    && (forall d | 0 <= d < THREAD_LIMIT :: !p.pdUsed[d])
  }

  /**
  Whatever runs after start-up: a frame ring 3 can reach is reached from one directory, at one page;
  it is a taken frame and no page table or directory; and the kernel's pages are not among them.
  */
  lemma Isolation(l: Layout, k: Kernel, p: Pages, calls: seq<Call>, d: nat, i: nat, j: nat, c: nat, a: nat, b: nat)
    requires Booted(l, k, p) && Runs(l, p, calls) && i < ENTRIES && j < ENTRIES && a < ENTRIES && b < ENTRIES
    requires var q := End(l, p, calls); q.Shape() && d < THREAD_LIMIT && c < THREAD_LIMIT && q.pdUsed[d] && q.pdUsed[c]
    requires var x := Translate(l, End(l, p, calls), PD(d), i, j); x.Some? && x.value.user
    ensures var q := End(l, p, calls);
            var x, y := Translate(l, q, PD(d), i, j), Translate(l, q, PD(c), a, b);
            && KERNEL_TABLES <= i
            && (y.Some? && y.value.user && x.value.frame == y.value.frame ==> d == c && i == a && j == b)
            && (exists n | 0 <= n < FRAME_COUNT :: q.frames[n] && x.value.frame == l.frame[n])
            && (forall m | 0 <= m < ARRAYS :: x.value.frame != l.addr[m])
  {
    var q := End(l, p, calls);
    assert Safe(l, k, p);
    RunSafe(l, k, p, calls);
    if i < KERNEL_TABLES { SharedTable(l, k, q, d, i); }
    if a < KERNEL_TABLES { SharedTable(l, k, q, c, a); }
    assert Shown(l, q, d, i, j).Some?;
    if KERNEL_TABLES <= a { assert Shown(l, q, c, a, b) == Translate(l, q, PD(c), a, b); }
  }

  /** In every run no user table hangs off two entries of directories in use. */
  lemma TablesStayExclusive(l: Layout, k: Kernel, p: Pages, calls: seq<Call>)
    requires Booted(l, k, p) && Runs(l, p, calls)
    ensures End(l, p, calls).Shape() && TablesExclusive(End(l, p, calls)) && KernelKept(k, End(l, p, calls))
  {
    assert Safe(l, k, p);
    RunSafe(l, k, p, calls);
  }
}
