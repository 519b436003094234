/** The tables refine a plain map from pages to frames, and keep processes apart. */
module PagingTheorems {
  import opened Base
  import opened Bitmap
  import opened PagingBits
  import opened PagingSpec

  // ---------------------------------------------------------------- entries lead where they should

  lemma AtAddress(l: Layout, n: nat)
    requires l.Ok() && n < ARRAYS
    ensures l.At(l.addr[n]) == Some(n)
  {
    assert l.At(l.addr[n]).Some?;
  }

  /** The table behind a present entry of the user half. */
  lemma OwnTable(l: Layout, k: Kernel, p: Pages, d: nat, i: nat) returns (t: nat)
    requires Inv(l, k, p) && d < THREAD_LIMIT && p.pdUsed[d] && KERNEL_TABLES <= i < ENTRIES && p.mem[PD(d)][i].present
    ensures Refers(l, p, p.mem[PD(d)][i], t) && TableOf(l, p, PD(d), i) == Some(UPT(t))
  {
    assert DirectoryOk(l, p, d);
    t :| Refers(l, p, p.mem[PD(d)][i], t);
    AtAddress(l, UPT(t));
  }

  lemma SharedTable(l: Layout, k: Kernel, p: Pages, d: nat, i: nat)
    requires Inv(l, k, p) && d < THREAD_LIMIT && p.pdUsed[d] && i < KERNEL_TABLES
    ensures TableOf(l, p, PD(d), i) == Some(KPT(i)) && !p.mem[PD(d)][i].user
  {
    assert DirectoryOk(l, p, d);
    AtAddress(l, KPT(i));
  }

  /** The page an entry of a user table describes. */
  function PageAt(e: Entry): Option<Page> {
    if e.present then Some(Page(e.page, e.flags, e.user)) else None
  }

  /** A translation depends on one directory entry and one table entry only. */
  lemma SameTranslation(l: Layout, p: Pages, p': Pages, dir: nat, i: nat, j: nat)
    requires p.Shape() && p'.Shape() && |l.addr| == ARRAYS && dir < ARRAYS && i < ENTRIES && j < ENTRIES && p'.mem[dir][i] == p.mem[dir][i]
    requires var t := TableOf(l, p, dir, i); t.Some? ==> p'.mem[t.value][j] == p.mem[t.value][j]
    ensures Translate(l, p', dir, i, j) == Translate(l, p, dir, i, j)
  {
  }

  lemma UserTranslation(l: Layout, p: Pages, dir: nat, i: nat, j: nat, t: nat)
    requires l.Ok() && p.Shape() && dir < ARRAYS && i < ENTRIES && j < ENTRIES && t < MAX_USER_PT && p.mem[dir][i] == UserEntry(l, t)
    ensures Translate(l, p, dir, i, j) == PageAt(p.mem[UPT(t)][j])
  {
    AtAddress(l, UPT(t));
  }

  // ---------------------------------------------------------------- a new table

  /** Taking an unused table for an absent entry of the user half. */
  lemma EnsureEntries(l: Layout, k: Kernel, p: Pages, d: nat, i: nat)
    requires Inv(l, k, p) && d < THREAD_LIMIT && KERNEL_TABLES <= i < ENTRIES
    requires !p.mem[PD(d)][i].present && FirstClear(p.uptUsed) < MAX_USER_PT
    ensures var t, p1 := FirstClear(p.uptUsed), EnsureTable(l, p, PD(d), i);
            && p1.mem[PD(d)] == p.mem[PD(d)][i := UserEntry(l, t)] && p1.mem[UPT(t)] == EmptyTable()
            && (forall n | 0 <= n < ARRAYS && n != PD(d) && n != UPT(t) :: p1.mem[n] == p.mem[n])
            && p1.uptUsed == p.uptUsed[t := true] && p1.pdUsed == p.pdUsed && p1.frames == p.frames
  {
  }

  lemma EnsureKeepsDirectory(l: Layout, k: Kernel, p: Pages, d: nat, i: nat, c: nat)
    requires Inv(l, k, p) && d < THREAD_LIMIT && KERNEL_TABLES <= i < ENTRIES && c < THREAD_LIMIT && p.pdUsed[c]
    requires !p.mem[PD(d)][i].present && FirstClear(p.uptUsed) < MAX_USER_PT
    ensures DirectoryOk(l, EnsureTable(l, p, PD(d), i), c)
  {
    var t, p1 := FirstClear(p.uptUsed), EnsureTable(l, p, PD(d), i);
    EnsureEntries(l, k, p, d, i);
    assert DirectoryOk(l, p, c);
    forall j | KERNEL_TABLES <= j < ENTRIES && p1.mem[PD(c)][j].present ensures exists u :: Refers(l, p1, p1.mem[PD(c)][j], u) {
      if c == d && j == i {
        assert Refers(l, p1, p1.mem[PD(c)][j], t);
      } else {
        var u := OwnTable(l, k, p, c, j);
        assert Refers(l, p1, p1.mem[PD(c)][j], u);
      }
    }
  }

  /** No entry of a directory in use is the entry of a table that is not taken. */
  lemma NotYetReferred(l: Layout, k: Kernel, p: Pages, t: nat, c: nat, j: nat)
    requires Inv(l, k, p) && c < THREAD_LIMIT && p.pdUsed[c] && KERNEL_TABLES <= j < ENTRIES && t < MAX_USER_PT && !p.uptUsed[t]
    ensures p.mem[PD(c)][j] != UserEntry(l, t)
  {
    if p.mem[PD(c)][j].present {
      var u := OwnTable(l, k, p, c, j);
    }
  }

  lemma EnsureExclusive(l: Layout, k: Kernel, p: Pages, d: nat, i: nat)
    requires Inv(l, k, p) && d < THREAD_LIMIT && KERNEL_TABLES <= i < ENTRIES
    requires !p.mem[PD(d)][i].present && FirstClear(p.uptUsed) < MAX_USER_PT
    ensures TablesExclusive(EnsureTable(l, p, PD(d), i))
  {
    var t := FirstClear(p.uptUsed);
    EnsureEntries(l, k, p, d, i);
    forall c, j | 0 <= c < THREAD_LIMIT && p.pdUsed[c] && KERNEL_TABLES <= j < ENTRIES ensures p.mem[PD(c)][j] != UserEntry(l, t) {
      NotYetReferred(l, k, p, t, c, j);
    }
  }

  lemma EnsureKeepsInv(l: Layout, k: Kernel, p: Pages, d: nat, i: nat)
    requires Inv(l, k, p) && d < THREAD_LIMIT && KERNEL_TABLES <= i < ENTRIES
    ensures Inv(l, k, EnsureTable(l, p, PD(d), i))
  {
    if !p.mem[PD(d)][i].present && FirstClear(p.uptUsed) < MAX_USER_PT {
      var p1 := EnsureTable(l, p, PD(d), i);
      EnsureEntries(l, k, p, d, i);
      forall c | 0 <= c < THREAD_LIMIT && p1.pdUsed[c] ensures DirectoryOk(l, p1, c) { EnsureKeepsDirectory(l, k, p, d, i, c); }
      EnsureExclusive(l, k, p, d, i);
    }
  }

  /** An entry of a directory in use leads to no directory and to no table that is not taken. */
  lemma TableElsewhere(l: Layout, k: Kernel, p: Pages, c: nat, j: nat, t: nat)
    requires Inv(l, k, p) && c < THREAD_LIMIT && p.pdUsed[c] && j < ENTRIES && t < MAX_USER_PT && !p.uptUsed[t]
    ensures var n := TableOf(l, p, PD(c), j); n.Some? ==> n.value != UPT(t) && forall d | 0 <= d < THREAD_LIMIT :: n.value != PD(d)
  {
    if j < KERNEL_TABLES { SharedTable(l, k, p, c, j); }
    else if p.mem[PD(c)][j].present { var u := OwnTable(l, k, p, c, j); }
  }

  /** A new, empty table changes no translation. */
  lemma EnsureKeepsTranslation(l: Layout, k: Kernel, p: Pages, d: nat, i: nat, c: nat, a: nat, b: nat)
    requires Inv(l, k, p) && d < THREAD_LIMIT && KERNEL_TABLES <= i < ENTRIES
    requires c < THREAD_LIMIT && p.pdUsed[c] && a < ENTRIES && b < ENTRIES
    ensures Translate(l, EnsureTable(l, p, PD(d), i), PD(c), a, b) == Translate(l, p, PD(c), a, b)
  {
    var t, p1 := FirstClear(p.uptUsed), EnsureTable(l, p, PD(d), i);
    if !p.mem[PD(d)][i].present && t < MAX_USER_PT {
      EnsureEntries(l, k, p, d, i);
      if c == d && a == i {
        UserTranslation(l, p1, PD(c), a, b, t);
      } else {
        TableElsewhere(l, k, p, c, a, t);
        SameTranslation(l, p, p1, PD(c), a, b);
      }
    }
  }

  // ---------------------------------------------------------------- writing one entry

  lemma WriteKeepsInv(l: Layout, k: Kernel, p: Pages, t: nat, j: nat, e: Entry)
    requires Inv(l, k, p) && t < MAX_USER_PT && j < ENTRIES
    ensures Inv(l, k, p.Set(UPT(t), j, e))
  {
    var p' := p.Set(UPT(t), j, e);
    forall c | 0 <= c < THREAD_LIMIT && p'.pdUsed[c] ensures DirectoryOk(l, p', c) {
      assert DirectoryOk(l, p, c);
      forall i | KERNEL_TABLES <= i < ENTRIES && p'.mem[PD(c)][i].present ensures exists u :: Refers(l, p', p'.mem[PD(c)][i], u) {
        var u := OwnTable(l, k, p, c, i);
        assert Refers(l, p', p'.mem[PD(c)][i], u);
      }
    }
  }

  /** The other entries of directories in use lead to other tables. */
  lemma OtherTable(l: Layout, k: Kernel, p: Pages, d: nat, i: nat, t: nat, c: nat, a: nat)
    requires Inv(l, k, p) && d < THREAD_LIMIT && p.pdUsed[d] && KERNEL_TABLES <= i < ENTRIES && Refers(l, p, p.mem[PD(d)][i], t)
    requires c < THREAD_LIMIT && p.pdUsed[c] && a < ENTRIES && (c != d || a != i)
    ensures TableOf(l, p, PD(c), a) != Some(UPT(t))
  {
    if a < KERNEL_TABLES { SharedTable(l, k, p, c, a); }
    else if p.mem[PD(c)][a].present { var u := OwnTable(l, k, p, c, a); }
  }

  /** An entry written into the table of one directory entry changes that one page of that directory. */
  lemma WriteTranslation(l: Layout, k: Kernel, p: Pages, d: nat, i: nat, t: nat, j: nat, e: Entry, c: nat, a: nat, b: nat)
    requires Inv(l, k, p) && d < THREAD_LIMIT && p.pdUsed[d] && KERNEL_TABLES <= i < ENTRIES && j < ENTRIES && Refers(l, p, p.mem[PD(d)][i], t)
    requires c < THREAD_LIMIT && p.pdUsed[c] && a < ENTRIES && b < ENTRIES
    ensures Translate(l, p.Set(UPT(t), j, e), PD(c), a, b)
              == if c == d && a == i && b == j then PageAt(e) else Translate(l, p, PD(c), a, b)
  {
    var p' := p.Set(UPT(t), j, e);
    if c == d && a == i {
      UserTranslation(l, p, PD(c), a, b, t);
      UserTranslation(l, p', PD(c), a, b, t);
    } else {
      OtherTable(l, k, p, d, i, t, c, a);
      SameTranslation(l, p, p', PD(c), a, b);
    }
  }

  // ---------------------------------------------------------------- map_page

  /** Whether `map_page` finds or gets a table. */
  ghost predicate CanMap(p: Pages, d: nat, i: nat)
    requires p.Shape() && d < THREAD_LIMIT && i < ENTRIES
  {
    p.mem[PD(d)][i].present || FirstClear(p.uptUsed) < MAX_USER_PT
  }

  lemma MapPageSteps(l: Layout, k: Kernel, p: Pages, d: nat, i: nat, j: nat, e: Entry) returns (p1: Pages, t: nat)
    requires Inv(l, k, p) && d < THREAD_LIMIT && p.pdUsed[d] && KERNEL_TABLES <= i < ENTRIES && j < ENTRIES && CanMap(p, d, i)
    ensures p1 == EnsureTable(l, p, PD(d), i) && Inv(l, k, p1) && p1.pdUsed == p.pdUsed && p1.frames == p.frames
    ensures Refers(l, p1, p1.mem[PD(d)][i], t)
    ensures MapPage(l, p, PD(d), i, j, e) == p1.Set(UPT(t), j, e)
  {
    p1 := EnsureTable(l, p, PD(d), i);
    EnsureKeepsInv(l, k, p, d, i);
    if !p.mem[PD(d)][i].present { EnsureEntries(l, k, p, d, i); }
    t := OwnTable(l, k, p1, d, i);
  }

  lemma MapPageKeepsInv(l: Layout, k: Kernel, p: Pages, d: nat, i: nat, j: nat, e: Entry)
    requires Inv(l, k, p) && d < THREAD_LIMIT && p.pdUsed[d] && KERNEL_TABLES <= i < ENTRIES && j < ENTRIES
    ensures var p' := MapPage(l, p, PD(d), i, j, e); Inv(l, k, p') && p'.pdUsed == p.pdUsed && p'.frames == p.frames
    ensures !CanMap(p, d, i) ==> MapPage(l, p, PD(d), i, j, e) == p
  {
    if CanMap(p, d, i) {
      var p1, t := MapPageSteps(l, k, p, d, i, j, e);
      WriteKeepsInv(l, k, p1, t, j, e);
    }
  }

  /**
  `map_page` in the user half sets exactly that page of exactly that directory; when the user tables
  have run out it changes nothing at all.
  */
  lemma MapPageRefines(l: Layout, k: Kernel, p: Pages, d: nat, i: nat, j: nat, e: Entry, c: nat, a: nat, b: nat)
    requires Inv(l, k, p) && d < THREAD_LIMIT && p.pdUsed[d] && KERNEL_TABLES <= i < ENTRIES && j < ENTRIES
    requires c < THREAD_LIMIT && p.pdUsed[c] && a < ENTRIES && b < ENTRIES
    ensures Translate(l, MapPage(l, p, PD(d), i, j, e), PD(c), a, b)
              == if CanMap(p, d, i) && c == d && a == i && b == j then PageAt(e) else Translate(l, p, PD(c), a, b)
  {
    MapPageKeepsInv(l, k, p, d, i, j, e);
    if CanMap(p, d, i) {
      var p1, t := MapPageSteps(l, k, p, d, i, j, e);
      EnsureKeepsTranslation(l, k, p, d, i, c, a, b);
      WriteTranslation(l, k, p1, d, i, t, j, e, c, a, b);
    }
  }

  /**
  In the lower half, where the tables are the kernel's, `map_page` sets the page in every directory in
  use: it keeps to one directory if and only if the address is at or above 0x2000000.
  */
  lemma MapPageShared(l: Layout, k: Kernel, p: Pages, d: nat, i: nat, j: nat, e: Entry, c: nat, a: nat, b: nat)
    requires Inv(l, k, p) && d < THREAD_LIMIT && p.pdUsed[d] && i < KERNEL_TABLES && j < ENTRIES
    requires c < THREAD_LIMIT && p.pdUsed[c] && a < ENTRIES && b < ENTRIES
    ensures Translate(l, MapPage(l, p, PD(d), i, j, e), PD(c), a, b)
              == if a == i && b == j then PageAt(e.(user := false)) else Translate(l, p, PD(c), a, b)
  {
    SharedTable(l, k, p, d, i);
    if a < KERNEL_TABLES { SharedTable(l, k, p, c, a); }
    else if p.mem[PD(c)][a].present { var u := OwnTable(l, k, p, c, a); }
  }

  // ---------------------------------------------------------------- directories and frames

  /** Below 0x2000000 every directory in use shows the kernel's own pages, and none to ring 3. */
  lemma KernelShared(l: Layout, k: Kernel, p: Pages, d: nat, i: nat, j: nat)
    requires Inv(l, k, p) && d < THREAD_LIMIT && p.pdUsed[d] && i < KERNEL_TABLES && j < ENTRIES && |k.tables[i]| == ENTRIES
    ensures Translate(l, p, PD(d), i, j)
              == var e := k.tables[i][j]; if e.present then Some(Page(e.page, e.flags, false)) else None
  {
    SharedTable(l, k, p, d, i);
  }

  lemma AllocKeepsDirectory(l: Layout, k: Kernel, p: Pages, c: nat)
    requires Inv(l, k, p) && FirstClear(p.pdUsed) < THREAD_LIMIT && c < THREAD_LIMIT && AllocPageDirectory(p).0.pdUsed[c]
    ensures AllocPageDirectory(p).0.Shape() && DirectoryOk(l, AllocPageDirectory(p).0, c)
  {
    var d, p' := FirstClear(p.pdUsed), AllocPageDirectory(p).0;
    if c != d {
      assert DirectoryOk(l, p, c);
      forall i | KERNEL_TABLES <= i < ENTRIES && p'.mem[PD(c)][i].present ensures exists u :: Refers(l, p', p'.mem[PD(c)][i], u) {
        var u := OwnTable(l, k, p, c, i);
        assert Refers(l, p', p'.mem[PD(c)][i], u);
      }
    }
  }

  lemma AllocKeepsInv(l: Layout, k: Kernel, p: Pages)
    requires Inv(l, k, p)
    ensures Inv(l, k, AllocPageDirectory(p).0)
  {
    var p' := AllocPageDirectory(p).0;
    if FirstClear(p.pdUsed) < THREAD_LIMIT {
      forall c | 0 <= c < THREAD_LIMIT && p'.pdUsed[c] ensures DirectoryOk(l, p', c) { AllocKeepsDirectory(l, k, p, c); }
    }
  }

  /** A new directory shows nothing in the user half, and the others show what they did. */
  lemma AllocTranslation(l: Layout, k: Kernel, p: Pages, c: nat, a: nat, b: nat)
    requires Inv(l, k, p) && c < THREAD_LIMIT && AllocPageDirectory(p).0.Shape() && AllocPageDirectory(p).0.pdUsed[c] && a < ENTRIES && b < ENTRIES
    ensures !p.pdUsed[c] ==> AllocPageDirectory(p).1 == Some(c)
    ensures !p.pdUsed[c] && KERNEL_TABLES <= a ==> Translate(l, AllocPageDirectory(p).0, PD(c), a, b).None?
    ensures p.pdUsed[c] ==> Translate(l, AllocPageDirectory(p).0, PD(c), a, b) == Translate(l, p, PD(c), a, b)
  {
    var p' := AllocPageDirectory(p).0;
    if p.pdUsed[c] {
      if a < KERNEL_TABLES { SharedTable(l, k, p, c, a); }
      else if p.mem[PD(c)][a].present { var u := OwnTable(l, k, p, c, a); }
      SameTranslation(l, p, p', PD(c), a, b);
    }
  }

  /** Flags of directories being cleared, and flags of frames, matter to no entry. */
  lemma FlagsKeepInv(l: Layout, k: Kernel, p: Pages, p': Pages)
    requires Inv(l, k, p) && p' == p.(pdUsed := p'.pdUsed, frames := p'.frames) && p'.Shape()
    requires forall c | 0 <= c < THREAD_LIMIT && p'.pdUsed[c] :: p.pdUsed[c]
    ensures Inv(l, k, p')
  {
    forall c | 0 <= c < THREAD_LIMIT && p'.pdUsed[c] ensures DirectoryOk(l, p', c) {
      assert DirectoryOk(l, p, c);
      forall i | KERNEL_TABLES <= i < ENTRIES && p'.mem[PD(c)][i].present ensures exists u :: Refers(l, p', p'.mem[PD(c)][i], u) {
        var u := OwnTable(l, k, p, c, i);
        assert Refers(l, p', p'.mem[PD(c)][i], u);
      }
    }
  }

  // ---------------------------------------------------------------- write permission

  lemma TableFlags()
    ensures Has(7, RW) && Has(3, RW)
  {
  }

  /** No directory entry takes write permission away: a page is writable if and only if its own entry says so. */
  lemma MayWriteIff(l: Layout, k: Kernel, p: Pages, d: nat, i: nat, j: nat)
    requires Inv(l, k, p) && d < THREAD_LIMIT && p.pdUsed[d] && i < ENTRIES && j < ENTRIES
    ensures MayWrite(l, p, PD(d), i, j) <==> Translate(l, p, PD(d), i, j).Some? && Has(Translate(l, p, PD(d), i, j).value.flags, RW)
  {
    TableFlags();
    if i < KERNEL_TABLES {
      SharedTable(l, k, p, d, i);
      assert DirectoryOk(l, p, d);
    } else if p.mem[PD(d)][i].present {
      var t := OwnTable(l, k, p, d, i);
    }
  }

  // ---------------------------------------------------------------- giving back

  /** A frame given back is one more that is free; the lowest free one is what is handed out next. */
  lemma FrameFreed(p: Pages, n: nat)
    requires p.Shape() && n < FRAME_COUNT
    ensures var q := FrameFree(p, n);
            && Clear(q.frames) == (if p.frames[n] then Clear(p.frames) + 1 else Clear(p.frames))
            && FrameAlloc(q).1 == Some(if FirstClear(p.frames) < n then FirstClear(p.frames) else n)
            && (forall a | 0 <= a < FRAME_COUNT && a != n :: q.frames[a] == p.frames[a])
  {
    ClearAfterUnset(p.frames, n);
    FirstClearIs(FrameFree(p, n).frames, if FirstClear(p.frames) < n then FirstClear(p.frames) else n);
  }

  /** Taking a frame and giving it back changes nothing, and no other frame is affected by the taking. */
  lemma TakeAndReturn(p: Pages, n: nat)
    requires p.Shape() && FrameAlloc(p).1 == Some(n)
    ensures n < FRAME_COUNT && FrameFree(FrameAlloc(p).0, n) == p
    ensures Clear(FrameAlloc(p).0.frames) == Clear(p.frames) - 1
  {
    ClearAfterSet(p.frames, n);
    assert p.frames[n := true][n := false] == p.frames;
  }

  /** The same of directories: the lowest free one is handed out next, and then shows nothing of what it held. */
  lemma DirectoryFreed(l: Layout, k: Kernel, p: Pages, d: nat, i: nat, j: nat)
    requires Inv(l, k, p) && d < THREAD_LIMIT && KERNEL_TABLES <= i < ENTRIES && j < ENTRIES
    ensures var q := FreePageDirectory(p, d);
            && Clear(q.pdUsed) == (if p.pdUsed[d] then Clear(p.pdUsed) + 1 else Clear(p.pdUsed))
            && (forall c | 0 <= c < THREAD_LIMIT && c != d :: q.pdUsed[c] == p.pdUsed[c])
            && var c := if FirstClear(p.pdUsed) < d then FirstClear(p.pdUsed) else d;
               AllocPageDirectory(q).1 == Some(c) && AllocPageDirectory(q).0.Shape()
               && Translate(l, AllocPageDirectory(q).0, PD(c), i, j) == None
  {
    var q, c := FreePageDirectory(p, d), if FirstClear(p.pdUsed) < d then FirstClear(p.pdUsed) else d;
    ClearAfterUnset(p.pdUsed, d);
    FirstClearIs(q.pdUsed, c);
    FlagsKeepInv(l, k, p, q);
    AllocKeepsInv(l, k, q);
    AllocTranslation(l, k, q, c, i, j);
  }
}
