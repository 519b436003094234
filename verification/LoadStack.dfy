/** The user stack of a new thread (kernel/kernel.cpp): two return addresses to `call_exit`, where ring 3 finds them. */
module LoadStack {
  import opened Base
  import opened Bytes
  import opened Bitmap
  import opened PagingBits
  import opened PagingSpec
  import opened PagingTheorems
  import opened LoaderSpec
  import opened LoadSpec
  import opened LoadTheorems

  /** The stack's page is in frame `n`, which holds `frame`; directory `d` shows it if it got a table. */
  ghost predicate StackIn(l: Layout, m: Machine, d: nat, n: nat, frame: seq<Byte>, shown: bool) {
    && m.Shape() && l.Ok() && d < THREAD_LIMIT && n < FRAME_COUNT && m.pages.frames[n] && m.ram[n] == frame
    && Translate(l, m.pages, PD(d), STACK_I, STACK_J) == if shown then Some(Page(l.frame[n], 7, true)) else None
  }

  ghost predicate StackKept(l: Layout, k: Kernel, m: Machine, d: nat, n: nat, frame: seq<Byte>, shown: bool) {
    StackIn(l, m, d, n, frame, shown) && Inv(l, k, m.pages) && m.pages.pdUsed[d]
  }

  /** What `thread_create` leaves in the stack's frame. */
  ghost predicate TwoReturns(frame: seq<Byte>, callExit: nat)
    requires callExit < WORD
  {
    |frame| == PAGE && forall o | 0 <= o < 8 :: frame[4088 + o] == Le32(callExit)[o % 4]
  }

  lemma NothingThere(l: Layout, p: Pages, d: nat)
    requires p.Shape() && |l.addr| == ARRAYS && d < THREAD_LIMIT && !p.mem[PD(d)][STACK_I].present
    ensures Translate(l, p, PD(d), STACK_I, STACK_J) == None
  {
  }

  lemma StackMapped(l: Layout, k: Kernel, p: Pages, d: nat, a: bv32)
    requires Inv(l, k, p) && d < THREAD_LIMIT && p.pdUsed[d] && !p.mem[PD(d)][STACK_I].present
    ensures var q := MapPage(l, p, PD(d), STACK_I, STACK_J, UserPage(a));
            Translate(l, q, PD(d), STACK_I, STACK_J) == if 0 < Clear(p.uptUsed) then Some(Page(a, 7, true)) else None
  {
    ClearIff(p.uptUsed);
    NothingThere(l, p, d);
    MapPageRefines(l, k, p, d, STACK_I, STACK_J, UserPage(a), d, STACK_I, STACK_J);
  }

  lemma Returns(was: seq<Byte>, callExit: nat)
    requires |was| == PAGE && callExit < WORD
    ensures TwoReturns(was[..4088] + Le32(callExit) + Le32(callExit), callExit)
  {
  }

  lemma NewStack(l: Layout, k: Kernel, m: Machine, kernelStack: bool, callExit: nat) returns (n: nat, frame: seq<Byte>)
    requires m.Shape() && Inv(l, k, m.pages) && callExit < WORD && NewSpace(l, m, kernelStack, callExit).1.Some?
    ensures var (m1, d) := NewSpace(l, m, kernelStack, callExit);
            StackIn(l, m1, d.value, n, frame, 0 < Clear(m.pages.uptUsed)) && TwoReturns(frame, callExit)
  {
    var (p, d) := AllocPageDirectory(m.pages);
    NewDirectory(l, k, m.pages, d.value);
    ClearIff(p.frames);
    TakeFrame(l, k, p);
    n := FrameAlloc(p).1.value;
    StackMapped(l, k, FrameAlloc(p).0, d.value, l.frame[n]);
    StackAccounts(l, k, FrameAlloc(p).0, d.value, UserPage(l.frame[n]));
    Returns(m.ram[n], callExit);
    frame := NewSpace(l, m, kernelStack, callExit).0.ram[n];
  }

  /** Loading a page takes another frame and maps it elsewhere. */
  lemma LoadPageKeepsStack(l: Layout, k: Kernel, m: Machine, d: nat, disk: seq<Byte>, e: DirEntry, page: nat, n: nat, frame: seq<Byte>, shown: bool)
    requires StackKept(l, k, m, d, n, frame, shown) && page + Clear(m.pages.frames) <= FRAME_COUNT
    ensures var (m1, ok) := LoadPage(l, m, d, disk, e, page);
            && StackKept(l, k, m1, d, n, frame, shown)
            && (ok ==> page + 1 + Clear(m1.pages.frames) <= FRAME_COUNT)
  {
    ClearIff(m.pages.frames);
    if 0 < Clear(m.pages.frames) {
      TakeFrame(l, k, m.pages);
      var p0, a := FrameAlloc(m.pages).0, l.frame[FirstClear(m.pages.frames)];
      Slots(page);
      MapPageKeepsInvAt(l, k, p0, d, page, UserPage(a));
      MapPageRefines(l, k, p0, d, SlotI(page), SlotJ(page), UserPage(a), d, STACK_I, STACK_J);
      SameTranslation(l, m.pages, p0, PD(d), STACK_I, STACK_J);
    }
  }

  lemma {:induction false} LoadPagesKeepStack(l: Layout, k: Kernel, m: Machine, d: nat, disk: seq<Byte>, e: DirEntry, page: nat,
                                              n: nat, frame: seq<Byte>, shown: bool)
    requires StackKept(l, k, m, d, n, frame, shown) && page + Clear(m.pages.frames) <= FRAME_COUNT
    ensures StackKept(l, k, LoadPages(l, m, d, disk, e, page).0, d, n, frame, shown)
    decreases NumPages(e.sectors) - page
  {
    if page < NumPages(e.sectors) {
      var (m1, ok) := LoadPage(l, m, d, disk, e, page);
      LoadPageKeepsStack(l, k, m, d, disk, e, page, n, frame, shown);
      if ok { LoadPagesKeepStack(l, k, m1, d, disk, e, page + 1, n, frame, shown); }
    }
  }

  lemma LoadedStack(l: Layout, k: Kernel, m: Machine, disk: seq<Byte>, name: seq<Byte>, memory: bool, number: bool, kernelStack: bool, callExit: nat)
    returns (n: nat, frame: seq<Byte>)
    requires m.Shape() && Inv(l, k, m.pages) && callExit < WORD
    requires LoadProgram(l, m, disk, name, memory, number, kernelStack, callExit).1.Some?
    ensures var (m1, t) := LoadProgram(l, m, disk, name, memory, number, kernelStack, callExit);
            StackKept(l, k, m1, t.value.dir, n, frame, 0 < Clear(m.pages.uptUsed)) && TwoReturns(frame, callExit)
  {
    NewSpaceReady(l, k, m, kernelStack, callExit, []);
    n, frame := NewStack(l, k, m, kernelStack, callExit);
    var (m1, d) := NewSpace(l, m, kernelStack, callExit);
    LoadPagesKeepStack(l, k, m1, d.value, disk, Lookup(disk, name).value, 0, n, frame, 0 < Clear(m.pages.uptUsed));
  }

  // ---------------------------------------------------------------- addresses

  lemma StackIndices(o: bv32)
    requires o < 8
    ensures PdIndex(USER_ESP + o) == STACK_I && PtIndex(USER_ESP + o) == STACK_J
  {
    assert ((USER_ESP + o) >> 22) & 0x3FF == 767;
    assert ((USER_ESP + o) >> 12) & 0x3FF == 1023;
  }

  lemma StackPlace(o: bv32)
    requires o < 8
    ensures (USER_ESP + o) & 0xFFF == 0xFF8 + o
  {
  }

  lemma PlaceNumber(o: bv32)
    requires o < 8
    ensures o as nat < 8 && (0xFF8 + o) as nat == 4088 + o as nat
  {
    if o < 4 {
      assert o == 0 || o == 1 || o == 2 || o == 3;
    } else {
      assert o == 4 || o == 5 || o == 6 || o == 7;
    }
  }

  lemma ReadStack(l: Layout, m: Machine, d: nat, n: nat, frame: seq<Byte>, shown: bool, o: bv32)
    requires StackIn(l, m, d, n, frame, shown) && o < 8
    ensures |frame| == PAGE && o as nat < 8
    ensures UserRead(l, m, d, USER_ESP + o) == if shown then Some(frame[4088 + o as nat]) else None
  {
    StackIndices(o);
    StackPlace(o);
    PlaceNumber(o);
    assert l.FrameAt(l.frame[n]) == Some(n);
  }

  lemma ReadReturns(l: Layout, m: Machine, t: Start, n: nat, frame: seq<Byte>, shown: bool, callExit: nat, o: bv32, j: nat)
    requires callExit < WORD && StackIn(l, m, t.dir, n, frame, shown) && TwoReturns(frame, callExit) && t.esp == USER_ESP && o < 8 && o as nat == j
    ensures UserRead(l, m, t.dir, t.esp + o) == if shown then Some(Le32(callExit)[j % 4]) else None
  {
    ReadStack(l, m, t.dir, n, frame, shown, o);
  }

  /**
  Whatever program was loaded from whatever disk: the new thread's stack pointer leads to two words, both the
  address of `call_exit`, if a table was left for its page. With no user table left ring 3 finds nothing there.
  */
  lemma StackReturns(l: Layout, k: Kernel, m: Machine, disk: seq<Byte>, name: seq<Byte>, memory: bool, number: bool, kernelStack: bool, callExit: nat,
                     o: bv32)
    requires m.Shape() && Inv(l, k, m.pages) && callExit < WORD && o < 8
    requires LoadProgram(l, m, disk, name, memory, number, kernelStack, callExit).1.Some?
    ensures var (m1, t) := LoadProgram(l, m, disk, name, memory, number, kernelStack, callExit);
            UserRead(l, m1, t.value.dir, t.value.esp + o) == if 0 < Clear(m.pages.uptUsed) then Some(Le32(callExit)[o as nat % 4]) else None
  {
    var n, frame := LoadedStack(l, k, m, disk, name, memory, number, kernelStack, callExit);
    var (m1, t) := LoadProgram(l, m, disk, name, memory, number, kernelStack, callExit);
    ReadReturns(l, m1, t.value, n, frame, 0 < Clear(m.pages.uptUsed), callExit, o, o as nat);
  }

  // ---------------------------------------------------------------- writing

  /** Ring 3 may write to its stack, if it has one, and to every page of its program that is shown. */
  lemma StackWritable(l: Layout, k: Kernel, m: Machine, d: nat, n: nat, frame: seq<Byte>, shown: bool)
    requires StackKept(l, k, m, d, n, frame, shown)
    ensures MayWrite(l, m.pages, PD(d), STACK_I, STACK_J) <==> shown
  {
    TableFlags();
    MayWriteIff(l, k, m.pages, d, STACK_I, STACK_J);
  }

  lemma ProgramWritable(l: Layout, k: Kernel, m: Machine, d: nat, block: seq<Byte>, ns: seq<nat>, total: nat, q: nat)
    requires Loading(l, k, m, d, block, ns, total) && q < |ns|
    ensures MayWrite(l, m.pages, PD(d), SlotI(q), SlotJ(q)) <==> SlotI(q) < 32 + total
  {
    TableFlags();
    assert PageLoaded(l, m, d, q, ns[q], block, total);
    MayWriteIff(l, k, m.pages, d, SlotI(q), SlotJ(q));
  }
}
