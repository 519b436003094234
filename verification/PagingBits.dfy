/** 32-bit paging at the level of bits (kernel/paging.hpp; section 4.3 of the Intel SDM, Volume 3A). */
module PagingBits {

  const PRESENT: bv32 := 1
  const RW: bv32 := 2
  const USER: bv32 := 4
  const FLAGS: bv32 := 0xFFF

  function PdIndex(va: bv32): (i: nat) ensures i < 1024 { ((va >> 22) & 0x3FF) as nat }

  function PtIndex(va: bv32): (i: nat) ensures i < 1024 { ((va >> 12) & 0x3FF) as nat }

  /** PAGE_ALIGN, and the recovery of a table's address from a directory entry. */
  function PageOf(a: bv32): bv32 { a & 0xFFFF_F000 }

  predicate Aligned(a: bv32) { a & 0xFFF == 0 }

  predicate Has(word: bv32, flag: bv32) { word & flag != 0 }

  lemma NatInjective(x: bv32, y: bv32)
    requires x as nat == y as nat
    ensures x == y
  {
    assert (x as nat) as bv32 == x;
  }

  /** The two indices together name the page, and nothing less does. */
  lemma SamePageIff(va: bv32, vb: bv32)
    ensures PdIndex(va) == PdIndex(vb) && PtIndex(va) == PtIndex(vb) <==> PageOf(va) == PageOf(vb)
  {
    if PdIndex(va) == PdIndex(vb) && PtIndex(va) == PtIndex(vb) {
      NatInjective((va >> 22) & 0x3FF, (vb >> 22) & 0x3FF);
      NatInjective((va >> 12) & 0x3FF, (vb >> 12) & 0x3FF);
    }
  }

  lemma AlignedPage(a: bv32)
    requires Aligned(a)
    ensures PageOf(a) == a
  {
  }

  /** The first eight directory entries are the 32 megabytes below 0x2000000. */
  lemma KernelHalf(va: bv32)
    ensures PdIndex(va) < 8 <==> va < 0x200_0000
  {
    var i := (va >> 22) & 0x3FF;
    assert i < 8 <==> va < 0x200_0000;
    assert i < 8 ==> i as nat < 8;
    assert i >= 8 ==> i as nat >= 8;
  }

  // ---------------------------------------------------------------- the next page

  lemma NatSuccessor(x: bv32)
    requires x < 0x2000
    ensures (x + 1) as nat == x as nat + 1
  {
  }

  lemma WithinTable(va: bv32)
    requires (va >> 12) & 0x3FF != 0x3FF
    ensures ((va + 0x1000) >> 22) & 0x3FF == (va >> 22) & 0x3FF && ((va + 0x1000) >> 12) & 0x3FF == ((va >> 12) & 0x3FF) + 1
  {
  }

  lemma NextTable(va: bv32)
    requires (va >> 12) & 0x3FF == 0x3FF && va < 0xF000_0000
    ensures ((va + 0x1000) >> 22) & 0x3FF == ((va >> 22) & 0x3FF) + 1 && ((va + 0x1000) >> 12) & 0x3FF == 0
  {
  }

  /** The page after `va` is the next entry of its table, ... */
  lemma NextInTable(va: bv32)
    requires (va >> 12) & 0x3FF != 0x3FF
    ensures PdIndex(va + 0x1000) == PdIndex(va) && PtIndex(va + 0x1000) == PtIndex(va) + 1
  {
    WithinTable(va);
    SmallIndex(va);
    NatSuccessor((va >> 12) & 0x3FF);
  }

  /** ... or the first of the next table. */
  lemma NextInDirectory(va: bv32)
    requires va < 0xF000_0000 && (va >> 12) & 0x3FF == 0x3FF
    ensures PdIndex(va + 0x1000) == PdIndex(va) + 1 && PtIndex(va + 0x1000) == 0
  {
    NextTable(va);
    SmallTable(va);
    NatSuccessor((va >> 22) & 0x3FF);
  }

  lemma SmallIndex(va: bv32)
    ensures (va >> 12) & 0x3FF < 0x2000
  {
  }

  lemma SmallTable(va: bv32)
    ensures (va >> 22) & 0x3FF < 0x2000
  {
  }

  lemma NextAligned(va: bv32)
    requires Aligned(va) && va < 0x200_0000
    ensures Aligned(va + 0x1000) && va + 0x1000 <= 0x200_0000
  {
  }

  /** No page begins between `va` and the next one. */
  lemma NothingBetween(va: bv32, w: bv32)
    requires Aligned(va) && Aligned(w) && va < 0x200_0000 && w < va + 0x1000
    ensures w < va || w == va
  {
  }

  /** Pages from `va` up to 0x2000000. */
  function PagesLeft(va: bv32): nat { if va < 0x200_0000 then (0x2000 - (va >> 12)) as nat else 0 }

  lemma PredecessorLess(n: bv32)
    requires 0 < n <= 0x2000
    ensures (n - 1) as nat < n as nat
  {
  }

  lemma ShiftNext(va: bv32)
    requires va < 0x200_0000
    ensures 0x2000 - ((va + 0x1000) >> 12) == 0x2000 - (va >> 12) - 1
  {
  }

  lemma ShiftSmall(va: bv32)
    requires va < 0x200_0000
    ensures 0 < 0x2000 - (va >> 12) <= 0x2000
  {
  }

  lemma FewerPagesLeft(va: bv32)
    requires va < 0x200_0000
    ensures PagesLeft(va + 0x1000) < PagesLeft(va)
  {
    ShiftNext(va);
    ShiftSmall(va);
    PredecessorLess(0x2000 - (va >> 12));
  }

  // ---------------------------------------------------------------- frames

  const FRAME_START: bv32 := 0x80_0000
  const FRAME_END: bv32 := 0x200_0000
  const FRAME_COUNT: nat := 6144

  function FrameAddress(n: nat): bv32
    requires n < FRAME_COUNT
  {
    FRAME_START + (n as bv32) * 0x1000
  }

  function FrameIndex(a: bv32): (i: nat)
    requires FRAME_START <= a < FRAME_END
    ensures i < FRAME_COUNT
  {
    var i := (a - FRAME_START) / 0x1000;
    assert i < 6144;
    i as nat
  }

  /** Every small number is the value of a word. */
  lemma {:induction false} Word(n: nat) returns (w: bv32)
    requires n <= FRAME_COUNT
    ensures w as nat == n && w <= 6144
  {
    if n == 0 {
      w := 0;
    } else {
      var v := Word(n - 1);
      NatSuccessor(v);
      w := v + 1;
    }
  }

  lemma WordAgain(w: bv32)
    ensures (w as nat) as bv32 == w
  {
  }

  lemma FrameOfWord(n: nat, w: bv32)
    requires n < FRAME_COUNT && w as nat == n
    ensures FrameAddress(n) == FRAME_START + w * 0x1000
  {
    WordAgain(w);
    assert n as bv32 == w;
  }

  lemma WordFrame(w: bv32)
    requires w < 6144
    ensures FRAME_START <= FRAME_START + w * 0x1000 < FRAME_END
  {
  }

  lemma WordFrameAligned(w: bv32)
    ensures Aligned(FRAME_START + w * 0x1000)
  {
  }

  lemma WordFrameBack(w: bv32)
    requires w < 6144
    ensures (FRAME_START + w * 0x1000 - FRAME_START) / 0x1000 == w
  {
  }

  lemma BelowCount(n: nat, w: bv32)
    requires n < FRAME_COUNT && w as nat == n
    ensures w < 6144
  {
  }

  /** Frame `n` begins at a page of the pool, and the index of its address is `n` again. */
  lemma FrameRoundTrip(n: nat)
    requires n < FRAME_COUNT
    ensures FRAME_START <= FrameAddress(n) < FRAME_END && Aligned(FrameAddress(n)) && FrameIndex(FrameAddress(n)) == n
  {
    var w := Word(n);
    BelowCount(n, w);
    FrameOfWord(n, w);
    WordFrame(w);
    WordFrameAligned(w);
    WordFrameBack(w);
  }
}
