/** Ordinary requests that lead the kernel heap to where the guard of `free` matters. */
module ClusterExamples {
  import opened Base
  import opened Bitmap
  import opened ClusterSpec
  import opened ClusterTheorems

  lemma RunSnoc(hs: seq<Heap>, rs: seq<Request>, log: seq<Event>, h: Heap, r: Request, e: Event, h': Heap)
    requires Run(hs, rs, log) && hs[|rs|] == h && Served(h, r, e, h')
    ensures Run(hs + [h'], rs + [r], log + [e])
  {
    var hs', rs', log' := hs + [h'], rs + [r], log + [e];
    forall i | 0 <= i < |rs'| ensures Served(hs'[i], rs'[i], log'[i], hs'[i + 1]) {
      if i < |rs| { assert Served(hs[i], rs[i], log[i], hs[i + 1]); }
    }
  }

  /** The heap of two bytes, each USED or not. */
  function Pair(low: bool, top: bool): Heap {
    Heap(16, 2, [Cluster(0, 16, 1, low), Cluster(1, 17, 1, top)], 0, (if low then 1 else 0) + (if top then 1 else 0), [true, true])
  }

  lemma UpperServed()
    ensures Served(Fresh(16, 2, 2), Alloc(1), Got(Extent(17, 1)), Pair(false, true)) && Inv(Pair(false, true))
  {
    var h, h' := Fresh(16, 2, 2), Pair(false, true);
    FreshSound(16, 2, 2);
    assert h.nodes == [true, false] && h.nodes[1..] == [false];
    assert Split(h.ring, 0, 1, 1) == h'.ring && h.nodes[1 := true] == h'.nodes;
    ServeKeepsInv(h, Alloc(1), Got(Extent(17, 1)), h');
  }

  lemma LowerServed()
    ensures Served(Pair(false, true), Alloc(1), Got(Extent(16, 1)), Pair(true, true)) && Inv(Pair(true, true))
  {
    var h, h' := Pair(false, true), Pair(true, true);
    UpperServed();
    assert h.ring[0 := h.ring[0].(used := true)] == h'.ring;
    ServeKeepsInv(h, Alloc(1), Got(Extent(16, 1)), h');
  }

  lemma UpperReturned()
    ensures Served(Pair(true, true), Release(17), Returned(17), Pair(true, false)) && Inv(Pair(true, false))
  {
    var h, h' := Pair(true, true), Pair(true, false);
    LowerServed();
    FindIs(h, 1);
    assert h.ring[1 := h.ring[1].(used := false)] == h'.ring;
    ServeKeepsInv(h, Release(17), Returned(17), h');
  }

  lemma LowerReturned(h: Heap)
    requires Inv(h) && |h.ring| == 2 && h.ring[0].used && !h.ring[1].used
    ensures h.ring[0].Where() in Live(h)
    ensures var h' := Free(h, h.ring[0].start); h'.cursor !in Ids(h'.ring)
  {
    LiveHas(h.ring, h.ring[0].Where());
    FindIs(h, 0);
    TilesBounds(h.ring, h.start, h.Limit(), 0);
    IdsDiffer(h.ring, 0, 1);
    OneOrTwo(Free(h, h.ring[0].start).ring[0], h.ring[1]);
  }

  lemma PairRun() returns (hs: seq<Heap>, rs: seq<Request>, log: seq<Event>)
    ensures Run(hs, rs, log) && |rs| == 2 && hs[0] == Fresh(16, 2, 2) && hs[2] == Pair(true, true)
  {
    UpperServed();
    RunSnoc([Fresh(16, 2, 2)], [], [], Fresh(16, 2, 2), Alloc(1), Got(Extent(17, 1)), Pair(false, true));
    hs, rs, log := [Fresh(16, 2, 2)] + [Pair(false, true)], [] + [Alloc(1)], [] + [Got(Extent(17, 1))];
    LowerServed();
    RunSnoc(hs, rs, log, Pair(false, true), Alloc(1), Got(Extent(16, 1)), Pair(true, true));
    hs, rs, log := hs + [Pair(true, true)], rs + [Alloc(1)], log + [Got(Extent(16, 1))];
  }

  /**
  A fresh two-byte heap serves two one-byte requests and takes the upper byte back. Returning the lower
  byte next leaves the cursor on a node that is no longer in the ring: permitted requests alone lead to
  where the guard matters.
  */
  lemma DanglingCursorReachable() returns (hs: seq<Heap>, rs: seq<Request>, log: seq<Event>)
    ensures Run(hs, rs, log) && |rs| == 3 && hs[0] == Fresh(16, 2, 2)
    ensures Inv(hs[3]) && Extent(16, 1) in Live(hs[3])
    ensures var h := Free(hs[3], 16); h.cursor !in Ids(h.ring)
  {
    hs, rs, log := PairRun();
    UpperReturned();
    RunSnoc(hs, rs, log, Pair(true, true), Release(17), Returned(17), Pair(true, false));
    hs, rs, log := hs + [Pair(true, false)], rs + [Release(17)], log + [Returned(17)];
    LowerReturned(Pair(true, false));
  }

  /** The heap of three bytes, with the lowest byte USED or not, and so on upwards. */
  function Three(low: bool, mid: bool, top: bool, cursor: nat): Heap {
    Heap(16, 3, [Cluster(0, 16, 1, low), Cluster(2, 17, 1, mid), Cluster(1, 18, 1, top)], cursor,
         (if low then 1 else 0) + (if mid then 1 else 0) + (if top then 1 else 0), [true, true, true])
  }

  /** After the first of three one-byte requests. */
  function TopTaken(): Heap { Heap(16, 3, [Cluster(0, 16, 2, false), Cluster(1, 18, 1, true)], 0, 1, [true, true, false]) }

  lemma TopServed()
    ensures Served(Fresh(16, 3, 3), Alloc(1), Got(Extent(18, 1)), TopTaken()) && Inv(TopTaken())
  {
    var h := Fresh(16, 3, 3);
    FreshSound(16, 3, 3);
    assert h.nodes == [true, false, false] && h.nodes[1..] == [false, false];
    assert Split(h.ring, 0, 1, 1) == TopTaken().ring && h.nodes[1 := true] == TopTaken().nodes;
    ServeKeepsInv(h, Alloc(1), Got(Extent(18, 1)), TopTaken());
  }

  lemma MiddleServed()
    ensures Served(TopTaken(), Alloc(1), Got(Extent(17, 1)), Three(false, true, true, 0)) && Inv(Three(false, true, true, 0))
  {
    var h, h' := TopTaken(), Three(false, true, true, 0);
    TopServed();
    FirstClearIs(h.nodes, 2);
    assert Split(h.ring, 0, 1, 2) == h'.ring && h.nodes[2 := true] == h'.nodes;
    ServeKeepsInv(h, Alloc(1), Got(Extent(17, 1)), h');
  }

  lemma LowTaken(h: Heap)
    requires h == Three(false, true, true, 0) && Inv(h)
    ensures Permitted(h, Alloc(1)) && Serve(h, Alloc(1)) == (Three(true, true, true, 0), Got(Extent(16, 1)))
  {
    assert h.ring[0 := h.ring[0].(used := true)] == Three(true, true, true, 0).ring;
  }

  lemma LowServed()
    ensures Served(Three(false, true, true, 0), Alloc(1), Got(Extent(16, 1)), Three(true, true, true, 0)) && Inv(Three(true, true, true, 0))
  {
    var h, h' := Three(false, true, true, 0), Three(true, true, true, 0);
    MiddleServed();
    LowTaken(h);
    ServeKeepsInv(h, Alloc(1), Got(Extent(16, 1)), h');
  }

  lemma TopFreed(h: Heap)
    requires h == Three(true, true, true, 0) && Inv(h)
    ensures Permitted(h, Release(18)) && Free(h, 18) == Three(true, true, false, 2)
  {
    FindIs(h, 2);
    assert h.ring[2 := h.ring[2].(used := false)] == Three(true, true, false, 2).ring;
  }

  lemma TopReturned()
    ensures Served(Three(true, true, true, 0), Release(18), Returned(18), Three(true, true, false, 2)) && Inv(Three(true, true, false, 2))
  {
    var h, h' := Three(true, true, true, 0), Three(true, true, false, 2);
    LowServed();
    TopFreed(h);
    ServeKeepsInv(h, Release(18), Returned(18), h');
  }

  lemma FirstTwo() returns (hs: seq<Heap>, rs: seq<Request>, log: seq<Event>)
    ensures Run(hs, rs, log) && |rs| == 2 && hs[0] == Fresh(16, 3, 3) && hs[2] == Three(false, true, true, 0)
  {
    TopServed();
    RunSnoc([Fresh(16, 3, 3)], [], [], Fresh(16, 3, 3), Alloc(1), Got(Extent(18, 1)), TopTaken());
    hs, rs, log := [Fresh(16, 3, 3)] + [TopTaken()], [] + [Alloc(1)], [] + [Got(Extent(18, 1))];
    MiddleServed();
    RunSnoc(hs, rs, log, TopTaken(), Alloc(1), Got(Extent(17, 1)), Three(false, true, true, 0));
    hs, rs, log := hs + [Three(false, true, true, 0)], rs + [Alloc(1)], log + [Got(Extent(17, 1))];
  }

  lemma LastTwo(hs2: seq<Heap>, rs2: seq<Request>, log2: seq<Event>) returns (hs: seq<Heap>, rs: seq<Request>, log: seq<Event>)
    requires Run(hs2, rs2, log2) && |rs2| == 2 && hs2[0] == Fresh(16, 3, 3) && hs2[2] == Three(false, true, true, 0)
    ensures Run(hs, rs, log) && |rs| == 4 && hs[0] == Fresh(16, 3, 3) && hs[4] == Three(true, true, false, 2)
  {
    LowServed();
    RunSnoc(hs2, rs2, log2, Three(false, true, true, 0), Alloc(1), Got(Extent(16, 1)), Three(true, true, true, 0));
    hs, rs, log := hs2 + [Three(true, true, true, 0)], rs2 + [Alloc(1)], log2 + [Got(Extent(16, 1))];
    TopReturned();
    RunSnoc(hs, rs, log, Three(true, true, true, 0), Release(18), Returned(18), Three(true, true, false, 2));
    hs, rs, log := hs + [Three(true, true, false, 2)], rs + [Release(18)], log + [Returned(18)];
  }

  lemma LowestMerged()
    ensures Inv(Three(true, true, false, 2)) && Extent(16, 1) in Live(Three(true, true, false, 2))
    ensures var h' := Free(Three(true, true, false, 2), 16); h'.ring != [] && h'.Limit() < h'.ring[|h'.ring| - 1].Limit()
  {
    var h := Three(true, true, false, 2);
    TopReturned();
    LiveHas(h.ring, h.ring[0].Where());
    FindIs(h, 0);
    ForwardKeepsTop(h);
    Swallows(Marked(h, 0));
  }

  /**
  Three one-byte requests on a fresh three-byte heap and the return of the highest byte. Returning the
  lowest byte next merges it into the highest cluster, which then reaches past the end of the region.
  */
  lemma WrapMergeReachable() returns (hs: seq<Heap>, rs: seq<Request>, log: seq<Event>)
    ensures Run(hs, rs, log) && |rs| == 4 && hs[0] == Fresh(16, 3, 3)
    ensures Inv(hs[4]) && Extent(16, 1) in Live(hs[4])
    ensures var h := Free(hs[4], 16); h.ring != [] && h.Limit() < h.ring[|h.ring| - 1].Limit()
  {
    hs, rs, log := FirstTwo();
    hs, rs, log := LastTwo(hs, rs, log);
    LowestMerged();
  }
}
