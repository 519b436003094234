/**
Where the requests leave the cursor (kernel/structs/clusterpool.cpp:50 and :62), and so where the next search
begins: next fit goes on from the cluster it last cut, and from below the cluster it last took back.
*/
module ClusterCursor {
  import opened Base
  import opened ClusterSpec
  import opened ClusterTheorems

  /** Of all clusters that fit, `f` is the one with the fewest steps forward from `from`. */
  ghost predicate Nearest(ring: seq<Cluster>, from: nat, req: nat, f: nat) {
    && from < |ring| && f < |ring| && ring[f].Fits(req)
    && forall k | 0 <= k < |ring| && ring[k].Fits(req) :: Dist(from, f, |ring|) <= Dist(from, k, |ring|)
  }

  lemma CursorAt(h: Heap, from: nat)
    requires Inv(h) && from < |h.ring| && h.ring[from].id == h.cursor
    ensures IndexOf(h.ring, h.cursor) == from
  {
    var k := IndexOf(h.ring, h.cursor);
    if k < from { IdsDiffer(h.ring, k, from); }
    if from < k { IdsDiffer(h.ring, from, k); }
  }

  /** The cluster at `f` of `ring` after the top of it, or all of it, was handed out at `a`. */
  ghost predicate CutAt(ring: seq<Cluster>, ring': seq<Cluster>, f: nat, req: nat, a: nat) {
    && f < |ring| && f < |ring'| && a + req == ring[f].Limit()
    && ring'[f].id == ring[f].id && ring'[f].start == ring[f].start
    && if ring[f].size == req then ring'[f].used && ring'[f].start == a else !ring'[f].used && ring'[f].Limit() == a
  }

  /**
  A successful `allocate` takes the end of the fitting cluster with the fewest steps from the cursor, and
  leaves the cursor on that cluster, or on what is left of it below the address handed out.
  */
  lemma AllocateNextFit(h: Heap, req: nat, from: nat) returns (f: nat)
    requires Inv(h) && req < WORD && NodeAvailable(h, req) && Allocate(h, req).1 != 0
    requires from < |h.ring| && h.ring[from].id == h.cursor
    ensures Nearest(h.ring, from, req, f)
    ensures var (h', a) := Allocate(h, req); CutAt(h.ring, h'.ring, f, req, a) && h'.cursor == h'.ring[f].id
  {
    CursorAt(h, from);
    PickIsNextFit(h, req);
    f := Pick(h, req).value;
  }

  lemma CursorIndex(h: Heap) returns (from: nat)
    requires Inv(h)
    ensures from < |h.ring| && h.ring[from].id == h.cursor
  {
    from := IndexOf(h.ring, h.cursor);
  }

  /**
  Over every run: of two allocations in a row the second takes the fitting cluster with the fewest steps from
  the one the first was cut from, be it what was left below the first or the first itself.
  */
  lemma NextFitGoesOn(hs: seq<Heap>, rs: seq<Request>, log: seq<Event>, i: nat) returns (p: nat, f: nat)
    requires Run(hs, rs, log) && i + 1 < |rs| && log[i].Got? && log[i + 1].Got?
    ensures var ring, a := hs[i + 1].ring, log[i].extent.start;
            && p < |ring| && (if ring[p].used then ring[p].start == a else ring[p].Limit() == a)
            && Nearest(ring, p, log[i + 1].extent.size, f)
            && log[i + 1].extent.start + log[i + 1].extent.size == ring[f].Limit()
  {
    assert Served(hs[i], rs[i], log[i], hs[i + 1]) && Served(hs[i + 1], rs[i + 1], log[i + 1], hs[i + 2]);
    var from := CursorIndex(hs[i]);
    p := AllocateNextFit(hs[i], rs[i].req, from);
    f := AllocateNextFit(hs[i + 1], rs[i + 1].req, p);
  }

  // ---------------------------------------------------------------- free

  /** The cursor is on the cluster just below `a`, or on the highest one if `a` is the lowest address. */
  ghost predicate CursorBelow(h: Heap, a: nat) {
    exists j | 0 <= j < |h.ring| ::
      h.ring[j].id == h.cursor && if a == h.start then j == |h.ring| - 1 else h.ring[j].start < a <= h.ring[j].Limit()
  }

  lemma MarkedBelow(h: Heap, k: nat)
    requires Inv(h) && k < |h.ring| && h.ring[k].used
    ensures var h1, j := Marked(h, k), Prev(k, |h.ring|);
            && |h1.ring| == |h.ring| && h1.ring[j].id == h1.cursor && h1.start == h.start && h1.ring[j].start == h.ring[j].start
            && h1.ring[j].size == h.ring[j].size
    ensures 0 < k ==> h.ring[k - 1].start < h.ring[k].start == h.ring[k - 1].Limit()
    ensures h.ring[k].start == h.start <==> k == 0
  {
    if 0 < k { TilesBounds(h.ring, h.start, h.Limit(), k - 1); }
  }

  /** The backward merge keeps the cluster below, on its node. */
  lemma BackwardBelow(h: Heap, k: nat, a: nat)
    requires 0 < k < |h.ring| && h.ring[k].id < |h.nodes| && h.ring[k - 1].id == h.cursor
    requires a != h.start && h.ring[k - 1].start < a == h.ring[k - 1].Limit()
    ensures CursorBelow(if MergesBackward(h, k) then CoalesceNext(h, k - 1) else h, a)
  {
    var h3 := if MergesBackward(h, k) then CoalesceNext(h, k - 1) else h;
    assert h3.ring[k - 1].id == h3.cursor;
  }

  lemma AboveLowest(h: Heap, k: nat)
    requires Inv(h) && 0 < k < |h.ring| && h.ring[k].used
    ensures CursorBelow(FreeAt(h, k), h.ring[k].start)
  {
    FreeAtSteps(h, k);
    MarkedBelow(h, k);
    var h1 := Marked(h, k);
    var h2 := if MergesForward(h1, k) then CoalesceNext(h1, k) else h1;
    assert h2.ring[k - 1] == h1.ring[k - 1] && h2.ring[k].id == h1.ring[k].id;
    BackwardBelow(h2, k, h.ring[k].start);
  }

  lemma Lowest(h: Heap)
    requires Inv(h) && h.ring[0].used && !WrapHazard(h.ring)
    ensures CursorBelow(FreeAt(h, 0), h.start)
  {
    FreeAtSteps(h, 0);
    MarkedBelow(h, 0);
    var h1, h3 := Marked(h, 0), FreeAt(h, 0);
    assert h3 == if MergesForward(h1, 0) then CoalesceNext(h1, 0) else h1;
    assert h3.ring[|h3.ring| - 1].id == h3.cursor;
  }

  /** A safe `free` leaves the cursor on the cluster just below the address, merged with it or not. */
  lemma FreeCursor(h: Heap, k: nat)
    requires Inv(h) && k < |h.ring| && FreeSafe(h, h.ring[k].start)
    ensures CursorBelow(Free(h, h.ring[k].start), h.ring[k].start)
  {
    FindIs(h, k);
    if k == 0 { Lowest(h); } else { AboveLowest(h, k); }
  }
}
