/**
The kernel heap as the code has it (kernel/structs/clusterpool.cpp): metadata nodes linked into a
circular doubly linked ring, changed in place. Each method is proved against the functions of
`ClusterSpec`, also where those leave the ring unsound.
*/
module ClusterPool {
  import opened Base
  import opened Bitmap
  import opened NodePool
  import CS = ClusterSpec
  import CT = ClusterTheorems

  ghost predicate NotIn(c: Node, ring: seq<Node>) { forall i | 0 <= i < |ring| :: ring[i] != c }

  /** Distinct nodes, each pointing to its successor and predecessor around the circle. */
  ghost predicate IsRing(ring: seq<Node>)
    reads ring
  {
    var n := |ring|;
    && 0 < n
    && (forall i, j | 0 <= i < j < n :: ring[i] != ring[j])
    && (forall i {:trigger ring[i].next} | 0 <= i < n :: ring[i].next == ring[Next(i, n)])
    && (forall i {:trigger ring[i].prev} | 0 <= i < n :: ring[i].prev == ring[Prev(i, n)])
  }

  /** All links of `ring` stand, but for the one from place `k` to the next, which goes through `top`. */
  ghost predicate OpenFor(ring: seq<Node>, k: nat, top: Node)
    requires k < |ring|
    reads ring, top
  {
    var n := |ring|;
    && NotIn(top, ring)
    && (forall i, j | 0 <= i < j < n :: ring[i] != ring[j])
    && (forall i {:trigger ring[i].next} | 0 <= i < n && i != k :: ring[i].next == ring[Next(i, n)])
    && (forall i {:trigger ring[i].prev} | 0 <= i < n && i != Next(k, n) :: ring[i].prev == ring[Prev(i, n)])
    && ring[k].next == top && top.next == ring[Next(k, n)]
    && top.prev == ring[k] && ring[Next(k, n)].prev == top
  }

  function Inserted(ring: seq<Node>, k: nat, top: Node): (r: seq<Node>)
    requires k < |ring|
    ensures |r| == |ring| + 1
    ensures forall i {:trigger r[i]} | 0 <= i < |r| :: r[i] == if i <= k then ring[i] else if i == k + 1 then top else ring[i - 1]
  {
    ring[..k + 1] + [top] + ring[k + 1..]
  }

  lemma InsertDistinct(ring: seq<Node>, k: nat, top: Node)
    requires k < |ring| && NotIn(top, ring) && forall i, j | 0 <= i < j < |ring| :: ring[i] != ring[j]
    ensures var r := Inserted(ring, k, top); forall i, j | 0 <= i < j < |r| :: r[i] != r[j]
  {
    var after, n := Inserted(ring, k, top), |ring|;
    forall i, j | 0 <= i < j < n + 1 ensures after[i] != after[j] {
      if i <= k { assert after[i] == ring[i]; } else if k + 1 < i { assert after[i] == ring[i - 1]; }
      if j <= k { assert after[j] == ring[j]; } else if k + 1 < j { assert after[j] == ring[j - 1]; }
    }
  }

  lemma InsertKeepsRing(ring: seq<Node>, k: nat, top: Node)
    requires k < |ring| && OpenFor(ring, k, top)
    ensures IsRing(Inserted(ring, k, top))
  {
    var after, n := Inserted(ring, k, top), |ring|;
    InsertDistinct(ring, k, top);
    forall i {:trigger after[i].next} | 0 <= i < n + 1 ensures after[i].next == after[Next(i, n + 1)] {
      if i <= k { assert after[i] == ring[i]; } else if k + 1 < i { assert after[i] == ring[i - 1]; }
    }
    forall i {:trigger after[i].prev} | 0 <= i < n + 1 ensures after[i].prev == after[Prev(i, n + 1)] {
      if i <= k { assert after[i] == ring[i]; } else if k + 1 < i { assert after[i] == ring[i - 1]; }
    }
  }

  ghost function Cluster(c: Node): CS.Cluster
    reads c
  {
    CS.Cluster(c.id, c.start, c.size, c.used)
  }

  /** The nodes of `ring` hold the clusters `cs`, one each. */
  ghost predicate Holds(ring: seq<Node>, cs: seq<CS.Cluster>)
    reads ring
  {
    |ring| == |cs| && forall i | 0 <= i < |ring| :: Cluster(ring[i]) == cs[i]
  }

  /** The clusters of a ring with two nodes in the place of the one at `k`. */
  lemma SplitHolds(ring: seq<Node>, cs: seq<CS.Cluster>, k: nat, top: Node, req: nat)
    requires |cs| == |ring| && k < |ring| && req < cs[k].size
    requires forall i | 0 <= i < |ring| && i != k :: Cluster(ring[i]) == cs[i]
    requires Cluster(ring[k]) == cs[k].(size := cs[k].size - req)
    requires Cluster(top) == CS.Cluster(top.id, cs[k].Limit() - req, req, true)
    ensures Holds(Inserted(ring, k, top), CS.Split(cs, k, req, top.id))
  {
    var after, split := Inserted(ring, k, top), CS.Split(cs, k, req, top.id);
    forall i | 0 <= i < |after| ensures Cluster(after[i]) == split[i] {
      if i <= k { assert after[i] == ring[i]; }
      else if k + 1 < i { assert after[i] == ring[i - 1] && split[i] == cs[i - 1]; }
    }
  }

  /** Put `top`, whose own links are set, between the node at place `k` and the next one. */
  method LinkAfter(c: Node, top: Node, ghost ring: seq<Node>, ghost k: nat)
    requires IsRing(ring) && k < |ring| && ring[k] == c && NotIn(top, ring)
    requires top.next == c.next && top.prev == c
    modifies c`next, c.next`prev
    ensures IsRing(Inserted(ring, k, top))
  {
    c.next.prev := top;
    c.next := top;
    InsertKeepsRing(ring, k, top);
  }

  /** Cut the top `newSize` bytes off the cluster at place `k` into the unused node `top`. */
  method Carve(c: Node, top: Node, newSize: nat, ghost ring: seq<Node>, ghost k: nat, ghost cs: seq<CS.Cluster>)
    returns (address: nat)
    requires IsRing(ring) && k < |ring| && ring[k] == c && NotIn(top, ring) && newSize < c.size && Holds(ring, cs)
    modifies c, c.next, top
    ensures IsRing(Inserted(ring, k, top))
    ensures Holds(Inserted(ring, k, top), CS.Split(cs, k, newSize, top.id))
    ensures address == cs[k].Limit() - newSize
  {
    address := c.start + (c.size - newSize);
    c.size := c.size - newSize;
    top.Assign(address, newSize, c.next, c, true);
    SplitHolds(ring, cs, k, top, newSize);
    LinkAfter(c, top, ring, k);
  }

  /** `ring` without the successor of the node at place `k`. */
  function WithoutNext(ring: seq<Node>, k: nat): (r: seq<Node>)
    requires k < |ring| && 1 < |ring|
    ensures |r| == |ring| - 1
    ensures forall i {:trigger r[i]} | 0 <= i < |r| :: r[i] == if k + 1 < |ring| && i <= k then ring[i] else ring[i + 1]
  {
    if k + 1 < |ring| then ring[..k + 1] + ring[k + 2..] else ring[1..]
  }

  lemma RemoveKeepsRing(ring: seq<Node>, k: nat)
    requires k < |ring| && 1 < |ring| && forall i, j | 0 <= i < j < |ring| :: ring[i] != ring[j]
    requires var n := |ring|; var gone := Next(k, n);
             && (forall i {:trigger ring[i].next} | 0 <= i < n && i != k :: ring[i].next == ring[Next(i, n)])
             && ring[k].next == ring[Next(gone, n)]
             && (forall i {:trigger ring[i].prev} | 0 <= i < n && i != Next(gone, n) :: ring[i].prev == ring[Prev(i, n)])
             && ring[Next(gone, n)].prev == ring[k]
    ensures IsRing(WithoutNext(ring, k))
  {
    var after, n := WithoutNext(ring, k), |ring|;
    forall i {:trigger after[i].next} | 0 <= i < n - 1 ensures after[i].next == after[Next(i, n - 1)] {
      if k + 1 < n && i <= k { assert after[i] == ring[i]; } else { assert after[i] == ring[i + 1]; }
    }
    forall i {:trigger after[i].prev} | 0 <= i < n - 1 ensures after[i].prev == after[Prev(i, n - 1)] {
      if k + 1 < n && i <= k { assert after[i] == ring[i]; } else { assert after[i] == ring[i + 1]; }
    }
  }

  lemma AbsorbHolds(ring: seq<Node>, cs: seq<CS.Cluster>, k: nat)
    requires |cs| == |ring| && k < |ring| && 1 < |ring|
    requires forall i | 0 <= i < |ring| && i != k :: Cluster(ring[i]) == cs[i]
    requires Cluster(ring[k]) == cs[k].(size := cs[k].size + cs[Next(k, |ring|)].size)
    ensures Holds(WithoutNext(ring, k), CS.Absorb(cs, k))
  {
    var after, absorbed := WithoutNext(ring, k), CS.Absorb(cs, k);
    forall i | 0 <= i < |after| ensures Cluster(after[i]) == absorbed[i] {
      var j := if k + 1 < |ring| && i <= k then i else i + 1;
      assert after[i] == ring[j] && (j != k ==> absorbed[i] == cs[j]);
    }
  }

  /** The node at place `k` takes over its successor's bytes; the successor leaves the ring. */
  method Absorb(c: Node, ghost ring: seq<Node>, ghost k: nat, ghost cs: seq<CS.Cluster>)
    requires IsRing(ring) && k < |ring| && ring[k] == c && 1 < |ring| && Holds(ring, cs)
    modifies c, c.next.next
    ensures IsRing(WithoutNext(ring, k)) && Holds(WithoutNext(ring, k), CS.Absorb(cs, k))
  {
    c.size := c.size + c.next.size;
    c.next := c.next.next;
    c.next.prev := c;
    RemoveKeepsRing(ring, k);
    AbsorbHolds(ring, cs, k);
  }

  lemma TakeIsUse(h: CS.Heap, k: nat, req: nat, moved: CS.Heap)
    requires k < |h.ring| && req <= h.ring[k].size && (h.ring[k].size == req || FirstClear(h.nodes) < |h.nodes|)
    requires moved == h.(cursor := h.ring[k].id, bytesUsed := (h.bytesUsed + req) % WORD)
    ensures CS.Take(h, k, req) == CS.Use(moved, k, req)
  {
  }

  class ClusterPool {
    const start: nat
    const size: nat
    const nodes: Pool
    var cursor: Node
    var bytesUsed: nat
    /** The nodes of the ring, from the lowest address upwards, and the clusters they hold. */
    ghost var ring: seq<Node>
    ghost var clusters: seq<CS.Cluster>

    ghost predicate Owns(c: Node) {
      c.id < |nodes.datamap| && nodes.datamap[c.id] == c
    }

    /** The pointers form a ring, whatever the clusters say. */
    ghost predicate Linked()
      reads this, nodes, nodes.bitmap, ring
    {
      Owns(cursor) && Chained()
    }

    ghost predicate Chained()
      reads this`ring, this`clusters, nodes, nodes.bitmap, ring
    {
      && nodes.Valid()
      && (forall i | 0 <= i < |ring| :: Owns(ring[i]))
      && IsRing(ring)
      && Holds(ring, clusters)
    }

    ghost function View(): CS.Heap
      reads this, nodes
    {
      CS.Heap(start, size, clusters, cursor.id, bytesUsed, nodes.taken)
    }

    ghost predicate Valid()
      reads this, nodes, nodes.bitmap, ring
    {
      Linked() && cursor in ring && CS.Inv(View())
    }

    lemma CursorAt(c: nat)
      requires Linked() && c < |ring| && ring[c] == cursor
      ensures CS.CursorInRing(View())
      ensures CS.IndexOf(View().ring, View().cursor) == c
    {
      CT.IdsHas(clusters, cursor.id);
      var k := CS.IndexOf(clusters, cursor.id);
      assert ring[k].id == cursor.id;
    }

    /** A node that is not marked is not in the ring. */
    lemma ClearNodeUnused(id: nat)
      requires Linked() && CS.NodesMatch(clusters, nodes.taken) && id < nodes.maxEntries && !nodes.taken[id]
      ensures NotIn(nodes.datamap[id], ring)
    {
      CT.IdsHas(clusters, id);
    }

    /** `_create_cluster_pool`: one FREE cluster over the whole region, alone in its ring. */
    constructor (start: nat, size: nat, nodes: Pool)
      requires 0 < start && 0 < size && start + size < WORD
      requires nodes.Valid() && 0 < nodes.maxEntries && nodes.taken == seq(nodes.maxEntries, _ => false)
      modifies nodes, nodes.bitmap, nodes.space
      ensures Valid() && this.nodes == nodes && View() == CT.Fresh(start, size, nodes.maxEntries)
    {
      FirstClearIs(nodes.taken, 0);
      var id := nodes.Allocate();
      var first := nodes.datamap[id];
      first.Assign(start, size, first, first, false);
      this.start, this.size, this.nodes, cursor, bytesUsed := start, size, nodes, first, 0;
      ring, clusters := [first], [CS.Cluster(0, start, size, false)];
      new;
      assert nodes.taken == [true] + seq(nodes.maxEntries - 1, _ => false);
      assert View() == CT.Fresh(start, size, nodes.maxEntries);
      CT.FreshSound(start, size, nodes.maxEntries);
    }

    ghost method SetRing(r: seq<Node>, cs: seq<CS.Cluster>)
      requires Owns(cursor) && nodes.Valid() && IsRing(r) && Holds(r, cs) && forall i | 0 <= i < |r| :: Owns(r[i])
      modifies this`ring, this`clusters
      ensures Linked() && ring == r && clusters == cs
    {
      ring, clusters := r, cs;
    }

    /** `Cluster::splituse` on the node at place `k`: the top `newSize` bytes become a new node. */
    method Splituse(c: Node, newSize: nat, ghost k: nat) returns (address: nat)
      requires Linked() && k < |ring| && ring[k] == c && newSize < c.size
      requires FirstClear(nodes.taken) < nodes.maxEntries && NotIn(nodes.datamap[FirstClear(nodes.taken)], ring)
      modifies this`ring, this`clusters, nodes, nodes.bitmap, nodes.space
      ensures Linked() && ring == Inserted(old(ring), k, nodes.datamap[FirstClear(old(nodes.taken))])
      ensures clusters == CS.Split(old(clusters), k, newSize, FirstClear(old(nodes.taken)))
      ensures nodes.taken == old(nodes.taken)[FirstClear(old(nodes.taken)) := true]
      ensures address == old(clusters)[k].Limit() - newSize
    {
      var id := nodes.Allocate();
      var top := nodes.datamap[id];
      address := Carve(c, top, newSize, ring, k, clusters);
      SetRing(Inserted(ring, k, top), CS.Split(clusters, k, newSize, id));
    }

    /** `Cluster::coalesce_next` on the node at place `k`. */
    method CoalesceNext(c: Node, ghost k: nat)
      requires Linked() && k < |ring| && ring[k] == c
      modifies this`ring, this`clusters, nodes, nodes.bitmap, nodes.space
      ensures Linked() && View() == CS.CoalesceNext(old(View()), k)
      ensures ring == if |old(ring)| == 1 then old(ring) else WithoutNext(old(ring), k)
    {
      if c.next == c { return; }
      var hold := c.next;
      Absorb(c, ring, k, clusters);
      nodes.Free(hold.id);
      SetRing(WithoutNext(ring, k), CS.Absorb(clusters, k));
    }

    /** The next-fit search of `allocate`: the first fitting node from the cursor on, if any. */
    method FindFit(req: nat) returns (found: Node?, ghost k: nat)
      requires Linked() && cursor in ring && CS.CursorInRing(View())
      ensures found == null ==> CS.Pick(View(), req) == None
      ensures found != null ==> CS.Pick(View(), req) == Some(k) && k < |ring| && ring[k] == found
    {
      ghost var c :| 0 <= c < |ring| && ring[c] == cursor;
      CursorAt(c);
      var test := cursor;
      k := c;
      ghost var left := |ring|;
      while test.used || test.size < req
        invariant 0 <= k < |ring| && ring[k] == test && 0 < left == |ring| - CT.Dist(c, k, |ring|)
        invariant CS.Search(clusters, k, left, req) == CS.Pick(View(), req)
        decreases left
      {
        test := test.next;
        k, left := Next(k, |ring|), left - 1;
        if test == cursor { return null, k; }
      }
      found := test;
    }

    method MoveTo(c: Node, bytes: nat, ghost k: nat)
      requires Linked() && k < |ring| && ring[k] == c
      modifies this`cursor, this`bytesUsed
      ensures Linked() && cursor == c && View() == old(View()).(cursor := old(clusters)[k].id, bytesUsed := bytes)
    {
      cursor, bytesUsed := c, bytes;
    }

    method MarkAs(c: Node, used: bool, ghost k: nat)
      requires Linked() && k < |ring| && ring[k] == c
      modifies this`clusters, c`used
      ensures Linked() && clusters == old(clusters)[k := old(clusters)[k].(used := used)]
    {
      c.used := used;
      clusters := clusters[k := clusters[k].(used := used)];
    }

    /** Mark the whole node, or split `req` bytes off it. */
    method Use(test: Node, req: nat, ghost k: nat) returns (r: nat)
      requires Linked() && k < |ring| && ring[k] == test && req <= test.size
      requires test.size != req ==>
                 var id := FirstClear(nodes.taken); id < nodes.maxEntries && NotIn(nodes.datamap[id], ring)
      modifies this`ring, this`clusters, nodes, nodes.bitmap, nodes.space
      ensures Linked() && k < |ring| && ring[k] == test
      ensures (View(), r) == CS.Use(old(View()), k, req)
    {
      if test.size == req {
        MarkAs(test, true, k);
        r := test.start;
      } else {
        r := Splituse(test, req, k);
      }
    }

    /** The end of `allocate`: hand out `req` bytes of the fitting node at place `k`. */
    method Take(test: Node, req: nat, ghost k: nat) returns (r: nat)
      requires Linked() && k < |ring| && ring[k] == test && req <= test.size
      requires test.size != req ==>
                 var id := FirstClear(nodes.taken); id < nodes.maxEntries && NotIn(nodes.datamap[id], ring)
      modifies this, nodes, nodes.bitmap, nodes.space
      ensures Linked() && cursor in ring
      ensures (View(), r) == CS.Take(old(View()), k, req)
    {
      ghost var h := View();
      MoveTo(test, (bytesUsed + req) % WORD, k);
      TakeIsUse(h, k, req, View());
      r := Use(test, req, k);
    }

    /** The search of `allocate` and what follows it. */
    method FindAndTake(req: nat) returns (r: nat)
      requires Linked() && cursor in ring && CS.CursorInRing(View()) && CS.NodesMatch(clusters, nodes.taken)
      requires var fit := CS.Pick(View(), req);
               fit.None? || clusters[fit.value].size == req || FirstClear(nodes.taken) < nodes.maxEntries
      modifies this, nodes, nodes.bitmap, nodes.space
      ensures Linked() && cursor in ring
      ensures (View(), r) == CS.PickAndTake(old(View()), req)
    {
      ghost var k;
      var test;
      test, k := FindFit(req);
      if test == null { return 0; }
      if test.size != req { ClearNodeUnused(FirstClear(nodes.taken)); }
      r := Take(test, req, k);
    }

    /** `ClusterPool::allocate`: sound afterwards, unless a request for no bytes found a FREE cluster. */
    method Allocate(req: nat) returns (r: nat)
      requires Valid() && req < WORD && CS.NodeAvailable(View(), req)
      modifies this, nodes, nodes.bitmap, nodes.space
      ensures Linked() && cursor in ring && (View(), r) == CS.Allocate(old(View()), req)
      ensures Valid() <==> 0 < req || forall k | 0 <= k < |old(clusters)| :: old(clusters)[k].used
    {
      ghost var h := View();
      CT.AllocateKeepsInvIff(h, req);
      if size < (bytesUsed + req) % WORD { return 0; }
      r := FindAndTake(req);
      ghost var g := CS.Allocate(h, req);
      assert View() == g.0 && r == g.1;
    }

    /** Join a FREE successor, unless the cluster ends where the region ends. */
    method MergeForward(c: Node, ghost k: nat)
      requires Linked() && k < |ring| && ring[k] == c
      modifies this`ring, this`clusters, nodes, nodes.bitmap, nodes.space
      ensures Linked()
      ensures var h := old(View()); View() == if CS.MergesForward(h, k) then CS.CoalesceNext(h, k) else h
      ensures var k1 := if k < |ring| then k else k - 1; 0 <= k1 < |ring| && ring[k1] == c
    {
      if !c.next.used && c.start + c.size != start + size {
        CoalesceNext(c, k);
      }
    }

    /** Join a FREE predecessor, unless it is the successor too. */
    method MergeBackward(c: Node, ghost k: nat)
      requires Linked() && k < |ring| && ring[k] == c
      modifies this`ring, this`clusters, nodes, nodes.bitmap, nodes.space
      ensures Linked()
      ensures var h := old(View());
              View() == if CS.MergesBackward(h, k) then CS.CoalesceNext(h, Prev(k, |h.ring|)) else h
    {
      assert CS.MergesBackward(View(), k) <==> !c.prev.used && c.next != c.prev;
      if !c.prev.used && c.next != c.prev {
        CoalesceNext(c.prev, Prev(k, |ring|));
      }
    }

    /** `Cluster::free` on the node at place `k`. */
    method FreeCluster(c: Node, ghost k: nat)
      requires Linked() && k < |ring| && ring[k] == c
      modifies this`ring, this`clusters, nodes, nodes.bitmap, nodes.space
      ensures Linked() && View() == CS.FreeCluster(old(View()), k)
    {
      if !c.used { return; }
      MarkAs(c, false, k);
      MergeForward(c, k);
      MergeBackward(c, if k < |ring| then k else k - 1);
    }

    /** The backward search of `free`. */
    method FindAddress(address: nat) returns (found: Node?, ghost k: nat)
      requires Linked() && cursor in ring && CS.CursorInRing(View())
      ensures found == null ==> CS.Find(View(), address) == None
      ensures found != null ==> CS.Find(View(), address) == Some(k) && k < |ring| && ring[k] == found
    {
      ghost var at :| 0 <= at < |ring| && ring[at] == cursor;
      CursorAt(at);
      var candidate := cursor;
      k := at;
      ghost var left := |ring|;
      while candidate.start != address
        invariant 0 <= k < |ring| && ring[k] == candidate && 0 < left == |ring| - CT.Dist(k, at, |ring|)
        invariant CS.SearchBack(clusters, k, left, address) == CS.Find(View(), address)
        decreases left
      {
        candidate := candidate.prev;
        k, left := Prev(k, |ring|), left - 1;
        if candidate == cursor { return null, k; }
      }
      found := candidate;
    }

    /** The cursor moves below the freed node before the merges, even if they take that node away. */
    method Release(candidate: Node, ghost k: nat)
      requires Linked() && k < |ring| && ring[k] == candidate
      modifies this, nodes, nodes.bitmap, nodes.space
      ensures Linked() && View() == CS.FreeAt(old(View()), k)
    {
      MoveTo(candidate.prev, (bytesUsed - candidate.size) % WORD, Prev(k, |ring|));
      FreeCluster(candidate, k);
    }

    /** `ClusterPool::free`: sound afterwards if and only if the caller respects the guard. */
    method Free(address: nat)
      requires Valid()
      modifies this, nodes, nodes.bitmap, nodes.space
      ensures Linked() && View() == CS.Free(old(View()), address)
      ensures Valid() <==> CT.FreeSafe(old(View()), address)
    {
      ghost var h := View();
      FindAndRelease(address);
      CT.FreeKeepsInvIff(h, address);
      if CS.Inv(View()) { CursorIn(); }
    }

    method FindAndRelease(address: nat)
      requires Linked() && cursor in ring && CS.CursorInRing(View())
      modifies this, nodes, nodes.bitmap, nodes.space
      ensures Linked() && View() == match CS.Find(old(View()), address) case None => old(View()) case Some(k) => CS.FreeAt(old(View()), k)
    {
      ghost var k;
      var candidate;
      candidate, k := FindAddress(address);
      if candidate != null { Release(candidate, k); }
    }

    /** A cursor whose number is in the ring is one of its nodes. */
    lemma CursorIn()
      requires Linked() && CS.CursorInRing(View())
      ensures cursor in ring
    {
      CT.IdsHas(clusters, cursor.id);
      var k :| 0 <= k < |clusters| && clusters[k].id == cursor.id;
      assert ring[k].id == cursor.id;
      assert ring[k] == cursor;
    }
  }
}
