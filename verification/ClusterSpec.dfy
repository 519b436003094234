/**
The kernel heap (kernel/structs/clusterpool.cpp) on values: a ring of clusters listed from the
lowest address upwards, the next-fit cursor, the byte counter and the bitmap of metadata nodes.
`Allocate` and `Free` follow the code branch by branch, including the merges it should not do;
`ClusterTheorems` says which requests keep the heap sound, and proves it over every run of such requests.
*/
module ClusterSpec {
  import opened Base
  import opened Bitmap

  datatype Cluster = Cluster(id: nat, start: nat, size: nat, used: bool) {
    function Limit(): nat { start + size }
    predicate Fits(req: nat) { !used && req <= size }
    function Where(): Extent { Extent(start, size) }
  }

  datatype Extent = Extent(start: nat, size: nat)

  /** `ring` starts at the lowest cluster; `cursor` names a node; `nodes` is the node bitmap. */
  datatype Heap = Heap(start: nat, size: nat, ring: seq<Cluster>, cursor: nat, bytesUsed: nat, nodes: seq<bool>) {
    function Limit(): nat { start + size }
  }

  // ---------------------------------------------------------------- the invariant

  ghost predicate Tiles(ring: seq<Cluster>, lo: nat, hi: nat) {
    && ring != []
    && ring[0].start == lo
    && ring[|ring| - 1].Limit() == hi
    && (forall i | 0 <= i < |ring| :: 0 < ring[i].size)
    && (forall i, j | 0 <= i < j < |ring| && j == i + 1 :: ring[j].start == ring[i].Limit())
  }

  function UsedBytes(ring: seq<Cluster>): nat {
    if ring == [] then 0 else (if ring[0].used then ring[0].size else 0) + UsedBytes(ring[1..])
  }

  ghost function Ids(ring: seq<Cluster>): set<nat> {
    if ring == [] then {} else {ring[0].id} + Ids(ring[1..])
  }

  ghost predicate DistinctIds(ring: seq<Cluster>) {
    ring != [] ==> ring[0].id !in Ids(ring[1..]) && DistinctIds(ring[1..])
  }

  /** The marked metadata nodes are exactly the clusters of the ring, each once. */
  ghost predicate NodesMatch(ring: seq<Cluster>, nodes: seq<bool>) {
    && DistinctIds(ring)
    && (forall k | 0 <= k < |ring| :: ring[k].id < |nodes|)
    && (forall id | 0 <= id < |nodes| :: nodes[id] <==> id in Ids(ring))
  }

  ghost predicate Inv(h: Heap) {
    && 0 < h.start && h.Limit() < WORD
    && Tiles(h.ring, h.start, h.Limit())
    && h.cursor in Ids(h.ring)
    && h.bytesUsed == UsedBytes(h.ring)
    && NodesMatch(h.ring, h.nodes)
  }

  /** The extents handed out and not yet returned. */
  ghost function Live(h: Heap): set<Extent> { LiveIn(h.ring) }

  ghost function LiveIn(ring: seq<Cluster>): set<Extent> {
    if ring == [] then {} else (if ring[0].used then {ring[0].Where()} else {}) + LiveIn(ring[1..])
  }

  ghost predicate Disjoint(a: Extent, b: Extent) {
    a.start + a.size <= b.start || b.start + b.size <= a.start
  }

  // ---------------------------------------------------------------- allocate

  function IndexOf(ring: seq<Cluster>, id: nat): (k: nat)
    requires id in Ids(ring)
    ensures k < |ring| && ring[k].id == id
  {
    if ring[0].id == id then 0 else
      1 + IndexOf(ring[1..], id)
  }

  /** Next fit: the first fitting cluster met in at most `left` steps forward from index `i`. */
  function Search(ring: seq<Cluster>, i: nat, left: nat, req: nat): (r: Option<nat>)
    requires i < |ring|
    ensures r.Some? ==> r.value < |ring| && ring[r.value].Fits(req)
    decreases left
  {
    if left == 0 then None
    else if ring[i].Fits(req) then Some(i)
    else Search(ring, Next(i, |ring|), left - 1, req)
  }

  /** What the two searches rely on. */
  ghost predicate CursorInRing(h: Heap) { h.ring != [] && h.cursor in Ids(h.ring) }

  function Pick(h: Heap, req: nat): (r: Option<nat>)
    requires CursorInRing(h)
    ensures r.Some? ==> r.value < |h.ring| && h.ring[r.value].Fits(req)
  {
    Search(h.ring, IndexOf(h.ring, h.cursor), |h.ring|, req)
  }

  /** The early test of clusterpool.cpp:27, in 32-bit arithmetic. */
  predicate TooFull(h: Heap, req: nat) { h.size < (h.bytesUsed + req) % WORD }

  /** A split takes a metadata node; the code does not check that there is one. */
  ghost predicate NodeAvailable(h: Heap, req: nat)
    requires Inv(h)
  {
    TooFull(h, req) || Pick(h, req).None? || h.ring[Pick(h, req).value].size == req
      || FirstClear(h.nodes) < |h.nodes|
  }

  /** `ring` with the clusters from `k` up to `rest` replaced by `mid`. */
  function Splice(ring: seq<Cluster>, k: nat, mid: seq<Cluster>, rest: nat): seq<Cluster>
    requires k <= rest <= |ring|
  {
    ring[..k] + mid + ring[rest..]
  }

  /** Keep the low part FREE, hand out the top `req` bytes as a new USED cluster. */
  function Split(ring: seq<Cluster>, k: nat, req: nat, id: nat): (r: seq<Cluster>)
    requires k < |ring| && req < ring[k].size
  {
    var c := ring[k];
    Splice(ring, k, [c.(size := c.size - req), Cluster(id, c.Limit() - req, req, true)], k + 1)
  }

  /** Hand out `req` bytes of the fitting cluster at index `k`. */
  function Take(h: Heap, k: nat, req: nat): (r: (Heap, nat))
    requires k < |h.ring| && req <= h.ring[k].size
    requires h.ring[k].size == req || FirstClear(h.nodes) < |h.nodes|
  {
    Use(h.(cursor := h.ring[k].id, bytesUsed := (h.bytesUsed + req) % WORD), k, req)
  }

  /** Mark the whole cluster, or split `req` bytes off it. */
  function Use(h: Heap, k: nat, req: nat): (r: (Heap, nat))
    requires k < |h.ring| && req <= h.ring[k].size
    requires h.ring[k].size == req || FirstClear(h.nodes) < |h.nodes|
  {
    var c, id := h.ring[k], FirstClear(h.nodes);
    if c.size == req then (h.(ring := h.ring[k := c.(used := true)]), c.start)
    else (h.(ring := Split(h.ring, k, req, id), nodes := h.nodes[id := true]), c.Limit() - req)
  }

  /** The search and what follows it. */
  function PickAndTake(h: Heap, req: nat): (r: (Heap, nat))
    requires CursorInRing(h)
    requires Pick(h, req).None? || h.ring[Pick(h, req).value].size == req || FirstClear(h.nodes) < |h.nodes|
  {
    match Pick(h, req)
    case None => (h, 0)
    case Some(k) => Take(h, k, req)
  }

  function Allocate(h: Heap, req: nat): (r: (Heap, nat))
    requires Inv(h) && req < WORD && NodeAvailable(h, req)
  {
    if TooFull(h, req) then (h, 0) else PickAndTake(h, req)
  }

  // ---------------------------------------------------------------- free

  /** The cluster `Free` meets first, walking backwards from index `i`. */
  function SearchBack(ring: seq<Cluster>, i: nat, left: nat, address: nat): (r: Option<nat>)
    requires i < |ring|
    ensures r.Some? ==> r.value < |ring| && ring[r.value].start == address
    decreases left
  {
    if left == 0 then None
    else if ring[i].start == address then Some(i)
    else SearchBack(ring, Prev(i, |ring|), left - 1, address)
  }

  function Find(h: Heap, address: nat): (r: Option<nat>)
    requires CursorInRing(h)
    ensures r.Some? ==> r.value < |h.ring| && h.ring[r.value].start == address
  {
    SearchBack(h.ring, IndexOf(h.ring, h.cursor), |h.ring|, address)
  }

  /** The cluster at index `k` takes over its successor's bytes, across the ring's ends if need be. */
  function Absorb(ring: seq<Cluster>, k: nat): (r: seq<Cluster>)
    requires k < |ring| && 1 < |ring|
  {
    var grown := ring[k].(size := ring[k].size + ring[Next(k, |ring|)].size);
    if k + 1 < |ring| then Splice(ring, k, [grown], k + 2) else ring[1..k] + [grown]
  }

  /** `Cluster::coalesce_next` on the cluster at index `k`. */
  function CoalesceNext(h: Heap, k: nat): (r: Heap)
    requires k < |h.ring|
    requires h.ring[Next(k, |h.ring|)].id < |h.nodes|
  {
    if |h.ring| == 1 then h
    else h.(ring := Absorb(h.ring, k), nodes := h.nodes[h.ring[Next(k, |h.ring|)].id := false])
  }

  function MergesForward(h: Heap, k: nat): bool
    requires k < |h.ring|
  {
    !h.ring[Next(k, |h.ring|)].used && h.ring[k].Limit() != h.Limit()
  }

  /** In a ring of one or two nodes `next` and `prev` coincide, which turns the merge off. */
  function MergesBackward(h: Heap, k: nat): bool
    requires k < |h.ring|
  {
    !h.ring[Prev(k, |h.ring|)].used && 2 < |h.ring|
  }

  /** `Cluster::free` for the USED cluster at index `k`, already marked FREE in `h`. */
  function Coalesce(h: Heap, k: nat): (r: Heap)
    requires k < |h.ring|
    requires forall i | 0 <= i < |h.ring| :: h.ring[i].id < |h.nodes|
  {
    var h1 := if MergesForward(h, k) then CoalesceNext(h, k) else h;
    // a forward merge at the last index would drop index 0 and shift the cluster down by one
    var k1 := if k < |h1.ring| then k else k - 1;
    if MergesBackward(h1, k1) then CoalesceNext(h1, Prev(k1, |h1.ring|)) else h1
  }

  /** `Cluster::free`, which does nothing to a FREE cluster. */
  function FreeCluster(h: Heap, k: nat): (r: Heap)
    requires k < |h.ring| && forall i | 0 <= i < |h.ring| :: h.ring[i].id < |h.nodes|
  {
    if !h.ring[k].used then h else Coalesce(h.(ring := h.ring[k := h.ring[k].(used := false)]), k)
  }

  /** The cursor moves down and the bytes are given back before the cluster is looked at. */
  function FreeAt(h: Heap, k: nat): (r: Heap)
    requires k < |h.ring| && forall i | 0 <= i < |h.ring| :: h.ring[i].id < |h.nodes|
  {
    FreeCluster(h.(cursor := h.ring[Prev(k, |h.ring|)].id, bytesUsed := (h.bytesUsed - h.ring[k].size) % WORD), k)
  }

  function Free(h: Heap, address: nat): (r: Heap)
    requires Inv(h)
  {
    match Find(h, address)
    case None => h
    case Some(k) => FreeAt(h, k)
  }
}
