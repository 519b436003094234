/** What every request keeps in the kernel heap, and what it does to the live allocations. */
module ClusterTheorems {
  import opened Base
  import opened Bitmap
  import opened ClusterSpec

  // ---------------------------------------------------------------- tilings

  lemma {:induction false} TilesOrdered(ring: seq<Cluster>, lo: nat, hi: nat, i: nat, j: nat)
    requires Tiles(ring, lo, hi) && i < j < |ring|
    ensures ring[i].Limit() <= ring[j].start
    decreases j
  {
    if i + 1 < j { TilesOrdered(ring, lo, hi, i, j - 1); assert ring[j].start == ring[j - 1].Limit(); }
  }

  lemma TilesBounds(ring: seq<Cluster>, lo: nat, hi: nat, i: nat)
    requires Tiles(ring, lo, hi) && i < |ring|
    ensures lo <= ring[i].start && ring[i].Limit() <= hi
    ensures i < |ring| - 1 ==> ring[i].Limit() < hi
  {
    if 0 < i { TilesOrdered(ring, lo, hi, 0, i); }
    if i < |ring| - 1 { TilesOrdered(ring, lo, hi, i, |ring| - 1); }
  }

  lemma TilesUnique(ring: seq<Cluster>, lo: nat, hi: nat, i: nat, j: nat)
    requires Tiles(ring, lo, hi) && i < |ring| && j < |ring| && ring[i].start == ring[j].start
    ensures i == j
  {
    if i < j { TilesOrdered(ring, lo, hi, i, j); }
    if j < i { TilesOrdered(ring, lo, hi, j, i); }
  }

  lemma SplitTiles(ring: seq<Cluster>, lo: nat, hi: nat, k: nat, req: nat, id: nat)
    requires Tiles(ring, lo, hi) && k < |ring| && 0 < req < ring[k].size
    ensures Tiles(Split(ring, k, req, id), lo, hi)
  {
    var split := Split(ring, k, req, id);
    forall i, j | 0 <= i < j < |split| && j == i + 1 ensures split[j].start == split[i].Limit() {
      if j < k { assert split[i] == ring[i] && split[j] == ring[j]; }
      else if i == k || j == k { }
      else { assert i == k + 1 || split[i] == ring[i - 1]; assert split[j] == ring[j - 1]; }
    }
  }

  // ---------------------------------------------------------------- clusters in pieces

  lemma {:induction false} BytesConcat(a: seq<Cluster>, b: seq<Cluster>)
    ensures UsedBytes(a + b) == UsedBytes(a) + UsedBytes(b)
  {
    if a == [] { assert a + b == b; } else { assert (a + b)[1..] == a[1..] + b; BytesConcat(a[1..], b); }
  }

  lemma {:induction false} LiveConcat(a: seq<Cluster>, b: seq<Cluster>)
    ensures LiveIn(a + b) == LiveIn(a) + LiveIn(b)
  {
    if a == [] { assert a + b == b; } else { assert (a + b)[1..] == a[1..] + b; LiveConcat(a[1..], b); }
  }

  lemma {:induction false} IdsConcat(a: seq<Cluster>, b: seq<Cluster>)
    ensures Ids(a + b) == Ids(a) + Ids(b)
    ensures DistinctIds(a + b) <==> DistinctIds(a) && DistinctIds(b) && Ids(a) !! Ids(b)
  {
    if a == [] { assert a + b == b; } else { assert (a + b)[1..] == a[1..] + b; IdsConcat(a[1..], b); }
  }

  lemma {:induction false} LiveHas(ring: seq<Cluster>, e: Extent)
    ensures e in LiveIn(ring) <==> exists k | 0 <= k < |ring| :: ring[k].used && ring[k].Where() == e
  {
    if ring != [] {
      LiveHas(ring[1..], e);
      if k :| 0 <= k < |ring[1..]| && ring[1..][k].used && ring[1..][k].Where() == e { assert ring[k + 1] == ring[1..][k]; }
      if k :| 0 <= k < |ring| && ring[k].used && ring[k].Where() == e { assert k == 0 || ring[k] == ring[1..][k - 1]; }
    }
  }

  lemma {:induction false} IdsHas(ring: seq<Cluster>, id: nat)
    ensures id in Ids(ring) <==> exists k | 0 <= k < |ring| :: ring[k].id == id
  {
    if ring != [] {
      IdsHas(ring[1..], id);
      if k :| 0 <= k < |ring[1..]| && ring[1..][k].id == id { assert ring[k + 1] == ring[1..][k]; }
      if k :| 0 <= k < |ring| && ring[k].id == id { assert k == 0 || ring[k] == ring[1..][k - 1]; }
    }
  }

  lemma {:induction false} IdsDiffer(ring: seq<Cluster>, i: nat, j: nat)
    requires DistinctIds(ring) && i < j < |ring|
    ensures ring[i].id != ring[j].id
  {
    if i == 0 {
      IdsHas(ring[1..], ring[0].id);
      assert ring[1..][j - 1] == ring[j];
    } else {
      IdsDiffer(ring[1..], i - 1, j - 1);
    }
  }

  /** What a stretch `mid` of the ring adds to the clusters on its two sides. */
  lemma BytesAround(pre: seq<Cluster>, mid: seq<Cluster>, post: seq<Cluster>)
    ensures UsedBytes(pre + mid + post) == UsedBytes(pre + post) + UsedBytes(mid)
  {
    BytesConcat(pre + mid, post);
    BytesConcat(pre, mid);
    BytesConcat(pre, post);
  }

  lemma LiveAround(pre: seq<Cluster>, mid: seq<Cluster>, post: seq<Cluster>)
    ensures LiveIn(pre + mid + post) == LiveIn(pre + post) + LiveIn(mid)
  {
    LiveConcat(pre + mid, post);
    LiveConcat(pre, mid);
    LiveConcat(pre, post);
  }

  lemma IdsAround(pre: seq<Cluster>, mid: seq<Cluster>, post: seq<Cluster>)
    ensures Ids(pre + mid + post) == Ids(pre + post) + Ids(mid)
    ensures DistinctIds(pre + mid + post) <==>
              DistinctIds(pre + post) && DistinctIds(mid) && Ids(pre + post) !! Ids(mid)
  {
    IdsConcat(pre + mid, post);
    IdsConcat(pre, mid);
    IdsConcat(pre, post);
  }

  function Bytes(c: Cluster): nat { if c.used then c.size else 0 }

  lemma OneOrTwo(c: Cluster, d: Cluster)
    ensures UsedBytes([c]) == Bytes(c) && UsedBytes([c, d]) == Bytes(c) + Bytes(d)
    ensures LiveIn([c]) == if c.used then {c.Where()} else {}
    ensures LiveIn([c, d]) == LiveIn([c]) + LiveIn([d])
    ensures Ids([c]) == {c.id} && Ids([c, d]) == {c.id, d.id}
    ensures DistinctIds([c]) && (DistinctIds([c, d]) <==> c.id != d.id)
  {
    assert [c, d][1..] == [d] && [d][1..] == [];
    assert UsedBytes([d]) == Bytes(d) && Ids([d]) == {d.id};
  }

  lemma {:induction false} UsedBytesRoom(ring: seq<Cluster>, lo: nat, hi: nat, i: nat, j: nat)
    requires Tiles(ring, lo, hi) && i < j <= |ring|
    ensures UsedBytes(ring[i..j]) <= ring[j - 1].Limit() - ring[i].start
    decreases j - i
  {
    assert ring[i..j][1..] == ring[i + 1..j];
    if i + 1 < j {
      UsedBytesRoom(ring, lo, hi, i + 1, j);
      assert ring[i + 1].start == ring[i].Limit();
    }
  }

  /** The bytes in use and any one FREE cluster fit into the region together. */
  lemma FreeClusterRoom(h: Heap, k: nat)
    requires Inv(h) && k < |h.ring|
    ensures h.bytesUsed <= h.size
    ensures !h.ring[k].used ==> h.bytesUsed + h.ring[k].size <= h.size
    ensures h.ring[k].used ==> h.ring[k].size <= h.bytesUsed
  {
    var n, ring := |h.ring|, h.ring;
    var pre, post := ring[0..k], ring[k + 1..n];
    assert ring == pre + [ring[k]] + post;
    BytesConcat(pre + [ring[k]], post);
    BytesConcat(pre, [ring[k]]);
    OneOrTwo(ring[k], ring[k]);
    TilesBounds(ring, h.start, h.Limit(), k);
    if 0 < k { UsedBytesRoom(ring, h.start, h.Limit(), 0, k); TilesOrdered(ring, h.start, h.Limit(), k - 1, k); }
    if k + 1 < n { UsedBytesRoom(ring, h.start, h.Limit(), k + 1, n); TilesOrdered(ring, h.start, h.Limit(), k, k + 1); }
  }

  // ---------------------------------------------------------------- the two searches

  /** Steps forward from index `i` to index `k` of a ring of `n`. */
  function Dist(i: nat, k: nat, n: nat): nat requires i < n && k < n { if i <= k then k - i else k + n - i }

  lemma {:induction false} SearchMisses(ring: seq<Cluster>, i: nat, left: nat, req: nat, k: nat)
    requires i < |ring| && k < |ring| && Dist(i, k, |ring|) < left
    ensures match Search(ring, i, left, req)
            case None => !ring[k].Fits(req)
            case Some(j) => Dist(i, k, |ring|) < Dist(i, j, |ring|) ==> !ring[k].Fits(req)
    decreases left
  {
    if !ring[i].Fits(req) && i != k {
      SearchMisses(ring, Next(i, |ring|), left - 1, req, k);
    }
  }

  lemma {:induction false} SearchBackFinds(ring: seq<Cluster>, i: nat, left: nat, address: nat, k: nat)
    requires i < |ring| && k < |ring| && Dist(k, i, |ring|) < left
    requires ring[k].start == address
    ensures SearchBack(ring, i, left, address).Some?
    decreases left
  {
    if ring[i].start != address {
      SearchBackFinds(ring, Prev(i, |ring|), left - 1, address, k);
    }
  }

  lemma FindIs(h: Heap, k: nat)
    requires Inv(h) && k < |h.ring|
    ensures Find(h, h.ring[k].start) == Some(k)
  {
    SearchBackFinds(h.ring, IndexOf(h.ring, h.cursor), |h.ring|, h.ring[k].start, k);
    TilesUnique(h.ring, h.start, h.Limit(), Find(h, h.ring[k].start).value, k);
  }

  /**
  Next fit: the search passes over no fitting cluster on its way forward from the cursor, and
  fails only when no cluster of the whole ring fits.
  */
  lemma PickIsNextFit(h: Heap, req: nat)
    requires CursorInRing(h)
    ensures Pick(h, req).None? ==> forall k | 0 <= k < |h.ring| :: !h.ring[k].Fits(req)
    ensures Pick(h, req).Some? ==>
              var from := IndexOf(h.ring, h.cursor);
              forall k | 0 <= k < |h.ring| && h.ring[k].Fits(req) ::
                Dist(from, Pick(h, req).value, |h.ring|) <= Dist(from, k, |h.ring|)
  {
    forall k | 0 <= k < |h.ring| {
      SearchMisses(h.ring, IndexOf(h.ring, h.cursor), |h.ring|, req, k);
    }
  }

  // ---------------------------------------------------------------- allocate

  /**
  `allocate` returns 0 exactly when no FREE cluster is large enough. The early test adds in
  32 bits and may wrap, but then the request is larger than any FREE cluster.
  */
  lemma AllocateFailsIff(h: Heap, req: nat)
    requires Inv(h) && req < WORD && NodeAvailable(h, req)
    ensures Allocate(h, req).1 == 0 <==> forall k | 0 <= k < |h.ring| :: !h.ring[k].Fits(req)
  {
    PickIsNextFit(h, req);
    forall k | 0 <= k < |h.ring| ensures h.ring[k].Fits(req) ==> !TooFull(h, req) && 0 < h.ring[k].start {
      FreeClusterRoom(h, k);
      TilesBounds(h.ring, h.start, h.Limit(), k);
    }
  }

  /** The ring without the cluster at `k`. */
  function Without(ring: seq<Cluster>, k: nat): seq<Cluster>
    requires k < |ring|
  {
    ring[..k] + ring[k + 1..]
  }

  /** The other live extents lie clear of the cluster at `k`. */
  lemma ApartFrom(h: Heap, k: nat, e: Extent)
    requires Inv(h) && k < |h.ring| && e in LiveIn(Without(h.ring, k))
    ensures 0 < e.size && h.start <= e.start && e.start + e.size <= h.Limit()
    ensures e.start + e.size <= h.ring[k].start || h.ring[k].Limit() <= e.start
  {
    LiveHas(Without(h.ring, k), e);
    var i :| 0 <= i < |Without(h.ring, k)| && Without(h.ring, k)[i].Where() == e;
    var j := if i < k then i else i + 1;
    assert h.ring[j].Where() == e;
    TilesBounds(h.ring, h.start, h.Limit(), j);
    if j < k { TilesOrdered(h.ring, h.start, h.Limit(), j, k); } else { TilesOrdered(h.ring, h.start, h.Limit(), k, j); }
  }

  /** The live extents are those of the other clusters, and the one at `k` if it is USED. */
  lemma LiveAt(h: Heap, k: nat)
    requires Inv(h) && k < |h.ring|
    ensures Live(h) == LiveIn(Without(h.ring, k)) + (if h.ring[k].used then {h.ring[k].Where()} else {})
    ensures h.ring[k].Where() !in LiveIn(Without(h.ring, k))
  {
    assert h.ring == h.ring[..k] + [h.ring[k]] + h.ring[k + 1..];
    LiveAround(h.ring[..k], [h.ring[k]], h.ring[k + 1..]);
    OneOrTwo(h.ring[k], h.ring[k]);
    if h.ring[k].Where() in LiveIn(Without(h.ring, k)) {
      ApartFrom(h, k, h.ring[k].Where());
    }
  }

  /** Replacing one cluster by another with the same node. */
  lemma Replace(pre: seq<Cluster>, c: Cluster, d: Cluster, post: seq<Cluster>)
    requires c.id == d.id
    ensures UsedBytes(pre + [d] + post) - Bytes(d) == UsedBytes(pre + [c] + post) - Bytes(c)
    ensures LiveIn(pre + [d] + post) == LiveIn(pre + post) + LiveIn([d])
    ensures Ids(pre + [d] + post) == Ids(pre + [c] + post)
    ensures DistinctIds(pre + [d] + post) <==> DistinctIds(pre + [c] + post)
  {
    BytesAround(pre, [c], post); BytesAround(pre, [d], post);
    LiveAround(pre, [d], post);
    IdsAround(pre, [c], post); IdsAround(pre, [d], post);
    OneOrTwo(c, d); OneOrTwo(d, c);
  }

  lemma UpdateAround(s: seq<Cluster>, k: nat, d: Cluster)
    requires k < |s|
    ensures s == s[..k] + [s[k]] + s[k + 1..] && s[k := d] == s[..k] + [d] + s[k + 1..]
  {
  }

  lemma MarkParts(h: Heap, k: nat, used: bool, ring: seq<Cluster>)
    requires Inv(h) && k < |h.ring| && h.ring[k].used != used && ring == h.ring[k := h.ring[k].(used := used)]
    ensures UsedBytes(ring) == UsedBytes(h.ring) + (if used then h.ring[k].size else 0) - (if used then 0 else h.ring[k].size)
    ensures LiveIn(ring) == if used then Live(h) + {h.ring[k].Where()} else Live(h) - {h.ring[k].Where()}
    ensures Ids(ring) == Ids(h.ring) && DistinctIds(ring)
  {
    var c, d := h.ring[k], h.ring[k].(used := used);
    LiveAt(h, k);
    UpdateAround(h.ring, k, d);
    Replace(h.ring[..k], c, d, h.ring[k + 1..]);
    OneOrTwo(d, d);
  }

  /** Marking a cluster USED or FREE and moving the cursor to any node of the ring. */
  lemma MarkKeepsInv(h: Heap, k: nat, used: bool, cursor: nat, h': Heap)
    requires Inv(h) && k < |h.ring| && h.ring[k].used != used && cursor in Ids(h.ring)
    requires h'.bytesUsed == if used then h.bytesUsed + h.ring[k].size else h.bytesUsed - h.ring[k].size
    requires h' == h.(ring := h.ring[k := h.ring[k].(used := used)], cursor := cursor, bytesUsed := h'.bytesUsed)
    ensures Inv(h')
    ensures Live(h') == if used then Live(h) + {h.ring[k].Where()} else Live(h) - {h.ring[k].Where()}
  {
    MarkParts(h, k, used, h'.ring);
  }

  /** Splitting a FREE cluster in two, the upper one USED and on a node of its own. */
  lemma SplitParts(pre: seq<Cluster>, c: Cluster, low: Cluster, top: Cluster, post: seq<Cluster>)
    requires !c.used && !low.used && top.used && low.id == c.id
    requires DistinctIds(pre + [c] + post) && top.id !in Ids(pre + [c] + post)
    ensures UsedBytes(pre + [low, top] + post) == UsedBytes(pre + [c] + post) + top.size
    ensures LiveIn(pre + [low, top] + post) == LiveIn(pre + [c] + post) + {top.Where()}
    ensures Ids(pre + [low, top] + post) == Ids(pre + [c] + post) + {top.id}
    ensures DistinctIds(pre + [low, top] + post)
  {
    BytesAround(pre, [c], post); BytesAround(pre, [low, top], post);
    LiveAround(pre, [c], post); LiveAround(pre, [low, top], post);
    IdsAround(pre, [c], post); IdsAround(pre, [low, top], post);
    OneOrTwo(c, top); OneOrTwo(low, top); OneOrTwo(top, top);
  }

  lemma SplitRing(h: Heap, k: nat, req: nat, id: nat)
    requires Inv(h) && k < |h.ring| && !h.ring[k].used && 0 < req < h.ring[k].size && id !in Ids(h.ring)
    ensures var split := Split(h.ring, k, req, id);
            && LiveIn(split) == Live(h) + {Extent(h.ring[k].Limit() - req, req)}
            && UsedBytes(split) == UsedBytes(h.ring) + req
            && Ids(split) == Ids(h.ring) + {id} && DistinctIds(split)
  {
    var c := h.ring[k];
    var low, top := c.(size := c.size - req), Cluster(id, c.Limit() - req, req, true);
    UpdateAround(h.ring, k, c);
    SplitParts(h.ring[..k], c, low, top, h.ring[k + 1..]);
  }

  lemma SplitKeepsInv(h: Heap, k: nat, req: nat, id: nat, h': Heap)
    requires Inv(h) && k < |h.ring| && !h.ring[k].used && 0 < req < h.ring[k].size
    requires id < |h.nodes| && !h.nodes[id]
    requires h' == h.(ring := Split(h.ring, k, req, id), cursor := h.ring[k].id,
                      bytesUsed := h.bytesUsed + req, nodes := h.nodes[id := true])
    ensures Inv(h') && Live(h') == Live(h) + {Extent(h.ring[k].Limit() - req, req)}
  {
    SplitTiles(h.ring, h.start, h.Limit(), k, req, id);
    SplitRing(h, k, req, id);
    IdsHas(h.ring, h.ring[k].id);
    forall i | 0 <= i < |h'.ring| ensures h'.ring[i].id < |h.nodes| {
      if i < k { assert h'.ring[i] == h.ring[i]; } else if k + 1 < i { assert h'.ring[i] == h.ring[i - 1]; }
    }
  }

  /**
  Every request that finds a metadata node for its split keeps the heap sound. A successful one
  adds exactly one live extent of the requested size, inside the region and disjoint from every
  other live extent, all of which stay as they were. A failed one changes nothing.
  */
  lemma AllocateKeepsInv(h: Heap, req: nat)
    requires Inv(h) && 0 < req < WORD && NodeAvailable(h, req)
    ensures var (h', a) := Allocate(h, req);
            && Inv(h')
            && if a == 0 then h' == h else
                 && Live(h') == Live(h) + {Extent(a, req)}
                 && h.start <= a && a + req <= h.Limit()
                 && forall e | e in Live(h) :: Disjoint(e, Extent(a, req))
  {
    if !TooFull(h, req) && Pick(h, req).Some? {
      var (h', a) := Allocate(h, req);
      var k := Pick(h, req).value;
      FreeClusterRoom(h, k);
      TilesBounds(h.ring, h.start, h.Limit(), k);
      LiveAt(h, k);
      forall e | e in Live(h) ensures Disjoint(e, Extent(a, req)) { ApartFrom(h, k, e); }
      IdAt(h, k);
      if h.ring[k].size == req {
        MarkKeepsInv(h, k, true, h.ring[k].id, h');
      } else {
        SplitKeepsInv(h, k, req, FirstClear(h.nodes), h');
      }
    }
  }

  lemma IdAt(h: Heap, k: nat)
    requires k < |h.ring|
    ensures h.ring[k].id in Ids(h.ring)
  {
    IdsHas(h.ring, h.ring[k].id);
  }

  /** A request for no bytes puts an empty cluster into the ring, unless there is no FREE one to cut it from. */
  lemma AllocateKeepsInvIff(h: Heap, req: nat)
    requires Inv(h) && req < WORD && NodeAvailable(h, req)
    ensures Inv(Allocate(h, req).0) <==> 0 < req || forall k | 0 <= k < |h.ring| :: h.ring[k].used
  {
    if 0 < req {
      AllocateKeepsInv(h, req);
    } else {
      PickIsNextFit(h, 0);
      FreeClusterRoom(h, 0);
      if Pick(h, 0).Some? { EmptyClusterBreaks(h, Pick(h, 0).value); }
    }
  }

  lemma EmptyClusterBreaks(h: Heap, k: nat)
    requires Inv(h) && k < |h.ring| && !h.ring[k].used && FirstClear(h.nodes) < |h.nodes|
    ensures !Inv(Take(h, k, 0).0)
  {
    var ring := Take(h, k, 0).0.ring;
    assert ring[k + 1].size == 0;
  }

  lemma LiveDisjoint(h: Heap, a: Extent, b: Extent)
    requires Inv(h) && a in Live(h) && b in Live(h) && a != b
    ensures Disjoint(a, b) && h.start <= a.start && 0 < a.size && a.start + a.size <= h.Limit()
  {
    LiveHas(h.ring, a);
    var k :| 0 <= k < |h.ring| && h.ring[k].used && h.ring[k].Where() == a;
    TilesBounds(h.ring, h.start, h.Limit(), k);
    LiveAt(h, k);
    ApartFrom(h, k, b);
  }

  // ---------------------------------------------------------------- free

  /** Merging the lowest cluster into the highest is what `free` should never do. */
  ghost predicate WrapHazard(ring: seq<Cluster>)
    requires ring != []
  {
    !ring[|ring| - 1].used && !(|ring| == 3 && !ring[1].used)
  }

  /**
  The guard a caller has to respect: the address starts no cluster, or it starts a USED one and
  that one is not the lowest while the highest is FREE (the three-node ring whose middle is FREE
  escapes, because after its forward merge `next` and `prev` coincide).
  */
  ghost predicate FreeSafe(h: Heap, address: nat)
    requires h.ring != []
  {
    forall k | 0 <= k < |h.ring| && h.ring[k].start == address ::
      h.ring[k].used && !(k == 0 && WrapHazard(h.ring))
  }

  /** Replacing two FREE neighbours by one FREE cluster on the first one's node. */
  lemma MergeParts(pre: seq<Cluster>, c: Cluster, d: Cluster, grown: Cluster, post: seq<Cluster>)
    requires !c.used && !d.used && !grown.used && grown.id == c.id && DistinctIds(pre + [c, d] + post)
    ensures UsedBytes(pre + [grown] + post) == UsedBytes(pre + [c, d] + post)
    ensures LiveIn(pre + [grown] + post) == LiveIn(pre + [c, d] + post)
    ensures Ids(pre + [grown] + post) == Ids(pre + [c, d] + post) - {d.id}
    ensures DistinctIds(pre + [grown] + post)
  {
    BytesAround(pre, [c, d], post); BytesAround(pre, [grown], post);
    LiveAround(pre, [c, d], post); LiveAround(pre, [grown], post);
    IdsAround(pre, [c, d], post); IdsAround(pre, [grown], post);
    OneOrTwo(c, d); OneOrTwo(d, d); OneOrTwo(grown, d);
  }

  lemma MergeTiles(h: Heap, k: nat)
    requires Tiles(h.ring, h.start, h.Limit()) && k + 1 < |h.ring| && h.ring[k + 1].id < |h.nodes|
    ensures Tiles(CoalesceNext(h, k).ring, h.start, h.Limit())
  {
    var ring := CoalesceNext(h, k).ring;
    assert h.ring[k + 1].start == h.ring[k].Limit();
    forall i, j | 0 <= i < j < |ring| && j == i + 1 ensures ring[j].start == ring[i].Limit() {
      if j <= k { assert h.ring[j].start == h.ring[i].Limit(); }
      else { assert ring[j] == h.ring[j + 1] && ring[i].Limit() == h.ring[i + 1].Limit(); }
    }
  }

  lemma MergeRing(h: Heap, k: nat)
    requires DistinctIds(h.ring) && k + 1 < |h.ring| && !h.ring[k].used && !h.ring[k + 1].used
    ensures var ring := Absorb(h.ring, k);
            && UsedBytes(ring) == UsedBytes(h.ring) && LiveIn(ring) == LiveIn(h.ring)
            && Ids(ring) == Ids(h.ring) - {h.ring[k + 1].id} && DistinctIds(ring)
  {
    var c, d := h.ring[k], h.ring[k + 1];
    assert h.ring == h.ring[..k] + [c, d] + h.ring[k + 2..];
    MergeParts(h.ring[..k], c, d, c.(size := c.size + d.size), h.ring[k + 2..]);
  }

  /** Merging a FREE cluster with its FREE upper neighbour. */
  lemma MergeKeepsInv(h: Heap, k: nat)
    requires Inv(h) && k + 1 < |h.ring| && !h.ring[k].used && !h.ring[k + 1].used
    requires h.cursor != h.ring[k + 1].id
    ensures Inv(CoalesceNext(h, k)) && Live(CoalesceNext(h, k)) == Live(h)
  {
    var ring := CoalesceNext(h, k).ring;
    MergeTiles(h, k);
    MergeRing(h, k);
    forall i | 0 <= i < |ring| ensures ring[i].id < |h.nodes| {
      if i < k { assert ring[i] == h.ring[i]; } else if k < i { assert ring[i] == h.ring[i + 1]; }
    }
  }

  /** `FreeAt` on a USED cluster: mark it, then merge. */
  ghost function Marked(h: Heap, k: nat): Heap
    requires Inv(h) && k < |h.ring| && h.ring[k].used
  {
    h.(ring := h.ring[k := h.ring[k].(used := false)],
       cursor := h.ring[Prev(k, |h.ring|)].id, bytesUsed := (h.bytesUsed - h.ring[k].size) % WORD)
  }

  lemma FreeAtSteps(h: Heap, k: nat)
    requires Inv(h) && k < |h.ring| && h.ring[k].used
    ensures Inv(Marked(h, k)) && Live(Marked(h, k)) == Live(h) - {h.ring[k].Where()}
    ensures FreeAt(h, k) == Coalesce(Marked(h, k), k)
    ensures MergesForward(Marked(h, k), k) <==> k + 1 < |h.ring| && !h.ring[k + 1].used
  {
    FreeClusterRoom(h, k);
    TilesBounds(h.ring, h.start, h.Limit(), k);
    IdsHas(h.ring, h.ring[Prev(k, |h.ring|)].id);
    MarkKeepsInv(h, k, false, h.ring[Prev(k, |h.ring|)].id, Marked(h, k));
  }

  lemma FreeAtSafe(h: Heap, k: nat)
    requires Inv(h) && k < |h.ring| && h.ring[k].used && !(k == 0 && WrapHazard(h.ring))
    ensures Inv(FreeAt(h, k)) && Live(FreeAt(h, k)) == Live(h) - {h.ring[k].Where()}
  {
    FreeAtSteps(h, k);
    var h1 := Marked(h, k);
    var h2 := h1;
    if MergesForward(h1, k) {
      IdsDiffer(h.ring, if k == 0 then k + 1 else k - 1, if k == 0 then |h.ring| - 1 else k + 1);
      MergeKeepsInv(h1, k);
      h2 := CoalesceNext(h1, k);
    }
    if MergesBackward(h2, k) {
      IdsDiffer(h.ring, k - 1, k);
      MergeKeepsInv(h2, k - 1);
    }
  }

  /** Freeing a FREE cluster takes its bytes off the counter a second time. */
  lemma DoubleFreeUnsafe(h: Heap, k: nat)
    requires Inv(h) && k < |h.ring| && !h.ring[k].used
    ensures !Inv(FreeAt(h, k))
  {
    TilesBounds(h.ring, h.start, h.Limit(), k);
    FreeClusterRoom(h, k);
  }

  /** In a ring of two the cursor is left on the node merged away. */
  lemma TwoUnsafe(h: Heap)
    requires Inv(h) && |h.ring| == 2 && h.ring[0].used && !h.ring[1].used
    ensures !Inv(FreeAt(h, 0))
  {
    FreeAtSteps(h, 0);
    var h2 := CoalesceNext(Marked(h, 0), 0);
    OneOrTwo(h2.ring[0], h2.ring[0]);
  }

  /** The highest cluster swallows the lowest. */
  lemma Swallows(h: Heap)
    requires 2 < |h.ring| && h.ring[0].id < |h.nodes|
    ensures var n, ring := |h.ring|, CoalesceNext(h, |h.ring| - 1).ring;
            |ring| == n - 1 && ring[n - 2] == h.ring[n - 1].(size := h.ring[n - 1].size + h.ring[0].size)
  {
  }

  lemma ForwardKeepsTop(h: Heap)
    requires Inv(h) && 2 < |h.ring| && h.ring[0].used && WrapHazard(h.ring)
    ensures var h1 := Marked(h, 0);
            var h2 := if MergesForward(h1, 0) then CoalesceNext(h1, 0) else h1;
            && 2 < |h2.ring| && h2.ring[|h2.ring| - 1] == h.ring[|h.ring| - 1] && h.ring[0].size <= h2.ring[0].size
            && h2.ring[0].id < |h2.nodes| && FreeAt(h, 0) == CoalesceNext(h2, |h2.ring| - 1)
  {
    FreeAtSteps(h, 0);
    TilesBounds(h.ring, h.start, h.Limit(), 1);
  }

  lemma WrapUnsafe(h: Heap)
    requires Inv(h) && 2 < |h.ring| && h.ring[0].used && WrapHazard(h.ring)
    ensures !Inv(FreeAt(h, 0))
  {
    ForwardKeepsTop(h);
    var h1, g := Marked(h, 0), FreeAt(h, 0);
    Swallows(if MergesForward(h1, 0) then CoalesceNext(h1, 0) else h1);
    TilesBounds(h.ring, h.start, h.Limit(), 0);
    assert g.ring[|g.ring| - 1].Limit() != g.Limit();
  }

  lemma FreeAtUnsafe(h: Heap, k: nat)
    requires Inv(h) && k < |h.ring| && (!h.ring[k].used || (k == 0 && WrapHazard(h.ring)))
    ensures !Inv(FreeAt(h, k))
  {
    if !h.ring[k].used { DoubleFreeUnsafe(h, k); }
    else if |h.ring| == 2 { TwoUnsafe(h); }
    else { WrapUnsafe(h); }
  }

  lemma FindAt(h: Heap, address: nat)
    requires Inv(h)
    ensures forall k | 0 <= k < |h.ring| && h.ring[k].start == address :: Find(h, address) == Some(k)
  {
    forall k | 0 <= k < |h.ring| && h.ring[k].start == address { FindIs(h, k); }
  }

  /**
  `free` keeps the heap sound exactly under `FreeSafe`. Otherwise the byte counter is reduced
  twice for one allocation, or the highest cluster swallows the lowest, or the cursor is left on a
  node that has been given back.
  */
  lemma FreeKeepsInvIff(h: Heap, address: nat)
    requires Inv(h)
    ensures Inv(Free(h, address)) <==> FreeSafe(h, address)
  {
    FindAt(h, address);
    if Find(h, address).Some? {
      var k := Find(h, address).value;
      if FreeSafe(h, address) { FreeAtSafe(h, k); } else { FreeAtUnsafe(h, k); }
    }
  }

  /** A safe `free` takes exactly the extent at `address` out of the live set. */
  lemma FreeLive(h: Heap, address: nat)
    requires Inv(h) && FreeSafe(h, address)
    ensures Live(Free(h, address)) == NotAt(Live(h), address)
    ensures (forall e | e in Live(h) :: e.start != address) ==> Free(h, address) == h
  {
    FindAt(h, address);
    match Find(h, address)
    case None =>
      forall e | e in Live(h) ensures e.start != address {
        LiveHas(h.ring, e);
      }
    case Some(k) =>
      FreeAtSafe(h, k);
      LiveAt(h, k);
      forall e | e in LiveIn(Without(h.ring, k)) ensures e.start != address { ApartFrom(h, k, e); }
  }

  // ---------------------------------------------------------------- coalescing

  ghost predicate NoFreeNeighbours(ring: seq<Cluster>) {
    forall i, j | 0 <= i < j < |ring| && j == i + 1 :: ring[i].used || ring[j].used
  }

  lemma AllocateKeepsNoFreeNeighbours(h: Heap, req: nat)
    requires Inv(h) && 0 < req < WORD && NodeAvailable(h, req) && NoFreeNeighbours(h.ring)
    ensures NoFreeNeighbours(Allocate(h, req).0.ring)
  {
    if !TooFull(h, req) && Pick(h, req).Some? {
      var k, ring := Pick(h, req).value, Allocate(h, req).0.ring;
      forall i, j | 0 <= i < j < |ring| && j == i + 1 ensures ring[i].used || ring[j].used {
        if |ring| == |h.ring| {
          assert h.ring[i].used || h.ring[j].used;
        } else if j <= k {
          assert ring[i] == h.ring[i] && ring[j].used == h.ring[j].used;
        } else if k + 1 < i {
          assert ring[i] == h.ring[i - 1] && ring[j] == h.ring[j - 1];
        }
      }
    }
  }

  /** The two small rings in which `next == prev` switches off a merge that was due. */
  ghost predicate MergeSkipped(ring: seq<Cluster>, k: nat)
    requires k < |ring|
  {
    k == 1 && !ring[0].used && (|ring| == 2 || (|ring| == 3 && !ring[2].used))
  }

  /** No two FREE neighbours, except possibly the pair just below index `k`. */
  ghost predicate NoFreeNeighboursBut(ring: seq<Cluster>, k: nat) {
    forall i, j | 0 <= i < j < |ring| && j == i + 1 && j != k :: ring[i].used || ring[j].used
  }

  lemma ForwardMergeHelps(h: Heap, k: nat)
    requires k < |h.ring| && (forall i | 0 <= i < |h.ring| :: h.ring[i].id < |h.nodes|)
    requires NoFreeNeighbours(h.ring[k := h.ring[k].(used := true)])
    requires MergesForward(h, k) <==> k + 1 < |h.ring| && !h.ring[k + 1].used
    ensures var h2 := if MergesForward(h, k) then CoalesceNext(h, k) else h;
            NoFreeNeighboursBut(h2.ring, k)
  {
    var before := h.ring[k := h.ring[k].(used := true)];
    var ring := if MergesForward(h, k) then CoalesceNext(h, k).ring else h.ring;
    forall i, j | 0 <= i < j < |ring| && j == i + 1 && j != k ensures ring[i].used || ring[j].used {
      if j < k || |ring| == |h.ring| { assert before[i].used || before[j].used; }
      else { assert ring[j] == h.ring[j + 1]; assert before[i + 1].used || before[j + 1].used; }
    }
  }

  lemma BackwardMergeHelps(h: Heap, k: nat)
    requires 0 < k < |h.ring| && 2 < |h.ring| && h.ring[k].id < |h.nodes| && NoFreeNeighboursBut(h.ring, k)
    requires !h.ring[k - 1].used && !h.ring[k].used
    ensures NoFreeNeighbours(CoalesceNext(h, k - 1).ring)
  {
    var ring := CoalesceNext(h, k - 1).ring;
    forall i, j | 0 <= i < j < |ring| && j == i + 1 ensures ring[i].used || ring[j].used {
      if j < k { assert h.ring[i].used || h.ring[j].used; }
      else { assert ring[j] == h.ring[j + 1]; assert h.ring[i + 1].used || h.ring[j + 1].used; }
    }
  }

  /** The backward merge, or its absence, decides about the pair just below `k`. */
  lemma BackwardIff(h: Heap, k: nat)
    requires k < |h.ring| && (forall i | 0 <= i < |h.ring| :: h.ring[i].id < |h.nodes|)
    requires NoFreeNeighboursBut(h.ring, k) && !h.ring[k].used && (k == 0 ==> !MergesBackward(h, k))
    ensures var h3 := if MergesBackward(h, k) then CoalesceNext(h, Prev(k, |h.ring|)) else h;
            NoFreeNeighbours(h3.ring) <==> !(k == 1 && |h.ring| == 2 && !h.ring[0].used)
  {
    if MergesBackward(h, k) { BackwardMergeHelps(h, k); }
    else if 0 < k { assert NoFreeNeighbours(h.ring) ==> h.ring[k - 1].used; }
  }

  lemma FreeAtCoalescesIff(h: Heap, k: nat)
    requires Inv(h) && k < |h.ring| && h.ring[k].used && (k == 0 ==> !WrapHazard(h.ring)) && NoFreeNeighbours(h.ring)
    ensures NoFreeNeighbours(FreeAt(h, k).ring) <==> !MergeSkipped(h.ring, k)
  {
    FreeAtSteps(h, k);
    var h1 := Marked(h, k);
    assert h1.ring[k := h1.ring[k].(used := true)] == h.ring;
    ForwardMergeHelps(h1, k);
    var h2 := if MergesForward(h1, k) then CoalesceNext(h1, k) else h1;
    assert 0 < k ==> h2.ring[k - 1] == h.ring[k - 1];
    BackwardIff(h2, k);
  }

  /** A safe `free` leaves no two FREE neighbours, except exactly in the two small rings. */
  lemma FreeCoalescesIff(h: Heap, k: nat)
    requires Inv(h) && k < |h.ring| && FreeSafe(h, h.ring[k].start) && NoFreeNeighbours(h.ring)
    ensures NoFreeNeighbours(Free(h, h.ring[k].start).ring) <==> !MergeSkipped(h.ring, k)
  {
    FindIs(h, k);
    FreeAtCoalescesIff(h, k);
  }

  // ---------------------------------------------------------------- runs

  datatype Request = Alloc(req: nat) | Release(address: nat)

  /** What the client of the heap sees. */
  datatype Event = Got(extent: Extent) | Refused | Returned(address: nat)

  /** `_create_cluster_pool` on an empty node pool. */
  function Fresh(start: nat, size: nat, nodes: nat): Heap
    requires 0 < nodes
  {
    Heap(start, size, [Cluster(0, start, size, false)], 0, 0, [true] + seq(nodes - 1, _ => false))
  }

  ghost predicate Permitted(h: Heap, r: Request)
    requires Inv(h)
  {
    match r
    case Alloc(req) => 0 < req < WORD && NodeAvailable(h, req)
    case Release(a) => FreeSafe(h, a)
  }

  function Serve(h: Heap, r: Request): (Heap, Event)
    requires Inv(h) && Permitted(h, r)
  {
    match r
    case Alloc(req) =>
      var (h', a) := Allocate(h, req);
      (h', if a == 0 then Refused else Got(Extent(a, req)))
    case Release(a) => (Free(h, a), Returned(a))
  }

  ghost predicate Served(h: Heap, r: Request, e: Event, h': Heap) {
    Inv(h) && Permitted(h, r) && Serve(h, r) == (h', e)
  }

  /** A run: the heap before each of the requests and after the last, and what the client sees. */
  ghost predicate Run(hs: seq<Heap>, rs: seq<Request>, log: seq<Event>) {
    && |hs| == |rs| + 1 && |log| == |rs|
    && forall i {:trigger rs[i]} | 0 <= i < |rs| :: Served(hs[i], rs[i], log[i], hs[i + 1])
  }

  ghost function NotAt(held: set<Extent>, a: nat): set<Extent> { set e | e in held && e.start != a }

  ghost function After(held: set<Extent>, e: Event): set<Extent> {
    match e
    case Got(x) => held + {x}
    case Refused => held
    case Returned(a) => NotAt(held, a)
  }

  /** The client's own bookkeeping: what its log says it holds. */
  ghost function Held(log: seq<Event>): set<Extent> {
    if log == [] then {} else After(Held(log[..|log| - 1]), log[|log| - 1])
  }

  /** An extent handed out lies in [lo, hi) and clear of all that is held at that moment. */
  ghost predicate WellServed(held: set<Extent>, e: Event, lo: nat, hi: nat) {
    e.Got? ==>
      && lo <= e.extent.start && 0 < e.extent.size && e.extent.start + e.extent.size <= hi
      && forall f | f in held :: Disjoint(f, e.extent)
  }

  lemma ServeKeepsInv(h: Heap, r: Request, e: Event, h': Heap)
    requires Served(h, r, e, h')
    ensures Inv(h') && h'.start == h.start && h'.size == h.size
    ensures Live(h') == After(Live(h), e)
    ensures WellServed(Live(h), e, h.start, h.Limit())
  {
    match r
    case Alloc(req) => AllocateKeepsInv(h, req);
    case Release(a) => FreeKeepsInvIff(h, a); FreeLive(h, a);
  }

  /**
  In every state of every run of permitted requests from a fresh heap the heap is sound, its USED
  clusters are exactly what the client's own log says it holds, and the extent handed out next
  overlaps none of them.
  */
  lemma {:induction false} RunSound(hs: seq<Heap>, rs: seq<Request>, log: seq<Event>, i: nat)
    requires Run(hs, rs, log) && i <= |rs| && Inv(hs[0]) && Live(hs[0]) == {}
    ensures Inv(hs[i]) && hs[i].start == hs[0].start && hs[i].size == hs[0].size
    ensures Live(hs[i]) == Held(log[..i])
    ensures i < |rs| ==> WellServed(Held(log[..i]), log[i], hs[0].start, hs[0].Limit())
  {
    if 0 < i {
      RunSound(hs, rs, log, i - 1);
      ServeKeepsInv(hs[i - 1], rs[i - 1], log[i - 1], hs[i]);
      assert log[..i][..i - 1] == log[..i - 1];
    }
    if i < |rs| { ServeKeepsInv(hs[i], rs[i], log[i], hs[i + 1]); }
  }

  lemma FreshSound(start: nat, size: nat, nodes: nat)
    requires 0 < start && 0 < size && start + size < WORD && 0 < nodes
    ensures Inv(Fresh(start, size, nodes)) && Live(Fresh(start, size, nodes)) == {}
    ensures NoFreeNeighbours(Fresh(start, size, nodes).ring)
  {
    var h := Fresh(start, size, nodes);
    OneOrTwo(h.ring[0], h.ring[0]);
  }
}
