/** The fixed-size pool of metadata nodes (kernel/structs/pool.hpp), managed by a bitmap. */
module NodePool {
  import opened Base
  import opened Bitmap

  /** A metadata node: a place `id` in the pool's data area and the fields of `Cluster`. */
  class Node {
    const id: nat
    var start: nat
    var size: nat
    var next: Node?
    var prev: Node?
    var used: bool

    constructor (id: nat)
      ensures this.id == id && next == null && prev == null && !used
    {
      this.id := id;
      start, size, next, prev, used := 0, 0, null, null, false;
    }

    /** Overwrite all fields at once. */
    method Assign(start: nat, size: nat, next: Node, prev: Node, used: bool)
      modifies this
      ensures this.start == start && this.size == size && this.next == next && this.prev == prev && this.used == used
    {
      this.start, this.size, this.next, this.prev, this.used := start, size, next, prev, used;
    }
  }

  class Pool {
    const maxEntries: nat
    const bitmap: array<bv8>
    const datamap: seq<Node>
    ghost const space: set<Node>
    /** Which nodes are taken. */
    ghost var taken: seq<bool>

    ghost predicate Valid()
      reads this, bitmap
    {
      && |taken| == |datamap| == maxEntries && maxEntries + 7 < WORD
      && bitmap.Length == DivideRoundup(maxEntries, 8)
      && (forall i | 0 <= i < maxEntries :: datamap[i].id == i && datamap[i] in space)
      && taken == Bits(bitmap[..])[..maxEntries]
    }

    /** `_create_pool`: all bits clear, all nodes zero. */
    constructor (maxEntries: nat)
      requires maxEntries + 7 < WORD
      ensures Valid() && this.maxEntries == maxEntries
      ensures taken == seq(maxEntries, _ => false)
      ensures fresh(bitmap) && fresh(space)
    {
      this.maxEntries := maxEntries;
      DivideRoundupIff(maxEntries, 8);
      var bytes := new bv8[DivideRoundup(maxEntries, 8)](_ => 0);
      var nodes: seq<Node> := [];
      for i := 0 to maxEntries
        invariant |nodes| == i && forall k | 0 <= k < i :: nodes[k].id == k && fresh(nodes[k])
        invariant fresh(bytes) && forall k | 0 <= k < bytes.Length :: bytes[k] == 0
      {
        var node := new Node(i);
        nodes := nodes + [node];
      }
      bitmap, datamap, taken := bytes, nodes, seq(maxEntries, _ => false);
      space := set n | n in nodes;
    }

    /** The lowest free id, now taken; all ones when there is none. */
    method Allocate() returns (id: nat)
      requires Valid()
      modifies this, bitmap
      ensures Valid()
      ensures var k := FirstClear(old(taken));
              if k < maxEntries then id == k && taken == old(taken)[k := true]
              else id == WORD - 1 && taken == old(taken)
    {
      for i := 0 to maxEntries
        invariant Valid() && taken == old(taken)
        invariant forall k | 0 <= k < i :: taken[k]
      {
        if !Get(bitmap[..], i) {
          FirstClearIs(taken, i);
          Mark(bitmap, i);
          taken := taken[i := true];
          return i;
        }
      }
      FirstClearIs(taken, maxEntries);
      return WORD - 1;
    }

    method Free(id: nat)
      requires Valid() && id < maxEntries
      modifies this, bitmap
      ensures Valid() && taken == old(taken)[id := false]
    {
      Unmark(bitmap, id);
      taken := taken[id := false];
    }
  }
}
