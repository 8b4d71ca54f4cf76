/** Walking the blocks of an address range: __drm_mm_interval_first of drm_mm.c and the macro
    drm_mm_for_each_node_in_range of drm/drm_mm.h. */
module NodeRange {
  import opened KernelMath
  import opened Sequences
  import opened RbShape
  import opened RbTrees
  import opened LinkedLists
  import opened IntervalTrees
  import opened MmTiling
  import opened RangeAllocator
  import opened HoleSearch
  import opened Gaps

  lemma ValidParts(mm: DrmMm)
    requires mm.Valid()
    ensures mm.Core() && mm.Intervals(mm.node, mm.blocks) && mm.nodeList.Valid() && mm.nodeList.chain == mm.blocks
  {
    hide RbTree.Valid, RbTree.Order, LinkedList.Valid, DrmMm.Indexed, DrmMm.Intervals;
  }

  /** The interval tree in terms of the blocks. */
  lemma IntervalBlocks(mm: DrmMm, start: u64, last: u64)
    requires mm.Valid()
    ensures mm.blocks != [] && mm.blocks[0] == HEAD && mm.intervalTree.Valid() && mm.intervalTree.augmented
    ensures mm.intervalTree.Order() == mm.blocks[1..] && Unique(mm.blocks)
    ensures forall i :: 1 <= i < |mm.blocks| ==>
              && mm.blocks[i] in mm.node
              && (Intersects(mm.intervalTree.key, mm.intervalTree.value, mm.blocks[i], start, last) <==>
                  Overlaps(mm.node[mm.blocks[i]], start, last + 1))
  {
    hide RbTree.Valid, RbTree.Order, LinkedList.Valid, DrmMm.Core, DrmMm.Valid, Tiled;
    ValidParts(mm);
    TiledCore(mm);
    HeadFirst(mm.node, mm.blocks, mm.lo, mm.hi);
    forall i | 1 <= i < |mm.blocks| ensures mm.node[mm.blocks[i]].size > 0 {
      assert mm.blocks[i] in mm.blocks;
      BlockIn(mm.node, mm.blocks, mm.lo, mm.hi, i);
    }
  }

  lemma BlockIn(nodes: Nodes, blocks: seq<Ptr>, lo: nat, hi: nat, i: nat)
    requires Tiled(nodes, blocks, lo, hi) && 1 <= i < |blocks|
    ensures blocks[i] in nodes && nodes[blocks[i]].size > 0
    ensures lo <= nodes[blocks[i]].start && nodes[blocks[i]].start + nodes[blocks[i]].size <= hi
    ensures forall j :: 1 <= j < i ==>
              blocks[j] in nodes && nodes[blocks[j]].start + nodes[blocks[j]].size <= nodes[blocks[i]].start
  {
    assert BlockOk(nodes, blocks[i], lo, hi);
  }

  /** __drm_mm_interval_first: the first block that meets `[start, last]`, or the head node. */
  method IntervalFirst(mm: DrmMm, start: u64, last: u64) returns (n: Ptr, ghost i: nat)
    requires mm.Valid()
    ensures 1 <= i <= |mm.blocks| && n == if i < |mm.blocks| then mm.blocks[i] else HEAD
    ensures forall x :: x in mm.blocks ==> x in mm.node
    ensures forall j :: 1 <= j < i ==> !Overlaps(mm.node[mm.blocks[j]], start, last + 1)
    ensures i < |mm.blocks| ==> Overlaps(mm.node[n], start, last + 1)
    ensures n == HEAD || (n in mm.blocks && Overlaps(mm.node[n], start, last + 1))
    ensures forall x :: x in mm.blocks && x != HEAD && Overlaps(mm.node[x], start, last + 1) ==>
              n in mm.blocks && n != HEAD && mm.node[n].start <= mm.node[x].start
  {
    hide RbTree.Valid, RbTree.Order, LinkedList.Valid, DrmMm.Core, DrmMm.Valid, Overlaps, Intersects, Unique;
    IntervalBlocks(mm, start, last);
    ValidParts(mm);
    TiledCore(mm);
    n := IterFirst(mm.intervalTree, start, last);
    ghost var s := mm.blocks[1..];
    FirstIsFirst(s, mm.intervalTree.key, mm.intervalTree.value, start, last);
    i := if n == NULL then |mm.blocks| else IndexOf(s, n) + 1;
    forall j | 1 <= j < i ensures !Overlaps(mm.node[mm.blocks[j]], start, last + 1) {
      assert s[j - 1] == mm.blocks[j] && s[j - 1] in s;
    }
    if n == NULL {
      n := HEAD;
    }
  }

  /** drm_mm_for_each_node_in_range over a range that ends inside the allocator: visits exactly the blocks that start
      below `end` and end above `start`, in address order. For an empty range that is a block that straddles it. */
  method NodesInRange(mm: DrmMm, start: u64, end: u64) returns (visited: seq<Ptr>, ghost first: nat)
    requires mm.Valid() && end <= mm.hi
    ensures 1 <= first && first + |visited| <= |mm.blocks| && visited == mm.blocks[first..first + |visited|]
    ensures forall x :: x in mm.blocks && x != HEAD ==>
              x in mm.node && (x in visited <==> Overlaps(mm.node[x], start, end))
  {
    hide RbTree.Valid, RbTree.Order, LinkedList.Valid, DrmMm.Core, DrmMm.Valid;
    hide Tiled, Unique, Overlaps, IndexOf, DrmMm.Intervals;
    ValidParts(mm);
    TiledCore(mm);
    HeadFirst(mm.node, mm.blocks, mm.lo, mm.hi);
    HeadEnds(mm.node, mm.blocks, mm.lo, mm.hi);
    visited := [];
    var n;
    n, first := IntervalFirst(mm, start, Sub64(end, 1));
    ghost var i := first;
    while mm.node[n].start < end
      invariant first <= i <= |mm.blocks| && n == (if i < |mm.blocks| then mm.blocks[i] else HEAD) && n in mm.node
      invariant visited == mm.blocks[first..i]
      invariant i > first ==> mm.node[mm.blocks[i - 1]].start < end
      decreases |mm.blocks| - i
    {
      visited := visited + [n];
      IndexUnique(mm.blocks, i);
      n := mm.nodeList.Next(n);
      i := i + 1;
      assert n in mm.blocks;
    }
    RangeExact(mm.node, mm.blocks, mm.lo, mm.hi, start, end, first, i);
  }

  /** The walk around the ring meets a node that stops it exactly if the range ends inside the allocator. */
  lemma RangeWalkStops(mm: DrmMm, end: u64)
    requires mm.Valid()
    ensures forall x :: x in mm.blocks ==> x in mm.node
    ensures (exists x :: x in mm.blocks && mm.node[x].start >= end) <==> end <= mm.hi
  {
    hide RbTree.Valid, RbTree.Order, LinkedList.Valid, DrmMm.Core, DrmMm.Valid, Tiled, Unique;
    ValidParts(mm);
    TiledCore(mm);
    HeadFirst(mm.node, mm.blocks, mm.lo, mm.hi);
    HeadEnds(mm.node, mm.blocks, mm.lo, mm.hi);
    forall x | x in mm.blocks ensures mm.node[x].start <= mm.hi {
      var i := IndexOf(mm.blocks, x);
      if i > 0 {
        BlockIn(mm.node, mm.blocks, mm.lo, mm.hi, i);
      }
    }
  }

  lemma HeadEnds(nodes: Nodes, blocks: seq<Ptr>, lo: nat, hi: nat)
    requires Tiled(nodes, blocks, lo, hi)
    ensures HEAD in nodes && nodes[HEAD].start == hi
  {
  }

  lemma RangeExact(nodes: Nodes, blocks: seq<Ptr>, lo: nat, hi: nat, start: nat, end: nat, first: nat, i: nat)
    requires Tiled(nodes, blocks, lo, hi) && 1 <= first <= i <= |blocks| && forall x :: x in blocks ==> x in nodes
    requires end > 0 ==> forall j :: 1 <= j < first ==> !Overlaps(nodes[blocks[j]], start, end)
    requires end > 0 && first < |blocks| ==> Overlaps(nodes[blocks[first]], start, end)
    requires i > first ==> nodes[blocks[i - 1]].start < end
    requires i < |blocks| ==> nodes[blocks[i]].start >= end
    ensures forall x :: x in blocks && x != HEAD ==> (x in blocks[first..i] <==> Overlaps(nodes[x], start, end))
  {
    hide Tiled;
    HeadFirst(nodes, blocks, lo, hi);
    forall x | x in blocks && x != HEAD ensures x in blocks[first..i] <==> Overlaps(nodes[x], start, end) {
      var j := IndexOf(blocks, x);
      assert j >= 1;
      BlockIn(nodes, blocks, lo, hi, j);
      if first <= j < i {
        assert blocks[first..i][j - first] == x;
        if j < i - 1 {
          BlockIn(nodes, blocks, lo, hi, i - 1);
        }
      } else {
        NotInSlice(blocks, first, i, j);
        if i < j {
          BlockIn(nodes, blocks, lo, hi, i);
        }
      }
    }
  }

  lemma NotInSlice(s: seq<Ptr>, first: nat, i: nat, j: nat)
    requires Unique(s) && first <= i <= |s| && j < |s| && (j < first || i <= j)
    ensures s[j] !in s[first..i]
  {
  }
}
