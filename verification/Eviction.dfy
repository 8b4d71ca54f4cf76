/** What evicting the blocks selected by a scan achieves: the hit becomes the most recent hole, and an insertion that
    prefers recent holes lands on it. */
module Eviction {
  import opened KernelMath
  import opened Sequences
  import opened RbShape
  import opened RbTrees
  import opened LinkedLists
  import opened MmTiling
  import opened RangeAllocator
  import opened HoleSearch
  import opened Gaps
  import opened EvictionScan
  import opened Insertion

  /** Removing a block of `gone` keeps the hit, and brings it closer to being free. */
  lemma EvictStep(nodes: Nodes, nodes': Nodes, blocks: seq<Ptr>, lo: nat, hi: nat, gone: seq<Ptr>, x: Ptr,
                  rest: seq<Ptr>, start: int, q: Request, high: bool)
    requires Unique(blocks) && (forall y :: y in blocks ==> y in nodes) && Removed(nodes, nodes', blocks, x)
    requires x in gone
    requires HitOk(nodes, blocks, lo, hi, gone, start, q, high) && FreeAt(nodes, blocks, lo, hi, [x] + rest, start, q)
    ensures HitOk(nodes', Without(blocks, x), lo, hi, gone, start, q, high)
    ensures FreeAt(nodes', Without(blocks, x), lo, hi, rest, start, q)
  {
    hide Without, Unique;
    WithoutUnique(blocks, x);
    forall b | Beyond(b, start, lo, hi, q, high)
      ensures !Clear(nodes', Without(blocks, x), gone, Min(b, start), Max(b, start) + q.size)
    {
      assert !Clear(nodes, blocks, gone, Min(b, start), Max(b, start) + q.size);
      var y :| y in blocks && y != HEAD && y !in gone
               && Overlaps(nodes[y], Min(b, start), Max(b, start) + q.size);
      assert y in Without(blocks, x);
    }
  }

  /** If a removed block met a now clear interval, the hole that the removal left covers the interval. */
  lemma TopCovers(mm: DrmMm, nodes: Nodes, blocks: seq<Ptr>, x: Ptr, a: nat, size: nat)
    requires mm.Core() && Tiled(nodes, blocks, mm.lo, mm.hi) && (forall y :: y in blocks ==> y in nodes)
    requires x in blocks && x != HEAD && mm.blocks == Without(blocks, x) && Removed(nodes, mm.node, blocks, x)
    requires size > 0 && mm.lo <= a && a + size <= mm.hi
    requires Overlaps(nodes[x], a, a + size) && Clear(mm.node, mm.blocks, [], a, a + size)
    ensures IndexOf(blocks, x) > 0
    ensures var prev := blocks[IndexOf(blocks, x) - 1];
            prev in mm.Holes() && prev in mm.node && Covers(mm.node[prev], a, size)
  {
    hide RbTree.Valid, RbTree.Order, LinkedList.Valid, DrmMm.Core, DrmMm.Holes, Tiled, Without, Clear;
    TiledCore(mm);
    OpenGap(nodes, blocks, mm.lo, mm.hi, x);
    var k := IndexOf(blocks, x);
    RemoveStart(nodes, blocks, mm.lo, mm.hi, k, x);
    var prev := blocks[k - 1];
    var i := GapOf(mm.node, mm.blocks, mm.lo, mm.hi, a, a + size);
    var j := IndexOf(mm.blocks, prev);
    assert Succ(mm.blocks, j) == Succ(blocks, k) && Succ(blocks, k) in mm.blocks;
    SameGap(mm.node, mm.blocks, mm.lo, mm.hi, i, j, a, a + size, nodes[x].start, nodes[x].start + nodes[x].size);
    assert HoleSizeAt(mm.node, mm.blocks, i);
    HoleBounds(mm.node, mm.blocks, mm.lo, mm.hi, i);
    HoleFacts(mm, prev);
  }

  /** Both ranges reach equally far into the managed range. */
  ghost predicate SameReach(mm: DrmMm, q: Request, q': Request) {
    && q'.size == q.size && q'.alignment == q.alignment
    && Max(mm.lo, q'.start) == Max(mm.lo, q.start)
    && Min(mm.hi, q'.end) == Min(mm.hi, q.end)
  }

  lemma SameFits(mm: DrmMm, q: Request, q': Request, x: Ptr, a: int)
    requires mm.Core() && x in mm.Holes() && x in mm.node && SameReach(mm, q, q')
    ensures FitsIn(a, mm.node[x], q) <==> FitsIn(a, mm.node[x], q')
  {
    hide RbTree.Valid, RbTree.Order, LinkedList.Valid, DrmMm.Core, DrmMm.Holes;
    HoleFacts(mm, x);
  }

  /** The hit of a scan in the most recent hole: an insertion in EVICT mode with the same size, alignment and reach
      chooses that hole and takes its lowest start. That is the start of the hit after every scan that does not allocate
      from the top; in general it is exactly if no aligned start below the hit is left in the hole and the range. */
  lemma EvictLands(mm: DrmMm, gone: seq<Ptr>, top: Ptr, hit: nat, q: Request, q': Request, high: bool, hole: Ptr,
                   start: int)
    requires mm.Core() && q.size > 0 && SameReach(mm, q, q') && top in mm.Holes() && top in mm.node
    requires mm.holeStack.Valid() && mm.holeStack.Items() != [] && mm.holeStack.Items()[0] == top
    requires HitOk(mm.node, mm.blocks, mm.lo, mm.hi, gone, hit, q, high) && Covers(mm.node[top], hit, q.size)
    requires Preferred(mm, q', Evict, hole, start)
    ensures hole == top && start <= hit
    ensures !high ==> start == hit
    ensures start == hit <==> hit < Max(mm.node[top].HoleStart(), q.start) + Stride(q.alignment)
  {
    hide RbTree.Valid, RbTree.Order, LinkedList.Valid, DrmMm.Core, DrmMm.Holes, Clear, SameReach, Aligned, Stride;
    StackOrder(mm);
    HoleFacts(mm, top);
    assert FitsIn(hit, mm.node[top], q);
    SameFits(mm, q, q', top, hit);
    assert Suits(mm.node[top], q');
    TopFirst(mm.holeStack.Items(), hole);
    SameFits(mm, q, q', top, start);
    AlignedNeighbours(start, hit, q.alignment);
    SameFits(mm, q, q', top, hit - Stride(q.alignment));
    StrideBelow(mm.node[top], hit, q);
    if start < hit && !high {
      LowerStart(mm, gone, top, hit, q, start);
    }
  }

  /** One stride below a placement is a placement too, unless it leaves the hole or the range. */
  lemma StrideBelow(n: MmNode, a: int, q: Request)
    requires FitsIn(a, n, q)
    ensures Stride(q.alignment) > 0
    ensures FitsIn(a - Stride(q.alignment), n, q) <==> a >= Max(n.HoleStart(), q.start) + Stride(q.alignment)
  {
    AlignedNeighbours(a, a, q.alignment);
  }

  /** After a scan from the top the condition can fail: in the hole [0, 100) ten bytes are found at 90, and inserted at
      0. */
  lemma HighScanMisses()
    ensures var n, q := MmNode(100, U64_MAX - 99, 100, false, false), Request(10, 0, 0, 100);
            && n.HoleStart() == 0 && n.HoleEnd() == 100
            && Try(n, q, true) == Some(90) && Try(n, q, false) == Some(0)
            && !(90 < Max(n.HoleStart(), q.start) + Stride(q.alignment))
  {
  }

  lemma TopFirst(s: seq<Ptr>, x: Ptr)
    requires x in s
    ensures s[0] != x ==> s[0] in s[..IndexOf(s, x)]
  {
    assert s[0] != x ==> s[..IndexOf(s, x)][0] == s[0];
  }

  /** A lower start in the hole of the hit is reached from there without crossing a block. */
  lemma LowerStart(mm: DrmMm, gone: seq<Ptr>, top: Ptr, hit: nat, q: Request, start: int)
    requires mm.Core() && top in mm.Holes() && top in mm.node && Covers(mm.node[top], hit, q.size)
    requires FitsIn(start, mm.node[top], q) && start < hit
    requires FreeAt(mm.node, mm.blocks, mm.lo, mm.hi, gone, hit, q)
    ensures Beyond(start, hit, mm.lo, mm.hi, q, false) && Clear(mm.node, mm.blocks, gone, start, hit + q.size)
  {
    hide RbTree.Valid, RbTree.Order, LinkedList.Valid, DrmMm.Core, DrmMm.Holes, Clear;
    HoleFacts(mm, top);
    TiledCore(mm);
    GapClear(mm.node, mm.blocks, mm.lo, mm.hi, IndexOf(mm.blocks, top), start, hit + q.size);
    ClearMore(mm.node, mm.blocks, gone, start, hit + q.size);
  }

  lemma ClearMore(nodes: Nodes, chain: seq<Ptr>, gone: seq<Ptr>, a: int, e: int)
    requires Clear(nodes, chain, [], a, e)
    ensures Clear(nodes, chain, gone, a, e)
  {
  }

  // ----- insertions in BEST mode

  /** A clear interval that meets a hole lies in it. */
  lemma ClearInHole(mm: DrmMm, x: Ptr, a: int, e: int, b: int, f: int)
    requires mm.Core() && x in mm.Holes() && x in mm.node && mm.lo <= a < e <= mm.hi && b < f && a < f && b < e
    requires Clear(mm.node, mm.blocks, [], a, e) && mm.node[x].HoleStart() <= b && f <= mm.node[x].HoleEnd()
    ensures mm.node[x].HoleStart() <= a && e <= mm.node[x].HoleEnd()
  {
    hide RbTree.Valid, RbTree.Order, LinkedList.Valid, DrmMm.Core, DrmMm.Holes, Clear, Tiled;
    TiledCore(mm);
    HoleFacts(mm, x);
    var i := GapOf(mm.node, mm.blocks, mm.lo, mm.hi, a, e);
    SameGap(mm.node, mm.blocks, mm.lo, mm.hi, i, IndexOf(mm.blocks, x), a, e, b, f);
  }

  /** Every stretch of a hole is clear. */
  lemma HoleAround(mm: DrmMm, x: Ptr, a: int, size: nat, n: int)
    requires mm.Core() && x in mm.Holes() && x in mm.node && size <= n <= mm.node[x].holeSize
    requires mm.node[x].HoleStart() <= a && a + size <= mm.node[x].HoleEnd()
    ensures Around(mm.node, mm.blocks, mm.lo, mm.hi, [], a, size, n)
  {
    hide RbTree.Valid, RbTree.Order, LinkedList.Valid, DrmMm.Core, DrmMm.Holes, Clear, Tiled;
    TiledCore(mm);
    HoleFacts(mm, x);
    var c := Max(mm.node[x].HoleStart(), a + size - n);
    GapClear(mm.node, mm.blocks, mm.lo, mm.hi, IndexOf(mm.blocks, x), c, c + n);
  }

  /** The placement is in `hole`, the most recent one of the smallest holes that suit. */
  ghost predicate Newest(nodes: Nodes, stack: seq<Ptr>, hole: Ptr, at: int, q: Request) {
    && hole in stack && hole in nodes && FitsIn(at, nodes[hole], q)
    && forall x :: x in stack && x in nodes && Suits(nodes[x], q) ==>
         || nodes[hole].holeSize < nodes[x].holeSize
         || (nodes[hole].holeSize == nodes[x].holeSize && IndexOf(stack, hole) <= IndexOf(stack, x))
  }

  lemma BestNewest(mm: DrmMm, q: Request, q': Request, hole: Ptr, start: int)
    requires mm.Core() && q.size > 0 && SameReach(mm, q, q') && Preferred(mm, q', Best, hole, start)
    ensures mm.holeStack.Valid() && Newest(mm.node, mm.holeStack.Items(), hole, start, q)
  {
    hide RbTree.Valid, RbTree.Order, LinkedList.Valid, DrmMm.Core, DrmMm.Holes, SameReach, FitsIn;
    StackOrder(mm);
    HoleFacts(mm, hole);
    SameFits(mm, q, q', hole, start);
    var stack := mm.holeStack.Items();
    forall x | x in stack && x in mm.node && Suits(mm.node[x], q)
      ensures mm.node[hole].holeSize <= mm.node[x].holeSize
      ensures mm.node[hole].holeSize == mm.node[x].holeSize ==> IndexOf(stack, hole) <= IndexOf(stack, x)
    {
      var a :| FitsIn(a, mm.node[x], q);
      SameFits(mm, q, q', x, a);
      assert Suits(mm.node[x], q');
    }
  }

  /** What BEST mode prefers is free, the lowest start in its gap, and the gap is a smallest one. */
  lemma BestLands(mm: DrmMm, q: Request, q': Request, hole: Ptr, start: int)
    requires mm.Core() && q.size > 0 && SameReach(mm, q, q') && Preferred(mm, q', Best, hole, start)
    ensures HitOk(mm.node, mm.blocks, mm.lo, mm.hi, [], start, q, false)
    ensures Tightest(mm.node, mm.blocks, mm.lo, mm.hi, [], start, q)
  {
    hide RbTree.Valid, RbTree.Order, LinkedList.Valid, DrmMm.Core, DrmMm.Holes, Clear, Around, SameReach;
    HoleFacts(mm, hole);
    SameFits(mm, q, q', hole, start);
    HoleFree(mm, q, hole, start);
    var end := start + q.size;
    forall b | Beyond(b, start, mm.lo, mm.hi, q, false) ensures !Clear(mm.node, mm.blocks, [], b, end) {
      if Clear(mm.node, mm.blocks, [], b, end) {
        ClearInHole(mm, hole, b, end, start, end);
        SameFits(mm, q, q', hole, b);
        assert false;
      }
    }
    forall a, n | FreeAt(mm.node, mm.blocks, mm.lo, mm.hi, [], a, q)
                  && Around(mm.node, mm.blocks, mm.lo, mm.hi, [], start, q.size, n)
      ensures Around(mm.node, mm.blocks, mm.lo, mm.hi, [], a, q.size, n)
    {
      var x := FreeInHole(mm, q, a);
      SameFits(mm, q, q', x, a);
      HoleFacts(mm, x);
      AroundHole(mm, hole, start, q.size, n);
      HoleAround(mm, x, a, q.size, n);
    }
  }

  lemma AroundHole(mm: DrmMm, x: Ptr, a: int, size: nat, n: int)
    requires mm.Core() && x in mm.Holes() && x in mm.node && size > 0
    requires mm.node[x].HoleStart() <= a && a + size <= mm.node[x].HoleEnd()
    requires Around(mm.node, mm.blocks, mm.lo, mm.hi, [], a, size, n)
    ensures size <= n <= mm.node[x].holeSize
  {
    hide RbTree.Valid, RbTree.Order, LinkedList.Valid, DrmMm.Core, DrmMm.Holes, Clear;
    var c: int, e: int :| mm.lo <= c <= a && a + size <= e <= mm.hi && n == e - c
                          && Clear(mm.node, mm.blocks, [], c, e);
    ClearInHole(mm, x, c, e, a, a + size);
    HoleFacts(mm, x);
  }
}
