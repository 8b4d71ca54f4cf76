/** Placements that stay clear of the blocks of a tiling once some of them are gone. */
module Gaps {
  import opened KernelMath
  import opened Sequences
  import opened RbShape
  import opened RbTrees
  import opened LinkedLists
  import opened MmTiling
  import opened RangeAllocator
  import opened HoleSearch

  ghost predicate Overlaps(n: MmNode, a: int, e: int) {
    n.start + n.size > a && n.start < e
  }

  /** A block overlaps a range exactly if they have a byte in common. */
  lemma OverlapsBytes(n: MmNode, a: int, e: int)
    requires n.size > 0 && a < e
    ensures Overlaps(n, a, e) <==> exists b: int :: InBlock(n, b) && a <= b < e
  {
    if Overlaps(n, a, e) {
      assert InBlock(n, Max(n.start, a));
    }
  }

  /** `b` is the address of a byte of the block. */
  ghost predicate InBlock(n: MmNode, b: int) {
    0 <= b - n.start < n.size
  }

  /** No block but those of `gone` meets `[a, e)`. */
  ghost predicate Clear(nodes: Nodes, chain: seq<Ptr>, gone: seq<Ptr>, a: int, e: int) {
    forall x :: x in chain && x != HEAD && x !in gone ==> x in nodes && !Overlaps(nodes[x], a, e)
  }

  /** The request could be placed at `a` if the blocks of `gone` were not there. */
  ghost predicate FreeAt(nodes: Nodes, chain: seq<Ptr>, lo: nat, hi: nat, gone: seq<Ptr>, a: int, q: Request) {
    && Max(lo, q.start) <= a && a + q.size <= Min(hi, q.end) && Aligned(a, q.alignment)
    && Clear(nodes, chain, gone, a, a + q.size)
  }

  ghost predicate Opens(nodes: Nodes, chain: seq<Ptr>, lo: nat, hi: nat, gone: seq<Ptr>, q: Request) {
    exists a :: FreeAt(nodes, chain, lo, hi, gone, a, q)
  }

  /** Some stretch of `n` bytes around a placement at `a` is clear. */
  ghost predicate Around(nodes: Nodes, chain: seq<Ptr>, lo: nat, hi: nat, gone: seq<Ptr>, a: int, size: nat, n: int) {
    exists c: int, e: int :: lo <= c <= a && a + size <= e <= hi && n == e - c && Clear(nodes, chain, gone, c, e)
  }

  /** Every free placement lies in a gap that is at least as long as the one around `at`. */
  ghost predicate Tightest(nodes: Nodes, chain: seq<Ptr>, lo: nat, hi: nat, gone: seq<Ptr>, at: int, q: Request) {
    forall a, n :: FreeAt(nodes, chain, lo, hi, gone, a, q) && Around(nodes, chain, lo, hi, gone, at, q.size, n) ==>
      Around(nodes, chain, lo, hi, gone, a, q.size, n)
  }

  /** A clear interval lies in one gap of the chain. */
  lemma GapOf(nodes: Nodes, chain: seq<Ptr>, lo: nat, hi: nat, a: int, e: int) returns (i: nat)
    requires Tiled(nodes, chain, lo, hi) && (forall x :: x in chain ==> x in nodes)
    requires lo <= a < e <= hi && Clear(nodes, chain, [], a, e)
    ensures i < |chain| && nodes[chain[i]].HoleStart() <= a && e <= NextStart(nodes, chain, i)
  {
    hide Tiled;
    TiledDomain(nodes, chain, lo, hi);
    HeadFirst(nodes, chain, lo, hi);
    HoleBounds(nodes, chain, lo, hi, 0);
    i := GapFrom(nodes, chain, lo, hi, a, e, 0);
  }

  lemma {:induction false} GapFrom(nodes: Nodes, chain: seq<Ptr>, lo: nat, hi: nat, a: int, e: int,
                                   k: nat) returns (i: nat)
    requires Tiled(nodes, chain, lo, hi) && (forall x :: x in chain ==> x in nodes)
    requires lo <= a < e <= hi && Clear(nodes, chain, [], a, e)
    requires k < |chain| && nodes[chain[k]].HoleStart() <= a
    ensures i < |chain| && nodes[chain[i]].HoleStart() <= a && e <= NextStart(nodes, chain, i)
    decreases |chain| - k
  {
    hide Tiled;
    HoleBounds(nodes, chain, lo, hi, k);
    if e <= NextStart(nodes, chain, k) {
      i := k;
    } else {
      HoleBounds(nodes, chain, lo, hi, k + 1);
      HeadFirst(nodes, chain, lo, hi);
      assert chain[k + 1] in chain && chain[k + 1] !in [];
      i := GapFrom(nodes, chain, lo, hi, a, e, k + 1);
    }
  }

  /** Inside of a gap everything is clear. */
  lemma GapClear(nodes: Nodes, chain: seq<Ptr>, lo: nat, hi: nat, i: nat, a: int, e: int)
    requires Tiled(nodes, chain, lo, hi) && (forall x :: x in chain ==> x in nodes) && i < |chain|
    requires nodes[chain[i]].HoleStart() <= a && e <= NextStart(nodes, chain, i)
    ensures Clear(nodes, chain, [], a, e)
  {
    hide Tiled;
    HeadFirst(nodes, chain, lo, hi);
    forall x | x in chain && x != HEAD ensures !Overlaps(nodes[x], a, e) {
      var j := IndexOf(chain, x);
      if j <= i {
        PlaceAfter(nodes, chain, lo, hi, j, i);
      } else {
        HolesApart(nodes, chain, lo, hi, i, j);
      }
    }
  }

  /** Two intervals that meet do not lie in different gaps. */
  lemma SameGap(nodes: Nodes, chain: seq<Ptr>, lo: nat, hi: nat, i: nat, j: nat, a: int, e: int, b: int, f: int)
    requires Tiled(nodes, chain, lo, hi) && (forall x :: x in chain ==> x in nodes) && i < |chain| && j < |chain|
    requires nodes[chain[i]].HoleStart() <= a && e <= NextStart(nodes, chain, i)
    requires nodes[chain[j]].HoleStart() <= b && f <= NextStart(nodes, chain, j)
    requires a < f && b < e
    ensures i == j
  {
    hide Tiled;
    if i < j {
      HolesApart(nodes, chain, lo, hi, i, j);
    } else if j < i {
      HolesApart(nodes, chain, lo, hi, j, i);
    }
  }

  /** The free placements are those that some hole takes. */
  lemma OpensIffSuits(mm: DrmMm, q: Request)
    requires mm.Core() && q.size > 0
    ensures NoneSuits(mm, q) <==> !Opens(mm.node, mm.blocks, mm.lo, mm.hi, [], q)
  {
    hide RbTree.Valid, RbTree.Order, LinkedList.Valid, DrmMm.Core, DrmMm.Holes;
    if Opens(mm.node, mm.blocks, mm.lo, mm.hi, [], q) {
      var a :| FreeAt(mm.node, mm.blocks, mm.lo, mm.hi, [], a, q);
      var x := FreeInHole(mm, q, a);
    }
    if x, a :| x in mm.Holes() && x in mm.node && FitsIn(a, mm.node[x], q) {
      HoleFree(mm, q, x, a);
    }
    if !NoneSuits(mm, q) {
      SomeSuits(mm, q);
    }
  }

  lemma SomeSuits(mm: DrmMm, q: Request)
    requires mm.Core() && !NoneSuits(mm, q)
    ensures exists x, a :: x in mm.Holes() && x in mm.node && FitsIn(a, mm.node[x], q)
  {
    hide RbTree.Valid, RbTree.Order, LinkedList.Valid, DrmMm.Core, DrmMm.Holes;
    RosterLists(mm, Best);
    var x :| x in mm.Holes() && (x in mm.node ==> Suits(mm.node[x], q));
    var a :| FitsIn(a, mm.node[x], q);
  }

  lemma TiledCore(mm: DrmMm)
    requires mm.Core()
    ensures Tiled(mm.node, mm.blocks, mm.lo, mm.hi) && (forall x :: x in mm.blocks ==> x in mm.node)
    ensures HoleSizes(mm.node, mm.blocks) && mm.Holes() == HoleSet(mm.node, mm.blocks) && mm.Separate()
  {
    hide RbTree.Valid, RbTree.Order, LinkedList.Valid, DrmMm.Indexed, DrmMm.Intervals;
  }

  /** Conservation: in every state the block sizes and the hole sizes add up to the managed range. */
  lemma UsedAndFree(mm: DrmMm)
    requires mm.Core()
    ensures forall x :: x in mm.blocks ==> x in mm.node
    ensures Covered(mm.node, mm.blocks, |mm.blocks|) == mm.hi - mm.lo
  {
    hide RbTree.Valid, RbTree.Order, LinkedList.Valid, DrmMm.Core, DrmMm.Holes, Tiled;
    TiledCore(mm);
    HeadFirst(mm.node, mm.blocks, mm.lo, mm.hi);
    CoveredExactly(mm.node, mm.blocks, mm.lo, mm.hi, |mm.blocks|);
  }

  lemma FreeInHole(mm: DrmMm, q: Request, a: int) returns (x: Ptr)
    requires mm.Core() && q.size > 0 && FreeAt(mm.node, mm.blocks, mm.lo, mm.hi, [], a, q)
    ensures x in mm.Holes() && x in mm.node && FitsIn(a, mm.node[x], q)
  {
    hide RbTree.Valid, RbTree.Order, LinkedList.Valid, DrmMm.Core, DrmMm.Holes, Tiled, Clear;
    TiledCore(mm);
    var i := GapOf(mm.node, mm.blocks, mm.lo, mm.hi, a, a + q.size);
    x := mm.blocks[i];
    assert HoleSizeAt(mm.node, mm.blocks, i);
    HoleBounds(mm.node, mm.blocks, mm.lo, mm.hi, i);
    HoleFacts(mm, x);
  }

  lemma HoleFree(mm: DrmMm, q: Request, x: Ptr, a: int)
    requires mm.Core() && x in mm.Holes() && x in mm.node && FitsIn(a, mm.node[x], q)
    ensures FreeAt(mm.node, mm.blocks, mm.lo, mm.hi, [], a, q)
  {
    hide RbTree.Valid, RbTree.Order, LinkedList.Valid, DrmMm.Core, DrmMm.Holes, Tiled, Clear;
    TiledCore(mm);
    HoleFacts(mm, x);
    GapClear(mm.node, mm.blocks, mm.lo, mm.hi, IndexOf(mm.blocks, x), a, a + q.size);
  }

  /** `[a, a + size)` lies in the managed range and meets no block. */
  ghost predicate Vacant(nodes: Nodes, chain: seq<Ptr>, lo: nat, hi: nat, a: int, size: nat) {
    && lo <= a && a + size <= hi
    && forall x :: x in chain && x != HEAD ==>
         x in nodes && (nodes[x].start + nodes[x].size <= a || a + size <= nodes[x].start)
  }

  /** What is vacant lies in one hole. */
  lemma VacantInHole(mm: DrmMm, a: u64, size: u64)
    requires mm.Core() && size > 0
    ensures Vacant(mm.node, mm.blocks, mm.lo, mm.hi, a, size) <==>
              exists x ::
                x in mm.Holes() && x in mm.node && mm.node[x].HoleStart() <= a && a + size <= mm.node[x].HoleEnd()
  {
    hide RbTree.Valid, RbTree.Order, LinkedList.Valid, DrmMm.Core, DrmMm.Holes, Tiled;
    var q := Request(size, 0, 0, U64_MAX);
    RangeEnd(mm);
    assert Vacant(mm.node, mm.blocks, mm.lo, mm.hi, a, size) <==> FreeAt(mm.node, mm.blocks, mm.lo, mm.hi, [], a, q);
    if Vacant(mm.node, mm.blocks, mm.lo, mm.hi, a, size) {
      var x := FreeInHole(mm, q, a);
    }
    if x :| x in mm.Holes() && x in mm.node && mm.node[x].HoleStart() <= a && a + size <= mm.node[x].HoleEnd() {
      assert FitsIn(a, mm.node[x], q);
      HoleFree(mm, q, x, a);
    }
  }

  lemma RangeEnd(mm: DrmMm)
    requires mm.Core()
    ensures mm.hi <= U64_MAX
  {
    hide RbTree.Valid, RbTree.Order, LinkedList.Valid, DrmMm.Indexed, DrmMm.Intervals;
  }

  // ----- taking blocks out of the chain

  lemma {:induction false} WithoutAllTiled(nodes: Nodes, chain: seq<Ptr>, lo: nat, hi: nat, gone: seq<Ptr>)
    requires Tiled(nodes, chain, lo, hi) && Removable(chain, gone)
    ensures Tiled(nodes, WithoutAll(chain, gone), lo, hi)
    ensures forall x :: x in WithoutAll(chain, gone) <==> x in chain && x !in gone
    decreases |gone|
  {
    hide Tiled;
    HeadFirst(nodes, chain, lo, hi);
    WithoutAllElements(chain, gone);
    if gone != [] {
      var gone', e := gone[..|gone| - 1], gone[|gone| - 1];
      assert Removable(chain, gone') && e in gone && e !in gone';
      WithoutAllTiled(nodes, chain, lo, hi, gone');
      OneTiled(nodes, WithoutAll(chain, gone'), lo, hi, e);
    }
  }

  lemma OneTiled(nodes: Nodes, chain: seq<Ptr>, lo: nat, hi: nat, e: Ptr)
    requires Tiled(nodes, chain, lo, hi) && e in chain && e != HEAD
    ensures Tiled(nodes, Without(chain, e), lo, hi)
  {
    hide Tiled;
    HeadFirst(nodes, chain, lo, hi);
    TiledDomain(nodes, chain, lo, hi);
    ShrunkWithout(chain, IndexOf(chain, e));
    RemoveTiled(nodes, nodes, chain, Without(chain, e), lo, hi, IndexOf(chain, e));
  }

  /** Clear of the blocks that stay. */
  lemma ClearWithout(nodes: Nodes, chain: seq<Ptr>, gone: seq<Ptr>, rest: seq<Ptr>, a: int, e: int)
    requires forall x :: x in rest <==> x in chain && x !in gone
    ensures Clear(nodes, chain, gone, a, e) <==> Clear(nodes, rest, [], a, e)
  {
  }
}
