/** The eviction scan of drm_mm.c: drm_mm_scan_init_with_range, drm_mm_scan_add_block and drm_mm_scan_remove_block. */
module EvictionScan {
  import opened KernelMath
  import opened Sequences
  import opened RbShape
  import opened RbTrees
  import opened LinkedLists
  import opened MmTiling
  import opened RangeAllocator
  import opened HoleSearch
  import opened Gaps

  /** Another aligned start on the preferred side of `start`: below it, or above it when allocating from the top. */
  ghost predicate Beyond(b: int, start: int, lo: nat, hi: nat, q: Request, high: bool) {
    && Max(lo, q.start) <= b && b + q.size <= Min(hi, q.end) && Aligned(b, q.alignment)
    && if high then start < b else b < start
  }

  /** A placement that is free once the blocks of `gone` are evicted, and the outermost one that can be reached from
      there without crossing another block. */
  ghost predicate HitOk(nodes: Nodes, chain: seq<Ptr>, lo: nat, hi: nat, gone: seq<Ptr>, start: int, q: Request,
                        high: bool) {
    && FreeAt(nodes, chain, lo, hi, gone, start, q)
    && forall b :: Beyond(b, start, lo, hi, q, high) ==>
         !Clear(nodes, chain, gone, Min(b, start), Max(b, start) + q.size)
  }

  /** Whatever is placed in the gap behind entry `j` of the blocks that stay is a hit. */
  lemma GapHit(nodes: Nodes, chain: seq<Ptr>, rest: seq<Ptr>, lo: nat, hi: nat, gone: seq<Ptr>, j: nat, q: Request,
               high: bool, gapStart: u64, gapEnd: u64, r: Option<u64>)
    requires Tiled(nodes, rest, lo, hi) && (forall x :: x in rest ==> x in nodes)
    requires (forall x :: x in rest <==> x in chain && x !in gone)
    requires j < |rest| && gapStart == nodes[rest[j]].HoleStart() && gapEnd == NextStart(nodes, rest, j)
    requires q.size > 0 && r == AdjustedStart(gapStart, gapEnd, q.start, q.end, q.size, q.alignment, high) && r.Some?
    ensures HitOk(nodes, chain, lo, hi, gone, r.value, q, high)
    ensures gapStart <= r.value && r.value + q.size <= gapEnd
  {
    hide Tiled, AdjustedStart, Clear;
    var start := r.value;
    AdjustedStartExact(gapStart, gapEnd, q.start, q.end, q.size, q.alignment, high, 0);
    HoleBounds(nodes, rest, lo, hi, j);
    GapClear(nodes, rest, lo, hi, j, start, start + q.size);
    ClearWithout(nodes, chain, gone, rest, start, start + q.size);
    forall b | Beyond(b, start, lo, hi, q, high)
      ensures !Clear(nodes, chain, gone, Min(b, start), Max(b, start) + q.size)
    {
      var a, e := Min(b, start), Max(b, start) + q.size;
      ClearWithout(nodes, chain, gone, rest, a, e);
      if Clear(nodes, rest, [], a, e) {
        var i := GapOf(nodes, rest, lo, hi, a, e);
        SameGap(nodes, rest, lo, hi, i, j, a, e, start, start + q.size);
        AdjustedStartExact(gapStart, gapEnd, q.start, q.end, q.size, q.alignment, high, b);
      }
    }
  }

  /** If the gap around `n` admits nothing, taking `n` out frees no placement at all. */
  lemma GapMiss(nodes: Nodes, chain: seq<Ptr>, rest: seq<Ptr>, lo: nat, hi: nat, gone: seq<Ptr>, n: Ptr, j: nat,
                q: Request, high: bool, gapStart: u64, gapEnd: u64, a: int)
    requires Tiled(nodes, rest, lo, hi) && (forall x :: x in rest ==> x in nodes)
    requires forall x :: x in rest <==> x in chain && x !in gone + [n]
    requires j < |rest| && gapStart == nodes[rest[j]].HoleStart() && gapEnd == NextStart(nodes, rest, j)
    requires n in nodes && gapStart <= nodes[n].start && nodes[n].start + nodes[n].size <= gapEnd
    requires q.size > 0 && AdjustedStart(gapStart, gapEnd, q.start, q.end, q.size, q.alignment, high).None?
    requires FreeAt(nodes, chain, lo, hi, gone + [n], a, q)
    ensures FreeAt(nodes, chain, lo, hi, gone, a, q)
  {
    hide Tiled, AdjustedStart;
    ClearWithout(nodes, chain, gone + [n], rest, a, a + q.size);
    if Overlaps(nodes[n], a, a + q.size) {
      var i := GapOf(nodes, rest, lo, hi, a, a + q.size);
      SameGap(nodes, rest, lo, hi, i, j, a, a + q.size, nodes[n].start, nodes[n].start + nodes[n].size);
      AdjustedStartExact(gapStart, gapEnd, q.start, q.end, q.size, q.alignment, high, a);
    }
  }

  lemma HitFrame(nodes: Nodes, nodes': Nodes, chain: seq<Ptr>, lo: nat, hi: nat, gone: seq<Ptr>, start: int, q: Request,
                 high: bool)
    requires HitOk(nodes, chain, lo, hi, gone, start, q, high) && SameBlocks(nodes, nodes', chain)
    requires forall x :: x in chain ==> x in nodes
    ensures HitOk(nodes', chain, lo, hi, gone, start, q, high)
  {
  }

  /** Adding an entry back behind its old neighbour. */
  lemma InsertBack(s: seq<Ptr>, i: nat)
    requires Unique(s) && 0 < i < |s|
    ensures s[i - 1] in Without(s, s[i]) && s[i] !in Without(s, s[i])
    ensures InsertAt(Without(s, s[i]), IndexOf(Without(s, s[i]), s[i - 1]) + 1, s[i]) == s
  {
    hide Without, IndexOf, Unique;
    var w := Without(s, s[i]);
    WithoutAt(s, i);
    WithoutUnique(s, s[i]);
    assert w[i - 1] == s[i - 1];
    IndexUnique(w, i - 1);
    SplitBack(s, i);
  }

  lemma SplitBack(s: seq<Ptr>, i: nat)
    requires i < |s|
    ensures InsertAt(s[..i] + s[i + 1..], i, s[i]) == s
  {
  }

  /** `[a, e)` lies in the gap between the neighbours of `n`, from the end of the one in front of it to the start of the
      one behind it. */
  ghost predicate InGap(nodes: Nodes, chain: seq<Ptr>, n: Ptr, a: int, e: int) {
    && n in chain
    && var i := IndexOf(chain, n);
       && Pred(chain, i) in nodes && nodes[Pred(chain, i)].HoleStart() <= a
       && Succ(chain, i) in nodes && e <= nodes[Succ(chain, i)].start
  }

  /** The ring around a block that is about to be unlinked, and the gap that opens. */
  lemma OpenGap(nodes: Nodes, chain: seq<Ptr>, lo: nat, hi: nat, n: Ptr)
    requires Tiled(nodes, chain, lo, hi) && n in chain && n != HEAD && (forall x :: x in chain ==> x in nodes)
    ensures Unique(chain) && chain[0] == HEAD
    ensures var i, rest := IndexOf(chain, n), Without(chain, n);
            var p := Pred(chain, i);
            && p in chain && p in rest && Succ(chain, IndexOf(chain, p)) == n
            && Succ(rest, IndexOf(rest, p)) == Succ(chain, i) && Succ(chain, i) in chain
            && nodes[p].HoleStart() <= nodes[n].start && nodes[n].start + nodes[n].size <= nodes[Succ(chain, i)].start
  {
    hide Without, Tiled;
    var i := IndexOf(chain, n);
    RemoveStart(nodes, chain, lo, hi, i, n);
    HoleBounds(nodes, chain, lo, hi, i - 1);
    HoleBounds(nodes, chain, lo, hi, i);
    IndexUnique(chain, i - 1);
  }

  class Scan {
    const mm: DrmMm
    const q: Request
    const mode: Mode
    var hitStart: u64
    var hitEnd: u64
    /** The blocks on the scan list, in the order in which they were added. */
    ghost var taken: seq<Ptr>
    /** The blocks that were on it at the last hit. */
    ghost var hitGone: seq<Ptr>
    /** The node list before the scan. */
    ghost const links: ListMem

    ghost predicate NoHit()
      reads this
    {
      hitStart == U64_MAX && hitEnd == 0
    }

    /** The node list lacks exactly the scanned blocks, which still hold the links to put them back. */
    ghost predicate Detached()
      reads this, mm, mm.nodeList
    {
      && Linked(links, mm.blocks) && mm.blocks[0] == HEAD && Removable(mm.blocks, taken)
      && mm.nodeList.Valid() && mm.nodeList.head == HEAD
      && mm.nodeList.mem == UnlinkAll(links, taken) && mm.nodeList.chain == WithoutAll(mm.blocks, taken)
    }

    ghost predicate Marked()
      reads this, mm
    {
      && mm.scanActive == |taken|
      && forall x :: x in mm.blocks ==> x in mm.node && (mm.node[x].scannedBlock <==> x in taken)
    }

    ghost predicate Hits()
      reads this, mm
    {
      NoHit() || (hitEnd == hitStart + q.size
                  && HitOk(mm.node, mm.blocks, mm.lo, mm.hi, hitGone, hitStart, q, mode.High?))
    }

    ghost predicate Active()
      reads this, mm, mm.nodeList, mm.holeStack, mm.intervalTree, mm.holesSize, mm.holesAddr
    {
      mm.Core() && q.start < q.end && 0 < q.size <= q.end - q.start && Detached() && Marked() && Hits()
    }

    /** drm_mm_scan_init_with_range. */
    constructor (mm: DrmMm, q: Request, mode: Mode)
      requires mm.Valid() && q.start < q.end && 0 < q.size <= q.end - q.start
      ensures Active() && taken == [] && NoHit() && this.mm == mm && this.q == q && this.mode == mode
      ensures links == mm.nodeList.mem
    {
      this.mm, this.q, this.mode := mm, q, mode;
      hitStart, hitEnd := U64_MAX, 0;
      taken, hitGone, links := [], [], mm.nodeList.mem;
      new;
      InitDetached();
    }

    lemma InitDetached()
      requires mm.Valid() && taken == [] && links == mm.nodeList.mem
      ensures Detached() && Marked()
    {
      hide RbTree.Valid, RbTree.Order, DrmMm.Core;
      TiledCore(mm);
    }

    /** Once every block was put back, the allocator is what it was before the scan. */
    lemma Finished()
      requires Active() && taken == []
      ensures mm.Valid() && mm.nodeList.mem == links
    {
      hide RbTree.Valid, RbTree.Order, DrmMm.Core;
    }
  
    /** The node list during a scan still tiles the range. */
    lemma DetachedTiled()
      requires mm.Core() && Detached()
      ensures var chain := mm.nodeList.chain;
              && Tiled(mm.node, chain, mm.lo, mm.hi) && (forall x :: x in chain ==> x in mm.node)
              && forall x :: x in chain <==> x in mm.blocks && x !in taken
    {
      hide RbTree.Valid, RbTree.Order, LinkedList.Valid, DrmMm.Core, Tiled, Removable, WithoutAll, UnlinkAll, Linked;
      TiledCore(mm);
      WithoutAllTiled(mm.node, mm.blocks, mm.lo, mm.hi, taken);
    }

    lemma AddReady(n: Ptr)
      requires mm.Core() && Detached() && n in mm.blocks && n != HEAD && n !in taken
      ensures n in mm.nodeList.chain && n in mm.node
      ensures Tiled(mm.node, mm.nodeList.chain, mm.lo, mm.hi) && forall x :: x in mm.nodeList.chain ==> x in mm.node
      ensures Removable(mm.blocks, taken + [n])
      ensures WithoutAll(mm.blocks, taken + [n]) == Without(mm.nodeList.chain, n)
      ensures var m := mm.nodeList.mem; n in m.next && n in m.prev && UnlinkAll(links, taken + [n]) == Unlink(m, n)
    {
      hide RbTree.Valid, RbTree.Order, DrmMm.Core, Tiled, Without;
      DetachedTiled();
      TiledCore(mm);
      assert (taken + [n])[..|taken|] == taken;
      var i := IndexOf(mm.nodeList.chain, n);
      assert LinkAt(mm.nodeList.mem, mm.nodeList.chain, i);
    }

    /** drm_mm_scan_add_block: finds a placement exactly if the gap that opens around the block admits one. */
    method AddBlock(n: Ptr) returns (found: bool)
      requires Active() && n in mm.blocks && n != HEAD && n !in taken
      modifies this, mm`node, mm`scanActive, mm.nodeList
      ensures Active() && taken == old(taken) + [n]
      ensures SameOthers(old(mm.node), mm.node, n) && SameBlocks(old(mm.node), mm.node, mm.blocks)
      ensures found ==> !NoHit() && hitGone == taken
      ensures found ==> InGap(old(mm.node), old(mm.nodeList.chain), n, hitStart, hitEnd)
      ensures !found ==> hitStart == old(hitStart) && hitEnd == old(hitEnd) && hitGone == old(hitGone)
      ensures !found ==> forall a :: FreeAt(mm.node, mm.blocks, mm.lo, mm.hi, taken, a, q) ==>
                           FreeAt(mm.node, mm.blocks, mm.lo, mm.hi, old(taken), a, q)
    {
      hide RbTree.Valid, RbTree.Order, LinkedList.Valid, DrmMm.Core, Tiled;
      hide HitOk, FreeAt, Without, WithoutAll, UnlinkAll;
      hide Removable, Linked, IndexOf, Succ, Pred, Unique, AdjustedStart;
      ghost var nodes, chain := mm.node, mm.nodeList.chain;
      assert !mm.node[n].scannedBlock;
      AddReady(n);
      OpenGap(nodes, chain, mm.lo, mm.hi, n);
      TiledCore(mm);
      mm.Mark(n, true, mm.scanActive + 1);
      taken := taken + [n];
      var hole := mm.nodeList.Prev(n);
      assert mm.nodeList.Next(hole) == n;
      mm.nodeList.DelEntry(n);
      var next := mm.nodeList.Next(hole);
      var holeStart: u64, holeEnd: u64 := mm.node[hole].HoleStart(), mm.node[next].start;
      var r := AdjustedStart(holeStart, holeEnd, q.start, q.end, q.size, q.alignment, mode.High?);
      AddOutcome(n, hole, holeStart, holeEnd, r);
      KeepHit(nodes);
      found := r.Some?;
      if r.Some? {
        hitStart := r.value;
        hitEnd := Add64(hitStart, q.size);
        hitGone := taken;
        assert hitStart < hitEnd && holeStart <= hitStart && hitEnd <= holeEnd;
      }
    }

    lemma AddOutcome(n: Ptr, hole: Ptr, holeStart: u64, holeEnd: u64, r: Option<u64>)
      requires mm.Core() && Detached() && q.size > 0 && taken != [] && n == taken[|taken| - 1]
      requires n in mm.node && hole in mm.nodeList.chain && hole in mm.node && mm.nodeList.Next(hole) in mm.node
      requires holeStart == mm.node[hole].HoleStart() && holeEnd == mm.node[mm.nodeList.Next(hole)].start
      requires holeStart <= mm.node[n].start && mm.node[n].start + mm.node[n].size <= holeEnd
      requires r == AdjustedStart(holeStart, holeEnd, q.start, q.end, q.size, q.alignment, mode.High?)
      ensures r.Some? ==> HitOk(mm.node, mm.blocks, mm.lo, mm.hi, taken, r.value, q, mode.High?)
                          && holeStart <= r.value && r.value + q.size <= holeEnd
      ensures r.None? ==> forall a :: FreeAt(mm.node, mm.blocks, mm.lo, mm.hi, taken, a, q) ==>
                            FreeAt(mm.node, mm.blocks, mm.lo, mm.hi, taken[..|taken| - 1], a, q)
    {
      hide RbTree.Valid, RbTree.Order, LinkedList.Valid, DrmMm.Core, Tiled, HitOk, FreeAt, WithoutAll, UnlinkAll;
      hide Removable, Linked, Unique, AdjustedStart;
      DetachedTiled();
      var rest := mm.nodeList.chain;
      var j, before := IndexOf(rest, hole), taken[..|taken| - 1];
      assert taken == before + [n];
      if r.Some? {
        GapHit(mm.node, mm.blocks, rest, mm.lo, mm.hi, taken, j, q, mode.High?, holeStart, holeEnd, r);
      } else {
        forall a | FreeAt(mm.node, mm.blocks, mm.lo, mm.hi, taken, a, q)
          ensures FreeAt(mm.node, mm.blocks, mm.lo, mm.hi, before, a, q)
        {
          GapMiss(mm.node, mm.blocks, rest, mm.lo, mm.hi, before, n, j, q, mode.High?, holeStart, holeEnd, a);
        }
      }
    }

    /** Scan marks do not matter to a hit. */
    lemma KeepHit(nodes: Nodes)
      requires (forall x :: x in mm.blocks ==> x in nodes) && SameBlocks(nodes, mm.node, mm.blocks)
      ensures HitOk(nodes, mm.blocks, mm.lo, mm.hi, hitGone, hitStart, q, mode.High?) ==>
                HitOk(mm.node, mm.blocks, mm.lo, mm.hi, hitGone, hitStart, q, mode.High?)
    {
      hide HitOk, SameBlocks;
      if HitOk(nodes, mm.blocks, mm.lo, mm.hi, hitGone, hitStart, q, mode.High?) {
        HitFrame(nodes, mm.node, mm.blocks, mm.lo, mm.hi, hitGone, hitStart, q, mode.High?);
      }
    }
  
    lemma RemoveReady()
      requires mm.Core() && Detached() && taken != []
      ensures var n, m, before := taken[|taken| - 1], mm.nodeList.mem, taken[..|taken| - 1];
              && n in m.prev && n in m.next && m.prev[n] in m.next && m.next[m.prev[n]] == m.next[n]
              && m.prev[n] in mm.nodeList.chain && n !in mm.nodeList.chain && n in mm.blocks && n in mm.node
              && AddAfter(m, n, m.prev[n]) == UnlinkAll(links, before)
              && InsertAt(mm.nodeList.chain, IndexOf(mm.nodeList.chain, m.prev[n]) + 1, n)
                 == WithoutAll(mm.blocks, before)
              && Removable(mm.blocks, before) && n !in before
              && mm.node[n].HoleStart() == mm.node[n].start + mm.node[n].size
    {
      hide RbTree.Valid, RbTree.Order, DrmMm.Core, Tiled, Without, IndexOf;
      var n, m, before := taken[|taken| - 1], mm.nodeList.mem, taken[..|taken| - 1];
      assert taken == before + [n];
      TiledCore(mm);
      RelinkLast(links, mm.blocks, taken);
      BlockEnd(mm.node, mm.blocks, mm.lo, mm.hi, n);
      UnlinkAllLinked(links, mm.blocks, before);
      WithoutAllElements(mm.blocks, before);
      var r := WithoutAll(mm.blocks, before);
      var i := IndexOf(r, n);
      assert LinkAt(UnlinkAll(links, before), r, i);
      InsertBack(r, i);
      assert m.prev[n] == r[i - 1];
    }

    /** drm_mm_scan_remove_block, for the last block added: its links are restored, and it is to be evicted exactly if
        it overlaps the hit. */
    method RemoveBlock(n: Ptr) returns (evict: bool)
      requires Active() && taken != [] && n == taken[|taken| - 1]
      modifies this`taken, mm`node, mm`scanActive, mm.nodeList
      ensures Active() && taken == old(taken)[..|old(taken)| - 1]
      ensures SameOthers(old(mm.node), mm.node, n) && SameBlocks(old(mm.node), mm.node, mm.blocks)
      ensures n in mm.node && (evict <==> !NoHit() && Overlaps(mm.node[n], hitStart, hitEnd))
    {
      hide RbTree.Valid, RbTree.Order, LinkedList.Valid, DrmMm.Core, Tiled, HitOk, Without, WithoutAll, UnlinkAll;
      hide Removable, Linked, IndexOf, Succ, Pred, Unique, AddAfter, InsertAt, Unlink;
      ghost var nodes := mm.node;
      assert n in taken && n in mm.blocks && mm.node[n].scannedBlock && mm.scanActive > 0 by { RemoveReady(); }
      RemoveReady();
      TiledCore(mm);
      mm.Mark(n, false, mm.scanActive - 1);
      var prev := mm.nodeList.mem.prev[n];
      assert mm.nodeList.mem.next[prev] == mm.nodeList.mem.next[n];
      taken := taken[..|taken| - 1];
      mm.nodeList.Add(n, prev);
      KeepHit(nodes);
      evict := mm.node[n].HoleStart() > hitStart && mm.node[n].start < hitEnd;
    }
  }
}
