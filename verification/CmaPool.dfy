/** The CMA pool simulator of main.c: buffers that are paged in and out of a pool managed by drm_mm. */
module CmaPools {
  import opened KernelMath
  import opened Sequences
  import opened RbShape
  import opened RbTrees
  import opened LinkedLists
  import opened MmTiling
  import opened RangeAllocator
  import opened HoleSearch
  import opened Gaps
  import opened EvictionScan
  import opened Insertion
  import opened Eviction
  import opened CmaBuffers
  import opened CmaPaging

  /** What drm_mm_insert_node_generic asks for. */
  function InsertRequest(size: u64): Request {
    Request(size, PAGE_SIZE, 0, U64_MAX)
  }

  lemma PlacedStart(nodes: Nodes, nodes': Nodes, blocks: seq<Ptr>, n: Ptr, start: u64, size: u64)
    requires Placed(nodes, nodes', blocks, n, start, size)
    ensures n in nodes' && nodes'[n].start == start
  {
  }

  class CmaPool {
    const mm: DrmMm
    /** The memory of all buffers, by address. */
    var buffers: Buffers
    var allBuffers: seq<Ptr>
    /** The paged-in buffers, most recently used first. */
    var mru: seq<Ptr>
    var overflow: u64

    ghost predicate Tables()
      reads this
    {
      Known(buffers, allBuffers, mru) && Counted(buffers, allBuffers, overflow)
    }

    ghost predicate Valid()
      reads this, mm, mm.nodeList, mm.holeStack, mm.intervalTree, mm.holesSize, mm.holesAddr
    {
      mm.Valid() && mm.lo == 0 && mm.hi == POOL_SIZE && Tables() && InPool(buffers, mru, mm.blocks, mm.node)
    }

    ghost function State(): PoolState
      reads this, mm, mm.holeStack
    {
      PoolState(buffers, mru, mm.blocks, mm.node, if mm.holeStack.chain == [] then [] else mm.holeStack.chain[1..])
    }

    /** main, up to the first command. */
    constructor ()
      ensures Valid() && buffers == map[] && fresh(mm)
      ensures fresh(mm.nodeList) && fresh(mm.holeStack) && fresh(mm.intervalTree) && fresh(mm.holesSize)
      ensures fresh(mm.holesAddr)
    {
      hide RbTree.Valid, RbTree.Order, LinkedList.Valid, DrmMm.Valid, DrmMm.Core;
      mm := new DrmMm(0, POOL_SIZE);
      buffers, allBuffers, mru, overflow := map[], [], [], 0;
    }

    lemma ValidParts()
      requires Valid()
      ensures mm.Core() && Unique(mm.blocks) && (forall x :: x in mm.blocks ==> x in mm.node)
      ensures mm.blocks != [] && mm.blocks[0] == HEAD
      ensures Tiled(mm.node, mm.blocks, 0, POOL_SIZE)
    {
      hide RbTree.Valid, RbTree.Order, LinkedList.Valid, DrmMm.Core, Known, InPool;
      TiledCore(mm);
    }

    /** `x` is in front of the most recent hole. */
    ghost predicate TopIs(x: Ptr)
      reads mm, mm.holeStack
    {
      mm.holeStack.Valid() && mm.holeStack.Items() != [] && mm.holeStack.Items()[0] == x
    }

    /** remove_buffer_from_pool. */
    method RemoveFromPool(b: Ptr)
      requires Valid() && b in mru
      modifies this, mm, mm.nodeList, mm.holeStack, mm.intervalTree, mm.holesSize, mm.holesAddr
      ensures Valid() && allBuffers == old(allBuffers) && mru == Without(old(mru), b)
      ensures b in old(buffers) && buffers == old(buffers)[b := old(buffers[b]).(pagedIn := false)]
      ensures mm.blocks == Without(old(mm.blocks), b) && Removed(old(mm.node), mm.node, old(mm.blocks), b)
      ensures TopIs(InFront(old(mm.blocks), b)) && Freed(old(State()), State(), b)
    {
      hide RbTree.Valid, RbTree.Order, LinkedList.Valid, DrmMm.Core, DrmMm.Valid;
      hide Removed, Without, Counted, Unique, Tiled;
      ghost var nodes := mm.node;
      ValidParts();
      StackItems();
      PagedOutTables(buffers, allBuffers, mru, overflow, b);
      mm.RemoveNode(b);
      PagedOutBlocks(buffers, mru, old(mm.blocks), nodes, mm.node, b);
      mru := Without(mru, b);
      buffers := buffers[b := buffers[b].(pagedIn := false)];
      overflow := Add64(overflow, buffers[b].size);
      ValidParts();
      StackItems();
    }
  
    /** find_buffer. */
    method FindBuffer(name: u32) returns (b: Ptr)
      requires Tables()
      ensures b != NULL ==> b in buffers && buffers[b].name == name && Named(buffers, b, name)
      ensures b == NULL ==> forall x :: x in buffers ==> buffers[x].name != name
    {
      var i := 0;
      while i < |allBuffers|
        invariant i <= |allBuffers|
        invariant forall j :: 0 <= j < i ==> allBuffers[j] in buffers && buffers[allBuffers[j]].name != name
      {
        b := allBuffers[i];
        assert b in allBuffers;
        if buffers[b].name == name {
          return;
        }
        i := i + 1;
      }
      b := NULL;
    }

    /** free_buffer: the buffer disappears from the pool, both lists and the overflow count. */
    method FreeBuffer(b: Ptr)
      requires Valid() && b in buffers
      modifies this, mm, mm.nodeList, mm.holeStack, mm.intervalTree, mm.holesSize, mm.holesAddr
      ensures Valid() && buffers == old(buffers) - {b} && allBuffers == Without(old(allBuffers), b)
      ensures mru == Without(old(mru), b) && Freed(old(State()), State(), b)
      ensures forall x :: x in mru ==> SamePlace(old(mm.node), mm.node, x)
    {
      hide RbTree.Valid, RbTree.Order, LinkedList.Valid, DrmMm.Core, DrmMm.Valid;
      hide Removed, Without, Counted, Unique, Tiled;
      hide Known, Freed, InPool, SamePlace;
      ghost var s, nodes, blocks, mru0, bufs := State(), mm.node, mm.blocks, mru, buffers;
      ValidParts();
      KnownBuffer(buffers, allBuffers, mru, b);
      if buffers[b].pagedIn {
        RemoveFromPool(b);
        PagedOutBlocks(bufs, mru0, blocks, nodes, mm.node, b);
        WithoutUnique(mru0, b);
        assert buffers - {b} == bufs - {b};
      } else {
        WithoutAbsent(mru, b);
        AllPlaced(buffers, mru, mm.blocks, mm.node);
      }
      FreedState(s, State(), State().(buffers := buffers - {b}), b);
      ForgottenPool(buffers, mru, mm.blocks, mm.node, b);
      ForgottenTables(buffers, allBuffers, mru, overflow, b);
      allBuffers := Without(allBuffers, b);
      overflow := Sub64(overflow, buffers[b].size);
      buffers := buffers - {b};
    }

    /** free_buffers: one hole is left, and nothing is counted as paged out. */
    method FreeBuffers()
      requires Valid()
      modifies this, mm, mm.nodeList, mm.holeStack, mm.intervalTree, mm.holesSize, mm.holesAddr
      ensures Valid() && buffers == map[] && allBuffers == [] && mru == [] && overflow == 0
      ensures mm.blocks == [HEAD] && HEAD in mm.node && mm.node[HEAD].HoleStart() == 0
      ensures mm.node[HEAD].holeSize == POOL_SIZE
    {
      hide RbTree.Valid, RbTree.Order, LinkedList.Valid, DrmMm.Core, DrmMm.Valid;
      hide Without, Counted, Unique, Tiled, InPool;
      while allBuffers != []
        invariant Valid()
        decreases |allBuffers|
      {
        var buf := allBuffers[0];
        assert buf in allBuffers;
        WithoutUnique(allBuffers, buf);
        FreeBuffer(buf);
      }
      assert buffers == map[] by {
        assert forall x :: x in buffers ==> x in allBuffers;
      }
      EmptyPool();
    }

    lemma EmptyPool()
      requires Valid() && allBuffers == [] && buffers == map[]
      ensures mru == [] && overflow == 0
      ensures mm.blocks == [HEAD] && HEAD in mm.node && mm.node[HEAD].HoleStart() == 0
      ensures mm.node[HEAD].holeSize == POOL_SIZE
    {
      hide RbTree.Valid, RbTree.Order, LinkedList.Valid, DrmMm.Core, DrmMm.Valid, Tiled;
      FirstTwo(mru);
      ValidParts();
      FirstTwo(mm.blocks);
      TiledCore(mm);
      HoleBounds(mm.node, mm.blocks, 0, POOL_SIZE, 0);
      assert HoleSizeAt(mm.node, mm.blocks, 0);
    }

    /** insert_buffer_in_cma_pool. */
    method InsertInPool(b: Ptr, mode: Mode) returns (ok: bool, ghost hole: Ptr, ghost start: u64)
      requires Valid() && b in buffers && !buffers[b].pagedIn
      modifies this, mm, mm.nodeList, mm.holeStack, mm.intervalTree, mm.holesSize, mm.holesAddr
      ensures Valid() && allBuffers == old(allBuffers)
      ensures ok <==> !old(NoneSuits(mm, InsertRequest(buffers[b].size)))
      ensures !ok ==> unchanged(this, mm, mm.nodeList, mm.holeStack, mm.intervalTree, mm.holesSize, mm.holesAddr)
      ensures ok ==> mru == [b] + old(mru) && buffers == old(buffers)[b := old(buffers[b]).(pagedIn := true)]
      ensures ok ==> old(Preferred(mm, InsertRequest(buffers[b].size), mode, hole, start))
      ensures ok ==> b in mm.node && mm.node[b].start == start
      ensures ok ==> InsertedAt(old(mm.node), mm.node, old(mm.blocks), mm.blocks, old(State()).stack, State().stack,
                                hole, b, start, old(buffers[b]).size)
      ensures ok ==> forall x :: x in old(mru) ==>
                SamePlace(old(mm.node), mm.node, x)
    {
      hide RbTree.Valid, RbTree.Order, LinkedList.Valid, DrmMm.Core, DrmMm.Valid, Counted, Unique, Tiled, NoneSuits;
      hide InsertAt, PlacedStack, Known, Preferred, FitsIn, Placed;
      ghost var nodes, blocks := mm.node, mm.blocks;
      ValidParts();
      KnownBuffer(buffers, allBuffers, mru, b);
      StackItems();
      ok, hole, start := InsertNodeInRange(mm, b, InsertRequest(buffers[b].size), mode, false);
      if !ok {
        return;
      }
      StackNow();
      PlacedStart(nodes, mm.node, blocks, b, start, buffers[b].size);
      PagedInTables(buffers, allBuffers, mru, overflow, b);
      PagedInBlocks(buffers, mru, blocks, nodes, mm.node, b, IndexOf(blocks, hole) + 1, start);
      mru := [b] + mru;
      buffers := buffers[b := buffers[b].(pagedIn := true)];
      overflow := Sub64(overflow, buffers[b].size);
    }
  
    /** remove_buffer_from_pool on a buffer that may be paged out. */
    method Evict(b: Ptr, ghost bufs: Buffers, ghost list: seq<Ptr>, ghost nodes: Nodes)
      requires Valid() && b in mru && b in buffers && !buffers[b].inUse && !buffers[b].unmoveable
      requires Evicted(bufs, buffers, list, mru, nodes, mm.node)
      modifies this, mm, mm.nodeList, mm.holeStack, mm.intervalTree, mm.holesSize, mm.holesAddr
      ensures Valid() && allBuffers == old(allBuffers) && mru == Without(old(mru), b)
      ensures buffers.Keys == old(buffers.Keys) && forall x :: x in buffers && x != b ==> buffers[x] == old(buffers)[x]
      ensures mm.blocks == Without(old(mm.blocks), b) && Removed(old(mm.node), mm.node, old(mm.blocks), b)
      ensures TopIs(InFront(old(mm.blocks), b))
      ensures Evicted(bufs, buffers, list, mru, nodes, mm.node)
    {
      hide RbTree.Valid, RbTree.Order, LinkedList.Valid, DrmMm.Core, DrmMm.Valid;
      hide Removed, Without, Counted, Unique, Tiled;
      hide Known, InPool, Evicted;
      ghost var bufs1, mru1, nodes1, blocks1 := buffers, mru, mm.node, mm.blocks;
      ValidParts();
      KnownBuffer(buffers, allBuffers, mru, b);
      RemoveFromPool(b);
      PagedOutBlocks(bufs1, mru1, blocks1, nodes1, mm.node, b);
      EvictedOne(bufs1, buffers, allBuffers, mru1, nodes1, mm.node, blocks1, b);
      EvictedTwice(bufs, bufs1, buffers, list, mru1, mru, nodes, nodes1, mm.node);
    }

    /** userspace_cache_purge: pages out exactly the idle buffers marked as not needed. */
    method Purge()
      requires Valid()
      modifies this, mm, mm.nodeList, mm.holeStack, mm.intervalTree, mm.holesSize, mm.holesAddr
      ensures Valid() && allBuffers == old(allBuffers)
      ensures Evicted(old(buffers), buffers, old(mru), mru, old(mm.node), mm.node)
      ensures forall x :: x in old(mru) ==>
                && x in old(buffers)
                && (x in mru <==>
                    !(old(buffers)[x].madv.DontNeed? && !old(buffers)[x].inUse && !old(buffers)[x].unmoveable))
    {
      hide RbTree.Valid, RbTree.Order, LinkedList.Valid, DrmMm.Core, DrmMm.Valid;
      hide Removed, Without, Counted, Unique, Tiled;
      hide Known, InPool, Evicted;
      ghost var bufs, list, nodes := buffers, mru, mm.node;
      EvictedSelf(buffers, allBuffers, mru, mm.blocks, mm.node);
      var i := 0;
      while i < |mru|
        invariant Valid() && allBuffers == old(allBuffers) && i <= |mru|
        invariant Evicted(bufs, buffers, list, mru, nodes, mm.node)
        invariant forall j :: 0 <= j < i ==> mru[j] in bufs && mru[j] !in PurgeableOnes(bufs)
        invariant forall x :: x in list && x !in mru ==> x in PurgeableOnes(bufs)
        decreases |mru| - i
      {
        var buf := mru[i];
        PurgeStep(bufs, list, nodes, i);
        if buffers[buf].madv.DontNeed? && !buffers[buf].inUse && !buffers[buf].unmoveable {
          WithoutAt(mru, i);
          Evict(buf, bufs, list, nodes);
        } else {
          i := i + 1;
        }
      }
    }

    lemma PurgeStep(bufs: Buffers, list: seq<Ptr>, nodes: Nodes, i: nat)
      requires Valid() && Evicted(bufs, buffers, list, mru, nodes, mm.node) && i < |mru|
      ensures mru[i] in bufs && mru[i] in buffers
      ensures mru[i] in PurgeableOnes(bufs) <==> mru[i] in PurgeableOnes(buffers)
      ensures Unique(mru)
      ensures forall x :: x in Without(mru, mru[i]) <==> x in mru && x != mru[i]
    {
      hide RbTree.Valid, RbTree.Order, LinkedList.Valid, DrmMm.Core, DrmMm.Valid, Without;
      assert mru[i] in mru;
      WithoutUnique(mru, mru[i]);
    }
  
    // ----- page_out_buffers_for_insertion

    /** A scan of this pool is under way; the tables are those of a valid pool. */
    ghost predicate Scanning(scan: Scan)
      reads this, scan, mm, mm.nodeList, mm.holeStack, mm.intervalTree, mm.holesSize, mm.holesAddr
    {
      && scan.mm == mm && scan.mode == Best && mm.lo == 0 && mm.hi == POOL_SIZE && scan.Active()
      && Tables() && InPool(buffers, mru, mm.blocks, mm.node)
    }

    lemma ScanningParts(scan: Scan)
      requires Scanning(scan)
      ensures mm.Core() && (forall x :: x in mm.blocks ==> x in mm.node)
      ensures Unique(mru) && forall x :: x in mru ==> x in mm.blocks && x != HEAD && x in buffers
    {
      hide RbTree.Valid, RbTree.Order, LinkedList.Valid, DrmMm.Core;
      TiledCore(mm);
    }

    lemma ScanStart(scan: Scan, full: bool)
      requires Scanning(scan) && scan.taken == [] && full == !Opens(mm.node, mm.blocks, 0, POOL_SIZE, [], scan.q)
      ensures SameBlocks(mm.node, mm.node, mm.blocks) && LruIdle(buffers, mru[|mru|..]) == [] && Reverse([]) == []
      ensures mru[0..] == mru && forall y :: y in mm.blocks ==> y in mm.node
      ensures full ==> Futile(mm.node, mm.blocks, scan.taken, |scan.taken| + 1, scan.q)
    {
      hide RbTree.Valid, RbTree.Order, LinkedList.Valid, DrmMm.Core, Scan.Active, Opens;
      ScanningParts(scan);
    }

    lemma ScanNext(scan: Scan, i: nat)
      requires Scanning(scan) && i < |mru| && scan.taken == LruIdle(buffers, mru[i + 1..])
      ensures mru[i] !in scan.taken && mru[i] in mm.blocks && mru[i] != HEAD
    {
      hide RbTree.Valid, RbTree.Order, LinkedList.Valid, DrmMm.Core, Scan.Active;
      ScanningParts(scan);
      LastFirstElements(mru[i + 1..], IdleOnes(buffers));
      assert mru[i] in mru;
    }

    lemma ScanStep(scan: Scan, nodes: Nodes, nodes1: Nodes, taken: seq<Ptr>, x: Ptr, found: bool, full: bool)
      requires scan.mm == mm && scan.mode == Best && mm.lo == 0 && mm.hi == POOL_SIZE && scan.Active()
      requires Tables() && InPool(buffers, mru, mm.blocks, nodes1) && SameBlocks(nodes1, mm.node, mm.blocks)
      requires SameBlocks(nodes, nodes1, mm.blocks) && forall y :: y in mm.blocks ==> y in nodes1 && y in nodes
      requires scan.taken == taken + [x]
      requires !found ==> forall a :: FreeAt(mm.node, mm.blocks, 0, POOL_SIZE, scan.taken, a, scan.q) ==>
                            FreeAt(mm.node, mm.blocks, 0, POOL_SIZE, taken, a, scan.q)
      requires full ==> Futile(nodes1, mm.blocks, taken, |taken| + 1, scan.q)
      ensures Scanning(scan) && SameBlocks(nodes, mm.node, mm.blocks)
      ensures Reverse(scan.taken) == [x] + Reverse(taken)
      ensures full ==> Futile(mm.node, mm.blocks, scan.taken, if found then |scan.taken| else |scan.taken| + 1, scan.q)
    {
      hide RbTree.Valid, RbTree.Order, LinkedList.Valid, DrmMm.Core, Scan.Active, FreeAt, Futile;
      hide Known, InPool, Counted, SameBlocks, Reverse;
      InPoolFrame(buffers, mru, mm.blocks, nodes1, mm.node);
      SameBlocksTwice(nodes, nodes1, mm.node, mm.blocks);
      ReverseAppend(taken, x);
      if full {
        FutileStep(nodes1, mm.node, mm.blocks, taken, x, scan.q, found);
      }
    }

    lemma ScanOldest(scan: Scan)
      requires Scanning(scan) && scan.taken <= LruIdle(buffers, mru)
      ensures LeastRecent(buffers, mru, [], scan.taken)
      ensures scan.taken == LruIdle(buffers, mru) ==>
                forall x :: x in mru && x !in scan.taken ==> x in buffers && (buffers[x].inUse || buffers[x].unmoveable)
    {
      hide RbTree.Valid, RbTree.Order, LinkedList.Valid, DrmMm.Core, Scan.Active, LastFirst, LeastRecent;
      ScanningParts(scan);
      LastFirstElements(mru, IdleOnes(buffers));
      assert IdleOnes(buffers) - Elements([]) == IdleOnes(buffers);
      PrefixLeastRecent(buffers, mru, [], scan.taken);
    }

    /** The first loop: idle buffers join the scan, least recently used first, until a gap opens. */
    method ScanIdle(scan: Scan) returns (found: bool, evictionList: seq<Ptr>)
      requires Scanning(scan) && scan.taken == [] && scan.NoHit()
      modifies scan, mm`node, mm`scanActive, mm.nodeList
      ensures Scanning(scan) && SameBlocks(old(mm.node), mm.node, mm.blocks)
      ensures evictionList == Reverse(scan.taken) && scan.taken <= LruIdle(buffers, mru)
      ensures found ==> !scan.NoHit() && scan.hitGone == scan.taken
      ensures !found ==> scan.NoHit() && scan.taken == LruIdle(buffers, mru)
      ensures LeastRecent(buffers, mru, [], scan.taken)
      ensures !found ==> forall x :: x in mru && x !in scan.taken ==>
                x in buffers && (buffers[x].inUse || buffers[x].unmoveable)
      ensures !old(Opens(mm.node, mm.blocks, 0, POOL_SIZE, [], scan.q)) ==>
                Futile(mm.node, mm.blocks, scan.taken, if found then |scan.taken| else |scan.taken| + 1, scan.q)
    {
      hide RbTree.Valid, RbTree.Order, LinkedList.Valid, DrmMm.Core, Scan.Active;
      hide Unique, Futile, Opens, FreeAt, SameBlocks;
      hide Known, InPool, Counted;
      found, evictionList := false, [];
      ghost var nodes := mm.node;
      ghost var full := !Opens(mm.node, mm.blocks, 0, POOL_SIZE, [], scan.q);
      ScanStart(scan, full);
      var i := |mru|;
      while i > 0
        invariant 0 <= i <= |mru| && Scanning(scan) && scan.NoHit() && SameBlocks(nodes, mm.node, mm.blocks)
        invariant forall y :: y in mm.blocks ==> y in nodes
        invariant scan.taken == LruIdle(buffers, mru[i..]) && evictionList == Reverse(scan.taken)
        invariant full ==> Futile(mm.node, mm.blocks, scan.taken, |scan.taken| + 1, scan.q)
      {
        i := i - 1;
        var buffer := mru[i];
        LastFirstStep(mru, IdleOnes(buffers), i);
        ScanningParts(scan);
        assert buffer in mru;
        if buffers[buffer].inUse || buffers[buffer].unmoveable {
          continue;
        }
        evictionList := [buffer] + evictionList;
        ScanNext(scan, i);
        ghost var nodes1, taken := mm.node, scan.taken;
        found := scan.AddBlock(buffer);
        ScanStep(scan, nodes, nodes1, taken, buffer, found, full);
        if found {
          break;
        }
      }
      LastFirstPrefix(mru, IdleOnes(buffers), i);
      ScanOldest(scan);
    }
  
    lemma Unmarked(scan: Scan, nodes1: Nodes)
      requires scan.mm == mm && scan.mode == Best && mm.lo == 0 && mm.hi == POOL_SIZE && scan.Active()
      requires Tables() && InPool(buffers, mru, mm.blocks, nodes1) && SameBlocks(nodes1, mm.node, mm.blocks)
      ensures Scanning(scan)
    {
      hide RbTree.Valid, RbTree.Order, LinkedList.Valid, DrmMm.Core, Scan.Active, Known, InPool, Counted;
      InPoolFrame(buffers, mru, mm.blocks, nodes1, mm.node);
    }

    lemma ScanOver(scan: Scan)
      requires Scanning(scan) && scan.taken == []
      ensures Valid() && mm.nodeList.mem == scan.links
    {
      hide RbTree.Valid, RbTree.Order, LinkedList.Valid, DrmMm.Core, Scan.Active, Known, InPool, Counted, DrmMm.Valid;
      scan.Finished();
    }

    /** The loop that runs when nothing was found: no block is to be evicted. */
    method RestoreAll(scan: Scan, evictionList: seq<Ptr>)
      requires Scanning(scan) && scan.NoHit() && evictionList == Reverse(scan.taken)
      modifies scan`taken, mm`node, mm`scanActive, mm.nodeList
      ensures Valid() && SameBlocks(old(mm.node), mm.node, mm.blocks) && mm.nodeList.mem == scan.links
    {
      hide RbTree.Valid, RbTree.Order, LinkedList.Valid, DrmMm.Core, DrmMm.Valid;
      hide Scan.Active, SameBlocks, Known, InPool, Counted;
      ghost var nodes := mm.node;
      SameBlocksSelf(mm.node, mm.blocks);
      var i := 0;
      while i < |evictionList|
        invariant 0 <= i <= |evictionList| && Scanning(scan) && scan.NoHit() && SameBlocks(nodes, mm.node, mm.blocks)
        invariant Reverse(scan.taken) == evictionList[i..]
      {
        UnwindStep(scan.taken, evictionList, i);
        ghost var nodes1 := mm.node;
        var ret := scan.RemoveBlock(evictionList[i]);
        assert !ret;
        Unmarked(scan, nodes1);
        SameBlocksTwice(nodes, nodes1, mm.node, mm.blocks);
        i := i + 1;
      }
      ScanOver(scan);
    }

    /** The loop that runs after a hit: the eviction list keeps exactly the blocks that overlap it. */
    method KeepOverlapping(scan: Scan, roster: seq<Ptr>) returns (evictionList: seq<Ptr>)
      requires Scanning(scan) && !scan.NoHit() && roster == Reverse(scan.taken)
      modifies scan`taken, mm`node, mm`scanActive, mm.nodeList
      ensures Valid() && SameBlocks(old(mm.node), mm.node, mm.blocks) && mm.nodeList.mem == scan.links
      ensures Unique(evictionList) && scan.Active()
      ensures forall x :: x in roster ==>
                x in mm.node && (x in evictionList <==> Overlaps(mm.node[x], scan.hitStart, scan.hitEnd))
      ensures forall x :: x in evictionList ==> x in roster
    {
      hide RbTree.Valid, RbTree.Order, LinkedList.Valid, DrmMm.Core, DrmMm.Valid;
      hide Scan.Active, SameBlocks, Known, InPool, Counted;
      hide Unique, Overlaps;
      ghost var nodes := mm.node;
      SameBlocksSelf(mm.node, mm.blocks);
      RosterUnique(scan, roster);
      evictionList := [];
      var i := 0;
      while i < |roster|
        invariant 0 <= i <= |roster| && Scanning(scan) && !scan.NoHit() && SameBlocks(nodes, mm.node, mm.blocks)
        invariant Reverse(scan.taken) == roster[i..]
        invariant Unique(evictionList) && forall x :: x in evictionList ==> x in roster[..i]
        invariant forall x :: x in roster[..i] ==>
                    (x in evictionList <==> Overlaps(nodes[x], scan.hitStart, scan.hitEnd))
      {
        UnwindStep(scan.taken, roster, i);
        ghost var nodes1 := mm.node;
        var keep := scan.RemoveBlock(roster[i]);
        Unmarked(scan, nodes1);
        SameBlocksTwice(nodes, nodes1, mm.node, mm.blocks);
        SameOverlap(nodes, mm.node, mm.blocks, roster[i], scan.hitStart, scan.hitEnd);
        AppendUnique(evictionList, roster, i);
        if keep {
          evictionList := evictionList + [roster[i]];
        }
        i := i + 1;
      }
      assert roster[..i] == roster;
      forall x | x in roster
        ensures x in mm.node && (x in evictionList <==> Overlaps(mm.node[x], scan.hitStart, scan.hitEnd))
      {
        SameOverlap(nodes, mm.node, mm.blocks, x, scan.hitStart, scan.hitEnd);
      }
      ScanOver(scan);
    }

    lemma RosterUnique(scan: Scan, roster: seq<Ptr>)
      requires Scanning(scan) && roster == Reverse(scan.taken)
      ensures Unique(roster) && Unique<Ptr>([])
      ensures forall x :: x in roster ==> x in mm.blocks && x in mm.node && x != HEAD
    {
      hide RbTree.Valid, RbTree.Order, LinkedList.Valid, DrmMm.Core;
      TiledCore(mm);
      ReverseElements(scan.taken);
    }

    /** The last loop: the selected blocks are paged out, which leaves the hit free, in the most recent hole. */
    method EvictAll(evictionList: seq<Ptr>, ghost gone: seq<Ptr>, ghost hit: u64, ghost q: Request)
      requires Valid() && Unique(evictionList) && 0 < q.size
      requires HitOk(mm.node, mm.blocks, 0, POOL_SIZE, gone, hit, q, false)
      requires FreeAt(mm.node, mm.blocks, 0, POOL_SIZE, evictionList, hit, q)
      requires forall x :: x in evictionList ==> x in gone && Evictable(x, hit, q)
      modifies this, mm, mm.nodeList, mm.holeStack, mm.intervalTree, mm.holesSize, mm.holesAddr
      ensures Valid() && allBuffers == old(allBuffers)
      ensures Evicted(old(buffers), buffers, old(mru), mru, old(mm.node), mm.node)
      ensures forall x :: x in old(mru) ==> (x in mru <==> x !in evictionList)
      ensures HitOk(mm.node, mm.blocks, 0, POOL_SIZE, gone, hit, q, false)
      ensures FreeAt(mm.node, mm.blocks, 0, POOL_SIZE, [], hit, q)
      ensures evictionList != [] ==> TopIsHit(hit, q.size)
    {
      hide RbTree.Valid, RbTree.Order, LinkedList.Valid, DrmMm.Core, DrmMm.Valid;
      hide Removed, Without, Counted, Unique, Tiled;
      hide Known, InPool, Evicted, HitOk, FreeAt, Overlaps, TopIsHit;
      ghost var bufs, list, nodes := buffers, mru, mm.node;
      EvictedSelf(buffers, allBuffers, mru, mm.blocks, mm.node);
      var i := 0;
      assert evictionList[0..] == evictionList;
      while i < |evictionList|
        invariant 0 <= i <= |evictionList| && Valid() && allBuffers == old(allBuffers)
        invariant Evicted(bufs, buffers, list, mru, nodes, mm.node)
        invariant forall x :: x in list ==> (x in mru <==> x !in evictionList[..i])
        invariant forall x :: x in evictionList[i..] ==> Evictable(x, hit, q)
        invariant HitOk(mm.node, mm.blocks, 0, POOL_SIZE, gone, hit, q, false)
        invariant FreeAt(mm.node, mm.blocks, 0, POOL_SIZE, evictionList[i..], hit, q)
        invariant i == |evictionList| > 0 ==> TopIsHit(hit, q.size)
      {
        var b := evictionList[i];
        ghost var nodes1, blocks1, mru1, bufs1 := mm.node, mm.blocks, mru, buffers;
        ghost var rest := evictionList[i + 1..];
        EvictAllReady(evictionList, i);
        ValidParts();
        KnownLists(buffers, allBuffers, mru, b);
        forall x | x in rest ensures x != b && Selected(bufs1, mru1, blocks1, nodes1, x, hit, q) {
          assert x in evictionList[i..];
          assert Evictable(x, hit, q);
        }
        Evict(b, bufs, list, nodes);
        ValidParts();
        EvictedHit(nodes1, blocks1, b, gone, rest, hit, q);
        StillEvictable(bufs1, nodes1, blocks1, mru1, b, rest, hit, q);
        i := i + 1;
      }
      assert evictionList[..i] == evictionList && evictionList[i..] == [];
    }

    /** A paged-in idle buffer that overlaps the hit. */
    ghost predicate Evictable(x: Ptr, hit: nat, q: Request)
      reads this, mm
    {
      Selected(buffers, mru, mm.blocks, mm.node, x, hit, q)
    }

    lemma EvictedHit(nodes1: Nodes, blocks1: seq<Ptr>, b: Ptr, gone: seq<Ptr>, rest: seq<Ptr>, hit: nat, q: Request)
      requires mm.Core() && mm.lo == 0 && mm.hi == POOL_SIZE && Tiled(nodes1, blocks1, 0, POOL_SIZE) && Unique(blocks1)
      requires (forall x :: x in blocks1 ==> x in nodes1) && b in blocks1 && b != HEAD && b in gone
      requires mm.blocks == Without(blocks1, b) && Removed(nodes1, mm.node, blocks1, b) && 0 < q.size
      requires HitOk(nodes1, blocks1, 0, POOL_SIZE, gone, hit, q, false)
      requires FreeAt(nodes1, blocks1, 0, POOL_SIZE, [b] + rest, hit, q) && Overlaps(nodes1[b], hit, hit + q.size)
      requires TopIs(InFront(blocks1, b))
      ensures HitOk(mm.node, mm.blocks, 0, POOL_SIZE, gone, hit, q, false)
      ensures FreeAt(mm.node, mm.blocks, 0, POOL_SIZE, rest, hit, q)
      ensures rest == [] ==> TopIsHit(hit, q.size)
    {
      hide RbTree.Valid, RbTree.Order, LinkedList.Valid, DrmMm.Core, DrmMm.Holes;
      hide Removed, Without, Unique, Tiled, Overlaps;
      hide HitOk, Clear, IndexOf, Covers;
      EvictStep(nodes1, mm.node, blocks1, 0, POOL_SIZE, gone, b, rest, hit, q, false);
      if rest == [] {
        TopCovers(mm, nodes1, blocks1, b, hit, q.size);
      }
    }

    lemma StillEvictable(bufs1: Buffers, nodes1: Nodes, blocks1: seq<Ptr>, mru1: seq<Ptr>, b: Ptr, rest: seq<Ptr>,
                         hit: nat, q: Request)
      requires forall x :: x in rest ==> x != b && Selected(bufs1, mru1, blocks1, nodes1, x, hit, q)
      requires Unique(blocks1) && Unique(mru1) && Removed(nodes1, mm.node, blocks1, b)
      requires mm.blocks == Without(blocks1, b) && mru == Without(mru1, b)
      requires buffers.Keys == bufs1.Keys && forall x :: x in buffers && x != b ==> buffers[x] == bufs1[x]
      ensures forall x :: x in rest ==> Evictable(x, hit, q)
    {
      hide RbTree.Valid, RbTree.Order, LinkedList.Valid, DrmMm.Core, Unique, Without;
      WithoutUnique(blocks1, b);
      WithoutUnique(mru1, b);
    }

    /** The most recent hole covers the hit. */
    ghost predicate TopIsHit(hit: nat, size: nat)
      reads this, mm, mm.holeStack, mm.intervalTree, mm.holesSize, mm.holesAddr
    {
      && mm.Core() && mm.holeStack.Valid() && mm.holeStack.Items() != []
      && var top := mm.holeStack.Items()[0]; top in mm.Holes() && top in mm.node && Covers(mm.node[top], hit, size)
    }

    /** page_out_buffers_for_insertion. The scan stops at the shortest prefix of idle buffers, least recently used
        first, that opens a gap, and only the members of that prefix that overlap the hit are paged out. */
    method PageOut(size: u64) returns (found: bool, ghost gone: seq<Ptr>, ghost hit: u64)
      requires Valid() && 0 < size <= POOL_SIZE
      modifies this, mm, mm.nodeList, mm.holeStack, mm.intervalTree, mm.holesSize, mm.holesAddr
      ensures Valid() && allBuffers == old(allBuffers)
      ensures Evicted(old(buffers), buffers, old(mru), mru, old(mm.node), mm.node)
      ensures gone <= LruIdle(old(buffers), old(mru)) && LeastRecent(old(buffers), old(mru), [], gone)
      ensures forall x ::
                x in old(mru) && x in old(buffers) && (old(buffers)[x].inUse || old(buffers)[x].unmoveable) ==>
                  x in mru && SamePlace(old(mm.node), mm.node, x)
      ensures !found ==> forall x :: x in old(mru) && x !in gone ==>
                x in old(buffers) && (old(buffers)[x].inUse || old(buffers)[x].unmoveable)
      ensures !old(Opens(mm.node, mm.blocks, 0, POOL_SIZE, [], PageRequest(size))) ==>
                old(Futile(mm.node, mm.blocks, gone, if found then |gone| else |gone| + 1, PageRequest(size)))
      ensures !found ==> gone == LruIdle(old(buffers), old(mru)) && mru == old(mru) && buffers == old(buffers)
                         && mm.blocks == old(mm.blocks) && mm.nodeList.mem == old(mm.nodeList.mem)
      ensures found ==> old(HitOk(mm.node, mm.blocks, 0, POOL_SIZE, gone, hit, PageRequest(size), false))
      ensures found ==> forall x :: x in old(mru) ==>
                x in old(mm.node) && (x in mru <==> !(x in gone && Overlaps(old(mm.node)[x], hit, hit + size)))
      ensures found ==> HitOk(mm.node, mm.blocks, 0, POOL_SIZE, gone, hit, PageRequest(size), false)
                        && FreeAt(mm.node, mm.blocks, 0, POOL_SIZE, [], hit, PageRequest(size))
      ensures found && mru != old(mru) ==> TopIsHit(hit, size)
    {
      hide RbTree.Valid, RbTree.Order, LinkedList.Valid, DrmMm.Core, DrmMm.Valid;
      hide Scan.Active, SameBlocks, Known, InPool, Counted;
      hide Unique, Overlaps, HitOk, FreeAt, Evicted, Futile, Opens, TopIsHit, LeastRecent;
      ghost var nodes, blocks, list, q := mm.node, mm.blocks, mru, PageRequest(size);
      ValidParts();
      var scan := new Scan(mm, PageRequest(size), Best);
      var evictionList;
      found, evictionList := ScanIdle(scan);
      gone := scan.taken;
      SameBlocksBack(nodes, mm.node, blocks);
      ghost var full := !Opens(nodes, blocks, 0, POOL_SIZE, [], q);
      if full {
        FutileFrame(nodes, mm.node, blocks, gone, if found then |gone| else |gone| + 1, q);
      }
      if !found {
        hit := 0;
        ghost var nodes1 := mm.node;
        RestoreAll(scan, evictionList);
        SameBlocksTwice(nodes, nodes1, mm.node, blocks);
        EvictedFrame(buffers, allBuffers, mru, blocks, nodes, mm.node);
        EvictedKeeps(buffers, buffers, mru, mru, nodes, mm.node);
        return;
      }
      hit := scan.hitStart;
      ghost var nodes1 := mm.node;
      var victims := KeepOverlapping(scan, evictionList);
      SameBlocksTwice(nodes, nodes1, mm.node, blocks);
      HitFound(scan, gone, evictionList, victims, nodes, hit, q);
      EvictedFrame(buffers, allBuffers, mru, blocks, nodes, mm.node);
      ghost var nodes2, bufs, all := mm.node, buffers, allBuffers;
      EvictAll(victims, gone, hit, q);
      EvictedTwice(bufs, bufs, buffers, list, list, mru, nodes, nodes2, mm.node);
      EvictedKeeps(bufs, buffers, list, mru, nodes, mm.node);
      Survivors(bufs, all, list, mru, blocks, nodes, nodes2, gone, victims, hit, q);
    }

    /** What the scan found and selected. */
    lemma HitFound(scan: Scan, gone: seq<Ptr>, roster: seq<Ptr>, victims: seq<Ptr>, nodes: Nodes, hit: u64, q: Request)
      requires Valid() && scan.mm == mm && scan.Active() && !scan.NoHit() && scan.mode == Best && scan.q == q
      requires scan.hitGone == gone && scan.hitStart == hit && gone <= LruIdle(buffers, mru) && roster == Reverse(gone)
      requires (forall x :: x in mm.blocks ==> x in nodes) && SameBlocks(nodes, mm.node, mm.blocks)
      requires forall x :: x in roster ==>
                 x in mm.node && (x in victims <==> Overlaps(mm.node[x], scan.hitStart, scan.hitEnd))
      requires forall x :: x in victims ==> x in roster
      ensures HitOk(mm.node, mm.blocks, 0, POOL_SIZE, gone, hit, q, false)
      ensures HitOk(nodes, mm.blocks, 0, POOL_SIZE, gone, hit, q, false)
      ensures FreeAt(mm.node, mm.blocks, 0, POOL_SIZE, victims, hit, q)
      ensures forall x :: x in victims <==> x in gone && x in mm.node && Overlaps(mm.node[x], hit, hit + q.size)
      ensures forall x :: x in victims ==> Evictable(x, hit, q)
      ensures 0 < q.size && InPool(buffers, mru, mm.blocks, nodes)
    {
      hide RbTree.Valid, RbTree.Order, LinkedList.Valid, DrmMm.Core, DrmMm.Valid, Counted;
      hide Unique, Overlaps, SameBlocks, HitOk, Known, LastFirst, Reverse;
      ValidParts();
      KnownLists(buffers, allBuffers, mru, HEAD);
      SameBlocksBack(nodes, mm.node, mm.blocks);
      HitFrame(mm.node, nodes, mm.blocks, 0, POOL_SIZE, gone, hit, q, false);
      InPoolFrame(buffers, mru, mm.blocks, mm.node, nodes);
      LastFirstElements(mru, IdleOnes(buffers));
      PrefixUnique(gone, LruIdle(buffers, mru));
      ReverseElements(gone);
      VictimsFree(mm.node, mm.blocks, gone, victims, hit, q);
    }

    // ----- page_in_buffer

    lemma SuitsIffOpens(size: u64)
      requires Valid() && size > 0
      ensures NoneSuits(mm, InsertRequest(size)) <==> !Opens(mm.node, mm.blocks, 0, POOL_SIZE, [], PageRequest(size))
    {
      hide RbTree.Valid, RbTree.Order, LinkedList.Valid, DrmMm.Core, DrmMm.Valid, NoneSuits, Clear;
      ValidParts();
      OpensIffSuits(mm, InsertRequest(size));
      assert forall a: int :: FreeAt(mm.node, mm.blocks, 0, POOL_SIZE, [], a, InsertRequest(size))
                     <==> FreeAt(mm.node, mm.blocks, 0, POOL_SIZE, [], a, PageRequest(size));
    }

    lemma StackItems()
      requires mm.Core()
      ensures mm.holeStack.Valid() && State().stack == mm.holeStack.Items()
    {
      hide RbTree.Valid, RbTree.Order, DrmMm.Core;
      StackOrder(mm);
    }

    lemma StackNow()
      requires mm.Valid()
      ensures mm.holeStack.Valid() && State().stack == mm.holeStack.Items()
    {
      hide RbTree.Valid, RbTree.Order, LinkedList.Valid, DrmMm.Core;
      StackItems();
    }

    /** Whatever BEST mode prefers is in the most recent of the smallest gaps. */
    lemma BestLanding(size: u64)
      requires Valid() && size > 0
      ensures forall hole, start :: Preferred(mm, InsertRequest(size), Best, hole, start) ==>
                && HitOk(mm.node, mm.blocks, 0, POOL_SIZE, [], start, PageRequest(size), false)
                && Tightest(mm.node, mm.blocks, 0, POOL_SIZE, [], start, PageRequest(size))
                && Newest(mm.node, State().stack, hole, start, PageRequest(size))
    {
      hide RbTree.Valid, RbTree.Order, LinkedList.Valid, DrmMm.Core, DrmMm.Valid;
      hide Counted, Known, InPool, HitOk, Tightest, Newest, Preferred;
      ValidParts();
      StackItems();
      forall hole, start | Preferred(mm, InsertRequest(size), Best, hole, start)
        ensures HitOk(mm.node, mm.blocks, 0, POOL_SIZE, [], start, PageRequest(size), false)
        ensures Tightest(mm.node, mm.blocks, 0, POOL_SIZE, [], start, PageRequest(size))
        ensures Newest(mm.node, State().stack, hole, start, PageRequest(size))
      {
        BestLands(mm, PageRequest(size), InsertRequest(size), hole, start);
        BestNewest(mm, PageRequest(size), InsertRequest(size), hole, start);
      }
    }

    /** insert_buffer_in_cma_pool in BEST mode: succeeds if there is a gap, and takes the most recent of the smallest
        ones. */
    method InsertBest(b: Ptr) returns (ok: bool, ghost start: u64)
      requires Valid() && b in buffers && !buffers[b].pagedIn
      modifies this, mm, mm.nodeList, mm.holeStack, mm.intervalTree, mm.holesSize, mm.holesAddr
      ensures Valid() && allBuffers == old(allBuffers)
      ensures ok <==> old(Room(State(), [], buffers[b].size))
      ensures !ok ==> unchanged(this, mm, mm.nodeList, mm.holeStack, mm.intervalTree, mm.holesSize, mm.holesAddr)
      ensures ok ==> b in mru && Settled(old(State()), State(), b, old(buffers)[b].size, [], [], start)
      ensures ok ==> old(Fitting(State(), buffers[b].size))
    {
      hide RbTree.Valid, RbTree.Order, LinkedList.Valid, DrmMm.Core, DrmMm.Valid, Counted;
      hide Unique, Tiled, NoneSuits, Known, InPool;
      hide Opens, Preferred, LruIdle, HitOk, Tightest, Newest, Settled, InsertedAt;
      ghost var s, all, size := State(), allBuffers, buffers[b].size;
      KnownBuffer(buffers, allBuffers, mru, b);
      SuitsIffOpens(size);
      BestLanding(size);
      ghost var hole;
      ok, hole, start := InsertInPool(b, Best);
      if ok {
        PoolPlaces();
        assert Carved(s, State(), hole, b, start, PageRequest(size));
        SettledBest(s, State(), all, hole, b, size, start);
        OpensMore(s.nodes, s.blocks, LruIdle(s.buffers, s.mru), PageRequest(size));
      }
    }

    lemma MadeRoom(bufs: Buffers, all: seq<Ptr>, list: seq<Ptr>, blocks: seq<Ptr>, nodes: Nodes, hit: u64, size: u64)
      requires Valid() && size > 0 && Known(bufs, all, list) && InPool(bufs, list, blocks, nodes) && allBuffers == all
      requires Evicted(bufs, buffers, list, mru, nodes, mm.node)
      requires !Opens(nodes, blocks, 0, POOL_SIZE, [], PageRequest(size))
      requires FreeAt(mm.node, mm.blocks, 0, POOL_SIZE, [], hit, PageRequest(size))
      ensures Opens(mm.node, mm.blocks, 0, POOL_SIZE, [], PageRequest(size))
      ensures CanFit(bufs, list, blocks, nodes, size) && mru != list
    {
      hide RbTree.Valid, RbTree.Order, LinkedList.Valid, DrmMm.Core, DrmMm.Valid, Counted, NoneSuits, Known, InPool;
      hide LruIdle, Evicted, FreeAt;
      OpensMore(mm.node, mm.blocks, LruIdle(buffers, mru), PageRequest(size));
      CanFitEvicted(bufs, buffers, all, list, mru, blocks, mm.blocks, nodes, mm.node, size);
      if mru == list {
        NothingEvicted(bufs, buffers, mru, blocks, mm.blocks, nodes, mm.node, PageRequest(size));
      }
    }

    /** Whatever EVICT mode prefers now is the hit. */
    lemma Landing(gone: seq<Ptr>, hit: u64, size: u64)
      requires Valid() && size > 0 && TopIsHit(hit, size)
      requires HitOk(mm.node, mm.blocks, 0, POOL_SIZE, gone, hit, PageRequest(size), false)
      ensures forall hole, start :: Preferred(mm, InsertRequest(size), Mode.Evict, hole, start) ==> start == hit
    {
      hide RbTree.Valid, RbTree.Order, LinkedList.Valid, DrmMm.Core, DrmMm.Valid;
      hide Counted, Known, InPool, HitOk, Preferred;
      ValidParts();
      forall hole, start | Preferred(mm, InsertRequest(size), Mode.Evict, hole, start) ensures start == hit {
        EvictLands(mm, gone, mm.holeStack.Items()[0], hit, PageRequest(size), InsertRequest(size), false, hole, start);
      }
    }

    /** page_out_buffers_for_insertion, and the insertion in EVICT mode after it: the buffer is placed exactly at the
        hit of the scan, and it is placed exactly if the idle buffers stand in the way. */
    method PageOutAndInsert(b: Ptr) returns (ok: bool, ghost gone: seq<Ptr>, ghost hit: u64)
      requires Valid() && b in buffers && !buffers[b].pagedIn && !Room(State(), [], buffers[b].size)
      modifies this, mm, mm.nodeList, mm.holeStack, mm.intervalTree, mm.holesSize, mm.holesAddr
      ensures Valid() && allBuffers == old(allBuffers)
      ensures ok <==> b in mru
      ensures ok <==> old(Fitting(State(), buffers[b].size))
      ensures Settled(old(State()), State(), b, old(buffers)[b].size, [], gone, hit)
    {
      hide RbTree.Valid, RbTree.Order, LinkedList.Valid, DrmMm.Core, DrmMm.Valid, Counted;
      hide Unique, Tiled, NoneSuits, Known, InPool;
      hide Opens, Preferred, LruIdle, Evicted, HitOk, FreeAt, Futile, Overlaps, TopIsHit, Settled;
      ghost var s, all := State(), allBuffers;
      var size := buffers[b].size;
      KnownBuffer(buffers, allBuffers, mru, b);
      ok, gone, hit := PageOut(size);
      StillOut(s.buffers, buffers, s.mru, mru, s.nodes, mm.node, b);
      if !ok {
        FutileAll(s.nodes, s.blocks, gone, PageRequest(size));
        EvictedKeeps(s.buffers, buffers, s.mru, mru, s.nodes, mm.node);
        SettledOut(s, State(), all, b, size, gone, hit);
        return;
      }
      MadeRoom(s.buffers, all, s.mru, s.blocks, s.nodes, hit, size);
      SuitsIffOpens(size);
      Landing(gone, hit, size);
      ghost var s1 := State();
      ghost var hole, start;
      ok, hole, start := InsertInPool(b, Mode.Evict);
      PoolPlaces();
      SettledHit(s, s1, State(), b, size, gone, hit);
    }

    /** page_in_buffer. It returns true exactly if the buffer is paged in. */
    method PageIn(b: Ptr) returns (ok: bool, ghost gone: seq<Ptr>, ghost at: u64)
      requires Valid() && b in buffers && !buffers[b].pagedIn
      modifies this, mm, mm.nodeList, mm.holeStack, mm.intervalTree, mm.holesSize, mm.holesAddr
      ensures Valid() && allBuffers == old(allBuffers)
      ensures ok <==> b in mru
      ensures Paging(old(State()), State(), b, gone, at) && forall x :: Pinned(old(State()), State(), x)
    {
      hide RbTree.Valid, RbTree.Order, LinkedList.Valid, DrmMm.Core, DrmMm.Valid, Counted;
      hide Unique, Tiled, Known, InPool, Opens, LruIdle, Evicted, Settled, AfterPurge, LastFirst, Paging, Fitting;
      ghost var s, all, size := State(), allBuffers, buffers[b].size;
      KnownBuffer(buffers, allBuffers, mru, b);
      PoolPlaces();
      gone := [];
      ok, at := InsertBest(b);
      if ok {
        PagingDone(s, State(), all, b, gone, at);
        PagingKeeps(s, State(), all, b, gone, at);
        return;
      }
      Purge();
      ghost var s1, purged := State(), Purged(s, size);
      StillOut(s.buffers, buffers, s.mru, mru, s.nodes, mm.node, b);
      CanFitEvicted(s.buffers, buffers, all, s.mru, mru, s.blocks, mm.blocks, s.nodes, mm.node, size);
      PurgeDone(s, s1, all, purged);
      ok, at := InsertBest(b);
      if !ok {
        ok, gone, at := PageOutAndInsert(b);
      }
      SettledPurged(s, s1, State(), b, size, purged, gone, at);
      SameFitting(s, s1, size);
      PagingDone(s, State(), all, b, gone, at);
      PagingKeeps(s, State(), all, b, gone, at);
    }

    lemma SameFitting(s: PoolState, s1: PoolState, size: u64)
      requires CanFit(s.buffers, s.mru, s.blocks, s.nodes, size)
               <==> CanFit(s1.buffers, s1.mru, s1.blocks, s1.nodes, size)
      ensures Fitting(s, size) <==> Fitting(s1, size)
    {
    }

    // ----- the commands

    /** buf_create, with a buffer at the address that calloc returned. */
    method Create(name: u32, size: u64, unmoveable: bool, b: Ptr) returns (ghost gone: seq<Ptr>, ghost at: u64)
      requires Valid() && 0 < size <= POOL_SIZE && b !in buffers && b != NULL && b != HEAD
      modifies this, mm, mm.nodeList, mm.holeStack, mm.intervalTree, mm.holesSize, mm.holesAddr
      ensures Valid() && forall x :: Pinned(old(State()), State(), x)
      ensures (exists x :: Named(old(buffers), x, name)) ==>
                unchanged(this, mm, mm.nodeList, mm.holeStack, mm.intervalTree, mm.holesSize, mm.holesAddr)
      ensures (forall x :: !Named(old(buffers), x, name)) ==>
                && allBuffers == [b] + old(allBuffers)
                && Created(old(State()), State(), BufCreate(name, size, unmoveable), b, gone, at)
    {
      hide RbTree.Valid, RbTree.Order, LinkedList.Valid, DrmMm.Core, DrmMm.Valid;
      hide Counted, Unique, Tiled, Known, InPool, Paging;
      ghost var s := State();
      PoolPlaces();
      gone, at := [], 0;
      var buf := FindBuffer(name);
      if buf != NULL {
        return;
      }
      CreatedTables(buffers, allBuffers, mru, overflow, b, Buffer(name, size, false, unmoveable, false, WillNeed));
      CreatedFits(buffers, mru, mm.blocks, mm.node, b, Buffer(name, size, false, unmoveable, false, WillNeed));
      buffers := buffers[b := Buffer(name, size, false, unmoveable, false, WillNeed)];
      allBuffers := [b] + allBuffers;
      overflow := Add64(overflow, size);
      ghost var s1 := State();
      KnownBuffer(buffers, allBuffers, mru, b);
      var ok;
      ok, gone, at := PageIn(b);
      assert forall x :: Pinned(s1, State(), x) ==> Pinned(s, State(), x);
    }

    ghost predicate Unknown(name: u32)
      reads this
    {
      forall x :: !Named(buffers, x, name)
    }

    /** buf_destroy. */
    method Destroy(name: u32)
      requires Valid()
      modifies this, mm, mm.nodeList, mm.holeStack, mm.intervalTree, mm.holesSize, mm.holesAddr
      ensures Valid() && Unknown(name)
      ensures old(Unknown(name)) ==>
                unchanged(this, mm, mm.nodeList, mm.holeStack, mm.intervalTree, mm.holesSize, mm.holesAddr)
      ensures Effect(BufDestroy(name), old(State()), State())
    {
      hide RbTree.Valid, RbTree.Order, LinkedList.Valid, DrmMm.Core, DrmMm.Valid;
      hide Counted, Unique, Tiled, InPool, Without, Known, Effect;
      ghost var s, all := State(), allBuffers;
      PoolPlaces();
      var buf := FindBuffer(name);
      if buf == NULL {
        DestroyedNone(s, all, name);
        return;
      }
      FreeBuffer(buf);
      PoolPlaces();
      DestroyedOne(s, State(), all, buf);
    }

    /** Each paged-in buffer has its size in the allocator. */
    lemma PoolPlaces()
      requires Valid()
      ensures forall x :: x in mru ==> x in mm.node && x in buffers && mm.node[x].size == buffers[x].size
      ensures forall x :: Pinned(State(), State(), x)
    {
      hide RbTree.Valid, RbTree.Order, LinkedList.Valid, DrmMm.Core, DrmMm.Valid, Counted, Known;
    }

    /** buf_use: the buffer moves to the head of the MRU list, or is paged in. */
    method Use(name: u32)
      requires Valid()
      modifies this, mm, mm.nodeList, mm.holeStack, mm.intervalTree, mm.holesSize, mm.holesAddr
      ensures Valid() && allBuffers == old(allBuffers) && Effect(BufUse(name), old(State()), State())
    {
      hide RbTree.Valid, RbTree.Order, LinkedList.Valid, DrmMm.Core, DrmMm.Valid, Counted;
      hide Unique, Tiled, InPool, Without, Known, Paging;
      ghost var s, all := State(), allBuffers;
      PoolPlaces();
      var buf := FindBuffer(name);
      if buf == NULL {
        return;
      }
      OneName(buffers, allBuffers, mru, buf);
      KnownBuffer(buffers, allBuffers, mru, buf);
      if buffers[buf].pagedIn {
        UsedTables(buffers, allBuffers, mru, buf);
        mru := [buf] + Without(mru, buf);
        UsedPool(s);
      } else {
        ghost var gone, at;
        var ok;
        ok, gone, at := PageIn(buf);
        assert Paging(s, State(), buf, gone, at);
      }
    }

    lemma UsedPool(s: PoolState)
      requires InPool(s.buffers, s.mru, s.blocks, s.nodes) && s == State().(mru := s.mru)
      requires forall x :: x in mru <==> x in s.mru
      ensures InPool(buffers, mru, mm.blocks, mm.node)
      ensures forall x :: Pinned(s, State(), x)
    {
    }

    /** The common end of the commands that store a flag. */
    method StoreFlags(b: Ptr, inUse: bool, madv: Madv)
      requires Valid() && b in buffers
      modifies `buffers
      ensures Valid() && buffers == old(buffers)[b := old(buffers[b]).(inUse := inUse, madv := madv)]
    {
      hide RbTree.Valid, RbTree.Order, LinkedList.Valid, DrmMm.Core, DrmMm.Valid, Counted, InPool, Known;
      FlaggedTables(buffers, allBuffers, mru, overflow, b, inUse, madv);
      buffers := buffers[b := buffers[b].(inUse := inUse, madv := madv)];
    }

    /** buf_add_usecnt. A buffer that is in use already stays so. */
    method AddUsecnt(name: u32)
      requires Valid()
      modifies `buffers
      ensures Valid() && Flagged(old(buffers), buffers, name, Some(true), None)
    {
      hide RbTree.Valid, RbTree.Order, LinkedList.Valid, DrmMm.Core, DrmMm.Valid, Counted, InPool;
      var buf := FindBuffer(name);
      if buf != NULL {
        StoreFlags(buf, true, buffers[buf].madv);
      }
    }

    /** buf_remove_usecnt. */
    method RemoveUsecnt(name: u32)
      requires Valid()
      modifies `buffers
      ensures Valid() && Flagged(old(buffers), buffers, name, Some(false), None)
    {
      hide RbTree.Valid, RbTree.Order, LinkedList.Valid, DrmMm.Core, DrmMm.Valid, Counted, InPool;
      var buf := FindBuffer(name);
      if buf != NULL {
        StoreFlags(buf, false, buffers[buf].madv);
      }
    }

    /** buf_madv. The body of its loop returns in the first round, so that only the first table entry is looked at and
        "dontneed" is never stored. */
    method SetMadv(name: u32, arg: string)
      requires Valid()
      modifies `buffers
      ensures Valid() && Flagged(old(buffers), buffers, name, None, if arg == "willneed" then Some(WillNeed) else None)
    {
      hide RbTree.Valid, RbTree.Order, LinkedList.Valid, DrmMm.Core, DrmMm.Valid, Counted, InPool;
      var buf := FindBuffer(name);
      if buf == NULL {
        return;
      }
      var table := [("willneed", WillNeed), ("dontneed", DontNeed)];
      if |table| > 0 {
        if arg == table[0].0 {
          StoreFlags(buf, buffers[buf].inUse, table[0].1);
        }
        return;
      }
    }

    /** process_command. */
    method ProcessCommand(c: Command)
      requires Valid() && c.Sane()
      modifies this, mm, mm.nodeList, mm.holeStack, mm.intervalTree, mm.holesSize, mm.holesAddr
      ensures Valid() && Effect(c, old(State()), State()) && (old(Willing(State())) ==> Willing(State()))
      ensures forall x ::
                x in old(mru) && x in old(buffers) && (old(buffers)[x].inUse || old(buffers)[x].unmoveable) ==>
                  || (x in mru && SamePlace(old(mm.node), mm.node, x))
                  || (c.BufDestroy? && old(buffers)[x].name == c.name)
    {
      hide RbTree.Valid, RbTree.Order, LinkedList.Valid, DrmMm.Core, DrmMm.Valid, Known;
      hide Counted, InPool, CmaPool.Valid, Paging, Without;
      ghost var s := State();
      PoolPlaces();
      match c {
        case BufCreate(name, size, unmoveable) =>
          FreshAddress(buffers);
          var b: Ptr :| b !in buffers && b != NULL && b != HEAD;
          ghost var gone, at;
          gone, at := Create(name, size, unmoveable, b);
        case BufDestroy(name) => Destroy(name);
        case BufUse(name) => Use(name);
        case BufAddUsecnt(name) => AddUsecnt(name);
        case BufRemoveUsecnt(name) => RemoveUsecnt(name);
        case BufMadv(name, arg) => SetMadv(name, arg);
      }
      EffectPins(c, s, State());
      if Willing(s) {
        StaysWilling(c, s, State());
      }
    }

    /** process_file: the commands of the log take effect one after the other. */
    method Run(commands: seq<Command>) returns (ghost states: seq<PoolState>)
      requires Valid() && forall c :: c in commands ==> c.Sane()
      modifies this, mm, mm.nodeList, mm.holeStack, mm.intervalTree, mm.holesSize, mm.holesAddr
      ensures Valid() && (old(Willing(State())) ==> Willing(State()))
      ensures |states| == |commands| + 1 && states[0] == old(State()) && states[|commands|] == State()
      ensures forall i :: 0 <= i < |commands| ==> Effect(commands[i], states[i], states[i + 1])
    {
      hide RbTree.Valid, RbTree.Order, LinkedList.Valid, DrmMm.Core, DrmMm.Valid;
      hide Known, Counted, InPool, CmaPool.Valid, Effect;
      states := [State()];
      for i := 0 to |commands|
        invariant Valid() && (old(Willing(State())) ==> Willing(State()))
        invariant |states| == i + 1 && states[0] == old(State()) && states[i] == State()
        invariant forall j :: 0 <= j < i ==> Effect(commands[j], states[j], states[j + 1])
      {
        ProcessCommand(commands[i]);
        states := states + [State()];
      }
    }

    /** Two paged-in buffers share no byte, and both lie in the pool at page boundaries. */
    lemma Disjoint(x: Ptr, y: Ptr)
      requires Valid() && x in mru && y in mru
      ensures x in mm.node && y in mm.node && x in buffers
      ensures mm.node[x].start % 4096 == 0 && mm.node[x].size == buffers[x].size
      ensures mm.node[x].start + mm.node[x].size <= 134217728
      ensures x != y ==>
                || mm.node[x].start + mm.node[x].size <= mm.node[y].start
                || mm.node[y].start + mm.node[y].size <= mm.node[x].start
    {
      hide RbTree.Valid, RbTree.Order, LinkedList.Valid, DrmMm.Core, DrmMm.Valid, Counted;
      ValidParts();
      BlockEnd(mm.node, mm.blocks, 0, POOL_SIZE, x);
      BlocksApart(mm.node, mm.blocks, 0, POOL_SIZE, x, y);
    }

    /** The counter is exactly the total size of the buffers that are paged out: it never wraps. */
    lemma OverflowExact()
      requires Valid()
      ensures overflow == Out(buffers, allBuffers)
      ensures Unique(allBuffers) && forall x :: x in allBuffers <==> x in buffers
      ensures forall x :: x in allBuffers ==>
                overflow == Out(buffers, Without(allBuffers, x)) + if buffers[x].pagedIn then 0 else buffers[x].size
      ensures Unique(mru) && forall x :: x in mru <==> x in buffers && buffers[x].pagedIn
    {
      hide RbTree.Valid, RbTree.Order, LinkedList.Valid, DrmMm.Core, DrmMm.Valid, InPool, Out;
      OutFits(buffers, allBuffers, mru);
      forall x | x in allBuffers
        ensures overflow == Out(buffers, Without(allBuffers, x)) + if buffers[x].pagedIn then 0 else buffers[x].size
      {
        OutWithout(buffers, allBuffers, x);
      }
    }
  }

  /** What paging out leaves alone. */
  lemma EvictedKeeps(bufs: Buffers, bufs': Buffers, mru: seq<Ptr>, mru': seq<Ptr>, nodes: Nodes, nodes': Nodes)
    requires Evicted(bufs, bufs', mru, mru', nodes, nodes')
    ensures bufs'.Keys == bufs.Keys && forall x :: x in bufs ==> bufs'[x] == bufs[x].(pagedIn := x in mru')
    ensures forall x :: x in mru && x in bufs && (bufs[x].inUse || bufs[x].unmoveable) ==>
              x in mru' && SamePlace(nodes, nodes', x)
    ensures forall x :: x in mru' ==> x in mru && SamePlace(nodes, nodes', x)
  {
    OnlyElements(mru, Elements(mru'));
  }

  /** A new buffer that is paged out changes nothing in the pool. */
  lemma CreatedFits(bufs: Buffers, mru: seq<Ptr>, blocks: seq<Ptr>, nodes: Nodes, b: Ptr, buf: Buffer)
    requires InPool(bufs, mru, blocks, nodes) && b !in bufs
    ensures InPool(bufs[b := buf], mru, blocks, nodes) && b !in mru
  {
  }

  lemma AllPlaced(bufs: Buffers, mru: seq<Ptr>, blocks: seq<Ptr>, nodes: Nodes)
    requires InPool(bufs, mru, blocks, nodes)
    ensures forall x :: x in mru ==> SamePlace(nodes, nodes, x)
  {
  }

  lemma ForgottenPool(bufs: Buffers, mru: seq<Ptr>, blocks: seq<Ptr>, nodes: Nodes, b: Ptr)
    requires InPool(bufs, mru, blocks, nodes) && b !in mru
    ensures InPool(bufs - {b}, mru, blocks, nodes)
  {
  }

  lemma FreedState(s: PoolState, s1: PoolState, s': PoolState, b: Ptr)
    requires (b in s.mru && Freed(s, s1, b)) || (b !in s.mru && s1 == s)
    requires s' == s1.(buffers := s'.buffers)
    ensures Freed(s, s', b)
  {
  }

  lemma DestroyedOne(s: PoolState, s': PoolState, all: seq<Ptr>, b: Ptr)
    requires Known(s.buffers, all, s.mru) && b in s.buffers && s'.buffers == s.buffers - {b}
    requires s'.mru == Without(s.mru, b) && Freed(s, s', b)
    requires forall x :: x in s'.mru ==> SamePlace(s.nodes, s'.nodes, x)
    ensures Effect(BufDestroy(s.buffers[b].name), s, s') && forall x :: !Named(s'.buffers, x, s.buffers[b].name)
  {
    hide Only, Without, SamePlace, Freed;
    OneName(s.buffers, all, s.mru, b);
    assert Named(s.buffers, b, s.buffers[b].name);
    WithoutUnique(s.mru, b);
    OnlyAll(s.mru, s.buffers.Keys);
    OnlyWithout(s.mru, s.buffers.Keys, b);
    assert s'.buffers.Keys == s.buffers.Keys - {b};
  }

  lemma DestroyedNone(s: PoolState, all: seq<Ptr>, name: u32)
    requires Known(s.buffers, all, s.mru) && forall x :: x in s.buffers ==> s.buffers[x].name != name
    requires forall x :: x in s.mru ==> x in s.nodes
    ensures Effect(BufDestroy(name), s, s) && forall x :: !Named(s.buffers, x, name)
  {
    hide Only;
    OnlyAll(s.mru, s.buffers.Keys);
  }

  lemma OneName(bufs: Buffers, all: seq<Ptr>, mru: seq<Ptr>, b: Ptr)
    requires Known(bufs, all, mru) && b in bufs
    ensures forall x :: x in bufs && bufs[x].name == bufs[b].name ==> x == b
  {
  }

  lemma StillOut(bufs: Buffers, bufs': Buffers, mru: seq<Ptr>, mru': seq<Ptr>, nodes: Nodes, nodes': Nodes, b: Ptr)
    requires Evicted(bufs, bufs', mru, mru', nodes, nodes') && b in bufs && !bufs[b].pagedIn && b !in mru
    ensures b in bufs' && bufs'[b] == bufs[b] && b !in mru'
  {
    OnlyElements(mru, Elements(mru'));
  }

  lemma FutileAll(nodes: Nodes, blocks: seq<Ptr>, gone: seq<Ptr>, q: Request)
    requires Futile(nodes, blocks, gone, |gone| + 1, q)
    ensures !Opens(nodes, blocks, 0, POOL_SIZE, gone, q)
  {
    assert gone[..|gone|] == gone;
  }

  lemma FirstTwo(s: seq<Ptr>)
    requires Unique(s)
    ensures s != [] ==> s[0] in s
    ensures |s| > 1 ==> s[1] in s && s[1] != s[0]
  {
  }

  lemma PrefixUnique(s: seq<Ptr>, t: seq<Ptr>)
    requires s <= t && Unique(t)
    ensures Unique(s) && forall x :: x in s ==> x in t
  {
    assert forall i :: 0 <= i < |s| ==> s[i] == t[i];
  }

  /** Every block that overlaps the hit was on the scan list, so evicting those of the list that do frees it. */
  lemma VictimsFree(nodes: Nodes, blocks: seq<Ptr>, gone: seq<Ptr>, victims: seq<Ptr>, hit: int, q: Request)
    requires HitOk(nodes, blocks, 0, POOL_SIZE, gone, hit, q, false)
    requires forall x :: x in victims <==> x in gone && x in nodes && Overlaps(nodes[x], hit, hit + q.size)
    requires forall x :: x in blocks ==> x in nodes
    ensures FreeAt(nodes, blocks, 0, POOL_SIZE, victims, hit, q)
  {
  }

  lemma Survivors(bufs: Buffers, all: seq<Ptr>, mru: seq<Ptr>, mru': seq<Ptr>, blocks: seq<Ptr>, nodes: Nodes,
                  nodes1: Nodes, gone: seq<Ptr>, victims: seq<Ptr>, hit: int, q: Request)
    requires InPool(bufs, mru, blocks, nodes) && SameBlocks(nodes, nodes1, blocks)
    requires forall x :: x in victims <==> x in gone && x in nodes1 && Overlaps(nodes1[x], hit, hit + q.size)
    requires forall x :: x in mru ==> (x in mru' <==> x !in victims)
    ensures forall x :: x in mru ==>
              x in nodes && (x in mru' <==> !(x in gone && Overlaps(nodes[x], hit, hit + q.size)))
    ensures victims == [] && mru' == Only(mru, Elements(mru')) ==> mru' == mru
  {
    InPoolFrame(bufs, mru, blocks, nodes, nodes1);
    if victims == [] {
      OnlyAll(mru, Elements(mru'));
    }
  }

  ghost predicate Selected(bufs: Buffers, mru: seq<Ptr>, blocks: seq<Ptr>, nodes: Nodes, x: Ptr, hit: nat, q: Request) {
    && x in mru && x in blocks && x != HEAD && x in bufs && !bufs[x].inUse && !bufs[x].unmoveable
    && x in nodes && Overlaps(nodes[x], hit, hit + q.size)
  }

  lemma EvictAllReady(s: seq<Ptr>, i: nat)
    requires Unique(s) && i < |s|
    ensures s[i..] == [s[i]] + s[i + 1..] && s[i] !in s[i + 1..] && s[i] !in s[..i] && s[i] in s[i..]
    ensures s[..i + 1] == s[..i] + [s[i]] && forall x :: x in s[i + 1..] ==> x in s[i..]
  {
    assert s[i..][0] == s[i];
  }

  lemma SameBlocksSelf(nodes: Nodes, blocks: seq<Ptr>)
    ensures SameBlocks(nodes, nodes, blocks)
  {
  }

  lemma SameBlocksTwice(nodes: Nodes, nodes1: Nodes, nodes': Nodes, blocks: seq<Ptr>)
    requires SameBlocks(nodes, nodes1, blocks) && SameBlocks(nodes1, nodes', blocks)
    ensures SameBlocks(nodes, nodes', blocks)
  {
  }

  lemma SameOverlap(nodes: Nodes, nodes': Nodes, blocks: seq<Ptr>, x: Ptr, a: int, e: int)
    requires SameBlocks(nodes, nodes', blocks) && x in blocks && x in nodes
    ensures x in nodes' && (Overlaps(nodes[x], a, e) <==> Overlaps(nodes'[x], a, e))
  {
  }

  lemma AppendUnique(s: seq<Ptr>, roster: seq<Ptr>, i: nat)
    requires Unique(s) && Unique(roster) && i < |roster| && forall x :: x in s ==> x in roster[..i]
    ensures Unique(s + [roster[i]]) && roster[i] !in s && roster[i] !in roster[..i]
    ensures roster[..i + 1] == roster[..i] + [roster[i]]
  {
    assert roster[i] !in roster[..i];
    var r := s + [roster[i]];
    forall j, k | 0 <= j < k < |r| ensures r[j] != r[k] {
      assert s[j] in s;
    }
  }

  /** main: whatever the log was, in the end one hole spans the pool. */
  method RunLog(commands: seq<Command>) returns (pool: CmaPool)
    requires forall c :: c in commands ==> c.Sane()
    ensures fresh(pool) && pool.Valid() && pool.buffers == map[] && pool.overflow == 0
    ensures pool.mm.blocks == [HEAD] && HEAD in pool.mm.node
    ensures pool.mm.node[HEAD].HoleStart() == 0 && pool.mm.node[HEAD].holeSize == POOL_SIZE
  {
    hide RbTree.Valid, RbTree.Order, LinkedList.Valid, DrmMm.Core, DrmMm.Valid, Known, Counted, InPool, CmaPool.Valid;
    pool := new CmaPool();
    ghost var states := pool.Run(commands);
    pool.FreeBuffers();
  }

  lemma {:induction false} Bounded(s: set<nat>) returns (n: nat)
    ensures forall x :: x in s ==> x < n
    decreases |s|
  {
    n := 0;
    if s != {} {
      var y :| y in s;
      n := Bounded(s - {y});
      n := if n <= y then y + 1 else n;
      assert forall x :: x in s ==> x == y || x in s - {y};
    }
  }

  /** calloc finds an address. */
  lemma FreshAddress(bufs: Buffers)
    ensures exists b: Ptr :: b !in bufs && b != NULL && b != HEAD
  {
    var n := Bounded(bufs.Keys);
    assert n + 2 !in bufs.Keys;
  }

  lemma BlocksApart(nodes: Nodes, blocks: seq<Ptr>, lo: nat, hi: nat, x: Ptr, y: Ptr)
    requires Tiled(nodes, blocks, lo, hi) && x in blocks && y in blocks && x != HEAD && y != HEAD
    ensures x in nodes && y in nodes
    ensures x != y ==>
              nodes[x].start + nodes[x].size <= nodes[y].start || nodes[y].start + nodes[y].size <= nodes[x].start
  {
    TiledDomain(nodes, blocks, lo, hi);
    var i, j := IndexOf(blocks, x), IndexOf(blocks, y);
    assert blocks[i] == x && blocks[j] == y;
  }
}
