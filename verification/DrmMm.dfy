/** The range allocator of drm_mm.c. */
module RangeAllocator {
  import opened KernelMath
  import opened Sequences
  import opened RbShape
  import opened RbErasure
  import opened RbLinking
  import opened RbTrees
  import opened LinkedLists
  import opened MmTiling

  /** The address of `mm->hole_stack`, the head of the recency list. */
  const HOLE_STACK: Ptr := NULL

  /** Only the record of `n` may differ. */
  ghost predicate SameOthers(nodes: Nodes, nodes': Nodes, n: Ptr) {
    forall x :: x in nodes && x != n ==> x in nodes' && nodes'[x] == nodes[x]
  }

  /** Only the hole size of `n` was stored. */
  ghost predicate Resized(nodes: Nodes, nodes': Nodes, n: Ptr, size: int) {
    && nodes'.Keys == nodes.Keys && n in nodes && 0 <= size <= U64_MAX
    && nodes'[n] == nodes[n].(holeSize := size) && SameOthers(nodes, nodes', n)
  }

  ghost predicate Lists(s: seq<Ptr>, h: set<Ptr>) {
    forall x :: x in s <==> x in h
  }

  /** HOLE_SIZE, negated because that tree is in descending order. */
  ghost predicate SizeKeys(node: Nodes, key: Keys<Ptr>, h: set<Ptr>) {
    forall x :: x in h ==> x in node && node[x].HoleFollows() && KeyOf(key, x) == 0 - node[x].holeSize
  }

  /** HOLE_ADDR. */
  ghost predicate AddrKeys(node: Nodes, key: Keys<Ptr>, h: set<Ptr>) {
    forall x :: x in h ==> x in node && KeyOf(key, x) == node[x].HoleStart()
  }

  /** Entries that stand in the same order in both lists have different keys. */
  ghost predicate Differ(s: seq<Ptr>, stack: seq<Ptr>, key: Keys<Ptr>, i: int, j: int, a: int, b: int) {
    0 <= i < j < |s| && 0 <= a < b < |stack| && s[i] == stack[a] && s[j] == stack[b] ==>
      KeyOf(key, s[i]) != KeyOf(key, s[j])
  }

  /** Among equal keys, what stands further back in `s` stands further in front in `stack`. */
  ghost predicate NewestLast(s: seq<Ptr>, stack: seq<Ptr>, key: Keys<Ptr>) {
    forall i: int, j: int, a: int, b: int :: Differ(s, stack, key, i, j, a, b)
  }

  /** START and LAST of the allocated nodes. */
  ghost predicate IntervalKeys(node: Nodes, key: Keys<Ptr>, value: Values, blocks: seq<Ptr>) {
    forall i :: 1 <= i < |blocks| ==>
      && blocks[i] in node && KeyOf(key, blocks[i]) == node[blocks[i]].start
      && Val(value, blocks[i]) == node[blocks[i]].start + node[blocks[i]].size - 1
  }

  class DrmMm {
    var node: Nodes
    const nodeList: LinkedList
    const holeStack: LinkedList
    const intervalTree: RbTree
    const holesSize: RbTree
    const holesAddr: RbTree
    var scanActive: nat
    /** The head node and all allocated nodes in address order, scanned ones included. */
    ghost var blocks: seq<Ptr>
    ghost const lo: nat
    ghost const hi: nat

    ghost predicate Separate() {
      && nodeList != holeStack
      && intervalTree != holesSize && intervalTree != holesAddr && holesSize != holesAddr
    }

    ghost predicate SizeIndexed(nodes: Nodes, h: set<Ptr>)
      reads holesSize
    {
      holesSize.Valid() && !holesSize.augmented && Lists(holesSize.Order(), h) && SizeKeys(nodes, holesSize.key, h)
    }

    ghost predicate AddrIndexed(nodes: Nodes, h: set<Ptr>)
      reads holesAddr
    {
      holesAddr.Valid() && !holesAddr.augmented && Lists(holesAddr.Order(), h) && AddrKeys(nodes, holesAddr.key, h)
    }

    ghost predicate Stacked(h: set<Ptr>)
      reads holeStack
    {
      holeStack.Valid() && holeStack.head == HOLE_STACK && Lists(holeStack.Items(), h) && NULL !in h
    }

    /** Among holes of one size, the size tree lists the most recent one last. */
    ghost predicate Recent()
      requires holeStack.Valid()
      reads holeStack, holesSize
    {
      NewestLast(holesSize.Order(), holeStack.Items(), holesSize.key)
    }

    /** The size tree, the address tree and the hole stack hold exactly the nodes of `h`, under the right keys. */
    ghost predicate Indexed(nodes: Nodes, h: set<Ptr>)
      reads holeStack, holesSize, holesAddr
    {
      SizeIndexed(nodes, h) && AddrIndexed(nodes, h) && Stacked(h) && Recent()
    }

    /** In the size tree `x` stands behind all holes that are at least as large, those of `newer` aside. */
    ghost predicate StandsBehind(x: Ptr, newer: seq<Ptr>)
      reads this`node, holesSize
    {
      var s := holesSize.Order();
      && x in s && x in node
      && forall y :: y in s && y != x && y !in newer ==>
           y in node && (node[y].holeSize >= node[x].holeSize ==> IndexOf(s, y) < IndexOf(s, x))
    }

    lemma NewestBehind(h: set<Ptr>, k: nat)
      requires Indexed(node, h) && k < |holeStack.Items()|
      ensures StandsBehind(holeStack.Items()[k], holeStack.Items()[..k])
    {
      hide RbTree.Order, LinkedList.Valid, DrmMm.AddrIndexed;
      var s, stack, key := holesSize.Order(), holeStack.Items(), holesSize.key;
      var x := stack[k];
      assert x in stack && SortedBy(s, key);
      forall y | y in s && y != x && y !in stack[..k] && node[y].holeSize >= node[x].holeSize
        ensures IndexOf(s, y) < IndexOf(s, x)
      {
        var b := IndexOf(stack, y);
        if b < k {
          BeforeIn(stack, b, k);
          assert false;
        }
        assert Differ(s, stack, key, IndexOf(s, x), IndexOf(s, y), k, b);
      }
    }

    /** The interval tree lists the allocated nodes in address order. */
    ghost predicate Intervals(nodes: Nodes, chain: seq<Ptr>)
      reads intervalTree
    {
      && intervalTree.Valid() && intervalTree.augmented
      && chain != [] && intervalTree.Order() == chain[1..]
      && IntervalKeys(nodes, intervalTree.key, intervalTree.value, chain)
    }

    /** Everything but the node list, which an eviction scan takes apart. */
    ghost predicate Core()
      reads this, holeStack, intervalTree, holesSize, holesAddr
    {
      && Separate() && Tiled(node, blocks, lo, hi) && (forall x :: x in blocks ==> x in node) && HoleSizes(node, blocks)
      && Indexed(node, HoleSet(node, blocks))
      && Intervals(node, blocks)
    }

    /** Outside of a scan. */
    ghost predicate Valid()
      reads this, nodeList, holeStack, intervalTree, holesSize, holesAddr
    {
      && Core()
      && nodeList.Valid() && nodeList.chain == blocks && nodeList.head == HEAD
      && scanActive == 0 && (forall x :: x in blocks ==> !node[x].scannedBlock)
    }

    /** The nodes in front of a hole. */
    ghost function Holes(): set<Ptr>
      requires Core()
      reads this, holeStack, intervalTree, holesSize, holesAddr
    {
      HoleSet(node, blocks)
    }

    /** drm_mm_init: one hole spans the whole range. */
    constructor (start: u64, size: u64)
      requires start < start + size <= U64_MAX
      ensures Valid() && blocks == [HEAD] && lo == start && hi == start + size
      ensures holeStack.Items() == [HEAD] && node[HEAD].holeSize == size
      ensures fresh(nodeList) && fresh(holeStack) && fresh(intervalTree) && fresh(holesSize) && fresh(holesAddr)
    {
      lo, hi := start, start + size;
      holeStack := new LinkedList(HOLE_STACK);
      intervalTree := new RbTree(true);
      holesSize := new RbTree(false);
      holesAddr := new RbTree(false);
      nodeList := new LinkedList(HEAD);
      node := map[HEAD := MmNode(Add64(start, size), Sub64(0, size), 0, false, false)];
      scanActive := 0;
      blocks := [HEAD];
      new;
      InitHole();
    }

    method InitHole()
      requires Separate() && nodeList.Valid() && nodeList.head == HEAD && nodeList.chain == [HEAD] && blocks == [HEAD]
      requires HeadOk(node, lo, hi) && !node[HEAD].scannedBlock && scanActive == 0
      requires holeStack.Valid() && holeStack.head == HOLE_STACK && holeStack.chain == [HOLE_STACK]
      requires intervalTree.Valid() && intervalTree.augmented && intervalTree.Order() == []
      requires holesSize.Valid() && !holesSize.augmented && holesSize.Order() == []
      requires holesAddr.Valid() && !holesAddr.augmented && holesAddr.Order() == []
      modifies this`node, holeStack, holesSize, holesAddr
      ensures Valid() && holeStack.Items() == [HEAD] && node[HEAD].holeSize == hi - lo
    {
      hide RbTree.Valid, RbTree.Order, LinkedList.Valid, DrmMm.Indexed, DrmMm.Intervals, Tiled, HoleSizes;
      InitIndexed(node);
      ghost var nodes := node;
      AddHole(HEAD, {});
      InitTiled(node, lo, hi);
      PlaceIntervals(nodes, node, [HEAD]);
      MakeValid({} + {HEAD});
    }

    lemma InitIndexed(nodes: Nodes)
      requires nodeList.Valid() && nodeList.chain == [HEAD]
      requires holeStack.Valid() && holeStack.head == HOLE_STACK && holeStack.chain == [HOLE_STACK]
      requires intervalTree.Valid() && intervalTree.augmented && intervalTree.Order() == []
      requires holesSize.Valid() && !holesSize.augmented && holesSize.Order() == []
      requires holesAddr.Valid() && !holesAddr.augmented && holesAddr.Order() == []
      ensures Indexed(nodes, {}) && Intervals(nodes, [HEAD]) && holeStack.Items() == []
      ensures HEAD in nodeList.chain && nodeList.Next(HEAD) == HEAD
    {
      hide RbTree.Valid, RbTree.Order;
    }

    /** insert_hole_size. */
    method InsertHoleSize(n: Ptr, ghost nodes: Nodes, ghost h: set<Ptr>)
      requires SizeIndexed(nodes, h) && n !in h && n != NULL && n in node && node[n].HoleFollows()
      requires SameOthers(nodes, node, n)
      modifies holesSize
      ensures SizeIndexed(node, h + {n}) && holesSize.key == old(holesSize.key)[n := 0 - node[n].holeSize]
      ensures var s := old(holesSize.Order());
              holesSize.Order() == InsertAt(s, UpperBound(s, old(holesSize.key), 0 - node[n].holeSize), n)
    {
      hide RbTree.Valid, RbTree.Order, UpperBound, InsertAt;
      IndexAdded(holesSize.Order(), h, holesSize.key, 0 - node[n].holeSize, n);
      holesSize.Insert(n, 0 - node[n].holeSize, 0);
    }

    /** RB_INSERT into the address tree. */
    method InsertHoleAddr(n: Ptr, ghost nodes: Nodes, ghost h: set<Ptr>)
      requires AddrIndexed(nodes, h) && n !in h && n != NULL && n in node
      requires SameOthers(nodes, node, n)
      modifies holesAddr
      ensures AddrIndexed(node, h + {n})
    {
      hide RbTree.Valid, RbTree.Order, UpperBound, InsertAt;
      IndexAdded(holesAddr.Order(), h, holesAddr.key, node[n].HoleStart(), n);
      holesAddr.Insert(n, node[n].HoleStart(), 0);
    }

    method PushHole(n: Ptr, ghost h: set<Ptr>)
      requires Stacked(h) && n !in h && n != NULL
      modifies holeStack
      ensures Stacked(h + {n}) && holeStack.Items() == [n] + old(holeStack.Items())
    {
      StackPushed(holeStack.chain, n);
      holeStack.Add(n, HOLE_STACK);
    }

    /** add_hole. */
    method AddHole(n: Ptr, ghost h: set<Ptr>)
      requires Separate() && Indexed(node, h) && n !in h && n != NULL && n in node
      requires nodeList.Valid() && n in nodeList.chain && nodeList.Next(n) in node
      requires node[n].HoleStart() < node[nodeList.Next(n)].start
      modifies this`node, holeStack, holesSize, holesAddr
      ensures Resized(old(node), node, n, old(node[nodeList.Next(n)].start - node[n].HoleStart()))
      ensures Indexed(node, h + {n})
      ensures holeStack.Items() == [n] + old(holeStack.Items()) && StandsBehind(n, [])
    {
      hide RbTree.Order, LinkedList.Next, NewestLast, UpperBound, InsertAt, SortedBy, DrmMm.StandsBehind;
      ghost var nodes, s, stack, key := node, holesSize.Order(), holeStack.Items(), holesSize.key;
      var next := nodeList.Next(n);
      var size: u64 := Sub64(node[next].start, node[n].HoleStart());
      assert size == nodes[next].start - nodes[n].HoleStart();
      node := node[n := node[n].(holeSize := size)];
      assert node[n].HoleFollows();
      InsertHoleSize(n, nodes, h);
      InsertHoleAddr(n, nodes, h);
      PushHole(n, h);
      NewestAdded(s, stack, key, 0 - size, n);
      NewestBehind(h + {n}, 0);
      assert holeStack.Items()[..0] == [];
    }

    /** rm_hole. */
    method RmHole(n: Ptr, ghost h: set<Ptr>)
      requires Separate() && Indexed(node, h) && n in h
      modifies this`node, holeStack, holesSize, holesAddr
      ensures Resized(old(node), node, n, 0)
      ensures Indexed(node, h - {n})
      ensures holeStack.Items() == Without(old(holeStack.Items()), n)
    {
      hide RbTree.Valid, RbTree.Order, Without, Unique, LinkAt;
      assert node[n].HoleFollows();
      StackPopped(holeStack.chain, n);
      NewestRemoved(holesSize, holeStack.chain, n);
      holeStack.Del(n);
      IndexRemoved(holesSize, h, n);
      holesSize.Erase(n);
      IndexRemoved(holesAddr, h, n);
      holesAddr.Erase(n);
      node := node[n := node[n].(holeSize := 0)];
      assert !node[n].HoleFollows();
    }

    /** The hinted insertion into the interval tree, behind the node in front of the hole. */
    method PlaceInterval(hole: Ptr, n: Ptr, ghost nodes: Nodes)
      requires Tiled(nodes, blocks, lo, hi) && Intervals(nodes, blocks) && hole in blocks && n !in blocks && n != NULL
      requires n in node && SameOthers(nodes, node, n) && node[n].size > 0
      requires hole in nodes && nodes[hole].HoleStart() <= node[n].start
      requires forall x :: x in blocks ==> x in nodes
      requires node[n].start + node[n].size <= NextStart(nodes, blocks, IndexOf(blocks, hole))
      modifies intervalTree
      ensures Intervals(node, InsertAt(blocks, IndexOf(blocks, hole) + 1, n))
    {
      hide RbTree.Valid, RbTree.Order, Tiled, InsertAt, IndexOf, UpperBound, NextStart, SameOthers;
      var last := node[n].start + node[n].size - 1;
      ghost var chain := InsertAt(blocks, IndexOf(blocks, hole) + 1, n);
      ghost var k, v := intervalTree.key[n := node[n].start], intervalTree.value[n := last];
      PlaceIntervalReady(nodes, node, blocks, lo, hi, hole, n, intervalTree.key, intervalTree.value);
      intervalTree.InsertHinted(if node[hole].isAllocated then hole else NULL, n, node[n].start, last);
      assert intervalTree.key == k && intervalTree.value == v;
    }

    /** add_hole, unless the hole would be empty. */
    method AddHoleIf(follows: bool, n: Ptr, next: Ptr, ghost h: set<Ptr>)
      requires Separate() && Indexed(node, h) && n !in h && n != NULL && n in node && node[n].holeSize == 0
      requires nodeList.Valid() && n in nodeList.chain && nodeList.Next(n) == next && next in node
      requires node[n].HoleStart() <= node[next].start && (follows <==> node[n].HoleStart() < node[next].start)
      modifies this`node, holeStack, holesSize, holesAddr
      ensures Resized(old(node), node, n, old(node[next].start - node[n].HoleStart()))
      ensures Indexed(node, AddIf(follows, h, n))
      ensures holeStack.Items() == (if follows then [n] else []) + old(holeStack.Items())
    {
      if follows {
        AddHole(n, h);
      } else {
        assert [] + holeStack.Items() == holeStack.Items();
      }
    }

    /** The update of the hole indexes after `n` was placed in the hole behind `hole`. */
    method PlaceHoles(hole: Ptr, n: Ptr, next: Ptr, ghost h: set<Ptr>)
      requires Separate() && Indexed(node, h) && hole in h && hole in node && n !in h && n != NULL && n in node
      requires hole != NULL
      requires node[n].holeSize == 0 && n != hole && next in node
      requires nodeList.Valid() && hole in nodeList.chain && n in nodeList.chain
      requires nodeList.Next(hole) == n && nodeList.Next(n) == next
      requires node[hole].HoleStart() <= node[n].start
      requires node[n].start + node[n].size == node[n].HoleStart() <= node[next].start
      modifies this`node, holeStack, holesSize, holesAddr
      ensures PlacedSizes(old(node), node, hole, n, next)
      ensures Indexed(node, PlacedHoles(h, hole, n, old(node[hole].HoleStart() < node[n].start),
                                        old(node[n].HoleStart() < node[next].start)))
      ensures holeStack.Items()
              == PlacedStack(old(holeStack.Items()), hole, n, old(node[hole].HoleStart() < node[n].start),
                                               old(node[n].HoleStart() < node[next].start))
    {
      hide RbTree.Valid, RbTree.Order, LinkedList.Valid, DrmMm.Indexed, Without;
      RmHole(hole, h);
      var below := node[hole].HoleStart() < node[n].start;
      AddHoleIf(below, hole, n, h - {hole});
      AddHoleIf(node[n].HoleStart() < node[next].start, n, next, AddIf(below, h - {hole}, hole));
    }

    lemma IndexedFrame(nodes: Nodes, nodes': Nodes, h: set<Ptr>, n: Ptr)
      requires Indexed(nodes, h) && SameOthers(nodes, nodes', n) && n !in h
      ensures Indexed(nodes', h)
    {
      hide RbTree.Valid, RbTree.Order, LinkedList.Valid;
    }

    /** The new block enters the node list and the interval tree. */
    method LinkBlock(hole: Ptr, n: Ptr, start: u64, size: u64) returns (next: Ptr)
      requires Valid() && hole in Holes() && n !in blocks && n != NULL
      requires size > 0 && node[hole].HoleStart() <= start
      requires start + size <= node[hole].HoleStart() + node[hole].holeSize
      modifies this`node, nodeList, intervalTree
      ensures Indexed(node, HoleSet(old(node), blocks))
      ensures Intervals(node, InsertAt(blocks, IndexOf(blocks, hole) + 1, n))
      ensures nodeList.Valid() && nodeList.chain == InsertAt(blocks, IndexOf(blocks, hole) + 1, n)
      ensures hole in nodeList.chain && n in nodeList.chain
      ensures nodeList.Next(hole) == n && nodeList.Next(n) == next == Succ(blocks, IndexOf(blocks, hole))
      ensures node.Keys == old(node.Keys) + {n} && node[n] == MmNode(start, size, 0, true, false)
      ensures SameOthers(old(node), node, n)
    {
      hide RbTree.Valid, RbTree.Order, LinkedList.Valid, DrmMm.Indexed, DrmMm.Intervals;
      hide Tiled, HoleSizes, InsertAt, IndexOf, Succ;
      ghost var nodes := node;
      PlaceStart(nodes, blocks, lo, hi, IndexOf(blocks, hole), n);
      nodeList.Add(n, hole);
      node := node[n := MmNode(start, size, 0, false, false)];
      PlaceInterval(hole, n, nodes);
      ghost var nodes1 := node;
      node := node[n := node[n].(isAllocated := true)];
      PlaceIntervals(nodes1, node, nodeList.chain);
      IndexedFrame(nodes, node, HoleSet(nodes, blocks), n);
      next := nodeList.Next(n);
    }

    /** The common tail of drm_mm_insert_node_in_range and drm_mm_reserve_node: the block `[start, start + size)` is
        carved out of the hole behind `hole`. */
    method Place(hole: Ptr, n: Ptr, start: u64, size: u64)
      requires Valid() && hole in Holes() && n !in blocks && n != NULL
      requires size > 0 && node[hole].HoleStart() <= start
      requires start + size <= node[hole].HoleStart() + node[hole].holeSize
      modifies this, nodeList, holeStack, intervalTree, holesSize, holesAddr
      ensures Valid() && blocks == InsertAt(old(blocks), IndexOf(old(blocks), hole) + 1, n)
      ensures Placed(old(node), node, old(blocks), n, start, size)
      ensures holeStack.Items()
              == PlacedStack(old(holeStack.Items()), hole, n, old(node[hole].HoleStart()) < start,
                             start + size < old(node[hole].HoleStart() + node[hole].holeSize))
      ensures start + size < old(node[hole].HoleStart() + node[hole].holeSize) ==>
                holeStack.Items() != [] && holeStack.Items()[0] == n && StandsBehind(n, [])
      ensures old(node[hole].HoleStart()) < start ==>
                if start + size < old(node[hole].HoleStart() + node[hole].holeSize)
                then |holeStack.Items()| > 1 && holeStack.Items()[1] == hole && StandsBehind(hole, [n])
                else holeStack.Items() != [] && holeStack.Items()[0] == hole && StandsBehind(hole, [])
    {
      hide RbTree.Valid, RbTree.Order, LinkedList.Valid, DrmMm.Indexed, DrmMm.Intervals;
      hide Tiled, HoleSizes, PlacedRecords, PlacedSizes, PlacedStack, PlacedHoles, Placed, InsertAt, IndexOf, Succ;
      hide DrmMm.StandsBehind;
      StackReady();
      ghost var h, nodes, stack := HoleSet(node, blocks), node, holeStack.Items();
      ghost var i := IndexOf(blocks, hole);
      ghost var chain := InsertAt(blocks, i + 1, n);
      PlaceStart(nodes, blocks, lo, hi, i, n);
      var next := LinkBlock(hole, n, start, size);
      ghost var nodes1 := node;
      PlaceHoles(hole, n, next, h);
      PlaceRecords(nodes, nodes1, node, blocks, i, hole, n, next, start, size);
      PlaceDone(nodes, node, blocks, chain, lo, hi, i, n, start, size);
      PlaceIntervals(nodes1, node, chain);
      ghost var below := nodes[hole].HoleStart() < start;
      ghost var above := start + size < nodes[hole].HoleStart() + nodes[hole].holeSize;
      assert below == (nodes1[hole].HoleStart() < nodes1[n].start);
      assert above == (nodes1[n].HoleStart() < nodes1[next].start);
      blocks := chain;
      MakeValid(PlacedHoles(h, hole, n, below, above));
      PlacedBehind(stack, hole, n, below, above);
    }

    lemma StackReady()
      requires Core()
      ensures holeStack.Valid()
    {
      hide RbTree.Valid, RbTree.Order, LinkedList.Valid, DrmMm.SizeIndexed, DrmMm.AddrIndexed, DrmMm.Intervals;
    }

    /** The remainders of a hole are the most recent holes, the upper one first. */
    lemma PlacedBehind(stack: seq<Ptr>, hole: Ptr, n: Ptr, below: bool, above: bool)
      requires Core() && holeStack.Items() == PlacedStack(stack, hole, n, below, above)
      ensures holeStack.Valid()
      ensures above ==> holeStack.Items() != [] && holeStack.Items()[0] == n && StandsBehind(n, [])
      ensures below && above ==> |holeStack.Items()| > 1 && holeStack.Items()[1] == hole && StandsBehind(hole, [n])
      ensures below && !above ==> holeStack.Items() != [] && holeStack.Items()[0] == hole && StandsBehind(hole, [])
    {
      hide RbTree.Valid, RbTree.Order, LinkedList.Valid, DrmMm.StandsBehind, DrmMm.SizeIndexed, DrmMm.AddrIndexed;
      hide Tiled, HoleSizes, DrmMm.Intervals;
      var h := HoleSet(node, blocks);
      if below || above {
        NewestBehind(h, 0);
        assert holeStack.Items()[..0] == [];
      }
      if below && above {
        NewestBehind(h, 1);
        assert holeStack.Items()[..1] == [n];
      }
    }

    /** The parts of Core(). */
    lemma MakeCore(h: set<Ptr>)
      requires Separate() && Tiled(node, blocks, lo, hi) && (forall x :: x in blocks ==> x in node)
      requires HoleSizes(node, blocks)
      requires Indexed(node, h) && h == HoleSet(node, blocks) && Intervals(node, blocks)
      ensures Core()
    {
      hide RbTree.Valid, RbTree.Order, LinkedList.Valid, DrmMm.Indexed, DrmMm.Intervals;
    }

    lemma MakeValid(h: set<Ptr>)
      requires Separate() && Tiled(node, blocks, lo, hi) && (forall x :: x in blocks ==> x in node)
      requires HoleSizes(node, blocks)
      requires Indexed(node, h) && h == HoleSet(node, blocks) && Intervals(node, blocks)
      requires nodeList.Valid() && nodeList.chain == blocks && nodeList.head == HEAD
      requires scanActive == 0 && (forall x :: x in blocks ==> !node[x].scannedBlock)
      ensures Valid()
    {
      hide RbTree.Valid, RbTree.Order, LinkedList.Valid, DrmMm.Indexed, DrmMm.Intervals, Tiled, HoleSizes;
    }

    lemma PlaceIntervals(nodes: Nodes, nodes': Nodes, chain: seq<Ptr>)
      requires Intervals(nodes, chain)
      requires forall x :: x in chain && x in nodes ==>
                 x in nodes' && nodes'[x].start == nodes[x].start && nodes'[x].size == nodes[x].size
      ensures Intervals(nodes', chain)
    {
      hide RbTree.Valid, RbTree.Order;
      assert forall i :: 1 <= i < |chain| ==> chain[i] in chain;
    }

    /** rm_hole, if a hole follows. */
    method RmHoleIf(n: Ptr, ghost h: set<Ptr>)
      requires Separate() && Indexed(node, h) && n in node && (n in h <==> node[n].HoleFollows())
      modifies this`node, holeStack, holesSize, holesAddr
      ensures Resized(old(node), node, n, 0)
      ensures Indexed(node, h - {n})
      ensures holeStack.Items() == Without(old(holeStack.Items()), n)
    {
      hide RbTree.Valid, RbTree.Order, LinkedList.Valid, SizeKeys, AddrKeys;
      if node[n].HoleFollows() {
        RmHole(n, h);
      } else {
        assert h - {n} == h;
        assert n !in holeStack.Items();
        WithoutAbsent(holeStack.Items(), n);
      }
    }

    /** The interval tree without `n`. */
    method EraseInterval(n: Ptr)
      requires Intervals(node, blocks) && Unique(blocks) && n in blocks && n != blocks[0]
      modifies intervalTree
      ensures Intervals(node, Without(blocks, n))
    {
      hide RbTree.Valid, RbTree.Order;
      RemoveIntervalKeys(node, blocks, n, intervalTree.key, intervalTree.value);
      intervalTree.Erase(n);
    }

    /** The block leaves the interval tree and the node list. */
    method UnlinkBlock(n: Ptr, ghost h: set<Ptr>)
      requires Separate() && Tiled(node, blocks, lo, hi) && (forall x :: x in blocks ==> x in node)
      requires Indexed(node, h) && Intervals(node, blocks) && n in blocks && n != HEAD && n !in h
      requires nodeList.Valid() && nodeList.chain == blocks && nodeList.head == HEAD
      modifies this`node, nodeList, intervalTree
      ensures Indexed(node, h) && Intervals(node, Without(blocks, n))
      ensures nodeList.Valid() && nodeList.chain == Without(blocks, n)
      ensures node.Keys == old(node.Keys) && node[n] == old(node[n]).(isAllocated := false)
      ensures SameOthers(old(node), node, n)
    {
      hide RbTree.Valid, RbTree.Order, LinkedList.Valid, DrmMm.Indexed, DrmMm.Intervals, Without;
      ghost var nodes := node;
      EraseInterval(n);
      nodeList.Del(n);
      node := node[n := node[n].(isAllocated := false)];
      PlaceIntervals(nodes, node, Without(blocks, n));
      IndexedFrame(nodes, node, h, n);
    }

    /** The first half of a removal: the block and the hole behind it leave all structures. */
    method TakeOut(n: Ptr, ghost h: set<Ptr>)
      requires Separate() && Tiled(node, blocks, lo, hi) && (forall x :: x in blocks ==> x in node)
      requires Indexed(node, h) && Intervals(node, blocks) && n in blocks && n != HEAD
      requires (n in h <==> node[n].HoleFollows())
      requires nodeList.Valid() && nodeList.chain == blocks && nodeList.head == HEAD
      modifies this`node, nodeList, holeStack, intervalTree, holesSize, holesAddr
      ensures Indexed(node, h - {n}) && Intervals(node, Without(blocks, n))
      ensures holeStack.Items() == Without(old(holeStack.Items()), n)
      ensures nodeList.Valid() && nodeList.chain == Without(blocks, n)
      ensures node.Keys == old(node.Keys) && node[n] == old(node[n]).(isAllocated := false, holeSize := 0)
      ensures SameOthers(old(node), node, n)
    {
      hide RbTree.Valid, RbTree.Order, LinkedList.Valid, DrmMm.Indexed, DrmMm.Intervals, Tiled, Without;
      ghost var nodes := node;
      RmHoleIf(n, h);
      RemoveResized(nodes, node, blocks, lo, hi, n);
      PlaceIntervals(nodes, node, blocks);
      UnlinkBlock(n, h - {n});
    }

    /** drm_mm_remove_node: the block and the holes on both sides become one hole, the most recent one. */
    method RemoveNode(n: Ptr)
      requires Valid() && n in blocks && n != HEAD
      modifies this, nodeList, holeStack, intervalTree, holesSize, holesAddr
      ensures Valid() && blocks == Without(old(blocks), n)
      ensures Removed(old(node), node, old(blocks), n)
      ensures var prev := old(blocks)[IndexOf(old(blocks), n) - 1];
              holeStack.Items() == [prev] + Without(Without(old(holeStack.Items()), n), prev) && StandsBehind(prev, [])
    {
      hide RbTree.Valid, RbTree.Order, LinkedList.Valid, DrmMm.Indexed, DrmMm.Intervals;
      hide Tiled, HoleSizes, Succ, Pred, Without, IndexOf, NextStart, RemovedRecords, Removed, SameBlocks;
      ghost var h, nodes, i := HoleSet(node, blocks), node, IndexOf(blocks, n);
      ghost var chain := Without(blocks, n);
      RemoveStart(nodes, blocks, lo, hi, i, n);
      assert node[n].isAllocated && !node[n].scannedBlock;
      var prev := nodeList.Prev(n);
      TakeOut(n, h);
      ghost var nodes2 := node;
      RmHoleIf(prev, h - {n});
      ghost var nodes3 := node;
      AddHole(prev, h - {n} - {prev});
      RemoveRecords(nodes, nodes2, nodes3, node, n, prev, NextStart(nodes, blocks, i));
      RemoveDone(nodes, node, blocks, chain, lo, hi, i);
      PlaceIntervals(nodes2, node, chain);
      blocks := chain;
      MakeValid(h - {n} - {prev} + {prev});
    }

    method ReplaceSize(o: Ptr, n: Ptr, ghost nodes: Nodes, ghost h: set<Ptr>)
      requires SizeIndexed(nodes, h) && o in h && n !in h && n != NULL
      requires n in node && o in nodes && node[n] == nodes[o] && SameOthers(nodes, node, n)
      modifies holesSize
      ensures SizeIndexed(node, h - {o} + {n}) && holesSize.key == old(holesSize.key)[n := KeyOf(old(holesSize.key), o)]
      ensures holesSize.Order() == Rename(old(holesSize.Order()), o, n)
    {
      IndexRenamed(holesSize.Order(), h, o, n);
      holesSize.ReplaceNode(o, n);
    }

    method ReplaceAddr(o: Ptr, n: Ptr, ghost nodes: Nodes, ghost h: set<Ptr>)
      requires AddrIndexed(nodes, h) && o in h && n !in h && n != NULL
      requires n in node && o in nodes && node[n] == nodes[o] && SameOthers(nodes, node, n)
      modifies holesAddr
      ensures AddrIndexed(node, h - {o} + {n})
    {
      IndexRenamed(holesAddr.Order(), h, o, n);
      holesAddr.ReplaceNode(o, n);
    }

    method ReplaceStacked(o: Ptr, n: Ptr, ghost h: set<Ptr>)
      requires Stacked(h) && o in h && n !in h && n != NULL
      modifies holeStack
      ensures Stacked(h - {o} + {n}) && holeStack.Items() == Rename(old(holeStack.Items()), o, n)
    {
      IndexRenamed(holeStack.Items(), h, o, n);
      assert Rename(holeStack.chain, o, n)[1..] == Rename(holeStack.chain[1..], o, n);
      holeStack.Replace(o, n);
    }

    /** The hole indexes of drm_mm_replace_node. */
    method ReplaceHole(o: Ptr, n: Ptr, ghost nodes: Nodes, ghost h: set<Ptr>)
      requires Separate() && Indexed(nodes, h) && n !in h && n != NULL
      requires n in node && o in nodes && (o in h <==> nodes[o].HoleFollows()) && node[n] == nodes[o]
      requires SameOthers(nodes, node, n) && o != n
      modifies holeStack, holesSize, holesAddr
      ensures Indexed(node, RenameIn(h, o, n))
      ensures holeStack.Items() == Rename(old(holeStack.Items()), o, n)
    {
      hide NewestLast;
      if node[o].HoleFollows() {
        NewestRenamed(holesSize.Order(), holeStack.Items(), holesSize.key, o, n);
        ReplaceStacked(o, n, h);
        ReplaceSize(o, n, nodes, h);
        ReplaceAddr(o, n, nodes, h);
      } else {
        IndexedFrame(nodes, node, h, n);
        RenameAbsent(holeStack.Items(), o, n);
      }
    }

    method ReplaceInterval(o: Ptr, n: Ptr, ghost nodes: Nodes)
      requires Intervals(nodes, blocks) && Unique(blocks) && o in blocks && o != blocks[0] && n !in blocks && n != NULL
      requires n in node && o in nodes && node[n] == nodes[o] && SameOthers(nodes, node, n)
      modifies intervalTree
      ensures Intervals(node, Rename(blocks, o, n))
    {
      hide RbTree.Valid, RbTree.Order;
      ReplaceIntervalKeys(nodes, node, blocks, o, n, intervalTree.key, intervalTree.value);
      intervalTree.ReplaceNode(o, n);
    }

    /** drm_mm_replace_node: `n` takes the place of `o` in every structure. */
    method ReplaceNode(o: Ptr, n: Ptr)
      requires Valid() && o in blocks && o != HEAD && n !in blocks && n != NULL
      modifies this, nodeList, holeStack, intervalTree, holesSize, holesAddr
      ensures Valid() && blocks == Rename(old(blocks), o, n)
      ensures holeStack.Items() == Rename(old(holeStack.Items()), o, n)
      ensures Taken(old(node), node, o, n)
    {
      hide RbTree.Valid, RbTree.Order, LinkedList.Valid, DrmMm.Indexed, DrmMm.Intervals;
      hide Tiled, HoleSizes, Rename, RenameIn;
      ghost var h, nodes := HoleSet(node, blocks), node;
      ghost var chain := Rename(blocks, o, n);
      ReplaceStart(nodes, blocks, lo, hi, o, n);
      assert node[o].isAllocated;
      node := node[n := node[o]];
      nodeList.Replace(o, n);
      ReplaceInterval(o, n, nodes);
      ReplaceHole(o, n, nodes, h);
      ghost var nodes1 := node;
      node := node[o := node[o].(isAllocated := false)][n := node[n].(isAllocated := true)];
      ReplaceDone(nodes, node, blocks, lo, hi, o, n);
      PlaceIntervals(nodes1, node, chain);
      IndexedFrame(nodes1, node, RenameIn(h, o, n), o);
      blocks := chain;
      MakeValid(RenameIn(h, o, n));
    }

    /** Sets the scan mark of a block, and the number of marked blocks. */
    method Mark(n: Ptr, scanned: bool, active: nat)
      requires Core() && n in blocks
      modifies this`node, this`scanActive
      ensures scanActive == active
      ensures Core() && node.Keys == old(node.Keys) && SameOthers(old(node), node, n)
      ensures n in node && node[n] == old(node[n]).(scannedBlock := scanned)
    {
      hide RbTree.Valid, RbTree.Order, LinkedList.Valid, Tiled, HoleSizes, HoleSet, DrmMm.Indexed, DrmMm.Intervals;
      ghost var nodes := node;
      node := node[n := node[n].(scannedBlock := scanned)];
      scanActive := active;
      MarkTiled(nodes, node, blocks, lo, hi, n, scanned);
      MarkIndexed(nodes, n, scanned, HoleSet(nodes, blocks));
      PlaceIntervals(nodes, node, blocks);
      MakeCore(HoleSet(nodes, blocks));
    }

    lemma MarkIndexed(nodes: Nodes, n: Ptr, scanned: bool, h: set<Ptr>)
      requires Indexed(nodes, h) && n in nodes && node == nodes[n := nodes[n].(scannedBlock := scanned)]
      ensures Indexed(node, h)
    {
      hide RbTree.Valid, RbTree.Order, LinkedList.Valid;
    }
  }

  lemma MarkTiled(nodes: Nodes, nodes': Nodes, blocks: seq<Ptr>, lo: nat, hi: nat, n: Ptr, scanned: bool)
    requires Tiled(nodes, blocks, lo, hi) && (forall x :: x in blocks ==> x in nodes) && HoleSizes(nodes, blocks)
    requires n in nodes && nodes' == nodes[n := nodes[n].(scannedBlock := scanned)]
    ensures Tiled(nodes', blocks, lo, hi) && (forall x :: x in blocks ==> x in nodes') && HoleSizes(nodes', blocks)
    ensures HoleSet(nodes', blocks) == HoleSet(nodes, blocks)
  {
    TiledFrame(nodes, nodes', blocks, lo, hi);
    forall i | 0 <= i < |blocks| ensures HoleSizeAt(nodes', blocks, i) {
      assert HoleSizeAt(nodes, blocks, i) && blocks[i] in blocks && Succ(blocks, i) in blocks;
    }
  }

  // ----- replacing a node

  /** `n` has taken over the record of `o`, which is no longer allocated. */
  ghost predicate Taken(nodes: Nodes, nodes': Nodes, o: Ptr, n: Ptr) {
    && o in nodes && nodes'.Keys == nodes.Keys + {n}
    && nodes'[n] == nodes[o] && nodes'[o] == nodes[o].(isAllocated := false)
    && forall x :: x in nodes && x != o && x != n ==> nodes'[x] == nodes[x]
  }

  ghost function RenameIn(h: set<Ptr>, o: Ptr, n: Ptr): set<Ptr> {
    if o in h then h - {o} + {n} else h
  }

  lemma IndexRenamed(s: seq<Ptr>, h: set<Ptr>, o: Ptr, n: Ptr)
    requires Lists(s, h) && o in h
    ensures Lists(Rename(s, o, n), h - {o} + {n})
  {
    var r := Rename(s, o, n);
    forall x | x in h - {o} + {n} ensures x in r {
      var i :| 0 <= i < |s| && s[i] == if x == n && x !in h - {o} then o else x;
      assert r[i] == x;
    }
    forall x | x in r ensures x in h - {o} + {n} {
      var i :| 0 <= i < |r| && r[i] == x;
      assert s[i] in s;
    }
  }

  lemma RenameAbsent(s: seq<Ptr>, o: Ptr, n: Ptr)
    requires o !in s
    ensures Rename(s, o, n) == s
  {
  }

  lemma ReplaceIntervalKeys(nodes: Nodes, nodes': Nodes, blocks: seq<Ptr>, o: Ptr, n: Ptr, key: Keys<Ptr>,
                            value: Values)
    requires IntervalKeys(nodes, key, value, blocks) && Unique(blocks) && o in blocks && o != blocks[0] && n !in blocks
    requires n in nodes' && o in nodes && nodes'[n] == nodes[o] && SameOthers(nodes, nodes', n)
    ensures IntervalKeys(nodes', key[n := KeyOf(key, o)], value[n := Val(value, o)], Rename(blocks, o, n))
    ensures o in blocks[1..] && n !in blocks[1..] && Rename(blocks, o, n)[1..] == Rename(blocks[1..], o, n)
  {
    var i := IndexOf(blocks, o);
    assert blocks[1..][i - 1] == o;
    var chain := Rename(blocks, o, n);
    forall j | 1 <= j < |chain|
      ensures var x := chain[j];
              && x in nodes' && KeyOf(key[n := KeyOf(key, o)], x) == nodes'[x].start
              && Val(value[n := Val(value, o)], x) == nodes'[x].start + nodes'[x].size - 1
    {
      assert blocks[j] in blocks && blocks[i] == o;
    }
  }

  lemma ReplaceStart(nodes: Nodes, blocks: seq<Ptr>, lo: nat, hi: nat, o: Ptr, n: Ptr)
    requires Tiled(nodes, blocks, lo, hi) && o in blocks && o != HEAD && n !in blocks
    ensures Unique(blocks) && blocks[0] == HEAD && o in nodes && nodes[o].isAllocated
  {
    TiledDomain(nodes, blocks, lo, hi);
  }

  lemma ReplaceDone(nodes: Nodes, nodes': Nodes, blocks: seq<Ptr>, lo: nat, hi: nat, o: Ptr, n: Ptr)
    requires Tiled(nodes, blocks, lo, hi) && o in blocks && o != HEAD && n !in blocks && n != NULL
    requires (forall x :: x in blocks ==> x in nodes) && HoleSizes(nodes, blocks) && Taken(nodes, nodes', o, n)
    ensures var chain := Rename(blocks, o, n);
            && Tiled(nodes', chain, lo, hi) && (forall x :: x in chain ==> x in nodes') && HoleSizes(nodes', chain)
            && HoleSet(nodes', chain) == RenameIn(HoleSet(nodes, blocks), o, n)
            && chain[0] == HEAD
            && ((forall x :: x in blocks ==> !nodes[x].scannedBlock) ==>
                  forall x :: x in chain ==> !nodes'[x].scannedBlock)
  {
    hide Tiled, HoleSizes;
    var chain := Rename(blocks, o, n);
    TiledDomain(nodes, blocks, lo, hi);
    HeadFirst(nodes, blocks, lo, hi);
    forall j | 0 <= j < |chain| ensures chain[j] in nodes' && SameRecord(nodes, nodes', blocks[j], chain[j]) {
      assert blocks[j] in blocks;
    }
    RenamedTiled(nodes, nodes', blocks, chain, lo, hi);
    IndexRenamed(blocks, (set x | x in blocks), o, n);
    forall x ensures x in HoleSet(nodes', chain) <==> x in RenameIn(HoleSet(nodes, blocks), o, n) {
      assert x in chain <==> (x in blocks && x != o) || x == n;
    }
  }

  lemma RemoveIntervalKeys(nodes: Nodes, blocks: seq<Ptr>, n: Ptr, key: Keys<Ptr>, value: Values)
    requires IntervalKeys(nodes, key, value, blocks) && Unique(blocks) && n in blocks && n != blocks[0]
    ensures IntervalKeys(nodes, key, value, Without(blocks, n))
    ensures Without(blocks, n) != [] && Without(blocks, n)[1..] == Without(blocks[1..], n) && n in blocks[1..]
  {
    var i := IndexOf(blocks, n);
    ShrunkWithout(blocks, i);
    var chain := Without(blocks, n);
    forall j | 1 <= j < |chain|
      ensures chain[j] in nodes && KeyOf(key, chain[j]) == nodes[chain[j]].start
      ensures Val(value, chain[j]) == nodes[chain[j]].start + nodes[chain[j]].size - 1
    {
      assert chain[j] == blocks[if j < i then j else j + 1];
    }
    assert blocks[1..][i - 1] == n;
  }

  /** The ring around a block that is about to be removed. */
  lemma RemoveStart(nodes: Nodes, blocks: seq<Ptr>, lo: nat, hi: nat, i: nat, n: Ptr)
    requires Tiled(nodes, blocks, lo, hi) && n in blocks && n != HEAD && i == IndexOf(blocks, n)
    requires forall x :: x in blocks ==> x in nodes
    ensures 0 < i < |blocks| && blocks[i] == n
    ensures var prev, chain := blocks[i - 1], Without(blocks, n);
            && n in nodes && nodes[n].isAllocated && prev in blocks && prev != n && prev != NULL
            && Pred(blocks, i) == prev && prev in chain && n !in chain && chain != [] && chain[0] == HEAD
            && Succ(chain, IndexOf(chain, prev)) == Succ(blocks, i) && Succ(blocks, i) in chain
            && nodes[prev].HoleStart() < NextStart(nodes, blocks, i)
            && NextStart(nodes, blocks, i) == nodes[Succ(blocks, i)].start
    ensures forall x :: x in Without(blocks, n) ==> x in blocks
    ensures Unique(blocks) && blocks[0] == HEAD
  {
    hide Without, Tiled, IndexOf, Unique;
    HeadFirst(nodes, blocks, lo, hi);
    assert blocks[i] == n;
    var prev, chain := blocks[i - 1], Without(blocks, n);
    ShrunkWithout(blocks, i);
    TiledDomain(nodes, blocks, lo, hi);
    HoleBounds(nodes, blocks, lo, hi, i - 1);
    HoleBounds(nodes, blocks, lo, hi, i);
    BlockEnd(nodes, blocks, lo, hi, n);
    UniqueAt(blocks, i - 1, i);
    assert chain[i - 1] == prev && chain[0] == HEAD;
    IndexUnique(chain, i - 1);
  }

  lemma UniqueAt(s: seq<Ptr>, i: nat, j: nat)
    requires Unique(s) && i < j < |s|
    ensures s[i] != s[j]
  {
  }

  lemma IndexUnique(s: seq<Ptr>, i: nat)
    requires Unique(s) && i < |s|
    ensures IndexOf(s, s[i]) == i
  {
  }

  lemma RemoveResized(nodes: Nodes, nodes': Nodes, blocks: seq<Ptr>, lo: nat, hi: nat, n: Ptr)
    requires Tiled(nodes, blocks, lo, hi) && (forall x :: x in blocks ==> x in nodes) && Resized(nodes, nodes', n, 0)
    ensures Tiled(nodes', blocks, lo, hi) && (forall x :: x in blocks ==> x in nodes')
    ensures SameBlocks(nodes, nodes', blocks)
  {
    TiledFrame(nodes, nodes', blocks, lo, hi);
  }

  /** The records after `n` was removed and the hole behind `prev` grown up to `end`. */
  ghost predicate RemovedRecords(nodes: Nodes, nodes': Nodes, n: Ptr, prev: Ptr, end: nat) {
    && {n, prev} <= nodes.Keys && n != prev && nodes'.Keys == nodes.Keys
    && nodes[prev].HoleStart() < end <= U64_MAX
    && nodes'[prev] == nodes[prev].(holeSize := end - nodes[prev].HoleStart())
    && forall x :: x in nodes && x != n && x != prev ==> nodes'[x] == nodes[x]
  }

  lemma RemoveRecords(nodes: Nodes, nodes2: Nodes, nodes3: Nodes, nodes': Nodes, n: Ptr, prev: Ptr, end: nat)
    requires n in nodes && nodes2.Keys == nodes.Keys && SameOthers(nodes, nodes2, n)
    requires nodes2[n] == nodes[n].(isAllocated := false, holeSize := 0) && Resized(nodes2, nodes3, prev, 0)
    requires n != prev
    requires nodes[prev].HoleStart() < end <= U64_MAX && Resized(nodes3, nodes', prev, end - nodes[prev].HoleStart())
    ensures RemovedRecords(nodes, nodes', n, prev, end)
    ensures n in nodes' && nodes'[n] == nodes[n].(isAllocated := false, holeSize := 0)
    ensures forall x :: x in nodes ==> nodes'[x].start == nodes2[x].start && nodes'[x].size == nodes2[x].size
  {
  }

  /** The effect of a removal on the node records: the other blocks keep their place. */
  ghost predicate Removed(nodes: Nodes, nodes': Nodes, blocks: seq<Ptr>, n: Ptr) {
    && nodes'.Keys == nodes.Keys && SameBlocks(nodes, nodes', Without(blocks, n))
    && n in nodes && nodes'[n] == nodes[n].(isAllocated := false, holeSize := 0)
    && forall x :: x in nodes && x !in blocks ==> nodes'[x] == nodes[x]
  }

  lemma RemoveDone(nodes: Nodes, nodes': Nodes, blocks: seq<Ptr>, chain: seq<Ptr>, lo: nat, hi: nat, i: nat)
    requires Tiled(nodes, blocks, lo, hi) && 0 < i < |blocks| && chain == Without(blocks, blocks[i])
    requires forall x :: x in blocks ==> x in nodes
    requires HoleSizes(nodes, blocks)
    requires RemovedRecords(nodes, nodes', blocks[i], blocks[i - 1], NextStart(nodes, blocks, i))
    ensures Tiled(nodes', chain, lo, hi) && (forall x :: x in chain ==> x in nodes') && HoleSizes(nodes', chain)
    ensures HoleSet(nodes', chain) == HoleSet(nodes, blocks) - {blocks[i]} - {blocks[i - 1]} + {blocks[i - 1]}
    ensures nodes'[blocks[i]] == nodes[blocks[i]].(isAllocated := false, holeSize := 0) ==>
              Removed(nodes, nodes', blocks, blocks[i])
    ensures (forall x :: x in blocks ==> !nodes[x].scannedBlock) ==> forall x :: x in chain ==> !nodes'[x].scannedBlock
  {
    hide Without;
    ShrunkWithout(blocks, i);
    RemoveSets(nodes, nodes', blocks, chain, blocks[i], blocks[i - 1], NextStart(nodes, blocks, i));
    RemoveTiled(nodes, nodes', blocks, chain, lo, hi, i);
    forall j | 0 <= j < |blocks| && j != i && j != i - 1
      ensures blocks[j] in nodes' && nodes'[blocks[j]].holeSize == nodes[blocks[j]].holeSize
    {
      assert blocks[j] != blocks[i] && blocks[j] != blocks[i - 1] && blocks[j] in blocks;
    }
    RemoveHoleSizes(nodes, nodes', blocks, chain, lo, hi, i);
  }

  lemma RemoveSets(nodes: Nodes, nodes': Nodes, blocks: seq<Ptr>, chain: seq<Ptr>, n: Ptr, prev: Ptr, end: nat)
    requires forall x :: x in blocks ==> x in nodes
    requires prev in blocks && forall x :: x in chain <==> x in blocks && x != n
    requires RemovedRecords(nodes, nodes', n, prev, end)
    ensures forall x :: x in chain ==> x in nodes'
    ensures HoleSet(nodes', chain) == HoleSet(nodes, blocks) - {n} - {prev} + {prev}
    ensures SameBlocks(nodes, nodes', chain)
    ensures (forall x :: x in blocks ==> !nodes[x].scannedBlock) ==> forall x :: x in chain ==> !nodes'[x].scannedBlock
    ensures forall x :: x in nodes && x !in blocks ==> x != n ==> nodes'[x] == nodes[x]
  {
    forall x ensures x in HoleSet(nodes', chain) <==> x in HoleSet(nodes, blocks) - {n} - {prev} + {prev} {
      assert prev in chain;
    }
  }

  /** The ring around the new entry. */
  lemma PlaceStart(nodes: Nodes, blocks: seq<Ptr>, lo: nat, hi: nat, i: nat, n: Ptr)
    requires Tiled(nodes, blocks, lo, hi) && i < |blocks| && n !in blocks && n != NULL
    requires forall x :: x in blocks ==> x in nodes
    requires HoleSizes(nodes, blocks)
    ensures var chain := InsertAt(blocks, i + 1, n);
            && n in chain && blocks[i] in chain && IndexOf(chain, blocks[i]) == i && IndexOf(chain, n) == i + 1
            && Succ(chain, i) == n && Succ(chain, i + 1) == Succ(blocks, i)
    ensures IndexOf(blocks, blocks[i]) == i && Succ(blocks, i) in blocks
    ensures nodes[blocks[i]].HoleStart() + nodes[blocks[i]].holeSize == NextStart(nodes, blocks, i) <= hi
    ensures n !in HoleSet(nodes, blocks) && blocks[i] != NULL
  {
    TiledDomain(nodes, blocks, lo, hi);
    GrownInsert(blocks, i, n);
    var chain := InsertAt(blocks, i + 1, n);
    assert chain[i] == blocks[i] && chain[i + 1] == n;
    HoleBounds(nodes, blocks, lo, hi, i);
    assert HoleSizeAt(nodes, blocks, i);
  }

  /** The records after a placement in the hole `[hole.HoleStart(), end)`. */
  ghost predicate PlacedRecords(nodes: Nodes, nodes': Nodes, hole: Ptr, n: Ptr, start: u64, size: u64, end: nat) {
    && hole in nodes && hole != n && nodes'.Keys == nodes.Keys + {n}
    && nodes[hole].HoleStart() <= start && start + size <= end <= U64_MAX
    && nodes'[hole] == nodes[hole].(holeSize := start - nodes[hole].HoleStart())
    && nodes'[n] == MmNode(start, size, end - (start + size), true, false)
    && forall x :: x in nodes && x != hole && x != n ==> nodes'[x] == nodes[x]
  }

  lemma PlaceRecords(nodes: Nodes, nodes1: Nodes, nodes': Nodes, blocks: seq<Ptr>, i: nat, hole: Ptr, n: Ptr, next: Ptr,
                     start: u64, size: u64)
    requires i < |blocks| && hole == blocks[i] && n !in blocks && next == Succ(blocks, i)
    requires forall x :: x in blocks ==> x in nodes
    requires nodes1.Keys == nodes.Keys + {n} && nodes1[n] == MmNode(start, size, 0, true, false)
    requires SameOthers(nodes, nodes1, n) && start + size <= U64_MAX
    requires nodes[hole].HoleStart() <= start && start + size <= NextStart(nodes, blocks, i)
    requires PlacedSizes(nodes1, nodes', hole, n, next)
    ensures PlacedRecords(nodes, nodes', hole, n, start, size, NextStart(nodes, blocks, i))
    ensures SameBlocks(nodes1, nodes', InsertAt(blocks, i + 1, n))
  {
    assert hole in blocks && next in blocks;
  }

  lemma PlaceDone(nodes: Nodes, nodes': Nodes, blocks: seq<Ptr>, chain: seq<Ptr>, lo: nat, hi: nat, i: nat, n: Ptr,
                  start: u64, size: u64)
    requires Tiled(nodes, blocks, lo, hi) && i < |blocks| && n !in blocks && n != NULL && size > 0
    requires forall x :: x in blocks ==> x in nodes
    requires HoleSizes(nodes, blocks) && chain == InsertAt(blocks, i + 1, n)
    requires PlacedRecords(nodes, nodes', blocks[i], n, start, size, NextStart(nodes, blocks, i))
    requires nodes[blocks[i]].HoleFollows()
    ensures Tiled(nodes', chain, lo, hi) && (forall x :: x in chain ==> x in nodes') && HoleSizes(nodes', chain)
    ensures HoleSet(nodes', chain)
         == PlacedHoles(HoleSet(nodes, blocks), blocks[i], n, nodes[blocks[i]].HoleStart() < start,
                        start + size < NextStart(nodes, blocks, i))
    ensures Placed(nodes, nodes', blocks, n, start, size)
    ensures (forall x :: x in blocks ==> !nodes[x].scannedBlock) ==> forall x :: x in chain ==> !nodes'[x].scannedBlock
  {
    GrownInsert(blocks, i, n);
    PlaceSets(nodes, nodes', blocks, chain, blocks[i], n, start, size, NextStart(nodes, blocks, i));
    PlaceTiled(nodes, nodes', blocks, chain, lo, hi, i, n);
    TiledDomain(nodes', chain, lo, hi);
    forall j | 0 <= j < |blocks| && j != i ensures nodes'[blocks[j]].holeSize == nodes[blocks[j]].holeSize {
      assert blocks[j] != blocks[i] && blocks[j] in blocks;
    }
    PlaceHoleSizes(nodes, nodes', blocks, chain, lo, hi, i, n);
  }

  lemma PlaceSets(nodes: Nodes, nodes': Nodes, blocks: seq<Ptr>, chain: seq<Ptr>, hole: Ptr, n: Ptr, start: u64,
                  size: u64, end: nat)
    requires hole in blocks && n !in blocks && (forall x :: x in chain <==> x in blocks || x == n)
    requires forall x :: x in blocks ==> x in nodes
    requires PlacedRecords(nodes, nodes', hole, n, start, size, end) && nodes[hole].HoleFollows()
    ensures forall x :: x in chain ==> x in nodes'
    ensures HoleSet(nodes', chain)
         == PlacedHoles(HoleSet(nodes, blocks), hole, n, nodes[hole].HoleStart() < start, start + size < end)
    ensures Placed(nodes, nodes', blocks, n, start, size)
    ensures (forall x :: x in blocks ==> !nodes[x].scannedBlock) ==> forall x :: x in chain ==> !nodes'[x].scannedBlock
  {
    var h := PlacedHoles(HoleSet(nodes, blocks), hole, n, nodes[hole].HoleStart() < start, start + size < end);
    forall x ensures x in HoleSet(nodes', chain) <==> x in h {
      if x != hole && x != n {
        assert x in h <==> x in HoleSet(nodes, blocks);
      }
    }
  }

  /** The effect of a placement on the node records: the other blocks keep their place. */
  ghost predicate Placed(nodes: Nodes, nodes': Nodes, blocks: seq<Ptr>, n: Ptr, start: u64, size: u64) {
    && SameBlocks(nodes, nodes', blocks)
    && n in nodes' && nodes'[n].start == start && nodes'[n].size == size && nodes'[n].isAllocated
    && (forall x :: x in nodes && x !in blocks && x != n ==> x in nodes' && nodes'[x] == nodes[x])
    && nodes'.Keys == nodes.Keys + {n}
  }

  ghost function AddIf(c: bool, h: set<Ptr>, n: Ptr): set<Ptr> {
    if c then h + {n} else h
  }

  /** The hole behind `hole` now ends at `n`, and the rest of it lies behind `n`. */
  ghost predicate PlacedSizes(nodes: Nodes, nodes': Nodes, hole: Ptr, n: Ptr, next: Ptr)
    requires {hole, n, next} <= nodes.Keys
    requires nodes[hole].HoleStart() <= nodes[n].start && nodes[n].HoleStart() <= nodes[next].start
  {
    && nodes'.Keys == nodes.Keys
    && nodes'[hole] == nodes[hole].(holeSize := nodes[n].start - nodes[hole].HoleStart())
    && nodes'[n] == nodes[n].(holeSize := nodes[next].start - nodes[n].HoleStart())
    && forall x :: x in nodes && x != hole && x != n ==> nodes'[x] == nodes[x]
  }

  ghost function PlacedHoles(h: set<Ptr>, hole: Ptr, n: Ptr, below: bool, above: bool): set<Ptr> {
    AddIf(above, AddIf(below, h - {hole}, hole), n)
  }

  /** The holes left of a placement are the most recent ones, the upper one first. */
  ghost function PlacedStack(s: seq<Ptr>, hole: Ptr, n: Ptr, below: bool, above: bool): seq<Ptr> {
    (if above then [n] else []) + ((if below then [hole] else []) + Without(s, hole))
  }

  /** Where the key of the new block belongs. */
  lemma PlaceKeys(nodes: Nodes, blocks: seq<Ptr>, lo: nat, hi: nat, i: nat, key: Keys<Ptr>, start: nat)
    requires Tiled(nodes, blocks, lo, hi) && i < |blocks| && forall x :: x in blocks ==> x in nodes
    requires forall j :: 1 <= j < |blocks| ==> KeyOf(key, blocks[j]) == nodes[blocks[j]].start
    requires nodes[blocks[i]].HoleStart() <= start < NextStart(nodes, blocks, i)
    ensures UpperBound(blocks[1..], key, start) == i
  {
    var a, b := blocks[1..i + 1], blocks[i + 1..];
    assert blocks[1..] == a + b;
    forall j | 0 <= j < |a| ensures KeyOf(key, a[j]) <= start {
      PlaceAfter(nodes, blocks, lo, hi, j + 1, i);
      assert a[j] == blocks[j + 1];
    }
    if b != [] {
      HoleBounds(nodes, blocks, lo, hi, i);
      assert b[0] == blocks[i + 1];
    }
    UpperBoundIs(a, b, key, start);
  }

  lemma PlaceIntervalReady(nodes: Nodes, nodes': Nodes, blocks: seq<Ptr>, lo: nat, hi: nat, hole: Ptr, n: Ptr,
                           key: Keys<Ptr>, value: Values)
    requires Tiled(nodes, blocks, lo, hi) && hole in blocks && n !in blocks && IntervalKeys(nodes, key, value, blocks)
    requires n in nodes' && SameOthers(nodes, nodes', n) && nodes'[n].size > 0
    requires hole in nodes && nodes[hole].HoleStart() <= nodes'[n].start
    requires forall x :: x in blocks ==> x in nodes
    requires nodes'[n].start + nodes'[n].size <= NextStart(nodes, blocks, IndexOf(blocks, hole))
    ensures hole in nodes' && n !in blocks[1..] && InsertAt(blocks, IndexOf(blocks, hole) + 1, n) != []
    ensures var hint := if nodes'[hole].isAllocated then hole else NULL;
            && (hint != NULL ==> hint in blocks[1..])
            && UpperBound(blocks[1..], key, nodes'[n].start)
               == if hint == NULL then 0 else IndexOf(blocks[1..], hint) + 1
    ensures IntervalKeys(nodes', key[n := nodes'[n].start], value[n := nodes'[n].start + nodes'[n].size - 1],
                         InsertAt(blocks, IndexOf(blocks, hole) + 1, n))
    ensures InsertAt(blocks[1..], UpperBound(blocks[1..], key, nodes'[n].start), n)
         == InsertAt(blocks, IndexOf(blocks, hole) + 1, n)[1..]
  {
    var i := IndexOf(blocks, hole);
    HoleBounds(nodes, blocks, lo, hi, i);
    PlaceKeys(nodes, blocks, lo, hi, i, key, nodes'[n].start);
    HintIndex(blocks, i);
    PlaceIntervalKeys(nodes, nodes', blocks, i, n, key, value);
    TiledDomain(nodes, blocks, lo, hi);
    assert blocks[i] == hole && (i == 0 <==> hole == HEAD);
  }

  lemma HintIndex(blocks: seq<Ptr>, i: nat)
    requires Unique(blocks) && i < |blocks|
    ensures i > 0 ==> blocks[i] in blocks[1..] && IndexOf(blocks[1..], blocks[i]) + 1 == i
  {
    if i > 0 {
      assert blocks[1..][i - 1] == blocks[i];
    }
  }

  lemma PlaceIntervalKeys(nodes: Nodes, nodes': Nodes, blocks: seq<Ptr>, i: nat, n: Ptr, key: Keys<Ptr>, value: Values)
    requires IntervalKeys(nodes, key, value, blocks) && n !in blocks && i < |blocks| && Unique(blocks)
    requires n in nodes' && SameOthers(nodes, nodes', n) && nodes'[n].start + nodes'[n].size > 0
    ensures var last := nodes'[n].start + nodes'[n].size - 1;
            IntervalKeys(nodes', key[n := nodes'[n].start], value[n := last], InsertAt(blocks, i + 1, n))
    ensures InsertAt(blocks, i + 1, n)[1..] == InsertAt(blocks[1..], i, n)
  {
    GrownInsert(blocks, i, n);
    var chain := InsertAt(blocks, i + 1, n);
    var key', value' := key[n := nodes'[n].start], value[n := nodes'[n].start + nodes'[n].size - 1];
    forall j | 1 <= j < |chain|
      ensures chain[j] in nodes' && KeyOf(key', chain[j]) == nodes'[chain[j]].start
      ensures Val(value', chain[j]) == nodes'[chain[j]].start + nodes'[chain[j]].size - 1
    {
      if j != i + 1 {
        var k := if j <= i then j else j - 1;
        assert chain[j] == blocks[k] && blocks[k] != n;
      }
    }
  }

  lemma InitTiled(node: Nodes, lo: nat, hi: nat)
    requires HeadOk(node, lo, hi) && node[HEAD].holeSize == hi - lo
    ensures Tiled(node, [HEAD], lo, hi) && (forall x :: x in [HEAD] ==> x in node) && HoleSizes(node, [HEAD])
    ensures HoleSet(node, [HEAD]) == {} + {HEAD}
  {
    assert HoleSizeAt(node, [HEAD], 0);
  }

  lemma IndexAdded(s: seq<Ptr>, h: set<Ptr>, key: Keys<Ptr>, k: int, n: Ptr)
    requires Lists(s, h)
    ensures Lists(InsertAt(s, UpperBound(s, key, k), n), h + {n})
  {
    hide UpperBound, KeyOf;
    var i := UpperBound(s, key, k);
    var s' := InsertAt(s, i, n);
    forall x | x in s ensures x in s' {
      var j :| 0 <= j < |s| && s[j] == x;
      assert s'[if j < i then j else j + 1] == x;
    }
    assert s'[i] == n;
  }

  lemma BeforeIn(s: seq<Ptr>, i: nat, k: nat)
    requires i < k <= |s|
    ensures s[i] in s[..k]
  {
    assert s[..k][i] == s[i];
  }

  lemma NewestAdded(s: seq<Ptr>, stack: seq<Ptr>, key: Keys<Ptr>, k: int, n: Ptr)
    requires NewestLast(s, stack, key) && SortedBy(s, key) && n !in s && n !in stack
    ensures NewestLast(InsertAt(s, UpperBound(s, key, k), n), [n] + stack, key[n := k])
  {
    hide UpperBound;
    var u := UpperBound(s, key, k);
    var s', stack', key' := InsertAt(s, u, n), [n] + stack, key[n := k];
    forall i, j, a, b ensures Differ(s', stack', key', i, j, a, b) {
      if 0 <= i < j < |s'| && 0 <= a < b < |stack'| && s'[i] == stack'[a] && s'[j] == stack'[b] {
        assert stack'[b] == stack[b - 1] && stack[b - 1] in stack;
        var i', j' := if i < u then i else i - 1, if j < u then j else j - 1;
        assert j != u && s'[j] == s[j'] && s[j'] in s;
        if i == u {
          assert KeyOf(key, s[u]) > k && KeyOf(key, s[u]) <= KeyOf(key, s[j']);
        } else {
          assert s'[i] == s[i'] && s[i'] in s;
          assert a > 0 && stack'[a] == stack[a - 1];
          assert Differ(s, stack, key, i', j', a - 1, b - 1);
        }
      }
    }
  }

  lemma NewestWithout(s: seq<Ptr>, stack: seq<Ptr>, key: Keys<Ptr>, n: Ptr)
    requires NewestLast(s, stack, key) && Unique(s) && Unique(stack) && n in s && n in stack
    ensures NewestLast(Without(s, n), Without(stack, n), key)
  {
    hide Without, Unique, Differ;
    var p, q := IndexOf(s, n), IndexOf(stack, n);
    ShrunkWithout(s, p);
    ShrunkWithout(stack, q);
    NewestShrunk(s, Without(s, n), stack, Without(stack, n), key, p, q);
  }

  lemma NewestShrunk(s: seq<Ptr>, s': seq<Ptr>, stack: seq<Ptr>, stack': seq<Ptr>, key: Keys<Ptr>, p: nat, q: nat)
    requires NewestLast(s, stack, key) && Shrunk(s, s', p) && Shrunk(stack, stack', q)
    ensures NewestLast(s', stack', key)
  {
    forall i, j, a, b ensures Differ(s', stack', key, i, j, a, b) {
      assert Differ(s, stack, key, if i < p then i else i + 1, if j < p then j else j + 1,
                    if a < q then a else a + 1, if b < q then b else b + 1);
    }
  }

  lemma NewestRemoved(t: RbTree, chain: seq<Ptr>, n: Ptr)
    requires t.Valid() && Unique(chain) && chain != [] && n in chain[1..] && n in t.Order()
    requires NewestLast(t.Order(), chain[1..], t.key)
    ensures NewestLast(Without(t.Order(), n), Without(chain[1..], n), t.key)
  {
    hide NewestLast;
    DistinctInOrder(t.tree);
    assert Unique(chain[1..]);
    NewestWithout(t.Order(), chain[1..], t.key, n);
  }

  lemma NewestRenamed(s: seq<Ptr>, stack: seq<Ptr>, key: Keys<Ptr>, o: Ptr, n: Ptr)
    requires NewestLast(s, stack, key) && n !in s && n !in stack
    ensures NewestLast(Rename(s, o, n), Rename(stack, o, n), key[n := KeyOf(key, o)])
  {
    var s', stack', key' := Rename(s, o, n), Rename(stack, o, n), key[n := KeyOf(key, o)];
    forall i, j, a, b ensures Differ(s', stack', key', i, j, a, b) {
      assert Differ(s, stack, key, i, j, a, b);
      if 0 <= i < j < |s| && 0 <= a < b < |stack| {
        assert s[i] in s && s[j] in s && stack[a] in stack && stack[b] in stack;
      }
    }
  }

  lemma IndexRemoved(t: RbTree, h: set<Ptr>, n: Ptr)
    requires t.Valid() && Lists(t.Order(), h)
    ensures Lists(Without(t.Order(), n), h - {n})
  {
    DistinctInOrder(t.tree);
    WithoutUnique(t.Order(), n);
  }

  lemma StackPushed(chain: seq<Ptr>, n: Ptr)
    requires chain != [] && chain[0] == HOLE_STACK
    ensures HOLE_STACK in chain && IndexOf(chain, HOLE_STACK) == 0
    ensures InsertAt(chain, 1, n)[1..] == [n] + chain[1..]
  {
  }

  lemma StackPopped(chain: seq<Ptr>, n: Ptr)
    requires chain != [] && Unique(chain) && n in chain[1..]
    ensures n in chain && n != chain[0] && Without(chain, n)[1..] == Without(chain[1..], n)
    ensures forall x :: x in Without(chain[1..], n) <==> x in chain[1..] && x != n
  {
    var i :| 0 <= i < |chain| - 1 && chain[1..][i] == n;
    assert chain[i + 1] == n;
    assert Unique(chain[1..]);
    WithoutUnique(chain[1..], n);
  }
}
