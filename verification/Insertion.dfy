/** drm_mm_insert_node_in_range and drm_mm_reserve_node. */
module Insertion {
  import opened KernelMath
  import opened Sequences
  import opened RbShape
  import opened RbTrees
  import opened LinkedLists
  import opened MmTiling
  import opened RangeAllocator
  import opened HoleSearch
  import opened Gaps

  /** What each mode promises about the hole and the start it chose: the smallest hole that suits, and of those the most
      recent one; the lowest start of all; the highest start of all; or the most recent hole that suits. In each mode it
      is the outermost start in that hole. */
  ghost predicate Preferred(mm: DrmMm, q: Request, mode: Mode, hole: Ptr, start: int)
    requires mm.Core()
    reads mm, mm.holeStack, mm.intervalTree, mm.holesSize, mm.holesAddr
  {
    StackOrder(mm);
    && hole in mm.Holes() && FitsIn(start, mm.node[hole], q)
    && (forall b :: FitsIn(b, mm.node[hole], q) ==> if mode.High? then b <= start else start <= b)
    && match mode
       case Best =>
         forall x :: x in mm.Holes() && Suits(mm.node[x], q) ==>
           && x in mm.holesSize.Order() && hole in mm.holesSize.Order()
           && IndexOf(mm.holesSize.Order(), x) <= IndexOf(mm.holesSize.Order(), hole)
           && mm.node[hole].holeSize <= mm.node[x].holeSize
           && (mm.node[hole].holeSize == mm.node[x].holeSize ==>
                 IndexOf(mm.holeStack.Items(), hole) <= IndexOf(mm.holeStack.Items(), x))
       case Low => forall x, b :: x in mm.Holes() && FitsIn(b, mm.node[x], q) ==> start <= b
       case High => forall x, b :: x in mm.Holes() && FitsIn(b, mm.node[x], q) ==> b <= start
       case Evict => forall x :: x in mm.holeStack.Items()[..IndexOf(mm.holeStack.Items(), hole)] ==>
                       x in mm.Holes() && !Suits(mm.node[x], q)
  }

  /** The search is at `hole` and has passed only holes that do not suit. */
  ghost predicate Reached(mm: DrmMm, q: Request, mode: Mode, hole: Ptr)
    requires mm.Core()
    reads mm, mm.holeStack, mm.intervalTree, mm.holesSize, mm.holesAddr
  {
    RosterLists(mm, mode);
    && hole in mm.Holes() && hole in Roster(mm, mode) && hole in mm.node
    && Skipped(mm, Roster(mm, mode), IndexOf(Roster(mm, mode), hole), mode, q)
  }

  /** A start inside the chosen hole is preferred if the passed holes do not suit. */
  lemma PreferredHole(mm: DrmMm, q: Request, mode: Mode, hole: Ptr, start: u64)
    requires mm.Core() && q.size > 0 && Reached(mm, q, mode, hole)
    requires Try(mm.node[hole], q, mode.High?) == Some(start)
    ensures Preferred(mm, q, mode, hole, start)
  {
    hide RbTree.Valid, RbTree.Order, LinkedList.Valid, DrmMm.Core, DrmMm.Holes, Suits, Try;
    var s := Roster(mm, mode);
    var i := IndexOf(s, hole);
    RosterLists(mm, mode);
    TryExact(mm.node[hole], q, mode.High?);
    match mode
    case Best =>
      SizeOrder(mm);
      StackOrder(mm);
      forall x | x in mm.Holes() && Suits(mm.node[x], q)
        ensures IndexOf(s, x) <= i && mm.node[hole].holeSize <= mm.node[x].holeSize
        ensures mm.node[hole].holeSize == mm.node[x].holeSize ==>
                  IndexOf(mm.holeStack.Items(), hole) <= IndexOf(mm.holeStack.Items(), x)
      {
        assert s[IndexOf(s, x)] == x;
        RecentOrder(mm, x, hole);
      }
    case Low =>
      forall x, b | x in mm.Holes() && FitsIn(b, mm.node[x], q) ensures start <= b {
        PassedApart(mm, q, mode, hole, start, x, b);
      }
    case High =>
      forall x, b | x in mm.Holes() && FitsIn(b, mm.node[x], q) ensures b <= start {
        PassedApart(mm, q, mode, hole, start, x, b);
      }
    case Evict =>
      StackOrder(mm);
      forall x | x in s[..i] ensures x in mm.Holes() && !Suits(mm.node[x], q) {
        var j :| 0 <= j < i && s[j] == x;
      }
  }

  lemma FirstReached(mm: DrmMm, q: Request, mode: Mode, hole: Ptr)
    requires mm.Core() && q.size > 0 && FirstTried(mm, q, mode, hole)
    ensures Reached(mm, q, mode, hole) && hole in mm.Holes() && hole in mm.node
  {
    hide RbTree.Valid, RbTree.Order, LinkedList.Valid, DrmMm.Core, DrmMm.Holes, Roster, Skipped;
    RosterLists(mm, mode);
    FirstSkips(mm, q, mode, hole);
  }

  lemma PassedApart(mm: DrmMm, q: Request, mode: Mode, hole: Ptr, start: u64, x: Ptr, b: int)
    requires mm.Core() && q.size > 0 && (mode.Low? || mode.High?) && Reached(mm, q, mode, hole) && x in mm.Holes()
    requires Try(mm.node[hole], q, mode.High?) == Some(start) && FitsIn(b, mm.node[x], q)
    ensures if mode.High? then b <= start else start <= b
  {
    hide RbTree.Valid, RbTree.Order, LinkedList.Valid, DrmMm.Core, DrmMm.Holes, Try;
    var s := Roster(mm, mode);
    RosterLists(mm, mode);
    var i, j := IndexOf(s, hole), IndexOf(s, x);
    TryExact(mm.node[hole], q, mode.High?);
    assert Suits(mm.node[x], q) && s[j] == x;
    if i < j {
      AddrApart(mm, s, i, j);
    } else if j < i {
      AddrApart(mm, s, j, i);
    }
  }

  /** The range ends of a search by address: no hole further on can suit. */
  lemma OutOfRange(mm: DrmMm, q: Request, mode: Mode, hole: Ptr)
    requires mm.Core() && q.size > 0 && Reached(mm, q, mode, hole)
    requires (mode.Low? && mm.node[hole].HoleStart() >= q.end) || (mode.High? && mm.node[hole].HoleEnd() <= q.start)
    ensures NoneSuits(mm, q)
  {
    hide RbTree.Valid, RbTree.Order, LinkedList.Valid, DrmMm.Core, DrmMm.Holes;
    var s := Roster(mm, mode);
    RosterLists(mm, mode);
    var i := IndexOf(s, hole);
    forall x | x in mm.Holes() ensures x in mm.node && !Suits(mm.node[x], q) {
      var j := IndexOf(s, x);
      HoleFacts(mm, x);
      HoleFacts(mm, hole);
      if i < j {
        AddrApart(mm, s, i, j);
      } else if j < i {
        AddrApart(mm, s, j, i);
      }
    }
  }

  ghost function Remaining(mm: DrmMm, mode: Mode, hole: Ptr): nat
    requires mm.Core()
    reads mm, mm.holeStack, mm.intervalTree, mm.holesSize, mm.holesAddr
  {
    var s := Roster(mm, mode);
    if hole !in s then 0 else if mode.Forward() then |s| - IndexOf(s, hole) else IndexOf(s, hole) + 1
  }

  /** Going on to the next hole, or past the last one. */
  lemma PassOn(mm: DrmMm, q: Request, mode: Mode, hole: Ptr, next: Ptr)
    requires mm.Core() && Reached(mm, q, mode, hole) && !Suits(mm.node[hole], q)
    requires next == Beside(Roster(mm, mode), hole, mode)
    ensures next == NULL ==> NoneSuits(mm, q)
    ensures next != NULL ==>
              && Reached(mm, q, mode, next) && Remaining(mm, mode, next) < Remaining(mm, mode, hole)
              && next in mm.Holes() && next in mm.node
  {
    hide RbTree.Valid, RbTree.Order, LinkedList.Valid, DrmMm.Core, DrmMm.Holes, Suits, Roster, Unique;
    var s := Roster(mm, mode);
    RosterLists(mm, mode);
    Neighbour(s, hole, next, mode);
    if next == NULL {
      forall x | x in mm.Holes() ensures x in mm.node && !Suits(mm.node[x], q) {
        assert s[IndexOf(s, x)] == x;
      }
    }
  }

  lemma Neighbour(s: seq<Ptr>, hole: Ptr, next: Ptr, mode: Mode)
    requires Unique(s) && hole in s
    requires next == Beside(s, hole, mode)
    requires forall x :: x in s ==> x != NULL
    ensures var i := IndexOf(s, hole);
            if next == NULL then (if mode.Forward() then i == |s| - 1 else i == 0)
            else next in s && IndexOf(s, next) == if mode.Forward() then i + 1 else i - 1
  {
    var i := IndexOf(s, hole);
    if mode.Forward() && i + 1 < |s| {
      assert s[i + 1] in s;
      IndexUnique(s, i + 1);
    } else if !mode.Forward() && i > 0 {
      assert s[i - 1] in s;
      IndexUnique(s, i - 1);
    }
  }

  /** The size of the largest hole, from the cached leftmost node of the size tree. */
  method LargestHole(mm: DrmMm) returns (size: nat)
    requires mm.Core()
    ensures forall x :: x in mm.Holes() ==> x in mm.node && mm.node[x].holeSize <= size
    ensures size > 0 ==>
              mm.holesSize.root != NULL && exists x :: x in mm.Holes() && x in mm.node && mm.node[x].holeSize == size
  {
    hide RbTree.Valid, LinkedList.Valid, DrmMm.Core, DrmMm.Holes;
    SizeOrder(mm);
    RosterLists(mm, Best);
    var rb := mm.holesSize.leftmost;
    ghost var s := mm.holesSize.Order();
    assert s != [] ==> s[0] in s;
    if rb == NULL {
      return 0;
    }
    RepRoot(mm.holesSize.mem, NULL, mm.holesSize.tree);
    forall x | x in mm.Holes() ensures mm.node[x].holeSize <= mm.node[rb].holeSize {
      assert s[IndexOf(s, x)] == x;
    }
    return mm.node[rb].holeSize;
  }

  lemma TooSmall(mm: DrmMm, q: Request)
    requires mm.Core() && q.size > 0
    requires (forall x :: x in mm.Holes() ==> x in mm.node && mm.node[x].holeSize < q.size) || q.end - q.start < q.size
    ensures NoneSuits(mm, q)
  {
    hide RbTree.Valid, RbTree.Order, LinkedList.Valid, DrmMm.Core, DrmMm.Holes;
    forall x | x in mm.Holes() ensures x in mm.node && !Suits(mm.node[x], q) {
      HoleFacts(mm, x);
    }
  }

  /** The search loop of drm_mm_insert_node_in_range. Without `once` it fails exactly if no hole suits; with it, only
      the first hole of the mode is tried. */
  method SelectHole(mm: DrmMm, q: Request, mode: Mode, once: bool) returns (hole: Ptr, start: u64)
    requires mm.Core() && q.start <= q.end
    ensures hole != NULL ==> Preferred(mm, q, mode, hole, start) && (once ==> FirstTried(mm, q, mode, hole))
    ensures hole != NULL ==> q.size > 0 && Try(mm.node[hole], q, mode.High?) == Some(start)
    ensures hole == NULL && !once ==> q.size == 0 || NoneSuits(mm, q)
    ensures hole == NULL && once ==>
              q.size == 0 || NoneSuits(mm, q) || exists x :: FirstTried(mm, q, mode, x) && !Suits(mm.node[x], q)
  {
    hide RbTree.Valid, RbTree.Order, LinkedList.Valid, DrmMm.Core, DrmMm.Holes, Suits, Preferred;
    hide FirstTried, Skipped, Roster, NoneSuits, Reached, Remaining;
    start := 0;
    if q.size == 0 || q.end - q.start < q.size {
      if q.size > 0 { TooSmall(mm, q); }
      return NULL, 0;
    }
    var largest := LargestHole(mm);
    if largest < q.size {
      TooSmall(mm, q);
      return NULL, 0;
    }
    hole := FirstHole(mm, q, mode);
    ghost var first := hole;
    if hole != NULL {
      FirstReached(mm, q, mode, hole);
    }
    while hole != NULL
      invariant hole != NULL ==> hole in mm.Holes() && hole in mm.node && Reached(mm, q, mode, hole)
      invariant hole == NULL && !once ==> NoneSuits(mm, q)
      invariant once && hole != NULL ==> hole == first
      invariant once && hole == NULL ==>
                  NoneSuits(mm, q) || (FirstTried(mm, q, mode, first) && !Suits(mm.node[first], q))
      decreases if hole == NULL then 0 else 1 + Remaining(mm, mode, hole)
    {
      var holeStart, holeEnd := mm.node[hole].HoleStart(), mm.node[hole].HoleEnd();
      if mode.Low? && holeStart >= q.end {
        OutOfRange(mm, q, mode, hole);
        return NULL, 0;
      }
      if mode.High? && holeEnd <= q.start {
        OutOfRange(mm, q, mode, hole);
        return NULL, 0;
      }
      TryExact(mm.node[hole], q, mode.High?);
      var r := Try(mm.node[hole], q, mode.High?);
      if r.Some? {
        PreferredHole(mm, q, mode, hole, r.value);
        return hole, r.value;
      }
      if once {
        hole := NULL;
      } else {
        var next := NextHole(mm, hole, mode);
        PassOn(mm, q, mode, hole, next);
        hole := next;
      }
    }
  }

  /** drm_mm_insert_node_in_range, DRM_MM_INSERT_ONCE aside: -ENOSPC exactly if no hole suits. */
  method InsertNodeInRange(mm: DrmMm, n: Ptr, q: Request, mode: Mode, once: bool)
    returns (ok: bool, ghost hole: Ptr, ghost start: u64)
    requires mm.Valid() && q.start <= q.end && n !in mm.blocks && n != NULL
    modifies mm, mm.nodeList, mm.holeStack, mm.intervalTree, mm.holesSize, mm.holesAddr
    ensures mm.Valid()
    ensures !ok ==> unchanged(mm, mm.nodeList, mm.holeStack, mm.intervalTree, mm.holesSize, mm.holesAddr)
    ensures !ok && !once ==> q.size == 0 || old(NoneSuits(mm, q))
    ensures !once ==> (ok <==> q.size > 0 && old(Opens(mm.node, mm.blocks, mm.lo, mm.hi, [], q)))
    ensures ok ==> !old(NoneSuits(mm, q)) && Aligned(start, q.alignment)
    ensures !ok && once ==>
              || q.size == 0 || old(NoneSuits(mm, q))
              || old(exists x :: FirstTried(mm, q, mode, x) && !Suits(mm.node[x], q))
    ensures ok ==>
              q.size > 0 && old(Preferred(mm, q, mode, hole, start)) && (once ==> old(FirstTried(mm, q, mode, hole)))
    ensures ok ==>
              InsertedAt(old(mm.node), mm.node, old(mm.blocks), mm.blocks, old(mm.holeStack.Items()),
                         mm.holeStack.Items(), hole, n, start, q.size)
  {
    hide RbTree.Valid, RbTree.Order, LinkedList.Valid, DrmMm.Core, DrmMm.Holes;
    hide Suits, Preferred, FirstTried, NoneSuits, Opens;
    if q.size > 0 {
      OpensIffSuits(mm, q);
    }
    var h, adjStart := SelectHole(mm, q, mode, once);
    hole, start := h, adjStart;
    if h == NULL {
      return false, hole, start;
    }
    PreferredFits(mm, q, mode, h, adjStart);
    assert !NoneSuits(mm, q) by { PreferredSuits(mm, q, mode, h, adjStart); }
    mm.Place(h, n, adjStart, q.size);
    return true, hole, start;
  }

  /** The block `n` was carved out of the hole behind `hole`. */
  ghost predicate InsertedAt(nodes: Nodes, nodes': Nodes, blocks: seq<Ptr>, blocks': seq<Ptr>, stack: seq<Ptr>,
                             stack': seq<Ptr>, hole: Ptr, n: Ptr, start: u64, size: u64)
  {
    && hole in blocks && hole in nodes && blocks' == InsertAt(blocks, IndexOf(blocks, hole) + 1, n)
    && Placed(nodes, nodes', blocks, n, start, size)
    && stack' == PlacedStack(stack, hole, n, nodes[hole].HoleStart() < start,
                             start + size < nodes[hole].HoleStart() + nodes[hole].holeSize)
    && (start + size < nodes[hole].HoleStart() + nodes[hole].holeSize ==> stack' != [] && stack'[0] == n)
  }

  lemma PreferredSuits(mm: DrmMm, q: Request, mode: Mode, hole: Ptr, start: u64)
    requires mm.Core() && Preferred(mm, q, mode, hole, start)
    ensures !NoneSuits(mm, q)
  {
    hide RbTree.Valid, RbTree.Order, LinkedList.Valid, DrmMm.Core, DrmMm.Holes, FitsIn;
    HoleFacts(mm, hole);
    assert hole in mm.Holes() && Suits(mm.node[hole], q);
  }

  lemma PreferredFits(mm: DrmMm, q: Request, mode: Mode, hole: Ptr, start: u64)
    requires mm.Core() && q.size > 0 && Preferred(mm, q, mode, hole, start)
    ensures hole in mm.Holes() && hole in mm.blocks && hole in mm.node && Aligned(start, q.alignment)
    ensures mm.node[hole].HoleStart() <= start && start + q.size <= mm.node[hole].HoleStart() + mm.node[hole].holeSize
  {
    hide RbTree.Valid, RbTree.Order, LinkedList.Valid, DrmMm.Core, DrmMm.Holes;
    HoleFacts(mm, hole);
  }

  /** drm_mm_reserve_node: the block `[start, start + size)` is placed exactly if that range is not empty, does not wrap
      around and lies in one hole. */
  method ReserveNode(mm: DrmMm, n: Ptr, start: u64, size: u64) returns (ok: bool, ghost hole: Ptr)
    requires mm.Valid() && n !in mm.blocks && n != NULL
    modifies mm, mm.nodeList, mm.holeStack, mm.intervalTree, mm.holesSize, mm.holesAddr
    ensures mm.Valid()
    ensures !ok ==> unchanged(mm, mm.nodeList, mm.holeStack, mm.intervalTree, mm.holesSize, mm.holesAddr)
    ensures !ok ==> size == 0 || start + size > U64_MAX
                    || old(forall x :: x in mm.Holes() ==> !Covers(mm.node[x], start, size))
    ensures ok <==>
              size > 0 && start + size <= U64_MAX && old(Vacant(mm.node, mm.blocks, mm.lo, mm.hi, start, size))
    ensures ok ==>
              size > 0 && start + size <= U64_MAX && hole in old(mm.Holes()) && old(Covers(mm.node[hole], start, size))
    ensures ok ==>
              InsertedAt(old(mm.node), mm.node, old(mm.blocks), mm.blocks, old(mm.holeStack.Items()),
                         mm.holeStack.Items(), hole, n, start, size)
  {
    hide RbTree.Valid, RbTree.Order, LinkedList.Valid, DrmMm.Core, DrmMm.Holes, Near;
    hole := NULL;
    var end := Add64(start, size);
    if end <= start {
      return false, hole;
    }
    VacantInHole(mm, start, size);
    var h := FindHole(mm, start);
    hole := h;
    if h == NULL {
      AddrOrder(mm);
      return false, hole;
    }
    var holeStart, holeEnd := mm.node[h].HoleStart(), mm.node[h].HoleEnd();
    HoleFacts(mm, h);
    if holeStart > start || holeEnd < end {
      NotCovered(mm, h, start, size);
      return false, hole;
    }
    mm.Place(h, n, start, size);
    return true, hole;
  }

  ghost predicate Covers(n: MmNode, start: nat, size: nat) {
    n.HoleStart() <= start && start + size <= n.HoleEnd()
  }

  /** If the hole next to `start` does not cover the block, no hole does. */
  lemma NotCovered(mm: DrmMm, hole: Ptr, start: nat, size: nat)
    requires mm.Core() && size > 0 && hole in mm.Holes() && hole in mm.holesAddr.Order()
    requires forall x :: x in mm.holesAddr.Order() ==> x in mm.node
    requires Near(mm, mm.holesAddr.Order(), IndexOf(mm.holesAddr.Order(), hole), start)
    requires !Covers(mm.node[hole], start, size)
    ensures forall x :: x in mm.Holes() ==> !Covers(mm.node[x], start, size)
  {
    hide RbTree.Valid, RbTree.Order, LinkedList.Valid, DrmMm.Core, DrmMm.Holes;
    var s := mm.holesAddr.Order();
    AddrOrder(mm);
    forall x | x in mm.Holes() ensures !Covers(mm.node[x], start, size) {
      assert s[IndexOf(s, x)] == x;
    }
  }
}
