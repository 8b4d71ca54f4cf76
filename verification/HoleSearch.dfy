/** The hole searches of drm_mm.c: best_hole, find_hole, first_hole, next_hole and the insertion loops on top. */
module HoleSearch {
  import opened KernelMath
  import opened Sequences
  import opened RbShape
  import opened RbErasure
  import opened RbLinking
  import opened RbTrees
  import opened LinkedLists
  import opened MmTiling
  import opened RangeAllocator

  /** The hole behind `x` ends where the searches think. */
  lemma HoleFacts(mm: DrmMm, x: Ptr)
    requires mm.Core() && x in mm.Holes()
    ensures x in mm.node && x in mm.blocks && x != NULL
    ensures mm.node[x].HoleEnd() == mm.node[x].HoleStart() + mm.node[x].holeSize <= mm.hi
    ensures mm.lo <= mm.node[x].HoleStart() && mm.node[x].holeSize > 0
    ensures mm.node[x].HoleEnd() == NextStart(mm.node, mm.blocks, IndexOf(mm.blocks, x))
  {
    hide RbTree.Valid, RbTree.Order, LinkedList.Valid, DrmMm.Indexed, DrmMm.Intervals;
    var i := IndexOf(mm.blocks, x);
    HoleBounds(mm.node, mm.blocks, mm.lo, mm.hi, i);
    assert HoleSizeAt(mm.node, mm.blocks, i);
    TiledDomain(mm.node, mm.blocks, mm.lo, mm.hi);
  }

  /** Two holes are at least one block apart. */
  lemma HolesDisjoint(mm: DrmMm, x: Ptr, y: Ptr)
    requires mm.Core() && x in mm.Holes() && y in mm.Holes() && x != y
    ensures x in mm.node && y in mm.node
    ensures mm.node[x].HoleEnd() < mm.node[y].HoleStart() || mm.node[y].HoleEnd() < mm.node[x].HoleStart()
  {
    hide RbTree.Valid, RbTree.Order, LinkedList.Valid, DrmMm.Indexed, DrmMm.Intervals;
    HoleFacts(mm, x);
    HoleFacts(mm, y);
    var i, j := IndexOf(mm.blocks, x), IndexOf(mm.blocks, y);
    if i < j {
      HolesApart(mm.node, mm.blocks, mm.lo, mm.hi, i, j);
    } else {
      HolesApart(mm.node, mm.blocks, mm.lo, mm.hi, j, i);
    }
  }

  lemma CoreParts(mm: DrmMm)
    requires mm.Core()
    ensures mm.Indexed(mm.node, mm.Holes())
  {
    hide RbTree.Valid, RbTree.Order, LinkedList.Valid, DrmMm.Indexed, DrmMm.Intervals;
  }

  /** The size tree as a sequence: the holes, in descending order of size. */
  lemma SizeOrder(mm: DrmMm)
    requires mm.Core()
    ensures var s := mm.holesSize.Order();
            && Unique(s) && SortedBy(s, mm.holesSize.key) && (forall x :: x in s <==> x in mm.Holes())
            && mm.holesSize.leftmost == if s == [] then NULL else s[0]
    ensures forall x :: x in mm.Holes() ==> x in mm.node && KeyOf(mm.holesSize.key, x) == 0 - mm.node[x].holeSize
    ensures mm.holesSize.Holds(Top, mm.holesSize.tree)
  {
    hide DrmMm.Core, DrmMm.Intervals, DrmMm.AddrIndexed, DrmMm.Stacked, DrmMm.Holes;
    CoreParts(mm);
    DistinctInOrder(mm.holesSize.tree);
  }

  /** The address tree as a sequence: the holes, ascending and apart. */
  lemma AddrOrder(mm: DrmMm)
    requires mm.Core()
    ensures var s := mm.holesAddr.Order();
            Unique(s) && SortedBy(s, mm.holesAddr.key) && (forall x :: x in s <==> x in mm.Holes())
    ensures forall x :: x in mm.Holes() ==> x in mm.node && KeyOf(mm.holesAddr.key, x) == mm.node[x].HoleStart()
    ensures mm.holesAddr.Holds(Top, mm.holesAddr.tree)
  {
    hide DrmMm.Core, DrmMm.Intervals, DrmMm.SizeIndexed, DrmMm.Stacked, DrmMm.Holes;
    CoreParts(mm);
    DistinctInOrder(mm.holesAddr.tree);
  }

  lemma AddrApart(mm: DrmMm, s: seq<Ptr>, i: nat, j: nat)
    requires mm.Core() && s == mm.holesAddr.Order() && i < j < |s|
    ensures s[i] in mm.node && s[j] in mm.node && mm.node[s[i]].HoleEnd() < mm.node[s[j]].HoleStart()
  {
    hide RbTree.Valid, RbTree.Order, LinkedList.Valid, DrmMm.Core;
    AddrOrder(mm);
    assert s[i] in s && s[j] in s;
    HolesDisjoint(mm, s[i], s[j]);
    HoleFacts(mm, s[i]);
    HoleFacts(mm, s[j]);
  }

  /** The hole stack. */
  lemma StackOrder(mm: DrmMm)
    requires mm.Core()
    ensures mm.holeStack.Valid() && mm.holeStack.head == HOLE_STACK && NULL !in mm.Holes()
    ensures Unique(mm.holeStack.Items()) && forall x :: x in mm.holeStack.Items() <==> x in mm.Holes()
  {
    hide DrmMm.Core, DrmMm.Intervals, DrmMm.SizeIndexed, DrmMm.AddrIndexed, DrmMm.Holes;
    CoreParts(mm);
  }

  /** Of two holes of one size, the one further back in the size tree is the more recent one. */
  lemma RecentOrder(mm: DrmMm, x: Ptr, y: Ptr)
    requires mm.Core() && x in mm.Holes() && y in mm.Holes()
    ensures x in mm.node && y in mm.node && mm.holeStack.Valid()
    ensures var s, stack := mm.holesSize.Order(), mm.holeStack.Items();
            && x in s && y in s && x in stack && y in stack
            && (mm.node[x].holeSize == mm.node[y].holeSize && IndexOf(s, x) < IndexOf(s, y) ==>
                  IndexOf(stack, y) < IndexOf(stack, x))
  {
    hide RbTree.Valid, RbTree.Order, LinkedList.Valid, DrmMm.Core, DrmMm.Intervals, DrmMm.AddrIndexed, DrmMm.Holes;
    SizeOrder(mm);
    StackOrder(mm);
    CoreParts(mm);
    var s, stack := mm.holesSize.Order(), mm.holeStack.Items();
    assert Differ(s, stack, mm.holesSize.key, IndexOf(s, x), IndexOf(s, y), IndexOf(stack, x), IndexOf(stack, y));
  }

  ghost function Last(s: seq<Ptr>): Ptr {
    if s == [] then NULL else s[|s| - 1]
  }

  /** A focused node and its place among the keys. */
  lemma InFocus(c: Ctx, t: Tree, tree: Tree)
    requires t.Node? && c.Plug(t) == tree
    ensures t.id in tree.InOrder()
    ensures Last(c.Before() + t.left.InOrder() + [t.id]) == t.id
  {
    PlaceInOrder(c, t);
    var a := c.Before() + t.left.InOrder();
    assert tree.InOrder()[|a|] == t.id;
  }

  /** best_hole: the last hole of at least `size` bytes in the descending size tree. */
  method BestHole(mm: DrmMm, size: u64) returns (best: Ptr)
    requires mm.Core() && mm.holesSize.root != NULL
    ensures best == Last(mm.holesSize.Order()[..UpperBound(mm.holesSize.Order(), mm.holesSize.key, 0 - size)])
  {
    hide RbTree.Valid, LinkedList.Valid, DrmMm.Core, DrmMm.Holes, Unique, KeysAround, UpperBound, SortedBy;
    hide Ctx.Before, Ctx.After, Ctx.Plug, Tree.InOrder;
    var rb := mm.holesSize.root;
    best := NULL;
    ghost var c, t := Top, mm.holesSize.tree;
    SizeOrder(mm);
    AtTop(t, mm.holesSize.key, 0 - size);
    RepRoot(mm.holesSize.mem, NULL, t);
    while true
      invariant Zip(mm.holesSize.mem, mm.holesSize.root, c, t) && c.Plug(t) == mm.holesSize.tree
      invariant t.Node? && t.id == rb
      invariant KeysAround(c, mm.holesSize.key, 0 - size) && best == Last(c.Before())
      decreases t
    {
      InFocus(c, t, mm.holesSize.tree);
      ghost var d := if size <= mm.node[rb].holeSize then R else L;
      DescentKeys(c, t, d, mm.holesSize.key, 0 - size);
      StepBefore(c, t, d);
      DescentStep(mm.holesSize.mem, mm.holesSize.root, c, t, d);
      c, t := Step(c, t.id, t.red, d, t.Child(d.Flip())), t.Child(d);
      if size <= mm.node[rb].holeSize {
        best := rb;
        rb := mm.holesSize.mem[rb].right;
      } else {
        rb := mm.holesSize.mem[rb].left;
      }
      if rb == NULL {
        break;
      }
    }
    DescentEnd(c, mm.holesSize.tree, mm.holesSize.key, 0 - size);
    PrefixOf(c.Before(), c.After());
  }

  lemma AtTop(t: Tree, key: Keys<Ptr>, k: int)
    ensures Top.Plug(t) == t && Top.Before() == [] && KeysAround(Top, key, k)
  {
  }

  lemma StepBefore(c: Ctx, t: Tree, d: Side)
    requires t.Node?
    ensures Step(c, t.id, t.red, d, t.Child(d.Flip())).Before()
         == if d.R? then c.Before() + t.left.InOrder() + [t.id] else c.Before()
  {
  }

  lemma PrefixOf(a: seq<Ptr>, b: seq<Ptr>)
    ensures (a + b)[..|a|] == a
  {
  }

  /** Holes before index `i` of the address order end below `addr`, those behind it start above. */
  ghost predicate Near(mm: DrmMm, s: seq<Ptr>, i: nat, addr: nat)
    requires i < |s| && forall x :: x in s ==> x in mm.node
    reads mm
  {
    && (forall j :: 0 <= j < i ==> mm.node[s[j]].HoleEnd() < addr)
    && (forall j :: i < j < |s| ==> mm.node[s[j]].HoleStart() > addr)
  }

  /** find_hole: a hole next to the address, or the one that contains it. */
  method FindHole(mm: DrmMm, addr: u64) returns (node: Ptr)
    requires mm.Core()
    ensures forall x :: x in mm.holesAddr.Order() ==> x in mm.node
    ensures node == NULL <==> mm.holesAddr.Order() == []
    ensures node != NULL ==>
              node in mm.Holes() && node in mm.holesAddr.Order()
              && Near(mm, mm.holesAddr.Order(), IndexOf(mm.holesAddr.Order(), node), addr)
  {
    hide RbTree.Valid, LinkedList.Valid, DrmMm.Core, DrmMm.Holes, Unique, Near;
    var rb := mm.holesAddr.root;
    node := NULL;
    ghost var c, t := Top, mm.holesAddr.tree;
    AddrOrder(mm);
    RepRoot(mm.holesAddr.mem, NULL, t);
    while rb != NULL
      invariant Zip(mm.holesAddr.mem, mm.holesAddr.root, c, t) && c.Plug(t) == mm.holesAddr.tree
      invariant rb == t.Root() && (rb == NULL <==> t.Leaf?) && node == c.Root()
      invariant KeysAround(c, mm.holesAddr.key, addr)
      invariant c.Before() != [] ==> Last(c.Before()) in mm.Holes() && mm.node[Last(c.Before())].HoleEnd() < addr
      decreases t
    {
      InFocus(c, t, mm.holesAddr.tree);
      node := rb;
      HoleFacts(mm, node);
      var holeStart := mm.node[node].HoleStart();
      ghost var d := if addr < holeStart then L else R;
      DescentKeys(c, t, d, mm.holesAddr.key, addr);
      DescentStep(mm.holesAddr.mem, mm.holesAddr.root, c, t, d);
      if addr < holeStart {
        rb := mm.holesAddr.mem[rb].left;
      } else if addr > Add64(holeStart, mm.node[node].holeSize) {
        rb := mm.holesAddr.mem[rb].right;
      } else {
        FoundInside(mm, c, t, addr);
        return;
      }
      c, t := Step(c, t.id, t.red, d, t.Child(d.Flip())), t.Child(d);
    }
    CtxRoot(mm.holesAddr.mem, mm.holesAddr.root, c, NULL);
    FoundBeside(mm, c, addr);
  }

  /** The search ended in the hole that contains the address or ends at it. */
  lemma FoundInside(mm: DrmMm, c: Ctx, t: Tree, addr: u64)
    requires mm.Core() && t.Node? && c.Plug(t) == mm.holesAddr.tree && t.id in mm.Holes()
    requires mm.node[t.id].HoleStart() <= addr <= mm.node[t.id].HoleEnd()
    ensures t.id in mm.holesAddr.Order() && forall x :: x in mm.holesAddr.Order() ==> x in mm.node
    ensures Near(mm, mm.holesAddr.Order(), IndexOf(mm.holesAddr.Order(), t.id), addr)
  {
    hide RbTree.Valid, LinkedList.Valid, DrmMm.Core, DrmMm.Holes;
    var a, b := c.Before() + t.left.InOrder(), t.right.InOrder() + c.After();
    AddrOrder(mm);
    PlaceInOrder(c, t);
    var s, i := mm.holesAddr.Order(), |a|;
    SplitUnique(s, a, t.id, b);
    forall j | 0 <= j < i ensures mm.node[s[j]].HoleEnd() < addr {
      AddrApart(mm, s, j, i);
    }
    forall j | i < j < |s| ensures mm.node[s[j]].HoleStart() > addr {
      AddrApart(mm, s, i, j);
    }
  }

  lemma HolesAround(mm: DrmMm, s: seq<Ptr>, a: seq<Ptr>, b: seq<Ptr>, addr: u64)
    requires mm.Core() && s == mm.holesAddr.Order() && s == a + b
    requires forall x :: x in s ==>
               x in mm.node && x in mm.Holes() && KeyOf(mm.holesAddr.key, x) == mm.node[x].HoleStart()
    requires a != [] ==> Last(a) in s && mm.node[Last(a)].HoleEnd() < addr
    requires forall x :: x in b ==> KeyOf(mm.holesAddr.key, x) > addr
    ensures forall i :: |a| - 1 <= i <= |a| && 0 <= i < |s| ==> Near(mm, s, i, addr)
  {
    hide RbTree.Valid, RbTree.Order, LinkedList.Valid, DrmMm.Core, DrmMm.Holes;
    var n := |a|;
    forall j | 0 <= j < n ensures mm.node[s[j]].HoleEnd() < addr {
      assert s[n - 1] == Last(a);
      HoleFacts(mm, s[n - 1]);
      if j < n - 1 {
        AddrApart(mm, s, j, n - 1);
      }
    }
    forall j | n <= j < |s| ensures mm.node[s[j]].HoleStart() > addr {
      assert s[j] == b[j - n] && s[j] in s;
    }
  }

  /** The search ended at a NULL link; the last node seen is next to it. */
  lemma FoundBeside(mm: DrmMm, c: Ctx, addr: u64)
    requires mm.Core() && c.Plug(Leaf) == mm.holesAddr.tree && KeysAround(c, mm.holesAddr.key, addr)
    requires c.Before() != [] ==> Last(c.Before()) in mm.Holes() && mm.node[Last(c.Before())].HoleEnd() < addr
    ensures forall x :: x in mm.holesAddr.Order() ==> x in mm.node
    ensures c.Top? <==> mm.holesAddr.Order() == []
    ensures c.Step? ==>
              c.id in mm.Holes() && c.id in mm.holesAddr.Order()
              && Near(mm, mm.holesAddr.Order(), IndexOf(mm.holesAddr.Order(), c.id), addr)
  {
    hide RbTree.Valid, LinkedList.Valid, DrmMm.Core, DrmMm.Holes, Ctx.Before, Ctx.After;
    hide Ctx.Plug, Tree.InOrder, IndexOf, SortedBy, Unique, Near;
    var s, n := mm.holesAddr.Order(), |c.Before()|;
    AddrOrder(mm);
    DescentEnd(c, mm.holesAddr.tree, mm.holesAddr.key, addr);
    HolesAround(mm, s, c.Before(), c.After(), addr);
    BesideIndex(c, s);
    if c.Step? {
      assert Near(mm, s, if c.side.L? then |c.Before()| else |c.Before()| - 1, addr);
    }
  }

  /** The parent of the slot is the node just before or just behind it. */
  lemma BesideIndex(c: Ctx, s: seq<Ptr>)
    requires s == c.Before() + c.After() && Unique(s)
    ensures c.Top? ==> s == []
    ensures c.Step? ==>
              var i := if c.side.L? then |c.Before()| else |c.Before()| - 1;
              0 <= i < |s| && s[i] == c.id && c.id in s && IndexOf(s, c.id) == i
  {
    if c.Step? {
      var i := if c.side.L? then |c.Before()| else |c.Before()| - 1;
      assert s[i] == c.id;
      IndexUnique(s, i);
    }
  }

  // ----- the four search modes

  /** enum drm_mm_insert_mode, without the DRM_MM_INSERT_ONCE flag. */
  datatype Mode = Best | Low | High | Evict {
    /** Whether the search walks its list of holes forwards. */
    predicate Forward() { Low? || Evict? }
  }

  /** What a caller asks for: `size` bytes, aligned, within `[start, end)`. */
  datatype Request = Request(size: u64, alignment: u64, start: u64, end: u64)

  /** The placement computed for a hole. */
  function Try(n: MmNode, q: Request, high: bool): Option<u64> {
    AdjustedStart(n.HoleStart(), n.HoleEnd(), q.start, q.end, q.size, q.alignment, high)
  }

  ghost predicate FitsIn(a: int, n: MmNode, q: Request) {
    Fits(a, n.HoleStart(), n.HoleEnd(), q.start, q.end, q.size, q.alignment)
  }

  /** Some aligned placement fits into the hole and the range. */
  ghost predicate Suits(n: MmNode, q: Request) {
    exists a :: FitsIn(a, n, q)
  }

  lemma TryExact(n: MmNode, q: Request, high: bool)
    requires q.size > 0
    ensures Suits(n, q) <==> Try(n, q, high).Some?
    ensures Try(n, q, high).Some? ==>
              && FitsIn(Try(n, q, high).value, n, q)
              && forall b :: FitsIn(b, n, q) ==> if high then b <= Try(n, q, high).value else Try(n, q, high).value <= b
  {
    hide Fits, AdjustedStart;
    AdjustedStartExact(n.HoleStart(), n.HoleEnd(), q.start, q.end, q.size, q.alignment, high, 0);
    forall b | FitsIn(b, n, q)
      ensures Try(n, q, high).Some? && if high then b <= Try(n, q, high).value else Try(n, q, high).value <= b
    {
      AdjustedStartExact(n.HoleStart(), n.HoleEnd(), q.start, q.end, q.size, q.alignment, high, b);
    }
    assert Try(n, q, high).Some? ==> FitsIn(Try(n, q, high).value, n, q);
  }

  /** The holes in the order of the structure that a mode searches. */
  ghost function Roster(mm: DrmMm, mode: Mode): seq<Ptr>
    requires mm.Core()
    reads mm, mm.holeStack, mm.intervalTree, mm.holesSize, mm.holesAddr
  {
    match mode
    case Best => mm.holesSize.Order()
    case Low => mm.holesAddr.Order()
    case High => mm.holesAddr.Order()
    case Evict => StackOrder(mm); mm.holeStack.Items()
  }

  lemma RosterLists(mm: DrmMm, mode: Mode)
    requires mm.Core()
    ensures Unique(Roster(mm, mode)) && forall x :: x in Roster(mm, mode) <==> x in mm.Holes()
    ensures forall x :: x in Roster(mm, mode) ==> x in mm.node && x != NULL
  {
    hide RbTree.Valid, RbTree.Order, LinkedList.Valid, DrmMm.Core;
    SizeOrder(mm);
    AddrOrder(mm);
    StackOrder(mm);
    assert forall x :: x in mm.Holes() ==> x in mm.node && x != NULL;
  }

  /** No hole that the search passed before reaching index `i` suits the request. */
  ghost predicate Skipped(mm: DrmMm, s: seq<Ptr>, i: nat, mode: Mode, q: Request)
    requires i < |s| && forall x :: x in s ==> x in mm.node
    reads mm
  {
    forall j {:trigger s[j]} :: 0 <= j < |s| && (if mode.Forward() then j < i else i < j) ==> !Suits(mm.node[s[j]], q)
  }

  ghost predicate NoneSuits(mm: DrmMm, q: Request)
    requires mm.Core()
    reads mm, mm.holeStack, mm.intervalTree, mm.holesSize, mm.holesAddr
  {
    forall x :: x in mm.Holes() ==> x in mm.node && !Suits(mm.node[x], q)
  }

  /** The hole that first_hole picks. */
  ghost predicate FirstTried(mm: DrmMm, q: Request, mode: Mode, x: Ptr)
    requires mm.Core()
    reads mm, mm.holeStack, mm.intervalTree, mm.holesSize, mm.holesAddr
  {
    var s := Roster(mm, mode);
    && x in s && (forall y :: y in s ==> y in mm.node)
    && match mode
       case Best => x == Last(s[..UpperBound(s, mm.holesSize.key, 0 - q.size)])
       case Low => Near(mm, s, IndexOf(s, x), q.start)
       case High => Near(mm, s, IndexOf(s, x), q.end)
       case Evict => x == s[0]
  }

  lemma FirstSkips(mm: DrmMm, q: Request, mode: Mode, x: Ptr)
    requires mm.Core() && q.size > 0 && FirstTried(mm, q, mode, x)
    ensures Skipped(mm, Roster(mm, mode), IndexOf(Roster(mm, mode), x), mode, q)
  {
    hide RbTree.Valid, RbTree.Order, LinkedList.Valid, DrmMm.Core, SortedBy;
    RosterLists(mm, mode);
    var s := Roster(mm, mode);
    if mode.Best? {
      SizeOrder(mm);
      BestSkips(mm, q, s, UpperBound(s, mm.holesSize.key, 0 - q.size));
    }
  }

  lemma BestSkips(mm: DrmMm, q: Request, s: seq<Ptr>, u: nat)
    requires mm.Core() && q.size > 0 && s == mm.holesSize.Order() && u == UpperBound(s, mm.holesSize.key, 0 - q.size)
    ensures forall x :: x in s ==> x in mm.node
    ensures forall j :: u <= j < |s| ==> !Suits(mm.node[s[j]], q)
    ensures u > 0 ==> IndexOf(s, Last(s[..u])) == u - 1
  {
    hide RbTree.Valid, RbTree.Order, LinkedList.Valid, DrmMm.Core, DrmMm.Holes, Suits;
    hide Unique, IndexOf, UpperBound, SortedBy, KeyOf;
    SizeOrder(mm);
    BeyondBound(s, mm.holesSize.key, 0 - q.size);
    forall j | u <= j < |s| ensures !Suits(mm.node[s[j]], q) {
      assert s[j] in s;
      SmallUnsuited(mm, s[j], q);
    }
    if u > 0 {
      IndexUnique(s, u - 1);
    }
  }

  lemma BeyondBound(s: seq<Ptr>, key: Keys<Ptr>, k: int)
    requires SortedBy(s, key)
    ensures forall j :: UpperBound(s, key, k) <= j < |s| ==> KeyOf(key, s[j]) > k
  {
  }

  lemma SmallUnsuited(mm: DrmMm, x: Ptr, q: Request)
    requires mm.Core() && x in mm.Holes() && x in mm.node && mm.node[x].holeSize < q.size
    ensures !Suits(mm.node[x], q)
  {
    hide RbTree.Valid, RbTree.Order, LinkedList.Valid, DrmMm.Core, DrmMm.Holes;
    HoleFacts(mm, x);
  }

  /** best_hole finds nothing only if every hole is too small. */
  lemma BestTried(mm: DrmMm, q: Request, best: Ptr)
    requires mm.Core() && q.size > 0
    requires best == Last(mm.holesSize.Order()[..UpperBound(mm.holesSize.Order(), mm.holesSize.key, 0 - q.size)])
    ensures best == NULL ==> NoneSuits(mm, q)
    ensures best != NULL ==> FirstTried(mm, q, Best, best)
  {
    hide RbTree.Valid, RbTree.Order, LinkedList.Valid, DrmMm.Core, DrmMm.Holes, Unique, SortedBy, Suits;
    var s := mm.holesSize.Order();
    var u := UpperBound(s, mm.holesSize.key, 0 - q.size);
    RosterLists(mm, Best);
    BestSkips(mm, q, s, u);
    if u == 0 {
      forall x | x in mm.Holes() ensures x in mm.node && !Suits(mm.node[x], q) {
        assert s[IndexOf(s, x)] == x;
      }
    } else {
      assert s[u - 1] in s;
    }
  }

  lemma EmptyRoster(mm: DrmMm, q: Request, mode: Mode)
    requires mm.Core() && Roster(mm, mode) == []
    ensures NoneSuits(mm, q)
  {
    hide RbTree.Valid, RbTree.Order, LinkedList.Valid, DrmMm.Core, DrmMm.Holes, Roster, Unique, SortedBy, Suits;
    RosterLists(mm, mode);
  }

  lemma AddrTried(mm: DrmMm, q: Request, mode: Mode, hole: Ptr)
    requires mm.Core() && (mode.Low? || mode.High?)
    requires forall x :: x in mm.holesAddr.Order() ==> x in mm.node
    requires hole == NULL <==> mm.holesAddr.Order() == []
    requires hole != NULL ==>
               && hole in mm.holesAddr.Order()
               && Near(mm, mm.holesAddr.Order(), IndexOf(mm.holesAddr.Order(), hole),
                       if mode.Low? then q.start else q.end)
    ensures hole == NULL ==> NoneSuits(mm, q)
    ensures hole != NULL ==> FirstTried(mm, q, mode, hole)
  {
    hide RbTree.Valid, RbTree.Order, LinkedList.Valid, DrmMm.Core, DrmMm.Holes;
    hide Near, Unique, SortedBy, Suits, NoneSuits;
    if hole == NULL {
      EmptyRoster(mm, q, mode);
    }
  }

  lemma StackTried(mm: DrmMm, q: Request, hole: Ptr)
    requires mm.Core() && mm.holeStack.Valid()
    requires hole == if mm.holeStack.Items() == [] then NULL else mm.holeStack.Items()[0]
    ensures hole == NULL ==> NoneSuits(mm, q)
    ensures hole != NULL ==> FirstTried(mm, q, Mode.Evict, hole)
  {
    hide RbTree.Valid, RbTree.Order, LinkedList.Valid, DrmMm.Core, DrmMm.Holes, Unique, SortedBy, Suits, NoneSuits;
    StackOrder(mm);
    RosterLists(mm, Mode.Evict);
    var s := mm.holeStack.Items();
    if s == [] {
      EmptyRoster(mm, q, Mode.Evict);
    } else {
      assert s[0] in s;
    }
  }

  /** first_hole. */
  method FirstHole(mm: DrmMm, q: Request, mode: Mode) returns (hole: Ptr)
    requires mm.Core() && q.size > 0 && mm.holesSize.root != NULL
    ensures hole == NULL ==> NoneSuits(mm, q)
    ensures hole != NULL ==> FirstTried(mm, q, mode, hole)
  {
    hide RbTree.Valid, RbTree.Order, LinkedList.Valid, DrmMm.Core, DrmMm.Holes, Near, Unique, SortedBy, Suits;
    hide FirstTried, NoneSuits, Roster;
    match mode
    case Best =>
      hole := BestHole(mm, q.size);
      BestTried(mm, q, hole);
    case Low =>
      hole := FindHole(mm, q.start);
      AddrTried(mm, q, mode, hole);
    case High =>
      hole := FindHole(mm, q.end);
      AddrTried(mm, q, mode, hole);
    case Evict =>
      hole := StackTop(mm);
      StackTried(mm, q, hole);
  }

  /** list_first_entry_or_null on the hole stack. */
  method StackTop(mm: DrmMm) returns (hole: Ptr)
    requires mm.Core()
    ensures mm.holeStack.Valid()
    ensures hole == if mm.holeStack.Items() == [] then NULL else mm.holeStack.Items()[0]
  {
    hide RbTree.Valid, RbTree.Order, DrmMm.Core;
    StackOrder(mm);
    assert mm.holeStack.chain[0] == HOLE_STACK;
    hole := mm.holeStack.Next(HOLE_STACK);
  }

  method StackNext(mm: DrmMm, hole: Ptr) returns (next: Ptr)
    requires mm.Core() && hole in mm.Holes()
    ensures mm.holeStack.Valid() && hole in mm.holeStack.Items()
    ensures var s := mm.holeStack.Items(); var i := IndexOf(s, hole); next == if i + 1 < |s| then s[i + 1] else NULL
  {
    hide RbTree.Valid, RbTree.Order, DrmMm.Core;
    StackOrder(mm);
    HintIndex(mm.holeStack.chain, IndexOf(mm.holeStack.chain, hole));
    next := mm.holeStack.Next(hole);
  }

  /** The neighbour of an element in the direction of the search, or NULL at the end. */
  ghost function Beside(s: seq<Ptr>, x: Ptr, mode: Mode): Ptr
    requires x in s
  {
    var i := IndexOf(s, x);
    if mode.Forward() then (if i + 1 < |s| then s[i + 1] else NULL) else if i > 0 then s[i - 1] else NULL
  }

  /** next_hole. */
  method NextHole(mm: DrmMm, hole: Ptr, mode: Mode) returns (next: Ptr)
    requires mm.Core() && hole in mm.Holes()
    ensures hole in Roster(mm, mode) && next == Beside(Roster(mm, mode), hole, mode)
  {
    hide RbTree.Valid, RbTree.Order, LinkedList.Valid, DrmMm.Core, DrmMm.Holes, Near, Unique, SortedBy;
    SizeOrder(mm);
    AddrOrder(mm);
    match mode
    case Best => next := mm.holesSize.Prev(hole);
    case Low => next := mm.holesAddr.Next(hole);
    case High => next := mm.holesAddr.Prev(hole);
    case Evict => next := StackNext(mm, hole);
  }
}
