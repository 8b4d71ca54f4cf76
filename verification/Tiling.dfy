/** The values behind drm_mm: nodes, the holes embedded behind them (drm/drm_mm.h), and how a chain of nodes tiles the
    managed range. */
module MmTiling {
  import opened KernelMath
  import opened Sequences
  import opened RbShape
  import opened LinkedLists

  /** The address of `mm->head_node`. Its list entry heads the node list. */
  const HEAD: Ptr := 1

  /** struct drm_mm_node without its embedded list and tree entries. */
  datatype MmNode = MmNode(start: u64, size: u64, holeSize: u64, isAllocated: bool, scannedBlock: bool) {

    /** __drm_mm_hole_node_start. For the head node the sum wraps around to the start of the managed range. */
    function HoleStart(): u64 { Add64(start, size) }

    /** drm_mm_hole_follows. */
    predicate HoleFollows() { holeSize != 0 }

    /** The end of the hole as the searches compute it. */
    function HoleEnd(): u64 { Add64(HoleStart(), holeSize) }
  }

  type Nodes = map<Ptr, MmNode>

  ghost predicate BlockOk(nodes: Nodes, x: Ptr, lo: nat, hi: nat) {
    && x != NULL && x in nodes && nodes[x].isAllocated
    && nodes[x].size > 0 && lo <= nodes[x].start && nodes[x].start + nodes[x].size <= hi
  }

  ghost predicate HeadOk(nodes: Nodes, lo: nat, hi: nat) {
    && HEAD in nodes && !nodes[HEAD].isAllocated
    && lo < hi <= U64_MAX && nodes[HEAD].start == hi && nodes[HEAD].size == U64_MAX + 1 - (hi - lo)
  }

  /** The head node followed by blocks inside `[lo, hi)` that do not overlap and ascend. */
  ghost predicate Tiled(nodes: Nodes, chain: seq<Ptr>, lo: nat, hi: nat) {
    && chain != [] && chain[0] == HEAD && Unique(chain) && HeadOk(nodes, lo, hi)
    && (forall i :: 1 <= i < |chain| ==> BlockOk(nodes, chain[i], lo, hi))
    && (forall i, j :: 1 <= i < j < |chain| ==> nodes[chain[i]].start + nodes[chain[i]].size <= nodes[chain[j]].start)
  }

  /** Where the hole behind entry `i` ends, __drm_mm_hole_node_end. The head node closes the ring: its own start is the
      end of the managed range. */
  ghost function NextStart(nodes: Nodes, chain: seq<Ptr>, i: nat): nat
    requires i < |chain| && forall x :: x in chain ==> x in nodes
  {
    nodes[Succ(chain, i)].start
  }

  ghost predicate HoleSizeAt(nodes: Nodes, chain: seq<Ptr>, i: nat)
    requires i < |chain| && forall x :: x in chain ==> x in nodes
  {
    nodes[chain[i]].holeSize == NextStart(nodes, chain, i) - nodes[chain[i]].HoleStart()
  }

  /** Each node records the size of the hole behind it. */
  ghost predicate HoleSizes(nodes: Nodes, chain: seq<Ptr>)
    requires forall x :: x in chain ==> x in nodes
  {
    forall i :: 0 <= i < |chain| ==> HoleSizeAt(nodes, chain, i)
  }

  ghost function HoleSet(nodes: Nodes, chain: seq<Ptr>): set<Ptr>
    requires forall x :: x in chain ==> x in nodes
  {
    set x | x in chain && nodes[x].HoleFollows()
  }

  lemma TiledDomain(nodes: Nodes, chain: seq<Ptr>, lo: nat, hi: nat)
    requires Tiled(nodes, chain, lo, hi)
    ensures forall x :: x in chain ==> x in nodes && x != NULL
    ensures forall x :: x in chain ==> (nodes[x].isAllocated <==> x != HEAD)
  {
  }

  lemma HeadFirst(nodes: Nodes, chain: seq<Ptr>, lo: nat, hi: nat)
    requires Tiled(nodes, chain, lo, hi)
    ensures chain != [] && chain[0] == HEAD && HEAD in chain && Unique(chain)
    ensures forall i :: 1 <= i < |chain| ==> chain[i] != HEAD
  {
  }

  lemma BlockEnd(nodes: Nodes, chain: seq<Ptr>, lo: nat, hi: nat, n: Ptr)
    requires Tiled(nodes, chain, lo, hi) && n in chain && n != HEAD
    ensures n in nodes && nodes[n].HoleStart() == nodes[n].start + nodes[n].size && nodes[n].size > 0
    ensures lo <= nodes[n].start && nodes[n].start + nodes[n].size <= hi
  {
    assert BlockOk(nodes, n, lo, hi);
  }

  /** The hole behind entry `i`: inside the range, and its start does not wrap. */
  lemma HoleBounds(nodes: Nodes, chain: seq<Ptr>, lo: nat, hi: nat, i: nat)
    requires Tiled(nodes, chain, lo, hi) && i < |chain|
    ensures forall x :: x in chain ==> x in nodes
    ensures lo <= nodes[chain[i]].HoleStart() <= NextStart(nodes, chain, i) <= hi
    ensures i == 0 ==> nodes[chain[i]].HoleStart() == lo
    ensures i > 0 ==> nodes[chain[i]].HoleStart() == nodes[chain[i]].start + nodes[chain[i]].size
    ensures i + 1 < |chain| ==> NextStart(nodes, chain, i) == nodes[chain[i + 1]].start
    ensures i + 1 == |chain| ==> NextStart(nodes, chain, i) == hi
  {
    TiledDomain(nodes, chain, lo, hi);
  }

  /** Between two holes lies at least one block. */
  lemma HolesApart(nodes: Nodes, chain: seq<Ptr>, lo: nat, hi: nat, i: nat, j: nat)
    requires Tiled(nodes, chain, lo, hi) && i < j < |chain|
    ensures forall x :: x in chain ==> x in nodes
    ensures NextStart(nodes, chain, i) < nodes[chain[j]].HoleStart()
    ensures NextStart(nodes, chain, i) <= nodes[chain[j]].start
  {
    HoleBounds(nodes, chain, lo, hi, i);
    HoleBounds(nodes, chain, lo, hi, j);
    assert BlockOk(nodes, chain[j], lo, hi) && BlockOk(nodes, chain[i + 1], lo, hi);
    assert i + 1 < j ==> nodes[chain[i + 1]].start + nodes[chain[i + 1]].size <= nodes[chain[j]].start;
  }

  /** The nodes agree on everything but the hole sizes and the scan marks. */
  ghost predicate SameBlocks(nodes: Nodes, nodes': Nodes, chain: seq<Ptr>) {
    forall x :: x in chain && x in nodes ==>
      && x in nodes' && nodes'[x].start == nodes[x].start && nodes'[x].size == nodes[x].size
      && nodes'[x].isAllocated == nodes[x].isAllocated
  }

  /** The node is where it was. */
  ghost predicate SamePlace(nodes: Nodes, nodes': Nodes, x: Ptr) {
    x in nodes && x in nodes' && nodes'[x].start == nodes[x].start && nodes'[x].size == nodes[x].size
  }

  lemma TiledFrame(nodes: Nodes, nodes': Nodes, chain: seq<Ptr>, lo: nat, hi: nat)
    requires Tiled(nodes, chain, lo, hi) && SameBlocks(nodes, nodes', chain)
    ensures Tiled(nodes', chain, lo, hi)
  {
    assert HEAD in chain;
    forall i | 1 <= i < |chain| ensures BlockOk(nodes', chain[i], lo, hi) {
      assert chain[i] in chain && BlockOk(nodes, chain[i], lo, hi);
    }
    forall i, j | 1 <= i < j < |chain|
      ensures nodes'[chain[i]].start + nodes'[chain[i]].size <= nodes'[chain[j]].start
    {
      assert chain[i] in chain && chain[j] in chain;
      assert BlockOk(nodes, chain[i], lo, hi) && BlockOk(nodes, chain[j], lo, hi);
    }
  }

  // ----- placing a block in a hole

  /** `chain'` is `chain` with `x` behind entry `i`. */
  ghost predicate Grown(chain: seq<Ptr>, chain': seq<Ptr>, i: nat, x: Ptr) {
    && i < |chain| && |chain'| == |chain| + 1 && chain'[i + 1] == x
    && forall j :: 0 <= j < |chain'| && j != i + 1 ==> chain'[j] == chain[if j <= i then j else j - 1]
  }

  lemma GrownInsert(chain: seq<Ptr>, i: nat, x: Ptr)
    requires i < |chain| && Unique(chain) && x !in chain
    ensures Grown(chain, InsertAt(chain, i + 1, x), i, x) && Unique(InsertAt(chain, i + 1, x))
    ensures forall y :: y in InsertAt(chain, i + 1, x) <==> y in chain || y == x
  {
    InsertAtUnique(chain, i + 1, x);
  }

  lemma PlaceTiled(nodes: Nodes, nodes': Nodes, chain: seq<Ptr>, chain': seq<Ptr>, lo: nat, hi: nat, i: nat, x: Ptr)
    requires Tiled(nodes, chain, lo, hi) && Grown(chain, chain', i, x) && Unique(chain') && x != NULL
    requires forall y :: y in chain ==> y in nodes
    requires SameBlocks(nodes, nodes', chain)
    requires x in nodes' && nodes'[x].isAllocated && nodes'[x].size > 0
    requires nodes[chain[i]].HoleStart() <= nodes'[x].start
    requires nodes'[x].start + nodes'[x].size <= NextStart(nodes, chain, i)
    ensures Tiled(nodes', chain', lo, hi)
  {
    TiledFrame(nodes, nodes', chain, lo, hi);
    HoleBounds(nodes, chain, lo, hi, i);
    forall j | 1 <= j < |chain'| ensures BlockOk(nodes', chain'[j], lo, hi) {
      assert j != i + 1 ==> chain'[j] == chain[if j <= i then j else j - 1];
    }
    forall j, k | 1 <= j < k < |chain'|
      ensures nodes'[chain'[j]].start + nodes'[chain'[j]].size <= nodes'[chain'[k]].start
    {
      PlacedOrder(nodes, nodes', chain, chain', lo, hi, i, x, j, k);
    }
  }

  lemma PlacedOrder(nodes: Nodes, nodes': Nodes, chain: seq<Ptr>, chain': seq<Ptr>, lo: nat, hi: nat, i: nat, x: Ptr,
                    j: nat, k: nat)
    requires Tiled(nodes, chain, lo, hi) && Tiled(nodes', chain, lo, hi) && Grown(chain, chain', i, x)
    requires SameBlocks(nodes, nodes', chain) && x in nodes'
    requires forall y :: y in chain ==> y in nodes
    requires nodes[chain[i]].HoleStart() <= nodes'[x].start
    requires nodes'[x].start + nodes'[x].size <= NextStart(nodes, chain, i)
    requires 1 <= j < k < |chain'| && chain'[j] in nodes' && chain'[k] in nodes'
    ensures nodes'[chain'[j]].start + nodes'[chain'[j]].size <= nodes'[chain'[k]].start
  {
    var j', k' := if j <= i then j else j - 1, if k <= i then k else k - 1;
    if j == i + 1 {
      assert chain'[k] == chain[k'] && chain[k'] in chain;
      HolesApart(nodes, chain, lo, hi, i, k');
    } else if k == i + 1 {
      assert chain'[j] == chain[j'] && chain[j'] in chain;
      PlaceAfter(nodes, chain, lo, hi, j', i);
    } else {
      assert chain'[j] == chain[j'] && chain'[k] == chain[k'];
    }
  }

  /** A block ends before the hole behind any later entry, or its own, starts. */
  lemma PlaceAfter(nodes: Nodes, chain: seq<Ptr>, lo: nat, hi: nat, j: nat, i: nat)
    requires Tiled(nodes, chain, lo, hi) && 1 <= j <= i < |chain|
    ensures chain[i] in nodes && chain[j] in nodes
    ensures nodes[chain[j]].start + nodes[chain[j]].size <= nodes[chain[i]].HoleStart()
  {
    HoleBounds(nodes, chain, lo, hi, i);
    assert BlockOk(nodes, chain[i], lo, hi) && BlockOk(nodes, chain[j], lo, hi);
  }

  lemma PlaceHoleSizes(nodes: Nodes, nodes': Nodes, chain: seq<Ptr>, chain': seq<Ptr>, lo: nat, hi: nat, i: nat, x: Ptr)
    requires Tiled(nodes, chain, lo, hi) && Grown(chain, chain', i, x)
    requires forall y :: y in chain ==> y in nodes
    requires HoleSizes(nodes, chain) && SameBlocks(nodes, nodes', chain)
    requires x in nodes' && Tiled(nodes', chain', lo, hi)
    requires forall y :: y in chain' ==> y in nodes'
    requires forall j :: 0 <= j < |chain| && j != i ==> nodes'[chain[j]].holeSize == nodes[chain[j]].holeSize
    requires nodes'[chain[i]].holeSize == nodes'[x].start - nodes[chain[i]].HoleStart()
    requires nodes'[x].holeSize == NextStart(nodes, chain, i) - (nodes'[x].start + nodes'[x].size)
    ensures HoleSizes(nodes', chain')
  {
    hide Tiled;
    forall j | 0 <= j < |chain'| ensures HoleSizeAt(nodes', chain', j) {
      if j == i + 1 {
        HoleBounds(nodes', chain', lo, hi, j);
        assert Succ(chain', j) == Succ(chain, i) && Succ(chain, i) in chain;
      } else {
        var k := if j <= i then j else j - 1;
        assert chain'[j] == chain[k] && HoleSizeAt(nodes, chain, k) && chain[k] in chain;
        assert Succ(chain', j) == if k == i then x else Succ(chain, k);
        assert Succ(chain, k) in chain;
      }
    }
  }

  // ----- removing a block

  /** `chain'` is `chain` without entry `i`. */
  ghost predicate Shrunk(chain: seq<Ptr>, chain': seq<Ptr>, i: nat) {
    && i < |chain| && |chain'| == |chain| - 1
    && forall j :: 0 <= j < |chain'| ==> chain'[j] == chain[if j < i then j else j + 1]
  }

  lemma ShrunkWithout(chain: seq<Ptr>, i: nat)
    requires i < |chain| && Unique(chain)
    ensures Shrunk(chain, Without(chain, chain[i]), i) && Unique(Without(chain, chain[i]))
    ensures forall y :: y in Without(chain, chain[i]) <==> y in chain && y != chain[i]
  {
    WithoutAt(chain, i);
    ShrunkSlices(chain, i);
    WithoutUnique(chain, chain[i]);
  }

  lemma ShrunkSlices(chain: seq<Ptr>, i: nat)
    requires i < |chain|
    ensures Shrunk(chain, chain[..i] + chain[i + 1..], i)
  {
  }

  lemma RemoveTiled(nodes: Nodes, nodes': Nodes, chain: seq<Ptr>, chain': seq<Ptr>, lo: nat, hi: nat, i: nat)
    requires Tiled(nodes, chain, lo, hi) && 1 <= i && Shrunk(chain, chain', i) && Unique(chain')
    requires SameBlocks(nodes, nodes', chain')
    ensures Tiled(nodes', chain', lo, hi)
  {
    TiledDomain(nodes, chain, lo, hi);
    assert chain'[0] == HEAD && HEAD in chain';
    forall j | 1 <= j < |chain'| ensures BlockOk(nodes', chain'[j], lo, hi) {
      assert chain'[j] == chain[if j < i then j else j + 1] && chain'[j] in chain';
    }
    forall j, k | 1 <= j < k < |chain'|
      ensures nodes'[chain'[j]].start + nodes'[chain'[j]].size <= nodes'[chain'[k]].start
    {
      assert chain'[j] == chain[if j < i then j else j + 1] && chain'[j] in chain';
      assert chain'[k] == chain[if k < i then k else k + 1] && chain'[k] in chain';
    }
  }

  lemma RemoveHoleSizes(nodes: Nodes, nodes': Nodes, chain: seq<Ptr>, chain': seq<Ptr>, lo: nat, hi: nat, i: nat)
    requires Tiled(nodes, chain, lo, hi) && 1 <= i && Shrunk(chain, chain', i)
    requires forall y :: y in chain ==> y in nodes
    requires forall y :: y in chain' ==> y in nodes'
    requires HoleSizes(nodes, chain) && SameBlocks(nodes, nodes', chain') && Tiled(nodes', chain', lo, hi)
    requires forall j :: 0 <= j < |chain| && j != i && j != i - 1 ==>
               chain[j] in nodes' && nodes'[chain[j]].holeSize == nodes[chain[j]].holeSize
    requires chain[i - 1] in nodes'
    requires nodes'[chain[i - 1]].holeSize == NextStart(nodes, chain, i) - nodes[chain[i - 1]].HoleStart()
    ensures HoleSizes(nodes', chain')
  {
    hide Tiled;
    HeadFirst(nodes, chain, lo, hi);
    HeadFirst(nodes', chain', lo, hi);
    forall j | 0 <= j < |chain'| ensures HoleSizeAt(nodes', chain', j) {
      var k := if j < i then j else j + 1;
      assert chain'[j] == chain[k] && HoleSizeAt(nodes, chain, k) && chain'[j] in chain';
      assert Succ(chain', j) == if k == i - 1 then Succ(chain, i) else Succ(chain, k);
      assert Succ(chain', j) in chain';
    }
  }

  // ----- renaming a block

  ghost predicate SameRecord(nodes: Nodes, nodes': Nodes, x: Ptr, y: Ptr) {
    && x in nodes && y in nodes' && nodes'[y] == nodes[x]
  }

  /** A chain whose entries have the same records tiles the same way. */
  lemma RenamedTiled(nodes: Nodes, nodes': Nodes, chain: seq<Ptr>, chain': seq<Ptr>, lo: nat, hi: nat)
    requires Tiled(nodes, chain, lo, hi) && (forall x :: x in chain ==> x in nodes) && HoleSizes(nodes, chain)
    requires |chain'| == |chain| && Unique(chain') && chain'[0] == HEAD && NULL !in chain'
    requires forall i :: 0 <= i < |chain| ==> SameRecord(nodes, nodes', chain[i], chain'[i])
    ensures Tiled(nodes', chain', lo, hi) && (forall x :: x in chain' ==> x in nodes') && HoleSizes(nodes', chain')
  {
    assert SameRecord(nodes, nodes', chain[0], chain'[0]);
    forall i | 1 <= i < |chain'| ensures BlockOk(nodes', chain'[i], lo, hi) {
      assert BlockOk(nodes, chain[i], lo, hi) && SameRecord(nodes, nodes', chain[i], chain'[i]);
    }
    forall i, j | 1 <= i < j < |chain'|
      ensures nodes'[chain'[i]].start + nodes'[chain'[i]].size <= nodes'[chain'[j]].start
    {
      assert SameRecord(nodes, nodes', chain[i], chain'[i]) && SameRecord(nodes, nodes', chain[j], chain'[j]);
      assert BlockOk(nodes, chain[i], lo, hi) && BlockOk(nodes, chain[j], lo, hi);
    }
    forall i | 0 <= i < |chain'| ensures HoleSizeAt(nodes', chain', i) {
      var k := if i + 1 < |chain| then i + 1 else 0;
      assert SameRecord(nodes, nodes', chain[i], chain'[i]) && SameRecord(nodes, nodes', chain[k], chain'[k]);
      assert HoleSizeAt(nodes, chain, i) && chain[k] in chain && chain'[k] in chain';
    }
  }

  // ----- conservation

  /** Block and hole sizes of the first `k` entries. */
  ghost function Covered(nodes: Nodes, chain: seq<Ptr>, k: nat): nat
    requires k <= |chain| && forall x :: x in chain ==> x in nodes
  {
    if k == 0 then 0
    else Covered(nodes, chain, k - 1) + nodes[chain[k - 1]].holeSize + if k == 1 then 0 else nodes[chain[k - 1]].size
  }

  /** Used and free bytes always add up to the managed range. */
  lemma {:induction false} CoveredExactly(nodes: Nodes, chain: seq<Ptr>, lo: nat, hi: nat, k: nat)
    requires Tiled(nodes, chain, lo, hi) && 1 <= k <= |chain|
    requires forall x :: x in chain ==> x in nodes
    requires HoleSizes(nodes, chain)
    ensures Covered(nodes, chain, k) == NextStart(nodes, chain, k - 1) - lo
    ensures k == |chain| ==> Covered(nodes, chain, k) == hi - lo
    decreases k
  {
    HoleBounds(nodes, chain, lo, hi, k - 1);
    assert HoleSizeAt(nodes, chain, k - 1);
    if k > 1 {
      CoveredExactly(nodes, chain, lo, hi, k - 1);
      HoleBounds(nodes, chain, lo, hi, k - 2);
    } else {
      assert Covered(nodes, chain, 0) == 0;
    }
  }
}
