/** The buffers of the CMA pool simulator (main.c) and the lists that hold them, as values. */
module CmaBuffers {
  import opened KernelMath
  import opened Sequences
  import opened RbShape
  import opened MmTiling
  import opened RangeAllocator
  import opened HoleSearch
  import opened Gaps

  /** VC4_CMA_POOL_SIZE. */
  const POOL_SIZE: u64 := 128 * 1024 * 1024

  const PAGE_SIZE: u64 := 4096

  datatype Madv = WillNeed | DontNeed

  /** struct buffer. Its first member is the drm_mm node, so that both share one address. */
  datatype Buffer = Buffer(name: u32, size: u64, pagedIn: bool, unmoveable: bool, inUse: bool, madv: Madv)

  type Buffers = map<Ptr, Buffer>

  /** The two lists name exactly the known and the paged-in buffers. */
  ghost predicate Known(bufs: Buffers, all: seq<Ptr>, mru: seq<Ptr>) {
    && Unique(all) && Unique(mru)
    && (forall x :: x in all <==> x in bufs)
    && (forall x :: x in mru <==> x in bufs && bufs[x].pagedIn)
    && (forall x :: x in bufs ==> x != NULL && x != HEAD && 0 < bufs[x].size <= POOL_SIZE)
    && (forall x, y :: x in bufs && y in bufs && bufs[x].name == bufs[y].name ==> x == y)
  }

  lemma KnownBuffer(bufs: Buffers, all: seq<Ptr>, mru: seq<Ptr>, b: Ptr)
    requires Known(bufs, all, mru) && b in bufs
    ensures Unique(all) && Unique(mru) && b in all && (b in mru <==> bufs[b].pagedIn) && b != NULL && b != HEAD
    ensures 0 < bufs[b].size <= POOL_SIZE
  {
  }

  lemma KnownLists(bufs: Buffers, all: seq<Ptr>, mru: seq<Ptr>, b: Ptr)
    requires Known(bufs, all, mru)
    ensures Unique(mru) && forall x :: x in Without(mru, b) <==> x in mru && x != b
  {
    WithoutUnique(mru, b);
  }

  /** The paged-in buffers are the blocks of the allocator, at page-aligned addresses. */
  ghost predicate InPool(bufs: Buffers, mru: seq<Ptr>, blocks: seq<Ptr>, nodes: Nodes) {
    && (forall x :: x in blocks && x != HEAD <==> x in mru)
    && (forall x :: x in mru ==>
          x in nodes && x in bufs && nodes[x].size == bufs[x].size && nodes[x].start % PAGE_SIZE == 0)
  }

  // ----- the overflow counter

  ghost function Share(bufs: Buffers, x: Ptr): nat {
    if x in bufs && !bufs[x].pagedIn then bufs[x].size else 0
  }

  /** The total size of the buffers that are paged out. */
  ghost function Out(bufs: Buffers, all: seq<Ptr>): nat {
    if all == [] then 0 else Share(bufs, all[0]) + Out(bufs, all[1..])
  }

  /** A size_t. */
  ghost function Wrap(n: nat): u64 {
    n % (U64_MAX + 1)
  }

  lemma WrapStep(n: nat, k: u64)
    ensures Add64(Wrap(n), k) == Wrap(n + k) && Sub64(Wrap(n + k), k) == Wrap(n)
  {
    var m := U64_MAX + 1;
    var q, r := n / m, n % m;
    if r + k < m {
      RemainderUnique(n + k, m, q, r + k);
    } else {
      assert m * (q + 1) == m * q + m;
      RemainderUnique(n + k, m, q + 1, r + k - m);
    }
  }

  lemma {:induction false} OutFrame(bufs: Buffers, bufs': Buffers, all: seq<Ptr>)
    requires forall x :: x in all ==> Share(bufs', x) == Share(bufs, x)
    ensures Out(bufs', all) == Out(bufs, all)
  {
    if all != [] { OutFrame(bufs, bufs', all[1..]); }
  }

  /** Changing one buffer changes the sum by its share. */
  lemma {:induction false} OutChange(bufs: Buffers, bufs': Buffers, all: seq<Ptr>, x: Ptr)
    requires Unique(all) && x in all && forall y :: y in all && y != x ==> Share(bufs', y) == Share(bufs, y)
    ensures Out(bufs', all) + Share(bufs, x) == Out(bufs, all) + Share(bufs', x)
  {
    if all[0] == x {
      OutFrame(bufs, bufs', all[1..]);
    } else {
      OutChange(bufs, bufs', all[1..], x);
    }
  }

  lemma {:induction false} OutWithout(bufs: Buffers, all: seq<Ptr>, x: Ptr)
    requires x in all
    ensures Out(bufs, all)
         == Out(bufs, Without(all, x)) + if x in bufs && !bufs[x].pagedIn then bufs[x].size else 0
  {
    if all[0] != x {
      OutWithout(bufs, all[1..], x);
      assert Without(all, x)[1..] == Without(all[1..], x);
    }
  }

  ghost function Names(bufs: Buffers, all: seq<Ptr>): set<nat>
    requires forall x :: x in all ==> x in bufs
  {
    set x | x in all :: bufs[x].name
  }

  /** Distinct names make at least as many names as buffers. */
  lemma {:induction false} NamesCount(bufs: Buffers, all: seq<Ptr>)
    requires Unique(all) && forall x :: x in all ==> x in bufs
    requires forall x, y :: x in all && y in all && bufs[x].name == bufs[y].name ==> x == y
    ensures |Names(bufs, all)| == |all|
  {
    if all != [] {
      NamesCount(bufs, all[1..]);
      assert Names(bufs, all) == Names(bufs, all[1..]) + {bufs[all[0]].name};
      assert bufs[all[0]].name !in Names(bufs, all[1..]);
    }
  }

  lemma {:induction false} SmallSet(s: set<nat>, n: nat)
    requires forall x :: x in s ==> x < n
    ensures |s| <= n
  {
    if n == 0 {
      assert s == {};
    } else {
      SmallSet(s - {n - 1}, n - 1);
    }
  }

  lemma {:induction false} OutBounded(bufs: Buffers, all: seq<Ptr>)
    requires forall x :: x in bufs ==> bufs[x].size <= POOL_SIZE
    ensures Out(bufs, all) <= |all| * POOL_SIZE
  {
    if all != [] { OutBounded(bufs, all[1..]); }
  }

  /** Names are 32-bit numbers, so that the buffers of any log together are smaller than 2^60 bytes. */
  lemma OutFits(bufs: Buffers, all: seq<Ptr>, mru: seq<Ptr>)
    requires Known(bufs, all, mru)
    ensures Out(bufs, all) <= U64_MAX
  {
    hide Out;
    NamesCount(bufs, all);
    SmallSet(Names(bufs, all), 0x1_0000_0000);
    OutBounded(bufs, all);
    assert |all| * POOL_SIZE <= 0x1_0000_0000 * POOL_SIZE;
  }

  // ----- idle buffers

  ghost function IdleOnes(bufs: Buffers): set<Ptr> {
    set x | x in bufs && !bufs[x].inUse && !bufs[x].unmoveable
  }

  /** The buffers that a page-out may evict, least recently used first. */
  ghost function LruIdle(bufs: Buffers, mru: seq<Ptr>): seq<Ptr> {
    LastFirst(mru, IdleOnes(bufs))
  }

  /** Those of `taken` are neither in use nor unmoveable, and so are none of the buffers used less recently that are
      not in `purged` or `taken`. */
  ghost predicate LeastRecent(bufs: Buffers, mru: seq<Ptr>, purged: seq<Ptr>, taken: seq<Ptr>) {
    forall x :: x in taken ==>
      && x in mru && x in bufs && !bufs[x].inUse && !bufs[x].unmoveable
      && forall i :: IndexOf(mru, x) < i < |mru| && mru[i] !in purged && mru[i] !in taken ==>
           mru[i] in bufs && (bufs[mru[i]].inUse || bufs[mru[i]].unmoveable)
  }

  lemma PrefixLeastRecent(bufs: Buffers, mru: seq<Ptr>, purged: seq<Ptr>, taken: seq<Ptr>)
    requires Unique(mru) && (forall x :: x in mru ==> x in bufs)
    requires taken <= LastFirst(mru, IdleOnes(bufs) - Elements(purged))
    ensures LeastRecent(bufs, mru, purged, taken)
  {
    hide LastFirst;
    PrefixLast(mru, IdleOnes(bufs) - Elements(purged), taken);
  }

  // ----- what paging out may do

  /** Some idle buffers were paged out; everything else stayed where it was. */
  ghost predicate Evicted(bufs: Buffers, bufs': Buffers, mru: seq<Ptr>, mru': seq<Ptr>, nodes: Nodes, nodes': Nodes) {
    && mru' == Only(mru, Elements(mru'))
    && bufs'.Keys == bufs.Keys && (forall x :: x in bufs ==> bufs'[x] == bufs[x].(pagedIn := x in mru'))
    && (forall x :: x in mru' ==> SamePlace(nodes, nodes', x))
    && (forall x :: x in mru && x !in mru' ==> x in bufs && !bufs[x].inUse && !bufs[x].unmoveable)
  }

  lemma EvictedSelf(bufs: Buffers, all: seq<Ptr>, mru: seq<Ptr>, blocks: seq<Ptr>, nodes: Nodes)
    requires Known(bufs, all, mru) && InPool(bufs, mru, blocks, nodes)
    ensures Evicted(bufs, bufs, mru, mru, nodes, nodes)
  {
    OnlyAll(mru, Elements(mru));
  }

  lemma EvictedFrame(bufs: Buffers, all: seq<Ptr>, mru: seq<Ptr>, blocks: seq<Ptr>, nodes: Nodes, nodes': Nodes)
    requires Known(bufs, all, mru) && InPool(bufs, mru, blocks, nodes) && SameBlocks(nodes, nodes', blocks)
    ensures Evicted(bufs, bufs, mru, mru, nodes, nodes')
  {
    InPoolFrame(bufs, mru, blocks, nodes, nodes');
    OnlyAll(mru, Elements(mru));
  }

  lemma EvictedTwice(bufs: Buffers, bufs1: Buffers, bufs': Buffers, mru: seq<Ptr>, mru1: seq<Ptr>, mru': seq<Ptr>,
                     nodes: Nodes, nodes1: Nodes, nodes': Nodes)
    requires Evicted(bufs, bufs1, mru, mru1, nodes, nodes1) && Evicted(bufs1, bufs', mru1, mru', nodes1, nodes')
    ensures Evicted(bufs, bufs', mru, mru', nodes, nodes')
  {
    OnlyTwice(mru, Elements(mru1), Elements(mru'));
    OnlyElements(mru, Elements(mru1));
    OnlyElements(mru1, Elements(mru'));
    assert Elements(mru1) * Elements(mru') == Elements(mru');
  }

  lemma EvictedOne(bufs: Buffers, bufs': Buffers, all: seq<Ptr>, mru: seq<Ptr>, nodes: Nodes, nodes': Nodes,
                   blocks: seq<Ptr>, x: Ptr)
    requires Known(bufs, all, mru) && InPool(bufs, mru, blocks, nodes) && x in mru
    requires !bufs[x].inUse && !bufs[x].unmoveable
    requires bufs' == bufs[x := bufs[x].(pagedIn := false)]
    requires forall y :: y in mru && y != x ==> SamePlace(nodes, nodes', y)
    ensures Evicted(bufs, bufs', mru, Without(mru, x), nodes, nodes')
  {
    WithoutUnique(mru, x);
    OnlyAll(mru, Elements(mru));
    OnlyWithout(mru, Elements(mru), x);
    assert Elements(Without(mru, x)) == Elements(mru) - {x};
  }

  // ----- what can be made to fit

  function PageRequest(size: u64): Request {
    Request(size, PAGE_SIZE, 0, POOL_SIZE)
  }

  /** A page-aligned gap of `size` bytes would exist without the idle buffers. */
  ghost predicate CanFit(bufs: Buffers, mru: seq<Ptr>, blocks: seq<Ptr>, nodes: Nodes, size: u64) {
    Opens(nodes, blocks, 0, POOL_SIZE, LruIdle(bufs, mru), PageRequest(size))
  }

  /** Paging out idle buffers does not change what can be made to fit. */
  lemma CanFitEvicted(bufs: Buffers, bufs': Buffers, all: seq<Ptr>, mru: seq<Ptr>, mru': seq<Ptr>, blocks: seq<Ptr>,
                      blocks': seq<Ptr>, nodes: Nodes, nodes': Nodes, size: u64)
    requires Known(bufs, all, mru) && Known(bufs', all, mru')
    requires InPool(bufs, mru, blocks, nodes) && InPool(bufs', mru', blocks', nodes')
    requires Evicted(bufs, bufs', mru, mru', nodes, nodes')
    ensures CanFit(bufs, mru, blocks, nodes, size) <==> CanFit(bufs', mru', blocks', nodes', size)
  {
    hide Clear, LastFirst, Only;
    LastFirstElements(mru, IdleOnes(bufs));
    LastFirstElements(mru', IdleOnes(bufs'));
    OnlyElements(mru, Elements(mru'));
    var q := PageRequest(size);
    forall a: int ensures FreeAt(nodes, blocks, 0, POOL_SIZE, LruIdle(bufs, mru), a, q)
                     <==> FreeAt(nodes', blocks', 0, POOL_SIZE, LruIdle(bufs', mru'), a, q)
    {
      ClearSame(nodes, nodes', blocks, blocks', LruIdle(bufs, mru), LruIdle(bufs', mru'), a, a + q.size);
    }
  }

  lemma ClearSame(nodes: Nodes, nodes': Nodes, blocks: seq<Ptr>, blocks': seq<Ptr>, gone: seq<Ptr>, gone': seq<Ptr>,
                  a: int, e: int)
    requires forall x :: (x in blocks && x != HEAD && x !in gone) <==> (x in blocks' && x != HEAD && x !in gone')
    requires forall x :: x in blocks && x != HEAD && x !in gone ==>
               SamePlace(nodes, nodes', x)
    ensures Clear(nodes, blocks, gone, a, e) <==> Clear(nodes', blocks', gone', a, e)
  {
    forall x | x in blocks && x != HEAD && x !in gone ensures Overlaps(nodes[x], a, e) <==> Overlaps(nodes'[x], a, e) {
    }
  }

  // ----- the effect of single steps on the tables

  ghost predicate Counted(bufs: Buffers, all: seq<Ptr>, overflow: u64) {
    overflow == Wrap(Out(bufs, all))
  }

  lemma PagedOutTables(bufs: Buffers, all: seq<Ptr>, mru: seq<Ptr>, overflow: u64, b: Ptr)
    requires Known(bufs, all, mru) && Counted(bufs, all, overflow) && b in mru
    ensures var bufs' := bufs[b := bufs[b].(pagedIn := false)];
            Known(bufs', all, Without(mru, b)) && Counted(bufs', all, Add64(overflow, bufs[b].size))
  {
    var bufs' := bufs[b := bufs[b].(pagedIn := false)];
    WithoutUnique(mru, b);
    OutChange(bufs, bufs', all, b);
    WrapStep(Out(bufs, all), bufs[b].size);
  }

  lemma PagedOutBlocks(bufs: Buffers, mru: seq<Ptr>, blocks: seq<Ptr>, nodes: Nodes, nodes': Nodes, b: Ptr)
    requires InPool(bufs, mru, blocks, nodes) && b in mru && Unique(mru) && Unique(blocks)
    requires Removed(nodes, nodes', blocks, b)
    requires b != HEAD
    ensures InPool(bufs[b := bufs[b].(pagedIn := false)], Without(mru, b), Without(blocks, b), nodes')
    ensures forall y :: y in mru && y != b ==> SamePlace(nodes, nodes', y)
  {
    hide Without, Unique;
    WithoutUnique(mru, b);
    WithoutUnique(blocks, b);
    forall y | y in mru && y != b
      ensures SamePlace(nodes, nodes', y)
    {
      assert y in Without(blocks, b) || y == HEAD;
    }
  }

  lemma PagedInTables(bufs: Buffers, all: seq<Ptr>, mru: seq<Ptr>, overflow: u64, b: Ptr)
    requires Known(bufs, all, mru) && Counted(bufs, all, overflow) && b in bufs && b !in mru
    ensures var bufs' := bufs[b := bufs[b].(pagedIn := true)];
            Known(bufs', all, [b] + mru) && Counted(bufs', all, Sub64(overflow, bufs[b].size))
  {
    var bufs' := bufs[b := bufs[b].(pagedIn := true)];
    OutChange(bufs, bufs', all, b);
    WrapStep(Out(bufs', all), bufs[b].size);
    var mru' := [b] + mru;
    assert forall i :: 0 < i < |mru'| ==> mru'[i] == mru[i - 1];
  }

  lemma PagedInBlocks(bufs: Buffers, mru: seq<Ptr>, blocks: seq<Ptr>, nodes: Nodes, nodes': Nodes, b: Ptr, i: nat,
                      start: u64)
    requires InPool(bufs, mru, blocks, nodes) && b in bufs && b !in mru && b != HEAD && i <= |blocks| && Unique(blocks)
    requires Placed(nodes, nodes', blocks, b, start, bufs[b].size) && start % PAGE_SIZE == 0
    ensures InPool(bufs[b := bufs[b].(pagedIn := true)], [b] + mru, InsertAt(blocks, i, b), nodes')
    ensures forall y :: y in mru ==> SamePlace(nodes, nodes', y)
  {
    hide InsertAt, Unique;
    InsertAtUnique(blocks, i, b);
    assert forall x :: x in mru ==> x in blocks;
  }

  lemma ForgottenTables(bufs: Buffers, all: seq<Ptr>, mru: seq<Ptr>, overflow: u64, b: Ptr)
    requires Known(bufs, all, mru) && Counted(bufs, all, overflow) && b in bufs && b !in mru
    ensures Known(bufs - {b}, Without(all, b), mru)
    ensures Counted(bufs - {b}, Without(all, b), Sub64(overflow, bufs[b].size))
  {
    WithoutUnique(all, b);
    OutWithout(bufs, all, b);
    OutFrame(bufs, bufs - {b}, Without(all, b));
    WrapStep(Out(bufs, Without(all, b)), bufs[b].size);
  }

  lemma CreatedTables(bufs: Buffers, all: seq<Ptr>, mru: seq<Ptr>, overflow: u64, b: Ptr, buf: Buffer)
    requires Known(bufs, all, mru) && Counted(bufs, all, overflow) && b !in bufs && b != NULL && b != HEAD
    requires !buf.pagedIn && 0 < buf.size <= POOL_SIZE && forall x :: x in bufs ==> bufs[x].name != buf.name
    ensures Known(bufs[b := buf], [b] + all, mru) && Counted(bufs[b := buf], [b] + all, Add64(overflow, buf.size))
  {
    hide Out;
    CreatedOut(bufs, all, b, buf);
    var all' := [b] + all;
    assert forall i :: 0 < i < |all'| ==> all'[i] == all[i - 1];
    WrapStep(Out(bufs, all), buf.size);
  }

  lemma CreatedOut(bufs: Buffers, all: seq<Ptr>, b: Ptr, buf: Buffer)
    requires b !in all && !buf.pagedIn
    ensures Out(bufs[b := buf], [b] + all) == Out(bufs, all) + buf.size
  {
    assert ([b] + all)[1..] == all;
    OutFrame(bufs, bufs[b := buf], all);
  }

  /** Storing a flag of a buffer. */
  lemma FlaggedTables(bufs: Buffers, all: seq<Ptr>, mru: seq<Ptr>, overflow: u64, b: Ptr, inUse: bool, madv: Madv)
    requires Known(bufs, all, mru) && Counted(bufs, all, overflow) && b in bufs
    ensures var bufs' := bufs[b := bufs[b].(inUse := inUse, madv := madv)];
            && Known(bufs', all, mru) && Counted(bufs', all, overflow)
            && forall blocks, nodes :: InPool(bufs, mru, blocks, nodes) ==> InPool(bufs', mru, blocks, nodes)
  {
    OutFrame(bufs, bufs[b := bufs[b].(inUse := inUse, madv := madv)], all);
  }

  /** Moving a buffer to the head of the MRU list. */
  lemma UsedTables(bufs: Buffers, all: seq<Ptr>, mru: seq<Ptr>, b: Ptr)
    requires Known(bufs, all, mru) && b in mru
    ensures Known(bufs, all, [b] + Without(mru, b))
    ensures forall x :: x in [b] + Without(mru, b) <==> x in mru
  {
    WithoutUnique(mru, b);
    var mru', r := [b] + Without(mru, b), Without(mru, b);
    assert forall i :: 0 < i < |mru'| ==> mru'[i] == r[i - 1];
  }

  // ----- frames under scan marks

  lemma InPoolFrame(bufs: Buffers, mru: seq<Ptr>, blocks: seq<Ptr>, nodes: Nodes, nodes': Nodes)
    requires InPool(bufs, mru, blocks, nodes) && SameBlocks(nodes, nodes', blocks)
    ensures InPool(bufs, mru, blocks, nodes')
    ensures forall x :: x in mru ==> SamePlace(nodes, nodes', x)
  {
    assert forall x :: x in mru ==> x in blocks;
  }

  lemma OpensFrame(nodes: Nodes, nodes': Nodes, blocks: seq<Ptr>, gone: seq<Ptr>, q: Request)
    requires SameBlocks(nodes, nodes', blocks) && forall x :: x in blocks ==> x in nodes
    ensures Opens(nodes, blocks, 0, POOL_SIZE, gone, q) <==> Opens(nodes', blocks, 0, POOL_SIZE, gone, q)
  {
    forall a: int
      ensures FreeAt(nodes, blocks, 0, POOL_SIZE, gone, a, q) <==> FreeAt(nodes', blocks, 0, POOL_SIZE, gone, a, q)
    {
      ClearSame(nodes, nodes', blocks, blocks, gone, gone, a, a + q.size);
    }
  }

  lemma OpensMore(nodes: Nodes, blocks: seq<Ptr>, gone: seq<Ptr>, q: Request)
    requires Opens(nodes, blocks, 0, POOL_SIZE, [], q)
    ensures Opens(nodes, blocks, 0, POOL_SIZE, gone, q)
  {
    var a :| FreeAt(nodes, blocks, 0, POOL_SIZE, [], a, q);
    assert FreeAt(nodes, blocks, 0, POOL_SIZE, gone, a, q);
  }

  ghost function Reverse(s: seq<Ptr>): seq<Ptr>
    decreases |s|
  {
    if s == [] then [] else [s[|s| - 1]] + Reverse(s[..|s| - 1])
  }

  lemma ReverseAppend(s: seq<Ptr>, x: Ptr)
    ensures Reverse(s + [x]) == [x] + Reverse(s)
  {
    assert (s + [x])[..|s|] == s;
  }

  lemma {:induction false} ReverseElements(s: seq<Ptr>)
    requires Unique(s)
    ensures Unique(Reverse(s)) && forall x :: x in Reverse(s) <==> x in s
    decreases |s|
  {
    if s != [] {
      var t, x := s[..|s| - 1], s[|s| - 1];
      ReverseElements(t);
      assert s == t + [x];
      var r := Reverse(t);
      assert Reverse(s) == [x] + r;
      forall i, j | 0 <= i < j < |[x] + r| ensures ([x] + r)[i] != ([x] + r)[j] {
        assert ([x] + r)[j] == r[j - 1] && r[j - 1] in t;
      }
    }
  }

  /** No prefix of `gone` shorter than `n` opens a gap. */
  ghost predicate Futile(nodes: Nodes, blocks: seq<Ptr>, gone: seq<Ptr>, n: nat, q: Request) {
    forall k :: 0 <= k < n && k <= |gone| ==> !Opens(nodes, blocks, 0, POOL_SIZE, gone[..k], q)
  }

  lemma FutileStep(nodes: Nodes, nodes': Nodes, blocks: seq<Ptr>, gone: seq<Ptr>, x: Ptr, q: Request, found: bool)
    requires Futile(nodes, blocks, gone, |gone| + 1, q) && SameBlocks(nodes, nodes', blocks)
    requires forall y :: y in blocks ==> y in nodes
    requires !found ==> forall a :: FreeAt(nodes', blocks, 0, POOL_SIZE, gone + [x], a, q) ==>
                          FreeAt(nodes', blocks, 0, POOL_SIZE, gone, a, q)
    ensures Futile(nodes', blocks, gone + [x], if found then |gone| + 1 else |gone| + 2, q)
  {
    hide FreeAt;
    var gone' := gone + [x];
    forall k | 0 <= k <= |gone| ensures !Opens(nodes', blocks, 0, POOL_SIZE, gone'[..k], q) {
      assert gone'[..k] == gone[..k];
      OpensFrame(nodes, nodes', blocks, gone[..k], q);
    }
    assert gone'[..|gone|] == gone && gone'[..|gone'|] == gone';
  }

  /** Walking back along the eviction list. */
  lemma UnwindStep(taken: seq<Ptr>, list: seq<Ptr>, i: nat)
    requires i < |list| && Reverse(taken) == list[i..]
    ensures taken != [] && list[i] == taken[|taken| - 1] && Reverse(taken[..|taken| - 1]) == list[i + 1..]
  {
    assert taken != [];
    TailOf(list, i, taken[|taken| - 1], Reverse(taken[..|taken| - 1]));
  }

  lemma TailOf(list: seq<Ptr>, i: nat, x: Ptr, tail: seq<Ptr>)
    requires i < |list| && list[i..] == [x] + tail
    ensures list[i] == x && list[i + 1..] == tail
  {
    assert list[i..][0] == x;
    assert list[i..][1..] == list[i + 1..];
  }

  lemma FutileFrame(nodes: Nodes, nodes': Nodes, blocks: seq<Ptr>, gone: seq<Ptr>, n: nat, q: Request)
    requires SameBlocks(nodes, nodes', blocks) && (forall x :: x in blocks ==> x in nodes)
    requires Futile(nodes', blocks, gone, n, q)
    ensures Futile(nodes, blocks, gone, n, q)
  {
    hide Opens, SameBlocks;
    forall k | 0 <= k < n && k <= |gone| ensures !Opens(nodes, blocks, 0, POOL_SIZE, gone[..k], q) {
      OpensFrame(nodes, nodes', blocks, gone[..k], q);
    }
  }

  lemma SameBlocksBack(nodes: Nodes, nodes': Nodes, blocks: seq<Ptr>)
    requires SameBlocks(nodes, nodes', blocks) && (forall x :: x in blocks ==> x in nodes)
    ensures SameBlocks(nodes', nodes, blocks) && forall x :: x in blocks ==> x in nodes'
  {
  }

  /** Unless something was paged out, no gap has opened. */
  lemma NothingEvicted(bufs: Buffers, bufs': Buffers, mru: seq<Ptr>, blocks: seq<Ptr>, blocks': seq<Ptr>, nodes: Nodes,
                       nodes': Nodes, q: Request)
    requires InPool(bufs, mru, blocks, nodes) && InPool(bufs', mru, blocks', nodes')
    requires Evicted(bufs, bufs', mru, mru, nodes, nodes')
    requires Opens(nodes', blocks', 0, POOL_SIZE, [], q)
    ensures Opens(nodes, blocks, 0, POOL_SIZE, [], q)
  {
    var a :| FreeAt(nodes', blocks', 0, POOL_SIZE, [], a, q);
    ClearSame(nodes, nodes', blocks, blocks', [], [], a, a + q.size);
    assert FreeAt(nodes, blocks, 0, POOL_SIZE, [], a, q);
  }
}
