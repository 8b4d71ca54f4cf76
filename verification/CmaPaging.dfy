/** What paging and the commands of main.c do to the pool, as a relation between its states. */
module CmaPaging {
  import opened KernelMath
  import opened Sequences
  import opened RbShape
  import opened MmTiling
  import opened RangeAllocator
  import opened HoleSearch
  import opened Gaps
  import opened EvictionScan
  import opened Insertion
  import opened Eviction
  import opened CmaBuffers

  /** What the commands act on: the buffers, the MRU list, the blocks of the allocator with their places, and the hole
      stack. */
  datatype PoolState = PoolState(buffers: Buffers, mru: seq<Ptr>, blocks: seq<Ptr>, nodes: Nodes, stack: seq<Ptr>)

  /** A page-aligned gap of `size` bytes would exist without the buffers of `gone`. */
  ghost predicate Room(s: PoolState, gone: seq<Ptr>, size: u64) {
    Opens(s.nodes, s.blocks, 0, POOL_SIZE, gone, PageRequest(size))
  }

  ghost predicate Fitting(s: PoolState, size: u64) {
    CanFit(s.buffers, s.mru, s.blocks, s.nodes, size)
  }

  /** `[a, a + size)` lies in the 128 MiB pool, at a page boundary, and is clear of every paged-in buffer that is in use
      or unmoveable. */
  ghost predicate BesideAt(s: PoolState, a: int, size: nat) {
    && 0 <= a && a + size <= 134217728 && a % 4096 == 0
    && forall x :: x in s.mru && x in s.buffers && (s.buffers[x].inUse || s.buffers[x].unmoveable) ==>
         x in s.nodes && (s.nodes[x].start + s.buffers[x].size <= a || a + size <= s.nodes[x].start)
  }

  lemma FittingBeside(s: PoolState, all: seq<Ptr>, size: u64)
    requires Known(s.buffers, all, s.mru) && InPool(s.buffers, s.mru, s.blocks, s.nodes)
    ensures Fitting(s, size) <==> exists a :: BesideAt(s, a, size)
  {
    hide LastFirst;
    LastFirstElements(s.mru, IdleOnes(s.buffers));
    assert forall a: int :: FreeAt(s.nodes, s.blocks, 0, POOL_SIZE, LruIdle(s.buffers, s.mru), a, PageRequest(size))
                   <==> BesideAt(s, a, size);
  }

  // ----- what paging in does

  ghost function PurgeableOnes(bufs: Buffers): set<Ptr> {
    set x | x in bufs && bufs[x].madv.DontNeed? && !bufs[x].inUse && !bufs[x].unmoveable
  }

  /** What userspace_cache_purge drops before `size` bytes are placed: nothing if there is a gap already. */
  ghost function Purged(s: PoolState, size: u64): seq<Ptr> {
    if Room(s, [], size) then [] else LastFirst(s.mru, PurgeableOnes(s.buffers))
  }

  /** The buffers that stay when those of `purged` leave, and those of `gone` that stand in the way of the hit. */
  ghost function Kept(s: PoolState, purged: seq<Ptr>, gone: seq<Ptr>, at: int, size: nat): set<Ptr> {
    set x | x in s.mru && x !in purged && !(x in gone && x in s.nodes && Overlaps(s.nodes[x], at, at + size))
  }

  /** Every buffer is as before, except for being paged in or out. */
  ghost predicate Repaged(bufs: Buffers, bufs': Buffers, mru': seq<Ptr>) {
    bufs'.Keys == bufs.Keys && forall x :: x in bufs ==> bufs'[x] == bufs[x].(pagedIn := x in mru')
  }

  /** `b` was carved out of the most recent of the smallest holes that suit. */
  ghost predicate Carved(s: PoolState, s': PoolState, hole: Ptr, b: Ptr, at: u64, q: Request) {
    && Newest(s.nodes, s.stack, hole, at, q)
    && InsertedAt(s.nodes, s'.nodes, s.blocks, s'.blocks, s.stack, s'.stack, hole, b, at, q.size)
  }

  /** Without the buffers of `purged`, the scan took those of `gone`: the least recently used of the other idle ones,
      and the fewest that open a gap. The buffer `b` was placed at the hit, and only those of them that it overlaps
      made way; if no scan was needed, the hit is in a smallest gap, and if nothing was purged either, in the most
      recent one of those. The buffer stays out if all idle ones together do not open a gap; then none leaves. */
  ghost predicate Settled(s: PoolState, s': PoolState, b: Ptr, size: u64, purged: seq<Ptr>, gone: seq<Ptr>, at: u64) {
    var q, idle := PageRequest(size), LastFirst(s.mru, IdleOnes(s.buffers) - Elements(purged));
    && gone <= idle && (forall j :: 0 <= j < |gone| ==> !Room(s, purged + gone[..j], size))
    && Repaged(s.buffers, s'.buffers, s'.mru)
    && (forall x :: x in s'.mru && x != b ==> SamePlace(s.nodes, s'.nodes, x))
    && if b in s'.mru then
         && HitOk(s.nodes, s.blocks, 0, POOL_SIZE, purged + gone, at, q, false)
         && (gone == [] ==> Tightest(s.nodes, s.blocks, 0, POOL_SIZE, purged, at, q))
         && (purged == [] && gone == [] ==> exists hole :: Carved(s, s', hole, b, at, q))
         && b in s'.nodes && s'.nodes[b].start == at && s'.nodes[b].size == size
         && s'.mru == [b] + Only(s.mru, Kept(s, purged, gone, at, size))
       else
         && gone == idle && !Room(s, purged + gone, size)
         && s'.mru == Only(s.mru, Kept(s, purged, [], at, size))
  }

  /** What paging in `b` does. It succeeds exactly if there is room beside the buffers that are in use or unmoveable. */
  ghost predicate Paging(s: PoolState, s': PoolState, b: Ptr, gone: seq<Ptr>, at: u64) {
    && b in s.buffers
    && var size := s.buffers[b].size;
       && (b in s'.mru <==> exists a :: BesideAt(s, a, size))
       && Settled(s, s', b, size, Purged(s, size), gone, at)
       && LeastRecent(s.buffers, s.mru, Purged(s, size), gone)
  }

  /** The command log. */
  datatype Command =
    | BufCreate(name: u32, size: u64, unmoveable: bool)
    | BufDestroy(name: u32)
    | BufUse(name: u32)
    | BufAddUsecnt(name: u32)
    | BufRemoveUsecnt(name: u32)
    | BufMadv(name: u32, arg: string)
  {
    /** Other sizes run into an assertion of drm_mm_scan_init_with_range. */
    predicate Sane() { BufCreate? ==> 0 < size <= POOL_SIZE }
  }

  ghost predicate Named(bufs: Buffers, x: Ptr, name: u32) {
    x in bufs && bufs[x].name == name
  }

  /** The flags given were stored in the buffer called `name`, and nothing else was. */
  ghost predicate Flagged(bufs: Buffers, bufs': Buffers, name: u32, inUse: Option<bool>, madv: Option<Madv>) {
    && bufs'.Keys == bufs.Keys
    && forall x :: x in bufs ==> bufs'[x] == if bufs[x].name != name then bufs[x] else
         bufs[x].(inUse := if inUse.Some? then inUse.value else bufs[x].inUse,
                  madv := if madv.Some? then madv.value else bufs[x].madv)
  }

  /** A paged-in buffer that a page-out may not evict keeps its place. */
  ghost predicate Pinned(s: PoolState, s': PoolState, x: Ptr) {
    x in s.mru && x in s.buffers && (s.buffers[x].inUse || s.buffers[x].unmoveable) ==>
      x in s'.mru && SamePlace(s.nodes, s'.nodes, x)
  }

  /** The block in front of `b`. */
  ghost function InFront(blocks: seq<Ptr>, b: Ptr): Ptr {
    if b in blocks && IndexOf(blocks, b) > 0 then blocks[IndexOf(blocks, b) - 1] else NULL
  }

  /** The hole that a block leaves is the most recent one. */
  ghost predicate Freed(s: PoolState, s': PoolState, b: Ptr) {
    if b in s.mru then
      && s'.blocks == Without(s.blocks, b)
      && s'.stack == [InFront(s.blocks, b)] + Without(Without(s.stack, b), InFront(s.blocks, b))
    else
      s'.blocks == s.blocks && s'.nodes == s.nodes && s'.stack == s.stack
  }

  ghost predicate Created(s: PoolState, s': PoolState, c: Command, b: Ptr, gone: seq<Ptr>, at: u64)
    requires c.BufCreate?
  {
    && b !in s.buffers
    && var buf := Buffer(c.name, c.size, false, c.unmoveable, false, WillNeed);
       Paging(s.(buffers := s.buffers[b := buf]), s', b, gone, at)
  }

  /** What each command does. Only its own destruction moves or pages out a buffer that is in use or unmoveable. */
  ghost predicate Effect(c: Command, s: PoolState, s': PoolState) {
    && (forall x :: Pinned(s, s', x) || (c.BufDestroy? && Named(s.buffers, x, c.name)))
    && match c
       case BufCreate(name, _, _) =>
         if exists x :: Named(s.buffers, x, name) then s' == s else exists b, gone, at :: Created(s, s', c, b, gone, at)
       case BufDestroy(name) =>
         && (forall x :: x in s'.buffers <==> x in s.buffers && s.buffers[x].name != name)
         && (forall x :: x in s'.buffers ==> s'.buffers[x] == s.buffers[x])
         && s'.mru == Only(s.mru, s'.buffers.Keys) && (forall x :: x in s'.mru ==> SamePlace(s.nodes, s'.nodes, x))
         && ((forall x :: !Named(s.buffers, x, name)) ==> s' == s)
         && (forall b :: Named(s.buffers, b, name) ==> Freed(s, s', b))
       case BufUse(name) =>
         && ((forall x :: !Named(s.buffers, x, name)) ==> s' == s)
         && (forall b :: Named(s.buffers, b, name) ==>
               if b in s.mru then s' == s.(mru := [b] + Without(s.mru, b))
               else exists gone, at :: Paging(s, s', b, gone, at))
       case BufAddUsecnt(name) =>
         s' == s.(buffers := s'.buffers) && Flagged(s.buffers, s'.buffers, name, Some(true), None)
       case BufRemoveUsecnt(name) =>
         s' == s.(buffers := s'.buffers) && Flagged(s.buffers, s'.buffers, name, Some(false), None)
       case BufMadv(name, arg) =>
         s' == s.(buffers := s'.buffers)
         && Flagged(s.buffers, s'.buffers, name, None, if arg == "willneed" then Some(WillNeed) else None)
  }

  // ----- paging in without a purge

  /** BEST mode found a gap. */
  lemma SettledBest(s: PoolState, s': PoolState, all: seq<Ptr>, hole: Ptr, b: Ptr, size: u64, at: u64)
    requires Known(s.buffers, all, s.mru) && b in s.buffers && b !in s.mru
    requires s'.mru == [b] + s.mru && s'.buffers == s.buffers[b := s.buffers[b].(pagedIn := true)]
    requires (forall x :: x in s.mru ==> SamePlace(s.nodes, s'.nodes, x))
    requires b in s'.nodes && s'.nodes[b].start == at && s'.nodes[b].size == size
    requires HitOk(s.nodes, s.blocks, 0, POOL_SIZE, [], at, PageRequest(size), false)
    requires Tightest(s.nodes, s.blocks, 0, POOL_SIZE, [], at, PageRequest(size))
    requires Carved(s, s', hole, b, at, PageRequest(size))
    ensures Settled(s, s', b, size, [], [], at)
  {
    hide HitOk, Tightest, Carved, Only, LastFirst;
    OnlyAll(s.mru, Kept(s, [], [], at, size));
    var none: seq<Ptr> := [];
    assert none + none == none;
  }

  lemma FutileRoom(s: PoolState, gone: seq<Ptr>, n: nat, size: u64)
    requires Futile(s.nodes, s.blocks, gone, n, PageRequest(size)) && n <= |gone|
    ensures forall j :: 0 <= j < n ==> !Room(s, [] + gone[..j], size)
  {
    hide Opens;
    forall j | 0 <= j < n ensures !Room(s, [] + gone[..j], size) {
      assert [] + gone[..j] == gone[..j];
    }
  }

  /** The scan found a hit, and EVICT mode took it. */
  lemma SettledHit(s: PoolState, s1: PoolState, s': PoolState, b: Ptr, size: u64, gone: seq<Ptr>, at: u64)
    requires b in s.buffers && b !in s.mru && !Room(s, [], size)
    requires Evicted(s.buffers, s1.buffers, s.mru, s1.mru, s.nodes, s1.nodes) && b in s1.buffers
    requires s'.mru == [b] + s1.mru && s'.buffers == s1.buffers[b := s1.buffers[b].(pagedIn := true)]
    requires forall x :: x in s1.mru ==> SamePlace(s1.nodes, s'.nodes, x)
    requires b in s'.nodes && s'.nodes[b].start == at && s'.nodes[b].size == size
    requires gone <= LruIdle(s.buffers, s.mru) && Futile(s.nodes, s.blocks, gone, |gone|, PageRequest(size))
    requires HitOk(s.nodes, s.blocks, 0, POOL_SIZE, gone, at, PageRequest(size), false)
    requires forall x :: x in s.mru ==>
               x in s.nodes && (x in s1.mru <==> !(x in gone && Overlaps(s.nodes[x], at, at + size)))
    ensures Settled(s, s', b, size, [], gone, at)
  {
    hide Tightest, Carved, Only, LastFirst, Futile, Overlaps, Beyond, Clear;
    FutileRoom(s, gone, |gone|, size);
    assert gone != [] by {
      assert FreeAt(s.nodes, s.blocks, 0, POOL_SIZE, gone, at, PageRequest(size));
    }
    assert IdleOnes(s.buffers) - Elements([]) == IdleOnes(s.buffers);
    OnlyElements(s.mru, Elements(s1.mru));
    OnlyFrame(s.mru, Elements(s1.mru), Kept(s, [], gone, at, size));
    assert [] + gone == gone;
  }

  /** All idle buffers together do not open a gap. */
  lemma SettledOut(s: PoolState, s': PoolState, all: seq<Ptr>, b: Ptr, size: u64, gone: seq<Ptr>, at: u64)
    requires Known(s.buffers, all, s.mru) && b !in s.mru && s'.mru == s.mru && s'.buffers == s.buffers
    requires forall x :: x in s.mru ==> SamePlace(s.nodes, s'.nodes, x)
    requires gone == LruIdle(s.buffers, s.mru) && Futile(s.nodes, s.blocks, gone, |gone| + 1, PageRequest(size))
    ensures Settled(s, s', b, size, [], gone, at)
  {
    hide Only, LastFirst, Opens;
    FutileRoom(s, gone, |gone|, size);
    assert gone[..|gone|] == gone;
    assert IdleOnes(s.buffers) - Elements([]) == IdleOnes(s.buffers);
    OnlyAll(s.mru, Kept(s, [], [], at, size));
    assert [] + gone == gone;
  }

  // ----- after the purge

  /** The same stretches are clear. */
  ghost predicate SameClear(s: PoolState, gone: seq<Ptr>, s': PoolState, gone': seq<Ptr>) {
    forall a, e :: Clear(s.nodes, s.blocks, gone, a, e) <==> Clear(s'.nodes, s'.blocks, gone', a, e)
  }

  lemma RoomSame(s: PoolState, gone: seq<Ptr>, s': PoolState, gone': seq<Ptr>, size: u64)
    requires SameClear(s, gone, s', gone')
    ensures Room(s, gone, size) <==> Room(s', gone', size)
  {
    hide Clear;
    var q := PageRequest(size);
    assert forall a: int :: FreeAt(s.nodes, s.blocks, 0, POOL_SIZE, gone, a, q)
                   <==> FreeAt(s'.nodes, s'.blocks, 0, POOL_SIZE, gone', a, q);
  }

  lemma HitSame(s: PoolState, gone: seq<Ptr>, s': PoolState, gone': seq<Ptr>, at: int, q: Request)
    requires SameClear(s, gone, s', gone')
    ensures HitOk(s.nodes, s.blocks, 0, POOL_SIZE, gone, at, q, false)
       <==> HitOk(s'.nodes, s'.blocks, 0, POOL_SIZE, gone', at, q, false)
  {
    hide Clear, Beyond;
  }

  lemma TightestSame(s: PoolState, gone: seq<Ptr>, s': PoolState, gone': seq<Ptr>, at: int, q: Request)
    requires SameClear(s, gone, s', gone') && Tightest(s.nodes, s.blocks, 0, POOL_SIZE, gone, at, q)
    ensures Tightest(s'.nodes, s'.blocks, 0, POOL_SIZE, gone', at, q)
  {
    hide Clear;
    assert forall a: int, n: int :: Around(s.nodes, s.blocks, 0, POOL_SIZE, gone, a, q.size, n)
                           <==> Around(s'.nodes, s'.blocks, 0, POOL_SIZE, gone', a, q.size, n);
    assert forall a: int :: FreeAt(s.nodes, s.blocks, 0, POOL_SIZE, gone, a, q)
                   <==> FreeAt(s'.nodes, s'.blocks, 0, POOL_SIZE, gone', a, q);
  }

  /** The state after userspace_cache_purge. */
  ghost predicate AfterPurge(s: PoolState, s1: PoolState, purged: seq<Ptr>) {
    && Repaged(s.buffers, s1.buffers, s1.mru) && s1.mru == Only(s.mru, Elements(s.mru) - Elements(purged))
    && (forall x :: x in s1.mru <==> x in s.mru && x !in purged)
    && (forall x :: x in s1.mru ==> SamePlace(s.nodes, s1.nodes, x))
    && (forall x :: x in s.blocks && x != HEAD <==> x in s.mru)
    && (forall x :: x in s1.blocks && x != HEAD <==> x in s1.mru)
  }

  lemma PurgeDone(s: PoolState, s1: PoolState, all: seq<Ptr>, purged: seq<Ptr>)
    requires Known(s.buffers, all, s.mru) && InPool(s.buffers, s.mru, s.blocks, s.nodes)
    requires InPool(s1.buffers, s1.mru, s1.blocks, s1.nodes) && purged == LastFirst(s.mru, PurgeableOnes(s.buffers))
    requires Evicted(s.buffers, s1.buffers, s.mru, s1.mru, s.nodes, s1.nodes)
    requires forall x :: x in s.mru ==> x in s.buffers && (x in s1.mru <==> x !in PurgeableOnes(s.buffers))
    ensures AfterPurge(s, s1, purged)
  {
    hide LastFirst, Only;
    LastFirstElements(s.mru, PurgeableOnes(s.buffers));
    OnlyElements(s.mru, Elements(s1.mru));
    OnlyFrame(s.mru, Elements(s1.mru), Elements(s.mru) - Elements(purged));
  }

  lemma ClearPurged(s: PoolState, s1: PoolState, purged: seq<Ptr>, gone: seq<Ptr>)
    requires AfterPurge(s, s1, purged)
    ensures SameClear(s1, [] + gone, s, purged + gone)
  {
    hide Only, Repaged, Clear;
    forall a: int, e: int
      ensures Clear(s1.nodes, s1.blocks, [] + gone, a, e) <==> Clear(s.nodes, s.blocks, purged + gone, a, e)
    {
      ClearSame(s1.nodes, s.nodes, s1.blocks, s.blocks, [] + gone, purged + gone, a, e);
    }
  }

  lemma IdlePurged(s: PoolState, s1: PoolState, purged: seq<Ptr>)
    requires AfterPurge(s, s1, purged) && forall x :: x in s.mru ==> x in s.buffers
    ensures LastFirst(s1.mru, IdleOnes(s1.buffers) - Elements([]))
            == LastFirst(s.mru, IdleOnes(s.buffers) - Elements(purged))
  {
    hide LastFirst, Only;
    var stay := Elements(s.mru) - Elements(purged);
    LastFirstOnly(s.mru, stay, IdleOnes(s1.buffers) - Elements([]));
    LastFirstFrame(s.mru, stay * (IdleOnes(s1.buffers) - Elements([])), IdleOnes(s.buffers) - Elements(purged));
  }

  lemma KeptPurged(s: PoolState, s1: PoolState, purged: seq<Ptr>, gone: seq<Ptr>, at: int, size: nat)
    requires AfterPurge(s, s1, purged)
    ensures Only(s1.mru, Kept(s1, [], gone, at, size)) == Only(s.mru, Kept(s, purged, gone, at, size))
  {
    hide Only, Repaged;
    var stay := Elements(s.mru) - Elements(purged);
    OnlyTwice(s.mru, stay, Kept(s1, [], gone, at, size));
    forall x | x in s1.mru ensures Overlaps(s1.nodes[x], at, at + size) <==> Overlaps(s.nodes[x], at, at + size) {
      assert SamePlace(s.nodes, s1.nodes, x);
    }
    OnlyFrame(s.mru, stay * Kept(s1, [], gone, at, size), Kept(s, purged, gone, at, size));
  }

  lemma SettledOthers(s: PoolState, s1: PoolState, s': PoolState, b: Ptr, size: u64, purged: seq<Ptr>, gone: seq<Ptr>,
                      at: u64)
    requires AfterPurge(s, s1, purged) && Settled(s1, s', b, size, [], gone, at)
    ensures Repaged(s.buffers, s'.buffers, s'.mru)
    ensures forall x :: x in s'.mru && x != b ==> SamePlace(s.nodes, s'.nodes, x)
  {
    hide LastFirst, Only, HitOk, Tightest, Carved, Room, Overlaps;
    OnlyElements(s1.mru, Kept(s1, [], gone, at, size));
    OnlyElements(s1.mru, Kept(s1, [], [], at, size));
  }

  lemma HitRoom(s: PoolState, gone: seq<Ptr>, at: int, size: u64)
    requires HitOk(s.nodes, s.blocks, 0, POOL_SIZE, gone, at, PageRequest(size), false)
    ensures Room(s, gone, size)
  {
    hide FreeAt;
  }

  /** Paging in after the purge is paging in with the purged buffers out of the way. */
  lemma SettledPurged(s: PoolState, s1: PoolState, s': PoolState, b: Ptr, size: u64, purged: seq<Ptr>, gone: seq<Ptr>,
                      at: u64)
    requires AfterPurge(s, s1, purged) && (forall x :: x in s.mru ==> x in s.buffers) && b !in s.mru
    requires !Room(s, [], size)
    requires Settled(s1, s', b, size, [], gone, at)
    ensures Settled(s, s', b, size, purged, gone, at)
  {
    hide LastFirst, Only, HitOk, Tightest, Carved, SamePlace, Room, Kept, Overlaps, SameClear;
    var q := PageRequest(size);
    IdlePurged(s, s1, purged);
    KeptPurged(s, s1, purged, gone, at, size);
    KeptPurged(s, s1, purged, [], at, size);
    forall j | 0 <= j < |gone| ensures !Room(s, purged + gone[..j], size) {
      ClearPurged(s, s1, purged, gone[..j]);
      RoomSame(s1, [] + gone[..j], s, purged + gone[..j], size);
    }
    ClearPurged(s, s1, purged, gone);
    HitSame(s1, [] + gone, s, purged + gone, at, q);
    RoomSame(s1, [] + gone, s, purged + gone, size);
    if gone == [] && b in s'.mru {
      assert [] + gone == [] && purged + gone == purged;
      TightestSame(s1, [], s, purged, at, q);
      HitRoom(s, purged, at, size);
    }
    SettledOthers(s, s1, s', b, size, purged, gone, at);
  }

  // ----- what paging in promises

  lemma PagingDone(s: PoolState, s': PoolState, all: seq<Ptr>, b: Ptr, gone: seq<Ptr>, at: u64)
    requires Known(s.buffers, all, s.mru) && InPool(s.buffers, s.mru, s.blocks, s.nodes) && b in s.buffers
    requires var size := s.buffers[b].size;
             (b in s'.mru <==> Fitting(s, size)) && Settled(s, s', b, size, Purged(s, size), gone, at)
    ensures Paging(s, s', b, gone, at)
  {
    hide Only, LastFirst, HitOk, Tightest, Carved, Room, SamePlace, Overlaps, BesideAt, LeastRecent, Fitting, CanFit;
    hide InPool;
    var size := s.buffers[b].size;
    FittingBeside(s, all, size);
    PrefixLeastRecent(s.buffers, s.mru, Purged(s, size), gone);
  }

  // ----- what paging leaves alone

  lemma PagingKeeps(s: PoolState, s': PoolState, all: seq<Ptr>, b: Ptr, gone: seq<Ptr>, at: u64)
    requires Known(s.buffers, all, s.mru) && b !in s.mru && Paging(s, s', b, gone, at)
    ensures forall x :: Pinned(s, s', x)
  {
    hide Only, LastFirst, HitOk, Tightest, Carved, Room, SamePlace, Overlaps, BesideAt, LeastRecent;
    var size := s.buffers[b].size;
    var purged := Purged(s, size);
    LastFirstElements(s.mru, PurgeableOnes(s.buffers));
    LastFirstElements(s.mru, IdleOnes(s.buffers) - Elements(purged));
    OnlyElements(s.mru, Kept(s, purged, gone, at, size));
    OnlyElements(s.mru, Kept(s, purged, [], at, size));
    forall x | x in s.mru && (s.buffers[x].inUse || s.buffers[x].unmoveable) ensures x in s'.mru {
      assert x !in purged;
      assert x !in gone by {
        assert forall i :: 0 <= i < |gone| ==> gone[i] == LastFirst(s.mru, IdleOnes(s.buffers) - Elements(purged))[i];
      }
    }
  }

  /** No buffer was ever marked as not needed. */
  ghost predicate Willing(s: PoolState) {
    forall x :: x in s.buffers ==> s.buffers[x].madv.WillNeed?
  }

  lemma PagingRepages(s: PoolState, s': PoolState, b: Ptr, gone: seq<Ptr>, at: u64)
    requires Paging(s, s', b, gone, at)
    ensures Repaged(s.buffers, s'.buffers, s'.mru)
  {
  }

  /** No command ever stores the other mark. */
  lemma StaysWilling(c: Command, s: PoolState, s': PoolState)
    requires Effect(c, s, s') && Willing(s)
    ensures Willing(s')
  {
    hide Paging, Pinned, Only, Without, LastFirst, Room;
    match c
    case BufCreate(name, _, _) =>
      if forall x :: !Named(s.buffers, x, name) {
        var b, gone, at :| Created(s, s', c, b, gone, at);
        var buf := Buffer(c.name, c.size, false, c.unmoveable, false, WillNeed);
        PagingRepages(s.(buffers := s.buffers[b := buf]), s', b, gone, at);
      }
    case BufUse(name) =>
      if b :| Named(s.buffers, b, name) {
        if b !in s.mru {
          var gone, at :| Paging(s, s', b, gone, at);
          PagingRepages(s, s', b, gone, at);
        }
      }
    case _ =>
  }

  /** So userspace_cache_purge never drops anything. */
  lemma NothingPurged(s: PoolState, size: u64)
    requires Willing(s)
    ensures Purged(s, size) == []
  {
    LastFirstHead(s.mru, PurgeableOnes(s.buffers), -1);
  }

  /** In every command, a buffer that is in use or unmoveable keeps its place unless it is destroyed. */
  lemma EffectPins(c: Command, s: PoolState, s': PoolState)
    requires Effect(c, s, s')
    ensures forall x :: x in s.mru && x in s.buffers && (s.buffers[x].inUse || s.buffers[x].unmoveable) ==>
              || (x in s'.mru && SamePlace(s.nodes, s'.nodes, x))
              || (c.BufDestroy? && s.buffers[x].name == c.name)
  {
    hide Paging, Created, Freed, Only, Without, SamePlace;
    forall x | x in s.mru && x in s.buffers && (s.buffers[x].inUse || s.buffers[x].unmoveable)
      ensures || (x in s'.mru && SamePlace(s.nodes, s'.nodes, x))
              || (c.BufDestroy? && s.buffers[x].name == c.name)
    {
      assert Pinned(s, s', x) || (c.BufDestroy? && Named(s.buffers, x, c.name));
    }
  }
}
