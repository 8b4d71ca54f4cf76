/** The pool of cma-pool-log.py: first-fit insertion, paging out one buffer at a time, optional compaction. */
module SimPools {
  import opened KernelMath
  import opened Sequences
  import opened RbShape

  /** Pool.SIZE. */
  const SIZE: nat := 128 * 1024 * 1024

  /** The attributes of a Buffer object. An object is known by its id, the key under which Pool.buffers holds it. */
  datatype SimBuffer = SimBuffer(size: nat, unmoveable: bool, offset: Option<nat>, inUse: bool, madv: string)

  type SimBuffers = map<Ptr, SimBuffer>

  /** How a method ends: normally, or with the exception it raises. */
  datatype Outcome = Done | KeyError | AssertionError | TypeError | NoSpace

  function Start(bufs: SimBuffers, x: Ptr): nat {
    if x in bufs && bufs[x].offset.Some? then bufs[x].offset.value else 0
  }

  function End(bufs: SimBuffers, x: Ptr): nat {
    if x in bufs then Start(bufs, x) + bufs[x].size else 0
  }

  /** offset_list is sorted and without overlaps, and everything lies in the pool. */
  ghost predicate Sorted(bufs: SimBuffers, offsets: seq<Ptr>) {
    && (forall i, j :: 0 <= i < j < |offsets| ==> End(bufs, offsets[i]) <= Start(bufs, offsets[j]))
    && (forall i :: 0 <= i < |offsets| ==> End(bufs, offsets[i]) <= SIZE)
  }

  /** Both lists hold exactly the buffers with an offset; `ids` are the keys in order of insertion. */
  ghost predicate Listed(bufs: SimBuffers, ids: seq<Ptr>, offsets: seq<Ptr>, mru: seq<Ptr>) {
    && Unique(ids) && Unique(offsets) && Unique(mru)
    && (forall x :: x in ids <==> x in bufs)
    && (forall x :: x in offsets <==> x in bufs && bufs[x].offset.Some?)
    && (forall x :: x in mru <==> x in bufs && bufs[x].offset.Some?)
    && (forall x :: x in bufs ==> bufs[x].size > 0)
  }

  // ----- overflow

  ghost function OutShare(bufs: SimBuffers, x: Ptr): nat {
    if x in bufs && bufs[x].offset.None? then bufs[x].size else 0
  }

  /** The total size of the buffers that have no offset. */
  ghost function OutTotal(bufs: SimBuffers, ids: seq<Ptr>): nat {
    if ids == [] then 0 else OutShare(bufs, ids[0]) + OutTotal(bufs, ids[1..])
  }

  lemma {:induction false} TotalFrame(bufs: SimBuffers, bufs': SimBuffers, ids: seq<Ptr>)
    requires forall x :: x in ids ==> OutShare(bufs', x) == OutShare(bufs, x)
    ensures OutTotal(bufs', ids) == OutTotal(bufs, ids)
  {
    if ids != [] { TotalFrame(bufs, bufs', ids[1..]); }
  }

  lemma {:induction false} TotalChange(bufs: SimBuffers, bufs': SimBuffers, ids: seq<Ptr>, x: Ptr)
    requires Unique(ids) && x in ids && forall y :: y in ids && y != x ==> OutShare(bufs', y) == OutShare(bufs, y)
    ensures OutTotal(bufs', ids) + OutShare(bufs, x) == OutTotal(bufs, ids) + OutShare(bufs', x)
  {
    if ids[0] == x {
      TotalFrame(bufs, bufs', ids[1..]);
    } else {
      TotalChange(bufs, bufs', ids[1..], x);
    }
  }

  lemma {:induction false} TotalWithout(bufs: SimBuffers, ids: seq<Ptr>, x: Ptr)
    requires x in ids
    ensures OutTotal(bufs, ids)
         == OutTotal(bufs, Without(ids, x)) + if x in bufs && bufs[x].offset.None? then bufs[x].size else 0
  {
    if ids[0] != x {
      TotalWithout(bufs, ids[1..], x);
      assert Without(ids, x)[1..] == Without(ids[1..], x);
    }
  }

  lemma {:induction false} TotalAppend(bufs: SimBuffers, ids: seq<Ptr>, x: Ptr)
    ensures OutTotal(bufs, ids + [x]) == OutTotal(bufs, ids) + OutShare(bufs, x)
  {
    if ids == [] {
      assert ids + [x] == [x] && [x][1..] == [];
    } else {
      assert (ids + [x])[1..] == ids[1..] + [x];
      TotalAppend(bufs, ids[1..], x);
    }
  }

  // ----- room for a buffer

  /** `size` bytes at `a` lie in the 128 MiB pool and, once the buffers of `gone` are out of the way, meet no other. */
  ghost predicate RoomAt(bufs: SimBuffers, offsets: seq<Ptr>, gone: seq<Ptr>, a: nat, size: nat) {
    && a + size <= 134217728
    && forall x :: x in offsets && x !in gone && x in bufs && bufs[x].offset.Some? ==>
         bufs[x].offset.value + bufs[x].size <= a || a + size <= bufs[x].offset.value
  }

  /** `size` bytes at `a` lie in the pool and meet no placed buffer that is in use or unmoveable. */
  ghost predicate BesideAt(bufs: SimBuffers, offsets: seq<Ptr>, a: nat, size: nat) {
    && a + size <= 134217728
    && forall x :: x in offsets && x in bufs && bufs[x].offset.Some? && (bufs[x].inUse || bufs[x].unmoveable) ==>
         bufs[x].offset.value + bufs[x].size <= a || a + size <= bufs[x].offset.value
  }

  ghost predicate Room(bufs: SimBuffers, offsets: seq<Ptr>, gone: seq<Ptr>, size: nat) {
    exists a: nat :: RoomAt(bufs, offsets, gone, a, size)
  }

  ghost function IdleOnes(bufs: SimBuffers): set<Ptr> {
    set x | x in bufs && !bufs[x].inUse && !bufs[x].unmoveable
  }

  ghost function PurgeableOnes(bufs: SimBuffers): set<Ptr> {
    set x | x in bufs && bufs[x].madv == "dontneed" && !bufs[x].inUse && !bufs[x].unmoveable
  }

  /** The buffers that may be paged out, least recently used first. */
  ghost function Victims(bufs: SimBuffers, mru: seq<Ptr>): seq<Ptr> {
    LastFirst(mru, IdleOnes(bufs))
  }

  // ----- dropping buffers from the pool

  ghost function Rest(mru: seq<Ptr>, gone: seq<Ptr>): set<Ptr> {
    set x | x in mru && x !in gone
  }

  /** The buffers of `gone` have left the pool; nothing else has changed. */
  ghost predicate Dropped(bufs: SimBuffers, bufs': SimBuffers, offsets: seq<Ptr>, offsets': seq<Ptr>, mru: seq<Ptr>,
                          mru': seq<Ptr>, gone: seq<Ptr>)
  {
    && bufs'.Keys == bufs.Keys
    && (forall x :: x in bufs ==> bufs'[x] == if x in gone then bufs[x].(offset := None) else bufs[x])
    && (forall x :: x in offsets' <==> x in offsets && x !in gone)
    && mru' == Only(mru, Rest(mru, gone))
  }

  lemma DroppedNone(bufs: SimBuffers, offsets: seq<Ptr>, mru: seq<Ptr>)
    ensures Dropped(bufs, bufs, offsets, offsets, mru, mru, [])
  {
    OnlyAll(mru, Rest(mru, []));
  }

  lemma DroppedOne(bufs: SimBuffers, bufs1: SimBuffers, offsets: seq<Ptr>, offsets1: seq<Ptr>, mru: seq<Ptr>,
                   mru1: seq<Ptr>, gone: seq<Ptr>, v: Ptr)
    requires Dropped(bufs, bufs1, offsets, offsets1, mru, mru1, gone) && v in bufs1 && Unique(mru) && Unique(offsets1)
    ensures Dropped(bufs, bufs1[v := bufs1[v].(offset := None)], offsets, Without(offsets1, v), mru,
                    Without(mru1, v), gone + [v])
  {
    WithoutUnique(offsets1, v);
    OnlyWithout(mru, Rest(mru, gone), v);
    assert Rest(mru, gone + [v]) == Rest(mru, gone) - {v};
  }

  /** What fits now is what fitted without the dropped buffers. */
  lemma RoomDropped(bufs: SimBuffers, bufs1: SimBuffers, offsets: seq<Ptr>, offsets1: seq<Ptr>, mru: seq<Ptr>,
                    mru1: seq<Ptr>, gone: seq<Ptr>, a: nat, size: nat)
    requires Dropped(bufs, bufs1, offsets, offsets1, mru, mru1, gone) && forall x :: x in offsets ==> x in bufs
    ensures RoomAt(bufs1, offsets1, [], a, size) <==> RoomAt(bufs, offsets, gone, a, size)
  {
    forall x | x in offsets1 ensures Start(bufs1, x) == Start(bufs, x) && End(bufs1, x) == End(bufs, x) {
    }
  }

  lemma RoomMore(bufs: SimBuffers, offsets: seq<Ptr>, gone: seq<Ptr>, gone': seq<Ptr>, size: nat)
    requires Room(bufs, offsets, gone, size) && forall x :: x in gone ==> x in gone'
    ensures Room(bufs, offsets, gone', size)
  {
    var a: nat :| RoomAt(bufs, offsets, gone, a, size);
    assert RoomAt(bufs, offsets, gone', a, size);
  }

  /** Every buffer but `buf` kept its record, or lost its offset if it is in `gone`. */
  ghost predicate DroppedFrom(bufs: SimBuffers, bufs': SimBuffers, buf: Ptr, gone: seq<Ptr>) {
    && bufs'.Keys == bufs.Keys
    && forall x :: x in bufs && x != buf ==> bufs'[x] == if x in gone then bufs[x].(offset := None) else bufs[x]
  }

  /** Behind a buffer of `taken`, all in the MRU list but those of `purged` and `taken` are in use or unmoveable. */
  ghost predicate LeastRecent(bufs: SimBuffers, mru: seq<Ptr>, purged: seq<Ptr>, taken: seq<Ptr>) {
    forall x :: x in taken ==>
      && x in mru
      && forall i :: IndexOf(mru, x) < i < |mru| && mru[i] !in purged && mru[i] !in taken ==>
           mru[i] in bufs && (bufs[mru[i]].inUse || bufs[mru[i]].unmoveable)
  }

  /** What paging in `buf` does. Without a gap, first the purgeable buffers (`purged`) leave, then those of `gone`: the
      least recently used of the other idle ones, and no more of them than needed. The buffer takes the lowest address
      that is free then. It stays out exactly if there is no room beside the buffers that are in use or unmoveable,
      none of which is touched. */
  ghost predicate Paging(bufs: SimBuffers, bufs': SimBuffers, offsets: seq<Ptr>, mru: seq<Ptr>, mru': seq<Ptr>,
                         buf: Ptr, purged: seq<Ptr>, gone: seq<Ptr>, at: nat, done: bool)
    requires buf in bufs
  {
    var size, victims := bufs[buf].size, Victims(bufs, Only(mru, Rest(mru, purged)));
    && (done <==> exists a: nat :: BesideAt(bufs, offsets, a, size))
    && (Room(bufs, offsets, [], size) ==> purged == [] && gone == [])
    && (!Room(bufs, offsets, [], size) ==>
          forall x :: x in purged <==>
            x in offsets && x in bufs && bufs[x].madv == "dontneed" && !bufs[x].inUse && !bufs[x].unmoveable)
    && gone <= victims && (forall j :: 0 <= j < |gone| ==> !Room(bufs, offsets, purged + gone[..j], size))
    && (forall x :: x in purged + gone ==> x in bufs && !bufs[x].inUse && !bufs[x].unmoveable)
    && LeastRecent(bufs, mru, purged, gone)
    && DroppedFrom(bufs, bufs', buf, purged + gone) && buf in bufs'
    && if done then
         && RoomAt(bufs, offsets, purged + gone, at, size)
         && (forall a: nat :: RoomAt(bufs, offsets, purged + gone, a, size) ==> at <= a)
         && bufs'[buf] == bufs[buf].(offset := Some(at)) && mru' == [buf] + Only(mru, Rest(mru, purged + gone))
       else
         gone == victims && bufs'[buf] == bufs[buf] && mru' == Only(mru, Rest(mru, purged + gone))
  }

  lemma PagingParts(bufs: SimBuffers, bufs': SimBuffers, offsets: seq<Ptr>, mru: seq<Ptr>, mru': seq<Ptr>, buf: Ptr,
                    purged: seq<Ptr>, gone: seq<Ptr>, at: nat, done: bool)
    requires buf in bufs && Paging(bufs, bufs', offsets, mru, mru', buf, purged, gone, at, done)
    ensures bufs'.Keys == bufs.Keys
    ensures if done then mru' != [] && mru'[0] == buf && bufs'[buf].offset.Some? else bufs'[buf] == bufs[buf]
    ensures forall x :: x in bufs && x != buf && (bufs[x].inUse || bufs[x].unmoveable) ==>
              x in bufs' && bufs'[x] == bufs[x]
  {
    hide Victims, Only, Room, RoomAt, BesideAt, LeastRecent;
  }

  /** All buffers but `buf` that are in use or unmoveable are what they were, place included. */
  ghost predicate Unmoved(bufs: SimBuffers, bufs': SimBuffers, buf: Ptr) {
    forall x :: x in bufs && x != buf && (bufs[x].inUse || bufs[x].unmoveable) ==> x in bufs' && bufs'[x] == bufs[x]
  }

  lemma PagingKeeps(bufs: SimBuffers, bufs': SimBuffers, offsets: seq<Ptr>, mru: seq<Ptr>, mru': seq<Ptr>, buf: Ptr,
                    purged: seq<Ptr>, gone: seq<Ptr>, at: nat, done: bool)
    requires buf in bufs && Paging(bufs, bufs', offsets, mru, mru', buf, purged, gone, at, done)
    ensures Unmoved(bufs, bufs', buf)
  {
    hide Victims, Only, Room, RoomAt, BesideAt, LeastRecent;
  }

  /** While no buffer is marked as not needed, nothing is purged. */
  lemma NothingPurged(bufs: SimBuffers, bufs': SimBuffers, offsets: seq<Ptr>, mru: seq<Ptr>, mru': seq<Ptr>, buf: Ptr,
                      purged: seq<Ptr>, gone: seq<Ptr>, at: nat, done: bool)
    requires buf in bufs && Paging(bufs, bufs', offsets, mru, mru', buf, purged, gone, at, done)
    requires forall x :: x in bufs ==> bufs[x].madv != "dontneed"
    ensures purged == []
  {
    hide Victims, Only, Room, RoomAt, BesideAt, LeastRecent;
    NoElements(purged);
  }

  /** Where compaction moves a buffer: the end of its lower neighbour, or the start of the pool. */
  ghost function LowerEnd(bufs: SimBuffers, offsets: seq<Ptr>, x: Ptr): nat
    requires x in offsets
  {
    var i := IndexOf(offsets, x);
    if i == 0 then 0 else End(bufs, offsets[i - 1])
  }

  /** `x` is placed and its last byte is the one below `a`. */
  ghost predicate EndsAt(bufs: SimBuffers, x: Ptr, a: nat) {
    x in bufs && bufs[x].offset.Some? && bufs[x].offset.value + bufs[x].size == a
  }

  /** The buffer has no free byte right below its new place. */
  lemma LowerEndReached(bufs: SimBuffers, ids: seq<Ptr>, offsets: seq<Ptr>, mru: seq<Ptr>, x: Ptr)
    requires Listed(bufs, ids, offsets, mru) && x in offsets
    ensures var at := LowerEnd(bufs, offsets, x); at == 0 || exists y :: y in offsets && y != x && EndsAt(bufs, y, at)
  {
    var i := IndexOf(offsets, x);
    if i > 0 {
      assert offsets[i - 1] in offsets && offsets[i - 1] != x;
    }
  }

  class SimPool {
    const compact: bool
    var buffers: SimBuffers
    var mru: seq<Ptr>
    var offsets: seq<Ptr>
    var overflow: int
    ghost var ids: seq<Ptr>

    ghost predicate Valid()
      reads this
    {
      Listed(buffers, ids, offsets, mru) && Sorted(buffers, offsets) && overflow == OutTotal(buffers, ids)
    }

    constructor (compact: bool)
      ensures Valid() && buffers == map[] && mru == [] && offsets == [] && this.compact == compact
    {
      this.compact := compact;
      buffers, mru, offsets, overflow, ids := map[], [], [], 0, [];
    }

    /** _insert_buffer_at. */
    method InsertBufferAt(offset: nat, pos: nat, buf: Ptr)
      requires Valid() && buf in buffers && buffers[buf].offset.None? && pos <= |offsets|
      requires forall i :: 0 <= i < pos ==> End(buffers, offsets[i]) <= offset
      requires forall i :: pos <= i < |offsets| ==> offset + buffers[buf].size <= Start(buffers, offsets[i])
      requires offset + buffers[buf].size <= SIZE
      modifies `buffers, `mru, `offsets, `overflow
      ensures Valid() && mru == [buf] + old(mru) && offsets == InsertAt(old(offsets), pos, buf)
      ensures buffers == old(buffers)[buf := old(buffers[buf]).(offset := Some(offset))]
    {
      InsertedTables(buffers, ids, offsets, mru, buf, offset, pos);
      buffers := buffers[buf := buffers[buf].(offset := Some(offset))];
      offsets := InsertAt(offsets, pos, buf);
      mru := [buf] + mru;
      overflow := overflow - buffers[buf].size;
    }

    /** _insert_buffer: first fit takes the lowest address with enough room, and fails only if there is none. */
    method InsertBuffer(buf: Ptr) returns (ok: bool, ghost offset: nat)
      requires Valid() && buf in buffers && buffers[buf].offset.None?
      modifies `buffers, `mru, `offsets, `overflow
      ensures Valid()
      ensures ok <==> old(Room(buffers, offsets, [], buffers[buf].size))
      ensures !ok ==> buffers == old(buffers) && mru == old(mru) && offsets == old(offsets)
      ensures ok ==>
                mru == [buf] + old(mru) && buffers == old(buffers)[buf := old(buffers[buf]).(offset := Some(offset))]
      ensures ok ==> old(RoomAt(buffers, offsets, [], offset, buffers[buf].size))
      ensures ok ==> forall a: nat :: old(RoomAt(buffers, offsets, [], a, buffers[buf].size)) ==> offset <= a
    {
      hide Listed, Sorted, OutTotal;
      var last: nat, pos: nat, size := 0, 0, buffers[buf].size;
      while pos < |offsets|
        invariant Valid() && buffers == old(buffers) && offsets == old(offsets) && mru == old(mru)
        invariant pos <= |offsets| && last == if pos == 0 then 0 else End(buffers, offsets[pos - 1])
        invariant forall a: nat :: RoomAt(buffers, offsets, [], a, size) ==> last <= a
      {
        PassGap(pos, last, size);
        if Start(buffers, offsets[pos]) - last >= size {
          GapFound(pos, last, size);
          offset := last;
          InsertBufferAt(last, pos, buf);
          return true, offset;
        }
        last := End(buffers, offsets[pos]);
        pos := pos + 1;
      }
      if last + size <= SIZE {
        GapFound(pos, last, size);
        offset := last;
        InsertBufferAt(last, |offsets|, buf);
        return true, offset;
      }
      return false, 0;
    }

    /** What lies before and behind a gap. */
    lemma GapFound(pos: nat, last: nat, size: nat)
      requires Valid() && pos <= |offsets| && last == if pos == 0 then 0 else End(buffers, offsets[pos - 1])
      requires if pos < |offsets| then Start(buffers, offsets[pos]) >= last + size else last + size <= SIZE
      ensures forall i :: 0 <= i < pos ==> End(buffers, offsets[i]) <= last
      ensures forall i :: pos <= i < |offsets| ==> last + size <= Start(buffers, offsets[i])
      ensures last + size <= SIZE && RoomAt(buffers, offsets, [], last, size)
    {
      hide OutTotal;
      forall i | 0 <= i < |offsets| ensures Start(buffers, offsets[i]) <= End(buffers, offsets[i]) <= SIZE {
        assert offsets[i] in offsets;
      }
      forall i | pos < i < |offsets| ensures last + size <= Start(buffers, offsets[i]) {
        assert End(buffers, offsets[pos]) <= Start(buffers, offsets[i]);
      }
    }

    /** No placement starts in a gap that is too small. */
    lemma PassGap(pos: nat, last: nat, size: nat)
      requires Valid() && pos < |offsets|
      requires forall a: nat :: RoomAt(buffers, offsets, [], a, size) ==> last <= a
      ensures offsets[pos] in buffers && buffers[offsets[pos]].offset.Some?
      ensures Start(buffers, offsets[pos]) - last < size ==>
                forall a: nat :: RoomAt(buffers, offsets, [], a, size) ==> End(buffers, offsets[pos]) <= a
    {
      hide OutTotal, Sorted;
      assert offsets[pos] in offsets;
    }

    /** _remove_buffer_from_pool. */
    method RemoveFromPool(buf: Ptr)
      requires Valid() && buf in offsets
      modifies `buffers, `mru, `offsets, `overflow
      ensures Valid() && buf in old(buffers) && buffers == old(buffers)[buf := old(buffers[buf]).(offset := None)]
      ensures offsets == Without(old(offsets), buf) && mru == Without(old(mru), buf)
    {
      RemovedTables(buffers, ids, offsets, mru, buf);
      offsets := Without(offsets, buf);
      mru := Without(mru, buf);
      buffers := buffers[buf := buffers[buf].(offset := None)];
      overflow := overflow + buffers[buf].size;
    }

    /** _page_out_lru_buffer: removes the least recently used idle buffer, if there is one. */
    method PageOutLru() returns (ok: bool, ghost victim: Ptr)
      requires Valid()
      modifies `buffers, `mru, `offsets, `overflow
      ensures Valid()
      ensures var victims := Victims(old(buffers), old(mru));
              if ok then
                && victims != [] && victims[0] in old(buffers) && victims[0] in old(offsets)
                && buffers == old(buffers)[victims[0] := old(buffers)[victims[0]].(offset := None)]
                && offsets == Without(old(offsets), victims[0]) && mru == Without(old(mru), victims[0])
              else victims == [] && buffers == old(buffers) && offsets == old(offsets) && mru == old(mru)
      ensures ok ==>
                && victim in old(mru) && victim in old(buffers) && victim in old(offsets)
                && !old(buffers)[victim].inUse && !old(buffers)[victim].unmoveable
                && (forall i :: IndexOf(old(mru), victim) < i < |old(mru)| ==>
                      var x := old(mru)[i];
                      x in old(buffers) && (old(buffers)[x].inUse || old(buffers)[x].unmoveable))
                && buffers == old(buffers)[victim := old(buffers)[victim].(offset := None)]
                && offsets == Without(old(offsets), victim) && mru == Without(old(mru), victim)
      ensures !ok ==> forall x :: x in old(mru) ==>
                x in old(buffers) && (old(buffers)[x].inUse || old(buffers)[x].unmoveable)
    {
      hide Sorted, OutTotal, LastFirst;
      var pos := |mru| - 1;
      while pos >= 0
        invariant -1 <= pos < |mru| && Valid() && buffers == old(buffers) && offsets == old(offsets) && mru == old(mru)
        invariant forall i :: pos < i < |mru| ==>
                    mru[i] in buffers && (buffers[mru[i]].inUse || buffers[mru[i]].unmoveable)
      {
        var buf := mru[pos];
        assert buf in mru;
        if buffers[buf].inUse || buffers[buf].unmoveable {
          pos := pos - 1;
          continue;
        }
        LastFirstHead(mru, IdleOnes(buffers), pos);
        assert IndexOf(mru, buf) == pos;
        RemoveFromPool(buf);
        return true, buf;
      }
      LastFirstHead(mru, IdleOnes(buffers), -1);
      return false, NULL;
    }

    /** _purge_userspace_cache: exactly the idle buffers marked as not needed leave the pool. */
    method Purge() returns (ghost gone: seq<Ptr>)
      requires Valid()
      modifies `buffers, `mru, `offsets, `overflow
      ensures Valid() && Dropped(old(buffers), buffers, old(offsets), offsets, old(mru), mru, gone)
      ensures forall x :: x in gone <==>
                && x in old(offsets) && x in old(buffers) && old(buffers)[x].madv == "dontneed"
                && !old(buffers)[x].inUse && !old(buffers)[x].unmoveable
      ensures (forall x :: x in old(buffers) ==> old(buffers)[x].madv != "dontneed") ==>
                gone == [] && buffers == old(buffers) && offsets == old(offsets) && mru == old(mru)
    {
      hide Listed, Sorted, OutTotal, Dropped, Without, Unique;
      gone := [];
      ghost var bufs, offs, list := buffers, offsets, mru;
      DroppedNone(buffers, offsets, mru);
      ListsUnique();
      var i := 0;
      while i < |offsets|
        invariant 0 <= i <= |offsets| && Valid() && Dropped(bufs, buffers, offs, offsets, list, mru, gone)
        invariant forall j :: 0 <= j < i ==> offsets[j] in bufs && offsets[j] !in PurgeableOnes(bufs)
        invariant forall x :: x in gone ==> x in offs && x in PurgeableOnes(bufs)
        invariant gone == [] ==> buffers == bufs && offsets == offs && mru == list
        decreases |offsets| - i
      {
        var buf := offsets[i];
        PurgeReady(bufs, offs, list, gone, i);
        if buffers[buf].madv == "dontneed" && !buffers[buf].inUse && !buffers[buf].unmoveable {
          DroppedOne(bufs, buffers, offs, offsets, list, mru, gone, buf);
          RemoveFromPool(buf);
          gone := gone + [buf];
        } else {
          i := i + 1;
        }
      }
      PurgeDone(bufs, offs, list, gone);
      if forall x :: x in bufs ==> bufs[x].madv != "dontneed" {
        NoElements(gone);
      }
    }

    lemma ListsUnique()
      requires Valid()
      ensures Unique(mru) && Unique(offsets)
    {
      hide Sorted, OutTotal;
    }

    lemma PurgeReady(bufs: SimBuffers, offs: seq<Ptr>, list: seq<Ptr>, gone: seq<Ptr>, i: nat)
      requires Valid() && i < |offsets| && Dropped(bufs, buffers, offs, offsets, list, mru, gone)
      ensures var b := offsets[i]; b in buffers && b in bufs && bufs[b] == buffers[b] && b in offs && b in offsets
      ensures Unique(offsets) && Without(offsets, offsets[i]) == offsets[..i] + offsets[i + 1..]
    {
      hide Sorted, OutTotal;
      assert offsets[i] in offsets;
      WithoutAt(offsets, i);
    }

    lemma PurgeDone(bufs: SimBuffers, offs: seq<Ptr>, list: seq<Ptr>, gone: seq<Ptr>)
      requires Valid() && Dropped(bufs, buffers, offs, offsets, list, mru, gone)
      requires forall j :: 0 <= j < |offsets| ==> offsets[j] in bufs && offsets[j] !in PurgeableOnes(bufs)
      requires forall x :: x in gone ==> x in offs && x in PurgeableOnes(bufs)
      ensures forall x :: x in gone <==> x in offs && x in PurgeableOnes(bufs)
    {
      hide Sorted, OutTotal;
      forall x | x in offs && x in PurgeableOnes(bufs) ensures x in gone {
        assert x in gone || x in offsets;
      }
    }

    /** _page_in_buffer, of a buffer that has no offset. Without a gap it first drops all purgeable buffers, then idle
        ones, the least recently used first and no more than needed. It raises exactly if there is no room beside the
        buffers that are in use or unmoveable, and touches none of those. */
    method PageIn(buf: Ptr) returns (outcome: Outcome, ghost purged: seq<Ptr>, ghost gone: seq<Ptr>, ghost at: nat)
      requires Valid() && buf in buffers && buffers[buf].offset.None?
      modifies `buffers, `mru, `offsets, `overflow
      ensures Valid() && (outcome.Done? || outcome.NoSpace?)
      ensures Paging(old(buffers), buffers, old(offsets), old(mru), mru, buf, purged, gone, at, outcome.Done?)
      ensures Unmoved(old(buffers), buffers, buf)
      ensures (forall x :: x in old(buffers) ==> old(buffers)[x].madv != "dontneed") ==> purged == []
    {
      hide Sorted, OutTotal, Dropped, Victims, Room, RoomAt, Only, Listed, Without, Paging, Unmoved;
      ghost var bufs, offs, list, size := buffers, offsets, mru, buffers[buf].size;
      purged, gone := [], [];
      DroppedNone(buffers, offsets, mru);
      assert [] + gone == [];
      var ok;
      ok, at := InsertBuffer(buf);
      if ok {
        PagedInNow(bufs, bufs, buffers, ids, offs, offs, list, list, mru, buf, [], at, size);
        PagingDone(bufs, buffers, ids, offs, list, mru, buf, purged, gone, at, true);
        return Done, purged, gone, at;
      }
      purged := Purge();
      PurgedNot(bufs, buffers, ids, offs, offsets, list, mru, purged, buf);
      ghost var victims := Victims(bufs, Only(list, Rest(list, purged)));
      assert victims[0..] == victims && purged + gone == purged;
      while true
        invariant Valid() && buf in buffers && buffers[buf] == bufs[buf]
        invariant Dropped(bufs, buffers, offs, offsets, list, mru, purged + gone)
        invariant gone <= victims && Victims(buffers, mru) == victims[|gone|..]
        invariant forall j :: 0 <= j < |gone| ==> !Room(bufs, offs, purged + gone[..j], size)
        decreases |victims| - |gone|
      {
        ghost var bufs1, offs1, mru1 := buffers, offsets, mru;
        RoomNow(bufs, bufs1, ids, offs, offs1, list, mru1, purged + gone, size);
        ok, at := InsertBuffer(buf);
        if ok {
          PrefixRoom(bufs, ids, offs, list, purged, gone, size);
          PagedInNow(bufs, bufs1, buffers, ids, offs, offs1, list, mru1, mru, buf, purged + gone, at, size);
          PagingDone(bufs, buffers, ids, offs, list, mru, buf, purged, gone, at, true);
          return Done, purged, gone, at;
        }
        var paged;
        ghost var victim;
        paged, victim := PageOutLru();
        if !paged {
          PrefixRoom(bufs, ids, offs, list, purged, gone, size);
          DroppedIs(bufs, buffers, ids, offs, offsets, list, mru, buf, purged + gone);
          PagingDone(bufs, buffers, ids, offs, list, mru, buf, purged, gone, at, false);
          return NoSpace, purged, gone, at;
        }
        DropVictim(bufs, bufs1, buffers, ids, offs, offs1, list, mru1, buf, purged, gone, victims, size);
        gone := gone + [victims[|gone|]];
      }
    }

    /** _compact_buffer, for a buffer with an offset: it alone moves, down to the end of its lower neighbour. Whether it
        is unmoveable is not asked. */
    method CompactBuffer(buf: Ptr)
      requires Valid() && buf in buffers && buffers[buf].offset.Some?
      modifies `buffers
      ensures Valid() && buf in offsets
      ensures buffers == old(buffers)[buf := old(buffers[buf]).(offset := Some(LowerEnd(old(buffers), offsets, buf)))]
      ensures buffers[buf].offset.Some? && buffers[buf].offset.value <= old(buffers[buf].offset.value)
      ensures var at := buffers[buf].offset.value;
              at == 0 || exists y :: y in offsets && y != buf && EndsAt(old(buffers), y, at)
    {
      hide OutTotal, Sorted, Listed, IndexOf;
      var prev: nat, i: nat := 0, 0;
      CompactIndex(buf);
      while i < |offsets|
        invariant i <= IndexOf(offsets, buf) && Valid() && buffers == old(buffers)
        invariant prev == if i == 0 then 0 else End(buffers, offsets[i - 1])
      {
        CompactOrder(buf, i);
        if Start(buffers, offsets[i]) >= Start(buffers, buf) {
          break;
        }
        prev := End(buffers, offsets[i]);
        i := i + 1;
      }
      CompactTables(buf, prev);
      LowerEndReached(buffers, ids, offsets, mru, buf);
      if prev < Start(buffers, buf) {
        buffers := buffers[buf := buffers[buf].(offset := Some(prev))];
      } else {
        assert buffers[buf := buffers[buf].(offset := Some(prev))] == buffers;
      }
    }

    lemma CompactIndex(buf: Ptr)
      requires Valid() && buf in buffers && buffers[buf].offset.Some?
      ensures buf in offsets && forall x :: x in offsets ==> x in buffers
    {
      hide OutTotal, Sorted;
    }

    /** Exactly the buffers before `buf` in the list start below it. */
    lemma CompactOrder(buf: Ptr, i: nat)
      requires Valid() && buf in offsets && i < |offsets|
      ensures Start(buffers, offsets[i]) >= Start(buffers, buf) <==> i >= IndexOf(offsets, buf)
    {
      hide OutTotal;
      var k := IndexOf(offsets, buf);
      assert offsets[i] in offsets && offsets[k] == buf;
      if i < k {
        assert End(buffers, offsets[i]) <= Start(buffers, offsets[k]);
      } else if k < i {
        assert End(buffers, offsets[k]) <= Start(buffers, offsets[i]);
      }
    }

    lemma CompactTables(buf: Ptr, prev: nat)
      requires Valid() && buf in offsets
      requires var k := IndexOf(offsets, buf); prev == if k == 0 then 0 else End(buffers, offsets[k - 1])
      ensures buf in buffers && prev <= Start(buffers, buf)
      ensures var bufs' := buffers[buf := buffers[buf].(offset := Some(prev))];
              && Listed(bufs', ids, offsets, mru) && Sorted(bufs', offsets)
              && OutTotal(bufs', ids) == OutTotal(buffers, ids)
    {
      var k, bufs' := IndexOf(offsets, buf), buffers[buf := buffers[buf].(offset := Some(prev))];
      TotalFrame(buffers, bufs', ids);
      CompactSorted(buffers, bufs', offsets, k, prev);
    }

    /** Two placed buffers share no byte, and both lie in the 128 MiB of the pool. */
    lemma Disjoint(x: Ptr, y: Ptr)
      requires Valid() && x in offsets && y in offsets && x != y
      ensures x in buffers && y in buffers && buffers[x].offset.Some? && buffers[y].offset.Some?
      ensures buffers[x].offset.value + buffers[x].size <= 134217728
      ensures || buffers[x].offset.value + buffers[x].size <= buffers[y].offset.value
              || buffers[y].offset.value + buffers[y].size <= buffers[x].offset.value
    {
      hide OutTotal;
      var i, j := IndexOf(offsets, x), IndexOf(offsets, y);
      assert offsets[i] == x && offsets[j] == y;
    }

    /** The counter is exactly the total size of the buffers without an offset; the MRU list holds the others. */
    lemma OverflowExact()
      requires Valid()
      ensures overflow == OutTotal(buffers, ids) && Unique(ids) && forall x :: x in ids <==> x in buffers
      ensures forall x :: x in ids ==>
                overflow == OutTotal(buffers, Without(ids, x)) + if buffers[x].offset.None? then buffers[x].size else 0
      ensures Unique(mru) && forall x :: x in mru <==> x in buffers && buffers[x].offset.Some?
    {
      hide OutTotal, Sorted;
      forall x | x in ids
        ensures overflow == OutTotal(buffers, Without(ids, x)) + if buffers[x].offset.None? then buffers[x].size else 0
      {
        TotalWithout(buffers, ids, x);
      }
    }

    // ----- the commands

    /** _buf_destroy. */
    method Destroy(id: Ptr) returns (outcome: Outcome)
      requires Valid()
      modifies this
      ensures Valid() && outcome == if id in old(buffers) then Done else KeyError
      ensures outcome.Done? ==>
                buffers == old(buffers) - {id} && offsets == Without(old(offsets), id) && mru == Without(old(mru), id)
      ensures outcome.KeyError? ==> buffers == old(buffers) && offsets == old(offsets) && mru == old(mru)
    {
      hide OutTotal, Sorted;
      if id !in buffers {
        return KeyError;
      }
      DestroyedTables(buffers, ids, offsets, mru, id);
      if buffers[id].offset.None? {
        overflow := overflow - buffers[id].size;
      } else {
        mru := Without(mru, id);
        offsets := Without(offsets, id);
      }
      buffers := buffers - {id};
      ids := Without(ids, id);
      return Done;
    }

    /** _buf_add_usecnt. */
    method AddUsecnt(id: Ptr) returns (outcome: Outcome)
      requires Valid()
      modifies `buffers
      ensures Valid()
      ensures outcome == if id !in old(buffers) then KeyError
                         else if old(buffers)[id].inUse then AssertionError else Done
      ensures buffers == if outcome.Done? then old(buffers)[id := old(buffers)[id].(inUse := true)] else old(buffers)
    {
      hide OutTotal, Sorted;
      if id !in buffers {
        return KeyError;
      }
      if buffers[id].inUse {
        return AssertionError;
      }
      FlagTables(buffers, ids, offsets, mru, id, true, buffers[id].madv);
      buffers := buffers[id := buffers[id].(inUse := true)];
      return Done;
    }

    /** _buf_remove_usecnt. Compacting a buffer that is paged out compares None with a number, which raises. */
    method RemoveUsecnt(id: Ptr) returns (outcome: Outcome)
      requires Valid()
      modifies `buffers
      ensures Valid()
      ensures outcome == if id !in old(buffers) then KeyError
                         else if !old(buffers)[id].inUse then AssertionError
                         else if compact && old(buffers)[id].offset.None? then TypeError else Done
      ensures outcome.KeyError? || outcome.AssertionError? ==> buffers == old(buffers)
      ensures outcome.Done? || outcome.TypeError? ==>
                && buffers.Keys == old(buffers.Keys) && !buffers[id].inUse
                && (forall x :: x in buffers && x != id ==> buffers[x] == old(buffers)[x])
                && buffers[id] == old(buffers)[id].(inUse := false, offset := buffers[id].offset)
                && (!(compact && outcome.Done?) ==> buffers[id].offset == old(buffers)[id].offset)
      ensures compact && outcome.Done? ==>
                && id in offsets && buffers[id].offset == Some(LowerEnd(old(buffers), offsets, id))
                && (buffers[id].offset == old(buffers)[id].offset <==>
                    old(Start(buffers, id)) == LowerEnd(old(buffers), offsets, id))
      ensures compact && outcome.Done? ==>
                var at := buffers[id].offset.value;
                && at <= old(buffers[id].offset.value) && old(buffers[id].offset.Some?)
                && (at == 0 || exists y :: y in offsets && y != id && EndsAt(old(buffers), y, at))
    {
      hide OutTotal, Sorted;
      if id !in buffers {
        return KeyError;
      }
      if !buffers[id].inUse {
        return AssertionError;
      }
      ghost var bufs := buffers;
      FlagTables(buffers, ids, offsets, mru, id, false, buffers[id].madv);
      buffers := buffers[id := buffers[id].(inUse := false)];
      if compact {
        if buffers[id].offset.None? {
          return TypeError;
        }
        CompactBuffer(id);
        SameLowerEnd(bufs, bufs[id := bufs[id].(inUse := false)], offsets, id);
      }
      return Done;
    }

    /** _buf_create. If it raises for lack of space, the new buffer stays known, without an offset. */
    method Create(id: Ptr, size: nat, unmoveable: bool)
      returns (outcome: Outcome, ghost purged: seq<Ptr>, ghost gone: seq<Ptr>, ghost at: nat)
      requires Valid() && size > 0
      modifies this
      ensures Valid() && (outcome.AssertionError? <==> id in old(buffers)) && Unmoved(old(buffers), buffers, id)
      ensures outcome.AssertionError? ==> buffers == old(buffers) && offsets == old(offsets) && mru == old(mru)
      ensures !outcome.AssertionError? ==>
                && (outcome.Done? || outcome.NoSpace?) && (outcome.Done? <==> id in offsets)
                && Paging(old(buffers)[id := SimBuffer(size, unmoveable, None, false, "willneed")], buffers,
                          old(offsets), old(mru), mru, id, purged, gone, at, outcome.Done?)
    {
      hide OutTotal, Sorted, Paging;
      purged, gone, at := [], [], 0;
      if id in buffers {
        return AssertionError, purged, gone, at;
      }
      var buf := SimBuffer(size, unmoveable, None, false, "willneed");
      CreatedTables(buffers, ids, offsets, mru, id, buf);
      buffers := buffers[id := buf];
      ids := ids + [id];
      overflow := overflow + size;
      ghost var bufs, offs, list := buffers, offsets, mru;
      outcome, purged, gone, at := PageIn(id);
      PagingParts(bufs, buffers, offs, list, mru, id, purged, gone, at, outcome.Done?);
    }

    /** _buf_use. */
    method Use(id: Ptr) returns (outcome: Outcome, ghost purged: seq<Ptr>, ghost gone: seq<Ptr>, ghost at: nat)
      requires Valid()
      modifies this
      ensures Valid() && Unmoved(old(buffers), buffers, id)
      ensures outcome.KeyError? <==> id !in old(buffers)
      ensures outcome.AssertionError? <==> id in old(buffers) && old(buffers)[id].madv != "willneed"
      ensures outcome.KeyError? || outcome.AssertionError? ==>
                buffers == old(buffers) && offsets == old(offsets) && mru == old(mru)
      ensures outcome.Done? ==> mru != [] && mru[0] == id && id in offsets
      ensures id in old(buffers) && old(buffers)[id].madv == "willneed" && old(buffers)[id].offset.Some? ==>
                outcome.Done? && buffers == old(buffers) && mru == [id] + Without(old(mru), id)
      ensures id in old(buffers) && old(buffers)[id].madv == "willneed" && old(buffers)[id].offset.None? ==>
                && (outcome.Done? || outcome.NoSpace?)
                && Paging(old(buffers), buffers, old(offsets), old(mru), mru, id, purged, gone, at, outcome.Done?)
    {
      hide OutTotal, Sorted, Paging;
      purged, gone, at := [], [], 0;
      if id !in buffers {
        return KeyError, purged, gone, at;
      }
      if buffers[id].madv != "willneed" {
        return AssertionError, purged, gone, at;
      }
      ghost var bufs, offs, list := buffers, offsets, mru;
      if buffers[id].offset.None? {
        outcome, purged, gone, at := PageIn(id);
        PagingParts(bufs, buffers, offs, list, mru, id, purged, gone, at, outcome.Done?);
        if outcome.NoSpace? {
          return;
        }
      }
      assert buffers[id].offset.Some?;
      MovedToFront(mru, id);
      FrontStays(mru, id);
      mru := Without(mru, id);
      mru := [id] + mru;
      return Done, purged, gone, at;
    }

    /** _buf_madv. */
    method SetMadv(id: Ptr, madv: string) returns (outcome: Outcome)
      requires Valid()
      modifies `buffers
      ensures Valid() && outcome == if id in old(buffers) then Done else KeyError
      ensures buffers
              == if id in old(buffers) then old(buffers)[id := old(buffers)[id].(madv := madv)] else old(buffers)
    {
      hide OutTotal, Sorted;
      if id !in buffers {
        return KeyError;
      }
      FlagTables(buffers, ids, offsets, mru, id, buffers[id].inUse, madv);
      buffers := buffers[id := buffers[id].(madv := madv)];
      return Done;
    }
  }

  lemma CompactSorted(bufs: SimBuffers, bufs': SimBuffers, offsets: seq<Ptr>, k: nat, prev: nat)
    requires Sorted(bufs, offsets) && Unique(offsets) && k < |offsets|
    requires (forall x :: x in offsets ==> x in bufs && bufs[x].offset.Some?)
    requires bufs' == bufs[offsets[k] := bufs[offsets[k]].(offset := Some(prev))]
    requires prev == if k == 0 then 0 else End(bufs, offsets[k - 1])
    ensures prev <= Start(bufs, offsets[k]) && Sorted(bufs', offsets)
  {
    forall i | 0 <= i < |offsets|
      ensures offsets[i] in bufs && Start(bufs', offsets[i]) == (if i == k then prev else Start(bufs, offsets[i]))
      ensures End(bufs', offsets[i]) <= End(bufs, offsets[i]) && Start(bufs, offsets[i]) <= End(bufs, offsets[i])
    {
      assert offsets[i] in offsets && (i != k ==> offsets[i] != offsets[k]);
    }
    forall i, j | 0 <= i < j < |offsets| ensures End(bufs', offsets[i]) <= Start(bufs', offsets[j]) {
      assert End(bufs, offsets[i]) <= Start(bufs, offsets[j]);
      if j == k && i < k - 1 {
        assert End(bufs, offsets[i]) <= Start(bufs, offsets[k - 1]) <= End(bufs, offsets[k - 1]);
      }
    }
  }

  lemma DestroyedTables(bufs: SimBuffers, ids: seq<Ptr>, offsets: seq<Ptr>, mru: seq<Ptr>, id: Ptr)
    requires Listed(bufs, ids, offsets, mru) && Sorted(bufs, offsets) && id in bufs
    ensures var bufs', ids' := bufs - {id}, Without(ids, id);
            && Listed(bufs', ids', Without(offsets, id), Without(mru, id)) && Sorted(bufs', Without(offsets, id))
            && OutTotal(bufs', ids') + OutShare(bufs, id) == OutTotal(bufs, ids)
    ensures bufs[id].offset.None? ==> Without(offsets, id) == offsets && Without(mru, id) == mru
  {
    hide OutTotal, Without, Sorted, Unique, IndexOf;
    var bufs' := bufs - {id};
    WithoutUnique(ids, id);
    WithoutUnique(offsets, id);
    WithoutUnique(mru, id);
    TotalWithout(bufs, ids, id);
    TotalFrame(bufs, bufs', Without(ids, id));
    if id in offsets {
      RemovedSorted(bufs, bufs', offsets, IndexOf(offsets, id));
    } else {
      SortedFrame(bufs, bufs', offsets);
    }
  }

  lemma SortedFrame(bufs: SimBuffers, bufs': SimBuffers, offsets: seq<Ptr>)
    requires Sorted(bufs, offsets)
    requires forall x :: x in offsets ==> Start(bufs', x) == Start(bufs, x) && End(bufs', x) == End(bufs, x)
    ensures Sorted(bufs', offsets)
  {
    assert forall i :: 0 <= i < |offsets| ==> offsets[i] in offsets;
  }

  lemma FlagTables(bufs: SimBuffers, ids: seq<Ptr>, offsets: seq<Ptr>, mru: seq<Ptr>, id: Ptr, inUse: bool,
                   madv: string)
    requires Listed(bufs, ids, offsets, mru) && Sorted(bufs, offsets) && id in bufs
    ensures var bufs' := bufs[id := bufs[id].(inUse := inUse, madv := madv)];
            Listed(bufs', ids, offsets, mru) && Sorted(bufs', offsets) && OutTotal(bufs', ids) == OutTotal(bufs, ids)
  {
    var bufs' := bufs[id := bufs[id].(inUse := inUse, madv := madv)];
    TotalFrame(bufs, bufs', ids);
    SortedFrame(bufs, bufs', offsets);
  }

  lemma CreatedTables(bufs: SimBuffers, ids: seq<Ptr>, offsets: seq<Ptr>, mru: seq<Ptr>, id: Ptr, buf: SimBuffer)
    requires Listed(bufs, ids, offsets, mru) && Sorted(bufs, offsets) && id !in bufs && buf.offset.None? && buf.size > 0
    ensures var bufs' := bufs[id := buf];
            && Listed(bufs', ids + [id], offsets, mru) && Sorted(bufs', offsets)
            && OutTotal(bufs', ids + [id]) == OutTotal(bufs, ids) + buf.size
  {
    hide OutTotal;
    var bufs' := bufs[id := buf];
    assert ids + [id] == InsertAt(ids, |ids|, id);
    InsertAtUnique(ids, |ids|, id);
    TotalFrame(bufs, bufs', ids);
    TotalAppend(bufs', ids, id);
    SortedFrame(bufs, bufs', offsets);
  }

  lemma SameLowerEnd(bufs: SimBuffers, bufs': SimBuffers, offsets: seq<Ptr>, x: Ptr)
    requires x in offsets && forall y :: Start(bufs', y) == Start(bufs, y) && End(bufs', y) == End(bufs, y)
    ensures LowerEnd(bufs', offsets, x) == LowerEnd(bufs, offsets, x)
  {
  }

  lemma FrontStays(mru: seq<Ptr>, id: Ptr)
    requires Unique(mru)
    ensures mru != [] && mru[0] == id ==> [id] + Without(mru, id) == mru
  {
  }

  lemma MovedToFront(mru: seq<Ptr>, id: Ptr)
    requires Unique(mru)
    ensures Unique([id] + Without(mru, id)) && forall x :: x in [id] + Without(mru, id) <==> x in mru || x == id
  {
    WithoutUnique(mru, id);
    InsertAtUnique(Without(mru, id), 0, id);
    assert InsertAt(Without(mru, id), 0, id) == [id] + Without(mru, id);
  }

  lemma DroppedIs(bufs: SimBuffers, bufs': SimBuffers, ids: seq<Ptr>, offsets: seq<Ptr>, offsets': seq<Ptr>,
                  mru: seq<Ptr>, mru': seq<Ptr>, buf: Ptr, gone: seq<Ptr>)
    requires Dropped(bufs, bufs', offsets, offsets', mru, mru', gone) && buf in bufs && bufs[buf].offset.None?
    ensures DroppedFrom(bufs, bufs', buf, gone) && mru' == Only(mru, Rest(mru, gone))
    ensures buf in bufs' && bufs'[buf] == bufs[buf]
  {
  }

  lemma PagedInNow(bufs: SimBuffers, bufs1: SimBuffers, bufs': SimBuffers, ids: seq<Ptr>, offsets: seq<Ptr>,
                   offsets1: seq<Ptr>, mru: seq<Ptr>, mru1: seq<Ptr>, mru': seq<Ptr>, buf: Ptr, gone: seq<Ptr>, at: nat,
                   size: nat)
    requires Listed(bufs, ids, offsets, mru) && Dropped(bufs, bufs1, offsets, offsets1, mru, mru1, gone)
    requires buf in bufs && buf in bufs1 && bufs1[buf] == bufs[buf] && bufs[buf].offset.None?
    requires bufs' == bufs1[buf := bufs1[buf].(offset := Some(at))] && mru' == [buf] + mru1
    requires RoomAt(bufs1, offsets1, [], at, size) && forall a: nat :: RoomAt(bufs1, offsets1, [], a, size) ==> at <= a
    requires forall x :: x in gone ==> x in Victims(bufs, mru)
    ensures bufs'[buf] == bufs[buf].(offset := Some(at)) && mru' == [buf] + Only(mru, Rest(mru, gone))
    ensures DroppedFrom(bufs, bufs', buf, gone)
    ensures RoomAt(bufs, offsets, gone, at, size) && forall a: nat :: RoomAt(bufs, offsets, gone, a, size) ==> at <= a
    ensures Room(bufs, offsets, Victims(bufs, mru), size)
  {
    hide Victims;
    forall a: nat ensures RoomAt(bufs1, offsets1, [], a, size) <==> RoomAt(bufs, offsets, gone, a, size) {
      RoomDropped(bufs, bufs1, offsets, offsets1, mru, mru1, gone, a, size);
    }
    RoomMore(bufs, offsets, gone, Victims(bufs, mru), size);
  }

  lemma RoomNow(bufs: SimBuffers, bufs1: SimBuffers, ids: seq<Ptr>, offsets: seq<Ptr>, offsets1: seq<Ptr>,
                mru: seq<Ptr>, mru1: seq<Ptr>, gone: seq<Ptr>, size: nat)
    requires Listed(bufs, ids, offsets, mru) && Dropped(bufs, bufs1, offsets, offsets1, mru, mru1, gone)
    ensures Room(bufs1, offsets1, [], size) <==> Room(bufs, offsets, gone, size)
  {
    forall a: nat ensures RoomAt(bufs1, offsets1, [], a, size) <==> RoomAt(bufs, offsets, gone, a, size) {
      RoomDropped(bufs, bufs1, offsets, offsets1, mru, mru1, gone, a, size);
    }
  }

  /** After the purge. */
  lemma PurgedNot(bufs: SimBuffers, bufs1: SimBuffers, ids: seq<Ptr>, offsets: seq<Ptr>, offsets1: seq<Ptr>,
                  mru: seq<Ptr>, mru1: seq<Ptr>, purged: seq<Ptr>, buf: Ptr)
    requires Listed(bufs, ids, offsets, mru) && Dropped(bufs, bufs1, offsets, offsets1, mru, mru1, purged)
    requires buf in bufs && bufs[buf].offset.None?
    requires forall x :: x in purged <==> x in offsets && x in PurgeableOnes(bufs)
    ensures buf in bufs1 && bufs1[buf] == bufs[buf]
    ensures Victims(bufs1, mru1) == Victims(bufs, Only(mru, Rest(mru, purged)))
  {
    OnlyElements(mru, Rest(mru, purged));
    LastFirstFrame(mru1, IdleOnes(bufs), IdleOnes(bufs1));
  }

  /** Purgeable buffers and a prefix of the remaining idle ones are idle; all of them are all idle ones. */
  lemma PrefixRoom(bufs: SimBuffers, ids: seq<Ptr>, offsets: seq<Ptr>, mru: seq<Ptr>, purged: seq<Ptr>, gone: seq<Ptr>,
                   size: nat)
    requires Listed(bufs, ids, offsets, mru) && gone <= Victims(bufs, Only(mru, Rest(mru, purged)))
    requires forall x :: x in purged <==> x in offsets && x in PurgeableOnes(bufs)
    ensures forall x :: x in purged + gone ==> x in Victims(bufs, mru)
    ensures gone == Victims(bufs, Only(mru, Rest(mru, purged))) && Room(bufs, offsets, Victims(bufs, mru), size) ==>
              Room(bufs, offsets, purged + gone, size)
  {
    var rest := Only(mru, Rest(mru, purged));
    var victims := Victims(bufs, rest);
    hide LastFirst, Only, Room;
    OnlyElements(mru, Rest(mru, purged));
    OnlyUnique(mru, Rest(mru, purged));
    LastFirstElements(mru, IdleOnes(bufs));
    LastFirstElements(rest, IdleOnes(bufs));
    assert forall i :: 0 <= i < |gone| ==> gone[i] == victims[i];
    assert forall x :: x in gone ==> x in victims;
    if gone == victims && Room(bufs, offsets, Victims(bufs, mru), size) {
      RoomMore(bufs, offsets, Victims(bufs, mru), purged + gone, size);
    }
  }

  lemma NoElements(s: seq<Ptr>)
    requires forall x :: x !in s
    ensures s == []
  {
    SomeElement(s);
  }

  lemma SomeElement(s: seq<Ptr>)
    ensures s != [] ==> exists x :: x in s
  {
    if s != [] { assert s[0] in s; }
  }

  /** What the run of pagings out means in terms of the flags. */
  lemma FlagsOut(bufs: SimBuffers, ids: seq<Ptr>, offsets: seq<Ptr>, mru: seq<Ptr>, purged: seq<Ptr>, gone: seq<Ptr>,
                 size: nat)
    requires Listed(bufs, ids, offsets, mru) && gone <= Victims(bufs, Only(mru, Rest(mru, purged)))
    requires forall x :: x in purged + gone ==> x in Victims(bufs, mru)
    ensures Room(bufs, offsets, Victims(bufs, mru), size) <==> exists a: nat :: BesideAt(bufs, offsets, a, size)
    ensures forall x :: x in purged + gone ==> x in bufs && !bufs[x].inUse && !bufs[x].unmoveable
    ensures LeastRecent(bufs, mru, purged, gone)
  {
    hide LastFirst, Only;
    LastFirstElements(mru, IdleOnes(bufs));
    assert forall a: nat :: RoomAt(bufs, offsets, Victims(bufs, mru), a, size) <==> BesideAt(bufs, offsets, a, size);
    LastFirstOnly(mru, Rest(mru, purged), IdleOnes(bufs));
    PrefixLast(mru, Rest(mru, purged) * IdleOnes(bufs), gone);
  }

  lemma PagingDone(bufs: SimBuffers, bufs': SimBuffers, ids: seq<Ptr>, offsets: seq<Ptr>, mru: seq<Ptr>, mru': seq<Ptr>,
                   buf: Ptr, purged: seq<Ptr>, gone: seq<Ptr>, at: nat, done: bool)
    requires Listed(bufs, ids, offsets, mru) && gone <= Victims(bufs, Only(mru, Rest(mru, purged))) && buf in bufs
    requires var size := bufs[buf].size;
             && (done <==> Room(bufs, offsets, Victims(bufs, mru), size))
             && (Room(bufs, offsets, [], size) ==> purged == [] && gone == [])
             && (forall j :: 0 <= j < |gone| ==> !Room(bufs, offsets, purged + gone[..j], size))
             && (done ==> RoomAt(bufs, offsets, purged + gone, at, size))
             && (done ==> forall a: nat :: RoomAt(bufs, offsets, purged + gone, a, size) ==> at <= a)
    requires purged == [] || forall x :: x in purged <==> x in offsets && x in PurgeableOnes(bufs)
    requires || Room(bufs, offsets, [], bufs[buf].size)
             || forall x :: x in offsets && x in PurgeableOnes(bufs) ==> x in purged
    requires forall x :: x in purged + gone ==> x in Victims(bufs, mru)
    requires DroppedFrom(bufs, bufs', buf, purged + gone) && buf in bufs'
    requires bufs'[buf] == if done then bufs[buf].(offset := Some(at)) else bufs[buf]
    requires mru' == (if done then [buf] else []) + Only(mru, Rest(mru, purged + gone))
    requires done || gone == Victims(bufs, Only(mru, Rest(mru, purged)))
    ensures Paging(bufs, bufs', offsets, mru, mru', buf, purged, gone, at, done)
    ensures Unmoved(bufs, bufs', buf)
    ensures (forall x :: x in bufs ==> bufs[x].madv != "dontneed") ==> purged == []
  {
    hide Victims, Only, Room, RoomAt, BesideAt, LeastRecent, Listed;
    FlagsOut(bufs, ids, offsets, mru, purged, gone, bufs[buf].size);
    PagingKeeps(bufs, bufs', offsets, mru, mru', buf, purged, gone, at, done);
    if forall x :: x in bufs ==> bufs[x].madv != "dontneed" {
      NothingPurged(bufs, bufs', offsets, mru, mru', buf, purged, gone, at, done);
    }
  }

  lemma DropVictim(bufs: SimBuffers, bufs1: SimBuffers, bufs': SimBuffers, ids: seq<Ptr>, offsets: seq<Ptr>,
                   offsets1: seq<Ptr>, mru: seq<Ptr>, mru1: seq<Ptr>, buf: Ptr, purged: seq<Ptr>, gone: seq<Ptr>,
                   victims: seq<Ptr>, size: nat)
    requires Listed(bufs, ids, offsets, mru) && Dropped(bufs, bufs1, offsets, offsets1, mru, mru1, purged + gone)
    requires Listed(bufs1, ids, offsets1, mru1)
    requires gone <= victims && Victims(bufs1, mru1) == victims[|gone|..] != []
    requires var v := victims[|gone|]; v in bufs1 && v in offsets1 && bufs' == bufs1[v := bufs1[v].(offset := None)]
    requires buf in bufs1 && bufs1[buf].offset.None? && !Room(bufs, offsets, purged + gone, size)
    requires forall j :: 0 <= j < |gone| ==> !Room(bufs, offsets, purged + gone[..j], size)
    ensures var v := victims[|gone|]; var gone' := gone + [v];
            && gone' <= victims && v != buf
            && Dropped(bufs, bufs', offsets, Without(offsets1, v), mru, Without(mru1, v), purged + gone')
            && Victims(bufs', Without(mru1, v)) == victims[|gone'|..]
            && forall j :: 0 <= j < |gone'| ==> !Room(bufs, offsets, purged + gone'[..j], size)
  {
    hide Dropped, Room, Victims, Only, Without;
    var v := victims[|gone|];
    var gone' := gone + [v];
    DroppedOne(bufs, bufs1, offsets, offsets1, mru, mru1, purged + gone, v);
    assert purged + gone + [v] == purged + gone';
    NextVictim(bufs1, bufs', mru1, v, victims[|gone|..]);
    assert victims[|gone|..][1..] == victims[|gone'|..];
    forall j | 0 <= j < |gone'| ensures !Room(bufs, offsets, purged + gone'[..j], size) {
      assert gone'[..j] == gone[..j];
      assert j == |gone| ==> gone[..j] == gone;
    }
  }

  lemma NextVictim(bufs: SimBuffers, bufs': SimBuffers, mru: seq<Ptr>, v: Ptr, victims: seq<Ptr>)
    requires Unique(mru) && victims == Victims(bufs, mru) && victims != [] && victims[0] == v && v in bufs
    requires bufs' == bufs[v := bufs[v].(offset := None)] && forall x :: x in mru ==> x in bufs
    ensures Victims(bufs', Without(mru, v)) == victims[1..]
  {
    hide LastFirst;
    LastFirstWithout(mru, IdleOnes(bufs), v);
    WithoutUnique(mru, v);
    LastFirstFrame(Without(mru, v), IdleOnes(bufs), IdleOnes(bufs'));
  }

  lemma RemovedTables(bufs: SimBuffers, ids: seq<Ptr>, offsets: seq<Ptr>, mru: seq<Ptr>, buf: Ptr)
    requires Listed(bufs, ids, offsets, mru) && Sorted(bufs, offsets) && buf in offsets
    ensures var bufs' := bufs[buf := bufs[buf].(offset := None)];
            && Listed(bufs', ids, Without(offsets, buf), Without(mru, buf)) && Sorted(bufs', Without(offsets, buf))
            && OutTotal(bufs', ids) == OutTotal(bufs, ids) + bufs[buf].size
  {
    var bufs' := bufs[buf := bufs[buf].(offset := None)];
    TotalChange(bufs, bufs', ids, buf);
    WithoutUnique(offsets, buf);
    WithoutUnique(mru, buf);
    RemovedSorted(bufs, bufs', offsets, IndexOf(offsets, buf));
  }

  lemma RemovedSorted(bufs: SimBuffers, bufs': SimBuffers, offsets: seq<Ptr>, i: nat)
    requires Sorted(bufs, offsets) && Unique(offsets) && i < |offsets| && offsets[i] in bufs
    requires forall x :: x in bufs && x != offsets[i] ==> x in bufs' && bufs'[x] == bufs[x]
    requires forall x :: x in offsets ==> x in bufs
    ensures Sorted(bufs', Without(offsets, offsets[i]))
  {
    hide Unique, Without, Sorted;
    WithoutAt(offsets, i);
    WithoutUnique(offsets, offsets[i]);
    RemainsSorted(bufs, offsets, i);
    SortedFrame(bufs, bufs', Without(offsets, offsets[i]));
  }

  lemma RemainsSorted(bufs: SimBuffers, offsets: seq<Ptr>, i: nat)
    requires Sorted(bufs, offsets) && i < |offsets|
    ensures Sorted(bufs, offsets[..i] + offsets[i + 1..])
  {
    hide Start, End;
    var r := offsets[..i] + offsets[i + 1..];
    assert forall k :: 0 <= k < |r| ==> r[k] == offsets[if k < i then k else k + 1];
  }

  lemma InsertedTables(bufs: SimBuffers, ids: seq<Ptr>, offsets: seq<Ptr>, mru: seq<Ptr>, buf: Ptr, offset: nat,
                       pos: nat)
    requires Listed(bufs, ids, offsets, mru) && Sorted(bufs, offsets) && buf in bufs && bufs[buf].offset.None?
    requires pos <= |offsets|
    requires forall i :: 0 <= i < pos ==> End(bufs, offsets[i]) <= offset
    requires forall i :: pos <= i < |offsets| ==> offset + bufs[buf].size <= Start(bufs, offsets[i])
    requires offset + bufs[buf].size <= SIZE
    ensures var bufs' := bufs[buf := bufs[buf].(offset := Some(offset))];
            && Listed(bufs', ids, InsertAt(offsets, pos, buf), [buf] + mru)
            && Sorted(bufs', InsertAt(offsets, pos, buf))
            && OutTotal(bufs', ids) + bufs[buf].size == OutTotal(bufs, ids)
  {
    var bufs' := bufs[buf := bufs[buf].(offset := Some(offset))];
    TotalChange(bufs, bufs', ids, buf);
    InsertAtUnique(offsets, pos, buf);
    InsertAtUnique(mru, 0, buf);
    assert InsertAt(mru, 0, buf) == [buf] + mru;
    InsertedSorted(bufs, bufs', offsets, buf, offset, pos);
  }

  lemma InsertedSorted(bufs: SimBuffers, bufs': SimBuffers, offsets: seq<Ptr>, buf: Ptr, offset: nat, pos: nat)
    requires Sorted(bufs, offsets) && buf in bufs && buf !in offsets && pos <= |offsets|
    requires bufs' == bufs[buf := bufs[buf].(offset := Some(offset))]
    requires forall i :: 0 <= i < pos ==> End(bufs, offsets[i]) <= offset
    requires forall i :: pos <= i < |offsets| ==> offset + bufs[buf].size <= Start(bufs, offsets[i])
    requires offset + bufs[buf].size <= SIZE
    ensures Sorted(bufs', InsertAt(offsets, pos, buf))
  {
    var r := InsertAt(offsets, pos, buf);
    forall i | 0 <= i < |offsets|
      ensures Start(bufs', offsets[i]) == Start(bufs, offsets[i]) && End(bufs', offsets[i]) == End(bufs, offsets[i])
    {
      assert offsets[i] != buf;
    }
    assert forall i :: 0 <= i < |r| ==>
        r[i] == if i < pos then offsets[i] else if i == pos then buf else offsets[i - 1];
  }

  /** With a gap nothing is dropped, and the buffer takes the lowest address with room. */
  lemma GapTaken(bufs: SimBuffers, bufs': SimBuffers, offsets: seq<Ptr>, mru: seq<Ptr>, mru': seq<Ptr>, buf: Ptr,
                 purged: seq<Ptr>, gone: seq<Ptr>, at: nat, done: bool, a: nat)
    requires buf in bufs && Paging(bufs, bufs', offsets, mru, mru', buf, purged, gone, at, done)
    requires RoomAt(bufs, offsets, [], a, bufs[buf].size)
    ensures done && at <= a && RoomAt(bufs, offsets, [], at, bufs[buf].size)
    ensures bufs' == bufs[buf := bufs[buf].(offset := Some(at))]
  {
    hide Victims, Only, LeastRecent;
    assert Room(bufs, offsets, [], bufs[buf].size) && BesideAt(bufs, offsets, a, bufs[buf].size);
    assert purged + gone == [];
  }

  /** A pool with a single buffer lists just that. */
  lemma SingleOffset(pool: SimPool, id: Ptr)
    requires pool.Valid() && pool.buffers.Keys == {id} && pool.buffers[id].offset.Some?
    ensures pool.offsets == [id] && LowerEnd(pool.buffers, pool.offsets, id) == 0
  {
    hide Sorted, OutTotal;
    assert id in pool.offsets;
    if |pool.offsets| > 1 {
      UniqueFirst(pool.offsets);
    }
  }

  lemma UniqueFirst(s: seq<Ptr>)
    requires Unique(s)
    ensures |s| > 1 ==> s[0] in s && s[1] in s && s[0] != s[1]
  {
  }

  const FIRST := SimBuffer(4096, false, None, false, "willneed")
  const SECOND := SimBuffer(4096, true, None, false, "willneed")

  /** The two buffers of the log below. */
  method TwoBuffers() returns (pool: SimPool)
    ensures fresh(pool) && pool.Valid() && pool.compact
    ensures pool.buffers == map[1 := FIRST.(offset := Some(0)), 2 := SECOND.(offset := Some(4096))]
  {
    hide Sorted, OutTotal, Paging, Room;
    pool := new SimPool(true);
    var outcome;
    ghost var purged, gone, at;
    ghost var offs, mru := pool.offsets, pool.mru;
    outcome, purged, gone, at := pool.Create(1, 4096, false);
    GapTaken(map[1 := FIRST], pool.buffers, offs, mru, pool.mru, 1, purged, gone, at, outcome.Done?, 0);
    SingleOffset(pool, 1);
    offs, mru := pool.offsets, pool.mru;
    ghost var bufs := pool.buffers[2 := SECOND];
    assert RoomAt(bufs, offs, [], 4096, 4096);
    outcome, purged, gone, at := pool.Create(2, 4096, true);
    GapTaken(bufs, pool.buffers, offs, mru, pool.mru, 2, purged, gone, at, outcome.Done?, 4096);
    assert 1 in offs;
  }

  /** A log that moves an unmoveable buffer: it is placed behind another one, which is then destroyed, and compacted. */
  method UnmoveableMoves() returns (pool: SimPool, before: Option<nat>, after: Option<nat>)
    ensures 2 in pool.buffers && pool.buffers[2].unmoveable && pool.buffers[2].offset == after
    ensures before == Some(4096) && after == Some(0)
  {
    hide Sorted, OutTotal, Listed, LowerEnd;
    pool := TwoBuffers();
    before := pool.buffers[2].offset;
    var outcome := pool.Destroy(1);
    outcome := pool.AddUsecnt(2);
    SingleOffset(pool, 2);
    outcome := pool.RemoveUsecnt(2);
    after := pool.buffers[2].offset;
  }
}
