/** The circular doubly linked lists of linux/list.h. */
module LinkedLists {
  import opened Sequences
  import opened RbShape

  /** The next and prev pointers of every struct list_head in reach. Entries that are not on a list keep stale ones. */
  datatype ListMem = ListMem(next: map<Ptr, Ptr>, prev: map<Ptr, Ptr>)

  ghost function Succ(s: seq<Ptr>, i: nat): Ptr
    requires i < |s|
  {
    if i + 1 < |s| then s[i + 1] else s[0]
  }

  ghost function Pred(s: seq<Ptr>, i: nat): Ptr
    requires i < |s|
  {
    if i > 0 then s[i - 1] else s[|s| - 1]
  }

  /** The entry at index `i` points to its neighbours. */
  ghost predicate LinkAt(m: ListMem, s: seq<Ptr>, i: nat)
    requires i < |s|
  {
    && s[i] in m.next && m.next[s[i]] == Succ(s, i)
    && s[i] in m.prev && m.prev[s[i]] == Pred(s, i)
  }

  /** The entries of `s`, the first being the list head, form a ring. */
  ghost predicate Linked(m: ListMem, s: seq<Ptr>) {
    s != [] && Unique(s) && forall i :: 0 <= i < |s| ==> LinkAt(m, s, i)
  }

  /** __list_del_entry: the neighbours are joined, the entry keeps its own links. */
  function Unlink(m: ListMem, e: Ptr): ListMem
    requires e in m.next && e in m.prev
  {
    ListMem(m.next[m.prev[e] := m.next[e]], m.prev[m.next[e] := m.prev[e]])
  }

  /** LIST_POISON1 and LIST_POISON2 of linux/poison.h. */
  const LIST_POISON1: Ptr := 0x100
  const LIST_POISON2: Ptr := 0x122

  /** The two stores with which list_del marks a removed entry. */
  function Poison(m: ListMem, e: Ptr): ListMem {
    ListMem(m.next[e := LIST_POISON1], m.prev[e := LIST_POISON2])
  }

  lemma PoisonLinked(m: ListMem, s: seq<Ptr>, e: Ptr)
    requires Linked(m, s) && e !in s
    ensures Linked(Poison(m, e), s)
  {
    forall i | 0 <= i < |s| ensures LinkAt(Poison(m, e), s, i) {
      assert LinkAt(m, s, i) && s[i] in s;
    }
  }

  lemma ElementsLeft(s: seq<Ptr>, e: Ptr)
    requires Unique(s)
    ensures e !in Without(s, e)
  {
    WithoutUnique(s, e);
  }

  /** list_add(entry, after). */
  function AddAfter(m: ListMem, e: Ptr, after: Ptr): ListMem
    requires after in m.next
  {
    var n := m.next[after];
    ListMem(m.next[e := n][after := e], m.prev[n := e][e := after])
  }

  lemma UnlinkLinked(m: ListMem, s: seq<Ptr>, i: nat)
    requires Linked(m, s) && 0 < i < |s| && LinkAt(m, s, i)
    ensures Linked(Unlink(m, s[i]), s[..i] + s[i + 1..])
    ensures Without(s, s[i]) == s[..i] + s[i + 1..]
  {
    hide Without;
    var m', s' := Unlink(m, s[i]), s[..i] + s[i + 1..];
    WithoutAt(s, i);
    WithoutUnique(s, s[i]);
    assert LinkAt(m, s, i);
    forall j | 0 <= j < |s'| ensures LinkAt(m', s', j) {
      var k := if j < i then j else j + 1;
      assert s'[j] == s[k] && LinkAt(m, s, k);
      assert s[k] == Pred(s, i) <==> k == i - 1;
      assert s[k] == Succ(s, i) <==> k == if i + 1 < |s| then i + 1 else 0;
    }
  }

  lemma AddLinked(m: ListMem, s: seq<Ptr>, i: nat, e: Ptr)
    requires Linked(m, s) && i < |s| && e !in s && LinkAt(m, s, i)
    ensures Linked(AddAfter(m, e, s[i]), InsertAt(s, i + 1, e))
  {
    var m', s' := AddAfter(m, e, s[i]), InsertAt(s, i + 1, e);
    InsertAtUnique(s, i + 1, e);
    assert LinkAt(m, s, i);
    forall j | 0 <= j < |s'| ensures LinkAt(m', s', j) {
      if j != i + 1 {
        var k := if j <= i then j else j - 1;
        assert s'[j] == s[k] && LinkAt(m, s, k);
        assert s[k] == Succ(s, i) <==> k == if i + 1 < |s| then i + 1 else 0;
      }
    }
  }

  /** Removing an entry and adding it back behind the neighbour it still points to restores every link, provided the
      neighbours still agree about each other. */
  lemma RelinkExact(m: ListMem, s: seq<Ptr>, i: nat)
    requires Linked(m, s) && 0 < i < |s| && LinkAt(m, s, i)
    ensures var m' := Unlink(m, s[i]);
            && s[i] in m'.prev && m'.prev[s[i]] in m'.next && s[i] in m'.next
            && m'.next[m'.prev[s[i]]] == m'.next[s[i]]
            && AddAfter(m', s[i], m'.prev[s[i]]) == m
  {
    var e := s[i];
    var m' := Unlink(m, e);
    var j := if i + 1 < |s| then i + 1 else 0;
    assert LinkAt(m, s, i) && LinkAt(m, s, i - 1) && LinkAt(m, s, j);
    assert m'.prev[e] == s[i - 1] && m'.next[e] == Succ(s, i);
    var m2 := AddAfter(m', e, s[i - 1]);
    assert m2.next == m.next && m2.prev == m.prev;
  }

  // ----- last-in first-out unlinking

  /** The entries of `es` unlinked one after the other. */
  ghost function UnlinkAll(m: ListMem, es: seq<Ptr>): ListMem
    decreases |es|
  {
    if es == [] then m else
    var m' := UnlinkAll(m, es[..|es| - 1]);
    var e := es[|es| - 1];
    if e in m'.next && e in m'.prev then Unlink(m', e) else m'
  }

  /** What stays of `s`. */
  ghost function WithoutAll(s: seq<Ptr>, es: seq<Ptr>): seq<Ptr>
    decreases |es|
  {
    if es == [] then s else Without(WithoutAll(s, es[..|es| - 1]), es[|es| - 1])
  }

  lemma {:induction false} WithoutAllElements(s: seq<Ptr>, es: seq<Ptr>)
    requires Unique(s)
    ensures Unique(WithoutAll(s, es))
    ensures forall x :: x in WithoutAll(s, es) <==> x in s && x !in es
    decreases |es|
  {
    if es != [] {
      var es', e := es[..|es| - 1], es[|es| - 1];
      WithoutAllElements(s, es');
      WithoutUnique(WithoutAll(s, es'), e);
      assert es == es' + [e];
    }
  }

  /** `es` names distinct entries of the list, the head excepted. */
  ghost predicate Removable(s: seq<Ptr>, es: seq<Ptr>) {
    s != [] && Unique(es) && forall e :: e in es ==> e in s && e != s[0]
  }

  lemma {:induction false} UnlinkAllLinked(m: ListMem, s: seq<Ptr>, es: seq<Ptr>)
    requires Linked(m, s) && Removable(s, es)
    ensures Linked(UnlinkAll(m, es), WithoutAll(s, es)) && WithoutAll(s, es)[0] == s[0]
    decreases |es|
  {
    if es != [] {
      var es', e := es[..|es| - 1], es[|es| - 1];
      assert Removable(s, es') && e in es && e !in es';
      UnlinkAllLinked(m, s, es');
      var r := WithoutAll(s, es');
      WithoutAllElements(s, es');
      var i := IndexOf(r, e);
      assert LinkAt(UnlinkAll(m, es'), r, i);
      UnlinkLinked(UnlinkAll(m, es'), r, i);
    }
  }

  /** The entries of `es` added back in reverse order, each behind the neighbour it still points to. */
  ghost function RelinkAll(m: ListMem, es: seq<Ptr>): ListMem
    decreases |es|
  {
    if es == [] then m else
    var e := es[|es| - 1];
    var m' := if e in m.prev && m.prev[e] in m.next then AddAfter(m, e, m.prev[e]) else m;
    RelinkAll(m', es[..|es| - 1])
  }

  /** One step back: the order check of the eviction scan holds, and the previous memory returns. */
  lemma RelinkLast(m: ListMem, s: seq<Ptr>, es: seq<Ptr>)
    requires Linked(m, s) && Removable(s, es) && es != []
    ensures var m', e := UnlinkAll(m, es), es[|es| - 1];
            && e in m'.prev && e in m'.next && m'.prev[e] in m'.next
            && m'.next[m'.prev[e]] == m'.next[e]
            && m'.prev[e] in WithoutAll(s, es)
            && AddAfter(m', e, m'.prev[e]) == UnlinkAll(m, es[..|es| - 1])
  {
    var es', e := es[..|es| - 1], es[|es| - 1];
    assert Removable(s, es') && e in es && e !in es';
    UnlinkAllLinked(m, s, es');
    var r := WithoutAll(s, es');
    WithoutAllElements(s, es');
    var i := IndexOf(r, e);
    assert LinkAt(UnlinkAll(m, es'), r, i);
    RelinkExact(UnlinkAll(m, es'), r, i);
    WithoutUnique(r, e);
  }

  /** Unlinking distinct entries in any order and relinking them in exactly the reverse order restores every next and
      prev pointer. */
  lemma {:induction false} RelinkAllRestores(m: ListMem, s: seq<Ptr>, es: seq<Ptr>)
    requires Linked(m, s) && Removable(s, es)
    ensures RelinkAll(UnlinkAll(m, es), es) == m
    decreases |es|
  {
    if es != [] {
      var es' := es[..|es| - 1];
      RelinkLast(m, s, es);
      assert Removable(s, es');
      RelinkAllRestores(m, s, es');
    }
  }

  // ----- list_replace

  function ReplaceEntry(m: ListMem, old': Ptr, new': Ptr): ListMem
    requires old' in m.next && old' in m.prev
  {
    var n, p := m.next[old'], m.prev[old'];
    ListMem(m.next[new' := n][p := new'], m.prev[n := new'][new' := p])
  }

  lemma ReplaceLinked(m: ListMem, s: seq<Ptr>, i: nat, new': Ptr)
    requires Linked(m, s) && 0 < i < |s| && new' !in s && LinkAt(m, s, i)
    ensures Linked(ReplaceEntry(m, s[i], new'), Rename(s, s[i], new'))
  {
    var m', s' := ReplaceEntry(m, s[i], new'), Rename(s, s[i], new');
    assert LinkAt(m, s, i);
    forall j | 0 <= j < |s'| ensures LinkAt(m', s', j) {
      assert LinkAt(m, s, j);
      assert s[j] == s[i] <==> j == i;
      assert s[j] == Pred(s, i) <==> j == i - 1;
      assert s[j] == Succ(s, i) <==> j == if i + 1 < |s| then i + 1 else 0;
    }
  }

  class LinkedList {
    const head: Ptr
    var mem: ListMem
    ghost var chain: seq<Ptr>

    ghost predicate Valid()
      reads this
    {
      Linked(mem, chain) && chain[0] == head
    }

    /** The entries, without the head. */
    ghost function Items(): seq<Ptr>
      requires Valid()
      reads this
    {
      chain[1..]
    }

    /** INIT_LIST_HEAD. */
    constructor (head: Ptr)
      ensures Valid() && this.head == head && chain == [head]
    {
      this.head := head;
      mem := ListMem(map[head := head], map[head := head]);
      chain := [head];
    }

    /** list_add. */
    method Add(entry: Ptr, after: Ptr)
      requires Valid() && after in chain && entry !in chain
      modifies this
      ensures Valid() && chain == InsertAt(old(chain), IndexOf(old(chain), after) + 1, entry)
      ensures after in old(mem.next) && mem == AddAfter(old(mem), entry, after)
    {
      assert LinkAt(mem, chain, IndexOf(chain, after));
      AddLinked(mem, chain, IndexOf(chain, after), entry);
      mem := AddAfter(mem, entry, after);
      chain := InsertAt(chain, IndexOf(chain, after) + 1, entry);
    }

    /** __list_del_entry: the entry keeps its own links. */
    method DelEntry(entry: Ptr)
      requires Valid() && entry in chain && entry != head
      modifies this
      ensures Valid() && chain == Without(old(chain), entry)
      ensures entry in old(mem.next) && entry in old(mem.prev) && mem == Unlink(old(mem), entry)
      ensures entry in mem.next && mem.next[entry] == old(mem.next[entry])
      ensures entry in mem.prev && mem.prev[entry] == old(mem.prev[entry])
    {
      ghost var i :| 0 <= i < |chain| && chain[i] == entry;
      assert LinkAt(mem, chain, i);
      UnlinkLinked(mem, chain, i);
      mem := Unlink(mem, entry);
      chain := Without(chain, entry);
    }

    /** list_del: the links of the entry are poisoned. */
    method Del(entry: Ptr)
      requires Valid() && entry in chain && entry != head
      modifies this
      ensures Valid() && chain == Without(old(chain), entry)
      ensures entry in old(mem.next) && entry in old(mem.prev) && mem == Poison(Unlink(old(mem), entry), entry)
      ensures entry in mem.next && mem.next[entry] == 0x100 && entry in mem.prev && mem.prev[entry] == 0x122
    {
      ElementsLeft(chain, entry);
      DelEntry(entry);
      PoisonLinked(mem, chain, entry);
      mem := Poison(mem, entry);
    }

    /** list_replace. */
    method Replace(old': Ptr, new': Ptr)
      requires Valid() && old' in chain && old' != head && new' !in chain
      modifies this
      ensures Valid() && chain == Rename(old(chain), old', new')
    {
      ghost var i :| 0 <= i < |chain| && chain[i] == old';
      assert LinkAt(mem, chain, i);
      ReplaceLinked(mem, chain, i, new');
      mem := ReplaceEntry(mem, old', new');
      chain := Rename(chain, old', new');
    }

    /** The next pointer of an entry or of the head. */
    function Next(entry: Ptr): (n: Ptr)
      requires Valid() && entry in chain
      reads this
      ensures n == Succ(chain, IndexOf(chain, entry))
    {
      ghost var i := IndexOf(chain, entry);
      assert LinkAt(mem, chain, i);
      mem.next[entry]
    }

    /** The prev pointer. */
    function Prev(entry: Ptr): (p: Ptr)
      requires Valid() && entry in chain
      reads this
      ensures p == Pred(chain, IndexOf(chain, entry))
    {
      ghost var i := IndexOf(chain, entry);
      assert LinkAt(mem, chain, i);
      mem.prev[entry]
    }
  }
}
