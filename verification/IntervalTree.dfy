/** The interval search of linux/interval_tree_generic.h. Every node of an augmented red-black tree stands for the
    closed interval from its key to its value; the stored maxima prune the search. */
module IntervalTrees {
  import opened Sequences
  import opened RbShape
  import opened RbErasure
  import opened RbTrees

  ghost predicate Intersects(key: Keys<Ptr>, value: Values, x: Ptr, start: nat, last: nat) {
    KeyOf(key, x) <= last && start <= Val(value, x)
  }

  /** The linear scan: the first node of `s` whose interval meets `[start, last]`. */
  ghost function FirstMatch(s: seq<Ptr>, key: Keys<Ptr>, value: Values, start: nat, last: nat): (r: Ptr)
    requires NULL !in s
    ensures r == NULL ==> forall x :: x in s ==> !Intersects(key, value, x, start, last)
    ensures r != NULL ==> r in s && Intersects(key, value, r, start, last)
  {
    if s == [] then NULL
    else if Intersects(key, value, s[0], start, last) then s[0]
    else
      assert s == [s[0]] + s[1..];
      FirstMatch(s[1..], key, value, start, last)
  }

  /** All nodes of `s` whose intervals meet `[start, last]`, in order. */
  ghost function Matches(s: seq<Ptr>, key: Keys<Ptr>, value: Values, start: nat, last: nat): seq<Ptr> {
    if s == [] then []
    else (if Intersects(key, value, s[0], start, last) then [s[0]] else []) + Matches(s[1..], key, value, start, last)
  }

  /** Repeating the search behind the last hit, as the first/next pair of functions does, lists every intersecting node
      exactly once and in order. */
  lemma {:induction false} MatchesByIteration(s: seq<Ptr>, key: Keys<Ptr>, value: Values, start: nat, last: nat)
    requires NULL !in s
    ensures var x := FirstMatch(s, key, value, start, last);
            Matches(s, key, value, start, last)
            == if x == NULL then [] else [x] + Matches(s[IndexOf(s, x) + 1..], key, value, start, last)
    decreases |s|
  {
    if s != [] && !Intersects(key, value, s[0], start, last) {
      assert s == [s[0]] + s[1..];
      MatchesByIteration(s[1..], key, value, start, last);
      var x := FirstMatch(s, key, value, start, last);
      if x != NULL {
        assert x in s[1..] && s[0] != x;
        assert IndexOf(s, x) == 1 + IndexOf(s[1..], x);
        assert s[IndexOf(s, x) + 1..] == s[1..][IndexOf(s[1..], x) + 1..];
      }
    }
  }

  lemma {:induction false} FirstIsFirst(s: seq<Ptr>, key: Keys<Ptr>, value: Values, start: nat, last: nat)
    requires NULL !in s
    ensures var r := FirstMatch(s, key, value, start, last);
            r != NULL ==> forall j :: 0 <= j < IndexOf(s, r) ==> !Intersects(key, value, s[j], start, last)
  {
    if s != [] && !Intersects(key, value, s[0], start, last) {
      FirstIsFirst(s[1..], key, value, start, last);
    }
  }

  lemma {:induction false} FirstMatchConcat(a: seq<Ptr>, b: seq<Ptr>, key: Keys<Ptr>, value: Values, start: nat,
                                            last: nat)
    requires NULL !in a && NULL !in b
    ensures NULL !in a + b
    ensures var x := FirstMatch(a, key, value, start, last);
            FirstMatch(a + b, key, value, start, last)
            == if x != NULL then x else FirstMatch(b, key, value, start, last)
    decreases |a|
  {
    if a == [] {
      assert a + b == b;
    } else {
      assert (a + b)[1..] == a[1..] + b;
      FirstMatchConcat(a[1..], b, key, value, start, last);
    }
  }

  /** Behind a node that starts after `last`, no interval matches. */
  lemma NoMatchBeyond(s: seq<Ptr>, i: nat, key: Keys<Ptr>, value: Values, start: nat, last: nat)
    requires SortedBy(s, key) && NULL !in s && i < |s| && KeyOf(key, s[i]) > last
    ensures FirstMatch(s[i..], key, value, start, last) == NULL
  {
  }

  /** Without a large enough maximum, no node of a subtree matches. */
  lemma NoMatchBelow(t: Tree, key: Keys<Ptr>, value: Values, start: nat, last: nat)
    requires NULL !in t.InOrder() && MaxValue(value, t) < start
    ensures FirstMatch(t.InOrder(), key, value, start, last) == NULL
  {
    MaxValueIsMaximum(value, t);
  }

  /** If some node reaches `start` but none before and including it matches, it starts after `last`; so whatever comes
      later in order does not match either. */
  lemma PrunedRest(a: seq<Ptr>, n: Ptr, rest: seq<Ptr>, key: Keys<Ptr>, value: Values, start: nat, last: nat)
    requires SortedBy(a + rest, key) && NULL !in a && NULL !in rest
    requires n in a && start <= Val(value, n)
    requires FirstMatch(a, key, value, start, last) == NULL
    ensures FirstMatch(rest, key, value, start, last) == NULL
  {
    var s := a + rest;
    var i :| 0 <= i < |a| && a[i] == n;
    assert s[i] == n && KeyOf(key, n) > last;
    forall x | x in rest ensures !Intersects(key, value, x, start, last) {
      var j :| 0 <= j < |rest| && rest[j] == x;
      assert s[|a| + j] == x;
    }
  }

  /** The scan of `a + rest`, where a subtree with the nodes `a` is searched first if its maximum reaches `start`. */
  lemma PrunedScan(t: Tree, a: seq<Ptr>, rest: seq<Ptr>, key: Keys<Ptr>, value: Values, start: nat, last: nat)
    requires a == t.InOrder() && SortedBy(a + rest, key) && NULL !in a + rest
    ensures NULL !in a && NULL !in rest && SortedBy(a, key) && SortedBy(rest, key)
    ensures FirstMatch(a + rest, key, value, start, last)
         == if t.Node? && start <= MaxValue(value, t) then FirstMatch(a, key, value, start, last)
            else FirstMatch(rest, key, value, start, last)
  {
    SortedParts(a, rest, key);
    forall x | x in a || x in rest ensures x in a + rest {}
    FirstMatchConcat(a, rest, key, value, start, last);
    if t.Node? && start <= MaxValue(value, t) {
      if FirstMatch(a, key, value, start, last) == NULL {
        MaxValueIsMaximum(value, t);
        var n :| n in a && Val(value, n) == MaxValue(value, t);
        PrunedRest(a, n, rest, key, value, start, last);
      }
    } else if t.Node? {
      NoMatchBelow(t, key, value, start, last);
    }
  }

  lemma SortedParts(a: seq<Ptr>, b: seq<Ptr>, key: Keys<Ptr>)
    requires SortedBy(a + b, key)
    ensures SortedBy(a, key) && SortedBy(b, key)
  {
    var s := a + b;
    assert forall i :: 0 <= i < |a| ==> s[i] == a[i];
    assert forall j :: 0 <= j < |b| ==> s[|a| + j] == b[j];
  }

  /** The choice at one node of the search. */
  lemma SearchStep(t: Tree, key: Keys<Ptr>, value: Values, start: nat, last: nat)
    requires t.Node? && NULL !in t.InOrder() && SortedBy(t.InOrder(), key)
    ensures NULL !in t.left.InOrder() && NULL !in t.right.InOrder()
    ensures SortedBy(t.left.InOrder(), key) && SortedBy(t.right.InOrder(), key)
    ensures var m, l, r := FirstMatch(t.InOrder(), key, value, start, last),
                           FirstMatch(t.left.InOrder(), key, value, start, last),
                           FirstMatch(t.right.InOrder(), key, value, start, last);
            if t.left.Node? && start <= MaxValue(value, t.left) then m == l
            else if Intersects(key, value, t.id, start, last) then m == t.id
            else if KeyOf(key, t.id) > last then m == NULL
            else m == r
  {
    var l, r := t.left.InOrder(), t.right.InOrder();
    assert t.InOrder() == l + ([t.id] + r);
    PrunedScan(t.left, l, [t.id] + r, key, value, start, last);
    AfterStep([t.id] + r, t.id, r, key, value, start, last);
    SortedParts([t.id], r, key);
  }

  /** _subtree_search. */
  method SubtreeSearch(tree: RbTree, start0: Ptr, start: nat, last: nat, ghost c0: Ctx, ghost t0: Tree) returns (r: Ptr)
    requires Zip(tree.mem, tree.root, c0, t0) && t0.Node? && t0.id == start0 && NULL !in t0.InOrder()
    requires Augmented(tree.value, tree.aug, t0) && SortedBy(t0.InOrder(), tree.key)
    requires start <= MaxValue(tree.value, t0)
    ensures r == FirstMatch(t0.InOrder(), tree.key, tree.value, start, last)
  {
    var node := start0;
    ghost var c, t := c0, t0;
    while true
      invariant Zip(tree.mem, tree.root, c, t) && t.Node? && t.id == node && NULL !in t.InOrder()
      invariant Augmented(tree.value, tree.aug, t) && SortedBy(t.InOrder(), tree.key)
      invariant start <= MaxValue(tree.value, t)
      invariant FirstMatch(t.InOrder(), tree.key, tree.value, start, last)
             == FirstMatch(t0.InOrder(), tree.key, tree.value, start, last)
      decreases t
    {
      ChildCells(tree.mem, tree.root, c, t);
      SearchStep(t, tree.key, tree.value, start, last);
      var left := tree.mem[node].left;
      if left != NULL && start <= Val(tree.aug, left) {
        node := left;
        c, t := Step(c, t.id, t.red, L, t.right), t.left;
        continue;
      }
      if KeyOf(tree.key, node) <= last {
        if start <= Val(tree.value, node) {
          return node;
        }
        var right := tree.mem[node].right;
        if right != NULL {
          node := right;
          if start <= Val(tree.aug, node) {
            c, t := Step(c, t.id, t.red, R, t.left), t.right;
            continue;
          }
        }
        NoMatchBelow(t.right, tree.key, tree.value, start, last);
      }
      return NULL;
    }
  }

  /** _iter_first: the leftmost interval that meets `[start, last]`. */
  method IterFirst(tree: RbTree, start: nat, last: nat) returns (r: Ptr)
    requires tree.Valid() && tree.augmented
    ensures NULL !in tree.Order()
    ensures r == FirstMatch(tree.Order(), tree.key, tree.value, start, last)
    ensures r == NULL ==>
              forall x :: x in tree.Order() ==> KeyOf(tree.key, x) > last || start > Val(tree.value, x)
    ensures r != NULL ==>
              && r in tree.Order() && KeyOf(tree.key, r) <= last && start <= Val(tree.value, r)
              && forall i :: 0 <= i < IndexOf(tree.Order(), r) ==>
                   KeyOf(tree.key, tree.Order()[i]) > last || start > Val(tree.value, tree.Order()[i])
  {
    OrderNotNull(tree);
    FirstIsFirst(tree.Order(), tree.key, tree.value, start, last);
    RepRoot(tree.mem, NULL, tree.tree);
    if tree.root == NULL {
      return NULL;
    }
    var node := tree.root;
    if Val(tree.aug, node) < start {
      NoMatchBelow(tree.tree, tree.key, tree.value, start, last);
      return NULL;
    }
    if KeyOf(tree.key, tree.leftmost) > last {
      assert tree.Order() != [] by { assert tree.tree.Node?; }
      NoMatchBeyond(tree.Order(), 0, tree.key, tree.value, start, last);
      assert tree.Order()[0..] == tree.Order();
      return NULL;
    }
    r := SubtreeSearch(tree, node, start, last, Top, tree.tree);
  }

  lemma OrderNotNull(tree: RbTree)
    requires tree.Valid()
    ensures NULL !in tree.Order() && Unique(tree.Order())
  {
    RepRoot(tree.mem, NULL, tree.tree);
    IdsInOrder(tree.tree);
    DistinctInOrder(tree.tree);
  }

  /** The do-while loop of _iter_next: climbs until it comes from a left child. */
  method ClimbFromLeft(tree: RbTree, start0: Ptr, ghost c0: Ctx, ghost t0: Tree) returns (r: Ptr, ghost c: Ctx,
                       ghost t: Tree)
    requires Zip(tree.mem, tree.root, c0, t0) && t0.Node? && t0.id == start0
    ensures r == NULL ==> c0.After() == []
    ensures r != NULL ==>
              && Zip(tree.mem, tree.root, c, t) && t.Node? && t.id == r && c.Plug(t) == c0.Plug(t0)
              && c0.After() == [r] + (t.right.InOrder() + c.After())
    ensures r != NULL ==> c < c0
  {
    var node := start0;
    c, t := c0, t0;
    while true
      invariant Zip(tree.mem, tree.root, c, t) && t.Node? && t.id == node
      invariant c.Plug(t) == c0.Plug(t0) && c.After() == c0.After()
      invariant c == c0 || c < c0
      decreases c
    {
      ChildCells(tree.mem, tree.root, c, t);
      ParentCells(tree.mem, tree.root, c, t);
      r := tree.mem[node].parent;
      if r == NULL {
        return;
      }
      var prev := node;
      node := r;
      ghost var side := c.side;
      assert side.L? ==> c.After() == [c.id] + (c.sibling.InOrder() + c.up.After());
      t, c := Mk(c.side, t, c.id, c.red, c.sibling), c.up;
      if prev != tree.mem[node].right {
        return;
      }
    }
  }

  /** _iter_next: the next interval, in order, that meets `[start, last]`. */
  method IterNext(tree: RbTree, node0: Ptr, start: nat, last: nat) returns (r: Ptr)
    requires tree.Valid() && tree.augmented && node0 in tree.Order() && KeyOf(tree.key, node0) <= last
    ensures NULL !in tree.Order()
    ensures r == FirstMatch(tree.Order()[IndexOf(tree.Order(), node0) + 1..], tree.key, tree.value, start, last)
  {
    OrderNotNull(tree);
    var node := node0;
    ghost var c, t, a := tree.Locate(node0);
    ghost var rest := t.right.InOrder() + c.After();
    assert rest == tree.Order()[IndexOf(tree.Order(), node0) + 1..];
    ghost var target := FirstMatch(rest, tree.key, tree.value, start, last);
    while true
      invariant Zip(tree.mem, tree.root, c, t) && t.Node? && t.id == node && c.Plug(t) == tree.tree
      invariant NULL !in t.right.InOrder() + c.After()
      invariant target == FirstMatch(t.right.InOrder() + c.After(), tree.key, tree.value, start, last)
      decreases c
    {
      NextStep(tree, c, t, start, last);
      ChildCells(tree.mem, tree.root, c, t);
      var rb := tree.mem[node].right;
      if rb != NULL && start <= Val(tree.aug, rb) {
        r := SubtreeSearch(tree, rb, start, last, Step(c, t.id, t.red, R, t.left), t.right);
        return;
      }
      ghost var after := c.After();
      r, c, t := ClimbFromLeft(tree, node, c, t);
      if r == NULL {
        return;
      }
      node := r;
      AfterStep(after, node, t.right.InOrder() + c.After(), tree.key, tree.value, start, last);
      if last < KeyOf(tree.key, node) {
        return NULL;
      } else if start <= Val(tree.value, node) {
        return node;
      }
    }
  }

  /** What the search behind a node comes down to. */
  lemma NextStep(tree: RbTree, c: Ctx, t: Tree, start: nat, last: nat)
    requires tree.Valid() && tree.augmented && t.Node? && c.Plug(t) == tree.tree
    requires NULL !in t.right.InOrder() + c.After()
    ensures NULL !in t.right.InOrder() && NULL !in c.After()
    ensures SortedBy(c.After(), tree.key) && SortedBy(t.right.InOrder(), tree.key)
    ensures Augmented(tree.value, tree.aug, t.right)
    ensures var m := FirstMatch(t.right.InOrder() + c.After(), tree.key, tree.value, start, last);
            if t.right.Node? && start <= MaxValue(tree.value, t.right)
            then m == FirstMatch(t.right.InOrder(), tree.key, tree.value, start, last)
            else m == FirstMatch(c.After(), tree.key, tree.value, start, last)
  {
    PlaceInOrder(c, t);
    SortedParts(c.Before() + t.left.InOrder() + [t.id], t.right.InOrder() + c.After(), tree.key);
    PrunedScan(t.right, t.right.InOrder(), c.After(), tree.key, tree.value, start, last);
    ZipAugmentedPlug(tree.value, tree.aug, c, t);
  }

  lemma AfterStep(s: seq<Ptr>, x: Ptr, rest: seq<Ptr>, key: Keys<Ptr>, value: Values, start: nat, last: nat)
    requires s == [x] + rest && NULL !in s && SortedBy(s, key)
    ensures NULL !in rest
    ensures FirstMatch(s, key, value, start, last)
         == if Intersects(key, value, x, start, last) then x else FirstMatch(rest, key, value, start, last)
    ensures KeyOf(key, x) > last ==> FirstMatch(s, key, value, start, last) == NULL
  {
    assert s[1..] == rest;
    if KeyOf(key, x) > last {
      NoMatchBeyond(s, 0, key, value, start, last);
      assert s[0..] == s;
    }
  }

  // ----- all intervals that meet the query

  lemma {:induction false} MatchesElements(s: seq<Ptr>, key: Keys<Ptr>, value: Values, start: nat, last: nat)
    requires Unique(s)
    ensures Unique(Matches(s, key, value, start, last))
    ensures forall x :: x in Matches(s, key, value, start, last) <==> x in s && Intersects(key, value, x, start, last)
  {
    if s != [] {
      MatchesElements(s[1..], key, value, start, last);
      assert forall x :: x in s <==> x == s[0] || x in s[1..];
    }
  }

  lemma OrderSorted(tree: RbTree)
    requires tree.Valid()
    ensures SortedBy(tree.Order(), tree.key)
  {
  }

  lemma {:induction false} MatchesSorted(s: seq<Ptr>, key: Keys<Ptr>, value: Values, start: nat, last: nat)
    requires SortedBy(s, key) && Unique(s)
    ensures SortedBy(Matches(s, key, value, start, last), key)
  {
    if s != [] {
      MatchesSorted(s[1..], key, value, start, last);
      MatchesElements(s[1..], key, value, start, last);
      var r := Matches(s[1..], key, value, start, last);
      forall i | 0 <= i < |r| ensures KeyOf(key, s[0]) <= KeyOf(key, r[i]) {
        assert r[i] in r && r[i] in s[1..];
        var j :| 0 <= j < |s[1..]| && s[1..][j] == r[i];
        assert s[j + 1] == r[i];
      }
    }
  }

  lemma SuffixIndex(s: seq<Ptr>, k: nat, x: Ptr)
    requires Unique(s) && k <= |s| && x in s[k..]
    ensures x in s && IndexOf(s, x) == k + IndexOf(s[k..], x)
    ensures s[IndexOf(s, x) + 1..] == s[k..][IndexOf(s[k..], x) + 1..]
  {
    var i := IndexOf(s[k..], x);
    assert s[k + i] == x;
    assert IndexOf(s, x) == k + i;
  }

  /** One round: `s` are the matches in front of `k`. */
  lemma MatchStep(o: seq<Ptr>, k: nat, s: seq<Ptr>, key: Keys<Ptr>, value: Values, start: nat, last: nat)
    requires Unique(o) && k <= |o| && NULL !in o
    requires s + Matches(o[k..], key, value, start, last) == Matches(o, key, value, start, last)
    ensures var x, m := FirstMatch(o[k..], key, value, start, last), Matches(o, key, value, start, last);
            if x == NULL then s == m else
              && x in o && KeyOf(key, x) <= last && k <= IndexOf(o, x)
              && s + [x] + Matches(o[IndexOf(o, x) + 1..], key, value, start, last) == m
  {
    hide Unique, Matches, IndexOf, FirstMatch;
    var x := FirstMatch(o[k..], key, value, start, last);
    MatchesByIteration(o[k..], key, value, start, last);
    if x == NULL {
      assert s + [] == s;
    } else {
      SuffixIndex(o, k, x);
      var r := Matches(o[IndexOf(o, x) + 1..], key, value, start, last);
      assert s + ([x] + r) == s + [x] + r;
    }
  }

  /** The loop the two functions are made for, first and then next until there is none: it lists every interval that
      meets the query exactly once, in start order. */
  method AllMatches(tree: RbTree, start: nat, last: nat) returns (s: seq<Ptr>)
    requires tree.Valid() && tree.augmented
    ensures s == Matches(tree.Order(), tree.key, tree.value, start, last)
    ensures Unique(s) && SortedBy(s, tree.key)
    ensures forall x :: x in s <==> x in tree.Order() && KeyOf(tree.key, x) <= last && start <= Val(tree.value, x)
  {
    hide RbTree.Valid, RbTree.Order, Unique, Matches, IndexOf, FirstMatch;
    ghost var o, k := tree.Order(), 0;
    OrderNotNull(tree);
    s := [];
    var x := IterFirst(tree, start, last);
    assert o[0..] == o;
    while x != NULL
      invariant 0 <= k <= |o| && x == FirstMatch(o[k..], tree.key, tree.value, start, last)
      invariant s + Matches(o[k..], tree.key, tree.value, start, last) == Matches(o, tree.key, tree.value, start, last)
      decreases |o| - k
    {
      MatchStep(o, k, s, tree.key, tree.value, start, last);
      s := s + [x];
      k := IndexOf(o, x) + 1;
      x := IterNext(tree, x, start, last);
    }
    MatchStep(o, k, s, tree.key, tree.value, start, last);
    MatchesElements(o, tree.key, tree.value, start, last);
    OrderSorted(tree);
    MatchesSorted(o, tree.key, tree.value, start, last);
  }
}
