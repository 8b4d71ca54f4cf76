/** The pure part of linking a new leaf: the descent to its slot, the maxima raised on the way, and the renaming of a
    node by rb_replace_node. */
module RbLinking {
  import opened KernelMath
  import opened Sequences
  import opened RbShape
  import opened RbFixup

  /** The nodes on the path from the root to the hole. */
  ghost function Path(c: Ctx): set<Ptr> {
    if c.Top? then {} else Path(c.up) + {c.id}
  }

  lemma {:induction false} PathIds(c: Ctx)
    ensures Path(c) <= c.Ids()
    decreases c
  {
    if c.Step? { PathIds(c.up); }
  }

  ghost function Count(t: Tree): nat {
    if t.Leaf? then 0 else Count(t.left) + 1 + Count(t.right)
  }

  /** The number of nodes before the hole. */
  ghost function Rank(c: Ctx): nat {
    if c.Top? then 0 else Rank(c.up) + if c.side.L? then 0 else Count(c.sibling) + 1
  }

  lemma {:induction false} CountInOrder(t: Tree)
    ensures |t.InOrder()| == Count(t)
    decreases t
  {
    if t.Node? {
      CountInOrder(t.left);
      CountInOrder(t.right);
    }
  }

  lemma {:induction false} RankBefore(c: Ctx)
    ensures |c.Before()| == Rank(c)
    decreases c
  {
    if c.Step? {
      RankBefore(c.up);
      CountInOrder(c.sibling);
    }
  }

  /** A slot, i.e. a NULL link, is determined by the number of nodes before it: two ways to find the place of a new
      leaf that agree on its neighbours link it at the same slot. */
  lemma SlotUnique(c: Ctx, c': Ctx)
    requires c.Plug(Leaf) == c'.Plug(Leaf) && |c.Before()| == |c'.Before()|
    ensures c == c'
  {
    RankBefore(c);
    RankBefore(c');
    SlotFound(c, Top, Leaf, Rank(c));
    SlotFound(c', Top, Leaf, Rank(c'));
    ComposeTop(c);
    ComposeTop(c');
  }

  /** The slot with `n` nodes before it. */
  ghost function Slot(c: Ctx, t: Tree, n: int): Ctx
    decreases t
  {
    if t.Leaf? then c
    else if n <= Count(t.left) then Slot(Step(c, t.id, t.red, L, t.right), t.left, n)
    else Slot(Step(c, t.id, t.red, R, t.left), t.right, n - Count(t.left) - 1)
  }

  /** `d` continued upwards by `c`. */
  ghost function Compose(c: Ctx, d: Ctx): Ctx {
    if d.Top? then c else Step(Compose(c, d.up), d.id, d.red, d.side, d.sibling)
  }

  lemma {:induction false} ComposeTop(d: Ctx)
    ensures Compose(Top, d) == d
    decreases d
  {
    if d.Step? { ComposeTop(d.up); }
  }

  /** Descending by position from the top of `d` arrives at its hole. */
  lemma {:induction false} SlotFound(d: Ctx, c: Ctx, x: Tree, n: int)
    requires Rank(d) <= n <= Rank(d) + Count(x)
    ensures Slot(c, d.Plug(x), n) == Slot(Compose(c, d), x, n - Rank(d))
    decreases d
  {
    hide Slot;
    if d.Step? {
      var y := Mk(d.side, x, d.id, d.red, d.sibling);
      MkCount(d.side, x, d.id, d.red, d.sibling);
      SlotFound(d.up, c, y, n);
      SlotStep(Compose(c, d.up), d, x, n - Rank(d.up));
    }
  }

  lemma MkCount(d: Side, near: Tree, id: Ptr, red: bool, far: Tree)
    ensures Count(Mk(d, near, id, red, far)) == Count(near) + 1 + Count(far)
  {
  }

  lemma SlotStep(e: Ctx, d: Ctx, x: Tree, n: int)
    requires d.Step? && (if d.side.L? then 0 <= n <= Count(x) else 0 <= n - Count(d.sibling) - 1 <= Count(x))
    ensures Slot(e, Mk(d.side, x, d.id, d.red, d.sibling), n)
         == Slot(Step(e, d.id, d.red, d.side, d.sibling), x, if d.side.L? then n else n - Count(d.sibling) - 1)
  {
  }

  /** All maxima on the path raised to at least `x`. */
  ghost predicate Raised(aug: Values, aug': Values, path: set<Ptr>, x: nat) {
    forall y :: Val(aug', y) == if y in path then Max(Val(aug, y), x) else Val(aug, y)
  }

  /** Raising the path accounts for a new value `x` below the hole. */
  lemma {:induction false} RaisedAugmented(v: Values, aug: Values, aug': Values, c: Ctx, path: set<Ptr>, mx: nat,
                                           x: nat)
    requires CtxAugmented(v, aug, c, mx) && Raised(aug, aug', path, x) && c.Distinct()
    requires Path(c) <= path && path * c.Ids() == Path(c)
    ensures CtxAugmented(v, aug', c, Max(mx, x))
    decreases c
  {
    if c.Step? {
      PathIds(c.up);
      forall y | y in c.sibling.Ids() ensures Val(aug', y) == Val(aug, y) {
        assert y in c.Ids() && y !in Path(c);
      }
      AugmentedFrame(v, aug, aug', c.sibling);
      assert path * c.up.Ids() == Path(c.up) by {
        forall y | y in path * c.up.Ids() ensures y in Path(c.up) {
          assert y in path * c.Ids();
        }
        forall y | y in Path(c.up) ensures y in path * c.up.Ids() {
          assert y in Path(c);
        }
      }
      assert c.id in path;
      RaisedAugmented(v, aug, aug', c.up, path, Val(aug, c.id), x);
    }
  }

  /** Every node above one whose maximum is at least `x` also has one. */
  lemma {:induction false} PathAtLeast(v: Values, aug: Values, c: Ctx, mx: nat, x: nat)
    requires CtxAugmented(v, aug, c, mx) && mx >= x
    ensures forall y :: y in Path(c) ==> Val(aug, y) >= x
    decreases c
  {
    if c.Step? { PathAtLeast(v, aug, c.up, Val(aug, c.id), x); }
  }

  /** One step of the descent of an insertion. */
  lemma DescentStep(m: Memory, root: Ptr, c: Ctx, t: Tree, d: Side)
    requires Zip(m, root, c, t) && t.Node?
    ensures t.id in m && m[t.id].Child(d) == t.Child(d).Root() && t.id != NULL
    ensures t.Child(d).Root() == NULL <==> t.Child(d).Leaf?
    ensures Zip(m, root, Step(c, t.id, t.red, d, t.Child(d.Flip())), t.Child(d))
    ensures c.Plug(t) == Step(c, t.id, t.red, d, t.Child(d.Flip())).Plug(t.Child(d))
  {
    assert t == Mk(d, t.Child(d), t.id, t.red, t.Child(d.Flip()));
    ZipStep(m, root, c, t.id, t.red, d, t.Child(d), t.Child(d.Flip()));
    RepRoot(m, t.id, t.Child(d));
  }

  lemma DescentAugmented(v: Values, aug: Values, c: Ctx, t: Tree, d: Side, x: nat)
    requires t.Node? && t.Distinct() && c.Distinct() && t.Ids() !! c.Ids()
    requires Augmented(v, aug, t) && CtxAugmented(v, aug, c, Max(MaxValue(v, t), x))
    ensures var aug' := aug[t.id := Max(Val(aug, t.id), x)];
            && Augmented(v, aug', t.Child(d))
            && CtxAugmented(v, aug', Step(c, t.id, t.red, d, t.Child(d.Flip())), Max(MaxValue(v, t.Child(d)), x))
  {
    var y := Max(Val(aug, t.id), x);
    var near, far := t.Child(d), t.Child(d.Flip());
    assert t == Mk(d, near, t.id, t.red, far);
    MkDistinct(d, near, t.id, t.red, far);
    MkAugmented(v, aug, d, near, t.id, t.red, far);
    AugmentedFrame1(v, aug, t.id, y, near);
    AugmentedFrame1(v, aug, t.id, y, far);
    CtxAugmentedFrame1(v, aug, t.id, y, c, Max(MaxValue(v, t), x));
    MaxRaise(Val(v, t.id), MaxValue(v, near), MaxValue(v, far), x);
  }

  lemma MaxRaise(n: nat, a: nat, b: nat, x: nat)
    ensures Max(Max(n, Max(a, b)), x) == Max(n, Max(Max(a, x), b))
  {
  }

  /** Linking a red leaf at the slot `c`. */
  lemma LinkZip(m: Memory, m': Memory, root: Ptr, root': Ptr, c: Ctx, node: Ptr)
    requires Zip(m, root, c, Leaf) && node != NULL && node !in c.Ids()
    requires Redirected(m, m', root, root', c, node)
    requires node in m' && m'[node] == Links(NULL, NULL, c.Root(), true)
    requires SameBut(m, m', node, c.Root(), c.Root(), c.Root())
    ensures Zip(m', root', c, Node(Leaf, node, true, Leaf))
  {
    CtxRoot(m, root, c, NULL);
    AgreeOn(m, m', node, c.Root(), c.Root(), c.Root(), c.Ids() - {c.Root()});
    CtxRedirect(m, m', root, root', c, NULL, node);
  }

  /** Keys before the hole are at most `k`, keys after it are larger. */
  ghost predicate KeysAround(c: Ctx, key: Keys<Ptr>, k: int) {
    && (forall x :: x in c.Before() ==> KeyOf(key, x) <= k)
    && (forall x :: x in c.After() ==> KeyOf(key, x) > k)
  }

  /** A descent by key ends between the keys up to `k` and those above it. */
  lemma DescentEnd(c: Ctx, tree: Tree, key: Keys<Ptr>, k: int)
    requires c.Plug(Leaf) == tree && KeysAround(c, key, k)
    ensures tree.InOrder() == c.Before() + c.After() && UpperBound(tree.InOrder(), key, k) == |c.Before()|
  {
    PlugInOrder(c, Leaf);
    assert c.Before() + Leaf.InOrder() + c.After() == c.Before() + c.After();
    UpperBoundIs(c.Before(), c.After(), key, k);
  }

  /** Where the descent ended: the order splits there, and the tree is ready for the fix-up. */
  lemma LinkReady(c: Ctx, tree: Tree, key: Keys<Ptr>, k: int)
    requires c.Plug(Leaf) == tree && tree.RedBlack() && !tree.IsRed()
    requires KeysAround(c, key, k)
    ensures c.RedBlack(0)
    ensures tree.InOrder() == c.Before() + c.After()
    ensures UpperBound(tree.InOrder(), key, k) == |c.Before()|
    ensures tree.Ids() == c.Ids()
  {
    hide Tree.InOrder, Ctx.Before, Ctx.After, UpperBound, KeysAround;
    UnplugRedBlack(c, Leaf);
    DescentEnd(c, tree, key, k);
    PlugIds(c, Leaf);
  }

  lemma DescentKeys(c: Ctx, t: Tree, d: Side, key: Keys<Ptr>, k: int)
    requires t.Node? && KeysAround(c, key, k) && SortedBy(c.Plug(t).InOrder(), key)
    requires d == if k < KeyOf(key, t.id) then L else R
    ensures KeysAround(Step(c, t.id, t.red, d, t.Child(d.Flip())), key, k)
  {
    PlugInOrder(c, t);
    Regroup(c.Before(), t.left.InOrder(), t.id, t.right.InOrder(), c.After());
    SortedPivot(c.Before() + t.left.InOrder(), t.id, t.right.InOrder() + c.After(), key);
  }

  lemma SortedPivot(a: seq<Ptr>, x: Ptr, b: seq<Ptr>, key: Keys<Ptr>)
    requires SortedBy(a + [x] + b, key)
    ensures forall y :: y in a ==> KeyOf(key, y) <= KeyOf(key, x)
    ensures forall y :: y in b ==> KeyOf(key, x) <= KeyOf(key, y)
  {
    var s := a + [x] + b;
    assert s[|a|] == x;
    forall y | y in a ensures KeyOf(key, y) <= KeyOf(key, x) {
      var i :| 0 <= i < |a| && a[i] == y;
      assert s[i] == y;
    }
    forall y | y in b ensures KeyOf(key, x) <= KeyOf(key, y) {
      var i :| 0 <= i < |b| && b[i] == y;
      assert s[|a| + 1 + i] == y;
    }
  }

  lemma KeyFrame(s: seq<Ptr>, key: Keys<Ptr>, x: Ptr, k: int)
    requires SortedBy(s, key) && x !in s
    ensures SortedBy(s, key[x := k])
    ensures forall y :: y in s ==> KeyOf(key[x := k], y) == KeyOf(key, y)
  {
    assert forall i :: 0 <= i < |s| ==> KeyOf(key[x := k], s[i]) == KeyOf(key, s[i]);
  }

  // ----- rb_replace_node

  lemma ReplaceZip(m: Memory, m': Memory, root: Ptr, root': Ptr, c: Ctx, t: Tree, new': Ptr)
    requires Zip(m, root, c, t) && t.Node? && new' != NULL && new' !in c.Ids() && new' !in t.Ids()
    requires Redirected(m, m', root, root', c, new')
    requires t.id in m && new' in m' && m'[new'] == m[t.id]
    requires t.left.Node? ==> t.left.id in m && t.left.id in m' && m'[t.left.id] == m[t.left.id].(parent := new')
    requires t.right.Node? ==> t.right.id in m && t.right.id in m' && m'[t.right.id] == m[t.right.id].(parent := new')
    requires SameBut(m, m', new', t.left.Root(), t.right.Root(), c.Root())
    ensures Zip(m', root', c, Node(t.left, new', t.red, t.right))
  {
    var l, r := t.left, t.right;
    RepRoot(m, t.id, l);
    RepRoot(m, t.id, r);
    CtxRoot(m, root, c, t.id);
    assert l.Node? ==> l.id in l.Ids();
    assert r.Node? ==> r.id in r.Ids();
    AgreeOn(m, m', new', l.Root(), r.Root(), c.Root(), l.Ids() - {l.Root()});
    AgreeOn(m, m', new', l.Root(), r.Root(), c.Root(), r.Ids() - {r.Root()});
    AgreeOn(m, m', new', l.Root(), r.Root(), c.Root(), c.Ids() - {c.Root()});
    RepReparent(m, m', l, new', l.IsRed());
    RepReparent(m, m', r, new', r.IsRed());
    assert l.Paint(l.IsRed()) == l && r.Paint(r.IsRed()) == r;
    CtxRedirect(m, m', root, root', c, t.id, new');
  }

  lemma ReplaceAugmented(v: Values, aug: Values, c: Ctx, t: Tree, new': Ptr)
    requires ZipAugmented(v, aug, c, t) && t.Node? && new' !in c.Ids() && new' !in t.Ids()
    ensures ZipAugmented(v[new' := Val(v, t.id)], aug[new' := Val(aug, t.id)], c, Node(t.left, new', t.red, t.right))
  {
    var v', aug' := v[new' := Val(v, t.id)], aug[new' := Val(aug, t.id)];
    AugmentedFrame1(v, aug, new', Val(aug, t.id), t.left);
    AugmentedFrame1(v, aug, new', Val(aug, t.id), t.right);
    CtxAugmentedFrame1(v, aug, new', Val(aug, t.id), c, MaxValue(v, t));
    ValueFrame(v, v', aug', t.left);
    ValueFrame(v, v', aug', t.right);
    CtxValueFrame(v, v', aug', c, MaxValue(v, t));
  }

  /** The other names, and the shape, stay as they were. */
  lemma ReplaceInOrder(c: Ctx, t: Tree, new': Ptr)
    requires t.Node? && c.Plug(t).Distinct() && new' !in c.Plug(t).Ids()
    ensures c.Plug(Node(t.left, new', t.red, t.right)).InOrder() == Rename(c.Plug(t).InOrder(), t.id, new')
  {
    var a, b := c.Before() + t.left.InOrder(), t.right.InOrder() + c.After();
    PlugInOrder(c, t);
    PlugInOrder(c, Node(t.left, new', t.red, t.right));
    Regroup(c.Before(), t.left.InOrder(), t.id, t.right.InOrder(), c.After());
    Regroup(c.Before(), t.left.InOrder(), new', t.right.InOrder(), c.After());
    DistinctInOrder(c.Plug(t));
    RenameSplit(a, t.id, b, new');
  }

  lemma RenameSplit(a: seq<Ptr>, x: Ptr, b: seq<Ptr>, y: Ptr)
    requires Unique(a + [x] + b)
    ensures Rename(a + [x] + b, x, y) == a + [y] + b
  {
    var s := a + [x] + b;
    assert s[|a|] == x;
  }

  lemma RenamedSorted(s: seq<Ptr>, key: Keys<Ptr>, x: Ptr, y: Ptr)
    requires SortedBy(s, key) && y !in s
    ensures SortedBy(Rename(s, x, y), key[y := KeyOf(key, x)])
  {
    var r, key' := Rename(s, x, y), key[y := KeyOf(key, x)];
    forall i | 0 <= i < |s| ensures KeyOf(key', r[i]) == KeyOf(key, s[i]) {
      assert s[i] in s;
    }
  }

  /** What rb_replace_node reads. */
  lemma ReplaceCells(m: Memory, root: Ptr, c: Ctx, t: Tree)
    requires Zip(m, root, c, t) && t.Node?
    ensures t.id in m && m[t.id] == Links(t.left.Root(), t.right.Root(), c.Root(), t.red)
    ensures t.left.Root() == NULL <==> t.left.Leaf?
    ensures t.right.Root() == NULL <==> t.right.Leaf?
    ensures t.left.Node? ==> t.left.id in m && t.left.id in t.Ids() && t.left.id != t.id && t.left.id != c.Root()
    ensures t.right.Node? ==> t.right.id in m && t.right.id in t.Ids() && t.right.id != t.id && t.right.id != c.Root()
    ensures t.left.Node? && t.right.Node? ==> t.left.id != t.right.id
    ensures HoleLink(m, c, t.id) && c.Root() in c.Ids() + {NULL} && t.id != NULL && t.id in t.Ids()
  {
    RepRoot(m, t.id, t.left);
    RepRoot(m, t.id, t.right);
    CtxRoot(m, root, c, t.id);
    HoleLinked(m, root, c, t.id);
    assert t.left.Node? ==> t.left.id in t.left.Ids();
    assert t.right.Node? ==> t.right.id in t.right.Ids();
  }

  // ----- the hinted insertion

  /** The slot directly behind the hint is where the key belongs. */
  lemma HintKeys(c: Ctx, t: Tree, tree: Tree, key: Keys<Ptr>, k: int)
    requires t.Node? && c.Plug(t) == tree && tree.Distinct() && SortedBy(tree.InOrder(), key)
    requires t.id in tree.InOrder() && UpperBound(tree.InOrder(), key, k) == IndexOf(tree.InOrder(), t.id) + 1
    ensures KeysAround(Step(c, t.id, t.red, R, t.left), key, k)
    ensures Step(c, t.id, t.red, R, t.left).Before() != []
    ensures Step(c, t.id, t.red, R, t.left).Plug(t.right) == tree
  {
    var a, b := c.Before() + t.left.InOrder(), t.right.InOrder() + c.After();
    PlugInOrder(c, t);
    Regroup(c.Before(), t.left.InOrder(), t.id, t.right.InOrder(), c.After());
    DistinctInOrder(tree);
    HintSplit(a, t.id, b, key, k);
    HintAround(c, t, a, b, key, k);
  }

  lemma HintAround(c: Ctx, t: Tree, a: seq<Ptr>, b: seq<Ptr>, key: Keys<Ptr>, k: int)
    requires t.Node? && a == c.Before() + t.left.InOrder() && b == t.right.InOrder() + c.After()
    requires forall y :: y in a + [t.id] ==> KeyOf(key, y) <= k
    requires forall y :: y in b ==> KeyOf(key, y) > k
    ensures KeysAround(Step(c, t.id, t.red, R, t.left), key, k)
    ensures Step(c, t.id, t.red, R, t.left).Before() != []
  {
    assert Step(c, t.id, t.red, R, t.left).Before() == a + [t.id];
  }

  lemma HintSplit(a: seq<Ptr>, x: Ptr, b: seq<Ptr>, key: Keys<Ptr>, k: int)
    requires var s := a + [x] + b; Unique(s) && SortedBy(s, key) && x in s && UpperBound(s, key, k) == IndexOf(s, x) + 1
    ensures forall y :: y in a + [x] ==> KeyOf(key, y) <= k
    ensures forall y :: y in b ==> KeyOf(key, y) > k
  {
    var s, n := a + [x] + b, |a| + 1;
    assert s[|a|] == x;
    assert IndexOf(s, x) == |a|;
    forall y | y in a + [x] ensures KeyOf(key, y) <= k {
      var i :| 0 <= i < n && (a + [x])[i] == y;
      assert s[i] == y;
    }
    forall y | y in b ensures KeyOf(key, y) > k {
      var i :| 0 <= i < |b| && b[i] == y;
      assert s[n + i] == y && KeyOf(key, s[n]) > k;
    }
  }

  lemma HintAugmented(v: Values, aug: Values, c: Ctx, t: Tree)
    requires t.Node? && ZipAugmented(v, aug, c, t)
    ensures CtxAugmented(v, aug, Step(c, t.id, t.red, R, t.left), MaxValue(v, t.right)) && Augmented(v, aug, t.right)
  {
  }

  lemma HintRaised(v: Values, aug: Values, aug': Values, c: Ctx, t: Tree, x: nat)
    requires Augmented(v, aug, t) && CtxAugmented(v, aug, c, MaxValue(v, t)) && Raised(aug, aug', Path(c), x)
    requires c.Distinct() && t.Ids() !! c.Ids()
    ensures Augmented(v, aug', t) && CtxAugmented(v, aug', c, Max(MaxValue(v, t), x))
  {
    PathIds(c);
    assert Path(c) * c.Ids() == Path(c);
    RaisedAugmented(v, aug, aug', c, Path(c), MaxValue(v, t), x);
    AugmentedFrame(v, aug, aug', t);
  }

  lemma MaxRaised(v: Values, aug: Values, t: Tree, x: nat)
    requires ZipAugmented(v, aug, Top, t)
    ensures CtxAugmented(v, aug, Top, Max(MaxValue(v, t), x))
  {
  }

  // ----- the hinted insert agrees with the one from the root

  /** Two descents for the same key end at the same slot, so that the new leaf hangs on the same link and is the
      leftmost node for both or for neither. */
  lemma SameSlot(tree: Tree, c: Ctx, c': Ctx, key: Keys<Ptr>, k: int)
    requires c.Plug(Leaf) == tree && c'.Plug(Leaf) == tree && KeysAround(c, key, k) && KeysAround(c', key, k)
    ensures c == c' && (c.Before() == [] <==> c'.Before() == [])
  {
    hide Ctx.Before, Ctx.After, Ctx.Plug, Tree.InOrder, KeysAround, UpperBound;
    DescentEnd(c, tree, key, k);
    DescentEnd(c', tree, key, k);
    SlotUnique(c, c');
  }

  lemma {:induction false} AugmentedUnique(v: Values, aug: Values, aug': Values, t: Tree)
    requires Augmented(v, aug, t) && Augmented(v, aug', t)
    ensures SameValues(aug, aug', t.Ids())
    decreases t
  {
    if t.Node? {
      AugmentedUnique(v, aug, aug', t.left);
      AugmentedUnique(v, aug, aug', t.right);
    }
  }

  /** There is only one way to update the ancestors of a slot for a new value. */
  lemma {:induction false} SameUpdates(v: Values, aug: Values, aug': Values, c: Ctx, mx: nat)
    requires CtxAugmented(v, aug, c, mx) && CtxAugmented(v, aug', c, mx)
    ensures SameValues(aug, aug', c.Ids())
    decreases c
  {
    if c.Step? {
      AugmentedUnique(v, aug, aug', c.sibling);
      SameUpdates(v, aug, aug', c.up, Val(aug, c.id));
    }
  }
}
