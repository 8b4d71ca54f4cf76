/** The pure part of the proof of __rb_erase_augmented (rbtree_augmented.h): unlinking a node with at most one child,
    and putting the in-order successor of a node in its place. */
module RbErasure {
  import opened KernelMath
  import opened RbShape
  import opened RbFixup

  /** `k` with its open end closed by `base`. */
  function Graft(k: Ctx, base: Ctx): Ctx {
    if k.Top? then base else Step(Graft(k.up, base), k.id, k.red, k.side, k.sibling)
  }

  lemma {:induction false} GraftPlug(m: Memory, root: Ptr, k: Ctx, base: Ctx, x: Tree)
    ensures Zip(m, root, Graft(k, base), x) <==> Zip(m, root, base, k.Plug(x))
    ensures Graft(k, base).Plug(x) == base.Plug(k.Plug(x))
    decreases k
  {
    if k.Step? {
      ZipStep(m, root, Graft(k.up, base), k.id, k.red, k.side, x, k.sibling);
      GraftPlug(m, root, k.up, base, Mk(k.side, x, k.id, k.red, k.sibling));
    }
  }

  lemma {:induction false} GraftIds(k: Ctx, base: Ctx)
    ensures Graft(k, base).Ids() == k.Ids() + base.Ids()
    ensures Graft(k, base).Distinct() ==> k.Distinct() && base.Distinct() && k.Ids() !! base.Ids()
    decreases k
  {
    if k.Step? { GraftIds(k.up, base); }
  }

  /** The name of the node below which `k` hangs does not matter to the colours. */
  lemma {:induction false} GraftRenamed(k: Ctx, c: Ctx, x: Ptr, y: Ptr, red: bool, d: Side, s: Tree, h: nat)
    requires Graft(k, Step(c, x, red, d, s)).RedBlack(h)
    ensures Graft(k, Step(c, y, red, d, s)).RedBlack(h)
    decreases k
  {
    if k.Step? {
      GraftRenamed(k.up, c, x, y, red, d, s, if k.red then h else h + 1);
      assert k.up.Step? ==> Graft(k.up, Step(c, x, red, d, s)).red == k.up.red;
    }
  }

  /** The root of a plugged tree is the topmost node of the context. */
  lemma {:induction false} PlugRoot(k: Ctx, x: Tree, y: Tree)
    requires k.Step?
    ensures k.Plug(x).Node? && k.Plug(y).Node? && k.Plug(x).id == k.Plug(y).id && k.Plug(x).id in k.Ids()
    ensures k.Plug(x).red == k.Plug(y).red
    decreases k
  {
    if k.up.Step? {
      PlugRoot(k.up, Mk(k.side, x, k.id, k.red, k.sibling), Mk(k.side, y, k.id, k.red, k.sibling));
    }
  }

  lemma {:induction false} GraftTop(c: Ctx)
    ensures Graft(c, Top) == c
    decreases c
  {
    if c.Step? { GraftTop(c.up); }
  }

  // ----- the path _propagate climbs

  lemma PathCell(m: Memory, root: Ptr, k: Ctx, base: Ctx, x: Tree)
    requires Zip(m, root, Graft(k, base), x) && Graft(k, base).Root() != base.Root()
    ensures k.Step? && k.id in m && m[k.id].Child(k.side) == x.Root()
    ensures m[k.id].Child(k.side.Flip()) == k.sibling.Root()
    ensures m[k.id].parent == Graft(k.up, base).Root()
    ensures x.Root() == NULL <==> x.Leaf?
    ensures k.sibling.Root() == NULL <==> k.sibling.Leaf?
  {
    RepRoot(m, k.id, x);
    RepRoot(m, k.id, k.sibling);
  }

  lemma PathEnd(m: Memory, root: Ptr, k: Ctx, base: Ctx, x: Tree)
    requires Zip(m, root, Graft(k, base), x) && Graft(k, base).Root() == base.Root()
    ensures k.Top?
  {
    GraftIds(k, base);
    CtxRoot(m, root, Graft(k, base), x.Root());
  }

  /** One store of _propagate. */
  lemma PathRaised(v: Values, aug: Values, k: Ctx, x: Tree, max: nat)
    requires k.Step? && Augmented(v, aug, x) && Augmented(v, aug, k.sibling)
    requires CtxAugmented(v, aug, k.up, Val(aug, k.id))
    requires k.Distinct() && x.Distinct() && k.Ids() !! x.Ids()
    requires max == Max(Val(v, k.id), Max(MaxValue(v, x), MaxValue(v, k.sibling)))
    ensures var aug' := aug[k.id := max];
            && Augmented(v, aug', Mk(k.side, x, k.id, k.red, k.sibling))
            && (k.up.Step? ==> Augmented(v, aug', k.up.sibling) && CtxAugmented(v, aug', k.up.up, Val(aug', k.up.id)))
  {
    AugmentedFrame1(v, aug, k.id, max, x);
    AugmentedFrame1(v, aug, k.id, max, k.sibling);
    var aug' := aug[k.id := max];
    MkAugmented(v, aug', k.side, x, k.id, k.red, k.sibling);
    if k.up.Step? {
      assert k.up.Distinct() && k.up.Ids() == k.up.up.Ids() + {k.up.id} + k.up.sibling.Ids();
      AugmentedFrame1(v, aug, k.id, max, k.up.sibling);
      CtxAugmentedFrame1(v, aug, k.id, max, k.up.up, Val(aug, k.up.id));
    }
  }

  // ----- at most one child

  lemma SpliceZip(m: Memory, m': Memory, root: Ptr, root': Ptr, c: Ctx, t: Tree, d: Side)
    requires Zip(m, root, c, t) && t.Node? && t.Child(d.Flip()).Leaf?
    requires Redirected(m, m', root, root', c, t.Child(d).Root())
    requires t.Child(d).Node? ==>
               var x := t.Child(d).id; x in m && x in m' && m'[x] == m[x].(parent := c.Root(), red := t.red)
    requires SameBut(m, m', t.Child(d).Root(), c.Root(), c.Root(), c.Root())
    ensures Zip(m', root', c, t.Child(d).Paint(t.red))
  {
    var x := t.Child(d);
    RepRoot(m, t.id, x);
    CtxRoot(m, root, c, t.id);
    AgreeOn(m, m', x.Root(), c.Root(), c.Root(), c.Root(), x.Ids() - {x.Root()});
    RepReparent(m, m', x, c.Root(), t.red);
    AgreeOn(m, m', x.Root(), c.Root(), c.Root(), c.Root(), c.Ids() - {c.Root()});
    CtxRedirect(m, m', root, root', c, t.id, x.Root());
  }

  /** The state in which __rb_erase_augmented leaves the colours: valid, or one black node short at `rebalance`. */
  ghost predicate ErasedColours(rebalance: Ptr, c: Ctx, t: Tree) {
    if rebalance == NULL then
      t.RedBlack() && c.RedBlack(t.BlackHeight()) && (t.IsRed() ==> c.Step? && !c.red)
    else
      t.Leaf? && Short(c, Leaf) && c.id == rebalance
  }

  lemma SpliceAugmented(v: Values, aug: Values, c: Ctx, t: Tree, d: Side)
    requires ZipAugmented(v, aug, c, t) && t.Node?
    ensures Augmented(v, aug, t.Child(d).Paint(t.red))
    ensures c.Step? ==> Augmented(v, aug, c.sibling) && CtxAugmented(v, aug, c.up, Val(aug, c.id))
  {
    assert Augmented(v, aug, t.Child(d));
  }

  lemma SpliceColours(c: Ctx, t: Tree, d: Side, rebalance: Ptr)
    requires t.Node? && t.Child(d.Flip()).Leaf?
    requires t.RedBlack() && c.RedBlack(t.BlackHeight()) && (t.IsRed() ==> c.Step? && !c.red)
    requires rebalance == if t.Child(d).Leaf? && !t.red then c.Root() else NULL
    requires c.Step? ==> c.id != NULL
    ensures ErasedColours(rebalance, c, t.Child(d).Paint(t.red))
  {
    var x := t.Child(d);
    assert t == Mk(d, x, t.id, t.red, Leaf);
    MkRedBlack(d, x, t.id, t.red, Leaf);
    assert x.Node? ==> x.red && !t.red;
  }

  // ----- two children

  /** What the memory looks like once the successor `s` has taken the place of the root of `t`. */
  ghost predicate Replaced(m: Memory, m': Memory, root: Ptr, root': Ptr, c: Ctx, t: Tree, k: Ctx, s: Tree)
    requires t.Node? && t.left.Node? && t.right.Node? && s.Node?
  {
    var child2, top, l := s.right.Root(), t.right.id, t.left.id;
    && {s.id, l, top, t.id} <= m.Keys && {s.id, l, top} <= m'.Keys
    && Redirected(m, m', root, root', c, s.id)
    && m'[s.id] == Links(l, if k.Top? then child2 else top, m[t.id].parent, m[t.id].red)
    && m'[l] == m[l].(parent := s.id)
    && (child2 != NULL ==>
          && child2 in m && child2 in m'
          && m'[child2] == m[child2].(parent := if k.Top? then s.id else k.id, red := false))
    && (k.Step? ==>
          && k.id in m && k.id in m'
          && m'[top] == (if k.id == top then m[top].(left := child2) else m[top]).(parent := s.id)
          && (k.id != top ==> m'[k.id] == m[k.id].(left := child2)))
    && SameBut6(m, m', s.id, top, l, child2, k.Root(), c.Root())
  }

  ghost predicate SameBut6(m: Memory, m': Memory, p: Ptr, q: Ptr, r: Ptr, s: Ptr, t: Ptr, u: Ptr) {
    forall x :: x in m && x != p && x != q && x != r && x != s && x != t && x != u ==> x in m' && m'[x] == m[x]
  }

  lemma AgreeOn6(m: Memory, m': Memory, p: Ptr, q: Ptr, r: Ptr, s: Ptr, t: Ptr, u: Ptr, ids: set<Ptr>)
    requires SameBut6(m, m', p, q, r, s, t, u)
    requires p !in ids && q !in ids && r !in ids && s !in ids && t !in ids && u !in ids
    ensures Agree(m, m', ids)
  {
  }

  /** `k` leads along left links from the right child of `t` to the successor subtree `s`. */
  ghost predicate SuccessorPath(t: Tree, k: Ctx, s: Tree) {
    && t.Node? && t.left.Node? && t.right.Node? && s.Node? && s.left.Leaf?
    && k.Plug(s) == t.right && k.Before() == [] && (k.Step? ==> k.side.L?)
  }

  /** The subtree to the right of the successor in its new place. */
  ghost function RightPart(k: Ctx, s: Tree): Tree
    requires s.Node?
  {
    k.Plug(s.right.Paint(false))
  }

  lemma ReplacedIds(c: Ctx, t: Tree, k: Ctx, s: Tree)
    requires SuccessorPath(t, k, s) && t.Distinct() && c.Distinct() && t.Ids() !! c.Ids()
    requires k.Distinct() && s.Distinct() && k.Ids() !! s.Ids()
    ensures t.right.Ids() == k.Ids() + {s.id} + s.right.Ids() && s.id !in s.right.Ids()
    ensures RightPart(k, s).Ids() == k.Ids() + s.right.Ids()
  {
    PlugIds(k, s);
    PlugIds(k, s.right.Paint(false));
  }

  /** The part of the replacement below the successor when that is not the right child itself. */
  lemma ReplacedRight(m: Memory, m': Memory, root: Ptr, root': Ptr, c: Ctx, t: Tree, k: Ctx, s: Tree)
    requires Zip(m, root, c, t) && SuccessorPath(t, k, s) && k.Step?
    requires Replaced(m, m', root, root', c, t, k, s)
    ensures Rep(m', s.id, RightPart(k, s)) && RightPart(k, s).Distinct()
    ensures k.Distinct() && s.Distinct() && k.Ids() !! s.Ids()
  {
    var top, x := t.right.id, s.right.Paint(false);
    var m0 := m[top := m[top].(parent := NULL)];
    var m1 := m'[top := m'[top].(parent := NULL)];
    assert Rep(m, t.id, t.right);
    RepReparent(m, m0, t.right, NULL, t.right.red);
    assert Zip(m0, top, Top, t.right);
    ZipPlug(m0, top, k, s);
    PlugRoot(k, s, x);
    PlugIds(k, s);
    StandaloneFrames(m, m', root, root', c, t, k, s, m0, m1);
    CtxRedirect(m0, m1, top, top, k, s.id, x.Root());
    RepReparent(m0, m1, s.right, k.id, false);
    assert Zip(m1, top, k, x);
    ZipPlug(m1, top, k, x);
    RepReparent(m1, m', RightPart(k, s), s.id, RightPart(k, s).red);
  }

  lemma StandaloneFrames(m: Memory, m': Memory, root: Ptr, root': Ptr, c: Ctx, t: Tree, k: Ctx, s: Tree, m0: Memory,
                         m1: Memory)
    requires Zip(m, root, c, t) && SuccessorPath(t, k, s) && k.Step?
    requires Replaced(m, m', root, root', c, t, k, s)
    requires var top := t.right.id; m0 == m[top := m[top].(parent := NULL)] && m1 == m'[top := m'[top].(parent := NULL)]
    requires k.Distinct() && s.Distinct() && k.Ids() !! s.Ids() && t.right.id in k.Ids()
    requires CtxRep(m0, t.right.id, k, s.id) && Rep(m0, k.id, s) && Rep(m0, s.id, s.right)
    requires t.right.Ids() == k.Ids() + s.Ids()
    ensures Redirected(m0, m1, t.right.id, t.right.id, k, s.right.Root())
    ensures Agree(m0, m1, k.Ids() - {k.id})
    ensures s.right.Node? ==>
              s.right.id in m0 && s.right.id in m1 && m1[s.right.id] == m0[s.right.id].(parent := k.id, red := false)
    ensures Agree(m0, m1, s.right.Ids() - {s.right.Root()})
  {
    RepRoot(m0, s.id, s.right);
    CtxRoot(m, root, c, t.id);
    RepRoot(m, t.id, t.right);
    assert t.left.id in t.left.Ids() && t.left.id !in t.right.Ids();
    assert c.Step? ==> c.Root() in c.Ids();
    assert c.Root() !in t.right.Ids();
    assert s.right.Node? ==> s.right.id in s.right.Ids();
    assert s.id !in k.Ids() && s.id !in s.right.Ids();
    var top, l, child2 := t.right.id, t.left.id, s.right.Root();
    AgreeOn6(m, m', s.id, top, l, child2, k.id, c.Root(), k.Ids() - {k.id, top});
    AgreeOn6(m, m', s.id, top, l, child2, k.id, c.Root(), s.right.Ids() - {child2});
  }

  lemma ReplacedZip(m: Memory, m': Memory, root: Ptr, root': Ptr, c: Ctx, t: Tree, k: Ctx, s: Tree)
    requires Zip(m, root, c, t) && SuccessorPath(t, k, s)
    requires Replaced(m, m', root, root', c, t, k, s)
    ensures Zip(m', root', c, Node(t.left, s.id, t.red, RightPart(k, s)))
  {
    if k.Step? {
      ReplacedRight(m, m', root, root', c, t, k, s);
      PlugRoot(k, s, s.right.Paint(false));
    }
    ReplacedIds(c, t, k, s);
    ReplacedFrames(m, m', root, root', c, t, k, s);
    assert Rep(m, t.id, t.left) && Rep(m, t.id, t.right);
    RepRoot(m, t.id, t.right);
    RepReparent(m, m', t.left, s.id, t.left.red);
    CtxRedirect(m, m', root, root', c, t.id, s.id);
    if k.Top? {
      assert Rep(m, s.id, s.right);
      RepReparent(m, m', s.right, s.id, false);
    }
  }

  lemma ReplacedFrames(m: Memory, m': Memory, root: Ptr, root': Ptr, c: Ctx, t: Tree, k: Ctx, s: Tree)
    requires Zip(m, root, c, t) && SuccessorPath(t, k, s)
    requires Replaced(m, m', root, root', c, t, k, s)
    requires t.right.Ids() == k.Ids() + {s.id} + s.right.Ids() && s.id !in s.right.Ids()
    ensures Agree(m, m', t.left.Ids() - {t.left.id})
    ensures Agree(m, m', c.Ids() - {c.Root()})
    ensures k.Top? ==> Agree(m, m', s.right.Ids() - {s.right.Root()})
  {
    RepRoot(m, t.id, t.left);
    RepRoot(m, t.id, t.right);
    CtxRoot(m, root, c, t.id);
    assert k.Step? ==> k.id in k.Ids();
    assert s.right.Node? ==> s.right.id in s.right.Ids();
    assert c.Step? ==> c.id in c.Ids();
    var top, l, child2 := t.right.id, t.left.id, s.right.Root();
    AgreeOn6(m, m', s.id, top, l, child2, k.Root(), c.Root(), t.left.Ids() - {l});
    AgreeOn6(m, m', s.id, top, l, child2, k.Root(), c.Root(), c.Ids() - {c.Root()});
    if k.Top? {
      assert s == t.right;
      AgreeOn6(m, m', s.id, top, l, child2, k.Root(), c.Root(), s.right.Ids() - {child2});
    }
  }

  lemma ReplacedColours(c: Ctx, t: Tree, k: Ctx, s: Tree, rebalance: Ptr)
    requires SuccessorPath(t, k, s)
    requires Graft(k, Step(c, t.id, t.red, R, t.left)).RedBlack(s.BlackHeight()) && s.RedBlack()
    requires s.IsRed() ==> !Graft(k, Step(c, t.id, t.red, R, t.left)).red
    requires s.id != NULL && (k.Step? ==> k.id != NULL)
    requires rebalance == if s.right.Leaf? && !s.red then (if k.Top? then s.id else k.id) else NULL
    ensures ErasedColours(rebalance, Graft(k, Step(c, s.id, t.red, R, t.left)), s.right.Paint(false))
  {
    GraftRenamed(k, c, t.id, s.id, t.red, R, t.left, s.BlackHeight());
    assert s.right.Node? ==> s.right.red && !s.red;
  }

  lemma SuccessorColours(c: Ctx, t: Tree, k: Ctx, s: Tree)
    requires SuccessorPath(t, k, s) && t.RedBlack() && c.RedBlack(t.BlackHeight()) && (t.IsRed() ==> c.Step? && !c.red)
    ensures Graft(k, Step(c, t.id, t.red, R, t.left)).RedBlack(s.BlackHeight()) && s.RedBlack()
    ensures s.IsRed() ==> !Graft(k, Step(c, t.id, t.red, R, t.left)).red
  {
    var b := Step(c, t.id, t.red, R, t.left);
    GraftPlug(map[], NULL, k, b, s);
    assert b.Plug(t.right) == c.Plug(t);
    PlugRedBlack(c, t);
    UnplugRedBlack(Graft(k, b), s);
  }

  lemma ReplacedInOrder(c: Ctx, t: Tree, k: Ctx, s: Tree)
    requires SuccessorPath(t, k, s)
    ensures var c' := Graft(k, Step(c, s.id, t.red, R, t.left));
            (c'.Before() + s.right.Paint(false).InOrder() + c'.After()
               == c.Before() + (t.left.InOrder() + t.right.InOrder()) + c.After())
  {
    hide Tree.InOrder, Ctx.Before, Ctx.After, Ctx.Plug;
    var x := s.right.Paint(false);
    var c', b := Graft(k, Step(c, s.id, t.red, R, t.left)), Step(c, s.id, t.red, R, t.left);
    GraftPlug(map[], NULL, k, b, x);
    PlugInOrder(c', x);
    PlugInOrder(b, k.Plug(x));
    SuccessorFirst(t, k, s);
    RightStep(c, t.left, s.id, t.red, k.Plug(x));
    Spliced(c.Before(), t.left.InOrder(), s.id, k.Plug(x).InOrder(), c.After());
  }

  /** The successor comes first in the right subtree. */
  lemma SuccessorFirst(t: Tree, k: Ctx, s: Tree)
    requires SuccessorPath(t, k, s)
    ensures t.right.InOrder() == [s.id] + k.Plug(s.right.Paint(false)).InOrder()
  {
    hide Ctx.Plug;
    var x := s.right.Paint(false);
    assert x.InOrder() == s.right.InOrder();
    PlugInOrder(k, x);
    PlugInOrder(k, s);
    assert s.InOrder() == [s.id] + x.InOrder();
  }

  lemma RightStep(c: Ctx, left: Tree, id: Ptr, red: bool, x: Tree)
    ensures var b := Step(c, id, red, R, left);
            b.Before() == c.Before() + left.InOrder() + [id] && b.After() == c.After()
  {
  }

  lemma Spliced(a: seq<Ptr>, l: seq<Ptr>, x: Ptr, r: seq<Ptr>, b: seq<Ptr>)
    ensures (a + l + [x]) + r + b == a + (l + ([x] + r)) + b
  {
  }

  ghost predicate ReplaceFacts(m: Memory, c: Ctx, t: Tree, k: Ctx, s: Tree)
    requires t.Node? && t.left.Node? && t.right.Node? && s.Node?
  {
    var child2, top, l := s.right.Root(), t.right.id, t.left.id;
    && {s.id, l, top, t.id} <= m.Keys && s.id != t.id && s.id != l && l != t.id && top != t.id && top != l
    && m[t.id].left == l && m[t.id].right == top && m[t.id].parent == c.Root() && m[t.id].red == t.red
    && m[s.id].right == child2 && m[s.id].left == NULL && m[s.id].red == s.red
    && (child2 == NULL <==> s.right.Leaf?)
    && (child2 != NULL ==>
          && child2 in m && child2 != s.id && child2 != l && child2 != t.id && child2 != top
          && child2 != k.Root() && child2 != c.Root())
    && (k.Top? <==> top == s.id)
    && (k.Step? ==> k.id in m && k.id != s.id && k.id != l && k.id != t.id && k.id != c.Root() && k.id != NULL)
    && c.Root() != s.id && c.Root() != top && c.Root() != l && c.Root() != t.id
    && s.id != NULL && l != NULL && top != NULL
    && HoleLink(m, c, t.id)
  }

  /** The nodes involved are distinct, and their records are where the pointers lead. */
  lemma ReplaceReady(m: Memory, root: Ptr, c: Ctx, t: Tree, k: Ctx, s: Tree)
    requires Zip(m, root, c, t) && SuccessorPath(t, k, s)
    requires Zip(m, root, Graft(k, Step(c, t.id, t.red, R, t.left)), s)
    ensures ReplaceFacts(m, c, t, k, s)
  {
    var b := Step(c, t.id, t.red, R, t.left);
    GraftIds(k, b);
    RepRoot(m, t.id, t.left);
    RepRoot(m, t.id, t.right);
    assert Rep(m, s.id, s.right);
    RepRoot(m, s.id, s.right);
    CtxRoot(m, root, Graft(k, b), s.id);
    CtxRoot(m, root, c, t.id);
    HoleLinked(m, root, c, t.id);
    PlugIds(k, s);
    if k.Step? { PlugRoot(k, s, s); }
    assert c.Step? ==> c.id in c.Ids();
    assert s.id in s.Ids() && t.right.id in t.right.Ids() && t.left.id in t.left.Ids();
  }

  /** The outcome of the replacement, focused on the successor's old place. */
  lemma SuccessorPlaced(m: Memory, m': Memory, root: Ptr, root': Ptr, c: Ctx, t: Tree, k: Ctx, s: Tree, rebalance: Ptr)
    requires Zip(m, root, c, t) && SuccessorPath(t, k, s)
    requires Zip(m, root, Graft(k, Step(c, t.id, t.red, R, t.left)), s)
    requires Replaced(m, m', root, root', c, t, k, s)
    requires t.RedBlack() && c.RedBlack(t.BlackHeight()) && (t.IsRed() ==> c.Step? && !c.red)
    requires rebalance == if s.right.Leaf? && !s.red then (if k.Top? then s.id else k.id) else NULL
    ensures Zip(m', root', Graft(k, Step(c, s.id, t.red, R, t.left)), s.right.Paint(false))
    ensures Zip(m', root', Step(c, s.id, t.red, R, t.left), RightPart(k, s))
    ensures ErasedColours(rebalance, Graft(k, Step(c, s.id, t.red, R, t.left)), s.right.Paint(false))
    ensures k.Distinct() && s.Distinct() && k.Ids() !! s.Ids()
  {
    var base := Step(c, s.id, t.red, R, t.left);
    SuccessorColours(c, t, k, s);
    ReplaceReady(m, root, c, t, k, s);
    ReplacedZip(m, m', root, root', c, t, k, s);
    ReplacedColours(c, t, k, s, rebalance);
    ZipStep(m', root', c, s.id, t.red, R, RightPart(k, s), t.left);
    GraftPlug(m', root', k, base, s.right.Paint(false));
    GraftIds(k, Step(c, t.id, t.red, R, t.left));
  }

  // ----- the augmentation

  /** The augmented pieces around the successor's old place. */
  lemma CopyPieces(v: Values, aug: Values, c: Ctx, t: Tree, k: Ctx, s: Tree)
    requires SuccessorPath(t, k, s) && ZipAugmented(v, aug, c, t)
    ensures Augmented(v, aug, s.right) && Augmented(v, aug, t.left) && CtxAugmented(v, aug, c, Val(aug, t.id))
    ensures k.Step? ==> Augmented(v, aug, k.sibling) && CtxAugmented(v, aug, k.up, Val(aug, k.id))
  {
    ZipAugmentedPlug(v, aug, k, s);
    assert ZipAugmented(v, aug, Top, t.right);
  }

  /** After _copy, everything but the path to the successor's old place is up to date. */
  lemma CopiedAugmented(v: Values, aug: Values, aug': Values, c: Ctx, t: Tree, k: Ctx, s: Tree)
    requires SuccessorPath(t, k, s) && t.Distinct() && c.Distinct() && t.Ids() !! c.Ids()
    requires k.Distinct() && s.Distinct() && k.Ids() !! s.Ids()
    requires ZipAugmented(v, aug, c, t)
    requires aug' == aug[s.id := Val(aug, t.id)]
    ensures Augmented(v, aug', s.right.Paint(false)) && Augmented(v, aug', t.left)
    ensures CtxAugmented(v, aug', c, Val(aug', s.id))
    ensures k.Step? ==> Augmented(v, aug', k.sibling) && CtxAugmented(v, aug', k.up, Val(aug', k.id))
  {
    ReplacedIds(c, t, k, s);
    CopyPieces(v, aug, c, t, k, s);
    CopyFrames(v, aug, aug', c, t.left, k, s.id, s.right, Val(aug, t.id));
  }

  lemma CopyFrames(v: Values, aug: Values, aug': Values, c: Ctx, left: Tree, k: Ctx, s: Ptr, right: Tree, x: nat)
    requires Augmented(v, aug, right) && Augmented(v, aug, left) && CtxAugmented(v, aug, c, x)
    requires k.Step? ==> Augmented(v, aug, k.sibling) && CtxAugmented(v, aug, k.up, Val(aug, k.id))
    requires s !in right.Ids() && s !in left.Ids() && s !in c.Ids() && s !in k.Ids()
    requires aug' == aug[s := x]
    ensures Augmented(v, aug', right.Paint(false)) && Augmented(v, aug', left) && CtxAugmented(v, aug', c, x)
    ensures k.Step? ==> Augmented(v, aug', k.sibling) && CtxAugmented(v, aug', k.up, Val(aug', k.id))
  {
    AugmentedFrame1(v, aug, s, x, right);
    AugmentedFrame1(v, aug, s, x, left);
    CtxAugmentedFrame1(v, aug, s, x, c, x);
    if k.Step? {
      AugmentedFrame1(v, aug, s, x, k.sibling);
      CtxAugmentedFrame1(v, aug, s, x, k.up, Val(aug, k.id));
    }
  }

  /** After the first _propagate, which touched the nodes of `k` only. */
  lemma PropagatedAugmented(v: Values, aug: Values, aug': Values, c: Ctx, t: Tree, k: Ctx, s: Ptr)
    requires SameValues(aug, aug', c.Ids()) && SameValues(aug, aug', t.Ids())
    requires Val(aug', s) == Val(aug, s)
    requires Augmented(v, aug, t) && CtxAugmented(v, aug, c, Val(aug, s))
    ensures Augmented(v, aug', t) && CtxAugmented(v, aug', c, Val(aug', s))
  {
    AugmentedFrame(v, aug, aug', t);
    CtxAugmentedFrame(v, aug, aug', c, Val(aug, s));
  }

  /** Without callbacks nothing is claimed; with them, a propagated zipper is augmented. */
  lemma PropagatedZip(v: Values, aug: Values, c: Ctx, x: Tree)
    requires Augmented(v, aug, c.Plug(x))
    ensures ZipAugmented(v, aug, c, x)
  {
    ZipAugmentedPlug(v, aug, c, x);
  }

  // ----- moving along the order (rb_next, rb_prev)

  /** The node at the focus has this place in the order. */
  lemma PlaceInOrder(c: Ctx, t: Tree)
    requires t.Node?
    ensures var a := c.Before() + t.left.InOrder();
            c.Plug(t).InOrder() == a + [t.id] + (t.right.InOrder() + c.After())
  {
    PlugInOrder(c, t);
    Regroup(c.Before(), t.left.InOrder(), t.id, t.right.InOrder(), c.After());
  }

  lemma ChildCells(m: Memory, root: Ptr, c: Ctx, t: Tree)
    requires Zip(m, root, c, t) && t.Node?
    ensures t.id in m && m[t.id].left == t.left.Root() && m[t.id].right == t.right.Root() && m[t.id].parent == c.Root()
    ensures t.left.Root() == NULL <==> t.left.Leaf?
    ensures t.right.Root() == NULL <==> t.right.Leaf?
    ensures Zip(m, root, Step(c, t.id, t.red, L, t.right), t.left)
    ensures Zip(m, root, Step(c, t.id, t.red, R, t.left), t.right)
    ensures m[t.id].parent != t.id && t.id != NULL
  {
    ZipStep(m, root, c, t.id, t.red, L, t.left, t.right);
    ZipStep(m, root, c, t.id, t.red, R, t.right, t.left);
    RepRoot(m, t.id, t.left);
    RepRoot(m, t.id, t.right);
    CtxRoot(m, root, c, t.id);
  }

  lemma ParentCells(m: Memory, root: Ptr, c: Ctx, t: Tree)
    requires Zip(m, root, c, t) && t.Node?
    ensures c.Root() == NULL <==> c.Top?
    ensures c.Step? ==>
              && c.id in m
              && (m[c.id].right == t.id <==> c.side.R?) && (m[c.id].left == t.id <==> c.side.L?)
              && Zip(m, root, c.up, Mk(c.side, t, c.id, c.red, c.sibling))
  {
    CtxRoot(m, root, c, t.id);
    RepRoot(m, c.Root(), t);
    if c.Step? {
      ZipStep(m, root, c.up, c.id, c.red, c.side, t, c.sibling);
      RepRoot(m, c.id, c.sibling);
    }
  }
}
