/** The pure part of the proofs about __rb_insert and ____rb_erase_color (rbtree.c): what a rotation, a colour flip or
    a recolouring at the focus of a zipper does to the represented tree, its order, its black heights and its
    augmentation. */
module RbFixup {
  import opened KernelMath
  import opened RbShape


  /** Ready for the rotation that lifts `rise` over `down`: only the links the rotation keeps are constrained, so
      that it also serves in the middle of the double rotations, where the two nodes are not properly linked. */
  ghost predicate Rotatable(m: Memory, root: Ptr, c: Ctx, down: Ptr, rise: Ptr, e: Side, x: Tree, inner: Tree,
                            u: Tree) {
    && down != NULL && rise != NULL && down in m && rise in m
    && m[down].parent == c.Root() && m[down].Child(e.Flip()) == u.Root() && Rep(m, down, u)
    && m[rise].Child(e) == x.Root() && Rep(m, rise, x)
    && m[rise].Child(e.Flip()) == inner.Root() && Rep(m, rise, inner)
    && CtxRep(m, root, c, down)
    && Apart5(c, down, rise, x, inner, u)
  }

  /** Only the records of these four nodes may differ. */
  ghost predicate SameBut(m: Memory, m': Memory, p: Ptr, q: Ptr, r: Ptr, s: Ptr) {
    forall x :: x in m && x != p && x != q && x != r && x != s ==> x in m' && m'[x] == m[x]
  }

  lemma AgreeOn(m: Memory, m': Memory, p: Ptr, q: Ptr, r: Ptr, s: Ptr, ids: set<Ptr>)
    requires SameBut(m, m', p, q, r, s)
    requires p !in ids && q !in ids && r !in ids && s !in ids
    ensures Agree(m, m', ids)
  {
  }

  ghost predicate Apart5(c: Ctx, down: Ptr, rise: Ptr, x: Tree, inner: Tree, u: Tree) {
    && c.Distinct() && x.Distinct() && inner.Distinct() && u.Distinct()
    && down != rise
    && down !in c.Ids() && down !in x.Ids() && down !in inner.Ids() && down !in u.Ids()
    && rise !in c.Ids() && rise !in x.Ids() && rise !in inner.Ids() && rise !in u.Ids()
    && c.Ids() !! x.Ids() && c.Ids() !! inner.Ids() && c.Ids() !! u.Ids()
    && x.Ids() !! inner.Ids() && x.Ids() !! u.Ids() && inner.Ids() !! u.Ids()
  }

  /** The subtree after the rotation. */
  function Rotated(down: Ptr, rise: Ptr, e: Side, x: Tree, inner: Tree, u: Tree, downRed: bool, riseRed: bool): Tree {
    Mk(e, x, rise, riseRed, Mk(e.Flip(), u, down, downRed, inner))
  }

  lemma RotatedDistinct(c: Ctx, down: Ptr, rise: Ptr, e: Side, x: Tree, inner: Tree, u: Tree, downRed: bool,
                        riseRed: bool)
    requires Apart5(c, down, rise, x, inner, u)
    ensures var t := Rotated(down, rise, e, x, inner, u, downRed, riseRed); t.Distinct() && t.Ids() !! c.Ids()
  {
    var low := Mk(e.Flip(), u, down, downRed, inner);
    MkDistinct(e.Flip(), u, down, downRed, inner);
    MkDistinct(e, x, rise, riseRed, low);
  }

  /** `p` hangs in the hole of `c`, and the other child link of that parent leads elsewhere. */
  ghost predicate HoleLink(m: Memory, c: Ctx, p: Ptr) {
    c.Step? ==>
      && c.id != NULL && c.id in m && c.id != p
      && m[c.id].Child(c.side) == p && m[c.id].Child(c.side.Flip()) != p
  }

  lemma HoleLinked(m: Memory, root: Ptr, c: Ctx, p: Ptr)
    requires CtxRep(m, root, c, p) && p !in c.Ids() && p != NULL
    ensures HoleLink(m, c, p)
  {
    if c.Step? {
      RepRoot(m, c.id, c.sibling);
    }
  }

  /** What the pointer writes of a rotation rely on. */
  lemma RotateReady(m: Memory, root: Ptr, c: Ctx, down: Ptr, rise: Ptr, e: Side, x: Tree, inner: Tree, u: Tree)
    requires Rotatable(m, root, c, down, rise, e, x, inner, u)
    ensures m[rise].Child(e.Flip()) == inner.Root() && (inner.Root() == NULL <==> inner.Leaf?)
    ensures inner.Node? ==> inner.id in m && inner.id != down && inner.id != rise && inner.id != c.Root()
    ensures inner.Node? ==> m[inner.id].red == inner.red
    ensures HoleLink(m, c, down) && m[down].parent == c.Root()
    ensures down != NULL && c.Root() != down && c.Root() != rise && down != rise && down in m && rise in m
  {
    HoleLinked(m, root, c, down);
    RepRoot(m, rise, inner);
    CtxRoot(m, root, c, down);
  }

  lemma RotateZip(m: Memory, m': Memory, root: Ptr, root': Ptr, c: Ctx, down: Ptr, rise: Ptr, e: Side, x: Tree,
                  inner: Tree, u: Tree, innerRed: bool, downRed: bool)
    requires Rotatable(m, root, c, down, rise, e, x, inner, u)
    requires Redirected(m, m', root, root', c, rise)
    requires down in m' && m'[down] == m[down].SetChild(e, inner.Root()).(parent := rise, red := downRed)
    requires rise in m' && m'[rise] == m[rise].SetChild(e.Flip(), down).(parent := c.Root(), red := m[down].red)
    requires inner.Node? ==> inner.id in m' && m'[inner.id] == m[inner.id].(parent := down, red := innerRed)
    requires SameBut(m, m', down, rise, inner.Root(), c.Root())
    ensures Zip(m', root', c, Rotated(down, rise, e, x, inner.Paint(innerRed), u, downRed, m[down].red))
  {
    RotateFrames(m, m', root, c, down, rise, e, x, inner, u);
    RepReparent(m, m', inner, down, innerRed);
    CtxRedirect(m, m', root, root', c, down, rise);
    var i := inner.Paint(innerRed);
    RotatedDistinct(c, down, rise, e, x, i, u, downRed, m[down].red);
    MkRep(m', rise, e.Flip(), u, down, downRed, i);
    MkRep(m', c.Root(), e, x, rise, m[down].red, Mk(e.Flip(), u, down, downRed, i));
  }

  lemma RotateFrames(m: Memory, m': Memory, root: Ptr, c: Ctx, down: Ptr, rise: Ptr, e: Side, x: Tree, inner: Tree,
                     u: Tree)
    requires Rotatable(m, root, c, down, rise, e, x, inner, u)
    requires SameBut(m, m', down, rise, inner.Root(), c.Root())
    ensures Rep(m', rise, x) && Rep(m', down, u)
    ensures Agree(m, m', inner.Ids() - {inner.Root()}) && Agree(m, m', c.Ids() - {c.Root()})
  {
    RepRoot(m, rise, x);
    RepRoot(m, down, u);
    RepRoot(m, rise, inner);
    CtxRoot(m, root, c, down);
    var i, t := inner.Root(), c.Root();
    assert inner.Node? ==> i in inner.Ids();
    assert c.Step? ==> t in c.Ids();
    AgreeOn(m, m', down, rise, i, t, x.Ids());
    RepFrame(m, m', rise, x);
    AgreeOn(m, m', down, rise, i, t, u.Ids());
    RepFrame(m, m', down, u);
    AgreeOn(m, m', down, rise, i, t, inner.Ids() - {i});
    AgreeOn(m, m', down, rise, i, t, c.Ids() - {t});
  }

  /** The augmentation is right everywhere but at the two nodes of the rotation; `down` holds their maximum. */
  ghost predicate RotateAugmentable(v: Values, aug: Values, c: Ctx, down: Ptr, rise: Ptr, e: Side, x: Tree, inner: Tree,
                                    u: Tree) {
    && Augmented(v, aug, x) && Augmented(v, aug, inner) && Augmented(v, aug, u)
    && CtxAugmented(v, aug, c, Val(aug, down))
    && Val(aug, down) == MaxValue(v, Rotated(down, rise, e, x, inner, u, false, false))
  }

  lemma RotateAugmented(v: Values, aug: Values, aug': Values, c: Ctx, down: Ptr, rise: Ptr, e: Side, x: Tree,
                        inner: Tree, u: Tree, innerRed: bool, downRed: bool, riseRed: bool)
    requires Apart5(c, down, rise, x, inner, u)
    requires RotateAugmentable(v, aug, c, down, rise, e, x, inner, u)
    requires aug' == aug[rise := Val(aug, down)]
                        [down := Max(Val(v, down), Max(MaxValue(v, u), MaxValue(v, inner)))]
    ensures ZipAugmented(v, aug', c, Rotated(down, rise, e, x, inner.Paint(innerRed), u, downRed, riseRed))
  {
    var p, q := Val(aug, down), Max(Val(v, down), Max(MaxValue(v, u), MaxValue(v, inner)));
    AugmentedFrame2(v, aug, rise, p, down, q, x);
    AugmentedFrame2(v, aug, rise, p, down, q, inner);
    AugmentedFrame2(v, aug, rise, p, down, q, u);
    CtxAugmentedFrame2(v, aug, rise, p, down, q, c, Val(aug, down));
    var i := inner.Paint(innerRed);
    assert Augmented(v, aug', i) && MaxValue(v, i) == MaxValue(v, inner);
    var low := Mk(e.Flip(), u, down, downRed, i);
    MkAugmented(v, aug', e.Flip(), u, down, downRed, i);
    MkAugmented(v, aug', e, x, rise, riseRed, low);
    MkAugmented(v, aug, e.Flip(), u, down, false, inner);
    MkAugmented(v, aug, e, x, rise, false, Mk(e.Flip(), u, down, false, inner));
  }

  // ----- the inner rotation of an insertion

  lemma InnerReady(m: Memory, root: Ptr, c: Ctx, t: Tree, d: Side)
    requires Zip(m, root, c, t) && t.Node? && c.Step? && c.up.Step? && c.side == d.Flip()
    requires t.RedBlack() && t.red
    ensures t.Child(d).Root() == NULL <==> t.Child(d).Leaf?
    ensures t.Child(d).Node? ==> t.Child(d).id in m && !m[t.Child(d).id].red
    ensures {t.id, c.id, c.up.id} <= m.Keys
    ensures m[t.id].Child(d) == t.Child(d).Root() && m[t.id].parent == c.id && m[c.up.id].red == c.up.red
    ensures var b := t.Child(d).Root(); b != t.id && b != c.id && b != c.up.id && c.id != t.id
  {
    assert CtxRep(m, root, c.up, c.id) && c.up.Distinct();
    RepRoot(m, t.id, t.Child(d));
    RepRoot(m, c.Root(), t);
    CtxRoot(m, root, c, t.id);
  }

  ghost predicate LiftColours(c: Ctx, x: Tree, inner: Tree, u: Tree) {
    && x.RedBlack() && inner.RedBlack() && u.RedBlack()
    && x.IsRed() && !inner.IsRed() && !u.IsRed()
    && x.BlackHeight() == inner.BlackHeight() == u.BlackHeight() && c.RedBlack(u.BlackHeight() + 1)
  }

  lemma InnerHeights(c: Ctx, t: Tree, d: Side)
    requires t.Node? && t.RedBlack() && t.red && c.RedBlack(t.BlackHeight())
    requires c.Step? && c.red && c.up.Step? && c.up.side == d && c.side == d.Flip() && !c.up.sibling.IsRed()
    ensures var x, inner, u := Mk(d, c.sibling, c.id, true, t.Child(d)), t.Child(d.Flip()), c.up.sibling;
            LiftColours(c.up.up, x, inner, u)
  {
    MkRedBlack(d, c.sibling, c.id, true, t.Child(d));
    MkRedBlack(d, t.Child(d), t.id, true, t.Child(d.Flip()));
    assert c.up.RedBlack(c.sibling.BlackHeight());
  }

  lemma InnerApart(c: Ctx, t: Tree, d: Side)
    requires t.Distinct() && c.Distinct() && t.Ids() !! c.Ids()
    requires t.Node? && c.Step? && c.up.Step? && c.up.side == d && c.side == d.Flip()
    ensures Apart5(c.up.up, c.up.id, t.id, Mk(d, c.sibling, c.id, true, t.Child(d)), t.Child(d.Flip()), c.up.sibling)
  {
    assert c.up.Distinct() && c.up.up.Distinct();
    assert c.up.Ids() == c.up.up.Ids() + {c.up.id} + c.up.sibling.Ids();
    assert c.Ids() == c.up.Ids() + {c.id} + c.sibling.Ids();
    assert t == Mk(d, t.Child(d), t.id, t.red, t.Child(d.Flip()));
    MkDistinct(d, t.Child(d), t.id, t.red, t.Child(d.Flip()));
    MkDistinct(d, c.sibling, c.id, true, t.Child(d));
  }

  lemma InnerRotatable(m: Memory, m': Memory, root: Ptr, c: Ctx, t: Tree, d: Side)
    requires Zip(m, root, c, t) && t.Node?
    requires c.Step? && c.up.Step? && c.up.side == d && c.side == d.Flip()
    requires !t.Child(d).IsRed()
    requires t.id in m && t.id in m' && m'[t.id] == m[t.id].SetChild(d, c.id)
    requires c.id in m && c.id in m'
    requires m'[c.id] == m[c.id].SetChild(d.Flip(), t.Child(d).Root()).(parent := t.id, red := true)
    requires t.Child(d).Node? ==>
               && t.Child(d).id in m && t.Child(d).id in m'
               && m'[t.Child(d).id] == m[t.Child(d).id].(parent := c.id, red := false)
    requires SameBut(m, m', t.id, c.id, t.Child(d).Root(), c.id)
    ensures Rotatable(m', root, c.up.up, c.up.id, t.id, d, Mk(d, c.sibling, c.id, true, t.Child(d)),
                      t.Child(d.Flip()), c.up.sibling)
    ensures c.up.id in m && c.up.id in m' && m'[c.up.id] == m[c.up.id]
  {
    var a, b, u := t.Child(d), t.Child(d.Flip()), c.up.sibling;
    InnerApart(c, t, d);
    assert t == Mk(d, a, t.id, t.red, b);
    MkRep(m, c.id, d, a, t.id, t.red, b);
    MkDistinct(d, a, t.id, t.red, b);
    MkDistinct(d, c.sibling, c.id, true, a);
    assert CtxRep(m, root, c.up, c.id);
    assert CtxRep(m, root, c.up.up, c.up.id);
    RepRoot(m, t.id, a);
    RepRoot(m, t.id, b);
    RepRoot(m, c.id, c.sibling);
    RepRoot(m, c.up.id, u);
    CtxRoot(m, root, c.up, c.id);
    AgreeOn(m, m', t.id, c.id, a.Root(), c.id, b.Ids());
    RepFrame(m, m', t.id, b);
    AgreeOn(m, m', t.id, c.id, a.Root(), c.id, c.sibling.Ids());
    RepFrame(m, m', c.id, c.sibling);
    AgreeOn(m, m', t.id, c.id, a.Root(), c.id, u.Ids());
    RepFrame(m, m', c.up.id, u);
    AgreeOn(m, m', t.id, c.id, a.Root(), c.id, c.up.up.Ids());
    CtxFrame(m, m', root, c.up.up, c.up.id);
    AgreeOn(m, m', t.id, c.id, a.Root(), c.id, a.Ids() - {a.Root()});
    RepReparent(m, m', a, c.id, false);
    MkRep(m', t.id, d, c.sibling, c.id, true, a);
  }

  lemma InnerCompute(m: Memory, m': Memory, root: Ptr, c: Ctx, t: Tree, d: Side)
    requires Zip(m, root, c, t) && t.Node? && c.Step? && c.side == d.Flip()
    requires c.id in m && c.id in m'
    requires m'[c.id] == m[c.id].SetChild(d.Flip(), t.Child(d).Root()).(parent := t.id, red := true)
    ensures m'[c.id].Child(d) == c.sibling.Root() && m'[c.id].Child(d.Flip()) == t.Child(d).Root()
    ensures c.sibling.Root() == NULL <==> c.sibling.Leaf?
    ensures t.id != c.sibling.Root() && t.id != t.Child(d).Root()
  {
    RepRoot(m, c.id, c.sibling);
    RepRoot(m, c.id, t);
  }

  lemma InnerAugmented(v: Values, aug: Values, aug': Values, c: Ctx, t: Tree, d: Side)
    requires ZipAugmented(v, aug, c, t) && t.Node? && c.Step? && c.up.Step? && c.up.side == d && c.side == d.Flip()
    requires t.Distinct() && c.Distinct() && t.Ids() !! c.Ids()
    requires aug' == aug[t.id := Val(aug, c.id)]
                        [c.id := Max(Val(v, c.id), Max(MaxValue(v, c.sibling), MaxValue(v, t.Child(d))))]
    ensures RotateAugmentable(v, aug', c.up.up, c.up.id, t.id, d, Mk(d, c.sibling, c.id, true, t.Child(d)),
                              t.Child(d.Flip()), c.up.sibling)
  {
    var a, b, u, gc := t.Child(d), t.Child(d.Flip()), c.up.sibling, c.up.up;
    InnerApart(c, t, d);
    assert t == Mk(d, a, t.id, t.red, b);
    MkAugmented(v, aug, d, a, t.id, t.red, b);
    MkDistinct(d, a, t.id, t.red, b);
    MkDistinct(d, c.sibling, c.id, true, a);
    assert CtxAugmented(v, aug, c.up, Val(aug, c.id));
    var p, q := Val(aug, c.id), Max(Val(v, c.id), Max(MaxValue(v, c.sibling), MaxValue(v, a)));
    AugmentedFrame2(v, aug, t.id, p, c.id, q, a);
    AugmentedFrame2(v, aug, t.id, p, c.id, q, b);
    AugmentedFrame2(v, aug, t.id, p, c.id, q, u);
    AugmentedFrame2(v, aug, t.id, p, c.id, q, c.sibling);
    CtxAugmentedFrame2(v, aug, t.id, p, c.id, q, gc, Val(aug, c.up.id));
    var x := Mk(d, c.sibling, c.id, true, a);
    MkAugmented(v, aug', d, c.sibling, c.id, true, a);
    MkAugmented(v, aug', d.Flip(), u, c.up.id, false, b);
    MkAugmented(v, aug', d, x, t.id, false, Mk(d.Flip(), u, c.up.id, false, b));
    MaxInner(Val(v, t.id), Val(v, c.id), Val(v, c.up.id), MaxValue(v, a), MaxValue(v, b), MaxValue(v, c.sibling),
             MaxValue(v, u));
  }

  lemma MaxInner(n: nat, p: nat, g: nat, a: nat, b: nat, s: nat, u: nat)
    ensures Max(g, Max(Max(p, Max(Max(n, Max(a, b)), s)), u)) == Max(n, Max(Max(p, Max(s, a)), Max(g, Max(u, b))))
  {
  }

  // ----- the colour flip

  /** The subtree of the grandparent after the flip. */
  function Flipped(c: Ctx, t: Tree): Tree
    requires c.Step? && c.up.Step?
  {
    Mk(c.up.side, Mk(c.side, t, c.id, false, c.sibling), c.up.id, true, c.up.sibling.Paint(false))
  }

  lemma FlipReady(m: Memory, root: Ptr, c: Ctx, t: Tree)
    requires Zip(m, root, c, t) && c.Step? && c.up.Step? && c.up.sibling.Node?
    ensures c.id in m && c.up.id in m && c.up.sibling.id in m
    ensures c.id != c.up.id && c.id != c.up.sibling.id && c.up.id != c.up.sibling.id
    ensures m[c.up.sibling.id].parent == c.up.id && m[c.id].parent == c.up.id
  {
    assert CtxRep(m, root, c.up, c.id) && c.up.Distinct();
  }

  /** The pieces of the flipped subtree that keep their shape. */
  lemma FlipFrames(m: Memory, m': Memory, root: Ptr, c: Ctx, t: Tree)
    requires Zip(m, root, c, t) && c.Step? && c.up.Step? && c.up.sibling.Node?
    requires var u := c.up.sibling.id;
             && {c.id, c.up.id, u} <= m.Keys && c.id != u && c.id != c.up.id && u != c.up.id
             && m' == m[u := m[u].(red := false)][c.id := m[c.id].(red := false)][c.up.id := m[c.up.id].(red := true)]
    ensures Rep(m', c.id, t) && Rep(m', c.id, c.sibling) && Rep(m', c.up.id, c.up.sibling.Paint(false))
    ensures CtxRep(m', root, c.up.up, c.up.id)
  {
    hide Tree.RedBlack, Tree.InOrder;
    var u := c.up.sibling;
    assert CtxRep(m, root, c.up, c.id) && c.up.Distinct();
    assert c.up.Ids() <= c.Ids() && u.id in u.Ids();
    AgreeOn(m, m', c.id, c.up.id, u.id, u.id, t.Ids());
    RepFrame(m, m', c.id, t);
    AgreeOn(m, m', c.id, c.up.id, u.id, u.id, c.sibling.Ids());
    RepFrame(m, m', c.id, c.sibling);
    AgreeOn(m, m', c.id, c.up.id, u.id, u.id, u.Ids() - {u.id});
    RepReparent(m, m', u, c.up.id, false);
    AgreeOn(m, m', c.id, c.up.id, u.id, u.id, c.up.up.Ids());
    CtxFrame(m, m', root, c.up.up, c.up.id);
  }

  lemma FlipZip(m: Memory, m': Memory, root: Ptr, c: Ctx, t: Tree)
    requires Zip(m, root, c, t) && c.Step? && c.up.Step? && c.up.sibling.Node?
    requires var u := c.up.sibling.id;
             && {c.id, c.up.id, u} <= m.Keys && c.id != u && c.id != c.up.id && u != c.up.id
             && m' == m[u := m[u].(red := false)][c.id := m[c.id].(red := false)][c.up.id := m[c.up.id].(red := true)]
    ensures Zip(m', root, c.up.up, Flipped(c, t))
  {
    hide Tree.RedBlack, Tree.InOrder, Rep;
    FlipFrames(m, m', root, c, t);
    assert CtxRep(m, root, c.up, c.id) && c.up.Distinct();
    var p, u := Mk(c.side, t, c.id, false, c.sibling), c.up.sibling;
    MkRep(m', c.up.id, c.side, t, c.id, false, c.sibling);
    MkRep(m', c.up.up.Root(), c.up.side, p, c.up.id, true, u.Paint(false));
    MkDistinct(c.side, t, c.id, false, c.sibling);
    MkDistinct(c.up.side, p, c.up.id, true, u.Paint(false));
  }

  lemma FlipInOrder(c: Ctx, t: Tree)
    requires c.Step? && c.up.Step?
    ensures var c' := c.up.up;
            c'.Before() + Flipped(c, t).InOrder() + c'.After() == c.Before() + t.InOrder() + c.After()
  {
    var p := Mk(c.side, t, c.id, false, c.sibling);
    StepInOrder(c, t, false);
    StepInOrder(c.up, p, true);
    var u := c.up.sibling;
    assert Mk(c.up.side, p, c.up.id, true, u.Paint(false)).InOrder() == Mk(c.up.side, p, c.up.id, true, u).InOrder();
  }

  lemma FlipAugmented(v: Values, aug: Values, c: Ctx, t: Tree)
    requires ZipAugmented(v, aug, c, t) && c.Step? && c.up.Step?
    ensures ZipAugmented(v, aug, c.up.up, Flipped(c, t))
  {
    var p := Mk(c.side, t, c.id, false, c.sibling);
    assert CtxAugmented(v, aug, c.up, Val(aug, c.id));
    MkAugmented(v, aug, c.side, t, c.id, false, c.sibling);
    MkAugmented(v, aug, c.up.side, p, c.up.id, true, c.up.sibling.Paint(false));
  }

  /** What the links of the lowered node look like after a rotation. */
  lemma RotatedRoots(m: Memory, root: Ptr, c: Ctx, down: Ptr, rise: Ptr, e: Side, x: Tree, inner: Tree, u: Tree,
                     downRed: bool, riseRed: bool)
    requires Zip(m, root, c, Rotated(down, rise, e, x, inner, u, downRed, riseRed))
    ensures down in m && m[down].Child(e) == inner.Root() && m[down].Child(e.Flip()) == u.Root()
    ensures rise != inner.Root() && rise != u.Root()
    ensures inner.Root() == NULL <==> inner.Leaf?
    ensures u.Root() == NULL <==> u.Leaf?
  {
    var low := Mk(e.Flip(), u, down, downRed, inner);
    MkRep(m, rise, e.Flip(), u, down, downRed, inner);
    MkRep(m, c.Root(), e, x, rise, riseRed, low);
    MkDistinct(e.Flip(), u, down, downRed, inner);
    MkDistinct(e, x, rise, riseRed, low);
    RepRoot(m, down, inner);
    RepRoot(m, down, u);
  }

  // ----- reading the neighbourhood of the inserted node

  lemma ParentCell(m: Memory, root: Ptr, c: Ctx, t: Tree)
    requires Zip(m, root, c, t) && c.Root() != NULL
    ensures c.Step? && c.id in m && m[c.id].red == c.red && m[c.id].parent == c.up.Root()
  {
  }

  /** A red parent is not the root, so the grandparent exists, and it tells on which side the parent hangs. */
  lemma AboveRed(m: Memory, root: Ptr, c: Ctx, t: Tree)
    requires Zip(m, root, c, t) && t.Node? && c.Step? && c.red && c.RedBlack(t.BlackHeight())
    ensures c.up.Step? && c.id in m && m[c.id].parent == c.up.id && c.up.id in m
    ensures m[c.up.id].right != c.id <==> c.up.side.L?
    ensures var u := c.up.sibling;
            && m[c.up.id].Child(c.up.side.Flip()) == u.Root()
            && (u.Root() == NULL <==> u.Leaf?) && (u.Node? ==> u.id in m && m[u.id].red == u.red)
    ensures m[c.id].Child(c.up.side.Flip()) == t.id <==> c.side == c.up.side.Flip()
  {
    assert CtxRep(m, root, c.up, c.id) && c.up.Distinct();
    RepRoot(m, c.up.id, c.up.sibling);
    RepRoot(m, c.id, c.sibling);
    RepRoot(m, c.id, t);
  }

  lemma OuterRotatable(m: Memory, root: Ptr, c: Ctx, t: Tree, d: Side)
    requires Zip(m, root, c, t) && t.IsRed() && t.RedBlack() && c.RedBlack(t.BlackHeight())
    requires c.Step? && c.red && c.up.Step? && c.side == c.up.side == d && !c.up.sibling.IsRed()
    ensures Rotatable(m, root, c.up.up, c.up.id, c.id, d, t, c.sibling, c.up.sibling) && !m[c.up.id].red
    ensures LiftColours(c.up.up, t, c.sibling, c.up.sibling)
  {
    assert CtxRep(m, root, c.up, c.id) && CtxRep(m, root, c.up.up, c.up.id);
    assert c.up.Distinct() && c.up.up.Distinct();
    assert c.up.Ids() == c.up.up.Ids() + {c.up.id} + c.up.sibling.Ids();
    assert c.up.RedBlack(t.BlackHeight());
  }

  lemma OuterAugmented(v: Values, aug: Values, c: Ctx, t: Tree, d: Side)
    requires ZipAugmented(v, aug, c, t) && c.Step? && c.up.Step? && c.side == c.up.side == d
    ensures RotateAugmentable(v, aug, c.up.up, c.up.id, c.id, d, t, c.sibling, c.up.sibling)
  {
    assert CtxAugmented(v, aug, c.up, Val(aug, c.id));
    var low := Mk(d.Flip(), c.up.sibling, c.up.id, false, c.sibling);
    MkAugmented(v, aug, d.Flip(), c.up.sibling, c.up.id, false, c.sibling);
    MkAugmented(v, aug, d, t, c.id, false, low);
    MaxOuter(Val(v, c.id), Val(v, c.up.id), MaxValue(v, t), MaxValue(v, c.sibling), MaxValue(v, c.up.sibling));
  }

  lemma MaxOuter(p: nat, g: nat, t: nat, s: nat, u: nat)
    ensures Max(g, Max(Max(p, Max(t, s)), u)) == Max(p, Max(t, Max(g, Max(u, s))))
  {
  }

  lemma InnerInOrder(c: Ctx, t: Tree, d: Side)
    requires t.Node? && c.Step? && c.up.Step? && c.up.side == d && c.side == d.Flip()
    ensures c.up.up.Before()
          + Mk(d, Mk(d, Mk(d, c.sibling, c.id, true, t.Child(d)), t.id, true, t.Child(d.Flip())),
               c.up.id, false, c.up.sibling).InOrder()
          + c.up.up.After()
         == c.Before() + t.InOrder() + c.After()
  {
    var a, b, s, u := t.Child(d), t.Child(d.Flip()), c.sibling, c.up.sibling;
    assert t == Mk(d.Flip(), b, t.id, t.red, a);
    StepInOrder(c, t, true);
    var p := Mk(d.Flip(), t, c.id, true, s);
    StepInOrder(c.up, p, false);
    RotateInOrder(d.Flip(), b, t.id, a, c.id, s, true, true, t.red, true);
    assert Mk(d.Flip(), b, t.id, true, Mk(d, s, c.id, true, a)) == Mk(d, Mk(d, s, c.id, true, a), t.id, true, b);
  }

  // ----- the cases of the erase fix-up; `d` is the side of the hole and `e` the side of the sibling

  /** The subtree in the hole of `c` is one black node short. */
  ghost predicate Short(c: Ctx, t: Tree) {
    && c.Step? && t.RedBlack() && !t.IsRed() && c.RedBlack(t.BlackHeight() + 1)
  }

  /** The sibling exists and has black nodes enough for the cases that dereference its children. */
  lemma SiblingExists(m: Memory, root: Ptr, c: Ctx, t: Tree)
    requires Zip(m, root, c, t) && Short(c, t)
    ensures var s := c.sibling;
            && c.id in m && s.Node? && s.id in m && m[s.id].red == s.red && m[s.id].parent == c.id
            && m[c.id].Child(c.side.Flip()) == s.id && m[c.id].red == c.red && m[c.id].parent == c.up.Root()
            && (s.red ==> s.left.Node? && s.right.Node? && !c.red)
            && (m[c.id].right != t.Root() <==> c.side.L?)
  {
    RepRoot(m, c.id, t);
  }

  lemma Nephews(m: Memory, root: Ptr, c: Ctx, t: Tree, d: Side)
    requires Zip(m, root, c, t) && c.Step? && c.sibling.Node?
    ensures var s, n := c.sibling, c.sibling.Child(d);
            && s.id in m && m[s.id].Child(d) == n.Root() && (n.Root() == NULL <==> n.Leaf?)
            && (n.Node? ==> n.id in m && m[n.id].red == n.red && m[n.id].parent == s.id)
  {
    RepRoot(m, c.sibling.id, c.sibling.Child(d));
  }

  lemma SiblingRotatable(m: Memory, root: Ptr, c: Ctx, t: Tree)
    requires Zip(m, root, c, t) && c.Step? && c.sibling.Node?
    ensures var s, e := c.sibling, c.side.Flip();
            Rotatable(m, root, c.up, c.id, s.id, e, s.Child(e), s.Child(c.side), t)
  {
    var s, d := c.sibling, c.side;
    assert s == Mk(d, s.Child(d), s.id, s.red, s.Child(d.Flip()));
    MkRep(m, c.id, d, s.Child(d), s.id, s.red, s.Child(d.Flip()));
    MkDistinct(d, s.Child(d), s.id, s.red, s.Child(d.Flip()));
    assert c.Ids() == c.up.Ids() + {c.id} + s.Ids();
  }

  lemma SiblingAugmentable(v: Values, aug: Values, c: Ctx, t: Tree)
    requires ZipAugmented(v, aug, c, t) && c.Step? && c.sibling.Node?
    ensures var s, e := c.sibling, c.side.Flip();
            RotateAugmentable(v, aug, c.up, c.id, s.id, e, s.Child(e), s.Child(c.side), t)
  {
    var s, d := c.sibling, c.side;
    var near, far := s.Child(d), s.Child(d.Flip());
    MkAugmented(v, aug, d, near, s.id, s.red, far);
    MkAugmented(v, aug, d, t, c.id, false, near);
    MkAugmented(v, aug, d.Flip(), far, s.id, false, Mk(d, t, c.id, false, near));
    MaxSibling(Val(v, s.id), Val(v, c.id), MaxValue(v, t), MaxValue(v, near), MaxValue(v, far));
  }

  lemma MaxSibling(s: nat, p: nat, t: nat, n: nat, f: nat)
    ensures Max(p, Max(t, Max(s, Max(n, f)))) == Max(s, Max(f, Max(p, Max(t, n))))
  {
  }

  /** The context of the hole after case 1 has lifted the red sibling. */
  function LiftedCtx(c: Ctx): Ctx
    requires c.Step? && c.sibling.Node?
  {
    var s, d := c.sibling, c.side;
    Step(Step(c.up, s.id, c.red, d, s.Child(d.Flip())), c.id, true, d, s.Child(d).Paint(false))
  }

  lemma LiftedZip(m: Memory, root: Ptr, c: Ctx, t: Tree)
    requires c.Step? && c.sibling.Node?
    requires var s, d := c.sibling, c.side;
             Zip(m, root, c.up,
                 Rotated(c.id, s.id, d.Flip(), s.Child(d.Flip()), s.Child(d).Paint(false), t, true, c.red))
    ensures Zip(m, root, LiftedCtx(c), t)
  {
    var s, d := c.sibling, c.side;
    var x, i := s.Child(d.Flip()), s.Child(d).Paint(false);
    assert Mk(d.Flip(), x, s.id, c.red, Mk(d, t, c.id, true, i)) == Mk(d, Mk(d, t, c.id, true, i), s.id, c.red, x);
    ZipStep(m, root, c.up, s.id, c.red, d, Mk(d, t, c.id, true, i), x);
    ZipStep(m, root, Step(c.up, s.id, c.red, d, x), c.id, true, d, t, i);
  }

  lemma LiftedAugmented(v: Values, aug: Values, c: Ctx, t: Tree)
    requires c.Step? && c.sibling.Node?
    requires var s, d := c.sibling, c.side;
             ZipAugmented(v, aug, c.up,
                          Rotated(c.id, s.id, d.Flip(), s.Child(d.Flip()), s.Child(d).Paint(false), t, true, c.red))
    ensures ZipAugmented(v, aug, LiftedCtx(c), t)
  {
    var s, d := c.sibling, c.side;
    var x, i := s.Child(d.Flip()), s.Child(d).Paint(false);
    var low := Mk(d, t, c.id, true, i);
    MkAugmented(v, aug, d.Flip(), x, s.id, c.red, low);
    MkAugmented(v, aug, d, t, c.id, true, i);
  }

  lemma LiftedShort(c: Ctx, t: Tree)
    requires Short(c, t) && c.sibling.IsRed()
    ensures Short(LiftedCtx(c), t) && !LiftedCtx(c).sibling.IsRed() && LiftedCtx(c).red
    ensures LiftedCtx(c).Before() + t.InOrder() + LiftedCtx(c).After() == c.Before() + t.InOrder() + c.After()
  {
    var s, d := c.sibling, c.side;
    var x, i := s.Child(d.Flip()), s.Child(d);
    assert s == Mk(d, i, s.id, s.red, x) && i.Paint(false) == i;
    MkRedBlack(d, i, s.id, s.red, x);
    StepInOrder(c, t, false);
    StepInOrder(LiftedCtx(c), t, true);
    var low := Mk(d, t, c.id, true, i);
    StepInOrder(LiftedCtx(c).up, low, false);
    RotateInOrder(d.Flip(), x, s.id, i, c.id, t, false, true, s.red, false);
    assert Mk(d.Flip(), x, s.id, false, low) == Mk(d, low, s.id, false, x);
    assert Mk(d.Flip(), s, c.id, false, t) == Mk(d, t, c.id, false, s);
    assert Mk(d.Flip(), x, s.id, s.red, i) == s;
  }

  /** Case 2's result: the sibling painted red below a parent painted `red`. */
  function Recoloured(c: Ctx, t: Tree, red: bool): Tree
    requires c.Step?
  {
    Mk(c.side, t, c.id, red, c.sibling.Paint(true))
  }

  lemma RecolourZip(m: Memory, m': Memory, root: Ptr, c: Ctx, t: Tree, red: bool)
    requires Zip(m, root, c, t) && c.Step? && c.sibling.Node?
    requires c.id in m && c.sibling.id in m && c.sibling.id != c.id
    requires m' == m[c.sibling.id := m[c.sibling.id].(parent := c.id, red := true)][c.id := m[c.id].(red := red)]
    ensures Zip(m', root, c.up, Recoloured(c, t, red))
  {
    var s := c.sibling;
    AgreeOn(m, m', c.id, s.id, s.id, s.id, t.Ids());
    RepFrame(m, m', c.id, t);
    AgreeOn(m, m', c.id, s.id, s.id, s.id, s.Ids() - {s.id});
    RepReparent(m, m', s, c.id, true);
    AgreeOn(m, m', c.id, s.id, s.id, s.id, c.up.Ids());
    CtxFrame(m, m', root, c.up, c.id);
    MkRep(m', c.up.Root(), c.side, t, c.id, red, s.Paint(true));
    MkDistinct(c.side, t, c.id, red, s.Paint(true));
  }

  lemma RecolourFacts(v: Values, aug: Values, c: Ctx, t: Tree, red: bool)
    requires Short(c, t) && c.sibling.Node? && !c.sibling.red
    requires !c.sibling.left.IsRed() && !c.sibling.right.IsRed()
    ensures Recoloured(c, t, false).RedBlack() && Recoloured(c, t, false).BlackHeight() == t.BlackHeight() + 1
    ensures ZipAugmented(v, aug, c, t) ==> ZipAugmented(v, aug, c.up, Recoloured(c, t, red))
    ensures c.up.Before() + Recoloured(c, t, red).InOrder() + c.up.After() == c.Before() + t.InOrder() + c.After()
  {
    var s := c.sibling;
    MkRedBlack(c.side, t, c.id, false, s.Paint(true));
    MkAugmented(v, aug, c.side, t, c.id, red, s.Paint(true));
    StepInOrder(c, t, red);
    assert Mk(c.side, t, c.id, red, s.Paint(true)).InOrder() == Mk(c.side, t, c.id, red, s).InOrder();
  }

  // ----- cases 3 and 4

  /** Everything case 4 needs before it lifts `rise`, whose far child `x` still awaits its parent link and colour. */
  ghost predicate EraseColours(c: Ctx, downRed: bool, x: Tree, inner: Tree, u: Tree) {
    && x.Node? && x.Paint(false).RedBlack() && inner.RedBlack() && u.RedBlack() && !u.IsRed()
    && inner.BlackHeight() == u.BlackHeight() && x.Paint(false).BlackHeight() == u.BlackHeight() + 1
    && c.RedBlack(u.BlackHeight() + if downRed then 1 else 2)
    && (downRed ==> c.Step? && !c.red)
  }

  lemma Case4Colours(down: Ptr, rise: Ptr, e: Side, c: Ctx, downRed: bool, x: Tree, inner: Tree, u: Tree)
    requires EraseColours(c, downRed, x, inner, u)
    ensures var r := Rotated(down, rise, e, x.Paint(false), inner, u, false, downRed);
            && r.RedBlack() && c.RedBlack(r.BlackHeight()) && (r.IsRed() ==> c.Step? && !c.red)
  {
    var low := Mk(e.Flip(), u, down, false, inner);
    MkRedBlack(e.Flip(), u, down, false, inner);
    MkRedBlack(e, x.Paint(false), rise, downRed, low);
  }

  lemma FarNephewColours(c: Ctx, t: Tree)
    requires Short(c, t) && c.sibling.Node? && !c.sibling.red && c.sibling.Child(c.side.Flip()).IsRed()
    ensures var s, e := c.sibling, c.side.Flip(); EraseColours(c.up, c.red, s.Child(e), s.Child(c.side), t)
  {
    var s, d := c.sibling, c.side;
    assert s == Mk(d, s.Child(d), s.id, s.red, s.Child(d.Flip()));
    MkRedBlack(d, s.Child(d), s.id, s.red, s.Child(d.Flip()));
  }

  lemma FarNephewRotatable(m: Memory, m': Memory, root: Ptr, c: Ctx, t: Tree)
    requires Zip(m, root, c, t) && c.Step? && c.sibling.Node? && c.sibling.Child(c.side.Flip()).Node?
    requires var s, x := c.sibling, c.sibling.Child(c.side.Flip());
             x.id in m && m' == m[x.id := m[x.id].(parent := s.id, red := false)]
    ensures var s, e := c.sibling, c.side.Flip();
            && Rotatable(m', root, c.up, c.id, s.id, e, s.Child(e).Paint(false), s.Child(c.side), t)
            && c.id in m && m'[c.id] == m[c.id]
  {
    var s, d := c.sibling, c.side;
    var x, i := s.Child(d.Flip()), s.Child(d);
    SiblingRotatable(m, root, c, t);
    AgreeOn(m, m', x.id, x.id, x.id, x.id, x.Ids() - {x.id});
    RepReparent(m, m', x, s.id, false);
    assert x.id in x.Ids();
    AgreeOn(m, m', x.id, x.id, x.id, x.id, i.Ids());
    RepFrame(m, m', s.id, i);
    AgreeOn(m, m', x.id, x.id, x.id, x.id, t.Ids());
    RepFrame(m, m', c.id, t);
    AgreeOn(m, m', x.id, x.id, x.id, x.id, c.up.Ids());
    CtxFrame(m, m', root, c.up, c.id);
  }

  lemma NearReady(m: Memory, root: Ptr, c: Ctx, t: Tree)
    requires Zip(m, root, c, t) && Short(c, t) && c.sibling.Node? && c.sibling.Child(c.side).IsRed()
    ensures var s, n, e := c.sibling, c.sibling.Child(c.side), c.side.Flip();
            && {c.id, s.id, n.id} <= m.Keys && c.id != s.id && c.id != n.id && s.id != n.id
            && m[n.id].Child(e) == n.Child(e).Root()
            && (n.Child(e).Root() == NULL <==> n.Child(e).Leaf?)
            && (n.Child(e).Node? ==>
                  n.Child(e).id in m && n.Child(e).id != c.id && n.Child(e).id != s.id && n.Child(e).id != n.id)
            && n.Root() != n.Child(e).Root()
            && s.Child(e).Root() != n.id && (s.Child(e).Root() == NULL <==> s.Child(e).Leaf?)
            && m[s.id].Child(e) == s.Child(e).Root()
  {
    var s, d := c.sibling, c.side;
    var n, sr := s.Child(d), s.Child(d.Flip());
    assert s == Mk(d, n, s.id, s.red, sr);
    MkRep(m, c.id, d, n, s.id, s.red, sr);
    MkDistinct(d, n, s.id, s.red, sr);
    RepRoot(m, n.id, n.Child(d.Flip()));
    RepRoot(m, s.id, sr);
    RepRoot(m, c.id, s);
  }

  /** The far subtree handed to case 4: the old sibling, now below the near nephew. */
  function NearFar(c: Ctx): Tree
    requires c.Step? && c.sibling.Node? && c.sibling.Child(c.side).Node?
  {
    var s, d := c.sibling, c.side;
    Mk(d, s.Child(d).Child(d.Flip()), s.id, false, s.Child(d.Flip()))
  }

  lemma NearApart(c: Ctx, t: Tree)
    requires t.Distinct() && c.Distinct() && t.Ids() !! c.Ids()
    requires c.Step? && c.sibling.Node? && c.sibling.Child(c.side).Node?
    ensures var n := c.sibling.Child(c.side); Apart5(c.up, c.id, n.id, NearFar(c), n.Child(c.side), t)
  {
    var s, d := c.sibling, c.side;
    var n, sr := s.Child(d), s.Child(d.Flip());
    var a, b := n.Child(d), n.Child(d.Flip());
    assert s == Mk(d, n, s.id, s.red, sr) && n == Mk(d, a, n.id, n.red, b);
    MkDistinct(d, n, s.id, s.red, sr);
    MkDistinct(d, a, n.id, n.red, b);
    MkDistinct(d, b, s.id, false, sr);
    assert c.Ids() == c.up.Ids() + {c.id} + s.Ids();
  }

  lemma NearRotatable(m: Memory, m': Memory, root: Ptr, c: Ctx, t: Tree)
    requires Zip(m, root, c, t) && c.Step? && c.sibling.Node? && c.sibling.Child(c.side).Node?
    requires !c.sibling.Child(c.side).Child(c.side.Flip()).IsRed()
    requires var s, n, d, e := c.sibling, c.sibling.Child(c.side), c.side, c.side.Flip();
             var b := n.Child(e);
             && {c.id, s.id, n.id} <= m.Keys && {c.id, s.id, n.id} <= m'.Keys
             && m'[s.id] == m[s.id].SetChild(d, b.Root()).(parent := n.id, red := false)
             && m'[n.id] == m[n.id].SetChild(e, s.id)
             && m'[c.id] == m[c.id].SetChild(e, n.id)
             && (b.Node? ==> b.id in m && b.id in m' && m'[b.id] == m[b.id].(parent := s.id, red := false))
             && SameBut(m, m', c.id, s.id, n.id, b.Root())
    ensures var n := c.sibling.Child(c.side);
            Rotatable(m', root, c.up, c.id, n.id, c.side.Flip(), NearFar(c), n.Child(c.side), t)
  {
    var s, d := c.sibling, c.side;
    var n, sr := s.Child(d), s.Child(d.Flip());
    var a, b := n.Child(d), n.Child(d.Flip());
    NearApart(c, t);
    NearPrepared(m, root, c, t);
    NearFrames(m, m', root, c, t, s.id, n.id, a, b, sr);
    RepReparent(m, m', b, s.id, false);
    MkRep(m', n.id, d, b, s.id, false, sr);
  }

  /** The pieces case 3 takes apart. */
  lemma NearPrepared(m: Memory, root: Ptr, c: Ctx, t: Tree)
    requires Zip(m, root, c, t) && c.Step? && c.sibling.Node? && c.sibling.Child(c.side).Node?
    ensures var s, n, d, e := c.sibling, c.sibling.Child(c.side), c.side, c.side.Flip();
            var a, b, sr := n.Child(d), n.Child(e), s.Child(e);
            && {c.id, s.id, n.id} <= m.Keys && c.id != NULL && n.id != NULL && s.id != NULL
            && m[s.id].Child(e) == sr.Root() && m[n.id].Child(d) == a.Root() && m[c.id].Child(d) == t.Root()
            && m[c.id].parent == c.up.Root() && (b.Node? ==> Body(m, b))
            && Rep(m, c.id, t) && CtxRep(m, root, c.up, c.id) && Rep(m, n.id, a) && Rep(m, n.id, b) && Rep(m, s.id, sr)
            && b.Distinct() && a.Ids() !! b.Ids() && b.Ids() !! sr.Ids() && b.Ids() !! t.Ids() && b.Ids() !! c.up.Ids()
            && a.Ids() !! sr.Ids() && a.Ids() !! t.Ids() && a.Ids() !! c.up.Ids()
            && Free(c.id, s.id, n.id, a) && Free(c.id, s.id, n.id, b) && Free(c.id, s.id, n.id, sr)
            && Free(c.id, s.id, n.id, t) && c.id !in c.up.Ids() && s.id !in c.up.Ids() && n.id !in c.up.Ids()
            && s.id != c.id && n.id != c.id && s.id != n.id
  {
    var s, d := c.sibling, c.side;
    var n, sr := s.Child(d), s.Child(d.Flip());
    var a, b := n.Child(d), n.Child(d.Flip());
    assert s == Mk(d, n, s.id, s.red, sr) && n == Mk(d, a, n.id, n.red, b);
    MkDistinct(d, n, s.id, s.red, sr);
    MkDistinct(d, a, n.id, n.red, b);
    MkRep(m, c.id, d, n, s.id, s.red, sr);
    MkRep(m, s.id, d, a, n.id, n.red, b);
  }

  ghost predicate Free(p: Ptr, q: Ptr, r: Ptr, t: Tree) {
    p !in t.Ids() && q !in t.Ids() && r !in t.Ids()
  }

  lemma NearFrames(m: Memory, m': Memory, root: Ptr, c: Ctx, t: Tree, s: Ptr, n: Ptr, a: Tree, b: Tree, sr: Tree)
    requires c.Step? && Rep(m, c.id, t) && CtxRep(m, root, c.up, c.id)
    requires Rep(m, n, a) && Rep(m, n, b) && Rep(m, s, sr)
    requires a.Ids() !! b.Ids() && a.Ids() !! sr.Ids() && a.Ids() !! t.Ids() && a.Ids() !! c.up.Ids()
    requires b.Ids() !! sr.Ids() && b.Ids() !! t.Ids() && b.Ids() !! c.up.Ids()
    requires Free(c.id, s, n, a) && Free(c.id, s, n, b) && Free(c.id, s, n, sr) && Free(c.id, s, n, t)
    requires c.id !in c.up.Ids() && s !in c.up.Ids() && n !in c.up.Ids()
    requires SameBut(m, m', c.id, s, n, b.Root())
    ensures Rep(m', c.id, t) && CtxRep(m', root, c.up, c.id) && Rep(m', n, a) && Rep(m', s, sr)
    ensures Agree(m, m', b.Ids() - {b.Root()})
  {
    var r := b.Root();
    RepRoot(m, n, a);
    RepRoot(m, n, b);
    RepRoot(m, s, sr);
    RepRoot(m, c.id, t);
    CtxRoot(m, root, c.up, c.id);
    assert b.Node? ==> r in b.Ids();
    AgreeOn(m, m', c.id, s, n, r, a.Ids());
    RepFrame(m, m', n, a);
    AgreeOn(m, m', c.id, s, n, r, sr.Ids());
    RepFrame(m, m', s, sr);
    AgreeOn(m, m', c.id, s, n, r, t.Ids());
    RepFrame(m, m', c.id, t);
    AgreeOn(m, m', c.id, s, n, r, c.up.Ids());
    CtxFrame(m, m', root, c.up, c.id);
    AgreeOn(m, m', c.id, s, n, r, b.Ids() - {r});
  }

  lemma NearColours(c: Ctx, t: Tree)
    requires Short(c, t) && c.sibling.Node? && !c.sibling.red
    requires c.sibling.Child(c.side).IsRed() && !c.sibling.Child(c.side.Flip()).IsRed()
    ensures var n := c.sibling.Child(c.side);
            && EraseColours(c.up, c.red, NearFar(c), n.Child(c.side), t) && !n.Child(c.side.Flip()).IsRed()
  {
    var s, d := c.sibling, c.side;
    var n, sr := s.Child(d), s.Child(d.Flip());
    var a, b := n.Child(d), n.Child(d.Flip());
    assert s == Mk(d, n, s.id, s.red, sr) && n == Mk(d, a, n.id, n.red, b);
    MkRedBlack(d, n, s.id, s.red, sr);
    MkRedBlack(d, a, n.id, n.red, b);
    MkRedBlack(d, b, s.id, false, sr);
  }

  lemma NearAugmentable(v: Values, aug: Values, aug': Values, c: Ctx, t: Tree)
    requires ZipAugmented(v, aug, c, t) && c.Step? && c.sibling.Node? && c.sibling.Child(c.side).Node?
    requires t.Distinct() && c.Distinct() && t.Ids() !! c.Ids()
    requires var s, n, e := c.sibling, c.sibling.Child(c.side), c.side.Flip();
             aug' == aug[n.id := Val(aug, s.id)]
                        [s.id := Max(Val(v, s.id), Max(MaxValue(v, n.Child(e)), MaxValue(v, s.Child(e))))]
    ensures var n := c.sibling.Child(c.side);
            RotateAugmentable(v, aug', c.up, c.id, n.id, c.side.Flip(), NearFar(c), n.Child(c.side), t)
  {
    var s, d := c.sibling, c.side;
    var n, sr := s.Child(d), s.Child(d.Flip());
    var a, b := n.Child(d), n.Child(d.Flip());
    NearApart(c, t);
    assert s == Mk(d, n, s.id, s.red, sr) && n == Mk(d, a, n.id, n.red, b);
    MkDistinct(d, n, s.id, s.red, sr);
    MkDistinct(d, a, n.id, n.red, b);
    MkDistinct(d, b, s.id, false, sr);
    MkAugmented(v, aug, d, n, s.id, s.red, sr);
    MkAugmented(v, aug, d, a, n.id, n.red, b);
    var p, q := Val(aug, s.id), Max(Val(v, s.id), Max(MaxValue(v, b), MaxValue(v, sr)));
    AugmentedFrame2(v, aug, n.id, p, s.id, q, a);
    AugmentedFrame2(v, aug, n.id, p, s.id, q, b);
    AugmentedFrame2(v, aug, n.id, p, s.id, q, sr);
    AugmentedFrame2(v, aug, n.id, p, s.id, q, t);
    CtxAugmentedFrame2(v, aug, n.id, p, s.id, q, c.up, Val(aug, c.id));
    MkAugmented(v, aug', d, b, s.id, false, sr);
    MkAugmented(v, aug', d, t, c.id, false, a);
    MkAugmented(v, aug', d.Flip(), NearFar(c), n.id, false, Mk(d, t, c.id, false, a));
    MaxNear(Val(v, s.id), Val(v, n.id), Val(v, c.id), MaxValue(v, a), MaxValue(v, b), MaxValue(v, sr), MaxValue(v, t));
  }

  lemma MaxNear(s: nat, n: nat, p: nat, a: nat, b: nat, f: nat, t: nat)
    ensures Max(p, Max(t, Max(s, Max(Max(n, Max(a, b)), f)))) == Max(n, Max(Max(s, Max(b, f)), Max(p, Max(t, a))))
  {
  }

  lemma NearInOrder(c: Ctx, t: Tree)
    requires c.Step? && c.sibling.Node? && c.sibling.Child(c.side).Node?
    ensures var n, e := c.sibling.Child(c.side), c.side.Flip();
            (c.up.Before() + Mk(e, Mk(e, NearFar(c), n.id, false, n.Child(c.side)), c.id, false, t).InOrder()
               + c.up.After()) == c.Before() + t.InOrder() + c.After()
  {
    var s, d := c.sibling, c.side;
    var n, sr, e := s.Child(d), s.Child(d.Flip()), d.Flip();
    var a, b := n.Child(d), n.Child(e);
    assert s == Mk(d, n, s.id, s.red, sr) && n == Mk(d, a, n.id, n.red, b);
    StepInOrder(c, t, false);
    RotateInOrder(d, a, n.id, b, s.id, sr, false, false, n.red, s.red);
    assert Mk(d, a, n.id, false, Mk(e, sr, s.id, false, b)) == Mk(e, NearFar(c), n.id, false, a);
    assert Mk(d, t, c.id, false, s).InOrder() == Mk(e, Mk(e, NearFar(c), n.id, false, a), c.id, false, t).InOrder();
  }

  lemma NearPieces(v: Values, aug: Values, c: Ctx)
    requires c.Step? && c.sibling.Node? && Augmented(v, aug, c.sibling) && c.sibling.Child(c.side).Node?
    ensures Augmented(v, aug, c.sibling.Child(c.side).Child(c.side.Flip()))
    ensures Augmented(v, aug, c.sibling.Child(c.side.Flip()))
  {
    assert Augmented(v, aug, c.sibling.Child(c.side));
  }

  lemma RotateAugmentablePaint(v: Values, aug: Values, c: Ctx, down: Ptr, rise: Ptr, e: Side, x: Tree, inner: Tree,
                               u: Tree)
    requires RotateAugmentable(v, aug, c, down, rise, e, x, inner, u)
    ensures RotateAugmentable(v, aug, c, down, rise, e, x.Paint(false), inner, u)
  {
    var low := Mk(e.Flip(), u, down, false, inner);
    MkAugmented(v, aug, e, x, rise, false, low);
    MkAugmented(v, aug, e, x.Paint(false), rise, false, low);
  }
}
