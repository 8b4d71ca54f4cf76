/** The red-black trees of rbtree.c, rbtree.h and rbtree_augmented.h: pointer surgery on a node memory, with the
    represented tree as ghost state. The two mirrored branches of each fix-up loop are one branch with a direction. */
module RbTrees {
  import opened KernelMath
  import opened RbShape
  import opened RbFixup
  import opened RbErasure
  import opened RbLinking
  import opened Sequences

  class RbTree {
    /** Whether the augmented callbacks are in use, or the dummy ones of rbtree.c. */
    const augmented: bool
    var root: Ptr
    var leftmost: Ptr
    var mem: Memory
    /** The sort key of each node, and the scalar (RBCOMPUTE) the augmentation maximises. */
    var key: map<Ptr, int>
    var value: Values
    var aug: Values
    ghost var tree: Tree

    /** RB_ROOT_CACHED. */
    constructor (augmented: bool)
      ensures Valid() && Order() == [] && this.augmented == augmented
    {
      this.augmented := augmented;
      root, leftmost, mem, key, value, aug := NULL, NULL, map[], map[], map[], map[];
      tree := Leaf;
    }

    ghost predicate Holds(c: Ctx, t: Tree)
      reads this
    {
      Zip(mem, root, c, t) && (augmented ==> ZipAugmented(value, aug, c, t))
    }

    /** The nodes of the tree, in order. */
    ghost function Order(): seq<Ptr>
      reads this
    {
      tree.InOrder()
    }

    /** A red-black tree with consistent parent links, sorted by key, with the leftmost node cached and, if augmented,
        every subtree maximum up to date. */
    ghost predicate Valid()
      reads this
    {
      && Holds(Top, tree) && tree.RedBlack() && !tree.IsRed()
      && SortedBy(Order(), key)
      && leftmost == (if Order() == [] then NULL else Order()[0])
    }

    // ----- rbtree_augmented.h: callbacks and small helpers

    /** _compute_max without the final store. */
    function ComputeMax(n: Ptr): nat
      requires n in mem
      reads this
    {
      var max := Val(value, n);
      var max := if mem[n].left != NULL && Val(aug, mem[n].left) > max then Val(aug, mem[n].left) else max;
      if mem[n].right != NULL && Val(aug, mem[n].right) > max then Val(aug, mem[n].right) else max
    }

    lemma ComputeMaxIs(n: Ptr, d: Side, near: Tree, far: Tree)
      requires n in mem && mem[n].Child(d) == near.Root() && mem[n].Child(d.Flip()) == far.Root()
      requires near.Root() == NULL <==> near.Leaf?
      requires far.Root() == NULL <==> far.Leaf?
      requires near.Node? ==> Val(aug, near.id) == MaxValue(value, near)
      requires far.Node? ==> Val(aug, far.id) == MaxValue(value, far)
      ensures ComputeMax(n) == Max(Val(value, n), Max(MaxValue(value, near), MaxValue(value, far)))
    {
    }

    /** _rotate, or dummy_rotate. */
    method AugmentRotate(down: Ptr, rise: Ptr)
      requires down in mem
      modifies this`aug
      ensures !augmented ==> aug == old(aug)
      ensures augmented && rise != mem[down].left && rise != mem[down].right ==>
                aug == old(aug)[rise := Val(old(aug), down)][down := old(ComputeMax(down))]
    {
      if augmented {
        aug := aug[rise := Val(aug, down)];
        aug := aug[down := ComputeMax(down)];
      }
    }

    /** __rb_change_child. */
    method ChangeChild(old': Ptr, new': Ptr, parent: Ptr)
      requires parent == NULL || parent in mem
      modifies this`mem, this`root
      ensures parent == NULL ==> root == new' && mem == old(mem)
      ensures parent != NULL ==> root == old(root)
      ensures parent != NULL ==>
                mem == old(mem)[parent := if old(mem)[parent].left == old' then old(mem)[parent].(left := new')
                                          else old(mem)[parent].(right := new')]
    {
      if parent != NULL {
        if mem[parent].left == old' {
          mem := mem[parent := mem[parent].(left := new')];
        } else {
          mem := mem[parent := mem[parent].(right := new')];
        }
      } else {
        root := new';
      }
    }

    /** __rb_rotate_set_parents: `rise` takes over `down`'s parent and colour, `down` gets `rise` as its parent. */
    method RotateSetParents(down: Ptr, rise: Ptr, red: bool, ghost c: Ctx)
      requires down in mem && rise in mem && down != rise
      requires HoleLink(mem, c, down) && mem[down].parent == c.Root()
      requires down != NULL && c.Root() != down && c.Root() != rise
      modifies this`mem, this`root
      ensures Redirected(old(mem), mem, old(root), root, c, rise)
      ensures mem.Keys == old(mem).Keys
      ensures mem[down] == old(mem)[down].(parent := rise, red := red)
      ensures mem[rise] == old(mem)[rise].(parent := c.Root(), red := old(mem)[down].red)
      ensures SameBut(old(mem), mem, down, rise, rise, c.Root())
    {
      var parent := mem[down].parent;
      mem := mem[rise := mem[rise].(parent := parent, red := mem[down].red)];
      mem := mem[down := mem[down].(parent := rise, red := red)];
      ChangeChild(down, rise, parent);
    }

    /** The pointer writes of a rotation. */
    method RotateLinks(down: Ptr, rise: Ptr, e: Side, blacken: bool, red: bool, ghost c: Ctx, ghost inner: Ptr)
      requires down in mem && rise in mem && down != rise && down != NULL && c.Root() != down && c.Root() != rise
      requires HoleLink(mem, c, down) && mem[down].parent == c.Root()
      requires mem[rise].Child(e.Flip()) == inner
      requires inner != NULL ==>
                 inner in mem && inner != down && inner != rise && inner != c.Root()
      modifies this`mem, this`root
      ensures Redirected(old(mem), mem, old(root), root, c, rise)
      ensures mem.Keys == old(mem).Keys
      ensures mem[down] == old(mem)[down].SetChild(e, inner).(parent := rise, red := red)
      ensures mem[rise] == old(mem)[rise].SetChild(e.Flip(), down).(parent := c.Root(), red := old(mem)[down].red)
      ensures inner != NULL ==>
                mem[inner] == old(mem)[inner].(parent := down, red := if blacken then false else old(mem)[inner].red)
      ensures SameBut(old(mem), mem, down, rise, inner, c.Root())
    {
      var tmp := mem[rise].Child(e.Flip());
      mem := mem[down := mem[down].SetChild(e, tmp)];
      mem := mem[rise := mem[rise].SetChild(e.Flip(), down)];
      if tmp != NULL {
        mem := mem[tmp := mem[tmp].(parent := down, red := if blacken then false else mem[tmp].red)];
      }
      RotateSetParents(down, rise, red, c);
    }

    method RotatePointers(down: Ptr, rise: Ptr, e: Side, blacken: bool, red: bool, ghost c: Ctx, ghost x: Tree,
                          ghost inner: Tree, ghost u: Tree)
      requires Rotatable(mem, root, c, down, rise, e, x, inner, u)
      modifies this`mem, this`root
      ensures Zip(mem, root, c, Rotated(down, rise, e, x, inner.Paint(if blacken then false else inner.IsRed()), u,
                                        red, old(mem)[down].red))
    {
      ghost var m, r := mem, root;
      RotateReady(mem, root, c, down, rise, e, x, inner, u);
      RotateLinks(down, rise, e, blacken, red, c, inner.Root());
      RotateZip(m, mem, r, root, c, down, rise, e, x, inner, u, if blacken then false else inner.IsRed(), red);
    }

    /** The rotation shared by all fix-up cases: `rise`, the (future) `e` child of `down`, is lifted over it. */
    method Rotate(down: Ptr, rise: Ptr, e: Side, blacken: bool, red: bool, ghost c: Ctx, ghost x: Tree,
                  ghost inner: Tree, ghost u: Tree)
      requires Rotatable(mem, root, c, down, rise, e, x, inner, u)
      requires augmented ==> RotateAugmentable(value, aug, c, down, rise, e, x, inner, u)
      modifies this`mem, this`root, this`aug
      ensures Holds(c, Rotated(down, rise, e, x, inner.Paint(if blacken then false else inner.IsRed()), u,
                               red, old(mem)[down].red))
    {
      ghost var downRed, a := mem[down].red, aug;
      ghost var innerRed := if blacken then false else inner.IsRed();
      RotatePointers(down, rise, e, blacken, red, c, x, inner, u);
      RotatedRoots(mem, root, c, down, rise, e, x, inner.Paint(innerRed), u, red, downRed);
      if augmented {
        ComputeMaxIs(down, e.Flip(), u, inner.Paint(innerRed));
      }
      AugmentRotate(down, rise);
      if augmented {
        RotateAugmented(value, a, aug, c, down, rise, e, x, inner, u, innerRed, red, downRed);
      }
    }

    // ----- __rb_insert

    /** The fix-up is over: the zipper is a valid tree. */
    ghost method Settle(c: Ctx, t: Tree)
      requires Holds(c, t) && t.RedBlack() && c.RedBlack(t.BlackHeight())
      requires t.IsRed() ==> c.Step? && !c.red
      modifies this`tree
      ensures Holds(Top, tree) && tree.RedBlack() && !tree.IsRed()
      ensures tree.InOrder() == c.Before() + t.InOrder() + c.After()
    {
      tree := c.Plug(t);
      ZipPlug(mem, root, c, t);
      ZipAugmentedPlug(value, aug, c, t);
      PlugRedBlack(c, t);
      PlugInOrder(c, t);
    }

    /** Case 1: the uncle is red; flip the colours and go on at the grandparent. */
    method InsertCase1(node: Ptr, parent: Ptr, gparent: Ptr, uncle: Ptr, ghost c: Ctx, ghost t: Tree)
      returns (ghost c': Ctx, ghost t': Tree)
      requires Holds(c, t) && t.Node? && t.id == node
      requires t.RedBlack() && c.RedBlack(t.BlackHeight())
      requires c.Step? && c.red && c.up.Step? && c.id == parent && c.up.id == gparent
      requires c.up.sibling.IsRed() && c.up.sibling.id == uncle
      modifies this`mem
      ensures Holds(c', t') && t'.Node? && t'.id == gparent && t'.red
      ensures t'.RedBlack() && c'.RedBlack(t'.BlackHeight())
      ensures c' == c.up.up
      ensures c'.Before() + t'.InOrder() + c'.After() == c.Before() + t.InOrder() + c.After()
    {
      ghost var m := mem;
      c' := c.up.up;
      ghost var u := c.up.sibling;
      ghost var p := Mk(c.side, t, parent, false, c.sibling);
      t' := Mk(c.up.side, p, gparent, true, u.Paint(false));
      FlipReady(m, root, c, t);
      mem := mem[uncle := mem[uncle].(parent := gparent, red := false)];
      mem := mem[parent := mem[parent].(parent := gparent, red := false)];
      var gg := mem[gparent].parent;
      mem := mem[gparent := mem[gparent].(parent := gg, red := true)];
      FlipZip(m, mem, root, c, t);
      MkRedBlack(c.side, t, parent, false, c.sibling);
      MkRedBlack(c.up.side, p, gparent, true, u.Paint(false));
      FlipInOrder(c, t);
      if augmented {
        FlipAugmented(value, aug, c, t);
      }
    }

    /** `rise` is red with a red child below `e` and the uncle is black. */
    ghost predicate LiftReady(c: Ctx, down: Ptr, rise: Ptr, e: Side, x: Tree, inner: Tree, u: Tree)
      reads this
    {
      && Rotatable(mem, root, c, down, rise, e, x, inner, u) && !mem[down].red
      && (augmented ==> RotateAugmentable(value, aug, c, down, rise, e, x, inner, u))
      && LiftColours(c, x, inner, u)
    }

    method InnerLinks(node: Ptr, parent: Ptr, d: Side)
      requires node in mem && parent in mem && node != parent
      requires var tmp := mem[node].Child(d); tmp != NULL ==> tmp in mem && tmp != node && tmp != parent
      modifies this`mem
      ensures mem.Keys == old(mem).Keys
      ensures mem[node] == old(mem)[node].SetChild(d, parent)
      ensures mem[parent] == old(mem)[parent].SetChild(d.Flip(), old(mem)[node].Child(d)).(parent := node, red := true)
      ensures var tmp := old(mem)[node].Child(d);
              && (tmp != NULL ==> mem[tmp] == old(mem)[tmp].(parent := parent, red := false))
              && SameBut(old(mem), mem, node, parent, tmp, parent)
    {
      var tmp := mem[node].Child(d);
      mem := mem[parent := mem[parent].SetChild(d.Flip(), tmp)];
      mem := mem[node := mem[node].SetChild(d, parent)];
      if tmp != NULL {
        mem := mem[tmp := mem[tmp].(parent := parent, red := false)];
      }
      mem := mem[parent := mem[parent].(parent := node, red := true)];
    }

    /** Case 2: the node is an inner child; rotate it over its parent, leaving it to case 3 to link it upwards. */
    method InsertCase2(node: Ptr, parent: Ptr, gparent: Ptr, d: Side, ghost c: Ctx, ghost t: Tree)
      requires Holds(c, t) && t.Node? && t.id == node && t.red
      requires t.RedBlack() && c.RedBlack(t.BlackHeight())
      requires c.Step? && c.red && c.up.Step? && c.id == parent && c.up.id == gparent
      requires c.up.side == d && c.side == d.Flip() && !c.up.sibling.IsRed()
      modifies this`mem, this`aug
      ensures LiftReady(c.up.up, gparent, node, d, Mk(d, c.sibling, parent, true, t.Child(d)),
                        t.Child(d.Flip()), c.up.sibling)
    {
      ghost var m, a := mem, aug;
      ghost var i := t.Child(d);
      InnerReady(m, root, c, t, d);
      InnerLinks(node, parent, d);
      InnerRotatable(m, mem, root, c, t, d);
      InnerHeights(c, t, d);
      InnerCompute(m, mem, root, c, t, d);
      if augmented {
        MkAugmented(value, aug, d, i, node, true, t.Child(d.Flip()));
        ComputeMaxIs(parent, d, c.sibling, i);
      }
      AugmentRotate(parent, node);
      if augmented {
        InnerAugmented(value, a, aug, c, t, d);
      }
    }

    /** Case 3: the outer rotation at the grandparent ends the fix-up. */
    method InsertCase3(gparent: Ptr, parent: Ptr, d: Side, ghost c: Ctx, ghost x: Tree, ghost inner: Tree,
                       ghost u: Tree)
      requires LiftReady(c, gparent, parent, d, x, inner, u)
      modifies this`mem, this`root, this`aug, this`tree
      ensures Holds(Top, tree) && tree.RedBlack() && !tree.IsRed()
      ensures tree.InOrder()
              == c.Before() + Mk(d, Mk(d, x, parent, true, inner), gparent, false, u).InOrder() + c.After()
    {
      Rotate(gparent, parent, d, true, true, c, x, inner, u);
      assert inner.Paint(false) == inner;
      ghost var low := Mk(d.Flip(), u, gparent, true, inner);
      MkRedBlack(d.Flip(), u, gparent, true, inner);
      MkRedBlack(d, x, parent, false, low);
      RotateInOrder(d, x, parent, inner, gparent, u, false, true, true, false);
      Settle(c, Mk(d, x, parent, false, low));
    }

    method BlackenRoot(node: Ptr, ghost c: Ctx, ghost t: Tree)
      requires Holds(c, t) && t.Node? && t.id == node && t.RedBlack() && c.Root() == NULL
      modifies this`mem, this`tree
      ensures Holds(Top, tree) && tree.RedBlack() && !tree.IsRed()
      ensures tree.InOrder() == c.Before() + t.InOrder() + c.After()
    {
      ghost var m := mem;
      CtxRoot(mem, root, c, node);
      mem := mem[node := mem[node].(parent := NULL, red := false)];
      RepReparent(m, mem, t, NULL, false);
      if augmented {
        assert ZipAugmented(value, aug, c, t.Paint(false));
      }
      assert t.Paint(false).RedBlack() && t.Paint(false).InOrder() == t.InOrder();
      Settle(c, t.Paint(false));
    }

    /** Cases 2 and 3 together. */
    method InsertInner(node: Ptr, parent: Ptr, gparent: Ptr, d: Side, ghost c: Ctx, ghost t: Tree)
      requires Holds(c, t) && t.Node? && t.id == node && t.red
      requires t.RedBlack() && c.RedBlack(t.BlackHeight())
      requires c.Step? && c.red && c.up.Step? && c.id == parent && c.up.id == gparent
      requires c.up.side == d && c.side == d.Flip() && !c.up.sibling.IsRed()
      modifies this`mem, this`root, this`aug, this`tree
      ensures Holds(Top, tree) && tree.RedBlack() && !tree.IsRed()
      ensures tree.InOrder() == c.Before() + t.InOrder() + c.After()
    {
      ghost var x := Mk(d, c.sibling, parent, true, t.Child(d));
      InsertCase2(node, parent, gparent, d, c, t);
      InsertCase3(gparent, node, d, c.up.up, x, t.Child(d.Flip()), c.up.sibling);
      InnerInOrder(c, t, d);
    }

    /** Case 3 alone. */
    method InsertOuter(node: Ptr, parent: Ptr, gparent: Ptr, d: Side, ghost c: Ctx, ghost t: Tree)
      requires Holds(c, t) && t.Node? && t.id == node && t.red
      requires t.RedBlack() && c.RedBlack(t.BlackHeight())
      requires c.Step? && c.red && c.up.Step? && c.id == parent && c.up.id == gparent
      requires c.up.side == d && c.side == d && !c.up.sibling.IsRed()
      modifies this`mem, this`root, this`aug, this`tree
      ensures Holds(Top, tree) && tree.RedBlack() && !tree.IsRed()
      ensures tree.InOrder() == c.Before() + t.InOrder() + c.After()
    {
      OuterRotatable(mem, root, c, t, d);
      if augmented {
        OuterAugmented(value, aug, c, t, d);
      }
      InsertCase3(gparent, parent, d, c.up.up, t, c.sibling, c.up.sibling);
      StepInOrder(c, t, true);
      StepInOrder(c.up, Mk(d, t, parent, true, c.sibling), false);
    }

    /** __rb_insert: the red node `inserted` may have a red parent; all red-black properties are restored and the
        order is kept. */
    method InsertColor(inserted: Ptr, ghost c0: Ctx, ghost t0: Tree)
      requires Holds(c0, t0) && t0.Node? && t0.id == inserted && t0.red
      requires t0.RedBlack() && c0.RedBlack(t0.BlackHeight())
      modifies this`mem, this`root, this`aug, this`tree
      ensures Holds(Top, tree) && tree.RedBlack() && !tree.IsRed()
      ensures tree.InOrder() == c0.Before() + t0.InOrder() + c0.After()
    {
      var node := inserted;
      var parent := mem[node].parent;
      ghost var c, t := c0, t0;
      ghost var order := c.Before() + t.InOrder() + c.After();
      while true
        invariant Holds(c, t) && t.Node? && t.id == node && t.red && parent == c.Root()
        invariant t.RedBlack() && c.RedBlack(t.BlackHeight())
        invariant c.Before() + t.InOrder() + c.After() == order
        decreases c
      {
        if parent == NULL {
          BlackenRoot(node, c, t);
          break;
        }
        ParentCell(mem, root, c, t);
        if !mem[parent].red {
          Settle(c, t);
          break;
        }
        AboveRed(mem, root, c, t);
        var gparent := mem[parent].parent;
        var tmp := mem[gparent].right;
        var d := if parent != tmp then L else R;
        tmp := mem[gparent].Child(d.Flip());
        if tmp != NULL && mem[tmp].red {
          c, t := InsertCase1(node, parent, gparent, tmp, c, t);
          node := gparent;
          parent := mem[node].parent;
        } else {
          tmp := mem[parent].Child(d.Flip());
          if node == tmp {
            InsertInner(node, parent, gparent, d, c, t);
          } else {
            InsertOuter(node, parent, gparent, d, c, t);
          }
          break;
        }
      }
    }

    // ----- ____rb_erase_color

    /** Case 1: the sibling is red; rotate it up, so that the hole gets a black sibling. */
    method EraseCase1(parent: Ptr, sibling: Ptr, d: Side, ghost c: Ctx, ghost t: Tree) returns (ghost c': Ctx)
      requires Holds(c, t) && Short(c, t) && c.id == parent && c.side == d
      requires c.sibling.IsRed() && c.sibling.id == sibling
      modifies this`mem, this`root, this`aug
      ensures Holds(c', t) && Short(c', t) && c'.id == parent && c'.side == d && !c'.sibling.IsRed()
      ensures c'.Before() + t.InOrder() + c'.After() == c.Before() + t.InOrder() + c.After()
      ensures c' == LiftedCtx(c)
    {
      SiblingExists(mem, root, c, t);
      SiblingRotatable(mem, root, c, t);
      if augmented { SiblingAugmentable(value, aug, c, t); }
      ghost var e := d.Flip();
      Rotate(parent, sibling, d.Flip(), true, true, c.up, c.sibling.Child(e), c.sibling.Child(d), t);
      c' := LiftedCtx(c);
      LiftedZip(mem, root, c, t);
      if augmented { LiftedAugmented(value, aug, c, t); }
      LiftedShort(c, t);
    }

    /** Case 2: both nephews are black; paint the sibling red and the parent `red`. */
    method EraseRecolour(parent: Ptr, sibling: Ptr, ghost c: Ctx, ghost t: Tree)
      requires Holds(c, t) && Short(c, t) && c.id == parent
      requires c.sibling.Node? && c.sibling.id == sibling && !c.sibling.red
      requires !c.sibling.left.IsRed() && !c.sibling.right.IsRed()
      modifies this`mem
      ensures Holds(c.up, Recoloured(c, t, false))
      ensures parent in mem && mem[parent] == old(mem)[parent].(red := false)
    {
      ghost var m := mem;
      SiblingExists(mem, root, c, t);
      mem := mem[sibling := mem[sibling].(parent := parent, red := true)];
      if mem[parent].red {
        mem := mem[parent := mem[parent].(red := false)];
      }
      assert mem == m[sibling := m[sibling].(parent := parent, red := true)][parent := m[parent].(red := false)];
      RecolourZip(m, mem, root, c, t, false);
      RecolourFacts(value, aug, c, t, false);
    }

    /** What case 4 starts from. */
    ghost predicate EraseReady(c: Ctx, parent: Ptr, rise: Ptr, e: Side, far: Ptr, x: Tree, inner: Tree, u: Tree)
      reads this
    {
      && x.Node? && x.id == far && far in mem && parent in mem
      && Rotatable(mem[far := mem[far].(parent := rise, red := false)], root, c, parent, rise, e,
                   x.Paint(false), inner, u)
      && (augmented ==> RotateAugmentable(value, aug, c, parent, rise, e, x.Paint(false), inner, u))
      && EraseColours(c, mem[parent].red, x, inner, u)
    }

    /** Case 4: the far nephew is red; the rotation at the parent ends the fix-up. */
    method EraseCase4(parent: Ptr, sibling: Ptr, e: Side, far: Ptr, ghost c: Ctx, ghost x: Tree, ghost inner: Tree,
                      ghost u: Tree)
      requires EraseReady(c, parent, sibling, e, far, x, inner, u)
      modifies this`mem, this`root, this`aug, this`tree
      ensures Holds(Top, tree) && tree.RedBlack() && !tree.IsRed()
      ensures tree.InOrder()
              == c.Before() + Mk(e, Mk(e, x, sibling, false, inner), parent, false, u).InOrder() + c.After()
    {
      ghost var red := mem[parent].red;
      mem := mem[far := mem[far].(parent := sibling, red := false)];
      assert mem[parent].red == red by { assert far in x.Paint(false).Ids(); }
      Rotate(parent, sibling, e, false, false, c, x.Paint(false), inner, u);
      assert inner.Paint(inner.IsRed()) == inner;
      Case4Colours(parent, sibling, e, c, red, x, inner, u);
      RotateInOrder(e, x.Paint(false), sibling, inner, parent, u, red, false, false, false);
      Settle(c, Rotated(parent, sibling, e, x.Paint(false), inner, u, false, red));
      assert Mk(e, x.Paint(false), sibling, false, inner).InOrder() == Mk(e, x, sibling, false, inner).InOrder();
    }

    /** Case 4 reached directly. */
    method EraseFar(parent: Ptr, sibling: Ptr, d: Side, far: Ptr, ghost c: Ctx, ghost t: Tree)
      requires Holds(c, t) && Short(c, t) && c.id == parent && c.side == d
      requires c.sibling.Node? && c.sibling.id == sibling && !c.sibling.red
      requires c.sibling.Child(d.Flip()).IsRed() && c.sibling.Child(d.Flip()).id == far
      modifies this`mem, this`root, this`aug, this`tree
      ensures Holds(Top, tree) && tree.RedBlack() && !tree.IsRed()
      ensures tree.InOrder() == c.Before() + t.InOrder() + c.After()
    {
      ghost var s := c.sibling;
      ghost var x, inner := s.Child(d.Flip()), s.Child(d);
      SiblingExists(mem, root, c, t);
      Nephews(mem, root, c, t, d.Flip());
      FarNephewRotatable(mem, mem[far := mem[far].(parent := sibling, red := false)], root, c, t);
      FarNephewColours(c, t);
      if augmented {
        SiblingAugmentable(value, aug, c, t);
        RotateAugmentablePaint(value, aug, c.up, parent, sibling, d.Flip(), x, inner, t);
      }
      EraseCase4(parent, sibling, d.Flip(), far, c.up, x, inner, t);
      StepInOrder(c, t, false);
      assert Mk(d.Flip(), x, sibling, false, inner) == s;
      assert Mk(d.Flip(), s, parent, false, t) == Mk(d, t, parent, false, s);
    }

    method NearLinks(parent: Ptr, sibling: Ptr, near: Ptr, d: Side)
      requires {parent, sibling, near} <= mem.Keys && parent != sibling && parent != near && sibling != near
      requires var tmp := mem[near].Child(d.Flip());
               tmp != NULL ==> tmp in mem && tmp != parent && tmp != sibling && tmp != near
      modifies this`mem
      ensures mem.Keys == old(mem).Keys
      ensures mem[sibling] == old(mem)[sibling].SetChild(d, old(mem)[near].Child(d.Flip()))
      ensures mem[near] == old(mem)[near].SetChild(d.Flip(), sibling)
      ensures mem[parent] == old(mem)[parent].SetChild(d.Flip(), near)
      ensures var tmp := old(mem)[near].Child(d.Flip());
              && (tmp != NULL ==> mem[tmp] == old(mem)[tmp].(parent := sibling, red := false))
              && SameBut(old(mem), mem, parent, sibling, near, tmp)
    {
      var tmp := mem[near].Child(d.Flip());
      mem := mem[sibling := mem[sibling].SetChild(d, tmp)];
      mem := mem[near := mem[near].SetChild(d.Flip(), sibling)];
      mem := mem[parent := mem[parent].SetChild(d.Flip(), near)];
      if tmp != NULL {
        mem := mem[tmp := mem[tmp].(parent := sibling, red := false)];
      }
    }

    /** The pointer writes of case 3. Case 4 links the sibling to its new parent. */
    method NearPointers(parent: Ptr, sibling: Ptr, d: Side, near: Ptr, ghost c: Ctx, ghost t: Tree)
      requires Zip(mem, root, c, t) && Short(c, t) && c.id == parent && c.side == d
      requires c.sibling.Node? && c.sibling.id == sibling && !c.sibling.red
      requires c.sibling.Child(d).IsRed() && c.sibling.Child(d).id == near && !c.sibling.Child(d.Flip()).IsRed()
      requires !c.sibling.Child(d).Child(d.Flip()).IsRed()
      modifies this`mem
      ensures parent in mem && sibling in mem && near != sibling && mem[parent].red == c.red
      ensures var b, far := c.sibling.Child(d).Child(d.Flip()), c.sibling.Child(d.Flip());
              && mem[sibling].Child(d) == b.Root() && mem[sibling].Child(d.Flip()) == far.Root()
              && (b.Root() == NULL <==> b.Leaf?) && (far.Root() == NULL <==> far.Leaf?)
              && near != mem[sibling].left && near != mem[sibling].right
      ensures Rotatable(mem[sibling := mem[sibling].(parent := near, red := false)], root, c.up, parent, near, d.Flip(),
                        NearFar(c), c.sibling.Child(d).Child(d), t)
    {
      hide Tree.InOrder, Ctx.Before, Ctx.After, Rotatable;
      ghost var m := mem;
      NearReady(mem, root, c, t);
      SiblingExists(mem, root, c, t);
      NearLinks(parent, sibling, near, d);
      NearRotatable(m, mem[sibling := mem[sibling].(parent := near, red := false)], root, c, t);
    }

    /** Case 3: only the near nephew is red; rotate it over the sibling and continue with case 4. */
    method EraseCase3(parent: Ptr, sibling: Ptr, d: Side, near: Ptr, ghost c: Ctx, ghost t: Tree)
      requires Holds(c, t) && Short(c, t) && c.id == parent && c.side == d
      requires c.sibling.Node? && c.sibling.id == sibling && !c.sibling.red
      requires c.sibling.Child(d).IsRed() && c.sibling.Child(d).id == near && !c.sibling.Child(d.Flip()).IsRed()
      modifies this`mem, this`aug
      ensures EraseReady(c.up, parent, near, d.Flip(), sibling, NearFar(c), c.sibling.Child(d).Child(d), t)
    {
      hide Tree.InOrder, Ctx.Before, Ctx.After, MaxValue, Augmented, Rep, CtxRep, SameBut;
      hide Rotatable, RotateAugmentable, EraseColours, Tree.RedBlack, Ctx.RedBlack, Tree.BlackHeight;
      ghost var a := aug;
      NearColours(c, t);
      NearPointers(parent, sibling, d, near, c, t);
      if augmented {
        NearPieces(value, aug, c);
        ComputeMaxIs(sibling, d, c.sibling.Child(d).Child(d.Flip()), c.sibling.Child(d.Flip()));
      }
      AugmentRotate(sibling, near);
      if augmented {
        NearAugmentable(value, a, aug, c, t);
      }
    }

    /** Cases 3 and 4 together. */
    method EraseNear(parent: Ptr, sibling: Ptr, d: Side, near: Ptr, ghost c: Ctx, ghost t: Tree)
      requires Holds(c, t) && Short(c, t) && c.id == parent && c.side == d
      requires c.sibling.Node? && c.sibling.id == sibling && !c.sibling.red
      requires c.sibling.Child(d).IsRed() && c.sibling.Child(d).id == near && !c.sibling.Child(d.Flip()).IsRed()
      modifies this`mem, this`root, this`aug, this`tree
      ensures Holds(Top, tree) && tree.RedBlack() && !tree.IsRed()
      ensures tree.InOrder() == c.Before() + t.InOrder() + c.After()
    {
      EraseCase3(parent, sibling, d, near, c, t);
      EraseCase4(parent, near, d.Flip(), sibling, c.up, NearFar(c), c.sibling.Child(d).Child(d), t);
      NearInOrder(c, t);
    }

    /** Case 2: both nephews are black. A red parent absorbs the missing black node; otherwise the whole subtree of
        the parent is now short, unless it is the whole tree. */
    method EraseCase2(parent: Ptr, sibling: Ptr, ghost c: Ctx, ghost t: Tree)
      returns (done: bool, node: Ptr, parent': Ptr, ghost c': Ctx, ghost t': Tree)
      requires Holds(c, t) && Short(c, t) && c.id == parent
      requires c.sibling.Node? && c.sibling.id == sibling && !c.sibling.red
      requires !c.sibling.left.IsRed() && !c.sibling.right.IsRed()
      modifies this`mem, this`tree
      ensures done ==> Holds(Top, tree) && tree.RedBlack() && !tree.IsRed()
      ensures done ==> tree.InOrder() == c.Before() + t.InOrder() + c.After()
      ensures !done ==> Holds(c', t') && Short(c', t') && c'.id == parent' && t'.Root() == node && c' == c.up
      ensures !done ==> c'.Before() + t'.InOrder() + c'.After() == c.Before() + t.InOrder() + c.After()
      ensures c.red ==> done
    {
      SiblingExists(mem, root, c, t);
      RecolourFacts(value, aug, c, t, false);
      var wasRed := mem[parent].red;
      EraseRecolour(parent, sibling, c, t);
      c', t' := c.up, Recoloured(c, t, false);
      node := parent;
      parent' := mem[node].parent;
      CtxRoot(mem, root, c', node);
      done := wasRed || parent' == NULL;
      if done {
        Settle(c', t');
      }
    }

    /** ____rb_erase_color: the hole of `c0` is one black node short; all properties are restored. */
    method EraseColor(rebalance: Ptr, ghost c0: Ctx)
      requires Holds(c0, Leaf) && Short(c0, Leaf) && c0.id == rebalance
      modifies this`mem, this`root, this`aug, this`tree
      ensures Holds(Top, tree) && tree.RedBlack() && !tree.IsRed()
      ensures tree.InOrder() == c0.Before() + c0.After()
    {
      var node, parent := NULL, rebalance;
      ghost var c: Ctx, t: Tree := c0, Leaf;
      assert c0.Before() + Leaf.InOrder() + c0.After() == c0.Before() + c0.After();
      while true
        invariant Holds(c, t) && Short(c, t) && c.id == parent && t.Root() == node
        invariant c.Before() + t.InOrder() + c.After() == c0.Before() + c0.After()
        decreases c
      {
        ghost var above := c.up;
        SiblingExists(mem, root, c, t);
        var sibling := mem[parent].right;
        var d := if node != sibling then L else R;
        sibling := mem[parent].Child(d.Flip());
        if mem[sibling].red {
          c := EraseCase1(parent, sibling, d, c, t);
          SiblingExists(mem, root, c, t);
          sibling := mem[parent].Child(d.Flip());
        }
        Nephews(mem, root, c, t, d);
        Nephews(mem, root, c, t, d.Flip());
        var tmp1 := mem[sibling].Child(d.Flip());
        if tmp1 == NULL || !mem[tmp1].red {
          var tmp2 := mem[sibling].Child(d);
          if tmp2 == NULL || !mem[tmp2].red {
            var done;
            done, node, parent, c, t := EraseCase2(parent, sibling, c, t);
            if !done {
              continue;
            }
            break;
          }
          EraseNear(parent, sibling, d, tmp2, c, t);
          break;
        }
        EraseFar(parent, sibling, d, tmp1, c, t);
        break;
      }
    }

    // ----- __rb_erase_augmented

    /** One step of the climb: the recomputed maximum is right, and so is the store that follows. */
    lemma PropagateStep(c: Ctx, base: Ctx, x: Tree)
      requires Zip(mem, root, Graft(c, base), x) && Graft(c, base).Root() != base.Root()
      requires c.Step? ==> Augmented(value, aug, c.sibling) && CtxAugmented(value, aug, c.up, Val(aug, c.id))
      requires Augmented(value, aug, x)
      ensures c.Step? && c.id in mem && mem[c.id].parent == Graft(c.up, base).Root()
      ensures Zip(mem, root, Graft(c.up, base), Mk(c.side, x, c.id, c.red, c.sibling))
      ensures Val(aug, c.id) == ComputeMax(c.id) ==> ZipAugmented(value, aug, c, x)
      ensures var aug' := aug[c.id := ComputeMax(c.id)];
              && Augmented(value, aug', Mk(c.side, x, c.id, c.red, c.sibling))
              && (c.up.Step? ==>
                    Augmented(value, aug', c.up.sibling) && CtxAugmented(value, aug', c.up.up, Val(aug', c.up.id)))
    {
      PathCell(mem, root, c, base, x);
      GraftIds(c, base);
      ComputeMaxIs(c.id, c.side, x, c.sibling);
      PathRaised(value, aug, c, x, ComputeMax(c.id));
      ZipStep(mem, root, Graft(c.up, base), c.id, c.red, c.side, x, c.sibling);
    }

    /** _propagate from the innermost node of `k` up to, but not including, `stop`. It may stop early, at a node whose
        maximum did not change. */
    method Propagate(start: Ptr, stop: Ptr, ghost k: Ctx, ghost base: Ctx, ghost t: Tree)
      requires Zip(mem, root, Graft(k, base), t)
      requires start == Graft(k, base).Root() && stop == base.Root()
      requires augmented ==>
                 && Augmented(value, aug, t)
                 && (k.Step? ==> Augmented(value, aug, k.sibling) && CtxAugmented(value, aug, k.up, Val(aug, k.id)))
      modifies this`aug
      ensures augmented ==> Augmented(value, aug, k.Plug(t))
      ensures forall x :: x !in k.Ids() ==> Val(aug, x) == Val(old(aug), x)
    {
      hide MaxValue, Tree.InOrder, RbTree.ComputeMax;
      if augmented {
        var rb := start;
        ghost var c, x := k, t;
        while rb != stop
          invariant Zip(mem, root, Graft(c, base), x) && rb == Graft(c, base).Root() && c.Plug(x) == k.Plug(t)
          invariant c.Step? ==> Augmented(value, aug, c.sibling) && CtxAugmented(value, aug, c.up, Val(aug, c.id))
          invariant Augmented(value, aug, x)
          invariant c.Ids() <= k.Ids() && forall x :: x !in k.Ids() ==> Val(aug, x) == Val(old(aug), x)
          decreases c
        {
          PropagateStep(c, base, x);
          var max := ComputeMax(rb);
          if Val(aug, rb) == max {
            ZipAugmentedPlug(value, aug, c, x);
            break;
          }
          aug := aug[rb := max];
          x, c := Mk(c.side, x, c.id, c.red, c.sibling), c.up;
          rb := mem[rb].parent;
        }
        if rb == stop {
          PathEnd(mem, root, c, base, x);
        }
      }
    }

    /** The first two branches: the node has at most one child, on side `d`. */
    method SpliceOut(node: Ptr, d: Side, ghost c: Ctx, ghost t: Tree) returns (rebalance: Ptr)
      requires Holds(c, t) && t.Node? && t.id == node && t.Child(d.Flip()).Leaf?
      requires t.RedBlack() && c.RedBlack(t.BlackHeight()) && (t.IsRed() ==> c.Step? && !c.red)
      modifies this`mem, this`root, this`aug
      ensures Holds(c, t.Child(d).Paint(t.red))
      ensures ErasedColours(rebalance, c, t.Child(d).Paint(t.red))
    {
      hide Tree.InOrder, Ctx.Before, Ctx.After, MaxValue, Tree.RedBlack, Ctx.RedBlack, Tree.BlackHeight, ErasedColours;
      ghost var m, r, x := mem, root, t.Child(d);
      RepRoot(mem, node, x);
      HoleLinked(mem, root, c, node);
      CtxRoot(mem, root, c, node);
      var child := mem[node].Child(d);
      var parent, red := mem[node].parent, mem[node].red;
      ChangeChild(node, child, parent);
      if child != NULL {
        mem := mem[child := mem[child].(parent := parent, red := red)];
        rebalance := NULL;
      } else {
        rebalance := if !red then parent else NULL;
      }
      SpliceZip(m, mem, r, root, c, t, d);
      SpliceColours(c, t, d, rebalance);
      GraftTop(c);
      if augmented { SpliceAugmented(value, aug, c, t, d); }
      Propagate(parent, NULL, c, Top, x.Paint(t.red));
      if augmented { PropagatedZip(value, aug, c, x.Paint(t.red)); }
    }

    /** Walks to the in-order successor of a node with two children; `parent` is its parent, or the successor itself
        when that is the right child. */
    method FindSuccessor(node: Ptr, ghost c: Ctx, ghost t: Tree)
      returns (successor: Ptr, parent: Ptr, ghost k: Ctx, ghost s: Tree)
      requires Zip(mem, root, c, t) && t.Node? && t.id == node && t.left.Node? && t.right.Node?
      ensures SuccessorPath(t, k, s) && s.id == successor && parent == if k.Top? then successor else k.id
      ensures Zip(mem, root, Graft(k, Step(c, node, t.red, R, t.left)), s)
    {
      ghost var b := Step(c, node, t.red, R, t.left);
      k, s := Top, t.right;
      ZipStep(mem, root, c, node, t.red, R, t.right, t.left);
      successor := mem[node].right;
      parent := successor;
      var tmp := mem[successor].left;
      while tmp != NULL
        invariant Zip(mem, root, Graft(k, b), s) && s.Node? && s.id == successor && tmp == s.left.Root()
        invariant k.Plug(s) == t.right && k.Before() == [] && (k.Step? ==> k.side.L?)
        invariant parent == if k.Top? then successor else k.id
        decreases s
      {
        RepRoot(mem, successor, s.left);
        ZipStep(mem, root, Graft(k, b), s.id, s.red, L, s.left, s.right);
        k, s := Step(k, s.id, s.red, L, s.right), s.left;
        parent := successor;
        successor := tmp;
        tmp := mem[tmp].left;
      }
      RepRoot(mem, successor, s.left);
    }

    /** Takes the successor out of its old place, unless it is the right child. */
    method DetachSuccessor(parent: Ptr, successor: Ptr, child: Ptr, child2: Ptr)
      requires parent != successor ==> {parent, successor, child} <= mem.Keys && child != successor
      modifies this`mem
      ensures mem.Keys == old(mem).Keys
      ensures parent == successor ==> mem == old(mem)
      ensures parent != successor ==>
                && mem[successor] == old(mem)[successor].(right := child)
                && mem[child]
                   == (if child == parent then old(mem)[child].(left := child2)
                       else old(mem)[child]).(parent := successor)
                && (child != parent ==> mem[parent] == old(mem)[parent].(left := child2))
      ensures forall x :: x in mem && x != parent && x != successor && x != child ==> mem[x] == old(mem)[x]
    {
      if parent != successor {
        mem := mem[parent := mem[parent].(left := child2)];
        mem := mem[successor := mem[successor].(right := child)];
        mem := mem[child := mem[child].(parent := successor)];
      }
    }

    /** Hangs the successor below the node's parent and above the node's left child, with the node's colour. */
    method AttachSuccessor(node: Ptr, successor: Ptr, parent: Ptr, child2: Ptr, ghost c: Ctx) returns (rebalance: Ptr)
      requires {node, successor} <= mem.Keys && node != successor && mem[node].left in mem
      requires var l := mem[node].left; l != node && l != successor && l != child2 && l != c.Root()
      requires child2 != NULL ==> child2 in mem && child2 != node && child2 != successor && child2 != c.Root()
      requires c.Root() != successor && c.Root() != node && mem[node].parent == c.Root() && HoleLink(mem, c, node)
      modifies this`mem, this`root
      ensures mem.Keys == old(mem).Keys
      ensures Redirected(old(mem), mem, old(root), root, c, successor)
      ensures mem[successor]
              == old(mem)[successor].(left := old(mem)[node].left, parent := c.Root(), red := old(mem)[node].red)
      ensures mem[old(mem)[node].left] == old(mem)[old(mem)[node].left].(parent := successor)
      ensures child2 != NULL ==> mem[child2] == old(mem)[child2].(parent := parent, red := false)
      ensures SameBut(old(mem), mem, successor, old(mem)[node].left, child2, c.Root())
      ensures rebalance == if child2 == NULL && !old(mem)[successor].red then parent else NULL
    {
      var tmp := mem[node].left;
      mem := mem[successor := mem[successor].(left := tmp)];
      mem := mem[tmp := mem[tmp].(parent := successor)];
      var above, red := mem[node].parent, mem[node].red;
      ChangeChild(node, successor, above);
      var wasRed := mem[successor].red;
      mem := mem[successor := mem[successor].(parent := above, red := red)];
      if child2 != NULL {
        mem := mem[child2 := mem[child2].(parent := parent, red := false)];
        rebalance := NULL;
      } else {
        rebalance := if !wasRed then parent else NULL;
      }
    }

    /** The pointer writes that put the successor in the place of the node. */
    method ReplaceLinks(node: Ptr, successor: Ptr, parent: Ptr, ghost c: Ctx, ghost t: Tree, ghost k: Ctx,
                        ghost s: Tree)
      returns (rebalance: Ptr)
      requires t.Node? && t.left.Node? && t.right.Node? && s.Node? && t.id == node && s.id == successor
      requires ReplaceFacts(mem, c, t, k, s)
      requires parent == if k.Top? then successor else k.id
      modifies this`mem, this`root
      ensures Replaced(old(mem), mem, old(root), root, c, t, k, s)
      ensures rebalance == if s.right.Leaf? && !s.red then parent else NULL
    {
      var child := mem[node].right;
      var child2 := mem[successor].right;
      DetachSuccessor(parent, successor, child, child2);
      rebalance := AttachSuccessor(node, successor, parent, child2, c);
    }

    /** The third branch: the node has two children. */
    method SpliceSuccessor(node: Ptr, ghost c: Ctx, ghost t: Tree)
      returns (rebalance: Ptr, ghost c': Ctx, ghost t': Tree)
      requires Holds(c, t) && t.Node? && t.id == node && t.left.Node? && t.right.Node?
      requires t.RedBlack() && c.RedBlack(t.BlackHeight()) && (t.IsRed() ==> c.Step? && !c.red)
      modifies this`mem, this`root, this`aug
      ensures Holds(c', t') && ErasedColours(rebalance, c', t')
      ensures c'.Before() + t'.InOrder() + c'.After() == c.Before() + (t.left.InOrder() + t.right.InOrder()) + c.After()
    {
      hide Tree.InOrder, Ctx.Before, Ctx.After, MaxValue, Augmented, CtxAugmented, Tree.RedBlack, Ctx.RedBlack;
      hide Tree.BlackHeight, Graft, ErasedColours, Replaced, ReplaceFacts;
      var successor, parent;
      ghost var k, s;
      successor, parent, k, s := FindSuccessor(node, c, t);
      ReplaceReady(mem, root, c, t, k, s);
      ghost var m, r := mem, root;
      rebalance := ReplaceLinks(node, successor, parent, c, t, k, s);
      SuccessorPlaced(m, mem, r, root, c, t, k, s, rebalance);
      c', t' := Graft(k, Step(c, successor, t.red, R, t.left)), s.right.Paint(false);
      ReplacedInOrder(c, t, k, s);
      CopyAndPropagate(node, successor, parent, c, t, k, s);
    }

    /** _copy and the two _propagate calls. The first only reads links that the pointer writes after it leave alone,
        so it is taken together with the second. */
    method CopyAndPropagate(node: Ptr, successor: Ptr, parent: Ptr, ghost c: Ctx, ghost t: Tree, ghost k: Ctx,
                            ghost s: Tree)
      requires SuccessorPath(t, k, s) && t.id == node && s.id == successor
      requires parent == if k.Top? then successor else k.id
      requires t.Distinct() && c.Distinct() && t.Ids() !! c.Ids()
      requires k.Distinct() && s.Distinct() && k.Ids() !! s.Ids()
      requires augmented ==> ZipAugmented(value, aug, c, t)
      requires Zip(mem, root, Graft(k, Step(c, successor, t.red, R, t.left)), s.right.Paint(false))
      requires Zip(mem, root, Step(c, successor, t.red, R, t.left), RightPart(k, s))
      modifies this`aug
      ensures augmented ==>
                ZipAugmented(value, aug, Graft(k, Step(c, successor, t.red, R, t.left)), s.right.Paint(false))
    {
      if augmented {
        ghost var a := aug;
        ghost var base := Step(c, successor, t.red, R, t.left);
        aug := aug[successor := Val(aug, node)];
        CopiedAugmented(value, a, aug, c, t, k, s);
        ghost var a1 := aug;
        if parent != successor {
          Propagate(parent, successor, k, base, s.right.Paint(false));
        }
        ReplacedIds(c, t, k, s);
        PropagatedAugmented(value, a1, aug, c, t.left, k, successor);
        GraftTop(base);
        Propagate(successor, NULL, base, Top, RightPart(k, s));
        GraftPlug(mem, root, k, base, s.right.Paint(false));
        PropagatedZip(value, aug, Graft(k, base), s.right.Paint(false));
      }
    }

    /** __rb_erase_augmented. */
    method EraseAugmented(node: Ptr, ghost c: Ctx, ghost t: Tree)
      returns (rebalance: Ptr, ghost c': Ctx, ghost t': Tree)
      requires Holds(c, t) && t.Node? && t.id == node
      requires t.RedBlack() && c.RedBlack(t.BlackHeight()) && (t.IsRed() ==> c.Step? && !c.red)
      modifies this`mem, this`root, this`aug
      ensures Holds(c', t') && ErasedColours(rebalance, c', t')
      ensures c'.Before() + t'.InOrder() + c'.After() == c.Before() + (t.left.InOrder() + t.right.InOrder()) + c.After()
    {
      hide Ctx.Before, Ctx.After, MaxValue, Tree.RedBlack, Ctx.RedBlack, Tree.BlackHeight, ErasedColours, Augmented;
      hide CtxAugmented, Rep, CtxRep;
      ChildCells(mem, root, c, t);
      if mem[node].left == NULL {
        rebalance := SpliceOut(node, R, c, t);
        c', t' := c, t.right.Paint(t.red);
      } else if mem[node].right == NULL {
        rebalance := SpliceOut(node, L, c, t);
        c', t' := c, t.left.Paint(t.red);
      } else {
        rebalance, c', t' := SpliceSuccessor(node, c, t);
      }
    }

    // ----- rbtree.c: rb_first, rb_next, rb_prev

    /** Follows left links to the first node of a subtree. */
    method DescendLeft(start: Ptr, ghost c0: Ctx, ghost t0: Tree) returns (n: Ptr)
      requires Zip(mem, root, c0, t0) && t0.Node? && t0.id == start
      ensures t0.InOrder() != [] && n == t0.InOrder()[0]
    {
      n := start;
      ghost var c, t := c0, t0;
      ChildCells(mem, root, c, t);
      while mem[n].left != NULL
        invariant Zip(mem, root, c, t) && t.Node? && t.id == n && n in mem && mem[n].left == t.left.Root()
        invariant mem[n].left == NULL <==> t.left.Leaf?
        invariant t.InOrder()[0] == t0.InOrder()[0]
        decreases t
      {
        ChildCells(mem, root, c, t);
        n := mem[n].left;
        c, t := Step(c, t.id, t.red, L, t.right), t.left;
        ChildCells(mem, root, c, t);
      }
    }

    /** Follows right links to the last node of a subtree. */
    method DescendRight(start: Ptr, ghost c0: Ctx, ghost t0: Tree) returns (n: Ptr)
      requires Zip(mem, root, c0, t0) && t0.Node? && t0.id == start
      ensures var s := t0.InOrder(); s != [] && n == s[|s| - 1]
    {
      n := start;
      ghost var c, t := c0, t0;
      ChildCells(mem, root, c, t);
      while mem[n].right != NULL
        invariant Zip(mem, root, c, t) && t.Node? && t.id == n && n in mem && mem[n].right == t.right.Root()
        invariant mem[n].right == NULL <==> t.right.Leaf?
        invariant t.InOrder()[|t.InOrder()| - 1] == t0.InOrder()[|t0.InOrder()| - 1]
        decreases t
      {
        ChildCells(mem, root, c, t);
        n := mem[n].right;
        c, t := Step(c, t.id, t.red, R, t.left), t.right;
        ChildCells(mem, root, c, t);
      }
    }

    /** Climbs while the node is a right child; the parent of the first left child is next. */
    method AscendRight(start: Ptr, ghost c0: Ctx, ghost t0: Tree) returns (next: Ptr)
      requires Zip(mem, root, c0, t0) && t0.Node? && t0.id == start && start in mem && mem[start].parent == c0.Root()
      ensures next == if c0.After() == [] then NULL else c0.After()[0]
    {
      var n := start;
      next := mem[n].parent;
      ghost var c, t := c0, t0;
      ParentCells(mem, root, c, t);
      while next != NULL && n == mem[next].right
        invariant Zip(mem, root, c, t) && t.Node? && t.id == n && next == c.Root() && c.After() == c0.After()
        invariant next == NULL <==> c.Top?
        invariant c.Step? ==> next in mem && (mem[next].right == n <==> c.side.R?)
        decreases c
      {
        ParentCells(mem, root, c, t);
        n := next;
        t, c := Mk(c.side, t, c.id, c.red, c.sibling), c.up;
        ChildCells(mem, root, c, t);
        next := mem[n].parent;
        ParentCells(mem, root, c, t);
      }
    }

    /** Climbs while the node is a left child. */
    method AscendLeft(start: Ptr, ghost c0: Ctx, ghost t0: Tree) returns (prev: Ptr)
      requires Zip(mem, root, c0, t0) && t0.Node? && t0.id == start && start in mem && mem[start].parent == c0.Root()
      ensures var s := c0.Before(); prev == if s == [] then NULL else s[|s| - 1]
    {
      var n := start;
      prev := mem[n].parent;
      ghost var c, t := c0, t0;
      ParentCells(mem, root, c, t);
      while prev != NULL && n == mem[prev].left
        invariant Zip(mem, root, c, t) && t.Node? && t.id == n && prev == c.Root() && c.Before() == c0.Before()
        invariant prev == NULL <==> c.Top?
        invariant c.Step? ==> prev in mem && (mem[prev].left == n <==> c.side.L?)
        decreases c
      {
        ParentCells(mem, root, c, t);
        n := prev;
        t, c := Mk(c.side, t, c.id, c.red, c.sibling), c.up;
        ChildCells(mem, root, c, t);
        prev := mem[n].parent;
        ParentCells(mem, root, c, t);
      }
    }

    /** rb_first. */
    method First() returns (n: Ptr)
      requires Holds(Top, tree)
      ensures n == if Order() == [] then NULL else Order()[0]
    {
      n := root;
      RepRoot(mem, NULL, tree);
      if n != NULL {
        n := DescendLeft(n, Top, tree);
      }
    }

    /** rb_next: the in-order successor, or NULL at the end. */
    method Next(node: Ptr) returns (next: Ptr)
      requires Holds(Top, tree) && node in Order()
      ensures var i := IndexOf(Order(), node); next == if i + 1 < |Order()| then Order()[i + 1] else NULL
    {
      ghost var c, t, a := Locate(node);
      ChildCells(mem, root, c, t);
      if mem[node].parent == node {
        return NULL;
      }
      if mem[node].right != NULL {
        next := DescendLeft(mem[node].right, Step(c, t.id, t.red, R, t.left), t.right);
      } else {
        next := AscendRight(node, c, t);
      }
      NextElement(Order(), a, node, t.right.InOrder() + c.After());
    }

    /** rb_prev: the in-order predecessor, or NULL at the start. */
    method Prev(node: Ptr) returns (prev: Ptr)
      requires Holds(Top, tree) && node in Order()
      ensures var i := IndexOf(Order(), node); prev == if i > 0 then Order()[i - 1] else NULL
    {
      ghost var c, t, a := Locate(node);
      ChildCells(mem, root, c, t);
      if mem[node].parent == node {
        return NULL;
      }
      if mem[node].left != NULL {
        prev := DescendRight(mem[node].left, Step(c, t.id, t.red, L, t.right), t.left);
      } else {
        prev := AscendLeft(node, c, t);
      }
      NextElement(Order(), a, node, t.right.InOrder() + c.After());
    }

    /** The zipper of a node, and the nodes before it. */
    lemma Locate(node: Ptr) returns (c: Ctx, t: Tree, before: seq<Ptr>)
      requires Holds(Top, tree) && node in Order()
      ensures t.Node? && t.id == node && c.Plug(t) == tree && Holds(c, t)
      ensures before == c.Before() + t.left.InOrder() && before == Order()[..IndexOf(Order(), node)]
      ensures Order() == before + [node] + (t.right.InOrder() + c.After()) && node !in before
    {
      c, t, before := LocateIn(tree, node);
      ZipPlug(mem, root, c, t);
      ZipAugmentedPlug(value, aug, c, t);
    }

    // ----- descending to the slot of a new node

    /** The loop that the generic interval insert, the hole inserts of drm_mm.c and its hinted interval insert share:
        from `cur` down to a NULL link, raising the maxima on the way. */
    method Descend(k: int, last: nat, startParent: Ptr, startCur: Ptr, startFirst: bool, ghost c0: Ctx, ghost t0: Tree)
      returns (parent: Ptr, side: Side, first: bool, ghost c: Ctx)
      requires Zip(mem, root, c0, t0) && c0.Plug(t0) == tree && SortedBy(Order(), key)
      requires startCur == t0.Root() && startParent == c0.Root()
      requires startCur == NULL && c0.Step? ==> c0.side.R?
      requires KeysAround(c0, key, k) && (startFirst <==> c0.Before() == [])
      requires augmented ==> Augmented(value, aug, t0) && CtxAugmented(value, aug, c0, Max(MaxValue(value, t0), last))
      modifies this`aug
      ensures Zip(mem, root, c, Leaf) && c.Plug(Leaf) == tree && parent == c.Root() && (c.Step? ==> side == c.side)
      ensures KeysAround(c, key, k) && (first <==> c.Before() == [])
      ensures augmented ==> CtxAugmented(value, aug, c, last)
    {
      hide KeysAround, SortedBy, UpperBound, Augmented, CtxAugmented, Tree.InOrder, Rep, CtxRep;
      var cur := startCur;
      parent, side, first := startParent, R, startFirst;
      c := c0;
      ghost var t := t0;
      RepRoot(mem, c0.Root(), t0);
      while cur != NULL
        invariant Zip(mem, root, c, t) && c.Plug(t) == tree && cur == t.Root() && (cur == NULL <==> t.Leaf?)
        invariant parent == c.Root() && (cur == NULL && c.Step? ==> side == c.side)
        invariant KeysAround(c, key, k) && (first <==> c.Before() == [])
        invariant augmented ==> Augmented(value, aug, t) && CtxAugmented(value, aug, c, Max(MaxValue(value, t), last))
        decreases t
      {
        parent := cur;
        ghost var d := if k < KeyOf(key, parent) then L else R;
        DescentStep(mem, root, c, t, d);
        DescentKeys(c, t, d, key, k);
        if augmented {
          DescentAugmented(value, aug, c, t, d, last);
          aug := aug[parent := Max(Val(aug, parent), last)];
        }
        if k < KeyOf(key, parent) {
          side, cur := L, mem[parent].left;
        } else {
          side, cur := R, mem[parent].right;
          first := false;
        }
        c, t := Step(c, t.id, t.red, d, t.Child(d.Flip())), t.Child(d);
      }
    }

    /** rb_link_node. */
    method LinkNode(node: Ptr, parent: Ptr, side: Side, ghost c: Ctx)
      requires Zip(mem, root, c, Leaf) && node != NULL && node !in c.Ids()
      requires parent == c.Root() && (c.Step? ==> side == c.side)
      modifies this`mem, this`root
      ensures Zip(mem, root, c, Node(Leaf, node, true, Leaf))
    {
      ghost var m, r := mem, root;
      CtxRoot(mem, root, c, NULL);
      mem := mem[node := Links(NULL, NULL, parent, true)];
      if parent == NULL {
        root := node;
      } else {
        mem := mem[parent := mem[parent].SetChild(side, node)];
      }
      LinkZip(m, mem, r, root, c, node);
    }

    /** rb_link_node and the cached insert-color wrappers: link a red leaf at the slot and rebalance. */
    method LinkAndColor(node: Ptr, k: int, last: nat, parent: Ptr, side: Side, first: bool, ghost c: Ctx)
      requires Zip(mem, root, c, Leaf) && c.Plug(Leaf) == tree && tree.RedBlack() && !tree.IsRed()
      requires node != NULL && node !in Order() && parent == c.Root() && (c.Step? ==> side == c.side)
      requires SortedBy(Order(), key) && KeysAround(c, key, k) && (first <==> c.Before() == [])
      requires leftmost == if Order() == [] then NULL else Order()[0]
      requires augmented ==> CtxAugmented(value, aug, c, last)
      modifies this
      ensures Valid() && key == old(key)[node := k] && value == old(value)[node := last]
      ensures Order() == InsertAt(old(Order()), UpperBound(old(Order()), old(key), k), node)
    {
      LinkedOrder(tree, c, key, k, node);
      assert Node(Leaf, node, true, Leaf).InOrder() == [node];
      if augmented {
        LinkAugmented(value, aug, c, node, last);
      }
      key := key[node := k];
      value := value[node := last];
      aug := aug[node := last];
      LinkNode(node, parent, side, c);
      if first {
        leftmost := node;
      }
      InsertColor(node, c, Node(Leaf, node, true, Leaf));
    }

    /** Where the descent from the root starts. */
    lemma TopStart(k: int)
      requires Holds(Top, tree)
      ensures root == tree.Root() && Top.Plug(tree) == tree && KeysAround(Top, key, k) && Top.Before() == []
    {
    }

    /** The place of a new leaf with key `k`, all maxima above it being raised to `last`. */
    ghost predicate AtSlot(k: int, last: nat, parent: Ptr, side: Side, first: bool, c: Ctx)
      reads this
    {
      && Zip(mem, root, c, Leaf) && c.Plug(Leaf) == tree && parent == c.Root() && (c.Step? ==> side == c.side)
      && KeysAround(c, key, k) && (first <==> c.Before() == [])
      && (augmented ==> CtxAugmented(value, aug, c, last))
    }

    /** The descent from the root. */
    method FindSlot(k: int, last: nat) returns (parent: Ptr, side: Side, first: bool, ghost c: Ctx)
      requires Valid()
      modifies this`aug
      ensures AtSlot(k, last, parent, side, first, c)
    {
      hide KeysAround, SortedBy, UpperBound, Augmented, CtxAugmented, Tree.InOrder, Ctx.After, MaxValue, Rep, Ctx.Plug;
      if augmented { MaxRaised(value, aug, tree, last); }
      TopStart(k);
      parent, side, first, c := Descend(k, last, NULL, root, true, Top, tree);
    }

    /** drm_mm_interval_tree_insert, insert_hole_size (with the negated size as key) and RB_INSERT: the node goes
        behind the nodes whose key is not larger. */
    method Insert(node: Ptr, k: int, last: nat)
      requires Valid() && node != NULL && node !in Order()
      modifies this
      ensures Valid() && key == old(key)[node := k] && value == old(value)[node := last]
      ensures Order() == InsertAt(old(Order()), UpperBound(old(Order()), old(key), k), node)
    {
      hide KeysAround, SortedBy, UpperBound, Augmented, CtxAugmented, Tree.InOrder, Ctx.After, MaxValue, Rep, Ctx.Plug;
      var parent, side, first;
      ghost var c;
      parent, side, first, c := FindSlot(k, last);
      LinkAndColor(node, k, last, parent, side, first, c);
    }

    /** The first loop of drm_mm_interval_tree_add_node: raises the maxima from the hint upwards, and stops at the
        first one that is large enough already. */
    method RaiseAbove(hint: Ptr, last: nat, ghost c0: Ctx, ghost mx: nat, ghost child: Ptr)
      requires CtxRep(mem, root, c0, child) && c0.Distinct() && c0.Root() == hint
      requires CtxAugmented(value, aug, c0, mx)
      modifies this`aug
      ensures Raised(old(aug), aug, Path(c0), last)
    {
      var rb := hint;
      ghost var c, m, ch := c0, mx, child;
      CtxRoot(mem, root, c, ch);
      while rb != NULL
        invariant CtxRep(mem, root, c, ch) && c.Distinct() && rb == c.Root() && (rb == NULL <==> c.Top?)
        invariant CtxAugmented(value, old(aug), c, m) && Path(c) <= Path(c0)
        invariant Raised(old(aug), aug, Path(c0) - Path(c), last)
        decreases c
      {
        PathIds(c.up);
        if Val(aug, rb) >= last {
          PathAtLeast(value, old(aug), c.up, Val(old(aug), c.id), last);
          break;
        }
        aug := aug[rb := last];
        rb := mem[rb].parent;
        m, ch, c := Val(old(aug), c.id), c.id, c.up;
        CtxRoot(mem, root, c, ch);
      }
    }

    /** The hole of the tree directly behind the hint. */
    lemma HintStart(hint: Ptr, k: int) returns (c0: Ctx, t: Tree)
      requires Valid() && augmented && hint in Order()
      requires UpperBound(Order(), key, k) == IndexOf(Order(), hint) + 1
      ensures Zip(mem, root, c0, t) && c0.Plug(t) == tree && c0.Root() == hint && c0.Step? && c0.side.R?
      ensures hint in mem && mem[hint].right == t.Root()
      ensures KeysAround(c0, key, k) && c0.Before() != []
      ensures CtxAugmented(value, aug, c0, MaxValue(value, t)) && Augmented(value, aug, t)
    {
      var c1, t1, a := Locate(hint);
      c0, t := Step(c1, hint, t1.red, R, t1.left), t1.right;
      ChildCells(mem, root, c1, t1);
      HintKeys(c1, t1, tree, key, k);
      HintAugmented(value, aug, c1, t1);
    }

    /** The search of drm_mm_interval_tree_add_node: it starts below the node in front of the hole, or at the root for
        the hole at the very front. */
    method FindSlotHinted(hint: Ptr, k: int, last: nat) returns (parent: Ptr, side: Side, first: bool, ghost c: Ctx)
      requires Valid() && augmented && (hint != NULL ==> hint in Order())
      requires UpperBound(Order(), key, k) == if hint == NULL then 0 else IndexOf(Order(), hint) + 1
      modifies this`aug
      ensures AtSlot(k, last, parent, side, first, c)
    {
      hide KeysAround, SortedBy, UpperBound, Augmented, CtxAugmented, Tree.InOrder, Ctx.After;
      hide IndexOf, Rep, CtxRep, Raised, MaxValue, InsertAt, Ctx.Plug;
      if hint != NULL {
        ghost var c0, t := HintStart(hint, k);
        ghost var a0 := aug;
        RaiseAbove(hint, last, c0, MaxValue(value, t), t.Root());
        HintRaised(value, a0, aug, c0, t, last);
        parent, side, first, c := Descend(k, last, hint, mem[hint].right, false, c0, t);
      } else {
        parent, side, first, c := FindSlot(k, last);
      }
    }

    /** drm_mm_interval_tree_add_node. The result is that of the generic insert. */
    method InsertHinted(hint: Ptr, node: Ptr, k: int, last: nat)
      requires Valid() && augmented && node != NULL && node !in Order()
      requires hint != NULL ==> hint in Order()
      requires UpperBound(Order(), key, k) == if hint == NULL then 0 else IndexOf(Order(), hint) + 1
      modifies this
      ensures Valid() && key == old(key)[node := k] && value == old(value)[node := last]
      ensures Order() == InsertAt(old(Order()), UpperBound(old(Order()), old(key), k), node)
    {
      hide KeysAround, SortedBy, UpperBound, Augmented, CtxAugmented, Tree.InOrder, Ctx.After, IndexOf, Rep, CtxRep;
      hide Ctx.Plug;
      var parent, side, first;
      ghost var c;
      parent, side, first, c := FindSlotHinted(hint, k, last);
      LinkAndColor(node, k, last, parent, side, first, c);
    }

    // ----- rbtree.h: the cached wrappers

    /** rb_replace_node_cached: `new'` takes over the links, the colour, the key and the maximum of `victim`. */
    method ReplaceNode(victim: Ptr, new': Ptr)
      requires Valid() && victim in Order() && new' != NULL && new' !in Order()
      modifies this
      ensures Valid() && Order() == Rename(old(Order()), victim, new')
      ensures key == old(key)[new' := KeyOf(old(key), victim)] && value == old(value)[new' := Val(old(value), victim)]
    {
      ghost var order := Order();
      ghost var c, t, a := Locate(victim);
      ghost var m, r := mem, root;
      ReplaceStart(c, t, victim, new');
      if leftmost == victim {
        leftmost := new';
      }
      key := key[new' := KeyOf(key, victim)];
      value := value[new' := Val(value, victim)];
      aug := aug[new' := Val(aug, victim)];
      ReplacePointers(victim, new', c, t);
      tree := c.Plug(Node(t.left, new', t.red, t.right));
      ZipPlug(mem, root, c, Node(t.left, new', t.red, t.right));
      ZipAugmentedPlug(value, aug, c, Node(t.left, new', t.red, t.right));
    }

    /** rb_replace_node. */
    method ReplacePointers(victim: Ptr, new': Ptr, ghost c: Ctx, ghost t: Tree)
      requires Zip(mem, root, c, t) && t.Node? && t.id == victim && new' != NULL && new' !in c.Ids() && new' !in t.Ids()
      modifies this`mem, this`root
      ensures Zip(mem, root, c, Node(t.left, new', t.red, t.right))
    {
      ghost var m, r := mem, root;
      ReplaceCells(mem, root, c, t);
      var parent := mem[victim].parent;
      mem := mem[new' := mem[victim]];
      if mem[victim].left != NULL {
        var left := mem[victim].left;
        mem := mem[left := mem[left].(parent := new')];
      }
      if mem[victim].right != NULL {
        var right := mem[victim].right;
        mem := mem[right := mem[right].(parent := new')];
      }
      ChangeChild(victim, new', parent);
      ReplaceZip(m, mem, r, root, c, t, new');
    }

    lemma ReplaceStart(c: Ctx, t: Tree, victim: Ptr, new': Ptr)
      requires Valid() && Holds(c, t) && t.Node? && t.id == victim && c.Plug(t) == tree
      requires victim in Order() && new' != NULL && new' !in Order()
      ensures new' !in c.Ids() && new' !in t.Ids()
      ensures var t' := Node(t.left, new', t.red, t.right);
              && c.Plug(t').InOrder() == Rename(Order(), victim, new')
              && c.Plug(t').RedBlack() && !c.Plug(t').IsRed()
              && (augmented ==>
                    ZipAugmented(value[new' := Val(value, victim)], aug[new' := Val(aug, victim)], c, t'))
      ensures SortedBy(Rename(Order(), victim, new'), key[new' := KeyOf(key, victim)])
      ensures Order() != [] && (leftmost == victim <==> Order()[0] == victim)
    {
      var t' := Node(t.left, new', t.red, t.right);
      IdsInOrder(tree);
      PlugIds(c, t);
      ReplaceInOrder(c, t, new');
      UnplugRedBlack(c, t);
      PlugRedBlack(c, t');
      if augmented { ReplaceAugmented(value, aug, c, t, new'); }
      RenamedSorted(Order(), key, victim, new');
    }

    /** rb_erase_cached and rb_erase_augmented_cached: exactly the erased node disappears from the order. */
    method Erase(node: Ptr)
      requires Valid() && node in Order()
      modifies this`mem, this`root, this`leftmost, this`aug, this`tree
      ensures Valid() && Order() == Without(old(Order()), node)
    {
      hide Tree.InOrder, Without, Ctx.Before, Ctx.After, SortedBy, IndexOf;
      ghost var c, t, a, b := EraseStart(node);
      if leftmost == node {
        leftmost := Next(node);
      }
      EraseAt(node, c, t, a, b);
    }

    lemma EraseStart(node: Ptr) returns (c: Ctx, t: Tree, a: seq<Ptr>, b: seq<Ptr>)
      requires Valid() && node in Order()
      ensures t.Node? && t.id == node && c.Plug(t) == tree && Holds(c, t)
      ensures a == c.Before() + t.left.InOrder() && b == t.right.InOrder() + c.After()
      ensures Without(Order(), node) == a + b && SortedBy(a + b, key)
      ensures var i := IndexOf(Order(), node);
              var l := if leftmost != node then leftmost else if i + 1 < |Order()| then Order()[i + 1] else NULL;
              l == if a + b == [] then NULL else (a + b)[0]
    {
      c, t, a := Locate(node);
      b := t.right.InOrder() + c.After();
      DistinctInOrder(tree);
      ErasedOrder(Order(), a, node, b, key);
    }

    /** rb_erase and rb_erase_augmented. */
    method EraseAt(node: Ptr, ghost c: Ctx, ghost t: Tree, ghost a: seq<Ptr>, ghost b: seq<Ptr>)
      requires Holds(Top, tree) && tree.RedBlack() && !tree.IsRed() && Holds(c, t) && c.Plug(t) == tree
      requires t.Node? && t.id == node
      requires a == c.Before() + t.left.InOrder() && b == t.right.InOrder() + c.After()
      modifies this`mem, this`root, this`aug, this`tree
      ensures Holds(Top, tree) && tree.RedBlack() && !tree.IsRed() && Order() == a + b
    {
      hide Tree.InOrder, Ctx.Before, Ctx.After;
      UnplugRedBlack(c, t);
      Regroup(c.Before(), t.left.InOrder(), node, t.right.InOrder(), c.After());
      var rebalance;
      ghost var c', t';
      rebalance, c', t' := EraseAugmented(node, c, t);
      if rebalance != NULL {
        LeafBetween(c');
        EraseColor(rebalance, c');
      } else {
        Settle(c', t');
      }
    }
  }

  /** Both searches on the same tree, the hinted one on `a` and the one from the root on `b`: the leaf would hang on the
      same link, with the same leftmost flag, and every node stores the same maximum. */
  method SameDescent(a: RbTree, b: RbTree, hint: Ptr, k: int, last: nat)
    returns (parent: Ptr, side: Side, first: bool, parent': Ptr, side': Side, first': bool)
    requires a != b && a.Valid() && a.augmented && (hint != NULL ==> hint in a.Order())
    requires UpperBound(a.Order(), a.key, k) == if hint == NULL then 0 else IndexOf(a.Order(), hint) + 1
    requires b.augmented && b.tree == a.tree && b.root == a.root && b.leftmost == a.leftmost && b.mem == a.mem
    requires b.key == a.key && b.value == a.value && b.aug == a.aug
    modifies a`aug, b`aug
    ensures parent == parent' && (parent != NULL ==> side == side') && first == first'
    ensures SameValues(a.aug, b.aug, a.tree.Ids())
  {
    hide KeysAround, SortedBy, UpperBound, Augmented, CtxAugmented, Tree.InOrder, Ctx.Before, Ctx.After, IndexOf;
    hide Rep, CtxRep;
    hide Ctx.Plug;
    SameValid(a, b);
    ghost var c, c';
    parent, side, first, c := a.FindSlotHinted(hint, k, last);
    parent', side', first', c' := b.FindSlot(k, last);
    SameSlot(a.tree, c, c', a.key, k);
    SameUpdates(a.value, a.aug, b.aug, c, last);
    PlugIds(c, Leaf);
  }

  lemma SameValid(a: RbTree, b: RbTree)
    requires a.Valid() && b.augmented == a.augmented && b.tree == a.tree && b.root == a.root && b.leftmost == a.leftmost
    requires b.mem == a.mem && b.key == a.key && b.value == a.value && b.aug == a.aug
    ensures b.Valid()
  {
    hide KeysAround, SortedBy, Augmented, CtxAugmented, Tree.InOrder, Rep, CtxRep, Tree.RedBlack;
  }

  lemma LeafBetween(c: Ctx)
    ensures c.Before() + Leaf.InOrder() + c.After() == c.Before() + c.After()
  {
  }

  lemma NextElement(s: seq<Ptr>, a: seq<Ptr>, x: Ptr, b: seq<Ptr>)
    requires s == a + [x] + b && x !in a
    ensures x in s && IndexOf(s, x) == |a|
    ensures b != [] ==> s[|a| + 1] == b[0]
    ensures a != [] ==> s[|a| - 1] == a[|a| - 1]
  {
    assert s[|a|] == x;
    assert forall i :: 0 <= i < |a| ==> s[i] == a[i];
  }

  /** What erasing `x` does to the order and to its first element. */
  lemma ErasedOrder(s: seq<Ptr>, a: seq<Ptr>, x: Ptr, b: seq<Ptr>, key: Keys<Ptr>)
    requires s == a + [x] + b && x !in a && Unique(s) && SortedBy(s, key)
    ensures Without(s, x) == a + b && SortedBy(a + b, key)
    ensures x in s && (s[0] == x <==> a == [])
    ensures a != [] ==> a + b != [] && s[0] == (a + b)[0]
    ensures a == [] ==>
              a + b == b && (var i := IndexOf(s, x); if i + 1 < |s| then b != [] && s[i + 1] == b[0] else b == [])
  {
    NextElement(s, a, x, b);
    WithoutSplit(a, x, b);
    WithoutSorted(s, key, x);
    assert a != [] ==> a[0] in a;
  }

  /** Every node of a tree has a zipper, whose left part lists the nodes before it. */
  lemma LocateIn(tree: Tree, node: Ptr) returns (c: Ctx, t: Tree, before: seq<Ptr>)
    requires tree.Distinct() && node in tree.InOrder()
    ensures t.Node? && t.id == node && c.Plug(t) == tree
    ensures before == c.Before() + t.left.InOrder() && before == tree.InOrder()[..IndexOf(tree.InOrder(), node)]
    ensures tree.InOrder() == before + [node] + (t.right.InOrder() + c.After()) && node !in before
  {
    IdsInOrder(tree);
    c, t := Focus(Top, tree, node);
    PlaceInOrder(c, t);
    before := c.Before() + t.left.InOrder();
    DistinctInOrder(tree);
    SplitUnique(tree.InOrder(), before, node, t.right.InOrder() + c.After());
  }

  lemma SplitUnique(s: seq<Ptr>, a: seq<Ptr>, x: Ptr, b: seq<Ptr>)
    requires s == a + [x] + b && Unique(s)
    ensures x !in a && x in s && IndexOf(s, x) == |a| && s[..|a|] == a
  {
    assert s[|a|] == x;
    forall i | 0 <= i < |a| ensures a[i] != x {
      assert s[i] == a[i];
    }
  }

  /** The new order, its first element, and that the fix-up may start. */
  lemma LinkedOrder(tree: Tree, c: Ctx, key: Keys<Ptr>, k: int, x: Ptr)
    requires c.Plug(Leaf) == tree && tree.RedBlack() && !tree.IsRed()
    requires x !in tree.InOrder() && SortedBy(tree.InOrder(), key) && KeysAround(c, key, k)
    ensures x !in c.Ids() && c.RedBlack(0)
    ensures c.Before() + [x] + c.After() == InsertAt(tree.InOrder(), UpperBound(tree.InOrder(), key, k), x)
    ensures SortedBy(c.Before() + [x] + c.After(), key[x := k])
    ensures c.Before() == [] ==> (c.Before() + [x] + c.After())[0] == x
    ensures c.Before() != [] ==> tree.InOrder() != [] && (c.Before() + [x] + c.After())[0] == tree.InOrder()[0]
  {
    var s, a, b := tree.InOrder(), c.Before(), c.After();
    LinkReady(c, tree, key, k);
    IdsInOrder(tree);
    InsertedOrder(s, a, b, key, k, x);
  }

  lemma InsertedOrder(s: seq<Ptr>, a: seq<Ptr>, b: seq<Ptr>, key: Keys<Ptr>, k: int, x: Ptr)
    requires s == a + b && x !in s && SortedBy(s, key) && UpperBound(s, key, k) == |a|
    requires forall y :: y in a ==> KeyOf(key, y) <= k
    requires forall y :: y in b ==> KeyOf(key, y) > k
    ensures a + [x] + b == InsertAt(s, |a|, x) && SortedBy(a + [x] + b, key[x := k])
    ensures a != [] ==> s != [] && (a + [x] + b)[0] == s[0]
    ensures a == [] ==> (a + [x] + b)[0] == x
  {
    hide UpperBound, SortedBy;
    var key' := key[x := k];
    KeyFrame(s, key, x, k);
    assert s[..|a|] == a && s[|a|..] == b;
    forall i | 0 <= i < |a| ensures KeyOf(key', a[i]) <= k {
      assert a[i] in a && s[i] in s;
    }
    if b != [] {
      assert b[0] in b && s[|a|] in s && s[|a|] == b[0];
    }
    UpperBoundIs(a, b, key', k);
    UpperBoundSorted(s, key', x);
  }

  lemma LinkAugmented(v: Values, aug: Values, c: Ctx, node: Ptr, last: nat)
    requires CtxAugmented(v, aug, c, last) && node !in c.Ids()
    ensures ZipAugmented(v[node := last], aug[node := last], c, Node(Leaf, node, true, Leaf))
  {
    CtxAugmentedFrame1(v, aug, node, last, c, last);
    CtxValueFrame(v, v[node := last], aug[node := last], c, last);
  }
}
