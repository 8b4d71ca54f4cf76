/** The pointer memory of struct rb_node (linux/rbtree.h) and the mathematical trees it is meant to represent.

    A `Memory` maps node addresses to link records; every C store is an update of one record.  `Tree` is the shape
    a root pointer represents, `Ctx` is a shape with one subtree missing (the path above a node), and the `Rep`
    predicates say that the memory represents a shape, parent pointers included. */
module RbShape {
  import opened KernelMath
  import opened Sequences

  type Ptr = nat

  const NULL: Ptr := 0

  /** The two mirror images of every tree operation differ only in which child they touch. */
  datatype Side = L | R {
    function Flip(): Side { if L? then R else L }
  }

  /** struct rb_node, with the colour kept apart from the parent pointer. */
  datatype Links = Links(left: Ptr, right: Ptr, parent: Ptr, red: bool) {
    function Child(d: Side): Ptr { if d.L? then left else right }

    function SetChild(d: Side, p: Ptr): Links {
      if d.L? then this.(left := p) else this.(right := p)
    }
  }

  type Memory = map<Ptr, Links>

  datatype Tree = Leaf | Node(left: Tree, id: Ptr, red: bool, right: Tree) {

    function Root(): Ptr { if Leaf? then NULL else id }

    predicate IsRed() { Node? && red }

    function Child(d: Side): Tree
      requires Node?
    {
      if d.L? then left else right
    }

    ghost function Ids(): set<Ptr> {
      if Leaf? then {} else left.Ids() + {id} + right.Ids()
    }

    ghost function InOrder(): seq<Ptr> {
      if Leaf? then [] else left.InOrder() + [id] + right.InOrder()
    }

    ghost predicate Distinct() {
      Node? ==>
        && left.Distinct() && right.Distinct()
        && id !in left.Ids() && id !in right.Ids() && left.Ids() !! right.Ids()
    }

    /** The same tree with its root recoloured. */
    function Paint(red: bool): Tree {
      if Leaf? then Leaf else Node(left, id, red, right)
    }

    /** The number of black nodes on the leftmost path. */
    ghost function BlackHeight(): nat {
      if Leaf? then 0 else left.BlackHeight() + if red then 0 else 1
    }

    /** Properties 4 and 5 of rbtree.c: no red node has a red child, all leaf paths have equally many black nodes. */
    ghost predicate RedBlack() {
      Node? ==>
        && left.RedBlack() && right.RedBlack()
        && left.BlackHeight() == right.BlackHeight()
        && (red ==> !left.IsRed() && !right.IsRed())
    }

    ghost function Height(): nat {
      if Leaf? then 0
      else if left.Height() > right.Height() then left.Height() + 1 else right.Height() + 1
    }
  }

  /** The node whose `d` child is `near` and whose other child is `far`. */
  function Mk(d: Side, near: Tree, id: Ptr, red: bool, far: Tree): Tree {
    if d.L? then Node(near, id, red, far) else Node(far, id, red, near)
  }

  /** A tree with a hole: in `Step`, the hole is under the `side` child of node `id`. */
  datatype Ctx = Top | Step(up: Ctx, id: Ptr, red: bool, side: Side, sibling: Tree) {

    function Root(): Ptr { if Top? then NULL else id }

    predicate IsRed() { Step? && red }

    ghost function Ids(): set<Ptr> {
      if Top? then {} else up.Ids() + {id} + sibling.Ids()
    }

    ghost predicate Distinct() {
      Step? ==>
        && up.Distinct() && sibling.Distinct()
        && id !in up.Ids() && id !in sibling.Ids() && up.Ids() !! sibling.Ids()
    }

    ghost function Plug(t: Tree): Tree {
      if Top? then t else up.Plug(Mk(side, t, id, red, sibling))
    }

    /** The nodes before, and after, the hole in order. */
    ghost function Before(): seq<Ptr> {
      if Top? then [] else if side.L? then up.Before() else up.Before() + sibling.InOrder() + [id]
    }

    ghost function After(): seq<Ptr> {
      if Top? then [] else if side.L? then [id] + sibling.InOrder() + up.After() else up.After()
    }

    /** Plugging in a red-black tree of black height `h`, not red under a red node, gives a red-black tree with a
        black root. */
    ghost predicate RedBlack(h: nat) {
      Step? ==>
        && sibling.RedBlack() && sibling.BlackHeight() == h
        && (red ==> !sibling.IsRed() && up.Step? && !up.red)
        && up.RedBlack(if red then h else h + 1)
    }
  }

  // ----- what the memory represents

  ghost predicate Rep(m: Memory, parent: Ptr, t: Tree)
    decreases t
  {
    t.Node? ==>
      && t.id != NULL && t.id in m
      && m[t.id] == Links(t.left.Root(), t.right.Root(), parent, t.red)
      && Rep(m, t.id, t.left) && Rep(m, t.id, t.right)
  }

  /** `t`'s root record has the right children and the subtrees are represented; its parent and colour are free. */
  ghost predicate Body(m: Memory, t: Tree)
    requires t.Node?
  {
    && t.id != NULL && t.id in m
    && m[t.id].left == t.left.Root() && m[t.id].right == t.right.Root()
    && Rep(m, t.id, t.left) && Rep(m, t.id, t.right)
  }

  ghost predicate CtxRep(m: Memory, root: Ptr, c: Ctx, child: Ptr) {
    if c.Top? then root == child else
    && c.id != NULL && c.id in m
    && m[c.id].Child(c.side) == child && m[c.id].Child(c.side.Flip()) == c.sibling.Root()
    && m[c.id].parent == c.up.Root() && m[c.id].red == c.red
    && Rep(m, c.id, c.sibling)
    && CtxRep(m, root, c.up, c.id)
  }

  /** The memory represents `c` with `t` in its hole, and no node occurs twice. */
  ghost predicate Zip(m: Memory, root: Ptr, c: Ctx, t: Tree) {
    && Rep(m, c.Root(), t) && CtxRep(m, root, c, t.Root())
    && t.Distinct() && c.Distinct() && t.Ids() !! c.Ids()
  }

  /** The memories agree on the records of `s`. */
  ghost predicate Agree(m: Memory, m': Memory, s: set<Ptr>) {
    forall x :: x in s && x in m ==> x in m' && m'[x] == m[x]
  }

  // ----- `Mk` seen from either side

  lemma MkRep(m: Memory, parent: Ptr, d: Side, near: Tree, id: Ptr, red: bool, far: Tree)
    ensures Rep(m, parent, Mk(d, near, id, red, far)) <==>
              && id != NULL && id in m
              && m[id].Child(d) == near.Root() && m[id].Child(d.Flip()) == far.Root()
              && m[id].parent == parent && m[id].red == red
              && Rep(m, id, near) && Rep(m, id, far)
  {
  }

  lemma MkDistinct(d: Side, near: Tree, id: Ptr, red: bool, far: Tree)
    ensures Mk(d, near, id, red, far).Ids() == near.Ids() + {id} + far.Ids()
    ensures Mk(d, near, id, red, far).Distinct() <==>
              && near.Distinct() && far.Distinct()
              && id !in near.Ids() && id !in far.Ids() && near.Ids() !! far.Ids()
  {
  }

  lemma MkAugmented(v: Values, aug: Values, d: Side, near: Tree, id: Ptr, red: bool, far: Tree)
    ensures MaxValue(v, Mk(d, near, id, red, far)) == Max(Val(v, id), Max(MaxValue(v, near), MaxValue(v, far)))
    ensures Augmented(v, aug, Mk(d, near, id, red, far)) <==>
              && Val(aug, id) == MaxValue(v, Mk(d, near, id, red, far))
              && Augmented(v, aug, near) && Augmented(v, aug, far)
  {
  }

  lemma MkRedBlack(d: Side, near: Tree, id: Ptr, red: bool, far: Tree)
    ensures var t := Mk(d, near, id, red, far);
            && (t.RedBlack() <==>
                  && near.RedBlack() && far.RedBlack() && near.BlackHeight() == far.BlackHeight()
                  && (red ==> !near.IsRed() && !far.IsRed()))
            && (t.RedBlack() ==> t.BlackHeight() == near.BlackHeight() + if red then 0 else 1)
  {
  }

  /** Rotations keep the order. */
  lemma RotateInOrder(e: Side, x: Tree, rise: Ptr, inner: Tree, down: Ptr, u: Tree, r0: bool, r1: bool, r2: bool,
                      r3: bool)
    ensures Mk(e, x, rise, r0, Mk(e.Flip(), u, down, r1, inner)).InOrder()
         == Mk(e, Mk(e, x, rise, r2, inner), down, r3, u).InOrder()
  {
    var a, b, c := x.InOrder(), inner.InOrder(), u.InOrder();
    assert a + [rise] + (b + [down] + c) == (a + [rise] + b) + [down] + c;
    assert (c + [down] + b) + [rise] + a == c + [down] + (b + [rise] + a);
  }

  lemma {:induction false} RepFrame(m: Memory, m': Memory, parent: Ptr, t: Tree)
    requires Rep(m, parent, t) && Agree(m, m', t.Ids())
    ensures Rep(m', parent, t)
    decreases t
  {
    if t.Node? {
      RepFrame(m, m', t.id, t.left);
      RepFrame(m, m', t.id, t.right);
    }
  }

  /** The root record may get another parent and colour. */
  lemma RepReparent(m: Memory, m': Memory, t: Tree, parent': Ptr, red': bool)
    requires t.Node? ==>
               && Body(m, t) && t.Distinct()
               && t.id in m' && m'[t.id] == m[t.id].(parent := parent', red := red')
               && Agree(m, m', t.Ids() - {t.id})
    ensures Rep(m', parent', t.Paint(red'))
  {
    if t.Node? {
      RepFrame(m, m', t.id, t.left);
      RepFrame(m, m', t.id, t.right);
    }
  }

  lemma {:induction false} CtxFrame(m: Memory, m': Memory, root: Ptr, c: Ctx, child: Ptr)
    requires CtxRep(m, root, c, child) && Agree(m, m', c.Ids())
    ensures CtxRep(m', root, c, child)
    decreases c
  {
    if c.Step? {
      RepFrame(m, m', c.id, c.sibling);
      CtxFrame(m, m', root, c.up, c.id);
    }
  }

  /** What __rb_change_child does: the link to the hole, a child link or the root, is redirected. */
  ghost predicate Redirected(m: Memory, m': Memory, root: Ptr, root': Ptr, c: Ctx, new': Ptr) {
    if c.Top? then root' == new' else
    && root' == root && c.id in m && c.id in m'
    && m'[c.id] == m[c.id].SetChild(c.side, new')
  }

  lemma CtxRedirect(m: Memory, m': Memory, root: Ptr, root': Ptr, c: Ctx, old': Ptr, new': Ptr)
    requires CtxRep(m, root, c, old') && c.Distinct()
    requires Redirected(m, m', root, root', c, new')
    requires Agree(m, m', c.Ids() - {c.Root()})
    ensures CtxRep(m', root', c, new')
  {
    if c.Step? {
      RepFrame(m, m', c.id, c.sibling);
      CtxFrame(m, m', root, c.up, c.id);
    }
  }

  lemma {:induction false} RepRoot(m: Memory, parent: Ptr, t: Tree)
    requires Rep(m, parent, t)
    ensures t.Root() == NULL <==> t.Leaf?
    ensures NULL !in t.Ids()
    ensures t.Ids() <= m.Keys
    decreases t
  {
    if t.Node? {
      RepRoot(m, t.id, t.left);
      RepRoot(m, t.id, t.right);
    }
  }

  lemma {:induction false} CtxRoot(m: Memory, root: Ptr, c: Ctx, child: Ptr)
    requires CtxRep(m, root, c, child)
    ensures c.Root() == NULL <==> c.Top?
    ensures NULL !in c.Ids() && c.Ids() <= m.Keys
    decreases c
  {
    if c.Step? {
      RepRoot(m, c.id, c.sibling);
      CtxRoot(m, root, c.up, c.id);
    }
  }

  /** Moving the focus between a node and its child leaves the represented memory alone. */
  lemma ZipStep(m: Memory, root: Ptr, up: Ctx, id: Ptr, red: bool, d: Side, t: Tree, sibling: Tree)
    ensures Zip(m, root, Step(up, id, red, d, sibling), t) <==> Zip(m, root, up, Mk(d, t, id, red, sibling))
  {
    var c, t' := Step(up, id, red, d, sibling), Mk(d, t, id, red, sibling);
    assert t'.Ids() == t.Ids() + {id} + sibling.Ids();
    assert t'.Distinct() && up.Distinct() && t'.Ids() !! up.Ids()
      <==> t.Distinct() && c.Distinct() && t.Ids() !! c.Ids();
    assert Rep(m, up.Root(), t') && CtxRep(m, root, up, id) <==> Rep(m, id, t) && CtxRep(m, root, c, t.Root());
  }

  /** A zipper represents the plugged tree. */
  lemma {:induction false} ZipPlug(m: Memory, root: Ptr, c: Ctx, t: Tree)
    ensures Zip(m, root, c, t) <==> Zip(m, root, Top, c.Plug(t))
    decreases c
  {
    if c.Step? {
      ZipStep(m, root, c.up, c.id, c.red, c.side, t, c.sibling);
      ZipPlug(m, root, c.up, Mk(c.side, t, c.id, c.red, c.sibling));
    }
  }

  lemma {:induction false} PlugIds(k: Ctx, x: Tree)
    ensures k.Plug(x).Ids() == k.Ids() + x.Ids()
    decreases k
  {
    if k.Step? {
      var t := Mk(k.side, x, k.id, k.red, k.sibling);
      MkDistinct(k.side, x, k.id, k.red, k.sibling);
      PlugIds(k.up, t);
    }
  }

  lemma {:induction false} PlugInOrder(c: Ctx, t: Tree)
    ensures c.Plug(t).InOrder() == c.Before() + t.InOrder() + c.After()
    decreases c
  {
    if c.Step? {
      PlugInOrder(c.up, Mk(c.side, t, c.id, c.red, c.sibling));
      StepInOrder(c, t, c.red);
    }
  }

  lemma Regroup(a: seq<Ptr>, l: seq<Ptr>, x: Ptr, r: seq<Ptr>, b: seq<Ptr>)
    ensures a + (l + [x] + r) + b == (a + l) + [x] + (r + b)
    ensures a + (l + r) + b == (a + l) + (r + b)
  {
  }

  /** Widening the focus by one node keeps the whole sequence. */
  lemma StepInOrder(c: Ctx, t: Tree, red: bool)
    requires c.Step?
    ensures c.Before() + t.InOrder() + c.After()
         == c.up.Before() + Mk(c.side, t, c.id, red, c.sibling).InOrder() + c.up.After()
  {
    var b, a, i, s := c.up.Before(), c.up.After(), t.InOrder(), c.sibling.InOrder();
    if c.side.L? {
      assert b + (i + [c.id] + s) + a == b + i + ([c.id] + s + a);
    } else {
      assert b + (s + [c.id] + i) + a == (b + s + [c.id]) + i + a;
    }
  }

  lemma {:induction false} PlugRedBlack(c: Ctx, t: Tree)
    requires t.RedBlack() && c.RedBlack(t.BlackHeight())
    requires t.IsRed() ==> c.Step? && !c.red
    ensures c.Plug(t).RedBlack() && !c.Plug(t).IsRed()
    decreases c
  {
    if c.Step? {
      PlugRedBlack(c.up, Mk(c.side, t, c.id, c.red, c.sibling));
    }
  }

  /** The converse: any zipper of a red-black tree is one. */
  lemma {:induction false} UnplugRedBlack(c: Ctx, t: Tree)
    requires c.Plug(t).RedBlack() && !c.Plug(t).IsRed()
    ensures t.RedBlack() && c.RedBlack(t.BlackHeight())
    ensures t.IsRed() ==> c.Step? && !c.red
    decreases c
  {
    if c.Step? {
      UnplugRedBlack(c.up, Mk(c.side, t, c.id, c.red, c.sibling));
    }
  }

  lemma {:induction false} IdsInOrder(t: Tree)
    ensures forall x :: x in t.Ids() <==> x in t.InOrder()
    decreases t
  {
    if t.Node? {
      IdsInOrder(t.left);
      IdsInOrder(t.right);
    }
  }

  ghost predicate Apart(s: seq<Ptr>, t: seq<Ptr>) {
    forall i, j :: 0 <= i < |s| && 0 <= j < |t| ==> s[i] != t[j]
  }

  lemma UniqueConcat(s: seq<Ptr>, t: seq<Ptr>)
    ensures Unique(s + t) <==> Unique(s) && Unique(t) && Apart(s, t)
  {
    var u := s + t;
    if Unique(u) {
      assert forall i :: 0 <= i < |s| ==> s[i] == u[i];
      assert forall j :: 0 <= j < |t| ==> t[j] == u[|s| + j];
    }
  }

  lemma {:induction false} DistinctInOrder(t: Tree)
    ensures t.Distinct() <==> Unique(t.InOrder())
    decreases t
  {
    if t.Node? {
      var l, r := t.left.InOrder(), t.right.InOrder();
      DistinctInOrder(t.left);
      DistinctInOrder(t.right);
      IdsInOrder(t.left);
      IdsInOrder(t.right);
      UniqueConcat(l, [t.id]);
      UniqueConcat(l + [t.id], r);
      ApartSets(l, [t.id]);
      ApartSets(l, r);
      ApartSets(l + [t.id], r);
    }
  }

  lemma ApartSets(s: seq<Ptr>, t: seq<Ptr>)
    ensures Apart(s, t) <==> forall x :: x in s ==> x !in t
  {
    if forall x :: x in s ==> x !in t {
      forall i, j | 0 <= i < |s| && 0 <= j < |t| ensures s[i] != t[j] {
        assert s[i] in s;
      }
    }
  }

  /** Every node of a tree has a zipper that focuses on it. */
  lemma {:induction false} Focus(c: Ctx, t: Tree, x: Ptr) returns (c': Ctx, t': Tree)
    requires x in t.Ids()
    ensures t'.Node? && t'.id == x && c'.Plug(t') == c.Plug(t)
    decreases t
  {
    if t.id == x {
      c', t' := c, t;
    } else if x in t.left.Ids() {
      c', t' := Focus(Step(c, t.id, t.red, L, t.right), t.left, x);
    } else {
      c', t' := Focus(Step(c, t.id, t.red, R, t.left), t.right, x);
    }
  }

  /** At most one red node between black ones: the longest path is at most twice the black height. */
  lemma {:induction false} HeightBounded(t: Tree)
    requires t.RedBlack()
    ensures t.Height() <= 2 * t.BlackHeight() + if t.IsRed() then 1 else 0
    decreases t
  {
    if t.Node? {
      HeightBounded(t.left);
      HeightBounded(t.right);
    }
  }

  lemma {:induction false} SizeBounded(t: Tree)
    requires t.RedBlack()
    ensures |t.InOrder()| + 1 >= Pow2(t.BlackHeight())
    decreases t
  {
    if t.Node? {
      SizeBounded(t.left);
      SizeBounded(t.right);
    }
  }

  /** A valid tree of n nodes is at most 2 * log2(n + 1) high. */
  lemma LogarithmicHeight(t: Tree)
    requires t.RedBlack() && !t.IsRed()
    ensures var n := |t.InOrder()|; Pow2(t.Height()) <= (n + 1) * (n + 1)
  {
    var n, h := |t.InOrder()|, t.BlackHeight();
    HeightBounded(t);
    SizeBounded(t);
    Pow2Monotone(t.Height(), 2 * h);
    Pow2Double(h);
    SquareMonotone(Pow2(h), n + 1);
  }

  // ----- the max-last augmentation (RB_DECLARE_CALLBACKS_MAX)

  type Values = map<Ptr, nat>

  function Val(v: Values, x: Ptr): nat { if x in v then v[x] else 0 }

  /** The largest value of a subtree, 0 for none. */
  ghost function MaxValue(v: Values, t: Tree): nat {
    if t.Leaf? then 0 else Max(Val(v, t.id), Max(MaxValue(v, t.left), MaxValue(v, t.right)))
  }

  /** Every node of the subtree stores the maximum over its own subtree. */
  ghost predicate Augmented(v: Values, aug: Values, t: Tree) {
    t.Node? ==>
      && Val(aug, t.id) == MaxValue(v, t)
      && Augmented(v, aug, t.left) && Augmented(v, aug, t.right)
  }

  /** The same for the nodes above a hole whose subtree has maximum `mx`. */
  ghost predicate CtxAugmented(v: Values, aug: Values, c: Ctx, mx: nat) {
    c.Step? ==>
      && Augmented(v, aug, c.sibling)
      && Val(aug, c.id) == Max(Val(v, c.id), Max(mx, MaxValue(v, c.sibling)))
      && CtxAugmented(v, aug, c.up, Val(aug, c.id))
  }

  ghost predicate ZipAugmented(v: Values, aug: Values, c: Ctx, t: Tree) {
    Augmented(v, aug, t) && CtxAugmented(v, aug, c, MaxValue(v, t))
  }

  ghost predicate SameValues(a: Values, a': Values, s: set<Ptr>) {
    forall x :: x in s ==> Val(a', x) == Val(a, x)
  }

  lemma {:induction false} AugmentedFrame(v: Values, aug: Values, aug': Values, t: Tree)
    requires Augmented(v, aug, t) && SameValues(aug, aug', t.Ids())
    ensures Augmented(v, aug', t)
    decreases t
  {
    if t.Node? {
      AugmentedFrame(v, aug, aug', t.left);
      AugmentedFrame(v, aug, aug', t.right);
    }
  }

  lemma AugmentedFrame1(v: Values, aug: Values, p: Ptr, x: nat, t: Tree)
    requires Augmented(v, aug, t) && p !in t.Ids()
    ensures Augmented(v, aug[p := x], t)
  {
    AugmentedFrame(v, aug, aug[p := x], t);
  }

  lemma CtxAugmentedFrame1(v: Values, aug: Values, p: Ptr, x: nat, c: Ctx, mx: nat)
    requires CtxAugmented(v, aug, c, mx) && p !in c.Ids()
    ensures CtxAugmented(v, aug[p := x], c, mx)
  {
    CtxAugmentedFrame(v, aug, aug[p := x], c, mx);
  }

  lemma AugmentedFrame2(v: Values, aug: Values, p: Ptr, x: nat, q: Ptr, y: nat, t: Tree)
    requires Augmented(v, aug, t) && p !in t.Ids() && q !in t.Ids()
    ensures Augmented(v, aug[p := x][q := y], t)
  {
    AugmentedFrame(v, aug, aug[p := x][q := y], t);
  }

  lemma CtxAugmentedFrame2(v: Values, aug: Values, p: Ptr, x: nat, q: Ptr, y: nat, c: Ctx, mx: nat)
    requires CtxAugmented(v, aug, c, mx) && p !in c.Ids() && q !in c.Ids()
    ensures CtxAugmented(v, aug[p := x][q := y], c, mx)
  {
    CtxAugmentedFrame(v, aug, aug[p := x][q := y], c, mx);
  }

  lemma {:induction false} CtxAugmentedFrame(v: Values, aug: Values, aug': Values, c: Ctx, mx: nat)
    requires CtxAugmented(v, aug, c, mx) && SameValues(aug, aug', c.Ids())
    ensures CtxAugmented(v, aug', c, mx)
    decreases c
  {
    if c.Step? {
      AugmentedFrame(v, aug, aug', c.sibling);
      CtxAugmentedFrame(v, aug, aug', c.up, Val(aug, c.id));
    }
  }

  /** Changing the value of nodes outside a subtree does not concern it. */
  lemma {:induction false} ValueFrame(v: Values, v': Values, aug: Values, t: Tree)
    requires SameValues(v, v', t.Ids())
    ensures MaxValue(v', t) == MaxValue(v, t)
    ensures Augmented(v, aug, t) <==> Augmented(v', aug, t)
    decreases t
  {
    if t.Node? {
      ValueFrame(v, v', aug, t.left);
      ValueFrame(v, v', aug, t.right);
    }
  }

  lemma {:induction false} CtxValueFrame(v: Values, v': Values, aug: Values, c: Ctx, mx: nat)
    requires SameValues(v, v', c.Ids()) && CtxAugmented(v, aug, c, mx)
    ensures CtxAugmented(v', aug, c, mx)
    decreases c
  {
    if c.Step? {
      ValueFrame(v, v', aug, c.sibling);
      CtxValueFrame(v, v', aug, c.up, Val(aug, c.id));
    }
  }

  lemma {:induction false} ZipAugmentedPlug(v: Values, aug: Values, c: Ctx, t: Tree)
    ensures ZipAugmented(v, aug, c, t) <==> ZipAugmented(v, aug, Top, c.Plug(t))
    decreases c
  {
    if c.Step? {
      var t' := Mk(c.side, t, c.id, c.red, c.sibling);
      assert MaxValue(v, t') == Max(Val(v, c.id), Max(MaxValue(v, t), MaxValue(v, c.sibling)));
      assert ZipAugmented(v, aug, c, t) <==> ZipAugmented(v, aug, c.up, t');
      ZipAugmentedPlug(v, aug, c.up, t');
    }
  }

  /** The stored maximum is the largest value among the nodes of the subtree. */
  lemma {:induction false} MaxValueIsMaximum(v: Values, t: Tree)
    ensures forall x :: x in t.InOrder() ==> Val(v, x) <= MaxValue(v, t)
    ensures t.Node? ==> exists x :: x in t.InOrder() && Val(v, x) == MaxValue(v, t)
    decreases t
  {
    if t.Node? {
      MaxValueIsMaximum(v, t.left);
      MaxValueIsMaximum(v, t.right);
      assert t.id in t.InOrder();
      forall x | x in t.left.InOrder() || x in t.right.InOrder() ensures x in t.InOrder() {}
    }
  }
}
