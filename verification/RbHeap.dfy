/** What the links of kernel/api/kapi_rbtree.c say about the shape, before and after a rotation. */
module RbHeap {
  import opened RbShape

  /** None of the nodes a rotation touches below its place lies in `s`. */
  ghost predicate Clear(s: set<Node>, x: Node, y: Node, b: Tree) {
    x !in s && y !in s && (b.Branch? ==> b.node !in s)
  }

  /** The parts of a rotation share no node. */
  ghost predicate Apart(ctx: Ctx, a: Tree, x: Node, b: Tree, y: Node, c: Tree) {
    && x != y && Clear(Nodes(a), x, y, b) && Clear(Nodes(c), x, y, b) && Clear(CtxNodes(ctx), x, y, b)
    && (b.Branch? ==> b.node != x && b.node != y && Clear(Nodes(b.left), x, y, b) && Clear(Nodes(b.right), x, y, b))
  }

  lemma {:induction false} OpenRight(ctx: Ctx, a: Tree, x: Node, cx: Color, b: Tree, y: Node, cy: Color, c: Tree, root: Node?)
    requires At(ctx, Branch(a, x, cx, Branch(b, y, cy, c)), root)
    ensures Apart(ctx, a, x, b, y, c)
    ensures x.right == y && x.parent == Outer(ctx) && y.parent == x && x.color == cx && y.color == cy
    ensures Shape(a, x.left, x) && Shape(b, y.left, y) && Shape(c, y.right, y) && CtxShape(ctx, x, root)
  {
    var low, was := Branch(b, y, cy, c), Branch(a, x, cx, Branch(b, y, cy, c));
    assert Distinct(was) && Distinct(low) && Distinct(b) && Shape(was, x, Outer(ctx)) && Shape(low, x.right, x);
    assert Nodes(low) == Nodes(b) + {y} + Nodes(c) && Nodes(was) == Nodes(a) + {x} + Nodes(low);
  }

  lemma {:induction false} OpenLeft(ctx: Ctx, a: Tree, y: Node, cy: Color, b: Tree, x: Node, cx: Color, c: Tree, root: Node?)
    requires At(ctx, Branch(Branch(a, y, cy, b), x, cx, c), root)
    ensures Apart(ctx, a, x, b, y, c)
    ensures x.left == y && x.parent == Outer(ctx) && y.parent == x && x.color == cx && y.color == cy
    ensures Shape(a, y.left, y) && Shape(b, y.right, y) && Shape(c, x.right, x) && CtxShape(ctx, x, root)
  {
    var low, was := Branch(a, y, cy, b), Branch(Branch(a, y, cy, b), x, cx, c);
    assert Distinct(was) && Distinct(low) && Distinct(b) && Shape(was, x, Outer(ctx)) && Shape(low, x.left, x);
    assert Nodes(low) == Nodes(a) + {y} + Nodes(b) && Nodes(was) == Nodes(low) + {x} + Nodes(c);
  }

  /** A rotation keeps the node set and the distinctness of its nodes. */
  lemma {:induction false} TurnKeepsNodes(a: Tree, x: Node, cx: Color, b: Tree, y: Node, cy: Color, c: Tree)
    ensures var t, u := Branch(a, x, cx, Branch(b, y, cy, c)), Branch(Branch(a, x, cx, b), y, cy, c);
      (Distinct(t) <==> Distinct(u)) && Nodes(t) == Nodes(u)
  {
    assert Distinct(Branch(b, y, cy, c)) <==>
      Distinct(b) && Distinct(c) && y !in Nodes(b) && y !in Nodes(c) && Nodes(b) !! Nodes(c);
    assert Distinct(Branch(a, x, cx, b)) <==>
      Distinct(a) && Distinct(b) && x !in Nodes(a) && x !in Nodes(b) && Nodes(a) !! Nodes(b);
    assert Nodes(Branch(b, y, cy, c)) == Nodes(b) + {y} + Nodes(c);
    assert Nodes(Branch(a, x, cx, b)) == Nodes(a) + {x} + Nodes(b);
  }

  /** A rotation keeps the key order. */
  lemma {:induction false} TurnKeepsOrder(a: Tree, x: Node, cx: Color, b: Tree, y: Node, cy: Color, c: Tree)
    ensures InOrder(Branch(a, x, cx, Branch(b, y, cy, c))) == InOrder(Branch(Branch(a, x, cx, b), y, cy, c))
  {
    assert InOrder(Branch(b, y, cy, c)) == InOrder(b) + [y] + InOrder(c);
    assert InOrder(Branch(a, x, cx, b)) == InOrder(a) + [x] + InOrder(b);
  }

  /** What the links around a place say about the tree there. */
  lemma {:induction false} Peek(ctx: Ctx, t: Tree, root: Node?)
    requires At(Top, Plug(ctx, t), root)
    ensures Nodes(Plug(ctx, t)) == CtxNodes(ctx) + Nodes(t)
    ensures t.Branch? ==>
      t.node.left == RootOf(t.left) && t.node.right == RootOf(t.right) && t.node.parent == Outer(ctx) && t.node.color == t.color
    ensures ctx.InLeft? ==>
      ctx.node.left == RootOf(t) && ctx.node.right == RootOf(ctx.right) && ctx.node.parent == Outer(ctx.up) && ctx.node.color == ctx.color
    ensures ctx.InRight? ==>
      ctx.node.left == RootOf(ctx.left) && ctx.node.right == RootOf(t) && ctx.node.parent == Outer(ctx.up) && ctx.node.color == ctx.color
    ensures t.Branch? ==> Outer(ctx) != t.node
    ensures ctx.InLeft? && t.Branch? ==> RootOf(ctx.right) != t.node
    ensures ctx.InRight? && t.Branch? ==> RootOf(ctx.left) != t.node
    ensures root == null <==> Plug(ctx, t).Leaf?
    ensures ctx.Top? ==> root == RootOf(t)
  {
    Zip(ctx, t, root);
    PlugNodes(ctx, t);
    assert t.Branch? ==> t.node in Nodes(t);
    assert t.Branch? ==> Shape(t.left, t.node.left, t.node) && Shape(t.right, t.node.right, t.node);
    assert ctx.InLeft? && ctx.right.Branch? ==> ctx.right.node in Nodes(ctx.right);
    assert ctx.InRight? && ctx.left.Branch? ==> ctx.left.node in Nodes(ctx.left);
  }
}
