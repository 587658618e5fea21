/** The operations of kernel/api/kapi_rbtree.c on real linked nodes. */
module RbTree {
  import opened Bits
  import opened RbShape
  import opened RbHeap

  // ------------------------------------------------------------------ comparison order

  type Cmp = (Node, Node) -> int

  ghost predicate Leq(cmp: Cmp, a: Node, b: Node) {
    cmp(a, b) <= 0
  }

  /** `cmp` orders the nodes of `s` as a total preorder: the sign flips with the arguments,
      and "not after" is transitive. */
  ghost predicate Preorder(cmp: Cmp, s: set<Node>) {
    && (forall a, b {:trigger Leq(cmp, a, b)} :: a in s && b in s ==> (Leq(cmp, a, b) <==> cmp(b, a) >= 0))
    && (forall a, b, c {:trigger Leq(cmp, a, b), Leq(cmp, b, c)} :: a in s && b in s && c in s && Leq(cmp, a, b) && Leq(cmp, b, c) ==> Leq(cmp, a, c))
  }

  ghost predicate Sorted(cmp: Cmp, q: seq<Node>) {
    forall i, j :: 0 <= i < j < |q| ==> Leq(cmp, q[i], q[j])
  }

  ghost predicate AllBefore(cmp: Cmp, x: Node, q: seq<Node>) {
    forall i :: 0 <= i < |q| ==> cmp(x, q[i]) < 0
  }

  ghost predicate NoneBefore(cmp: Cmp, x: Node, q: seq<Node>) {
    forall i :: 0 <= i < |q| ==> cmp(x, q[i]) >= 0
  }

  lemma {:induction false} SortedParts(cmp: Cmp, a: seq<Node>, b: seq<Node>, c: seq<Node>)
    requires Sorted(cmp, a + b + c)
    ensures Sorted(cmp, b)
    ensures forall i, j :: 0 <= i < |a| && 0 <= j < |b| ==> Leq(cmp, a[i], b[j])
    ensures forall i, j :: 0 <= i < |b| && 0 <= j < |c| ==> Leq(cmp, b[i], c[j])
  {
    var q := a + b + c;
    assert forall i :: 0 <= i < |a| ==> q[i] == a[i];
    assert forall i :: 0 <= i < |b| ==> q[i + |a|] == b[i];
    assert forall i :: 0 <= i < |c| ==> q[i + |a| + |b|] == c[i];
  }

  /** If `x` precedes `n` it precedes all that `n` does not follow. */
  lemma {:induction false} BeforeAll(cmp: Cmp, x: Node, n: Node, q: seq<Node>, s: set<Node>)
    requires Preorder(cmp, s) && x in s && n in s && forall i :: 0 <= i < |q| ==> q[i] in s
    requires cmp(x, n) < 0 && forall i :: 0 <= i < |q| ==> Leq(cmp, n, q[i])
    ensures AllBefore(cmp, x, q)
  {
    forall i | 0 <= i < |q| ensures cmp(x, q[i]) < 0 {
      assert Leq(cmp, n, q[i]) && !Leq(cmp, n, x);
      assert !Leq(cmp, q[i], x);
    }
  }

  lemma {:induction false} BeforeNone(cmp: Cmp, x: Node, n: Node, q: seq<Node>, s: set<Node>)
    requires Preorder(cmp, s) && x in s && n in s && forall i :: 0 <= i < |q| ==> q[i] in s
    requires cmp(x, n) >= 0 && forall i :: 0 <= i < |q| ==> Leq(cmp, q[i], n)
    ensures NoneBefore(cmp, x, q)
  {
    forall i | 0 <= i < |q| ensures cmp(x, q[i]) >= 0 {
      assert Leq(cmp, q[i], n) && Leq(cmp, n, x);
      assert Leq(cmp, q[i], x);
    }
  }

  /** Every turn on the way to the hole agrees with `cmp`. */
  ghost predicate Follows(cmp: Cmp, x: Node, ctx: Ctx) {
    match ctx
    case Top => true
    case InLeft(up, n, k, r) => cmp(x, n) < 0 && Follows(cmp, x, up)
    case InRight(up, l, n, k) => cmp(x, n) >= 0 && Follows(cmp, x, up)
  }

  /** In a sorted tree such a way ends between what `x` does not precede and what it precedes. */
  lemma {:induction false} FollowsOrder(cmp: Cmp, x: Node, ctx: Ctx, t: Tree, s: set<Node>)
    requires Preorder(cmp, s) && x in s && CtxNodes(ctx) <= s && Follows(cmp, x, ctx)
    requires Sorted(cmp, InOrder(Plug(ctx, t)))
    ensures NoneBefore(cmp, x, Before(ctx)) && AllBefore(cmp, x, After(ctx))
    decreases ctx
  {
    match ctx
    case Top =>
    case InLeft(up, n, k, r) =>
      FollowsOrder(cmp, x, up, Branch(t, n, k, r), s);
      PlugInOrder(up, Branch(t, n, k, r));
      SortedParts(cmp, Before(up), InOrder(Branch(t, n, k, r)), After(up));
      SortedParts(cmp, InOrder(t), [n], InOrder(r));
      assert [n][0] == n;
      InOrderNodes(r);
      assert n in s && Nodes(r) <= s;
      BeforeAll(cmp, x, n, InOrder(r), s);
    case InRight(up, l, n, k) =>
      FollowsOrder(cmp, x, up, Branch(l, n, k, t), s);
      PlugInOrder(up, Branch(l, n, k, t));
      SortedParts(cmp, Before(up), InOrder(Branch(l, n, k, t)), After(up));
      SortedParts(cmp, InOrder(l), [n], InOrder(t));
      assert [n][0] == n;
      InOrderNodes(l);
      assert n in s && Nodes(l) <= s;
      BeforeNone(cmp, x, n, InOrder(l), s);
  }

  ghost predicate AllAfter(cmp: Cmp, x: Node, q: seq<Node>) {
    forall i :: 0 <= i < |q| ==> cmp(x, q[i]) > 0
  }

  lemma {:induction false} AfterAll(cmp: Cmp, x: Node, n: Node, q: seq<Node>, s: set<Node>)
    requires Preorder(cmp, s) && x in s && n in s && forall i :: 0 <= i < |q| ==> q[i] in s
    requires cmp(x, n) > 0 && forall i :: 0 <= i < |q| ==> Leq(cmp, q[i], n)
    ensures AllAfter(cmp, x, q)
  {
    forall i | 0 <= i < |q| ensures cmp(x, q[i]) > 0 {
      assert Leq(cmp, q[i], n) && !Leq(cmp, x, n);
      assert !Leq(cmp, x, q[i]);
    }
  }

  /** Every turn on the way to the hole was forced: the key equals none of the nodes passed. */
  ghost predicate Misses(cmp: Cmp, x: Node, ctx: Ctx) {
    match ctx
    case Top => true
    case InLeft(up, n, k, r) => cmp(x, n) < 0 && Misses(cmp, x, up)
    case InRight(up, l, n, k) => cmp(x, n) > 0 && Misses(cmp, x, up)
  }

  /** In a sorted tree such a way leaves all nodes outside the hole unequal to the key. */
  lemma {:induction false} MissesOrder(cmp: Cmp, x: Node, ctx: Ctx, t: Tree, s: set<Node>)
    requires Preorder(cmp, s) && x in s && CtxNodes(ctx) <= s && Misses(cmp, x, ctx)
    requires Sorted(cmp, InOrder(Plug(ctx, t)))
    ensures AllAfter(cmp, x, Before(ctx)) && AllBefore(cmp, x, After(ctx))
    decreases ctx
  {
    match ctx
    case Top =>
    case InLeft(up, n, k, r) =>
      MissesOrder(cmp, x, up, Branch(t, n, k, r), s);
      PlugInOrder(up, Branch(t, n, k, r));
      SortedParts(cmp, Before(up), InOrder(Branch(t, n, k, r)), After(up));
      SortedParts(cmp, InOrder(t), [n], InOrder(r));
      assert [n][0] == n;
      InOrderNodes(r);
      assert n in s && Nodes(r) <= s;
      BeforeAll(cmp, x, n, InOrder(r), s);
    case InRight(up, l, n, k) =>
      MissesOrder(cmp, x, up, Branch(l, n, k, t), s);
      PlugInOrder(up, Branch(l, n, k, t));
      SortedParts(cmp, Before(up), InOrder(Branch(l, n, k, t)), After(up));
      SortedParts(cmp, InOrder(l), [n], InOrder(t));
      assert [n][0] == n;
      InOrderNodes(l);
      assert n in s && Nodes(l) <= s;
      AfterAll(cmp, x, n, InOrder(l), s);
  }

  /** Running off the tree means no node equals the key. */
  lemma {:induction false} MissesAll(cmp: Cmp, x: Node, ctx: Ctx)
    requires Preorder(cmp, Nodes(Plug(ctx, Leaf)) + {x}) && Misses(cmp, x, ctx)
    requires Sorted(cmp, InOrder(Plug(ctx, Leaf)))
    ensures forall n :: n in Nodes(Plug(ctx, Leaf)) ==> cmp(x, n) != 0
  {
    PlugNodes(ctx, Leaf);
    MissesOrder(cmp, x, ctx, Leaf, Nodes(Plug(ctx, Leaf)) + {x});
    PlugInOrder(ctx, Leaf);
    UnequalNodes(cmp, x, Plug(ctx, Leaf), Before(ctx), After(ctx));
  }

  lemma {:induction false} UnequalNodes(cmp: Cmp, x: Node, t: Tree, a: seq<Node>, b: seq<Node>)
    requires InOrder(t) == a + [] + b && AllAfter(cmp, x, a) && AllBefore(cmp, x, b)
    ensures forall n :: n in Nodes(t) ==> cmp(x, n) != 0
  {
    var q := InOrder(t);
    InOrderNodes(t);
    forall n | n in Nodes(t) ensures cmp(x, n) != 0 {
      assert n in q;
      var i :| 0 <= i < |q| && q[i] == n;
      assert i < |a| ==> a[i] == n;
      assert i >= |a| ==> b[i - |a|] == n;
    }
  }

  lemma {:induction false} InsertSorted(cmp: Cmp, x: Node, a: seq<Node>, b: seq<Node>, s: set<Node>)
    requires Preorder(cmp, s) && x in s
    requires forall i :: 0 <= i < |a| ==> a[i] in s
    requires forall i :: 0 <= i < |b| ==> b[i] in s
    requires Sorted(cmp, a + b) && NoneBefore(cmp, x, a) && AllBefore(cmp, x, b)
    ensures Sorted(cmp, a + [x] + b)
  {
    var q, r := a + b, a + [x] + b;
    forall i, j | 0 <= i < j < |r| ensures Leq(cmp, r[i], r[j]) {
      if i == |a| {
        assert r[j] == b[j - |a| - 1];
      } else if j == |a| {
        assert r[i] == a[i];
      } else {
        assert r[i] == q[if i < |a| then i else i - 1] && r[j] == q[if j < |a| then j else j - 1];
      }
    }
  }

  /** `k` is the rank at which `x` belongs in the sorted sequence `q`: nothing before it is
      preceded by `x`, everything from it on is. */
  ghost predicate Ranked(cmp: Cmp, x: Node, q: seq<Node>, k: nat, s: set<Node>)
    requires k <= |q|
  {
    Preorder(cmp, s) && Sorted(cmp, q) ==>
      NoneBefore(cmp, x, q[..k]) && AllBefore(cmp, x, q[k..]) && Sorted(cmp, q[..k] + [x] + q[k..])
  }

  lemma {:induction false} PartsIn(t: Tree, a: seq<Node>, b: seq<Node>, s: set<Node>)
    requires InOrder(t) == a + b && Nodes(t) <= s
    ensures forall i :: 0 <= i < |a| ==> a[i] in s
    ensures forall i :: 0 <= i < |b| ==> b[i] in s
  {
    var q := InOrder(t);
    InOrderNodes(t);
    assert forall i :: 0 <= i < |a| ==> q[i] == a[i];
    assert forall i :: 0 <= i < |b| ==> q[i + |a|] == b[i];
  }

  lemma {:induction false} InsertOrder(cmp: Cmp, x: Node, ctx: Ctx) returns (k: nat)
    requires Follows(cmp, x, ctx)
    ensures var q := InOrder(Plug(ctx, Leaf));
      k <= |q| && q[..k] == Before(ctx) && q[k..] == After(ctx) && Ranked(cmp, x, q, k, Nodes(Plug(ctx, Leaf)) + {x})
  {
    var q, s, a, b := InOrder(Plug(ctx, Leaf)), Nodes(Plug(ctx, Leaf)) + {x}, Before(ctx), After(ctx);
    PlugInOrder(ctx, Leaf);
    PlugNodes(ctx, Leaf);
    k := |a|;
    assert q == a + b && q[..k] == a && q[k..] == b;
    if Preorder(cmp, s) && Sorted(cmp, q) {
      FollowsOrder(cmp, x, ctx, Leaf, s);
      PartsIn(Plug(ctx, Leaf), a, b, s);
      InsertSorted(cmp, x, a, b, s);
    }
  }

  lemma {:induction false} PreorderPart(cmp: Cmp, s: set<Node>, u: set<Node>)
    requires Preorder(cmp, u) && s <= u
    ensures Preorder(cmp, s)
  {
  }

  lemma {:induction false} SortedWithout(cmp: Cmp, q: seq<Node>, k: nat)
    requires k < |q| && Sorted(cmp, q)
    ensures Sorted(cmp, q[..k] + q[k + 1..])
  {
    var r := q[..k] + q[k + 1..];
    forall i, j | 0 <= i < j < |r| ensures Leq(cmp, r[i], r[j]) {
      assert r[i] == q[if i < k then i else i + 1] && r[j] == q[if j < k then j else j + 1];
    }
  }

  // ------------------------------------------------------------------ runs

  datatype Op = Add(node: Node) | Remove(node: Node)

  /** Only absent nodes are added and only present ones removed. */
  ghost predicate Legal(ops: seq<Op>, s: set<Node>) {
    ops != [] ==>
      match ops[0]
      case Add(n) => n !in s && Legal(ops[1..], s + {n})
      case Remove(n) => n in s && Legal(ops[1..], s - {n})
  }

  ghost function Final(ops: seq<Op>, s: set<Node>): set<Node> {
    if ops == [] then s
    else match ops[0]
      case Add(n) => Final(ops[1..], s + {n})
      case Remove(n) => Final(ops[1..], s - {n})
  }

  class RbRoot {
    var root: Node?
    ghost var tree: Tree

    /** The heap below the root pointer is exactly `tree`: child links, parent links, colours. */
    ghost predicate Linked()
      reads this, Nodes(tree)
    {
      At(Top, tree, root)
    }

    /** An empty tree. */
    constructor ()
      ensures Valid() && tree == Leaf && Nodes(tree) == {} && InOrder(tree) == []
    {
      root, tree := null, Leaf;
    }

    /** The link that led to `was` (a child link of `parent`, or the root pointer) now leads
        to `child`. */
    method Relink(parent: Node?, was: Node, child: Node?, ghost ctx: Ctx)
      requires parent == Outer(ctx) && CtxDistinct(ctx) && was !in CtxNodes(ctx)
      requires CtxShape(ctx, was, root)
      modifies `root, if parent == null then {} else {parent}
      ensures CtxShape(ctx, child, root)
    {
      if parent != null {
        if parent.left == was {
          parent.left := child;
        } else {
          parent.right := child;
        }
      } else {
        root := child;
      }
    }

    method TurnLeft(x: Node, ghost ctx: Ctx, ghost a: Tree, ghost b: Tree, ghost y: Node, ghost c: Tree)
      requires Apart(ctx, a, x, b, y, c)
      requires x.right == y && x.parent == Outer(ctx)
      requires Shape(a, x.left, x) && Shape(b, y.left, y) && Shape(c, y.right, y) && CtxShape(ctx, x, root)
      modifies x, y, if b.Branch? then {b.node} else {}
      ensures y.left == x && x.parent == y && y.parent == Outer(ctx)
      ensures Shape(a, x.left, x) && Shape(b, x.right, x) && Shape(c, y.right, y) && CtxShape(ctx, x, root)
      ensures x.color == old(x.color) && y.color == old(y.color)
    {
      var right := x.right;
      var parent := x.parent;
      x.right := right.left;
      if x.right != null {
        right.left.parent := x;
      }
      right.left := x;
      right.parent := parent;
      x.parent := right;
    }

    method TurnRight(x: Node, ghost ctx: Ctx, ghost a: Tree, ghost b: Tree, ghost y: Node, ghost c: Tree)
      requires Apart(ctx, a, x, b, y, c)
      requires x.left == y && x.parent == Outer(ctx)
      requires Shape(a, y.left, y) && Shape(b, y.right, y) && Shape(c, x.right, x) && CtxShape(ctx, x, root)
      modifies x, y, if b.Branch? then {b.node} else {}
      ensures y.right == x && x.parent == y && y.parent == Outer(ctx)
      ensures Shape(a, y.left, y) && Shape(b, x.left, x) && Shape(c, x.right, x) && CtxShape(ctx, x, root)
      ensures x.color == old(x.color) && y.color == old(y.color)
    {
      var left := x.left;
      var parent := x.parent;
      x.left := left.right;
      if x.left != null {
        left.right.parent := x;
      }
      left.right := x;
      left.parent := parent;
      x.parent := left;
    }

    method RotateLeftAt(x: Node, ghost ctx: Ctx, ghost a: Tree, ghost cx: Color, ghost b: Tree,
                        ghost y: Node, ghost cy: Color, ghost c: Tree)
      requires At(ctx, Branch(a, x, cx, Branch(b, y, cy, c)), root)
      modifies `root, CtxNodes(ctx), Nodes(b), x, y
      ensures At(ctx, Branch(Branch(a, x, cx, b), y, cy, c), root)
    {
      ghost var now := Branch(Branch(a, x, cx, b), y, cy, c);
      OpenRight(ctx, a, x, cx, b, y, cy, c, root);
      TurnKeepsNodes(a, x, cx, b, y, cy, c);
      var right := x.right;
      var parent := x.parent;
      TurnLeft(x, ctx, a, b, y, c);
      assert Shape(Branch(a, x, cx, b), x, y);
      assert Shape(now, y, Outer(ctx));
      assert allocated(Nodes(now)) && (parent != null ==> parent !in Nodes(now));
      Relink(parent, x, right, ctx);
    }

    method RotateRightAt(x: Node, ghost ctx: Ctx, ghost a: Tree, ghost y: Node, ghost cy: Color,
                         ghost b: Tree, ghost cx: Color, ghost c: Tree)
      requires At(ctx, Branch(Branch(a, y, cy, b), x, cx, c), root)
      modifies `root, CtxNodes(ctx), Nodes(b), x, y
      ensures At(ctx, Branch(a, y, cy, Branch(b, x, cx, c)), root)
    {
      ghost var now := Branch(a, y, cy, Branch(b, x, cx, c));
      OpenLeft(ctx, a, y, cy, b, x, cx, c, root);
      TurnKeepsNodes(a, y, cy, b, x, cx, c);
      var left := x.left;
      var parent := x.parent;
      TurnRight(x, ctx, a, b, y, c);
      assert Shape(Branch(b, x, cx, c), x, y);
      assert Shape(now, y, Outer(ctx));
      assert allocated(Nodes(now)) && (parent != null ==> parent !in Nodes(now));
      Relink(parent, x, left, ctx);
    }

    method RotateLeft(x: Node, ghost ctx: Ctx, ghost a: Tree, ghost cx: Color, ghost b: Tree,
                      ghost y: Node, ghost cy: Color, ghost c: Tree)
      requires Linked() && tree == Plug(ctx, Branch(a, x, cx, Branch(b, y, cy, c)))
      modifies this, Nodes(tree)
      ensures Linked() && tree == Plug(ctx, Branch(Branch(a, x, cx, b), y, cy, c))
      ensures Nodes(tree) == old(Nodes(tree)) && InOrder(tree) == old(InOrder(tree))
    {
      ghost var was, now := Branch(a, x, cx, Branch(b, y, cy, c)), Branch(Branch(a, x, cx, b), y, cy, c);
      PlugNodes(ctx, was);
      PlugNodes(ctx, now);
      PlugInOrder(ctx, was);
      PlugInOrder(ctx, now);
      TurnKeepsNodes(a, x, cx, b, y, cy, c);
      TurnKeepsOrder(a, x, cx, b, y, cy, c);
      Zip(ctx, was, root);
      RotateLeftAt(x, ctx, a, cx, b, y, cy, c);
      Unzip(ctx, now, root);
      tree := Plug(ctx, now);
    }

    method RotateRight(x: Node, ghost ctx: Ctx, ghost a: Tree, ghost y: Node, ghost cy: Color,
                       ghost b: Tree, ghost cx: Color, ghost c: Tree)
      requires Linked() && tree == Plug(ctx, Branch(Branch(a, y, cy, b), x, cx, c))
      modifies this, Nodes(tree)
      ensures Linked() && tree == Plug(ctx, Branch(a, y, cy, Branch(b, x, cx, c)))
      ensures Nodes(tree) == old(Nodes(tree)) && InOrder(tree) == old(InOrder(tree))
    {
      ghost var was, now := Branch(Branch(a, y, cy, b), x, cx, c), Branch(a, y, cy, Branch(b, x, cx, c));
      PlugNodes(ctx, was);
      PlugNodes(ctx, now);
      PlugInOrder(ctx, was);
      PlugInOrder(ctx, now);
      TurnKeepsNodes(a, y, cy, b, x, cx, c);
      TurnKeepsOrder(a, y, cy, b, x, cx, c);
      Zip(ctx, was, root);
      RotateRightAt(x, ctx, a, y, cy, b, cx, c);
      Unzip(ctx, now, root);
      tree := Plug(ctx, now);
    }

    method SetColor(n: Node, k: Color, ghost ctx: Ctx, ghost l: Tree, ghost was: Color, ghost r: Tree)
      requires Linked() && tree == Plug(ctx, Branch(l, n, was, r))
      modifies this, Nodes(tree)
      ensures Linked() && tree == Plug(ctx, Branch(l, n, k, r))
      ensures Nodes(tree) == old(Nodes(tree)) && InOrder(tree) == old(InOrder(tree))
    {
      PlugNodes(ctx, Branch(l, n, was, r));
      PlugNodes(ctx, Branch(l, n, k, r));
      PlugInOrder(ctx, Branch(l, n, was, r));
      PlugInOrder(ctx, Branch(l, n, k, r));
      Zip(ctx, Branch(l, n, was, r), root);
      n.color := k;
      assert At(ctx, Branch(l, n, k, r), root);
      Unzip(ctx, Branch(l, n, k, r), root);
      tree := Plug(ctx, Branch(l, n, k, r));
    }

    // ---------------------------------------------------------------- insertion repair

    ghost predicate Valid()
      reads this, Nodes(tree)
    {
      Linked() && RedBlack(tree)
    }

    /** The final rotation: the red parent takes the black grandparent's place and colour. */
    method LiftLeft(parent: Node, gparent: Node, ghost up: Ctx, ghost t: Tree, ghost s: Tree, ghost u: Tree)
      requires Linked() && tree == Plug(up, Branch(Branch(t, parent, Red, s), gparent, Black, u))
      modifies this, Nodes(tree)
      ensures Linked() && tree == Plug(up, Branch(t, parent, Black, Branch(s, gparent, Red, u)))
      ensures Nodes(tree) == old(Nodes(tree)) && InOrder(tree) == old(InOrder(tree))
    {
      SetColor(parent, Black, InLeft(up, gparent, Black, u), t, Red, s);
      SetColor(gparent, Red, up, Branch(t, parent, Black, s), Black, u);
      RotateRight(gparent, up, t, parent, Black, s, Red, u);
    }

    method LiftRight(parent: Node, gparent: Node, ghost up: Ctx, ghost u: Tree, ghost s: Tree, ghost t: Tree)
      requires Linked() && tree == Plug(up, Branch(u, gparent, Black, Branch(s, parent, Red, t)))
      modifies this, Nodes(tree)
      ensures Linked() && tree == Plug(up, Branch(Branch(u, gparent, Red, s), parent, Black, t))
      ensures Nodes(tree) == old(Nodes(tree)) && InOrder(tree) == old(InOrder(tree))
    {
      SetColor(parent, Black, InRight(up, u, gparent, Black), s, Red, t);
      SetColor(gparent, Red, up, u, Black, Branch(s, parent, Black, t));
      RotateLeft(gparent, up, u, Red, s, parent, Black, t);
    }

    /** The tree's only fault may be the red `node` below a red parent, or at the root. */
    ghost predicate RedAt(ctx: Ctx, t: Tree, node: Node)
      reads this, Nodes(tree)
    {
      && Linked() && tree == Plug(ctx, t)
      && t.Branch? && t.node == node && t.color == Red
      && Good(t) && Fits(ctx, Black, BlackHeight(t))
    }

    /** Red parent and red uncle become black, their black parent red. */
    method PaintUncle(parent: Node, gparent: Node, uncle: Node, ghost up: Ctx, ghost pl: Tree, ghost pr: Tree,
                      ghost ul: Tree, ghost ur: Tree, ghost left: bool)
      requires Linked()
      requires left ==> tree == Plug(up, Branch(Branch(pl, parent, Red, pr), gparent, Black, Branch(ul, uncle, Red, ur)))
      requires !left ==> tree == Plug(up, Branch(Branch(ul, uncle, Red, ur), gparent, Black, Branch(pl, parent, Red, pr)))
      modifies this, Nodes(tree)
      ensures Linked()
      ensures left ==> tree == Plug(up, Branch(Branch(pl, parent, Black, pr), gparent, Red, Branch(ul, uncle, Black, ur)))
      ensures !left ==> tree == Plug(up, Branch(Branch(ul, uncle, Black, ur), gparent, Red, Branch(pl, parent, Black, pr)))
      ensures Nodes(tree) == old(Nodes(tree)) && InOrder(tree) == old(InOrder(tree))
    {
      ghost var p, u := Branch(pl, parent, Black, pr), Branch(ul, uncle, Black, ur);
      ghost var q := Branch(pl, parent, Red, pr);
      SetColor(uncle, Black, if left then InRight(up, q, gparent, Black) else InLeft(up, gparent, Black, q), ul, Red, ur);
      SetColor(parent, Black, if left then InLeft(up, gparent, Black, u) else InRight(up, u, gparent, Black), pl, Red, pr);
      SetColor(gparent, Red, up, if left then p else u, Black, if left then u else p);
    }

    /** The parent of `t`'s place with `t` below it. */
    ghost function ParentTree(ctx: Ctx, t: Tree): Tree
      requires !ctx.Top?
    {
      if ctx.InLeft? then Branch(t, ctx.node, ctx.color, ctx.right) else Branch(ctx.left, ctx.node, ctx.color, t)
    }

    /** A red uncle: the fault moves two levels up. */
    method RepairUncle(node: Node, parent: Node, gparent: Node, uncle: Node, ghost ctx: Ctx, ghost t: Tree)
        returns (ghost t': Tree)
      requires RedAt(ctx, t, node) && !ctx.Top? && ctx.node == parent && ctx.color == Red
      requires !ctx.up.Top? && ctx.up.node == gparent
      requires var u := if ctx.up.InLeft? then ctx.up.right else ctx.up.left; RootOf(u) == uncle && RootColor(u) == Red
      modifies this, Nodes(tree)
      ensures RedAt(ctx.up.up, t', gparent)
      ensures Nodes(tree) == old(Nodes(tree)) && InOrder(tree) == old(InOrder(tree))
    {
      ghost var p := ParentTree(ctx, t);
      ghost var up, u := ctx.up.up, if ctx.up.InLeft? then ctx.up.right else ctx.up.left;
      assert tree == Plug(ctx.up, p) && Fits(ctx.up, Red, BlackHeight(t)) && ctx.up.color == Black;
      PaintUncle(parent, gparent, uncle, up, p.left, p.right, u.left, u.right, ctx.up.InLeft?);
      ghost var p', u' := Branch(p.left, parent, Black, p.right), Branch(u.left, uncle, Black, u.right);
      assert Good(p') && Good(u') && BlackHeight(p') == BlackHeight(u') == BlackHeight(t) + 1;
      t' := if ctx.up.InLeft? then Branch(p', gparent, Red, u') else Branch(u', gparent, Red, p');
    }

    /** One turn of the repair loop with the parent on the grandparent's left and no red uncle. */
    method RepairLeft(node: Node, parent: Node, gparent: Node, ghost ctx: Ctx, ghost t: Tree)
        returns (node': Node, parent': Node, ghost ctx': Ctx, ghost t': Tree)
      requires RedAt(ctx, t, node) && !ctx.Top? && ctx.node == parent && ctx.color == Red
      requires ctx.up.InLeft? && ctx.up.node == gparent && RootColor(ctx.up.right) == Black
      modifies this, Nodes(tree)
      ensures RedAt(ctx', t', node') && parent' == Outer(ctx') && Depth(ctx') < Depth(ctx)
      ensures Nodes(tree) == old(Nodes(tree)) && InOrder(tree) == old(InOrder(tree))
    {
      ghost var p := ParentTree(ctx, t);
      ghost var up, u := ctx.up.up, ctx.up.right;
      assert Depth(ctx) == Depth(up) + 2;
      assert tree == Plug(ctx.up, p) && Fits(ctx.up, Red, BlackHeight(t)) && ctx.up.color == Black;
      Peek(ctx, t, root);
      node', parent' := node, parent;
      t' := t;
      if node == parent.right {
        RotateLeft(parent, InLeft(up, gparent, Black, u), ctx.left, Red, t.left, node, Red, t.right);
        node', parent' := parent, node;
        t' := Branch(ctx.left, node', Red, t.left);
        p := Branch(t', parent', Red, t.right);
      }
      LiftLeft(parent', gparent, up, t', p.right, u);
      ctx' := InLeft(up, parent', Black, Branch(p.right, gparent, Red, u));
    }

    method RepairRight(node: Node, parent: Node, gparent: Node, ghost ctx: Ctx, ghost t: Tree)
        returns (node': Node, parent': Node, ghost ctx': Ctx, ghost t': Tree)
      requires RedAt(ctx, t, node) && !ctx.Top? && ctx.node == parent && ctx.color == Red
      requires ctx.up.InRight? && ctx.up.node == gparent && RootColor(ctx.up.left) == Black
      modifies this, Nodes(tree)
      ensures RedAt(ctx', t', node') && parent' == Outer(ctx') && Depth(ctx') < Depth(ctx)
      ensures Nodes(tree) == old(Nodes(tree)) && InOrder(tree) == old(InOrder(tree))
    {
      ghost var p := ParentTree(ctx, t);
      ghost var up, u := ctx.up.up, ctx.up.left;
      assert Depth(ctx) == Depth(up) + 2;
      assert tree == Plug(ctx.up, p) && Fits(ctx.up, Red, BlackHeight(t)) && ctx.up.color == Black;
      Peek(ctx, t, root);
      node', parent' := node, parent;
      t' := t;
      if node == parent.left {
        RotateRight(parent, InRight(up, u, gparent, Black), t.left, node, Red, t.right, Red, ctx.right);
        node', parent' := parent, node;
        t' := Branch(t.right, node', Red, ctx.right);
        p := Branch(t.left, parent', Red, t');
      }
      LiftRight(parent', gparent, up, u, p.left, t');
      ctx' := InRight(up, Branch(u, gparent, Red, p.left), parent', Black);
    }

    /** A red uncle: recolour, and go on from the grandparent. */
    method ClimbTwo(node: Node, parent: Node, gparent: Node, uncle: Node, ghost ctx: Ctx, ghost t: Tree)
        returns (node': Node, parent': Node?, ghost ctx': Ctx, ghost t': Tree)
      requires RedAt(ctx, t, node) && !ctx.Top? && ctx.node == parent && ctx.color == Red
      requires !ctx.up.Top? && ctx.up.node == gparent
      requires var u := if ctx.up.InLeft? then ctx.up.right else ctx.up.left; RootOf(u) == uncle && RootColor(u) == Red
      modifies this, Nodes(tree)
      ensures RedAt(ctx', t', node') && parent' == Outer(ctx') && Depth(ctx') < Depth(ctx)
      ensures Nodes(tree) == old(Nodes(tree)) && InOrder(tree) == old(InOrder(tree))
    {
      t' := RepairUncle(node, parent, gparent, uncle, ctx, t);
      ctx' := ctx.up.up;
      assert Depth(ctx) == Depth(ctx') + 2;
      Peek(ctx', t', root);
      node', parent' := gparent, gparent.parent;
    }

    /** One turn of the insert fixup under a left child of the grandparent. */
    method FixLeft(node: Node, parent: Node, gparent: Node, ghost ctx: Ctx, ghost t: Tree)
        returns (node': Node, parent': Node?, ghost ctx': Ctx, ghost t': Tree)
      requires RedAt(ctx, t, node) && !ctx.Top? && ctx.node == parent && ctx.color == Red
      requires ctx.up.InLeft? && ctx.up.node == gparent
      modifies this, Nodes(tree)
      ensures RedAt(ctx', t', node') && parent' == Outer(ctx') && Depth(ctx') < Depth(ctx)
      ensures Nodes(tree) == old(Nodes(tree)) && InOrder(tree) == old(InOrder(tree))
    {
      Peek(ctx.up, ParentTree(ctx, t), root);
      var uncle := gparent.right;
      Peek(InRight(ctx.up.up, ParentTree(ctx, t), gparent, ctx.up.color), ctx.up.right, root);
      if uncle != null && uncle.color == Red {
        node', parent', ctx', t' := ClimbTwo(node, parent, gparent, uncle, ctx, t);
      } else {
        node', parent', ctx', t' := RepairLeft(node, parent, gparent, ctx, t);
      }
    }

    /** The mirror image. */
    method FixRight(node: Node, parent: Node, gparent: Node, ghost ctx: Ctx, ghost t: Tree)
        returns (node': Node, parent': Node?, ghost ctx': Ctx, ghost t': Tree)
      requires RedAt(ctx, t, node) && !ctx.Top? && ctx.node == parent && ctx.color == Red
      requires ctx.up.InRight? && ctx.up.node == gparent
      modifies this, Nodes(tree)
      ensures RedAt(ctx', t', node') && parent' == Outer(ctx') && Depth(ctx') < Depth(ctx)
      ensures Nodes(tree) == old(Nodes(tree)) && InOrder(tree) == old(InOrder(tree))
    {
      Peek(ctx.up, ParentTree(ctx, t), root);
      var uncle := gparent.left;
      Peek(InLeft(ctx.up.up, gparent, ctx.up.color, ParentTree(ctx, t)), ctx.up.left, root);
      if uncle != null && uncle.color == Red {
        node', parent', ctx', t' := ClimbTwo(node, parent, gparent, uncle, ctx, t);
      } else {
        node', parent', ctx', t' := RepairRight(node, parent, gparent, ctx, t);
      }
    }

    method RepairInsert(start: Node, ghost at: Ctx, ghost sub: Tree)
      requires RedAt(at, sub, start)
      modifies this, Nodes(tree)
      ensures Valid()
      ensures Nodes(tree) == old(Nodes(tree)) && InOrder(tree) == old(InOrder(tree))
    {
      ghost var ctx, t := at, sub;
      Peek(ctx, t, root);
      var node: Node, parent: Node? := start, start.parent;
      while parent != null && parent.color == Red
        invariant RedAt(ctx, t, node) && parent == Outer(ctx)
        invariant Nodes(tree) == old(Nodes(tree)) && InOrder(tree) == old(InOrder(tree))
        decreases Depth(ctx)
      {
        Peek(ctx, t, root);
        assert Fits(ctx.up, Red, BlackHeight(t)) && !ctx.up.Top? && Depth(ctx) == Depth(ctx.up.up) + 2;
        Peek(ctx.up, ParentTree(ctx, t), root);
        var gparent := parent.parent;
        if parent == gparent.left {
          node, parent, ctx, t := FixLeft(node, parent, gparent, ctx, t);
        } else {
          node, parent, ctx, t := FixRight(node, parent, gparent, ctx, t);
        }
      }
      Peek(ctx, t, root);
      PaintRoot(ctx, t);
    }

    /** The root pointer's node is coloured black. */
    method PaintRoot(ghost ctx: Ctx, ghost t: Tree)
      requires Linked() && tree == Plug(ctx, t) && t.Branch? && t.color == Red && Good(t)
      requires Fits(ctx, Black, BlackHeight(t)) && (!ctx.Top? ==> ctx.color == Black)
      modifies this, Nodes(tree)
      ensures Valid()
      ensures Nodes(tree) == old(Nodes(tree)) && InOrder(tree) == old(InOrder(tree))
    {
      PlugNodes(ctx, t);
      assert t.node in Nodes(tree);
      if !ctx.Top? {
        FitsIffRedBlack(ctx, t);
      }
      SetColor(root, Black, Top, tree.left, tree.color, tree.right);
    }

    // ---------------------------------------------------------------- insertion

    /** A fresh red leaf is hung in the empty link at `ctx`. */
    method Attach(node: Node, parent: Node?, left: bool, ghost ctx: Ctx)
      requires At(ctx, Leaf, root) && node !in CtxNodes(ctx) && parent == Outer(ctx)
      requires !ctx.Top? ==> (left <==> ctx.InLeft?)
      modifies `root, CtxNodes(ctx), node
      ensures At(ctx, Branch(Leaf, node, Red, Leaf), root)
    {
      node.left := null;
      node.right := null;
      node.parent := parent;
      node.color := Red;
      if parent == null {
        root := node;
      } else if left {
        parent.left := node;
      } else {
        parent.right := node;
      }
    }

    /** The same for the whole tree. */
    method AttachLeaf(node: Node, parent: Node?, left: bool, ghost ctx: Ctx)
      requires Linked() && tree == Plug(ctx, Leaf) && node !in Nodes(tree)
      requires parent == Outer(ctx) && (!ctx.Top? ==> (left <==> ctx.InLeft?))
      modifies this, Nodes(tree), node
      ensures Linked() && tree == Plug(ctx, Branch(Leaf, node, Red, Leaf)) && Nodes(tree) == old(Nodes(tree)) + {node}
      ensures InOrder(tree) == Before(ctx) + [node] + After(ctx)
    {
      ghost var leaf := Branch(Leaf, node, Red, Leaf);
      PlugNodes(ctx, Leaf);
      PlugNodes(ctx, leaf);
      PlugInOrder(ctx, leaf);
      Zip(ctx, Leaf, root);
      Attach(node, parent, left, ctx);
      Unzip(ctx, leaf, root);
      tree := Plug(ctx, leaf);
    }

    /** The way down to the empty link where `node` belongs. */
    method FindLink(node: Node, cmp: Cmp) returns (parent: Node?, left: bool, ghost ctx: Ctx)
      requires Linked()
      ensures Linked() && tree == Plug(ctx, Leaf) && parent == Outer(ctx) && (!ctx.Top? ==> (left <==> ctx.InLeft?))
      ensures Follows(cmp, node, ctx)
    {
      ghost var t := tree;
      ctx := Top;
      var link := root;
      parent, left := null, false;
      while link != null
        invariant Linked() && tree == Plug(ctx, t) && Follows(cmp, node, ctx)
        invariant link == RootOf(t) && parent == Outer(ctx) && (!ctx.Top? ==> (left <==> ctx.InLeft?))
        decreases t
      {
        Peek(ctx, t, root);
        parent := link;
        if cmp(node, parent) < 0 {
          link, left := parent.left, true;
          ctx, t := InLeft(ctx, t.node, t.color, t.right), t.left;
        } else {
          link, left := parent.right, false;
          ctx, t := InRight(ctx, t.left, t.node, t.color), t.right;
        }
      }
    }

    /** Inserts after every node the new one does not precede; `k` is its rank. */
    method Insert(node: Node, cmp: Cmp) returns (ghost k: nat)
      requires Valid() && node !in Nodes(tree)
      modifies this, Nodes(tree), node
      ensures Valid() && Nodes(tree) == old(Nodes(tree)) + {node}
      ensures k <= |old(InOrder(tree))|
      ensures InOrder(tree) == old(InOrder(tree))[..k] + [node] + old(InOrder(tree))[k..]
      ensures Ranked(cmp, node, old(InOrder(tree)), k, old(Nodes(tree)) + {node})
    {
      var parent, left, ctx := FindLink(node, cmp);
      k := InsertOrder(cmp, node, ctx);
      Hang(node, parent, left, ctx);
    }

    /** Hangs the new node in the empty link and repairs. */
    method Hang(node: Node, parent: Node?, left: bool, ghost ctx: Ctx)
      requires Valid() && tree == Plug(ctx, Leaf) && node !in Nodes(tree)
      requires parent == Outer(ctx) && (!ctx.Top? ==> (left <==> ctx.InLeft?))
      modifies this, Nodes(tree), node
      ensures Valid() && Nodes(tree) == old(Nodes(tree)) + {node}
      ensures InOrder(tree) == Before(ctx) + [node] + After(ctx)
    {
      ghost var leaf := Branch(Leaf, node, Red, Leaf);
      FitsIffRedBlack(ctx, Leaf);
      AttachLeaf(node, parent, left, ctx);
      assert BlackHeight(leaf) == 0 && Good(leaf);
      RepairInsert(node, ctx, leaf);
    }

    // ---------------------------------------------------------------- erasure: taking a node out

    /** A subtree, if not empty, is hung below `par`. */
    method Adopt(child: Node?, par: Node?, ghost t: Tree, ghost from: Node?)
      requires Distinct(t) && Shape(t, child, from)
      modifies if child == null then {} else {child}
      ensures Shape(t, child, par)
    {
      if child != null {
        child.parent := par;
      }
    }

    method UnlinkAt(node: Node, child: Node?, parent: Node?, ghost ctx: Ctx, ghost t: Tree, ghost c: Tree)
      requires At(ctx, t, root) && t.Branch? && t.node == node && parent == Outer(ctx) && child == RootOf(c)
      requires (t.left.Leaf? && c == t.right) || (t.right.Leaf? && c == t.left)
      modifies `root, CtxNodes(ctx), Nodes(c)
      ensures At(ctx, c, root)
    {
      assert allocated(Nodes(c)) && allocated(CtxNodes(ctx));
      assert Shape(t, node, parent) && Shape(t.left, node.left, node) && Shape(t.right, node.right, node);
      assert Shape(c, child, node) && Distinct(c) && node !in Nodes(c) && Nodes(c) <= Nodes(t);
      Adopt(child, parent, c, node);
      Relink(parent, node, child, ctx);
    }

    /** A node with at most one child leaves the tree; the child takes its place. */
    method Unlink(node: Node, child: Node?, parent: Node?, ghost ctx: Ctx, ghost t: Tree, ghost c: Tree)
      requires Linked() && tree == Plug(ctx, t)
      requires t.Branch? && t.node == node && parent == Outer(ctx) && child == RootOf(c)
      requires (t.left.Leaf? && c == t.right) || (t.right.Leaf? && c == t.left)
      modifies this, Nodes(tree) - {node}
      ensures Linked() && tree == Plug(ctx, c)
      ensures Nodes(tree) == old(Nodes(tree)) - {node}
    {
      Zip(ctx, t, root);
      PlugNodes(ctx, t);
      PlugNodes(ctx, c);
      UnlinkAt(node, child, parent, ctx, t, c);
      Unzip(ctx, c, root);
      tree := Plug(ctx, c);
    }

    /** `node` copies the links and the colour of `was`, whose children become its own. */
    method TakeOver(was: Node, node: Node, ghost l: Tree, ghost k: Color, ghost r: Tree, ghost par: Node?)
      requires Distinct(Branch(l, was, k, r)) && Shape(Branch(l, was, k, r), was, par) && l.Branch?
      requires node !in Nodes(Branch(l, was, k, r))
      modifies node, Nodes(l), Nodes(r)
      ensures Shape(Branch(l, node, k, r), node, par) && was.parent == old(was.parent)
    {
      assert Shape(l, was.left, was) && Shape(r, was.right, was);
      assert l.node in Nodes(l) && (r.Branch? ==> r.node in Nodes(r));
      assert allocated(Nodes(l)) && allocated(Nodes(r));
      node.parent := was.parent;
      node.color := was.color;
      node.right := was.right;
      node.left := was.left;
      Adopt(was.left, node, l, was);
      Adopt(was.right, node, r, was);
    }

    method SubstituteAt(was: Node, node: Node, ghost ctx: Ctx, ghost l: Tree, ghost k: Color, ghost r: Tree)
      requires At(ctx, Branch(l, was, k, r), root) && l.Branch?
      requires node !in CtxNodes(ctx) && node !in Nodes(Branch(l, was, k, r))
      modifies `root, node, CtxNodes(ctx), Nodes(l), Nodes(r)
      ensures At(ctx, Branch(l, node, k, r), root)
    {
      ghost var now := Branch(l, node, k, r);
      assert allocated(CtxNodes(ctx)) && allocated(Nodes(now));
      TakeOver(was, node, l, k, r, Outer(ctx));
      assert CtxShape(ctx, was, root) && (ctx.Top? || ctx.node !in Nodes(now));
      Relink(was.parent, was, node, ctx);
    }

    /** `node`, not in the tree, takes the place, the colour and the children of `was`. */
    method Substitute(was: Node, node: Node, ghost ctx: Ctx, ghost l: Tree, ghost k: Color, ghost r: Tree)
      requires Linked() && tree == Plug(ctx, Branch(l, was, k, r)) && l.Branch? && node !in Nodes(tree)
      modifies this, node, Nodes(tree) - {was}
      ensures Linked() && tree == Plug(ctx, Branch(l, node, k, r))
      ensures Nodes(tree) == old(Nodes(tree)) - {was} + {node}
    {
      Zip(ctx, Branch(l, was, k, r), root);
      PlugNodes(ctx, Branch(l, was, k, r));
      PlugNodes(ctx, Branch(l, node, k, r));
      SubstituteAt(was, node, ctx, l, k, r);
      Unzip(ctx, Branch(l, node, k, r), root);
      tree := Plug(ctx, Branch(l, node, k, r));
    }

    // ---------------------------------------------------------------- erasure: repair

    static lemma {:induction false} FarRightRestores(up: Ctx, parent: Node, pk: Color, t: Tree, sl: Tree, sibling: Node, sr: Tree)
      requires Good(t) && Fits(InLeft(up, parent, pk, Branch(sl, sibling, Black, sr)), Black, BlackHeight(t) + 1)
      requires RootColor(sr) == Red
      ensures RedBlack(Plug(up, Branch(Branch(t, parent, Black, sl), sibling, pk, Branch(sr.left, sr.node, Black, sr.right))))
    {
      var s, low, far := Branch(sl, sibling, Black, sr), Branch(t, parent, Black, sl), Branch(sr.left, sr.node, Black, sr.right);
      assert Good(s) && BlackHeight(s) == BlackHeight(t) + 1 && Good(sl) && Good(sr);
      assert Good(low) && Good(far) && BlackHeight(low) == BlackHeight(far) == BlackHeight(t) + 1;
      FitsIffRedBlack(up, Branch(low, sibling, pk, far));
    }

    static lemma {:induction false} FarLeftRestores(up: Ctx, parent: Node, pk: Color, t: Tree, sl: Tree, sibling: Node, sr: Tree)
      requires Good(t) && Fits(InRight(up, Branch(sl, sibling, Black, sr), parent, pk), Black, BlackHeight(t) + 1)
      requires RootColor(sl) == Red
      ensures RedBlack(Plug(up, Branch(Branch(sl.left, sl.node, Black, sl.right), sibling, pk, Branch(sr, parent, Black, t))))
    {
      var s, low, far := Branch(sl, sibling, Black, sr), Branch(sr, parent, Black, t), Branch(sl.left, sl.node, Black, sl.right);
      assert Good(s) && BlackHeight(s) == BlackHeight(t) + 1 && Good(sl) && Good(sr);
      assert Good(low) && Good(far) && BlackHeight(low) == BlackHeight(far) == BlackHeight(t) + 1;
      FitsIffRedBlack(up, Branch(far, sibling, pk, low));
    }

    static lemma {:induction false} NearTurnsFar(sl: Tree, sibling: Node, sr: Tree)
      requires Good(Branch(sl, sibling, Black, sr))
      ensures sl.Branch? && sl.color == Red && RootColor(sr) == Black ==>
        var s := Branch(sl.left, sl.node, Black, Branch(sl.right, sibling, Red, sr));
        Good(s) && BlackHeight(s) == BlackHeight(Branch(sl, sibling, Black, sr))
      ensures sr.Branch? && sr.color == Red && RootColor(sl) == Black ==>
        var s := Branch(Branch(sl, sibling, Red, sr.left), sr.node, Black, sr.right);
        Good(s) && BlackHeight(s) == BlackHeight(Branch(sl, sibling, Black, sr))
    {
      assert Good(sl) && Good(sr) && BlackHeight(sl) == BlackHeight(sr);
      if sl.Branch? && sl.color == Red && RootColor(sr) == Black {
        assert Good(Branch(sl.right, sibling, Red, sr));
      }
      if sr.Branch? && sr.color == Red && RootColor(sl) == Black {
        assert Good(Branch(sl, sibling, Red, sr.left));
      }
    }

    /** Good once its root is painted black: a red root may still sit above a red child. */
    static ghost predicate GoodBlackened(t: Tree) {
      t.Branch? ==> Good(Branch(t.left, t.node, Black, t.right))
    }

    /** Paths through the place `ctx` are one black node short; nothing else is wrong, except
        that a red root of `t` may have a red child. */
    ghost predicate ShortAt(ctx: Ctx, t: Tree)
      reads this, Nodes(tree)
    {
      Linked() && tree == Plug(ctx, t) && GoodBlackened(t) && Fits(ctx, Black, BlackHeight(t) + 1)
    }

    /** Red sibling on the right: it becomes the grandparent, and the new sibling is black. */
    method RedSiblingRight(parent: Node, sibling: Node, ghost up: Ctx, ghost pk: Color, ghost t: Tree, ghost sl: Tree, ghost sr: Tree)
      requires ShortAt(InLeft(up, parent, pk, Branch(sl, sibling, Red, sr)), t)
      requires RootColor(t) == Black
      modifies this, Nodes(tree)
      ensures ShortAt(InLeft(InLeft(up, sibling, Black, sr), parent, Red, sl), t)
      ensures Nodes(tree) == old(Nodes(tree)) && InOrder(tree) == old(InOrder(tree))
    {
      SetColor(sibling, Black, InRight(up, t, parent, pk), sl, Red, sr);
      SetColor(parent, Red, up, t, pk, Branch(sl, sibling, Black, sr));
      RotateLeft(parent, up, t, Red, sl, sibling, Black, sr);
    }

    method RedSiblingLeft(parent: Node, sibling: Node, ghost up: Ctx, ghost pk: Color, ghost t: Tree, ghost sl: Tree, ghost sr: Tree)
      requires ShortAt(InRight(up, Branch(sl, sibling, Red, sr), parent, pk), t)
      requires RootColor(t) == Black
      modifies this, Nodes(tree)
      ensures ShortAt(InRight(InRight(up, sl, sibling, Black), sr, parent, Red), t)
      ensures Nodes(tree) == old(Nodes(tree)) && InOrder(tree) == old(InOrder(tree))
    {
      SetColor(sibling, Black, InLeft(up, parent, pk, t), sl, Red, sr);
      SetColor(parent, Red, up, Branch(sl, sibling, Black, sr), pk, t);
      RotateRight(parent, up, sl, sibling, Black, sr, Red, t);
    }

    /** A red nephew on the far side: one rotation at the parent restores all paths. */
    method FarNephewRight(parent: Node, sibling: Node, ghost up: Ctx, ghost pk: Color, ghost t: Tree, ghost sl: Tree, ghost sr: Tree)
      requires ShortAt(InLeft(up, parent, pk, Branch(sl, sibling, Black, sr)), t)
      requires RootColor(sr) == Red
      requires RootColor(t) == Black
      modifies this, Nodes(tree)
      ensures Valid()
      ensures Nodes(tree) == old(Nodes(tree)) && InOrder(tree) == old(InOrder(tree))
    {
      FarRightRestores(up, parent, pk, t, sl, sibling, sr);
      Peek(InLeft(up, parent, pk, Branch(sl, sibling, Black, sr)), t, root);
      Peek(InRight(up, t, parent, pk), Branch(sl, sibling, Black, sr), root);
      SetColor(sibling, parent.color, InRight(up, t, parent, pk), sl, Black, sr);
      ghost var s1 := Branch(sl, sibling, pk, sr);
      SetColor(parent, Black, up, t, pk, s1);
      Peek(InRight(up, t, parent, Black), s1, root);
      if sibling.right != null {
        SetColor(sibling.right, Black, InRight(InRight(up, t, parent, Black), sl, sibling, pk), sr.left, Red, sr.right);
      }
      ghost var sr1 := Branch(sr.left, sr.node, Black, sr.right);
      RotateLeft(parent, up, t, Black, sl, sibling, pk, sr1);
    }

    method FarNephewLeft(parent: Node, sibling: Node, ghost up: Ctx, ghost pk: Color, ghost t: Tree, ghost sl: Tree, ghost sr: Tree)
      requires ShortAt(InRight(up, Branch(sl, sibling, Black, sr), parent, pk), t)
      requires RootColor(sl) == Red
      requires RootColor(t) == Black
      modifies this, Nodes(tree)
      ensures Valid()
      ensures Nodes(tree) == old(Nodes(tree)) && InOrder(tree) == old(InOrder(tree))
    {
      FarLeftRestores(up, parent, pk, t, sl, sibling, sr);
      Peek(InRight(up, Branch(sl, sibling, Black, sr), parent, pk), t, root);
      Peek(InLeft(up, parent, pk, t), Branch(sl, sibling, Black, sr), root);
      SetColor(sibling, parent.color, InLeft(up, parent, pk, t), sl, Black, sr);
      ghost var s1 := Branch(sl, sibling, pk, sr);
      SetColor(parent, Black, up, s1, pk, t);
      Peek(InLeft(up, parent, Black, t), s1, root);
      if sibling.left != null {
        SetColor(sibling.left, Black, InLeft(InLeft(up, parent, Black, t), sibling, pk, sr), sl.left, Red, sl.right);
      }
      ghost var sl1 := Branch(sl.left, sl.node, Black, sl.right);
      RotateRight(parent, up, sl1, sibling, pk, sr, Black, t);
    }

    /** A red nephew on the near side only: a rotation at the sibling makes it a far one. */
    method NearNephewRight(parent: Node, sibling: Node, near: Node, ghost up: Ctx, ghost pk: Color, ghost t: Tree, ghost sl: Tree, ghost sr: Tree)
      requires ShortAt(InLeft(up, parent, pk, Branch(sl, sibling, Black, sr)), t)
      requires sl.Branch? && sl.color == Red && sl.node == near && RootColor(sr) == Black
      requires RootColor(t) == Black
      modifies this, Nodes(tree)
      ensures ShortAt(InLeft(up, parent, pk, Branch(sl.left, near, Black, Branch(sl.right, sibling, Red, sr))), t)
      ensures Nodes(tree) == old(Nodes(tree)) && InOrder(tree) == old(InOrder(tree))
    {
      NearTurnsFar(sl, sibling, sr);
      ghost var at := InRight(up, t, parent, pk);
      SetColor(near, Black, InLeft(at, sibling, Black, sr), sl.left, Red, sl.right);
      SetColor(sibling, Red, at, Branch(sl.left, near, Black, sl.right), Black, sr);
      RotateRight(sibling, at, sl.left, near, Black, sl.right, Red, sr);
    }

    method NearNephewLeft(parent: Node, sibling: Node, near: Node, ghost up: Ctx, ghost pk: Color, ghost t: Tree, ghost sl: Tree, ghost sr: Tree)
      requires ShortAt(InRight(up, Branch(sl, sibling, Black, sr), parent, pk), t)
      requires sr.Branch? && sr.color == Red && sr.node == near && RootColor(sl) == Black
      requires RootColor(t) == Black
      modifies this, Nodes(tree)
      ensures ShortAt(InRight(up, Branch(Branch(sl, sibling, Red, sr.left), near, Black, sr.right), parent, pk), t)
      ensures Nodes(tree) == old(Nodes(tree)) && InOrder(tree) == old(InOrder(tree))
    {
      NearTurnsFar(sl, sibling, sr);
      ghost var at := InLeft(up, parent, pk, t);
      SetColor(near, Black, InRight(at, sl, sibling, Black), sr.left, Red, sr.right);
      SetColor(sibling, Red, at, sl, Black, Branch(sr.left, near, Black, sr.right));
      RotateLeft(sibling, at, sl, Red, sr.left, near, Black, sr.right);
    }

    /** Both nephews black: the sibling turns red and the shortage moves to the parent. */
    method PassUp(parent: Node, sibling: Node, ghost ctx: Ctx, ghost t: Tree, ghost s: Tree) returns (ghost t': Tree)
      requires ShortAt(ctx, t) && !ctx.Top? && ctx.node == parent && RootColor(t) == Black
      requires s == (if ctx.InLeft? then ctx.right else ctx.left)
      requires s.Branch? && s.node == sibling && s.color == Black && RootColor(s.left) == RootColor(s.right) == Black
      modifies this, Nodes(tree)
      ensures ShortAt(ctx.up, t') && t'.Branch? && t'.node == parent && t'.color == ctx.color
      ensures Nodes(tree) == old(Nodes(tree)) && InOrder(tree) == old(InOrder(tree))
    {
      SetColor(sibling, Red, if ctx.InLeft? then InRight(ctx.up, t, parent, ctx.color) else InLeft(ctx.up, parent, ctx.color, t),
               s.left, Black, s.right);
      ghost var s' := Branch(s.left, sibling, Red, s.right);
      assert Good(s') && BlackHeight(s') == BlackHeight(t);
      t' := if ctx.InLeft? then Branch(t, parent, ctx.color, s') else Branch(s', parent, ctx.color, t);
      assert Good(Branch(t'.left, parent, Black, t'.right));
      assert Fits(ctx.up, ctx.color, BlackHeight(t') + 1);
      assert Fits(ctx.up, Black, BlackHeight(t') + 1);
    }

    /** How much work the repair loop may still have. */
    ghost function Effort(ctx: Ctx, t: Tree): nat {
      2 * Depth(ctx) + Weight(RootColor(t))
    }

    /** A black sibling on the right of the short side. */
    method SettleLeft(parent: Node, sib: Node, ghost ctx: Ctx, ghost t: Tree) returns (done: bool, ghost t': Tree)
      requires ShortAt(ctx, t) && ctx.InLeft? && ctx.node == parent && RootColor(t) == Black
      requires ctx.right.Branch? && ctx.right.node == sib && ctx.right.color == Black
      modifies this, Nodes(tree)
      ensures done ==> Valid()
      ensures !done ==> ShortAt(ctx.up, t') && t'.Branch? && t'.node == parent && t'.color == ctx.color
      ensures Nodes(tree) == old(Nodes(tree)) && InOrder(tree) == old(InOrder(tree))
    {
      ghost var s := ctx.right;
      ghost var at := InRight(ctx.up, t, parent, ctx.color);
      var sibling := sib;
      t' := t;
      Peek(InLeft(at, sibling, Black, s.right), s.left, root);
      Peek(InRight(at, s.left, sibling, Black), s.right, root);
      if (sibling.left == null || sibling.left.color == Black) && (sibling.right == null || sibling.right.color == Black) {
        t' := PassUp(parent, sibling, ctx, t, s);
        return false, t';
      }
      if sibling.right == null || sibling.right.color == Black {
        NearNephewRight(parent, sibling, sibling.left, ctx.up, ctx.color, t, s.left, s.right);
        s := Branch(s.left.left, s.left.node, Black, Branch(s.left.right, sibling, Red, s.right));
        Peek(InLeft(ctx.up, parent, ctx.color, s), t, root);
        sibling := parent.right;
      }
      FarNephewRight(parent, sibling, ctx.up, ctx.color, t, s.left, s.right);
      done := true;
    }

    method SettleRight(parent: Node, sib: Node, ghost ctx: Ctx, ghost t: Tree) returns (done: bool, ghost t': Tree)
      requires ShortAt(ctx, t) && ctx.InRight? && ctx.node == parent && RootColor(t) == Black
      requires ctx.left.Branch? && ctx.left.node == sib && ctx.left.color == Black
      modifies this, Nodes(tree)
      ensures done ==> Valid()
      ensures !done ==> ShortAt(ctx.up, t') && t'.Branch? && t'.node == parent && t'.color == ctx.color
      ensures Nodes(tree) == old(Nodes(tree)) && InOrder(tree) == old(InOrder(tree))
    {
      ghost var s := ctx.left;
      ghost var at := InLeft(ctx.up, parent, ctx.color, t);
      var sibling := sib;
      t' := t;
      Peek(InLeft(at, sibling, Black, s.right), s.left, root);
      Peek(InRight(at, s.left, sibling, Black), s.right, root);
      if (sibling.right == null || sibling.right.color == Black) && (sibling.left == null || sibling.left.color == Black) {
        t' := PassUp(parent, sibling, ctx, t, s);
        return false, t';
      }
      if sibling.left == null || sibling.left.color == Black {
        NearNephewLeft(parent, sibling, sibling.right, ctx.up, ctx.color, t, s.left, s.right);
        s := Branch(Branch(s.left, sibling, Red, s.right.left), s.right.node, Black, s.right.right);
        Peek(InRight(ctx.up, s, parent, ctx.color), t, root);
        sibling := parent.left;
      }
      FarNephewLeft(parent, sibling, ctx.up, ctx.color, t, s.left, s.right);
      done := true;
    }

    /** One turn of the repair loop with the short side on the left. */
    method RepairShortLeft(parent: Node, ghost ctx: Ctx, ghost t: Tree) returns (done: bool, ghost ctx': Ctx, ghost t': Tree)
      requires ShortAt(ctx, t) && ctx.InLeft? && ctx.node == parent && RootColor(t) == Black
      modifies this, Nodes(tree)
      ensures done ==> Valid()
      ensures !done ==> ShortAt(ctx', t') && t'.Branch? && t'.node == parent && Effort(ctx', t') < Effort(ctx, t)
      ensures Nodes(tree) == old(Nodes(tree)) && InOrder(tree) == old(InOrder(tree))
    {
      ghost var s := ctx.right;
      ctx' := ctx;
      assert s.Branch? && Depth(ctx) == Depth(ctx.up) + 1;
      Peek(ctx, t, root);
      Peek(InRight(ctx.up, t, parent, ctx.color), s, root);
      var sibling := parent.right;
      if sibling.color == Red {
        RedSiblingRight(parent, sibling, ctx.up, ctx.color, t, s.left, s.right);
        ctx' := InLeft(InLeft(ctx.up, sibling, Black, s.right), parent, Red, s.left);
        assert s.left.Branch? && s.left.color == Black && Depth(ctx'.up) == Depth(ctx);
        Peek(ctx', t, root);
        sibling := parent.right;
      }
      done, t' := SettleLeft(parent, sibling, ctx', t);
      ctx' := ctx'.up;
    }

    method RepairShortRight(parent: Node, ghost ctx: Ctx, ghost t: Tree) returns (done: bool, ghost ctx': Ctx, ghost t': Tree)
      requires ShortAt(ctx, t) && ctx.InRight? && ctx.node == parent && RootColor(t) == Black
      modifies this, Nodes(tree)
      ensures done ==> Valid()
      ensures !done ==> ShortAt(ctx', t') && t'.Branch? && t'.node == parent && Effort(ctx', t') < Effort(ctx, t)
      ensures Nodes(tree) == old(Nodes(tree)) && InOrder(tree) == old(InOrder(tree))
    {
      ghost var s := ctx.left;
      ctx' := ctx;
      assert s.Branch? && Depth(ctx) == Depth(ctx.up) + 1;
      Peek(ctx, t, root);
      Peek(InLeft(ctx.up, parent, ctx.color, t), s, root);
      var sibling := parent.left;
      if sibling.color == Red {
        RedSiblingLeft(parent, sibling, ctx.up, ctx.color, t, s.left, s.right);
        ctx' := InRight(InRight(ctx.up, s.left, sibling, Black), s.right, parent, Red);
        assert s.right.Branch? && s.right.color == Black && Depth(ctx'.up) == Depth(ctx);
        Peek(ctx', t, root);
        sibling := parent.left;
      }
      done, t' := SettleRight(parent, sibling, ctx', t);
      ctx' := ctx'.up;
    }

    /** Repairs a tree that is one black node short at `at`. */
    method RepairErase(child0: Node?, parent0: Node?, ghost at: Ctx, ghost sub: Tree)
      requires ShortAt(at, sub) && child0 == RootOf(sub) && parent0 == Outer(at)
      modifies this, Nodes(tree)
      ensures Valid()
      ensures Nodes(tree) == old(Nodes(tree)) && InOrder(tree) == old(InOrder(tree))
    {
      ghost var ctx, t := at, sub;
      var child, parent := child0, parent0;
      Peek(ctx, t, root);
      while child != root && (child == null || child.color == Black)
        invariant ShortAt(ctx, t) && child == RootOf(t) && parent == Outer(ctx)
        invariant Nodes(tree) == old(Nodes(tree)) && InOrder(tree) == old(InOrder(tree))
        invariant child != null ==> child in Nodes(tree) && child.color == t.color
        decreases Effort(ctx, t)
      {
        Peek(ctx, t, root);
        var done;
        if child == parent.left {
          assert ctx.InLeft?;
          done, ctx, t := RepairShortLeft(parent, ctx, t);
        } else {
          done, ctx, t := RepairShortRight(parent, ctx, t);
        }
        if done {
          child := root;
          ctx, t := Top, tree;
          break;
        }
        Peek(ctx, t, root);
        child := parent;
        parent := child.parent;
      }
      Peek(ctx, t, root);
      PaintChild(child, ctx, t);
    }

    /** Wherever the repair loop stops, painting the node it stopped at black is enough. */
    method PaintChild(child: Node?, ghost ctx: Ctx, ghost t: Tree)
      requires Linked() && tree == Plug(ctx, t) && GoodBlackened(t) && child == RootOf(t)
      requires ctx.Top? || (RootColor(t) == Red && Fits(ctx, Black, BlackHeight(t) + 1))
      modifies this, Nodes(tree)
      ensures Valid()
      ensures Nodes(tree) == old(Nodes(tree)) && InOrder(tree) == old(InOrder(tree))
    {
      if child != null {
        SetColor(child, Black, ctx, t.left, t.color, t.right);
        FitsIffRedBlack(ctx, Branch(t.left, child, Black, t.right));
      }
    }

    // ---------------------------------------------------------------- erasure

    /** Taking out a node with at most one child leaves the tree whole if the node was red,
        and one black node short at that place if it was black. */
    static lemma {:induction false} Removed(ctx: Ctx, t: Tree, c: Tree)
      requires RedBlack(Plug(ctx, t)) && t.Branch?
      requires (t.left.Leaf? && c == t.right) || (t.right.Leaf? && c == t.left)
      ensures Good(c) && GoodBlackened(c)
      ensures t.color == Black ==> Fits(ctx, Black, BlackHeight(c) + 1)
      ensures t.color == Red ==> RedBlack(Plug(ctx, c))
    {
      FitsIffRedBlack(ctx, t);
      assert Good(t.left) && Good(t.right) && BlackHeight(t.left) == BlackHeight(t.right) && BlackHeight(Leaf) == 0;
      assert BlackHeight(c) == 0;
      assert BlackHeight(t) == Weight(t.color);
      BlackenGood(c);
      if t.color == Red {
        assert RootColor(c) == Black && Fits(ctx, Black, 0);
        FitsIffRedBlack(ctx, c);
      }
    }

    static lemma {:induction false} BlackenGood(c: Tree)
      requires Good(c)
      ensures GoodBlackened(c)
    {
    }

    /** The leftmost node below `from`: the successor of the node to be erased. */
    method Leftmost(from: Node, ghost outer: Ctx, ghost r: Tree) returns (s: Node, ghost path: Ctx, ghost st: Tree)
      requires Linked() && tree == Plug(outer, r) && r.Branch? && r.node == from
      ensures Linked()
      ensures r == Plug(path, st) && Before(path) == [] && tree == Plug(Append(path, outer), st)
      ensures st.Branch? && st.node == s && st.left.Leaf?
      ensures !path.Top? ==> path.node in Nodes(r)
    {
      s, path, st := from, Top, r;
      while true
        invariant Linked() && r == Plug(path, st) && Before(path) == []
        invariant tree == Plug(Append(path, outer), st)
        invariant st.Branch? && st.node == s
        decreases st
      {
        Peek(Append(path, outer), st, root);
        var left := s.left;
        if left == null {
          PlugNodes(path, st);
          return;
        }
        path, st, s := InLeft(path, s, st.color, st.right), st.left, left;
      }
    }

    /** The successor of a node with two children leaves the tree.  Returns it, with what
        moved up into its place, that place's parent and the colour that was taken away. */
    method TakeSuccessor(node: Node, ghost ctx: Ctx, ghost t: Tree)
        returns (s: Node, child: Node?, parent: Node?, color: Color, ghost path: Ctx, ghost st: Tree)
      requires Valid() && tree == Plug(ctx, t) && t.Branch? && t.node == node && t.left.Branch? && t.right.Branch?
      modifies this, Nodes(tree)
      ensures st.Branch? && st.node == s && st.left.Leaf? && t.right == Plug(path, st) && Before(path) == []
      ensures Linked() && tree == Plug(ctx, Branch(t.left, node, t.color, Plug(path, st.right)))
      ensures child == RootOf(st.right) && color == st.color
      ensures s.parent == parent == (if path.Top? then node else path.node)
      ensures Nodes(tree) == old(Nodes(tree)) - {s} && s in old(Nodes(tree))
      ensures RedBlack(Plug(Append(path, InRight(ctx, t.left, node, t.color)), st))
    {
      ghost var outer := InRight(ctx, t.left, node, t.color);
      Peek(ctx, t, root);
      s, path, st := Leftmost(node.right, outer, t.right);
      ghost var full := Append(path, outer);
      Peek(full, st, root);
      child := s.right;
      parent := s.parent;
      color := s.color;
      PlugNodes(full, st);
      Unlink(s, child, parent, full, st, st.right);
      PlugAppend(path, outer, st.right);
    }

    /** The node with two children is replaced by its successor. */
    method Splice(node: Node, ghost ctx: Ctx, ghost t: Tree)
        returns (child: Node?, parent: Node?, color: Color, ghost at: Ctx, ghost sub: Tree)
      requires Valid() && tree == Plug(ctx, t) && t.Branch? && t.node == node && t.left.Branch? && t.right.Branch?
      modifies this, Nodes(tree)
      ensures Linked() && tree == Plug(at, sub) && child == RootOf(sub) && parent == Outer(at)
      ensures GoodBlackened(sub)
      ensures color == Black ==> Fits(at, Black, BlackHeight(sub) + 1)
      ensures color == Red ==> RedBlack(tree)
      ensures Nodes(tree) == old(Nodes(tree)) - {node}
      ensures InOrder(tree) == Before(ctx) + InOrder(t.left) + InOrder(t.right) + After(ctx)
    {
      ghost var l, k := t.left, t.color;
      var s;
      ghost var path, st;
      s, child, parent, color, path, st := TakeSuccessor(node, ctx, t);
      at, sub := Append(path, InRight(ctx, l, s, k)), st.right;
      SpliceFacts(ctx, l, node, k, path, st);
      if s.parent == node {
        parent := s;
      }
      Substitute(node, s, ctx, l, k, Plug(path, st.right));
    }

    /** The tree after the splice, seen from the place the successor left. */
    static lemma {:induction false} SuccessorOrder(ctx: Ctx, l: Tree, node: Node, k: Color, path: Ctx, st: Tree)
      requires st.Branch? && st.left.Leaf? && Before(path) == []
      ensures var now := Plug(ctx, Branch(l, st.node, k, Plug(path, st.right)));
        && Plug(Append(path, InRight(ctx, l, st.node, k)), st.right) == now
        && InOrder(now) == Before(ctx) + InOrder(l) + InOrder(Plug(path, st)) + After(ctx)
    {
      var s, r := st.node, Plug(path, st.right);
      PlugAppend(path, InRight(ctx, l, s, k), st.right);
      PlugInOrder(path, st);
      PlugInOrder(path, st.right);
      PlugInOrder(ctx, Branch(l, s, k, r));
      assert InOrder(st) == [] + [s] + InOrder(st.right);
      assert InOrder(Plug(path, st)) == [s] + InOrder(r);
      Regroup(Before(ctx), InOrder(l), [s], InOrder(r), After(ctx));
    }

    static lemma {:induction false} SuccessorApart(ctx: Ctx, l: Tree, node: Node, k: Color, path: Ctx, st: Tree)
      requires st.Branch? && Distinct(Plug(ctx, Branch(l, node, k, Plug(path, st))))
      ensures st.node != node && (!path.Top? ==> path.node != node)
    {
      PlugDistinct(ctx, Branch(l, node, k, Plug(path, st)));
      PlugNodes(path, st);
      assert node !in Nodes(Plug(path, st));
    }

    static lemma {:induction false} SuccessorFits(ctx: Ctx, l: Tree, node: Node, k: Color, path: Ctx, s: Node, c: Tree)
      requires Good(c)
      ensures var was, now := Append(path, InRight(ctx, l, node, k)), Append(path, InRight(ctx, l, s, k));
        && (Fits(was, Black, BlackHeight(c) + 1) ==> Fits(now, Black, BlackHeight(c) + 1))
        && (RedBlack(Plug(was, c)) ==> RedBlack(Plug(now, c)))
    {
      FitsRename(path, ctx, l, node, s, k, Black, BlackHeight(c) + 1);
      FitsRename(path, ctx, l, node, s, k, RootColor(c), BlackHeight(c));
      FitsIffRedBlack(Append(path, InRight(ctx, l, node, k)), c);
      FitsIffRedBlack(Append(path, InRight(ctx, l, s, k)), c);
    }

    /** All that the splice leaves behind. */
    static lemma {:induction false} SpliceFacts(ctx: Ctx, l: Tree, node: Node, k: Color, path: Ctx, st: Tree)
      requires st.Branch? && st.left.Leaf? && Before(path) == []
      requires Distinct(Plug(ctx, Branch(l, node, k, Plug(path, st))))
      requires RedBlack(Plug(Append(path, InRight(ctx, l, node, k)), st))
      ensures st.node != node && (!path.Top? ==> path.node != node)
      ensures var at := Append(path, InRight(ctx, l, st.node, k));
        && Plug(at, st.right) == Plug(ctx, Branch(l, st.node, k, Plug(path, st.right)))
        && InOrder(Plug(at, st.right)) == Before(ctx) + InOrder(l) + InOrder(Plug(path, st)) + After(ctx)
        && Outer(at) == (if path.Top? then st.node else path.node)
        && (st.color == Black ==> Fits(at, Black, BlackHeight(st.right) + 1))
        && (st.color == Red ==> RedBlack(Plug(at, st.right)))
      ensures GoodBlackened(st.right)
    {
      Removed(Append(path, InRight(ctx, l, node, k)), st, st.right);
      SuccessorOrder(ctx, l, node, k, path, st);
      SuccessorApart(ctx, l, node, k, path, st);
      SuccessorFits(ctx, l, node, k, path, st.node, st.right);
    }

    static lemma {:induction false} MiddleOf<T>(q: seq<T>, a: seq<T>, l: seq<T>, x: T, r: seq<T>, b: seq<T>)
      requires q == a + (l + [x] + r) + b
      ensures var k := |a| + |l|; k < |q| && q[k] == x && q[..k] + q[k + 1..] == a + l + r + b
    {
      var k := |a| + |l|;
      assert q == (a + l) + [x] + (r + b);
      assert q[..k] == a + l && q[k + 1..] == r + b;
    }

    static lemma {:induction false} RankAt(ctx: Ctx, t: Tree) returns (k: nat)
      requires t.Branch?
      ensures var q := InOrder(Plug(ctx, t));
        && k < |q| && q[k] == t.node
        && q[..k] + q[k + 1..] == Before(ctx) + InOrder(t.left) + InOrder(t.right) + After(ctx)
    {
      PlugInOrder(ctx, t);
      k := |Before(ctx)| + |InOrder(t.left)|;
      MiddleOf(InOrder(Plug(ctx, t)), Before(ctx), InOrder(t.left), t.node, InOrder(t.right), After(ctx));
    }

    static lemma {:induction false} DropOrder(ctx: Ctx, t: Tree, c: Tree)
      requires t.Branch? && ((t.left.Leaf? && c == t.right) || (t.right.Leaf? && c == t.left))
      ensures InOrder(Plug(ctx, c)) == Before(ctx) + InOrder(t.left) + InOrder(t.right) + After(ctx)
    {
      PlugInOrder(ctx, c);
      var a := Before(ctx);
      assert InOrder(Leaf) == [] && a + [] == a && (a + InOrder(c)) + [] == a + InOrder(c);
    }

    /** A node with at most one child is taken out. */
    method Drop(node: Node, ghost ctx: Ctx, ghost t: Tree)
        returns (child: Node?, parent: Node?, color: Color, ghost sub: Tree)
      requires Valid() && tree == Plug(ctx, t) && t.Branch? && t.node == node && (t.left.Leaf? || t.right.Leaf?)
      modifies this, Nodes(tree)
      ensures Linked() && tree == Plug(ctx, sub) && child == RootOf(sub) && parent == Outer(ctx)
      ensures GoodBlackened(sub)
      ensures color == Black ==> Fits(ctx, Black, BlackHeight(sub) + 1)
      ensures color == Red ==> RedBlack(tree)
      ensures Nodes(tree) == old(Nodes(tree)) - {node}
      ensures InOrder(tree) == Before(ctx) + InOrder(t.left) + InOrder(t.right) + After(ctx)
    {
      Peek(ctx, t, root);
      if node.left == null {
        child := node.right;
        sub := t.right;
      } else {
        child := node.left;
        sub := t.left;
      }
      parent := node.parent;
      color := node.color;
      Removed(ctx, t, sub);
      DropOrder(ctx, t, sub);
      Unlink(node, child, parent, ctx, t, sub);
    }

    /** Erases `node`; `k` was its rank. */
    method Erase(node: Node) returns (ghost k: nat)
      requires Valid() && node in Nodes(tree)
      modifies this, Nodes(tree)
      ensures Valid() && Nodes(tree) == old(Nodes(tree)) - {node}
      ensures k < |old(InOrder(tree))| && old(InOrder(tree))[k] == node
      ensures InOrder(tree) == old(InOrder(tree))[..k] + old(InOrder(tree))[k + 1..]
    {
      ghost var ctx, t := Locate(Top, tree, node);
      k := RankAt(ctx, t);
      Peek(ctx, t, root);
      var child, parent, color;
      ghost var at, sub;
      if node.left == null || node.right == null {
        child, parent, color, sub := Drop(node, ctx, t);
        at := ctx;
      } else {
        child, parent, color, at, sub := Splice(node, ctx, t);
      }
      if color == Black {
        RepairErase(child, parent, at, sub);
      }
    }

    // ---------------------------------------------------------------- lookup and traversal

    /** The way down of a lookup: to an equal node, or off the tree past unequal ones. */
    method Seek(key: Node, cmp: Cmp) returns (r: Node?, ghost ctx: Ctx)
      requires Linked()
      ensures Linked()
      ensures r != null ==> r in Nodes(tree) && cmp(key, r) == 0
      ensures r == null ==> tree == Plug(ctx, Leaf) && Misses(cmp, key, ctx)
    {
      ghost var t := tree;
      ctx := Top;
      var node := root;
      while node != null
        invariant Linked() && tree == Plug(ctx, t) && node == RootOf(t) && Misses(cmp, key, ctx)
        decreases t
      {
        Peek(ctx, t, root);
        var c := cmp(key, node);
        if c < 0 {
          node := node.left;
          ctx, t := InLeft(ctx, t.node, t.color, t.right), t.left;
        } else if c > 0 {
          node := node.right;
          ctx, t := InRight(ctx, t.left, t.node, t.color), t.right;
        } else {
          return node, ctx;
        }
      }
      r := null;
    }

    /** In a sorted tree a node equal to the key is found exactly when there is one. */
    method Find(key: Node, cmp: Cmp) returns (r: Node?)
      requires Linked() && Sorted(cmp, InOrder(tree)) && Preorder(cmp, Nodes(tree) + {key})
      ensures r != null ==> r in Nodes(tree) && cmp(key, r) == 0
      ensures r == null ==> forall n :: n in Nodes(tree) ==> cmp(key, n) != 0
    {
      ghost var ctx;
      r, ctx := Seek(key, cmp);
      if r == null {
        MissesAll(cmp, key, ctx);
      }
    }

    /** The first node in key order, or null for the empty tree. */
    method First() returns (r: Node?)
      requires Linked()
      ensures Linked()
      ensures r == if InOrder(tree) == [] then null else InOrder(tree)[0]
    {
      if root == null {
        return null;
      }
      ghost var path, st;
      r, path, st := Leftmost(root, Top, tree);
      PlugInOrder(path, st);
      assert InOrder(st)[0] == r;
    }

    /** From a node without right child, up to the first ancestor reached from its left. */
    method Climb(from: Node, ghost at: Ctx, ghost sub: Tree, ghost k: nat) returns (next: Node?)
      requires Linked() && tree == Plug(at, sub) && sub.Branch? && sub.node == from && |Before(at)| + |InOrder(sub)| == k + 1
      ensures Linked()
      ensures next == if k + 1 < |InOrder(tree)| then InOrder(tree)[k + 1] else null
    {
      ghost var ctx, t := at, sub;
      Peek(ctx, t, root);
      var node := from;
      next := node.parent;
      while next != null && node == next.right
        invariant Linked() && tree == Plug(ctx, t) && t.Branch? && node == t.node && next == Outer(ctx)
        invariant |Before(ctx)| + |InOrder(t)| == k + 1
        decreases Depth(ctx)
      {
        Peek(ctx, t, root);
        assert ctx.InRight?;
        node := next;
        t := Branch(ctx.left, ctx.node, ctx.color, t);
        ctx := ctx.up;
        Peek(ctx, t, root);
        next := next.parent;
      }
      Peek(ctx, t, root);
      PlugInOrder(ctx, t);
    }

    /** The node after the `k`-th in key order, or null, found by links alone. */
    method Next(node: Node, ghost k: nat) returns (next: Node?)
      requires Linked() && k < |InOrder(tree)| && InOrder(tree)[k] == node
      ensures Linked()
      ensures next == if k + 1 < |InOrder(tree)| then InOrder(tree)[k + 1] else null
    {
      InOrderNodes(tree);
      ghost var ctx, t := Locate(Top, tree, node);
      PlaceOf(ctx, t, k);
      Peek(ctx, t, root);
      if node.right != null {
        ghost var path, st;
        next, path, st := Leftmost(node.right, InRight(ctx, t.left, node, t.color), t.right);
        FirstBelow(ctx, t, path, st);
        return;
      }
      assert |InOrder(t)| == |InOrder(t.left)| + 1;
      next := Climb(node, ctx, t, k);
    }

    static lemma {:induction false} FirstBelow(ctx: Ctx, t: Tree, path: Ctx, st: Tree)
      requires t.Branch? && t.right == Plug(path, st) && st.Branch? && st.left.Leaf? && Before(path) == []
      ensures var k := |Before(ctx)| + |InOrder(t.left)|;
        k + 1 < |InOrder(Plug(ctx, t))| && InOrder(Plug(ctx, t))[k + 1] == st.node
    {
      PlugInOrder(path, st);
      PlugInOrder(ctx, t);
      assert InOrder(st) == [] + [st.node] + InOrder(st.right);
      assert InOrder(t.right)[0] == st.node;
      assert InOrder(t)[|InOrder(t.left)| + 1] == st.node;
    }

    /** A node's rank is what lies before its place plus what lies in its left subtree. */
    static lemma {:induction false} PlaceOf(ctx: Ctx, t: Tree, k: nat)
      requires t.Branch? && Distinct(Plug(ctx, t)) && k < |InOrder(Plug(ctx, t))| && InOrder(Plug(ctx, t))[k] == t.node
      ensures k == |Before(ctx)| + |InOrder(t.left)|
    {
      PlugInOrder(ctx, t);
      InOrderOnce(Plug(ctx, t));
      var q := InOrder(Plug(ctx, t));
      assert InOrder(t)[|InOrder(t.left)|] == t.node;
      assert q[|Before(ctx)| + |InOrder(t.left)|] == t.node;
    }

    /** Starting at the first node and following `Next` lists every node once, in key order. */
    method Walk() returns (q: seq<Node>)
      requires Linked()
      ensures q == InOrder(tree)
    {
      q := [];
      var n := First();
      while n != null
        invariant Linked() && |q| <= |InOrder(tree)| && q == InOrder(tree)[..|q|]
        invariant n == if |q| < |InOrder(tree)| then InOrder(tree)[|q|] else null
        decreases |InOrder(tree)| - |q|
      {
        var m := Next(n, |q|);
        q := q + [n];
        n := m;
      }
    }

    // ---------------------------------------------------------------- whole runs

    /** A valid tree sorted by `cmp`, of nodes from `u`. */
    ghost predicate SortedTree(cmp: Cmp, u: set<Node>)
      reads this, Nodes(tree)
    {
      Valid() && Nodes(tree) <= u && Sorted(cmp, InOrder(tree))
    }

    method AddSorted(node: Node, cmp: Cmp, ghost u: set<Node>)
      requires SortedTree(cmp, u) && Preorder(cmp, u) && node in u && node !in Nodes(tree)
      modifies this, u
      ensures SortedTree(cmp, u) && Nodes(tree) == old(Nodes(tree)) + {node}
    {
      PreorderPart(cmp, Nodes(tree) + {node}, u);
      var k := Insert(node, cmp);
    }

    method RemoveSorted(node: Node, cmp: Cmp, ghost u: set<Node>)
      requires SortedTree(cmp, u) && node in Nodes(tree)
      modifies this, u
      ensures SortedTree(cmp, u) && Nodes(tree) == old(Nodes(tree)) - {node}
    {
      ghost var q := InOrder(tree);
      var k := Erase(node);
      SortedWithout(cmp, q, k);
    }

    /** Any run of insertions and erasures keeps a sorted red-black tree of the right nodes,
        whose height is at most 2 * log2(n + 1). */
    method Run(ops: seq<Op>, cmp: Cmp, ghost u: set<Node>)
      requires SortedTree(cmp, u) && Preorder(cmp, u) && Legal(ops, Nodes(tree))
      requires forall i :: 0 <= i < |ops| ==> ops[i].node in u
      modifies this, u
      ensures SortedTree(cmp, u) && Nodes(tree) == Final(ops, old(Nodes(tree)))
      ensures Pow2(Height(tree)) <= (|InOrder(tree)| + 1) * (|InOrder(tree)| + 1)
    {
      var i := 0;
      while i < |ops|
        invariant 0 <= i <= |ops| && SortedTree(cmp, u) && Legal(ops[i..], Nodes(tree))
        invariant Final(ops[i..], Nodes(tree)) == Final(ops, old(Nodes(tree)))
      {
        assert ops[i..][0] == ops[i] && ops[i..][1..] == ops[i + 1..];
        match ops[i] {
          case Add(n) => AddSorted(n, cmp, u);
          case Remove(n) => RemoveSorted(n, cmp, u);
        }
        i := i + 1;
      }
      HeightLaw(tree);
    }
  }
}
