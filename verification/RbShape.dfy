/** Abstract shapes of the intrusive red-black tree of kernel/api/kapi_rbtree.c.

    A heap of linked nodes is described by a `Tree` value.  A place inside a tree is
    described by a `Ctx` (everything around the hole). */
module RbShape {
  import opened Bits

  datatype Color = Red | Black

  class Node {
    var parent: Node?
    var right: Node?
    var left: Node?
    var color: Color

    constructor ()
      ensures parent == null && right == null && left == null && color == Red
    {
      parent, right, left, color := null, null, null, Red;
    }
  }

  datatype Tree = Leaf | Branch(left: Tree, node: Node, color: Color, right: Tree)

  datatype Ctx =
    | Top
    | InLeft(up: Ctx, node: Node, color: Color, right: Tree)
    | InRight(up: Ctx, left: Tree, node: Node, color: Color)

  // ------------------------------------------------------------------ contents

  ghost function RootOf(t: Tree): Node? {
    if t.Leaf? then null else t.node
  }

  ghost function RootColor(t: Tree): Color {
    if t.Leaf? then Black else t.color
  }

  ghost function InOrder(t: Tree): seq<Node> {
    if t.Leaf? then [] else InOrder(t.left) + [t.node] + InOrder(t.right)
  }

  ghost function Nodes(t: Tree): set<Node> {
    if t.Leaf? then {} else Nodes(t.left) + {t.node} + Nodes(t.right)
  }

  ghost predicate Distinct(t: Tree) {
    t.Branch? ==>
      && Distinct(t.left) && Distinct(t.right)
      && t.node !in Nodes(t.left) && t.node !in Nodes(t.right)
      && Nodes(t.left) !! Nodes(t.right)
  }

  ghost function Plug(c: Ctx, t: Tree): Tree
    decreases c
  {
    match c
    case Top => t
    case InLeft(up, n, k, r) => Plug(up, Branch(t, n, k, r))
    case InRight(up, l, n, k) => Plug(up, Branch(l, n, k, t))
  }

  ghost function Outer(c: Ctx): Node? {
    if c.Top? then null else c.node
  }

  ghost function CtxNodes(c: Ctx): set<Node> {
    match c
    case Top => {}
    case InLeft(up, n, k, r) => CtxNodes(up) + {n} + Nodes(r)
    case InRight(up, l, n, k) => CtxNodes(up) + {n} + Nodes(l)
  }

  ghost predicate CtxDistinct(c: Ctx) {
    match c
    case Top => true
    case InLeft(up, n, k, r) =>
      CtxDistinct(up) && Distinct(r) && n !in Nodes(r) && n !in CtxNodes(up) && Nodes(r) !! CtxNodes(up)
    case InRight(up, l, n, k) =>
      CtxDistinct(up) && Distinct(l) && n !in Nodes(l) && n !in CtxNodes(up) && Nodes(l) !! CtxNodes(up)
  }

  /** The nodes before, and after, the hole in key order. */
  ghost function Before(c: Ctx): seq<Node> {
    match c
    case Top => []
    case InLeft(up, n, k, r) => Before(up)
    case InRight(up, l, n, k) => Before(up) + InOrder(l) + [n]
  }

  ghost function After(c: Ctx): seq<Node> {
    match c
    case Top => []
    case InLeft(up, n, k, r) => [n] + InOrder(r) + After(up)
    case InRight(up, l, n, k) => After(up)
  }

  ghost function Depth(c: Ctx): nat {
    if c.Top? then 0 else 1 + Depth(c.up)
  }

  lemma Regroup(a: seq<Node>, b: seq<Node>, c: seq<Node>, d: seq<Node>, e: seq<Node>)
    ensures a + (b + c + d) + e == a + b + (c + d + e)
    ensures a + (b + c + d) + e == (a + b + c) + d + e
    ensures a + (b + c + d) + e == a + b + (c + d) + e
  {
  }

  lemma {:induction false} PlugInOrder(c: Ctx, t: Tree)
    ensures InOrder(Plug(c, t)) == Before(c) + InOrder(t) + After(c)
    decreases c
  {
    match c
    case Top =>
    case InLeft(up, n, k, r) =>
      PlugInOrder(up, Branch(t, n, k, r));
      Regroup(Before(up), InOrder(t), [n], InOrder(r), After(up));
    case InRight(up, l, n, k) =>
      PlugInOrder(up, Branch(l, n, k, t));
      Regroup(Before(up), InOrder(l), [n], InOrder(t), After(up));
  }

  lemma {:induction false} PlugNodes(c: Ctx, t: Tree)
    ensures Nodes(Plug(c, t)) == CtxNodes(c) + Nodes(t)
    decreases c
  {
    match c
    case Top =>
    case InLeft(up, n, k, r) => PlugNodes(up, Branch(t, n, k, r));
    case InRight(up, l, n, k) => PlugNodes(up, Branch(l, n, k, t));
  }

  lemma {:induction false} PlugDistinct(c: Ctx, t: Tree)
    ensures Distinct(Plug(c, t)) <==> CtxDistinct(c) && Distinct(t) && CtxNodes(c) !! Nodes(t)
    decreases c
  {
    match c
    case Top =>
    case InLeft(up, n, k, r) => PlugDistinct(up, Branch(t, n, k, r));
    case InRight(up, l, n, k) => PlugDistinct(up, Branch(l, n, k, t));
  }

  lemma {:induction false} InOrderNodes(t: Tree)
    ensures forall i :: 0 <= i < |InOrder(t)| ==> InOrder(t)[i] in Nodes(t)
    ensures forall n :: n in Nodes(t) ==> n in InOrder(t)
  {
    if t.Branch? {
      InOrderNodes(t.left);
      InOrderNodes(t.right);
    }
  }

  /** In a tree of distinct nodes the key order lists every node once. */
  lemma {:induction false} InOrderOnce(t: Tree)
    requires Distinct(t)
    ensures forall i, j :: 0 <= i < j < |InOrder(t)| ==> InOrder(t)[i] != InOrder(t)[j]
  {
    if t.Branch? {
      InOrderOnce(t.left);
      InOrderOnce(t.right);
      InOrderNodes(t.left);
      InOrderNodes(t.right);
      var s, a, b := InOrder(t), InOrder(t.left), InOrder(t.right);
      forall i, j | 0 <= i < j < |s|
        ensures s[i] != s[j]
      {
        assert s == a + [t.node] + b;
        if j < |a| {
          assert a[i] != a[j];
        } else if i > |a| {
          assert b[i - |a| - 1] != b[j - |a| - 1];
        } else {
          assert i < |a| ==> a[i] in a && a[i] in Nodes(t.left);
          assert j > |a| ==> b[j - |a| - 1] in b && b[j - |a| - 1] in Nodes(t.right);
        }
      }
    }
  }

  // ------------------------------------------------------------------ the heap

  /** The nodes reachable from `p` are linked exactly as `t`, the root hanging below `par`. */
  ghost predicate Shape(t: Tree, p: Node?, par: Node?)
    reads Nodes(t)
  {
    if t.Leaf? then p == null
    else
      && p == t.node && p.parent == par && p.color == t.color
      && Shape(t.left, p.left, p) && Shape(t.right, p.right, p)
  }

  /** The nodes around a hole are linked as `c`, the hole's link being `hole` and the
      root pointer being `root`. */
  ghost predicate CtxShape(c: Ctx, hole: Node?, root: Node?)
    reads CtxNodes(c)
  {
    match c
    case Top => hole == root
    case InLeft(up, n, k, r) =>
      n.left == hole && n.color == k && n.parent == Outer(up) && Shape(r, n.right, n) && CtxShape(up, n, root)
    case InRight(up, l, n, k) =>
      n.right == hole && n.color == k && n.parent == Outer(up) && Shape(l, n.left, n) && CtxShape(up, n, root)
  }

  /** The heap below `root` is the tree with `t` at the place `c`. */
  ghost predicate At(c: Ctx, t: Tree, root: Node?)
    reads CtxNodes(c), Nodes(t)
  {
    && CtxDistinct(c) && Distinct(t) && CtxNodes(c) !! Nodes(t)
    && Shape(t, RootOf(t), Outer(c)) && CtxShape(c, RootOf(t), root)
  }

  lemma {:induction false} Unzip(c: Ctx, t: Tree, root: Node?)
    requires At(c, t, root)
    ensures At(Top, Plug(c, t), root)
    decreases c
  {
    match c
    case Top =>
    case InLeft(up, n, k, r) => Unzip(up, Branch(t, n, k, r), root);
    case InRight(up, l, n, k) => Unzip(up, Branch(l, n, k, t), root);
  }

  lemma {:induction false} Zip(c: Ctx, t: Tree, root: Node?)
    requires At(Top, Plug(c, t), root)
    ensures At(c, t, root)
    decreases c
  {
    match c
    case Top =>
    case InLeft(up, n, k, r) =>
      Zip(up, Branch(t, n, k, r), root);
      assert Shape(Branch(t, n, k, r), n, Outer(up)) && Shape(t, n.left, n);
    case InRight(up, l, n, k) =>
      Zip(up, Branch(l, n, k, t), root);
      assert Shape(Branch(l, n, k, t), n, Outer(up)) && Shape(t, n.right, n);
  }

  /** Every node of a tree is the root of a subtree at some place. */
  lemma {:induction false} Locate(c: Ctx, t: Tree, x: Node) returns (at: Ctx, sub: Tree)
    requires x in Nodes(t)
    ensures Plug(at, sub) == Plug(c, t)
    ensures sub.Branch? && sub.node == x
    decreases t
  {
    if t.node == x {
      at, sub := c, t;
    } else if x in Nodes(t.left) {
      at, sub := Locate(InLeft(c, t.node, t.color, t.right), t.left, x);
    } else {
      at, sub := Locate(InRight(c, t.left, t.node, t.color), t.right, x);
    }
  }

  /** `path`, read from its hole outwards, continued by `outer`. */
  ghost function Append(path: Ctx, outer: Ctx): Ctx {
    match path
    case Top => outer
    case InLeft(up, n, k, r) => InLeft(Append(up, outer), n, k, r)
    case InRight(up, l, n, k) => InRight(Append(up, outer), l, n, k)
  }

  lemma {:induction false} PlugAppend(path: Ctx, outer: Ctx, t: Tree)
    ensures Plug(Append(path, outer), t) == Plug(outer, Plug(path, t))
    decreases path
  {
    match path
    case Top =>
    case InLeft(up, n, k, r) => PlugAppend(up, outer, Branch(t, n, k, r));
    case InRight(up, l, n, k) => PlugAppend(up, outer, Branch(l, n, k, t));
  }

  // ------------------------------------------------------------------ red-black law

  ghost function Weight(k: Color): nat {
    if k == Black then 1 else 0
  }

  /** Black nodes on the leftmost path. */
  ghost function BlackHeight(t: Tree): nat {
    if t.Leaf? then 0 else BlackHeight(t.left) + Weight(t.color)
  }

  /** No red node has a red child, and all paths hold equally many black nodes. */
  ghost predicate Good(t: Tree) {
    t.Branch? ==>
      && Good(t.left) && Good(t.right)
      && BlackHeight(t.left) == BlackHeight(t.right)
      && (t.color == Red ==> RootColor(t.left) == Black && RootColor(t.right) == Black)
  }

  ghost predicate RedBlack(t: Tree) {
    Good(t) && RootColor(t) == Black
  }

  /** Filling the hole with a good tree of root colour `k` and black height `h` gives a
      red-black tree; at the top any black root will do. */
  ghost predicate Fits(c: Ctx, k: Color, h: nat) {
    match c
    case Top => k == Black
    case InLeft(up, n, pk, r) =>
      && Good(r) && BlackHeight(r) == h
      && (pk == Red ==> k == Black && RootColor(r) == Black)
      && Fits(up, pk, h + Weight(pk))
    case InRight(up, l, n, pk) =>
      && Good(l) && BlackHeight(l) == h
      && (pk == Red ==> k == Black && RootColor(l) == Black)
      && Fits(up, pk, h + Weight(pk))
  }

  lemma {:induction false} FitsIffRedBlack(c: Ctx, t: Tree)
    ensures RedBlack(Plug(c, t)) <==> Good(t) && Fits(c, RootColor(t), BlackHeight(t))
    decreases c
  {
    match c
    case Top =>
    case InLeft(up, n, k, r) => FitsIffRedBlack(up, Branch(t, n, k, r));
    case InRight(up, l, n, k) => FitsIffRedBlack(up, Branch(l, n, k, t));
  }

  /** Fitting does not depend on which node sits at a place. */
  lemma {:induction false} FitsRename(path: Ctx, up: Ctx, l: Tree, n: Node, m: Node, pk: Color, k: Color, h: nat)
    ensures Fits(Append(path, InRight(up, l, n, pk)), k, h) <==> Fits(Append(path, InRight(up, l, m, pk)), k, h)
    decreases path
  {
    match path
    case Top =>
    case InLeft(pup, pn, ppk, r) => FitsRename(pup, up, l, n, m, pk, ppk, h + Weight(ppk));
    case InRight(pup, pl, pn, ppk) => FitsRename(pup, up, l, n, m, pk, ppk, h + Weight(ppk));
  }

  // ------------------------------------------------------------------ height

  ghost function Height(t: Tree): nat {
    if t.Leaf? then 0
    else 1 + if Height(t.left) > Height(t.right) then Height(t.left) else Height(t.right)
  }

  lemma {:induction false} HeightByBlackHeight(t: Tree)
    requires Good(t)
    ensures Height(t) <= 2 * BlackHeight(t) + (if RootColor(t) == Red then 1 else 0)
  {
    if t.Branch? {
      HeightByBlackHeight(t.left);
      HeightByBlackHeight(t.right);
    }
  }

  lemma {:induction false} SizeByBlackHeight(t: Tree)
    requires Good(t)
    ensures |InOrder(t)| + 1 >= Pow2(BlackHeight(t))
  {
    if t.Branch? {
      SizeByBlackHeight(t.left);
      SizeByBlackHeight(t.right);
    }
  }

  /** The height law: height <= 2 * log2(n + 1), written without logarithms. */
  lemma {:induction false} HeightLaw(t: Tree)
    requires RedBlack(t)
    ensures Pow2(Height(t)) <= (|InOrder(t)| + 1) * (|InOrder(t)| + 1)
  {
    HeightByBlackHeight(t);
    SizeByBlackHeight(t);
    var b, n := BlackHeight(t), |InOrder(t)| + 1;
    Pow2Monotone(Height(t), b + b);
    Pow2Sum(b, b);
    assert Pow2(b) * Pow2(b) <= n * n by { Squares(Pow2(b), n); }
  }

  lemma {:induction false} Squares(a: nat, b: nat)
    requires a <= b
    ensures a * a <= b * b
  {
    assert a * a <= a * b <= b * b;
  }
}
