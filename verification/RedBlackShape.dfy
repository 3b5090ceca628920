/** The value of a red-black tree: its shape, the path from a subtree to the root,
    and the colour rules, all without the heap.
    Models the properties that kernel/adt/rbtree.c keeps. */
module RedBlackShape {
  import opened Basics

  datatype Color = Black | Red

  /** A node as linked into a tree; every field is rewritten in place. */
  class Node {
    var color: Color
    var left: Node?
    var right: Node?
    var parent: Node?

    /** `__rbtree_init`: a red node that is in no tree. */
    constructor ()
      ensures color == Red && left == null && right == null && parent == null
    {
      color, left, right, parent := Red, null, null, null;
    }
  }

  datatype Shape = Leaf | Fork(left: Shape, node: Node, color: Color, right: Shape)

  /** The way from a subtree up to the root; `left` says which child the subtree is. */
  datatype Path = Top | Via(left: bool, node: Node, color: Color, sib: Shape, up: Path)

  // ---------------------------------------------------------------- shapes

  ghost function Root(t: Shape): (n: Node?)
    ensures n != null ==> n in Nodes(t)
  {
    if t.Leaf? then null else t.node
  }

  ghost function ColorOf(t: Shape): Color {
    if t.Leaf? then Black else t.color
  }

  ghost function Paint(t: Shape, c: Color): Shape {
    if t.Leaf? then t else t.(color := c)
  }

  ghost function Nodes(t: Shape): set<Node> {
    if t.Leaf? then {} else Nodes(t.left) + {t.node} + Nodes(t.right)
  }

  ghost function InOrder(t: Shape): seq<Node> {
    if t.Leaf? then [] else InOrder(t.left) + [t.node] + InOrder(t.right)
  }

  ghost predicate Distinct(t: Shape) {
    t.Fork? ==>
      && t.node !in Nodes(t.left) && t.node !in Nodes(t.right)
      && Nodes(t.left) !! Nodes(t.right)
      && Distinct(t.left) && Distinct(t.right)
  }

  ghost function Height(t: Shape): nat {
    if t.Leaf? then 0 else
      var l, r := Height(t.left), Height(t.right);
      1 + if l < r then r else l
  }

  ghost function One(c: Color): nat { if c.Black? then 1 else 0 }

  /** Black nodes from the root of `t` down its left edge. */
  ghost function BlackHeight(t: Shape): nat {
    if t.Leaf? then 0 else One(t.color) + BlackHeight(t.left)
  }

  /** No red node has a red child, and all ways down meet the same number of black nodes. */
  ghost predicate Sound(t: Shape) {
    t.Fork? ==>
      && (t.color.Red? ==> ColorOf(t.left).Black? && ColorOf(t.right).Black?)
      && BlackHeight(t.left) == BlackHeight(t.right)
      && Sound(t.left) && Sound(t.right)
  }

  /** The four red-black properties of a whole tree. */
  ghost predicate RedBlack(t: Shape) {
    Sound(t) && ColorOf(t).Black?
  }

  // ---------------------------------------------------------------- paths

  ghost function Join(left: bool, t: Shape, n: Node, c: Color, sib: Shape): Shape {
    if left then Fork(t, n, c, sib) else Fork(sib, n, c, t)
  }

  ghost function Plug(z: Path, t: Shape): Shape {
    match z
    case Top => t
    case Via(left, n, c, sib, up) => Plug(up, Join(left, t, n, c, sib))
  }

  ghost function Up(z: Path): Node? {
    if z.Top? then null else z.node
  }

  ghost function PathNodes(z: Path): set<Node> {
    if z.Top? then {} else {z.node} + Nodes(z.sib) + PathNodes(z.up)
  }

  ghost predicate PathDistinct(z: Path) {
    z.Via? ==>
      && z.node !in Nodes(z.sib) && Distinct(z.sib)
      && z.node !in PathNodes(z.up) && Nodes(z.sib) !! PathNodes(z.up)
      && PathDistinct(z.up)
  }

  ghost function Depth(z: Path): nat {
    if z.Top? then 0 else 1 + Depth(z.up)
  }

  /** What stands before (after) the subtree in the order of the whole tree. */
  ghost function Before(z: Path): seq<Node> {
    if z.Top? then [] else
      Before(z.up) + if z.left then [] else InOrder(z.sib) + [z.node]
  }

  ghost function After(z: Path): seq<Node> {
    if z.Top? then [] else
      (if z.left then [z.node] + InOrder(z.sib) else []) + After(z.up)
  }

  /** Whether a sound subtree of black height `h` with a root of colour `c`
      makes the whole tree a red-black tree when put at the end of `z`. */
  ghost predicate Accepts(z: Path, h: nat, c: Color) {
    match z
    case Top => c.Black?
    case Via(_, _, color, sib, up) =>
      && Sound(sib) && BlackHeight(sib) == h
      && (color.Red? ==> c.Black? && ColorOf(sib).Black?)
      && Accepts(up, h + One(color), color)
  }

  /** The path `inner`, which ends below the node that `outer` leads to, made whole. */
  ghost function Extend(inner: Path, outer: Path): Path {
    if inner.Top? then outer else inner.(up := Extend(inner.up, outer))
  }

  // ---------------------------------------------------------------- facts about paths

  lemma {:induction false} PlugNodes(z: Path, t: Shape)
    ensures Nodes(Plug(z, t)) == Nodes(t) + PathNodes(z)
  {
    if z.Via? {
      PlugNodes(z.up, Join(z.left, t, z.node, z.color, z.sib));
    }
  }

  lemma {:induction false} PlugInOrder(z: Path, t: Shape)
    ensures InOrder(Plug(z, t)) == Before(z) + InOrder(t) + After(z)
  {
    if z.Via? {
      PlugInOrder(z.up, Join(z.left, t, z.node, z.color, z.sib));
    }
  }

  lemma {:induction false} PlugDistinct(z: Path, t: Shape)
    ensures Distinct(Plug(z, t)) <==> Distinct(t) && PathDistinct(z) && Nodes(t) !! PathNodes(z)
  {
    if z.Via? {
      PlugDistinct(z.up, Join(z.left, t, z.node, z.color, z.sib));
    }
  }

  lemma {:induction false} PlugFork(z: Path, t: Shape)
    requires t.Fork?
    ensures Plug(z, t).Fork?
  {
    if z.Via? {
      PlugFork(z.up, Join(z.left, t, z.node, z.color, z.sib));
    }
  }

  lemma {:induction false} PlugExtend(inner: Path, outer: Path, t: Shape)
    ensures Plug(Extend(inner, outer), t) == Plug(outer, Plug(inner, t))
  {
    if inner.Via? {
      PlugExtend(inner.up, outer, Join(inner.left, t, inner.node, inner.color, inner.sib));
    }
  }

  lemma {:induction false} PlugHeight(z: Path, t: Shape)
    ensures Height(t) + Depth(z) <= Height(Plug(z, t))
  {
    if z.Via? {
      PlugHeight(z.up, Join(z.left, t, z.node, z.color, z.sib));
    }
  }

  /** `Accepts` is exactly the condition for the whole to be a red-black tree. */
  lemma {:induction false} AcceptsIff(z: Path, t: Shape)
    ensures RedBlack(Plug(z, t)) <==> Sound(t) && Accepts(z, BlackHeight(t), ColorOf(t))
  {
    if z.Via? {
      AcceptsIff(z.up, Join(z.left, t, z.node, z.color, z.sib));
    }
  }

  lemma {:induction false} InOrderNodes(t: Shape)
    ensures forall i :: 0 <= i < |InOrder(t)| ==> InOrder(t)[i] in Nodes(t)
    ensures forall n :: n in Nodes(t) ==> n in InOrder(t)
  {
    if t.Fork? {
      InOrderNodes(t.left);
      InOrderNodes(t.right);
    }
  }

  lemma {:induction false} InOrderDistinct(t: Shape)
    requires Distinct(t)
    ensures NoRepeats(InOrder(t))
  {
    if t.Fork? {
      InOrderDistinct(t.left);
      InOrderDistinct(t.right);
      InOrderNodes(t.left);
      InOrderNodes(t.right);
      var l, r := InOrder(t.left), InOrder(t.right);
      var s := l + [t.node] + r;
      assert forall i :: 0 <= i < |l| ==> s[i] == l[i];
      assert forall i :: |l| < i < |s| ==> s[i] == r[i - |l| - 1];
    }
  }

  lemma SameNodes(t: Shape, t': Shape)
    requires InOrder(t) == InOrder(t')
    ensures Nodes(t) == Nodes(t')
  {
    InOrderNodes(t);
    InOrderNodes(t');
  }

  /** Every node of a tree is at the end of some path. */
  lemma {:induction false} Locate(z: Path, t: Shape, n: Node) returns (z': Path, t': Shape)
    requires n in Nodes(t)
    ensures Plug(z', t') == Plug(z, t) && t'.Fork? && t'.node == n
    decreases t
  {
    if t.node == n {
      z', t' := z, t;
    } else if n in Nodes(t.left) {
      z', t' := Locate(Via(true, t.node, t.color, t.right, z), t.left, n);
    } else {
      z', t' := Locate(Via(false, t.node, t.color, t.left, z), t.right, n);
    }
  }

  // ---------------------------------------------------------------- rotation

  /** Rotation of a shape around its root, to the left or to the right. */
  ghost function Rotated(t: Shape, left: bool): Shape
    requires t.Fork? && (if left then t.right else t.left).Fork?
  {
    if left
    then t.right.(left := t.(right := t.right.left))
    else t.left.(right := t.(left := t.left.right))
  }

  lemma RotatedInOrder(t: Shape, left: bool)
    requires t.Fork? && (if left then t.right else t.left).Fork?
    ensures InOrder(Rotated(t, left)) == InOrder(t)
  {
  }

  /** A rotation takes the rising child out between the sinking tree and the outer subtree. */
  lemma RotatedParts(t: Shape, left: bool)
    requires Distinct(t) && t.Fork? && (if left then t.right else t.left).Fork?
    ensures
      var s := if left then t.right else t.left;
      var inner, outer := if left then s.left else s.right, if left then s.right else s.left;
      var low := if left then t.(right := inner) else t.(left := inner);
      && Nodes(t) == Nodes(Rotated(t, left)) == Nodes(low) + {s.node} + Nodes(outer) && t.node in Nodes(low)
      && Distinct(Rotated(t, left))
      && Distinct(low) && Distinct(outer) && Distinct(inner)
      && s.node !in Nodes(low) && s.node !in Nodes(outer) && Nodes(low) !! Nodes(outer)
      && (inner.Fork? ==> inner.node in Nodes(low))
  {
    assert Distinct(if left then t.right else t.left);
  }

  // ---------------------------------------------------------------- rebalancing after an insertion

  /** All rules hold but one: the red root of `t` may have a red parent, or be the root. */
  ghost predicate InsertGap(z: Path, t: Shape) {
    t.Fork? && t.color.Red? && Sound(t) && Accepts(z, BlackHeight(t), Black)
  }

  /** A red parent is not the root of the tree, and the grandparent is black. */
  lemma RedParent(z: Path, t: Shape)
    requires InsertGap(z, t) && z.Via? && z.color.Red?
    ensures z.up.Via? && z.up.color.Black? && ColorOf(z.sib).Black?
    ensures Sound(z.sib) && BlackHeight(z.sib) == BlackHeight(t)
    ensures Sound(z.up.sib) && BlackHeight(z.up.sib) == BlackHeight(t)
    ensures Accepts(z.up.up, BlackHeight(t) + 1, Black)
  {
    assert Accepts(z.up, BlackHeight(t), Red);
  }

  /** Red uncle: parent and uncle become black, and the grandparent red. */
  ghost function Recolored(z: Path, t: Shape): Shape
    requires z.Via? && z.up.Via?
  {
    Join(z.up.left, Join(z.left, t, z.node, Black, z.sib), z.up.node, Red, Paint(z.up.sib, Black))
  }

  lemma RedUncle(z: Path, t: Shape)
    requires InsertGap(z, t) && z.Via? && z.color.Red? && z.up.Via? && ColorOf(z.up.sib).Red?
    ensures InsertGap(z.up.up, Recolored(z, t))
  {
    RedParent(z, t);
    assert Sound(Join(z.left, t, z.node, Black, z.sib));
  }

  /** The parent's subtree once the new node is on its outer side. */
  ghost function Outward(z: Path, t: Shape): Shape
    requires t.Fork? && z.Via? && z.up.Via?
  {
    var p := Join(z.left, t, z.node, z.color, z.sib);
    if z.left == z.up.left then p else Rotated(p, z.up.left)
  }

  /** The grandparent's subtree after its rotation. */
  ghost function Raised(z: Path, t: Shape): (r: Shape)
    requires t.Fork? && z.Via? && z.up.Via?
    ensures r.Fork?
  {
    Rotated(Join(z.up.left, Outward(z, t), z.up.node, z.up.color, z.up.sib), !z.up.left)
  }

  ghost function Child(t: Shape, left: bool): Shape
    requires t.Fork?
  {
    if left then t.left else t.right
  }

  /** The path to the new node then: the risen parent is painted black, the grandparent red. */
  ghost function RaisedPath(z: Path, t: Shape): Path
    requires t.Fork? && z.Via? && z.up.Via?
  {
    var r, pl := Raised(z, t), z.up.left;
    Via(pl, r.node, Black, Paint(Child(r, !pl), Red), z.up.up)
  }

  /** Black uncle: after at most two rotations the new node hangs below a black parent. */
  lemma BlackUncle(z: Path, t: Shape)
    requires InsertGap(z, t) && z.Via? && z.color.Red? && z.up.Via? && ColorOf(z.up.sib).Black?
    ensures Child(Raised(z, t), !z.up.left).Fork? && Child(Raised(z, t), !z.up.left).node == z.up.node
    ensures RaisedPath(z, t).Via? && RaisedPath(z, t).color.Black? && RaisedPath(z, t).up == z.up.up
    ensures InsertGap(RaisedPath(z, t), Child(Raised(z, t), z.up.left))
  {
    RedParent(z, t);
    assert z.left != z.up.left ==> Sound(t.left) && Sound(t.right);
  }

  lemma NewLeaf(z: Path, node: Node)
    requires Accepts(z, 0, Black)
    ensures InsertGap(z, Fork(Leaf, node, Red, Leaf))
    ensures Nodes(Fork(Leaf, node, Red, Leaf)) == {node} && Nodes(Leaf) == {}
  {
  }

  /** `now` is `was` with `node` right before (`left`) or right after `parent`. */
  ghost predicate Beside(was: seq<Node>, now: seq<Node>, node: Node, parent: Node?, left: bool) {
    if parent == null then now == [node] else
      && parent in was
      && forall k :: 0 <= k < |was| && was[k] == parent ==>
           var at := if left then k else k + 1;
           now == was[..at] + [node] + was[at..]
  }

  /** A node put at an empty link comes right before or right after the node with that link. */
  lemma SlotOrder(z: Path, node: Node)
    requires Distinct(Plug(z, Leaf))
    ensures Beside(InOrder(Plug(z, Leaf)), InOrder(Plug(z, Fork(Leaf, node, Red, Leaf))), node, Up(z), z.Via? && z.left)
  {
    hide Beside, Distinct, Plug;
    PlugInOrder(z, Leaf);
    PlugInOrder(z, Fork(Leaf, node, Red, Leaf));
    InOrderDistinct(Plug(z, Leaf));
    assert InOrder(Fork(Leaf, node, Red, Leaf)) == [node];
    assert Before(z) + [] + After(z) == Before(z) + After(z);
    BesideEither(Before(z), After(z), node);
  }

  lemma BesideEither(a: seq<Node>, b: seq<Node>, node: Node)
    requires NoRepeats(a + b)
    ensures b != [] ==> Beside(a + b, a + [node] + b, node, b[0], true)
    ensures a != [] ==> Beside(a + b, a + [node] + b, node, a[|a| - 1], false)
    ensures a == b == [] ==> Beside(a + b, a + [node] + b, node, null, false)
  {
    assert b != [] ==> (a + b)[|a|] == b[0];
    assert a != [] ==> (a + b)[|a| - 1] == a[|a| - 1];
  }

  /** Neither case moves a node in the order. */
  lemma InsertStepInOrder(z: Path, t: Shape)
    requires t.Fork? && z.Via? && z.up.Via?
    ensures InOrder(Plug(z.up.up, Recolored(z, t))) == InOrder(Plug(z, t))
    ensures InOrder(Plug(RaisedPath(z, t), Child(Raised(z, t), z.up.left))) == InOrder(Plug(z, t))
  {
    var pl, up := z.up.left, z.up.up;
    var p := Join(z.left, t, z.node, z.color, z.sib);
    if z.left != pl {
      RotatedInOrder(p, pl);
    }
    var g := Join(pl, p, z.up.node, z.up.color, z.up.sib);
    var g' := Join(pl, Outward(z, t), z.up.node, z.up.color, z.up.sib);
    RotatedInOrder(g', !pl);
    var r := Raised(z, t);
    var r' := Join(pl, Child(r, pl), r.node, Black, Paint(Child(r, !pl), Red));
    assert InOrder(Paint(Child(r, !pl), Red)) == InOrder(Child(r, !pl));
    assert r == Join(pl, Child(r, pl), r.node, r.color, Child(r, !pl));
    if pl {
      assert InOrder(r') == InOrder(r);
    } else {
      assert InOrder(r') == InOrder(r);
    }
    assert InOrder(Recolored(z, t)) == InOrder(g) == InOrder(g');
    PlugInOrder(up, Recolored(z, t));
    PlugInOrder(up, r');
    PlugInOrder(up, g);
  }

  lemma {:induction false} InsertDone(z: Path, t: Shape)
    requires InsertGap(z, t) && (z.Top? || z.color.Black?)
    ensures Plug(z, t).Fork? && InOrder(Paint(Plug(z, t), Black)) == InOrder(Plug(z, t))
    ensures RedBlack(Paint(Plug(z, t), Black))
    ensures z.Via? ==> RedBlack(Plug(z, t))
  {
    PlugFork(z, t);
    AcceptsIff(z, t);
  }

  // ---------------------------------------------------------------- rebalancing after a deletion

  /** All rules hold but these: ways through `t` miss one black node, and its root,
      if red, may have red neighbours. */
  ghost predicate DeleteGap(z: Path, t: Shape) {
    Sound(Paint(t, Black)) && Accepts(z, BlackHeight(t) + 1, Black)
  }

  lemma {:induction false} AcceptsBlack(z: Path, h: nat, c: Color)
    requires Accepts(z, h, c)
    ensures Accepts(z, h, Black)
  {
  }

  /** Below the root, a black subtree with a missing black node has a sibling. */
  lemma SiblingExists(z: Path, t: Shape)
    requires DeleteGap(z, t) && z.Via?
    ensures z.sib.Fork?
    ensures z.sib.color.Red? ==>
      z.color.Black? && z.sib.left.Fork? && z.sib.left.color.Black? && z.sib.right.Fork? && z.sib.right.color.Black?
  {
  }

  /** Red sibling: the path after the rotation around the parent and the exchange of colours. */
  ghost function RedSibling(z: Path): Path
    requires z.Via? && z.sib.Fork?
  {
    Via(z.left, z.node, Red, Child(z.sib, z.left), Via(z.left, z.sib.node, Black, Child(z.sib, !z.left), z.up))
  }

  lemma RedSiblingKeeps(z: Path, t: Shape)
    requires DeleteGap(z, t) && ColorOf(t).Black? && z.Via? && z.sib.Fork? && z.sib.color.Red?
    ensures DeleteGap(RedSibling(z), t)
  {
    SiblingExists(z, t);
    assert Accepts(z.up, BlackHeight(t) + 2, Black);
  }

  /** Black sibling with black children: the sibling becomes red, and the parent is next. */
  ghost function Lowered(z: Path, t: Shape): Shape
    requires z.Via?
  {
    Join(z.left, t, z.node, z.color, Paint(z.sib, Red))
  }

  ghost predicate BlackNephews(s: Shape)
    requires s.Fork?
  {
    ColorOf(s.left).Black? && ColorOf(s.right).Black?
  }

  lemma LoweredKeeps(z: Path, t: Shape)
    requires DeleteGap(z, t) && ColorOf(t).Black?
    requires z.Via? && z.sib.Fork? && z.sib.color.Black? && BlackNephews(z.sib)
    ensures DeleteGap(z.up, Lowered(z, t))
  {
    var h := BlackHeight(t) + 1 + One(z.color);
    assert Accepts(z.up, h, z.color);
    AcceptsBlack(z.up, h, z.color);
    assert Paint(t, Black) == t;
  }

  /** Black sibling with a red child: the sibling once its outer child is the red one. */
  ghost function Straight(z: Path): Shape
    requires z.Via? && z.sib.Fork? && !BlackNephews(z.sib)
  {
    var near, far := Child(z.sib, z.left), Child(z.sib, !z.left);
    if ColorOf(far).Red? then z.sib
    else Join(z.left, Child(near, z.left), near.node, Black, Join(z.left, Child(near, !z.left), z.sib.node, Red, far))
  }

  /** The parent's subtree after the last rotation and its colour changes. */
  ghost function Closed(z: Path, t: Shape): Shape
    requires z.Via? && z.sib.Fork? && !BlackNephews(z.sib)
  {
    var s := Straight(z);
    Join(z.left, Join(z.left, t, z.node, Black, Child(s, z.left)), s.node, z.color, Paint(Child(s, !z.left), Black))
  }

  lemma StraightSound(z: Path, h: nat)
    requires z.Via? && z.sib.Fork? && z.sib.color.Black? && !BlackNephews(z.sib)
    requires Sound(z.sib) && BlackHeight(z.sib) == h + 1
    ensures
      var s := Straight(z);
      && Sound(Child(s, z.left)) && BlackHeight(Child(s, z.left)) == h
      && Sound(Paint(Child(s, !z.left), Black)) && BlackHeight(Paint(Child(s, !z.left), Black)) == h + 1
  {
    var near, far := Child(z.sib, z.left), Child(z.sib, !z.left);
    assert Sound(near) && Sound(far);
    if ColorOf(far).Black? {
      assert Sound(Child(near, true)) && Sound(Child(near, false));
      assert Sound(Join(z.left, Child(near, !z.left), z.sib.node, Black, far));
    }
  }

  lemma ClosedIsRedBlack(z: Path, t: Shape)
    requires DeleteGap(z, t) && ColorOf(t).Black?
    requires z.Via? && z.sib.Fork? && z.sib.color.Black? && !BlackNephews(z.sib)
    ensures RedBlack(Plug(z.up, Closed(z, t)))
  {
    StraightSound(z, BlackHeight(t));
    assert Paint(t, Black) == t;
    var s := Straight(z);
    assert Sound(Join(z.left, t, z.node, Black, Child(s, z.left)));
    AcceptsIff(z.up, Closed(z, t));
  }

  lemma StraightInOrder(z: Path)
    requires z.Via? && z.sib.Fork? && !BlackNephews(z.sib)
    ensures InOrder(Straight(z)) == InOrder(z.sib)
  {
    var near, far := Child(z.sib, z.left), Child(z.sib, !z.left);
    if ColorOf(far).Black? {
      var low := Join(z.left, Child(near, !z.left), z.sib.node, Red, far);
      assert InOrder(low) == if z.left then InOrder(near.right) + [z.sib.node] + InOrder(far)
                             else InOrder(far) + [z.sib.node] + InOrder(near.left);
    }
  }

  /** No case moves a node in the order. */
  lemma RedSiblingInOrder(z: Path, t: Shape)
    requires z.Via? && z.sib.Fork?
    ensures InOrder(Plug(RedSibling(z), t)) == InOrder(Plug(z, t))
  {
    var g := Join(z.left, t, z.node, z.color, z.sib);
    var p' := Join(z.left, t, z.node, Red, Child(z.sib, z.left));
    var g' := Join(z.left, p', z.sib.node, Black, Child(z.sib, !z.left));
    assert InOrder(g') == InOrder(g);
    PlugInOrder(z.up, g);
    PlugInOrder(z.up, g');
  }

  lemma LoweredInOrder(z: Path, t: Shape)
    requires z.Via?
    ensures InOrder(Plug(z.up, Lowered(z, t))) == InOrder(Plug(z, t))
  {
    PlugInOrder(z.up, Lowered(z, t));
    PlugInOrder(z.up, Join(z.left, t, z.node, z.color, z.sib));
  }

  lemma ClosedInOrder(z: Path, t: Shape)
    requires z.Via? && z.sib.Fork? && !BlackNephews(z.sib)
    ensures InOrder(Plug(z.up, Closed(z, t))) == InOrder(Plug(z, t))
  {
    hide Straight;
    StraightInOrder(z);
    var s := Straight(z);
    assert InOrder(s) == InOrder(s.left) + [s.node] + InOrder(s.right);
    var g := Join(z.left, t, z.node, z.color, z.sib);
    assert InOrder(Closed(z, t)) == InOrder(g);
    PlugInOrder(z.up, g);
    PlugInOrder(z.up, Closed(z, t));
  }

  lemma DeleteDone(z: Path, t: Shape)
    requires DeleteGap(z, t) && (z.Top? || ColorOf(t).Red?)
    ensures RedBlack(Plug(z, Paint(t, Black)))
    ensures InOrder(Plug(z, Paint(t, Black))) == InOrder(Plug(z, t))
  {
    AcceptsIff(z, Paint(t, Black));
    PlugInOrder(z, t);
    PlugInOrder(z, Paint(t, Black));
  }

  // ---------------------------------------------------------------- taking a node out

  ghost function OnlyChild(t: Shape): Shape
    requires t.Fork?
  {
    if t.left.Fork? then t.left else t.right
  }

  /** A node with at most one child, replaced by that child. */
  lemma Spliced(z: Path, t: Shape)
    requires t.Fork? && (t.left.Leaf? || t.right.Leaf?) && RedBlack(Plug(z, t))
    ensures if t.color.Black? then DeleteGap(z, OnlyChild(t)) else RedBlack(Plug(z, OnlyChild(t)))
  {
    AcceptsIff(z, t);
    AcceptsIff(z, OnlyChild(t));
    if t.color.Red? {
      AcceptsBlack(z, BlackHeight(t), Red);
    }
  }

  /** The path below a node is accepted for what it is, whatever the node is called. */
  lemma {:induction false} AcceptsRenamed(inner: Path, outer: Path, n: Node, h: nat, c: Color)
    requires outer.Via?
    ensures Accepts(Extend(inner, outer), h, c) <==> Accepts(Extend(inner, outer.(node := n)), h, c)
  {
    if inner.Via? {
      AcceptsRenamed(inner.up, outer, n, h + One(inner.color), inner.color);
    }
  }

  ghost predicate Leftmost(z: Path) {
    z.Via? ==> z.left && Leftmost(z.up)
  }

  lemma {:induction false} LeftmostFirst(z: Path)
    requires Leftmost(z)
    ensures Before(z) == []
  {
    if z.Via? {
      LeftmostFirst(z.up);
    }
  }

  lemma {:induction false} ExtendNodes(inner: Path, outer: Path)
    ensures PathNodes(Extend(inner, outer)) == PathNodes(inner) + PathNodes(outer)
    ensures Depth(Extend(inner, outer)) == Depth(inner) + Depth(outer)
    ensures Up(Extend(inner, outer)) == if inner.Top? then Up(outer) else inner.node
  {
    if inner.Via? {
      ExtendNodes(inner.up, outer);
    }
  }

  /** `now` is `was` without `node`. */
  ghost predicate Without(was: seq<Node>, now: seq<Node>, node: Node) {
    && node in was
    && forall k :: 0 <= k < |was| && was[k] == node ==> now == was[..k] + was[k + 1..]
  }

  lemma {:induction false} WithoutNodes(t: Shape, t': Shape, node: Node)
    requires Distinct(t) && Without(InOrder(t), InOrder(t'), node)
    ensures Nodes(t') == Nodes(t) - {node}
  {
    hide InOrder, Nodes, Distinct, Without;
    InOrderNodes(t);
    InOrderNodes(t');
    InOrderDistinct(t);
    WithoutAt(InOrder(t), InOrder(t'), node);
    var was, now := InOrder(t), InOrder(t');
    forall n | n in Nodes(t')
      ensures n in Nodes(t) && n != node
    {
      assert n in now;
    }
    forall n | n in Nodes(t) && n != node
      ensures n in Nodes(t')
    {
      assert n in was;
    }
  }

  lemma WithoutAt(was: seq<Node>, now: seq<Node>, node: Node)
    requires Without(was, now, node)
    requires NoRepeats(was)
    ensures forall i :: 0 <= i < |now| ==> now[i] in was && now[i] != node
    ensures forall i :: 0 <= i < |was| && was[i] != node ==> was[i] in now
  {
    var k :| 0 <= k < |was| && was[k] == node;
    assert now == was[..k] + was[k + 1..];
    forall i | 0 <= i < |now|
      ensures now[i] in was && now[i] != node
    {
      assert now[i] == was[if i < k then i else i + 1];
    }
    forall i | 0 <= i < |was| && was[i] != node
      ensures was[i] in now
    {
      assert was[i] == now[if i < k then i else i - 1];
    }
  }

  lemma WithoutMiddle(a: seq<Node>, node: Node, b: seq<Node>)
    requires NoRepeats(a + [node] + b)
    ensures Without(a + [node] + b, a + b, node)
  {
    assert (a + [node] + b)[|a|] == node;
  }

  lemma SplicedOrder(z: Path, t: Shape)
    requires t.Fork? && (t.left.Leaf? || t.right.Leaf?) && Distinct(Plug(z, t))
    ensures Without(InOrder(Plug(z, t)), InOrder(Plug(z, OnlyChild(t))), t.node)
  {
    MiddleOut(z, t, InOrder(t.left), InOrder(t.right), OnlyChild(t));
  }

  /** A node with two children, replaced by the first node of its right subtree. */
  lemma SubstitutedOrder(z: Path, t: Shape, inner: Path, u: Shape)
    requires t.Fork? && t.right == Plug(inner, u) && Leftmost(inner) && u.Fork? && u.left.Leaf?
    requires Distinct(Plug(z, t))
    ensures Without(InOrder(Plug(z, t)), InOrder(Plug(z, t.(node := u.node, right := Plug(inner, u.right)))), t.node)
  {
    hide Plug, Distinct, Without, Leftmost;
    FirstOut(inner, u);
    var r := Plug(inner, u.right);
    var t' := t.(node := u.node, right := r);
    assert InOrder(t') == InOrder(t.left) + [u.node] + InOrder(r);
    Regroup(InOrder(t.left), [u.node], InOrder(r));
    MiddleOut(z, t, InOrder(t.left), InOrder(t.right), t');
  }

  lemma Regroup(a: seq<Node>, b: seq<Node>, c: seq<Node>)
    ensures a + b + c == a + (b + c)
  {
  }

  /** Taking the root out of the order of a subtree takes it out of the whole order. */
  lemma MiddleOut(z: Path, t: Shape, l: seq<Node>, r: seq<Node>, t': Shape)
    requires t.Fork? && InOrder(t) == l + [t.node] + r && InOrder(t') == l + r && Distinct(Plug(z, t))
    ensures Without(InOrder(Plug(z, t)), InOrder(Plug(z, t')), t.node)
  {
    hide InOrder, Plug, Distinct, Without, Before, After;
    PlugInOrder(z, t);
    PlugInOrder(z, t');
    InOrderDistinct(Plug(z, t));
    var a, b := Before(z) + l, r + After(z);
    Around5(Before(z), l, t.node, r, After(z));
    WithoutMiddle(a, t.node, b);
  }

  lemma Around5(a: seq<Node>, l: seq<Node>, n: Node, r: seq<Node>, b: seq<Node>)
    ensures a + (l + [n] + r) + b == (a + l) + [n] + (r + b)
    ensures a + (l + r) + b == (a + l) + (r + b)
  {
  }

  lemma FirstOut(inner: Path, u: Shape)
    requires Leftmost(inner) && u.Fork? && u.left.Leaf?
    ensures InOrder(Plug(inner, u)) == [u.node] + InOrder(Plug(inner, u.right))
  {
    hide Plug, Before, After;
    PlugInOrder(inner, u);
    PlugInOrder(inner, u.right);
    LeftmostFirst(inner);
  }

  lemma PlugSide(z: Path, t: Shape, inner: Path, u: Shape)
    requires t.Fork? && t.right == Plug(inner, u)
    ensures Plug(Extend(inner, Via(false, t.node, t.color, t.left, z)), u) == Plug(z, t)
  {
    PlugExtend(inner, Via(false, t.node, t.color, t.left, z), u);
  }

  /** The node that takes the place of one with two children leaves a gap of the same kind
      as it would in its own place. */
  lemma Substituted(z: Path, t: Shape, inner: Path, u: Shape)
    requires t.Fork? && t.right == Plug(inner, u) && u.Fork? && u.left.Leaf? && RedBlack(Plug(z, t))
    ensures
      var zz := Extend(inner, Via(false, u.node, t.color, t.left, z));
      && Plug(zz, u.right) == Plug(z, t.(node := u.node, right := Plug(inner, u.right)))
      && Depth(zz) <= Height(Plug(z, t))
      && if u.color.Black? then DeleteGap(zz, u.right) else RedBlack(Plug(zz, u.right))
  {
    hide Plug, Extend, Accepts, Height, RedBlack, PathNodes;
    var side := Via(false, t.node, t.color, t.left, z);
    var z', zz := Extend(inner, side), Extend(inner, side.(node := u.node));
    PlugSide(z, t, inner, u);
    PlugSide(z, t.(node := u.node, right := Plug(inner, u.right)), inner, u.right);
    Spliced(z', u);
    PlugHeight(z', u);
    ExtendNodes(inner, side);
    ExtendNodes(inner, side.(node := u.node));
    AcceptsRenamed(inner, side, u.node, BlackHeight(u.right) + 1, Black);
    AcceptsRenamed(inner, side, u.node, BlackHeight(u.right), ColorOf(u.right));
    AcceptsIff(z', u.right);
    AcceptsIff(zz, u.right);
  }

  /** The substitute stands in no other part of the tree. */
  lemma SubstituteApart(z: Path, t: Shape, inner: Path, u: Shape)
    requires t.Fork? && t.right == Plug(inner, u) && u.Fork?
    requires Distinct(t) && PathDistinct(z) && Nodes(t) !! PathNodes(z)
    ensures t.node !in PathNodes(inner) && u.node !in Nodes(t.(right := Plug(inner, u.right)))
    ensures u.node !in PathNodes(z)
    ensures Distinct(Plug(z, t)) && (inner.Via? ==> inner.node != t.node)
  {
    PlugDistinct(z, t);
    PlugNodes(inner, u);
    PlugNodes(inner, u.right);
    PlugDistinct(inner, u);
  }

  // ---------------------------------------------------------------- height

  lemma {:induction false} BlackHeightBounds(t: Shape)
    requires Sound(t)
    ensures Pow2(BlackHeight(t)) <= |InOrder(t)| + 1
    ensures Height(t) <= 2 * BlackHeight(t) + 1 - One(ColorOf(t))
  {
    if t.Fork? {
      BlackHeightBounds(t.left);
      BlackHeightBounds(t.right);
    }
  }

  /** A red-black tree of n nodes is at most 2 * log2 (n + 1) high. */
  lemma HeightBound(t: Shape)
    requires RedBlack(t)
    ensures Pow2(Height(t)) <= (|InOrder(t)| + 1) * (|InOrder(t)| + 1)
  {
    BlackHeightBounds(t);
    var b, n := BlackHeight(t), |InOrder(t)| + 1;
    Pow2Monotone(Height(t), b + b);
    Pow2Sum(b, b);
    SquareMonotone(Pow2(b), n);
  }

  lemma SquareMonotone(a: nat, b: nat)
    requires a <= b
    ensures a * a <= b * b
  {
    assert a * a <= a * b;
    assert a * b <= b * b;
  }

  // ---------------------------------------------------------------- walking

  ghost function AtOrNull(s: seq<Node>, k: int): Node? {
    if 0 <= k < |s| then s[k] else null
  }

  /** `next` is what stands right after `n` in `s`, or null at the end. */
  ghost predicate Follows(s: seq<Node>, n: Node, next: Node?) {
    && n in s
    && forall k :: 0 <= k < |s| && s[k] == n ==> next == AtOrNull(s, k + 1)
  }

  /** `prev` is what stands right before `n` in `s`, or null at the start. */
  ghost predicate Precedes(s: seq<Node>, n: Node, prev: Node?) {
    && n in s
    && forall k :: 0 <= k < |s| && s[k] == n ==> prev == AtOrNull(s, k - 1)
  }

  lemma FollowsMiddle(a: seq<Node>, n: Node, b: seq<Node>)
    requires NoRepeats(a + [n] + b)
    ensures Follows(a + [n] + b, n, if b == [] then null else b[0])
    ensures Precedes(a + [n] + b, n, if a == [] then null else a[|a| - 1])
  {
    var s := a + [n] + b;
    assert s[|a|] == n;
    assert b != [] ==> s[|a| + 1] == b[0];
    assert a != [] ==> s[|a| - 1] == a[|a| - 1];
  }

  lemma FollowsAt(s: seq<Node>, k: nat, m: Node)
    requires k < |s| && Follows(s, s[k], m)
    ensures k + 1 < |s| && s[k + 1] == m
  {
  }

  lemma PrecedesAt(s: seq<Node>, k: nat, m: Node)
    requires k < |s| && Precedes(s, s[k], m)
    ensures 0 < k && s[k - 1] == m
  {
  }

  /** Going on and going back undo each other. */
  lemma FollowsPrecedes(s: seq<Node>, n: Node, m: Node)
    requires NoRepeats(s)
    ensures Follows(s, n, m) <==> Precedes(s, m, n)
  {
    if Follows(s, n, m) {
      var k :| 0 <= k < |s| && s[k] == n;
      FollowsAt(s, k, m);
    }
    if Precedes(s, m, n) {
      var k :| 0 <= k < |s| && s[k] == m;
      PrecedesAt(s, k, n);
    }
  }

  lemma LastOut(inner: Path, u: Shape)
    requires Rightmost(inner) && u.Fork? && u.right.Leaf?
    ensures InOrder(Plug(inner, u)) == InOrder(Plug(inner, u.left)) + [u.node]
  {
    PlugInOrder(inner, u);
    PlugInOrder(inner, u.left);
    RightmostLast(inner);
  }

  ghost predicate Rightmost(z: Path) {
    z.Via? ==> !z.left && Rightmost(z.up)
  }

  lemma {:induction false} RightmostLast(z: Path)
    requires Rightmost(z)
    ensures After(z) == []
  {
    if z.Via? {
      RightmostLast(z.up);
    }
  }

  /** The last node of `t` is followed by the first node after `z`. */
  lemma AfterLast(z: Path, t: Shape)
    requires t.Fork? && Distinct(Plug(z, t))
    ensures InOrder(t) != []
    ensures Follows(InOrder(Plug(z, t)), InOrder(t)[|InOrder(t)| - 1], if After(z) == [] then null else After(z)[0])
  {
    hide Plug, Distinct, Before, After, Follows;
    PlugInOrder(z, t);
    InOrderDistinct(Plug(z, t));
    var m, a, b := InOrder(t), Before(z), After(z);
    assert a + m + b == (a + m[..|m| - 1]) + [m[|m| - 1]] + b;
    FollowsMiddle(a + m[..|m| - 1], m[|m| - 1], b);
  }

  /** The first node of `t` is preceded by the last one before `z`. */
  lemma BeforeFirst(z: Path, t: Shape)
    requires t.Fork? && Distinct(Plug(z, t))
    ensures InOrder(t) != []
    ensures Precedes(InOrder(Plug(z, t)), InOrder(t)[0], if Before(z) == [] then null else Before(z)[|Before(z)| - 1])
  {
    hide Plug, Distinct, Before, After, Precedes;
    PlugInOrder(z, t);
    InOrderDistinct(Plug(z, t));
    var m, a, b := InOrder(t), Before(z), After(z);
    assert a + m + b == a + [m[0]] + (m[1..] + b);
    FollowsMiddle(a, m[0], m[1..] + b);
  }

  /** A node with a right (left) subtree is followed by its first (preceded by its last) node. */
  lemma BesideSubtrees(z: Path, t: Shape)
    requires t.Fork? && Distinct(Plug(z, t))
    ensures InOrder(t.right) != [] ==> Follows(InOrder(Plug(z, t)), t.node, InOrder(t.right)[0])
    ensures InOrder(t.left) != [] ==> Precedes(InOrder(Plug(z, t)), t.node, InOrder(t.left)[|InOrder(t.left)| - 1])
  {
    hide Plug, Distinct, Before, After, Follows, Precedes;
    PlugInOrder(z, t);
    InOrderDistinct(Plug(z, t));
    var a, b := Before(z) + InOrder(t.left), InOrder(t.right) + After(z);
    assert InOrder(Plug(z, t)) == a + [t.node] + b;
    FollowsMiddle(a, t.node, b);
  }

  // ---------------------------------------------------------------- searching

  /** The compare function agrees with the order: what it is looking for stands
      after the nodes it is positive on and before those it is negative on. */
  ghost predicate Searchable(s: seq<Node>, compare: Node -> int) {
    forall i, j :: 0 <= i < j < |s| ==>
      && (compare(s[i]) < 0 ==> compare(s[j]) < 0)
      && (compare(s[j]) > 0 ==> compare(s[i]) > 0)
  }

  lemma SearchSide(t: Shape, compare: Node -> int)
    requires t.Fork? && Searchable(InOrder(t), compare)
    ensures Searchable(InOrder(t.left), compare) && Searchable(InOrder(t.right), compare)
    ensures compare(t.node) < 0 ==> forall n :: n in InOrder(t) && compare(n) == 0 ==> n in InOrder(t.left)
    ensures compare(t.node) > 0 ==> forall n :: n in InOrder(t) && compare(n) == 0 ==> n in InOrder(t.right)
  {
    SearchHalf(InOrder(t.left), t.node, InOrder(t.right), compare);
  }

  lemma SearchHalf(l: seq<Node>, n: Node, r: seq<Node>, compare: Node -> int)
    requires Searchable(l + [n] + r, compare)
    ensures Searchable(l, compare) && Searchable(r, compare)
    ensures compare(n) < 0 ==> forall i :: 0 <= i < |r| ==> compare(r[i]) < 0
    ensures compare(n) > 0 ==> forall i :: 0 <= i < |l| ==> compare(l[i]) > 0
  {
    var s := l + [n] + r;
    assert s[|l|] == n;
    assert forall i :: 0 <= i < |l| ==> s[i] == l[i];
    assert forall i {:trigger r[i]} :: 0 <= i < |r| ==> s[|l| + 1 + i] == r[i];
  }
}
