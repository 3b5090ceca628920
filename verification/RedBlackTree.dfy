/** The red-black tree on the heap: nodes with parent links that are rewritten in place.
    Models kernel/adt/rbtree.c and kernel/adt/rbtree.h. */
module RedBlackTree {
  import opened Basics
  import opened RedBlackShape

  /** The nodes of `t` carry the links and colours of `t`, below `parent`. */
  ghost predicate Hung(t: Shape, parent: Node?)
    reads Nodes(t)
  {
    t.Fork? ==>
      && t.node.parent == parent && t.node.color == t.color
      && t.node.left == Root(t.left) && t.node.right == Root(t.right)
      && Hung(t.left, t.node) && Hung(t.right, t.node)
  }

  /** The nodes of `z` carry its links and colours, with `hole` at the lower end
      and `root` as the root of the tree. */
  ghost predicate HungPath(z: Path, hole: Node?, root: Node?)
    reads PathNodes(z)
  {
    match z
    case Top => root == hole
    case Via(left, n, c, sib, up) =>
      && n.parent == Up(up) && n.color == c
      && n.left == (if left then hole else Root(sib))
      && n.right == (if left then Root(sib) else hole)
      && Hung(sib, n) && HungPath(up, n, root)
  }

  class Tree {
    var root: Node?
    ghost var shape: Shape
    /** The nodes in the tree. */
    ghost var Repr: set<Node>
    /** Counts the rotations ever made in this tree. */
    ghost var rotations: nat

    /** The heap holds exactly the tree made of `t` at the end of `z`. */
    ghost predicate Linked(z: Path, t: Shape)
      reads this, Repr
    {
      && Nodes(t) <= Repr && PathNodes(z) <= Repr
      && Hung(t, Up(z)) && HungPath(z, Root(t), root)
      && Distinct(t) && PathDistinct(z) && Nodes(t) !! PathNodes(z)
    }

    ghost predicate Valid()
      reads this, Repr
    {
      Linked(Top, shape) && Nodes(shape) == Repr && RedBlack(shape)
    }

    ghost function Contents(): seq<Node>
      reads this`shape
    {
      InOrder(shape)
    }

    constructor ()
      ensures Valid() && Contents() == []
    {
      root, shape, Repr, rotations := null, Leaf, {}, 0;
    }

    /** A tree can be looked at from any of its subtrees. */
    lemma {:induction false} Focus(z: Path, t: Shape)
      ensures Linked(Top, Plug(z, t)) <==> Linked(z, t)
    {
      if z.Via? {
        PlugNodes(z, t);
        Focus(z.up, Join(z.left, t, z.node, z.color, z.sib));
      }
    }

    lemma Refocus(z: Path, t: Shape, z': Path, t': Shape)
      requires Linked(z, t) && Plug(z, t) == Plug(z', t')
      ensures Linked(z', t')
    {
      Focus(z, t);
      Focus(z', t');
    }

    /** What the links around the end of a path say. */
    lemma Around(z: Path, t: Shape)
      requires Linked(z, t)
      ensures t.Fork? ==> t.node.parent == Up(z) && t.node.color == t.color
      ensures z.Top? ==> root == Root(t)
      ensures z.Via? ==>
        && z.node in Repr && z.node.parent == Up(z.up) && z.node.color == z.color
        && z.node.left == (if z.left then Root(t) else Root(z.sib))
        && z.node.right == (if z.left then Root(z.sib) else Root(t))
        && z.node !in Nodes(t) && z.node !in Nodes(z.sib) && Nodes(t) !! Nodes(z.sib)
        && (z.sib.Fork? ==> z.sib.node in Repr && z.sib.node.color == z.sib.color)
      ensures t.Fork? ==> t.node in Repr
    {
    }

    /** Only the subtree at the end of the empty path is the whole tree. */
    lemma RootAbove(z: Path, t: Shape)
      requires Linked(z, t)
      ensures root == Root(t) <==> z.Top?
    {
      if z.Via? {
        RootOnPath(z, Root(t), root);
      }
    }

    lemma AroundSibling(z: Path, t: Shape)
      requires Linked(z, t) && z.Via? && z.sib.Fork?
      ensures z.sib.node in Repr && z.sib.node.color == z.sib.color
      ensures z.sib.node.left == Root(z.sib.left) && z.sib.node.right == Root(z.sib.right)
      ensures z.sib.left.Fork? ==> z.sib.left.node in Repr && z.sib.left.node.color == z.sib.left.color
      ensures z.sib.right.Fork? ==> z.sib.right.node in Repr && z.sib.right.node.color == z.sib.right.color
    {
      assert Hung(z.sib, z.node);
      assert Hung(z.sib.left, z.sib.node) && Hung(z.sib.right, z.sib.node);
    }

    lemma AroundParent(z: Path, t: Shape)
      requires Linked(z, t) && z.Via? && z.up.Via?
      ensures z.up.node in Repr && z.up.node.left == (if z.up.left then z.node else Root(z.up.sib))
      ensures z.up.node.right == (if z.up.left then Root(z.up.sib) else z.node)
      ensures z.up.sib.Fork? ==>
        z.up.sib.node in Repr && z.up.sib.node.color == z.up.sib.color && z.up.sib.node != z.node
    {
      Refocus(z, t, z.up, Join(z.left, t, z.node, z.color, z.sib));
      Around(z.up, Join(z.left, t, z.node, z.color, z.sib));
    }

    // -------------------------------------------------------------- links

    /** Sets the colour of one node of the tree. */
    method SetColor(n: Node, c: Color, ghost z: Path, ghost t: Shape)
      requires Linked(z, t) && t.Fork? && t.node == n
      modifies n`color
      ensures Linked(z, Paint(t, c))
    {
      assert Hung(t.left, n) && Hung(t.right, n);
      n.color := c;
    }

    /** `__rbtree_move_parent`: `new_` takes the place of `old_` below its parent. */
    method MoveParent(old_: Node, new_: Node?, ghost z: Path) returns (parent: Node?)
      requires old_.parent == Up(z) && HungPath(z, old_, root) && PathDistinct(z)
      requires old_ !in PathNodes(z) && new_ !in PathNodes(z)
      modifies this`root, if new_ == null then {} else {new_}, if z.Top? then {} else {z.node}
      ensures parent == Up(z) && HungPath(z, new_, root)
      ensures new_ != null ==>
        new_.parent == parent && unchanged(new_`left) && unchanged(new_`right) && unchanged(new_`color)
      ensures z.Via? ==> root == old(root)
    {
      parent := old_.parent;
      if new_ != null {
        new_.parent := parent;
      }
      if parent != null {
        if old_ == parent.left {
          parent.left := new_;
        } else {
          parent.right := new_;
        }
      } else {
        root := new_;
      }
    }

    method RotateLeft(pivot: Node, ghost z: Path, ghost t: Shape)
      requires Linked(z, t) && t.Fork? && t.node == pivot && t.right.Fork?
      modifies this`root, this`rotations, Repr
      ensures Linked(z, Rotated(t, true)) && rotations == old(rotations) + 1
      ensures
        var r := t.right;
        Linked(z, Fork(Fork(t.left, pivot, t.color, r.left), r.node, r.color, r.right))
    {
      hide Distinct, PathDistinct, Nodes, PathNodes, HungPath;
      ghost var low, c := t.(right := t.right.left), t.right.right;
      RotatedParts(t, true);
      Around(z, t);
      var child := TurnLeft(pivot, t);
      var _ := MoveParent(pivot, child, z);
      assert Hung(c, child);
      Adopt(pivot, child, low, Up(z));
      rotations := rotations + 1;
    }

    method RotateRight(pivot: Node, ghost z: Path, ghost t: Shape)
      requires Linked(z, t) && t.Fork? && t.node == pivot && t.left.Fork?
      modifies this`root, this`rotations, Repr
      ensures Linked(z, Rotated(t, false)) && rotations == old(rotations) + 1
      ensures
        var l := t.left;
        Linked(z, Fork(l.left, l.node, l.color, Fork(l.right, pivot, t.color, t.right)))
    {
      hide Distinct, PathDistinct, Nodes, PathNodes, HungPath;
      ghost var low, c := t.(left := t.left.right), t.left.left;
      RotatedParts(t, false);
      Around(z, t);
      var child := TurnRight(pivot, t);
      var _ := MoveParent(pivot, child, z);
      assert Hung(c, child);
      Adopt(pivot, child, low, Up(z));
      rotations := rotations + 1;
    }

    method Rotate(pivot: Node, left: bool, ghost z: Path, ghost t: Shape)
      requires Linked(z, t) && t.Fork? && t.node == pivot && (if left then t.right else t.left).Fork?
      modifies this`root, this`rotations, Repr
      ensures Linked(z, Rotated(t, left)) && rotations == old(rotations) + 1
    {
      if left {
        RotateLeft(pivot, z, t);
      } else {
        RotateRight(pivot, z, t);
      }
    }

    // -------------------------------------------------------------- insertion

    method RebalanceInsert(node0: Node, ghost z0: Path, ghost t0: Shape) returns (ghost s: Shape, ghost rounds: nat)
      requires Linked(z0, t0) && InsertGap(z0, t0) && t0.node == node0
      modifies this`root, this`rotations, Repr
      ensures Linked(Top, s) && RedBlack(s) && InOrder(s) == InOrder(Plug(z0, t0))
      ensures rotations <= old(rotations) + 2 && rounds <= Depth(z0)
    {
      hide Tree.Linked, InsertGap, InOrder, Plug, RedBlack;
      var node := node0;
      ghost var z, t := z0, t0;
      rounds := 0;
      AroundGap(z, t);
      while node.parent != null && node.parent.color.Red?
        invariant Linked(z, t) && InsertGap(z, t) && t.Fork? && t.node == node && node.parent == Up(z)
        invariant z.Via? ==> z.node.color == z.color
        invariant InOrder(Plug(z, t)) == InOrder(Plug(z0, t0))
        invariant rounds + Depth(z) <= Depth(z0)
        invariant rotations <= old(rotations) + if z.Via? && z.color.Red? then 0 else 2
        decreases Depth(z)
      {
        node, z, t := InsertRound(node, z, t);
        rounds := rounds + 1;
        AroundGap(z, t);
      }
      s := BlackenRoot(z, t);
    }

    lemma AroundGap(z: Path, t: Shape)
      requires Linked(z, t) && InsertGap(z, t)
      ensures t.Fork? && t.node.parent == Up(z) && (z.Via? ==> z.node.color == z.color)
    {
      Around(z, t);
    }

    /** One round of the loop: the parent of the new red node is red. */
    method InsertRound(node0: Node, ghost z0: Path, ghost t0: Shape) returns (node: Node, ghost z: Path, ghost t: Shape)
      requires Linked(z0, t0) && InsertGap(z0, t0) && t0.node == node0 && z0.Via? && z0.color.Red?
      modifies this`root, this`rotations, Repr
      ensures Linked(z, t) && InsertGap(z, t) && t.node == node && InOrder(Plug(z, t)) == InOrder(Plug(z0, t0))
      ensures Depth(z) < Depth(z0)
      ensures rotations <= old(rotations) + if z.Via? && z.color.Red? then 0 else 2
    {
      hide Tree.Linked, Accepts, Sound, InOrder, Plug, Nodes, PathNodes, Raised, RaisedPath, RedBlack;
      node, z, t := node0, z0, t0;
      Around(z, t);
      RedParent(z, t);
      InsertStepInOrder(z, t);
      AroundParent(z, t);
      var parent := node.parent;
      var gparent := parent.parent;
      var uncle := if gparent.left == parent then gparent.right else gparent.left;
      if uncle != null && uncle.color.Red? {
        RedUncle(z, t);
        PaintThree(uncle, parent, gparent, z, t);
        node := gparent;
        z, t := z.up.up, Recolored(z, t);
      } else {
        BlackUncle(z, t);
        node := RotateTwice(node, parent, gparent, z, t);
        z, t := RaisedPath(z, t), Child(Raised(z, t), z.up.left);
      }
    }

    /** The last statement of the rebalancing. */
    method BlackenRoot(ghost z: Path, ghost t: Shape) returns (ghost s: Shape)
      requires Linked(z, t) && InsertGap(z, t) && (z.Top? || z.color.Black?)
      modifies Repr
      ensures Linked(Top, s) && RedBlack(s) && InOrder(s) == InOrder(Plug(z, t))
    {
      InsertDone(z, t);
      s := Plug(z, t);
      Refocus(z, t, Top, s);
      SetColor(root, Black, Top, s);
      s := Paint(s, Black);
    }

    /** Black uncle: one or two rotations, after which `node` is on the outer side. */
    method RotateTwice(node0: Node, parent0: Node, gparent: Node, ghost z: Path, ghost t: Shape) returns (node: Node)
      requires Linked(z, t) && InsertGap(z, t) && z.Via? && z.color.Red? && z.up.Via?
      requires node0 == t.node && parent0 == z.node && gparent == z.up.node && ColorOf(z.up.sib).Black?
      modifies this`root, this`rotations, Repr
      ensures
        var r, pl := Raised(z, t), z.up.left;
        && Child(r, pl).Fork? && node == Child(r, pl).node
        && Linked(RaisedPath(z, t), Child(r, pl))
      ensures rotations <= old(rotations) + 2
    {
      hide Tree.Linked, Accepts, Sound;
      ghost var pl, up := z.up.left, z.up.up;
      ghost var p := Join(z.left, t, z.node, z.color, z.sib);
      Refocus(z, t, z.up, p);
      Around(z, t);
      Around(z.up, p);
      var parent := parent0;
      node := node0;
      var nleft := parent.left == node;
      var pleft := gparent.left == parent;
      if nleft != pleft {
        Rotate(parent, pleft, z.up, p);
        node := parent;
        ghost var q := Rotated(p, pl);
        ghost var down := Via(pl, q.node, q.color, Child(q, !pl), z.up);
        Refocus(z.up, q, down, Child(q, pl));
        Around(down, Child(q, pl));
        parent := node.parent;
      }
      ghost var g := Join(pl, Outward(z, t), gparent, z.up.color, z.up.sib);
      Refocus(z.up, Outward(z, t), up, g);
      Rotate(gparent, !pleft, up, g);
      ghost var r := Raised(z, t);
      Refocus(up, r, Via(!pl, r.node, r.color, Child(r, pl), up), Child(r, !pl));
      SetColor(gparent, Red, Via(!pl, r.node, r.color, Child(r, pl), up), Child(r, !pl));
      ghost var r' := Join(!pl, Paint(Child(r, !pl), Red), r.node, r.color, Child(r, pl));
      Refocus(Via(!pl, r.node, r.color, Child(r, pl), up), Paint(Child(r, !pl), Red), up, r');
      SetColor(parent, Black, up, r');
      Refocus(up, Paint(r', Black), Via(pl, r.node, Black, Paint(Child(r, !pl), Red), up), Child(r, pl));
    }

    /** Red uncle: only colours change. */
    method PaintThree(uncle: Node, parent: Node, gparent: Node, ghost z: Path, ghost t: Shape)
      requires Linked(z, t) && z.Via? && z.up.Via? && z.up.sib.Fork?
      requires uncle == z.up.sib.node && parent == z.node && gparent == z.up.node
      modifies uncle`color, parent`color, gparent`color
      ensures Linked(z.up.up, Recolored(z, t))
    {
      ghost var pl, up := z.up.left, z.up.up;
      ghost var p := Join(z.left, t, z.node, z.color, z.sib);
      Refocus(z, t, Via(!pl, gparent, z.up.color, p, up), z.up.sib);
      SetColor(uncle, Black, Via(!pl, gparent, z.up.color, p, up), z.up.sib);
      Refocus(Via(!pl, gparent, z.up.color, p, up), Paint(z.up.sib, Black), z.up.(sib := Paint(z.up.sib, Black)), p);
      SetColor(parent, Black, z.up.(sib := Paint(z.up.sib, Black)), p);
      ghost var g := Join(pl, Paint(p, Black), gparent, z.up.color, Paint(z.up.sib, Black));
      Refocus(z.up.(sib := Paint(z.up.sib, Black)), Paint(p, Black), up, g);
      SetColor(gparent, Red, up, g);
    }

    /** The empty child link of `parent` on the given side, as the end of a path. */
    lemma Slot(parent: Node?, left: bool) returns (z: Path)
      requires Valid()
      requires parent == null ==> root == null
      requires parent != null ==> parent in Repr && (if left then parent.left else parent.right) == null
      ensures Linked(z, Leaf) && Plug(z, Leaf) == shape && Up(z) == parent && (z.Via? ==> z.left == left)
      ensures Accepts(z, 0, Black) && Nodes(shape) == Repr && Distinct(shape)
    {
      if parent == null {
        z := Top;
      } else {
        var z', u := Locate(Top, shape, parent);
        Focus(z', u);
        z := Via(left, parent, u.color, Child(u, !left), z');
        assert Child(u, left).Leaf? by {
          assert Linked(z', u);
        }
        Refocus(z', u, z, Leaf);
      }
      AcceptsIff(z, Leaf);
    }

    /** Records the shape that the tree has now. */
    ghost method Settle(s: Shape)
      requires Linked(Top, s) && RedBlack(s)
      modifies this`shape, this`Repr
      ensures Valid() && shape == s && Repr == Nodes(s)
    {
      shape, Repr := s, Nodes(s);
    }

    /** `__rbtree_insert`: the new node goes to an empty child link, or becomes the root. */
    method Insert(node: Node, parent: Node?, left: bool) returns (ghost rounds: nat)
      requires Valid() && node !in Repr
      requires parent == null ==> root == null
      requires parent != null ==> parent in Repr && (if left then parent.left else parent.right) == null
      modifies this, Repr, node
      ensures Valid() && Repr == old(Repr) + {node}
      ensures Beside(old(Contents()), Contents(), node, parent, parent != null && left)
      ensures rounds <= Height(old(shape)) && rotations <= old(rotations) + 2
    {
      hide Tree.Linked, Accepts, InOrder, Plug, Nodes, PathNodes, Distinct, Beside, RedBlack;
      ghost var z := Slot(parent, left);
      ghost var t := Fork(Leaf, node, Red, Leaf);
      SlotOrder(z, node);
      PlugHeight(z, Leaf);
      PlugNodes(z, t);
      PlugNodes(z, Leaf);
      NewLeaf(z, node);
      LinkNode(node, parent, left, z);
      ghost var s;
      s, rounds := RebalanceInsert(node, z, t);
      SameNodes(s, Plug(z, t));
      Settle(s);
    }

    /** The new node is linked as a red leaf. */
    method LinkNode(node: Node, parent: Node?, left: bool, ghost z: Path)
      requires Linked(z, Leaf) && node !in Repr && Up(z) == parent && (z.Via? ==> z.left == left)
      modifies this`root, this`Repr, node, Repr
      ensures Repr == old(Repr) + {node} && Linked(z, Fork(Leaf, node, Red, Leaf))
    {
      node.color := Red;
      node.left := null;
      node.right := null;
      node.parent := parent;
      if parent == null {
        root := node;
      } else if left {
        parent.left := node;
      } else {
        parent.right := node;
      }
      Repr := Repr + {node};
    }

    // -------------------------------------------------------------- deletion

    method RebalanceDelete(parent0: Node?, node0: Node?, ghost z0: Path, ghost t0: Shape)
      returns (ghost s: Shape, ghost rounds: nat)
      requires Linked(z0, t0) && DeleteGap(z0, t0) && parent0 == Up(z0) && node0 == Root(t0)
      modifies this`root, this`rotations, Repr
      ensures Linked(Top, s) && RedBlack(s) && InOrder(s) == InOrder(Plug(z0, t0))
      ensures rotations <= old(rotations) + 3 && rounds <= Depth(z0)
    {
      hide Tree.Linked, Accepts, Sound, InOrder, Nodes, PathNodes, RedBlack, BlackHeight;
      var node, parent, done := node0, parent0, false;
      ghost var z, t := z0, t0;
      rounds := 0;
      Around(z, t);
      RootAbove(z, t);
      while !done && (node == null || node.color.Black?) && node != root
        invariant Linked(z, t) && node == Root(t) && (root == node <==> z.Top?)
        invariant node != null ==> node in Repr && node.color == t.color
        invariant InOrder(Plug(z, t)) == InOrder(Plug(z0, t0))
        invariant if done then z.Top? && RedBlack(t) else DeleteGap(z, t) && parent == Up(z)
        invariant rounds <= Depth(z0) && rotations <= old(rotations) + if done then 3 else 1
        invariant !done && ColorOf(t).Black? ==> rounds + Depth(z) <= Depth(z0) && rotations == old(rotations)
        decreases !done, ColorOf(t).Black?, Depth(z)
      {
        node, parent, done, z, t := DeleteRound(parent, node, z, t);
        rounds := rounds + 1;
        RootAbove(z, t);
      }
      if done {
        WholeTree(t);
      } else {
        DeleteDone(z, t);
      }
      if node != null {
        SetColor(node, Black, z, t);
      }
      s := Plug(z, Paint(t, Black));
      Focus(z, Paint(t, Black));
    }

    /** One round of the loop: a recolouring that moves the gap up to the parent, or,
        when it is `done`, the one or two rotations that close it. */
    method DeleteRound(parent0: Node, node0: Node?, ghost z0: Path, ghost t0: Shape)
      returns (node: Node?, parent: Node?, done: bool, ghost z: Path, ghost t: Shape)
      requires Linked(z0, t0) && DeleteGap(z0, t0) && z0.Via? && ColorOf(t0).Black?
      requires parent0 == z0.node && node0 == Root(t0)
      modifies this`root, this`rotations, Repr
      ensures Linked(z, t) && node == Root(t) && InOrder(Plug(z, t)) == InOrder(Plug(z0, t0))
      ensures node != null ==> node in Repr && node.color == t.color
      ensures if done then z.Top? && RedBlack(t) && rotations <= old(rotations) + 3 else
        && DeleteGap(z, t) && parent == Up(z) && rotations <= old(rotations) + 1
        && (ColorOf(t).Black? ==> z == z0.up && rotations == old(rotations))
    {
      hide Tree.Linked, Accepts, Sound, InOrder, Plug, Nodes, PathNodes, RedBlack, Straight, Closed, BlackHeight;
      node, parent, z, t, done := node0, parent0, z0, t0, false;
      var sibling, nleft := FindSibling(parent0, node, z, t);
      if sibling.color.Red? {
        RedSiblingKeeps(z, t);
        RedSiblingInOrder(z, t);
        sibling := RotateSibling(parent0, sibling, nleft, z, t);
        z := RedSibling(z);
      }
      AroundSibling(z, t);
      if (sibling.left == null || sibling.left.color.Black?) && (sibling.right == null || sibling.right.color.Black?) {
        LoweredKeeps(z, t);
        LoweredInOrder(z, t);
        RedSiblingColor(sibling, z, t);
        t := Lowered(z, t);
        z := z.up;
        Around(z, t);
        node := parent;
        parent := parent.parent;
      } else {
        ClosedIsRedBlack(z, t);
        ClosedInOrder(z, t);
        CloseGap(parent0, sibling, nleft, z, t);
        Focus(z.up, Closed(z, t));
        t := Plug(z.up, Closed(z, t));
        z := Top;
        WholeTree(t);
        Around(z, t);
        node := root;
        done := true;
      }
    }

    lemma WholeTree(t: Shape)
      ensures Plug(Top, t) == t
      ensures RedBlack(t) ==> Paint(t, Black) == t
    {
    }

    method FindSibling(parent: Node, node: Node?, ghost z: Path, ghost t: Shape) returns (sibling: Node, nleft: bool)
      requires Linked(z, t) && DeleteGap(z, t) && z.Via? && ColorOf(t).Black?
      requires parent == z.node && node == Root(t)
      ensures z.sib.Fork? && sibling == z.sib.node && nleft == z.left
      ensures sibling in Repr && sibling.color == z.sib.color
      ensures z.sib.color.Red? ==>
        z.color.Black? && z.sib.left.Fork? && z.sib.left.color.Black? && z.sib.right.Fork? && z.sib.right.color.Black?
    {
      SiblingExists(z, t);
      hide Tree.Linked, Accepts, Sound;
      Around(z, t);
      if node == parent.left {
        sibling := parent.right;
        nleft := true;
      } else {
        sibling := parent.left;
        nleft := false;
      }
    }

    method RedSiblingColor(sibling: Node, ghost z: Path, ghost t: Shape)
      requires Linked(z, t) && z.Via? && z.sib.Fork? && sibling == z.sib.node
      modifies sibling`color
      ensures Linked(z.up, Lowered(z, t))
    {
      hide Tree.Linked;
      ghost var side := z.(left := !z.left, sib := t);
      Refocus(z, t, side, z.sib);
      SetColor(sibling, Red, side, z.sib);
      Refocus(side, Paint(z.sib, Red), z.up, Lowered(z, t));
    }

    /** Red sibling: rotate around the parent and exchange the colours. */
    method RotateSibling(parent: Node, sibling: Node, nleft: bool, ghost z: Path, ghost t: Shape)
      returns (sibling': Node)
      requires Linked(z, t) && z.Via? && z.sib.Fork? && Child(z.sib, z.left).Fork?
      requires parent == z.node && sibling == z.sib.node && nleft == z.left
      modifies this`root, this`rotations, Repr
      ensures Linked(RedSibling(z), t) && sibling' == Child(z.sib, z.left).node
      ensures rotations == old(rotations) + 1
    {
      hide Tree.Linked;
      ghost var p := Join(nleft, t, parent, z.color, z.sib);
      Around(z, t);
      AroundSibling(z, t);
      Refocus(z, t, z.up, p);
      Rotate(parent, nleft, z.up, p);
      ghost var far := Child(z.sib, !nleft);
      ghost var low := Join(nleft, t, parent, z.color, Child(z.sib, nleft));
      ghost var side := Via(nleft, sibling, z.sib.color, far, z.up);
      Refocus(z.up, Rotated(p, nleft), side, low);
      SetColor(parent, Red, side, low);
      Refocus(side, Paint(low, Red), z.up, Join(nleft, Paint(low, Red), sibling, z.sib.color, far));
      SetColor(sibling, Black, z.up, Join(nleft, Paint(low, Red), sibling, z.sib.color, far));
      Refocus(z.up, Join(nleft, Paint(low, Red), sibling, Black, far), RedSibling(z), t);
      Around(RedSibling(z), t);
      sibling' := if nleft then parent.right else parent.left;
    }

    /** Black sibling with a red child: one or two rotations end the rebalancing. */
    method CloseGap(parent: Node, sibling0: Node, nleft: bool, ghost z: Path, ghost t: Shape)
      requires Linked(z, t) && z.Via? && z.sib.Fork? && z.sib.color.Black? && !BlackNephews(z.sib)
      requires parent == z.node && sibling0 == z.sib.node && nleft == z.left
      modifies this`root, this`rotations, Repr
      ensures Linked(z.up, Closed(z, t)) && rotations <= old(rotations) + 2
    {
      hide Tree.Linked;
      ghost var side := Via(!nleft, parent, z.color, t, z.up);
      Refocus(z, t, side, z.sib);
      AroundSibling(z, t);
      var sibling := sibling0;
      var inner := if nleft then sibling.right else sibling.left;
      if inner == null || inner.color.Black? {
        var outer := if nleft then sibling.left else sibling.right;
        assert outer.color.Red?;
        ghost var near, far := Child(z.sib, nleft), Child(z.sib, !nleft);
        Rotate(sibling, !nleft, side, z.sib);
        ghost var low := Join(nleft, Child(near, !nleft), sibling, Black, far);
        SetColor(outer, Black, side, Join(nleft, Child(near, nleft), outer, Red, low));
        ghost var lower := Via(!nleft, outer, Black, Child(near, nleft), side);
        Refocus(side, Join(nleft, Child(near, nleft), outer, Black, low), lower, low);
        SetColor(sibling, Red, lower, low);
        Around(lower, Paint(low, Red));
        Refocus(lower, Paint(low, Red), side, Straight(z));
        inner := sibling;
        sibling := outer;
      }
      ghost var s := Straight(z);
      ghost var p := Join(nleft, t, parent, z.color, s);
      assert inner != null && inner.color.Red?;
      Refocus(side, s, z.up, p);
      Rotate(parent, nleft, z.up, p);
      PaintClosed(parent, sibling, inner, nleft, z, t);
    }

    /** The colours after the last rotation. */
    method PaintClosed(parent: Node, sibling: Node, inner: Node, nleft: bool, ghost z: Path, ghost t: Shape)
      requires z.Via? && z.sib.Fork? && !BlackNephews(z.sib)
      requires parent == z.node && nleft == z.left && sibling == Straight(z).node
      requires inner == Root(Child(Straight(z), !nleft))
      requires Linked(z.up, Rotated(Join(nleft, t, parent, z.color, Straight(z)), nleft))
      modifies Repr
      ensures Linked(z.up, Closed(z, t))
    {
      hide Tree.Linked;
      ghost var s := Straight(z);
      ghost var far := Child(s, !nleft);
      ghost var low := Join(nleft, t, parent, z.color, Child(s, nleft));
      ghost var r0 := Rotated(Join(nleft, t, parent, z.color, s), nleft);
      Refocus(z.up, r0, Via(nleft, sibling, s.color, far, z.up), low);
      Around(Via(nleft, sibling, s.color, far, z.up), low);
      Refocus(Via(nleft, sibling, s.color, far, z.up), low, z.up, r0);
      SetColor(sibling, parent.color, z.up, r0);
      Refocus(z.up, Paint(r0, z.color), Via(nleft, sibling, z.color, far, z.up), low);
      SetColor(parent, Black, Via(nleft, sibling, z.color, far, z.up), low);
      ghost var side := Via(!nleft, sibling, z.color, Paint(low, Black), z.up);
      Refocus(Via(nleft, sibling, z.color, far, z.up), Paint(low, Black), side, far);
      SetColor(inner, Black, side, far);
      Refocus(side, Paint(far, Black), z.up, Closed(z, t));
    }

    /** `__rbtree_move_children`; without a new node the children are orphaned. */
    method MoveChildren(old_: Node, new_: Node?, ghost t: Shape, ghost parent: Node?)
      requires t.Fork? && t.node == old_ && Distinct(t) && Hung(t, parent)
      requires new_ !in Nodes(t) && Nodes(t) <= Repr
      modifies if new_ == null then {} else {new_}, Nodes(t)
      ensures new_ != null ==>
        && new_.left == Root(t.left) && new_.right == Root(t.right)
        && new_.color == old(new_.color) && new_.parent == old(new_.parent)
      ensures Hung(t.left, new_) && Hung(t.right, new_)
      ensures old_.parent == old(old_.parent)
    {
      assert Hung(t.left, old_) && Hung(t.right, old_);
      if new_ != null {
        new_.left := old_.left;
        new_.right := old_.right;
      }
      if old_.left != null {
        Adopt(old_.left, new_, t.left, old_);
      }
      if old_.right != null {
        Adopt(old_.right, new_, t.right, old_);
      }
    }

    /** `__rbtree_replace`: the new node, from anywhere but this part of the tree, takes the
        place; without one the old node leaves the tree and its subtrees are on their own. */
    method Replace(old_: Node, new_: Node?, ghost z: Path, ghost t: Shape)
      requires Linked(z, t) && t.Fork? && t.node == old_
      requires new_ !in Nodes(t) && new_ !in PathNodes(z)
      modifies this`root, this`Repr, Repr, if new_ == null then {} else {new_}
      ensures new_ != null ==> Linked(z, t.(node := new_)) && Repr == old(Repr) + {new_}
      ensures new_ == null ==> Linked(z, Leaf) && Hung(t.left, null) && Hung(t.right, null) && Repr == old(Repr)
    {
      if new_ != null {
        TakePlace(old_, new_, z, t);
      } else {
        MoveChildren(old_, null, t, Up(z));
        var _ := MoveParent(old_, null, z);
      }
    }

    /** The replacing with a valid node. */
    method TakePlace(old_: Node, new_: Node, ghost z: Path, ghost t: Shape)
      requires Linked(z, t) && t.Fork? && t.node == old_
      requires new_ !in Nodes(t) && new_ !in PathNodes(z)
      modifies this`root, this`Repr, Repr, new_
      ensures Linked(z, t.(node := new_)) && Repr == old(Repr) + {new_}
    {
      new_.color := old_.color;
      MoveChildren(old_, new_, t, Up(z));
      var _ := MoveParent(old_, new_, z);
      Repr := Repr + {new_};
    }

    /** A node with at most one child, `child`, leaves the tree. */
    method Unlink(node: Node, child: Node?, ghost z: Path, ghost t: Shape) returns (parent: Node?)
      requires Linked(z, t) && t.Fork? && t.node == node && (t.left.Leaf? || t.right.Leaf?)
      requires child == Root(OnlyChild(t))
      modifies this`root, Repr
      ensures Linked(z, OnlyChild(t)) && parent == Up(z) && node.color == t.color
    {
      ghost var c := OnlyChild(t);
      assert Hung(c, node) && Distinct(c);
      assert c.Fork? ==> Hung(c.left, c.node) && Hung(c.right, c.node);
      parent := MoveParent(node, child, z);
    }

    /** A node with two children gives its place to the first node of its right subtree.
        `zz` and `c` are what is left where that node has been. */
    method Substitute(node: Node, ghost z: Path, ghost t: Shape)
      returns (color: Color, parent: Node?, child: Node?, ghost zz: Path, ghost c: Shape)
      requires Linked(z, t) && RedBlack(Plug(z, t)) && t.Fork? && t.node == node && t.left.Fork? && t.right.Fork?
      modifies this`root, this`Repr, Repr
      ensures Repr == old(Repr) && Linked(zz, c) && parent == Up(zz) && child == Root(c)
      ensures Without(InOrder(Plug(z, t)), InOrder(Plug(zz, c)), node) && Depth(zz) <= Height(Plug(z, t))
      ensures if color.Black? then DeleteGap(zz, c) else RedBlack(Plug(zz, c))
    {
      hide Distinct, PathDistinct, Nodes, PathNodes, Plug, Extend, RedBlack, DeleteGap, InOrder;
      hide Without, Sound, HungPath;
      ghost var inner, u;
      var subst;
      assert Hung(t.right, node);
      subst, inner, u := First(node.right, t.right, node);
      Substituted(z, t, inner, u);
      SubstituteApart(z, t, inner, u);
      SubstitutedOrder(z, t, inner, u);
      ghost var side := Via(false, node, t.color, t.left, z);
      ghost var r := Plug(inner, u.right);
      PlugSide(z, t, inner, u);
      PlugSide(z, t.(right := r), inner, u.right);
      PlugSide(z, t.(node := subst, right := r), inner, u.right);
      hide Tree.Linked;
      Refocus(z, t, Extend(inner, side), u);
      Around(Extend(inner, side), u);
      child := subst.right;
      ExtendNodes(inner, side);
      ExtendNodes(inner, side.(node := subst));
      parent := Unlink(subst, child, Extend(inner, side), u);
      color := subst.color;
      Refocus(Extend(inner, side), u.right, z, t.(right := r));
      Replace(node, subst, z, t.(right := r));
      if parent == node {
        parent := subst;
      }
      zz, c := Extend(inner, side.(node := subst)), u.right;
      Refocus(z, t.(node := subst, right := r), zz, c);
    }

    lemma FocusOn(node: Node) returns (z: Path, t: Shape)
      requires Valid() && node in Repr
      ensures Linked(z, t) && Plug(z, t) == shape && Distinct(shape) && RedBlack(shape)
      ensures t.Fork? && t.node == node && Depth(z) <= Height(shape)
      ensures node.left == Root(t.left) && node.right == Root(t.right)
    {
      z, t := Locate(Top, shape, node);
      Refocus(Top, shape, z, t);
      PlugHeight(z, t);
    }

    /** `__rbtree_delete` */
    method Delete(node: Node) returns (ghost rounds: nat)
      requires Valid() && node in Repr
      modifies this, Repr
      ensures Valid() && Repr == old(Repr) - {node} && Without(old(Contents()), Contents(), node)
      ensures rounds <= Height(old(shape)) && rotations <= old(rotations) + 3
    {
      hide Tree.Linked, Sound, RedBlack, DeleteGap, InOrder, Without, Plug, Nodes, Distinct, Accepts;
      ghost var z, t := FocusOn(node);
      var child, parent: Node?;
      var color: Color;
      ghost var zz, c;
      if node.left == null || node.right == null {
        child := if node.left != null then node.left else node.right;
        Spliced(z, t);
        SplicedOrder(z, t);
        parent := Unlink(node, child, z, t);
        color := node.color;
        zz, c := z, OnlyChild(t);
      } else {
        color, parent, child, zz, c := Substitute(node, z, t);
      }
      ghost var s;
      if color.Black? {
        s, rounds := RebalanceDelete(parent, child, zz, c);
      } else {
        s, rounds := Plug(zz, c), 0;
        Focus(zz, c);
      }
      WithoutNodes(shape, s, node);
      Settle(s);
    }

    // -------------------------------------------------------------- walking

    /** `__rbtree_next` */
    method Next(node0: Node) returns (next: Node?)
      requires Valid() && node0 in Repr
      ensures Follows(Contents(), node0, next)
    {
      ghost var z, t := FocusOn(node0);
      Around(z, t);
      if node0.right != null {
        ghost var inner, u;
        BesideSubtrees(z, t);
        next, inner, u := First(node0.right, t.right, node0);
        return;
      }
      var node := node0;
      while node.parent != null && node == node.parent.right
        invariant Linked(z, t) && Plug(z, t) == shape && t.Fork? && t.node == node
        invariant InOrder(t) != [] && InOrder(t)[|InOrder(t)| - 1] == node0
        decreases Depth(z)
      {
        Around(z, t);
        node := node.parent;
        t := Join(z.left, t, z.node, z.color, z.sib);
        Refocus(z, t.right, z.up, t);
        z := z.up;
      }
      Around(z, t);
      AfterLast(z, t);
      next := node.parent;
    }

    /** `__rbtree_prev` */
    method Prev(node0: Node) returns (prev: Node?)
      requires Valid() && node0 in Repr
      ensures Precedes(Contents(), node0, prev)
    {
      ghost var z, t := FocusOn(node0);
      Around(z, t);
      if node0.left != null {
        BesideSubtrees(z, t);
        prev := Last(node0.left, t.left, node0);
        return;
      }
      var node := node0;
      while node.parent != null && node == node.parent.left
        invariant Linked(z, t) && Plug(z, t) == shape && t.Fork? && t.node == node
        invariant InOrder(t) != [] && InOrder(t)[0] == node0
        decreases Depth(z)
      {
        Around(z, t);
        node := node.parent;
        t := Join(z.left, t, z.node, z.color, z.sib);
        Refocus(z, t.left, z.up, t);
        z := z.up;
      }
      Around(z, t);
      BeforeFirst(z, t);
      prev := node.parent;
    }

    /** A walk from the first node on, with `__rbtree_next`, to null. */
    method Walk() returns (walk: seq<Node>)
      requires Valid()
      ensures walk == Contents()
    {
      hide RedBlack;
      walk := [];
      ghost var s := Contents();
      InOrderDistinct(shape);
      InOrderNodes(shape);
      var node := root;
      if root != null {
        ghost var inner, u;
        node, inner, u := First(root, shape, null);
      }
      while node != null
        invariant |walk| <= |s| && walk == s[..|walk|] && node == AtOrNull(s, |walk|)
        decreases |s| - |walk|
      {
        walk := walk + [node];
        node := Next(node);
      }
    }

    /** A walk from the last node back, with `__rbtree_prev`, to null. */
    method WalkBack() returns (walk: seq<Node>)
      requires Valid()
      ensures |walk| == |Contents()| && forall i :: 0 <= i < |walk| ==> walk[i] == Contents()[|walk| - 1 - i]
    {
      hide RedBlack;
      walk := [];
      ghost var s := Contents();
      InOrderDistinct(shape);
      InOrderNodes(shape);
      var node := root;
      if root != null {
        node := Last(root, shape, null);
      }
      while node != null
        invariant |walk| <= |s| && node == AtOrNull(s, |s| - 1 - |walk|)
        invariant forall i :: 0 <= i < |walk| ==> walk[i] == s[|s| - 1 - i]
        decreases |s| - |walk|
      {
        walk := walk + [node];
        node := Prev(node);
      }
    }
  }

  lemma {:induction false} RootOnPath(z: Path, hole: Node?, root: Node?)
    requires HungPath(z, hole, root) && z.Via?
    ensures root != null && root in PathNodes(z)
  {
    if z.up.Via? {
      RootOnPath(z.up, z.node, root);
    }
  }

  /** The first half of a left rotation: the inner subtree and the two nodes change places. */
  method TurnLeft(pivot: Node, ghost t: Shape) returns (child: Node)
    requires Distinct(t) && t.Fork? && t.node == pivot && t.right.Fork? && Hung(t, pivot.parent)
    modifies Nodes(t)
    ensures child == t.right.node && pivot.parent == old(pivot.parent)
    ensures child.color == t.right.color && child.left == pivot && child.right == Root(t.right.right)
    ensures Hung(t.(right := t.right.left), pivot.parent) && Hung(t.right.right, child)
  {
    ghost var s, b := t.right, t.right.left;
    assert Distinct(s) && Hung(s, pivot);
    assert b.Fork? ==> Distinct(b) && Hung(b, s.node) && Hung(b.left, b.node) && Hung(b.right, b.node);
    child := pivot.right;
    pivot.right := child.left;
    child.left := pivot;
    if pivot.right != null {
      pivot.right.parent := pivot;
    }
  }

  /** The first half of a right rotation: the inner subtree and the two nodes change places. */
  method TurnRight(pivot: Node, ghost t: Shape) returns (child: Node)
    requires Distinct(t) && t.Fork? && t.node == pivot && t.left.Fork? && Hung(t, pivot.parent)
    modifies Nodes(t)
    ensures child == t.left.node && pivot.parent == old(pivot.parent)
    ensures child.color == t.left.color && child.right == pivot && child.left == Root(t.left.left)
    ensures Hung(t.(left := t.left.right), pivot.parent) && Hung(t.left.left, child)
  {
    ghost var s, b := t.left, t.left.right;
    assert Distinct(s) && Hung(s, pivot);
    assert b.Fork? ==> Distinct(b) && Hung(b, s.node) && Hung(b.right, b.node) && Hung(b.left, b.node);
    child := pivot.left;
    pivot.left := child.right;
    child.right := pivot;
    if pivot.left != null {
      pivot.left.parent := pivot;
    }
  }

  /** Gives a subtree a new parent. */
  method Adopt(child: Node, parent: Node?, ghost t: Shape, ghost parent0: Node?)
    requires child == Root(t) && Distinct(t) && Hung(t, parent0)
    modifies child`parent
    ensures Hung(t, parent)
  {
    assert Hung(t.left, child) && Hung(t.right, child);
    child.parent := parent;
  }

  // -------------------------------------------------------------- walking

  /** `__rbtree_first`: the leftmost node of a subtree. */
  method First(root0: Node, ghost t: Shape, ghost parent: Node?) returns (root: Node, ghost inner: Path, ghost u: Shape)
    requires Hung(t, parent) && root0 == Root(t)
    ensures Leftmost(inner) && Plug(inner, u) == t && u.Fork? && u.node == root && u.left.Leaf?
    ensures root == InOrder(t)[0]
  {
    root := root0;
    inner, u := Top, t;
    ghost var p := parent;
    while root.left != null
      invariant Leftmost(inner) && Plug(inner, u) == t && root == Root(u) && Hung(u, p)
      decreases u
    {
      p := root;
      inner, u := Via(true, u.node, u.color, u.right, inner), u.left;
      root := root.left;
    }
    FirstOut(inner, u);
  }

  /** `__rbtree_last`: the rightmost node of a subtree. */
  method Last(root0: Node, ghost t: Shape, ghost parent: Node?) returns (root: Node)
    requires Hung(t, parent) && root0 == Root(t)
    ensures InOrder(t) != [] && root == InOrder(t)[|InOrder(t)| - 1]
  {
    root := root0;
    ghost var inner, u := Top, t;
    ghost var p := parent;
    while root.right != null
      invariant Rightmost(inner) && Plug(inner, u) == t && root == Root(u) && Hung(u, p)
      decreases u
    {
      p := root;
      inner, u := Via(false, u.node, u.color, u.left, inner), u.right;
      root := root.right;
    }
    LastOut(inner, u);
  }

  /** `rbtree_find`: `inspected` counts the nodes that are compared. */
  method Find(root0: Node?, compare: Node -> int, ghost t: Shape, ghost parent: Node?)
    returns (found: Node?, ghost inspected: nat)
    requires Hung(t, parent) && root0 == Root(t) && Searchable(InOrder(t), compare)
    ensures found != null ==> found in InOrder(t) && compare(found) == 0
    ensures found == null ==> forall n :: n in InOrder(t) ==> compare(n) != 0
    ensures inspected <= Height(t)
    ensures RedBlack(t) ==> Pow2(inspected) <= (|InOrder(t)| + 1) * (|InOrder(t)| + 1)
  {
    var root := root0;
    ghost var u, p := t, parent;
    inspected := 0;
    if RedBlack(t) {
      HeightBound(t);
    }
    while root != null
      invariant root == Root(u) && Hung(u, p) && Searchable(InOrder(u), compare)
      invariant forall n :: n in InOrder(u) ==> n in InOrder(t)
      invariant forall n :: n in InOrder(t) && compare(n) == 0 ==> n in InOrder(u)
      invariant inspected + Height(u) <= Height(t)
      decreases u
    {
      SearchSide(u, compare);
      var cmp := compare(root);
      inspected := inspected + 1;
      p := root;
      if cmp < 0 {
        root, u := root.left, u.left;
      } else if cmp > 0 {
        root, u := root.right, u.right;
      } else {
        Pow2Monotone(inspected, Height(t));
        return root, inspected;
      }
    }
    Pow2Monotone(inspected, Height(t));
    found := null;
  }
}
