/** removal_balancing of libcoll/src/rbtree.c: restoring the black height after a black node is gone. */
module RbRemoval {
  import opened RbShape
  import opened RedBlack

  /** The tree at the end of the path is one black node short of what the path needs. */
  ghost predicate Short(path: Path, t: Tree, h: nat)
  {
    RB(t, h) && IsBlack(t) && PathRB(path, Black, h + 1)
  }

  /** A sibling that removal_balancing must rotate for: red, or with a red child. */
  predicate Rich(sibling: Tree)
  {
    !IsBlack(sibling) || (sibling.Branch? && !(IsBlack(sibling.left) && IsBlack(sibling.right)))
  }

  /** The node removal_balancing rotates down, if any: the first one up the path whose other subtree can
      give, unless a red node is met first. */
  function RotatedNode(path: Path): Node?
  {
    match path
    case Top => null
    case Step(_, n, c, other, up) =>
      if Rich(other) then n else if c == Red then null else RotatedNode(up)
  }

  /** The child of the sibling on the side of the short tree, and the one on the far side. */
  function Near(path: Path): Tree
    requires path.Step? && path.other.Branch?
  {
    Outer(path.isLeft, path.other)
  }

  function Far(path: Path): Tree
    requires path.Step? && path.other.Branch?
  {
    Inner(path.isLeft, path.other)
  }

  lemma SiblingExists(path: Path, h: nat)
    requires path.Step? && PathRB(path, Black, h + 1)
    ensures path.other.Branch? && RB(path.other, h + 1)
    ensures PathRB(path.up, path.color, if path.color == Black then h + 2 else h + 1)
    ensures if path.other.color == Black then RB(Near(path), h) && RB(Far(path), h)
            else IsBlack(Near(path)) && IsBlack(Far(path)) && RB(Near(path), h + 1) && RB(Far(path), h + 1)
  {
  }

  // ---------- case 2 ----------

  /** The path after case 2: the red sibling has moved above the parent. */
  function UnderRed(path: Path): Path
    requires path.Step? && path.other.Branch?
  {
    Step(path.isLeft, path.node, Red, Near(path), Step(path.isLeft, path.other.node, Black, Far(path), path.up))
  }

  /** The tree two steps up. */
  function PlugTwo(path: Path, t: Tree): Tree
    requires path.Step? && path.up.Step?
  {
    Join(path.up.isLeft, Join(path.isLeft, t, path.node, path.color, path.other),
         path.up.node, path.up.color, path.up.other)
  }

  lemma Reassociate(a: seq<Node>, m: Node, b: seq<Node>, n: Node, d: seq<Node>)
    ensures (a + [m] + b) + [n] + d == a + [m] + (b + [n] + d)
  {
  }

  lemma UnderRedOrder(path: Path, t: Tree)
    requires path.Step? && path.other.Branch?
    ensures Inorder(PlugTwo(UnderRed(path), t)) == Inorder(Join(path.isLeft, t, path.node, path.color, path.other))
  {
    if path.isLeft {
      Reassociate(Inorder(t), path.node, Inorder(Near(path)), path.other.node, Inorder(Far(path)));
    } else {
      Reassociate(Inorder(Far(path)), path.other.node, Inorder(Near(path)), path.node, Inorder(t));
    }
  }

  lemma UnderRedFits(path: Path, t: Tree, h: nat)
    requires path.Step? && Short(path, t, h) && path.other.Branch? && path.other.color == Red
    ensures Short(UnderRed(path), t, h) && IsBlack(UnderRed(path).other)
    ensures Inorder(Plug(UnderRed(path), t)) == Inorder(Plug(path, t))
  {
    SiblingExists(path, h);
    UnderRedOrder(path, t);
    SameOrder(path.up, PlugTwo(UnderRed(path), t), Join(path.isLeft, t, path.node, path.color, path.other));
  }

  lemma UnderRedNodes(path: Path)
    requires path.Step? && path.other.Branch?
    ensures PathNodes(UnderRed(path)) == PathNodes(path)
    ensures Spine(UnderRed(path)) == Spine(path) + {path.other.node}
  {
  }

  /** The two children of a node are different nodes, found by its two pointers, and so are theirs. */
  lemma ChildPointers(tree: RbTree, path: Path, t: Tree)
    requires At(tree, path, t) && t.Branch?
    ensures t.node.left == RootNode(t.left) && t.node.right == RootNode(t.right)
    ensures t.left.Branch? ==> t.left.node != t.node.right
                               && t.left.node.left == RootNode(t.left.left)
                               && t.left.node.right == RootNode(t.left.right)
    ensures t.right.Branch? ==> t.right.node != t.node.left
                                && t.right.node.left == RootNode(t.right.left)
                                && t.right.node.right == RootNode(t.right.right)
  {
    assert Shape(t.left, t.node) && Shape(t.right, t.node);
  }

  /** Case 2: the sibling is red. */
  method RotateRedSibling(tree: RbTree, sibling: Node, parent: Node, ghost path: Path, ghost t: Tree)
      returns (near: Node?)
    requires At(tree, path, t) && path.Step? && path.other.Branch?
    requires parent == path.node && sibling == path.other.node
    modifies tree`root, PathNodes(path)`left, PathNodes(path)`right, PathNodes(path)`color
    modifies parent`parent, sibling`parent, RootSet(Near(path))`parent
    ensures At(tree, UnderRed(path), t) && near == RootNode(Near(path))
    ensures parent.parent == sibling
  {
    ghost var path1 := path.(other := path.other.(color := Black));
    PaintOther(tree, sibling, Black, path, t);
    ghost var whole := Join(path.isLeft, t, parent, path.color, path1.other);
    ToParent(tree, path1, t);
    Paint(tree, parent, Red, path.up, whole);
    whole := whole.(color := Red);
    ChildPointers(tree, path.up, whole);
    if sibling == parent.right {
      near := sibling.left;
      RotateLeft(tree, parent, path.up, whole);
      whole := RotatedLeft(whole);
      ToLeft(tree, path.up, whole);
      ToLeft(tree, UnderRed(path).up, whole.left);
    } else {
      near := sibling.right;
      RotateRight(tree, parent, path.up, whole);
      whole := RotatedRight(whole);
      ToRight(tree, path.up, whole);
      ToRight(tree, UnderRed(path).up, whole.right);
    }
  }

  // ---------- cases 3 and 4 ----------

  /** The parent's tree once the sibling is red and the parent black: balanced, at black height h + 1. */
  function Evened(path: Path, t: Tree): Tree
    requires path.Step? && path.other.Branch?
  {
    Join(path.isLeft, t, path.node, Black, path.other.(color := Red))
  }

  lemma EvenedOrder(path: Path, t: Tree)
    requires path.Step? && path.other.Branch?
    ensures Inorder(Evened(path, t)) == Inorder(Join(path.isLeft, t, path.node, path.color, path.other))
    ensures Nodes(Evened(path, t)) + PathNodes(path.up) == Nodes(t) + PathNodes(path)
  {
  }

  lemma EvenedFits(path: Path, t: Tree, h: nat)
    requires path.Step? && Short(path, t, h) && path.other.Branch? && !Rich(path.other)
    ensures RB(Evened(path, t), h + 1) && IsBlack(Evened(path, t))
    ensures PathRB(path.up, Black, if path.color == Black then h + 2 else h + 1)
    ensures Inorder(Plug(path.up, Evened(path, t))) == Inorder(Plug(path, t))
    ensures Nodes(Evened(path, t)) + PathNodes(path.up) == Nodes(t) + PathNodes(path)
  {
    SiblingExists(path, h);
    if path.color == Red {
      RedThenBlack(path.up, h + 1);
    }
    EvenedOrder(path, t);
    SameOrder(path.up, Evened(path, t), Join(path.isLeft, t, path.node, path.color, path.other));
  }

  /** The two stores of case 4; in case 3 the parent is black already. */
  method PaintEven(tree: RbTree, sibling: Node, parent: Node, ghost path: Path, ghost t: Tree)
    requires At(tree, path, t) && path.Step? && path.other.Branch?
    requires parent == path.node && sibling == path.other.node
    modifies parent`color, sibling`color
    ensures At(tree, path.up, Evened(path, t))
  {
    PaintOther(tree, sibling, Red, path, t);
    ghost var path1 := path.(other := path.other.(color := Red));
    ToParent(tree, path1, t);
    Paint(tree, parent, Black, path.up, Join(path.isLeft, t, parent, path.color, path1.other));
  }

  // ---------- case 5 ----------

  /** The sibling's tree after case 5: its red near child on top, black. */
  function Leaning(isLeft: bool, other: Tree): Tree
    requires other.Branch? && Outer(isLeft, other).Branch?
  {
    var near := Outer(isLeft, other);
    var low := Join(isLeft, Inner(isLeft, near), other.node, Red, Inner(isLeft, other));
    Join(isLeft, Outer(isLeft, near), near.node, Black, low)
  }

  lemma LeaningRB(isLeft: bool, other: Tree, h: nat)
    requires RB(other, h + 1) && other.Branch? && other.color == Black
    requires !IsBlack(Outer(isLeft, other)) && IsBlack(Inner(isLeft, other))
    ensures RB(Leaning(isLeft, other), h + 1)
  {
    assert RB(Outer(isLeft, other), h);
    assert RB(Join(isLeft, Inner(isLeft, Outer(isLeft, other)), other.node, Red, Inner(isLeft, other)), h);
  }

  lemma LeaningOrder(isLeft: bool, other: Tree)
    requires other.Branch? && Outer(isLeft, other).Branch?
    ensures Inorder(Leaning(isLeft, other)) == Inorder(other)
    ensures Nodes(Leaning(isLeft, other)) == Nodes(other)
  {
  }

  lemma JoinOrder(path: Path, path': Path, t: Tree)
    requires path.Step? && path'.Step? && path'.up == path.up
    requires path'.isLeft == path.isLeft && path'.node == path.node && Inorder(path'.other) == Inorder(path.other)
    ensures Inorder(Plug(path', t)) == Inorder(Plug(path, t))
  {
    SameOrder(path.up, Join(path.isLeft, t, path.node, path.color, path.other),
              Join(path'.isLeft, t, path'.node, path'.color, path'.other));
  }

  lemma LeaningFits(path: Path, t: Tree, h: nat)
    requires path.Step? && Short(path, t, h) && path.other.Branch? && path.other.color == Black
    requires !IsBlack(Near(path)) && IsBlack(Far(path))
    ensures var path' := path.(other := Leaning(path.isLeft, path.other));
            && Short(path', t, h) && !IsBlack(Far(path')) && path'.other.color == Black
            && Inorder(Plug(path', t)) == Inorder(Plug(path, t))
            && PathNodes(path') == PathNodes(path)
  {
    SiblingExists(path, h);
    LeaningRB(path.isLeft, path.other, h);
    LeaningOrder(path.isLeft, path.other);
    var path' := path.(other := Leaning(path.isLeft, path.other));
    JoinOrder(path, path', t);
  }

  /** The sibling red, its near child black. */
  function PaintedPair(isLeft: bool, other: Tree): Tree
    requires other.Branch? && Outer(isLeft, other).Branch?
  {
    Join(isLeft, Outer(isLeft, other).(color := Black), other.node, Red, Inner(isLeft, other))
  }

  lemma SiblingSide(tree: RbTree, opath: Path, other: Tree)
    requires At(tree, opath, other) && opath.Step? && other.Branch?
    ensures other.node == opath.node.right <==> !opath.isLeft
  {
  }

  lemma LeaningParent(tree: RbTree, opath: Path, isLeft: bool, other: Tree)
    requires other.Branch? && Outer(isLeft, other).Branch? && At(tree, opath, Leaning(isLeft, other))
    ensures other.node.parent == Leaning(isLeft, other).node
  {
    assert Shape(Inner(isLeft, Leaning(isLeft, other)), Leaning(isLeft, other).node);
  }

  lemma FocusChild(tree: RbTree, path: Path, t: Tree, isLeft: bool)
    requires At(tree, path, t) && t.Branch?
    ensures At(tree, Step(isLeft, t.node, t.color, Inner(isLeft, t), path), Outer(isLeft, t))
  {
    if isLeft {
      ToLeft(tree, path, t);
    } else {
      ToRight(tree, path, t);
    }
  }

  /** Paint one child of the tree at the end of the path. */
  method PaintChild(tree: RbTree, child: Node, c: Color, ghost path: Path, ghost t: Tree, ghost isLeft: bool)
    requires At(tree, path, t) && t.Branch? && Outer(isLeft, t).Branch? && Outer(isLeft, t).node == child
    modifies child`color
    ensures At(tree, path, Join(isLeft, Outer(isLeft, t).(color := c), t.node, t.color, Inner(isLeft, t)))
  {
    FocusChild(tree, path, t, isLeft);
    ghost var cpath := Step(isLeft, t.node, t.color, Inner(isLeft, t), path);
    Paint(tree, child, c, cpath, Outer(isLeft, t));
    ToParent(tree, cpath, Outer(isLeft, t).(color := c));
  }

  /** sibling->color = RED; its near child's color = BLK */
  method PaintPair(tree: RbTree, sibling: Node, near: Node, ghost opath: Path, ghost other: Tree, ghost isLeft: bool)
    requires At(tree, opath, other) && other.Branch? && other.node == sibling
    requires Outer(isLeft, other).Branch? && Outer(isLeft, other).node == near
    modifies sibling`color, near`color
    ensures At(tree, opath, PaintedPair(isLeft, other))
  {
    Paint(tree, sibling, Red, opath, other);
    PaintChild(tree, near, Black, opath, other.(color := Red), isLeft);
  }

  /** Case 5: the sibling's near child is red and its far child is not. */
  method RotateSibling(tree: RbTree, sibling: Node, parent: Node, ghost path: Path, ghost t: Tree)
      returns (sibling': Node)
    requires At(tree, path, t) && path.Step? && path.other.Branch? && Near(path).Branch?
    requires parent == path.node && sibling == path.other.node
    modifies tree`root, PathNodes(path)`left, PathNodes(path)`right, PathNodes(path)`color
    modifies sibling`parent, Near(path).node`parent, RootSet(Inner(path.isLeft, Near(path)))`parent
    ensures At(tree, path.(other := Leaning(path.isLeft, path.other)), t)
    ensures sibling' == Leaning(path.isLeft, path.other).node
  {
    ghost var opath := Step(!path.isLeft, parent, path.color, t, path.up);
    ghost var painted := PaintedPair(path.isLeft, path.other);
    FocusOther(tree, path, t);
    SiblingSide(tree, opath, path.other);
    ChildPointers(tree, opath, path.other);
    if sibling == parent.right {
      PaintPair(tree, sibling, sibling.left, opath, path.other, path.isLeft);
      RotateRight(tree, sibling, opath, painted);
    } else {
      PaintPair(tree, sibling, sibling.right, opath, path.other, path.isLeft);
      RotateLeft(tree, sibling, opath, painted);
    }
    assert (if path.isLeft then RotatedRight(painted) else RotatedLeft(painted)) == Leaning(path.isLeft, path.other);
    FocusOther(tree, opath, Leaning(path.isLeft, path.other));
    LeaningParent(tree, opath, path.isLeft, path.other);
    sibling' := sibling.parent;
  }

  // ---------- case 6 ----------

  /** The tree after case 6: the sibling on top with the parent's colour. */
  function Raised(path: Path, t: Tree): Tree
    requires path.Step? && path.other.Branch? && Far(path).Branch?
  {
    Join(path.isLeft, Join(path.isLeft, t, path.node, Black, Near(path)),
         path.other.node, path.color, Far(path).(color := Black))
  }

  lemma RaisedOrder(path: Path, t: Tree)
    requires path.Step? && path.other.Branch? && Far(path).Branch?
    ensures Inorder(Raised(path, t)) == Inorder(Join(path.isLeft, t, path.node, path.color, path.other))
  {
    if path.isLeft {
      Reassociate(Inorder(t), path.node, Inorder(Near(path)), path.other.node, Inorder(Far(path)));
    } else {
      Reassociate(Inorder(Far(path)), path.other.node, Inorder(Near(path)), path.node, Inorder(t));
    }
  }

  lemma RaisedRB(path: Path, t: Tree, h: nat)
    requires path.Step? && Short(path, t, h) && path.other.Branch? && path.other.color == Black
    requires !IsBlack(Far(path))
    ensures var h' := if path.color == Black then h + 2 else h + 1;
            RB(Raised(path, t), h') && PathRB(path.up, ColorOf(Raised(path, t)), h')
  {
    SiblingExists(path, h);
    var near, far := Near(path), Far(path);
    assert RB(path.other, h + 1) && RB(near, h) && RB(far, h);
    assert RB(far.(color := Black), h + 1);
    assert RB(Join(path.isLeft, t, path.node, Black, near), h + 1);
  }

  lemma RaisedFits(path: Path, t: Tree, h: nat)
    requires path.Step? && Short(path, t, h) && path.other.Branch? && path.other.color == Black
    requires !IsBlack(Far(path))
    ensures var h' := if path.color == Black then h + 2 else h + 1;
            RB(Raised(path, t), h') && PathRB(path.up, ColorOf(Raised(path, t)), h')
    ensures Inorder(Plug(path.up, Raised(path, t))) == Inorder(Plug(path, t))
  {
    RaisedRB(path, t, h);
    hide RB, PathRB, Inorder;
    RaisedOrder(path, t);
    SameOrder(path.up, Raised(path, t), Join(path.isLeft, t, path.node, path.color, path.other));
  }

  lemma RotatedChild(tree: RbTree, path: Path, t: Tree, isLeft: bool)
    requires At(tree, path, t) && t.Branch? && Outer(isLeft, t).Branch?
    ensures Outer(isLeft, t).node.parent == t.node
  {
    assert Shape(Outer(isLeft, t), t.node);
  }

  /** sibling->color = parent->color; parent->color = BLK */
  method PaintRaise(tree: RbTree, sibling: Node, parent: Node, ghost path: Path, ghost t: Tree)
    requires At(tree, path, t) && path.Step? && path.other.Branch?
    requires parent == path.node && sibling == path.other.node
    modifies sibling`color, parent`color
    ensures At(tree, path.(color := Black, other := path.other.(color := path.color)), t)
  {
    PaintOther(tree, sibling, parent.color, path, t);
    ghost var path1 := path.(other := path.other.(color := path.color));
    ToParent(tree, path1, t);
    ghost var whole := Join(path.isLeft, t, parent, path.color, path1.other);
    Paint(tree, parent, Black, path.up, whole);
    if path.isLeft {
      ToLeft(tree, path.up, whole.(color := Black));
    } else {
      ToRight(tree, path.up, whole.(color := Black));
    }
  }

  /** The sibling's tree with its far child black. */
  function WithFarBlack(path: Path): Tree
    requires path.Step? && path.other.Branch? && Far(path).Branch?
  {
    Join(path.isLeft, Near(path), path.other.node, path.other.color, Far(path).(color := Black))
  }

  /** Painting the sibling's far child black, seen from the parent's place. */
  method PaintFar(tree: RbTree, far: Node, ghost path: Path, ghost t: Tree)
    requires At(tree, path, t) && path.Step? && path.other.Branch? && Far(path).Branch? && Far(path).node == far
    modifies far`color
    ensures At(tree, path.up, Join(path.isLeft, t, path.node, path.color, WithFarBlack(path)))
  {
    ghost var opath := Step(!path.isLeft, path.node, path.color, t, path.up);
    FocusOther(tree, path, t);
    PaintChild(tree, far, Black, opath, path.other, !path.isLeft);
    ToParent(tree, opath, WithFarBlack(path));
  }

  /** Case 6: the sibling's far child is red. */
  method RotateParent(tree: RbTree, sibling: Node, parent: Node, ghost path: Path, ghost t: Tree)
    requires At(tree, path, t) && path.Step? && path.other.Branch? && Far(path).Branch?
    requires parent == path.node && sibling == path.other.node
    modifies tree`root, PathNodes(path)`left, PathNodes(path)`right, PathNodes(path)`color
    modifies parent`parent, sibling`parent, RootSet(Near(path))`parent
    ensures At(tree, path.up, Raised(path, t))
    ensures parent.parent == sibling
  {
    PaintRaise(tree, sibling, parent, path, t);
    ghost var path1 := path.(color := Black, other := path.other.(color := path.color));
    ToParent(tree, path1, t);
    ghost var whole := Join(path.isLeft, t, parent, Black, path1.other);
    ChildPointers(tree, path.up, whole);
    ghost var all := Join(path.isLeft, t, parent, Black, WithFarBlack(path1));
    if sibling == parent.right {
      PaintFar(tree, sibling.right, path1, t);
      RotateLeft(tree, parent, path.up, all);
      RotatedChild(tree, path.up, RotatedLeft(all), true);
    } else {
      PaintFar(tree, sibling.left, path1, t);
      RotateRight(tree, parent, path.up, all);
      RotatedChild(tree, path.up, RotatedRight(all), false);
    }
  }

  // ---------- the whole fix-up ----------

  lemma {:induction false} SpineInPath(path: Path)
    ensures Spine(path) <= PathNodes(path)
  {
    if path.Top? {
    } else {
      SpineInPath(path.up);
    }
  }

  /** is_blk_or_nil; is_red is its negation. */
  predicate IsBlkOrNil(node: Node?)
    reads node
  {
    node == null || node.color == Black
  }

  /** What the colour tests of the code read. */
  lemma SiblingColors(tree: RbTree, path: Path, t: Tree)
    requires At(tree, path, t) && path.Step? && path.other.Branch?
    ensures var s := path.other.node;
            && s.parent == path.node && s.color == path.other.color
            && path.node.color == path.color
            && (s == path.node.right <==> path.isLeft)
            && IsBlkOrNil(s.left) == IsBlack(path.other.left) && IsBlkOrNil(s.right) == IsBlack(path.other.right)
            && (path.other.left.Branch? ==> s.left == path.other.left.node)
            && (path.other.right.Branch? ==> s.right == path.other.right.node)
  {
    assert Shape(path.other.left, path.other.node) && Shape(path.other.right, path.other.node);
  }

  /** What happens to the parent pointer of a node w on the path, p0 before: the rotated node gets a new
      parent, off the path, and every other keeps its own. */
  ghost predicate ParentMoved(path: Path, w: Node, p0: Node?)
    reads w
  {
    if w == RotatedNode(path) then w.parent != null && w.parent in PathNodes(path) - Spine(path)
    else w.parent == p0
  }

  /** The nodes on the path, the sibling's tree and the rest are apart. */
  lemma SpineApart(path: Path)
    requires PathDistinct(path) && path.Step?
    ensures path.node !in Spine(path.up) && path.node !in Nodes(path.other)
    ensures Spine(path) !! Nodes(path.other) && Spine(path.up) <= PathNodes(path.up)
    ensures path.node !in PathNodes(path.up)
  {
    SpineInPath(path.up);
  }

  function Length(path: Path): nat
  {
    if path.Top? then 0 else 1 + Length(path.up)
  }

  lemma {:induction false} RotatedInSpine(path: Path)
    ensures RotatedNode(path) == null || RotatedNode(path) in Spine(path)
  {
    if path.Top? {
    } else {
      RotatedInSpine(path.up);
    }
  }

  /** Case 2 has moved the path's node already; what follows can only move it again. */
  lemma RotatedUnderRed(path: Path, w: Node, sibling: Node, p0: Node?, p1: Node?)
    requires path.Step? && path.other.Branch? && path.other.color == Red && sibling == path.other.node
    requires PathDistinct(path) && w in Spine(path)
    requires p1 == if w == path.node then sibling else p0
    requires ParentMoved(UnderRed(path), w, p1)
    ensures ParentMoved(path, w, p0)
  {
    UnderRedNodes(path);
    SpineApart(path);
    RotatedInSpine(UnderRed(path).up);
  }

  ghost method AtTop(tree: RbTree, path: Path, t: Tree, h: nat) returns (t': Tree)
    requires At(tree, path, t) && Short(path, t, h)
    requires path.Step? ==> path.other.Leaf?
    ensures Holds(tree, t', Inorder(Plug(path, t))) && path.Top?
  {
    if path.Step? {
      SiblingExists(path, h);
    }
    t' := Settle(tree, path, t, h);
  }

  /** lpath is path with the sibling's tree rearranged over the same nodes, its far child now red. */
  ghost predicate LeansAway(path: Path, lpath: Path, t: Tree, h: nat)
  {
    && lpath.Step? && lpath.other.Branch? && lpath.other.color == Black && !IsBlack(Far(lpath))
    && Short(lpath, t, h) && RotatedNode(lpath) == RotatedNode(path)
    && PathNodes(lpath) == PathNodes(path) && Spine(lpath) == Spine(path)
    && Inorder(Plug(lpath, t)) == Inorder(Plug(path, t))
  }

  /** Case 5: sibling rotation, when the far child is not red. */
  method LeanAway(tree: RbTree, sibling: Node, parent: Node, ghost path: Path, ghost t: Tree, ghost h: nat,
                  ghost w: Node?)
      returns (lower: Node, ghost lpath: Path)
    requires At(tree, path, t) && Short(path, t, h)
    requires path.Step? && path.other.Branch? && path.other.color == Black && Rich(path.other)
    requires parent == path.node && sibling == path.other.node
    requires w != null ==> w in Spine(path)
    modifies tree, PathNodes(path)
    ensures At(tree, lpath, t) && LeansAway(path, lpath, t, h)
    ensures lpath.node == parent && lpath.other.node == lower
    ensures w != null ==> w.parent == old(w.parent)
  {
    hide PathRB, RB;
    lower, lpath := sibling, path;
    SiblingColors(tree, path, t);
    SpineApart(path);
    if (sibling == parent.right && !IsBlkOrNil(sibling.left) && IsBlkOrNil(sibling.right))
      || (sibling == parent.left && !IsBlkOrNil(sibling.right) && IsBlkOrNil(sibling.left)) {
      LeaningFits(path, t, h);
      lower := RotateSibling(tree, sibling, parent, path, t);
      lpath := path.(other := Leaning(path.isLeft, path.other));
    }
  }

  /** Where nothing is rotated here, the nodes on the way up move as further up. */
  lemma EvenMoves(path: Path, w: Node, p0: Node?)
    requires PathDistinct(path) && path.Step? && !Rich(path.other) && w in Spine(path)
    requires if path.color == Black && w in Spine(path.up) then ParentMoved(path.up, w, p0) else w.parent == p0
    ensures ParentMoved(path, w, p0)
  {
    SpineApart(path);
    RotatedInSpine(path.up);
  }

  /** Of the nodes on the way up, only the lowest gets a new parent, which is not one of them. */
  lemma RaisedMoves(path: Path, w: Node, p0: Node?)
    requires PathDistinct(path) && path.Step? && path.other.Branch? && !IsBlack(Far(path)) && w in Spine(path)
    requires w.parent == if w == path.node then path.other.node else p0
    ensures ParentMoved(path, w, p0)
  {
    SpineApart(path);
    hide PathDistinct;
    assert Rich(path.other);
  }

  /** The sibling and its children are not on the way up. */
  lemma SpineBeside(path: Path, w: Node?)
    requires PathDistinct(path) && path.Step? && path.other.Branch?
    ensures w != null && w in Spine(path) ==>
              w != path.other.node && w !in RootSet(Near(path)) && w !in RootSet(Far(path))
  {
    SpineApart(path);
    hide PathDistinct;
  }

  /** Case 6: parent rotation. */
  method RaiseSibling(tree: RbTree, sibling: Node, parent: Node, ghost path: Path, ghost t: Tree, ghost h: nat,
                      ghost w: Node?)
      returns (ghost t': Tree)
    requires At(tree, path, t) && Short(path, t, h)
    requires path.Step? && path.other.Branch? && path.other.color == Black && !IsBlack(Far(path))
    requires parent == path.node && sibling == path.other.node
    requires w != null ==> w in Spine(path)
    modifies tree, PathNodes(path)
    ensures Holds(tree, t', Inorder(Plug(path, t)))
    ensures w != null ==> ParentMoved(path, w, old(w.parent))
  {
    hide Holds, ParentMoved, Short, PathDistinct, Distinct;
    RaisedFits(path, t, h);
    SpineBeside(path, w);
    ghost var p0 := if w == null then null else w.parent;
    RotateParent(tree, sibling, parent, path, t);
    if w != null {
      RaisedMoves(path, w, p0);
    }
    t' := Settle(tree, path.up, Raised(path, t), if path.color == Black then h + 2 else h + 1);
  }

  /** Cases 5 and 6: the black sibling has a red child. */
  method FixRichSibling(tree: RbTree, sibling: Node, parent: Node, ghost path: Path, ghost t: Tree, ghost h: nat,
                        ghost w: Node?)
      returns (ghost t': Tree)
    requires At(tree, path, t) && Short(path, t, h)
    requires path.Step? && path.other.Branch? && path.other.color == Black && Rich(path.other)
    requires parent == path.node && sibling == path.other.node
    requires w != null ==> w in Spine(path)
    modifies tree, PathNodes(path)
    ensures Holds(tree, t', Inorder(Plug(path, t)))
    ensures w != null ==> ParentMoved(path, w, old(w.parent))
  {
    ghost var lpath;
    var lower;
    lower, lpath := LeanAway(tree, sibling, parent, path, t, h, w);
    t' := RaiseSibling(tree, lower, parent, lpath, t, h, w);
  }

  /** Cases 3 to 6: the sibling is black. */
  method FixBlackSibling(tree: RbTree, sibling: Node, parent: Node, ghost path: Path, ghost t: Tree, ghost h: nat,
                         ghost w: Node?)
      returns (ghost t': Tree)
    requires At(tree, path, t) && Short(path, t, h)
    requires path.Step? && path.other.Branch? && path.other.color == Black
    requires parent == path.node && sibling == path.other.node
    requires w != null ==> w in Spine(path)
    modifies tree, PathNodes(path)
    ensures Holds(tree, t', Inorder(Plug(path, t)))
    ensures w != null ==> ParentMoved(path, w, old(w.parent))
    decreases if path.color == Red then 0 else Length(path), 1
  {
    hide Holds, ParentMoved;
    SiblingColors(tree, path, t);
    if IsBlkOrNil(sibling.left) && IsBlkOrNil(sibling.right) {
      t' := FixPoorSibling(tree, sibling, parent, path, t, h, w);
    } else {
      t' := FixRichSibling(tree, sibling, parent, path, t, h, w);
    }
  }

  /** Case 2: the sibling is red. */
  method FixRedSibling(tree: RbTree, sibling: Node, parent: Node, ghost path: Path, ghost t: Tree, ghost h: nat,
                       ghost w: Node?)
      returns (ghost t': Tree)
    requires At(tree, path, t) && Short(path, t, h)
    requires path.Step? && path.other.Branch? && path.other.color == Red
    requires parent == path.node && sibling == path.other.node
    requires w != null ==> w in Spine(path)
    modifies tree, PathNodes(path)
    ensures Holds(tree, t', Inorder(Plug(path, t)))
    ensures w != null ==> ParentMoved(path, w, old(w.parent))
    decreases Length(path), 1
  {
    hide Holds, ParentMoved;
    SiblingExists(path, h);
    UnderRedFits(path, t, h);
    UnderRedNodes(path);
    SpineApart(path);
    SpineBeside(path, w);
    var near := RotateRedSibling(tree, sibling, parent, path, t);
    ghost var p1 := if w == null then null else w.parent;
    t' := FixBlackSibling(tree, near, parent, UnderRed(path), t, h, w);
    if w != null {
      RotatedUnderRed(path, w, sibling, old(w.parent), p1);
    }
  }

  /** removal_balancing, all six cases.  It makes the whole tree red-black again over the same nodes, in the
      same order; w is any node on the path. */
  method RemovalBalancing(tree: RbTree, start: Node?, ghost path: Path, ghost t: Tree, ghost h: nat, ghost w: Node?)
      returns (ghost t': Tree)
    requires At(tree, path, t) && Short(path, t, h)
    requires start == if path.Top? then null else RootNode(path.other)
    requires w != null ==> w in Spine(path)
    modifies tree, PathNodes(path)
    ensures Holds(tree, t', Inorder(Plug(path, t)))
    ensures w != null ==> ParentMoved(path, w, old(w.parent))
    decreases Length(path), 2
  {
    hide Holds, ParentMoved;
    // case 1: nothing above
    if start == null {
      t' := AtTop(tree, path, t, h);
      return;
    }
    SiblingExists(path, h);
    SiblingColors(tree, path, t);
    // case 2: a red sibling is rotated above
    if start.color == Red {
      t' := FixRedSibling(tree, start, start.parent, path, t, h, w);
      return;
    }
    t' := FixBlackSibling(tree, start, start.parent, path, t, h, w);
  }

  /** The subtree of `start` is one black node short as a whole now. */
  method PassUp(tree: RbTree, start: Node, ghost path: Path, ghost t: Tree, ghost h: nat, ghost w: Node?)
      returns (ghost t': Tree)
    requires At(tree, path, t) && Short(path, t, h) && RootNode(t) == start
    requires w != null ==> w in Spine(path) || w !in PathNodes(path)
    modifies tree, PathNodes(path)
    ensures Holds(tree, t', Inorder(Plug(path, t)))
    ensures w != null ==>
              if w in Spine(path) then ParentMoved(path, w, old(w.parent)) else w.parent == old(w.parent)
    decreases Length(path), 3
  {
    hide Holds, ParentMoved, Short;
    SiblingIs(tree, path, t);
    ghost var w' := if w != null && w in Spine(path) then w else null;
    t' := RemovalBalancing(tree, GetSibling(start), path, t, h, w');
  }

  /** Cases 3 and 4: the sibling and its children are black. */
  method FixPoorSibling(tree: RbTree, sibling: Node, parent: Node, ghost path: Path, ghost t: Tree, ghost h: nat,
                        ghost w: Node?)
      returns (ghost t': Tree)
    requires At(tree, path, t) && Short(path, t, h)
    requires path.Step? && path.other.Branch? && !Rich(path.other)
    requires parent == path.node && sibling == path.other.node
    requires w != null ==> w in Spine(path)
    modifies tree, PathNodes(path)
    ensures Holds(tree, t', Inorder(Plug(path, t)))
    ensures w != null ==> ParentMoved(path, w, old(w.parent))
    decreases if path.color == Red then 0 else Length(path), 0
  {
    hide Holds, ParentMoved, PathDistinct, Distinct, Rich;
    SiblingColors(tree, path, t);
    EvenedFits(path, t, h);
    SpineApart(path);
    ghost var evened := Evened(path, t);
    ghost var p0 := if w == null then null else w.parent;
    if parent.color == Black {
      // case 3: nothing red around
      PaintEven(tree, sibling, parent, path, t);
      t' := PassUp(tree, parent, path.up, evened, h + 1, w);
    } else {
      // case 4: only the parent is red
      PaintEven(tree, sibling, parent, path, t);
      t' := Settle(tree, path.up, evened, h + 1);
    }
    if w != null {
      EvenMoves(path, w, p0);
    }
  }
}
