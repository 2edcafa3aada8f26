/** The red-black tree of libcoll/src/rbtree.c: parent pointers, rotations and fix-ups in place. */
module RedBlack {
  import opened RbShape

  class RbTree {
    var root: Node?
    constructor () ensures root == null { root := null; }
  }

  /** In the heap, the place the path leads to holds ref. */
  ghost predicate PathShape(tree: RbTree, path: Path, ref: Node?)
    reads tree, PathNodes(path)
    decreases path
  {
    match path
    case Top => tree.root == ref
    case Step(isLeft, n, c, other, up) =>
      && n.color == c && n.parent == ParentNode(up)
      && (if isLeft then n.left == ref && n.right == RootNode(other) else n.right == ref && n.left == RootNode(other))
      && Shape(other, n)
      && PathShape(tree, up, n)
  }

  /** The tree in the heap is t at the end of path, and the path around it. */
  ghost predicate At(tree: RbTree, path: Path, t: Tree)
    reads tree, PathNodes(path), Nodes(t)
  {
    && PathShape(tree, path, RootNode(t))
    && Shape(t, ParentNode(path))
    && PathDistinct(path) && Distinct(t) && PathNodes(path) !! Nodes(t)
  }

  lemma ToParent(tree: RbTree, path: Path, t: Tree)
    requires At(tree, path, t) && path.Step?
    ensures At(tree, path.up, Join(path.isLeft, t, path.node, path.color, path.other))
  {
  }

  lemma ToLeft(tree: RbTree, path: Path, t: Tree)
    requires At(tree, path, t) && t.Branch?
    ensures At(tree, Step(true, t.node, t.color, t.right, path), t.left)
  {
  }

  lemma ToRight(tree: RbTree, path: Path, t: Tree)
    requires At(tree, path, t) && t.Branch?
    ensures At(tree, Step(false, t.node, t.color, t.left, path), t.right)
  {
  }

  /** node->color = c */
  method Paint(tree: RbTree, n: Node, c: Color, ghost path: Path, ghost t: Tree)
    requires At(tree, path, t) && t.Branch? && t.node == n
    modifies n`color
    ensures At(tree, path, t.(color := c))
  {
    n.color := c;
  }

  /** The last lines of a rotation: whatever pointed to node now points to other. */
  method Redirect(tree: RbTree, parent: Node?, node: Node, other: Node?, ghost path: Path)
    requires PathShape(tree, path, node) && PathDistinct(path) && parent == ParentNode(path)
    requires path.Step? && !path.isLeft ==> path.node.left != node
    modifies tree`root, ParentSet(path)`left, ParentSet(path)`right
    ensures PathShape(tree, path, other)
  {
    if parent != null {
      if parent.left == node {
        parent.left := other;
      } else {
        parent.right := other;
      }
    } else {
      tree.root := other;
    }
  }

  /** if (child != NULL) child->parent = parent */
  method Reparent(child: Node?, parent: Node?, ghost t: Tree, ghost before: Node?)
    requires Shape(t, before) && Distinct(t) && child == RootNode(t)
    modifies RootSet(t)`parent
    ensures Shape(t, parent)
  {
    if child != null {
      child.parent := parent;
    }
  }

  /** Two linked nodes with their three subtrees, apart from each other and from `outside`. */
  ghost predicate Apart(a: Tree, n: Node, b: Tree, s: Node, d: Tree, outside: set<Node>)
  {
    && Distinct(a) && Distinct(b) && Distinct(d)
    && n != s && {n, s} !! Nodes(a) && {n, s} !! Nodes(b) && {n, s} !! Nodes(d) && {n, s} !! outside
    && Nodes(a) !! Nodes(b) && Nodes(a) !! Nodes(d) && Nodes(b) !! Nodes(d)
    && Nodes(a) !! outside && Nodes(b) !! outside && Nodes(d) !! outside
  }

  /** The pointers between a node, its right child and that child's left subtree, in a left rotation. */
  method LinkLeft(node: Node, right: Node, parent: Node?, ghost t: Tree, ghost outside: set<Node>)
    requires t.Branch? && t.node == node && t.right.Branch? && t.right.node == right && Shape(t, parent)
    requires Apart(t.left, node, t.right.left, right, t.right.right, outside)
    modifies node`parent, node`right, right`parent, right`left, RootSet(t.right.left)`parent
    ensures Shape(RotatedLeft(t), parent)
  {
    assert Shape(t.right, node);
    assert allocated(Nodes(t.left)) && allocated(Nodes(t.right.right));
    Reparent(right.left, node, t.right.left, right);
    node.right := right.left;
    node.parent := right;
    right.left := node;
    right.parent := parent;
    assert Shape(RotatedLeft(t).left, right);
  }

  method RotateLeft(tree: RbTree, node: Node, ghost path: Path, ghost t: Tree)
    requires t.Branch? && t.node == node && t.right.Branch? && At(tree, path, t)
    modifies tree`root, ParentSet(path)`left, ParentSet(path)`right
    modifies node`parent, node`right, t.right.node`parent, t.right.node`left, RootSet(t.right.left)`parent
    ensures At(tree, path, RotatedLeft(t))
  {
    assert Distinct(t.right) && Shape(t.right, node);
    assert Apart(t.left, node, t.right.left, t.right.node, t.right.right, PathNodes(path));
    var parent := node.parent;
    var right := node.right;
    assert right != null;
    assert allocated(PathNodes(path));
    LinkLeft(node, right, parent, t, PathNodes(path));
    assert allocated(Nodes(RotatedLeft(t)));
    Redirect(tree, parent, node, right, path);
    assert Distinct(RotatedLeft(t).left);
  }

  method LinkRight(node: Node, left: Node, parent: Node?, ghost t: Tree, ghost outside: set<Node>)
    requires t.Branch? && t.node == node && t.left.Branch? && t.left.node == left && Shape(t, parent)
    requires Apart(t.left.left, left, t.left.right, node, t.right, outside)
    modifies node`parent, node`left, left`parent, left`right, RootSet(t.left.right)`parent
    ensures Shape(RotatedRight(t), parent)
  {
    assert Shape(t.left, node);
    assert allocated(Nodes(t.right)) && allocated(Nodes(t.left.left));
    Reparent(left.right, node, t.left.right, left);
    node.left := left.right;
    node.parent := left;
    left.right := node;
    left.parent := parent;
    assert Shape(RotatedRight(t).right, left);
  }

  method RotateRight(tree: RbTree, node: Node, ghost path: Path, ghost t: Tree)
    requires t.Branch? && t.node == node && t.left.Branch? && At(tree, path, t)
    modifies tree`root, ParentSet(path)`left, ParentSet(path)`right
    modifies node`parent, node`left, t.left.node`parent, t.left.node`right, RootSet(t.left.right)`parent
    ensures At(tree, path, RotatedRight(t))
  {
    assert Distinct(t.left) && Shape(t.left, node);
    assert Apart(t.left.left, t.left.node, t.left.right, node, t.right, PathNodes(path));
    var parent := node.parent;
    var left := node.left;
    assert left != null;
    assert allocated(PathNodes(path));
    LinkRight(node, left, parent, t, PathNodes(path));
    assert allocated(Nodes(RotatedRight(t)));
    Redirect(tree, parent, node, left, path);
    assert Distinct(RotatedRight(t).right);
  }

  // ---------- the whole tree ----------

  /** Which child of its parent the tree at the end of a path is. */
  lemma WhichChild(tree: RbTree, path: Path, t: Tree)
    requires At(tree, path, t) && path.Step? && t.Branch?
    ensures path.node.left == t.node <==> path.isLeft
    ensures path.node.right == t.node <==> !path.isLeft
  {
  }

  /** get_sibling */
  function GetSibling(node: Node): Node?
    reads node, node.parent
  {
    if node.parent == null then null
    else if node == node.parent.left then node.parent.right
    else node.parent.left
  }

  lemma SiblingIs(tree: RbTree, path: Path, t: Tree)
    requires At(tree, path, t) && t.Branch?
    ensures GetSibling(t.node) == if path.Top? then null else RootNode(path.other)
  {
  }

  /** The whole tree is a red-black tree over the nodes of s, in that order. */
  ghost predicate Holds(tree: RbTree, t: Tree, s: seq<Node>)
    reads tree, Nodes(t)
  {
    At(tree, Top, t) && IsRB(t) && Inorder(t) == s
  }

  lemma SameOrder(path: Path, t: Tree, t': Tree)
    requires Inorder(t) == Inorder(t')
    ensures Inorder(Plug(path, t)) == Inorder(Plug(path, t'))
  {
    InorderPlug(path, t);
    InorderPlug(path, t');
  }

  lemma {:induction false} PlugAt(tree: RbTree, path: Path, t: Tree)
    requires At(tree, path, t)
    ensures At(tree, Top, Plug(path, t))
    decreases path
  {
    if path.Top? {
    } else {
      ToParent(tree, path, t);
      PlugAt(tree, path.up, Join(path.isLeft, t, path.node, path.color, path.other));
    }
  }

  /** Nothing left to fix: the tree at the end of the path fits there. */
  ghost method Settle(tree: RbTree, path: Path, t: Tree, h: nat) returns (t': Tree)
    requires At(tree, path, t) && RB(t, h) && PathRB(path, ColorOf(t), h)
    ensures t' == Plug(path, t) && Holds(tree, t', Inorder(t'))
  {
    t' := Plug(path, t);
    PlugRB(path, t, h);
    PlugAt(tree, path, t);
  }

  /** From a place to its sibling's place. */
  lemma FocusOther(tree: RbTree, path: Path, t: Tree)
    requires At(tree, path, t) && path.Step?
    ensures At(tree, Step(!path.isLeft, path.node, path.color, t, path.up), path.other)
  {
    ToParent(tree, path, t);
    var whole := Join(path.isLeft, t, path.node, path.color, path.other);
    if path.isLeft {
      ToRight(tree, path.up, whole);
    } else {
      ToLeft(tree, path.up, whole);
    }
  }

  /** Paint the sibling of the tree at the end of the path. */
  method PaintOther(tree: RbTree, other: Node, c: Color, ghost path: Path, ghost t: Tree)
    requires At(tree, path, t) && path.Step? && path.other.Branch? && path.other.node == other
    modifies other`color
    ensures At(tree, path.(other := path.other.(color := c)), t)
  {
    FocusOther(tree, path, t);
    ghost var opath := Step(!path.isLeft, path.node, path.color, t, path.up);
    Paint(tree, other, c, opath, path.other);
    FocusOther(tree, opath, path.other.(color := c));
  }

  /** The child of t on the side away from the rest of the tree, and the other one. */
  function Outer(isLeft: bool, t: Tree): Tree
    requires t.Branch?
  {
    if isLeft then t.left else t.right
  }

  function Inner(isLeft: bool, t: Tree): Tree
    requires t.Branch?
  {
    if isLeft then t.right else t.left
  }

  lemma OuterIsLeft(tree: RbTree, path: Path, all: Tree, isLeft: bool)
    requires At(tree, path, all) && all.Branch? && Outer(isLeft, all).Branch?
    requires Outer(isLeft, Outer(isLeft, all)).Branch?
    ensures var t := Outer(isLeft, all);
            t.node.left == Outer(isLeft, t).node <==> isLeft
  {
    var t := Outer(isLeft, all);
    assert Shape(t, all.node) && Distinct(t);
  }
}
