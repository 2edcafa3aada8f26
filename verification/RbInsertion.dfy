/** rbtree_insert and insertion_balancing of libcoll/src/rbtree.c. */
module RbInsertion {
  import opened RbShape
  import opened RedBlack
  import opened RbSearch

  /** s with n put in its place in key order. */
  function WithNode(s: seq<Node>, n: Node): seq<Node>
  {
    if s == [] || n.key < s[0].key then [n] + s else [s[0]] + WithNode(s[1..], n)
  }

  lemma FrontOf(before: seq<Node>, after: seq<Node>, n: Node)
    requires before != []
    ensures (before + after)[0] == before[0] && (before + after)[1..] == before[1..] + after
    ensures [before[0]] + (before[1..] + [n] + after) == before + [n] + after
  {
  }

  lemma FirstAbove(s: seq<Node>, key: int)
    requires AllAbove(s, key)
    ensures s != [] ==> key < s[0].key
  {
    assert s != [] ==> s[0] in s;
  }

  lemma RestBelow(s: seq<Node>, key: int)
    requires AllBelow(s, key) && s != []
    ensures s[0].key < key && AllBelow(s[1..], key)
  {
    assert s[0] in s;
  }

  lemma {:induction false} WithNodeAt(before: seq<Node>, after: seq<Node>, n: Node)
    requires AllBelow(before, n.key) && AllAbove(after, n.key)
    ensures WithNode(before + after, n) == before + [n] + after
  {
    if before == [] {
      assert before + after == after;
      FirstAbove(after, n.key);
    } else {
      RestBelow(before, n.key);
      hide AllBelow, AllAbove;
      FrontOf(before, after, n);
      WithNodeAt(before[1..], after, n);
      assert WithNode(before + after, n) == [before[0]] + WithNode((before + after)[1..], n);
    }
  }

  lemma OldIndex(before: seq<Node>, after: seq<Node>, n: Node, i: nat)
    requires i <= |before| + |after|
    ensures var s, s' := before + after, before + [n] + after;
            && (i < |before| ==> s'[i] == s[i] && s'[i] in before)
            && (i == |before| ==> s'[i] == n)
            && (i > |before| ==> s'[i] == s[i - 1] && s'[i] in after)
  {
    if i < |before| {
      InFirst(before, after, i);
    } else if i > |before| {
      InSecond(before, after, i - 1);
    }
  }

  lemma WithNodeSorted(before: seq<Node>, after: seq<Node>, n: Node)
    requires Sorted(before + after) && AllBelow(before, n.key) && AllAbove(after, n.key)
    ensures Sorted(before + [n] + after)
  {
    var s, s' := before + after, before + [n] + after;
    forall i, j | 0 <= i < j < |s'|
      ensures s'[i].key < s'[j].key
    {
      OldIndex(before, after, n, i);
      OldIndex(before, after, n, j);
    }
  }

  lemma NoDuplicate(t: Tree, key: int, path: Path)
    requires PlaceOf(t, key, path, Leaf) && Sorted(Inorder(t))
    ensures Inorder(t) == Before(path) + After(path)
    ensures !exists m | m in Inorder(t) :: m.key == key
  {
    GapOrder(path);
    forall m | m in Inorder(t)
      ensures m.key != key
    {
      BracketGap(Before(path), After(path), key, m);
    }
  }

  lemma NewKey(t: Tree, node: Node, path: Path)
    requires PlaceOf(t, node.key, path, Leaf) && Sorted(Inorder(t))
    ensures !exists m | m in Inorder(t) :: m.key == node.key
    ensures WithNode(Inorder(t), node) == Before(path) + [node] + After(path)
    ensures Sorted(WithNode(Inorder(t), node))
  {
    NoDuplicate(t, node.key, path);
    WithNodeAt(Before(path), After(path), node);
    WithNodeSorted(Before(path), After(path), node);
  }

  method InsertFirst(tree: RbTree, node: Node) returns (ghost t': Tree)
    modifies tree, node
    ensures Holds(tree, t', [node])
  {
    node.parent := null;
    node.left, node.right := null, null;
    node.color := Black;
    tree.root := node;
    t' := Branch(Leaf, node, Black, Leaf);
    assert RB(t', 1);
  }

  lemma DuplicateFound(tree: RbTree, t: Tree, key: int, path: Path, sub: Tree)
    requires At(tree, path, sub) && PlaceOf(t, key, path, sub) && tree.root != null && At(tree, Top, t)
    requires sub.Branch? ==> sub.node.key == key
    requires sub.Leaf? ==> ParentNode(path) == null
    ensures exists m | m in Inorder(t) :: m.key == key
  {
    InorderPlug(path, sub);
    assert sub.Branch?;
    assert sub.node in Inorder(sub);
  }

  lemma {:induction false} PlugNodes(path: Path, t: Tree)
    ensures Nodes(Plug(path, t)) == PathNodes(path) + Nodes(t)
    decreases path
  {
    if path.Top? {
    } else {
      PlugNodes(path.up, Join(path.isLeft, t, path.node, path.color, path.other));
    }
  }

  /** Linking the new node in as a leaf. */
  method Attach(tree: RbTree, node: Node, toInsert: Node, ghost path: Path) returns (ghost c: Color)
    requires At(tree, path, Leaf) && path.Step? && path.node == toInsert && node !in PathNodes(path)
    requires AllBelow(Before(path), node.key) && AllAbove(After(path), node.key)
    modifies node, toInsert`left, toInsert`right
    ensures At(tree, path, Branch(Leaf, node, c, Leaf))
  {
    assert path.isLeft ==> After(path)[0] == toInsert && toInsert in After(path);
    assert !path.isLeft ==> Before(path)[|Before(path)| - 1] == toInsert && toInsert in Before(path);
    node.parent := toInsert;
    node.left, node.right := null, null;
    c := node.color;
    if node.key < toInsert.key {
      toInsert.left := node;
    } else {
      toInsert.right := node;
    }
  }

  /** A red parent is not the root, and its own parent is black. */
  lemma GrandparentIsBlack(path: Path, h: nat)
    requires path.Step? && path.color == Red && PathRB(path, Black, h)
    ensures IsBlack(path.other) && RB(path.other, h)
    ensures path.up.Step? && path.up.color == Black && PathRB(path.up, Red, h)
    ensures RB(path.up.other, h) && PathRB(path.up.up, Black, h + 1)
  {
  }

  /** A tree whose root is red or about to be, standing where a black root of height h would do. */
  ghost predicate Reddened(path: Path, t: Tree, h: nat)
  {
    && PathRB(path, Black, h)
    && t.Branch? && IsBlack(t.left) && IsBlack(t.right) && RB(t.left, h) && RB(t.right, h)
  }

  /** t and its parent are both red: the one place where the tree is not red-black. */
  ghost predicate RedPair(path: Path, t: Tree, h: nat)
  {
    Reddened(path, t, h) && t.color == Red && path.Step? && path.color == Red && path.up.Step?
  }

  /** The family after case 3: the parent and the uncle black, the grandparent red. */
  function Repainted(path: Path, t: Tree): Tree
    requires path.Step? && path.up.Step? && path.up.other.Branch?
  {
    var family := Join(path.isLeft, t, path.node, Black, path.other);
    Join(path.up.isLeft, family, path.up.node, Red, path.up.other.(color := Black))
  }

  lemma RepaintedNodes(path: Path, t: Tree)
    requires path.Step? && path.up.Step? && path.up.other.Branch?
    ensures Nodes(Repainted(path, t)) + PathNodes(path.up.up) == Nodes(t) + PathNodes(path)
  {
  }

  lemma RepaintedFits(path: Path, t: Tree, h: nat)
    requires RedPair(path, t, h) && path.up.other.Branch? && path.up.other.color == Red
    ensures Reddened(path.up.up, Repainted(path, t), h + 1)
    ensures Inorder(Plug(path.up.up, Repainted(path, t))) == Inorder(Plug(path, t))
    ensures Nodes(Repainted(path, t)) + PathNodes(path.up.up) == Nodes(t) + PathNodes(path)
  {
    GrandparentIsBlack(path, h);
    RepaintedNodes(path, t);
    var family := Join(path.isLeft, t, path.node, path.color, path.other);
    SameOrder(path.up.up, Repainted(path, t), Join(path.up.isLeft, family, path.up.node, path.up.color, path.up.other));
  }

  /** Case 3. */
  method PaintFamily(tree: RbTree, parent: Node, uncle: Node, grand: Node, ghost path: Path, ghost t: Tree)
    requires At(tree, path, t) && path.Step? && path.up.Step? && path.up.other.Branch?
    requires parent == path.node && grand == path.up.node && uncle == path.up.other.node
    modifies parent`color, uncle`color, grand`color
    ensures At(tree, path.up.up, Repainted(path, t))
  {
    ghost var family := Join(path.isLeft, t, parent, path.color, path.other);
    ToParent(tree, path, t);
    Paint(tree, parent, Black, path.up, family);
    family := family.(color := Black);
    PaintOther(tree, uncle, Black, path.up, family);
    ghost var path' := path.up.(other := path.up.other.(color := Black));
    ToParent(tree, path', family);
    Paint(tree, grand, Red, path.up.up, Join(path'.isLeft, family, grand, path'.color, path'.other));
  }

  /** The parent's tree after case 4: rotated when t is its inner child. */
  function Turned(path: Path, t: Tree): Tree
    requires path.Step? && path.up.Step? && t.Branch?
  {
    var family := Join(path.isLeft, t, path.node, path.color, path.other);
    if path.isLeft == path.up.isLeft then family
    else if path.up.isLeft then RotatedLeft(family)
    else RotatedRight(family)
  }

  lemma TurnedOrder(path: Path, t: Tree)
    requires path.Step? && path.up.Step? && t.Branch?
    ensures var family := Join(path.isLeft, t, path.node, path.color, path.other);
            && Inorder(Turned(path, t)) == Inorder(family)
            && Nodes(Turned(path, t)) == Nodes(family)
  {
  }

  /** A red node on the given path whose outer child is red too; everything else is in order. */
  ghost predicate OuterPair(path: Path, t: Tree, h: nat)
  {
    && path.Step? && PathRB(path, Red, h) && IsBlack(path.other)
    && t.Branch? && t.color == Red
    && Outer(path.isLeft, t).Branch? && Outer(path.isLeft, t).color == Red && RB(Outer(path.isLeft, t), h)
    && IsBlack(Inner(path.isLeft, t)) && RB(Inner(path.isLeft, t), h)
  }

  lemma TurnedFits(path: Path, t: Tree, h: nat)
    requires RedPair(path, t, h) && IsBlack(path.up.other)
    ensures OuterPair(path.up, Turned(path, t), h)
    ensures Inorder(Plug(path.up, Turned(path, t))) == Inorder(Plug(path, t))
    ensures Nodes(Turned(path, t)) == Nodes(t) + {path.node} + Nodes(path.other)
  {
    GrandparentIsBlack(path, h);
    var family := Join(path.isLeft, t, path.node, path.color, path.other);
    TurnedOrder(path, t);
    SameOrder(path.up, family, Turned(path, t));
  }

  /** The pointers that the code re-reads after the rotation. */
  lemma RotatedPair(tree: RbTree, path: Path, mid: Tree, isLeft: bool)
    requires At(tree, path, mid) && mid.Branch? && path.Step? && Outer(isLeft, mid).Branch?
    ensures Outer(isLeft, mid).node.parent == mid.node && mid.node.parent == path.node
  {
    assert Shape(Outer(isLeft, mid), mid.node);
  }

  /** Case 4: rotate the parent when the node is its inner child. */
  method TurnOutward(tree: RbTree, node: Node, parent: Node, grand: Node, ghost path: Path, ghost t: Tree)
      returns (low: Node, top: Node)
    requires At(tree, path, t) && t.Branch? && path.Step? && path.up.Step?
    requires node == t.node && parent == path.node && grand == path.up.node
    modifies tree, PathNodes(path), Nodes(t)
    ensures At(tree, path.up, Turned(path, t))
    ensures Turned(path, t).node == top
    ensures Outer(path.up.isLeft, Turned(path, t)).Branch? && Outer(path.up.isLeft, Turned(path, t)).node == low
  {
    ghost var family := Join(path.isLeft, t, parent, path.color, path.other);
    ghost var turned := Turned(path, t);
    ToParent(tree, path, t);
    WhichChild(tree, path, t);
    WhichChild(tree, path.up, family);
    low, top := node, parent;
    if parent.right == node && grand.left == parent {
      RotateLeft(tree, parent, path.up, family);
      RotatedPair(tree, path.up, turned, true);
      low := parent;
      top := low.parent;
      assert top.parent == grand;
    } else if parent.left == node && grand.right == parent {
      RotateRight(tree, parent, path.up, family);
      RotatedPair(tree, path.up, turned, false);
      low := parent;
      top := low.parent;
      assert top.parent == grand;
    }
  }

  /** The grandparent's tree after case 5. */
  function Lifted(path: Path, t: Tree): Tree
    requires path.Step? && t.Branch?
  {
    var all := Join(path.isLeft, t.(color := Black), path.node, Red, path.other);
    if path.isLeft then RotatedRight(all) else RotatedLeft(all)
  }

  lemma LiftedOrder(path: Path, t: Tree)
    requires path.Step? && t.Branch?
    ensures Inorder(Lifted(path, t)) == Inorder(Join(path.isLeft, t, path.node, path.color, path.other))
  {
  }

  lemma LiftedFits(path: Path, t: Tree, h: nat)
    requires OuterPair(path, t, h)
    ensures RB(Lifted(path, t), h + 1) && PathRB(path.up, ColorOf(Lifted(path, t)), h + 1)
    ensures Inorder(Plug(path.up, Lifted(path, t))) == Inorder(Plug(path, t))
  {
    LiftedOrder(path, t);
    SameOrder(path.up, Join(path.isLeft, t, path.node, path.color, path.other), Lifted(path, t));
  }

  method PaintLift(tree: RbTree, top: Node, grand: Node, ghost path: Path, ghost t: Tree)
    requires At(tree, path, t) && path.Step? && t.Branch? && grand == path.node && top == t.node
    modifies top`color, grand`color
    ensures At(tree, path.up, Join(path.isLeft, t.(color := Black), grand, Red, path.other))
  {
    Paint(tree, top, Black, path, t);
    ToParent(tree, path, t.(color := Black));
    Paint(tree, grand, Red, path.up, Join(path.isLeft, t.(color := Black), grand, path.color, path.other));
  }

  /** Case 5: repaint the top of the pair and the grandparent, and rotate the grandparent. */
  method LiftOver(tree: RbTree, low: Node, top: Node, grand: Node, ghost path: Path, ghost t: Tree)
    requires At(tree, path, t) && path.Step? && t.Branch? && Outer(path.isLeft, t).Branch?
    requires grand == path.node && top == t.node && low == Outer(path.isLeft, t).node
    modifies tree, PathNodes(path), Nodes(t)
    ensures At(tree, path.up, Lifted(path, t))
  {
    ghost var all := Join(path.isLeft, t.(color := Black), grand, Red, path.other);
    PaintLift(tree, top, grand, path, t);
    OuterIsLeft(tree, path.up, all, path.isLeft);
    if top.left == low {
      RotateRight(tree, grand, path.up, all);
    } else {
      RotateLeft(tree, grand, path.up, all);
    }
  }

  /** Cases 4 and 5: the uncle is black, and one or two rotations bring the middle node on top. */
  method RotateFamily(tree: RbTree, node: Node, parent: Node, grand: Node, ghost path: Path, ghost t: Tree,
                      ghost h: nat)
      returns (ghost t': Tree)
    requires At(tree, path, t) && RedPair(path, t, h) && IsBlack(path.up.other)
    requires node == t.node && parent == path.node && grand == path.up.node
    modifies tree, PathNodes(path), Nodes(t)
    ensures Holds(tree, t', Inorder(Plug(path, t)))
  {
    TurnedFits(path, t, h);
    var low, top := TurnOutward(tree, node, parent, grand, path, t);
    ghost var turned := Turned(path, t);
    LiftedFits(path.up, turned, h);
    LiftOver(tree, low, top, grand, path.up, turned);
    t' := Settle(tree, path.up.up, Lifted(path.up, turned), h + 1);
  }

  /** Cases 3 to 5: the parent is red. */
  method ResolveRedPair(tree: RbTree, node: Node, parent: Node, ghost path: Path, ghost t: Tree, ghost h: nat)
      returns (ghost t': Tree)
    requires At(tree, path, t) && RedPair(path, t, h) && t.node == node && path.node == parent
    modifies tree, PathNodes(path), Nodes(t)
    ensures Holds(tree, t', Inorder(Plug(path, t)))
    decreases path, 0
  {
    GrandparentIsBlack(path, h);
    var grand := parent.parent;
    ToParent(tree, path, t);
    SiblingIs(tree, path.up, Join(path.isLeft, t, parent, Red, path.other));
    var uncle := GetSibling(parent);
    // case 3: a red uncle, too
    if uncle != null && uncle.color == Red {
      RepaintedFits(path, t, h);
      PaintFamily(tree, parent, uncle, grand, path, t);
      t' := InsertionBalancing(tree, grand, path.up.up, Repainted(path, t), h + 1);
      return;
    }
    t' := RotateFamily(tree, node, parent, grand, path, t, h);
  }

  /** insertion_balancing, all five cases. */
  method InsertionBalancing(tree: RbTree, node: Node, ghost path: Path, ghost t: Tree, ghost h: nat)
      returns (ghost t': Tree)
    requires At(tree, path, t) && Reddened(path, t, h) && t.node == node
    modifies tree, PathNodes(path), Nodes(t)
    ensures Holds(tree, t', Inorder(Plug(path, t)))
    decreases path, 1
  {
    var parent := node.parent;
    // case 1: t is the whole tree
    if parent == null {
      Paint(tree, node, Black, path, t);
      t' := t.(color := Black);
      assert RB(t', h + 1);
      return;
    }
    // case 2: black above t
    Paint(tree, node, Red, path, t);
    ghost var red := t.(color := Red);
    SameOrder(path, t, red);
    if parent.color == Black {
      t' := Settle(tree, path, red, h);
      return;
    }
    GrandparentIsBlack(path, h);
    t' := ResolveRedPair(tree, node, parent, path, red, h);
  }

  method AttachAndBalance(tree: RbTree, node: Node, toInsert: Node, ghost t: Tree, ghost path: Path)
      returns (ghost t': Tree)
    requires Holds(tree, t, Inorder(t)) && node !in Nodes(t)
    requires At(tree, path, Leaf) && PlaceOf(t, node.key, path, Leaf) && toInsert == ParentNode(path)
    modifies tree, node, Nodes(t)
    ensures Holds(tree, t', Before(path) + [node] + After(path))
  {
    hide IsRB, Sorted;
    PlugNodes(path, Leaf);
    ghost var h := UnplugRB(path, Leaf);
    hide Holds;
    ghost var c := Attach(tree, node, toInsert, path);
    ghost var leafNode := Branch(Leaf, node, c, Leaf);
    InorderPlug(path, leafNode);
    assert Inorder(leafNode) == [node];
    hide Inorder;
    t' := InsertionBalancing(tree, node, path, leafNode, h);
  }

  /** rbtree_insert: a node with a new key is added in its place, one with a key already present changes
      nothing, and the tree stays a sorted red-black tree. */
  method Insert(tree: RbTree, node: Node, ghost t: Tree) returns (ghost t': Tree)
    requires Holds(tree, t, Inorder(t)) && Sorted(Inorder(t)) && node !in Nodes(t)
    modifies tree, node, Nodes(t)
    ensures Sorted(Inorder(t'))
    ensures if exists m | m in Inorder(t) :: m.key == node.key
            then t' == t && Holds(tree, t, Inorder(t)) && unchanged(tree) && unchanged(node)
            else Holds(tree, t', WithNode(Inorder(t), node))
  {
    if tree.root == null {
      t' := InsertFirst(tree, node);
      return;
    }
    assert allocated(Nodes(t));
    var r, path, sub := Find(tree, node.key, t);
    if r.toInsert == null {
      t' := t;
      DuplicateFound(tree, t, node.key, path, sub);
      return;
    }
    NewKey(t, node, path);
    t' := AttachAndBalance(tree, node, r.toInsert, t, path);
  }
}
