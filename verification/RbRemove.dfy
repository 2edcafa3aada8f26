/** rbtree_remove of libcoll/src/rbtree.c, as written: a node with two children is replaced by its
    successor, using the parent pointer that was read before the successor was taken out. */
module RbRemove {
  import opened RbShape
  import opened RedBlack
  import opened RbSearch
  import opened RbInsertion
  import opened RbRemoval

  /** s without n. */
  function Without(s: seq<Node>, n: Node): seq<Node>
  {
    if s == [] then [] else if s[0] == n then Without(s[1..], n) else [s[0]] + Without(s[1..], n)
  }

  lemma {:induction false} WithoutAbsent(s: seq<Node>, n: Node)
    requires n !in s
    ensures Without(s, n) == s
  {
    if s == [] {
    } else {
      WithoutAbsent(s[1..], n);
    }
  }

  lemma {:induction false} WithoutMiddle(a: seq<Node>, n: Node, b: seq<Node>)
    requires n !in a && n !in b
    ensures Without(a + [n] + b, n) == a + b
  {
    if a == [] {
      assert ([] + [n] + b)[1..] == b;
      WithoutAbsent(b, n);
    } else {
      assert (a + [n] + b)[1..] == a[1..] + [n] + b;
      WithoutMiddle(a[1..], n, b);
    }
  }

  lemma SortedParts(a: seq<Node>, n: Node, b: seq<Node>)
    requires Sorted(a + [n] + b)
    ensures n !in a && n !in b
    ensures Sorted(a + b)
  {
    var s := a + [n] + b;
    SplitSorted(a, n, b);
    forall i, j | 0 <= i < j < |a + b|
      ensures (a + b)[i].key < (a + b)[j].key
    {
      assert (a + b)[i] == s[if i < |a| then i else i + 1];
      assert (a + b)[j] == s[if j < |a| then j else j + 1];
    }
  }

  /** Taking this node out leaves the path one black node short. */
  predicate LeavesShort(t: Tree)
  {
    t.Branch? && t.left.Leaf? && t.right.Leaf? && t.color == Black
  }

  /** Taking the least node out of t makes it one black node shorter. */
  predicate RemovalShrinks(t: Tree)
    requires t.Branch?
  {
    if t.left.Leaf? then LeavesShort(t)
    else t.color == Black && !Rich(t.right) && RemovalShrinks(t.left)
  }

  /** The fix-up after the successor's removal rotates at the node itself, so that its parent changes:
      the successor's side comes up short and the other side has a red node to give. */
  predicate ParentGoesStale(t: Tree)
    requires t.Branch?
  {
    t.left.Branch? && t.right.Branch? && RemovalShrinks(t.right) && Rich(t.left)
  }

  /** The pointer does go stale: root 20 black, children 10 and 30 black, 5 red below 10; remove 20. */
  lemma StaleExample(n5: Node, n10: Node, n20: Node, n30: Node)
    requires n5.key == 5 && n10.key == 10 && n20.key == 20 && n30.key == 30
    ensures var left := Branch(Branch(Leaf, n5, Red, Leaf), n10, Black, Leaf);
            var t := Branch(left, n20, Black, Branch(Leaf, n30, Black, Leaf));
            IsRB(t) && Sorted(Inorder(t)) && ParentGoesStale(t)
  {
    var l, r := Branch(Branch(Leaf, n5, Red, Leaf), n10, Black, Leaf), Branch(Leaf, n30, Black, Leaf);
    assert RB(Branch(Leaf, n5, Red, Leaf), 0);
    assert RB(l, 1) && RB(r, 1);
    assert RB(Branch(l, n20, Black, r), 2);
    assert Inorder(Leaf) == [];
    assert Inorder(Branch(Leaf, n5, Red, Leaf)) == [n5];
    assert Inorder(l) == [n5, n10] && Inorder(r) == [n30];
    assert Inorder(Branch(l, n20, Black, r)) == [n5, n10] + [n20] + [n30];
  }

  // ---------- at most one child ----------

  function OnlyChild(t: Tree): Tree
    requires t.Branch?
  {
    if t.left.Branch? then t.left else t.right
  }

  lemma OnlyChildFits(path: Path, t: Tree) returns (h: nat)
    requires t.Branch? && (t.left.Leaf? || t.right.Leaf?) && IsRB(Plug(path, t))
    ensures OnlyChild(t).Branch? ==>
              RB(OnlyChild(t).(color := Black), h) && PathRB(path, Black, h)
    ensures OnlyChild(t).Leaf? && t.color == Red ==> h == 0 && PathRB(path, Black, 0)
    ensures LeavesShort(t) ==> Short(path, Leaf, 0)
  {
    h := UnplugRB(path, t);
    if t.color == Red {
      RedThenBlack(path, h);
    }
  }

  lemma OnlyOrder(t: Tree)
    requires t.Branch? && (t.left.Leaf? || t.right.Leaf?)
    ensures Inorder(if OnlyChild(t).Branch? then OnlyChild(t).(color := Black) else Leaf) ==
            Inorder(t.left) + Inorder(t.right)
  {
  }

  lemma Joined(a: seq<Node>, b: seq<Node>, c: seq<Node>, d: seq<Node>)
    ensures a + (b + c) + d == a + b + c + d
  {
  }

  lemma RestOrder(path: Path, t: Tree)
    requires t.Branch? && (t.left.Leaf? || t.right.Leaf?)
    ensures var rest := Before(path) + Inorder(t.left) + Inorder(t.right) + After(path);
            if OnlyChild(t).Branch? then Inorder(Plug(path, OnlyChild(t).(color := Black))) == rest
            else Inorder(Plug(path, Leaf)) == rest
  {
    OnlyOrder(t);
    hide Inorder, Before, After, Plug;
    InorderPlug(path, if OnlyChild(t).Branch? then OnlyChild(t).(color := Black) else Leaf);
    Joined(Before(path), Inorder(t.left), Inorder(t.right), After(path));
  }

  /** child->parent = parent; child->color = BLK */
  method LiftChild(tree: RbTree, child: Node, parent: Node?, ghost node: Node, ghost path: Path, ghost only: Tree)
    requires PathShape(tree, path, child) && Shape(only, node) && RootNode(only) == child && parent == ParentNode(path)
    requires PathDistinct(path) && Distinct(only) && PathNodes(path) !! Nodes(only)
    modifies child`parent, child`color
    ensures At(tree, path, only.(color := Black))
  {
    child.parent := parent;
    child.color := Black;
  }

  method LiftAndSettle(tree: RbTree, child: Node, parent: Node?, ghost path: Path, ghost t: Tree, ghost h: nat)
      returns (ghost t': Tree)
    requires t.Branch? && PathShape(tree, path, child) && Shape(OnlyChild(t), t.node)
    requires RootNode(OnlyChild(t)) == child && parent == ParentNode(path)
    requires PathDistinct(path) && Distinct(t) && PathNodes(path) !! Nodes(t)
    requires RB(OnlyChild(t).(color := Black), h) && PathRB(path, Black, h)
    modifies child`parent, child`color
    ensures t' == Plug(path, OnlyChild(t).(color := Black)) && Holds(tree, t', Inorder(t'))
  {
    LiftChild(tree, child, parent, t.node, path, OnlyChild(t));
    hide Holds, At, RB, PathRB;
    t' := Settle(tree, path, OnlyChild(t).(color := Black), h);
  }

  lemma NotBelow(path: Path, t: Tree, w: Node?)
    requires PathNodes(path) !! Nodes(t)
    ensures w != null && w in Spine(path) ==> w !in Nodes(t)
  {
    SpineInPath(path);
  }

  /** Once the node is out of the tree: its child, if any, turns black; otherwise a black node is missed. */
  method FinishRemoval(tree: RbTree, node: Node, child: Node?, sibling: Node?, ghost path: Path, ghost t: Tree,
                       ghost w: Node?)
      returns (ghost t': Tree)
    requires t.Branch? && t.node == node && (t.left.Leaf? || t.right.Leaf?) && IsRB(Plug(path, t))
    requires PathShape(tree, path, child) && Shape(OnlyChild(t), node) && child == RootNode(OnlyChild(t))
    requires PathDistinct(path) && Distinct(t) && PathNodes(path) !! Nodes(t)
    requires sibling == if path.Top? then null else RootNode(path.other)
    requires node.parent == ParentNode(path) && node.color == t.color
    requires w != null ==> w in Spine(path)
    modifies tree, PathNodes(path), Nodes(t) - {node}
    ensures Holds(tree, t', Before(path) + Inorder(t.left) + Inorder(t.right) + After(path))
    ensures w != null ==> if LeavesShort(t) then ParentMoved(path, w, old(w.parent)) else w.parent == old(w.parent)
  {
    hide Holds, ParentMoved;
    ghost var h := OnlyChildFits(path, t);
    RestOrder(path, t);
    NotBelow(path, t, w);
    // case 0: the child takes its place
    if child != null {
      t' := LiftAndSettle(tree, child, node.parent, path, t, h);
      return;
    }
    // case 0: a red leaf just goes
    if node.color == Red {
      t' := Settle(tree, path, Leaf, 0);
      return;
    }
    t' := RemovalBalancing(tree, sibling, path, Leaf, 0, w);
  }

  /** Replacing the node by its child in its parent, and finding the sibling. */
  method SpliceOut(tree: RbTree, node: Node, ghost path: Path, ghost t: Tree) returns (child: Node?, sibling: Node?)
    requires At(tree, path, t) && t.Branch? && t.node == node && (t.left.Leaf? || t.right.Leaf?)
    modifies tree`root, ParentSet(path)`left, ParentSet(path)`right
    ensures child == RootNode(OnlyChild(t)) && sibling == if path.Top? then null else RootNode(path.other)
    ensures PathShape(tree, path, child)
  {
    var parent := node.parent;
    child := if node.left != null then node.left else node.right;
    sibling := null;
    if parent != null {
      if parent.left == node {
        parent.left := child;
        sibling := parent.right;
      } else {
        parent.right := child;
        sibling := parent.left;
      }
    } else {
      tree.root := child;
    }
  }

  /** The branch of rbtree_remove for a node with at most one child; w is any node on the path. */
  method RemoveSimple(tree: RbTree, node: Node, ghost path: Path, ghost t: Tree, ghost w: Node?)
      returns (ghost t': Tree)
    requires At(tree, path, t) && t.Branch? && t.node == node && (t.left.Leaf? || t.right.Leaf?)
    requires IsRB(Plug(path, t))
    requires w != null ==> w in Spine(path)
    modifies tree, PathNodes(path), Nodes(t) - {node}
    ensures Holds(tree, t', Before(path) + Inorder(t.left) + Inorder(t.right) + After(path))
    ensures w != null ==> if LeavesShort(t) then ParentMoved(path, w, old(w.parent)) else w.parent == old(w.parent)
  {
    ghost var only := OnlyChild(t);
    assert allocated(Nodes(only)) && Shape(only, node);
    var child, sibling := SpliceOut(tree, node, path, t);
    t' := FinishRemoval(tree, node, child, sibling, path, t, w);
  }

  // ---------- two children ----------

  lemma {:induction false} WhereMinRotates(path: Path, t: Tree)
    requires t.Branch?
    ensures var rotated := RotatedNode(MinPath(path, t));
            if RemovalShrinks(t) then LeavesShort(MinSub(t)) && rotated == RotatedNode(path)
            else LeavesShort(MinSub(t)) ==> rotated == null || rotated in Nodes(t)
    decreases t
  {
    if t.left.Branch? {
      WhereMinRotates(Step(true, t.node, t.color, t.right, path), t.left);
    }
  }

  lemma StaleExactly(path: Path, t: Tree)
    requires t.Branch? && t.left.Branch? && t.right.Branch?
    requires PathDistinct(path) && Distinct(t) && PathNodes(path) !! Nodes(t)
    ensures var mpath := MinPath(Step(false, t.node, t.color, t.left, path), t.right);
            ParentGoesStale(t) <==> LeavesShort(MinSub(t.right)) && RotatedNode(mpath) == t.node
  {
    WhereMinRotates(Step(false, t.node, t.color, t.left, path), t.right);
    RotatedInSpine(path);
    SpineInPath(path);
  }

  /** Where n is in t. */
  lemma {:induction false} Locate(up: Path, t: Tree, n: Node) returns (path: Path, sub: Tree)
    requires n in Nodes(t)
    ensures Plug(path, sub) == Plug(up, t) && sub.Branch? && sub.node == n
    decreases t
  {
    if n == t.node {
      path, sub := up, t;
    } else if n in Nodes(t.left) {
      path, sub := Locate(Step(true, t.node, t.color, t.right, up), t.left, n);
    } else {
      path, sub := Locate(Step(false, t.node, t.color, t.left, up), t.right, n);
    }
  }

  lemma {:induction false} UnplugAt(tree: RbTree, path: Path, t: Tree)
    requires At(tree, Top, Plug(path, t))
    ensures At(tree, path, t)
    decreases path
  {
    if path.Top? {
    } else {
      var above := Join(path.isLeft, t, path.node, path.color, path.other);
      UnplugAt(tree, path.up, above);
      if path.isLeft {
        ToLeft(tree, path.up, above);
      } else {
        ToRight(tree, path.up, above);
      }
    }
  }

  function NodeSet(n: Node?): set<Node>
  {
    if n == null then {} else {n}
  }

  lemma {:induction false} RootOnSpine(tree: RbTree, path: Path, ref: Node?)
    requires PathShape(tree, path, ref)
    ensures if path.Top? then tree.root == ref else tree.root != null && tree.root in Spine(path)
    decreases path
  {
    if path.Top? {
    } else {
      RootOnSpine(tree, path.up, path.node);
    }
  }

  method LinkFromParent(tree: RbTree, node: Node, successor: Node, parent: Node?, ghost path: Path, ghost fits: bool)
    requires PathShape(tree, path, node) && PathDistinct(path)
    requires path.Step? && !path.isLeft ==> path.node.left != node
    requires fits ==> parent == ParentNode(path)
    modifies NodeSet(parent)`left, NodeSet(parent)`right
    ensures fits && path.Step? ==> PathShape(tree, path, successor)
  {
    if parent != null {
      if parent.left == node {
        parent.left := successor;
      } else {
        parent.right := successor;
      }
    }
  }

  /** A subtree's root gets another parent. */
  method Adopt(child: Node?, parent: Node, ghost t: Tree, ghost was: Node, ghost fits: bool)
    requires child == RootNode(t) && Distinct(t) && (fits ==> Shape(t, was))
    modifies RootSet(t)`parent
    ensures fits ==> Shape(t, parent)
  {
    if child != null {
      child.parent := parent;
    }
  }

  /** The successor takes over the node's links and colour, and the node's children. */
  method CopyLinks(node: Node, successor: Node, parent: Node?, ghost t: Tree, ghost fits: bool)
    requires t.Branch? && t.node == node && Distinct(t) && successor !in Nodes(t)
    requires node.left == RootNode(t.left) && node.right == RootNode(t.right)
    requires fits ==> Shape(t, parent)
    modifies successor, RootSet(t.left)`parent, RootSet(t.right)`parent
    ensures fits ==> Shape(t.(node := successor), parent)
  {
    successor.parent := parent;
    successor.left := node.left;
    successor.right := node.right;
    successor.color := node.color;
    assert allocated(Nodes(t.left)) && allocated(Nodes(t.right));
    Adopt(successor.left, successor, t.left, node, fits);
    Adopt(successor.right, successor, t.right, node, fits);
  }

  /** The stores that put the successor in the node's place.  They do so if `parent` is the node's parent;
      otherwise the node stays linked below its new parent. */
  method TakePlace(tree: RbTree, node: Node, successor: Node, parent: Node?, ghost path: Path, ghost t: Tree)
    requires At(tree, path, t) && t.Branch? && t.node == node && parent != node
    requires successor !in PathNodes(path) && successor !in Nodes(t)
    modifies tree`root, NodeSet(parent)`left, NodeSet(parent)`right, successor
    modifies RootSet(t.left)`parent, RootSet(t.right)`parent
    ensures parent == ParentNode(path) ==> At(tree, path, t.(node := successor))
  {
    ghost var fits := parent == ParentNode(path);
    assert allocated(Nodes(t)) && allocated(PathNodes(path));
    RootOnSpine(tree, path, node);
    SpineInPath(path);
    LinkFromParent(tree, node, successor, parent, path, fits);
    assert fits ==> Shape(t, parent);
    CopyLinks(node, successor, parent, t, fits);
    assert fits && path.Step? ==> PathShape(tree, path, successor);
    if tree.root == node {
      tree.root := successor;
    }
  }

  // ---------- rbtree_remove ----------

  lemma JoinedPairs(a: seq<Node>, b: seq<Node>, c: seq<Node>, d: seq<Node>)
    ensures (a + b) + (c + d) == a + b + c + d
  {
  }

  /** The nodes before and after t's root in the whole order. */
  function BeforeRoot(path: Path, t: Tree): seq<Node>
    requires t.Branch?
  {
    Before(path) + Inorder(t.left)
  }

  function AfterRoot(path: Path, t: Tree): seq<Node>
    requires t.Branch?
  {
    Inorder(t.right) + After(path)
  }

  lemma AroundNode(path: Path, t: Tree)
    requires t.Branch? && Sorted(Inorder(Plug(path, t)))
    ensures Inorder(Plug(path, t)) == BeforeRoot(path, t) + [t.node] + AfterRoot(path, t)
    ensures t.node !in BeforeRoot(path, t) && t.node !in AfterRoot(path, t)
    ensures Without(Inorder(Plug(path, t)), t.node) == BeforeRoot(path, t) + AfterRoot(path, t)
    ensures Sorted(BeforeRoot(path, t) + AfterRoot(path, t))
    ensures BeforeRoot(path, t) + AfterRoot(path, t) == Before(path) + Inorder(t.left) + Inorder(t.right) + After(path)
  {
    assert Inorder(t) == Inorder(t.left) + [t.node] + Inorder(t.right);
    hide Inorder, Before, After, Plug, Sorted, Without;
    InorderPlug(path, t);
    Regroup(Before(path), Inorder(t.left), t.node, Inorder(t.right), After(path));
    SortedParts(BeforeRoot(path, t), t.node, AfterRoot(path, t));
    WithoutMiddle(BeforeRoot(path, t), t.node, AfterRoot(path, t));
    JoinedPairs(Before(path), Inorder(t.left), Inorder(t.right), After(path));
  }

  lemma ParentInOrder(path: Path, sub: Tree)
    requires path.Step? && sub.Branch?
    ensures path.node in BeforeRoot(path, sub) || path.node in AfterRoot(path, sub)
  {
    if path.isLeft {
      assert After(path)[0] == path.node;
      assert path.node in After(path);
    } else {
      assert Before(path)[|Before(path)| - 1] == path.node;
      assert path.node in Before(path);
    }
  }

  lemma {:induction false} ChildrenInTree(u: Tree, parent: Node?, q: Node)
    requires Shape(u, parent) && q in Nodes(u)
    ensures q.left != null ==> q.left in Nodes(u)
    ensures q.right != null ==> q.right in Nodes(u)
  {
    if q == u.node {
    } else {
      if q in Nodes(u.left) {
        ChildrenInTree(u.left, u.node, q);
      } else {
        ChildrenInTree(u.right, u.node, q);
      }
    }
  }

  /** A node that still points to the removed one cannot be in a tree without it. */
  lemma StillLinked(tree: RbTree, u: Tree, node: Node, successor: Node, path: Path, sub: Tree)
    requires At(tree, Top, u) && path.Step? && sub.Branch? && sub.node == node && successor != node
    requires path.node.left == node || path.node.right == node
    requires path.node != node && path.node in PathNodes(path)
    requires node !in BeforeRoot(path, sub) && node !in AfterRoot(path, sub)
    ensures Inorder(u) != BeforeRoot(path, sub) + [successor] + AfterRoot(path, sub)
  {
    if Inorder(u) == BeforeRoot(path, sub) + [successor] + AfterRoot(path, sub) {
      ParentInOrder(path, sub);
      InorderNodes(u, path.node);
      ChildrenInTree(u, null, path.node);
      InorderNodes(u, node);
    }
  }

  lemma NoTreeLeft(tree: RbTree, node: Node, successor: Node, path: Path, sub: Tree)
    requires path.Step? && sub.Branch? && sub.node == node && successor != node
    requires path.node.left == node || path.node.right == node
    requires path.node != node
    requires node !in BeforeRoot(path, sub) && node !in AfterRoot(path, sub)
    ensures forall u :: At(tree, Top, u) ==> Inorder(u) != BeforeRoot(path, sub) + [successor] + AfterRoot(path, sub)
  {
    forall u | At(tree, Top, u)
      ensures Inorder(u) != BeforeRoot(path, sub) + [successor] + AfterRoot(path, sub)
    {
      StillLinked(tree, u, node, successor, path, sub);
    }
  }

  lemma SuccessorInPlace(tree: RbTree, successor: Node, path: Path, sub: Tree)
    requires sub.Branch? && IsRB(Plug(path, sub)) && At(tree, path, sub.(node := successor))
    ensures Holds(tree, Plug(path, sub.(node := successor)), BeforeRoot(path, sub) + [successor] + AfterRoot(path, sub))
  {
    var sub' := sub.(node := successor);
    var h := UnplugRB(path, sub);
    PlugRB(path, sub', h);
    PlugAt(tree, path, sub');
    InorderPlug(path, sub');
    Regroup(Before(path), Inorder(sub.left), successor, Inorder(sub.right), After(path));
  }

  lemma SuccessorFacts(path: Path, t: Tree, mpath: Path, msub: Tree)
    requires t.Branch? && t.right.Branch? && msub.Branch?
    requires Plug(mpath, msub) == Plug(path, t)
    ensures PathNodes(mpath) + Nodes(msub) == PathNodes(path) + Nodes(t)
    ensures Inorder(t.right)[0] in Nodes(t)
  {
    PlugNodes(mpath, msub);
    PlugNodes(path, t);
    InorderNodes(t.right, Inorder(t.right)[0]);
  }

  lemma InOldTree(path: Path, t: Tree, b: seq<Node>, a: seq<Node>, successor: Node, n: Node)
    requires t.Branch? && Inorder(Plug(path, t)) == b + [t.node] + ([successor] + a)
    requires n in b || n == t.node || n in a
    ensures n in PathNodes(path) + Nodes(t)
  {
    PlugNodes(path, t);
    InorderNodes(Plug(path, t), n);
  }

  lemma SameSides(b: seq<Node>, n: Node, a: seq<Node>, b': seq<Node>, a': seq<Node>)
    requires b + [n] + a == b' + [n] + a'
    requires n !in b && n !in b'
    ensures b == b' && a == a'
  {
    var s := b + [n] + a;
    assert s == b + ([n] + a) && s == b' + ([n] + a');
    assert s[|b|] == n && s[|b'|] == n;
    if |b| < |b'| || |b'| < |b| {
      assert false;
    } else {
      assert b == s[..|b|] && b' == s[..|b'|];
      assert a == s[|b| + 1..] && a' == s[|b'| + 1..];
    }
  }

  lemma NodesOfInorder(t: Tree)
    ensures Nodes(t) == set n | n in Inorder(t)
  {
    forall n: Node
      ensures n in Nodes(t) <==> n in Inorder(t)
    {
      InorderNodes(t, n);
    }
  }

  lemma FindAgain(t1: Tree, node: Node, successor: Node, b: seq<Node>, a: seq<Node>) returns (path1: Path, sub1: Tree)
    requires Inorder(t1) == b + [node] + a && Sorted(b + [node] + a)
    requires successor !in b && successor !in a && successor != node && node !in b && node !in a
    ensures Plug(path1, sub1) == t1 && RootNode(sub1) == node
    ensures BeforeRoot(path1, sub1) == b && AfterRoot(path1, sub1) == a
    ensures successor !in PathNodes(path1) && successor !in Nodes(sub1)
    ensures forall n | n in PathNodes(path1) + Nodes(sub1) :: n in b || n == node || n in a
  {
    NodesOfInorder(t1);
    assert node in Inorder(t1);
    path1, sub1 := Locate(Top, t1, node);
    AroundNode(path1, sub1);
    SameSides(b, node, a, BeforeRoot(path1, sub1), AfterRoot(path1, sub1));
    PlugNodes(path1, sub1);
  }

  /** Two ways to cut the same sequence. */
  lemma PulledApart(b: seq<Node>, m: Node, r: seq<Node>, n: Node, a: seq<Node>)
    requires b + [m] + r == (b + [m]) + [n] + a
    ensures r == [n] + a && b + r == b + [n] + a
  {
    var s := b + [m] + r;
    assert r == s[|b| + 1..];
    assert [n] + a == s[|b| + 1..];
  }

  /** The order around a node and its successor, before and after the successor is taken out. */
  lemma AroundSuccessor(path: Path, t: Tree, mpath: Path, msub: Tree)
    requires t.Branch? && msub.Branch? && msub.left.Leaf? && Sorted(Inorder(Plug(path, t)))
    requires Plug(mpath, msub) == Plug(path, t) && Before(mpath) == BeforeRoot(path, t) + [t.node]
    ensures var b, a := BeforeRoot(path, t), AfterRoot(mpath, msub);
            && Before(mpath) + Inorder(msub.left) + Inorder(msub.right) + After(mpath) == b + [t.node] + a
            && Sorted(b + [t.node] + a)
            && msub.node !in b && msub.node !in a && msub.node != t.node
            && t.node !in b && t.node !in a
            && Inorder(Plug(path, t)) == b + [t.node] + ([msub.node] + a)
            && Without(Inorder(Plug(path, t)), t.node) == b + [msub.node] + a
  {
    AroundNode(path, t);
    AroundNode(mpath, msub);
    var b, a := BeforeRoot(path, t), AfterRoot(mpath, msub);
    assert Before(mpath) + [] == b + [t.node];
    PulledApart(b, t.node, AfterRoot(path, t), msub.node, a);
    assert t.node in b + [t.node];
  }

  /** The place (path1, sub1) is where n is once its successor is gone: in the order `s` without n the successor
      takes n's position, and the nodes at the place are old ones. */
  ghost predicate Relocated(s: seq<Node>, n: Node, successor: Node, nodes: set<Node>, path1: Path, sub1: Tree)
  {
    && sub1.Branch? && sub1.node == n && successor != n
    && Without(s, n) == BeforeRoot(path1, sub1) + [successor] + AfterRoot(path1, sub1)
    && n !in BeforeRoot(path1, sub1) && n !in AfterRoot(path1, sub1)
    && successor !in PathNodes(path1) && successor !in Nodes(sub1)
    && PathNodes(path1) + Nodes(sub1) <= nodes
  }

  /** Where the node is once its successor is gone, from the order alone. */
  lemma Relocate(path: Path, t: Tree, mpath: Path, msub: Tree, t1: Tree) returns (path1: Path, sub1: Tree)
    requires t.Branch? && msub.Branch? && msub.left.Leaf? && Sorted(Inorder(Plug(path, t)))
    requires Plug(mpath, msub) == Plug(path, t) && Before(mpath) == Before(Step(false, t.node, t.color, t.left, path))
    requires Inorder(t1) == Before(mpath) + Inorder(msub.left) + Inorder(msub.right) + After(mpath)
    ensures Plug(path1, sub1) == t1
    ensures Relocated(Inorder(Plug(path, t)), t.node, msub.node, PathNodes(path) + Nodes(t), path1, sub1)
  {
    AroundSuccessor(path, t, mpath, msub);
    path1, sub1 := FindAgain(t1, t.node, msub.node, BeforeRoot(path, t), AfterRoot(mpath, msub));
    forall n | n in PathNodes(path1) + Nodes(sub1)
      ensures n in PathNodes(path) + Nodes(t)
    {
      InOldTree(path, t, BeforeRoot(path, t), AfterRoot(mpath, msub), msub.node, n);
    }
  }

  /** rbtree_remove(tree, successor): the successor has no left child, so this takes the simple branch.
      path1 and sub1 say where the node is afterwards. */
  method RemoveSuccessor(tree: RbTree, node: Node, ghost path: Path, ghost t: Tree)
      returns (successor: Node, ghost path1: Path, ghost sub1: Tree)
    requires At(tree, path, t) && RootNode(t) == node && t.left.Branch? && t.right.Branch?
    requires IsRB(Plug(path, t)) && Sorted(Inorder(Plug(path, t)))
    modifies tree, PathNodes(path), Nodes(t)
    ensures At(tree, path1, sub1) && RootNode(sub1) == node && IsRB(Plug(path1, sub1))
    ensures Without(Inorder(Plug(path, t)), node) == BeforeRoot(path1, sub1) + [successor] + AfterRoot(path1, sub1)
    ensures node !in BeforeRoot(path1, sub1) && node !in AfterRoot(path1, sub1) && successor != node
    ensures successor !in PathNodes(path1) && successor !in Nodes(sub1)
    ensures successor in Nodes(t)
    ensures PathNodes(path1) + Nodes(sub1) <= PathNodes(path) + Nodes(t)
    ensures if ParentGoesStale(t) then ParentNode(path1) != null && ParentNode(path1) != old(node.parent)
            else ParentNode(path1) == old(node.parent)
  {
    ghost var rpath := Step(false, node, t.color, t.left, path);
    ToRight(tree, path, t);
    StaleExactly(path, t);
    assert allocated(Nodes(t)) && allocated(PathNodes(path));
    ghost var mpath, msub;
    successor, mpath, msub := MinNode(tree, node.right, rpath, t.right);
    SuccessorFacts(path, t, mpath, msub);
    ghost var t1 := RemoveSimple(tree, successor, mpath, msub, node);
    path1, sub1 := Relocate(path, t, mpath, msub, t1);
    UnplugAt(tree, path1, sub1);
  }

  /** The successor takes the node's place, by the parent pointer read before. */
  method PutSuccessor(tree: RbTree, node: Node, successor: Node, parent: Node?, ghost path: Path, ghost t: Tree)
      returns (ghost t': Tree)
    requires At(tree, path, t) && RootNode(t) == node && IsRB(Plug(path, t)) && parent != node
    requires successor !in PathNodes(path) && successor !in Nodes(t) && successor != node
    requires node !in BeforeRoot(path, t) && node !in AfterRoot(path, t)
    requires parent != ParentNode(path) ==> path.Step?
    modifies tree, PathNodes(path), Nodes(t), successor, NodeSet(parent)
    ensures parent == ParentNode(path) ==> Holds(tree, t', BeforeRoot(path, t) + [successor] + AfterRoot(path, t))
    ensures parent != ParentNode(path) ==>
              forall u :: At(tree, Top, u) ==> Inorder(u) != BeforeRoot(path, t) + [successor] + AfterRoot(path, t)
  {
    hide Holds, Inorder, Before, After, BeforeRoot, AfterRoot, IsRB, Plug;
    assert path.Step? ==> path.node.left == node || path.node.right == node;
    assert path.Step? ==> path.node in PathNodes(path) && path.node != successor && path.node != node;
    TakePlace(tree, node, successor, parent, path, t);
    if parent != ParentNode(path) {
      NoTreeLeft(tree, node, successor, path, t);
      t' := Leaf;
    } else {
      t' := Plug(path, t.(node := successor));
      SuccessorInPlace(tree, successor, path, t);
    }
  }

  method RemoveTwo(tree: RbTree, node: Node, ghost path: Path, ghost t: Tree) returns (ghost t': Tree)
    requires At(tree, path, t) && RootNode(t) == node && t.left.Branch? && t.right.Branch?
    requires IsRB(Plug(path, t)) && Sorted(Inorder(Plug(path, t)))
    modifies tree, PathNodes(path), Nodes(t)
    ensures Sorted(Without(Inorder(Plug(path, t)), node))
    ensures !ParentGoesStale(t) ==> Holds(tree, t', Without(Inorder(Plug(path, t)), node))
    ensures ParentGoesStale(t) ==>
              forall u :: At(tree, Top, u) ==> Inorder(u) != Without(Inorder(Plug(path, t)), node)
  {
    AroundNode(path, t);
    hide Holds, Sorted, Inorder, Before, After, BeforeRoot, AfterRoot, Without, IsRB, Plug, ParentGoesStale;
    var parent := node.parent;
    var successor, path1, sub1 := RemoveSuccessor(tree, node, path, t);
    t' := PutSuccessor(tree, node, successor, parent, path1, sub1);
  }

  /** rbtree_remove takes out exactly the node and leaves a sorted red-black tree, unless the node has two
      children and its parent pointer goes stale; then no tree at all over the remaining nodes, in their
      order, hangs off the root. */
  method Remove(tree: RbTree, node: Node, ghost path: Path, ghost t: Tree) returns (ghost t': Tree)
    requires At(tree, path, t) && RootNode(t) == node
    requires IsRB(Plug(path, t)) && Sorted(Inorder(Plug(path, t)))
    modifies tree, PathNodes(path), Nodes(t)
    ensures Sorted(Without(Inorder(Plug(path, t)), node))
    ensures !ParentGoesStale(t) ==> Holds(tree, t', Without(Inorder(Plug(path, t)), node))
    ensures ParentGoesStale(t) ==>
              forall u :: At(tree, Top, u) ==> Inorder(u) != Without(Inorder(Plug(path, t)), node)
  {
    if node.left != null && node.right != null {
      t' := RemoveTwo(tree, node, path, t);
    } else {
      AroundNode(path, t);
      t' := RemoveSimple(tree, node, path, t, null);
    }
  }
}
