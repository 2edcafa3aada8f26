/** Searching and iterating: rbtree_find, rbtree_first and rbtree_next of libcoll/src/rbtree.c. */
module RbSearch {
  import opened RbShape
  import opened RedBlack

  ghost predicate AllBelow(s: seq<Node>, key: int)
  {
    forall n | n in s :: n.key < key
  }

  ghost predicate AllAbove(s: seq<Node>, key: int)
  {
    forall n | n in s :: n.key > key
  }

  function LastOf(s: seq<Node>): Node?
  {
    if s == [] then null else s[|s| - 1]
  }

  function FirstOf(s: seq<Node>): Node?
  {
    if s == [] then null else s[0]
  }

  /** In a sorted sequence around n, everything before it has a smaller key and everything after a greater. */
  lemma SplitSorted(before: seq<Node>, n: Node, after: seq<Node>)
    requires Sorted(before + [n] + after)
    ensures AllBelow(before, n.key) && AllAbove(after, n.key)
  {
    var s := before + [n] + after;
    assert s[|before|] == n;
    forall m | m in before
      ensures m.key < n.key
    {
      var i :| 0 <= i < |before| && before[i] == m;
      assert s[i] == m;
    }
    forall m | m in after
      ensures m.key > n.key
    {
      var i :| 0 <= i < |after| && after[i] == m;
      assert s[|before| + 1 + i] == m;
    }
  }

  /** The place in t where key is, or would be attached. */
  ghost predicate PlaceOf(t: Tree, key: int, path: Path, sub: Tree)
  {
    Plug(path, sub) == t && AllBelow(Before(path), key) && AllAbove(After(path), key)
  }

  lemma Regroup(b: seq<Node>, l: seq<Node>, n: Node, r: seq<Node>, a: seq<Node>)
    ensures b + (l + [n] + r) + a == (b + l) + [n] + (r + a)
  {
  }

  /** One step of the search keeps the place. */
  lemma Descend(t: Tree, key: int, path: Path, sub: Tree)
    requires Sorted(Inorder(t)) && PlaceOf(t, key, path, sub) && sub.Branch?
    ensures sub.node.key < key ==> PlaceOf(t, key, Step(false, sub.node, sub.color, sub.left, path), sub.right)
    ensures sub.node.key > key ==> PlaceOf(t, key, Step(true, sub.node, sub.color, sub.right, path), sub.left)
  {
    InorderPlug(path, sub);
    var l, n, r := Inorder(sub.left), sub.node, Inorder(sub.right);
    Regroup(Before(path), l, n, r, After(path));
    SplitSorted(Before(path) + l, n, r + After(path));
  }

  lemma SortedUnique(s: seq<Node>, m: Node, n: Node)
    requires Sorted(s) && m in s && n in s
    ensures m.key == n.key ==> m == n
  {
    var i :| 0 <= i < |s| && s[i] == m;
    var j :| 0 <= j < |s| && s[j] == n;
    if i < j {
      assert s[i].key < s[j].key;
    } else if j < i {
      assert s[j].key < s[i].key;
    }
  }

  lemma MatchIsUnique(t: Tree, path: Path, sub: Tree, m: Node)
    requires Sorted(Inorder(t)) && Plug(path, sub) == t && sub.Branch? && m in Inorder(t)
    ensures sub.node in Nodes(t)
    ensures m.key == sub.node.key ==> m == sub.node
  {
    InorderPlug(path, sub);
    InorderNodes(t, sub.node);
    assert sub.node in Inorder(sub);
    SortedUnique(Inorder(t), m, sub.node);
  }

  /** The order around an empty place. */
  lemma GapOrder(path: Path)
    ensures Inorder(Plug(path, Leaf)) == Before(path) + After(path)
  {
    InorderPlug(path, Leaf);
    assert Before(path) + [] + After(path) == Before(path) + After(path);
  }

  lemma EndsInTree(t: Tree, before: seq<Node>, after: seq<Node>)
    requires Inorder(t) == before + after
    ensures before != [] ==> LastOf(before) in Nodes(t)
    ensures after != [] ==> FirstOf(after) in Nodes(t)
  {
    if before != [] {
      InorderNodes(t, before[|before| - 1]);
    }
    if after != [] {
      InorderNodes(t, after[0]);
    }
  }

  lemma BracketGap(before: seq<Node>, after: seq<Node>, key: int, m: Node)
    requires Sorted(before + after) && AllBelow(before, key) && AllAbove(after, key)
    requires m in before + after
    ensures m.key != key
    ensures m.key < key ==> before != [] && m.key <= before[|before| - 1].key
    ensures m.key > key ==> after != [] && m.key >= after[0].key
  {
    var s := before + after;
    var i :| 0 <= i < |s| && s[i] == m;
    if i < |before| {
      assert s[|before| - 1] == before[|before| - 1] && s[i] == before[i];
    } else {
      assert s[|before|] == after[0] && s[i] == after[i - |before|];
    }
  }

  /** lower is the greatest node not above the key, upper the least not below it; they are the match, twice,
      exactly when there is one, and otherwise neighbours around the gap. */
  lemma FindBrackets(t: Tree, key: int, path: Path, sub: Tree, m: Node)
    requires Sorted(Inorder(t)) && PlaceOf(t, key, path, sub)
    requires sub.Branch? ==> sub.node.key == key
    requires m in Nodes(t)
    ensures var lower := if sub.Branch? then sub.node else LastOf(Before(path));
            var upper := if sub.Branch? then sub.node else FirstOf(After(path));
            && (m.key <= key ==> lower != null && m.key <= lower.key <= key && lower in Nodes(t))
            && (m.key >= key ==> upper != null && m.key >= upper.key >= key && upper in Nodes(t))
            && (m.key == key ==> sub.Branch? && m == sub.node)
  {
    InorderPlug(path, sub);
    InorderNodes(t, m);
    if sub.Branch? {
      MatchIsUnique(t, path, sub, m);
    } else {
      GapOrder(path);
      BracketGap(Before(path), After(path), key, m);
      EndsInTree(t, Before(path), After(path));
    }
  }

  datatype FindResult = FindResult(lower: Node?, upper: Node?, toInsert: Node?)

  /** rbtree_find.  The ghost results name the place the search stopped at: the matching node, or the
      empty place below toInsert. */
  method Find(tree: RbTree, key: int, ghost t: Tree) returns (result: FindResult, ghost path: Path, ghost sub: Tree)
    requires At(tree, Top, t) && Sorted(Inorder(t))
    ensures At(tree, path, sub) && PlaceOf(t, key, path, sub)
    ensures sub.Branch? ==> sub.node.key == key && result == FindResult(sub.node, sub.node, null)
    ensures sub.Leaf? ==> result == FindResult(LastOf(Before(path)), FirstOf(After(path)), ParentNode(path))
  {
    result := FindResult(null, null, null);
    var next := tree.root;
    var node: Node? := null;
    path, sub := Top, t;
    while true
      invariant At(tree, path, sub) && PlaceOf(t, key, path, sub)
      invariant next == RootNode(sub) && node == ParentNode(path)
      invariant result == FindResult(LastOf(Before(path)), FirstOf(After(path)), null)
      decreases sub
    {
      if next == null {
        result := result.(toInsert := node);
        return;
      }
      node := next;
      Descend(t, key, path, sub);
      if node.key < key {
        ToRight(tree, path, sub);
        result := result.(lower := node);
        next := node.right;
        path, sub := Step(false, node, sub.color, sub.left, path), sub.right;
      } else if node.key > key {
        ToLeft(tree, path, sub);
        result := result.(upper := node);
        next := node.left;
        path, sub := Step(true, node, sub.color, sub.right, path), sub.left;
      } else {
        result := result.(lower := node, upper := node);
        return;
      }
    }
  }

  // ---------- the attach point is the only one ----------

  /** The path to the k-th gap of t, below `up`. */
  function GapPath(t: Tree, k: nat, up: Path): Path
  {
    match t
    case Leaf => up
    case Branch(l, n, c, r) =>
      if k <= |Inorder(l)| then GapPath(l, k, Step(true, n, c, r, up))
      else GapPath(r, k - |Inorder(l)| - 1, Step(false, n, c, l, up))
  }

  lemma {:induction false} GapPathOf(path: Path, t: Tree, k: nat)
    requires k <= |Inorder(t)|
    ensures GapPath(Plug(path, t), |Before(path)| + k, Top) == GapPath(t, k, path)
    decreases path
  {
    if path.Top? {
    } else {
      var whole := Join(path.isLeft, t, path.node, path.color, path.other);
      GapPathOf(path.up, whole, if path.isLeft then k else |Inorder(path.other)| + 1 + k);
    }
  }

  lemma InFirst(b: seq<Node>, a: seq<Node>, i: nat)
    requires i < |b|
    ensures (b + a)[i] in b
  {
    assert (b + a)[i] == b[i];
  }

  lemma InSecond(b: seq<Node>, a: seq<Node>, i: nat)
    requires |b| <= i < |b| + |a|
    ensures (b + a)[i] in a
  {
    assert (b + a)[i] == a[i - |b|];
  }

  lemma SameSplit(b: seq<Node>, a: seq<Node>, b': seq<Node>, a': seq<Node>, key: int)
    requires b + a == b' + a'
    requires AllBelow(b, key) && AllAbove(a, key) && AllBelow(b', key) && AllAbove(a', key)
    ensures |b| == |b'|
  {
    if |b| < |b'| {
      InSecond(b, a, |b|);
      InFirst(b', a', |b|);
    } else if |b'| < |b| {
      InSecond(b', a', |b'|);
      InFirst(b, a, |b'|);
    }
  }

  /** Attaching a node anywhere else leaves the tree unsorted: rbtree_find names the only place. */
  lemma OnlyAttachPoint(t: Tree, x: Node, path: Path, other: Path)
    requires Sorted(Inorder(t)) && PlaceOf(t, x.key, path, Leaf)
    requires Plug(other, Leaf) == t
    requires Sorted(Before(other) + [x] + After(other))
    ensures other == path
  {
    GapOrder(path);
    GapOrder(other);
    SplitSorted(Before(other), x, After(other));
    SameSplit(Before(path), After(path), Before(other), After(other), x.key);
    GapPathOf(path, Leaf, 0);
    GapPathOf(other, Leaf, 0);
  }

  // ---------- iteration ----------

  /** get_min_node: the first node of the subtree. */
  method MinNode(tree: RbTree, start: Node, ghost path: Path, ghost t: Tree)
      returns (node: Node, ghost mpath: Path, ghost mtree: Tree)
    requires At(tree, path, t) && t.Branch? && t.node == start
    ensures At(tree, mpath, mtree) && Plug(mpath, mtree) == Plug(path, t)
    ensures mpath == MinPath(path, t) && mtree == MinSub(t)
    ensures mtree.Branch? && mtree.left.Leaf? && mtree.node == node == Inorder(t)[0]
    ensures Before(mpath) == Before(path)
    ensures Spine(path) <= Spine(mpath)
  {
    node, mpath, mtree := start, path, t;
    while node.left != null
      invariant At(tree, mpath, mtree) && Plug(mpath, mtree) == Plug(path, t)
      invariant mtree.Branch? && mtree.node == node && Inorder(mtree)[0] == Inorder(t)[0]
      invariant MinPath(mpath, mtree) == MinPath(path, t) && MinSub(mtree) == MinSub(t)
      invariant Before(mpath) == Before(path)
      invariant Spine(path) <= Spine(mpath)
      decreases mtree
    {
      ToLeft(tree, mpath, mtree);
      node := node.left;
      mpath, mtree := Step(true, mtree.node, mtree.color, mtree.right, mpath), mtree.left;
    }
  }

  /** rbtree_first: the first node in key order, NULL for an empty tree. */
  method First(tree: RbTree, ghost t: Tree) returns (node: Node?, ghost path: Path, ghost sub: Tree)
    requires At(tree, Top, t)
    ensures node == FirstOf(Inorder(t))
    ensures node != null ==> At(tree, path, sub) && Plug(path, sub) == t && RootNode(sub) == node
                             && Before(path) == [] && sub.left.Leaf?
  {
    path, sub := Top, t;
    if tree.root == null {
      return null, path, sub;
    }
    node, path, sub := MinNode(tree, tree.root, Top, t);
  }

  lemma OrderAbove(path: Path, t: Tree)
    requires path.Step?
    ensures var above := Join(path.isLeft, t, path.node, path.color, path.other);
            && Plug(path.up, above) == Plug(path, t)
            && (!path.isLeft ==> Before(path.up) + Inorder(above) == Before(path) + Inorder(t))
            && (!path.isLeft ==> After(path.up) == After(path))
            && (path.isLeft ==> Before(path.up) == Before(path) && After(path)[0] == path.node)
  {
    if !path.isLeft {
      assert Before(path.up) + (Inorder(path.other) + [path.node] + Inorder(t)) == Before(path) + Inorder(t);
    }
  }

  /** The loop of rbtree_next: up to the first node reached from its left child. */
  method Climb(tree: RbTree, start: Node, ghost path: Path, ghost sub: Tree)
      returns (node: Node?, ghost npath: Path, ghost nsub: Tree)
    requires At(tree, path, sub) && RootNode(sub) == start
    ensures node == FirstOf(After(path))
    ensures node != null ==>
              && At(tree, npath, nsub) && Plug(npath, nsub) == Plug(path, sub) && RootNode(nsub) == node
              && Before(npath) + Inorder(nsub.left) == Before(path) + Inorder(sub)
  {
    npath, nsub := path, sub;
    var cur: Node := start;
    while true
      invariant At(tree, npath, nsub) && Plug(npath, nsub) == Plug(path, sub) && RootNode(nsub) == cur
      invariant After(npath) == After(path)
      invariant Before(npath) + Inorder(nsub) == Before(path) + Inorder(sub)
      decreases npath
    {
      node := cur.parent;
      if node == null {
        return;
      }
      WhichChild(tree, npath, nsub);
      ToParent(tree, npath, nsub);
      OrderAbove(npath, nsub);
      npath, nsub := npath.up, Join(npath.isLeft, nsub, npath.node, npath.color, npath.other);
      if node.left == cur {
        return;
      }
      cur := node;
    }
  }

  /** rbtree_next: the node that follows in key order, NULL after the last. */
  method Next(tree: RbTree, start: Node, ghost path: Path, ghost sub: Tree)
      returns (node: Node?, ghost npath: Path, ghost nsub: Tree)
    requires At(tree, path, sub) && RootNode(sub) == start
    ensures node == FirstOf(Inorder(sub.right) + After(path))
    ensures node != null ==>
              && At(tree, npath, nsub) && Plug(npath, nsub) == Plug(path, sub) && RootNode(nsub) == node
              && Before(npath) + Inorder(nsub.left) == Before(path) + Inorder(sub.left) + [start]
  {
    if start.right != null {
      ToRight(tree, path, sub);
      node, npath, nsub := MinNode(tree, start.right, Step(false, start, sub.color, sub.left, path), sub.right);
      return;
    }
    assert Inorder(sub) == Inorder(sub.left) + [start];
    assert Inorder(sub.right) + After(path) == After(path);
    node, npath, nsub := Climb(tree, start, path, sub);
    assert Before(path) + Inorder(sub) == Before(path) + Inorder(sub.left) + [start];
  }

  /** node sits at the end of path, and the nodes before it have been visited. */
  ghost predicate Visiting(tree: RbTree, t: Tree, node: Node, path: Path, sub: Tree, visited: seq<Node>)
    reads tree, PathNodes(path), Nodes(sub)
  {
    && At(tree, path, sub) && Plug(path, sub) == t && RootNode(sub) == node
    && visited == Before(path) + Inorder(sub.left)
  }

  lemma VisitNext(t: Tree, path: Path, sub: Tree, visited: seq<Node>)
    requires Plug(path, sub) == t && sub.Branch? && visited == Before(path) + Inorder(sub.left)
    ensures Inorder(t) == visited + [sub.node] + (Inorder(sub.right) + After(path))
    ensures |visited| < |Inorder(t)|
  {
    InorderPlug(path, sub);
    Regroup(Before(path), Inorder(sub.left), sub.node, Inorder(sub.right), After(path));
  }

  /** Walking from the first node by rbtree_next visits every node once, in ascending key order. */
  method Walk(tree: RbTree, ghost t: Tree) returns (visited: seq<Node>)
    requires At(tree, Top, t)
    ensures visited == Inorder(t)
  {
    visited := [];
    var node, path, sub := First(tree, t);
    if node != null {
      InorderPlug(path, sub);
    }
    while node != null
      invariant node != null ==> Visiting(tree, t, node, path, sub, visited)
      invariant node == null ==> visited == Inorder(t)
      decreases |Inorder(t)| - |visited|, node != null
    {
      VisitNext(t, path, sub, visited);
      visited := visited + [node];
      node, path, sub := Next(tree, node, path, sub);
    }
  }
}
