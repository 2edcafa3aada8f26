/** Ghost trees over the nodes of libcoll/src/rbtree.c, the path back to the root, and the red-black and
    ordering properties of both.

    A Tree is what hangs off one node; a Path is everything else, from the parent of that place up to the
    root.  Plug puts the two back together.  Fix-ups walk up the path, so their invariants speak about a
    tree and a path rather than about the whole tree. */
module RbShape {
  import opened Powers

  datatype Color = Red | Black

  class Node {
    var parent: Node?
    var left: Node?
    var right: Node?
    var color: Color
    const key: int

    constructor (key: int)
      ensures this.key == key
    {
      this.key := key;
      parent, left, right, color := null, null, null, Red;
    }
  }

  datatype Tree = Leaf | Branch(left: Tree, node: Node, color: Color, right: Tree)

  /** Step(isLeft, n, c, other, up): the place is the left (or right) child of n, whose other subtree is
      `other` and whose own place is given by up. */
  datatype Path = Top | Step(isLeft: bool, node: Node, color: Color, other: Tree, up: Path)

  /** The tree at n when the place below it holds t. */
  function Join(isLeft: bool, t: Tree, n: Node, c: Color, other: Tree): Tree
  {
    if isLeft then Branch(t, n, c, other) else Branch(other, n, c, t)
  }

  function Plug(path: Path, t: Tree): Tree
    decreases path
  {
    match path
    case Top => t
    case Step(isLeft, n, c, other, up) => Plug(up, Join(isLeft, t, n, c, other))
  }

  function Nodes(t: Tree): set<Node>
  {
    match t
    case Leaf => {}
    case Branch(l, n, _, r) => Nodes(l) + {n} + Nodes(r)
  }

  function PathNodes(path: Path): set<Node>
  {
    match path
    case Top => {}
    case Step(_, n, _, other, up) => {n} + Nodes(other) + PathNodes(up)
  }

  /** The nodes the path goes through. */
  function Spine(path: Path): set<Node>
  {
    match path
    case Top => {}
    case Step(_, n, _, _, up) => {n} + Spine(up)
  }

  function ParentNode(path: Path): Node?
  {
    match path
    case Top => null
    case Step(_, n, _, _, _) => n
  }

  function RootNode(t: Tree): Node?
  {
    match t
    case Leaf => null
    case Branch(_, n, _, _) => n
  }

  function RootSet(t: Tree): (s: set<Node>)
    ensures s <= Nodes(t)
  {
    match t
    case Leaf => {}
    case Branch(_, n, _, _) => {n}
  }

  function ParentSet(path: Path): (s: set<Node>)
    ensures s <= PathNodes(path)
  {
    match path
    case Top => {}
    case Step(_, n, _, _, _) => {n}
  }

  /** No node occurs twice. */
  ghost predicate Distinct(t: Tree)
  {
    match t
    case Leaf => true
    case Branch(l, n, _, r) =>
      n !in Nodes(l) && n !in Nodes(r) && Nodes(l) !! Nodes(r) && Distinct(l) && Distinct(r)
  }

  ghost predicate PathDistinct(path: Path)
  {
    match path
    case Top => true
    case Step(_, n, _, other, up) =>
      && n !in Nodes(other) && n !in PathNodes(up) && Nodes(other) !! PathNodes(up)
      && Distinct(other) && PathDistinct(up)
  }

  // ---------- rotations ----------

  function RotatedLeft(t: Tree): Tree
    requires t.Branch? && t.right.Branch?
  {
    Branch(Branch(t.left, t.node, t.color, t.right.left), t.right.node, t.right.color, t.right.right)
  }

  function RotatedRight(t: Tree): Tree
    requires t.Branch? && t.left.Branch?
  {
    Branch(t.left.left, t.left.node, t.left.color, Branch(t.left.right, t.node, t.color, t.right))
  }

  // ---------- order ----------

  function Inorder(t: Tree): seq<Node>
  {
    match t
    case Leaf => []
    case Branch(l, n, _, r) => Inorder(l) + [n] + Inorder(r)
  }

  /** The nodes that come before, and after, the place the path leads to. */
  function Before(path: Path): seq<Node>
  {
    match path
    case Top => []
    case Step(isLeft, n, _, other, up) => if isLeft then Before(up) else Before(up) + Inorder(other) + [n]
  }

  function After(path: Path): seq<Node>
  {
    match path
    case Top => []
    case Step(isLeft, n, _, other, up) => if isLeft then [n] + Inorder(other) + After(up) else After(up)
  }

  ghost predicate Sorted(s: seq<Node>)
  {
    forall i, j | 0 <= i < j < |s| :: s[i].key < s[j].key
  }

  lemma Regrouped(a: seq<Node>, b: seq<Node>, c: seq<Node>, d: seq<Node>, e: seq<Node>)
    ensures a + (b + c + d) + e == a + b + (c + d + e) == (a + b + c) + d + e
  {
  }

  lemma {:induction false} InorderPlug(path: Path, t: Tree)
    ensures Inorder(Plug(path, t)) == Before(path) + Inorder(t) + After(path)
    decreases path
  {
    match path
    case Top =>
    case Step(isLeft, n, c, other, up) =>
      InorderPlug(up, Join(isLeft, t, n, c, other));
      if isLeft {
        Regrouped(Before(up), Inorder(t), [n], Inorder(other), After(up));
      } else {
        Regrouped(Before(up), Inorder(other), [n], Inorder(t), After(up));
      }
  }

  lemma {:induction false} InorderNodes(t: Tree, n: Node)
    ensures n in Inorder(t) <==> n in Nodes(t)
  {
    match t
    case Leaf =>
    case Branch(l, m, _, r) =>
      InorderNodes(l, n);
      InorderNodes(r, n);
  }

  // ---------- red-black ----------

  predicate IsBlack(t: Tree)
  {
    t.Leaf? || t.color == Black
  }

  /** t has no red node with a red child, and h black nodes on every way down. */
  ghost predicate RB(t: Tree, h: nat)
  {
    match t
    case Leaf => h == 0
    case Branch(l, _, Red, r) => IsBlack(l) && IsBlack(r) && RB(l, h) && RB(r, h)
    case Branch(l, _, Black, r) => h > 0 && RB(l, h - 1) && RB(r, h - 1)
  }

  /** Putting a red-black tree of black height h there, with a root of colour c, makes the whole tree
      red-black with a black root. */
  ghost predicate PathRB(path: Path, c: Color, h: nat)
    decreases path
  {
    match path
    case Top => c == Black
    case Step(_, _, nc, other, up) =>
      && RB(other, h)
      && (nc == Red ==> c == Black && IsBlack(other))
      && PathRB(up, nc, if nc == Black then h + 1 else h)
  }

  /** A red-black tree with a black root. */
  ghost predicate IsRB(t: Tree)
  {
    IsBlack(t) && exists h: nat :: RB(t, h)
  }

  function ColorOf(t: Tree): Color
  {
    if IsBlack(t) then Black else Red
  }

  lemma {:induction false} PlugRB(path: Path, t: Tree, h: nat)
    requires RB(t, h) && PathRB(path, ColorOf(t), h)
    ensures IsRB(Plug(path, t))
    decreases path
  {
    match path
    case Top =>
    case Step(isLeft, n, c, other, up) =>
      PlugRB(up, Join(isLeft, t, n, c, other), if c == Black then h + 1 else h);
  }

  lemma {:induction false} UnplugRB(path: Path, t: Tree) returns (h: nat)
    requires IsRB(Plug(path, t))
    ensures RB(t, h) && PathRB(path, ColorOf(t), h)
    decreases path
  {
    match path
    case Top =>
      h :| RB(t, h);
    case Step(isLeft, n, c, other, up) =>
      var hn := UnplugRB(up, Join(isLeft, t, n, c, other));
      h := if c == Black then hn - 1 else hn;
  }

  /** Where a red root fits, a black one does. */
  lemma RedThenBlack(path: Path, h: nat)
    requires PathRB(path, Red, h)
    ensures PathRB(path, Black, h)
  {
  }

  // ---------- heap ----------

  /** In the heap, t hangs below parent. */
  ghost predicate Shape(t: Tree, parent: Node?)
    reads Nodes(t)
  {
    match t
    case Leaf => true
    case Branch(l, n, c, r) =>
      && n.parent == parent && n.color == c && n.left == RootNode(l) && n.right == RootNode(r)
      && Shape(l, n) && Shape(r, n)
  }

  // ---------- the least node ----------

  /** Where the least node of t is, for t at the end of path, and the tree at that place. */
  function MinPath(path: Path, t: Tree): Path
    requires t.Branch?
    decreases t
  {
    if t.left.Leaf? then path else MinPath(Step(true, t.node, t.color, t.right, path), t.left)
  }

  function MinSub(t: Tree): Tree
    requires t.Branch?
  {
    if t.left.Leaf? then t else MinSub(t.left)
  }

  // ---------- height ----------

  function Height(t: Tree): nat
  {
    match t
    case Leaf => 0
    case Branch(l, _, _, r) => 1 + if Height(l) < Height(r) then Height(r) else Height(l)
  }

  lemma {:induction false} BlackHeightBounds(t: Tree, h: nat)
    requires RB(t, h)
    ensures Height(t) <= 2 * h + if IsBlack(t) then 0 else 1
    ensures Pow2(h) <= |Inorder(t)| + 1
  {
    match t
    case Leaf =>
    case Branch(l, _, c, r) =>
      var below := if c == Red then h else h - 1;
      BlackHeightBounds(l, below);
      BlackHeightBounds(r, below);
  }

  /** A red-black tree of n nodes is at most 2 * log2(n + 1) high. */
  lemma HeightBound(t: Tree)
    requires IsRB(t)
    ensures Pow2(Height(t)) <= (|Inorder(t)| + 1) * (|Inorder(t)| + 1)
  {
    var h: nat :| RB(t, h);
    BlackHeightBounds(t, h);
    Pow2Add(h, h);
    Pow2Monotone(Height(t), 2 * h);
    var p, n := Pow2(h), |Inorder(t)| + 1;
    MulMonotone(p, n, p);
    MulMonotone(p, n, n);
  }
}
