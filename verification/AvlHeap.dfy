// The nodes of Trees/AVLTree.c on the heap: the recursive insert and delete, with their
// rotations in place, refine the functions of AvlTree.dfy.

module AvlHeap {
  import opened AvlTree
  import T = AvlTree

  class Node {
    var val: int
    var height: int
    var leftChild: Node?
    var rightChild: Node?

    /** `newNode` */
    constructor (val: int)
      ensures this.val == val && height == 1 && leftChild == null && rightChild == null
    {
      this.val, height, leftChild, rightChild := val, 1, null, null;
    }
  }

  /** Which nodes hold a tree. */
  datatype Shape = Empty | At(node: Node, left: Shape, right: Shape)

  ghost function Nodes(s: Shape): set<Node> {
    if s.Empty? then {} else Nodes(s.left) + {s.node} + Nodes(s.right)
  }

  /** The nodes of s, reached from n, hold the tree t; no node is shared. */
  ghost predicate Is(n: Node?, s: Shape, t: Tree)
    reads Nodes(s)
    decreases s
  {
    match s
    case Empty => n == null && t == Leaf
    case At(m, sl, sr) =>
      && n == m && t.Node? && m !in Nodes(sl) && m !in Nodes(sr) && Nodes(sl) !! Nodes(sr)
      && m.val == t.val && m.height == t.height
      && Is(m.leftChild, sl, t.left) && Is(m.rightChild, sr, t.right)
  }

  function GetHeight(n: Node?): int
    reads n
  {
    if n == null then 0 else n.height
  }

  function GetBalance(n: Node?): int
    reads n, if n == null then {} else {n.leftChild, n.rightChild}
  {
    if n == null then 0 else GetHeight(n.leftChild) - GetHeight(n.rightChild)
  }

  /** The recomputed height of a node whose children hold l and r. */
  method FixHeight(n: Node, ghost s: Shape, ghost v: int, ghost l: Tree, ghost r: Tree)
    requires s.At? && n == s.node && n !in Nodes(s.left) && n !in Nodes(s.right) && Nodes(s.left) !! Nodes(s.right)
    requires n.val == v && Is(n.leftChild, s.left, l) && Is(n.rightChild, s.right, r)
    modifies n`height
    ensures Is(n, s, Made(v, l, r))
  {
    n.height := Max(GetHeight(n.leftChild), GetHeight(n.rightChild)) + 1;
  }

  method RotateRight(y: Node, ghost s: Shape, ghost t: Tree) returns (x: Node, ghost s': Shape)
    requires Is(y, s, t) && t.left.Node?
    modifies Nodes(s)
    ensures Is(x, s', T.RotateRight(t)) && Nodes(s') == Nodes(s)
  {
    x := y.leftChild;
    var t2 := x.rightChild;
    ghost var lower := At(y, s.left.right, s.right);
    s' := At(x, s.left.left, lower);
    assert Is(x, s.left, t.left) && Is(t2, s.left.right, t.left.right);
    assert x !in Nodes(s.right) && y !in Nodes(s.left);
    x.rightChild := y;
    y.leftChild := t2;
    assert y !in Nodes(s.left.right) && y !in Nodes(s.left.left);
    assert Is(t2, s.left.right, t.left.right) && Is(y.rightChild, s.right, t.right);
    assert Is(x.leftChild, s.left.left, t.left.left);
    assert allocated(Nodes(s.left.left));
    FixHeight(y, lower, t.val, t.left.right, t.right);
    assert Is(x.leftChild, s.left.left, t.left.left);
    FixHeight(x, s', t.left.val, t.left.left, Made(t.val, t.left.right, t.right));
  }

  method RotateLeft(x: Node, ghost s: Shape, ghost t: Tree) returns (y: Node, ghost s': Shape)
    requires Is(x, s, t) && t.right.Node?
    modifies Nodes(s)
    ensures Is(y, s', T.RotateLeft(t)) && Nodes(s') == Nodes(s)
  {
    y := x.rightChild;
    var t2 := y.leftChild;
    ghost var lower := At(x, s.left, s.right.left);
    s' := At(y, lower, s.right.right);
    assert Is(y, s.right, t.right) && Is(t2, s.right.left, t.right.left);
    assert y !in Nodes(s.left) && x !in Nodes(s.right);
    y.leftChild := x;
    x.rightChild := t2;
    assert x !in Nodes(s.right.left) && x !in Nodes(s.right.right);
    assert Is(t2, s.right.left, t.right.left) && Is(x.leftChild, s.left, t.left);
    assert Is(y.rightChild, s.right.right, t.right.right);
    assert allocated(Nodes(s.right.right));
    FixHeight(x, lower, t.val, t.left, t.right.left);
    assert Is(y.rightChild, s.right.right, t.right.right);
    FixHeight(y, s', t.right.val, Made(t.val, t.left, t.right.left), t.right.right);
  }

  /** The double rotation: first the left child, then the root. */
  method RotateLeftRight(root: Node, ghost s: Shape, ghost t: Tree) returns (r: Node, ghost s': Shape)
    requires Is(root, s, t) && t.left.Node? && t.left.right.Node?
    modifies Nodes(s)
    ensures Is(r, s', T.RotateRight(Made(t.val, T.RotateLeft(t.left), t.right))) && Nodes(s') == Nodes(s)
  {
    var child; ghost var sl;
    assert allocated(Nodes(s.right));
    child, sl := RotateLeft(root.leftChild, s.left, t.left);
    assert Is(root.rightChild, s.right, t.right);
    root.leftChild := child;
    assert Is(root.leftChild, sl, T.RotateLeft(t.left)) && Is(root.rightChild, s.right, t.right);
    r, s' := RotateRight(root, At(root, sl, s.right), t.(left := T.RotateLeft(t.left)));
  }

  method RotateRightLeft(root: Node, ghost s: Shape, ghost t: Tree) returns (r: Node, ghost s': Shape)
    requires Is(root, s, t) && t.right.Node? && t.right.left.Node?
    modifies Nodes(s)
    ensures Is(r, s', T.RotateLeft(Made(t.val, t.left, T.RotateRight(t.right)))) && Nodes(s') == Nodes(s)
  {
    var child; ghost var sr;
    assert allocated(Nodes(s.left));
    child, sr := RotateRight(root.rightChild, s.right, t.right);
    assert Is(root.leftChild, s.left, t.left);
    root.rightChild := child;
    assert Is(root.rightChild, sr, T.RotateRight(t.right)) && Is(root.leftChild, s.left, t.left);
    r, s' := RotateLeft(root, At(root, s.left, sr), t.(right := T.RotateRight(t.right)));
  }

  // ----- insert -----

  /** The end of `insert`: which rotation, by comparing values. */
  method FixInserted(root: Node, val: int, ghost s: Shape, ghost t: Tree) returns (r: Node, ghost s': Shape)
    requires Is(root, s, t) && Lopsided(t)
    requires Balance(t) == 2 ==> LeansTo(t.left, val)
    requires Balance(t) == -2 ==> LeansTo(t.right, val)
    modifies Nodes(s)
    ensures Is(r, s', RebalanceInserted(t, val)) && Nodes(s') == Nodes(s)
  {
    var balance := GetBalance(root);
    if balance > 1 && val < root.leftChild.val {
      r, s' := RotateRight(root, s, t);
    } else if balance < -1 && val > root.rightChild.val {
      r, s' := RotateLeft(root, s, t);
    } else if balance > 1 && val > root.leftChild.val {
      r, s' := RotateLeftRight(root, s, t);
    } else if balance < -1 && val < root.rightChild.val {
      r, s' := RotateRightLeft(root, s, t);
    } else {
      r, s' := root, s;
    }
  }

  method Insert(root: Node?, val: int, ghost s: Shape, ghost t: Tree) returns (r: Node, ghost s': Shape)
    requires Is(root, s, t) && Balanced(t)
    modifies Nodes(s)
    ensures Is(r, s', T.Insert(t, val)) && forall n :: n in Nodes(s') ==> n in Nodes(s) || fresh(n)
    decreases t, 1
  {
    if root == null {
      r := new Node(val);
      s' := At(r, Empty, Empty);
    } else if val == root.val {
      r, s' := root, s;
    } else {
      s' := InsertBelow(root, val, s, t);
      r, s' := FixInserted(root, val, s', InsertedBelow(t, val));
    }
  }

  /** The tree before the rotation. */
  ghost function InsertedBelow(t: Tree, val: int): Tree
    requires Balanced(t) && t.Node? && val != t.val
  {
    if val < t.val then Made(t.val, T.Insert(t.left, val), t.right) else Made(t.val, t.left, T.Insert(t.right, val))
  }

  /** The recursive calls of `insert`, and the new height. */
  method InsertBelow(root: Node, val: int, ghost s: Shape, ghost t: Tree) returns (ghost s': Shape)
    requires Is(root, s, t) && Balanced(t) && val != t.val
    modifies Nodes(s)
    ensures Is(root, s', InsertedBelow(t, val)) && forall n :: n in Nodes(s') ==> n in Nodes(s) || fresh(n)
    decreases t, 0
  {
    if val < root.val {
      var child; ghost var sl;
      assert allocated(Nodes(s.right));
      child, sl := Insert(root.leftChild, val, s.left, t.left);
      root.leftChild := child;
      assert Is(root.leftChild, sl, T.Insert(t.left, val)) && Is(root.rightChild, s.right, t.right);
      s' := At(root, sl, s.right);
      FixHeight(root, s', t.val, T.Insert(t.left, val), t.right);
    } else {
      var child; ghost var sr;
      assert allocated(Nodes(s.left));
      child, sr := Insert(root.rightChild, val, s.right, t.right);
      root.rightChild := child;
      assert Is(root.rightChild, sr, T.Insert(t.right, val)) && Is(root.leftChild, s.left, t.left);
      s' := At(root, s.left, sr);
      FixHeight(root, s', t.val, t.left, T.Insert(t.right, val));
    }
  }

  // ----- delete -----

  method FindMin(n: Node, ghost s: Shape, ghost t: Tree) returns (cur: Node)
    requires Is(n, s, t)
    ensures cur.val == T.FindMin(t)
  {
    cur := n;
    ghost var sc, tc := s, t;
    while cur.leftChild != null
      invariant Is(cur, sc, tc) && T.FindMin(tc) == T.FindMin(t)
      decreases sc
    {
      cur, sc, tc := cur.leftChild, sc.left, tc.left;
    }
  }

  /** `getBalance` of a node is the balance of the tree it holds. */
  lemma BalanceOf(n: Node?, s: Shape, t: Tree)
    requires Is(n, s, t)
    ensures GetBalance(n) == Balance(t)
  {
    if n != null {
      assert Is(n.leftChild, s.left, t.left) && Is(n.rightChild, s.right, t.right);
    }
  }

  /** The end of `deleteNode`: which rotation, by the children's balance. */
  method FixDeleted(root: Node, ghost s: Shape, ghost t: Tree) returns (r: Node, ghost s': Shape)
    requires Is(root, s, t) && Lopsided(t)
    modifies Nodes(s)
    ensures Is(r, s', Rebalance(t)) && Nodes(s') == Nodes(s)
  {
    BalanceOf(root, s, t);
    BalanceOf(root.leftChild, s.left, t.left);
    BalanceOf(root.rightChild, s.right, t.right);
    DoubleHeights(t);
    var balance := GetBalance(root);
    if balance > 1 && GetBalance(root.leftChild) >= 0 {
      r, s' := RotateRight(root, s, t);
    } else if balance > 1 && GetBalance(root.leftChild) < 0 {
      r, s' := RotateLeftRight(root, s, t);
    } else if balance < -1 && GetBalance(root.rightChild) <= 0 {
      r, s' := RotateLeft(root, s, t);
    } else if balance < -1 && GetBalance(root.rightChild) > 0 {
      r, s' := RotateRightLeft(root, s, t);
    } else {
      r, s' := root, s;
    }
  }

  /** Freed nodes leave the shape. */
  method DeleteNode(root: Node?, val: int, ghost s: Shape, ghost t: Tree) returns (r: Node?, ghost s': Shape)
    requires Is(root, s, t) && Balanced(t)
    modifies Nodes(s)
    ensures Is(r, s', Delete(t, val)) && Nodes(s') <= Nodes(s)
    decreases Depth(t), 2
  {
    if root == null {
      return root, s;
    }
    if val == root.val && (root.leftChild == null || root.rightChild == null) {
      if root.leftChild != null {
        return root.leftChild, s.left;
      } else {
        return root.rightChild, s.right;
      }
    }
    ghost var t';
    s', t' := DeleteBelow(root, val, s, t);
    r, s' := FixDeleted(root, s', t');
  }

  /** The recursive calls of `deleteNode`, and the new height. */
  method DeleteBelow(root: Node, val: int, ghost s: Shape, ghost t: Tree) returns (ghost s': Shape, ghost t': Tree)
    requires Is(root, s, t) && Balanced(t) && (val == t.val ==> t.left.Node? && t.right.Node?)
    modifies Nodes(s)
    ensures Is(root, s', t') && Nodes(s') <= Nodes(s)
    ensures Lopsided(t') && Rebalance(t') == Delete(t, val)
    decreases Depth(t), 1
  {
    if val < root.val {
      var child; ghost var sl;
      assert allocated(Nodes(s.right));
      child, sl := DeleteNode(root.leftChild, val, s.left, t.left);
      root.leftChild := child;
      assert Is(root.leftChild, sl, Delete(t.left, val)) && Is(root.rightChild, s.right, t.right);
      s', t' := At(root, sl, s.right), Made(t.val, Delete(t.left, val), t.right);
      FixHeight(root, s', t.val, Delete(t.left, val), t.right);
    } else if val > root.val {
      s', t' := DeleteRight(root, val, s, t);
    } else {
      assert allocated(Nodes(s.left)) && allocated(Nodes(s.right));
      var temp := FindMin(root.rightChild, s.right, t.right);
      root.val := temp.val;
      assert Is(root.leftChild, s.left, t.left) && Is(root.rightChild, s.right, t.right);
      s', t' := DeleteRight(root, temp.val, s, t.(val := temp.val));
    }
  }

  method DeleteRight(root: Node, val: int, ghost s: Shape, ghost t: Tree) returns (ghost s': Shape, ghost t': Tree)
    requires Is(root, s, t) && Balanced(t)
    modifies Nodes(s)
    ensures Is(root, s', t') && Nodes(s') <= Nodes(s) && t' == Made(t.val, t.left, Delete(t.right, val))
    decreases Depth(t), 0
  {
    var child; ghost var sr;
    assert allocated(Nodes(s.left));
    child, sr := DeleteNode(root.rightChild, val, s.right, t.right);
    root.rightChild := child;
    assert Is(root.rightChild, sr, Delete(t.right, val)) && Is(root.leftChild, s.left, t.left);
    s', t' := At(root, s.left, sr), Made(t.val, t.left, Delete(t.right, val));
    FixHeight(root, s', t.val, t.left, Delete(t.right, val));
  }

  // ----- a whole run -----

  method RunOp(root: Node?, op: Op, ghost s: Shape, ghost t: Tree) returns (r: Node?, ghost s': Shape, ghost t': Tree)
    requires Is(root, s, t) && Avl(t)
    modifies Nodes(s)
    ensures Is(r, s', t') && (forall n :: n in Nodes(s') ==> n in Nodes(s) || fresh(n))
    ensures Avl(t') && Elems(t') == Applied(Elems(t), op)
  {
    match op
    case Add(x) =>
      InsertAdds(t, x);
      t' := T.Insert(t, x);
      r, s' := Insert(root, x, s, t);
    case Remove(x) =>
      DeleteRemoves(t, x);
      t' := Delete(t, x);
      r, s' := DeleteNode(root, x, s, t);
  }

  /** After any insertions and deletions the tree is an AVL tree of exactly the set. */
  method RunOps(ops: seq<Op>) returns (root: Node?, ghost s: Shape, ghost t: Tree)
    ensures Is(root, s, t) && fresh(Nodes(s)) && Avl(t) && Elems(t) == SetAfter(ops)
    ensures |SetAfter(ops)| >= Fib(Depth(t) + 2) - 1
  {
    root, s, t := RunAll(ops);
    SizeBound(t);
  }

  method RunAll(ops: seq<Op>) returns (root: Node?, ghost s: Shape, ghost t: Tree)
    ensures Is(root, s, t) && fresh(Nodes(s)) && Avl(t) && Elems(t) == SetAfter(ops)
  {
    root, s, t := null, Empty, Leaf;
    for i := 0 to |ops|
      invariant Is(root, s, t) && (forall n :: n in Nodes(s) ==> fresh(n)) && Avl(t) && Elems(t) == SetAfter(ops[..i])
    {
      SetAfterOne(ops, i);
      root, s, t := RunOp(root, ops[i], s, t);
    }
    assert ops[..|ops|] == ops;
  }
}
