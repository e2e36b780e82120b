// The nodes of mediandta.c on the heap, and the median finder over them.

module MedianFinder {
  import opened MedianTree
  import opened SortedSeq
  import A = AvlTree
  import T = MedianTree

  class AvlNode {
    var val: int
    var height: int
    var count: int
    var size: int
    var left: AvlNode?
    var right: AvlNode?

    constructor (val: int)
      ensures this.val == val && height == count == size == 1 && left == null && right == null
    {
      this.val, height, count, size, left, right := val, 1, 1, 1, null, null;
    }
  }

  /** Which nodes hold a tree. */
  datatype Shape = Empty | At(node: AvlNode, left: Shape, right: Shape)

  ghost function Nodes(s: Shape): set<AvlNode> {
    if s.Empty? then {} else Nodes(s.left) + {s.node} + Nodes(s.right)
  }

  /** The nodes of s, reached from n, hold the tree t; no node is shared. */
  ghost predicate Is(n: AvlNode?, s: Shape, t: Tree)
    reads Nodes(s)
    decreases s
  {
    match s
    case Empty => n == null && t == Leaf
    case At(m, sl, sr) =>
      && n == m && t.Node? && m !in Nodes(sl) && m !in Nodes(sr) && Nodes(sl) !! Nodes(sr)
      && m.val == t.val && m.height == t.height && m.count == t.count && m.size == t.size
      && Is(m.left, sl, t.left) && Is(m.right, sr, t.right)
  }

  function HeightOf(n: AvlNode?): int
    reads n
  {
    if n == null then 0 else n.height
  }

  function SizeOf(n: AvlNode?): int
    reads n
  {
    if n == null then 0 else n.size
  }

  function GetBalance(n: AvlNode?): int
    reads n, if n == null then {} else {n.left, n.right}
  {
    if n == null then 0 else HeightOf(n.left) - HeightOf(n.right)
  }

  /** `update`, for a node whose children hold l and r. */
  method Update(n: AvlNode, ghost s: Shape, ghost v: int, ghost c: int, ghost l: Tree, ghost r: Tree)
    requires s.At? && n == s.node && n !in Nodes(s.left) && n !in Nodes(s.right) && Nodes(s.left) !! Nodes(s.right)
    requires n.val == v && n.count == c && Is(n.left, s.left, l) && Is(n.right, s.right, r)
    modifies n`height, n`size
    ensures Is(n, s, Made(v, c, l, r))
  {
    n.height := 1 + A.Max(HeightOf(n.left), HeightOf(n.right));
    n.size := n.count + SizeOf(n.left) + SizeOf(n.right);
  }

  method RightRotate(y: AvlNode, ghost s: Shape, ghost t: Tree) returns (x: AvlNode, ghost s': Shape)
    requires Is(y, s, t) && t.left.Node?
    modifies Nodes(s)
    ensures Is(x, s', RotateRight(t)) && Nodes(s') == Nodes(s)
  {
    x := y.left;
    var t2 := x.right;
    ghost var lower := At(y, s.left.right, s.right);
    s' := At(x, s.left.left, lower);
    assert Is(x, s.left, t.left) && Is(t2, s.left.right, t.left.right);
    assert x !in Nodes(s.right) && y !in Nodes(s.left);
    x.right := y;
    y.left := t2;
    assert y !in Nodes(s.left.right) && y !in Nodes(s.left.left);
    assert Is(t2, s.left.right, t.left.right) && Is(y.right, s.right, t.right);
    assert Is(x.left, s.left.left, t.left.left) && allocated(Nodes(s.left.left));
    Update(y, lower, t.val, t.count, t.left.right, t.right);
    assert Is(x.left, s.left.left, t.left.left);
    Update(x, s', t.left.val, t.left.count, t.left.left, Made(t.val, t.count, t.left.right, t.right));
  }

  method LeftRotate(x: AvlNode, ghost s: Shape, ghost t: Tree) returns (y: AvlNode, ghost s': Shape)
    requires Is(x, s, t) && t.right.Node?
    modifies Nodes(s)
    ensures Is(y, s', RotateLeft(t)) && Nodes(s') == Nodes(s)
  {
    y := x.right;
    var t2 := y.left;
    ghost var lower := At(x, s.left, s.right.left);
    s' := At(y, lower, s.right.right);
    assert Is(y, s.right, t.right) && Is(t2, s.right.left, t.right.left);
    assert y !in Nodes(s.left) && x !in Nodes(s.right);
    y.left := x;
    x.right := t2;
    assert x !in Nodes(s.right.left) && x !in Nodes(s.right.right);
    assert Is(t2, s.right.left, t.right.left) && Is(x.left, s.left, t.left);
    assert Is(y.right, s.right.right, t.right.right) && allocated(Nodes(s.right.right));
    Update(x, lower, t.val, t.count, t.left, t.right.left);
    assert Is(y.right, s.right.right, t.right.right);
    Update(y, s', t.right.val, t.right.count, Made(t.val, t.count, t.left, t.right.left), t.right.right);
  }

  /** The double rotation: first the left child, then the root. */
  method LeftRightRotate(root: AvlNode, ghost s: Shape, ghost t: Tree) returns (r: AvlNode, ghost s': Shape)
    requires Is(root, s, t) && t.left.Node? && t.left.right.Node?
    modifies Nodes(s)
    ensures Is(r, s', RotateRight(Made(t.val, t.count, RotateLeft(t.left), t.right))) && Nodes(s') == Nodes(s)
  {
    var child; ghost var sl;
    assert allocated(Nodes(s.right));
    child, sl := LeftRotate(root.left, s.left, t.left);
    assert Is(root.right, s.right, t.right);
    root.left := child;
    assert Is(root.left, sl, RotateLeft(t.left)) && Is(root.right, s.right, t.right);
    r, s' := RightRotate(root, At(root, sl, s.right), t.(left := RotateLeft(t.left)));
  }

  method RightLeftRotate(root: AvlNode, ghost s: Shape, ghost t: Tree) returns (r: AvlNode, ghost s': Shape)
    requires Is(root, s, t) && t.right.Node? && t.right.left.Node?
    modifies Nodes(s)
    ensures Is(r, s', RotateLeft(Made(t.val, t.count, t.left, RotateRight(t.right)))) && Nodes(s') == Nodes(s)
  {
    var child; ghost var sr;
    assert allocated(Nodes(s.left));
    child, sr := RightRotate(root.right, s.right, t.right);
    assert Is(root.left, s.left, t.left);
    root.right := child;
    assert Is(root.right, sr, RotateRight(t.right)) && Is(root.left, s.left, t.left);
    r, s' := LeftRotate(root, At(root, s.left, sr), t.(right := RotateRight(t.right)));
  }

  /** The end of `insert`: which rotation, by comparing values. */
  method Rebalance(root: AvlNode, val: int, ghost s: Shape, ghost t: Tree) returns (r: AvlNode, ghost s': Shape)
    requires Is(root, s, t) && Ready(t, val)
    modifies Nodes(s)
    ensures Is(r, s', RebalanceInserted(t, val)) && Nodes(s') == Nodes(s)
  {
    var balance := GetBalance(root);
    if balance > 1 && val < root.left.val {
      r, s' := RightRotate(root, s, t);
    } else if balance < -1 && val > root.right.val {
      r, s' := LeftRotate(root, s, t);
    } else if balance > 1 && val > root.left.val {
      r, s' := LeftRightRotate(root, s, t);
    } else if balance < -1 && val < root.right.val {
      r, s' := RightLeftRotate(root, s, t);
    } else {
      r, s' := root, s;
    }
  }

  method InsertNode(root: AvlNode?, val: int, ghost s: Shape, ghost t: Tree) returns (r: AvlNode, ghost s': Shape)
    requires Is(root, s, t) && A.Balanced(Plain(t))
    modifies Nodes(s)
    ensures Is(r, s', T.Insert(t, val)) && forall n :: n in Nodes(s') ==> n in Nodes(s) || fresh(n)
    decreases t, 2
  {
    if root == null {
      r := new AvlNode(val);
      s' := At(r, Empty, Empty);
    } else {
      s' := InsertBelow(root, val, s, t);
      r, s' := Rebalance(root, val, s', Changed(t, val));
    }
  }

  /** The recursive calls of `insert`, or the higher count, and the `update`. */
  method InsertBelow(root: AvlNode, val: int, ghost s: Shape, ghost t: Tree) returns (ghost s': Shape)
    requires Is(root, s, t) && A.Balanced(Plain(t))
    modifies Nodes(s)
    ensures Is(root, s', Changed(t, val)) && forall n :: n in Nodes(s') ==> n in Nodes(s) || fresh(n)
    decreases t, 1
  {
    if val < root.val {
      s' := InsertLeft(root, val, s, t);
    } else if val > root.val {
      s' := InsertRight(root, val, s, t);
    } else {
      root.count := root.count + 1;
      s' := s;
      Update(root, s', t.val, t.count + 1, t.left, t.right);
    }
  }

  method InsertLeft(root: AvlNode, val: int, ghost s: Shape, ghost t: Tree) returns (ghost s': Shape)
    requires Is(root, s, t) && A.Balanced(Plain(t)) && val < t.val
    modifies Nodes(s)
    ensures Is(root, s', Changed(t, val)) && forall n :: n in Nodes(s') ==> n in Nodes(s) || fresh(n)
    decreases t, 0
  {
    var child; ghost var sl;
    assert allocated(Nodes(s.right));
    child, sl := InsertNode(root.left, val, s.left, t.left);
    root.left := child;
    assert Is(root.left, sl, T.Insert(t.left, val)) && Is(root.right, s.right, t.right);
    s' := At(root, sl, s.right);
    Update(root, s', t.val, t.count, T.Insert(t.left, val), t.right);
  }

  method InsertRight(root: AvlNode, val: int, ghost s: Shape, ghost t: Tree) returns (ghost s': Shape)
    requires Is(root, s, t) && A.Balanced(Plain(t)) && val > t.val
    modifies Nodes(s)
    ensures Is(root, s', Changed(t, val)) && forall n :: n in Nodes(s') ==> n in Nodes(s) || fresh(n)
    decreases t, 0
  {
    var child; ghost var sr;
    assert allocated(Nodes(s.left));
    child, sr := InsertNode(root.right, val, s.right, t.right);
    root.right := child;
    assert Is(root.right, sr, T.Insert(t.right, val)) && Is(root.left, s.left, t.left);
    s' := At(root, s.left, sr);
    Update(root, s', t.val, t.count, t.left, T.Insert(t.right, val));
  }

  method KthOf(root: AvlNode?, k: int, ghost s: Shape, ghost t: Tree) returns (v: int)
    requires Is(root, s, t)
    ensures v == Kth(t, k)
    decreases t
  {
    if root == null {
      return -1;
    }
    var leftSize := SizeOf(root.left);
    assert Is(root.left, s.left, t.left);
    if k <= leftSize {
      v := KthOf(root.left, k, s.left, t.left);
    } else if k <= leftSize + root.count {
      v := root.val;
    } else {
      v := KthOf(root.right, k - leftSize - root.count, s.right, t.right);
    }
  }

  class MedianFinder {
    var root: AvlNode?
    var total: nat

    ghost var nums: seq<int>   // every number added, in order
    ghost var shape: Shape
    ghost var tree: Tree

    ghost predicate Valid()
      reads this, Nodes(shape)
    {
      Is(root, shape, tree) && Holds(tree, nums) && total == |nums|
    }

    /** `medianFinderCreate` */
    constructor ()
      ensures Valid() && nums == [] && Nodes(shape) == {}
    {
      root, total, nums, shape, tree := null, 0, [], Empty, Leaf;
      EmptyHolds();
    }

    /** `medianFinderAddNum` */
    method AddNum(num: int)
      requires Valid()
      modifies this, Nodes(shape)
      ensures Valid() && nums == old(nums) + [num]
      ensures forall n :: n in Nodes(shape) ==> n in old(Nodes(shape)) || fresh(n)
    {
      HoldsBalanced(tree, nums);
      InsertHolds(tree, nums, num);
      ghost var t', nums' := T.Insert(tree, num), nums + [num];
      var r; ghost var s;
      r, s := InsertNode(root, num, shape, tree);
      root, shape, tree := r, s, t';
      total := total + 1;
      nums := nums';
    }

    /** `kth`: the k-th smallest of the numbers added, whatever their order. */
    method KthSmallest(k: int, ghost sorted: seq<int>) returns (v: int)
      requires Valid() && 1 <= k <= total && Sorted(sorted) && multiset(sorted) == multiset(nums)
      ensures |sorted| == |nums| && v == sorted[k - 1]
    {
      v := KthOf(root, k, shape, tree);
      T.KthSmallest(tree, nums, sorted, k);
    }

    /** `medianFinderFindMedian`: the median of the numbers added, or -1 if there are none. */
    method FindMedian(ghost sorted: seq<int>) returns (median: real)
      requires Valid() && Sorted(sorted) && multiset(sorted) == multiset(nums)
      ensures median == if sorted == [] then -1.0 else Median(sorted)
    {
      FindMedianIsMedian(tree, nums, sorted);
      assert allocated(Nodes(shape));
      if total % 2 == 1 {
        var v := KthOf(root, total / 2 + 1, shape, tree);
        median := v as real;
      } else {
        var v1 := KthOf(root, total / 2, shape, tree);
        var v2 := KthOf(root, total / 2 + 1, shape, tree);
        median := (v1 + v2) as real / 2.0;
      }
    }
  }
}
