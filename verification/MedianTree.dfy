// The order-statistic tree of mediandta.c as a value.
//
// Without its counts and sizes it is the tree of AvlTree.dfy, step by step (Plain), so shape,
// order and balance need no second proof.  What is new is that the sizes count every
// added number, so that `kth` can skip whole subtrees.

module MedianTree {
  import opened SortedSeq
  import A = AvlTree

  datatype Tree = Leaf | Node(val: int, height: int, count: int, size: int, left: Tree, right: Tree)

  function Height(t: Tree): int {
    if t.Leaf? then 0 else t.height
  }

  function Size(t: Tree): int {
    if t.Leaf? then 0 else t.size
  }

  function Balance(t: Tree): int {
    if t.Leaf? then 0 else Height(t.left) - Height(t.right)
  }

  /** A node just after `update`. */
  function Made(val: int, count: int, left: Tree, right: Tree): Tree {
    Node(val, 1 + A.Max(Height(left), Height(right)), count, count + Size(left) + Size(right), left, right)
  }

  /** `rightRotate` */
  function RotateRight(y: Tree): Tree
    requires y.Node? && y.left.Node?
  {
    var x := y.left;
    Made(x.val, x.count, x.left, Made(y.val, y.count, x.right, y.right))
  }

  /** `leftRotate` */
  function RotateLeft(x: Tree): Tree
    requires x.Node? && x.right.Node?
  {
    var y := x.right;
    Made(y.val, y.count, Made(x.val, x.count, x.left, y.left), y.right)
  }

  /** The tree without counts and sizes. */
  ghost function Plain(t: Tree): (p: A.Tree)
    ensures A.Height(p) == Height(t) && (p.Leaf? <==> t.Leaf?)
  {
    if t.Leaf? then A.Leaf else A.Node(t.val, t.height, Plain(t.left), Plain(t.right))
  }

  lemma PlainMade(val: int, count: int, l: Tree, r: Tree)
    ensures Plain(Made(val, count, l, r)) == A.Made(val, Plain(l), Plain(r))
  {
  }

  lemma PlainRotateRight(t: Tree)
    requires t.Node? && t.left.Node?
    ensures Plain(RotateRight(t)) == A.RotateRight(Plain(t))
  {
    var x := t.left;
    PlainMade(t.val, t.count, x.right, t.right);
    PlainMade(x.val, x.count, x.left, Made(t.val, t.count, x.right, t.right));
  }

  lemma PlainRotateLeft(t: Tree)
    requires t.Node? && t.right.Node?
    ensures Plain(RotateLeft(t)) == A.RotateLeft(Plain(t))
  {
    var y := t.right;
    PlainMade(t.val, t.count, t.left, y.left);
    PlainMade(y.val, y.count, Made(t.val, t.count, t.left, y.left), y.right);
  }

  /** What a node is between the insertion below it and the rotation. */
  ghost predicate Ready(t: Tree, val: int) {
    && t.Node? && A.Lopsided(Plain(t))
    && (Balance(t) == 2 ==> A.LeansTo(Plain(t.left), val))
    && (Balance(t) == -2 ==> A.LeansTo(Plain(t.right), val))
  }

  /** The four cases at the end of `insert`. */
  function RebalanceInserted(t: Tree, val: int): (r: Tree)
    requires Ready(t, val)
    ensures Plain(r) == A.RebalanceInserted(Plain(t), val)
  {
    if Balance(t) > 1 && val < t.left.val then
      PlainRotateRight(t);
      RotateRight(t)
    else if Balance(t) < -1 && val > t.right.val then
      PlainRotateLeft(t);
      RotateLeft(t)
    else if Balance(t) > 1 && val > t.left.val then
      PlainRotateLeft(t.left);
      PlainRotateRight(Made(t.val, t.count, RotateLeft(t.left), t.right));
      RotateRight(Made(t.val, t.count, RotateLeft(t.left), t.right))
    else if Balance(t) < -1 && val < t.right.val then
      PlainRotateRight(t.right);
      PlainRotateLeft(Made(t.val, t.count, t.left, RotateRight(t.right)));
      RotateLeft(Made(t.val, t.count, t.left, RotateRight(t.right)))
    else t
  }

  /** A node of `insert` after the call below it and `update`; a duplicate raises the count. */
  function Changed(t: Tree, val: int): (r: Tree)
    requires t.Node? && A.Balanced(Plain(t))
    ensures Ready(r, val) && A.RebalanceInserted(Plain(r), val) == A.Insert(Plain(t), val)
    decreases t, 0
  {
    if val < t.val then
      PlainMade(t.val, t.count, Insert(t.left, val), t.right);
      Made(t.val, t.count, Insert(t.left, val), t.right)
    else if val > t.val then
      PlainMade(t.val, t.count, t.left, Insert(t.right, val));
      Made(t.val, t.count, t.left, Insert(t.right, val))
    else
      PlainMade(t.val, t.count + 1, t.left, t.right);
      Made(t.val, t.count + 1, t.left, t.right)
  }

  /** `insert`: without the counts, an AVL insert. */
  function Insert(t: Tree, val: int): (r: Tree)
    requires A.Balanced(Plain(t))
    ensures Plain(r) == A.Insert(Plain(t), val)
    decreases t, 1
  {
    if t.Leaf? then
      assert Plain(Leaf) == A.Leaf;
      Node(val, 1, 1, 1, Leaf, Leaf)
    else RebalanceInserted(Changed(t, val), val)
  }

  // ----- the numbers of a tree -----

  ghost function Repeat(val: int, count: int): seq<int> {
    if count <= 0 then [] else [val] + Repeat(val, count - 1)
  }

  /** The numbers of a tree, duplicates included, from left to right. */
  ghost function Vals(t: Tree): seq<int> {
    if t.Leaf? then [] else Vals(t.left) + Repeat(t.val, t.count) + Vals(t.right)
  }

  /** Every node counts its numbers and those below it. */
  ghost predicate Counted(t: Tree) {
    t.Node? ==> Counted(t.left) && Counted(t.right) && t.count >= 1 && t.size == t.count + Size(t.left) + Size(t.right)
  }

  lemma {:induction false} RepeatAll(val: int, count: int)
    ensures |Repeat(val, count)| == (if count <= 0 then 0 else count)
    ensures forall i :: 0 <= i < |Repeat(val, count)| ==> Repeat(val, count)[i] == val
  {
    if count > 0 {
      RepeatAll(val, count - 1);
    }
  }

  lemma {:induction false} SizeCounts(t: Tree)
    requires Counted(t)
    ensures |Vals(t)| == Size(t)
  {
    if t.Node? {
      SizeCounts(t.left);
      SizeCounts(t.right);
      RepeatAll(t.val, t.count);
    }
  }

  lemma {:induction false} ValsSorted(t: Tree)
    requires A.Ordered(Plain(t))
    ensures Sorted(Vals(t)) && forall e :: e in Vals(t) ==> e in A.Elems(Plain(t))
  {
    if t.Node? {
      var p := Plain(t);
      StrictParts(A.InOrder(p.left), p.val, A.InOrder(p.right));
      A.ElemsInOrder(p.left);
      A.ElemsInOrder(p.right);
      ValsSorted(t.left);
      ValsSorted(t.right);
      RepeatAll(t.val, t.count);
      SortedJoin(Vals(t.left), t.val, Repeat(t.val, t.count), Vals(t.right));
    }
  }

  lemma SortedJoin(a: seq<int>, x: int, m: seq<int>, b: seq<int>)
    requires Sorted(a) && Sorted(b)
    requires (forall e :: e in a ==> e < x) && (forall e :: e in b ==> x < e) && forall i :: 0 <= i < |m| ==> m[i] == x
    ensures Sorted(a + m + b)
  {
    var s := a + m + b;
    assert forall i :: 0 <= i < |a| ==> a[i] in a;
    assert forall i :: 0 <= i < |b| ==> b[i] in b;
    forall i, j | 0 <= i < j < |s| ensures s[i] <= s[j] {
      assert s[i] == if i < |a| then a[i] else if i < |a| + |m| then m[i - |a|] else b[i - |a| - |m|];
      assert s[j] == if j < |a| then a[j] else if j < |a| + |m| then m[j - |a|] else b[j - |a| - |m|];
    }
  }

  // ----- insertion adds one number -----

  lemma RotateRightVals(t: Tree)
    requires t.Node? && t.left.Node?
    ensures Vals(RotateRight(t)) == Vals(t)
  {
    var x := t.left;
  }

  lemma RotateLeftVals(t: Tree)
    requires t.Node? && t.right.Node?
    ensures Vals(RotateLeft(t)) == Vals(t)
  {
    var y := t.right;
  }

  lemma RotationsCount(t: Tree)
    requires t.Node? && Counted(t)
    ensures t.left.Node? ==> Counted(RotateRight(t)) && Size(RotateRight(t)) == Size(t)
    ensures t.right.Node? ==> Counted(RotateLeft(t)) && Size(RotateLeft(t)) == Size(t)
  {
  }

  lemma RebalanceVals(t: Tree, val: int)
    requires Ready(t, val)
    ensures Vals(RebalanceInserted(t, val)) == Vals(t)
  {
    if Balance(t) > 1 && val < t.left.val {
      RotateRightVals(t);
    } else if Balance(t) < -1 && val > t.right.val {
      RotateLeftVals(t);
    } else if Balance(t) > 1 && val > t.left.val {
      RotateLeftVals(t.left);
      RotateRightVals(Made(t.val, t.count, RotateLeft(t.left), t.right));
    } else if Balance(t) < -1 && val < t.right.val {
      RotateRightVals(t.right);
      RotateLeftVals(Made(t.val, t.count, t.left, RotateRight(t.right)));
    }
  }

  lemma RebalanceCounts(t: Tree, val: int)
    requires Ready(t, val) && Counted(t)
    ensures Counted(RebalanceInserted(t, val)) && Size(RebalanceInserted(t, val)) == Size(t)
  {
    RotationsCount(t);
    if Balance(t) > 1 && val > t.left.val {
      RotationsCount(t.left);
      RotationsCount(Made(t.val, t.count, RotateLeft(t.left), t.right));
    } else if Balance(t) < -1 && val < t.right.val {
      RotationsCount(t.right);
      RotationsCount(Made(t.val, t.count, t.left, RotateRight(t.right)));
    }
  }

  /** Every size on the way of an insertion is right again. */
  lemma {:induction false} InsertCounts(t: Tree, val: int)
    requires A.Balanced(Plain(t)) && Counted(t)
    ensures Counted(Insert(t, val)) && Size(Insert(t, val)) == Size(t) + 1
  {
    if t.Node? {
      if val < t.val {
        InsertCounts(t.left, val);
      } else if val > t.val {
        InsertCounts(t.right, val);
      }
      assert Counted(Changed(t, val)) && Size(Changed(t, val)) == Size(t) + 1;
      RebalanceCounts(Changed(t, val), val);
    }
  }

  /** How often x is among the numbers of a tree. */
  ghost function Times(t: Tree, x: int): int {
    if t.Leaf? then 0 else Times(t.left, x) + (if t.val == x then t.count else 0) + Times(t.right, x)
  }

  lemma {:induction false} RepeatTimes(val: int, count: nat, x: int)
    ensures multiset(Repeat(val, count))[x] == if x == val then count else 0
  {
    if count > 0 {
      RepeatTimes(val, count - 1, x);
    }
  }

  lemma {:induction false} TimesInVals(t: Tree, x: int)
    requires Counted(t)
    ensures Times(t, x) == multiset(Vals(t))[x]
  {
    if t.Node? {
      TimesInVals(t.left, x);
      TimesInVals(t.right, x);
      RepeatTimes(t.val, t.count, x);
    }
  }

  /** Insert adds one number. */
  lemma {:induction false} InsertTimes(t: Tree, val: int, x: int)
    requires A.Balanced(Plain(t)) && Counted(t)
    ensures Times(Insert(t, val), x) == Times(t, x) + if x == val then 1 else 0
  {
    if t.Node? {
      if val < t.val {
        InsertTimes(t.left, val, x);
        InsertCounts(t.left, val);
      } else if val > t.val {
        InsertTimes(t.right, val, x);
        InsertCounts(t.right, val);
      }
      var c := Changed(t, val);
      assert Times(c, x) == Times(t, x) + if x == val then 1 else 0;
      RebalanceVals(c, val);
      RebalanceCounts(c, val);
      TimesInVals(c, x);
      TimesInVals(Insert(t, val), x);
    }
  }

  // ----- order statistics -----

  /** `kth` */
  function Kth(t: Tree, k: int): int {
    if t.Leaf? then -1
    else if k <= Size(t.left) then Kth(t.left, k)
    else if k <= Size(t.left) + t.count then t.val
    else Kth(t.right, k - Size(t.left) - t.count)
  }

  lemma {:induction false} KthIsKth(t: Tree, k: int)
    requires Counted(t) && 1 <= k <= Size(t)
    ensures |Vals(t)| == Size(t) && Kth(t, k) == Vals(t)[k - 1]
  {
    if t.Node? {
      SizeCounts(t);
      SizeCounts(t.left);
      RepeatAll(t.val, t.count);
      var a, m, b := Vals(t.left), Repeat(t.val, t.count), Vals(t.right);
      if k <= |a| {
        KthIsKth(t.left, k);
      } else if k <= |a| + |m| {
        assert Vals(t)[k - 1] == m[k - 1 - |a|];
      } else {
        KthIsKth(t.right, k - |a| - |m|);
      }
    }
  }

  /** Out of range, `kth` gives -1. */
  lemma {:induction false} KthOutside(t: Tree, k: int)
    requires Counted(t) && (k < 1 || k > Size(t))
    ensures Kth(t, k) == -1
  {
    if t.Node? {
      SizeCounts(t.left);
      SizeCounts(t.right);
      KthOutside(t.left, k);
      KthOutside(t.right, k - Size(t.left) - t.count);
    }
  }

  /** `medianFinderFindMedian` */
  function FindMedian(t: Tree, total: nat): real {
    if total % 2 == 1 then Kth(t, total / 2 + 1) as real
    else (Kth(t, total / 2) + Kth(t, total / 2 + 1)) as real / 2.0
  }

  // Always true: the verifier looks into Holds only where this is mentioned.  Open in the
  // class, the balance of the tree before an insertion would be unfolded node by node while the
  // method only hands the whole fact on, and AddNum goes beyond the resource limit.
  ghost predicate UnfoldHolds(u: nat) { true }

  /** The tree holds exactly these numbers, in any order they came. */
  ghost predicate Holds(t: Tree, nums: seq<int>) {
    forall u: nat {:trigger UnfoldHolds(u)} :: UnfoldHolds(u) ==>
      A.Avl(Plain(t)) && Counted(t) && forall x {:trigger Times(t, x)} :: Times(t, x) == multiset(nums)[x]
  }

  lemma EmptyHolds()
    ensures Holds(Leaf, [])
  {
  }

  lemma HoldsBalanced(t: Tree, nums: seq<int>)
    requires Holds(t, nums)
    ensures A.Balanced(Plain(t))
  {
    assert UnfoldHolds(0);
  }

  lemma InsertHolds(t: Tree, nums: seq<int>, num: int)
    requires Holds(t, nums) && A.Balanced(Plain(t))
    ensures Holds(Insert(t, num), nums + [num])
  {
    assert UnfoldHolds(0);
    A.InsertAdds(Plain(t), num);
    InsertCounts(t, num);
    forall x ensures Times(Insert(t, num), x) == multiset(nums + [num])[x] {
      InsertTimes(t, num, x);
      assert Times(t, x) == multiset(nums)[x];
    }
  }

  /** The middle of the numbers in ascending order, or the mean of the middle two. */
  ghost function Median(sorted: seq<int>): real
    requires sorted != []
  {
    var n := |sorted|;
    if n % 2 == 1 then sorted[n / 2] as real else (sorted[n / 2 - 1] + sorted[n / 2]) as real / 2.0
  }

  lemma HoldsSorted(t: Tree, nums: seq<int>, s: seq<int>)
    requires Holds(t, nums) && Sorted(s) && multiset(s) == multiset(nums)
    ensures Vals(t) == s && Size(t) == |s| == |nums|
  {
    assert UnfoldHolds(0);
    ValsSorted(t);
    forall x ensures multiset(Vals(t))[x] == multiset(nums)[x] {
      TimesInVals(t, x);
      assert Times(t, x) == multiset(nums)[x];
    }
    SortedUnique(s, Vals(t));
    SizeCounts(t);
    assert |nums| == |multiset(nums)| && |s| == |multiset(s)|;
  }

  /** Whatever the order of the additions, `kth(k)` is the k-th smallest number. */
  lemma KthSmallest(t: Tree, nums: seq<int>, s: seq<int>, k: int)
    requires Holds(t, nums) && Sorted(s) && multiset(s) == multiset(nums) && 1 <= k <= |nums|
    ensures |s| == |nums| && Kth(t, k) == s[k - 1]
  {
    HoldsSorted(t, nums, s);
    assert UnfoldHolds(0);
    KthIsKth(t, k);
  }

  /** And the median is that of the sorted numbers; without numbers it is -1. */
  lemma FindMedianIsMedian(t: Tree, nums: seq<int>, s: seq<int>)
    requires Holds(t, nums) && Sorted(s) && multiset(s) == multiset(nums)
    ensures FindMedian(t, |nums|) == if s == [] then -1.0 else Median(s)
  {
    HoldsSorted(t, nums, s);
    assert UnfoldHolds(0);
    var n := |nums|;
    if n == 0 {
      KthOutside(t, 0);
      KthOutside(t, 1);
    } else {
      KthIsKth(t, n / 2 + 1);
      if n % 2 == 0 {
        KthIsKth(t, n / 2);
      }
    }
  }
}
