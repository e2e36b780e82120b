// The AVL tree of Trees/AVLTree.c as a value: what `insert` and `deleteNode` compute.
//
// `height` is the stored field, kept only by the assignments of the program. That it is the
// true height is a theorem (HeightIsDepth), not a definition.

module AvlTree {
  import opened SeqFacts
  import opened SortedSeq

  datatype Tree = Leaf | Node(val: int, height: int, left: Tree, right: Tree)

  function Max(a: int, b: int): int {
    if a > b then a else b
  }

  /** `getHeight` */
  function Height(t: Tree): int {
    if t.Leaf? then 0 else t.height
  }

  /** `getBalance` */
  function Balance(t: Tree): int {
    if t.Leaf? then 0 else Height(t.left) - Height(t.right)
  }

  /** A node whose height was just recomputed from its children. */
  function Made(val: int, left: Tree, right: Tree): Tree {
    Node(val, 1 + Max(Height(left), Height(right)), left, right)
  }

  /** `rotateRight` */
  function RotateRight(y: Tree): Tree
    requires y.Node? && y.left.Node?
  {
    var x := y.left;
    Made(x.val, x.left, Made(y.val, x.right, y.right))
  }

  /** `rotateLeft` */
  function RotateLeft(x: Tree): Tree
    requires x.Node? && x.right.Node?
  {
    var y := x.right;
    Made(y.val, Made(x.val, x.left, y.left), y.right)
  }

  // ----- the invariant -----

  /** The values from left to right. */
  ghost function InOrder(t: Tree): seq<int> {
    if t.Leaf? then [] else InOrder(t.left) + [t.val] + InOrder(t.right)
  }

  ghost function Elems(t: Tree): set<int> {
    if t.Leaf? then {} else Elems(t.left) + {t.val} + Elems(t.right)
  }

  lemma {:induction false} ElemsInOrder(t: Tree)
    ensures Elems(t) == Elements(InOrder(t))
  {
    if t.Node? {
      ElemsInOrder(t.left);
      ElemsInOrder(t.right);
      ElementsParts(InOrder(t.left), t.val, InOrder(t.right));
    }
  }

  ghost predicate Ordered(t: Tree) {
    Strict(InOrder(t))
  }

  /** Stored heights are right and the children's heights differ by at most one. */
  ghost predicate Balanced(t: Tree)
    ensures Balanced(t) ==> Height(t) >= 0 && (t.Node? <==> Height(t) > 0)
  {
    t.Node? ==>
      && Balanced(t.left) && Balanced(t.right)
      && t.height == 1 + Max(Height(t.left), Height(t.right)) && -1 <= Balance(t) <= 1
  }

  ghost predicate Avl(t: Tree) {
    Ordered(t) && Balanced(t)
  }

  /** What a node is between the change of one child and the rotation. */
  ghost predicate Lopsided(t: Tree) {
    && t.Node? && Balanced(t.left) && Balanced(t.right)
    && t.height == 1 + Max(Height(t.left), Height(t.right)) && -2 <= Balance(t) <= 2
  }

  /** A rotation leaves the values where they are. */
  lemma RotateRightInOrder(t: Tree)
    requires t.Node? && t.left.Node?
    ensures InOrder(RotateRight(t)) == InOrder(t)
  {
    Regroup(InOrder(t.left.left), t.left.val, InOrder(t.left.right), t.val, InOrder(t.right));
  }

  lemma RotateLeftInOrder(t: Tree)
    requires t.Node? && t.right.Node?
    ensures InOrder(RotateLeft(t)) == InOrder(t)
  {
    Regroup(InOrder(t.left), t.val, InOrder(t.right.left), t.right.val, InOrder(t.right.right));
  }

  /** The search order of a node, in terms of its parts. */
  ghost predicate Between(v: int, l: Tree, r: Tree) {
    Ordered(l) && Ordered(r) && (forall e :: e in Elems(l) ==> e < v) && (forall e :: e in Elems(r) ==> v < e)
  }

  lemma NodeOrdered(v: int, l: Tree, r: Tree)
    ensures Ordered(Made(v, l, r)) <==> Between(v, l, r)
  {
    assert InOrder(Made(v, l, r)) == InOrder(l) + [v] + InOrder(r);
    StrictParts(InOrder(l), v, InOrder(r));
    ElemsInOrder(l);
    ElemsInOrder(r);
  }

  lemma OrderedParts(t: Tree)
    requires Avl(t) && t.Node?
    ensures Between(t.val, t.left, t.right) && Avl(t.left) && Avl(t.right)
  {
    NodeOrdered(t.val, t.left, t.right);
    assert t == Made(t.val, t.left, t.right);
  }

  // ----- rebalancing by the children's balance, as deleteNode does -----

  /** The four cases at the end of `deleteNode`. */
  function Rebalance(t: Tree): (r: Tree)
    requires Lopsided(t)
    ensures Balanced(r)
    ensures Height(t) - 1 <= Height(r) <= Height(t)
    ensures -1 <= Balance(t) <= 1 ==> r == t
    ensures Balance(t) == 2 && Balance(t.left) != 0 ==> Height(r) == Height(t) - 1
    ensures Balance(t) == -2 && Balance(t.right) != 0 ==> Height(r) == Height(t) - 1
  {
    if Balance(t) > 1 && Balance(t.left) >= 0 then RotateRight(t)
    else if Balance(t) > 1 && Balance(t.left) < 0 then
      DoubleHeights(t);
      RotateRight(Made(t.val, RotateLeft(t.left), t.right))
    else if Balance(t) < -1 && Balance(t.right) <= 0 then RotateLeft(t)
    else if Balance(t) < -1 && Balance(t.right) > 0 then
      DoubleHeights(t);
      RotateLeft(Made(t.val, t.left, RotateRight(t.right)))
    else t
  }

  lemma DoubleHeights(t: Tree)
    requires Lopsided(t)
    ensures Balance(t) == 2 && Balance(t.left) < 0 ==>
      t.left.right.Node? && (var r := RotateRight(Made(t.val, RotateLeft(t.left), t.right)); Balanced(r) && Height(r) == Height(t) - 1)
    ensures Balance(t) == -2 && Balance(t.right) > 0 ==>
      t.right.left.Node? && (var r := RotateLeft(Made(t.val, t.left, RotateRight(t.right))); Balanced(r) && Height(r) == Height(t) - 1)
  {
    if Balance(t) == 2 && Balance(t.left) < 0 {
      assert Balanced(t.left.right);
    }
    if Balance(t) == -2 && Balance(t.right) > 0 {
      assert Balanced(t.right.left);
    }
  }

  lemma RebalanceInOrder(t: Tree)
    requires Lopsided(t)
    ensures InOrder(Rebalance(t)) == InOrder(t)
  {
    if Balance(t) > 1 {
      if Balance(t.left) >= 0 {
        RotateRightInOrder(t);
      } else {
        RotateLeftInOrder(t.left);
        RotateRightInOrder(Made(t.val, RotateLeft(t.left), t.right));
      }
    } else if Balance(t) < -1 {
      if Balance(t.right) <= 0 {
        RotateLeftInOrder(t);
      } else {
        RotateRightInOrder(t.right);
        RotateLeftInOrder(Made(t.val, t.left, RotateRight(t.right)));
      }
    }
  }

  lemma RebalanceOrdered(v: int, l: Tree, r: Tree)
    requires Lopsided(Made(v, l, r)) && Between(v, l, r)
    ensures Ordered(Rebalance(Made(v, l, r)))
    ensures Elems(Rebalance(Made(v, l, r))) == Elems(l) + {v} + Elems(r)
  {
    var t := Made(v, l, r);
    RebalanceInOrder(t);
    NodeOrdered(v, l, r);
    ElemsInOrder(t);
    ElemsInOrder(Rebalance(t));
  }

  // ----- insert -----

  /** The inserted value went below the heavier child of the root (or is the root alone).
      Only such a tree can have grown, which is why `insert` may choose its rotation by
      comparing values. */
  ghost predicate LeansTo(t: Tree, val: int) {
    t.Node? && (t.left == t.right == Leaf || (val < t.val && Balance(t) == 1) || (val > t.val && Balance(t) == -1))
  }

  /** The four cases at the end of `insert`: the value is compared with the child's value. */
  function RebalanceInserted(t: Tree, val: int): (r: Tree)
    requires Lopsided(t)
    requires Balance(t) == 2 ==> LeansTo(t.left, val)
    requires Balance(t) == -2 ==> LeansTo(t.right, val)
    ensures r == Rebalance(t)
  {
    if Balance(t) > 1 && val < t.left.val then RotateRight(t)
    else if Balance(t) < -1 && val > t.right.val then RotateLeft(t)
    else if Balance(t) > 1 && val > t.left.val then
      RotateRight(Made(t.val, RotateLeft(t.left), t.right))
    else if Balance(t) < -1 && val < t.right.val then
      RotateLeft(Made(t.val, t.left, RotateRight(t.right)))
    else t
  }

  /** `insert` */
  function Insert(t: Tree, val: int): (r: Tree)
    requires Balanced(t)
    ensures Balanced(r)
    ensures Height(r) == Height(t) || (Height(r) == Height(t) + 1 && LeansTo(r, val))
  {
    if t.Leaf? then Node(val, 1, Leaf, Leaf)
    else if val < t.val then RebalanceInserted(Made(t.val, Insert(t.left, val), t.right), val)
    else if val > t.val then RebalanceInserted(Made(t.val, t.left, Insert(t.right, val)), val)
    else t
  }

  /** Insert adds to the set, keeps the tree an AVL tree and raises it by at most one. */
  lemma InsertAdds(t: Tree, val: int)
    requires Avl(t)
    ensures Avl(Insert(t, val)) && Elems(Insert(t, val)) == Elems(t) + {val}
    ensures Height(t) <= Height(Insert(t, val)) <= Height(t) + 1
  {
    InsertOrdered(t, val);
  }

  lemma {:induction false} InsertOrdered(t: Tree, val: int)
    requires Avl(t)
    ensures Ordered(Insert(t, val)) && Elems(Insert(t, val)) == Elems(t) + {val}
  {
    if t.Leaf? {
      NodeOrdered(val, Leaf, Leaf);
    } else {
      OrderedParts(t);
      if val < t.val {
        InsertOrdered(t.left, val);
        InsertLeft(t, val);
      } else if val > t.val {
        InsertOrdered(t.right, val);
        InsertRight(t, val);
      }
    }
  }

  lemma InsertLeft(t: Tree, val: int)
    requires Balanced(t) && t.Node? && Between(t.val, t.left, t.right) && val < t.val
    requires Ordered(Insert(t.left, val)) && Elems(Insert(t.left, val)) == Elems(t.left) + {val}
    ensures Ordered(Insert(t, val)) && Elems(Insert(t, val)) == Elems(t) + {val}
  {
    GrowLeft(t, val, Insert(t.left, val));
  }

  lemma InsertRight(t: Tree, val: int)
    requires Balanced(t) && t.Node? && Between(t.val, t.left, t.right) && val > t.val
    requires Ordered(Insert(t.right, val)) && Elems(Insert(t.right, val)) == Elems(t.right) + {val}
    ensures Ordered(Insert(t, val)) && Elems(Insert(t, val)) == Elems(t) + {val}
  {
    GrowRight(t, val, Insert(t.right, val));
  }

  lemma GrowLeft(t: Tree, val: int, l: Tree)
    requires t.Node? && Between(t.val, t.left, t.right) && val < t.val
    requires Lopsided(Made(t.val, l, t.right)) && Ordered(l) && Elems(l) == Elems(t.left) + {val}
    ensures var r := Rebalance(Made(t.val, l, t.right)); Ordered(r) && Elems(r) == Elems(t) + {val}
  {
    RebalanceOrdered(t.val, l, t.right);
  }

  lemma GrowRight(t: Tree, val: int, r: Tree)
    requires t.Node? && Between(t.val, t.left, t.right) && val > t.val
    requires Lopsided(Made(t.val, t.left, r)) && Ordered(r) && Elems(r) == Elems(t.right) + {val}
    ensures var r := Rebalance(Made(t.val, t.left, r)); Ordered(r) && Elems(r) == Elems(t) + {val}
  {
    RebalanceOrdered(t.val, t.left, r);
  }

  // ----- delete -----

  /** `findMin` */
  function FindMin(t: Tree): (m: int)
    requires t.Node?
  {
    if t.left.Leaf? then t.val else FindMin(t.left)
  }

  lemma {:induction false} FindMinIsFirst(t: Tree)
    requires t.Node?
    ensures InOrder(t) != [] && FindMin(t) == InOrder(t)[0]
  {
    if t.left.Node? {
      FindMinIsFirst(t.left);
    }
  }

  lemma FindMinIsLeast(t: Tree)
    requires t.Node? && Ordered(t)
    ensures FindMin(t) in Elems(t) && forall e :: e in Elems(t) ==> FindMin(t) <= e
  {
    FindMinIsFirst(t);
    ElemsInOrder(t);
  }

  /** `deleteNode` */
  function Delete(t: Tree, val: int): (r: Tree)
    requires Balanced(t)
    ensures Balanced(r)
    ensures Height(t) - 1 <= Height(r) <= Height(t)
    decreases t
  {
    if t.Leaf? then t
    else if val < t.val then Rebalance(Made(t.val, Delete(t.left, val), t.right))
    else if val > t.val then Rebalance(Made(t.val, t.left, Delete(t.right, val)))
    else if t.left.Leaf? || t.right.Leaf? then (if t.left.Node? then t.left else t.right)
    else Rebalance(Made(FindMin(t.right), t.left, Delete(t.right, FindMin(t.right))))
  }

  /** Delete removes from the set, keeps the tree an AVL tree and lowers it by at most one. */
  lemma DeleteRemoves(t: Tree, val: int)
    requires Avl(t)
    ensures Avl(Delete(t, val)) && Elems(Delete(t, val)) == Elems(t) - {val}
    ensures Height(t) - 1 <= Height(Delete(t, val)) <= Height(t)
  {
    DeleteOrdered(t, val);
  }

  lemma {:induction false} DeleteOrdered(t: Tree, val: int)
    requires Avl(t)
    ensures Ordered(Delete(t, val)) && Elems(Delete(t, val)) == Elems(t) - {val}
    decreases t, 1
  {
    if t.Node? {
      OrderedParts(t);
      if val < t.val {
        DeleteOrdered(t.left, val);
        DeleteLeft(t, val, Delete(t.left, val));
      } else if val > t.val {
        DeleteOrdered(t.right, val);
        DeleteRight(t, val, t.val, Delete(t.right, val));
      } else if t.left.Node? && t.right.Node? {
        DeleteRoot(t);
      }
    }
  }

  lemma {:induction false} DeleteRoot(t: Tree)
    requires Avl(t) && t.Node? && t.left.Node? && t.right.Node?
    ensures Ordered(Delete(t, t.val)) && Elems(Delete(t, t.val)) == Elems(t) - {t.val}
    decreases t, 0
  {
    OrderedParts(t);
    var m := FindMin(t.right);
    FindMinIsLeast(t.right);
    DeleteOrdered(t.right, m);
    DeleteRight(t, t.val, m, Delete(t.right, m));
  }

  lemma DeleteLeft(t: Tree, val: int, l: Tree)
    requires t.Node? && Between(t.val, t.left, t.right) && val < t.val
    requires Lopsided(Made(t.val, l, t.right)) && Ordered(l) && Elems(l) == Elems(t.left) - {val}
    ensures var r := Rebalance(Made(t.val, l, t.right)); Ordered(r) && Elems(r) == Elems(t) - {val}
  {
    RebalanceOrdered(t.val, l, t.right);
  }

  /** A value goes from the right: val itself, or its successor v, which takes its place. */
  lemma DeleteRight(t: Tree, val: int, v: int, r: Tree)
    requires t.Node? && Between(t.val, t.left, t.right) && Lopsided(Made(v, t.left, r)) && Ordered(r)
    requires if v == t.val then val > v && Elems(r) == Elems(t.right) - {val}
             else val == t.val && v in Elems(t.right) && Elems(r) == Elems(t.right) - {v} && forall e :: e in Elems(r) ==> v < e
    ensures var r := Rebalance(Made(v, t.left, r)); Ordered(r) && Elems(r) == Elems(t) - {val}
  {
    RebalanceOrdered(v, t.left, r);
  }

  // ----- heights and sizes -----

  ghost function Depth(t: Tree): nat {
    if t.Leaf? then 0 else 1 + if Depth(t.left) > Depth(t.right) then Depth(t.left) else Depth(t.right)
  }

  lemma {:induction false} HeightIsDepth(t: Tree)
    requires Balanced(t)
    ensures Height(t) == Depth(t)
  {
    if t.Node? {
      HeightIsDepth(t.left);
      HeightIsDepth(t.right);
    }
  }

  ghost function Fib(n: nat): nat {
    if n < 2 then n else Fib(n - 1) + Fib(n - 2)
  }

  lemma {:induction false} LengthBound(t: Tree)
    requires Balanced(t)
    ensures |InOrder(t)| >= Fib(Height(t) + 2) - 1
  {
    if t.Node? {
      LengthBound(t.left);
      LengthBound(t.right);
      var h := Height(t);
      assert Fib(h + 2) == Fib(h + 1) + Fib(h);
    }
  }

  /** A tree of height h holds at least Fib(h + 2) - 1 values. */
  lemma SizeBound(t: Tree)
    requires Avl(t)
    ensures |Elems(t)| >= Fib(Depth(t) + 2) - 1
  {
    LengthBound(t);
    HeightIsDepth(t);
    StrictSize(InOrder(t));
    ElemsInOrder(t);
  }

  // ----- a whole run -----

  datatype Op = Add(val: int) | Remove(val: int)

  ghost function SetAfter(ops: seq<Op>): set<int> {
    if ops == [] then {}
    else
      Applied(SetAfter(ops[..|ops| - 1]), ops[|ops| - 1])
  }

  ghost function Applied(s: set<int>, op: Op): set<int> {
    if op.Add? then s + {op.val} else s - {op.val}
  }

  lemma SetAfterOne(ops: seq<Op>, i: nat)
    requires i < |ops|
    ensures SetAfter(ops[..i + 1]) == Applied(SetAfter(ops[..i]), ops[i])
  {
    assert ops[..i + 1][..i] == ops[..i];
  }
}
