// The insertion loop, the root growth and the range scan of Trees/BplusTreeDy.c.

module BPlusProgram {
  import opened BPlusTree
  import opened BPlusHeap
  import opened SeqFacts
  import opened SortedSeq

  /** A root whose leaves are chained from the leftmost to the last, in order. */
  ghost predicate Index(root: Node, h: nat)
    reads root, root.repr, set c | c in Cells(root.model) && c.Leaf? :: c.id
  {
    root.Valid() && Inv(root.model, h, true) && Linked(Cells(root.model), null)
  }

  /** One turn of the loop in `main`: insert, and grow a new root when the old one split. */
  method InsertKey(root: Node, key: int, ghost h: nat) returns (newRoot: Node, ghost newLeaf: Node, ghost h': nat)
    requires Index(root, h)
    modifies root.repr
    ensures Index(newRoot, h') && h <= h' <= h + 1
    ensures fresh(newRoot.repr - old(root.repr))
    ensures WellShaped(old(root.model)) && newRoot.model == InsertRoot(old(root.model), key, newLeaf)
    ensures multiset(Keys(newRoot.model)) == multiset(Keys(old(root.model))) + multiset{key}
  {
    ghost var t := root.model;
    InvWellShaped(t, h, true);
    var result, upKey, newChild;
    result, upKey, newChild, newLeaf := root.Insert(key, null);
    h' := InsertRootKeeps(t, h, key, newLeaf);
    InsertRootInv(t, h, key, newLeaf);
    newRoot := root;
    if result != null {
      newRoot := GrowRoot(root, upKey, newChild, OutcomeCells(BPlusTree.Insert(t, key, newLeaf)));
    }
  }

  method GrowRoot(root: Node, upKey: int, newChild: Node, ghost cells: seq<Tree<Node>>) returns (newRoot: Node)
    requires root.Valid() && newChild.Valid() && root.repr !! newChild.repr && Linked(cells, null)
    ensures newRoot.Valid() && newRoot.model == Inner([upKey], [root.model, newChild.model])
    ensures fresh(newRoot.repr - root.repr - newChild.repr) && Linked(cells, null)
  {
    newRoot := NewRoot(root, upKey, newChild);
    forall n | 0 <= n < |cells| ensures cells[n].id.next == old(cells[n].id.next) {
      assert old(allocated(cells[n]));
      assert old(allocated(cells[n].id));
    }
  }

  method NewRoot(root: Node, upKey: int, newChild: Node) returns (newRoot: Node)
    requires root.Valid() && newChild.Valid() && root.repr !! newChild.repr
    ensures newRoot.Valid() && newRoot.model == Inner([upKey], [root.model, newChild.model])
    ensures fresh(newRoot.repr - root.repr - newChild.repr)
  {
    newRoot := new Node(false);
    newRoot.keys := newRoot.keys[0 := upKey];
    newRoot.child := newRoot.child[0 := root];
    newRoot.child := newRoot.child[1 := newChild];
    newRoot.count := 1;
    OneValid(root);
    OneValid(newChild);
    KidsJoin([root], [root.model], root.repr, [newChild], [newChild.model], newChild.repr);
    assert newRoot.child[..2] == [root] + [newChild];
    newRoot.Adopt([upKey], [root.model] + [newChild.model], root.repr + newChild.repr);
  }

  method EmptyRoot() returns (root: Node)
    ensures Index(root, 1) && fresh(root.repr) && Keys(root.model) == []
  {
    root := new Node(true);
    root.model, root.repr := Leaf(root, []), {root};
    LeafKeys(root, []);
  }

  /** The insertion loop of `main`. */
  method InsertAll(ks: seq<int>) returns (root: Node, ghost h: nat)
    ensures Index(root, h) && fresh(root.repr)
    ensures multiset(Keys(root.model)) == multiset(ks)
  {
    root := EmptyRoot();
    h := 1;
    for i := 0 to |ks|
      invariant Index(root, h) && fresh(root.repr)
      invariant multiset(Keys(root.model)) == multiset(ks[..i])
    {
      ghost var newLeaf;
      root, newLeaf, h := InsertKey(root, ks[i], h);
      PrefixStep(ks, i);
    }
    assert ks[..|ks|] == ks;
  }

  /** The first loop of `printRange`: the leaf where the scan starts. */
  method DescendToLeaf(root: Node, start: int, ghost h: nat) returns (leaf: Node)
    requires root.Valid() && Inv(root.model, h, true)
    ensures WellShaped(root.model) && LeafPos(root.model, start) < |Cells(root.model)|
    ensures Cells(root.model)[LeafPos(root.model, start)] == leaf.model && leaf.isLeaf && leaf.Valid()
  {
    InvWellShaped(root.model, h, true);
    LeafPosInRange(root.model, start);
    leaf := root;
    while !leaf.isLeaf
      invariant leaf.Valid() && leaf.repr <= root.repr && WellShaped(leaf.model)
      invariant LeafPos(leaf.model, start) < |Cells(leaf.model)|
      invariant Cells(leaf.model)[LeafPos(leaf.model, start)] == Cells(root.model)[LeafPos(root.model, start)]
      decreases leaf.repr
    {
      var i := leaf.FindChild(start);
      ghost var ra, rb := KidsAround(leaf.child[..leaf.count + 1], leaf.model.kids, leaf.repr - {leaf}, i);
      DescendStep(leaf.model, start);
      leaf := leaf.child[i];
    }
    assert Cells(leaf.model) == [leaf.model];
  }

  lemma DescendStep(t: Tree<Node>, start: int)
    requires t.Inner? && WellShaped(t)
    ensures var c := t.kids[ChildIndex(t.keys, start)];
      && WellShaped(c) && LeafPos(c, start) < |Cells(c)| && LeafPos(t, start) < |Cells(t)|
      && Cells(c)[LeafPos(c, start)] == Cells(t)[LeafPos(t, start)]
  {
    var i := ChildIndex(t.keys, start);
    assert t.kids[i] in t.kids;
    LeafPosInRange(t, start);
    LeafPosInRange(t.kids[i], start);
    CellsOfAround(t.kids, i);
  }

  /** `printRange`: what it prints, as a sequence, is every key of the tree in range,
      with its multiplicity and in order; the early return loses none. */
  method PrintRange(root: Node, start: int, end: int, ghost h: nat) returns (out: seq<int>)
    requires Index(root, h)
    ensures out == InRange(Keys(root.model), start, end)
  {
    CellsHeld(root);
    var leaf := DescendToLeaf(root, start, h);
    ScanFromDescent(root.model, h, start, end);
    KeysSorted(root.model, h, true);
    ghost var p := LeafPos(root.model, start);
    CellsHeld(root);
    assert Cells(root.model)[p] in Cells(root.model);
    out := ScanChain(leaf, start, end, Cells(root.model), p);
  }

  /** The second loop of `printRange`: along `next` from leaf p0 of the row. */
  method ScanChain(leaf: Node, start: int, end: int, ghost cells: seq<Tree<Node>>, ghost p0: nat) returns (out: seq<int>)
    requires p0 < |cells| && cells[p0].Leaf? && cells[p0].id == leaf && Linked(cells, null)
    requires forall i :: 0 <= i < |cells| ==> cells[i].Leaf? && cells[i].id.Valid() && cells[i].id.model == cells[i]
    requires Sorted(KeysIn(cells))
    ensures out == InRange(KeysIn(cells[p0..]), start, end)
  {
    var node: Node? := leaf;
    ghost var p := p0;
    out := [];
    while node != null
      invariant p0 <= p <= |cells| && node == IdAt(cells, p, null)
      invariant out == InRange(KeysIn(cells[p0..p]), start, end)
      decreases |cells| - p
    {
      var part, stop;
      ghost var at;
      part, stop, at := ScanLeaf(node, start, end);
      out := out + part;
      if stop {
        EarlyReturn(cells, p0, p, at, start, end);
        return;
      }
      ScanStep(cells, p0, p, start, end);
      node := node.next;
      p := p + 1;
    }
    assert cells[p0..] == cells[p0..p];
  }

  /** One leaf of the scan; `stop` is the early return at a key beyond the end. */
  method ScanLeaf(leaf: Node, start: int, end: int) returns (out: seq<int>, stop: bool, ghost at: nat)
    requires leaf.Valid()
    ensures stop ==> at < leaf.count && leaf.model.keys[at] > end && out == InRange(leaf.model.keys[..at + 1], start, end)
    ensures !stop ==> out == InRange(leaf.model.keys, start, end)
  {
    out, stop, at := [], false, 0;
    for i := 0 to leaf.count
      invariant out == InRange(leaf.model.keys[..i], start, end)
    {
      PrefixStep(leaf.model.keys, i);
      InRangeConcat(leaf.model.keys[..i], [leaf.model.keys[i]], start, end);
      if start <= leaf.keys[i] <= end {
        out := out + [leaf.keys[i]];
      }
      if leaf.keys[i] > end {
        return out, true, i;
      }
    }
    assert leaf.model.keys[..leaf.count] == leaf.model.keys;
  }

  lemma ScanStep(cells: seq<Tree<Node>>, p0: nat, p: nat, start: int, end: int)
    requires p0 <= p < |cells| && cells[p].Leaf?
    ensures InRange(KeysIn(cells[p0..p + 1]), start, end)
         == InRange(KeysIn(cells[p0..p]), start, end) + InRange(cells[p].keys, start, end)
  {
    assert cells[p0..p + 1] == cells[p0..p] + [cells[p]];
    KeysInConcat(cells[p0..p], [cells[p]]);
    LeafKeys(cells[p].id, cells[p].keys);
    InRangeConcat(KeysIn(cells[p0..p]), cells[p].keys, start, end);
  }

  /** Once a key exceeds the end, nothing later in the row is in range. */
  lemma EarlyReturn(cells: seq<Tree<Node>>, p0: nat, p: nat, i: nat, start: int, end: int)
    requires p0 <= p < |cells| && i < |cells[p].keys| && cells[p].keys[i] > end
    requires cells[p].Leaf? && Sorted(KeysIn(cells))
    ensures InRange(KeysIn(cells[p0..]), start, end)
         == InRange(KeysIn(cells[p0..p]), start, end) + InRange(cells[p].keys[..i + 1], start, end)
  {
    var head, ks, rest := KeysIn(cells[..p]), cells[p].keys, KeysIn(cells[p + 1..]);
    KeysInSplit(cells, p);
    LateKeys(head, ks, i, rest, end);
    KeysInSplit(cells[p0..], p - p0);
    assert cells[p0..][..p - p0] == cells[p0..p] && cells[p0..][p - p0 + 1..] == cells[p + 1..];
    DropLate(KeysIn(cells[p0..p]), ks, i, rest, start, end);
  }

  lemma DropLate(scanned: seq<int>, ks: seq<int>, i: nat, rest: seq<int>, start: int, end: int)
    requires i < |ks|
    requires var late := ks[i + 1..] + rest; forall j :: 0 <= j < |late| ==> late[j] > end
    ensures InRange(scanned + ks + rest, start, end) == InRange(scanned, start, end) + InRange(ks[..i + 1], start, end)
  {
    var late := ks[i + 1..] + rest;
    assert scanned + ks + rest == (scanned + ks[..i + 1]) + late;
    InRangeNone(late, start, end);
    InRangeConcat(scanned + ks[..i + 1], late, start, end);
    InRangeConcat(scanned, ks[..i + 1], start, end);
  }

  lemma LateKeys(head: seq<int>, ks: seq<int>, i: nat, rest: seq<int>, end: int)
    requires i < |ks| && ks[i] > end && Sorted(head + ks + rest)
    ensures var late := ks[i + 1..] + rest; forall j :: 0 <= j < |late| ==> late[j] > end
  {
    var all, late := head + ks + rest, ks[i + 1..] + rest;
    assert all[|head| + i] == ks[i];
    forall j | 0 <= j < |late| ensures late[j] > end {
      assert all[|head| + i + 1 + j] == late[j];
    }
  }

  lemma KeysInSplit(cells: seq<Tree<Node>>, p: nat)
    requires p < |cells|
    ensures KeysIn(cells) == KeysIn(cells[..p]) + cells[p].keys + KeysIn(cells[p + 1..])
  {
    assert cells == cells[..p] + cells[p..];
    KeysInConcat(cells[..p], cells[p..]);
  }

  /** The whole program: build from any keys, then scan any range. */
  method Program(ks: seq<int>, start: int, end: int) returns (out: seq<int>)
    ensures Sorted(out)
    ensures forall x :: multiset(out)[x] == if start <= x <= end then multiset(ks)[x] else 0
  {
    var root: Node;
    ghost var h;
    root, h := InsertAll(ks);
    out := PrintRange(root, start, end, h);
    KeysSorted(root.model, h, true);
    InRangeSorted(Keys(root.model), start, end);
    forall x ensures multiset(out)[x] == if start <= x <= end then multiset(ks)[x] else 0 {
      InRangeCounts(Keys(root.model), start, end, x);
    }
  }
}
