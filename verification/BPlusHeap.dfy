// The nodes of Trees/BplusTreeDy.c in the heap.  The key and child arrays embedded in a
// node are fields of fixed length that the loops overwrite element by element; `next`
// chains the leaves.

module BPlusHeap {
  import opened BPlusTree
  import opened SeqFacts
  import opened SortedSeq

  class Node {
    const isLeaf: bool
    var keys: seq<int>         // MAX of them, the first `count` in use
    var child: seq<Node?>      // MAX + 1 of them
    var count: nat
    var next: Node?

    ghost var model: Tree<Node>
    ghost var repr: set<Node>

    ghost predicate Sized()
      reads this
    {
      |keys| == MAX && |child| == MAX + 1 && count <= MAX
    }

    /** The node and everything below it hold exactly `model`. */
    ghost predicate Valid()
      reads this, repr
      decreases repr, 0
      ensures Valid() ==> this in repr && Sized()
    {
      && this in repr
      && Sized()
      && model.keys == keys[..count]
      && isLeaf == model.Leaf?
      && if isLeaf then model.id == this && repr == {this}
         else KidsValid(child[..count + 1], model.kids, repr - {this})
    }

    constructor (leaf: bool)
      ensures isLeaf == leaf && count == 0 && next == null
      ensures Sized() && forall i :: 0 <= i <= MAX ==> child[i] == null
    {
      isLeaf := leaf;
      count := 0;
      next := null;
      keys := seq(MAX, _ => 0);
      child := seq(MAX + 1, _ => null);
    }

    /** `insertLeaf`: shift the greater keys up and drop the key into the gap. */
    method InsertLeaf(key: int)
      requires Sized() && count < MAX
      modifies this`count, this`keys
      ensures Sized() && count == old(count) + 1
      ensures keys[..count] == InsertSorted(old(keys[..count]), key)
    {
      var i := count;
      ghost var s := keys[..count];
      while i > 0 && keys[i - 1] > key
        invariant |keys| == MAX && 0 <= i <= count == old(count)
        invariant forall j :: 0 <= j < i ==> keys[j] == s[j]
        invariant forall j :: i < j <= count ==> keys[j] == s[j - 1]
        invariant forall j :: i <= j < count ==> s[j] > key
      {
        keys := keys[i := keys[i - 1]];
        i := i - 1;
      }
      keys := keys[i := key];
      InsertSortedAt(s, i, key);
      count := count + 1;
      assert keys[..count] == s[..i] + [key] + s[i..];
    }

    /** `splitLeaf`: sort the key into a temporary copy and deal it out in two halves. */
    method SplitLeaf(key: int) returns (upKey: int, newLeaf: Node)
      requires isLeaf && Sized() && count == MAX
      modifies this`count, this`next, this`keys
      ensures fresh(newLeaf) && newLeaf.isLeaf && newLeaf.Sized() && Sized()
      ensures count == MID && newLeaf.count == MAX + 1 - MID
      ensures var ks := InsertSorted(old(keys), key);
              keys[..MID] == ks[..MID] && newLeaf.keys[..newLeaf.count] == ks[MID..] && upKey == ks[MID]
      ensures newLeaf.next == old(next) && next == newLeaf
    {
      var temp := SortedCopy(keys, key);
      ghost var ks := temp[..];
      count := MID;
      newLeaf := new Node(true);
      newLeaf.count := MAX + 1 - MID;
      for i := 0 to MID
        invariant temp[..] == ks && count == MID && newLeaf.count == MAX + 1 - MID
        invariant newLeaf.next == null && next == old(next) && newLeaf.Sized() && Sized()
        invariant forall j :: 0 <= j < i ==> keys[j] == ks[j]
      {
        keys := keys[i := temp[i]];
      }
      assert keys[..MID] == ks[..MID];
      for i := 0 to newLeaf.count
        invariant temp[..] == ks && count == MID && newLeaf.count == MAX + 1 - MID
        invariant newLeaf.next == null && next == old(next) && newLeaf.Sized() && Sized()
        invariant keys[..MID] == ks[..MID]
        invariant forall j :: 0 <= j < i ==> newLeaf.keys[j] == ks[MID + j]
      {
        newLeaf.keys := newLeaf.keys[i := temp[MID + i]];
      }
      newLeaf.next := next;
      next := newLeaf;
      upKey := newLeaf.keys[0];
    }

    /** The shifting loop of `insert` for an inner node with room. */
    method AddChildInPlace(i: nat, up: int, right: Node)
      requires Sized() && i <= count < MAX
      modifies this`count, this`keys, this`child
      ensures Sized() && count == old(count) + 1
      ensures keys[..count] == old(keys[..i]) + [up] + old(keys[i..count])
      ensures child[..count + 1] == old(child[..i + 1]) + [right] + old(child[i + 1..count + 1])
    {
      ghost var ks, cs := keys, child;
      var j := count;
      while j > i
        invariant Sized() && i <= j <= count == old(count)
        invariant forall n :: 0 <= n < j ==> keys[n] == ks[n]
        invariant forall n :: j < n <= count ==> keys[n] == ks[n - 1]
        invariant forall n :: 0 <= n <= j ==> child[n] == cs[n]
        invariant forall n :: j + 1 < n <= count + 1 ==> child[n] == cs[n - 1]
      {
        keys := keys[j := keys[j - 1]];
        child := child[j + 1 := child[j]];
        j := j - 1;
      }
      keys := keys[i := up];
      child := child[i + 1 := right];
      count := count + 1;
      assert keys[..count] == ks[..i] + [up] + ks[i..count - 1];
      assert child[..count + 1] == cs[..i + 1] + [right] + cs[i + 1..count];
    }

    /** The splitting branch of `insert` for a full inner node: the keys and children, with
        the new ones among them, are dealt out to this node and a new right sibling. */
    method SplitInner(i: nat, up: int, right: Node) returns (upKey: int, newInner: Node)
      requires Sized() && i <= count == MAX
      modifies this`count, this`keys, this`child
      ensures fresh(newInner) && !newInner.isLeaf && newInner.Sized() && Sized()
      ensures count == MID && newInner.count == MAX - MID
      ensures var ks := old(keys[..i]) + [up] + old(keys[i..count]);
              keys[..MID] == ks[..MID] && upKey == ks[MID] && newInner.keys[..newInner.count] == ks[MID + 1..]
      ensures var cs := old(child[..i + 1]) + [right] + old(child[i + 1..count + 1]);
              child[..MID + 1] == cs[..MID + 1] && newInner.child[..newInner.count + 1] == cs[MID + 1..]
    {
      WholeSlice(keys, i);
      WholeSlice(child, i + 1);
      var tempKeys := WidenedCopy(keys, i, up, 0);
      var tempChildren := WidenedCopy<Node?>(child, i + 1, right, null);
      DealLeft(tempKeys, tempChildren);
      upKey := tempKeys[MID];
      newInner := DealRight(tempKeys, tempChildren);
    }

    method DealLeft(tempKeys: array<int>, tempChildren: array<Node?>)
      requires Sized() && tempKeys.Length == MAX + 1 && tempChildren.Length == MAX + 2
      modifies this`count, this`keys, this`child
      ensures Sized() && count == MID
      ensures keys[..MID] == tempKeys[..MID] && child[..MID + 1] == tempChildren[..MID + 1]
    {
      count := MID;
      for j := 0 to MID
        invariant Sized() && count == MID
        invariant forall n :: 0 <= n < j ==> keys[n] == tempKeys[n] && child[n] == tempChildren[n]
      {
        keys := keys[j := tempKeys[j]];
        child := child[j := tempChildren[j]];
      }
      child := child[MID := tempChildren[MID]];
    }

    static method DealRight(tempKeys: array<int>, tempChildren: array<Node?>) returns (newInner: Node)
      requires tempKeys.Length == MAX + 1 && tempChildren.Length == MAX + 2
      ensures fresh(newInner) && !newInner.isLeaf && newInner.Sized() && newInner.count == MAX - MID
      ensures newInner.keys[..newInner.count] == tempKeys[MID + 1..]
      ensures newInner.child[..newInner.count + 1] == tempChildren[MID + 1..]
    {
      newInner := new Node(false);
      newInner.count := MAX - MID;
      for j := 0 to newInner.count
        invariant newInner.Sized() && newInner.count == MAX - MID
        invariant forall n :: 0 <= n < j ==>
          newInner.keys[n] == tempKeys[MID + 1 + n] && newInner.child[n] == tempChildren[MID + 1 + n]
      {
        newInner.keys := newInner.keys[j := tempKeys[MID + 1 + j]];
        newInner.child := newInner.child[j := tempChildren[MID + 1 + j]];
      }
      newInner.child := newInner.child[newInner.count := tempChildren[MAX + 1]];
    }

    /** The child to descend into: the first separator not below the key stops the loop. */
    method FindChild(key: int) returns (i: nat)
      requires Sized()
      ensures i == ChildIndex(keys[..count], key)
    {
      i := 0;
      while i < count && key > keys[i]
        invariant i <= count
        invariant forall j :: 0 <= j < i ==> key > keys[j]
      {
        i := i + 1;
      }
      ChildIndexAt(keys[..count], key, i);
    }

    // ----- recursive insertion -----

    /** `insert`: refines the insertion on values, and keeps the leaves of this subtree
        chained to each other and to whatever followed them. */
    method Insert(key: int, ghost tail: Node?)
      returns (result: Node?, upKey: int, newChild: Node?, ghost newLeaf: Node)
      requires Valid() && WellShaped(model) && Linked(Cells(model), tail)
      modifies repr
      decreases repr, 1
      ensures Valid() && fresh(repr - old(repr))
      ensures result == null || result == this
      ensures result == null ==> BPlusTree.Insert(old(model), key, newLeaf) == Done(model)
      ensures result != null ==>
        && newChild != null && newChild.Valid()
        && fresh(newChild.repr - old(repr)) && newChild.repr !! repr
        && BPlusTree.Insert(old(model), key, newLeaf) == Split(model, upKey, newChild.model)
      ensures Linked(OutcomeCells(BPlusTree.Insert(old(model), key, newLeaf)), tail)
    {
      if isLeaf {
        if count < MAX {
          InsertAtLeaf(key, tail, this);
          result, upKey, newChild, newLeaf := null, 0, null, this;
        } else {
          upKey, newChild := SplitAtLeaf(key, tail);
          result, newLeaf := this, newChild;
        }
      } else {
        result, upKey, newChild, newLeaf := InsertInner(key, tail);
      }
    }

    method InsertInner(key: int, ghost tail: Node?)
      returns (result: Node?, upKey: int, newChild: Node?, ghost newLeaf: Node)
      requires Valid() && !isLeaf && WellShaped(model) && Linked(Cells(model), tail)
      modifies repr
      decreases repr, 0, 1
      ensures Valid() && fresh(repr - old(repr))
      ensures result == null || result == this
      ensures result == null ==> BPlusTree.Insert(old(model), key, newLeaf) == Done(model)
      ensures result != null ==>
        && newChild != null && newChild.Valid()
        && fresh(newChild.repr - old(repr)) && newChild.repr !! repr
        && BPlusTree.Insert(old(model), key, newLeaf) == Split(model, upKey, newChild.model)
      ensures Linked(OutcomeCells(BPlusTree.Insert(old(model), key, newLeaf)), tail)
    {
      CellsHeld(this);
      var i := FindChild(key);
      var split, tempKey, tempChild;
      ghost var ra, rb;
      split, tempKey, tempChild, newLeaf, ra, rb := Descend(i, key, tail);
      ghost var r := ra + child[i].repr + rb + (if split == null then {} else tempChild.repr);
      assert fresh(r - old(repr));
      result, upKey, newChild :=
        Finish(i, split, tempKey, tempChild, ra, rb, OutcomeCells(BPlusTree.Insert(model, key, newLeaf)), tail);
      forall o | o in repr ensures o in old(repr) || fresh(o) {
        assert o in {this} + r;
      }
      if result != null {
        forall o | o in newChild.repr ensures o in old(repr) || fresh(o) {
          assert o in r || fresh(o);
        }
      }
    }

    /** What `insert` does with this node once the recursive call has returned. */
    method Finish(i: nat, split: Node?, tempKey: int, tempChild: Node?, ghost ra: set<Node>, ghost rb: set<Node>,
                  ghost cells: seq<Tree<Node>>, ghost tail: Node?)
      returns (result: Node?, upKey: int, newChild: Node?)
      requires i < |child| && child[i] != null && Around(i, child[i], ra, rb)
      requires split != null ==> tempChild != null && Beside(i, tempChild, ra, rb)
      requires Linked(cells, tail)
      modifies this`count, this`model, this`repr, this`keys, this`child
      ensures Valid() && result in {null, this}
      ensures var r := ra + old(child[i]).repr + rb + (if split == null then {} else tempChild.repr);
              repr <= {this} + r && (result != null ==> newChild != null && fresh(newChild.repr - r))
      ensures result == null ==> Done(model) == InnerOutcome(old(model).keys, old(model).kids, i,
                if split == null then Done(old(child[i]).model) else Split(old(child[i]).model, tempKey, tempChild.model))
      ensures result != null ==>
        && newChild.Valid() && newChild.repr !! repr && split != null
        && Split(model, upKey, newChild.model)
           == AddChild(old(model).keys, old(model).kids, i, old(child[i]).model, tempKey, tempChild.model)
      ensures Linked(cells, tail)
    {
      if split == null {
        result, upKey, newChild := null, 0, null;
        KeepChild(i, ra, rb);
      } else if count < MAX {
        AddChildHere(i, tempKey, tempChild, ra, rb);
        result, upKey, newChild := null, 0, null;
      } else {
        upKey, newChild := SplitHere(i, tempKey, tempChild, ra, rb);
        result := this;
      }
      forall n | 0 <= n < |cells| ensures cells[n].id.next == old(cells[n].id.next) {
        assert old(allocated(cells[n]));
        assert old(allocated(cells[n].id));
      }
    }

    /** This node is whole except that child i may hold something new: its siblings hold
        what the model says, within ra and rb. */
    ghost predicate Around(i: nat, c: Node, ra: set<Node>, rb: set<Node>)
      reads this, ra, rb, c, c.repr
    {
      && !isLeaf && model.Inner?
      && Sized() && i <= count && |model.kids| == count + 1
      && model.keys == keys[..count]
      && child[i] == c && c.Valid()
      && KidsValid(child[..i], model.kids[..i], ra)
      && KidsValid(child[i + 1..count + 1], model.kids[i + 1..], rb)
      && ra !! rb && ra !! c.repr && rb !! c.repr
      && this !in ra && this !in rb && this !in c.repr
    }

    /** The recursive step of `insert`, before this node itself is changed. */
    method Descend(i: nat, key: int, ghost tail: Node?)
      returns (split: Node?, tempKey: int, tempChild: Node?, ghost newLeaf: Node,
               ghost ra: set<Node>, ghost rb: set<Node>)
      requires Valid() && !isLeaf && WellShaped(model) && Linked(Cells(model), tail)
      requires i == ChildIndex(model.keys, key)
      modifies repr - {this}
      decreases repr, 0, 0
      ensures child[i] != null && Around(i, child[i], ra, rb)
      ensures ra <= repr && rb <= repr && fresh(child[i].repr - repr)
      ensures split == null ==> BPlusTree.Insert(model.kids[i], key, newLeaf) == Done(child[i].model)
      ensures split != null ==>
        && tempChild != null && fresh(tempChild.repr - repr) && Beside(i, tempChild, ra, rb)
        && BPlusTree.Insert(model.kids[i], key, newLeaf) == Split(child[i].model, tempKey, tempChild.model)
      ensures Linked(OutcomeCells(BPlusTree.Insert(model, key, newLeaf)), tail)
    {
      ghost var a, b, childTail;
      ra, rb, a, b, childTail := BeforeInsert(i, tail);
      assert model.kids[i] in model.kids;
      split, tempKey, tempChild, newLeaf := InsertBelow(i, key, ra, rb, childTail);
      AfterDescent(model.keys, model.kids, i, key, newLeaf, a, b, childTail, tail);
    }

    /** The recursive call on child i leaves this node and the siblings alone. */
    method InsertBelow(i: nat, key: int, ghost ra: set<Node>, ghost rb: set<Node>, ghost childTail: Node?)
      returns (split: Node?, tempKey: int, tempChild: Node?, ghost newLeaf: Node)
      requires Sized() && i <= count && child[i] != null && Around(i, child[i], ra, rb)
      requires child[i].model == model.kids[i] && WellShaped(child[i].model)
      requires Linked(Cells(child[i].model), childTail)
      requires this in repr && ra <= repr && rb <= repr && child[i].repr <= repr
      modifies child[i].repr
      decreases child[i].repr, 2
      ensures Around(i, child[i], ra, rb) && fresh(child[i].repr - old(child[i].repr))
      ensures split == null ==> BPlusTree.Insert(model.kids[i], key, newLeaf) == Done(child[i].model)
      ensures split != null ==>
        && tempChild != null && fresh(tempChild.repr - old(child[i].repr))
        && Beside(i, tempChild, ra, rb)
        && BPlusTree.Insert(model.kids[i], key, newLeaf) == Split(child[i].model, tempKey, tempChild.model)
      ensures Linked(OutcomeCells(BPlusTree.Insert(model.kids[i], key, newLeaf)), childTail)
    {
      var c := child[i];
      split, tempKey, tempChild, newLeaf := c.Insert(key, childTail);
    }

    /** Where the subtree under child i lies, and which leaves surround it. */
    lemma BeforeInsert(i: nat, tail: Node?)
      returns (ra: set<Node>, rb: set<Node>, a: seq<Tree<Node>>, b: seq<Tree<Node>>, childTail: Node?)
      requires Valid() && !isLeaf && i <= count && Linked(Cells(model), tail)
      ensures child[i] != null && Around(i, child[i], ra, rb) && child[i].model == model.kids[i]
      ensures ra <= repr && rb <= repr && child[i].repr <= repr
      ensures a == CellsOf(model.kids[..i]) && b == CellsOf(model.kids[i + 1..]) && childTail == IdAt(b, 0, tail)
      ensures Linked(a, IdAt(Cells(model.kids[i]), 0, childTail)) && Linked(Cells(model.kids[i]), childTail) && Linked(b, tail)
      ensures forall c :: c in a || c in b ==> c.Leaf? && c.id in ra + rb && c.id !in child[i].repr
      ensures forall c :: c in Cells(model.kids[i]) ==> c.Leaf? && c.id in child[i].repr
    {
      var cs := child[..count + 1];
      a, b, childTail := BeforeDescent(model.keys, model.kids, i, tail);
      ra, rb := KidsAround(cs, model.kids, repr - {this}, i);
      assert cs[..i] == child[..i] && cs[i + 1..] == child[i + 1..count + 1];
      SiblingCells(cs, model.kids, i, ra, rb);
      CellsHeld(cs[i]);
    }

    /** The recursive call did not split child i. */
    ghost method KeepChild(i: nat, ra: set<Node>, rb: set<Node>)
      requires i < |child| && child[i] != null && Around(i, child[i], ra, rb)
      modifies this`model, this`repr
      ensures Valid() && repr == {this} + (ra + child[i].repr + rb)
      ensures model == Inner(old(model).keys, old(model).kids[i := child[i].model])
    {
      var r := ra + child[i].repr + rb;
      var cs, kids := child[..count + 1], model.kids[i := child[i].model];
      OneValid(child[i]);
      JoinAround(child[..i], model.kids[..i], ra, [child[i]], [child[i].model], child[i].repr,
                 child[i + 1..count + 1], model.kids[i + 1..], rb);
      assert cs == child[..i] + [child[i]] + child[i + 1..count + 1];
      assert kids == model.kids[..i] + [child[i].model] + model.kids[i + 1..];
      Adopt(model.keys, kids, r);
    }

    /** The tail of `insert` when this node has room for the new sibling. */
    method AddChildHere(i: nat, tempKey: int, tempChild: Node, ghost ra: set<Node>, ghost rb: set<Node>)
      requires i < |child| && child[i] != null && Around(i, child[i], ra, rb) && count < MAX
      requires Beside(i, tempChild, ra, rb)
      modifies this`count, this`model, this`repr, this`keys, this`child
      ensures Valid() && repr == {this} + (ra + (old(child[i]).repr + tempChild.repr) + rb)
      ensures Done(model) == AddChild(old(model).keys, old(model).kids, i, old(child[i]).model, tempKey, tempChild.model)
    {
      ghost var cs, kids, r := PairJoined(i, tempChild, ra, rb);
      SliceAround(keys, count, i, tempKey);
      AddChildInPlace(i, tempKey, tempChild);
      Adopt(keys[..count], kids, r);
    }

    /** The tail of `insert` when this node is full and splits in turn. */
    method SplitHere(i: nat, tempKey: int, tempChild: Node, ghost ra: set<Node>, ghost rb: set<Node>)
      returns (upKey: int, newChild: Node)
      requires i < |child| && child[i] != null && Around(i, child[i], ra, rb) && count == MAX
      requires Beside(i, tempChild, ra, rb)
      modifies this`count, this`model, this`repr, this`keys, this`child
      ensures Valid() && newChild.Valid() && newChild.repr !! repr
      ensures var r := ra + (old(child[i]).repr + tempChild.repr) + rb;
              repr <= {this} + r && fresh(newChild.repr - r)
      ensures Split(model, upKey, newChild.model)
           == AddChild(old(model).keys, old(model).kids, i, old(child[i]).model, tempKey, tempChild.model)
    {
      ghost var cs, kids, r := PairJoined(i, tempChild, ra, rb);
      SliceAround(keys, count, i, tempKey);
      upKey, newChild := SplitAndAdopt(i, tempKey, tempChild, cs, kids, r);
    }

    method SplitAndAdopt(i: nat, tempKey: int, tempChild: Node, ghost cs: seq<Node?>, ghost kids: seq<Tree<Node>>, ghost r: set<Node>)
      returns (upKey: int, newChild: Node)
      requires Sized() && i <= count == MAX && !isLeaf && this !in r
      requires cs == child[..i + 1] + [tempChild] + child[i + 1..count + 1] && KidsValid(cs, kids, r)
      modifies this`count, this`model, this`repr, this`keys, this`child
      ensures Valid() && newChild.Valid() && newChild.repr !! repr
      ensures repr <= {this} + r && fresh(newChild.repr - r)
      ensures var ks := old(keys[..i]) + [tempKey] + old(keys[i..count]);
        && model == Inner(ks[..MID], kids[..MID + 1]) && upKey == ks[MID]
        && newChild.model == Inner(ks[MID + 1..], kids[MID + 1..])
    {
      ghost var u, v;
      upKey, newChild, u, v := SplitKids(i, tempKey, tempChild, cs, kids, r);
      AdoptHalves(newChild, kids[..MID + 1], u, kids[MID + 1..], v);
    }

    /** After the split each of the two nodes points to its half of the subtrees. */
    method SplitKids(i: nat, tempKey: int, tempChild: Node, ghost cs: seq<Node?>, ghost kids: seq<Tree<Node>>, ghost r: set<Node>)
      returns (upKey: int, newChild: Node, ghost u: set<Node>, ghost v: set<Node>)
      requires Sized() && i <= count == MAX && this !in r
      requires cs == child[..i + 1] + [tempChild] + child[i + 1..count + 1] && KidsValid(cs, kids, r)
      modifies this`count, this`keys, this`child
      ensures fresh(newChild) && !newChild.isLeaf && newChild.Sized() && Sized() && count == MID && newChild.count == MAX - MID
      ensures var ks := old(keys[..i]) + [tempKey] + old(keys[i..count]);
              keys[..count] == ks[..MID] && upKey == ks[MID] && newChild.keys[..newChild.count] == ks[MID + 1..]
      ensures KidsValid(child[..count + 1], kids[..MID + 1], u) && KidsValid(newChild.child[..newChild.count + 1], kids[MID + 1..], v)
      ensures u !! v && u <= r && v <= r && newChild !in r
    {
      u, v := KidsSplit(cs, kids, r, MID + 1);
      ghost var left, right := cs[..MID + 1], cs[MID + 1..];
      upKey, newChild := SplitInner(i, tempKey, tempChild);
      assert child[..count + 1] == left && newChild.child[..newChild.count + 1] == right;
    }

    /** The bookkeeping of a split: each of the two nodes owns its half of the subtrees. */
    ghost method AdoptHalves(right: Node, ku: seq<Tree<Node>>, u: set<Node>, kv: seq<Tree<Node>>, v: set<Node>)
      requires Sized() && !isLeaf && right.Sized() && !right.isLeaf && right != this
      requires KidsValid(child[..count + 1], ku, u) && KidsValid(right.child[..right.count + 1], kv, v)
      requires u !! v && this !in u && this !in v && right !in u && right !in v
      modifies this`model, this`repr, right`model, right`repr
      ensures Valid() && model == Inner(keys[..count], ku) && repr == {this} + u
      ensures right.Valid() && right.model == Inner(right.keys[..right.count], kv) && right.repr == {right} + v
    {
      right.Adopt(right.keys[..right.count], kv, v);
      Adopt(keys[..count], ku, u);
    }

    /** The new sibling lies apart from this node and all its children. */
    ghost predicate Beside(i: nat, right: Node, ra: set<Node>, rb: set<Node>)
      requires i < |child| && child[i] != null
      reads this, child[i], right, right.repr
    {
      && right.Valid() && this !in right.repr
      && right.repr !! ra && right.repr !! rb && right.repr !! child[i].repr
    }

    /** The child list with the new sibling put right of child i. */
    lemma PairJoined(i: nat, right: Node, ra: set<Node>, rb: set<Node>)
      returns (cs: seq<Node?>, kids: seq<Tree<Node>>, r: set<Node>)
      requires i < |child| && child[i] != null && Around(i, child[i], ra, rb) && Beside(i, right, ra, rb)
      ensures cs == child[..i + 1] + [right] + child[i + 1..count + 1]
      ensures kids == model.kids[..i] + [child[i].model, right.model] + model.kids[i + 1..]
      ensures r == ra + (child[i].repr + right.repr) + rb && this !in r
      ensures KidsValid(cs, kids, r)
    {
      var c := child[i];
      cs := child[..i + 1] + [right] + child[i + 1..count + 1];
      kids := model.kids[..i] + [c.model, right.model] + model.kids[i + 1..];
      r := ra + (c.repr + right.repr) + rb;
      OneValid(c);
      OneValid(right);
      KidsJoin([c], [c.model], c.repr, [right], [right.model], right.repr);
      JoinAround(child[..i], model.kids[..i], ra, [c] + [right], [c.model] + [right.model], c.repr + right.repr,
                 child[i + 1..count + 1], model.kids[i + 1..], rb);
      assert cs == child[..i] + ([c] + [right]) + child[i + 1..count + 1];
      assert kids == model.kids[..i] + ([c.model] + [right.model]) + model.kids[i + 1..];
    }

    /** Ghost bookkeeping: this inner node now owns the subtrees in its child array. */
    ghost method Adopt(ks: seq<int>, kids: seq<Tree<Node>>, r: set<Node>)
      requires Sized() && !isLeaf
      requires ks == keys[..count] && KidsValid(child[..count + 1], kids, r)
      requires this !in r
      modifies this`model, this`repr
      ensures Valid() && model == Inner(ks, kids) && repr == {this} + r
    {
      model := Inner(ks, kids);
      repr := {this} + r;
      assert repr - {this} == r;
    }

    method InsertAtLeaf(key: int, ghost tail: Node?, ghost newLeaf: Node)
      requires Valid() && isLeaf && count < MAX && Linked(Cells(model), tail)
      modifies this
      ensures Valid() && repr == old(repr)
      ensures BPlusTree.Insert(old(model), key, newLeaf) == Done(model)
      ensures Linked(Cells(model), tail)
    {
      assert Cells(model)[0] == model;
      InsertLeaf(key);
      model := Leaf(this, keys[..count]);
      assert Cells(model) == [model];
    }

    method SplitAtLeaf(key: int, ghost tail: Node?) returns (upKey: int, newLeaf: Node)
      requires Valid() && isLeaf && count == MAX && Linked(Cells(model), tail)
      modifies this
      ensures Valid() && repr == old(repr)
      ensures newLeaf.Valid() && fresh(newLeaf.repr)
      ensures BPlusTree.Insert(old(model), key, newLeaf) == Split(model, upKey, newLeaf.model)
      ensures Linked(Cells(model) + Cells(newLeaf.model), tail)
    {
      assert Cells(model)[0] == model && next == tail;
      assert keys[..count] == keys;
      upKey, newLeaf := SplitLeaf(key);
      newLeaf.model := Leaf(newLeaf, newLeaf.keys[..newLeaf.count]);
      newLeaf.repr := {newLeaf};
      model := Leaf(this, keys[..count]);
      assert Cells(model) + Cells(newLeaf.model) == [model, newLeaf.model];
    }
  }

  /** The temporary array of `splitLeaf`: the keys of a full leaf, then the new key
      bubbled down to its place. */
  method SortedCopy(s: seq<int>, key: int) returns (temp: array<int>)
    ensures fresh(temp) && temp[..] == InsertSorted(s, key)
  {
    temp := new int[|s| + 1];
    for i := 0 to |s|
      invariant forall j :: 0 <= j < i ==> temp[j] == s[j]
    {
      temp[i] := s[i];
    }
    temp[|s|] := key;
    assert temp[..|s|] == s;
    BubbleDown(temp, s, key);
  }

  method BubbleDown(temp: array<int>, ghost s: seq<int>, key: int)
    requires temp.Length == |s| + 1 && temp[..|s|] == s && temp[|s|] == key
    modifies temp
    ensures temp[..] == InsertSorted(s, key)
  {
    var i := temp.Length - 1;
    while i > 0 && temp[i] < temp[i - 1]
      invariant 0 <= i <= |s|
      invariant forall j :: 0 <= j < i ==> temp[j] == s[j]
      invariant temp[i] == key
      invariant forall j :: i < j <= |s| ==> temp[j] == s[j - 1]
      invariant forall j :: i <= j < |s| ==> s[j] > key
    {
      temp[i], temp[i - 1] := temp[i - 1], temp[i];
      i := i - 1;
    }
    InsertSortedAt(s, i, key);
    assert temp[..] == s[..i] + [key] + s[i..];
  }

  /** The temporary arrays of the inner split: copy, shift up from i, fill the gap. */
  method WidenedCopy<T>(s: seq<T>, i: nat, x: T, zero: T) returns (temp: array<T>)
    requires i <= |s|
    ensures fresh(temp) && temp[..] == s[..i] + [x] + s[i..]
  {
    temp := new T[|s| + 1](_ => zero);
    for j := 0 to |s|
      invariant forall n :: 0 <= n < j ==> temp[n] == s[n]
    {
      temp[j] := s[j];
    }
    var j := |s|;
    while j > i
      invariant i <= j <= |s|
      invariant forall n :: 0 <= n < j ==> temp[n] == s[n]
      invariant forall n :: j < n <= |s| ==> temp[n] == s[n - 1]
    {
      temp[j] := temp[j - 1];
      j := j - 1;
    }
    temp[i] := x;
    assert temp[..] == s[..i] + [x] + s[i..];
  }

  lemma {:induction false} InsertSortedAt(s: seq<int>, i: nat, key: int)
    requires i <= |s|
    requires forall j :: i <= j < |s| ==> s[j] > key
    requires i == 0 || s[i - 1] <= key
    ensures InsertSorted(s, key) == s[..i] + [key] + s[i..]
  {
    if i < |s| {
      var n := |s| - 1;
      InsertSortedAt(s[..n], i, key);
      assert s[..n][..i] == s[..i];
      assert s[i..] == s[..n][i..] + [s[n]];
    } else {
      assert s[..i] == s;
    }
  }

  lemma SliceAround(s: seq<int>, n: nat, i: nat, x: int)
    requires i <= n <= |s|
    ensures s[..n][..i] + [x] + s[..n][i..] == s[..i] + [x] + s[i..n]
  {
  }

  lemma {:induction false} ChildIndexAt(ks: seq<int>, key: int, i: nat)
    requires i <= |ks|
    requires forall j :: 0 <= j < i ==> key > ks[j]
    requires i < |ks| ==> key <= ks[i]
    ensures ChildIndex(ks, key) == i
  {
    if ChildIndex(ks, key) != i {
      assert false;
    }
  }

  // ----- lists of subtrees, each in its own part of the heap -----

  /** The nodes in cs hold the trees in kids, each in its own part of r. */
  ghost predicate KidsValid(cs: seq<Node?>, kids: seq<Tree<Node>>, r: set<Node>)
    reads r
    decreases r, 1, |cs|
  {
    && |cs| == |kids|
    && (cs != [] ==>
          var n := |cs| - 1;
          var c := cs[n];
          && c != null && c in r && c.repr <= r
          && c.Valid() && c.model == kids[n]
          && KidsValid(cs[..n], kids[..n], r - c.repr))
  }

  lemma {:induction false} KidsGrow(cs: seq<Node?>, kids: seq<Tree<Node>>, r: set<Node>, r': set<Node>)
    requires KidsValid(cs, kids, r) && r <= r'
    ensures KidsValid(cs, kids, r')
    decreases |cs|
  {
    if cs != [] {
      var n := |cs| - 1;
      KidsGrow(cs[..n], kids[..n], r - cs[n].repr, r' - cs[n].repr);
    }
  }

  lemma {:induction false} KidsJoin(a: seq<Node?>, ka: seq<Tree<Node>>, ra: set<Node>,
                                    b: seq<Node?>, kb: seq<Tree<Node>>, rb: set<Node>)
    requires KidsValid(a, ka, ra) && KidsValid(b, kb, rb) && ra !! rb
    ensures KidsValid(a + b, ka + kb, ra + rb)
    decreases |b|
  {
    if b == [] {
      assert a + b == a && ka + kb == ka;
      KidsGrow(a, ka, ra, ra + rb);
    } else {
      var n := |b| - 1;
      KidsJoin(a, ka, ra, b[..n], kb[..n], rb - b[n].repr);
      assert (a + b)[..|a| + n] == a + b[..n] && (ka + kb)[..|a| + n] == ka + kb[..n];
      assert (ra + rb) - b[n].repr == ra + (rb - b[n].repr);
    }
  }

  lemma {:induction false} KidsSplit(cs: seq<Node?>, kids: seq<Tree<Node>>, r: set<Node>, m: nat)
    returns (u: set<Node>, v: set<Node>)
    requires KidsValid(cs, kids, r) && m <= |cs|
    ensures KidsValid(cs[..m], kids[..m], u) && KidsValid(cs[m..], kids[m..], v)
    ensures u !! v && u <= r && v <= r
    decreases |cs|
  {
    if m == |cs| {
      u, v := r, {};
      assert cs[..m] == cs && kids[..m] == kids;
    } else {
      var n := |cs| - 1;
      var w;
      u, w := KidsSplit(cs[..n], kids[..n], r - cs[n].repr, m);
      v := w + cs[n].repr;
      assert cs[m..][..n - m] == cs[..n][m..] && kids[m..][..n - m] == kids[..n][m..];
      assert cs[..n][..m] == cs[..m] && kids[..n][..m] == kids[..m];
      assert v - cs[n].repr == w;
    }
  }

  /** Child i and its siblings, each group in its own part of r. */
  lemma KidsAround(cs: seq<Node?>, kids: seq<Tree<Node>>, r: set<Node>, i: nat)
    returns (ra: set<Node>, rb: set<Node>)
    requires KidsValid(cs, kids, r) && i < |cs|
    ensures cs[i] != null && cs[i].Valid() && cs[i].model == kids[i] && cs[i].repr <= r
    ensures KidsValid(cs[..i], kids[..i], ra) && KidsValid(cs[i + 1..], kids[i + 1..], rb)
    ensures ra <= r && rb <= r && ra !! rb && ra !! cs[i].repr && rb !! cs[i].repr
  {
    var u;
    u, rb := KidsSplit(cs, kids, r, i + 1);
    assert cs[..i + 1][..i] == cs[..i] && kids[..i + 1][..i] == kids[..i];
    ra := u - cs[i].repr;
  }

  lemma OneValid(c: Node)
    requires c.Valid()
    ensures KidsValid([c], [c.model], c.repr)
  {
    assert [c][..0] == [] && [c.model][..0] == [];
  }

  lemma JoinAround(a: seq<Node?>, ka: seq<Tree<Node>>, ra: set<Node>,
                   m: seq<Node?>, km: seq<Tree<Node>>, rm: set<Node>,
                   b: seq<Node?>, kb: seq<Tree<Node>>, rb: set<Node>)
    requires KidsValid(a, ka, ra) && KidsValid(m, km, rm) && KidsValid(b, kb, rb)
    requires ra !! rb && ra !! rm && rb !! rm
    ensures KidsValid(a + m + b, ka + km + kb, ra + rm + rb)
  {
    KidsJoin(a, ka, ra, m, km, rm);
    KidsJoin(a + m, ka + km, ra + rm, b, kb, rb);
  }

  // ----- the chain of leaves -----

  /** The `next` fields of the leaves follow the row of leaves and end at `tail`. */
  ghost predicate Linked(cells: seq<Tree<Node>>, tail: Node?)
    reads set c | c in cells && c.Leaf? :: c.id
  {
    && (forall c :: c in cells ==> c.Leaf?)
    && (forall i {:trigger cells[i].id.next} :: 0 <= i < |cells| ==> cells[i].id.next == IdAt(cells, i + 1, tail))
  }

  ghost function IdAt(cells: seq<Tree<Node>>, i: nat, tail: Node?): Node? {
    if i < |cells| && cells[i].Leaf? then cells[i].id else tail
  }

  lemma LinkedSplit(a: seq<Tree<Node>>, b: seq<Tree<Node>>, tail: Node?)
    requires Linked(a + b, tail)
    ensures Linked(a, IdAt(b, 0, tail)) && Linked(b, tail)
  {
    var ab := a + b;
    forall i | 0 <= i < |a| ensures a[i].Leaf? && a[i].id.next == IdAt(a, i + 1, IdAt(b, 0, tail)) {
      assert ab[i] == a[i] && ab[i] in ab;
      assert i + 1 < |ab| ==> ab[i + 1] == if i + 1 < |a| then a[i + 1] else b[0];
    }
    forall i | 0 <= i < |b| ensures b[i].Leaf? && b[i].id.next == IdAt(b, i + 1, tail) {
      assert ab[|a| + i] == b[i] && ab[|a| + i] in ab;
      assert i + 1 < |b| ==> ab[|a| + i + 1] == b[i + 1];
    }
  }

  lemma LinkedJoin(a: seq<Tree<Node>>, b: seq<Tree<Node>>, tail: Node?)
    requires Linked(a, IdAt(b, 0, tail)) && Linked(b, tail)
    ensures Linked(a + b, tail)
  {
    var ab := a + b;
    forall i | 0 <= i < |ab| ensures ab[i].Leaf? && ab[i].id.next == IdAt(ab, i + 1, tail) {
      if i < |a| {
        assert ab[i] == a[i] && a[i] in a;
      } else {
        assert ab[i] == b[i - |a|] && b[i - |a|] in b;
      }
    }
  }

  /** Each leaf of the row is a node of the subtree and holds the keys of its cell. */
  lemma {:induction false} CellsHeld(n: Node)
    requires n.Valid()
    ensures forall c :: c in Cells(n.model) ==> c.Leaf? && c.id in n.repr && c.id.Valid() && c.id.model == c
    decreases n.repr, 0
  {
    if !n.isLeaf {
      KidCellsHeld(n.child[..n.count + 1], n.model.kids, n.repr - {n});
    }
  }

  lemma {:induction false} KidCellsHeld(cs: seq<Node?>, kids: seq<Tree<Node>>, r: set<Node>)
    requires KidsValid(cs, kids, r)
    ensures forall c :: c in CellsOf(kids) ==> c.Leaf? && c.id in r && c.id.Valid() && c.id.model == c
    decreases r, 1, |cs|
  {
    if cs != [] {
      var n := |cs| - 1;
      CellsHeld(cs[n]);
      KidCellsHeld(cs[..n], kids[..n], r - cs[n].repr);
      CellsOfAround(kids, n);
      assert CellsOf(kids[n + 1..]) == [];
    }
  }

  lemma SiblingCells(cs: seq<Node?>, kids: seq<Tree<Node>>, i: nat, ra: set<Node>, rb: set<Node>)
    requires i < |cs| == |kids| && cs[i] != null
    requires KidsValid(cs[..i], kids[..i], ra) && KidsValid(cs[i + 1..], kids[i + 1..], rb)
    requires ra !! cs[i].repr && rb !! cs[i].repr
    ensures forall c :: c in CellsOf(kids[..i]) || c in CellsOf(kids[i + 1..]) ==> c.Leaf? && c.id in ra + rb && c.id !in cs[i].repr
  {
    KidCellsHeld(cs[..i], kids[..i], ra);
    KidCellsHeld(cs[i + 1..], kids[i + 1..], rb);
  }

  /** The row of leaves around child i, before `insert` recurses into it. */
  lemma BeforeDescent(keys: seq<int>, kids: seq<Tree<Node>>, i: nat, tail: Node?)
    returns (a: seq<Tree<Node>>, b: seq<Tree<Node>>, childTail: Node?)
    requires i < |kids| && Linked(Cells(Inner(keys, kids)), tail)
    ensures a == CellsOf(kids[..i]) && b == CellsOf(kids[i + 1..]) && childTail == IdAt(b, 0, tail)
    ensures Linked(a, IdAt(Cells(kids[i]), 0, childTail)) && Linked(Cells(kids[i]), childTail) && Linked(b, tail)
  {
    a, b := CellsOf(kids[..i]), CellsOf(kids[i + 1..]);
    childTail := IdAt(b, 0, tail);
    CellsOfAround(kids, i);
    LinkedSplit(a + Cells(kids[i]), b, tail);
    LinkedSplit(a, Cells(kids[i]), childTail);
  }

  /** The row of leaves after the recursion: the first leaf of a subtree stays first,
      so the leaf before it stays linked. */
  lemma AfterDescent(keys: seq<int>, kids: seq<Tree<Node>>, i: nat, key: int, newLeaf: Node,
                     a: seq<Tree<Node>>, b: seq<Tree<Node>>, childTail: Node?, tail: Node?)
    requires i == ChildIndex(keys, key) && WellShaped(Inner(keys, kids)) && WellShaped(kids[i])
    requires a == CellsOf(kids[..i]) && b == CellsOf(kids[i + 1..]) && childTail == IdAt(b, 0, tail)
    requires Linked(a, IdAt(Cells(kids[i]), 0, childTail)) && Linked(b, tail)
    requires Linked(OutcomeCells(BPlusTree.Insert(kids[i], key, newLeaf)), childTail)
    ensures Linked(OutcomeCells(BPlusTree.Insert(Inner(keys, kids), key, newLeaf)), tail)
  {
    var o := BPlusTree.Insert(kids[i], key, newLeaf);
    InsertCells(kids[i], key, newLeaf);
    OutcomeAround(keys, kids, i, o);
    LinkedJoin(a, OutcomeCells(o), childTail);
    LinkedJoin(a + OutcomeCells(o), b, tail);
  }
}
