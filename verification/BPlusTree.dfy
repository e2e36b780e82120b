// The B+ tree of Trees/BplusTreeDy.c as a value, the insertion it performs, and
// what every insertion keeps.  The class in BPlusHeap.dfy refines these functions.

module BPlusTree {
  import opened SeqFacts
  import opened SortedSeq

  const MAX: nat := 3            // keys per node
  const MID: nat := (MAX + 1) / 2

  /** A node.  A leaf carries the identity of the node that holds it, so that the
      left-to-right order of the leaves can be compared with the `next` chain. */
  datatype Tree<L> =
    | Leaf(id: L, keys: seq<int>)
    | Inner(keys: seq<int>, kids: seq<Tree<L>>)

  /** What `insert` hands back: nothing, or a separator and a new right sibling. */
  datatype Outcome<L> =
    | Done(tree: Tree<L>)
    | Split(left: Tree<L>, up: int, right: Tree<L>)

  // ----- the leaves and keys of a tree, left to right -----

  function Cells<L>(t: Tree<L>): seq<Tree<L>>
    decreases t, 1
  {
    match t
    case Leaf(_, _) => [t]
    case Inner(_, kids) => CellsOf(kids)
  }

  function CellsOf<L>(ts: seq<Tree<L>>): seq<Tree<L>>
    decreases ts, 0
  {
    if ts == [] then [] else Cells(ts[0]) + CellsOf(ts[1..])
  }

  function KeysIn<L>(cells: seq<Tree<L>>): seq<int> {
    if cells == [] then [] else cells[0].keys + KeysIn(cells[1..])
  }

  function Keys<L>(t: Tree<L>): seq<int> {
    KeysIn(Cells(t))
  }

  lemma {:induction false} CellsOfConcat<L>(a: seq<Tree<L>>, b: seq<Tree<L>>)
    ensures CellsOf(a + b) == CellsOf(a) + CellsOf(b)
  {
    if a == [] {
      assert a + b == b;
    } else {
      assert (a + b)[1..] == a[1..] + b;
      CellsOfConcat(a[1..], b);
    }
  }

  lemma {:induction false} KeysInConcat<L>(a: seq<Tree<L>>, b: seq<Tree<L>>)
    ensures KeysIn(a + b) == KeysIn(a) + KeysIn(b)
  {
    if a == [] {
      assert a + b == b;
    } else {
      assert (a + b)[1..] == a[1..] + b;
      KeysInConcat(a[1..], b);
    }
  }

  /** Cells of a child list around position i. */
  lemma CellsOfAround<L>(ts: seq<Tree<L>>, i: nat)
    requires i < |ts|
    ensures CellsOf(ts) == CellsOf(ts[..i]) + Cells(ts[i]) + CellsOf(ts[i + 1..])
  {
    assert ts == ts[..i] + ts[i..];
    CellsOfConcat(ts[..i], ts[i..]);
  }

  lemma {:induction false} CellsAreLeaves<L>(t: Tree<L>)
    ensures forall c :: c in Cells(t) ==> c.Leaf?
    decreases t, 1
  {
    if t.Inner? {
      CellsOfAreLeaves(t.kids);
    }
  }

  lemma {:induction false} CellsOfAreLeaves<L>(ts: seq<Tree<L>>)
    ensures forall c :: c in CellsOf(ts) ==> c.Leaf?
    decreases ts, 0
  {
    if ts != [] {
      CellsAreLeaves(ts[0]);
      CellsOfAreLeaves(ts[1..]);
    }
  }

  // ----- the invariant -----

  ghost predicate AllLe<L>(t: Tree<L>, b: int) { forall x :: x in Keys(t) ==> x <= b }
  ghost predicate AllGe<L>(t: Tree<L>, b: int) { forall x :: x in Keys(t) ==> b <= x }

  /** A subtree of height h: uniform depth, sorted nodes, separators between their
      children, and the fill bounds.  Only a root leaf may hold fewer than two keys. */
  ghost predicate Inv<L>(t: Tree<L>, h: nat, root: bool)
    decreases t
  {
    && Sorted(t.keys)
    && |t.keys| <= MAX
    && match t
       case Leaf(_, keys) => h == 1 && (root || 2 <= |keys|)
       case Inner(keys, kids) =>
         && h > 1
         && 1 <= |keys|
         && Separates(keys, kids)
         && (forall i :: 0 <= i < |kids| ==> Inv(kids[i], h - 1, false))
  }

  /** keys of child i <= separator i <= keys of child i+1 */
  ghost predicate Separates<L>(keys: seq<int>, kids: seq<Tree<L>>) {
    && |kids| == |keys| + 1
    && (forall i :: 0 <= i < |keys| ==> AllLe(kids[i], keys[i]))
    && (forall i :: 0 < i < |kids| ==> AllGe(kids[i], keys[i - 1]))
  }

  // ----- insertion -----

  /** The child `insert` and `printRange` descend into: skip separators below key. */
  function ChildIndex(keys: seq<int>, key: int): (i: nat)
    ensures i <= |keys|
    ensures forall j :: 0 <= j < i ==> key > keys[j]
    ensures i < |keys| ==> key <= keys[i]
  {
    if keys == [] || key <= keys[0] then 0 else
      var i := 1 + ChildIndex(keys[1..], key);
      assert forall j :: 0 < j < i ==> keys[j] == keys[1..][j - 1];
      i
  }

  ghost predicate WellShaped<L>(t: Tree<L>) {
    t.Inner? ==> |t.kids| == |t.keys| + 1 && forall c :: c in t.kids ==> WellShaped(c)
  }

  /** `insert`; `newId` is the identity of the leaf that a leaf split allocates. */
  function Insert<L>(t: Tree<L>, key: int, newId: L): (r: Outcome<L>)
    requires WellShaped(t)
    decreases t
  {
    match t
    case Leaf(id, keys) =>
      var ks := InsertSorted(keys, key);
      if |keys| < MAX then Done(Leaf(id, ks))
      else Split(Leaf(id, ks[..MID]), ks[MID], Leaf(newId, ks[MID..]))
    case Inner(keys, kids) =>
      var i := ChildIndex(keys, key);
      assert kids[i] in kids;
      InnerOutcome(keys, kids, i, Insert(kids[i], key, newId))
  }

  function InnerOutcome<L>(keys: seq<int>, kids: seq<Tree<L>>, i: nat, r: Outcome<L>): Outcome<L>
    requires i <= |keys| && |kids| == |keys| + 1
  {
    match r
    case Done(c) => Done(Inner(keys, kids[i := c]))
    case Split(left, up, right) => AddChild(keys, kids, i, left, up, right)
  }

  /** The tail of `insert`: put separator `up` at i and `r` right of it, then split
      the node when it was full. */
  function AddChild<L>(keys: seq<int>, kids: seq<Tree<L>>, i: nat, l: Tree<L>, up: int, r: Tree<L>): Outcome<L>
    requires i <= |keys| && |kids| == |keys| + 1
  {
    var ks := keys[..i] + [up] + keys[i..];
    var cs := kids[..i] + [l, r] + kids[i + 1..];
    if |keys| < MAX then Done(Inner(ks, cs))
    else Split(Inner(ks[..MID], cs[..MID + 1]), ks[MID], Inner(ks[MID + 1..], cs[MID + 1..]))
  }

  /** The root-growth step of the insertion loop in `main`. */
  function InsertRoot<L>(t: Tree<L>, key: int, newId: L): Tree<L>
    requires WellShaped(t)
  {
    match Insert(t, key, newId)
    case Done(t') => t'
    case Split(l, up, r) => Inner([up], [l, r])
  }

  lemma {:induction false} InvWellShaped<L>(t: Tree<L>, h: nat, root: bool)
    requires Inv(t, h, root)
    ensures WellShaped(t)
    decreases t
  {
    if t.Inner? {
      forall c | c in t.kids ensures WellShaped(c) {
        var i :| 0 <= i < |t.kids| && t.kids[i] == c;
        InvWellShaped(t.kids[i], h - 1, false);
      }
    }
  }

  // ----- what one insertion does to the row of leaves -----

  /** Position, in Cells(t), of the leaf that the descent for `key` reaches. */
  function LeafPos<L>(t: Tree<L>, key: int): nat
    requires WellShaped(t)
    decreases t
  {
    match t
    case Leaf(_, _) => 0
    case Inner(keys, kids) =>
      var i := ChildIndex(keys, key);
      assert kids[i] in kids;
      |CellsOf(kids[..i])| + LeafPos(kids[i], key)
  }

  lemma {:induction false} LeafPosInRange<L>(t: Tree<L>, key: int)
    requires WellShaped(t)
    ensures LeafPos(t, key) < |Cells(t)|
    decreases t
  {
    if t.Inner? {
      var i := ChildIndex(t.keys, key);
      assert t.kids[i] in t.kids;
      LeafPosInRange(t.kids[i], key);
      CellsOfAround(t.kids, i);
    }
  }

  /** The row of leaves after inserting key into leaf p. */
  function InsertCell<L>(cells: seq<Tree<L>>, p: nat, key: int, newId: L): seq<Tree<L>>
    requires p < |cells| && cells[p].Leaf?
  {
    cells[..p] + CellPair(cells[p], key, newId) + cells[p + 1..]
  }

  function CellPair<L>(c: Tree<L>, key: int, newId: L): seq<Tree<L>>
    requires c.Leaf?
  {
    var ks := InsertSorted(c.keys, key);
    if |c.keys| < MAX then [Leaf(c.id, ks)] else [Leaf(c.id, ks[..MID]), Leaf(newId, ks[MID..])]
  }

  function OutcomeCells<L>(r: Outcome<L>): seq<Tree<L>> {
    match r
    case Done(t) => Cells(t)
    case Split(l, _, r) => Cells(l) + Cells(r)
  }

  lemma AddChildCells<L>(keys: seq<int>, kids: seq<Tree<L>>, i: nat, l: Tree<L>, up: int, r: Tree<L>)
    requires i <= |keys| && |kids| == |keys| + 1
    ensures OutcomeCells(AddChild(keys, kids, i, l, up, r))
         == CellsOf(kids[..i]) + (Cells(l) + Cells(r)) + CellsOf(kids[i + 1..])
  {
    var cs := kids[..i] + [l, r] + kids[i + 1..];
    CellsOfConcat(kids[..i] + [l, r], kids[i + 1..]);
    CellsOfConcat(kids[..i], [l, r]);
    PairCells(l, r);
    if |keys| >= MAX {
      assert cs == cs[..MID + 1] + cs[MID + 1..];
      CellsOfConcat(cs[..MID + 1], cs[MID + 1..]);
    }
  }

  lemma ReplaceChildCells<L>(kids: seq<Tree<L>>, i: nat, c: Tree<L>)
    requires i < |kids|
    ensures CellsOf(kids[i := c]) == CellsOf(kids[..i]) + Cells(c) + CellsOf(kids[i + 1..])
  {
    CellsOfAround(kids[i := c], i);
    assert kids[i := c][..i] == kids[..i];
    assert kids[i := c][i + 1..] == kids[i + 1..];
  }

  lemma InsertCellInContext<L>(before: seq<Tree<L>>, cells: seq<Tree<L>>, after: seq<Tree<L>>, q: nat, key: int, newId: L)
    requires q < |cells| && cells[q].Leaf?
    ensures (before + cells + after)[|before| + q] == cells[q]
    ensures InsertCell(before + cells + after, |before| + q, key, newId) == before + InsertCell(cells, q, key, newId) + after
  {
    var all := before + cells + after;
    assert all[..|before| + q] == before + cells[..q];
    assert all[|before| + q + 1..] == cells[q + 1..] + after;
  }

  /** Insertion replaces exactly one leaf of the row, by itself plus the key or by
      its two halves; every other leaf, and the order of the row, is untouched. */
  lemma {:induction false} InsertCells<L>(t: Tree<L>, key: int, newId: L)
    requires WellShaped(t)
    ensures LeafPos(t, key) < |Cells(t)| && Cells(t)[LeafPos(t, key)].Leaf?
    ensures OutcomeCells(Insert(t, key, newId)) == InsertCell(Cells(t), LeafPos(t, key), key, newId)
    decreases t
  {
    CellsAreLeaves(t);
    LeafPosInRange(t, key);
    if t.Inner? {
      var i := ChildIndex(t.keys, key);
      assert t.kids[i] in t.kids;
      InsertCells(t.kids[i], key, newId);
      InnerInsertCells(t.kids, i, LeafPos(t.kids[i], key), Insert(t.kids[i], key, newId), key, newId);
      OutcomeAround(t.keys, t.kids, i, Insert(t.kids[i], key, newId));
    } else {
      assert Cells(t) == [t];
    }
  }

  lemma InnerInsertCells<L>(kids: seq<Tree<L>>, i: nat, q: nat, r: Outcome<L>, key: int, newId: L)
    requires i < |kids| && q < |Cells(kids[i])| && Cells(kids[i])[q].Leaf?
    requires OutcomeCells(r) == InsertCell(Cells(kids[i]), q, key, newId)
    ensures var p := |CellsOf(kids[..i])| + q;
      && p < |CellsOf(kids)| && CellsOf(kids)[p].Leaf?
      && CellsOf(kids[..i]) + OutcomeCells(r) + CellsOf(kids[i + 1..]) == InsertCell(CellsOf(kids), p, key, newId)
  {
    CellsOfAround(kids, i);
    InsertCellInContext(CellsOf(kids[..i]), Cells(kids[i]), CellsOf(kids[i + 1..]), q, key, newId);
  }

  lemma OutcomeAround<L>(keys: seq<int>, kids: seq<Tree<L>>, i: nat, r: Outcome<L>)
    requires i <= |keys| && |kids| == |keys| + 1
    ensures OutcomeCells(InnerOutcome(keys, kids, i, r)) == CellsOf(kids[..i]) + OutcomeCells(r) + CellsOf(kids[i + 1..])
  {
    match r
    case Done(c) => ReplaceChildCells(kids, i, c);
    case Split(left, up, right) => AddChildCells(keys, kids, i, left, up, right);
  }

  lemma LeafKeys<L>(id: L, keys: seq<int>)
    ensures Keys(Leaf(id, keys)) == keys
  {
    assert KeysIn([Leaf(id, keys)]) == keys + KeysIn([Leaf(id, keys)][1..]);
    assert [Leaf(id, keys)][1..] == [];
  }

  lemma CellPairKeys<L>(c: Tree<L>, key: int, newId: L)
    requires c.Leaf?
    ensures KeysIn(CellPair(c, key, newId)) == InsertSorted(c.keys, key)
  {
    var ks := InsertSorted(c.keys, key);
    if |c.keys| < MAX {
      LeafKeys(c.id, ks);
    } else {
      assert ks == ks[..MID] + ks[MID..];
      LeafKeys(c.id, ks[..MID]);
      LeafKeys(newId, ks[MID..]);
      KeysInConcat([Leaf(c.id, ks[..MID])], [Leaf(newId, ks[MID..])]);
      assert CellPair(c, key, newId) == [Leaf(c.id, ks[..MID])] + [Leaf(newId, ks[MID..])];
    }
  }

  lemma KeysInAround<L>(before: seq<Tree<L>>, mid: seq<Tree<L>>, after: seq<Tree<L>>)
    ensures KeysIn(before + mid + after) == KeysIn(before) + KeysIn(mid) + KeysIn(after)
  {
    KeysInConcat(before + mid, after);
    KeysInConcat(before, mid);
  }

  lemma InsertCellKeys<L>(cells: seq<Tree<L>>, p: nat, key: int, newId: L)
    requires p < |cells| && cells[p].Leaf?
    ensures multiset(KeysIn(InsertCell(cells, p, key, newId))) == multiset(KeysIn(cells)) + multiset{key}
  {
    var c := cells[p];
    var before, pair, after := cells[..p], CellPair(cells[p], key, newId), cells[p + 1..];
    CellPairKeys(c, key, newId);
    KeysInAround(before, pair, after);
    KeysInAround(before, [c], after);
    LeafKeys(c.id, c.keys);
    SplitAt(cells, p);
    InsertSortedAdds(c.keys, key);
  }

  function OutcomeKeys<L>(r: Outcome<L>): seq<int> {
    KeysIn(OutcomeCells(r))
  }

  /** Insertion adds exactly one occurrence of the key. */
  lemma InsertKeys<L>(t: Tree<L>, key: int, newId: L)
    requires WellShaped(t)
    ensures multiset(OutcomeKeys(Insert(t, key, newId))) == multiset(Keys(t)) + multiset{key}
  {
    InsertCells(t, key, newId);
    InsertCellKeys(Cells(t), LeafPos(t, key), key, newId);
  }

  // ----- insertion keeps the invariant -----

  lemma {:induction false} NonEmpty<L>(t: Tree<L>, h: nat)
    requires Inv(t, h, false)
    ensures Keys(t) != []
    decreases t
  {
    if t.Inner? {
      NonEmpty(t.kids[0], h - 1);
      CellsOfAround(t.kids, 0);
      KeysInConcat(Cells(t.kids[0]), CellsOf(t.kids[1..]));
      assert CellsOf(t.kids[..0]) == [];
      assert CellsOf(t.kids) == Cells(t.kids[0]) + CellsOf(t.kids[1..]);
    }
  }

  lemma {:induction false} KeyInSomeChild<L>(kids: seq<Tree<L>>, x: int) returns (j: nat)
    requires x in KeysIn(CellsOf(kids))
    ensures j < |kids| && x in Keys(kids[j])
  {
    KeysInConcat(Cells(kids[0]), CellsOf(kids[1..]));
    if x in Keys(kids[0]) {
      j := 0;
    } else {
      j := KeyInSomeChild(kids[1..], x);
      j := j + 1;
    }
  }

  lemma InsertMembers<L>(t: Tree<L>, key: int, newId: L, x: int)
    requires WellShaped(t)
    ensures x in OutcomeKeys(Insert(t, key, newId)) <==> x in Keys(t) || x == key
  {
    InsertKeys(t, key, newId);
    assert x in OutcomeKeys(Insert(t, key, newId)) <==> x in multiset(OutcomeKeys(Insert(t, key, newId)));
    assert x in Keys(t) <==> x in multiset(Keys(t));
  }

  ghost predicate OutcomeLe<L>(r: Outcome<L>, b: int) {
    match r case Done(c) => AllLe(c, b) case Split(l, _, r) => AllLe(l, b) && AllLe(r, b)
  }

  ghost predicate OutcomeGe<L>(r: Outcome<L>, b: int) {
    match r case Done(c) => AllGe(c, b) case Split(l, _, r) => AllGe(l, b) && AllGe(r, b)
  }

  /** Keys of the parts a child falls into stay within any bound of the child and key. */
  lemma InsertBounds<L>(t: Tree<L>, key: int, newId: L, b: int)
    requires WellShaped(t)
    ensures AllLe(t, b) && key <= b ==> OutcomeLe(Insert(t, key, newId), b)
    ensures AllGe(t, b) && b <= key ==> OutcomeGe(Insert(t, key, newId), b)
  {
    forall x ensures x in OutcomeKeys(Insert(t, key, newId)) <==> x in Keys(t) || x == key {
      InsertMembers(t, key, newId, x);
    }
    var r := Insert(t, key, newId);
    match r
    case Done(c) => assert OutcomeKeys(r) == Keys(c);
    case Split(left, up, right) =>
      KeysInConcat(Cells(left), Cells(right));
      assert OutcomeKeys(r) == Keys(left) + Keys(right);
      assert forall x :: x in Keys(left) || x in Keys(right) ==> x in OutcomeKeys(r);
  }

  lemma AddChildSeparates<L>(keys: seq<int>, kids: seq<Tree<L>>, i: nat, l: Tree<L>, up: int, r: Tree<L>)
    requires i <= |keys| && Sorted(keys) && Separates(keys, kids)
    requires AllLe(l, up) && AllGe(r, up)
    requires i < |keys| ==> AllLe(r, keys[i]) && up <= keys[i]
    requires i > 0 ==> AllGe(l, keys[i - 1]) && keys[i - 1] <= up
    ensures Sorted(keys[..i] + [up] + keys[i..])
    ensures Separates(keys[..i] + [up] + keys[i..], kids[..i] + [l, r] + kids[i + 1..])
  {
    var ks := keys[..i] + [up] + keys[i..];
    var cs := kids[..i] + [l, r] + kids[i + 1..];
    forall j | 0 <= j < |ks| ensures AllLe(cs[j], ks[j]) && AllGe(cs[j + 1], ks[j]) {
      if j < i {
        assert ks[j] == keys[j];
        assert j + 1 < i ==> cs[j + 1] == kids[j + 1];
      } else if j > i {
        assert ks[j] == keys[j - 1];
        assert j > i + 1 ==> cs[j] == kids[j - 1];
        assert cs[j + 1] == kids[j];
      }
    }
  }

  lemma SplitSeparates<L>(ks: seq<int>, cs: seq<Tree<L>>, m: nat)
    requires Sorted(ks) && Separates(ks, cs) && m < |ks|
    ensures Separates(ks[..m], cs[..m + 1]) && Separates(ks[m + 1..], cs[m + 1..])
    ensures Sorted(ks[..m]) && Sorted(ks[m + 1..])
    ensures AllLe(Inner(ks[..m], cs[..m + 1]), ks[m])
    ensures AllGe(Inner(ks[m + 1..], cs[m + 1..]), ks[m])
  {
    var left, right := cs[..m + 1], cs[m + 1..];
    forall x | x in KeysIn(CellsOf(left)) ensures x <= ks[m] {
      var j := KeyInSomeChild(left, x);
      assert AllLe(cs[j], ks[j]);
    }
    forall x | x in KeysIn(CellsOf(right)) ensures ks[m] <= x {
      var j := KeyInSomeChild(right, x);
      assert AllGe(cs[m + 1 + j], ks[m + 1 + j - 1]);
    }
    forall i | 0 < i < |right| ensures AllGe(right[i], ks[m + 1..][i - 1]) {
      assert AllGe(cs[m + 1 + i], ks[m + 1 + i - 1]);
    }
  }

  lemma AddChildInv<L>(keys: seq<int>, kids: seq<Tree<L>>, i: nat, l: Tree<L>, up: int, r: Tree<L>, h: nat, root: bool)
    requires i <= |keys| && Inv(Inner(keys, kids), h, root)
    requires Inv(l, h - 1, false) && Inv(r, h - 1, false)
    requires AllLe(l, up) && AllGe(r, up)
    requires i < |keys| ==> AllLe(r, keys[i]) && up <= keys[i]
    requires i > 0 ==> AllGe(l, keys[i - 1]) && keys[i - 1] <= up
    ensures OutcomeInv(AddChild(keys, kids, i, l, up, r), h, root)
  {
    AddChildSeparates(keys, kids, i, l, up, r);
    AddChildKids(keys, kids, i, l, r, h);
    var ks := keys[..i] + [up] + keys[i..];
    var cs := kids[..i] + [l, r] + kids[i + 1..];
    if |keys| >= MAX {
      SplitInv(ks, cs, h);
    }
  }

  lemma AddChildKids<L>(keys: seq<int>, kids: seq<Tree<L>>, i: nat, l: Tree<L>, r: Tree<L>, h: nat)
    requires h > 1 && i < |kids| && forall j :: 0 <= j < |kids| ==> Inv(kids[j], h - 1, false)
    requires Inv(l, h - 1, false) && Inv(r, h - 1, false)
    ensures var cs := kids[..i] + [l, r] + kids[i + 1..];
            forall j :: 0 <= j < |cs| ==> Inv(cs[j], h - 1, false)
  {
    var cs := kids[..i] + [l, r] + kids[i + 1..];
    forall j | 0 <= j < |cs| ensures Inv(cs[j], h - 1, false) {
      if j < i {
        assert cs[j] == kids[j];
      } else if j > i + 1 {
        assert cs[j] == kids[j - 1];
      }
    }
  }

  lemma SplitInv<L>(ks: seq<int>, cs: seq<Tree<L>>, h: nat)
    requires h > 1 && |ks| == MAX + 1 && Sorted(ks) && Separates(ks, cs)
    requires forall j :: 0 <= j < |cs| ==> Inv(cs[j], h - 1, false)
    ensures OutcomeInv(Split(Inner(ks[..MID], cs[..MID + 1]), ks[MID], Inner(ks[MID + 1..], cs[MID + 1..])), h, false)
  {
    SplitSeparates(ks, cs, MID);
    var right := cs[MID + 1..];
    forall j | 0 <= j < |right| ensures Inv(right[j], h - 1, false) {
      assert right[j] == cs[MID + 1 + j];
    }
  }

  ghost predicate OutcomeInv<L>(r: Outcome<L>, h: nat, root: bool) {
    match r
    case Done(t) => Inv(t, h, root)
    case Split(l, up, r) => Inv(l, h, false) && Inv(r, h, false) && AllLe(l, up) && AllGe(r, up)
  }

  /** Insertion keeps the invariant at the same height, whether or not it splits. */
  lemma {:induction false} InsertInv<L>(t: Tree<L>, h: nat, root: bool, key: int, newId: L)
    requires Inv(t, h, root) && WellShaped(t)
    ensures OutcomeInv(Insert(t, key, newId), h, root)
    decreases t
  {
    if t.Leaf? {
      LeafInsertInv(t.id, t.keys, h, root, key, newId);
    } else {
      var i := ChildIndex(t.keys, key);
      assert t.kids[i] in t.kids;
      InsertInv(t.kids[i], h - 1, false, key, newId);
      InnerInsertInv(t.keys, t.kids, h, root, key, newId);
    }
  }

  lemma InnerInsertInv<L>(keys: seq<int>, kids: seq<Tree<L>>, h: nat, root: bool, key: int, newId: L)
    requires Inv(Inner(keys, kids), h, root) && WellShaped(Inner(keys, kids))
    requires var i := ChildIndex(keys, key);
             WellShaped(kids[i]) && OutcomeInv(Insert(kids[i], key, newId), h - 1, false)
    ensures OutcomeInv(Insert(Inner(keys, kids), key, newId), h, root)
  {
    var i := ChildIndex(keys, key);
    var r := Insert(kids[i], key, newId);
    InsertBoundsAt(keys, kids, key, newId);
    assert Insert(Inner(keys, kids), key, newId) == InnerOutcome(keys, kids, i, r);
    if r.Done? {
      ReplaceChildInv(keys, kids, i, r.tree, h, root);
    } else {
      NonEmpty(r.left, h - 1);
      NonEmpty(r.right, h - 1);
      assert Keys(r.left)[0] in Keys(r.left) && Keys(r.right)[0] in Keys(r.right);
      assert i > 0 ==> keys[i - 1] <= Keys(r.left)[0] <= r.up;
      assert i < |keys| ==> r.up <= Keys(r.right)[0] <= keys[i];
      AddChildInv(keys, kids, i, r.left, r.up, r.right, h, root);
    }
  }

  lemma InsertBoundsAt<L>(keys: seq<int>, kids: seq<Tree<L>>, key: int, newId: L)
    requires Separates(keys, kids) && WellShaped(kids[ChildIndex(keys, key)])
    ensures var i := ChildIndex(keys, key);
            var r := Insert(kids[i], key, newId);
            && (i < |keys| ==> OutcomeLe(r, keys[i]))
            && (i > 0 ==> OutcomeGe(r, keys[i - 1]))
  {
    var i := ChildIndex(keys, key);
    if i < |keys| {
      InsertBounds(kids[i], key, newId, keys[i]);
    }
    if i > 0 {
      InsertBounds(kids[i], key, newId, keys[i - 1]);
    }
  }

  lemma ReplaceChildInv<L>(keys: seq<int>, kids: seq<Tree<L>>, i: nat, c: Tree<L>, h: nat, root: bool)
    requires i <= |keys| && Inv(Inner(keys, kids), h, root) && Inv(c, h - 1, false)
    requires i < |keys| ==> AllLe(c, keys[i])
    requires i > 0 ==> AllGe(c, keys[i - 1])
    ensures Inv(Inner(keys, kids[i := c]), h, root)
  {
  }

  lemma LeafInsertInv<L>(id: L, keys: seq<int>, h: nat, root: bool, key: int, newId: L)
    requires Inv(Leaf(id, keys), h, root)
    ensures OutcomeInv(Insert(Leaf(id, keys), key, newId), h, root)
  {
    var ks := InsertSorted(keys, key);
    InsertSortedKeepsOrder(keys, key);
    if |keys| >= MAX {
      LeafKeys(id, ks[..MID]);
      LeafKeys(newId, ks[MID..]);
    }
  }

  // ----- whole runs -----

  /** One turn of the loop in `main`: the height grows only when the root splits. */
  lemma InsertRootInv<L>(t: Tree<L>, h: nat, key: int, newId: L)
    requires Inv(t, h, true) && WellShaped(t)
    ensures Inv(InsertRoot(t, key, newId), if Insert(t, key, newId).Done? then h else h + 1, true)
    ensures Cells(InsertRoot(t, key, newId)) == OutcomeCells(Insert(t, key, newId))
    ensures multiset(Keys(InsertRoot(t, key, newId))) == multiset(Keys(t)) + multiset{key}
  {
    InsertInv(t, h, true, key, newId);
    InsertKeys(t, key, newId);
    var r := Insert(t, key, newId);
    if r.Split? {
      PairCells(r.left, r.right);
      InnerHeight(t, h);
    }
  }

  lemma PairCells<L>(l: Tree<L>, r: Tree<L>)
    ensures CellsOf([l, r]) == Cells(l) + Cells(r)
  {
    CellsOfConcat([l], [r]);
    assert [l] + [r] == [l, r];
    assert [l][1..] == [] && [r][1..] == [];
    assert CellsOf([l]) == Cells(l) + CellsOf<L>([]);
    assert CellsOf([r]) == Cells(r) + CellsOf<L>([]);
  }

  lemma InsertRootKeeps<L>(t: Tree<L>, h: nat, key: int, newId: L) returns (h': nat)
    requires Inv(t, h, true) && WellShaped(t)
    ensures h <= h' <= h + 1
    ensures Inv(InsertRoot(t, key, newId), h', true)
    ensures multiset(Keys(InsertRoot(t, key, newId))) == multiset(Keys(t)) + multiset{key}
  {
    InsertRootInv(t, h, key, newId);
    h' := if Insert(t, key, newId).Done? then h else h + 1;
  }

  lemma InnerHeight<L>(t: Tree<L>, h: nat)
    requires Inv(t, h, true)
    ensures h >= 1
  {
  }

  /** The tree that the insertion loop builds from an empty root leaf; the leaf that
      the n-th insertion may allocate is called n. */
  function Build(ks: seq<int>): Tree<nat>
    ensures WellShaped(Build(ks))
  {
    if ks == [] then Leaf(0, [])
    else
      var t := Build(ks[..|ks| - 1]);
      InsertWellShaped(t, ks[|ks| - 1], |ks|);
      InsertRoot(t, ks[|ks| - 1], |ks|)
  }

  lemma {:induction false} InsertWellShaped<L>(t: Tree<L>, key: int, newId: L)
    requires WellShaped(t)
    ensures OutcomeWellShaped(Insert(t, key, newId))
    decreases t
  {
    if t.Inner? {
      var i := ChildIndex(t.keys, key);
      assert t.kids[i] in t.kids;
      InsertWellShaped(t.kids[i], key, newId);
      var r := Insert(t.kids[i], key, newId);
      if r.Split? {
        AddChildWellShaped(t.keys, t.kids, i, r.left, r.up, r.right);
      }
    }
  }

  ghost predicate OutcomeWellShaped<L>(r: Outcome<L>) {
    match r case Done(c) => WellShaped(c) case Split(l, _, r) => WellShaped(l) && WellShaped(r)
  }

  lemma AddChildWellShaped<L>(keys: seq<int>, kids: seq<Tree<L>>, i: nat, l: Tree<L>, up: int, r: Tree<L>)
    requires i <= |keys| && |kids| == |keys| + 1
    requires WellShaped(l) && WellShaped(r) && forall c :: c in kids ==> WellShaped(c)
    ensures OutcomeWellShaped(AddChild(keys, kids, i, l, up, r))
  {
    var cs := kids[..i] + [l, r] + kids[i + 1..];
    assert forall c :: c in cs ==> c in kids || c == l || c == r;
    assert forall c :: c in cs ==> WellShaped(c);
  }

  /** Every run of insertions, duplicates included, keeps the whole invariant, holds
      exactly the inserted keys, and keeps them in order along the leaves. */
  lemma {:induction false} BuildInv(ks: seq<int>) returns (h: nat)
    ensures Inv(Build(ks), h, true)
    ensures multiset(Keys(Build(ks))) == multiset(ks)
    ensures Sorted(Keys(Build(ks)))
  {
    if ks == [] {
      h := 1;
      LeafKeys(0, []);
    } else {
      var n := |ks| - 1;
      h := BuildInv(ks[..n]);
      h := InsertRootKeeps(Build(ks[..n]), h, ks[n], |ks|);
      SplitAt(ks, n);
    }
    KeysSorted(Build(ks), h, true);
  }

  lemma {:induction false} KeysSorted<L>(t: Tree<L>, h: nat, root: bool)
    requires Inv(t, h, root)
    ensures Sorted(Keys(t))
    decreases t
  {
    match t
    case Leaf(id, keys) => LeafKeys(id, keys);
    case Inner(keys, kids) =>
      forall i | 0 <= i < |kids| ensures Sorted(Keys(kids[i])) {
        KeysSorted(kids[i], h - 1, false);
      }
      KidsSorted(keys, kids);
  }

  lemma {:induction false} KidsSorted<L>(keys: seq<int>, kids: seq<Tree<L>>)
    requires Sorted(keys) && Separates(keys, kids)
    requires forall i :: 0 <= i < |kids| ==> Sorted(Keys(kids[i]))
    ensures Sorted(KeysIn(CellsOf(kids)))
  {
    KeysInConcat(Cells(kids[0]), CellsOf(kids[1..]));
    if |kids| == 1 {
      assert KeysIn(CellsOf(kids[1..])) == [];
    } else {
      var keys', kids' := keys[1..], kids[1..];
      assert Separates(keys', kids') by {
        forall i | 0 < i < |kids'| ensures AllGe(kids'[i], keys'[i - 1]) {
          assert AllGe(kids[i + 1], keys[i]);
        }
      }
      KidsSorted(keys', kids');
      var a, b := Keys(kids[0]), KeysIn(CellsOf(kids'));
      forall j | 0 <= j < |b| ensures keys[0] <= b[j] {
        assert b[j] in b;
        var c := KeyInSomeChild(kids', b[j]);
        assert AllGe(kids[c + 1], keys[c]);
      }
      forall j | 0 <= j < |a| ensures a[j] <= keys[0] {
        assert a[j] in a && AllLe(kids[0], keys[0]);
      }
    }
  }

  function Pow2(n: nat): nat {
    if n == 0 then 1 else 2 * Pow2(n - 1)
  }

  /** A tree of h >= 2 levels holds at least 2^h keys. */
  lemma {:induction false} HeightBound<L>(t: Tree<L>, h: nat, root: bool)
    requires Inv(t, h, root) && (root ==> h >= 2)
    ensures |Keys(t)| >= Pow2(h)
    decreases t
  {
    match t
    case Leaf(id, keys) =>
      LeafKeys(id, keys);
      assert Pow2(1) == 2;
    case Inner(keys, kids) =>
      HeightBound(kids[0], h - 1, false);
      HeightBound(kids[1], h - 1, false);
      KeysInConcat(Cells(kids[0]), CellsOf(kids[1..]));
      KeysInConcat(Cells(kids[1]), CellsOf(kids[1..][1..]));
      assert CellsOf(kids) == Cells(kids[0]) + CellsOf(kids[1..]);
      assert CellsOf(kids[1..]) == Cells(kids[1]) + CellsOf(kids[1..][1..]);
  }

  // ----- range scan -----

  function InRange(s: seq<int>, lo: int, hi: int): seq<int> {
    if s == [] then []
    else (if lo <= s[0] <= hi then [s[0]] else []) + InRange(s[1..], lo, hi)
  }

  lemma {:induction false} InRangeConcat(a: seq<int>, b: seq<int>, lo: int, hi: int)
    ensures InRange(a + b, lo, hi) == InRange(a, lo, hi) + InRange(b, lo, hi)
  {
    if a == [] {
      assert a + b == b;
    } else {
      assert (a + b)[1..] == a[1..] + b;
      InRangeConcat(a[1..], b, lo, hi);
    }
  }

  lemma {:induction false} InRangeNone(s: seq<int>, lo: int, hi: int)
    requires forall i :: 0 <= i < |s| ==> s[i] < lo || s[i] > hi
    ensures InRange(s, lo, hi) == []
  {
    if s != [] {
      InRangeNone(s[1..], lo, hi);
    }
  }

  /** What the range scan is meant to print: each key between the ends, as often as it
      occurs, and in ascending order. */
  lemma {:induction false} InRangeCounts(s: seq<int>, lo: int, hi: int, x: int)
    ensures multiset(InRange(s, lo, hi))[x] == if lo <= x <= hi then multiset(s)[x] else 0
  {
    if s != [] {
      InRangeCounts(s[1..], lo, hi, x);
      assert s == [s[0]] + s[1..];
    }
  }

  lemma {:induction false} InRangeSorted(s: seq<int>, lo: int, hi: int)
    requires Sorted(s)
    ensures Sorted(InRange(s, lo, hi))
  {
    if s != [] {
      InRangeSorted(s[1..], lo, hi);
      var rest := InRange(s[1..], lo, hi);
      forall i | 0 <= i < |rest| ensures s[0] <= rest[i] {
        InRangeCounts(s[1..], lo, hi, rest[i]);
        assert rest[i] in multiset(rest);
        assert rest[i] in multiset(s[1..]);
      }
    }
  }

  /** The descent skips no leaf that could hold a key >= start. */
  lemma {:induction false} DescentSkipsSmaller<L>(t: Tree<L>, h: nat, root: bool, start: int)
    requires Inv(t, h, root) && WellShaped(t)
    ensures LeafPos(t, start) < |Cells(t)|
    ensures forall x :: x in KeysIn(Cells(t)[..LeafPos(t, start)]) ==> x < start
    decreases t
  {
    LeafPosInRange(t, start);
    if t.Inner? {
      var i := ChildIndex(t.keys, start);
      var c := t.kids[i];
      assert c in t.kids;
      DescentSkipsSmaller(c, h - 1, false, start);
      CellsOfAround(t.kids, i);
      var before, q := CellsOf(t.kids[..i]), LeafPos(c, start);
      assert Cells(t)[..|before| + q] == before + Cells(c)[..q];
      KeysInConcat(before, Cells(c)[..q]);
      forall x | x in KeysIn(before) ensures x < start {
        var j := KeyInSomeChild(t.kids[..i], x);
        assert AllLe(t.kids[j], t.keys[j]);
      }
    }
  }

  /** Scanning the leaves from the one the descent reaches sees every key in range. */
  lemma ScanFromDescent<L>(t: Tree<L>, h: nat, start: int, end: int)
    requires Inv(t, h, true) && WellShaped(t)
    ensures LeafPos(t, start) < |Cells(t)|
    ensures InRange(KeysIn(Cells(t)[LeafPos(t, start)..]), start, end) == InRange(Keys(t), start, end)
  {
    DescentSkipsSmaller(t, h, true, start);
    var p := LeafPos(t, start);
    var skipped := KeysIn(Cells(t)[..p]);
    assert Cells(t) == Cells(t)[..p] + Cells(t)[p..];
    KeysInConcat(Cells(t)[..p], Cells(t)[p..]);
    InRangeConcat(skipped, KeysIn(Cells(t)[p..]), start, end);
    forall i | 0 <= i < |skipped| ensures skipped[i] < start {
      assert skipped[i] in skipped;
    }
    InRangeNone(skipped, start, end);
  }
}
