// The skip list of SKIPLIST/skiplist.c.

module SkipList {
  import opened SeqFacts

  const MAX_LEVEL: nat := 6

  class SkipNode {
    const data: int
    const height: nat              // number of forward pointers
    var forward: seq<SkipNode?>

    constructor (level: nat, data: int)
      ensures this.data == data && height == level + 1
      ensures |forward| == height && forall i :: 0 <= i <= level ==> forward[i] == null
    {
      this.data := data;
      height := level + 1;
      forward := seq(level + 1, _ => null);
    }
  }

  // ----- towers and levels -----

  /** The nodes tall enough to appear at level i, in order. */
  ghost function Level(nodes: seq<SkipNode>, i: nat): (r: seq<SkipNode>)
  {
    if nodes == [] then []
    else (if nodes[0].height > i then [nodes[0]] else []) + Level(nodes[1..], i)
  }

  lemma {:induction false} LevelConcat(a: seq<SkipNode>, b: seq<SkipNode>, i: nat)
    ensures Level(a + b, i) == Level(a, i) + Level(b, i)
  {
    if a == [] {
      assert a + b == b;
    } else {
      assert (a + b)[1..] == a[1..] + b;
      LevelConcat(a[1..], b, i);
    }
  }

  lemma {:induction false} LevelMembers(nodes: seq<SkipNode>, i: nat)
    ensures forall n :: n in Level(nodes, i) <==> n in nodes && n.height > i
  {
    if nodes != [] {
      LevelMembers(nodes[1..], i);
    }
  }

  lemma {:induction false} LevelNests(nodes: seq<SkipNode>, i: nat)
    ensures Level(nodes, i + 1) == Level(Level(nodes, i), i + 1)
  {
    if nodes != [] {
      var n, rest := nodes[0], nodes[1..];
      LevelNests(rest, i);
      if n.height > i {
        LevelConcat([n], Level(rest, i), i + 1);
        LevelOne(n, i + 1);
      } else {
        assert Level(nodes, i) == Level(rest, i) && Level(nodes, i + 1) == Level(rest, i + 1);
      }
    }
  }

  ghost predicate Strict(s: seq<SkipNode>) {
    forall j, k {:trigger s[j].data, s[k].data} :: 0 <= j < k < |s| ==> s[j].data < s[k].data
  }

  lemma StrictCons(n: SkipNode, s: seq<SkipNode>)
    requires Strict(s) && forall k {:trigger s[k].data} :: 0 <= k < |s| ==> n.data < s[k].data
    ensures Strict([n] + s)
  {
    var l := [n] + s;
    forall j, k | 0 <= j < k < |l| ensures l[j].data < l[k].data {
      assert s[k - 1].data > if j == 0 then n.data else s[j - 1].data;
    }
  }

  lemma {:induction false} LevelStrict(s: seq<SkipNode>, i: nat)
    requires Strict(s)
    ensures Strict(Level(s, i))
  {
    if s != [] {
      var rest := s[1..];
      forall j, k | 0 <= j < k < |rest| ensures rest[j].data < rest[k].data {
        assert s[j + 1].data < s[k + 1].data;
      }
      forall k | 0 <= k < |rest| ensures rest[k].data >= s[0].data + 1 {
        assert s[0].data < s[k + 1].data;
      }
      LevelStrict(rest, i);
      LevelFrom(rest, i, s[0].data + 1);
      if s[0].height > i {
        StrictCons(s[0], Level(rest, i));
      } else {
        assert Level(s, i) == Level(rest, i);
      }
    }
  }

  lemma LevelAscending(h: SkipNode, s: seq<SkipNode>, i: nat)
    requires Ascending([h] + s) && h.height > i
    ensures Ascending(Level([h] + s, i)) && Level([h] + s, i) == [h] + Level(s, i)
  {
    forall j, k | 0 <= j < k < |s| ensures s[j].data < s[k].data {
      assert ([h] + s)[j + 1].data < ([h] + s)[k + 1].data;
    }
    LevelStrict(s, i);
    assert ([h] + s)[1..] == s;
    var l, l' := Level([h] + s, i), Level(s, i);
    assert l == [h] + l';
    forall j, k | 0 < j < k < |l| ensures l[j].data < l[k].data {
      assert l'[j - 1].data < l'[k - 1].data;
    }
  }

  lemma LevelOne(n: SkipNode, i: nat)
    ensures Level([n], i) == if n.height > i then [n] else []
  {
    assert [n][1..] == [];
  }

  /** The header first, then strictly ascending data. */
  ghost predicate Ascending(nodes: seq<SkipNode>) {
    forall j, k {:trigger nodes[j].data, nodes[k].data} :: 0 < j < k < |nodes| ==> nodes[j].data < nodes[k].data
  }

  /** How many nodes a search for x passes, the header included. */
  ghost function Cut(nodes: seq<SkipNode>, x: int): (c: nat)
    requires nodes != []
    ensures 1 <= c <= |nodes|
    ensures forall j {:trigger nodes[j].data} :: 0 < j < c ==> nodes[j].data < x
    ensures c < |nodes| ==> nodes[c].data >= x
    decreases |nodes|
  {
    if |nodes| == 1 || nodes[1].data >= x then 1
    else
      var c := 1 + Cut(nodes[1..], x);
      assert forall j {:trigger nodes[j].data} :: 1 < j < c ==> nodes[j] == nodes[1..][j - 1];
      c
  }

  /** The forward pointers at level i lead along l and then to null. */
  ghost predicate Linked(l: seq<SkipNode>, i: nat, r: set<SkipNode>)
    reads r
  {
    forall j {:trigger l[j].forward} :: 0 <= j < |l| ==>
      l[j] in r && i < |l[j].forward| && l[j].forward[i] == if j + 1 < |l| then l[j + 1] else null
  }

  ghost function Levels(nodes: seq<SkipNode>): (ls: seq<seq<SkipNode>>)
    ensures |ls| == MAX_LEVEL + 1 && forall k :: 0 <= k <= MAX_LEVEL ==> ls[k] == Level(nodes, k)
  {
    seq(MAX_LEVEL + 1, k requires 0 <= k => Level(nodes, k))
  }

  ghost predicate AllLinked(ls: seq<seq<SkipNode>>, r: set<SkipNode>)
    reads r
  {
    |ls| == MAX_LEVEL + 1 && forall k :: 0 <= k <= MAX_LEVEL ==> Linked(ls[k], k, r)
  }

  class SkipList {
    const header: SkipNode
    var level: nat

    ghost var nodes: seq<SkipNode>
    ghost var repr: set<SkipNode>

    ghost predicate Valid()
      reads this, repr
    {
      Unleveled() && forall j {:trigger nodes[j].height} :: 0 < j < |nodes| ==> nodes[j].height <= level + 1
    }

    /** Valid but for the bound that `level` puts on the towers. */
    ghost predicate Unleveled()
      reads this, repr
    {
      && nodes != [] && nodes[0] == header && header.height == MAX_LEVEL + 1
      && Ascending(nodes)
      && (forall n :: n in nodes ==> n in repr && |n.forward| == n.height && n.height > 0)
      && level <= MAX_LEVEL
      && AllLinked(Levels(nodes), repr)
    }

    /** The set the list stands for. */
    ghost function Elements(): set<int>
      reads this
    {
      set j | 0 < j < |nodes| :: nodes[j].data
    }

    /** `createSkipList` */
    constructor ()
      ensures Valid() && fresh(repr) && Elements() == {} && level == 0
    {
      header := new SkipNode(MAX_LEVEL, -1);
      level := 0;
      new;
      nodes, repr := [header], {header};
      forall i | 0 <= i <= MAX_LEVEL ensures Linked(Level(nodes, i), i, repr) {
        LevelOne(header, i);
      }
    }

    /** The loops that `insertElement`, `searchElement` and `deleteElement` share: go right
        while the next node is smaller, then down. */
    method FindPredecessors(x: int) returns (update: seq<SkipNode>, current: SkipNode?)
      requires Valid()
      ensures |update| == MAX_LEVEL + 1
      ensures forall i :: 0 <= i <= level ==> update[i] == Last(Level(nodes[..Cut(nodes, x)], i))
      ensures current == At(nodes, Cut(nodes, x))
    {
      update := seq(MAX_LEVEL + 1, _ => header);
      var pred := header;
      var i: int := level;
      while i >= 0
        invariant -1 <= i <= level && |update| == MAX_LEVEL + 1
        invariant pred in nodes && pred.height > i && (pred == header || pred.data < x)
        invariant forall k :: i < k <= level ==> update[k] == Last(Level(nodes[..Cut(nodes, x)], k))
        invariant i < 0 ==> pred == update[0]
        decreases i
      {
        pred := GoRight(x, i, pred);
        update := update[i := pred];
        i := i - 1;
      }
      BottomNext(pred, x);
      current := pred.forward[0];
    }

    lemma BottomNext(pred: SkipNode, x: int)
      requires Valid() && pred == Last(Level(nodes[..Cut(nodes, x)], 0))
      ensures |pred.forward| > 0 && pred.forward[0] == At(nodes, Cut(nodes, x))
    {
      var c := Cut(nodes, x);
      LastZero(nodes, c);
      assert Linked(Levels(nodes)[0], 0, repr);
      LinkAt(nodes, 0, repr, c - 1);
    }

    method GoRight(x: int, i: nat, start: SkipNode) returns (pred: SkipNode)
      requires Valid() && i <= MAX_LEVEL
      requires start in nodes && start.height > i && (start == header || start.data < x)
      ensures pred in nodes && pred.height > i && (pred == header || pred.data < x)
      ensures pred == Last(Level(nodes[..Cut(nodes, x)], i))
    {
      ghost var p := PositionOf(start, i);
      pred, p := GoRightOn(x, i, start, Level(nodes, i), p);
      StopsAtCut(nodes, x, i, p);
      LevelMembers(nodes, i);
      assert Level(nodes, i)[p] in Level(nodes, i);
    }

    lemma PositionOf(start: SkipNode, i: nat) returns (p: nat)
      requires Valid() && i <= MAX_LEVEL && start in nodes && start.height > i
      ensures p < |Level(nodes, i)| && Level(nodes, i)[p] == start && (start == header ==> p == 0)
      ensures Level(nodes, i)[0] == header && Linked(Level(nodes, i), i, repr)
    {
      LevelMembers(nodes, i);
      assert Linked(Levels(nodes)[i], i, repr);
      p :| 0 <= p < |Level(nodes, i)| && Level(nodes, i)[p] == start;
      if start == header {
        p := 0;
      }
    }

    /** The inner search loop, along the nodes of one level. */
    method GoRightOn(x: int, i: nat, start: SkipNode, ghost l: seq<SkipNode>, ghost p0: nat)
      returns (pred: SkipNode, ghost p: nat)
      requires Linked(l, i, repr) && p0 < |l| && l[p0] == start && (p0 == 0 || start.data < x)
      ensures p < |l| && l[p] == pred && (p == 0 || pred.data < x)
      ensures p + 1 < |l| ==> l[p + 1].data >= x
    {
      pred, p := start, p0;
      LinkAt(l, i, repr, p);
      while pred.forward[i] != null && pred.forward[i].data < x
        invariant p < |l| && l[p] == pred && (p == 0 || pred.data < x)
        invariant pred in repr && i < |pred.forward| && pred.forward[i] == At(l, p + 1)
        decreases |l| - p
      {
        pred := pred.forward[i];
        p := p + 1;
        LinkAt(l, i, repr, p);
      }
    }

    /** `searchElement`: the answer depends on the set alone. */
    method SearchElement(x: int) returns (found: bool)
      requires Valid()
      ensures found <==> x in Elements()
    {
      var update, current := FindPredecessors(x);
      found := current != null && current.data == x;
      CutFinds(nodes, x);
    }

    // ----- insertion and deletion -----

    /** `insertElement` */
    method InsertElement(x: int)
      requires Valid()
      modifies this, repr
      ensures Valid() && fresh(repr - old(repr))
      ensures Elements() == old(Elements()) + {x}
      ensures x in old(Elements()) ==> unchanged(this) && unchanged(repr)
    {
      var update, current := FindPredecessors(x);
      CutFinds(nodes, x);
      if current == null || current.data != x {
        var newLevel := RandomLevel();
        InsertNew(x, newLevel, update);
      }
    }

    method InsertNew(x: int, newLevel: nat, preds: seq<SkipNode>)
      requires Valid() && newLevel <= MAX_LEVEL && |preds| == MAX_LEVEL + 1
      requires forall i :: 0 <= i <= level ==> preds[i] == Last(Level(nodes[..Cut(nodes, x)], i))
      requires var c := Cut(nodes, x); c < |nodes| ==> nodes[c].data != x
      modifies this, repr
      ensures Valid() && fresh(repr - old(repr))
      ensures Elements() == old(Elements()) + {x}
    {
      ghost var c, before := Cut(nodes, x), nodes;
      var update := RaiseLevel(newLevel, preds, c);
      var newNode := new SkipNode(newLevel, x);
      ghost var after := before[..c] + [newNode] + before[c..];
      LinkedGrow(Levels(before), repr, newNode);
      repr := repr + {newNode};
      LevelsInsert(before, c, newNode);
      NotAtAnyLevel(before, c, newNode);
      SpliceLevels(newNode, update, Levels(before[..c]), Levels(before[c..]), Levels(before), Levels(after), repr);
      nodes := after;
      Inserted(before, c, newNode);
    }

    lemma Inserted(before: seq<SkipNode>, c: nat, n: SkipNode)
      requires before != [] && Ascending(before) && c == Cut(before, n.data) && (c < |before| ==> before[c].data != n.data)
      requires nodes == before[..c] + [n] + before[c..]
      requires before[0] == header && header.height == MAX_LEVEL + 1 && level <= MAX_LEVEL
      requires forall j {:trigger before[j].height} :: 0 < j < |before| ==> before[j].height <= level + 1
      requires forall m :: m in before ==> m in repr && |m.forward| == m.height && m.height > 0
      requires n in repr && |n.forward| == n.height && 0 < n.height <= level + 1
      requires AllLinked(Levels(nodes), repr)
      ensures Valid() && Elements() == (set j | 0 < j < |before| :: before[j].data) + {n.data}
    {
      CutOrders(before, n.data);
      Assemble(before, c, n);
      InsertedSet(before, n, c);
    }

    lemma Assemble(before: seq<SkipNode>, c: nat, n: SkipNode)
      requires Ascending(before) && 1 <= c <= |before| && nodes == before[..c] + [n] + before[c..]
      requires before[0] == header && header.height == MAX_LEVEL + 1 && level <= MAX_LEVEL
      requires forall j {:trigger before[j].data} :: 0 < j < c ==> before[j].data < n.data
      requires forall j {:trigger before[j].data} :: c <= j < |before| ==> before[j].data > n.data
      requires forall j {:trigger before[j].height} :: 0 < j < |before| ==> before[j].height <= level + 1
      requires forall m :: m in before ==> m in repr && |m.forward| == m.height && m.height > 0
      requires n in repr && |n.forward| == n.height && 0 < n.height <= level + 1
      requires AllLinked(Levels(nodes), repr)
      ensures Valid()
    {
      AscendingInsert(before, c, n);
      forall m | m in nodes ensures m in before || m == n {
      }
      forall j | 0 < j < |nodes| ensures nodes[j].height <= level + 1 {
        assert nodes[j] == if j < c then before[j] else if j == c then n else before[j - 1];
      }
    }

    /** Where the new node reaches above the list, the header comes before it. */
    method RaiseLevel(newLevel: nat, preds: seq<SkipNode>, ghost c: nat) returns (update: seq<SkipNode>)
      requires Valid() && newLevel <= MAX_LEVEL && |preds| == MAX_LEVEL + 1 && 1 <= c <= |nodes|
      requires forall i :: 0 <= i <= level ==> preds[i] == Last(Level(nodes[..c], i))
      modifies this`level
      ensures Valid() && level == (if newLevel > old(level) then newLevel else old(level)) && |update| == MAX_LEVEL + 1
      ensures forall i :: 0 <= i <= level ==> update[i] == Last(Level(nodes[..c], i))
    {
      LevelsAbove(c);
      update := preds;
      if newLevel > level {
        for i := level + 1 to newLevel + 1
          invariant |update| == MAX_LEVEL + 1
          invariant forall k :: 0 <= k < i ==> update[k] == Last(Level(nodes[..c], k))
        {
          update := update[i := header];
        }
        level := newLevel;
      }
    }

    /** `deleteElement` */
    method DeleteElement(x: int)
      requires Valid()
      modifies this, repr
      ensures Valid() && repr <= old(repr)
      ensures Elements() == old(Elements()) - {x}
      ensures x !in old(Elements()) ==> unchanged(this) && unchanged(repr)
      ensures x in old(Elements()) && level > 0 ==> |header.forward| > level && header.forward[level] != null
    {
      var update, current := FindPredecessors(x);
      CutFinds(nodes, x);
      if current != null && current.data == x {
        Remove(current, update, Cut(nodes, x));
        LowerLevel();
      }
    }

    /** The unlinking loop; the node is then freed, that is, leaves `repr`. */
    method Remove(n: SkipNode, update: seq<SkipNode>, ghost c: nat)
      requires Valid() && 1 <= c < |nodes| && n == nodes[c] && |update| == MAX_LEVEL + 1
      requires forall i :: 0 <= i <= level ==> update[i] == Last(Level(nodes[..c], i))
      modifies this`nodes, this`repr, repr`forward
      ensures Valid() && level == old(level) && repr == old(repr) - {n}
      ensures Elements() == old(Elements()) - {n.data}
    {
      ghost var before := nodes;
      ghost var after := before[..c] + before[c + 1..];
      HeaderOnce(c);
      RemovedLevels(before, c);
      UnlinkLevels(n, level, update, Levels(before[..c]), Levels(before[c + 1..]), Levels(before), Levels(after), repr);
      nodes := after;
      repr := repr - {n};
      RemovedOnce(before, c);
      Shrink(before, c);
      RemovedSet(before, c);
    }

    lemma Shrink(before: seq<SkipNode>, c: nat)
      requires Ascending(before) && 1 <= c < |before| && nodes == before[..c] + before[c + 1..]
      requires before[0] == header && header.height == MAX_LEVEL + 1 && level <= MAX_LEVEL
      requires forall j {:trigger before[j].height} :: 0 < j < |before| ==> before[j].height <= level + 1
      requires forall m :: m in before ==> (m in repr || m == before[c]) && |m.forward| == m.height && m.height > 0
      requires before[c] !in nodes && AllLinked(Levels(nodes), repr)
      ensures Valid()
    {
      forall m | m in nodes ensures m in before && m != before[c] {
      }
      forall j | 0 <= j < |nodes| ensures nodes[j] == before[if j < c then j else j + 1] {
      }
      forall j, k | 0 < j < k < |nodes| ensures nodes[j].data < nodes[k].data {
        assert before[if j < c then j else j + 1].data < before[if k < c then k else k + 1].data;
      }
      forall j | 0 < j < |nodes| ensures nodes[j].height <= level + 1 {
        assert before[if j < c then j else j + 1].height <= level + 1;
      }
    }

    lemma HeaderOnce(c: nat)
      requires Valid() && 1 <= c < |nodes|
      ensures nodes[c] != header
    {
      LevelZero(nodes);
      assert Linked(Levels(nodes)[0], 0, repr);
      LinkedDistinctAt(nodes, 0, repr, 0, c);
    }

    /** The loop that drops the empty top levels. */
    method LowerLevel()
      requires Valid()
      modifies this`level
      ensures Valid() && level <= old(level)
      ensures level > 0 ==> |header.forward| > level && header.forward[level] != null
    {
      while level > 0 && header.forward[level] == null
        invariant Valid() && level <= old(level)
      {
        EmptyLevel(level);
        level := level - 1;
      }
    }

    lemma EmptyLevel(i: nat)
      requires Valid() && i <= MAX_LEVEL && header.forward[i] == null
      ensures forall j {:trigger nodes[j].height} :: 0 < j < |nodes| ==> nodes[j].height <= i
    {
      var l, rest := Level(nodes, i), nodes[1..];
      assert l == [header] + Level(rest, i);
      assert Linked(Levels(nodes)[i], i, repr);
      LinkAt(l, i, repr, 0);
      LevelMembers(rest, i);
      forall j | 0 < j < |nodes| ensures nodes[j].height <= i {
        assert nodes[j] == rest[j - 1];
        assert nodes[j] !in Level(rest, i);
      }
    }

    /** Above `level` only the header is left at each level. */
    lemma LevelsAbove(c: nat)
      requires Valid() && 1 <= c <= |nodes|
      ensures forall i :: level < i <= MAX_LEVEL ==> Level(nodes[..c], i) == [header]
    {
      forall i | level < i <= MAX_LEVEL ensures Level(nodes[..c], i) == [header] {
        assert nodes[..c] == [header] + nodes[1..c];
        LevelConcat([header], nodes[1..c], i);
        LevelOne(header, i);
        LevelNone(nodes[1..c], i);
      }
    }

    /** What every reachable list looks like: from the header, each level is strictly
        ascending, each is a sublist of the one below, and those above `level` are empty. */
    lemma Shape()
      requires Valid()
      ensures forall i :: 0 <= i <= MAX_LEVEL ==>
        && Linked(Level(nodes, i), i, repr) && Ascending(Level(nodes, i))
        && Level(nodes, i) != [] && Level(nodes, i)[0] == header
      ensures forall i :: 0 <= i < MAX_LEVEL ==> Level(nodes, i + 1) == Level(Level(nodes, i), i + 1)
      ensures forall i :: level < i <= MAX_LEVEL ==> |header.forward| == MAX_LEVEL + 1 && header.forward[i] == null
    {
      var rest := nodes[1..];
      assert nodes == [header] + rest;
      forall i | 0 <= i <= MAX_LEVEL
        ensures Linked(Level(nodes, i), i, repr) && Ascending(Level(nodes, i))
        ensures Level(nodes, i) != [] && Level(nodes, i)[0] == header
      {
        assert Linked(Levels(nodes)[i], i, repr);
        LevelAscending(header, rest, i);
      }
      forall i | 0 <= i < MAX_LEVEL ensures Level(nodes, i + 1) == Level(Level(nodes, i), i + 1) {
        LevelNests(nodes, i);
      }
      forall i | level < i <= MAX_LEVEL ensures header.forward[i] == null {
        LevelsAbove(|nodes|);
        assert nodes[..|nodes|] == nodes;
        assert Linked(Levels(nodes)[i], i, repr);
        LinkAt(Level(nodes, i), i, repr, 0);
      }
    }
  }

  // ----- a whole run -----

  datatype Op = Insert(data: int) | Delete(data: int) | Search(data: int)

  /** The set after a run of operations, and the answers its searches give. */
  ghost function SetAfter(ops: seq<Op>): set<int> {
    if ops == [] then {}
    else
      var s, op := SetAfter(ops[..|ops| - 1]), ops[|ops| - 1];
      match op
      case Insert(x) => s + {x}
      case Delete(x) => s - {x}
      case Search(_) => s
  }

  ghost predicate Answers(ops: seq<Op>, found: seq<bool>) {
    && |found| == |ops|
    && forall k :: 0 <= k < |ops| && ops[k].Search? ==> found[k] == (ops[k].data in SetAfter(ops[..k]))
  }

  /** Whatever levels come out of `randomLevel`, a run answers as the set does. */
  method RunOps(ops: seq<Op>) returns (list: SkipList, found: seq<bool>)
    ensures list.Valid() && list.Elements() == SetAfter(ops) && Answers(ops, found)
  {
    list := new SkipList();
    found := [];
    for i := 0 to |ops|
      invariant list.Valid() && fresh(list) && fresh(list.repr)
      invariant list.Elements() == SetAfter(ops[..i]) && |found| == i
      invariant forall k :: 0 <= k < i && ops[k].Search? ==> found[k] == (ops[k].data in SetAfter(ops[..k]))
    {
      var answer := false;
      match ops[i] {
        case Insert(x) => list.InsertElement(x);
        case Delete(x) => list.DeleteElement(x);
        case Search(x) => answer := list.SearchElement(x);
      }
      found := found + [answer];
      PrefixStep(ops, i);
      assert ops[..i + 1][..i] == ops[..i];
    }
    assert ops[..|ops|] == ops;
  }

  /** `randomLevel`: any level may come out. */
  method RandomLevel() returns (level: nat)
    ensures level <= MAX_LEVEL
  {
    level := 0;
    var below: bool := *;
    while below && level < MAX_LEVEL
      invariant level <= MAX_LEVEL
    {
      level := level + 1;
      below := *;
    }
  }

  lemma {:induction false} LevelNone(nodes: seq<SkipNode>, i: nat)
    requires forall j {:trigger nodes[j].height} :: 0 <= j < |nodes| ==> nodes[j].height <= i
    ensures Level(nodes, i) == []
  {
    if nodes != [] {
      var rest := nodes[1..];
      forall j | 0 <= j < |rest| ensures rest[j].height <= i {
        assert nodes[j + 1].height <= i;
      }
      assert nodes[0].height <= i;
      LevelNone(rest, i);
    }
  }

  lemma CutOrders(nodes: seq<SkipNode>, x: int)
    requires nodes != [] && Ascending(nodes)
    requires var c := Cut(nodes, x); c < |nodes| ==> nodes[c].data != x
    ensures forall j {:trigger nodes[j].data} :: Cut(nodes, x) <= j < |nodes| ==> nodes[j].data > x
  {
    var c := Cut(nodes, x);
    forall j | c <= j < |nodes| ensures nodes[j].data > x {
      assert j > c ==> nodes[c].data < nodes[j].data;
    }
  }

  lemma InsertedSet(nodes: seq<SkipNode>, n: SkipNode, c: nat)
    requires 1 <= c <= |nodes|
    ensures var nodes' := nodes[..c] + [n] + nodes[c..];
            (set j | 0 < j < |nodes'| :: nodes'[j].data) == (set j | 0 < j < |nodes| :: nodes[j].data) + {n.data}
  {
    var nodes' := nodes[..c] + [n] + nodes[c..];
    var before, after := set j | 0 < j < |nodes| :: nodes[j].data, set j | 0 < j < |nodes'| :: nodes'[j].data;
    forall d | d in before || d == n.data ensures d in after {
      if d == n.data {
        assert nodes'[c].data == d;
      } else {
        var j :| 0 < j < |nodes| && nodes[j].data == d;
        assert nodes'[if j < c then j else j + 1].data == d;
      }
    }
  }

  lemma LevelInsert(nodes: seq<SkipNode>, c: nat, n: SkipNode, i: nat)
    requires c <= |nodes|
    ensures Level(nodes, i) == Level(nodes[..c], i) + Level(nodes[c..], i)
    ensures Level(nodes[..c] + [n] + nodes[c..], i)
         == Level(nodes[..c], i) + (if n.height > i then [n] else []) + Level(nodes[c..], i)
  {
    assert nodes == nodes[..c] + nodes[c..];
    LevelConcat(nodes[..c], nodes[c..], i);
    LevelConcat(nodes[..c] + [n], nodes[c..], i);
    LevelConcat(nodes[..c], [n], i);
    LevelOne(n, i);
  }

  lemma LevelsInsert(nodes: seq<SkipNode>, c: nat, n: SkipNode)
    requires c <= |nodes|
    ensures var a, b := Levels(nodes[..c]), Levels(nodes[c..]);
      forall i :: 0 <= i <= MAX_LEVEL ==>
        && Levels(nodes)[i] == a[i] + b[i]
        && Levels(nodes[..c] + [n] + nodes[c..])[i] == if n.height > i then a[i] + [n] + b[i] else a[i] + b[i]
  {
    forall i | 0 <= i <= MAX_LEVEL
      ensures Level(nodes, i) == Level(nodes[..c], i) + Level(nodes[c..], i)
      ensures Level(nodes[..c] + [n] + nodes[c..], i)
           == Level(nodes[..c], i) + (if n.height > i then [n] else []) + Level(nodes[c..], i)
    {
      LevelInsert(nodes, c, n, i);
    }
  }

  lemma NotAtAnyLevel(nodes: seq<SkipNode>, c: nat, n: SkipNode)
    requires c <= |nodes| && n !in nodes
    ensures forall i :: 0 <= i <= MAX_LEVEL ==> n !in Levels(nodes[..c])[i] && n !in Levels(nodes[c..])[i]
  {
    forall i | 0 <= i <= MAX_LEVEL ensures n !in Level(nodes[..c], i) && n !in Level(nodes[c..], i) {
      LevelMembers(nodes[..c], i);
      LevelMembers(nodes[c..], i);
    }
  }

  lemma AscendingInsert(nodes: seq<SkipNode>, c: nat, n: SkipNode)
    requires 1 <= c <= |nodes| && Ascending(nodes)
    requires forall j {:trigger nodes[j].data} :: 0 < j < c ==> nodes[j].data < n.data
    requires forall j {:trigger nodes[j].data} :: c <= j < |nodes| ==> nodes[j].data > n.data
    ensures Ascending(nodes[..c] + [n] + nodes[c..])
  {
    var nodes' := nodes[..c] + [n] + nodes[c..];
    forall j, k | 0 < j < k < |nodes'| ensures nodes'[j].data < nodes'[k].data {
      assert j != c ==> nodes'[j].data == nodes[if j < c then j else j - 1].data;
      assert k != c ==> nodes'[k].data == nodes[if k < c then k else k - 1].data;
    }
  }

  // ----- pointer surgery at one level -----

  lemma LinkAt(l: seq<SkipNode>, i: nat, r: set<SkipNode>, j: nat)
    requires Linked(l, i, r) && j < |l|
    ensures l[j] in r && i < |l[j].forward| && l[j].forward[i] == At(l, j + 1)
  {
    assert l[j].forward == l[j].forward;
  }

  lemma LinkedIn(l: seq<SkipNode>, i: nat, r: set<SkipNode>, r': set<SkipNode>)
    requires Linked(l, i, r) && forall m :: m in l ==> m in r ==> m in r'
    ensures Linked(l, i, r')
  {
    forall j | 0 <= j < |l|
      ensures l[j] in r' && i < |l[j].forward| && l[j].forward[i] == if j + 1 < |l| then l[j + 1] else null
    {
      LinkAt(l, i, r, j);
    }
  }

  lemma LinkedGrow(ls: seq<seq<SkipNode>>, r: set<SkipNode>, n: SkipNode)
    requires AllLinked(ls, r)
    ensures AllLinked(ls, r + {n})
  {
    forall k | 0 <= k <= MAX_LEVEL ensures Linked(ls[k], k, r + {n}) {
      LinkedIn(ls[k], k, r, r + {n});
    }
  }

  lemma {:induction false} LinkedDistinctAt(l: seq<SkipNode>, i: nat, r: set<SkipNode>, j: nat, k: nat)
    requires Linked(l, i, r) && j < k < |l|
    ensures l[j] != l[k]
    decreases |l| - k
  {
    LinkAt(l, i, r, j);
    LinkAt(l, i, r, k);
    if k + 1 < |l| {
      LinkedDistinctAt(l, i, r, j + 1, k + 1);
    }
  }

  /** Put n between a and b at level i: two pointer writes, which no other level sees. */
  method SpliceAt(n: SkipNode, i: nat, pred: SkipNode, ghost a: seq<SkipNode>, ghost b: seq<SkipNode>,
                  ghost ls: seq<seq<SkipNode>>, ghost r: set<SkipNode>)
    requires i <= MAX_LEVEL && AllLinked(ls, r) && |ls| == MAX_LEVEL + 1
    requires ls[i] == a + b && Last(a) == pred
    requires n in r && n !in a && n !in b && i < |n.forward|
    modifies r`forward
    ensures forall m :: m in r ==> |m.forward| == old(|m.forward|)
    ensures AllLinked(ls[i := a + [n] + b], r)
  {
    ghost var l := ls[i];
    forall j, k | 0 <= j < k < |l| ensures l[j] != l[k] {
      LinkedDistinctAt(l, i, r, j, k);
    }
    assert l[|a| - 1] == pred && Linked(l, i, r);
    assert l[|a| - 1].forward[i] == if b != [] then l[|a|] else null;
    n.forward := n.forward[i := pred.forward[i]];
    pred.forward := pred.forward[i := n];
    ghost var ls' := ls[i := a + [n] + b];
    forall k | 0 <= k <= MAX_LEVEL ensures Linked(ls'[k], k, r) {
      forall j | 0 <= j < |ls'[k]|
        ensures ls'[k][j] in r && k < |ls'[k][j].forward|
        ensures ls'[k][j].forward[k] == if j + 1 < |ls'[k]| then ls'[k][j + 1] else null
      {
        assert old(Linked(ls[k], k, r));
        if k != i {
          assert old(ls[k][j].forward[k]) == if j + 1 < |ls[k]| then ls[k][j + 1] else null;
        } else if j != |a| {
          ghost var q := if j < |a| then j else j - 1;
          assert ls'[k][j] == l[q];
          assert old(l[q].forward[i]) == if q + 1 < |l| then l[q + 1] else null;
        }
      }
    }
  }

  /** The linking loop of `insertElement`, from the bottom up. */
  method SpliceLevels(n: SkipNode, update: seq<SkipNode>, ghost a: seq<seq<SkipNode>>, ghost b: seq<seq<SkipNode>>,
                      ghost before: seq<seq<SkipNode>>, ghost after: seq<seq<SkipNode>>, ghost r: set<SkipNode>)
    requires n in r && 0 < n.height <= MAX_LEVEL + 1 && |n.forward| == n.height && AllLinked(before, r)
    requires |a| == |b| == |before| == |after| == |update| == MAX_LEVEL + 1
    requires forall i :: 0 <= i < n.height ==> before[i] == a[i] + b[i] && after[i] == a[i] + [n] + b[i]
    requires forall i :: 0 <= i < n.height ==> update[i] == Last(a[i]) && n !in a[i] && n !in b[i]
    requires forall i :: n.height <= i <= MAX_LEVEL ==> after[i] == before[i]
    modifies r`forward
    ensures AllLinked(after, r)
    ensures forall m :: m in r ==> |m.forward| == old(|m.forward|)
  {
    ghost var ls := before;
    for i := 0 to n.height
      invariant AllLinked(ls, r) && |ls| == MAX_LEVEL + 1
      invariant forall k :: 0 <= k < i ==> ls[k] == after[k]
      invariant forall k :: i <= k <= MAX_LEVEL ==> ls[k] == before[k]
      invariant forall m :: m in r ==> |m.forward| == old(|m.forward|)
    {
      SpliceAt(n, i, update[i], a[i], b[i], ls, r);
      ls := ls[i := after[i]];
    }
    assert ls == after;
  }

  /** Take n out from between a and b at level i. */
  method UnlinkAt(n: SkipNode, i: nat, pred: SkipNode, ghost a: seq<SkipNode>, ghost b: seq<SkipNode>,
                  ghost ls: seq<seq<SkipNode>>, ghost r: set<SkipNode>)
    requires i <= MAX_LEVEL && AllLinked(ls, r) && |ls| == MAX_LEVEL + 1
    requires ls[i] == a + [n] + b && Last(a) == pred && i < |n.forward|
    modifies r`forward
    ensures forall m :: m in r ==> |m.forward| == old(|m.forward|)
    ensures AllLinked(ls[i := a + b], r)
  {
    ghost var l := ls[i];
    forall j, k | 0 <= j < k < |l| ensures l[j] != l[k] {
      LinkedDistinctAt(l, i, r, j, k);
    }
    assert l[|a| - 1] == pred && Linked(l, i, r);
    assert l[|a| - 1].forward[i] == l[|a|];
    assert l[|a|] == n && l[|a|].forward[i] == if b != [] then l[|a| + 1] else null;
    pred.forward := pred.forward[i := n.forward[i]];
    ghost var ls' := ls[i := a + b];
    forall k | 0 <= k <= MAX_LEVEL ensures Linked(ls'[k], k, r) {
      forall j | 0 <= j < |ls'[k]|
        ensures ls'[k][j] in r && k < |ls'[k][j].forward|
        ensures ls'[k][j].forward[k] == if j + 1 < |ls'[k]| then ls'[k][j + 1] else null
      {
        assert old(Linked(ls[k], k, r));
        if k != i {
          assert old(ls[k][j].forward[k]) == if j + 1 < |ls[k]| then ls[k][j + 1] else null;
        } else {
          ghost var q := if j < |a| then j else j + 1;
          assert ls'[k][j] == l[q];
          assert old(l[q].forward[i]) == if q + 1 < |l| then l[q + 1] else null;
        }
      }
    }
  }

  /** One turn of the unlinking loop: it is over when n does not follow at level i. */
  method UnlinkStep(n: SkipNode, i: nat, pred: SkipNode, ghost a: seq<SkipNode>, ghost b: seq<SkipNode>,
                    ghost ls: seq<seq<SkipNode>>, ghost r: set<SkipNode>) returns (done: bool)
    requires i <= MAX_LEVEL && AllLinked(ls, r) && |ls| == MAX_LEVEL + 1
    requires Last(a) == pred && n !in b && n in r
    requires ls[i] == (if i < |n.forward| then a + [n] + b else a + b)
    modifies r`forward
    ensures forall m :: m in r ==> |m.forward| == old(|m.forward|)
    ensures done <==> i >= |n.forward|
    ensures AllLinked(if done then ls else ls[i := a + b], r)
  {
    NextIs(n, i, pred, a, b, ls, r);
    done := pred.forward[i] != n;
    if !done {
      UnlinkAt(n, i, pred, a, b, ls, r);
    }
  }

  lemma NextIs(n: SkipNode, i: nat, pred: SkipNode, a: seq<SkipNode>, b: seq<SkipNode>, ls: seq<seq<SkipNode>>, r: set<SkipNode>)
    requires i <= MAX_LEVEL && AllLinked(ls, r) && |ls| == MAX_LEVEL + 1
    requires Last(a) == pred && n !in b
    requires ls[i] == (if i < |n.forward| then a + [n] + b else a + b)
    ensures i < |pred.forward| && (pred.forward[i] == n <==> i < |n.forward|)
  {
    var l := ls[i];
    assert Linked(l, i, r) && l[|a| - 1] == pred;
    LinkAt(l, i, r, |a| - 1);
  }

  /** The unlinking loop of `deleteElement`: it stops at the first level without n. */
  method UnlinkLevels(n: SkipNode, level: nat, update: seq<SkipNode>, ghost a: seq<seq<SkipNode>>, ghost b: seq<seq<SkipNode>>,
                      ghost before: seq<seq<SkipNode>>, ghost after: seq<seq<SkipNode>>, ghost r: set<SkipNode>)
    requires n in r && 0 < n.height <= level + 1 <= MAX_LEVEL + 1 && |n.forward| == n.height && AllLinked(before, r)
    requires |a| == |b| == |before| == |after| == |update| == MAX_LEVEL + 1
    requires forall i :: 0 <= i <= level ==> update[i] == Last(a[i])
    requires forall i :: 0 <= i <= MAX_LEVEL ==> after[i] == a[i] + b[i] && n !in a[i] && n !in b[i]
    requires forall i :: 0 <= i <= MAX_LEVEL ==> before[i] == if n.height > i then a[i] + [n] + b[i] else a[i] + b[i]
    modifies r`forward
    ensures AllLinked(after, r - {n})
    ensures forall m :: m in r ==> |m.forward| == old(|m.forward|)
  {
    ghost var ls := before;
    var i, done := 0, false;
    while i <= level && !done
      invariant i <= n.height && AllLinked(ls, r) && |ls| == MAX_LEVEL + 1
      invariant forall k :: 0 <= k < i ==> ls[k] == after[k]
      invariant forall k :: i <= k <= MAX_LEVEL ==> ls[k] == before[k]
      invariant done ==> i == n.height
      invariant forall m :: m in r ==> |m.forward| == old(|m.forward|)
      decreases level + 1 - i, !done
    {
      done := UnlinkStep(n, i, update[i], a[i], b[i], ls, r);
      if !done {
        ls := ls[i := after[i]];
        i := i + 1;
      }
    }
    assert ls == after;
    LinkedShrink(after, r, n);
  }

  lemma LinkedShrink(ls: seq<seq<SkipNode>>, r: set<SkipNode>, n: SkipNode)
    requires AllLinked(ls, r) && forall k :: 0 <= k < |ls| ==> n !in ls[k]
    ensures AllLinked(ls, r - {n})
  {
    forall k | 0 <= k <= MAX_LEVEL ensures Linked(ls[k], k, r - {n}) {
      LinkedIn(ls[k], k, r, r - {n});
    }
  }

  lemma RemovedLevels(nodes: seq<SkipNode>, c: nat)
    requires 1 <= c < |nodes| && Ascending(nodes) && nodes[0] != nodes[c]
    ensures var n, a, b := nodes[c], Levels(nodes[..c]), Levels(nodes[c + 1..]);
      forall i :: 0 <= i <= MAX_LEVEL ==>
        && n !in a[i] && n !in b[i]
        && Levels(nodes[..c] + nodes[c + 1..])[i] == a[i] + b[i]
        && Levels(nodes)[i] == if n.height > i then a[i] + [n] + b[i] else a[i] + b[i]
  {
    var after := nodes[..c] + nodes[c + 1..];
    RemovedOnce(nodes, c);
    assert after[..c] == nodes[..c] && after[c..] == nodes[c + 1..];
    assert nodes == after[..c] + [nodes[c]] + after[c..];
    LevelsInsert(after, c, nodes[c]);
    NotAtAnyLevel(after, c, nodes[c]);
  }

  lemma RemovedSet(nodes: seq<SkipNode>, c: nat)
    requires 1 <= c < |nodes| && Ascending(nodes)
    ensures var after := nodes[..c] + nodes[c + 1..];
            (set j | 0 < j < |after| :: after[j].data) == (set j | 0 < j < |nodes| :: nodes[j].data) - {nodes[c].data}
  {
    var after := nodes[..c] + nodes[c + 1..];
    assert after[..c] == nodes[..c] && after[c..] == nodes[c + 1..];
    assert nodes == after[..c] + [nodes[c]] + after[c..];
    InsertedSet(after, nodes[c], c);
    forall j | 0 < j < |after| ensures after[j].data != nodes[c].data {
      assert after[j] == nodes[if j < c then j else j + 1];
    }
  }

  lemma RemovedOnce(nodes: seq<SkipNode>, c: nat)
    requires 1 <= c < |nodes| && Ascending(nodes) && nodes[0] != nodes[c]
    ensures nodes[c] !in nodes[..c] + nodes[c + 1..]
  {
    forall j | 0 <= j < |nodes| && j != c ensures nodes[j] != nodes[c] {
      assert j == 0 || nodes[j].data < nodes[c].data || nodes[c].data < nodes[j].data;
    }
  }

  ghost function Last(s: seq<SkipNode>): SkipNode?
  {
    if s == [] then null else s[|s| - 1]
  }

  lemma {:induction false} LevelZero(nodes: seq<SkipNode>)
    requires forall n :: n in nodes ==> n.height > 0
    ensures Level(nodes, 0) == nodes
  {
    if nodes != [] {
      LevelZero(nodes[1..]);
    }
  }

  lemma LastZero(nodes: seq<SkipNode>, c: nat)
    requires 1 <= c <= |nodes| && forall n :: n in nodes ==> n.height > 0
    ensures Level(nodes, 0) == nodes && Last(Level(nodes[..c], 0)) == nodes[c - 1]
  {
    LevelZero(nodes);
    LevelZero(nodes[..c]);
  }

  lemma CutFinds(nodes: seq<SkipNode>, x: int)
    requires nodes != [] && Ascending(nodes)
    ensures var c := Cut(nodes, x);
            (c < |nodes| && nodes[c].data == x) <==> exists j :: 0 < j < |nodes| && nodes[j].data == x
  {
    var c := Cut(nodes, x);
    forall j | c < j < |nodes| ensures nodes[j].data > x {
      assert nodes[c].data < nodes[j].data;
    }
  }

  // ----- the search path -----

  /** At level i the nodes before the cut are the header or smaller than x; those
      behind it are not. */
  lemma CutLevels(nodes: seq<SkipNode>, x: int, i: nat)
    requires nodes != [] && nodes[0].height > i && Ascending(nodes)
    ensures var c := Cut(nodes, x);
            var a, b := Level(nodes[..c], i), Level(nodes[c..], i);
      && Level(nodes, i) == a + b && a != [] && a[0] == nodes[0]
      && (forall j {:trigger a[j].data} :: 0 < j < |a| ==> a[j].data < x)
      && (forall j {:trigger b[j].data} :: 0 <= j < |b| ==> b[j].data >= x)
  {
    var c := Cut(nodes, x);
    var h, mid, b := nodes[0], nodes[1..c], nodes[c..];
    assert nodes == nodes[..c] + b;
    LevelConcat(nodes[..c], b, i);
    assert nodes[..c] == [h] + mid;
    LevelConcat([h], mid, i);
    LevelOne(h, i);
    forall k | 0 <= k < |mid| ensures mid[k].data < x {
      assert nodes[k + 1].data < x;
    }
    LevelBelow(mid, i, x);
    forall k | 0 <= k < |b| ensures b[k].data >= x {
      assert k > 0 ==> nodes[c].data < nodes[c + k].data;
    }
    LevelFrom(b, i, x);
    assert Level(nodes[..c], i) == [h] + Level(mid, i);
  }

  lemma {:induction false} LevelBelow(s: seq<SkipNode>, i: nat, x: int)
    requires forall k {:trigger s[k].data} :: 0 <= k < |s| ==> s[k].data < x
    ensures forall j {:trigger Level(s, i)[j].data} :: 0 <= j < |Level(s, i)| ==> Level(s, i)[j].data < x
  {
    if s != [] {
      var rest := s[1..];
      forall k | 0 <= k < |rest| ensures rest[k].data < x {
        assert s[k + 1].data < x;
      }
      LevelBelow(rest, i, x);
      assert s[0].data < x;
      var l, l' := Level(s, i), Level(rest, i);
      forall j | 0 <= j < |l| ensures l[j].data < x {
        if s[0].height > i {
          assert j > 0 ==> l[j] == l'[j - 1] && l'[j - 1].data < x;
        } else {
          assert l'[j].data < x;
        }
      }
    }
  }

  lemma {:induction false} LevelFrom(s: seq<SkipNode>, i: nat, x: int)
    requires forall k {:trigger s[k].data} :: 0 <= k < |s| ==> s[k].data >= x
    ensures forall j {:trigger Level(s, i)[j].data} :: 0 <= j < |Level(s, i)| ==> Level(s, i)[j].data >= x
  {
    if s != [] {
      var rest := s[1..];
      forall k | 0 <= k < |rest| ensures rest[k].data >= x {
        assert s[k + 1].data >= x;
      }
      LevelFrom(rest, i, x);
      assert s[0].data >= x;
      var l, l' := Level(s, i), Level(rest, i);
      forall j | 0 <= j < |l| ensures l[j].data >= x {
        if s[0].height > i {
          assert j > 0 ==> l[j] == l'[j - 1] && l'[j - 1].data >= x;
        } else {
          assert l'[j].data >= x;
        }
      }
    }
  }

  /** Where the inner loop stops is the last node before the cut. */
  lemma StopsAtCut(nodes: seq<SkipNode>, x: int, i: nat, p: nat)
    requires nodes != [] && nodes[0].height > i && Ascending(nodes)
    requires p < |Level(nodes, i)|
    requires p > 0 ==> Level(nodes, i)[p].data < x
    requires p + 1 < |Level(nodes, i)| ==> Level(nodes, i)[p + 1].data >= x
    ensures var a := Level(nodes[..Cut(nodes, x)], i); p == |a| - 1 && Level(nodes, i)[p] == a[p]
  {
    CutLevels(nodes, x, i);
    var c := Cut(nodes, x);
    var a, b := Level(nodes[..c], i), Level(nodes[c..], i);
    var ab := a + b;
    forall q | |a| <= q < |ab| ensures ab[q].data >= x {
      assert ab[q] == b[q - |a|];
    }
    forall q | 0 < q < |a| ensures ab[q].data < x {
      assert ab[q] == a[q];
    }
  }
}
