// The LRU cache of lrucache.c: a doubly linked list in recency order and a hash table
// over its nodes refine the sequences of LruSpec.dfy.

module LruCache {
  import opened HashChains
  import opened SeqFacts
  import opened LruSpec
  import S = LruSpec

  /** The list from head to tail is exactly l, linked both ways. */
  ghost predicate ListOk(l: seq<Node>, head: Node?, tail: Node?, r: set<Node>)
    reads r`prev, r`next
  {
    && (forall i :: 0 <= i < |l| ==> l[i] in r)
    && head == At(l, 0) && tail == At(l, |l| - 1)
    && (forall i {:trigger l[i].prev} :: 0 <= i < |l| ==> l[i].prev == At(l, i - 1))
    && (forall i {:trigger l[i].next} :: 0 <= i < |l| ==> l[i].next == At(l, i + 1))
  }

  lemma {:induction false} DistinctAt(l: seq<Node>, head: Node?, tail: Node?, r: set<Node>, i: nat, j: nat)
    requires ListOk(l, head, tail, r) && i < j < |l|
    ensures l[i] != l[j]
  {
    assert l[i].prev == At(l, i - 1) && l[j].prev == At(l, j - 1);
    if i > 0 {
      DistinctAt(l, head, tail, r, i - 1, j - 1);
    }
  }

  lemma ListDistinct(l: seq<Node>, head: Node?, tail: Node?, r: set<Node>)
    requires ListOk(l, head, tail, r)
    ensures forall i, j :: 0 <= i < j < |l| ==> l[i] != l[j]
    ensures tail == At(l, |l| - 1)
  {
    forall i, j | 0 <= i < j < |l| ensures l[i] != l[j] {
      DistinctAt(l, head, tail, r, i, j);
    }
  }

  /** A list whose links skip node i is the list without it. */
  lemma Unlinked(l: seq<Node>, i: nat, head: Node?, tail: Node?, r: set<Node>)
    requires i < |l| && forall k :: 0 <= k < |l| ==> l[k] in r
    requires head == At(l, if i == 0 then 1 else 0) && tail == if i == |l| - 1 then At(l, i - 1) else l[|l| - 1]
    requires forall k {:trigger l[k].prev} :: 0 <= k < |l| && k != i ==> l[k].prev == At(l, if k == i + 1 then i - 1 else k - 1)
    requires forall k {:trigger l[k].next} :: 0 <= k < |l| && k != i ==> l[k].next == At(l, if k == i - 1 then i + 1 else k + 1)
    ensures ListOk(l[..i] + l[i + 1..], head, tail, r)
  {
    var n := l[..i] + l[i + 1..];
    assert forall j :: 0 <= j < |n| ==> n[j] == l[if j < i then j else j + 1];
  }

  /** What the nodes hold. */
  ghost predicate Holds(l: seq<Node>, pairs: seq<Pair>, r: set<Node>)
    reads r`value
  {
    && |pairs| == |l|
    && forall i {:trigger l[i].value} :: 0 <= i < |l| ==> l[i] in r && pairs[i] == Pair(l[i].key, l[i].value)
  }

  // Always true: the verifier looks into Indexed only where this is mentioned.  Its two
  // quantifiers set each other off, from a node to its key and from the key to a place in the
  // list, and the methods hold it for the lists before and after a move; open there, it takes
  // the proofs of Get and Put beyond the resource limit.
  ghost predicate UnfoldIndexed(u: nat) { true }

  /** List and table index the same nodes, each by its key. */
  ghost predicate Indexed(l: seq<Node>, index: map<int, Node>) {
    forall u: nat {:trigger UnfoldIndexed(u)} :: UnfoldIndexed(u) ==>
      && (forall i :: 0 <= i < |l| ==> Indexable(l[i].key) && l[i].key in index && index[l[i].key] == l[i])
      && (forall k :: k in index ==> index[k].key == k && index[k] in l)
  }

  class Cache {
    const hash: HashTable
    const capacity: int
    var size: int
    var head: Node?
    var tail: Node?

    ghost var nodes: set<Node>
    ghost var list: seq<Node>
    ghost var pairs: seq<Pair>     // what the list holds

    /** Valid but for the capacity, as in the middle of `lRUCachePut`. */
    ghost predicate Intact()
      reads this, hash, hash.heads, hash.entries`next, hash.entries`node, nodes`prev, nodes`next, nodes`value
    {
      && hash.Valid() && ListOk(list, head, tail, nodes) && Holds(list, pairs, nodes)
      && size == |list| == |pairs| && Indexed(list, hash.index)
    }

    ghost predicate Valid()
      reads this, hash, hash.heads, hash.entries`next, hash.entries`node, nodes`prev, nodes`next, nodes`value
    {
      Intact() && (pairs == [] || |pairs| <= capacity)
    }

    /** `lRUCacheCreate` */
    constructor (capacity: int)
      ensures Valid() && this.capacity == capacity && pairs == []
      ensures nodes == {} && fresh(hash) && fresh(hash.heads) && hash.entries == {}
    {
      hash := new HashTable();
      this.capacity, size, head, tail := capacity, 0, null, null;
      nodes, list, pairs := {}, [], [];
    }

    // ----- the list -----

    /** `addToHead` */
    method AddToHead(node: Node)
      requires ListOk(list, head, tail, nodes) && node !in list && node in nodes
      modifies this`head, this`tail, this`list, nodes`prev, nodes`next
      ensures list == [node] + old(list) && ListOk(list, head, tail, nodes)
    {
      node.next := head;
      node.prev := null;
      if head != null {
        head.prev := node;
      }
      head := node;
      if tail == null {
        tail := node;
      }
      list := [node] + list;
      forall k | 0 <= k < |list| ensures list[k].prev == At(list, k - 1) && list[k].next == At(list, k + 1) {
        if k > 0 {
          assert old(list[k - 1].prev == At(list, k - 2) && list[k - 1].next == At(list, k));
        }
      }
    }

    /** `removeNode` */
    method RemoveNode(node: Node, ghost i: nat)
      requires ListOk(list, head, tail, nodes) && i < |list| && node == list[i]
      modifies this`head, this`tail, this`list, nodes`prev, nodes`next
      ensures list == old(list)[..i] + old(list)[i + 1..] && node !in list && ListOk(list, head, tail, nodes)
    {
      ListDistinct(list, head, tail, nodes);
      if node.prev != null {
        node.prev.next := node.next;
      } else {
        head := node.next;
      }
      if node.next != null {
        node.next.prev := node.prev;
      } else {
        tail := node.prev;
      }
      Unlinked(list, i, head, tail, nodes);
      list := list[..i] + list[i + 1..];
    }

    /** `moveToHead` */
    method MoveToHead(node: Node, ghost i: nat)
      requires Intact() && i < |list| && node == list[i]
      modifies this`head, this`tail, this`list, this`pairs, nodes`prev, nodes`next
      ensures Intact() && pairs == ToFront(old(pairs), i, old(pairs)[i].value)
    {
      assert node in nodes;
      RemoveNode(node, i);
      AddToHead(node);
      pairs := ToFront(pairs, i, pairs[i].value);
      assert list == [node] + old(list)[..i] + old(list)[i + 1..];
      MovedIndexed(old(list), i, hash.index);
      MovedHolds(old(list), old(pairs), i, nodes);
    }

    // ----- the cache -----

    /** `hashGet`, and where the node is in the list. */
    method Lookup(key: int) returns (node: Node?, ghost i: nat)
      requires Intact() && Indexable(key)
      ensures i == Find(pairs, key)
      ensures if node == null then Find(pairs, key) == |pairs| && key !in hash.index
              else Find(pairs, key) < |list| && node == list[Find(pairs, key)]
    {
      node := hash.Get(key);
      i := Position(list, pairs, hash.index, nodes, key);
    }

    /** `lRUCacheGet` */
    method Get(key: int) returns (value: int)
      requires Valid() && Indexable(key)
      modifies this`head, this`tail, this`list, this`pairs, nodes`prev, nodes`next
      ensures Valid() && (value, pairs) == S.Get(old(pairs), key)
    {
      var node; ghost var i;
      node, i := Lookup(key);
      if node == null {
        return -1;
      }
      assert pairs[i] == Pair(node.key, node.value) by { assert list[i].value == node.value; }
      MoveToHead(node, i);
      return node.value;
    }

    /** `lRUCachePut` of a key that is there. */
    method Overwrite(node: Node, ghost i: nat, value: int)
      requires Intact() && i < |list| && node == list[i]
      modifies this`head, this`tail, this`list, this`pairs, nodes`prev, nodes`next, nodes`value
      ensures Intact() && pairs == ToFront(old(pairs), i, value)
    {
      SetValue(node, i, value);
      MoveToHead(node, i);
    }

    method SetValue(node: Node, ghost i: nat, value: int)
      requires Intact() && i < |list| && node == list[i]
      modifies this`pairs, nodes`value
      ensures Intact() && pairs == old(pairs)[i := Pair(old(pairs)[i].key, value)] && list == old(list)
    {
      assert list[i].value == node.value && pairs[i] == Pair(node.key, node.value);
      ListDistinct(list, head, tail, nodes);
      node.value := value;
      pairs := pairs[i := Pair(node.key, value)];
      forall j | 0 <= j < |list| ensures list[j] in nodes && pairs[j] == Pair(list[j].key, list[j].value) {
        assert j != i ==> list[j] != list[i] && list[j].value == old(list[j].value);
      }
    }

    /** A new node at the front of the list and in the table. */
    method Add(key: int, value: int)
      requires Intact() && Indexable(key) && key !in hash.index
      modifies this`head, this`tail, this`list, this`pairs, this`size, this`nodes, nodes`prev, nodes`next
      modifies hash`entries, hash`chains, hash`index, hash.heads, hash.entries`node
      ensures Intact() && pairs == [Pair(key, value)] + old(pairs)
      ensures fresh(nodes - old(nodes)) && fresh(hash.entries - old(hash.entries))
    {
      ghost var l := list;
      var newNode := AddNode(key, value);
      IndexNode(newNode, l);
      size := size + 1;
    }

    method IndexNode(node: Node, ghost l: seq<Node>)
      requires hash.Valid() && ListOk(list, head, tail, nodes) && Holds(list, pairs, nodes)
      requires list == [node] + l && Indexed(l, hash.index) && Indexable(node.key) && node.key !in hash.index
      modifies hash`entries, hash`chains, hash`index, hash.heads, hash.entries`node
      ensures hash.Valid() && ListOk(list, head, tail, nodes) && Holds(list, pairs, nodes)
      ensures Indexed(list, hash.index) && fresh(hash.entries - old(hash.entries))
    {
      AddedIndexed(l, node, hash.index);
      hash.Put(node.key, node);
    }

    method AddNode(key: int, value: int) returns (newNode: Node)
      requires ListOk(list, head, tail, nodes) && Holds(list, pairs, nodes) && |list| == |pairs|
      modifies this`head, this`tail, this`list, this`pairs, this`nodes, nodes`prev, nodes`next
      ensures ListOk(list, head, tail, nodes) && Holds(list, pairs, nodes) && newNode.key == key
      ensures list == [newNode] + old(list) && pairs == [Pair(key, value)] + old(pairs)
      ensures nodes == old(nodes) + {newNode} && fresh(newNode)
    {
      newNode := new Node(key, value);
      GrowNodes(newNode);
      AddedHolds(list, pairs, newNode, nodes);
      AddToHead(newNode);
      pairs := [Pair(key, value)] + pairs;
    }

    method GrowNodes(n: Node)
      requires ListOk(list, head, tail, nodes) && Holds(list, pairs, nodes) && n !in nodes
      modifies this`nodes
      ensures nodes == old(nodes) + {n} && n !in list
      ensures ListOk(list, head, tail, nodes) && Holds(list, pairs, nodes)
    {
      nodes := nodes + {n};
    }

    /** The end of `lRUCachePut`: the least recently used node goes. */
    method Evict()
      requires Intact() && |list| > 0
      modifies this`head, this`tail, this`list, this`pairs, this`size, nodes`prev, nodes`next
      modifies hash`chains, hash`index, hash.heads, hash.entries`next
      ensures Intact() && pairs == old(pairs)[..|old(pairs)| - 1]
    {
      ghost var l := list;
      ListDistinct(list, head, tail, nodes);
      var node := RemoveTail();
      UnindexNode(node, l);
      size := size - 1;
    }

    method UnindexNode(node: Node, ghost l: seq<Node>)
      requires hash.Valid() && ListOk(list, head, tail, nodes) && Holds(list, pairs, nodes)
      requires l != [] && list == l[..|l| - 1] && node == l[|l| - 1] && Indexed(l, hash.index)
      requires forall i, j :: 0 <= i < j < |l| ==> l[i] != l[j]
      modifies hash`chains, hash`index, hash.heads, hash.entries`next
      ensures hash.Valid() && ListOk(list, head, tail, nodes) && Holds(list, pairs, nodes)
      ensures Indexed(list, hash.index)
    {
      RemovedIndexed(l, hash.index);
      assert Indexable(node.key) by { assert UnfoldIndexed(0); }
      hash.Remove(node.key);
    }

    /** `removeTail` */
    method RemoveTail() returns (node: Node)
      requires ListOk(list, head, tail, nodes) && Holds(list, pairs, nodes) && |list| == |pairs| > 0
      modifies this`head, this`tail, this`list, this`pairs, nodes`prev, nodes`next
      ensures ListOk(list, head, tail, nodes) && Holds(list, pairs, nodes) && node == old(tail) == old(list)[|old(list)| - 1]
      ensures list == old(list)[..|old(list)| - 1] && pairs == old(pairs)[..|old(pairs)| - 1]
    {
      node := tail;
      ghost var n := |list| - 1;
      RemovedHolds(list, pairs, nodes);
      RemoveNode(node, n);
      assert list == old(list)[..n];
      pairs := pairs[..n];
    }

    /** `lRUCachePut` */
    method Put(key: int, value: int)
      requires Valid() && Indexable(key)
      modifies this`head, this`tail, this`list, this`pairs, this`size, this`nodes, nodes`prev, nodes`next, nodes`value
      modifies hash`entries, hash`chains, hash`index, hash.heads, hash.entries`next, hash.entries`node
      ensures Valid() && pairs == S.Put(old(pairs), key, value, capacity)
      ensures fresh(nodes - old(nodes)) && fresh(hash.entries - old(hash.entries))
    {
      var node; ghost var i;
      node, i := Lookup(key);
      if node != null {
        Overwrite(node, i, value);
      } else {
        Add(key, value);
        if size > capacity {
          Evict();
        }
      }
    }
  }

  /** A key that the table knows is in the list, and nowhere before its node. */
  lemma Position(l: seq<Node>, pairs: seq<Pair>, index: map<int, Node>, r: set<Node>, key: int) returns (i: nat)
    requires Indexed(l, index) && Holds(l, pairs, r) && |l| == |pairs|
    ensures i == Find(pairs, key)
    ensures if key in index then i < |l| && l[i] == index[key] else i == |l|
  {
    assert UnfoldIndexed(0);
    i := Find(pairs, key);
    forall j | 0 <= j < |l| ensures pairs[j].key == l[j].key {
      assert pairs[j] == Pair(l[j].key, l[j].value);
    }
    if key in index {
      var j :| 0 <= j < |l| && l[j] == index[key];
      assert pairs[j].key == key;
    }
  }

  lemma MovedIndexed(l: seq<Node>, i: nat, index: map<int, Node>)
    requires Indexed(l, index) && i < |l|
    ensures Indexed([l[i]] + l[..i] + l[i + 1..], index)
  {
    assert UnfoldIndexed(0);
    var l' := [l[i]] + l[..i] + l[i + 1..];
    assert forall j :: 0 <= j < |l'| ==> l'[j] == if j == 0 then l[i] else l[if j <= i then j - 1 else j];
    forall k | k in index ensures index[k] in l' {
      var j :| 0 <= j < |l| && l[j] == index[k];
      assert l'[if j == i then 0 else if j < i then j + 1 else j] == l[j];
    }
  }

  lemma MovedHolds(l: seq<Node>, pairs: seq<Pair>, i: nat, r: set<Node>)
    requires Holds(l, pairs, r) && i < |l| == |pairs|
    ensures Holds([l[i]] + l[..i] + l[i + 1..], ToFront(pairs, i, pairs[i].value), r)
  {
    var l', pairs' := [l[i]] + l[..i] + l[i + 1..], ToFront(pairs, i, pairs[i].value);
    ToFrontAt(pairs, i, pairs[i].value);
    forall j | 0 <= j < |l'| ensures l'[j] in r && pairs'[j] == Pair(l'[j].key, l'[j].value) {
      var k := if j == 0 then i else if j <= i then j - 1 else j;
      assert l'[j] == l[k] && pairs'[j] == pairs[k];
      assert pairs[k] == Pair(l[k].key, l[k].value);
    }
  }

  lemma AddedIndexed(l: seq<Node>, n: Node, index: map<int, Node>)
    requires Indexed(l, index) && Indexable(n.key) && n.key !in index
    ensures Indexed([n] + l, index[n.key := n])
  {
    assert UnfoldIndexed(0);
    var l' := [n] + l;
    assert forall j :: 0 < j < |l'| ==> l'[j] == l[j - 1];
    forall k | k in index ensures index[k] in l' {
      var j :| 0 <= j < |l| && l[j] == index[k];
      assert l'[j + 1] == l[j];
    }
    assert l'[0] == n;
  }

  lemma AddedHolds(l: seq<Node>, pairs: seq<Pair>, n: Node, r: set<Node>)
    requires Holds(l, pairs, r) && n in r && |l| == |pairs|
    ensures Holds([n] + l, [Pair(n.key, n.value)] + pairs, r)
  {
    var l' := [n] + l;
    forall j | 0 <= j < |l'| ensures l'[j] in r && ([Pair(n.key, n.value)] + pairs)[j] == Pair(l'[j].key, l'[j].value) {
      assert j > 0 ==> l'[j] == l[j - 1] && pairs[j - 1] == Pair(l[j - 1].key, l[j - 1].value);
    }
  }

  lemma RemovedIndexed(l: seq<Node>, index: map<int, Node>)
    requires Indexed(l, index) && l != [] && forall i, j :: 0 <= i < j < |l| ==> l[i] != l[j]
    ensures Indexed(l[..|l| - 1], index - {l[|l| - 1].key})
  {
    assert UnfoldIndexed(0);
    var n := |l| - 1;
    forall k | k in index && k != l[n].key ensures index[k] in l[..n] {
      var j :| 0 <= j < |l| && l[j] == index[k];
      assert j != n && l[..n][j] == index[k];
    }
    forall i | 0 <= i < n ensures l[i].key != l[n].key {
      assert index[l[i].key] == l[i] && index[l[n].key] == l[n];
    }
  }

  lemma RemovedHolds(l: seq<Node>, pairs: seq<Pair>, r: set<Node>)
    requires Holds(l, pairs, r) && l != [] && |l| == |pairs|
    ensures Holds(l[..|l| - 1], pairs[..|l| - 1], r)
  {
    var l' := l[..|l| - 1];
    forall j | 0 <= j < |l'| ensures l'[j] in r && pairs[..|l| - 1][j] == Pair(l'[j].key, l'[j].value) {
      assert l'[j] == l[j] && pairs[j] == Pair(l[j].key, l[j].value);
    }
  }

  method Apply(cache: Cache, op: Op) returns (value: int)
    requires cache.Valid() && Indexable(op.key)
    modifies cache, cache.nodes, cache.hash, cache.hash.heads, cache.hash.entries
    ensures cache.Valid() && cache.pairs == Step(old(cache.pairs), op, cache.capacity)
    ensures op.GetOp? ==> value == S.Get(old(cache.pairs), op.key).0
    ensures fresh(cache.nodes - old(cache.nodes)) && fresh(cache.hash.entries - old(cache.hash.entries))
  {
    match op
    case GetOp(k) => value := cache.Get(k);
    case PutOp(k, v) => cache.Put(k, v); value := 0;
  }

  /** What the gets of a run return. */
  ghost predicate Answers(ops: seq<Op>, values: seq<int>, capacity: int) {
    && |values| == |ops|
    && (ops != [] ==>
          var n := |ops| - 1;
          && Answers(ops[..n], values[..n], capacity)
          && (ops[n].GetOp? ==> values[n] == S.Get(Run([], ops[..n], capacity), ops[n].key).0))
  }

  /** What the gets of a run should return, from the operations alone: -1 or the value last
      put under the key, and that value while fewer than capacity other keys were used. */
  ghost predicate Right(ops: seq<Op>, values: seq<int>, capacity: int) {
    && |values| == |ops|
    && (forall i {:trigger values[i]} :: 0 <= i < |ops| && ops[i].GetOp? ==>
          values[i] == -1 || (ops[i].key in Last(ops[..i]) && values[i] == Last(ops[..i])[ops[i].key]))
    && (forall i, j :: 0 <= j < i < |ops| && ops[i].GetOp? && InReach(ops, j, i, ops[i].key, capacity) ==>
          values[i] == ops[j].value)
  }

  lemma {:induction false} AnswerAt(ops: seq<Op>, values: seq<int>, capacity: int, i: nat)
    requires Answers(ops, values, capacity) && i < |ops| && ops[i].GetOp?
    ensures |values| == |ops| && values[i] == S.Get(Run([], ops[..i], capacity), ops[i].key).0
    decreases |ops|
  {
    var n := |ops| - 1;
    if i < n {
      AnswerAt(ops[..n], values[..n], capacity, i);
      assert ops[..n][..i] == ops[..i] && ops[..n][i] == ops[i];
    }
  }

  lemma AnswersRight(ops: seq<Op>, values: seq<int>, capacity: int)
    requires Answers(ops, values, capacity)
    ensures Right(ops, values, capacity)
  {
    forall i | 0 <= i < |ops| && ops[i].GetOp?
      ensures values[i] == -1 || (ops[i].key in Last(ops[..i]) && values[i] == Last(ops[..i])[ops[i].key])
    {
      AnswerAt(ops, values, capacity, i);
      GetAnswers(ops[..i], capacity, ops[i].key);
    }
    forall i, j | 0 <= j < i < |ops| && ops[i].GetOp? && InReach(ops, j, i, ops[i].key, capacity)
      ensures values[i] == ops[j].value
    {
      AnswerAt(ops, values, capacity, i);
      PutAnswered(ops, j, i, ops[i].key, capacity);
    }
  }

  /** A whole run behaves as the sequence does, and its gets return what they should. */
  method RunOps(ops: seq<Op>, capacity: int) returns (cache: Cache, values: seq<int>)
    requires forall i :: 0 <= i < |ops| ==> Indexable(ops[i].key)
    ensures cache.Valid() && cache.pairs == Run([], ops, capacity)
    ensures Answers(ops, values, capacity) && Right(ops, values, capacity)
  {
    cache, values := RunAll(ops, capacity);
    AnswersRight(ops, values, capacity);
  }

  method RunAll(ops: seq<Op>, capacity: int) returns (cache: Cache, values: seq<int>)
    requires forall i :: 0 <= i < |ops| ==> Indexable(ops[i].key)
    ensures cache.Valid() && cache.pairs == Run([], ops, capacity)
    ensures Answers(ops, values, capacity)
  {
    cache := new Cache(capacity);
    values := [];
    for i := 0 to |ops|
      invariant cache.Valid() && fresh(cache) && fresh(cache.nodes) && cache.capacity == capacity
      invariant fresh(cache.hash) && fresh(cache.hash.heads) && fresh(cache.hash.entries)
      invariant cache.pairs == Run([], ops[..i], capacity) && Answers(ops[..i], values, capacity)
    {
      var value := Apply(cache, ops[i]);
      assert ops[..i + 1][..i] == ops[..i] && (values + [value])[..i] == values;
      values := values + [value];
    }
    assert ops[..|ops|] == ops;
  }
}
