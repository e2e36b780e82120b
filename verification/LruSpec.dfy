// What lrucache.c computes: pairs with distinct keys, most recently used first.

module LruSpec {

  datatype Pair = Pair(key: int, value: int)

  /** The position of a key, or |s|. */
  function Find(s: seq<Pair>, key: int): (i: nat)
    ensures i <= |s| && (i < |s| ==> s[i].key == key)
    ensures forall j :: 0 <= j < i ==> s[j].key != key
  {
    if s == [] || s[0].key == key then 0 else 1 + Find(s[1..], key)
  }

  function ToFront(s: seq<Pair>, i: nat, value: int): seq<Pair>
    requires i < |s|
  {
    [Pair(s[i].key, value)] + s[..i] + s[i + 1..]
  }

  /** `lRUCacheGet` */
  function Get(s: seq<Pair>, key: int): (int, seq<Pair>) {
    var i := Find(s, key);
    if i == |s| then (-1, s) else (s[i].value, ToFront(s, i, s[i].value))
  }

  /** `lRUCachePut` */
  function Put(s: seq<Pair>, key: int, value: int, capacity: int): seq<Pair> {
    var i := Find(s, key);
    if i < |s| then ToFront(s, i, value)
    else
      var t := [Pair(key, value)] + s;
      if |t| > capacity then t[..|t| - 1] else t
  }

  // ----- whole runs -----

  datatype Op = GetOp(key: int) | PutOp(key: int, value: int)

  function Step(s: seq<Pair>, op: Op, capacity: int): seq<Pair> {
    match op
    case GetOp(k) => Get(s, k).1
    case PutOp(k, v) => Put(s, k, v, capacity)
  }

  function Run(s: seq<Pair>, ops: seq<Op>, capacity: int): seq<Pair> {
    if ops == [] then s else Step(Run(s, ops[..|ops| - 1], capacity), ops[|ops| - 1], capacity)
  }

  ghost function Last(ops: seq<Op>): map<int, int> {
    if ops == [] then map[]
    else
      var m, op := Last(ops[..|ops| - 1]), ops[|ops| - 1];
      if op.PutOp? then m[op.key := op.value] else m
  }

  ghost predicate DistinctKeys(s: seq<Pair>) {
    forall i, j :: 0 <= i < j < |s| ==> s[i].key != s[j].key
  }

  /** Every pair holds the value last put under its key. */
  ghost predicate Current(s: seq<Pair>, last: map<int, int>) {
    forall i :: 0 <= i < |s| ==> s[i].key in last && s[i].value == last[s[i].key]
  }

  lemma ToFrontAt(s: seq<Pair>, i: nat, value: int)
    requires i < |s|
    ensures var t := ToFront(s, i, value);
      && |t| == |s| && t[0] == Pair(s[i].key, value)
      && (forall j :: 0 < j <= i ==> t[j] == s[j - 1]) && (forall j :: i < j < |s| ==> t[j] == s[j])
  {
  }

  lemma StepKeeps(s: seq<Pair>, op: Op, capacity: int, last: map<int, int>)
    requires DistinctKeys(s) && Current(s, last) && (|s| == 0 || |s| <= capacity)
    ensures var s', last' := Step(s, op, capacity), if op.PutOp? then last[op.key := op.value] else last;
      DistinctKeys(s') && Current(s', last') && (|s'| == 0 || |s'| <= capacity)
  {
    var i := Find(s, op.key);
    if i < |s| {
      ToFrontAt(s, i, if op.PutOp? then op.value else s[i].value);
    }
  }

  /** In every run: keys are distinct, no more than the capacity, and a hit returns the
      value last put. */
  lemma {:induction false} RunKeeps(ops: seq<Op>, capacity: int)
    ensures var s := Run([], ops, capacity); DistinctKeys(s) && Current(s, Last(ops)) && (|s| == 0 || |s| <= capacity)
  {
    if ops != [] {
      RunKeeps(ops[..|ops| - 1], capacity);
      StepKeeps(Run([], ops[..|ops| - 1], capacity), ops[|ops| - 1], capacity, Last(ops[..|ops| - 1]));
    }
  }

  /** The keys a run asks for. */
  ghost function Used(ops: seq<Op>): set<int> {
    set i | 0 <= i < |ops| :: ops[i].key
  }

  /** The keys used more recently than the pair at i. */
  ghost function Ahead(s: seq<Pair>, i: nat): set<int>
    requires i <= |s|
  {
    set j | 0 <= j < i :: s[j].key
  }

  lemma {:induction false} AheadSize(s: seq<Pair>, i: nat)
    requires DistinctKeys(s) && i <= |s|
    ensures |Ahead(s, i)| == i
  {
    if i > 0 {
      AheadSize(s, i - 1);
      assert s[i - 1].key !in Ahead(s, i - 1);
      assert Ahead(s, i) == Ahead(s, i - 1) + {s[i - 1].key};
    }
  }

  /** Only the key moved to the front can come to be ahead. */
  lemma MovedAhead(s: seq<Pair>, i: nat, k: nat, value: int)
    requires i < |s| && k < |s| && i != k && DistinctKeys(s)
    ensures var s', p := ToFront(s, k, value), if k < i then i else i + 1;
      Find(s', s[i].key) == p && s'[p] == s[i] && Ahead(s', p) <= Ahead(s, i) + {s[k].key}
  {
    var s', p := ToFront(s, k, value), if k < i then i else i + 1;
    ToFrontAt(s, k, value);
    FoundAt(s', s[i].key, p);
    forall j | 0 < j < p ensures s'[j].key in Ahead(s, i) {
      assert s'[j] == s[if j <= k then j - 1 else j];
    }
  }

  /** A key keeps its place behind the keys used after it, and so is evicted only when
      those are as many as the capacity. */
  lemma StepAhead(s: seq<Pair>, key: int, op: Op, capacity: int, used: set<int>)
    requires DistinctKeys(s) && |s| <= capacity
    requires var i := Find(s, key); i < |s| && Ahead(s, i) <= used
    requires op.key != key && |used + {op.key}| < capacity
    ensures var s' := Step(s, op, capacity); var i' := Find(s', key);
      i' < |s'| && s'[i'] == s[Find(s, key)] && Ahead(s', i') <= used + {op.key}
  {
    var i, k := Find(s, key), Find(s, op.key);
    if k < |s| {
      MovedAhead(s, i, k, if op.PutOp? then op.value else s[k].value);
    } else if op.PutOp? {
      NotLast(s, i, op.key, used, capacity);
      PutAhead(s, i, key, op.key, op.value, capacity);
    }
  }

  lemma PutAhead(s: seq<Pair>, i: nat, key: int, k: int, value: int, capacity: int)
    requires i == Find(s, key) < |s| <= capacity && i + 1 < capacity && k != key && Find(s, k) == |s|
    ensures var s' := Put(s, k, value, capacity);
      i + 1 < |s'| && Find(s', key) == i + 1 && s'[i + 1] == s[i] && Ahead(s', i + 1) <= Ahead(s, i) + {k}
  {
    var s' := Put(s, k, value, capacity);
    forall j | 0 < j <= i + 1 ensures s'[j] == s[j - 1] {
    }
    FoundAt(s', key, i + 1);
  }

  /** A pair that few others are ahead of is not the one to go for a new key. */
  lemma NotLast(s: seq<Pair>, i: nat, key: int, used: set<int>, capacity: int)
    requires DistinctKeys(s) && i < |s| && Ahead(s, i) <= used && |used + {key}| < capacity
    requires forall j :: 0 <= j < |s| ==> s[j].key != key
    ensures i + 1 < capacity
  {
    AheadSize(s, i);
    assert key !in Ahead(s, i);
    SubsetSize(Ahead(s, i) + {key}, used + {key});
  }

  lemma {:induction false} SubsetSize<T>(a: set<T>, b: set<T>)
    requires a <= b
    ensures |a| <= |b|
  {
    assert b == a + (b - a);
  }

  lemma {:induction false} FoundAt(s: seq<Pair>, key: int, p: nat)
    requires p < |s| && s[p].key == key && forall j :: 0 <= j < p ==> s[j].key != key
    ensures Find(s, key) == p
  {
  }

  /** After a put, the key keeps the value, and a get returns it, while fewer than capacity
      other keys are used; gets of the key itself do no harm. */
  lemma {:induction false} Survives(s: seq<Pair>, key: int, value: int, ops: seq<Op>, capacity: int)
    requires DistinctKeys(s) && |s| <= capacity && |Used(ops) - {key}| < capacity
    requires forall i :: 0 <= i < |ops| && ops[i].key == key ==> ops[i].GetOp?
    ensures var t := Run(Put(s, key, value, capacity), ops, capacity);
      Kept(t, key, value, Used(ops) - {key}, capacity) && Get(t, key).0 == value
    decreases |ops|
  {
    if ops == [] {
      StepDistinct(s, PutOp(key, value), capacity);
    } else {
      var before, op := ops[..|ops| - 1], ops[|ops| - 1];
      UsedMore(ops, key);
      SubsetSize(Used(before) - {key}, Used(ops) - {key});
      Survives(s, key, value, before, capacity);
      var t := Run(Put(s, key, value, capacity), before, capacity);
      StepKept(t, key, value, op, Used(before) - {key}, Used(ops) - {key}, capacity);
    }
  }

  /** The key has the value, and only used keys come before it. */
  ghost predicate Kept(s: seq<Pair>, key: int, value: int, used: set<int>, capacity: int) {
    var i := Find(s, key);
    DistinctKeys(s) && |s| <= capacity && i < |s| && s[i].value == value && Ahead(s, i) <= used
  }

  lemma UsedMore(ops: seq<Op>, key: int)
    requires ops != []
    ensures var before, op := ops[..|ops| - 1], ops[|ops| - 1];
      Used(ops) - {key} == (Used(before) - {key}) + if op.key == key then {} else {op.key}
  {
    var before := ops[..|ops| - 1];
    assert forall i :: 0 <= i < |before| ==> before[i] == ops[i];
  }

  lemma StepKept(s: seq<Pair>, key: int, value: int, op: Op, used: set<int>, used': set<int>, capacity: int)
    requires Kept(s, key, value, used, capacity) && |used'| < capacity
    requires used' == used + if op.key == key then {} else {op.key}
    requires op.key == key ==> op.GetOp?
    ensures Kept(Step(s, op, capacity), key, value, used', capacity)
  {
    StepDistinct(s, op, capacity);
    if op.key == key {
      GetFirst(s, key, capacity);
    } else {
      StepAhead(s, key, op, capacity, used);
    }
  }

  lemma GetFirst(s: seq<Pair>, key: int, capacity: int)
    requires Find(s, key) < |s|
    ensures var s' := Step(s, GetOp(key), capacity);
      s' != [] && Find(s', key) == 0 && s'[0] == s[Find(s, key)] && Ahead(s', 0) == {}
  {
  }

  // ----- the answers of a run -----

  /** A get returns the value last put under its key if some pair has the key, and otherwise
      -1. */
  lemma GetAnswers(ops: seq<Op>, capacity: int, key: int)
    ensures var s, r := Run([], ops, capacity), Get(Run([], ops, capacity), key).0;
      if exists i :: 0 <= i < |s| && s[i].key == key then key in Last(ops) && r == Last(ops)[key] else r == -1
  {
    RunKeeps(ops, capacity);
  }

  lemma {:induction false} RunConcat(s: seq<Pair>, a: seq<Op>, b: seq<Op>, capacity: int)
    ensures Run(s, a + b, capacity) == Run(Run(s, a, capacity), b, capacity)
  {
    if b == [] {
      assert a + b == a;
    } else {
      var n := |b| - 1;
      assert (a + b)[..|a| + n] == a + b[..n];
      RunConcat(s, a, b[..n], capacity);
    }
  }

  /** Operation j puts the value that a get as operation i should find: the last put of the
      key, with fewer than capacity other keys used in between. */
  ghost predicate InReach(ops: seq<Op>, j: nat, i: nat, key: int, capacity: int) {
    && j < i <= |ops| && ops[j].PutOp? && ops[j].key == key
    && (forall l :: j < l < i && ops[l].key == key ==> ops[l].GetOp?)
    && |Used(ops[j + 1..i]) - {key}| < capacity
  }

  lemma PutAnswered(ops: seq<Op>, j: nat, i: nat, key: int, capacity: int)
    requires InReach(ops, j, i, key, capacity)
    ensures Get(Run([], ops[..i], capacity), key).0 == ops[j].value
  {
    var first, more := ops[..j], ops[j + 1..i];
    assert ops[..j + 1] == first + [ops[j]] && ops[..i] == ops[..j + 1] + more;
    RunConcat([], ops[..j + 1], more, capacity);
    assert ops[..j + 1][..j] == first;
    RunKeeps(first, capacity);
    Survives(Run([], first, capacity), key, ops[j].value, more, capacity);
  }

  lemma StepDistinct(s: seq<Pair>, op: Op, capacity: int)
    requires DistinctKeys(s) && |s| <= capacity
    ensures DistinctKeys(Step(s, op, capacity)) && |Step(s, op, capacity)| <= capacity
  {
    var i := Find(s, op.key);
    if i < |s| {
      ToFrontAt(s, i, if op.PutOp? then op.value else s[i].value);
    }
  }
}
