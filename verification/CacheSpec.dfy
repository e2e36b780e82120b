// What MemoryAllocation/cache.c is meant to compute, on values: a list of entries in
// recency order, a byte budget, and the newest data put under each key.

module CacheSpec {
  import opened SeqFacts

  newtype byte = x: int | 0 <= x < 256
  type Key = string
  type Data = seq<byte>

  datatype Rec = Rec(key: Key, data: Data)

  function Total(recs: seq<Rec>): nat {
    if recs == [] then 0 else Total(recs[..|recs| - 1]) + |recs[|recs| - 1].data|
  }

  /** The eviction loop of `cache_put`: drop the least recent while `size` does not fit. */
  function EvictFor(recs: seq<Rec>, size: nat, max: nat): (r: seq<Rec>)
    requires size <= max
    ensures r <= recs && Total(r) + size <= max
    ensures r == recs || Total(recs[..|r| + 1]) + size > max
  {
    if Total(recs) + size > max then
      var shorter := recs[..|recs| - 1];
      var r := EvictFor(shorter, size, max);
      assert r == shorter ==> recs[..|r| + 1] == recs;
      assert r != shorter ==> shorter[..|r| + 1] == recs[..|r| + 1];
      r
    else recs
  }

  /** What a put may leave: the new record, and behind it the old ones from the front as far
      as they fit.  None is dropped unless keeping it would break the budget. */
  ghost predicate Added(recs: seq<Rec>, key: Key, data: Data, max: nat, r: seq<Rec>) {
    && r != [] && r[0] == Rec(key, data) && r[1..] <= recs
    && Total(r[1..]) + |data| <= max
    && (r[1..] == recs || Total(recs[..|r|]) + |data| > max)
  }

  /** `cache_put`: an older entry under the same key is left where it is. */
  function Put(recs: seq<Rec>, key: Key, data: Data, max: nat): (r: seq<Rec>)
    requires |data| <= max
    ensures Added(recs, key, data, max, r)
    ensures Total(recs) + |data| <= max ==> r == [Rec(key, data)] + recs
  {
    var kept := EvictFor(recs, |data|, max);
    assert ([Rec(key, data)] + kept)[1..] == kept;
    assert kept != recs ==> Total(recs[..|kept| + 1]) + |data| > max;
    assert recs[..|recs|] == recs;
    [Rec(key, data)] + kept
  }

  /** The most recent entry under key, or |recs|. */
  function Find(recs: seq<Rec>, key: Key): (i: nat)
    ensures i <= |recs|
    ensures forall j :: 0 <= j < i ==> recs[j].key != key
    ensures i < |recs| ==> recs[i].key == key
  {
    if recs == [] || recs[0].key == key then 0 else
      var i := 1 + Find(recs[1..], key);
      assert forall j :: 0 < j < i ==> recs[j] == recs[1..][j - 1];
      i
  }

  function Get(recs: seq<Rec>, key: Key): (r: (Option<Data>, seq<Rec>))
    ensures r.0 == None <==> forall i :: 0 <= i < |recs| ==> recs[i].key != key
  {
    var i := Find(recs, key);
    if i == |recs| then (None, recs)
    else (Some(recs[i].data), [recs[i]] + recs[..i] + recs[i + 1..])
  }

  lemma {:induction false} FindConcat(a: seq<Rec>, b: seq<Rec>, key: Key)
    ensures Find(a + b, key) == if Find(a, key) < |a| then Find(a, key) else |a| + Find(b, key)
  {
    if a == [] {
      assert a + b == b;
    } else {
      assert (a + b)[1..] == a[1..] + b;
      FindConcat(a[1..], b, key);
    }
  }

  lemma FindOne(r: Rec, key: Key)
    ensures Find([r], key) == if r.key == key then 0 else 1
  {
  }

  // ----- the newest data under each key -----

  /** The most recent entry under every key holds what was last put under it. */
  ghost predicate Newest(recs: seq<Rec>, last: map<Key, Data>) {
    forall k :: Find(recs, k) < |recs| ==> k in last && recs[Find(recs, k)].data == last[k]
  }

  lemma PutNewest(recs: seq<Rec>, last: map<Key, Data>, key: Key, data: Data, max: nat)
    requires Newest(recs, last) && |data| <= max
    ensures Newest(Put(recs, key, data, max), last[key := data])
    ensures Total(Put(recs, key, data, max)) <= max
  {
    var kept := EvictFor(recs, |data|, max);
    var rest := recs[|kept|..];
    assert recs == kept + rest;
    forall k ensures Find([Rec(key, data)] + kept, k) < 1 + |kept| ==>
      k in last[key := data] && ([Rec(key, data)] + kept)[Find([Rec(key, data)] + kept, k)].data == last[key := data][k]
    {
      FindConcat([Rec(key, data)], kept, k);
      FindOne(Rec(key, data), k);
      FindConcat(kept, rest, k);
    }
    TotalCons(Rec(key, data), kept);
  }

  lemma {:induction false} TotalCons(r: Rec, recs: seq<Rec>)
    ensures Total([r] + recs) == |r.data| + Total(recs)
  {
    var all, n := [r] + recs, |recs|;
    if n == 0 {
      assert all[..0] == [] && Total(all[..0]) == 0;
    } else {
      TotalCons(r, recs[..n - 1]);
      assert all[..n] == [r] + recs[..n - 1];
    }
  }

  lemma {:induction false} TotalConcat(a: seq<Rec>, b: seq<Rec>)
    ensures Total(a + b) == Total(a) + Total(b)
  {
    if b == [] {
      assert a + b == a;
    } else {
      var n := |b| - 1;
      TotalConcat(a, b[..n]);
      assert (a + b)[..|a| + n] == a + b[..n];
    }
  }

  /** Moving an entry to the front changes which entry is found for no key. */
  lemma MoveKeepsFound(a: seq<Rec>, r: Rec, b: seq<Rec>, k: Key)
    requires Find(a, r.key) == |a|
    ensures var recs, moved := a + [r] + b, [r] + a + b;
      && (Find(moved, k) < |moved| <==> Find(recs, k) < |recs|)
      && (Find(recs, k) < |recs| ==> moved[Find(moved, k)] == recs[Find(recs, k)])
  {
    var recs, moved := a + [r] + b, [r] + a + b;
    var i := Find(recs, k);
    assert forall l :: 0 <= l < |moved| ==> moved[l] == recs[if l == 0 then |a| else if l <= |a| then l - 1 else l];
    if i < |recs| {
      var p := if i == |a| then 0 else if i < |a| then i + 1 else i;
      forall l | 0 <= l < p ensures moved[l].key != k {
        MovedFrom(a, r, b, l, k);
      }
      FindIs(moved, k, p);
    }
  }

  lemma MovedFrom(a: seq<Rec>, r: Rec, b: seq<Rec>, l: nat, k: Key)
    requires var i := Find(a + [r] + b, k);
      i < |a + [r] + b| && Find(a, r.key) == |a| && l < if i == |a| then 0 else if i < |a| then i + 1 else i
    ensures ([r] + a + b)[l].key != k
  {
    var recs, i := a + [r] + b, Find(a + [r] + b, k);
    assert ([r] + a + b)[l] == recs[if l == 0 then |a| else if l <= |a| then l - 1 else l];
    if l == 0 && i < |a| {
      assert recs[i] == a[i];
    }
  }

  lemma MoveKeepsTotal(recs: seq<Rec>, i: nat)
    requires i < |recs|
    ensures Total([recs[i]] + recs[..i] + recs[i + 1..]) == Total(recs)
  {
    SplitAt(recs, i);
    MoveTotal(recs[..i], recs[i], recs[i + 1..]);
  }

  lemma MoveTotal(a: seq<Rec>, r: Rec, b: seq<Rec>)
    ensures Total([r] + a + b) == Total(a + [r] + b)
  {
    TotalConcat([r] + a, b);
    TotalConcat(a + [r], b);
    TotalCons(r, a);
    TotalConcat(a, [r]);
    TotalCons(r, []);
  }

  lemma GetNewest(recs: seq<Rec>, last: map<Key, Data>, key: Key)
    requires Newest(recs, last)
    ensures Newest(Get(recs, key).1, last) && Total(Get(recs, key).1) == Total(recs)
    ensures Get(recs, key).0.Some? ==> key in last && Get(recs, key).0.value == last[key]
  {
    var i := Find(recs, key);
    if i < |recs| {
      MoveKeepsTotal(recs, i);
      SplitAt(recs, i);
      FindPrefix(recs, key);
      forall k ensures Find(Get(recs, key).1, k) < |recs| ==>
        k in last && Get(recs, key).1[Find(Get(recs, key).1, k)].data == last[k]
      {
        MoveKeepsFound(recs[..i], recs[i], recs[i + 1..], k);
      }
    }
  }

  lemma FindPrefix(recs: seq<Rec>, key: Key)
    ensures Find(recs[..Find(recs, key)], key) == Find(recs, key)
  {
    var i := Find(recs, key);
    assert recs == recs[..i] + recs[i..];
    FindConcat(recs[..i], recs[i..], key);
  }

  // ----- whole runs -----

  datatype Op = PutOp(key: Key, data: Data) | GetOp(key: Key)

  ghost predicate Fits(ops: seq<Op>, max: nat) {
    forall o :: o in ops && o.PutOp? ==> |o.data| <= max
  }

  /** The records after a run that starts with recs. */
  function Run(recs: seq<Rec>, ops: seq<Op>, max: nat): seq<Rec>
    requires Fits(ops, max)
  {
    if ops == [] then recs
    else
      assert ops[|ops| - 1] in ops;
      Step(Run(recs, ops[..|ops| - 1], max), ops[|ops| - 1], max)
  }

  function Step(recs: seq<Rec>, op: Op, max: nat): seq<Rec>
    requires op.PutOp? ==> |op.data| <= max
  {
    match op
    case PutOp(k, d) => Put(recs, k, d, max)
    case GetOp(k) => Get(recs, k).1
  }

  /** What a store that forgets nothing would answer. */
  function LastPut(ops: seq<Op>): map<Key, Data> {
    if ops == [] then map[]
    else
      var before := LastPut(ops[..|ops| - 1]);
      match ops[|ops| - 1]
      case PutOp(k, d) => before[k := d]
      case GetOp(_) => before
  }

  lemma {:induction false} RunInv(ops: seq<Op>, max: nat)
    requires Fits(ops, max)
    ensures Newest(Run([], ops, max), LastPut(ops)) && Total(Run([], ops, max)) <= max
  {
    if ops != [] {
      var n := |ops| - 1;
      RunInv(ops[..n], max);
      match ops[n]
      case PutOp(k, d) =>
        assert ops[n] in ops;
        PutNewest(Run([], ops[..n], max), LastPut(ops[..n]), k, d, max);
      case GetOp(k) => GetNewest(Run([], ops[..n], max), LastPut(ops[..n]), k);
    }
  }

  /** After any run, a get answers with the data of the last put of the key or not at
      all: never with an older value, though older entries stay in place. */
  lemma GetNeverStale(ops: seq<Op>, max: nat, key: Key)
    requires Fits(ops, max)
    ensures var r := Get(Run([], ops, max), key).0;
            r == None || (key in LastPut(ops) && r == Some(LastPut(ops)[key]))
  {
    RunInv(ops, max);
    GetNewest(Run([], ops, max), LastPut(ops), key);
  }

  // ----- what stays -----

  /** The entries used or put by a run: each put adds one, and a hit adds the entry it finds
      unless it is there already.  Uses of key itself do not count. */
  function Used(recs: seq<Rec>, ops: seq<Op>, max: nat, key: Key): seq<Rec>
    requires Fits(ops, max)
  {
    if ops == [] then []
    else
      var n := |ops| - 1;
      var u, s := Used(recs, ops[..n], max, key), Run(recs, ops[..n], max);
      match ops[n]
      case PutOp(k, d) => u + [Rec(k, d)]
      case GetOp(k) =>
        var i := Find(s, k);
        if k == key || i == |s| || s[i] in u then u else u + [s[i]]
  }

  lemma {:induction false} TotalGrows(a: seq<Rec>, b: seq<Rec>)
    requires multiset(a) <= multiset(b)
    ensures Total(a) <= Total(b)
    decreases |a|
  {
    if a != [] {
      var n := |a| - 1;
      var x := a[n];
      assert a == a[..n] + [x];
      assert x in multiset(b);
      var j :| 0 <= j < |b| && b[j] == x;
      var rest := b[..j] + b[j + 1..];
      SplitAt(b, j);
      assert multiset(rest) == multiset(b) - multiset{x};
      TotalGrows(a[..n], rest);
      TotalConcat(b[..j] + [x], b[j + 1..]);
      TotalConcat(b[..j], [x]);
      TotalConcat(b[..j], b[j + 1..]);
      TotalOne(x);
    }
  }

  /** The entry under key holds data, and no more than u is ahead of it. */
  ghost predicate Stays(recs: seq<Rec>, key: Key, data: Data, u: seq<Rec>) {
    var i := Find(recs, key);
    i < |recs| && recs[i].data == data && multiset(recs[..i]) <= multiset(u)
  }

  /** A put of another key evicts the entry only if it does not fit with what is ahead. */
  lemma PutStays(recs: seq<Rec>, key: Key, data: Data, u: seq<Rec>, k: Key, d: Data, max: nat)
    requires Stays(recs, key, data, u) && k != key && |d| <= max
    requires |data| + Total(u + [Rec(k, d)]) <= max
    ensures Stays(Put(recs, k, d, max), key, data, u + [Rec(k, d)])
  {
    var i, r := Find(recs, key), Put(recs, k, d, max);
    TotalGrows(recs[..i], u);
    TotalConcat(u, [Rec(k, d)]);
    TotalOne(Rec(k, d));
    NotDropped(recs, i, k, d, max, r);
    AddedBefore(recs, key, i, Rec(k, d), r);
  }

  lemma TotalOne(r: Rec)
    ensures Total([r]) == |r.data|
  {
    TotalCons(r, []);
  }

  /** What fits with all that is ahead is kept. */
  lemma NotDropped(recs: seq<Rec>, i: nat, k: Key, d: Data, max: nat, r: seq<Rec>)
    requires i < |recs| && Added(recs, k, d, max, r) && Total(recs[..i]) + |recs[i].data| + |d| <= max
    ensures i < |r| - 1
  {
    PrefixStep(recs, i);
    TotalConcat(recs[..i], [recs[i]]);
    TotalOne(recs[i]);
    TotalPrefix(recs, if |r| <= i + 1 then |r| else i + 1, i + 1);
  }

  lemma AddedBefore(recs: seq<Rec>, key: Key, i: nat, x: Rec, r: seq<Rec>)
    requires i == Find(recs, key) < |r| - 1 && r[0] == x && r[1..] <= recs && x.key != key
    ensures Find(r, key) == i + 1 && r[i + 1] == recs[i] && r[..i + 1] == [x] + recs[..i]
  {
    forall l | 0 < l <= i + 1 ensures r[l] == recs[l - 1] {
      assert r[l] == r[1..][l - 1];
    }
    FindIs(r, key, i + 1);
  }

  lemma TotalPrefix(recs: seq<Rec>, i: nat, j: nat)
    requires i <= j <= |recs|
    ensures Total(recs[..i]) <= Total(recs[..j])
  {
    assert recs[..j] == recs[..i] + recs[i..j];
    TotalConcat(recs[..i], recs[i..j]);
  }

  /** A get moves at most one entry ahead, and one that is not there yet. */
  lemma GetStays(recs: seq<Rec>, key: Key, data: Data, u: seq<Rec>, k: Key, u': seq<Rec>)
    requires Stays(recs, key, data, u)
    requires var j := Find(recs, k);
      u' == if k == key || j == |recs| || recs[j] in u then u else u + [recs[j]]
    ensures Stays(Get(recs, k).1, key, data, u')
  {
    var j := Find(recs, k);
    if j < |recs| {
      HitStays(recs, key, data, u, Find(recs, key), j, [recs[j]] + recs[..j] + recs[j + 1..], u');
    }
  }

  lemma HitStays(recs: seq<Rec>, key: Key, data: Data, u: seq<Rec>, i: nat, j: nat, r: seq<Rec>, u': seq<Rec>)
    requires i == Find(recs, key) < |recs| && recs[i].data == data && multiset(recs[..i]) <= multiset(u)
    requires j < |recs| && j == Find(recs, recs[j].key) && r == [recs[j]] + recs[..j] + recs[j + 1..]
    requires u' == if j == i || recs[j] in u then u else u + [recs[j]]
    ensures Stays(r, key, data, u')
  {
    if j == i {
      FindIs(r, key, 0);
      StaysAt(r, key, 0, data, u');
    } else {
      assert recs[j] in recs[..i] ==> j < i;
      OneMore(multiset(recs[..i]), u, recs[j], u', j > i);
      if j < i {
        MovedWithin(recs, key, i, j, r, u');
      } else {
        MovedAhead(recs, key, i, j, r, u');
      }
    }
  }

  lemma StaysAt(recs: seq<Rec>, key: Key, i: nat, data: Data, u: seq<Rec>)
    requires Find(recs, key) == i < |recs| && recs[i].data == data && multiset(recs[..i]) <= multiset(u)
    ensures Stays(recs, key, data, u)
  {
  }

  lemma OneMore(m: multiset<Rec>, u: seq<Rec>, x: Rec, u': seq<Rec>, more: bool)
    requires m <= multiset(u) && (more ==> x !in m) && u' == if x in u then u else u + [x]
    ensures (if more then multiset{x} + m else m) <= multiset(u')
  {
  }

  lemma MovedWithin(recs: seq<Rec>, key: Key, i: nat, j: nat, r: seq<Rec>, u: seq<Rec>)
    requires j < i < |recs| && i == Find(recs, key) && multiset(recs[..i]) <= multiset(u)
    requires r == [recs[j]] + recs[..j] + recs[j + 1..]
    ensures Stays(r, key, recs[i].data, u)
  {
    forall l | 0 <= l < i ensures r[l].key != key {
      assert r[l] == recs[if l == 0 then j else if l <= j then l - 1 else l];
    }
    FindIs(r, key, i);
    SameAhead(recs, i, j, r);
    StaysAt(r, key, i, recs[i].data, u);
  }

  lemma SameAhead(recs: seq<Rec>, i: nat, j: nat, r: seq<Rec>)
    requires j < i < |recs| && r == [recs[j]] + recs[..j] + recs[j + 1..]
    ensures multiset(r[..i]) == multiset(recs[..i])
  {
    var a, b := recs[..j], recs[j + 1..i];
    assert recs[..i] == a + [recs[j]] + b;
    assert r[..i] == [recs[j]] + a + b;
  }

  lemma MovedAhead(recs: seq<Rec>, key: Key, i: nat, j: nat, r: seq<Rec>, u: seq<Rec>)
    requires i < j < |recs| && i == Find(recs, key) && recs[j].key != key
    requires r == [recs[j]] + recs[..j] + recs[j + 1..] && multiset{recs[j]} + multiset(recs[..i]) <= multiset(u)
    ensures Stays(r, key, recs[i].data, u)
  {
    forall l | 0 < l <= i + 1 ensures r[l] == recs[l - 1] {
    }
    FindIs(r, key, i + 1);
    assert r[..i + 1] == [recs[j]] + recs[..i];
    StaysAt(r, key, i + 1, recs[i].data, u);
  }

  lemma {:induction false} FindIs(recs: seq<Rec>, key: Key, i: nat)
    requires i < |recs| && recs[i].key == key && forall j :: 0 <= j < i ==> recs[j].key != key
    ensures Find(recs, key) == i
  {
  }

  /** After a put, a get of the key returns its data while that and all the entries used or
      put since fit the budget together. */
  lemma {:induction false} Survives(recs: seq<Rec>, key: Key, data: Data, ops: seq<Op>, max: nat)
    requires |data| <= max && Fits(ops, max) && forall o :: o in ops && o.PutOp? ==> o.key != key
    requires |data| + Total(Used(Put(recs, key, data, max), ops, max, key)) <= max
    ensures var s := Run(Put(recs, key, data, max), ops, max);
      Stays(s, key, data, Used(Put(recs, key, data, max), ops, max, key)) && Get(s, key).0 == Some(data)
    decreases |ops|
  {
    var s0 := Put(recs, key, data, max);
    if ops == [] {
      assert Find(s0, key) == 0;
    } else {
      var n := |ops| - 1;
      var op, u, s := ops[n], Used(s0, ops[..n], max, key), Run(s0, ops[..n], max);
      assert op in ops;
      TotalGrows(u, Used(s0, ops, max, key));
      Survives(recs, key, data, ops[..n], max);
      if op.PutOp? {
        PutStays(s, key, data, u, op.key, op.data, max);
      } else {
        GetStays(s, key, data, u, op.key, Used(s0, ops, max, key));
      }
    }
  }
}
