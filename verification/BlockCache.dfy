// The hash table and the doubly linked LRU list of MemoryAllocation/cache.c.

module BlockCache {
  import opened CacheSpec
  import opened SeqFacts

  /** One cached block.  `stamp` numbers the puts: it is greater for a later put. */
  class Entry {
    const key: Key
    const data: Data
    ghost const stamp: nat
    var next: Entry?
    var lruPrev: Entry?
    var lruNext: Entry?

    constructor (key: Key, data: Data, ghost stamp: nat)
      ensures this.key == key && this.data == data && this.stamp == stamp
      ensures next == null && lruPrev == null && lruNext == null
    {
      this.key, this.data, this.stamp := key, data, stamp;
      next, lruPrev, lruNext := null, null, null;
    }
  }

  /** The list from head to tail is exactly lru, linked both ways. */
  ghost predicate LruList(lru: seq<Entry>, head: Entry?, tail: Entry?, r: set<Entry>)
    reads r`lruPrev, r`lruNext
  {
    && (forall i :: 0 <= i < |lru| ==> lru[i] in r)
    && head == At(lru, 0) && tail == At(lru, |lru| - 1)
    && (forall i {:trigger lru[i].lruPrev} :: 0 <= i < |lru| ==> lru[i].lruPrev == At(lru, i - 1))
    && (forall i {:trigger lru[i].lruNext} :: 0 <= i < |lru| ==> lru[i].lruNext == At(lru, i + 1))
  }

  lemma {:induction false} LruDistinctAt(lru: seq<Entry>, head: Entry?, tail: Entry?, r: set<Entry>, i: nat, j: nat)
    requires LruList(lru, head, tail, r) && i < j < |lru|
    ensures lru[i] != lru[j]
  {
    assert lru[i].lruPrev == At(lru, i - 1) && lru[j].lruPrev == At(lru, j - 1);
    if i > 0 {
      LruDistinctAt(lru, head, tail, r, i - 1, j - 1);
    }
  }

  lemma LruDistinct(lru: seq<Entry>, head: Entry?, tail: Entry?, r: set<Entry>)
    requires LruList(lru, head, tail, r)
    ensures forall i, j :: 0 <= i < j < |lru| ==> lru[i] != lru[j]
  {
    forall i, j | 0 <= i < j < |lru| ensures lru[i] != lru[j] {
      LruDistinctAt(lru, head, tail, r, i, j);
    }
  }

  /** A list whose links skip entry i is the list without it. */
  lemma Unlinked(s: seq<Entry>, i: nat, head: Entry?, tail: Entry?, r: set<Entry>)
    requires forall k :: 0 <= k < |s| ==> s[k] in r
    requires 0 < i < |s| && head == s[0] && tail == if i == |s| - 1 then s[i - 1] else s[|s| - 1]
    requires forall k {:trigger s[k].lruPrev} :: 0 <= k < |s| && k != i && k != i + 1 ==> s[k].lruPrev == At(s, k - 1)
    requires forall k {:trigger s[k].lruNext} :: 0 <= k < |s| && k != i && k != i - 1 ==> s[k].lruNext == At(s, k + 1)
    requires s[i - 1].lruNext == At(s, i + 1) && (i + 1 < |s| ==> s[i + 1].lruPrev == s[i - 1])
    ensures LruList(s[..i] + s[i + 1..], head, tail, r)
  {
    var n := s[..i] + s[i + 1..];
    assert forall j :: 0 <= j < |n| ==> n[j] == s[if j < i then j else j + 1];
  }

  ghost function Recs(lru: seq<Entry>): seq<Rec> {
    seq(|lru|, i requires 0 <= i < |lru| => Rec(lru[i].key, lru[i].data))
  }

  // ----- the order that makes the missing removal harmless -----

  /** Newer puts come first in a bucket chain. */
  ghost predicate Descending(c: seq<Entry>) {
    forall i, j {:trigger c[i].stamp, c[j].stamp} :: 0 <= i < j < |c| ==> c[i].stamp > c[j].stamp
  }

  /** Of two entries under one key, the newer comes first in the LRU list. */
  ghost predicate NewerFirst(lru: seq<Entry>) {
    forall i, j {:trigger lru[i].stamp, lru[j].stamp} ::
      0 <= i < j < |lru| && lru[i].key == lru[j].key ==> lru[i].stamp > lru[j].stamp
  }

  /** So the first match in the chain is the most recent entry in the LRU list. */
  lemma FirstInChainIsFound(lru: seq<Entry>, c: seq<Entry>, p: nat, key: Key)
    requires Descending(c) && NewerFirst(lru)
    requires forall e :: e in c ==> e in lru
    requires forall e :: e in lru && e.key == key ==> e in c
    requires p <= |c| && forall j :: 0 <= j < p ==> c[j].key != key
    requires p < |c| ==> c[p].key == key
    ensures var i := Find(Recs(lru), key); if p < |c| then i < |lru| && lru[i] == c[p] else i == |lru|
  {
    var i := Find(Recs(lru), key);
    if p < |c| {
      assert c[p] in c && c[p] in lru;
      var j :| 0 <= j < |lru| && lru[j] == c[p];
      assert Recs(lru)[j].key == key;
      assert lru[i].key == key && lru[i] in lru;
      var q :| 0 <= q < |c| && c[q] == lru[i];
      assert lru[i].stamp == c[q].stamp && lru[j].stamp == c[p].stamp;
    } else {
      forall n | 0 <= n < |lru| ensures Recs(lru)[n].key != key {
        assert lru[n] in lru && Recs(lru)[n].key == lru[n].key;
      }
    }
  }

  ghost predicate NewerAcross(a: seq<Entry>, b: seq<Entry>) {
    forall x, y :: x in a && y in b && x.key == y.key ==> x.stamp > y.stamp
  }

  lemma NewerConcat(a: seq<Entry>, b: seq<Entry>)
    ensures NewerFirst(a + b) <==> NewerFirst(a) && NewerFirst(b) && NewerAcross(a, b)
  {
    var ab := a + b;
    if NewerFirst(ab) {
      forall i, j | 0 <= i < j < |a| && a[i].key == a[j].key ensures a[i].stamp > a[j].stamp {
        assert ab[i] == a[i] && ab[j] == a[j];
      }
      forall i, j | 0 <= i < j < |b| && b[i].key == b[j].key ensures b[i].stamp > b[j].stamp {
        assert ab[|a| + i] == b[i] && ab[|a| + j] == b[j];
      }
      forall x, y | x in a && y in b && x.key == y.key ensures x.stamp > y.stamp {
        var i :| 0 <= i < |a| && a[i] == x;
        var j :| 0 <= j < |b| && b[j] == y;
        assert ab[i] == x && ab[|a| + j] == y;
      }
    }
  }

  lemma RecsConcat(a: seq<Entry>, b: seq<Entry>)
    ensures Recs(a + b) == Recs(a) + Recs(b)
  {
  }

  /** Moving the found entry to the front keeps newer puts ahead of older ones. */
  lemma MovedKeeps(a: seq<Entry>, e: Entry, b: seq<Entry>)
    requires NewerFirst(a + [e] + b) && Find(Recs(a), e.key) == |a|
    ensures NewerFirst([e] + a + b)
    ensures Recs([e] + a + b) == Recs([e]) + Recs(a) + Recs(b)
    ensures Recs(a + [e] + b) == Recs(a) + Recs([e]) + Recs(b)
  {
    NewerConcat(a + [e], b);
    NewerConcat(a, [e]);
    forall x | x in a ensures x.key != e.key {
      var i :| 0 <= i < |a| && a[i] == x;
      assert Recs(a)[i].key == x.key;
    }
    NewerConcat([e], a);
    NewerConcat([e] + a, b);
    RecsConcat([e] + a, b);
    RecsConcat([e], a);
    RecsConcat(a + [e], b);
    RecsConcat(a, [e]);
  }

  // ----- bucket chains -----

  /** Each chain holds entries that hash to its bucket, newest first. */
  ghost predicate Buckets(chains: seq<seq<Entry>>) {
    && (forall b :: 0 <= b < |chains| ==> Descending(chains[b]))
    && (forall b, e :: 0 <= b < |chains| && e in chains[b] ==> HashKey(e.key, |chains|) == b)
  }

  /** The `next` fields from each head on are exactly the chains. */
  ghost predicate ChainsLinked(chains: seq<seq<Entry>>, heads: array<Entry?>, r: set<Entry>)
    reads heads, r
  {
    && heads.Length == |chains|
    && (forall b :: 0 <= b < |chains| ==> heads[b] == At(chains[b], 0))
    && (forall b, i {:trigger chains[b][i].next} :: 0 <= b < |chains| && 0 <= i < |chains[b]| ==>
          chains[b][i] in r && chains[b][i].next == At(chains[b], i + 1))
  }

  /** Chains whose links skip entry p of bucket b are the chains without it. */
  lemma Unchained(chains: seq<seq<Entry>>, heads: array<Entry?>, r: set<Entry>, b: nat, p: nat)
    requires heads.Length == |chains| && b < |chains| && p < |chains[b]|
    requires forall d :: 0 <= d < |chains| ==> heads[d] == At(chains[d], if d == b && p == 0 then 1 else 0)
    requires forall d, i {:trigger chains[d][i].next} :: 0 <= d < |chains| && 0 <= i < |chains[d]| ==>
      chains[d][i] in r && ((d == b && i == p) ||
        chains[d][i].next == At(chains[d], if d == b && i + 1 == p then i + 2 else i + 1))
    ensures ChainsLinked(chains[b := chains[b][..p] + chains[b][p + 1..]], heads, r)
  {
    var c := chains[b][..p] + chains[b][p + 1..];
    var chains' := chains[b := c];
    forall d, i | 0 <= d < |chains'| && 0 <= i < |chains'[d]|
      ensures chains'[d][i] in r && chains'[d][i].next == At(chains'[d], i + 1)
    {
      var j := if d == b && i >= p then i + 1 else i;
      assert chains'[d][i] == chains[d][j];
      assert chains[d][j].next == At(chains[d], if d == b && j + 1 == p then j + 2 else j + 1);
    }
  }

  /** The chains and the LRU list hold the same entries. */
  ghost predicate SameEntries(lru: seq<Entry>, chains: seq<seq<Entry>>) {
    && (forall b, e :: 0 <= b < |chains| && e in chains[b] ==> e in lru)
    && (forall e :: e in lru ==> |chains| > 0 && e in chains[HashKey(e.key, |chains|)])
  }

  /** What lists and chains say together, apart from the pointers that make them up. */
  ghost predicate Coherent(lru: seq<Entry>, chains: seq<seq<Entry>>, clock: nat, last: map<Key, Data>) {
    && SameEntries(lru, chains)
    && Buckets(chains)
    && NewerFirst(lru)
    && (forall e :: e in lru ==> e.stamp < clock)
    && Newest(Recs(lru), last)
  }

  // ----- pointer surgery on the LRU list -----

  class Cache {
    const maxSize: nat
    const table: array<Entry?>
    var lruHead: Entry?
    var lruTail: Entry?
    var currentSize: nat

    ghost var entries: set<Entry>
    ghost var lru: seq<Entry>
    ghost var chains: seq<seq<Entry>>
    ghost var clock: nat
    ghost var last: map<Key, Data>

    /** `move_to_front` */
    method MoveToFront(e: Entry, ghost i: nat)
      requires LruList(lru, lruHead, lruTail, entries) && i < |lru| && lru[i] == e
      modifies this`lruHead, this`lruTail, this`lru, entries`lruPrev, entries`lruNext
      ensures lru == [e] + old(lru)[..i] + old(lru)[i + 1..]
      ensures LruList(lru, lruHead, lruTail, entries)
    {
      LruDistinct(lru, lruHead, lruTail, entries);
      if e == lruHead {
        SplitAt(lru, i);
        return;
      }
      Unlink(e, i);
      LinkHead(e);
      assert [e] + (old(lru)[..i] + old(lru)[i + 1..]) == [e] + old(lru)[..i] + old(lru)[i + 1..];
    }

    /** Take an entry other than the head out of the list. */
    method Unlink(e: Entry, ghost i: nat)
      requires LruList(lru, lruHead, lruTail, entries) && 0 < i < |lru| && lru[i] == e
      modifies this`lruTail, this`lru, entries`lruPrev, entries`lruNext
      ensures lru == old(lru)[..i] + old(lru)[i + 1..] && e !in lru
      ensures LruList(lru, lruHead, lruTail, entries)
    {
      LruDistinct(lru, lruHead, lruTail, entries);
      if e.lruPrev != null {
        e.lruPrev.lruNext := e.lruNext;
      }
      if e.lruNext != null {
        e.lruNext.lruPrev := e.lruPrev;
      }
      if e == lruTail {
        lruTail := e.lruPrev;
      }
      Unlinked(lru, i, lruHead, lruTail, entries);
      lru := lru[..i] + lru[i + 1..];
    }

    /** The LRU part of `evict_lru`. */
    method UnlinkTail() returns (victim: Entry)
      requires LruList(lru, lruHead, lruTail, entries) && lru != []
      modifies this`lruHead, this`lruTail, this`lru, entries`lruNext
      ensures victim == old(lru)[|old(lru)| - 1] && lru == old(lru)[..|old(lru)| - 1]
      ensures LruList(lru, lruHead, lruTail, entries)
    {
      LruDistinct(lru, lruHead, lruTail, entries);
      victim := lruTail;
      lruTail := victim.lruPrev;
      if lruTail != null {
        lruTail.lruNext := null;
      } else {
        lruHead := null;
      }
      lru := lru[..|lru| - 1];
      forall k | 0 <= k < |lru|
        ensures lru[k] in entries && lru[k].lruPrev == At(lru, k - 1) && lru[k].lruNext == At(lru, k + 1)
      {
        assert lru[k] == old(lru)[k];
        assert old(lru[k].lruPrev == At(lru, k - 1) && lru[k].lruNext == At(lru, k + 1));
      }
    }

    /** The LRU part of `cache_put`. */
    method LinkHead(e: Entry)
      requires LruList(lru, lruHead, lruTail, entries) && e !in lru && e in entries
      modifies this`lruHead, this`lruTail, this`lru, entries`lruPrev, e`lruNext
      ensures lru == [e] + old(lru)
      ensures LruList(lru, lruHead, lruTail, entries)
    {
      LruDistinct(lru, lruHead, lruTail, entries);
      e.lruPrev := null;
      e.lruNext := lruHead;
      if lruHead != null {
        lruHead.lruPrev := e;
      }
      lruHead := e;
      if lruTail == null {
        lruTail := e;
      }
      lru := [e] + lru;
      forall k | 0 <= k < |lru|
        ensures lru[k] in entries && lru[k].lruPrev == At(lru, k - 1) && lru[k].lruNext == At(lru, k + 1)
      {
        if k > 0 {
          assert lru[k] == old(lru)[k - 1];
          assert old(lru[k - 1].lruPrev == At(lru, k - 2) && lru[k - 1].lruNext == At(lru, k));
        }
      }
    }

    // ----- the whole cache -----

    ghost predicate Valid()
      reads this, table, entries
    {
      && 0 < table.Length == |chains|
      && Coherent(lru, chains, clock, last)
      && currentSize == Total(Recs(lru)) <= maxSize
      && LruList(lru, lruHead, lruTail, entries)
      && ChainsLinked(chains, table, entries)
    }

    constructor (maxSize: nat, bucketCount: nat)
      requires bucketCount > 0
      ensures Valid() && fresh(table) && this.maxSize == maxSize
      ensures lru == [] && last == map[] && entries == {}
    {
      this.maxSize := maxSize;
      table := new Entry?[bucketCount](_ => null);
      lruHead, lruTail, currentSize := null, null, 0;
      entries, lru, chains, clock, last := {}, [], seq(bucketCount, _ => []), 0, map[];
    }

    /** Walk the bucket of key to its first entry under key. */
    method FindInBucket(key: Key) returns (e: Entry?)
      requires Valid()
      ensures var i := Find(Recs(lru), key);
              if e == null then i == |lru| else i < |lru| && lru[i] == e
    {
      var b := HashKey(key, table.Length);
      e := table[b];
      ghost var c, p := chains[b], 0;
      while e != null && e.key != key
        invariant p <= |c| && e == At(c, p)
        invariant forall j :: 0 <= j < p ==> c[j].key != key
        decreases |c| - p
      {
        e := e.next;
        p := p + 1;
      }
      FirstInChainIsFound(lru, c, p, key);
    }

    /** `cache_get` */
    method CacheGet(key: Key) returns (r: Option<Data>)
      requires Valid()
      modifies this`lruHead, this`lruTail, this`lru, entries`lruPrev, entries`lruNext
      ensures Valid()
      ensures (r, Recs(lru)) == Get(old(Recs(lru)), key)
      ensures r.Some? ==> key in last && r.value == last[key]
      ensures r == None <==> forall i :: 0 <= i < |old(Recs(lru))| ==> old(Recs(lru))[i].key != key
    {
      var e := FindInBucket(key);
      if e == null {
        return None;
      }
      r := Hit(e, key, Find(Recs(lru), key));
    }

    method Hit(e: Entry, key: Key, ghost i: nat) returns (r: Option<Data>)
      requires Valid() && i == Find(Recs(lru), key) < |lru| && lru[i] == e
      modifies this`lruHead, this`lruTail, this`lru, entries`lruPrev, entries`lruNext
      ensures Valid()
      ensures (r, Recs(lru)) == Get(old(Recs(lru)), key)
      ensures r.Some? ==> key in last && r.value == last[key]
    {
      SplitAt(lru, i);
      ghost var a, b := lru[..i], lru[i + 1..];
      FoundMoves(a, e, b, key, chains, clock, last);
      MoveKeepingChains(e, i);
      r := Some(e.data);
      assert lru == [e] + a + b;
    }

    method MoveKeepingChains(e: Entry, ghost i: nat)
      requires LruList(lru, lruHead, lruTail, entries) && i < |lru| && lru[i] == e
      requires ChainsLinked(chains, table, entries)
      modifies this`lruHead, this`lruTail, this`lru, entries`lruPrev, entries`lruNext
      ensures lru == [e] + old(lru)[..i] + old(lru)[i + 1..]
      ensures LruList(lru, lruHead, lruTail, entries) && ChainsLinked(chains, table, entries)
    {
      MoveToFront(e, i);
      forall b, n | 0 <= b < |chains| && 0 <= n < |chains[b]|
        ensures chains[b][n] in entries && chains[b][n].next == At(chains[b], n + 1)
      {
        assert old(chains[b][n].next) == At(chains[b], n + 1);
      }
    }

    // ----- eviction and insertion -----

    /** The bucket part of `evict_lru`: walk to the victim and splice it out. */
    method RemoveFromBucket(victim: Entry, ghost b: nat, ghost p: nat)
      requires table.Length == |chains| && ChainsLinked(chains, table, entries)
      requires InBucket(chains, victim, b, p)
      modifies this`chains, table, entries`next
      ensures chains == old(chains)[b := old(chains)[b][..p] + old(chains)[b][p + 1..]]
      ensures ChainsLinked(chains, table, entries)
    {
      var bucket := HashKey(victim.key, table.Length);
      ghost var c, k := chains[b], 0;
      var prev: Entry?, cur: Entry? := null, table[bucket];
      while cur != null && cur != victim
        invariant k <= p && cur == At(c, k) && prev == At(c, k - 1)
        decreases |c| - k
      {
        prev, cur := cur, cur.next;
        k := k + 1;
      }
      if cur != null {
        if prev == null {
          table[bucket] := victim.next;
        } else {
          assert c[p - 1].next == victim;
          prev.next := victim.next;
        }
        forall d, i | 0 <= d < |chains| && 0 <= i < |chains[d]|
          ensures chains[d][i] in entries && ((d == b && i == p) ||
            chains[d][i].next == At(chains[d], if d == b && i + 1 == p then i + 2 else i + 1))
        {
          assert old(chains[d][i].next) == At(chains[d], i + 1);
          assert d != b && p > 0 ==> c[p - 1] in chains[b] && chains[d][i] in chains[d];
        }
        Unchained(chains, table, entries, b, p);
        chains := chains[b := c[..p] + c[p + 1..]];
      }
    }

    method RemoveKeepingList(victim: Entry, ghost b: nat, ghost p: nat)
      requires LruList(lru, lruHead, lruTail, entries)
      requires table.Length == |chains| && ChainsLinked(chains, table, entries)
      requires InBucket(chains, victim, b, p)
      modifies this`chains, table, entries`next
      ensures chains == old(chains)[b := old(chains)[b][..p] + old(chains)[b][p + 1..]]
      ensures LruList(lru, lruHead, lruTail, entries) && ChainsLinked(chains, table, entries)
    {
      RemoveFromBucket(victim, b, p);
      forall i | 0 <= i < |lru| ensures lru[i].lruPrev == At(lru, i - 1) && lru[i].lruNext == At(lru, i + 1) {
        assert old(lru[i].lruPrev) == At(lru, i - 1) && old(lru[i].lruNext) == At(lru, i + 1);
      }
    }

    method UnlinkKeepingChains() returns (victim: Entry)
      requires LruList(lru, lruHead, lruTail, entries) && lru != [] && ChainsLinked(chains, table, entries)
      modifies this`lruHead, this`lruTail, this`lru, entries`lruNext
      ensures victim == old(lru)[|old(lru)| - 1] && lru == old(lru)[..|old(lru)| - 1]
      ensures LruList(lru, lruHead, lruTail, entries) && ChainsLinked(chains, table, entries)
    {
      victim := UnlinkTail();
      forall b, n | 0 <= b < |chains| && 0 <= n < |chains[b]|
        ensures chains[b][n] in entries && chains[b][n].next == At(chains[b], n + 1)
      {
        assert old(chains[b][n].next) == At(chains[b], n + 1);
      }
    }

    /** `evict_lru` */
    method EvictLru()
      requires Valid()
      modifies this`lruHead, this`lruTail, this`lru, this`chains, this`currentSize, table, entries`next, entries`lruNext
      ensures Valid()
      ensures lru == if old(lru) == [] then [] else old(lru)[..|old(lru)| - 1]
    {
      if lruTail != null {
        EvictVictim();
      }
    }

    method EvictVictim()
      requires Valid() && lru != [] && lruTail == lru[|lru| - 1]
      modifies this`lruHead, this`lruTail, this`lru, this`chains, this`currentSize, table, entries`next, entries`lruNext
      ensures Valid() && lru == old(lru)[..|old(lru)| - 1]
    {
      currentSize := currentSize - |lruTail.data|;
      EvictTail();
    }

    method EvictTail()
      requires 0 < table.Length == |chains| && Coherent(lru, chains, clock, last) && lru != []
      requires LruList(lru, lruHead, lruTail, entries) && ChainsLinked(chains, table, entries)
      modifies this`lruHead, this`lruTail, this`lru, this`chains, table, entries`next, entries`lruNext
      ensures table.Length == |chains| && Coherent(lru, chains, clock, last)
      ensures lru == old(lru)[..|old(lru)| - 1]
      ensures old(Total(Recs(lru))) == Total(Recs(lru)) + |old(lru[|lru| - 1]).data|
      ensures LruList(lru, lruHead, lruTail, entries) && ChainsLinked(chains, table, entries)
    {
      ghost var b, p, kept, chains' := EvictedParts(lru, chains, clock, last, lruHead, lruTail, entries);
      EvictLinks(b, p, kept, chains');
    }

    /** The pointers of `evict_lru`. */
    method EvictLinks(ghost b: nat, ghost p: nat, ghost kept: seq<Entry>, ghost chains': seq<seq<Entry>>)
      requires LruList(lru, lruHead, lruTail, entries) && lru != []
      requires table.Length == |chains| && ChainsLinked(chains, table, entries)
      requires InBucket(chains, lru[|lru| - 1], b, p)
      requires kept == lru[..|lru| - 1] && chains' == chains[b := chains[b][..p] + chains[b][p + 1..]]
      modifies this`lruHead, this`lruTail, this`lru, this`chains, table, entries`next, entries`lruNext
      ensures lru == kept && chains == chains'
      ensures LruList(lru, lruHead, lruTail, entries) && ChainsLinked(chains, table, entries)
    {
      var victim := UnlinkKeepingChains();
      RemoveKeepingList(victim, b, p);
    }

    /** `cache_put`: the new entry goes to the front of its bucket and of the list; an
        older entry under the same key is not looked for. */
    method CachePut(key: Key, data: Data)
      requires Valid() && |data| <= maxSize
      modifies this, table, entries
      ensures Valid() && fresh(entries - old(entries))
      ensures Recs(lru) == Put(old(Recs(lru)), key, data, maxSize) && last == old(last)[key := data]
      ensures Added(old(Recs(lru)), key, data, maxSize, Recs(lru))
      ensures old(Total(Recs(lru))) + |data| <= maxSize ==> Recs(lru) == [Rec(key, data)] + old(Recs(lru))
    {
      MakeRoom(|data|);
      AddEntry(key, data);
    }

    method AddEntry(key: Key, data: Data)
      requires Valid() && currentSize + |data| <= maxSize
      modifies this`lruHead, this`lruTail, this`lru, this`chains, this`entries, this`currentSize, this`clock, this`last
      modifies table, entries`lruPrev
      ensures Valid() && fresh(entries - old(entries))
      ensures Recs(lru) == [Rec(key, data)] + old(Recs(lru)) && last == old(last)[key := data]
    {
      var e := new Entry(key, data, clock);
      var b := HashKey(key, table.Length);
      LinkCoherently(e, b);
      currentSize := currentSize + |data|;
    }

    method LinkCoherently(e: Entry, b: nat)
      requires 0 < table.Length == |chains| && Coherent(lru, chains, clock, last)
      requires LruList(lru, lruHead, lruTail, entries) && ChainsLinked(chains, table, entries)
      requires e !in entries && e.stamp == clock && b == HashKey(e.key, |chains|)
      modifies this`lruHead, this`lruTail, this`lru, this`chains, this`entries, this`clock, this`last
      modifies table, entries`lruPrev, e
      ensures table.Length == |chains| && Coherent(lru, chains, clock, last)
      ensures LruList(lru, lruHead, lruTail, entries) && ChainsLinked(chains, table, entries)
      ensures entries == old(entries) + {e} && last == old(last)[e.key := e.data]
      ensures Recs(lru) == [Rec(e.key, e.data)] + old(Recs(lru))
      ensures Total(Recs(lru)) == old(Total(Recs(lru))) + |e.data|
    {
      ghost var lru', chains', clock', last' := [e] + lru, chains[b := [e] + chains[b]], clock + 1, last[e.key := e.data];
      PutCoherent(lru, chains, clock, last, e, b, lru', chains', clock', last');
      LinkNew(e, b);
      clock, last := clock', last';
    }

    /** The eviction loop of `cache_put`. */
    method MakeRoom(size: nat)
      requires Valid() && size <= maxSize
      modifies this`lruHead, this`lruTail, this`lru, this`chains, this`currentSize, table, entries`next, entries`lruNext
      ensures Valid() && currentSize + size <= maxSize
      ensures Recs(lru) == EvictFor(old(Recs(lru)), size, maxSize)
    {
      while currentSize + size > maxSize
        invariant Valid()
        invariant EvictFor(Recs(lru), size, maxSize) == EvictFor(old(Recs(lru)), size, maxSize)
        decreases |lru|
      {
        EvictOne(lru, size, maxSize);
        EvictLru();
      }
    }

    method LinkNew(e: Entry, b: nat)
      requires LruList(lru, lruHead, lruTail, entries) && ChainsLinked(chains, table, entries)
      requires e !in entries && b < table.Length == |chains|
      modifies this`lruHead, this`lruTail, this`lru, this`chains, this`entries, table, entries`lruPrev, e
      ensures entries == old(entries) + {e} && lru == [e] + old(lru)
      ensures chains == old(chains)[b := [e] + old(chains)[b]]
      ensures LruList(lru, lruHead, lruTail, entries) && ChainsLinked(chains, table, entries)
    {
      LinkInBucket(e, b);
      LinkHeadKeepingChains(e);
    }

    /** The new entry first in its bucket chain. */
    method LinkInBucket(e: Entry, b: nat)
      requires LruList(lru, lruHead, lruTail, entries) && ChainsLinked(chains, table, entries)
      requires e !in entries && b < table.Length == |chains|
      modifies this`chains, this`entries, table, e`next
      ensures entries == old(entries) + {e} && e !in lru
      ensures chains == old(chains)[b := [e] + old(chains)[b]]
      ensures LruList(lru, lruHead, lruTail, entries) && ChainsLinked(chains, table, entries)
    {
      e.next := table[b];
      table[b] := e;
      entries := entries + {e};
      chains := chains[b := [e] + chains[b]];
      forall d, i | 0 <= d < |chains| && 0 <= i < |chains[d]|
        ensures chains[d][i] in entries && chains[d][i].next == At(chains[d], i + 1)
      {
        assert d != b ==> old(chains[d][i].next) == At(chains[d], i + 1);
        assert d == b && i > 0 ==> old(chains[b][i - 1].next) == At(old(chains[b]), i);
      }
    }

    method LinkHeadKeepingChains(e: Entry)
      requires LruList(lru, lruHead, lruTail, entries) && ChainsLinked(chains, table, entries)
      requires e !in lru && e in entries
      modifies this`lruHead, this`lruTail, this`lru, entries`lruPrev, e`lruNext
      ensures lru == [e] + old(lru)
      ensures LruList(lru, lruHead, lruTail, entries) && ChainsLinked(chains, table, entries)
    {
      LinkHead(e);
      forall d, i | 0 <= d < |chains| && 0 <= i < |chains[d]|
        ensures chains[d][i] in entries && chains[d][i].next == At(chains[d], i + 1)
      {
        assert old(chains[d][i].next) == At(chains[d], i + 1);
      }
    }
  }

  lemma EvictOne(lru: seq<Entry>, size: nat, max: nat)
    requires size <= max < Total(Recs(lru)) + size
    ensures lru != [] && EvictFor(Recs(lru), size, max) == EvictFor(Recs(lru[..|lru| - 1]), size, max)
  {
    assert Recs(lru)[..|lru| - 1] == Recs(lru[..|lru| - 1]);
  }

  /** A new entry at the front of its chain and of the list is the newest of its key. */
  lemma PutCoherent(lru: seq<Entry>, chains: seq<seq<Entry>>, clock: nat, last: map<Key, Data>, e: Entry, b: nat,
                    lru': seq<Entry>, chains': seq<seq<Entry>>, clock': nat, last': map<Key, Data>)
    requires Coherent(lru, chains, clock, last) && |chains| > 0 && e.stamp == clock && b == HashKey(e.key, |chains|)
    requires lru' == [e] + lru && chains' == chains[b := [e] + chains[b]] && clock' == clock + 1 && last' == last[e.key := e.data]
    ensures Coherent(lru', chains', clock', last') && Recs(lru') == [Rec(e.key, e.data)] + Recs(lru)
    ensures Total(Recs(lru')) == Total(Recs(lru)) + |e.data|
  {
    RecsConcat([e], lru);
    assert Recs([e]) == [Rec(e.key, e.data)];
    PutNewest(Recs(lru), last, e.key, e.data, Total(Recs(lru)) + |e.data|);
    TotalCons(Rec(e.key, e.data), Recs(lru));
    NewerConcat([e], lru);
    PutEntries(lru, chains, e, clock);
  }

  lemma PutEntries(lru: seq<Entry>, chains: seq<seq<Entry>>, e: Entry, clock: nat)
    requires SameEntries(lru, chains) && Buckets(chains) && |chains| > 0
    requires e.stamp == clock && forall x :: x in lru ==> x.stamp < clock
    ensures var b := HashKey(e.key, |chains|);
            var chains' := chains[b := [e] + chains[b]];
            SameEntries([e] + lru, chains') && Buckets(chains')
  {
    var b := HashKey(e.key, |chains|);
    var c' := [e] + chains[b];
    var chains' := chains[b := c'];
    assert forall x :: x in c' <==> x == e || x in chains[b];
    assert forall i :: 0 <= i < |chains[b]| ==> chains[b][i] in chains[b];
    forall i, j | 0 <= i < j < |c'| ensures c'[i].stamp > c'[j].stamp {
      assert c'[j] == chains[b][j - 1];
      assert i > 0 ==> c'[i] == chains[b][i - 1];
    }
  }

  lemma FoundMoves(a: seq<Entry>, e: Entry, b: seq<Entry>, key: Key, chains: seq<seq<Entry>>, clock: nat, last: map<Key, Data>)
    requires Coherent(a + [e] + b, chains, clock, last) && Find(Recs(a + [e] + b), key) == |a|
    ensures Coherent([e] + a + b, chains, clock, last)
    ensures (Some(e.data), Recs([e] + a + b)) == Get(Recs(a + [e] + b), key)
    ensures key in last && e.data == last[key]
    ensures Total(Recs([e] + a + b)) == Total(Recs(a + [e] + b))
  {
    var recs := Recs(a + [e] + b);
    GetNewest(recs, last, key);
    FindPrefix(recs, key);
    RecsConcat(a + [e], b);
    RecsConcat(a, [e]);
    assert recs[..|a|] == Recs(a) && recs[|a| + 1..] == Recs(b) && [recs[|a|]] == Recs([e]);
    MovedKeeps(a, e, b);
    SameMembers(a, e, b);
  }

  lemma SameMembers<T>(a: seq<T>, e: T, b: seq<T>)
    ensures forall x :: x in [e] + a + b <==> x in a + [e] + b
  {
  }

  /** Entry v is at p in the chain of its bucket b, and chains are disjoint. */
  ghost predicate InBucket(chains: seq<seq<Entry>>, v: Entry, b: nat, p: nat) {
    && b < |chains| && b == HashKey(v.key, |chains|)
    && p < |chains[b]| && chains[b][p] == v
    && (forall i, j :: 0 <= i < j < |chains[b]| ==> chains[b][i] != chains[b][j])
    && (forall d, e :: 0 <= d < |chains| && e in chains[d] ==> HashKey(e.key, |chains|) == d)
  }

  /** Where the least recent entry sits in its chain. */
  lemma EvictedPosition(lru: seq<Entry>, chains: seq<seq<Entry>>, clock: nat, last: map<Key, Data>)
    returns (b: nat, p: nat)
    requires Coherent(lru, chains, clock, last) && lru != []
    ensures InBucket(chains, lru[|lru| - 1], b, p)
  {
    var v := lru[|lru| - 1];
    assert v in lru;
    b := HashKey(v.key, |chains|);
    var c := chains[b];
    p :| 0 <= p < |c| && c[p] == v;
    forall i, j | 0 <= i < j < |c| ensures c[i] != c[j] {
      assert c[i].stamp > c[j].stamp;
    }
  }

  /** Dropping the least recent entry from list and chain leaves them coherent: it is
      the oldest of its key, so no older entry comes to light. */
  lemma EvictedCoherent(lru: seq<Entry>, chains: seq<seq<Entry>>, clock: nat, last: map<Key, Data>, b: nat, p: nat,
                        head: Entry?, tail: Entry?, r: set<Entry>)
    returns (kept: seq<Entry>, chains': seq<seq<Entry>>)
    requires Coherent(lru, chains, clock, last) && lru != []
    requires LruList(lru, head, tail, r) && InBucket(chains, lru[|lru| - 1], b, p)
    ensures kept == lru[..|lru| - 1] && chains' == chains[b := chains[b][..p] + chains[b][p + 1..]]
    ensures Coherent(kept, chains', clock, last)
    ensures Total(Recs(lru)) == Total(Recs(kept)) + |lru[|lru| - 1].data|
  {
    LruDistinct(lru, head, tail, r);
    var n := |lru| - 1;
    var v := lru[n];
    kept := lru[..n];
    chains' := chains[b := chains[b][..p] + chains[b][p + 1..]];
    assert lru == kept + [v];
    RecsConcat(kept, [v]);
    assert Recs(lru)[..n] == Recs(kept);
    NewerConcat(kept, [v]);
    assert v !in kept;
    EvictedNewest(Recs(kept), Recs([v]), last);
    EvictedEntries(kept, v, chains, b, p);
  }

  lemma EvictedParts(lru: seq<Entry>, chains: seq<seq<Entry>>, clock: nat, last: map<Key, Data>,
                     head: Entry?, tail: Entry?, r: set<Entry>)
    returns (b: nat, p: nat, kept: seq<Entry>, chains': seq<seq<Entry>>)
    requires Coherent(lru, chains, clock, last) && lru != [] && LruList(lru, head, tail, r)
    ensures InBucket(chains, lru[|lru| - 1], b, p) && Coherent(kept, chains', clock, last)
    ensures kept == lru[..|lru| - 1] && chains' == chains[b := chains[b][..p] + chains[b][p + 1..]]
    ensures Total(Recs(lru)) == Total(Recs(kept)) + |lru[|lru| - 1].data|
  {
    b, p := EvictedPosition(lru, chains, clock, last);
    kept, chains' := EvictedCoherent(lru, chains, clock, last, b, p, head, tail, r);
  }

  lemma EvictedNewest(kept: seq<Rec>, gone: seq<Rec>, last: map<Key, Data>)
    requires Newest(kept + gone, last)
    ensures Newest(kept, last)
  {
    forall k ensures Find(kept, k) < |kept| ==> k in last && kept[Find(kept, k)].data == last[k] {
      FindConcat(kept, gone, k);
    }
  }

  lemma EvictedEntries(kept: seq<Entry>, v: Entry, chains: seq<seq<Entry>>, b: nat, p: nat)
    requires SameEntries(kept + [v], chains) && Buckets(chains) && v !in kept
    requires InBucket(chains, v, b, p)
    ensures var chains' := chains[b := chains[b][..p] + chains[b][p + 1..]];
            SameEntries(kept, chains') && Buckets(chains')
  {
    var c, c' := chains[b], chains[b][..p] + chains[b][p + 1..];
    var chains' := chains[b := c'];
    assert forall i :: 0 <= i < |c'| ==> c'[i] == c[if i < p then i else i + 1];
    forall e ensures e in c' <==> e in c && e != v {
      SplitAt(c, p);
    }
    forall d, e | 0 <= d < |chains'| && e in chains'[d] ensures e in kept {
      assert e in chains[d] && e in kept + [v];
    }
    forall e | e in kept ensures e in chains'[HashKey(e.key, |chains'|)] {
      assert e in kept + [v];
    }
  }

  /** `hash_key`: a 32-bit unsigned accumulator over signed chars. */
  function HashKey(key: Key, bucketCount: nat): (h: nat)
    requires bucketCount > 0
    ensures h < bucketCount
  {
    HashFrom(5381, key) % bucketCount
  }

  function HashFrom(hash: nat, key: Key): nat
    decreases |key|
  {
    if key == [] then hash
    else HashFrom((hash * 33 + SignedChar(key[0])) % 0x1_0000_0000, key[1..])
  }

  function SignedChar(c: char): int {
    var b := (c as int) % 256;
    if b < 128 then b else b - 256
  }
}
