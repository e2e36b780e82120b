// The hash table of lrucache.c: bucket chains that map keys to list nodes.

module HashChains {
  import opened SeqFacts

  const HASH_SIZE: nat := 10007

  class Node {
    const key: int
    var value: int
    var prev: Node?
    var next: Node?

    constructor (key: int, value: int)
      ensures this.key == key && this.value == value && prev == null && next == null
    {
      this.key, this.value, prev, next := key, value, null, null;
    }
  }

  class Entry {
    const key: int
    var node: Node
    var next: Entry?

    constructor (key: int, node: Node, next: Entry?)
      ensures this.key == key && this.node == node && this.next == next
    {
      this.key, this.node, this.next := key, node, next;
    }
  }

  /** `hash`: the remainder, which in C has the sign of the key, as an unsigned number. */
  function Hash(key: int): nat {
    if key >= 0 then key % HASH_SIZE else (0x1_0000_0000 - (-key) % HASH_SIZE) % 0x1_0000_0000
  }

  /** The keys whose hash is a position in the table.  For any other key the program would
      read outside it. */
  predicate Indexable(key: int) {
    Hash(key) < HASH_SIZE
  }

  lemma IndexableExactly(key: int)
    ensures Indexable(key) <==> key >= 0 || (-key) % HASH_SIZE == 0
  {
  }

  /** The `next` fields from each head on are exactly the chains. */
  ghost predicate Linked(chains: seq<seq<Entry>>, heads: array<Entry?>, r: set<Entry>)
    reads heads, r`next
  {
    && heads.Length == |chains|
    && (forall b :: 0 <= b < |chains| ==> heads[b] == At(chains[b], 0))
    && (forall b, i {:trigger chains[b][i].next} :: 0 <= b < |chains| && 0 <= i < |chains[b]| ==>
          chains[b][i] in r && chains[b][i].next == At(chains[b], i + 1))
  }

  /** A chain holds keys of its bucket, each at most once. */
  ghost predicate Bucket(c: seq<Entry>, b: nat) {
    && (forall i :: 0 <= i < |c| ==> Indexable(c[i].key) && Hash(c[i].key) == b)
    && (forall i, j :: 0 <= i < j < |c| ==> c[i].key != c[j].key)
  }

  ghost predicate Buckets(chains: seq<seq<Entry>>) {
    |chains| == HASH_SIZE && forall b :: 0 <= b < HASH_SIZE ==> Bucket(chains[b], b)
  }

  /** The entries of a chain point to what the map says. */
  ghost predicate PointsTo(c: seq<Entry>, index: map<int, Node>, r: set<Entry>)
    reads r`node
  {
    forall i :: 0 <= i < |c| ==> c[i] in r && c[i].key in index && c[i].node == index[c[i].key]
  }

  ghost predicate HasKey(c: seq<Entry>, k: int) {
    exists i :: 0 <= i < |c| && c[i].key == k
  }

  /** The table as a map. */
  ghost predicate Maps(chains: seq<seq<Entry>>, index: map<int, Node>, r: set<Entry>)
    reads r`node
  {
    && |chains| == HASH_SIZE
    && (forall b :: 0 <= b < HASH_SIZE ==> PointsTo(chains[b], index, r))
    && (forall k :: k in index ==> Indexable(k) && HasKey(chains[Hash(k)], k))
  }

  lemma BucketAdd(c: seq<Entry>, b: nat, e: Entry, index: map<int, Node>, index': map<int, Node>, r: set<Entry>, r': set<Entry>)
    requires Bucket(c, b) && PointsTo(c, index, r) && Indexable(e.key) && Hash(e.key) == b && e.key !in index
    requires index' == index[e.key := e.node] && e in r' && r <= r'
    ensures Bucket([e] + c, b) && PointsTo([e] + c, index', r')
    ensures forall k :: HasKey([e] + c, k) <==> k == e.key || HasKey(c, k)
  {
    var c' := [e] + c;
    assert forall i :: 0 < i < |c'| ==> c'[i] == c[i - 1];
    forall k ensures HasKey(c', k) <==> k == e.key || HasKey(c, k) {
      assert c'[0].key == e.key;
      assert forall i :: 0 <= i < |c| ==> c'[i + 1] == c[i];
    }
  }

  lemma BucketRemove(c: seq<Entry>, b: nat, p: nat, index: map<int, Node>, r: set<Entry>)
    requires Bucket(c, b) && PointsTo(c, index, r) && p < |c|
    ensures var c' := c[..p] + c[p + 1..];
      && Bucket(c', b) && PointsTo(c', index - {c[p].key}, r)
      && forall k :: HasKey(c', k) <==> k != c[p].key && HasKey(c, k)
  {
    var c' := c[..p] + c[p + 1..];
    assert forall i :: 0 <= i < |c'| ==> c'[i] == c[if i < p then i else i + 1];
    forall k ensures HasKey(c', k) <==> k != c[p].key && HasKey(c, k) {
      assert forall i :: 0 <= i < |c| && i != p ==> c'[if i < p then i else i - 1] == c[i];
    }
  }

  class HashTable {
    const heads: array<Entry?>

    ghost var entries: set<Entry>
    ghost var chains: seq<seq<Entry>>
    ghost var index: map<int, Node>

    ghost predicate Valid()
      reads this, heads, entries`next, entries`node
    {
      heads.Length == HASH_SIZE && Linked(chains, heads, entries) && Buckets(chains) && Maps(chains, index, entries)
    }

    constructor ()
      ensures Valid() && fresh(heads) && entries == {} && index == map[]
    {
      heads := new Entry?[HASH_SIZE](_ => null);
      entries, chains, index := {}, seq(HASH_SIZE, _ => []), map[];
    }

    /** `hashGetEntry` */
    method GetEntry(key: int) returns (entry: Entry?, ghost p: nat)
      requires Valid() && Indexable(key)
      ensures entry != null <==> key in index
      ensures entry != null ==> |chains| == HASH_SIZE && entry in entries && entry.key == key && p < |chains[Hash(key)]| && entry == chains[Hash(key)][p]
      ensures entry != null ==> entry.node == index[key]
    {
      entry := heads[Hash(key)];
      ghost var c := chains[Hash(key)];
      p := 0;
      while entry != null
        invariant p <= |c| && entry == At(c, p)
        invariant forall j :: 0 <= j < p ==> c[j].key != key
        decreases |c| - p
      {
        if entry.key == key {
          return;
        }
        assert chains[Hash(key)][p].next == At(c, p + 1);
        entry := entry.next;
        p := p + 1;
      }
      assert !HasKey(c, key);
    }

    /** `hashGet` */
    method Get(key: int) returns (node: Node?)
      requires Valid() && Indexable(key)
      ensures node == if key in index then index[key] else null
    {
      var entry; ghost var p;
      entry, p := GetEntry(key);
      node := if entry != null then entry.node else null;
    }

    /** `hashPut` */
    method Put(key: int, node: Node)
      requires Valid() && Indexable(key)
      modifies this`entries, this`chains, this`index, heads, entries`node
      ensures Valid() && index == old(index)[key := node] && fresh(entries - old(entries))
    {
      var entry; ghost var p;
      entry, p := GetEntry(key);
      if entry != null {
        Replace(entry, node, p);
      } else {
        Add(key, node);
      }
    }

    method Replace(entry: Entry, node: Node, ghost p: nat)
      requires Valid() && |chains| == HASH_SIZE && Indexable(entry.key) && p < |chains[Hash(entry.key)]| && entry == chains[Hash(entry.key)][p]
      modifies this`index, entries`node
      ensures Valid() && index == old(index)[entry.key := node]
    {
      ghost var bucket := Hash(entry.key);
      assert PointsTo(chains[bucket], index, entries) && Bucket(chains[bucket], bucket);
      entry.node := node;
      index := index[entry.key := node];
      forall b | 0 <= b < HASH_SIZE ensures PointsTo(chains[b], index, entries) {
        assert old(PointsTo(chains[b], index, entries)) && Bucket(chains[b], b);
        forall i | 0 <= i < |chains[b]| ensures chains[b][i].node == index[chains[b][i].key] {
          assert old(chains[b][i].node == index[chains[b][i].key]);
          assert chains[b][i].key == entry.key ==> b == bucket && i == p;
        }
      }
    }

    method Add(key: int, node: Node)
      requires Valid() && Indexable(key) && key !in index
      modifies this`entries, this`chains, this`index, heads
      ensures Valid() && index == old(index)[key := node] && fresh(entries - old(entries))
    {
      var b := Hash(key);
      var newEntry := new Entry(key, node, heads[b]);
      ghost var c0, index0, r0 := chains, index, entries;
      LinkFirst(newEntry, b);
      index := index[key := node];
      AddMaps(c0, newEntry, index0, r0);
    }

    method LinkFirst(e: Entry, b: nat)
      requires Linked(chains, heads, entries) && e !in entries && b < |chains| && b < heads.Length && e.next == heads[b]
      modifies this`entries, this`chains, heads
      ensures entries == old(entries) + {e} && chains == old(chains)[b := [e] + old(chains)[b]]
      ensures Linked(chains, heads, entries)
    {
      heads[b] := e;
      entries := entries + {e};
      chains := chains[b := [e] + chains[b]];
      forall d, i | 0 <= d < |chains| && 0 <= i < |chains[d]|
        ensures chains[d][i] in entries && chains[d][i].next == At(chains[d], i + 1)
      {
        if d != b {
          assert old(chains)[d][i].next == At(chains[d], i + 1);
        } else if i > 0 {
          assert old(chains)[b][i - 1].next == At(old(chains)[b], i);
        }
      }
    }

    lemma AddMaps(c0: seq<seq<Entry>>, e: Entry, index0: map<int, Node>, r: set<Entry>)
      requires Buckets(c0) && Maps(c0, index0, r) && Indexable(e.key) && e.key !in index0 && e in entries && r <= entries
      requires chains == c0[Hash(e.key) := [e] + c0[Hash(e.key)]] && index == index0[e.key := e.node]
      ensures Buckets(chains) && Maps(chains, index, entries)
    {
      var b := Hash(e.key);
      BucketAdd(c0[b], b, e, index0, index, r, entries);
      forall d | 0 <= d < HASH_SIZE ensures Bucket(chains[d], d) && PointsTo(chains[d], index, entries) {
        assert Bucket(c0[d], d) && PointsTo(c0[d], index0, r);
      }
      forall k | k in index ensures Indexable(k) && HasKey(chains[Hash(k)], k) {
        assert k != e.key ==> HasKey(c0[Hash(k)], k);
      }
    }

    /** `hashRemove` */
    method Remove(key: int)
      requires Valid() && Indexable(key)
      modifies this`chains, this`index, heads, entries`next
      ensures Valid() && index == old(index) - {key}
    {
      var entry, prev; ghost var p;
      entry, prev, p := FindWithPrev(key);
      if entry != null {
        ghost var c0, index0 := chains, index;
        Unlink(entry, prev, Hash(key), p);
        index := index - {key};
        RemoveMaps(c0, Hash(key), p, index0);
      }
    }

    /** The walk of `hashRemove`, with the entry before. */
    method FindWithPrev(key: int) returns (entry: Entry?, prev: Entry?, ghost p: nat)
      requires Valid() && Indexable(key)
      ensures entry == null ==> index - {key} == index
      ensures entry != null ==> |chains| == HASH_SIZE && p < |chains[Hash(key)]| && entry == chains[Hash(key)][p] && entry.key == key
      ensures entry != null ==> |chains| == HASH_SIZE && prev == At(chains[Hash(key)], p - 1)
    {
      entry, prev, p := heads[Hash(key)], null, 0;
      ghost var c := chains[Hash(key)];
      while entry != null
        invariant p <= |c| && entry == At(c, p) && prev == At(c, p - 1)
        invariant forall j :: 0 <= j < p ==> c[j].key != key
        decreases |c| - p
      {
        if entry.key == key {
          return;
        }
        assert chains[Hash(key)][p].next == At(c, p + 1);
        prev, entry := entry, entry.next;
        p := p + 1;
      }
      assert !HasKey(c, key);
    }

    method Unlink(entry: Entry, prev: Entry?, bucket: nat, ghost p: nat)
      requires Linked(chains, heads, entries) && bucket < |chains| && bucket < heads.Length && p < |chains[bucket]|
      requires forall b, i {:trigger chains[b][i]} :: 0 <= b < |chains| && 0 <= i < |chains[b]| ==> Indexable(chains[b][i].key) && Hash(chains[b][i].key) == b
      requires forall i, j :: 0 <= i < j < |chains[bucket]| ==> chains[bucket][i] != chains[bucket][j]
      requires entry == chains[bucket][p] && prev == At(chains[bucket], p - 1)
      modifies this`chains, heads, entries`next
      ensures chains == old(chains)[bucket := old(chains)[bucket][..p] + old(chains)[bucket][p + 1..]]
      ensures Linked(chains, heads, entries)
    {
      ghost var c := chains[bucket];
      assert chains[bucket][p].next == At(c, p + 1);
      if prev != null {
        assert chains[bucket][p - 1] == prev;
        assert chains[bucket][p - 1].next == entry;
        prev.next := entry.next;
      } else {
        heads[bucket] := entry.next;
      }
      ghost var c' := c[..p] + c[p + 1..];
      chains := chains[bucket := c'];
      forall d, i | 0 <= d < |chains| && 0 <= i < |chains[d]|
        ensures chains[d][i] in entries && chains[d][i].next == At(chains[d], i + 1)
      {
        ghost var j := if d == bucket && i >= p then i + 1 else i;
        assert chains[d][i] == old(chains)[d][j];
        assert old(chains[d][j].next) == At(old(chains)[d], j + 1);
        assert prev != null && chains[d][i] == prev ==> d == bucket && j == p - 1;
      }
    }

    lemma RemoveMaps(c0: seq<seq<Entry>>, b: nat, p: nat, index0: map<int, Node>)
      requires Buckets(c0) && Maps(c0, index0, entries) && b < |c0| && p < |c0[b]|
      requires chains == c0[b := c0[b][..p] + c0[b][p + 1..]] && index == index0 - {c0[b][p].key}
      ensures Buckets(chains) && Maps(chains, index, entries)
    {
      var key := c0[b][p].key;
      assert Bucket(c0[b], b);
      BucketRemove(c0[b], b, p, index0, entries);
      forall d | 0 <= d < HASH_SIZE ensures Bucket(chains[d], d) && PointsTo(chains[d], index, entries) {
        assert Bucket(c0[d], d) && PointsTo(c0[d], index0, entries);
      }
      forall k | k in index ensures Indexable(k) && HasKey(chains[Hash(k)], k) {
        assert HasKey(c0[Hash(k)], k);
      }
    }
  }
}
