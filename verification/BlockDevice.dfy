// read_block and write_block of MemoryAllocation/cache.c: a cache and a buffer pool in
// front of a disk file.

module BlockDevice {
  import opened CacheSpec
  import opened BlockCache
  import opened SeqFacts

  const BLOCK_SIZE: nat := 4096
  const BUFFER_POOL_SIZE: nat := 64
  const CACHE_BUCKETS: nat := 128
  const MAX_CACHE_SIZE: nat := 1024 * 1024

  /** Block numbers whose byte offset does not overflow an int. */
  newtype BlockId = x: int | 0 <= x < 0x8_0000

  type Block = d: Data | |d| == BLOCK_SIZE witness seq(BLOCK_SIZE, _ => 0)

  // ----- the disk file -----

  function Offset(id: BlockId): nat {
    id as nat * BLOCK_SIZE
  }

  /** b is what the file holds in the 4096 bytes of block id. */
  ghost predicate BlockAt(disk: Data, id: BlockId, b: Data) {
    && (id as nat + 1) * 4096 <= |disk| && |b| == 4096
    && forall j {:trigger b[j]} :: 0 <= j < 4096 ==> b[j] == disk[id as nat * 4096 + j]
  }

  /** The file after b was written as block id: the bytes of the block are those of b, every
      other byte is as before, and a hole in front of the block is zeros. */
  ghost predicate Written(disk: Data, id: BlockId, b: Data, disk': Data) {
    var from, to := id as nat * 4096, (id as nat + 1) * 4096;
    && |disk'| == (if |disk| < to then to else |disk|)
    && BlockAt(disk', id, b)
    && (forall k :: 0 <= k < |disk'| && !(from <= k < to) ==> disk'[k] == if k < |disk| then disk[k] else 0)
  }

  /** `lseek` and `read` of one block; a short read is a failure. */
  function DiskRead(disk: Data, id: BlockId): (r: Option<Block>)
    ensures r.Some? <==> (id as nat + 1) * 4096 <= |disk|
    ensures r.Some? ==> BlockAt(disk, id, r.value)
  {
    if Offset(id) + BLOCK_SIZE <= |disk| then Some(disk[Offset(id)..Offset(id) + BLOCK_SIZE]) else None
  }

  /** `lseek` and `write` of one block: a hole before it reads as zeros. */
  function DiskWrite(disk: Data, id: BlockId, b: Block): (disk': Data)
    ensures Written(disk, id, b, disk')
  {
    var n := Offset(id);
    if |disk| < n then disk + seq(n - |disk|, _ => 0) + b
    else disk[..n] + b + (if |disk| <= n + BLOCK_SIZE then [] else disk[n + BLOCK_SIZE..])
  }

  /** A write is what the next read of that block returns, and disturbs no other block
      that could be read before. */
  lemma WriteThenRead(disk: Data, id: BlockId, b: Block, other: BlockId)
    ensures DiskRead(DiskWrite(disk, id, b), id) == Some(b)
    ensures other != id && DiskRead(disk, other).Some? ==>
              DiskRead(DiskWrite(disk, id, b), other) == DiskRead(disk, other)
  {
    var disk', n, m := DiskWrite(disk, id, b), Offset(id), Offset(other);
    assert disk'[n..n + BLOCK_SIZE] == b;
    if other != id && DiskRead(disk, other).Some? {
      assert disk'[m..m + BLOCK_SIZE] == disk[m..m + BLOCK_SIZE];
    }
  }

  // ----- cache keys -----

  function Decimal(n: nat): string {
    if n < 10 then [Digit(n)] else Decimal(n / 10) + [Digit(n % 10)]
  }

  function Digit(d: nat): char
    requires d < 10
  {
    ('0' as int + d) as char
  }

  function BlockKey(id: BlockId): Key {
    "block_" + Decimal(id as nat)
  }

  lemma {:induction false} DecimalInjective(m: nat, n: nat)
    requires Decimal(m) == Decimal(n)
    ensures m == n
    decreases m
  {
    var a, b := Decimal(m), Decimal(n);
    assert a[|a| - 1] == b[|b| - 1];
    if m >= 10 && n >= 10 {
      assert a[..|a| - 1] == Decimal(m / 10) && b[..|b| - 1] == Decimal(n / 10);
      DecimalInjective(m / 10, n / 10);
    }
  }

  /** Different blocks are cached under different keys. */
  lemma KeysDiffer(a: BlockId, b: BlockId)
    requires BlockKey(a) == BlockKey(b)
    ensures a == b
  {
    assert BlockKey(a)[6..] == Decimal(a as nat) && BlockKey(b)[6..] == Decimal(b as nat);
    DecimalInjective(a as nat, b as nat);
  }

  // ----- the buffer pool -----

  datatype Buffer = Buffer(data: Data, blockId: int, dirty: bool, refCount: nat)

  class BufferPool {
    var buffers: seq<Buffer>
    var freeList: seq<nat>
    var freeCount: nat

    /** The free part of the list names, once each, exactly the unreferenced buffers. */
    ghost predicate Valid()
      reads this
    {
      && |freeList| == |buffers| && freeCount <= |freeList|
      && (forall i :: 0 <= i < freeCount ==> freeList[i] < |buffers|)
      && (forall i, j :: 0 <= i < j < freeCount ==> freeList[i] != freeList[j])
      && (forall b :: 0 <= b < |buffers| ==> (buffers[b].refCount == 0 <==> b in freeList[..freeCount]))
    }

    constructor (size: nat)
      ensures Valid() && freeCount == |buffers| == size
    {
      buffers := seq(size, _ => Buffer([], -1, false, 0));
      freeList := seq(size, i => i);
      freeCount := size;
      new;
      forall b | 0 <= b < size ensures b in freeList[..freeCount] {
        assert freeList[..freeCount][b] == b;
      }
    }

    /** `get_buffer` */
    method GetBuffer() returns (idx: int)
      requires Valid()
      modifies this
      ensures Valid() && freeList == old(freeList)
      ensures old(freeCount) == 0 ==> idx == -1 && unchanged(this)
      ensures old(freeCount) > 0 ==>
        && freeCount == old(freeCount) - 1 && idx == freeList[freeCount] < |old(buffers)|
        && buffers == old(buffers)[idx := old(buffers)[idx].(refCount := 1)]
    {
      if freeCount == 0 {
        return -1;
      }
      freeCount := freeCount - 1;
      idx := freeList[freeCount];
      buffers := buffers[idx := buffers[idx].(refCount := 1)];
      forall b | 0 <= b < |buffers| ensures buffers[b].refCount == 0 <==> b in freeList[..freeCount] {
        assert b in freeList[..freeCount + 1] <==> b in freeList[..freeCount] || b == idx;
      }
    }

    /** `release_buffer` */
    method ReleaseBuffer(idx: nat)
      requires Valid() && idx < |buffers| && buffers[idx].refCount > 0
      modifies this
      ensures Valid()
      ensures old(buffers[idx].refCount) == 1 ==>
        && buffers == old(buffers)[idx := Buffer(old(buffers)[idx].data, -1, false, 0)]
        && freeCount == old(freeCount) + 1 && freeList == old(freeList)[old(freeCount) := idx]
      ensures old(buffers[idx].refCount) > 1 ==>
        && freeCount == old(freeCount) && freeList == old(freeList)
        && buffers == old(buffers)[idx := old(buffers)[idx].(refCount := old(buffers)[idx].refCount - 1)]
    {
      DistinctBound(freeList[..freeCount] + [idx], |buffers|);
      buffers := buffers[idx := buffers[idx].(refCount := buffers[idx].refCount - 1)];
      if buffers[idx].refCount == 0 {
        buffers := buffers[idx := buffers[idx].(dirty := false, blockId := -1)];
        freeList := freeList[freeCount := idx];
        freeCount := freeCount + 1;
        forall b | 0 <= b < |buffers| ensures buffers[b].refCount == 0 <==> b in freeList[..freeCount] {
          assert freeList[..freeCount] == old(freeList[..freeCount]) + [idx];
        }
      }
    }

    /** The `memcpy`, `block_id` and `dirty` assignments to a buffer in use. */
    method Fill(idx: nat, data: Data, blockId: int, dirty: bool)
      requires Valid() && idx < |buffers|
      modifies this`buffers
      ensures Valid() && buffers == old(buffers)[idx := Buffer(data, blockId, dirty, old(buffers)[idx].refCount)]
    {
      buffers := buffers[idx := Buffer(data, blockId, dirty, buffers[idx].refCount)];
    }
  }

  // ----- the file system -----

  datatype BlockOp = Read(id: BlockId) | Write(id: BlockId, b: Block)

  class FileSystem {
    var disk: Data
    const pool: BufferPool
    const cache: Cache

    /** Whatever was last put under a block's key is what the disk holds there. */
    ghost predicate Agrees(disk: Data, last: map<Key, Data>) {
      forall id: BlockId :: BlockKey(id) in last ==> DiskRead(disk, id) == Some(last[BlockKey(id)])
    }

    ghost predicate Valid()
      reads this, pool, cache, cache.table, cache.entries
    {
      pool.Valid() && cache.Valid() && cache.maxSize >= BLOCK_SIZE && Agrees(disk, cache.last)
    }

    /** `create_filesystem`, on a disk file that already holds `disk`. */
    constructor (disk: Data)
      ensures Valid() && this.disk == disk && pool.freeCount == BUFFER_POOL_SIZE
      ensures fresh(pool) && fresh(cache) && fresh(cache.table) && fresh(cache.entries)
    {
      this.disk := disk;
      pool := new BufferPool(BUFFER_POOL_SIZE);
      cache := new Cache(MAX_CACHE_SIZE, CACHE_BUCKETS);
    }

    /** What a read leaves in the cache: a hit moves to the front, a block read is added. */
    ghost function AfterRead(recs: seq<Rec>, id: BlockId, r: Option<Block>, max: nat): seq<Rec>
      requires max >= BLOCK_SIZE
    {
      var (hit, recs') := CacheSpec.Get(recs, BlockKey(id));
      if hit == None && r.Some? then CacheSpec.Put(recs', BlockKey(id), r.value, max) else recs'
    }

    /** `read_block` */
    method ReadBlock(id: BlockId) returns (r: Option<Block>)
      requires Valid()
      modifies pool, cache, cache.table, cache.entries
      ensures Valid() && fresh(cache.entries - old(cache.entries))
      ensures pool.freeCount == old(pool.freeCount) && pool.freeList == old(pool.freeList)
      ensures r.Some? || old(pool.freeCount) > 0 ==> r == DiskRead(disk, id)
      ensures old(pool.freeCount) > 0 ==> (r.Some? <==> (id as nat + 1) * 4096 <= |disk|)
      ensures r.Some? ==> BlockAt(disk, id, r.value)
      ensures Recs(cache.lru) == AfterRead(old(Recs(cache.lru)), id, r, cache.maxSize)
    {
      r := CacheLookup(id);
      if r == None {
        r := Fetch(id);
      }
    }

    /** `read_block` after a miss: through a buffer of the pool, and into the cache. */
    method Fetch(id: BlockId) returns (r: Option<Block>)
      requires Valid()
      modifies pool, cache, cache.table, cache.entries
      ensures Valid() && fresh(cache.entries - old(cache.entries))
      ensures pool.freeCount == old(pool.freeCount) && pool.freeList == old(pool.freeList)
      ensures r == if old(pool.freeCount) > 0 then DiskRead(disk, id) else None
      ensures Recs(cache.lru) == if r.Some? then CacheSpec.Put(old(Recs(cache.lru)), BlockKey(id), r.value, cache.maxSize) else old(Recs(cache.lru))
    {
      var idx := pool.GetBuffer();
      if idx == -1 {
        return None;
      }
      r := DiskRead(disk, id);
      if r == None {
        pool.ReleaseBuffer(idx);
        return;
      }
      pool.Fill(idx, r.value, id as int, false);
      CacheStore(id, r.value);
      pool.ReleaseBuffer(idx);
    }

    /** `write_block` */
    method WriteBlock(id: BlockId, b: Block) returns (ok: bool)
      requires Valid()
      modifies this, pool, cache, cache.table, cache.entries
      ensures Valid() && fresh(cache.entries - old(cache.entries))
      ensures pool.freeCount == old(pool.freeCount) && pool.freeList == old(pool.freeList)
      ensures ok == (old(pool.freeCount) > 0)
      ensures disk == if ok then DiskWrite(old(disk), id, b) else old(disk)
      ensures ok ==> Written(old(disk), id, b, disk)
      ensures Recs(cache.lru) == if ok then CacheSpec.Put(old(Recs(cache.lru)), BlockKey(id), b, cache.maxSize) else old(Recs(cache.lru))
    {
      var idx := pool.GetBuffer();
      if idx == -1 {
        return false;
      }
      pool.Fill(idx, b, id as int, true);
      StoreAndWrite(id, b);
      pool.ReleaseBuffer(idx);
      ok := true;
    }

    method CacheLookup(id: BlockId) returns (r: Option<Block>)
      requires Valid()
      modifies cache, cache.entries
      ensures Valid() && cache.entries == old(cache.entries)
      ensures r.Some? ==> r == DiskRead(disk, id)
      ensures (r, Recs(cache.lru)) == CacheSpec.Get(old(Recs(cache.lru)), BlockKey(id))
    {
      var got := cache.CacheGet(BlockKey(id));
      r := match got case None => None case Some(d) => Some(d);
    }

    /** Caching what was just read keeps cache and disk in agreement. */
    method CacheStore(id: BlockId, b: Block)
      requires Valid() && DiskRead(disk, id) == Some(b)
      modifies cache, cache.table, cache.entries
      ensures Valid() && fresh(cache.entries - old(cache.entries))
      ensures Recs(cache.lru) == CacheSpec.Put(old(Recs(cache.lru)), BlockKey(id), b, cache.maxSize)
    {
      cache.CachePut(BlockKey(id), b);
      forall other: BlockId | BlockKey(other) in cache.last
        ensures DiskRead(disk, other) == Some(cache.last[BlockKey(other)])
      {
        if BlockKey(other) == BlockKey(id) {
          KeysDiffer(other, id);
        }
      }
    }

    /** `write_block` caches the block before it writes it. */
    method StoreAndWrite(id: BlockId, b: Block)
      requires Valid()
      modifies this, cache, cache.table, cache.entries
      ensures Valid() && fresh(cache.entries - old(cache.entries)) && disk == DiskWrite(old(disk), id, b)
      ensures Recs(cache.lru) == CacheSpec.Put(old(Recs(cache.lru)), BlockKey(id), b, cache.maxSize)
    {
      ghost var before := cache.last;
      cache.CachePut(BlockKey(id), b);
      WriteAgrees(disk, before, id, b);
      disk := DiskWrite(disk, id, b);
    }

    lemma WriteAgrees(disk: Data, last: map<Key, Data>, id: BlockId, b: Block)
      requires Agrees(disk, last)
      ensures Agrees(DiskWrite(disk, id, b), last[BlockKey(id) := b])
    {
      forall other: BlockId | BlockKey(other) in last[BlockKey(id) := b]
        ensures DiskRead(DiskWrite(disk, id, b), other) == Some(last[BlockKey(id) := b][BlockKey(other)])
      {
        WriteThenRead(disk, id, b, other);
        if BlockKey(other) == BlockKey(id) {
          KeysDiffer(other, id);
        }
      }
    }
  }

  // ----- whole runs -----

  /** The same operations on a bare disk: the final file and what each read returns. */
  function CachelessRun(disk: Data, ops: seq<BlockOp>): (r: (Data, seq<Option<Block>>))
  {
    if ops == [] then (disk, [])
    else
      var n := |ops| - 1;
      var (before, answers) := CachelessRun(disk, ops[..n]);
      match ops[n]
      case Read(id) => (before, answers + [DiskRead(before, id)])
      case Write(id, b) => (DiskWrite(before, id, b), answers)
  }

  // The bytes that a run should leave, from its writes alone.

  function LengthAfter(disk: Data, ops: seq<BlockOp>): nat {
    if ops == [] then |disk|
    else
      var before, op := LengthAfter(disk, ops[..|ops| - 1]), ops[|ops| - 1];
      if op.Write? && before < (op.id as nat + 1) * 4096 then (op.id as nat + 1) * 4096 else before
  }

  /** Byte k: that of the last write of its block, or else what the file held at first. */
  function ByteAfter(disk: Data, ops: seq<BlockOp>, k: nat): byte {
    if ops == [] then (if k < |disk| then disk[k] else 0)
    else
      var op := ops[|ops| - 1];
      if op.Write? && op.id as nat * 4096 <= k < (op.id as nat + 1) * 4096 then op.b[k - op.id as nat * 4096]
      else ByteAfter(disk, ops[..|ops| - 1], k)
  }

  /** d is the file after the writes of ops. */
  ghost predicate Image(disk: Data, ops: seq<BlockOp>, d: Data) {
    |d| == LengthAfter(disk, ops) && forall k {:trigger d[k]} :: 0 <= k < |d| ==> d[k] == ByteAfter(disk, ops, k)
  }

  /** r is what a read of block id should return after ops. */
  ghost predicate AnswerIs(disk: Data, ops: seq<BlockOp>, id: BlockId, r: Option<Block>) {
    && (r.Some? <==> (id as nat + 1) * 4096 <= LengthAfter(disk, ops))
    && (r.Some? ==> forall j {:trigger r.value[j]} :: 0 <= j < 4096 ==> r.value[j] == ByteAfter(disk, ops, id as nat * 4096 + j))
  }

  function Reads(ops: seq<BlockOp>): nat {
    if ops == [] then 0 else Reads(ops[..|ops| - 1]) + if ops[|ops| - 1].Read? then 1 else 0
  }

  /** One answer for each read, the right one. */
  ghost predicate AnswersAre(disk: Data, ops: seq<BlockOp>, answers: seq<Option<Block>>) {
    && |answers| == Reads(ops)
    && forall i {:trigger ops[i]} :: 0 <= i < |ops| && ops[i].Read? ==>
         Reads(ops[..i]) < |answers| && AnswerIs(disk, ops[..i], ops[i].id, answers[Reads(ops[..i])])
  }

  lemma ImageRead(disk: Data, ops: seq<BlockOp>, d: Data, id: BlockId)
    requires Image(disk, ops, d)
    ensures AnswerIs(disk, ops, id, DiskRead(d, id))
  {
  }

  lemma ImageWrite(disk: Data, ops: seq<BlockOp>, d: Data, id: BlockId, b: Block)
    requires ops != [] && ops[|ops| - 1] == Write(id, b) && Image(disk, ops[..|ops| - 1], d)
    ensures Image(disk, ops, DiskWrite(d, id, b))
  {
    var d', n := DiskWrite(d, id, b), |ops| - 1;
    forall k | 0 <= k < |d'| ensures d'[k] == ByteAfter(disk, ops, k) {
      if id as nat * 4096 <= k < (id as nat + 1) * 4096 {
        assert b[k - id as nat * 4096] == d'[k];
      } else {
        ZeroBeyond(disk, ops[..n], k);
      }
    }
  }

  /** Behind its end a file counts as zeros. */
  lemma {:induction false} ZeroBeyond(disk: Data, ops: seq<BlockOp>, k: nat)
    ensures k >= LengthAfter(disk, ops) ==> ByteAfter(disk, ops, k) == 0
  {
    if ops != [] {
      ZeroBeyond(disk, ops[..|ops| - 1], k);
    }
  }

  /** The run on a bare disk leaves those bytes and returns them. */
  lemma {:induction false} CachelessIs(disk: Data, ops: seq<BlockOp>)
    ensures Image(disk, ops, CachelessRun(disk, ops).0) && AnswersAre(disk, ops, CachelessRun(disk, ops).1)
  {
    if ops != [] {
      var n := |ops| - 1;
      var (d, answers) := CachelessRun(disk, ops[..n]);
      CachelessIs(disk, ops[..n]);
      match ops[n]
      case Read(id) =>
        ImageRead(disk, ops[..n], d, id);
        AnswersGrow(disk, ops, answers, [DiskRead(d, id)]);
      case Write(id, b) =>
        ImageWrite(disk, ops, d, id, b);
        AnswersGrow(disk, ops, answers, []);
    }
  }

  lemma AnswersGrow(disk: Data, ops: seq<BlockOp>, answers: seq<Option<Block>>, more: seq<Option<Block>>)
    requires ops != [] && AnswersAre(disk, ops[..|ops| - 1], answers)
    requires var n := |ops| - 1;
      if ops[n].Read? then |more| == 1 && AnswerIs(disk, ops[..n], ops[n].id, more[0]) else more == []
    ensures AnswersAre(disk, ops, answers + more)
  {
    var n := |ops| - 1;
    forall i | 0 <= i < |ops| && ops[i].Read?
      ensures Reads(ops[..i]) < |answers + more| && AnswerIs(disk, ops[..i], ops[i].id, (answers + more)[Reads(ops[..i])])
    {
      if i < n {
        assert ops[..n][i] == ops[i] && ops[..n][..i] == ops[..i];
      }
    }
  }

  method RunOp(fs: FileSystem, op: BlockOp) returns (answer: seq<Option<Block>>)
    requires fs.Valid() && fs.pool.freeCount > 0
    modifies fs, fs.pool, fs.cache, fs.cache.table, fs.cache.entries
    ensures fs.Valid() && fs.pool.freeCount == old(fs.pool.freeCount)
    ensures fresh(fs.cache.entries - old(fs.cache.entries))
    ensures match op
      case Read(id) => fs.disk == old(fs.disk) && answer == [DiskRead(fs.disk, id)]
      case Write(id, b) => fs.disk == DiskWrite(old(fs.disk), id, b) && answer == []
  {
    match op
    case Read(id) =>
      var r := fs.ReadBlock(id);
      answer := [r];
    case Write(id, b) =>
      var ok := fs.WriteBlock(id, b);
      answer := [];
  }

  /** Any interleaving of reads and writes answers as a disk without a cache would, and
      every call returns its buffer to the pool. */
  method RunOps(disk: Data, ops: seq<BlockOp>) returns (fs: FileSystem, answers: seq<Option<Block>>)
    ensures (fs.disk, answers) == CachelessRun(disk, ops)
    ensures Image(disk, ops, fs.disk) && AnswersAre(disk, ops, answers)
    ensures fs.Valid() && fs.pool.freeCount == BUFFER_POOL_SIZE
  {
    fs := new FileSystem(disk);
    answers := [];
    for i := 0 to |ops|
      invariant fresh(fs.pool) && fresh(fs.cache) && fresh(fs.cache.table) && fresh(fs.cache.entries)
      invariant fs.Valid() && fs.pool.freeCount == BUFFER_POOL_SIZE
      invariant (fs.disk, answers) == CachelessRun(disk, ops[..i])
    {
      assert ops[..i + 1][..i] == ops[..i];
      var answer := RunOp(fs, ops[i]);
      assert answers + [] == answers;
      answers := answers + answer;
    }
    assert ops[..|ops|] == ops;
    CachelessIs(disk, ops);
  }
}
