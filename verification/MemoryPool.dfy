// The allocator of MemoryPool/memoryPool.c: block headers written at offsets of one range
// of bytes, linked in address order.

module MemoryPool {
  import opened PoolSpec

  datatype Link = Null | To(at: nat)

  /** A `Block` as it lies in the pool. */
  datatype Header = Header(size: nat, free: bool, next: Link)

  type Memory = map<nat, Header>

  ghost function Start(s: seq<Block>, base: nat, tail: Link): Link {
    if s == [] then tail else To(base)
  }

  /** From offset base on, the headers of s lie side by side; the last links to tail. */
  ghost predicate Laid(m: Memory, s: seq<Block>, base: nat, tail: Link) {
    s != [] ==>
      var next := base + HEADER + s[0].size;
      base in m && m[base] == Header(s[0].size, s[0].free, Start(s[1..], next, tail)) && Laid(m, s[1..], next, tail)
  }

  lemma {:induction false} LaidConcat(m: Memory, a: seq<Block>, b: seq<Block>, base: nat, tail: Link)
    ensures Laid(m, a + b, base, tail) <==>
      Laid(m, a, base, Start(b, base + Total(a), tail)) && Laid(m, b, base + Total(a), tail)
  {
    if a == [] {
      assert a + b == b;
    } else {
      assert (a + b)[1..] == a[1..] + b;
      LaidConcat(m, a[1..], b, base + HEADER + a[0].size, tail);
    }
  }

  /** Headers outside the range of s do not matter. */
  lemma {:induction false} LaidFrame(m: Memory, m': Memory, s: seq<Block>, base: nat, tail: Link)
    requires Laid(m, s, base, tail)
    requires forall o {:trigger m[o]} :: o in m && base <= o < base + Total(s) ==> o in m' && m'[o] == m[o]
    ensures Laid(m', s, base, tail)
  {
    if s != [] {
      LaidFrame(m, m', s[1..], base + HEADER + s[0].size, tail);
    }
  }

  /** Blocks x in the middle give way to blocks c over the same bytes. */
  lemma LaidReplace(m: Memory, m': Memory, a: seq<Block>, x: seq<Block>, c: seq<Block>, b: seq<Block>)
    requires Laid(m, a + (x + b), 0, Null) && x != [] && c != [] && Total(c) == Total(x)
    requires Laid(m', c, Total(a), Start(b, Total(a) + Total(x), Null))
    requires forall o {:trigger m[o]} :: o in m && !(Total(a) <= o < Total(a) + Total(x)) ==> o in m' && m'[o] == m[o]
    ensures Laid(m', a + (c + b), 0, Null)
  {
    LaidConcat(m, a, x + b, 0, Null);
    LaidConcat(m, x, b, Total(a), Null);
    LaidFrame(m, m', a, 0, To(Total(a)));
    LaidFrame(m, m', b, Total(a) + Total(x), Null);
    LaidConcat(m', c, b, Total(a), Null);
    LaidConcat(m', a, c + b, 0, Null);
  }

  class Pool {
    var poolSize: nat
    var memory: Memory
    var freeList: Link

    ghost var blocks: seq<Block>

    ghost predicate Laidout()
      reads this
    {
      freeList == To(0) && blocks != [] && Laid(memory, blocks, 0, Null) && Total(blocks) == poolSize
    }

    ghost predicate Valid()
      reads this
    {
      Laidout() && Coalesced(blocks)
    }

    /** `PoolInit`, once `malloc` succeeded. */
    constructor (size: nat)
      requires size >= HEADER
      ensures Valid() && poolSize == size && blocks == [Block(size - HEADER, true)]
    {
      poolSize := size;
      freeList := To(0);
      memory := map[0 := Header(size - HEADER, true, Null)];
      blocks := [Block(size - HEADER, true)];
    }

    /** `SplitBlock`, for the block x that lies behind a. */
    method SplitBlock(block: nat, size: nat, ghost a: seq<Block>, ghost x: Block, ghost b: seq<Block>)
      requires Laidout() && blocks == a + ([x] + b) && block == Total(a) && x.size > size + HEADER
      modifies this`memory, this`blocks
      ensures Laidout() && blocks == a + ([Block(size, false), Block(x.size - size - HEADER, true)] + b)
    {
      HeaderAt(memory, a, x, b, block, block + HEADER + x.size);
      ghost var m := memory;
      var newBlock := block + HEADER + size;
      memory := memory[newBlock := Header(memory[block].size - size - HEADER, true, memory[block].next)];
      memory := memory[block := Header(size, false, To(newBlock))];
      ghost var c := [Block(size, false), Block(x.size - size - HEADER, true)];
      assert c[1..] == [c[1]] && c[1..][1..] == [] && [x][1..] == [];
      LaidReplace(m, memory, a, [x], c, b);
      TotalConcat(a, [x] + b);
      TotalConcat([x], b);
      TotalConcat(a, c + b);
      TotalConcat(c, b);
      blocks := a + (c + b);
    }

    /** Writing the `free` field of the block x that lies behind a. */
    method SetFree(block: nat, free: bool, ghost a: seq<Block>, ghost x: Block, ghost b: seq<Block>)
      requires Laidout() && blocks == a + ([x] + b) && block == Total(a)
      modifies this`memory, this`blocks
      ensures Laidout() && blocks == a + ([Block(x.size, free)] + b)
    {
      HeaderAt(memory, a, x, b, block, block + HEADER + x.size);
      ghost var m := memory;
      memory := memory[block := memory[block].(free := free)];
      ghost var c := [Block(x.size, free)];
      assert c[1..] == [] && [x][1..] == [];
      LaidReplace(m, memory, a, [x], c, b);
      TotalConcat(a, [x] + b);
      TotalConcat([x], b);
      TotalConcat(a, c + b);
      TotalConcat(c, b);
      blocks := a + (c + b);
    }

    /** The search loop of `PoolAllocate`. */
    method FindFit(size: nat) returns (curr: Link, ghost a: seq<Block>, ghost x: Block, ghost b: seq<Block>)
      requires Valid()
      ensures curr.Null? <==> Fit(blocks, size) == |blocks|
      ensures curr.To? ==> blocks == a + ([x] + b) && curr.at == Total(a) && |a| == Fit(blocks, size)
      ensures curr.To? ==> curr.at in memory && memory[curr.at].size == x.size && x.free && x.size >= size
    {
      curr := freeList;
      a, b := [], blocks;
      x := blocks[0];
      ghost var at: nat := 0;
      while curr != Null
        invariant blocks == a + b && at == Total(a) && curr == Start(b, at, Null)
        invariant Fit(blocks, size) == |a| + Fit(b, size)
        decreases |b|
      {
        ghost var rest := b[1..];
        x := b[0];
        ghost var end := at + HEADER + x.size;
        assert b == [x] + rest;
        HeaderAt(memory, a, x, rest, at, end);
        if memory[curr.at].free && memory[curr.at].size >= size {
          b := rest;
          return;
        }
        curr := memory[curr.at].next;
        StepOver(a, x, rest);
        FitBehind(x, rest, size);
        a, b, at := a + [x], rest, end;
      }
    }

    /** `PoolAllocate`: the first block that fits; it fails exactly when none does. */
    method PoolAllocate(size: nat) returns (ptr: Link)
      requires Valid()
      modifies this`memory, this`blocks
      ensures Valid() && blocks == Allocate(old(blocks), size)
      ensures ptr.Null? <==> forall b :: b in old(blocks) ==> !(b.free && b.size >= size)
      ensures var i := Fit(old(blocks), size);
        if ptr.Null? then i == |old(blocks)| else i < |old(blocks)| && ptr.at == Total(old(blocks)[..i]) + HEADER
      ensures ptr.Null? ==> blocks == old(blocks)
      ensures ptr.To? ==> exists n :: size <= n <= size + HEADER && Adds(old(Live(blocks, 0)), Live(blocks, 0), (ptr.at, n))
      ensures ptr.To? ==> Taken(old(blocks), Fit(old(blocks), size), size, blocks)
    {
      FailsOnlyWhenFull(blocks, size);
      AllocateCoalesced(blocks, size);
      var curr; ghost var a, x, b;
      curr, a, x, b := FindFit(size);
      if curr == Null {
        return Null;
      }
      Found(a, x, b, size);
      AllocateLive(blocks, size);
      AllocateTakes(blocks, size);
      if memory[curr.at].size > size + HEADER {
        SplitBlock(curr.at, size, a, x, b);
      } else {
        SetFree(curr.at, false, a, x, b);
      }
      return To(curr.at + HEADER);
    }

    /** Joining the block x behind a with its neighbour y. */
    method JoinNext(curr: nat, next: nat, ghost a: seq<Block>, ghost x: Block, ghost y: Block, ghost b: seq<Block>)
      requires Laidout() && blocks == a + ([x, y] + b) && curr == Total(a) && next == curr + HEADER + x.size && x.free
      modifies this`memory, this`blocks
      ensures Laidout() && blocks == a + ([Joined(x, y)] + b)
    {
      assert [x, y] + b == [x] + ([y] + b) && a + ([x] + ([y] + b)) == (a + [x]) + ([y] + b);
      TotalConcat(a, [x]);
      HeaderAt(memory, a, x, [y] + b, curr, next);
      HeaderAt(memory, a + [x], y, b, next, next + HEADER + y.size);
      ghost var m := memory;
      memory := memory[curr := Header(memory[curr].size + HEADER + memory[next].size, memory[curr].free, memory[next].next)];
      ghost var c := [Block(x.size + HEADER + y.size, x.free)];
      assert c[1..] == [] && [x, y][1..] == [y] && [y][1..] == [];
      LaidReplace(m, memory, a, [x, y], c, b);
      TotalConcat(a, [x, y] + b);
      TotalConcat([x, y], b);
      TotalConcat(a, c + b);
      TotalConcat(c, b);
      blocks := a + (c + b);
    }

    /** `MergeBlock` */
    method MergeBlock()
      requires Laidout()
      modifies this`memory, this`blocks
      ensures Valid() && blocks == Merge(old(blocks))
    {
      ghost var merged := Merge(blocks);
      MergeKeeps(blocks, 0);
      var curr: nat := 0;
      ghost var a, x, b := [], blocks[0], blocks[1..];
      assert [x] + b == blocks && a + blocks == blocks && a + merged == merged;
      ghost var end: nat := curr + HEADER + x.size;
      HeaderAt(memory, a, x, b, curr, end);
      while memory[curr].next != Null
        invariant Laidout() && blocks == a + ([x] + b) && curr == Total(a) && merged == a + Merge([x] + b)
        invariant curr in memory && memory[curr] == Header(x.size, x.free, Start(b, end, Null))
        invariant end == curr + HEADER + x.size
        decreases |b|
      {
        var next := memory[curr].next.at;
        ghost var y, rest := b[0], b[1..];
        TwoBlocks(a, x, y, b, rest);
        assert next == end == Total(a + [x]);
        HeaderAt(memory, a + [x], y, rest, next, next + HEADER + y.size);
        if memory[curr].free && memory[next].free {
          JoinNext(curr, next, a, x, y, rest);
          x, b, end := Joined(x, y), rest, end + HEADER + y.size;
          HeaderAt(memory, a, x, b, curr, end);
        } else {
          a, x, b, end := a + [x], y, rest, next + HEADER + y.size;
          curr := next;
        }
      }
      assert b == [];
    }

    /** `PoolFree` of a live pointer: exactly its payload goes, and after the last one the
        pool is as at first. */
    method PoolFree(ptr: Link)
      requires Valid() && (ptr.To? ==> IsLive(blocks, ptr.at))
      modifies this`memory, this`blocks
      ensures Valid() && (ptr.Null? ==> blocks == old(blocks))
      ensures forall i :: ptr.To? && HoldsAt(old(blocks), i, ptr.at) ==>
        blocks == Release(old(blocks), i) && Adds(Live(blocks, 0), old(Live(blocks, 0)), (ptr.at, old(blocks)[i].size))
      ensures forall p :: ptr.To? && p in old(Live(blocks, 0)) && p.0 == ptr.at ==> Adds(Live(blocks, 0), old(Live(blocks, 0)), p)
      ensures Live(blocks, 0) == [] ==> blocks == [Block(poolSize - HEADER, true)]
    {
      if ptr != Null {
        ghost var i := LivePointer(blocks, ptr.at);
        ReleaseLive(blocks, i, ptr.at);
        FreeBlock(ptr.at - HEADER, i);
      }
      if Live(blocks, 0) == [] {
        AllFreeIsInitial(blocks, 0);
      }
    }

    method FreeBlock(block: nat, ghost i: int)
      requires Valid() && HoldsAt(blocks, i, block + HEADER)
      modifies this`memory, this`blocks
      ensures Valid() && blocks == Release(old(blocks), i)
    {
      ghost var a, x, b := blocks[..i], blocks[i], blocks[i + 1..];
      assert blocks == a + ([x] + b);
      SetFree(block, true, a, x, b);
      assert blocks == old(blocks)[i := Block(x.size, true)];
      MergeBlock();
    }

    /** An allocation undone by freeing its result leaves every block as it was. */
    method AllocateAndFree(size: nat)
      requires Valid()
      modifies this`memory, this`blocks
      ensures Valid() && blocks == old(blocks)
    {
      if Fit(blocks, size) < |blocks| {
        AllocateThenFree(blocks, size);
      }
      var ptr := PoolAllocate(size);
      assert ptr.To? ==> HoldsAt(blocks, Fit(old(blocks), size), ptr.at);
      if ptr.To? {
        LiveExactly(blocks, ptr.at);
      }
      PoolFree(ptr);
    }
  }

  /** A live pointer names one block, and one payload. */
  lemma LivePointer(s: seq<Block>, at: nat) returns (i: int)
    requires IsLive(s, at)
    ensures HoldsAt(s, i, at) && (forall j :: HoldsAt(s, j, at) ==> j == i)
    ensures forall p :: p in Live(s, 0) && p.0 == at ==> p == (at, s[i].size)
  {
    var p :| p in Live(s, 0) && p.0 == at;
    i := LiveHolder(s, p);
    forall j | HoldsAt(s, j, at) ensures j == i {
      OneHolder(s, i, j, at);
    }
    forall q | q in Live(s, 0) && q.0 == at ensures q == (at, s[i].size) {
      var j := LiveHolder(s, q);
    }
  }

  /** The loop of `MergeBlock` at x with y behind it. */
  lemma TwoBlocks(a: seq<Block>, x: Block, y: Block, b: seq<Block>, rest: seq<Block>)
    requires b != [] && y == b[0] && rest == b[1..]
    ensures b == [y] + rest && [x] + b == [x, y] + rest && a + ([x] + b) == (a + [x]) + ([y] + rest)
    ensures Total(a + [x]) == Total(a) + HEADER + x.size
    ensures a + Merge([x] + b) == if x.free && y.free then a + Merge([Joined(x, y)] + rest) else (a + [x]) + Merge([y] + rest)
  {
    StepOver(a, x, b);
    assert b == [y] + rest;
    assert [x] + b == [x, y] + rest;
    MergeStep(x, y, rest);
    Regrouped(a, [x], Merge([y] + rest));
  }

  lemma MergeStep(x: Block, y: Block, rest: seq<Block>)
    ensures Merge([x, y] + rest) == if x.free && y.free then Merge([Joined(x, y)] + rest) else [x] + Merge([y] + rest)
  {
    var s := [x, y] + rest;
    assert s[0] == x && s[1] == y && s[1..] == [y] + rest && s[2..] == rest;
  }

  lemma StepOver(a: seq<Block>, x: Block, b: seq<Block>)
    ensures a + ([x] + b) == (a + [x]) + b && Total(a + [x]) == Total(a) + HEADER + x.size
    ensures ([x] + b)[1..] == b
  {
    TotalConcat(a, [x]);
  }

  lemma FitBehind(x: Block, b: seq<Block>, n: nat)
    requires !(x.free && x.size >= n)
    ensures Fit([x] + b, n) == 1 + Fit(b, n)
  {
    assert ([x] + b)[1..] == b;
  }

  /** What `Allocate` does with the block found. */
  lemma Found(a: seq<Block>, x: Block, b: seq<Block>, n: nat)
    requires x.free && x.size >= n && Fit(a + ([x] + b), n) == |a|
    ensures Allocate(a + ([x] + b), n) == a + (Cut(x, n) + b)
    ensures (a + ([x] + b))[..|a|] == a
  {
    Slices(a, x, b);
    Regrouped(a, Cut(x, n), b);
  }

  lemma Slices(a: seq<Block>, x: Block, b: seq<Block>)
    ensures var s := a + ([x] + b); s[..|a|] == a && s[|a|] == x && s[|a| + 1..] == b
  {
  }

  lemma Regrouped(a: seq<Block>, c: seq<Block>, b: seq<Block>)
    ensures a + c + b == a + (c + b)
  {
  }

  /** The header of the block x behind a, which lies from o to e. */
  lemma HeaderAt(m: Memory, a: seq<Block>, x: Block, b: seq<Block>, o: nat, e: nat)
    requires Laid(m, a + ([x] + b), 0, Null) && o == Total(a) && e == o + HEADER + x.size
    ensures o in m && m[o] == Header(x.size, x.free, Start(b, e, Null))
  {
    LaidConcat(m, a, [x] + b, 0, Null);
    assert ([x] + b)[1..] == b;
  }
}
