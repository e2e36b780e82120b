// The first-fit allocator of MemoryPool/memoryPool.c on its list of blocks, in address
// order.  A block occupies a header and its payload; the blocks lie side by side from 0.

module PoolSpec {

  const HEADER: nat := 24        // sizeof(Block)

  datatype Block = Block(size: nat, free: bool)

  /** The bytes the blocks occupy. */
  function Total(s: seq<Block>): nat {
    if s == [] then 0 else s[0].size + HEADER + Total(s[1..])
  }

  lemma {:induction false} TotalConcat(a: seq<Block>, b: seq<Block>)
    ensures Total(a + b) == Total(a) + Total(b)
  {
    if a == [] {
      assert a + b == b;
    } else {
      assert (a + b)[1..] == a[1..] + b;
      TotalConcat(a[1..], b);
    }
  }

  /** Address and size of every allocated payload, in address order. */
  function Live(s: seq<Block>, base: nat): seq<(nat, nat)> {
    if s == [] then []
    else (if s[0].free then [] else [(base + HEADER, s[0].size)]) + Live(s[1..], base + s[0].size + HEADER)
  }

  lemma {:induction false} LiveConcat(a: seq<Block>, b: seq<Block>, base: nat)
    ensures Live(a + b, base) == Live(a, base) + Live(b, base + Total(a))
  {
    if a == [] {
      assert a + b == b;
    } else {
      assert (a + b)[1..] == a[1..] + b;
      LiveConcat(a[1..], b, base + a[0].size + HEADER);
    }
  }

  lemma LiveAround(a: seq<Block>, m: seq<Block>, b: seq<Block>, e: nat)
    requires e == Total(a) + Total(m)
    ensures Live(a + m + b, 0) == Live(a, 0) + Live(m, Total(a)) + Live(b, e)
    ensures Total(a + m + b) == e + Total(b)
  {
    LiveConcat(a + m, b, 0);
    LiveConcat(a, m, 0);
    TotalConcat(a + m, b);
    TotalConcat(a, m);
  }

  /** Payloads that lie in order, apart, and between two addresses. */
  ghost predicate Apart(l: seq<(nat, nat)>, from: nat, upto: nat) {
    && (forall i :: 0 <= i < |l| ==> from + HEADER <= l[i].0 && l[i].0 + l[i].1 <= upto)
    && (forall i, j :: 0 <= i < j < |l| ==> l[i].0 + l[i].1 + HEADER <= l[j].0)
  }

  lemma {:induction false} LiveApart(s: seq<Block>, base: nat, end: nat)
    requires end == base + Total(s)
    ensures Apart(Live(s, base), base, end)
  {
    if s != [] {
      LiveApart(s[1..], base + s[0].size + HEADER, end);
    }
  }

  /** No two neighbours are both free. */
  ghost predicate Coalesced(s: seq<Block>) {
    forall i :: 0 <= i < |s| - 1 ==> !(s[i].free && s[i + 1].free)
  }

  // ----- allocation -----

  /** The first block that is free and large enough, or |s|. */
  function Fit(s: seq<Block>, n: nat): (i: nat)
    ensures i <= |s| && (i < |s| ==> s[i].free && s[i].size >= n)
    ensures forall j :: 0 <= j < i ==> !(s[j].free && s[j].size >= n)
  {
    if s == [] || (s[0].free && s[0].size >= n) then 0 else 1 + Fit(s[1..], n)
  }

  /** What becomes of the block found: it is split if more than a header is left over. */
  function Cut(b: Block, n: nat): seq<Block>
    requires b.size >= n
  {
    if b.size > n + HEADER then [Block(n, false), Block(b.size - n - HEADER, true)] else [b.(free := false)]
  }

  function Allocate(s: seq<Block>, n: nat): seq<Block> {
    var i := Fit(s, n);
    if i == |s| then s else s[..i] + Cut(s[i], n) + s[i + 1..]
  }

  /** Allocation fails exactly when no free block is large enough. */
  lemma FailsOnlyWhenFull(s: seq<Block>, n: nat)
    ensures Fit(s, n) == |s| <==> forall b :: b in s ==> !(b.free && b.size >= n)
  {
    if Fit(s, n) < |s| {
      assert s[Fit(s, n)] in s;
    }
  }

  lemma EmptyMiddle<T>(l: seq<T>, r: seq<T>)
    ensures l + [] + r == l + r
  {
  }

  /** Cutting a free block in the middle adds one payload there. */
  lemma CutLive(a: seq<Block>, x: Block, b: seq<Block>, n: nat)
    requires x.free && x.size >= n
    ensures var e := Total(a) + x.size + HEADER;
      && Live(a + [x] + b, 0) == Live(a, 0) + Live(b, e)
      && Live(a + Cut(x, n) + b, 0) == Live(a, 0) + [(Total(a) + HEADER, Cut(x, n)[0].size)] + Live(b, e)
    ensures Total(a + Cut(x, n) + b) == Total(a + [x] + b)
  {
    var e := Total(a) + x.size + HEADER;
    CutSame(x, n, Total(a));
    LiveAround(a, [x], b, e);
    LiveAround(a, Cut(x, n), b, e);
    EmptyMiddle(Live(a, 0), Live(b, e));
  }

  lemma Middle<T>(a: seq<T>, x: T, b: seq<T>)
    ensures var s := a + [x] + b;
      s[..|a|] == a && s[|a|] == x && s[|a| + 1..] == b && forall y :: s[|a| := y] == a + [y] + b
  {
  }

  /** Success adds one payload, large enough, where the first fitting block lies, and
      touches no other. */
  lemma AllocateAdds(a: seq<Block>, x: Block, b: seq<Block>, n: nat)
    requires Fit(a + [x] + b, n) == |a|
    ensures var s, e, size := a + [x] + b, Total(a) + x.size + HEADER, Cut(x, n)[0].size;
      && size >= n && Live(s, 0) == Live(a, 0) + Live(b, e)
      && Live(Allocate(s, n), 0) == Live(a, 0) + [(Total(a) + HEADER, size)] + Live(b, e)
    ensures Allocate(a + [x] + b, n) == a + Cut(x, n) + b && Total(Allocate(a + [x] + b, n)) == Total(a + [x] + b)
  {
    Middle(a, x, b);
    CutLive(a, x, b, n);
  }

  lemma CutSame(b: Block, n: nat, base: nat)
    requires b.size >= n && b.free
    ensures Total(Cut(b, n)) == Total([b]) == b.size + HEADER
    ensures Live([b], base) == [] && Live(Cut(b, n), base) == [(base + HEADER, Cut(b, n)[0].size)]
  {
    if b.size > n + HEADER {
      var c := Cut(b, n);
      assert c[1..] == [c[1]] && c[1..][1..] == [];
    }
  }

  lemma AllocateCoalesced(s: seq<Block>, n: nat)
    requires Coalesced(s)
    ensures Coalesced(Allocate(s, n))
  {
    var i, s' := Fit(s, n), Allocate(s, n);
    if i < |s| {
      var d := |s'| - |s|;
      forall k | 0 <= k < |s'| - 1 ensures !(s'[k].free && s'[k + 1].free) {
        if k + 1 < i {
          assert s'[k] == s[k] && s'[k + 1] == s[k + 1];
        } else if k >= i + d {
          assert k > i + d ==> s'[k] == s[k - d];
          assert s'[k + 1] == s[k + 1 - d];
        }
      }
    }
  }

  // ----- release -----

  function Joined(x: Block, y: Block): Block {
    Block(x.size + HEADER + y.size, true)
  }

  /** `MergeBlock`: one pass that joins free neighbours. */
  function Merge(s: seq<Block>): seq<Block>
    decreases |s|
  {
    if |s| < 2 then s
    else if s[0].free && s[1].free then Merge([Joined(s[0], s[1])] + s[2..])
    else [s[0]] + Merge(s[1..])
  }

  lemma {:induction false} MergeKeeps(s: seq<Block>, base: nat)
    ensures Total(Merge(s)) == Total(s) && Live(Merge(s), base) == Live(s, base)
    ensures Coalesced(Merge(s)) && (s != [] ==> Merge(s) != [] && Merge(s)[0].free == s[0].free)
    decreases |s|
  {
    if |s| >= 2 {
      if s[0].free && s[1].free {
        var j := [Joined(s[0], s[1])] + s[2..];
        assert s[1..][1..] == s[2..] && j[1..] == s[2..];
        MergeKeeps(j, base);
      } else {
        MergeKeeps(s[1..], base + s[0].size + HEADER);
        var m := Merge(s[1..]);
        assert ([s[0]] + m)[1..] == m;
        forall k | 0 <= k < |m| ensures !(([s[0]] + m)[k].free && m[k].free) {
          assert k > 0 ==> !(m[k - 1].free && m[k].free);
        }
      }
    }
  }

  /** Nothing to join. */
  lemma {:induction false} MergeStable(s: seq<Block>)
    requires Coalesced(s)
    ensures Merge(s) == s
    decreases |s|
  {
    if |s| >= 2 {
      forall i | 0 <= i < |s[1..]| - 1 ensures !(s[1..][i].free && s[1..][i + 1].free) {
        assert !(s[i + 1].free && s[i + 2].free);
      }
      MergeStable(s[1..]);
      assert !(s[0].free && s[1].free);
    }
  }

  lemma {:induction false} MergePrefix(a: seq<Block>, b: seq<Block>)
    requires Coalesced(a) && (a != [] && b != [] ==> !(a[|a| - 1].free && b[0].free))
    ensures Merge(a + b) == a + Merge(b)
    decreases |a|
  {
    if a == [] {
      assert a + b == b;
    } else {
      assert (a + b)[1..] == a[1..] + b;
      if |a| > 1 {
        assert !(a[0].free && a[1].free);
        forall i | 0 <= i < |a[1..]| - 1 ensures !(a[1..][i].free && a[1..][i + 1].free) {
          assert !(a[i + 1].free && a[i + 2].free);
        }
      }
      MergePrefix(a[1..], b);
      if b == [] && |a| == 1 {
        assert a + b == a;
      }
    }
  }

  /** `PoolFree` of block i. */
  function Release(s: seq<Block>, i: nat): seq<Block>
    requires i < |s|
  {
    Merge(s[i := s[i].(free := true)])
  }

  /** Release takes away one payload, touches no other, and leaves no free neighbours. */
  lemma ReleaseRemoves(a: seq<Block>, x: Block, b: seq<Block>)
    requires !x.free
    ensures var s, e := a + [x] + b, Total(a) + x.size + HEADER;
      && Live(s, 0) == Live(a, 0) + [(Total(a) + HEADER, x.size)] + Live(b, e)
      && Live(Release(s, |a|), 0) == Live(a, 0) + Live(b, e)
    ensures Total(Release(a + [x] + b, |a|)) == Total(a + [x] + b) && Coalesced(Release(a + [x] + b, |a|))
  {
    var x', e := Block(x.size, true), Total(a) + x.size + HEADER;
    Middle(a, x, b);
    LiveAround(a, [x], b, e);
    LiveAround(a, [x'], b, e);
    EmptyMiddle(Live(a, 0), Live(b, e));
    MergeKeeps(a + [x'] + b, 0);
  }

  lemma CoalescedParts(a: seq<Block>, b: seq<Block>)
    requires Coalesced(a + b)
    ensures Coalesced(a) && Coalesced(b) && (a != [] && b != [] ==> !(a[|a| - 1].free && b[0].free))
  {
    var s := a + b;
    forall k | 0 <= k < |a| - 1 ensures !(a[k].free && a[k + 1].free) {
      assert s[k] == a[k] && s[k + 1] == a[k + 1];
    }
    forall k | 0 <= k < |b| - 1 ensures !(b[k].free && b[k + 1].free) {
      assert s[|a| + k] == b[k] && s[|a| + k + 1] == b[k + 1];
    }
    if a != [] && b != [] {
      assert s[|a| - 1] == a[|a| - 1] && s[|a|] == b[0];
    }
  }

  /** A block that was cut and freed again is whole again. */
  lemma CutThenFree(a: seq<Block>, x: Block, b: seq<Block>, n: nat)
    requires x.free && x.size >= n && Coalesced(a + ([x] + b))
    ensures Merge(a + (Cut(x, n)[0 := Cut(x, n)[0].(free := true)] + b)) == a + ([x] + b)
  {
    CoalescedParts(a, [x] + b);
    var c := Cut(x, n)[0 := Cut(x, n)[0].(free := true)];
    MergePrefix(a, c + b);
    MergeStable([x] + b);
    if x.size > n + HEADER {
      assert [Joined(c[0], c[1])] + (c + b)[2..] == [x] + b;
    } else {
      assert c == [x];
    }
  }

  /** Giving back at once what was just allocated restores the blocks exactly. */
  lemma AllocateThenRelease(a: seq<Block>, x: Block, b: seq<Block>, n: nat)
    requires Coalesced(a + [x] + b) && Fit(a + [x] + b, n) == |a|
    ensures Release(Allocate(a + [x] + b, n), |a|) == a + [x] + b
  {
    var s, c := a + [x] + b, Cut(x, n);
    Middle(a, x, b);
    assert Allocate(s, n) == a + c + b;
    assert s == a + ([x] + b);
    CutThenFree(a, x, b, n);
    FreedCut(a, c, b);
  }

  lemma FreedCut(a: seq<Block>, c: seq<Block>, b: seq<Block>)
    requires c != []
    ensures var s := a + c + b; s[|a|] == c[0] && s[|a| := s[|a|].(free := true)] == a + (c[0 := c[0].(free := true)] + b)
  {
  }

  /** Once nothing is allocated any more, the single initial block is back. */
  lemma {:induction false} AllFreeIsInitial(s: seq<Block>, base: nat)
    requires s != [] && Coalesced(s) && Live(s, base) == []
    ensures s == [Block(Total(s) - HEADER, true)]
  {
    var rest := s[1..];
    assert s == [s[0]] + rest;
    assert s[0].free && Live(rest, base + s[0].size + HEADER) == [];
    if |s| > 1 {
      assert false;
    }
  }

  /** l' has the payload p more than l. */
  ghost predicate Adds(l: seq<(nat, nat)>, l': seq<(nat, nat)>, p: (nat, nat)) {
    exists k :: 0 <= k <= |l| && l' == l[..k] + [p] + l[k..]
  }

  lemma AddsMiddle(a: seq<(nat, nat)>, p: (nat, nat), b: seq<(nat, nat)>)
    ensures Adds(a + b, a + [p] + b, p)
  {
    assert (a + b)[..|a|] == a && (a + b)[|a|..] == b;
  }

  /** A live payload belongs to a block. */
  lemma {:induction false} LiveBlock(s: seq<Block>, base: nat, p: (nat, nat)) returns (i: nat)
    requires p in Live(s, base)
    ensures i < |s| && !s[i].free && p == (base + Total(s[..i]) + HEADER, s[i].size)
  {
    if !s[0].free && p == (base + HEADER, s[0].size) {
      i := 0;
    } else {
      var j := LiveBlock(s[1..], base + s[0].size + HEADER, p);
      i := j + 1;
      assert s[..i] == [s[0]] + s[1..][..j];
    }
  }

  /** Blocks start at different offsets. */
  lemma {:induction false} StartsApart(s: seq<Block>, i: nat, j: nat)
    requires i < j <= |s|
    ensures Total(s[..i]) + HEADER <= Total(s[..j])
  {
    assert s[..j] == s[..i] + s[i..j];
    TotalConcat(s[..i], s[i..j]);
  }

  // ----- a whole run -----

  datatype Op = Alloc(size: nat) | Free(at: nat)

  /** Block i holds the payload at this address. */
  ghost predicate HoldsAt(s: seq<Block>, i: int, at: nat) {
    0 <= i < |s| && !s[i].free && at == Total(s[..i]) + HEADER
  }

  /** The address of a live payload. */
  ghost predicate IsLive(s: seq<Block>, at: nat) {
    exists p :: p in Live(s, 0) && p.0 == at
  }

  /** One operation; only live pointers are freed. */
  ghost predicate Step(s: seq<Block>, op: Op, s': seq<Block>) {
    match op
    case Alloc(n) => s' == Allocate(s, n)
    case Free(at) => IsLive(s, at) && exists i :: HoldsAt(s, i, at) && s' == Release(s, i)
  }

  ghost predicate Reaches(size: nat, ops: seq<Op>, s: seq<Block>)
    requires size >= HEADER
    decreases |ops|
  {
    if ops == [] then s == [Block(size - HEADER, true)]
    else
      var before, op := ops[..|ops| - 1], ops[|ops| - 1];
      exists s0 :: Reaches(size, before, s0) && Step(s0, op, s)
  }

  /** In every reachable pool the blocks tile it and no two free ones are neighbours. */
  lemma {:induction false} ReachesInv(size: nat, ops: seq<Op>, s: seq<Block>)
    requires size >= HEADER && Reaches(size, ops, s)
    ensures s != [] && Total(s) == size && Coalesced(s)
    decreases |ops|
  {
    if ops != [] {
      var n := |ops| - 1;
      var s0 :| Reaches(size, ops[..n], s0) && Step(s0, ops[n], s);
      ReachesInv(size, ops[..n], s0);
      StepKeeps(s0, ops[n], s);
    }
  }

  /** The live payloads are apart, and with nothing live the pool is as at first. */
  lemma ReachableLive(size: nat, ops: seq<Op>, s: seq<Block>)
    requires size >= HEADER && Reaches(size, ops, s)
    ensures Apart(Live(s, 0), 0, size)
    ensures Live(s, 0) == [] ==> s == [Block(size - HEADER, true)]
  {
    ReachesInv(size, ops, s);
    NoneLive(s, size);
    LiveApart(s, 0, size);
  }

  lemma NoneLive(s: seq<Block>, size: nat)
    requires s != [] && Total(s) == size && Coalesced(s)
    ensures size >= HEADER && (Live(s, 0) == [] ==> s == [Block(size - HEADER, true)])
  {
    if Live(s, 0) == [] {
      AllFreeIsInitial(s, 0);
    }
  }

  lemma StepKeeps(s: seq<Block>, op: Op, s': seq<Block>)
    requires s != [] && Coalesced(s) && Step(s, op, s')
    ensures s' != [] && Total(s') == Total(s) && Coalesced(s')
  {
    match op
    case Alloc(n) =>
      AllocateCoalesced(s, n);
      var i := Fit(s, n);
      if i < |s| {
        Parts(s, i);
        AllocateAdds(s[..i], s[i], s[i + 1..], n);
      }
    case Free(at) =>
      var i :| HoldsAt(s, i, at) && s' == Release(s, i);
      Parts(s, i);
      ReleaseRemoves(s[..i], s[i], s[i + 1..]);
  }

  lemma Parts(s: seq<Block>, i: nat)
    requires i < |s|
    ensures s == s[..i] + [s[i]] + s[i + 1..]
  {
  }

  /** Payload addresses identify blocks. */
  lemma OneHolder(s: seq<Block>, i: int, j: int, at: nat)
    requires HoldsAt(s, i, at) && HoldsAt(s, j, at)
    ensures i == j
  {
    if i < j {
      StartsApart(s, i, j);
    } else if j < i {
      StartsApart(s, j, i);
    }
  }

  /** A live payload is that of a block that holds it. */
  lemma LiveHolder(s: seq<Block>, p: (nat, nat)) returns (i: int)
    requires p in Live(s, 0)
    ensures HoldsAt(s, i, p.0) && s[i].size == p.1
  {
    i := LiveBlock(s, 0, p);
  }

  /** So the live pointers are the payload addresses of the allocated blocks. */
  lemma LiveExactly(s: seq<Block>, at: nat)
    ensures IsLive(s, at) <==> exists i :: HoldsAt(s, i, at)
  {
    if IsLive(s, at) {
      var p :| p in Live(s, 0) && p.0 == at;
      var i := LiveHolder(s, p);
    }
    if i :| HoldsAt(s, i, at) {
      Parts(s, i);
      LiveAround(s[..i], [s[i]], s[i + 1..], Total(s[..i]) + s[i].size + HEADER);
      assert (at, s[i].size) in Live([s[i]], Total(s[..i]));
    }
  }

  /** Freeing takes exactly one live payload away. */
  lemma ReleaseLive(s: seq<Block>, i: int, at: nat)
    requires HoldsAt(s, i, at)
    ensures Adds(Live(Release(s, i), 0), Live(s, 0), (at, s[i].size))
  {
    Parts(s, i);
    ReleaseRemoves(s[..i], s[i], s[i + 1..]);
    AddsMiddle(Live(s[..i], 0), (at, s[i].size), Live(s[i + 1..], Total(s[..i]) + s[i].size + HEADER));
  }

  /** What an operation does to the live payloads: a successful allocation adds one, a free
      takes away the one at its pointer. */
  lemma StepLive(s: seq<Block>, op: Op, s': seq<Block>)
    requires Step(s, op, s')
    ensures op.Alloc? ==> if forall b :: b in s ==> !(b.free && b.size >= op.size) then s' == s
      else AddsOne(s, op.size, s')
    ensures op.Free? ==> exists p :: p in Live(s, 0) && p.0 == op.at && Adds(Live(s', 0), Live(s, 0), p)
  {
    match op
    case Alloc(n) =>
      FailsOnlyWhenFull(s, n);
      if Fit(s, n) < |s| {
        AllocateOne(s, n);
      }
    case Free(at) =>
      var p :| p in Live(s, 0) && p.0 == at;
      var i := LiveHolder(s, p);
      var j :| HoldsAt(s, j, at) && s' == Release(s, j);
      OneHolder(s, i, j, at);
      ReleaseLive(s, i, at);
  }

  lemma AllocateLiveAt(a: seq<Block>, x: Block, b: seq<Block>, n: nat)
    requires Fit(a + [x] + b, n) == |a|
    ensures n <= Cut(x, n)[0].size <= n + HEADER
    ensures Adds(Live(a + [x] + b, 0), Live(Allocate(a + [x] + b, n), 0), (Total(a) + HEADER, Cut(x, n)[0].size))
  {
    AllocateAdds(a, x, b, n);
    AddsMiddle(Live(a, 0), (Total(a) + HEADER, Cut(x, n)[0].size), Live(b, Total(a) + x.size + HEADER));
  }

  /** Block i gave n bytes.  If it had more than a header left over, the rest is free right
      behind them; nothing before or behind changed. */
  ghost predicate Taken(s: seq<Block>, i: nat, n: nat, s': seq<Block>) {
    && i < |s| <= |s'| && s[i].free && !s'[i].free
    && s'[..i] == s[..i]
    && (s[i].size > n + HEADER ==>
          && |s'| == |s| + 1 && s'[i].size == n
          && s'[i + 1] == Block(s[i].size - n - HEADER, true) && s'[i + 2..] == s[i + 1..])
    && (s[i].size <= n + HEADER ==> |s'| == |s| && n <= s'[i].size == s[i].size && s'[i + 1..] == s[i + 1..])
  }

  lemma AllocateTakes(s: seq<Block>, n: nat)
    requires Fit(s, n) < |s|
    ensures Taken(s, Fit(s, n), n, Allocate(s, n))
  {
  }

  /** A successful allocation adds exactly one live payload, at least as large as asked and at
      most a header larger, or just as large if the block found had more to give. */
  lemma AllocateLive(s: seq<Block>, n: nat)
    requires Fit(s, n) < |s|
    ensures var i, s' := Fit(s, n), Allocate(s, n);
      && i < |s'| && n <= s'[i].size <= n + HEADER && (s[i].size > n + HEADER ==> s'[i].size == n)
      && Adds(Live(s, 0), Live(s', 0), (Total(s[..i]) + HEADER, s'[i].size))
  {
    var i := Fit(s, n);
    Parts(s, i);
    AllocateLiveAt(s[..i], s[i], s[i + 1..], n);
    AllocateTakes(s, n);
  }

  /** What an allocation leaves of its block serves the next one that fits in it. */
  lemma RestServes(s: seq<Block>, n: nat, m: nat)
    requires Fit(s, n) < |s| && m + HEADER + n <= s[Fit(s, n)].size && s[Fit(s, n)].size > n + HEADER
    ensures var s' := Allocate(s, n);
      Fit(s', m) < |s'| && AddsOne(s', m, Allocate(s', m))
  {
    RestFits(s, n, m);
    AllocateOne(Allocate(s, n), m);
  }

  lemma RestFits(s: seq<Block>, n: nat, m: nat)
    requires Fit(s, n) < |s| && m + HEADER + n <= s[Fit(s, n)].size && s[Fit(s, n)].size > n + HEADER
    ensures Fit(Allocate(s, n), m) < |Allocate(s, n)|
  {
    var s' := Allocate(s, n);
    AllocateTakes(s, n);
    FailsOnlyWhenFull(s', m);
    assert s'[Fit(s, n) + 1] in s';
  }

  /** s' has one live payload more, of n bytes or at most a header more. */
  ghost predicate AddsOne(s: seq<Block>, n: nat, s': seq<Block>) {
    exists p: (nat, nat) :: n <= p.1 <= n + HEADER && Adds(Live(s, 0), Live(s', 0), p)
  }

  lemma AllocateOne(s: seq<Block>, n: nat)
    requires Fit(s, n) < |s|
    ensures AddsOne(s, n, Allocate(s, n))
  {
    AllocateLive(s, n);
  }

  /** The block that an allocation took, given back at once. */
  lemma AllocateThenFree(s: seq<Block>, n: nat)
    requires Coalesced(s) && Fit(s, n) < |s|
    ensures var i := Fit(s, n); HoldsAt(Allocate(s, n), i, Total(s[..i]) + HEADER) && Release(Allocate(s, n), i) == s
  {
    var i := Fit(s, n);
    Parts(s, i);
    AllocateThenRelease(s[..i], s[i], s[i + 1..], n);
    assert Allocate(s, n)[..i] == s[..i];
  }
}
