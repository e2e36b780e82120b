// The Fenwick tree of createSorted.c and countersmallernumber.c.

module Fenwick {

  /** `lowbit`: the largest power of two that divides x.  LowBitIs shows that `x & -x` on
      machine words computes it. */
  function LowBit(x: nat): (b: nat)
    requires x > 0
    ensures 1 <= b <= x
  {
    if x % 2 == 1 then 1 else 2 * LowBit(x / 2)
  }

  /** The number that a word stands for, bit by bit. */
  function Val(x: bv32): nat
    decreases x
  {
    if x == 0 then 0 else 2 * Val(x >> 1) + if x & 1 == 1 then 1 else 0
  }

  lemma Doubled(x: bv32)
    requires x < 0x8000_0000
    ensures Val(x << 1) == 2 * Val(x)
  {
    if x != 0 {
      assert (x << 1) >> 1 == x && (x << 1) & 1 == 0 && x << 1 != 0;
    }
  }

  lemma OddWord(x: bv32)
    requires x & 1 == 1
    ensures x & (0 - x) == 1 && Val(x & (0 - x)) == 1 && Val(x) % 2 == 1
  {
    OddBit(x);
    assert Val(1) == 1;
  }

  lemma OddBit(x: bv32)
    requires x & 1 == 1
    ensures x & (0 - x) == 1
  {
  }

  lemma EvenWord(x: bv32) returns (half: bv32)
    requires x != 0 && x < 0x8000_0000 && x & 1 == 0
    ensures half != 0 && half < x && half < 0x8000_0000
    ensures Val(x) == 2 * Val(half) && Val(x & (0 - x)) == 2 * Val(half & (0 - half))
  {
    half := x >> 1;
    EvenBits(x, half);
    Doubled(half & (0 - half));
  }

  lemma EvenBits(x: bv32, half: bv32)
    requires x != 0 && x < 0x8000_0000 && x & 1 == 0 && half == x >> 1
    ensures half != 0 && half < x && half & (0 - half) < 0x8000_0000 && x & (0 - x) == (half & (0 - half)) << 1
  {
  }

  /** For a positive int, `x & -x` is the largest power of two that divides it. */
  lemma {:induction false} LowBitIs(x: bv32)
    requires x != 0 && x < 0x8000_0000
    ensures Val(x) > 0 && Val(x & (0 - x)) == LowBit(Val(x))
    decreases x
  {
    if x & 1 == 1 {
      OddWord(x);
    } else {
      var half := EvenWord(x);
      LowBitIs(half);
    }
  }

  /** Node m holds the sum of the frequencies behind m - LowBit(m), up to m. */
  predicate Covers(m: nat, p: nat)
    requires m > 0
  {
    m - LowBit(m) < p <= m
  }

  /** The nodes that cover p are p and those that cover the next index of `update`. */
  lemma {:induction false} CoverStep(m: nat, p: nat)
    requires m > 0 && p > 0
    ensures Covers(m, p) <==> m == p || Covers(m, p + LowBit(p))
    decreases p
  {
    if p % 2 == 1 {
      assert LowBit(p) == 1;
    } else {
      var h := p / 2;
      assert p == 2 * h && LowBit(p) == 2 * LowBit(h);
      if m % 2 == 0 {
        var k := m / 2;
        assert m == 2 * k && LowBit(m) == 2 * LowBit(k);
        CoverStep(k, h);
        assert p + LowBit(p) == 2 * (h + LowBit(h));
      } else {
        assert LowBit(m) == 1;
      }
    }
  }

  /** The sum of the frequencies 1 to i. */
  ghost function Prefix(freq: seq<int>, i: nat): int
    requires i < |freq|
  {
    if i == 0 then 0 else Prefix(freq, i - 1) + freq[i]
  }

  lemma {:induction false} PrefixUpdate(freq: seq<int>, p: nat, val: int, i: nat)
    requires 0 < p < |freq| && i < |freq|
    ensures Prefix(freq[p := freq[p] + val], i) == Prefix(freq, i) + if p <= i then val else 0
  {
    if i > 0 {
      PrefixUpdate(freq, p, val, i - 1);
    }
  }

  /** Every node up to size holds the sum of the interval it covers. */
  ghost predicate Tree(bit: seq<int>, freq: seq<int>, size: nat) {
    && |bit| == |freq| == size + 1
    && forall m {:trigger bit[m]} :: 1 <= m <= size ==> bit[m] == Prefix(freq, m) - Prefix(freq, m - LowBit(m))
  }

  ghost predicate Zeros(s: seq<int>) {
    forall k :: 0 <= k < |s| ==> s[k] == 0
  }

  lemma {:induction false} PrefixZero(freq: seq<int>, i: nat)
    requires i < |freq| && Zeros(freq)
    ensures Prefix(freq, i) == 0
  {
    if i > 0 {
      PrefixZero(freq, i - 1);
    }
  }

  lemma EmptyTree(bit: seq<int>, freq: seq<int>, size: nat)
    requires |bit| == |freq| == size + 1 && Zeros(bit) && Zeros(freq)
    ensures Tree(bit, freq, size)
  {
    forall m | 1 <= m <= size ensures bit[m] == Prefix(freq, m) - Prefix(freq, m - LowBit(m)) {
      PrefixZero(freq, m);
      PrefixZero(freq, m - LowBit(m));
    }
  }

  /** Adding val to exactly the nodes that cover p adds it to the frequency of p. */
  lemma CoveringUpdate(bit: seq<int>, bit': seq<int>, freq: seq<int>, size: nat, p: nat, val: int)
    requires Tree(bit, freq, size) && 1 <= p <= size && |bit'| == |bit|
    requires forall m {:trigger bit'[m]} :: 1 <= m <= size ==> bit'[m] == bit[m] + if Covers(m, p) then val else 0
    ensures Tree(bit', freq[p := freq[p] + val], size)
  {
    forall m | 1 <= m <= size
      ensures bit'[m] == Prefix(freq[p := freq[p] + val], m) - Prefix(freq[p := freq[p] + val], m - LowBit(m))
    {
      PrefixUpdate(freq, p, val, m);
      PrefixUpdate(freq, p, val, m - LowBit(m));
      assert bit[m] == Prefix(freq, m) - Prefix(freq, m - LowBit(m));
    }
  }

  /** `update`, from an index in range. */
  method Update(bit: array<int>, start: nat, val: int, size: nat, ghost freq: seq<int>)
    requires 1 <= start <= size && Tree(bit[..], freq, size)
    modifies bit
    ensures Tree(bit[..], freq[start := freq[start] + val], size)
  {
    ghost var before := bit[..];
    var idx := start;
    while idx <= size
      invariant 1 <= idx && bit.Length == size + 1
      invariant forall m :: 1 <= m <= size && Covers(m, idx) ==> Covers(m, start)
      invariant forall m {:trigger bit[m]} :: 1 <= m <= size ==>
        bit[m] == before[m] + if Covers(m, start) && !Covers(m, idx) then val else 0
      decreases size + 1 - idx
    {
      ghost var next := idx + LowBit(idx);
      forall m | 1 <= m <= size ensures Covers(m, idx) <==> m == idx || Covers(m, next) {
        CoverStep(m, idx);
      }
      assert Covers(idx, idx) && !Covers(idx, next);
      bit[idx] := bit[idx] + val;
      idx := idx + LowBit(idx);
    }
    forall m | 1 <= m <= size ensures bit[..][m] == before[m] + if Covers(m, start) then val else 0 {
      assert bit[..][m] == bit[m] && !Covers(m, idx);
    }
    CoveringUpdate(before, bit[..], freq, size, start, val);
  }

  /** `query`: the sum of the frequencies 1 to idx. */
  method Query(bit: array<int>, start: nat, ghost freq: seq<int>, ghost size: nat) returns (sum: int)
    requires start <= size && Tree(bit[..], freq, size)
    ensures sum == Prefix(freq, start)
  {
    sum := 0;
    var idx: nat := start;
    while idx > 0
      invariant idx <= size && sum + Prefix(freq, idx) == Prefix(freq, start)
    {
      assert bit[..][idx] == bit[idx];
      sum := sum + bit[idx];
      idx := idx - LowBit(idx);
    }
  }
}
