// Counting smaller and greater elements with a Fenwick tree over ranks: countSmaller of
// countersmallernumber.c and createSortedArray of createSorted.c.

module OrderCounts {
  import opened Fenwick
  import opened SortedSeq

  const MOD: nat := 1000000007

  /** How many elements of s are less than x. */
  ghost function Less(s: seq<int>, x: int): (c: nat)
    ensures c <= |s|
  {
    if s == [] then 0 else (if s[0] < x then 1 else 0) + Less(s[1..], x)
  }

  ghost function Greater(s: seq<int>, x: int): (c: nat)
    ensures c <= |s|
  {
    if s == [] then 0 else (if s[0] > x then 1 else 0) + Greater(s[1..], x)
  }

  lemma {:induction false} LessConcat(a: seq<int>, b: seq<int>, x: int)
    ensures Less(a + b, x) == Less(a, x) + Less(b, x)
  {
    if a == [] {
      assert a + b == b;
    } else {
      assert (a + b)[1..] == a[1..] + b;
      LessConcat(a[1..], b, x);
    }
  }

  lemma {:induction false} LessAll(s: seq<int>, x: int)
    ensures (forall i :: 0 <= i < |s| ==> s[i] < x) ==> Less(s, x) == |s|
    ensures (forall i :: 0 <= i < |s| ==> s[i] >= x) ==> Less(s, x) == 0
  {
    if s != [] {
      LessAll(s[1..], x);
    }
  }

  /** A smaller element of s has fewer elements of s below it. */
  lemma {:induction false} LessGrows(s: seq<int>, x: int, y: int)
    requires x <= y
    ensures Less(s, x) <= Less(s, y)
    ensures x < y && x in s ==> Less(s, x) < Less(s, y)
  {
    if s != [] {
      LessGrows(s[1..], x, y);
    }
  }

  /** Less and Greater count positions. */
  lemma {:induction false} LessFrom(s: seq<int>, m: nat, x: int)
    requires m <= |s|
    ensures |set j | m <= j < |s| && s[j] < x| == Less(s[m..], x)
    decreases |s| - m
  {
    var here := set j | m <= j < |s| && s[j] < x;
    if m < |s| {
      LessFrom(s, m + 1, x);
      assert s[m..][1..] == s[m + 1..] && s[m..][0] == s[m];
      var rest := set j | m + 1 <= j < |s| && s[j] < x;
      assert here == rest + if s[m] < x then {m} else {};
    } else {
      assert here == {};
    }
  }

  lemma {:induction false} LessUpto(s: seq<int>, m: nat, x: int)
    requires m <= |s|
    ensures |set j | 0 <= j < m && s[j] < x| == Less(s[..m], x)
  {
    var here := set j | 0 <= j < m && s[j] < x;
    if m > 0 {
      var n := m - 1;
      LessUpto(s, n, x);
      assert s[..m] == s[..n] + [s[n]] && [s[n]][1..] == [];
      LessConcat(s[..n], [s[n]], x);
      assert here == (set j | 0 <= j < n && s[j] < x) + if s[n] < x then {n} else {};
    } else {
      assert here == {};
    }
  }

  lemma {:induction false} GreaterUpto(s: seq<int>, m: nat, x: int)
    requires m <= |s|
    ensures |set j | 0 <= j < m && s[j] > x| == Greater(s[..m], x)
  {
    var here := set j | 0 <= j < m && s[j] > x;
    if m > 0 {
      var n := m - 1;
      GreaterUpto(s, n, x);
      assert s[..m] == s[..n] + [s[n]] && [s[n]][1..] == [];
      GreaterConcat(s[..n], [s[n]], x);
      assert here == (set j | 0 <= j < n && s[j] > x) + if s[n] > x then {n} else {};
    } else {
      assert here == {};
    }
  }

  lemma {:induction false} GreaterConcat(a: seq<int>, b: seq<int>, x: int)
    ensures Greater(a + b, x) == Greater(a, x) + Greater(b, x)
  {
    if a == [] {
      assert a + b == b;
    } else {
      assert (a + b)[1..] == a[1..] + b;
      GreaterConcat(a[1..], b, x);
    }
  }

  // ----- ranks -----

  /** The call of `qsort`. */
  method Qsort(a: array<int>)
    modifies a
    ensures Sorted(a[..]) && multiset(a[..]) == multiset(old(a[..]))
  {
    var s: seq<int> := [];
    for i := 0 to a.Length
      invariant a[..] == old(a[..]) && |s| == i && Sorted(s) && multiset(s) == multiset(a[..i])
    {
      InsertSortedAdds(s, a[i]);
      InsertSortedKeepsOrder(s, a[i]);
      s := InsertSorted(s, a[i]);
      assert a[..i + 1] == a[..i] + [a[i]];
    }
    assert a[..a.Length] == a[..];
    forall i | 0 <= i < a.Length {
      a[i] := s[i];
    }
    assert a[..] == s;
  }

  /** The binary search: the number of smaller elements, plus one. */
  method Rank(sorted: array<int>, n: nat, x: int) returns (rank: nat)
    requires n == sorted.Length && Sorted(sorted[..])
    ensures rank == Less(sorted[..], x) + 1
  {
    var left, right, r := 0, n - 1, 0;
    while left <= right
      invariant 0 <= left <= n && -1 <= right < n && r == left && left <= right + 1
      invariant forall k :: 0 <= k < left ==> sorted[k] < x
      invariant forall k :: right < k < n ==> sorted[k] >= x
    {
      var mid := (left + right) / 2;
      assert forall k :: 0 <= k < mid ==> sorted[..][k] <= sorted[..][mid];
      assert forall k :: mid < k < n ==> sorted[..][mid] <= sorted[..][k];
      if sorted[mid] < x {
        forall k | 0 <= k <= mid ensures sorted[k] < x {
          assert k < mid ==> sorted[..][k] <= sorted[..][mid];
        }
        r := mid + 1;
        left := mid + 1;
      } else {
        forall k | mid <= k < n ensures sorted[k] >= x {
          assert k > mid ==> sorted[..][mid] <= sorted[..][k];
        }
        right := mid - 1;
      }
    }
    rank := r + 1;
    RankCounts(sorted[..], left, x);
  }

  lemma RankCounts(s: seq<int>, left: nat, x: int)
    requires left <= |s| && (forall k :: 0 <= k < left ==> s[k] < x) && forall k :: left <= k < |s| ==> s[k] >= x
    ensures Less(s, x) == left
  {
    assert s == s[..left] + s[left..];
    LessConcat(s[..left], s[left..], x);
    LessAll(s[..left], x);
    LessAll(s[left..], x);
  }

  /** The ranks of all elements: the coordinate compression of both programs. */
  method Ranks(nums: array<int>) returns (rank: array<nat>, ghost sorted: seq<int>)
    ensures fresh(rank) && rank.Length == nums.Length == |sorted| && multiset(sorted) == multiset(nums[..])
    ensures forall i :: 0 <= i < rank.Length ==> rank[i] == Less(sorted, nums[i]) + 1
  {
    var a := new int[nums.Length];
    for i := 0 to nums.Length
      invariant a[..i] == nums[..i]
    {
      a[i] := nums[i];
    }
    assert a[..] == a[..nums.Length] && nums[..] == nums[..nums.Length];
    Qsort(a);
    sorted := a[..];
    rank := new nat[nums.Length];
    for i := 0 to nums.Length
      invariant a[..] == sorted
      invariant forall k :: 0 <= k < i ==> rank[k] == Less(sorted, nums[k]) + 1
    {
      var r := Rank(a, nums.Length, nums[i]);
      rank[i] := r;
    }
  }

  // ----- what the tree counts -----

  /** How many elements of s have rank at most k. */
  ghost function RankedUpto(s: seq<int>, sorted: seq<int>, k: int): (c: nat)
    ensures c <= |s|
  {
    if s == [] then 0 else (if Less(sorted, s[0]) + 1 <= k then 1 else 0) + RankedUpto(s[1..], sorted, k)
  }

  lemma {:induction false} RankedConcat(a: seq<int>, b: seq<int>, sorted: seq<int>, k: int)
    ensures RankedUpto(a + b, sorted, k) == RankedUpto(a, sorted, k) + RankedUpto(b, sorted, k)
  {
    if a == [] {
      assert a + b == b;
    } else {
      assert (a + b)[1..] == a[1..] + b;
      RankedConcat(a[1..], b, sorted, k);
    }
  }

  /** Ranks order as values do: what lies below the rank of x is less than x, and what
      does not lie up to it is greater. */
  lemma {:induction false} RanksOrder(s: seq<int>, sorted: seq<int>, x: int)
    requires x in sorted && forall y :: y in s ==> y in sorted
    ensures RankedUpto(s, sorted, Less(sorted, x)) == Less(s, x)
    ensures |s| - RankedUpto(s, sorted, Less(sorted, x) + 1) == Greater(s, x)
  {
    if s != [] {
      assert s[0] in s;
      if s[0] <= x {
        LessGrows(sorted, s[0], x);
      } else {
        LessGrows(sorted, x, s[0]);
      }
      RanksOrder(s[1..], sorted, x);
    }
  }

  /** The tree holds the ranks of the elements of s. */
  ghost predicate Counts(bit: seq<int>, freq: seq<int>, size: nat, s: seq<int>, sorted: seq<int>) {
    && Tree(bit, freq, size)
    && forall k {:trigger Prefix(freq, k)} :: 0 <= k <= size ==> Prefix(freq, k) == RankedUpto(s, sorted, k)
  }

  lemma EmptyCounts(bit: seq<int>, freq: seq<int>, size: nat, s: seq<int>, sorted: seq<int>)
    requires |bit| == |freq| == size + 1 && Zeros(bit) && Zeros(freq) && s == []
    ensures Counts(bit, freq, size, s, sorted)
  {
    EmptyTree(bit, freq, size);
    forall k | 0 <= k <= size ensures Prefix(freq, k) == 0 {
      PrefixZero(freq, k);
    }
  }

  /** One more element x on either side of s. */
  lemma CountsMore(bit: seq<int>, bit': seq<int>, freq: seq<int>, freq': seq<int>, size: nat, s: seq<int>, s': seq<int>,
                   sorted: seq<int>, x: int, r: nat)
    requires Counts(bit, freq, size, s, sorted) && r == Less(sorted, x) + 1 <= size && |freq| == size + 1
    requires (s' == [x] + s || s' == s + [x]) && freq' == freq[r := freq[r] + 1] && Tree(bit', freq', size)
    ensures Counts(bit', freq', size, s', sorted)
  {
    forall k | 0 <= k <= size ensures Prefix(freq', k) == RankedUpto(s', sorted, k) {
      PrefixUpdate(freq, r, 1, k);
      assert Prefix(freq, k) == RankedUpto(s, sorted, k);
      RankedConcat([x], s, sorted, k);
      RankedConcat(s, [x], sorted, k);
      assert [x][1..] == [];
    }
  }

  /** The call of `query` below the rank of x. */
  method CountLess(bit: array<int>, r: nat, size: nat, ghost freq: seq<int>, ghost s: seq<int>, ghost sorted: seq<int>, ghost x: int)
    returns (count: int)
    requires Counts(bit[..], freq, size, s, sorted) && r == Less(sorted, x) + 1 <= size
    requires x in sorted && forall y :: y in s ==> y in sorted
    ensures count == Less(s, x)
  {
    RanksOrder(s, sorted, x);
    count := Query(bit, r - 1, freq, size);
  }

  /** The call of `query` up to the rank of x, taken from the number of elements. */
  method CountGreater(bit: array<int>, r: nat, n: nat, size: nat, ghost freq: seq<int>, ghost s: seq<int>, ghost sorted: seq<int>, ghost x: int)
    returns (count: int)
    requires Counts(bit[..], freq, size, s, sorted) && r == Less(sorted, x) + 1 <= size && n == |s|
    requires x in sorted && forall y :: y in s ==> y in sorted
    ensures count == Greater(s, x)
  {
    RanksOrder(s, sorted, x);
    var upto := Query(bit, r, freq, size);
    count := n - upto;
  }

  /** The call of `update` for one element. */
  method Record(bit: array<int>, r: nat, size: nat, ghost freq: seq<int>, ghost s: seq<int>, ghost s': seq<int>, ghost sorted: seq<int>, ghost x: int)
    returns (ghost freq': seq<int>)
    requires Counts(bit[..], freq, size, s, sorted) && r == Less(sorted, x) + 1 <= size && (s' == [x] + s || s' == s + [x])
    modifies bit
    ensures Counts(bit[..], freq', size, s', sorted)
  {
    ghost var before := bit[..];
    Update(bit, r, 1, size, freq);
    freq' := freq[r := freq[r] + 1];
    CountsMore(before, bit[..], freq, freq', size, s, s', sorted, x, r);
  }

  // ----- countersmallernumber.c -----

  /** `countSmaller`: for each element, how many later ones are smaller. */
  method CountSmaller(nums: array<int>) returns (result: array<int>)
    ensures result.Length == nums.Length
    ensures forall i :: 0 <= i < nums.Length ==> result[i] == Less(nums[i + 1..], nums[i])
    ensures forall i :: 0 <= i < nums.Length ==> result[i] == |set j | i < j < nums.Length && nums[j] < nums[i]|
  {
    result := SmallerCounts(nums);
    forall i | 0 <= i < nums.Length ensures result[i] == |set j | i < j < nums.Length && nums[j] < nums[i]| {
      LessFrom(nums[..], i + 1, nums[i]);
      assert nums[..][i + 1..] == nums[i + 1..];
      assert (set j | i < j < nums.Length && nums[j] < nums[i])
          == (set j | i + 1 <= j < |nums[..]| && nums[..][j] < nums[i]);
    }
  }

  method SmallerCounts(nums: array<int>) returns (result: array<int>)
    ensures result.Length == nums.Length
    ensures forall i :: 0 <= i < nums.Length ==> result[i] == Less(nums[i + 1..], nums[i])
  {
    result := new int[nums.Length];
    if nums.Length == 0 {
      return;
    }
    var rank; ghost var sorted;
    rank, sorted := Ranks(nums);
    var maxRank := nums.Length + 2;
    var bit, size := new int[maxRank](_ => 0), maxRank - 1;
    ghost var all, freq, s := nums[..], seq(maxRank, _ => 0), [];
    EmptyCounts(bit[..], freq, size, s, sorted);
    var i := nums.Length - 1;
    while i >= 0
      invariant -1 <= i < nums.Length && s == all[i + 1..]
      invariant forall k :: 0 <= k < |all| ==> rank[k] == Less(sorted, all[k]) + 1
      invariant Counts(bit[..], freq, size, s, sorted)
      invariant forall k :: i < k < |all| ==> result[k] == Less(all[k + 1..], all[k])
    {
      Around(all, sorted, i);
      ghost var x := all[i];
      var r, count := rank[i], 0;
      count, freq, s := CountAndRecord(bit, r, size, freq, s, sorted, x);
      result[i] := count;
      i := i - 1;
    }
  }

  /** The body of the loop of `countSmaller`. */
  method CountAndRecord(bit: array<int>, r: nat, size: nat, ghost freq: seq<int>, ghost s: seq<int>, ghost sorted: seq<int>, ghost x: int)
    returns (count: int, ghost freq': seq<int>, ghost s': seq<int>)
    requires Counts(bit[..], freq, size, s, sorted) && r == Less(sorted, x) + 1 <= size
    requires x in sorted && forall y :: y in s ==> y in sorted
    modifies bit
    ensures s' == [x] + s && Counts(bit[..], freq', size, s', sorted) && count == Less(s, x)
  {
    count := CountLess(bit, r, size, freq, s, sorted, x);
    s' := [x] + s;
    freq' := Record(bit, r, size, freq, s, s', sorted, x);
  }

  lemma Around(nums: seq<int>, sorted: seq<int>, i: nat)
    requires i < |nums| && multiset(sorted) == multiset(nums)
    ensures nums[i] in sorted && (forall y :: y in nums[i + 1..] ==> y in sorted) && (forall y :: y in nums[..i] ==> y in sorted)
    ensures nums[i..] == [nums[i]] + nums[i + 1..] && nums[..i + 1] == nums[..i] + [nums[i]]
  {
    forall y | y in nums ensures y in sorted {
      assert y in multiset(nums);
    }
  }

  // ----- createSorted.c -----

  ghost function Lesser(s: seq<int>, x: int): nat {
    if Less(s, x) < Greater(s, x) then Less(s, x) else Greater(s, x)
  }

  /** What inserting the first n elements costs: each the lesser of the numbers of smaller
      and of greater elements before it. */
  ghost function Cost(nums: seq<int>, n: nat): nat
    requires n <= |nums|
  {
    if n == 0 then 0 else Cost(nums, n - 1) + Lesser(nums[..n - 1], nums[n - 1])
  }

  /** The n-th element costs the lesser of the numbers of positions before it with smaller
      and with greater elements. */
  lemma CostOfOne(nums: seq<int>, n: nat)
    requires n < |nums|
    ensures var less, greater := (set j | 0 <= j < n && nums[j] < nums[n]), (set j | 0 <= j < n && nums[j] > nums[n]);
      Cost(nums, n + 1) - Cost(nums, n) == if |less| < |greater| then |less| else |greater|
  {
    LessUpto(nums, n, nums[n]);
    GreaterUpto(nums, n, nums[n]);
  }

  /** `createSortedArray` */
  method CreateSortedArray(instructions: array<int>) returns (cost: int)
    ensures cost == Cost(instructions[..], instructions.Length) % MOD
    ensures 0 <= cost < 1_000_000_007
    ensures Cost(instructions[..], instructions.Length) < 1_000_000_007 ==> cost == Cost(instructions[..], instructions.Length)
  {
    if instructions.Length == 0 {
      return 0;
    }
    var rank; ghost var sorted;
    rank, sorted := Ranks(instructions);
    var maxRank := instructions.Length + 2;
    var bit, size := new int[maxRank](_ => 0), maxRank - 1;
    ghost var all, freq, s := instructions[..], seq(maxRank, _ => 0), [];
    EmptyCounts(bit[..], freq, size, s, sorted);
    cost := 0;
    for i := 0 to instructions.Length
      invariant s == all[..i]
      invariant forall k :: 0 <= k < |all| ==> rank[k] == Less(sorted, all[k]) + 1
      invariant Counts(bit[..], freq, size, s, sorted)
      invariant cost == Cost(all, i) % MOD
    {
      Around(all, sorted, i);
      ghost var x := all[i];
      var r := rank[i];
      cost, freq, s := CostAndRecord(bit, r, i, size, cost, freq, s, sorted, x, Cost(all, i));
    }
  }

  /** The body of the loop of `createSortedArray`. */
  method CostAndRecord(bit: array<int>, r: nat, i: nat, size: nat, cost: int,
                       ghost freq: seq<int>, ghost s: seq<int>, ghost sorted: seq<int>, ghost x: int, ghost total: nat)
    returns (cost': int, ghost freq': seq<int>, ghost s': seq<int>)
    requires Counts(bit[..], freq, size, s, sorted) && r == Less(sorted, x) + 1 <= size && i == |s|
    requires x in sorted && (forall y :: y in s ==> y in sorted) && cost == total % MOD
    modifies bit
    ensures s' == s + [x] && Counts(bit[..], freq', size, s', sorted) && cost' == (total + Lesser(s, x)) % MOD
  {
    var leftCount := CountLess(bit, r, size, freq, s, sorted, x);
    var rightCount := CountGreater(bit, r, i, size, freq, s, sorted, x);
    cost' := (cost + if leftCount < rightCount then leftCount else rightCount) % MOD;
    s' := s + [x];
    freq' := Record(bit, r, size, freq, s, s', sorted, x);
  }
}
