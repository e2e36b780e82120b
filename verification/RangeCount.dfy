// countRange.c: counting, while merge sorting prefix sums, the pairs whose difference lies
// in a range.

module RangeCount {
  import opened SortedSeq

  // ----- what is counted -----

  /** How many elements of s lie between lo and hi. */
  ghost function In(s: seq<int>, lo: int, hi: int): nat {
    if s == [] then 0 else (if lo <= s[0] <= hi then 1 else 0) + In(s[1..], lo, hi)
  }

  /** Pairs of an element of a and one of b, with difference in range. */
  ghost function Cross(a: seq<int>, b: seq<int>, lower: int, upper: int): nat {
    if a == [] then 0 else In(b, a[0] + lower, a[0] + upper) + Cross(a[1..], b, lower, upper)
  }

  /** Pairs of an element of s and a later one, with difference in range. */
  ghost function Pairs(s: seq<int>, lower: int, upper: int): nat {
    if s == [] then 0 else In(s[1..], s[0] + lower, s[0] + upper) + Pairs(s[1..], lower, upper)
  }

  lemma {:induction false} InConcat(a: seq<int>, b: seq<int>, lo: int, hi: int)
    ensures In(a + b, lo, hi) == In(a, lo, hi) + In(b, lo, hi)
  {
    if a == [] {
      assert a + b == b;
    } else {
      assert (a + b)[1..] == a[1..] + b;
      InConcat(a[1..], b, lo, hi);
    }
  }

  lemma {:induction false} CrossConcat(a: seq<int>, a': seq<int>, b: seq<int>, lower: int, upper: int)
    ensures Cross(a + a', b, lower, upper) == Cross(a, b, lower, upper) + Cross(a', b, lower, upper)
  {
    if a == [] {
      assert a + a' == a';
    } else {
      assert (a + a')[1..] == a[1..] + a';
      CrossConcat(a[1..], a', b, lower, upper);
    }
  }

  /** Splitting the sequence splits the pairs. */
  lemma {:induction false} PairsConcat(a: seq<int>, b: seq<int>, lower: int, upper: int)
    ensures Pairs(a + b, lower, upper) == Pairs(a, lower, upper) + Pairs(b, lower, upper) + Cross(a, b, lower, upper)
  {
    if a == [] {
      assert a + b == b;
    } else {
      assert (a + b)[1..] == a[1..] + b;
      InConcat(a[1..], b, a[0] + lower, a[0] + upper);
      PairsConcat(a[1..], b, lower, upper);
    }
  }

  /** Taking out one occurrence of an element. */
  lemma TakeOut(s: seq<int>, x: int) returns (a: seq<int>, b: seq<int>)
    requires x in multiset(s)
    ensures s == a + ([x] + b) && multiset(a + b) == multiset(s) - multiset{x}
  {
    var k :| 0 <= k < |s| && s[k] == x;
    a, b := s[..k], s[k + 1..];
    assert s == a + ([x] + b);
  }

  lemma InMiddle(a: seq<int>, x: int, b: seq<int>, lo: int, hi: int)
    ensures In(a + ([x] + b), lo, hi) == In(a + b, lo, hi) + if lo <= x <= hi then 1 else 0
  {
    InConcat(a, [x] + b, lo, hi);
    InConcat(a, b, lo, hi);
    assert ([x] + b)[1..] == b;
  }

  /** The order does not matter. */
  lemma {:induction false} InPermuted(s: seq<int>, t: seq<int>, lo: int, hi: int)
    requires multiset(s) == multiset(t)
    ensures In(s, lo, hi) == In(t, lo, hi)
  {
    if s == [] {
      assert |t| == |multiset(t)|;
    } else {
      TailCounts(s);
      assert s[0] in multiset(s);
      var a, b := TakeOut(t, s[0]);
      InPermuted(s[1..], a + b, lo, hi);
      InMiddle(a, s[0], b, lo, hi);
    }
  }

  lemma {:induction false} CrossPermutedRight(a: seq<int>, b: seq<int>, b': seq<int>, lower: int, upper: int)
    requires multiset(b) == multiset(b')
    ensures Cross(a, b, lower, upper) == Cross(a, b', lower, upper)
  {
    if a != [] {
      InPermuted(b, b', a[0] + lower, a[0] + upper);
      CrossPermutedRight(a[1..], b, b', lower, upper);
    }
  }

  lemma CrossMiddle(a: seq<int>, x: int, b: seq<int>, r: seq<int>, lower: int, upper: int)
    ensures Cross(a + ([x] + b), r, lower, upper) == Cross(a + b, r, lower, upper) + In(r, x + lower, x + upper)
  {
    CrossConcat(a, [x] + b, r, lower, upper);
    CrossConcat(a, b, r, lower, upper);
    assert ([x] + b)[1..] == b;
  }

  lemma {:induction false} CrossPermutedLeft(s: seq<int>, t: seq<int>, r: seq<int>, lower: int, upper: int)
    requires multiset(s) == multiset(t)
    ensures Cross(s, r, lower, upper) == Cross(t, r, lower, upper)
  {
    if s == [] {
      assert |t| == |multiset(t)|;
    } else {
      TailCounts(s);
      assert s[0] in multiset(s);
      var a, b := TakeOut(t, s[0]);
      CrossPermutedLeft(s[1..], a + b, r, lower, upper);
      CrossMiddle(a, s[0], b, r, lower, upper);
    }
  }

  lemma {:induction false} InAll(s: seq<int>, lo: int, hi: int)
    ensures (forall i :: 0 <= i < |s| ==> lo <= s[i] <= hi) ==> In(s, lo, hi) == |s|
    ensures (forall i :: 0 <= i < |s| ==> !(lo <= s[i] <= hi)) ==> In(s, lo, hi) == 0
  {
    if s != [] {
      InAll(s[1..], lo, hi);
    }
  }

  lemma InCuts(p: seq<int>, m: seq<int>, q: seq<int>, lo: int, hi: int)
    requires (forall i :: 0 <= i < |p| ==> p[i] < lo) && (forall i :: 0 <= i < |q| ==> q[i] > hi)
    requires forall i :: 0 <= i < |m| ==> lo <= m[i] <= hi
    ensures In(p + (m + q), lo, hi) == |m|
  {
    InConcat(p, m + q, lo, hi);
    InConcat(m, q, lo, hi);
    InAll(p, lo, hi);
    InAll(m, lo, hi);
    InAll(q, lo, hi);
  }

  /** In a sorted sequence the elements in range lie between two cuts. */
  lemma InSorted(s: seq<int>, lo: int, hi: int, k: nat, j: nat)
    requires Sorted(s) && lo <= hi && k <= |s| && j <= |s|
    requires (forall i :: 0 <= i < k ==> s[i] < lo) && (k < |s| ==> s[k] >= lo)
    requires (forall i :: 0 <= i < j ==> s[i] <= hi) && (j < |s| ==> s[j] > hi)
    ensures k <= j && In(s, lo, hi) == j - k
  {
    forall i | j <= i < |s| ensures s[i] > hi {
      assert s[j] <= s[i];
    }
    forall i | k <= i < |s| ensures s[i] >= lo {
      assert s[k] <= s[i];
    }
    Cuts(s, k, j);
    InCuts(s[..k], s[k..j], s[j..], lo, hi);
  }

  lemma Cuts(s: seq<int>, k: nat, j: nat)
    requires k <= j <= |s|
    ensures s == s[..k] + (s[k..j] + s[j..])
  {
  }

  // ----- the program -----

  /** s and t agree outside a range. */
  ghost predicate SameOutside(s: seq<int>, t: seq<int>, left: nat, right: nat) {
    |s| == |t| && forall l :: 0 <= l < |s| && !(left <= l < right) ==> s[l] == t[l]
  }

  lemma SameSlice(s: seq<int>, t: seq<int>, i: nat, j: nat)
    requires |s| == |t| && i <= j <= |s| && forall l :: i <= l < j ==> s[l] == t[l]
    ensures s[i..j] == t[i..j]
  {
  }

  lemma SliceSplit(s: seq<int>, left: nat, mid: nat, right: nat)
    requires left <= mid <= right <= |s|
    ensures s[left..right] == s[left..mid] + s[mid..right]
  {
  }

  /** What the two recursive calls leave to be counted and merged. */
  lemma Halves(s0: seq<int>, s1: seq<int>, s2: seq<int>, left: nat, mid: nat, right: nat, lower: int, upper: int)
    requires left <= mid <= right <= |s0| && SameOutside(s0, s1, left, mid) && SameOutside(s1, s2, mid, right)
    requires multiset(s1[left..mid]) == multiset(s0[left..mid]) && multiset(s2[mid..right]) == multiset(s1[mid..right])
    ensures s2[left..mid] == s1[left..mid]
    ensures Pairs(s0[left..right], lower, upper)
         == Pairs(s0[left..mid], lower, upper) + Pairs(s1[mid..right], lower, upper)
            + Cross(s2[left..mid], s2[mid..right], lower, upper)
    ensures multiset(s2[left..mid]) + multiset(s2[mid..right]) == multiset(s0[left..right])
  {
    SliceSplit(s0, left, mid, right);
    SameSlice(s0, s1, mid, right);
    SameSlice(s1, s2, left, mid);
    PairsConcat(s0[left..mid], s0[mid..right], lower, upper);
    CrossPermutedLeft(s0[left..mid], s2[left..mid], s0[mid..right], lower, upper);
    CrossPermutedRight(s2[left..mid], s0[mid..right], s2[mid..right], lower, upper);
  }

  lemma ShortSegment(s: seq<int>, lower: int, upper: int)
    requires |s| <= 1
    ensures Sorted(s) && Pairs(s, lower, upper) == 0
  {
    if |s| == 1 {
      assert s[1..] == [];
    }
  }

  /** `countWhileMergeSort` */
  method CountWhileMergeSort(sums: array<int>, left: nat, right: nat, lower: int, upper: int) returns (count: int)
    requires left <= right <= sums.Length && lower <= upper
    modifies sums
    ensures count == Pairs(old(sums[..])[left..right], lower, upper)
    ensures Sorted(sums[..][left..right]) && multiset(sums[..][left..right]) == multiset(old(sums[..])[left..right])
    ensures SameOutside(old(sums[..]), sums[..], left, right)
    decreases right - left
  {
    ghost var s0 := sums[..];
    if right - left <= 1 {
      ShortSegment(s0[left..right], lower, upper);
      return 0;
    }
    var mid := (left + right) / 2;
    var count1 := CountWhileMergeSort(sums, left, mid, lower, upper);
    ghost var s1 := sums[..];
    var count2 := CountWhileMergeSort(sums, mid, right, lower, upper);
    ghost var s2 := sums[..];
    Halves(s0, s1, s2, left, mid, right, lower, upper);
    var cross := CountAndMerge(sums, left, mid, right, lower, upper);
    return count1 + count2 + cross;
  }

  // ----- merging -----

  /** The cache c holds, in order, the first i elements of a and the first t of b, and
      nothing still to come is smaller. */
  ghost predicate Merging(c: seq<int>, a: seq<int>, b: seq<int>, i: nat, t: nat) {
    && Sorted(a) && Sorted(b) && i <= |a| && t <= |b| && |c| == i + t && Sorted(c)
    && multiset(c) == multiset(a[..i]) + multiset(b[..t])
    && (i < |a| ==> Upto(c, a[i])) && (t < |b| ==> Upto(c, b[t]))
  }

  ghost predicate Upto(c: seq<int>, x: int) {
    forall k :: 0 <= k < |c| ==> c[k] <= x
  }

  lemma MergeBegins(a: seq<int>, b: seq<int>)
    requires Sorted(a) && Sorted(b)
    ensures Merging([], a, b, 0, 0)
  {
  }

  lemma SortedJoin(c: seq<int>, m: seq<int>)
    requires Sorted(c) && Sorted(m) && (m != [] ==> Upto(c, m[0]))
    ensures Sorted(c + m)
  {
    var s := c + m;
    forall k, l | 0 <= k < l < |s| ensures s[k] <= s[l] {
      if l >= |c| {
        assert s[l] == m[l - |c|] && m[0] <= m[l - |c|];
        assert k >= |c| ==> s[k] == m[k - |c|];
      }
    }
  }

  lemma UptoJoin(c: seq<int>, m: seq<int>, x: int)
    requires Upto(c, x) && Upto(m, x)
    ensures Upto(c + m, x)
  {
  }

  lemma SliceSorted(s: seq<int>, i: nat, j: nat)
    requires Sorted(s) && i <= j <= |s|
    ensures Sorted(s[i..j])
  {
  }

  lemma MoreCounted(s: seq<int>, i: nat, j: nat)
    requires i <= j <= |s|
    ensures multiset(s[..j]) == multiset(s[..i]) + multiset(s[i..j])
  {
    assert s[..j] == s[..i] + s[i..j];
  }

  /** First the smaller elements of b, then the next of a. */
  lemma MergeStep(c: seq<int>, a: seq<int>, b: seq<int>, i: nat, t: nat, i': nat, t': nat, c': seq<int>)
    requires Merging(c, a, b, i, t) && i' == i + 1 && i < |a| && t <= t' <= |b|
    requires (forall k :: t <= k < t' ==> b[k] < a[i]) && (t' < |b| ==> b[t'] >= a[i])
    requires c' == (c + b[t..t']) + [a[i]]
    ensures Merging(c', a, b, i', t')
  {
    SliceSorted(b, t, t');
    SortedJoin(c, b[t..t']);
    assert Upto(b[t..t'], a[i]);
    UptoJoin(c, b[t..t'], a[i]);
    MergeStepEnds(c + b[t..t'], a, b, i, t');
    MergeStepCounts(c, a, b, i, t, t');
  }

  lemma MergeStepEnds(cm: seq<int>, a: seq<int>, b: seq<int>, i: nat, t': nat)
    requires Sorted(cm) && i < |a| && Upto(cm, a[i]) && Sorted(a) && t' <= |b| && (t' < |b| ==> b[t'] >= a[i])
    ensures Sorted(cm + [a[i]])
    ensures (i + 1 < |a| ==> Upto(cm + [a[i]], a[i + 1])) && (t' < |b| ==> Upto(cm + [a[i]], b[t']))
  {
    SortedJoin(cm, [a[i]]);
    UptoJoin(cm, [a[i]], a[i]);
    assert i + 1 < |a| ==> a[i] <= a[i + 1];
  }

  lemma MergeStepCounts(c: seq<int>, a: seq<int>, b: seq<int>, i: nat, t: nat, t': nat)
    requires i < |a| && t <= t' <= |b| && multiset(c) == multiset(a[..i]) + multiset(b[..t])
    ensures multiset((c + b[t..t']) + [a[i]]) == multiset(a[..i + 1]) + multiset(b[..t'])
  {
    MoreCounted(a, i, i + 1);
    assert a[i..i + 1] == [a[i]];
    MoreCounted(b, t, t');
  }

  /** When a is used up, what is left of b follows. */
  lemma MergeEnds(c: seq<int>, a: seq<int>, b: seq<int>, i: nat, t: nat)
    requires Merging(c, a, b, i, t) && i == |a| && t <= |b|
    ensures Sorted(c + b[t..]) && multiset(c + b[t..]) == multiset(a) + multiset(b)
  {
    SliceSorted(b, t, |b|);
    assert b[t..|b|] == b[t..] && b[..|b|] == b && a[..|a|] == a;
    SortedJoin(c, b[t..]);
    MoreCounted(b, t, |b|);
  }

  /** w is what s holds from a position on. */
  ghost predicate Window(s: seq<int>, from: nat, w: seq<int>) {
    from + |w| <= |s| && forall l {:trigger w[l]} :: 0 <= l < |w| ==> w[l] == s[from + l]
  }

  /** The loops over k and j for one i. */
  method Advance(sums: array<int>, mid: nat, right: nat, x: int, lower: int, upper: int, k0: nat, j0: nat, ghost b: seq<int>)
    returns (k: nat, j: nat)
    requires mid <= k0 <= right && mid <= j0 <= right <= sums.Length && lower <= upper
    requires Window(sums[..], mid, b) && |b| == right - mid && Sorted(b)
    requires forall l :: 0 <= l < k0 - mid ==> b[l] < x + lower
    requires forall l :: 0 <= l < j0 - mid ==> b[l] <= x + upper
    ensures mid <= k <= j <= right && j - k == In(b, x + lower, x + upper)
    ensures forall l :: 0 <= l < k - mid ==> b[l] < x + lower
    ensures forall l :: 0 <= l < j - mid ==> b[l] <= x + upper
  {
    k, j := k0, j0;
    while k < right && sums[k] - x < lower
      invariant k0 <= k <= right
      invariant forall l :: 0 <= l < k - mid ==> b[l] < x + lower
    {
      assert b[k - mid] == sums[k];
      k := k + 1;
    }
    while j < right && sums[j] - x <= upper
      invariant j0 <= j <= right
      invariant forall l :: 0 <= l < j - mid ==> b[l] <= x + upper
    {
      assert b[j - mid] == sums[j];
      j := j + 1;
    }
    assert k < right ==> b[k - mid] == sums[k];
    assert j < right ==> b[j - mid] == sums[j];
    InSorted(b, x + lower, x + upper, k - mid, j - mid);
  }

  /** The loop over t for one i: the smaller elements of the right half go to the cache. */
  method TakeSmaller(sums: array<int>, cache: array<int>, mid: nat, right: nat, x: int, t0: nat, r0: nat,
                     ghost b: seq<int>, ghost c: seq<int>) returns (t: nat, r: nat, ghost c': seq<int>)
    requires mid <= t0 <= right <= sums.Length && r0 + (right - t0) <= cache.Length && sums != cache
    requires Window(sums[..], mid, b) && |b| == right - mid && Window(cache[..], 0, c) && |c| == r0
    modifies cache
    ensures t0 <= t <= right && r == r0 + (t - t0) && Window(cache[..], 0, c') && c' == c + b[t0 - mid..t - mid]
    ensures (forall k :: t0 - mid <= k < t - mid ==> b[k] < x) && (t < right ==> b[t - mid] >= x)
  {
    t, r, c' := t0, r0, c;
    while t < right && sums[t] < x
      invariant t0 <= t <= right && r == r0 + (t - t0) && |c'| == r
      invariant Window(cache[..], 0, c') && c' == c + b[t0 - mid..t - mid]
      invariant forall k :: t0 - mid <= k < t - mid ==> b[k] < x
    {
      assert b[t - mid] == sums[t];
      c' := PushBack(cache, r, sums[t], c');
      r := r + 1;
      t := t + 1;
    }
    assert t < right ==> b[t - mid] == sums[t];
  }

  method PushBack(cache: array<int>, r: nat, x: int, ghost c: seq<int>) returns (ghost c': seq<int>)
    requires r < cache.Length && |c| == r && Window(cache[..], 0, c)
    modifies cache
    ensures c' == c + [x] && Window(cache[..], 0, c')
  {
    forall l | 0 <= l < |c| ensures c[l] == cache[l] {
      assert c[l] == cache[..][l];
    }
    cache[r] := x;
    c' := c + [x];
  }

  /** The part of the loop body that merges. */
  method MergeOne(sums: array<int>, cache: array<int>, i: nat, mid: nat, right: nat, t0: nat, r0: nat,
                  ghost a: seq<int>, ghost b: seq<int>, ghost n: nat, ghost n': nat, ghost u0: nat, ghost c: seq<int>)
    returns (t: nat, r: nat, ghost u: nat, ghost c': seq<int>)
    requires i < mid <= t0 <= right <= sums.Length && r0 + 1 + (right - t0) <= cache.Length && sums != cache
    requires n < |a| && sums[i] == a[n] && Window(sums[..], mid, b) && |b| == right - mid
    requires n' == n + 1 && u0 == t0 - mid && Window(cache[..], 0, c) && |c| == r0 && Merging(c, a, b, n, u0)
    modifies cache
    ensures t0 <= t <= right && r == r0 + 1 + (t - t0) == |c'|
    ensures u == t - mid && Window(cache[..], 0, c') && Merging(c', a, b, n', u)
  {
    t, r, c' := TakeSmaller(sums, cache, mid, right, sums[i], t0, r0, b, c);
    u := t - mid;
    c' := PushBack(cache, r, sums[i], c');
    r := r + 1;
    MergeStep(c, a, b, n, u0, n', u, c');
  }

  /** The loop over the left half. */
  method FillCache(sums: array<int>, left: nat, mid: nat, right: nat, lower: int, upper: int, ghost a: seq<int>, ghost b: seq<int>)
    returns (count: int, cache: array<int>, t: nat, ghost c: seq<int>, ghost n: nat, ghost u: nat)
    requires left <= mid <= right <= sums.Length && lower <= upper
    requires Window(sums[..], left, a) && Window(sums[..], mid, b) && |a| == mid - left && |b| == right - mid
    requires Sorted(a) && Sorted(b)
    ensures count == Cross(a, b, lower, upper)
    ensures fresh(cache) && mid <= t <= right && t - left <= cache.Length
    ensures n == |a| && u == t - mid && |c| == t - left && Window(cache[..], 0, c) && Merging(c, a, b, n, u)
  {
    cache := new int[right - left];
    count, t := 0, mid;
    var k, j, r := mid, mid, 0;
    MergeBegins(a, b);
    c, n, u := [], 0, 0;
    for i := left to mid
      invariant mid <= k <= right && mid <= j <= right && mid <= t <= right && r == (i - left) + (t - mid)
      invariant n == i - left && u == t - mid
      invariant i < mid ==> forall l :: 0 <= l < k - mid ==> b[l] < a[n] + lower
      invariant i < mid ==> forall l :: 0 <= l < j - mid ==> b[l] <= a[n] + upper
      invariant count == Cross(a[..n], b, lower, upper)
      invariant |c| == r && Window(cache[..], 0, c) && Merging(c, a, b, n, u)
    {
      assert sums[i] == a[n];
      k, j := Advance(sums, mid, right, sums[i], lower, upper, k, j, b);
      count := count + (j - k);
      CrossMore(a, n, b, lower, upper);
      ghost var n' := n + 1;
      t, r, u, c := MergeOne(sums, cache, i, mid, right, t, r, a, b, n, n', u, c);
      n := n';
      assert n < |a| ==> a[n - 1] <= a[n];
    }
    assert a == a[..n];
  }

  lemma CrossMore(a: seq<int>, i: nat, b: seq<int>, lower: int, upper: int)
    requires i < |a|
    ensures Cross(a[..i + 1], b, lower, upper) == Cross(a[..i], b, lower, upper) + In(b, a[i] + lower, a[i] + upper)
  {
    assert a[..i + 1] == a[..i] + [a[i]];
    CrossConcat(a[..i], [a[i]], b, lower, upper);
    assert [a[i]][1..] == [];
  }

  /** The loop that copies the cache back: only up to t. */
  method CopyBack(sums: array<int>, left: nat, cache: array<int>, n: nat, ghost s: seq<int>, ghost c: seq<int>)
    requires left + n <= sums.Length && n <= cache.Length && sums != cache && sums[..] == s
    requires |c| == n && Window(cache[..], 0, c)
    modifies sums
    ensures |sums[..]| == |s| && forall l :: 0 <= l < |s| ==> sums[..][l] == if left <= l < left + n then c[l - left] else s[l]
  {
    for i := 0 to n
      invariant forall l :: 0 <= l < |s| ==> sums[l] == if left <= l < left + i then c[l - left] else s[l]
    {
      assert c[i] == cache[..][i];
      sums[left + i] := cache[i];
    }
  }

  method CountAndMerge(sums: array<int>, left: nat, mid: nat, right: nat, lower: int, upper: int) returns (count: int)
    requires left <= mid <= right <= sums.Length && lower <= upper
    requires Sorted(sums[..][left..mid]) && Sorted(sums[..][mid..right])
    modifies sums
    ensures count == Cross(old(sums[..])[left..mid], old(sums[..])[mid..right], lower, upper)
    ensures Sorted(sums[..][left..right])
    ensures multiset(sums[..][left..right]) == multiset(old(sums[..])[left..mid]) + multiset(old(sums[..])[mid..right])
    ensures SameOutside(old(sums[..]), sums[..], left, right)
  {
    ghost var s := sums[..];
    ghost var a, b := s[left..mid], s[mid..right];
    var cache, t; ghost var c, n, u;
    count, cache, t, c, n, u := FillCache(sums, left, mid, right, lower, upper, a, b);
    MergeEnds(c, a, b, n, u);
    PutBack(sums, left, mid, right, cache, t, s, c, b, u);
  }

  method PutBack(sums: array<int>, left: nat, mid: nat, right: nat, cache: array<int>, t: nat,
                 ghost s: seq<int>, ghost c: seq<int>, ghost b: seq<int>, ghost u: nat)
    requires left <= mid <= t <= right <= sums.Length && t - left <= cache.Length && sums != cache
    requires sums[..] == s && |c| == t - left && Window(cache[..], 0, c) && b == s[mid..right] && u == t - mid
    modifies sums
    ensures sums[..][left..right] == c + b[u..] && SameOutside(s, sums[..], left, right)
  {
    CopyBack(sums, left, cache, t - left, s, c);
    Copied(s, sums[..], c, left, mid, right, t);
  }

  /** The copied cache and the untouched rest of the right half make up the segment. */
  lemma Copied(s: seq<int>, s': seq<int>, c: seq<int>, left: nat, mid: nat, right: nat, t: nat)
    requires left <= mid <= t <= right <= |s| && |c| == t - left && |s'| == |s|
    requires forall l :: 0 <= l < |s| ==> s'[l] == if left <= l < t then c[l - left] else s[l]
    ensures s'[left..right] == c + s[mid..right][t - mid..] && SameOutside(s, s', left, right)
  {
    forall l | left <= l < right ensures s'[l] == (c + s[mid..right][t - mid..])[l - left] {
    }
  }

  // ----- pairs of indices, and sums of ranges -----

  /** The pairs (k, j) with j >= m and difference in range. */
  ghost function Row(p: seq<int>, k: nat, m: nat, lower: int, upper: int): set<(int, int)>
    requires k < |p|
  {
    set j | m <= j < |p| && lower <= p[j] - p[k] <= upper :: (k, j)
  }

  /** The pairs (i, j) with k <= i < j and difference in range. */
  ghost function PairSet(p: seq<int>, k: nat, lower: int, upper: int): set<(int, int)> {
    set i, j | k <= i < j < |p| && lower <= p[j] - p[i] <= upper :: (i, j)
  }

  lemma {:induction false} RowSize(p: seq<int>, k: nat, m: nat, lower: int, upper: int)
    requires k < |p| && m <= |p|
    ensures |Row(p, k, m, lower, upper)| == In(p[m..], p[k] + lower, p[k] + upper)
    decreases |p| - m
  {
    if m < |p| {
      RowSize(p, k, m + 1, lower, upper);
      assert p[m..][1..] == p[m + 1..] && p[m..][0] == p[m];
      assert In(p[m..], p[k] + lower, p[k] + upper)
          == (if lower <= p[m] - p[k] <= upper then 1 else 0) + In(p[m + 1..], p[k] + lower, p[k] + upper);
      var rest := Row(p, k, m + 1, lower, upper);
      if lower <= p[m] - p[k] <= upper {
        assert Row(p, k, m, lower, upper) == rest + {(k, m)};
      } else {
        assert Row(p, k, m, lower, upper) == rest;
      }
    } else {
      assert Row(p, k, m, lower, upper) == {};
    }
  }

  lemma PairSetSplit(p: seq<int>, k: nat, lower: int, upper: int)
    requires k < |p|
    ensures |PairSet(p, k, lower, upper)| == |Row(p, k, k + 1, lower, upper)| + |PairSet(p, k + 1, lower, upper)|
  {
    var row, rest := Row(p, k, k + 1, lower, upper), PairSet(p, k + 1, lower, upper);
    assert PairSet(p, k, lower, upper) == row + rest;
    assert row !! rest;
  }

  lemma PairsStep(p: seq<int>, k: nat, lower: int, upper: int)
    requires k < |p|
    ensures Pairs(p[k..], lower, upper) == In(p[k + 1..], p[k] + lower, p[k] + upper) + Pairs(p[k + 1..], lower, upper)
  {
    assert p[k..][1..] == p[k + 1..];
  }

  /** `Pairs` counts pairs of indices. */
  lemma {:induction false} PairSetSize(p: seq<int>, k: nat, lower: int, upper: int)
    requires k <= |p|
    ensures |PairSet(p, k, lower, upper)| == Pairs(p[k..], lower, upper)
    decreases |p| - k
  {
    if k < |p| {
      PairSetSize(p, k + 1, lower, upper);
      RowSize(p, k, k + 1, lower, upper);
      PairSetSplit(p, k, lower, upper);
      PairsStep(p, k, lower, upper);
    } else {
      assert PairSet(p, k, lower, upper) == {};
    }
  }

  /** The sum of s[i..j]. */
  ghost function Sum(s: seq<int>, i: nat, j: nat): int
    requires j <= |s|
  {
    if j <= i then 0 else Sum(s, i, j - 1) + s[j - 1]
  }

  /** The ranges of s whose sum lies between lower and upper. */
  ghost function RangesWithin(s: seq<int>, lower: int, upper: int): set<(int, int)> {
    set i, j | 0 <= i < j <= |s| && lower <= Sum(s, i, j) <= upper :: (i, j)
  }

  lemma {:induction false} SumSplits(s: seq<int>, i: nat, j: nat)
    requires i <= j <= |s|
    ensures Sum(s, i, j) == Sum(s, 0, j) - Sum(s, 0, i)
  {
    if i < j {
      SumSplits(s, i, j - 1);
    }
  }

  lemma RangesArePairs(s: seq<int>, p: seq<int>, lower: int, upper: int)
    requires |p| == |s| + 1 && forall i :: 0 <= i <= |s| ==> p[i] == Sum(s, 0, i)
    ensures RangesWithin(s, lower, upper) == PairSet(p, 0, lower, upper)
  {
    forall i, j | 0 <= i < j <= |s| ensures Sum(s, i, j) == p[j] - p[i] {
      SumSplits(s, i, j);
    }
  }

  /** `countRangeSum`: how many ranges of nums have a sum between lower and upper. */
  method CountRangeSum(nums: array<int>, lower: int, upper: int) returns (result: int)
    requires lower <= upper
    ensures result == |RangesWithin(nums[..], lower, upper)|
  {
    var sums := new int[nums.Length + 1];
    sums[0] := 0;
    for i := 0 to nums.Length
      invariant forall k :: 0 <= k <= i ==> sums[k] == Sum(nums[..], 0, k)
    {
      sums[i + 1] := sums[i] + nums[i];
    }
    ghost var p := sums[..];
    RangesArePairs(nums[..], p, lower, upper);
    PairSetSize(p, 0, lower, upper);
    assert p[0..] == p == p[0..|p|];
    result := CountWhileMergeSort(sums, 0, nums.Length + 1, lower, upper);
  }
}
