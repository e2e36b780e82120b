// Optional values, and facts about sequences that the proofs use by name.

module SeqFacts {

  datatype Option<+T> = None | Some(value: T)

  /** The object at position i, or null outside the sequence: how the nodes of a linked list
      point to their neighbours. */
  ghost function At(s: seq<object>, i: int): object? {
    if 0 <= i < |s| then s[i] else null
  }

  lemma PrefixStep<T>(s: seq<T>, i: nat)
    requires i < |s|
    ensures s[..i + 1] == s[..i] + [s[i]]
  {
  }

  lemma SplitAt<T>(s: seq<T>, i: nat)
    requires i < |s|
    ensures s == s[..i] + [s[i]] + s[i + 1..]
  {
  }

  lemma WholeSlice<T>(s: seq<T>, i: nat)
    requires i <= |s|
    ensures s[i..|s|] == s[i..]
  {
  }

  lemma Regroup<T>(a: seq<T>, x: T, b: seq<T>, y: T, c: seq<T>)
    ensures a + [x] + (b + [y] + c) == (a + [x] + b) + [y] + c
  {
    var u, v := a + [x] + (b + [y] + c), (a + [x] + b) + [y] + c;
    assert |u| == |v| && forall i :: 0 <= i < |u| ==> u[i] == v[i];
    assert u == v;
  }

  ghost predicate Distinct<T>(s: seq<T>) {
    forall i, j :: 0 <= i < j < |s| ==> s[i] != s[j]
  }

  /** Distinct numbers below n are at most n. */
  lemma {:induction false} DistinctBound(s: seq<nat>, n: nat)
    requires Distinct(s) && forall i :: 0 <= i < |s| ==> s[i] < n
    ensures |s| <= n
    decreases n
  {
    if n > 0 {
      if n - 1 in s {
        var k :| 0 <= k < |s| && s[k] == n - 1;
        var rest := s[..k] + s[k + 1..];
        forall i | 0 <= i < |rest| ensures rest[i] == s[if i < k then i else i + 1] {
        }
        DistinctBound(rest, n - 1);
      } else {
        DistinctBound(s, n - 1);
      }
    }
  }

  // ----- counting -----

  ghost function Count<T>(s: seq<T>, x: T): nat {
    if s == [] then 0 else Count(s[..|s| - 1], x) + if s[|s| - 1] == x then 1 else 0
  }

  lemma {:induction false} CountUpdate<T>(s: seq<T>, i: nat, y: T, x: T)
    requires i < |s|
    ensures Count(s[i := y], x) == Count(s, x) - (if s[i] == x then 1 else 0) + if y == x then 1 else 0
  {
    var n := |s| - 1;
    assert s[i := y][..n] == if i < n then s[..n][i := y] else s[..n];
    if i < n {
      CountUpdate(s[..n], i, y, x);
    }
  }

  lemma {:induction false} CountIn<T>(s: seq<T>, x: T)
    ensures Count(s, x) <= |s| && (Count(s, x) > 0 <==> exists i :: 0 <= i < |s| && s[i] == x)
  {
    if s != [] {
      CountIn(s[..|s| - 1], x);
    }
  }
}
