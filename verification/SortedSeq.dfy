// Sorted sequences: insertion and removal in order.

module SortedSeq {

  ghost predicate Sorted(s: seq<int>) {
    forall i, j :: 0 <= i < j < |s| ==> s[i] <= s[j]
  }

  /** The key goes after every key that is not greater. */
  function InsertSorted(s: seq<int>, key: int): (r: seq<int>)
    ensures |r| == |s| + 1
  {
    if s == [] then [key]
    else if s[|s| - 1] > key then InsertSorted(s[..|s| - 1], key) + [s[|s| - 1]]
    else s + [key]
  }

  lemma {:induction false} InsertSortedAdds(s: seq<int>, key: int)
    ensures multiset(InsertSorted(s, key)) == multiset(s) + multiset{key}
  {
    if s != [] && s[|s| - 1] > key {
      var n := |s| - 1;
      InsertSortedAdds(s[..n], key);
      assert s == s[..n] + [s[n]];
    }
  }

  lemma {:induction false} InsertSortedKeepsOrder(s: seq<int>, key: int)
    requires Sorted(s)
    ensures Sorted(InsertSorted(s, key))
  {
    if s != [] && s[|s| - 1] > key {
      var n := |s| - 1;
      InsertSortedKeepsOrder(s[..n], key);
      InsertSortedAdds(s[..n], key);
      var head := InsertSorted(s[..n], key);
      forall j | 0 <= j < |head| ensures head[j] <= s[n] {
        assert head[j] in multiset(head);
      }
    }
  }

  lemma FirstIsLeast(s: seq<int>, x: int)
    requires Sorted(s) && x in multiset(s)
    ensures s != [] && s[0] <= x
  {
    assert x in s;
  }

  lemma TailCounts(s: seq<int>)
    requires s != []
    ensures multiset(s[1..]) == multiset(s) - multiset{s[0]}
  {
    assert s == [s[0]] + s[1..];
  }

  lemma SameHeadTail(s: seq<int>, t: seq<int>)
    requires s != [] && t != [] && s[0] == t[0] && s[1..] == t[1..]
    ensures s == t
  {
    assert s == [s[0]] + s[1..];
  }

  /** Only one sorted sequence holds given elements. */
  lemma {:induction false} SortedUnique(s: seq<int>, t: seq<int>)
    requires Sorted(s) && Sorted(t) && multiset(s) == multiset(t)
    ensures s == t
  {
    if s == [] {
      assert |t| == |multiset(t)|;
    } else {
      assert s[0] in multiset(s);
      FirstIsLeast(t, s[0]);
      assert t[0] in multiset(t);
      FirstIsLeast(s, t[0]);
      TailCounts(s);
      TailCounts(t);
      SortedUnique(s[1..], t[1..]);
      SameHeadTail(s, t);
    }
  }

  // ----- strictly ascending sequences: finite sets in order -----

  ghost predicate Strict(s: seq<int>) {
    forall i, j :: 0 <= i < j < |s| ==> s[i] < s[j]
  }

  ghost function Elements(s: seq<int>): set<int> {
    set x | x in s
  }

  lemma ElementsParts(a: seq<int>, x: int, b: seq<int>)
    ensures Elements(a + [x] + b) == Elements(a) + {x} + Elements(b)
  {
    var s := a + [x] + b;
    assert forall e :: e in s <==> e in a || e == x || e in b;
  }

  lemma StrictParts(a: seq<int>, x: int, b: seq<int>)
    ensures Strict(a + [x] + b) <==>
      Strict(a) && Strict(b) && (forall e :: e in Elements(a) ==> e < x) && (forall e :: e in Elements(b) ==> x < e)
  {
    if Strict(a + [x] + b) {
      StrictSplits(a, x, b);
    }
    if Strict(a) && Strict(b) && (forall e :: e in Elements(a) ==> e < x) && (forall e :: e in Elements(b) ==> x < e) {
      StrictJoins(a, x, b);
    }
  }

  lemma StrictSplits(a: seq<int>, x: int, b: seq<int>)
    requires Strict(a + [x] + b)
    ensures Strict(a) && Strict(b) && (forall e :: e in Elements(a) ==> e < x) && (forall e :: e in Elements(b) ==> x < e)
  {
    var s := a + [x] + b;
    assert s[|a|] == x;
    assert forall i :: 0 <= i < |a| ==> s[i] == a[i];
    assert forall i :: 0 <= i < |b| ==> b[i] == s[|a| + 1 + i];
  }

  lemma StrictJoins(a: seq<int>, x: int, b: seq<int>)
    requires Strict(a) && Strict(b) && (forall e :: e in Elements(a) ==> e < x) && (forall e :: e in Elements(b) ==> x < e)
    ensures Strict(a + [x] + b)
  {
    var s := a + [x] + b;
    forall i, j | 0 <= i < j < |s| ensures s[i] < s[j] {
      assert i < |a| ==> s[i] == a[i] && a[i] in Elements(a);
      assert j > |a| ==> s[j] == b[j - |a| - 1] && s[j] in Elements(b);
      assert i > |a| ==> s[i] == b[i - |a| - 1];
      assert j < |a| ==> s[j] == a[j];
    }
  }

  /** As many elements as positions. */
  lemma {:induction false} StrictSize(s: seq<int>)
    requires Strict(s)
    ensures |Elements(s)| == |s|
  {
    if s != [] {
      var n := |s| - 1;
      StrictSize(s[..n]);
      assert Elements(s) == Elements(s[..n]) + {s[n]};
    }
  }
}
