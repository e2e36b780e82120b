// The LRU and Clock simulations of pageCahe.c, for any number of frames and any requests.

module PageReplacement {
  import opened SeqFacts

  // ----- most recently requested pages -----

  ghost function Without(s: seq<int>, p: int): seq<int> {
    if s == [] then [] else (if s[0] == p then [] else [s[0]]) + Without(s[1..], p)
  }

  /** The distinct pages of a request string, most recently requested first. */
  ghost function Recent(reqs: seq<int>): seq<int> {
    if reqs == [] then []
    else
      var p := reqs[|reqs| - 1];
      [p] + Without(Recent(reqs[..|reqs| - 1]), p)
  }

  /** The first n of them: what LRU with n frames holds. */
  ghost function Held(reqs: seq<int>, n: nat): seq<int> {
    if |Recent(reqs)| <= n then Recent(reqs) else Recent(reqs)[..n]
  }

  lemma {:induction false} WithoutIs(s: seq<int>, p: int)
    ensures p !in Without(s, p) && forall x :: x in Without(s, p) <==> x in s && x != p
    ensures Distinct(s) ==> Distinct(Without(s, p))
  {
    if s != [] {
      var t := s[1..];
      WithoutIs(t, p);
      assert forall x :: x in s <==> x == s[0] || x in t;
      if Distinct(s) {
        assert s[0] !in t;
      }
    }
  }

  lemma {:induction false} WithoutAbsent(s: seq<int>, p: int)
    requires p !in s
    ensures Without(s, p) == s
  {
    if s != [] {
      WithoutAbsent(s[1..], p);
    }
  }

  lemma {:induction false} WithoutAt(a: seq<int>, p: int, b: seq<int>)
    requires p !in a && p !in b
    ensures Without(a + [p] + b, p) == a + b
  {
    if a == [] {
      assert (a + [p] + b)[1..] == b && a + b == b;
      WithoutAbsent(b, p);
    } else {
      assert (a + [p] + b)[1..] == a[1..] + [p] + b && a + b == [a[0]] + (a[1..] + b);
      WithoutAt(a[1..], p, b);
    }
  }

  /** Where p does not appear among the first n, dropping it leaves those alone. */
  lemma {:induction false} WithoutPrefix(s: seq<int>, p: int, n: nat)
    requires n <= |s| && p !in s[..n]
    ensures |Without(s, p)| >= n && Without(s, p)[..n] == s[..n]
  {
    if n > 0 {
      assert s[..n][0] == s[0] && s[1..][..n - 1] == s[..n][1..];
      WithoutPrefix(s[1..], p, n - 1);
    }
  }

  /** The last position at which p is requested. */
  ghost function LastUse(reqs: seq<int>, p: int): (i: int)
    ensures -1 <= i < |reqs| && (i >= 0 ==> reqs[i] == p) && forall j :: i < j < |reqs| ==> reqs[j] != p
  {
    if reqs == [] then -1
    else if reqs[|reqs| - 1] == p then |reqs| - 1
    else LastUse(reqs[..|reqs| - 1], p)
  }

  ghost predicate ByLastUse(s: seq<int>, reqs: seq<int>) {
    forall i, j :: 0 <= i < j < |s| ==> LastUse(reqs, s[i]) > LastUse(reqs, s[j])
  }

  lemma {:induction false} WithoutOrder(s: seq<int>, p: int, reqs: seq<int>)
    requires ByLastUse(s, reqs)
    ensures ByLastUse(Without(s, p), reqs)
  {
    if s != [] {
      var t := s[1..];
      WithoutOrder(t, p, reqs);
      WithoutIs(t, p);
      var w := Without(t, p);
      forall j | 0 <= j < |w| ensures LastUse(reqs, s[0]) > LastUse(reqs, w[j]) {
        assert w[j] in w && w[j] in t;
        var k :| 0 <= k < |t| && t[k] == w[j];
        assert s[k + 1] == w[j];
      }
    }
  }

  /** Recent lists exactly the requested pages, each once, by last use. */
  lemma {:induction false} RecentIs(reqs: seq<int>)
    ensures Distinct(Recent(reqs)) && (forall p :: p in Recent(reqs) <==> p in reqs) && ByLastUse(Recent(reqs), reqs)
  {
    if reqs != [] {
      var n := |reqs| - 1;
      var before, p := reqs[..n], reqs[n];
      RecentIs(before);
      WithoutIs(Recent(before), p);
      WithoutOrder(Recent(before), p, before);
      assert reqs == before + [p];
      var w := Without(Recent(before), p);
      forall j | 0 <= j < |w| ensures LastUse(reqs, p) > LastUse(reqs, w[j]) == LastUse(before, w[j]) {
        assert w[j] in w;
      }
    }
  }

  /** With one frame more, everything held is still held. */
  lemma Inclusion(reqs: seq<int>, n: nat)
    ensures forall p :: p in Held(reqs, n) ==> p in Held(reqs, n + 1)
  {
    var h, h' := Held(reqs, n), Held(reqs, n + 1);
    forall i | 0 <= i < |h| ensures h[i] in h' {
      assert h'[i] == h[i];
    }
  }

  /** How many of the first k requests LRU with n frames answers. */
  ghost function Hits(reqs: seq<int>, n: nat, k: nat): nat
    requires k <= |reqs|
  {
    if k == 0 then 0 else Hits(reqs, n, k - 1) + if reqs[k - 1] in Held(reqs[..k - 1], n) then 1 else 0
  }

  /** More frames never give fewer hits. */
  lemma {:induction false} HitsGrow(reqs: seq<int>, n: nat, k: nat)
    requires k <= |reqs|
    ensures Hits(reqs, n, k) <= Hits(reqs, n + 1, k)
  {
    if k > 0 {
      HitsGrow(reqs, n, k - 1);
      Inclusion(reqs[..k - 1], n);
    }
  }

  /** The pages requested after the last request for p. */
  ghost function Since(reqs: seq<int>, p: int): set<int> {
    set q | q in reqs && LastUse(reqs, q) > LastUse(reqs, p)
  }

  lemma {:induction false} SetOf(s: seq<int>)
    requires Distinct(s)
    ensures |(set q | q in s)| == |s|
  {
    if s != [] {
      var n := |s| - 1;
      SetOf(s[..n]);
      assert (set q | q in s) == (set q | q in s[..n]) + {s[n]};
    }
  }

  /** LRU holds a page exactly if it was requested and fewer than n others were since. */
  lemma HeldIs(reqs: seq<int>, n: nat, p: int)
    ensures p in Held(reqs, n) <==> p in reqs && |Since(reqs, p)| < n
  {
    RecentIs(reqs);
    var r := Recent(reqs);
    if p in reqs {
      var k :| 0 <= k < |r| && r[k] == p;
      forall q ensures q in Since(reqs, p) <==> q in r[..k] {
        if q in Since(reqs, p) {
          var l :| 0 <= l < |r| && r[l] == q;
        }
      }
      assert Since(reqs, p) == set q | q in r[..k];
      SetOf(r[..k]);
    }
  }

  /** Request i is for a page requested before, with fewer than n others in between. */
  ghost predicate Reused(reqs: seq<int>, i: nat, n: nat)
    requires i < |reqs|
  {
    reqs[i] in reqs[..i] && |Since(reqs[..i], reqs[i])| < n
  }

  /** Which of the first k requests are so. */
  ghost function Reuses(reqs: seq<int>, n: nat, k: nat): set<nat>
    requires k <= |reqs|
  {
    set i | 0 <= i < k && Reused(reqs, i, n)
  }

  lemma ReusesMore(reqs: seq<int>, n: nat, k: nat)
    requires k < |reqs|
    ensures Reuses(reqs, n, k + 1) == Reuses(reqs, n, k) + if Reused(reqs, k, n) then {k} else {}
    ensures k !in Reuses(reqs, n, k)
  {
  }

  lemma {:induction false} HitsAre(reqs: seq<int>, n: nat, k: nat)
    requires k <= |reqs|
    ensures Hits(reqs, n, k) == |Reuses(reqs, n, k)|
  {
    if k > 0 {
      HitsAre(reqs, n, k - 1);
      HeldIs(reqs[..k - 1], n, reqs[k - 1]);
      ReusesMore(reqs, n, k - 1);
    }
  }

  // ----- the LRU simulation -----

  /** Frame order[k] holds the k-th most recent page; the other frames are empty. */
  ghost predicate Frames(buffer: seq<int>, time: seq<int>, order: seq<nat>, held: seq<int>, counter: int) {
    && |buffer| == |time| && |order| == |held| && Distinct(order)
    && (forall k {:trigger order[k]} :: 0 <= k < |order| ==>
          order[k] < |buffer| && buffer[order[k]] == held[k] && held[k] != -1 && time[order[k]] <= counter)
    && (forall k, l {:trigger order[k], order[l]} :: 0 <= k < l < |order| && order[k] < |time| && order[l] < |time| ==>
          time[order[k]] > time[order[l]])
    && (forall j :: 0 <= j < |buffer| && j !in order ==> buffer[j] == -1)
  }

  /** `findPage` */
  method FindPage(buffer: array<int>, page: int) returns (pos: int)
    ensures -1 <= pos < buffer.Length
    ensures if pos == -1 then page !in buffer[..] else buffer[pos] == page && page !in buffer[..pos]
  {
    for i := 0 to buffer.Length
      invariant page !in buffer[..i]
    {
      if buffer[i] == page {
        return i;
      }
    }
    assert buffer[..buffer.Length] == buffer[..];
    return -1;
  }

  /** The loop that looks for the frame used longest ago. */
  method Oldest(time: array<int>) returns (lru: nat)
    requires time.Length > 0
    ensures lru < time.Length && forall j :: 0 <= j < time.Length ==> time[lru] <= time[j]
  {
    lru := 0;
    for j := 1 to time.Length
      invariant lru < time.Length && forall k :: 0 <= k < j ==> time[lru] <= time[k]
    {
      if time[j] < time[lru] {
        lru := j;
      }
    }
  }

  /** A missing number makes room. */
  lemma Missing(order: seq<nat>, n: nat, j: nat)
    requires Distinct(order) && (forall k :: 0 <= k < |order| ==> order[k] < n) && j < n && j !in order
    ensures |order| < n
  {
    DistinctBound(order + [j], n);
  }

  lemma {:induction false} AllThere(order: seq<nat>, n: nat)
    requires forall j :: 0 <= j < n ==> j in order
    ensures |order| >= n
    decreases n
  {
    if n > 0 {
      assert n - 1 in order;
      var k :| 0 <= k < |order| && order[k] == n - 1;
      var rest := order[..k] + order[k + 1..];
      forall j | 0 <= j < n - 1 ensures j in rest {
        assert j in order;
        var l :| 0 <= l < |order| && order[l] == j;
        assert rest[if l < k then l else l - 1] == j;
      }
      AllThere(rest, n - 1);
    }
  }

  /** The k-th frame emptied. */
  lemma DropFrame(buffer: seq<int>, time: seq<int>, order: seq<nat>, held: seq<int>, counter: int, k: nat,
                  order': seq<nat>, held': seq<int>)
    requires Frames(buffer, time, order, held, counter) && k < |order|
    requires order' == order[..k] + order[k + 1..] && held' == held[..k] + held[k + 1..]
    ensures order[k] < |buffer| && order[k] !in order' && Frames(buffer[order[k] := -1], time, order', held', counter)
  {
    forall i | 0 <= i < |order'|
      ensures order'[i] == order[if i < k then i else i + 1] && held'[i] == held[if i < k then i else i + 1]
      ensures order'[i] != order[k]
    {
    }
    forall j | j in order ensures j in order' || j == order[k] {
      var l :| 0 <= l < |order| && order[l] == j;
      assert l != k ==> order'[if l < k then l else l - 1] == j;
    }
  }

  /** A page in an empty frame. */
  lemma FillFrame(buffer: seq<int>, time: seq<int>, order: seq<nat>, held: seq<int>, counter: int, f: nat, page: int,
                  order': seq<nat>, held': seq<int>)
    requires Frames(buffer, time, order, held, counter) && f < |buffer| && f !in order && page != -1
    requires order' == [f] + order && held' == [page] + held
    ensures Frames(buffer[f := page], time[f := counter + 1], order', held', counter + 1)
  {
    forall i | 0 < i < |order'| ensures order'[i] == order[i - 1] && held'[i] == held[i - 1] && order'[i] != f {
      assert order[i - 1] in order;
    }
    forall j | j in order || j == f ensures j in order' {
      assert order'[0] == f;
      assert forall i :: 0 <= i < |order| ==> order'[i + 1] == order[i];
    }
  }

  /** A request gives page the frame order[k]: that of page itself, or the one used longest
      ago. */
  lemma ReuseFrame(buffer: seq<int>, time: seq<int>, order: seq<nat>, held: seq<int>, counter: int, k: nat, page: int)
    requires Frames(buffer, time, order, held, counter) && k < |order| && page != -1
    ensures order[k] < |buffer|
    ensures Frames(buffer[order[k] := page], time[order[k] := counter + 1], [order[k]] + (order[..k] + order[k + 1..]),
                   [page] + (held[..k] + held[k + 1..]), counter + 1)
  {
    var f, order', held' := order[k], order[..k] + order[k + 1..], held[..k] + held[k + 1..];
    DropFrame(buffer, time, order, held, counter, k, order', held');
    FillFrame(buffer[f := -1], time, order', held', counter, f, page, [f] + order', [page] + held');
    assert buffer[f := -1][f := page] == buffer[f := page];
  }

  /** What one more request does to the pages held. */
  lemma HeldStep(reqs: seq<int>, p: int, n: nat, k: nat)
    requires n > 0
    ensures var h, h' := Held(reqs, n), Held(reqs + [p], n);
      && (k < |h| && h[k] == p ==> h' == [p] + (h[..k] + h[k + 1..]))
      && (p !in h && |h| < n ==> h' == [p] + h)
      && (p !in h && |h| == n ==> h' == [p] + (h[..n - 1] + h[n..]))
  {
    RecentIs(reqs);
    var r, h := Recent(reqs), Held(reqs, n);
    assert (reqs + [p])[..|reqs|] == reqs;
    assert Recent(reqs + [p]) == [p] + Without(r, p);
    if k < |h| && h[k] == p {
      HeldHit(r, p, n, k, h);
    } else if p !in h && |h| < n {
      WithoutAbsent(r, p);
    } else if p !in h {
      HeldFull(r, p, n, h);
    }
  }

  lemma HeldFull(r: seq<int>, p: int, n: nat, h: seq<int>)
    requires n > 0 && |r| >= n && h == r[..n] && p !in h
    ensures var r' := [p] + Without(r, p); |r'| > n && r'[..n] == [p] + (h[..n - 1] + h[n..])
  {
    WithoutPrefix(r, p, n);
    assert ([p] + Without(r, p))[..n] == [p] + Without(r, p)[..n][..n - 1];
  }

  lemma HeldHit(r: seq<int>, p: int, n: nat, k: nat, h: seq<int>)
    requires Distinct(r) && h == (if |r| <= n then r else r[..n]) && k < |h| && h[k] == p
    ensures var r' := [p] + Without(r, p); (if |r'| <= n then r' else r'[..n]) == [p] + (h[..k] + h[k + 1..])
  {
    var a, b := r[..k], r[k + 1..];
    SplitAt(r, k);
    assert p !in a && p !in b;
    WithoutAt(a, p, b);
    if |r| > n {
      FrontCut(a, p, b, n);
    }
  }

  /** Moving p to the front and cutting at n is cutting at n and moving p to the front. */
  lemma FrontCut(a: seq<int>, p: int, b: seq<int>, n: nat)
    requires |a| < n <= |a| + 1 + |b|
    ensures var h := (a + [p] + b)[..n]; ([p] + (a + b))[..n] == [p] + (h[..|a|] + h[|a| + 1..])
  {
    var h, c := (a + [p] + b)[..n], b[..n - |a| - 1];
    assert h == a + [p] + c;
    assert h[..|a|] == a && h[|a| + 1..] == c;
    assert ([p] + (a + b))[..n] == [p] + (a + c);
  }

  /** The frames of LRU after requests reqs. */
  ghost predicate Simulated(buffer: seq<int>, time: seq<int>, order: seq<nat>, reqs: seq<int>, counter: int) {
    Frames(buffer, time, order, Held(reqs, |buffer|), counter)
  }

  lemma HeldInFrames(buffer: seq<int>, time: seq<int>, order: seq<nat>, held: seq<int>, counter: int, page: int)
    requires Frames(buffer, time, order, held, counter) && page != -1
    ensures page in held <==> page in buffer
  {
    if page in held {
      var k :| 0 <= k < |held| && held[k] == page;
      assert buffer[order[k]] == page;
    }
    if page in buffer {
      var j :| 0 <= j < |buffer| && buffer[j] == page;
      assert j in order;
      var k :| 0 <= k < |order| && order[k] == j;
      assert held[k] == page;
    }
  }

  /** The body of the loop of `simulateLRU`. */
  method LruRequest(buffer: array<int>, time: array<int>, page: int, counter: int, ghost order: seq<nat>, ghost reqs: seq<int>)
    returns (hit: bool, ghost order': seq<nat>)
    requires buffer != time && buffer.Length > 0 && page != -1 && Simulated(buffer[..], time[..], order, reqs, counter)
    modifies buffer, time
    ensures hit <==> page in Held(reqs, buffer.Length)
    ensures Simulated(buffer[..], time[..], order', reqs + [page], counter + 1)
  {
    ghost var held, n := Held(reqs, buffer.Length), buffer.Length;
    ghost var held', k := held, 0;
    HeldInFrames(buffer[..], time[..], order, held, counter, page);
    var pos := FindPage(buffer, page);
    hit := pos != -1;
    if hit {
      order', held', k := LruHit(buffer, time, pos, counter, order, held);
    } else {
      var empty := FindPage(buffer, -1);
      if empty == -1 {
        order', held' := LruEvict(buffer, time, page, counter, order, held);
      } else {
        order', held' := LruFill(buffer, time, empty, page, counter, order, held);
      }
    }
    HeldStep(reqs, page, n, k);
    assert held' == Held(reqs + [page], n);
  }

  method LruHit(buffer: array<int>, time: array<int>, pos: nat, counter: int, ghost order: seq<nat>, ghost held: seq<int>)
    returns (ghost order': seq<nat>, ghost held': seq<int>, ghost k: nat)
    requires buffer != time && Frames(buffer[..], time[..], order, held, counter) && pos < buffer.Length && buffer[pos] != -1
    modifies time
    ensures Frames(buffer[..], time[..], order', held', counter + 1)
    ensures k < |held| && held[k] == buffer[pos] && held' == [buffer[pos]] + (held[..k] + held[k + 1..])
  {
    ghost var b, s := buffer[..], time[..];
    k := HitPosition(b, s, order, held, counter, pos);
    ReuseFrame(b, s, order, held, counter, k, buffer[pos]);
    time[pos] := counter + 1;
    order', held' := [order[k]] + (order[..k] + order[k + 1..]), [buffer[pos]] + (held[..k] + held[k + 1..]);
    assert buffer[..] == b[order[k] := buffer[pos]] && time[..] == s[order[k] := counter + 1];
  }

  method LruEvict(buffer: array<int>, time: array<int>, page: int, counter: int, ghost order: seq<nat>, ghost held: seq<int>)
    returns (ghost order': seq<nat>, ghost held': seq<int>)
    requires buffer != time && Frames(buffer[..], time[..], order, held, counter) && |held| <= buffer.Length
    requires buffer.Length > 0 && -1 !in buffer[..] && page != -1
    modifies buffer, time
    ensures Frames(buffer[..], time[..], order', held', counter + 1)
    ensures var n := buffer.Length; |held| == n && held' == [page] + (held[..n - 1] + held[n..])
  {
    ghost var b, s, k := buffer[..], time[..], buffer.Length - 1;
    var lru := Oldest(time);
    FullFrames(b, s, order, held, counter, lru);
    ReuseFrame(b, s, order, held, counter, k, page);
    buffer[lru] := page;
    time[lru] := counter + 1;
    order', held' := [order[k]] + (order[..k] + order[k + 1..]), [page] + (held[..k] + held[k + 1..]);
    assert buffer[..] == b[order[k] := page] && time[..] == s[order[k] := counter + 1];
  }

  method LruFill(buffer: array<int>, time: array<int>, empty: nat, page: int, counter: int, ghost order: seq<nat>, ghost held: seq<int>)
    returns (ghost order': seq<nat>, ghost held': seq<int>)
    requires buffer != time && Frames(buffer[..], time[..], order, held, counter)
    requires empty < buffer.Length && buffer[empty] == -1 && page != -1
    modifies buffer, time
    ensures Frames(buffer[..], time[..], order', held', counter + 1)
    ensures |held| < buffer.Length && held' == [page] + held
  {
    ghost var b, s := buffer[..], time[..];
    order', held' := [empty] + order, [page] + held;
    EmptyFrame(b, s, order, held, counter, empty);
    FillFrame(b, s, order, held, counter, empty, page, order', held');
    buffer[empty] := page;
    time[empty] := counter + 1;
    assert buffer[..] == b[empty := page] && time[..] == s[empty := counter + 1];
  }

  lemma HitPosition(buffer: seq<int>, time: seq<int>, order: seq<nat>, held: seq<int>, counter: int, pos: nat) returns (k: nat)
    requires Frames(buffer, time, order, held, counter) && pos < |buffer| && buffer[pos] != -1
    ensures k < |order| && order[k] == pos && held[k] == buffer[pos]
  {
    assert pos in order;
    k :| 0 <= k < |order| && order[k] == pos;
  }

  lemma EmptyFrame(buffer: seq<int>, time: seq<int>, order: seq<nat>, held: seq<int>, counter: int, f: nat)
    requires Frames(buffer, time, order, held, counter) && f < |buffer| && buffer[f] == -1
    ensures f !in order && |order| < |buffer|
  {
    forall k | 0 <= k < |order| ensures order[k] != f {
      assert buffer[order[k]] == held[k] && held[k] != -1;
    }
    Missing(order, |buffer|, f);
  }

  /** With no empty frame, the frame with the least time is the last in the order. */
  lemma FullFrames(buffer: seq<int>, time: seq<int>, order: seq<nat>, held: seq<int>, counter: int, lru: nat)
    requires Frames(buffer, time, order, held, counter) && -1 !in buffer && lru < |buffer| && |held| <= |buffer|
    requires forall j :: 0 <= j < |time| ==> time[lru] <= time[j]
    ensures |order| == |buffer| > 0 && order[|buffer| - 1] == lru
  {
    forall j | 0 <= j < |buffer| ensures j in order {
      assert buffer[j] in buffer;
    }
    AllThere(order, |buffer|);
    assert lru in order;
    var k :| 0 <= k < |order| && order[k] == lru;
    var m := |order| - 1;
    assert order[m] < |buffer| && time[lru] <= time[order[m]];
  }

  /** `simulateLRU` */
  method SimulateLru(pages: seq<int>, n: nat) returns (hits: nat, misses: nat, buffer: array<int>)
    requires n > 0 && -1 !in pages
    ensures hits == Hits(pages, n, |pages|) && hits + misses == |pages|
    ensures hits == |Reuses(pages, n, |pages|)|
    ensures buffer.Length == n && forall p :: p != -1 ==> (p in buffer[..] <==> p in Held(pages, n))
    ensures forall p :: p != -1 ==> (p in buffer[..] <==> p in pages && |Since(pages, p)| < n)
  {
    hits, misses, buffer := RunLru(pages, n);
    HitsAre(pages, n, |pages|);
    forall p ensures p in Held(pages, n) <==> p in pages && |Since(pages, p)| < n {
      HeldIs(pages, n, p);
    }
  }

  method RunLru(pages: seq<int>, n: nat) returns (hits: nat, misses: nat, buffer: array<int>)
    requires n > 0 && -1 !in pages
    ensures hits == Hits(pages, n, |pages|) && hits + misses == |pages|
    ensures buffer.Length == n && forall p :: p != -1 ==> (p in buffer[..] <==> p in Held(pages, n))
  {
    buffer := new int[n](_ => -1);
    var time := new int[n](_ => -1);
    hits, misses := 0, 0;
    var counter := 0;
    ghost var order: seq<nat> := [];
    for i := 0 to |pages|
      invariant hits == Hits(pages, n, i) && hits + misses == i && buffer.Length == n
      invariant Simulated(buffer[..], time[..], order, pages[..i], counter)
    {
      PrefixStep(pages, i);
      assert pages[i] in pages;
      var hit;
      hit, order := LruRequest(buffer, time, pages[i], counter, order, pages[..i]);
      counter := counter + 1;
      if hit {
        hits := hits + 1;
      } else {
        misses := misses + 1;
      }
    }
    assert pages[..|pages|] == pages;
    forall p | p != -1 ensures p in buffer[..] <==> p in Held(pages, n) {
      HeldInFrames(buffer[..], time[..], order, Held(pages, n), counter, p);
    }
  }

  // ----- Clock -----

  datatype Clock = Clock(buffer: seq<int>, ref: seq<bool>, pointer: nat)

  ghost predicate ClockOk(s: Clock) {
    && s.pointer < |s.buffer| == |s.ref|
    && (forall i, j :: 0 <= i < j < |s.buffer| && s.buffer[i] == s.buffer[j] ==> s.buffer[i] == -1)
  }

  /** The frame d steps after the pointer. */
  function Ahead(pointer: nat, d: nat, n: nat): (f: nat)
    requires pointer < n && d <= n
    ensures f < n
  {
    if pointer + d < n then pointer + d else pointer + d - n
  }

  lemma AheadNext(pointer: nat, d: nat, n: nat)
    requires pointer < n && d < n
    ensures (Ahead(pointer, d, n) + 1) % n == Ahead(pointer, d + 1, n)
  {
    var f := Ahead(pointer, d, n);
    assert f + 1 < n ==> (f + 1) % n == f + 1;
    assert f + 1 == n ==> (f + 1) % n == 0;
  }

  /** How many referenced frames lie before the first other one, in pointer order. */
  ghost function Referenced(ref: seq<bool>, pointer: nat, d: nat): (r: nat)
    requires pointer < |ref| && d <= |ref|
    ensures d <= r <= |ref|
    decreases |ref| - d
  {
    if d == |ref| || !ref[Ahead(pointer, d, |ref|)] then d else Referenced(ref, pointer, d + 1)
  }

  /** The frame that gives way: the first unreferenced one in pointer order, or, if all are
      referenced, the one at the pointer. */
  ghost function Victim(s: Clock): nat
    requires ClockOk(s)
  {
    Ahead(s.pointer, Referenced(s.ref, s.pointer, 0), |s.buffer|)
  }

  /** What a request for a page that is not there does. */
  ghost predicate Replaced(s: Clock, page: int, s': Clock)
    requires ClockOk(s)
  {
    var n, r, v := |s.buffer|, Referenced(s.ref, s.pointer, 0), Victim(s);
    && s'.buffer == s.buffer[v := page] && s'.pointer == (v + 1) % n && |s'.ref| == n
    && s'.ref[v]
    && (forall d :: 0 <= d < r && Ahead(s.pointer, d, n) != v ==> !s'.ref[Ahead(s.pointer, d, n)])
    && (forall d :: r < d < n ==> s'.ref[Ahead(s.pointer, d, n)] == s.ref[Ahead(s.pointer, d, n)])
  }

  /** Every frame before the victim in pointer order is referenced, and the victim is not,
      unless all are. */
  lemma {:induction false} VictimIsFirst(ref: seq<bool>, pointer: nat, d: nat)
    requires pointer < |ref| && d <= |ref|
    ensures var r := Referenced(ref, pointer, d);
      && (forall e :: d <= e < r ==> ref[Ahead(pointer, e, |ref|)])
      && (r < |ref| ==> !ref[Ahead(pointer, r, |ref|)])
    decreases |ref| - d
  {
    if d < |ref| && ref[Ahead(pointer, d, |ref|)] {
      VictimIsFirst(ref, pointer, d + 1);
    }
  }

  lemma {:induction false} ReferencedIs(ref: seq<bool>, pointer: nat, d: nat, r: nat)
    requires pointer < |ref| && d <= r <= |ref|
    requires forall e :: d <= e < r ==> ref[Ahead(pointer, e, |ref|)]
    requires r < |ref| ==> !ref[Ahead(pointer, r, |ref|)]
    ensures Referenced(ref, pointer, d) == r
    decreases |ref| - d
  {
    if d < r {
      ReferencedIs(ref, pointer, d + 1, r);
    }
  }

  /** The eviction loop of `simulateClock`; it stops within n + 1 turns. */
  method Sweep(buffer: array<int>, ref: array<bool>, start: nat, page: int) returns (pointer: nat, ghost turns: nat)
    requires ClockOk(Clock(buffer[..], ref[..], start))
    modifies buffer, ref
    ensures Replaced(old(Clock(buffer[..], ref[..], start)), page, Clock(buffer[..], ref[..], pointer))
    ensures turns <= buffer.Length + 1
  {
    ghost var n, ref0, d := buffer.Length, ref[..], 0;
    pointer := start;
    while ref[pointer]
      invariant d <= n && pointer == Ahead(start, d, n) && buffer[..] == old(buffer[..])
      invariant forall e :: 0 <= e < d ==> ref0[Ahead(start, e, n)] && !ref[Ahead(start, e, n)]
      invariant forall e :: d <= e < n ==> ref[Ahead(start, e, n)] == ref0[Ahead(start, e, n)]
      decreases n - d
    {
      assert Ahead(start, 0, n) == Ahead(start, n, n) == start;
      ref[pointer] := false;
      AheadNext(start, d, n);
      pointer := (pointer + 1) % ref.Length;
      d := d + 1;
    }
    turns := d + 1;
    ReferencedIs(ref0, start, 0, d);
    assert Ahead(start, 0, n) == Ahead(start, n, n) == start;
    buffer[pointer] := page;
    ref[pointer] := true;
    pointer := (pointer + 1) % ref.Length;
  }

  /** A request: a hit references its frame, a miss replaces a page. */
  ghost predicate Requested(s: Clock, page: int, s': Clock)
    requires ClockOk(s)
  {
    if page in s.buffer then
      s'.buffer == s.buffer && s'.pointer == s.pointer
      && exists j :: 0 <= j < |s.buffer| && s.buffer[j] == page && s'.ref == s.ref[j := true]
    else Replaced(s, page, s')
  }

  /** Resident pages stay distinct. */
  lemma RequestedKeeps(s: Clock, page: int, s': Clock)
    requires ClockOk(s) && page != -1 && Requested(s, page, s')
    ensures ClockOk(s')
  {
    if page !in s.buffer {
      forall j | 0 <= j < |s.buffer| ensures s.buffer[j] != page {
        assert s.buffer[j] in s.buffer;
      }
    }
  }

  /** The states of a Clock run over the first k requests, and how many were hits. */
  ghost predicate ClockRun(pages: seq<int>, n: nat, states: seq<Clock>, k: nat, hits: nat) {
    && |states| == k + 1 && k <= |pages| && states[0] == Clock(seq(n, _ => -1), seq(n, _ => false), 0)
    && (forall i {:trigger states[i]} :: 0 <= i <= k ==> ClockOk(states[i]))
    && (forall i {:trigger pages[i]} :: 0 <= i < k ==> Requested(states[i], pages[i], states[i + 1]))
    && hits == ClockHits(pages, states, k)
  }

  ghost function ClockHits(pages: seq<int>, states: seq<Clock>, k: nat): nat {
    if k == 0 || k > |pages| || k > |states| then 0
    else ClockHits(pages, states, k - 1) + if pages[k - 1] in states[k - 1].buffer then 1 else 0
  }

  lemma RunStarts(pages: seq<int>, n: nat, s: Clock)
    requires n > 0 && s == Clock(seq(n, _ => -1), seq(n, _ => false), 0)
    ensures ClockRun(pages, n, [s], 0, 0)
  {
  }

  lemma RunGoesOn(pages: seq<int>, n: nat, states: seq<Clock>, k: nat, hits: nat, s: Clock, s': Clock,
                  states': seq<Clock>, k': nat, hits': nat)
    requires ClockRun(pages, n, states, k, hits) && k < |pages| && |states| == k + 1 && s == states[k]
    requires ClockOk(s) && pages[k] != -1 && Requested(s, pages[k], s')
    requires states' == states + [s'] && k' == k + 1 && hits' == hits + if pages[k] in s.buffer then 1 else 0
    ensures ClockRun(pages, n, states', k', hits')
  {
    RequestedKeeps(s, pages[k], s');
    SameHits(pages, states, states', k);
    RequestsGoOn(pages, states, k, s', states', k');
  }

  lemma RequestsGoOn(pages: seq<int>, states: seq<Clock>, k: nat, s': Clock, states': seq<Clock>, k': nat)
    requires k < |pages| && |states| == k + 1 && states' == states + [s'] && k' == k + 1
    requires forall i {:trigger states[i]} :: 0 <= i <= k ==> ClockOk(states[i])
    requires forall i {:trigger pages[i]} :: 0 <= i < k ==> Requested(states[i], pages[i], states[i + 1])
    requires Requested(states[k], pages[k], s') && ClockOk(s')
    ensures forall i {:trigger states'[i]} :: 0 <= i <= k' ==> ClockOk(states'[i])
    ensures forall i {:trigger pages[i]} :: 0 <= i < k' ==> Requested(states'[i], pages[i], states'[i + 1])
  {
    forall i | 0 <= i <= k' ensures ClockOk(states'[i]) {
      assert states'[i] == if i <= k then states[i] else s';
    }
    forall i | 0 <= i < k' ensures Requested(states'[i], pages[i], states'[i + 1]) {
      assert i < k ==> Requested(states[i], pages[i], states[i + 1]);
    }
  }

  lemma {:induction false} SameHits(pages: seq<int>, a: seq<Clock>, b: seq<Clock>, k: nat)
    requires k <= |pages| && k <= |a| <= |b| && forall i :: 0 <= i < k ==> a[i] == b[i]
    ensures ClockHits(pages, a, k) == ClockHits(pages, b, k)
  {
    if k > 0 {
      SameHits(pages, a, b, k - 1);
    }
  }

  method ClockRequest(buffer: array<int>, ref: array<bool>, start: nat, page: int) returns (found: bool, pointer: nat)
    requires ClockOk(Clock(buffer[..], ref[..], start)) && page != -1
    modifies buffer, ref
    ensures found <==> page in old(buffer[..])
    ensures Requested(old(Clock(buffer[..], ref[..], start)), page, Clock(buffer[..], ref[..], pointer))
  {
    ghost var s := Clock(buffer[..], ref[..], start);
    found := false;
    pointer := start;
    for j := 0 to buffer.Length
      invariant page !in buffer[..j] && buffer[..] == s.buffer && ref[..] == s.ref
    {
      if buffer[j] == page {
        found := true;
        ref[j] := true;
        assert s.buffer[j] == page && ref[..] == s.ref[j := true];
        return;
      }
    }
    assert buffer[..buffer.Length] == buffer[..];
    ghost var turns;
    pointer, turns := Sweep(buffer, ref, start, page);
  }

  /** The body of the loop of `simulateClock`. */
  method ClockTurn(buffer: array<int>, ref: array<bool>, start: nat, page: int, hits: nat,
                   ghost pages: seq<int>, ghost n: nat, ghost k: nat, ghost states: seq<Clock>, ghost k': nat)
    returns (found: bool, pointer: nat, hits': nat, ghost states': seq<Clock>)
    requires ClockRun(pages, n, states, k, hits) && k < |pages| && k' == k + 1 == |states| && page == pages[k] != -1
    requires states[k] == Clock(buffer[..], ref[..], start) && ClockOk(states[k])
    modifies buffer, ref
    ensures ClockRun(pages, n, states', k', hits') && |states'| == k' + 1
    ensures states'[k'] == Clock(buffer[..], ref[..], pointer) && ClockOk(states'[k'])
    ensures hits' == if found then hits + 1 else hits
  {
    ghost var s := states[k];
    found, pointer := ClockRequest(buffer, ref, start, page);
    ghost var s' := Clock(buffer[..], ref[..], pointer);
    hits' := if found then hits + 1 else hits;
    states' := states + [s'];
    RequestedKeeps(s, page, s');
    RunGoesOn(pages, n, states, k, hits, s, s', states', k', hits');
  }

  /** `simulateClock` */
  method SimulateClock(pages: seq<int>, n: nat) returns (hits: nat, misses: nat, ghost states: seq<Clock>)
    requires n > 0 && -1 !in pages
    ensures ClockRun(pages, n, states, |pages|, hits) && hits + misses == |pages|
  {
    var buffer := new int[n](_ => -1);
    var ref := new bool[n](_ => false);
    var pointer := 0;
    hits, misses := 0, 0;
    states := [Clock(buffer[..], ref[..], 0)];
    RunStarts(pages, n, states[0]);
    for i := 0 to |pages|
      invariant |states| == i + 1 && states[i] == Clock(buffer[..], ref[..], pointer) && ClockOk(states[i])
      invariant ClockRun(pages, n, states, i, hits) && hits + misses == i
    {
      assert pages[i] in pages;
      var found;
      found, pointer, hits, states := ClockTurn(buffer, ref, pointer, pages[i], hits, pages, n, i, states, i + 1);
      if !found {
        misses := misses + 1;
      }
    }
  }
}
