// The ring buffer of POSIX/posix.c: `queue`, `q_head`, `q_tail` and `q_count`.

module RingQueue {

  datatype Ring<T> = Ring(slots: seq<T>, head: nat, tail: nat, count: nat)

  ghost predicate WellFormed<T>(q: Ring<T>) {
    && q.head < |q.slots| && q.count <= |q.slots|
    && q.tail == (q.head + q.count) % |q.slots|
  }

  /** What the ring holds, oldest first. */
  ghost function Contents<T>(q: Ring<T>): (c: seq<T>)
    requires WellFormed(q)
    ensures |c| == q.count
  {
    seq(q.count, i requires 0 <= i < q.count => q.slots[(q.head + i) % |q.slots|])
  }

  /** The three assignments of `enqueue`. */
  function Put<T>(q: Ring<T>, x: T): Ring<T>
    requires WellFormed(q) && q.count < |q.slots|
  {
    q.(slots := q.slots[q.tail := x], tail := (q.tail + 1) % |q.slots|, count := q.count + 1)
  }

  function First<T>(q: Ring<T>): T
    requires WellFormed(q) && q.count > 0
  {
    q.slots[q.head]
  }

  /** The assignments of `dequeue`. */
  function Take<T>(q: Ring<T>): Ring<T>
    requires WellFormed(q) && q.count > 0
  {
    q.(head := (q.head + 1) % |q.slots|, count := q.count - 1)
  }

  lemma Wrap(i: nat, n: nat)
    requires i < 2 * n
    ensures i % n == if i < n then i else i - n
  {
  }

  /** Put appends to the contents: no slot in use is overwritten. */
  lemma PutAppends<T>(q: Ring<T>, x: T)
    requires WellFormed(q) && q.count < |q.slots|
    ensures WellFormed(Put(q, x)) && Contents(Put(q, x)) == Contents(q) + [x]
  {
    var n, q' := |q.slots|, Put(q, x);
    Wrap(q.head + q.count, n);
    Wrap(q.tail + 1, n);
    Wrap(q.head + q.count + 1, n);
    forall i | 0 <= i <= q.count ensures Contents(q')[i] == (Contents(q) + [x])[i] {
      Wrap(q.head + i, n);
    }
  }

  /** Take removes the oldest. */
  lemma TakeRemoves<T>(q: Ring<T>)
    requires WellFormed(q) && q.count > 0
    ensures WellFormed(Take(q)) && Contents(q) == [First(q)] + Contents(Take(q))
  {
    var n, q' := |q.slots|, Take(q);
    Wrap(q.head, n);
    Wrap(q.head + 1, n);
    Wrap(q.head + q.count, n);
    Wrap(q'.head + q'.count, n);
    forall i | 0 <= i < q.count ensures Contents(q)[i] == ([First(q)] + Contents(q'))[i] {
      Wrap(q.head + i, n);
      if i > 0 {
        Wrap(q'.head + (i - 1), n);
      }
    }
  }

  /** The static variables themselves. */
  class Queue<T> {
    const slots: array<T>
    var head: nat
    var tail: nat
    var count: nat

    ghost function View(): Ring<T>
      reads this, slots
    {
      Ring(slots[..], head, tail, count)
    }

    constructor (size: nat, fill: T)
      requires size > 0
      ensures WellFormed(View()) && Contents(View()) == [] && slots.Length == size && fresh(slots)
    {
      slots := new T[size](_ => fill);
      head, tail, count := 0, 0, 0;
    }

    /** `enqueue`, once there is room. */
    method Enqueue(x: T)
      requires WellFormed(View()) && count < slots.Length
      modifies this, slots
      ensures View() == Put(old(View()), x)
      ensures WellFormed(View()) && Contents(View()) == old(Contents(View())) + [x]
    {
      PutAppends(View(), x);
      slots[tail] := x;
      tail := (tail + 1) % slots.Length;
      count := count + 1;
    }

    /** `dequeue`, once there is something. */
    method Dequeue() returns (x: T)
      requires WellFormed(View()) && count > 0
      modifies this
      ensures View() == Take(old(View()))
      ensures WellFormed(View()) && old(Contents(View())) == [x] + Contents(View())
    {
      TakeRemoves(View());
      x := slots[head];
      head := (head + 1) % slots.Length;
      count := count - 1;
    }
  }
}
