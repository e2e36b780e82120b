// The reader-writer lock of POSIX/read-write.c as a step system, for any number of threads.
//
// One step is what a thread does while it holds `lock`, up to the unlock or the wait.
// Woken threads test their loop condition again (IEEE Std 1003.1, `pthread_cond_wait`).

module RwLock {
  import opened SeqFacts

  datatype Phase =
    | Outside                // in none of the lock's functions
    | SleepRead              // asleep on `readers_ok`
    | WokenRead              // woken, and about to test again
    | Reading
    | SleepWrite             // counted in `waiting_writers`, asleep on `writers_ok`
    | WokenWrite             // counted in `waiting_writers`, woken, and about to test again
    | Writing

  datatype State = State(readers: int, writers: int, waitingWriters: int, threads: seq<Phase>)

  /** `wake` is the writer that a signal on `writers_ok` wakes, if any is asleep. */
  datatype Step =
    | ReadLock(t: nat)
    | ReadUnlock(t: nat, wake: int)
    | WriteLock(t: nat)
    | WriteUnlock(t: nat, wake: int)
    | Spurious(t: nat)

  /** `rwlock_init` */
  function Init(n: nat): State {
    State(0, 0, 0, seq(n, _ => Outside))
  }

  predicate CanWake(threads: seq<Phase>, v: int) {
    SleepWrite !in threads || (0 <= v < |threads| && threads[v] == SleepWrite)
  }

  /** `pthread_cond_signal(&rw->writers_ok)` */
  function SignalWriter(threads: seq<Phase>, v: int): seq<Phase>
    requires CanWake(threads, v)
  {
    if SleepWrite in threads then threads[v := WokenWrite] else threads
  }

  /** `pthread_cond_broadcast(&rw->readers_ok)` */
  function BroadcastReaders(threads: seq<Phase>): seq<Phase> {
    seq(|threads|, i requires 0 <= i < |threads| => if threads[i] == SleepRead then WokenRead else threads[i])
  }

  ghost predicate Enabled(s: State, step: Step) {
    step.t < |s.threads| &&
    match step
    case ReadLock(t) => s.threads[t].Outside? || s.threads[t].WokenRead?
    case ReadUnlock(t, v) => s.threads[t].Reading? && CanWake(s.threads[t := Outside], v)
    case WriteLock(t) => s.threads[t].Outside? || s.threads[t].WokenWrite?
    case WriteUnlock(t, v) => s.threads[t].Writing? && CanWake(s.threads[t := Outside], v)
    case Spurious(t) => s.threads[t].SleepRead? || s.threads[t].SleepWrite?
  }

  function Apply(s: State, step: Step): State
    requires Enabled(s, step)
  {
    match step
    case ReadLock(t) =>
      if s.writers > 0 || s.waitingWriters > 0 then s.(threads := s.threads[t := SleepRead])
      else s.(readers := s.readers + 1, threads := s.threads[t := Reading])
    case ReadUnlock(t, v) =>
      var left := s.threads[t := Outside];
      s.(readers := s.readers - 1, threads := if s.readers - 1 == 0 then SignalWriter(left, v) else left)
    case WriteLock(t) =>
      var waiting := if s.threads[t].Outside? then s.waitingWriters + 1 else s.waitingWriters;
      if s.writers > 0 || s.readers > 0 then s.(waitingWriters := waiting, threads := s.threads[t := SleepWrite])
      else s.(waitingWriters := waiting - 1, writers := 1, threads := s.threads[t := Writing])
    case WriteUnlock(t, v) =>
      var left := s.threads[t := Outside];
      s.(writers := 0, threads := if s.waitingWriters > 0 then SignalWriter(left, v) else BroadcastReaders(left))
    case Spurious(t) =>
      s.(threads := s.threads[t := if s.threads[t].SleepRead? then WokenRead else WokenWrite])
  }

  ghost predicate Next(s: State, step: Step, s': State) {
    Enabled(s, step) && s' == Apply(s, step)
  }

  /** s is reached from the start by these steps. */
  ghost predicate Reaches(n: nat, steps: seq<Step>, s: State)
    decreases |steps|
  {
    if steps == [] then s == Init(n)
    else
      var before, step := steps[..|steps| - 1], steps[|steps| - 1];
      exists s0 :: Reaches(n, before, s0) && Next(s0, step, s)
  }

  // ----- counting threads -----

  lemma {:induction false} CountSame(s: seq<Phase>, t: seq<Phase>, x: Phase)
    requires |s| == |t| && forall i :: 0 <= i < |s| ==> (s[i] == x <==> t[i] == x)
    ensures Count(s, x) == Count(t, x)
  {
    if s != [] {
      CountSame(s[..|s| - 1], t[..|t| - 1], x);
    }
  }

  lemma {:induction false} CountTwo(s: seq<Phase>, x: Phase, i: nat, j: nat)
    requires i < j < |s| && s[i] == s[j] == x
    ensures Count(s, x) >= 2
  {
    var n := |s| - 1;
    if j < n {
      CountTwo(s[..n], x, i, j);
    } else {
      assert s[..n][i] == x;
      CountIn(s[..n], x);
    }
  }

  // ----- the invariant -----

  /** The counters are the numbers of threads in each phase, and writers are alone. */
  ghost predicate CountersOk(s: State) {
    && s.readers == Count(s.threads, Reading)
    && s.writers == Count(s.threads, Writing)
    && s.waitingWriters == Count(s.threads, SleepWrite) + Count(s.threads, WokenWrite)
    && s.writers <= 1 && (s.writers == 1 ==> s.readers == 0)
  }

  /** A sleeping writer has a holder to wait for, or a woken writer before it; a sleeping
      reader has a writer to wait for. */
  ghost predicate NoLostWakeup(s: State) {
    && (SleepWrite in s.threads ==> s.readers > 0 || s.writers > 0 || Count(s.threads, WokenWrite) > 0)
    && (SleepRead in s.threads ==> s.writers > 0 || s.waitingWriters > 0)
  }

  ghost predicate Inv(s: State) {
    CountersOk(s) && NoLostWakeup(s)
  }

  lemma InitInv(n: nat)
    ensures Inv(Init(n))
  {
    var s := Init(n);
    CountIn(s.threads, Reading);
    CountIn(s.threads, Writing);
    CountIn(s.threads, SleepWrite);
    CountIn(s.threads, WokenWrite);
  }

  lemma UpdateAll(s: seq<Phase>, t: nat, y: Phase)
    requires t < |s|
    ensures forall x :: Count(s[t := y], x) == Count(s, x) - (if s[t] == x then 1 else 0) + if y == x then 1 else 0
  {
    forall x ensures Count(s[t := y], x) == Count(s, x) - (if s[t] == x then 1 else 0) + if y == x then 1 else 0 {
      CountUpdate(s, t, y, x);
    }
  }

  lemma BroadcastCounts(s: seq<Phase>)
    ensures forall x :: x != SleepRead && x != WokenRead ==> Count(BroadcastReaders(s), x) == Count(s, x)
    ensures SleepRead !in BroadcastReaders(s)
  {
    forall x | x != SleepRead && x != WokenRead ensures Count(BroadcastReaders(s), x) == Count(s, x) {
      CountSame(s, BroadcastReaders(s), x);
    }
  }

  lemma LockInv(s: State, step: Step)
    requires Inv(s) && Enabled(s, step) && (step.ReadLock? || step.WriteLock? || step.Spurious?)
    ensures Inv(Apply(s, step))
  {
    UpdateAll(s.threads, step.t, Apply(s, step).threads[step.t]);
    CountIn(s.threads, s.threads[step.t]);
    CountIn(s.threads, SleepWrite);
    CountIn(s.threads, SleepRead);
    CountIn(Apply(s, step).threads, SleepWrite);
    CountIn(Apply(s, step).threads, SleepRead);
  }

  lemma ReadUnlockInv(s: State, t: nat, v: int)
    requires Inv(s) && Enabled(s, ReadUnlock(t, v))
    ensures Inv(Apply(s, ReadUnlock(t, v)))
  {
    var left := s.threads[t := Outside];
    UpdateAll(s.threads, t, Outside);
    CountIn(s.threads, Reading);
    if SleepWrite in left {
      UpdateAll(left, v, WokenWrite);
    }
    CountIn(s.threads, SleepRead);
    CountIn(left, SleepRead);
    CountIn(Apply(s, ReadUnlock(t, v)).threads, SleepRead);
  }

  lemma WriteUnlockInv(s: State, t: nat, v: int)
    requires Inv(s) && Enabled(s, WriteUnlock(t, v))
    ensures Inv(Apply(s, WriteUnlock(t, v)))
  {
    var left := s.threads[t := Outside];
    UpdateAll(s.threads, t, Outside);
    CountIn(s.threads, Writing);
    CountIn(left, SleepWrite);
    CountIn(left, WokenWrite);
    if SleepWrite in left {
      UpdateAll(left, v, WokenWrite);
    }
    BroadcastCounts(left);
    CountIn(BroadcastReaders(left), SleepWrite);
  }

  lemma StepInv(s: State, step: Step)
    requires Inv(s) && Enabled(s, step)
    ensures Inv(Apply(s, step))
  {
    match step
    case ReadUnlock(t, v) => ReadUnlockInv(s, t, v);
    case WriteUnlock(t, v) => WriteUnlockInv(s, t, v);
    case _ => LockInv(s, step);
  }

  lemma {:induction false} ReachesInv(n: nat, steps: seq<Step>, s: State)
    requires Reaches(n, steps, s)
    ensures Inv(s) && |s.threads| == n
    decreases |steps|
  {
    if steps == [] {
      InitInv(n);
    } else {
      var m := |steps| - 1;
      var before :| Reaches(n, steps[..m], before) && Next(before, steps[m], s);
      ReachesInv(n, steps[..m], before);
      StepInv(before, steps[m]);
    }
  }

  // ----- what follows -----

  /** A writer is alone: no other writer and no reader beside it. */
  lemma Exclusion(n: nat, steps: seq<Step>, s: State, i: nat, j: nat)
    requires Reaches(n, steps, s) && i < |s.threads| && j < |s.threads| && i != j && s.threads[i] == Writing
    ensures s.threads[j] != Writing && s.threads[j] != Reading
  {
    ReachesInv(n, steps, s);
    CountIn(s.threads, Writing);
    CountIn(s.threads, Reading);
    if s.threads[j] == Writing {
      CountTwo(s.threads, Writing, if i < j then i else j, if i < j then j else i);
    }
  }

  /** A reader gets in exactly when no writer is inside or registered as waiting. */
  lemma ReadersYield(n: nat, steps: seq<Step>, s: State, t: nat)
    requires Reaches(n, steps, s) && Enabled(s, ReadLock(t))
    ensures Apply(s, ReadLock(t)).threads[t] == Reading <==>
      Writing !in s.threads && SleepWrite !in s.threads && WokenWrite !in s.threads
  {
    ReachesInv(n, steps, s);
    CountersTell(s);
  }

  /** A writer gets in exactly when nobody is inside. */
  lemma WritersWait(n: nat, steps: seq<Step>, s: State, t: nat)
    requires Reaches(n, steps, s) && Enabled(s, WriteLock(t))
    ensures Apply(s, WriteLock(t)).threads[t] == Writing <==> Writing !in s.threads && Reading !in s.threads
  {
    ReachesInv(n, steps, s);
    CountersTell(s);
  }

  lemma Somebody(s: seq<Phase>, x: Phase) returns (t: nat)
    requires Count(s, x) > 0
    ensures t < |s| && s[t] == x
  {
    CountIn(s, x);
    t :| 0 <= t < |s| && s[t] == x;
  }

  /** Some thread is always awake. */
  lemma NeverAllAsleep(n: nat, steps: seq<Step>, s: State) returns (t: nat)
    requires Reaches(n, steps, s) && n > 0
    ensures t < |s.threads| && s.threads[t] != SleepRead && s.threads[t] != SleepWrite
  {
    ReachesInv(n, steps, s);
    CountIn(s.threads, SleepWrite);
    t := 0;
    if s.threads[0] == SleepRead || s.threads[0] == SleepWrite {
      t := Somebody(s.threads,
        if s.readers > 0 then Reading else if s.writers > 0 then Writing else WokenWrite);
    }
  }

  /** When nobody is inside but somebody sleeps, a woken writer gets in next time it runs. */
  lemma FreeLockIsTaken(n: nat, steps: seq<Step>, s: State) returns (t: nat)
    requires Reaches(n, steps, s) && s.readers == s.writers == 0 && (SleepRead in s.threads || SleepWrite in s.threads)
    ensures Enabled(s, WriteLock(t)) && s.threads[t] == WokenWrite && Apply(s, WriteLock(t)).threads[t] == Writing
  {
    ReachesInv(n, steps, s);
    CountIn(s.threads, SleepWrite);
    CountIn(s.threads, WokenWrite);
    t :| 0 <= t < |s.threads| && s.threads[t] == WokenWrite;
  }

  // ----- the fields themselves -----

  /** The counters as the functions change them under `lock`.  Which thread is in which phase
      is ghost: the program knows only the counters. */
  class Lock {
    var readers: int
    var writers: int
    var waitingWriters: int

    ghost var threads: seq<Phase>

    ghost function View(): State
      reads this
    {
      State(readers, writers, waitingWriters, threads)
    }

    constructor (ghost n: nat)
      ensures View() == Init(n) && Inv(View())
    {
      readers, writers, waitingWriters := 0, 0, 0;
      threads := seq(n, _ => Outside);
      new;
      InitInv(n);
    }

    /** One pass of `rwlock_rdlock` through its loop condition, by thread t. */
    method ReadLock(ghost t: nat) returns (entered: bool)
      requires Inv(View()) && Enabled(View(), Step.ReadLock(t))
      modifies this
      ensures View() == Apply(old(View()), Step.ReadLock(t)) && Inv(View())
      ensures entered <==> threads[t] == Reading
      ensures entered <==> old(Writing !in threads && SleepWrite !in threads && WokenWrite !in threads)
    {
      LockInv(View(), Step.ReadLock(t));
      CountersTell(View());
      if writers > 0 || waitingWriters > 0 {
        threads := threads[t := SleepRead];
        return false;
      }
      readers := readers + 1;
      threads := threads[t := Reading];
      return true;
    }

    /** `rwlock_rdunlock`; the signal goes out when the last reader leaves. */
    method ReadUnlock(ghost t: nat, ghost wake: int) returns (signalled: bool)
      requires Inv(View()) && Enabled(View(), Step.ReadUnlock(t, wake))
      modifies this
      ensures View() == Apply(old(View()), Step.ReadUnlock(t, wake)) && Inv(View())
      ensures signalled <==> Reading !in threads
    {
      ReadUnlockInv(View(), t, wake);
      readers := readers - 1;
      threads := threads[t := Outside];
      signalled := readers == 0;
      if signalled {
        threads := SignalWriter(threads, wake);
      }
      CountersTell(View());
    }

    /** One pass of `rwlock_wrlock` through its loop condition; the first one registers the
        writer as waiting. */
    method WriteLock(first: bool, ghost t: nat) returns (entered: bool)
      requires Inv(View()) && Enabled(View(), Step.WriteLock(t)) && (first <==> threads[t] == Outside)
      modifies this
      ensures View() == Apply(old(View()), Step.WriteLock(t)) && Inv(View())
      ensures entered <==> threads[t] == Writing
      ensures entered <==> old(Writing !in threads && Reading !in threads)
    {
      LockInv(View(), Step.WriteLock(t));
      CountersTell(View());
      if first {
        waitingWriters := waitingWriters + 1;
      }
      if writers > 0 || readers > 0 {
        threads := threads[t := SleepWrite];
        return false;
      }
      waitingWriters := waitingWriters - 1;
      writers := 1;
      threads := threads[t := Writing];
      return true;
    }

    /** `rwlock_wrunlock`: a waiting writer is signalled before any reader. */
    method WriteUnlock(ghost t: nat, ghost wake: int) returns (writersFirst: bool)
      requires Inv(View()) && Enabled(View(), Step.WriteUnlock(t, wake))
      modifies this
      ensures View() == Apply(old(View()), Step.WriteUnlock(t, wake)) && Inv(View())
      ensures writersFirst <==> old(SleepWrite in threads || WokenWrite in threads)
      ensures !writersFirst ==> SleepRead !in threads
    {
      WriteUnlockInv(View(), t, wake);
      CountersTell(View());
      writers := 0;
      threads := threads[t := Outside];
      writersFirst := waitingWriters > 0;
      if writersFirst {
        threads := SignalWriter(threads, wake);
      } else {
        BroadcastCounts(threads);
        threads := BroadcastReaders(threads);
      }
    }
  }

  /** What the program can read off its counters. */
  lemma CountersTell(s: State)
    requires CountersOk(s)
    ensures s.readers > 0 <==> Reading in s.threads
    ensures s.readers == 0 <==> Reading !in s.threads
    ensures s.writers > 0 <==> Writing in s.threads
    ensures s.waitingWriters > 0 <==> SleepWrite in s.threads || WokenWrite in s.threads
  {
    CountIn(s.threads, Reading);
    CountIn(s.threads, Writing);
    CountIn(s.threads, SleepWrite);
    CountIn(s.threads, WokenWrite);
  }
}
