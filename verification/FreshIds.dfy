// The ids that crashRecovery.c hands out.  `init_database` reads the next id off the records
// before recovery replays the log, so a restart may hand out an id that the log already
// uses, and the insert then replaces a durable record.  Here is a run that does it, the
// exact condition under which a restart hands out new ids only, and what holds when every
// restart meets it.

module FreshIds {
  import opened SeqFacts
  import opened WalSpec
  import opened CrashRecovery

  /** `NextId` is one more than the greatest active id, or 1 if none is positive. */
  lemma {:induction false} NextIdIs(db: seq<Slot>)
    ensures NextId(db) >= 1 && (forall i :: 0 <= i < |db| && db[i].Used? ==> db[i].id < NextId(db))
    ensures NextId(db) > 1 ==> exists i :: 0 <= i < |db| && db[i].Used? && db[i].id + 1 == NextId(db)
  {
    if db != [] {
      var n := |db| - 1;
      NextIdIs(db[..n]);
      if db[n].Used? && db[n].id >= NextId(db[..n]) {
        assert db[n].id + 1 == NextId(db);
      } else if NextId(db) > 1 {
        var i :| 0 <= i < n && db[..n][i].Used? && db[..n][i].id + 1 == NextId(db);
        assert db[i].id + 1 == NextId(db);
      }
    }
  }

  // ----- a durable record replaced -----

  /** In a database of one slot, after the crash behind `fsync` of the first insert, the next
      insert gets its id: the record that the crash could not destroy is gone. */
  lemma IdsMayRepeat() returns (steps: seq<Step>, s: State)
    ensures Reaches(1, steps, s) && s.process.Up? && s.process.stage.Idle?
    ensures s.history == [Rec(1, "A"), Rec(1, "B")] && |Ids(s.history)| == 1
    ensures Lookup(s.db, 1) == Some("B")
  {
    var a, b := Rec(1, "A"), Rec(1, "B");
    steps, s := FirstLife(a);
    steps, s := SecondLife(steps, s, a, b);
    IdsAppend([], a);
    IdsAppend([a], b);
    assert [] + [a] == [a] && [a] + [b] == [a, b];
  }

  /** Insert A up to its `fsync`; then a crash. */
  lemma FirstLife(a: Rec) returns (steps: seq<Step>, s: State)
    requires a == Rec(1, "A")
    ensures Reaches(1, steps, s) && s == State([a], [], [Empty], [Empty], Down, [a])
  {
    s := Init(1);
    assert s == State([], [], [Empty], [Empty], Down, []);
    steps, s := Take([], s, Start);
    steps, s := Take(steps, s, Finish);
    steps, s := Take(steps, s, Insert("A"));
    steps, s := Take(steps, s, Fsync);
    steps, s := Take(steps, s, Crash(false, false, false));
  }

  /** Recovery replays A; then B is inserted. */
  lemma SecondLife(steps0: seq<Step>, s0: State, a: Rec, b: Rec) returns (steps: seq<Step>, s: State)
    requires a == Rec(1, "A") && b == Rec(1, "B")
    requires Reaches(1, steps0, s0) && s0 == State([a], [], [Empty], [Empty], Down, [a])
    ensures Reaches(1, steps, s) && s == State([b], [], [Used(1, "B")], [Used(1, "B")], Up(Idle, 2), [a, b])
  {
    steps, s := Take(steps0, s0, Start);
    steps, s := Take(steps, s, Replay);
    assert s.mapped == [Used(1, "A")];
    steps, s := Take(steps, s, ReplaySync);
    steps, s := Take(steps, s, Finish);
    steps, s := Take(steps, s, Insert("B"));
    steps, s := Take(steps, s, Fsync);
    steps, s := Take(steps, s, Write);
    assert s.mapped == [Used(1, "B")];
    steps, s := Take(steps, s, Msync);
  }

  lemma Take(steps: seq<Step>, s: State, step: Step) returns (steps': seq<Step>, s': State)
    requires Reaches(1, steps, s) && Enabled(s, step)
    ensures Reaches(1, steps', s') && s' == After(s, step)
  {
    steps', s' := steps + [step], After(s, step);
    ReachesOn(1, steps, s, step, s', steps');
  }

  // ----- when a restart hands out new ids only -----

  /** What can be read off log and database before a restart. */
  ghost predicate LogBelow(s: State) {
    forall i :: 0 <= i < |s.wal| ==> s.wal[i].id < NextId(s.db)
  }

  ghost predicate Below(h: seq<Rec>, n: int) {
    forall i :: 0 <= i < |h| ==> h[i].id < n
  }

  ghost predicate NoCrash(steps: seq<Step>) {
    forall i :: 0 <= i < |steps| ==> !steps[i].Crash?
  }

  /** Started from s, and until it crashes, the program never offers an insert the id of an
      entry made durable before, in this run or an earlier one. */
  ghost predicate OnlyNewIds(s: State) {
    forall more, s' {:trigger Leads(s, more, s')} ::
      Leads(s, more, s') && NoCrash(more) && s'.process.Up? && s'.process.stage.Idle? ==>
        s'.process.nextId !in Ids(s'.history)
  }

  /** The exact condition. */
  lemma NewIdsExactly(slots: nat, steps: seq<Step>, s: State)
    requires Reaches(slots, steps, s) && |Ids(s.history)| <= slots && s.process.Down?
    ensures OnlyNewIds(s) <==> LogBelow(s)
  {
    ReachesInv(slots, steps, s);
    BelowExactly(slots, s);
    if LogBelow(s) {
      forall more, s' | Leads(s, more, s') && NoCrash(more) && s'.process.Up? && s'.process.stage.Idle?
        ensures s'.process.nextId !in Ids(s'.history)
      {
        LifeBelow(s, more, s');
      }
    } else {
      var more, s' := ReusesId(s);
      assert !OnlyNewIds(s);
    }
  }

  /** Before a restart: all durable ids are below the next one if those in the log are. */
  lemma BelowExactly(slots: nat, s: State)
    requires Inv(slots, s)
    ensures Below(s.history, NextId(s.db)) <==> LogBelow(s)
  {
    NextIdIs(s.db);
    if LogBelow(s) {
      forall i | 0 <= i < |s.history| ensures s.history[i].id < NextId(s.db) {
        var id := s.history[i].id;
        assert id in Ids(s.history);
        FoldSome(s.history, id);
        LookupAt(s.db, id);
        if id in Ids(s.wal) {
          var j :| 0 <= j < |s.wal| && s.wal[j].id == id;
        }
      }
    }
  }

  /** While the program runs, its next id is above all durable ones. */
  ghost predicate CounterOk(s: State) {
    match s.process
    case Down => true
    case Recovering(_, _, _, n) => n >= 1 && Below(s.history, n)
    case Up(stage, n) =>
      && n >= 1 && Below(s.history, n)
      && (stage.Appended? ==> stage.r.id == n - 1 >= 1 && Below(s.history, n - 1))
  }

  lemma StepCounter(s: State, step: Step)
    requires CounterOk(s) && Enabled(s, step) && (step.Start? ==> Below(s.history, NextId(s.db)))
    ensures CounterOk(After(s, step))
  {
    if step.Start? {
      NextIdIs(s.db);
    }
  }

  lemma {:induction false} LifeBelow(s: State, more: seq<Step>, s': State)
    requires s.process.Down? && Below(s.history, NextId(s.db)) && Leads(s, more, s') && NoCrash(more)
    ensures CounterOk(s') && (s'.process.Down? ==> s' == s)
    decreases |more|
  {
    if more != [] {
      var s0, before, step := LedFrom(s, more, s');
      assert NoCrash(before) && !step.Crash? by {
        assert more[|before|] == step && forall i :: 0 <= i < |before| ==> more[i] == before[i];
      }
      LifeBelow(s, before, s0);
      StepCounter(s0, step);
    }
  }

  // ----- a run that hands out a used id -----

  /** Started with an entry in the log at or above the next id, the program can be led to
      offer that id again. */
  lemma ReusesId(s: State) returns (more: seq<Step>, s': State)
    requires s.process.Down? && Suffix(s.wal, s.history) && !LogBelow(s)
    ensures Leads(s, more, s') && NoCrash(more) && s'.process.Up? && s'.process.stage.Idle?
    ensures s'.process.nextId in Ids(s'.history)
  {
    var i :| 0 <= i < |s.wal| && s.wal[i].id >= NextId(s.db);
    var r := s.wal[i];
    assert s.history[|s.history| - |s.wal| + i] == r;
    more, s' := Onward(s, [], s, Start);
    more, s' := Recover(s, more, s', NextId(s.db));
    more, s' := InsertUpTo(s, more, s', r.id);
    assert r in s'.history;
    var j :| 0 <= j < |s'.history| && s'.history[j] == r;
  }

  lemma Onward(s: State, more0: seq<Step>, s0: State, step: Step) returns (more: seq<Step>, s': State)
    requires Leads(s, more0, s0) && NoCrash(more0) && Enabled(s0, step) && !step.Crash?
    ensures Leads(s, more, s') && NoCrash(more) && s' == After(s0, step)
  {
    more, s' := more0 + [step], After(s0, step);
    assert more[..|more0|] == more0;
  }

  /** Recovery to its end. */
  lemma {:induction false} Recover(s: State, more0: seq<Step>, s0: State, n: int) returns (more: seq<Step>, s': State)
    requires Leads(s, more0, s0) && NoCrash(more0) && s0.process.Recovering?
    requires s0.process.next <= |s0.wal| && s0.process.nextId == n
    ensures Leads(s, more, s') && NoCrash(more) && s'.process == Up(Idle, n) && s'.history == s0.history
    decreases |s0.wal| - s0.process.next, s0.process.pending
  {
    if s0.process.pending {
      more, s' := Onward(s, more0, s0, ReplaySync);
      more, s' := Recover(s, more, s', n);
    } else if s0.process.next < |s0.wal| {
      more, s' := Onward(s, more0, s0, Replay);
      more, s' := Recover(s, more, s', n);
    } else {
      more, s' := Onward(s, more0, s0, Finish);
    }
  }

  /** Inserts until the next id is the one given. */
  lemma {:induction false} InsertUpTo(s: State, more0: seq<Step>, s0: State, id: int) returns (more: seq<Step>, s': State)
    requires Leads(s, more0, s0) && NoCrash(more0) && s0.process.Up? && s0.process.stage.Idle?
    requires s0.process.nextId <= id
    ensures Leads(s, more, s') && NoCrash(more) && s'.process == Up(Idle, id) && s0.history <= s'.history
    decreases id - s0.process.nextId
  {
    more, s' := more0, s0;
    if s0.process.nextId < id {
      more, s' := InsertOne(s, more0, s0);
      more, s' := InsertUpTo(s, more, s', id);
    }
  }

  lemma InsertOne(s: State, more0: seq<Step>, s0: State) returns (more: seq<Step>, s': State)
    requires Leads(s, more0, s0) && NoCrash(more0) && s0.process.Up? && s0.process.stage.Idle?
    ensures Leads(s, more, s') && NoCrash(more) && s0.history <= s'.history
    ensures s'.process == Up(Idle, s0.process.nextId + 1)
  {
    more, s' := Onward(s, more0, s0, Insert(""));
    more, s' := Onward(s, more, s', Fsync);
    more, s' := Onward(s, more, s', Write);
    if s'.process.stage.Applied? {
      more, s' := Onward(s, more, s', Msync);
    }
  }

  // ----- runs whose restarts all meet the condition -----

  /** s is reached by these steps, and the condition held at every restart. */
  ghost predicate SafeRun(slots: nat, steps: seq<Step>, s: State)
    decreases |steps|
  {
    if steps == [] then s == Init(slots)
    else
      var before, step := steps[..|steps| - 1], steps[|steps| - 1];
      exists s0 :: SafeRun(slots, before, s0) && Next(s0, step, s) && (step.Start? ==> LogBelow(s0))
  }

  ghost predicate DistinctIds(h: seq<Rec>) {
    forall i, j :: 0 <= i < j < |h| ==> h[i].id != h[j].id
  }

  /** A record whose log entry was synced is not in the database of the disk before `msync`
      returned. */
  ghost predicate Behind(s: State) {
    s.process.Up? && (s.process.stage.Logged? || s.process.stage.Applied?) ==>
      var r := s.process.stage.r;
      r.id >= 1 && r in s.history && forall i :: 0 <= i < |s.db| && s.db[i].Used? ==> s.db[i].id < r.id
  }

  lemma StepBehind(slots: nat, s: State, step: Step)
    requires Inv(slots, s) && Enabled(s, step) && CounterOk(s) && Behind(s)
    ensures Behind(After(s, step))
  {
    if step.Fsync? {
      var r, h := s.process.stage.r, s.history + [s.process.stage.r];
      assert h[|s.history|] == r;
      IdsBelow(s.db, s.history, r.id);
    }
  }

  lemma StepDistinct(s: State, step: Step)
    requires CounterOk(s) && Enabled(s, step) && DistinctIds(s.history)
    ensures DistinctIds(After(s, step).history)
  {
  }

  /** In such a run all durable entries have ids of their own. */
  lemma {:induction false} SafeIds(slots: nat, steps: seq<Step>, s: State)
    requires SafeRun(slots, steps, s) && |Ids(s.history)| <= slots
    ensures Reaches(slots, steps, s) && CounterOk(s) && DistinctIds(s.history) && Behind(s)
    decreases |steps|
  {
    if steps != [] {
      var s0, before, step := SafelyFrom(slots, steps, s);
      StepHistory(s0, step);
      IdsGrow(s0.history, s.history);
      SafeIds(slots, before, s0);
      ReachesInv(slots, before, s0);
      BelowExactly(slots, s0);
      StepCounter(s0, step);
      StepDistinct(s0, step);
      StepBehind(slots, s0, step);
      ReachesOn(slots, before, s0, step, s, steps);
    }
  }

  lemma SafelyFrom(slots: nat, steps: seq<Step>, s: State) returns (s0: State, before: seq<Step>, step: Step)
    requires SafeRun(slots, steps, s) && steps != []
    ensures SafeRun(slots, before, s0) && Next(s0, step, s) && (step.Start? ==> LogBelow(s0)) && steps == before + [step]
  {
    before, step := steps[..|steps| - 1], steps[|steps| - 1];
    s0 :| SafeRun(slots, before, s0) && Next(s0, step, s) && (step.Start? ==> LogBelow(s0));
  }

  lemma {:induction false} FoldDistinct(h: seq<Rec>, r: Rec)
    requires DistinctIds(h) && r in h
    ensures Fold(h, r.id) == Some(r.name)
  {
    var n := |h| - 1;
    if h[n] != r {
      var i :| 0 <= i < |h| && h[i] == r;
      assert h[..n][i] == r;
      FoldDistinct(h[..n], r);
    }
  }

  /** In such a run every record ever made durable is in the database, under its own id,
      whenever the program is idle. */
  lemma NoneIsReplaced(slots: nat, steps: seq<Step>, s: State, r: Rec)
    requires SafeRun(slots, steps, s) && |Ids(s.history)| <= slots && s.process.Up? && s.process.stage.Idle?
    requires r in s.history
    ensures Lookup(s.db, r.id) == Some(r.name)
  {
    SafeIds(slots, steps, s);
    RecoveredIsUpToDate(slots, steps, s, r.id);
    FoldDistinct(s.history, r);
  }

  /** So a record whose `fsync` returned stays, whatever crashes and restarts follow. */
  lemma SyncedStays(slots: nat, steps: seq<Step>, s: State, more: seq<Step>, s': State)
    requires Reaches(slots, steps, s) && s.process.Up? && (s.process.stage.Logged? || s.process.stage.Applied?)
    requires Leads(s, more, s') && SafeRun(slots, steps + more, s') && |Ids(s'.history)| <= slots
    requires s'.process.Up? && s'.process.stage.Idle?
    ensures Lookup(s'.db, s.process.stage.r.id) == Some(s.process.stage.r.name)
  {
    HistoryGrows(s, more, s');
    IdsGrow(s.history, s'.history);
    ReachesInv(slots, steps, s);
    assert s.process.stage.r in s.history;
    NoneIsReplaced(slots, steps + more, s', s.process.stage.r);
  }

  /** Which crashes break the condition: those that leave the entry of the insert under way
      in the log, but not its record in the database. */
  lemma WhichCrashesBreakIt(slots: nat, steps: seq<Step>, s: State, crash: Step)
    requires SafeRun(slots, steps, s) && s.process.Up? && crash.Crash? && |Ids(s.history)| <= slots
    ensures LogBelow(After(s, crash)) <==>
      s.process.stage.Idle? || !Survives(s, crash) || (s.process.stage.Applied? && crash.keepWrite)
  {
    var c := After(s, crash);
    SafeIds(slots, steps, s);
    ReachesInv(slots, steps, s);
    StepInv(slots, s, crash);
    BelowExactly(slots, c);
    if s.process.stage.Idle? || !Survives(s, crash) || (s.process.stage.Applied? && crash.keepWrite) {
      UpToDateBelow(c.db, c.history);
    } else {
      var r := s.process.stage.r;
      assert r in c.history by {
        assert s.process.stage.Appended? ==> c.history[|s.history|] == r;
      }
      if s.process.stage.Appended? {
        IdsBelow(s.db, s.history, r.id);
      }
      AheadOf(c.db, c.history, r);
    }
  }

  lemma UpToDateBelow(db: seq<Slot>, h: seq<Rec>)
    requires UpToDate(db, h)
    ensures Below(h, NextId(db))
  {
    NextIdIs(db);
    forall i | 0 <= i < |h| ensures h[i].id < NextId(db) {
      assert h[i].id in Ids(h);
      FoldSome(h, h[i].id);
      LookupAt(db, h[i].id);
    }
  }

  lemma IdsBelow(db: seq<Slot>, h: seq<Rec>, n: int)
    requires IdsWithin(db, Ids(h)) && Below(h, n)
    ensures forall i :: 0 <= i < |db| && db[i].Used? ==> db[i].id < n
  {
    forall i | 0 <= i < |db| && db[i].Used? ensures db[i].id < n {
      var j :| 0 <= j < |h| && h[j].id == db[i].id;
    }
  }

  lemma AheadOf(db: seq<Slot>, h: seq<Rec>, r: Rec)
    requires r in h && r.id >= 1 && forall i :: 0 <= i < |db| && db[i].Used? ==> db[i].id < r.id
    ensures !Below(h, NextId(db))
  {
    NextIdIs(db);
  }
}
