// What insert_record of crashRecovery.c leaves of the name it is given, with and without a
// crash on the way.

module InsertRecord {
  import opened SeqFacts
  import opened WalSpec
  import opened CrashRecovery

  ghost predicate AtRest(s: State) {
    s.process.Up? && s.process.stage.Idle?
  }

  /** The insertion of name after its first k steps: the log entry, `fsync`, and the write to
      the slot. */
  ghost function Underway(s: State, name: string, k: nat): State
    requires AtRest(s) && 1 <= k <= 3
  {
    if k == 1 then After(s, Insert(name))
    else if k == 2 then After(After(s, Insert(name)), Fsync)
    else After(After(After(s, Insert(name)), Fsync), Write)
  }

  /** A name longer than 31 characters is cut there; the record goes under the next id. */
  lemma LoggedRecord(s: State, name: string)
    requires AtRest(s)
    ensures Underway(s, name, 1).process.stage
         == Appended(Rec(s.process.nextId, if |name| <= 31 then name else name[..31]))
    ensures Underway(s, name, 1).process.nextId == s.process.nextId + 1
  {
  }

  lemma UnderwayReached(slots: nat, steps: seq<Step>, s: State, name: string, k: nat) returns (steps': seq<Step>)
    requires Reaches(slots, steps, s) && AtRest(s) && 1 <= k <= 3
    ensures steps' == steps + [Insert(name), Fsync, Write][..k] && Reaches(slots, steps', Underway(s, name, k))
  {
    var all, s1 := [Insert(name), Fsync, Write], Underway(s, name, 1);
    steps' := steps + all[..1];
    assert all[..1] == [Insert(name)];
    ReachesOn(slots, steps, s, Insert(name), s1, steps');
    if k >= 2 {
      var s2 := After(s1, Fsync);
      var before := steps';
      steps' := steps + all[..2];
      assert steps' == before + [Fsync];
      ReachesOn(slots, before, s1, Fsync, s2, steps');
      if k == 3 {
        before := steps';
        steps' := steps + all[..3];
        assert steps' == before + [Write];
        ReachesOn(slots, before, s2, Write, After(s2, Write), steps');
      }
    }
  }

  /** Behind `fsync` the record is the last of the history, and there is a slot for it. */
  lemma SlotFound(slots: nat, s: State, r: Rec)
    requires Inv(slots, s) && s.process.Up? && s.process.stage == Logged(r) && |Ids(s.history)| <= slots
    ensures Target(s.mapped, r.id) < |s.mapped|
  {
    assert s.wal[|s.wal| - 1].id in Ids(s.wal) && s.history[|s.history| - 1].id in Ids(s.history);
    WriteKeeps(s.mapped, slots, s, r);
  }

  /** While the slots suffice, an insert ends with the name in the database under the next id,
      cut at 31 characters, and with every other id as it was. */
  lemma InsertStores(slots: nat, steps: seq<Step>, s: State, name: string, id: int)
    returns (steps': seq<Step>, s': State)
    requires Reaches(slots, steps, s) && AtRest(s) && |Ids(s.history) + {s.process.nextId}| <= slots
    ensures steps' == steps + [Insert(name), Fsync, Write, Msync] && Reaches(slots, steps', s')
    ensures AtRest(s') && s'.process.nextId == s.process.nextId + 1
    ensures Lookup(s'.db, id)
         == if id == s.process.nextId then Some(if |name| <= 31 then name else name[..31]) else Lookup(s.db, id)
  {
    LoggedRecord(s, name);
    var r := Underway(s, name, 1).process.stage.r;
    IdsAppend(s.history, r);
    IdsGrow(s.history, s.history + [r]);
    steps', s' := InsertEnds(slots, steps, s, name, r);
    RecoveredIsUpToDate(slots, steps, s, id);
    RecoveredIsUpToDate(slots, steps', s', id);
    FoldAppend(s.history, r, id);
  }

  lemma InsertEnds(slots: nat, steps: seq<Step>, s: State, name: string, r: Rec) returns (steps': seq<Step>, s': State)
    requires Reaches(slots, steps, s) && AtRest(s) && |Ids(s.history + [r])| <= slots
    requires Underway(s, name, 1).process.stage == Appended(r)
    ensures steps' == steps + [Insert(name), Fsync, Write, Msync] && Reaches(slots, steps', s')
    ensures AtRest(s') && s'.process.nextId == s.process.nextId + 1 && s'.history == s.history + [r]
  {
    NotAtRest(slots, steps, s, name, 3);
    var written := UnderwayReached(slots, steps, s, name, 3);
    s' := After(Underway(s, name, 3), Msync);
    steps' := steps + [Insert(name), Fsync, Write, Msync];
    assert steps' == written + [Msync];
    ReachesOn(slots, written, Underway(s, name, 3), Msync, s', steps');
  }

  /** A crash during the insertion of name, and whatever follows: whenever the program is at
      rest again, the database has the name under its id, if `fsync` had returned or the entry
      reached the disk anyway, or else nothing of it; and every other id as before, wherever no
      later durable entry decides. */
  lemma NameOrNothing(slots: nat, steps: seq<Step>, s: State, name: string, k: nat, crash: Step,
                      more: seq<Step>, s': State, id: int)
    requires Reaches(slots, steps, s) && AtRest(s) && 1 <= k <= 3 && crash.Crash?
    requires Enabled(Underway(s, name, k), crash)
    requires Leads(After(Underway(s, name, k), crash), more, s') && |Ids(s'.history)| <= slots && AtRest(s')
    ensures var h := After(Underway(s, name, k), crash).history;
      var kept := k >= 2 || (crash.keepEntry && (s.truncated == [] || crash.keepTruncation));
      h <= s'.history && (id !in Ids(s'.history[|h|..]) ==>
        Lookup(s'.db, id) == if kept && id == s.process.nextId then Some(if |name| <= 31 then name else name[..31])
                             else Lookup(s.db, id))
  {
    var c := Underway(s, name, k);
    var r := Underway(s, name, 1).process.stage.r;
    LoggedRecord(s, name);
    var steps' := UnderwayReached(slots, steps, s, name, k);
    HistoryGrows(After(c, crash), more, s');
    IdsGrow(After(c, crash).history, s'.history);
    StepHistory(c, crash);
    IdsGrow(c.history, After(c, crash).history);
    IdsGrow(s.history, c.history);
    RecoveredIsUpToDate(slots, steps, s, id);
    NotAtRest(slots, steps, s, name, k);
    CrashIsAllOrNothing(slots, steps', c, crash, more, s', id);
    FoldAppend(s.history, r, id);
  }

  /** With a slot for the id, the insertion is not over before `msync`. */
  lemma NotAtRest(slots: nat, steps: seq<Step>, s: State, name: string, k: nat)
    requires Reaches(slots, steps, s) && AtRest(s) && 1 <= k <= 3
    requires |Ids(Underway(s, name, k).history)| <= slots
    ensures var c := Underway(s, name, k);
      && c.process.Up?
      && if k == 1 then c.process.stage.Appended? else if k == 2 then c.process.stage.Logged? else c.process.stage.Applied?
  {
    if k == 3 {
      var logged := UnderwayReached(slots, steps, s, name, 2);
      ReachesInv(slots, logged, Underway(s, name, 2));
      SlotFound(slots, Underway(s, name, 2), Underway(s, name, 1).process.stage.r);
    }
  }
}
