// crashRecovery.c as a step system: inserts, crashes at any step (also inside recovery)
// and restarts.
//
// The disk holds the log and the records; the mapped records may be ahead of the disk by
// one write that `msync` has not returned for.  A crash keeps or loses that write, a log
// entry that `fsync` has not returned for, and the truncation of the log, which no `fsync`
// follows until the next insert.

module CrashRecovery {
  import opened SeqFacts
  import opened WalSpec

  const NAME_SIZE: nat := 32

  datatype Stage =
    | Idle
    | Appended(r: Rec)     // in `write_wal_entry`, before `fsync` returned
    | Logged(r: Rec)       // before `apply_to_database`
    | Applied(r: Rec)      // in `apply_to_database`, before `msync` returned

  datatype Process =
    | Down
    | Recovering(next: nat, recovered: nat, pending: bool, nextId: int)
    | Up(stage: Stage, nextId: int)

  datatype State = State(
    wal: seq<Rec>,          // the log
    truncated: seq<Rec>,    // what it held before a truncation that no `fsync` followed yet
    db: seq<Slot>,          // on disk
    mapped: seq<Slot>,      // as the process sees it
    process: Process,
    history: seq<Rec>)      // every entry ever made durable

  datatype Step =
    | Start
    | Replay                // the next entry of the log: skipped, or written to its slot
    | ReplaySync            // `msync` of the slot just replayed
    | Finish                // the end of recovery
    | Insert(name: string)  // up to the `write` of the log entry
    | Fsync
    | Write                 // the write to the slot
    | Msync
    | Crash(keepEntry: bool, keepWrite: bool, keepTruncation: bool)

  /** `strncpy` into the name field. */
  function Stored(name: string): string {
    if |name| < NAME_SIZE then name else name[..NAME_SIZE - 1]
  }

  /** `init_database`: one more than the greatest active id. */
  function NextId(db: seq<Slot>): int {
    if db == [] then 1
    else
      var rest := NextId(db[..|db| - 1]);
      var s := db[|db| - 1];
      if s.Used? && s.id >= rest then s.id + 1 else rest
  }

  function Init(slots: nat): State {
    State([], [], seq(slots, _ => Empty), seq(slots, _ => Empty), Down, [])
  }

  ghost predicate Enabled(s: State, step: Step) {
    match step
    case Start => s.process.Down?
    case Replay => s.process.Recovering? && !s.process.pending && s.process.next < |s.wal|
    case ReplaySync => s.process.Recovering? && s.process.pending
    case Finish => s.process.Recovering? && !s.process.pending && s.process.next == |s.wal|
    case Insert(_) => s.process.Up? && s.process.stage.Idle?
    case Fsync => s.process.Up? && s.process.stage.Appended?
    case Write => s.process.Up? && s.process.stage.Logged?
    case Msync => s.process.Up? && s.process.stage.Applied?
    case Crash(_, _, _) => !s.process.Down?
  }

  ghost function After(s: State, step: Step): State
    requires Enabled(s, step)
  {
    var p := s.process;
    match step
    case Start => s.(process := Recovering(0, 0, false, NextId(s.db)), mapped := s.db)
    case Replay =>
      var r := s.wal[p.next];
      if AlreadyApplied(s.mapped, r) || Target(s.mapped, r.id) == |s.mapped| then s.(process := p.(next := p.next + 1))
      else s.(mapped := Apply(s.mapped, r), process := p.(next := p.next + 1, recovered := p.recovered + 1, pending := true))
    case ReplaySync => s.(db := s.mapped, process := p.(pending := false))
    case Finish =>
      var s' := s.(process := Up(Idle, p.nextId));
      if p.recovered > 0 then s'.(wal := [], truncated := s.wal) else s'
    case Insert(name) => s.(process := Up(Appended(Rec(p.nextId, Stored(name))), p.nextId + 1))
    case Fsync =>
      s.(wal := s.wal + [p.stage.r], truncated := [], history := s.history + [p.stage.r],
         process := p.(stage := Logged(p.stage.r)))
    case Write =>
      var r := p.stage.r;
      if Target(s.mapped, r.id) == |s.mapped| then s.(process := p.(stage := Idle))
      else s.(mapped := Apply(s.mapped, r), process := p.(stage := Applied(r)))
    case Msync => s.(db := s.mapped, process := p.(stage := Idle))
    case Crash(keepEntry, keepWrite, keepTruncation) =>
      var d := if keepWrite then s.mapped else s.db;
      var s' := s.(truncated := [], db := d, mapped := d, process := Down);
      if s.truncated != [] && !keepTruncation then s'.(wal := s.truncated)
      else if keepEntry && p.Up? && p.stage.Appended? then s'.(wal := s.wal + [p.stage.r], history := s.history + [p.stage.r])
      else s'
  }

  ghost predicate Next(s: State, step: Step, s': State) {
    Enabled(s, step) && s' == After(s, step)
  }

  /** s is reached from an empty database by these steps. */
  ghost predicate Reaches(slots: nat, steps: seq<Step>, s: State)
    decreases |steps|
  {
    if steps == [] then s == Init(slots)
    else
      var before, step := steps[..|steps| - 1], steps[|steps| - 1];
      exists s0 :: Reaches(slots, before, s0) && Next(s0, step, s)
  }

  // ----- the invariant -----

  /** The database says what the whole history says, for every id or for those not in the
      log. */
  ghost predicate UpToDate(d: seq<Slot>, history: seq<Rec>) {
    forall id {:trigger Lookup(d, id)} :: Lookup(d, id) == Fold(history, id)
  }

  ghost predicate UpToLog(d: seq<Slot>, wal: seq<Rec>, history: seq<Rec>) {
    forall id {:trigger Lookup(d, id)} :: id !in Ids(wal) ==> Lookup(d, id) == Fold(history, id)
  }

  ghost predicate GoodDb(d: seq<Slot>, slots: nat, s: State) {
    |d| == slots && OwnIds(d) && IdsWithin(d, Ids(s.history)) && UpToLog(d, s.wal, s.history)
  }

  ghost predicate Suffix(wal: seq<Rec>, history: seq<Rec>) {
    |wal| <= |history| && wal == history[|history| - |wal|..]
  }

  ghost predicate EndsWith(h: seq<Rec>, r: Rec) {
    h != [] && h[|h| - 1] == r
  }

  ghost predicate PhaseOk(s: State) {
    match s.process
    case Down => s.mapped == s.db
    case Recovering(k, _, pending, _) =>
      k <= |s.wal| && Replayed(s.mapped, s.wal, k) && (!pending ==> s.mapped == s.db)
    case Up(stage, _) =>
      match stage
      case Idle => s.mapped == s.db && UpToDate(s.db, s.history)
      case Appended(_) => s.mapped == s.db && UpToDate(s.db, s.history)
      case Logged(r) =>
        && s.mapped == s.db && EndsWith(s.wal, r) && EndsWith(s.history, r)
        && forall id {:trigger Lookup(s.mapped, id)} :: Fold(s.history, id) == if id == r.id then Some(r.name) else Lookup(s.mapped, id)
      case Applied(r) => EndsWith(s.wal, r) && EndsWith(s.history, r) && UpToDate(s.mapped, s.history)
  }

  ghost predicate Inv(slots: nat, s: State) {
    && Suffix(s.wal, s.history) && GoodDb(s.db, slots, s) && GoodDb(s.mapped, slots, s) && PhaseOk(s)
    && Suffix(s.truncated, s.history)
    && (s.truncated != [] ==> s.process.Up? && (s.process.stage.Idle? || s.process.stage.Appended?))
  }

  lemma SuffixIds(wal: seq<Rec>, history: seq<Rec>, id: int)
    requires Suffix(wal, history)
    ensures id in Ids(wal) ==> id in Ids(history) && Fold(history, id) == Fold(wal, id)
  {
    var n := |history| - |wal|;
    assert history == history[..n] + wal;
    FoldSuffix(history[..n], wal, id);
    FoldSome(history, id);
    FoldSome(wal, id);
  }

  /** One more durable entry. */
  lemma LogKeeps(d: seq<Slot>, slots: nat, s: State, s': State, r: Rec)
    requires Suffix(s.wal, s.history) && GoodDb(d, slots, s)
    requires s'.wal == s.wal + [r] && s'.history == s.history + [r]
    ensures Suffix(s'.wal, s'.history) && GoodDb(d, slots, s')
  {
    IdsAppend(s.history, r);
    IdsAppend(s.wal, r);
    forall id | id !in Ids(s'.wal) ensures Lookup(d, id) == Fold(s'.history, id) {
      FoldAppend(s.history, r, id);
    }
    assert s.history + [r] == s.history[..|s.history| - |s.wal|] + (s.wal + [r]);
  }

  /** A write to the slot of an id in the log. */
  lemma WriteKeeps(d: seq<Slot>, slots: nat, s: State, r: Rec)
    requires GoodDb(d, slots, s) && r.id in Ids(s.wal) && r.id in Ids(s.history) && |Ids(s.history)| <= slots
    ensures Target(d, r.id) < |d| && GoodDb(Apply(d, r), slots, s)
    ensures forall id :: Lookup(Apply(d, r), id) == if id == r.id then Some(r.name) else Lookup(d, id)
  {
    HasRoom(d, Ids(s.history), r.id);
    ApplyKeeps(d, r, Ids(s.history));
    forall id ensures Lookup(Apply(d, r), id) == if id == r.id then Some(r.name) else Lookup(d, id) {
      ApplySets(d, r, id);
    }
  }

  lemma ReplayInv(slots: nat, s: State)
    requires Inv(slots, s) && Enabled(s, Replay) && |Ids(s.history)| <= slots
    ensures Inv(slots, After(s, Replay))
  {
    var k := s.process.next;
    var r, k', s' := s.wal[k], k + 1, After(s, Replay);
    assert r.id in Ids(s.wal);
    SuffixIds(s.wal, s.history, r.id);
    if AlreadyApplied(s.mapped, r) {
      SkipIsHarmless(s.mapped, r);
    } else {
      WriteKeeps(s.mapped, slots, s, r);
    }
    ReplayStep(s.mapped, s'.mapped, s.wal, k, k');
  }

  /** When every entry is replayed the database is up to date: truncating loses nothing. */
  lemma FinishInv(slots: nat, s: State)
    requires Inv(slots, s) && Enabled(s, Finish)
    ensures Inv(slots, After(s, Finish))
  {
    assert s.wal[..|s.wal|] == s.wal;
    forall id ensures Lookup(s.mapped, id) == Fold(s.history, id) {
      SuffixIds(s.wal, s.history, id);
    }
  }

  lemma FsyncInv(slots: nat, s: State)
    requires Inv(slots, s) && Enabled(s, Fsync)
    ensures Inv(slots, After(s, Fsync))
  {
    var r, s' := s.process.stage.r, After(s, Fsync);
    LogKeeps(s.db, slots, s, s', r);
    IdsAppend(s.history, r);
    forall id ensures Fold(s'.history, id) == if id == r.id then Some(r.name) else Lookup(s.mapped, id) {
      FoldAppend(s.history, r, id);
    }
  }

  lemma WriteInv(slots: nat, s: State)
    requires Inv(slots, s) && Enabled(s, Write) && |Ids(s.history)| <= slots
    ensures Inv(slots, After(s, Write))
  {
    var r := s.process.stage.r;
    assert s.wal[|s.wal| - 1].id in Ids(s.wal) && s.history[|s.history| - 1].id in Ids(s.history);
    WriteKeeps(s.mapped, slots, s, r);
  }

  lemma CrashInv(slots: nat, s: State, keepEntry: bool, keepWrite: bool, keepTruncation: bool)
    requires Inv(slots, s) && Enabled(s, Crash(keepEntry, keepWrite, keepTruncation))
    ensures Inv(slots, After(s, Crash(keepEntry, keepWrite, keepTruncation)))
  {
    var p, s' := s.process, After(s, Crash(keepEntry, keepWrite, keepTruncation));
    if keepEntry && p.Up? && p.stage.Appended? && (s.truncated == [] || keepTruncation) {
      LogKeeps(s'.db, slots, s, s', p.stage.r);
    }
  }

  lemma StepInv(slots: nat, s: State, step: Step)
    requires Inv(slots, s) && Enabled(s, step) && |Ids(s.history)| <= slots
    ensures Inv(slots, After(s, step))
  {
    match step
    case Start => assert s.wal[..0] == [];
    case Replay => ReplayInv(slots, s);
    case ReplaySync =>
    case Finish => FinishInv(slots, s);
    case Insert(_) =>
    case Fsync => FsyncInv(slots, s);
    case Write => WriteInv(slots, s);
    case Msync =>
    case Crash(keepEntry, keepWrite, keepTruncation) => CrashInv(slots, s, keepEntry, keepWrite, keepTruncation);
  }

  lemma {:induction false} EmptyLookup(d: seq<Slot>, id: int)
    requires forall i :: 0 <= i < |d| ==> d[i].Empty?
    ensures Lookup(d, id) == None
  {
    if d != [] {
      EmptyLookup(d[1..], id);
    }
  }

  lemma InitInv(slots: nat)
    ensures Inv(slots, Init(slots))
  {
    var d := Init(slots).db;
    forall id ensures Lookup(d, id) == None {
      EmptyLookup(d, id);
    }
  }

  lemma StepHistory(s: State, step: Step)
    requires Enabled(s, step)
    ensures s.history <= After(s, step).history
  {
  }

  lemma IdsWiden(h: seq<Rec>, h': seq<Rec>)
    requires h <= h'
    ensures Ids(h) <= Ids(h')
  {
    assert forall i :: 0 <= i < |h| ==> h[i] == h'[i];
  }

  lemma IdsGrow(h: seq<Rec>, h': seq<Rec>)
    requires h <= h'
    ensures |Ids(h)| <= |Ids(h')|
  {
    IdsWiden(h, h');
    assert Ids(h') == Ids(h) + (Ids(h') - Ids(h));
  }

  /** While the slots suffice, the invariant holds after every run. */
  lemma {:induction false} ReachesInv(slots: nat, steps: seq<Step>, s: State)
    requires Reaches(slots, steps, s) && |Ids(s.history)| <= slots
    ensures Inv(slots, s)
    decreases |steps|
  {
    if steps == [] {
      InitInv(slots);
    } else {
      var n := |steps| - 1;
      var s0 :| Reaches(slots, steps[..n], s0) && Next(s0, steps[n], s);
      StepHistory(s0, steps[n]);
      IdsGrow(s0.history, s.history);
      ReachesInv(slots, steps[..n], s0);
      StepInv(slots, s0, steps[n]);
    }
  }

  // ----- what follows -----

  /** Whenever the program is up and between inserts, in particular when a recovery has
      completed, the database holds for each id the last name made durable for it, after
      any crashes. */
  lemma RecoveredIsUpToDate(slots: nat, steps: seq<Step>, s: State, id: int)
    requires Reaches(slots, steps, s) && |Ids(s.history)| <= slots && s.process.Up? && s.process.stage.Idle?
    ensures Lookup(s.db, id) == Fold(s.history, id) && s.mapped == s.db
  {
    ReachesInv(slots, steps, s);
  }

  /** s' is reached from s by these steps. */
  ghost predicate Leads(s: State, steps: seq<Step>, s': State)
    decreases |steps|
  {
    if steps == [] then s' == s
    else
      var before, step := steps[..|steps| - 1], steps[|steps| - 1];
      exists s0 :: Leads(s, before, s0) && Next(s0, step, s')
  }

  lemma {:induction false} HistoryGrows(s: State, steps: seq<Step>, s': State)
    requires Leads(s, steps, s')
    ensures s.history <= s'.history
    decreases |steps|
  {
    if steps != [] {
      var s0, before, step := LedFrom(s, steps, s');
      HistoryGrows(s, before, s0);
      StepHistory(s0, step);
    }
  }

  lemma ReachesOn(slots: nat, steps: seq<Step>, s0: State, step: Step, s: State, steps': seq<Step>)
    requires Reaches(slots, steps, s0) && Next(s0, step, s) && steps' == steps + [step]
    ensures Reaches(slots, steps', s)
  {
    assert steps'[..|steps|] == steps;
  }

  lemma LedFrom(s: State, more: seq<Step>, s': State) returns (s0: State, before: seq<Step>, step: Step)
    requires Leads(s, more, s') && more != []
    ensures Leads(s, before, s0) && Next(s0, step, s') && more == before + [step]
  {
    before, step := more[..|more| - 1], more[|more| - 1];
    s0 :| Leads(s, before, s0) && Next(s0, step, s');
  }

  lemma {:induction false} LeadsReaches(slots: nat, steps: seq<Step>, s: State, more: seq<Step>, s': State, all: seq<Step>)
    requires Reaches(slots, steps, s) && Leads(s, more, s') && all == steps + more
    ensures Reaches(slots, all, s')
    decreases |more|
  {
    if more == [] {
      assert all == steps;
    } else {
      var s0, before, step := LedFrom(s, more, s');
      LeadsReaches(slots, steps, s, before, s0, steps + before);
      assert all == (steps + before) + [step];
      ReachesOn(slots, steps + before, s0, step, s', all);
    }
  }

  /** A record whose log entry was synced is the last one logged for its id. */
  lemma SyncedIsLast(slots: nat, s: State)
    requires Inv(slots, s) && s.process.Up? && (s.process.stage.Logged? || s.process.stage.Applied?)
    ensures Fold(s.history, s.process.stage.r.id) == Some(s.process.stage.r.name)
  {
  }

  /** What the disk says of an id: the log, or else the database. */
  ghost function OnDisk(s: State, id: int): Option<string> {
    if id in Ids(s.wal) then Fold(s.wal, id) else Lookup(s.db, id)
  }

  /** At every moment, also in the middle of an insert or of a recovery, log and database
      together hold the last name made durable for every id. */
  lemma NothingIsLost(slots: nat, steps: seq<Step>, s: State, more: seq<Step>, s': State, id: int)
    requires Reaches(slots, steps, s) && Leads(s, more, s') && |Ids(s'.history)| <= slots
    ensures s.history <= s'.history && OnDisk(s', id) == Fold(s'.history, id)
    ensures id in Ids(s.history) ==> OnDisk(s', id).Some?
  {
    HistoryGrows(s, more, s');
    LeadsReaches(slots, steps, s, more, s', steps + more);
    ReachesInv(slots, steps + more, s');
    SuffixIds(s'.wal, s'.history, id);
    FoldSome(s'.history, id);
    IdsWiden(s.history, s'.history);
  }

  /** After a crash during an insert and whatever follows, the database has all of the insert
      or nothing of it, wherever no later durable entry interferes: all of it if `fsync` had
      returned, or if the entry reached the disk anyway; and for all other ids, what was
      durable before. */
  lemma CrashIsAllOrNothing(slots: nat, steps: seq<Step>, s: State, crash: Step, more: seq<Step>, s': State, id: int)
    requires Reaches(slots, steps, s) && s.process.Up? && !s.process.stage.Idle? && crash.Crash?
    requires Leads(After(s, crash), more, s') && |Ids(s'.history)| <= slots && s'.process.Up? && s'.process.stage.Idle?
    ensures var h := After(s, crash).history;
      h <= s'.history && (id !in Ids(s'.history[|h|..]) ==>
        Lookup(s'.db, id) == if Survives(s, crash) && id == s.process.stage.r.id then Some(s.process.stage.r.name) else Fold(s.history, id))
  {
    var c := After(s, crash);
    ReachesOn(slots, steps, s, crash, c, steps + [crash]);
    LaterDecides(slots, steps + [crash], c, more, s', id);
    StepHistory(s, crash);
    IdsGrow(s.history, c.history);
    IdsGrow(c.history, s'.history);
    ReachesInv(slots, steps, s);
    CrashHistory(slots, s, crash, id);
  }

  /** Whenever the program is idle again, a later durable entry decides for its id; for the
      others the database holds what was durable before. */
  lemma LaterDecides(slots: nat, steps: seq<Step>, s: State, more: seq<Step>, s': State, id: int)
    requires Reaches(slots, steps, s) && Leads(s, more, s')
    requires |Ids(s'.history)| <= slots && s'.process.Up? && s'.process.stage.Idle?
    ensures s.history <= s'.history &&
      var later := s'.history[|s.history|..];
      Lookup(s'.db, id) == if id in Ids(later) then Fold(later, id) else Fold(s.history, id)
  {
    HistoryGrows(s, more, s');
    var later := s'.history[|s.history|..];
    LeadsReaches(slots, steps, s, more, s', steps + more);
    RecoveredIsUpToDate(slots, steps + more, s', id);
    assert s'.history == s.history + later;
    FoldSuffix(s.history, later, id);
  }

  /** Whether the entry of the insert under way outlives a crash. */
  predicate Survives(s: State, crash: Step)
    requires s.process.Up? && crash.Crash?
  {
    s.process.stage.Appended? ==> crash.keepEntry && (s.truncated == [] || crash.keepTruncation)
  }

  lemma CrashHistory(slots: nat, s: State, crash: Step, id: int)
    requires Inv(slots, s) && s.process.Up? && !s.process.stage.Idle? && crash.Crash?
    ensures var r := s.process.stage.r;
      Fold(After(s, crash).history, id) == if Survives(s, crash) && id == r.id then Some(r.name) else Fold(s.history, id)
  {
    FoldAppend(s.history, s.process.stage.r, id);
  }

  /** From the moment `fsync` returned for a record, whatever crashes and restarts follow:
      whenever the program is up and idle again, the record is there, unless a later durable
      entry for the same id took its place. */
  lemma SyncedSurvives(slots: nat, steps: seq<Step>, s: State, more: seq<Step>, s': State)
    requires Reaches(slots, steps, s) && s.process.Up? && (s.process.stage.Logged? || s.process.stage.Applied?)
    requires Leads(s, more, s') && |Ids(s'.history)| <= slots && s'.process.Up? && s'.process.stage.Idle?
    ensures s.history <= s'.history &&
      var r, later := s.process.stage.r, s'.history[|s.history|..];
      Lookup(s'.db, r.id) == if r.id in Ids(later) then Fold(later, r.id) else Some(r.name)
  {
    LaterDecides(slots, steps, s, more, s', s.process.stage.r.id);
    IdsGrow(s.history, s'.history);
    ReachesInv(slots, steps, s);
    SyncedIsLast(slots, s);
  }
}
