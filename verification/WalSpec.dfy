// The records of crashRecovery.c: slots, the entries of the log, and what replaying does.

module WalSpec {
  import opened SeqFacts

  /** A record, as it is logged and applied. */
  datatype Rec = Rec(id: int, name: string)

  datatype Slot = Empty | Used(id: int, name: string)

  /** The name a database holds for an id. */
  function Lookup(db: seq<Slot>, id: int): Option<string> {
    if db == [] then None
    else if db[0].Used? && db[0].id == id then Some(db[0].name)
    else Lookup(db[1..], id)
  }

  /** The first slot of the id, or |db|. */
  function SlotOf(db: seq<Slot>, id: int): (i: nat)
    ensures i <= |db| && (i < |db| ==> db[i].Used? && db[i].id == id)
    ensures forall j :: 0 <= j < i ==> !(db[j].Used? && db[j].id == id)
  {
    if db == [] || (db[0].Used? && db[0].id == id) then 0 else 1 + SlotOf(db[1..], id)
  }

  /** The first empty slot, or |db|. */
  function EmptySlot(db: seq<Slot>): (i: nat)
    ensures i <= |db| && (i < |db| ==> db[i].Empty?)
    ensures forall j :: 0 <= j < i ==> db[j].Used?
  {
    if db == [] || db[0].Empty? then 0 else 1 + EmptySlot(db[1..])
  }

  /** The slot that `apply_to_database` chooses, or |db| if the database is full. */
  function Target(db: seq<Slot>, id: int): (i: nat)
    ensures i <= |db| && (i == |db| <==> forall j :: 0 <= j < |db| ==> db[j].Used? && db[j].id != id)
  {
    if SlotOf(db, id) < |db| then SlotOf(db, id) else EmptySlot(db)
  }

  /** `apply_to_database` */
  function Apply(db: seq<Slot>, r: Rec): (d: seq<Slot>)
    ensures |d| == |db|
  {
    var i := Target(db, r.id);
    if i < |db| then db[i := Used(r.id, r.name)] else db
  }

  lemma {:induction false} LookupAt(db: seq<Slot>, id: int)
    ensures Lookup(db, id) == if SlotOf(db, id) < |db| then Some(db[SlotOf(db, id)].name) else None
  {
    if db != [] && !(db[0].Used? && db[0].id == id) {
      LookupAt(db[1..], id);
    }
  }

  lemma {:induction false} SlotIs(db: seq<Slot>, id: int, i: nat)
    requires i <= |db| && (i < |db| ==> db[i].Used? && db[i].id == id)
    requires forall j :: 0 <= j < i ==> !(db[j].Used? && db[j].id == id)
    ensures SlotOf(db, id) == i
  {
  }

  /** Applying a record sets the name of its id and of no other. */
  lemma ApplySets(db: seq<Slot>, r: Rec, id: int)
    requires Target(db, r.id) < |db|
    ensures Lookup(Apply(db, r), id) == if id == r.id then Some(r.name) else Lookup(db, id)
  {
    var i, d := Target(db, r.id), Apply(db, r);
    LookupAt(db, id);
    LookupAt(d, id);
    if id == r.id {
      SlotIs(d, id, i);
    } else {
      SlotIs(d, id, SlotOf(db, id));
    }
  }

  // ----- room -----

  ghost function Ids(h: seq<Rec>): set<int> {
    set i | 0 <= i < |h| :: h[i].id
  }

  ghost predicate OwnIds(db: seq<Slot>) {
    forall i, j :: 0 <= i < j < |db| && db[i].Used? && db[j].Used? ==> db[i].id != db[j].id
  }

  ghost predicate IdsWithin(db: seq<Slot>, ids: set<int>) {
    forall i :: 0 <= i < |db| && db[i].Used? ==> db[i].id in ids
  }

  lemma {:induction false} UsedBound(db: seq<Slot>, ids: set<int>)
    requires OwnIds(db) && IdsWithin(db, ids) && forall i :: 0 <= i < |db| ==> db[i].Used?
    ensures |db| <= |ids|
  {
    if db != [] {
      var n := |db| - 1;
      UsedBound(db[..n], ids - {db[n].id});
    }
  }

  /** While the ids in use are no more than the slots, there is a slot for each. */
  lemma HasRoom(db: seq<Slot>, ids: set<int>, id: int)
    requires OwnIds(db) && IdsWithin(db, ids) && id in ids && |ids| <= |db|
    ensures Target(db, id) < |db|
  {
    if SlotOf(db, id) == |db| && EmptySlot(db) == |db| {
      UsedBound(db, ids - {id});
    }
  }

  lemma ApplyKeeps(db: seq<Slot>, r: Rec, ids: set<int>)
    requires OwnIds(db) && IdsWithin(db, ids) && r.id in ids
    ensures OwnIds(Apply(db, r)) && IdsWithin(Apply(db, r), ids)
  {
  }

  // ----- the log -----

  /** The last name logged for an id. */
  ghost function Fold(h: seq<Rec>, id: int): Option<string> {
    if h == [] then None
    else if h[|h| - 1].id == id then Some(h[|h| - 1].name)
    else Fold(h[..|h| - 1], id)
  }

  lemma FoldAppend(h: seq<Rec>, r: Rec, id: int)
    ensures Fold(h + [r], id) == if id == r.id then Some(r.name) else Fold(h, id)
  {
    assert (h + [r])[..|h|] == h;
  }

  lemma IdsAppend(h: seq<Rec>, r: Rec)
    ensures Ids(h + [r]) == Ids(h) + {r.id}
  {
    var t := h + [r];
    assert t[|h|] == r && forall i :: 0 <= i < |h| ==> t[i] == h[i];
  }

  lemma {:induction false} FoldSome(h: seq<Rec>, id: int)
    ensures Fold(h, id).Some? <==> id in Ids(h)
  {
    if h != [] {
      var n := |h| - 1;
      FoldSome(h[..n], id);
      assert h == h[..n] + [h[n]];
      IdsAppend(h[..n], h[n]);
    }
  }

  /** The end of a history decides for the ids it mentions. */
  lemma {:induction false} FoldSuffix(a: seq<Rec>, b: seq<Rec>, id: int)
    ensures Fold(a + b, id) == if id in Ids(b) then Fold(b, id) else Fold(a, id)
  {
    if b == [] {
      assert a + b == a;
    } else {
      var n := |b| - 1;
      assert b == b[..n] + [b[n]] && a + b == (a + b[..n]) + [b[n]];
      FoldSuffix(a, b[..n], id);
      FoldAppend(a + b[..n], b[n], id);
      FoldAppend(b[..n], b[n], id);
      IdsAppend(b[..n], b[n]);
    }
  }

  /** d holds what the first k entries of the log say, for the ids they mention. */
  ghost predicate Replayed(d: seq<Slot>, wal: seq<Rec>, k: nat)
    requires k <= |wal|
  {
    forall id {:trigger Lookup(d, id)} :: id in Ids(wal[..k]) ==> Lookup(d, id) == Fold(wal[..k], id)
  }

  /** The test that lets recovery skip an entry. */
  predicate AlreadyApplied(db: seq<Slot>, r: Rec) {
    exists i :: 0 <= i < |db| && db[i] == Used(r.id, r.name)
  }

  lemma SkipIsHarmless(db: seq<Slot>, r: Rec)
    requires OwnIds(db) && AlreadyApplied(db, r)
    ensures Lookup(db, r.id) == Some(r.name)
  {
    var i :| 0 <= i < |db| && db[i] == Used(r.id, r.name);
    SlotIs(db, r.id, i);
    LookupAt(db, r.id);
  }

  /** One more entry, skipped or applied. */
  lemma ReplayStep(d: seq<Slot>, d': seq<Slot>, wal: seq<Rec>, k: nat, k': nat)
    requires k < |wal| && k' == k + 1 && Replayed(d, wal, k)
    requires forall id :: Lookup(d', id) == if id == wal[k].id then Some(wal[k].name) else Lookup(d, id)
    ensures Replayed(d', wal, k')
  {
    PrefixStep(wal, k);
    IdsAppend(wal[..k], wal[k]);
    forall id | id in Ids(wal[..k']) ensures Lookup(d', id) == Fold(wal[..k'], id) {
      FoldAppend(wal[..k], wal[k], id);
    }
  }

  /** One entry of the log in recovery. */
  function ReplayEntry(db: seq<Slot>, r: Rec): seq<Slot> {
    if AlreadyApplied(db, r) then db else Apply(db, r)
  }

  /** The database after recovery, and how many entries it counts as recovered. */
  function ReplayAll(db: seq<Slot>, wal: seq<Rec>): (seq<Slot>, nat) {
    if wal == [] then (db, 0)
    else
      var (d, n) := ReplayAll(db, wal[..|wal| - 1]);
      var r := wal[|wal| - 1];
      (ReplayEntry(d, r), if AlreadyApplied(d, r) || Target(d, r.id) == |d| then n else n + 1)
  }

  lemma ReplayMore(db: seq<Slot>, wal: seq<Rec>, k: nat)
    requires k < |wal|
    ensures var (d, n) := ReplayAll(db, wal[..k]);
      ReplayAll(db, wal[..k + 1])
      == (ReplayEntry(d, wal[k]), if AlreadyApplied(d, wal[k]) || Target(d, wal[k].id) == |d| then n else n + 1)
  {
    PrefixStep(wal, k);
  }

  /** Recovery counts nothing exactly when every entry was in place: then the log is kept,
      and nothing is changed. */
  lemma {:induction false} CountsNothing(db: seq<Slot>, wal: seq<Rec>, ids: set<int>)
    requires OwnIds(db) && IdsWithin(db, ids) && Ids(wal) <= ids && |ids| <= |db|
    ensures var (d, n) := ReplayAll(db, wal);
      && |d| == |db| && OwnIds(d) && IdsWithin(d, ids)
      && (n == 0 <==> forall k :: 0 <= k < |wal| ==> AlreadyApplied(db, wal[k]))
      && (n == 0 ==> d == db)
  {
    if wal != [] {
      var n := |wal| - 1;
      var r := wal[n];
      assert r.id in Ids(wal);
      IdsAppend(wal[..n], r);
      assert wal[..n] + [r] == wal;
      CountsNothing(db, wal[..n], ids);
      var d := ReplayAll(db, wal[..n]).0;
      HasRoom(d, ids, r.id);
      ApplyKeeps(d, r, ids);
    }
  }

  /** Replaying leaves the last name the log gives, and other ids as they were. */
  lemma {:induction false} ReplayLooksUp(db: seq<Slot>, wal: seq<Rec>, ids: set<int>, id: int)
    requires OwnIds(db) && IdsWithin(db, ids) && Ids(wal) <= ids && |ids| <= |db|
    ensures Lookup(ReplayAll(db, wal).0, id) == NameThen(db, wal, id)
  {
    if wal != [] {
      var n := |wal| - 1;
      var r := wal[n];
      assert r.id in Ids(wal);
      IdsAppend(wal[..n], r);
      assert wal[..n] + [r] == wal;
      CountsNothing(db, wal[..n], ids);
      ReplayLooksUp(db, wal[..n], ids, id);
      var d := ReplayAll(db, wal[..n]).0;
      HasRoom(d, ids, r.id);
      ApplySets(d, r, id);
      if AlreadyApplied(d, r) {
        SkipIsHarmless(d, r);
      }
    }
  }

  /** The name of an id in db once the log is replayed. */
  ghost function NameThen(db: seq<Slot>, wal: seq<Rec>, id: int): Option<string> {
    if id in Ids(wal) then Fold(wal, id) else Lookup(db, id)
  }

  /** The entries that change a name when their turn comes. */
  ghost function Changing(db: seq<Slot>, wal: seq<Rec>): set<nat> {
    set k | 0 <= k < |wal| && NameThen(db, wal[..k], wal[k].id) != Some(wal[k].name)
  }

  lemma ChangingMore(db: seq<Slot>, wal: seq<Rec>, r: Rec)
    ensures Changing(db, wal + [r]) == Changing(db, wal) + if NameThen(db, wal, r.id) != Some(r.name) then {|wal|} else {}
    ensures |wal| !in Changing(db, wal)
  {
    var all := wal + [r];
    assert all[..|wal|] == wal && forall k :: 0 <= k < |wal| ==> all[..k] == wal[..k] && all[k] == wal[k];
  }

  lemma AppliedIs(db: seq<Slot>, r: Rec)
    requires OwnIds(db)
    ensures AlreadyApplied(db, r) <==> Lookup(db, r.id) == Some(r.name)
  {
    LookupAt(db, r.id);
    if AlreadyApplied(db, r) {
      SkipIsHarmless(db, r);
    }
  }

  /** Recovery counts just those. */
  lemma {:induction false} CountIs(db: seq<Slot>, wal: seq<Rec>, ids: set<int>)
    requires OwnIds(db) && IdsWithin(db, ids) && Ids(wal) <= ids && |ids| <= |db|
    ensures ReplayAll(db, wal).1 == |Changing(db, wal)|
  {
    if wal != [] {
      var before, r := wal[..|wal| - 1], wal[|wal| - 1];
      assert r.id in Ids(wal) && before + [r] == wal;
      IdsAppend(before, r);
      CountIs(db, before, ids);
      ChangingMore(db, before, r);
      CountsNothing(db, before, ids);
      ReplayLooksUp(db, before, ids, r.id);
      HasRoom(ReplayAll(db, before).0, ids, r.id);
      AppliedIs(ReplayAll(db, before).0, r);
    }
  }

  // ----- the loops -----

  /** `apply_to_database`: the two searches, and the write. */
  method ApplyToDatabase(db: array<Slot>, r: Rec) returns (ok: bool)
    modifies db
    ensures db[..] == Apply(old(db[..]), r) && (ok <==> Target(old(db[..]), r.id) < db.Length)
    ensures ok <==> exists j :: 0 <= j < db.Length && (old(db[j]).Used? ==> old(db[j]).id == r.id)
  {
    var slot := db.Length;
    for i := 0 to db.Length
      invariant slot == db.Length && db[..] == old(db[..])
      invariant forall j :: 0 <= j < i ==> !(db[j].Used? && db[j].id == r.id)
    {
      if db[i].Used? && db[i].id == r.id {
        slot := i;
        break;
      }
    }
    SlotIs(db[..], r.id, slot);
    if slot == db.Length {
      for i := 0 to db.Length
        invariant slot == db.Length && db[..] == old(db[..])
        invariant forall j :: 0 <= j < i ==> db[j].Used?
      {
        if db[i].Empty? {
          slot := i;
          break;
        }
      }
      EmptyIs(db[..], slot);
    }
    if slot == db.Length {
      return false;
    }
    db[slot] := Used(r.id, r.name);
    return true;
  }

  lemma {:induction false} EmptyIs(db: seq<Slot>, i: nat)
    requires i <= |db| && (i < |db| ==> db[i].Empty?) && forall j :: 0 <= j < i ==> db[j].Used?
    ensures EmptySlot(db) == i
  {
  }

  /** `recover_from_wal`, not interrupted: afterwards the database holds the last name the
      log gives, and what it held for ids that are not in the log. */
  method RecoverFromWal(db: array<Slot>, wal: seq<Rec>, ghost ids: set<int>) returns (recovered: nat, wal': seq<Rec>)
    requires OwnIds(db[..]) && IdsWithin(db[..], ids) && Ids(wal) <= ids && |ids| <= db.Length
    modifies db
    ensures forall id :: Lookup(db[..], id) == if id in Ids(wal) then Fold(wal, id) else Lookup(old(db[..]), id)
    ensures OwnIds(db[..]) && IdsWithin(db[..], ids)
    ensures (db[..], recovered) == ReplayAll(old(db[..]), wal)
    ensures recovered == |Changing(old(db[..]), wal)|
    ensures wal' == if recovered > 0 then [] else wal
  {
    ghost var before := db[..];
    recovered := ReplayLog(db, wal, ids);
    CountIs(before, wal, ids);
    wal' := if recovered > 0 then [] else wal;
  }

  /** The replay loop. */
  method ReplayLog(db: array<Slot>, wal: seq<Rec>, ghost ids: set<int>) returns (recovered: nat)
    requires OwnIds(db[..]) && IdsWithin(db[..], ids) && Ids(wal) <= ids && |ids| <= db.Length
    modifies db
    ensures forall id :: Lookup(db[..], id) == if id in Ids(wal) then Fold(wal, id) else Lookup(old(db[..]), id)
    ensures OwnIds(db[..]) && IdsWithin(db[..], ids)
    ensures (db[..], recovered) == ReplayAll(old(db[..]), wal)
  {
    ghost var start := db[..];
    recovered := 0;
    for k := 0 to |wal|
      invariant (db[..], recovered) == ReplayAll(start, wal[..k])
      invariant OwnIds(db[..]) && IdsWithin(db[..], ids) && Replayed(db[..], wal, k)
      invariant forall id :: id !in Ids(wal) ==> Lookup(db[..], id) == Lookup(old(db[..]), id)
    {
      ReplayMore(start, wal, k);
      recovered := ReplayOne(db, wal, k, k + 1, recovered, ids);
    }
    assert wal[..|wal|] == wal;
  }

  method ReplayOne(db: array<Slot>, wal: seq<Rec>, k: nat, ghost k': nat, count: nat, ghost ids: set<int>) returns (recovered: nat)
    requires k < |wal| && k' == k + 1 && Replayed(db[..], wal, k)
    requires OwnIds(db[..]) && IdsWithin(db[..], ids) && Ids(wal) <= ids && |ids| <= db.Length
    modifies db
    ensures Replayed(db[..], wal, k') && OwnIds(db[..]) && IdsWithin(db[..], ids)
    ensures forall id :: id !in Ids(wal) ==> Lookup(db[..], id) == Lookup(old(db[..]), id)
    ensures db[..] == ReplayEntry(old(db[..]), wal[k])
    ensures recovered == if AlreadyApplied(old(db[..]), wal[k]) || Target(old(db[..]), wal[k].id) == db.Length then count else count + 1
  {
    recovered := count;
    ghost var d, r := db[..], wal[k];
    assert r.id in Ids(wal);
    var alreadyApplied := false;
    for i := 0 to db.Length
      invariant !alreadyApplied && db[..] == d && forall j :: 0 <= j < i ==> d[j] != Used(r.id, r.name)
    {
      if db[i] == Used(wal[k].id, wal[k].name) {
        alreadyApplied := true;
        assert d[i] == Used(r.id, r.name);
        break;
      }
    }
    if alreadyApplied {
      SkipIsHarmless(d, r);
    } else {
      HasRoom(d, ids, r.id);
      ApplyKeeps(d, r, ids);
      var ok := ApplyToDatabase(db, wal[k]);
      if ok {
        recovered := count + 1;
      }
      forall id ensures Lookup(db[..], id) == if id == r.id then Some(r.name) else Lookup(d, id) {
        ApplySets(d, r, id);
      }
    }
    ReplayStep(d, db[..], wal, k, k');
  }
}
