/** What every run of the syncflow protocol keeps, and where its hypotheses are needed. */
module SyncSafety {
  import opened Wrappers
  import opened Cells
  import opened RowText
  import opened Compare
  import opened Getter
  import opened Loader
  import opened ReadBack
  import opened Patch
  import opened PatchCases
  import opened SyncProtocol
  import opened SyncControl
  import opened SyncData

  // ---- The invariant over runs ----

  ghost predicate Safe(s: State, h: Hashes) {
    ControlOk(s) && DataOk(s, h)
  }

  lemma InitSafe(s: State, h: Hashes)
    requires Init(s)
    ensures Safe(s, h)
  {
  }

  lemma StepKeepsSafe(s: State, act: Action, h: Hashes)
    requires Safe(s, h) && Enabled(s, act, h) && Assumed(s, act)
    ensures Safe(Next(s, act, h), h)
  {
    ControlKept(s, act, h);
    hide ControlOk, DataOk, Next, Enabled, Assumed;
    match act {
      case Ingest(id, snap) => IngestKept(s, id, snap, h);
      case LoadCommit(id, db) => LoadCommitKept(s, id, db, h);
      case EmitSuccess(id) => EmitSuccessKept(s, id, h);
      case Finish(id) => FinishKept(s, id, h);
      case HandledFailure(id) => FailureKept(s, id, h);
      case HandleSuccess(i) => HandleSuccessKept(s, i, h);
      case _ => QuietStep(s, act, h);
    }
  }

  lemma {:induction false} RunIsSafe(states: seq<State>, h: Hashes)
    requires IsRun(states, h)
    ensures Safe(states[|states| - 1], h)
  {
    var n := |states| - 1;
    if n == 0 {
      InitSafe(states[0], h);
    } else {
      ShorterRun(states, h);
      hide *;
      RunIsSafe(states[..n], h);
      AnyStepKeepsSafe(states[n - 1], states[n], h);
    }
  }

  lemma ShorterRun(states: seq<State>, h: Hashes)
    requires IsRun(states, h) && |states| > 1
    ensures IsRun(states[..|states| - 1], h) && Step(states[|states| - 2], states[|states| - 1], h)
  {
  }

  lemma AnyStepKeepsSafe(s: State, s': State, h: Hashes)
    requires Safe(s, h) && Step(s, s', h)
    ensures Safe(s', h)
  {
    hide Safe, Next, Enabled, Assumed;
    var act :| Enabled(s, act, h) && Assumed(s, act) && s' == Next(s, act, h);
    StepKeepsSafe(s, act, h);
  }

  // ---- The destination ----

  /** Nothing of the version has been loaded while the syncflow is IDLING. */
  lemma IdleUnmarked(s: State)
    requires ControlOk(s) && TableOk(s) && s.status == Idling
    ensures s.version !in s.db.marks && IdleOk(s)
  {
  }

  /** Whenever the syncflow is IDLING, the destination's live rows are the snapshot of `prevVersion`
      cell by cell and the only mark is that version's; before the first success both are empty. */
  lemma IdleHoldsPrevious(states: seq<State>, h: Hashes)
    requires IsRun(states, h) && states[|states| - 1].status == Idling
    ensures var s := states[|states| - 1];
      if s.prev == 0 then s.db.marks == map[] && s.db.table == map[]
      else && s.db.marks.Keys == {s.prev} && s.prev in s.snaps
           && s.snaps[s.prev].Valid() && Holds(s.db.table, s.snaps[s.prev])
  {
    RunIsSafe(states, h);
    IdleUnmarked(states[|states| - 1]);
    hide Holds, Snapshot.Valid, ControlOk;
  }

  // ---- Versions and runs ----

  /** One version is in progress at a time, and its runs are the only active ones. */
  lemma OneVersionInProgress(states: seq<State>, h: Hashes, a: RunId, b: RunId)
    requires IsRun(states, h)
    ensures var s := states[|states| - 1];
      && s.prev < s.version
      && (IsActive(s, a) ==> a.version == s.version && s.runs[a].prev == s.prev)
      && (IsActive(s, a) && IsActive(s, b) ==> a == b)
  {
    RunIsSafe(states, h);
    var s := states[|states| - 1];
    PrevBelow(s);
    if IsActive(s, a) {
      ActiveIsCurrent(s, a);
      if IsActive(s, b) { OneActive(s, a, b); }
    }
  }

  /** The version never goes back: a success or a handled failure moves it up by one, to a version for
      which no run and no event exists yet, and nothing else changes it. */
  lemma VersionsAdvance(s: State, act: Action, h: Hashes)
    requires Safe(s, h) && Enabled(s, act, h) && Assumed(s, act)
    ensures var s' := Next(s, act, h);
      if act.Finish? || act.HandledFailure? then
        && s'.version == s.version + 1
        && (forall id <- s'.runs :: id.version < s'.version) && (forall e <- s'.starts :: e.id.version < s'.version)
      else s'.version == s.version && s'.prev == s.prev
  {
    var s' := Next(s, act, h);
    if act.Finish? || act.HandledFailure? {
      ActiveIsCurrent(s, act.id);
      PrevBelow(s);
      hide ControlOk, DataOk, GoodSnapshot, Loads, ComparesTo;
      VersionEnds(s, s', act.id);
    }
    hide ControlOk, DataOk, GoodSnapshot, Loads, ComparesTo;
  }

  // ---- Garbage collection ----

  predicate NeedsFiles(s: State, id: RunId) {
    AtStage(s, id, Proceed, Ingested) || AtStage(s, id, Proceed, Compared)
  }

  /** A comparison that is about to start finds both of its snapshots, and a load its diff, however
      late or often success events are handled. */
  lemma NothingNeededIsCleaned(states: seq<State>, h: Hashes, id: RunId)
    requires IsRun(states, h) && NeedsFiles(states[|states| - 1], id)
    ensures var s := states[|states| - 1];
      && id.version in s.snaps && (s.runs[id].prev != 0 ==> s.runs[id].prev in s.snaps)
      && (AtStage(s, id, Proceed, Compared) ==> (
            id.version in s.diffs
            && ComparesTo(h, PrevSnap(s, s.runs[id].prev), s.snaps[id.version], s.diffs[id.version])))
  {
    RunIsSafe(states, h);
    ActiveIsCurrent(states[|states| - 1], id);
    hide Holds, GoodSnapshot, ControlOk, TableOk, SuccessesOk, RowsOk, ComparesTo;
  }

  /** The getter can read whatever the comparer stored, and the loader can work with it. */
  lemma DiffCanBeLoaded(h: Hashes, prev: nat, prevSnap: Option<Snapshot>, cur: Snapshot, files: ResultFiles)
    requires ComparesTo(h, prevSnap, cur, files) && GoodSnapshot(cur) && (prevSnap.None? <==> prev == 0)
    ensures LoadData(prev, files).Some? && WellFormedData(LoadData(prev, files).value)
  {
    if prev == 0 {
      var fields, ids :| FirstCompares(cur, files, fields, ids);
      FirstLoadHolds(cur, fields, ids);
    } else {
      var q, changes, l :| FullCompares(h, prevSnap.value, cur, files, q, changes, l);
      GetterReads(q, changes, l, prev);
      ExpectedWellFormed(q, changes, l);
    }
    hide *;
  }

  // ---- Row conservation ----

  lemma {:induction false} NothingOwed(successes: seq<SuccessEvent>, handled: set<nat>)
    requires forall i :: 0 <= i < |successes| ==> i in handled
    ensures Owed(successes, handled) == 0
  {
    if successes != [] {
      NothingOwed(successes[..|successes| - 1], handled);
    }
  }

  /** When every success event has been handled exactly once and the syncflow is IDLING, the row count
      of the data source is the number of rows of the last loaded snapshot. */
  lemma RowsConserved(states: seq<State>, h: Hashes)
    requires IsRun(states, h)
    requires var s := states[|states| - 1];
      s.status == Idling && !s.handledTwice && forall i :: 0 <= i < |s.successes| ==> i in s.handled
    ensures var s := states[|states| - 1];
      s.rowsNumber == if s.prev == 0 then 0 else RowsAt(s, s.prev)
  {
    RunIsSafe(states, h);
    var s := states[|states| - 1];
    IdleUnmarked(s);
    NothingOwed(s.successes, s.handled);
    assert !IsAnnounced(s) by { hide ControlOk, TableOk, SuccessesOk, RowsOk, StoreOk; assert ProceedOk(s, h); }
    hide ControlOk, TableOk, ProceedOk, SuccessesOk, Owed;
  }

  // ---- Where the hypotheses are needed ----

  /** An EXTERNAL or INTERNAL error sets the syncflow IDLING with the old previous version: the
      destination is right then if and only if the version's load was not committed. */
  lemma HandledFailureExact(s: State, id: RunId, h: Hashes)
    requires Safe(s, h) && Enabled(s, HandledFailure(id), h)
    ensures Next(s, HandledFailure(id), h).status == Idling
    ensures IdleOk(Next(s, HandledFailure(id), h)) <==> id.version !in s.db.marks
  {
    ActiveIsCurrent(s, id);
    PrevBelow(s);
    hide ControlOk, Holds, GoodSnapshot, SuccessesOk, ProceedOk, StoreOk, RowsOk;
  }

  /** Delivering an event to a failed run keeps to the version in progress if and only if that run's
      version has not ended. */
  lemma RedeliveryExact(s: State, e: StartEvent, h: Hashes)
    requires Safe(s, h) && Enabled(s, Deliver(e), h)
    ensures ControlOk(Next(s, Deliver(e), h)) <==> (e.id in s.runs ==> e.id.version == s.version)
  {
    var s' := Next(s, Deliver(e), h);
    if e.id in s.runs ==> e.id.version == s.version {
      RunStarts(s, s', e);
    } else if ControlOk(s') {
      ActiveIsCurrent(s', e.id);
      assert false;
    }
  }

  /** Reading the sheet again for a version whose load was committed, with the types it had, leaves
      destination and stored snapshot in step if and only if the two readings agree. */
  lemma IngestAgainExact(s: State, id: RunId, snap: Snapshot, h: Hashes)
    requires Safe(s, h) && Enabled(s, Ingest(id, snap), h) && id.version in s.db.marks
    requires id.version in s.snaps ==> SameTypes(s.snaps[id.version], snap)
    ensures id.version in s.snaps && s.snaps[id.version].Valid() && snap.Valid()
    ensures TableOk(Next(s, Ingest(id, snap), h)) <==> SameSheet(s.snaps[id.version], snap)
  {
    hide Holds, SuccessesOk, ProceedOk, StoreOk, RowsOk, SameSheet, SameTypes, PrintableSnapshot, Snapshot.Valid,
         ControlOk;
    ActiveIsCurrent(s, id);
    HeldSheet(s.db.table, s.snaps[id.version], snap);
  }
}
