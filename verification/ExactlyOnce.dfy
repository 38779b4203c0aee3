/** Concurrent attempts at loading one data source: the transaction-scoped advisory lock, the
    idempotency mark and the saved result, as interleaved steps. */
module ExactlyOnce {
  import opened Wrappers
  import opened Cells
  import opened SchemaDiff
  import opened Compare
  import opened Getter
  import opened Loader

  /** What a load changes besides the marks: the data table, the schema fields, the schema row. */
  datatype Destination = Destination(table: Table, fields: FieldTable, schemaCreated: bool)

  /** What the statements of a version's load do to the destination they see: None when one of them fails. */
  type LoadOf = (nat, Destination) -> Option<(Destination, LoadedResult)>

  /** hashtext of a version's operation name: two versions may share a lock. */
  type LockKey = nat -> int

  /** What a load returns. Empty is no result and no error. */
  datatype Reply = Saved(result: LoadedResult) | Committed(result: LoadedResult) | Empty | Error

  /** Where an attempt is. After Over its transaction has ended and it still has to report an error. */
  datatype Phase =
    | Begun                                                                   // in a transaction, trying the lock
    | Locked                                                                  // holds the lock
    | Unmarked                                                                // has found no mark
    | Patched(base: Destination, after: Destination, result: LoadedResult)    // has run its statements
    | Over(mapped: bool)                                                      // mapped: it may look for the mark again
    | Finished(reply: Reply)

  datatype Attempt = Attempt(version: nat, prev: nat, phase: Phase)

  /** One committed load. */
  datatype Commit = Commit(version: nat, prev: nat, result: LoadedResult)

  /** The committed destination and marks, the locks, the attempts, and the history of commits. */
  datatype State = State(
    dest: Destination, marks: map<nat, LoadedResult>, locks: map<int, nat>, attempts: map<nat, Attempt>,
    log: seq<Commit>)

  predicate Holding(p: Phase) {
    p.Locked? || p.Unmarked? || p.Patched?
  }

  ghost predicate Init(s: State) {
    s.marks == map[] && s.locks == map[] && s.attempts == map[] && s.log == []
  }

  function Moved(s: State, a: nat, phase: Phase): State
    requires a in s.attempts
  {
    s.(attempts := s.attempts[a := s.attempts[a].(phase := phase)])
  }

  /** The end of a transaction releases its lock. */
  function Ended(s: State, a: nat, key: LockKey, phase: Phase): State
    requires a in s.attempts
  {
    Moved(s, a, phase).(locks := s.locks - {key(s.attempts[a].version)})
  }

  // ---- Steps ----

  /** One step of an attempt. A commit names the destination it leaves and whether the attempt hears of it. */
  datatype Action =
    | Begin(version: nat, prev: nat) | TakeLock | FindMark(readable: bool) | FindNoMark | Apply
    | CommitWith(dest: Destination, heard: bool) | Rollback | Report(looks: bool)

  predicate IsBegin(s: State, s': State, a: nat, act: Action)
    requires act.Begin?
  {
    a !in s.attempts && act.version != act.prev
    && s' == s.(attempts := s.attempts[a := Attempt(act.version, act.prev, Begun)])
  }

  predicate IsTakeLock(s: State, s': State, a: nat, key: LockKey)
    requires a in s.attempts
  {
    var k := key(s.attempts[a].version);
    s.attempts[a].phase.Begun? && k !in s.locks && s' == Moved(s, a, Locked).(locks := s.locks[k := a])
  }

  /** A saved result that cannot be read is passed over: the reply is empty then. */
  predicate IsFindMark(s: State, s': State, a: nat, key: LockKey, readable: bool)
    requires a in s.attempts
  {
    var v := s.attempts[a].version;
    s.attempts[a].phase.Locked? && v in s.marks
    && s' == Ended(s, a, key, Finished(if readable then Saved(s.marks[v]) else Empty))
  }

  predicate IsFindNoMark(s: State, s': State, a: nat)
    requires a in s.attempts
  {
    s.attempts[a].phase.Locked? && s.attempts[a].version !in s.marks && s' == Moved(s, a, Unmarked)
  }

  predicate IsApply(s: State, s': State, a: nat, load: LoadOf)
    requires a in s.attempts
  {
    var loaded := load(s.attempts[a].version, s.dest);
    s.attempts[a].phase.Unmarked? && loaded.Some?
    && s' == Moved(s, a, Patched(s.dest, loaded.value.0, loaded.value.1))
  }

  /** The new mark and the patched destination become visible and the previous mark goes. When the
      acknowledgement is lost the attempt sees an error. When another version has changed the destination
      since the statements ran, what the row locks leave is not modelled. */
  predicate IsCommit(s: State, s': State, a: nat, key: LockKey, dest: Destination, heard: bool)
    requires a in s.attempts
  {
    var t := s.attempts[a];
    t.phase.Patched? && (s.dest == t.phase.base ==> dest == t.phase.after)
    && s' == Ended(s, a, key, if heard then Finished(Committed(t.phase.result)) else Over(true)).(
         dest := dest,
         marks := s.marks[t.version := t.phase.result] - {t.prev},
         log := s.log + [Commit(t.version, t.prev, t.phase.result)])
  }

  /** The transaction rolls back and its lock is free: a statement or the commit failed, the caller left
      or the connection was lost. The attempt learns of it later. */
  predicate IsRollback(s: State, s': State, a: nat, key: LockKey)
    requires a in s.attempts
  {
    var p := s.attempts[a].phase;
    if Holding(p) then s' == Ended(s, a, key, Over(p.Unmarked? || p.Patched?))
    else p.Begun? && s' == Moved(s, a, Over(false))
  }

  /** The attempt reports its error. An error of a statement after the search for the mark sends it to
      look for the mark once more, in no transaction: found, the error is dropped. */
  predicate IsReport(s: State, s': State, a: nat, looks: bool)
    requires a in s.attempts
  {
    var t := s.attempts[a];
    t.phase.Over? && (looks ==> t.phase.mapped)
    && s' == Moved(s, a, Finished(if looks && t.version in s.marks then Empty else Error))
  }

  predicate IsStep(s: State, s': State, a: nat, act: Action, key: LockKey, load: LoadOf) {
    if act.Begin? then IsBegin(s, s', a, act)
    else a in s.attempts && match act
      case TakeLock => IsTakeLock(s, s', a, key)
      case FindMark(readable) => IsFindMark(s, s', a, key, readable)
      case FindNoMark => IsFindNoMark(s, s', a)
      case Apply => IsApply(s, s', a, load)
      case CommitWith(dest, heard) => IsCommit(s, s', a, key, dest, heard)
      case Rollback => IsRollback(s, s', a, key)
      case Report(looks) => IsReport(s, s', a, looks)
      case _ => false
  }

  ghost predicate Step(s: State, s': State, key: LockKey, load: LoadOf) {
    exists a, act :: IsStep(s, s', a, act, key, load)
  }

  ghost predicate Run(states: seq<State>, key: LockKey, load: LoadOf) {
    && states != [] && Init(states[0])
    && forall i :: 0 <= i < |states| - 1 ==> Step(states[i], states[i + 1], key, load)
  }

  // ---- The history of commits ----

  /** How many loads of `v` were committed since its mark was last removed. */
  function Standing(log: seq<Commit>, v: nat): nat {
    if log == [] then 0 else StandingAfter(Standing(log[..|log| - 1], v), log[|log| - 1], v)
  }

  function StandingAfter(before: nat, c: Commit, v: nat): nat {
    if c.prev == v then 0 else if c.version == v then before + 1 else before
  }

  /** The result of the last committed load of `v`. */
  function LastResult(log: seq<Commit>, v: nat): Option<LoadedResult> {
    if log == [] then None
    else if log[|log| - 1].version == v then Some(log[|log| - 1].result)
    else LastResult(log[..|log| - 1], v)
  }

  /** A load commits only while none of its version stands. */
  ghost predicate NeverTwice(log: seq<Commit>) {
    forall n :: 0 <= n < |log| ==> Standing(log[..n], log[n].version) == 0 && log[n].version != log[n].prev
  }

  lemma LogGrows(log: seq<Commit>, c: Commit)
    ensures forall v :: Standing(log + [c], v) == StandingAfter(Standing(log, v), c, v)
    ensures forall v :: LastResult(log + [c], v) == (if c.version == v then Some(c.result) else LastResult(log, v))
    ensures NeverTwice(log) && Standing(log, c.version) == 0 && c.version != c.prev ==> NeverTwice(log + [c])
  {
    var more := log + [c];
    assert more[..|more| - 1] == log;
    forall n | 0 <= n < |log| ensures more[..n] == log[..n] && more[n] == log[n] {}
  }

  lemma {:induction false} ResultInLog(log: seq<Commit>, v: nat)
    requires LastResult(log, v).Some?
    ensures exists c <- log :: c.version == v && c.result == LastResult(log, v).value
  {
    var last := log[|log| - 1];
    assert last in log;
    if last.version != v {
      ResultInLog(log[..|log| - 1], v);
    }
  }

  // ---- The invariant ----

  /** The result of some committed load of `v`. */
  ghost predicate FromLog(log: seq<Commit>, v: nat, result: LoadedResult) {
    exists c <- log :: c.version == v && c.result == result
  }

  ghost predicate LocksOk(s: State, key: LockKey) {
    forall a <- s.attempts | Holding(s.attempts[a].phase) ::
      key(s.attempts[a].version) in s.locks && s.locks[key(s.attempts[a].version)] == a
  }

  ghost predicate MarksOk(s: State) {
    && (forall v :: Standing(s.log, v) == (if v in s.marks then 1 else 0))
    && (forall v <- s.marks :: LastResult(s.log, v) == Some(s.marks[v]))
  }

  ghost predicate AttemptOk(s: State, t: Attempt) {
    && t.version != t.prev
    && (t.phase.Unmarked? || t.phase.Patched? ==> t.version !in s.marks)
    && (t.phase.Finished? ==>
          match t.phase.reply
          case Saved(result) => FromLog(s.log, t.version, result)
          case Committed(result) => FromLog(s.log, t.version, result)
          case Empty => exists c <- s.log :: c.version == t.version
          case Error => true)
  }

  ghost predicate Inv(s: State, key: LockKey) {
    LocksOk(s, key) && MarksOk(s) && NeverTwice(s.log) && forall a <- s.attempts :: AttemptOk(s, s.attempts[a])
  }

  lemma OneHolder(s: State, key: LockKey, a: nat, b: nat)
    requires LocksOk(s, key) && a in s.attempts && b in s.attempts
    requires Holding(s.attempts[a].phase) && Holding(s.attempts[b].phase)
    requires key(s.attempts[a].version) == key(s.attempts[b].version)
    ensures a == b
  {
  }

  lemma LocksKept(s: State, s': State, a: nat, act: Action, key: LockKey, load: LoadOf)
    requires LocksOk(s, key) && IsStep(s, s', a, act, key, load)
    ensures LocksOk(s', key)
  {
  }

  /** A commit keeps the other attempts as they should be: one that has found no mark has another version. */
  lemma AttemptsKept(s: State, s': State, a: nat, key: LockKey, dest: Destination, heard: bool)
    requires Inv(s, key) && a in s.attempts && IsCommit(s, s', a, key, dest, heard)
    ensures forall b <- s'.attempts :: AttemptOk(s', s'.attempts[b])
  {
  }

  lemma MarksKept(s: State, s': State, a: nat, key: LockKey, dest: Destination, heard: bool)
    requires MarksOk(s) && NeverTwice(s.log) && a in s.attempts && AttemptOk(s, s.attempts[a])
    requires IsCommit(s, s', a, key, dest, heard)
    ensures MarksOk(s') && NeverTwice(s'.log)
  {
    var t := s.attempts[a];
    LogGrows(s.log, Commit(t.version, t.prev, t.phase.result));
    hide Standing, LastResult, NeverTwice;
  }

  /** The other steps leave destination, marks and history alone, and move one attempt. */
  lemma MovesOnly(s: State, s': State, a: nat, act: Action, key: LockKey, load: LoadOf)
    requires IsStep(s, s', a, act, key, load) && !act.CommitWith?
    ensures s'.dest == s.dest && s'.marks == s.marks && s'.log == s.log && a in s'.attempts
    ensures s'.attempts == s.attempts[a := s'.attempts[a]]
  {
  }

  lemma MovedAttemptOk(s: State, s': State, a: nat, act: Action, key: LockKey, load: LoadOf)
    requires Inv(s, key) && IsStep(s, s', a, act, key, load) && !act.CommitWith?
    ensures a in s'.attempts && AttemptOk(s', s'.attempts[a])
  {
    if (act.FindMark? || act.Report?) && s.attempts[a].version in s.marks { ResultInLog(s.log, s.attempts[a].version); }
    assert a in s.attempts ==> AttemptOk(s, s.attempts[a]);
    hide Standing, LastResult, NeverTwice, LocksOk;
  }

  lemma StepKeepsInv(s: State, s': State, a: nat, act: Action, key: LockKey, load: LoadOf)
    requires Inv(s, key) && IsStep(s, s', a, act, key, load)
    ensures Inv(s', key)
  {
    LocksKept(s, s', a, act, key, load);
    if act.CommitWith? {
      MarksKept(s, s', a, key, act.dest, act.heard);
      AttemptsKept(s, s', a, key, act.dest, act.heard);
    } else {
      MovesOnly(s, s', a, act, key, load);
      MovedAttemptOk(s, s', a, act, key, load);
      hide IsStep;
    }
    hide Standing, LastResult, NeverTwice, LocksOk;
  }

  lemma {:induction false} RunKeepsInv(states: seq<State>, key: LockKey, load: LoadOf)
    requires Run(states, key, load)
    ensures Inv(states[|states| - 1], key)
  {
    var n := |states| - 1;
    if n > 0 {
      assert Step(states[n - 1], states[n], key, load);
      RunKeepsInv(states[..n], key, load);
      hide Inv;
      var a, act :| IsStep(states[n - 1], states[n], a, act, key, load);
      StepKeepsInv(states[n - 1], states[n], a, act, key, load);
    }
  }

  // ---- What every run keeps ----

  lemma {:induction false} StillStanding(log: seq<Commit>, i: nat, n: nat)
    requires i < n <= |log| && log[i].version != log[i].prev
    requires forall k :: i < k < n ==> log[k].prev != log[i].version
    ensures Standing(log[..n], log[i].version) >= 1
    decreases n
  {
    assert log[..n][..n - 1] == log[..n - 1];
    if i < n - 1 {
      StillStanding(log, i, n - 1);
    }
  }

  /** Between two commits of one version, a later version has removed its mark. */
  lemma Separated(log: seq<Commit>, i: nat, j: nat)
    requires NeverTwice(log) && i < j < |log| && log[i].version == log[j].version
    ensures exists k :: i < k < j && log[k].prev == log[i].version
  {
    if forall k :: i < k < j ==> log[k].prev != log[i].version {
      StillStanding(log, i, j);
      assert false;
    }
  }

  lemma {:induction false} EveryStateOk(states: seq<State>, key: LockKey, load: LoadOf, n: nat)
    requires Run(states, key, load) && n < |states|
    ensures Inv(states[n], key)
  {
    var before := states[..n + 1];
    assert Run(before, key, load) by { hide Step; }
    RunKeepsInv(before, key, load);
  }

  /** Two attempts never hold one lock. */
  lemma MutualExclusion(states: seq<State>, key: LockKey, load: LoadOf, a: nat, b: nat)
    requires Run(states, key, load)
    ensures var s := states[|states| - 1];
      (a in s.attempts && b in s.attempts && Holding(s.attempts[a].phase) && Holding(s.attempts[b].phase)
        && key(s.attempts[a].version) == key(s.attempts[b].version)) ==> a == b
  {
    RunKeepsInv(states, key, load);
  }

  /** Only an attempt that has searched for the mark and not found it may look for it again after an error. */
  lemma {:induction false} LooksAfterSearch(states: seq<State>, key: LockKey, load: LoadOf, a: nat) returns (m: nat)
    requires Run(states, key, load)
    requires var s := states[|states| - 1]; a in s.attempts && HasSearched(s.attempts[a].phase)
    ensures m < |states| && a in states[m].attempts && states[m].attempts[a].phase.Unmarked?
  {
    hide Step;
    m := |states| - 1;
    if !states[m].attempts[a].phase.Unmarked? {
      SearchedBefore(states, key, load, a);
      m := LooksAfterSearch(states[..m], key, load, a);
    }
  }

  predicate HasSearched(p: Phase) {
    p.Unmarked? || p.Patched? || p == Over(true)
  }

  lemma SearchedBefore(states: seq<State>, key: LockKey, load: LoadOf, a: nat)
    requires Run(states, key, load)
    requires var s := states[|states| - 1];
      a in s.attempts && HasSearched(s.attempts[a].phase) && !s.attempts[a].phase.Unmarked?
    ensures |states| > 1 && Run(states[..|states| - 1], key, load)
    ensures var s := states[|states| - 2]; a in s.attempts && HasSearched(s.attempts[a].phase)
  {
    hide IsStep;
    assert |states| > 1;
    var s, s' := states[|states| - 2], states[|states| - 1];
    assert Step(s, s', key, load);
    var b, act :| IsStep(s, s', b, act, key, load);
    SearchStays(s, s', b, act, key, load, a);
  }

  lemma SearchStays(s: State, s': State, b: nat, act: Action, key: LockKey, load: LoadOf, a: nat)
    requires IsStep(s, s', b, act, key, load) && a in s'.attempts
    requires HasSearched(s'.attempts[a].phase) && !s'.attempts[a].phase.Unmarked?
    ensures a in s.attempts && HasSearched(s.attempts[a].phase)
  {
  }

  /** In any run, an attempt that looks for the mark after an error returns nothing at all exactly when a
      commit of its version stands at that moment, be it its own or another attempt's; else it returns
      the error. Nothing changes either way. */
  lemma ReportExact(states: seq<State>, key: LockKey, load: LoadOf, n: nat, a: nat, looks: bool)
    requires Run(states, key, load) && n < |states| - 1
    requires a in states[n].attempts && IsReport(states[n], states[n + 1], a, looks)
    ensures var s, s' := states[n], states[n + 1];
      && (s'.attempts[a].phase == Finished(Empty) <==> looks && Standing(s.log, s.attempts[a].version) > 0)
      && (s'.attempts[a].phase != Finished(Empty) ==> s'.attempts[a].phase == Finished(Error))
      && s'.dest == s.dest && s'.marks == s.marks && s'.log == s.log
  {
    EveryStateOk(states, key, load, n);
    hide Standing, LastResult, NeverTwice, Step;
    var v := states[n].attempts[a].version;
    assert Standing(states[n].log, v) == (if v in states[n].marks then 1 else 0);
  }

  /** Whatever the interleaving: no version is committed again while its mark stands, every reply with a
      result carries that of a commit of its version, and an empty reply comes after such a commit. */
  lemma EveryRun(states: seq<State>, key: LockKey, load: LoadOf, a: nat)
    requires Run(states, key, load)
    ensures var s := states[|states| - 1];
      && (forall i, j :: 0 <= i < j < |s.log| && s.log[i].version == s.log[j].version ==>
            exists k :: i < k < j && s.log[k].prev == s.log[i].version)
      && (a in s.attempts && s.attempts[a].phase.Finished? ==>
            var reply := s.attempts[a].phase.reply;
            && (reply.Empty? ==> exists c <- s.log :: c.version == s.attempts[a].version)
            && (reply.Saved? || reply.Committed? ==> FromLog(s.log, s.attempts[a].version, reply.result)))
  {
    RunKeepsInv(states, key, load);
    var s := states[|states| - 1];
    forall i, j | 0 <= i < j < |s.log| && s.log[i].version == s.log[j].version
      ensures exists k :: i < k < j && s.log[k].prev == s.log[i].version
    {
      Separated(s.log, i, j);
    }
    hide NeverTwice, Standing, LastResult, LocksOk;
    assert a in s.attempts ==> AttemptOk(s, s.attempts[a]);
  }

  /** In any run, an attempt that finds the mark returns what the last commit of its version saved, if it
      can read it, and changes nothing. */
  lemma MarkGivesSavedResult(states: seq<State>, key: LockKey, load: LoadOf, n: nat, a: nat, readable: bool)
    requires Run(states, key, load) && n < |states| - 1
    requires a in states[n].attempts && IsFindMark(states[n], states[n + 1], a, key, readable)
    ensures var s, s' := states[n], states[n + 1]; var saved := LastResult(s.log, s.attempts[a].version);
      && saved.Some? && s'.attempts[a].phase == Finished(if readable then Saved(saved.value) else Empty)
      && s'.dest == s.dest && s'.marks == s.marks && s'.log == s.log
  {
    EveryStateOk(states, key, load, n);
    hide Standing, LastResult, NeverTwice, Step;
    var v := states[n].attempts[a].version;
    assert LastResult(states[n].log, v) == Some(states[n].marks[v]);
  }

  // ---- One version at a time ----

  /** Attempts inside their transactions are all for one version. */
  ghost predicate OneVersion(s: State) {
    forall a <- s.attempts, b <- s.attempts | Holding(s.attempts[a].phase) && Holding(s.attempts[b].phase) ::
      s.attempts[a].version == s.attempts[b].version
  }

  /** The commits of a log, one after the other on the destination each left: None when one does not fit. */
  function Replay(t: Destination, log: seq<Commit>, load: LoadOf): Option<Destination> {
    if log == [] then Some(t) else
      var last := log[|log| - 1];
      match Replay(t, log[..|log| - 1], load)
      case None => None
      case Some(before) =>
        match load(last.version, before)
        case None => None
        case Some(loaded) => if loaded.1 == last.result then Some(loaded.0) else None
  }

  ghost predicate Fresh(s: State, load: LoadOf) {
    forall a <- s.attempts :: var t := s.attempts[a];
      t.phase.Patched? ==> t.phase.base == s.dest && load(t.version, s.dest) == Some((t.phase.after, t.phase.result))
  }

  lemma StepReplays(s: State, s': State, a: nat, act: Action, key: LockKey, load: LoadOf, start: Destination)
    requires LocksOk(s, key) && OneVersion(s) && IsStep(s, s', a, act, key, load)
    requires Fresh(s, load) && Replay(start, s.log, load) == Some(s.dest)
    ensures Fresh(s', load) && Replay(start, s'.log, load) == Some(s'.dest)
  {
    if act.CommitWith? {
      forall b <- s'.attempts ensures !s'.attempts[b].phase.Patched? {
        if b != a && s.attempts[b].phase.Patched? { OneHolder(s, key, a, b); }
      }
      assert s'.log[..|s'.log| - 1] == s.log;
    }
  }

  /** While no two versions are loaded at once, the destination is what the committed diffs give, each
      applied exactly once, in the order of their commits. */
  lemma {:induction false} DestinationIsReplay(states: seq<State>, key: LockKey, load: LoadOf)
    requires Run(states, key, load) && forall s <- states :: OneVersion(s)
    ensures var s := states[|states| - 1];
      Fresh(s, load) && Replay(states[0].dest, s.log, load) == Some(s.dest)
  {
    var n := |states| - 1;
    if n > 0 {
      assert Step(states[n - 1], states[n], key, load);
      DestinationIsReplay(states[..n], key, load);
      RunKeepsInv(states[..n], key, load);
      hide Fresh, OneVersion, Replay;
      var a, act :| IsStep(states[n - 1], states[n], a, act, key, load);
      StepReplays(states[n - 1], states[n], a, act, key, load, states[0].dest);
    }
  }

  ghost predicate OnlyVersion(s: State, v: nat) {
    forall a <- s.attempts :: s.attempts[a].version == v
  }

  ghost predicate LogOnly(log: seq<Commit>, v: nat) {
    forall c <- log :: c.version == v && c.prev != v
  }

  lemma StepLogsItsVersion(s: State, s': State, a: nat, act: Action, key: LockKey, load: LoadOf, v: nat)
    requires Inv(s, key) && IsStep(s, s', a, act, key, load) && OnlyVersion(s, v) && LogOnly(s.log, v)
    ensures LogOnly(s'.log, v)
  {
  }

  lemma {:induction false} LogOfOneVersion(states: seq<State>, key: LockKey, load: LoadOf, v: nat)
    requires Run(states, key, load) && forall s <- states :: OnlyVersion(s, v)
    ensures LogOnly(states[|states| - 1].log, v)
  {
    var n := |states| - 1;
    if n > 0 {
      assert Step(states[n - 1], states[n], key, load);
      LogOfOneVersion(states[..n], key, load, v);
      RunKeepsInv(states[..n], key, load);
      hide Inv, OnlyVersion, LogOnly, IsStep;
      var a, act :| IsStep(states[n - 1], states[n], a, act, key, load);
      StepLogsItsVersion(states[n - 1], states[n], a, act, key, load, v);
    }
  }

  /** Any number of concurrent attempts at one version: its diff is committed at most once, the destination
      is the initial one or the one the diff gives, every result returned is that of the commit, and an
      attempt that returns without an error comes after it. */
  lemma OneVersionOnce(states: seq<State>, key: LockKey, load: LoadOf, v: nat, a: nat)
    requires Run(states, key, load) && forall s <- states :: OnlyVersion(s, v)
    ensures var t, s := states[0].dest, states[|states| - 1];
      && (if s.log == [] then s.dest == t
          else |s.log| == 1 && load(v, t) == Some((s.dest, s.log[0].result)))
      && (a in s.attempts && s.attempts[a].phase.Finished? && !s.attempts[a].phase.reply.Error? ==>
            |s.log| == 1 && var reply := s.attempts[a].phase.reply;
            reply.Empty? || reply == Saved(s.log[0].result) || reply == Committed(s.log[0].result))
  {
    var t, s := states[0].dest, states[|states| - 1];
    EveryRun(states, key, load, a);
    LogOfOneVersion(states, key, load, v);
    DestinationIsReplay(states, key, load);
    hide Run, OnlyVersion;
    if |s.log| > 1 {
      assert false;
    }
    if s.log != [] {
      assert s.log[..0] == [];
      assert s.log[0] in s.log;
    }
  }

  // ---- One attempt on its own ----

  function WithLock(s: State, a: nat, v: nat, prev: nat, key: LockKey): State {
    s.(attempts := s.attempts[a := Attempt(v, prev, Locked)], locks := s.locks[key(v) := a])
  }

  function RolledBack(s: State, a: nat, v: nat, prev: nat): State {
    s.(attempts := s.attempts[a := Attempt(v, prev, Over(true))])
  }

  /** The states an attempt goes through when no other attempt moves. */
  function Alone(s: State, a: nat, v: nat, prev: nat, key: LockKey, load: LoadOf): seq<State> {
    var locked := WithLock(s, a, v, prev, key);
    [s, s.(attempts := s.attempts[a := Attempt(v, prev, Begun)]), locked] +
    if v in s.marks then [AfterAlone(s, a, v, prev, load)] else
      var unmarked := Moved(locked, a, Unmarked);
      match load(v, s.dest)
      case None => [unmarked, RolledBack(s, a, v, prev), AfterAlone(s, a, v, prev, load)]
      case Some(loaded) =>
        [unmarked, Moved(unmarked, a, Patched(s.dest, loaded.0, loaded.1)), AfterAlone(s, a, v, prev, load)]
  }

  /** What `PostgresLoader.Load` does: the saved result if the mark stands, else the whole load with
      the new mark, else nothing. */
  function AfterAlone(s: State, a: nat, v: nat, prev: nat, load: LoadOf): State {
    if v in s.marks then s.(attempts := s.attempts[a := Attempt(v, prev, Finished(Saved(s.marks[v])))])
    else match load(v, s.dest)
      case None => s.(attempts := s.attempts[a := Attempt(v, prev, Finished(Error))])
      case Some(loaded) => s.(
        dest := loaded.0, marks := s.marks[v := loaded.1] - {prev}, log := s.log + [Commit(v, prev, loaded.1)],
        attempts := s.attempts[a := Attempt(v, prev, Finished(Committed(loaded.1)))])
  }

  ghost predicate Steps(states: seq<State>, key: LockKey, load: LoadOf) {
    forall i :: 0 <= i < |states| - 1 ==> Step(states[i], states[i + 1], key, load)
  }

  lemma StepBy(s: State, s': State, a: nat, act: Action, key: LockKey, load: LoadOf)
    requires IsStep(s, s', a, act, key, load)
    ensures Step(s, s', key, load)
  {
  }

  lemma AloneLocks(s: State, a: nat, v: nat, prev: nat, key: LockKey, load: LoadOf)
    requires a !in s.attempts && key(v) !in s.locks && v != prev
    ensures var begun := s.(attempts := s.attempts[a := Attempt(v, prev, Begun)]);
      && Step(s, begun, key, load)
      && Step(begun, WithLock(s, a, v, prev, key), key, load)
  {
    var begun := s.(attempts := s.attempts[a := Attempt(v, prev, Begun)]);
    StepBy(s, begun, a, Begin(v, prev), key, load);
    StepBy(begun, WithLock(s, a, v, prev, key), a, TakeLock, key, load);
  }

  lemma AloneAfterLock(s: State, a: nat, v: nat, prev: nat, key: LockKey, load: LoadOf)
    requires key(v) !in s.locks && v !in s.marks && load(v, s.dest).Some?
    ensures var locked, loaded := WithLock(s, a, v, prev, key), load(v, s.dest).value;
      var unmarked := Moved(locked, a, Unmarked);
      var patched := Moved(unmarked, a, Patched(s.dest, loaded.0, loaded.1));
      && Step(locked, unmarked, key, load) && Step(unmarked, patched, key, load)
      && Step(patched, AfterAlone(s, a, v, prev, load), key, load)
  {
    hide Step;
    var locked, loaded, after := WithLock(s, a, v, prev, key), load(v, s.dest).value, AfterAlone(s, a, v, prev, load);
    var unmarked := Moved(locked, a, Unmarked);
    var patched := Moved(unmarked, a, Patched(s.dest, loaded.0, loaded.1));
    StepBy(locked, unmarked, a, FindNoMark, key, load);
    StepBy(unmarked, patched, a, Apply, key, load);
    StepBy(patched, after, a, CommitWith(after.dest, true), key, load);
  }

  lemma AloneStops(s: State, a: nat, v: nat, prev: nat, key: LockKey, load: LoadOf)
    requires key(v) !in s.locks && (v in s.marks || load(v, s.dest).None?)
    ensures var locked, after := WithLock(s, a, v, prev, key), AfterAlone(s, a, v, prev, load);
      if v in s.marks then Step(locked, after, key, load)
      else
        var unmarked, over := Moved(locked, a, Unmarked), RolledBack(s, a, v, prev);
        Step(locked, unmarked, key, load) && Step(unmarked, over, key, load) && Step(over, after, key, load)
  {
    hide Step;
    var locked, after := WithLock(s, a, v, prev, key), AfterAlone(s, a, v, prev, load);
    if v in s.marks {
      StepBy(locked, after, a, FindMark(true), key, load);
    } else {
      StepBy(locked, Moved(locked, a, Unmarked), a, FindNoMark, key, load);
      StepBy(Moved(locked, a, Unmarked), RolledBack(s, a, v, prev), a, Rollback, key, load);
      StepBy(RolledBack(s, a, v, prev), after, a, Report(true), key, load);
    }
  }

  /** Undisturbed, an attempt does what `PostgresLoader.Load` does. */
  lemma AloneIsLoad(s: State, a: nat, v: nat, prev: nat, key: LockKey, load: LoadOf)
    requires a !in s.attempts && key(v) !in s.locks && v != prev
    ensures var states := Alone(s, a, v, prev, key, load);
      Steps(states, key, load) && states[0] == s && states[|states| - 1] == AfterAlone(s, a, v, prev, load)
  {
    AloneLocks(s, a, v, prev, key, load);
    if v in s.marks || load(v, s.dest).None? {
      AloneStops(s, a, v, prev, key, load);
    } else {
      AloneAfterLock(s, a, v, prev, key, load);
    }
    hide Step, AfterAlone, WithLock, Moved, RolledBack;
  }

  lemma AloneCommits(s: State, a: nat, v: nat, prev: nat, key: LockKey, load: LoadOf) returns (states: seq<State>)
    requires a !in s.attempts && s.locks == map[] && v !in s.marks && v != prev && load(v, s.dest).Some?
    ensures Steps(states, key, load) && states != [] && states[0] == s
    ensures var s' := states[|states| - 1];
      && s'.attempts.Keys == s.attempts.Keys + {a} && s'.locks == map[]
      && s'.marks.Keys == s.marks.Keys + {v} - {prev}
      && (forall b <- s.attempts :: s'.attempts[b] == s.attempts[b])
      && |s'.log| == |s.log| + 1 && s'.log[..|s.log|] == s.log && s'.log[|s.log|].version == v
  {
    AloneIsLoad(s, a, v, prev, key, load);
    hide Step, Alone, Steps;
    states := Alone(s, a, v, prev, key, load);
    assert |states| > 0 by { AloneNonEmpty(s, a, v, prev, key, load); }
  }

  lemma AloneNonEmpty(s: State, a: nat, v: nat, prev: nat, key: LockKey, load: LoadOf)
    ensures |Alone(s, a, v, prev, key, load)| > 0
  {
  }

  /** A stale attempt at version 1 that comes after version 2 has removed its mark loads it again. */
  lemma StaleAttemptLoadsAgain(t: Destination, key: LockKey, load: LoadOf) returns (states: seq<State>)
    requires forall v: nat, u: Destination :: load(v, u).Some?
    ensures Run(states, key, load) && states[0].dest == t
    ensures var log := states[|states| - 1].log;
      |log| == 3 && log[0].version == 1 && log[1].version == 2 && log[2].version == 1
  {
    hide Step, Steps;
    var s0 := State(t, map[], map[], map[], []);
    var first := AloneCommits(s0, 0, 1, 0, key, load);
    var s1 := first[|first| - 1];
    var second := AloneCommits(s1, 1, 2, 1, key, load);
    var s2 := second[|second| - 1];
    var third := AloneCommits(s2, 2, 1, 0, key, load);
    StepsJoin(first, second, key, load);
    StepsJoin(first + second[1..], third, key, load);
    states := first + second[1..] + third[1..];
    StepsRun(states, key, load);
  }

  lemma StepsRun(states: seq<State>, key: LockKey, load: LoadOf)
    requires Steps(states, key, load) && states != [] && Init(states[0])
    ensures Run(states, key, load)
  {
  }

  lemma StepsJoin(a: seq<State>, b: seq<State>, key: LockKey, load: LoadOf)
    requires Steps(a, key, load) && Steps(b, key, load) && a != [] && b != [] && a[|a| - 1] == b[0]
    ensures Steps(a + b[1..], key, load)
    ensures (a + b[1..])[0] == a[0] && (a + b[1..])[|a| + |b| - 2] == b[|b| - 1]
  {
  }

  /** Two attempts at version 1: the first finds no mark and loses its transaction, the second loads; then
      the first looks for the mark and returns nothing, although its own transaction failed. */
  lemma FailedAttemptReturnsNothing(t: Destination, key: LockKey, load: LoadOf) returns (states: seq<State>)
    requires load(1, t).Some?
    ensures Run(states, key, load) && states[0].dest == t
    ensures |states| > 5 && 0 in states[3].attempts && IsRollback(states[3], states[4], 0, key) && states[4].log == []
    ensures var s := states[|states| - 1];
      0 in s.attempts && s.attempts[0].phase == Finished(Empty) && |s.log| == 1
  {
    var s0 := State(t, map[], map[], map[], []);
    var lost := State(t, map[], map[], map[0 := Attempt(1, 0, Over(true))], []);
    var first := LosesTransaction(t, key, load);
    hide Step, Steps;
    var second := AloneCommits(lost, 1, 1, 0, key, load);
    var s := second[|second| - 1];
    var last := Moved(s, 0, Finished(Empty));
    StepBy(s, last, 0, Report(true), key, load);
    OneStep(s, last, key, load);
    StepsJoin(first, second, key, load);
    StepsJoin(first + second[1..], [s, last], key, load);
    states := first + second[1..] + [last];
    assert [s, last][1..] == [last];
    StepsRun(states, key, load);
  }

  /** One attempt alone: its load is committed, it does not hear of it, finds its own mark and returns nothing. */
  lemma UnheardCommitReturnsNothing(t: Destination, key: LockKey, load: LoadOf) returns (states: seq<State>)
    requires load(1, t).Some?
    ensures Run(states, key, load) && states[0].dest == t
    ensures var s := states[|states| - 1];
      0 in s.attempts && s.attempts[0].phase == Finished(Empty) && |s.log| == 1 && s.dest == load(1, t).value.0
  {
    hide Step;
    var loaded := load(1, t).value;
    var s0 := State(t, map[], map[], map[], []);
    var begun := s0.(attempts := map[0 := Attempt(1, 0, Begun)]);
    var locked := WithLock(s0, 0, 1, 0, key);
    var unmarked := Moved(locked, 0, Unmarked);
    var patched := Moved(unmarked, 0, Patched(t, loaded.0, loaded.1));
    var over := State(loaded.0, map[1 := loaded.1], map[], map[0 := Attempt(1, 0, Over(true))],
      [Commit(1, 0, loaded.1)]);
    AloneLocks(s0, 0, 1, 0, key, load);
    AloneAfterLock(s0, 0, 1, 0, key, load);
    UnheardCommit(s0, patched, over, key, load);
    states := [s0, begun, locked, unmarked, patched, over, Moved(over, 0, Finished(Empty))];
  }

  lemma UnheardCommit(s0: State, s: State, s': State, key: LockKey, load: LoadOf)
    requires s0.marks == map[] && s0.locks == map[] && s0.attempts == map[] && s0.log == []
    requires load(1, s0.dest).Some?
    requires var loaded := load(1, s0.dest).value;
      && s == Moved(Moved(WithLock(s0, 0, 1, 0, key), 0, Unmarked), 0, Patched(s0.dest, loaded.0, loaded.1))
      && s' == State(loaded.0, map[1 := loaded.1], map[], map[0 := Attempt(1, 0, Over(true))], [Commit(1, 0, loaded.1)])
    ensures Step(s, s', key, load) && Step(s', Moved(s', 0, Finished(Empty)), key, load)
  {
    hide Step;
    StepBy(s, s', 0, CommitWith(s'.dest, false), key, load);
    StepBy(s', Moved(s', 0, Finished(Empty)), 0, Report(true), key, load);
  }

  lemma OneStep(s: State, s': State, key: LockKey, load: LoadOf)
    requires Step(s, s', key, load)
    ensures Steps([s, s'], key, load)
  {
  }

  lemma LosesTransaction(t: Destination, key: LockKey, load: LoadOf) returns (states: seq<State>)
    ensures Steps(states, key, load) && |states| == 5 && states[0] == State(t, map[], map[], map[], [])
    ensures 0 in states[3].attempts && IsRollback(states[3], states[4], 0, key)
    ensures states[4] == State(t, map[], map[], map[0 := Attempt(1, 0, Over(true))], [])
  {
    hide Step;
    var s0 := State(t, map[], map[], map[], []);
    var begun := s0.(attempts := map[0 := Attempt(1, 0, Begun)]);
    var locked := WithLock(s0, 0, 1, 0, key);
    var unmarked := Moved(locked, 0, Unmarked);
    var lost := State(t, map[], map[], map[0 := Attempt(1, 0, Over(true))], []);
    StepBy(s0, begun, 0, Begin(1, 0), key, load);
    StepBy(begun, locked, 0, TakeLock, key, load);
    StepBy(locked, unmarked, 0, FindNoMark, key, load);
    StepBy(unmarked, lost, 0, Rollback, key, load);
    states := [s0, begun, locked, unmarked, lost];
  }

  // ---- The Postgres loader ----

  function DbOf(s: State): Database {
    Database(s.dest.table, s.dest.fields, s.dest.schemaCreated, s.marks)
  }

  /** The data of a version's stored files, when the loader can use them. */
  ghost function StoredData(prev: nat, files: ResultFiles): Option<LoaderData> {
    var data := LoadData(prev, files);
    if data.Some? && WellFormedData(data.value) then data else None
  }

  /** The loads of stored files: each version has its previous version and its files. */
  ghost function LoadOfFiles(prevOf: nat -> nat, files: nat -> ResultFiles): LoadOf {
    (v: nat, d: Destination) =>
      match StoredData(prevOf(v), files(v))
      case None => None
      case Some(data) =>
        match LoadDatabase(prevOf(v), Database(d.table, d.fields, d.schemaCreated, map[]), data)
        case None => None
        case Some(db) => Some((Destination(db.table, db.fields, db.schemaCreated), LoadedResultOf(data)))
  }

  ghost predicate Usable(prev: nat, files: ResultFiles) {
    LoadData(prev, files).Some? ==> WellFormedData(LoadData(prev, files).value)
  }

  /** The result of an attempt, as the loader hands it over. */
  function OutcomeOf(reply: Reply): Outcome {
    match reply
    case Saved(result) => AlreadyLoaded(result)
    case Committed(result) => Outcome.Loaded(result)
    case _ => Outcome.Failed
  }

  /** What an undisturbed attempt leaves, in the loader's terms. */
  lemma AloneLoadsFiles(s: State, a: nat, v: nat, prevOf: nat -> nat, files: nat -> ResultFiles)
    requires prevOf(v) != v && Usable(prevOf(v), files(v))
    ensures var s' := AfterAlone(s, a, v, prevOf(v), LoadOfFiles(prevOf, files));
      var prev, data := prevOf(v), LoadData(prevOf(v), files(v));
      && a in s'.attempts && s'.attempts[a].phase.Finished?
      && var reply := s'.attempts[a].phase.reply;
      (if v in s.marks then DbOf(s') == DbOf(s) && reply == Saved(s.marks[v])
       else if data.None? || LoadDatabase(prev, DbOf(s), data.value).None? then DbOf(s') == DbOf(s) && reply == Error
       else
         && reply == Committed(LoadedResultOf(data.value))
         && DbOf(s') == Marked(LoadDatabase(prev, DbOf(s), data.value).value, prev, v, LoadedResultOf(data.value)))
  {
    hide LoadDatabase, LoadData, WellFormedData, LoadedResultOf;
    if StoredData(prevOf(v), files(v)).Some? {
      MarksDoNotMatter(prevOf(v), DbOf(s), files(v));
    }
  }

  /** The loader itself does what an undisturbed attempt does: same destination, same marks, same reply. */
  method LoadIsAlone(s: State, a: nat, v: nat, prevOf: nat -> nat, files: nat -> ResultFiles)
    returns (r: Outcome, db: Database)
    requires prevOf(v) != v && Usable(prevOf(v), files(v))
    ensures var s' := AfterAlone(s, a, v, prevOf(v), LoadOfFiles(prevOf, files));
      && db == DbOf(s') && a in s'.attempts && s'.attempts[a].phase.Finished?
      && r == OutcomeOf(s'.attempts[a].phase.reply)
  {
    hide LoadDatabase, LoadData, WellFormedData, LoadedResultOf, AfterAlone, LoadOfFiles;
    AloneLoadsFiles(s, a, v, prevOf, files);
    var loader := new PostgresLoader(prevOf(v), v, DbOf(s));
    r := loader.Load(files(v), NoTrouble);
    db := loader.Db();
  }

  lemma MarksDoNotMatter(prev: nat, db: Database, files: ResultFiles)
    requires StoredData(prev, files).Some?
    ensures var data := StoredData(prev, files).value;
      LoadDatabase(prev, db, data) == match LoadDatabase(prev, db.(marks := map[]), data)
        case None => None
        case Some(db') => Some(db'.(marks := db.marks))
  {
    hide LoadTable, CopyFields, ApplyChanges;
  }

  /** Any number of concurrent attempts of the loader at one version's stored files: the destination is
      the initial one or the one the statements give once, and every result returned is the counts of
      that one load. */
  lemma FilesLoadedOnce(states: seq<State>, key: LockKey, prevOf: nat -> nat, files: nat -> ResultFiles, v: nat, a: nat)
    requires Run(states, key, LoadOfFiles(prevOf, files)) && forall s <- states :: OnlyVersion(s, v)
    ensures states != []
    ensures var t, s, data := states[0], states[|states| - 1], StoredData(prevOf(v), files(v));
      && (s.log == [] ==> s.dest == t.dest)
      && (s.log != [] ==> (
           && |s.log| == 1 && data.Some? && s.log[0].result == LoadedResultOf(data.value)
           && LoadDatabase(prevOf(v), DbOf(t), data.value) == Some(DbOf(s).(marks := map[]))))
      && (a in s.attempts && s.attempts[a].phase.Finished? ==> var reply := s.attempts[a].phase.reply;
            reply.Saved? || reply.Committed? ==> s.log != [] && reply.result == LoadedResultOf(data.value))
  {
    hide LoadDatabase, LoadData, WellFormedData, LoadedResultOf, Run, OnlyVersion;
    OneVersionOnce(states, key, LoadOfFiles(prevOf, files), v, a);
    StartsUnmarked(states, key, LoadOfFiles(prevOf, files));
    if StoredData(prevOf(v), files(v)).Some? {
      MarksDoNotMatter(prevOf(v), DbOf(states[0]), files(v));
      KeepsMarks(prevOf(v), DbOf(states[0]), StoredData(prevOf(v), files(v)).value);
    }
  }

  lemma StartsUnmarked(states: seq<State>, key: LockKey, load: LoadOf)
    requires Run(states, key, load)
    ensures states != [] && states[0].marks == map[]
  {
  }

  lemma KeepsMarks(prev: nat, db: Database, data: LoaderData)
    requires WellFormedData(data)
    ensures LoadDatabase(prev, db, data).Some? ==> LoadDatabase(prev, db, data).value.marks == db.marks
  {
    hide LoadTable, CopyFields, ApplyChanges;
  }
}
