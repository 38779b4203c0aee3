/** The control half of the syncflow protocol: which versions and runs can be in progress. */
module SyncControl {
  import opened Cells
  import opened RowText
  import opened Compare
  import opened Loader
  import opened Patch
  import opened SyncProtocol

  predicate IsActive(s: State, id: RunId) {
    id in s.runs && s.runs[id].state.Active?
  }

  /** Only runs of the current version are active, with the current previous version. */
  lemma ActiveIsCurrent(s: State, id: RunId)
    requires ControlOk(s) && IsActive(s, id)
    ensures id.version == s.version && s.runs[id].prev == s.prev && StageFits(id.kind, s.runs[id].state.stage)
    ensures StartEvent(id, s.prev) in s.starts
  {
  }

  /** At most one run is active, so at most one version is in progress. */
  lemma OneActive(s: State, a: RunId, b: RunId)
    requires ControlOk(s) && IsActive(s, a) && IsActive(s, b)
    ensures a == b
  {
  }

  /** While a run is active, every other event of its version has started a run that has ended. */
  lemma OthersEnded(s: State, id: RunId, e: StartEvent)
    requires ControlOk(s) && IsActive(s, id) && e in s.starts && e.id.version == s.version
    ensures e.id == id || Ended(s, e.id)
  {
  }

  // ---- Steps keep the control invariant ----

  /** `s'` differs from `s` in run `id`, and the events of the earlier runs still find them done. */
  predicate OnlyRun(s: State, s': State, id: RunId) {
    && s'.version == s.version && s'.prev == s.prev && s'.starts == s.starts
    && IsActive(s, id) && id in s'.runs
    && s'.runs == s.runs[id := s.runs[id].(state := s'.runs[id].state)]
    && (s'.runs[id].state.Active? ==> StageFits(id.kind, s'.runs[id].state.stage))
  }

  lemma RunMoves(s: State, s': State, id: RunId)
    requires ControlOk(s) && OnlyRun(s, s', id) && StatusOk(s')
    ensures ControlOk(s')
  {
  }

  /** A completing run asks for the next one. */
  lemma RunAsks(s: State, s': State, id: RunId, e: StartEvent)
    requires ControlOk(s) && IsActive(s, id) && StatusOk(s')
    requires s'.version == s.version && s'.prev == s.prev && s'.starts == s.starts + {e}
    requires s'.runs == s.runs[id := s.runs[id].(state := Completed)]
    requires e.prev == s.runs[id].prev && e.id.version == id.version
    requires (id.kind.Full? && e.id.kind.Download?) || (id.kind.Download? && e.id.kind.Proceed?)
    ensures ControlOk(s')
  {
  }

  lemma RunStarts(s: State, s': State, e: StartEvent)
    requires ControlOk(s) && e in s.starts && Startable(s, e.id) && (e.id in s.runs ==> e.id.version == s.version)
    requires s' == s.(runs := s.runs[e.id := Run(e.prev, Active(Started))])
    ensures ControlOk(s')
  {
  }

  /** The end of a version: nothing of the new one exists yet. */
  lemma VersionEnds(s: State, s': State, id: RunId)
    requires ControlOk(s) && IsActive(s, id)
    requires s'.version == id.version + 1 && s'.prev <= id.version && s'.starts == s.starts && s'.status == Idling
    requires id in s'.runs && !s'.runs[id].state.Active?
    requires s'.runs == s.runs[id := s.runs[id].(state := s'.runs[id].state)]
    ensures ControlOk(s')
    ensures (forall x <- s'.runs :: x.version < s'.version) && (forall e <- s'.starts :: e.id.version < s'.version)
  {
    ActiveIsCurrent(s, id);
    forall e <- s'.starts ensures StartOk(s', e) && e.id.version < s'.version {
      assert StartOk(s, e);
      if e.id.version == s.version { OthersEnded(s, id, e); }
    }
    forall x <- s'.runs ensures RunOk(s', x) && x.version < s'.version {
      assert RunOk(s, x);
      assert StartOk(s, StartEvent(x, s.runs[x].prev));
    }
  }

  lemma Scheduling(s: State, s': State)
    requires ControlOk(s) && s'.version == s.version && s'.prev == s.prev && s'.runs == s.runs
    requires s'.starts == s.starts + {StartEvent(RunId(Full, s.version), s.prev)} || s'.starts == s.starts
    requires s'.status == s.status || s'.status == Scheduled
    ensures ControlOk(s')
  {
  }

  lemma StatusKept(s: State, act: Action, h: Hashes, id: RunId)
    requires ControlOk(s) && Enabled(s, act, h) && IsActive(s, id)
    requires act == EmitDownload(id) || act == EmitProceed(id)
    ensures StatusOk(Next(s, act, h))
  {
  }

  /** The steps inside a run. */
  lemma InsideRun(s: State, act: Action, h: Hashes, id: RunId)
    requires ControlOk(s) && Enabled(s, act, h) && IsActive(s, id)
    requires act.EnterRunning? || act.Ingest? || act.CompareWith? || act.LoadReturn? || act.EmitSuccess?
          || act.OtherFailure? || act.Drop?
    requires act.id == id
    ensures ControlOk(Next(s, act, h))
  {
    hide LoadDatabase, ComparesTo, Loads, Holds, GoodSnapshot, ControlOk;
    ActiveIsCurrent(s, id);
    StatusIsOk(s);
    var s' := Next(s, act, h);
    assert OnlyRun(s, s', id);
    InsideStatus(s, act, h, id);
    RunMoves(s, s', id);
  }

  lemma StatusIsOk(s: State)
    requires ControlOk(s)
    ensures StatusOk(s)
  {
  }

  lemma InsideStatus(s: State, act: Action, h: Hashes, id: RunId)
    requires StatusOk(s) && Enabled(s, act, h) && IsActive(s, id)
    requires act.EnterRunning? || act.Ingest? || act.CompareWith? || act.LoadReturn? || act.EmitSuccess?
          || act.OtherFailure? || act.Drop?
    requires act.id == id && StageFits(id.kind, s.runs[id].state.stage)
    ensures StatusOk(Next(s, act, h))
  {
    hide ComparesTo, Loads, GoodSnapshot;
  }

  lemma ControlKept(s: State, act: Action, h: Hashes)
    requires ControlOk(s) && Enabled(s, act, h) && Assumed(s, act)
    ensures ControlOk(Next(s, act, h))
  {
    hide Loads, ComparesTo, Holds, GoodSnapshot, ControlOk;
    var s' := Next(s, act, h);
    match act {
      case TriggerCheck => Scheduling(s, s');
      case TriggerMark => Scheduling(s, s');
      case TriggerEmit => Scheduling(s, s');
      case LoadCommit(id, db) => Scheduling(s, s');
      case HandleSuccess(i) => Scheduling(s, s');
      case Deliver(e) => RunStarts(s, s', e);
      case EmitDownload(id) =>
        StatusKept(s, act, h, id);
        RunAsks(s, s', id, StartEvent(RunId(Download, id.version), s.runs[id].prev));
      case EmitProceed(id) =>
        StatusKept(s, act, h, id);
        RunAsks(s, s', id, StartEvent(RunId(Proceed, id.version), s.runs[id].prev));
      case Finish(id) => VersionEnds(s, s', id);
      case HandledFailure(id) =>
        assert s.prev <= id.version by { ActiveIsCurrent(s, id); PrevBelow(s); }
        VersionEnds(s, s', id);
      case _ => InsideRun(s, act, h, act.id);
    }
  }

  lemma PrevBelow(s: State)
    requires ControlOk(s)
    ensures s.prev < s.version
  {
  }
}
