/** The worker as it runs: its variables and the browser's filter change step by step. */
module ServiceWorker {
  import opened Basics
  import opened Rules
  import opened Dnr
  import opened Compiler
  import opened ManagedData
  import opened WorkerSteps

  class BackgroundWorker {
    var activeSnapshot: Option<Snapshot>
    var activeSnapshotSource: Source
    var managedGenerationFloor: int
    var trustedLivePublicKey: Option<string>
    var dnr: DnrState

    /** Every filter state entered so far. */
    ghost var entered: seq<DnrState>

    ghost function Now(): Worker
      reads this
    {
      Worker(activeSnapshot, activeSnapshotSource, managedGenerationFloor, trustedLivePublicKey, dnr)
    }

    /** A worker starts with nothing active and finds whatever filter the browser kept. */
    constructor (kept: DnrState)
      ensures Now() == Worker(None, FromPolicy, 0, None, kept)
    {
      activeSnapshot, activeSnapshotSource, managedGenerationFloor, trustedLivePublicKey := None, FromPolicy, 0, None;
      dnr := kept;
      entered := [];
    }

    /** One atomic change of the browser's filter. */
    method Enter(next: DnrState)
      modifies this`dnr, this`entered
      ensures dnr == next && entered == old(entered) + [next]
    {
      dnr := next;
      entered := entered + [next];
    }

    method SetFailSafeEnabled(enabled: bool, throws: bool) returns (ok: bool)
      modifies this`dnr, this`entered
      ensures ok == !throws
      ensures dnr == if throws then old(dnr) else SetFailSafe(old(dnr), enabled)
      ensures entered == old(entered) + if throws then [] else [dnr]
    {
      if throws { return false; }
      Enter(dnr.(failSafe := enabled));
      return true;
    }

    method ActivateFailSafe(f: FailSafeFaults)
      modifies this`dnr, this`entered
      ensures dnr == FailSafeSpec(old(dnr), f) && entered == old(entered) + FailSafeTrace(old(dnr), f)
    {
      var on := SetFailSafeEnabled(true, f.toggle);
      if !on || f.list { return; }
      if dnr.dynamicRules != [] && !f.update {
        Enter(dnr.(dynamicRules := []));
      }
    }

    method InstallRules(c: Compiled, f: InstallFaults) returns (ok: bool)
      modifies this`dnr, this`entered
      ensures (dnr, ok) == InstallSpec(old(dnr), c, f) && entered == old(entered) + InstallTrace(old(dnr), c, f)
    {
      if f.regex || f.limit || f.list || f.update { return false; }
      Enter(dnr.(dynamicRules := c.rules));
      ok := SetFailSafeEnabled(c.defaultAction == Block, f.toggle);
    }

    method CompileAndInstall(rules: RuleSet, s: Setting) returns (ok: bool)
      modifies this`dnr, this`entered
      ensures (Now(), ok) == RecompileSpec(old(Now()), rules, s)
    {
      var compiled := Compile(rules, s.clock, s.page);
      if compiled.Err? { return false; }
      ok := InstallRules(compiled.value, s.install);
    }

    method ActivateManagedData(m: Managed, source: Source, s: Setting) returns (ok: bool)
      modifies this
      ensures (Now(), ok) == ActivateSpec(old(Now()), m, source, s)
    {
      if source == FromNative && !LiveVerified(m, trustedLivePublicKey) { return false; }
      var parsed := ParseManagedSnapshot(m);
      if parsed.None? { return false; }
      var snapshot := parsed.value;
      if source == FromPolicy && m.publicKey.Some? {
        if !s.goodKey(m.publicKey.value) { return false; }
        trustedLivePublicKey := m.publicKey;
      }
      if source == FromNative && snapshot.generation < managedGenerationFloor { return false; }
      if activeSnapshot.Some? && snapshot.generation < activeSnapshot.value.generation { return false; }
      if activeSnapshot.Some? && snapshot.generation == activeSnapshot.value.generation
         && snapshot.revision != activeSnapshot.value.revision { return false; }
      if source == FromPolicy { managedGenerationFloor := snapshot.generation; }
      if activeSnapshot.Some? && activeSnapshot.value.revision == snapshot.revision {
        if source == FromNative { activeSnapshotSource := FromNative; }
        return true;
      }
      ok := CompileAndInstall(snapshot.rules, s);
      if !ok { return; }
      activeSnapshot := Some(snapshot);
      activeSnapshotSource := source;
    }

    method RefreshRules(stored: Option<Managed>, s: Setting) returns (ok: bool)
      modifies this
      ensures (Now(), ok) == RefreshSpec(old(Now()), stored, s)
    {
      if stored.None? { return false; }
      ok := ActivateManagedData(stored.value, FromPolicy, s);
    }

    method RecompileActiveSnapshot(stored: Option<Managed>, s: Setting) returns (ok: bool)
      modifies this
      ensures (Now(), ok) == if old(activeSnapshot).None? then RefreshSpec(old(Now()), stored, s)
                             else RecompileSpec(old(Now()), old(activeSnapshot).value.rules, s)
    {
      if activeSnapshot.None? {
        ok := RefreshRules(stored, s);
      } else {
        ok := CompileAndInstall(activeSnapshot.value.rules, s);
      }
    }

    /** One entry of the update queue, with its error handling. */
    method RunTask(task: Task, s: Setting)
      modifies this
      ensures Now() == TaskSpec(old(Now()), task, s)
    {
      hide ActivateSpec, RefreshSpec, RecompileSpec, FailSafeSpec;
      match task {
        case Refresh(stored) =>
          var ok := RefreshRules(stored, s);
          if !ok && activeSnapshot.None? { ActivateFailSafe(s.failSafe); }
        case NativeAnswer(m) =>
          var ok := ActivateManagedData(m, FromNative, s);
        case NativeSnapshot(m, stored) =>
          var ok := ActivateManagedData(m, FromNative, s);
          if !ok && activeSnapshot.None? {
            var recovered := RefreshRules(stored, s);
            if !recovered { ActivateFailSafe(s.failSafe); }
          }
        case Alarm(stored) =>
          var ok := RecompileActiveSnapshot(stored, s);
          if !ok { ActivateFailSafe(s.failSafe); }
        case Restart =>
          activeSnapshot, activeSnapshotSource, managedGenerationFloor, trustedLivePublicKey := None, FromPolicy, 0, None;
      }
    }
  }
}
