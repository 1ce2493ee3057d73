/** What holds between any two tasks of the worker. */
module WorkerSafety {
  import opened Basics
  import opened CanonicalJson
  import opened MatchPattern
  import opened PatternMeaning
  import opened Rules
  import opened Evaluation
  import opened Dnr
  import opened Compiler
  import opened ManagedData
  import opened WorkerSteps
  import opened FailSafeOrdering

  // ---- Generations ----

  /** The active snapshot stays, or a strictly newer one replaces it. */
  predicate Advances(before: Option<Snapshot>, after: Option<Snapshot>) {
    before.Some? ==> after.Some? && (after == before || after.value.generation > before.value.generation)
  }

  predicate Trustworthy(t: Option<Snapshot>) {
    t.Some? ==> t.value.revision == RevisionOf(t.value.rules) && 0 < t.value.generation <= MAX_SAFE_INTEGER && EngineAccepts(t.value.rules)
  }

  lemma AdmitMeans(w: Worker, m: Managed, source: Source, goodKey: string -> bool)
    ensures var (after, t) := AdmitSpec(w, m, source, goodKey);
            && after.active == w.active && after.dnr == w.dnr && after.source == w.source
            && (t.Some? ==> Trustworthy(t) && t == ParseManagedSnapshot(m) && !Stale(w, t.value) && !Reused(w, t.value))
  {
    if ParseManagedSnapshot(m).Some? { AcceptedIsAuthentic(m); }
  }

  lemma RecompileMeans(w: Worker, rules: RuleSet, s: Setting)
    ensures var (after, ok) := RecompileSpec(w, rules, s);
            && after == w.(dnr := after.dnr)
            && (ok ==> CompileSpec(rules, s.clock, s.page).Ok? && after.dnr == Installed(CompileSpec(rules, s.clock, s.page).value))
            && (!ok && !s.install.toggle ==> after == w)
  {
    hide CompileSpec;
  }

  lemma ActivateAdvances(w: Worker, m: Managed, source: Source, s: Setting)
    requires Trustworthy(w.active)
    ensures var (after, ok) := ActivateSpec(w, m, source, s);
            Advances(w.active, after.active) && Trustworthy(after.active)
  {
    hide AdmitSpec, RecompileSpec, RevisionOf, EngineAccepts;
    var (admitted, t) := AdmitSpec(w, m, source, s.goodKey);
    AdmitMeans(w, m, source, s.goodKey);
    if t.Some? { RecompileMeans(admitted, t.value.rules, s); }
  }

  lemma TaskAdvances(w: Worker, task: Task, s: Setting)
    requires Trustworthy(w.active) && task != Restart
    ensures Advances(w.active, TaskSpec(w, task, s).active) && Trustworthy(TaskSpec(w, task, s).active)
  {
    hide ActivateSpec, RecompileSpec, Trustworthy;
    match task
    case Refresh(stored) => if stored.Some? { ActivateAdvances(w, stored.value, FromPolicy, s); }
    case NativeAnswer(m) => ActivateAdvances(w, m, FromNative, s);
    case NativeSnapshot(m, stored) =>
      ActivateAdvances(w, m, FromNative, s);
      var after := ActivateSpec(w, m, FromNative, s).0;
      if stored.Some? { ActivateAdvances(after, stored.value, FromPolicy, s); }
    case Alarm(stored) =>
      if stored.Some? { ActivateAdvances(w, stored.value, FromPolicy, s); }
      if w.active.Some? { RecompileMeans(w, w.active.value.rules, s); }
    case _ =>
  }

  /** No task of the run is a restart of the worker. */
  predicate OneLife(turns: seq<Turn>) {
    forall i :: 0 <= i < |turns| ==> turns[i].task != Restart
  }

  /** Over every run the active generation never decreases, and one active generation never stands for two rule sets. */
  lemma {:induction false} GenerationsAdvance(w: Worker, turns: seq<Turn>)
    requires Trustworthy(w.active) && OneLife(turns)
    ensures Advances(w.active, RunTasks(w, turns).active) && Trustworthy(RunTasks(w, turns).active)
    decreases |turns|
  {
    if turns != [] {
      assert turns[0].task != Restart;
      TaskAdvances(w, turns[0].task, turns[0].setting);
      GenerationsAdvance(TaskSpec(w, turns[0].task, turns[0].setting), turns[1..]);
    }
  }

  // ---- The installed filter ----

  /** Calls that switch the packaged rule, and those of the fail-safe, do not throw. */
  predicate Working(s: Setting) {
    !s.install.toggle && !s.failSafe.toggle && !s.failSafe.list && !s.failSafe.update
  }

  predicate InstalledAt(w: Worker, s: Setting) {
    && w.active.Some? && CompileSpec(w.active.value.rules, s.clock, s.page).Ok?
    && w.dnr == Installed(CompileSpec(w.active.value.rules, s.clock, s.page).value)
  }

  /** No alarm after turn `i`. */
  predicate Fresh(turns: seq<Turn>, i: int) {
    forall j :: 0 <= j < |turns| && i < j ==> !turns[j].task.Alarm?
  }

  /**
   * The fail-safe, or the filter found at the start while nothing is active and no alarm came, or the active rules compiled
   * at a turn no earlier than the last alarm.
   */
  predicate FilterExplained(w: Worker, kept: DnrState, turns: seq<Turn>) {
    || w.dnr == NO_FILTER
    || (w.active.None? && w.dnr == kept && Fresh(turns, -1))
    || exists i :: 0 <= i < |turns| && InstalledAt(w, turns[i].setting) && Fresh(turns, i)
  }

  lemma FailSafeWorks(dnr: DnrState, s: Setting)
    requires Working(s)
    ensures FailSafeSpec(dnr, s.failSafe) == NO_FILTER
  {
  }

  lemma ExplainedLonger(w: Worker, after: Worker, kept: DnrState, turns: seq<Turn>, turn: Turn)
    requires FilterExplained(w, kept, turns) && after.active == w.active && after.dnr == w.dnr && !turn.task.Alarm?
    ensures FilterExplained(after, kept, turns + [turn])
  {
    if i :| 0 <= i < |turns| && InstalledAt(w, turns[i].setting) && Fresh(turns, i) {
      assert InstalledAt(after, (turns + [turn])[i].setting) && Fresh(turns + [turn], i);
    }
  }

  lemma ExplainedNow(after: Worker, kept: DnrState, turns: seq<Turn>, turn: Turn)
    requires InstalledAt(after, turn.setting)
    ensures FilterExplained(after, kept, turns + [turn])
  {
    assert (turns + [turn])[|turns|] == turn && Fresh(turns + [turn], |turns|);
  }

  /** One delivery keeps active snapshot and filter, or installs and activates both together. */
  lemma ActivateKeepsOrInstalls(w: Worker, m: Managed, source: Source, s: Setting)
    requires Working(s)
    ensures var (after, ok) := ActivateSpec(w, m, source, s);
            (after.active == w.active && after.dnr == w.dnr) || (ok && InstalledAt(after, s))
  {
    hide AdmitSpec, RecompileSpec, CompileSpec;
    var (admitted, t) := AdmitSpec(w, m, source, s.goodKey);
    AdmitMeans(w, m, source, s.goodKey);
    if t.Some? { RecompileMeans(admitted, t.value.rules, s); }
  }

  lemma RefreshKeepsOrInstalls(w: Worker, stored: Option<Managed>, s: Setting)
    requires Working(s)
    ensures var (after, ok) := RefreshSpec(w, stored, s);
            && ((after.active == w.active && after.dnr == w.dnr) || (ok && InstalledAt(after, s)))
            && (ok && w.active.None? ==> InstalledAt(after, s))
  {
    hide ActivateSpec, InstalledAt;
    if stored.Some? {
      ActivateKeepsOrInstalls(w, stored.value, FromPolicy, s);
      if w.active.None? && ActivateSpec(w, stored.value, FromPolicy, s).1 { FirstActivates(w, stored.value, FromPolicy, s); }
    }
  }

  /** With nothing active, a delivery processed without an error has made its snapshot active. */
  lemma FirstActivates(w: Worker, m: Managed, source: Source, s: Setting)
    requires w.active.None? && ActivateSpec(w, m, source, s).1
    ensures ActivateSpec(w, m, source, s).0.active == ParseManagedSnapshot(m)
    ensures ParseManagedSnapshot(m).Some?
  {
    hide RecompileSpec, ParseManagedSnapshot;
    AdmitMeans(w, m, source, s.goodKey);
  }

  /** What a task does to active snapshot and filter: nothing, the fail-safe, or a fresh installation. */
  lemma TaskFilter(w: Worker, task: Task, s: Setting)
    requires Working(s) && task != Restart
    ensures var after := TaskSpec(w, task, s);
            || (!task.Alarm? && after.active == w.active && after.dnr == w.dnr) || after.dnr == NO_FILTER || InstalledAt(after, s)
  {
    hide ActivateSpec, RefreshSpec, RecompileSpec, FailSafeSpec, CompileSpec;
    match task
    case Refresh(stored) =>
      RefreshKeepsOrInstalls(w, stored, s);
      FailSafeWorks(RefreshSpec(w, stored, s).0.dnr, s);
    case NativeAnswer(m) => ActivateKeepsOrInstalls(w, m, FromNative, s);
    case NativeSnapshot(m, stored) =>
      ActivateKeepsOrInstalls(w, m, FromNative, s);
      var after := ActivateSpec(w, m, FromNative, s).0;
      RefreshKeepsOrInstalls(after, stored, s);
      FailSafeWorks(RefreshSpec(after, stored, s).0.dnr, s);
    case Alarm(stored) =>
      RefreshKeepsOrInstalls(w, stored, s);
      if w.active.Some? {
        RecompileMeans(w, w.active.value.rules, s);
        FailSafeWorks(RecompileSpec(w, w.active.value.rules, s).0.dnr, s);
      } else {
        FailSafeWorks(RefreshSpec(w, stored, s).0.dnr, s);
      }
    case _ =>
  }

  /** The four calls of an installation before the packaged rule is switched work. */
  predicate Installs(w: Worker, s: Setting) {
    w.active.Some? && CompileSpec(w.active.value.rules, s.clock, s.page).Ok? && GetsToExchange(s.install)
  }

  /** An alarm with a snapshot active compiles it for the new instant, or else everything is blocked. */
  lemma AlarmRecompiles(w: Worker, stored: Option<Managed>, s: Setting)
    requires Working(s) && w.active.Some?
    ensures var after := TaskSpec(w, Alarm(stored), s);
            && after.active == w.active
            && if Installs(w, s) then InstalledAt(after, s) else after.dnr == NO_FILTER
  {
    hide CompileSpec;
    RecompileMeans(w, w.active.value.rules, s);
    FailSafeWorks(w.dnr, s);
  }

  lemma TaskExplained(w: Worker, kept: DnrState, past: seq<Turn>, turn: Turn)
    requires FilterExplained(w, kept, past) && Working(turn.setting) && turn.task != Restart
    ensures FilterExplained(TaskSpec(w, turn.task, turn.setting), kept, past + [turn])
  {
    hide TaskSpec, InstalledAt;
    var after := TaskSpec(w, turn.task, turn.setting);
    TaskFilter(w, turn.task, turn.setting);
    if after.dnr == NO_FILTER {
    } else if InstalledAt(after, turn.setting) {
      ExplainedNow(after, kept, past, turn);
    } else {
      ExplainedLonger(w, after, kept, past, turn);
    }
  }

  predicate AllWork(turns: seq<Turn>) {
    forall i :: 0 <= i < |turns| ==> Working(turns[i].setting)
  }

  lemma {:induction false} RunExplained(w: Worker, kept: DnrState, past: seq<Turn>, turns: seq<Turn>)
    requires FilterExplained(w, kept, past) && AllWork(turns) && OneLife(turns)
    ensures FilterExplained(RunTasks(w, turns), kept, past + turns)
    decreases |turns|
  {
    hide TaskSpec, FilterExplained, Working;
    if turns == [] {
      assert past + turns == past;
    } else {
      assert Working(turns[0].setting) && turns[0].task != Restart;
      TaskExplained(w, kept, past, turns[0]);
      assert past + turns == past + [turns[0]] + turns[1..];
      RunExplained(TaskSpec(w, turns[0].task, turns[0].setting), kept, past + [turns[0]], turns[1..]);
    }
  }

  /**
   * Between any two tasks of a worker's life the filter is the fail-safe, or the one found at the start while nothing is
   * active and no alarm came, or the active snapshot compiled at the time of some task no earlier than the last alarm.
   */
  lemma FilterAlwaysExplained(kept: DnrState, turns: seq<Turn>)
    requires AllWork(turns) && OneLife(turns)
    ensures FilterExplained(RunTasks(Worker(None, FromPolicy, 0, None, kept), turns), kept, turns)
  {
    RunExplained(Worker(None, FromPolicy, 0, None, kept), kept, [], turns);
    assert [] + turns == turns;
  }

  /** The filter gives the verdict of the rules as they stood at the instant of `s`; on plain hosts that is the documented one. */
  ghost predicate Governs(w: Worker, s: Setting, req: Request, rx: RegexEngine)
    requires w.active.Some?
  {
    var rules := w.active.value.rules;
    && (Blocked(w.dnr, req, rx) <==> Verdict(ReachedRules(rules, req.url), s.clock, req.url, rx) == Block)
    && (PlainHost(req.url.host) ==> (Blocked(w.dnr, req, rx) <==> Verdict(rules, s.clock, req.url, rx) == Block))
  }

  lemma InstalledGoverns(w: Worker, s: Setting, req: Request, rx: RegexEngine)
    requires InstalledAt(w, s) && EngineFaithful(rx) && WellFormedUrl(req.url) && !req.resource.Other?
    ensures Governs(w, s, req, rx)
  {
    hide CompileSpec, Verdict, Blocked;
    CompilationExact(w.active.value.rules, s.clock, s.page, req, rx);
    if PlainHost(req.url.host) { PlainReachesAll(w.active.value.rules, req.url); }
  }

  /**
   * In terms of requests: with a snapshot active, everything is blocked, or the verdict at some instant since the last alarm
   * holds.
   */
  lemma ActiveRulesGovern(kept: DnrState, turns: seq<Turn>, rx: RegexEngine)
    returns (k: nat)
    requires AllWork(turns) && OneLife(turns) && EngineFaithful(rx)
    requires RunTasks(Worker(None, FromPolicy, 0, None, kept), turns).active.Some?
    ensures var w := RunTasks(Worker(None, FromPolicy, 0, None, kept), turns);
            || (forall req: Request :: !req.resource.Other? ==> Blocked(w.dnr, req, rx))
            || (k < |turns| && Fresh(turns, k) && forall req: Request :: WellFormedUrl(req.url) && !req.resource.Other? ==>
                  Governs(w, turns[k].setting, req, rx))
  {
    hide TaskSpec, CompileSpec, Verdict, Governs, InstalledAt, EngineFaithful, WellFormedUrl;
    var w := RunTasks(Worker(None, FromPolicy, 0, None, kept), turns);
    FilterAlwaysExplained(kept, turns);
    k := 0;
    if w.dnr == NO_FILTER {
      forall req: Request | !req.resource.Other? ensures Blocked(w.dnr, req, rx) {
        OnlyFailSafeBlocksAll(req, rx);
      }
    } else {
      var i :| 0 <= i < |turns| && InstalledAt(w, turns[i].setting) && Fresh(turns, i);
      k := i;
      forall req: Request | WellFormedUrl(req.url) && !req.resource.Other?
        ensures Governs(w, turns[k].setting, req, rx)
      {
        InstalledGoverns(w, turns[k].setting, req, rx);
      }
    }
  }

  // ---- Acknowledgements, the floor and the trusted key ----

  /** A delivery of the active revision is accepted without touching filter or active generation, even when the fail-safe is on. */
  lemma SameRevisionAcknowledged(w: Worker, m: Managed, source: Source, s: Setting)
    requires AdmitSpec(w, m, source, s.goodKey).1.Some? && AlreadyActive(w, AdmitSpec(w, m, source, s.goodKey).1.value)
    ensures var (after, ok) := ActivateSpec(w, m, source, s);
            && ok && after.active == w.active && after.dnr == w.dnr
            && (source == FromPolicy ==> after.floor == m.generation)
  {
    AdmitMeans(w, m, source, s.goodKey);
  }

  /** A live message changes something only when the trusted key signed exactly its text and it is not below the floor. */
  lemma NativeNeedsTrust(w: Worker, m: Managed, s: Setting)
    ensures var (after, ok) := ActivateSpec(w, m, FromNative, s);
            && after.trusted == w.trusted && after.floor == w.floor
            && (ok || after != w ==>
                w.trusted.Some? && m.signature == Some(Signed(w.trusted.value, m.text)) && m.generation >= w.floor)
  {
    hide RecompileSpec;
    var (admitted, t) := AdmitSpec(w, m, FromNative, s.goodKey);
    if t.Some? { RecompileMeans(admitted, t.value.rules, s); }
  }

  /** The key of a policy message is taken over as soon as the message parses, whether or not its snapshot is then refused. */
  lemma PolicyKeyTakenOver(w: Worker, m: Managed, s: Setting)
    ensures ActivateSpec(w, m, FromPolicy, s).0.trusted ==
            if ParseManagedSnapshot(m).Some? && m.publicKey.Some? && s.goodKey(m.publicKey.value) then m.publicKey else w.trusted
  {
    hide RecompileSpec, ParseManagedSnapshot;
    var (admitted, t) := AdmitSpec(w, m, FromPolicy, s.goodKey);
    if t.Some? { RecompileMeans(admitted, t.value.rules, s); }
  }
}
