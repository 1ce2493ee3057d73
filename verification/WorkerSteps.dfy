/** The extension's background worker: one task of its update queue at a time. */
module WorkerSteps {
  import opened Basics
  import opened Rules
  import opened Evaluation
  import opened Dnr
  import opened Compiler
  import opened ManagedData

  datatype Source = FromPolicy | FromNative

  /** Module variables of the worker together with the browser's filter state; `source` counts while a snapshot is active. */
  datatype Worker = Worker(active: Option<Snapshot>, source: Source, floor: int, trusted: Option<string>, dnr: DnrState)

  /** What each browser call answers: true where it throws. */
  datatype InstallFaults = InstallFaults(regex: bool, limit: bool, list: bool, update: bool, toggle: bool)

  datatype FailSafeFaults = FailSafeFaults(toggle: bool, list: bool, update: bool)

  /** The circumstances of one task: the time, the page address, the keys the browser can import, the failures. */
  datatype Setting = Setting(
    clock: Clock, page: Option<string>, goodKey: string -> bool, install: InstallFaults, failSafe: FailSafeFaults)

  /** `stored` is the answer of managed storage, None where reading it throws. */
  datatype Task =
    | Refresh(stored: Option<Managed>)
    | NativeAnswer(managed: Managed)
    | NativeSnapshot(managed: Managed, stored: Option<Managed>)
    | Alarm(stored: Option<Managed>)
    | Restart

  const NO_FILTER := DnrState([], true)

  // ---- Filter updates ----

  function SetFailSafe(dnr: DnrState, enabled: bool): DnrState { dnr.(failSafe := enabled) }

  /** The states entered when switching to the fail-safe: the packaged rule goes on first, then the dynamic rules go. */
  function FailSafeTrace(dnr: DnrState, f: FailSafeFaults): seq<DnrState> {
    if f.toggle then []
    else
      var on := SetFailSafe(dnr, true);
      if f.list || on.dynamicRules == [] || f.update then [on] else [on, on.(dynamicRules := [])]
  }

  /** The states entered by an installation: all dynamic rules are exchanged at once, then the packaged rule is switched. */
  function InstallTrace(dnr: DnrState, c: Compiled, f: InstallFaults): seq<DnrState> {
    if f.regex || f.limit || f.list || f.update then []
    else
      var exchanged := dnr.(dynamicRules := c.rules);
      if f.toggle then [exchanged] else [exchanged, SetFailSafe(exchanged, c.defaultAction == Block)]
  }

  /** The state in which a trace that starts at `dnr` ends. */
  function Final(dnr: DnrState, trace: seq<DnrState>): DnrState {
    if trace == [] then dnr else trace[|trace| - 1]
  }

  function FailSafeSpec(dnr: DnrState, f: FailSafeFaults): DnrState { Final(dnr, FailSafeTrace(dnr, f)) }

  function InstallSpec(dnr: DnrState, c: Compiled, f: InstallFaults): (DnrState, bool) {
    (Final(dnr, InstallTrace(dnr, c, f)), !(f.regex || f.limit || f.list || f.update || f.toggle))
  }

  function RecompileSpec(w: Worker, rules: RuleSet, s: Setting): (Worker, bool) {
    match CompileSpec(rules, s.clock, s.page)
    case Err(_) => (w, false)
    case Ok(c) => var (dnr, ok) := InstallSpec(w.dnr, c, s.install); (w.(dnr := dnr), ok)
  }

  // ---- Activation ----

  /** A live message must be signed by the trusted key and must not name another one. */
  predicate LiveVerified(m: Managed, trusted: Option<string>) {
    && trusted.Some? && m.signature == Some(Signed(trusted.value, m.text))
    && (m.publicKey.Some? ==> m.publicKey == trusted)
  }

  predicate Stale(w: Worker, t: Snapshot) {
    w.active.Some? && t.generation < w.active.value.generation
  }

  predicate Reused(w: Worker, t: Snapshot) {
    w.active.Some? && t.generation == w.active.value.generation && t.revision != w.active.value.revision
  }

  /** The checks before anything is installed; the trusted key is taken over before the generation checks. */
  function AdmitSpec(w: Worker, m: Managed, source: Source, goodKey: string -> bool): (Worker, Option<Snapshot>) {
    if source == FromNative && !LiveVerified(m, w.trusted) then (w, None)
    else
      match ParseManagedSnapshot(m)
      case None => (w, None)
      case Some(t) =>
        if source == FromPolicy && m.publicKey.Some? && !goodKey(m.publicKey.value) then (w, None)
        else
          var keyed := if source == FromPolicy && m.publicKey.Some? then w.(trusted := m.publicKey) else w;
          if source == FromNative && t.generation < w.floor then (keyed, None)
          else if Stale(w, t) || Reused(w, t) then (keyed, None)
          else (if source == FromPolicy then keyed.(floor := t.generation) else keyed, Some(t))
  }

  predicate AlreadyActive(w: Worker, t: Snapshot) {
    w.active.Some? && w.active.value.revision == t.revision
  }

  /** One delivery: the new worker and whether it was processed without an error. */
  function ActivateSpec(w: Worker, m: Managed, source: Source, s: Setting): (Worker, bool) {
    var (admitted, t) := AdmitSpec(w, m, source, s.goodKey);
    if t.None? then (admitted, false)
    else if AlreadyActive(w, t.value) then
      (if source == FromNative then admitted.(source := FromNative) else admitted, true)
    else
      var (installed, ok) := RecompileSpec(admitted, t.value.rules, s);
      if ok then (installed.(active := t, source := source), true) else (installed, false)
  }

  function RefreshSpec(w: Worker, stored: Option<Managed>, s: Setting): (Worker, bool) {
    if stored.None? then (w, false) else ActivateSpec(w, stored.value, FromPolicy, s)
  }

  function FailSafe(w: Worker, s: Setting): Worker { w.(dnr := FailSafeSpec(w.dnr, s.failSafe)) }

  // ---- The queue's tasks ----

  /** A restarted worker forgets its variables; the browser keeps the filter. */
  function Restarted(w: Worker): Worker { Worker(None, FromPolicy, 0, None, w.dnr) }

  function TaskSpec(w: Worker, task: Task, s: Setting): Worker {
    match task
    case Refresh(stored) =>
      var (after, ok) := RefreshSpec(w, stored, s);
      if ok || after.active.Some? then after else FailSafe(after, s)
    case NativeAnswer(m) => ActivateSpec(w, m, FromNative, s).0
    case NativeSnapshot(m, stored) =>
      var (after, ok) := ActivateSpec(w, m, FromNative, s);
      if ok || after.active.Some? then after
      else
        var (again, recovered) := RefreshSpec(after, stored, s);
        if recovered then again else FailSafe(again, s)
    case Alarm(stored) =>
      var (after, ok) := if w.active.None? then RefreshSpec(w, stored, s) else RecompileSpec(w, w.active.value.rules, s);
      if ok then after else FailSafe(after, s)
    case Restart => Restarted(w)
  }

  datatype Turn = Turn(task: Task, setting: Setting)

  function RunTasks(w: Worker, turns: seq<Turn>): Worker
    decreases |turns|
  {
    if turns == [] then w else RunTasks(TaskSpec(w, turns[0].task, turns[0].setting), turns[1..])
  }
}
