/** What deliveries achieve as tasks of the worker's queue, from the policy's key to the live update. */
module Deliveries {
  import opened Basics
  import opened CanonicalJson
  import opened JsonReader
  import opened Rules
  import opened Compiler
  import opened UserDomains
  import opened ManagedData
  import opened RulesReader
  import opened Publication
  import opened PublicationSafety
  import opened PublicationRuns
  import opened WorkerSteps
  import opened WorkerSafety
  import opened EndToEnd

  // ---- One delivery ----

  /** The message parses, comes with a key or signature good for its source, and is not older than what is active. */
  predicate Acceptable(w: Worker, m: Managed, source: Source, s: Setting) {
    && ParseManagedSnapshot(m).Some?
    && (source == FromPolicy && m.publicKey.Some? ==> s.goodKey(m.publicKey.value))
    && (source == FromNative ==>
          && w.trusted.Some? && m.signature == Some(Signed(w.trusted.value, m.text))
          && (m.publicKey.Some? ==> m.publicKey == w.trusted) && m.generation >= w.floor)
    && (w.active.Some? ==>
          m.generation > w.active.value.generation || (m.generation == w.active.value.generation && AlreadyKnown(w, m)))
  }

  /** The message carries the rules that are active. */
  predicate AlreadyKnown(w: Worker, m: Managed) {
    w.active.Some? && m.revision == w.active.value.revision
  }

  /** The rules compile at that instant and the browser's calls work. */
  predicate Installable(m: Managed, s: Setting) {
    m.content.Some? && CompileSpec(m.content.value.rules, s.clock, s.page).Ok? && InstallWorks(s.install)
  }

  lemma AdmittedExactly(w: Worker, m: Managed, source: Source, s: Setting)
    ensures AdmitSpec(w, m, source, s.goodKey).1 == (if Acceptable(w, m, source, s) then m.content else None)
    ensures Acceptable(w, m, source, s) ==> m.content.Some? && m.content.value.revision == m.revision
  {
    hide BrowserRevision, EngineAccepts;
  }

  lemma RecompileExactly(w: Worker, rules: RuleSet, s: Setting)
    ensures RecompileSpec(w, rules, s).1 <==> CompileSpec(rules, s.clock, s.page).Ok? && InstallWorks(s.install)
  {
    hide CompileSpec;
  }

  /**
   * Exactly which deliveries are processed without an error, on any worker: new rules are then active and installed, known
   * ones leave snapshot and filter alone.
   */
  lemma DeliveryExactly(w: Worker, m: Managed, source: Source, s: Setting)
    ensures var (after, ok) := ActivateSpec(w, m, source, s);
            && (ok <==> Acceptable(w, m, source, s) && (AlreadyKnown(w, m) || Installable(m, s)))
            && (ok && !AlreadyKnown(w, m) ==> after.active == m.content && InstalledAt(after, s))
            && (ok && AlreadyKnown(w, m) ==> after.active == w.active && after.dnr == w.dnr)
            && (!ok ==> after.active == w.active)
  {
    hide AdmitSpec, Acceptable, RecompileSpec, CompileSpec, ParseManagedSnapshot, InstallWorks;
    var (admitted, t) := AdmitSpec(w, m, source, s.goodKey);
    AdmittedExactly(w, m, source, s);
    AdmitMeans(w, m, source, s.goodKey);
    if t.Some? {
      RecompileExactly(admitted, t.value.rules, s);
      RecompileMeans(admitted, t.value.rules, s);
    }
  }

  // ---- One task ----

  /** The task delivers the message from that source; an alarm reads the policy only while nothing is active. */
  predicate Offers(w: Worker, task: Task, m: Managed, source: Source) {
    || (source == FromPolicy && (task == Refresh(Some(m)) || (task == Alarm(Some(m)) && w.active.None?)))
    || (source == FromNative && (task == NativeAnswer(m) || (task.NativeSnapshot? && task.managed == m)))
  }

  /** A delivery of new rules that is acceptable and installable becomes active, with its filter, whatever was active before. */
  lemma TaskActivates(w: Worker, task: Task, m: Managed, source: Source, s: Setting)
    requires Offers(w, task, m, source) && Acceptable(w, m, source, s)
    requires !AlreadyKnown(w, m) && Installable(m, s)
    ensures TaskSpec(w, task, s).active == m.content && m.content.Some? && InstalledAt(TaskSpec(w, task, s), s)
  {
    hide ActivateSpec, Acceptable, Installable, CompileSpec;
    DeliveryExactly(w, m, source, s);
  }

  /** A delivery of the active rules is acknowledged: snapshot and filter stay. */
  lemma TaskAcknowledges(w: Worker, task: Task, m: Managed, source: Source, s: Setting)
    requires Offers(w, task, m, source) && Acceptable(w, m, source, s) && AlreadyKnown(w, m)
    ensures TaskSpec(w, task, s).active == w.active && TaskSpec(w, task, s).dnr == w.dnr
  {
    hide ActivateSpec, Acceptable;
    DeliveryExactly(w, m, source, s);
  }

  /** No other delivery changes the active snapshot; only with nothing active may a refused live snapshot be replaced. */
  lemma TaskActivatesExactly(w: Worker, task: Task, m: Managed, source: Source, s: Setting)
    requires Offers(w, task, m, source) && !AlreadyKnown(w, m) && (task.NativeSnapshot? ==> w.active.Some?)
    ensures TaskSpec(w, task, s).active ==
            if Acceptable(w, m, source, s) && Installable(m, s) then m.content else w.active
  {
    hide ActivateSpec, Acceptable, Installable, FailSafeSpec;
    DeliveryExactly(w, m, source, s);
  }

  lemma RefusalKeepsFilter(w: Worker, m: Managed, source: Source, s: Setting)
    requires !s.install.toggle && !ActivateSpec(w, m, source, s).1
    ensures ActivateSpec(w, m, source, s).0.dnr == w.dnr
  {
    hide AdmitSpec, RecompileSpec;
    var (admitted, t) := AdmitSpec(w, m, source, s.goodKey);
    AdmitMeans(w, m, source, s.goodKey);
    if t.Some? { RecompileMeans(admitted, t.value.rules, s); }
  }

  /** With a snapshot active, a delivery that cannot be used leaves the filter alone as well: only the final switch could touch it. */
  lemma RefusedDeliveryKeepsFilter(w: Worker, task: Task, m: Managed, source: Source, s: Setting)
    requires Offers(w, task, m, source) && w.active.Some? && !AlreadyKnown(w, m) && !s.install.toggle
    requires !(Acceptable(w, m, source, s) && Installable(m, s))
    ensures TaskSpec(w, task, s).active == w.active && TaskSpec(w, task, s).dnr == w.dnr
  {
    hide ActivateSpec, Acceptable, Installable, FailSafeSpec;
    DeliveryExactly(w, m, source, s);
    RefusalKeepsFilter(w, m, source, s);
  }

  /** The floor for live messages is the generation of the last policy message that passed the checks; live messages never move it. */
  lemma FloorExactly(w: Worker, m: Managed, source: Source, s: Setting)
    ensures ActivateSpec(w, m, source, s).0.floor ==
            if source == FromPolicy && Acceptable(w, m, source, s) then m.generation else w.floor
  {
    hide RecompileSpec, BrowserRevision, EngineAccepts;
    var (admitted, t) := AdmitSpec(w, m, source, s.goodKey);
    AdmittedExactly(w, m, source, s);
    if t.Some? { RecompileMeans(admitted, t.value.rules, s); }
  }

  /** The source is the one that made the rules active or, once a live message confirmed them, live. */
  lemma SourceExactly(w: Worker, m: Managed, source: Source, s: Setting)
    ensures var (after, ok) := ActivateSpec(w, m, source, s);
            after.source == if ok && (source == FromNative || !AlreadyKnown(w, m)) then source else w.source
  {
    hide RecompileSpec, BrowserRevision, EngineAccepts;
    var (admitted, t) := AdmitSpec(w, m, source, s.goodKey);
    AdmittedExactly(w, m, source, s);
    if t.Some? { RecompileMeans(admitted, t.value.rules, s); }
  }

  /** A restarted worker knows nothing, but the browser keeps blocking what it blocked. */
  lemma RestartKeepsFilter(w: Worker, s: Setting)
    ensures var after := TaskSpec(w, Task.Restart, s);
            after.dnr == w.dnr && after.active.None? && after.trusted.None? && after.floor == 0
  {
  }

  /** With nothing active, a live snapshot that cannot be used is replaced by the stored policy. */
  lemma FallsBackToPolicy(w: Worker, m: Managed, stored: Managed, s: Setting)
    requires w.active.None? && !(Acceptable(w, m, FromNative, s) && Installable(m, s))
    requires Acceptable(w, stored, FromPolicy, s) && Installable(stored, s)
    ensures var after := TaskSpec(w, NativeSnapshot(m, Some(stored)), s);
            after.active == stored.content && stored.content.Some? && InstalledAt(after, s)
  {
    hide ActivateSpec, ParseManagedSnapshot, Installable;
    var failed := ActivateSpec(w, m, FromNative, s).0;
    DeliveryExactly(w, m, FromNative, s);
    assert Acceptable(failed, stored, FromPolicy, s);
    DeliveryExactly(failed, stored, FromPolicy, s);
  }

  /** A task that may read the policy, with nothing active, and neither its message nor the policy can be used. */
  predicate NothingUsable(w: Worker, task: Task, s: Setting) {
    && w.active.None? && !task.Restart? && !task.NativeAnswer?
    && (task.NativeSnapshot? ==> !(Acceptable(w, task.managed, FromNative, s) && Installable(task.managed, s)))
    && (task.stored.Some? ==> !(Acceptable(w, task.stored.value, FromPolicy, s) && Installable(task.stored.value, s)))
  }

  /** Then everything is blocked, provided the fail-safe's calls work. */
  lemma BlockedWithoutRules(w: Worker, task: Task, s: Setting)
    requires NothingUsable(w, task, s) && Working(s)
    ensures TaskSpec(w, task, s).active.None? && TaskSpec(w, task, s).dnr == NO_FILTER
  {
    hide ActivateSpec, ParseManagedSnapshot, Installable, FailSafeSpec;
    match task
    case Refresh(stored) => PolicyUnusable(w, stored, s);
    case Alarm(stored) => PolicyUnusable(w, stored, s);
    case NativeSnapshot(m, stored) =>
      DeliveryExactly(w, m, FromNative, s);
      var failed := ActivateSpec(w, m, FromNative, s).0;
      assert stored.Some? ==> Acceptable(failed, stored.value, FromPolicy, s) == Acceptable(w, stored.value, FromPolicy, s);
      PolicyUnusable(failed, stored, s);
  }

  lemma PolicyUnusable(w: Worker, stored: Option<Managed>, s: Setting)
    requires w.active.None? && Working(s)
    requires stored.Some? ==> !(Acceptable(w, stored.value, FromPolicy, s) && Installable(stored.value, s))
    ensures var (after, ok) := RefreshSpec(w, stored, s);
            !ok && after.active.None? && FailSafeSpec(after.dnr, s.failSafe) == NO_FILTER
  {
    hide ActivateSpec, Acceptable, Installable, FailSafeSpec;
    if stored.Some? { DeliveryExactly(w, stored.value, FromPolicy, s); }
    FailSafeWorks(RefreshSpec(w, stored, s).0.dnr, s);
  }

  // ---- Runs of tasks ----

  lemma {:induction false} RunAppend(w: Worker, a: seq<Turn>, b: seq<Turn>)
    ensures RunTasks(w, a + b) == RunTasks(RunTasks(w, a), b)
    decreases |a|
  {
    hide TaskSpec;
    if a == [] {
      assert a + b == b;
    } else {
      assert (a + b)[0] == a[0] && (a + b)[1..] == a[1..] + b;
      RunAppend(TaskSpec(w, a[0].task, a[0].setting), a[1..], b);
    }
  }

  lemma RunOne(w: Worker, turn: Turn)
    ensures RunTasks(w, [turn]) == TaskSpec(w, turn.task, turn.setting)
  {
    hide TaskSpec;
    assert [turn][1..] == [];
  }

  // ---- The key arrives with the policy ----

  predicate NamesKey(stored: Option<Managed>, key: string) {
    stored.Some? && stored.value.publicKey.Some? ==> stored.value.publicKey == Some(key)
  }

  /** No restart, and no policy that names another key. */
  predicate KeepsKey(task: Task, key: string) {
    match task
    case Refresh(stored) => NamesKey(stored, key)
    case NativeAnswer(_) => true
    case NativeSnapshot(_, stored) => NamesKey(stored, key)
    case Alarm(stored) => NamesKey(stored, key)
    case Restart => false
  }

  predicate AllKeepKey(turns: seq<Turn>, key: string) {
    forall i :: 0 <= i < |turns| ==> KeepsKey(turns[i].task, key)
  }

  lemma PolicyKeepsKey(w: Worker, stored: Option<Managed>, s: Setting, key: string)
    requires w.trusted == Some(key) && NamesKey(stored, key)
    ensures RefreshSpec(w, stored, s).0.trusted == Some(key)
  {
    hide ActivateSpec, ParseManagedSnapshot;
    if stored.Some? { PolicyKeyTakenOver(w, stored.value, s); }
  }

  lemma TaskKeepsKey(w: Worker, task: Task, s: Setting, key: string)
    requires w.trusted == Some(key) && KeepsKey(task, key)
    ensures TaskSpec(w, task, s).trusted == Some(key)
  {
    hide ActivateSpec, RefreshSpec, RecompileSpec, NamesKey;
    match task
    case Refresh(stored) => PolicyKeepsKey(w, stored, s, key);
    case NativeAnswer(m) => NativeNeedsTrust(w, m, s);
    case NativeSnapshot(m, stored) =>
      NativeNeedsTrust(w, m, s);
      PolicyKeepsKey(ActivateSpec(w, m, FromNative, s).0, stored, s, key);
    case Alarm(stored) =>
      PolicyKeepsKey(w, stored, s, key);
      if w.active.Some? { RecompileMeans(w, w.active.value.rules, s); }
    case Restart =>
  }

  lemma {:induction false} RunKeepsKey(w: Worker, turns: seq<Turn>, key: string)
    requires w.trusted == Some(key) && AllKeepKey(turns, key)
    ensures RunTasks(w, turns).trusted == Some(key)
    decreases |turns|
  {
    hide TaskSpec, KeepsKey;
    if turns != [] {
      TaskKeepsKey(w, turns[0].task, turns[0].setting, key);
      RunKeepsKey(TaskSpec(w, turns[0].task, turns[0].setting), turns[1..], key);
    }
  }

  /** Refreshing from a policy that parses and names a good key makes that key the trusted one, whatever becomes of its rules. */
  lemma RefreshTrusts(w: Worker, m: Managed, s: Setting)
    requires ParseManagedSnapshot(m).Some? && m.publicKey.Some? && s.goodKey(m.publicKey.value)
    ensures TaskSpec(w, Refresh(Some(m)), s).trusted == m.publicKey
  {
    hide ActivateSpec, ParseManagedSnapshot, FailSafeSpec;
    PolicyKeyTakenOver(w, m, s);
  }

  /** The worker's life: anything, then a refresh from the policy, then anything that keeps the key. */
  function Life(turns: seq<Turn>, policy: Managed, s: Setting, more: seq<Turn>): seq<Turn> {
    turns + ([Turn(Refresh(Some(policy)), s)] + more)
  }

  lemma LifeTrusts(w: Worker, turns: seq<Turn>, policy: Managed, s: Setting, more: seq<Turn>, key: string)
    requires ParseManagedSnapshot(policy).Some? && policy.publicKey == Some(key) && s.goodKey(key)
    requires AllKeepKey(more, key)
    ensures RunTasks(w, Life(turns, policy, s, more)).trusted == Some(key)
  {
    hide TaskSpec, RunTasks, ParseManagedSnapshot, AllKeepKey;
    var before := RunTasks(w, turns);
    var refresh := Turn(Refresh(Some(policy)), s);
    RunAppend(w, turns, [refresh] + more);
    RunAppend(before, [refresh], more);
    RunOne(before, refresh);
    RefreshTrusts(before, policy, s);
    RunKeepsKey(RunTasks(before, [refresh]), more, key);
  }

  // ---- From the rule files to the filter ----

  /** The message is in a policy of a configured browser. */
  predicate LeftInPolicy(c: Config, files: Files, m: Managed) {
    || (c.chrome && files.chrome == Some(m))
    || (c.firefox && files.firefox.Some? && files.firefox.value.entry == Some(m))
  }

  /** A policy written by a successful publication names the configured key. */
  lemma PolicyNamesKey(c: Config, d: State, base: RuleSet, f: Faults, policy: Managed)
    requires PublishSpec(c, d, base, f).1.Published? && LeftInPolicy(c, PublishSpec(c, d, base, f).0.files, policy)
    ensures policy.publicKey == c.publicKey
  {
    hide PublishSpec, RulesText, RevisionOf, SnapshotJson;
    PublishSucceeds(c, d, base, f, Merge(base, Loaded(d.files)), d.files.counter + 1);
  }

  /**
   * From the rule files to the filter, by way of the queue. A worker starts, with or without a trusted key, processes any
   * daemon messages and refreshes from the policy that some successful publication left. From then on the live message of a
   * successful publication leaves the merged rules of that publication active, and installed unless they were active before,
   * provided its snapshot leaves room for its wrapper and nothing newer was delivered, the time zones are known and the
   * browser's calls work.
   */
  lemma PublicationReachesFilter(c: Config, d1: State, base1: RuleSet, f1: Faults, policy: Managed,
                                 d: State, base: RuleSet, f: Faults, effective: RuleSet, generation: nat,
                                 w: Worker, turns: seq<Turn>, s1: Setting, more: seq<Turn>, s: Setting)
    requires c.publicKey == Some(c.signingKey) && s1.goodKey(c.signingKey) && HexOk(c.hex)
    requires PublishSpec(c, d1, base1, f1).1.Published? && LeftInPolicy(c, PublishSpec(c, d1, base1, f1).0.files, policy)
    requires ParseManagedSnapshot(policy).Some? && AllKeepKey(more, c.signingKey)
    requires Traceable(d) && PublishSpec(c, d, base, f).1.Published?
    requires effective == Merge(base, Loaded(d.files)) && generation == d.files.counter + 1
    requires generation <= MAX_SAFE_INTEGER && Utf8Length(RulesText(Normalized(effective))) <= ManagedData.MAX_SNAPSHOT_BYTES - 139
    requires w.active.None? && w.floor == 0
    requires GenuineTurns(Life(turns, policy, s1, more), PublishSpec(c, d, base, f).0.issued)
    requires KnowsZones(s.clock, effective) && InstallWorks(s.install)
    ensures var live := PublishSpec(c, d, base, f).0.files.live;
            && live.Some?
            && var after := RunTasks(w, Life(turns, policy, s1, more) + [Turn(NativeAnswer(live.value), s)]);
               var before := RunTasks(w, Life(turns, policy, s1, more)).active;
               && after.active.Some? && after.active.value.rules == Normalized(effective)
               && ((before.Some? && before.value.rules == Normalized(effective)) || InstalledAt(after, s))
  {
    hide PublishSpec, RunTasks, ActivateSpec, InstalledAt, Acceptable, AlreadyKnown, Installable, Utf8Length, RulesText, Traceable, Merge, KnowsZones, ParseManagedSnapshot,
         GenuineTurns, Life, AllKeepKey, LeftInPolicy, InstallWorks;
    PolicyNamesKey(c, d1, base1, f1, policy);
    LifeTrusts(w, turns, policy, s1, more, c.signingKey);
    var life := Life(turns, policy, s1, more);
    LiveMessageActivates(c, d, base, f, effective, generation, w, life, s);
    var last := Turn(NativeAnswer(PublishSpec(c, d, base, f).0.files.live.value), s);
    RunAppend(w, life, [last]);
    RunOne(RunTasks(w, life), last);
    DeliveryExactly(RunTasks(w, life), PublishSpec(c, d, base, f).0.files.live.value, FromNative, s);
  }

  /**
   * What a success leaves in the live file is a signed text from which a reader of JSON gets the next generation and the base
   * rules merged with the stored additions; the policies hold the same text.
   */
  lemma PublishedTextReads(c: Config, d: State, base: RuleSet, f: Faults)
    requires PublishSpec(c, d, base, f).1.Published?
    ensures var files := PublishSpec(c, d, base, f).0.files;
            && files.live.Some? && files.live.value.signature == Some(Signed(c.signingKey, files.live.value.text))
            && (c.chrome ==> files.chrome.Some? && files.chrome.value.text == files.live.value.text)
            && (c.firefox ==> files.firefox.Some? && files.firefox.value.entry.Some? && files.firefox.value.entry.value.text == files.live.value.text)
            && ReadText(files.live.value.text).Some?
            && SnapshotFrom(ReadText(files.live.value.text).value) ==
               Some(Spelled(2, d.files.counter + 1, c.hex(files.live.value.revision), Merge(base, Loaded(d.files)).(schema := None)))
  {
    hide PublishSpec, MakeManagedSpec, Merge, ReadText, SnapshotFrom, Mergeable, RevisionOf;
    PublishHolds(c, d, base, f);
    MessageReads(Merge(base, Loaded(d.files)), d.files.counter + 1, c.publicKey, c.hex);
  }

  /** A policy left by an earlier publication is one of the daemon messages of every later one. */
  lemma LeftPolicyStaysGenuine(c: Config, d: State, base: RuleSet, f: Faults, policy: Managed, calls: seq<Call>,
                               c2: Config, base2: RuleSet, f2: Faults)
    requires Traceable(d) && PublishSpec(c, d, base, f).1.Published?
    requires LeftInPolicy(c, PublishSpec(c, d, base, f).0.files, policy)
    ensures var later := Run(PublishSpec(c, d, base, f).0, calls);
            Genuine(policy, later.issued) && Genuine(policy, PublishSpec(c2, later, base2, f2).0.issued)
  {
    hide PublishSpec, Run;
    PublishTraceable(c, d, base, f);
    GenerationsNeverReused(PublishSpec(c, d, base, f).0, calls);
    PublishTraceable(c2, Run(PublishSpec(c, d, base, f).0, calls), base2, f2);
  }
}
