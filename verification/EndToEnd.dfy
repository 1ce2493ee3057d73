/** Daemon and extension together: deliveries in any order, repeated or late. */
module EndToEnd {
  import opened Basics
  import opened CanonicalJson
  import opened MatchPattern
  import opened Rules
  import opened Evaluation
  import opened Dnr
  import opened Compiler
  import opened Validation
  import opened UserDomains
  import opened ManagedData
  import opened Publication
  import opened PublicationSafety
  import opened PublicationRuns
  import opened WorkerSteps
  import opened WorkerSafety

  // ---- Deliveries of issued snapshots ----

  predicate GenuineTask(task: Task, issued: set<Snapshot>) {
    match task
    case Refresh(stored) => GenuineIn(stored, issued)
    case NativeAnswer(m) => Genuine(m, issued)
    case NativeSnapshot(m, stored) => Genuine(m, issued) && GenuineIn(stored, issued)
    case Alarm(stored) => GenuineIn(stored, issued)
    case Restart => true
  }

  predicate GenuineTurns(turns: seq<Turn>, issued: set<Snapshot>) {
    forall i :: 0 <= i < |turns| ==> GenuineTask(turns[i].task, issued)
  }

  /** No issued snapshot is newer. */
  predicate Bounded(issued: set<Snapshot>, newest: int) {
    newest >= 0 && forall t :: t in issued ==> t.generation <= newest
  }

  /** The worker has only seen issued snapshots. */
  predicate Informed(w: Worker, issued: set<Snapshot>, newest: int) {
    (w.active.Some? ==> w.active.value in issued) && w.floor <= newest
  }

  lemma GenuineParses(m: Managed, issued: set<Snapshot>)
    requires Genuine(m, issued) && ParseManagedSnapshot(m).Some?
    ensures ParseManagedSnapshot(m).value == m.content.value && m.content.value in issued
  {
  }

  lemma ActivateInformed(w: Worker, m: Managed, source: Source, s: Setting, issued: set<Snapshot>, newest: int)
    requires Informed(w, issued, newest) && Genuine(m, issued) && Bounded(issued, newest)
    ensures Informed(ActivateSpec(w, m, source, s).0, issued, newest)
  {
    hide RecompileSpec;
    var (admitted, t) := AdmitSpec(w, m, source, s.goodKey);
    if t.Some? {
      GenuineParses(m, issued);
      RecompileMeans(admitted, t.value.rules, s);
    }
  }

  lemma TaskInformed(w: Worker, task: Task, s: Setting, issued: set<Snapshot>, newest: int)
    requires Informed(w, issued, newest) && GenuineTask(task, issued) && Bounded(issued, newest) && newest >= 0
    ensures Informed(TaskSpec(w, task, s), issued, newest)
  {
    hide ActivateSpec, RecompileSpec, Genuine, Bounded;
    match task
    case Refresh(stored) => if stored.Some? { ActivateInformed(w, stored.value, FromPolicy, s, issued, newest); }
    case NativeAnswer(m) => ActivateInformed(w, m, FromNative, s, issued, newest);
    case NativeSnapshot(m, stored) =>
      ActivateInformed(w, m, FromNative, s, issued, newest);
      var after := ActivateSpec(w, m, FromNative, s).0;
      if stored.Some? { ActivateInformed(after, stored.value, FromPolicy, s, issued, newest); }
    case Alarm(stored) =>
      if w.active.Some? {
        RecompileMeans(w, w.active.value.rules, s);
      } else if stored.Some? {
        ActivateInformed(w, stored.value, FromPolicy, s, issued, newest);
      }
    case Restart =>
  }

  lemma {:induction false} RunInformed(w: Worker, turns: seq<Turn>, issued: set<Snapshot>, newest: int)
    requires Informed(w, issued, newest) && GenuineTurns(turns, issued) && Bounded(issued, newest) && newest >= 0
    ensures Informed(RunTasks(w, turns), issued, newest)
    decreases |turns|
  {
    hide TaskSpec, Informed;
    if turns != [] {
      assert GenuineTask(turns[0].task, issued);
      TaskInformed(w, turns[0].task, turns[0].setting, issued, newest);
      forall i | 0 <= i < |turns| - 1 ensures GenuineTask(turns[1..][i].task, issued) { assert turns[1..][i] == turns[i + 1]; }
      RunInformed(TaskSpec(w, turns[0].task, turns[0].setting), turns[1..], issued, newest);
    }
  }

  lemma FreshInformed(w: Worker, issued: set<Snapshot>, newest: int)
    requires w.active.None? && w.floor == 0 && Bounded(issued, newest)
    ensures Informed(w, issued, newest)
  {
  }

  /**
   * Whatever the daemon did before and after, and in whatever order its messages arrive, repeated or late, the extension
   * never finds one generation with two rule sets.
   */
  lemma NeverReusedRejection(d: State, calls: seq<Call>, w: Worker, turns: seq<Turn>, m: Managed)
    requires Traceable(d) && w.active.None? && w.floor == 0
    requires GenuineTurns(turns, Run(d, calls).issued) && Genuine(m, Run(d, calls).issued)
    requires ParseManagedSnapshot(m).Some?
    ensures !Reused(RunTasks(w, turns), ParseManagedSnapshot(m).value)
  {
    hide RunTasks, Run;
    var last := Run(d, calls);
    GenerationsNeverReused(d, calls);
    FreshInformed(w, last.issued, last.files.counter);
    RunInformed(w, turns, last.issued, last.files.counter);
    GenuineParses(m, last.issued);
  }

  // ---- The newest snapshot ----

  /** A message of the newest generation passes every generation check. */
  lemma NewestAdmitted(w: Worker, m: Managed, source: Source, goodKey: string -> bool, issued: set<Snapshot>, newest: int)
    requires UniqueGenerations(issued) && Bounded(issued, newest) && Informed(w, issued, newest)
    requires Genuine(m, issued) && m.generation == newest && ParseManagedSnapshot(m).Some?
    requires source == FromNative ==> LiveVerified(m, w.trusted)
    requires source == FromPolicy && m.publicKey.Some? ==> goodKey(m.publicKey.value)
    ensures AdmitSpec(w, m, source, goodKey).1 == m.content
  {
    GenuineParses(m, issued);
    if w.active.Some? { assert w.active.value.generation <= newest; }
  }

  /**
   * A worker that has seen any daemon messages in any order and then processes the newest published one without an
   * error has that message's rules active; the only errors left are those of compiling and of the browser's calls.
   */
  lemma NewestBecomesActive(w: Worker, turns: seq<Turn>, m: Managed, source: Source, s: Setting, issued: set<Snapshot>, newest: int)
    requires w.active.None? && w.floor == 0 && GenuineTurns(turns, issued)
    requires UniqueGenerations(issued) && Bounded(issued, newest) && (forall t :: t in issued ==> Authentic(t))
    requires Genuine(m, issued) && m.generation == newest && ParseManagedSnapshot(m).Some?
    requires source == FromNative ==> LiveVerified(m, RunTasks(w, turns).trusted)
    requires source == FromPolicy && m.publicKey.Some? ==> s.goodKey(m.publicKey.value)
    ensures var before := RunTasks(w, turns);
            var (after, ok) := ActivateSpec(before, m, source, s);
            var rules := m.content.value.rules;
            && (ok ==> after.active.Some? && after.active.value.rules == rules)
            && (!ok ==> !AlreadyActive(before, m.content.value) && !RecompileSpec(AdmitSpec(before, m, source, s.goodKey).0, rules, s).1)
  {
    hide RunTasks, RecompileSpec, AdmitSpec;
    var before := RunTasks(w, turns);
    FreshInformed(w, issued, newest);
    RunInformed(w, turns, issued, newest);
    NewestAdmitted(before, m, source, s.goodKey, issued, newest);
    AdmitMeans(before, m, source, s.goodKey);
    var t := m.content.value;
    if AlreadyActive(before, t) {
      assert Authentic(t) && Authentic(before.active.value);
      RevisionIdentifiesRules(t.rules, before.active.value.rules);
    }
    RecompileMeans(AdmitSpec(before, m, source, s.goodKey).0, t.rules, s);
  }

  /** A successful publication puts the newest generation into its files. */
  lemma PublishedIsNewest(c: Config, d: State, base: RuleSet, f: Faults)
    requires Traceable(d) && PublishSpec(c, d, base, f).1.Published?
    ensures var after := PublishSpec(c, d, base, f).0;
            && Traceable(after) && after.files.live.Some? && after.memory.managed == after.files.live
            && Genuine(after.files.live.value, after.issued)
            && after.files.live.value.generation == after.files.counter && Bounded(after.issued, after.files.counter)
  {
    hide PublishSpec, Made;
    PublishTraceable(c, d, base, f);
    PublishHolds(c, d, base, f);
    MadeFresh(c, d, base, Merge(base, Loaded(d.files)), d.files.counter + 1);
  }

  /** The browser calls of an installation work. */
  predicate InstallWorks(f: InstallFaults) {
    !f.regex && !f.limit && !f.list && !f.update && !f.toggle
  }

  lemma InstallSucceeds(w: Worker, rules: RuleSet, s: Setting)
    requires CompileSpec(rules, s.clock, s.page).Ok? && InstallWorks(s.install)
    ensures RecompileSpec(w, rules, s).1
  {
    hide CompileSpec;
  }

  lemma LiveParses(c: Config, rules: RuleSet, generation: int, m: Managed)
    requires HexOk(c.hex) && ValidRules(rules, c.lib) && MakeManagedSpec(rules, generation, c.publicKey, c.hex).Ok?
    requires generation <= MAX_SAFE_INTEGER && Utf8Length(RulesText(Normalized(rules))) <= ManagedData.MAX_SNAPSHOT_BYTES - 139
    requires m == SignedManaged(c, Wrapped(rules, generation, c.publicKey, c.hex))
    ensures ParseManagedSnapshot(m) == Some(SnapshotOf(rules, generation))
  {
    hide Utf8Length, RulesText, Text;
    AcceptanceTransfers(rules, c.lib, generation, c.publicKey, c.hex);
    MadeIsWrapped(rules, generation, c.publicKey, c.hex);
    SignatureIgnored(Wrapped(rules, generation, c.publicKey, c.hex), m.signature);
  }

  lemma SignatureIgnored(m: Managed, signature: Option<Signature>)
    ensures ParseManagedSnapshot(m.(signature := signature)) == ParseManagedSnapshot(m)
  {
  }

  /**
   * After a successful publication, a worker that trusts the daemon's key, whatever daemon messages it saw before, accepts
   * the live message and has the merged rules active, provided the snapshot leaves room for its wrapper, the time zones are
   * known and the browser's calls work.
   */
  lemma LiveMessageActivates(c: Config, d: State, base: RuleSet, f: Faults, effective: RuleSet, generation: nat,
                             w: Worker, turns: seq<Turn>, s: Setting)
    requires Traceable(d) && PublishSpec(c, d, base, f).1.Published? && HexOk(c.hex)
    requires effective == Merge(base, Loaded(d.files)) && generation == d.files.counter + 1
    requires generation <= MAX_SAFE_INTEGER && Utf8Length(RulesText(Normalized(effective))) <= ManagedData.MAX_SNAPSHOT_BYTES - 139
    requires w.active.None? && w.floor == 0 && GenuineTurns(turns, PublishSpec(c, d, base, f).0.issued)
    requires RunTasks(w, turns).trusted == Some(c.signingKey) && (c.publicKey.Some? ==> c.publicKey == Some(c.signingKey))
    requires KnowsZones(s.clock, effective) && InstallWorks(s.install)
    ensures var live := PublishSpec(c, d, base, f).0.files.live;
            && live.Some?
            && var (after, ok) := ActivateSpec(RunTasks(w, turns), live.value, FromNative, s);
               ok && after.active.Some? && after.active.value.rules == Normalized(effective)
  {
    hide PublishSpec, RunTasks, RecompileSpec, AdmitSpec, ActivateSpec, Made, Utf8Length, RulesText, Traceable, RevisionOf, Merge, CompileSpec,
         MakeManagedSpec, ValidRules, KnowsZones, ParseManagedSnapshot, Genuine, GenuineTurns, UniqueGenerations;
    PublishSucceeds(c, d, base, f, effective, generation);
    var after := PublishSpec(c, d, base, f).0;
    var m := SignedManaged(c, Wrapped(effective, generation, c.publicKey, c.hex));
    assert after.files.live == Some(m);
    PublishedIsNewest(c, d, base, f);
    LiveParses(c, effective, generation, m);
    IssuedFacts(after);
    NewestBecomesActive(w, turns, m, FromNative, s, after.issued, after.files.counter);
    PublishableCompiles(effective, c.lib, generation, c.publicKey, c.hex, s.clock, s.page);
    InstallSucceeds(AdmitSpec(RunTasks(w, turns), m, FromNative, s.goodKey).0, Normalized(effective), s);
  }

  lemma IssuedFacts(d: State)
    requires Traceable(d)
    ensures UniqueGenerations(d.issued) && forall t :: t in d.issued ==> Authentic(t)
  {
  }

  // ---- A sighting that is rolled back ----

  /** The browser policies hold the message. */
  predicate PolicyShows(files: Files, m: Managed) {
    files.chrome == Some(m) || (files.firefox.Some? && files.firefox.value.entry == Some(m))
  }

  /** Exactly when a worker that has seen only issued snapshots admits a policy message: not older than what is active. */
  lemma PolicyAdmittedExactly(w: Worker, m: Managed, goodKey: string -> bool, issued: set<Snapshot>, newest: int)
    requires UniqueGenerations(issued) && Informed(w, issued, newest) && Genuine(m, issued)
    requires ParseManagedSnapshot(m).Some? && (m.publicKey.Some? ==> goodKey(m.publicKey.value))
    ensures AdmitSpec(w, m, FromPolicy, goodKey).1.Some? <==>
            w.active.None? || w.active.value.generation <= m.generation
  {
    hide ParseManagedSnapshot;
    GenuineParses(m, issued);
  }

  lemma FailureKeepsTraceable(c: Config, d: State, base: RuleSet, f: Faults)
    requires Traceable(d) && PublishSpec(c, d, base, f).1.Failed? && PublishSpec(c, d, base, f).1.kind != RollbackIncomplete
    ensures var after := PublishSpec(c, d, base, f).0;
            Traceable(after) && d.issued <= after.issued && SameTargets(after.files, d.files)
  {
    hide PublishSpec, Traceable;
    PublishTraceable(c, d, base, f);
    PublishFails(c, d, base, f);
  }

  /**
   * After any failed publication that was rolled back, the policy message that was there before is still there, and a
   * worker admits it exactly when it has nothing newer active: a browser that read the rolled-back snapshot meanwhile
   * refuses it, every other one admits it.
   */
  lemma RestoredPolicyAdmittedExactly(c: Config, d: State, base: RuleSet, f: Faults, prior: Managed, w: Worker,
                                      goodKey: string -> bool, newest: int)
    requires Traceable(d) && PublishSpec(c, d, base, f).1.Failed? && PublishSpec(c, d, base, f).1.kind != RollbackIncomplete
    requires PolicyShows(d.files, prior) && ParseManagedSnapshot(prior).Some?
    requires prior.publicKey.Some? ==> goodKey(prior.publicKey.value)
    requires Informed(w, PublishSpec(c, d, base, f).0.issued, newest)
    ensures PolicyShows(PublishSpec(c, d, base, f).0.files, prior)
    ensures AdmitSpec(w, prior, FromPolicy, goodKey).1.Some? <==>
            w.active.None? || w.active.value.generation <= prior.generation
  {
    hide PublishSpec, ParseManagedSnapshot, AdmitSpec, Informed;
    FailureKeepsTraceable(c, d, base, f);
    var after := PublishSpec(c, d, base, f).0;
    assert Genuine(prior, after.issued);
    PolicyAdmittedExactly(w, prior, goodKey, after.issued, newest);
  }

  /** The files between the policy writes of a publication and any restore. */
  function Between(c: Config, d: State, m: Managed, f: Faults): Files {
    PoliciesWritten(c, d.files.(counter := d.files.counter + 1), m, f)
  }

  /** The publication gets as far as writing the policies, and some policy then holds the new message. */
  predicate Sighted(c: Config, d: State, base: RuleSet, f: Faults) {
    && !f.load && Mergeable(c, d, base) && Made(c, d, base).Ok?
    && f.counter.Succeeds? && f.capture.None? && f.captureAgain.None?
    && PolicyShows(Between(c, d, Made(c, d, base).value, f), Made(c, d, base).value)
  }

  /**
   * A worker with nothing active that reads the new message from a policy and processes it without an error refuses the
   * policy that the rollback then restores, and stays as it is.
   */
  lemma RolledBackSightingIsRefused(c: Config, d: State, base: RuleSet, f: Faults, prior: Managed, w: Worker, s: Setting, later: Setting)
    requires Traceable(d) && Sighted(c, d, base, f) && PolicyShows(d.files, prior)
    requires PublishSpec(c, d, base, f).1.Failed? && PublishSpec(c, d, base, f).1.kind != RollbackIncomplete
    requires w.active.None? && RefreshSpec(w, Some(Made(c, d, base).value), s).1
    ensures var seen := RefreshSpec(w, Some(Made(c, d, base).value), s).0;
            && PolicyShows(PublishSpec(c, d, base, f).0.files, prior)
            && seen.active == Made(c, d, base).value.content
            && var (after, ok) := RefreshSpec(seen, Some(prior), later);
               !ok && after.active == seen.active && after.dnr == seen.dnr
  {
    hide PublishSpec, Made, Mergeable, Sighted, ActivateSpec, ParseManagedSnapshot;
    var m := NewMessage(c, d, base, f);
    FailureKeepsTraceable(c, d, base, f);
    assert Genuine(prior, d.issued) && prior.generation < m.generation;
    FirstActivation(w, m, s);
    StaleIsRefused(ActivateSpec(w, m, FromPolicy, s).0, prior, m.content.value, d.issued, later);
  }

  lemma NewMessage(c: Config, d: State, base: RuleSet, f: Faults) returns (m: Managed)
    requires Sighted(c, d, base, f)
    ensures Made(c, d, base).Ok? && m == Made(c, d, base).value && m.content.Some?
    ensures m.generation == m.content.value.generation == d.files.counter + 1
  {
    hide Made, Mergeable, PolicyShows, Authentic;
    m := Made(c, d, base).value;
    MadeFresh(c, d, base, Merge(base, Loaded(d.files)), d.files.counter + 1);
  }

  /** With nothing active, a message processed without an error becomes active. */
  lemma FirstActivation(w: Worker, m: Managed, s: Setting)
    requires w.active.None? && ActivateSpec(w, m, FromPolicy, s).1
    ensures ActivateSpec(w, m, FromPolicy, s).0.active == m.content && m.content.Some?
  {
    hide ActivateSpec, ParseManagedSnapshot;
    FirstActivates(w, m, FromPolicy, s);
    ParsedIsContent(m);
  }

  lemma ParsedIsContent(m: Managed)
    ensures ParseManagedSnapshot(m).Some? ==> ParseManagedSnapshot(m) == m.content
  {
  }

  lemma StaleIsRefused(w: Worker, prior: Managed, t: Snapshot, issued: set<Snapshot>, s: Setting)
    requires Genuine(prior, issued) && w.active == Some(t) && prior.generation < t.generation
    ensures var (after, ok) := ActivateSpec(w, prior, FromPolicy, s);
            !ok && after.active == w.active && after.dnr == w.dnr
  {
    hide RecompileSpec;
    if ParseManagedSnapshot(prior).Some? { GenuineParses(prior, issued); }
  }

  /**
   * Recovery: whatever the daemon does afterwards, the message of its next successful publication passes all checks of
   * every worker that has seen only daemon messages; `RefusingWorkerRecovers` applies it to the refusing one.
   */
  lemma NextSuccessIsAdmitted(d: State, calls: seq<Call>, c: Config, base: RuleSet, f: Faults, w: Worker, goodKey: string -> bool)
    requires Traceable(d) && PublishSpec(c, Run(d, calls), base, f).1.Published?
    requires Informed(w, Run(d, calls).issued, Run(d, calls).files.counter)
    requires var m := PublishSpec(c, Run(d, calls), base, f).0.memory.managed;
             m.Some? ==> ParseManagedSnapshot(m.value).Some? && (m.value.publicKey.Some? ==> goodKey(m.value.publicKey.value))
    ensures var m := PublishSpec(c, Run(d, calls), base, f).0.memory.managed;
            m.Some? && AdmitSpec(w, m.value, FromPolicy, goodKey).1 == m.value.content
  {
    hide PublishSpec, Run, Traceable, ParseManagedSnapshot, AdmitSpec;
    GenerationsNeverReused(d, calls);
    var before := Run(d, calls);
    PublishedIsNewest(c, before, base, f);
    PublishTraceable(c, before, base, f);
    var after := PublishSpec(c, before, base, f).0;
    IssuedFacts(after);
    var m := after.memory.managed.value;
    InformedLonger(w, before.issued, before.files.counter, after.issued, after.files.counter);
    NewestAdmitted(w, m, FromPolicy, goodKey, after.issued, after.files.counter);
  }

  lemma InformedLonger(w: Worker, issued: set<Snapshot>, newest: int, more: set<Snapshot>, later: int)
    requires Informed(w, issued, newest) && issued <= more && newest <= later
    ensures Informed(w, more, later)
  {
  }

  lemma SightedIsIssued(c: Config, d: State, base: RuleSet, f: Faults)
    requires Traceable(d) && Sighted(c, d, base, f)
    ensures Traceable(PublishSpec(c, d, base, f).0) && d.issued <= PublishSpec(c, d, base, f).0.issued
    ensures Made(c, d, base).Ok? && Genuine(Made(c, d, base).value, PublishSpec(c, d, base, f).0.issued)
  {
    hide Made, Mergeable, PolicyShows, Authentic, TargetsSpec, RevisionOf;
    MadeFresh(c, d, base, Merge(base, Loaded(d.files)), d.files.counter + 1);
    PublishTraceable(c, d, base, f);
    assert PublishSpec(c, d, base, f).0.issued == d.issued + Built(Made(c, d, base));
  }

  /** The worker of `RolledBackSightingIsRefused`: it reads the new message, then the restored one, then whatever comes. */
  function AfterSighting(m: Managed, prior: Managed, s: Setting, later: Setting, more: seq<Turn>): seq<Turn> {
    [Turn(Refresh(Some(m)), s), Turn(Refresh(Some(prior)), later)] + more
  }

  lemma SightingTurnsGenuine(m: Managed, prior: Managed, s: Setting, later: Setting, more: seq<Turn>, issued: set<Snapshot>, all: set<Snapshot>)
    requires Genuine(m, issued) && Genuine(prior, issued) && issued <= all && GenuineTurns(more, all)
    ensures GenuineTurns(AfterSighting(m, prior, s, later, more), all)
  {
    var turns := AfterSighting(m, prior, s, later, more);
    forall i | 0 <= i < |turns| ensures GenuineTask(turns[i].task, all) {
      if i >= 2 { assert turns[i] == more[i - 2]; }
    }
  }

  /**
   * The refusing worker recovers: it read a snapshot whose publication was rolled back and refused the restored message;
   * whatever it and the daemon do then, it admits the message of the next successful publication.
   */
  lemma RefusingWorkerRecovers(c: Config, d: State, base: RuleSet, f: Faults, prior: Managed, w: Worker, s: Setting, later: Setting,
                               more: seq<Turn>, calls: seq<Call>, c2: Config, base2: RuleSet, f2: Faults, goodKey: string -> bool)
    requires Traceable(d) && Sighted(c, d, base, f) && PolicyShows(d.files, prior)
    requires w.active.None? && w.floor == 0
    requires var rolledBack := PublishSpec(c, d, base, f).0;
             GenuineTurns(more, Run(rolledBack, calls).issued) && PublishSpec(c2, Run(rolledBack, calls), base2, f2).1.Published?
    requires var m := PublishSpec(c2, Run(PublishSpec(c, d, base, f).0, calls), base2, f2).0.memory.managed;
             m.Some? ==> ParseManagedSnapshot(m.value).Some? && (m.value.publicKey.Some? ==> goodKey(m.value.publicKey.value))
    ensures var m := PublishSpec(c2, Run(PublishSpec(c, d, base, f).0, calls), base2, f2).0.memory.managed;
            var worker := RunTasks(w, AfterSighting(Made(c, d, base).value, prior, s, later, more));
            m.Some? && AdmitSpec(worker, m.value, FromPolicy, goodKey).1 == m.value.content
  {
    hide PublishSpec, Run, Traceable, ParseManagedSnapshot, AdmitSpec, Made, Sighted, RunTasks, AfterSighting, GenuineTurns, Informed;
    SightedIsIssued(c, d, base, f);
    var rolledBack := PublishSpec(c, d, base, f).0;
    var turns := AfterSighting(Made(c, d, base).value, prior, s, later, more);
    ShownIsGenuine(d, prior, rolledBack.issued);
    GenerationsNeverReused(rolledBack, calls);
    var before := Run(rolledBack, calls);
    SightingTurnsGenuine(Made(c, d, base).value, prior, s, later, more, rolledBack.issued, before.issued);
    TraceableBounded(before);
    FreshInformed(w, before.issued, before.files.counter);
    RunInformed(w, turns, before.issued, before.files.counter);
    NextSuccessIsAdmitted(rolledBack, calls, c2, base2, f2, RunTasks(w, turns), goodKey);
  }

  lemma ShownIsGenuine(d: State, prior: Managed, all: set<Snapshot>)
    requires Traceable(d) && PolicyShows(d.files, prior) && d.issued <= all
    ensures Genuine(prior, all)
  {
  }

  lemma TraceableBounded(d: State)
    requires Traceable(d)
    ensures Bounded(d.issued, d.files.counter)
  {
  }

  /** Only the live file cannot be replaced; everything else works. */
  const LIVE_FAILS := Faults(
    false, Succeeds, None, None, Succeeds, Succeeds, Succeeds, Succeeds, false, FailsBefore, Succeeds, Succeeds, Succeeds, None)

  /** Such sightings happen: a publishable rule set, a live file that cannot be written, and any configured browser. */
  lemma SightingHappens(c: Config, d: State, base: RuleSet)
    requires Mergeable(c, d, base) && Made(c, d, base).Ok?
    requires (c.chrome || c.firefox) && (c.firefox ==> d.files.firefox.Some?)
    ensures Sighted(c, d, base, LIVE_FAILS) && PublishSpec(c, d, base, LIVE_FAILS).1 == Failed(OtherError)
  {
    hide Made, Mergeable, RevisionOf;
    LiveFailureRollsBack(c, d, base, RevisionOf(base), Made(c, d, base));
  }

  lemma LiveFailureRollsBack(c: Config, d: State, base: RuleSet, revision: Revision, made: Result<Managed, PublishError>)
    requires (c.chrome || c.firefox) && (c.firefox ==> d.files.firefox.Some?) && made.Ok?
    ensures AttemptSpec(c, d, base, revision, made, LIVE_FAILS).1 == Failed(OtherError)
    ensures PolicyShows(Between(c, d, made.value, LIVE_FAILS), made.value)
  {
  }

  // ---- Children tighten the filter itself ----

  lemma ReachedTightened(base: RuleSet, merged: RuleSet, url: Url)
    requires TightenedRules(base, merged)
    ensures TightenedRules(ReachedRules(base, url), ReachedRules(merged, url))
  {
    forall i | 0 <= i < |base.blocks|
      ensures Tightened(ReachedBlock(base.blocks[i], url), ReachedBlock(merged.blocks[i], url))
    {
      assert Tightened(base.blocks[i], merged.blocks[i]);
    }
  }

  /** Whatever the filter compiled from the base rules blocks, the one compiled from the merged rules blocks at that instant. */
  lemma AdditionsTightenFilter(base: RuleSet, users: UserState, clock: Clock, page: Option<string>, req: Request, rx: RegexEngine)
    requires EngineFaithful(rx) && WellFormedUrl(req.url) && !req.resource.Other?
    requires CompileSpec(base, clock, page).Ok? && CompileSpec(Merge(base, users), clock, page).Ok?
    requires Blocked(Installed(CompileSpec(base, clock, page).value), req, rx)
    ensures Blocked(Installed(CompileSpec(Merge(base, users), clock, page).value), req, rx)
  {
    hide CompileSpec, Blocked, Verdict, Merge, EngineFaithful, ReachedRules, TightenedRules;
    var merged := Merge(base, users);
    CompilationExact(base, clock, page, req, rx);
    CompilationExact(merged, clock, page, req, rx);
    MergeTightensBlocks(base, users);
    ReachedTightened(base, merged, req.url);
    TighteningKeepsBlock(ReachedRules(base, req.url), ReachedRules(merged, req.url), clock, req, rx);
  }
}
