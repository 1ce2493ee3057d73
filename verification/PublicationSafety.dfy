/** What publishing guarantees: all or nothing, and one rule set per generation over every run. */
module PublicationSafety {
  import opened Basics
  import opened Rules
  import opened Validation
  import opened UserDomains
  import opened ManagedData
  import opened Publication

  // ---- One publication: all or nothing ----

  /** The two browser policies and the live file. */
  predicate SameTargets(a: Files, b: Files) {
    a.chrome == b.chrome && a.firefox == b.firefox && a.live == b.live
  }

  predicate SameStore(a: Files, b: Files) {
    a.stored == b.stored && a.version == b.version
  }

  /** Every configured target holds the snapshot, the live file with its signature; the rest is untouched. */
  predicate Holds(c: Config, before: Files, after: Files, m: Managed) {
    && after.chrome == (if c.chrome then Some(m) else before.chrome)
    && after.firefox == (if c.firefox && before.firefox.Some? then Some(before.firefox.value.(entry := Some(m))) else before.firefox)
    && (c.firefox ==> before.firefox.Some?)
    && after.live == Some(SignedManaged(c, m))
  }

  /** Whatever happens, a target holds what it held before or the one snapshot being published. */
  predicate OldOrNew(c: Config, before: Files, made: Result<Managed, PublishError>, after: Files) {
    && (after.chrome == before.chrome || (made.Ok? && after.chrome == Some(made.value)))
    && (after.firefox == before.firefox
        || (made.Ok? && before.firefox.Some? && after.firefox == Some(before.firefox.value.(entry := Some(made.value)))))
    && (after.live == before.live || (made.Ok? && after.live == Some(SignedManaged(c, made.value))))
  }

  lemma PoliciesMean(c: Config, files: Files, made: Result<Managed, PublishError>, f: Faults)
    ensures var (after, r) := PoliciesSpec(c, files, made, f);
            && after == files.(chrome := after.chrome, firefox := after.firefox)
            && (!c.chrome ==> after.chrome == files.chrome) && (!c.firefox ==> after.firefox == files.firefox)
            && OldOrNew(c, files, made, after)
            && (r.Ok? ==>
                && made == Ok(r.value)
                && Holds(c, files, after.(live := Some(SignedManaged(c, r.value))), r.value))
            && (r.Err? && (made.Err? || f.captureAgain.Some?) ==> after == files)
            && (r.Err? && !f.chromeUndo.FailsBefore? ==> after.chrome == files.chrome)
            && (r.Err? && !f.firefoxUndo.FailsBefore? ==> after.firefox == files.firefox)
  {
  }

  /** Rolling back: each target has its earlier content again unless restoring it failed before the replace. */
  lemma RollbackMeans(c: Config, files: Files, captured: Files, made: Result<Managed, PublishError>, f: Faults)
    requires files == captured.(chrome := files.chrome, firefox := files.firefox, live := files.live)
    requires !c.chrome ==> files.chrome == captured.chrome
    requires !c.firefox ==> files.firefox == captured.firefox
    requires OldOrNew(c, captured, made, files)
    ensures var after := RollbackFiles(c, files, captured, f);
            && OldOrNew(c, captured, made, after)
            && after == captured.(chrome := after.chrome, firefox := after.firefox, live := after.live)
            && (!f.chromeRestore.FailsBefore? ==> after.chrome == captured.chrome)
            && (!f.firefoxRestore.FailsBefore? ==> after.firefox == captured.firefox)
            && (!f.liveRestore.FailsBefore? ==> after.live == captured.live)
            && (RollbackWorks(c, f) ==> after == captured)
  {
  }

  /** What writing the targets guarantees. */
  predicate TargetsContract(c: Config, before: Files, made: Result<Managed, PublishError>, f: Faults, after: Files, outcome: Outcome) {
    && after == before.(chrome := after.chrome, firefox := after.firefox, live := after.live)
    && OldOrNew(c, before, made, after)
    && (outcome.Published? ==> made.Ok? && Holds(c, before, after, made.value))
    && (outcome.Failed? && outcome.kind != RollbackIncomplete ==> after == before)
    && (outcome.Failed? ==> RestoredUnless(f, before, after))
  }

  /** Each target has its earlier content unless restoring it failed before the replace. */
  predicate RestoredUnless(f: Faults, before: Files, after: Files) {
    && (!f.chromeRestore.FailsBefore? ==> after.chrome == before.chrome)
    && (!f.firefoxRestore.FailsBefore? ==> after.firefox == before.firefox)
    && (!f.liveRestore.FailsBefore? ==> after.live == before.live)
  }

  lemma TargetsMean(c: Config, files: Files, made: Result<Managed, PublishError>, f: Faults)
    ensures TargetsContract(c, files, made, f, TargetsSpec(c, files, made, f).0, TargetsSpec(c, files, made, f).1)
  {
    var (policies, r) := PoliciesSpec(c, files, made, f);
    PoliciesMean(c, files, made, f);
    match r
    case Err(kind) => RollbackMeans(c, policies, files, made, f);
    case Ok(m) =>
      if f.sign {
        RollbackMeans(c, policies, files, made, f);
      } else {
        RollbackMeans(c, policies.(live := Written(policies.live, Some(SignedManaged(c, m)), f.live)), files, made, f);
      }
  }

  predicate Quiet(f: Faults) { f.meanwhile.None? }

  function NewMemory(c: Config, s: State, base: RuleSet, revision: Revision, m: Managed, after: Files): Memory {
    Memory(Some(base), Some(SignedManaged(c, m)), Some(Loaded(s.files)), Some(revision),
           s.memory.serial + 1, StatSignature(after))
  }

  /** What one attempt guarantees once the rules have been merged and validated. */
  predicate AttemptContract(c: Config, s: State, base: RuleSet, revision: Revision, made: Result<Managed, PublishError>, f: Faults,
                            after: State, outcome: Outcome)
  {
    && s.files.counter <= after.files.counter <= s.files.counter + 1
    && (after.issued == s.issued
        || (after.issued == s.issued + Built(made) && after.files.counter == s.files.counter + 1))
    && after.rejected == s.rejected && OldOrNew(c, s.files, made, after.files)
    && (SameTargets(after.files, s.files) || after.issued == s.issued + Built(made))
    && (Quiet(f) ==> SameStore(after.files, s.files))
    && (outcome.Published? ==>
        && made.Ok? && Holds(c, s.files, after.files, made.value) && after.files.counter == s.files.counter + 1
        && after.issued == s.issued + Built(made) && after.memory == NewMemory(c, s, base, revision, made.value, after.files))
    && (outcome.Failed? ==> after.memory == s.memory && RestoredUnless(f, s.files, after.files))
    && (outcome.Failed? && outcome.kind != RollbackIncomplete ==> SameTargets(after.files, s.files))
  }

  lemma FinishMeans(c: Config, s: State, base: RuleSet, revision: Revision, made: Result<Managed, PublishError>, f: Faults,
                    targets: Files, outcome: Outcome)
    requires TargetsContract(c, s.files.(counter := s.files.counter + 1), made, f, targets, outcome)
    ensures var (after, result) := FinishSpec(c, s, base, revision, made, targets, outcome, f.meanwhile);
            AttemptContract(c, s, base, revision, made, f, after, result)
  {
  }

  lemma AttemptMeans(c: Config, s: State, base: RuleSet, revision: Revision, made: Result<Managed, PublishError>, f: Faults)
    ensures AttemptContract(c, s, base, revision, made, f, AttemptSpec(c, s, base, revision, made, f).0, AttemptSpec(c, s, base, revision, made, f).1)
  {
    if f.counter.Succeeds? && f.capture.None? {
      var counted := s.files.(counter := s.files.counter + 1);
      var (targets, outcome) := TargetsSpec(c, counted, made, f);
      TargetsMean(c, counted, made, f);
      FinishMeans(c, s, base, revision, made, f, targets, outcome);
    }
  }

  lemma MadeValue(c: Config, s: State, base: RuleSet, effective: RuleSet, generation: int)
    requires effective == Merge(base, Loaded(s.files)) && generation == s.files.counter + 1
    requires Made(c, s, base).Ok?
    ensures Made(c, s, base).value == Wrapped(effective, generation, c.publicKey, c.hex)
  {
    hide Wrapped, Merge, MakeManagedSpec;
    MadeIsWrapped(effective, generation, c.publicKey, c.hex);
  }

  predicate SuccessContract(c: Config, s: State, base: RuleSet, m: Managed, after: State) {
    && Holds(c, s.files, after.files, m) && after.files.counter == s.files.counter + 1
    && after.memory == NewMemory(c, s, base, RevisionOf(base), m, after.files)
  }

  lemma PublishHolds(c: Config, s: State, base: RuleSet, f: Faults)
    requires PublishSpec(c, s, base, f).1.Published?
    ensures Mergeable(c, s, base) && Made(c, s, base).Ok?
    ensures SuccessContract(c, s, base, Made(c, s, base).value, PublishSpec(c, s, base, f).0)
    ensures Quiet(f) ==> SameStore(PublishSpec(c, s, base, f).0.files, s.files)
  {
    AttemptMeans(c, s, base, RevisionOf(base), Made(c, s, base), f);
  }

  /**
   * A publication that succeeds leaves one new generation in every configured target, made from the base rules
   * and the stored additions, and records exactly that.
   */
  lemma PublishSucceeds(c: Config, s: State, base: RuleSet, f: Faults, effective: RuleSet, generation: nat)
    requires effective == Merge(base, Loaded(s.files)) && generation == s.files.counter + 1
    requires PublishSpec(c, s, base, f).1.Published?
    ensures SuccessContract(c, s, base, Wrapped(effective, generation, c.publicKey, c.hex), PublishSpec(c, s, base, f).0)
    ensures ValidRules(effective, c.lib) && MakeManagedSpec(effective, generation, c.publicKey, c.hex).Ok?
  {
    PublishHolds(c, s, base, f);
    MadeValue(c, s, base, effective, generation);
  }

  /** Every step after the merge that a publication needs works. */
  predicate AllStepsWork(c: Config, files: Files, f: Faults) {
    && f.counter.Succeeds? && f.capture.None? && f.captureAgain.None? && !f.sign && f.live.Succeeds?
    && (c.chrome ==> f.chrome.Succeeds?) && (c.firefox ==> files.firefox.Some? && f.firefox.Succeeds?)
  }

  lemma TargetsSucceed(c: Config, files: Files, made: Result<Managed, PublishError>, f: Faults)
    requires f.counter.Succeeds? && f.capture.None?
    ensures TargetsSpec(c, files, made, f).1.Published? <==> made.Ok? && AllStepsWork(c, files, f)
  {
  }

  lemma AttemptSucceeds(c: Config, s: State, base: RuleSet, revision: Revision, made: Result<Managed, PublishError>, f: Faults)
    ensures AttemptSpec(c, s, base, revision, made, f).1.Published? <==> made.Ok? && AllStepsWork(c, s.files, f)
  {
    hide TargetsSpec;
    if f.counter.Succeeds? && f.capture.None? {
      TargetsSucceed(c, s.files.(counter := s.files.counter + 1), made, f);
    }
  }

  /** A publication succeeds exactly when the files load, the merged rules are valid and publishable, and every step works. */
  lemma PublishSucceedsExactly(c: Config, s: State, base: RuleSet, f: Faults)
    ensures PublishSpec(c, s, base, f).1.Published? <==>
            !f.load && Mergeable(c, s, base) && Made(c, s, base).Ok? && AllStepsWork(c, s.files, f)
  {
    hide Mergeable, Made, AttemptSpec, RevisionOf;
    AttemptSucceeds(c, s, base, RevisionOf(base), Made(c, s, base), f);
  }

  /** A failed publication whose error is not about an incomplete rollback changed nothing but the counter. */
  lemma PublishFails(c: Config, s: State, base: RuleSet, f: Faults)
    requires PublishSpec(c, s, base, f).1.Failed?
    ensures var (after, outcome) := PublishSpec(c, s, base, f);
            && after.memory == s.memory && s.files.counter <= after.files.counter <= s.files.counter + 1
            && (Quiet(f) ==> SameStore(after.files, s.files))
            && (outcome.kind != RollbackIncomplete ==> SameTargets(after.files, s.files))
            && RestoredUnless(f, s.files, after.files)
  {
    AttemptMeans(c, s, base, RevisionOf(base), Made(c, s, base), f);
  }

  /** Building the message, reading the policies once more or writing them fails with a publication error. */
  predicate PoliciesRaise(c: Config, s: State, base: RuleSet, f: Faults) {
    || Made(c, s, base).Err?
    || (if f.captureAgain.Some? then f.captureAgain.value == PolicyError
        else ChromeFails(c, f.chrome) || FirefoxFails(c, s.files, f.firefox))
  }

  /**
   * The steps whose failure is a publication error: capturing the files, or else building the message or the two browser
   * policies, and then only with a complete rollback. A failing load, counter, signature or live file is another error.
   */
  lemma PolicyErrorExactly(c: Config, s: State, base: RuleSet, f: Faults)
    ensures PublishSpec(c, s, base, f).1 == Failed(PolicyError) <==>
            && !f.load && Mergeable(c, s, base) && f.counter.Succeeds?
            && if f.capture.Some? then f.capture.value == PolicyError
               else RollbackWorks(c, f) && PoliciesRaise(c, s, base, f)
  {
    hide Mergeable, Made, RevisionOf;
  }

  /** The counter file moves by one exactly when the publication got to it and its file was replaced. */
  lemma CounterExactly(c: Config, s: State, base: RuleSet, f: Faults)
    ensures PublishSpec(c, s, base, f).0.files.counter ==
            s.files.counter + if !f.load && Mergeable(c, s, base) && !f.counter.FailsBefore? then 1 else 0
  {
    hide Mergeable, Made, RevisionOf, TargetsSpec;
    if f.counter.Succeeds? && f.capture.None? {
      TargetsMean(c, s.files.(counter := s.files.counter + 1), Made(c, s, base), f);
    }
  }
}
