/** Every run of the daemon: no generation ever stands for two snapshots, and skipped polls are up to date. */
module PublicationRuns {
  import opened Basics
  import opened Rules
  import opened UserDomains
  import opened ManagedData
  import opened Publication
  import opened PublicationSafety

  datatype Event =
    | Publish(base: RuleSet, f: Faults)
    | Poll(f: Faults)
    | AddDomain(uid: nat, blockId: string, domain: string, add: AddFaults)
    | UsersChanged(stored: Option<UserState>)
    | Restart

  /** Events with the configuration in force; it may differ from one to the next. */
  datatype Call = Call(config: Config, event: Event)

  function Step(s: State, call: Call): State {
    var c := call.config;
    match call.event
    case Publish(base, f) => PublishSpec(c, s, base, f).0
    case Poll(f) => PollSpec(c, s, f).0
    case AddDomain(uid, blockId, domain, f) => AddDomainSpec(c, s, uid, blockId, domain, f).0
    case UsersChanged(stored) => s.(files := s.files.(stored := stored, version := s.files.version + 1))
    case Restart => s.(memory := FRESH_MEMORY)
  }

  function Run(s: State, calls: seq<Call>): State
    decreases |calls|
  {
    if calls == [] then s else Run(Step(s, calls[0]), calls[1..])
  }

  // ---- One rule set per generation ----

  predicate UniqueGenerations(issued: set<Snapshot>) {
    forall a, b :: a in issued && b in issued && a.generation == b.generation ==> a == b
  }

  predicate Authentic(t: Snapshot) {
    t.protocol == PROTOCOL && t.revision == RevisionOf(t.rules)
  }

  predicate Counted(issued: set<Snapshot>, counter: nat) {
    forall t :: t in issued ==> 0 < t.generation <= counter && Authentic(t)
  }

  /** A stored message that carries an issued snapshot unaltered. */
  predicate Genuine(m: Managed, issued: set<Snapshot>) {
    && m.content.Some? && m.content.value in issued && m.protocol == PROTOCOL
    && m.generation == m.content.value.generation && m.revision == m.content.value.revision
  }

  predicate GenuineIn(m: Option<Managed>, issued: set<Snapshot>) {
    m.Some? ==> Genuine(m.value, issued)
  }

  predicate FirefoxGenuine(p: Option<FirefoxPolicies>, issued: set<Snapshot>) {
    p.Some? ==> GenuineIn(p.value.entry, issued)
  }

  predicate Traceable(s: State) {
    && UniqueGenerations(s.issued) && Counted(s.issued, s.files.counter)
    && GenuineIn(s.files.chrome, s.issued) && FirefoxGenuine(s.files.firefox, s.issued)
    && GenuineIn(s.files.live, s.issued) && GenuineIn(s.memory.managed, s.issued)
  }

  predicate FreshlyMade(made: Result<Managed, PublishError>, generation: nat) {
    made.Ok? ==>
      && generation > 0 && Built(made) != {} && Genuine(made.value, Built(made))
      && made.value.content.value.generation == generation && Authentic(made.value.content.value)
  }

  lemma MadeFresh(c: Config, s: State, base: RuleSet, effective: RuleSet, generation: nat)
    requires effective == Merge(base, Loaded(s.files)) && generation == s.files.counter + 1
    ensures FreshlyMade(Made(c, s, base), generation)
  {
    var made := Made(c, s, base);
    if made.Ok? {
      MadeValue(c, s, base, effective, generation);
      WrappedFresh(effective, generation, c.publicKey, c.hex);
      assert made.value.content.value in Built(made);
    }
  }

  lemma WrappedFresh(rules: RuleSet, generation: int, publicKey: Option<string>, hex: Hex)
    ensures var m := Wrapped(rules, generation, publicKey, hex);
            && m.content.Some? && m.protocol == PROTOCOL && m.generation == generation
            && m.content.value.generation == generation && m.revision == m.content.value.revision
            && Authentic(m.content.value)
  {
  }

  /** One attempt adds at most its own snapshot, under a generation nothing issued before carries. */
  lemma AttemptTraceable(c: Config, s: State, base: RuleSet, revision: Revision, made: Result<Managed, PublishError>, f: Faults,
                         after: State, outcome: Outcome)
    requires Traceable(s) && AttemptContract(c, s, base, revision, made, f, after, outcome)
    requires FreshlyMade(made, s.files.counter + 1)
    ensures Traceable(after) && s.issued <= after.issued && s.files.counter <= after.files.counter
  {
    forall a, b | a in after.issued && b in after.issued && a.generation == b.generation ensures a == b {
    }
  }

  lemma PublishTraceable(c: Config, s: State, base: RuleSet, f: Faults)
    requires Traceable(s)
    ensures var after := PublishSpec(c, s, base, f).0;
            Traceable(after) && s.issued <= after.issued && s.files.counter <= after.files.counter
  {
    var made := Made(c, s, base);
    MadeFresh(c, s, base, Merge(base, Loaded(s.files)), s.files.counter + 1);
    AttemptMeans(c, s, base, RevisionOf(base), made, f);
    var (after, outcome) := AttemptSpec(c, s, base, RevisionOf(base), made, f);
    AttemptTraceable(c, s, base, RevisionOf(base), made, f, after, outcome);
  }

  predicate Continues(s: State, after: State) {
    Traceable(after) && s.issued <= after.issued && s.files.counter <= after.files.counter
  }

  lemma AddDomainTraceable(c: Config, s: State, uid: nat, blockId: string, domain: string, f: AddFaults)
    requires Traceable(s)
    ensures Continues(s, AddDomainSpec(c, s, uid, blockId, domain, f).0)
  {
    hide PublishSpec, WithAddition;
    if AddAllowed(c, s, uid, blockId, domain, f) {
      var base, previous := s.memory.base.value, Loaded(s.files);
      var one := s.(files := StoreWritten(s.files, WithAddition(previous, uid, blockId, domain), f.write));
      assert Traceable(one);
      PublishTraceable(c, one, base, Alone(f.publish));
      var two := PublishSpec(c, one, base, Alone(f.publish)).0;
      var three := two.(files := StoreWritten(two.files, previous, f.undo));
      assert Traceable(three);
      PublishTraceable(c, three, base, Alone(f.republish));
    }
  }

  lemma StepTraceable(s: State, call: Call)
    requires Traceable(s)
    ensures Continues(s, Step(s, call))
  {
    match call.event
    case Publish(base, f) => PublishTraceable(call.config, s, base, f);
    case Poll(f) => if s.memory.base.Some? { PublishTraceable(call.config, s, s.memory.base.value, f); }
    case AddDomain(uid, blockId, domain, f) => AddDomainTraceable(call.config, s, uid, blockId, domain, f);
    case _ =>
  }

  /**
   * Over every run of publications, failures, rollbacks and restarts that keep the counter file, no generation is
   * ever issued with two different snapshots, and every file holds only issued snapshots.
   */
  lemma {:induction false} GenerationsNeverReused(s: State, calls: seq<Call>)
    requires Traceable(s)
    ensures Continues(s, Run(s, calls))
    decreases |calls|
  {
    if calls != [] {
      StepTraceable(s, calls[0]);
      GenerationsNeverReused(Step(s, calls[0]), calls[1..]);
    }
  }

  /** What a success publishes is newer than everything ever issued before it. */
  lemma SuccessIsNewest(c: Config, s: State, base: RuleSet, f: Faults, t: Snapshot)
    requires Traceable(s) && t in s.issued
    requires PublishSpec(c, s, base, f).1.Published?
    ensures var m := PublishSpec(c, s, base, f).0.memory.managed;
            m.Some? && m.value.generation > t.generation
  {
    PublishHolds(c, s, base, f);
    MadeFresh(c, s, base, Merge(base, Loaded(s.files)), s.files.counter + 1);
  }

  // ---- Two sightings of one generation ----

  /** Some file or the process shows the message. */
  predicate Shown(s: State, m: Managed) {
    || s.files.chrome == Some(m) || s.files.live == Some(m) || s.memory.managed == Some(m)
    || (s.files.firefox.Some? && s.files.firefox.value.entry == Some(m))
  }

  /** Messages seen at any two points of a run carry the same rules whenever they carry the same generation. */
  lemma SameGenerationSameRules(s: State, calls: seq<Call>, a: Managed, b: Managed)
    requires Traceable(s) && Shown(s, a) && Shown(Run(s, calls), b)
    requires a.generation == b.generation
    ensures a.content == b.content && a.revision == b.revision
  {
    GenerationsNeverReused(s, calls);
    var last := Run(s, calls);
    assert Genuine(a, s.issued) && Genuine(b, last.issued);
    assert a.content.value in last.issued;
  }

  // ---- When the poll of the user file is skipped ----

  predicate QuietEvent(e: Event) {
    match e
    case Publish(_, f) => Quiet(f)
    case Poll(f) => Quiet(f)
    case _ => true
  }

  /** A recorded signature that still fits stands for the additions last published, or a version given up on. */
  predicate CaughtUp(s: State) {
    s.memory.base.Some? ==>
      && (s.memory.signature.Some? ==> s.memory.signature.value <= s.files.version)
      && (s.memory.signature.None? ==> s.memory.userRules == Some(UserState([])) || None in s.rejected)
      && (s.memory.signature == StatSignature(s.files) ==>
            s.memory.userRules == Some(Loaded(s.files)) || s.memory.signature in s.rejected)
  }

  lemma PublishCaughtUp(c: Config, s: State, base: RuleSet, f: Faults)
    requires CaughtUp(s) && Quiet(f)
    ensures var (after, outcome) := PublishSpec(c, s, base, f);
            CaughtUp(after) && SameStore(after.files, s.files) && after.rejected == s.rejected
            && (outcome.Failed? ==> after.memory == s.memory)
  {
    var made := Made(c, s, base);
    AttemptMeans(c, s, base, RevisionOf(base), made, f);
  }

  lemma AddDomainCaughtUp(c: Config, s: State, uid: nat, blockId: string, domain: string, f: AddFaults)
    requires CaughtUp(s)
    ensures CaughtUp(AddDomainSpec(c, s, uid, blockId, domain, f).0)
  {
    hide PublishSpec, ValidUsers, Merge;
    if AddAllowed(c, s, uid, blockId, domain, f) {
      var base, previous := s.memory.base.value, Loaded(s.files);
      var one := s.(files := StoreWritten(s.files, WithAddition(previous, uid, blockId, domain), f.write));
      assert CaughtUp(one);
      PublishCaughtUp(c, one, base, Alone(f.publish));
      var two := PublishSpec(c, one, base, Alone(f.publish)).0;
      var three := two.(files := StoreWritten(two.files, previous, f.undo));
      assert CaughtUp(three);
      PublishCaughtUp(c, three, base, Alone(f.republish));
    }
  }

  /** As long as no other process rewrites the user file during a publication, skipped polls are up to date. */
  lemma {:induction false} PollsCatchUp(s: State, calls: seq<Call>)
    requires CaughtUp(s) && forall i :: 0 <= i < |calls| ==> QuietEvent(calls[i].event)
    ensures CaughtUp(Run(s, calls))
    decreases |calls|
  {
    if calls != [] {
      var c := calls[0].config;
      assert QuietEvent(calls[0].event);
      match calls[0].event {
        case Publish(base, f) => PublishCaughtUp(c, s, base, f);
        case Poll(f) => if s.memory.base.Some? { PublishCaughtUp(c, s, s.memory.base.value, f); }
        case AddDomain(uid, blockId, domain, f) => AddDomainCaughtUp(c, s, uid, blockId, domain, f);
        case _ =>
      }
      PollsCatchUp(Step(s, calls[0]), calls[1..]);
    }
  }

  lemma {:induction false} RunSplit(s: State, calls: seq<Call>, k: nat)
    requires 0 < k <= |calls|
    ensures Run(s, calls[..k]) == Run(Step(s, calls[0]), calls[1..][..k - 1])
  {
    hide Step;
    assert calls[..k][0] == calls[0] && calls[..k][1..] == calls[1..][..k - 1];
  }

  /** A poll that found the user file at the signature `v`, tried to publish, and failed. */
  predicate PollFailed(s: State, call: Call, v: Option<nat>) {
    && call.event.Poll? && v == StatSignature(s.files) && v != s.memory.signature && s.memory.base.Some?
    && PublishSpec(call.config, s, s.memory.base.value, call.event.f).1.Failed?
  }

  lemma StepRejects(s: State, call: Call, v: Option<nat>)
    requires v in Step(s, call).rejected && v !in s.rejected
    ensures PollFailed(s, call, v)
  {
    var c := call.config;
    match call.event
    case Publish(base, f) => AttemptMeans(c, s, base, RevisionOf(base), Made(c, s, base), f);
    case Poll(f) =>
      if s.memory.base.Some? {
        var base := s.memory.base.value;
        AttemptMeans(c, s, base, RevisionOf(base), Made(c, s, base), f);
      }
    case AddDomain(uid, blockId, domain, f) => AddDomainRejectsNothing(c, s, uid, blockId, domain, f);
    case _ =>
  }

  lemma PublishRejectsNothing(c: Config, s: State, base: RuleSet, f: Faults)
    ensures PublishSpec(c, s, base, f).0.rejected == s.rejected
  {
    AttemptMeans(c, s, base, RevisionOf(base), Made(c, s, base), f);
  }

  lemma AddDomainRejectsNothing(c: Config, s: State, uid: nat, blockId: string, domain: string, f: AddFaults)
    ensures AddDomainSpec(c, s, uid, blockId, domain, f).0.rejected == s.rejected
  {
    hide PublishSpec, WithAddition;
    if AddAllowed(c, s, uid, blockId, domain, f) {
      var base, previous := s.memory.base.value, Loaded(s.files);
      var one := s.(files := StoreWritten(s.files, WithAddition(previous, uid, blockId, domain), f.write));
      PublishRejectsNothing(c, one, base, Alone(f.publish));
      var two := PublishSpec(c, one, base, Alone(f.publish)).0;
      PublishRejectsNothing(c, two.(files := StoreWritten(two.files, previous, f.undo)), base, Alone(f.republish));
    }
  }

  /** A version counts as given up on only after a poll of the run failed to publish it. */
  lemma {:induction false} GivenUpOnlyAfterFailure(s: State, calls: seq<Call>, v: Option<nat>) returns (k: nat)
    requires v in Run(s, calls).rejected && v !in s.rejected
    ensures k < |calls| && PollFailed(Run(s, calls[..k]), calls[k], v)
    decreases |calls|
  {
    hide Step, PollFailed;
    var next := Step(s, calls[0]);
    if v in next.rejected {
      StepRejects(s, calls[0], v);
      k := 0;
    } else {
      var j := GivenUpOnlyAfterFailure(next, calls[1..], v);
      k := j + 1;
      RunSplit(s, calls, k);
    }
  }

  /** A poll that finds a changed user file publishes it whenever the merged rules allow it and every step works. */
  lemma PollPublishes(c: Config, s: State, f: Faults)
    requires s.memory.base.Some? && StatSignature(s.files) != s.memory.signature
    requires !f.load && Mergeable(c, s, s.memory.base.value) && Made(c, s, s.memory.base.value).Ok? && AllStepsWork(c, s.files, f)
    ensures var (after, outcome) := PollSpec(c, s, f);
            && outcome.Published? && after.memory.userRules == Some(Loaded(s.files)) && after.rejected == s.rejected
            && SuccessContract(c, s, s.memory.base.value, Made(c, s, s.memory.base.value).value, after)
  {
    var base := s.memory.base.value;
    PublishSucceedsExactly(c, s, base, f);
    PublishHolds(c, s, base, f);
    PublishRejectsNothing(c, s, base, f);
  }

  /**
   * So at any point of a quiet run that starts caught up: a poll is skipped only when the stored additions are the ones
   * last published, or a poll has failed to publish exactly this version.
   */
  lemma SkippedPollsExplained(s: State, calls: seq<Call>) returns (k: nat)
    requires CaughtUp(s) && forall i :: 0 <= i < |calls| ==> QuietEvent(calls[i].event)
    ensures var last := Run(s, calls);
            last.memory.base.Some? && last.memory.signature == StatSignature(last.files) ==>
              || last.memory.userRules == Some(Loaded(last.files))
              || last.memory.signature in s.rejected
              || (k < |calls| && PollFailed(Run(s, calls[..k]), calls[k], last.memory.signature))
  {
    hide Run, PollFailed;
    PollsCatchUp(s, calls);
    var last := Run(s, calls);
    k := 0;
    if last.memory.signature in last.rejected && last.memory.signature !in s.rejected {
      k := GivenUpOnlyAfterFailure(s, calls, last.memory.signature);
    }
  }

  // ---- A fresh installation ----

  /** Nothing published, nothing issued; other Firefox policies and stored additions may exist already. */
  predicate Fresh(s: State) {
    && s.files.chrome.None? && s.files.live.None? && s.files.counter == 0
    && (s.files.firefox.Some? ==> s.files.firefox.value.entry.None?)
    && s.memory == FRESH_MEMORY && s.issued == {} && s.rejected == {}
  }

  /** So the run theorems hold from a fresh installation on. */
  lemma InstallationIsTraceable(s: State, calls: seq<Call>)
    requires Fresh(s)
    ensures Traceable(s) && CaughtUp(s) && Traceable(Run(s, calls))
  {
    GenerationsNeverReused(s, calls);
  }

  /** The signature is read after publishing: a concurrent rewrite is taken for what was published, and stays unpublished. */
  lemma ConcurrentRewriteIsMissed(c: Config, s: State, base: RuleSet, f: Faults)
    requires PublishSpec(c, s, base, f).1.Published?
    ensures var after := PublishSpec(c, s, base, f).0;
            && after.memory.signature == StatSignature(after.files)
            && after.memory.userRules == Some(Loaded(s.files))
            && (after.memory.userRules == Some(Loaded(after.files)) <==>
                f.meanwhile.None? || f.meanwhile.value == Loaded(s.files))
            && forall g :: PollSpec(c, after, g).0 == after
  {
    PublishHolds(c, s, base, f);
    MeanwhileStored(c, s, base, f);
  }

  lemma MeanwhileStored(c: Config, s: State, base: RuleSet, f: Faults)
    requires PublishSpec(c, s, base, f).1.Published?
    ensures f.meanwhile.Some? ==> PublishSpec(c, s, base, f).0.files.stored == f.meanwhile
  {
  }

  /** A failed poll is remembered: the same version of the user file is not tried again. */
  lemma FailedPollIsRemembered(c: Config, s: State, f: Faults)
    requires PollSpec(c, s, f).1.Failed?
    ensures var after := PollSpec(c, s, f).0;
            && after.memory.signature == StatSignature(s.files) && after.memory == s.memory.(signature := StatSignature(s.files))
            && forall later: State, g :: later.memory == after.memory && StatSignature(later.files) == StatSignature(s.files) ==>
                 PollSpec(c, later, g) == (later, Published)
  {
    hide PublishSpec;
    PublishFails(c, s, s.memory.base.value, f);
  }
}
