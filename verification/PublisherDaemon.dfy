/** The daemon's publisher as it runs: files and fields updated one after the other, each method proved against its step. */
module PublisherDaemon {
  import opened Basics
  import opened Rules
  import opened Validation
  import opened UserDomains
  import opened ManagedData
  import opened Publication

  class EffectiveRulePublisher {
    const config: Config

    // Files.
    var chrome: Option<Managed>
    var firefox: Option<FirefoxPolicies>
    var live: Option<Managed>
    var counter: nat
    var stored: Option<UserState>
    var version: nat

    // Fields of the process.
    var baseRules: Option<RuleSet>
    var managedData: Option<Managed>
    var userRevision: Option<UserState>
    var baseRevision: Option<Revision>
    var serial: nat
    var userSignature: Option<nat>

    ghost var issued: set<Snapshot>
    ghost var rejected: set<Option<nat>>

    ghost function OnDisk(): Files
      reads this
    {
      Files(chrome, firefox, live, counter, stored, version)
    }

    ghost function Now(): State
      reads this
    {
      State(OnDisk(), Memory(baseRules, managedData, userRevision, baseRevision, serial, userSignature), issued, rejected)
    }

    constructor (config: Config, chrome: Option<Managed>, firefox: Option<FirefoxPolicies>, live: Option<Managed>, counter: nat,
                 stored: Option<UserState>, version: nat)
      ensures this.config == config
      ensures Now() == State(Files(chrome, firefox, live, counter, stored, version), FRESH_MEMORY, {}, {})
    {
      this.config := config;
      this.chrome, this.firefox, this.live, this.counter := chrome, firefox, live, counter;
      this.stored, this.version := stored, version;
      baseRules, managedData, userRevision, baseRevision, serial, userSignature := None, None, None, None, 0, None;
      issued, rejected := {}, {};
    }

    /** Persists the next generation before anything is published under it. */
    method NextGeneration(w: Write) returns (generation: Option<nat>)
      modifies this`counter
      ensures counter == Written(old(counter), old(counter) + 1, w)
      ensures generation == if w.Succeeds? then Some(old(counter) + 1) else None
    {
      var following := counter + 1;
      if w.FailsBefore? { return None; }
      counter := following;
      return if w.FailsAfter? then None else Some(following);
    }

    method RestorePolicies(captured: Files, chromeWrite: Write, firefoxWrite: Write) returns (complete: bool)
      modifies this`chrome, this`firefox
      ensures OnDisk() == RestoreChrome(config, RestoreFirefox(config, old(OnDisk()), captured, firefoxWrite), captured, chromeWrite)
      ensures complete <==> (config.firefox ==> firefoxWrite.Succeeds?) && (config.chrome ==> chromeWrite.Succeeds?)
    {
      complete := true;
      if config.firefox {
        if !firefoxWrite.FailsBefore? { firefox := captured.firefox; }
        complete := firefoxWrite.Succeeds?;
      }
      if config.chrome {
        if !chromeWrite.FailsBefore? { chrome := captured.chrome; }
        complete := complete && chromeWrite.Succeeds?;
      }
    }

    /** Chrome, then Firefox; after a failure both are restored in reverse order. */
    method PublishPolicies(made: Result<Managed, PublishError>, f: Faults) returns (r: Result<Managed, Failure>)
      modifies this`chrome, this`firefox
      ensures (OnDisk(), r) == PoliciesSpec(config, old(OnDisk()), made, f)
    {
      if made.Err? { return Err(PolicyError); }
      if f.captureAgain.Some? { return Err(f.captureAgain.value); }
      var captured := Files(chrome, firefox, live, counter, stored, version);
      var failed := false;
      if config.chrome {
        if !f.chrome.FailsBefore? { chrome := Some(made.value); }
        failed := !f.chrome.Succeeds?;
      }
      if !failed && config.firefox {
        if firefox.None? {
          failed := true;
        } else {
          if !f.firefox.FailsBefore? { firefox := Some(firefox.value.(entry := Some(made.value))); }
          failed := !f.firefox.Succeeds?;
        }
      }
      if failed {
        var complete := RestorePolicies(captured, f.chromeUndo, f.firefoxUndo);
        return Err(PolicyError);
      }
      return Ok(made.value);
    }

    /** The `try` block of a publication and its handler. */
    method WriteTargets(made: Result<Managed, PublishError>, f: Faults) returns (outcome: Outcome)
      modifies this`chrome, this`firefox, this`live
      ensures (OnDisk(), outcome) == TargetsSpec(config, old(OnDisk()), made, f)
    {
      var captured := Files(chrome, firefox, live, counter, stored, version);
      var kind := OtherError;
      var policies := PublishPolicies(made, f);
      if policies.Err? {
        kind := policies.error;
      } else if !f.sign {
        var signed := policies.value.(signature := Some(Signed(config.signingKey, policies.value.text)));
        if !f.live.FailsBefore? { live := Some(signed); }
        if f.live.Succeeds? { return Published; }
      }
      var complete := RestorePolicies(captured, f.chromeRestore, f.firefoxRestore);
      if !f.liveRestore.FailsBefore? { live := captured.live; }
      return Failed(if complete && f.liveRestore.Succeeds? then kind else RollbackIncomplete);
    }

    /** What the process records once the targets are written. */
    method Record(base: RuleSet, revision: Revision, users: UserState, made: Result<Managed, PublishError>, written: Outcome,
                  meanwhile: Option<UserState>, ghost before: State)
      returns (outcome: Outcome)
      requires users == Loaded(before.files) && before.memory == Now().memory && before.issued == issued && before.rejected == rejected
      modifies this
      ensures (Now(), outcome) == FinishSpec(config, before, base, revision, made, old(OnDisk()), written, meanwhile)
    {
      hide Built, SignedManaged;
      if meanwhile.Some? { stored, version := meanwhile, version + 1; }
      issued := issued + Built(made);
      if written.Failed? || made.Err? { return written; }
      baseRules := Some(base);
      managedData := Some(SignedManaged(config, made.value));
      userSignature := if stored.None? then None else Some(version);
      baseRevision := Some(revision);
      userRevision := Some(users);
      serial := serial + 1;
      return Published;
    }

    /** Writing the targets and recording the result. */
    method Deliver(base: RuleSet, revision: Revision, users: UserState, made: Result<Managed, PublishError>, f: Faults, ghost before: State)
      returns (outcome: Outcome)
      requires before == Now().(files := before.files) && users == Loaded(before.files)
      modifies this
      ensures var (targets, written) := TargetsSpec(config, old(OnDisk()), made, f);
              (Now(), outcome) == FinishSpec(config, before, base, revision, made, targets, written, f.meanwhile)
    {
      var written := WriteTargets(made, f);
      outcome := Record(base, revision, users, made, written, f.meanwhile, before);
    }

    /** One publication of the base rules merged with the stored additions. */
    method Publish(base: RuleSet, f: Faults) returns (outcome: Outcome)
      modifies this
      ensures (Now(), outcome) == PublishSpec(config, old(Now()), base, f)
    {
      hide TargetsSpec, FinishSpec, MakeManagedSpec, Merge, ValidRules, ValidUsers, RevisionOf;
      ghost var before := Now();
      var users := match stored case None => UserState([]) case Some(u) => u;
      if f.load || !ValidUsers(users, config.lib) { return Failed(OtherError); }
      var effective := MergeUsers(base, users);
      if !ValidRules(effective, config.lib) { return Failed(OtherError); }
      var generation := NextGeneration(f.counter);
      if generation.None? { return Failed(OtherError); }
      if f.capture.Some? { return Failed(f.capture.value); }
      var made := MakeManagedData(effective, generation.value, config.publicKey, config.hex);
      outcome := Deliver(base, RevisionOf(base), users, made, f, before);
    }

    /** The poll of the user file: a failed attempt is remembered by its signature. */
    method ReloadUserRulesIfChanged(f: Faults) returns (outcome: Outcome)
      modifies this
      ensures (Now(), outcome) == PollSpec(config, old(Now()), f)
    {
      var signature := if stored.None? then None else Some(version);
      if signature == userSignature || baseRules.None? { return Published; }
      outcome := Publish(baseRules.value, f);
      if outcome.Failed? {
        userSignature := signature;
        rejected := rejected + {signature};
      }
    }

    method WriteStore(users: UserState, w: Write)
      modifies this`stored, this`version
      ensures OnDisk() == StoreWritten(old(OnDisk()), users, w)
    {
      if !w.FailsBefore? { stored, version := Some(users), version + 1; }
    }

    /** Adds one domain for a restricted account; a failed publication is taken back and the earlier rules republished. */
    method AddDomain(uid: nat, blockId: string, domain: string, f: AddFaults) returns (outcome: AddOutcome)
      modifies this
      ensures (Now(), outcome) == AddDomainSpec(config, old(Now()), uid, blockId, domain, f)
    {
      var files := Files(chrome, firefox, live, counter, stored, version);
      var memory := Memory(baseRules, managedData, userRevision, baseRevision, serial, userSignature);
      if !AddAllowed(config, State(files, memory, {}, {}), uid, blockId, domain, f) { return Refused; }
      if f.lock || f.load { return StoreFailed; }
      var base := baseRules.value;
      var previous := Loaded(files);
      var updated := WithAddition(previous, uid, blockId, domain);
      if !ValidUsers(updated, config.lib) { return StoreFailed; }
      WriteStore(updated, f.write);
      if !f.write.Succeeds? { return StoreFailed; }
      var first := Publish(base, Alone(f.publish));
      if first.Published? { return Added(managedData); }
      WriteStore(previous, f.undo);
      if !f.undo.Succeeds? { return PublishFailed; }
      var second := Publish(base, Alone(f.republish));
      return PublishFailed;
    }
  }
}
