/** The daemon's rule store: polling the rule file, activating valid rules, keeping a last good copy. */
module RuleStore {
  import opened Basics
  import opened Rules
  import opened Validation
  import opened Editing
  import opened Publication
  import opened PublicationSafety

  /** How the recorded signature came about. */
  datatype Verdict = Activated | Rejected

  /** The versions the source file has had, newest last; a version's index is its signature. */
  type Source = seq<RulesFile>

  function SignatureAt(source: Source, at: nat): Option<nat>
    requires at < |source|
  {
    if source[at].Missing? then None else Some(at)
  }

  datatype Store = Store(active: Option<RuleSet>, signature: Option<nat>, lastGood: RulesFile)

  /** One poll: the version whose signature is read, the later or equal one that is loaded, and the failures. */
  datatype PollInput = PollInput(stat: nat, load: nat, loadFails: bool, publish: Outcome, write: Publication.Write)

  predicate Sensible(source: Source, i: PollInput) {
    i.stat <= i.load < |source|
  }

  datatype Activation = Done(store: Store) | Failed(store: Store, retry: bool)

  /** Publish, write the last good copy, then switch; a publication error is the only one worth retrying. */
  function ActivateSpec(s: Store, rules: RuleSet, publish: Outcome, write: Publication.Write): Activation {
    if publish.Failed? then Activation.Failed(s, publish.kind == PolicyError)
    else
      match write
      case FailsBefore => Activation.Failed(s, false)
      case FailsAfter => Activation.Failed(s.(lastGood := Holds(rules)), false)
      case Succeeds => Done(s.(lastGood := Holds(rules), active := Some(rules)))
  }

  function ReloadSpec(s: Store, source: Source, i: PollInput, lib: Libraries): Store
    requires Sensible(source, i)
  {
    var signature := SignatureAt(source, i.stat);
    if signature == s.signature then s
    else
      match LoadRules(source[i.load], lib, i.loadFails)
      case None => s.(signature := signature)
      case Some(rules) =>
        match ActivateSpec(s, rules, i.publish, i.write)
        case Done(next) => next.(signature := signature)
        case Failed(next, retry) => if retry then next else next.(signature := signature)
  }

  /** Starting: the source, or else the last good copy; an activation failure ends the daemon. */
  function StartSpec(s: Store, source: Source, i: PollInput, backupFails: bool, lib: Libraries): (Store, bool)
    requires Sensible(source, i)
  {
    var seen := s.(signature := SignatureAt(source, i.stat));
    var chosen :=
      match LoadRules(source[i.load], lib, i.loadFails)
      case Some(rules) => Some(rules)
      case None => LoadRules(s.lastGood, lib, backupFails);
    if chosen.None? then (seen, false)
    else
      match ActivateSpec(seen, chosen.value, i.publish, i.write)
      case Done(next) => (next, true)
      case Failed(next, _) => (next, false)
  }

  // ---- The store as it runs ----

  class Daemon {
    const lib: Libraries
    var active: Option<RuleSet>
    var sourceSignature: Option<nat>
    var lastGood: RulesFile

    ghost function Now(): Store
      reads this
    {
      Store(active, sourceSignature, lastGood)
    }

    constructor (lib: Libraries, lastGood: RulesFile)
      ensures this.lib == lib && Now() == Store(None, None, lastGood)
    {
      this.lib, this.lastGood := lib, lastGood;
      active, sourceSignature := None, None;
    }

    method Activate(rules: RuleSet, publish: Outcome, write: Publication.Write) returns (error: Option<bool>)
      modifies this`active, this`lastGood
      ensures ActivateSpec(old(Now()), rules, publish, write) ==
              if error.None? then Done(Now()) else Activation.Failed(Now(), error.value)
    {
      if publish.Failed? { return Some(publish.kind == PolicyError); }
      if write.FailsBefore? { return Some(false); }
      lastGood := Holds(rules);
      if write.FailsAfter? { return Some(false); }
      active := Some(rules);
      return None;
    }

    method ReloadIfChanged(source: Source, i: PollInput) returns (reloaded: bool)
      requires Sensible(source, i)
      modifies this
      ensures Now() == ReloadSpec(old(Now()), source, i, lib)
      ensures reloaded ==> active.Some? && Some(active.value) == LoadRules(source[i.load], lib, i.loadFails)
      ensures !reloaded ==> active == old(active)
    {
      hide ValidRules;
      var signature := SignatureAt(source, i.stat);
      if signature == sourceSignature { return false; }
      var rules := LoadRules(source[i.load], lib, i.loadFails);
      if rules.None? {
        sourceSignature := signature;
        return false;
      }
      var error := Activate(rules.value, i.publish, i.write);
      if error.Some? {
        if !error.value { sourceSignature := signature; }
        return false;
      }
      sourceSignature := signature;
      return true;
    }

    method Start(source: Source, i: PollInput, backupFails: bool) returns (started: bool)
      requires Sensible(source, i)
      modifies this
      ensures (Now(), started) == StartSpec(old(Now()), source, i, backupFails, lib)
    {
      hide ValidRules;
      sourceSignature := SignatureAt(source, i.stat);
      var rules := LoadRules(source[i.load], lib, i.loadFails);
      if rules.None? {
        rules := LoadRules(lastGood, lib, backupFails);
        if rules.None? { return false; }
      }
      var error := Activate(rules.value, i.publish, i.write);
      return error.None?;
    }
  }

  // ---- Every run ----

  /** The file gets new content, or the daemon polls. */
  datatype Event = NewVersion(content: RulesFile) | Poll(input: PollInput)

  /** The poll that set the recorded signature, and what became of it. */
  datatype Settled = Settled(input: PollInput, verdict: Verdict)

  /** The last publication that succeeded: its rules, how writing the last good copy went, and the active rules before. */
  datatype Publishing = Publishing(rules: RuleSet, write: Publication.Write, before: Option<RuleSet>)

  /** The store, the file's versions, the rules published so far and those published last, and the poll that set the signature. */
  datatype World = World(store: Store, source: Source, published: set<RuleSet>, last: Publishing, settled: Settled)

  /** A poll is retried later exactly when publishing raised a publication error. */
  predicate WillRetry(s: Store, source: Source, i: PollInput, lib: Libraries)
    requires Sensible(source, i)
  {
    && SignatureAt(source, i.stat) != s.signature
    && LoadRules(source[i.load], lib, i.loadFails).Some? && i.publish == Outcome.Failed(PolicyError)
  }

  predicate Activates(source: Source, i: PollInput, lib: Libraries)
    requires Sensible(source, i)
  {
    LoadRules(source[i.load], lib, i.loadFails).Some? && i.publish.Published? && i.write.Succeeds?
  }

  function Next(w: World, e: Event, lib: Libraries): World {
    match e
    case NewVersion(content) => w.(source := w.source + [content])
    case Poll(i) =>
      if !Sensible(w.source, i) || SignatureAt(w.source, i.stat) == w.store.signature then w
      else
        var rules := LoadRules(w.source[i.load], lib, i.loadFails);
        World(ReloadSpec(w.store, w.source, i, lib), w.source,
              if rules.Some? && i.publish.Published? then w.published + {rules.value} else w.published,
              if rules.Some? && i.publish.Published? then Publishing(rules.value, i.write, w.store.active) else w.last,
              if WillRetry(w.store, w.source, i, lib) then w.settled
              else Settled(i, if Activates(w.source, i, lib) then Activated else Rejected))
  }

  function Run(w: World, events: seq<Event>, lib: Libraries): World
    decreases |events|
  {
    if events == [] then w else Run(Next(w, events[0], lib), events[1..], lib)
  }

  /** A rejection that is final: the content did not load, or the failure was no publication error. */
  predicate RejectedForGood(source: Source, i: PollInput, lib: Libraries)
    requires Sensible(source, i)
  {
    LoadRules(source[i.load], lib, i.loadFails).None? || i.publish != Outcome.Failed(PolicyError)
  }

  /**
   * Active rules and the last good copy are valid and were published, the active ones by the last publication unless its
   * last good copy could not be written; the recorded signature belongs to the poll that
   * settled it, and an activating poll's rules are still the active ones.
   */
  predicate Consistent(w: World, lib: Libraries) {
    && (w.store.active.Some? ==> ValidRules(w.store.active.value, lib) && w.store.active.value in w.published)
    && w.last.rules in w.published && w.store.active == (if w.last.write.Succeeds? then Some(w.last.rules) else w.last.before)
    && w.store.lastGood.Holds? && w.store.lastGood.rules in w.published && ValidRules(w.store.lastGood.rules, lib)
    && w.settled.input.stat <= w.settled.input.load < |w.source|
    && w.store.signature == SignatureAt(w.source, w.settled.input.stat)
    && (w.settled.verdict == Rejected ==> RejectedForGood(w.source, w.settled.input, lib))
    && (w.settled.verdict == Activated ==> w.source[w.settled.input.load].Holds? && w.store.active == Some(w.source[w.settled.input.load].rules))
  }

  lemma NextConsistent(w: World, e: Event, lib: Libraries)
    requires Consistent(w, lib)
    ensures Consistent(Next(w, e, lib), lib)
  {
    hide ValidRules;
  }

  lemma {:induction false} AlwaysConsistent(w: World, events: seq<Event>, lib: Libraries)
    requires Consistent(w, lib)
    ensures Consistent(Run(w, events, lib), lib)
    decreases |events|
  {
    hide Next, Consistent;
    if events != [] {
      NextConsistent(w, events[0], lib);
      AlwaysConsistent(Next(w, events[0], lib), events[1..], lib);
    }
  }

  /** The world after a successful start. */
  function Started(s: Store, source: Source, i: PollInput, backupFails: bool, lib: Libraries): World
    requires Sensible(source, i) && StartSpec(s, source, i, backupFails, lib).1
  {
    var next := StartSpec(s, source, i, backupFails, lib).0;
    var rules := next.active.value;
    World(next, source, {rules}, Publishing(rules, Succeeds, None),
          Settled(i, if Activates(source, i, lib) then Activated else Rejected))
  }

  lemma StartConsistent(s: Store, source: Source, i: PollInput, backupFails: bool, lib: Libraries)
    requires Sensible(source, i) && s.active.None? && StartSpec(s, source, i, backupFails, lib).1
    ensures Consistent(Started(s, source, i, backupFails, lib), lib)
  {
    hide ValidRules;
  }

  /**
   * At any point of a run after a start: a poll is skipped only if the current version itself was loaded by the poll
   * that settled it, and it is the active one unless it was rejected for another reason than a publication error.
   */
  lemma SkippedOnlyWhenSettled(s: Store, source: Source, i: PollInput, backupFails: bool, events: seq<Event>, lib: Libraries)
    requires Sensible(source, i) && s.active.None? && StartSpec(s, source, i, backupFails, lib).1
    ensures var w := Run(Started(s, source, i, backupFails, lib), events, lib);
            && |w.source| > 0
            && (SignatureAt(w.source, |w.source| - 1) == w.store.signature && !w.source[|w.source| - 1].Missing? ==>
                && w.settled.input.stat == w.settled.input.load == |w.source| - 1
                && (w.settled.verdict == Rejected ==> RejectedForGood(w.source, w.settled.input, lib))
                && (w.settled.verdict == Activated ==>
                      w.source[|w.source| - 1].Holds? && w.store.active == Some(w.source[|w.source| - 1].rules)))
  {
    hide Run, Started, ValidRules;
    StartConsistent(s, source, i, backupFails, lib);
    AlwaysConsistent(Started(s, source, i, backupFails, lib), events, lib);
  }

  /**
   * At any point of a run after a start, the daemon's active rules are the ones the browsers were given last exactly when
   * that publication's last good copy was written, or the rules were active already.
   */
  lemma ActiveIsLastPublishedExactly(s: Store, source: Source, i: PollInput, backupFails: bool, events: seq<Event>, lib: Libraries)
    requires Sensible(source, i) && s.active.None? && StartSpec(s, source, i, backupFails, lib).1
    ensures var w := Run(Started(s, source, i, backupFails, lib), events, lib);
            && w.last.rules in w.published
            && (w.store.active == Some(w.last.rules) <==> w.last.write.Succeeds? || w.last.before == Some(w.last.rules))
  {
    hide Run, Started, ValidRules;
    StartConsistent(s, source, i, backupFails, lib);
    AlwaysConsistent(Started(s, source, i, backupFails, lib), events, lib);
  }

  /** The other case happens: new rules are published, the copy fails, the old rules stay active and the poll is closed. */
  lemma FailingCopyDiverges(w: World, i: PollInput, lib: Libraries)
    requires Sensible(w.source, i) && SignatureAt(w.source, i.stat) != w.store.signature
    requires LoadRules(w.source[i.load], lib, i.loadFails).Some? && i.publish.Published? && !i.write.Succeeds?
    requires w.store.active != Some(w.source[i.load].rules)
    ensures var after := Next(w, Poll(i), lib);
            && after.last.rules == w.source[i.load].rules && after.store.active == w.store.active
            && after.store.active != Some(after.last.rules)
            && after.store.signature == SignatureAt(w.source, i.stat)
  {
    hide ValidRules;
  }

  /** What one poll leaves: active rules change only by activation, and only a publication error leaves the poll open. */
  lemma FailedPollKeepsActive(s: Store, source: Source, i: PollInput, lib: Libraries)
    requires Sensible(source, i) && SignatureAt(source, i.stat) != s.signature
    ensures var after := ReloadSpec(s, source, i, lib);
            && (after.active == (if Activates(source, i, lib) then Some(source[i.load].rules) else s.active))
            && (after.signature == SignatureAt(source, i.stat) <==> !WillRetry(s, source, i, lib))
            && (WillRetry(s, source, i, lib) ==> after == s)
  {
    hide ValidRules;
  }

  /**
   * In terms of the steps of the publication: a poll that found valid rules stays open exactly when capturing the files,
   * building the message or writing the browser policies failed with a publication error and the rollback was complete.
   */
  lemma RetriedExactly(s: Store, source: Source, i: PollInput, lib: Libraries, c: Config, d: State, f: Faults)
    requires Sensible(source, i) && SignatureAt(source, i.stat) != s.signature
    requires LoadRules(source[i.load], lib, i.loadFails).Some?
    requires i.publish == PublishSpec(c, d, source[i.load].rules, f).1
    ensures var rules := source[i.load].rules;
            ReloadSpec(s, source, i, lib).signature != SignatureAt(source, i.stat) <==>
              && !f.load && Mergeable(c, d, rules) && f.counter.Succeeds?
              && if f.capture.Some? then f.capture.value == PolicyError
                 else RollbackWorks(c, f) && PoliciesRaise(c, d, rules, f)
  {
    hide PublishSpec, Mergeable, PoliciesRaise, RollbackWorks;
    PolicyErrorExactly(c, d, source[i.load].rules, f);
    FailedPollKeepsActive(s, source, i, lib);
  }

  /** The policies were written, but signing the message or replacing the live file failed. */
  predicate LiveStepFails(c: Config, d: State, rules: RuleSet, f: Faults) {
    && f.capture.None? && f.captureAgain.None? && !PoliciesRaise(c, d, rules, f)
    && (f.sign || !f.live.Succeeds?)
  }

  /** Such a failure is final: this version of the file is not tried again. */
  lemma LiveFailureIsFinal(s: Store, source: Source, i: PollInput, lib: Libraries, c: Config, d: State, f: Faults)
    requires Sensible(source, i) && SignatureAt(source, i.stat) != s.signature
    requires LoadRules(source[i.load], lib, i.loadFails).Some?
    requires i.publish == PublishSpec(c, d, source[i.load].rules, f).1
    requires LiveStepFails(c, d, source[i.load].rules, f)
    ensures ReloadSpec(s, source, i, lib) == s.(signature := SignatureAt(source, i.stat))
    ensures forall again: PollInput :: Sensible(source, again) && again.stat == i.stat ==>
              ReloadSpec(s.(signature := SignatureAt(source, i.stat)), source, again, lib) == s.(signature := SignatureAt(source, i.stat))
  {
    hide PublishSpec, Mergeable, PoliciesRaise, RollbackWorks;
    PublishSucceedsExactly(c, d, source[i.load].rules, f);
    PolicyErrorExactly(c, d, source[i.load].rules, f);
    FailedPollKeepsActive(s, source, i, lib);
  }

  /** After a poll that activates, the last good copy and the active rules are both the loaded ones. */
  lemma ActivationIsCopied(s: Store, source: Source, i: PollInput, lib: Libraries)
    requires Sensible(source, i) && SignatureAt(source, i.stat) != s.signature && Activates(source, i, lib)
    ensures var after := ReloadSpec(s, source, i, lib);
            source[i.load].Holds? && after.lastGood == source[i.load] && after.active == Some(source[i.load].rules)
  {
    hide ValidRules;
  }

  /** The rules a start uses: the source's if they load and are valid, otherwise a valid last good copy. */
  predicate Usable(file: RulesFile, lib: Libraries, fails: bool) {
    !fails && file.Holds? && ValidRules(file.rules, lib)
  }

  /**
   * A start succeeds exactly when the source or else the last good copy is usable and publishing and copying it work; the
   * chosen rules are then active and are the last good copy.
   */
  lemma StartsExactly(s: Store, source: Source, i: PollInput, backupFails: bool, lib: Libraries)
    requires Sensible(source, i)
    ensures var (after, ok) := StartSpec(s, source, i, backupFails, lib);
            var fromSource := Usable(source[i.load], lib, i.loadFails);
            && (ok <==> (fromSource || Usable(s.lastGood, lib, backupFails)) && i.publish.Published? && i.write.Succeeds?)
            && (ok ==> after.lastGood == (if fromSource then source[i.load] else s.lastGood)
                       && after.lastGood.Holds? && after.active == Some(after.lastGood.rules))
            && (!ok ==> after.active == s.active)
  {
    hide ValidRules;
  }
}
