/** Interleaved editors behave like one after the other in lock order, and no valid version is lost. */
module EditingSafety {
  import opened Basics
  import opened Rules
  import opened UserDomains
  import opened Validation
  import opened ManagedData
  import opened RuleEdits
  import opened Editing

  // ---- Serial execution ----

  datatype Entry = Entry(op: Op, faults: OpFaults)

  function Replay(disk: Disk, log: seq<Entry>, t: Tools): Disk
    decreases |log|
  {
    if log == [] then disk
    else
      var last := log[|log| - 1];
      OpSpec(Replay(disk, log[..|log| - 1], t), last.op, t, last.faults).0
  }

  lemma ReplayMore(disk: Disk, log: seq<Entry>, e: Entry, t: Tools)
    ensures Replay(disk, log + [e], t) == OpSpec(Replay(disk, log, t), e.op, t, e.faults).0
  {
    hide OpSpec;
    assert (log + [e])[..|log|] == log;
  }

  // ---- Interleaved execution ----

  datatype Phase =
    | Waiting(entry: Entry)
    | Locked(entry: Entry)
    | Prepared(entry: Entry, rules: RuleSet)
    | Archived(entry: Entry, rules: RuleSet, version: Option<Version>)

  /** `holder` owns the lock; `log` lists the finished operations in the order they held it. */
  datatype System = System(disk: Disk, holder: Option<nat>, clients: map<nat, Phase>, log: seq<Entry>)

  /** A process arrives with an operation, or does its next step: lock, read, archive, replace and unlock. */
  datatype Step = Arrive(id: nat, entry: Entry) | Advance(id: nat)

  function Finished(s: System, id: nat, disk: Disk, entry: Entry): System {
    System(disk, None, s.clients - {id}, s.log + [entry])
  }

  function AdvanceHolder(s: System, id: nat, phase: Phase, t: Tools): System {
    match phase
    case Waiting(_) => s
    case Locked(e) =>
      (match PrepareSpec(s.disk, e.op, t, e.faults)
       case None => Finished(s, id, s.disk, e)
       case Some(rules) => s.(clients := s.clients[id := Prepared(e, rules)]))
    case Prepared(e, rules) =>
      var (history, archive) := ArchiveSpec(s.disk, rules, t, e.faults);
      var disk := Disk(s.disk.file, history);
      if archive.Continue? then s.(disk := disk, clients := s.clients[id := Archived(e, rules, archive.version)])
      else Finished(s, id, disk, e)
    case Archived(e, rules, version) =>
      Finished(s, id, Disk(ReplaceSpec(s.disk.file, rules, version, e.faults.replace).0, s.disk.history), e)
  }

  /** A step that is not enabled changes nothing: only the lock holder proceeds, and only a free lock is taken. */
  function Next(s: System, step: Step, t: Tools): System {
    match step
    case Arrive(id, entry) => if id in s.clients then s else s.(clients := s.clients[id := Waiting(entry)])
    case Advance(id) =>
      if id !in s.clients then s
      else if s.holder == Some(id) then AdvanceHolder(s, id, s.clients[id], t)
      else if s.holder.None? && s.clients[id].Waiting? then
        System(s.disk, Some(id), s.clients[id := Locked(s.clients[id].entry)], s.log)
      else s
  }

  function Interleave(s: System, steps: seq<Step>, t: Tools): System
    decreases |steps|
  {
    if steps == [] then s else Interleave(Next(s, steps[0], t), steps[1..], t)
  }

  // ---- Refinement ----

  /** What the lock holder has done so far is the beginning of its operation on the disk it found. */
  predicate Underway(found: Disk, disk: Disk, phase: Phase, t: Tools) {
    match phase
    case Waiting(_) => false
    case Locked(_) => disk == found
    case Prepared(e, rules) => disk == found && PrepareSpec(found, e.op, t, e.faults) == Some(rules)
    case Archived(e, rules, version) =>
      && PrepareSpec(found, e.op, t, e.faults) == Some(rules) && disk.file == found.file
      && ArchiveSpec(found, rules, t, e.faults) == (disk.history, Continue(version))
  }

  predicate Serializable(init: Disk, s: System, t: Tools) {
    match s.holder
    case None => s.disk == Replay(init, s.log, t)
    case Some(id) => id in s.clients && Underway(Replay(init, s.log, t), s.disk, s.clients[id], t)
  }

  lemma HolderStep(init: Disk, s: System, id: nat, t: Tools)
    requires Serializable(init, s, t) && s.holder == Some(id)
    ensures Serializable(init, AdvanceHolder(s, id, s.clients[id], t), t)
  {
    hide Replay, PrepareSpec, SnapshotSpec, ValidRules, RevisionOf;
    ReplayMore(init, s.log, s.clients[id].entry, t);
  }

  lemma NextSerializable(init: Disk, s: System, step: Step, t: Tools)
    requires Serializable(init, s, t)
    ensures Serializable(init, Next(s, step, t), t)
  {
    hide Replay, AdvanceHolder, PrepareSpec, ArchiveSpec;
    if step.Advance? && s.holder == Some(step.id) { HolderStep(init, s, step.id, t); }
  }

  /**
   * Under every interleaving of editors, whenever the lock is free the disk is what the finished operations produce one
   * after the other in lock order.
   */
  lemma {:induction false} EditsAreSerial(init: Disk, s: System, steps: seq<Step>, t: Tools)
    requires Serializable(init, s, t)
    ensures Serializable(init, Interleave(s, steps, t), t)
    decreases |steps|
  {
    hide Next, Serializable;
    if steps != [] {
      NextSerializable(init, s, steps[0], t);
      EditsAreSerial(init, Next(s, steps[0], t), steps[1..], t);
    }
  }

  /** Starting with no editor at work, and ending with the lock free. */
  lemma FinalFileIsTheFold(init: Disk, steps: seq<Step>, t: Tools)
    requires Interleave(System(init, None, map[], []), steps, t).holder.None?
    ensures var last := Interleave(System(init, None, map[], []), steps, t);
            last.disk == Replay(init, last.log, t)
  {
    hide Interleave;
    EditsAreSerial(init, System(init, None, map[], []), steps, t);
  }

  lemma OneStep(s: System, id: nat, rest: seq<Step>, t: Tools)
    ensures Interleave(s, [Advance(id)] + rest, t) == Interleave(Next(s, Advance(id), t), rest, t)
  {
    hide Next;
    assert ([Advance(id)] + rest)[1..] == rest;
  }

  function Advances(id: nat, n: nat): seq<Step> {
    if n == 0 then [] else [Advance(id)] + Advances(id, n - 1)
  }

  /** Without a client of that number its steps change nothing. */
  lemma {:induction false} GoneStays(s: System, id: nat, n: nat, t: Tools)
    requires id !in s.clients
    ensures Interleave(s, Advances(id, n), t) == s
  {
    if n > 0 {
      OneStep(s, id, Advances(id, n - 1), t);
      GoneStays(s, id, n - 1, t);
    }
  }

  /** What is left when an editor is done. */
  predicate Done(s: System, id: nat, e: Entry, disk: Disk, after: System) {
    after.disk == disk && after.holder.None? && after.clients == s.clients - {id} && after.log == s.log + [e]
  }

  lemma LastStep(s: System, id: nat, e: Entry, rules: RuleSet, version: Option<Version>, n: nat, t: Tools)
    requires s.holder == Some(id) && id in s.clients && s.clients[id] == Archived(e, rules, version) && n >= 1
    ensures Done(s, id, e, Disk(ReplaceSpec(s.disk.file, rules, version, e.faults.replace).0, s.disk.history), Interleave(s, Advances(id, n), t))
  {
    hide ReplaceSpec;
    OneStep(s, id, Advances(id, n - 1), t);
    GoneStays(Next(s, Advance(id), t), id, n - 1, t);
  }

  lemma ArchiveStep(s: System, id: nat, e: Entry, rules: RuleSet, n: nat, t: Tools)
    requires s.holder == Some(id) && id in s.clients && s.clients[id] == Prepared(e, rules) && n >= 2
    ensures Done(s, id, e, WriteSpec(s.disk, rules, t, e.faults).0, Interleave(s, Advances(id, n), t))
  {
    hide ReplaceSpec, ArchiveSpec;
    var next := Next(s, Advance(id), t);
    OneStep(s, id, Advances(id, n - 1), t);
    var (history, archive) := ArchiveSpec(s.disk, rules, t, e.faults);
    if archive.Continue? {
      LastStep(next, id, e, rules, archive.version, n - 1, t);
      assert next.clients - {id} == s.clients - {id};
    } else {
      GoneStays(next, id, n - 1, t);
    }
  }

  lemma LockedStep(s: System, id: nat, e: Entry, n: nat, t: Tools)
    requires s.holder == Some(id) && id in s.clients && s.clients[id] == Locked(e) && n >= 3
    ensures Done(s, id, e, OpSpec(s.disk, e.op, t, e.faults).0, Interleave(s, Advances(id, n), t))
  {
    hide PrepareSpec, WriteSpec;
    var next := Next(s, Advance(id), t);
    OneStep(s, id, Advances(id, n - 1), t);
    var rules := PrepareSpec(s.disk, e.op, t, e.faults);
    if rules.Some? {
      ArchiveStep(next, id, e, rules.value, n - 1, t);
      assert next.clients - {id} == s.clients - {id};
    } else {
      GoneStays(next, id, n - 1, t);
    }
  }

  /** With the lock free a waiting editor needs four steps of its own: it has then done its operation and freed the lock. */
  lemma WaitingEditorFinishes(s: System, id: nat, t: Tools)
    requires s.holder.None? && id in s.clients && s.clients[id].Waiting?
    ensures Done(s, id, s.clients[id].entry, OpSpec(s.disk, s.clients[id].entry.op, t, s.clients[id].entry.faults).0,
                 Interleave(s, Advances(id, 4), t))
  {
    hide OpSpec;
    var next := Next(s, Advance(id), t);
    OneStep(s, id, Advances(id, 3), t);
    LockedStep(next, id, s.clients[id].entry, 3, t);
    assert next.clients - {id} == s.clients - {id};
  }

  // ---- Compare-and-set ----

  /**
   * A successful compare-and-set replaced exactly the version its caller named, by valid rules that can be published
   * with the additions read; any other base is left alone.
   */
  lemma CompareAndSetExact(disk: Disk, rules: RuleSet, expected: Revision, users: Option<UserState>, t: Tools, f: OpFaults)
    ensures var (after, result) := OpSpec(disk, CompareAndApply(rules, expected, users), t, f);
            && (result.Replaced? || result.ReplacedThenFailed? || result.Unchanged? ==>
                && disk.file.Holds? && ValidRules(disk.file.rules, t.lib) && after.file == Holds(rules)
                && ValidRules(rules, t.lib) && users.Some? && Publishable(Merge(rules, users.value))
                && forall named :: RevisionOf(named) == expected <==> named == disk.file.rules)
            && (disk.file.Holds? && RevisionOf(disk.file.rules) != expected ==> after == disk && result == Refused)
  {
    hide ValidRules, RevisionOf, SnapshotSpec, Publishable, Merge;
    var (after, result) := OpSpec(disk, CompareAndApply(rules, expected, users), t, f);
    if !result.Refused? {
      assert RevisionOf(disk.file.rules) == expected;
      forall named ensures RevisionOf(named) == expected <==> named == disk.file.rules {
        RevisionIdentifiesRules(named, disk.file.rules);
      }
    }
  }

  // ---- Nothing valid is lost ----

  /** The rule set can be had again: from the history, or because it is active. */
  ghost predicate Recoverable(disk: Disk, r: RuleSet, lib: Libraries) {
    disk.file == Holds(r) || exists v :: LoadVersion(disk.history, v, lib) == Some(r)
  }

  lemma SnapshotKeeps(history: map<Version, RuleSet>, rules: RuleSet, f: OpFaults, lib: Libraries, v: Version)
    requires LoadVersion(history, v, lib).Some?
    ensures LoadVersion(history, v, lib).value == rules || LoadVersion(SnapshotSpec(history, rules, f).0, v, lib) == LoadVersion(history, v, lib)
  {
    hide ValidRules, RevisionOf;
    RevisionIdentifiesRules(history[v], rules);
  }

  lemma SnapshotLoads(history: map<Version, RuleSet>, rules: RuleSet, f: OpFaults, lib: Libraries)
    requires ValidRules(rules, lib) && SnapshotSpec(history, rules, f).1.Some?
    ensures var (after, v) := SnapshotSpec(history, rules, f);
            v.value !in history && LoadVersion(after, v.value, lib) == Some(rules)
  {
    hide ValidRules, RevisionOf;
  }

  /** What an operation archives and replaces, with the predecessor readable when it is archived. */
  lemma WriteKeeps(disk: Disk, rules: RuleSet, t: Tools, f: OpFaults, r: RuleSet)
    requires !f.reread && ValidRules(r, t.lib) && Recoverable(disk, r, t.lib)
    ensures Recoverable(WriteSpec(disk, rules, t, f).0, r, t.lib)
  {
    hide ValidRules, RevisionOf, SnapshotSpec, LoadVersion;
    var after := WriteSpec(disk, rules, t, f).0;
    var current := LoadRules(disk.file, t.lib, false);
    if disk.file == Holds(r) {
      if after.file != disk.file {
        SnapshotLoads(disk.history, r, f, t.lib);
      }
    } else {
      var v :| LoadVersion(disk.history, v, t.lib) == Some(r);
      if current.Some? {
        SnapshotKeeps(disk.history, current.value, f, t.lib, v);
      }
    }
  }

  lemma OpKeeps(disk: Disk, op: Op, t: Tools, f: OpFaults, r: RuleSet)
    requires !f.reread && ValidRules(r, t.lib) && Recoverable(disk, r, t.lib)
    ensures Recoverable(OpSpec(disk, op, t, f).0, r, t.lib)
  {
    hide WriteSpec, ValidRules, Recoverable, PrepareSpec;
    var rules := PrepareSpec(disk, op, t, f);
    if rules.Some? { WriteKeeps(disk, rules.value, t, f, r); }
  }

  /** The archive step could read the active file in every operation of the log. */
  predicate Readable(log: seq<Entry>) {
    forall i :: 0 <= i < |log| ==> !log[i].faults.reread
  }

  lemma {:induction false} ReplayKeeps(disk: Disk, log: seq<Entry>, t: Tools, r: RuleSet)
    requires Readable(log) && ValidRules(r, t.lib) && Recoverable(disk, r, t.lib)
    ensures Recoverable(Replay(disk, log, t), r, t.lib)
    decreases |log|
  {
    hide OpSpec, ValidRules, Recoverable;
    if log != [] {
      var last := log[|log| - 1];
      assert !last.faults.reread;
      ReplayKeeps(disk, log[..|log| - 1], t, r);
      OpKeeps(Replay(disk, log[..|log| - 1], t), last.op, t, last.faults, r);
    }
  }

  lemma {:induction false} ReplaySplit(disk: Disk, a: seq<Entry>, b: seq<Entry>, t: Tools)
    ensures Replay(disk, a + b, t) == Replay(Replay(disk, a, t), b, t)
    decreases |b|
  {
    hide OpSpec;
    if b == [] {
      assert a + b == a;
    } else {
      assert (a + b)[..|a + b| - 1] == a + b[..|b| - 1];
      ReplaySplit(disk, a, b[..|b| - 1], t);
    }
  }

  /** Every valid rule set that was active at some point of a run is active at its end or loadable from the history. */
  lemma NothingValidIsLost(disk: Disk, log: seq<Entry>, t: Tools, k: nat, r: RuleSet)
    requires Readable(log) && k <= |log|
    requires Replay(disk, log[..k], t).file == Holds(r) && ValidRules(r, t.lib)
    ensures Recoverable(Replay(disk, log, t), r, t.lib)
  {
    hide OpSpec, ValidRules, Replay;
    assert log == log[..k] + log[k..];
    ReplaySplit(disk, log[..k], log[k..], t);
    ReplayKeeps(Replay(disk, log[..k], t), log[k..], t, r);
  }

  /** A successful replacement of valid rules archives them exactly when the archive step could read them. */
  lemma ArchivedExactlyWhenReadable(disk: Disk, rules: RuleSet, t: Tools, f: OpFaults)
    requires disk.file.Holds? && ValidRules(disk.file.rules, t.lib) && disk.file.rules != rules
    requires WriteSpec(disk, rules, t, f).1.Replaced?
    ensures var (after, result) := WriteSpec(disk, rules, t, f);
            && (result.archived.Some? <==> !f.reread)
            && (result.archived.Some? ==>
                result.archived.value !in disk.history && LoadVersion(after.history, result.archived.value, t.lib) == Some(disk.file.rules))
            && (f.reread ==> after.history == disk.history)
  {
    hide ValidRules, RevisionOf, SnapshotSpec, LoadVersion;
    if !f.reread { SnapshotLoads(disk.history, disk.file.rules, f, t.lib); }
  }

  /** The write would archive the active rules under exactly this version id. */
  predicate ArchivesAs(disk: Disk, rules: RuleSet, t: Tools, f: OpFaults, v: Version) {
    && ValidRules(rules, t.lib) && !f.prepare && !f.reread && !f.directory
    && disk.file.Holds? && ValidRules(disk.file.rules, t.lib) && disk.file.rules != rules
    && v == Version(f.stamp, RevisionOf(disk.file.rules), f.nonce)
  }

  /** A loadable version stays loadable, with the same rules, unless a write would archive under its very id. */
  lemma VersionsStayExactly(disk: Disk, rules: RuleSet, t: Tools, f: OpFaults, v: Version)
    requires LoadVersion(disk.history, v, t.lib).Some?
    ensures var after := WriteSpec(disk, rules, t, f).0.history;
            && (LoadVersion(after, v, t.lib).None? <==> ArchivesAs(disk, rules, t, f, v))
            && (LoadVersion(after, v, t.lib).Some? ==> LoadVersion(after, v, t.lib) == LoadVersion(disk.history, v, t.lib))
  {
    hide ValidRules, RevisionOf;
  }

  /** A version id used twice: the second creation fails, removes the first version, and leaves its content active. */
  lemma ClashRemovesVersion(disk: Disk, rules: RuleSet, t: Tools, f: OpFaults, v: Version)
    requires ArchivesAs(disk, rules, t, f, v) && LoadVersion(disk.history, v, t.lib).Some?
    ensures WriteSpec(disk, rules, t, f) == (Disk(disk.file, disk.history - {v}), Refused)
    ensures LoadVersion(disk.history, v, t.lib) == Some(disk.file.rules)
  {
    hide ValidRules, RevisionOf;
    RevisionIdentifiesRules(disk.history[v], disk.file.rules);
  }

  /** Rolling back to an archived version makes exactly that version active and keeps the one it replaced. */
  lemma RollbackRestores(disk: Disk, v: Version, t: Tools, f: OpFaults)
    requires OpSpec(disk, Rollback(v, true), t, f).1.Replaced? && !f.reread
    ensures var after := OpSpec(disk, Rollback(v, true), t, f).0;
            && LoadVersion(disk.history, v, t.lib).Some? && after.file == Holds(LoadVersion(disk.history, v, t.lib).value)
            && disk.file.Holds? && Recoverable(after, disk.file.rules, t.lib)
  {
    hide ValidRules, RevisionOf, SnapshotSpec, LoadVersion;
    var rules := PrepareSpec(disk, Rollback(v, true), t, f).value;
    WriteKeeps(disk, rules, t, f, disk.file.rules);
  }
}
