/** Changing the rule file: read, check, archive and replace, each operation under one file lock. */
module Editing {
  import opened Basics
  import opened Rules
  import opened Validation
  import opened UserDomains
  import opened ManagedData
  import opened RuleEdits
  import Publication

  type Write = Publication.Write

  /** The active rule file. `Damaged` is content that cannot be read as a rule set. */
  datatype RulesFile = Missing | Damaged | Holds(rules: RuleSet)

  /** A version id: time stamp, digest of the archived rules, random suffix. The digest is taken as collision-free. */
  datatype Version = Version(stamp: string, digest: Revision, nonce: string)

  datatype Disk = Disk(file: RulesFile, history: map<Version, RuleSet>)

  /** `users` is what the user file held before the lock was taken, None where it could not be loaded. */
  datatype Op =
    | Command(edit: Edit)
    | Apply(rules: RuleSet)
    | CompareAndApply(rules: RuleSet, expected: Revision, users: Option<UserState>)
    | Rollback(version: Version, confirmed: bool)

  /** Time, randomness and the steps that can raise. `reread` is a failing read of the active file for the archive. */
  datatype OpFaults = OpFaults(
    load: bool, loadVersion: bool, prepare: bool, reread: bool, stamp: string, nonce: string, directory: bool, write: bool,
    replace: Write)

  datatype OpResult = Refused | Unchanged | Replaced(archived: Option<Version>) | ReplacedThenFailed(archived: Option<Version>)

  function LoadRules(file: RulesFile, lib: Libraries, fails: bool): Option<RuleSet> {
    if !fails && file.Holds? && ValidRules(file.rules, lib) then Some(file.rules) else None
  }

  function LoadVersion(history: map<Version, RuleSet>, v: Version, lib: Libraries): Option<RuleSet> {
    if v in history && ValidRules(history[v], lib) && RevisionOf(history[v]) == v.digest then Some(history[v]) else None
  }

  // ---- The parts of an operation ----

  /** Reading under the lock: the rules to write, None where the operation raises before writing. */
  function PrepareSpec(disk: Disk, op: Op, t: Tools, f: OpFaults): Option<RuleSet> {
    match op
    case Apply(rules) => Some(rules)
    case Command(edit) =>
      (match LoadRules(disk.file, t.lib, f.load)
       case None => None
       case Some(current) => Edited(current, edit, t))
    case CompareAndApply(rules, expected, users) =>
      if !ValidRules(rules, t.lib) || users.None? || !Publishable(Merge(rules, users.value)) then None
      else
        (match LoadRules(disk.file, t.lib, f.load)
         case None => None
         case Some(current) => if RevisionOf(current) == expected then Some(rules) else None)
    case Rollback(version, confirmed) =>
      var rules := if f.loadVersion then None else LoadVersion(disk.history, version, t.lib);
      var current := LoadRules(disk.file, t.lib, f.load);
      if rules.None? || current.None? || !confirmed || rules == current then None else rules
  }

  datatype Archive = Stop | SameRules | Continue(version: Option<Version>)

  /** Creating a version file: an existing one of that name makes the creation fail, and the clean-up removes it. */
  function SnapshotSpec(history: map<Version, RuleSet>, rules: RuleSet, f: OpFaults): (map<Version, RuleSet>, Option<Version>) {
    var v := Version(f.stamp, RevisionOf(rules), f.nonce);
    if f.directory then (history, None)
    else if v in history || f.write then (history - {v}, None)
    else (history[v := rules], Some(v))
  }

  /** Validating the new rules and archiving a readable, different predecessor. */
  function ArchiveSpec(disk: Disk, rules: RuleSet, t: Tools, f: OpFaults): (map<Version, RuleSet>, Archive) {
    if !ValidRules(rules, t.lib) || f.prepare then (disk.history, Stop)
    else
      match LoadRules(disk.file, t.lib, f.reread)
      case None => (disk.history, Continue(None))
      case Some(current) =>
        if current == rules then (disk.history, SameRules)
        else
          var (history, version) := SnapshotSpec(disk.history, current, f);
          (history, if version.None? then Stop else Continue(version))
  }

  function ReplaceSpec(file: RulesFile, rules: RuleSet, version: Option<Version>, w: Write): (RulesFile, OpResult) {
    match w
    case FailsBefore => (file, Refused)
    case FailsAfter => (Holds(rules), ReplacedThenFailed(version))
    case Succeeds => (Holds(rules), Replaced(version))
  }

  function WriteSpec(disk: Disk, rules: RuleSet, t: Tools, f: OpFaults): (Disk, OpResult) {
    var (history, archive) := ArchiveSpec(disk, rules, t, f);
    match archive
    case Stop => (Disk(disk.file, history), Refused)
    case SameRules => (Disk(disk.file, history), Unchanged)
    case Continue(version) =>
      var (file, result) := ReplaceSpec(disk.file, rules, version, f.replace);
      (Disk(file, history), result)
  }

  /** One whole operation, as it behaves when nothing else runs. */
  function OpSpec(disk: Disk, op: Op, t: Tools, f: OpFaults): (Disk, OpResult) {
    match PrepareSpec(disk, op, t, f)
    case None => (disk, Refused)
    case Some(rules) => WriteSpec(disk, rules, t, f)
  }

  // ---- The operations as they run ----

  class RulesEditor {
    const tools: Tools
    var file: RulesFile
    var history: map<Version, RuleSet>

    ghost function Now(): Disk
      reads this
    {
      Disk(file, history)
    }

    constructor (tools: Tools, file: RulesFile, history: map<Version, RuleSet>)
      ensures this.tools == tools && Now() == Disk(file, history)
    {
      this.tools, this.file, this.history := tools, file, history;
    }

    method CreateHistorySnapshot(rules: RuleSet, f: OpFaults) returns (version: Option<Version>)
      modifies this`history
      ensures (history, version) == SnapshotSpec(old(history), rules, f)
    {
      if f.directory { return None; }
      var target := Version(f.stamp, RevisionOf(rules), f.nonce);
      if target in history || f.write {
        history := history - {target};
        return None;
      }
      history := history[target := rules];
      return Some(target);
    }

    method WriteRulesAtomic(rules: RuleSet, f: OpFaults) returns (result: OpResult)
      modifies this
      ensures (Now(), result) == WriteSpec(old(Now()), rules, tools, f)
    {
      hide ValidRules, RevisionOf;
      if !ValidRules(rules, tools.lib) || f.prepare { return Refused; }
      var version := None;
      var current := LoadRules(file, tools.lib, f.reread);
      if current.Some? {
        if current.value == rules { return Unchanged; }
        version := CreateHistorySnapshot(current.value, f);
        if version.None? { return Refused; }
      }
      if f.replace.FailsBefore? { return Refused; }
      file := Holds(rules);
      return if f.replace.FailsAfter? then ReplacedThenFailed(version) else Replaced(version);
    }

    method Execute(op: Op, f: OpFaults) returns (result: OpResult)
      modifies this
      ensures (Now(), result) == OpSpec(old(Now()), op, tools, f)
    {
      hide WriteSpec, ValidRules, RevisionOf, Edited, Publishable, Merge;
      match op {
        case Apply(rules) => result := WriteRulesAtomic(rules, f);
        case Command(edit) =>
          var current := LoadRules(file, tools.lib, f.load);
          if current.None? { return Refused; }
          var changed := Edited(current.value, edit, tools);
          if changed.None? { return Refused; }
          result := WriteRulesAtomic(changed.value, f);
        case CompareAndApply(rules, expected, users) =>
          if !ValidRules(rules, tools.lib) || users.None? { return Refused; }
          var effective := MergeUsers(rules, users.value);
          if !Publishable(effective) { return Refused; }
          var current := LoadRules(file, tools.lib, f.load);
          if current.None? || RevisionOf(current.value) != expected { return Refused; }
          result := WriteRulesAtomic(rules, f);
        case Rollback(version, confirmed) =>
          var rules := if f.loadVersion then None else LoadVersion(history, version, tools.lib);
          if rules.None? { return Refused; }
          var current := LoadRules(file, tools.lib, f.load);
          if current.None? || !confirmed || current == rules { return Refused; }
          result := WriteRulesAtomic(rules.value, f);
      }
    }
  }
}
