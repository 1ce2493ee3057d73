/** What each editing operation does, field by field, and exactly when the rule file is replaced by it. */
module EditEffects {
  import opened Basics
  import TextOrder
  import opened TimeWindows
  import opened Rules
  import opened Validation
  import opened UserDomains
  import opened ManagedData
  import opened RuleEdits
  import opened Editing

  // ---- Changes to one block ----

  /** The command runs, and the block found by the id becomes `now`; everything else stays. */
  ghost predicate Becomes(rules: RuleSet, e: Edit, t: Tools, now: RuleBlock) {
    !e.SetProfile?
    && var i := FindBlock(rules.blocks, e.blockId);
    && i.Some? && now.id == rules.blocks[i.value].id
    && Edited(rules, e, t) == Some(rules.(blocks := rules.blocks[..i.value] + [now] + rules.blocks[i.value + 1..]))
  }

  predicate Gains(s: seq<string>, r: seq<string>, x: string) {
    TextOrder.Sorted(r) && multiset(r) == multiset(s) + multiset{x}
  }

  lemma Replaced<T>(s: seq<T>, i: nat, x: T)
    requires i < |s|
    ensures s[i := x] == s[..i] + [x] + s[i + 1..]
  {
  }

  predicate Found(rules: RuleSet, id: string) { exists b :: b in rules.blocks && b.id == id }

  lemma FoundExactly(rules: RuleSet, id: string)
    ensures Found(rules, id) <==> FindBlock(rules.blocks, id).Some?
  {
    var i := FindBlock(rules.blocks, id);
    if i.Some? { assert rules.blocks[i.value] in rules.blocks; }
  }

  /** `add-domain`, `add-url-pattern` and `add-exception-domain`. */
  lemma AddEntryEffect(rules: RuleSet, id: string, list: StringList, x: string, t: Tools, b: RuleBlock) returns (now: RuleBlock)
    requires FindBlock(rules.blocks, id).Some? && b == rules.blocks[FindBlock(rules.blocks, id).value]
    ensures match list
            case TargetDomains =>
              && now == b.(targets := b.targets.(domains := now.targets.domains))
              && (ValidDomain(x, t.lib) && x !in b.targets.domains ==>
                    Becomes(rules, AddEntry(id, list, x), t, now) && Gains(b.targets.domains, now.targets.domains, x))
              && (!ValidDomain(x, t.lib) || x in b.targets.domains ==> Edited(rules, AddEntry(id, list, x), t).None?)
            case TargetPatterns =>
              && now == b.(targets := b.targets.(urlPatterns := now.targets.urlPatterns))
              && (x !in b.targets.urlPatterns ==>
                    Becomes(rules, AddEntry(id, list, x), t, now) && Gains(b.targets.urlPatterns, now.targets.urlPatterns, x))
              && (x in b.targets.urlPatterns ==> Edited(rules, AddEntry(id, list, x), t).None?)
            case ExceptionDomains =>
              && now == b.(exceptions := b.exceptions.(domains := now.exceptions.domains))
              && (x !in b.exceptions.domains ==>
                    Becomes(rules, AddEntry(id, list, x), t, now) && Gains(b.exceptions.domains, now.exceptions.domains, x))
              && (x in b.exceptions.domains ==> Edited(rules, AddEntry(id, list, x), t).None?)
  {
    hide ValidDomain, TextOrder.Sort, TextOrder.Sorted;
    var i := FindBlock(rules.blocks, id).value;
    TextOrder.SortSorted(Entries(b, list) + [x]);
    now := WithEntries(b, list, TextOrder.Sort(Entries(b, list) + [x]));
    Replaced(rules.blocks, i, now);
  }

  /** `remove-domain`, `remove-url-pattern` and `remove-exception-domain`. */
  lemma RemoveEntryEffect(rules: RuleSet, id: string, list: StringList, x: string, t: Tools, b: RuleBlock) returns (now: RuleBlock)
    requires FindBlock(rules.blocks, id).Some? && b == rules.blocks[FindBlock(rules.blocks, id).value]
    ensures match list
            case TargetDomains =>
              && now == b.(targets := b.targets.(domains := now.targets.domains))
              && (ValidDomain(x, t.lib) && x in b.targets.domains ==>
                    Becomes(rules, RemoveEntry(id, list, x), t, now) && Loses(b.targets.domains, now.targets.domains, x))
              && (!ValidDomain(x, t.lib) || x !in b.targets.domains ==> Edited(rules, RemoveEntry(id, list, x), t).None?)
            case TargetPatterns =>
              && now == b.(targets := b.targets.(urlPatterns := now.targets.urlPatterns))
              && (x in b.targets.urlPatterns ==>
                    Becomes(rules, RemoveEntry(id, list, x), t, now) && Loses(b.targets.urlPatterns, now.targets.urlPatterns, x))
              && (x !in b.targets.urlPatterns ==> Edited(rules, RemoveEntry(id, list, x), t).None?)
            case ExceptionDomains =>
              && now == b.(exceptions := b.exceptions.(domains := now.exceptions.domains))
              && (x in b.exceptions.domains ==>
                    Becomes(rules, RemoveEntry(id, list, x), t, now) && Loses(b.exceptions.domains, now.exceptions.domains, x))
              && (x !in b.exceptions.domains ==> Edited(rules, RemoveEntry(id, list, x), t).None?)
  {
    hide ValidDomain, Remove, Loses;
    var i := FindBlock(rules.blocks, id).value;
    if x in Entries(b, list) { RemoveLoses(Entries(b, list), x); }
    now := WithEntries(b, list, Remove(Entries(b, list), x));
    Replaced(rules.blocks, i, now);
  }

  /** `add-url-regex` and `remove-url-regex`; the second undoes the first. */
  lemma RegexEffects(rules: RuleSet, id: string, r: UrlRegex, t: Tools, b: RuleBlock) returns (more: RuleBlock, fewer: RuleBlock)
    requires FindBlock(rules.blocks, id).Some? && b == rules.blocks[FindBlock(rules.blocks, id).value]
    ensures more == b.(targets := b.targets.(urlRegex := b.targets.urlRegex + [r]))
    ensures fewer == b.(targets := b.targets.(urlRegex := fewer.targets.urlRegex))
    ensures r !in b.targets.urlRegex ==>
              && Becomes(rules, AddRegex(id, r), t, more) && Edited(rules, RemoveRegex(id, r), t).None?
              && Edited(Edited(rules, AddRegex(id, r), t).value, RemoveRegex(id, r), t) == Some(rules)
    ensures r in b.targets.urlRegex ==>
              && Edited(rules, AddRegex(id, r), t).None?
              && Becomes(rules, RemoveRegex(id, r), t, fewer) && Loses(b.targets.urlRegex, fewer.targets.urlRegex, r)
  {
    hide Remove, Loses;
    var i := FindBlock(rules.blocks, id).value;
    more := WithRegexes(b, b.targets.urlRegex + [r]);
    fewer := WithRegexes(b, Remove(b.targets.urlRegex, r));
    Replaced(rules.blocks, i, more);
    Replaced(rules.blocks, i, fewer);
    if r in b.targets.urlRegex {
      RemoveLoses(b.targets.urlRegex, r);
    } else {
      RemoveLast(b.targets.urlRegex, r);
      BackAgain(rules, i, id, more, b);
    }
  }

  lemma RemoveLast<T>(s: seq<T>, x: T)
    requires x !in s
    ensures Remove(s + [x], x) == s
  {
    RemoveFirst(s + [x], |s|);
    assert (s + [x])[..|s|] + (s + [x])[|s| + 1..] == s;
  }

  /** After replacing the block found by an id, the id finds the replacement, and putting the old block back restores all. */
  lemma BackAgain(rules: RuleSet, i: nat, id: string, now: RuleBlock, b: RuleBlock)
    requires FindBlock(rules.blocks, id) == Some(i) && b == rules.blocks[i] && now.id == b.id
    ensures FindBlock(rules.blocks[i := now], id) == Some(i)
    ensures rules.(blocks := rules.blocks[i := now][i := b]) == rules
  {
    SameIdSameIndex(rules.blocks, rules.blocks[i := now], id);
    assert rules.blocks[i := now][i := b] == rules.blocks;
  }

  /** A command that changes the block it finds. */
  lemma BlockEdited(rules: RuleSet, e: Edit, t: Tools, b: RuleBlock, now: RuleBlock)
    requires !e.SetProfile? && !e.CreateBlock? && !e.DeleteBlock? && FindBlock(rules.blocks, e.blockId).Some?
    requires b == rules.blocks[FindBlock(rules.blocks, e.blockId).value] && now.id == b.id
    ensures EditBlock(b, rules.blocks, e, t) == Some(now) ==> Becomes(rules, e, t, now)
    ensures EditBlock(b, rules.blocks, e, t).None? ==> Edited(rules, e, t).None?
  {
    hide EditBlock;
    Replaced(rules.blocks, FindBlock(rules.blocks, e.blockId).value, now);
  }

  predicate SetsSomething(e: Edit)
    requires e.SetBlock?
  {
    e.newName.Some? || e.newAction.Some? || e.newPriority.Some? || e.newEnabled.Some?
  }

  lemma SettingsMean(b: RuleBlock, e: Edit)
    requires e.SetBlock?
    ensures var now := Settings(b, e);
            && now.id == b.id && now.targets == b.targets && now.exceptions == b.exceptions && now.schedule == b.schedule
            && now.name == (match e.newName case Some(x) => x case None => b.name)
            && now.action == (match e.newAction case Some(x) => x case None => b.action)
            && now.permissions ==
               b.permissions.(addDomains := match e.newAction case Some(x) => x == Block case None => b.permissions.addDomains)
            && now.priority == (match e.newPriority case Some(x) => x case None => b.priority)
            && now.enabled == (match e.newEnabled case Some(x) => x case None => b.enabled)
  {
  }

  /** `set-block`: each setting given is taken over, every other one stays; the action decides whether children may add domains. */
  lemma SetBlockEffect(rules: RuleSet, e: Edit, t: Tools, b: RuleBlock) returns (now: RuleBlock)
    requires e.SetBlock? && FindBlock(rules.blocks, e.blockId).Some? && b == rules.blocks[FindBlock(rules.blocks, e.blockId).value]
    ensures now.id == b.id && now.targets == b.targets && now.exceptions == b.exceptions && now.schedule == b.schedule
    ensures now.name == (match e.newName case Some(x) => x case None => b.name)
    ensures now.action == (match e.newAction case Some(x) => x case None => b.action)
    ensures now.permissions ==
            b.permissions.(addDomains := match e.newAction case Some(x) => x == Block case None => b.permissions.addDomains)
    ensures now.priority == (match e.newPriority case Some(x) => x case None => b.priority)
    ensures now.enabled == (match e.newEnabled case Some(x) => x case None => b.enabled)
    ensures if SetsSomething(e)
               && (e.newName.Some? ==> forall o :: o in rules.blocks && o.id != e.blockId ==> t.fold(o.name) != t.fold(e.newName.value))
            then Becomes(rules, e, t, now) else Edited(rules, e, t).None?
  {
    hide Settings, NameTaken, Edited, Becomes;
    now := Settings(b, e);
    SettingsMean(b, e);
    if e.newName.Some? { NameTakenExactly(rules.blocks, e.newName.value, e.blockId, t.fold); }
    BlockEdited(rules, e, t, b, now);
  }

  lemma NameTakenExactly(blocks: seq<RuleBlock>, name: string, id: string, fold: string -> string)
    ensures NameTaken(blocks, name, Some(id), fold) <==> exists o :: o in blocks && o.id != id && fold(o.name) == fold(name)
    ensures NameTaken(blocks, name, None, fold) <==> exists o :: o in blocks && fold(o.name) == fold(name)
  {
  }

  /** The four schedule commands, as one law: which schedule the block has afterwards, or that the command is refused. */
  lemma ScheduleEffect(rules: RuleSet, e: Edit, t: Tools, b: RuleBlock, next: Option<Schedule>)
    requires !e.SetProfile? && FindBlock(rules.blocks, e.blockId).Some?
    requires b == rules.blocks[FindBlock(rules.blocks, e.blockId).value]
    requires match e
             case AddWindow(_, zone, w) =>
               next == Some(Schedule(zone, (if b.schedule.Some? then b.schedule.value.windows else []) + [w]))
             case RemoveWindow(_, k) =>
               b.schedule.Some? && 1 <= k <= |b.schedule.value.windows| && WindowTaken(b.schedule.value, k - 1, next)
             case SetScheduleTimezone(_, zone) =>
               b.schedule.Some? && next == Some(Schedule(zone, b.schedule.value.windows))
             case ClearSchedule(_, confirmed) => next.None?
             case _ => false
    ensures if (e.AddWindow? ==> b.schedule.Some? ==> b.schedule.value.timezone == e.timezone)
               && (e.ClearSchedule? ==> e.confirmed && b.schedule.Some?)
            then Becomes(rules, e, t, b.(schedule := next)) else Edited(rules, e, t).None?
  {
    hide Edited, Becomes;
    BlockEdited(rules, e, t, b, b.(schedule := next));
    match e
    case AddWindow(_, zone, w) =>
      if b.schedule.None? { assert [] + [w] == [w]; }
    case RemoveWindow(_, k) =>
      var w := b.schedule.value.windows;
      assert |w[..k - 1] + w[k..]| == |w| - 1;
    case _ =>
  }

  /** The windows but the one at `k`; without any left there is no schedule. */
  predicate WindowTaken(s: Schedule, k: nat, next: Option<Schedule>)
    requires k < |s.windows|
  {
    if |s.windows| == 1 then next.None?
    else next.Some? && next.value.timezone == s.timezone && next.value.windows == s.windows[..k] + s.windows[k + 1..]
  }

  /** They are refused without a schedule, and a window is only taken out at one of the positions 1 to n. */
  lemma ScheduleRefusals(rules: RuleSet, id: string, zone: string, k: int, t: Tools, b: RuleBlock)
    requires FindBlock(rules.blocks, id).Some? && b == rules.blocks[FindBlock(rules.blocks, id).value]
    ensures b.schedule.None? ==>
              && Edited(rules, RemoveWindow(id, k), t).None? && Edited(rules, SetScheduleTimezone(id, zone), t).None?
              && Edited(rules, ClearSchedule(id, true), t).None?
    ensures b.schedule.Some? ==> (Edited(rules, RemoveWindow(id, k), t).None? <==> k < 1 || k > |b.schedule.value.windows|)
  {
  }

  lemma WindowTakenOut(rules: RuleSet, id: string, t: Tools, i: nat, zone: string, windows: seq<Window>, w: Window)
    requires FindBlock(rules.blocks, id) == Some(i) && i < |rules.blocks|
    requires rules.blocks[i].schedule == Some(Schedule(zone, windows + [w]))
    ensures Edited(rules, RemoveWindow(id, |windows| + 1), t) ==
            Some(rules.(blocks := rules.blocks[i := rules.blocks[i].(schedule :=
              if windows == [] then None else Some(Schedule(zone, windows)))]))
  {
    hide FindBlock;
    assert (windows + [w])[..|windows|] + (windows + [w])[|windows| + 1..] == windows;
  }

  lemma WindowAppended(rules: RuleSet, id: string, t: Tools, i: nat, zone: string, windows: seq<Window>, w: Window)
    requires FindBlock(rules.blocks, id) == Some(i) && i < |rules.blocks|
    requires windows == (if rules.blocks[i].schedule.Some? then rules.blocks[i].schedule.value.windows else [])
    requires Edited(rules, AddWindow(id, zone, w), t).Some?
    ensures Edited(rules, AddWindow(id, zone, w), t) ==
            Some(rules.(blocks := rules.blocks[i := rules.blocks[i].(schedule := Some(Schedule(zone, windows + [w])))]))
    ensures rules.blocks[i].schedule.Some? ==> rules.blocks[i].schedule.value.timezone == zone
  {
    hide FindBlock;
    if windows == [] { assert [] + [w] == [w]; }
  }

  lemma BlockFound(rules: RuleSet, e: Edit, t: Tools)
    requires e.AddWindow? && Edited(rules, e, t).Some?
    ensures FindBlock(rules.blocks, e.blockId).Some? && FindBlock(rules.blocks, e.blockId).value < |rules.blocks|
  {
  }

  /** A window that was added is the last one, and taking it out again restores the rules. */
  lemma AddThenRemoveWindow(rules: RuleSet, id: string, zone: string, w: Window, t: Tools)
    requires Edited(rules, AddWindow(id, zone, w), t).Some?
    requires forall b :: b in rules.blocks && b.schedule.Some? ==> b.schedule.value.windows != []
    ensures var after := Edited(rules, AddWindow(id, zone, w), t).value;
            var i := FindBlock(after.blocks, id);
            && i.Some? && after.blocks[i.value].schedule.Some?
            && Edited(after, RemoveWindow(id, |after.blocks[i.value].schedule.value.windows|), t) == Some(rules)
  {
    hide FindBlock, Edited, EditBlock;
    BlockFound(rules, AddWindow(id, zone, w), t);
    var i := FindBlock(rules.blocks, id).value;
    var b := rules.blocks[i];
    var windows := if b.schedule.Some? then b.schedule.value.windows else [];
    var now := b.(schedule := Some(Schedule(zone, windows + [w])));
    var after := rules.(blocks := rules.blocks[i := now]);
    WindowAppended(rules, id, t, i, zone, windows, w);
    BackAgain(rules, i, id, now, b);
    WindowTakenOut(after, id, t, i, zone, windows, w);
    assert now.(schedule := if windows == [] then None else Some(Schedule(zone, windows))) == b;
  }

  /** No command on a block runs when no block has the id, except creating it. */
  lemma UnknownBlockRefused(rules: RuleSet, e: Edit, t: Tools)
    requires !e.SetProfile? && !e.CreateBlock? && !Found(rules, e.blockId)
    ensures Edited(rules, e, t).None?
  {
    FoundExactly(rules, e.blockId);
  }

  /** `create-block`: a new last block with these settings and nothing else. */
  lemma CreateBlockEffect(rules: RuleSet, e: Edit, t: Tools)
    requires e.CreateBlock?
    ensures Edited(rules, e, t).Some? <==>
            && (forall x :: x in e.domains ==> ValidDomain(x, t.lib)) && !Found(rules, e.blockId)
            && forall o :: o in rules.blocks ==> t.fold(o.name) != t.fold(e.name)
    ensures Edited(rules, e, t).Some? ==>
              var after := Edited(rules, e, t).value;
              && |after.blocks| == |rules.blocks| + 1 && after == rules.(blocks := rules.blocks + [after.blocks[|rules.blocks|]])
              && var b := after.blocks[|rules.blocks|];
                 && b.id == e.blockId && b.name == e.name && b.enabled && b.priority == e.priority && b.action == e.action
                 && b.permissions == Permissions(e.action == Block, false, false, false, false, false, false)
                 && TextOrder.Sorted(b.targets.domains) && multiset(b.targets.domains) == multiset(e.domains)
                 && b.targets.urlPatterns == [] && b.targets.urlRegex == []
                 && b.exceptions == Matchers([], [], []) && b.schedule.None?
  {
    hide ValidDomain, TextOrder.Sort, TextOrder.Sorted;
    FoundExactly(rules, e.blockId);
    NameTakenExactly(rules.blocks, e.name, "", t.fold);
    TextOrder.SortSorted(e.domains);
    forall x ensures x in e.domains <==> exists i :: 0 <= i < |e.domains| && e.domains[i] == x {}
  }

  /** `delete-block`: the first block with the id goes, the others stay in their order. */
  lemma DeleteBlockEffect(rules: RuleSet, id: string, confirmed: bool, t: Tools)
    ensures Edited(rules, DeleteBlock(id, confirmed), t).Some? <==> confirmed && Found(rules, id)
    ensures Edited(rules, DeleteBlock(id, confirmed), t).Some? ==>
              exists k :: 0 <= k < |rules.blocks| && rules.blocks[k].id == id && (forall j :: 0 <= j < k ==> rules.blocks[j].id != id)
                && Edited(rules, DeleteBlock(id, confirmed), t) == Some(rules.(blocks := rules.blocks[..k] + rules.blocks[k + 1..]))
  {
    hide Remove;
    FoundExactly(rules, id);
    var i := FindBlock(rules.blocks, id);
    if confirmed && i.Some? {
      var k := i.value;
      RemoveFirst(rules.blocks, k);
      assert Edited(rules, DeleteBlock(id, confirmed), t) == Some(rules.(blocks := rules.blocks[..k] + rules.blocks[k + 1..]));
    }
  }

  /** `set-profile`: what is given is taken over, the rest stays. */
  lemma SetProfileEffect(rules: RuleSet, zone: Option<string>, default: Option<Action>, t: Tools)
    ensures Edited(rules, SetProfile(zone, default), t) ==
            if zone.None? && default.None? then None
            else Some(rules.(profile := Profile(
              match zone case Some(z) => z case None => rules.profile.timezone,
              match default case Some(a) => a case None => rules.profile.defaultAction,
              rules.profile.conflictPolicy)))
  {
  }

  // ---- Exactly when the file is replaced ----

  /** The rule file was readable and valid when the operation read it. */
  predicate Readable(disk: Disk, t: Tools, fails: bool) {
    !fails && disk.file.Holds? && ValidRules(disk.file.rules, t.lib)
  }

  /**
   * Valid new rules get into the file: preparing and replacing work, and a readable predecessor is different and can be
   * archived under a version id not in use.
   */
  predicate GetsWritten(disk: Disk, rules: RuleSet, t: Tools, f: OpFaults) {
    && ValidRules(rules, t.lib) && !f.prepare && !f.replace.FailsBefore?
    && (Readable(disk, t, f.reread) ==>
          && disk.file.rules != rules && !f.directory && !f.write
          && Version(f.stamp, RevisionOf(disk.file.rules), f.nonce) !in disk.history)
  }

  predicate SaysReplaced(r: OpResult) { r.Replaced? || r.ReplacedThenFailed? }

  /** The file afterwards, and what the caller is told. */
  predicate Outcome(disk: Disk, after: Disk, result: OpResult, happens: bool, rules: RuleSet) {
    && (SaysReplaced(result) <==> happens)
    && after.file == (if happens then Holds(rules) else disk.file)
  }

  lemma WriteExactly(disk: Disk, rules: RuleSet, t: Tools, f: OpFaults)
    ensures var (after, result) := WriteSpec(disk, rules, t, f);
            Outcome(disk, after, result, GetsWritten(disk, rules, t, f), rules)
  {
    hide ValidRules, RevisionOf;
  }

  /** A command replaces the file exactly when the file was readable, the command applies to it and its result gets written. */
  lemma CommandReplacesExactly(disk: Disk, e: Edit, t: Tools, f: OpFaults, after: Disk, result: OpResult)
    requires (after, result) == OpSpec(disk, Command(e), t, f)
    ensures if Readable(disk, t, f.load) && Edited(disk.file.rules, e, t).Some? then
              var changed := Edited(disk.file.rules, e, t).value;
              Outcome(disk, after, result, GetsWritten(disk, changed, t, f), changed)
            else after == disk && result == Refused
  {
    hide ValidRules, RevisionOf, WriteSpec, Edited, GetsWritten;
    if Readable(disk, t, f.load) && Edited(disk.file.rules, e, t).Some? {
      WriteExactly(disk, Edited(disk.file.rules, e, t).value, t, f);
    }
  }

  /** `apply` replaces the file exactly when the given rules get written. */
  lemma ApplyReplacesExactly(disk: Disk, rules: RuleSet, t: Tools, f: OpFaults, after: Disk, result: OpResult)
    requires (after, result) == OpSpec(disk, Apply(rules), t, f)
    ensures Outcome(disk, after, result, GetsWritten(disk, rules, t, f), rules)
  {
    hide WriteSpec, GetsWritten;
    WriteExactly(disk, rules, t, f);
  }

  /** A compare-and-set replaces it exactly when the rules can be published, the file is the named version and they get written. */
  lemma CompareReplacesExactly(disk: Disk, rules: RuleSet, base: RuleSet, users: Option<UserState>, t: Tools, f: OpFaults,
                               after: Disk, result: OpResult)
    requires (after, result) == OpSpec(disk, CompareAndApply(rules, RevisionOf(base), users), t, f)
    ensures if users.Some? && ValidRules(rules, t.lib) && Publishable(Merge(rules, users.value))
               && Readable(disk, t, f.load) && disk.file.rules == base
            then Outcome(disk, after, result, GetsWritten(disk, rules, t, f), rules)
            else after == disk && result == Refused
  {
    hide ValidRules, RevisionOf, WriteSpec, Publishable, Merge, GetsWritten;
    WriteExactly(disk, rules, t, f);
    if disk.file.Holds? { RevisionIdentifiesRules(disk.file.rules, base); }
  }

  /** The version is in the history, intact and valid, and could be read. */
  predicate Loadable(disk: Disk, v: Version, t: Tools, fails: bool) {
    !fails && v in disk.history && ValidRules(disk.history[v], t.lib) && v.digest == RevisionOf(disk.history[v])
  }

  /** A rollback replaces it exactly when confirmed, with an intact version other than the active rules that gets written. */
  lemma RollbackReplacesExactly(disk: Disk, v: Version, confirmed: bool, t: Tools, f: OpFaults, after: Disk, result: OpResult)
    requires (after, result) == OpSpec(disk, Rollback(v, confirmed), t, f)
    ensures if confirmed && Loadable(disk, v, t, f.loadVersion) && Readable(disk, t, f.load) && disk.file.rules != disk.history[v]
            then Outcome(disk, after, result, GetsWritten(disk, disk.history[v], t, f), disk.history[v])
            else after == disk && result == Refused
  {
    hide ValidRules, RevisionOf, WriteSpec, GetsWritten;
    if v in disk.history { WriteExactly(disk, disk.history[v], t, f); }
  }

  /** For instance `add-domain` with every step working: the file then holds the rules with that domain in that block's list. */
  lemma AddedDomainIsInFile(disk: Disk, id: string, x: string, t: Tools, f: OpFaults, after: Disk, result: OpResult, b: RuleBlock)
    returns (now: RuleBlock)
    requires (after, result) == OpSpec(disk, Command(AddEntry(id, TargetDomains, x)), t, f)
    requires Readable(disk, t, false) && !f.load && !f.reread && !f.prepare && !f.directory && !f.write && f.replace.Succeeds?
    requires Version(f.stamp, RevisionOf(disk.file.rules), f.nonce) !in disk.history
    requires FindBlock(disk.file.rules.blocks, id).Some? && b == disk.file.rules.blocks[FindBlock(disk.file.rules.blocks, id).value]
    requires ValidDomain(x, t.lib) && x !in b.targets.domains
    ensures now == b.(targets := b.targets.(domains := now.targets.domains)) && Gains(b.targets.domains, now.targets.domains, x)
    ensures var i := FindBlock(disk.file.rules.blocks, id).value;
            var changed := disk.file.rules.(blocks := disk.file.rules.blocks[..i] + [now] + disk.file.rules.blocks[i + 1..]);
            && (ValidRules(changed, t.lib) ==> after.file == Holds(changed) && result.Replaced?)
            && (!ValidRules(changed, t.lib) ==> after == disk && result == Refused)
  {
    hide ValidRules, RevisionOf, Edited, ValidDomain, SnapshotSpec, Gains;
    var e := AddEntry(id, TargetDomains, x);
    now := AddEntryEffect(disk.file.rules, id, TargetDomains, x, t, b);
    var i := FindBlock(disk.file.rules.blocks, id).value;
    var changed := disk.file.rules.(blocks := disk.file.rules.blocks[..i] + [now] + disk.file.rules.blocks[i + 1..]);
    CommandReplacesExactly(disk, e, t, f, after, result);
    DomainGained(b, now, x);
    assert changed.blocks[i] == now;
  }

  lemma DomainGained(b: RuleBlock, now: RuleBlock, x: string)
    requires Gains(b.targets.domains, now.targets.domains, x)
    ensures now != b
  {
    assert |multiset(now.targets.domains)| == |multiset(b.targets.domains)| + 1;
  }
}
