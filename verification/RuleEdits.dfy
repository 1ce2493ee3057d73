/** The editing commands as changes to a rule set. */
module RuleEdits {
  import opened Basics
  import TextOrder
  import opened TimeWindows
  import opened Rules
  import opened Validation

  datatype StringList = TargetDomains | TargetPatterns | ExceptionDomains

  datatype Edit =
    | AddEntry(blockId: string, list: StringList, value: string)
    | RemoveEntry(blockId: string, list: StringList, value: string)
    | AddRegex(blockId: string, regex: UrlRegex)
    | RemoveRegex(blockId: string, regex: UrlRegex)
    | CreateBlock(blockId: string, name: string, action: Action, priority: int, domains: seq<string>)
    | DeleteBlock(blockId: string, confirmed: bool)
    | SetBlock(blockId: string, newName: Option<string>, newAction: Option<Action>, newPriority: Option<int>, newEnabled: Option<bool>)
    | AddWindow(blockId: string, timezone: string, window: Window)
    | RemoveWindow(blockId: string, index: int)
    | SetScheduleTimezone(blockId: string, timezone: string)
    | ClearSchedule(blockId: string, confirmed: bool)
    | SetProfile(newTimezone: Option<string>, newDefault: Option<Action>)

  /** Library answers: the validator's, and NFKC normalisation with case folding of block names. */
  datatype Tools = Tools(lib: Libraries, fold: string -> string)

  // ---- Pieces ----

  /** `list.remove`: without the first equal entry. */
  function Remove<T(==)>(s: seq<T>, x: T): seq<T> {
    if s == [] then [] else if s[0] == x then s[1..] else [s[0]] + Remove(s[1..], x)
  }

  function Entries(b: RuleBlock, list: StringList): seq<string> {
    match list
    case TargetDomains => b.targets.domains
    case TargetPatterns => b.targets.urlPatterns
    case ExceptionDomains => b.exceptions.domains
  }

  function WithEntries(b: RuleBlock, list: StringList, s: seq<string>): RuleBlock {
    match list
    case TargetDomains => b.(targets := b.targets.(domains := s))
    case TargetPatterns => b.(targets := b.targets.(urlPatterns := s))
    case ExceptionDomains => b.(exceptions := b.exceptions.(domains := s))
  }

  function WithRegexes(b: RuleBlock, s: seq<UrlRegex>): RuleBlock {
    b.(targets := b.targets.(urlRegex := s))
  }

  /** Only the two commands for target domains check the text themselves. */
  predicate EntryChecked(list: StringList, value: string, lib: Libraries) {
    list == TargetDomains ==> ValidDomain(value, lib)
  }

  function FreshBlock(id: string, name: string, action: Action, priority: int, domains: seq<string>): RuleBlock {
    RuleBlock(id, name, true, priority, action, Permissions(action == Block, false, false, false, false, false, false),
              Matchers(TextOrder.Sort(domains), [], []), Matchers([], [], []), None)
  }

  predicate NameTaken(blocks: seq<RuleBlock>, name: string, exclude: Option<string>, fold: string -> string) {
    exists i :: 0 <= i < |blocks| && Some(blocks[i].id) != exclude && fold(blocks[i].name) == fold(name)
  }

  /** The settings of `set-block`, in the command's order. */
  function Settings(b: RuleBlock, e: Edit): RuleBlock
    requires e.SetBlock?
  {
    var named := if e.newName.Some? then b.(name := e.newName.value) else b;
    var acting :=
      if e.newAction.Some? then
        named.(action := e.newAction.value, permissions := named.permissions.(addDomains := e.newAction.value == Block))
      else named;
    var ranked := if e.newPriority.Some? then acting.(priority := e.newPriority.value) else acting;
    if e.newEnabled.Some? then ranked.(enabled := e.newEnabled.value) else ranked
  }

  /** A command's change to one block; None where the command raises. */
  function EditBlock(b: RuleBlock, blocks: seq<RuleBlock>, e: Edit, t: Tools): Option<RuleBlock> {
    match e
    case AddEntry(_, list, value) =>
      if !EntryChecked(list, value, t.lib) || value in Entries(b, list) then None
      else Some(WithEntries(b, list, TextOrder.Sort(Entries(b, list) + [value])))
    case RemoveEntry(_, list, value) =>
      if !EntryChecked(list, value, t.lib) || value !in Entries(b, list) then None
      else Some(WithEntries(b, list, Remove(Entries(b, list), value)))
    case AddRegex(_, regex) =>
      if regex in b.targets.urlRegex then None else Some(WithRegexes(b, b.targets.urlRegex + [regex]))
    case RemoveRegex(_, regex) =>
      if regex !in b.targets.urlRegex then None else Some(WithRegexes(b, Remove(b.targets.urlRegex, regex)))
    case SetBlock(id, newName, newAction, newPriority, newEnabled) =>
      if newName.None? && newAction.None? && newPriority.None? && newEnabled.None? then None
      else if newName.Some? && NameTaken(blocks, newName.value, Some(id), t.fold) then None
      else Some(Settings(b, e))
    case AddWindow(_, zone, window) =>
      if b.schedule.None? then Some(b.(schedule := Some(Schedule(zone, [window]))))
      else if b.schedule.value.timezone != zone then None
      else Some(b.(schedule := Some(Schedule(zone, b.schedule.value.windows + [window]))))
    case RemoveWindow(_, index) =>
      if b.schedule.None? || !(1 <= index <= |b.schedule.value.windows|) then None
      else
        var w := b.schedule.value.windows;
        var rest := w[..index - 1] + w[index..];
        Some(b.(schedule := if rest == [] then None else Some(Schedule(b.schedule.value.timezone, rest))))
    case SetScheduleTimezone(_, zone) =>
      if b.schedule.None? then None else Some(b.(schedule := Some(Schedule(zone, b.schedule.value.windows))))
    case ClearSchedule(_, confirmed) =>
      if !confirmed || b.schedule.None? then None else Some(b.(schedule := None))
    case _ => None
  }

  predicate AllValidDomains(domains: seq<string>, lib: Libraries) {
    forall i :: 0 <= i < |domains| ==> ValidDomain(domains[i], lib)
  }

  /** What a command makes of the rules it read; None where it raises before writing. */
  function Edited(rules: RuleSet, e: Edit, t: Tools): Option<RuleSet> {
    match e
    case SetProfile(zone, default) =>
      if zone.None? && default.None? then None
      else
        var p := if zone.Some? then rules.profile.(timezone := zone.value) else rules.profile;
        Some(rules.(profile := if default.Some? then p.(defaultAction := default.value) else p))
    case CreateBlock(id, name, action, priority, domains) =>
      if !AllValidDomains(domains, t.lib) || FindBlock(rules.blocks, id).Some? || NameTaken(rules.blocks, name, None, t.fold) then None
      else Some(rules.(blocks := rules.blocks + [FreshBlock(id, name, action, priority, domains)]))
    case DeleteBlock(id, confirmed) =>
      var i := FindBlock(rules.blocks, id);
      if !confirmed || i.None? then None
      else Some(rules.(blocks := Remove(rules.blocks, rules.blocks[i.value])))
    case _ =>
      var i := FindBlock(rules.blocks, e.blockId);
      if i.None? then None
      else
        match EditBlock(rules.blocks[i.value], rules.blocks, e, t)
        case None => None
        case Some(b) => Some(rules.(blocks := rules.blocks[i.value := b]))
  }

  // ---- What one command undoes ----

  lemma {:induction false} RemoveFirst<T>(s: seq<T>, i: nat)
    requires i < |s| && forall j :: 0 <= j < i ==> s[j] != s[i]
    ensures Remove(s, s[i]) == s[..i] + s[i + 1..]
  {
    if i > 0 {
      assert s[1..][i - 1] == s[i];
      assert forall j :: 0 <= j < i - 1 ==> s[1..][j] == s[j + 1];
      RemoveFirst(s[1..], i - 1);
      assert s[1..][..i - 1] == s[1..i] && s[1..][i..] == s[i + 1..];
      assert [s[0]] + s[1..i] == s[..i];
    }
  }

  /** The first occurrence is taken out. */
  ghost predicate Loses<T>(s: seq<T>, r: seq<T>, x: T) {
    exists k :: 0 <= k < |s| && s[k] == x && x !in s[..k] && r == s[..k] + s[k + 1..]
  }

  lemma RemoveLoses<T>(s: seq<T>, x: T)
    requires x in s
    ensures Loses(s, Remove(s, x), x)
  {
    var k := FirstAt(s, x);
    RemoveFirst(s, k);
    assert s[k] == x && x !in s[..k] && Remove(s, x) == s[..k] + s[k + 1..];
  }

  lemma {:induction false} FirstAt<T>(s: seq<T>, x: T) returns (k: nat)
    requires x in s
    ensures k < |s| && s[k] == x && x !in s[..k] && forall j :: 0 <= j < k ==> s[j] != s[k]
  {
    if s[0] == x {
      k := 0;
    } else {
      assert s == [s[0]] + s[1..];
      var m := FirstAt(s[1..], x);
      k := m + 1;
      forall j | 0 <= j < k ensures s[j] != x { if j > 0 { assert s[j] == s[1..][j - 1]; } }
    }
  }

  lemma {:induction false} RemoveMultiset<T>(s: seq<T>, x: T)
    requires x in s
    ensures multiset(Remove(s, x)) == multiset(s) - multiset{x}
  {
    assert s == [s[0]] + s[1..];
    if s[0] != x {
      RemoveMultiset(s[1..], x);
      assert x in multiset(s[1..]);
    }
  }

  lemma {:induction false} RemoveKeepsOrder(s: seq<string>, x: string)
    requires TextOrder.Sorted(s)
    ensures TextOrder.Sorted(Remove(s, x))
    ensures forall y :: y in Remove(s, x) ==> y in s
  {
    if s != [] && s[0] != x {
      assert forall i :: 0 <= i < |s| - 1 ==> s[1..][i] == s[i + 1];
      RemoveKeepsOrder(s[1..], x);
      var r := Remove(s[1..], x);
      forall j | 0 <= j < |r| ensures TextOrder.Leq(s[0], r[j]) {
        assert r[j] in s[1..];
      }
    }
  }

  /** Adding an entry and removing it again leaves the list as it was, sorted. */
  lemma AddThenRemoveEntry(s: seq<string>, x: string)
    ensures Remove(TextOrder.Sort(s + [x]), x) == TextOrder.Sort(s)
  {
    hide Remove, TextOrder.Sort, TextOrder.Sorted;
    var added := TextOrder.Sort(s + [x]);
    TextOrder.SortSorted(s + [x]);
    TextOrder.SortSorted(s);
    assert x in multiset(added);
    RemoveMultiset(added, x);
    RemoveKeepsOrder(added, x);
    assert multiset(s + [x]) - multiset{x} == multiset(s);
    TextOrder.SortedUnique(Remove(added, x), TextOrder.Sort(s));
  }

  lemma AddStep(rules: RuleSet, blockId: string, list: StringList, value: string, t: Tools)
    requires Edited(rules, AddEntry(blockId, list, value), t).Some?
    ensures FindBlock(rules.blocks, blockId).Some? && EntryChecked(list, value, t.lib)
    ensures var i := FindBlock(rules.blocks, blockId).value;
            var b := rules.blocks[i];
            Edited(rules, AddEntry(blockId, list, value), t) ==
            Some(rules.(blocks := rules.blocks[i := WithEntries(b, list, TextOrder.Sort(Entries(b, list) + [value]))]))
  {
    hide TextOrder.Sort, ValidDomain;
  }

  lemma RemoveStep(rules: RuleSet, blockId: string, list: StringList, value: string, t: Tools, i: nat)
    requires FindBlock(rules.blocks, blockId) == Some(i) && EntryChecked(list, value, t.lib)
    requires value in Entries(rules.blocks[i], list)
    ensures Edited(rules, RemoveEntry(blockId, list, value), t) ==
            Some(rules.(blocks := rules.blocks[i := WithEntries(rules.blocks[i], list, Remove(Entries(rules.blocks[i], list), value))]))
  {
    hide ValidDomain, Remove;
  }

  /** Adding an entry and removing it again restores the rules, up to sorting the list in question. */
  lemma AddThenRemove(rules: RuleSet, blockId: string, list: StringList, value: string, t: Tools)
    requires Edited(rules, AddEntry(blockId, list, value), t).Some?
    ensures var i := FindBlock(rules.blocks, blockId);
            && i.Some?
            && var b := rules.blocks[i.value];
               Edited(Edited(rules, AddEntry(blockId, list, value), t).value, RemoveEntry(blockId, list, value), t) ==
               Some(rules.(blocks := rules.blocks[i.value := WithEntries(b, list, TextOrder.Sort(Entries(b, list)))]))
  {
    hide Edited, EditBlock, Remove, TextOrder.Sort, ValidDomain;
    AddStep(rules, blockId, list, value, t);
    var i := FindBlock(rules.blocks, blockId).value;
    var b := rules.blocks[i];
    var more := TextOrder.Sort(Entries(b, list) + [value]);
    var now := WithEntries(b, list, more);
    var blocks := rules.blocks[i := now];
    AddThenRemoveEntry(Entries(b, list), value);
    assert value in multiset(more);
    SameIdSameIndex(rules.blocks, blocks, blockId);
    RemoveStep(rules.(blocks := blocks), blockId, list, value, t, i);
    var settled := WithEntries(b, list, TextOrder.Sort(Entries(b, list)));
    assert WithEntries(now, list, Remove(more, value)) == settled;
    assert blocks[i := settled] == rules.blocks[i := settled];
  }

  /** Creating a block and deleting it again restores the rules exactly. */
  lemma CreateThenDelete(rules: RuleSet, e: Edit, t: Tools)
    requires e.CreateBlock? && Edited(rules, e, t).Some?
    ensures Edited(Edited(rules, e, t).value, DeleteBlock(e.blockId, true), t) == Some(rules)
  {
    var made := FreshBlock(e.blockId, e.name, e.action, e.priority, e.domains);
    var blocks := rules.blocks + [made];
    var i := FindBlock(blocks, e.blockId);
    assert blocks[|rules.blocks|].id == e.blockId;
    assert i.Some?;
    forall j | 0 <= j < |rules.blocks| ensures blocks[j].id != e.blockId { assert blocks[j] == rules.blocks[j]; }
    assert i.value == |rules.blocks|;
    RemoveFirst(blocks, |rules.blocks|);
    assert blocks[..|rules.blocks|] + blocks[|rules.blocks| + 1..] == rules.blocks;
  }

  /** The blocks with other ids, in their order. */
  function Others(blocks: seq<RuleBlock>, id: string): seq<RuleBlock> {
    if blocks == [] then [] else (if blocks[0].id == id then [] else [blocks[0]]) + Others(blocks[1..], id)
  }

  lemma {:induction false} OthersReplaced(blocks: seq<RuleBlock>, id: string, i: nat, b: RuleBlock)
    requires i < |blocks| && blocks[i].id == id && b.id == id
    ensures Others(blocks[i := b], id) == Others(blocks, id)
  {
    if i == 0 {
      assert blocks[0 := b][1..] == blocks[1..];
    } else {
      OthersReplaced(blocks[1..], id, i - 1, b);
      assert blocks[i := b][1..] == blocks[1..][i - 1 := b];
    }
  }

  lemma {:induction false} OthersAppended(blocks: seq<RuleBlock>, id: string, b: RuleBlock)
    requires b.id == id
    ensures Others(blocks + [b], id) == Others(blocks, id)
  {
    if blocks == [] {
      assert [b][1..] == [];
    } else {
      OthersAppended(blocks[1..], id, b);
      assert (blocks + [b])[1..] == blocks[1..] + [b];
    }
  }

  lemma {:induction false} OthersRemoved(blocks: seq<RuleBlock>, id: string, b: RuleBlock)
    requires b.id == id
    ensures Others(Remove(blocks, b), id) == Others(blocks, id)
  {
    if blocks != [] && blocks[0] != b {
      OthersRemoved(blocks[1..], id, b);
      assert Remove(blocks, b)[1..] == Remove(blocks[1..], b);
    }
  }

  lemma EditKeepsId(b: RuleBlock, blocks: seq<RuleBlock>, e: Edit, t: Tools)
    requires EditBlock(b, blocks, e, t).Some?
    ensures EditBlock(b, blocks, e, t).value.id == b.id
  {
    hide ValidDomain, Remove, TextOrder.Sort;
  }

  /** A command leaves the sequence of all other blocks as it was, and the profile unless it is about the profile. */
  lemma OthersUntouched(rules: RuleSet, e: Edit, t: Tools)
    requires Edited(rules, e, t).Some?
    ensures var after := Edited(rules, e, t).value;
            && after.schema == rules.schema && after.formatVersion == rules.formatVersion
            && (e.SetProfile? ==> after.blocks == rules.blocks)
            && (!e.SetProfile? ==> after.profile == rules.profile && Others(after.blocks, e.blockId) == Others(rules.blocks, e.blockId))
  {
    hide EditBlock, Others, ValidDomain;
    if e.CreateBlock? {
      OthersAppended(rules.blocks, e.blockId, FreshBlock(e.blockId, e.name, e.action, e.priority, e.domains));
    } else if e.DeleteBlock? {
      OthersRemoved(rules.blocks, e.blockId, rules.blocks[FindBlock(rules.blocks, e.blockId).value]);
    } else if !e.SetProfile? {
      var i := FindBlock(rules.blocks, e.blockId).value;
      var b := EditBlock(rules.blocks[i], rules.blocks, e, t).value;
      EditKeepsId(rules.blocks[i], rules.blocks, e, t);
      OthersReplaced(rules.blocks, e.blockId, i, b);
    }
  }
}
