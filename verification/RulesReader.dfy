/** Reading a rule document by the names of its fields, and what the daemon's message says when it is read. */
module RulesReader {
  import opened Basics
  import opened TimeWindows
  import opened CanonicalJson
  import opened JsonIdentity
  import opened JsonReader
  import opened JsonReading
  import opened Rules
  import JsonAgreement
  import opened RulesJson
  import opened ManagedData

  // ---- Fields by name ----

  /** The value of the last member with the name, as `JSON.parse` keeps it. */
  function Lookup(ms: seq<Member>, key: string): Option<Json> {
    if ms == [] then None
    else if ms[|ms| - 1].key == key then Some(ms[|ms| - 1].value)
    else Lookup(ms[..|ms| - 1], key)
  }

  function Field(v: Json, key: string): Option<Json> {
    if v.JObj? then Lookup(v.members, key) else None
  }

  function StringOf(v: Json): Option<string> {
    if v.JStr? then Some(v.s) else None
  }

  function BoolOf(v: Json): Option<bool> {
    if v.JBool? then Some(v.b) else None
  }

  function NumberOf(v: Json): Option<int> {
    if v.JNum? then Some(v.n) else None
  }

  function ItemsOf(v: Json): Option<seq<Json>> {
    if v.JArr? then Some(v.items) else None
  }

  // ---- The document ----

  function Strings(items: seq<Json>): Option<seq<string>> {
    if items == [] then Some([])
    else
      var first :- StringOf(items[0]);
      var rest :- Strings(items[1..]);
      Some([first] + rest)
  }

  function RegexFrom(v: Json): Option<UrlRegex> {
    var pattern :- Field(v, "pattern");
    var text :- StringOf(pattern);
    var sensitive :- Field(v, "case_sensitive");
    var flag :- BoolOf(sensitive);
    Some(UrlRegex(text, flag))
  }

  function Regexes(items: seq<Json>): Option<seq<UrlRegex>> {
    if items == [] then Some([])
    else
      var first :- RegexFrom(items[0]);
      var rest :- Regexes(items[1..]);
      Some([first] + rest)
  }

  function MatchersFrom(v: Json): Option<Matchers> {
    var a :- Field(v, "domains");
    var b :- Field(v, "url_patterns");
    var c :- Field(v, "url_regex");
    var domains :- ItemsOf(a);
    var patterns :- ItemsOf(b);
    var regexes :- ItemsOf(c);
    var ds :- Strings(domains);
    var ps :- Strings(patterns);
    var rs :- Regexes(regexes);
    Some(Matchers(ds, ps, rs))
  }

  function WindowFrom(v: Json): Option<Window> {
    var a :- Field(v, "start");
    var b :- Field(v, "end");
    var c :- Field(v, "rrule");
    var start :- StringOf(a);
    var end :- StringOf(b);
    var rrule :- StringOf(c);
    if ValidTime(start) && ValidTime(end) then Some(Window(start, end, rrule)) else None
  }

  function Windows(items: seq<Json>): Option<seq<Window>> {
    if items == [] then Some([])
    else
      var first :- WindowFrom(items[0]);
      var rest :- Windows(items[1..]);
      Some([first] + rest)
  }

  function ScheduleFrom(v: Json): Option<Schedule> {
    var a :- Field(v, "timezone");
    var b :- Field(v, "windows");
    var zone :- StringOf(a);
    var items :- ItemsOf(b);
    var windows :- Windows(items);
    Some(Schedule(zone, windows))
  }

  function ActionFrom(v: Json): Option<Action> {
    match StringOf(v)
    case Some("allow") => Some(Allow)
    case Some("block") => Some(Block)
    case _ => None
  }

  function Flag(v: Json, key: string): Option<bool> {
    var f :- Field(v, key);
    BoolOf(f)
  }

  function PermissionsFrom(v: Json): Option<Permissions> {
    var a :- Flag(v, "add_domains");
    var b :- Flag(v, "remove_domains");
    var c :- Flag(v, "add_url_patterns");
    var d :- Flag(v, "add_url_regex");
    var e :- Flag(v, "modify_exceptions");
    var f :- Flag(v, "modify_schedule");
    var g :- Flag(v, "disable_block");
    Some(Permissions(a, b, c, d, e, f, g))
  }

  /** A missing schedule is no schedule. */
  function ScheduleIn(v: Json): Option<Option<Schedule>> {
    match Field(v, "schedule")
    case None => Some(None)
    case Some(s) => var schedule :- ScheduleFrom(s); Some(Some(schedule))
  }

  function BlockFrom(v: Json): Option<RuleBlock> {
    var a :- Field(v, "id");
    var b :- Field(v, "name");
    var c :- Field(v, "enabled");
    var d :- Field(v, "priority");
    var e :- Field(v, "action");
    var f :- Field(v, "user_permissions");
    var g :- Field(v, "targets");
    var h :- Field(v, "exceptions");
    var limits :- Field(v, "limits");
    var id :- StringOf(a);
    var name :- StringOf(b);
    var enabled :- BoolOf(c);
    var priority :- NumberOf(d);
    var action :- ActionFrom(e);
    var permissions :- PermissionsFrom(f);
    var targets :- MatchersFrom(g);
    var exceptions :- MatchersFrom(h);
    var schedule :- ScheduleIn(v);
    if limits.JNull? then Some(RuleBlock(id, name, enabled, priority, action, permissions, targets, exceptions, schedule)) else None
  }

  function Blocks(items: seq<Json>): Option<seq<RuleBlock>> {
    if items == [] then Some([])
    else
      var first :- BlockFrom(items[0]);
      var rest :- Blocks(items[1..]);
      Some([first] + rest)
  }

  function ProfileFrom(v: Json): Option<Profile> {
    var a :- Field(v, "timezone");
    var b :- Field(v, "default_action");
    var c :- Field(v, "conflict_policy");
    var zone :- StringOf(a);
    var action :- ActionFrom(b);
    var policy :- StringOf(c);
    Some(Profile(zone, action, policy))
  }

  function SchemaIn(v: Json): Option<Option<string>> {
    match Field(v, "$schema")
    case None => Some(None)
    case Some(s) => var text :- StringOf(s); Some(Some(text))
  }

  function RulesFrom(v: Json): Option<RuleSet> {
    var a :- Field(v, "format_version");
    var b :- Field(v, "profile");
    var c :- Field(v, "blocks");
    var version :- StringOf(a);
    var profile :- ProfileFrom(b);
    var items :- ItemsOf(c);
    var blocks :- Blocks(items);
    var schema :- SchemaIn(v);
    Some(RuleSet(schema, version, profile, blocks))
  }

  /** A snapshot as it is written, its revision spelled out. */
  datatype Spelled = Spelled(protocol: int, generation: int, revision: string, rules: RuleSet)

  function SnapshotFrom(v: Json): Option<Spelled> {
    var a :- Field(v, "protocol_version");
    var b :- Field(v, "generation");
    var c :- Field(v, "revision");
    var d :- Field(v, "rules");
    var protocol :- NumberOf(a);
    var generation :- NumberOf(b);
    var revision :- StringOf(c);
    var rules :- RulesFrom(d);
    Some(Spelled(protocol, generation, revision, rules))
  }

  // ---- Looking up a field of a sorted record ----

  lemma {:induction false} LookupIsLast(ms: seq<Member>, key: string)
    ensures match Lookup(ms, key)
            case None => forall i :: 0 <= i < |ms| ==> ms[i].key != key
            case Some(v) => exists i :: 0 <= i < |ms| && ms[i].key == key && ms[i].value == v
  {
    if ms != [] && ms[|ms| - 1].key != key {
      LookupIsLast(ms[..|ms| - 1], key);
      forall i | 0 <= i < |ms| - 1 ensures ms[..|ms| - 1][i] == ms[i] {}
      if Lookup(ms, key).Some? {
        var i :| 0 <= i < |ms| - 1 && ms[..|ms| - 1][i].key == key && ms[..|ms| - 1][i].value == Lookup(ms, key).value;
        assert ms[i].key == key;
      }
    }
  }

  lemma RecordDistinct(keys: seq<string>, values: seq<Json>)
    requires |keys| == |values| && Keys(keys)
    ensures DistinctKeys(Record(keys, values).members)
  {
    var ms := Record(keys, values).members;
    forall i, j | 0 <= i < j < |ms| ensures ms[i].key != ms[j].key {
      assert Mark(keys[i]) != Mark(keys[j]);
    }
  }

  /** Reading a field of a printed record gives that field's own value, wherever sorting put it. */
  lemma FieldReads(d: Dialect, keys: seq<string>, values: seq<Json>, i: nat)
    requires |keys| == |values| && i < |keys| && Keys(keys)
    ensures Field(Arranged(d, Record(keys, values)), keys[i]) == Some(Arranged(d, values[i]))
  {
    hide Lookup, SortMembers, Keys;
    var v := Record(keys, values);
    var s := SortMembers(d, v.members);
    var a := ArrangedMembers(d, v, s);
    RecordDistinct(keys, values);
    var m := v.members[i];
    assert m in v.members && m in s;
    var k :| 0 <= k < |s| && s[k] == m;
    LookupIsLast(a, keys[i]);
    assert a[k].key == keys[i];
    var p :| 0 <= p < |a| && a[p].key == keys[i] && a[p].value == Lookup(a, keys[i]).value;
    assert s[p] in s && s[p].key == m.key;
    JsonAgreement.SameKeySameMember(v.members, s[p], m);
  }

  lemma FieldMissing(d: Dialect, keys: seq<string>, values: seq<Json>, key: string)
    requires |keys| == |values| && key !in keys
    ensures Field(Arranged(d, Record(keys, values)), key) == None
  {
    hide Lookup, SortMembers;
    var v := Record(keys, values);
    var s := SortMembers(d, v.members);
    var a := ArrangedMembers(d, v, s);
    LookupIsLast(a, key);
    forall k | 0 <= k < |a| ensures a[k].key != key {
      assert s[k] in s && s[k] in v.members;
    }
  }

  // ---- Every record reads back ----

  lemma {:induction false} StringsRead(s: seq<string>, items: seq<Json>)
    requires |items| == |s| && forall i :: 0 <= i < |s| ==> items[i] == JStr(s[i])
    ensures Strings(items) == Some(s)
  {
    if s != [] {
      forall i | 0 <= i < |s| - 1 ensures items[1..][i] == JStr(s[1..][i]) { assert items[i + 1] == JStr(s[i + 1]); }
      StringsRead(s[1..], items[1..]);
      assert s == [s[0]] + s[1..];
    }
  }

  lemma RegexReads(d: Dialect, r: UrlRegex)
    ensures RegexFrom(Arranged(d, Record(REGEX_KEYS, RegexValues(r)))) == Some(r)
  {
    SmallKeys();
    FieldReads(d, REGEX_KEYS, RegexValues(r), 0);
    FieldReads(d, REGEX_KEYS, RegexValues(r), 1);
    hide Field, Record;
  }

  lemma {:induction false} RegexesRead(d: Dialect, s: seq<UrlRegex>, items: seq<Json>)
    requires |items| == |s| && forall i :: 0 <= i < |s| ==> items[i] == Arranged(d, Record(REGEX_KEYS, RegexValues(s[i])))
    ensures Regexes(items) == Some(s)
  {
    hide RegexFrom, Arranged, Record;
    if s != [] {
      RegexReads(d, s[0]);
      forall i | 0 <= i < |s| - 1 ensures items[1..][i] == Arranged(d, Record(REGEX_KEYS, RegexValues(s[1..][i]))) {
        assert items[1..][i] == items[i + 1];
      }
      RegexesRead(d, s[1..], items[1..]);
      assert s == [s[0]] + s[1..];
    }
  }

  lemma StringListReads(d: Dialect, s: seq<string>)
    ensures var v := Arranged(d, JArr(StringItems(s))); v.JArr? && Strings(v.items) == Some(s)
  {
    var items := StringItems(s);
    var out := ArrangedItems(d, JArr(items), items);
    assert Arranged(d, JArr(items)) == JArr(out);
    forall i | 0 <= i < |s| ensures out[i] == JStr(s[i]) { assert items[i] == JStr(s[i]); }
    StringsRead(s, out);
  }

  lemma RegexListReads(d: Dialect, s: seq<UrlRegex>)
    ensures var v := Arranged(d, JArr(RegexItems(s))); v.JArr? && Regexes(v.items) == Some(s)
  {
    hide Record;
    var items := RegexItems(s);
    var out := ArrangedItems(d, JArr(items), items);
    assert Arranged(d, JArr(items)) == JArr(out);
    forall i | 0 <= i < |s| ensures out[i] == Arranged(d, Record(REGEX_KEYS, RegexValues(s[i]))) {
      assert items[i] == Record(REGEX_KEYS, RegexValues(s[i]));
    }
    RegexesRead(d, s, out);
  }

  lemma MatchersRead(d: Dialect, m: Matchers)
    ensures MatchersFrom(Arranged(d, Record(MATCHERS_KEYS, MatchersValues(m)))) == Some(m)
  {
    SmallKeys();
    hide Field, Record, Arranged, Strings, Regexes;
    FieldReads(d, MATCHERS_KEYS, MatchersValues(m), 0);
    FieldReads(d, MATCHERS_KEYS, MatchersValues(m), 1);
    FieldReads(d, MATCHERS_KEYS, MatchersValues(m), 2);
    StringListReads(d, m.domains);
    StringListReads(d, m.urlPatterns);
    RegexListReads(d, m.urlRegex);
  }

  lemma WindowReads(d: Dialect, w: Window)
    ensures WindowFrom(Arranged(d, Record(WINDOW_KEYS, WindowValues(w)))) == Some(w)
  {
    SmallKeys();
    FieldReads(d, WINDOW_KEYS, WindowValues(w), 0);
    FieldReads(d, WINDOW_KEYS, WindowValues(w), 1);
    FieldReads(d, WINDOW_KEYS, WindowValues(w), 2);
    hide Field, Record, ValidTime;
  }

  lemma {:induction false} WindowsRead(d: Dialect, s: seq<Window>, items: seq<Json>)
    requires |items| == |s| && forall i :: 0 <= i < |s| ==> items[i] == Arranged(d, Record(WINDOW_KEYS, WindowValues(s[i])))
    ensures Windows(items) == Some(s)
  {
    hide WindowFrom, Arranged, Record;
    if s != [] {
      WindowReads(d, s[0]);
      forall i | 0 <= i < |s| - 1 ensures items[1..][i] == Arranged(d, Record(WINDOW_KEYS, WindowValues(s[1..][i]))) {
        assert items[1..][i] == items[i + 1];
      }
      WindowsRead(d, s[1..], items[1..]);
      assert s == [s[0]] + s[1..];
    }
  }

  lemma ScheduleReads(d: Dialect, s: Schedule)
    ensures ScheduleFrom(Arranged(d, Record(SCHEDULE_KEYS, ScheduleValues(s)))) == Some(s)
  {
    SmallKeys();
    FieldReads(d, SCHEDULE_KEYS, ScheduleValues(s), 0);
    FieldReads(d, SCHEDULE_KEYS, ScheduleValues(s), 1);
    hide Field, Record, Windows;
    var items := WindowItems(s.windows);
    var out := ArrangedItems(d, JArr(items), items);
    assert Arranged(d, JArr(items)) == JArr(out);
    forall i | 0 <= i < |items| ensures out[i] == Arranged(d, Record(WINDOW_KEYS, WindowValues(s.windows[i]))) {
      assert items[i] == Record(WINDOW_KEYS, WindowValues(s.windows[i]));
    }
    WindowsRead(d, s.windows, out);
  }

  lemma FlagReads(d: Dialect, p: Permissions, i: nat)
    requires i < |PERMISSION_KEYS|
    ensures Flag(Arranged(d, Record(PERMISSION_KEYS, PermissionValues(p))), PERMISSION_KEYS[i]) == BoolOf(PermissionValues(p)[i])
  {
    PermissionKeys();
    FieldReads(d, PERMISSION_KEYS, PermissionValues(p), i);
    hide Field, Record;
  }

  lemma PermissionsRead(d: Dialect, p: Permissions)
    ensures PermissionsFrom(Arranged(d, Record(PERMISSION_KEYS, PermissionValues(p)))) == Some(p)
  {
    hide Flag, Record, Arranged;
    forall i | 0 <= i < |PERMISSION_KEYS|
      ensures Flag(Arranged(d, Record(PERMISSION_KEYS, PermissionValues(p))), PERMISSION_KEYS[i]) == BoolOf(PermissionValues(p)[i])
    {
      FlagReads(d, p, i);
    }
    assert PERMISSION_KEYS[0] == "add_domains" && PERMISSION_KEYS[1] == "remove_domains" && PERMISSION_KEYS[2] == "add_url_patterns";
    assert PERMISSION_KEYS[3] == "add_url_regex" && PERMISSION_KEYS[4] == "modify_exceptions";
    assert PERMISSION_KEYS[5] == "modify_schedule" && PERMISSION_KEYS[6] == "disable_block";
  }

  lemma ActionReads(d: Dialect, a: Action)
    ensures ActionFrom(Arranged(d, ActionJson(a))) == Some(a)
  {
  }

  /** The printed block with any further fields. */
  predicate BlockRecord(b: RuleBlock, keys: seq<string>, values: seq<Json>) {
    && |keys| == |values| && |BLOCK_KEYS| <= |keys| && Keys(keys)
    && keys[..|BLOCK_KEYS|] == BLOCK_KEYS && values[..|BLOCK_KEYS|] == BlockValues(b)
  }

  lemma BlockField(d: Dialect, b: RuleBlock, keys: seq<string>, values: seq<Json>, i: nat)
    requires BlockRecord(b, keys, values) && i < |BLOCK_KEYS|
    ensures Field(Arranged(d, Record(keys, values)), BLOCK_KEYS[i]) == Some(Arranged(d, BlockValues(b)[i]))
  {
    hide Field, Record, Arranged, Keys;
    FieldReads(d, keys, values, i);
    assert keys[i] == keys[..|BLOCK_KEYS|][i] && values[i] == values[..|BLOCK_KEYS|][i];
  }

  lemma BlockRecordReads(d: Dialect, b: RuleBlock, keys: seq<string>, values: seq<Json>)
    requires BlockRecord(b, keys, values)
    requires ScheduleIn(Arranged(d, Record(keys, values))) == Some(b.schedule)
    ensures BlockFrom(Arranged(d, Record(keys, values))) == Some(b)
  {
    hide Field, Record, MatchersFrom, PermissionsFrom, ActionFrom, ScheduleIn, Keys;
    var v := Arranged(d, Record(keys, values));
    forall i | 0 <= i < |BLOCK_KEYS| ensures Field(v, BLOCK_KEYS[i]) == Some(Arranged(d, BlockValues(b)[i])) {
      BlockField(d, b, keys, values, i);
    }
    assert BLOCK_KEYS[0] == "id" && BLOCK_KEYS[1] == "name" && BLOCK_KEYS[2] == "enabled" && BLOCK_KEYS[3] == "priority";
    assert BLOCK_KEYS[4] == "action" && BLOCK_KEYS[5] == "user_permissions" && BLOCK_KEYS[6] == "targets";
    assert BLOCK_KEYS[7] == "exceptions" && BLOCK_KEYS[8] == "limits";
    ActionReads(d, b.action);
    PermissionsRead(d, b.permissions);
    MatchersRead(d, b.targets);
    MatchersRead(d, b.exceptions);
  }

  lemma BlockReads(d: Dialect, b: RuleBlock)
    ensures BlockFrom(Arranged(d, BlockJson(b))) == Some(b)
  {
    hide Field, Record, Arranged, BlockFrom, Keys, BlockValues, ScheduleFrom;
    BlockKeys();
    match b.schedule
    case None =>
      FieldMissing(d, BLOCK_KEYS, BlockValues(b), "schedule");
      BlockRecordReads(d, b, BLOCK_KEYS, BlockValues(b));
    case Some(s) =>
      var keys := BLOCK_KEYS + ["schedule"];
      var values := BlockValues(b) + [Record(SCHEDULE_KEYS, ScheduleValues(s))];
      FieldReads(d, keys, values, |BLOCK_KEYS|);
      ScheduleReads(d, s);
      BlockRecordReads(d, b, keys, values);
  }

  lemma {:induction false} BlocksRead(d: Dialect, s: seq<RuleBlock>, items: seq<Json>)
    requires |items| == |s| && forall i :: 0 <= i < |s| ==> items[i] == Arranged(d, BlockJson(s[i]))
    ensures Blocks(items) == Some(s)
  {
    hide BlockFrom, Arranged, BlockJson;
    if s != [] {
      BlockReads(d, s[0]);
      forall i | 0 <= i < |s| - 1 ensures items[1..][i] == Arranged(d, BlockJson(s[1..][i])) {
        assert items[1..][i] == items[i + 1];
      }
      BlocksRead(d, s[1..], items[1..]);
      assert s == [s[0]] + s[1..];
    }
  }

  lemma BlockListReads(d: Dialect, s: seq<RuleBlock>)
    ensures var v := Arranged(d, JArr(BlockItems(s))); v.JArr? && Blocks(v.items) == Some(s)
  {
    hide BlockJson, Blocks;
    var items := BlockItems(s);
    var out := ArrangedItems(d, JArr(items), items);
    assert Arranged(d, JArr(items)) == JArr(out);
    forall i | 0 <= i < |s| ensures out[i] == Arranged(d, BlockJson(s[i])) { assert items[i] == BlockJson(s[i]); }
    BlocksRead(d, s, out);
  }

  lemma ProfileReads(d: Dialect, p: Profile)
    ensures ProfileFrom(Arranged(d, Record(PROFILE_KEYS, ProfileValues(p)))) == Some(p)
  {
    SmallKeys();
    FieldReads(d, PROFILE_KEYS, ProfileValues(p), 0);
    FieldReads(d, PROFILE_KEYS, ProfileValues(p), 1);
    FieldReads(d, PROFILE_KEYS, ProfileValues(p), 2);
    ActionReads(d, p.defaultAction);
    hide Field, Record, ActionFrom;
  }

  /** The printed rule set with any further fields. */
  lemma RulesRecordReads(d: Dialect, r: RuleSet, keys: seq<string>, values: seq<Json>)
    requires |keys| == |values| && |RULES_KEYS| <= |keys| && Keys(keys)
    requires keys[..|RULES_KEYS|] == RULES_KEYS && values[..|RULES_KEYS|] == RulesValues(r)
    requires SchemaIn(Arranged(d, Record(keys, values))) == Some(r.schema)
    ensures RulesFrom(Arranged(d, Record(keys, values))) == Some(r)
  {
    hide Field, Record, Blocks, ProfileFrom, SchemaIn, Keys;
    var v := Arranged(d, Record(keys, values));
    forall i | 0 <= i < |RULES_KEYS| ensures Field(v, RULES_KEYS[i]) == Some(Arranged(d, RulesValues(r)[i])) {
      FieldReads(d, keys, values, i);
      assert keys[i] == keys[..|RULES_KEYS|][i] && values[i] == values[..|RULES_KEYS|][i];
    }
    assert RULES_KEYS[0] == "format_version" && RULES_KEYS[1] == "profile" && RULES_KEYS[2] == "blocks";
    ProfileReads(d, r.profile);
    BlockListReads(d, r.blocks);
  }

  /** A printed rule document, its members in any program's order, reads back by field names as the same rules. */
  lemma RulesRead(d: Dialect, r: RuleSet)
    ensures RulesFrom(Arranged(d, RulesToJson(r))) == Some(r)
  {
    hide Field, Record, Arranged, RulesFrom, Keys, RulesValues;
    RulesKeys();
    match r.schema
    case None =>
      FieldMissing(d, RULES_KEYS, RulesValues(r), "$schema");
      RulesRecordReads(d, r, RULES_KEYS, RulesValues(r));
    case Some(text) =>
      var keys := RULES_KEYS + ["$schema"];
      var values := RulesValues(r) + [JStr(text)];
      FieldReads(d, keys, values, |RULES_KEYS|);
      StringArranged(d, text);
      RulesRecordReads(d, r, keys, values);
  }

  lemma StringArranged(d: Dialect, text: string)
    ensures Arranged(d, JStr(text)) == JStr(text)
  {
  }

  /** So the canonical text of a rule set is JSON text from which a reader gets exactly that rule set. */
  lemma RulesTextReads(d: Dialect, r: RuleSet)
    requires d.Python? || SafePriorities(r)
    ensures ReadText(Text(d, RulesToJson(r))).Some? && RulesFrom(ReadText(Text(d, RulesToJson(r))).value) == Some(r)
  {
    hide RulesToJson, Text, ReadText, Arranged, RulesFrom, SafeNumbers, WellFormed;
    RulesWellFormed(r);
    TextReadsBack(d, RulesToJson(r));
    RulesRead(d, r);
  }

  // ---- The daemon's message ----

  const SNAPSHOT_KEYS := ["protocol_version", "generation", "revision", "rules"]

  function SnapshotValues(s: Snapshot, hex: Hex): (v: seq<Json>)
    ensures |v| == |SNAPSHOT_KEYS|
  {
    [JNum(s.protocol), JNum(s.generation), JStr(hex(s.revision)), RulesToJson(s.rules)]
  }

  lemma SnapshotKeys()
    ensures Keys(SNAPSHOT_KEYS)
  {
    assert Ascii("protocol_version") && Ascii("generation") && Ascii("revision") && Ascii("rules");
    KeysByMark(SNAPSHOT_KEYS, [4208, 2663, 2162, 1394]);
  }

  lemma SnapshotIsRecord(s: Snapshot, hex: Hex)
    ensures SnapshotJson(s, hex) == Record(SNAPSHOT_KEYS, SnapshotValues(s, hex))
  {
    hide RulesToJson;
    assert SnapshotJson(s, hex).members == Record(SNAPSHOT_KEYS, SnapshotValues(s, hex)).members;
  }

  lemma SnapshotReads(s: Snapshot, hex: Hex)
    ensures SnapshotFrom(Arranged(Python, SnapshotJson(s, hex))) == Some(Spelled(s.protocol, s.generation, hex(s.revision), s.rules))
  {
    SnapshotIsRecord(s, hex);
    SnapshotKeys();
    hide Field, Record, SnapshotJson, RulesToJson, RulesFrom, Keys;
    FieldReads(Python, SNAPSHOT_KEYS, SnapshotValues(s, hex), 0);
    FieldReads(Python, SNAPSHOT_KEYS, SnapshotValues(s, hex), 1);
    FieldReads(Python, SNAPSHOT_KEYS, SnapshotValues(s, hex), 2);
    FieldReads(Python, SNAPSHOT_KEYS, SnapshotValues(s, hex), 3);
    RulesRead(Python, s.rules);
  }

  /**
   * The text of a message is what its content says: read as JSON and by field names it has the protocol, the generation, the
   * spelled revision and the rules of the content. Beside it stands the key it was made with.
   */
  lemma MessageReads(rules: RuleSet, generation: int, publicKey: Option<string>, hex: Hex)
    requires MakeManagedSpec(rules, generation, publicKey, hex).Ok?
    ensures var m := MakeManagedSpec(rules, generation, publicKey, hex).value;
            && m.content.Some? && m.protocol == m.content.value.protocol == 2
            && m.generation == m.content.value.generation == generation && m.revision == m.content.value.revision
            && m.content.value.rules == rules.(schema := None) && m.publicKey == publicKey && m.signature.None?
            && ReadText(m.text).Some?
            && SnapshotFrom(ReadText(m.text).value) == Some(Spelled(2, generation, hex(m.revision), rules.(schema := None)))
  {
    MadeIsWrapped(rules, generation, publicKey, hex);
    hide MakeManagedSpec, Text, ReadText, Arranged, SnapshotFrom, RevisionOf, SnapshotJson;
    var s := SnapshotOf(rules, generation);
    TextReadsBack(Python, SnapshotJson(s, hex));
    SnapshotReads(s, hex);
  }
}
