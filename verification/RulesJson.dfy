/** The rule document as a JSON value: different rule sets are different values. */
module RulesJson {
  import opened TimeWindows
  import opened CanonicalJson
  import opened Rules

  // ---- Objects with a fixed list of keys ----

  /** The object that pairs the keys with the values. */
  function Record(keys: seq<string>, values: seq<Json>): Json
    requires |keys| == |values|
  {
    JObj(seq(|keys|, i requires 0 <= i < |keys| => Member(keys[i], values[i])))
  }

  /** Length and first character, enough to tell the keys of one record apart. */
  function Mark(key: string): int {
    |key| * 256 + if key == "" then 0 else key[0] as int
  }

  predicate Keys(keys: seq<string>) {
    && (forall i :: 0 <= i < |keys| ==> Ascii(keys[i]))
    && forall i, j :: 0 <= i < j < |keys| ==> Mark(keys[i]) != Mark(keys[j])
  }

  lemma RecordWellFormed(keys: seq<string>, values: seq<Json>)
    requires |keys| == |values| && Keys(keys)
    requires forall i :: 0 <= i < |values| ==> WellFormed(values[i])
    ensures WellFormed(Record(keys, values))
    ensures (forall i :: 0 <= i < |values| ==> SafeNumbers(values[i])) ==> SafeNumbers(Record(keys, values))
  {
    var ms := Record(keys, values).members;
    forall i, j | 0 <= i < j < |ms| ensures ms[i].key != ms[j].key {
      assert Mark(keys[i]) != Mark(keys[j]);
    }
  }

  /** Equal records over the same keys hold equal values key by key. */
  lemma SameRecord(keys: seq<string>, a: seq<Json>, b: seq<Json>)
    requires |keys| == |a| == |b| && Keys(keys)
    requires Same(Record(keys, a), Record(keys, b))
    ensures forall i :: 0 <= i < |keys| ==> Same(a[i], b[i])
  {
    var ms, ns := Record(keys, a).members, Record(keys, b).members;
    forall i | 0 <= i < |keys| ensures Same(a[i], b[i]) {
      assert Partnered(ms[i], ns);
      var j :| 0 <= j < |ns| && ms[i].key == ns[j].key && Same(ms[i].value, ns[j].value);
      assert keys[i] == keys[j];
      assert Mark(keys[i]) == Mark(keys[j]);
    }
  }

  /** Arrays with the same number of items are equal item by item. */
  lemma SameArray(a: seq<Json>, b: seq<Json>)
    requires Same(JArr(a), JArr(b))
    ensures |a| == |b| && forall i :: 0 <= i < |a| ==> Same(a[i], b[i])
  {
  }

  lemma ArrayWellFormed(a: seq<Json>)
    requires forall i :: 0 <= i < |a| ==> WellFormed(a[i])
    ensures WellFormed(JArr(a))
    ensures (forall i :: 0 <= i < |a| ==> SafeNumbers(a[i])) ==> SafeNumbers(JArr(a))
  {
  }

  // ---- The document ----

  function StringItems(s: seq<string>): (r: seq<Json>)
    ensures |r| == |s| && forall i :: 0 <= i < |s| ==> r[i] == JStr(s[i])
  {
    seq(|s|, i requires 0 <= i < |s| => JStr(s[i]))
  }

  function ActionJson(a: Action): Json {
    JStr(if a == Allow then "allow" else "block")
  }

  const REGEX_KEYS := ["pattern", "case_sensitive"]

  function RegexValues(r: UrlRegex): (v: seq<Json>)
    ensures |v| == |REGEX_KEYS|
  {
    [JStr(r.pattern), JBool(r.caseSensitive)]
  }

  function RegexItems(s: seq<UrlRegex>): (r: seq<Json>)
    ensures |r| == |s| && forall i :: 0 <= i < |s| ==> r[i] == Record(REGEX_KEYS, RegexValues(s[i]))
  {
    seq(|s|, i requires 0 <= i < |s| => Record(REGEX_KEYS, RegexValues(s[i])))
  }

  const MATCHERS_KEYS := ["domains", "url_patterns", "url_regex"]

  function MatchersValues(m: Matchers): (v: seq<Json>)
    ensures |v| == |MATCHERS_KEYS|
  {
    [JArr(StringItems(m.domains)), JArr(StringItems(m.urlPatterns)), JArr(RegexItems(m.urlRegex))]
  }

  const WINDOW_KEYS := ["start", "end", "rrule"]

  function WindowValues(w: Window): (v: seq<Json>)
    ensures |v| == |WINDOW_KEYS|
  {
    [JStr(w.start), JStr(w.end), JStr(w.rrule)]
  }

  function WindowItems(s: seq<Window>): (r: seq<Json>)
    ensures |r| == |s| && forall i :: 0 <= i < |s| ==> r[i] == Record(WINDOW_KEYS, WindowValues(s[i]))
  {
    seq(|s|, i requires 0 <= i < |s| => Record(WINDOW_KEYS, WindowValues(s[i])))
  }

  const SCHEDULE_KEYS := ["timezone", "windows"]

  function ScheduleValues(s: Schedule): (v: seq<Json>)
    ensures |v| == |SCHEDULE_KEYS|
  {
    [JStr(s.timezone), JArr(WindowItems(s.windows))]
  }

  const PERMISSION_KEYS := [
    "add_domains", "remove_domains", "add_url_patterns", "add_url_regex",
    "modify_exceptions", "modify_schedule", "disable_block"]

  function PermissionValues(p: Permissions): (v: seq<Json>)
    ensures |v| == |PERMISSION_KEYS|
  {
    [JBool(p.addDomains), JBool(p.removeDomains), JBool(p.addUrlPatterns), JBool(p.addUrlRegex),
     JBool(p.modifyExceptions), JBool(p.modifySchedule), JBool(p.disableBlock)]
  }

  const BLOCK_KEYS := [
    "id", "name", "enabled", "priority", "action", "user_permissions", "targets", "exceptions", "limits"]

  /** `limits` is reserved and always null. */
  function BlockValues(b: RuleBlock): (v: seq<Json>)
    ensures |v| == |BLOCK_KEYS|
  {
    [JStr(b.id), JStr(b.name), JBool(b.enabled), JNum(b.priority), ActionJson(b.action),
     Record(PERMISSION_KEYS, PermissionValues(b.permissions)),
     Record(MATCHERS_KEYS, MatchersValues(b.targets)), Record(MATCHERS_KEYS, MatchersValues(b.exceptions)), JNull]
  }

  /** The schedule is the one optional field. */
  function BlockJson(b: RuleBlock): Json {
    match b.schedule
    case None => Record(BLOCK_KEYS, BlockValues(b))
    case Some(s) =>
      Record(BLOCK_KEYS + ["schedule"], BlockValues(b) + [Record(SCHEDULE_KEYS, ScheduleValues(s))])
  }

  function BlockItems(s: seq<RuleBlock>): (r: seq<Json>)
    ensures |r| == |s| && forall i :: 0 <= i < |s| ==> r[i] == BlockJson(s[i])
  {
    seq(|s|, i requires 0 <= i < |s| => BlockJson(s[i]))
  }

  const PROFILE_KEYS := ["timezone", "default_action", "conflict_policy"]

  function ProfileValues(p: Profile): (v: seq<Json>)
    ensures |v| == |PROFILE_KEYS|
  {
    [JStr(p.timezone), ActionJson(p.defaultAction), JStr(p.conflictPolicy)]
  }

  const RULES_KEYS := ["format_version", "profile", "blocks"]

  function RulesValues(r: RuleSet): (v: seq<Json>)
    ensures |v| == |RULES_KEYS|
  {
    [JStr(r.formatVersion), Record(PROFILE_KEYS, ProfileValues(r.profile)), JArr(BlockItems(r.blocks))]
  }

  function RulesToJson(r: RuleSet): Json {
    match r.schema
    case None => Record(RULES_KEYS, RulesValues(r))
    case Some(text) => Record(RULES_KEYS + ["$schema"], RulesValues(r) + [JStr(text)])
  }

  // ---- The keys of every record are distinct ASCII text ----

  lemma KeysByMark(keys: seq<string>, marks: seq<int>)
    requires |keys| == |marks| && forall i :: 0 <= i < |keys| ==> Mark(keys[i]) == marks[i]
    requires forall i, j :: 0 <= i < j < |marks| ==> marks[i] != marks[j]
    requires forall i :: 0 <= i < |keys| ==> Ascii(keys[i])
    ensures Keys(keys)
  {
    forall i, j | 0 <= i < j < |keys| ensures Mark(keys[i]) != Mark(keys[j]) {
      assert marks[i] != marks[j];
    }
  }

  lemma SmallAscii()
    ensures Ascii("case_sensitive") && Ascii("conflict_policy") && Ascii("default_action") && Ascii("domains")
    ensures Ascii("end") && Ascii("pattern") && Ascii("rrule") && Ascii("start")
    ensures Ascii("timezone") && Ascii("url_patterns") && Ascii("url_regex") && Ascii("windows")
  {
  }

  lemma SmallKeys()
    ensures Keys(REGEX_KEYS) && Keys(MATCHERS_KEYS) && Keys(WINDOW_KEYS) && Keys(SCHEDULE_KEYS) && Keys(PROFILE_KEYS)
  {
    SmallAscii();
    KeysByMark(REGEX_KEYS, [1904, 3683]);
    KeysByMark(MATCHERS_KEYS, [1892, 3189, 2421]);
    KeysByMark(WINDOW_KEYS, [1395, 869, 1394]);
    KeysByMark(SCHEDULE_KEYS, [2164, 1911]);
    KeysByMark(PROFILE_KEYS, [2164, 3684, 3939]);
  }

  lemma PermissionAscii()
    ensures Ascii("add_domains") && Ascii("remove_domains") && Ascii("add_url_patterns") && Ascii("add_url_regex")
    ensures Ascii("modify_exceptions") && Ascii("modify_schedule") && Ascii("disable_block")
  {
  }

  lemma PermissionKeys()
    ensures Keys(PERMISSION_KEYS)
  {
    PermissionAscii();
    KeysByMark(PERMISSION_KEYS, [2913, 3698, 4193, 3425, 4461, 3949, 3428]);
  }

  lemma BlockAscii()
    ensures Ascii("id") && Ascii("name") && Ascii("enabled") && Ascii("priority")
    ensures Ascii("action") && Ascii("user_permissions") && Ascii("targets") && Ascii("exceptions")
    ensures Ascii("limits") && Ascii("schedule")
  {
  }

  lemma BlockKeys()
    ensures Keys(BLOCK_KEYS) && Keys(BLOCK_KEYS + ["schedule"])
  {
    BlockAscii();
    KeysByMark(BLOCK_KEYS, [617, 1134, 1893, 2160, 1633, 4213, 1908, 2661, 1644]);
    KeysByMark(BLOCK_KEYS + ["schedule"], [617, 1134, 1893, 2160, 1633, 4213, 1908, 2661, 1644, 2163]);
  }

  lemma RulesKeys()
    ensures Keys(RULES_KEYS) && Keys(RULES_KEYS + ["$schema"])
  {
    assert Ascii("format_version") && Ascii("profile") && Ascii("blocks") && Ascii("$schema");
    KeysByMark(RULES_KEYS, [3686, 1904, 1634]);
    KeysByMark(RULES_KEYS + ["$schema"], [3686, 1904, 1634, 1828]);
  }

  // ---- Every document is a well-formed value ----

  lemma MatchersWellFormed(m: Matchers)
    ensures WellFormed(Record(MATCHERS_KEYS, MatchersValues(m))) && SafeNumbers(Record(MATCHERS_KEYS, MatchersValues(m)))
  {
    SmallKeys();
    forall i | 0 <= i < |m.urlRegex|
      ensures WellFormed(RegexItems(m.urlRegex)[i]) && SafeNumbers(RegexItems(m.urlRegex)[i])
    {
      RecordWellFormed(REGEX_KEYS, RegexValues(m.urlRegex[i]));
    }
    ArrayWellFormed(StringItems(m.domains));
    ArrayWellFormed(StringItems(m.urlPatterns));
    ArrayWellFormed(RegexItems(m.urlRegex));
    RecordWellFormed(MATCHERS_KEYS, MatchersValues(m));
  }

  lemma ScheduleWellFormed(s: Schedule)
    ensures WellFormed(Record(SCHEDULE_KEYS, ScheduleValues(s))) && SafeNumbers(Record(SCHEDULE_KEYS, ScheduleValues(s)))
  {
    SmallKeys();
    forall i | 0 <= i < |s.windows|
      ensures WellFormed(WindowItems(s.windows)[i]) && SafeNumbers(WindowItems(s.windows)[i])
    {
      RecordWellFormed(WINDOW_KEYS, WindowValues(s.windows[i]));
    }
    ArrayWellFormed(WindowItems(s.windows));
    RecordWellFormed(SCHEDULE_KEYS, ScheduleValues(s));
  }

  lemma ScalarWellFormed(v: Json)
    requires !v.JArr? && !v.JObj?
    ensures WellFormed(v) && (!v.JNum? || SafeInteger(v.n) ==> SafeNumbers(v))
  {
  }

  /** The values a block always has. */
  lemma BlockValuesWellFormed(b: RuleBlock)
    ensures forall i :: 0 <= i < |BlockValues(b)| ==>
              WellFormed(BlockValues(b)[i]) && (SafeInteger(b.priority) ==> SafeNumbers(BlockValues(b)[i]))
  {
    hide WellFormed, SafeNumbers, SafeInteger, Keys, Record;
    PermissionKeys();
    MatchersWellFormed(b.targets);
    MatchersWellFormed(b.exceptions);
    PermissionsWellFormed(b.permissions);
    forall i | 0 <= i < |BlockValues(b)|
      ensures WellFormed(BlockValues(b)[i]) && (SafeInteger(b.priority) ==> SafeNumbers(BlockValues(b)[i]))
    {
      if i <= 4 || i == 8 { ScalarWellFormed(BlockValues(b)[i]); }
    }
  }

  lemma PermissionsWellFormed(p: Permissions)
    ensures WellFormed(Record(PERMISSION_KEYS, PermissionValues(p))) && SafeNumbers(Record(PERMISSION_KEYS, PermissionValues(p)))
  {
    hide Record, Keys;
    PermissionKeys();
    RecordWellFormed(PERMISSION_KEYS, PermissionValues(p));
  }

  lemma BlockWellFormed(b: RuleBlock)
    ensures WellFormed(BlockJson(b)) && (SafeInteger(b.priority) ==> SafeNumbers(BlockJson(b)))
  {
    hide WellFormed, SafeNumbers, Keys, Record, BlockValues, ScheduleValues;
    BlockKeys();
    BlockValuesWellFormed(b);
    match b.schedule
    case None => RecordWellFormed(BLOCK_KEYS, BlockValues(b));
    case Some(s) =>
      ScheduleWellFormed(s);
      RecordWellFormed(BLOCK_KEYS + ["schedule"], BlockValues(b) + [Record(SCHEDULE_KEYS, ScheduleValues(s))]);
  }

  predicate SafePriorities(r: RuleSet) {
    forall i :: 0 <= i < |r.blocks| ==> SafeInteger(r.blocks[i].priority)
  }

  lemma BlocksWellFormed(blocks: seq<RuleBlock>)
    ensures var v := JArr(BlockItems(blocks));
            WellFormed(v) && ((forall i :: 0 <= i < |blocks| ==> SafeInteger(blocks[i].priority)) ==> SafeNumbers(v))
  {
    hide WellFormed, SafeNumbers, BlockJson, SafeInteger;
    forall i | 0 <= i < |blocks|
      ensures WellFormed(BlockItems(blocks)[i]) && (SafeInteger(blocks[i].priority) ==> SafeNumbers(BlockItems(blocks)[i]))
    {
      BlockWellFormed(blocks[i]);
    }
    ArrayWellFormed(BlockItems(blocks));
  }

  /** The document's keys are distinct ASCII text at every level, and its only numbers are the priorities. */
  lemma RulesWellFormed(r: RuleSet)
    ensures WellFormed(RulesToJson(r)) && (SafePriorities(r) ==> SafeNumbers(RulesToJson(r)))
  {
    hide WellFormed, SafeNumbers, Keys, Record, BlockItems, ProfileValues;
    RulesKeys();
    BlocksWellFormed(r.blocks);
    ProfileWellFormed(r.profile);
    ScalarWellFormed(JStr(r.formatVersion));
    match r.schema
    case None => RecordWellFormed(RULES_KEYS, RulesValues(r));
    case Some(text) =>
      ScalarWellFormed(JStr(text));
      RecordWellFormed(RULES_KEYS + ["$schema"], RulesValues(r) + [JStr(text)]);
  }

  lemma ProfileWellFormed(p: Profile)
    ensures WellFormed(Record(PROFILE_KEYS, ProfileValues(p))) && SafeNumbers(Record(PROFILE_KEYS, ProfileValues(p)))
  {
    hide Record, Keys;
    SmallKeys();
    RecordWellFormed(PROFILE_KEYS, ProfileValues(p));
  }

  // ---- Same JSON value, same document ----

  lemma SameStrings(a: seq<string>, b: seq<string>)
    requires Same(JArr(StringItems(a)), JArr(StringItems(b)))
    ensures a == b
  {
    SameArray(StringItems(a), StringItems(b));
    forall i | 0 <= i < |a| ensures a[i] == b[i] {
      assert Same(StringItems(a)[i], StringItems(b)[i]);
    }
  }

  lemma SameRegex(a: UrlRegex, b: UrlRegex)
    requires Same(Record(REGEX_KEYS, RegexValues(a)), Record(REGEX_KEYS, RegexValues(b)))
    ensures a == b
  {
    SmallKeys();
    SameRecord(REGEX_KEYS, RegexValues(a), RegexValues(b));
    assert Same(RegexValues(a)[0], RegexValues(b)[0]) && Same(RegexValues(a)[1], RegexValues(b)[1]);
  }

  lemma SameMatchers(a: Matchers, b: Matchers)
    requires Same(Record(MATCHERS_KEYS, MatchersValues(a)), Record(MATCHERS_KEYS, MatchersValues(b)))
    ensures a == b
  {
    SmallKeys();
    var va, vb := MatchersValues(a), MatchersValues(b);
    SameRecord(MATCHERS_KEYS, va, vb);
    assert Same(va[0], vb[0]) && Same(va[1], vb[1]) && Same(va[2], vb[2]);
    SameStrings(a.domains, b.domains);
    SameStrings(a.urlPatterns, b.urlPatterns);
    SameArray(RegexItems(a.urlRegex), RegexItems(b.urlRegex));
    forall i | 0 <= i < |a.urlRegex| ensures a.urlRegex[i] == b.urlRegex[i] {
      assert Same(RegexItems(a.urlRegex)[i], RegexItems(b.urlRegex)[i]);
      SameRegex(a.urlRegex[i], b.urlRegex[i]);
    }
  }

  lemma SameWindow(a: Window, b: Window)
    requires Same(Record(WINDOW_KEYS, WindowValues(a)), Record(WINDOW_KEYS, WindowValues(b)))
    ensures a == b
  {
    SmallKeys();
    var va, vb := WindowValues(a), WindowValues(b);
    SameRecord(WINDOW_KEYS, va, vb);
    assert Same(va[0], vb[0]) && Same(va[1], vb[1]) && Same(va[2], vb[2]);
  }

  lemma SameSchedule(a: Schedule, b: Schedule)
    requires Same(Record(SCHEDULE_KEYS, ScheduleValues(a)), Record(SCHEDULE_KEYS, ScheduleValues(b)))
    ensures a == b
  {
    SmallKeys();
    var va, vb := ScheduleValues(a), ScheduleValues(b);
    SameRecord(SCHEDULE_KEYS, va, vb);
    assert Same(va[0], vb[0]) && Same(va[1], vb[1]);
    SameArray(WindowItems(a.windows), WindowItems(b.windows));
    forall i | 0 <= i < |a.windows| ensures a.windows[i] == b.windows[i] {
      assert Same(WindowItems(a.windows)[i], WindowItems(b.windows)[i]);
      SameWindow(a.windows[i], b.windows[i]);
    }
  }

  lemma SameAction(a: Action, b: Action)
    requires Same(ActionJson(a), ActionJson(b))
    ensures a == b
  {
    assert "allow"[0] != "block"[0];
  }

  lemma SamePermissions(a: Permissions, b: Permissions)
    requires Same(Record(PERMISSION_KEYS, PermissionValues(a)), Record(PERMISSION_KEYS, PermissionValues(b)))
    ensures a == b
  {
    PermissionKeys();
    var va, vb := PermissionValues(a), PermissionValues(b);
    SameRecord(PERMISSION_KEYS, va, vb);
    assert Same(va[0], vb[0]) && Same(va[1], vb[1]) && Same(va[2], vb[2]) && Same(va[3], vb[3]);
    assert Same(va[4], vb[4]) && Same(va[5], vb[5]) && Same(va[6], vb[6]);
  }

  /** A record with an extra last field holds the fields of the record without it. */
  lemma SameExtended(keys: seq<string>, extra: string, a: seq<Json>, x: Json, b: seq<Json>, y: Json)
    requires |keys| == |a| == |b| && Keys(keys + [extra])
    requires Same(Record(keys + [extra], a + [x]), Record(keys + [extra], b + [y]))
    ensures Same(x, y) && forall i :: 0 <= i < |keys| ==> Same(a[i], b[i])
  {
    SameRecord(keys + [extra], a + [x], b + [y]);
    assert Same((a + [x])[|keys|], (b + [y])[|keys|]);
    forall i | 0 <= i < |keys| ensures Same(a[i], b[i]) {
      assert Same((a + [x])[i], (b + [y])[i]);
    }
  }

  lemma SameBlockFields(a: RuleBlock, b: RuleBlock)
    requires forall i :: 0 <= i < |BLOCK_KEYS| ==> Same(BlockValues(a)[i], BlockValues(b)[i])
    ensures a == b.(schedule := a.schedule)
  {
    var va, vb := BlockValues(a), BlockValues(b);
    assert Same(va[0], vb[0]) && Same(va[1], vb[1]) && Same(va[2], vb[2]) && Same(va[3], vb[3]) && Same(va[4], vb[4]);
    assert Same(va[5], vb[5]) && Same(va[6], vb[6]) && Same(va[7], vb[7]);
    SameAction(a.action, b.action);
    SamePermissions(a.permissions, b.permissions);
    SameMatchers(a.targets, b.targets);
    SameMatchers(a.exceptions, b.exceptions);
  }

  lemma SameBlock(a: RuleBlock, b: RuleBlock)
    requires Same(BlockJson(a), BlockJson(b))
    ensures a == b
  {
    BlockKeys();
    var va, vb := BlockValues(a), BlockValues(b);
    assert |BlockJson(a).members| == |BlockJson(b).members|;
    match a.schedule
    case None =>
      SameRecord(BLOCK_KEYS, va, vb);
      SameBlockFields(a, b);
    case Some(s) =>
      var t := b.schedule.value;
      SameExtended(BLOCK_KEYS, "schedule", va, Record(SCHEDULE_KEYS, ScheduleValues(s)),
                   vb, Record(SCHEDULE_KEYS, ScheduleValues(t)));
      SameSchedule(s, t);
      SameBlockFields(a, b);
  }

  lemma SameProfile(a: Profile, b: Profile)
    requires Same(Record(PROFILE_KEYS, ProfileValues(a)), Record(PROFILE_KEYS, ProfileValues(b)))
    ensures a == b
  {
    SmallKeys();
    var va, vb := ProfileValues(a), ProfileValues(b);
    SameRecord(PROFILE_KEYS, va, vb);
    assert Same(va[0], vb[0]) && Same(va[1], vb[1]) && Same(va[2], vb[2]);
    SameAction(a.defaultAction, b.defaultAction);
  }

  lemma SameRulesFields(a: RuleSet, b: RuleSet)
    requires forall i :: 0 <= i < |RULES_KEYS| ==> Same(RulesValues(a)[i], RulesValues(b)[i])
    ensures a == b.(schema := a.schema)
  {
    var va, vb := RulesValues(a), RulesValues(b);
    assert Same(va[0], vb[0]) && Same(va[1], vb[1]) && Same(va[2], vb[2]);
    SameProfile(a.profile, b.profile);
    SameArray(BlockItems(a.blocks), BlockItems(b.blocks));
    forall i | 0 <= i < |a.blocks| ensures a.blocks[i] == b.blocks[i] {
      assert Same(BlockItems(a.blocks)[i], BlockItems(b.blocks)[i]);
      SameBlock(a.blocks[i], b.blocks[i]);
    }
  }

  /** No two rule sets share a JSON value, whatever the order of its members. */
  lemma SameRules(a: RuleSet, b: RuleSet)
    requires Same(RulesToJson(a), RulesToJson(b))
    ensures a == b
  {
    RulesKeys();
    assert |RulesToJson(a).members| == |RulesToJson(b).members|;
    match a.schema
    case None =>
      SameRecord(RULES_KEYS, RulesValues(a), RulesValues(b));
      SameRulesFields(a, b);
    case Some(text) =>
      SameExtended(RULES_KEYS, "$schema", RulesValues(a), JStr(text), RulesValues(b), JStr(b.schema.value));
      SameRulesFields(a, b);
  }
}
