/** Snapshots: how the daemon wraps a rule set and what the extension accepts. */
module ManagedData {
  import opened Basics
  import opened CanonicalJson
  import opened JsonAgreement
  import opened MatchPattern
  import opened Rules
  import opened RulesJson
  import opened Validation
  import opened Evaluation
  import opened Compiler

  /** A SHA-256 digest, taken as collision-free: it stands for the text it was computed from. */
  datatype Revision = Digest(text: string)

  /** How a digest is spelled inside a snapshot text. */
  type Hex = Revision -> string

  /** Sixty-four hexadecimal digits. */
  ghost predicate HexOk(hex: Hex) {
    forall r :: |hex(r)| == 64 && Plain(hex(r))
  }

  /** A signature as the key and the text it was made from. */
  datatype Signature = Signed(key: string, text: string)

  datatype Snapshot = Snapshot(protocol: int, generation: int, revision: Revision, rules: RuleSet)

  /**
   * What is stored in the browser policy and in the live file. `content` is what `JSON.parse` makes of `text`,
   * None where that is not a snapshot object; a message without the expected fields has another `protocol`.
   */
  datatype Managed = Managed(
    protocol: int, generation: int, revision: Revision, text: string, content: Option<Snapshot>,
    publicKey: Option<string>, signature: Option<Signature>)

  const PROTOCOL := 2
  const MAX_SNAPSHOT_BYTES := 1_000_000
  const MAX_SNAPSHOT_CHARACTERS := 1_000_000

  datatype PublishError =
    | BadGeneration
    | UnsupportedBlock(id: string)
    | TooManyTargets(count: nat)
    | SnapshotTooLarge(bytes: nat)

  // ---- Text sizes ----

  function Utf8Width(c: char): nat {
    if c < '\U{80}' then 1 else if c < '\U{800}' then 2 else if c <= '\U{FFFF}' then 3 else 4
  }

  function Utf8Length(s: string): nat {
    if s == "" then 0
    else Utf8Width(s[0]) + Utf8Length(s[1..])
  }

  /** JavaScript's `length`: UTF-16 code units. */
  function Utf16Length(s: string): nat {
    |AllUnits(s)|
  }

  // ---- Revisions ----

  function RulesText(r: RuleSet): string { Text(Python, RulesToJson(r)) }

  /** `object_revision` of a rule set, and the digest the extension recomputes. */
  function RevisionOf(r: RuleSet): Revision { Digest(RulesText(r)) }

  function BrowserRevision(r: RuleSet): Revision { Digest(Text(JavaScript, RulesToJson(r))) }

  /** The document without its `$schema` reference. */
  function Normalized(r: RuleSet): RuleSet { r.(schema := None) }

  /** A revision names one rule set; between the two programs while the priorities are safe integers. */
  lemma RevisionIdentifiesRules(a: RuleSet, b: RuleSet)
    ensures RevisionOf(a) == RevisionOf(b) <==> a == b
    ensures SafePriorities(b) ==> (RevisionOf(a) == BrowserRevision(b) <==> a == b)
  {
    hide RulesToJson, Text, Same, WellFormed, SafeNumbers, SafePriorities;
    RulesWellFormed(a);
    RulesWellFormed(b);
    CanonicalTextIsIdentity(RulesToJson(a), RulesToJson(b));
    if Same(RulesToJson(a), RulesToJson(b)) { SameRules(a, b); }
    SameItself(a);
  }

  lemma SameItself(a: RuleSet)
    ensures Same(RulesToJson(a), RulesToJson(a))
  {
    RulesWellFormed(a);
    EqualTextSameValue(Python, Python, RulesToJson(a), RulesToJson(a));
  }

  // ---- The daemon's side ----

  /** The target count of the blocks from `k` on, or the first block with unsupported exceptions. */
  function CountFrom(blocks: seq<RuleBlock>, k: nat, count: nat): Result<nat, PublishError>
    requires k <= |blocks|
    decreases |blocks| - k
  {
    if k == |blocks| then Ok(count)
    else if HasTextExceptions(blocks[k]) then Err(UnsupportedBlock(blocks[k].id))
    else CountFrom(blocks, k + 1, count + TargetCount(blocks[k]))
  }

  function SnapshotJson(s: Snapshot, hex: Hex): Json {
    JObj([
      Member("protocol_version", JNum(s.protocol)), Member("generation", JNum(s.generation)),
      Member("revision", JStr(hex(s.revision))), Member("rules", RulesToJson(s.rules))])
  }

  function SnapshotOf(rules: RuleSet, generation: int): Snapshot {
    Snapshot(PROTOCOL, generation, RevisionOf(Normalized(rules)), Normalized(rules))
  }

  function Wrapped(rules: RuleSet, generation: int, publicKey: Option<string>, hex: Hex): Managed {
    var s := SnapshotOf(rules, generation);
    Managed(PROTOCOL, generation, s.revision, Text(Python, SnapshotJson(s, hex)), Some(s), publicKey, None)
  }

  function MakeManagedSpec(rules: RuleSet, generation: int, publicKey: Option<string>, hex: Hex): Result<Managed, PublishError> {
    if generation <= 0 then Err(BadGeneration)
    else
      match CountFrom(rules.blocks, 0, 0)
      case Err(e) => Err(e)
      case Ok(count) =>
        if count > MAX_DYNAMIC_RULES then Err(TooManyTargets(count))
        else
          var bytes := Utf8Length(RulesText(Normalized(rules)));
          if bytes > MAX_SNAPSHOT_BYTES then Err(SnapshotTooLarge(bytes))
          else Ok(Wrapped(rules, generation, publicKey, hex))
  }

  function TargetTotal(blocks: seq<RuleBlock>): nat {
    if blocks == [] then 0 else TargetCount(blocks[0]) + TargetTotal(blocks[1..])
  }

  /** No exception is a pattern or a regex, the targets of all blocks together are within the limit, and so is the text. */
  predicate Publishable(rules: RuleSet) {
    && (forall i :: 0 <= i < |rules.blocks| ==> !HasTextExceptions(rules.blocks[i]))
    && TargetTotal(rules.blocks) <= MAX_DYNAMIC_RULES
    && Utf8Length(RulesText(Normalized(rules))) <= MAX_SNAPSHOT_BYTES
  }

  lemma {:induction false} CountsTargets(blocks: seq<RuleBlock>, k: nat, count: nat)
    requires k <= |blocks|
    ensures CountFrom(blocks, k, count).Ok? <==> forall i :: k <= i < |blocks| ==> !HasTextExceptions(blocks[i])
    ensures CountFrom(blocks, k, count).Ok? ==> CountFrom(blocks, k, count).value == count + TargetTotal(blocks[k..])
    decreases |blocks| - k
  {
    if k < |blocks| {
      assert blocks[k..][0] == blocks[k] && blocks[k..][1..] == blocks[k + 1..];
      CountsTargets(blocks, k + 1, count + TargetCount(blocks[k]));
    }
  }

  /** Whether a snapshot can be made depends on the rules and on a positive generation only. */
  lemma PublishableExactly(rules: RuleSet, generation: int, publicKey: Option<string>, hex: Hex)
    ensures MakeManagedSpec(rules, generation, publicKey, hex).Ok? <==> generation > 0 && Publishable(rules)
  {
    hide CountFrom, Utf8Length, RulesText, Wrapped, HasTextExceptions, TargetTotal;
    CountsTargets(rules.blocks, 0, 0);
    assert rules.blocks[0..] == rules.blocks;
  }

  lemma MadeIsWrapped(rules: RuleSet, generation: int, publicKey: Option<string>, hex: Hex)
    requires MakeManagedSpec(rules, generation, publicKey, hex).Ok?
    ensures MakeManagedSpec(rules, generation, publicKey, hex).value == Wrapped(rules, generation, publicKey, hex)
  {
  }

  method MakeManagedData(rules: RuleSet, generation: int, publicKey: Option<string>, hex: Hex)
    returns (r: Result<Managed, PublishError>)
    ensures r == MakeManagedSpec(rules, generation, publicKey, hex)
  {
    if generation <= 0 { return Err(BadGeneration); }
    var count: nat := 0;
    for k := 0 to |rules.blocks|
      invariant CountFrom(rules.blocks, 0, 0) == CountFrom(rules.blocks, k, count)
    {
      var block := rules.blocks[k];
      if block.exceptions.urlPatterns != [] || block.exceptions.urlRegex != [] {
        return Err(UnsupportedBlock(block.id));
      }
      count := count + |block.targets.domains| + |block.targets.urlPatterns| + |block.targets.urlRegex|;
    }
    if count > MAX_DYNAMIC_RULES { return Err(TooManyTargets(count)); }
    var normalized := Normalized(rules);
    var encoded := Utf8Length(RulesText(normalized));
    if encoded > MAX_SNAPSHOT_BYTES { return Err(SnapshotTooLarge(encoded)); }
    var snapshot := Snapshot(PROTOCOL, generation, RevisionOf(normalized), normalized);
    var text := Text(Python, SnapshotJson(snapshot, hex));
    return Ok(Managed(PROTOCOL, generation, snapshot.revision, text, Some(snapshot), publicKey, None));
  }

  // ---- The extension's side ----

  /** The checks of the extension, in their order; None where any of them throws. */
  function ParseManagedSnapshot(m: Managed): Option<Snapshot> {
    if m.protocol != PROTOCOL then None
    else if !(SafeInteger(m.generation) && m.generation > 0) then None
    else if Utf16Length(m.text) > MAX_SNAPSHOT_CHARACTERS then None
    else
      match m.content
      case None => None
      case Some(s) =>
        if s.protocol != PROTOCOL then None
        else if !(SafeInteger(s.generation) && s.generation == m.generation) then None
        else if s.revision != m.revision then None
        else if BrowserRevision(s.rules) != s.revision then None
        else if !EngineAccepts(s.rules) then None
        else Some(s)
  }

  /** Whatever the extension accepts carries the digest of its own rules. */
  lemma AcceptedIsAuthentic(m: Managed)
    requires ParseManagedSnapshot(m).Some?
    ensures var s := ParseManagedSnapshot(m).value;
            && m.content == Some(s) && m.protocol == s.protocol == 2 && Utf16Length(m.text) <= 1_000_000
            && s.revision == m.revision == RevisionOf(s.rules) && s.generation == m.generation && 0 < s.generation <= MAX_SAFE_INTEGER
            && EngineAccepts(s.rules)
  {
    var s := ParseManagedSnapshot(m).value;
    RevisionIdentifiesRules(s.rules, s.rules);
  }

  // ---- Acceptance transfers, with room for the wrapper ----

  lemma ValidAccepted(rules: RuleSet, lib: Libraries)
    requires ValidRules(rules, lib)
    ensures EngineAccepts(Normalized(rules))
  {
    forall i | 0 <= i < |rules.blocks| ensures -1000 <= rules.blocks[i].priority <= 1000 {
      assert ValidBlock(rules.blocks[i], lib);
    }
  }

  /** Exactly when the extension accepts what the daemon made from a valid rule set. */
  lemma PublishedIsAccepted(rules: RuleSet, lib: Libraries, generation: int, publicKey: Option<string>, hex: Hex)
    requires ValidRules(rules, lib)
    requires MakeManagedSpec(rules, generation, publicKey, hex).Ok?
    ensures var m := MakeManagedSpec(rules, generation, publicKey, hex).value;
            && (ParseManagedSnapshot(m).Some? <==>
                generation <= MAX_SAFE_INTEGER && Utf16Length(m.text) <= MAX_SNAPSHOT_CHARACTERS)
            && (ParseManagedSnapshot(m).Some? ==>
                ParseManagedSnapshot(m).value == SnapshotOf(rules, generation))
  {
    hide Utf8Length, Utf16Length, RulesText, CountFrom, ValidRules, EngineAccepts, BrowserRevision, Text;
    ValidAccepted(rules, lib);
    RevisionIdentifiesRules(Normalized(rules), Normalized(rules));
  }

  // ---- The size of the wrapper ----

  lemma {:induction false} UnitsAppend(a: string, b: string)
    ensures Utf16Length(a + b) == Utf16Length(a) + Utf16Length(b)
  {
    if a == "" {
      assert a + b == b;
    } else {
      UnitsAppend(a[1..], b);
      assert (a + b)[1..] == a[1..] + b;
    }
  }

  lemma {:induction false} AsciiLength(s: string)
    requires Ascii(s)
    ensures Utf16Length(s) == |s|
  {
    if s != "" {
      AsciiLength(s[1..]);
      assert |Units(s[0])| == 1;
    }
  }

  /** Code units never outnumber UTF-8 bytes. */
  lemma {:induction false} UnitsWithinBytes(s: string)
    ensures Utf16Length(s) <= Utf8Length(s)
  {
    if s != "" { UnitsWithinBytes(s[1..]); }
  }

  /** Text that every printer copies unchanged. */
  predicate Plain(s: string) {
    forall i :: 0 <= i < |s| ==> ' ' <= s[i] <= '~' && s[i] != '"' && s[i] != '\\'
  }

  lemma {:induction false} PlainQuoted(s: string)
    requires Plain(s)
    ensures QuoteAll(Python, s) == s
  {
    if s != "" {
      PlainQuoted(s[1..]);
      assert s == [s[0]] + s[1..];
      assert Quote(Python, s[0]) == [s[0]];
    }
  }

  /** A number below the power of ten has at most that many digits. */
  lemma {:induction false} DigitCount(n: nat, d: nat)
    requires d >= 1 && n < Pow10(d)
    ensures |NatText(n)| <= d
  {
    if n >= 10 { DigitCount(n / 10, d - 1); }
  }

  lemma {:induction false} DigitsAscii(n: nat)
    ensures Ascii(NatText(n))
  {
    if n >= 10 { DigitsAscii(n / 10); }
  }

  /** Four characters around every key and value: two quotes, the colon, and the key itself. */
  lemma KeyLength(key: string, value: string)
    requires Plain(key)
    ensures Utf16Length(MemberText(Python, key, value)) == |key| + 3 + Utf16Length(value)
  {
    PlainQuoted(key);
    var head := "\"" + key + "\":";
    assert MemberText(Python, key, value) == head + value;
    UnitsAppend(head, value);
    AsciiLength(head);
  }

  lemma JoinFour(a: string, b: string, c: string, d: string)
    ensures Utf16Length("{" + Join([a, b, c, d], ",") + "}") ==
            Utf16Length(a) + Utf16Length(b) + Utf16Length(c) + Utf16Length(d) + 5
  {
    assert [a, b, c, d][1..] == [b, c, d] && [b, c, d][1..] == [c, d] && [c, d][1..] == [d];
    assert Join([c, d], ",") == c + "," + d;
    assert Join([b, c, d], ",") == b + "," + (c + "," + d);
    assert Join([a, b, c, d], ",") == a + "," + (b + "," + (c + "," + d));
    AsciiLength("{");
    AsciiLength("}");
    AsciiLength(",");
    CommaLength(c, d);
    CommaLength(b, c + "," + d);
    CommaLength(a, b + "," + (c + "," + d));
    UnitsAppend("{", Join([a, b, c, d], ","));
    UnitsAppend("{" + Join([a, b, c, d], ","), "}");
  }

  lemma CommaLength(a: string, b: string)
    ensures Utf16Length(a + "," + b) == Utf16Length(a) + Utf16Length(b) + 1
  {
    UnitsAppend(a, ",");
    UnitsAppend(a + ",", b);
    AsciiLength(",");
  }

  /** Sorted keys of a snapshot text. */
  lemma SnapshotMembers(s: Snapshot, hex: Hex)
    ensures SortMembers(Python, SnapshotJson(s, hex).members) == [
      Member("generation", JNum(s.generation)), Member("protocol_version", JNum(s.protocol)),
      Member("revision", JStr(hex(s.revision))), Member("rules", RulesToJson(s.rules))]
  {
    var p, g := Member("protocol_version", JNum(s.protocol)), Member("generation", JNum(s.generation));
    var r, u := Member("revision", JStr(hex(s.revision))), Member("rules", RulesToJson(s.rules));
    assert !KeyLeq(Python, p.key, g.key) && KeyLeq(Python, p.key, r.key) && KeyLeq(Python, g.key, r.key);
    RevisionBeforeRules();
    assert [p, g, r, u][1..] == [g, r, u] && [g, r, u][1..] == [r, u] && [r, u][1..] == [u] && [u][1..] == [];
    assert SortMembers(Python, [u]) == [u];
    assert SortMembers(Python, [r, u]) == [r, u];
    assert SortMembers(Python, [g, r, u]) == [g, r, u];
    assert InsertMember(Python, p, [g, r, u]) == [g] + InsertMember(Python, p, [r, u]);
  }

  lemma RevisionBeforeRules()
    ensures KeyLeq(Python, "revision", "rules")
  {
    assert "revision"[1..][0] == 'e' && "rules"[1..][0] == 'u';
  }

  lemma FourItems(s: seq<string>)
    requires |s| == 4
    ensures s == [s[0], s[1], s[2], s[3]]
  {
  }

  lemma TextOfFour(v: Json, a: Member, b: Member, c: Member, d: Member)
    requires v.JObj? && SortMembers(Python, v.members) == [a, b, c, d]
    ensures Text(Python, v) == "{" + Join([
              MemberText(Python, a.key, Text(Python, a.value)), MemberText(Python, b.key, Text(Python, b.value)),
              MemberText(Python, c.key, Text(Python, c.value)), MemberText(Python, d.key, Text(Python, d.value))], ",") + "}"
  {
    FourItems(MemberTexts(Python, v, SortMembers(Python, v.members)));
  }

  /** An object with four plain keys: keys, values, three signs per member, three commas and two braces. */
  lemma LengthOfFour(v: Json, a: Member, b: Member, c: Member, d: Member)
    requires v.JObj? && SortMembers(Python, v.members) == [a, b, c, d]
    requires Plain(a.key) && Plain(b.key) && Plain(c.key) && Plain(d.key)
    ensures Utf16Length(Text(Python, v)) ==
            |a.key| + |b.key| + |c.key| + |d.key| + 17 +
            Utf16Length(Text(Python, a.value)) + Utf16Length(Text(Python, b.value)) +
            Utf16Length(Text(Python, c.value)) + Utf16Length(Text(Python, d.value))
  {
    TextOfFour(v, a, b, c, d);
    JoinFour(MemberText(Python, a.key, Text(Python, a.value)), MemberText(Python, b.key, Text(Python, b.value)),
             MemberText(Python, c.key, Text(Python, c.value)), MemberText(Python, d.key, Text(Python, d.value)));
    KeyLength(a.key, Text(Python, a.value));
    KeyLength(b.key, Text(Python, b.value));
    KeyLength(c.key, Text(Python, c.value));
    KeyLength(d.key, Text(Python, d.value));
  }

  lemma SnapshotKeysPlain()
    ensures Plain("generation") && Plain("protocol_version") && Plain("revision") && Plain("rules")
  {
  }

  lemma NumberLength(n: int)
    requires n > 0
    ensures Utf16Length(Text(Python, JNum(n))) == |NatText(n)|
  {
    DigitsAscii(n);
    AsciiLength(NatText(n));
  }

  lemma RevisionLength(text: string)
    requires |text| == 64 && Plain(text)
    ensures Utf16Length(StringText(Python, text)) == 66
  {
    PlainQuoted(text);
    AsciiLength("\"" + text + "\"");
  }

  /** The wrapper adds 123 characters and the digits of the generation to the rules text. */
  lemma WrapperLength(s: Snapshot, hex: Hex)
    requires HexOk(hex) && s.protocol == PROTOCOL && s.generation > 0
    ensures Utf16Length(Text(Python, SnapshotJson(s, hex))) ==
            Utf16Length(RulesText(s.rules)) + 123 + |NatText(s.generation)|
  {
    SnapshotMembers(s, hex);
    SnapshotKeysPlain();
    LengthOfFour(SnapshotJson(s, hex), Member("generation", JNum(s.generation)), Member("protocol_version", JNum(s.protocol)),
                 Member("revision", JStr(hex(s.revision))), Member("rules", RulesToJson(s.rules)));
    NumberLength(s.generation);
    NumberLength(PROTOCOL);
    assert |NatText(PROTOCOL)| == 1;
    RevisionLength(hex(s.revision));
  }

  lemma SafeDigits(n: nat)
    requires n <= MAX_SAFE_INTEGER
    ensures |NatText(n)| <= 16
  {
    assert Pow10(4) == 10000;
    assert Pow10(8) == 10000 * Pow10(4);
    assert Pow10(12) == 10000 * Pow10(8);
    assert Pow10(16) == 10000 * Pow10(12);
    DigitCount(n, 16);
  }

  /** Acceptance transfers from the daemon to the extension exactly when the wrapper still fits. */
  lemma AcceptanceTransfers(rules: RuleSet, lib: Libraries, generation: int, publicKey: Option<string>, hex: Hex)
    requires HexOk(hex) && ValidRules(rules, lib)
    requires MakeManagedSpec(rules, generation, publicKey, hex).Ok?
    ensures var m := MakeManagedSpec(rules, generation, publicKey, hex).value;
            var size := Utf16Length(RulesText(Normalized(rules)));
            && (ParseManagedSnapshot(m).Some? <==>
                generation <= MAX_SAFE_INTEGER && size + 123 + |NatText(generation)| <= MAX_SNAPSHOT_CHARACTERS)
            && (generation <= MAX_SAFE_INTEGER && Utf8Length(RulesText(Normalized(rules))) <= MAX_SNAPSHOT_BYTES - 139 ==>
                ParseManagedSnapshot(m) == Some(SnapshotOf(rules, generation)))
  {
    PublishedIsAccepted(rules, lib, generation, publicKey, hex);
    WrapperLength(SnapshotOf(rules, generation), hex);
    UnitsWithinBytes(RulesText(Normalized(rules)));
    if generation <= MAX_SAFE_INTEGER { SafeDigits(generation); }
  }

  // ---- Publishable implies compilable at every instant ----

  /** The clock knows every time zone that a schedule of the rules names. */
  predicate KnowsZones(clock: Clock, rules: RuleSet) {
    forall i :: 0 <= i < |rules.blocks| && rules.blocks[i].schedule.Some? ==>
      clock(rules.blocks[i].schedule.value.timezone).Some?
  }

  lemma ValidCompilable(rules: RuleSet, lib: Libraries, clock: Clock, k: nat)
    requires ValidRules(rules, lib) && KnowsZones(clock, rules) && k < |rules.blocks| && !HasTextExceptions(rules.blocks[k])
    ensures Compilable(rules.blocks[k], clock)
  {
    var b := rules.blocks[k];
    assert ValidBlock(b, lib);
    forall i | 0 <= i < |b.targets.urlPatterns| ensures ReadPattern(b.targets.urlPatterns[i]).Some? {
      ValidPatternReads(b.targets.urlPatterns[i], lib);
    }
  }

  /** Active blocks have no more targets than all blocks. */
  lemma {:induction false} ActiveWithinTotal(blocks: seq<RuleBlock>, clock: Clock)
    ensures ActiveTargets(blocks, clock) <= TargetTotal(blocks)
  {
    if blocks != [] { ActiveWithinTotal(blocks[1..], clock); }
  }

  /** A rule set the daemon can publish compiles at every instant, within the browser's rule limit. */
  lemma PublishableCompiles(rules: RuleSet, lib: Libraries, generation: int, publicKey: Option<string>, hex: Hex,
                            clock: Clock, page: Option<string>)
    requires ValidRules(rules, lib) && KnowsZones(clock, rules)
    requires MakeManagedSpec(rules, generation, publicKey, hex).Ok?
    ensures CompileSpec(Normalized(rules), clock, page).Ok?
    ensures |CompileSpec(Normalized(rules), clock, page).value.rules| <= MAX_DYNAMIC_RULES
  {
    hide ValidRules, Compilable, EngineAccepts, HasTextExceptions, KnowsZones, Active, Utf8Length, RulesText;
    var n := Normalized(rules);
    ValidAccepted(rules, lib);
    PublishableExactly(rules, generation, publicKey, hex);
    forall i | 0 <= i < |n.blocks| ensures Compilable(n.blocks[i], clock) {
      assert !HasTextExceptions(rules.blocks[i]);
      ValidCompilable(rules, lib, clock, i);
    }
    ActiveWithinTotal(n.blocks, clock);
    CompilesExactly(n, clock, page);
  }
}
