/** Compiling a rule set into declarativeNetRequest rules, and what the compiled rules mean. */
module Compiler {
  import opened Basics
  import opened TimeWindows
  import opened Regex
  import opened MatchPattern
  import opened PatternMeaning
  import opened Rules
  import opened Evaluation
  import opened Dnr

  datatype CompileError =
    | InvalidRules
    | UnknownTimezone(zone: string)
    | UnsupportedException(blockId: string)
    | BadPattern(text: string)
    | TooManyRules(count: nat)

  datatype Compiled = Compiled(rules: seq<DnrRule>, defaultAction: Action)

  /** What the extension itself checks before compiling. */
  predicate EngineAccepts(rules: RuleSet) {
    && rules.formatVersion == FORMAT_VERSION
    && rules.profile.conflictPolicy == CONFLICT_POLICY
    && |rules.blocks| <= MAX_BLOCKS
    && forall i :: 0 <= i < |rules.blocks| ==> -1000 <= rules.blocks[i].priority <= 1000
  }

  function BlockIsActive(b: RuleBlock, clock: Clock): Result<bool, CompileError> {
    if !b.enabled then Ok(false)
    else
      match b.schedule
      case None => Ok(true)
      case Some(s) =>
        match clock(s.timezone)
        case None => Err(UnknownTimezone(s.timezone))
        case Some(local) => Ok(exists i :: 0 <= i < |s.windows| && WindowIsActive(s.windows[i], local))
  }

  function DnrPriority(b: RuleBlock): int {
    2 + (b.priority + 1000) * 2 + (if b.action == Block then 1 else 0)
  }

  function ActionFor(b: RuleBlock, page: Option<string>): DnrAction {
    if b.action == Block then Redirect(page, Some(b.id)) else AllowRequest
  }

  function DomainRule(b: RuleBlock, id: nat, page: Option<string>, domain: string): DnrRule {
    DnrRule(id, DnrPriority(b), ActionFor(b, page), Condition(Some([domain]), None, false, b.exceptions.domains))
  }

  function RegexRule(b: RuleBlock, id: nat, page: Option<string>, filter: string, caseSensitive: bool): DnrRule {
    DnrRule(id, DnrPriority(b), ActionFor(b, page), Condition(None, Some(filter), caseSensitive, b.exceptions.domains))
  }

  // The specification functions take the rules emitted so far and the next target to add.

  function AddDomains(b: RuleBlock, k: nat, page: Option<string>, acc: seq<DnrRule>): seq<DnrRule>
    requires k <= |b.targets.domains|
    decreases |b.targets.domains| - k
  {
    if k == |b.targets.domains| then acc
    else AddDomains(b, k + 1, page, acc + [DomainRule(b, |acc| + 1, page, b.targets.domains[k])])
  }

  function AddPatterns(b: RuleBlock, k: nat, page: Option<string>, acc: seq<DnrRule>): Result<seq<DnrRule>, CompileError>
    requires k <= |b.targets.urlPatterns|
    decreases |b.targets.urlPatterns| - k
  {
    if k == |b.targets.urlPatterns| then Ok(acc)
    else
      match PatternToRegex(b.targets.urlPatterns[k])
      case None => Err(BadPattern(b.targets.urlPatterns[k]))
      case Some(filter) => AddPatterns(b, k + 1, page, acc + [RegexRule(b, |acc| + 1, page, filter, true)])
  }

  function AddRegexes(b: RuleBlock, k: nat, page: Option<string>, acc: seq<DnrRule>): seq<DnrRule>
    requires k <= |b.targets.urlRegex|
    decreases |b.targets.urlRegex| - k
  {
    if k == |b.targets.urlRegex| then acc
    else
      var r := b.targets.urlRegex[k];
      AddRegexes(b, k + 1, page, acc + [RegexRule(b, |acc| + 1, page, r.pattern, r.caseSensitive)])
  }

  function AddBlock(b: RuleBlock, page: Option<string>, acc: seq<DnrRule>): Result<seq<DnrRule>, CompileError> {
    if b.exceptions.urlPatterns != [] || b.exceptions.urlRegex != [] then Err(UnsupportedException(b.id))
    else
      match AddPatterns(b, 0, page, AddDomains(b, 0, page, acc))
      case Err(e) => Err(e)
      case Ok(rules) => Ok(AddRegexes(b, 0, page, rules))
  }

  function AddBlocks(rules: RuleSet, i: nat, clock: Clock, page: Option<string>, acc: seq<DnrRule>)
    : Result<seq<DnrRule>, CompileError>
    requires i <= |rules.blocks|
    decreases |rules.blocks| - i
  {
    if i == |rules.blocks| then Ok(acc)
    else
      match BlockIsActive(rules.blocks[i], clock)
      case Err(e) => Err(e)
      case Ok(false) => AddBlocks(rules, i + 1, clock, page, acc)
      case Ok(true) =>
        match AddBlock(rules.blocks[i], page, acc)
        case Err(e) => Err(e)
        case Ok(more) => AddBlocks(rules, i + 1, clock, page, more)
  }

  function CompileSpec(rules: RuleSet, clock: Clock, page: Option<string>): Result<Compiled, CompileError> {
    if !EngineAccepts(rules) then Err(InvalidRules)
    else
      match AddBlocks(rules, 0, clock, page, [])
      case Err(e) => Err(e)
      case Ok(output) =>
        if |output| > MAX_DYNAMIC_RULES then Err(TooManyRules(|output|))
        else Ok(Compiled(output, rules.profile.defaultAction))
  }

  /** The compiler's inner loops: one rule per target, numbered on from the rules already emitted. */
  method CompileBlock(b: RuleBlock, page: Option<string>, before: seq<DnrRule>) returns (r: Result<seq<DnrRule>, CompileError>)
    ensures r == AddBlock(b, page, before)
  {
    if b.exceptions.urlPatterns != [] || b.exceptions.urlRegex != [] {
      return Err(UnsupportedException(b.id));
    }
    var output, id := before, |before| + 1;
    for k := 0 to |b.targets.domains|
      invariant id == |output| + 1
      invariant AddDomains(b, 0, page, before) == AddDomains(b, k, page, output)
    {
      output := output + [DomainRule(b, id, page, b.targets.domains[k])];
      id := id + 1;
    }
    ghost var withDomains := output;
    for k := 0 to |b.targets.urlPatterns|
      invariant id == |output| + 1
      invariant AddPatterns(b, 0, page, withDomains) == AddPatterns(b, k, page, output)
    {
      var filter := PatternToRegex(b.targets.urlPatterns[k]);
      if filter.None? { return Err(BadPattern(b.targets.urlPatterns[k])); }
      output := output + [RegexRule(b, id, page, filter.value, true)];
      id := id + 1;
    }
    ghost var withPatterns := output;
    for k := 0 to |b.targets.urlRegex|
      invariant id == |output| + 1
      invariant AddRegexes(b, 0, page, withPatterns) == AddRegexes(b, k, page, output)
    {
      var regex := b.targets.urlRegex[k];
      output := output + [RegexRule(b, id, page, regex.pattern, regex.caseSensitive)];
      id := id + 1;
    }
    return Ok(output);
  }

  /** The compiler's outer loop: inactive blocks are skipped, the first failure wins. */
  method Compile(rules: RuleSet, clock: Clock, page: Option<string>) returns (r: Result<Compiled, CompileError>)
    ensures r == CompileSpec(rules, clock, page)
  {
    if !EngineAccepts(rules) { return Err(InvalidRules); }
    var output: seq<DnrRule> := [];
    for i := 0 to |rules.blocks|
      invariant AddBlocks(rules, 0, clock, page, []) == AddBlocks(rules, i, clock, page, output)
    {
      var active := BlockIsActive(rules.blocks[i], clock);
      if active.Err? { return Err(active.error); }
      if !active.value { continue; }
      var more := CompileBlock(rules.blocks[i], page, output);
      if more.Err? { return Err(more.error); }
      output := more.value;
    }
    if |output| > MAX_DYNAMIC_RULES { return Err(TooManyRules(|output|)); }
    return Ok(Compiled(output, rules.profile.defaultAction));
  }

  // ---- Exactly when a rule set compiles ----

  function TargetCount(b: RuleBlock): nat {
    |b.targets.domains| + |b.targets.urlPatterns| + |b.targets.urlRegex|
  }

  predicate HasTextExceptions(b: RuleBlock) {
    b.exceptions.urlPatterns != [] || b.exceptions.urlRegex != []
  }

  /** An enabled block's zone is known; while it is active, its patterns are readable and its exceptions are domains. */
  predicate Compilable(b: RuleBlock, clock: Clock) {
    && (b.enabled && b.schedule.Some? ==> clock(b.schedule.value.timezone).Some?)
    && (Active(b, clock) ==>
          !HasTextExceptions(b) && forall i :: 0 <= i < |b.targets.urlPatterns| ==> ReadPattern(b.targets.urlPatterns[i]).Some?)
  }

  /** The targets of the active blocks. */
  function ActiveTargets(blocks: seq<RuleBlock>, clock: Clock): nat {
    if blocks == [] then 0 else (if Active(blocks[0], clock) then TargetCount(blocks[0]) else 0) + ActiveTargets(blocks[1..], clock)
  }

  lemma {:induction false} DomainCount(b: RuleBlock, k: nat, page: Option<string>, acc: seq<DnrRule>)
    requires k <= |b.targets.domains|
    ensures |AddDomains(b, k, page, acc)| == |acc| + |b.targets.domains| - k
    decreases |b.targets.domains| - k
  {
    if k < |b.targets.domains| {
      DomainCount(b, k + 1, page, acc + [DomainRule(b, |acc| + 1, page, b.targets.domains[k])]);
    }
  }

  lemma {:induction false} PatternCount(b: RuleBlock, k: nat, page: Option<string>, acc: seq<DnrRule>)
    requires k <= |b.targets.urlPatterns|
    ensures AddPatterns(b, k, page, acc).Ok? <==> forall i :: k <= i < |b.targets.urlPatterns| ==> ReadPattern(b.targets.urlPatterns[i]).Some?
    ensures AddPatterns(b, k, page, acc).Ok? ==> |AddPatterns(b, k, page, acc).value| == |acc| + |b.targets.urlPatterns| - k
    decreases |b.targets.urlPatterns| - k
  {
    hide ReadPattern, RegexText;
    if k < |b.targets.urlPatterns| && PatternToRegex(b.targets.urlPatterns[k]).Some? {
      var filter := PatternToRegex(b.targets.urlPatterns[k]).value;
      PatternCount(b, k + 1, page, acc + [RegexRule(b, |acc| + 1, page, filter, true)]);
    }
  }

  lemma {:induction false} RegexCount(b: RuleBlock, k: nat, page: Option<string>, acc: seq<DnrRule>)
    requires k <= |b.targets.urlRegex|
    ensures |AddRegexes(b, k, page, acc)| == |acc| + |b.targets.urlRegex| - k
    decreases |b.targets.urlRegex| - k
  {
    if k < |b.targets.urlRegex| {
      var r := b.targets.urlRegex[k];
      RegexCount(b, k + 1, page, acc + [RegexRule(b, |acc| + 1, page, r.pattern, r.caseSensitive)]);
    }
  }

  lemma BlockCount(b: RuleBlock, page: Option<string>, acc: seq<DnrRule>)
    ensures AddBlock(b, page, acc).Ok? <==>
            !HasTextExceptions(b) && forall i :: 0 <= i < |b.targets.urlPatterns| ==> ReadPattern(b.targets.urlPatterns[i]).Some?
    ensures AddBlock(b, page, acc).Ok? ==> |AddBlock(b, page, acc).value| == |acc| + TargetCount(b)
  {
    hide ReadPattern, AddDomains, AddPatterns, AddRegexes;
    DomainCount(b, 0, page, acc);
    var one := AddDomains(b, 0, page, acc);
    PatternCount(b, 0, page, one);
    if AddPatterns(b, 0, page, one).Ok? { RegexCount(b, 0, page, AddPatterns(b, 0, page, one).value); }
  }

  lemma ActivityExactly(b: RuleBlock, clock: Clock)
    ensures BlockIsActive(b, clock).Ok? <==> (b.enabled && b.schedule.Some? ==> clock(b.schedule.value.timezone).Some?)
    ensures BlockIsActive(b, clock).Ok? ==> (BlockIsActive(b, clock).value <==> Active(b, clock))
  {
    if BlockIsActive(b, clock).Ok? { ActiveAgrees(b, clock); }
  }

  lemma {:induction false} BlocksCount(rules: RuleSet, k: nat, clock: Clock, page: Option<string>, acc: seq<DnrRule>)
    requires k <= |rules.blocks|
    ensures AddBlocks(rules, k, clock, page, acc).Ok? <==> forall i :: k <= i < |rules.blocks| ==> Compilable(rules.blocks[i], clock)
    ensures AddBlocks(rules, k, clock, page, acc).Ok? ==>
              |AddBlocks(rules, k, clock, page, acc).value| == |acc| + ActiveTargets(rules.blocks[k..], clock)
    decreases |rules.blocks| - k
  {
    hide AddBlock, BlockIsActive, Active, HasTextExceptions, ReadPattern, TargetCount;
    if k < |rules.blocks| {
      var b := rules.blocks[k];
      assert rules.blocks[k..][0] == b && rules.blocks[k..][1..] == rules.blocks[k + 1..];
      ActivityExactly(b, clock);
      BlockCount(b, page, acc);
      if BlockIsActive(b, clock).Ok? {
        if !BlockIsActive(b, clock).value {
          BlocksCount(rules, k + 1, clock, page, acc);
        } else if AddBlock(b, page, acc).Ok? {
          BlocksCount(rules, k + 1, clock, page, AddBlock(b, page, acc).value);
        }
      }
    }
  }

  /**
   * A rule set compiles at an instant exactly when the extension accepts it, every enabled block's time zone is known, every
   * active block has readable patterns and only domains as exceptions, and the active blocks have at most 5000 targets in
   * all; each target then yields one rule.
   */
  lemma CompilesExactly(rules: RuleSet, clock: Clock, page: Option<string>)
    ensures CompileSpec(rules, clock, page).Ok? <==>
            && EngineAccepts(rules) && (forall i :: 0 <= i < |rules.blocks| ==> Compilable(rules.blocks[i], clock))
            && ActiveTargets(rules.blocks, clock) <= 5000
    ensures CompileSpec(rules, clock, page).Ok? ==>
            |CompileSpec(rules, clock, page).value.rules| == ActiveTargets(rules.blocks, clock)
            && CompileSpec(rules, clock, page).value.defaultAction == rules.profile.defaultAction
  {
    hide AddBlocks, Compilable, ActiveTargets, EngineAccepts;
    BlocksCount(rules, 0, clock, page, []);
    assert rules.blocks[0..] == rules.blocks;
  }

  // ---- The part of a rule set that the emitted expressions reach ----

  /** The pattern texts whose expressions reach the URL's host. */
  function ReachedPatterns(texts: seq<string>, url: Url): (r: seq<string>)
    ensures forall x :: x in r <==> x in texts && Reached(x, url)
  {
    if texts == [] then []
    else
      assert forall x :: x in texts <==> x == texts[0] || x in texts[1..];
      (if Reached(texts[0], url) then [texts[0]] else []) + ReachedPatterns(texts[1..], url)
  }

  function ReachedBlock(b: RuleBlock, url: Url): RuleBlock {
    b.(targets := b.targets.(urlPatterns := ReachedPatterns(b.targets.urlPatterns, url)))
  }

  function ReachedRules(rules: RuleSet, url: Url): (r: RuleSet)
    ensures |r.blocks| == |rules.blocks| && r.profile == rules.profile
    ensures forall i :: 0 <= i < |rules.blocks| ==> r.blocks[i] == ReachedBlock(rules.blocks[i], url)
  {
    rules.(blocks := seq(|rules.blocks|, i requires 0 <= i < |rules.blocks| => ReachedBlock(rules.blocks[i], url)))
  }

  /** On plain hosts that is the whole rule set. */
  lemma PlainReachesAll(rules: RuleSet, url: Url)
    requires PlainHost(url.host)
    ensures ReachedRules(rules, url) == rules
  {
    forall i | 0 <= i < |rules.blocks| ensures ReachedBlock(rules.blocks[i], url) == rules.blocks[i] {
      AllPatternsReached(rules.blocks[i].targets.urlPatterns, url);
    }
    assert ReachedRules(rules, url).blocks == rules.blocks;
  }

  lemma {:induction false} AllPatternsReached(texts: seq<string>, url: Url)
    requires PlainHost(url.host)
    ensures ReachedPatterns(texts, url) == texts
  {
    if texts != [] {
      PlainReached(texts[0], url);
      AllPatternsReached(texts[1..], url);
    }
  }

  // ---- What one block's rules cover ----

  /** `out` extends `acc` with numbered rules of the block's priority and action. */
  predicate Extends(b: RuleBlock, page: Option<string>, acc: seq<DnrRule>, out: seq<DnrRule>) {
    && |acc| <= |out| && out[..|acc|] == acc
    && forall k :: |acc| <= k < |out| ==>
         && out[k].id == k + 1 && out[k].priority == DnrPriority(b) && out[k].action == ActionFor(b, page)
  }

  predicate AppliesFrom(out: seq<DnrRule>, from: nat, req: Request, rx: RegexEngine) {
    exists k :: from <= k < |out| && Applies(out[k], req, rx)
  }

  predicate Excepted(b: RuleBlock, req: Request) {
    req.resource.Other? || AnyDomainCovers(b.exceptions.domains, req.url.host)
  }

  lemma AppliesSplit(acc: seq<DnrRule>, mid: seq<DnrRule>, out: seq<DnrRule>, req: Request, rx: RegexEngine)
    requires |acc| <= |mid| <= |out| && out[..|mid|] == mid
    ensures AppliesFrom(out, |acc|, req, rx) <==> AppliesFrom(mid, |acc|, req, rx) || AppliesFrom(out, |mid|, req, rx)
  {
    forall k | 0 <= k < |mid| ensures out[k] == mid[k] {
      assert out[..|mid|][k] == mid[k];
    }
    if AppliesFrom(mid, |acc|, req, rx) {
      var k :| |acc| <= k < |mid| && Applies(mid[k], req, rx);
      assert Applies(out[k], req, rx);
    }
  }

  lemma ExtendsTransitive(b: RuleBlock, page: Option<string>, acc: seq<DnrRule>, mid: seq<DnrRule>, out: seq<DnrRule>)
    requires Extends(b, page, acc, mid) && Extends(b, page, mid, out)
    ensures Extends(b, page, acc, out)
  {
    forall k | 0 <= k < |mid| ensures out[k] == mid[k] {
      assert out[..|mid|][k] == mid[k];
    }
    assert out[..|acc|] == mid[..|acc|];
  }

  /** One rule appended, then the rest: what the whole stretch covers. */
  lemma OneMore(b: RuleBlock, page: Option<string>, acc: seq<DnrRule>, rule: DnrRule, out: seq<DnrRule>, req: Request, rx: RegexEngine)
    requires rule.id == |acc| + 1 && rule.priority == DnrPriority(b) && rule.action == ActionFor(b, page)
    requires Extends(b, page, acc + [rule], out)
    ensures Extends(b, page, acc, out)
    ensures AppliesFrom(out, |acc|, req, rx) <==> Applies(rule, req, rx) || AppliesFrom(out, |acc| + 1, req, rx)
  {
    var mid := acc + [rule];
    assert mid[..|acc|] == acc && mid[|acc|] == rule;
    ExtendsTransitive(b, page, acc, mid, out);
    AppliesSplit(acc, mid, out, req, rx);
  }

  lemma {:induction false} DomainsMean(b: RuleBlock, k: nat, page: Option<string>, acc: seq<DnrRule>, req: Request, rx: RegexEngine)
    requires k <= |b.targets.domains|
    ensures var out := AddDomains(b, k, page, acc);
            && Extends(b, page, acc, out)
            && (AppliesFrom(out, |acc|, req, rx) <==>
                !Excepted(b, req) && exists i :: k <= i < |b.targets.domains| && DomainCovers(b.targets.domains[i], req.url.host))
    decreases |b.targets.domains| - k
  {
    if k < |b.targets.domains| {
      var domain := b.targets.domains[k];
      var rule := DomainRule(b, |acc| + 1, page, domain);
      DomainsMean(b, k + 1, page, acc + [rule], req, rx);
      OneMore(b, page, acc, rule, AddDomains(b, k, page, acc), req, rx);
      assert AnyDomainCovers([domain], req.url.host) <==> DomainCovers(domain, req.url.host) by {
        assert [domain][0] == domain;
      }
    }
  }

  lemma PatternRuleMeans(b: RuleBlock, id: nat, page: Option<string>, text: string, req: Request, rx: RegexEngine)
    requires EngineFaithful(rx) && WellFormedUrl(req.url) && PatternToRegex(text).Some?
    ensures Applies(RegexRule(b, id, page, PatternToRegex(text).value, true), req, rx) <==>
            !Excepted(b, req) && PatternHit(text, req.url) && Reached(text, req.url)
  {
    PatternTranslatesExactly(text, req.url);
    var filter := PatternToRegex(text).value;
    assert rx(filter, true, UrlText(req.url)) <==> PatternHit(text, req.url) && Reached(text, req.url);
  }

  predicate PatternHitFrom(b: RuleBlock, k: nat, url: Url) {
    exists i :: k <= i < |b.targets.urlPatterns| && PatternHit(b.targets.urlPatterns[i], url) && Reached(b.targets.urlPatterns[i], url)
  }

  /** The reached patterns are the ones that count. */
  lemma ReachedHit(b: RuleBlock, url: Url, rx: RegexEngine)
    ensures Hit(ReachedBlock(b, url).targets, url, rx) <==>
            || AnyDomainCovers(b.targets.domains, url.host)
            || PatternHitFrom(b, 0, url)
            || (exists i :: 0 <= i < |b.targets.urlRegex| && RegexHit(b.targets.urlRegex[i], url, rx))
  {
    hide PatternHit, RegexHit, AnyDomainCovers, Reached;
    var texts := b.targets.urlPatterns;
    var r := ReachedPatterns(texts, url);
    if i :| 0 <= i < |r| && PatternHit(r[i], url) {
      assert r[i] in texts && Reached(r[i], url);
      var k :| 0 <= k < |texts| && texts[k] == r[i];
      assert PatternHitFrom(b, 0, url);
    }
    if PatternHitFrom(b, 0, url) {
      var k :| 0 <= k < |texts| && PatternHit(texts[k], url) && Reached(texts[k], url);
      assert texts[k] in r;
      var i :| 0 <= i < |r| && r[i] == texts[k];
    }
  }

  lemma {:induction false} PatternsMean(b: RuleBlock, k: nat, page: Option<string>, acc: seq<DnrRule>, req: Request, rx: RegexEngine)
    requires EngineFaithful(rx) && WellFormedUrl(req.url)
    requires k <= |b.targets.urlPatterns| && AddPatterns(b, k, page, acc).Ok?
    ensures Extends(b, page, acc, AddPatterns(b, k, page, acc).value)
    ensures AppliesFrom(AddPatterns(b, k, page, acc).value, |acc|, req, rx) <==>
            !Excepted(b, req) && PatternHitFrom(b, k, req.url)
    decreases |b.targets.urlPatterns| - k
  {
    hide PatternHit, Reached, Applies, PatternToRegex, EngineFaithful, WellFormedUrl, Extends, Excepted;
    if k < |b.targets.urlPatterns| {
      var text := b.targets.urlPatterns[k];
      var rule := PatternRule(b, k, page, acc);
      PatternRuleMeans(b, |acc| + 1, page, text, req, rx);
      PatternsMean(b, k + 1, page, acc + [rule], req, rx);
      PatternStep(b, k, page, acc, rule, AddPatterns(b, k, page, acc).value, req, rx);
    } else {
      NothingMore(b, page, acc, req, rx);
    }
  }

  lemma NothingMore(b: RuleBlock, page: Option<string>, acc: seq<DnrRule>, req: Request, rx: RegexEngine)
    ensures Extends(b, page, acc, acc) && !AppliesFrom(acc, |acc|, req, rx)
  {
  }

  lemma PatternRule(b: RuleBlock, k: nat, page: Option<string>, acc: seq<DnrRule>) returns (rule: DnrRule)
    requires k < |b.targets.urlPatterns| && AddPatterns(b, k, page, acc).Ok?
    ensures PatternToRegex(b.targets.urlPatterns[k]).Some?
    ensures rule == RegexRule(b, |acc| + 1, page, PatternToRegex(b.targets.urlPatterns[k]).value, true)
    ensures AddPatterns(b, k, page, acc) == AddPatterns(b, k + 1, page, acc + [rule])
  {
    rule := RegexRule(b, |acc| + 1, page, PatternToRegex(b.targets.urlPatterns[k]).value, true);
  }

  lemma PatternStep(b: RuleBlock, k: nat, page: Option<string>, acc: seq<DnrRule>, rule: DnrRule, out: seq<DnrRule>,
                    req: Request, rx: RegexEngine)
    requires k < |b.targets.urlPatterns|
    requires rule.id == |acc| + 1 && rule.priority == DnrPriority(b) && rule.action == ActionFor(b, page)
    requires Applies(rule, req, rx) <==>
             !Excepted(b, req) && PatternHit(b.targets.urlPatterns[k], req.url) && Reached(b.targets.urlPatterns[k], req.url)
    requires Extends(b, page, acc + [rule], out)
    requires AppliesFrom(out, |acc| + 1, req, rx) <==> !Excepted(b, req) && PatternHitFrom(b, k + 1, req.url)
    ensures Extends(b, page, acc, out)
    ensures AppliesFrom(out, |acc|, req, rx) <==> !Excepted(b, req) && PatternHitFrom(b, k, req.url)
  {
    OneMore(b, page, acc, rule, out, req, rx);
  }

  lemma {:induction false} RegexesMean(b: RuleBlock, k: nat, page: Option<string>, acc: seq<DnrRule>, req: Request, rx: RegexEngine)
    requires k <= |b.targets.urlRegex|
    ensures var out := AddRegexes(b, k, page, acc);
            && Extends(b, page, acc, out)
            && (AppliesFrom(out, |acc|, req, rx) <==>
                !Excepted(b, req) && exists i :: k <= i < |b.targets.urlRegex| && RegexHit(b.targets.urlRegex[i], req.url, rx))
    decreases |b.targets.urlRegex| - k
  {
    if k < |b.targets.urlRegex| {
      var r := b.targets.urlRegex[k];
      var rule := RegexRule(b, |acc| + 1, page, r.pattern, r.caseSensitive);
      RegexesMean(b, k + 1, page, acc + [rule], req, rx);
      OneMore(b, page, acc, rule, AddRegexes(b, k, page, acc), req, rx);
      assert Applies(rule, req, rx) <==> !Excepted(b, req) && RegexHit(r, req.url, rx);
    }
  }

  /** The rules emitted for one block apply exactly where a reached target fits and its exceptions do not. */
  lemma BlockMeans(b: RuleBlock, page: Option<string>, acc: seq<DnrRule>, req: Request, rx: RegexEngine)
    requires EngineFaithful(rx) && WellFormedUrl(req.url)
    requires AddBlock(b, page, acc).Ok?
    ensures var out := AddBlock(b, page, acc).value;
            && Extends(b, page, acc, out)
            && (AppliesFrom(out, |acc|, req, rx) <==>
                !req.resource.Other? && Hit(ReachedBlock(b, req.url).targets, req.url, rx) && !Hit(b.exceptions, req.url, rx))
  {
    ReachedHit(b, req.url, rx);
    var one := AddDomains(b, 0, page, acc);
    DomainsMean(b, 0, page, acc, req, rx);
    var two := AddPatterns(b, 0, page, one).value;
    PatternsMean(b, 0, page, one, req, rx);
    var out := AddRegexes(b, 0, page, two);
    RegexesMean(b, 0, page, two, req, rx);
    ExtendsTransitive(b, page, acc, one, two);
    ExtendsTransitive(b, page, acc, two, out);
    AppliesSplit(acc, one, two, req, rx);
    AppliesSplit(acc, two, out, req, rx);
  }

  // ---- What the whole output covers ----

  /** Block `i` accounts for rule `r`. */
  predicate Accounts(rules: RuleSet, i: int, clock: Clock, r: DnrRule, page: Option<string>, req: Request, rx: RegexEngine) {
    && Matching(ReachedRules(rules, req.url), i, clock, req.url, rx)
    && r.priority == DnrPriority(rules.blocks[i]) && r.action == ActionFor(rules.blocks[i], page)
  }

  predicate Sound(rules: RuleSet, clock: Clock, page: Option<string>, out: seq<DnrRule>, k: nat, req: Request, rx: RegexEngine)
    requires k < |out|
  {
    Applies(out[k], req, rx) ==>
      exists i :: 0 <= i < |rules.blocks| && Accounts(rules, i, clock, out[k], page, req, rx)
  }

  predicate Complete(rules: RuleSet, i: int, clock: Clock, page: Option<string>, out: seq<DnrRule>, req: Request, rx: RegexEngine) {
    Matching(ReachedRules(rules, req.url), i, clock, req.url, rx) ==>
      exists k :: 0 <= k < |out| && Applies(out[k], req, rx) && Accounts(rules, i, clock, out[k], page, req, rx)
  }

  lemma ActiveAgrees(b: RuleBlock, clock: Clock)
    requires BlockIsActive(b, clock).Ok?
    ensures BlockIsActive(b, clock).value <==> Active(b, clock)
  {
    if b.enabled && b.schedule.Some? {
      var s := b.schedule.value;
      var local := clock(s.timezone).value;
      forall i | 0 <= i < |s.windows|
        ensures WindowIsActive(s.windows[i], local) <==> InWeekIntervals(s.windows[i], WeekMinute(local))
      {
        WindowMeansWeekIntervals(s.windows[i], local);
      }
    }
  }

  lemma {:induction false} OutputMeans(rules: RuleSet, i: nat, clock: Clock, page: Option<string>, acc: seq<DnrRule>, req: Request, rx: RegexEngine)
    requires EngineFaithful(rx) && WellFormedUrl(req.url) && !req.resource.Other?
    requires i <= |rules.blocks| && AddBlocks(rules, i, clock, page, acc).Ok?
    ensures var out := AddBlocks(rules, i, clock, page, acc).value;
            && |acc| <= |out| && out[..|acc|] == acc
            && (forall k :: |acc| <= k < |out| ==> out[k].id == k + 1)
            && (forall k :: |acc| <= k < |out| ==> Sound(rules, clock, page, out, k, req, rx))
            && (forall j :: i <= j < |rules.blocks| ==> Complete(rules, j, clock, page, out, req, rx))
    decreases |rules.blocks| - i
  {
    hide EngineFaithful, WellFormedUrl, Applies, AddBlock, ReachedRules, ReachedBlock, Extends, Hit, Complete, Sound;
    if i < |rules.blocks| {
      var b := rules.blocks[i];
      ActiveAgrees(b, clock);
      var out := AddBlocks(rules, i, clock, page, acc).value;
      if !BlockIsActive(b, clock).value {
        InactiveComplete(rules, i, clock, page, out, req, rx);
        OutputMeans(rules, i + 1, clock, page, acc, req, rx);
      } else {
        var mid := AddBlock(b, page, acc).value;
        BlockMeans(b, page, acc, req, rx);
        OutputMeans(rules, i + 1, clock, page, mid, req, rx);
        StepMeans(rules, i, clock, page, acc, mid, out, req, rx);
      }
    }
  }

  lemma InactiveComplete(rules: RuleSet, i: nat, clock: Clock, page: Option<string>, out: seq<DnrRule>, req: Request, rx: RegexEngine)
    requires i < |rules.blocks| && !Active(rules.blocks[i], clock)
    ensures Complete(rules, i, clock, page, out, req, rx)
  {
    assert ReachedRules(rules, req.url).blocks[i] == ReachedBlock(rules.blocks[i], req.url);
  }

  lemma StepMeans(rules: RuleSet, i: nat, clock: Clock, page: Option<string>, acc: seq<DnrRule>, mid: seq<DnrRule>,
                  out: seq<DnrRule>, req: Request, rx: RegexEngine)
    requires i < |rules.blocks| && !req.resource.Other? && Active(rules.blocks[i], clock)
    requires Extends(rules.blocks[i], page, acc, mid)
    requires AppliesFrom(mid, |acc|, req, rx) <==>
             Hit(ReachedBlock(rules.blocks[i], req.url).targets, req.url, rx) && !Hit(rules.blocks[i].exceptions, req.url, rx)
    requires |mid| <= |out| && out[..|mid|] == mid
    ensures out[..|acc|] == acc
    ensures forall k :: |acc| <= k < |mid| ==> out[k].id == k + 1 && Sound(rules, clock, page, out, k, req, rx)
    ensures Complete(rules, i, clock, page, out, req, rx)
  {
    assert ReachedRules(rules, req.url).blocks[i] == ReachedBlock(rules.blocks[i], req.url);
    forall k | 0 <= k < |mid| ensures out[k] == mid[k] {
      assert out[..|mid|][k] == mid[k];
    }
    assert out[..|acc|] == mid[..|acc|];
    forall k | |acc| <= k < |mid| ensures out[k].id == k + 1 && Sound(rules, clock, page, out, k, req, rx) {
      if Applies(out[k], req, rx) {
        assert AppliesFrom(mid, |acc|, req, rx);
        assert Accounts(rules, i, clock, out[k], page, req, rx);
      }
    }
    if Matching(ReachedRules(rules, req.url), i, clock, req.url, rx) {
      var k :| |acc| <= k < |mid| && Applies(mid[k], req, rx);
      assert Applies(out[k], req, rx) && Accounts(rules, i, clock, out[k], page, req, rx);
    }
  }

  // ---- Compilation preserves meaning ----

  /** The filter a compiled rule set asks for: its rules, with the packaged rule on for default block. */
  function Installed(c: Compiled): DnrState {
    DnrState(c.rules, c.defaultAction == Block)
  }

  ghost predicate Explained(rules: RuleSet, clock: Clock, page: Option<string>, out: seq<DnrRule>, req: Request, rx: RegexEngine) {
    && (forall k :: 0 <= k < |out| ==> Sound(rules, clock, page, out, k, req, rx))
    && (forall j :: 0 <= j < |rules.blocks| ==> Complete(rules, j, clock, page, out, req, rx))
  }

  lemma BlockWins(rules: RuleSet, i: int, clock: Clock, page: Option<string>, c: Compiled, req: Request, rx: RegexEngine)
    requires EngineAccepts(rules) && Explained(rules, clock, page, c.rules, req, rx)
    requires DecidesBlock(ReachedRules(rules, req.url), i, clock, req.url, rx)
    ensures Blocked(Installed(c), req, rx)
  {
    hide BlockMatches, Applies, EngineAccepts;
    var reached := ReachedRules(rules, req.url);
    var force := InForce(Installed(c));
    assert reached.blocks[i].priority == rules.blocks[i].priority && reached.blocks[i].action == rules.blocks[i].action;
    assert Complete(rules, i, clock, page, c.rules, req, rx);
    var k :| 0 <= k < |c.rules| && Applies(c.rules[k], req, rx) && Accounts(rules, i, clock, c.rules[k], page, req, rx);
    assert force[k] == c.rules[k];
    forall m | 0 <= m < |force| && Applies(force[m], req, rx) ensures AtLeast(force[k], force[m]) {
      if m < |c.rules| {
        assert force[m] == c.rules[m] && Sound(rules, clock, page, c.rules, m, req, rx);
        var j :| 0 <= j < |rules.blocks| && Accounts(rules, j, clock, c.rules[m], page, req, rx);
        assert reached.blocks[j].priority == rules.blocks[j].priority;
      } else {
        PriorityRange(rules, i);
      }
    }
    assert Wins(force, k, req, rx);
  }

  lemma PriorityRange(rules: RuleSet, i: int)
    requires EngineAccepts(rules) && 0 <= i < |rules.blocks|
    ensures DnrPriority(rules.blocks[i]) >= 2
  {
  }

  lemma WinnerDecides(rules: RuleSet, clock: Clock, page: Option<string>, c: Compiled, req: Request, rx: RegexEngine)
    requires EngineAccepts(rules) && Explained(rules, clock, page, c.rules, req, rx)
    requires Blocked(Installed(c), req, rx)
    requires exists i :: Matching(ReachedRules(rules, req.url), i, clock, req.url, rx)
    ensures exists i :: DecidesBlock(ReachedRules(rules, req.url), i, clock, req.url, rx)
  {
    hide BlockMatches, Applies, EngineAccepts;
    var reached := ReachedRules(rules, req.url);
    var force := InForce(Installed(c));
    var w :| Wins(force, w, req, rx) && force[w].action.Redirect?;
    var i :| Matching(reached, i, clock, req.url, rx);
    assert Complete(rules, i, clock, page, c.rules, req, rx);
    var k :| 0 <= k < |c.rules| && Applies(c.rules[k], req, rx) && Accounts(rules, i, clock, c.rules[k], page, req, rx);
    assert force[k] == c.rules[k] && AtLeast(force[w], force[k]);
    PriorityRange(rules, i);
    assert w < |c.rules|;
    assert force[w] == c.rules[w] && Sound(rules, clock, page, c.rules, w, req, rx);
    var top :| 0 <= top < |rules.blocks| && Accounts(rules, top, clock, c.rules[w], page, req, rx);
    forall j | Matching(reached, j, clock, req.url, rx)
      ensures reached.blocks[j].priority <= reached.blocks[top].priority
    {
      assert Complete(rules, j, clock, page, c.rules, req, rx);
      var m :| 0 <= m < |c.rules| && Applies(c.rules[m], req, rx) && Accounts(rules, j, clock, c.rules[m], page, req, rx);
      assert force[m] == c.rules[m] && AtLeast(force[w], force[m]);
      assert reached.blocks[j].priority == rules.blocks[j].priority && reached.blocks[top].priority == rules.blocks[top].priority;
    }
    assert reached.blocks[top].action == rules.blocks[top].action;
    assert DecidesBlock(reached, top, clock, req.url, rx);
  }

  /**
   * For every accepted rule set, instant and http(s) frame request, on every host: the browser blocks iff the document
   * says so about the part of the rule set that the emitted expressions reach.
   */
  lemma CompilationExact(rules: RuleSet, clock: Clock, page: Option<string>, req: Request, rx: RegexEngine)
    requires EngineFaithful(rx) && WellFormedUrl(req.url) && !req.resource.Other?
    requires CompileSpec(rules, clock, page).Ok?
    ensures Blocked(Installed(CompileSpec(rules, clock, page).value), req, rx) <==>
            Verdict(ReachedRules(rules, req.url), clock, req.url, rx) == Block
  {
    hide AddBlocks, BlockMatches, EngineAccepts;
    var c := CompileSpec(rules, clock, page).value;
    var reached := ReachedRules(rules, req.url);
    OutputMeans(rules, 0, clock, page, [], req, rx);
    assert Explained(rules, clock, page, c.rules, req, rx);
    if !exists i :: Matching(reached, i, clock, req.url, rx) {
      DefaultApplies(rules, clock, page, c, req, rx);
    } else {
      if Blocked(Installed(c), req, rx) {
        WinnerDecides(rules, clock, page, c, req, rx);
      }
      if i :| DecidesBlock(reached, i, clock, req.url, rx) {
        BlockWins(rules, i, clock, page, c, req, rx);
      }
    }
  }

  lemma DefaultApplies(rules: RuleSet, clock: Clock, page: Option<string>, c: Compiled, req: Request, rx: RegexEngine)
    requires EngineFaithful(rx) && !req.resource.Other?
    requires Explained(rules, clock, page, c.rules, req, rx)
    requires !exists i :: Matching(ReachedRules(rules, req.url), i, clock, req.url, rx)
    ensures Blocked(Installed(c), req, rx) <==> c.defaultAction == Block
  {
    var force := InForce(Installed(c));
    forall k | 0 <= k < |c.rules| ensures force[k] == c.rules[k] && !Applies(c.rules[k], req, rx) {
      assert Sound(rules, clock, page, c.rules, k, req, rx);
    }
    if c.defaultAction == Block {
      FailSafeApplies(req, rx);
      assert force[|c.rules|] == FAILSAFE_RULE;
      assert Wins(force, |c.rules|, req, rx);
    }
  }

  /** On plain hosts the browser blocks iff the document says so, without any restriction on the rule set. */
  lemma CompilationPreservesMeaning(rules: RuleSet, clock: Clock, page: Option<string>, req: Request, rx: RegexEngine)
    requires EngineFaithful(rx) && WellFormedUrl(req.url) && !req.resource.Other? && PlainHost(req.url.host)
    requires CompileSpec(rules, clock, page).Ok?
    ensures Blocked(Installed(CompileSpec(rules, clock, page).value), req, rx) <==>
            Verdict(rules, clock, req.url, rx) == Block
  {
    CompilationExact(rules, clock, page, req, rx);
    PlainReachesAll(rules, req.url);
  }

  /**
   * The page a blocked request is sent to names a block that decides it: a winning redirect is the packaged one, and then no
   * block matches, or it carries the page and the id of a matching blocking block that no matching block outranks.
   */
  lemma RedirectNamesDecider(rules: RuleSet, clock: Clock, page: Option<string>, req: Request, rx: RegexEngine, k: int)
    requires EngineFaithful(rx) && WellFormedUrl(req.url) && !req.resource.Other?
    requires CompileSpec(rules, clock, page).Ok?
    requires var force := InForce(Installed(CompileSpec(rules, clock, page).value));
             Wins(force, k, req, rx) && force[k].action.Redirect?
    ensures var reached := ReachedRules(rules, req.url);
            var action := InForce(Installed(CompileSpec(rules, clock, page).value))[k].action;
            if exists i :: Matching(reached, i, clock, req.url, rx) then
              exists i :: DecidesBlock(reached, i, clock, req.url, rx) && action == Redirect(page, Some(rules.blocks[i].id))
            else action == Redirect(None, None)
  {
    hide AddBlocks, BlockMatches, Applies, EngineAccepts;
    var c := CompileSpec(rules, clock, page).value;
    OutputMeans(rules, 0, clock, page, [], req, rx);
    assert Explained(rules, clock, page, c.rules, req, rx);
    WinnerNamed(rules, clock, page, c, req, rx, k);
  }

  lemma WinnerNamed(rules: RuleSet, clock: Clock, page: Option<string>, c: Compiled, req: Request, rx: RegexEngine, k: int)
    requires EngineAccepts(rules) && Explained(rules, clock, page, c.rules, req, rx)
    requires Wins(InForce(Installed(c)), k, req, rx) && InForce(Installed(c))[k].action.Redirect?
    ensures var reached := ReachedRules(rules, req.url);
            var action := InForce(Installed(c))[k].action;
            if exists i :: Matching(reached, i, clock, req.url, rx) then
              exists i :: DecidesBlock(reached, i, clock, req.url, rx) && action == Redirect(page, Some(rules.blocks[i].id))
            else action == Redirect(None, None)
  {
    hide BlockMatches, Applies, EngineAccepts;
    var reached := ReachedRules(rules, req.url);
    var force := InForce(Installed(c));
    if k < |c.rules| {
      assert force[k] == c.rules[k] && Sound(rules, clock, page, c.rules, k, req, rx);
      var top :| 0 <= top < |rules.blocks| && Accounts(rules, top, clock, c.rules[k], page, req, rx);
      TopDecides(rules, clock, page, c, req, rx, k, top);
    } else if i :| Matching(reached, i, clock, req.url, rx) {
      assert Complete(rules, i, clock, page, c.rules, req, rx);
      var m :| 0 <= m < |c.rules| && Applies(c.rules[m], req, rx) && Accounts(rules, i, clock, c.rules[m], page, req, rx);
      assert force[m] == c.rules[m] && AtLeast(force[k], force[m]);
      PriorityRange(rules, i);
    }
  }

  lemma TopDecides(rules: RuleSet, clock: Clock, page: Option<string>, c: Compiled, req: Request, rx: RegexEngine, k: int, top: int)
    requires EngineAccepts(rules) && Explained(rules, clock, page, c.rules, req, rx)
    requires Wins(InForce(Installed(c)), k, req, rx) && k < |c.rules| && c.rules[k].action.Redirect?
    requires 0 <= top < |rules.blocks| && Accounts(rules, top, clock, c.rules[k], page, req, rx)
    ensures DecidesBlock(ReachedRules(rules, req.url), top, clock, req.url, rx)
    ensures c.rules[k].action == Redirect(page, Some(rules.blocks[top].id))
  {
    hide BlockMatches, Applies, EngineAccepts;
    var reached := ReachedRules(rules, req.url);
    var force := InForce(Installed(c));
    assert force[k] == c.rules[k];
    forall j | Matching(reached, j, clock, req.url, rx) ensures reached.blocks[j].priority <= reached.blocks[top].priority {
      assert Complete(rules, j, clock, page, c.rules, req, rx);
      var m :| 0 <= m < |c.rules| && Applies(c.rules[m], req, rx) && Accounts(rules, j, clock, c.rules[m], page, req, rx);
      assert force[m] == c.rules[m] && AtLeast(force[k], force[m]);
      assert reached.blocks[j].priority == rules.blocks[j].priority && reached.blocks[top].priority == rules.blocks[top].priority;
    }
    assert reached.blocks[top].action == rules.blocks[top].action;
  }

  /** An engine that reads exactly the emitted subset; it only serves to instantiate the lemmas above. */
  function SubsetEngine(): RegexEngine {
    (text: string, caseSensitive: bool, url: string) =>
      ReadFilter(text).Some? && FilterMatches(ReadFilter(text).value, url)
  }

  /** Rule ids are 1, 2, ..., n, so they are pairwise distinct and the count stays within the limit. */
  lemma IdsNumbered(rules: RuleSet, clock: Clock, page: Option<string>)
    requires CompileSpec(rules, clock, page).Ok?
    ensures var out := CompileSpec(rules, clock, page).value.rules;
            |out| <= MAX_DYNAMIC_RULES && forall k :: 0 <= k < |out| ==> out[k].id == k + 1
  {
    OutputMeans(rules, 0, clock, page, [], Request(Url(false, "a", None, "/"), MainFrame), SubsetEngine());
  }
}
