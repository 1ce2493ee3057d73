/** The hosts for which the compiled filter always means what the document says. */
module HostLimits {
  import opened Basics
  import TimeWindows
  import opened MatchPattern
  import opened PatternMeaning
  import opened Rules
  import opened Evaluation
  import opened Dnr
  import opened Compiler

  // ---- A rule set with one pattern ----

  function OneBlock(texts: seq<string>): RuleBlock {
    RuleBlock("a", "a", true, 0, Block, Permissions(false, false, false, false, false, false, false),
              Matchers([], texts, []), Matchers([], [], []), None)
  }

  /** Allows by default and blocks what one of the patterns matches. */
  function BlockingPatterns(texts: seq<string>): RuleSet {
    RuleSet(None, FORMAT_VERSION, Profile("UTC", Allow, CONFLICT_POLICY), [OneBlock(texts)])
  }

  lemma OnePatternAdded(text: string, page: Option<string>)
    requires ReadPattern(text).Some?
    ensures AddBlock(OneBlock([text]), page, []).Ok? && |AddBlock(OneBlock([text]), page, []).value| == 1
  {
    hide ReadPattern, RegexText;
    var b := OneBlock([text]);
    var rule := RegexRule(b, 1, page, PatternToRegex(text).value, true);
    assert AddDomains(b, 0, page, []) == [];
    assert AddPatterns(b, 1, page, [] + [rule]) == Ok([] + [rule]);
    assert AddPatterns(b, 0, page, []) == Ok([] + [rule]);
  }

  lemma OnePatternCompiles(text: string, clock: Clock, page: Option<string>)
    requires ReadPattern(text).Some?
    ensures CompileSpec(BlockingPatterns([text]), clock, page).Ok?
  {
    hide AddBlock;
    var rules := BlockingPatterns([text]);
    OnePatternAdded(text, page);
    var more := AddBlock(OneBlock([text]), page, []).value;
    assert AddBlocks(rules, 1, clock, page, more) == Ok(more);
  }

  lemma NothingMatches(clock: Clock, url: Url, rx: RegexEngine)
    ensures Verdict(BlockingPatterns([]), clock, url, rx) == Allow
  {
  }

  lemma PatternBlocks(text: string, clock: Clock, url: Url, rx: RegexEngine)
    requires PatternHit(text, url)
    ensures Verdict(BlockingPatterns([text]), clock, url, rx) == Block
  {
    hide PatternHit;
    var rules := BlockingPatterns([text]);
    assert PatternHit(OneBlock([text]).targets.urlPatterns[0], url);
    assert Hit(OneBlock([text]).targets, url, rx) && !Hit(OneBlock([text]).exceptions, url, rx);
    assert Matching(rules, 0, clock, url, rx);
    assert DecidesBlock(rules, 0, clock, url, rx);
  }

  lemma MissedPatternDropped(text: string, url: Url)
    requires !Reached(text, url)
    ensures ReachedRules(BlockingPatterns([text]), url) == BlockingPatterns([])
  {
    hide Reached;
    assert [text][1..] == [];
    assert ReachedPatterns([text], url) == [];
    assert ReachedRules(BlockingPatterns([text]), url).blocks == [OneBlock([])];
  }

  // ---- Missed hosts ----

  /** A pattern that covers a URL without reaching it: the document blocks the request, the browser does not. */
  lemma MissedPatternFails(text: string, clock: Clock, page: Option<string>, req: Request, rx: RegexEngine)
    requires EngineFaithful(rx) && WellFormedUrl(req.url) && !req.resource.Other?
    requires PatternHit(text, req.url) && !Reached(text, req.url)
    ensures var rules := BlockingPatterns([text]);
            && CompileSpec(rules, clock, page).Ok?
            && Verdict(rules, clock, req.url, rx) == Block
            && !Blocked(Installed(CompileSpec(rules, clock, page).value), req, rx)
  {
    hide CompileSpec, Verdict, Blocked, EngineFaithful, ReachedRules, BlockingPatterns, Reached;
    OnePatternCompiles(text, clock, page);
    PatternBlocks(text, clock, req.url, rx);
    CompilationExact(BlockingPatterns([text]), clock, page, req, rx);
    MissedPatternDropped(text, req.url);
    NothingMatches(clock, req.url, rx);
  }

  /** On this request the filter means what the document says, for every accepted rule set at every instant. */
  ghost predicate AlwaysMeant(req: Request, rx: RegexEngine) {
    forall rules, clock, page :: CompileSpec(rules, clock, page).Ok? ==>
      (Blocked(Installed(CompileSpec(rules, clock, page).value), req, rx) <==> Verdict(rules, clock, req.url, rx) == Block)
  }

  /** That holds exactly on plain hosts. */
  lemma PlainHostsExactly(req: Request, rx: RegexEngine)
    requires EngineFaithful(rx) && WellFormedUrl(req.url) && !req.resource.Other?
    ensures AlwaysMeant(req, rx) <==> PlainHost(req.url.host)
  {
    hide CompileSpec, Verdict, Blocked, EngineFaithful, PlainHost, BlockingPatterns, WellFormedUrl, PatternHit;
    if PlainHost(req.url.host) {
      forall rules, clock, page | CompileSpec(rules, clock, page).Ok?
        ensures Blocked(Installed(CompileSpec(rules, clock, page).value), req, rx) <==> Verdict(rules, clock, req.url, rx) == Block
      {
        CompilationPreservesMeaning(rules, clock, page, req, rx);
      }
    } else {
      var text := MissedBy(req.url);
      var clock: Clock := NoZones;
      MissedPatternFails(text, clock, None, req, rx);
      assert CompileSpec(BlockingPatterns([text]), clock, None).Ok?;
    }
  }

  function NoZones(zone: string): Option<TimeWindows.Local> { None }

  lemma MissedBy(url: Url) returns (text: string)
    requires WellFormedUrl(url) && !PlainHost(url.host)
    ensures PatternHit(text, url) && !Reached(text, url)
  {
    var h := OtherHostsMissed(url);
    text := EveryPath(h);
    EveryPathMatches(h, url);
  }

  /** For instance the pattern for all URLs on a bracketed address. */
  lemma BracketedAddressMissed(clock: Clock, page: Option<string>, rx: RegexEngine)
    requires EngineFaithful(rx)
    ensures var req := Request(Url(false, "[::1]", None, "/"), MainFrame);
            var rules := BlockingPatterns(["*://*/*"]);
            && WellFormedUrl(req.url) && CompileSpec(rules, clock, page).Ok?
            && Verdict(rules, clock, req.url, rx) == Block
            && !Blocked(Installed(CompileSpec(rules, clock, page).value), req, rx)
  {
    var url := Url(false, "[::1]", None, "/");
    assert "[::1]"[1] == ':';
    assert WellFormedUrl(url);
    EveryPathMatches(AnyHost, url);
    assert EveryPath(AnyHost) == "*://*/*";
    hide CompileSpec, Verdict, Blocked, EngineFaithful, BlockingPatterns;
    MissedPatternFails("*://*/*", clock, page, Request(url, MainFrame), rx);
  }
}
