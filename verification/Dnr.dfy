/** The browser's declarativeNetRequest rules: what one rule covers and which rule wins. */
module Dnr {
  import opened Basics
  import opened Regex
  import opened MatchPattern
  import opened PatternMeaning
  import opened Evaluation

  datatype DnrAction = AllowRequest | Redirect(page: Option<string>, blockId: Option<string>)

  datatype Condition = Condition(
    requestDomains: Option<seq<string>>, regexFilter: Option<string>, caseSensitive: bool,
    excludedRequestDomains: seq<string>)

  datatype DnrRule = DnrRule(id: nat, priority: int, action: DnrAction, condition: Condition)

  /** The packaged default-deny rule: lowest priority, every http(s) frame. */
  const FAILSAFE_RULE := DnrRule(1, 1, Redirect(None, None), Condition(None, Some("^https?://"), true, []))

  /** The dynamic rules of the extension and whether the packaged rule is switched on. */
  datatype DnrState = DnrState(dynamicRules: seq<DnrRule>, failSafe: bool)

  predicate ConditionHolds(c: Condition, url: Url, rx: RegexEngine) {
    && (c.requestDomains.Some? ==> AnyDomainCovers(c.requestDomains.value, url.host))
    && (c.regexFilter.Some? ==> rx(c.regexFilter.value, c.caseSensitive, UrlText(url)))
    && !AnyDomainCovers(c.excludedRequestDomains, url.host)
  }

  /** Every rule of this extension is limited to main and sub frames. */
  predicate Applies(rule: DnrRule, req: Request, rx: RegexEngine) {
    !req.resource.Other? && ConditionHolds(rule.condition, req.url, rx)
  }

  /** Higher priority first; at equal priority the browser prefers allow to redirect. */
  predicate AtLeast(a: DnrRule, b: DnrRule) {
    a.priority > b.priority || (a.priority == b.priority && (a.action.AllowRequest? || b.action.Redirect?))
  }

  predicate Wins(rules: seq<DnrRule>, i: int, req: Request, rx: RegexEngine) {
    && 0 <= i < |rules| && Applies(rules[i], req, rx)
    && forall j :: 0 <= j < |rules| && Applies(rules[j], req, rx) ==> AtLeast(rules[i], rules[j])
  }

  ghost predicate BlockedBy(rules: seq<DnrRule>, req: Request, rx: RegexEngine) {
    exists i :: Wins(rules, i, req, rx) && rules[i].action.Redirect?
  }

  function InForce(s: DnrState): seq<DnrRule> {
    s.dynamicRules + if s.failSafe then [FAILSAFE_RULE] else []
  }

  ghost predicate Blocked(s: DnrState, req: Request, rx: RegexEngine) {
    BlockedBy(InForce(s), req, rx)
  }

  /** The browser reads regex text of the emitted subset as that subset is defined. */
  ghost predicate EngineFaithful(rx: RegexEngine) {
    forall text, url :: ReadFilter(text).Some? ==>
      (rx(text, true, url) <==> FilterMatches(ReadFilter(text).value, url))
  }

  const HTTP_PREFIX: Re := SchemeRe(AnyScheme, Literals("://", Eps))

  lemma FailSafeFilterReads()
    ensures ReadFilter("^https?://") == Some(Filter(HTTP_PREFIX, false))
  {
    ReadsSlashes();
    ReadsOptionalS("://", Literals("://", Eps), "");
    ReadsPlain("http", "s?" + "://", Cat(Opt(Lit('s')), Literals("://", Eps)), "");
    assert "^https?://"[1..] == "http" + ("s?" + "://");
  }

  lemma ReadsSlashes()
    ensures Reads("://", Literals("://", Eps), "")
  {
    assert Reads("", Eps, "");
    ReadsPlain("://", "", Eps, "");
    assert "://" + "" == "://";
  }

  /** The packaged rule applies to every http(s) frame request. */
  lemma FailSafeApplies(req: Request, rx: RegexEngine)
    requires EngineFaithful(rx) && !req.resource.Other?
    ensures Applies(FAILSAFE_RULE, req, rx)
  {
    var text := UrlText(req.url);
    var front := (if req.url.secure then "https" else "http") + "://";
    FailSafeFilterReads();
    SchemePart(AnyScheme, Eps, req.url.secure, "");
    assert front + "" == front;
    assert text[..|front|] == front;
    assert Matches(HTTP_PREFIX, text[..|front|]);
    assert rx("^https?://", true, text);
  }
}
