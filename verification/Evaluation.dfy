/** The documented meaning of a rule set: six steps from a request to allow or block. */
module Evaluation {
  import opened Basics
  import opened TimeWindows
  import opened MatchPattern
  import opened Rules

  /** Weekday and minute per time-zone name at one instant; None where the zone is unknown. */
  type Clock = string -> Option<Local>

  /** The browser's regex matcher: pattern, case sensitivity, URL text. */
  type RegexEngine = (string, bool, string) -> bool

  datatype Resource = MainFrame | SubFrame | Other

  datatype Request = Request(url: Url, resource: Resource)

  /** A domain covers itself and its subdomains. */
  predicate DomainCovers(domain: string, host: string) {
    host == domain || EndsWith(host, "." + domain)
  }

  predicate AnyDomainCovers(domains: seq<string>, host: string) {
    exists i :: 0 <= i < |domains| && DomainCovers(domains[i], host)
  }

  predicate PatternHit(text: string, url: Url) {
    ReadPattern(text).Some? && PatternMatches(ReadPattern(text).value, url)
  }

  predicate RegexHit(r: UrlRegex, url: Url, rx: RegexEngine) {
    rx(r.pattern, r.caseSensitive, UrlText(url))
  }

  predicate Hit(m: Matchers, url: Url, rx: RegexEngine) {
    || AnyDomainCovers(m.domains, url.host)
    || (exists i :: 0 <= i < |m.urlPatterns| && PatternHit(m.urlPatterns[i], url))
    || (exists i :: 0 <= i < |m.urlRegex| && RegexHit(m.urlRegex[i], url, rx))
  }

  /** Enabled, and without a schedule or inside one of its weekly windows. */
  predicate Active(b: RuleBlock, clock: Clock) {
    && b.enabled
    && match b.schedule
       case None => true
       case Some(s) =>
         && clock(s.timezone).Some?
         && exists i :: 0 <= i < |s.windows| &&
              InWeekIntervals(s.windows[i], WeekMinute(clock(s.timezone).value))
  }

  /** An active block with a target that fits and none of its own exceptions fitting. */
  predicate BlockMatches(b: RuleBlock, clock: Clock, url: Url, rx: RegexEngine) {
    Active(b, clock) && Hit(b.targets, url, rx) && !Hit(b.exceptions, url, rx)
  }

  predicate Matching(rules: RuleSet, i: int, clock: Clock, url: Url, rx: RegexEngine) {
    0 <= i < |rules.blocks| && BlockMatches(rules.blocks[i], clock, url, rx)
  }

  /** A matching block of action `block` that no matching block outranks. */
  ghost predicate DecidesBlock(rules: RuleSet, i: int, clock: Clock, url: Url, rx: RegexEngine) {
    && Matching(rules, i, clock, url, rx)
    && rules.blocks[i].action == Block
    && forall j :: Matching(rules, j, clock, url, rx) ==> rules.blocks[j].priority <= rules.blocks[i].priority
  }

  /** Highest priority wins, block beats allow at equal priority, otherwise the default. */
  ghost function Verdict(rules: RuleSet, clock: Clock, url: Url, rx: RegexEngine): Action {
    if !exists i :: Matching(rules, i, clock, url, rx) then rules.profile.defaultAction
    else if exists i :: DecidesBlock(rules, i, clock, url, rx) then Block
    else Allow
  }
}
