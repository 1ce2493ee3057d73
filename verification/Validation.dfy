/** The daemon's rule validator: the validity predicate and the issue-collecting pass that decides it. */
module Validation {
  import opened Basics
  import opened TimeWindows
  import opened MatchPattern
  import opened Rules

  /** Library answers the validator relies on: time zones, Punycode decoding, Python's `re.compile`. */
  datatype Libraries = Libraries(knownZone: string -> bool, decodesIdna: string -> bool, regexCompiles: string -> bool)

  predicate IsAlnum(c: char) { IsLower(c) || IsDigit(c) }

  predicate AllAlnum(s: string) {
    forall i :: 0 <= i < |s| ==> IsAlnum(s[i])
  }

  /** Groups of lower-case letters and digits joined by single hyphens, starting with a letter. */
  predicate BlockIdText(s: string) {
    var parts := SplitOn(s, '-');
    && s != "" && IsLower(s[0])
    && forall i :: 0 <= i < |parts| ==> parts[i] != "" && AllAlnum(parts[i])
  }

  predicate ValidBlockId(s: string) {
    1 <= |s| <= 64 && BlockIdText(s)
  }

  predicate DomainLabel(s: string) {
    && 1 <= |s| <= 63 && IsAlnum(s[0]) && IsAlnum(s[|s| - 1])
    && forall i :: 0 <= i < |s| ==> IsAlnum(s[i]) || s[i] == '-'
  }

  predicate ValidDomain(d: string, lib: Libraries) {
    var labels := SplitOn(d, '.');
    && 3 <= |d| <= 253 && |labels| >= 2
    && forall i :: 0 <= i < |labels| ==>
         DomainLabel(labels[i]) && (StartsWith(labels[i], "xn--") ==> lib.decodesIdna(labels[i]))
  }

  /** What `\s` matches in a Python text pattern. */
  predicate IsSpace(c: char) {
    || '\t' <= c <= '\r' || '\U{1C}' <= c <= ' ' || c == '\U{85}' || c == '\U{A0}' || c == '\U{1680}'
    || '\U{2000}' <= c <= '\U{200A}' || c == '\U{2028}' || c == '\U{2029}' || c == '\U{202F}'
    || c == '\U{205F}' || c == '\U{3000}'
  }

  /** Python's path test: no white space after the slash. */
  predicate PathWithoutSpace(path: string) {
    forall i :: 0 <= i < |path| ==> !IsSpace(path[i])
  }

  predicate ValidUrlPattern(text: string, lib: Libraries) {
    && 7 <= |text| <= 2048
    && match SplitPattern(text)
       case None => false
       case Some(p) =>
         && PathWithoutSpace(p.path)
         && match p.host
            case AnyHost => true
            case Subdomains(d) => ValidDomain(d, lib)
            case ExactHost(h) => ValidDomain(h, lib)
  }

  /** What Python's expression accepts, the extension's reads as the same pattern. */
  lemma ValidPatternReads(text: string, lib: Libraries)
    requires ValidUrlPattern(text, lib)
    ensures ReadPattern(text).Some? && ReadPattern(text) == SplitPattern(text)
  {
    var path := SplitPattern(text).value.path;
    forall i | 0 <= i < |path| ensures !IsLineEnd(path[i]) { assert !IsSpace(path[i]); }
  }

  predicate IsLetter(c: char) { IsLower(c) || 'A' <= c <= 'Z' }

  /** A back reference, look-around, conditional, atomic group, comment or inline-flag group at `i`. */
  predicate UnsupportedAt(p: string, i: int) {
    || (0 <= i && i + 1 < |p| && p[i] == '\\' && '1' <= p[i + 1] <= '9')
    || (0 <= i && i + 2 < |p| && p[i] == '(' && p[i + 1] == '?'
        && (p[i + 2] in "=!(>#-" || IsLetter(p[i + 2])
            || (p[i + 2] == '<' && i + 3 < |p| && p[i + 3] in "=!")))
  }

  predicate ValidUrlRegex(r: UrlRegex, lib: Libraries) {
    && 1 <= |r.pattern| <= 512
    && (forall i :: 0 <= i < |r.pattern| ==> ' ' <= r.pattern[i] <= '~')
    && (forall i :: 0 <= i < |r.pattern| ==> !UnsupportedAt(r.pattern, i))
    && lib.regexCompiles(r.pattern)
  }

  predicate ValidMatchers(m: Matchers, lib: Libraries) {
    && |m.domains| <= 10000 && Distinct(m.domains) && (forall i :: 0 <= i < |m.domains| ==> ValidDomain(m.domains[i], lib))
    && |m.urlPatterns| <= 1000 && Distinct(m.urlPatterns)
    && (forall i :: 0 <= i < |m.urlPatterns| ==> ValidUrlPattern(m.urlPatterns[i], lib))
    && |m.urlRegex| <= 100 && Distinct(m.urlRegex) && (forall i :: 0 <= i < |m.urlRegex| ==> ValidUrlRegex(m.urlRegex[i], lib))
  }

  predicate ValidZone(zone: string, lib: Libraries) {
    3 <= |zone| <= 64 && lib.knownZone(zone)
  }

  predicate ValidWindow(w: Window) {
    var days := WindowDays(w.rrule);
    && StartsWith(w.rrule, RRULE_PREFIX) && Distinct(days)
    && forall i :: 0 <= i < |days| ==> days[i] in DAY_CODES
  }

  predicate ValidSchedule(s: Schedule, lib: Libraries) {
    && ValidZone(s.timezone, lib) && 1 <= |s.windows| <= 100 && Distinct(s.windows)
    && forall i :: 0 <= i < |s.windows| ==> ValidWindow(s.windows[i])
  }

  predicate ValidPermissions(p: Permissions, action: Action) {
    && !p.removeDomains && !p.addUrlPatterns && !p.addUrlRegex && !p.modifyExceptions
    && !p.modifySchedule && !p.disableBlock && (p.addDomains ==> action == Block)
  }

  predicate ValidBlock(b: RuleBlock, lib: Libraries) {
    && ValidBlockId(b.id) && 1 <= |b.name| <= 120 && -1000 <= b.priority <= 1000
    && ValidPermissions(b.permissions, b.action)
    && ValidMatchers(b.targets, lib) && ValidMatchers(b.exceptions, lib)
    && (b.schedule.Some? ==> ValidSchedule(b.schedule.value, lib))
  }

  predicate UniqueBlockIds(blocks: seq<RuleBlock>) {
    forall i, j :: 0 <= i < j < |blocks| ==> blocks[i].id != blocks[j].id
  }

  predicate ValidRules(r: RuleSet, lib: Libraries) {
    && r.formatVersion == FORMAT_VERSION
    && ValidZone(r.profile.timezone, lib) && r.profile.conflictPolicy == CONFLICT_POLICY
    && |r.blocks| <= MAX_BLOCKS && UniqueBlockIds(r.blocks)
    && forall i :: 0 <= i < |r.blocks| ==> ValidBlock(r.blocks[i], lib)
  }

  // ---- The issue-collecting pass ----

  datatype Issue = Issue(index: nat, field: string)

  /** Every method appends issues, and appends none exactly when its argument is valid. */
  class RuleValidator {
    var issues: seq<Issue>
    const lib: Libraries

    constructor (lib: Libraries)
      ensures this.lib == lib && issues == []
    {
      this.lib := lib;
      issues := [];
    }

    twostate predicate Appended(valid: bool)
      reads this
    {
      old(issues) <= issues && (issues == old(issues) <==> valid)
    }

    method Error(index: nat, field: string)
      modifies this
      ensures issues == old(issues) + [Issue(index, field)]
    {
      issues := issues + [Issue(index, field)];
    }

    method Check(valid: bool, index: nat, field: string)
      modifies this
      ensures Appended(valid)
    {
      if !valid { Error(index, field); }
    }

    method ValidateDomains(items: seq<string>, index: nat)
      modifies this
      ensures Appended(|items| <= 10000 && Distinct(items) && forall i :: 0 <= i < |items| ==> ValidDomain(items[i], lib))
    {
      hide ValidDomain;
      Check(|items| <= 10000, index, "domains");
      ghost var head := issues == old(issues);
      var seen: set<string> := {};
      for k := 0 to |items|
        invariant seen == set i | 0 <= i < k :: items[i]
        invariant old(issues) <= issues
        invariant issues == old(issues) <==>
          head && Distinct(items[..k]) && forall i :: 0 <= i < k ==> ValidDomain(items[i], lib)
      {
        assert items[..k + 1] == items[..k] + [items[k]];
        assert items[k] in seen <==> exists i :: 0 <= i < k && items[i] == items[k];
        Check(items[k] !in seen, index, "domains");
        seen := seen + {items[k]};
        Check(ValidDomain(items[k], lib), index, "domains");
      }
      assert items[..|items|] == items;
    }

    method ValidatePatterns(items: seq<string>, index: nat)
      modifies this
      ensures Appended(|items| <= 1000 && Distinct(items) && forall i :: 0 <= i < |items| ==> ValidUrlPattern(items[i], lib))
    {
      hide ValidUrlPattern;
      Check(|items| <= 1000, index, "url_patterns");
      ghost var head := issues == old(issues);
      var seen: set<string> := {};
      for k := 0 to |items|
        invariant seen == set i | 0 <= i < k :: items[i]
        invariant old(issues) <= issues
        invariant issues == old(issues) <==>
          head && Distinct(items[..k]) && forall i :: 0 <= i < k ==> ValidUrlPattern(items[i], lib)
      {
        assert items[..k + 1] == items[..k] + [items[k]];
        assert items[k] in seen <==> exists i :: 0 <= i < k && items[i] == items[k];
        Check(items[k] !in seen, index, "url_patterns");
        seen := seen + {items[k]};
        Check(ValidUrlPattern(items[k], lib), index, "url_patterns");
      }
      assert items[..|items|] == items;
    }

    method ValidateRegexes(items: seq<UrlRegex>, index: nat)
      modifies this
      ensures Appended(|items| <= 100 && Distinct(items) && forall i :: 0 <= i < |items| ==> ValidUrlRegex(items[i], lib))
    {
      hide ValidUrlRegex;
      Check(|items| <= 100, index, "url_regex");
      ghost var head := issues == old(issues);
      var seen: set<UrlRegex> := {};
      for k := 0 to |items|
        invariant seen == set i | 0 <= i < k :: items[i]
        invariant old(issues) <= issues
        invariant issues == old(issues) <==>
          head && Distinct(items[..k]) && forall i :: 0 <= i < k ==> ValidUrlRegex(items[i], lib)
      {
        assert items[..k + 1] == items[..k] + [items[k]];
        assert items[k] in seen <==> exists i :: 0 <= i < k && items[i] == items[k];
        Check(items[k] !in seen, index, "url_regex");
        seen := seen + {items[k]};
        Check(ValidUrlRegex(items[k], lib), index, "url_regex");
      }
      assert items[..|items|] == items;
    }

    method ValidateMatchers(m: Matchers, index: nat)
      modifies this
      ensures Appended(ValidMatchers(m, lib))
    {
      ValidateDomains(m.domains, index);
      ValidatePatterns(m.urlPatterns, index);
      ValidateRegexes(m.urlRegex, index);
    }

    method ValidateSchedule(s: Schedule, index: nat)
      modifies this
      ensures Appended(ValidSchedule(s, lib))
    {
      hide ValidWindow, ValidZone;
      Check(ValidZone(s.timezone, lib), index, "schedule.timezone");
      Check(1 <= |s.windows| <= 100, index, "schedule.windows");
      ghost var head := issues == old(issues);
      var seen: set<Window> := {};
      for k := 0 to |s.windows|
        invariant seen == set i | 0 <= i < k :: s.windows[i]
        invariant old(issues) <= issues
        invariant issues == old(issues) <==>
          head && Distinct(s.windows[..k]) && forall i :: 0 <= i < k ==> ValidWindow(s.windows[i])
      {
        assert s.windows[..k + 1] == s.windows[..k] + [s.windows[k]];
        assert s.windows[k] in seen <==> exists i :: 0 <= i < k && s.windows[i] == s.windows[k];
        Check(s.windows[k] !in seen, index, "schedule.windows");
        seen := seen + {s.windows[k]};
        Check(ValidWindow(s.windows[k]), index, "schedule.windows");
      }
      assert s.windows[..|s.windows|] == s.windows;
    }

    method ValidateBlock(b: RuleBlock, index: nat)
      modifies this
      ensures Appended(ValidBlock(b, lib))
    {
      Check(ValidBlockId(b.id), index, "id");
      Check(1 <= |b.name| <= 120, index, "name");
      Check(-1000 <= b.priority <= 1000, index, "priority");
      Check(ValidPermissions(b.permissions, b.action), index, "user_permissions");
      ValidateMatchers(b.targets, index);
      ValidateMatchers(b.exceptions, index);
      if b.schedule.Some? {
        ValidateSchedule(b.schedule.value, index);
      }
    }

    /** The issue list of a rule set is empty exactly when the rule set is valid. */
    method Validate(r: RuleSet) returns (found: seq<Issue>)
      modifies this
      ensures found == issues && (found == [] <==> ValidRules(r, lib))
    {
      hide ValidBlock, ValidZone;
      issues := [];
      Check(r.formatVersion == FORMAT_VERSION, 0, "format_version");
      Check(ValidZone(r.profile.timezone, lib), 0, "profile.timezone");
      Check(r.profile.conflictPolicy == CONFLICT_POLICY, 0, "profile.conflict_policy");
      Check(|r.blocks| <= MAX_BLOCKS, 0, "blocks");
      ghost var head := issues == [];
      var ids: map<string, nat> := map[];
      for k := 0 to |r.blocks|
        invariant ids.Keys == set i | 0 <= i < k :: r.blocks[i].id
        invariant issues == [] <==>
          head && UniqueBlockIds(r.blocks[..k]) && forall i :: 0 <= i < k ==> ValidBlock(r.blocks[i], lib)
      {
        var b := r.blocks[k];
        assert r.blocks[..k + 1] == r.blocks[..k] + [b];
        assert b.id in ids <==> exists i :: 0 <= i < k && r.blocks[i].id == b.id;
        ValidateBlock(b, k);
        if b.id in ids {
          Error(k, "id");
        } else {
          ids := ids[b.id := k];
        }
      }
      assert r.blocks[..|r.blocks|] == r.blocks;
      return issues;
    }
  }
}
