/** The order of filter updates: which requests every intermediate state blocks. */
module FailSafeOrdering {
  import opened Basics
  import opened MatchPattern
  import opened Rules
  import opened Evaluation
  import opened Dnr
  import opened Compiler
  import opened WorkerSteps

  /** Browsers accept no priority below 1. */
  predicate Priorities(rules: seq<DnrRule>) {
    forall i :: 0 <= i < |rules| ==> rules[i].priority >= 1
  }

  /** Everything the first state blocks, the second blocks too. */
  ghost predicate BlocksAtLeast(weak: DnrState, strong: DnrState, rx: RegexEngine) {
    forall req: Request :: !req.resource.Other? && Blocked(weak, req, rx) ==> Blocked(strong, req, rx)
  }

  lemma SwitchingOnBlocksMore(dnr: DnrState, req: Request, rx: RegexEngine)
    requires Priorities(dnr.dynamicRules) && Blocked(dnr, req, rx)
    ensures Blocked(SetFailSafe(dnr, true), req, rx)
  {
    var before, after := InForce(dnr), InForce(SetFailSafe(dnr, true));
    var i :| Wins(before, i, req, rx) && before[i].action.Redirect?;
    if i < |dnr.dynamicRules| {
      forall j | 0 <= j < |after| && Applies(after[j], req, rx) ensures AtLeast(after[i], after[j]) {
        if j < |dnr.dynamicRules| { assert before[j] == after[j]; }
      }
      assert Wins(after, i, req, rx);
    } else {
      assert before == after;
    }
  }

  lemma OnlyFailSafeBlocksAll(req: Request, rx: RegexEngine)
    requires EngineFaithful(rx) && !req.resource.Other?
    ensures Blocked(NO_FILTER, req, rx)
  {
    FailSafeApplies(req, rx);
    var force := InForce(NO_FILTER);
    assert force == [FAILSAFE_RULE];
    assert Wins(force, 0, req, rx);
  }

  /** Every state of the trace blocks at least what the state before it blocked. */
  ghost predicate NeverOpens(dnr: DnrState, trace: seq<DnrState>, rx: RegexEngine) {
    forall k :: 0 <= k < |trace| ==> BlocksAtLeast(if k == 0 then dnr else trace[k - 1], trace[k], rx)
  }

  /** Switching to the fail-safe never opens the filter, whichever call fails; when none does, it ends with everything blocked. */
  lemma FailSafeNeverOpens(dnr: DnrState, f: FailSafeFaults, rx: RegexEngine)
    requires EngineFaithful(rx) && Priorities(dnr.dynamicRules)
    ensures NeverOpens(dnr, FailSafeTrace(dnr, f), rx)
    ensures BlocksAtLeast(dnr, FailSafeSpec(dnr, f), rx)
    ensures !f.toggle && !f.list && !f.update ==> FailSafeSpec(dnr, f) == NO_FILTER
  {
    forall req: Request | !req.resource.Other? && Blocked(dnr, req, rx) ensures Blocked(SetFailSafe(dnr, true), req, rx) {
      SwitchingOnBlocksMore(dnr, req, rx);
    }
    forall req: Request | !req.resource.Other? ensures Blocked(NO_FILTER, req, rx) {
      OnlyFailSafeBlocksAll(req, rx);
    }
    hide Blocked;
    var on := SetFailSafe(dnr, true);
    assert BlocksAtLeast(dnr, on, rx) && BlocksAtLeast(on, NO_FILTER, rx);
    var trace := FailSafeTrace(dnr, f);
    forall k | 0 <= k < |trace| ensures BlocksAtLeast(if k == 0 then dnr else trace[k - 1], trace[k], rx) {
    }
  }

  /** The state between the two steps of an installation. */
  function Exchanged(dnr: DnrState, c: Compiled): DnrState { dnr.(dynamicRules := c.rules) }

  lemma ExchangedBlocks(dnr: DnrState, c: Compiled, rx: RegexEngine)
    requires dnr.failSafe && Priorities(c.rules)
    ensures BlocksAtLeast(Installed(c), Exchanged(dnr, c), rx)
  {
    forall req: Request | !req.resource.Other? && Blocked(Installed(c), req, rx) ensures Blocked(Exchanged(dnr, c), req, rx) {
      SwitchingOnBlocksMore(Installed(c), req, rx);
      assert SetFailSafe(Installed(c), true) == Exchanged(dnr, c);
    }
  }

  /**
   * With the packaged rule on beforehand, every state an installation enters blocks all that the new policy blocks,
   * whichever call fails; success means that the new policy is in force.
   */
  lemma InstallNeverOpens(dnr: DnrState, c: Compiled, f: InstallFaults, rx: RegexEngine)
    requires dnr.failSafe && Priorities(c.rules)
    ensures forall k :: 0 <= k < |InstallTrace(dnr, c, f)| ==> BlocksAtLeast(Installed(c), InstallTrace(dnr, c, f)[k], rx)
    ensures InstallSpec(dnr, c, f).1 ==> InstallSpec(dnr, c, f).0 == Installed(c)
  {
    ExchangedBlocks(dnr, c, rx);
    hide Blocked;
    var trace := InstallTrace(dnr, c, f);
    forall k | 0 <= k < |trace| ensures BlocksAtLeast(Installed(c), trace[k], rx) {
      assert trace[k] == Exchanged(dnr, c) || trace[k] == Installed(c);
    }
  }

  predicate SomeRuleApplies(rules: seq<DnrRule>, req: Request, rx: RegexEngine) {
    exists k :: 0 <= k < |rules| && Applies(rules[k], req, rx)
  }

  lemma ExchangedOpensExactly(dnr: DnrState, c: Compiled, req: Request, rx: RegexEngine)
    requires EngineFaithful(rx) && !req.resource.Other? && Priorities(c.rules) && !dnr.failSafe
    ensures Blocked(Installed(c), req, rx) && !Blocked(Exchanged(dnr, c), req, rx) <==>
            c.defaultAction == Block && !SomeRuleApplies(c.rules, req, rx)
  {
    var mid, after := Exchanged(dnr, c), Installed(c);
    assert InForce(mid) == c.rules + [] == c.rules;
    if c.defaultAction == Allow {
      assert mid == after;
    } else {
      var force := InForce(after);
      FailSafeApplies(req, rx);
      assert force == c.rules + [FAILSAFE_RULE] && force[|c.rules|] == FAILSAFE_RULE;
      if SomeRuleApplies(c.rules, req, rx) {
        if Blocked(after, req, rx) { DynamicDecides(c.rules, req, rx); }
      } else {
        forall j | 0 <= j < |c.rules| ensures force[j] == c.rules[j] && !Applies(force[j], req, rx) {}
        assert Wins(force, |c.rules|, req, rx);
      }
    }
  }

  /** Some state entered lets the request through although the new policy blocks it. */
  ghost predicate LetsThrough(trace: seq<DnrState>, c: Compiled, req: Request, rx: RegexEngine) {
    Blocked(Installed(c), req, rx) && exists k :: 0 <= k < |trace| && !Blocked(trace[k], req, rx)
  }

  /** The four calls before the exchange work. */
  predicate GetsToExchange(f: InstallFaults) { !f.regex && !f.limit && !f.list && !f.update }

  /**
   * With the packaged rule off beforehand, an installation that gets to the exchange enters a state that lets a request
   * through exactly when the new policy is default block and none of its rules applies.
   */
  lemma InstallOpensExactly(dnr: DnrState, c: Compiled, f: InstallFaults, req: Request, rx: RegexEngine)
    requires EngineFaithful(rx) && !req.resource.Other? && Priorities(c.rules) && !dnr.failSafe
    ensures LetsThrough(InstallTrace(dnr, c, f), c, req, rx) <==>
            GetsToExchange(f) && c.defaultAction == Block && !SomeRuleApplies(c.rules, req, rx)
  {
    ExchangedOpensExactly(dnr, c, req, rx);
    hide Blocked, SomeRuleApplies;
    var trace := InstallTrace(dnr, c, f);
    if GetsToExchange(f) {
      assert trace[0] == Exchanged(dnr, c);
      assert |trace| == 2 ==> trace[1] == Installed(c);
    }
  }

  /** Where a dynamic rule of priority above 1 applies, the packaged rule does not decide. */
  lemma DynamicDecides(rules: seq<DnrRule>, req: Request, rx: RegexEngine)
    requires SomeRuleApplies(rules, req, rx) && Priorities(rules)
    requires BlockedBy(rules + [FAILSAFE_RULE], req, rx)
    ensures BlockedBy(rules, req, rx)
  {
    var force := rules + [FAILSAFE_RULE];
    var w :| Wins(force, w, req, rx) && force[w].action.Redirect?;
    forall j | 0 <= j < |rules| ensures force[j] == rules[j] {}
    if w < |rules| {
      forall j | 0 <= j < |rules| && Applies(rules[j], req, rx) ensures AtLeast(rules[w], rules[j]) {
        assert AtLeast(force[w], force[j]);
      }
      assert Wins(rules, w, req, rx);
    } else {
      var k :| 0 <= k < |rules| && Applies(rules[k], req, rx);
      assert AtLeast(force[w], force[k]);
      forall j | 0 <= j < |rules| && Applies(rules[j], req, rx) ensures AtLeast(rules[k], rules[j]) {
        assert AtLeast(force[w], force[j]);
      }
      assert Wins(rules, k, req, rx);
    }
  }

  // ---- Compiled rules ----

  lemma {:induction false} BlocksPriorities(rules: RuleSet, i: nat, clock: Clock, page: Option<string>, acc: seq<DnrRule>)
    requires EngineAccepts(rules) && Priorities(acc)
    requires i <= |rules.blocks| && AddBlocks(rules, i, clock, page, acc).Ok?
    ensures Priorities(AddBlocks(rules, i, clock, page, acc).value)
    decreases |rules.blocks| - i
  {
    if i < |rules.blocks| {
      var b := rules.blocks[i];
      if BlockIsActive(b, clock).value {
        BlockPriorities(b, page, acc);
        BlocksPriorities(rules, i + 1, clock, page, AddBlock(b, page, acc).value);
      } else {
        BlocksPriorities(rules, i + 1, clock, page, acc);
      }
    }
  }

  lemma BlockPriorities(b: RuleBlock, page: Option<string>, acc: seq<DnrRule>)
    requires Priorities(acc) && b.priority >= -1000 && AddBlock(b, page, acc).Ok?
    ensures Priorities(AddBlock(b, page, acc).value)
  {
    var out := AddBlock(b, page, acc).value;
    BlockMeans(b, page, acc, Request(Url(false, "a", None, "/"), MainFrame), SubsetEngine());
    forall k | 0 <= k < |out| ensures out[k].priority >= 1 {
      if k < |acc| { assert out[..|acc|][k] == acc[k]; }
    }
  }

  lemma CompiledPriorities(rules: RuleSet, clock: Clock, page: Option<string>)
    requires CompileSpec(rules, clock, page).Ok?
    ensures Priorities(CompileSpec(rules, clock, page).value.rules)
  {
    BlocksPriorities(rules, 0, clock, page, []);
  }

  /**
   * Installing compiled rules over a switched-off packaged rule lets a request through for one step exactly when the
   * exchange is reached, the new rule set blocks the request by its default and no active block matches it in the part
   * that the emitted expressions reach, which on a plain host is all of it.
   */
  lemma InstallOpensByDefault(dnr: DnrState, rules: RuleSet, clock: Clock, page: Option<string>, f: InstallFaults,
                              req: Request, rx: RegexEngine)
    requires EngineFaithful(rx) && WellFormedUrl(req.url) && !req.resource.Other?
    requires CompileSpec(rules, clock, page).Ok? && !dnr.failSafe
    ensures var c := CompileSpec(rules, clock, page).value;
            LetsThrough(InstallTrace(dnr, c, f), c, req, rx) <==>
              GetsToExchange(f) && rules.profile.defaultAction == Block
              && !exists i :: Matching(ReachedRules(rules, req.url), i, clock, req.url, rx)
  {
    var c := CompileSpec(rules, clock, page).value;
    CompiledPriorities(rules, clock, page);
    InstallOpensExactly(dnr, c, f, req, rx);
    OutputMeans(rules, 0, clock, page, [], req, rx);
    hide LetsThrough, InstallTrace;
    RulesApplyWhereBlocksMatch(rules, clock, page, c, req, rx);
  }

  lemma RulesApplyWhereBlocksMatch(rules: RuleSet, clock: Clock, page: Option<string>, c: Compiled, req: Request, rx: RegexEngine)
    requires Explained(rules, clock, page, c.rules, req, rx)
    ensures SomeRuleApplies(c.rules, req, rx) <==> exists i :: Matching(ReachedRules(rules, req.url), i, clock, req.url, rx)
  {
    if SomeRuleApplies(c.rules, req, rx) {
      var k :| 0 <= k < |c.rules| && Applies(c.rules[k], req, rx);
      assert Sound(rules, clock, page, c.rules, k, req, rx);
    }
    if i :| Matching(ReachedRules(rules, req.url), i, clock, req.url, rx) {
      assert Complete(rules, i, clock, page, c.rules, req, rx);
    }
  }
}
