# Verification of the Ubuntu parental-control web filter

A Dafny model of the filter's pipeline with proofs about it. `dafny verify dfyconfig.toml` checks everything.

## What is modelled

**Meaning of the rules.** `Evaluation` is the six-step evaluation that `docs/rules-schema.md` promises. `Compiler` is
the extension's compilation into declarativeNetRequest (DNR) rules, `Dnr` the browser's choice among them, with the
packaged default-deny rule. The main theorem, `Compiler.CompilationPreservesMeaning`, says that the browser blocks a frame request
exactly when the document says so; it holds for every accepted rule set exactly on plain hosts (`HostLimits.PlainHostsExactly`),
and `Compiler.CompilationExact` says what the browser does on all others. It stands on `TimeWindows` (schedules are intervals on the circle of 10080 week
minutes), on `Regex`, `MatchPattern` and `PatternMeaning` (the emitted regex text, read as a regex, matches exactly the pattern's URLs on the hosts it reaches), and
carries the theorems about user additions (`UserDomains`, `AddingDomains`, `RemovingDomains`) and about reordering (`Ordering`, `OrderDraft`).

**Travelling snapshots.** `CanonicalJson`, `JsonNumbers`, `JsonIdentity` and `JsonAgreement` show that canonical text identifies a JSON
value and exactly when the Python and the JavaScript printer agree. `JsonReader` reads JSON after the grammar of RFC 8259, independently of
the printers; `JsonReading` and `RulesReader` show that the printed texts, read by grammar and field names, say what they should.
`RulesJson` and `ManagedData` turn all that into revisions and into the exact
condition under which the extension accepts what the daemon wraps. `Publication` describes one publication, step by
step, with a failure possible at every step; `PublicationSafety`, `PublicationRuns` and `AddingDomains` prove what holds afterwards and over every run.
`PublisherDaemon` is the same publisher as a class that updates its fields. `WorkerSteps`, `WorkerSafety`, `FailSafeOrdering` and `ServiceWorker` do the same for the extension's
background worker. `EndToEnd` joins both sides, deliveries in any order, repeated or late; `Deliveries` says what each task of the worker's
queue achieves and follows a publication from the rule files, by way of the policy's key, to the filter.

**Editing.** `RuleEdits` has the editing commands as changes to a rule set, `Editing` and `EditingSafety` the locked read, archive and replace of
the rule file, its interleavings and its version history. `EditEffects` says field by field what each command changes and exactly when the
file is replaced. `RuleStore` is the daemon's polling of that file.

**Self-contained pieces.** `DerSignature`, `BlockIds`, `Connections` and `Validation`.

Objects whose methods update fields are classes; each method is proved equal to a function on values
(`...Spec`), and the theorems are about that function. `hide` statements only keep function bodies out of a proof.

## How the model reads the world

- A SHA-256 digest is the constructor `Digest(text)`, so it is collision-free. The twelve digits in a version id are treated the same way.
- A signature is the pair of key and signed text. The revision of the user file stands for the document itself.
- A clock maps time-zone names to local weekday and minute and says nothing for an unknown zone.
- The browser's regex engine is an arbitrary predicate on user patterns. `Dnr.EngineFaithful` asks that it read the
  subset emitted by the pattern translation as `Regex` defines it.
- A URL has a host without `/`, where `:` occurs only inside a bracketed address, and no line feed (`MatchPattern.WellFormedUrl`).
- JSON numbers are whole. JavaScript reads them as doubles and writes them by ECMAScript's Number::toString (`JsonNumbers.WrittenNumberMeans`).
- A file write is an atomic replace. It may raise before the file changed or, when syncing the directory fails, after.
- A text is a sequence of code points without surrogates. JSON documents are modelled after parsing.

## Where the code does not do what one might expect

- `blockIdFromName`: the base may equal one of its own numbered candidates, so 9998 different ids can exhaust the search. For every
  name the bound is exactly 9998 or 9999 (`BlockIds.RunsOutOnlyWithManyIds`, `BlockIds.RunsOutAtTheBound`, `BlockIds.SelfNumberedName`).
- `add_domain`: the first store write is outside the `try`. A failure after its replace leaves the domain recorded
  (`AddingDomains.FailedAdditionStays`; `AddingDomains.FailureRestoresStore` gives the exact condition).
- User file: its signature is read after publishing, so a concurrent rewrite can stay unpublished (`PublicationRuns.ConcurrentRewriteIsMissed`);
  without one, a skipped poll is up to date or follows a failed one (`PublicationRuns.SkippedPollsExplained`).
- A browser that read a snapshot before its publication was rolled back refuses the restored policy
  (`EndToEnd.RolledBackSightingIsRefused`, exactly: `EndToEnd.RestoredPolicyAdmittedExactly`) and recovers with the next
  successful publication (`EndToEnd.RefusingWorkerRecovers`).
- `installRules` opens the filter for one step exactly when the packaged rule was off, the new default is block and no
  active block matches in what the emitted expressions reach (`FailSafeOrdering.InstallOpensByDefault`).
- A policy message's key is trusted even when its snapshot is then refused (`WorkerSafety.PolicyKeyTakenOver`).
- Version history: a version id used twice removes the first version, and only then is a version lost (`EditingSafety.VersionsStayExactly`); its rules are then still active.
  A read error during archiving counts as a damaged file, so valid rules can be replaced without being archived
  (`EditingSafety.ArchivedExactlyWhenReadable`).
- Only a publication error is retried by the rule store (`RuleStore.RetriedExactly` names the steps); a failing signature or write of
  the live file is final (`RuleStore.LiveFailureIsFinal`).
- When the last good copy cannot be written after a publication, the browsers have the new rules and the daemon keeps the old ones
  (`RuleStore.FailingCopyDiverges`, exactly: `RuleStore.ActiveIsLastPublishedExactly`).
- The two JSON printers agree exactly where both sort the keys alike and every number keeps its digits
  (`JsonAgreement.PrintersAgreeExactly`, `JsonAgreement.SupplementaryKeysDisagree`, `JsonAgreement.LargeNumbersDisagree`). Valid rule documents always do.
- The emitted expression for the host `*` misses bracketed addresses, and the one for `*.d` misses hosts with empty labels, although the
  patterns cover them: with default allow, a block on `*://*/*` lets `http://[::1]/` through (`HostLimits.BracketedAddressMissed`). Which hosts
  are missed is exact for every pattern (`PatternMeaning.PatternTranslatesExactly`) and for whole rule sets (`HostLimits.PlainHostsExactly`).

## Model

| member | source | states |
|---|---|---|
| TimeWindows.WindowMeansWeekIntervals | browser-extension/common/rule-engine.js:144-163 | a window is active at a local day and minute iff some listed day's occurrence contains it modulo 10080 |
| TimeWindows.ActiveTimePerWeek | browser-extension/common/rule-engine.js:154-163 | a window on k distinct days is active for exactly k times its duration minutes per week |
| TimeWindows.OccurrencesDisjoint | browser-extension/common/rule-engine.js:154-163 | occurrences that start on different days never overlap, even across midnight and the week end |
| ScheduleEditor.EditorRoundTrip | browser-extension/options/schedule-model.js:17-59 | every window the editor builds parses back to exactly the chosen days and keeps its times |
| ScheduleEditor.RruleReadsExactly | browser-extension/options/schedule-model.js:17-30 | a recurrence text is read iff it spells a list of different known days, and then as those days |
| ScheduleEditor.ScheduleBuiltExactly | browser-extension/options/schedule-model.js:32-59 | a schedule is built iff the zone is not blank, every draft has known days and two times, and no two drafts are the same; it is for the zone without the blanks around it |
| Compiler.CompileBlock | browser-extension/common/rule-engine.js:218-261 | the loops over one block's targets compute the specified rules, numbered on from those before |
| Compiler.Compile | browser-extension/common/rule-engine.js:212-266 | the loop over the blocks computes the specified result, including every error |
| Compiler.CompilesExactly | browser-extension/common/rule-engine.js:212-266 | a rule set compiles iff it is accepted, the zones of enabled blocks are known, active blocks have readable patterns and only domains as exceptions, and they have at most 5000 targets; one rule per target |
| Compiler.ActiveAgrees | browser-extension/common/rule-engine.js:165-170 | where the zone is known, the compiler's activity test agrees with the documented one |
| Compiler.BlockMeans | browser-extension/common/rule-engine.js:218-261 | one block's rules apply exactly where a target fits and none of its own exceptions does, all with the block's priority and action |
| Compiler.OutputMeans | browser-extension/common/rule-engine.js:212-266 | every applying rule belongs to a matching block and every matching block has an applying rule |
| Compiler.CompilationPreservesMeaning | docs/rules-schema.md:10-15 | for every accepted rule set, instant and http(s) frame request to a plain host the browser blocks iff the six-step evaluation says block; HostLimits.PlainHostsExactly shows that this cannot be had on more hosts |
| Compiler.CompilationExact | browser-extension/common/rule-engine.js:212-266 | on every host the browser blocks iff the six-step evaluation says so about the rule set without the target patterns whose expression misses the host |
| HostLimits.PlainHostsExactly | docs/rules-schema.md:29 | the filter means what the document says for every accepted rule set at every instant iff the host is plain: no colon, and nonempty labels before every domain it ends in |
| HostLimits.MissedPatternFails | browser-extension/common/rule-engine.js:183-189 | wherever a pattern covers a URL that its expression misses, a blocking rule set with that one pattern lets the request through |
| HostLimits.BracketedAddressMissed | browser-extension/common/rule-engine.js:184 | the document blocks `http://[::1]/` by `*://*/*`, the compiled filter does not |
| Compiler.IdsNumbered | browser-extension/common/rule-engine.js:214-263 | rule ids are 1, 2, ..., n, hence distinct, and n is at most 5000 |
| Compiler.RedirectNamesDecider | browser-extension/common/rule-engine.js:202-210 | the page of a blocked request names a matching block that decides it, or none where no block matches |
| Dnr.FailSafeApplies | browser-extension/background/service-worker.js:159-165 | the packaged rule applies to every http(s) frame request |
| MatchPattern.WildcardCharwise | browser-extension/common/rule-engine.js:176-178 | split at stars, escape and join equals rewriting the path character by character |
| MatchPattern.RegexTextReads | browser-extension/common/rule-engine.js:180-189 | the emitted text reads back as the intended expression, so escaped metacharacters stand for themselves |
| PatternMeaning.ReadPatternExactly | browser-extension/common/rule-engine.js:180-182 | a text is read as a pattern iff it is the spelling of that valid pattern |
| PatternMeaning.PatternTranslatesExactly | browser-extension/common/rule-engine.js:172-189 | for every URL the emitted regex matches iff the pattern covers it (scheme, any host, domain with its subdomains or exact host, any port, glob path) and the host is not one the expression misses: a colon under `*`, an empty label before the domain under `*.d` |
| PatternMeaning.OrdinaryHostsArePlain | docs/rules-schema.md:29 | every host without a colon and without empty labels is plain |
| Validation.ValidPatternReads | daemon/rule_validator.py:26-30 | every pattern that the daemon accepts by its own path test is read by the extension as the same pattern |
| UserDomains.ExtendInPlace | daemon/user_rules.py:322 | extending with the filtering generator adds each new domain once, in order |
| UserDomains.MergeUsers | daemon/user_rules.py:311-324 | the merge loops compute the specified merged rules |
| UserDomains.MergeIgnoresOrder | daemon/user_rules.py:311-324 | the result depends only on what was recorded per block |
| UserDomains.ReorderedUsers | daemon/user_rules.py:314-315 | listing the accounts in another order records the same additions |
| UserDomains.MergeIdempotent | daemon/user_rules.py:311-324 | merging twice equals merging once |
| UserDomains.MergeTightensBlocks | daemon/user_rules.py:316-324 | only domain lists of blocking blocks change, and only by gaining entries |
| UserDomains.MergedDomainsExactly | daemon/user_rules.py:313-323 | a merged list holds its own domains and, if the block receives additions, all domains recorded for its id |
| UserDomains.ChildrenOnlyTighten | daemon/user_rules.py:318-320 | whatever the base rules block, the merged rules block, at every instant and for every request |
| EndToEnd.AdditionsTightenFilter | daemon/user_rules.py:318-320 | the same for the compiled filters: additions never open a blocked request |
| Ordering.OrderUnique | browser-extension/options/order-model.js:3 | there is one list of all blocks by falling priority and list position, and sorting yields it |
| Ordering.SortedPermutes | browser-extension/options/order-model.js:3 | sorting is a permutation of the blocks |
| Ordering.SortedStays | browser-extension/options/order-model.js:3 | a list with strictly falling priorities is left as it is |
| Ordering.SortedIsStable | browser-extension/options/order-model.js:3 | priorities fall, and blocks of equal priority keep their list order |
| Ordering.MoveBlockInPlace | browser-extension/options/order-model.js:4 | the two splices compute the specified move, of which `MoveExact` says where it puts the block |
| Ordering.MoveExact | browser-extension/options/order-model.js:4 | with n blocks the moved block ends up at its position plus the offset, at 0 where that is negative and at n-1 where it is too large; all others keep their relative order |
| Ordering.StagedOrderDecides | browser-extension/options/options.js:502-512 | after staging, sorting again reproduces the list and the verdict is that of the first matching active block in it |
| OrderDraft.Draft.Find | browser-extension/options/options.js:506 | the lookup by id returns the first block of the draft with that id |
| OrderDraft.Draft.WritePriorities | browser-extension/options/options.js:505-507 | writing through the shared objects gives each listed id its priority and leaves the draft's other blocks as they are |
| OrderDraft.Draft.StageOrder | browser-extension/options/options.js:502-509 | the draft holds the order moved as `MoveExact` says, with strictly falling priorities; too many blocks leave it unchanged |
| JsonIdentity.Unambiguous | browser-extension/common/rule-engine.js:14-23 | two canonical texts, printed by either program, that agree inside any surrounding JSON are the same text, and stand for equal values as long as JavaScript prints safe integers |
| JsonReading.ValueReads | browser-extension/common/rule-engine.js:14-23 | reading a canonical text in any surroundings by the grammar of RFC 8259 gives the value, its members sorted, and what follows |
| JsonReading.TextReadsBack | daemon/managed_policy.py:60-61 | a canonical text is JSON text for exactly its value |
| JsonAgreement.PrintersAgreeExactly | daemon/managed_policy.py:60-61 | Python's and JavaScript's canonical texts are equal iff both sort the members of every object alike and every number is below 10^21 and the shortest for its double |
| JsonNumbers.NumberPrintedExactly | browser-extension/common/rule-engine.js:22 | the two programs print one number alike iff it is below 10^21 and the shortest for its double |
| JsonNumbers.WrittenNumberMeans | browser-extension/common/rule-engine.js:22 | the number JavaScript prints reads as the same double as the one in the document, ends in as many zeros as any that does, and is the nearest of those |
| JsonAgreement.LargeNumbersDisagree | browser-extension/common/rule-engine.js:22 | 2^60 is printed as 1152921504606846976 by Python and as 1152921504606847000 by JavaScript |
| JsonAgreement.RoundedNumbersCollide | browser-extension/common/rule-engine.js:22 | JavaScript prints 2^53 and 2^53 + 1 alike |
| JsonAgreement.PrintersAgree | daemon/managed_policy.py:60-61 | they are equal for distinct keys without supplementary characters, so for ASCII keys, and safe integers |
| JsonAgreement.EqualTextSameValue | browser-extension/common/rule-engine.js:14-23 | equal texts mean equal values for all keys and every pairing of printers, with safe integers on JavaScript's side |
| JsonAgreement.SameValuesSameText | browser-extension/common/rule-engine.js:16-20 | member order never changes the text |
| JsonAgreement.CanonicalTextIsIdentity | daemon/user_rules.py:89-96 | equal canonical text iff equal values: always between two texts of Python, with safe integers when JavaScript prints |
| JsonAgreement.SupplementaryKeysDisagree | browser-extension/common/rule-engine.js:17-19 | with supplementary characters in keys the texts can differ |
| RulesJson.RulesWellFormed | daemon/rule_validator.py:91-167 | every rule document has distinct keys that both programs sort alike, and safe numbers if its priorities are safe |
| RulesJson.SameRules | daemon/rule_validator.py:91-167 | no two rule sets share a JSON value |
| RulesReader.RulesTextReads | daemon/rule_validator.py:91-167 | from the canonical text of a rule set a reader of JSON that looks fields up by name gets exactly that rule set |
| ManagedData.RevisionIdentifiesRules | daemon/user_rules.py:89-96 | the daemon's revisions are equal iff the rule sets are; so are the daemon's and the extension's when the latter's priorities are safe integers, as in every rule set that either program accepts |
| ManagedData.MakeManagedData | daemon/managed_policy.py:64-110 | the counting loop and the checks compute the specified wrapped snapshot or error; `RulesReader.MessageReads` says what it holds |
| RulesReader.MessageReads | daemon/managed_policy.py:96-110 | the text of a message, read as JSON and by field names, has its generation, revision and rules, which are those of its content; beside it stands the key it was made with |
| ManagedData.PublishableExactly | daemon/managed_policy.py:67-94 | a snapshot can be made iff the generation is positive, no exception is a pattern or regex, all targets together number at most 5000 and the text fits |
| ManagedData.AcceptedIsAuthentic | browser-extension/common/rule-engine.js:88-111 | an accepted snapshot carries the digest of its own rules, a positive safe generation and rules the engine takes |
| ManagedData.PublishedIsAccepted | browser-extension/common/rule-engine.js:88-128 | the daemon's message for valid rules is accepted iff generation and text length fit, and then as exactly those rules |
| ManagedData.WrapperLength | daemon/managed_policy.py:96-106 | the wrapper adds 123 characters and the digits of the generation |
| ManagedData.AcceptanceTransfers | browser-extension/common/rule-engine.js:92 | what the daemon's byte bound admits is accepted iff the wrapper fits; 139 bytes of room always suffice |
| ManagedData.PublishableCompiles | daemon/managed_policy.py:70-85 | publishable rules compile at every instant with known zones, into at most 5000 rules |
| PublicationSafety.PoliciesMean | daemon/managed_policy.py:203-236 | writing the browser policies touches only configured targets, on success puts the same message into each, and on failure takes each back unless the undo itself failed |
| PublicationSafety.RollbackMeans | daemon/user_rules.py:373-384 | each target has its earlier content again unless restoring it failed before the replace |
| PublicationSafety.AttemptMeans | daemon/user_rules.py:362-396 | after any outcome every target holds its old content or the one new message; the counter never moves back |
| PublicationSafety.PublishSucceeds | daemon/user_rules.py:355-396 | success leaves one new generation of the merged rules in every configured target and records exactly that |
| PublicationSafety.PublishSucceedsExactly | daemon/user_rules.py:355-396 | a publication succeeds exactly when the files load, the merged rules are valid and publishable, and every step works |
| PublicationSafety.PolicyErrorExactly | daemon/user_rules.py:355-390 | exactly which failing steps end in a publication error: capturing the files, or else building the message or the browser policies with a complete rollback |
| PublicationSafety.CounterExactly | daemon/user_rules.py:73-84 | the counter moves by one iff the publication got to it and its file was replaced |
| PublicationSafety.PublishFails | daemon/user_rules.py:373-390 | failure keeps the process state; unless the rollback was incomplete all targets are as before |
| PublicationRuns.GenerationsNeverReused | daemon/user_rules.py:40-86 | over every run with failures and restarts no generation is issued with two snapshots and files hold only issued ones |
| PublicationRuns.SameGenerationSameRules | daemon/user_rules.py:355-396 | messages seen at any two points of a run with one generation carry the same rules |
| PublicationRuns.SuccessIsNewest | daemon/user_rules.py:73-84 | a success publishes a generation above everything issued before |
| PublicationRuns.PollsCatchUp | daemon/user_rules.py:504-514 | without concurrent rewrites, a fitting recorded signature means published additions or a version given up on, over every run |
| PublicationRuns.GivenUpOnlyAfterFailure | daemon/user_rules.py:504-514 | a version is given up on only after a poll of the run failed to publish it |
| PublicationRuns.SkippedPollsExplained | daemon/user_rules.py:504-514 | over every quiet run a skipped poll means the stored additions are published, or a poll failed on exactly this version |
| PublicationRuns.FailedPollIsRemembered | daemon/user_rules.py:509-512 | after a failed poll the same version of the user file is not tried again |
| PublicationRuns.PollPublishes | daemon/user_rules.py:504-514 | a poll of a changed file publishes it whenever the merged rules allow it and every step works |
| PublicationRuns.InstallationIsTraceable | daemon/user_rules.py:327-353 | a fresh installation satisfies the invariants of the run theorems |
| PublicationRuns.ConcurrentRewriteIsMissed | daemon/user_rules.py:391-396 | a rewrite during publication is recorded as published; the published additions are current iff nothing changed |
| AddingDomains.MergedGains | daemon/user_rules.py:481-488 | recording a domain adds it to exactly the chosen block's merged list |
| AddingDomains.AddedIsPublished | daemon/user_rules.py:457-502 | success stores the addition, publishes the merged rules in every target and answers with that message |
| AddingDomains.AddsExactly | daemon/user_rules.py:457-502 | an addition succeeds iff nothing speaks against the request, the user file can be locked, read and written, the new document is valid, the rules with it can be merged and made, and every step of publishing works |
| AddingDomains.AddedChangesOneList | daemon/user_rules.py:481-488 | of the published lists exactly the chosen block's gains exactly the domain |
| AddingDomains.AddedDomainListed | browser-extension/background/service-worker.js:521-524 | in the answered snapshot the block found by its id lists the domain |
| AddingDomains.RefusedExactly | daemon/user_rules.py:457-479 | a request is refused, without any change, iff the account is not restricted, no rules are active, id or domain is invalid, the user file cannot be used, the block is missing or allows, or it has the domain already |
| AddingDomains.FailureRestoresStore | daemon/user_rules.py:481-497 | the exact condition under which a failed addition leaves the stored additions as they were |
| AddingDomains.FailedAdditionStays | daemon/user_rules.py:481-484 | the other case happens: the account reads an error, the domain is recorded |
| AddingDomains.FailureKeepsPublished | daemon/user_rules.py:490-497 | with complete rollbacks, published rules are untouched or equal the merge with the restored additions |
| AddingDomains.TakenBackIsRepublished | daemon/user_rules.py:490-497 | once the addition is taken back, the restored rules are published under the next generation where every step works |
| RemovingDomains.RemoveTidy | daemon/user_rules.py:296-308 | removals keep lists sorted and drop empty lists and accounts |
| RemovingDomains.RemovalTakesOne | daemon/user_rules.py:296-308 | in every document a removal succeeds iff the domain is recorded there, takes one occurrence out of that list, and leaves every other recorded list |
| RemovingDomains.AdditionRecordsOne | daemon/user_rules.py:481-487 | an addition puts one domain into the list of that account and block and leaves every other recorded list |
| RemovingDomains.RemovalUndoesAddition | daemon/user_rules.py:296-308 | removing what was just added restores the stored document exactly |
| RemovingDomains.AdditionFits | daemon/user_rules.py:241-270 | one more domain keeps a valid user file valid iff the account is not root, has it not recorded for that block, has fewer than 2000 domains, and all accounts together fewer than 10000 |
| PublisherDaemon.EffectiveRulePublisher.NextGeneration | daemon/user_rules.py:40-86 | the counter is persisted before it is returned; a late failure wastes the number |
| PublisherDaemon.EffectiveRulePublisher.PublishPolicies | daemon/managed_policy.py:203-236 | the in-place sequence of captures, writes and restores equals the specified step |
| PublisherDaemon.EffectiveRulePublisher.WriteTargets | daemon/user_rules.py:369-390 | the `try` block and its nested rollback equal the specified step |
| PublisherDaemon.EffectiveRulePublisher.Record | daemon/user_rules.py:391-396 | the fields recorded after a success, and nothing after a failure |
| PublisherDaemon.EffectiveRulePublisher.Publish | daemon/user_rules.py:355-396 | the whole call equals the specified publication |
| PublisherDaemon.EffectiveRulePublisher.ReloadUserRulesIfChanged | daemon/user_rules.py:504-514 | the poll publishes on a changed signature and remembers a failed one |
| PublisherDaemon.EffectiveRulePublisher.AddDomain | daemon/user_rules.py:457-502 | the checks, the store write, publication, take-back and republication equal the specified steps |
| FailSafeOrdering.FailSafeNeverOpens | browser-extension/background/service-worker.js:167-178 | every state entered blocks at least what the one before blocked, whichever call fails; if none does, everything ends up blocked |
| FailSafeOrdering.InstallNeverOpens | browser-extension/background/service-worker.js:194-208 | with the packaged rule on beforehand, every state an installation enters blocks all the new policy blocks, whichever call fails; success means the new policy |
| FailSafeOrdering.InstallOpensExactly | browser-extension/background/service-worker.js:194-208 | with it off, an installation enters a state letting a request through iff it reaches the exchange, the default is block and no new rule applies |
| FailSafeOrdering.InstallOpensByDefault | browser-extension/background/service-worker.js:194-208 | the same in terms of the rule set: default block and no active block matching in what the emitted expressions reach |
| ServiceWorker.BackgroundWorker.ActivateFailSafe | browser-extension/background/service-worker.js:167-178 | the filter passes through exactly the specified states |
| ServiceWorker.BackgroundWorker.InstallRules | browser-extension/background/service-worker.js:194-208 | the filter passes through exactly the specified states, with the specified success |
| ServiceWorker.BackgroundWorker.ActivateManagedData | browser-extension/background/service-worker.js:210-267 | the checks and updates of one delivery, in their order, equal the specified step |
| ServiceWorker.BackgroundWorker.RecompileActiveSnapshot | browser-extension/background/service-worker.js:277-290 | the schedule tick recompiles the active snapshot or refreshes when there is none |
| ServiceWorker.BackgroundWorker.RunTask | browser-extension/background/service-worker.js:146-157 | one entry of the update queue with its error handling; `Deliveries` says what it achieves |
| WorkerSafety.GenerationsAdvance | browser-extension/background/service-worker.js:225-238 | over every run the active generation never decreases and a different active snapshot always has a larger one |
| WorkerSafety.FilterAlwaysExplained | browser-extension/background/service-worker.js:146-315 | between tasks the filter is the fail-safe, the active rules compiled at a task no earlier than the last alarm, or the one kept from before while nothing is active and no alarm came |
| WorkerSafety.AlarmRecompiles | browser-extension/background/service-worker.js:277-290 | an alarm with a snapshot active leaves it active and installs it as compiled for the new instant, or else blocks everything |
| WorkerSafety.ActiveRulesGovern | browser-extension/background/service-worker.js:253-260 | with a snapshot active, everything is blocked or the verdict at an instant since the last alarm holds, on plain hosts the documented one |
| WorkerSafety.SameRevisionAcknowledged | browser-extension/background/service-worker.js:239-252 | a delivery of the active revision leaves filter and active generation alone and, from the policy, sets the floor |
| WorkerSafety.NativeNeedsTrust | browser-extension/background/service-worker.js:211-224 | a live message changes something only if the trusted key signed its text and it is not below the floor |
| WorkerSafety.PolicyKeyTakenOver | browser-extension/background/service-worker.js:214-219 | exactly when a policy message replaces the trusted key |
| EndToEnd.NeverReusedRejection | browser-extension/background/service-worker.js:232-238 | daemon messages in any order, repeated or late, never meet the generation-reuse rejection |
| EndToEnd.NewestAdmitted | browser-extension/background/service-worker.js:219-238 | a message of the newest generation passes every generation check |
| EndToEnd.NewestBecomesActive | browser-extension/background/service-worker.js:210-267 | processing the newest message without an error leaves its rules active; only compiling or browser calls can fail |
| EndToEnd.PublishedIsNewest | daemon/user_rules.py:369-396 | a success puts the newest generation into the live file |
| EndToEnd.LiveMessageActivates | browser-extension/background/service-worker.js:210-267 | after a successful publication a worker that trusts the daemon's key accepts the live message and has the merged rules active, whatever came before |
| EndToEnd.PolicyAdmittedExactly | browser-extension/background/service-worker.js:225-238 | a worker that saw only issued snapshots admits a policy message iff nothing newer is active |
| EndToEnd.RestoredPolicyAdmittedExactly | daemon/user_rules.py:373-390 | after any rolled-back publication the earlier policy is back, and is admitted iff nothing newer is active |
| EndToEnd.RolledBackSightingIsRefused | daemon/user_rules.py:373-384 | a worker that activated the rolled-back message from a policy refuses the restored one, for every configuration and failure |
| EndToEnd.NextSuccessIsAdmitted | browser-extension/background/service-worker.js:225-238 | whatever happens in between, the next successful publication is admitted by every worker that saw only daemon messages |
| EndToEnd.RefusingWorkerRecovers | browser-extension/background/service-worker.js:225-238 | in particular by the worker that read the rolled-back message and refused the restored one |
| EndToEnd.SightingHappens | daemon/user_rules.py:371-390 | such sightings occur for every publishable rule set and configured browser |
| Deliveries.DeliveryExactly | browser-extension/background/service-worker.js:210-267 | a delivery is processed without an error iff it parses, has a good key or signature, is not older than what is active, and is known already or compiles and installs; new rules are then active and installed |
| Deliveries.TaskActivates | browser-extension/background/service-worker.js:146-157 | a refresh or live message with new acceptable and installable rules makes them active with their filter, whatever was active before |
| Deliveries.TaskAcknowledges | browser-extension/background/service-worker.js:240-256 | a delivery of the active rules leaves snapshot and filter as they are |
| Deliveries.TaskActivatesExactly | browser-extension/background/service-worker.js:268-315 | no other delivery changes the active snapshot |
| Deliveries.RefusedDeliveryKeepsFilter | browser-extension/background/service-worker.js:210-238 | with a snapshot active, a delivery that cannot be used leaves the filter alone |
| Deliveries.FallsBackToPolicy | browser-extension/background/service-worker.js:369-386 | with nothing active, a live snapshot that cannot be used is replaced by the stored policy |
| Deliveries.BlockedWithoutRules | browser-extension/background/service-worker.js:146-157 | with nothing active and nothing usable everything is blocked |
| Deliveries.RestartKeepsFilter | browser-extension/background/service-worker.js:24-29 | a restarted worker knows no snapshot, key or floor, and the browser keeps its filter |
| Deliveries.FloorExactly | browser-extension/background/service-worker.js:219-239 | the floor for live messages is the generation of the last policy message that passed the checks |
| Deliveries.SourceExactly | browser-extension/background/service-worker.js:240-260 | the recorded source is the one that made the rules active, or live once a live message confirmed them |
| Deliveries.PublicationReachesFilter | browser-extension/background/service-worker.js:146-267 | a worker that refreshes from the policy of a successful publication, among any daemon messages, takes over its key, and the live message of a successful publication then makes the merged rules active and installs them |
| Deliveries.LeftPolicyStaysGenuine | daemon/user_rules.py:362-396 | a policy left by a publication is one of the daemon messages of every later one |
| Deliveries.PublishedTextReads | daemon/user_rules.py:362-396 | a reader of JSON gets the next generation and the merged rules from the signed text in the live file and in the policies |
| RuleEdits.AddThenRemove | daemon/upcctl.py:460-486 | adding an entry and removing it again restores the rules, with that list sorted |
| RuleEdits.CreateThenDelete | daemon/upcctl.py:489-576 | creating a block and deleting it again restores the rules exactly |
| RuleEdits.OthersUntouched | daemon/upcctl.py:400-730 | a command leaves the sequence of all other blocks as it was, and everything outside the profile or blocks it is about |
| EditEffects.AddEntryEffect | daemon/upcctl.py:460-472 | the command runs iff the entry is new (and a valid domain); exactly that list of that block gains it and is sorted |
| EditEffects.RemoveEntryEffect | daemon/upcctl.py:475-486 | the command runs iff the entry is there; exactly that list of that block loses its first occurrence |
| EditEffects.RegexEffects | daemon/upcctl.py:612-637 | a new regex is appended, an old one taken out, and the second undoes the first |
| EditEffects.SetBlockEffect | daemon/upcctl.py:538-564 | each setting given is taken over, every other stays, the action decides the children's permission; refused iff nothing is given or another block has the name |
| EditEffects.ScheduleEffect | daemon/upcctl.py:647-735 | which schedule the block has after each schedule command, and when it is refused |
| EditEffects.ScheduleRefusals | daemon/upcctl.py:675-730 | without a schedule these commands are refused, as are positions other than 1 to n |
| EditEffects.AddThenRemoveWindow | daemon/upcctl.py:647-691 | taking out a window just added restores the rules |
| EditEffects.CreateBlockEffect | daemon/upcctl.py:489-535 | runs iff the domains are valid and id and name are new; appends a block with these settings and nothing else |
| EditEffects.DeleteBlockEffect | daemon/upcctl.py:567-576 | runs iff confirmed and the id is there; takes out the first block with the id |
| EditEffects.SetProfileEffect | daemon/upcctl.py:400-417 | what is given is taken over, the rest stays |
| Editing.RulesEditor.CreateHistorySnapshot | daemon/upcctl.py:148-172 | exclusive creation of a version file, with the clean-up on failure |
| Editing.RulesEditor.WriteRulesAtomic | daemon/upcctl.py:222-278 | validate, compare, archive, replace, with a failure possible at each |
| Editing.RulesEditor.Execute | daemon/admin_helper.py:40-61 | the locked commands, apply, compare-and-set apply with its publishability check, and rollback; `EditEffects` says exactly when each replaces the file |
| EditEffects.CommandReplacesExactly | daemon/upcctl.py:460-469 | a command replaces the file iff the file was readable, the command applies and its result gets written; the file then holds the changed rules |
| EditEffects.ApplyReplacesExactly | daemon/upcctl.py:222-278 | given rules replace the file iff they are valid and a readable predecessor differs and can be archived |
| EditEffects.CompareReplacesExactly | daemon/admin_helper.py:40-61 | in addition the rules must be publishable and the file must hold exactly the named base |
| EditEffects.RollbackReplacesExactly | daemon/upcctl.py:374-397 | a rollback replaces the file by an intact version iff confirmed and different |
| EditEffects.AddedDomainIsInFile | daemon/upcctl.py:460-472 | with every step working, after `add-domain` the file holds the rules with that domain in that list |
| EditingSafety.EditsAreSerial | daemon/upcctl.py:40-64 | under every interleaving the disk is the serial result in lock order plus the holder's own progress |
| EditingSafety.FinalFileIsTheFold | daemon/upcctl.py:40-64 | whenever the lock is free, file and history are the fold of the finished operations in lock order |
| EditingSafety.WaitingEditorFinishes | daemon/upcctl.py:40-64 | with the lock free, four steps of a waiting editor do its operation and free the lock again |
| EditingSafety.CompareAndSetExact | daemon/admin_helper.py:50-60 | a successful compare-and-set replaced exactly the version named by valid, publishable rules; another base is left alone |
| EditingSafety.ArchivedExactlyWhenReadable | daemon/upcctl.py:255-266 | replaced valid rules are archived and loadable exactly when the archive step could read them |
| EditingSafety.NothingValidIsLost | daemon/upcctl.py:190-206 | every valid rule set active at some point of a run is active at its end or loadable from history |
| EditingSafety.VersionsStayExactly | daemon/upcctl.py:148-172 | a loadable version stays loadable with the same rules unless a write archives under its very id, and then it is gone |
| EditingSafety.ClashRemovesVersion | daemon/upcctl.py:156-171 | in that case the write fails and the version's rules are still the active ones |
| EditingSafety.RollbackRestores | daemon/upcctl.py:373-397 | rollback makes exactly the archived version active and keeps the one it replaced |
| RuleStore.Daemon.Activate | daemon/daemon.py:169-193 | publish, write the last good copy, switch, in that order |
| RuleStore.Daemon.ReloadIfChanged | daemon/daemon.py:143-167 | one poll; it reports a reload only with the loaded rules active, and otherwise keeps the active rules |
| RuleStore.Daemon.Start | daemon/daemon.py:124-141 | start from the source or from the last good copy |
| RuleStore.AlwaysConsistent | daemon/daemon.py:102-193 | over every run after a start, active rules and last good copy are valid rules whose publication succeeded, the active ones last unless writing their copy failed |
| RuleStore.ActiveIsLastPublishedExactly | daemon/daemon.py:169-174 | the active rules are those published last iff that publication's last good copy was written or they were active already |
| RuleStore.FailingCopyDiverges | daemon/daemon.py:169-174 | otherwise the browsers have new rules, the old ones stay active and the poll is closed |
| RuleStore.SkippedOnlyWhenSettled | daemon/daemon.py:143-167 | a poll is skipped only if the current version itself was loaded, and it is active or was rejected for another reason than a publication error |
| RuleStore.FailedPollKeepsActive | daemon/daemon.py:149-167 | active rules change only by activation; a poll stays open exactly after a publication error |
| RuleStore.ActivationIsCopied | daemon/daemon.py:169-174 | after an activating poll the last good copy and the active rules are both the loaded ones |
| RuleStore.StartsExactly | daemon/daemon.py:124-141 | a start succeeds iff the source or else the last good copy is usable and publishing and copying work; those rules are then active and copied |
| RuleStore.RetriedExactly | daemon/daemon.py:149-167 | in terms of publication steps: exactly which failures leave the poll open |
| RuleStore.LiveFailureIsFinal | daemon/daemon.py:159-164 | with the policies written, a failing signature or live file closes the poll for good and keeps the active rules |
| Connections.ControlServer.TryAdmit | daemon/control_server.py:79-88 | admission below both limits, counted once |
| Connections.ControlServer.ReleaseConnection | daemon/control_server.py:109-116 | release, dropping an entry that reaches zero |
| Connections.AlwaysAccounted | daemon/control_server.py:64-116 | in every interleaving total, per-account counts, limits and exactly-once release hold |
| Connections.StepsExactly | daemon/control_server.py:79-116 | a connection is admitted iff fewer than 16 are open and fewer than 2 of its account; it closes when its thread fails to start or ends; no other is touched |
| Connections.EveryRunAccounted | daemon/control_server.py:64-116 | so every run from a server without connections is accounted for |
| Connections.AllClosedIsIdle | daemon/control_server.py:109-116 | when all connections have closed the counters are back at zero |
| DerSignature.EcdsaDerToRaw | daemon/user_rules.py:99-132 | on every byte string the loop fails or yields exactly 64 bytes, as specified |
| DerSignature.WellFormedDecodes | daemon/user_rules.py:99-132 | every signature with fitting length fields and numbers below 2^256 decodes to both numbers in 32 bytes |
| DerSignature.AcceptedIsWellFormed | daemon/user_rules.py:99-132 | whatever is accepted is such a signature |
| DerSignature.DerRoundTrip | daemon/user_rules.py:111-132 | the DER encoding of two numbers below 2^256 (RFC 3279, section 2.2.3) decodes to their 32-byte values, whose halves are the numbers |
| BlockIds.BlockIdFromName | browser-extension/options/options.js:245-263 | base or first free numbered candidate, as specified |
| BlockIds.BaseSpellsWords | browser-extension/options/options.js:246-254 | the base is the runs of letters and digits of the name joined by hyphens, behind `block-` where they do not start with a letter, cut to 64 characters without a hyphen at the end |
| BlockIds.CandidateSpells | browser-extension/options/options.js:258-260 | a candidate is as much of the base as leaves room, a hyphen and its number |
| BlockIds.IdIsFirstFree | browser-extension/options/options.js:255-262 | the id is the base where that is new, otherwise the candidate with the smallest number that is |
| BlockIds.GeneratedIdIsValidAndFresh | daemon/rule_validator.py:16 | a generated id matches the id grammar, has at most 64 characters and is new |
| BlockIds.RunsOutExactly | browser-extension/options/options.js:256-262 | the error is reached iff base and all candidates are taken |
| BlockIds.RunsOutOnlyWithManyIds | browser-extension/options/options.js:257-262 | the error needs 9998 different ids, or 9999 unless the base is its own candidate |
| BlockIds.RunsOutAtTheBound | browser-extension/options/options.js:257-262 | for every name that many ids suffice |
| BlockIds.SelfNumberedName | browser-extension/options/options.js:258-259 | the smaller bound does occur |
| BlockIds.CandidatesDiffer | browser-extension/options/options.js:257-261 | candidates with different numbers are different |
| BlockIds.BaseOfValidId | browser-extension/options/options.js:245-254 | a valid id is its own base |
| Validation.RuleValidator.ValidateMatchers | daemon/rule_validator.py:190-214 | issues are appended iff some list is too long, has a duplicate or an invalid entry |
| Validation.RuleValidator.ValidateSchedule | daemon/rule_validator.py:259-278 | issues are appended iff the schedule is invalid |
| Validation.RuleValidator.ValidateBlock | daemon/rule_validator.py:134-167 | issues are appended iff the block is invalid |
| Validation.RuleValidator.Validate | daemon/rule_validator.py:91-120 | the issue list is empty iff the rule set is valid, including unique block ids |

## Left out

- TimeWindows.WindowMeansWeekIntervals: starts from the local weekday and minute; `Intl` time zones are the clock.
- Compiler.CompilationPreservesMeaning: requires a plain host, because it is false on every other one (HostLimits.PlainHostsExactly); a URL carries no user information, and a redirect stores the block id without its percent encoding.
- EditingSafety.NothingValidIsLost: assumes that the archive step can read the active file, because otherwise it is false; the exact condition is EditingSafety.ArchivedExactlyWhenReadable.
- JsonAgreement.PrintersAgreeExactly: numbers with a fraction or an exponent in the document, which no valid rule set has.
- WorkerSafety.FilterAlwaysExplained: assumes that toggling the packaged rule and the fail-safe's calls work; FailSafeOrdering covers them failing.
- Deliveries.PublicationReachesFilter: assumes the wrapped text fits, the time zones are known and the browser's calls work.
- Validation.RuleValidator.Validate: missing or unknown fields and wrong JSON types are excluded by the datatypes; Punycode, time zones and `re.compile` are answers of the libraries.
- BlockIds.BlockIdFromName: lower-casing, decomposition and dropping of marks happen before the modelled text.
- RuleEdits.OthersUntouched: times outside HH:MM are excluded by the type of a window; the day list of `add-window` arrives as recurrence text.
- Publication.AddDomainSpec: the two reads of the user file before the lock is taken see one content.
- PublisherDaemon.EffectiveRulePublisher.NextGeneration: an unreadable counter file is one of the failures; concurrent takers are serialised by the file lock.
- Publishing from the command line without a counter file always uses generation 1; the runs modelled here always use the counter.
- User-written regexes: only an arbitrary predicate, no regex semantics.
- Sockets, native messaging, subprocesses, `openssl`, WebCrypto and polkit: replaced by parameters.
- File permissions, symbolic links and ownership: part of the failures a step may have.
- `status`, the read-only snapshots of the publisher and request dispatch: no state changes.
- User interface, tab reloading, context menus, installer scripts and `tools/test_protocol_web`: outside the filter's core.
