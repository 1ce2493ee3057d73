/** Publishing one snapshot to the browser policies and the live file, with a failure possible at every step. */
module Publication {
  import opened Basics
  import CanonicalJson
  import TextOrder
  import opened Rules
  import opened Validation
  import opened UserDomains
  import opened ManagedData

  // ---- Files, memory and failures ----

  /** An atomic replace: it may raise before the file changed, or after, when syncing the directory fails. */
  datatype Write = Succeeds | FailsBefore | FailsAfter

  function Written<T>(before: T, after: T, w: Write): T {
    if w.FailsBefore? then before else after
  }

  /** Firefox keeps this extension's entry among other policies; a missing document is an error. */
  datatype FirefoxPolicies = FirefoxPolicies(others: string, entry: Option<Managed>)

  /** `stored` is the file of user additions, `version` what `stat` says of it; every write gives a new one. */
  datatype Files = Files(
    chrome: Option<Managed>, firefox: Option<FirefoxPolicies>, live: Option<Managed>, counter: nat,
    stored: Option<UserState>, version: nat)

  /** What the daemon process keeps. A revision of the user file stands for the document itself. */
  datatype Memory = Memory(
    base: Option<RuleSet>, managed: Option<Managed>, userRules: Option<UserState>, baseRevision: Option<Revision>,
    serial: nat, signature: Option<nat>)

  /** `issued` records every snapshot ever built, `rejected` every version of the user file a poll gave up on. */
  datatype State = State(files: Files, memory: Memory, issued: set<Snapshot>, rejected: set<Option<nat>>)

  datatype Config = Config(
    chrome: bool, firefox: bool, publicKey: Option<string>, signingKey: string, restricted: set<nat>, lib: Libraries, hex: Hex)

  datatype Failure = PolicyError | OtherError | RollbackIncomplete

  datatype Outcome = Published | Failed(kind: Failure)

  /** One answer per step that can raise. `meanwhile` is another process rewriting the user file. */
  datatype Faults = Faults(
    load: bool, counter: Write, capture: Option<Failure>, captureAgain: Option<Failure>,
    chrome: Write, firefox: Write, chromeUndo: Write, firefoxUndo: Write, sign: bool, live: Write,
    chromeRestore: Write, firefoxRestore: Write, liveRestore: Write, meanwhile: Option<UserState>)

  const FRESH_MEMORY := Memory(None, None, None, None, 0, None)

  /** A missing file reads as no additions. */
  function Loaded(files: Files): UserState {
    match files.stored case None => UserState([]) case Some(users) => users
  }

  function StatSignature(files: Files): Option<nat> {
    if files.stored.None? then None else Some(files.version)
  }

  // ---- What a stored document must satisfy ----

  const MAX_DOMAINS_PER_USER := 2000
  const MAX_DOMAINS_TOTAL := 10000

  predicate UidText(s: string) {
    s != "" && (forall i :: 0 <= i < |s| ==> IsDigit(s[i])) && exists i :: 0 <= i < |s| && s[i] != '0'
  }

  function DomainTotal(blocks: seq<Addition>): nat {
    if blocks == [] then 0 else |blocks[0].domains| + DomainTotal(blocks[1..])
  }

  predicate ValidAddition(a: Addition, lib: Libraries) {
    BlockIdText(a.blockId) && Distinct(a.domains) && forall i :: 0 <= i < |a.domains| ==> ValidDomain(a.domains[i], lib)
  }

  predicate ValidEntry(u: UserEntry, lib: Libraries) {
    && UidText(u.uid) && (forall i :: 0 <= i < |u.blocks| ==> ValidAddition(u.blocks[i], lib))
    && DomainTotal(u.blocks) <= MAX_DOMAINS_PER_USER
  }

  predicate ValidUsers(s: UserState, lib: Libraries) {
    && (forall i :: 0 <= i < |s.users| ==> ValidEntry(s.users[i], lib))
    && DomainTotal(Additions(s.users)) <= MAX_DOMAINS_TOTAL
  }

  // ---- One publication, step by step ----

  function PutChrome(c: Config, files: Files, m: Managed, w: Write): Files {
    if c.chrome then files.(chrome := Written(files.chrome, Some(m), w)) else files
  }

  /** Firefox's document is read first; the other policies in it stay as they are. */
  function PutFirefox(c: Config, files: Files, m: Managed, w: Write): Files {
    if c.firefox && files.firefox.Some? then
      files.(firefox := Written(files.firefox, Some(files.firefox.value.(entry := Some(m))), w))
    else files
  }

  predicate FirefoxFails(c: Config, files: Files, w: Write) {
    c.firefox && (files.firefox.None? || !w.Succeeds?)
  }

  function RestoreChrome(c: Config, files: Files, captured: Files, w: Write): Files {
    if c.chrome then files.(chrome := Written(files.chrome, captured.chrome, w)) else files
  }

  function RestoreFirefox(c: Config, files: Files, captured: Files, w: Write): Files {
    if c.firefox then files.(firefox := Written(files.firefox, captured.firefox, w)) else files
  }

  function RestoreLive(files: Files, captured: Files, w: Write): Files {
    files.(live := Written(files.live, captured.live, w))
  }

  predicate ChromeFails(c: Config, w: Write) { c.chrome && !w.Succeeds? }

  /** The policies as a browser can read them before any restore: Chrome's, then, unless that failed, Firefox's. */
  function PoliciesWritten(c: Config, files: Files, m: Managed, f: Faults): Files {
    var one := PutChrome(c, files, m, f.chrome);
    if ChromeFails(c, f.chrome) then one else PutFirefox(c, one, m, f.firefox)
  }

  /** The browser policies; any failure restores both in reverse. */
  function PoliciesSpec(c: Config, files: Files, made: Result<Managed, PublishError>, f: Faults): (Files, Result<Managed, Failure>) {
    match made
    case Err(_) => (files, Err(PolicyError))
    case Ok(m) =>
      if f.captureAgain.Some? then (files, Err(f.captureAgain.value))
      else
        var written := PoliciesWritten(c, files, m, f);
        if ChromeFails(c, f.chrome) || FirefoxFails(c, files, f.firefox) then
          (RestoreChrome(c, RestoreFirefox(c, written, files, f.firefoxUndo), files, f.chromeUndo), Err(PolicyError))
        else (written, Ok(m))
  }

  function RollbackFiles(c: Config, files: Files, captured: Files, f: Faults): Files {
    RestoreLive(RestoreChrome(c, RestoreFirefox(c, files, captured, f.firefoxRestore), captured, f.chromeRestore), captured, f.liveRestore)
  }

  predicate RollbackWorks(c: Config, f: Faults) {
    (c.firefox ==> f.firefoxRestore.Succeeds?) && (c.chrome ==> f.chromeRestore.Succeeds?) && f.liveRestore.Succeeds?
  }

  function RolledBack(c: Config, files: Files, captured: Files, f: Faults, kind: Failure): (Files, Outcome) {
    (RollbackFiles(c, files, captured, f), Failed(if RollbackWorks(c, f) then kind else RollbackIncomplete))
  }

  function SignedManaged(c: Config, m: Managed): Managed {
    m.(signature := Some(Signed(c.signingKey, m.text)))
  }

  /** Policies, signature and live file, all inside one `try`. */
  function TargetsSpec(c: Config, files: Files, made: Result<Managed, PublishError>, f: Faults): (Files, Outcome) {
    var (policies, r) := PoliciesSpec(c, files, made, f);
    match r
    case Err(kind) => RolledBack(c, policies, files, f, kind)
    case Ok(m) =>
      if f.sign then RolledBack(c, policies, files, f, OtherError)
      else
        var all := policies.(live := Written(policies.live, Some(SignedManaged(c, m)), f.live));
        if f.live.Succeeds? then (all, Published) else RolledBack(c, all, files, f, OtherError)
  }

  function Rewritten(files: Files, users: UserState): Files {
    files.(stored := Some(users), version := files.version + 1)
  }

  function Interrupted(files: Files, meanwhile: Option<UserState>): Files {
    if meanwhile.Some? then Rewritten(files, meanwhile.value) else files
  }

  /** What the rules and the stored additions make under the next generation. */
  function Made(c: Config, s: State, base: RuleSet): Result<Managed, PublishError> {
    MakeManagedSpec(Merge(base, Loaded(s.files)), s.files.counter + 1, c.publicKey, c.hex)
  }

  predicate Mergeable(c: Config, s: State, base: RuleSet) {
    ValidUsers(Loaded(s.files), c.lib) && ValidRules(Merge(base, Loaded(s.files)), c.lib)
  }

  function Built(made: Result<Managed, PublishError>): set<Snapshot> {
    if made.Ok? && made.value.content.Some? then {made.value.content.value} else {}
  }

  /** After the targets: nothing more on failure, otherwise the process's own records. */
  function FinishSpec(c: Config, s: State, base: RuleSet, revision: Revision, made: Result<Managed, PublishError>, targets: Files,
                      outcome: Outcome, meanwhile: Option<UserState>): (State, Outcome) {
    var files := Interrupted(targets, meanwhile);
    var next := s.(files := files, issued := s.issued + Built(made));
    if outcome.Failed? || made.Err? then (next, outcome)
    else
      (next.(memory := Memory(Some(base), Some(SignedManaged(c, made.value)), Some(Loaded(s.files)), Some(revision),
                              s.memory.serial + 1, StatSignature(files))), Published)
  }

  /** Taking the next generation, then writing the targets. */
  function AttemptSpec(c: Config, s: State, base: RuleSet, revision: Revision, made: Result<Managed, PublishError>, f: Faults)
    : (State, Outcome)
  {
    var counted := s.files.(counter := Written(s.files.counter, s.files.counter + 1, f.counter));
    if !f.counter.Succeeds? then (s.(files := counted), Failed(OtherError))
    else if f.capture.Some? then (s.(files := counted), Failed(f.capture.value))
    else
      var (targets, outcome) := TargetsSpec(c, counted, made, f);
      FinishSpec(c, s, base, revision, made, targets, outcome, f.meanwhile)
  }

  function PublishSpec(c: Config, s: State, base: RuleSet, f: Faults): (State, Outcome) {
    if f.load || !Mergeable(c, s, base) then (s, Failed(OtherError))
    else AttemptSpec(c, s, base, RevisionOf(base), Made(c, s, base), f)
  }

  /** The daemon's poll of the user file. */
  function PollSpec(c: Config, s: State, f: Faults): (State, Outcome) {
    var seen := StatSignature(s.files);
    if seen == s.memory.signature || s.memory.base.None? then (s, Published)
    else
      var (next, outcome) := PublishSpec(c, s, s.memory.base.value, f);
      if outcome.Published? then (next, outcome)
      else (next.(memory := next.memory.(signature := seen), rejected := next.rejected + {seen}), outcome)
  }

  // ---- Adding a domain ----

  /** The steps of `add_domain` that can raise; no other process writes the user file meanwhile, it is locked. */
  datatype AddFaults = AddFaults(loadFirst: bool, lock: bool, load: bool, write: Write, publish: Faults, undo: Write, republish: Faults)

  datatype AddOutcome = Added(managed: Option<Managed>) | Refused | StoreFailed | PublishFailed

  function AddToList(blocks: seq<Addition>, blockId: string, domain: string): seq<Addition> {
    if blocks == [] then [Addition(blockId, [domain])]
    else if blocks[0].blockId == blockId then
      [Addition(blockId, TextOrder.Sort(blocks[0].domains + [domain]))] + blocks[1..]
    else [blocks[0]] + AddToList(blocks[1..], blockId, domain)
  }

  function AddToUsers(users: seq<UserEntry>, uid: string, blockId: string, domain: string): seq<UserEntry> {
    if users == [] then [UserEntry(uid, [Addition(blockId, [domain])])]
    else if users[0].uid == uid then [UserEntry(uid, AddToList(users[0].blocks, blockId, domain))] + users[1..]
    else [users[0]] + AddToUsers(users[1..], uid, blockId, domain)
  }

  function WithAddition(s: UserState, uid: nat, blockId: string, domain: string): UserState {
    UserState(AddToUsers(s.users, CanonicalJson.NatText(uid), blockId, domain))
  }

  /** Whether the request passes every check made before anything is written. */
  predicate AddAllowed(c: Config, s: State, uid: nat, blockId: string, domain: string, f: AddFaults) {
    && uid in c.restricted && s.memory.base.Some? && BlockIdText(blockId) && ValidDomain(domain, c.lib)
    && !f.loadFirst && ValidUsers(Loaded(s.files), c.lib)
    && var base := s.memory.base.value;
       var i := FindBlock(base.blocks, blockId);
       && i.Some? && i.value < |base.blocks| && base.blocks[i.value].action == Block
       && var now := Merge(base, Loaded(s.files)).blocks;
          i.value < |now| && domain !in now[i.value].targets.domains
  }

  function StoreWritten(files: Files, users: UserState, w: Write): Files {
    Written(files, Rewritten(files, users), w)
  }

  function Alone(f: Faults): Faults { f.(meanwhile := None) }

  function AddDomainSpec(c: Config, s: State, uid: nat, blockId: string, domain: string, f: AddFaults): (State, AddOutcome) {
    if !AddAllowed(c, s, uid, blockId, domain, f) then (s, Refused)
    else if f.lock || f.load then (s, StoreFailed)
    else
      var base := s.memory.base.value;
      var previous := Loaded(s.files);
      var updated := WithAddition(previous, uid, blockId, domain);
      if !ValidUsers(updated, c.lib) then (s, StoreFailed)
      else
        var one := s.(files := StoreWritten(s.files, updated, f.write));
        if !f.write.Succeeds? then (one, StoreFailed)
        else
          var (two, outcome) := PublishSpec(c, one, base, Alone(f.publish));
          if outcome.Published? then (two, Added(two.memory.managed))
          else
            var three := two.(files := StoreWritten(two.files, previous, f.undo));
            if !f.undo.Succeeds? then (three, PublishFailed)
            else (PublishSpec(c, three, base, Alone(f.republish)).0, PublishFailed)
  }
}
