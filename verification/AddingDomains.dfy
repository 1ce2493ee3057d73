/** `add_domain`: what a success publishes and what a failure leaves behind. */
module AddingDomains {
  import opened Basics
  import TextOrder
  import CanonicalJson
  import opened Rules
  import opened Validation
  import opened UserDomains
  import opened ManagedData
  import opened Publication
  import opened PublicationSafety

  // ---- What recording one addition changes ----

  function Extra(id: string, blockId: string, domain: string): set<string> {
    if id == blockId then {domain} else {}
  }

  lemma AddedToCons(a: Addition, rest: seq<Addition>, id: string)
    ensures AddedTo([a] + rest, id) == (if a.blockId == id then SetOf(a.domains) else {}) + AddedTo(rest, id)
  {
    var all := [a] + rest;
    assert all[1..] == rest;
    AddedCons(all, id);
  }

  lemma {:induction false} AddedToAppend(a: seq<Addition>, b: seq<Addition>, id: string)
    ensures AddedTo(a + b, id) == AddedTo(a, id) + AddedTo(b, id)
  {
    if a == [] {
      assert a + b == b;
      assert AddedTo(a, id) == {};
    } else {
      AddedToAppend(a[1..], b, id);
      assert a + b == [a[0]] + (a[1..] + b) && a == [a[0]] + a[1..];
      AddedToCons(a[0], a[1..] + b, id);
      AddedToCons(a[0], a[1..], id);
    }
  }

  lemma SortedMembers(s: seq<string>)
    ensures SetOf(TextOrder.Sort(s)) == SetOf(s)
  {
    TextOrder.SameMultisetSameMembers(TextOrder.Sort(s), s);
  }

  lemma SingleGain(blockId: string, domain: string, id: string)
    ensures AddedTo([Addition(blockId, [domain])], id) == AddedTo([], id) + Extra(id, blockId, domain)
  {
    AddedToCons(Addition(blockId, [domain]), [], id);
    assert SetOf([domain]) == {domain} && AddedTo([], id) == {};
    assert [Addition(blockId, [domain])] + [] == [Addition(blockId, [domain])];
  }

  lemma HeadGains(a: Addition, rest: seq<Addition>, domain: string, id: string)
    ensures AddedTo([Addition(a.blockId, TextOrder.Sort(a.domains + [domain]))] + rest, id) ==
            AddedTo([a] + rest, id) + Extra(id, a.blockId, domain)
  {
    var more := TextOrder.Sort(a.domains + [domain]);
    SortedMembers(a.domains + [domain]);
    AddedToCons(Addition(a.blockId, more), rest, id);
    AddedToCons(a, rest, id);
    assert SetOf(a.domains + [domain]) == SetOf(a.domains) + {domain};
  }

  lemma {:induction false} ListGains(blocks: seq<Addition>, blockId: string, domain: string, id: string)
    ensures AddedTo(AddToList(blocks, blockId, domain), id) == AddedTo(blocks, id) + Extra(id, blockId, domain)
  {
    if blocks == [] {
      SingleGain(blockId, domain, id);
    } else {
      assert blocks == [blocks[0]] + blocks[1..];
      if blocks[0].blockId == blockId {
        HeadGains(blocks[0], blocks[1..], domain, id);
      } else {
        ListGains(blocks[1..], blockId, domain, id);
        AddedToCons(blocks[0], blocks[1..], id);
        AddedToCons(blocks[0], AddToList(blocks[1..], blockId, domain), id);
      }
    }
  }

  lemma AdditionsCons(u: UserEntry, rest: seq<UserEntry>)
    ensures Additions([u] + rest) == u.blocks + Additions(rest)
  {
    assert ([u] + rest)[1..] == rest;
  }

  /** Recording a domain for a block adds it to that block's additions and to no other's. */
  lemma {:induction false} UsersGain(users: seq<UserEntry>, uid: string, blockId: string, domain: string, id: string)
    ensures AddedTo(Additions(AddToUsers(users, uid, blockId, domain)), id) ==
            AddedTo(Additions(users), id) + Extra(id, blockId, domain)
  {
    if users == [] {
      var entry := UserEntry(uid, [Addition(blockId, [domain])]);
      AdditionsCons(entry, []);
      assert [entry] + [] == [entry] && entry.blocks + [] == entry.blocks;
      ListGains([], blockId, domain, id);
    } else {
      assert users == [users[0]] + users[1..];
      AdditionsCons(users[0], users[1..]);
      AddedToAppend(users[0].blocks, Additions(users[1..]), id);
      if users[0].uid == uid {
        var more := AddToList(users[0].blocks, blockId, domain);
        AdditionsCons(UserEntry(uid, more), users[1..]);
        AddedToAppend(more, Additions(users[1..]), id);
        ListGains(users[0].blocks, blockId, domain, id);
      } else {
        var rest := AddToUsers(users[1..], uid, blockId, domain);
        AdditionsCons(users[0], rest);
        AddedToAppend(users[0].blocks, Additions(rest), id);
        UsersGain(users[1..], uid, blockId, domain, id);
      }
    }
  }

  // ---- What the merged rules gain ----

  lemma FirstIndexIsLast(blocks: seq<RuleBlock>, id: string)
    requires UniqueBlockIds(blocks) && FindBlock(blocks, id).Some?
    ensures var i := FindBlock(blocks, id).value;
            i < |blocks| && blocks[i].id == id && LastIndex(blocks, id) == Some(i)
  {
    LastIndexIsLast(blocks, id);
  }

  lemma MergedIdsUnique(base: RuleSet, s: UserState)
    requires UniqueBlockIds(Merge(base, s).blocks)
    ensures UniqueBlockIds(base.blocks)
  {
    MergeTightensBlocks(base, s);
    var now := Merge(base, s).blocks;
    forall i, j | 0 <= i < j < |base.blocks| ensures base.blocks[i].id != base.blocks[j].id {
      assert Tightened(base.blocks[i], now[i]) && Tightened(base.blocks[j], now[j]);
      assert now[i].id != now[j].id;
    }
  }

  /** Which entries reach block `i`, before and after the addition. */
  lemma ReceivedGains(blocks: seq<RuleBlock>, a: seq<Addition>, b: seq<Addition>, blockId: string, domain: string, i: nat, d: string)
    requires UniqueBlockIds(blocks) && i < |blocks| && FindBlock(blocks, blockId).Some?
    requires FindBlock(blocks, blockId).value < |blocks| && blocks[FindBlock(blocks, blockId).value].action == Block
    requires AddedTo(b, blocks[i].id) == AddedTo(a, blocks[i].id) + Extra(blocks[i].id, blockId, domain)
    ensures Receives(blocks, i, b) && d in AddedTo(b, blocks[i].id) <==>
            (Receives(blocks, i, a) && d in AddedTo(a, blocks[i].id))
            || (i == FindBlock(blocks, blockId).value && d == domain)
  {
    FirstIndexIsLast(blocks, blockId);
    var id := blocks[i].id;
    if d in AddedTo(a, id) { TouchedIfAdded(a, id, d); }
    if d in AddedTo(b, id) { TouchedIfAdded(b, id, d); }
    assert id == blockId ==> i == FindBlock(blocks, blockId).value;
  }

  /** In the merged rules exactly the chosen block's domain list gains exactly the new domain. */
  lemma MergedGains(base: RuleSet, s: UserState, uid: nat, blockId: string, domain: string, i: nat, d: string)
    requires UniqueBlockIds(base.blocks) && i < |base.blocks| && FindBlock(base.blocks, blockId).Some?
    requires FindBlock(base.blocks, blockId).value < |base.blocks|
    requires base.blocks[FindBlock(base.blocks, blockId).value].action == Block
    ensures var before, after := Merge(base, s).blocks, Merge(base, WithAddition(s, uid, blockId, domain)).blocks;
            && |before| == |after| == |base.blocks|
            && (d in after[i].targets.domains <==>
                d in before[i].targets.domains || (i == FindBlock(base.blocks, blockId).value && d == domain))
  {
    var t := WithAddition(s, uid, blockId, domain);
    var id := base.blocks[i].id;
    UsersGain(s.users, CanonicalJson.NatText(uid), blockId, domain, id);
    ReceivedGains(base.blocks, Additions(s.users), Additions(t.users), blockId, domain, i, d);
    MergedDomainsExactly(base, s, i, d);
    MergedDomainsExactly(base, t, i, d);
  }

  lemma TouchedIfAdded(additions: seq<Addition>, id: string, d: string)
    requires d in AddedTo(additions, id)
    ensures Touched(additions, id)
  {
  }

  // ---- A success ----

  /** The state in which the new document has been stored and nothing published yet. */
  function Stored(s: State, users: UserState): State {
    s.(files := Rewritten(s.files, users))
  }

  lemma AddedSteps(c: Config, s: State, uid: nat, blockId: string, domain: string, f: AddFaults, updated: UserState)
    requires AddDomainSpec(c, s, uid, blockId, domain, f).1.Added?
    requires updated == WithAddition(Loaded(s.files), uid, blockId, domain)
    ensures AddAllowed(c, s, uid, blockId, domain, f) && ValidUsers(updated, c.lib)
    ensures var base := s.memory.base.value;
            var (two, outcome) := PublishSpec(c, Stored(s, updated), base, Alone(f.publish));
            && outcome.Published? && AddDomainSpec(c, s, uid, blockId, domain, f).0 == two
            && AddDomainSpec(c, s, uid, blockId, domain, f).1 == Added(two.memory.managed)
  {
  }

  /**
   * A successful addition is stored, and every target then holds a new snapshot of the base rules merged with the
   * new document; that snapshot is also the answer.
   */
  lemma AddedIsPublished(c: Config, s: State, uid: nat, blockId: string, domain: string, f: AddFaults,
                         updated: UserState, effective: RuleSet, generation: nat)
    requires AddDomainSpec(c, s, uid, blockId, domain, f).1.Added?
    requires updated == WithAddition(Loaded(s.files), uid, blockId, domain)
    requires s.memory.base.Some? && effective == Merge(s.memory.base.value, updated) && generation == s.files.counter + 1
    ensures var (after, outcome) := AddDomainSpec(c, s, uid, blockId, domain, f);
            var m := Wrapped(effective, generation, c.publicKey, c.hex);
            && Loaded(after.files) == updated
            && SuccessContract(c, Stored(s, updated), s.memory.base.value, m, after)
            && outcome.managed == Some(SignedManaged(c, m))
  {
    AddedSteps(c, s, uid, blockId, domain, f, updated);
    var base, one := s.memory.base.value, Stored(s, updated);
    PublishSucceeds(c, one, base, Alone(f.publish), effective, generation);
    PublishHolds(c, one, base, Alone(f.publish));
  }

  /** Which merged lists the addition changes: the chosen block's gains the domain, no other changes. */
  lemma AddedChangesOneList(c: Config, s: State, uid: nat, blockId: string, domain: string, f: AddFaults,
                            updated: UserState, i: nat, d: string)
    requires AddDomainSpec(c, s, uid, blockId, domain, f).1.Added?
    requires updated == WithAddition(Loaded(s.files), uid, blockId, domain)
    requires s.memory.base.Some? && i < |s.memory.base.value.blocks|
    ensures var base := s.memory.base.value;
            var before, after := Merge(base, Loaded(s.files)).blocks, Merge(base, updated).blocks;
            && |before| == |after| == |base.blocks| && FindBlock(base.blocks, blockId).Some?
            && (d in after[i].targets.domains <==>
                d in before[i].targets.domains || (i == FindBlock(base.blocks, blockId).value && d == domain))
  {
    AddedSteps(c, s, uid, blockId, domain, f, updated);
    var base := s.memory.base.value;
    PublishHolds(c, Stored(s, updated), base, Alone(f.publish));
    MergedIdsUnique(base, updated);
    MergedGains(base, Loaded(s.files), uid, blockId, domain, i, d);
  }

  /** The block the extension finds by id in a snapshot lists the domain. */
  predicate ListedIn(content: Option<Snapshot>, blockId: string, domain: string) {
    && content.Some?
    && var blocks := content.value.rules.blocks;
       var i := FindBlock(blocks, blockId);
       i.Some? && domain in blocks[i.value].targets.domains
  }

  lemma MergedSameIds(base: RuleSet, s: UserState, id: string)
    ensures FindBlock(Merge(base, s).blocks, id) == FindBlock(base.blocks, id)
  {
    MergeTightensBlocks(base, s);
    var now := Merge(base, s).blocks;
    forall i | 0 <= i < |base.blocks| ensures base.blocks[i].id == now[i].id {
      assert Tightened(base.blocks[i], now[i]);
    }
    SameIdSameIndex(now, base.blocks, id);
  }

  lemma WrappedContent(rules: RuleSet, generation: int, publicKey: Option<string>, hex: Hex)
    ensures Wrapped(rules, generation, publicKey, hex).content == Some(SnapshotOf(rules, generation))
  {
  }

  lemma SnapshotBlocks(rules: RuleSet, generation: int)
    ensures SnapshotOf(rules, generation).rules.blocks == rules.blocks
  {
  }

  /** The answer to a successful addition carries a snapshot in which the block found by its id lists the domain. */
  lemma AddedDomainListed(c: Config, s: State, uid: nat, blockId: string, domain: string, f: AddFaults,
                          updated: UserState, effective: RuleSet, generation: nat)
    requires AddDomainSpec(c, s, uid, blockId, domain, f).1.Added?
    requires updated == WithAddition(Loaded(s.files), uid, blockId, domain)
    requires s.memory.base.Some? && effective == Merge(s.memory.base.value, updated) && generation == s.files.counter + 1
    ensures var answer := AddDomainSpec(c, s, uid, blockId, domain, f).1.managed;
            answer.Some? && ListedIn(answer.value.content, blockId, domain)
  {
    hide AddDomainSpec, Merge, WithAddition, Wrapped, SnapshotOf, RevisionOf;
    var base := s.memory.base.value;
    AddedIsPublished(c, s, uid, blockId, domain, f, updated, effective, generation);
    WrappedContent(effective, generation, c.publicKey, c.hex);
    SnapshotBlocks(effective, generation);
    MergedSameIds(base, updated, blockId);
    AddedSteps(c, s, uid, blockId, domain, f, updated);
    var i := FindBlock(base.blocks, blockId).value;
    AddedChangesOneList(c, s, uid, blockId, domain, f, updated, i, domain);
  }

  // ---- A failure ----

  lemma {:induction false} TotalAppend(a: seq<Addition>, b: seq<Addition>)
    ensures DomainTotal(a + b) == DomainTotal(a) + DomainTotal(b)
  {
    if a == [] {
      assert a + b == b;
    } else {
      TotalAppend(a[1..], b);
      assert (a + b)[1..] == a[1..] + b;
    }
  }

  lemma {:induction false} ListGrows(blocks: seq<Addition>, blockId: string, domain: string)
    ensures DomainTotal(AddToList(blocks, blockId, domain)) == DomainTotal(blocks) + 1
  {
    if blocks == [] {
      assert [Addition(blockId, [domain])][1..] == [];
    } else if blocks[0].blockId == blockId {
      var more := blocks[0].domains + [domain];
      TextOrder.SameMultisetSameMembers(TextOrder.Sort(more), more);
      assert AddToList(blocks, blockId, domain)[1..] == blocks[1..];
    } else {
      ListGrows(blocks[1..], blockId, domain);
      assert AddToList(blocks, blockId, domain)[1..] == AddToList(blocks[1..], blockId, domain);
    }
  }

  lemma {:induction false} UsersGrow(users: seq<UserEntry>, uid: string, blockId: string, domain: string)
    ensures DomainTotal(Additions(AddToUsers(users, uid, blockId, domain))) == DomainTotal(Additions(users)) + 1
  {
    if users == [] {
      var entry := UserEntry(uid, [Addition(blockId, [domain])]);
      AdditionsCons(entry, []);
      assert [entry] + [] == [entry] && entry.blocks + [] == entry.blocks;
      ListGrows([], blockId, domain);
    } else {
      assert users == [users[0]] + users[1..];
      AdditionsCons(users[0], users[1..]);
      TotalAppend(users[0].blocks, Additions(users[1..]));
      if users[0].uid == uid {
        var more := AddToList(users[0].blocks, blockId, domain);
        AdditionsCons(UserEntry(uid, more), users[1..]);
        TotalAppend(more, Additions(users[1..]));
        ListGrows(users[0].blocks, blockId, domain);
      } else {
        var rest := AddToUsers(users[1..], uid, blockId, domain);
        AdditionsCons(users[0], rest);
        TotalAppend(users[0].blocks, Additions(rest));
        UsersGrow(users[1..], uid, blockId, domain);
      }
    }
  }

  /** The request gets as far as writing the new document. */
  predicate ReachesStore(c: Config, s: State, uid: nat, blockId: string, domain: string, f: AddFaults) {
    && AddAllowed(c, s, uid, blockId, domain, f) && !f.lock && !f.load
    && ValidUsers(WithAddition(Loaded(s.files), uid, blockId, domain), c.lib)
  }

  lemma FailedSteps(c: Config, s: State, uid: nat, blockId: string, domain: string, f: AddFaults, updated: UserState)
    requires !AddDomainSpec(c, s, uid, blockId, domain, f).1.Added?
    requires updated == WithAddition(Loaded(s.files), uid, blockId, domain)
    ensures var (after, outcome) := AddDomainSpec(c, s, uid, blockId, domain, f);
            && (outcome.PublishFailed? <==> ReachesStore(c, s, uid, blockId, domain, f) && f.write.Succeeds?)
            && (!ReachesStore(c, s, uid, blockId, domain, f) ==> after == s)
            && (ReachesStore(c, s, uid, blockId, domain, f) && !f.write.Succeeds? ==>
                  after == s.(files := StoreWritten(s.files, updated, f.write)))
  {
  }

  lemma PublishFailedSteps(c: Config, s: State, uid: nat, blockId: string, domain: string, f: AddFaults, updated: UserState)
    requires AddDomainSpec(c, s, uid, blockId, domain, f).1.PublishFailed?
    requires updated == WithAddition(Loaded(s.files), uid, blockId, domain)
    ensures s.memory.base.Some?
    ensures var base := s.memory.base.value;
            var (two, outcome) := PublishSpec(c, Stored(s, updated), base, Alone(f.publish));
            var three := two.(files := StoreWritten(two.files, Loaded(s.files), f.undo));
            && !outcome.Published?
            && AddDomainSpec(c, s, uid, blockId, domain, f).0 ==
               (if f.undo.Succeeds? then PublishSpec(c, three, base, Alone(f.republish)).0 else three)
  {
    hide PublishSpec;
  }

  lemma PublishKeepsStore(c: Config, s: State, base: RuleSet, f: Faults)
    requires Quiet(f)
    ensures SameStore(PublishSpec(c, s, base, f).0.files, s.files)
  {
    AttemptMeans(c, s, base, RevisionOf(base), Made(c, s, base), f);
  }

  /**
   * After a failed addition the stored additions are the earlier ones, except exactly when the first write raised
   * after it had replaced the file, or the write that takes it back raised before it did.
   */
  lemma FailureRestoresStore(c: Config, s: State, uid: nat, blockId: string, domain: string, f: AddFaults)
    requires !AddDomainSpec(c, s, uid, blockId, domain, f).1.Added?
    ensures var after := AddDomainSpec(c, s, uid, blockId, domain, f).0;
            Loaded(after.files) == Loaded(s.files) <==>
              !(ReachesStore(c, s, uid, blockId, domain, f) &&
                (f.write.FailsAfter? || (f.write.Succeeds? && f.undo.FailsBefore?)))
  {
    var updated := WithAddition(Loaded(s.files), uid, blockId, domain);
    UsersGrow(Loaded(s.files).users, CanonicalJson.NatText(uid), blockId, domain);
    FailedSteps(c, s, uid, blockId, domain, f, updated);
    if AddDomainSpec(c, s, uid, blockId, domain, f).1.PublishFailed? {
      PublishFailedSteps(c, s, uid, blockId, domain, f, updated);
      var base := s.memory.base.value;
      PublishKeepsStore(c, Stored(s, updated), base, Alone(f.publish));
      var two := PublishSpec(c, Stored(s, updated), base, Alone(f.publish)).0;
      var three := two.(files := StoreWritten(two.files, Loaded(s.files), f.undo));
      PublishKeepsStore(c, three, base, Alone(f.republish));
    }
  }

  /** One blocking block without targets. */
  const EMPTY_BLOCK := RuleBlock("a", "a", true, 0, Block, Permissions(true, false, false, false, false, false, false),
                                 Matchers([], [], []), Matchers([], [], []), None)

  const EMPTY_RULES := RuleSet(None, FORMAT_VERSION, Profile("UTC", Allow, CONFLICT_POLICY), [EMPTY_BLOCK])

  const ONE_ADDITION := UserState([UserEntry("1000", [Addition("a", ["b.cd"])])])

  lemma ExampleChecks(lib: Libraries)
    ensures BlockIdText("a") && ValidDomain("b.cd", lib)
  {
    SplitOfClean("a", '-');
    SplitOfCons("b", "cd", '.');
    SplitOfClean("cd", '.');
    assert "b" + ['.'] + "cd" == "b.cd";
  }

  lemma ExampleRecorded(lib: Libraries)
    ensures WithAddition(UserState([]), 1000, "a", "b.cd") == ONE_ADDITION && ValidUsers(ONE_ADDITION, lib)
  {
    hide BlockIdText, ValidDomain;
    ExampleChecks(lib);
    assert CanonicalJson.NatText(1000) == "1000" && "1000"[0] == '1';
    var u := ONE_ADDITION.users[0];
    assert DomainTotal(u.blocks[1..]) == 0 && DomainTotal(u.blocks) == 1;
    assert ValidAddition(u.blocks[0], lib) && ValidEntry(u, lib);
    assert Additions(ONE_ADDITION.users[1..]) == [] && Additions(ONE_ADDITION.users) == u.blocks;
  }

  /** The domain stays recorded although the request is answered with an error: only the first write's sync failed. */
  lemma FailedAdditionStays(c: Config, s: State, f: AddFaults)
    requires 1000 in c.restricted && s.files.stored.None? && s.memory.base == Some(EMPTY_RULES)
    requires !f.loadFirst && !f.lock && !f.load && f.write.FailsAfter?
    ensures var (after, outcome) := AddDomainSpec(c, s, 1000, "a", "b.cd", f);
            && outcome == StoreFailed && Loaded(s.files) == UserState([])
            && Loaded(after.files) == ONE_ADDITION
  {
    assert Merge(EMPTY_RULES, UserState([])) == EMPTY_RULES;
    assert FindBlock(EMPTY_RULES.blocks, "a") == Some(0);
    assert ValidUsers(UserState([]), c.lib);
    hide PublishSpec, ValidDomain, ValidUsers, Merge, WithAddition, BlockIdText, FindBlock;
    ExampleChecks(c.lib);
    ExampleRecorded(c.lib);
  }

  predicate Complete(o: Outcome) { o.Failed? ==> o.kind != RollbackIncomplete }

  predicate Untouched(before: State, after: State) {
    SameTargets(before.files, after.files) && after.memory == before.memory
  }

  /**
   * Unless a rollback stayed incomplete, a failed addition leaves the published rules alone, or they are a new
   * snapshot of the base rules merged with the restored additions.
   */
  lemma FailureKeepsPublished(c: Config, s: State, uid: nat, blockId: string, domain: string, f: AddFaults,
                              updated: UserState, three: State, effective: RuleSet)
    requires !AddDomainSpec(c, s, uid, blockId, domain, f).1.Added?
    requires updated == WithAddition(Loaded(s.files), uid, blockId, domain)
    requires s.memory.base.Some? && effective == Merge(s.memory.base.value, Loaded(s.files))
    requires var two := PublishSpec(c, Stored(s, updated), s.memory.base.value, Alone(f.publish)).0;
             three == two.(files := StoreWritten(two.files, Loaded(s.files), f.undo))
    requires Complete(PublishSpec(c, Stored(s, updated), s.memory.base.value, Alone(f.publish)).1)
    requires Complete(PublishSpec(c, three, s.memory.base.value, Alone(f.republish)).1)
    ensures var after := AddDomainSpec(c, s, uid, blockId, domain, f).0;
            || Untouched(s, after)
            || (Loaded(after.files) == Loaded(s.files) &&
                SuccessContract(c, three, s.memory.base.value,
                                Wrapped(effective, three.files.counter + 1, c.publicKey, c.hex), after))
  {
    var base := s.memory.base.value;
    FailedSteps(c, s, uid, blockId, domain, f, updated);
    if AddDomainSpec(c, s, uid, blockId, domain, f).1.PublishFailed? {
      PublishFailedSteps(c, s, uid, blockId, domain, f, updated);
      PublishFails(c, Stored(s, updated), base, Alone(f.publish));
      assert Untouched(s, three);
      if f.undo.Succeeds? {
        Republished(c, s, base, three, Alone(f.republish), effective);
      }
    }
  }

  lemma Republished(c: Config, s: State, base: RuleSet, three: State, f: Faults, effective: RuleSet)
    requires Untouched(s, three) && Quiet(f) && Loaded(three.files) == Loaded(s.files)
    requires effective == Merge(base, Loaded(s.files)) && Complete(PublishSpec(c, three, base, f).1)
    ensures var after := PublishSpec(c, three, base, f).0;
            || Untouched(s, after)
            || (Loaded(after.files) == Loaded(s.files) &&
                SuccessContract(c, three, base, Wrapped(effective, three.files.counter + 1, c.publicKey, c.hex), after))
  {
    if PublishSpec(c, three, base, f).1.Published? {
      PublishSucceeds(c, three, base, f, effective, three.files.counter + 1);
      PublishKeepsStore(c, three, base, f);
    } else {
      PublishFails(c, three, base, f);
    }
  }

  /**
   * After a failed publication the addition is taken back and, where every step works, the rules with the restored additions
   * are published again under the next generation.
   */
  lemma TakenBackIsRepublished(c: Config, s: State, uid: nat, blockId: string, domain: string, f: AddFaults,
                               updated: UserState, three: State, effective: RuleSet)
    requires AddDomainSpec(c, s, uid, blockId, domain, f).1.PublishFailed? && f.undo.Succeeds?
    requires updated == WithAddition(Loaded(s.files), uid, blockId, domain)
    requires s.memory.base.Some? && effective == Merge(s.memory.base.value, Loaded(s.files))
    requires var two := PublishSpec(c, Stored(s, updated), s.memory.base.value, Alone(f.publish)).0;
             three == two.(files := StoreWritten(two.files, Loaded(s.files), f.undo))
    requires !f.republish.load && Mergeable(c, three, s.memory.base.value) && Made(c, three, s.memory.base.value).Ok?
    requires AllStepsWork(c, three.files, Alone(f.republish))
    ensures var after := AddDomainSpec(c, s, uid, blockId, domain, f).0;
            && Loaded(after.files) == Loaded(s.files)
            && SuccessContract(c, three, s.memory.base.value,
                               Wrapped(effective, three.files.counter + 1, c.publicKey, c.hex), after)
  {
    hide PublishSpec, Made, Mergeable, Merge, Wrapped, SuccessContract;
    var base := s.memory.base.value;
    PublishFailedSteps(c, s, uid, blockId, domain, f, updated);
    PublishSucceedsExactly(c, three, base, Alone(f.republish));
    PublishSucceeds(c, three, base, Alone(f.republish), effective, three.files.counter + 1);
    PublishKeepsStore(c, three, base, Alone(f.republish));
  }

  // ---- Who may add what ----

  /** The reasons for which a request is refused before anything is written. */
  predicate RefusalReason(c: Config, s: State, uid: nat, blockId: string, domain: string, f: AddFaults) {
    || uid !in c.restricted
    || s.memory.base.None?
    || !BlockIdText(blockId) || !ValidDomain(domain, c.lib)
    || f.loadFirst || !ValidUsers(Loaded(s.files), c.lib)
    || var i := FindBlock(s.memory.base.value.blocks, blockId);
       || i.None?
       || s.memory.base.value.blocks[i.value].action == Allow
       || domain in s.memory.base.value.blocks[i.value].targets.domains
       || (Receives(s.memory.base.value.blocks, i.value, Additions(Loaded(s.files).users))
           && domain in AddedTo(Additions(Loaded(s.files).users), blockId))
  }

  /**
   * A request is refused, and nothing changes, exactly for these reasons: an account that is not registered as restricted, no
   * active rules yet, an invalid block id or domain, an unreadable user file, a missing block, one that allows, or a domain
   * that the block's own list or the additions merged into it already have.
   */
  lemma RefusedExactly(c: Config, s: State, uid: nat, blockId: string, domain: string, f: AddFaults)
    ensures AddDomainSpec(c, s, uid, blockId, domain, f).1.Refused? <==> RefusalReason(c, s, uid, blockId, domain, f)
    ensures RefusalReason(c, s, uid, blockId, domain, f) ==> AddDomainSpec(c, s, uid, blockId, domain, f).0 == s
  {
    hide PublishSpec, ValidUsers, ValidDomain, BlockIdText, WithAddition, Merge, Receives, AddedTo;
    if s.memory.base.Some? {
      var base := s.memory.base.value;
      var i := FindBlock(base.blocks, blockId);
      if i.Some? { MergedDomainsExactly(base, Loaded(s.files), i.value, domain); }
    }
  }

  /**
   * A domain is added exactly when nothing speaks against the request, the user file can be locked, read and written, the new
   * document keeps within the limits, and the rules with it can be merged and made and every step of publishing them works.
   */
  lemma AddsExactly(c: Config, s: State, uid: nat, blockId: string, domain: string, f: AddFaults, updated: UserState)
    requires updated == WithAddition(Loaded(s.files), uid, blockId, domain)
    ensures AddDomainSpec(c, s, uid, blockId, domain, f).1.Added? <==>
            && !RefusalReason(c, s, uid, blockId, domain, f)
            && !f.lock && !f.load && ValidUsers(updated, c.lib) && f.write.Succeeds?
            && !f.publish.load && Mergeable(c, Stored(s, updated), s.memory.base.value)
            && Made(c, Stored(s, updated), s.memory.base.value).Ok?
            && AllStepsWork(c, Stored(s, updated).files, Alone(f.publish))
  {
    hide PublishSpec, ValidUsers, RefusalReason, AddAllowed, WithAddition, Mergeable, Made, AllStepsWork;
    RefusedExactly(c, s, uid, blockId, domain, f);
    if !RefusalReason(c, s, uid, blockId, domain, f) {
      BaseKnown(c, s, uid, blockId, domain, f);
      PublishSucceedsExactly(c, Stored(s, updated), s.memory.base.value, Alone(f.publish));
    }
  }

  lemma BaseKnown(c: Config, s: State, uid: nat, blockId: string, domain: string, f: AddFaults)
    requires !RefusalReason(c, s, uid, blockId, domain, f)
    ensures s.memory.base.Some?
  {
  }
}
