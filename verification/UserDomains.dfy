/** Domain additions by restricted accounts, and merging them into the base rules. */
module UserDomains {
  import opened Basics
  import TextOrder
  import opened MatchPattern
  import opened Rules
  import opened Evaluation

  /** The additions one account made to one block. */
  datatype Addition = Addition(blockId: string, domains: seq<string>)

  datatype UserEntry = UserEntry(uid: string, blocks: seq<Addition>)

  /** The stored document; accounts and blocks in the order the file lists them. */
  datatype UserState = UserState(users: seq<UserEntry>)

  function Additions(users: seq<UserEntry>): seq<Addition> {
    if users == [] then [] else users[0].blocks + Additions(users[1..])
  }

  /** Index of the last block with the id, as a dictionary built in list order keeps it. */
  function LastIndex(blocks: seq<RuleBlock>, id: string): Option<nat> {
    if blocks == [] then None
    else if blocks[|blocks| - 1].id == id then Some(|blocks| - 1)
    else LastIndex(blocks[..|blocks| - 1], id)
  }

  /** Appends each domain that is not there yet. */
  function Extend(targets: seq<string>, domains: seq<string>): seq<string>
    decreases |domains|
  {
    if domains == [] then targets
    else Extend(if domains[0] in targets then targets else targets + [domains[0]], domains[1..])
  }

  function WithDomains(b: RuleBlock, domains: seq<string>): RuleBlock {
    b.(targets := b.targets.(domains := domains))
  }

  function ApplyAddition(blocks: seq<RuleBlock>, a: Addition): seq<RuleBlock> {
    match LastIndex(blocks, a.blockId)
    case None => blocks
    case Some(i) =>
      if i < |blocks| && blocks[i].action == Block then
        blocks[i := WithDomains(blocks[i], TextOrder.Sort(Extend(blocks[i].targets.domains, a.domains)))]
      else blocks
  }

  function ApplyAdditions(blocks: seq<RuleBlock>, additions: seq<Addition>): seq<RuleBlock>
    decreases |additions|
  {
    if additions == [] then blocks
    else ApplyAdditions(ApplyAddition(blocks, additions[0]), additions[1..])
  }

  function Merge(base: RuleSet, state: UserState): RuleSet {
    base.(blocks := ApplyAdditions(base.blocks, Additions(state.users)))
  }

  // ---- The merge loop ----

  lemma {:induction false} LastIndexIsLast(blocks: seq<RuleBlock>, id: string)
    ensures match LastIndex(blocks, id)
            case None => forall k :: 0 <= k < |blocks| ==> blocks[k].id != id
            case Some(i) => i < |blocks| && blocks[i].id == id && forall k :: i < k < |blocks| ==> blocks[k].id != id
  {
    if blocks != [] && blocks[|blocks| - 1].id != id {
      LastIndexIsLast(blocks[..|blocks| - 1], id);
    }
  }

  predicate SameIds(a: seq<RuleBlock>, b: seq<RuleBlock>) {
    |a| == |b| && forall k :: 0 <= k < |a| ==> a[k].id == b[k].id && a[k].action == b[k].action
  }

  lemma SameIdsSameIndex(a: seq<RuleBlock>, b: seq<RuleBlock>, id: string)
    requires SameIds(a, b)
    ensures LastIndex(a, id) == LastIndex(b, id)
  {
    LastIndexIsLast(a, id);
    LastIndexIsLast(b, id);
  }

  lemma {:induction false} ApplyAppend(blocks: seq<RuleBlock>, a: seq<Addition>, b: seq<Addition>)
    ensures ApplyAdditions(blocks, a + b) == ApplyAdditions(ApplyAdditions(blocks, a), b)
    decreases |a|
  {
    if a == [] {
      assert a + b == b;
    } else {
      assert (a + b)[1..] == a[1..] + b;
      ApplyAppend(ApplyAddition(blocks, a[0]), a[1..], b);
    }
  }

  /** `extend` with a filtering generator: each domain is tested against the list as it grows. */
  method ExtendInPlace(targets: seq<string>, domains: seq<string>) returns (r: seq<string>)
    ensures r == Extend(targets, domains)
  {
    r := targets;
    for k := 0 to |domains|
      invariant Extend(targets, domains) == Extend(r, domains[k..])
    {
      assert domains[k..][0] == domains[k] && domains[k..][1..] == domains[k + 1..];
      if domains[k] !in r { r := r + [domains[k]]; }
    }
    assert domains[|domains|..] == [];
  }

  /** The dictionary of blocks by id. */
  method IndexBlocks(blocks: seq<RuleBlock>) returns (index: map<string, nat>)
    ensures forall id :: id in index <==> LastIndex(blocks, id).Some?
    ensures forall id :: id in index ==> LastIndex(blocks, id) == Some(index[id])
  {
    index := map[];
    for k := 0 to |blocks|
      invariant forall id :: id in index <==> LastIndex(blocks[..k], id).Some?
      invariant forall id :: id in index ==> LastIndex(blocks[..k], id) == Some(index[id])
    {
      assert blocks[..k + 1][..k] == blocks[..k];
      index := index[blocks[k].id := k];
    }
    assert blocks[..|blocks|] == blocks;
  }

  /** One account's additions; the dictionary made from the base blocks still finds every block. */
  method MergeEntry(list: seq<RuleBlock>, additions: seq<Addition>, index: map<string, nat>, ghost base: seq<RuleBlock>)
    returns (merged: seq<RuleBlock>)
    requires SameIds(list, base)
    requires forall id :: id in index <==> LastIndex(base, id).Some?
    requires forall id :: id in index ==> LastIndex(base, id) == Some(index[id])
    ensures merged == ApplyAdditions(list, additions) && SameIds(merged, base)
  {
    hide TextOrder.Sort, Extend, LastIndex;
    merged := list;
    for k := 0 to |additions|
      invariant SameIds(merged, base)
      invariant ApplyAdditions(list, additions) == ApplyAdditions(merged, additions[k..])
    {
      var a := additions[k];
      assert additions[k..][0] == a && additions[k..][1..] == additions[k + 1..];
      SameIdsSameIndex(merged, base, a.blockId);
      LastIndexIsLast(merged, a.blockId);
      if a.blockId in index && merged[index[a.blockId]].action == Block {
        var i := index[a.blockId];
        var targets := ExtendInPlace(merged[i].targets.domains, a.domains);
        merged := merged[i := WithDomains(merged[i], TextOrder.Sort(targets))];
      }
    }
    assert additions[|additions|..] == [];
  }

  method MergeUsers(base: RuleSet, state: UserState) returns (merged: RuleSet)
    ensures merged == Merge(base, state)
  {
    hide LastIndex, SameIds;
    var list := base.blocks;
    var index := IndexBlocks(list);
    SameIdsRefl(list);
    for u := 0 to |state.users|
      invariant SameIds(list, base.blocks)
      invariant Merge(base, state).blocks == ApplyAdditions(list, Additions(state.users[u..]))
    {
      var entry := state.users[u];
      assert state.users[u..][0] == entry && state.users[u..][1..] == state.users[u + 1..];
      ApplyAppend(list, entry.blocks, Additions(state.users[u + 1..]));
      list := MergeEntry(list, entry.blocks, index, base.blocks);
    }
    assert state.users[|state.users|..] == [];
    return base.(blocks := list);
  }

  lemma SameIdsRefl(a: seq<RuleBlock>)
    ensures SameIds(a, a)
  {
  }

  // ---- What the merge yields ----

  function AddedTo(additions: seq<Addition>, id: string): set<string> {
    set k, d | 0 <= k < |additions| && additions[k].blockId == id && d in additions[k].domains :: d
  }

  predicate Touched(additions: seq<Addition>, id: string) {
    exists k :: 0 <= k < |additions| && additions[k].blockId == id
  }

  /** The one block an id stands for, when additions may reach it. */
  predicate Receives(blocks: seq<RuleBlock>, i: int, additions: seq<Addition>) {
    && 0 <= i < |blocks| && blocks[i].action == Block
    && LastIndex(blocks, blocks[i].id) == Some(i)
    && Touched(additions, blocks[i].id)
  }

  /** Earlier entries keep their multiplicity, every new domain comes once, the list is sorted. */
  predicate MergedList(prior: seq<string>, added: set<string>, now: seq<string>) {
    && multiset(now) == multiset(prior) + multiset(added - SetOf(prior))
    && TextOrder.Sorted(now)
  }

  predicate Merged(blocks: seq<RuleBlock>, i: int, additions: seq<Addition>, now: RuleBlock)
    requires 0 <= i < |blocks|
  {
    if Receives(blocks, i, additions) then
      && now == WithDomains(blocks[i], now.targets.domains)
      && MergedList(blocks[i].targets.domains, AddedTo(additions, blocks[i].id), now.targets.domains)
    else now == blocks[i]
  }

  /** One more domain, by whether the list already has it. */
  lemma NovelStep(targets: seq<string>, d: string, rest: set<string>)
    ensures d in targets ==> rest + {d} - SetOf(targets) == rest - SetOf(targets)
    ensures d !in targets ==>
            multiset(targets) + multiset(rest + {d} - SetOf(targets)) ==
            multiset(targets + [d]) + multiset(rest - SetOf(targets + [d]))
  {
    if d !in targets {
      assert SetOf(targets + [d]) == SetOf(targets) + {d};
      var novel := rest - SetOf(targets + [d]);
      assert rest + {d} - SetOf(targets) == novel + {d} && d !in novel;
      assert multiset(novel + {d}) == multiset(novel) + multiset{d};
    }
  }

  lemma {:induction false} ExtendAddsOnce(targets: seq<string>, domains: seq<string>)
    ensures multiset(Extend(targets, domains)) == multiset(targets) + multiset(SetOf(domains) - SetOf(targets))
    decreases |domains|
  {
    if domains == [] {
      assert SetOf(domains) == {};
    } else {
      var d := domains[0];
      assert SetOf(domains) == SetOf(domains[1..]) + {d};
      hide SetOf;
      ExtendAddsOnce(if d in targets then targets else targets + [d], domains[1..]);
      NovelStep(targets, d, SetOf(domains[1..]));
    }
  }

  lemma AddedCons(additions: seq<Addition>, id: string)
    requires additions != []
    ensures AddedTo(additions, id) ==
            AddedTo(additions[1..], id) + if additions[0].blockId == id then SetOf(additions[0].domains) else {}
    ensures Touched(additions, id) <==> Touched(additions[1..], id) || additions[0].blockId == id
  {
    var rest := additions[1..];
    forall d ensures d in AddedTo(additions, id) <==>
        d in AddedTo(rest, id) || (additions[0].blockId == id && d in additions[0].domains)
    {
      if d in AddedTo(additions, id) {
        var k :| 0 <= k < |additions| && additions[k].blockId == id && d in additions[k].domains;
        if k > 0 { assert rest[k - 1] == additions[k]; }
      }
      if d in AddedTo(rest, id) {
        var k :| 0 <= k < |rest| && rest[k].blockId == id && d in rest[k].domains;
        assert additions[k + 1] == rest[k];
      }
    }
    if Touched(additions, id) {
      var k :| 0 <= k < |additions| && additions[k].blockId == id;
      if k > 0 { assert rest[k - 1] == additions[k]; }
    }
    if Touched(rest, id) {
      var k :| 0 <= k < |rest| && rest[k].blockId == id;
      assert additions[k + 1] == rest[k];
    }
  }

  lemma MergedListStep(prior: seq<string>, mid: seq<string>, now: seq<string>, first: set<string>, rest: set<string>)
    requires multiset(mid) == multiset(prior) + multiset(first - SetOf(prior))
    requires multiset(now) == multiset(mid) + multiset(rest - SetOf(mid))
    ensures multiset(now) == multiset(prior) + multiset((rest + first) - SetOf(prior))
  {
    assert SetOf(mid) == SetOf(prior) + first by {
      forall d ensures d in mid <==> d in prior || d in first {
        assert d in mid <==> d in multiset(mid);
        assert d in prior <==> d in multiset(prior);
      }
    }
    var a, b := first - SetOf(prior), rest - SetOf(mid);
    assert (rest + first) - SetOf(prior) == a + b && a !! b;
    assert multiset(a + b) == multiset(a) + multiset(b);
  }

  lemma {:induction false} ApplyMeans(blocks: seq<RuleBlock>, additions: seq<Addition>)
    ensures var now := ApplyAdditions(blocks, additions);
            |now| == |blocks| && forall i :: 0 <= i < |blocks| ==> Merged(blocks, i, additions, now[i])
    decreases |additions|
  {
    if additions != [] {
      var a := additions[0];
      var mid := ApplyAddition(blocks, a);
      var now := ApplyAdditions(blocks, additions);
      AdditionLength(blocks, a);
      ApplyMeans(mid, additions[1..]);
      assert now == ApplyAdditions(mid, additions[1..]);
      forall i | 0 <= i < |blocks| ensures Merged(blocks, i, additions, now[i]) {
        MergedStep(blocks, i, additions, mid, now[i]);
      }
    }
  }

  lemma AdditionLength(blocks: seq<RuleBlock>, a: Addition)
    ensures |ApplyAddition(blocks, a)| == |blocks|
  {
  }

  lemma MergedStep(blocks: seq<RuleBlock>, i: nat, additions: seq<Addition>, mid: seq<RuleBlock>, now: RuleBlock)
    requires i < |blocks| && additions != [] && mid == ApplyAddition(blocks, additions[0]) && |mid| == |blocks|
    requires Merged(mid, i, additions[1..], now)
    ensures Merged(blocks, i, additions, now)
  {
    hide TextOrder.Sort, Extend, LastIndex, AddedTo, Touched, TextOrder.Sorted;
    var a, rest := additions[0], additions[1..];
    var id := blocks[i].id;
    AddedCons(additions, id);
    LastIndexIsLast(blocks, a.blockId);
    assert SameIds(blocks, mid);
    SameIdsSameIndex(blocks, mid, id);
    if Receives(blocks, i, additions) {
      var prior := blocks[i].targets.domains;
      if a.blockId == id {
        var grown := Extend(prior, a.domains);
        ExtendAddsOnce(prior, a.domains);
        TextOrder.SortSorted(grown);
        assert mid[i] == WithDomains(blocks[i], TextOrder.Sort(grown));
        if Receives(mid, i, rest) {
          MergedListStep(prior, TextOrder.Sort(grown), now.targets.domains, SetOf(a.domains), AddedTo(rest, id));
        } else {
          assert AddedTo(rest, id) == {} by { NothingAdded(rest, id); }
          assert AddedTo(additions, id) == SetOf(a.domains);
        }
      } else {
        assert mid[i] == blocks[i];
      }
    } else {
      assert mid[i] == blocks[i];
    }
  }

  lemma NothingAdded(additions: seq<Addition>, id: string)
    requires !Touched(additions, id)
    ensures AddedTo(additions, id) == {}
  {
  }

  lemma MergedListUnique(prior: seq<string>, added: set<string>, a: seq<string>, b: seq<string>)
    requires MergedList(prior, added, a) && MergedList(prior, added, b)
    ensures a == b
  {
    TextOrder.SortedUnique(a, b);
  }

  /** Two stored states that record the same additions for every block. */
  ghost predicate SameAdditions(s: UserState, t: UserState) {
    forall id ::
      && AddedTo(Additions(s.users), id) == AddedTo(Additions(t.users), id)
      && (Touched(Additions(s.users), id) <==> Touched(Additions(t.users), id))
  }

  /** The merged rules depend on what was added, not on the order of accounts or entries. */
  lemma MergeIgnoresOrder(base: RuleSet, s: UserState, t: UserState)
    requires SameAdditions(s, t)
    ensures Merge(base, s) == Merge(base, t)
  {
    var a, b := Additions(s.users), Additions(t.users);
    ApplyMeans(base.blocks, a);
    ApplyMeans(base.blocks, b);
    var x, y := Merge(base, s).blocks, Merge(base, t).blocks;
    forall i | 0 <= i < |base.blocks| ensures x[i] == y[i] {
      var id := base.blocks[i].id;
      assert AddedTo(a, id) == AddedTo(b, id);
      if Receives(base.blocks, i, a) {
        MergedListUnique(base.blocks[i].targets.domains, AddedTo(a, id), x[i].targets.domains, y[i].targets.domains);
      }
    }
    assert x == y;
  }

  lemma {:induction false} AdditionsMembers(users: seq<UserEntry>, a: Addition)
    ensures a in Additions(users) <==> exists u :: u in users && a in u.blocks
  {
    if users != [] {
      AdditionsMembers(users[1..], a);
      assert forall u :: u in users <==> u == users[0] || u in users[1..];
    }
  }

  /** Listing the accounts in another order records the same additions. */
  lemma ReorderedUsers(s: UserState, t: UserState)
    requires multiset(s.users) == multiset(t.users)
    ensures SameAdditions(s, t)
  {
    var a, b := Additions(s.users), Additions(t.users);
    TextOrder.SameMultisetSameMembers(s.users, t.users);
    forall x ensures x in a <==> x in b {
      AdditionsMembers(s.users, x);
      AdditionsMembers(t.users, x);
    }
    forall id
      ensures AddedTo(a, id) == AddedTo(b, id) && (Touched(a, id) <==> Touched(b, id))
    {
      SameMembersSameAdditions(a, b, id);
      SameMembersSameAdditions(b, a, id);
    }
  }

  lemma SameMembersSameAdditions(a: seq<Addition>, b: seq<Addition>, id: string)
    requires forall x :: x in a ==> x in b
    ensures AddedTo(a, id) <= AddedTo(b, id) && (Touched(a, id) ==> Touched(b, id))
  {
    forall k | 0 <= k < |a| && a[k].blockId == id
      ensures Touched(b, id) && forall d :: d in a[k].domains ==> d in AddedTo(b, id)
    {
      assert a[k] in b;
      var m :| 0 <= m < |b| && b[m] == a[k];
    }
  }

  /** Merging the same additions a second time changes nothing. */
  lemma MergeIdempotent(base: RuleSet, s: UserState)
    ensures Merge(Merge(base, s), s) == Merge(base, s)
  {
    var a := Additions(s.users);
    var once := ApplyAdditions(base.blocks, a);
    var twice := ApplyAdditions(once, a);
    ApplyMeans(base.blocks, a);
    ApplyMeans(once, a);
    forall i | 0 <= i < |once| ensures twice[i] == once[i] {
      assert SameIds(base.blocks, once);
      SameIdsSameIndex(base.blocks, once, once[i].id);
      if Receives(once, i, a) {
        SettledList(base.blocks[i].targets.domains, AddedTo(a, once[i].id), once[i].targets.domains, twice[i].targets.domains);
      }
    }
    assert twice == once;
  }

  lemma SettledList(prior: seq<string>, added: set<string>, now: seq<string>, again: seq<string>)
    requires MergedList(prior, added, now) && MergedList(now, added, again)
    ensures again == now
  {
    forall d | d in added ensures d in now {
      assert d in now <==> d in multiset(now);
      assert d in prior <==> d in multiset(prior);
    }
    assert added - SetOf(now) == {};
    TextOrder.SortedUnique(again, now);
  }

  // ---- Children can only tighten ----

  /** A block after the merge: only a blocking block may change, and only by gaining domains. */
  predicate Tightened(b: RuleBlock, now: RuleBlock) {
    && now == WithDomains(b, now.targets.domains)
    && (b.action == Allow ==> now == b)
    && forall d :: d in b.targets.domains ==> d in now.targets.domains
  }

  /** Block by block, nothing but that changed. */
  ghost predicate TightenedRules(base: RuleSet, merged: RuleSet) {
    && merged == base.(blocks := merged.blocks)
    && |merged.blocks| == |base.blocks|
    && forall i :: 0 <= i < |base.blocks| ==> Tightened(base.blocks[i], merged.blocks[i])
  }

  lemma MergeTightensBlocks(base: RuleSet, s: UserState)
    ensures TightenedRules(base, Merge(base, s))
  {
    var a := Additions(s.users);
    ApplyMeans(base.blocks, a);
    var now := Merge(base, s).blocks;
    forall i | 0 <= i < |base.blocks| ensures Tightened(base.blocks[i], now[i]) {
      assert Merged(base.blocks, i, a, now[i]);
      if Receives(base.blocks, i, a) {
        forall d | d in base.blocks[i].targets.domains ensures d in now[i].targets.domains {
          assert d in multiset(base.blocks[i].targets.domains);
          assert d in multiset(now[i].targets.domains);
        }
      }
    }
  }

  /** The domains of every merged block, exactly: its own, plus all additions when it receives them. */
  lemma MergedDomainsExactly(base: RuleSet, s: UserState, i: nat, d: string)
    requires i < |base.blocks|
    ensures |Merge(base, s).blocks| == |base.blocks|
    ensures d in Merge(base, s).blocks[i].targets.domains <==>
            || d in base.blocks[i].targets.domains
            || (Receives(base.blocks, i, Additions(s.users)) && d in AddedTo(Additions(s.users), base.blocks[i].id))
  {
    var a := Additions(s.users);
    ApplyMeans(base.blocks, a);
    var prior, now := base.blocks[i].targets.domains, Merge(base, s).blocks[i].targets.domains;
    assert Merged(base.blocks, i, a, Merge(base, s).blocks[i]);
    assert d in prior <==> d in multiset(prior);
    assert d in now <==> d in multiset(now);
  }

  lemma TightenedMatches(b: RuleBlock, now: RuleBlock, clock: Clock, req: Request, rx: RegexEngine)
    requires Tightened(b, now)
    ensures BlockMatches(b, clock, req.url, rx) ==> BlockMatches(now, clock, req.url, rx)
    ensures BlockMatches(now, clock, req.url, rx) && !BlockMatches(b, clock, req.url, rx) ==> now.action == Block
  {
    if AnyDomainCovers(b.targets.domains, req.url.host) {
      var i :| 0 <= i < |b.targets.domains| && DomainCovers(b.targets.domains[i], req.url.host);
      var d := b.targets.domains[i];
      assert d in now.targets.domains;
      var k :| 0 <= k < |now.targets.domains| && now.targets.domains[k] == d;
    }
  }

  lemma TightenedMatching(base: RuleSet, merged: RuleSet, i: int, clock: Clock, req: Request, rx: RegexEngine)
    requires TightenedRules(base, merged)
    ensures Matching(base, i, clock, req.url, rx) ==> Matching(merged, i, clock, req.url, rx)
    ensures Matching(merged, i, clock, req.url, rx) && !Matching(base, i, clock, req.url, rx) ==> merged.blocks[i].action == Block
    ensures Matching(merged, i, clock, req.url, rx) ==>
            0 <= i < |base.blocks| && merged.blocks[i].priority == base.blocks[i].priority
            && merged.blocks[i].action == base.blocks[i].action
  {
    if 0 <= i < |base.blocks| {
      TightenedMatches(base.blocks[i], merged.blocks[i], clock, req, rx);
    }
  }

  /** Among finitely many marked indices one has the highest priority. */
  lemma {:induction false} HighestMarked(n: nat, marked: int -> bool, priority: int -> int) returns (top: int)
    requires exists i :: 0 <= i < n && marked(i)
    ensures 0 <= top < n && marked(top)
    ensures forall j :: 0 <= j < n && marked(j) ==> priority(j) <= priority(top)
  {
    if exists i :: 0 <= i < n - 1 && marked(i) {
      top := HighestMarked(n - 1, marked, priority);
      if marked(n - 1) && priority(n - 1) > priority(top) { top := n - 1; }
    } else {
      top := n - 1;
    }
  }

  /** When anything matches, some matching block has the highest priority. */
  lemma TopMatching(rules: RuleSet, clock: Clock, url: Url, rx: RegexEngine) returns (top: int)
    requires exists i :: Matching(rules, i, clock, url, rx)
    ensures Matching(rules, top, clock, url, rx)
    ensures forall j :: Matching(rules, j, clock, url, rx) ==> rules.blocks[j].priority <= rules.blocks[top].priority
  {
    var marked := (i: int) => Matching(rules, i, clock, url, rx);
    var priority := (i: int) => if 0 <= i < |rules.blocks| then rules.blocks[i].priority else 0;
    var i :| Matching(rules, i, clock, url, rx);
    assert marked(i);
    top := HighestMarked(|rules.blocks|, marked, priority);
    forall j | Matching(rules, j, clock, url, rx)
      ensures rules.blocks[j].priority <= rules.blocks[top].priority
    {
      assert marked(j) && priority(j) <= priority(top);
    }
  }

  lemma TighteningKeepsBlock(base: RuleSet, merged: RuleSet, clock: Clock, req: Request, rx: RegexEngine)
    requires TightenedRules(base, merged) && Verdict(base, clock, req.url, rx) == Block
    ensures Verdict(merged, clock, req.url, rx) == Block
  {
    forall i: int {
      TightenedMatching(base, merged, i, clock, req, rx);
    }
    if exists i :: Matching(merged, i, clock, req.url, rx) {
      var top := TopMatching(merged, clock, req.url, rx);
      if merged.blocks[top].action == Block {
        assert DecidesBlock(merged, top, clock, req.url, rx);
      } else {
        assert Matching(base, top, clock, req.url, rx);
        var i :| DecidesBlock(base, i, clock, req.url, rx);
        assert Matching(merged, i, clock, req.url, rx);
        assert base.blocks[top].priority <= base.blocks[i].priority;
        assert DecidesBlock(merged, i, clock, req.url, rx);
      }
    }
  }

  /** Whatever the base rules block, the rules merged with any additions block too. */
  lemma ChildrenOnlyTighten(base: RuleSet, s: UserState, clock: Clock, req: Request, rx: RegexEngine)
    requires Verdict(base, clock, req.url, rx) == Block
    ensures Verdict(Merge(base, s), clock, req.url, rx) == Block
  {
    hide Verdict;
    MergeTightensBlocks(base, s);
    TighteningKeepsBlock(base, Merge(base, s), clock, req, rx);
  }
}
