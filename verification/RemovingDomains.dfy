/** Removing a recorded domain: empty lists and accounts disappear, and an addition is undone exactly. */
module RemovingDomains {
  import opened Basics
  import TextOrder
  import CanonicalJson
  import RuleEdits
  import opened UserDomains
  import opened Validation
  import opened Publication
  import opened AddingDomains

  /** The additions of one account without one domain; None where it is not recorded for that block. */
  function RemoveFromList(blocks: seq<Addition>, blockId: string, domain: string): Option<seq<Addition>> {
    if blocks == [] then None
    else if blocks[0].blockId == blockId then
      if domain !in blocks[0].domains then None
      else
        var rest := RuleEdits.Remove(blocks[0].domains, domain);
        Some((if rest == [] then [] else [Addition(blockId, rest)]) + blocks[1..])
    else
      match RemoveFromList(blocks[1..], blockId, domain)
      case None => None
      case Some(rest) => Some([blocks[0]] + rest)
  }

  function RemoveFromUsers(users: seq<UserEntry>, uid: string, blockId: string, domain: string): Option<seq<UserEntry>> {
    if users == [] then None
    else if users[0].uid == uid then
      match RemoveFromList(users[0].blocks, blockId, domain)
      case None => None
      case Some(blocks) => Some((if blocks == [] then [] else [UserEntry(uid, blocks)]) + users[1..])
    else
      match RemoveFromUsers(users[1..], uid, blockId, domain)
      case None => None
      case Some(rest) => Some([users[0]] + rest)
  }

  function WithoutAddition(s: UserState, uid: nat, blockId: string, domain: string): Option<UserState> {
    match RemoveFromUsers(s.users, CanonicalJson.NatText(uid), blockId, domain)
    case None => None
    case Some(users) => Some(UserState(users))
  }

  // ---- Tidy documents ----

  predicate TidyList(blocks: seq<Addition>) {
    forall i :: 0 <= i < |blocks| ==> blocks[i].domains != [] && TextOrder.Sorted(blocks[i].domains)
  }

  /** Every list is sorted and nonempty, every account has one: what additions and removals leave behind. */
  predicate Tidy(users: seq<UserEntry>) {
    forall i :: 0 <= i < |users| ==> users[i].blocks != [] && TidyList(users[i].blocks)
  }

  lemma SortedIsFixed(s: seq<string>)
    requires TextOrder.Sorted(s)
    ensures TextOrder.Sort(s) == s
  {
    TextOrder.SortSorted(s);
    TextOrder.SortedUnique(TextOrder.Sort(s), s);
  }

  lemma {:induction false} AddTidyList(blocks: seq<Addition>, blockId: string, domain: string)
    requires TidyList(blocks)
    ensures TidyList(AddToList(blocks, blockId, domain)) && AddToList(blocks, blockId, domain) != []
  {
    if blocks != [] {
      if blocks[0].blockId == blockId {
        TextOrder.SortSorted(blocks[0].domains + [domain]);
        TextOrder.SameMultisetSameMembers(TextOrder.Sort(blocks[0].domains + [domain]), blocks[0].domains + [domain]);
      } else {
        TidyTail(blocks);
        AddTidyList(blocks[1..], blockId, domain);
      }
    }
  }

  lemma TidyTail(blocks: seq<Addition>)
    requires blocks != [] && TidyList(blocks)
    ensures TidyList(blocks[1..])
  {
    forall i | 0 <= i < |blocks| - 1 ensures blocks[1..][i] == blocks[i + 1] {}
  }

  lemma {:induction false} AddTidy(users: seq<UserEntry>, uid: string, blockId: string, domain: string)
    requires Tidy(users)
    ensures Tidy(AddToUsers(users, uid, blockId, domain))
  {
    hide TidyList, AddToList;
    if users == [] {
      AddTidyListAlone(blockId, domain);
    } else if users[0].uid == uid {
      AddTidyList(users[0].blocks, blockId, domain);
    } else {
      forall i | 0 <= i < |users| - 1 ensures users[1..][i] == users[i + 1] {}
      AddTidy(users[1..], uid, blockId, domain);
    }
  }

  lemma AddTidyListAlone(blockId: string, domain: string)
    ensures TidyList([Addition(blockId, [domain])])
  {
  }

  lemma {:induction false} RemoveTidyList(blocks: seq<Addition>, blockId: string, domain: string)
    requires TidyList(blocks) && RemoveFromList(blocks, blockId, domain).Some?
    ensures TidyList(RemoveFromList(blocks, blockId, domain).value)
  {
    TidyTail(blocks);
    if blocks[0].blockId == blockId {
      RuleEdits.RemoveKeepsOrder(blocks[0].domains, domain);
    } else {
      RemoveTidyList(blocks[1..], blockId, domain);
    }
  }

  /** Removals keep documents tidy. */
  lemma {:induction false} RemoveTidy(users: seq<UserEntry>, uid: string, blockId: string, domain: string)
    requires Tidy(users) && RemoveFromUsers(users, uid, blockId, domain).Some?
    ensures Tidy(RemoveFromUsers(users, uid, blockId, domain).value)
  {
    hide TidyList, RemoveFromList;
    forall i | 0 <= i < |users| - 1 ensures users[1..][i] == users[i + 1] {}
    if users[0].uid == uid {
      RemoveTidyList(users[0].blocks, blockId, domain);
    } else {
      RemoveTidy(users[1..], uid, blockId, domain);
    }
  }

  // ---- A removal undoes an addition ----

  lemma HeadRemoval(a: Addition, rest: seq<Addition>, domain: string)
    requires a.domains != [] && TextOrder.Sorted(a.domains)
    ensures RemoveFromList([Addition(a.blockId, TextOrder.Sort(a.domains + [domain]))] + rest, a.blockId, domain) == Some([a] + rest)
  {
    var more := TextOrder.Sort(a.domains + [domain]);
    RuleEdits.AddThenRemoveEntry(a.domains, domain);
    SortedIsFixed(a.domains);
    assert domain in multiset(more);
    var all := [Addition(a.blockId, more)] + rest;
    assert all[0] == Addition(a.blockId, more) && all[1..] == rest;
    assert Addition(a.blockId, a.domains) == a;
  }

  lemma {:induction false} ListRestored(blocks: seq<Addition>, blockId: string, domain: string)
    requires TidyList(blocks)
    ensures RemoveFromList(AddToList(blocks, blockId, domain), blockId, domain) == Some(blocks)
  {
    if blocks == [] {
      assert [Addition(blockId, [domain])][1..] == [] && [domain][1..] == [];
      assert RuleEdits.Remove([domain], domain) == [];
      assert [] + [Addition(blockId, [domain])][1..] == blocks;
    } else {
      assert blocks == [blocks[0]] + blocks[1..];
      TidyTail(blocks);
      if blocks[0].blockId == blockId {
        HeadRemoval(blocks[0], blocks[1..], domain);
      } else {
        ListRestored(blocks[1..], blockId, domain);
        var added := AddToList(blocks, blockId, domain);
        assert added[1..] == AddToList(blocks[1..], blockId, domain);
      }
    }
  }

  lemma {:induction false} UsersRestored(users: seq<UserEntry>, uid: string, blockId: string, domain: string)
    requires Tidy(users)
    ensures RemoveFromUsers(AddToUsers(users, uid, blockId, domain), uid, blockId, domain) == Some(users)
  {
    hide TidyList, AddToList, RemoveFromList;
    if users == [] {
      SingleRestored(blockId, domain);
      assert [] + [UserEntry(uid, [Addition(blockId, [domain])])][1..] == users;
    } else {
      assert users == [users[0]] + users[1..];
      forall i | 0 <= i < |users| - 1 ensures users[1..][i] == users[i + 1] {}
      var added := AddToUsers(users, uid, blockId, domain);
      if users[0].uid == uid {
        ListRestored(users[0].blocks, blockId, domain);
        assert added[1..] == users[1..];
        assert UserEntry(uid, users[0].blocks) == users[0];
      } else {
        UsersRestored(users[1..], uid, blockId, domain);
        assert added[1..] == AddToUsers(users[1..], uid, blockId, domain);
      }
    }
  }

  lemma SingleRestored(blockId: string, domain: string)
    ensures RemoveFromList([Addition(blockId, [domain])], blockId, domain) == Some([])
  {
    assert AddToList([], blockId, domain) == [Addition(blockId, [domain])];
    ListRestored([], blockId, domain);
  }

  /** Removing what was just added gives back the stored document exactly, and with it the merged rules. */
  lemma RemovalUndoesAddition(s: UserState, uid: nat, blockId: string, domain: string)
    requires Tidy(s.users)
    ensures WithoutAddition(WithAddition(s, uid, blockId, domain), uid, blockId, domain) == Some(s)
    ensures Tidy(WithAddition(s, uid, blockId, domain).users)
  {
    UsersRestored(s.users, CanonicalJson.NatText(uid), blockId, domain);
    AddTidy(s.users, CanonicalJson.NatText(uid), blockId, domain);
  }

  // ---- What one removal changes ----

  /** The list of the first entry for the block. */
  function ListIn(blocks: seq<Addition>, blockId: string): Option<seq<string>> {
    if blocks == [] then None
    else if blocks[0].blockId == blockId then Some(blocks[0].domains)
    else ListIn(blocks[1..], blockId)
  }

  /** What is recorded for an account and a block. */
  function Recorded(users: seq<UserEntry>, uid: string, blockId: string): Option<seq<string>> {
    if users == [] then None
    else if users[0].uid == uid then ListIn(users[0].blocks, blockId)
    else Recorded(users[1..], uid, blockId)
  }

  predicate BlocksOnce(blocks: seq<Addition>) {
    forall i, j :: 0 <= i < j < |blocks| ==> blocks[i].blockId != blocks[j].blockId
  }

  /** As in a dictionary of dictionaries: every account once, every block once per account. */
  predicate Dictionary(users: seq<UserEntry>) {
    && (forall i, j :: 0 <= i < j < |users| ==> users[i].uid != users[j].uid)
    && forall i :: 0 <= i < |users| ==> BlocksOnce(users[i].blocks)
  }

  /** The list without the first such entry; an empty one disappears. */
  ghost predicate Shortened(before: seq<string>, after: Option<seq<string>>, domain: string) {
    RuleEdits.Loses(before, if after.Some? then after.value else [], domain) && after != Some([])
  }

  lemma {:induction false} NotListed(blocks: seq<Addition>, blockId: string)
    requires forall i :: 0 <= i < |blocks| ==> blocks[i].blockId != blockId
    ensures ListIn(blocks, blockId).None?
  {
    if blocks != [] {
      forall i | 0 <= i < |blocks| - 1 ensures blocks[1..][i].blockId != blockId { assert blocks[1..][i] == blocks[i + 1]; }
      NotListed(blocks[1..], blockId);
    }
  }

  lemma BlocksTail(blocks: seq<Addition>)
    requires BlocksOnce(blocks) && blocks != []
    ensures BlocksOnce(blocks[1..]) && ListIn(blocks[1..], blocks[0].blockId).None?
  {
    forall i | 0 <= i < |blocks| - 1 ensures blocks[1..][i].blockId != blocks[0].blockId { assert blocks[1..][i] == blocks[i + 1]; }
    forall i, j | 0 <= i < j < |blocks| - 1 ensures blocks[1..][i].blockId != blocks[1..][j].blockId {
      assert blocks[1..][i] == blocks[i + 1] && blocks[1..][j] == blocks[j + 1];
    }
    NotListed(blocks[1..], blocks[0].blockId);
  }

  lemma {:induction false} RemovalInList(blocks: seq<Addition>, blockId: string, domain: string, other: string)
    requires BlocksOnce(blocks)
    ensures var before, r := ListIn(blocks, blockId), RemoveFromList(blocks, blockId, domain);
            && (r.Some? <==> before.Some? && domain in before.value)
            && (r.Some? ==> Shortened(before.value, ListIn(r.value, blockId), domain))
            && (r.Some? && other != blockId ==> ListIn(r.value, other) == ListIn(blocks, other))
  {
    hide RuleEdits.Remove, RuleEdits.Loses;
    if blocks != [] {
      BlocksTail(blocks);
      if blocks[0].blockId == blockId {
        if domain in blocks[0].domains {
          var rest := RuleEdits.Remove(blocks[0].domains, domain);
          RuleEdits.RemoveLoses(blocks[0].domains, domain);
          assert [Addition(blockId, rest)] + blocks[1..] != [];
          assert ([Addition(blockId, rest)] + blocks[1..])[1..] == blocks[1..];
          assert [] + blocks[1..] == blocks[1..];
        }
      } else {
        RemovalInList(blocks[1..], blockId, domain, other);
        var r := RemoveFromList(blocks[1..], blockId, domain);
        if r.Some? { assert ([blocks[0]] + r.value)[1..] == r.value; }
      }
    }
  }

  lemma UsersTail(users: seq<UserEntry>)
    requires Dictionary(users) && users != []
    ensures Dictionary(users[1..]) && forall id :: Recorded(users[1..], users[0].uid, id).None?
  {
    forall i | 0 <= i < |users| - 1 ensures users[1..][i].uid != users[0].uid && BlocksOnce(users[1..][i].blocks) {
      assert users[1..][i] == users[i + 1];
    }
    forall i, j | 0 <= i < j < |users| - 1 ensures users[1..][i].uid != users[1..][j].uid {
      assert users[1..][i] == users[i + 1] && users[1..][j] == users[j + 1];
    }
    forall id ensures Recorded(users[1..], users[0].uid, id).None? { NotRecorded(users[1..], users[0].uid, id); }
  }

  lemma {:induction false} NotRecorded(users: seq<UserEntry>, uid: string, id: string)
    requires forall i :: 0 <= i < |users| ==> users[i].uid != uid
    ensures Recorded(users, uid, id).None?
  {
    if users != [] {
      forall i | 0 <= i < |users| - 1 ensures users[1..][i].uid != uid { assert users[1..][i] == users[i + 1]; }
      NotRecorded(users[1..], uid, id);
    }
  }

  lemma {:induction false} RemovalInUsers(users: seq<UserEntry>, uid: string, blockId: string, domain: string, u: string, b: string)
    requires Dictionary(users)
    ensures var before, r := Recorded(users, uid, blockId), RemoveFromUsers(users, uid, blockId, domain);
            && (r.Some? <==> before.Some? && domain in before.value)
            && (r.Some? ==> Shortened(before.value, Recorded(r.value, uid, blockId), domain))
            && (r.Some? && (u != uid || b != blockId) ==> Recorded(r.value, u, b) == Recorded(users, u, b))
  {
    hide RemoveFromList, ListIn, Shortened, BlocksOnce;
    if users != [] {
      UsersTail(users);
      assert BlocksOnce(users[0].blocks);
      if users[0].uid == uid {
        RemovalInList(users[0].blocks, blockId, domain, b);
        var r := RemoveFromList(users[0].blocks, blockId, domain);
        if r.Some? {
          NothingListed(blockId);
          NothingListed(b);
          assert ([UserEntry(uid, r.value)] + users[1..])[1..] == users[1..];
          assert [] + users[1..] == users[1..];
        }
      } else {
        RemovalInUsers(users[1..], uid, blockId, domain, u, b);
        var r := RemoveFromUsers(users[1..], uid, blockId, domain);
        if r.Some? { assert ([users[0]] + r.value)[1..] == r.value; }
      }
    }
  }

  lemma NothingListed(id: string)
    ensures ListIn([], id).None?
  {
  }

  /**
   * In every document a removal succeeds exactly where the domain is recorded for that account and block; it takes one
   * occurrence out of that list, an empty list disappears, and every other recorded list stays.
   */
  lemma RemovalTakesOne(s: UserState, uid: nat, blockId: string, domain: string)
    requires Dictionary(s.users)
    ensures var key := CanonicalJson.NatText(uid);
            var before, after := Recorded(s.users, key, blockId), WithoutAddition(s, uid, blockId, domain);
            && (after.Some? <==> before.Some? && domain in before.value)
            && (after.Some? ==>
                && Shortened(before.value, Recorded(after.value.users, key, blockId), domain)
                && forall u, b :: u != key || b != blockId ==> Recorded(after.value.users, u, b) == Recorded(s.users, u, b))
  {
    hide RemoveFromUsers, Recorded, Shortened, Dictionary;
    var key := CanonicalJson.NatText(uid);
    RemovalInUsers(s.users, key, blockId, domain, "", "");
    var after := WithoutAddition(s, uid, blockId, domain);
    if after.Some? {
      forall u, b | u != key || b != blockId ensures Recorded(after.value.users, u, b) == Recorded(s.users, u, b) {
        RemovalInUsers(s.users, key, blockId, domain, u, b);
      }
    }
  }

  // ---- What one addition changes ----

  /** The recorded list with the domain in sorted order; a missing one is started. */
  ghost predicate Lengthened(before: Option<seq<string>>, after: Option<seq<string>>, domain: string) {
    && after.Some? && (before.Some? ==> TextOrder.Sorted(after.value))
    && multiset(after.value) == multiset(if before.Some? then before.value else []) + multiset{domain}
  }

  lemma {:induction false} AdditionInList(blocks: seq<Addition>, blockId: string, domain: string, other: string)
    ensures var r := AddToList(blocks, blockId, domain);
            && Lengthened(ListIn(blocks, blockId), ListIn(r, blockId), domain)
            && (other != blockId ==> ListIn(r, other) == ListIn(blocks, other))
  {
    hide TextOrder.Sort, TextOrder.Sorted;
    if blocks == [] {
      assert [Addition(blockId, [domain])][1..] == [];
    } else if blocks[0].blockId == blockId {
      TextOrder.SortSorted(blocks[0].domains + [domain]);
      var r := AddToList(blocks, blockId, domain);
      assert r[1..] == blocks[1..];
    } else {
      AdditionInList(blocks[1..], blockId, domain, other);
      assert AddToList(blocks, blockId, domain)[1..] == AddToList(blocks[1..], blockId, domain);
    }
  }

  lemma {:induction false} AdditionInUsers(users: seq<UserEntry>, uid: string, blockId: string, domain: string, u: string, b: string)
    ensures var r := AddToUsers(users, uid, blockId, domain);
            && Lengthened(Recorded(users, uid, blockId), Recorded(r, uid, blockId), domain)
            && (u != uid || b != blockId ==> Recorded(r, u, b) == Recorded(users, u, b))
  {
    hide AddToList, ListIn, Lengthened;
    if users == [] {
      AdditionInList([], blockId, domain, b);
      NothingListed(blockId);
      NothingListed(b);
      assert AddToList([], blockId, domain) == [Addition(blockId, [domain])] by { StartedList(blockId, domain); }
      assert [UserEntry(uid, [Addition(blockId, [domain])])][1..] == [];
    } else if users[0].uid == uid {
      AdditionInList(users[0].blocks, blockId, domain, b);
      assert AddToUsers(users, uid, blockId, domain)[1..] == users[1..];
    } else {
      AdditionInUsers(users[1..], uid, blockId, domain, u, b);
      assert AddToUsers(users, uid, blockId, domain)[1..] == AddToUsers(users[1..], uid, blockId, domain);
    }
  }

  lemma StartedList(blockId: string, domain: string)
    ensures AddToList([], blockId, domain) == [Addition(blockId, [domain])]
  {
  }

  /** An addition puts one domain into the list of that account and block, and leaves every other recorded list. */
  lemma AdditionRecordsOne(s: UserState, uid: nat, blockId: string, domain: string, u: string, b: string)
    ensures var key, after := CanonicalJson.NatText(uid), WithAddition(s, uid, blockId, domain);
            && Lengthened(Recorded(s.users, key, blockId), Recorded(after.users, key, blockId), domain)
            && (u != key || b != blockId ==> Recorded(after.users, u, b) == Recorded(s.users, u, b))
  {
    hide AddToUsers, Recorded, Lengthened;
    AdditionInUsers(s.users, CanonicalJson.NatText(uid), blockId, domain, u, b);
  }

  // ---- When an addition keeps within the limits ----

  lemma {:induction false} NatTextIsUid(n: nat)
    ensures var text := CanonicalJson.NatText(n);
            text != "" && (forall i :: 0 <= i < |text| ==> IsDigit(text[i])) && (UidText(text) <==> n > 0)
  {
    if n >= 10 {
      NatTextIsUid(n / 10);
      var front := CanonicalJson.NatText(n / 10);
      var k :| 0 <= k < |front| && front[k] != '0';
      assert CanonicalJson.NatText(n)[k] != '0';
    } else {
      assert CanonicalJson.NatText(n)[0] == CanonicalJson.Digit(n);
    }
  }

  lemma ListWithOneMore(domains: seq<string>, domain: string, id: string, lib: Libraries)
    requires ValidAddition(Addition(id, domains), lib) && ValidDomain(domain, lib)
    ensures ValidAddition(Addition(id, TextOrder.Sort(domains + [domain])), lib) <==> domain !in domains
  {
    hide BlockIdText, ValidDomain, TextOrder.Sort;
    var more := domains + [domain];
    var sorted := TextOrder.Sort(more);
    TextOrder.SortSorted(more);
    TextOrder.SameMultisetSameMembers(sorted, more);
    if domain in domains {
      var i :| 0 <= i < |domains| && domains[i] == domain;
      assert more[i] == more[|domains|];
      if Distinct(sorted) { PermutationDistinct(sorted, more); }
    } else {
      PermutationDistinct(more, sorted);
      forall i | 0 <= i < |sorted| ensures ValidDomain(sorted[i], lib) {
        assert sorted[i] in more;
      }
    }
  }

  lemma NoList(lib: Libraries)
    ensures ValidList([], lib)
  {
  }

  predicate ValidList(blocks: seq<Addition>, lib: Libraries) {
    forall i :: 0 <= i < |blocks| ==> ValidAddition(blocks[i], lib)
  }

  lemma {:induction false} ListFits(blocks: seq<Addition>, id: string, domain: string, lib: Libraries)
    requires ValidList(blocks, lib) && BlockIdText(id) && ValidDomain(domain, lib)
    ensures ValidList(AddToList(blocks, id, domain), lib) <==> ListIn(blocks, id).Some? ==> domain !in ListIn(blocks, id).value
  {
    hide BlockIdText, ValidDomain, TextOrder.Sort, ValidAddition;
    var r := AddToList(blocks, id, domain);
    if blocks == [] {
      OneDomain(id, domain, lib);
    } else {
      assert blocks == [blocks[0]] + blocks[1..] && r == [r[0]] + r[1..];
      ConsList(blocks[0], blocks[1..], lib);
      ConsList(r[0], r[1..], lib);
      if blocks[0].blockId == id {
        assert blocks[0] == Addition(id, blocks[0].domains);
        ListWithOneMore(blocks[0].domains, domain, id, lib);
        assert r[1..] == blocks[1..];
      } else {
        ListFits(blocks[1..], id, domain, lib);
        assert r[1..] == AddToList(blocks[1..], id, domain);
      }
    }
  }

  lemma OneDomain(id: string, domain: string, lib: Libraries)
    requires BlockIdText(id) && ValidDomain(domain, lib)
    ensures ValidAddition(Addition(id, [domain]), lib) && DomainTotal([Addition(id, [domain])]) == 1
  {
    hide BlockIdText, ValidDomain;
    assert DomainTotal([Addition(id, [domain])][1..]) == 0;
  }

  lemma ConsList(a: Addition, rest: seq<Addition>, lib: Libraries)
    ensures ValidList([a] + rest, lib) <==> ValidAddition(a, lib) && ValidList(rest, lib)
  {
    hide ValidAddition;
    assert ([a] + rest)[0] == a;
    forall i | 0 <= i < |rest| ensures ([a] + rest)[i + 1] == rest[i] {}
  }

  /** How many domains the account has recorded. */
  function OwnTotal(users: seq<UserEntry>, uid: string): nat {
    if users == [] then 0 else if users[0].uid == uid then DomainTotal(users[0].blocks) else OwnTotal(users[1..], uid)
  }

  predicate ValidEntries(users: seq<UserEntry>, lib: Libraries) {
    forall i :: 0 <= i < |users| ==> ValidEntry(users[i], lib)
  }

  lemma ConsEntry(u: UserEntry, rest: seq<UserEntry>, lib: Libraries)
    ensures ValidEntries([u] + rest, lib) <==> ValidEntry(u, lib) && ValidEntries(rest, lib)
  {
    hide ValidEntry;
    assert ([u] + rest)[0] == u;
    forall i | 0 <= i < |rest| ensures ([u] + rest)[i + 1] == rest[i] {}
  }

  lemma EntryExactly(u: UserEntry, lib: Libraries)
    ensures ValidEntry(u, lib) <==> UidText(u.uid) && ValidList(u.blocks, lib) && DomainTotal(u.blocks) <= 2000
  {
    hide ValidAddition, UidText;
  }

  predicate Fits(users: seq<UserEntry>, uid: string, id: string, domain: string) {
    && OwnTotal(users, uid) < 2000
    && (Recorded(users, uid, id).Some? ==> domain !in Recorded(users, uid, id).value)
  }

  lemma {:induction false} EntriesFit(users: seq<UserEntry>, uid: string, id: string, domain: string, lib: Libraries)
    requires ValidEntries(users, lib) && UidText(uid) && BlockIdText(id) && ValidDomain(domain, lib)
    ensures ValidEntries(AddToUsers(users, uid, id, domain), lib) <==> Fits(users, uid, id, domain)
  {
    hide BlockIdText, ValidDomain, UidText, ValidEntry, ValidList, AddToList, ListIn;
    var r := AddToUsers(users, uid, id, domain);
    if users == [] {
      OneDomain(id, domain, lib);
      EntryExactly(r[0], lib);
      ConsList(Addition(id, [domain]), [], lib);
      NoList(lib);
      assert [Addition(id, [domain])] + [] == [Addition(id, [domain])] && [r[0]] + [] == r;
      ConsEntry(r[0], [], lib);
    } else {
      assert users == [users[0]] + users[1..] && r == [r[0]] + r[1..];
      ConsEntry(users[0], users[1..], lib);
      ConsEntry(r[0], r[1..], lib);
      if users[0].uid == uid {
        EntryExactly(users[0], lib);
        EntryExactly(r[0], lib);
        ListFits(users[0].blocks, id, domain, lib);
        ListGrows(users[0].blocks, id, domain);
        assert r[1..] == users[1..];
      } else {
        EntriesFit(users[1..], uid, id, domain, lib);
        assert r[1..] == AddToUsers(users[1..], uid, id, domain);
      }
    }
  }

  /**
   * One more valid domain keeps a valid document valid exactly when the account is not root's, has it not recorded for that
   * block, has fewer than 2000 domains, and all accounts together fewer than 10000.
   */
  lemma AdditionFits(s: UserState, uid: nat, id: string, domain: string, lib: Libraries)
    requires ValidUsers(s, lib) && BlockIdText(id) && ValidDomain(domain, lib)
    ensures ValidUsers(WithAddition(s, uid, id, domain), lib) <==>
            uid > 0 && Fits(s.users, CanonicalJson.NatText(uid), id, domain) && DomainTotal(Additions(s.users)) < 10000
  {
    hide BlockIdText, ValidDomain, UidText, ValidEntry, AddToUsers, Fits;
    var key := CanonicalJson.NatText(uid);
    NatTextIsUid(uid);
    UsersGrow(s.users, key, id, domain);
    if uid > 0 { EntriesFit(s.users, key, id, domain, lib); } else { RootHasNone(s.users, key, id, domain, lib); }
  }

  lemma {:induction false} RootHasNone(users: seq<UserEntry>, uid: string, id: string, domain: string, lib: Libraries)
    requires !UidText(uid)
    ensures !ValidEntries(AddToUsers(users, uid, id, domain), lib)
  {
    hide ValidAddition, UidText, AddToList;
    var r := AddToUsers(users, uid, id, domain);
    assert r == [r[0]] + r[1..];
    ConsEntry(r[0], r[1..], lib);
    if users != [] && users[0].uid != uid {
      RootHasNone(users[1..], uid, id, domain, lib);
      assert r[1..] == AddToUsers(users[1..], uid, id, domain);
    }
  }
}
