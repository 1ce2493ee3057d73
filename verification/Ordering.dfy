/** The options page's block order: stable sorting, moving one block, and reassigning priorities. */
module Ordering {
  import opened Basics
  import opened MatchPattern
  import opened Rules
  import opened Evaluation

  const MAX_ORDERED := 2001

  datatype OrderError = TooManyBlocks

  /** Block `i` is listed before block `j`: higher priority, earlier position at equal priority. */
  predicate Before(blocks: seq<RuleBlock>, i: int, j: int) {
    && 0 <= i < |blocks| && 0 <= j < |blocks|
    && (blocks[i].priority > blocks[j].priority || (blocks[i].priority == blocks[j].priority && i < j))
  }

  function InsertIndex(blocks: seq<RuleBlock>, i: int, s: seq<int>): seq<int> {
    if s == [] || Before(blocks, i, s[0]) then [i] + s else [s[0]] + InsertIndex(blocks, i, s[1..])
  }

  /** The first `n` positions in display order. */
  function Order(blocks: seq<RuleBlock>, n: nat): seq<int>
    requires n <= |blocks|
  {
    if n == 0 then [] else InsertIndex(blocks, n - 1, Order(blocks, n - 1))
  }

  /** Exactly the positions below `n`, each listed before all later ones. */
  ghost predicate IsOrder(blocks: seq<RuleBlock>, n: nat, s: seq<int>) {
    && |s| == n
    && (forall i :: i in s <==> 0 <= i < n)
    && (forall k, m :: 0 <= k < m < |s| ==> Before(blocks, s[k], s[m]))
  }

  predicate Chain(blocks: seq<RuleBlock>, s: seq<int>) {
    forall k, m :: 0 <= k < m < |s| ==> Before(blocks, s[k], s[m])
  }

  lemma {:induction false} InsertKeepsOrder(blocks: seq<RuleBlock>, i: int, s: seq<int>)
    requires 0 <= i < |blocks| && Chain(blocks, s)
    requires forall j :: j in s ==> 0 <= j < i
    ensures var r := InsertIndex(blocks, i, s);
            |r| == |s| + 1 && Chain(blocks, r) && forall j :: j in r <==> j in s || j == i
  {
    if s != [] {
      if Before(blocks, i, s[0]) {
        forall m | 0 <= m < |s| ensures Before(blocks, i, s[m]) {
          if m > 0 { assert Before(blocks, s[0], s[m]); }
        }
      } else {
        var rest := InsertIndex(blocks, i, s[1..]);
        assert forall j :: j in s <==> j == s[0] || j in s[1..];
        InsertKeepsOrder(blocks, i, s[1..]);
        assert s[0] in s;
        forall m | 0 <= m < |rest| ensures Before(blocks, s[0], rest[m]) {
          assert rest[m] in rest;
          if rest[m] != i {
            var q :| 0 <= q < |s| - 1 && s[1..][q] == rest[m];
            assert Before(blocks, s[0], s[q + 1]);
          }
        }
      }
    }
  }

  lemma {:induction false} OrderIsOrder(blocks: seq<RuleBlock>, n: nat)
    requires n <= |blocks|
    ensures IsOrder(blocks, n, Order(blocks, n))
  {
    if n > 0 {
      OrderIsOrder(blocks, n - 1);
      InsertKeepsOrder(blocks, n - 1, Order(blocks, n - 1));
    }
  }

  /** Any list of the positions in display order is the sorted one. */
  lemma OrderUnique(blocks: seq<RuleBlock>, s: seq<int>)
    requires IsOrder(blocks, |blocks|, s)
    ensures s == Order(blocks, |blocks|)
  {
    OrderIsOrder(blocks, |blocks|);
    ChainsEqual(blocks, s, Order(blocks, |blocks|));
  }

  lemma {:induction false} ChainsEqual(blocks: seq<RuleBlock>, s: seq<int>, t: seq<int>)
    requires Chain(blocks, s) && Chain(blocks, t) && |s| == |t|
    requires forall i :: i in s <==> i in t
    ensures s == t
  {
    if s != [] {
      assert s[0] in s && t[0] in t;
      var p :| 0 <= p < |t| && t[p] == s[0];
      var q :| 0 <= q < |s| && s[q] == t[0];
      HeadsEqual(blocks, s, t, p, q);
      forall i ensures i in s[1..] <==> i in t[1..] {
        TailMembers(blocks, s, i);
        TailMembers(blocks, t, i);
      }
      ChainsEqual(blocks, s[1..], t[1..]);
      assert s == [s[0]] + s[1..] && t == [t[0]] + t[1..];
    }
  }

  lemma HeadsEqual(blocks: seq<RuleBlock>, s: seq<int>, t: seq<int>, p: nat, q: nat)
    requires Chain(blocks, s) && Chain(blocks, t) && p < |t| && q < |s| && t[p] == s[0] && s[q] == t[0]
    ensures s[0] == t[0]
  {
  }

  lemma TailMembers(blocks: seq<RuleBlock>, s: seq<int>, i: int)
    requires Chain(blocks, s) && s != []
    ensures i in s[1..] <==> i in s && i != s[0]
  {
    forall k | 0 < k < |s| ensures s[k] != s[0] {
      assert Before(blocks, s[0], s[k]);
    }
  }

  function Pick<T>(items: seq<T>, order: seq<int>): (r: seq<T>)
    requires forall k :: 0 <= k < |order| ==> 0 <= order[k] < |items|
    ensures |r| == |order|
    ensures forall k :: 0 <= k < |order| ==> r[k] == items[order[k]]
  {
    if order == [] then [] else [items[order[0]]] + Pick(items, order[1..])
  }

  function DisplayOrder(blocks: seq<RuleBlock>): (s: seq<int>)
    ensures IsOrder(blocks, |blocks|, s) && Distinct(s)
    ensures forall k :: 0 <= k < |s| ==> 0 <= s[k] < |blocks|
  {
    OrderIsOrder(blocks, |blocks|);
    var s := Order(blocks, |blocks|);
    assert forall k :: 0 <= k < |s| ==> s[k] in s;
    assert forall k, m :: 0 <= k < m < |s| ==> Before(blocks, s[k], s[m]);
    s
  }

  function SortedBlocks(blocks: seq<RuleBlock>): (r: seq<RuleBlock>)
    ensures |r| == |blocks|
  {
    Pick(blocks, DisplayOrder(blocks))
  }

  /** A list whose priorities fall strictly is already in display order. */
  lemma SortedStays(blocks: seq<RuleBlock>)
    requires forall i, j :: 0 <= i < j < |blocks| ==> blocks[i].priority > blocks[j].priority
    ensures SortedBlocks(blocks) == blocks
  {
    var plain := seq(|blocks|, k => k as int);
    forall i ensures i in plain <==> 0 <= i < |blocks| {
      if 0 <= i < |blocks| { assert plain[i] == i; }
    }
    forall k, m | 0 <= k < m < |plain| ensures Before(blocks, plain[k], plain[m]) {
      assert plain[k] == k && plain[m] == m;
    }
    OrderUnique(blocks, plain);
    assert Pick(blocks, plain) == blocks;
  }

  // ---- Sorting is stable ----

  /** The blocks of one priority, in list order. */
  function AtPriority(blocks: seq<RuleBlock>, v: int): seq<RuleBlock> {
    if blocks == [] then []
    else AtPriority(blocks[..|blocks| - 1], v) + if blocks[|blocks| - 1].priority == v then [blocks[|blocks| - 1]] else []
  }

  predicate Positions(blocks: seq<RuleBlock>, s: seq<int>) {
    forall k :: 0 <= k < |s| ==> 0 <= s[k] < |blocks|
  }

  /** The same for the blocks at the listed positions, from the front. */
  function PickedAt(blocks: seq<RuleBlock>, s: seq<int>, v: int): seq<RuleBlock>
    requires Positions(blocks, s)
  {
    if s == [] then []
    else
      assert Positions(blocks, s[1..]) by { forall k | 0 <= k < |s| - 1 ensures 0 <= s[1..][k] < |blocks| { assert s[1..][k] == s[k + 1]; } }
      (if blocks[s[0]].priority == v then [blocks[s[0]]] else []) + PickedAt(blocks, s[1..], v)
  }

  lemma TailPositions(blocks: seq<RuleBlock>, s: seq<int>)
    requires s != [] && Positions(blocks, s)
    ensures Positions(blocks, s[1..])
  {
    forall k | 0 <= k < |s| - 1 ensures 0 <= s[1..][k] < |blocks| { assert s[1..][k] == s[k + 1]; }
  }

  /** All of lower priority: nothing is picked. */
  lemma {:induction false} NonePicked(blocks: seq<RuleBlock>, s: seq<int>, v: int)
    requires Positions(blocks, s) && forall k :: 0 <= k < |s| ==> blocks[s[k]].priority != v
    ensures PickedAt(blocks, s, v) == []
  {
    if s != [] {
      TailPositions(blocks, s);
      forall k | 0 <= k < |s| - 1 ensures blocks[s[1..][k]].priority != v { assert s[1..][k] == s[k + 1]; }
      NonePicked(blocks, s[1..], v);
    }
  }

  /** Inserting a later block puts it behind the earlier ones of its priority. */
  lemma {:induction false} InsertIsStable(blocks: seq<RuleBlock>, i: int, s: seq<int>, v: int)
    requires 0 <= i < |blocks| && Positions(blocks, s) && Chain(blocks, s) && forall k :: 0 <= k < |s| ==> s[k] < i
    ensures Positions(blocks, InsertIndex(blocks, i, s))
    ensures PickedAt(blocks, InsertIndex(blocks, i, s), v) ==
            PickedAt(blocks, s, v) + if blocks[i].priority == v then [blocks[i]] else []
  {
    var r := InsertIndex(blocks, i, s);
    if s == [] || Before(blocks, i, s[0]) {
      assert r == [i] + s && r[1..] == s;
      if blocks[i].priority == v {
        forall k | 0 <= k < |s| ensures blocks[s[k]].priority != v {
          if k > 0 { assert Before(blocks, s[0], s[k]); }
        }
        NonePicked(blocks, s, v);
      }
    } else {
      TailPositions(blocks, s);
      forall k, m | 0 <= k < m < |s| - 1 ensures Before(blocks, s[1..][k], s[1..][m]) {
        assert s[1..][k] == s[k + 1] && s[1..][m] == s[m + 1] && Before(blocks, s[k + 1], s[m + 1]);
      }
      forall k | 0 <= k < |s| - 1 ensures s[1..][k] < i { assert s[1..][k] == s[k + 1]; }
      InsertIsStable(blocks, i, s[1..], v);
      assert r == [s[0]] + InsertIndex(blocks, i, s[1..]) && r[1..] == InsertIndex(blocks, i, s[1..]);
    }
  }

  lemma {:induction false} OrderIsStable(blocks: seq<RuleBlock>, n: nat, v: int)
    requires n <= |blocks|
    ensures Positions(blocks, Order(blocks, n)) && PickedAt(blocks, Order(blocks, n), v) == AtPriority(blocks[..n], v)
  {
    if n > 0 {
      OrderIsStable(blocks, n - 1, v);
      OrderIsOrder(blocks, n - 1);
      var s := Order(blocks, n - 1);
      forall k | 0 <= k < |s| ensures s[k] < n - 1 { assert s[k] in s; }
      InsertIsStable(blocks, n - 1, s, v);
      assert blocks[..n][..n - 1] == blocks[..n - 1] && blocks[..n][n - 1] == blocks[n - 1];
    }
  }

  lemma {:induction false} AtPriorityFront(b: RuleBlock, rest: seq<RuleBlock>, v: int)
    ensures AtPriority([b] + rest, v) == (if b.priority == v then [b] else []) + AtPriority(rest, v)
    decreases |rest|
  {
    if rest == [] {
      assert [b] + rest == [b] && [b][..0] == [];
    } else {
      var init := rest[..|rest| - 1];
      assert ([b] + rest)[..|rest|] == [b] + init;
      AtPriorityFront(b, init, v);
    }
  }

  lemma {:induction false} PickedIsAtPriority(blocks: seq<RuleBlock>, s: seq<int>, v: int)
    requires Positions(blocks, s)
    ensures PickedAt(blocks, s, v) == AtPriority(Pick(blocks, s), v)
  {
    if s != [] {
      TailPositions(blocks, s);
      PickedIsAtPriority(blocks, s[1..], v);
      AtPriorityFront(blocks[s[0]], Pick(blocks, s[1..]), v);
    }
  }

  /** Sorting is by falling priority and keeps the order of blocks of equal priority, as the options page needs. */
  lemma SortedIsStable(blocks: seq<RuleBlock>, v: int)
    ensures forall i, j :: 0 <= i < j < |blocks| ==> SortedBlocks(blocks)[i].priority >= SortedBlocks(blocks)[j].priority
    ensures AtPriority(SortedBlocks(blocks), v) == AtPriority(blocks, v)
  {
    hide Order, AtPriority, PickedAt;
    var s := DisplayOrder(blocks);
    assert s == Order(blocks, |blocks|) by { OrderUnique(blocks, s); }
    OrderIsStable(blocks, |blocks|, v);
    PickedIsAtPriority(blocks, s, v);
    assert blocks[..|blocks|] == blocks;
    forall i, j | 0 <= i < j < |blocks| ensures SortedBlocks(blocks)[i].priority >= SortedBlocks(blocks)[j].priority {
      assert Before(blocks, s[i], s[j]);
    }
  }

  // ---- Moving one block ----

  /** `findIndex`: the position of the first block with the id, or -1. */
  function FindIndex(blocks: seq<RuleBlock>, id: string): (i: int)
    ensures -1 <= i < |blocks|
    ensures i >= 0 ==> blocks[i].id == id
    ensures forall k :: 0 <= k < (if i < 0 then |blocks| else i) ==> blocks[k].id != id
  {
    match FindBlock(blocks, id) case None => -1 case Some(i) => i
  }

  function Clamp(position: int, count: nat): int {
    var low := if position < count - 1 then position else count - 1;
    if low > 0 then low else 0
  }

  function Without<T>(s: seq<T>, i: nat): seq<T>
    requires i < |s|
  {
    s[..i] + s[i + 1..]
  }

  function MoveElement<T>(s: seq<T>, from: nat, to: nat): seq<T>
    requires from < |s| && to < |s|
  {
    var rest := Without(s, from);
    rest[..to] + [s[from]] + rest[to..]
  }

  /** Where the block with the id ends up after moving by `offset`. */
  function MoveTarget(ordered: seq<RuleBlock>, from: int, offset: int): int {
    Clamp(from + offset, |ordered|)
  }

  function MoveOrdered<T>(items: seq<T>, from: int, to: int): seq<T>
    requires -1 <= from < |items| && (from >= 0 ==> 0 <= to < |items|)
  {
    if from < 0 || from == to then items else MoveElement(items, from, to)
  }

  function MoveBlock(blocks: seq<RuleBlock>, id: string, offset: int): seq<RuleBlock> {
    var ordered := SortedBlocks(blocks);
    var from := FindIndex(ordered, id);
    MoveOrdered(ordered, from, MoveTarget(ordered, from, offset))
  }

  /** The two `splice` calls. */
  method MoveBlockInPlace(blocks: seq<RuleBlock>, id: string, offset: int) returns (ordered: seq<RuleBlock>)
    ensures ordered == MoveBlock(blocks, id, offset)
  {
    ordered := SortedBlocks(blocks);
    var from := FindIndex(ordered, id);
    var to := MoveTarget(ordered, from, offset);
    if from < 0 || from == to { return; }
    var moved := ordered[from];
    ordered := ordered[..from] + ordered[from + 1..];
    ordered := ordered[..to] + [moved] + ordered[to..];
  }

  lemma TakenOut<T>(s: seq<T>, i: nat)
    requires i < |s|
    ensures multiset(s) == multiset(Without(s, i)) + multiset{s[i]}
  {
    assert s == s[..i] + [s[i]] + s[i + 1..];
  }

  lemma MovedElement<T>(s: seq<T>, from: nat, to: nat)
    requires from < |s| && to < |s|
    ensures var moved := MoveElement(s, from, to);
            && |moved| == |s| && moved[to] == s[from]
            && Without(moved, to) == Without(s, from)
            && multiset(moved) == multiset(s)
  {
    var rest := Without(s, from);
    assert rest == rest[..to] + rest[to..];
    TakenOut(s, from);
    TakenOut(MoveElement(s, from, to), to);
    assert Without(MoveElement(s, from, to), to) == rest;
  }

  /**
   * With n blocks, the block at `from` ends up at `from + offset` where there is such a position, at the front where that is
   * negative and at the end where it is too large; all others keep their relative order.
   */
  lemma MoveExact(blocks: seq<RuleBlock>, id: string, offset: int)
    ensures var ordered, moved := SortedBlocks(blocks), MoveBlock(blocks, id, offset);
            var n, from := |ordered|, FindIndex(ordered, id);
            && |moved| == n && multiset(moved) == multiset(blocks)
            && (from < 0 ==> moved == ordered && forall b :: b in blocks ==> b.id != id)
            && (from >= 0 ==> ordered[from].id == id)
            && (from >= 0 && 0 <= from + offset < n ==> MovedTo(ordered, moved, from, from + offset))
            && (from >= 0 && from + offset < 0 ==> MovedTo(ordered, moved, from, 0))
            && (from >= 0 && from + offset >= n ==> MovedTo(ordered, moved, from, n - 1))
  {
    var ordered := SortedBlocks(blocks);
    var from := FindIndex(ordered, id);
    SortedPermutes(blocks);
    if from >= 0 {
      MovedElement(ordered, from, MoveTarget(ordered, from, offset));
    } else {
      forall b | b in blocks ensures b.id != id {
        assert b in multiset(blocks);
        assert b in ordered;
      }
    }
  }

  /** `moved` is `ordered` with the element at `from` taken out and put at `to`. */
  predicate MovedTo(ordered: seq<RuleBlock>, moved: seq<RuleBlock>, from: int, to: int) {
    && |moved| == |ordered| && 0 <= from < |ordered| && 0 <= to < |ordered|
    && moved[to] == ordered[from] && Without(moved, to) == Without(ordered, from)
  }

  lemma SortedPermutes(blocks: seq<RuleBlock>)
    ensures multiset(SortedBlocks(blocks)) == multiset(blocks)
  {
    var s := DisplayOrder(blocks);
    PickPermutes(blocks, |blocks|, s);
    assert blocks[..|blocks|] == blocks;
  }

  lemma PickConcat<T>(items: seq<T>, a: seq<int>, b: seq<int>)
    requires forall k :: 0 <= k < |a| ==> 0 <= a[k] < |items|
    requires forall k :: 0 <= k < |b| ==> 0 <= b[k] < |items|
    ensures forall k :: 0 <= k < |a + b| ==> 0 <= (a + b)[k] < |items|
    ensures Pick(items, a + b) == Pick(items, a) + Pick(items, b)
  {
    hide Pick;
    forall k | 0 <= k < |a + b| ensures 0 <= (a + b)[k] < |items| {
      assert (a + b)[k] == if k < |a| then a[k] else b[k - |a|];
    }
    assert Pick(items, a + b) == Pick(items, a) + Pick(items, b);
  }

  ghost predicate CoversOnce(n: nat, s: seq<int>) {
    |s| == n && Distinct(s) && forall i :: i in s <==> 0 <= i < n
  }

  /** Dropping the largest position leaves the smaller ones. */
  lemma DropLast(n: nat, s: seq<int>) returns (p: nat)
    requires n > 0 && CoversOnce(n, s)
    ensures p < n && s[p] == n - 1 && CoversOnce(n - 1, Without(s, p))
  {
    assert n - 1 in s;
    p :| 0 <= p < n && s[p] == n - 1;
    var rest := Without(s, p);
    forall q | 0 <= q < n - 1 ensures rest[q] == s[if q < p then q else q + 1] {}
    forall i ensures i in rest <==> 0 <= i < n - 1 {
      if i in rest {
        var q :| 0 <= q < |rest| && rest[q] == i;
        assert s[if q < p then q else q + 1] in s;
      }
      if 0 <= i < n - 1 {
        assert i in s;
        var q :| 0 <= q < n && s[q] == i;
        assert rest[if q < p then q else q - 1] == i;
      }
    }
  }

  lemma PickWithoutLast<T>(items: seq<T>, n: nat, s: seq<int>) returns (rest: seq<int>)
    requires 0 < n <= |items| && CoversOnce(n, s)
    requires forall k :: 0 <= k < |s| ==> 0 <= s[k] < |items|
    ensures CoversOnce(n - 1, rest)
    ensures forall k :: 0 <= k < |rest| ==> 0 <= rest[k] < |items|
    ensures multiset(Pick(items, s)) == multiset(Pick(items, rest)) + multiset{items[n - 1]}
  {
    var p := DropLast(n, s);
    rest := Without(s, p);
    PickTakenOut(items, s, p);
  }

  /** Picking every position once permutes the list. */
  lemma {:induction false} PickPermutes<T>(items: seq<T>, n: nat, s: seq<int>)
    requires n <= |items| && CoversOnce(n, s)
    requires forall k :: 0 <= k < |s| ==> 0 <= s[k] < |items|
    ensures multiset(Pick(items, s)) == multiset(items[..n])
  {
    if n > 0 {
      var rest := PickWithoutLast(items, n, s);
      PickPermutes(items, n - 1, rest);
      PrefixMultiset(items, n);
    } else {
      assert Pick(items, s) == items[..0] == [];
    }
  }

  lemma PrefixMultiset<T>(items: seq<T>, n: nat)
    requires 0 < n <= |items|
    ensures multiset(items[..n]) == multiset(items[..n - 1]) + multiset{items[n - 1]}
  {
    assert items[..n] == items[..n - 1] + [items[n - 1]];
  }

  lemma PickTakenOut<T>(items: seq<T>, s: seq<int>, p: nat)
    requires p < |s| && forall k :: 0 <= k < |s| ==> 0 <= s[k] < |items|
    ensures forall k :: 0 <= k < |Without(s, p)| ==> 0 <= Without(s, p)[k] < |items|
    ensures multiset(Pick(items, s)) == multiset(Pick(items, Without(s, p))) + multiset{items[s[p]]}
  {
    assert s == s[..p] + [s[p]] + s[p + 1..];
    PickOneMore(items, s[..p], s[p], s[p + 1..]);
  }

  lemma PickOneMore<T>(items: seq<T>, a: seq<int>, i: int, b: seq<int>)
    requires forall k :: 0 <= k < |a| ==> 0 <= a[k] < |items|
    requires forall k :: 0 <= k < |b| ==> 0 <= b[k] < |items|
    requires 0 <= i < |items|
    ensures forall k :: 0 <= k < |a + [i] + b| ==> 0 <= (a + [i] + b)[k] < |items|
    ensures forall k :: 0 <= k < |a + b| ==> 0 <= (a + b)[k] < |items|
    ensures multiset(Pick(items, a + [i] + b)) == multiset(Pick(items, a + b)) + multiset{items[i]}
  {
    PickConcat(items, a, b);
    PickAround(items, a, i, b);
  }

  lemma PickAround<T>(items: seq<T>, a: seq<int>, i: int, b: seq<int>)
    requires forall k :: 0 <= k < |a| ==> 0 <= a[k] < |items|
    requires forall k :: 0 <= k < |b| ==> 0 <= b[k] < |items|
    requires 0 <= i < |items|
    ensures forall k :: 0 <= k < |a + [i] + b| ==> 0 <= (a + [i] + b)[k] < |items|
    ensures Pick(items, a + [i] + b) == Pick(items, a) + [items[i]] + Pick(items, b)
  {
    hide Pick;
    PickConcat(items, [i], b);
    PickConcat(items, a, [i] + b);
    assert a + [i] + b == a + ([i] + b);
    assert Pick(items, [i]) == [items[i]];
  }

  // ---- Reassigning priorities ----

  /** The priority the k-th of n blocks receives. */
  function PriorityAt(n: nat, k: int): int {
    (n - 1) / 2 - k
  }

  function PrioritiesForOrder(blocks: seq<RuleBlock>): (r: Result<seq<(string, int)>, OrderError>)
    ensures r.Ok? ==> |r.value| == |blocks|
  {
    if |blocks| > MAX_ORDERED then Err(TooManyBlocks)
    else Ok(seq(|blocks|, k requires 0 <= k < |blocks| => (blocks[k].id, PriorityAt(|blocks|, k))))
  }

  /** The listed blocks with the listed priorities. */
  function Reprioritized(ordered: seq<RuleBlock>, list: seq<(string, int)>): (r: seq<RuleBlock>)
    requires |list| == |ordered|
    ensures |r| == |ordered|
  {
    seq(|ordered|, k requires 0 <= k < |ordered| => ordered[k].(priority := list[k].1))
  }

  /** The draft after staging a move: the moved order with fresh priorities. */
  function Staged(blocks: seq<RuleBlock>, id: string, offset: int): Result<seq<RuleBlock>, OrderError> {
    var ordered := MoveBlock(blocks, id, offset);
    match PrioritiesForOrder(ordered)
    case Err(e) => Err(e)
    case Ok(list) => Ok(Reprioritized(ordered, list))
  }

  /** The first matching block in list order decides; otherwise the default. */
  function FirstMatch(rules: RuleSet, from: nat, clock: Clock, url: Url, rx: RegexEngine): Action
    requires from <= |rules.blocks|
    decreases |rules.blocks| - from
  {
    if from == |rules.blocks| then rules.profile.defaultAction
    else if Matching(rules, from, clock, url, rx) then rules.blocks[from].action
    else FirstMatch(rules, from + 1, clock, url, rx)
  }

  predicate Falling(blocks: seq<RuleBlock>) {
    forall i, j :: 0 <= i < j < |blocks| ==> blocks[i].priority > blocks[j].priority
  }

  lemma {:induction false} FirstMatchDecides(rules: RuleSet, from: nat, clock: Clock, url: Url, rx: RegexEngine)
    requires from <= |rules.blocks| && Falling(rules.blocks)
    requires forall k :: 0 <= k < from ==> !Matching(rules, k, clock, url, rx)
    ensures FirstMatch(rules, from, clock, url, rx) == Verdict(rules, clock, url, rx)
    decreases |rules.blocks| - from
  {
    if from == |rules.blocks| {
      assert !exists i :: Matching(rules, i, clock, url, rx);
    } else if Matching(rules, from, clock, url, rx) {
      if rules.blocks[from].action == Block {
        assert DecidesBlock(rules, from, clock, url, rx);
      } else {
        forall i ensures !DecidesBlock(rules, i, clock, url, rx) {
          if Matching(rules, i, clock, url, rx) && i != from {
            assert rules.blocks[i].priority < rules.blocks[from].priority;
          }
        }
      }
    } else {
      FirstMatchDecides(rules, from + 1, clock, url, rx);
    }
  }

  lemma MovedLength(blocks: seq<RuleBlock>, id: string, offset: int)
    ensures |MoveBlock(blocks, id, offset)| == |blocks|
  {
    hide MoveBlock;
    MoveExact(blocks, id, offset);
  }

  /** Every staged list is a moved list with falling priorities within bounds. */
  lemma StagedShape(blocks: seq<RuleBlock>, id: string, offset: int)
    ensures Staged(blocks, id, offset).Ok? <==> |blocks| <= MAX_ORDERED
    ensures Staged(blocks, id, offset).Ok? ==>
            var staged := Staged(blocks, id, offset).value;
            Falling(staged) && forall k :: 0 <= k < |staged| ==> -1000 <= staged[k].priority <= 1000
  {
    hide MoveBlock;
    MovedLength(blocks, id, offset);
  }

  /** After staging, priorities fall strictly within bounds, sorting changes nothing, and list order decides. */
  lemma StagedOrderDecides(rules: RuleSet, id: string, offset: int, clock: Clock, url: Url, rx: RegexEngine)
    ensures Staged(rules.blocks, id, offset).Ok? <==> |rules.blocks| <= MAX_ORDERED
    ensures Staged(rules.blocks, id, offset).Ok? ==>
            var staged := Staged(rules.blocks, id, offset).value;
            && Falling(staged)
            && (forall k :: 0 <= k < |staged| ==> -1000 <= staged[k].priority <= 1000)
            && SortedBlocks(staged) == staged
            && Verdict(rules.(blocks := staged), clock, url, rx) == FirstMatch(rules.(blocks := staged), 0, clock, url, rx)
  {
    StagedShape(rules.blocks, id, offset);
    hide Staged, SortedBlocks, Verdict, FirstMatch, MoveBlock;
    if |rules.blocks| <= MAX_ORDERED {
      var staged := Staged(rules.blocks, id, offset).value;
      SortedStays(staged);
      FirstMatchDecides(rules.(blocks := staged), 0, clock, url, rx);
    }
  }
}
