/** Staging a new order in the draft: sorted and moved lists share the draft's block objects. */
module OrderDraft {
  import opened Basics
  import opened TextOrder
  import opened Rules
  import opened Ordering

  class DraftBlock {
    var value: RuleBlock

    constructor (value: RuleBlock)
      ensures this.value == value
    {
      this.value := value;
    }
  }

  function Values(refs: seq<DraftBlock>): (r: seq<RuleBlock>)
    reads refs
    ensures |r| == |refs|
    ensures forall k :: 0 <= k < |refs| ==> r[k] == refs[k].value
  {
    if refs == [] then [] else [refs[0].value] + Values(refs[1..])
  }

  /** Block ids are unique in the draft, as the rule validator demands of the rules it came from. */
  predicate UniqueIds(refs: seq<DraftBlock>)
    reads refs
  {
    forall i, j :: 0 <= i < j < |refs| ==> refs[i].value.id != refs[j].value.id
  }

  lemma {:induction false} ValuesOfPick(refs: seq<DraftBlock>, order: seq<int>)
    requires forall k :: 0 <= k < |order| ==> 0 <= order[k] < |refs|
    ensures Values(Pick(refs, order)) == Pick(Values(refs), order)
  {
  }

  /** Which element of the list lands at position `k` of the moved list. */
  function SourceIndex(from: nat, to: nat, k: nat): nat {
    if k == to then from
    else
      var j := if k < to then k else k - 1;
      if j < from then j else j + 1
  }

  lemma MovedAt<T>(s: seq<T>, from: nat, to: nat, k: nat)
    requires from < |s| && to < |s| && k < |s|
    ensures |MoveElement(s, from, to)| == |s| && SourceIndex(from, to, k) < |s|
    ensures MoveElement(s, from, to)[k] == s[SourceIndex(from, to, k)]
  {
  }

  lemma ValuesOfElement(refs: seq<DraftBlock>, from: nat, to: nat)
    requires from < |refs| && to < |refs|
    ensures Values(MoveElement(refs, from, to)) == MoveElement(Values(refs), from, to)
  {
    hide MoveElement, SourceIndex, Values;
    forall k | 0 <= k < |refs|
      ensures |MoveElement(refs, from, to)| == |MoveElement(Values(refs), from, to)| == |refs|
      ensures MoveElement(refs, from, to)[k].value == MoveElement(Values(refs), from, to)[k]
    {
      MovedAt(refs, from, to, k);
      MovedAt(Values(refs), from, to, k);
    }
    MovedAt(refs, from, to, 0);
    MovedAt(Values(refs), from, to, 0);
  }

  lemma ValuesOfMove(refs: seq<DraftBlock>, from: int, to: int)
    requires -1 <= from < |refs| && (from >= 0 ==> 0 <= to < |refs|)
    ensures Values(MoveOrdered(refs, from, to)) == MoveOrdered(Values(refs), from, to)
  {
    hide MoveElement, Values;
    if from >= 0 && from != to { ValuesOfElement(refs, from, to); }
  }

  lemma MovePermutes<T>(items: seq<T>, from: int, to: int)
    requires -1 <= from < |items| && (from >= 0 ==> 0 <= to < |items|)
    ensures multiset(MoveOrdered(items, from, to)) == multiset(items)
  {
    if from >= 0 { MovedElement(items, from, to); }
  }

  /** The draft's objects in display order with one of them moved. */
  function OrderedRefs(refs: seq<DraftBlock>, id: string, offset: int): seq<DraftBlock>
    reads refs
  {
    var sorted := Pick(refs, DisplayOrder(Values(refs)));
    var from := FindIndex(Values(sorted), id);
    MoveOrdered(sorted, from, MoveTarget(Values(sorted), from, offset))
  }

  lemma OrderedRefsMean(refs: seq<DraftBlock>, id: string, offset: int)
    ensures Values(OrderedRefs(refs, id, offset)) == MoveBlock(Values(refs), id, offset)
    ensures multiset(OrderedRefs(refs, id, offset)) == multiset(refs)
  {
    var order := DisplayOrder(Values(refs));
    var sorted := Pick(refs, order);
    ValuesOfPick(refs, order);
    var from := FindIndex(Values(sorted), id);
    ValuesOfMove(sorted, from, MoveTarget(Values(sorted), from, offset));
    PickPermutes(refs, |refs|, order);
    assert refs[..|refs|] == refs;
    MovePermutes(sorted, from, MoveTarget(Values(sorted), from, offset));
  }

  lemma UniqueIdsPermuted(a: seq<DraftBlock>, b: seq<DraftBlock>)
    requires UniqueIds(a) && multiset(a) == multiset(b)
    ensures UniqueIds(b) && forall k :: 0 <= k < |b| ==> b[k] in a
  {
    SameMultisetSameMembers(a, b);
    assert Distinct(a);
    PermutationDistinct(a, b);
    forall i, j | 0 <= i < j < |b| ensures b[i].value.id != b[j].value.id {
      assert b[i] in a && b[j] in a;
      var p :| 0 <= p < |a| && a[p] == b[i];
      var q :| 0 <= q < |a| && a[q] == b[j];
      assert p != q;
    }
  }

  /** Position `k` is the first one whose block has the id. */
  predicate FirstWithId(refs: seq<DraftBlock>, k: int, id: string)
    reads refs
  {
    0 <= k < |refs| && refs[k].value.id == id && forall j :: 0 <= j < k ==> refs[j].value.id != id
  }

  class Draft {
    var blocks: seq<DraftBlock>

    constructor (blocks: seq<DraftBlock>)
      ensures this.blocks == blocks
    {
      this.blocks := blocks;
    }

    /** `find`: the first block object with the id. */
    method Find(id: string) returns (found: DraftBlock)
      requires exists k :: 0 <= k < |blocks| && blocks[k].value.id == id
      ensures exists k :: 0 <= k < |blocks| && blocks[k] == found && FirstWithId(blocks, k, id)
    {
      var k := 0;
      while blocks[k].value.id != id
        invariant 0 <= k < |blocks|
        invariant forall j :: 0 <= j < k ==> blocks[j].value.id != id
        decreases |blocks| - k
      {
        k := k + 1;
      }
      found := blocks[k];
    }

    /** With unique ids the lookup returns the very object the id came from. */
    method FindSame(ghost b: DraftBlock, id: string) returns (found: DraftBlock)
      requires UniqueIds(blocks) && b in blocks && b.value.id == id
      ensures found == b
    {
      ghost var w :| 0 <= w < |blocks| && blocks[w] == b;
      found := Find(id);
      ghost var v :| 0 <= v < |blocks| && blocks[v] == found && FirstWithId(blocks, v, id);
    }

    /** Gives each listed id its new priority, looking the block up by id; the other blocks of the draft stay as they are. */
    method WritePriorities(list: seq<(string, int)>, ghost ordered: seq<DraftBlock>)
      requires UniqueIds(blocks) && UniqueIds(ordered) && |list| == |ordered|
      requires forall k :: 0 <= k < |list| ==> ordered[k] in blocks && list[k].0 == ordered[k].value.id
      modifies blocks
      ensures Values(ordered) == Reprioritized(old(Values(ordered)), list) && UniqueIds(blocks) && UniqueIds(ordered)
      ensures forall b :: b in blocks && b !in ordered ==> b.value == old(b.value)
    {
      hide Values;
      ghost var before := Values(ordered);
      for k := 0 to |list|
        invariant UniqueIds(blocks) && UniqueIds(ordered)
        invariant forall j :: 0 <= j < k ==> ordered[j].value == before[j].(priority := list[j].1)
        invariant forall j :: k <= j < |list| ==> ordered[j].value == before[j]
        invariant forall b :: b in blocks && b !in ordered ==> b.value == old(b.value)
      {
        assert ordered[k] in blocks;
        var target := FindSame(ordered[k], list[k].0);
        target.value := target.value.(priority := list[k].1);
      }
    }

    /** The display order with one block moved, on the draft's own objects. */
    method Reordered(id: string, offset: int) returns (ordered: seq<DraftBlock>)
      requires UniqueIds(blocks)
      ensures Values(ordered) == MoveBlock(Values(blocks), id, offset)
      ensures multiset(ordered) == multiset(blocks) && UniqueIds(ordered)
      ensures forall k :: 0 <= k < |ordered| ==> ordered[k] in blocks
    {
      OrderedRefsMean(blocks, id, offset);
      ordered := OrderedRefs(blocks, id, offset);
      UniqueIdsPermuted(blocks, ordered);
    }

    /** Moves one block and writes the new priorities through the shared objects. */
    method StageOrder(id: string, offset: int) returns (r: Result<(), OrderError>)
      requires UniqueIds(blocks)
      modifies this, blocks
      ensures match Staged(old(Values(blocks)), id, offset)
              case Ok(staged) => r.Ok? && Values(blocks) == staged
              case Err(e) => r == Err(e) && blocks == old(blocks) && Values(blocks) == old(Values(blocks))
      ensures multiset(blocks) == multiset(old(blocks)) && UniqueIds(blocks)
    {
      hide MoveBlock, Reprioritized, Values, UniqueIds;
      ghost var moved := MoveBlock(Values(blocks), id, offset);
      var ordered := Reordered(id, offset);
      var list := PrioritiesForOrder(Values(ordered));
      if list.Err? { return Err(list.error); }
      WritePriorities(list.value, ordered);
      assert Values(ordered) == Reprioritized(moved, list.value);
      blocks := ordered;
      return Ok(());
    }
  }
}
