/** The rule document: profile, prioritised blocks, their targets, exceptions and schedules. */
module Rules {
  import opened Basics
  import opened TimeWindows

  datatype Action = Allow | Block

  datatype UrlRegex = UrlRegex(pattern: string, caseSensitive: bool)

  datatype Matchers = Matchers(domains: seq<string>, urlPatterns: seq<string>, urlRegex: seq<UrlRegex>)

  /** What a restricted account may change; only `addDomains` may be true in format 1.0. */
  datatype Permissions = Permissions(
    addDomains: bool, removeDomains: bool, addUrlPatterns: bool, addUrlRegex: bool,
    modifyExceptions: bool, modifySchedule: bool, disableBlock: bool)

  datatype RuleBlock = RuleBlock(
    id: string, name: string, enabled: bool, priority: int, action: Action, permissions: Permissions,
    targets: Matchers, exceptions: Matchers, schedule: Option<Schedule>)

  datatype Profile = Profile(timezone: string, defaultAction: Action, conflictPolicy: string)

  datatype RuleSet = RuleSet(schema: Option<string>, formatVersion: string, profile: Profile, blocks: seq<RuleBlock>)

  const FORMAT_VERSION := "1.0"
  const CONFLICT_POLICY := "priority_then_deny"
  const MAX_BLOCKS := 1000
  const MAX_DYNAMIC_RULES := 5000

  /** The first block with the id. */
  function FindBlock(blocks: seq<RuleBlock>, id: string): (r: Option<nat>)
    ensures r.Some? ==> r.value < |blocks| && blocks[r.value].id == id
    ensures forall i :: 0 <= i < (if r.Some? then r.value else |blocks|) ==> blocks[i].id != id
  {
    if blocks == [] then None
    else if blocks[0].id == id then Some(0)
    else
      match FindBlock(blocks[1..], id)
      case None => None
      case Some(i) => Some(i + 1)
  }

  /** Lists with the same ids in the same places find the same index. */
  lemma {:induction false} SameIdSameIndex(a: seq<RuleBlock>, b: seq<RuleBlock>, id: string)
    requires |a| == |b| && forall i :: 0 <= i < |a| ==> a[i].id == b[i].id
    ensures FindBlock(a, id) == FindBlock(b, id)
  {
    if a != [] {
      assert a[0].id == b[0].id;
      forall i | 0 <= i < |a| - 1 ensures a[1..][i].id == b[1..][i].id {
        assert a[1..][i] == a[i + 1] && b[1..][i] == b[i + 1];
      }
      SameIdSameIndex(a[1..], b[1..], id);
    }
  }
}
