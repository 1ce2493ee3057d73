/** Connection accounting of the daemon's control server. */
module Connections {

  const MAX_CONNECTIONS := 16
  const MAX_PER_UID := 2

  /** The two counters kept under the lock. */
  datatype Counters = Counters(total: int, byUid: map<int, int>)

  function CountOf(c: Counters, uid: int, default: int): int {
    if uid in c.byUid then c.byUid[uid] else default
  }

  predicate Full(c: Counters, uid: int) {
    c.total >= MAX_CONNECTIONS || CountOf(c, uid, 0) >= MAX_PER_UID
  }

  function Admitted(c: Counters, uid: int): Counters {
    Counters(c.total + 1, c.byUid[uid := CountOf(c, uid, 0) + 1])
  }

  /** An entry that reaches zero is dropped. */
  function Released(c: Counters, uid: int): Counters {
    var remaining := CountOf(c, uid, 1) - 1;
    Counters(c.total - 1, if remaining != 0 then c.byUid[uid := remaining] else c.byUid - {uid})
  }

  class ControlServer {
    var connectionsTotal: int
    var connectionsByUid: map<int, int>

    ghost function Now(): Counters
      reads this
    {
      Counters(connectionsTotal, connectionsByUid)
    }

    constructor ()
      ensures Now() == Counters(0, map[])
    {
      connectionsTotal, connectionsByUid := 0, map[];
    }

    /** The accept loop's critical section. */
    method TryAdmit(uid: int) returns (admitted: bool)
      modifies this
      ensures admitted <==> !Full(old(Now()), uid)
      ensures Now() == if admitted then Admitted(old(Now()), uid) else old(Now())
    {
      var perUid := if uid in connectionsByUid then connectionsByUid[uid] else 0;
      if connectionsTotal >= MAX_CONNECTIONS || perUid >= MAX_PER_UID { return false; }
      connectionsTotal := connectionsTotal + 1;
      connectionsByUid := connectionsByUid[uid := perUid + 1];
      return true;
    }

    method ReleaseConnection(uid: int)
      modifies this
      ensures Now() == Released(old(Now()), uid)
    {
      connectionsTotal := connectionsTotal - 1;
      var remaining := (if uid in connectionsByUid then connectionsByUid[uid] else 1) - 1;
      if remaining != 0 {
        connectionsByUid := connectionsByUid[uid := remaining];
      } else {
        connectionsByUid := connectionsByUid - {uid};
      }
    }
  }

  // ---- Threads ----

  /** An admitted connection waits for its worker thread, then is served by it. */
  datatype Phase = Starting | Serving

  datatype Connection = Connection(uid: int, phase: Phase)

  /** Open connections by a number of their own, every number admitted so far, and how often each was released. */
  datatype System = System(counters: Counters, open: map<nat, Connection>, admitted: set<nat>, releases: multiset<nat>)

  datatype Step = Accept(id: nat, uid: int) | WorkerStarts(id: nat) | StartFails(id: nat) | WorkerEnds(id: nat)

  const IDLE := System(Counters(0, map[]), map[], {}, multiset{})

  function Close(s: System, id: nat): System
    requires id in s.open
  {
    System(Released(s.counters, s.open[id].uid), s.open - {id}, s.admitted, s.releases + multiset{id})
  }

  /** A thread's next step; steps that cannot happen change nothing. */
  function Next(s: System, step: Step): System {
    match step
    case Accept(id, uid) =>
      if id in s.admitted || Full(s.counters, uid) then s
      else System(Admitted(s.counters, uid), s.open[id := Connection(uid, Starting)], s.admitted + {id}, s.releases)
    case WorkerStarts(id) =>
      if id in s.open && s.open[id].phase == Starting then s.(open := s.open[id := s.open[id].(phase := Serving)]) else s
    case StartFails(id) => if id in s.open && s.open[id].phase == Starting then Close(s, id) else s
    case WorkerEnds(id) => if id in s.open && s.open[id].phase == Serving then Close(s, id) else s
  }

  function Run(s: System, steps: seq<Step>): System
    decreases |steps|
  {
    if steps == [] then s else Run(Next(s, steps[0]), steps[1..])
  }

  // ---- Sums and counts ----

  /** The connections of one account. */
  function OpenOf(open: map<nat, Connection>, uid: int): set<nat> {
    set id | id in open && open[id].uid == uid
  }

  ghost function Sum(m: map<int, int>): int {
    if exists k :: k in m then
      var k :| k in m;
      m[k] + Sum(m - {k})
    else 0
  }

  lemma {:induction false} SumSplit(m: map<int, int>, k: int)
    requires k in m
    ensures Sum(m) == m[k] + Sum(m - {k})
    decreases |m|
  {
    var j :| j in m && Sum(m) == m[j] + Sum(m - {j});
    if j != k {
      SumSplit(m - {j}, k);
      SumSplit(m - {k}, j);
      assert m - {j} - {k} == m - {k} - {j};
    }
  }

  lemma SumSet(m: map<int, int>, k: int, v: int)
    ensures Sum(m[k := v]) == v + Sum(m - {k})
  {
    SumSplit(m[k := v], k);
    assert m[k := v] - {k} == m - {k};
  }

  /** A new count for one key shifts the sum by the difference; a missing key counts as zero. */
  lemma SumShift(m: map<int, int>, k: int)
    ensures Sum(m) == (if k in m then m[k] else 0) + Sum(m - {k})
  {
    if k in m { SumSplit(m, k); } else { assert m - {k} == m; }
  }

  // ---- The invariant ----

  ghost predicate Accounted(s: System) {
    && s.counters.total == |s.open| == Sum(s.counters.byUid)
    && s.counters.total <= MAX_CONNECTIONS
    && (forall uid :: uid in s.counters.byUid ==> 1 <= s.counters.byUid[uid] <= MAX_PER_UID)
    && (forall uid :: |OpenOf(s.open, uid)| == CountOf(s.counters, uid, 0))
    && s.open.Keys <= s.admitted
    && forall id :: s.releases[id] == if id in s.admitted && id !in s.open then 1 else 0
  }

  lemma OpenMore(open: map<nat, Connection>, id: nat, c: Connection, u: int)
    requires id !in open
    ensures |OpenOf(open[id := c], u)| == |OpenOf(open, u)| + (if u == c.uid then 1 else 0)
    ensures |open[id := c]| == |open| + 1
  {
    assert OpenOf(open[id := c], u) == if u == c.uid then OpenOf(open, u) + {id} else OpenOf(open, u);
    assert id !in OpenOf(open, u);
  }

  lemma OpenFewer(open: map<nat, Connection>, id: nat, u: int)
    requires id in open
    ensures |OpenOf(open - {id}, u)| == |OpenOf(open, u)| - (if u == open[id].uid then 1 else 0)
    ensures |open - {id}| == |open| - 1
  {
    OpenMore(open - {id}, id, open[id], u);
    assert (open - {id})[id := open[id]] == open;
  }

  lemma AcceptAccounted(s: System, id: nat, uid: int)
    requires Accounted(s) && id !in s.admitted && !Full(s.counters, uid)
    ensures Accounted(Next(s, Accept(id, uid)))
  {
    var after := Next(s, Accept(id, uid));
    SumShift(s.counters.byUid, uid);
    SumSet(s.counters.byUid, uid, CountOf(s.counters, uid, 0) + 1);
    hide OpenOf, Sum;
    OpenMore(s.open, id, Connection(uid, Starting), uid);
    forall u ensures |OpenOf(after.open, u)| == CountOf(after.counters, u, 0) {
      OpenMore(s.open, id, Connection(uid, Starting), u);
    }
  }

  lemma CloseAccounted(s: System, id: nat)
    requires Accounted(s) && id in s.open
    ensures Accounted(Close(s, id))
  {
    var after := Close(s, id);
    var uid := s.open[id].uid;
    assert id in OpenOf(s.open, uid);
    assert uid in s.counters.byUid;
    hide OpenOf, Sum;
    SumSplit(s.counters.byUid, uid);
    SumSet(s.counters.byUid, uid, s.counters.byUid[uid] - 1);
    OpenFewer(s.open, id, uid);
    forall u ensures |OpenOf(after.open, u)| == CountOf(after.counters, u, 0) {
      OpenFewer(s.open, id, u);
    }
  }

  lemma StartAccounted(s: System, id: nat)
    requires Accounted(s) && id in s.open
    ensures Accounted(s.(open := s.open[id := s.open[id].(phase := Serving)]))
  {
    var open := s.open[id := s.open[id].(phase := Serving)];
    assert open.Keys == s.open.Keys;
    forall u ensures OpenOf(open, u) == OpenOf(s.open, u) {}
  }

  lemma NextAccounted(s: System, step: Step)
    requires Accounted(s)
    ensures Accounted(Next(s, step))
  {
    hide Accounted, Close;
    match step
    case Accept(id, uid) => if id !in s.admitted && !Full(s.counters, uid) { AcceptAccounted(s, id, uid); }
    case WorkerStarts(id) => if id in s.open { StartAccounted(s, id); }
    case StartFails(id) => if id in s.open { CloseAccounted(s, id); }
    case WorkerEnds(id) => if id in s.open { CloseAccounted(s, id); }
  }

  /**
   * In every interleaving the total is the number of open connections and the sum of the per-account counts, the limits
   * hold, no zero entry remains, and every admitted connection that is closed was released exactly once.
   */
  lemma {:induction false} AlwaysAccounted(s: System, steps: seq<Step>)
    requires Accounted(s)
    ensures Accounted(Run(s, steps))
    decreases |steps|
  {
    hide Next, Accounted;
    if steps != [] {
      NextAccounted(s, steps[0]);
      AlwaysAccounted(Next(s, steps[0]), steps[1..]);
    }
  }

  lemma IdleAccounted()
    ensures Accounted(IDLE)
  {
    forall uid ensures OpenOf(IDLE.open, uid) == {} {}
  }

  /** From a server without connections on, every run is accounted for. */
  lemma EveryRunAccounted(steps: seq<Step>)
    ensures Accounted(Run(IDLE, steps))
  {
    IdleAccounted();
    AlwaysAccounted(IDLE, steps);
  }

  /** When every connection has closed, the counters are back at nothing. */
  lemma AllClosedIsIdle(s: System)
    requires Accounted(s) && s.open == map[]
    ensures s.counters == Counters(0, map[])
  {
    forall uid ensures uid !in s.counters.byUid {
      assert OpenOf(s.open, uid) == {};
    }
    assert s.counters.byUid == map[];
  }

  /**
   * Which connections are open after a step, in terms of the open ones alone: a new connection is admitted exactly while fewer
   * than 16 are open and fewer than 2 of its account, a connection closes when its thread fails to start or ends, and no
   * step touches any other connection.
   */
  lemma StepsExactly(s: System, id: nat, uid: int)
    requires Accounted(s)
    ensures Next(s, Accept(id, uid)).open ==
            if id !in s.admitted && |s.open| < 16 && |OpenOf(s.open, uid)| < 2 then s.open[id := Connection(uid, Starting)] else s.open
    ensures id in s.open && s.open[id].phase == Starting ==>
              && Next(s, StartFails(id)).open == s.open - {id}
              && Next(s, WorkerStarts(id)).open == s.open[id := Connection(s.open[id].uid, Serving)]
    ensures id in s.open && s.open[id].phase == Serving ==> Next(s, WorkerEnds(id)).open == s.open - {id}
  {
    hide OpenOf, Sum;
    assert |OpenOf(s.open, uid)| == CountOf(s.counters, uid, 0);
  }
}
