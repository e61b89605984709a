/**
 * NodeLoadScoringRule: scores each executor chunk by how many of its executors
 * would be idle or busy, counting the work chunks this mapping has already put
 * on it.
 */
module NodeLoadRules {
  import opened JavaLang
  import opened Jenkins
  import opened MappingWorksheets
  import opened NodesScores

  datatype NodeLoadScoringRule = NodeLoadScoringRule(
    scale: int,
    scoreForIdleExecutor: int,
    scoreForBusyExecutor: int)

  /** The number of executors the first `k` work chunks of the assignment take from
      `ec`: the sizes of those assigned to it. */
  function AssignedLoad(ec: ExecutorChunk, works: seq<WorkChunk>, a: Assignment, k: nat): nat
    requires k <= |a| == |works|
  {
    if k == 0 then 0
    else AssignedLoad(ec, works, a, k - 1) + (if a[k - 1] == Some(ec) then |works[k - 1].subTasks| else 0)
  }

  /** Executors of `ec` left idle once this mapping's assignments are counted. */
  function Idle(ec: ExecutorChunk, works: seq<WorkChunk>, a: Assignment): int
    requires |a| == |works|
  {
    ec.capacity - AssignedLoad(ec, works, a, |a|)
  }

  /** Executors of the computer that are not idle. */
  function Busy(ec: ExecutorChunk, works: seq<WorkChunk>, a: Assignment): int
    requires |a| == |works|
  {
    ec.executorCount - Idle(ec, works, a)
  }

  /** The score the rule gives to `ec`. */
  function LoadScore(rule: NodeLoadScoringRule, ec: ExecutorChunk, works: seq<WorkChunk>, a: Assignment): int
    requires |a| == |works|
  {
    (Busy(ec, works, a) * rule.scoreForBusyExecutor + Idle(ec, works, a) * rule.scoreForIdleExecutor) * rule.scale
  }

  /** The effect of updateScores on a ledger: every scored chunk gains its load score. */
  function Apply(rule: NodeLoadScoringRule, works: seq<WorkChunk>, a: Assignment, l: Ledger): (r: Ledger)
    requires |a| == |works|
    ensures r.executorScoreMap.Keys == l.executorScoreMap.Keys
    ensures forall ec :: ec in l.executorScoreMap ==>
              r.executorScoreMap[ec] == l.executorScoreMap[ec] + LoadScore(rule, ec, works, a)
    ensures r.nodeExecutorMap == l.nodeExecutorMap && r.invalidExecutors == l.invalidExecutors
    ensures l.Valid() ==> r.Valid()
  {
    l.(executorScoreMap := map ec | ec in l.executorScoreMap :: l.executorScoreMap[ec] + LoadScore(rule, ec, works, a))
  }

  /** updateScores: adds to every scored chunk its load score, and always lets the
      following rules run. */
  method UpdateScores(rule: NodeLoadScoringRule, task: Task, wc: WorkChunk, m: Mapping, ns: NodesScore)
      returns (proceed: bool)
    requires m.Valid()
    modifies ns
    ensures proceed
    ensures ns.Content() == Apply(rule, m.worksheet.works, m.mapping[..], old(ns.Content()))
  {
    ghost var start := ns.Content();
    ghost var works := m.worksheet.works;
    ghost var a := m.mapping[..];
    var chunks := ns.GetExecutorChunks();
    while chunks != {}
      invariant chunks <= start.executorScoreMap.Keys
      invariant ns.executorScoreMap.Keys == start.executorScoreMap.Keys
      invariant ns.nodeExecutorMap == start.nodeExecutorMap && ns.invalidExecutors == start.invalidExecutors
      invariant forall ec :: ec in start.executorScoreMap ==>
                  ns.executorScoreMap[ec] == start.executorScoreMap[ec]
                    + (if ec in chunks then 0 else LoadScore(rule, ec, works, a))
      decreases |chunks|
    {
      var ec :| ec in chunks;
      var idle := CountIdle(m, ec);
      var busy := ec.executorCount - idle;
      var busyScore := busy * rule.scoreForBusyExecutor;
      var idleScore := idle * rule.scoreForIdleExecutor;
      assert (busyScore + idleScore) * rule.scale == LoadScore(rule, ec, works, a);
      ns.AddScore(ec, (busyScore + idleScore) * rule.scale);
      chunks := chunks - {ec};
    }
    assert ns.executorScoreMap == Apply(rule, works, a, start).executorScoreMap;
    return true;
  }

  /** The inner loop of updateScores: the chunk's idle executors, less the size of each
      work chunk the mapping has put on it. */
  method CountIdle(m: Mapping, ec: ExecutorChunk) returns (idle: int)
    requires m.Valid()
    ensures idle == Idle(ec, m.worksheet.works, m.mapping[..])
  {
    idle := ec.capacity;
    for i := 0 to m.Size()
      invariant idle == ec.capacity - AssignedLoad(ec, m.worksheet.works, m.mapping[..], i)
    {
      if m.mapping[i] == Some(ec) {
        idle := idle - |m.worksheet.works[i].subTasks|;
      }
    }
  }

  /** With nothing assigned yet, every executor of the chunk counts as idle. */
  lemma {:induction false} IdleWhenNothingAssigned(ec: ExecutorChunk, works: seq<WorkChunk>)
    ensures Idle(ec, works, Unassigned(|works|)) == ec.capacity
  {
    NoLoadOnUnassigned(ec, works, |works|);
  }

  lemma {:induction false} NoLoadOnUnassigned(ec: ExecutorChunk, works: seq<WorkChunk>, k: nat)
    requires k <= |works|
    ensures AssignedLoad(ec, works, Unassigned(|works|), k) == 0
  {
    if k > 0 {
      NoLoadOnUnassigned(ec, works, k - 1);
    }
  }

  /** Assigning work chunk `i` (unassigned so far) to `e` takes the chunk's size from the
      idle executors of `e` and leaves every other chunk's count as it was. */
  lemma {:induction false} AssignTakesIdleExecutors(
      ec: ExecutorChunk, works: seq<WorkChunk>, a: Assignment, i: nat, e: ExecutorChunk)
    requires |a| == |works| && i < |a| && a[i] == None
    ensures Idle(ec, works, a[i := Some(e)])
            == Idle(ec, works, a) - (if e == ec then |works[i].subTasks| else 0)
  {
    LoadAfterAssign(ec, works, a, i, e, |a|);
  }

  lemma {:induction false} LoadAfterAssign(
      ec: ExecutorChunk, works: seq<WorkChunk>, a: Assignment, i: nat, e: ExecutorChunk, k: nat)
    requires |a| == |works| && i < |a| && a[i] == None && k <= |a|
    ensures AssignedLoad(ec, works, a[i := Some(e)], k)
            == AssignedLoad(ec, works, a, k) + (if i < k && e == ec then |works[i].subTasks| else 0)
  {
    if k > 0 {
      LoadAfterAssign(ec, works, a, i, e, k - 1);
    }
  }

  /** With a positive scale and idle executors worth more than busy ones, of two chunks
      on computers of the same size the one with more idle executors scores higher. */
  lemma PrefersIdleChunks(
      rule: NodeLoadScoringRule, works: seq<WorkChunk>, a: Assignment, x: ExecutorChunk, y: ExecutorChunk)
    requires |a| == |works|
    requires rule.scale > 0 && rule.scoreForIdleExecutor > rule.scoreForBusyExecutor
    requires x.executorCount == y.executorCount
    requires Idle(x, works, a) > Idle(y, works, a)
    ensures LoadScore(rule, x, works, a) > LoadScore(rule, y, works, a)
  {
    var ix, iy := Idle(x, works, a), Idle(y, works, a);
    var n := x.executorCount;
    var b, i := rule.scoreForBusyExecutor, rule.scoreForIdleExecutor;
    assert (n - ix) * b + ix * i == n * b + ix * (i - b);
    assert (n - iy) * b + iy * i == n * b + iy * (i - b);
    assert ix * (i - b) > iy * (i - b) by {
      assert (ix - iy) * (i - b) > 0;
    }
    var sx := n * b + ix * (i - b);
    var sy := n * b + iy * (i - b);
    assert sx * rule.scale > sy * rule.scale by {
      assert (sx - sy) * rule.scale > 0;
    }
  }
}
