/**
 * BuildResultScoringRule: scores nodes by the results of the latest builds of the
 * subtasks on them. Only the most recent counted build on a node scores, weighted
 * by how old it is.
 */
module BuildResultRules {
  import opened JavaLang
  import opened ValidationUtil
  import opened Jenkins
  import opened MappingWorksheets
  import opened NodesScores

  datatype BuildResultScoringRule = BuildResultScoringRule(
    numberOfBuilds: int,
    scale: int,
    scaleAdjustForOlder: int,
    scoreForSuccess: int,
    scoreForUnstable: int,
    scoreForFailure: int)

  /** One past build as the rule reads it: the nodes it may have run on, in the order
      they are looked at, and its result. */
  datatype PastBuild = PastBuild(candidates: seq<Option<Node>>, result: Option<BuildResult>)

  /** The builds of a subtask's history, newest first. A freestyle build names the node
      it was built on; a pipeline run the nodes of its workspaces, or none when its
      execution is not available. */
  function PastBuilds(h: History): (r: seq<PastBuild>)
    ensures h.NoHistory? ==> r == []
    ensures h.Freestyle? ==> |r| == |h.builds| && forall i :: 0 <= i < |r| ==>
              r[i] == PastBuild([h.builds[i].builtOn], h.builds[i].result)
    ensures h.Pipeline? ==> |r| == |h.runs|
  {
    match h
    case NoHistory => []
    case Freestyle(bs) => seq(|bs|, i requires 0 <= i < |bs| => PastBuild([bs[i].builtOn], bs[i].result))
    case Pipeline(rs) =>
      seq(|rs|, i requires 0 <= i < |rs| =>
        PastBuild(if rs[i].execution.Some? then rs[i].execution.value else [], rs[i].result))
  }

  /** A candidate that names a node still to be scored. */
  predicate Hit(c: Option<Node>, nodeSet: set<Node>) {
    c.Some? && c.value in nodeSet
  }

  /** The first candidate naming a node still to be scored. */
  function FoundNode(candidates: seq<Option<Node>>, nodeSet: set<Node>): (r: Option<Node>)
    ensures r.Some? ==> r.value in nodeSet
  {
    if candidates == [] then None
    else if Hit(candidates[0], nodeSet) then candidates[0]
    else FoundNode(candidates[1..], nodeSet)
  }

  /** A single candidate is found exactly when it names a node still to be scored. */
  lemma FoundSingle(c: Option<Node>, nodeSet: set<Node>)
    ensures FoundNode([c], nodeSet) == if Hit(c, nodeSet) then c else None
  {
    assert [c][1..] == [];
  }

  /** The score of a result, for the three results that count. */
  function ResultScore(rule: BuildResultScoringRule, result: Option<BuildResult>): Option<int> {
    match result
    case Some(Success) => Some(rule.scoreForSuccess)
    case Some(Failure) => Some(rule.scoreForFailure)
    case Some(Unstable) => Some(rule.scoreForUnstable)
    case _ => None
  }

  /** The weight of the build `pastNum` builds back. */
  function Weight(rule: BuildResultScoringRule, pastNum: nat): int {
    rule.scale + rule.scaleAdjustForOlder * pastNum
  }

  /** The awards handed out while looking at builds `pastNum` onwards, among the newest
      `numberOfBuilds`, with `nodeSet` the nodes not yet scored for this subtask. */
  function Walk(rule: BuildResultScoringRule, builds: seq<PastBuild>, pastNum: nat, nodeSet: set<Node>)
      : (r: seq<Award>)
    ensures forall i :: 0 <= i < |r| ==> r[i].node in nodeSet
    decreases rule.numberOfBuilds - pastNum
  {
    if pastNum >= rule.numberOfBuilds || pastNum >= |builds| then []
    else
      var b := builds[pastNum];
      match FoundNode(b.candidates, nodeSet)
      case None => Walk(rule, builds, pastNum + 1, nodeSet)
      case Some(n) =>
        match ResultScore(rule, b.result)
        case None => Walk(rule, builds, pastNum + 1, nodeSet)
        case Some(score) =>
          [Award(n, score * Weight(rule, pastNum))] + Walk(rule, builds, pastNum + 1, nodeSet - {n})
  }

  /** The awards for the subtasks in order, each starting from all the scored nodes. */
  function SubTaskAwards(rule: BuildResultScoringRule, subTasks: seq<SubTask>, nodes: set<Node>)
      : (r: seq<Award>)
    ensures forall i :: 0 <= i < |r| ==> r[i].node in nodes
  {
    if subTasks == [] then []
    else
      SubTaskAwards(rule, subTasks[..|subTasks| - 1], nodes)
        + Walk(rule, PastBuilds(subTasks[|subTasks| - 1].history), 0, nodes)
  }

  /** The effect of updateScores on a ledger. */
  function Apply(rule: BuildResultScoringRule, wc: WorkChunk, l: Ledger): (r: Ledger)
    requires l.Valid()
    ensures r.Valid() && r.nodeExecutorMap == l.nodeExecutorMap
    ensures r.invalidExecutors == l.invalidExecutors
    ensures r.executorScoreMap.Keys == l.executorScoreMap.Keys
  {
    AddNodeScores(l, SubTaskAwards(rule, wc.subTasks, l.nodeExecutorMap.Keys))
  }

  /** updateScores: walks back through the newest builds of each subtask and, for each
      node, scores the most recent build on it whose result counts. Always lets the
      following rules run. */
  method UpdateScores(rule: BuildResultScoringRule, task: Task, wc: WorkChunk, m: Mapping, ns: NodesScore)
      returns (proceed: bool)
    requires ns.Valid()
    modifies ns
    ensures proceed
    ensures ns.Content() == Apply(rule, wc, old(ns.Content()))
  {
    ghost var start := ns.Content();
    ghost var nodes := start.nodeExecutorMap.Keys;
    for s := 0 to |wc.subTasks|
      invariant ns.Valid() && ns.nodeExecutorMap == start.nodeExecutorMap
      invariant ns.Content() == AddNodeScores(start, SubTaskAwards(rule, wc.subTasks[..s], nodes))
    {
      ScoreSubTaskIfBuilt(rule, wc.subTasks[s].history, ns);
      SubTaskAwardsStep(rule, start, wc.subTasks, s);
    }
    assert wc.subTasks[..|wc.subTasks|] == wc.subTasks;
    return true;
  }

  /** A step that awards nothing. */
  lemma WalkSkips(rule: BuildResultScoringRule, builds: seq<PastBuild>, pastNum: nat, nodeSet: set<Node>)
    requires pastNum < rule.numberOfBuilds
    requires || pastNum >= |builds|
             || FoundNode(builds[pastNum].candidates, nodeSet).None?
             || ResultScore(rule, builds[pastNum].result).None?
    ensures Walk(rule, builds, pastNum, nodeSet) == Walk(rule, builds, pastNum + 1, nodeSet)
  {
  }

  /** A step that awards the node it finds. */
  lemma WalkAwards(rule: BuildResultScoringRule, builds: seq<PastBuild>, pastNum: nat, nodeSet: set<Node>)
    requires pastNum < rule.numberOfBuilds && pastNum < |builds|
    requires FoundNode(builds[pastNum].candidates, nodeSet).Some?
    requires ResultScore(rule, builds[pastNum].result).Some?
    ensures var n := FoundNode(builds[pastNum].candidates, nodeSet).value;
            Walk(rule, builds, pastNum, nodeSet)
            == [Award(n, ResultScore(rule, builds[pastNum].result).value * Weight(rule, pastNum))]
               + Walk(rule, builds, pastNum + 1, nodeSet - {n})
  {
  }

  lemma ConcatAssociates(a: seq<Award>, b: seq<Award>, c: seq<Award>)
    ensures (a + b) + c == a + (b + c)
  {
  }

  /** One turn of the loop over the subtasks: a subtask without a last build is
      skipped; otherwise its builds are walked. */
  method ScoreSubTaskIfBuilt(rule: BuildResultScoringRule, h: History, ns: NodesScore)
    requires ns.Valid()
    modifies ns
    ensures ns.Valid() && ns.nodeExecutorMap == old(ns.nodeExecutorMap)
    ensures ns.Content() == AddNodeScores(old(ns.Content()), Walk(rule, PastBuilds(h), 0, old(ns.GetNodes())))
  {
    if |PastBuilds(h)| == 0 {
      assert Walk(rule, PastBuilds(h), 0, ns.GetNodes()) == [];
      return;
    }
    ScoreSubTask(rule, h, ns);
  }

  /** The awards of one more subtask, added after those of the earlier ones. */
  lemma SubTaskAwardsStep(rule: BuildResultScoringRule, start: Ledger, subTasks: seq<SubTask>, s: nat)
    requires start.Valid() && s < |subTasks|
    ensures AddNodeScores(start, SubTaskAwards(rule, subTasks[..s + 1], start.nodeExecutorMap.Keys))
            == AddNodeScores(AddNodeScores(start, SubTaskAwards(rule, subTasks[..s], start.nodeExecutorMap.Keys)),
                             Walk(rule, PastBuilds(subTasks[s].history), 0, start.nodeExecutorMap.Keys))
  {
    var nodes := start.nodeExecutorMap.Keys;
    assert subTasks[..s + 1][..s] == subTasks[..s];
    AddNodeScoresAppend(start, SubTaskAwards(rule, subTasks[..s], nodes), Walk(rule, PastBuilds(subTasks[s].history), 0, nodes));
  }

  /** The loop over the newest builds of one subtask. */
  method ScoreSubTask(rule: BuildResultScoringRule, h: History, ns: NodesScore)
    requires ns.Valid()
    modifies ns
    ensures ns.Valid() && ns.nodeExecutorMap == old(ns.nodeExecutorMap)
    ensures ns.Content() == AddNodeScores(old(ns.Content()), Walk(rule, PastBuilds(h), 0, old(ns.GetNodes())))
  {
    ghost var start := ns.Content();
    ghost var builds := PastBuilds(h);
    var nodeSet := ns.GetNodes();
    ghost var nodes := nodeSet;
    ghost var done: seq<Award> := [];
    var pastNum := 0;
    while pastNum < rule.numberOfBuilds
      invariant 0 <= pastNum
      invariant nodeSet <= nodes
      invariant done + Walk(rule, builds, pastNum, nodeSet) == Walk(rule, builds, 0, nodes)
      invariant forall i :: 0 <= i < |done| ==> done[i].node in nodes
      invariant ns.Content() == AddNodeScores(start, done)
      decreases rule.numberOfBuilds - pastNum
    {
      var nodeSet', award := ScoreBuild(rule, h, pastNum, nodeSet, ns);
      AddNodeScoresAppend(start, done, award);
      ConcatAssociates(done, award, Walk(rule, builds, pastNum + 1, nodeSet'));
      done := done + award;
      nodeSet := nodeSet';
      pastNum := pastNum + 1;
    }
    assert done + [] == done;
  }

  /** One iteration: scores the build `pastNum` back if it ran on a node still to be
      scored and its result counts, and then takes that node out of `nodeSet`. */
  method ScoreBuild(rule: BuildResultScoringRule, h: History, pastNum: nat, nodeSet: set<Node>, ns: NodesScore)
      returns (nodeSet': set<Node>, ghost award: seq<Award>)
    requires pastNum < rule.numberOfBuilds
    requires ns.Valid() && nodeSet <= ns.nodeExecutorMap.Keys
    modifies ns
    ensures ns.Valid() && ns.nodeExecutorMap == old(ns.nodeExecutorMap)
    ensures nodeSet' <= nodeSet
    ensures forall i :: 0 <= i < |award| ==> award[i].node in nodeSet
    ensures award + Walk(rule, PastBuilds(h), pastNum + 1, nodeSet') == Walk(rule, PastBuilds(h), pastNum, nodeSet)
    ensures ns.Content() == AddNodeScores(old(ns.Content()), award)
  {
    ghost var builds := PastBuilds(h);
    nodeSet' := nodeSet;
    award := [];
    var node, result := LookAtBuild(h, pastNum, nodeSet);
    if node.None? || result.None? || node.value !in nodeSet {
      WalkSkips(rule, builds, pastNum, nodeSet);
      assert award + Walk(rule, builds, pastNum + 1, nodeSet') == Walk(rule, builds, pastNum + 1, nodeSet');
      return;
    }
    var n := node.value;
    var weight := rule.scale + rule.scaleAdjustForOlder * pastNum;
    var score: Option<int> := None;
    if result == Some(Success) {
      score := Some(rule.scoreForSuccess);
    } else if result == Some(Failure) {
      score := Some(rule.scoreForFailure);
    } else if result == Some(Unstable) {
      score := Some(rule.scoreForUnstable);
    }
    assert score == ResultScore(rule, builds[pastNum].result);
    if score.Some? {
      WalkAwards(rule, builds, pastNum, nodeSet);
      ns.AddNodeScore(n, score.value * weight);
      award := [Award(n, score.value * weight)];
      assert award[..0] == [];
      nodeSet' := nodeSet - {n};
    } else {
      WalkSkips(rule, builds, pastNum, nodeSet);
      assert award + Walk(rule, builds, pastNum + 1, nodeSet') == Walk(rule, builds, pastNum + 1, nodeSet');
    }
  }

  /** The node and result one step of the walk reads: the build `pastNum` back, if the
      history reaches that far. */
  method LookAtBuild(h: History, pastNum: nat, nodeSet: set<Node>)
      returns (node: Option<Node>, result: Option<BuildResult>)
    ensures pastNum >= |PastBuilds(h)| ==> node.None?
    ensures pastNum < |PastBuilds(h)| ==> result == PastBuilds(h)[pastNum].result
    ensures pastNum < |PastBuilds(h)| ==>
              || node == FoundNode(PastBuilds(h)[pastNum].candidates, nodeSet)
              || (!Hit(node, nodeSet) && FoundNode(PastBuilds(h)[pastNum].candidates, nodeSet).None?)
  {
    node, result := None, None;
    match h {
      case Freestyle(bs) =>
        if pastNum < |bs| {
          node := bs[pastNum].builtOn;
          result := bs[pastNum].result;
          FoundSingle(node, nodeSet);
        }
      case Pipeline(rs) =>
        if pastNum < |rs| {
          var run := rs[pastNum];
          result := run.result;
          if run.execution.Some? {
            node := WalkFlowGraph(run.execution.value, nodeSet);
          }
        }
      case NoHistory =>
    }
  }

  /** The FlowGraphWalker loop: looks at the workspace nodes in turn and stops at the
      first one still to be scored; otherwise ends holding the last one looked at. */
  method WalkFlowGraph(candidates: seq<Option<Node>>, nodeSet: set<Node>) returns (node: Option<Node>)
    ensures || node == FoundNode(candidates, nodeSet)
            || (!Hit(node, nodeSet) && FoundNode(candidates, nodeSet).None?)
  {
    node := None;
    for j := 0 to |candidates|
      invariant forall k :: 0 <= k < j ==> !Hit(candidates[k], nodeSet)
      invariant !Hit(node, nodeSet)
    {
      node := candidates[j];
      if Hit(node, nodeSet) {
        FoundNodeAt(candidates, nodeSet, j);
        return;
      }
    }
    FoundNodeAt(candidates, nodeSet, |candidates|);
  }

  /** The first hit is what FoundNode returns; with no hit it returns None. */
  lemma {:induction false} FoundNodeAt(candidates: seq<Option<Node>>, nodeSet: set<Node>, j: nat)
    requires j <= |candidates|
    requires forall k :: 0 <= k < j ==> !Hit(candidates[k], nodeSet)
    ensures j < |candidates| && Hit(candidates[j], nodeSet) ==> FoundNode(candidates, nodeSet) == candidates[j]
    ensures j == |candidates| ==> FoundNode(candidates, nodeSet) == None
  {
    if j > 0 {
      FoundNodeAt(candidates[1..], nodeSet, j - 1);
    }
  }

  // ---------------------------------------------------------------------------
  // Properties

  /** No node receives two awards. */
  predicate DistinctNodes(r: seq<Award>) {
    forall i, j :: 0 <= i < j < |r| ==> r[i].node != r[j].node
  }

  /** Each node is scored at most once per subtask. */
  lemma {:induction false} WalkScoresEachNodeOnce(
      rule: BuildResultScoringRule, builds: seq<PastBuild>, pastNum: nat, nodeSet: set<Node>)
    ensures DistinctNodes(Walk(rule, builds, pastNum, nodeSet))
    decreases rule.numberOfBuilds - pastNum
  {
    if pastNum < rule.numberOfBuilds && pastNum < |builds| {
      var b := builds[pastNum];
      var found := FoundNode(b.candidates, nodeSet);
      var score := ResultScore(rule, b.result);
      if found.Some? && score.Some? {
        var n := found.value;
        var rest := Walk(rule, builds, pastNum + 1, nodeSet - {n});
        WalkScoresEachNodeOnce(rule, builds, pastNum + 1, nodeSet - {n});
        var r := [Award(n, score.value * Weight(rule, pastNum))] + rest;
        assert Walk(rule, builds, pastNum, nodeSet) == r;
        forall i, j | 0 <= i < j < |r| ensures r[i].node != r[j].node {
          assert r[j] == rest[j - 1] && rest[j - 1].node in nodeSet - {n};
          if i > 0 {
            assert r[i] == rest[i - 1];
          }
        }
      } else {
        assert Walk(rule, builds, pastNum, nodeSet) == Walk(rule, builds, pastNum + 1, nodeSet);
        WalkScoresEachNodeOnce(rule, builds, pastNum + 1, nodeSet);
      }
    }
  }

  /** Builds older than the newest `numberOfBuilds` are never looked at. */
  lemma {:induction false} OlderBuildsIgnored(
      rule: BuildResultScoringRule, builds: seq<PastBuild>, k: nat, pastNum: nat, nodeSet: set<Node>)
    requires rule.numberOfBuilds <= k <= |builds|
    ensures Walk(rule, builds, pastNum, nodeSet) == Walk(rule, builds[..k], pastNum, nodeSet)
    decreases rule.numberOfBuilds - pastNum
  {
    if pastNum < rule.numberOfBuilds {
      var b := builds[pastNum];
      assert builds[..k][pastNum] == b;
      var found := FoundNode(b.candidates, nodeSet);
      if found.Some? && ResultScore(rule, b.result).Some? {
        OlderBuildsIgnored(rule, builds, k, pastNum + 1, nodeSet - {found.value});
      } else {
        OlderBuildsIgnored(rule, builds, k, pastNum + 1, nodeSet);
      }
    }
  }

  /** For a freestyle history: the score of the most recent build on `n`, among the
      newest `numberOfBuilds` from `pastNum` on, whose result counts. */
  function MostRecentScore(rule: BuildResultScoringRule, bs: seq<FreestyleBuild>, n: Node, pastNum: nat): int
    decreases rule.numberOfBuilds - pastNum
  {
    if pastNum >= rule.numberOfBuilds || pastNum >= |bs| then 0
    else if bs[pastNum].builtOn == Some(n) && ResultScore(rule, bs[pastNum].result).Some? then
      ResultScore(rule, bs[pastNum].result).value * Weight(rule, pastNum)
    else MostRecentScore(rule, bs, n, pastNum + 1)
  }

  /** For a freestyle project, what a node receives is exactly the weighted score of
      the most recent counted build on it (nothing for a node not to be scored). */
  lemma {:induction false} FreestyleScoresMostRecentBuild(
      rule: BuildResultScoringRule, bs: seq<FreestyleBuild>, pastNum: nat, nodeSet: set<Node>, n: Node)
    ensures AwardSum(Walk(rule, PastBuilds(Freestyle(bs)), pastNum, nodeSet), n)
            == (if n in nodeSet then MostRecentScore(rule, bs, n, pastNum) else 0)
    decreases rule.numberOfBuilds - pastNum
  {
    var builds := PastBuilds(Freestyle(bs));
    if pastNum < rule.numberOfBuilds && pastNum < |bs| {
      var b := builds[pastNum];
      var found := FoundNode(b.candidates, nodeSet);
      assert b.candidates == [bs[pastNum].builtOn];
      FoundSingle(bs[pastNum].builtOn, nodeSet);
      assert found == (if Hit(bs[pastNum].builtOn, nodeSet) then bs[pastNum].builtOn else None);
      var score := ResultScore(rule, b.result);
      if found.Some? && score.Some? {
        var m := found.value;
        var a := Award(m, score.value * Weight(rule, pastNum));
        var rest := Walk(rule, builds, pastNum + 1, nodeSet - {m});
        FreestyleScoresMostRecentBuild(rule, bs, pastNum + 1, nodeSet - {m}, n);
        AwardSumAppend([a], rest, n);
        assert AwardSum([a], n) == if m == n then a.score else 0 by {
          assert [a][..0] == [];
        }
      } else {
        FreestyleScoresMostRecentBuild(rule, bs, pastNum + 1, nodeSet, n);
      }
    }
  }

  // ---------------------------------------------------------------------------
  // Form validation

  /** doCheckNumberOfBuilds: required, and a positive `int` once trimmed. */
  function DoCheckNumberOfBuilds(value: Option<string>): (r: FormValidation)
    ensures r == Error(NumberOfBuildsRequired) <==> value.None? || IsBlank(value.value)
    ensures r == Ok <==>
              value.Some? && ParseInt(Trim(value.value)).Some? && ParseInt(Trim(value.value)).value > 0
    ensures r == Ok || r == Error(NumberOfBuildsRequired) || r == Error(NumberOfBuildsInvalid)
  {
    if value.None? then Error(NumberOfBuildsRequired)
    else if IsBlank(value.value) then
      BlankDoesNotParse(value.value);
      Error(NumberOfBuildsRequired)
    else
      match ParseInt(Trim(value.value))
      case None => Error(NumberOfBuildsInvalid)
      case Some(num) => if num <= 0 then Error(NumberOfBuildsInvalid) else Ok
  }

  /** Every positive `int` printed in decimal is accepted; zero and every negative
      `int` are rejected as invalid. */
  lemma DoCheckNumberOfBuildsDecides(n: int)
    requires InInt32(n)
    ensures DoCheckNumberOfBuilds(Some(FormatInt(n))) == if n > 0 then Ok else Error(NumberOfBuildsInvalid)
  {
    var f := FormatInt(n);
    assert IsDigit(f[0]) || f[0] == '-';
    NumeralUntrimmed(f);
    ParseFormatRoundTrip(n);
    assert ParseInt(Trim(f)) == Some(n);
  }
}
