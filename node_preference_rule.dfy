/**
 * NodePreferenceScoringRule: scores nodes by the preference configured on each
 * node, and by the preferences the jobs being scheduled give to the nodes their
 * label expressions match.
 */
module NodePreferenceRules {
  import opened JavaLang
  import opened Jenkins
  import opened BuildPreferences
  import opened MappingWorksheets
  import opened NodesScores

  datatype NodePreferenceScoringRule = NodePreferenceScoringRule(
    nodesPreferenceScale: int,
    projectPreferenceScale: int)

  /** What a node's own preference adds: the first BuildPreferenceNodeProperty only. */
  function NodeScore(rule: NodePreferenceScoringRule, n: Node): int {
    if |n.preferenceProperties| == 0 then 0
    else n.preferenceProperties[0] * rule.nodesPreferenceScale
  }

  /** What one job preference adds to node `n`: nothing when its label expression does
      not parse or does not contain the node. */
  function PreferenceScore(rule: NodePreferenceScoringRule, parser: LabelParser, p: BuildPreference, n: Node): int {
    if parser.parses(p.labelExpression) && parser.contains(p.labelExpression, n) then
      p.preference * rule.projectPreferenceScale
    else 0
  }

  function PreferencesScore(rule: NodePreferenceScoringRule, parser: LabelParser, prefs: seq<BuildPreference>, n: Node): int {
    if prefs == [] then 0
    else PreferencesScore(rule, parser, prefs[..|prefs| - 1], n) + PreferenceScore(rule, parser, prefs[|prefs| - 1], n)
  }

  /** What one subtask adds: the preferences of its BuildPreferenceJobProperty, if it is
      a job that has one. */
  function SubTaskScore(rule: NodePreferenceScoringRule, parser: LabelParser, st: SubTask, n: Node): int {
    match st.kind
    case Job(Some(prefs)) => PreferencesScore(rule, parser, prefs, n)
    case _ => 0
  }

  function ProjectScore(rule: NodePreferenceScoringRule, parser: LabelParser, subTasks: seq<SubTask>, n: Node): int {
    if subTasks == [] then 0
    else ProjectScore(rule, parser, subTasks[..|subTasks| - 1], n) + SubTaskScore(rule, parser, subTasks[|subTasks| - 1], n)
  }

  /** The effect of updateScores on a ledger: the chunk of each node gains the node's
      own preference and the preferences the subtasks give to it. */
  function Apply(rule: NodePreferenceScoringRule, parser: LabelParser, wc: WorkChunk, l: Ledger): (r: Ledger)
    ensures r.executorScoreMap.Keys == l.executorScoreMap.Keys
    ensures forall ec :: ec in l.executorScoreMap ==>
              r.executorScoreMap[ec] == l.executorScoreMap[ec]
                + (if l.Owns(ec) then NodeScore(rule, ec.node) + ProjectScore(rule, parser, wc.subTasks, ec.node) else 0)
    ensures r.nodeExecutorMap == l.nodeExecutorMap && r.invalidExecutors == l.invalidExecutors
    ensures l.Valid() ==> r.Valid()
  {
    l.(executorScoreMap := map ec | ec in l.executorScoreMap ::
         l.executorScoreMap[ec]
           + (if l.Owns(ec) then NodeScore(rule, ec.node) + ProjectScore(rule, parser, wc.subTasks, ec.node) else 0))
  }

  /** updateScores: first every node's own preference, then the preferences of the
      jobs among the subtasks. Always lets the following rules run. */
  method UpdateScores(rule: NodePreferenceScoringRule, parser: LabelParser, task: Task, wc: WorkChunk, m: Mapping, ns: NodesScore)
      returns (proceed: bool)
    requires ns.Valid()
    modifies ns
    ensures proceed
    ensures ns.Content() == Apply(rule, parser, wc, old(ns.Content()))
  {
    ghost var start := ns.Content();
    ScoreNodePreferences(rule, ns);
    ghost var mid := ns.Content();
    for s := 0 to |wc.subTasks|
      invariant ns.Valid()
      invariant ns.nodeExecutorMap == start.nodeExecutorMap && ns.invalidExecutors == start.invalidExecutors
      invariant ns.executorScoreMap.Keys == start.executorScoreMap.Keys
      invariant forall ec :: ec in start.executorScoreMap ==>
                  ns.executorScoreMap[ec] == mid.executorScoreMap[ec]
                    + (if start.Owns(ec) then ProjectScore(rule, parser, wc.subTasks[..s], ec.node) else 0)
    {
      assert wc.subTasks[..s + 1][..s] == wc.subTasks[..s];
      var subtask := wc.subTasks[s];
      if !subtask.kind.Job? || subtask.kind.preferenceProperty.None? {
        continue;
      }
      ScorePreferences(rule, parser, subtask.kind.preferenceProperty.value, ns);
    }
    assert wc.subTasks[..|wc.subTasks|] == wc.subTasks;
    return true;
  }

  /** The inner loop of the second phase: every preference of one job, in order. */
  method ScorePreferences(rule: NodePreferenceScoringRule, parser: LabelParser, prefs: seq<BuildPreference>, ns: NodesScore)
    requires ns.Valid()
    modifies ns
    ensures ns.Valid()
    ensures ns.nodeExecutorMap == old(ns.nodeExecutorMap) && ns.invalidExecutors == old(ns.invalidExecutors)
    ensures ns.executorScoreMap.Keys == old(ns.executorScoreMap.Keys)
    ensures forall ec :: ec in old(ns.executorScoreMap) ==>
              ns.executorScoreMap[ec] == old(ns.executorScoreMap[ec])
                + (if old(ns.Content()).Owns(ec) then PreferencesScore(rule, parser, prefs, ec.node) else 0)
  {
    ghost var before := ns.Content();
    for j := 0 to |prefs|
      invariant ns.Valid()
      invariant ns.nodeExecutorMap == before.nodeExecutorMap && ns.invalidExecutors == before.invalidExecutors
      invariant ns.executorScoreMap.Keys == before.executorScoreMap.Keys
      invariant forall ec :: ec in before.executorScoreMap ==>
                  ns.executorScoreMap[ec] == before.executorScoreMap[ec]
                    + (if before.Owns(ec) then PreferencesScore(rule, parser, prefs[..j], ec.node) else 0)
    {
      assert prefs[..j + 1][..j] == prefs[..j];
      ScorePreference(rule, parser, prefs[j], ns);
    }
    assert prefs[..|prefs|] == prefs;
  }

  /** The first loop: each node's own preference, scaled. */
  method ScoreNodePreferences(rule: NodePreferenceScoringRule, ns: NodesScore)
    requires ns.Valid()
    modifies ns
    ensures ns.Valid()
    ensures ns.nodeExecutorMap == old(ns.nodeExecutorMap) && ns.invalidExecutors == old(ns.invalidExecutors)
    ensures ns.executorScoreMap.Keys == old(ns.executorScoreMap.Keys)
    ensures forall ec :: ec in old(ns.executorScoreMap) ==>
              ns.executorScoreMap[ec] == old(ns.executorScoreMap[ec])
                + (if old(ns.Content()).Owns(ec) then NodeScore(rule, ec.node) else 0)
  {
    ghost var start := ns.Content();
    var rest := ns.GetNodes();
    while rest != {}
      invariant rest <= start.nodeExecutorMap.Keys
      invariant ns.Valid()
      invariant ns.nodeExecutorMap == start.nodeExecutorMap && ns.invalidExecutors == start.invalidExecutors
      invariant ns.executorScoreMap.Keys == start.executorScoreMap.Keys
      invariant forall ec :: ec in start.executorScoreMap ==>
                  ns.executorScoreMap[ec] == start.executorScoreMap[ec]
                    + (if start.Owns(ec) && ec.node !in rest then NodeScore(rule, ec.node) else 0)
      decreases |rest|
    {
      var node :| node in rest;
      var prefList := node.preferenceProperties;
      if |prefList| > 0 {
        ns.AddNodeScore(node, prefList[0] * rule.nodesPreferenceScale);
      }
      rest := rest - {node};
    }
  }

  /** The body of the second loop for one preference: parse the label expression
      (skipping it when that fails) and score every node it contains. */
  method ScorePreference(rule: NodePreferenceScoringRule, parser: LabelParser, pref: BuildPreference, ns: NodesScore)
    requires ns.Valid()
    modifies ns
    ensures ns.Valid()
    ensures ns.nodeExecutorMap == old(ns.nodeExecutorMap) && ns.invalidExecutors == old(ns.invalidExecutors)
    ensures ns.executorScoreMap.Keys == old(ns.executorScoreMap.Keys)
    ensures forall ec :: ec in old(ns.executorScoreMap) ==>
              ns.executorScoreMap[ec] == old(ns.executorScoreMap[ec])
                + (if old(ns.Content()).Owns(ec) then PreferenceScore(rule, parser, pref, ec.node) else 0)
  {
    if !parser.parses(pref.labelExpression) {
      // the invalid label is logged and skipped
      return;
    }
    ghost var start := ns.Content();
    var rest := ns.GetNodes();
    while rest != {}
      invariant rest <= start.nodeExecutorMap.Keys
      invariant ns.Valid()
      invariant ns.nodeExecutorMap == start.nodeExecutorMap && ns.invalidExecutors == start.invalidExecutors
      invariant ns.executorScoreMap.Keys == start.executorScoreMap.Keys
      invariant forall ec :: ec in start.executorScoreMap ==>
                  ns.executorScoreMap[ec] == start.executorScoreMap[ec]
                    + (if start.Owns(ec) && ec.node !in rest then PreferenceScore(rule, parser, pref, ec.node) else 0)
      decreases |rest|
    {
      var node :| node in rest;
      if parser.contains(pref.labelExpression, node) {
        ns.AddNodeScore(node, pref.preference * rule.projectPreferenceScale);
      }
      rest := rest - {node};
    }
  }

  // ---------------------------------------------------------------------------
  // Properties

  /** Only the first node property counts: further ones change nothing. */
  lemma NodeScoreUsesFirstProperty(rule: NodePreferenceScoringRule, name: string, props: seq<int>, more: seq<int>)
    requires props != []
    ensures NodeScore(rule, Node(name, props + more)) == NodeScore(rule, Node(name, props))
  {
  }

  /** The preferences whose label expression parses. */
  function Parsable(parser: LabelParser, prefs: seq<BuildPreference>): (r: seq<BuildPreference>)
    ensures forall i :: 0 <= i < |r| ==> parser.parses(r[i].labelExpression)
  {
    if prefs == [] then []
    else
      var init := Parsable(parser, prefs[..|prefs| - 1]);
      var last := prefs[|prefs| - 1];
      if parser.parses(last.labelExpression) then init + [last] else init
  }

  /** A preference with an invalid label expression is skipped without affecting the
      others: the score is that of the valid preferences alone. */
  lemma {:induction false} InvalidPreferencesSkipped(
      rule: NodePreferenceScoringRule, parser: LabelParser, prefs: seq<BuildPreference>, n: Node)
    ensures PreferencesScore(rule, parser, prefs, n) == PreferencesScore(rule, parser, Parsable(parser, prefs), n)
  {
    if prefs != [] {
      var init := prefs[..|prefs| - 1];
      var last := prefs[|prefs| - 1];
      InvalidPreferencesSkipped(rule, parser, init, n);
      if parser.parses(last.labelExpression) {
        var p := Parsable(parser, init) + [last];
        assert p[..|p| - 1] == Parsable(parser, init);
      }
    }
  }

  /** The subtasks that are jobs with a BuildPreferenceJobProperty. */
  function JobsWithPreferences(subTasks: seq<SubTask>): (r: seq<SubTask>)
    ensures forall i :: 0 <= i < |r| ==> r[i].kind.Job? && r[i].kind.preferenceProperty.Some?
  {
    if subTasks == [] then []
    else
      var init := JobsWithPreferences(subTasks[..|subTasks| - 1]);
      var last := subTasks[|subTasks| - 1];
      if last.kind.Job? && last.kind.preferenceProperty.Some? then init + [last] else init
  }

  /** Subtasks that are not jobs, or jobs without preferences, add nothing. */
  lemma {:induction false} OnlyJobPreferencesCount(
      rule: NodePreferenceScoringRule, parser: LabelParser, subTasks: seq<SubTask>, n: Node)
    ensures ProjectScore(rule, parser, subTasks, n) == ProjectScore(rule, parser, JobsWithPreferences(subTasks), n)
  {
    if subTasks != [] {
      var init := subTasks[..|subTasks| - 1];
      var last := subTasks[|subTasks| - 1];
      OnlyJobPreferencesCount(rule, parser, init, n);
      if last.kind.Job? && last.kind.preferenceProperty.Some? {
        var j := JobsWithPreferences(init) + [last];
        assert j[..|j| - 1] == JobsWithPreferences(init);
      }
    }
  }

  /** Each subtask of a work chunk adds its own preferences independently. */
  lemma {:induction false} ProjectScoreAppend(
      rule: NodePreferenceScoringRule, parser: LabelParser, a: seq<SubTask>, b: seq<SubTask>, n: Node)
    ensures ProjectScore(rule, parser, a + b, n) == ProjectScore(rule, parser, a, n) + ProjectScore(rule, parser, b, n)
    decreases |b|
  {
    if b == [] {
      assert a + b == a;
    } else {
      assert (a + b)[..|a + b| - 1] == a + b[..|b| - 1];
      ProjectScoreAppend(rule, parser, a, b[..|b| - 1], n);
    }
  }

  /** A node that no valid label expression of the subtasks contains receives no
      project preference. */
  lemma {:induction false} UnmatchedNodeGetsNoProjectScore(
      rule: NodePreferenceScoringRule, parser: LabelParser, subTasks: seq<SubTask>, n: Node)
    requires forall i, p :: 0 <= i < |subTasks| && subTasks[i].kind.Job? && subTasks[i].kind.preferenceProperty.Some?
               && p in subTasks[i].kind.preferenceProperty.value && parser.parses(p.labelExpression)
               ==> !parser.contains(p.labelExpression, n)
    ensures ProjectScore(rule, parser, subTasks, n) == 0
  {
    if subTasks != [] {
      var init := subTasks[..|subTasks| - 1];
      UnmatchedNodeGetsNoProjectScore(rule, parser, init, n);
      var last := subTasks[|subTasks| - 1];
      if last.kind.Job? && last.kind.preferenceProperty.Some? {
        UnmatchedPreferencesScoreZero(rule, parser, last.kind.preferenceProperty.value, n);
      }
    }
  }

  lemma {:induction false} UnmatchedPreferencesScoreZero(
      rule: NodePreferenceScoringRule, parser: LabelParser, prefs: seq<BuildPreference>, n: Node)
    requires forall p :: p in prefs && parser.parses(p.labelExpression) ==> !parser.contains(p.labelExpression, n)
    ensures PreferencesScore(rule, parser, prefs, n) == 0
  {
    if prefs != [] {
      UnmatchedPreferencesScoreZero(rule, parser, prefs[..|prefs| - 1], n);
    }
  }
}
