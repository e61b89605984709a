/**
 * ScoringRule and the chain of rules ScoringLoadBalancer runs for each work chunk.
 * Java's ScoringRule is an extension point; here it is a closed sum of the three
 * rules of the plugin and `Custom`, a rule of another plugin described by the
 * NodesScore operations it performs and how it ends (returns true or false, or
 * throws).
 */
module ScoringRules {
  import opened JavaLang
  import opened Jenkins
  import opened MappingWorksheets
  import opened NodesScores
  import NodeLoadRules
  import BuildResultRules
  import NodePreferenceRules

  /** How updateScores ends: `true`, `false`, or an exception. */
  datatype RuleOutcome = Continue | Stop | Throw

  /** What a rule of another plugin does when called: NodesScore operations in order,
      then its outcome. */
  datatype RuleScript = RuleScript(ops: seq<LedgerOp>, outcome: RuleOutcome)

  datatype ScoringRule =
    | NodeLoad(nodeLoad: NodeLoadRules.NodeLoadScoringRule)
    | BuildResult(buildResult: BuildResultRules.BuildResultScoringRule)
    | NodePreference(nodePreference: NodePreferenceRules.NodePreferenceScoringRule)
    | Custom(script: (Task, WorkChunk, Assignment, Ledger) -> RuleScript)

  /** One call of updateScores: the new scores and whether to go on, or an exception. */
  datatype RuleRun = Returned(ledger: Ledger, proceed: bool) | Threw

  /** The effect of one updateScores call, for work chunk `wc` while the mapping
      holds `a`. */
  function RunRule(rule: ScoringRule, task: Task, wc: WorkChunk, works: seq<WorkChunk>, a: Assignment,
                   parser: LabelParser, l: Ledger): (r: RuleRun)
    requires l.Valid() && |a| == |works|
    ensures r.Returned? ==> r.ledger.Valid() && r.ledger.nodeExecutorMap == l.nodeExecutorMap
    ensures r.Returned? ==> l.executorScoreMap.Keys <= r.ledger.executorScoreMap.Keys
    ensures !rule.Custom? ==>
              && r.Returned? && r.proceed
              && r.ledger.invalidExecutors == l.invalidExecutors
              && r.ledger.executorScoreMap.Keys == l.executorScoreMap.Keys
  {
    match rule
    case NodeLoad(nl) => Returned(NodeLoadRules.Apply(nl, works, a, l), true)
    case BuildResult(br) => Returned(BuildResultRules.Apply(br, wc, l), true)
    case NodePreference(np) => Returned(NodePreferenceRules.Apply(np, parser, wc, l), true)
    case Custom(script) =>
      var s := script(task, wc, a, l);
      match ApplyAll(l, s.ops)
      case None => Threw
      case Some(l') =>
        if s.outcome == Throw then Threw else Returned(l', s.outcome == Continue)
  }

  /** A run of the chain: the scores, how many rules were called and whether one of
      them returned false; or an exception from the last rule called. */
  datatype ChainRun =
    | Ran(ledger: Ledger, invoked: nat, stopped: bool)
    | Raised(invoked: nat)

  /** The rules called in list order, stopping after the first that returns false or
      throws. */
  function RunChain(rules: seq<ScoringRule>, task: Task, wc: WorkChunk, works: seq<WorkChunk>, a: Assignment,
                    parser: LabelParser, l: Ledger): (r: ChainRun)
    requires l.Valid() && |a| == |works|
    ensures r.Ran? ==> r.ledger.Valid() && r.ledger.nodeExecutorMap == l.nodeExecutorMap
    ensures r.Ran? ==> l.executorScoreMap.Keys <= r.ledger.executorScoreMap.Keys
    ensures 1 <= r.invoked <= |rules| || (r.invoked == 0 && rules == [])
    ensures r.Ran? && !r.stopped ==> r.invoked == |rules|
    decreases |rules|
  {
    if rules == [] then Ran(l, 0, false)
    else
      match RunChain(rules[..|rules| - 1], task, wc, works, a, parser, l)
      case Raised(n) => Raised(n)
      case Ran(l', n, stopped) =>
        if stopped then Ran(l', n, true)
        else
          match RunRule(rules[|rules| - 1], task, wc, works, a, parser, l')
          case Threw => Raised(n + 1)
          case Returned(l'', proceed) => Ran(l'', n + 1, !proceed)
  }

  /** Once a rule has returned false or thrown, no later rule is called: appending rules
      changes nothing. */
  lemma {:induction false} LaterRulesNotCalled(
      rules: seq<ScoringRule>, more: seq<ScoringRule>, task: Task, wc: WorkChunk, works: seq<WorkChunk>,
      a: Assignment, parser: LabelParser, l: Ledger)
    requires l.Valid() && |a| == |works|
    requires RunChain(rules, task, wc, works, a, parser, l).Raised?
             || RunChain(rules, task, wc, works, a, parser, l).stopped
    ensures RunChain(rules + more, task, wc, works, a, parser, l) == RunChain(rules, task, wc, works, a, parser, l)
    decreases |more|
  {
    if more == [] {
      assert rules + more == rules;
    } else {
      assert (rules + more)[..|rules + more| - 1] == rules + more[..|more| - 1];
      LaterRulesNotCalled(rules, more[..|more| - 1], task, wc, works, a, parser, l);
    }
  }

  /** Rules run in list order: when every rule of `rules` returned true, the rules of
      `more` run next, starting from the scores `rules` left. */
  lemma {:induction false} ChainRunsInOrder(
      rules: seq<ScoringRule>, more: seq<ScoringRule>, task: Task, wc: WorkChunk, works: seq<WorkChunk>,
      a: Assignment, parser: LabelParser, l: Ledger)
    requires l.Valid() && |a| == |works|
    requires RunChain(rules, task, wc, works, a, parser, l).Ran?
    requires !RunChain(rules, task, wc, works, a, parser, l).stopped
    ensures var first := RunChain(rules, task, wc, works, a, parser, l);
            var rest := RunChain(more, task, wc, works, a, parser, first.ledger);
            RunChain(rules + more, task, wc, works, a, parser, l)
              == (match rest
                  case Ran(l', n, s) => Ran(l', |rules| + n, s)
                  case Raised(n) => Raised(|rules| + n))
    decreases |more|
  {
    if more == [] {
      assert rules + more == rules;
    } else {
      var init, last := more[..|more| - 1], more[|more| - 1];
      assert (rules + more)[..|rules + more| - 1] == rules + init;
      assert (rules + more)[|rules + more| - 1] == last;
      ChainRunsInOrder(rules, init, task, wc, works, a, parser, l);
      var first := RunChain(rules, task, wc, works, a, parser, l).ledger;
      RunChainLast(rules + more, task, wc, works, a, parser, l);
      RunChainLast(more, task, wc, works, a, parser, first);
    }
  }

  /** One step of the chain: the last rule runs on what the others left, unless one of
      them returned false or threw. */
  lemma RunChainLast(rules: seq<ScoringRule>, task: Task, wc: WorkChunk, works: seq<WorkChunk>, a: Assignment,
                     parser: LabelParser, l: Ledger)
    requires l.Valid() && |a| == |works| && rules != []
    ensures RunChain(rules, task, wc, works, a, parser, l)
            == match RunChain(rules[..|rules| - 1], task, wc, works, a, parser, l)
               case Raised(n) => Raised(n)
               case Ran(l', n, stopped) =>
                 if stopped then Ran(l', n, true)
                 else match RunRule(rules[|rules| - 1], task, wc, works, a, parser, l')
                      case Threw => Raised(n + 1)
                      case Returned(l'', proceed) => Ran(l'', n + 1, !proceed)
  {
  }

  /** The rules of this plugin always return true and never rule a chunk out: a chain of
      them calls every rule and leaves every chunk valid. */
  lemma {:induction false} BuiltInRulesRuleNothingOut(
      rules: seq<ScoringRule>, task: Task, wc: WorkChunk, works: seq<WorkChunk>,
      a: Assignment, parser: LabelParser, l: Ledger)
    requires l.Valid() && |a| == |works|
    requires forall i :: 0 <= i < |rules| ==> !rules[i].Custom?
    ensures var r := RunChain(rules, task, wc, works, a, parser, l);
            && r.Ran? && !r.stopped && r.invoked == |rules|
            && r.ledger.invalidExecutors == l.invalidExecutors
            && r.ledger.executorScoreMap.Keys == l.executorScoreMap.Keys
    decreases |rules|
  {
    if rules != [] {
      BuiltInRulesRuleNothingOut(rules[..|rules| - 1], task, wc, works, a, parser, l);
    }
  }

  /** A rule that returns false still keeps the changes it made. */
  lemma StoppingRuleKeepsItsScores(
      rule: ScoringRule, rest: seq<ScoringRule>, task: Task, wc: WorkChunk, works: seq<WorkChunk>,
      a: Assignment, parser: LabelParser, l: Ledger)
    requires l.Valid() && |a| == |works|
    requires RunRule(rule, task, wc, works, a, parser, l).Returned?
    requires !RunRule(rule, task, wc, works, a, parser, l).proceed
    ensures RunChain([rule] + rest, task, wc, works, a, parser, l)
            == Ran(RunRule(rule, task, wc, works, a, parser, l).ledger, 1, true)
  {
    assert RunChain([rule], task, wc, works, a, parser, l)
           == Ran(RunRule(rule, task, wc, works, a, parser, l).ledger, 1, true) by {
      assert [rule][..0] == [];
    }
    LaterRulesNotCalled([rule], rest, task, wc, works, a, parser, l);
  }

  // ---------------------------------------------------------------------------
  // Running rules against a NodesScore

  /** One NodesScore call made by a rule; false where Java throws. */
  method Perform(op: LedgerOp, ns: NodesScore) returns (ok: bool)
    requires ns.Valid()
    modifies ns
    ensures ok == old(ns.Content()).Apply(op).Some?
    ensures ok ==> ns.Content() == old(ns.Content()).Apply(op).value
  {
    match op {
      case AddScore(ec, score) =>
        if ec !in ns.executorScoreMap {
          return false;
        }
        ns.AddScore(ec, score);
      case AddNodeScore(node, score) =>
        if node !in ns.nodeExecutorMap {
          return false;
        }
        ns.AddNodeScore(node, score);
      case ResetScore(ec) => ns.ResetScore(ec);
      case ResetNodeScore(node) => ns.ResetNodeScore(node);
      case MarkInvalid(ec) => ns.MarkInvalid(ec);
      case MarkNodeInvalid(node) => ns.MarkNodeInvalid(node);
      case ResetInvalid => ns.ResetInvalid();
      case MarkAllInvalid => ns.MarkAllInvalid();
    }
    return true;
  }

  /** A rule of another plugin calling NodesScore, operation by operation. */
  method PerformAll(ops: seq<LedgerOp>, ns: NodesScore) returns (ok: bool)
    requires ns.Valid()
    modifies ns
    ensures ok == ApplyAll(old(ns.Content()), ops).Some?
    ensures ok ==> ns.Valid() && ns.Content() == ApplyAll(old(ns.Content()), ops).value
  {
    ghost var start := ns.Content();
    for i := 0 to |ops|
      invariant ns.Valid()
      invariant ApplyAll(start, ops) == ApplyAll(ns.Content(), ops[i..])
    {
      assert ops[i..][1..] == ops[i + 1..];
      ok := Perform(ops[i], ns);
      if !ok {
        return;
      }
    }
    assert ops[|ops|..] == [];
    return true;
  }

  /** updateScores of any rule. */
  method UpdateScores(rule: ScoringRule, task: Task, wc: WorkChunk, m: Mapping, parser: LabelParser, ns: NodesScore)
      returns (outcome: RuleOutcome)
    requires m.Valid() && ns.Valid()
    modifies ns
    ensures RunRule(rule, task, wc, m.worksheet.works, m.mapping[..], parser, old(ns.Content()))
            == if outcome == Throw then Threw else Returned(ns.Content(), outcome == Continue)
  {
    var proceed: bool;
    match rule {
      case NodeLoad(nl) =>
        proceed := NodeLoadRules.UpdateScores(nl, task, wc, m, ns);
      case BuildResult(br) =>
        proceed := BuildResultRules.UpdateScores(br, task, wc, m, ns);
      case NodePreference(np) =>
        proceed := NodePreferenceRules.UpdateScores(np, parser, task, wc, m, ns);
      case Custom(script) =>
        var s := script(task, wc, m.mapping[..], ns.Content());
        var ok := PerformAll(s.ops, ns);
        if !ok {
          return Throw;
        }
        return s.outcome;
    }
    return if proceed then Continue else Stop;
  }

  /** The loop of assignGreedily that calls the rules for one work chunk. */
  method RunRules(rules: seq<ScoringRule>, task: Task, wc: WorkChunk, m: Mapping, parser: LabelParser, ns: NodesScore)
      returns (threw: bool)
    requires m.Valid() && ns.Valid()
    modifies ns
    ensures var run := RunChain(rules, task, wc, m.worksheet.works, m.mapping[..], parser, old(ns.Content()));
            && threw == run.Raised?
            && (!threw ==> ns.Valid() && ns.Content() == run.ledger)
  {
    ghost var start := ns.Content();
    ghost var works := m.worksheet.works;
    ghost var a := m.mapping[..];
    for i := 0 to |rules|
      invariant ns.Valid()
      invariant RunChain(rules[..i], task, wc, works, a, parser, start) == Ran(ns.Content(), i, false)
    {
      assert rules[..i + 1][..i] == rules[..i];
      var outcome := UpdateScores(rules[i], task, wc, m, parser, ns);
      if outcome == Throw {
        LaterRulesNotCalled(rules[..i + 1], rules[i + 1..], task, wc, works, a, parser, start);
        assert rules[..i + 1] + rules[i + 1..] == rules;
        return true;
      }
      if outcome == Stop {
        LaterRulesNotCalled(rules[..i + 1], rules[i + 1..], task, wc, works, a, parser, start);
        assert rules[..i + 1] + rules[i + 1..] == rules;
        return false;
      }
    }
    assert rules[..|rules|] == rules;
    return false;
  }
}
