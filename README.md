# Scoring Load Balancer, modelled in Dafny

The Jenkins Scoring Load Balancer plugin replaces the Jenkins `LoadBalancer`.
When a queued task is about to start, `map(task, worksheet)` decides which executor
chunk (the executors of one computer) takes each work chunk of the task. The work
chunks are handled in order. For each one, every applicable executor chunk starts
at score 0 in a `NodesScore`. The configured `ScoringRule`s then run one after
another. Each rule adds to the scores, and may rule a chunk out or stop the chain.
The chunks are shuffled and sorted by score, highest first. The first chunk that
is not ruled out, keeps the mapping partially valid and lets the later work chunks
be assigned is kept. If none works, the search backtracks. When the plugin is
disabled, or a rule throws, the decision goes to the load balancer that was
installed before.

The plugin has three rules of its own:

- **NodeLoadScoringRule** scores idle and busy executors. Executors that this
  mapping has already given away count as busy.
- **BuildPreferenceScoringRule** (`NodePreferenceScoringRule`) adds a node's own
  preference. It also adds the preferences that a job sets on label expressions
  matching the node.
- **BuildResultScoringRule** scores the nodes where the latest builds of each
  subtask ran. The score depends on the build's result and is weighted by how old
  the build is.

The form validators of the configuration pages (`ValidationUtil.doCheckInteger`,
`BuildPreference.doCheck*`, `doAutoCompleteLabelExpression` and
`doCheckNumberOfBuilds`) are modelled too.

The modules follow the source:

| module | file | models |
|---|---|---|
| `JavaLang` | `java_lang.dfy` | null (`Option`), the `int` range, `Character.isWhitespace`, `String.trim`, `String.isBlank`, `Integer.parseInt` and `Integer.toString` |
| `ValidationUtil` | `validation_util.dfy` | `FormValidation` and `ValidationUtil.doCheckInteger` |
| `Jenkins` | `jenkins_model.dfy` | nodes, executor chunks, build histories and the label parser, as plain values |
| `MappingWorksheets` | `mapping_worksheet.dfy` | `MappingWorksheet`, `WorkChunk`, and `Mapping` as a class over an array |
| `NodesScores` | `nodes_score.dfy` | `ScoringLoadBalancer.NodesScore`: a `Ledger` value and the `NodesScore` class that holds one |
| `ScoringRules` | `scoring_rule.dfy` | `ScoringRule.updateScores` over the three built-in rules and rules of other plugins, and the rule chain of `assignGreedily` |
| `NodeLoadRules`, `NodePreferenceRules`, `BuildResultRules` | `node_load_rule.dfy`, `node_preference_rule.dfy`, `build_result_rule.dfy` | the three rules |
| `BuildPreferences` | `build_preference.dfy` | `BuildPreference` and its descriptor's form methods |
| `ScoringLoadBalancers` | `scoring_load_balancer.dfy` | the comparator, `sortExecutors`, `assignGreedily` and `map` |

### How the code is modelled

- **Imperative code stays imperative.**
  - `NodesScore` is a class whose maps are fields.
  - `Mapping` is a class over an array.
  - The rules' `updateScores` methods are loops that update the `NodesScore`.
  - `sortExecutors` shuffles and sorts an array in place.
  - `assignGreedily` is a recursive method that assigns and clears entries of the
    mapping.
  - `map` updates `lastEvaluation`.
- **Each method is proved against pure functions.** The rules' methods are proved
  equal to closed forms on the `Ledger` value (`Apply`). `assignGreedily` is proved
  against a declarative description of the search (`Extendable`,
  `GreedyCompletion`).
- **Rules are a closed datatype.** Rules of other plugins are the `Custom` variant.
  Such a rule is described by the `NodesScore` calls it makes and by how it ends:
  it returns true, returns false, or throws.

## Model

Source paths are relative to the repository root.

| member | source | states |
|---|---|---|
| JavaLang.ParseInt | src/main/java/jp/ikedam/jenkins/plugins/scoringloadbalancer/util/ValidationUtil.java:45 | `Integer.parseInt`: a result is always inside the `int` range, and only a string that starts with a sign or a digit parses |
| JavaLang.ParseFormatRoundTrip | src/main/java/jp/ikedam/jenkins/plugins/scoringloadbalancer/util/ValidationUtil.java:45 | every `int`, printed as Java prints it, parses back to itself |
| JavaLang.ParseIntLeadingZero | src/main/java/jp/ikedam/jenkins/plugins/scoringloadbalancer/util/ValidationUtil.java:45 | a zero after the sign does not change what `parseInt` returns |
| JavaLang.TrimPadded | src/main/java/jp/ikedam/jenkins/plugins/scoringloadbalancer/util/ValidationUtil.java:45 | `trim` removes exactly the spaces around a value whose ends are visible characters |
| JavaLang.TrimIdempotent | src/main/java/jp/ikedam/jenkins/plugins/scoringloadbalancer/preferences/BuildPreference.java:85 | trimming twice is trimming once |
| JavaLang.DigitsValueBound | src/main/java/jp/ikedam/jenkins/plugins/scoringloadbalancer/util/ValidationUtil.java:45 | a numeral of k digits is worth less than 10^k, which is what keeps short numerals inside the `int` range |
| ValidationUtil.DoCheckInteger | src/main/java/jp/ikedam/jenkins/plugins/scoringloadbalancer/util/ValidationUtil.java:36-53 | "required" exactly for null or blank input; OK exactly when the trimmed value parses as an `int`; "invalid" otherwise |
| ValidationUtil.BlankDoesNotParse | src/main/java/jp/ikedam/jenkins/plugins/scoringloadbalancer/util/ValidationUtil.java:38-45 | a blank value never reaches a successful parse, so the blank check only changes the message |
| ValidationUtil.DoCheckIntegerAcceptsEveryInt | src/test/java/jp/ikedam/jenkins/plugins/scoringloadbalancer/util/ValidationUtilTest.java:37-81 | every `int`, printed in decimal, is accepted |
| ValidationUtil.DoCheckIntegerRejectsEveryOtherNumber | src/test/java/jp/ikedam/jenkins/plugins/scoringloadbalancer/util/ValidationUtilTest.java:112-125 | every integer outside the `int` range, printed in decimal, is rejected as invalid |
| ValidationUtil.DoCheckIntegerRejectsNonDigit | src/test/java/jp/ikedam/jenkins/plugins/scoringloadbalancer/util/ValidationUtilTest.java:97-111 | a value that starts with a digit, ends with a character above U+0020 and contains a non-digit is invalid (such as "1f" or "1.2") |
| ValidationUtil.DoCheckIntegerAcceptsShortNumerals | src/test/java/jp/ikedam/jenkins/plugins/scoringloadbalancer/util/ValidationUtilTest.java:77-81 | up to nine digits, optionally signed and padded with spaces, are always accepted |
| ValidationUtil.AcceptedWhenPadded | src/test/java/jp/ikedam/jenkins/plugins/scoringloadbalancer/util/ValidationUtilTest.java:77-81 | spaces around a value that parses do not change the verdict |
| ValidationUtil.DoCheckIntegerAcceptsLeadingZeros | src/test/java/jp/ikedam/jenkins/plugins/scoringloadbalancer/util/ValidationUtilTest.java:62-66 | "-099" is accepted |
| ValidationUtil.DoCheckIntegerRequiredExamples | src/test/java/jp/ikedam/jenkins/plugins/scoringloadbalancer/util/ValidationUtilTest.java:82-96 | null, "" and "   " are reported as required |
| ValidationUtil.DoCheckIntegerInvalidExamples | src/test/java/jp/ikedam/jenkins/plugins/scoringloadbalancer/util/ValidationUtilTest.java:97-125 | "1f", "1.2", "0.0", `Integer.MAX_VALUE + 1` and `Integer.MIN_VALUE - 1` are reported as invalid |
| MappingWorksheets.Mapping.constructor | src/main/java/jp/ikedam/jenkins/plugins/scoringloadbalancer/ScoringLoadBalancer.java:146 | a new mapping has one entry per work chunk, and none is assigned |
| MappingWorksheets.Mapping.Assign | src/main/java/jp/ikedam/jenkins/plugins/scoringloadbalancer/ScoringLoadBalancer.java:229 | `assign` sets one entry, to a chunk or to null, and leaves the others unchanged |
| NodesScores.NewLedger | src/main/java/jp/ikedam/jenkins/plugins/scoringloadbalancer/ScoringLoadBalancer.java:418-427 | every given chunk scores 0, none is ruled out, every node maps to one of its chunks, and the result satisfies the ledger invariant |
| NodesScores.LastChunkOwnsItsNode | src/main/java/jp/ikedam/jenkins/plugins/scoringloadbalancer/ScoringLoadBalancer.java:424-425 | when a node has several chunks, node scores go to the last one in the list, because later `put`s overwrite earlier ones |
| NodesScores.Ledger.ScoreAdded | src/main/java/jp/ikedam/jenkins/plugins/scoringloadbalancer/ScoringLoadBalancer.java:467-469 | `addScore(executor)` raises that chunk's score by the amount and changes nothing else, keeping the invariant |
| NodesScores.Ledger.NodeScoreAdded | src/main/java/jp/ikedam/jenkins/plugins/scoringloadbalancer/ScoringLoadBalancer.java:455-457 | `addScore(node)` is `addScore` on the chunk of that node |
| NodesScores.Ledger.ScoreReset | src/main/java/jp/ikedam/jenkins/plugins/scoringloadbalancer/ScoringLoadBalancer.java:487-489 | `resetScore(executor)` sets that chunk's score to 0 and adds the chunk if it was not scored; other scores are untouched |
| NodesScores.Ledger.MarkedInvalid | src/main/java/jp/ikedam/jenkins/plugins/scoringloadbalancer/ScoringLoadBalancer.java:520-522 | `markInvalid(executor)` rules out exactly one more chunk |
| NodesScores.Ledger.InvalidReset | src/main/java/jp/ikedam/jenkins/plugins/scoringloadbalancer/ScoringLoadBalancer.java:536-538 | after `resetInvalid` no chunk is ruled out, and the scores are unchanged |
| NodesScores.Ledger.AllMarkedInvalid | src/main/java/jp/ikedam/jenkins/plugins/scoringloadbalancer/ScoringLoadBalancer.java:543-545 | after `markAllInvalid` a chunk is ruled out exactly when it was ruled out before or is scored |
| NodesScores.Ledger.Apply | src/main/java/jp/ikedam/jenkins/plugins/scoringloadbalancer/ScoringLoadBalancer.java:455-563 | a `NodesScore` call fails (a NullPointerException) exactly when it adds to an unknown chunk or node; otherwise it keeps the invariant and the node map and loses no scored chunk. The null key Java stores for an unknown node is not modelled (see "## Left out") |
| NodesScores.ApplyAll | src/main/java/jp/ikedam/jenkins/plugins/scoringloadbalancer/ScoringLoadBalancer.java:455-563 | a sequence of calls that does not throw keeps the invariant, the node map and every scored chunk |
| NodesScores.AddNodeScoresAppend | src/main/java/jp/ikedam/jenkins/plugins/scoringloadbalancer/ScoringLoadBalancer.java:455-457 | handing out awards in two batches is the same as handing them out at once |
| NodesScores.AwardSumAppend | src/main/java/jp/ikedam/jenkins/plugins/scoringloadbalancer/ScoringLoadBalancer.java:455-457 | the total a node is awarded is additive over batches of awards |
| NodesScores.AddNodeScoresTotal | src/main/java/jp/ikedam/jenkins/plugins/scoringloadbalancer/ScoringLoadBalancer.java:455-457 | scores accumulate: after any sequence of `addScore(node)` calls, each chunk holds its old score plus the awards of the nodes it owns |
| NodesScores.NodesScore.GetNodes | src/main/java/jp/ikedam/jenkins/plugins/scoringloadbalancer/ScoringLoadBalancer.java:436-438 | every node returned has a scored chunk of that node, and node scores go to that chunk |
| NodesScores.NodesScore.QueriesAgreeWithUpdates | src/main/java/jp/ikedam/jenkins/plugins/scoringloadbalancer/ScoringLoadBalancer.java:436-563 | `getScore` (by chunk or by node) is the score `addScore` adds to and `resetScore` clears. `isInvalid` holds exactly when `markInvalid` would change nothing. Each node of `getNodes` has its chunk among `getExecutorChunks`, and resetting one of those adds no chunk |
| NodesScores.Ledger.IsNodeInvalid | src/main/java/jp/ikedam/jenkins/plugins/scoringloadbalancer/ScoringLoadBalancer.java:561-563 | for a node the ledger knows, `isInvalid(node)` holds exactly when the node's own chunk is ruled out. An unknown node is answered false (see "## Left out") |
| NodesScores.NodeInvalidity | src/main/java/jp/ikedam/jenkins/plugins/scoringloadbalancer/ScoringLoadBalancer.java:529-563 | for a node the ledger knows: `markInvalid(node)` rules it out, `resetInvalid` clears it, and `markAllInvalid` rules it out |
| NodesScores.NodesScore.constructor | src/main/java/jp/ikedam/jenkins/plugins/scoringloadbalancer/ScoringLoadBalancer.java:418-427 | the new object holds `NewLedger(executors)` |
| NodesScores.NodesScore.AddScore | src/main/java/jp/ikedam/jenkins/plugins/scoringloadbalancer/ScoringLoadBalancer.java:467-469 | the new state is `ScoreAdded` of the old one |
| NodesScores.NodesScore.AddNodeScore | src/main/java/jp/ikedam/jenkins/plugins/scoringloadbalancer/ScoringLoadBalancer.java:455-457 | the new state is `NodeScoreAdded` of the old one |
| NodesScores.NodesScore.ResetScore | src/main/java/jp/ikedam/jenkins/plugins/scoringloadbalancer/ScoringLoadBalancer.java:487-489 | the new state is `ScoreReset` of the old one |
| NodesScores.NodesScore.ResetNodeScore | src/main/java/jp/ikedam/jenkins/plugins/scoringloadbalancer/ScoringLoadBalancer.java:476-478 | resets the score of the node's chunk, and does nothing for an unknown node |
| NodesScores.NodesScore.MarkInvalid | src/main/java/jp/ikedam/jenkins/plugins/scoringloadbalancer/ScoringLoadBalancer.java:520-522 | the new state is `MarkedInvalid` of the old one |
| NodesScores.NodesScore.MarkNodeInvalid | src/main/java/jp/ikedam/jenkins/plugins/scoringloadbalancer/ScoringLoadBalancer.java:529-531 | rules out the node's chunk, and does nothing for an unknown node |
| NodesScores.NodesScore.ResetInvalid | src/main/java/jp/ikedam/jenkins/plugins/scoringloadbalancer/ScoringLoadBalancer.java:536-538 | the new state is `InvalidReset` of the old one |
| NodesScores.NodesScore.MarkAllInvalid | src/main/java/jp/ikedam/jenkins/plugins/scoringloadbalancer/ScoringLoadBalancer.java:543-545 | the new state is `AllMarkedInvalid` of the old one |
| ScoringRules.RunRule | src/main/java/jp/ikedam/jenkins/plugins/scoringloadbalancer/ScoringRule.java:25-69 | a rule that returns keeps the ledger invariant, the node map and every scored chunk; a built-in rule always returns true, rules nothing out and scores no new chunk |
| ScoringRules.RunChain | src/main/java/jp/ikedam/jenkins/plugins/scoringloadbalancer/ScoringLoadBalancer.java:215-219 | the number of rules called is between 1 and the list length (0 for an empty list), and all are called unless one stopped the chain |
| ScoringRules.LaterRulesNotCalled | src/main/java/jp/ikedam/jenkins/plugins/scoringloadbalancer/ScoringLoadBalancer.java:215-219 | once a rule has returned false or thrown, rules appended after it change nothing |
| ScoringRules.ChainRunsInOrder | src/main/java/jp/ikedam/jenkins/plugins/scoringloadbalancer/ScoringLoadBalancer.java:215-219 | when every rule of a list returns true, the rules after it run on the scores it left |
| ScoringRules.BuiltInRulesRuleNothingOut | src/main/java/jp/ikedam/jenkins/plugins/scoringloadbalancer/ScoringLoadBalancer.java:215-219 | a chain of built-in rules runs to the end, calls every rule and rules no chunk out |
| ScoringRules.StoppingRuleKeepsItsScores | src/main/java/jp/ikedam/jenkins/plugins/scoringloadbalancer/ScoringLoadBalancer.java:216-218 | a rule that returns false stops the chain, and the changes it made are kept |
| ScoringRules.Perform | src/main/java/jp/ikedam/jenkins/plugins/scoringloadbalancer/ScoringLoadBalancer.java:455-563 | one `NodesScore` call succeeds exactly when `Ledger.Apply` does, and then leaves its result |
| ScoringRules.PerformAll | src/main/java/jp/ikedam/jenkins/plugins/scoringloadbalancer/ScoringRule.java:25-69 | another plugin's calls succeed exactly when `ApplyAll` does, and then leave its result |
| ScoringRules.UpdateScores | src/main/java/jp/ikedam/jenkins/plugins/scoringloadbalancer/ScoringRule.java:25-69 | `updateScores` of any rule does what `RunRule` describes: its return value, or the exception and the state it was thrown in |
| ScoringRules.RunRules | src/main/java/jp/ikedam/jenkins/plugins/scoringloadbalancer/ScoringLoadBalancer.java:215-219 | the rule loop of `assignGreedily` does what `RunChain` describes |
| NodeLoadRules.Apply | src/main/java/jp/ikedam/jenkins/plugins/scoringloadbalancer/rules/NodeLoadScoringRule.java:99-118 | every scored chunk gains `(busy * scoreForBusy + idle * scoreForIdle) * scale`; nothing else changes |
| NodeLoadRules.UpdateScores | src/main/java/jp/ikedam/jenkins/plugins/scoringloadbalancer/rules/NodeLoadScoringRule.java:99-118 | the method's new scores are `Apply` of the old ones, and it returns true |
| NodeLoadRules.CountIdle | src/main/java/jp/ikedam/jenkins/plugins/scoringloadbalancer/rules/NodeLoadScoringRule.java:102-109 | the inner loop leaves the chunk's capacity less the sizes of the work chunks this mapping already gives it |
| NodeLoadRules.IdleWhenNothingAssigned | src/main/java/jp/ikedam/jenkins/plugins/scoringloadbalancer/rules/NodeLoadScoringRule.java:102-109 | with nothing assigned yet, all the chunk's capacity counts as idle |
| NodeLoadRules.AssignTakesIdleExecutors | src/main/java/jp/ikedam/jenkins/plugins/scoringloadbalancer/rules/NodeLoadScoringRule.java:102-109 | assigning a work chunk to a chunk takes that work chunk's size from its idle count, and leaves other chunks' counts unchanged |
| NodeLoadRules.LoadAfterAssign | src/main/java/jp/ikedam/jenkins/plugins/scoringloadbalancer/rules/NodeLoadScoringRule.java:104-108 | the load a prefix of work chunks puts on a chunk grows by the new work chunk's size exactly when that work chunk is in the prefix and goes to that chunk |
| NodeLoadRules.PrefersIdleChunks | src/main/java/jp/ikedam/jenkins/plugins/scoringloadbalancer/rules/NodeLoadScoringRule.java:110-114 | with a positive scale and idle executors worth more than busy ones, of two computers of the same size the one with more idle executors scores higher |
| NodePreferenceRules.Apply | src/main/java/jp/ikedam/jenkins/plugins/scoringloadbalancer/rules/NodePreferenceScoringRule.java:95-149 | the chunk of each node gains the node's own scaled preference plus the scaled preferences of every job preference whose label expression parses and contains the node |
| NodePreferenceRules.UpdateScores | src/main/java/jp/ikedam/jenkins/plugins/scoringloadbalancer/rules/NodePreferenceScoringRule.java:95-149 | the method's new scores are `Apply` of the old ones, and it returns true |
| NodePreferenceRules.ScoreNodePreferences | src/main/java/jp/ikedam/jenkins/plugins/scoringloadbalancer/rules/NodePreferenceScoringRule.java:99-109 | the first loop adds to each node's chunk the first node property's preference, scaled |
| NodePreferenceRules.ScorePreferences | src/main/java/jp/ikedam/jenkins/plugins/scoringloadbalancer/rules/NodePreferenceScoringRule.java:127-145 | the loop over one job's preferences adds `PreferencesScore` to each node's chunk |
| NodePreferenceRules.ScorePreference | src/main/java/jp/ikedam/jenkins/plugins/scoringloadbalancer/rules/NodePreferenceScoringRule.java:129-144 | one preference adds its scaled value to the nodes its label contains, or nothing when the expression does not parse |
| NodePreferenceRules.NodeScoreUsesFirstProperty | src/main/java/jp/ikedam/jenkins/plugins/scoringloadbalancer/rules/NodePreferenceScoringRule.java:102-108 | node properties after the first change nothing |
| NodePreferenceRules.InvalidPreferencesSkipped | src/main/java/jp/ikedam/jenkins/plugins/scoringloadbalancer/rules/NodePreferenceScoringRule.java:141-144 | a preference whose label expression does not parse is skipped and does not affect the others |
| NodePreferenceRules.OnlyJobPreferencesCount | src/main/java/jp/ikedam/jenkins/plugins/scoringloadbalancer/rules/NodePreferenceScoringRule.java:114-125 | subtasks that are not jobs, or jobs without the property, add nothing |
| NodePreferenceRules.ProjectScoreAppend | src/main/java/jp/ikedam/jenkins/plugins/scoringloadbalancer/rules/NodePreferenceScoringRule.java:112-146 | each subtask of a work chunk adds its preferences independently |
| NodePreferenceRules.UnmatchedNodeGetsNoProjectScore | src/main/java/jp/ikedam/jenkins/plugins/scoringloadbalancer/rules/NodePreferenceScoringRule.java:131-139 | a node that no valid label expression contains gets no project score |
| NodePreferenceRules.UnmatchedPreferencesScoreZero | src/main/java/jp/ikedam/jenkins/plugins/scoringloadbalancer/rules/NodePreferenceScoringRule.java:131-139 | the same, for the preferences of one job |
| NodePreferenceRules.Parsable | src/main/java/jp/ikedam/jenkins/plugins/scoringloadbalancer/rules/NodePreferenceScoringRule.java:131 | the filtered preferences all have label expressions that parse |
| NodePreferenceRules.JobsWithPreferences | src/main/java/jp/ikedam/jenkins/plugins/scoringloadbalancer/rules/NodePreferenceScoringRule.java:114-125 | the filtered subtasks are all jobs with a preference property |
| BuildResultRules.PastBuilds | src/main/java/jp/ikedam/jenkins/plugins/scoringloadbalancer/rules/BuildResultScoringRule.java:155-198 | a freestyle history yields one candidate node per build, newest first; a pipeline history yields one entry per run; a subtask without history yields none |
| BuildResultRules.FoundNode | src/main/java/jp/ikedam/jenkins/plugins/scoringloadbalancer/rules/BuildResultScoringRule.java:177-202 | a found node is always one still to be scored |
| BuildResultRules.Walk | src/main/java/jp/ikedam/jenkins/plugins/scoringloadbalancer/rules/BuildResultScoringRule.java:169-219 | every node awarded for a subtask is one of the nodes to be scored |
| BuildResultRules.SubTaskAwards | src/main/java/jp/ikedam/jenkins/plugins/scoringloadbalancer/rules/BuildResultScoringRule.java:146-221 | every award goes to a scored node |
| BuildResultRules.Apply | src/main/java/jp/ikedam/jenkins/plugins/scoringloadbalancer/rules/BuildResultScoringRule.java:146-221 | the rule keeps the ledger invariant, the node map, the ruled-out chunks and the set of scored chunks |
| BuildResultRules.UpdateScores | src/main/java/jp/ikedam/jenkins/plugins/scoringloadbalancer/rules/BuildResultScoringRule.java:146-221 | the method's new scores are `Apply` of the old ones, and it returns true |
| BuildResultRules.ScoreSubTaskIfBuilt | src/main/java/jp/ikedam/jenkins/plugins/scoringloadbalancer/rules/BuildResultScoringRule.java:160-166 | a subtask without a last build adds nothing; otherwise its walk's awards are added |
| BuildResultRules.SubTaskAwardsStep | src/main/java/jp/ikedam/jenkins/plugins/scoringloadbalancer/rules/BuildResultScoringRule.java:151-167 | the awards of one more subtask are added after the earlier ones, and each subtask starts again from all the nodes |
| BuildResultRules.ScoreSubTask | src/main/java/jp/ikedam/jenkins/plugins/scoringloadbalancer/rules/BuildResultScoringRule.java:167-219 | the loop over the newest builds adds exactly the awards of `Walk` |
| BuildResultRules.ScoreBuild | src/main/java/jp/ikedam/jenkins/plugins/scoringloadbalancer/rules/BuildResultScoringRule.java:170-218 | one iteration adds the awards of one step of `Walk` and removes the scored node from the nodes still to score |
| BuildResultRules.LookAtBuild | src/main/java/jp/ikedam/jenkins/plugins/scoringloadbalancer/rules/BuildResultScoringRule.java:170-199 | the build `pastNum` back gives the result read, and a node that is the first one to be scored, or one that does not count |
| BuildResultRules.WalkFlowGraph | src/main/java/jp/ikedam/jenkins/plugins/scoringloadbalancer/rules/BuildResultScoringRule.java:177-198 | the flow-graph walk stops at the first workspace node still to be scored; when there is none it ends holding a node that does not count |
| BuildResultRules.FoundNodeAt | src/main/java/jp/ikedam/jenkins/plugins/scoringloadbalancer/rules/BuildResultScoringRule.java:186-193 | the first candidate still to be scored is the one found, and none is found when no candidate is still to be scored |
| BuildResultRules.WalkSkips | src/main/java/jp/ikedam/jenkins/plugins/scoringloadbalancer/rules/BuildResultScoringRule.java:200-218 | a build with no node to score, or with a result that does not count, awards nothing |
| BuildResultRules.WalkAwards | src/main/java/jp/ikedam/jenkins/plugins/scoringloadbalancer/rules/BuildResultScoringRule.java:204-218 | a counted build awards its node the result score times `scale + scaleAdjustForOlder * pastNum`, and that node is not scored again |
| BuildResultRules.WalkScoresEachNodeOnce | src/main/java/jp/ikedam/jenkins/plugins/scoringloadbalancer/rules/BuildResultScoringRule.java:167-218 | each node is scored at most once per subtask |
| BuildResultRules.OlderBuildsIgnored | src/main/java/jp/ikedam/jenkins/plugins/scoringloadbalancer/rules/BuildResultScoringRule.java:169 | builds older than the newest `numberOfBuilds` are never looked at |
| BuildResultRules.FreestyleScoresMostRecentBuild | src/main/java/jp/ikedam/jenkins/plugins/scoringloadbalancer/rules/BuildResultScoringRule.java:169-219 | for a freestyle project a node receives exactly the weighted score of the most recent counted build on it, and nothing if it is not to be scored |
| BuildResultRules.DoCheckNumberOfBuilds | src/main/java/jp/ikedam/jenkins/plugins/scoringloadbalancer/rules/BuildResultScoringRule.java:248-263 | "required" exactly for null or blank input; OK exactly for a positive `int` once trimmed; "invalid" otherwise |
| BuildResultRules.DoCheckNumberOfBuildsDecides | src/main/java/jp/ikedam/jenkins/plugins/scoringloadbalancer/rules/BuildResultScoringRule.java:248-263 | every positive `int` is accepted; zero and every negative `int` are rejected as invalid |
| BuildPreferences.NewBuildPreference | src/main/java/jp/ikedam/jenkins/plugins/scoringloadbalancer/preferences/BuildPreference.java:84-87 | the preference is kept; the label expression is stored trimmed, and null stays null |
| BuildPreferences.NewBuildPreferenceStable | src/main/java/jp/ikedam/jenkins/plugins/scoringloadbalancer/preferences/BuildPreference.java:84-87 | rebuilding a preference from its own fields gives the same preference |
| BuildPreferences.NewBuildPreferenceDropsSpaces | src/main/java/jp/ikedam/jenkins/plugins/scoringloadbalancer/preferences/BuildPreference.java:85 | spaces typed around a label expression are not kept |
| BuildPreferences.DoCheckLabelExpression | src/main/java/jp/ikedam/jenkins/plugins/scoringloadbalancer/preferences/BuildPreference.java:166-187 | each outcome happens exactly in its case: required for null or blank input; invalid when the expression does not parse; a warning when it matches no node; OK otherwise |
| BuildPreferences.DoCheckPreference | src/main/java/jp/ikedam/jenkins/plugins/scoringloadbalancer/preferences/BuildPreference.java:190-193 | the same verdicts as the shared integer check |
| BuildPreferences.TokenLength | src/main/java/jp/ikedam/jenkins/plugins/scoringloadbalancer/preferences/BuildPreference.java:133-137 | a token ends at the first delimiter |
| BuildPreferences.Tokens | src/main/java/jp/ikedam/jenkins/plugins/scoringloadbalancer/preferences/BuildPreference.java:133-137 | the tokenizer yields only non-empty runs without delimiters |
| BuildPreferences.TokensEmpty | src/main/java/jp/ikedam/jenkins/plugins/scoringloadbalancer/preferences/BuildPreference.java:133-141 | exactly a string of delimiters yields no token |
| BuildPreferences.LastTokenIsLastWord | src/main/java/jp/ikedam/jenkins/plugins/scoringloadbalancer/preferences/BuildPreference.java:133-137 | the token the loop is left holding is the last word of the value, read from the right |
| BuildPreferences.LastWordOfSuffix | src/main/java/jp/ikedam/jenkins/plugins/scoringloadbalancer/preferences/BuildPreference.java:133-137 | text before a delimiter does not change the last word |
| BuildPreferences.StrLessEqTotal | src/main/java/jp/ikedam/jenkins/plugins/scoringloadbalancer/preferences/BuildPreference.java:151 | the order of `String.compareTo` is total |
| BuildPreferences.StrLessEqTransitive | src/main/java/jp/ikedam/jenkins/plugins/scoringloadbalancer/preferences/BuildPreference.java:151 | the order of `String.compareTo` is transitive |
| BuildPreferences.StrLessEqAntisymmetric | src/main/java/jp/ikedam/jenkins/plugins/scoringloadbalancer/preferences/BuildPreference.java:151 | the order of `String.compareTo` is antisymmetric |
| BuildPreferences.SortStrings | src/main/java/jp/ikedam/jenkins/plugins/scoringloadbalancer/preferences/BuildPreference.java:151 | `Collections.sort` on names: the result is sorted and a permutation of the input |
| BuildPreferences.SortingDistinctNames | src/main/java/jp/ikedam/jenkins/plugins/scoringloadbalancer/preferences/BuildPreference.java:143-151 | sorting names that occur once each gives the same names in strictly ascending order |
| BuildPreferences.MatchingLabels | src/main/java/jp/ikedam/jenkins/plugins/scoringloadbalancer/preferences/BuildPreference.java:143-149 | a name is a candidate exactly when it is a known label starting with the prefix, and each occurs once |
| BuildPreferences.DoAutoCompleteLabelExpression | src/main/java/jp/ikedam/jenkins/plugins/scoringloadbalancer/preferences/BuildPreference.java:114-157 | no candidates for null, empty or all-delimiter input; otherwise exactly the known labels that start with the word being typed, in strictly ascending order |
| ScoringLoadBalancers.CompareAsWritten | src/main/java/jp/ikedam/jenkins/plugins/scoringloadbalancer/ScoringLoadBalancer.java:571 | the comparator as written returns an `int`, and orders higher scores first when the difference does not overflow |
| ScoringLoadBalancers.AsWrittenPutsLowScoreFirst | src/main/java/jp/ikedam/jenkins/plugins/scoringloadbalancer/ScoringLoadBalancer.java:571 | with scores 1 and `Integer.MIN_VALUE` the comparator as written puts the lower score first |
| ScoringLoadBalancers.AsWrittenIsNotTransitive | src/main/java/jp/ikedam/jenkins/plugins/scoringloadbalancer/ScoringLoadBalancer.java:571 | the comparator as written orders 0, `Integer.MIN_VALUE` and 1 in a cycle |
| ScoringLoadBalancers.Compare | src/main/java/jp/ikedam/jenkins/plugins/scoringloadbalancer/ScoringLoadBalancer.java:568-573 | negative exactly when the first score is higher, positive exactly when it is lower, and zero exactly on a tie |
| ScoringLoadBalancers.CompareIsTotalOrder | src/main/java/jp/ikedam/jenkins/plugins/scoringloadbalancer/ScoringLoadBalancer.java:568-573 | the corrected comparator is antisymmetric and transitive on all scores, and agrees with the one as written wherever the subtraction does not overflow |
| ScoringLoadBalancers.Wrap32 | src/main/java/jp/ikedam/jenkins/plugins/scoringloadbalancer/ScoringLoadBalancer.java:571 | Java `int` arithmetic: the result is in range, equals the exact value when that is in range, and differs from it by a multiple of 2^32 |
| ScoringLoadBalancers.Shuffle | src/main/java/jp/ikedam/jenkins/plugins/scoringloadbalancer/ScoringLoadBalancer.java:249 | the shuffle only permutes the chunks |
| ScoringLoadBalancers.SortByScore | src/main/java/jp/ikedam/jenkins/plugins/scoringloadbalancer/ScoringLoadBalancer.java:250 | the sort permutes the chunks so that scores are non-increasing |
| ScoringLoadBalancers.Insert | src/main/java/jp/ikedam/jenkins/plugins/scoringloadbalancer/ScoringLoadBalancer.java:250 | one insertion step extends the sorted prefix by one element and only permutes the array |
| ScoringLoadBalancers.SortExecutors | src/main/java/jp/ikedam/jenkins/plugins/scoringloadbalancer/ScoringLoadBalancer.java:248-251 | `sortExecutors` permutes the chunks so that scores are non-increasing |
| ScoringLoadBalancers.SortedPrefixIsBest | src/main/java/jp/ikedam/jenkins/plugins/scoringloadbalancer/ScoringLoadBalancer.java:221-235 | in the sorted list no later chunk scores higher than an earlier one |
| ScoringLoadBalancers.GreedyCompletionAssignsAll | src/main/java/jp/ikedam/jenkins/plugins/scoringloadbalancer/ScoringLoadBalancer.java:200-240 | a mapping the search accepts is completely valid, and each work chunk holds an applicable chunk that the rules did not rule out |
| ScoringLoadBalancers.GreedyCompletionExtends | src/main/java/jp/ikedam/jenkins/plugins/scoringloadbalancer/ScoringLoadBalancer.java:200-240 | a mapping the search accepts shows that the assignments made before it could be extended |
| ScoringLoadBalancers.ChosenIsGreedy | src/main/java/jp/ikedam/jenkins/plugins/scoringloadbalancer/ScoringLoadBalancer.java:227-235 | the first sorted candidate that leads to a complete mapping is one of the highest-scoring such candidates |
| ScoringLoadBalancers.ChosenScoresHighest | src/main/java/jp/ikedam/jenkins/plugins/scoringloadbalancer/ScoringLoadBalancer.java:221-235 | when the earlier candidates all failed, no eligible chunk that leads to a complete mapping scores higher than the current one |
| ScoringLoadBalancers.NoCandidateLeft | src/main/java/jp/ikedam/jenkins/plugins/scoringloadbalancer/ScoringLoadBalancer.java:227-239 | once every candidate has failed, the assignments so far cannot be extended |
| ScoringLoadBalancers.BuiltInRulesNeverRaise | src/main/java/jp/ikedam/jenkins/plugins/scoringloadbalancer/ScoringLoadBalancer.java:151-161 | with only the plugin's own rules no rule ever throws. By the contract of `Map`, an enabled call that is not throttled then always searches and never falls back |
| ScoringLoadBalancers.AssignGreedilyFrom | src/main/java/jp/ikedam/jenkins/plugins/scoringloadbalancer/ScoringLoadBalancer.java:200-240 | sound and complete from `target` on. On success the earlier entries are kept and the rest is a greedy completion. On failure no completion exists and the mapping is unchanged. The search ends early only when some rule throws, and it does end early, with the exception, when a rule throws while `target` is scored |
| ScoringLoadBalancers.ScoreAndTry | src/main/java/jp/ikedam/jenkins/plugins/scoringloadbalancer/ScoringLoadBalancer.java:207-240 | the same, for a work chunk before the last: score, sort, then try the candidates. It reports an exception only when some rule throws, and always when a rule throws while this work chunk is scored |
| ScoringLoadBalancers.TryInOrder | src/main/java/jp/ikedam/jenkins/plugins/scoringloadbalancer/ScoringLoadBalancer.java:227-239 | the candidate loop either finds a greedy completion or proves that none exists, and then clears the entry. It ends early only on a rule exception, and always when the first candidate is eligible and a rule throws while the next work chunk is scored |
| ScoringLoadBalancers.TryAt | src/main/java/jp/ikedam/jenkins/plugins/scoringloadbalancer/ScoringLoadBalancer.java:227-235 | one turn of the candidate loop: a success is a greedy completion, a failure changes only the target entry, and an early end means a rule threw. When the candidate is eligible and a rule throws while the next work chunk is scored, the search ends with that exception |
| ScoringLoadBalancers.TryCandidate | src/main/java/jp/ikedam/jenkins/plugins/scoringloadbalancer/ScoringLoadBalancer.java:228-234 | a ruled-out or invalid chunk is skipped; otherwise the recursion decides. On failure that chunk leads nowhere, and an early end means a rule threw. When the chunk is taken and a rule throws while the next work chunk is scored, the search ends with that exception |
| ScoringLoadBalancers.GiveUp | src/main/java/jp/ikedam/jenkins/plugins/scoringloadbalancer/ScoringLoadBalancer.java:237-239 | the entry is reset to null, which restores the mapping, and no completion exists |
| ScoringLoadBalancers.AssignGreedily | src/main/java/jp/ikedam/jenkins/plugins/scoringloadbalancer/ScoringLoadBalancer.java:172-175 | from an empty mapping: success means a greedy completion; failure means no completely valid mapping can be reached; an early end happens only when some rule throws, and always when a rule throws while the first work chunk is scored |
| ScoringLoadBalancers.ScoringLoadBalancer.constructor | src/main/java/jp/ikedam/jenkins/plugins/scoringloadbalancer/ScoringLoadBalancer.java:121-125 | keeps the fallback and records the creation time as the last evaluation |
| ScoringLoadBalancers.ScoringLoadBalancer.Map | src/main/java/jp/ikedam/jenkins/plugins/scoringloadbalancer/ScoringLoadBalancer.java:138-170 | throttled exactly within 1000 ms of the last evaluation, returning null with the state unchanged. Otherwise it records `now`. A search returns a greedy completion exactly when one exists, and null otherwise. The fallback decides only when the plugin is disabled or a rule throws, and then gives null when there is no fallback. When enabled and a rule throws while the first work chunk is scored, the fallback decides |

## Left out

- Logging, `reportScores`, permission checks and localised messages are left out. A `FormValidation` is reduced to its kind and message key.
- Jenkins label parsing is given as a parameter. This covers `LabelExpression.parseExpression`, `Label.contains`, `Label.getNodes` and `Jenkins.getLabels()`. So is the load balancer installed before this one.
- `System.currentTimeMillis()` is a parameter `now`. `map` reads the clock twice; the model uses one reading for both.
- `ScoringLoadBalancers.Shuffle`: the random swaps of `Collections.shuffle` are arbitrary indices. Only the fact that the result is a permutation is stated, not its distribution.
- `ScoringLoadBalancers.SortByScore`: the stability of `Collections.sort` is not stated. Only the fact that the sort is a permutation with non-increasing scores is stated. The sort is an insertion sort, not the library's merge sort.
- `BuildPreferences.SortStrings`: the same, for the sort of label names. The order is that of characters, not of UTF-16 code units.
- `NodesScores.NodesScore.ResetNodeScore` and `NodesScores.NodesScore.MarkNodeInvalid`: for an unknown node, Java puts the key null into the score map or the invalid set. The model does nothing in that case.
- NodesScores.Ledger.Apply, NodesScores.Ledger.IsNodeInvalid and NodesScores.NodeInvalidity leave out the null key that `nodeExecutorMap.get` returns for an unknown node. In Java this has three effects that the model does not have:
  - after `markInvalid` of an unknown node, `isInvalid(node)` is true for every unknown node, because the invalid set then holds null;
  - after `resetScore` of an unknown node, the score map holds the key null with 0, so a later `addScore` on any unknown node no longer throws;
  - with that null key in the score map, `NodeLoadScoringRule` reaches it in its loop over `getExecutorChunks()` and throws a NullPointerException (NodeLoadScoringRule.java:103), so `map` falls back where the model searches.
- `NodesScores.NodesScore.AddScore` and `NodesScores.NodesScore.AddNodeScore` require a scored chunk or node. The NullPointerException Java throws otherwise is modelled in `NodesScores.Ledger.Apply`, which rules of other plugins go through.
- `NodesScores.Ledger.ScoreAdded`, `NodeLoadRules.Apply`, `NodePreferenceRules.Apply` and `BuildResultRules.Apply` use unbounded integers. The 32-bit wrap-around of score arithmetic is modelled only in the comparator, under Findings.
- `map` calls `getScoringRuleList()` once before the search, and `assignGreedily` calls it again for every work chunk. The model uses one list throughout, as if the configuration did not change during a call.
- AssignGreedilyFrom, ScoreAndTry, TryInOrder, TryAt, TryCandidate, AssignGreedily and Map tie an early end to `RuleRaises`. That predicate means some rule throws for some mapping of the right size. It does not require that this mapping is one the search actually reached. In the other direction, a throw forces the early end only at the level the call scores first (and, for TryAt, TryCandidate and TryInOrder, at the next level after an eligible candidate). The bodies hand a `RuleThrew` result up unchanged, but the contracts do not state this for a throw deeper in the recursion or after a candidate that failed.
- Concurrency is left out: the queue lock that serialises `map` calls, and configuration changes while a search runs.
- Rules of other plugins are modelled by the `NodesScore` calls they make and by how they end. Any other state they read or change is not part of this model.
- JavaLang.ParseInt accepts only the ASCII digits. The other Unicode decimal digits that `Integer.parseInt` also accepts are not modelled.
- A null label expression passed to the label parser, and null subtasks, are not modelled.
- `src/main/java/jp/ikedam/jenkins/plugins/scoringloadbalancer/BuildResultScoringRule.java` is the legacy class kept for old configurations, and it is not part of this model. `BuildPreferenceJobProperty` and `BuildPreferenceNodeProperty` are reduced to their lists of preferences.

## Findings

| source | as written | input that shows it | evidently intended | confidence | as-written member | corrected member |
|---|---|---|---|---|---|---|
| src/main/java/jp/ikedam/jenkins/plugins/scoringloadbalancer/ScoringLoadBalancer.java:571 | `ExecutorComparator.compare` returns `getScore(o2) - getScore(o1)` in `int` arithmetic, which wraps around | scores 1 and `Integer.MIN_VALUE`: the difference overflows, so the chunk scoring `Integer.MIN_VALUE` is sorted first. Scores 0, `Integer.MIN_VALUE` and 1 are ordered in a cycle, so the comparator violates the `Comparator` contract and `Collections.sort` may throw | a three-way comparison that puts higher scores first (`Integer.compare(getScore(o2), getScore(o1))`) | not executed | ScoringLoadBalancers.AsWrittenPutsLowScoreFirst, ScoringLoadBalancers.AsWrittenIsNotTransitive | ScoringLoadBalancers.CompareIsTotalOrder (on `ScoringLoadBalancers.Compare`, which `SortByScore` uses) |
