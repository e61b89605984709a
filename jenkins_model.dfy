/**
 * The Jenkins objects the load balancer reads, reduced to plain values, and the
 * Jenkins services it calls (label parsing, the load balancer it falls back to)
 * given as functions supplied by the caller.
 */
module Jenkins {
  import opened JavaLang

  /** Queue.Task: the root task; opaque to the load balancer. */
  datatype Task = Task(name: string)

  /** A node (an agent or the built-in node). `preferenceProperties` lists, in property
      order, the preferences of its BuildPreferenceNodeProperty entries. */
  datatype Node = Node(name: string, preferenceProperties: seq<int>)

  /** MappingWorksheet.ExecutorChunk: executors of one computer. `id` stands for object
      identity, `capacity` for capacity(), `executorCount` for computer.countExecutors(). */
  datatype ExecutorChunk = ExecutorChunk(id: nat, node: Node, capacity: nat, executorCount: nat)

  datatype BuildResult = Success | Unstable | Failure | NotBuilt | Aborted

  /** An AbstractBuild: the node it was built on (null once that node is gone) and its
      result (null while it runs). */
  datatype FreestyleBuild = FreestyleBuild(builtOn: Option<Node>, result: Option<BuildResult>)

  /** A WorkflowRun: its result and, when its execution is available, the nodes named by
      the WorkspaceActions of its StepStartNodes, in the order the flow graph walker
      visits them (null where Jenkins no longer knows the node). */
  datatype PipelineRun = PipelineRun(result: Option<BuildResult>, execution: Option<seq<Option<Node>>>)

  /** The build history a subtask leads to, newest first:
      an AbstractProject's builds from getLastBuild(), or, for a subtask whose owner
      executable belongs to a WorkflowJob, the runs from getLastCompletedBuild(). */
  datatype History =
    | NoHistory
    | Freestyle(builds: seq<FreestyleBuild>)
    | Pipeline(runs: seq<PipelineRun>)

  /** Label parsing and matching: LabelExpression.parseExpression succeeds or fails with
      the error the caller catches; Label.contains(node); Label.getNodes() non-empty. */
  datatype LabelParser = LabelParser(
    parses: Option<string> -> bool,
    contains: (Option<string>, Node) -> bool,
    hasNodes: string -> bool)
}
