/**
 * hudson.model.queue.MappingWorksheet as the load balancer sees it: the work
 * chunks of a task, the executor chunks that can take each of them, and the
 * mapping under construction with its validity checks.
 */
module MappingWorksheets {
  import opened JavaLang
  import opened Jenkins
  import opened BuildPreferences

  /** Whether a subtask is a Job, and if so its BuildPreferenceJobProperty. */
  datatype JobKind = NotAJob | Job(preferenceProperty: Option<seq<BuildPreference>>)

  datatype SubTask = SubTask(kind: JobKind, history: History)

  /** MappingWorksheet.WorkChunk: subtasks that must run on the same node, and the
      executor chunks that can take them (applicableExecutorChunks()). Its size() is the
      number of subtasks. */
  datatype WorkChunk = WorkChunk(subTasks: seq<SubTask>, applicable: seq<ExecutorChunk>)

  /** A mapping's content: for each work chunk index, its executor chunk or null. */
  type Assignment = seq<Option<ExecutorChunk>>

  /** MappingWorksheet: the work chunks in order, and the validity checks of its
      Mapping (isPartiallyValid, isCompletelyValid), whose rules belong to Jenkins. */
  datatype Worksheet = Worksheet(
    works: seq<WorkChunk>,
    partiallyValid: Assignment -> bool,
    completelyValid: Assignment -> bool)

  /** An assignment of nothing yet to `n` work chunks. */
  function Unassigned(n: nat): (a: Assignment)
    ensures |a| == n && forall j :: 0 <= j < n ==> a[j] == None
  {
    seq(n, _ => None)
  }

  /** The LoadBalancer that was installed before this one. */
  datatype LoadBalancer = LoadBalancer(decide: (Task, Worksheet) -> Option<Assignment>)

  /** MappingWorksheet.Mapping: the assignment under construction, one entry per work
      chunk, null where nothing is assigned yet. */
  class Mapping {
    const worksheet: Worksheet
    const mapping: array<Option<ExecutorChunk>>

    ghost predicate Valid()
      reads this
    {
      mapping.Length == |worksheet.works|
    }

    /** worksheet.new Mapping(): nothing assigned. */
    constructor (ws: Worksheet)
      ensures worksheet == ws && Valid() && fresh(mapping)
      ensures mapping[..] == Unassigned(|ws.works|)
    {
      worksheet := ws;
      mapping := new Option<ExecutorChunk>[|ws.works|](_ => None);
    }

    /** size(): the number of work chunks. */
    function Size(): nat
      reads this
    {
      mapping.Length
    }

    /** assign(index, ec): `ec` may be null (None) to clear the entry. */
    method Assign(index: nat, ec: Option<ExecutorChunk>)
      requires index < mapping.Length
      modifies mapping
      ensures mapping[..] == old(mapping[..])[index := ec]
    {
      mapping[index] := ec;
    }

    predicate IsPartiallyValid()
      reads this, mapping
    {
      worksheet.partiallyValid(mapping[..])
    }

    predicate IsCompletelyValid()
      reads this, mapping
    {
      worksheet.completelyValid(mapping[..])
    }
  }
}
