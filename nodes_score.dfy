/**
 * ScoringLoadBalancer.NodesScore: the scores of the executor chunks that can take
 * one work chunk, the node each chunk belongs to, and the chunks ruled out.
 * `Ledger` is its content as a value; the class `NodesScore` holds the same three
 * fields and its methods are specified by the Ledger operations.
 */
module NodesScores {
  import opened JavaLang
  import opened Jenkins

  /** A score to be added to the chunk of a node. */
  datatype Award = Award(node: Node, score: int)

  /** The operations a scoring rule may perform on a NodesScore. */
  datatype LedgerOp =
    | AddScore(chunk: ExecutorChunk, score: int)
    | AddNodeScore(node: Node, score: int)
    | ResetScore(chunk: ExecutorChunk)
    | ResetNodeScore(node: Node)
    | MarkInvalid(chunk: ExecutorChunk)
    | MarkNodeInvalid(node: Node)
    | ResetInvalid
    | MarkAllInvalid

  datatype Ledger = Ledger(
    nodeExecutorMap: map<Node, ExecutorChunk>,
    executorScoreMap: map<ExecutorChunk, int>,
    invalidExecutors: set<ExecutorChunk>)
  {
    /** Every node is mapped to a scored chunk of that node. */
    ghost predicate Valid() {
      forall n :: n in nodeExecutorMap ==>
        nodeExecutorMap[n].node == n && nodeExecutorMap[n] in executorScoreMap
    }

    /** `ec` is the chunk that scores given to its node go to. */
    predicate Owns(ec: ExecutorChunk) {
      ec.node in nodeExecutorMap && nodeExecutorMap[ec.node] == ec
    }

    /** addScore(executor, score); an unknown executor is a NullPointerException. */
    function ScoreAdded(ec: ExecutorChunk, score: int): (r: Ledger)
      requires ec in executorScoreMap
      ensures r.executorScoreMap.Keys == executorScoreMap.Keys
      ensures r.executorScoreMap[ec] == executorScoreMap[ec] + score
      ensures forall e :: e in executorScoreMap && e != ec ==> r.executorScoreMap[e] == executorScoreMap[e]
      ensures r.nodeExecutorMap == nodeExecutorMap && r.invalidExecutors == invalidExecutors
      ensures Valid() ==> r.Valid()
    {
      this.(executorScoreMap := executorScoreMap[ec := executorScoreMap[ec] + score])
    }

    /** addScore(node, score): the score goes to the chunk of the node. */
    function NodeScoreAdded(node: Node, score: int): (r: Ledger)
      requires node in nodeExecutorMap && nodeExecutorMap[node] in executorScoreMap
      ensures r == ScoreAdded(nodeExecutorMap[node], score)
    {
      ScoreAdded(nodeExecutorMap[node], score)
    }

    /** resetScore(executor): the score becomes 0, and an executor not yet scored
        starts being scored. */
    function ScoreReset(ec: ExecutorChunk): (r: Ledger)
      ensures r.executorScoreMap.Keys == executorScoreMap.Keys + {ec}
      ensures r.executorScoreMap[ec] == 0
      ensures forall e :: e in executorScoreMap && e != ec ==> r.executorScoreMap[e] == executorScoreMap[e]
      ensures r.nodeExecutorMap == nodeExecutorMap && r.invalidExecutors == invalidExecutors
      ensures Valid() ==> r.Valid()
    {
      this.(executorScoreMap := executorScoreMap[ec := 0])
    }

    /** markInvalid(executor). */
    function MarkedInvalid(ec: ExecutorChunk): (r: Ledger)
      ensures r.invalidExecutors == invalidExecutors + {ec}
      ensures r.nodeExecutorMap == nodeExecutorMap && r.executorScoreMap == executorScoreMap
    {
      this.(invalidExecutors := invalidExecutors + {ec})
    }

    /** resetInvalid(): no chunk is ruled out any more. */
    function InvalidReset(): (r: Ledger)
      ensures forall e :: !r.IsInvalid(e)
      ensures r.nodeExecutorMap == nodeExecutorMap && r.executorScoreMap == executorScoreMap
    {
      this.(invalidExecutors := {})
    }

    /** markAllInvalid(): every scored chunk is ruled out. */
    function AllMarkedInvalid(): (r: Ledger)
      ensures forall e :: e in executorScoreMap ==> r.IsInvalid(e)
      ensures forall e :: r.IsInvalid(e) <==> IsInvalid(e) || e in executorScoreMap
      ensures r.nodeExecutorMap == nodeExecutorMap && r.executorScoreMap == executorScoreMap
    {
      this.(invalidExecutors := invalidExecutors + executorScoreMap.Keys)
    }

    /** isInvalid(executor). */
    predicate IsInvalid(ec: ExecutorChunk) {
      ec in invalidExecutors
    }

    /** isInvalid(node): whether the chunk of the node is ruled out; false for a node
        that is not scored here. */
    function IsNodeInvalid(node: Node): (r: bool)
      ensures node !in nodeExecutorMap ==> !r
      ensures Valid() ==> (r <==> exists ec :: Owns(ec) && ec.node == node && IsInvalid(ec))
    {
      node in nodeExecutorMap && nodeExecutorMap[node] in invalidExecutors
    }

    /** One operation as a rule performs it: None where Java throws a
        NullPointerException (adding to an executor or node that is not scored).
        Resetting or ruling out a node that is not scored leaves the content as it is. */
    function Apply(op: LedgerOp): (r: Option<Ledger>)
      requires Valid()
      ensures r.None? <==>
                || (op.AddScore? && op.chunk !in executorScoreMap)
                || (op.AddNodeScore? && op.node !in nodeExecutorMap)
      ensures r.Some? ==> r.value.Valid() && r.value.nodeExecutorMap == nodeExecutorMap
      ensures r.Some? ==> executorScoreMap.Keys <= r.value.executorScoreMap.Keys
    {
      match op
      case AddScore(ec, score) =>
        if ec in executorScoreMap then Some(ScoreAdded(ec, score)) else None
      case AddNodeScore(node, score) =>
        if node in nodeExecutorMap then Some(NodeScoreAdded(node, score)) else None
      case ResetScore(ec) => Some(ScoreReset(ec))
      case ResetNodeScore(node) =>
        if node in nodeExecutorMap then Some(ScoreReset(nodeExecutorMap[node])) else Some(this)
      case MarkInvalid(ec) => Some(MarkedInvalid(ec))
      case MarkNodeInvalid(node) =>
        if node in nodeExecutorMap then Some(MarkedInvalid(nodeExecutorMap[node])) else Some(this)
      case ResetInvalid => Some(InvalidReset())
      case MarkAllInvalid => Some(AllMarkedInvalid())
    }
  }

  /** Operations applied one after another; None at the first one that throws. */
  function ApplyAll(l: Ledger, ops: seq<LedgerOp>): (r: Option<Ledger>)
    requires l.Valid()
    ensures r.Some? ==> r.value.Valid() && r.value.nodeExecutorMap == l.nodeExecutorMap
    ensures r.Some? ==> l.executorScoreMap.Keys <= r.value.executorScoreMap.Keys
    decreases |ops|
  {
    if ops == [] then Some(l)
    else
      match l.Apply(ops[0])
      case None => None
      case Some(l') => ApplyAll(l', ops[1..])
  }

  /** new NodesScore(executors): every chunk scored 0, none ruled out, each node
      mapped to the last of the chunks on it. */
  function NewLedger(executors: seq<ExecutorChunk>): (r: Ledger)
    ensures r.Valid() && r.invalidExecutors == {}
    ensures forall ec :: ec in r.executorScoreMap <==> ec in executors
    ensures forall ec :: ec in r.executorScoreMap ==> r.executorScoreMap[ec] == 0
    ensures forall n :: n in r.nodeExecutorMap ==> r.nodeExecutorMap[n] in executors
    ensures forall i :: 0 <= i < |executors| ==> executors[i].node in r.nodeExecutorMap
  {
    if executors == [] then Ledger(map[], map[], {})
    else
      var prev := NewLedger(executors[..|executors| - 1]);
      var e := executors[|executors| - 1];
      assert forall i :: 0 <= i < |executors| - 1 ==> executors[..|executors| - 1][i] == executors[i];
      Ledger(prev.nodeExecutorMap[e.node := e], prev.executorScoreMap[e := 0], {})
  }

  /** No later chunk of `executors` is on the same node as the i-th. */
  predicate LastOnItsNode(executors: seq<ExecutorChunk>, i: nat)
    requires i < |executors|
  {
    forall j :: i < j < |executors| ==> executors[j].node != executors[i].node
  }

  /** Of several chunks on one node, the last in the list is the one the node's scores
      go to: each later one replaces the earlier in the node map. */
  lemma {:induction false} LastChunkOwnsItsNode(executors: seq<ExecutorChunk>)
    ensures forall i :: 0 <= i < |executors| && LastOnItsNode(executors, i) ==>
              NewLedger(executors).Owns(executors[i])
    decreases |executors|
  {
    if executors != [] {
      var init := executors[..|executors| - 1];
      LastChunkOwnsItsNode(init);
      forall i | 0 <= i < |executors| - 1 && LastOnItsNode(executors, i)
        ensures NewLedger(executors).Owns(executors[i])
      {
        assert executors[i] == init[i];
        assert LastOnItsNode(init, i);
        assert executors[i].node != executors[|executors| - 1].node;
      }
    }
  }

  /** isInvalid(node) after the operations that rule chunks out or back in:
      markInvalid(node) rules out a known node, resetInvalid() clears every node,
      markAllInvalid() rules out every known node. */
  lemma NodeInvalidity(l: Ledger, node: Node)
    requires l.Valid()
    ensures node in l.nodeExecutorMap ==> l.Apply(MarkNodeInvalid(node)).value.IsNodeInvalid(node)
    ensures node !in l.nodeExecutorMap ==> !l.Apply(MarkNodeInvalid(node)).value.IsNodeInvalid(node)
    ensures !l.InvalidReset().IsNodeInvalid(node)
    ensures node in l.nodeExecutorMap <==> l.AllMarkedInvalid().IsNodeInvalid(node)
  {
  }

  /** Awards handed out one after another by addScore(node, score). */
  function AddNodeScores(l: Ledger, awards: seq<Award>): (r: Ledger)
    requires l.Valid()
    requires forall i :: 0 <= i < |awards| ==> awards[i].node in l.nodeExecutorMap
    ensures r.Valid()
    ensures r.nodeExecutorMap == l.nodeExecutorMap && r.invalidExecutors == l.invalidExecutors
    ensures r.executorScoreMap.Keys == l.executorScoreMap.Keys
  {
    if awards == [] then l
    else
      var last := awards[|awards| - 1];
      AddNodeScores(l, awards[..|awards| - 1]).NodeScoreAdded(last.node, last.score)
  }

  /** Handing out `a` then `b` is handing out `a + b`. */
  lemma {:induction false} AddNodeScoresAppend(l: Ledger, a: seq<Award>, b: seq<Award>)
    requires l.Valid()
    requires forall i :: 0 <= i < |a| ==> a[i].node in l.nodeExecutorMap
    requires forall i :: 0 <= i < |b| ==> b[i].node in l.nodeExecutorMap
    ensures AddNodeScores(l, a + b) == AddNodeScores(AddNodeScores(l, a), b)
    decreases |b|
  {
    if b == [] {
      assert a + b == a;
    } else {
      assert (a + b)[..|a + b| - 1] == a + b[..|b| - 1];
      assert (a + b)[|a + b| - 1] == b[|b| - 1];
      AddNodeScoresAppend(l, a, b[..|b| - 1]);
    }
  }

  /** The total of the awards given to node `n`. */
  function AwardSum(awards: seq<Award>, n: Node): int {
    if awards == [] then 0
    else
      var last := awards[|awards| - 1];
      AwardSum(awards[..|awards| - 1], n) + (if last.node == n then last.score else 0)
  }

  lemma {:induction false} AwardSumAppend(a: seq<Award>, b: seq<Award>, n: Node)
    ensures AwardSum(a + b, n) == AwardSum(a, n) + AwardSum(b, n)
    decreases |b|
  {
    if b == [] {
      assert a + b == a;
    } else {
      assert (a + b)[..|a + b| - 1] == a + b[..|b| - 1];
      AwardSumAppend(a, b[..|b| - 1], n);
    }
  }

  /** Scores accumulate: after any sequence of awards, the chunk of each node holds its
      old score plus the total awarded to the node, whatever the order; other chunks
      are untouched. */
  lemma {:induction false} AddNodeScoresTotal(l: Ledger, awards: seq<Award>, ec: ExecutorChunk)
    requires l.Valid()
    requires forall i :: 0 <= i < |awards| ==> awards[i].node in l.nodeExecutorMap
    requires ec in l.executorScoreMap
    ensures AddNodeScores(l, awards).executorScoreMap[ec]
            == l.executorScoreMap[ec] + (if l.Owns(ec) then AwardSum(awards, ec.node) else 0)
  {
    if awards != [] {
      var init := awards[..|awards| - 1];
      AddNodeScoresTotal(l, init, ec);
    }
  }

  /** NodesScore: the mutable holder of one ledger. */
  class NodesScore {
    var nodeExecutorMap: map<Node, ExecutorChunk>
    var executorScoreMap: map<ExecutorChunk, int>
    var invalidExecutors: set<ExecutorChunk>

    function Content(): Ledger
      reads this
    {
      Ledger(nodeExecutorMap, executorScoreMap, invalidExecutors)
    }

    ghost predicate Valid()
      reads this
    {
      Content().Valid()
    }

    constructor (executors: seq<ExecutorChunk>)
      ensures Content() == NewLedger(executors)
    {
      nodeExecutorMap := map[];
      executorScoreMap := map[];
      invalidExecutors := {};
      new;
      for i := 0 to |executors|
        invariant Content() == NewLedger(executors[..i])
      {
        assert executors[..i + 1][..i] == executors[..i];
        nodeExecutorMap := nodeExecutorMap[executors[i].node := executors[i]];
        executorScoreMap := executorScoreMap[executors[i] := 0];
      }
      assert executors[..|executors|] == executors;
    }

    /** getNodes(): every node returned has a scored chunk of its own, which its
        scores go to. */
    function GetNodes(): (r: set<Node>)
      reads this
      ensures Valid() ==> forall n :: n in r ==>
                n in nodeExecutorMap && nodeExecutorMap[n].node == n && Content().Owns(nodeExecutorMap[n])
    {
      nodeExecutorMap.Keys
    }

    /** getExecutorChunks(). */
    function GetExecutorChunks(): set<ExecutorChunk>
      reads this
    {
      executorScoreMap.Keys
    }

    method AddScore(ec: ExecutorChunk, score: int)
      requires ec in executorScoreMap
      modifies this
      ensures Content() == old(Content()).ScoreAdded(ec, score)
    {
      executorScoreMap := executorScoreMap[ec := executorScoreMap[ec] + score];
    }

    method AddNodeScore(node: Node, score: int)
      requires node in nodeExecutorMap && nodeExecutorMap[node] in executorScoreMap
      modifies this
      ensures Content() == old(Content()).NodeScoreAdded(node, score)
    {
      AddScore(nodeExecutorMap[node], score);
    }

    method ResetScore(ec: ExecutorChunk)
      modifies this
      ensures Content() == old(Content()).ScoreReset(ec)
    {
      executorScoreMap := executorScoreMap[ec := 0];
    }

    method ResetNodeScore(node: Node)
      requires Valid()
      modifies this
      ensures Content() == old(Content()).Apply(LedgerOp.ResetNodeScore(node)).value
    {
      if node in nodeExecutorMap {
        ResetScore(nodeExecutorMap[node]);
      }
    }

    method MarkInvalid(ec: ExecutorChunk)
      modifies this
      ensures Content() == old(Content()).MarkedInvalid(ec)
    {
      invalidExecutors := invalidExecutors + {ec};
    }

    method MarkNodeInvalid(node: Node)
      requires Valid()
      modifies this
      ensures Content() == old(Content()).Apply(LedgerOp.MarkNodeInvalid(node)).value
    {
      if node in nodeExecutorMap {
        MarkInvalid(nodeExecutorMap[node]);
      }
    }

    method ResetInvalid()
      modifies this
      ensures Content() == old(Content()).InvalidReset()
    {
      invalidExecutors := {};
    }

    method MarkAllInvalid()
      modifies this
      ensures Content() == old(Content()).AllMarkedInvalid()
    {
      invalidExecutors := invalidExecutors + executorScoreMap.Keys;
    }

    /** getScore(executor); an unknown executor is a NullPointerException. */
    function GetScore(ec: ExecutorChunk): int
      reads this
      requires ec in executorScoreMap
    {
      executorScoreMap[ec]
    }

    /** getScore(node): the score of the node's chunk; an unknown node is a
        NullPointerException. */
    function GetNodeScore(node: Node): int
      reads this
      requires node in nodeExecutorMap && nodeExecutorMap[node] in executorScoreMap
    {
      GetScore(nodeExecutorMap[node])
    }

    /** isInvalid(executor). */
    function IsInvalid(ec: ExecutorChunk): bool
      reads this
    {
      ec in invalidExecutors
    }

    /** What the queries report, against the updates: getScore is the score addScore
        adds to and resetScore clears; a chunk is ruled out exactly when marking it
        again changes nothing; every node of getNodes has its own chunk among
        getExecutorChunks, and resetting one of those adds no chunk. The same holds
        for getScore and addScore by node. */
    lemma QueriesAgreeWithUpdates(ec: ExecutorChunk, node: Node, score: int)
      requires Valid()
      ensures ec in executorScoreMap ==>
                Content().ScoreAdded(ec, score).executorScoreMap[ec] == GetScore(ec) + score
      ensures node in nodeExecutorMap ==>
                Content().NodeScoreAdded(node, score).executorScoreMap[nodeExecutorMap[node]]
                == GetNodeScore(node) + score
      ensures Content().ScoreReset(ec).executorScoreMap[ec] == 0
      ensures IsInvalid(ec) <==> Content().MarkedInvalid(ec) == Content()
      ensures forall n :: n in GetNodes() ==> nodeExecutorMap[n] in GetExecutorChunks()
      ensures ec in GetExecutorChunks() ==> Content().ScoreReset(ec).executorScoreMap.Keys == GetExecutorChunks()
    {
      if IsInvalid(ec) {
        assert Content().MarkedInvalid(ec).invalidExecutors == invalidExecutors;
      }
    }
  }
}
