/**
 * ScoringLoadBalancer: the LoadBalancer that scores the executor chunks able to take
 * each work chunk with the configured ScoringRules, tries them best score first,
 * and backtracks when a choice leads nowhere.
 */
module ScoringLoadBalancers {
  import opened JavaLang
  import opened Jenkins
  import opened MappingWorksheets
  import opened NodesScores
  import opened ScoringRules

  // ---------------------------------------------------------------------------
  // ExecutorComparator

  /** The value of a Java `int` expression whose exact value is `x`: two's complement
      wrap-around to 32 bits. */
  function Wrap32(x: int): (r: int)
    ensures InInt32(r)
    ensures InInt32(x) ==> r == x
    ensures (r - x) % 0x1_0000_0000 == 0
  {
    (x - IntMin) % 0x1_0000_0000 + IntMin
  }

  /** compare(o1, o2) as written, for the two scores: getScore(o2) - getScore(o1),
      a subtraction in 32-bit int. Negative means o1 is placed first. */
  function CompareAsWritten(score1: int, score2: int): (r: int)
    requires InInt32(score1) && InInt32(score2)
    ensures InInt32(r)
    ensures InInt32(score2 - score1) ==> (r < 0 <==> score1 > score2) && (r > 0 <==> score1 < score2)
  {
    Wrap32(score2 - score1)
  }

  /** When the difference overflows, the comparator places a lower score first. */
  lemma AsWrittenPutsLowScoreFirst()
    ensures InInt32(1) && InInt32(IntMin)
    ensures CompareAsWritten(1, IntMin) > 0
  {
  }

  /** ... and it is not a total order: it places 0 before Integer.MIN_VALUE,
      Integer.MIN_VALUE before 1 and 1 before 0. */
  lemma AsWrittenIsNotTransitive()
    ensures InInt32(0) && InInt32(1) && InInt32(IntMin)
    ensures CompareAsWritten(0, IntMin) < 0
    ensures CompareAsWritten(IntMin, 1) < 0
    ensures CompareAsWritten(1, 0) < 0
  {
  }

  /** compare(o1, o2) as intended: the higher score first, equal scores tied. */
  function Compare(score1: int, score2: int): (r: int)
    ensures r < 0 <==> score1 > score2
    ensures r > 0 <==> score1 < score2
    ensures r == 0 <==> score1 == score2
  {
    if score1 > score2 then -1 else if score1 < score2 then 1 else 0
  }

  /** The intended comparator is a total order, also on scores whose difference does
      not fit in 32 bits, and agrees with the written one wherever that does not
      overflow. */
  lemma CompareIsTotalOrder(x: int, y: int, z: int)
    ensures Compare(x, y) < 0 <==> Compare(y, x) > 0
    ensures Compare(x, y) <= 0 && Compare(y, z) <= 0 ==> Compare(x, z) <= 0
    ensures InInt32(x) && InInt32(y) && InInt32(y - x) ==>
              (Compare(x, y) < 0 <==> CompareAsWritten(x, y) < 0)
              && (Compare(x, y) > 0 <==> CompareAsWritten(x, y) > 0)
  {
  }

  // ---------------------------------------------------------------------------
  // sortExecutors

  /** The score of `ec`, 0 when it is not scored. */
  function Score(l: Ledger, ec: ExecutorChunk): int {
    if ec in l.executorScoreMap then l.executorScoreMap[ec] else 0
  }

  /** Non-increasing scores. */
  predicate SortedByScore(s: seq<ExecutorChunk>, l: Ledger) {
    forall i, j :: 0 <= i < j < |s| ==> Score(l, s[i]) >= Score(l, s[j])
  }

  /** Collections.shuffle: for i from the size down to 2, swap element i - 1 with one
      drawn from the first i. The draws are left open: any of them can happen. */
  method Shuffle(a: array<ExecutorChunk>)
    modifies a
    ensures multiset(a[..]) == multiset(old(a[..]))
  {
    var i := a.Length;
    while i > 1
      invariant 0 <= i <= a.Length
      invariant multiset(a[..]) == multiset(old(a[..]))
    {
      var j :| 0 <= j < i;
      Swap(a, i - 1, j);
      i := i - 1;
    }
  }

  method Swap(a: array<ExecutorChunk>, i: nat, j: nat)
    requires i < a.Length && j < a.Length
    modifies a
    ensures a[..] == old(a[..])[i := old(a[j])][j := old(a[i])]
    ensures multiset(a[..]) == multiset(old(a[..]))
  {
    a[i], a[j] := a[j], a[i];
  }

  /** Collections.sort with ExecutorComparator: a stable sort, higher scores first. */
  method SortByScore(a: array<ExecutorChunk>, ns: NodesScore)
    requires forall i :: 0 <= i < a.Length ==> a[i] in ns.executorScoreMap
    modifies a
    ensures multiset(a[..]) == multiset(old(a[..]))
    ensures SortedByScore(a[..], ns.Content())
  {
    for i := 0 to a.Length
      invariant multiset(a[..]) == multiset(old(a[..]))
      invariant forall x :: 0 <= x < a.Length ==> a[x] in ns.executorScoreMap
      invariant SortedByScore(a[..i], ns.Content())
    {
      Insert(a, i, ns);
    }
    assert a[..a.Length] == a[..];
  }

  /** One step of the sort: move a[i] left past the chunks that score lower. */
  method Insert(a: array<ExecutorChunk>, i: nat, ns: NodesScore)
    requires i < a.Length
    requires forall x :: 0 <= x < a.Length ==> a[x] in ns.executorScoreMap
    requires SortedByScore(a[..i], ns.Content())
    modifies a
    ensures multiset(a[..]) == multiset(old(a[..]))
    ensures forall x :: 0 <= x < a.Length ==> a[x] in ns.executorScoreMap
    ensures SortedByScore(a[..i + 1], ns.Content())
  {
    ghost var l := ns.Content();
    var j := i;
    while j > 0 && Compare(ns.GetScore(a[j - 1]), ns.GetScore(a[j])) > 0
      invariant 0 <= j <= i
      invariant multiset(a[..]) == multiset(old(a[..]))
      invariant forall x :: 0 <= x < a.Length ==> a[x] in ns.executorScoreMap
      invariant forall x, y :: 0 <= x < y <= i && x != j && y != j ==> Score(l, a[x]) >= Score(l, a[y])
      invariant forall y :: j < y <= i ==> Score(l, a[j]) > Score(l, a[y])
    {
      Swap(a, j - 1, j);
      j := j - 1;
    }
  }

  /** sortExecutors: shuffle, then sort by score. The result is an arrangement of the
      chunks with non-increasing scores; which one, among equal scores, is left to the
      shuffle. */
  method SortExecutors(executors: array<ExecutorChunk>, ns: NodesScore)
    requires forall i :: 0 <= i < executors.Length ==> executors[i] in ns.executorScoreMap
    modifies executors
    ensures multiset(executors[..]) == multiset(old(executors[..]))
    ensures SortedByScore(executors[..], ns.Content())
  {
    Shuffle(executors);
    assert forall i :: 0 <= i < executors.Length ==> executors[i] in multiset(old(executors[..]));
    SortByScore(executors, ns);
  }

  // ---------------------------------------------------------------------------
  // assignGreedily

  /** What the search works on: the worksheet, the root task, the rule list and the
      label parser the rules use. */
  datatype Search = Search(ws: Worksheet, task: Task, rules: seq<ScoringRule>, parser: LabelParser)

  /** The scoring of work chunk `k` while the mapping holds `a`. */
  function Level(s: Search, a: Assignment, k: nat): ChainRun
    requires |a| == |s.ws.works| && k < |a|
  {
    RunChain(s.rules, s.task, s.ws.works[k], s.ws.works, a, s.parser, NewLedger(s.ws.works[k].applicable))
  }

  /** `ec` may be assigned to work chunk `k` when the mapping holds `a`: it can take the
      work chunk, the rules completed without an exception and did not rule it out, and
      the mapping with it is partially valid. */
  predicate Eligible(s: Search, a: Assignment, k: nat, ec: ExecutorChunk)
    requires |a| == |s.ws.works| && k < |a|
  {
    && ec in s.ws.works[k].applicable
    && Level(s, a, k).Ran?
    && !Level(s, a, k).ledger.IsInvalid(ec)
    && s.ws.partiallyValid(a[k := Some(ec)])
  }

  /** Work chunks `k` and later, unassigned in `a`, can be assigned eligible chunks one
      after another so that the mapping ends completely valid. */
  ghost predicate Extendable(s: Search, a: Assignment, k: nat)
    requires |a| == |s.ws.works| && k <= |a|
    decreases |a| - k
  {
    if k == |a| then s.ws.completelyValid(a)
    else exists ec :: Eligible(s, a, k, ec) && Extendable(s, a[k := Some(ec)], k + 1)
  }

  /** Some rule throws while some work chunk is scored, for some mapping of the
      work chunks. */
  ghost predicate RuleRaises(s: Search) {
    exists a: Assignment, k: nat :: |a| == |s.ws.works| && k < |a| && Level(s, a, k).Raised?
  }

  /** The rules of this plugin never throw, so with them the search always runs to
      its end. */
  lemma BuiltInRulesNeverRaise(s: Search)
    requires forall i :: 0 <= i < |s.rules| ==> !s.rules[i].Custom?
    ensures !RuleRaises(s)
  {
    forall a: Assignment, k: nat | |a| == |s.ws.works| && k < |a|
      ensures Level(s, a, k).Ran?
    {
      BuiltInRulesRuleNothingOut(s.rules, s.task, s.ws.works[k], s.ws.works, a, s.parser,
                                 NewLedger(s.ws.works[k].applicable));
    }
  }

  /** The mapping as it was when the search reached work chunk `k`. */
  function Cleared(b: Assignment, k: nat): (a: Assignment)
    requires k <= |b|
    ensures |a| == |b| && a[..k] == b[..k]
    ensures forall j :: k <= j < |b| ==> a[j] == None
  {
    b[..k] + Unassigned(|b| - k)
  }

  /** A greedy completion: from work chunk `k` on, each work chunk holds an eligible
      chunk that leads to a completely valid mapping, and no other such chunk had a
      higher score. */
  ghost predicate GreedyCompletion(s: Search, b: Assignment, k: nat)
    requires |b| == |s.ws.works| && k <= |b|
    decreases |b| - k
  {
    if k == |b| then s.ws.completelyValid(b)
    else
      var a := Cleared(b, k);
      && b[k].Some?
      && Eligible(s, a, k, b[k].value)
      && (forall ec :: Eligible(s, a, k, ec) && Extendable(s, a[k := Some(ec)], k + 1) ==>
            Score(Level(s, a, k).ledger, ec) <= Score(Level(s, a, k).ledger, b[k].value))
      && GreedyCompletion(s, b, k + 1)
  }

  /** A greedy completion is a completion: each work chunk from `k` on is assigned a
      chunk able to take it that the rules did not rule out, and the mapping is
      completely valid. */
  lemma {:induction false} GreedyCompletionAssignsAll(s: Search, b: Assignment, k: nat)
    requires |b| == |s.ws.works| && k <= |b|
    requires GreedyCompletion(s, b, k)
    ensures s.ws.completelyValid(b)
    ensures forall j :: k <= j < |b| ==>
              && b[j].Some? && b[j].value in s.ws.works[j].applicable
              && Level(s, Cleared(b, j), j).Ran?
              && !Level(s, Cleared(b, j), j).ledger.IsInvalid(b[j].value)
    decreases |b| - k
  {
    if k < |b| {
      GreedyCompletionAssignsAll(s, b, k + 1);
      forall j | k <= j < |b|
        ensures && b[j].Some? && b[j].value in s.ws.works[j].applicable
                && Level(s, Cleared(b, j), j).Ran?
                && !Level(s, Cleared(b, j), j).ledger.IsInvalid(b[j].value)
      {
        if j == k {
          assert Eligible(s, Cleared(b, k), k, b[k].value);
        }
      }
    }
  }

  /** A greedy completion of the assignments before `k` shows that those assignments
      could be extended. */
  lemma {:induction false} GreedyCompletionExtends(s: Search, a: Assignment, b: Assignment, k: nat)
    requires |a| == |b| == |s.ws.works| && k <= |b|
    requires b[..k] == a[..k] && forall j :: k <= j < |a| ==> a[j] == None
    requires GreedyCompletion(s, b, k)
    ensures Extendable(s, a, k)
    decreases |b| - k
  {
    if k == |b| {
      assert a == a[..k] && b == b[..k];
    } else {
      assert Cleared(b, k) == a;
      var ec := b[k].value;
      var a' := a[k := Some(ec)];
      assert b[..k + 1] == a'[..k + 1] by {
        assert forall j :: 0 <= j < k ==> b[j] == b[..k][j] == a[..k][j] == a'[j];
      }
      GreedyCompletionExtends(s, a', b, k + 1);
    }
  }

  datatype SearchResult = Found | NotFound | RuleThrew

  /** assignGreedily(m, task, worksheet, rules, target): work chunks before `target` are
      already assigned, later ones not. On success the mapping holds a greedy
      completion; on failure none exists and the mapping is as it was; an exception
      from a rule aborts the search. */
  method AssignGreedilyFrom(m: Mapping, task: Task, rules: seq<ScoringRule>, parser: LabelParser, target: nat)
      returns (r: SearchResult)
    requires m.Valid() && target <= m.mapping.Length
    requires forall j :: target <= j < m.mapping.Length ==> m.mapping[j] == None
    modifies m.mapping
    ensures r.Found? ==> m.mapping[..target] == old(m.mapping[..target])
    ensures r.Found? ==> GreedyCompletion(Search(m.worksheet, task, rules, parser), m.mapping[..], target)
    ensures r.NotFound? ==> !Extendable(Search(m.worksheet, task, rules, parser), old(m.mapping[..]), target)
    ensures r.NotFound? ==> m.mapping[..] == old(m.mapping[..])
    ensures r.RuleThrew? ==> RuleRaises(Search(m.worksheet, task, rules, parser))
    ensures (target < m.mapping.Length &&
             Level(Search(m.worksheet, task, rules, parser), old(m.mapping[..]), target).Raised?) ==> r.RuleThrew?
    decreases m.mapping.Length - target, 4
  {
    if target >= m.Size() {
      return if m.IsCompletelyValid() then Found else NotFound;
    }
    r := ScoreAndTry(m, task, rules, parser, target);
  }

  /** assignGreedily below the last work chunk: score the chunks that can take work chunk
      `target`, sort them, and try them in order. */
  method ScoreAndTry(m: Mapping, task: Task, rules: seq<ScoringRule>, parser: LabelParser, target: nat)
      returns (r: SearchResult)
    requires m.Valid() && target < m.mapping.Length
    requires forall j :: target <= j < m.mapping.Length ==> m.mapping[j] == None
    modifies m.mapping
    ensures r.Found? ==> m.mapping[..target] == old(m.mapping[..target])
    ensures r.Found? ==> GreedyCompletion(Search(m.worksheet, task, rules, parser), m.mapping[..], target)
    ensures r.NotFound? ==> !Extendable(Search(m.worksheet, task, rules, parser), old(m.mapping[..]), target)
    ensures r.NotFound? ==> m.mapping[..] == old(m.mapping[..])
    ensures r.RuleThrew? ==> RuleRaises(Search(m.worksheet, task, rules, parser))
    ensures Level(Search(m.worksheet, task, rules, parser), old(m.mapping[..]), target).Raised? ==> r.RuleThrew?
    decreases m.mapping.Length - target, 3
  {
    var wc := m.worksheet.works[target];
    var ns := new NodesScore(wc.applicable);
    var threw := RunRules(rules, task, wc, m, parser, ns);
    if threw {
      assert Level(Search(m.worksheet, task, rules, parser), m.mapping[..], target).Raised?;
      return RuleThrew;
    }
    var executors := new ExecutorChunk[|wc.applicable|](i requires 0 <= i < |wc.applicable| => wc.applicable[i]);
    assert executors[..] == wc.applicable;
    SortExecutors(executors, ns);
    assert Scored(Search(m.worksheet, task, rules, parser), m.mapping[..], target, executors[..], ns.Content());
    r := TryInOrder(m, task, rules, parser, target, executors[..], ns, m.mapping[..]);
  }

  /** The state in which the chunks `cands` are tried for work chunk `k`: the work
      chunks from `k` on are unassigned in `a`, the rules ran on `a` and gave the
      scores `l`, and `cands` holds the chunks able to take work chunk `k`, sorted by
      those scores. */
  ghost predicate Scored(s: Search, a: Assignment, k: nat, cands: seq<ExecutorChunk>, l: Ledger)
  {
    && |a| == |s.ws.works| && k < |a|
    && (forall j :: k <= j < |a| ==> a[j] == None)
    && Level(s, a, k).Ran? && l == Level(s, a, k).ledger
    && multiset(cands) == multiset(s.ws.works[k].applicable)
    && SortedByScore(cands, l)
  }

  /** The loop of assignGreedily over the sorted chunks: stop at the first that leads to
      a complete mapping; when none does, reset the assignment of the work chunk. */
  method TryInOrder(m: Mapping, task: Task, rules: seq<ScoringRule>, parser: LabelParser, target: nat,
                    cands: seq<ExecutorChunk>, ns: NodesScore, ghost a: Assignment)
      returns (r: SearchResult)
    requires m.Valid() && a == m.mapping[..]
    requires Scored(Search(m.worksheet, task, rules, parser), a, target, cands, ns.Content())
    modifies m.mapping
    ensures r.Found? ==> m.mapping[..target] == a[..target]
    ensures r.Found? ==> GreedyCompletion(Search(m.worksheet, task, rules, parser), m.mapping[..], target)
    ensures r.NotFound? ==> !Extendable(Search(m.worksheet, task, rules, parser), a, target)
    ensures r.NotFound? ==> m.mapping[..] == a
    ensures r.RuleThrew? ==> RuleRaises(Search(m.worksheet, task, rules, parser))
    ensures (|cands| > 0 && Eligible(Search(m.worksheet, task, rules, parser), a, target, cands[0]) && target + 1 < |a| &&
             Level(Search(m.worksheet, task, rules, parser), a[target := Some(cands[0])], target + 1).Raised?)
            ==> r.RuleThrew?
    decreases m.mapping.Length - target, 2
  {
    ghost var s := Search(m.worksheet, task, rules, parser);
    for i := 0 to |cands|
      modifies m.mapping
      invariant m.mapping[..] == a[target := m.mapping[target]]
      invariant forall t :: 0 <= t < i ==> Fails(s, a, target, cands[t])
      invariant i > 0 ==> !(Eligible(s, a, target, cands[0]) && target + 1 < |a| &&
                            Level(s, a[target := Some(cands[0])], target + 1).Raised?)
    {
      r := TryAt(m, task, rules, parser, target, cands, i, ns, a);
      if !r.NotFound? {
        return;
      }
      FailsExtend(s, a, target, cands, i);
    }
    GiveUp(m, s, target, cands, ns.Content(), a);
    r := NotFound;
  }

  /** One turn of the loop of assignGreedily: try the i-th sorted candidate after every
      earlier one failed. */
  method TryAt(m: Mapping, task: Task, rules: seq<ScoringRule>, parser: LabelParser, target: nat,
               cands: seq<ExecutorChunk>, i: nat, ns: NodesScore, ghost a: Assignment)
      returns (r: SearchResult)
    requires m.Valid() && m.mapping.Length == |a| && i < |cands|
    requires Scored(Search(m.worksheet, task, rules, parser), a, target, cands, ns.Content())
    requires m.mapping[..] == a[target := m.mapping[target]]
    requires forall t :: 0 <= t < i ==> Fails(Search(m.worksheet, task, rules, parser), a, target, cands[t])
    modifies m.mapping
    ensures r.Found? ==> m.mapping[..target] == a[..target]
    ensures r.Found? ==> GreedyCompletion(Search(m.worksheet, task, rules, parser), m.mapping[..], target)
    ensures r.NotFound? ==> m.mapping[..] == a[target := m.mapping[target]]
    ensures r.NotFound? ==> Fails(Search(m.worksheet, task, rules, parser), a, target, cands[i])
    ensures r.RuleThrew? ==> RuleRaises(Search(m.worksheet, task, rules, parser))
    ensures (Eligible(Search(m.worksheet, task, rules, parser), a, target, cands[i]) && target + 1 < |a| &&
             Level(Search(m.worksheet, task, rules, parser), a[target := Some(cands[i])], target + 1).Raised?)
            ==> r.RuleThrew?
    decreases m.mapping.Length - target, 1
  {
    r := TryCandidate(m, task, rules, parser, target, cands[i], ns, a);
    if r.Found? {
      ChosenIsGreedy(Search(m.worksheet, task, rules, parser), a, target, cands, i, m.mapping[..]);
    }
  }

  /** After the loop of assignGreedily: no candidate was found, so the assignment of the
      work chunk is reset, and the search could not have succeeded. */
  method GiveUp(m: Mapping, ghost s: Search, target: nat, cands: seq<ExecutorChunk>, ghost l: Ledger, ghost a: Assignment)
    requires m.Valid() && s.ws == m.worksheet && m.mapping.Length == |a|
    requires Scored(s, a, target, cands, l)
    requires m.mapping[..] == a[target := m.mapping[target]]
    requires forall t :: 0 <= t < |cands| ==> Fails(s, a, target, cands[t])
    modifies m.mapping
    ensures m.mapping[..] == a
    ensures !Extendable(s, a, target)
  {
    m.Assign(target, None);
    assert m.mapping[..] == a;
    NoCandidateLeft(s, a, target, cands);
  }

  /** One more candidate has failed. */
  lemma FailsExtend(s: Search, a: Assignment, k: nat, cands: seq<ExecutorChunk>, i: nat)
    requires |a| == |s.ws.works| && k < |a| && i < |cands|
    requires forall t :: 0 <= t < i ==> Fails(s, a, k, cands[t])
    requires Fails(s, a, k, cands[i])
    ensures forall t :: 0 <= t < i + 1 ==> Fails(s, a, k, cands[t])
  {
  }

  /** Assigning `ec` to work chunk `k` of `a` leads nowhere. */
  ghost predicate Fails(s: Search, a: Assignment, k: nat, ec: ExecutorChunk)
    requires |a| == |s.ws.works| && k < |a|
  {
    !(Eligible(s, a, k, ec) && Extendable(s, a[k := Some(ec)], k + 1))
  }

  /** The body of the loop of assignGreedily: skip a chunk that is ruled out; otherwise
      assign it, and when the mapping stays partially valid, search on from the next
      work chunk. */
  method TryCandidate(m: Mapping, task: Task, rules: seq<ScoringRule>, parser: LabelParser, target: nat,
                      ec: ExecutorChunk, ns: NodesScore, ghost a: Assignment)
      returns (r: SearchResult)
    requires m.Valid() && target < m.mapping.Length == |a|
    requires m.mapping[..] == a[target := m.mapping[target]]
    requires forall j :: target <= j < |a| ==> a[j] == None
    requires Level(Search(m.worksheet, task, rules, parser), a, target).Ran?
    requires ns.Content() == Level(Search(m.worksheet, task, rules, parser), a, target).ledger
    modifies m.mapping
    ensures r.Found? ==> m.mapping[..target + 1] == a[target := Some(ec)][..target + 1]
    ensures r.Found? ==> !ns.IsInvalid(ec) && m.worksheet.partiallyValid(a[target := Some(ec)])
    ensures r.Found? ==> GreedyCompletion(Search(m.worksheet, task, rules, parser), m.mapping[..], target + 1)
    ensures r.NotFound? ==> m.mapping[..] == a[target := m.mapping[target]]
    ensures r.NotFound? ==> Fails(Search(m.worksheet, task, rules, parser), a, target, ec)
    ensures r.RuleThrew? ==> RuleRaises(Search(m.worksheet, task, rules, parser))
    ensures (!ns.IsInvalid(ec) && m.worksheet.partiallyValid(a[target := Some(ec)]) && target + 1 < |a| &&
             Level(Search(m.worksheet, task, rules, parser), a[target := Some(ec)], target + 1).Raised?)
            ==> r.RuleThrew?
    decreases m.mapping.Length - target, 0
  {
    if ns.IsInvalid(ec) {
      return NotFound;
    }
    m.Assign(target, Some(ec));
    assert m.mapping[..] == a[target := Some(ec)];
    if !m.IsPartiallyValid() {
      return NotFound;
    }
    r := AssignGreedilyFrom(m, task, rules, parser, target + 1);
  }

  /** When the i-th candidate, in non-increasing score order, succeeds after every
      earlier one failed, the completion is greedy at `k`. */
  lemma ChosenIsGreedy(s: Search, a: Assignment, k: nat, cands: seq<ExecutorChunk>, i: nat, b: Assignment)
    requires |a| == |b| == |s.ws.works| && k < |a| && i < |cands|
    requires forall j :: k <= j < |a| ==> a[j] == None
    requires Level(s, a, k).Ran? && SortedByScore(cands, Level(s, a, k).ledger)
    requires multiset(cands) == multiset(s.ws.works[k].applicable)
    requires forall t :: 0 <= t < i ==> Fails(s, a, k, cands[t])
    requires !Level(s, a, k).ledger.IsInvalid(cands[i]) && s.ws.partiallyValid(a[k := Some(cands[i])])
    requires b[..k + 1] == a[k := Some(cands[i])][..k + 1]
    requires GreedyCompletion(s, b, k + 1)
    ensures b[..k] == a[..k]
    ensures GreedyCompletion(s, b, k)
  {
    assert b[k] == b[..k + 1][k] == Some(cands[i]);
    assert b[..k] == b[..k + 1][..k];
    ClearedIsStart(a, b, k);
    assert cands[i] in multiset(s.ws.works[k].applicable);
    assert Eligible(s, a, k, cands[i]);
    ChosenScoresHighest(s, a, k, cands, i);
  }

  /** No chunk that could have led to a complete mapping scores higher than the i-th
      candidate, in non-increasing score order, when every earlier one failed. */
  lemma ChosenScoresHighest(s: Search, a: Assignment, k: nat, cands: seq<ExecutorChunk>, i: nat)
    requires |a| == |s.ws.works| && k < |a| && i < |cands|
    requires Level(s, a, k).Ran? && SortedByScore(cands, Level(s, a, k).ledger)
    requires multiset(cands) == multiset(s.ws.works[k].applicable)
    requires forall t :: 0 <= t < i ==> Fails(s, a, k, cands[t])
    ensures forall ec :: Eligible(s, a, k, ec) && Extendable(s, a[k := Some(ec)], k + 1) ==>
              Score(Level(s, a, k).ledger, ec) <= Score(Level(s, a, k).ledger, cands[i])
  {
    var l := Level(s, a, k).ledger;
    forall ec | Eligible(s, a, k, ec) && Extendable(s, a[k := Some(ec)], k + 1)
      ensures Score(l, ec) <= Score(l, cands[i])
    {
      assert ec in multiset(cands);
      var t :| 0 <= t < |cands| && cands[t] == ec;
      SortedPrefixIsBest(cands, l, i, t);
    }
  }

  /** The mapping the search found on reaching `k`, rebuilt from its final state. */
  lemma ClearedIsStart(a: Assignment, b: Assignment, k: nat)
    requires |a| == |b| && k <= |a|
    requires b[..k] == a[..k] && forall j :: k <= j < |a| ==> a[j] == None
    ensures Cleared(b, k) == a
  {
    forall j | 0 <= j < |a|
      ensures Cleared(b, k)[j] == a[j]
    {
      if j < k {
        assert Cleared(b, k)[j] == Cleared(b, k)[..k][j];
        assert a[j] == a[..k][j];
      }
    }
  }

  /** In a list of non-increasing scores, no later entry scores higher. */
  lemma SortedPrefixIsBest(cands: seq<ExecutorChunk>, l: Ledger, i: nat, t: nat)
    requires SortedByScore(cands, l) && i <= t < |cands|
    ensures Score(l, cands[t]) <= Score(l, cands[i])
  {
  }

  /** Once every candidate has failed, the assignments so far cannot be extended. */
  lemma NoCandidateLeft(s: Search, a: Assignment, k: nat, cands: seq<ExecutorChunk>)
    requires |a| == |s.ws.works| && k < |a|
    requires multiset(cands) == multiset(s.ws.works[k].applicable)
    requires forall t :: 0 <= t < |cands| ==> Fails(s, a, k, cands[t])
    ensures !Extendable(s, a, k)
  {
    forall ec | Eligible(s, a, k, ec)
      ensures !Extendable(s, a[k := Some(ec)], k + 1)
    {
      assert ec in multiset(cands);
      var t :| 0 <= t < |cands| && cands[t] == ec;
    }
  }

  /** assignGreedily(m, task, worksheet, rules): the search from the first work chunk. */
  method AssignGreedily(m: Mapping, task: Task, rules: seq<ScoringRule>, parser: LabelParser)
      returns (r: SearchResult)
    requires m.Valid() && m.mapping[..] == Unassigned(m.mapping.Length)
    modifies m.mapping
    ensures r.Found? ==> GreedyCompletion(Search(m.worksheet, task, rules, parser), m.mapping[..], 0)
    ensures r.NotFound? ==> !Extendable(Search(m.worksheet, task, rules, parser), Unassigned(m.mapping.Length), 0)
    ensures r.RuleThrew? ==> RuleRaises(Search(m.worksheet, task, rules, parser))
    ensures (m.mapping.Length > 0 &&
             Level(Search(m.worksheet, task, rules, parser), Unassigned(m.mapping.Length), 0).Raised?) ==> r.RuleThrew?
  {
    r := AssignGreedilyFrom(m, task, rules, parser, 0);
  }

  // ---------------------------------------------------------------------------
  // map

  /** How a call of map was decided. */
  datatype Route = Throttled | Searched(found: bool) | FellBack

  class ScoringLoadBalancer {
    /** The LoadBalancer installed before this one, if any. */
    const fallback: Option<LoadBalancer>
    /** When the last call that was not throttled started, in milliseconds. */
    var lastEvaluation: int

    /** new ScoringLoadBalancer(fallback) at time `now`. */
    constructor (fallback: Option<LoadBalancer>, now: int)
      ensures this.fallback == fallback && lastEvaluation == now
    {
      this.fallback := fallback;
      lastEvaluation := now;
    }

    /** map(task, worksheet) at time `now`, with the descriptor's enabled flag and rule
        list. Within 1000 ms of the last evaluation it returns null and changes
        nothing. Otherwise it searches when enabled: a found mapping is returned, a
        failed search returns null. When disabled, or when a rule throws, the fallback
        decides, or nothing is returned when there is no fallback. */
    method Map(task: Task, ws: Worksheet, enabled: bool, rules: seq<ScoringRule>, parser: LabelParser, now: int)
        returns (r: Option<Assignment>, ghost route: Route)
      modifies this
      ensures route.Throttled? <==> old(lastEvaluation) > now - 1000
      ensures route.Throttled? ==> r.None? && lastEvaluation == old(lastEvaluation)
      ensures !route.Throttled? ==> lastEvaluation == now
      ensures route.Searched? ==> enabled
      ensures route.Searched? ==>
                (route.found <==> Extendable(Search(ws, task, rules, parser), Unassigned(|ws.works|), 0))
      ensures route.Searched? ==> (r.Some? <==> route.found)
      ensures r.Some? && route.Searched? ==>
                |r.value| == |ws.works| && GreedyCompletion(Search(ws, task, rules, parser), r.value, 0)
      ensures route.FellBack? ==> !enabled || RuleRaises(Search(ws, task, rules, parser))
      ensures (!route.Throttled? && enabled && |ws.works| > 0 &&
               Level(Search(ws, task, rules, parser), Unassigned(|ws.works|), 0).Raised?) ==> route.FellBack?
      ensures route.FellBack? && fallback.Some? ==> r == fallback.value.decide(task, ws)
      ensures route.FellBack? && fallback.None? ==> r.None?
    {
      if lastEvaluation > now - 1000 {
        return None, Throttled;
      }
      lastEvaluation := now;
      var m := new Mapping(ws);
      if enabled {
        var result := AssignGreedily(m, task, rules, parser);
        if result.Found? {
          GreedyCompletionExtends(Search(ws, task, rules, parser), Unassigned(|ws.works|), m.mapping[..], 0);
          return Some(m.mapping[..]), Searched(true);
        }
        if result.NotFound? {
          return None, Searched(false);
        }
      }
      route := FellBack;
      if fallback.Some? {
        r := fallback.value.decide(task, ws);
      } else {
        r := None;
      }
    }
  }
}
