/** The older snapshot of the bug oracle: a graph whose nodes are statements
    (execution_graph.go). It declares its own VarId and ExecutionTrace, so it
    lives in a module of its own; the generation-change constants it declares
    are shared with the newer files, as in the Go package. */
module ExecutionGraph {
  import opened Wrappers
  import opened Visits

  type VarId = int
  type StatementId = int
  type GenChangeType = int

  const PrevGen: GenChangeType := -1
  const SameGen: GenChangeType := 0
  const NextGen: GenChangeType := 1

  /** A value's lineage: the origin it derives from and its generation. */
  datatype VariableGen = VariableGen(id: VarId, gen: int)

  /** The statement stored in a node. `OtherStatement` stands for any other
      dynamic value, including the nil read for a missing node. */
  datatype Statement =
    | NopStatement
    | UseStatement(values: seq<VarId>)
    | AssignmentStatement(target: VarId, source: VarId, genChange: GenChangeType)
    | OtherStatement

  datatype ExecutionStatement = ExecutionStatement(id: StatementId, statement: Statement)

  type ExecutionTrace = seq<ExecutionStatement>

  datatype ExecutionError = ExecutionError(trace: ExecutionTrace, id: StatementId, conflictOrigin: VarId, conflictVariable: VarId)

  /** For each use statement, the argument positions that must hold the
      latest generation of their origin. */
  datatype ExecutionContext = ExecutionContext(nextGenArguments: map<StatementId, seq<int>>)

  function Successors(edges: map<StatementId, seq<StatementId>>, id: StatementId): seq<StatementId>
  {
    Get(edges, id, [])
  }

  function NodeAt(nodes: map<StatementId, Statement>, id: StatementId): Statement
  {
    Get(nodes, id, OtherStatement)
  }

  /** Every node some edge points at. */
  function Targets(edges: map<StatementId, seq<StatementId>>): set<StatementId>
  {
    set v, i | v in edges && 0 <= i < |edges[v]| :: edges[v][i]
  }

  class ExecutionGraph {
    var nodes: map<StatementId, Statement>
    var edges: map<StatementId, seq<StatementId>>

    /** Node ids are exactly 0 .. |nodes|-1, as NewNode hands them out. */
    ghost predicate Dense()
      reads this
    {
      forall id :: id in nodes <==> 0 <= id < |nodes|
    }

    constructor ()
      ensures nodes == map[] && edges == map[] && Dense()
    {
      nodes, edges := map[], map[];
    }

    /** Stores the statement under the next id, the number of nodes so far. */
    method NewNode(statement: Statement) returns (id: StatementId)
      modifies this
      ensures id == old(|nodes|)
      ensures nodes == old(nodes)[id := statement] && edges == old(edges)
      ensures old(Dense()) ==> Dense() && id !in old(nodes) && |nodes| == old(|nodes|) + 1
    {
      id := |nodes|;
      nodes := nodes[id := statement];
    }

    /** Appends `target` at the end of the successor list of `source`. */
    method AddEdge(source: StatementId, target: StatementId)
      modifies this
      ensures edges == old(edges)[source := Successors(old(edges), source) + [target]]
      ensures nodes == old(nodes)
    {
      edges := edges[source := Successors(edges, source) + [target]];
    }

    /** GenerateTraces: every bounded path from `root`, in edge order. */
    method GenerateTraces(root: StatementId, repeatLimit: int) returns (traces: seq<ExecutionTrace>)
      ensures traces == TracesFrom(nodes, edges, root, repeatLimit, [], map[])
    {
      var visits: Counts := map[];
      traces := [];
      visits, traces := generateTraces(nodes, edges, root, repeatLimit, [], visits, traces);
    }
  }

  class ExecutionGraphCursor {
    const graph: ExecutionGraph
    var current: StatementId

    /** NewExecutionGraphCursor: the cursor starts on a fresh Nop node. */
    constructor (graph: ExecutionGraph)
      modifies graph
      ensures this.graph == graph
      ensures current == old(|graph.nodes|)
      ensures graph.nodes == old(graph.nodes)[current := NopStatement] && graph.edges == old(graph.edges)
    {
      this.graph := graph;
      var id := graph.NewNode(NopStatement);
      current := id;
    }

    /** Creates a node for `statement`, links the current node to it and moves there. */
    method Next(statement: Statement)
      modifies this, graph
      ensures current == old(|graph.nodes|)
      ensures graph.nodes == old(graph.nodes)[current := statement]
      ensures graph.edges == old(graph.edges)[old(current) := Successors(old(graph.edges), old(current)) + [current]]
    {
      var next := graph.NewNode(statement);
      graph.AddEdge(current, next);
      current := next;
    }
  }

  /** The recursive walk over the graph's nodes and edges: the visit counters come back restored and the
      traces found below `root` are appended. */
  method generateTraces(nodes: map<StatementId, Statement>, edges: map<StatementId, seq<StatementId>>, root: StatementId, repeatLimit: int, current: ExecutionTrace, visits: Counts, traces: seq<ExecutionTrace>)
    returns (visitsOut: Counts, tracesOut: seq<ExecutionTrace>)
    requires NonNegative(visits)
    ensures NonNegative(visitsOut) && SameCounts(visitsOut, visits)
    ensures tracesOut == traces + TracesFrom(nodes, edges, root, repeatLimit, current, visits)
    decreases Slots(visits, Targets(edges), repeatLimit), 1
  {
    var here := current + [ExecutionStatement(root, NodeAt(nodes, root))];
    var succs := Successors(edges, root);
    var finish := true;
    var i := 0;
    visitsOut, tracesOut := visits, traces;
    ghost var total := traces + TracesVia(nodes, edges, root, repeatLimit, here, visits, 0);
    while i < |succs|
      invariant 0 <= i <= |succs|
      invariant NonNegative(visitsOut) && SameCounts(visitsOut, visits)
      invariant tracesOut + TracesVia(nodes, edges, root, repeatLimit, here, visits, i) == total
      invariant finish <==> !EnterableBefore(edges, root, repeatLimit, visits, i)
    {
      var next := succs[i];
      ghost var before, got := tracesOut, [];
      assert Count(visitsOut, next) == Count(visits, next);
      if Count(visitsOut, next) < repeatLimit {
        var below;
        visitsOut, below := enter(nodes, edges, next, repeatLimit, here, visitsOut, visits);
        tracesOut, got := tracesOut + below, below;
        finish := false;
      }
      WalkStep(nodes, edges, root, repeatLimit, here, visits, i, before, got);
      i := i + 1;
    }
    assert tracesOut == total;
    if finish {
      tracesOut := tracesOut + [here];
    }
  }

  /** The body of the walk's loop for one successor `next` below its limit:
      raise its counter, walk from it, lower the counter again. */
  method enter(nodes: map<StatementId, Statement>, edges: map<StatementId, seq<StatementId>>, next: StatementId, repeatLimit: int, here: ExecutionTrace, visits: Counts, ghost base: Counts)
    returns (visitsOut: Counts, below: seq<ExecutionTrace>)
    requires NonNegative(visits) && NonNegative(base) && SameCounts(visits, base)
    requires next in Targets(edges) && Count(visits, next) < repeatLimit
    ensures NonNegative(visitsOut) && SameCounts(visitsOut, base)
    ensures below == TracesFrom(nodes, edges, next, repeatLimit, here, base[next := Count(base, next) + 1])
    decreases Slots(base, Targets(edges), repeatLimit), 0
  {
    SameCountsSlots(visits, base, Targets(edges), repeatLimit);
    SameCountsUpdate(visits, base, next, Count(base, next) + 1);
    SlotsShrink(base, Targets(edges), repeatLimit, next);
    SlotsShrink(visits, Targets(edges), repeatLimit, next);
    var entered := visits[next := Count(visits, next) + 1];
    var back;
    back, below := generateTraces(nodes, edges, next, repeatLimit, here, entered, []);
    SameCountsRestore(visits, back, next);
    visitsOut := back[next := Count(back, next) - 1];
    SameCountsTrans(visitsOut, visits, base);
    TracesFromCongruent(nodes, edges, next, repeatLimit, here, entered, base[next := Count(base, next) + 1]);
  }

  // ---------------------------------------------------------------------------
  // Trace enumeration, as a specification

  /** Whether some successor of `root` can still be entered. */
  predicate CanContinue(edges: map<StatementId, seq<StatementId>>, root: StatementId, limit: int, visits: Counts)
  {
    EnterableBefore(edges, root, limit, visits, |Successors(edges, root)|)
  }

  /** Whether one of the first n successors of `root` can be entered. */
  predicate EnterableBefore(edges: map<StatementId, seq<StatementId>>, root: StatementId, limit: int, visits: Counts, n: nat)
    requires n <= |Successors(edges, root)|
  {
    exists j :: 0 <= j < n && Count(visits, Successors(edges, root)[j]) < limit
  }

  /** The traces the walk from `root` records, in order, given the statements
      already on the trace and the visit counters. */
  function TracesFrom(nodes: map<StatementId, Statement>, edges: map<StatementId, seq<StatementId>>, root: StatementId,
                      limit: int, current: ExecutionTrace, visits: Counts): seq<ExecutionTrace>
    requires NonNegative(visits)
    decreases Slots(visits, Targets(edges), limit), 1, 0
  {
    var here := current + [ExecutionStatement(root, NodeAt(nodes, root))];
    TracesVia(nodes, edges, root, limit, here, visits, 0)
      + (if CanContinue(edges, root, limit, visits) then [] else [here])
  }

  /** The traces through the successors of `root` from the i-th on. */
  function TracesVia(nodes: map<StatementId, Statement>, edges: map<StatementId, seq<StatementId>>, root: StatementId,
                     limit: int, here: ExecutionTrace, visits: Counts, i: nat): seq<ExecutionTrace>
    requires NonNegative(visits)
    requires i <= |Successors(edges, root)|
    decreases Slots(visits, Targets(edges), limit), 0, |Successors(edges, root)| - i
  {
    if i == |Successors(edges, root)| then []
    else
      var next := Successors(edges, root)[i];
      if Count(visits, next) >= limit then TracesVia(nodes, edges, root, limit, here, visits, i + 1)
      else
        assert root in edges && edges[root][i] == next;
        SlotsShrink(visits, Targets(edges), limit, next);
        TracesFrom(nodes, edges, next, limit, here, visits[next := Count(visits, next) + 1])
          + TracesVia(nodes, edges, root, limit, here, visits, i + 1)
  }

  /** Entering the i-th successor of `root` spends one slot. */
  lemma EnterShrinks(edges: map<StatementId, seq<StatementId>>, root: StatementId, limit: int, visits: Counts, i: nat)
    requires NonNegative(visits)
    requires i < |Successors(edges, root)| && Count(visits, Successors(edges, root)[i]) < limit
    ensures var next := Successors(edges, root)[i];
      var entry := visits[next := Count(visits, next) + 1];
      NonNegative(entry) && Slots(entry, Targets(edges), limit) < Slots(visits, Targets(edges), limit)
  {
    var next := Successors(edges, root)[i];
    assert root in edges && edges[root][i] == next;
    SlotsShrink(visits, Targets(edges), limit, next);
  }

  /** One step of TracesVia: a successor at its limit is skipped, any other
      is entered with its counter raised. */
  lemma TracesViaUnfold(nodes: map<StatementId, Statement>, edges: map<StatementId, seq<StatementId>>, root: StatementId,
                        limit: int, here: ExecutionTrace, visits: Counts, i: nat)
    requires NonNegative(visits)
    requires i < |Successors(edges, root)|
    ensures EnterableBefore(edges, root, limit, visits, i + 1)
        <==> EnterableBefore(edges, root, limit, visits, i) || Count(visits, Successors(edges, root)[i]) < limit
    ensures var next := Successors(edges, root)[i];
      Count(visits, next) >= limit ==>
        TracesVia(nodes, edges, root, limit, here, visits, i) == TracesVia(nodes, edges, root, limit, here, visits, i + 1)
    ensures var next := Successors(edges, root)[i];
      var entry := visits[next := Count(visits, next) + 1];
      Count(visits, next) < limit ==>
        TracesVia(nodes, edges, root, limit, here, visits, i)
          == TracesFrom(nodes, edges, next, limit, here, entry) + TracesVia(nodes, edges, root, limit, here, visits, i + 1)
  {
    var next := Successors(edges, root)[i];
    if Count(visits, next) < limit {
      assert EnterableBefore(edges, root, limit, visits, i + 1);
      EnterShrinks(edges, root, limit, visits, i);
    }
  }

  /** The loop of the walk keeps its invariants over one successor. */
  lemma WalkStep(nodes: map<StatementId, Statement>, edges: map<StatementId, seq<StatementId>>, root: StatementId,
                 limit: int, here: ExecutionTrace, visits: Counts, i: nat, before: seq<ExecutionTrace>, below: seq<ExecutionTrace>)
    requires NonNegative(visits)
    requires i < |Successors(edges, root)|
    requires var next := Successors(edges, root)[i];
      below == if Count(visits, next) < limit
               then TracesFrom(nodes, edges, next, limit, here, visits[next := Count(visits, next) + 1])
               else []
    ensures before + below + TracesVia(nodes, edges, root, limit, here, visits, i + 1)
         == before + TracesVia(nodes, edges, root, limit, here, visits, i)
    ensures EnterableBefore(edges, root, limit, visits, i + 1)
        <==> EnterableBefore(edges, root, limit, visits, i) || Count(visits, Successors(edges, root)[i]) < limit
  {
    TracesViaUnfold(nodes, edges, root, limit, here, visits, i);
    var next := Successors(edges, root)[i];
    if Count(visits, next) < limit {
      var rest := TracesVia(nodes, edges, root, limit, here, visits, i + 1);
      assert before + below + rest == before + (below + rest);
    } else {
      assert before + below == before;
    }
  }

  /** The walk reads the counters only through Go's zero-default lookup. */
  lemma {:induction false} TracesFromCongruent(nodes: map<StatementId, Statement>, edges: map<StatementId, seq<StatementId>>,
                                               root: StatementId, limit: int, current: ExecutionTrace, a: Counts, b: Counts)
    requires NonNegative(a) && NonNegative(b) && SameCounts(a, b)
    ensures TracesFrom(nodes, edges, root, limit, current, a) == TracesFrom(nodes, edges, root, limit, current, b)
    decreases Slots(a, Targets(edges), limit), 1, 0
  {
    var here := current + [ExecutionStatement(root, NodeAt(nodes, root))];
    TracesViaCongruent(nodes, edges, root, limit, here, a, b, 0);
  }

  lemma {:induction false} TracesViaCongruent(nodes: map<StatementId, Statement>, edges: map<StatementId, seq<StatementId>>,
                                              root: StatementId, limit: int, here: ExecutionTrace, a: Counts, b: Counts, i: nat)
    requires NonNegative(a) && NonNegative(b) && SameCounts(a, b)
    requires i <= |Successors(edges, root)|
    ensures TracesVia(nodes, edges, root, limit, here, a, i) == TracesVia(nodes, edges, root, limit, here, b, i)
    decreases Slots(a, Targets(edges), limit), 0, |Successors(edges, root)| - i
  {
    if i < |Successors(edges, root)| {
      var next := Successors(edges, root)[i];
      TracesViaCongruent(nodes, edges, root, limit, here, a, b, i + 1);
      TracesViaUnfold(nodes, edges, root, limit, here, a, i);
      TracesViaUnfold(nodes, edges, root, limit, here, b, i);
      assert Count(a, next) == Count(b, next);
      if Count(a, next) < limit {
        EnterShrinks(edges, root, limit, a, i);
        EnterShrinks(edges, root, limit, b, i);
        SameCountsUpdate(a, b, next, Count(a, next) + 1);
        TracesFromCongruent(nodes, edges, next, limit, here, a[next := Count(a, next) + 1], b[next := Count(b, next) + 1]);
      }
    }
  }

  // ---------------------------------------------------------------------------
  // What every enumerated trace looks like

  function Max(a: int, b: int): int
  {
    if a < b then b else a
  }

  /** How many statements of `t` sit on node `p`. */
  function Occurrences(t: ExecutionTrace, p: StatementId): nat
  {
    if |t| == 0 then 0 else (if t[0].id == p then 1 else 0) + Occurrences(t[1..], p)
  }

  /** From position `from` on, each statement is the node's own statement and
      each next node is a successor of the previous one. */
  predicate Follows(nodes: map<StatementId, Statement>, edges: map<StatementId, seq<StatementId>>, t: ExecutionTrace, from: nat)
  {
    (forall k :: from <= k < |t| ==> t[k].statement == NodeAt(nodes, t[k].id)) &&
    (forall k :: from <= k < |t| - 1 ==> t[k + 1].id in Successors(edges, t[k].id))
  }

  /** A trace recorded by the walk from `root`: it extends `current` with
      `root` and a path along the edges; no node is entered more often than
      the limit allows on top of the counts in `visits`; and no successor of
      its last node could still be entered. */
  ghost predicate WalkTrace(nodes: map<StatementId, Statement>, edges: map<StatementId, seq<StatementId>>, limit: int,
                      current: ExecutionTrace, root: StatementId, visits: Counts, t: ExecutionTrace)
  {
    |t| > |current| && t[..|current|] == current && t[|current|].id == root
    && Follows(nodes, edges, t, |current|)
    && (forall p :: Count(visits, p) + Occurrences(t[|current| + 1..], p) <= Max(limit, Count(visits, p)))
    && (forall s :: s in Successors(edges, t[|t| - 1].id) ==> Count(visits, s) + Occurrences(t[|current| + 1..], s) >= limit)
  }

  lemma OccurrencesHead(t: ExecutionTrace, a: nat, p: StatementId)
    requires a < |t|
    ensures Occurrences(t[a..], p) == (if t[a].id == p then 1 else 0) + Occurrences(t[a + 1..], p)
  {
    assert t[a..][1..] == t[a + 1..];
  }

  lemma {:induction false} TracesFromWalk(nodes: map<StatementId, Statement>, edges: map<StatementId, seq<StatementId>>, root: StatementId,
                                          limit: int, current: ExecutionTrace, visits: Counts)
    requires NonNegative(visits)
    ensures forall t :: t in TracesFrom(nodes, edges, root, limit, current, visits) ==> WalkTrace(nodes, edges, limit, current, root, visits, t)
    decreases Slots(visits, Targets(edges), limit), 1, 0
  {
    var here := current + [ExecutionStatement(root, NodeAt(nodes, root))];
    TracesViaWalk(nodes, edges, root, limit, here, visits, 0);
    forall t | t in TracesFrom(nodes, edges, root, limit, current, visits)
      ensures WalkTrace(nodes, edges, limit, current, root, visits, t)
    {
      if t in TracesVia(nodes, edges, root, limit, here, visits, 0) {
        var j :| 0 <= j && EnteredTrace(nodes, edges, limit, here, root, visits, j, t);
        assert j < |Successors(edges, root)|;
        EnteredWalk(nodes, edges, root, limit, current, visits, Successors(edges, root)[j], t);
      } else {
        FinishedWalk(nodes, edges, root, limit, current, visits);
      }
    }
  }

  /** A trace found below the j-th successor of `root`, entered with its counter raised. */
  ghost predicate EnteredTrace(nodes: map<StatementId, Statement>, edges: map<StatementId, seq<StatementId>>, limit: int,
                               here: ExecutionTrace, root: StatementId, visits: Counts, j: int, t: ExecutionTrace)
  {
    0 <= j < |Successors(edges, root)| && Count(visits, Successors(edges, root)[j]) < limit
    && WalkTrace(nodes, edges, limit, here, Successors(edges, root)[j],
                 visits[Successors(edges, root)[j] := Count(visits, Successors(edges, root)[j]) + 1], t)
  }

  /** When no successor can be entered, the trace ending at `root` is a trace of the walk. */
  lemma FinishedWalk(nodes: map<StatementId, Statement>, edges: map<StatementId, seq<StatementId>>, root: StatementId,
                     limit: int, current: ExecutionTrace, visits: Counts)
    requires !CanContinue(edges, root, limit, visits)
    ensures WalkTrace(nodes, edges, limit, current, root, visits, current + [ExecutionStatement(root, NodeAt(nodes, root))])
  {
    var here := current + [ExecutionStatement(root, NodeAt(nodes, root))];
    assert here[..|current|] == current;
    assert here[|current| + 1..] == [];
    forall s | s in Successors(edges, root)
      ensures Count(visits, s) >= limit
    {
      var j :| 0 <= j < |Successors(edges, root)| && Successors(edges, root)[j] == s;
      assert !EnterableBefore(edges, root, limit, visits, |Successors(edges, root)|);
    }
  }

  /** A trace found after entering successor `next` of `root` is a trace of the walk from `root`. */
  lemma EnteredWalk(nodes: map<StatementId, Statement>, edges: map<StatementId, seq<StatementId>>, root: StatementId,
                    limit: int, current: ExecutionTrace, visits: Counts, next: StatementId, t: ExecutionTrace)
    requires NonNegative(visits)
    requires next in Successors(edges, root) && Count(visits, next) < limit
    requires WalkTrace(nodes, edges, limit, current + [ExecutionStatement(root, NodeAt(nodes, root))], next,
                       visits[next := Count(visits, next) + 1], t)
    ensures WalkTrace(nodes, edges, limit, current, root, visits, t)
  {
    var here := current + [ExecutionStatement(root, NodeAt(nodes, root))];
    var entry := visits[next := Count(visits, next) + 1];
    var n := |current|;
    assert t[..n] == t[..n + 1][..n] == here[..n] == current;
    assert t[n] == t[..n + 1][n] == here[n];
    assert Follows(nodes, edges, t, n) by {
      assert t[n + 1].id == next;
    }
    EnteredBound(limit, visits, next, t, n);
    var last := t[|t| - 1].id;
    assert forall s :: s in Successors(edges, last) ==> Count(entry, s) + Occurrences(t[n + 2..], s) >= limit;
    EnteredExhausted(limit, visits, next, t, n, Successors(edges, last));
  }

  /** Entering `next` at position n + 1 moves one visit from the trace's
      tail into the counters. */
  lemma EnteredShift(visits: Counts, next: StatementId, t: ExecutionTrace, n: nat, p: StatementId)
    requires n + 1 < |t| && t[n + 1].id == next
    ensures Count(visits[next := Count(visits, next) + 1], p) + Occurrences(t[n + 2..], p)
         == Count(visits, p) + Occurrences(t[n + 1..], p)
  {
    OccurrencesHead(t, n + 1, p);
  }

  lemma EnteredBound(limit: int, visits: Counts, next: StatementId, t: ExecutionTrace, n: nat)
    requires n + 1 < |t| && t[n + 1].id == next && Count(visits, next) < limit
    requires var entry := visits[next := Count(visits, next) + 1];
      forall p :: Count(entry, p) + Occurrences(t[n + 2..], p) <= Max(limit, Count(entry, p))
    ensures forall p :: Count(visits, p) + Occurrences(t[n + 1..], p) <= Max(limit, Count(visits, p))
  {
    var entry := visits[next := Count(visits, next) + 1];
    forall p ensures Count(visits, p) + Occurrences(t[n + 1..], p) <= Max(limit, Count(visits, p)) {
      EnteredShift(visits, next, t, n, p);
      assert Count(entry, p) + Occurrences(t[n + 2..], p) <= Max(limit, Count(entry, p));
    }
  }

  lemma EnteredExhausted(limit: int, visits: Counts, next: StatementId, t: ExecutionTrace, n: nat, succs: seq<StatementId>)
    requires n + 1 < |t| && t[n + 1].id == next
    requires var entry := visits[next := Count(visits, next) + 1];
      forall s :: s in succs ==> Count(entry, s) + Occurrences(t[n + 2..], s) >= limit
    ensures forall s :: s in succs ==> Count(visits, s) + Occurrences(t[n + 1..], s) >= limit
  {
    forall s | s in succs ensures Count(visits, s) + Occurrences(t[n + 1..], s) >= limit {
      EnteredShift(visits, next, t, n, s);
    }
  }

  lemma {:induction false} TracesViaWalk(nodes: map<StatementId, Statement>, edges: map<StatementId, seq<StatementId>>, root: StatementId,
                                         limit: int, here: ExecutionTrace, visits: Counts, i: nat)
    requires NonNegative(visits)
    requires i <= |Successors(edges, root)|
    ensures forall t :: t in TracesVia(nodes, edges, root, limit, here, visits, i) ==>
      exists j :: i <= j && EnteredTrace(nodes, edges, limit, here, root, visits, j, t)
    decreases Slots(visits, Targets(edges), limit), 0, |Successors(edges, root)| - i
  {
    if i < |Successors(edges, root)| {
      var next := Successors(edges, root)[i];
      TracesViaUnfold(nodes, edges, root, limit, here, visits, i);
      TracesViaWalk(nodes, edges, root, limit, here, visits, i + 1);
      if Count(visits, next) < limit {
        var entry := visits[next := Count(visits, next) + 1];
        EnterShrinks(edges, root, limit, visits, i);
        TracesFromWalk(nodes, edges, next, limit, here, entry);
        forall t | t in TracesFrom(nodes, edges, next, limit, here, entry)
          ensures EnteredTrace(nodes, edges, limit, here, root, visits, i, t)
        {
        }
      }
    }
  }

  /** The traces of GenerateTraces start at the root, follow the edges, enter
      no node more than `repeatLimit` times, and end where no successor can
      be entered any more. */
  lemma GeneratedTraces(nodes: map<StatementId, Statement>, edges: map<StatementId, seq<StatementId>>, root: StatementId, limit: int,
                        t: ExecutionTrace)
    requires t in TracesFrom(nodes, edges, root, limit, [], map[])
    ensures |t| >= 1 && t[0] == ExecutionStatement(root, NodeAt(nodes, root))
    ensures Follows(nodes, edges, t, 0)
    ensures forall p :: Occurrences(t[1..], p) <= Max(limit, 0)
    ensures forall s :: s in Successors(edges, t[|t| - 1].id) ==> Occurrences(t[1..], s) >= limit
  {
    TracesFromWalk(nodes, edges, root, limit, [], map[]);
    assert WalkTrace(nodes, edges, limit, [], root, map[], t);
    forall p ensures Occurrences(t[1..], p) <= Max(limit, 0) {
      assert Count(map[], p) == 0;
    }
    forall s | s in Successors(edges, t[|t| - 1].id) ensures Occurrences(t[1..], s) >= limit {
      assert Count(map[], s) == 0;
    }
  }

  // ---------------------------------------------------------------------------
  // Generation-lineage validation

  /** The validator's two maps: the latest generation reached per origin, and
      the lineage of every variable assigned so far. */
  datatype Lineage = Lineage(originLatestGen: map<VarId, int>, variableGen: map<VarId, VariableGen>)

  const EmptyLineage := Lineage(map[], map[])

  /** The lineage an assignment gives its target: an unseen source starts its
      own origin at generation 0, a known one moves by `genChange`. */
  function AssignedGen(l: Lineage, source: VarId, genChange: GenChangeType): (g: VariableGen)
    ensures source !in l.variableGen ==> g == VariableGen(source, 0)
    ensures source in l.variableGen ==>
      g.id == l.variableGen[source].id && g.gen == l.variableGen[source].gen + genChange
  {
    if source in l.variableGen then
      var sourceGen := l.variableGen[source];
      VariableGen(sourceGen.id, sourceGen.gen + genChange)
    else VariableGen(source, 0)
  }

  /** A NextGen step that does not go beyond a generation already reached. */
  predicate AssignConflicts(l: Lineage, g: VariableGen, genChange: GenChangeType)
  {
    g.id in l.originLatestGen && genChange == NextGen && g.gen <= l.originLatestGen[g.id]
  }

  /** The lineage after an assignment statement. */
  function Assign(l: Lineage, target: VarId, source: VarId, genChange: GenChangeType): Lineage
  {
    var g := AssignedGen(l, source, genChange);
    var latest :=
      if AssignConflicts(l, g, genChange) then l.originLatestGen
      else if g.id !in l.originLatestGen || l.originLatestGen[g.id] < g.gen then l.originLatestGen[g.id := g.gen]
      else l.originLatestGen;
    Lineage(latest, l.variableGen[target := g])
  }

  /** An assignment statement reports an error exactly when it is a NextGen
      step that does not exceed its origin's latest generation. The target
      takes the candidate lineage either way, and an origin's latest
      generation is never lowered: it is raised to the candidate unless an
      error was reported, and every other origin keeps its latest. */
  lemma AssignmentStep(ctx: ExecutionContext, trace: ExecutionTrace, l: Lineage, errs: seq<ExecutionError>,
                       id: StatementId, target: VarId, source: VarId, genChange: GenChangeType)
    ensures var r := Step(ctx, trace, l, errs, ExecutionStatement(id, AssignmentStatement(target, source, genChange)));
      var g := AssignedGen(l, source, genChange);
      r.Ok? &&
      var (l', errs') := r.value;
      (|errs'| == |errs| + 1 <==> genChange == NextGen && g.id in l.originLatestGen && g.gen <= l.originLatestGen[g.id]) &&
      (|errs'| != |errs| + 1 ==> errs' == errs) &&
      (|errs'| == |errs| + 1 ==> errs'[|errs|] == ExecutionError(trace, id, g.id, source)) &&
      l'.variableGen == l.variableGen[target := g] &&
      (|errs'| == |errs| ==> g.id in l'.originLatestGen && l'.originLatestGen[g.id] >= g.gen) &&
      (forall o :: o in l.originLatestGen ==> o in l'.originLatestGen && l'.originLatestGen[o] >= l.originLatestGen[o]) &&
      (forall o :: o in l'.originLatestGen && o != g.id ==> o in l.originLatestGen && l'.originLatestGen[o] == l.originLatestGen[o])
  {
  }

  /** The errors of a use statement for its first k listed positions; a
      position outside the statement's values is a failure. */
  function UseErrors(trace: ExecutionTrace, l: Lineage, id: StatementId, values: seq<VarId>, positions: seq<int>, k: nat)
    : (r: Result<seq<ExecutionError>>)
    requires k <= |positions|
    ensures r.Ok? <==> forall j :: 0 <= j < k ==> 0 <= positions[j] < |values|
    ensures r.Err? ==> r == Err("index out of range")
    ensures r.Ok? ==> |r.value| <= k
    decreases k
  {
    if k == 0 then Ok([])
    else match UseErrors(trace, l, id, values, positions, k - 1)
      case Err(msg) => Err(msg)
      case Ok(errs) =>
        var position := positions[k - 1];
        if !(0 <= position < |values|) then Err("index out of range")
        else
          var origin := Get(l.variableGen, values[position], VariableGen(0, 0));
          if origin.id in l.originLatestGen && origin.gen < l.originLatestGen[origin.id]
          then Ok(errs + [ExecutionError(trace, id, origin.id, values[position])])
          else Ok(errs)
  }

  /** One statement of ValidateTrace. */
  function Step(ctx: ExecutionContext, trace: ExecutionTrace, l: Lineage, errs: seq<ExecutionError>, s: ExecutionStatement)
    : (r: Result<(Lineage, seq<ExecutionError>)>)
    ensures s.statement.NopStatement? ==> r == Ok((l, errs))
    ensures s.statement.OtherStatement? ==> r.Err?
    ensures r.Ok? ==> |r.value.1| >= |errs| && r.value.1[..|errs|] == errs
  {
    match s.statement
    case NopStatement => Ok((l, errs))
    case OtherStatement => Err("unexpected execution statement type")
    case AssignmentStatement(target, source, genChange) =>
      var g := AssignedGen(l, source, genChange);
      var found := if AssignConflicts(l, g, genChange) then [ExecutionError(trace, s.id, g.id, source)] else [];
      assert (errs + found)[..|errs|] == errs;
      Ok((Assign(l, target, source, genChange), errs + found))
    case UseStatement(values) =>
      var positions := Get(ctx.nextGenArguments, s.id, []);
      match UseErrors(trace, l, s.id, values, positions, |positions|)
      case Err(msg) => Err(msg)
      case Ok(found) =>
        assert (errs + found)[..|errs|] == errs;
        Ok((l, errs + found))
  }

  /** The validator's state after the first k statements of the trace. */
  function Run(ctx: ExecutionContext, trace: ExecutionTrace, k: nat): Result<(Lineage, seq<ExecutionError>)>
    requires k <= |trace|
  {
    if k == 0 then Ok((EmptyLineage, []))
    else match Run(ctx, trace, k - 1)
      case Err(msg) => Err(msg)
      case Ok(state) => Step(ctx, trace, state.0, state.1, trace[k - 1])
  }

  /** Once a statement fails, the whole trace fails. */
  lemma {:induction false} RunFailureSticks(ctx: ExecutionContext, trace: ExecutionTrace, k: nat, m: nat)
    requires k <= m <= |trace| && Run(ctx, trace, k).Err?
    ensures Run(ctx, trace, m) == Run(ctx, trace, k)
    decreases m - k
  {
    if k < m {
      RunFailureSticks(ctx, trace, k + 1, m);
    }
  }

  function TraceErrors(ctx: ExecutionContext, trace: ExecutionTrace): Result<seq<ExecutionError>>
  {
    match Run(ctx, trace, |trace|)
    case Err(msg) => Err(msg)
    case Ok(state) => Ok(state.1)
  }

  /** ValidateTrace: walks the trace once, keeping both lineage maps. */
  method ValidateTrace(ctx: ExecutionContext, trace: ExecutionTrace) returns (r: Result<seq<ExecutionError>>)
    ensures r == TraceErrors(ctx, trace)
  {
    var originLatestGen: map<VarId, int> := map[];
    var variableGen: map<VarId, VariableGen> := map[];
    var errs: seq<ExecutionError> := [];
    var k := 0;
    while k < |trace|
      invariant 0 <= k <= |trace|
      invariant Run(ctx, trace, k) == Ok((Lineage(originLatestGen, variableGen), errs))
    {
      var someStatement := trace[k];
      ghost var old_latest, old_vars, old_errs := originLatestGen, variableGen, errs;
      assert Run(ctx, trace, k + 1) == Step(ctx, trace, Lineage(originLatestGen, variableGen), errs, trace[k]);
      match someStatement.statement {
        case AssignmentStatement(target, source, genChange) =>
          var targetGen;
          if source !in variableGen {
            targetGen := VariableGen(source, 0);
          } else {
            var sourceGen := variableGen[source];
            targetGen := VariableGen(sourceGen.id, sourceGen.gen + genChange);
          }
          if targetGen.id in originLatestGen && genChange == NextGen && targetGen.gen <= originLatestGen[targetGen.id] {
            errs := errs + [ExecutionError(trace, someStatement.id, targetGen.id, source)];
          } else if targetGen.id !in originLatestGen || originLatestGen[targetGen.id] < targetGen.gen {
            originLatestGen := originLatestGen[targetGen.id := targetGen.gen];
          }
          variableGen := variableGen[target := targetGen];
          assert targetGen == AssignedGen(Lineage(old_latest, old_vars), source, genChange);
          assert Lineage(originLatestGen, variableGen) == Assign(Lineage(old_latest, old_vars), target, source, genChange);
          assert errs == old_errs + if AssignConflicts(Lineage(old_latest, old_vars), targetGen, genChange)
            then [ExecutionError(trace, someStatement.id, targetGen.id, source)] else [];
          assert Run(ctx, trace, k + 1) == Ok((Lineage(originLatestGen, variableGen), errs));
        case UseStatement(values) =>
          var nextGenArguments := Get(ctx.nextGenArguments, someStatement.id, []);
          var found := UseStatementErrors(trace, originLatestGen, variableGen, someStatement.id, values, nextGenArguments);
          if found.Err? {
            RunFailureSticks(ctx, trace, k + 1, |trace|);
            return Err(found.msg);
          }
          errs := errs + found.value;
          assert Run(ctx, trace, k + 1) == Ok((Lineage(originLatestGen, variableGen), errs));
        case NopStatement =>
        case OtherStatement =>
          RunFailureSticks(ctx, trace, k + 1, |trace|);
          return Err("unexpected execution statement type");
      }
      k := k + 1;
    }
    return Ok(errs);
  }

  /** The inner loop of ValidateTrace over the argument positions of a use statement. */
  method UseStatementErrors(trace: ExecutionTrace, originLatestGen: map<VarId, int>, variableGen: map<VarId, VariableGen>,
                            id: StatementId, values: seq<VarId>, nextGenArguments: seq<int>)
    returns (r: Result<seq<ExecutionError>>)
    ensures r == UseErrors(trace, Lineage(originLatestGen, variableGen), id, values, nextGenArguments, |nextGenArguments|)
  {
    var errs := [];
    var j := 0;
    while j < |nextGenArguments|
      invariant 0 <= j <= |nextGenArguments|
      invariant UseErrors(trace, Lineage(originLatestGen, variableGen), id, values, nextGenArguments, j) == Ok(errs)
    {
      var position := nextGenArguments[j];
      if !(0 <= position < |values|) {
        return Err("index out of range");
      }
      var origin := Get(variableGen, values[position], VariableGen(0, 0));
      if origin.id in originLatestGen && origin.gen < originLatestGen[origin.id] {
        errs := errs + [ExecutionError(trace, id, origin.id, values[position])];
      }
      j := j + 1;
    }
    return Ok(errs);
  }

  /** The errors of all traces, concatenated in trace order. */
  function AllTraceErrors(ctx: ExecutionContext, traces: seq<ExecutionTrace>): (r: Result<seq<ExecutionError>>)
    ensures r.Ok? <==> forall t :: t in traces ==> TraceErrors(ctx, t).Ok?
  {
    if |traces| == 0 then Ok([])
    else match AllTraceErrors(ctx, traces[..|traces| - 1])
      case Err(msg) => Err(msg)
      case Ok(errs) =>
        match TraceErrors(ctx, traces[|traces| - 1])
        case Err(msg) => Err(msg)
        case Ok(more) => Ok(errs + more)
  }

  /** ValidateGraph: validates every generated trace and concatenates the errors. */
  method ValidateGraph(ctx: ExecutionContext, graph: ExecutionGraph, root: StatementId, repeatLimit: int)
    returns (r: Result<seq<ExecutionError>>)
    ensures r == AllTraceErrors(ctx, TracesFrom(graph.nodes, graph.edges, root, repeatLimit, [], map[]))
  {
    var errs := [];
    var traces := graph.GenerateTraces(root, repeatLimit);
    var k := 0;
    while k < |traces|
      invariant 0 <= k <= |traces|
      invariant AllTraceErrors(ctx, traces[..k]) == Ok(errs)
    {
      assert traces[..k + 1][..k] == traces[..k];
      var found := ValidateTrace(ctx, traces[k]);
      if found.Err? {
        AllTraceErrorsFailure(ctx, traces, k + 1);
        return Err(found.msg);
      }
      errs := errs + found.value;
      k := k + 1;
    }
    assert traces[..k] == traces;
    return Ok(errs);
  }

  /** A failing trace makes the whole validation fail with its message. */
  lemma {:induction false} AllTraceErrorsFailure(ctx: ExecutionContext, traces: seq<ExecutionTrace>, k: nat)
    requires 0 < k <= |traces| && AllTraceErrors(ctx, traces[..k - 1]).Ok? && TraceErrors(ctx, traces[k - 1]).Err?
    ensures AllTraceErrors(ctx, traces) == TraceErrors(ctx, traces[k - 1])
    decreases |traces|
  {
    if k < |traces| {
      var init := traces[..|traces| - 1];
      assert init[..k] == traces[..k] && init[..k - 1] == traces[..k - 1] && init[k - 1] == traces[k - 1];
      AllTraceErrorsFailure(ctx, init, k);
    } else {
      assert traces[..|traces| - 1] == traces[..k - 1];
    }
  }

  // ---------------------------------------------------------------------------
  // The expected outputs of the source's tests

  /** a=new(); b=a; a=next(a); b=next(b): the second NextGen of origin 0 is an error. */
  lemma StaleNextGenIsReported()
    ensures var trace := [
        ExecutionStatement(0, AssignmentStatement(1, 0, SameGen)),
        ExecutionStatement(1, AssignmentStatement(2, 1, SameGen)),
        ExecutionStatement(2, AssignmentStatement(1, 1, NextGen)),
        ExecutionStatement(3, AssignmentStatement(2, 2, NextGen))];
      TraceErrors(ExecutionContext(map[]), trace) == Ok([ExecutionError(trace, 3, 0, 2)])
  {
    var trace := [
        ExecutionStatement(0, AssignmentStatement(1, 0, SameGen)),
        ExecutionStatement(1, AssignmentStatement(2, 1, SameGen)),
        ExecutionStatement(2, AssignmentStatement(1, 1, NextGen)),
        ExecutionStatement(3, AssignmentStatement(2, 2, NextGen))];
    var ctx := ExecutionContext(map[]);
    assert Run(ctx, trace, 1) == Ok((Lineage(map[0 := 0], map[1 := VariableGen(0, 0)]), []));
    assert Run(ctx, trace, 2) == Ok((Lineage(map[0 := 0], map[1 := VariableGen(0, 0), 2 := VariableGen(0, 0)]), []));
    assert Run(ctx, trace, 3).Ok?;
    var (l3, errs3) := Run(ctx, trace, 3).value;
    assert l3.originLatestGen[0] == 1 && l3.variableGen[2] == VariableGen(0, 0) && errs3 == [];
  }

  /** A node without successors ends the trace there. */
  lemma LeafTrace(nodes: map<StatementId, Statement>, edges: map<StatementId, seq<StatementId>>, root: StatementId,
                  limit: int, current: ExecutionTrace, visits: Counts)
    requires NonNegative(visits) && Successors(edges, root) == []
    ensures TracesFrom(nodes, edges, root, limit, current, visits) == [current + [ExecutionStatement(root, NodeAt(nodes, root))]]
  {
  }

  /** With one successor: the walk enters it while below the limit, and
      otherwise the trace ends. */
  lemma OneSuccessorTraces(nodes: map<StatementId, Statement>, edges: map<StatementId, seq<StatementId>>, root: StatementId,
                           limit: int, current: ExecutionTrace, visits: Counts, next: StatementId)
    requires NonNegative(visits) && Successors(edges, root) == [next]
    ensures var here := current + [ExecutionStatement(root, NodeAt(nodes, root))];
      TracesFrom(nodes, edges, root, limit, current, visits)
      == if Count(visits, next) < limit
         then TracesFrom(nodes, edges, next, limit, here, visits[next := Count(visits, next) + 1])
         else [here]
  {
    var here := current + [ExecutionStatement(root, NodeAt(nodes, root))];
    TracesViaUnfold(nodes, edges, root, limit, here, visits, 0);
    assert !EnterableBefore(edges, root, limit, visits, 0);
    assert TracesVia(nodes, edges, root, limit, here, visits, 1) == [];
    assert TracesFrom(nodes, edges, root, limit, current, visits)
      == TracesVia(nodes, edges, root, limit, here, visits, 0) + (if CanContinue(edges, root, limit, visits) then [] else [here]);
  }

  /** With two successors, both below the limit: the traces through the
      first, then those through the second. */
  lemma TwoSuccessorTraces(nodes: map<StatementId, Statement>, edges: map<StatementId, seq<StatementId>>, root: StatementId,
                           limit: int, current: ExecutionTrace, visits: Counts, a: StatementId, b: StatementId)
    requires NonNegative(visits) && Successors(edges, root) == [a, b]
    requires Count(visits, a) < limit && Count(visits, b) < limit
    ensures var here := current + [ExecutionStatement(root, NodeAt(nodes, root))];
      TracesFrom(nodes, edges, root, limit, current, visits)
      == TracesFrom(nodes, edges, a, limit, here, visits[a := Count(visits, a) + 1])
       + TracesFrom(nodes, edges, b, limit, here, visits[b := Count(visits, b) + 1])
  {
    var here := current + [ExecutionStatement(root, NodeAt(nodes, root))];
    TracesViaUnfold(nodes, edges, root, limit, here, visits, 0);
    TracesViaUnfold(nodes, edges, root, limit, here, visits, 1);
    assert !EnterableBefore(edges, root, limit, visits, 0);
    assert TracesVia(nodes, edges, root, limit, here, visits, 2) == [];
    assert TracesFrom(nodes, edges, root, limit, current, visits)
      == TracesVia(nodes, edges, root, limit, here, visits, 0) + (if CanContinue(edges, root, limit, visits) then [] else [here]);
  }

  /** A chain 0 -> 1 -> 2 -> 3 gives the one trace along it. */
  lemma LinearGraphHasOneTrace(nodes: map<StatementId, Statement>, edges: map<StatementId, seq<StatementId>>,
                               s0: Statement, s1: Statement, s2: Statement, s3: Statement)
    requires nodes == map[0 := s0, 1 := s1, 2 := s2, 3 := s3] && edges == map[0 := [1], 1 := [2], 2 := [3]]
    ensures TracesFrom(nodes, edges, 0, 1, [], map[])
      == [[ExecutionStatement(0, s0), ExecutionStatement(1, s1), ExecutionStatement(2, s2), ExecutionStatement(3, s3)]]
  {
    var e0, e1, e2, e3 := ExecutionStatement(0, s0), ExecutionStatement(1, s1), ExecutionStatement(2, s2), ExecutionStatement(3, s3);
    var v1: Counts := map[1 := 1];
    var v2 := v1[2 := 1];
    var v3 := v2[3 := 1];
    assert TracesFrom(nodes, edges, 3, 1, [e0, e1, e2], v3) == [[e0, e1, e2, e3]] by {
      LeafTrace(nodes, edges, 3, 1, [e0, e1, e2], v3);
      assert [e0, e1, e2] + [ExecutionStatement(3, NodeAt(nodes, 3))] == [e0, e1, e2, e3];
    }
    assert TracesFrom(nodes, edges, 2, 1, [e0, e1], v2) == [[e0, e1, e2, e3]] by {
      OneSuccessorTraces(nodes, edges, 2, 1, [e0, e1], v2, 3);
      assert [e0, e1] + [ExecutionStatement(2, NodeAt(nodes, 2))] == [e0, e1, e2];
      assert v2[3 := Count(v2, 3) + 1] == v3;
    }
    assert TracesFrom(nodes, edges, 1, 1, [e0], v1) == [[e0, e1, e2, e3]] by {
      OneSuccessorTraces(nodes, edges, 1, 1, [e0], v1, 2);
      assert [e0] + [ExecutionStatement(1, NodeAt(nodes, 1))] == [e0, e1];
      assert v1[2 := Count(v1, 2) + 1] == v2;
    }
    OneSuccessorTraces(nodes, edges, 0, 1, [], map[], 1);
    assert [] + [ExecutionStatement(0, NodeAt(nodes, 0))] == [e0];
    assert map[][1 := Count(map[], 1) + 1] == v1;
  }

  /** 0 -> 1 -> {2, 3}: one trace per branch, in edge order. */
  lemma ForkGivesTracePerBranch(nodes: map<StatementId, Statement>, edges: map<StatementId, seq<StatementId>>,
                                s0: Statement, s1: Statement, s2: Statement, s3: Statement)
    requires nodes == map[0 := s0, 1 := s1, 2 := s2, 3 := s3] && edges == map[0 := [1], 1 := [2, 3]]
    ensures TracesFrom(nodes, edges, 0, 1, [], map[])
      == [[ExecutionStatement(0, s0), ExecutionStatement(1, s1), ExecutionStatement(2, s2)],
          [ExecutionStatement(0, s0), ExecutionStatement(1, s1), ExecutionStatement(3, s3)]]
  {
    var e0, e1, e2, e3 := ExecutionStatement(0, s0), ExecutionStatement(1, s1), ExecutionStatement(2, s2), ExecutionStatement(3, s3);
    var v1: Counts := map[1 := 1];
    assert TracesFrom(nodes, edges, 2, 1, [e0, e1], v1[2 := 1]) == [[e0, e1, e2]] by {
      LeafTrace(nodes, edges, 2, 1, [e0, e1], v1[2 := 1]);
      assert [e0, e1] + [ExecutionStatement(2, NodeAt(nodes, 2))] == [e0, e1, e2];
    }
    assert TracesFrom(nodes, edges, 3, 1, [e0, e1], v1[3 := 1]) == [[e0, e1, e3]] by {
      LeafTrace(nodes, edges, 3, 1, [e0, e1], v1[3 := 1]);
      assert [e0, e1] + [ExecutionStatement(3, NodeAt(nodes, 3))] == [e0, e1, e3];
    }
    assert TracesFrom(nodes, edges, 1, 1, [e0], v1) == [[e0, e1, e2], [e0, e1, e3]] by {
      TwoSuccessorTraces(nodes, edges, 1, 1, [e0], v1, 2, 3);
      assert [e0] + [ExecutionStatement(1, NodeAt(nodes, 1))] == [e0, e1];
      assert v1[2 := Count(v1, 2) + 1] == v1[2 := 1] && v1[3 := Count(v1, 3) + 1] == v1[3 := 1];
    }
    OneSuccessorTraces(nodes, edges, 0, 1, [], map[], 1);
    assert [] + [ExecutionStatement(0, NodeAt(nodes, 0))] == [e0];
    assert map[][1 := Count(map[], 1) + 1] == v1;
  }

  /** 0 -> 1 -> 1 (a self-loop): node 1 is entered once at limit 1 and
      twice at limit 2. */
  lemma SelfLoopRespectsLimit(nodes: map<StatementId, Statement>, edges: map<StatementId, seq<StatementId>>, s0: Statement, s1: Statement)
    requires nodes == map[0 := s0, 1 := s1] && edges == map[0 := [1], 1 := [1]]
    ensures var e0, e1 := ExecutionStatement(0, s0), ExecutionStatement(1, s1);
      TracesFrom(nodes, edges, 0, 1, [], map[]) == [[e0, e1]] &&
      TracesFrom(nodes, edges, 0, 2, [], map[]) == [[e0, e1, e1]]
  {
    SelfLoopAtLimitOne(nodes, edges, s0, s1);
    SelfLoopAtLimitTwo(nodes, edges, s0, s1);
  }

  /** The self-loop at limit 1: node 1 once. */
  lemma SelfLoopAtLimitOne(nodes: map<StatementId, Statement>, edges: map<StatementId, seq<StatementId>>, s0: Statement, s1: Statement)
    requires nodes == map[0 := s0, 1 := s1] && edges == map[0 := [1], 1 := [1]]
    ensures TracesFrom(nodes, edges, 0, 1, [], map[]) == [[ExecutionStatement(0, s0), ExecutionStatement(1, s1)]]
  {
    var e0, e1 := ExecutionStatement(0, s0), ExecutionStatement(1, s1);
    var v1: Counts := map[1 := 1];
    assert [] + [ExecutionStatement(0, NodeAt(nodes, 0))] == [e0];
    assert map[][1 := Count(map[], 1) + 1] == v1;
    assert TracesFrom(nodes, edges, 1, 1, [e0], v1) == [[e0, e1]] by {
      OneSuccessorTraces(nodes, edges, 1, 1, [e0], v1, 1);
      assert [e0] + [ExecutionStatement(1, NodeAt(nodes, 1))] == [e0, e1];
    }
    OneSuccessorTraces(nodes, edges, 0, 1, [], map[], 1);
  }

  /** The self-loop at limit 2: node 1 twice. */
  lemma SelfLoopAtLimitTwo(nodes: map<StatementId, Statement>, edges: map<StatementId, seq<StatementId>>, s0: Statement, s1: Statement)
    requires nodes == map[0 := s0, 1 := s1] && edges == map[0 := [1], 1 := [1]]
    ensures var e0, e1 := ExecutionStatement(0, s0), ExecutionStatement(1, s1);
      TracesFrom(nodes, edges, 0, 2, [], map[]) == [[e0, e1, e1]]
  {
    var e0, e1 := ExecutionStatement(0, s0), ExecutionStatement(1, s1);
    var v1: Counts := map[1 := 1];
    var v2: Counts := map[1 := 2];
    assert [] + [ExecutionStatement(0, NodeAt(nodes, 0))] == [e0];
    assert map[][1 := Count(map[], 1) + 1] == v1;
    assert TracesFrom(nodes, edges, 1, 2, [e0, e1], v2) == [[e0, e1, e1]] by {
      OneSuccessorTraces(nodes, edges, 1, 2, [e0, e1], v2, 1);
      assert [e0, e1] + [ExecutionStatement(1, NodeAt(nodes, 1))] == [e0, e1, e1];
    }
    assert TracesFrom(nodes, edges, 1, 2, [e0], v1) == [[e0, e1, e1]] by {
      OneSuccessorTraces(nodes, edges, 1, 2, [e0], v1, 1);
      assert [e0] + [ExecutionStatement(1, NodeAt(nodes, 1))] == [e0, e1];
      assert v1[1 := Count(v1, 1) + 1] == v2;
    }
    OneSuccessorTraces(nodes, edges, 0, 2, [], map[], 1);
  }

  /** a=new(); a=next(a); a=new(); a=next(a): a fresh origin starts a new lineage. */
  lemma FreshOriginIsNotStale()
    ensures TraceErrors(ExecutionContext(map[]), [
        ExecutionStatement(0, AssignmentStatement(2, 0, SameGen)),
        ExecutionStatement(1, AssignmentStatement(2, 2, NextGen)),
        ExecutionStatement(2, AssignmentStatement(2, 1, SameGen)),
        ExecutionStatement(3, AssignmentStatement(2, 2, NextGen))]) == Ok([])
  {
    var trace := [
        ExecutionStatement(0, AssignmentStatement(2, 0, SameGen)),
        ExecutionStatement(1, AssignmentStatement(2, 2, NextGen)),
        ExecutionStatement(2, AssignmentStatement(2, 1, SameGen)),
        ExecutionStatement(3, AssignmentStatement(2, 2, NextGen))];
    var ctx := ExecutionContext(map[]);
    assert Run(ctx, trace, 1) == Ok((Lineage(map[0 := 0], map[2 := VariableGen(0, 0)]), []));
    assert Run(ctx, trace, 2).Ok?;
    var (l2, errs2) := Run(ctx, trace, 2).value;
    assert l2.originLatestGen[0] == 1 && l2.variableGen[2] == VariableGen(0, 1) && errs2 == [];
    var (l3, errs3) := Run(ctx, trace, 3).value;
    assert 1 !in l2.variableGen && 1 !in l2.originLatestGen;
    assert l3.originLatestGen[1] == 0 && l3.variableGen[2] == VariableGen(1, 0) && errs3 == [];
  }

  /** a=new(); b=a; a=next(a); b=new(); b=next(b): reassigning b detaches it from a. */
  lemma ReassignedAliasIsNotStale()
    ensures TraceErrors(ExecutionContext(map[]), [
        ExecutionStatement(0, AssignmentStatement(2, 0, SameGen)),
        ExecutionStatement(1, AssignmentStatement(3, 2, SameGen)),
        ExecutionStatement(2, AssignmentStatement(2, 2, NextGen)),
        ExecutionStatement(3, AssignmentStatement(3, 1, SameGen)),
        ExecutionStatement(3, AssignmentStatement(3, 3, NextGen))]) == Ok([])
  {
    var trace := [
        ExecutionStatement(0, AssignmentStatement(2, 0, SameGen)),
        ExecutionStatement(1, AssignmentStatement(3, 2, SameGen)),
        ExecutionStatement(2, AssignmentStatement(2, 2, NextGen)),
        ExecutionStatement(3, AssignmentStatement(3, 1, SameGen)),
        ExecutionStatement(3, AssignmentStatement(3, 3, NextGen))];
    var ctx := ExecutionContext(map[]);
    assert Run(ctx, trace, 1) == Ok((Lineage(map[0 := 0], map[2 := VariableGen(0, 0)]), []));
    assert Run(ctx, trace, 2).Ok?;
    var (l2, errs2) := Run(ctx, trace, 2).value;
    assert l2.originLatestGen == map[0 := 0] && l2.variableGen[3] == VariableGen(0, 0) && errs2 == [];
    var (l3, errs3) := Run(ctx, trace, 3).value;
    assert l3.originLatestGen[0] == 1 && 1 !in l3.originLatestGen && 1 !in l3.variableGen && errs3 == [];
    var (l4, errs4) := Run(ctx, trace, 4).value;
    assert l4.originLatestGen[1] == 0 && l4.variableGen[3] == VariableGen(1, 0) && errs4 == [];
  }

  /** The prefix a=new(); b=a; a=next(a) shared by the use-statement tests. */
  lemma AliasThenNextGen(ctx: ExecutionContext, trace: ExecutionTrace)
    requires |trace| >= 3
    requires trace[0] == ExecutionStatement(0, AssignmentStatement(1, 0, SameGen))
    requires trace[1] == ExecutionStatement(1, AssignmentStatement(2, 1, SameGen))
    requires trace[2] == ExecutionStatement(2, AssignmentStatement(1, 1, NextGen))
    ensures Run(ctx, trace, 3).Ok?
    ensures var (l, errs) := Run(ctx, trace, 3).value;
      l.originLatestGen == map[0 := 1] && 1 in l.variableGen && 2 in l.variableGen && l.variableGen[1] == VariableGen(0, 1) && l.variableGen[2] == VariableGen(0, 0) && errs == []
  {
    assert Run(ctx, trace, 1) == Ok((Lineage(map[0 := 0], map[1 := VariableGen(0, 0)]), []));
    assert Run(ctx, trace, 2).Ok?;
    var (l2, errs2) := Run(ctx, trace, 2).value;
    assert l2.originLatestGen == map[0 := 0] && l2.variableGen[1] == VariableGen(0, 0) && l2.variableGen[2] == VariableGen(0, 0);
  }

  /** Using the grown alias a after a=next(a) is fine; using the stale b is an error. */
  lemma UseOfStaleAliasIsReported()
    ensures var ctx := ExecutionContext(map[3 := [0]]);
      var prefix := [
        ExecutionStatement(0, AssignmentStatement(1, 0, SameGen)),
        ExecutionStatement(1, AssignmentStatement(2, 1, SameGen)),
        ExecutionStatement(2, AssignmentStatement(1, 1, NextGen))];
      var grown := prefix + [ExecutionStatement(3, UseStatement([1]))];
      var stale := prefix + [ExecutionStatement(3, UseStatement([2]))];
      TraceErrors(ctx, grown) == Ok([]) && TraceErrors(ctx, stale) == Ok([ExecutionError(stale, 3, 0, 2)])
  {
    var ctx := ExecutionContext(map[3 := [0]]);
    var prefix := [
        ExecutionStatement(0, AssignmentStatement(1, 0, SameGen)),
        ExecutionStatement(1, AssignmentStatement(2, 1, SameGen)),
        ExecutionStatement(2, AssignmentStatement(1, 1, NextGen))];
    var grown := prefix + [ExecutionStatement(3, UseStatement([1]))];
    var stale := prefix + [ExecutionStatement(3, UseStatement([2]))];
    AliasThenNextGen(ctx, grown);
    AliasThenNextGen(ctx, stale);
  }

  /** a=new(); b=prev(a); call(b): a value behind its origin's latest generation is stale. */
  lemma UseOfPreviousGenerationIsReported()
    ensures var trace := [
        ExecutionStatement(0, AssignmentStatement(1, 0, SameGen)),
        ExecutionStatement(1, AssignmentStatement(2, 1, PrevGen)),
        ExecutionStatement(2, UseStatement([2]))];
      TraceErrors(ExecutionContext(map[2 := [0]]), trace) == Ok([ExecutionError(trace, 2, 0, 2)])
  {
    var trace := [
        ExecutionStatement(0, AssignmentStatement(1, 0, SameGen)),
        ExecutionStatement(1, AssignmentStatement(2, 1, PrevGen)),
        ExecutionStatement(2, UseStatement([2]))];
    var ctx := ExecutionContext(map[2 := [0]]);
    assert Run(ctx, trace, 1) == Ok((Lineage(map[0 := 0], map[1 := VariableGen(0, 0)]), []));
    assert Run(ctx, trace, 2).Ok?;
    var (l2, errs2) := Run(ctx, trace, 2).value;
    assert l2.originLatestGen == map[0 := 0] && l2.variableGen[2] == VariableGen(0, -1) && errs2 == [];
  }

  /** 0 -> 1 -> 2 -> {3, 4}: the chain, then one trace per branch of the fork. */
  lemma ForkAfterChainTraces(nodes: map<StatementId, Statement>, edges: map<StatementId, seq<StatementId>>,
                             s0: Statement, s1: Statement, s2: Statement, s3: Statement, s4: Statement)
    requires nodes == map[0 := s0, 1 := s1, 2 := s2, 3 := s3, 4 := s4] && edges == map[0 := [1], 1 := [2], 2 := [3, 4]]
    ensures var e0, e1, e2 := ExecutionStatement(0, s0), ExecutionStatement(1, s1), ExecutionStatement(2, s2);
      TracesFrom(nodes, edges, 0, 1, [], map[])
      == [[e0, e1, e2, ExecutionStatement(3, s3)], [e0, e1, e2, ExecutionStatement(4, s4)]]
  {
    var e0, e1, e2, e3, e4 := ExecutionStatement(0, s0), ExecutionStatement(1, s1), ExecutionStatement(2, s2),
      ExecutionStatement(3, s3), ExecutionStatement(4, s4);
    var v1: Counts := map[1 := 1];
    assert TracesFrom(nodes, edges, 1, 1, [e0], v1) == [[e0, e1, e2, e3], [e0, e1, e2, e4]] by {
      ForkAfterChainAtFork(nodes, edges, s0, s1, s2, s3, s4);
      OneSuccessorTraces(nodes, edges, 1, 1, [e0], v1, 2);
      assert [e0] + [ExecutionStatement(1, NodeAt(nodes, 1))] == [e0, e1];
      assert v1[2 := Count(v1, 2) + 1] == map[1 := 1, 2 := 1];
    }
    OneSuccessorTraces(nodes, edges, 0, 1, [], map[], 1);
    assert [] + [ExecutionStatement(0, NodeAt(nodes, 0))] == [e0];
    assert map[][1 := Count(map[], 1) + 1] == v1;
  }

  /** The same graph from node 2 on: one trace per branch of the fork. */
  lemma ForkAfterChainAtFork(nodes: map<StatementId, Statement>, edges: map<StatementId, seq<StatementId>>,
                             s0: Statement, s1: Statement, s2: Statement, s3: Statement, s4: Statement)
    requires nodes == map[0 := s0, 1 := s1, 2 := s2, 3 := s3, 4 := s4] && edges == map[0 := [1], 1 := [2], 2 := [3, 4]]
    ensures var e0, e1, e2 := ExecutionStatement(0, s0), ExecutionStatement(1, s1), ExecutionStatement(2, s2);
      TracesFrom(nodes, edges, 2, 1, [e0, e1], map[1 := 1, 2 := 1])
      == [[e0, e1, e2, ExecutionStatement(3, s3)], [e0, e1, e2, ExecutionStatement(4, s4)]]
  {
    var e0, e1, e2, e3, e4 := ExecutionStatement(0, s0), ExecutionStatement(1, s1), ExecutionStatement(2, s2),
      ExecutionStatement(3, s3), ExecutionStatement(4, s4);
    var v2: Counts := map[1 := 1, 2 := 1];
    assert TracesFrom(nodes, edges, 3, 1, [e0, e1, e2], v2[3 := 1]) == [[e0, e1, e2, e3]] by {
      LeafTrace(nodes, edges, 3, 1, [e0, e1, e2], v2[3 := 1]);
      assert [e0, e1, e2] + [ExecutionStatement(3, NodeAt(nodes, 3))] == [e0, e1, e2, e3];
    }
    assert TracesFrom(nodes, edges, 4, 1, [e0, e1, e2], v2[4 := 1]) == [[e0, e1, e2, e4]] by {
      LeafTrace(nodes, edges, 4, 1, [e0, e1, e2], v2[4 := 1]);
      assert [e0, e1, e2] + [ExecutionStatement(4, NodeAt(nodes, 4))] == [e0, e1, e2, e4];
    }
    TwoSuccessorTraces(nodes, edges, 2, 1, [e0, e1], v2, 3, 4);
    assert [e0, e1] + [ExecutionStatement(2, NodeAt(nodes, 2))] == [e0, e1, e2];
    assert v2[3 := Count(v2, 3) + 1] == v2[3 := 1] && v2[4 := Count(v2, 4) + 1] == v2[4 := 1];
  }

  /** After a=new(); b=a; a=next(a): c=b is fine, c=next(b) grows a stale alias. */
  lemma ForkBranchErrors()
    ensures var prefix := [
        ExecutionStatement(0, AssignmentStatement(1, 0, SameGen)),
        ExecutionStatement(1, AssignmentStatement(2, 1, SameGen)),
        ExecutionStatement(2, AssignmentStatement(1, 1, NextGen))];
      var copy := prefix + [ExecutionStatement(3, AssignmentStatement(3, 2, SameGen))];
      var grow := prefix + [ExecutionStatement(4, AssignmentStatement(3, 2, NextGen))];
      TraceErrors(ExecutionContext(map[]), copy) == Ok([]) &&
      TraceErrors(ExecutionContext(map[]), grow) == Ok([ExecutionError(grow, 4, 0, 2)])
  {
    var ctx := ExecutionContext(map[]);
    var prefix := [
        ExecutionStatement(0, AssignmentStatement(1, 0, SameGen)),
        ExecutionStatement(1, AssignmentStatement(2, 1, SameGen)),
        ExecutionStatement(2, AssignmentStatement(1, 1, NextGen))];
    var copy := prefix + [ExecutionStatement(3, AssignmentStatement(3, 2, SameGen))];
    var grow := prefix + [ExecutionStatement(4, AssignmentStatement(3, 2, NextGen))];
    AliasThenNextGen(ctx, copy);
    AliasThenNextGen(ctx, grow);
  }

  /** The fork after a=next(a) at limit 1: of its two traces, only the one
      through c=next(b) is reported, at node 4, for origin 0 and variable 2. */
  lemma ForkAfterNextGenReportsOne(nodes: map<StatementId, Statement>, edges: map<StatementId, seq<StatementId>>)
    requires nodes == map[0 := AssignmentStatement(1, 0, SameGen), 1 := AssignmentStatement(2, 1, SameGen),
                          2 := AssignmentStatement(1, 1, NextGen), 3 := AssignmentStatement(3, 2, SameGen),
                          4 := AssignmentStatement(3, 2, NextGen)]
    requires edges == map[0 := [1], 1 := [2], 2 := [3, 4]]
    ensures AllTraceErrors(ExecutionContext(map[]), TracesFrom(nodes, edges, 0, 1, [], map[]))
      == Ok([ExecutionError(ForkStaleTrace, 4, 0, 2)])
  {
    var s0, s1, s2 := AssignmentStatement(1, 0, SameGen), AssignmentStatement(2, 1, SameGen), AssignmentStatement(1, 1, NextGen);
    var s3, s4 := AssignmentStatement(3, 2, SameGen), AssignmentStatement(3, 2, NextGen);
    var prefix := [ExecutionStatement(0, s0), ExecutionStatement(1, s1), ExecutionStatement(2, s2)];
    var copy := prefix + [ExecutionStatement(3, s3)];
    var grow := prefix + [ExecutionStatement(4, s4)];
    assert copy == [ExecutionStatement(0, s0), ExecutionStatement(1, s1), ExecutionStatement(2, s2), ExecutionStatement(3, s3)];
    assert grow == [ExecutionStatement(0, s0), ExecutionStatement(1, s1), ExecutionStatement(2, s2), ExecutionStatement(4, s4)];
    assert grow == ForkStaleTrace;
    ForkAfterChainTraces(nodes, edges, s0, s1, s2, s3, s4);
    assert TracesFrom(nodes, edges, 0, 1, [], map[]) == [copy, grow];
    ForkBranchErrors();
    TwoTraceErrors(ExecutionContext(map[]), copy, grow);
    assert [] + [ExecutionError(grow, 4, 0, 2)] == [ExecutionError(ForkStaleTrace, 4, 0, 2)];
  }

  /** Two traces that both validate: their errors, first then second. */
  lemma TwoTraceErrors(ctx: ExecutionContext, a: ExecutionTrace, b: ExecutionTrace)
    requires TraceErrors(ctx, a).Ok? && TraceErrors(ctx, b).Ok?
    ensures AllTraceErrors(ctx, [a, b]) == Ok(TraceErrors(ctx, a).value + TraceErrors(ctx, b).value)
  {
    assert [a, b][..1] == [a] && [a][..0] == [];
    assert AllTraceErrors(ctx, [a]) == Ok([] + TraceErrors(ctx, a).value);
    assert [] + TraceErrors(ctx, a).value == TraceErrors(ctx, a).value;
  }

  /** One trace that validates: its errors are the validation's. */
  lemma OneTraceErrors(ctx: ExecutionContext, t: ExecutionTrace)
    ensures AllTraceErrors(ctx, [t]) == TraceErrors(ctx, t)
  {
    assert [t][..0] == [];
    if TraceErrors(ctx, t).Ok? {
      assert [] + TraceErrors(ctx, t).value == TraceErrors(ctx, t).value;
    }
  }

  /** a=new(); loop[a=next(a)] at limit 2: the one trace enters the loop
      twice, and each NextGen moves past the latest generation, so nothing
      is reported. */
  lemma SelfLoopNextGenIsNotStale(nodes: map<StatementId, Statement>, edges: map<StatementId, seq<StatementId>>)
    requires nodes == map[0 := AssignmentStatement(1, 0, SameGen), 1 := AssignmentStatement(1, 1, NextGen)]
    requires edges == map[0 := [1], 1 := [1]]
    ensures AllTraceErrors(ExecutionContext(map[]), TracesFrom(nodes, edges, 0, 2, [], map[])) == Ok([])
  {
    var s0, s1 := AssignmentStatement(1, 0, SameGen), AssignmentStatement(1, 1, NextGen);
    var trace := [ExecutionStatement(0, s0), ExecutionStatement(1, s1), ExecutionStatement(1, s1)];
    SelfLoopAtLimitTwo(nodes, edges, s0, s1);
    var ctx := ExecutionContext(map[]);
    assert Run(ctx, trace, 1) == Ok((Lineage(map[0 := 0], map[1 := VariableGen(0, 0)]), []));
    assert Run(ctx, trace, 2).Ok?;
    var (l2, errs2) := Run(ctx, trace, 2).value;
    assert l2.originLatestGen[0] == 1 && l2.variableGen[1] == VariableGen(0, 1) && errs2 == [];
    assert Run(ctx, trace, 3).Ok?;
    var (l3, errs3) := Run(ctx, trace, 3).value;
    assert errs3 == [];
    OneTraceErrors(ctx, trace);
  }

  /** 0 -> 1 -> 2 -> 1 at limit 2: the one trace goes round the loop twice
      and stops when node 1 is at its limit. */
  lemma TwoNodeLoopTraces(nodes: map<StatementId, Statement>, edges: map<StatementId, seq<StatementId>>,
                          s0: Statement, s1: Statement, s2: Statement)
    requires nodes == map[0 := s0, 1 := s1, 2 := s2] && edges == map[0 := [1], 1 := [2], 2 := [1]]
    ensures var e0, e1, e2 := ExecutionStatement(0, s0), ExecutionStatement(1, s1), ExecutionStatement(2, s2);
      TracesFrom(nodes, edges, 0, 2, [], map[]) == [[e0, e1, e2, e1, e2]]
  {
    var e0, e1, e2 := ExecutionStatement(0, s0), ExecutionStatement(1, s1), ExecutionStatement(2, s2);
    var v1: Counts := map[1 := 1];
    var v2: Counts := map[1 := 1, 2 := 1];
    assert TracesFrom(nodes, edges, 2, 2, [e0, e1], v2) == [[e0, e1, e2, e1, e2]] by {
      TwoNodeLoopSecondRound(nodes, edges, s0, s1, s2);
      OneSuccessorTraces(nodes, edges, 2, 2, [e0, e1], v2, 1);
      assert [e0, e1] + [ExecutionStatement(2, NodeAt(nodes, 2))] == [e0, e1, e2];
      assert v2[1 := Count(v2, 1) + 1] == map[1 := 2, 2 := 1];
    }
    assert TracesFrom(nodes, edges, 1, 2, [e0], v1) == [[e0, e1, e2, e1, e2]] by {
      OneSuccessorTraces(nodes, edges, 1, 2, [e0], v1, 2);
      assert [e0] + [ExecutionStatement(1, NodeAt(nodes, 1))] == [e0, e1];
      assert v1[2 := Count(v1, 2) + 1] == v2;
    }
    OneSuccessorTraces(nodes, edges, 0, 2, [], map[], 1);
    assert [] + [ExecutionStatement(0, NodeAt(nodes, 0))] == [e0];
    assert map[][1 := Count(map[], 1) + 1] == v1;
  }

  /** The same loop from its second entry into node 1. */
  lemma TwoNodeLoopSecondRound(nodes: map<StatementId, Statement>, edges: map<StatementId, seq<StatementId>>,
                               s0: Statement, s1: Statement, s2: Statement)
    requires nodes == map[0 := s0, 1 := s1, 2 := s2] && edges == map[0 := [1], 1 := [2], 2 := [1]]
    ensures var e0, e1, e2 := ExecutionStatement(0, s0), ExecutionStatement(1, s1), ExecutionStatement(2, s2);
      TracesFrom(nodes, edges, 1, 2, [e0, e1, e2], map[1 := 2, 2 := 1]) == [[e0, e1, e2, e1, e2]]
  {
    var e0, e1, e2 := ExecutionStatement(0, s0), ExecutionStatement(1, s1), ExecutionStatement(2, s2);
    var v3: Counts := map[1 := 2, 2 := 1];
    var v4: Counts := map[1 := 2, 2 := 2];
    assert TracesFrom(nodes, edges, 2, 2, [e0, e1, e2, e1], v4) == [[e0, e1, e2, e1, e2]] by {
      OneSuccessorTraces(nodes, edges, 2, 2, [e0, e1, e2, e1], v4, 1);
      assert [e0, e1, e2, e1] + [ExecutionStatement(2, NodeAt(nodes, 2))] == [e0, e1, e2, e1, e2];
    }
    OneSuccessorTraces(nodes, edges, 1, 2, [e0, e1, e2], v3, 2);
    assert [e0, e1, e2] + [ExecutionStatement(1, NodeAt(nodes, 1))] == [e0, e1, e2, e1];
    assert v3[2 := Count(v3, 2) + 1] == v4;
  }

  /** a=new(); loop[c=next(a); a=c] at limit 2: each round grows the newest
      value, so nothing is reported. */
  lemma TwoNodeLoopIsNotStale(nodes: map<StatementId, Statement>, edges: map<StatementId, seq<StatementId>>)
    requires nodes == map[0 := AssignmentStatement(0, 1, SameGen), 1 := AssignmentStatement(2, 0, NextGen),
                          2 := AssignmentStatement(0, 2, SameGen)]
    requires edges == map[0 := [1], 1 := [2], 2 := [1]]
    ensures AllTraceErrors(ExecutionContext(map[]), TracesFrom(nodes, edges, 0, 2, [], map[])) == Ok([])
  {
    var s0, s1, s2 := AssignmentStatement(0, 1, SameGen), AssignmentStatement(2, 0, NextGen), AssignmentStatement(0, 2, SameGen);
    var e0, e1, e2 := ExecutionStatement(0, s0), ExecutionStatement(1, s1), ExecutionStatement(2, s2);
    var trace := [e0, e1, e2, e1, e2];
    TwoNodeLoopTraces(nodes, edges, s0, s1, s2);
    var ctx := ExecutionContext(map[]);
    assert Run(ctx, trace, 1) == Ok((Lineage(map[1 := 0], map[0 := VariableGen(1, 0)]), []));
    assert Run(ctx, trace, 2).Ok?;
    var (l2, errs2) := Run(ctx, trace, 2).value;
    assert l2.originLatestGen[1] == 1 && l2.variableGen[2] == VariableGen(1, 1) && errs2 == [];
    assert Run(ctx, trace, 3).Ok?;
    var (l3, errs3) := Run(ctx, trace, 3).value;
    assert l3.originLatestGen[1] == 1 && l3.variableGen[0] == VariableGen(1, 1) && errs3 == [];
    assert Run(ctx, trace, 4).Ok?;
    var (l4, errs4) := Run(ctx, trace, 4).value;
    assert l4.originLatestGen[1] == 2 && l4.variableGen[2] == VariableGen(1, 2) && errs4 == [];
    assert Run(ctx, trace, 5).Ok?;
    var (l5, errs5) := Run(ctx, trace, 5).value;
    assert errs5 == [];
    OneTraceErrors(ctx, trace);
  }

  /** The trace of the fork that ends in c=next(b). */
  const ForkStaleTrace: ExecutionTrace := [
    ExecutionStatement(0, AssignmentStatement(1, 0, SameGen)),
    ExecutionStatement(1, AssignmentStatement(2, 1, SameGen)),
    ExecutionStatement(2, AssignmentStatement(1, 1, NextGen)),
    ExecutionStatement(4, AssignmentStatement(3, 2, NextGen))]

  /** The test's graph, built node by node and edge by edge, then validated. */
  method ValidateForkAfterNextGen() returns (r: Result<seq<ExecutionError>>)
    ensures r == Ok([ExecutionError(ForkStaleTrace, 4, 0, 2)])
  {
    var graph := new ExecutionGraph();
    var n0 := graph.NewNode(AssignmentStatement(1, 0, SameGen));
    var n1 := graph.NewNode(AssignmentStatement(2, 1, SameGen));
    var n2 := graph.NewNode(AssignmentStatement(1, 1, NextGen));
    var n3 := graph.NewNode(AssignmentStatement(3, 2, SameGen));
    var n4 := graph.NewNode(AssignmentStatement(3, 2, NextGen));
    assert n0 == 0 && n1 == 1 && n2 == 2 && n3 == 3 && n4 == 4;
    assert Successors(graph.edges, n0) + [n1] == [1];
    graph.AddEdge(n0, n1);
    assert graph.edges == map[0 := [1]];
    assert Successors(graph.edges, n1) + [n2] == [2];
    graph.AddEdge(n1, n2);
    assert graph.edges == map[0 := [1], 1 := [2]];
    assert Successors(graph.edges, n2) + [n3] == [3];
    graph.AddEdge(n2, n3);
    assert graph.edges == map[0 := [1], 1 := [2], 2 := [3]];
    assert Successors(graph.edges, n2) + [n4] == [3, 4];
    graph.AddEdge(n2, n4);
    ForkAfterNextGenReportsOne(graph.nodes, graph.edges);
    r := ValidateGraph(ExecutionContext(map[]), graph, 0, 1);
  }
}
