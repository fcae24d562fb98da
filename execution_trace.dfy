/** The bug oracle of the newer snapshot (execution_trace.go): bounded
    enumeration of the paths through an execution graph, a generation-lineage
    check along each path, and one warning per point. */
module Traces {
  import opened Wrappers
  import opened Visits
  import opened ExecutionOps
  import opened ExecutionModel
  import ExecutionGraph

  type ExecutionTrace = seq<ExecutionTransition>

  /** Every point some transition leads to: the points whose counters the
      walk raises. */
  function Targets(transitions: map<ExecutionPoint, seq<ExecutionTransition>>): set<ExecutionPoint>
  {
    set p, i | p in transitions && 0 <= i < |transitions[p]| :: transitions[p][i].toPoint
  }

  // ---------------------------------------------------------------------------
  // Trace enumeration, as a specification

  /** Whether one of the first n transitions leaving `root` can be taken. */
  predicate EnterableBefore(transitions: map<ExecutionPoint, seq<ExecutionTransition>>, root: ExecutionPoint,
                            limit: int, visits: Counts, n: nat)
    requires n <= |TransitionsOf(transitions, root)|
  {
    exists j :: 0 <= j < n && Count(visits, TransitionsOf(transitions, root)[j].toPoint) < limit
  }

  predicate CanContinue(transitions: map<ExecutionPoint, seq<ExecutionTransition>>, root: ExecutionPoint, limit: int, visits: Counts)
  {
    EnterableBefore(transitions, root, limit, visits, |TransitionsOf(transitions, root)|)
  }

  /** The traces the walk from `root` records, in order, given the
      transitions taken so far and the visit counters. */
  function TracesFrom(transitions: map<ExecutionPoint, seq<ExecutionTransition>>, root: ExecutionPoint,
                      limit: int, current: ExecutionTrace, visits: Counts): seq<ExecutionTrace>
    requires NonNegative(visits)
    decreases Slots(visits, Targets(transitions), limit), 1, 0
  {
    TracesVia(transitions, root, limit, current, visits, 0)
      + (if CanContinue(transitions, root, limit, visits) then [] else [current])
  }

  /** The traces through the transitions of `root` from the i-th on. */
  function TracesVia(transitions: map<ExecutionPoint, seq<ExecutionTransition>>, root: ExecutionPoint,
                     limit: int, current: ExecutionTrace, visits: Counts, i: nat): seq<ExecutionTrace>
    requires NonNegative(visits)
    requires i <= |TransitionsOf(transitions, root)|
    decreases Slots(visits, Targets(transitions), limit), 0, |TransitionsOf(transitions, root)| - i
  {
    if i == |TransitionsOf(transitions, root)| then []
    else
      var t := TransitionsOf(transitions, root)[i];
      if Count(visits, t.toPoint) >= limit then TracesVia(transitions, root, limit, current, visits, i + 1)
      else
        assert root in transitions && transitions[root][i] == t;
        SlotsShrink(visits, Targets(transitions), limit, t.toPoint);
        TracesFrom(transitions, t.toPoint, limit, current + [t], visits[t.toPoint := Count(visits, t.toPoint) + 1])
          + TracesVia(transitions, root, limit, current, visits, i + 1)
  }

  /** Taking the i-th transition of `root` spends one slot. */
  lemma EnterShrinks(transitions: map<ExecutionPoint, seq<ExecutionTransition>>, root: ExecutionPoint, limit: int,
                     visits: Counts, i: nat)
    requires NonNegative(visits)
    requires i < |TransitionsOf(transitions, root)| && Count(visits, TransitionsOf(transitions, root)[i].toPoint) < limit
    ensures var next := TransitionsOf(transitions, root)[i].toPoint;
      var entry := visits[next := Count(visits, next) + 1];
      NonNegative(entry) && Slots(entry, Targets(transitions), limit) < Slots(visits, Targets(transitions), limit)
  {
    var t := TransitionsOf(transitions, root)[i];
    assert root in transitions && transitions[root][i] == t;
    SlotsShrink(visits, Targets(transitions), limit, t.toPoint);
  }

  /** One step of TracesVia: a transition whose target is at its limit is
      skipped, any other is taken with the target's counter raised. */
  lemma TracesViaUnfold(transitions: map<ExecutionPoint, seq<ExecutionTransition>>, root: ExecutionPoint,
                        limit: int, current: ExecutionTrace, visits: Counts, i: nat)
    requires NonNegative(visits)
    requires i < |TransitionsOf(transitions, root)|
    ensures EnterableBefore(transitions, root, limit, visits, i + 1)
        <==> EnterableBefore(transitions, root, limit, visits, i) || Count(visits, TransitionsOf(transitions, root)[i].toPoint) < limit
    ensures var t := TransitionsOf(transitions, root)[i];
      Count(visits, t.toPoint) >= limit ==>
        TracesVia(transitions, root, limit, current, visits, i) == TracesVia(transitions, root, limit, current, visits, i + 1)
    ensures var t := TransitionsOf(transitions, root)[i];
      var entry := visits[t.toPoint := Count(visits, t.toPoint) + 1];
      Count(visits, t.toPoint) < limit ==>
        TracesVia(transitions, root, limit, current, visits, i)
          == TracesFrom(transitions, t.toPoint, limit, current + [t], entry) + TracesVia(transitions, root, limit, current, visits, i + 1)
  {
    var t := TransitionsOf(transitions, root)[i];
    if Count(visits, t.toPoint) < limit {
      assert EnterableBefore(transitions, root, limit, visits, i + 1);
      EnterShrinks(transitions, root, limit, visits, i);
    }
  }

  /** The loop of the walk keeps its invariants over one transition. */
  lemma WalkStep(transitions: map<ExecutionPoint, seq<ExecutionTransition>>, root: ExecutionPoint,
                 limit: int, current: ExecutionTrace, visits: Counts, i: nat, before: seq<ExecutionTrace>, below: seq<ExecutionTrace>)
    requires NonNegative(visits)
    requires i < |TransitionsOf(transitions, root)|
    requires var t := TransitionsOf(transitions, root)[i];
      below == if Count(visits, t.toPoint) < limit
               then TracesFrom(transitions, t.toPoint, limit, current + [t], visits[t.toPoint := Count(visits, t.toPoint) + 1])
               else []
    ensures before + below + TracesVia(transitions, root, limit, current, visits, i + 1)
         == before + TracesVia(transitions, root, limit, current, visits, i)
    ensures EnterableBefore(transitions, root, limit, visits, i + 1)
        <==> EnterableBefore(transitions, root, limit, visits, i) || Count(visits, TransitionsOf(transitions, root)[i].toPoint) < limit
  {
    TracesViaUnfold(transitions, root, limit, current, visits, i);
    var t := TransitionsOf(transitions, root)[i];
    if Count(visits, t.toPoint) < limit {
      var rest := TracesVia(transitions, root, limit, current, visits, i + 1);
      assert before + below + rest == before + (below + rest);
    } else {
      assert before + below == before;
    }
  }

  /** The walk reads the counters only through Go's zero-default lookup. */
  lemma {:induction false} TracesFromCongruent(transitions: map<ExecutionPoint, seq<ExecutionTransition>>,
                                               root: ExecutionPoint, limit: int, current: ExecutionTrace, a: Counts, b: Counts)
    requires NonNegative(a) && NonNegative(b) && SameCounts(a, b)
    ensures TracesFrom(transitions, root, limit, current, a) == TracesFrom(transitions, root, limit, current, b)
    decreases Slots(a, Targets(transitions), limit), 1, 0
  {
    TracesViaCongruent(transitions, root, limit, current, a, b, 0);
  }

  lemma {:induction false} TracesViaCongruent(transitions: map<ExecutionPoint, seq<ExecutionTransition>>,
                                              root: ExecutionPoint, limit: int, current: ExecutionTrace, a: Counts, b: Counts, i: nat)
    requires NonNegative(a) && NonNegative(b) && SameCounts(a, b)
    requires i <= |TransitionsOf(transitions, root)|
    ensures TracesVia(transitions, root, limit, current, a, i) == TracesVia(transitions, root, limit, current, b, i)
    decreases Slots(a, Targets(transitions), limit), 0, |TransitionsOf(transitions, root)| - i
  {
    if i < |TransitionsOf(transitions, root)| {
      var t := TransitionsOf(transitions, root)[i];
      TracesViaCongruent(transitions, root, limit, current, a, b, i + 1);
      TracesViaUnfold(transitions, root, limit, current, a, i);
      TracesViaUnfold(transitions, root, limit, current, b, i);
      assert Count(a, t.toPoint) == Count(b, t.toPoint);
      if Count(a, t.toPoint) < limit {
        EnterShrinks(transitions, root, limit, a, i);
        EnterShrinks(transitions, root, limit, b, i);
        SameCountsUpdate(a, b, t.toPoint, Count(a, t.toPoint) + 1);
        TracesFromCongruent(transitions, t.toPoint, limit, current + [t],
                            a[t.toPoint := Count(a, t.toPoint) + 1], b[t.toPoint := Count(b, t.toPoint) + 1]);
      }
    }
  }

  // ---------------------------------------------------------------------------
  // The walk itself

  /** generateTraces: the visit counters come back restored and the traces
      found below `root` are appended. */
  method generateTraces(transitions: map<ExecutionPoint, seq<ExecutionTransition>>, root: ExecutionPoint, repeatLimit: int,
                        current: ExecutionTrace, visits: Counts, traces: seq<ExecutionTrace>)
    returns (visitsOut: Counts, tracesOut: seq<ExecutionTrace>)
    requires NonNegative(visits)
    ensures NonNegative(visitsOut) && SameCounts(visitsOut, visits)
    ensures tracesOut == traces + TracesFrom(transitions, root, repeatLimit, current, visits)
    decreases Slots(visits, Targets(transitions), repeatLimit), 1
  {
    var outgoing := TransitionsOf(transitions, root);
    var finish := true;
    visitsOut, tracesOut := visits, traces;
    ghost var total := traces + TracesVia(transitions, root, repeatLimit, current, visits, 0);
    for i := 0 to |outgoing|
      invariant NonNegative(visitsOut) && SameCounts(visitsOut, visits)
      invariant tracesOut + TracesVia(transitions, root, repeatLimit, current, visits, i) == total
      invariant finish <==> !EnterableBefore(transitions, root, repeatLimit, visits, i)
    {
      var transition := outgoing[i];
      ghost var before, got := tracesOut, [];
      assert Count(visitsOut, transition.toPoint) == Count(visits, transition.toPoint);
      if Count(visitsOut, transition.toPoint) < repeatLimit {
        var below;
        visitsOut, below := enter(transitions, transition, root, i, repeatLimit, current, visitsOut, visits);
        tracesOut, got := tracesOut + below, below;
        finish := false;
      }
      WalkStep(transitions, root, repeatLimit, current, visits, i, before, got);
    }
    assert tracesOut == total;
    if finish {
      tracesOut := tracesOut + [current];
    }
  }

  /** The body of the walk's loop for one transition whose target is below
      its limit: raise the target's counter, walk from it, lower the counter
      again. */
  method enter(transitions: map<ExecutionPoint, seq<ExecutionTransition>>, transition: ExecutionTransition,
               ghost root: ExecutionPoint, ghost i: nat, repeatLimit: int, current: ExecutionTrace, visits: Counts, ghost base: Counts)
    returns (visitsOut: Counts, below: seq<ExecutionTrace>)
    requires NonNegative(visits) && NonNegative(base) && SameCounts(visits, base)
    requires i < |TransitionsOf(transitions, root)| && TransitionsOf(transitions, root)[i] == transition
    requires Count(visits, transition.toPoint) < repeatLimit
    ensures NonNegative(visitsOut) && SameCounts(visitsOut, base)
    ensures var next := transition.toPoint;
      below == TracesFrom(transitions, next, repeatLimit, current + [transition], base[next := Count(base, next) + 1])
    decreases Slots(base, Targets(transitions), repeatLimit), 0
  {
    var next := transition.toPoint;
    assert root in transitions && transitions[root][i] == transition;
    SameCountsSlots(visits, base, Targets(transitions), repeatLimit);
    SameCountsUpdate(visits, base, next, Count(base, next) + 1);
    SlotsShrink(base, Targets(transitions), repeatLimit, next);
    SlotsShrink(visits, Targets(transitions), repeatLimit, next);
    var entered := visits[next := Count(visits, next) + 1];
    var back;
    back, below := generateTraces(transitions, next, repeatLimit, current + [transition], entered, []);
    SameCountsRestore(visits, back, next);
    visitsOut := back[next := Count(back, next) - 1];
    SameCountsTrans(visitsOut, visits, base);
    TracesFromCongruent(transitions, next, repeatLimit, current + [transition], entered, base[next := Count(base, next) + 1]);
  }

  /** GenerateTraces: every trace from the root point, no point entered more
      than `repeatLimit` times. */
  method GenerateTraces(execution: Execution, repeatLimit: int) returns (traces: seq<ExecutionTrace>)
    ensures traces == TracesFrom(execution.transitions, execution.rootPoint, repeatLimit, [], map[])
  {
    var visits: Counts := map[];
    visits, traces := generateTraces(execution.transitions, execution.rootPoint, repeatLimit, [], visits, []);
  }

  // ---------------------------------------------------------------------------
  // What every enumerated trace looks like

  function Max(a: int, b: int): int
  {
    if a < b then b else a
  }

  /** How many transitions of `path` lead to `p`. */
  function Occurrences(path: ExecutionTrace, p: ExecutionPoint): nat
  {
    if |path| == 0 then 0 else (if path[0].toPoint == p then 1 else 0) + Occurrences(path[1..], p)
  }

  /** Where `path` ends when it starts at `root`. */
  function LastPoint(root: ExecutionPoint, path: ExecutionTrace): ExecutionPoint
  {
    if |path| == 0 then root else path[|path| - 1].toPoint
  }

  /** `path` is connected from `root`: its first transition leaves `root`,
      and each next one leaves the point the previous one leads to. */
  predicate Connected(transitions: map<ExecutionPoint, seq<ExecutionTransition>>, root: ExecutionPoint, path: ExecutionTrace)
  {
    (|path| > 0 ==> path[0] in TransitionsOf(transitions, root))
    && (forall k :: 0 <= k < |path| - 1 ==> path[k + 1] in TransitionsOf(transitions, path[k].toPoint))
  }

  /** A trace recorded by the walk from `root`: it extends `current` by a
      path connected from `root`; no point is entered more often than the
      limit allows on top of the counts in `visits`; and no transition
      leaving its last point could still be taken. */
  ghost predicate WalkTrace(transitions: map<ExecutionPoint, seq<ExecutionTransition>>, limit: int,
                            current: ExecutionTrace, root: ExecutionPoint, visits: Counts, t: ExecutionTrace)
  {
    |t| >= |current| && t[..|current|] == current
    && Connected(transitions, root, t[|current|..])
    && (forall p :: Count(visits, p) + Occurrences(t[|current|..], p) <= Max(limit, Count(visits, p)))
    && (forall s :: s in TransitionsOf(transitions, LastPoint(root, t[|current|..])) ==>
          Count(visits, s.toPoint) + Occurrences(t[|current|..], s.toPoint) >= limit)
  }

  /** A trace found after taking the j-th transition of `root`. */
  ghost predicate EnteredTrace(transitions: map<ExecutionPoint, seq<ExecutionTransition>>, limit: int,
                               current: ExecutionTrace, root: ExecutionPoint, visits: Counts, j: int, t: ExecutionTrace)
  {
    0 <= j < |TransitionsOf(transitions, root)| && Count(visits, TransitionsOf(transitions, root)[j].toPoint) < limit
    && var tr := TransitionsOf(transitions, root)[j];
    WalkTrace(transitions, limit, current + [tr], tr.toPoint, visits[tr.toPoint := Count(visits, tr.toPoint) + 1], t)
  }

  lemma OccurrencesHead(t: ExecutionTrace, a: nat, p: ExecutionPoint)
    requires a < |t|
    ensures Occurrences(t[a..], p) == (if t[a].toPoint == p then 1 else 0) + Occurrences(t[a + 1..], p)
  {
    assert t[a..][1..] == t[a + 1..];
  }

  /** When no transition can be taken, the trace ending at `root` is a trace of the walk. */
  lemma FinishedWalk(transitions: map<ExecutionPoint, seq<ExecutionTransition>>, root: ExecutionPoint,
                     limit: int, current: ExecutionTrace, visits: Counts)
    requires !CanContinue(transitions, root, limit, visits)
    ensures WalkTrace(transitions, limit, current, root, visits, current)
  {
    assert current[|current|..] == [];
    forall s | s in TransitionsOf(transitions, root)
      ensures Count(visits, s.toPoint) >= limit
    {
      var j :| 0 <= j < |TransitionsOf(transitions, root)| && TransitionsOf(transitions, root)[j] == s;
      assert !EnterableBefore(transitions, root, limit, visits, |TransitionsOf(transitions, root)|);
    }
  }

  /** Taking a transition to `next` at position n moves one visit from the
      trace's tail into the counters. */
  lemma EnteredShift(visits: Counts, next: ExecutionPoint, t: ExecutionTrace, n: nat, p: ExecutionPoint)
    requires n < |t| && t[n].toPoint == next
    ensures Count(visits[next := Count(visits, next) + 1], p) + Occurrences(t[n + 1..], p)
         == Count(visits, p) + Occurrences(t[n..], p)
  {
    OccurrencesHead(t, n, p);
  }

  lemma EnteredBound(limit: int, visits: Counts, next: ExecutionPoint, t: ExecutionTrace, n: nat)
    requires n < |t| && t[n].toPoint == next && Count(visits, next) < limit
    requires var entry := visits[next := Count(visits, next) + 1];
      forall p :: Count(entry, p) + Occurrences(t[n + 1..], p) <= Max(limit, Count(entry, p))
    ensures forall p :: Count(visits, p) + Occurrences(t[n..], p) <= Max(limit, Count(visits, p))
  {
    var entry := visits[next := Count(visits, next) + 1];
    forall p ensures Count(visits, p) + Occurrences(t[n..], p) <= Max(limit, Count(visits, p)) {
      EnteredShift(visits, next, t, n, p);
      assert Count(entry, p) + Occurrences(t[n + 1..], p) <= Max(limit, Count(entry, p));
    }
  }

  lemma EnteredExhausted(limit: int, visits: Counts, next: ExecutionPoint, t: ExecutionTrace, n: nat, outgoing: seq<ExecutionTransition>)
    requires n < |t| && t[n].toPoint == next
    requires var entry := visits[next := Count(visits, next) + 1];
      forall s :: s in outgoing ==> Count(entry, s.toPoint) + Occurrences(t[n + 1..], s.toPoint) >= limit
    ensures forall s :: s in outgoing ==> Count(visits, s.toPoint) + Occurrences(t[n..], s.toPoint) >= limit
  {
    forall s | s in outgoing ensures Count(visits, s.toPoint) + Occurrences(t[n..], s.toPoint) >= limit {
      EnteredShift(visits, next, t, n, s.toPoint);
    }
  }

  /** A trace found after taking transition `tr` of `root` is a trace of the walk from `root`. */
  lemma EnteredWalk(transitions: map<ExecutionPoint, seq<ExecutionTransition>>, root: ExecutionPoint,
                    limit: int, current: ExecutionTrace, visits: Counts, tr: ExecutionTransition, t: ExecutionTrace)
    requires NonNegative(visits)
    requires tr in TransitionsOf(transitions, root) && Count(visits, tr.toPoint) < limit
    requires WalkTrace(transitions, limit, current + [tr], tr.toPoint, visits[tr.toPoint := Count(visits, tr.toPoint) + 1], t)
    ensures WalkTrace(transitions, limit, current, root, visits, t)
  {
    var next := tr.toPoint;
    var entry := visits[next := Count(visits, next) + 1];
    var n := |current|;
    assert t[..n] == t[..n + 1][..n] == (current + [tr])[..n] == current;
    assert t[n] == t[..n + 1][n] == tr;
    assert t[n..][1..] == t[n + 1..];
    assert Connected(transitions, root, t[n..]) by {
      forall k | 0 <= k < |t[n..]| - 1 ensures t[n..][k + 1] in TransitionsOf(transitions, t[n..][k].toPoint) {
        if k > 0 {
          assert t[n..][k + 1] == t[n + 1..][k] && t[n..][k] == t[n + 1..][k - 1];
        }
      }
    }
    EnteredBound(limit, visits, next, t, n);
    assert LastPoint(root, t[n..]) == LastPoint(next, t[n + 1..]);
    EnteredExhausted(limit, visits, next, t, n, TransitionsOf(transitions, LastPoint(root, t[n..])));
  }

  lemma {:induction false} TracesFromWalk(transitions: map<ExecutionPoint, seq<ExecutionTransition>>, root: ExecutionPoint,
                                          limit: int, current: ExecutionTrace, visits: Counts)
    requires NonNegative(visits)
    ensures forall t :: t in TracesFrom(transitions, root, limit, current, visits) ==> WalkTrace(transitions, limit, current, root, visits, t)
    decreases Slots(visits, Targets(transitions), limit), 1, 0
  {
    TracesViaWalk(transitions, root, limit, current, visits, 0);
    forall t | t in TracesFrom(transitions, root, limit, current, visits)
      ensures WalkTrace(transitions, limit, current, root, visits, t)
    {
      EnteredOrFinished(transitions, root, limit, current, visits, t);
    }
  }

  /** A trace of the walk from `root` was found after taking one of its
      transitions, or is the trace that stops at `root`. */
  lemma EnteredOrFinished(transitions: map<ExecutionPoint, seq<ExecutionTransition>>, root: ExecutionPoint,
                          limit: int, current: ExecutionTrace, visits: Counts, t: ExecutionTrace)
    requires NonNegative(visits)
    requires t in TracesFrom(transitions, root, limit, current, visits)
    requires t in TracesVia(transitions, root, limit, current, visits, 0) ==>
      exists j :: 0 <= j && EnteredTrace(transitions, limit, current, root, visits, j, t)
    ensures WalkTrace(transitions, limit, current, root, visits, t)
  {
    if t in TracesVia(transitions, root, limit, current, visits, 0) {
      var j :| 0 <= j && EnteredTrace(transitions, limit, current, root, visits, j, t);
      EnteredWalk(transitions, root, limit, current, visits, TransitionsOf(transitions, root)[j], t);
    } else {
      StoppedHere(transitions, root, limit, current, visits, t);
      FinishedWalk(transitions, root, limit, current, visits);
    }
  }

  /** A trace of the walk from `root` not found through a transition is the
      trace that stops at `root`, which the walk records only when no
      transition can be taken. */
  lemma StoppedHere(transitions: map<ExecutionPoint, seq<ExecutionTransition>>, root: ExecutionPoint,
                    limit: int, current: ExecutionTrace, visits: Counts, t: ExecutionTrace)
    requires NonNegative(visits)
    requires t in TracesFrom(transitions, root, limit, current, visits)
    requires t !in TracesVia(transitions, root, limit, current, visits, 0)
    ensures !CanContinue(transitions, root, limit, visits) && t == current
  {
  }

  lemma {:induction false} TracesViaWalk(transitions: map<ExecutionPoint, seq<ExecutionTransition>>, root: ExecutionPoint,
                                         limit: int, current: ExecutionTrace, visits: Counts, i: nat)
    requires NonNegative(visits)
    requires i <= |TransitionsOf(transitions, root)|
    ensures forall t :: t in TracesVia(transitions, root, limit, current, visits, i) ==>
      exists j :: i <= j && EnteredTrace(transitions, limit, current, root, visits, j, t)
    decreases Slots(visits, Targets(transitions), limit), 0, |TransitionsOf(transitions, root)| - i
  {
    if i < |TransitionsOf(transitions, root)| {
      var tr := TransitionsOf(transitions, root)[i];
      TracesViaUnfold(transitions, root, limit, current, visits, i);
      TracesViaWalk(transitions, root, limit, current, visits, i + 1);
      if Count(visits, tr.toPoint) < limit {
        var entry := visits[tr.toPoint := Count(visits, tr.toPoint) + 1];
        EnterShrinks(transitions, root, limit, visits, i);
        TracesFromWalk(transitions, tr.toPoint, limit, current + [tr], entry);
        forall t | t in TracesFrom(transitions, tr.toPoint, limit, current + [tr], entry)
          ensures EnteredTrace(transitions, limit, current, root, visits, i, t)
        {
        }
      }
    }
  }

  /** The traces of GenerateTraces are paths connected from the root point;
      no point is the target of more than `repeatLimit` of their transitions;
      and each ends where every transition leaving its last point leads to a
      point already entered `repeatLimit` times. */
  lemma GeneratedTraces(execution: Execution, limit: int, t: ExecutionTrace)
    requires t in TracesFrom(execution.transitions, execution.rootPoint, limit, [], map[])
    ensures Connected(execution.transitions, execution.rootPoint, t)
    ensures forall p :: Occurrences(t, p) <= Max(limit, 0)
    ensures forall s :: s in TransitionsOf(execution.transitions, LastPoint(execution.rootPoint, t)) ==>
      Occurrences(t, s.toPoint) >= limit
  {
    TracesFromWalk(execution.transitions, execution.rootPoint, limit, [], map[]);
    assert WalkTrace(execution.transitions, limit, [], execution.rootPoint, map[], t);
    assert t[0..] == t;
    forall p ensures Occurrences(t, p) <= Max(limit, 0) {
      assert Count(map[], p) == 0;
    }
    forall s | s in TransitionsOf(execution.transitions, LastPoint(execution.rootPoint, t))
      ensures Occurrences(t, s.toPoint) >= limit
    {
      assert Count(map[], s.toPoint) == 0;
    }
  }

  // ---------------------------------------------------------------------------
  // Generation-lineage validation

  /** A value's lineage: the origin it derives from and its generation. */
  datatype VarGen = VarGen(id: int, gen: int)

  /** A suspicious point: the trace that reaches it and the point itself. */
  datatype ValidationWarning = ValidationWarning(trace: ExecutionTrace, executionPoint: ExecutionPoint)

  /** ValidateTrace's locals: the latest generation reached per origin, the
      lineage of every variable met so far, the next origin id and the
      warnings found. */
  datatype Lineage = Lineage(
    originLatestGen: map<int, int>, variableGen: map<VarId, VarGen>, valueId: int, warnings: seq<ValidationWarning>)

  const EmptyLineage := Lineage(map[], map[], 0, [])

  /** The lineage an assignment gives its target, and the validator after
      reading the source: a blank source is a brand-new origin at generation
      0; an unseen source becomes a new origin itself and the target moves
      from it by `genChange`; a known source's lineage moves by `genChange`. */
  function Candidate(l: Lineage, from: VarId, genChange: ExecutionGraph.GenChangeType): (r: (VarGen, Lineage))
    ensures r.1.originLatestGen == l.originLatestGen && r.1.warnings == l.warnings
    ensures from == BlankVarId ==> r.0 == VarGen(l.valueId, 0) && r.1 == l.(valueId := l.valueId + 1)
    ensures from != BlankVarId && from !in l.variableGen ==>
      r.0 == VarGen(l.valueId, genChange) && r.1.valueId == l.valueId + 1
      && r.1.variableGen == l.variableGen[from := VarGen(l.valueId, 0)]
    ensures from != BlankVarId && from in l.variableGen ==>
      r.0 == VarGen(l.variableGen[from].id, l.variableGen[from].gen + genChange) && r.1 == l
  {
    if from == BlankVarId then (VarGen(l.valueId, 0), l.(valueId := l.valueId + 1))
    else if from in l.variableGen then
      var sourceGen := l.variableGen[from];
      (VarGen(sourceGen.id, sourceGen.gen + genChange), l)
    else
      var sourceGen := VarGen(l.valueId, 0);
      (VarGen(sourceGen.id, sourceGen.gen + genChange),
       l.(variableGen := l.variableGen[from := sourceGen], valueId := l.valueId + 1))
  }

  /** A NextGen step that does not go beyond a generation its origin has
      already reached. */
  predicate Stale(l: Lineage, g: VarGen, genChange: ExecutionGraph.GenChangeType)
  {
    g.id in l.originLatestGen && genChange == ExecutionGraph.NextGen && g.gen <= l.originLatestGen[g.id]
  }

  /** One AssignVarOp of the trace, leading to `toPoint`. */
  function AssignVar(trace: ExecutionTrace, l: Lineage, toPoint: ExecutionPoint,
                     from: VarId, to: VarId, genChange: ExecutionGraph.GenChangeType): Lineage
  {
    if to == BlankVarId then l
    else
      var (g, read) := Candidate(l, from, genChange);
      var latest := read.originLatestGen;
      if Stale(read, g, genChange) then
        read.(variableGen := read.variableGen[to := g], warnings := read.warnings + [ValidationWarning(trace, toPoint)])
      else
        var raised := if g.id !in latest || g.gen > latest[g.id] then latest[g.id := g.gen] else latest;
        read.(originLatestGen := raised, variableGen := read.variableGen[to := g])
  }

  /** One transition of the trace: AssignVarOp moves the lineage, NoOp is
      skipped, anything else is the panic of line 115. */
  function TraceStep(trace: ExecutionTrace, l: Lineage, t: ExecutionTransition): (r: Result<Lineage>)
    ensures t.operation.NoOp? ==> r == Ok(l)
    ensures r.Ok? <==> t.operation.NoOp? || t.operation.AssignVarOp?
  {
    match t.operation
    case AssignVarOp(from, to, genChange) => Ok(AssignVar(trace, l, t.toPoint, from, to, genChange))
    case NoOp => Ok(l)
    case _ => Err("unexpected execution statement type")
  }

  /** The validator after the first k transitions of the trace. */
  function Run(trace: ExecutionTrace, k: nat): Result<Lineage>
    requires k <= |trace|
  {
    if k == 0 then Ok(EmptyLineage)
    else match Run(trace, k - 1)
      case Err(msg) => Err(msg)
      case Ok(l) => TraceStep(trace, l, trace[k - 1])
  }

  function TraceWarnings(trace: ExecutionTrace): Result<seq<ValidationWarning>>
  {
    match Run(trace, |trace|)
    case Err(msg) => Err(msg)
    case Ok(l) => Ok(l.warnings)
  }

  /** ValidateTrace: walks the trace once, keeping both lineage maps. */
  method ValidateTrace(trace: ExecutionTrace) returns (r: Result<seq<ValidationWarning>>)
    ensures r == TraceWarnings(trace)
  {
    var originLatestGen: map<int, int> := map[];
    var variableGen: map<VarId, VarGen> := map[];
    var warnings: seq<ValidationWarning> := [];
    var valueId := 0;
    for k := 0 to |trace|
      invariant Run(trace, k) == Ok(Lineage(originLatestGen, variableGen, valueId, warnings))
    {
      var transition := trace[k];
      ghost var before := Lineage(originLatestGen, variableGen, valueId, warnings);
      match transition.operation {
        case AssignVarOp(from, to, genChange) =>
          if to != BlankVarId {
            var targetGen;
            if from == BlankVarId {
              targetGen := VarGen(valueId, 0);
              valueId := valueId + 1;
            } else {
              var sourceGen;
              if from in variableGen {
                sourceGen := variableGen[from];
              } else {
                sourceGen := VarGen(valueId, 0);
                variableGen := variableGen[from := VarGen(valueId, 0)];
                valueId := valueId + 1;
              }
              targetGen := VarGen(sourceGen.id, sourceGen.gen + genChange);
            }
            if targetGen.id in originLatestGen && genChange == ExecutionGraph.NextGen && targetGen.gen <= originLatestGen[targetGen.id] {
              warnings := warnings + [ValidationWarning(trace, transition.toPoint)];
            } else if targetGen.id !in originLatestGen || targetGen.gen > originLatestGen[targetGen.id] {
              originLatestGen := originLatestGen[targetGen.id := targetGen.gen];
            }
            variableGen := variableGen[to := targetGen];
            assert targetGen == Candidate(before, from, genChange).0;
          }
          assert Lineage(originLatestGen, variableGen, valueId, warnings) == AssignVar(trace, before, transition.toPoint, from, to, genChange);
        case NoOp =>
        case _ =>
          RunFailureSticks(trace, k + 1, |trace|);
          return Err("unexpected execution statement type");
      }
    }
    return Ok(warnings);
  }

  /** Once a transition fails, the whole trace fails. */
  lemma {:induction false} RunFailureSticks(trace: ExecutionTrace, k: nat, m: nat)
    requires k <= m <= |trace| && Run(trace, k).Err?
    ensures Run(trace, m) == Run(trace, k)
    decreases m - k
  {
    if k < m {
      RunFailureSticks(trace, k + 1, m);
    }
  }

  /** Line 82: an assignment to blank changes nothing. Otherwise a warning
      at the transition's target is added exactly when the step is stale;
      the target takes the candidate lineage either way; an origin's latest
      generation is never lowered, is raised to the candidate unless a
      warning was given, and no other origin's latest changes. */
  lemma AssignVarStep(trace: ExecutionTrace, l: Lineage, toPoint: ExecutionPoint,
                      from: VarId, to: VarId, genChange: ExecutionGraph.GenChangeType)
    ensures to == BlankVarId ==> AssignVar(trace, l, toPoint, from, to, genChange) == l
    ensures to != BlankVarId ==>
      var l' := AssignVar(trace, l, toPoint, from, to, genChange);
      var g := Candidate(l, from, genChange).0;
      && (l'.warnings == l.warnings + [ValidationWarning(trace, toPoint)] <==> Stale(l, g, genChange))
      && (!Stale(l, g, genChange) ==> l'.warnings == l.warnings)
      && to in l'.variableGen && l'.variableGen[to] == g
      && (forall o :: o in l.originLatestGen ==> o in l'.originLatestGen && l'.originLatestGen[o] >= l.originLatestGen[o])
      && (!Stale(l, g, genChange) ==> g.id in l'.originLatestGen && l'.originLatestGen[g.id] >= g.gen)
      && (forall o :: o in l'.originLatestGen && o != g.id ==> o in l.originLatestGen && l'.originLatestGen[o] == l.originLatestGen[o])
  {
    if to != BlankVarId {
      var l' := AssignVar(trace, l, toPoint, from, to, genChange);
      if !Stale(l, Candidate(l, from, genChange).0, genChange) {
        assert |l'.warnings| == |l.warnings|;
      }
    }
  }

  /** Every origin the validator knows, and every lineage it holds, was
      handed out already: below `valueId`. */
  predicate Fresh(l: Lineage)
  {
    && 0 <= l.valueId
    && (forall o :: o in l.originLatestGen ==> o < l.valueId)
    && (forall v :: v in l.variableGen ==> l.variableGen[v].id < l.valueId)
  }

  lemma TraceStepFresh(trace: ExecutionTrace, l: Lineage, t: ExecutionTransition)
    requires Fresh(l) && TraceStep(trace, l, t).Ok?
    ensures Fresh(TraceStep(trace, l, t).value)
  {
    if t.operation.AssignVarOp? && t.operation.toVarId != BlankVarId {
      var (g, read) := Candidate(l, t.operation.fromVarId, t.operation.genChange);
      assert Fresh(read) && g.id < read.valueId;
    }
  }

  /** Along a trace the validator's state stays fresh. */
  lemma {:induction false} RunFresh(trace: ExecutionTrace, k: nat)
    requires k <= |trace| && Run(trace, k).Ok?
    ensures Fresh(Run(trace, k).value)
  {
    if k > 0 {
      RunFresh(trace, k - 1);
      TraceStepFresh(trace, Run(trace, k - 1).value, trace[k - 1]);
    }
  }

  /** Lines 86-95 and 101-102: an assignment from blank, or from a variable
      not met before, starts a brand-new origin for its target, which cannot
      be stale: neither warns. From blank the target starts at generation 0
      whatever the generation change. */
  lemma NewOriginNeverWarns(trace: ExecutionTrace, k: nat)
    requires k < |trace| && Run(trace, k).Ok?
    requires trace[k].operation.AssignVarOp? && trace[k].operation.toVarId != BlankVarId
    requires var from := trace[k].operation.fromVarId;
      from == BlankVarId || from !in Run(trace, k).value.variableGen
    ensures var before := Run(trace, k).value;
      var op := trace[k].operation;
      && Run(trace, k + 1).Ok?
      && Run(trace, k + 1).value.warnings == before.warnings
      && op.toVarId in Run(trace, k + 1).value.variableGen
      && Run(trace, k + 1).value.variableGen[op.toVarId]
           == VarGen(before.valueId, if op.fromVarId == BlankVarId then 0 else op.genChange)
  {
    var before := Run(trace, k).value;
    var op := trace[k].operation;
    RunFresh(trace, k);
    assert !Stale(before, Candidate(before, op.fromVarId, op.genChange).0, op.genChange);
    AssignVarStep(trace, before, trace[k].toPoint, op.fromVarId, op.toVarId, op.genChange);
  }

  /** Every warning of the first k transitions carries the trace and points
      at the target of one of them, a NextGen assignment. */
  lemma {:induction false} RunWarnings(trace: ExecutionTrace, k: nat)
    requires k <= |trace| && Run(trace, k).Ok?
    ensures forall w :: w in Run(trace, k).value.warnings ==>
      w.trace == trace
      && exists j :: 0 <= j < k && trace[j].toPoint == w.executionPoint
           && trace[j].operation.AssignVarOp? && trace[j].operation.genChange == ExecutionGraph.NextGen
  {
    if k > 0 {
      RunWarnings(trace, k - 1);
      var l := Run(trace, k - 1).value;
      var t := trace[k - 1];
      if t.operation.AssignVarOp? {
        AssignVarStep(trace, l, t.toPoint, t.operation.fromVarId, t.operation.toVarId, t.operation.genChange);
      }
    }
  }

  /** The validation of the first k transitions fails exactly when one of
      them is neither an AssignVarOp nor a NoOp. */
  lemma {:induction false} RunFails(trace: ExecutionTrace, k: nat)
    requires k <= |trace|
    ensures Run(trace, k).Err? <==>
      exists j :: 0 <= j < k && !(trace[j].operation.AssignVarOp? || trace[j].operation.NoOp?)
  {
    if k > 0 {
      RunFails(trace, k - 1);
    }
  }

  /** Run, one transition further. */
  lemma RunNext(trace: ExecutionTrace, k: nat, l: Lineage)
    requires k < |trace| && Run(trace, k) == Ok(l)
    ensures Run(trace, k + 1) == TraceStep(trace, l, trace[k])
  {
  }

  /** The validator states along the test trace below, steps 1 to 5. */
  lemma FirstStepStates(trace: ExecutionTrace)
    ensures AssignVar(trace, Lineage(map[], map[], 0, []), 1, BlankVarId, 0, 0)
      == Lineage(map[0 := 0], map[0 := VarGen(0, 0)], 1, [])
    ensures AssignVar(trace, Lineage(map[0 := 0], map[0 := VarGen(0, 0)], 1, []), 2, BlankVarId, 1, 0)
      == Lineage(map[0 := 0, 1 := 0], map[0 := VarGen(0, 0), 1 := VarGen(1, 0)], 2, [])
    ensures AssignVar(trace, Lineage(map[0 := 0, 1 := 0], map[0 := VarGen(0, 0), 1 := VarGen(1, 0)], 2, []), 3, 0, 2, 1)
      == Lineage(map[0 := 1, 1 := 0], map[0 := VarGen(0, 0), 1 := VarGen(1, 0), 2 := VarGen(0, 1)], 2, [])
    ensures AssignVar(trace, Lineage(map[0 := 1, 1 := 0], map[0 := VarGen(0, 0), 1 := VarGen(1, 0), 2 := VarGen(0, 1)], 2, []), 4, 2, 0, 0)
      == Lineage(map[0 := 1, 1 := 0], map[0 := VarGen(0, 1), 1 := VarGen(1, 0), 2 := VarGen(0, 1)], 2, [])
    ensures AssignVar(trace, Lineage(map[0 := 1, 1 := 0], map[0 := VarGen(0, 1), 1 := VarGen(1, 0), 2 := VarGen(0, 1)], 2, []), 5, 1, 3, 1)
      == Lineage(map[0 := 1, 1 := 1], map[0 := VarGen(0, 1), 1 := VarGen(1, 0), 2 := VarGen(0, 1), 3 := VarGen(1, 1)], 2, [])
  {
  }

  /** The validator states along the test trace below, steps 6 to 10. */
  lemma LastStepStates(trace: ExecutionTrace)
    ensures AssignVar(trace, Lineage(map[0 := 1, 1 := 1], map[0 := VarGen(0, 1), 1 := VarGen(1, 0), 2 := VarGen(0, 1), 3 := VarGen(1, 1)], 2, []), 6, 3, 1, 0)
      == Lineage(map[0 := 1, 1 := 1], map[0 := VarGen(0, 1), 1 := VarGen(1, 1), 2 := VarGen(0, 1), 3 := VarGen(1, 1)], 2, [])
    ensures AssignVar(trace, Lineage(map[0 := 1, 1 := 1], map[0 := VarGen(0, 1), 1 := VarGen(1, 1), 2 := VarGen(0, 1), 3 := VarGen(1, 1)], 2, []), 7, 0, 2, 1)
      == Lineage(map[0 := 2, 1 := 1], map[0 := VarGen(0, 1), 1 := VarGen(1, 1), 2 := VarGen(0, 2), 3 := VarGen(1, 1)], 2, [])
    ensures AssignVar(trace, Lineage(map[0 := 2, 1 := 1], map[0 := VarGen(0, 1), 1 := VarGen(1, 1), 2 := VarGen(0, 2), 3 := VarGen(1, 1)], 2, []), 8, 2, 0, 0)
      == Lineage(map[0 := 2, 1 := 1], map[0 := VarGen(0, 2), 1 := VarGen(1, 1), 2 := VarGen(0, 2), 3 := VarGen(1, 1)], 2, [])
    ensures AssignVar(trace, Lineage(map[0 := 2, 1 := 1], map[0 := VarGen(0, 2), 1 := VarGen(1, 1), 2 := VarGen(0, 2), 3 := VarGen(1, 1)], 2, []), 9, 1, 3, 1)
      == Lineage(map[0 := 2, 1 := 2], map[0 := VarGen(0, 2), 1 := VarGen(1, 1), 2 := VarGen(0, 2), 3 := VarGen(1, 2)], 2, [])
    ensures AssignVar(trace, Lineage(map[0 := 2, 1 := 2], map[0 := VarGen(0, 2), 1 := VarGen(1, 1), 2 := VarGen(0, 2), 3 := VarGen(1, 2)], 2, []), 10, 3, 1, 0)
      == Lineage(map[0 := 2, 1 := 2], map[0 := VarGen(0, 2), 1 := VarGen(1, 2), 2 := VarGen(0, 2), 3 := VarGen(1, 2)], 2, [])
  {
  }

  /** The first five steps of the test trace below. */
  lemma ReassignedFirstSteps(trace: ExecutionTrace)
    requires |trace| == 10
    requires trace[0] == ExecutionTransition(1, AssignVarOp(BlankVarId, 0, 0))
    requires trace[1] == ExecutionTransition(2, AssignVarOp(BlankVarId, 1, 0))
    requires trace[2] == ExecutionTransition(3, AssignVarOp(0, 2, 1))
    requires trace[3] == ExecutionTransition(4, AssignVarOp(2, 0, 0))
    requires trace[4] == ExecutionTransition(5, AssignVarOp(1, 3, 1))
    requires trace[5] == ExecutionTransition(6, AssignVarOp(3, 1, 0))
    requires trace[6] == ExecutionTransition(7, AssignVarOp(0, 2, 1))
    requires trace[7] == ExecutionTransition(8, AssignVarOp(2, 0, 0))
    requires trace[8] == ExecutionTransition(9, AssignVarOp(1, 3, 1))
    requires trace[9] == ExecutionTransition(10, AssignVarOp(3, 1, 0))
    ensures Run(trace, 5) == Ok(Lineage(map[0 := 1, 1 := 1], map[0 := VarGen(0, 1), 1 := VarGen(1, 0), 2 := VarGen(0, 1), 3 := VarGen(1, 1)], 2, []))
  {
    FirstStepStates(trace);
    RunNext(trace, 0, EmptyLineage);
    RunNext(trace, 1, Lineage(map[0 := 0], map[0 := VarGen(0, 0)], 1, []));
    RunNext(trace, 2, Lineage(map[0 := 0, 1 := 0], map[0 := VarGen(0, 0), 1 := VarGen(1, 0)], 2, []));
    RunNext(trace, 3, Lineage(map[0 := 1, 1 := 0], map[0 := VarGen(0, 0), 1 := VarGen(1, 0), 2 := VarGen(0, 1)], 2, []));
    RunNext(trace, 4, Lineage(map[0 := 1, 1 := 0], map[0 := VarGen(0, 1), 1 := VarGen(1, 0), 2 := VarGen(0, 1)], 2, []));
  }

  /** The ten-step trace of execution_trace_test.go: two values, each moved
      to its next generation twice through a temporary and assigned back;
      every NextGen goes beyond its origin's latest, so nothing is stale. */
  lemma ReassignedNextGensAreNotStale(trace: ExecutionTrace)
    requires |trace| == 10
    requires trace[0] == ExecutionTransition(1, AssignVarOp(BlankVarId, 0, 0))
    requires trace[1] == ExecutionTransition(2, AssignVarOp(BlankVarId, 1, 0))
    requires trace[2] == ExecutionTransition(3, AssignVarOp(0, 2, 1))
    requires trace[3] == ExecutionTransition(4, AssignVarOp(2, 0, 0))
    requires trace[4] == ExecutionTransition(5, AssignVarOp(1, 3, 1))
    requires trace[5] == ExecutionTransition(6, AssignVarOp(3, 1, 0))
    requires trace[6] == ExecutionTransition(7, AssignVarOp(0, 2, 1))
    requires trace[7] == ExecutionTransition(8, AssignVarOp(2, 0, 0))
    requires trace[8] == ExecutionTransition(9, AssignVarOp(1, 3, 1))
    requires trace[9] == ExecutionTransition(10, AssignVarOp(3, 1, 0))
    ensures TraceWarnings(trace) == Ok([])
  {
    LastStepStates(trace);
    ReassignedFirstSteps(trace);
    RunNext(trace, 5, Lineage(map[0 := 1, 1 := 1], map[0 := VarGen(0, 1), 1 := VarGen(1, 0), 2 := VarGen(0, 1), 3 := VarGen(1, 1)], 2, []));
    RunNext(trace, 6, Lineage(map[0 := 1, 1 := 1], map[0 := VarGen(0, 1), 1 := VarGen(1, 1), 2 := VarGen(0, 1), 3 := VarGen(1, 1)], 2, []));
    RunNext(trace, 7, Lineage(map[0 := 2, 1 := 1], map[0 := VarGen(0, 1), 1 := VarGen(1, 1), 2 := VarGen(0, 2), 3 := VarGen(1, 1)], 2, []));
    RunNext(trace, 8, Lineage(map[0 := 2, 1 := 1], map[0 := VarGen(0, 2), 1 := VarGen(1, 1), 2 := VarGen(0, 2), 3 := VarGen(1, 1)], 2, []));
    RunNext(trace, 9, Lineage(map[0 := 2, 1 := 2], map[0 := VarGen(0, 2), 1 := VarGen(1, 1), 2 := VarGen(0, 2), 3 := VarGen(1, 2)], 2, []));
  }

  // ---------------------------------------------------------------------------
  // One warning per point

  /** The warnings of all traces, in trace order; a trace that fails makes
      the whole validation fail. */
  function AllWarnings(traces: seq<ExecutionTrace>): (r: Result<seq<ValidationWarning>>)
    ensures r.Ok? <==> forall k :: 0 <= k < |traces| ==> TraceWarnings(traces[k]).Ok?
    decreases |traces|
  {
    if |traces| == 0 then Ok([])
    else
      var found :- TraceWarnings(traces[0]);
      var rest :- AllWarnings(traces[1..]);
      assert forall k :: 1 <= k < |traces| ==> traces[k] == traces[1..][k - 1];
      Ok(found + rest)
  }

  /** The warnings of `ws` whose point is not in `seen` and was not met
      earlier in `ws`: the first warning per point wins. */
  function Kept(seen: set<ExecutionPoint>, ws: seq<ValidationWarning>): seq<ValidationWarning>
    decreases |ws|
  {
    if |ws| == 0 then []
    else if ws[0].executionPoint in seen then Kept(seen, ws[1..])
    else [ws[0]] + Kept(seen + {ws[0].executionPoint}, ws[1..])
  }

  /** The warnings with their points read through the map from simplified
      points back to original ones (0 for a point the map lacks). */
  function Relabel(ws: seq<ValidationWarning>, simplifiedToOriginal: map<ExecutionPoint, ExecutionPoint>): (r: seq<ValidationWarning>)
    ensures |r| == |ws|
    ensures forall k :: 0 <= k < |ws| ==>
      r[k] == ValidationWarning(ws[k].trace, Get(simplifiedToOriginal, ws[k].executionPoint, 0))
  {
    seq(|ws|, k requires 0 <= k < |ws| => ValidationWarning(ws[k].trace, Get(simplifiedToOriginal, ws[k].executionPoint, 0)))
  }

  /** What ValidateExecution returns for the traces of the simplified graph. */
  function Validated(traces: seq<ExecutionTrace>, simplifiedToOriginal: map<ExecutionPoint, ExecutionPoint>): Result<seq<ValidationWarning>>
  {
    match AllWarnings(traces)
    case Err(msg) => Err(msg)
    case Ok(ws) => Ok(Relabel(Kept({}, ws), simplifiedToOriginal))
  }

  /** Every kept warning sits at a point outside `seen`, and no two kept
      warnings share a point. */
  lemma {:induction false} KeptDistinct(seen: set<ExecutionPoint>, ws: seq<ValidationWarning>)
    ensures forall w :: w in Kept(seen, ws) ==> w.executionPoint !in seen
    ensures forall a, b :: 0 <= a < b < |Kept(seen, ws)| ==> Kept(seen, ws)[a].executionPoint != Kept(seen, ws)[b].executionPoint
    decreases |ws|
  {
    if |ws| > 0 {
      var p := ws[0].executionPoint;
      if p in seen {
        KeptDistinct(seen, ws[1..]);
      } else {
        KeptDistinct(seen + {p}, ws[1..]);
        var rest := Kept(seen + {p}, ws[1..]);
        forall a, b | 0 <= a < b < |Kept(seen, ws)|
          ensures Kept(seen, ws)[a].executionPoint != Kept(seen, ws)[b].executionPoint
        {
          assert Kept(seen, ws)[b] == rest[b - 1];
          if a > 0 {
            assert Kept(seen, ws)[a] == rest[a - 1];
          }
        }
      }
    }
  }

  /** Each kept warning is the first warning of `ws` at its point. */
  lemma {:induction false} KeptFirst(seen: set<ExecutionPoint>, ws: seq<ValidationWarning>)
    ensures forall w :: w in Kept(seen, ws) ==>
      exists j :: 0 <= j < |ws| && ws[j] == w && forall k :: 0 <= k < j ==> ws[k].executionPoint != w.executionPoint
    decreases |ws|
  {
    if |ws| > 0 {
      var p := ws[0].executionPoint;
      var seen' := if p in seen then seen else seen + {p};
      KeptFirst(seen', ws[1..]);
      KeptDistinct(seen', ws[1..]);
      forall w | w in Kept(seen, ws)
        ensures exists j :: 0 <= j < |ws| && ws[j] == w && forall k :: 0 <= k < j ==> ws[k].executionPoint != w.executionPoint
      {
        if p !in seen && w == ws[0] {
          assert ws[0] == w;
        } else {
          assert w in Kept(seen', ws[1..]);
          var j :| 0 <= j < |ws[1..]| && ws[1..][j] == w && forall k :: 0 <= k < j ==> ws[1..][k].executionPoint != w.executionPoint;
          if p !in seen {
            assert w.executionPoint != p;
          }
          assert ws[j + 1] == w;
          assert forall k :: 1 <= k < j + 1 ==> ws[k] == ws[1..][k - 1];
        }
      }
    }
  }

  /** Every point with a warning outside `seen` keeps one warning. */
  lemma {:induction false} KeptCovers(seen: set<ExecutionPoint>, ws: seq<ValidationWarning>)
    ensures forall j :: 0 <= j < |ws| && ws[j].executionPoint !in seen ==>
      exists w :: w in Kept(seen, ws) && w.executionPoint == ws[j].executionPoint
    decreases |ws|
  {
    if |ws| > 0 {
      var p := ws[0].executionPoint;
      var seen' := if p in seen then seen else seen + {p};
      KeptCovers(seen', ws[1..]);
      forall j | 0 <= j < |ws| && ws[j].executionPoint !in seen
        ensures exists w :: w in Kept(seen, ws) && w.executionPoint == ws[j].executionPoint
      {
        if j == 0 || ws[j].executionPoint == p {
          assert ws[0] in Kept(seen, ws);
        } else {
          assert ws[1..][j - 1] == ws[j];
          var w :| w in Kept(seen', ws[1..]) && w.executionPoint == ws[j].executionPoint;
          assert w in Kept(seen, ws);
        }
      }
    }
  }

  /** Every warning of the traces points back at its own trace and at a
      point that trace enters by a NextGen assignment. */
  lemma {:induction false} AllWarningsFrom(traces: seq<ExecutionTrace>)
    requires AllWarnings(traces).Ok?
    ensures forall w :: w in AllWarnings(traces).value ==>
      w.trace in traces
      && exists j :: 0 <= j < |w.trace| && w.trace[j].toPoint == w.executionPoint
           && w.trace[j].operation.AssignVarOp? && w.trace[j].operation.genChange == ExecutionGraph.NextGen
    decreases |traces|
  {
    if |traces| > 0 {
      RunWarnings(traces[0], |traces[0]|);
      AllWarningsFrom(traces[1..]);
      assert forall t :: t in traces[1..] ==> t in traces;
    }
  }

  /** The warnings ValidateExecution keeps, before their points are mapped
      back: each comes from one of the traces, no point is reported twice,
      and every point some trace warns at is reported, by the first warning
      of the first trace that warns there. */
  lemma ValidatedOnePerPoint(traces: seq<ExecutionTrace>)
    requires AllWarnings(traces).Ok?
    ensures var ws := AllWarnings(traces).value;
      var kept := Kept({}, ws);
      (forall w :: w in kept ==> w.trace in traces)
      && (forall a, b :: 0 <= a < b < |kept| ==> kept[a].executionPoint != kept[b].executionPoint)
      && (forall j :: 0 <= j < |ws| ==> exists w :: w in kept && w.executionPoint == ws[j].executionPoint)
      && (forall w :: w in kept ==>
            exists j :: 0 <= j < |ws| && ws[j] == w && forall k :: 0 <= k < j ==> ws[k].executionPoint != w.executionPoint)
  {
    var ws := AllWarnings(traces).value;
    AllWarningsFrom(traces);
    KeptDistinct({}, ws);
    KeptCovers({}, ws);
    KeptFirst({}, ws);
    KeptWithin({}, ws);
  }

  /** Kept only drops warnings. */
  lemma {:induction false} KeptWithin(seen: set<ExecutionPoint>, ws: seq<ValidationWarning>)
    ensures forall w :: w in Kept(seen, ws) ==> w in ws
    decreases |ws|
  {
    if |ws| > 0 {
      KeptWithin(if ws[0].executionPoint in seen then seen else seen + {ws[0].executionPoint}, ws[1..]);
    }
  }

  /** The validation from some point of ValidateExecution's loops on: the
      warnings kept so far, the points warned at, the warnings of the
      current trace still to read and the traces still to validate. */
  function Combine(kept: seq<ValidationWarning>, seen: set<ExecutionPoint>, pending: seq<ValidationWarning>,
                   traces: seq<ExecutionTrace>, simplifiedToOriginal: map<ExecutionPoint, ExecutionPoint>): Result<seq<ValidationWarning>>
  {
    match AllWarnings(traces)
    case Err(msg) => Err(msg)
    case Ok(ws) => Ok(Relabel(kept + Kept(seen, pending + ws), simplifiedToOriginal))
  }

  /** Reading one pending warning. */
  lemma CombineStep(kept: seq<ValidationWarning>, seen: set<ExecutionPoint>, pending: seq<ValidationWarning>,
                    traces: seq<ExecutionTrace>, simplifiedToOriginal: map<ExecutionPoint, ExecutionPoint>)
    requires |pending| > 0
    ensures var p := pending[0].executionPoint;
      Combine(kept, seen, pending, traces, simplifiedToOriginal)
        == if p in seen then Combine(kept, seen, pending[1..], traces, simplifiedToOriginal)
           else Combine(kept + [pending[0]], seen + {p}, pending[1..], traces, simplifiedToOriginal)
  {
    if AllWarnings(traces).Ok? {
      var ws := AllWarnings(traces).value;
      assert (pending + ws)[0] == pending[0];
      assert (pending + ws)[1..] == pending[1..] + ws;
      if pending[0].executionPoint !in seen {
        var rest := Kept(seen + {pending[0].executionPoint}, pending[1..] + ws);
        assert kept + ([pending[0]] + rest) == kept + [pending[0]] + rest;
      }
    }
  }

  /** Before any trace is read. */
  lemma CombineStart(traces: seq<ExecutionTrace>, simplifiedToOriginal: map<ExecutionPoint, ExecutionPoint>)
    ensures Validated(traces, simplifiedToOriginal) == Combine([], {}, [], traces, simplifiedToOriginal)
  {
    if AllWarnings(traces).Ok? {
      var ws := AllWarnings(traces).value;
      assert [] + ws == ws;
      assert [] + Kept({}, ws) == Kept({}, ws);
    }
  }

  /** After every trace is read. */
  lemma CombineEnd(kept: seq<ValidationWarning>, seen: set<ExecutionPoint>, simplifiedToOriginal: map<ExecutionPoint, ExecutionPoint>)
    ensures Combine(kept, seen, [], [], simplifiedToOriginal) == Ok(Relabel(kept, simplifiedToOriginal))
  {
    assert kept + Kept(seen, [] + []) == kept;
  }

  /** Validating the next trace. */
  lemma CombineTrace(kept: seq<ValidationWarning>, seen: set<ExecutionPoint>, traces: seq<ExecutionTrace>,
                     simplifiedToOriginal: map<ExecutionPoint, ExecutionPoint>)
    requires |traces| > 0
    ensures TraceWarnings(traces[0]).Err? ==> Combine(kept, seen, [], traces, simplifiedToOriginal) == Err(TraceWarnings(traces[0]).msg)
    ensures TraceWarnings(traces[0]).Ok? ==>
      Combine(kept, seen, [], traces, simplifiedToOriginal) == Combine(kept, seen, TraceWarnings(traces[0]).value, traces[1..], simplifiedToOriginal)
  {
    if TraceWarnings(traces[0]).Ok? && AllWarnings(traces[1..]).Ok? {
      var ws := TraceWarnings(traces[0]).value + AllWarnings(traces[1..]).value;
      assert [] + ws == ws;
    }
  }

  /** ValidateExecution: the traces of the simplified graph with every point
      entered at most twice, each validated in turn, keeping the first
      warning per point and reporting it at the original point. The
      simplified graph and the point map are given, not computed. */
  method ValidateExecution(simplified: Execution, simplifiedToOriginal: map<ExecutionPoint, ExecutionPoint>)
    returns (r: Result<seq<ValidationWarning>>)
    ensures r == Validated(TracesFrom(simplified.transitions, simplified.rootPoint, 2, [], map[]), simplifiedToOriginal)
  {
    var traces := GenerateTraces(simplified, 2);
    var warnedExecutionPoints: set<ExecutionPoint> := {};
    var warnings: seq<ValidationWarning> := [];
    ghost var kept: seq<ValidationWarning> := [];
    CombineStart(traces, simplifiedToOriginal);
    assert traces[0..] == traces;
    for i := 0 to |traces|
      invariant warnings == Relabel(kept, simplifiedToOriginal)
      invariant Validated(traces, simplifiedToOriginal) == Combine(kept, warnedExecutionPoints, [], traces[i..], simplifiedToOriginal)
    {
      CombineTrace(kept, warnedExecutionPoints, traces[i..], simplifiedToOriginal);
      var found := ValidateTrace(traces[i]);
      if found.Err? {
        return Err(found.msg);
      }
      assert traces[i..][1..] == traces[i + 1..];
      for j := 0 to |found.value|
        invariant warnings == Relabel(kept, simplifiedToOriginal)
        invariant Validated(traces, simplifiedToOriginal)
          == Combine(kept, warnedExecutionPoints, found.value[j..], traces[i + 1..], simplifiedToOriginal)
      {
        var warning := found.value[j];
        CombineStep(kept, warnedExecutionPoints, found.value[j..], traces[i + 1..], simplifiedToOriginal);
        assert found.value[j..][1..] == found.value[j + 1..];
        if warning.executionPoint !in warnedExecutionPoints {
          warnedExecutionPoints := warnedExecutionPoints + {warning.executionPoint};
          warnings := warnings + [ValidationWarning(warning.trace, Get(simplifiedToOriginal, warning.executionPoint, 0))];
          kept := kept + [warning];
        }
      }
      assert found.value[|found.value|..] == [];
    }
    CombineEnd(kept, warnedExecutionPoints, simplifiedToOriginal);
    return Ok(warnings);
  }
}
