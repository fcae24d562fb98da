/** The control-flow graph builder. A builder value is a current point plus
    two references: the counter of points handed out so far and the graph
    under construction. Every builder derived from another shares both, so
    branches built from copies of one builder land in the same graph and
    never reuse a point. */
module Builder {
  import opened Wrappers
  import opened ExecutionOps
  import opened ExecutionModel

  /** The last point handed out, shared by all builders of one graph. */
  class PointCounter {
    var last: ExecutionPoint

    constructor ()
      ensures last == 0
    {
      last := 0;
    }
  }

  /** The graph under construction. */
  class ExecutionCell {
    const rootPoint: ExecutionPoint
    var transitions: map<ExecutionPoint, seq<ExecutionTransition>>
    var sourceCodeReferences: SourceCodeReferences

    constructor (referencesEnabled: bool)
      ensures rootPoint == 0 && transitions == map[]
      ensures sourceCodeReferences == SourceCodeReferences(referencesEnabled, map[])
    {
      rootPoint := 0;
      transitions := map[];
      sourceCodeReferences := SourceCodeReferences(referencesEnabled, map[]);
    }
  }

  datatype ExecutionBuilder = ExecutionBuilder(currentPoint: ExecutionPoint, lastPoint: PointCounter, execution: ExecutionCell)

  /** Every point the graph mentions, as a source or as a target, has been
      handed out already. */
  predicate Closed(transitions: map<ExecutionPoint, seq<ExecutionTransition>>, last: ExecutionPoint)
  {
    forall p :: p in transitions ==> 0 <= p <= last && forall t :: t in transitions[p] ==> 0 <= t.toPoint <= last
  }

  /** A builder made by NewExecutionBuilder and the operations below. */
  ghost predicate Valid(b: ExecutionBuilder)
    reads b.lastPoint, b.execution
  {
    0 <= b.currentPoint <= b.lastPoint.last && b.execution.rootPoint == 0
      && Closed(b.execution.transitions, b.lastPoint.last)
  }

  /** `transitions` with `t` appended to the list leaving `from`. */
  function AddTransition(transitions: map<ExecutionPoint, seq<ExecutionTransition>>, from: ExecutionPoint, t: ExecutionTransition)
    : map<ExecutionPoint, seq<ExecutionTransition>>
  {
    transitions[from := TransitionsOf(transitions, from) + [t]]
  }

  /** AddTransition appends at the end of the source's list and leaves every
      other list as it was. */
  lemma AddTransitionEffect(transitions: map<ExecutionPoint, seq<ExecutionTransition>>, from: ExecutionPoint, t: ExecutionTransition)
    ensures var r := AddTransition(transitions, from, t);
      && r.Keys == transitions.Keys + {from}
      && TransitionsOf(r, from) == TransitionsOf(transitions, from) + [t]
      && forall p :: p != from ==> TransitionsOf(r, p) == TransitionsOf(transitions, p)
  {
  }

  /** Adding an edge between handed-out points keeps the graph closed. */
  lemma AddTransitionClosed(transitions: map<ExecutionPoint, seq<ExecutionTransition>>, last: ExecutionPoint,
                            from: ExecutionPoint, t: ExecutionTransition)
    requires Closed(transitions, last) && 0 <= from <= last && 0 <= t.toPoint <= last
    ensures Closed(AddTransition(transitions, from, t), last)
  {
    var r := AddTransition(transitions, from, t);
    AddTransitionEffect(transitions, from, t);
    forall p | p in r ensures 0 <= p <= last && forall u: ExecutionTransition :: u in r[p] ==> 0 <= u.toPoint <= last {
      assert r[p] == TransitionsOf(r, p);
      if p != from { assert r[p] == transitions[p]; }
    }
  }

  /** Root and current point 0, nothing handed out beyond it, no transitions. */
  method NewExecutionBuilder(referencesEnabled: bool) returns (b: ExecutionBuilder)
    ensures fresh(b.lastPoint) && fresh(b.execution) && Valid(b)
    ensures b.currentPoint == 0 && b.lastPoint.last == 0
    ensures b.execution.rootPoint == 0 && b.execution.transitions == map[]
    ensures b.execution.sourceCodeReferences == SourceCodeReferences(referencesEnabled, map[])
  {
    var counter := new PointCounter();
    var execution := new ExecutionCell(referencesEnabled);
    b := ExecutionBuilder(0, counter, execution);
  }

  /** The graph built so far. */
  function Build(b: ExecutionBuilder): (e: Execution)
    reads b.execution
    ensures e.transitions == b.execution.transitions && e.rootPoint == b.execution.rootPoint
  {
    Execution(b.execution.rootPoint, b.execution.transitions, b.execution.sourceCodeReferences)
  }

  /** Records the source position of a point, when references are enabled. */
  method AssignRef(b: ExecutionBuilder, point: ExecutionPoint, position: Position)
    modifies b.execution
    ensures b.execution.transitions == old(b.execution.transitions)
    ensures b.execution.sourceCodeReferences.enabled == old(b.execution.sourceCodeReferences.enabled)
    ensures b.execution.sourceCodeReferences.references
      == if old(b.execution.sourceCodeReferences.enabled)
         then old(b.execution.sourceCodeReferences.references)[point := position]
         else old(b.execution.sourceCodeReferences.references)
  {
    if b.execution.sourceCodeReferences.enabled {
      b.execution.sourceCodeReferences := b.execution.sourceCodeReferences.(
        references := b.execution.sourceCodeReferences.references[point := position]);
    }
  }

  /** A builder at a brand-new point, one past every point handed out so far. */
  method AcquirePoint(b: ExecutionBuilder) returns (next: ExecutionBuilder)
    modifies b.lastPoint
    ensures b.lastPoint.last == old(b.lastPoint.last) + 1
    ensures next == ExecutionBuilder(b.lastPoint.last, b.lastPoint, b.execution)
    ensures old(Valid(b)) ==> Valid(b) && Valid(next) && next.currentPoint !in b.execution.transitions
  {
    b.lastPoint.last := b.lastPoint.last + 1;
    next := ExecutionBuilder(b.lastPoint.last, b.lastPoint, b.execution);
  }

  /** AcquirePoint, recording the new point's position. */
  method AcquirePointWithRef(b: ExecutionBuilder, position: Position) returns (next: ExecutionBuilder)
    modifies b.lastPoint, b.execution
    ensures b.lastPoint.last == old(b.lastPoint.last) + 1
    ensures next == ExecutionBuilder(b.lastPoint.last, b.lastPoint, b.execution)
    ensures b.execution.transitions == old(b.execution.transitions)
    ensures b.execution.sourceCodeReferences.references
      == if old(b.execution.sourceCodeReferences.enabled)
         then old(b.execution.sourceCodeReferences.references)[b.lastPoint.last := position]
         else old(b.execution.sourceCodeReferences.references)
    ensures old(Valid(b)) ==> Valid(b) && Valid(next) && next.currentPoint !in b.execution.transitions
  {
    b.lastPoint.last := b.lastPoint.last + 1;
    AssignRef(b, b.lastPoint.last, position);
    next := ExecutionBuilder(b.lastPoint.last, b.lastPoint, b.execution);
  }

  /** Appends `transition` to the list of the current point; a transition
      from a point to itself is refused. */
  method Connect(b: ExecutionBuilder, transition: ExecutionTransition)
    requires b.currentPoint != transition.toPoint
    modifies b.execution
    ensures b.execution.transitions == AddTransition(old(b.execution.transitions), b.currentPoint, transition)
    ensures b.execution.sourceCodeReferences == old(b.execution.sourceCodeReferences)
  {
    b.execution.transitions := AddTransition(b.execution.transitions, b.currentPoint, transition);
  }

  /** A NoOp transition to `point`, and a builder standing there. */
  method ConnectTo(b: ExecutionBuilder, point: ExecutionPoint) returns (next: ExecutionBuilder)
    requires b.currentPoint != point
    modifies b.execution
    ensures b.execution.transitions == AddTransition(old(b.execution.transitions), b.currentPoint, ExecutionTransition(point, NoOp))
    ensures b.execution.sourceCodeReferences == old(b.execution.sourceCodeReferences)
    ensures next == ExecutionBuilder(point, b.lastPoint, b.execution)
    ensures old(Valid(b)) && 0 <= point <= b.lastPoint.last ==> Valid(next)
  {
    Connect(b, ExecutionTransition(point, NoOp));
    next := ExecutionBuilder(point, b.lastPoint, b.execution);
    if old(Valid(b)) && 0 <= point <= b.lastPoint.last {
      AddTransitionClosed(old(b.execution.transitions), b.lastPoint.last, b.currentPoint, ExecutionTransition(point, NoOp));
    }
  }

  /** One transition labelled `op` from the current point to a brand-new
      point, and a builder standing there. */
  method ApplyNext(b: ExecutionBuilder, op: Operation) returns (next: ExecutionBuilder)
    requires b.currentPoint <= b.lastPoint.last
    modifies b.lastPoint, b.execution
    ensures b.lastPoint.last == old(b.lastPoint.last) + 1
    ensures next == ExecutionBuilder(b.lastPoint.last, b.lastPoint, b.execution)
    ensures b.execution.transitions
      == AddTransition(old(b.execution.transitions), b.currentPoint, ExecutionTransition(b.lastPoint.last, op))
    ensures b.execution.sourceCodeReferences == old(b.execution.sourceCodeReferences)
    ensures old(Valid(b)) ==> Valid(next)
  {
    var acquired := AcquirePoint(b);
    Connect(b, ExecutionTransition(acquired.currentPoint, op));
    if old(Valid(b)) {
      AddTransitionClosed(old(b.execution.transitions), b.lastPoint.last, b.currentPoint, ExecutionTransition(acquired.currentPoint, op));
    }
    next := ExecutionBuilder(acquired.currentPoint, b.lastPoint, b.execution);
  }

  /** ApplyNext, recording the new point's position. */
  method ApplyNextWithRef(b: ExecutionBuilder, op: Operation, position: Position) returns (next: ExecutionBuilder)
    requires b.currentPoint <= b.lastPoint.last
    modifies b.lastPoint, b.execution
    ensures b.lastPoint.last == old(b.lastPoint.last) + 1
    ensures next == ExecutionBuilder(b.lastPoint.last, b.lastPoint, b.execution)
    ensures b.execution.transitions
      == AddTransition(old(b.execution.transitions), b.currentPoint, ExecutionTransition(b.lastPoint.last, op))
    ensures b.execution.sourceCodeReferences.references
      == if old(b.execution.sourceCodeReferences.enabled)
         then old(b.execution.sourceCodeReferences.references)[b.lastPoint.last := position]
         else old(b.execution.sourceCodeReferences.references)
    ensures old(Valid(b)) ==> Valid(next)
  {
    var acquired := AcquirePointWithRef(b, position);
    Connect(b, ExecutionTransition(acquired.currentPoint, op));
    if old(Valid(b)) {
      AddTransitionClosed(old(b.execution.transitions), b.lastPoint.last, b.currentPoint, ExecutionTransition(acquired.currentPoint, op));
    }
    next := ExecutionBuilder(acquired.currentPoint, b.lastPoint, b.execution);
  }

  /** The graph of BuilderApi written out, and the same graph as the
      builder's calls construct it, edge by edge. */
  lemma BuilderApiGraph(a0: Operation, a1: Operation, a2: Operation, a3: Operation)
    ensures
      var t1 := AddTransition(map[], 0, ExecutionTransition(1, a0));
      var t2 := AddTransition(t1, 1, ExecutionTransition(2, a1));
      var t3 := AddTransition(t2, 2, ExecutionTransition(4, a2));
      var t4 := AddTransition(t3, 4, ExecutionTransition(3, NoOp));
      var t5 := AddTransition(t4, 2, ExecutionTransition(5, a3));
      var t6 := AddTransition(t5, 5, ExecutionTransition(3, NoOp));
      && t6.Keys == {0, 1, 2, 4, 5}
      && t6[0] == [ExecutionTransition(1, a0)] && t6[1] == [ExecutionTransition(2, a1)]
      && t6[2] == [ExecutionTransition(4, a2), ExecutionTransition(5, a3)]
      && t6[4] == [ExecutionTransition(3, NoOp)] && t6[5] == [ExecutionTransition(3, NoOp)]
  {
    var t1 := AddTransition(map[], 0, ExecutionTransition(1, a0));
    var t2 := AddTransition(t1, 1, ExecutionTransition(2, a1));
    var t3 := AddTransition(t2, 2, ExecutionTransition(4, a2));
    var t4 := AddTransition(t3, 4, ExecutionTransition(3, NoOp));
    var t5 := AddTransition(t4, 2, ExecutionTransition(5, a3));
    assert t3[2] == [ExecutionTransition(4, a2)] by { assert [] + [ExecutionTransition(4, a2)] == [ExecutionTransition(4, a2)]; }
    assert t5[2] == [ExecutionTransition(4, a2), ExecutionTransition(5, a3)] by {
      assert [ExecutionTransition(4, a2)] + [ExecutionTransition(5, a3)] == [ExecutionTransition(4, a2), ExecutionTransition(5, a3)];
    }
    assert [] + [ExecutionTransition(1, a0)] == [ExecutionTransition(1, a0)];
    assert [] + [ExecutionTransition(2, a1)] == [ExecutionTransition(2, a1)];
    assert [] + [ExecutionTransition(3, NoOp)] == [ExecutionTransition(3, NoOp)];
  }

  /** The common start of BuilderApi: two assignments in a row, and a
      meeting point acquired after them. */
  method BuilderApiTrunk(a0: Operation, a1: Operation) returns (b: ExecutionBuilder, afterState: ExecutionBuilder)
    ensures fresh(b.lastPoint) && fresh(b.execution)
    ensures Valid(b) && b.currentPoint == 2 && b.lastPoint.last == 3 && afterState.currentPoint == 3
    ensures b.execution.rootPoint == 0
    ensures b.execution.transitions
      == AddTransition(AddTransition(map[], 0, ExecutionTransition(1, a0)), 1, ExecutionTransition(2, a1))
  {
    b := NewExecutionBuilder(false);
    b := ApplyNext(b, a0);
    b := ApplyNext(b, a1);
    afterState := AcquirePoint(b);
  }

  /** Two assignments in a row, then two branches that meet again at a
      point acquired before them. */
  method BuilderApi() returns (e: Execution)
    ensures e.rootPoint == 0
    ensures e.transitions.Keys == {0, 1, 2, 4, 5}
    ensures e.transitions[0] == [ExecutionTransition(1, AssignVarOp(BlankVarId, 0, 0))]
    ensures e.transitions[1] == [ExecutionTransition(2, AssignVarOp(BlankVarId, 1, 0))]
    ensures e.transitions[2] == [ExecutionTransition(4, AssignVarOp(BlankVarId, 2, 0)), ExecutionTransition(5, AssignVarOp(BlankVarId, 3, 0))]
    ensures e.transitions[4] == [ExecutionTransition(3, NoOp)] && e.transitions[5] == [ExecutionTransition(3, NoOp)]
  {
    var a0, a1 := AssignVarOp(BlankVarId, 0, 0), AssignVarOp(BlankVarId, 1, 0);
    var a2, a3 := AssignVarOp(BlankVarId, 2, 0), AssignVarOp(BlankVarId, 3, 0);
    var b, afterState := BuilderApiTrunk(a0, a1);
    var left := ApplyNext(b, a2);
    left := ConnectTo(left, afterState.currentPoint);
    var right := ApplyNext(b, a3);
    right := ConnectTo(right, afterState.currentPoint);
    BuilderApiGraph(a0, a1, a2, a3);
    e := Build(b);
  }
}
