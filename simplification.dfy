/** The simplification pass (simplification.go). SimplifyExecution collects
    every assignment a graph performs, directly or through a summarised
    function, and hands them to the factorization. The per-point rewrite
    replaces a selector assignment by assignments between fresh variables,
    one per factorized component, in a new graph whose points are acquired
    as the original ones are met. */
module Simplification {
  import opened Wrappers
  import opened ExecutionOps
  import opened ExecutionModel
  import opened FuncSpecs
  import opened Builder
  import FromAst
  import ExecutionGraph
  import opened Factorization
  import opened FactorizationRulesModel

  // ---------------------------------------------------------------------
  // Collecting the assignments

  /** The lists of `ss`, one after the other. */
  function Flatten<X>(ss: seq<seq<X>>): seq<X>
  {
    if |ss| == 0 then [] else Flatten(ss[..|ss| - 1]) + ss[|ss| - 1]
  }

  lemma {:induction false} FlattenMembers<X>(ss: seq<seq<X>>, x: X)
    ensures x in Flatten(ss) <==> exists i :: 0 <= i < |ss| && x in ss[i]
    decreases |ss|
  {
    if |ss| > 0 {
      var init := ss[..|ss| - 1];
      FlattenMembers(init, x);
      assert forall i :: 0 <= i < |init| ==> init[i] == ss[i];
    }
  }

  /** The assignment a returned reference stands for: from the selector the
      reference reads, as the summary writes it, to output variable `to` at
      the reference's path. */
  function RefAssign(ref: FuncOutputRef, to: VarId): AssignSelector
  {
    AssignSelectorOp(ref.inputArgEmbed.varSelector, VarSelector(to, ref.inputArgEmbed.path))
  }

  function RefAssigns(refs: FuncSingleOutput, to: VarId): seq<AssignSelector>
  {
    seq(|refs|, j requires 0 <= j < |refs| => RefAssign(refs[j], to))
  }

  /** Every non-empty value slot of one outcome has an output variable of
      the call; indexing the call's outputs beyond them is a runtime panic. */
  predicate OutputCovered(output: FuncMultiOutput, outs: seq<VarId>)
  {
    forall i :: 0 <= i < |output| && |output[i]| > 0 ==> i < |outs|
  }

  /** The assignments of one outcome, value slot by value slot (a slot
      without an output variable gives none; the methods fail on it). */
  function OutputParts(output: FuncMultiOutput, outs: seq<VarId>): seq<seq<AssignSelector>>
  {
    seq(|output|, i requires 0 <= i < |output| => if |output[i]| == 0 || |outs| <= i then [] else RefAssigns(output[i], outs[i]))
  }

  predicate OutputsCovered(outputs: seq<FuncMultiOutput>, outs: seq<VarId>)
  {
    forall k :: 0 <= k < |outputs| ==> OutputCovered(outputs[k], outs)
  }

  /** The assignments of a summary's outcomes, outcome by outcome. */
  function OutputsParts(outputs: seq<FuncMultiOutput>, outs: seq<VarId>): seq<seq<AssignSelector>>
  {
    seq(|outputs|, k requires 0 <= k < |outputs| => Flatten(OutputParts(outputs[k], outs)))
  }

  /** A call of a summarised function has an output variable for every slot
      the summary fills. */
  predicate OpCovered(funcs: map<FuncId, FuncSpec>, op: Operation)
  {
    op.UseSelectorsOp? && op.funcId in funcs ==> OutputsCovered(funcs[op.funcId].outputs, op.outputs)
  }

  /** The assignments one operation contributes. */
  function OpAssigns(funcs: map<FuncId, FuncSpec>, op: Operation): seq<AssignSelector>
  {
    match op
    case AssignSelectorOp(_, _) => [op]
    case UseSelectorsOp(funcId, _, outs) =>
      if funcId in funcs then Flatten(OutputsParts(funcs[funcId].outputs, outs)) else []
    case _ => []
  }

  predicate TransitionsCovered(funcs: map<FuncId, FuncSpec>, ts: seq<ExecutionTransition>)
  {
    forall j :: 0 <= j < |ts| ==> OpCovered(funcs, ts[j].operation)
  }

  function TransitionParts(funcs: map<FuncId, FuncSpec>, ts: seq<ExecutionTransition>): seq<seq<AssignSelector>>
  {
    seq(|ts|, j requires 0 <= j < |ts| => OpAssigns(funcs, ts[j].operation))
  }

  predicate PointsCovered(funcs: map<FuncId, FuncSpec>, transitions: map<ExecutionPoint, seq<ExecutionTransition>>, order: seq<ExecutionPoint>)
  {
    forall k :: 0 <= k < |order| ==> TransitionsCovered(funcs, TransitionsOf(transitions, order[k]))
  }

  function PointParts(funcs: map<FuncId, FuncSpec>, transitions: map<ExecutionPoint, seq<ExecutionTransition>>, order: seq<ExecutionPoint>)
    : seq<seq<AssignSelector>>
  {
    seq(|order|, k requires 0 <= k < |order| => Flatten(TransitionParts(funcs, TransitionsOf(transitions, order[k]))))
  }

  /** Everything SimplifyExecution collects, visiting the points in `order`. */
  function CollectedAssigns(funcs: map<FuncId, FuncSpec>, transitions: map<ExecutionPoint, seq<ExecutionTransition>>, order: seq<ExecutionPoint>)
    : seq<AssignSelector>
  {
    Flatten(PointParts(funcs, transitions, order))
  }

  lemma RefAssignsMembers(refs: FuncSingleOutput, to: VarId, a: AssignSelector)
    ensures a in RefAssigns(refs, to) <==> exists j :: 0 <= j < |refs| && a == RefAssign(refs[j], to)
  {
    if a in RefAssigns(refs, to) {
      var j :| 0 <= j < |refs| && RefAssigns(refs, to)[j] == a;
    }
    forall j | 0 <= j < |refs| ensures RefAssign(refs[j], to) in RefAssigns(refs, to) {
      assert RefAssigns(refs, to)[j] == RefAssign(refs[j], to);
    }
  }

  /** An operation contributes itself when it is a selector assignment; a
      call of a summarised function contributes one assignment per reference
      of every outcome, from the reference's selector to the call's output
      variable of the reference's slot; anything else contributes nothing. */
  lemma OpAssignsMembers(funcs: map<FuncId, FuncSpec>, op: Operation, a: AssignSelector)
    requires OpCovered(funcs, op)
    ensures a in OpAssigns(funcs, op) <==>
      (op.AssignSelectorOp? && a == op)
      || (op.UseSelectorsOp? && op.funcId in funcs &&
          exists k, i, j :: 0 <= k < |funcs[op.funcId].outputs| && 0 <= i < |funcs[op.funcId].outputs[k]|
            && 0 <= j < |funcs[op.funcId].outputs[k][i]| && i < |op.outputs|
            && a == RefAssign(funcs[op.funcId].outputs[k][i][j], op.outputs[i]))
  {
    if op.UseSelectorsOp? && op.funcId in funcs {
      var outputs, outs := funcs[op.funcId].outputs, op.outputs;
      FlattenMembers(OutputsParts(outputs, outs), a);
      forall k | 0 <= k < |outputs|
        ensures a in OutputsParts(outputs, outs)[k] <==>
          exists i, j :: 0 <= i < |outputs[k]| && 0 <= j < |outputs[k][i]| && i < |outs| && a == RefAssign(outputs[k][i][j], outs[i])
      {
        SlotMembers(outputs[k], outs, a);
      }
    }
  }

  lemma SlotMembers(output: FuncMultiOutput, outs: seq<VarId>, a: AssignSelector)
    requires OutputCovered(output, outs)
    ensures a in Flatten(OutputParts(output, outs)) <==>
      exists i, j :: 0 <= i < |output| && 0 <= j < |output[i]| && i < |outs| && a == RefAssign(output[i][j], outs[i])
  {
    FlattenMembers(OutputParts(output, outs), a);
    forall i | 0 <= i < |output|
      ensures a in OutputParts(output, outs)[i] <==> (exists j :: 0 <= j < |output[i]| && i < |outs| && a == RefAssign(output[i][j], outs[i]))
    {
      if |output[i]| > 0 {
        RefAssignsMembers(output[i], outs[i], a);
      }
    }
  }

  /** What is collected is what the operations of the listed points
      contribute. */
  lemma CollectedMembers(funcs: map<FuncId, FuncSpec>, transitions: map<ExecutionPoint, seq<ExecutionTransition>>,
                         order: seq<ExecutionPoint>, a: AssignSelector)
    ensures a in CollectedAssigns(funcs, transitions, order) <==>
      exists k, j :: 0 <= k < |order| && 0 <= j < |TransitionsOf(transitions, order[k])|
        && a in OpAssigns(funcs, TransitionsOf(transitions, order[k])[j].operation)
  {
    var parts := PointParts(funcs, transitions, order);
    FlattenMembers(parts, a);
    forall k | 0 <= k < |order|
      ensures a in parts[k] <==>
        exists j :: 0 <= j < |TransitionsOf(transitions, order[k])| && a in OpAssigns(funcs, TransitionsOf(transitions, order[k])[j].operation)
    {
      var ts := TransitionsOf(transitions, order[k]);
      assert parts[k] == Flatten(TransitionParts(funcs, ts));
      assert forall i :: 0 <= i < |ts| ==> TransitionParts(funcs, ts)[i] == OpAssigns(funcs, ts[i].operation);
      FlattenMembers(TransitionParts(funcs, ts), a);
    }
  }

  /** Every selector assignment of the graph is collected, when the points
      listed are the graph's points. */
  lemma CollectedHasAssignments(funcs: map<FuncId, FuncSpec>, transitions: map<ExecutionPoint, seq<ExecutionTransition>>,
                                order: seq<ExecutionPoint>, p: ExecutionPoint, t: ExecutionTransition)
    requires forall q :: q in transitions <==> q in order
    requires p in transitions && t in transitions[p] && t.operation.AssignSelectorOp?
    ensures t.operation in CollectedAssigns(funcs, transitions, order)
  {
    var k :| 0 <= k < |order| && order[k] == p;
    var j :| 0 <= j < |transitions[p]| && transitions[p][j] == t;
    assert TransitionsOf(transitions, order[k]) == transitions[p];
    assert t.operation in OpAssigns(funcs, t.operation);
    CollectedMembers(funcs, transitions, order, t.operation);
  }

  lemma FlattenSnoc<X>(ss: seq<seq<X>>, i: nat)
    requires i < |ss|
    ensures Flatten(ss[..i + 1]) == Flatten(ss[..i]) + ss[i]
  {
    assert ss[..i + 1][..i] == ss[..i];
  }

  /** One step of an accumulating loop over `ss`. */
  lemma AccStep<X>(base: seq<X>, ss: seq<seq<X>>, i: nat, acc: seq<X>)
    requires i < |ss| && acc == base + Flatten(ss[..i])
    ensures acc + ss[i] == base + Flatten(ss[..i + 1])
  {
    FlattenSnoc(ss, i);
    assert acc + ss[i] == base + (Flatten(ss[..i]) + ss[i]);
  }

  /** The innermost loop: one assignment per returned reference. */
  method AppendRefs(assigns: seq<AssignSelector>, refs: FuncSingleOutput, to: VarId) returns (r: seq<AssignSelector>)
    ensures r == assigns + RefAssigns(refs, to)
  {
    r := assigns;
    for j := 0 to |refs|
      invariant r == assigns + RefAssigns(refs, to)[..j]
    {
      r := r + [AssignSelectorOp(refs[j].inputArgEmbed.varSelector, VarSelector(to, refs[j].inputArgEmbed.path))];
    }
    assert RefAssigns(refs, to)[..|refs|] == RefAssigns(refs, to);
  }

  /** The loop over the value slots of one outcome. A slot beyond the call's
      outputs panics as soon as it has a reference to place. */
  method AppendOutput(assigns: seq<AssignSelector>, output: FuncMultiOutput, outs: seq<VarId>) returns (r: Result<seq<AssignSelector>>)
    ensures r.Ok? <==> OutputCovered(output, outs)
    ensures r.Ok? ==> r.value == assigns + Flatten(OutputParts(output, outs))
  {
    ghost var parts := OutputParts(output, outs);
    var acc := assigns;
    for i := 0 to |output|
      invariant forall i' :: 0 <= i' < i && |output[i']| > 0 ==> i' < |outs|
      invariant acc == assigns + Flatten(parts[..i])
    {
      AccStep(assigns, parts, i, acc);
      if |output[i]| > 0 {
        if i >= |outs| {
          return Err("index out of range");
        }
        acc := AppendRefs(acc, output[i], outs[i]);
      } else {
        assert acc + parts[i] == acc;
      }
    }
    assert parts[..|output|] == parts;
    return Ok(acc);
  }

  /** The loop over the outcomes of a summary. */
  method AppendOutputs(assigns: seq<AssignSelector>, outputs: seq<FuncMultiOutput>, outs: seq<VarId>) returns (r: Result<seq<AssignSelector>>)
    ensures r.Ok? <==> OutputsCovered(outputs, outs)
    ensures r.Ok? ==> r.value == assigns + Flatten(OutputsParts(outputs, outs))
  {
    ghost var parts := OutputsParts(outputs, outs);
    var acc := assigns;
    for k := 0 to |outputs|
      invariant forall k' :: 0 <= k' < k ==> OutputCovered(outputs[k'], outs)
      invariant acc == assigns + Flatten(parts[..k])
    {
      AccStep(assigns, parts, k, acc);
      var more := AppendOutput(acc, outputs[k], outs);
      if more.Err? {
        return Err(more.msg);
      }
      acc := more.value;
    }
    assert parts[..|outputs|] == parts;
    return Ok(acc);
  }

  /** The body of the loop over the transitions of one point: a selector
      assignment is taken as it is, a call of a summarised function through
      its summary, a call of any other function and every other operation
      not at all. */
  method AppendOp(assigns: seq<AssignSelector>, funcs: map<FuncId, FuncSpec>, op: Operation)
    returns (r: Result<seq<AssignSelector>>)
    ensures r.Ok? <==> OpCovered(funcs, op)
    ensures r.Ok? ==> r.value == assigns + OpAssigns(funcs, op)
  {
    match op {
      case AssignSelectorOp(_, _) =>
        var a: AssignSelector := op;
        return Ok(assigns + [a]);
      case UseSelectorsOp(funcId, _, outs) =>
        if funcId in funcs {
          r := AppendOutputs(assigns, funcs[funcId].outputs, outs);
        } else {
          return Ok(assigns);
        }
      case _ =>
        return Ok(assigns);
    }
  }

  /** The loop over the transitions of one point. */
  method AppendTransitions(assigns: seq<AssignSelector>, funcs: map<FuncId, FuncSpec>, ts: seq<ExecutionTransition>)
    returns (r: Result<seq<AssignSelector>>)
    ensures r.Ok? <==> TransitionsCovered(funcs, ts)
    ensures r.Ok? ==> r.value == assigns + Flatten(TransitionParts(funcs, ts))
  {
    ghost var parts := TransitionParts(funcs, ts);
    var acc := assigns;
    for j := 0 to |ts|
      invariant forall j' :: 0 <= j' < j ==> OpCovered(funcs, ts[j'].operation)
      invariant acc == assigns + Flatten(parts[..j])
    {
      AccStep(assigns, parts, j, acc);
      var more := AppendOp(acc, funcs, ts[j].operation);
      if more.Err? {
        return Err(more.msg);
      }
      acc := more.value;
    }
    assert parts[..|ts|] == parts;
    return Ok(acc);
  }

  /** The collecting loops of SimplifyExecution, lines 12-35. */
  method CollectAssigns(funcs: map<FuncId, FuncSpec>, transitions: map<ExecutionPoint, seq<ExecutionTransition>>,
                        order: seq<ExecutionPoint>) returns (r: Result<seq<AssignSelector>>)
    ensures r.Ok? <==> PointsCovered(funcs, transitions, order)
    ensures r.Ok? ==> r.value == CollectedAssigns(funcs, transitions, order)
  {
    ghost var parts := PointParts(funcs, transitions, order);
    var acc: seq<AssignSelector> := [];
    for k := 0 to |order|
      invariant forall k' :: 0 <= k' < k ==> TransitionsCovered(funcs, TransitionsOf(transitions, order[k']))
      invariant acc == Flatten(parts[..k])
    {
      FlattenSnoc(parts, k);
      var more := AppendTransitions(acc, funcs, TransitionsOf(transitions, order[k]));
      if more.Err? {
        return Err(more.msg);
      }
      acc := more.value;
    }
    assert parts[..|order|] == parts;
    return Ok(acc);
  }

  /** SimplifyExecution as far as it goes: the assignments are collected
      (the points in the order Go's map iteration happens to give, `order`)
      and factorized, and then the function panics. */
  method SimplifyExecution(funcs: map<FuncId, FuncSpec>, execution: Execution, order: seq<ExecutionPoint>, budget: nat)
    returns (r: Result<Execution>)
    requires forall p :: p in execution.transitions <==> p in order
    requires forall i, j :: 0 <= i < j < |order| ==> order[i] != order[j]
    ensures r.Err?
  {
    var assigns := CollectAssigns(funcs, execution.transitions, order);
    if assigns.Err? {
      return Err(assigns.msg);
    }
    ghost var recorded;
    var factorization;
    factorization, recorded := FactorizeAssignments(assigns.value, budget);
    return Err("!");
  }

  // ---------------------------------------------------------------------
  // The selector ids

  /** Selector renderings mapped to dense ids: every id is below the number
      of entries, and no two entries share one. */
  predicate DenseIds(ids: map<string, VarId>)
  {
    (forall s :: s in ids ==> 0 <= ids[s] < |ids|)
    && (forall s, t :: s in ids && t in ids && ids[s] == ids[t] ==> s == t)
  }

  /** IntroduceVarOrGet as a value: the map afterwards, and the id. */
  function Introduced(ids: map<string, VarId>, selector: VarSelector): (map<string, VarId>, VarId)
  {
    var key := VarSelectorString(selector);
    if key in ids then (ids, ids[key]) else (ids[key := |ids|], |ids|)
  }

  /** Introducing keeps the ids dense and every id handed out before; the
      selector ends up mapped to the id returned, which is a new one, the
      number of entries so far, exactly when its rendering was unknown. */
  lemma IntroducedKeepsIds(ids: map<string, VarId>, selector: VarSelector)
    requires DenseIds(ids)
    ensures var (ids', v) := Introduced(ids, selector);
      DenseIds(ids') && VarSelectorString(selector) in ids' && ids'[VarSelectorString(selector)] == v
      && (forall s :: s in ids ==> s in ids' && ids'[s] == ids[s])
      && (VarSelectorString(selector) in ids <==> v < |ids|)
      && (VarSelectorString(selector) !in ids ==> v == |ids| && |ids'| == |ids| + 1)
  {
    var key := VarSelectorString(selector);
    if key !in ids {
      DenseAdd(ids, key);
    }
  }

  /** A new rendering takes the next id and keeps the ids dense. */
  lemma DenseAdd(ids: map<string, VarId>, key: string)
    requires DenseIds(ids) && key !in ids
    ensures DenseIds(ids[key := |ids|]) && |ids[key := |ids|]| == |ids| + 1
  {
    var ids' := ids[key := |ids|];
    assert ids'.Keys == ids.Keys + {key};
    assert |ids'| == |ids| + 1;
    forall s | s in ids' && s != key
      ensures ids'[s] == ids[s] < |ids|
    {
    }
    forall s, t | s in ids' && t in ids' && ids'[s] == ids'[t] && s != key && t != key
      ensures s == t
    {
      assert ids[s] == ids[t];
    }
  }

  /** Two selectors over plain field names get the same id exactly when
      they are the same selector. */
  lemma SameIdSameSelector(ids: map<string, VarId>, a: VarSelector, b: VarSelector)
    requires DenseIds(ids) && VarSelectorString(a) in ids && VarSelectorString(b) in ids
    requires PlainPath(a.selector) && PlainPath(b.selector)
    ensures ids[VarSelectorString(a)] == ids[VarSelectorString(b)] <==> a == b
  {
    if ids[VarSelectorString(a)] == ids[VarSelectorString(b)] {
      VarSelectorStringInjective(a, b);
    }
  }

  /** varSelectorCollection: a selector's rendering is its identity. */
  class VarSelectorCollection {
    var ids: map<string, VarId>

    ghost predicate Valid()
      reads this
    {
      DenseIds(ids)
    }

    constructor ()
      ensures Valid() && ids == map[]
    {
      ids := map[];
    }

    /** Lines 87-96. */
    method IntroduceVarOrGet(selector: VarSelector) returns (v: VarId)
      requires Valid()
      modifies this
      ensures Valid()
      ensures (ids, v) == Introduced(old(ids), selector)
    {
      IntroducedKeepsIds(ids, selector);
      var key := VarSelectorString(selector);
      if key in ids {
        return ids[key];
      }
      v := |ids|;
      ids := ids[key := v];
    }
  }

  // ---------------------------------------------------------------------
  // The point images

  /** Original points mapped to points of the new graph that were handed out
      already (not the root, at most `last`), no two the same. */
  predicate FreshImages(images: map<ExecutionPoint, ExecutionPoint>, last: ExecutionPoint)
  {
    (forall q :: q in images ==> 0 < images[q] <= last)
    && (forall q, q' :: q in images && q' in images && images[q] == images[q'] ==> q == q')
  }

  /** AcquireOrGet as a value: the map afterwards and the last point handed
      out afterwards. */
  function Acquired(images: map<ExecutionPoint, ExecutionPoint>, last: ExecutionPoint, point: ExecutionPoint)
    : (r: (map<ExecutionPoint, ExecutionPoint>, ExecutionPoint))
    ensures point in r.0
  {
    if point in images then (images, last) else (images[point := last + 1], last + 1)
  }

  /** Acquiring keeps the images fresh and every image made before; a point
      met for the first time gets the point handed out next. */
  lemma AcquiredKeepsImages(images: map<ExecutionPoint, ExecutionPoint>, last: ExecutionPoint, point: ExecutionPoint)
    requires FreshImages(images, last) && 0 <= last
    ensures var (images', last') := Acquired(images, last, point);
      FreshImages(images', last') && last <= last' <= last + 1
      && (forall q :: q in images ==> q in images' && images'[q] == images[q])
      && (point !in images ==> images'[point] == last' == last + 1)
  {
  }

  /** Asking twice for the same point gives the same image, and the second
      request hands out nothing. */
  lemma AcquiredTwice(images: map<ExecutionPoint, ExecutionPoint>, last: ExecutionPoint, point: ExecutionPoint)
    ensures var (images1, last1) := Acquired(images, last, point);
      var (images2, last2) := Acquired(images1, last1, point);
      images2 == images1 && last2 == last1 && images2[point] == images1[point]
  {
  }

  /** executionPointCollection */
  class ExecutionPointCollection {
    var images: map<ExecutionPoint, ExecutionPoint>

    constructor ()
      ensures images == map[]
    {
      images := map[];
    }

    /** Lines 100-105. */
    method AcquireOrGet(b: ExecutionBuilder, point: ExecutionPoint) returns (p: ExecutionPoint)
      modifies this, b.lastPoint
      ensures (images, b.lastPoint.last) == Acquired(old(images), old(b.lastPoint.last), point)
      ensures p == images[point]
    {
      if point !in images {
        var acquired := AcquirePoint(b);
        images := images[point := acquired.currentPoint];
      }
      p := images[point];
    }
  }

  // ---------------------------------------------------------------------
  // The per-point rewrite

  /** What the rewrite works on: the new graph, the point the builder
      stands at, the selector ids and the point images. */
  datatype SimpState = SimpState(
    g: FromAst.Graph, cur: ExecutionPoint, ids: map<string, VarId>, images: map<ExecutionPoint, ExecutionPoint>)

  /** The loop over positional pairs, lines 73-77: each pair's two ids, then
      one assignment between them from where the builder stands to a new
      point, where the builder then stands. */
  function EmitPairs(s: SimpState, from: seq<VarSelector>, to: seq<VarSelector>): (r: SimpState)
    requires |from| == |to|
    ensures r.images == s.images
    decreases |from|
  {
    if |from| == 0 then s
    else EmitPairs(PairStep(s, from[0], to[0]), from[1..], to[1..])
  }

  /** One pair: the ids of both selectors introduced, then one AssignVarOp
      between them to a fresh point. */
  function PairStep(s: SimpState, from: VarSelector, to: VarSelector): (r: SimpState)
    ensures r.images == s.images && r.g.last == s.g.last + 1 && r.cur == r.g.last
    ensures VarSelectorString(from) in r.ids && VarSelectorString(to) in r.ids
  {
    var (ids1, a) := Introduced(s.ids, from);
    var (ids2, b) := Introduced(ids1, to);
    var n := FromAst.Next(s.g, s.cur, AssignVarOp(a, b, ExecutionGraph.SameGen));
    SimpState(n.g, n.cur, ids2, s.images)
  }

  /** The assignments between the ids the selectors of each pair end up
      with. */
  function PairOps(ids: map<string, VarId>, from: seq<VarSelector>, to: seq<VarSelector>): seq<Operation>
    requires |from| == |to|
    requires forall i :: 0 <= i < |from| ==> VarSelectorString(from[i]) in ids && VarSelectorString(to[i]) in ids
  {
    seq(|from|, i requires 0 <= i < |from| =>
      AssignVarOp(ids[VarSelectorString(from[i])], ids[VarSelectorString(to[i])], ExecutionGraph.SameGen))
  }

  /** Emitting the pairs keeps the ids dense and every id handed out
      before, gives every selector of the pairs an id, and builds a chain
      with one assignment per pair, in order, between the ids of the pair's
      selectors. */
  lemma {:induction false} EmitPairsChain(s: SimpState, from: seq<VarSelector>, to: seq<VarSelector>)
    requires |from| == |to| && DenseIds(s.ids)
    ensures var r := EmitPairs(s, from, to);
      && DenseIds(r.ids) && r.images == s.images
      && (forall key :: key in s.ids ==> key in r.ids && r.ids[key] == s.ids[key])
      && (forall i :: 0 <= i < |from| ==> VarSelectorString(from[i]) in r.ids && VarSelectorString(to[i]) in r.ids)
      && FromAst.GraphAt(r.g, r.cur) == FromAst.ApplyAll(s.g, s.cur, PairOps(r.ids, from, to))
    decreases |from|
  {
    if |from| > 0 {
      var (ids1, a) := Introduced(s.ids, from[0]);
      IntroducedKeepsIds(s.ids, from[0]);
      var (ids2, b) := Introduced(ids1, to[0]);
      IntroducedKeepsIds(ids1, to[0]);
      var op := AssignVarOp(a, b, ExecutionGraph.SameGen);
      var n := FromAst.Next(s.g, s.cur, op);
      var s' := SimpState(n.g, n.cur, ids2, s.images);
      EmitPairsChain(s', from[1..], to[1..]);
      var r := EmitPairs(s', from[1..], to[1..]);
      assert VarSelectorString(from[0]) in r.ids && VarSelectorString(to[0]) in r.ids;
      PairsKeyed(r.ids, from, to);
      PairOpsHead(r.ids, from, to);
      assert r.ids[VarSelectorString(from[0])] == a && r.ids[VarSelectorString(to[0])] == b;
    }
  }

  lemma PairsKeyed(ids: map<string, VarId>, from: seq<VarSelector>, to: seq<VarSelector>)
    requires |from| == |to| > 0
    requires VarSelectorString(from[0]) in ids && VarSelectorString(to[0]) in ids
    requires forall i :: 0 <= i < |from| - 1 ==> VarSelectorString(from[1..][i]) in ids && VarSelectorString(to[1..][i]) in ids
    ensures forall i :: 0 <= i < |from| ==> VarSelectorString(from[i]) in ids && VarSelectorString(to[i]) in ids
  {
    forall i | 0 < i < |from| ensures VarSelectorString(from[i]) in ids && VarSelectorString(to[i]) in ids {
      assert from[1..][i - 1] == from[i] && to[1..][i - 1] == to[i];
    }
  }

  lemma PairOpsHead(ids: map<string, VarId>, from: seq<VarSelector>, to: seq<VarSelector>)
    requires |from| == |to| > 0
    requires forall i :: 0 <= i < |from| ==> VarSelectorString(from[i]) in ids && VarSelectorString(to[i]) in ids
    ensures PairOps(ids, from, to)[0] == AssignVarOp(ids[VarSelectorString(from[0])], ids[VarSelectorString(to[0])], ExecutionGraph.SameGen)
    ensures PairOps(ids, from, to)[1..] == PairOps(ids, from[1..], to[1..])
  {
  }

  /** Both sides of an assignment factorize, into as many selectors. */
  predicate Consistent(rules: FactorizationRules, op: Operation)
    requires op.AssignSelectorOp?
  {
    var from := Factorized(rules, op.fromSelector);
    var to := Factorized(rules, op.toSelector);
    from.Ok? && to.Ok? && |from.value| == |to.value|
  }

  /** The assignment case, lines 69-77: both sides factorized, then one
      assignment per positional pair; sides of different lengths are the
      Assertf of line 72. */
  function AssignStep(rules: FactorizationRules, s: SimpState, op: Operation): (r: Result<SimpState>)
    requires op.AssignSelectorOp?
    ensures r.Ok? <==> Consistent(rules, op)
    ensures r.Ok? ==> r.value.images == s.images
  {
    var from :- Factorized(rules, op.fromSelector);
    var to :- Factorized(rules, op.toSelector);
    if |from| != |to| then Err("inconsistent assignment operator factorization")
    else Ok(EmitPairs(s, from, to))
  }

  /** One transition of the point, lines 67-81: its target's image, acquired
      on first sight; the assignments of its operation from where the
      builder stands; a NoOp edge from there to the image. The builder that
      edge returns is dropped, so the builder stays where the assignments
      left it; an edge from a point to itself is refused. */
  function TransitionStep(rules: FactorizationRules, s: SimpState, t: ExecutionTransition): Result<SimpState>
  {
    var (images, last) := Acquired(s.images, s.g.last, t.toPoint);
    var acquired := SimpState(FromAst.Graph(last, s.g.transitions), s.cur, s.ids, images);
    var emitted :- if t.operation.AssignSelectorOp? then AssignStep(rules, acquired, t.operation) else Ok(acquired);
    var to := images[t.toPoint];
    if emitted.cur == to then Err("connection points must be different")
    else Ok(emitted.(g := FromAst.Connect(emitted.g, emitted.cur, to)))
  }

  /** The loop over the transitions of the point. */
  function StepAll(rules: FactorizationRules, s: SimpState, ts: seq<ExecutionTransition>): Result<SimpState>
    decreases |ts|
  {
    if |ts| == 0 then Ok(s)
    else
      var next :- TransitionStep(rules, s, ts[0]);
      StepAll(rules, next, ts[1..])
  }

  /** The rewrite state is sound: dense ids, fresh images, and the builder
      at a point handed out already. */
  predicate Sound(s: SimpState)
  {
    DenseIds(s.ids) && FreshImages(s.images, s.g.last) && 0 <= s.cur <= s.g.last
  }

  /** `r` grows out of `s`: no point taken back, every id and every image
      made before kept. */
  predicate Extends(s: SimpState, r: SimpState)
  {
    && s.g.last <= r.g.last
    && (forall key :: key in s.ids ==> key in r.ids && r.ids[key] == s.ids[key])
    && (forall q :: q in s.images ==> q in r.images && r.images[q] == s.images[q])
  }

  /** An assignment that factorizes consistently keeps the state sound and
      only adds to it. */
  lemma AssignStepKeeps(rules: FactorizationRules, s: SimpState, op: Operation)
    requires Sound(s) && op.AssignSelectorOp?
    ensures var r := AssignStep(rules, s, op);
      r.Ok? ==> Sound(r.value) && Extends(s, r.value)
  {
    if Consistent(rules, op) {
      var from := Factorized(rules, op.fromSelector).value;
      var to := Factorized(rules, op.toSelector).value;
      EmitPairsChain(s, from, to);
    }
  }

  /** One transition keeps the state sound and every id and image made
      before, gives the target an image, and succeeds only when its
      assignment, if any, factorizes consistently. */
  lemma TransitionStepKeeps(rules: FactorizationRules, s: SimpState, t: ExecutionTransition)
    requires Sound(s)
    ensures var r := TransitionStep(rules, s, t);
      r.Ok? ==>
        && Sound(r.value) && Extends(s, r.value)
        && t.toPoint in r.value.images
        && (t.operation.AssignSelectorOp? ==> Consistent(rules, t.operation))
  {
    AcquiredKeepsImages(s.images, s.g.last, t.toPoint);
    var (images, last) := Acquired(s.images, s.g.last, t.toPoint);
    var acquired := SimpState(FromAst.Graph(last, s.g.transitions), s.cur, s.ids, images);
    assert Sound(acquired) && Extends(s, acquired);
    if t.operation.AssignSelectorOp? {
      AssignStepKeeps(rules, acquired, t.operation);
    }
  }

  /** One transition ends with a NoOp edge from the point its rewrite
      reached to the image of its target, and that image is another point;
      every other point keeps its transitions. */
  lemma TransitionStepConnects(rules: FactorizationRules, s: SimpState, t: ExecutionTransition)
    ensures var r := TransitionStep(rules, s, t);
      r.Ok? ==>
        && t.toPoint in r.value.images && r.value.cur != r.value.images[t.toPoint]
        && var out := TransitionsOf(r.value.g.transitions, r.value.cur);
           |out| > 0 && out[|out| - 1] == ExecutionTransition(r.value.images[t.toPoint], NoOp)
  {
    var r := TransitionStep(rules, s, t);
    if r.Ok? {
      var (images, last) := Acquired(s.images, s.g.last, t.toPoint);
      var acquired := SimpState(FromAst.Graph(last, s.g.transitions), s.cur, s.ids, images);
      var emitted := if t.operation.AssignSelectorOp? then AssignStep(rules, acquired, t.operation) else Ok(acquired);
      assert emitted.Ok? && r.value == emitted.value.(g := FromAst.Connect(emitted.value.g, emitted.value.cur, images[t.toPoint]));
      ConnectEndsWithNoOp(emitted.value, images[t.toPoint]);
    }
  }

  /** Joining the rewrite's point to `to` puts a NoOp edge last on it. */
  lemma ConnectEndsWithNoOp(e: SimpState, to: ExecutionPoint)
    ensures var out := TransitionsOf(FromAst.Connect(e.g, e.cur, to).transitions, e.cur);
      |out| > 0 && out[|out| - 1] == ExecutionTransition(to, NoOp)
  {
    AddTransitionEffect(e.g.transitions, e.cur, ExecutionTransition(to, NoOp));
  }

  /** The whole point: the state stays sound, ids and images only grow,
      every target gets an image, and the rewrite succeeds only when every
      assignment of the point factorizes consistently. */
  lemma {:induction false} StepAllKeeps(rules: FactorizationRules, s: SimpState, ts: seq<ExecutionTransition>)
    requires Sound(s)
    ensures var r := StepAll(rules, s, ts);
      r.Ok? ==>
        && Sound(r.value) && Extends(s, r.value)
        && (forall j :: 0 <= j < |ts| ==> ts[j].toPoint in r.value.images)
        && (forall j :: 0 <= j < |ts| && ts[j].operation.AssignSelectorOp? ==> Consistent(rules, ts[j].operation))
    decreases |ts|
  {
    if |ts| > 0 {
      TransitionStepKeeps(rules, s, ts[0]);
      var next := TransitionStep(rules, s, ts[0]);
      if next.Ok? {
        StepAllKeeps(rules, next.value, ts[1..]);
        forall j | 0 < j < |ts| ensures ts[j] == ts[1..][j - 1] {
        }
      }
    }
  }

  /** simplificationContext: the summaries, the rules, the original graph,
      the two collections and the visited points. */
  class SimplificationWalk {
    const funcs: map<FuncId, FuncSpec>
    const factorization: FactorizationRules
    const execution: Execution
    const vars: VarSelectorCollection
    const points: ExecutionPointCollection
    var visited: set<ExecutionPoint>

    constructor (funcs: map<FuncId, FuncSpec>, factorization: FactorizationRules, execution: Execution)
      ensures this.funcs == funcs && this.factorization == factorization && this.execution == execution
      ensures fresh(vars) && fresh(points) && vars.Valid() && vars.ids == map[] && points.images == map[]
      ensures visited == {}
    {
      this.funcs := funcs;
      this.factorization := factorization;
      this.execution := execution;
      vars := new VarSelectorCollection();
      points := new ExecutionPointCollection();
      visited := {};
    }

    ghost function StateOf(b: ExecutionBuilder): SimpState
      reads b.lastPoint, b.execution, vars, points
    {
      SimpState(FromAst.GraphOf(b), b.currentPoint, vars.ids, points.images)
    }

    /** The pairs of one assignment, as EmitPairs describes. */
    method EmitAssignments(b: ExecutionBuilder, from: seq<VarSelector>, to: seq<VarSelector>) returns (next: ExecutionBuilder)
      requires vars.Valid() && FromAst.Sane(b) && |from| == |to|
      modifies vars, b.lastPoint, b.execution
      ensures vars.Valid() && FromAst.Shares(next, b) && FromAst.Sane(next)
      ensures StateOf(next) == EmitPairs(old(StateOf(b)), from, to)
    {
      next := b;
      for i := 0 to |from|
        invariant vars.Valid() && FromAst.Shares(next, b) && FromAst.Sane(next)
        invariant EmitPairs(old(StateOf(b)), from, to) == EmitPairs(StateOf(next), from[i..], to[i..])
      {
        next := EmitPair(next, from[i], to[i]);
        assert from[i..][1..] == from[i + 1..] && to[i..][1..] == to[i + 1..];
      }
    }

    /** One pair of the assignment, lines 74-76. */
    method EmitPair(b: ExecutionBuilder, from: VarSelector, to: VarSelector) returns (next: ExecutionBuilder)
      requires vars.Valid() && FromAst.Sane(b)
      modifies vars, b.lastPoint, b.execution
      ensures vars.Valid() && FromAst.Shares(next, b) && FromAst.Sane(next)
      ensures StateOf(next) == PairStep(old(StateOf(b)), from, to)
    {
      ghost var before := StateOf(b);
      var fromVar := vars.IntroduceVarOrGet(from);
      var toVar := vars.IntroduceVarOrGet(to);
      next := ApplyNext(b, AssignVarOp(fromVar, toVar, ExecutionGraph.SameGen));
      ghost var n := FromAst.Next(before.g, before.cur, AssignVarOp(fromVar, toVar, ExecutionGraph.SameGen));
      assert next.lastPoint.last == n.g.last && next.currentPoint == n.cur;
      assert next.execution.transitions == n.g.transitions;
      assert points.images == before.images;
    }

    /** One transition, as TransitionStep describes; on success, the
        builder where the assignments left it. */
    method SimplifyTransition(b: ExecutionBuilder, t: ExecutionTransition) returns (r: Result<ExecutionBuilder>)
      requires vars.Valid() && FromAst.Sane(b)
      modifies vars, points, b.lastPoint, b.execution
      ensures vars.Valid()
      ensures var o := TransitionStep(factorization, old(StateOf(b)), t);
        (r.Ok? <==> o.Ok?)
        && (r.Ok? ==> FromAst.Shares(r.value, b) && FromAst.Sane(r.value) && StateOf(r.value) == o.value)
    {
      var toPoint := points.AcquireOrGet(b, t.toPoint);
      var builder := b;
      match t.operation {
        case AssignSelectorOp(fromSelector, toSelector) =>
          var fromSelectors := FactorizeSelector(factorization, fromSelector);
          if fromSelectors.Err? {
            return Err(fromSelectors.msg);
          }
          var toSelectors := FactorizeSelector(factorization, toSelector);
          if toSelectors.Err? {
            return Err(toSelectors.msg);
          }
          if |fromSelectors.value| != |toSelectors.value| {
            return Err("inconsistent assignment operator factorization");
          }
          builder := EmitAssignments(builder, fromSelectors.value, toSelectors.value);
        case _ =>
      }
      if builder.currentPoint == toPoint {
        return Err("connection points must be different");
      }
      var connected := ConnectTo(builder, toPoint);
      return Ok(builder);
    }

    /** simplifyExecution(builder, point), lines 55-83: a visited point is
        left alone; otherwise it is marked, and each of its transitions is
        rewritten in turn as TransitionStep describes. The walk does not go
        on to the targets. */
    method SimplifyPoint(b: ExecutionBuilder, point: ExecutionPoint) returns (r: Result<()>)
      requires vars.Valid() && FromAst.Sane(b)
      modifies this, vars, points, b.lastPoint, b.execution
      ensures vars.Valid()
      ensures visited == old(visited) + {point}
      ensures point in old(visited) || point !in execution.transitions ==>
        r.Ok? && unchanged(vars, points, b.lastPoint, b.execution)
      ensures point !in old(visited) && point in execution.transitions ==>
        var o := StepAll(factorization, old(StateOf(b)), execution.transitions[point]);
        (r.Ok? <==> o.Ok?)
        && (r.Ok? ==> FromAst.GraphOf(b) == o.value.g && vars.ids == o.value.ids && points.images == o.value.images)
    {
      if point in visited {
        return Ok(());
      }
      visited := visited + {point};
      if point !in execution.transitions {
        return Ok(());
      }
      var transitions := execution.transitions[point];
      var builder := b;
      for k := 0 to |transitions|
        invariant visited == old(visited) + {point}
        invariant vars.Valid() && FromAst.Shares(builder, b) && FromAst.Sane(builder)
        invariant StepAll(factorization, old(StateOf(b)), transitions) == StepAll(factorization, StateOf(builder), transitions[k..])
      {
        var step := SimplifyTransition(builder, transitions[k]);
        assert transitions[k..][1..] == transitions[k + 1..];
        if step.Err? {
          return Err(step.msg);
        }
        builder := step.value;
      }
      assert transitions[|transitions|..] == [];
      r := Ok(());
    }
  }
}
