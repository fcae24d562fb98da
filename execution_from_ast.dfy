/** The translator from a function's syntax tree to its control-flow graph.

    Each walker of the source is modelled twice: as a function over an
    abstract state (the graph built so far, the next fresh variable id and
    the contents of the scope frames) that says what the walker computes,
    and as a method over the shared builder and scope objects that does it
    step by step. Every method is proved to end in the state its function
    describes, and to fail exactly when the function fails. A Go panic or an
    Assertf the input can trigger is an `Err`. */
module FromAst {
  import opened Wrappers
  import opened ExecutionOps
  import opened ExecutionModel
  import opened ScopeTable
  import opened Builder
  import opened Ast

  type Transitions = map<ExecutionPoint, seq<ExecutionTransition>>

  /** The part of the state the builder holds: the last point handed out and
      the transitions. */
  datatype Graph = Graph(last: ExecutionPoint, transitions: Transitions)

  /** A graph and the point a builder stands at. */
  datatype GraphAt = GraphAt(g: Graph, cur: ExecutionPoint)

  /** The whole state: the graph, the next fresh variable id and the scope
      frames, outermost first. */
  datatype St = St(g: Graph, nextVar: VarId, env: seq<map<string, VarId>>)

  /** Where a statement leaves the translation. */
  datatype Cursor = Cursor(st: St, cur: ExecutionPoint)

  /** Where an expression leaves the translation, and its values. */
  datatype Values = Values(st: St, cur: ExecutionPoint, comps: seq<VarComposition>)

  /** What the expression walker returns: the builder and the values. */
  datatype ExprResult = ExprResult(builder: ExecutionBuilder, comps: seq<VarComposition>)

  // ---------------------------------------------------------------------
  // The abstract state of the objects

  ghost function GraphOf(b: ExecutionBuilder): Graph
    reads b.lastPoint, b.execution
  {
    Graph(b.lastPoint.last, b.execution.transitions)
  }

  ghost function Abs(b: ExecutionBuilder, s: Scopes): St
    reads b.lastPoint, b.execution, s.lastVarId, s.vars
  {
    St(GraphOf(b), s.lastVarId.last, Bindings(s.vars))
  }

  /** The builder stands at a point already handed out. */
  ghost predicate Sane(b: ExecutionBuilder)
    reads b.lastPoint
  {
    b.currentPoint <= b.lastPoint.last
  }

  /** `next` shares the counter and the graph of `b`. */
  predicate Shares(next: ExecutionBuilder, b: ExecutionBuilder)
  {
    next.lastPoint == b.lastPoint && next.execution == b.execution
  }

  /** A walk from `cur` in `st` that ended at `cur'` in `st'` only handed out
      new points, and it ended either where it started or at a new point. */
  predicate Moves(st: St, cur: ExecutionPoint, st': St, cur': ExecutionPoint)
  {
    st.g.last <= st'.g.last && st.nextVar <= st'.nextVar && (cur' == cur || st.g.last < cur' <= st'.g.last)
  }

  // ---------------------------------------------------------------------
  // Emitting operations

  /** ApplyNext on the abstract graph: one transition labelled `op` from
      `cur` to a new point. */
  function Next(g: Graph, cur: ExecutionPoint, op: Operation): (r: GraphAt)
    ensures r.g.last == g.last + 1 && r.cur == r.g.last
  {
    GraphAt(Graph(g.last + 1, AddTransition(g.transitions, cur, ExecutionTransition(g.last + 1, op))), g.last + 1)
  }

  /** ConnectTo on the abstract graph: a NoOp transition from `cur` to `to`. */
  function Connect(g: Graph, cur: ExecutionPoint, to: ExecutionPoint): Graph
  {
    g.(transitions := AddTransition(g.transitions, cur, ExecutionTransition(to, NoOp)))
  }

  /** ApplyNext with each operation of `ops` in turn. */
  function ApplyAll(g: Graph, cur: ExecutionPoint, ops: seq<Operation>): (r: GraphAt)
    ensures r.g.last == g.last + |ops|
    ensures r.cur == if |ops| == 0 then cur else r.g.last
    decreases |ops|
  {
    if |ops| == 0 then GraphAt(g, cur)
    else
      var n := Next(g, cur, ops[0]);
      ApplyAll(n.g, n.cur, ops[1..])
  }

  /** ApplyAll builds a chain: its k-th operation leaves the k-th point of
      the chain (the start, then the points handed out in turn) for the
      next one. */
  lemma {:induction false} ApplyAllChain(g: Graph, cur: ExecutionPoint, ops: seq<Operation>, k: nat)
    requires cur <= g.last && k < |ops|
    ensures var from := if k == 0 then cur else g.last + k;
      TransitionsOf(ApplyAll(g, cur, ops).g.transitions, from)
        == TransitionsOf(g.transitions, from) + [ExecutionTransition(g.last + k + 1, ops[k])]
    decreases k
  {
    var n := Next(g, cur, ops[0]);
    AddTransitionEffect(g.transitions, cur, ExecutionTransition(g.last + 1, ops[0]));
    if k == 0 {
      ApplyAllUntouched(n.g, n.cur, ops[1..], cur);
    } else {
      ApplyAllChain(n.g, n.cur, ops[1..], k - 1);
      assert ops[1..][k - 1] == ops[k];
    }
  }

  /** ApplyAll leaves alone every point other than the start and the points
      it hands out. */
  lemma {:induction false} ApplyAllUntouched(g: Graph, cur: ExecutionPoint, ops: seq<Operation>, p: ExecutionPoint)
    requires p != cur && (p <= g.last || p > g.last + |ops|)
    ensures TransitionsOf(ApplyAll(g, cur, ops).g.transitions, p) == TransitionsOf(g.transitions, p)
    decreases |ops|
  {
    if |ops| > 0 {
      var n := Next(g, cur, ops[0]);
      AddTransitionEffect(g.transitions, cur, ExecutionTransition(g.last + 1, ops[0]));
      ApplyAllUntouched(n.g, n.cur, ops[1..], p);
    }
  }

  /** The assignments that store a composition into `sel`: one from blank
      when the composition is empty, otherwise one per embed, in order, each
      writing the embed's selector into `sel` extended by the embed's path. */
  function VarCompositionOps(sel: VarSelector, comps: VarComposition): (ops: seq<Operation>)
    ensures |comps| == 0 ==> ops == [AssignSelectorOp(VarSelector(BlankVarId, []), sel)]
    ensures |comps| > 0 ==> |ops| == |comps| && forall i :: 0 <= i < |comps| ==>
      ops[i] == AssignSelectorOp(comps[i].varSelector, VarSelector(sel.varId, sel.selector + comps[i].path))
  {
    if |comps| == 0 then [AssignSelectorOp(VarSelector(BlankVarId, []), sel)]
    else seq(|comps|, i requires 0 <= i < |comps| => AssignSelectorOp(comps[i].varSelector, VarSelector(sel.varId, sel.selector + comps[i].path)))
  }

  /** Stores a composition into `sel`, one transition per assignment. */
  method FromVarComposition(b: ExecutionBuilder, sel: VarSelector, comps: VarComposition) returns (next: ExecutionBuilder)
    requires Sane(b)
    modifies b.lastPoint, b.execution
    ensures Shares(next, b) && Sane(next)
    ensures GraphAt(GraphOf(next), next.currentPoint) == ApplyAll(old(GraphOf(b)), b.currentPoint, VarCompositionOps(sel, comps))
  {
    ghost var ops := VarCompositionOps(sel, comps);
    next := b;
    if |comps| == 0 {
      next := ApplyNext(next, AssignSelectorOp(VarSelector(BlankVarId, []), sel));
      return;
    }
    ghost var spec := ApplyAll(GraphOf(b), b.currentPoint, ops);
    ghost var at := GraphAt(GraphOf(b), b.currentPoint);
    assert ops[0..] == ops;
    for i := 0 to |comps|
      invariant Shares(next, b) && Sane(next)
      invariant GraphOf(next) == at.g && next.currentPoint == at.cur
      invariant spec == ApplyAll(at.g, at.cur, ops[i..])
    {
      var op := AssignSelectorOp(comps[i].varSelector, VarSelector(sel.varId, sel.selector + comps[i].path));
      assert ops[i..][0] == op && ops[i..][1..] == ops[i + 1..];
      at := Next(at.g, at.cur, op);
      next := ApplyNext(next, op);
    }
    assert ops[|comps|..] == [];
  }

  // ---------------------------------------------------------------------
  // Expressions

  /** `n` values that come from nowhere. */
  function Blanks(n: nat): (r: seq<VarComposition>)
    ensures |r| == n
    ensures forall i :: 0 <= i < n ==> r[i] == [VarEmbed([], VarSelector(BlankVarId, []))]
  {
    seq(n, _ => [VarEmbed([], VarSelector(BlankVarId, []))])
  }

  /** The variable a name resolves to, blank when it is not bound. */
  function LookupOrBlank(env: seq<map<string, VarId>>, name: string): VarId
  {
    match Lookup(env, name)
    case Some(v) => v
    case None => BlankVarId
  }

  /** The first embed of a composition that selects field `name`, selected. */
  function FirstSelect(comp: VarComposition, name: string): (r: Option<VarEmbed>)
    ensures r.Some? <==> exists i :: 0 <= i < |comp| && Select(comp[i], name).Some?
    ensures r.Some? ==>
      exists i :: 0 <= i < |comp| && Select(comp[i], name) == r && forall j :: 0 <= j < i ==> Select(comp[j], name).None?
  {
    if |comp| == 0 then None
    else if Select(comp[0], name).Some? then Select(comp[0], name)
    else
      var r := FirstSelect(comp[1..], name);
      assert forall i :: 1 <= i < |comp| ==> comp[i] == comp[1..][i - 1];
      r
  }

  /** Fresh variables `first`, `first + 1`, ... */
  function FreshIds(first: VarId, n: nat): (ids: seq<VarId>)
    ensures |ids| == n && forall i :: 0 <= i < n ==> ids[i] == first + i
  {
    seq(n, i => first + i)
  }

  /** The first fresh id, then the rest. */
  lemma FreshIdsCons(first: VarId, n: nat)
    requires n > 0
    ensures FreshIds(first, n) == [first] + FreshIds(first + 1, n - 1)
  {
  }

  /** The fresh ids so far, then one more. */
  lemma FreshIdsSnoc(first: VarId, n: nat, id: VarId)
    requires id == first + n
    ensures FreshIds(first, n + 1) == FreshIds(first, n) + [id]
  {
  }

  /** Each variable as a value of its own. */
  function Singletons(ids: seq<VarId>): (r: seq<VarComposition>)
    ensures |r| == |ids| && forall i :: 0 <= i < |ids| ==> r[i] == [VarEmbed([], VarSelector(ids[i], []))]
  {
    seq(|ids|, i requires 0 <= i < |ids| => [VarEmbed([], VarSelector(ids[i], []))])
  }

  /** `e` translated for `n` values.
      Shape: FromAstProperties.CallEmitsOneUse, UnknownCallIsInert, TwoIndexSliceIsTransparent and MaxSliceEmitsOneUse; FromAstJoins.ExprAdds. */
  function ExprSpec(st: St, cur: ExecutionPoint, funcs: map<string, FuncId>, e: Expr, n: nat): (r: Result<Values>)
    decreases ExprSize(e), 0
    ensures r.Ok? ==> Moves(st, cur, r.value.st, r.value.cur) && r.value.st.env == st.env
    ensures r.Ok? ==> |r.value.comps| == n || |r.value.comps| == 1
    ensures r.Ok? && n == 1 ==> |r.value.comps| == 1
  {
    match e
    case ParenExpr(x) => ExprSpec(st, cur, funcs, x, n)
    case Ident(name) =>
      if n != 1 then Err("unexpected multi-output expression")
      else Ok(Values(st, cur, [[VarEmbed([], VarSelector(LookupOrBlank(st.env, name), []))]]))
    case SelectorExpr(x, sel) =>
      var v :- ExprSpec(st, cur, funcs, x, 1);
      var selected := FirstSelect(v.comps[0], sel);
      Ok(v.(comps := if selected.Some? then [[selected.value]] else Blanks(n)))
    case CallExpr(fun, args) =>
      if fun.Ident? && fun.name in funcs then CallSpec(st, cur, funcs, funcs[fun.name], args, n)
      else Ok(Values(st, cur, Blanks(n)))
    case SliceExpr(x, hasMax) =>
      if !hasMax then ExprSpec(st, cur, funcs, x, 1)
      else if SliceFuncName !in funcs then Err("unable to find func in the scope")
      else
        assert ExprsSize([x]) == ExprSize(x) by { assert [x][1..] == []; }
        CallSpec(st, cur, funcs, funcs[SliceFuncName], [x], n)
    case BadExpr => Err("unexpected expression")
    case _ => Ok(Values(st, cur, Blanks(n)))
  }

  /** A call of function `id`: its arguments in order, then one transition
      using them, with `n` fresh output variables.
      Shape: FromAstProperties.CallEmitsOneUse and CallWithoutArguments; FromAstJoins.CallAdds. */
  function CallSpec(st: St, cur: ExecutionPoint, funcs: map<string, FuncId>, id: FuncId, args: seq<Expr>, n: nat): (r: Result<Values>)
    decreases ExprsSize(args), 2
    ensures r.Ok? ==> Moves(st, cur, r.value.st, r.value.cur) && r.value.st.env == st.env
    ensures r.Ok? ==> r.value.cur == r.value.st.g.last && st.g.last < r.value.cur
    ensures r.Ok? ==> r.value.comps == Singletons(FreshIds(r.value.st.nextVar - n, n))
  {
    var a :- ArgsSpec(st, cur, funcs, args);
    var ids := FreshIds(a.st.nextVar, n);
    var g := Next(a.st.g, a.cur, UseSelectorsOp(id, a.comps, ids));
    Ok(Values(St(g.g, a.st.nextVar + n, a.st.env), g.cur, Singletons(ids)))
  }

  /** Call arguments, one value each, left to right.
      Shape: FromAstJoins.ArgsAdds. */
  function ArgsSpec(st: St, cur: ExecutionPoint, funcs: map<string, FuncId>, args: seq<Expr>): (r: Result<Values>)
    decreases ExprsSize(args), 1
    ensures r.Ok? ==> Moves(st, cur, r.value.st, r.value.cur) && r.value.st.env == st.env
    ensures r.Ok? ==> |r.value.comps| == |args|
  {
    if |args| == 0 then Ok(Values(st, cur, []))
    else
      var v :- ExprSpec(st, cur, funcs, args[0], 1);
      var rest :- ArgsSpec(v.st, v.cur, funcs, args[1..]);
      Ok(rest.(comps := [v.comps[0]] + rest.comps))
  }

  /** `r` with `pre` in front of its values. */
  function PrependValues(pre: seq<VarComposition>, r: Result<Values>): Result<Values>
  {
    if r.Ok? then Ok(r.value.(comps := pre + r.value.comps)) else r
  }

  lemma PrependValuesTwice(pre: seq<VarComposition>, more: seq<VarComposition>, r: Result<Values>)
    ensures PrependValues(pre, PrependValues(more, r)) == PrependValues(pre + more, r)
  {
    if r.Ok? {
      assert pre + (more + r.value.comps) == (pre + more) + r.value.comps;
    }
  }

  /** The expression walker's result matches `spec`: both fail, or the
      builder (sharing `b`'s objects) stands where `spec` says, in the state
      it says, with the values it says. */
  ghost predicate ExprLands(r: Result<ExprResult>, b: ExecutionBuilder, s: Scopes, spec: Result<Values>)
    reads b.lastPoint, b.execution, s.lastVarId, s.vars
  {
    && (r.Ok? <==> spec.Ok?)
    && (r.Ok? ==>
          && Shares(r.value.builder, b) && Sane(r.value.builder)
          && Abs(r.value.builder, s) == spec.value.st
          && r.value.builder.currentPoint == spec.value.cur
          && r.value.comps == spec.value.comps)
  }

  method TranslateExpr(b: ExecutionBuilder, s: Scopes, e: Expr, n: nat) returns (r: Result<ExprResult>)
    requires Sane(b) && ScopeTable.Valid(s)
    modifies b.lastPoint, b.execution, s.lastVarId
    decreases ExprSize(e), 0
    ensures ScopeTable.Valid(s)
    ensures ExprLands(r, b, s, ExprSpec(old(Abs(b, s)), b.currentPoint, s.funcs, e, n))
  {
    match e
    case ParenExpr(x) =>
      r := TranslateExpr(b, s, x, n);
    case Ident(name) =>
      if n != 1 {
        return Err("unexpected multi-output expression");
      }
      var id := GetVarOrBlank(s, name);
      r := Ok(ExprResult(b, [[VarEmbed([], VarSelector(id, []))]]));
    case SelectorExpr(x, sel) =>
      var v := TranslateExpr(b, s, x, 1);
      if v.Err? {
        return Err(v.msg);
      }
      var comp := v.value.comps[0];
      var i := 0;
      while i < |comp|
        invariant 0 <= i <= |comp|
        invariant FirstSelect(comp, sel) == FirstSelect(comp[i..], sel)
      {
        var selected := Select(comp[i], sel);
        if selected.Some? {
          return Ok(ExprResult(v.value.builder, [[selected.value]]));
        }
        assert comp[i..][1..] == comp[i + 1..];
        i := i + 1;
      }
      r := Ok(ExprResult(v.value.builder, Blanks(n)));
    case CallExpr(fun, args) =>
      if fun.Ident? {
        var f := TryGetFunc(s, fun.name);
        if f.Some? {
          r := TranslateCall(b, s, f.value, args, n);
          return;
        }
      }
      r := Ok(ExprResult(b, Blanks(n)));
    case SliceExpr(x, hasMax) =>
      if !hasMax {
        r := TranslateExpr(b, s, x, 1);
        return;
      }
      var f := GetFunc(s, SliceFuncName);
      if f.Err? {
        return Err(f.msg);
      }
      assert ExprsSize([x]) == ExprSize(x) by { assert [x][1..] == []; }
      r := TranslateCall(b, s, f.value, [x], n);
    case BadExpr =>
      r := Err("unexpected expression");
    case _ =>
      r := Ok(ExprResult(b, Blanks(n)));
  }

  method TranslateCall(b: ExecutionBuilder, s: Scopes, id: FuncId, args: seq<Expr>, n: nat) returns (r: Result<ExprResult>)
    requires Sane(b) && ScopeTable.Valid(s)
    modifies b.lastPoint, b.execution, s.lastVarId
    decreases ExprsSize(args), 2
    ensures ScopeTable.Valid(s)
    ensures ExprLands(r, b, s, CallSpec(old(Abs(b, s)), b.currentPoint, s.funcs, id, args, n))
  {
    ghost var st0 := Abs(b, s);
    var cb := b;
    var inputs: seq<VarComposition> := [];
    assert args[0..] == args;
    assert PrependValues([], ArgsSpec(st0, b.currentPoint, s.funcs, args)) == ArgsSpec(st0, b.currentPoint, s.funcs, args) by {
      var a := ArgsSpec(st0, b.currentPoint, s.funcs, args);
      if a.Ok? { assert [] + a.value.comps == a.value.comps; }
    }
    for i := 0 to |args|
      invariant Shares(cb, b) && Sane(cb) && ScopeTable.Valid(s)
      invariant ArgsSpec(st0, b.currentPoint, s.funcs, args)
        == PrependValues(inputs, ArgsSpec(Abs(cb, s), cb.currentPoint, s.funcs, args[i..]))
    {
      ExprBelowSum(args, i);
      assert args[i..][0] == args[i] && args[i..][1..] == args[i + 1..];
      var v := TranslateExpr(cb, s, args[i], 1);
      if v.Err? {
        return Err(v.msg);
      }
      PrependValuesTwice(inputs, [v.value.comps[0]], ArgsSpec(Abs(v.value.builder, s), v.value.builder.currentPoint, s.funcs, args[i + 1..]));
      inputs := inputs + [v.value.comps[0]];
      cb := v.value.builder;
    }
    ghost var a := ArgsSpec(st0, b.currentPoint, s.funcs, args).value;
    assert inputs == a.comps && Abs(cb, s) == a.st;
    var outVars: seq<VarId> := [];
    for i := 0 to n
      invariant Shares(cb, b) && Sane(cb) && ScopeTable.Valid(s)
      invariant GraphOf(cb) == a.st.g && Bindings(s.vars) == a.st.env
      invariant s.lastVarId.last == a.st.nextVar + i && outVars == FreshIds(a.st.nextVar, i)
    {
      var v := NewVarId(s);
      outVars := outVars + [v];
    }
    cb := ApplyNext(cb, UseSelectorsOp(id, inputs, outVars));
    r := Ok(ExprResult(cb, Singletons(outVars)));
  }

  // ---------------------------------------------------------------------
  // Deconstructing if chains and declarations

  /** One link of an if/else chain: its init statement, if any, and its body. */
  datatype Branch = Branch(init: Option<Stmt>, body: seq<Stmt>)

  function BranchSize(br: Branch): nat
  {
    1 + OptStmtSize(br.init) + StmtsSize(br.body)
  }

  function ChainSize(chain: seq<Branch>): nat
  {
    if |chain| == 0 then 0 else BranchSize(chain[0]) + ChainSize(chain[1..])
  }

  lemma {:induction false} BranchBelowChain(chain: seq<Branch>, i: nat)
    requires i < |chain|
    ensures BranchSize(chain[i]) <= ChainSize(chain)
    decreases i
  {
    if i > 0 {
      BranchBelowChain(chain[1..], i - 1);
    }
  }

  /** The flat list of branches of an if/else-if/else chain, nested
      conditions left alone: a plain `else` is a branch without init, and an
      `else` that is neither a block nor an if is a failure. */
  function IfChain(stmt: Stmt): (r: Result<seq<Branch>>)
    requires stmt.IfStmt?
    decreases StmtSize(stmt)
    ensures r.Ok? ==> |r.value| >= 1 && r.value[0] == Branch(stmt.init, stmt.body)
    ensures r.Ok? ==> ChainSize(r.value) <= StmtSize(stmt)
  {
    var first := Branch(stmt.init, stmt.body);
    match stmt.els
    case None => Ok([first])
    case Some(els) =>
      if els.BlockStmt? then
        assert [first, Branch(None, els.list)][1..] == [Branch(None, els.list)];
        assert [Branch(None, els.list)][1..] == [];
        assert StmtSize(els) == 1 + StmtsSize(els.list);
        Ok([first, Branch(None, els.list)])
      else if els.IfStmt? then
        var rest :- IfChain(els);
        assert ([first] + rest)[1..] == rest;
        Ok([first] + rest)
      else Err("unexpected if/else structure")
  }

  /** Pairs up the two lists DeconstructIf returns. */
  function Zip(inits: seq<Option<Stmt>>, bodies: seq<seq<Stmt>>): (chain: seq<Branch>)
    requires |inits| == |bodies|
    ensures |chain| == |inits| && forall i :: 0 <= i < |inits| ==> chain[i] == Branch(inits[i], bodies[i])
  {
    seq(|inits|, i requires 0 <= i < |inits| => Branch(inits[i], bodies[i]))
  }

  function PrependBranches(pre: seq<Branch>, r: Result<seq<Branch>>): Result<seq<Branch>>
  {
    if r.Ok? then Ok(pre + r.value) else r
  }

  lemma PrependBranchesTwice(pre: seq<Branch>, more: seq<Branch>, r: Result<seq<Branch>>)
    ensures PrependBranches(pre, PrependBranches(more, r)) == PrependBranches(pre + more, r)
  {
    if r.Ok? {
      assert pre + (more + r.value) == (pre + more) + r.value;
    }
  }

  /** One step of IfChain: the first branch, then the chain the `else`
      continues with. */
  lemma IfChainStep(node: Stmt)
    requires node.IfStmt? && node.els.Some?
    ensures var first, els := Branch(node.init, node.body), node.els.value;
      && (els.BlockStmt? ==> IfChain(node) == PrependBranches([first], IfChain(IfStmt(None, els.list, None))))
      && (els.IfStmt? ==> IfChain(node) == PrependBranches([first], IfChain(els)))
      && (!els.BlockStmt? && !els.IfStmt? ==> IfChain(node).Err?)
      && (els.BlockStmt? ==> StmtSize(IfStmt(None, els.list, None)) < StmtSize(node))
      && (els.IfStmt? ==> StmtSize(els) < StmtSize(node))
  {
    var first, els := Branch(node.init, node.body), node.els.value;
    assert OptStmtSize(node.els) == StmtSize(els);
    if els.BlockStmt? {
      assert [first] + [Branch(None, els.list)] == [first, Branch(None, els.list)];
      assert StmtSize(els) == 1 + StmtsSize(els.list);
    }
  }

  /** Walks an if chain, collecting the init and the body of each branch. */
  method DeconstructIf(stmt: Stmt) returns (r: Result<(seq<Option<Stmt>>, seq<seq<Stmt>>)>)
    requires stmt.IfStmt?
    ensures r.Ok? <==> IfChain(stmt).Ok?
    ensures r.Ok? ==> |r.value.0| == |r.value.1| && Zip(r.value.0, r.value.1) == IfChain(stmt).value
  {
    var inits: seq<Option<Stmt>> := [];
    var bodies: seq<seq<Stmt>> := [];
    var node := stmt;
    assert PrependBranches([], IfChain(stmt)) == IfChain(stmt) by {
      if IfChain(stmt).Ok? { assert [] + IfChain(stmt).value == IfChain(stmt).value; }
    }
    while true
      invariant node.IfStmt? && |inits| == |bodies|
      invariant IfChain(stmt) == PrependBranches(Zip(inits, bodies), IfChain(node))
      decreases StmtSize(node)
    {
      ghost var before := Zip(inits, bodies);
      ghost var first := Branch(node.init, node.body);
      inits := inits + [node.init];
      bodies := bodies + [node.body];
      assert Zip(inits, bodies) == before + [first];
      if node.els.None? {
        return Ok((inits, bodies));
      }
      IfChainStep(node);
      var els := node.els.value;
      if els.BlockStmt? {
        PrependBranchesTwice(before, [first], IfChain(IfStmt(None, els.list, None)));
        node := IfStmt(None, els.list, None);
      } else if els.IfStmt? {
        PrependBranchesTwice(before, [first], IfChain(els));
        node := els;
      } else {
        return Err("unexpected if/else structure");
      }
    }
  }

  /** The names a declaration introduces and the expressions that
      initialise them. */
  datatype Decl = Decl(names: seq<string>, values: seq<Expr>)

  /** The names and initialisers of `var` specs, aligned: a spec without
      initialisers gives each name an absent one, and a spec with fewer
      initialisers than names is a failure (the initialisers are indexed by
      name position). */
  function SpecsParts(specs: seq<ValueSpec>): (r: Result<Decl>)
    ensures r.Ok? ==> |r.value.names| == |r.value.values|
  {
    if |specs| == 0 then Ok(Decl([], []))
    else
      var sp := specs[0];
      if 0 < |sp.values| < |sp.names| then Err("index out of range")
      else
        var values := if |sp.values| == 0 then seq(|sp.names|, _ => MissingExpr) else sp.values[..|sp.names|];
        var rest :- SpecsParts(specs[1..]);
        Ok(Decl(sp.names + rest.names, values + rest.values))
  }

  /** The names of the left-hand sides of `:=`, each of which must be an
      identifier. */
  function IdentNames(lhs: seq<Expr>): (r: Result<seq<string>>)
    ensures r.Ok? ==> |r.value| == |lhs| && forall i :: 0 <= i < |lhs| ==> lhs[i] == Ident(r.value[i])
    ensures r.Err? <==> exists i :: 0 <= i < |lhs| && !lhs[i].Ident?
  {
    if |lhs| == 0 then Ok([])
    else if !lhs[0].Ident? then Err("left-hand side is not an identifier")
    else
      var rest :- IdentNames(lhs[1..]);
      assert forall i :: 1 <= i < |lhs| ==> lhs[i] == lhs[1..][i - 1];
      Ok([lhs[0].name] + rest)
  }

  /** `var` declarations and `:=` assignments, as names and initialisers;
      `None` for every other statement, `const` and `=` included. */
  function DeclParts(stmt: Stmt): (r: Result<Option<Decl>>)
  {
    match stmt
    case DeclStmt(tok, specs) =>
      if tok != Var then Ok(None)
      else
        var d :- SpecsParts(specs);
        Ok(Some(d))
    case AssignStmt(lhs, define, rhs) =>
      if !define then Ok(None)
      else
        var names :- IdentNames(lhs);
        Ok(Some(Decl(names, rhs)))
    case _ => Ok(None)
  }

  function PrependDecl(pre: Decl, r: Result<Decl>): Result<Decl>
  {
    if r.Ok? then Ok(Decl(pre.names + r.value.names, pre.values + r.value.values)) else r
  }

  function PrependNames(pre: seq<string>, r: Result<seq<string>>): Result<seq<string>>
  {
    if r.Ok? then Ok(pre + r.value) else r
  }

  /** Collects the names and initialisers of `var` specs, name by name. */
  method CollectSpecs(specs: seq<ValueSpec>) returns (r: Result<Decl>)
    ensures r == SpecsParts(specs)
  {
    var names: seq<string> := [];
    var values: seq<Expr> := [];
    assert specs[0..] == specs;
    assert PrependDecl(Decl([], []), SpecsParts(specs)) == SpecsParts(specs) by {
      if SpecsParts(specs).Ok? {
        assert [] + SpecsParts(specs).value.names == SpecsParts(specs).value.names;
        assert [] + SpecsParts(specs).value.values == SpecsParts(specs).value.values;
      }
    }
    for k := 0 to |specs|
      invariant SpecsParts(specs) == PrependDecl(Decl(names, values), SpecsParts(specs[k..]))
    {
      var sp := specs[k];
      assert specs[k..][0] == sp && specs[k..][1..] == specs[k + 1..];
      ghost var names0, values0 := names, values;
      for i := 0 to |sp.names|
        invariant names == names0 + sp.names[..i]
        invariant |sp.values| == 0 ==> values == values0 + seq(i, _ => MissingExpr)
        invariant |sp.values| > 0 ==> i <= |sp.values| && values == values0 + sp.values[..i]
      {
        names := names + [sp.names[i]];
        if |sp.values| == 0 {
          values := values + [MissingExpr];
        } else if i < |sp.values| {
          values := values + [sp.values[i]];
        } else {
          return Err("index out of range");
        }
      }
      SpecStepJoins(names0, values0, sp, names, values, SpecsParts(specs[k + 1..]));
    }
    assert specs[|specs|..] == [];
    assert Decl(names, values) == Decl(names + [], values + []);
    r := Ok(Decl(names, values));
  }

  /** One spec's names and initialisers, appended to those collected so far,
      continue the collection. */
  lemma SpecStepJoins(names0: seq<string>, values0: seq<Expr>, sp: ValueSpec, names: seq<string>, values: seq<Expr>, rest: Result<Decl>)
    requires !(0 < |sp.values| < |sp.names|)
    requires names == names0 + sp.names[..|sp.names|]
    requires |sp.values| == 0 ==> values == values0 + seq(|sp.names|, _ => MissingExpr)
    requires |sp.values| > 0 ==> values == values0 + sp.values[..|sp.names|]
    ensures var vals := if |sp.values| == 0 then seq(|sp.names|, _ => MissingExpr) else sp.values[..|sp.names|];
      PrependDecl(Decl(names0, values0), if rest.Ok? then Ok(Decl(sp.names + rest.value.names, vals + rest.value.values)) else rest)
        == PrependDecl(Decl(names, values), rest)
  {
    assert sp.names[..|sp.names|] == sp.names;
    if rest.Ok? {
      assert names0 + (sp.names + rest.value.names) == names + rest.value.names;
      if |sp.values| == 0 {
        assert values0 + (seq(|sp.names|, _ => MissingExpr) + rest.value.values) == values + rest.value.values;
      } else {
        assert values0 + (sp.values[..|sp.names|] + rest.value.values) == values + rest.value.values;
      }
    }
  }

  /** The names from position `i` on: the name at `i`, then the rest. */
  lemma IdentNamesAt(lhs: seq<Expr>, i: nat)
    requires i < |lhs|
    ensures !lhs[i].Ident? ==> IdentNames(lhs[i..]) == Err("left-hand side is not an identifier")
    ensures lhs[i].Ident? ==> IdentNames(lhs[i..]) == PrependNames([lhs[i].name], IdentNames(lhs[i + 1..]))
  {
    assert lhs[i..][0] == lhs[i] && lhs[i..][1..] == lhs[i + 1..];
  }

  /** Names collected so far, one more name, and the rest compose. */
  lemma PrependNamesSnoc(names: seq<string>, name: string, rest: Result<seq<string>>)
    ensures PrependNames(names, PrependNames([name], rest)) == PrependNames(names + [name], rest)
  {
    if rest.Ok? {
      assert names + ([name] + rest.value) == names + [name] + rest.value;
    }
  }

  /** Collects the names of the left-hand sides of `:=`. */
  method CollectIdentNames(lhs: seq<Expr>) returns (r: Result<seq<string>>)
    ensures r == IdentNames(lhs)
  {
    var names: seq<string> := [];
    assert lhs[0..] == lhs;
    assert PrependNames([], IdentNames(lhs)) == IdentNames(lhs) by {
      if IdentNames(lhs).Ok? { assert [] + IdentNames(lhs).value == IdentNames(lhs).value; }
    }
    for i := 0 to |lhs|
      invariant IdentNames(lhs) == PrependNames(names, IdentNames(lhs[i..]))
    {
      IdentNamesAt(lhs, i);
      if !lhs[i].Ident? {
        return Err("left-hand side is not an identifier");
      }
      PrependNamesSnoc(names, lhs[i].name, IdentNames(lhs[i + 1..]));
      names := names + [lhs[i].name];
    }
    assert lhs[|lhs|..] == [] && names + [] == names;
    r := Ok(names);
  }

  /** Recognises `var` declarations and `:=` assignments. */
  method DeconstructDecl(stmt: Stmt) returns (r: Result<Option<Decl>>)
    ensures r == DeclParts(stmt)
  {
    match stmt
    case DeclStmt(tok, specs) =>
      if tok != Var {
        return Ok(None);
      }
      var d := CollectSpecs(specs);
      r := if d.Ok? then Ok(Some(d.value)) else Err(d.msg);
    case AssignStmt(lhs, define, rhs) =>
      if !define {
        return Ok(None);
      }
      var names := CollectIdentNames(lhs);
      r := if names.Ok? then Ok(Some(Decl(names.value, rhs))) else Err(names.msg);
    case _ =>
      r := Ok(None);
  }

  // ---------------------------------------------------------------------
  // Statements, as functions of the abstract state

  /** The state with one more, empty, innermost frame. */
  function Push(st: St): St
  {
    st.(env := st.env + [map[]])
  }

  /** `inner` with the frames pushed since `outer` dropped again. */
  function Pop(inner: St, outer: St): St
    requires |inner.env| >= |outer.env|
  {
    inner.(env := inner.env[..|outer.env|])
  }

  /** CreateVar on the abstract state: "_" declares nothing and stands for
      blank; any other name is bound in the innermost frame to the next
      fresh id. */
  function CreateVarSt(st: St, name: string): (r: (St, VarId))
    requires |st.env| >= 1
    ensures r.0.g == st.g && |r.0.env| == |st.env| && st.nextVar <= r.0.nextVar
  {
    if name == BlankVarName then (st, BlankVarId)
    else (st.(nextVar := st.nextVar + 1, env := Declare(st.env, name, st.nextVar)), st.nextVar)
  }

  /** The branches of a switch: one per clause, none with an init. */
  function ClauseBranches(clauses: seq<CaseClause>): (r: seq<Branch>)
    ensures |r| == |clauses| && ChainSize(r) == ClausesSize(clauses)
    ensures forall i :: 0 <= i < |clauses| ==> r[i] == Branch(None, clauses[i].body)
  {
    if |clauses| == 0 then []
    else
      var rest := ClauseBranches(clauses[1..]);
      assert ([Branch(None, clauses[0].body)] + rest)[1..] == rest;
      assert forall i :: 1 <= i < |clauses| ==> clauses[i] == clauses[1..][i - 1];
      [Branch(None, clauses[0].body)] + rest
  }

  /** `stmt` translated, in a function returning `ro` values.
      Shape: FromAstJoins.StmtAdds, and the lemmas named at each statement kind. */
  function StmtSpec(st: St, cur: ExecutionPoint, funcs: map<string, FuncId>, stmt: Stmt, ro: nat): (r: Result<Cursor>)
    requires |st.env| >= 1 && cur <= st.g.last
    decreases StmtSize(stmt), 4
    ensures r.Ok? ==> Moves(st, cur, r.value.st, r.value.cur) && |r.value.st.env| == |st.env|
  {
    match stmt
    case LabeledStmt(inner) => StmtSpec(st, cur, funcs, inner, ro)
    case BlockStmt(list) => StmtListSpec(st, cur, funcs, list, ro)
    case IfStmt(_, _, _) => IfSpec(st, cur, funcs, stmt, ro)
    case ForStmt(_, _, _, _) => ForSpec(st, cur, funcs, stmt, ro)
    case RangeStmt(_, _, _) => RangeSpec(st, cur, funcs, stmt, ro)
    case DeclStmt(_, _) => DeclOrAssignSpec(st, cur, funcs, stmt)
    case AssignStmt(_, _, _) => DeclOrAssignSpec(st, cur, funcs, stmt)
    case SwitchStmt(_, _) => SwitchSpec(st, cur, funcs, stmt, ro)
    case TypeSwitchStmt(_, _, _) => SwitchSpec(st, cur, funcs, stmt, ro)
    case ReturnStmt(results) => ReturnSpec(st, cur, funcs, results, ro)
    case ExprStmt(x) =>
      var v :- ExprSpec(st, cur, funcs, x, 0);
      Ok(Cursor(v.st, v.cur))
    case OtherStmt => Ok(Cursor(st, cur))
    case BadStmt => Err("unexpected statement")
  }

  /** Statements one after another.
      Shape: FromAstProperties.StmtListAppend; FromAstJoins.StmtListAdds. */
  function StmtListSpec(st: St, cur: ExecutionPoint, funcs: map<string, FuncId>, stmts: seq<Stmt>, ro: nat): (r: Result<Cursor>)
    requires |st.env| >= 1 && cur <= st.g.last
    decreases StmtsSize(stmts), 5
    ensures r.Ok? ==> Moves(st, cur, r.value.st, r.value.cur) && |r.value.st.env| == |st.env|
  {
    if |stmts| == 0 then Ok(Cursor(st, cur))
    else
      var c :- StmtSpec(st, cur, funcs, stmts[0], ro);
      StmtListSpec(c.st, c.cur, funcs, stmts[1..], ro)
  }

  /** An optional statement: nothing when absent.
      Shape: FromAstJoins.OptStmtAdds. */
  function OptStmtSpec(st: St, cur: ExecutionPoint, funcs: map<string, FuncId>, x: Option<Stmt>, ro: nat): (r: Result<Cursor>)
    requires |st.env| >= 1 && cur <= st.g.last
    decreases OptStmtSize(x), 5
    ensures r.Ok? ==> Moves(st, cur, r.value.st, r.value.cur) && |r.value.st.env| == |st.env|
  {
    match x
    case None => Ok(Cursor(st, cur))
    case Some(stmt) => StmtSpec(st, cur, funcs, stmt, ro)
  }

  /** One branch of an if chain or a switch: its init (if any) runs from
      `cur` in the frames given, its body in a frame of its own, and the end
      of the body is joined to `after` by a NoOp transition; the next branch
      starts where the init left off.
      Shape: FromAstProperties.EmptyBranch; FromAstJoins.BranchAdds and BranchesUnfold. */
  function BranchSpec(st: St, cur: ExecutionPoint, funcs: map<string, FuncId>, br: Branch, ro: nat, after: ExecutionPoint)
    : (r: Result<Cursor>)
    requires |st.env| >= 1 && cur <= st.g.last && after <= st.g.last && cur != after
    decreases BranchSize(br), 0
    ensures r.Ok? ==> Moves(st, cur, r.value.st, r.value.cur) && |r.value.st.env| == |st.env|
  {
    var c :- OptStmtSpec(st, cur, funcs, br.init, ro);
    BranchBodySpec(c.st, c.cur, funcs, br.body, ro, after)
  }

  /** Statements in a frame of their own, dropped afterwards.
      Shape: FromAstJoins.FramedListAdds. */
  function FramedListSpec(st: St, cur: ExecutionPoint, funcs: map<string, FuncId>, stmts: seq<Stmt>, ro: nat): (r: Result<Cursor>)
    requires |st.env| >= 1 && cur <= st.g.last
    decreases StmtsSize(stmts), 6
    ensures r.Ok? ==> Moves(st, cur, r.value.st, r.value.cur) && |r.value.st.env| == |st.env|
  {
    var c :- StmtListSpec(Push(st), cur, funcs, stmts, ro);
    Ok(Cursor(Pop(c.st, st), c.cur))
  }

  /** A branch body in a frame of its own, its end joined to `after`; the
      translation goes on from `cur`.
      Shape: FromAstJoins.BranchBodyAdds. */
  function BranchBodySpec(st: St, cur: ExecutionPoint, funcs: map<string, FuncId>, body: seq<Stmt>, ro: nat, after: ExecutionPoint)
    : (r: Result<Cursor>)
    requires |st.env| >= 1 && cur <= st.g.last && after <= st.g.last && cur != after
    decreases StmtsSize(body), 7
    ensures r.Ok? ==> Moves(st, cur, r.value.st, r.value.cur) && |r.value.st.env| == |st.env|
  {
    var c :- FramedListSpec(st, cur, funcs, body, ro);
    Ok(Cursor(c.st.(g := Connect(c.st.g, c.cur, after)), cur))
  }

  /** The branches of an if chain or a switch, in order, all meeting at
      `after`.
      Shape: FromAstJoins.BranchesJoin and BranchesAdds. */
  function BranchesSpec(st: St, cur: ExecutionPoint, funcs: map<string, FuncId>, chain: seq<Branch>, ro: nat, after: ExecutionPoint)
    : (r: Result<Cursor>)
    requires |st.env| >= 1 && cur <= st.g.last && after <= st.g.last && cur != after
    decreases ChainSize(chain), 1
    ensures r.Ok? ==> Moves(st, cur, r.value.st, r.value.cur) && |r.value.st.env| == |st.env|
  {
    if |chain| == 0 then Ok(Cursor(st, cur))
    else
      var c :- BranchSpec(st, cur, funcs, chain[0], ro, after);
      BranchesSpec(c.st, c.cur, funcs, chain[1..], ro, after)
  }

  /** Branches that meet: a meeting point handed out before anything else,
      every branch joined to it, and the translation goes on from there.
      Shape: FromAstJoins.JoinedBranchesJoin and JoinedBranchesAdds. */
  function JoinedBranchesSpec(st: St, cur: ExecutionPoint, funcs: map<string, FuncId>, chain: seq<Branch>, ro: nat)
    : (r: Result<Cursor>)
    requires |st.env| >= 1 && cur <= st.g.last
    decreases ChainSize(chain), 2
    ensures r.Ok? ==> Moves(st, cur, r.value.st, r.value.cur) && |r.value.st.env| == |st.env|
    ensures r.Ok? ==> r.value.cur == st.g.last + 1
  {
    var after := st.g.last + 1;
    var c :- BranchesSpec(st.(g := st.g.(last := after)), cur, funcs, chain, ro, after);
    Ok(Cursor(c.st, after))
  }

  /** An if chain: its branches, their inits in a frame of their own. No
      transition bypasses the bodies.
      Shape: FromAstJoins.IfJoinsBranches and IfAfterPointEntries; FromAstProperties.IfWithoutElse and IfWithElse. */
  function IfSpec(st: St, cur: ExecutionPoint, funcs: map<string, FuncId>, stmt: Stmt, ro: nat): (r: Result<Cursor>)
    requires |st.env| >= 1 && cur <= st.g.last && stmt.IfStmt?
    decreases StmtSize(stmt), 3
    ensures r.Ok? ==> Moves(st, cur, r.value.st, r.value.cur) && |r.value.st.env| == |st.env|
    ensures r.Ok? ==> r.value.cur == st.g.last + 1
  {
    var chain :- IfChain(stmt);
    var c :- JoinedBranchesSpec(Push(st), cur, funcs, chain, ro);
    Ok(Cursor(Pop(c.st, st), c.cur))
  }

  /** A three-clause for loop: init, body, post and condition in a frame of
      their own, and a NoOp back edge from the end to the point after the
      init; the loop must have emitted something, or the back edge would
      join a point to itself.
      Shape: FromAstProperties.ForBackEdge, ForWithoutInitBackEdge and InertForFails; FromAstJoins.ForAdds. */
  function ForSpec(st: St, cur: ExecutionPoint, funcs: map<string, FuncId>, stmt: Stmt, ro: nat): (r: Result<Cursor>)
    requires |st.env| >= 1 && cur <= st.g.last && stmt.ForStmt?
    decreases StmtSize(stmt), 3
    ensures r.Ok? ==> Moves(st, cur, r.value.st, r.value.cur) && |r.value.st.env| == |st.env|
  {
    var c :- ForScopeSpec(Push(st), cur, funcs, stmt, ro);
    Ok(Cursor(Pop(c.st, st), c.cur))
  }

  /** The for loop inside its frame.
      Shape: FromAstJoins.ForScopeAdds. */
  function ForScopeSpec(st: St, cur: ExecutionPoint, funcs: map<string, FuncId>, stmt: Stmt, ro: nat): (r: Result<Cursor>)
    requires |st.env| >= 1 && cur <= st.g.last && stmt.ForStmt?
    decreases StmtSize(stmt), 2
    ensures r.Ok? ==> Moves(st, cur, r.value.st, r.value.cur) && |r.value.st.env| == |st.env|
  {
    var c :- OptStmtSpec(st, cur, funcs, stmt.init, ro);
    var body :- StmtListSpec(c.st, c.cur, funcs, stmt.body, ro);
    var post :- OptStmtSpec(body.st, body.cur, funcs, stmt.post, ro);
    var cond :- ExprSpec(post.st, post.cur, funcs, stmt.cond, 1);
    if cond.cur == c.cur then Err("connection points must be different")
    else Ok(Cursor(cond.st.(g := Connect(cond.st.g, cond.cur, c.cur)), cond.cur))
  }

  /** A range key or value: a fresh variable, reset from blank.
      Shape: FromAstProperties.RangeKeyIsFresh; FromAstJoins.RangeVarAdds. */
  function RangeVarSpec(st: St, cur: ExecutionPoint, x: Option<Expr>): (r: Result<Cursor>)
    requires |st.env| >= 1
    ensures r.Ok? ==> Moves(st, cur, r.value.st, r.value.cur) && |r.value.st.env| == |st.env|
  {
    match x
    case None => Ok(Cursor(st, cur))
    case Some(e) =>
      if !e.Ident? then Err("range variable is not an identifier")
      else
        var (created, id) := CreateVarSt(st, e.name);
        var n := Next(created.g, cur, AssignSelectorOp(VarSelector(BlankVarId, []), VarSelector(id, [])));
        Ok(Cursor(created.(g := n.g), n.cur))
  }

  /** A range loop: key and value, then the body, in a frame of their own,
      and a NoOp back edge from the end to the point before the loop.
      Shape: FromAstProperties.RangeBackEdge; FromAstJoins.RangeAdds. */
  function RangeSpec(st: St, cur: ExecutionPoint, funcs: map<string, FuncId>, stmt: Stmt, ro: nat): (r: Result<Cursor>)
    requires |st.env| >= 1 && cur <= st.g.last && stmt.RangeStmt?
    decreases StmtSize(stmt), 3
    ensures r.Ok? ==> Moves(st, cur, r.value.st, r.value.cur) && |r.value.st.env| == |st.env|
  {
    var c :- RangeScopeSpec(Push(st), cur, funcs, stmt, ro);
    Ok(Cursor(Pop(c.st, st), c.cur))
  }

  /** The range loop inside its frame.
      Shape: FromAstJoins.RangeScopeAdds. */
  function RangeScopeSpec(st: St, cur: ExecutionPoint, funcs: map<string, FuncId>, stmt: Stmt, ro: nat): (r: Result<Cursor>)
    requires |st.env| >= 1 && cur <= st.g.last && stmt.RangeStmt?
    decreases StmtSize(stmt), 2
    ensures r.Ok? ==> Moves(st, cur, r.value.st, r.value.cur) && |r.value.st.env| == |st.env|
  {
    var k :- RangeVarSpec(st, cur, stmt.key);
    var v :- RangeVarSpec(k.st, k.cur, stmt.value);
    var body :- StmtListSpec(v.st, v.cur, funcs, stmt.body, ro);
    if body.cur == cur then Err("connection points must be different")
    else Ok(Cursor(body.st.(g := Connect(body.st.g, body.cur, cur)), body.cur))
  }

  /** A switch or type switch: its init in a frame of its own, the type
      switch's binding declared there, a meeting point handed out after
      them, and every clause joined to it.
      Shape: FromAstJoins.SwitchJoinsClauses and SwitchAdds. */
  function SwitchSpec(st: St, cur: ExecutionPoint, funcs: map<string, FuncId>, stmt: Stmt, ro: nat): (r: Result<Cursor>)
    requires |st.env| >= 1 && cur <= st.g.last && (stmt.SwitchStmt? || stmt.TypeSwitchStmt?)
    decreases StmtSize(stmt), 3
    ensures r.Ok? ==> Moves(st, cur, r.value.st, r.value.cur) && |r.value.st.env| == |st.env|
  {
    var c :- SwitchScopeSpec(Push(st), cur, funcs, stmt, ro);
    Ok(Cursor(Pop(c.st, st), c.cur))
  }

  /** The switch inside its frame.
      Shape: FromAstJoins.SwitchScopeAdds. */
  function SwitchScopeSpec(st: St, cur: ExecutionPoint, funcs: map<string, FuncId>, stmt: Stmt, ro: nat): (r: Result<Cursor>)
    requires |st.env| >= 1 && cur <= st.g.last && (stmt.SwitchStmt? || stmt.TypeSwitchStmt?)
    decreases StmtSize(stmt), 2
    ensures r.Ok? ==> Moves(st, cur, r.value.st, r.value.cur) && |r.value.st.env| == |st.env|
    ensures r.Ok? ==> r.value.cur > st.g.last
  {
    var c :- OptStmtSpec(st, cur, funcs, stmt.init, ro);
    SwitchClausesSpec(c.st, c.cur, funcs, stmt, ro)
  }

  /** The clauses of a switch, after its init: the type switch's binding
      declared, then the clauses as branches that meet.
      Shape: FromAstJoins.SwitchClausesAdds. */
  function SwitchClausesSpec(st: St, cur: ExecutionPoint, funcs: map<string, FuncId>, stmt: Stmt, ro: nat): (r: Result<Cursor>)
    requires |st.env| >= 1 && cur <= st.g.last && (stmt.SwitchStmt? || stmt.TypeSwitchStmt?)
    decreases ClausesSize(stmt.clauses), 3
    ensures r.Ok? ==> Moves(st, cur, r.value.st, r.value.cur) && |r.value.st.env| == |st.env|
    ensures r.Ok? ==> r.value.cur > st.g.last
  {
    var bound := if stmt.TypeSwitchStmt? && stmt.bind.Some? then CreateVarSt(st, stmt.bind.value).0 else st;
    JoinedBranchesSpec(bound, cur, funcs, ClauseBranches(stmt.clauses), ro)
  }

  /** Initialisers translated for `n` values each, left to right, their
      values concatenated; with `exact`, one that does not give `n` values is
      a failure. */
  function ValuesSpec(st: St, cur: ExecutionPoint, funcs: map<string, FuncId>, values: seq<Expr>, n: nat, exact: bool)
    : (r: Result<Values>)
    ensures r.Ok? ==> Moves(st, cur, r.value.st, r.value.cur) && r.value.st.env == st.env
    ensures r.Ok? && n == 1 ==> |r.value.comps| == |values|
    ensures r.Ok? && exact && |values| == 1 ==> |r.value.comps| == n
    decreases |values|
  {
    if |values| == 0 then Ok(Values(st, cur, []))
    else
      var x :- ExprSpec(st, cur, funcs, values[0], n);
      if exact && |x.comps| != n then Err("expression must have the expected number of outputs")
      else
        var rest :- ValuesSpec(x.st, x.cur, funcs, values[1..], n, exact);
        Ok(rest.(comps := x.comps + rest.comps))
  }

  /** Each name declared in turn and given its value.
      Shape: FromAstJoins.DefineAdds. */
  function DefineSpec(st: St, cur: ExecutionPoint, names: seq<string>, comps: seq<VarComposition>): (r: Cursor)
    requires |st.env| >= 1 && |comps| == |names|
    ensures Moves(st, cur, r.st, r.cur) && |r.st.env| == |st.env|
    decreases |names|
  {
    if |names| == 0 then Cursor(st, cur)
    else
      var (created, id) := CreateVarSt(st, names[0]);
      var a := ApplyAll(created.g, cur, VarCompositionOps(VarSelector(id, []), comps[0]));
      DefineSpec(created.(g := a.g), a.cur, names[1..], comps[1..])
  }

  /** A declaration: one initialiser per name, or one for all of them.
      Shape: FromAstProperties.DeclareNamesOthers and DeclareNamesBinds; FromAstJoins.DeclareAdds. */
  function DeclareSpec(st: St, cur: ExecutionPoint, funcs: map<string, FuncId>, names: seq<string>, values: seq<Expr>)
    : (r: Result<Cursor>)
    requires |st.env| >= 1
    ensures r.Ok? ==> Moves(st, cur, r.value.st, r.value.cur) && |r.value.st.env| == |st.env|
  {
    if !(|values| == 1 || |values| == |names|) then Err("decl initial inputs/outputs count mismatch")
    else
      var n := if |values| == |names| then 1 else |names|;
      var v :- ValuesSpec(st, cur, funcs, values, n, true);
      Ok(DefineSpec(v.st, v.cur, names, v.comps))
  }

  /** The left-hand sides of an assignment, each translated and then, when
      it is a whole variable or field (one embed, empty path), given its
      value; other targets are translated and skipped. */
  function AssignLhsSpec(st: St, cur: ExecutionPoint, funcs: map<string, FuncId>, lhs: seq<Expr>, comps: seq<VarComposition>)
    : (r: Result<Cursor>)
    requires |comps| == |lhs|
    ensures r.Ok? ==> Moves(st, cur, r.value.st, r.value.cur) && r.value.st.env == st.env
    decreases |lhs|
  {
    if |lhs| == 0 then Ok(Cursor(st, cur))
    else
      var x :- ExprSpec(st, cur, funcs, lhs[0], 1);
      var target := x.comps[0];
      var a := if |target| == 1 && target[0].path == [] then ApplyAll(x.st.g, x.cur, VarCompositionOps(target[0].varSelector, comps[0]))
               else GraphAt(x.st.g, x.cur);
      AssignLhsSpec(x.st.(g := a.g), a.cur, funcs, lhs[1..], comps[1..])
  }

  /** An assignment other than `:=`: all right-hand sides first, then the
      targets.
      Shape: FromAstJoins.AssignAdds. */
  function AssignSpec(st: St, cur: ExecutionPoint, funcs: map<string, FuncId>, lhs: seq<Expr>, rhs: seq<Expr>)
    : (r: Result<Cursor>)
    ensures r.Ok? ==> Moves(st, cur, r.value.st, r.value.cur) && r.value.st.env == st.env
  {
    if !(|rhs| == 1 || |lhs| == |rhs|) then Err("assign initial inputs/outputs count mismatch")
    else
      var n := if |lhs| == |rhs| then 1 else |lhs|;
      var v :- ValuesSpec(st, cur, funcs, rhs, n, false);
      if |v.comps| != |lhs| then Err("assign final inputs/outputs count mismatch")
      else AssignLhsSpec(v.st, v.cur, funcs, lhs, v.comps)
  }

  function DeclOrAssignSpec(st: St, cur: ExecutionPoint, funcs: map<string, FuncId>, stmt: Stmt): (r: Result<Cursor>)
    requires |st.env| >= 1
    ensures r.Ok? ==> Moves(st, cur, r.value.st, r.value.cur) && |r.value.st.env| == |st.env|
  {
    var parts :- DeclParts(stmt);
    if parts.Some? then DeclareSpec(st, cur, funcs, parts.value.names, parts.value.values)
    else if stmt.AssignStmt? then AssignSpec(st, cur, funcs, stmt.lhs, stmt.rhs)
    else Ok(Cursor(st, cur))
  }

  /** How many values each result of a return is translated for, as the
      walker computes it: the guard asks for several results in a function
      with one, which the count check before it has already ruled out, so
      every result is asked for one value. */
  function ResultOutputsAsWritten(results: nat, ro: nat): (r: nat)
    ensures results == 0 || results == 1 || results == ro ==> r == 1
  {
    if results > 1 && ro == 1 then ro else 1
  }

  /** How many values each result of a return is translated for: all of the
      function's results when a single expression returns them, one each
      otherwise. */
  function ResultOutputs(results: nat, ro: nat): (r: nat)
    ensures r >= 1 && (r == 1 || (results == 1 && r == ro))
  {
    if results == 1 && ro > 1 then ro else 1
  }

  /** Result values copied into the fresh return variables `first`,
      `first + 1`, ...
      Shape: FromAstProperties.SingletonAssignments; FromAstJoins.ReturnAssignAdds. */
  function ReturnAssignSpec(g: Graph, cur: ExecutionPoint, first: VarId, comps: seq<VarComposition>): (r: GraphAt)
    ensures g.last <= r.g.last && (r.cur == cur || g.last < r.cur <= r.g.last)
    decreases |comps|
  {
    if |comps| == 0 then GraphAt(g, cur)
    else
      var a := ApplyAll(g, cur, VarCompositionOps(VarSelector(first, []), comps[0]));
      ReturnAssignSpec(a.g, a.cur, first + 1, comps[1..])
  }

  /** The first value copied, then the rest. */
  lemma ReturnAssignSpecCons(g: Graph, cur: ExecutionPoint, first: VarId, comps: seq<VarComposition>)
    requires |comps| > 0
    ensures var a := ApplyAll(g, cur, VarCompositionOps(VarSelector(first, []), comps[0]));
      ReturnAssignSpec(g, cur, first, comps) == ReturnAssignSpec(a.g, a.cur, first + 1, comps[1..])
  {
  }

  /** A return: no results, one, or one per result of the function; the
      values are copied into fresh variables, which a ReturnVarsOp names.
      Shape: FromAstProperties.NakedReturn, ReturnOfCall and ReturnOfMultiValueCall; FromAstJoins.ReturnAdds. */
  function ReturnSpec(st: St, cur: ExecutionPoint, funcs: map<string, FuncId>, results: seq<Expr>, ro: nat): (r: Result<Cursor>)
    ensures r.Ok? ==> Moves(st, cur, r.value.st, r.value.cur) && r.value.st.env == st.env
    ensures r.Ok? ==> r.value.cur == r.value.st.g.last && st.g.last < r.value.cur
  {
    if !(|results| == 0 || |results| == 1 || |results| == ro) then Err("return inputs/outputs count mismatch")
    else if |results| == 0 then
      var n := Next(st.g, cur, ReturnVarsOp([]));
      Ok(Cursor(st.(g := n.g), n.cur))
    else ReturnValuesSpec(st, cur, funcs, results, ResultOutputs(|results|, ro))
  }

  /** A return with results, each translated for `n` values: the values,
      each copied into a fresh variable, then the return itself over those
      variables.
      Shape: FromAstJoins.ReturnValuesAdds. */
  function ReturnValuesSpec(st: St, cur: ExecutionPoint, funcs: map<string, FuncId>, results: seq<Expr>, n: nat): (r: Result<Cursor>)
    ensures r.Ok? ==> Moves(st, cur, r.value.st, r.value.cur) && r.value.st.env == st.env
    ensures r.Ok? ==> r.value.cur == r.value.st.g.last && st.g.last < r.value.cur
  {
    var v :- ValuesSpec(st, cur, funcs, results, n, false);
    var a := ReturnAssignSpec(v.st.g, v.cur, v.st.nextVar, v.comps);
    var n := Next(a.g, a.cur, ReturnVarsOp(FreshIds(v.st.nextVar, |v.comps|)));
    Ok(Cursor(v.st.(g := n.g, nextVar := v.st.nextVar + |v.comps|), n.cur))
  }

  // ---------------------------------------------------------------------
  // Statements, on the shared objects

  /** A statement walker ended where its function says: it fails exactly
      when the function does, and otherwise its builder shares the graph,
      stands at the function's point, and the objects hold the function's
      state. */
  ghost predicate StmtLands(r: Result<ExecutionBuilder>, b: ExecutionBuilder, s: Scopes, spec: Result<Cursor>)
    reads b.lastPoint, b.execution, s.lastVarId, s.vars
  {
    && (r.Ok? <==> spec.Ok?)
    && (r.Ok? ==>
          && Shares(r.value, b) && Sane(r.value)
          && Abs(r.value, s) == spec.value.st
          && r.value.currentPoint == spec.value.cur)
  }

  method TranslateStmt(b: ExecutionBuilder, s: Scopes, stmt: Stmt, ro: nat) returns (r: Result<ExecutionBuilder>)
    requires Sane(b) && ScopeTable.Valid(s)
    modifies b.lastPoint, b.execution, s.lastVarId, s.vars[|s.vars| - 1]
    decreases StmtSize(stmt), 4
    ensures ScopeTable.Valid(s)
    ensures StmtLands(r, b, s, StmtSpec(old(Abs(b, s)), b.currentPoint, s.funcs, stmt, ro))
  {
    match stmt
    case LabeledStmt(inner) =>
      r := TranslateStmt(b, s, inner, ro);
    case BlockStmt(list) =>
      r := TranslateStmtList(b, s, list, ro);
    case IfStmt(_, _, _) =>
      r := TranslateIf(b, s, stmt, ro);
    case ForStmt(_, _, _, _) =>
      r := TranslateFor(b, s, stmt, ro);
    case RangeStmt(_, _, _) =>
      r := TranslateRange(b, s, stmt, ro);
    case DeclStmt(_, _) =>
      r := TranslateDeclOrAssign(b, s, stmt);
    case AssignStmt(_, _, _) =>
      r := TranslateDeclOrAssign(b, s, stmt);
    case SwitchStmt(_, _) =>
      r := TranslateSwitch(b, s, stmt, ro);
    case TypeSwitchStmt(_, _, _) =>
      r := TranslateSwitch(b, s, stmt, ro);
    case ReturnStmt(results) =>
      r := TranslateReturn(b, s, results, ro);
    case ExprStmt(x) =>
      var v := TranslateExpr(b, s, x, 0);
      if v.Err? {
        return Err(v.msg);
      }
      r := Ok(v.value.builder);
    case OtherStmt =>
      r := Ok(b);
    case BadStmt =>
      r := Err("unexpected statement");
  }

  method TranslateStmtList(b: ExecutionBuilder, s: Scopes, stmts: seq<Stmt>, ro: nat) returns (r: Result<ExecutionBuilder>)
    requires Sane(b) && ScopeTable.Valid(s)
    modifies b.lastPoint, b.execution, s.lastVarId, s.vars[|s.vars| - 1]
    decreases StmtsSize(stmts), 5
    ensures ScopeTable.Valid(s)
    ensures StmtLands(r, b, s, StmtListSpec(old(Abs(b, s)), b.currentPoint, s.funcs, stmts, ro))
  {
    ghost var spec := StmtListSpec(Abs(b, s), b.currentPoint, s.funcs, stmts, ro);
    var cb := b;
    assert stmts[0..] == stmts;
    for i := 0 to |stmts|
      invariant Shares(cb, b) && Sane(cb) && ScopeTable.Valid(s)
      invariant spec == StmtListSpec(Abs(cb, s), cb.currentPoint, s.funcs, stmts[i..], ro)
    {
      StmtBelowSum(stmts, i);
      assert stmts[i..][0] == stmts[i] && stmts[i..][1..] == stmts[i + 1..];
      var x := TranslateStmt(cb, s, stmts[i], ro);
      if x.Err? {
        return Err(x.msg);
      }
      cb := x.value;
    }
    r := Ok(cb);
  }

  method TranslateOptStmt(b: ExecutionBuilder, s: Scopes, x: Option<Stmt>, ro: nat) returns (r: Result<ExecutionBuilder>)
    requires Sane(b) && ScopeTable.Valid(s)
    modifies b.lastPoint, b.execution, s.lastVarId, s.vars[|s.vars| - 1]
    decreases OptStmtSize(x), 5
    ensures ScopeTable.Valid(s)
    ensures StmtLands(r, b, s, OptStmtSpec(old(Abs(b, s)), b.currentPoint, s.funcs, x, ro))
  {
    match x
    case None =>
      r := Ok(b);
    case Some(stmt) =>
      r := TranslateStmt(b, s, stmt, ro);
  }

  /** One branch on the shared objects: the init runs in the table given,
      the body in a frame pushed on it. */
  method TranslateBranch(b: ExecutionBuilder, s: Scopes, br: Branch, ro: nat, after: ExecutionPoint)
    returns (r: Result<ExecutionBuilder>)
    requires Sane(b) && ScopeTable.Valid(s) && after <= b.lastPoint.last && b.currentPoint != after
    modifies b.lastPoint, b.execution, s.lastVarId, s.vars[|s.vars| - 1]
    decreases BranchSize(br), 0
    ensures ScopeTable.Valid(s)
    ensures StmtLands(r, b, s, BranchSpec(old(Abs(b, s)), b.currentPoint, s.funcs, br, ro, after))
  {
    var c := TranslateOptStmt(b, s, br.init, ro);
    if c.Err? {
      return Err(c.msg);
    }
    r := TranslateBranchBody(c.value, s, br.body, ro, after);
  }

  /** A branch body in a frame of its own, its end joined to `after`; the
      translation goes on from where the body started. */
  method TranslateBranchBody(b: ExecutionBuilder, s: Scopes, body: seq<Stmt>, ro: nat, after: ExecutionPoint)
    returns (r: Result<ExecutionBuilder>)
    requires Sane(b) && ScopeTable.Valid(s) && after <= b.lastPoint.last && b.currentPoint != after
    modifies b.lastPoint, b.execution, s.lastVarId, s.vars[|s.vars| - 1]
    decreases StmtsSize(body), 7
    ensures ScopeTable.Valid(s)
    ensures StmtLands(r, b, s, BranchBodySpec(old(Abs(b, s)), b.currentPoint, s.funcs, body, ro, after))
  {
    var x := TranslateFramedList(b, s, body, ro);
    if x.Err? {
      return Err(x.msg);
    }
    var _ := ConnectTo(x.value, after);
    r := Ok(b);
  }

  /** Statements in a frame pushed for them and dropped afterwards; the
      frames below are the same objects throughout. */
  method TranslateFramedList(b: ExecutionBuilder, s: Scopes, stmts: seq<Stmt>, ro: nat) returns (r: Result<ExecutionBuilder>)
    requires Sane(b) && ScopeTable.Valid(s)
    modifies b.lastPoint, b.execution, s.lastVarId
    decreases StmtsSize(stmts), 6
    ensures ScopeTable.Valid(s)
    ensures StmtLands(r, b, s, FramedListSpec(old(Abs(b, s)), b.currentPoint, s.funcs, stmts, ro))
  {
    ghost var inner := Abs(b, s);
    var t := PushScope(s);
    assert Abs(b, t) == Push(inner);
    r := TranslateStmtList(b, t, stmts, ro);
    PoppedScope(s, t);
  }

  /** The branches of an if chain or a switch, in order. */
  method TranslateBranches(b: ExecutionBuilder, s: Scopes, chain: seq<Branch>, ro: nat, after: ExecutionPoint)
    returns (r: Result<ExecutionBuilder>)
    requires Sane(b) && ScopeTable.Valid(s) && after <= b.lastPoint.last && b.currentPoint != after
    modifies b.lastPoint, b.execution, s.lastVarId, s.vars[|s.vars| - 1]
    decreases ChainSize(chain), 1
    ensures ScopeTable.Valid(s)
    ensures StmtLands(r, b, s, BranchesSpec(old(Abs(b, s)), b.currentPoint, s.funcs, chain, ro, after))
  {
    ghost var spec := BranchesSpec(Abs(b, s), b.currentPoint, s.funcs, chain, ro, after);
    var cb := b;
    assert chain[0..] == chain;
    for i := 0 to |chain|
      invariant Shares(cb, b) && Sane(cb) && ScopeTable.Valid(s)
      invariant after <= cb.lastPoint.last && cb.currentPoint != after
      invariant spec == BranchesSpec(Abs(cb, s), cb.currentPoint, s.funcs, chain[i..], ro, after)
    {
      BranchBelowChain(chain, i);
      assert chain[i..][0] == chain[i] && chain[i..][1..] == chain[i + 1..];
      var x := TranslateBranch(cb, s, chain[i], ro, after);
      if x.Err? {
        return Err(x.msg);
      }
      cb := x.value;
    }
    r := Ok(cb);
  }

  /** Hands out the meeting point, then translates the branches. */
  method TranslateJoinedBranches(b: ExecutionBuilder, s: Scopes, chain: seq<Branch>, ro: nat) returns (r: Result<ExecutionBuilder>)
    requires Sane(b) && ScopeTable.Valid(s)
    modifies b.lastPoint, b.execution, s.lastVarId, s.vars[|s.vars| - 1]
    decreases ChainSize(chain), 2
    ensures ScopeTable.Valid(s)
    ensures StmtLands(r, b, s, JoinedBranchesSpec(old(Abs(b, s)), b.currentPoint, s.funcs, chain, ro))
  {
    var after := AcquirePoint(b);
    var joined := TranslateBranches(b, s, chain, ro, after.currentPoint);
    if joined.Err? {
      return Err(joined.msg);
    }
    r := Ok(after);
  }

  method TranslateIf(b: ExecutionBuilder, s: Scopes, stmt: Stmt, ro: nat) returns (r: Result<ExecutionBuilder>)
    requires Sane(b) && ScopeTable.Valid(s) && stmt.IfStmt?
    modifies b.lastPoint, b.execution, s.lastVarId, s.vars[|s.vars| - 1]
    decreases StmtSize(stmt), 3
    ensures ScopeTable.Valid(s)
    ensures StmtLands(r, b, s, IfSpec(old(Abs(b, s)), b.currentPoint, s.funcs, stmt, ro))
  {
    var d := DeconstructIf(stmt);
    if d.Err? {
      return Err(d.msg);
    }
    var t := PushScope(s);
    assert Abs(b, t) == Push(Abs(b, s));
    r := TranslateJoinedBranches(b, t, Zip(d.value.0, d.value.1), ro);
    PoppedScope(s, t);
  }

  method TranslateFor(b: ExecutionBuilder, s: Scopes, stmt: Stmt, ro: nat) returns (r: Result<ExecutionBuilder>)
    requires Sane(b) && ScopeTable.Valid(s) && stmt.ForStmt?
    modifies b.lastPoint, b.execution, s.lastVarId, s.vars[|s.vars| - 1]
    decreases StmtSize(stmt), 3
    ensures ScopeTable.Valid(s)
    ensures StmtLands(r, b, s, ForSpec(old(Abs(b, s)), b.currentPoint, s.funcs, stmt, ro))
  {
    var t := PushScope(s);
    assert Abs(b, t) == Push(Abs(b, s));
    r := TranslateForScope(b, t, stmt, ro);
    PoppedScope(s, t);
  }

  method TranslateForScope(b: ExecutionBuilder, s: Scopes, stmt: Stmt, ro: nat) returns (r: Result<ExecutionBuilder>)
    requires Sane(b) && ScopeTable.Valid(s) && stmt.ForStmt?
    modifies b.lastPoint, b.execution, s.lastVarId, s.vars[|s.vars| - 1]
    decreases StmtSize(stmt), 2
    ensures ScopeTable.Valid(s)
    ensures StmtLands(r, b, s, ForScopeSpec(old(Abs(b, s)), b.currentPoint, s.funcs, stmt, ro))
  {
    var c := TranslateOptStmt(b, s, stmt.init, ro);
    if c.Err? {
      return Err(c.msg);
    }
    var beforeFor := c.value;
    var body := TranslateStmtList(beforeFor, s, stmt.body, ro);
    if body.Err? {
      return Err(body.msg);
    }
    var post := TranslateOptStmt(body.value, s, stmt.post, ro);
    if post.Err? {
      return Err(post.msg);
    }
    var cond := TranslateExpr(post.value, s, stmt.cond, 1);
    if cond.Err? {
      return Err(cond.msg);
    }
    var cb := cond.value.builder;
    if cb.currentPoint == beforeFor.currentPoint {
      return Err("connection points must be different");
    }
    var _ := ConnectTo(cb, beforeFor.currentPoint);
    r := Ok(cb);
  }

  method TranslateRangeVar(b: ExecutionBuilder, s: Scopes, x: Option<Expr>) returns (r: Result<ExecutionBuilder>)
    requires Sane(b) && ScopeTable.Valid(s)
    modifies b.lastPoint, b.execution, s.lastVarId, s.vars[|s.vars| - 1]
    ensures ScopeTable.Valid(s)
    ensures StmtLands(r, b, s, RangeVarSpec(old(Abs(b, s)), b.currentPoint, x))
  {
    match x
    case None =>
      r := Ok(b);
    case Some(e) =>
      if !e.Ident? {
        return Err("range variable is not an identifier");
      }
      var id := CreateVar(s, e.name);
      var next := ApplyNext(b, AssignSelectorOp(VarSelector(BlankVarId, []), VarSelector(id, [])));
      r := Ok(next);
  }

  method TranslateRange(b: ExecutionBuilder, s: Scopes, stmt: Stmt, ro: nat) returns (r: Result<ExecutionBuilder>)
    requires Sane(b) && ScopeTable.Valid(s) && stmt.RangeStmt?
    modifies b.lastPoint, b.execution, s.lastVarId, s.vars[|s.vars| - 1]
    decreases StmtSize(stmt), 3
    ensures ScopeTable.Valid(s)
    ensures StmtLands(r, b, s, RangeSpec(old(Abs(b, s)), b.currentPoint, s.funcs, stmt, ro))
  {
    var t := PushScope(s);
    assert Abs(b, t) == Push(Abs(b, s));
    r := TranslateRangeScope(b, t, stmt, ro);
    PoppedScope(s, t);
  }

  method TranslateRangeScope(b: ExecutionBuilder, s: Scopes, stmt: Stmt, ro: nat) returns (r: Result<ExecutionBuilder>)
    requires Sane(b) && ScopeTable.Valid(s) && stmt.RangeStmt?
    modifies b.lastPoint, b.execution, s.lastVarId, s.vars[|s.vars| - 1]
    decreases StmtSize(stmt), 2
    ensures ScopeTable.Valid(s)
    ensures StmtLands(r, b, s, RangeScopeSpec(old(Abs(b, s)), b.currentPoint, s.funcs, stmt, ro))
  {
    var k := TranslateRangeVar(b, s, stmt.key);
    if k.Err? {
      return Err(k.msg);
    }
    var v := TranslateRangeVar(k.value, s, stmt.value);
    if v.Err? {
      return Err(v.msg);
    }
    var body := TranslateStmtList(v.value, s, stmt.body, ro);
    if body.Err? {
      return Err(body.msg);
    }
    var cb := body.value;
    if cb.currentPoint == b.currentPoint {
      return Err("connection points must be different");
    }
    var _ := ConnectTo(cb, b.currentPoint);
    r := Ok(cb);
  }

  method TranslateSwitch(b: ExecutionBuilder, s: Scopes, stmt: Stmt, ro: nat) returns (r: Result<ExecutionBuilder>)
    requires Sane(b) && ScopeTable.Valid(s) && (stmt.SwitchStmt? || stmt.TypeSwitchStmt?)
    modifies b.lastPoint, b.execution, s.lastVarId, s.vars[|s.vars| - 1]
    decreases StmtSize(stmt), 3
    ensures ScopeTable.Valid(s)
    ensures StmtLands(r, b, s, SwitchSpec(old(Abs(b, s)), b.currentPoint, s.funcs, stmt, ro))
  {
    var t := PushScope(s);
    assert Abs(b, t) == Push(Abs(b, s));
    r := TranslateSwitchScope(b, t, stmt, ro);
    PoppedScope(s, t);
  }

  method TranslateSwitchScope(b: ExecutionBuilder, s: Scopes, stmt: Stmt, ro: nat) returns (r: Result<ExecutionBuilder>)
    requires Sane(b) && ScopeTable.Valid(s) && (stmt.SwitchStmt? || stmt.TypeSwitchStmt?)
    modifies b.lastPoint, b.execution, s.lastVarId, s.vars[|s.vars| - 1]
    decreases StmtSize(stmt), 2
    ensures ScopeTable.Valid(s)
    ensures StmtLands(r, b, s, SwitchScopeSpec(old(Abs(b, s)), b.currentPoint, s.funcs, stmt, ro))
  {
    var c := TranslateOptStmt(b, s, stmt.init, ro);
    if c.Err? {
      return Err(c.msg);
    }
    r := TranslateSwitchClauses(c.value, s, stmt, ro);
  }

  method TranslateSwitchClauses(b: ExecutionBuilder, s: Scopes, stmt: Stmt, ro: nat) returns (r: Result<ExecutionBuilder>)
    requires Sane(b) && ScopeTable.Valid(s) && (stmt.SwitchStmt? || stmt.TypeSwitchStmt?)
    modifies b.lastPoint, b.execution, s.lastVarId, s.vars[|s.vars| - 1]
    decreases ClausesSize(stmt.clauses), 3
    ensures ScopeTable.Valid(s)
    ensures StmtLands(r, b, s, SwitchClausesSpec(old(Abs(b, s)), b.currentPoint, s.funcs, stmt, ro))
  {
    if stmt.TypeSwitchStmt? && stmt.bind.Some? {
      var _ := CreateVar(s, stmt.bind.value);
    }
    r := TranslateJoinedBranches(b, s, ClauseBranches(stmt.clauses), ro);
  }

  /** Initialisers one after another, their values concatenated. */
  method TranslateValues(b: ExecutionBuilder, s: Scopes, values: seq<Expr>, n: nat, exact: bool) returns (r: Result<ExprResult>)
    requires Sane(b) && ScopeTable.Valid(s)
    modifies b.lastPoint, b.execution, s.lastVarId
    ensures ScopeTable.Valid(s)
    ensures ExprLands(r, b, s, ValuesSpec(old(Abs(b, s)), b.currentPoint, s.funcs, values, n, exact))
  {
    ghost var spec := ValuesSpec(Abs(b, s), b.currentPoint, s.funcs, values, n, exact);
    var cb := b;
    var comps: seq<VarComposition> := [];
    assert values[0..] == values;
    assert PrependValues([], spec) == spec by {
      if spec.Ok? { assert [] + spec.value.comps == spec.value.comps; }
    }
    for i := 0 to |values|
      invariant Shares(cb, b) && Sane(cb) && ScopeTable.Valid(s)
      invariant spec == PrependValues(comps, ValuesSpec(Abs(cb, s), cb.currentPoint, s.funcs, values[i..], n, exact))
    {
      assert values[i..][0] == values[i] && values[i..][1..] == values[i + 1..];
      var x := TranslateExpr(cb, s, values[i], n);
      if x.Err? {
        return Err(x.msg);
      }
      if exact && |x.value.comps| != n {
        return Err("expression must have the expected number of outputs");
      }
      PrependValuesTwice(comps, x.value.comps, ValuesSpec(Abs(x.value.builder, s), x.value.builder.currentPoint, s.funcs, values[i + 1..], n, exact));
      comps := comps + x.value.comps;
      cb := x.value.builder;
    }
    assert comps + [] == comps;
    r := Ok(ExprResult(cb, comps));
  }

  /** Declares each name in turn and stores its value. */
  method TranslateDefine(b: ExecutionBuilder, s: Scopes, names: seq<string>, comps: seq<VarComposition>) returns (next: ExecutionBuilder)
    requires Sane(b) && ScopeTable.Valid(s) && |comps| == |names|
    modifies b.lastPoint, b.execution, s.lastVarId, s.vars[|s.vars| - 1]
    ensures ScopeTable.Valid(s) && Shares(next, b) && Sane(next)
    ensures Cursor(Abs(next, s), next.currentPoint) == DefineSpec(old(Abs(b, s)), b.currentPoint, names, comps)
  {
    ghost var spec := DefineSpec(Abs(b, s), b.currentPoint, names, comps);
    next := b;
    assert names[0..] == names && comps[0..] == comps;
    for i := 0 to |names|
      invariant Shares(next, b) && Sane(next) && ScopeTable.Valid(s)
      invariant spec == DefineSpec(Abs(next, s), next.currentPoint, names[i..], comps[i..])
    {
      assert names[i..][0] == names[i] && names[i..][1..] == names[i + 1..];
      assert comps[i..][0] == comps[i] && comps[i..][1..] == comps[i + 1..];
      next := TranslateDefineOne(next, s, names[i], comps[i]);
    }
  }

  /** One name of a declaration: declared, then given its value. */
  method TranslateDefineOne(b: ExecutionBuilder, s: Scopes, name: string, comp: VarComposition) returns (next: ExecutionBuilder)
    requires Sane(b) && ScopeTable.Valid(s)
    modifies b.lastPoint, b.execution, s.lastVarId, s.vars[|s.vars| - 1]
    ensures ScopeTable.Valid(s) && Shares(next, b) && Sane(next)
    ensures var (created, id) := CreateVarSt(old(Abs(b, s)), name);
      var a := ApplyAll(created.g, b.currentPoint, VarCompositionOps(VarSelector(id, []), comp));
      Abs(next, s) == created.(g := a.g) && next.currentPoint == a.cur
  {
    var id := CreateVar(s, name);
    next := FromVarComposition(b, VarSelector(id, []), comp);
  }

  method TranslateDeclare(b: ExecutionBuilder, s: Scopes, names: seq<string>, values: seq<Expr>) returns (r: Result<ExecutionBuilder>)
    requires Sane(b) && ScopeTable.Valid(s)
    modifies b.lastPoint, b.execution, s.lastVarId, s.vars[|s.vars| - 1]
    ensures ScopeTable.Valid(s)
    ensures StmtLands(r, b, s, DeclareSpec(old(Abs(b, s)), b.currentPoint, s.funcs, names, values))
  {
    if !(|values| == 1 || |values| == |names|) {
      return Err("decl initial inputs/outputs count mismatch");
    }
    var n := if |values| == |names| then 1 else |names|;
    var v := TranslateValues(b, s, values, n, true);
    if v.Err? {
      return Err(v.msg);
    }
    var next := TranslateDefine(v.value.builder, s, names, v.value.comps);
    r := Ok(next);
  }

  method TranslateAssignLhs(b: ExecutionBuilder, s: Scopes, lhs: seq<Expr>, comps: seq<VarComposition>) returns (r: Result<ExecutionBuilder>)
    requires Sane(b) && ScopeTable.Valid(s) && |comps| == |lhs|
    modifies b.lastPoint, b.execution, s.lastVarId
    ensures ScopeTable.Valid(s)
    ensures StmtLands(r, b, s, AssignLhsSpec(old(Abs(b, s)), b.currentPoint, s.funcs, lhs, comps))
  {
    ghost var spec := AssignLhsSpec(Abs(b, s), b.currentPoint, s.funcs, lhs, comps);
    var cb := b;
    assert lhs[0..] == lhs && comps[0..] == comps;
    for i := 0 to |lhs|
      invariant Shares(cb, b) && Sane(cb) && ScopeTable.Valid(s)
      invariant spec == AssignLhsSpec(Abs(cb, s), cb.currentPoint, s.funcs, lhs[i..], comps[i..])
    {
      assert lhs[i..][0] == lhs[i] && lhs[i..][1..] == lhs[i + 1..];
      assert comps[i..][0] == comps[i] && comps[i..][1..] == comps[i + 1..];
      var x := TranslateExpr(cb, s, lhs[i], 1);
      if x.Err? {
        return Err(x.msg);
      }
      var target := x.value.comps[0];
      if |target| == 1 && target[0].path == [] {
        cb := FromVarComposition(x.value.builder, target[0].varSelector, comps[i]);
      } else {
        cb := x.value.builder;
      }
    }
    r := Ok(cb);
  }

  method TranslateAssign(b: ExecutionBuilder, s: Scopes, lhs: seq<Expr>, rhs: seq<Expr>) returns (r: Result<ExecutionBuilder>)
    requires Sane(b) && ScopeTable.Valid(s)
    modifies b.lastPoint, b.execution, s.lastVarId
    ensures ScopeTable.Valid(s)
    ensures StmtLands(r, b, s, AssignSpec(old(Abs(b, s)), b.currentPoint, s.funcs, lhs, rhs))
  {
    if !(|rhs| == 1 || |lhs| == |rhs|) {
      return Err("assign initial inputs/outputs count mismatch");
    }
    var n := if |lhs| == |rhs| then 1 else |lhs|;
    var v := TranslateValues(b, s, rhs, n, false);
    if v.Err? {
      return Err(v.msg);
    }
    if |v.value.comps| != |lhs| {
      return Err("assign final inputs/outputs count mismatch");
    }
    r := TranslateAssignLhs(v.value.builder, s, lhs, v.value.comps);
  }

  method TranslateDeclOrAssign(b: ExecutionBuilder, s: Scopes, stmt: Stmt) returns (r: Result<ExecutionBuilder>)
    requires Sane(b) && ScopeTable.Valid(s)
    modifies b.lastPoint, b.execution, s.lastVarId, s.vars[|s.vars| - 1]
    ensures ScopeTable.Valid(s)
    ensures StmtLands(r, b, s, DeclOrAssignSpec(old(Abs(b, s)), b.currentPoint, s.funcs, stmt))
  {
    var parts := DeconstructDecl(stmt);
    if parts.Err? {
      return Err(parts.msg);
    }
    if parts.value.Some? {
      r := TranslateDeclare(b, s, parts.value.value.names, parts.value.value.values);
    } else if stmt.AssignStmt? {
      r := TranslateAssign(b, s, stmt.lhs, stmt.rhs);
    } else {
      r := Ok(b);
    }
  }

  method TranslateReturn(b: ExecutionBuilder, s: Scopes, results: seq<Expr>, ro: nat) returns (r: Result<ExecutionBuilder>)
    requires Sane(b) && ScopeTable.Valid(s)
    modifies b.lastPoint, b.execution, s.lastVarId
    ensures ScopeTable.Valid(s)
    ensures StmtLands(r, b, s, ReturnSpec(old(Abs(b, s)), b.currentPoint, s.funcs, results, ro))
  {
    if !(|results| == 0 || |results| == 1 || |results| == ro) {
      return Err("return inputs/outputs count mismatch");
    }
    if |results| == 0 {
      var next := ApplyNext(b, ReturnVarsOp([]));
      return Ok(next);
    }
    r := TranslateReturnValues(b, s, results, ResultOutputs(|results|, ro));
  }

  method TranslateReturnValues(b: ExecutionBuilder, s: Scopes, results: seq<Expr>, n: nat) returns (r: Result<ExecutionBuilder>)
    requires Sane(b) && ScopeTable.Valid(s)
    modifies b.lastPoint, b.execution, s.lastVarId
    ensures ScopeTable.Valid(s)
    ensures StmtLands(r, b, s, ReturnValuesSpec(old(Abs(b, s)), b.currentPoint, s.funcs, results, n))
  {
    ghost var spec := ReturnValuesSpec(Abs(b, s), b.currentPoint, s.funcs, results, n);
    ghost var values := ValuesSpec(Abs(b, s), b.currentPoint, s.funcs, results, n, false);
    var v := TranslateValues(b, s, results, n, false);
    if v.Err? {
      return Err(v.msg);
    }
    ghost var vs := values.value;
    ghost var env := Bindings(s.vars);
    var cb, ids := TranslateReturnAssign(v.value.builder, s, v.value.comps);
    ghost var a := ReturnAssignSpec(vs.st.g, vs.cur, vs.st.nextVar, vs.comps);
    assert GraphOf(cb) == a.g && cb.currentPoint == a.cur && Bindings(s.vars) == env;
    cb := ApplyNext(cb, ReturnVarsOp(ids));
    assert Abs(cb, s) == spec.value.st && cb.currentPoint == spec.value.cur;
    r := Ok(cb);
  }

  /** Each result value copied into a fresh variable; the ids drawn. */
  method TranslateReturnAssign(b: ExecutionBuilder, s: Scopes, comps: seq<VarComposition>) returns (next: ExecutionBuilder, ids: seq<VarId>)
    requires Sane(b) && ScopeTable.Valid(s)
    modifies b.lastPoint, b.execution, s.lastVarId
    ensures ScopeTable.Valid(s) && Shares(next, b) && Sane(next)
    ensures s.lastVarId.last == old(s.lastVarId.last) + |comps|
    ensures ids == FreshIds(old(s.lastVarId.last), |comps|)
    ensures GraphAt(GraphOf(next), next.currentPoint) == ReturnAssignSpec(old(GraphOf(b)), b.currentPoint, old(s.lastVarId.last), comps)
  {
    ghost var spec := ReturnAssignSpec(GraphOf(b), b.currentPoint, s.lastVarId.last, comps);
    ghost var l0 := s.lastVarId.last;
    ghost var k := l0;
    ghost var at := GraphAt(GraphOf(b), b.currentPoint);
    next, ids := b, [];
    assert comps[0..] == comps;
    for i := 0 to |comps|
      invariant ScopeTable.Valid(s) && Shares(next, b) && Sane(next)
      invariant s.lastVarId.last == k && k == l0 + i && ids == FreshIds(l0, i)
      invariant GraphOf(next) == at.g && next.currentPoint == at.cur
      invariant spec == ReturnAssignSpec(at.g, at.cur, k, comps[i..])
    {
      ReturnAssignSpecCons(at.g, at.cur, k, comps[i..]);
      assert comps[i..][0] == comps[i] && comps[i..][1..] == comps[i + 1..];
      var id;
      next, id := TranslateReturnAssignOne(next, s, comps[i]);
      at := ApplyAll(at.g, at.cur, VarCompositionOps(VarSelector(k, []), comps[i]));
      FreshIdsSnoc(l0, i, id);
      ids := ids + [id];
      k := k + 1;
    }
    assert comps[|comps|..] == [];
  }

  /** One result value copied into a fresh variable. */
  method TranslateReturnAssignOne(b: ExecutionBuilder, s: Scopes, comp: VarComposition) returns (next: ExecutionBuilder, id: VarId)
    requires Sane(b) && ScopeTable.Valid(s)
    modifies b.lastPoint, b.execution, s.lastVarId
    ensures ScopeTable.Valid(s) && Shares(next, b) && Sane(next)
    ensures id == old(s.lastVarId.last) && s.lastVarId.last == id + 1
    ensures var a := ApplyAll(old(GraphOf(b)), b.currentPoint, VarCompositionOps(VarSelector(id, []), comp));
      GraphOf(next) == a.g && next.currentPoint == a.cur
  {
    id := NewVarId(s);
    next := FromVarComposition(b, VarSelector(id, []), comp);
  }

  // ---------------------------------------------------------------------
  // A whole function

  /** The names of one field list, declared in turn in the innermost frame. */
  function DeclareNamesSpec(st: St, names: seq<string>): (r: St)
    requires |st.env| >= 1
    ensures r.g == st.g && |r.env| == |st.env| && st.nextVar <= r.nextVar
    decreases |names|
  {
    if |names| == 0 then st else DeclareNamesSpec(CreateVarSt(st, names[0]).0, names[1..])
  }

  /** Every name of every field, in order. */
  function DeclareFieldsSpec(st: St, fields: seq<Field>): (r: St)
    requires |st.env| >= 1
    ensures r.g == st.g && |r.env| == |st.env| && st.nextVar <= r.nextVar
    decreases |fields|
  {
    if |fields| == 0 then st else DeclareFieldsSpec(DeclareNamesSpec(st, fields[0].names), fields[1..])
  }

  /** The graph of a function: a fresh graph holding only the root, a new
      frame holding the parameters and then the named results, and the body
      translated from the root with one return value per result field. */
  function FuncSpec(nextVar: VarId, env: seq<map<string, VarId>>, funcs: map<string, FuncId>, f: FuncDecl): (r: Result<Cursor>)
    ensures r.Ok? ==> nextVar <= r.value.st.nextVar && |r.value.st.env| == |env| + 1
  {
    FuncBodySpec(St(Graph(0, map[]), nextVar, env + [map[]]), 0, funcs, f)
  }

  /** The parameters and named results declared, then the body. */
  function FuncBodySpec(st: St, cur: ExecutionPoint, funcs: map<string, FuncId>, f: FuncDecl): (r: Result<Cursor>)
    requires |st.env| >= 1 && cur <= st.g.last
    ensures r.Ok? ==> Moves(st, cur, r.value.st, r.value.cur) && |r.value.st.env| == |st.env|
  {
    var declared := DeclareFieldsSpec(DeclareFieldsSpec(st, f.params), f.results);
    StmtListSpec(declared, cur, funcs, f.body, NumFields(f.results))
  }

  /** Translates a function declaration into its graph. The scope table the
      caller passes keeps its frames; the body's names live in a frame of
      their own. */
  method ExecutionFromFunc(s: Scopes, f: FuncDecl) returns (r: Result<Execution>)
    requires ScopeTable.Valid(s)
    modifies s.lastVarId
    ensures ScopeTable.Valid(s) && Bindings(s.vars) == old(Bindings(s.vars))
    ensures var spec := FuncSpec(old(s.lastVarId.last), old(Bindings(s.vars)), s.funcs, f);
      && (r.Ok? <==> spec.Ok?)
      && (r.Ok? ==> r.value.rootPoint == 0 && r.value.transitions == spec.value.st.g.transitions
                    && s.lastVarId.last == spec.value.st.nextVar)
  {
    var b := NewExecutionBuilder(false);
    var t := PushScope(s);
    ghost var st0 := Abs(b, t);
    assert st0 == St(Graph(0, map[]), s.lastVarId.last, Bindings(s.vars) + [map[]]);
    var c := TranslateFuncBody(b, t, f);
    assert StmtLands(c, b, t, FuncBodySpec(st0, 0, s.funcs, f));
    PoppedScope(s, t);
    if c.Err? {
      return Err(c.msg);
    }
    r := Ok(Build(c.value));
  }

  method TranslateFuncBody(b: ExecutionBuilder, s: Scopes, f: FuncDecl) returns (r: Result<ExecutionBuilder>)
    requires Sane(b) && ScopeTable.Valid(s)
    modifies b.lastPoint, b.execution, s.lastVarId, s.vars[|s.vars| - 1]
    ensures ScopeTable.Valid(s)
    ensures StmtLands(r, b, s, FuncBodySpec(old(Abs(b, s)), b.currentPoint, s.funcs, f))
  {
    DeclareFields(b, s, f.params);
    DeclareFields(b, s, f.results);
    r := TranslateStmtList(b, s, f.body, NumFields(f.results));
  }

  /** Declares every name of every field of a list. */
  method DeclareFields(b: ExecutionBuilder, s: Scopes, fields: seq<Field>)
    requires ScopeTable.Valid(s)
    modifies s.lastVarId, s.vars[|s.vars| - 1]
    ensures ScopeTable.Valid(s) && Abs(b, s) == DeclareFieldsSpec(old(Abs(b, s)), fields)
  {
    ghost var spec := DeclareFieldsSpec(Abs(b, s), fields);
    assert fields[0..] == fields;
    for i := 0 to |fields|
      invariant ScopeTable.Valid(s)
      invariant spec == DeclareFieldsSpec(Abs(b, s), fields[i..])
    {
      assert fields[i..][0] == fields[i] && fields[i..][1..] == fields[i + 1..];
      DeclareNames(b, s, fields[i].names);
    }
  }

  /** Declares the names of one field. */
  method DeclareNames(b: ExecutionBuilder, s: Scopes, names: seq<string>)
    requires ScopeTable.Valid(s)
    modifies s.lastVarId, s.vars[|s.vars| - 1]
    ensures ScopeTable.Valid(s) && Abs(b, s) == DeclareNamesSpec(old(Abs(b, s)), names)
  {
    ghost var spec := DeclareNamesSpec(Abs(b, s), names);
    ghost var at := Abs(b, s);
    assert names[0..] == names;
    for i := 0 to |names|
      invariant ScopeTable.Valid(s) && Abs(b, s) == at
      invariant spec == DeclareNamesSpec(at, names[i..])
    {
      assert names[i..][0] == names[i] && names[i..][1..] == names[i + 1..];
      var _ := CreateVar(s, names[i]);
      at := CreateVarSt(at, names[i]).0;
    }
  }
}
