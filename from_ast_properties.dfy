/** What the translator's functions promise about particular statements and
    expressions: the shape of the graph a call, a return, an if, a loop and a
    function's declarations leave behind. */
module FromAstProperties {
  import opened Wrappers
  import opened ExecutionOps
  import opened ExecutionModel
  import opened ScopeTable
  import opened Builder
  import opened Ast
  import opened FromAst

  // ---------------------------------------------------------------------
  // Expressions

  /** A call of a known function: its arguments are translated first, and
      the call succeeds exactly when they do. The call then adds one
      UseSelectorsOp, the last transition of the point the arguments
      reached, to a new point, with the argument values as inputs and `n`
      fresh output variables; it gives one value per output. */
  lemma CallEmitsOneUse(st: St, cur: ExecutionPoint, funcs: map<string, FuncId>, name: string, args: seq<Expr>, n: nat)
    requires name in funcs
    ensures var r, a := ExprSpec(st, cur, funcs, CallExpr(Ident(name), args), n), ArgsSpec(st, cur, funcs, args);
      && (r.Ok? <==> a.Ok?)
      && (r.Ok? ==>
          && r.value.cur == a.value.st.g.last + 1 && r.value.st.g.last == a.value.st.g.last + 1
          && r.value.st.nextVar == a.value.st.nextVar + n && r.value.st.env == st.env
          && r.value.comps == Singletons(FreshIds(a.value.st.nextVar, n))
          && TransitionsOf(r.value.st.g.transitions, a.value.cur)
               == TransitionsOf(a.value.st.g.transitions, a.value.cur)
                  + [ExecutionTransition(a.value.st.g.last + 1, UseSelectorsOp(funcs[name], a.value.comps, FreshIds(a.value.st.nextVar, n)))])
  {
    var a := ArgsSpec(st, cur, funcs, args);
    if a.Ok? {
      AddTransitionEffect(a.value.st.g.transitions, a.value.cur,
        ExecutionTransition(a.value.st.g.last + 1, UseSelectorsOp(funcs[name], a.value.comps, FreshIds(a.value.st.nextVar, n))));
    }
  }

  /** A call of a known function with no arguments: one UseSelectorsOp from
      the current point to a new point, with `n` fresh output variables, and
      one value per output. */
  lemma CallWithoutArguments(st: St, cur: ExecutionPoint, funcs: map<string, FuncId>, name: string, n: nat)
    requires name in funcs
    ensures var r := ExprSpec(st, cur, funcs, CallExpr(Ident(name), []), n);
      && r.Ok? && r.value.cur == st.g.last + 1 && r.value.st.g.last == st.g.last + 1
      && r.value.st.nextVar == st.nextVar + n && r.value.st.env == st.env
      && r.value.comps == Singletons(FreshIds(st.nextVar, n))
      && TransitionsOf(r.value.st.g.transitions, cur)
           == TransitionsOf(st.g.transitions, cur) + [ExecutionTransition(st.g.last + 1, UseSelectorsOp(funcs[name], [], FreshIds(st.nextVar, n)))]
  {
    assert ArgsSpec(st, cur, funcs, []) == Ok(Values(st, cur, []));
    CallEmitsOneUse(st, cur, funcs, name, [], n);
  }

  /** A call of an unknown function emits nothing and gives blank values. */
  lemma UnknownCallIsInert(st: St, cur: ExecutionPoint, funcs: map<string, FuncId>, fun: Expr, args: seq<Expr>, n: nat)
    requires !fun.Ident? || fun.name !in funcs
    ensures ExprSpec(st, cur, funcs, CallExpr(fun, args), n) == Ok(Values(st, cur, Blanks(n)))
  {
  }

  /** A two-index slice is its operand. */
  lemma TwoIndexSliceIsTransparent(st: St, cur: ExecutionPoint, funcs: map<string, FuncId>, x: Expr, n: nat)
    ensures ExprSpec(st, cur, funcs, SliceExpr(x, false), n) == ExprSpec(st, cur, funcs, x, 1)
  {
  }

  /** A three-index slice is a call of the scope's slice function on its
      operand: one UseSelectorsOp after the operand, with `n` fresh
      outputs. Without that function in scope the translation fails. */
  lemma MaxSliceEmitsOneUse(st: St, cur: ExecutionPoint, funcs: map<string, FuncId>, x: Expr, n: nat)
    ensures var r, v := ExprSpec(st, cur, funcs, SliceExpr(x, true), n), ExprSpec(st, cur, funcs, x, 1);
      && (SliceFuncName !in funcs ==> r.Err?)
      && (SliceFuncName in funcs ==>
          && (r.Ok? <==> v.Ok?)
          && (r.Ok? ==>
              && r.value.cur == v.value.st.g.last + 1 && r.value.st.g.last == v.value.st.g.last + 1
              && r.value.st.nextVar == v.value.st.nextVar + n && r.value.st.env == st.env
              && r.value.comps == Singletons(FreshIds(v.value.st.nextVar, n))
              && TransitionsOf(r.value.st.g.transitions, v.value.cur)
                   == TransitionsOf(v.value.st.g.transitions, v.value.cur)
                      + [ExecutionTransition(v.value.st.g.last + 1, UseSelectorsOp(funcs[SliceFuncName], v.value.comps, FreshIds(v.value.st.nextVar, n)))]))
  {
    if SliceFuncName in funcs {
      CallEmitsOneUse(st, cur, funcs, SliceFuncName, [x], n);
      var v := ExprSpec(st, cur, funcs, x, 1);
      assert [x][1..] == [];
      if v.Ok? {
        assert [x][0] == x;
        assert ArgsSpec(v.value.st, v.value.cur, funcs, [x][1..]) == Ok(Values(v.value.st, v.value.cur, []));
        assert [v.value.comps[0]] + [] == [v.value.comps[0]];
        assert ArgsSpec(st, cur, funcs, [x]) == Ok(Values(v.value.st, v.value.cur, [v.value.comps[0]]));
        assert [v.value.comps[0]] == v.value.comps;
      }
    }
  }

  // ---------------------------------------------------------------------
  // Returns

  /** A naked return: one ReturnVarsOp naming no variable. */
  lemma NakedReturn(st: St, cur: ExecutionPoint, funcs: map<string, FuncId>, ro: nat)
    ensures var r := ReturnSpec(st, cur, funcs, [], ro);
      && r.Ok? && r.value.cur == st.g.last + 1 && r.value.st.nextVar == st.nextVar
      && TransitionsOf(r.value.st.g.transitions, cur)
           == TransitionsOf(st.g.transitions, cur) + [ExecutionTransition(st.g.last + 1, ReturnVarsOp([]))]
  {
    AddTransitionEffect(st.g.transitions, cur, ExecutionTransition(st.g.last + 1, ReturnVarsOp([])));
  }

  /** `return f()` with `f` known, its result translated for `n` values: the
      call hands out `n` variables for its outputs and the return copies
      each into a variable of its own, so `2 * n` ids are drawn, and the
      points are the call's, one per copy and the return's. */
  lemma {:induction false} ReturnOfCall(st: St, cur: ExecutionPoint, funcs: map<string, FuncId>, name: string, n: nat)
    requires name in funcs
    ensures var r := ReturnValuesSpec(st, cur, funcs, [CallExpr(Ident(name), [])], n);
      r.Ok? && r.value.st.nextVar == st.nextVar + 2 * n && r.value.cur == st.g.last + 2 + n
  {
    CallWithoutArguments(st, cur, funcs, name, n);
    var x := ExprSpec(st, cur, funcs, CallExpr(Ident(name), []), n).value;
    assert ValuesSpec(x.st, x.cur, funcs, [], n, false) == Ok(Values(x.st, x.cur, []));
    assert ValuesSpec(st, cur, funcs, [CallExpr(Ident(name), [])], n, false) == Ok(Values(x.st, x.cur, x.comps + []));
    assert x.comps + [] == Singletons(FreshIds(st.nextVar, n));
    SingletonAssignments(x.st.g, x.cur, x.st.nextVar, Singletons(FreshIds(st.nextVar, n)));
  }

  /** Copying single-embed values into fresh variables takes one point per
      value. */
  lemma {:induction false} SingletonAssignments(g: Graph, cur: ExecutionPoint, first: VarId, comps: seq<VarComposition>)
    requires forall i :: 0 <= i < |comps| ==> |comps[i]| == 1
    ensures var a := ReturnAssignSpec(g, cur, first, comps);
      a.g.last == g.last + |comps| && (|comps| > 0 ==> a.cur == a.g.last)
    decreases |comps|
  {
    if |comps| > 0 {
      var a := ApplyAll(g, cur, VarCompositionOps(VarSelector(first, []), comps[0]));
      assert |VarCompositionOps(VarSelector(first, []), comps[0])| == 1;
      assert forall i :: 0 <= i < |comps[1..]| ==> comps[1..][i] == comps[i + 1];
      SingletonAssignments(a.g, a.cur, first + 1, comps[1..]);
    }
  }

  /** The translator as written asks a single returned call for one value
      even in a function with several results, so the return names one
      variable; asked for all `ro` of them, it names `ro`. */
  lemma ReturnOfMultiValueCall(st: St, cur: ExecutionPoint, funcs: map<string, FuncId>, name: string, ro: nat)
    requires name in funcs && ro >= 2
    ensures var asWritten := ReturnValuesSpec(st, cur, funcs, [CallExpr(Ident(name), [])], ResultOutputsAsWritten(1, ro));
      asWritten.Ok? && asWritten.value.st.nextVar == st.nextVar + 2
    ensures var r := ReturnSpec(st, cur, funcs, [CallExpr(Ident(name), [])], ro);
      r.Ok? && r.value.st.nextVar == st.nextVar + 2 * ro
  {
    ReturnOfCall(st, cur, funcs, name, 1);
    ReturnOfCall(st, cur, funcs, name, ro);
  }

  // ---------------------------------------------------------------------
  // Statements

  /** The end of a transition list, when there is one. */
  function LastTransition(ts: seq<ExecutionTransition>): (r: Option<ExecutionTransition>)
    ensures r.Some? <==> |ts| > 0
    ensures forall t :: r == Some(t) ==> t in ts
  {
    if |ts| == 0 then None else Some(ts[|ts| - 1])
  }

  /** A for loop that succeeds ends at a point of its own, whose last
      transition is a NoOp back edge to the point the init reached, inside
      the loop's frame. */
  lemma ForBackEdge(st: St, cur: ExecutionPoint, funcs: map<string, FuncId>, stmt: Stmt, ro: nat)
    requires |st.env| >= 1 && cur <= st.g.last && stmt.ForStmt?
    ensures var r, init := ForSpec(st, cur, funcs, stmt, ro), OptStmtSpec(Push(st), cur, funcs, stmt.init, ro);
      r.Ok? ==> (&& init.Ok? && r.value.cur != init.value.cur
                 && LastTransition(TransitionsOf(r.value.st.g.transitions, r.value.cur)) == Some(ExecutionTransition(init.value.cur, NoOp)))
  {
    var r := ForScopeSpec(Push(st), cur, funcs, stmt, ro);
    var init := OptStmtSpec(Push(st), cur, funcs, stmt.init, ro);
    if r.Ok? {
      assert init.Ok?;
      var body := StmtListSpec(init.value.st, init.value.cur, funcs, stmt.body, ro);
      assert body.Ok?;
      var post := OptStmtSpec(body.value.st, body.value.cur, funcs, stmt.post, ro);
      assert post.Ok?;
      var cond := ExprSpec(post.value.st, post.value.cur, funcs, stmt.cond, 1);
      assert cond.Ok? && cond.value.cur != init.value.cur;
      AddTransitionEffect(cond.value.st.g.transitions, cond.value.cur, ExecutionTransition(init.value.cur, NoOp));
    }
  }

  /** Without init, the back edge goes to the point the loop started from. */
  lemma ForWithoutInitBackEdge(st: St, cur: ExecutionPoint, funcs: map<string, FuncId>, stmt: Stmt, ro: nat)
    requires |st.env| >= 1 && cur <= st.g.last && stmt.ForStmt? && stmt.init.None?
    ensures var r := ForSpec(st, cur, funcs, stmt, ro);
      r.Ok? ==> r.value.cur != cur && LastTransition(TransitionsOf(r.value.st.g.transitions, r.value.cur)) == Some(ExecutionTransition(cur, NoOp))
  {
    assert OptStmtSpec(Push(st), cur, funcs, stmt.init, ro) == Ok(Cursor(Push(st), cur));
    ForBackEdge(st, cur, funcs, stmt, ro);
  }

  /** A for loop whose init, post and body emit nothing and whose condition
      is a name fails: the back edge would join a point to itself. */
  lemma InertForFails(st: St, cur: ExecutionPoint, funcs: map<string, FuncId>, cond: string, ro: nat)
    requires |st.env| >= 1 && cur <= st.g.last
    ensures ForSpec(st, cur, funcs, ForStmt(None, Ident(cond), None, [OtherStmt]), ro).Err?
  {
    var stmt := ForStmt(None, Ident(cond), None, [OtherStmt]);
    assert OptStmtSpec(Push(st), cur, funcs, None, ro) == Ok(Cursor(Push(st), cur));
    assert StmtListSpec(Push(st), cur, funcs, [OtherStmt], ro) == Ok(Cursor(Push(st), cur)) by {
      assert [OtherStmt][1..] == [];
      assert StmtListSpec(Push(st), cur, funcs, [], ro) == Ok(Cursor(Push(st), cur));
    }
    assert ExprSpec(Push(st), cur, funcs, Ident(cond), 1).value.cur == cur;
    assert ForScopeSpec(Push(st), cur, funcs, stmt, ro).Err?;
  }

  /** A range loop that succeeds ends at a point of its own, whose last
      transition is a NoOp back edge to the point before the loop. */
  lemma RangeBackEdge(st: St, cur: ExecutionPoint, funcs: map<string, FuncId>, stmt: Stmt, ro: nat)
    requires |st.env| >= 1 && cur <= st.g.last && stmt.RangeStmt?
    ensures var r := RangeSpec(st, cur, funcs, stmt, ro);
      r.Ok? ==> r.value.cur != cur && LastTransition(TransitionsOf(r.value.st.g.transitions, r.value.cur)) == Some(ExecutionTransition(cur, NoOp))
  {
    var r := RangeScopeSpec(Push(st), cur, funcs, stmt, ro);
    if r.Ok? {
      var k := RangeVarSpec(Push(st), cur, stmt.key).value;
      var v := RangeVarSpec(k.st, k.cur, stmt.value).value;
      var body := StmtListSpec(v.st, v.cur, funcs, stmt.body, ro).value;
      AddTransitionEffect(body.st.g.transitions, body.cur, ExecutionTransition(cur, NoOp));
    }
  }

  /** A range key that is a name other than "_": bound to the next fresh id
      in the innermost frame, and reset from blank by one transition. */
  lemma RangeKeyIsFresh(st: St, cur: ExecutionPoint, name: string)
    requires |st.env| >= 1 && name != BlankVarName
    ensures var r := RangeVarSpec(st, cur, Some(Ident(name)));
      && r.Ok? && Lookup(r.value.st.env, name) == Some(st.nextVar) && r.value.st.nextVar == st.nextVar + 1
      && r.value.cur == st.g.last + 1
      && TransitionsOf(r.value.st.g.transitions, cur)
           == TransitionsOf(st.g.transitions, cur) + [ExecutionTransition(st.g.last + 1, AssignSelectorOp(VarSelector(BlankVarId, []), VarSelector(st.nextVar, [])))]
  {
    AddTransitionEffect(st.g.transitions, cur, ExecutionTransition(st.g.last + 1, AssignSelectorOp(VarSelector(BlankVarId, []), VarSelector(st.nextVar, []))));
  }

  /** `if c {}`: the condition's point gets exactly one new transition, a
      NoOp to the point after the if; no transition bypasses the body. */
  lemma IfWithoutElse(st: St, cur: ExecutionPoint, funcs: map<string, FuncId>, ro: nat)
    requires |st.env| >= 1 && cur <= st.g.last
    ensures var r := IfSpec(st, cur, funcs, IfStmt(None, [], None), ro);
      && r.Ok? && r.value.cur == st.g.last + 1 && r.value.st.env == st.env
      && TransitionsOf(r.value.st.g.transitions, cur)
           == TransitionsOf(st.g.transitions, cur) + [ExecutionTransition(st.g.last + 1, NoOp)]
  {
    var after := st.g.last + 1;
    var inner := Push(st).(g := st.g.(last := after));
    assert StmtListSpec(Push(inner), cur, funcs, [], ro) == Ok(Cursor(Push(inner), cur));
    assert BranchesSpec(inner, cur, funcs, [Branch(None, [])], ro, after)
        == Ok(Cursor(inner.(g := FromAst.Connect(inner.g, cur, after)), cur)) by {
      assert [Branch(None, [])][1..] == [];
    }
    AddTransitionEffect(st.g.transitions, cur, ExecutionTransition(after, NoOp));
  }

  /** An empty branch without init: the point joined to `after`, nothing
      else changed. */
  lemma EmptyBranch(st: St, cur: ExecutionPoint, funcs: map<string, FuncId>, ro: nat, after: ExecutionPoint)
    requires |st.env| >= 1 && cur <= st.g.last && after <= st.g.last && cur != after
    ensures BranchSpec(st, cur, funcs, Branch(None, []), ro, after) == Ok(Cursor(st.(g := FromAst.Connect(st.g, cur, after)), cur))
  {
    assert StmtListSpec(Push(st), cur, funcs, [], ro) == Ok(Cursor(Push(st), cur));
  }

  /** `if c {} else {}`: two NoOp transitions from the condition's point to
      the point after the if, one per branch. */
  lemma IfWithElse(st: St, cur: ExecutionPoint, funcs: map<string, FuncId>, ro: nat)
    requires |st.env| >= 1 && cur <= st.g.last
    ensures var r := IfSpec(st, cur, funcs, IfStmt(None, [], Some(BlockStmt([]))), ro);
      && r.Ok? && r.value.cur == st.g.last + 1
      && TransitionsOf(r.value.st.g.transitions, cur)
           == TransitionsOf(st.g.transitions, cur) + [ExecutionTransition(st.g.last + 1, NoOp), ExecutionTransition(st.g.last + 1, NoOp)]
  {
    var after := st.g.last + 1;
    var edge := ExecutionTransition(after, NoOp);
    var inner := Push(st).(g := st.g.(last := after));
    var once := inner.(g := FromAst.Connect(inner.g, cur, after));
    var twice := once.(g := FromAst.Connect(once.g, cur, after));
    assert IfChain(IfStmt(None, [], Some(BlockStmt([])))) == Ok([Branch(None, []), Branch(None, [])]);
    EmptyBranch(inner, cur, funcs, ro, after);
    EmptyBranch(once, cur, funcs, ro, after);
    assert BranchesSpec(once, cur, funcs, [Branch(None, [])], ro, after) == Ok(Cursor(twice, cur)) by {
      assert [Branch(None, [])][1..] == [];
    }
    assert BranchesSpec(inner, cur, funcs, [Branch(None, []), Branch(None, [])], ro, after) == Ok(Cursor(twice, cur)) by {
      assert [Branch(None, []), Branch(None, [])][1..] == [Branch(None, [])];
    }
    AddTransitionEffect(st.g.transitions, cur, edge);
    AddTransitionEffect(once.g.transitions, cur, edge);
  }

  /** The if chain of a four-branch statement, `if init; c {} else if c {}
      else if init; c {} else {}`: four branches, with inits on the first and
      the third only. */
  method IfDeconstructionExample() returns (inits: seq<Option<Stmt>>, bodies: seq<seq<Stmt>>)
    ensures |inits| == 4 && |bodies| == 4
    ensures inits[0].Some? && inits[1].None? && inits[2].Some? && inits[3].None?
  {
    var body := [ExprStmt(CallExpr(Ident("panic"), [OtherExpr]))];
    var init := AssignStmt([Ident("x")], true, [OtherExpr]);
    var stmt := IfStmt(Some(init), body, Some(IfStmt(None, body, Some(IfStmt(Some(init), body, Some(BlockStmt(body)))))));
    var r := DeconstructIf(stmt);
    IfChainOfExample(init, body);
    inits, bodies := r.value.0, r.value.1;
  }

  lemma IfChainOfExample(init: Stmt, body: seq<Stmt>)
    ensures IfChain(IfStmt(Some(init), body, Some(IfStmt(None, body, Some(IfStmt(Some(init), body, Some(BlockStmt(body))))))))
      == Ok([Branch(Some(init), body), Branch(None, body), Branch(Some(init), body), Branch(None, body)])
  {
    var third := IfStmt(Some(init), body, Some(BlockStmt(body)));
    var second := IfStmt(None, body, Some(third));
    assert IfChain(third) == Ok([Branch(Some(init), body), Branch(None, body)]);
    assert IfChain(second) == Ok([Branch(None, body)] + [Branch(Some(init), body), Branch(None, body)]);
    assert [Branch(None, body)] + [Branch(Some(init), body), Branch(None, body)]
        == [Branch(None, body), Branch(Some(init), body), Branch(None, body)];
    assert [Branch(Some(init), body)] + [Branch(None, body), Branch(Some(init), body), Branch(None, body)]
        == [Branch(Some(init), body), Branch(None, body), Branch(Some(init), body), Branch(None, body)];
  }

  /** Translating `a + b` is translating `a`, then `b` from where `a` ended;
      a failure in `a` is the failure of the whole. */
  lemma {:induction false} StmtListAppend(st: St, cur: ExecutionPoint, funcs: map<string, FuncId>, a: seq<Stmt>, b: seq<Stmt>, ro: nat)
    requires |st.env| >= 1 && cur <= st.g.last
    ensures var ra := StmtListSpec(st, cur, funcs, a, ro);
      StmtListSpec(st, cur, funcs, a + b, ro) == if ra.Err? then ra else StmtListSpec(ra.value.st, ra.value.cur, funcs, b, ro)
    decreases |a|
  {
    if |a| == 0 {
      assert a + b == b;
    } else {
      assert (a + b)[0] == a[0] && (a + b)[1..] == a[1..] + b;
      var c := StmtSpec(st, cur, funcs, a[0], ro);
      if c.Ok? {
        StmtListAppend(c.value.st, c.value.cur, funcs, a[1..], b, ro);
      }
    }
  }

  // ---------------------------------------------------------------------
  // A function's declarations

  /** How many of `names` are not "_". */
  function NamedCount(names: seq<string>): (n: nat)
    ensures n <= |names|
  {
    if |names| == 0 then 0 else (if names[0] == BlankVarName then 0 else 1) + NamedCount(names[1..])
  }

  /** Declaring a field's names draws one id per name other than "_", keeps
      the outer frames, and leaves every name not declared as it was. */
  lemma {:induction false} DeclareNamesOthers(st: St, names: seq<string>, other: string)
    requires |st.env| >= 1
    ensures var r := DeclareNamesSpec(st, names);
      && r.nextVar == st.nextVar + NamedCount(names)
      && r.env[..|r.env| - 1] == st.env[..|st.env| - 1]
      && (other !in names ==> Lookup(r.env, other) == Lookup(st.env, other))
    decreases |names|
  {
    if |names| > 0 {
      var created := CreateVarSt(st, names[0]).0;
      DeclareNamesOthers(created, names[1..], other);
      if names[0] != BlankVarName && other !in names {
        BindingOtherName(st.env, names[0], other, st.nextVar);
      }
      assert other !in names ==> other !in names[1..];
    }
  }

  /** Every declared name other than "_" is visible afterwards, bound to an
      id drawn by the declarations. */
  lemma {:induction false} DeclareNamesBinds(st: St, names: seq<string>, name: string)
    requires |st.env| >= 1 && name in names && name != BlankVarName
    ensures var r := DeclareNamesSpec(st, names);
      Lookup(r.env, name).Some? && st.nextVar <= Lookup(r.env, name).value < r.nextVar
    decreases |names|
  {
    var created := CreateVarSt(st, names[0]).0;
    if name in names[1..] {
      DeclareNamesBinds(created, names[1..], name);
    } else {
      assert names[0] == name;
      DeclareNamesOthers(created, names[1..], name);
    }
  }
}
