/** Where the translator's transitions lead, and the shape of the join after
    an if chain or a switch.

    Every transition the translator adds leads to a point it has just handed
    out, with two exceptions: a loop's back edge, which leads at the latest
    to the point the statement started from, and the NoOp edge that joins a
    branch body to the point after the branches. From that, the point after
    an if chain is entered by exactly one NoOp per branch, from the point
    that branch's body reached, and by nothing else: no transition bypasses
    the bodies, with or without an `else`. */
module FromAstJoins {
  import opened Wrappers
  import opened ExecutionOps
  import opened ExecutionModel
  import opened Builder
  import opened ScopeTable
  import opened Ast
  import opened FromAst

  // ---------------------------------------------------------------------
  // How a graph grows

  /** `h` handed out at least the points of `g`, and only appended to its
      transition lists. */
  ghost predicate Grows(g: Graph, h: Graph)
  {
    g.last <= h.last && forall q :: TransitionsOf(g.transitions, q) <= TransitionsOf(h.transitions, q)
  }

  /** The transitions of `q` appended between `g` and `h`. */
  function Added(g: Graph, h: Graph, q: ExecutionPoint): seq<ExecutionTransition>
  {
    var before, now := TransitionsOf(g.transitions, q), TransitionsOf(h.transitions, q);
    if |before| <= |now| then now[|before|..] else []
  }

  /** `h` grew from `g`, and every transition it added leads to a point of
      `olds` or to a point handed out after `g`. */
  ghost predicate AddsTo(g: Graph, h: Graph, olds: set<ExecutionPoint>)
  {
    && Grows(g, h)
    && forall q, t :: t in Added(g, h, q) ==> t.toPoint in olds || g.last < t.toPoint
  }

  lemma AddsRefl(g: Graph, olds: set<ExecutionPoint>)
    ensures AddsTo(g, g, olds)
  {
    forall q ensures Added(g, g, q) == [] {
    }
  }

  /** Handing out points without adding transitions. */
  lemma AddsRaise(g: Graph, last: ExecutionPoint, olds: set<ExecutionPoint>)
    requires g.last <= last
    ensures AddsTo(g, g.(last := last), olds)
  {
    forall q ensures Added(g, g.(last := last), q) == [] {
    }
  }

  lemma AddsWeaken(g: Graph, h: Graph, olds: set<ExecutionPoint>, more: set<ExecutionPoint>)
    requires AddsTo(g, h, olds) && olds <= more
    ensures AddsTo(g, h, more)
  {
  }

  /** What `h` added since `g` is what it added since `m`, after what `m`
      added since `g`. */
  lemma AddedSplit(g: Graph, m: Graph, h: Graph, q: ExecutionPoint)
    requires Grows(g, m) && Grows(m, h)
    ensures TransitionsOf(g.transitions, q) <= TransitionsOf(h.transitions, q)
    ensures Added(g, h, q) == Added(g, m, q) + Added(m, h, q)
  {
    var a, b, c := TransitionsOf(g.transitions, q), TransitionsOf(m.transitions, q), TransitionsOf(h.transitions, q);
    assert a <= b && b <= c;
    assert b == c[..|b|] && a == b[..|a|];
    assert a == c[..|a|];
    assert c[|a|..] == c[|a|..|b|] + c[|b|..];
  }

  /** Growth in two steps, where the second step's old targets are old
      targets of the first or points the first handed out. */
  lemma AddsTrans(g: Graph, m: Graph, h: Graph, olds: set<ExecutionPoint>, mids: set<ExecutionPoint>)
    requires AddsTo(g, m, olds) && AddsTo(m, h, mids)
    requires forall p :: p in mids ==> p in olds || g.last < p
    ensures AddsTo(g, h, olds)
  {
    forall q ensures TransitionsOf(g.transitions, q) <= TransitionsOf(h.transitions, q) {
      AddedSplit(g, m, h, q);
    }
    forall q, t | t in Added(g, h, q) ensures t.toPoint in olds || g.last < t.toPoint {
      AddedSplit(g, m, h, q);
    }
  }

  /** ApplyNext leads to the point it hands out. */
  lemma NextAdds(g: Graph, cur: ExecutionPoint, op: Operation)
    ensures AddsTo(g, Next(g, cur, op).g, {})
  {
    var t := ExecutionTransition(g.last + 1, op);
    var h := Next(g, cur, op).g;
    AddTransitionEffect(g.transitions, cur, t);
    forall q ensures Added(g, h, q) == if q == cur then [t] else [] {
    }
  }

  /** ConnectTo adds one NoOp transition, from `cur` to `to`. */
  lemma ConnectAdds(g: Graph, cur: ExecutionPoint, to: ExecutionPoint)
    ensures AddsTo(g, FromAst.Connect(g, cur, to), {to})
    ensures forall q :: Added(g, FromAst.Connect(g, cur, to), q) == if q == cur then [ExecutionTransition(to, NoOp)] else []
  {
    AddTransitionEffect(g.transitions, cur, ExecutionTransition(to, NoOp));
  }

  lemma {:induction false} ApplyAllAdds(g: Graph, cur: ExecutionPoint, ops: seq<Operation>)
    ensures AddsTo(g, ApplyAll(g, cur, ops).g, {})
    decreases |ops|
  {
    if |ops| == 0 {
      AddsRefl(g, {});
    } else {
      var n := Next(g, cur, ops[0]);
      NextAdds(g, cur, ops[0]);
      ApplyAllAdds(n.g, n.cur, ops[1..]);
      AddsTrans(g, n.g, ApplyAll(g, cur, ops).g, {}, {});
    }
  }

  // ---------------------------------------------------------------------
  // Expressions, assignments and returns lead only to new points

  lemma {:induction false} ExprAdds(st: St, cur: ExecutionPoint, funcs: map<string, FuncId>, e: Expr, n: nat)
    decreases ExprSize(e), 0
    ensures var r := ExprSpec(st, cur, funcs, e, n); r.Ok? ==> AddsTo(st.g, r.value.st.g, {})
  {
    match e
    case ParenExpr(x) => ExprAdds(st, cur, funcs, x, n);
    case SelectorExpr(x, _) => ExprAdds(st, cur, funcs, x, 1);
    case CallExpr(fun, args) =>
      if fun.Ident? && fun.name in funcs {
        CallAdds(st, cur, funcs, funcs[fun.name], args, n);
      } else {
        AddsRefl(st.g, {});
      }
    case SliceExpr(x, hasMax) =>
      if !hasMax {
        ExprAdds(st, cur, funcs, x, 1);
      } else if SliceFuncName in funcs {
        assert ExprsSize([x]) == ExprSize(x) by { assert [x][1..] == []; }
        CallAdds(st, cur, funcs, funcs[SliceFuncName], [x], n);
      }
    case _ => AddsRefl(st.g, {});
  }

  lemma {:induction false} CallAdds(st: St, cur: ExecutionPoint, funcs: map<string, FuncId>, id: FuncId, args: seq<Expr>, n: nat)
    decreases ExprsSize(args), 2
    ensures var r := CallSpec(st, cur, funcs, id, args, n); r.Ok? ==> AddsTo(st.g, r.value.st.g, {})
  {
    var a := ArgsSpec(st, cur, funcs, args);
    ArgsAdds(st, cur, funcs, args);
    if a.Ok? {
      var op := UseSelectorsOp(id, a.value.comps, FreshIds(a.value.st.nextVar, n));
      NextAdds(a.value.st.g, a.value.cur, op);
      AddsTrans(st.g, a.value.st.g, Next(a.value.st.g, a.value.cur, op).g, {}, {});
    }
  }

  lemma {:induction false} ArgsAdds(st: St, cur: ExecutionPoint, funcs: map<string, FuncId>, args: seq<Expr>)
    decreases ExprsSize(args), 1
    ensures var r := ArgsSpec(st, cur, funcs, args); r.Ok? ==> AddsTo(st.g, r.value.st.g, {})
  {
    if |args| == 0 {
      AddsRefl(st.g, {});
    } else {
      var v := ExprSpec(st, cur, funcs, args[0], 1);
      ExprAdds(st, cur, funcs, args[0], 1);
      if v.Ok? {
        var rest := ArgsSpec(v.value.st, v.value.cur, funcs, args[1..]);
        ArgsAdds(v.value.st, v.value.cur, funcs, args[1..]);
        if rest.Ok? {
          AddsTrans(st.g, v.value.st.g, rest.value.st.g, {}, {});
        }
      }
    }
  }

  lemma {:induction false} ValuesAdds(st: St, cur: ExecutionPoint, funcs: map<string, FuncId>, values: seq<Expr>, n: nat, exact: bool)
    ensures var r := ValuesSpec(st, cur, funcs, values, n, exact); r.Ok? ==> AddsTo(st.g, r.value.st.g, {})
    decreases |values|
  {
    if |values| == 0 {
      AddsRefl(st.g, {});
    } else {
      var x := ExprSpec(st, cur, funcs, values[0], n);
      ExprAdds(st, cur, funcs, values[0], n);
      if x.Ok? {
        var rest := ValuesSpec(x.value.st, x.value.cur, funcs, values[1..], n, exact);
        ValuesAdds(x.value.st, x.value.cur, funcs, values[1..], n, exact);
        if rest.Ok? {
          AddsTrans(st.g, x.value.st.g, rest.value.st.g, {}, {});
        }
      }
    }
  }

  lemma {:induction false} DefineAdds(st: St, cur: ExecutionPoint, names: seq<string>, comps: seq<VarComposition>)
    requires |st.env| >= 1 && |comps| == |names|
    ensures AddsTo(st.g, DefineSpec(st, cur, names, comps).st.g, {})
    decreases |names|
  {
    if |names| == 0 {
      AddsRefl(st.g, {});
    } else {
      var (created, id) := CreateVarSt(st, names[0]);
      var a := ApplyAll(created.g, cur, VarCompositionOps(VarSelector(id, []), comps[0]));
      ApplyAllAdds(created.g, cur, VarCompositionOps(VarSelector(id, []), comps[0]));
      DefineAdds(created.(g := a.g), a.cur, names[1..], comps[1..]);
      AddsTrans(st.g, a.g, DefineSpec(st, cur, names, comps).st.g, {}, {});
    }
  }

  lemma DeclareAdds(st: St, cur: ExecutionPoint, funcs: map<string, FuncId>, names: seq<string>, values: seq<Expr>)
    requires |st.env| >= 1
    ensures var r := DeclareSpec(st, cur, funcs, names, values); r.Ok? ==> AddsTo(st.g, r.value.st.g, {})
  {
    if |values| == 1 || |values| == |names| {
      var n := if |values| == |names| then 1 else |names|;
      var v := ValuesSpec(st, cur, funcs, values, n, true);
      ValuesAdds(st, cur, funcs, values, n, true);
      if v.Ok? {
        DefineAdds(v.value.st, v.value.cur, names, v.value.comps);
        AddsTrans(st.g, v.value.st.g, DefineSpec(v.value.st, v.value.cur, names, v.value.comps).st.g, {}, {});
      }
    }
  }

  lemma {:induction false} AssignLhsAdds(st: St, cur: ExecutionPoint, funcs: map<string, FuncId>, lhs: seq<Expr>, comps: seq<VarComposition>)
    requires |comps| == |lhs|
    ensures var r := AssignLhsSpec(st, cur, funcs, lhs, comps); r.Ok? ==> AddsTo(st.g, r.value.st.g, {})
    decreases |lhs|
  {
    if |lhs| == 0 {
      AddsRefl(st.g, {});
    } else {
      var x := ExprSpec(st, cur, funcs, lhs[0], 1);
      ExprAdds(st, cur, funcs, lhs[0], 1);
      if x.Ok? {
        var target := x.value.comps[0];
        var a := if |target| == 1 && target[0].path == [] then ApplyAll(x.value.st.g, x.value.cur, VarCompositionOps(target[0].varSelector, comps[0]))
                 else GraphAt(x.value.st.g, x.value.cur);
        if |target| == 1 && target[0].path == [] {
          ApplyAllAdds(x.value.st.g, x.value.cur, VarCompositionOps(target[0].varSelector, comps[0]));
        } else {
          AddsRefl(x.value.st.g, {});
        }
        var rest := AssignLhsSpec(x.value.st.(g := a.g), a.cur, funcs, lhs[1..], comps[1..]);
        AssignLhsAdds(x.value.st.(g := a.g), a.cur, funcs, lhs[1..], comps[1..]);
        if rest.Ok? {
          AddsTrans(st.g, x.value.st.g, a.g, {}, {});
          AddsTrans(st.g, a.g, rest.value.st.g, {}, {});
        }
      }
    }
  }

  lemma AssignAdds(st: St, cur: ExecutionPoint, funcs: map<string, FuncId>, lhs: seq<Expr>, rhs: seq<Expr>)
    ensures var r := AssignSpec(st, cur, funcs, lhs, rhs); r.Ok? ==> AddsTo(st.g, r.value.st.g, {})
  {
    if |rhs| == 1 || |lhs| == |rhs| {
      var n := if |lhs| == |rhs| then 1 else |lhs|;
      var v := ValuesSpec(st, cur, funcs, rhs, n, false);
      ValuesAdds(st, cur, funcs, rhs, n, false);
      if v.Ok? && |v.value.comps| == |lhs| {
        var r := AssignLhsSpec(v.value.st, v.value.cur, funcs, lhs, v.value.comps);
        AssignLhsAdds(v.value.st, v.value.cur, funcs, lhs, v.value.comps);
        if r.Ok? {
          AddsTrans(st.g, v.value.st.g, r.value.st.g, {}, {});
        }
      }
    }
  }

  lemma DeclOrAssignAdds(st: St, cur: ExecutionPoint, funcs: map<string, FuncId>, stmt: Stmt)
    requires |st.env| >= 1
    ensures var r := DeclOrAssignSpec(st, cur, funcs, stmt); r.Ok? ==> AddsTo(st.g, r.value.st.g, {})
  {
    var parts := DeclParts(stmt);
    if parts.Ok? {
      if parts.value.Some? {
        DeclareAdds(st, cur, funcs, parts.value.value.names, parts.value.value.values);
      } else if stmt.AssignStmt? {
        AssignAdds(st, cur, funcs, stmt.lhs, stmt.rhs);
      } else {
        AddsRefl(st.g, {});
      }
    }
  }

  lemma {:induction false} ReturnAssignAdds(g: Graph, cur: ExecutionPoint, first: VarId, comps: seq<VarComposition>)
    ensures AddsTo(g, ReturnAssignSpec(g, cur, first, comps).g, {})
    decreases |comps|
  {
    if |comps| == 0 {
      AddsRefl(g, {});
    } else {
      var a := ApplyAll(g, cur, VarCompositionOps(VarSelector(first, []), comps[0]));
      ApplyAllAdds(g, cur, VarCompositionOps(VarSelector(first, []), comps[0]));
      ReturnAssignAdds(a.g, a.cur, first + 1, comps[1..]);
      AddsTrans(g, a.g, ReturnAssignSpec(g, cur, first, comps).g, {}, {});
    }
  }

  lemma ReturnValuesAdds(st: St, cur: ExecutionPoint, funcs: map<string, FuncId>, results: seq<Expr>, n: nat)
    ensures var r := ReturnValuesSpec(st, cur, funcs, results, n); r.Ok? ==> AddsTo(st.g, r.value.st.g, {})
  {
    var v := ValuesSpec(st, cur, funcs, results, n, false);
    ValuesAdds(st, cur, funcs, results, n, false);
    if v.Ok? {
      var a := ReturnAssignSpec(v.value.st.g, v.value.cur, v.value.st.nextVar, v.value.comps);
      ReturnAssignAdds(v.value.st.g, v.value.cur, v.value.st.nextVar, v.value.comps);
      var op := ReturnVarsOp(FreshIds(v.value.st.nextVar, |v.value.comps|));
      NextAdds(a.g, a.cur, op);
      AddsTrans(st.g, v.value.st.g, a.g, {}, {});
      AddsTrans(st.g, a.g, Next(a.g, a.cur, op).g, {}, {});
    }
  }

  lemma ReturnAdds(st: St, cur: ExecutionPoint, funcs: map<string, FuncId>, results: seq<Expr>, ro: nat)
    ensures var r := ReturnSpec(st, cur, funcs, results, ro); r.Ok? ==> AddsTo(st.g, r.value.st.g, {})
  {
    if |results| == 0 {
      NextAdds(st.g, cur, ReturnVarsOp([]));
    } else if |results| == 1 || |results| == ro {
      ReturnValuesAdds(st, cur, funcs, results, ResultOutputs(|results|, ro));
    }
  }

  lemma RangeVarAdds(st: St, cur: ExecutionPoint, x: Option<Expr>)
    requires |st.env| >= 1
    ensures var r := RangeVarSpec(st, cur, x); r.Ok? ==> AddsTo(st.g, r.value.st.g, {})
  {
    if x.Some? && x.value.Ident? {
      var (created, id) := CreateVarSt(st, x.value.name);
      NextAdds(created.g, cur, AssignSelectorOp(VarSelector(BlankVarId, []), VarSelector(id, [])));
    } else {
      AddsRefl(st.g, {});
    }
  }

  // ---------------------------------------------------------------------
  // Statements lead to new points or back to where they started

  lemma {:induction false} StmtAdds(st: St, cur: ExecutionPoint, funcs: map<string, FuncId>, stmt: Stmt, ro: nat)
    requires |st.env| >= 1 && cur <= st.g.last
    decreases StmtSize(stmt), 4
    ensures var r := StmtSpec(st, cur, funcs, stmt, ro); r.Ok? ==> AddsTo(st.g, r.value.st.g, {cur})
  {
    var r := StmtSpec(st, cur, funcs, stmt, ro);
    match stmt
    case LabeledStmt(inner) => StmtAdds(st, cur, funcs, inner, ro);
    case BlockStmt(list) => StmtListAdds(st, cur, funcs, list, ro);
    case IfStmt(_, _, _) => IfAdds(st, cur, funcs, stmt, ro);
    case ForStmt(_, _, _, _) => ForAdds(st, cur, funcs, stmt, ro);
    case RangeStmt(_, _, _) => RangeAdds(st, cur, funcs, stmt, ro);
    case DeclStmt(_, _) =>
      DeclOrAssignAdds(st, cur, funcs, stmt);
      if r.Ok? { AddsWeaken(st.g, r.value.st.g, {}, {cur}); }
    case AssignStmt(_, _, _) =>
      DeclOrAssignAdds(st, cur, funcs, stmt);
      if r.Ok? { AddsWeaken(st.g, r.value.st.g, {}, {cur}); }
    case SwitchStmt(_, _) => SwitchAdds(st, cur, funcs, stmt, ro);
    case TypeSwitchStmt(_, _, _) => SwitchAdds(st, cur, funcs, stmt, ro);
    case ReturnStmt(results) =>
      ReturnAdds(st, cur, funcs, results, ro);
      if r.Ok? { AddsWeaken(st.g, r.value.st.g, {}, {cur}); }
    case ExprStmt(x) =>
      ExprAdds(st, cur, funcs, x, 0);
      if r.Ok? { AddsWeaken(st.g, r.value.st.g, {}, {cur}); }
    case OtherStmt => AddsRefl(st.g, {cur});
    case BadStmt =>
  }

  lemma {:induction false} StmtListAdds(st: St, cur: ExecutionPoint, funcs: map<string, FuncId>, stmts: seq<Stmt>, ro: nat)
    requires |st.env| >= 1 && cur <= st.g.last
    decreases StmtsSize(stmts), 5
    ensures var r := StmtListSpec(st, cur, funcs, stmts, ro); r.Ok? ==> AddsTo(st.g, r.value.st.g, {cur})
  {
    if |stmts| == 0 {
      AddsRefl(st.g, {cur});
    } else {
      var c := StmtSpec(st, cur, funcs, stmts[0], ro);
      StmtAdds(st, cur, funcs, stmts[0], ro);
      if c.Ok? {
        var rest := StmtListSpec(c.value.st, c.value.cur, funcs, stmts[1..], ro);
        StmtListAdds(c.value.st, c.value.cur, funcs, stmts[1..], ro);
        if rest.Ok? {
          AddsTrans(st.g, c.value.st.g, rest.value.st.g, {cur}, {c.value.cur});
        }
      }
    }
  }

  lemma OptStmtAdds(st: St, cur: ExecutionPoint, funcs: map<string, FuncId>, x: Option<Stmt>, ro: nat)
    requires |st.env| >= 1 && cur <= st.g.last
    decreases OptStmtSize(x), 5
    ensures var r := OptStmtSpec(st, cur, funcs, x, ro); r.Ok? ==> AddsTo(st.g, r.value.st.g, {cur})
  {
    match x
    case None => AddsRefl(st.g, {cur});
    case Some(stmt) => StmtAdds(st, cur, funcs, stmt, ro);
  }

  lemma FramedListAdds(st: St, cur: ExecutionPoint, funcs: map<string, FuncId>, stmts: seq<Stmt>, ro: nat)
    requires |st.env| >= 1 && cur <= st.g.last
    decreases StmtsSize(stmts), 6
    ensures var r := FramedListSpec(st, cur, funcs, stmts, ro); r.Ok? ==> AddsTo(st.g, r.value.st.g, {cur})
  {
    StmtListAdds(Push(st), cur, funcs, stmts, ro);
  }

  lemma BranchBodyAdds(st: St, cur: ExecutionPoint, funcs: map<string, FuncId>, body: seq<Stmt>, ro: nat, after: ExecutionPoint)
    requires |st.env| >= 1 && cur <= st.g.last && after <= st.g.last && cur != after
    decreases StmtsSize(body), 7
    ensures var r := BranchBodySpec(st, cur, funcs, body, ro, after); r.Ok? ==> AddsTo(st.g, r.value.st.g, {cur, after})
  {
    var b := FramedListSpec(st, cur, funcs, body, ro);
    FramedListAdds(st, cur, funcs, body, ro);
    if b.Ok? {
      ConnectAdds(b.value.st.g, b.value.cur, after);
      AddsWeaken(st.g, b.value.st.g, {cur}, {cur, after});
      AddsTrans(st.g, b.value.st.g, FromAst.Connect(b.value.st.g, b.value.cur, after), {cur, after}, {after});
    }
  }

  lemma BranchAdds(st: St, cur: ExecutionPoint, funcs: map<string, FuncId>, br: Branch, ro: nat, after: ExecutionPoint)
    requires |st.env| >= 1 && cur <= st.g.last && after <= st.g.last && cur != after
    decreases BranchSize(br), 0
    ensures var r := BranchSpec(st, cur, funcs, br, ro, after); r.Ok? ==> AddsTo(st.g, r.value.st.g, {cur, after})
  {
    var c := OptStmtSpec(st, cur, funcs, br.init, ro);
    OptStmtAdds(st, cur, funcs, br.init, ro);
    if c.Ok? {
      var r := BranchBodySpec(c.value.st, c.value.cur, funcs, br.body, ro, after);
      BranchBodyAdds(c.value.st, c.value.cur, funcs, br.body, ro, after);
      if r.Ok? {
        AddsWeaken(st.g, c.value.st.g, {cur}, {cur, after});
        AddsTrans(st.g, c.value.st.g, r.value.st.g, {cur, after}, {c.value.cur, after});
      }
    }
  }

  lemma {:induction false} BranchesAdds(st: St, cur: ExecutionPoint, funcs: map<string, FuncId>, chain: seq<Branch>, ro: nat, after: ExecutionPoint)
    requires |st.env| >= 1 && cur <= st.g.last && after <= st.g.last && cur != after
    decreases ChainSize(chain), 1
    ensures var r := BranchesSpec(st, cur, funcs, chain, ro, after); r.Ok? ==> AddsTo(st.g, r.value.st.g, {cur, after})
  {
    if |chain| == 0 {
      AddsRefl(st.g, {cur, after});
    } else {
      var c := BranchSpec(st, cur, funcs, chain[0], ro, after);
      BranchAdds(st, cur, funcs, chain[0], ro, after);
      if c.Ok? {
        var rest := BranchesSpec(c.value.st, c.value.cur, funcs, chain[1..], ro, after);
        BranchesAdds(c.value.st, c.value.cur, funcs, chain[1..], ro, after);
        if rest.Ok? {
          AddsTrans(st.g, c.value.st.g, rest.value.st.g, {cur, after}, {c.value.cur, after});
        }
      }
    }
  }

  lemma JoinedBranchesAdds(st: St, cur: ExecutionPoint, funcs: map<string, FuncId>, chain: seq<Branch>, ro: nat)
    requires |st.env| >= 1 && cur <= st.g.last
    decreases ChainSize(chain), 2
    ensures var r := JoinedBranchesSpec(st, cur, funcs, chain, ro); r.Ok? ==> AddsTo(st.g, r.value.st.g, {cur})
  {
    var after := st.g.last + 1;
    var inner := st.(g := st.g.(last := after));
    var c := BranchesSpec(inner, cur, funcs, chain, ro, after);
    BranchesAdds(inner, cur, funcs, chain, ro, after);
    if c.Ok? {
      AddsRaise(st.g, after, {cur});
      AddsTrans(st.g, inner.g, c.value.st.g, {cur}, {cur, after});
    }
  }

  lemma IfAdds(st: St, cur: ExecutionPoint, funcs: map<string, FuncId>, stmt: Stmt, ro: nat)
    requires |st.env| >= 1 && cur <= st.g.last && stmt.IfStmt?
    decreases StmtSize(stmt), 3
    ensures var r := IfSpec(st, cur, funcs, stmt, ro); r.Ok? ==> AddsTo(st.g, r.value.st.g, {cur})
  {
    var chain := IfChain(stmt);
    if chain.Ok? {
      JoinedBranchesAdds(Push(st), cur, funcs, chain.value, ro);
    }
  }

  lemma ForAdds(st: St, cur: ExecutionPoint, funcs: map<string, FuncId>, stmt: Stmt, ro: nat)
    requires |st.env| >= 1 && cur <= st.g.last && stmt.ForStmt?
    decreases StmtSize(stmt), 3
    ensures var r := ForSpec(st, cur, funcs, stmt, ro); r.Ok? ==> AddsTo(st.g, r.value.st.g, {cur})
  {
    ForScopeAdds(Push(st), cur, funcs, stmt, ro);
  }

  lemma ForScopeAdds(st: St, cur: ExecutionPoint, funcs: map<string, FuncId>, stmt: Stmt, ro: nat)
    requires |st.env| >= 1 && cur <= st.g.last && stmt.ForStmt?
    decreases StmtSize(stmt), 2
    ensures var r := ForScopeSpec(st, cur, funcs, stmt, ro); r.Ok? ==> AddsTo(st.g, r.value.st.g, {cur})
  {
    var r := ForScopeSpec(st, cur, funcs, stmt, ro);
    if r.Ok? {
      var c := OptStmtSpec(st, cur, funcs, stmt.init, ro).value;
      OptStmtAdds(st, cur, funcs, stmt.init, ro);
      var body := StmtListSpec(c.st, c.cur, funcs, stmt.body, ro).value;
      StmtListAdds(c.st, c.cur, funcs, stmt.body, ro);
      var post := OptStmtSpec(body.st, body.cur, funcs, stmt.post, ro).value;
      OptStmtAdds(body.st, body.cur, funcs, stmt.post, ro);
      var cond := ExprSpec(post.st, post.cur, funcs, stmt.cond, 1).value;
      ExprAdds(post.st, post.cur, funcs, stmt.cond, 1);
      ConnectAdds(cond.st.g, cond.cur, c.cur);
      AddsTrans(st.g, c.st.g, body.st.g, {cur}, {c.cur});
      AddsTrans(st.g, body.st.g, post.st.g, {cur}, {body.cur});
      AddsTrans(st.g, post.st.g, cond.st.g, {cur}, {});
      AddsTrans(st.g, cond.st.g, r.value.st.g, {cur}, {c.cur});
    }
  }

  lemma RangeAdds(st: St, cur: ExecutionPoint, funcs: map<string, FuncId>, stmt: Stmt, ro: nat)
    requires |st.env| >= 1 && cur <= st.g.last && stmt.RangeStmt?
    decreases StmtSize(stmt), 3
    ensures var r := RangeSpec(st, cur, funcs, stmt, ro); r.Ok? ==> AddsTo(st.g, r.value.st.g, {cur})
  {
    RangeScopeAdds(Push(st), cur, funcs, stmt, ro);
  }

  lemma RangeScopeAdds(st: St, cur: ExecutionPoint, funcs: map<string, FuncId>, stmt: Stmt, ro: nat)
    requires |st.env| >= 1 && cur <= st.g.last && stmt.RangeStmt?
    decreases StmtSize(stmt), 2
    ensures var r := RangeScopeSpec(st, cur, funcs, stmt, ro); r.Ok? ==> AddsTo(st.g, r.value.st.g, {cur})
  {
    var r := RangeScopeSpec(st, cur, funcs, stmt, ro);
    if r.Ok? {
      var k := RangeVarSpec(st, cur, stmt.key).value;
      RangeVarAdds(st, cur, stmt.key);
      var v := RangeVarSpec(k.st, k.cur, stmt.value).value;
      RangeVarAdds(k.st, k.cur, stmt.value);
      var body := StmtListSpec(v.st, v.cur, funcs, stmt.body, ro).value;
      StmtListAdds(v.st, v.cur, funcs, stmt.body, ro);
      ConnectAdds(body.st.g, body.cur, cur);
      AddsTrans(st.g, k.st.g, v.st.g, {cur}, {});
      AddsTrans(st.g, v.st.g, body.st.g, {cur}, {v.cur});
      AddsTrans(st.g, body.st.g, r.value.st.g, {cur}, {cur});
    }
  }

  lemma SwitchAdds(st: St, cur: ExecutionPoint, funcs: map<string, FuncId>, stmt: Stmt, ro: nat)
    requires |st.env| >= 1 && cur <= st.g.last && (stmt.SwitchStmt? || stmt.TypeSwitchStmt?)
    decreases StmtSize(stmt), 3
    ensures var r := SwitchSpec(st, cur, funcs, stmt, ro); r.Ok? ==> AddsTo(st.g, r.value.st.g, {cur})
  {
    SwitchScopeAdds(Push(st), cur, funcs, stmt, ro);
  }

  lemma SwitchScopeAdds(st: St, cur: ExecutionPoint, funcs: map<string, FuncId>, stmt: Stmt, ro: nat)
    requires |st.env| >= 1 && cur <= st.g.last && (stmt.SwitchStmt? || stmt.TypeSwitchStmt?)
    decreases StmtSize(stmt), 2
    ensures var r := SwitchScopeSpec(st, cur, funcs, stmt, ro); r.Ok? ==> AddsTo(st.g, r.value.st.g, {cur})
  {
    var c := OptStmtSpec(st, cur, funcs, stmt.init, ro);
    OptStmtAdds(st, cur, funcs, stmt.init, ro);
    if c.Ok? {
      var r := SwitchClausesSpec(c.value.st, c.value.cur, funcs, stmt, ro);
      SwitchClausesAdds(c.value.st, c.value.cur, funcs, stmt, ro);
      if r.Ok? {
        AddsTrans(st.g, c.value.st.g, r.value.st.g, {cur}, {c.value.cur});
      }
    }
  }

  lemma SwitchClausesAdds(st: St, cur: ExecutionPoint, funcs: map<string, FuncId>, stmt: Stmt, ro: nat)
    requires |st.env| >= 1 && cur <= st.g.last && (stmt.SwitchStmt? || stmt.TypeSwitchStmt?)
    decreases ClausesSize(stmt.clauses), 3
    ensures var r := SwitchClausesSpec(st, cur, funcs, stmt, ro); r.Ok? ==> AddsTo(st.g, r.value.st.g, {cur})
  {
    var bound := if stmt.TypeSwitchStmt? && stmt.bind.Some? then CreateVarSt(st, stmt.bind.value).0 else st;
    JoinedBranchesAdds(bound, cur, funcs, ClauseBranches(stmt.clauses), ro);
  }

  // ---------------------------------------------------------------------
  // The join after the branches

  /** `n` copies of `t`. */
  function Copies(t: ExecutionTransition, n: nat): (r: seq<ExecutionTransition>)
    ensures |r| == n && forall u :: u in r ==> u == t
  {
    if n == 0 then [] else [t] + Copies(t, n - 1)
  }

  lemma {:induction false} CopiesAdd(t: ExecutionTransition, m: nat, n: nat)
    ensures Copies(t, m) + Copies(t, n) == Copies(t, m + n)
    decreases m
  {
    if m > 0 {
      CopiesAdd(t, m - 1, n);
      assert [t] + Copies(t, m - 1) + Copies(t, n) == [t] + (Copies(t, m - 1) + Copies(t, n));
    }
  }

  /** The transitions of `ts` that lead to `p`, in order. */
  function Into(ts: seq<ExecutionTransition>, p: ExecutionPoint): (r: seq<ExecutionTransition>)
    ensures forall t :: t in r <==> t in ts && t.toPoint == p
  {
    if |ts| == 0 then [] else (if ts[0].toPoint == p then [ts[0]] else []) + Into(ts[1..], p)
  }

  lemma {:induction false} IntoConcat(a: seq<ExecutionTransition>, b: seq<ExecutionTransition>, p: ExecutionPoint)
    ensures Into(a + b, p) == Into(a, p) + Into(b, p)
    decreases |a|
  {
    if |a| > 0 {
      assert (a + b)[0] == a[0] && (a + b)[1..] == a[1..] + b;
      IntoConcat(a[1..], b, p);
    } else {
      assert a + b == b;
    }
  }

  lemma {:induction false} NoneInto(ts: seq<ExecutionTransition>, p: ExecutionPoint)
    requires forall t :: t in ts ==> t.toPoint != p
    ensures Into(ts, p) == []
    decreases |ts|
  {
    if |ts| > 0 {
      assert ts[0] in ts;
      assert forall t :: t in ts[1..] ==> t in ts;
      NoneInto(ts[1..], p);
    }
  }

  /** Nothing added leads to a point that was handed out before and is not
      one of the old targets. */
  lemma AddsAvoid(g: Graph, h: Graph, olds: set<ExecutionPoint>, p: ExecutionPoint)
    requires AddsTo(g, h, olds) && p !in olds && p <= g.last
    ensures forall q :: Into(Added(g, h, q), p) == []
  {
    forall q ensures Into(Added(g, h, q), p) == [] {
      NoneInto(Added(g, h, q), p);
    }
  }

  /** The first branch of a chain that succeeds: its init, then its body in
      a frame of its own joined to `after`, then the other branches from
      where the init ended. */
  lemma BranchesUnfold(st: St, cur: ExecutionPoint, funcs: map<string, FuncId>, chain: seq<Branch>, ro: nat, after: ExecutionPoint)
    requires |st.env| >= 1 && cur <= st.g.last && after <= st.g.last && cur != after
    requires |chain| > 0 && BranchesSpec(st, cur, funcs, chain, ro, after).Ok?
    ensures var c := OptStmtSpec(st, cur, funcs, chain[0].init, ro);
      && c.Ok? && FramedListSpec(c.value.st, c.value.cur, funcs, chain[0].body, ro).Ok?
      && var b := FramedListSpec(c.value.st, c.value.cur, funcs, chain[0].body, ro).value;
         var next := Cursor(b.st.(g := FromAst.Connect(b.st.g, b.cur, after)), c.value.cur);
         && BranchSpec(st, cur, funcs, chain[0], ro, after) == Ok(next)
         && BranchesSpec(st, cur, funcs, chain, ro, after) == BranchesSpec(next.st, next.cur, funcs, chain[1..], ro, after)
  {
    var br := BranchSpec(st, cur, funcs, chain[0], ro, after);
    assert br.Ok?;
    var c := OptStmtSpec(st, cur, funcs, chain[0].init, ro);
    assert c.Ok?;
    assert BranchBodySpec(c.value.st, c.value.cur, funcs, chain[0].body, ro, after).Ok?;
  }

  /** Branches that meet succeed exactly with their branches run on a
      graph that has handed out the meeting point. */
  lemma JoinedUnfold(st: St, cur: ExecutionPoint, funcs: map<string, FuncId>, chain: seq<Branch>, ro: nat)
    requires |st.env| >= 1 && cur <= st.g.last && JoinedBranchesSpec(st, cur, funcs, chain, ro).Ok?
    ensures var after := st.g.last + 1;
      var c := BranchesSpec(st.(g := st.g.(last := after)), cur, funcs, chain, ro, after);
      c.Ok? && JoinedBranchesSpec(st, cur, funcs, chain, ro).value.st.g == c.value.st.g
  {
  }

  /** A successful if chain: its chain, and its branches meeting in the
      frame pushed for the inits. */
  lemma IfUnfold(st: St, cur: ExecutionPoint, funcs: map<string, FuncId>, stmt: Stmt, ro: nat)
    requires |st.env| >= 1 && cur <= st.g.last && stmt.IfStmt? && IfSpec(st, cur, funcs, stmt, ro).Ok?
    ensures && IfChain(stmt).Ok?
      && var c := JoinedBranchesSpec(Push(st), cur, funcs, IfChain(stmt).value, ro);
         && c.Ok? && IfSpec(st, cur, funcs, stmt, ro).value.st.g == c.value.st.g
         && IfSpec(st, cur, funcs, stmt, ro).value.cur == c.value.cur
  {
    assert IfChain(stmt).Ok?;
  }

  /** A successful switch: its init in the frame pushed for it, then, from
      there, the clauses. */
  lemma SwitchUnfold(st: St, cur: ExecutionPoint, funcs: map<string, FuncId>, stmt: Stmt, ro: nat)
    requires |st.env| >= 1 && cur <= st.g.last && (stmt.SwitchStmt? || stmt.TypeSwitchStmt?)
    requires SwitchSpec(st, cur, funcs, stmt, ro).Ok?
    ensures var c := OptStmtSpec(Push(st), cur, funcs, stmt.init, ro);
      && c.Ok?
      && var k := SwitchClausesSpec(c.value.st, c.value.cur, funcs, stmt, ro);
         && k.Ok? && SwitchSpec(st, cur, funcs, stmt, ro).value.st.g == k.value.st.g
         && SwitchSpec(st, cur, funcs, stmt, ro).value.cur == k.value.cur
  {
    assert SwitchScopeSpec(Push(st), cur, funcs, stmt, ro).Ok?;
  }

  /** The point each branch's body reached, in order: the body of a branch
      runs from where its init ended, in a frame of its own. */
  function BodyEnds(st: St, cur: ExecutionPoint, funcs: map<string, FuncId>, chain: seq<Branch>, ro: nat, after: ExecutionPoint)
    : (ends: seq<ExecutionPoint>)
    requires |st.env| >= 1 && cur <= st.g.last && after <= st.g.last && cur != after
    requires BranchesSpec(st, cur, funcs, chain, ro, after).Ok?
    ensures |ends| == |chain|
    decreases |chain|
  {
    if |chain| == 0 then []
    else
      BranchesUnfold(st, cur, funcs, chain, ro, after);
      var c := OptStmtSpec(st, cur, funcs, chain[0].init, ro).value;
      var b := FramedListSpec(c.st, c.cur, funcs, chain[0].body, ro).value;
      var next := BranchSpec(st, cur, funcs, chain[0], ro, after).value;
      [b.cur] + BodyEnds(next.st, next.cur, funcs, chain[1..], ro, after)
  }

  /** Branches meeting at `after`: the transitions into `after` they add
      are, at every point, one NoOp per branch whose body ended there. */
  lemma {:induction false} BranchesJoin(st: St, cur: ExecutionPoint, funcs: map<string, FuncId>, chain: seq<Branch>, ro: nat, after: ExecutionPoint)
    requires |st.env| >= 1 && cur <= st.g.last && after <= st.g.last && cur != after
    ensures var r := BranchesSpec(st, cur, funcs, chain, ro, after);
      r.Ok? ==> forall q :: Into(Added(st.g, r.value.st.g, q), after)
                  == Copies(ExecutionTransition(after, NoOp), multiset(BodyEnds(st, cur, funcs, chain, ro, after))[q])
    decreases |chain|
  {
    var r := BranchesSpec(st, cur, funcs, chain, ro, after);
    var edge := ExecutionTransition(after, NoOp);
    if r.Ok? && |chain| == 0 {
      AddsRefl(st.g, {});
      AddsAvoid(st.g, st.g, {}, after);
    } else if r.Ok? {
      BranchesUnfold(st, cur, funcs, chain, ro, after);
      var c := OptStmtSpec(st, cur, funcs, chain[0].init, ro).value;
      OptStmtAdds(st, cur, funcs, chain[0].init, ro);
      AddsAvoid(st.g, c.st.g, {cur}, after);
      var b := FramedListSpec(c.st, c.cur, funcs, chain[0].body, ro).value;
      FramedListAdds(c.st, c.cur, funcs, chain[0].body, ro);
      AddsAvoid(c.st.g, b.st.g, {c.cur}, after);
      var next := BranchSpec(st, cur, funcs, chain[0], ro, after).value;
      ConnectAdds(b.st.g, b.cur, after);
      BranchesAdds(next.st, next.cur, funcs, chain[1..], ro, after);
      BranchesJoin(next.st, next.cur, funcs, chain[1..], ro, after);
      var rest := BodyEnds(next.st, next.cur, funcs, chain[1..], ro, after);
      assert BodyEnds(st, cur, funcs, chain, ro, after) == [b.cur] + rest;
      JoinStep(st.g, c.st.g, b.st.g, r.value.st.g, b.cur, after, rest);
    }
  }

  /** One more branch: nothing its init and body add leads to `after`, and
      its join adds one NoOp from the body's end. */
  lemma JoinStep(g0: Graph, g1: Graph, g2: Graph, g4: Graph, e: ExecutionPoint, after: ExecutionPoint, rest: seq<ExecutionPoint>)
    requires Grows(g0, g1) && Grows(g1, g2) && Grows(FromAst.Connect(g2, e, after), g4)
    requires forall q :: Into(Added(g0, g1, q), after) == [] && Into(Added(g1, g2, q), after) == []
    requires forall q :: Into(Added(FromAst.Connect(g2, e, after), g4, q), after)
                         == Copies(ExecutionTransition(after, NoOp), multiset(rest)[q])
    ensures forall q :: Into(Added(g0, g4, q), after) == Copies(ExecutionTransition(after, NoOp), multiset([e] + rest)[q])
  {
    var g3 := FromAst.Connect(g2, e, after);
    ConnectAdds(g2, e, after);
    forall q ensures Into(Added(g0, g4, q), after) == Copies(ExecutionTransition(after, NoOp), multiset([e] + rest)[q]) {
      AddedSplit(g0, g1, g2, q);
      AddedSplit(g0, g2, g3, q);
      AddedSplit(g0, g3, g4, q);
      var one := if q == e then 1 else 0;
      assert Into(Added(g2, g3, q), after) == Copies(ExecutionTransition(after, NoOp), one);
      JoinSeq(Added(g0, g1, q), Added(g1, g2, q), Added(g2, g3, q), Added(g3, g4, q), after,
              ExecutionTransition(after, NoOp), one, multiset(rest)[q]);
      assert multiset([e] + rest)[q] == one + multiset(rest)[q];
    }
  }

  /** The same step on the four appended segments of one point. */
  lemma JoinSeq(a1: seq<ExecutionTransition>, a2: seq<ExecutionTransition>, a3: seq<ExecutionTransition>, a4: seq<ExecutionTransition>,
                p: ExecutionPoint, edge: ExecutionTransition, m: nat, n: nat)
    requires Into(a1, p) == [] && Into(a2, p) == []
    requires Into(a3, p) == Copies(edge, m) && Into(a4, p) == Copies(edge, n)
    ensures Into(((a1 + a2) + a3) + a4, p) == Copies(edge, m + n)
  {
    IntoConcat(a1, a2, p);
    IntoConcat(a1 + a2, a3, p);
    IntoConcat((a1 + a2) + a3, a4, p);
    CopiesAdd(edge, m, n);
  }

  /** Added depends only on the transitions. */
  lemma AddedOfTransitions(g: Graph, g': Graph, h: Graph)
    requires g.transitions == g'.transitions
    ensures forall q :: Added(g, h, q) == Added(g', h, q)
  {
  }

  /** The point each branch reached, in order, when branches meet. */
  function JoinedEnds(st: St, cur: ExecutionPoint, funcs: map<string, FuncId>, chain: seq<Branch>, ro: nat): (ends: seq<ExecutionPoint>)
    requires |st.env| >= 1 && cur <= st.g.last && JoinedBranchesSpec(st, cur, funcs, chain, ro).Ok?
    ensures |ends| == |chain|
  {
    JoinedUnfold(st, cur, funcs, chain, ro);
    var after := st.g.last + 1;
    BodyEnds(st.(g := st.g.(last := after)), cur, funcs, chain, ro, after)
  }

  /** Branches that meet: the transitions they add into the meeting point
      are, at every point, one NoOp per branch whose body ended there. */
  lemma JoinedBranchesJoin(st: St, cur: ExecutionPoint, funcs: map<string, FuncId>, chain: seq<Branch>, ro: nat)
    requires |st.env| >= 1 && cur <= st.g.last
    ensures var r := JoinedBranchesSpec(st, cur, funcs, chain, ro);
      r.Ok? ==> forall q :: Into(Added(st.g, r.value.st.g, q), r.value.cur)
                  == Copies(ExecutionTransition(r.value.cur, NoOp), multiset(JoinedEnds(st, cur, funcs, chain, ro))[q])
  {
    var r := JoinedBranchesSpec(st, cur, funcs, chain, ro);
    if r.Ok? {
      var after := st.g.last + 1;
      var inner := st.(g := st.g.(last := after));
      JoinedUnfold(st, cur, funcs, chain, ro);
      var c := BranchesSpec(inner, cur, funcs, chain, ro, after).value;
      BranchesJoin(inner, cur, funcs, chain, ro, after);
      AddedOfTransitions(st.g, inner.g, c.st.g);
    }
  }

  /** The point each branch of an if chain reached, in order. */
  function IfBodyEnds(st: St, cur: ExecutionPoint, funcs: map<string, FuncId>, stmt: Stmt, ro: nat): (ends: seq<ExecutionPoint>)
    requires |st.env| >= 1 && cur <= st.g.last && stmt.IfStmt? && IfSpec(st, cur, funcs, stmt, ro).Ok?
    ensures |ends| == |IfChain(stmt).value|
  {
    IfUnfold(st, cur, funcs, stmt, ro);
    JoinedEnds(Push(st), cur, funcs, IfChain(stmt).value, ro)
  }

  /** An if chain, whatever its branches, inits and bodies: the translation
      goes on from a new point, and the transitions the chain adds into that
      point are, at every point, one NoOp per branch whose body ended
      there. No transition bypasses the bodies. */
  lemma IfJoinsBranches(st: St, cur: ExecutionPoint, funcs: map<string, FuncId>, stmt: Stmt, ro: nat)
    requires |st.env| >= 1 && cur <= st.g.last && stmt.IfStmt?
    ensures var r := IfSpec(st, cur, funcs, stmt, ro);
      r.Ok? ==>
        && r.value.cur == st.g.last + 1
        && forall q :: Into(Added(st.g, r.value.st.g, q), st.g.last + 1)
             == Copies(ExecutionTransition(st.g.last + 1, NoOp), multiset(IfBodyEnds(st, cur, funcs, stmt, ro))[q])
  {
    var r := IfSpec(st, cur, funcs, stmt, ro);
    if r.Ok? {
      IfUnfold(st, cur, funcs, stmt, ro);
      JoinedBranchesJoin(Push(st), cur, funcs, IfChain(stmt).value, ro);
    }
  }

  /** In a closed graph, where every transition leads to a point handed out,
      the point after an if chain is entered only from the chain: by one
      NoOp per branch, from the point that branch's body reached. */
  lemma IfAfterPointEntries(st: St, cur: ExecutionPoint, funcs: map<string, FuncId>, stmt: Stmt, ro: nat)
    requires |st.env| >= 1 && cur <= st.g.last && stmt.IfStmt? && Closed(st.g.transitions, st.g.last)
    ensures var r := IfSpec(st, cur, funcs, stmt, ro);
      r.Ok? ==>
        && |IfBodyEnds(st, cur, funcs, stmt, ro)| == |IfChain(stmt).value|
        && forall q :: Into(TransitionsOf(r.value.st.g.transitions, q), r.value.cur)
             == Copies(ExecutionTransition(r.value.cur, NoOp), multiset(IfBodyEnds(st, cur, funcs, stmt, ro))[q])
  {
    var r := IfSpec(st, cur, funcs, stmt, ro);
    if r.Ok? {
      var after := st.g.last + 1;
      IfJoinsBranches(st, cur, funcs, stmt, ro);
      IfAdds(st, cur, funcs, stmt, ro);
      forall q ensures Into(TransitionsOf(r.value.st.g.transitions, q), after)
                         == Copies(ExecutionTransition(after, NoOp), multiset(IfBodyEnds(st, cur, funcs, stmt, ro))[q]) {
        var before := TransitionsOf(st.g.transitions, q);
        assert before <= TransitionsOf(r.value.st.g.transitions, q);
        assert TransitionsOf(r.value.st.g.transitions, q) == before + Added(st.g, r.value.st.g, q);
        IntoConcat(before, Added(st.g, r.value.st.g, q), after);
        assert forall t :: t in before ==> t in st.g.transitions[q];
        NoneInto(before, after);
      }
    }
  }

  /** Where the clauses of a switch start: after its init, in the frame
      pushed for it, with a type switch's binding declared. */
  function SwitchClausesStart(st: St, cur: ExecutionPoint, funcs: map<string, FuncId>, stmt: Stmt, ro: nat): (s: Cursor)
    requires |st.env| >= 1 && cur <= st.g.last && (stmt.SwitchStmt? || stmt.TypeSwitchStmt?)
    requires SwitchSpec(st, cur, funcs, stmt, ro).Ok?
    ensures |s.st.env| >= 1 && s.cur <= s.st.g.last
    ensures JoinedBranchesSpec(s.st, s.cur, funcs, ClauseBranches(stmt.clauses), ro).Ok?
    ensures var c := OptStmtSpec(Push(st), cur, funcs, stmt.init, ro); c.Ok? && s.st.g == c.value.st.g
  {
    SwitchUnfold(st, cur, funcs, stmt, ro);
    var c := OptStmtSpec(Push(st), cur, funcs, stmt.init, ro).value;
    var bound := if stmt.TypeSwitchStmt? && stmt.bind.Some? then CreateVarSt(c.st, stmt.bind.value).0 else c.st;
    Cursor(bound, c.cur)
  }

  /** A switch or type switch: the translation goes on from the point
      handed out after its init, and the transitions its clauses add into
      that point are, at every point, one NoOp per clause whose body ended
      there. */
  lemma SwitchJoinsClauses(st: St, cur: ExecutionPoint, funcs: map<string, FuncId>, stmt: Stmt, ro: nat)
    requires |st.env| >= 1 && cur <= st.g.last && (stmt.SwitchStmt? || stmt.TypeSwitchStmt?)
    ensures var r := SwitchSpec(st, cur, funcs, stmt, ro);
      r.Ok? ==>
        var s := SwitchClausesStart(st, cur, funcs, stmt, ro);
        && r.value.cur == s.st.g.last + 1
        && |JoinedEnds(s.st, s.cur, funcs, ClauseBranches(stmt.clauses), ro)| == |stmt.clauses|
        && forall q :: Into(Added(s.st.g, r.value.st.g, q), r.value.cur)
             == Copies(ExecutionTransition(r.value.cur, NoOp), multiset(JoinedEnds(s.st, s.cur, funcs, ClauseBranches(stmt.clauses), ro))[q])
  {
    var r := SwitchSpec(st, cur, funcs, stmt, ro);
    if r.Ok? {
      SwitchUnfold(st, cur, funcs, stmt, ro);
      var s := SwitchClausesStart(st, cur, funcs, stmt, ro);
      var c := OptStmtSpec(Push(st), cur, funcs, stmt.init, ro).value;
      assert SwitchClausesSpec(c.st, c.cur, funcs, stmt, ro) == JoinedBranchesSpec(s.st, s.cur, funcs, ClauseBranches(stmt.clauses), ro);
      JoinedBranchesJoin(s.st, s.cur, funcs, ClauseBranches(stmt.clauses), ro);
    }
  }
}
