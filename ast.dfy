/** The part of Go's syntax tree the translator switches on. Every
    expression or statement kind it lists explicitly has a constructor here;
    the kinds it lets through unchanged share one constructor, and the kinds
    it rejects share another. Positions are left out. */
module Ast {
  import opened Wrappers

  datatype Expr =
    | ParenExpr(x: Expr)
    | Ident(name: string)
    | SelectorExpr(x: Expr, sel: string)
    | CompositeLit
    /** `fun(args...)`; only an identifier in function position is looked up. */
    | CallExpr(fun: Expr, args: seq<Expr>)
    /** `x[low:high]` or, with `hasMax`, `x[low:high:max]`; the bounds are not translated. */
    | SliceExpr(x: Expr, hasMax: bool)
    /** An absent expression (a nil `ast.Expr`). */
    | MissingExpr
    /** Literals, types, index, unary, binary, star, key-value, type
        assertion and function literal expressions. */
    | OtherExpr
    /** Any other kind (a malformed expression). */
    | BadExpr

  /** The token of a general declaration. */
  datatype DeclToken = Var | Const | Type | Import

  /** `names [type] = values`; `values` is empty when there is no initializer. */
  datatype ValueSpec = ValueSpec(names: seq<string>, values: seq<Expr>)

  datatype Stmt =
    | LabeledStmt(stmt: Stmt)
    | BlockStmt(list: seq<Stmt>)
    /** `if init; cond { body } else els`; `els` is a block or another if. */
    | IfStmt(init: Option<Stmt>, body: seq<Stmt>, els: Option<Stmt>)
    | ForStmt(init: Option<Stmt>, cond: Expr, post: Option<Stmt>, body: seq<Stmt>)
    /** `for key, value := range x { body }`; `x` is not translated. */
    | RangeStmt(key: Option<Expr>, value: Option<Expr>, body: seq<Stmt>)
    | DeclStmt(tok: DeclToken, specs: seq<ValueSpec>)
    /** `lhs := rhs` when `define`, any other assignment token otherwise. */
    | AssignStmt(lhs: seq<Expr>, define: bool, rhs: seq<Expr>)
    /** The tag expression is not translated; each clause is a statement list. */
    | SwitchStmt(init: Option<Stmt>, clauses: seq<CaseClause>)
    /** `switch bind := x.(type)`; `bind` is the name of a `:=` binding. */
    | TypeSwitchStmt(init: Option<Stmt>, bind: Option<string>, clauses: seq<CaseClause>)
    | ReturnStmt(results: seq<Expr>)
    | ExprStmt(x: Expr)
    /** Branch, defer, empty, go, inc/dec, select and send statements, and an
        absent statement. */
    | OtherStmt
    /** Any other kind (a malformed statement, a stray clause). */
    | BadStmt

  /** One `case` or `default` clause of a switch. */
  datatype CaseClause = CaseClause(body: seq<Stmt>)

  /** One entry of a parameter or result list: its names, if any. */
  datatype Field = Field(names: seq<string>)

  datatype FuncDecl = FuncDecl(params: seq<Field>, results: seq<Field>, body: seq<Stmt>)

  /** The number of values a field list declares: one per name, or one for an
      unnamed entry. */
  function NumFields(fields: seq<Field>): (n: nat)
    ensures n >= |fields|
  {
    if |fields| == 0 then 0
    else NumFields(fields[..|fields| - 1]) + (if |fields[|fields| - 1].names| == 0 then 1 else |fields[|fields| - 1].names|)
  }

  /** Size measures that make the translator's recursion well founded; lists
      are summed from the front, the way the translator walks them. */
  function ExprSize(e: Expr): (n: nat)
    ensures n >= 1
  {
    match e
    case ParenExpr(x) => 1 + ExprSize(x)
    case SelectorExpr(x, _) => 1 + ExprSize(x)
    case CallExpr(_, args) => 1 + ExprsSize(args)
    case SliceExpr(x, _) => 1 + ExprSize(x)
    case _ => 1
  }

  function ExprsSize(es: seq<Expr>): nat
  {
    if |es| == 0 then 0 else ExprSize(es[0]) + ExprsSize(es[1..])
  }

  function OptStmtSize(s: Option<Stmt>): nat
  {
    match s
    case None => 0
    case Some(st) => StmtSize(st)
  }

  function OptExprSize(e: Option<Expr>): nat
  {
    match e
    case None => 0
    case Some(x) => ExprSize(x)
  }

  function SpecsSize(specs: seq<ValueSpec>): nat
  {
    if |specs| == 0 then 0 else ExprsSize(specs[0].values) + SpecsSize(specs[1..])
  }

  function StmtSize(s: Stmt): (n: nat)
    ensures n >= 1
  {
    match s
    case LabeledStmt(st) => 1 + StmtSize(st)
    case BlockStmt(list) => 1 + StmtsSize(list)
    case IfStmt(init, body, els) => 1 + OptStmtSize(init) + StmtsSize(body) + OptStmtSize(els)
    case ForStmt(init, cond, post, body) => 1 + OptStmtSize(init) + ExprSize(cond) + OptStmtSize(post) + StmtsSize(body)
    case RangeStmt(key, value, body) => 1 + OptExprSize(key) + OptExprSize(value) + StmtsSize(body)
    case DeclStmt(_, specs) => 1 + SpecsSize(specs)
    case AssignStmt(lhs, _, rhs) => 1 + ExprsSize(lhs) + ExprsSize(rhs)
    case SwitchStmt(init, clauses) => 1 + OptStmtSize(init) + ClausesSize(clauses)
    case TypeSwitchStmt(init, _, clauses) => 1 + OptStmtSize(init) + ClausesSize(clauses)
    case ReturnStmt(results) => 1 + ExprsSize(results)
    case ExprStmt(x) => 1 + ExprSize(x)
    case _ => 1
  }

  function StmtsSize(ss: seq<Stmt>): nat
  {
    if |ss| == 0 then 0 else StmtSize(ss[0]) + StmtsSize(ss[1..])
  }

  function ClausesSize(cs: seq<CaseClause>): nat
  {
    if |cs| == 0 then 0 else 1 + StmtsSize(cs[0].body) + ClausesSize(cs[1..])
  }

  /** Every element of a list is no larger than the list. */
  lemma {:induction false} ExprBelowSum(es: seq<Expr>, i: nat)
    requires i < |es|
    ensures ExprSize(es[i]) <= ExprsSize(es)
    decreases i
  {
    if i > 0 {
      ExprBelowSum(es[1..], i - 1);
    }
  }

  lemma {:induction false} StmtBelowSum(ss: seq<Stmt>, i: nat)
    requires i < |ss|
    ensures StmtSize(ss[i]) <= StmtsSize(ss)
    decreases i
  {
    if i > 0 {
      StmtBelowSum(ss[1..], i - 1);
    }
  }

  /** Dropping a prefix of a list makes it no larger. */
  lemma {:induction false} ExprsSuffixBelow(es: seq<Expr>, k: nat)
    requires k <= |es|
    ensures ExprsSize(es[k..]) <= ExprsSize(es)
    decreases k
  {
    if k > 0 {
      assert es[1..][k - 1..] == es[k..];
      ExprsSuffixBelow(es[1..], k - 1);
    }
  }

  lemma {:induction false} StmtsSuffixBelow(ss: seq<Stmt>, k: nat)
    requires k <= |ss|
    ensures StmtsSize(ss[k..]) <= StmtsSize(ss)
    decreases k
  {
    if k > 0 {
      assert ss[1..][k - 1..] == ss[k..];
      StmtsSuffixBelow(ss[1..], k - 1);
    }
  }
}
