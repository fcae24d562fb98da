/** The worked example of factorization_test.go: with
      b = a.x; c = b; d = c.y; e = a.y
    (variables a..e numbered 0..4), variable a is split into a.x.y and a.y,
    b and c into their field y, and d and e are kept whole. */
module FactorizationExample {
  import opened Wrappers
  import opened Text
  import opened ExecutionOps
  import opened PathOrder
  import opened Factorization

  function ExampleAssigns(): seq<AssignSelector>
  {
    [ AssignSelectorOp(VarSelector(0, ["x"]), VarSelector(1, [])),
      AssignSelectorOp(VarSelector(1, []), VarSelector(2, [])),
      AssignSelectorOp(VarSelector(2, ["y"]), VarSelector(3, [])),
      AssignSelectorOp(VarSelector(0, ["y"]), VarSelector(4, [])) ]
  }

  /** The least set of entries that holds the seeds and is closed under
      propagation: a.x.y comes from d = c.y through c = b and b = a.x. */
  function ExampleClosure(): set<Entry>
  {
    {(0, []), (0, ["x"]), (0, ["y"]), (0, ["x", "y"]), (1, []), (1, ["y"]),
     (2, []), (2, ["y"]), (3, []), (4, [])}
  }

  function ExampleRules(): FactorizationRules
  {
    map[0 := [["x", "y"], ["y"]], 1 := [["y"]], 2 := [["y"]], 3 := [[]], 4 := [[]]]
  }

  lemma ExampleSeeds()
    ensures Seeds(ExampleAssigns()) <= ExampleClosure()
  {
    var A := ExampleAssigns();
    forall e | e in Seeds(A) ensures e in ExampleClosure() {
      var a :| a in A && e in SeedsOf(a);
    }
  }

  /** Where the selector of an assignment is empty, the other side's
      selector is simply prefixed. */
  lemma ExampleSteps()
    ensures ["x"] + ["y"] == ["x", "y"] && ["y"] + [] == ["y"] && ["x"] + [] == ["x"]
    ensures ["x", "y"][1..] == ["y"] && ["x"][1..] == [] && ["y"][1..] == []
    ensures forall p: Path :: p[0..] == p && [] + p == p
    ensures "x" != "y" && !(["x"] <= ["y"]) && !(["y"] <= ["x"]) && !(["y"] <= ["x", "y"])
  {
    assert "x"[0] != "y"[0];
    assert ["x"][0] != ["y"][0] && ["x", "y"][0] != ["y"][0];
  }

  lemma ExampleClosedUnder(i: nat)
    requires i < 4
    ensures forall e :: e in ExampleClosure() ==>
      (FlowsBack(ExampleAssigns()[i], e) ==> Backward(ExampleAssigns()[i], e.1) in ExampleClosure())
      && (FlowsForward(ExampleAssigns()[i], e) ==> Forward(ExampleAssigns()[i], e.1) in ExampleClosure())
  {
    forall e | e in ExampleClosure()
      ensures (FlowsBack(ExampleAssigns()[i], e) ==> Backward(ExampleAssigns()[i], e.1) in ExampleClosure())
      && (FlowsForward(ExampleAssigns()[i], e) ==> Forward(ExampleAssigns()[i], e.1) in ExampleClosure())
    {
      ExampleStepAt(i, e);
    }
  }

  lemma ExampleStepAt(i: nat, e: Entry)
    requires i < 4 && e in ExampleClosure()
    ensures FlowsBack(ExampleAssigns()[i], e) ==> Backward(ExampleAssigns()[i], e.1) in ExampleClosure()
    ensures FlowsForward(ExampleAssigns()[i], e) ==> Forward(ExampleAssigns()[i], e.1) in ExampleClosure()
  {
    ExampleSteps();
    var a := ExampleAssigns()[i];
    ExamplePathsOf(e.0, e.1);
    if FlowsBack(a, e) {
      ExamplePathsOf(Backward(a, e.1).0, Backward(a, e.1).1);
    }
    if FlowsForward(a, e) {
      ExamplePathsOf(Forward(a, e.1).0, Forward(a, e.1).1);
    }
  }

  lemma ExampleClosed()
    ensures Closed(ExampleAssigns(), ExampleClosure())
  {
    var A := ExampleAssigns();
    ExampleClosedUnder(0);
    ExampleClosedUnder(1);
    ExampleClosedUnder(2);
    ExampleClosedUnder(3);
    forall a | a in A ensures a == A[0] || a == A[1] || a == A[2] || a == A[3] {
    }
  }

  /** The closure covers the example and has ten entries, fewer than the
      budget the example runs with. */
  lemma ExampleCovers()
    ensures Covers(ExampleAssigns(), ExampleClosure())
    ensures |ExampleClosure()| == 10
  {
    ExampleSeeds();
    ExampleClosed();
  }

  /** Any covering set holds the whole closure: the seeds, then b.y from
      c.y through c = b, then a.x.y from b.y through b = a.x. */
  lemma ExampleLeast(R: set<Entry>)
    requires Covers(ExampleAssigns(), R)
    ensures ExampleClosure() <= R
  {
    var A := ExampleAssigns();
    forall e | e in ExampleClosure() && e != (1, ["y"]) && e != (0, ["x", "y"]) ensures e in R {
      if e.0 == 0 {
        assert e in SeedsOf(A[0]) || e in SeedsOf(A[3]);
      } else if e.0 <= 2 {
        assert e in SeedsOf(A[1]) || e in SeedsOf(A[2]);
      } else {
        assert e in SeedsOf(A[2]) || e in SeedsOf(A[3]);
      }
    }
    ExampleSteps();
    assert FlowsBack(A[1], (2, ["y"])) && Backward(A[1], ["y"]) == (1, ["y"]);
    assert FlowsBack(A[0], (1, ["y"])) && Backward(A[0], ["y"]) == (0, ["x", "y"]);
  }

  /** The paths the closure records for each variable. */
  function ExamplePaths(v: VarId): set<Path>
  {
    if v == 0 then {[], ["x"], ["y"], ["x", "y"]}
    else if v == 1 || v == 2 then {[], ["y"]}
    else if v == 3 || v == 4 then {[]}
    else {}
  }

  lemma ExamplePathsOf(v: VarId, p: Path)
    ensures (v, p) in ExampleClosure() <==> p in ExamplePaths(v)
  {
  }

  /** The leaf paths the closure leaves each variable with. */
  lemma ExampleLeafs(rules: FactorizationRules, R: set<Entry>)
    requires LeafRules(rules, R) && R == ExampleClosure()
    ensures rules == ExampleRules()
  {
    var E := ExampleRules();
    ExampleDomain(rules, R);
    forall v | v in E ensures rules[v] == E[v] {
      LeafRulesAt(rules, R, v);
      ExampleLeafsAt(rules[v], R, v);
    }
    SameMaps(rules, E);
  }

  lemma SameMaps(m: FactorizationRules, n: FactorizationRules)
    requires m.Keys == n.Keys && forall v :: v in n ==> m[v] == n[v]
    ensures m == n
  {
    assert forall v :: v in m <==> v in n;
    assert forall v :: v in m ==> m[v] == n[v];
  }

  lemma ExampleDomain(rules: FactorizationRules, R: set<Entry>)
    requires forall v :: v in rules <==> exists p :: (v, p) in R
    requires R == ExampleClosure()
    ensures rules.Keys == ExampleRules().Keys
  {
    forall v ensures v in rules <==> v in ExampleRules() {
      if v in rules {
        var p :| (v, p) in R;
        ExamplePathsOf(v, p);
      } else if v in ExampleRules() {
        ExamplePathsOf(v, []);
      }
    }
  }

  lemma ExampleLeafsAt(leafs: seq<Path>, R: set<Entry>, v: VarId)
    requires v in ExampleRules() && StrictlySorted(leafs)
    requires forall p :: p in leafs <==> IsLeaf(R, v, p)
    requires R == ExampleClosure()
    ensures leafs == ExampleRules()[v]
  {
    var E := ExampleRules();
    forall p ensures p in leafs <==> p in E[v] {
      ExampleLeaf(v, p);
    }
    assert StrictlySorted(E[v]) by {
      if v == 0 {
        assert ComparePaths(["x", "y"], ["y"]) < 0;
      }
    }
    StrictlySortedUnique(leafs, E[v]);
  }

  lemma ExampleLeaf(v: VarId, p: Path)
    requires v in ExampleRules()
    ensures IsLeaf(ExampleClosure(), v, p) <==> p in ExampleRules()[v]
  {
    var C := ExampleClosure();
    forall q ensures (v, q) in C <==> q in ExamplePaths(v) {
      ExamplePathsOf(v, q);
    }
    if p in ExampleRules()[v] {
      forall q | q in ExamplePaths(v) ensures !(p < q) {
        if v == 0 && p == ["y"] && q == ["x", "y"] {
          ExampleSteps();
        }
      }
    } else if p in ExamplePaths(v) {
      var q: Path := if v == 0 then ["x", "y"] else ["y"];
      assert q in ExamplePaths(v) && p < q;
    }
  }

  lemma ExamplePlain()
    ensures PlainAssigns(ExampleAssigns())
  {
    var A := ExampleAssigns();
    forall a | a in A ensures PlainParts(a.fromSelector.selector, ',') && PlainParts(a.toSelector.selector, ',') {
      assert a == A[0] || a == A[1] || a == A[2] || a == A[3];
    }
  }

  /** The budget of 100 entries cannot run out on the example. */
  lemma ExampleNoError(r: Result<FactorizationRules>)
    requires r.Err? ==> forall C :: Covers(ExampleAssigns(), C) ==> 100 <= |C|
    ensures r.Ok?
  {
    ExampleCovers();
  }

  /** The entries recorded on the example are exactly its closure. */
  lemma ExampleRecorded(recorded: set<Entry>)
    requires Least(ExampleAssigns(), recorded)
    requires Covers(ExampleAssigns(), recorded)
    ensures recorded == ExampleClosure()
  {
    ExampleCovers();
    ExampleLeast(recorded);
  }

  /** factorization_test.go, TestFactorizeAssignments. */
  method FactorizeAssignmentsExample() returns (r: Result<FactorizationRules>)
    ensures r == Ok(ExampleRules())
  {
    ghost var recorded;
    r, recorded := FactorizeAssignments(ExampleAssigns(), 100);
    ExampleNoError(r);
    ExamplePlain();
    ExampleRecorded(recorded);
    ExampleLeafs(r.value, recorded);
  }
}
