/** FactorizationRules.FactorizeSelector (factorization_rules.go): a selector
    expanded into the leaf paths of its variable that extend it. */
module FactorizationRulesModel {
  import opened Wrappers
  import opened ExecutionOps
  import opened PathOrder
  import opened Factorization

  /** The paths of `paths` that extend `prefix`, in their order. */
  function Matching(paths: seq<Path>, prefix: Path): (r: seq<Path>)
    ensures |r| <= |paths|
  {
    if |paths| == 0 then []
    else if prefix <= paths[|paths| - 1] then Matching(paths[..|paths| - 1], prefix) + [paths[|paths| - 1]]
    else Matching(paths[..|paths| - 1], prefix)
  }

  lemma {:induction false} MatchingMembers(paths: seq<Path>, prefix: Path, p: Path)
    ensures p in Matching(paths, prefix) <==> p in paths && prefix <= p
    decreases |paths|
  {
    if |paths| > 0 {
      var init := paths[..|paths| - 1];
      MatchingMembers(init, prefix, p);
      assert paths == init + [paths[|paths| - 1]];
    }
  }

  /** Selectors of variable `v` at each of `paths`. */
  function AtPaths(v: VarId, paths: seq<Path>): (r: seq<VarSelector>)
    ensures |r| == |paths|
    ensures forall i :: 0 <= i < |r| ==> r[i] == VarSelector(v, paths[i])
  {
    seq(|paths|, i requires 0 <= i < |paths| => VarSelector(v, paths[i]))
  }

  /** The paths of a list of selectors. */
  function PathsOf(s: seq<VarSelector>): (r: seq<Path>)
    ensures |r| == |s|
    ensures forall i :: 0 <= i < |r| ==> r[i] == s[i].selector
  {
    seq(|s|, i requires 0 <= i < |s| => s[i].selector)
  }

  /** The expansion of a selector as a value: the selector itself when its
      variable has no rules, otherwise the matching rule paths in ascending
      order, and a failure when none matches. */
  function Factorized(rules: FactorizationRules, selector: VarSelector): Result<seq<VarSelector>>
  {
    if selector.varId !in rules then Ok([selector])
    else
      var matching := Matching(rules[selector.varId], selector.selector);
      if |matching| == 0 then Err("factorization rules has no mention for selector")
      else Ok(AtPaths(selector.varId, SortPaths(matching)))
  }

  /** Lines 18-36. A variable without rules stays whole. Otherwise the
      selector becomes every rule path of its variable that it is a prefix
      of, ascending; none at all is the assertion failure of line 32. The
      sort compares paths only, and all the selectors share the variable,
      so the selectors are sorted through their paths. */
  method FactorizeSelector(rules: FactorizationRules, selector: VarSelector) returns (r: Result<seq<VarSelector>>)
    ensures selector.varId !in rules ==> r == Ok([selector])
    ensures selector.varId in rules ==>
      (r.Ok? <==> exists i :: 0 <= i < |rules[selector.varId]| && selector.selector <= rules[selector.varId][i])
    ensures selector.varId in rules && r.Ok? ==>
      r.value == AtPaths(selector.varId, PathsOf(r.value))
      && Sorted(PathsOf(r.value))
      && multiset(PathsOf(r.value)) == multiset(Matching(rules[selector.varId], selector.selector))
    ensures r == Factorized(rules, selector)
  {
    if selector.varId !in rules {
      return Ok([selector]);
    }
    var paths := rules[selector.varId];
    var factorized: seq<VarSelector> := [];
    var i := 0;
    while i < |paths|
      invariant 0 <= i <= |paths|
      invariant factorized == AtPaths(selector.varId, Matching(paths[..i], selector.selector))
    {
      if HasPrefix(paths[i], selector.selector) {
        factorized := factorized + [VarSelector(selector.varId, paths[i])];
      }
      assert paths[..i + 1][..i] == paths[..i];
      i := i + 1;
    }
    assert paths[..i] == paths;
    if |factorized| == 0 {
      forall k | 0 <= k < |paths| ensures !(selector.selector <= paths[k]) {
        MatchingMembers(paths, selector.selector, paths[k]);
      }
      return Err("factorization rules has no mention for selector");
    }
    MatchingMembers(paths, selector.selector, PathsOf(factorized)[0]);
    var sorted := SortPaths(PathsOf(factorized));
    assert PathsOf(factorized) == Matching(paths, selector.selector);
    r := Ok(AtPaths(selector.varId, sorted));
    assert PathsOf(r.value) == sorted;
  }

  /** The sorted expansion is determined by the rules: any result the
      method may return is the ascending arrangement of the matching
      paths. */
  lemma FactorizedIsDetermined(rules: FactorizationRules, selector: VarSelector, result: seq<VarSelector>)
    requires selector.varId in rules
    requires result == AtPaths(selector.varId, PathsOf(result))
    requires Sorted(PathsOf(result))
    requires multiset(PathsOf(result)) == multiset(Matching(rules[selector.varId], selector.selector))
    ensures result == AtPaths(selector.varId, SortPaths(Matching(rules[selector.varId], selector.selector)))
  {
    SortedUnique(PathsOf(result), SortPaths(Matching(rules[selector.varId], selector.selector)));
  }

  function ExamplePaths(): seq<Path>
  {
    [["x", "a"], ["x", "b"], ["z"]]
  }

  lemma ExampleMatching()
    ensures Matching(ExamplePaths(), ["x"]) == [["x", "a"], ["x", "b"]]
  {
    var P := ExamplePaths();
    assert !(["x"] <= ["z"]) by {
      assert ["x"][0] != ["z"][0];
    }
    assert P[..2] == [["x", "a"], ["x", "b"]] && P[..2][..1] == [["x", "a"]] && P[..2][..1][..0] == [];
    assert ["x"] <= ["x", "a"] && ["x"] <= ["x", "b"];
  }

  lemma ExampleSorted()
    ensures Sorted([["x", "a"], ["x", "b"]])
  {
    assert "a"[0] < "b"[0];
    assert ComparePaths(["x", "a"], ["x", "b"]) < 0;
  }

  lemma ExampleSelectors()
    ensures AtPaths(0, [["x", "a"], ["x", "b"]]) == [VarSelector(0, ["x", "a"]), VarSelector(0, ["x", "b"])]
  {
  }

  /** factorization_rules_test.go, TestFactorizationRules. */
  method FactorizeSelectorExample() returns (r: Result<seq<VarSelector>>)
    ensures r == Ok([VarSelector(0, ["x", "a"]), VarSelector(0, ["x", "b"])])
  {
    var rules: FactorizationRules := map[0 := ExamplePaths(), 1 := [["a"], ["b"]]];
    r := FactorizeSelector(rules, VarSelector(0, ["x"]));
    assert ["x"] <= rules[0][0];
    ExampleMatching();
    ExampleSorted();
    var expected: seq<Path> := [["x", "a"], ["x", "b"]];
    SortedUnique(PathsOf(r.value), expected);
    ExampleSelectors();
  }
}
