/** Factorization (factorization.go): the field paths worth tracking per
    variable. Starting from both sides of every assignment, a path recorded
    for one side of an assignment is carried over to the other side; in the
    end each variable keeps only its maximal ("leaf") paths. */
module Factorization {
  import opened Wrappers
  import opened Text
  import opened ExecutionOps
  import opened PathOrder

  /** For each variable, the paths it is split into. */
  type FactorizationRules = map<VarId, seq<Path>>

  /** A (variable, field path) pair the closure records. */
  type Entry = (VarId, Path)

  /** The key of the visited set: the path rendered with its fields joined by
      commas. */
  datatype FactorizationEntry = FactorizationEntry(varId: VarId, path: string)

  function EntryKey(e: Entry): FactorizationEntry
  {
    FactorizationEntry(e.0, Join(e.1, ","))
  }

  function KeysOf(es: set<Entry>): set<FactorizationEntry>
  {
    set e | e in es :: EntryKey(e)
  }

  // ---------------------------------------------------------------------------
  // hasPrefix and joinTo

  /** hasPrefix: the needle is no longer than the haystack and agrees with it
      position by position. */
  function HasPrefix<T(==)>(haystack: seq<T>, needle: seq<T>): (r: bool)
    ensures r <==> needle <= haystack
  {
    |haystack| >= |needle| && forall i :: 0 <= i < |needle| ==> needle[i] == haystack[i]
  }

  /** joinTo: the elements appended one by one to an empty workspace, with
      the separator between neighbours. */
  method JoinTo(workspace: string, elements: seq<string>, separator: string) returns (r: string)
    requires |workspace| == 0
    ensures r == Join(elements, separator)
  {
    r := workspace;
    var i := 0;
    while i < |elements|
      invariant 0 <= i <= |elements|
      invariant r == Join(elements[..i], separator)
    {
      JoinAppend(elements[..i], elements[i], separator);
      assert elements[..i + 1] == elements[..i] + [elements[i]];
      if i > 0 {
        r := r + separator;
      }
      r := r + elements[i];
      i := i + 1;
    }
    assert elements[..i] == elements;
  }

  /** With plain field names, different paths get different keys. */
  lemma EntryKeyInjective(e: Entry, f: Entry)
    requires PlainParts(e.1, ',') && PlainParts(f.1, ',')
    requires EntryKey(e) == EntryKey(f)
    ensures e == f
  {
    JoinInjective(e.1, f.1, ',');
  }

  // ---------------------------------------------------------------------------
  // Indexing the assignments

  /** An assignment that takes part in propagation: both sides named, and
      not a variable assigned to itself. */
  predicate Indexed(a: AssignSelector)
  {
    a.fromSelector.varId != BlankVarId && a.toSelector.varId != BlankVarId
    && a.fromSelector.varId != a.toSelector.varId
  }

  /** `sources`: per variable, the indexed assignments writing into it, in
      order. */
  function SourcesIndex(assigns: seq<AssignSelector>): map<VarId, seq<AssignSelector>>
  {
    if |assigns| == 0 then map[]
    else
      var m := SourcesIndex(assigns[..|assigns| - 1]);
      var a := assigns[|assigns| - 1];
      if Indexed(a) then m[a.toSelector.varId := Get(m, a.toSelector.varId, []) + [a]] else m
  }

  /** `targets`: per variable, the indexed assignments reading from it, in
      order. */
  function TargetsIndex(assigns: seq<AssignSelector>): map<VarId, seq<AssignSelector>>
  {
    if |assigns| == 0 then map[]
    else
      var m := TargetsIndex(assigns[..|assigns| - 1]);
      var a := assigns[|assigns| - 1];
      if Indexed(a) then m[a.fromSelector.varId := Get(m, a.fromSelector.varId, []) + [a]] else m
  }

  lemma {:induction false} SourcesIndexMembers(assigns: seq<AssignSelector>, v: VarId, a: AssignSelector)
    ensures a in Get(SourcesIndex(assigns), v, []) <==> a in assigns && Indexed(a) && a.toSelector.varId == v
    decreases |assigns|
  {
    if |assigns| > 0 {
      var init := assigns[..|assigns| - 1];
      SourcesIndexMembers(init, v, a);
      assert assigns == init + [assigns[|assigns| - 1]];
    }
  }

  lemma {:induction false} TargetsIndexMembers(assigns: seq<AssignSelector>, v: VarId, a: AssignSelector)
    ensures a in Get(TargetsIndex(assigns), v, []) <==> a in assigns && Indexed(a) && a.fromSelector.varId == v
    decreases |assigns|
  {
    if |assigns| > 0 {
      var init := assigns[..|assigns| - 1];
      TargetsIndexMembers(init, v, a);
      assert assigns == init + [assigns[|assigns| - 1]];
    }
  }

  /** The indexing loop of FactorizeAssignments: assignments with a blank
      side or with the same variable on both sides are left out. */
  method IndexAssignments(assigns: seq<AssignSelector>)
    returns (sources: map<VarId, seq<AssignSelector>>, targets: map<VarId, seq<AssignSelector>>)
    ensures sources == SourcesIndex(assigns) && targets == TargetsIndex(assigns)
    ensures forall v, a :: a in Get(sources, v, []) <==> a in assigns && Indexed(a) && a.toSelector.varId == v
    ensures forall v, a :: a in Get(targets, v, []) <==> a in assigns && Indexed(a) && a.fromSelector.varId == v
  {
    sources, targets := map[], map[];
    var i := 0;
    while i < |assigns|
      invariant 0 <= i <= |assigns|
      invariant sources == SourcesIndex(assigns[..i]) && targets == TargetsIndex(assigns[..i])
    {
      var assign := assigns[i];
      assert assigns[..i + 1][..i] == assigns[..i];
      if Indexed(assign) {
        targets := targets[assign.fromSelector.varId := Get(targets, assign.fromSelector.varId, []) + [assign]];
        sources := sources[assign.toSelector.varId := Get(sources, assign.toSelector.varId, []) + [assign]];
      }
      i := i + 1;
    }
    assert assigns[..i] == assigns;
    forall v, a ensures a in Get(sources, v, []) <==> a in assigns && Indexed(a) && a.toSelector.varId == v {
      SourcesIndexMembers(assigns, v, a);
    }
    forall v, a ensures a in Get(targets, v, []) <==> a in assigns && Indexed(a) && a.fromSelector.varId == v {
      TargetsIndexMembers(assigns, v, a);
    }
  }

  // ---------------------------------------------------------------------------
  // Keeping the leaf paths

  /** The loop at factorization.go keeps the path before position i when it
      is the last one or the next path does not extend it. */
  predicate KeptAt(s: seq<Path>, i: nat)
    requires i < |s|
  {
    i + 1 == |s| || !HasPrefix(s[i + 1], s[i])
  }

  /** The paths the loop has kept after looking at the first n. */
  function Kept(s: seq<Path>, n: nat): seq<Path>
    requires n <= |s|
  {
    if n == 0 then [] else Kept(s, n - 1) + (if KeptAt(s, n - 1) then [s[n - 1]] else [])
  }

  lemma {:induction false} KeptMembers(s: seq<Path>, n: nat, p: Path)
    requires n <= |s|
    ensures p in Kept(s, n) <==> exists i :: 0 <= i < n && s[i] == p && KeptAt(s, i)
  {
    if n > 0 {
      KeptMembers(s, n - 1, p);
    }
  }

  /** In ascending order a path extended by any later path is extended by the
      next one, so the loop keeps exactly the paths no later path extends. */
  lemma KeptAtMeans(s: seq<Path>, i: nat)
    requires Sorted(s) && i < |s|
    ensures KeptAt(s, i) <==> forall j :: i < j < |s| ==> !(s[i] <= s[j])
  {
    if !KeptAt(s, i) {
      assert s[i] <= s[i + 1];
    } else {
      forall j | i < j < |s| ensures !(s[i] <= s[j]) {
        if s[i] <= s[j] && i + 1 < j {
          BetweenExtends(s[i], s[i + 1], s[j]);
        }
      }
    }
  }

  lemma {:induction false} KeptStrictlySorted(s: seq<Path>, n: nat)
    requires Sorted(s) && n <= |s|
    ensures StrictlySorted(Kept(s, n))
  {
    if n > 0 {
      KeptStrictlySorted(s, n - 1);
      var k := Kept(s, n - 1);
      if KeptAt(s, n - 1) {
        forall a | 0 <= a < |k| ensures ComparePaths(k[a], s[n - 1]) < 0 {
          KeptMembers(s, n - 1, k[a]);
          var i :| 0 <= i < n - 1 && s[i] == k[a] && KeptAt(s, i);
          KeptAtMeans(s, i);
          PathsEqual(s[i], s[n - 1]);
        }
      }
    }
  }

  /** Every path of an ascending list is a prefix of one the loop keeps. */
  lemma {:induction false} KeptCovers(s: seq<Path>, i: nat)
    requires Sorted(s) && i < |s|
    ensures exists q :: q in Kept(s, |s|) && s[i] <= q
    decreases |s| - i
  {
    if KeptAt(s, i) {
      KeptMembers(s, |s|, s[i]);
    } else {
      KeptCovers(s, i + 1);
      var q :| q in Kept(s, |s|) && s[i + 1] <= q;
      assert s[i] <= s[i + 1];
      assert s[i] <= q;
    }
  }

  /** A kept path is extended properly by no path of the list. */
  lemma KeptIsMaximal(s: seq<Path>, p: Path, q: Path)
    requires Sorted(s) && p in Kept(s, |s|) && q in s
    ensures !(p < q)
  {
    KeptMembers(s, |s|, p);
    var i :| 0 <= i < |s| && s[i] == p && KeptAt(s, i);
    KeptAtMeans(s, i);
    var j :| 0 <= j < |s| && s[j] == q;
    if i < j {
      assert !(s[i] <= s[j]);
    } else if j < i {
      assert ComparePaths(s[j], s[i]) <= 0;
      if p <= q {
        PrefixFirst(p, q);
        PathsAntisymmetric(p, q);
      }
    }
  }

  /** A path of the list that no path extends properly is kept. */
  lemma MaximalIsKept(s: seq<Path>, p: Path)
    requires Sorted(s) && p in s && forall q :: q in s ==> !(p < q)
    ensures p in Kept(s, |s|)
  {
    var i := LastIndex(s, p);
    forall j | i < j < |s| ensures !(s[i] <= s[j]) {
      assert s[j] != p && s[j] in s;
    }
    KeptAtMeans(s, i);
    KeptMembers(s, |s|, p);
  }

  /** The last position holding `p`. */
  function LastIndex(s: seq<Path>, p: Path): (i: nat)
    requires p in s
    ensures i < |s| && s[i] == p && forall j :: i < j < |s| ==> s[j] != p
  {
    if s[|s| - 1] == p then |s| - 1
    else
      assert p in s[..|s| - 1] by {
        var k :| 0 <= k < |s| && s[k] == p;
        assert s[..|s| - 1][k] == p;
      }
      LastIndex(s[..|s| - 1], p)
  }

  /** The kept paths of a sorted copy of `paths` are its leaf paths. */
  lemma KeptLeafPaths(paths: seq<Path>, sorted: seq<Path>)
    requires Sorted(sorted) && multiset(sorted) == multiset(paths)
    ensures var leafs := Kept(sorted, |sorted|);
      forall p :: p in leafs <==> p in paths && forall q :: q in paths ==> !(p < q)
    ensures var leafs := Kept(sorted, |sorted|);
      forall p :: p in paths ==> exists k :: 0 <= k < |leafs| && p <= leafs[k]
  {
    var leafs := Kept(sorted, |sorted|);
    forall q ensures q in sorted <==> q in paths {
      assert q in sorted <==> q in multiset(sorted);
      assert q in paths <==> q in multiset(paths);
    }
    forall p ensures p in leafs <==> p in paths && forall q :: q in paths ==> !(p < q) {
      KeptLeaf(paths, sorted, p);
    }
    forall p | p in paths ensures exists k :: 0 <= k < |leafs| && p <= leafs[k] {
      var i :| 0 <= i < |sorted| && sorted[i] == p;
      KeptCovers(sorted, i);
      var q :| q in leafs && p <= q;
      var k :| 0 <= k < |leafs| && leafs[k] == q;
    }
  }

  lemma KeptLeaf(paths: seq<Path>, sorted: seq<Path>, p: Path)
    requires Sorted(sorted) && forall q :: q in sorted <==> q in paths
    ensures p in Kept(sorted, |sorted|) <==> p in paths && forall q :: q in paths ==> !(p < q)
  {
    if p in Kept(sorted, |sorted|) {
      forall q | q in paths ensures !(p < q) {
        KeptIsMaximal(sorted, p, q);
      }
      KeptMembers(sorted, |sorted|, p);
    } else if p in paths && forall q :: q in paths ==> !(p < q) {
      MaximalIsKept(sorted, p);
    }
  }

  /** Lines 53-59 for one variable: sort the paths, then keep each one the
      next does not extend. */
  method LeafPaths(paths: seq<Path>) returns (leafs: seq<Path>)
    ensures StrictlySorted(leafs)
    ensures forall p :: p in leafs <==> p in paths && forall q :: q in paths ==> !(p < q)
    ensures forall p :: p in paths ==> exists k :: 0 <= k < |leafs| && p <= leafs[k]
  {
    var sorted := SortPaths(paths);
    leafs := [];
    var i := 1;
    while i <= |sorted|
      invariant 1 <= i <= |sorted| + 1
      invariant leafs == Kept(sorted, i - 1)
    {
      if i == |sorted| || !HasPrefix(sorted[i], sorted[i - 1]) {
        leafs := leafs + [sorted[i - 1]];
      }
      i := i + 1;
    }
    KeptStrictlySorted(sorted, |sorted|);
    KeptLeafPaths(paths, sorted);
  }

  // ---------------------------------------------------------------------------
  // Propagation across assignments

  /** A recorded path of the written variable that extends the written
      selector flows back to the read side. */
  predicate FlowsBack(a: AssignSelector, e: Entry)
  {
    Indexed(a) && a.toSelector.varId == e.0 && HasPrefix(e.1, a.toSelector.selector)
  }

  /** A recorded path of the read variable that extends the read selector
      flows forward to the written side. */
  predicate FlowsForward(a: AssignSelector, e: Entry)
  {
    Indexed(a) && a.fromSelector.varId == e.0 && HasPrefix(e.1, a.fromSelector.selector)
  }

  /** The read side's selector followed by the rest of `p` past the written
      selector. */
  function Backward(a: AssignSelector, p: Path): Entry
    requires |a.toSelector.selector| <= |p|
  {
    (a.fromSelector.varId, a.fromSelector.selector + p[|a.toSelector.selector|..])
  }

  /** The written side's selector followed by the rest of `p` past the read
      selector. */
  function Forward(a: AssignSelector, p: Path): Entry
    requires |a.fromSelector.selector| <= |p|
  {
    (a.toSelector.varId, a.toSelector.selector + p[|a.fromSelector.selector|..])
  }

  /** One propagation step from `e` to `f` through assignment `a`. */
  predicate Step(a: AssignSelector, e: Entry, f: Entry)
  {
    (FlowsBack(a, e) && f == Backward(a, e.1)) || (FlowsForward(a, e) && f == Forward(a, e.1))
  }

  /** The entries FactorizeAssignments starts from for one assignment: each
      named side with the empty path and with its own selector. */
  function SeedsOf(a: AssignSelector): set<Entry>
  {
    (if a.fromSelector.varId != BlankVarId then {(a.fromSelector.varId, []), (a.fromSelector.varId, a.fromSelector.selector)} else {})
    + (if a.toSelector.varId != BlankVarId then {(a.toSelector.varId, []), (a.toSelector.varId, a.toSelector.selector)} else {})
  }

  function Seeds(assigns: seq<AssignSelector>): set<Entry>
  {
    set a, e | a in assigns && e in SeedsOf(a) :: e
  }

  /** No propagation step leads out of C. */
  ghost predicate Closed(assigns: seq<AssignSelector>, C: set<Entry>)
  {
    forall e, a :: e in C && a in assigns ==>
      (FlowsBack(a, e) ==> Backward(a, e.1) in C) && (FlowsForward(a, e) ==> Forward(a, e.1) in C)
  }

  /** C holds the seeds and is closed under propagation. */
  ghost predicate Covers(assigns: seq<AssignSelector>, C: set<Entry>)
  {
    Seeds(assigns) <= C && Closed(assigns, C)
  }

  /** R lies within every covering set: it is the least one when it covers. */
  ghost predicate Least(assigns: seq<AssignSelector>, R: set<Entry>)
  {
    forall C :: Covers(assigns, C) ==> R <= C
  }

  /** Every step from `e` leads to an entry whose key is in `keys`. */
  ghost predicate Done(assigns: seq<AssignSelector>, keys: set<FactorizationEntry>, e: Entry)
  {
    forall a :: a in assigns ==>
      (FlowsBack(a, e) ==> EntryKey(Backward(a, e.1)) in keys)
      && (FlowsForward(a, e) ==> EntryKey(Forward(a, e.1)) in keys)
  }

  /** Closure up to the keys of the visited set. */
  ghost predicate KeyClosed(assigns: seq<AssignSelector>, R: set<Entry>)
  {
    forall e :: e in R ==> Done(assigns, KeysOf(R), e)
  }

  /** Field names never empty and never holding the key separator, as Go
      identifiers are. */
  predicate PlainAssigns(assigns: seq<AssignSelector>)
  {
    forall a :: a in assigns ==> PlainParts(a.fromSelector.selector, ',') && PlainParts(a.toSelector.selector, ',')
  }

  /** Every field of `p` comes from a selector of the assignments. */
  ghost predicate FieldsFrom(assigns: seq<AssignSelector>, p: Path)
  {
    forall k :: 0 <= k < |p| ==>
      exists a :: a in assigns && (p[k] in a.fromSelector.selector || p[k] in a.toSelector.selector)
  }

  function Recorded(order: seq<Entry>): set<Entry>
  {
    set e | e in order
  }

  /** `f` is one step from some entry of `order`. */
  ghost predicate Follows(assigns: seq<AssignSelector>, order: seq<Entry>, f: Entry)
  {
    exists j, a :: 0 <= j < |order| && a in assigns && Step(a, order[j], f)
  }

  /** The keys of the recorded entries, as the visited set holds them. */
  function Keys(order: seq<Entry>): set<FactorizationEntry>
  {
    if |order| == 0 then {} else Keys(order[..|order| - 1]) + {EntryKey(order[|order| - 1])}
  }

  /** Each recorded entry has a key not seen before, a named variable, fields
      taken from the assignments, and is a seed or one step from an earlier
      entry. */
  ghost predicate Wellformed(assigns: seq<AssignSelector>, order: seq<Entry>)
  {
    |order| == 0 ||
    var init, e := order[..|order| - 1], order[|order| - 1];
    Wellformed(assigns, init)
    && EntryKey(e) !in Keys(init)
    && e.0 != BlankVarId && FieldsFrom(assigns, e.1)
    && (e in Seeds(assigns) || Follows(assigns, init, e))
  }

  /** Every entry of `order` but those on the walk's stack has been
      propagated. */
  ghost predicate Progress(assigns: seq<AssignSelector>, keys: set<FactorizationEntry>, order: seq<Entry>, stack: set<Entry>)
  {
    forall i :: 0 <= i < |order| ==> order[i] in stack || Done(assigns, keys, order[i])
  }

  /** The rules map as it grows: each path appended to its variable's list. */
  ghost function Group(order: seq<Entry>): FactorizationRules
  {
    if |order| == 0 then map[]
    else
      var g := Group(order[..|order| - 1]);
      var e := order[|order| - 1];
      g[e.0 := Get(g, e.0, []) + [e.1]]
  }

  lemma {:induction false} GroupMembers(order: seq<Entry>, v: VarId, p: Path)
    ensures v in Group(order) <==> exists q :: (v, q) in order
    ensures v in Group(order) ==> (p in Group(order)[v] <==> (v, p) in order)
  {
    if |order| > 0 {
      var init := order[..|order| - 1];
      GroupMembers(init, v, p);
      assert order == init + [order[|order| - 1]];
      if v !in Group(order) {
        forall q ensures (v, q) !in order {
          GroupMembers(init, v, q);
        }
      }
    }
  }

  lemma PrefixTrans(a: seq<Entry>, b: seq<Entry>, c: seq<Entry>, x: Entry)
    requires a <= b && b <= c
    ensures a <= c
    ensures x in a ==> x in c
  {
    assert c[..|a|] == c[..|b|][..|a|];
  }

  lemma {:induction false} KeysRecorded(order: seq<Entry>)
    ensures Keys(order) == KeysOf(Recorded(order))
  {
    if |order| > 0 {
      var init := order[..|order| - 1];
      KeysRecorded(init);
      assert order == init + [order[|order| - 1]];
      assert Recorded(order) == Recorded(init) + {order[|order| - 1]};
    }
  }

  lemma ProgressPop(assigns: seq<AssignSelector>, keys: set<FactorizationEntry>, order: seq<Entry>, stack: set<Entry>, e: Entry)
    requires Progress(assigns, keys, order, stack + {e}) && Done(assigns, keys, e)
    ensures Progress(assigns, keys, order, stack)
  {
  }

  lemma DoneGrows(assigns: seq<AssignSelector>, keys: set<FactorizationEntry>, more: set<FactorizationEntry>, e: Entry)
    requires Done(assigns, keys, e) && keys <= more
    ensures Done(assigns, more, e)
  {
  }

  /** The propagation state of factorizeAssigment. `fuel` and `complete`
      are not in the source: the walk there need not terminate, so here it
      records at most `budget` entries and notes when it ran out. */
  class FactorizationContext {
    var analyzed: set<FactorizationEntry>
    var rules: FactorizationRules
    const sources: map<VarId, seq<AssignSelector>>
    const targets: map<VarId, seq<AssignSelector>>
    var fuel: nat
    var complete: bool
    ghost const assigns: seq<AssignSelector>
    ghost const budget: nat
    /** The entries in the order they were recorded. */
    ghost var order: seq<Entry>

    ghost predicate Valid()
      reads this
    {
      sources == SourcesIndex(assigns) && targets == TargetsIndex(assigns)
      && fuel + |order| == budget
      && (!complete ==> fuel == 0)
      && analyzed == Keys(order)
      && rules == Group(order)
      && Wellformed(assigns, order)
    }

    constructor (ghost assigns: seq<AssignSelector>, sources: map<VarId, seq<AssignSelector>>,
                 targets: map<VarId, seq<AssignSelector>>, budget: nat)
      requires sources == SourcesIndex(assigns) && targets == TargetsIndex(assigns)
      ensures Valid() && this.assigns == assigns && this.budget == budget
      ensures order == [] && complete && fuel == budget && analyzed == {} && rules == map[]
    {
      this.assigns := assigns;
      this.sources := sources;
      this.targets := targets;
      this.budget := budget;
      analyzed := {};
      rules := map[];
      fuel := budget;
      complete := true;
      order := [];
    }

    /** Lines 74-75: the path joins its variable's rules and its key the
        visited set. */
    method Record(varId: VarId, path: Path, entry: FactorizationEntry, ghost stack: set<Entry>)
      requires Valid() && fuel > 0 && entry == EntryKey((varId, path)) && entry !in analyzed
      requires varId != BlankVarId && FieldsFrom(assigns, path)
      requires (varId, path) in Seeds(assigns) || Follows(assigns, order, (varId, path))
      modifies this
      ensures Valid()
      ensures order == old(order) + [(varId, path)] && analyzed == old(analyzed) + {entry}
      ensures fuel == old(fuel) - 1 && complete == old(complete)
      ensures Progress(assigns, old(analyzed), old(order), stack) ==> Progress(assigns, analyzed, order, stack + {(varId, path)})
    {
      rules := rules[varId := Get(rules, varId, []) + [path]];
      analyzed := analyzed + {entry};
      order := order + [(varId, path)];
      fuel := fuel - 1;
      assert order[..|order| - 1] == old(order);
      if Progress(assigns, old(analyzed), old(order), stack) {
        forall i | 0 <= i < |order| && order[i] !in stack + {(varId, path)}
          ensures Done(assigns, analyzed, order[i])
        {
          DoneGrows(assigns, old(analyzed), analyzed, order[i]);
        }
      }
    }

    /** factorizeAssigment: record (varId, path) unless it is blank or
        already visited, then propagate it through every assignment that
        writes into or reads from the variable. */
    method FactorizeAssignment(varId: VarId, path: Path, ghost stack: set<Entry>)
      requires Valid()
      requires varId != BlankVarId ==> (varId, path) in Seeds(assigns) || Follows(assigns, order, (varId, path))
      requires FieldsFrom(assigns, path)
      requires complete ==> Progress(assigns, analyzed, order, stack)
      modifies this
      ensures Valid()
      ensures old(order) <= order
      ensures old(analyzed) <= analyzed && fuel <= old(fuel)
      ensures complete ==> old(complete)
      ensures complete ==> Progress(assigns, analyzed, order, stack)
      ensures complete && varId != BlankVarId ==> EntryKey((varId, path)) in analyzed
      decreases fuel, 2
    {
      if varId == BlankVarId {
        return;
      }
      var pathBytes := JoinTo("", path, ",");
      var entry := FactorizationEntry(varId, pathBytes);
      if entry in analyzed {
        return;
      }
      if fuel == 0 {
        complete := false;
        return;
      }
      Record(varId, path, entry, stack);
      Propagate(varId, path, old(fuel), stack);
      if complete {
        ProgressPop(assigns, analyzed, order, stack, (varId, path));
      }
    }

    /** Lines 77-90: propagate a freshly recorded entry both ways. */
    method Propagate(varId: VarId, path: Path, ghost bound: nat, ghost stack: set<Entry>)
      requires Valid() && fuel < bound
      requires (varId, path) in order && FieldsFrom(assigns, path)
      requires complete ==> Progress(assigns, analyzed, order, stack + {(varId, path)})
      modifies this
      ensures Valid()
      ensures old(order) <= order
      ensures old(analyzed) <= analyzed && fuel <= old(fuel)
      ensures complete ==> old(complete)
      ensures complete ==> Progress(assigns, analyzed, order, stack + {(varId, path)})
      ensures complete ==> Done(assigns, analyzed, (varId, path))
      decreases bound, 1
    {
      PropagateBack(varId, path, bound, stack + {(varId, path)});
      ghost var back := order;
      PropagateForward(varId, path, bound, stack + {(varId, path)});
      PrefixTrans(old(order), back, order, (varId, path));
    }

    /** Lines 77-83: through the assignments writing into the variable. */
    method PropagateBack(varId: VarId, path: Path, ghost bound: nat, ghost stack: set<Entry>)
      requires Valid() && fuel < bound
      requires (varId, path) in order && FieldsFrom(assigns, path)
      requires complete ==> Progress(assigns, analyzed, order, stack)
      modifies this
      ensures Valid()
      ensures old(order) <= order
      ensures old(analyzed) <= analyzed && fuel <= old(fuel)
      ensures complete ==> old(complete)
      ensures complete ==> Progress(assigns, analyzed, order, stack)
      ensures complete ==> forall a :: a in assigns && FlowsBack(a, (varId, path)) ==> EntryKey(Backward(a, path)) in analyzed
      decreases bound, 0
    {
      var froms := Get(sources, varId, []);
      var i := 0;
      while i < |froms|
        invariant 0 <= i <= |froms|
        invariant Valid() && fuel <= old(fuel) && (varId, path) in order
        invariant old(order) <= order
        invariant old(analyzed) <= analyzed
        invariant complete ==> old(complete)
        invariant complete ==> Progress(assigns, analyzed, order, stack)
        invariant complete ==> forall j :: 0 <= j < i && FlowsBack(froms[j], (varId, path)) ==> EntryKey(Backward(froms[j], path)) in analyzed
      {
        var source := froms[i];
        ghost var before := order;
        SourcesIndexMembers(assigns, varId, source);
        if HasPrefix(path, source.toSelector.selector) {
          var targetPath := source.fromSelector.selector + path[|source.toSelector.selector|..];
          ghost var f := (source.fromSelector.varId, targetPath);
          assert Step(source, (varId, path), f);
          FieldsStep(assigns, source, path, source.fromSelector.selector, |source.toSelector.selector|);
          FactorizeAssignment(source.fromSelector.varId, targetPath, stack);
        }
        PrefixTrans(old(order), before, order, (varId, path));
        i := i + 1;
      }
      forall a | a in assigns && FlowsBack(a, (varId, path)) && complete
        ensures EntryKey(Backward(a, path)) in analyzed
      {
        SourcesIndexMembers(assigns, varId, a);
      }
    }

    /** Lines 84-90: through the assignments reading from the variable. */
    method PropagateForward(varId: VarId, path: Path, ghost bound: nat, ghost stack: set<Entry>)
      requires Valid() && fuel < bound
      requires (varId, path) in order && FieldsFrom(assigns, path)
      requires complete ==> Progress(assigns, analyzed, order, stack)
      modifies this
      ensures Valid()
      ensures old(order) <= order
      ensures old(analyzed) <= analyzed && fuel <= old(fuel)
      ensures complete ==> old(complete)
      ensures complete ==> Progress(assigns, analyzed, order, stack)
      ensures complete ==> forall a :: a in assigns && FlowsForward(a, (varId, path)) ==> EntryKey(Forward(a, path)) in analyzed
      decreases bound, 0
    {
      var tos := Get(targets, varId, []);
      var i := 0;
      while i < |tos|
        invariant 0 <= i <= |tos|
        invariant Valid() && fuel <= old(fuel) && (varId, path) in order
        invariant old(order) <= order
        invariant old(analyzed) <= analyzed
        invariant complete ==> old(complete)
        invariant complete ==> Progress(assigns, analyzed, order, stack)
        invariant complete ==> forall j :: 0 <= j < i && FlowsForward(tos[j], (varId, path)) ==> EntryKey(Forward(tos[j], path)) in analyzed
      {
        var target := tos[i];
        ghost var before := order;
        TargetsIndexMembers(assigns, varId, target);
        if HasPrefix(path, target.fromSelector.selector) {
          var targetPath := target.toSelector.selector + path[|target.fromSelector.selector|..];
          ghost var f := (target.toSelector.varId, targetPath);
          assert Step(target, (varId, path), f);
          FieldsStep(assigns, target, path, target.toSelector.selector, |target.fromSelector.selector|);
          FactorizeAssignment(target.toSelector.varId, targetPath, stack);
        }
        PrefixTrans(old(order), before, order, (varId, path));
        i := i + 1;
      }
      forall a | a in assigns && FlowsForward(a, (varId, path)) && complete
        ensures EntryKey(Forward(a, path)) in analyzed
      {
        TargetsIndexMembers(assigns, varId, a);
      }
    }

    /** Lines 47-50: both sides of one assignment, with the empty path and
        with their own selector. */
    method SeedAssignment(a: AssignSelector)
      requires Valid() && a in assigns
      requires complete ==> Progress(assigns, analyzed, order, {})
      modifies this
      ensures Valid()
      ensures old(analyzed) <= analyzed
      ensures complete ==> old(complete)
      ensures complete ==> Progress(assigns, analyzed, order, {})
      ensures complete ==> KeysOf(SeedsOf(a)) <= analyzed
    {
      SeedsOfIn(assigns, a);
      FieldsOfSelectors(assigns, a);
      SeedSide(a.fromSelector.varId, a.fromSelector.selector);
      SeedSide(a.toSelector.varId, a.toSelector.selector);
    }

    /** Lines 44-50: every assignment seeded in turn. */
    method SeedAssignments(list: seq<AssignSelector>)
      requires Valid() && |order| == 0 && complete && list == assigns
      modifies this
      ensures Valid()
      ensures complete ==> Progress(assigns, analyzed, order, {})
      ensures complete ==> forall e :: e in Seeds(assigns) ==> EntryKey(e) in Keys(order)
    {
      var i := 0;
      while i < |list|
        invariant 0 <= i <= |list|
        invariant Valid()
        invariant complete ==> Progress(assigns, analyzed, order, {})
        invariant complete ==> KeysOf(Seeds(list[..i])) <= analyzed
      {
        SeedsSnoc(list, i);
        SeedAssignment(list[i]);
        i := i + 1;
      }
      assert list[..|list|] == list;
      if complete {
        SeedKeys(list, analyzed);
      }
    }

    /** One side of an assignment: its variable with the empty path, then
        with the side's selector. */
    method SeedSide(varId: VarId, selector: Path)
      requires Valid()
      requires varId != BlankVarId ==> (varId, []) in Seeds(assigns) && (varId, selector) in Seeds(assigns)
      requires FieldsFrom(assigns, []) && FieldsFrom(assigns, selector)
      requires complete ==> Progress(assigns, analyzed, order, {})
      modifies this
      ensures Valid()
      ensures old(analyzed) <= analyzed
      ensures complete ==> old(complete)
      ensures complete ==> Progress(assigns, analyzed, order, {})
      ensures complete && varId != BlankVarId ==> EntryKey((varId, [])) in analyzed && EntryKey((varId, selector)) in analyzed
    {
      FactorizeAssignment(varId, [], {});
      FactorizeAssignment(varId, selector, {});
    }
  }

  /** A propagated path takes its fields from a selector and from the path it
      came from. */
  lemma FieldsStep(assigns: seq<AssignSelector>, a: AssignSelector, p: Path, sel: Path, k: nat)
    requires a in assigns && (sel == a.fromSelector.selector || sel == a.toSelector.selector)
    requires FieldsFrom(assigns, p) && k <= |p|
    ensures FieldsFrom(assigns, sel + p[k..])
  {
    var q := sel + p[k..];
    forall i | 0 <= i < |q|
      ensures exists b :: b in assigns && (q[i] in b.fromSelector.selector || q[i] in b.toSelector.selector)
    {
      if i < |sel| {
        assert q[i] == sel[i];
      } else {
        assert q[i] == p[k + i - |sel|];
      }
    }
  }

  lemma SeedsOfIn(assigns: seq<AssignSelector>, a: AssignSelector)
    requires a in assigns
    ensures SeedsOf(a) <= Seeds(assigns)
  {
  }

  lemma FieldsOfSelectors(assigns: seq<AssignSelector>, a: AssignSelector)
    requires a in assigns
    ensures FieldsFrom(assigns, []) && FieldsFrom(assigns, a.fromSelector.selector) && FieldsFrom(assigns, a.toSelector.selector)
  {
    forall k | 0 <= k < |a.fromSelector.selector| ensures a.fromSelector.selector[k] in a.fromSelector.selector {}
    forall k | 0 <= k < |a.toSelector.selector| ensures a.toSelector.selector[k] in a.toSelector.selector {}
  }

  /** Every recorded entry lies in every covering set. */
  lemma {:induction false} WellformedWithin(assigns: seq<AssignSelector>, order: seq<Entry>, C: set<Entry>)
    requires Wellformed(assigns, order) && Covers(assigns, C)
    ensures Recorded(order) <= C
  {
    if |order| > 0 {
      var init, e := order[..|order| - 1], order[|order| - 1];
      WellformedWithin(assigns, init, C);
      assert order == init + [e];
      if e !in Seeds(assigns) {
        var j, a :| 0 <= j < |init| && a in assigns && Step(a, init[j], e);
        assert init[j] in Recorded(init);
      }
    }
  }

  /** Recorded entries name a variable and take their fields from the
      assignments. */
  lemma {:induction false} WellformedEntries(assigns: seq<AssignSelector>, order: seq<Entry>, x: Entry)
    requires Wellformed(assigns, order) && x in order
    ensures x.0 != BlankVarId && FieldsFrom(assigns, x.1)
  {
    var init := order[..|order| - 1];
    if x != order[|order| - 1] {
      assert order == init + [order[|order| - 1]];
      WellformedEntries(assigns, init, x);
    }
  }

  /** No entry is recorded twice. */
  lemma {:induction false} WellformedCount(assigns: seq<AssignSelector>, order: seq<Entry>)
    requires Wellformed(assigns, order)
    ensures |Recorded(order)| == |order|
  {
    if |order| > 0 {
      var init, e := order[..|order| - 1], order[|order| - 1];
      WellformedCount(assigns, init);
      KeysRecorded(init);
      assert order == init + [e];
      assert Recorded(order) == Recorded(init) + {e};
      assert e !in Recorded(init);
    }
  }

  lemma {:induction false} SubsetSize<T>(a: set<T>, b: set<T>)
    requires a <= b
    ensures |a| <= |b|
  {
    if a != {} {
      var x :| x in a;
      SubsetSize(a - {x}, b - {x});
    }
  }

  /** Running out of budget means every covering set has at least `budget`
      entries. */
  lemma Exhausted(assigns: seq<AssignSelector>, order: seq<Entry>)
    requires Wellformed(assigns, order)
    ensures forall C :: Covers(assigns, C) ==> |order| <= |C|
  {
    WellformedCount(assigns, order);
    forall C | Covers(assigns, C) ensures |order| <= |C| {
      WellformedWithin(assigns, order, C);
      SubsetSize(Recorded(order), C);
    }
  }

  /** A recorded entry is a leaf when no recorded path of its variable
      extends it properly. */
  ghost predicate IsLeaf(R: set<Entry>, v: VarId, p: Path)
  {
    (v, p) in R && forall q :: (v, q) in R ==> !(p < q)
  }

  /** What LeafPaths promises for one variable. */
  ghost predicate LeafList(paths: seq<Path>, leafs: seq<Path>)
  {
    StrictlySorted(leafs)
    && (forall p :: p in leafs <==> p in paths && forall q :: q in paths ==> !(p < q))
    && (forall p :: p in paths ==> exists k :: 0 <= k < |leafs| && p <= leafs[k])
  }

  /** The final rules for the recorded entries R: a variable has rules iff
      something was recorded for it; they are its leaf paths in ascending
      order, and cover every recorded path. */
  ghost predicate LeafRules(rules: FactorizationRules, R: set<Entry>)
  {
    (forall v :: v in rules <==> exists p :: (v, p) in R)
    && (forall v :: v in rules ==> StrictlySorted(rules[v]))
    && (forall v, p :: v in rules ==> (p in rules[v] <==> IsLeaf(R, v, p)))
    && (forall v, p :: (v, p) in R ==> v in rules && exists i :: 0 <= i < |rules[v]| && p <= rules[v][i])
  }

  /** The leaf paths of one variable under LeafRules. */
  lemma LeafRulesAt(rules: FactorizationRules, R: set<Entry>, v: VarId)
    requires LeafRules(rules, R) && v in rules
    ensures StrictlySorted(rules[v])
    ensures forall p :: p in rules[v] <==> IsLeaf(R, v, p)
  {
  }

  lemma GroupLeafRules(order: seq<Entry>, result: FactorizationRules)
    requires result.Keys == Group(order).Keys
    requires forall v :: v in Group(order) ==> LeafList(Group(order)[v], result[v])
    ensures LeafRules(result, Recorded(order))
  {
    GroupDomain(order, result);
    GroupLeafs(order, result);
    GroupCovers(order, result);
  }

  lemma GroupDomain(order: seq<Entry>, result: FactorizationRules)
    requires result.Keys == Group(order).Keys
    ensures forall v :: v in result <==> exists p :: (v, p) in Recorded(order)
  {
    forall v ensures v in result <==> exists p :: (v, p) in Recorded(order) {
      GroupMembers(order, v, []);
    }
  }

  lemma GroupLeafs(order: seq<Entry>, result: FactorizationRules)
    requires result.Keys == Group(order).Keys
    requires forall v :: v in Group(order) ==> LeafList(Group(order)[v], result[v])
    ensures forall v, p :: v in result ==> (p in result[v] <==> IsLeaf(Recorded(order), v, p))
  {
    forall v, p | v in result ensures p in result[v] <==> IsLeaf(Recorded(order), v, p) {
      GroupLeafAt(order, result[v], v, p);
    }
  }

  lemma GroupCovers(order: seq<Entry>, result: FactorizationRules)
    requires result.Keys == Group(order).Keys
    requires forall v :: v in Group(order) ==> LeafList(Group(order)[v], result[v])
    ensures forall v, p :: (v, p) in Recorded(order) ==> v in result && exists i :: 0 <= i < |result[v]| && p <= result[v][i]
  {
    forall v, p | (v, p) in Recorded(order) ensures v in result && exists i :: 0 <= i < |result[v]| && p <= result[v][i] {
      GroupCoverAt(order, result, v, p);
    }
  }

  lemma GroupCoverAt(order: seq<Entry>, result: FactorizationRules, v: VarId, p: Path)
    requires result.Keys == Group(order).Keys
    requires forall v :: v in Group(order) ==> LeafList(Group(order)[v], result[v])
    requires (v, p) in Recorded(order)
    ensures v in result && exists i :: 0 <= i < |result[v]| && p <= result[v][i]
  {
    GroupMembers(order, v, p);
    assert LeafList(Group(order)[v], result[v]);
  }

  lemma GroupLeafAt(order: seq<Entry>, leafs: seq<Path>, v: VarId, p: Path)
    requires v in Group(order) && LeafList(Group(order)[v], leafs)
    ensures p in leafs <==> IsLeaf(Recorded(order), v, p)
  {
    var G, R := Group(order)[v], Recorded(order);
    forall q ensures q in G <==> (v, q) in R {
      GroupMembers(order, v, q);
    }
    LeafListIsLeaf(G, leafs, R, v, p);
  }

  lemma LeafListIsLeaf(paths: seq<Path>, leafs: seq<Path>, R: set<Entry>, v: VarId, p: Path)
    requires LeafList(paths, leafs)
    requires forall q :: q in paths <==> (v, q) in R
    ensures p in leafs <==> IsLeaf(R, v, p)
  {
  }

  /** FactorizeAssignments: index the assignments, record and propagate the
      seeds of every assignment, then keep the leaf paths of each variable.
      `budget` bounds the number of recorded entries (the source has no
      bound); running out of it is reported as an error. */
  method FactorizeAssignments(assigns: seq<AssignSelector>, budget: nat)
    returns (r: Result<FactorizationRules>, ghost recorded: set<Entry>)
    ensures r.Ok? ==> Least(assigns, recorded)
    ensures r.Ok? ==> KeysOf(Seeds(assigns)) <= KeysOf(recorded) && KeyClosed(assigns, recorded)
    ensures r.Ok? && PlainAssigns(assigns) ==> Covers(assigns, recorded)
    ensures r.Ok? ==> LeafRules(r.value, recorded)
    ensures r.Err? ==> forall C :: Covers(assigns, C) ==> budget <= |C|
  {
    var sources, targets := IndexAssignments(assigns);
    var context := new FactorizationContext(assigns, sources, targets, budget);
    context.SeedAssignments(assigns);
    recorded := Recorded(context.order);
    if !context.complete {
      Exhausted(assigns, context.order);
      return Err("factorization budget exhausted"), recorded;
    }
    ghost var order := context.order;
    ClosureAtEnd(assigns, order);
    var result := KeepLeafs(context.rules);
    GroupLeafRules(order, result);
    r := Ok(result);
  }

  lemma SeedKeys(assigns: seq<AssignSelector>, keys: set<FactorizationEntry>)
    requires KeysOf(Seeds(assigns)) <= keys
    ensures forall e :: e in Seeds(assigns) ==> EntryKey(e) in keys
  {
    forall e | e in Seeds(assigns) ensures EntryKey(e) in keys {
      assert EntryKey(e) in KeysOf(Seeds(assigns));
    }
  }

  /** The seeds of a prefix of the assignments grow one assignment at a
      time. */
  lemma SeedsSnoc(assigns: seq<AssignSelector>, i: nat)
    requires i < |assigns|
    ensures KeysOf(Seeds(assigns[..i + 1])) == KeysOf(Seeds(assigns[..i])) + KeysOf(SeedsOf(assigns[i]))
  {
    assert assigns[..i + 1] == assigns[..i] + [assigns[i]];
    assert Seeds(assigns[..i + 1]) == Seeds(assigns[..i]) + SeedsOf(assigns[i]);
  }

  /** Some element of a non-empty set, as one step of a map iteration. */
  method Pick(s: set<VarId>) returns (v: VarId)
    requires s != {}
    ensures v in s
  {
    assert (forall x :: x !in s) ==> s == {};
    v :| v in s;
  }

  /** Lines 52-61: every variable's paths replaced by its leaf paths. The
      variables are taken in no particular order, as Go's map iteration
      does. */
  method KeepLeafs(rules: FactorizationRules) returns (result: FactorizationRules)
    ensures result.Keys == rules.Keys
    ensures forall v :: v in rules ==> LeafList(rules[v], result[v])
  {
    result := rules;
    var todo := rules.Keys;
    while todo != {}
      invariant todo <= rules.Keys && result.Keys == rules.Keys
      invariant forall v :: v in todo ==> result[v] == rules[v]
      invariant forall v :: v in rules && v !in todo ==> LeafList(rules[v], result[v])
      decreases |todo|
    {
      var v := Pick(todo);
      var leafs := LeafPaths(result[v]);
      result := result[v := leafs];
      todo := todo - {v};
    }
  }

  /** What the walk establishes once every seed is visited and nothing is
      left on the stack. */
  lemma ClosureAtEnd(assigns: seq<AssignSelector>, order: seq<Entry>)
    requires Wellformed(assigns, order)
    requires Progress(assigns, Keys(order), order, {})
    requires forall e :: e in Seeds(assigns) ==> EntryKey(e) in Keys(order)
    ensures Least(assigns, Recorded(order))
    ensures KeysOf(Seeds(assigns)) <= KeysOf(Recorded(order)) && KeyClosed(assigns, Recorded(order))
    ensures PlainAssigns(assigns) ==> Covers(assigns, Recorded(order))
  {
    var R := Recorded(order);
    KeysRecorded(order);
    forall C | Covers(assigns, C) ensures R <= C {
      WellformedWithin(assigns, order, C);
    }
    forall e | e in R ensures Done(assigns, KeysOf(R), e) {
      var i :| 0 <= i < |order| && order[i] == e;
    }
    if PlainAssigns(assigns) {
      forall e | e in Seeds(assigns) ensures e in R {
        var f := PlainMatch(assigns, order, e);
        PlainSeed(assigns, e);
        EntryKeyInjective(e, f);
      }
      forall e, a | e in R && a in assigns
        ensures FlowsBack(a, e) ==> Backward(a, e.1) in R
        ensures FlowsForward(a, e) ==> Forward(a, e.1) in R
      {
        WellformedEntries(assigns, order, e);
        PlainFields(assigns, e.1);
        if FlowsBack(a, e) {
          var b := Backward(a, e.1);
          var f := PlainMatch(assigns, order, b);
          PlainStep(a, e.1, a.fromSelector.selector, |a.toSelector.selector|);
          EntryKeyInjective(b, f);
        }
        if FlowsForward(a, e) {
          var b := Forward(a, e.1);
          var f := PlainMatch(assigns, order, b);
          PlainStep(a, e.1, a.toSelector.selector, |a.fromSelector.selector|);
          EntryKeyInjective(b, f);
        }
      }
    }
  }

  /** The recorded entry sharing a key, with plain fields. */
  lemma PlainMatch(assigns: seq<AssignSelector>, order: seq<Entry>, e: Entry) returns (f: Entry)
    requires Wellformed(assigns, order) && PlainAssigns(assigns)
    requires EntryKey(e) in KeysOf(Recorded(order))
    ensures f in Recorded(order) && EntryKey(f) == EntryKey(e) && PlainParts(f.1, ',')
  {
    f :| f in Recorded(order) && EntryKey(f) == EntryKey(e);
    WellformedEntries(assigns, order, f);
    PlainFields(assigns, f.1);
  }

  lemma PlainFields(assigns: seq<AssignSelector>, p: Path)
    requires PlainAssigns(assigns) && FieldsFrom(assigns, p)
    ensures PlainParts(p, ',')
  {
    forall k | 0 <= k < |p| ensures p[k] != "" && ',' !in p[k] {
      assert exists a :: a in assigns && (p[k] in a.fromSelector.selector || p[k] in a.toSelector.selector);
      var a :| a in assigns && (p[k] in a.fromSelector.selector || p[k] in a.toSelector.selector);
      assert PlainParts(a.fromSelector.selector, ',') && PlainParts(a.toSelector.selector, ',');
    }
  }

  lemma PlainSeed(assigns: seq<AssignSelector>, e: Entry)
    requires PlainAssigns(assigns) && e in Seeds(assigns)
    ensures PlainParts(e.1, ',')
  {
    var a :| a in assigns && e in SeedsOf(a);
  }

  lemma PlainStep(a: AssignSelector, p: Path, sel: Path, k: nat)
    requires PlainParts(sel, ',') && PlainParts(p, ',') && k <= |p|
    ensures PlainParts(sel + p[k..], ',')
  {
    var q := sel + p[k..];
    forall i | 0 <= i < |q| ensures q[i] != "" && ',' !in q[i] {
      if i >= |sel| {
        assert q[i] == p[k + i - |sel|];
      }
    }
  }
}
