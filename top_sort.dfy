/** TopologyOrder (top_sort.go): a depth-first walk from a root that records
    each vertex once it has finished with all its successors, reversed at
    the end. The successor function becomes a finite adjacency map; a vertex
    missing from the map has no successors. */
module TopSort {

  type Graph<T> = map<T, seq<T>>

  /** next(v) */
  function Next<T>(g: Graph<T>, v: T): seq<T>
  {
    if v in g then g[v] else []
  }

  predicate Edge<T(==)>(g: Graph<T>, a: T, b: T)
  {
    b in Next(g, a)
  }

  /** Consecutive vertices of `p` are joined by edges. */
  ghost predicate IsPath<T(!new)>(g: Graph<T>, p: seq<T>)
  {
    forall i :: 0 <= i < |p| - 1 ==> Edge(g, p[i], p[i + 1])
  }

  ghost predicate Reachable<T(!new)>(g: Graph<T>, root: T, v: T)
  {
    exists p :: |p| > 0 && p[0] == root && p[|p| - 1] == v && IsPath(g, p)
  }

  /** No path of at least one edge returns to where it started. */
  ghost predicate Acyclic<T(!new)>(g: Graph<T>)
  {
    forall p :: |p| >= 2 && IsPath(g, p) ==> p[0] != p[|p| - 1]
  }

  /** The root, the map's keys and every successor: a finite set closed
      under Next. */
  function Vertices<T(==)>(g: Graph<T>, root: T): set<T>
  {
    {root} + g.Keys + set v, u | v in g && u in g[v] :: u
  }

  lemma VerticesClosed<T(!new)>(g: Graph<T>, root: T, v: T, u: T)
    requires Edge(g, v, u)
    ensures u in Vertices(g, root)
  {
  }

  lemma ReachableStep<T(!new)>(g: Graph<T>, root: T, v: T, u: T)
    requires Reachable(g, root, v) && Edge(g, v, u)
    ensures Reachable(g, root, u)
  {
    var p :| |p| > 0 && p[0] == root && p[|p| - 1] == v && IsPath(g, p);
    var q := p + [u];
    assert q[0] == root && q[|q| - 1] == u;
    assert IsPath(g, q);
  }

  lemma ReachableRoot<T(!new)>(g: Graph<T>, root: T)
    ensures Reachable(g, root, root)
  {
    assert [root][0] == root && IsPath(g, [root]);
  }

  /** A vertex on the walk's stack with an edge back from the top of the
      stack closes a cycle. */
  lemma StackCycle<T(!new)>(g: Graph<T>, stack: seq<T>, k: nat, u: T)
    requires IsPath(g, stack) && k < |stack| && stack[k] == u
    requires Edge(g, stack[|stack| - 1], u)
    ensures !Acyclic(g)
  {
    var p := stack[k..] + [u];
    assert |p| >= 2 && p[0] == u && p[|p| - 1] == u;
    forall i | 0 <= i < |p| - 1 ensures Edge(g, p[i], p[i + 1]) {
      if i < |p| - 2 {
        assert p[i] == stack[k + i] && p[i + 1] == stack[k + i + 1];
      }
    }
  }

  /** The walk's invariant, on values: visited vertices are the finished
      ones (`order`) and the open ones (`stack`), all reachable; nothing is
      recorded twice; the open vertices form a path; a finished vertex's
      successors are all visited, and finished before it unless the graph
      has a cycle. */
  ghost predicate Walked<T(!new)>(g: Graph<T>, root: T, visited: set<T>, order: seq<T>, stack: seq<T>)
  {
    visited <= Vertices(g, root)
    && (forall w :: w in visited <==> w in order || w in stack)
    && (forall w :: w in visited ==> Reachable(g, root, w))
    && (forall i, j :: 0 <= i < j < |order| ==> order[i] != order[j])
    && (forall w :: w in order ==> w !in stack)
    && IsPath(g, stack)
    && (forall i, u :: 0 <= i < |order| && Edge(g, order[i], u) ==> u in visited)
    && (forall i, u :: 0 <= i < |order| && Edge(g, order[i], u) ==> u in order[..i] || !Acyclic(g))
  }

  /** Entering an unvisited reachable vertex pushes it on the stack. */
  lemma Enter<T(!new)>(g: Graph<T>, root: T, visited: set<T>, order: seq<T>, stack: seq<T>, v: T)
    requires Walked(g, root, visited, order, stack)
    requires v !in visited && v in Vertices(g, root) && Reachable(g, root, v)
    requires |stack| > 0 ==> Edge(g, stack[|stack| - 1], v)
    ensures Walked(g, root, visited + {v}, order, stack + [v])
  {
    var s := stack + [v];
    forall i | 0 <= i < |s| - 1 ensures Edge(g, s[i], s[i + 1]) {
      if i < |s| - 2 {
        assert s[i] == stack[i] && s[i + 1] == stack[i + 1];
      }
    }
  }

  /** Leaving the vertex on top of the stack, once all its successors are
      visited, appends it to the post-order. */
  lemma Leave<T(!new)>(g: Graph<T>, root: T, visited: set<T>, order: seq<T>, stack: seq<T>, v: T)
    requires Walked(g, root, visited, order, stack)
    requires |stack| > 0 && stack[|stack| - 1] == v && v !in stack[..|stack| - 1]
    requires forall u :: Edge(g, v, u) ==> u in visited
    ensures Walked(g, root, visited, order + [v], stack[..|stack| - 1])
  {
    var top := stack[..|stack| - 1];
    var o := order + [v];
    assert stack == top + [v];
    forall u | Edge(g, v, u) ensures u in order || !Acyclic(g) {
      if u in stack {
        var k :| 0 <= k < |stack| && stack[k] == u;
        StackCycle(g, stack, k, u);
      }
    }
    forall i, u | 0 <= i < |o| && Edge(g, o[i], u) ensures u in o[..i] || !Acyclic(g) {
      if i < |order| {
        assert o[..i] == order[..i];
      } else {
        assert o[..i] == order;
      }
    }
    forall i | 0 <= i < |top| - 1 ensures Edge(g, top[i], top[i + 1]) {
      assert top[i] == stack[i] && top[i + 1] == stack[i + 1];
    }
    assert forall w :: w in visited <==> w in o || w in top;
    assert forall i, j :: 0 <= i < j < |o| ==> o[i] != o[j];
    assert forall w :: w in o ==> w !in top;
    assert forall i, u :: 0 <= i < |o| && Edge(g, o[i], u) ==> u in visited;
  }

  /** The state topologyOrder threads through its recursion: the visited
      set and the post-order list, plus the ghost stack of vertices whose
      walk is still open. */
  class TopologyWalk<T(==,!new)> {
    const graph: Graph<T>
    const root: T
    var visited: set<T>
    var order: seq<T>
    ghost var stack: seq<T>

    ghost predicate Valid()
      reads this
    {
      Walked(graph, root, visited, order, stack)
    }

    constructor (graph: Graph<T>, root: T)
      ensures Valid() && this.graph == graph && this.root == root
      ensures visited == {} && order == [] && stack == []
    {
      this.graph := graph;
      this.root := root;
      visited := {};
      order := [];
      stack := [];
    }

    /** topologyOrder(v): nothing for a visited vertex; otherwise mark it,
        walk its successors in order, then append it. */
    method Visit(v: T)
      requires Valid() && Reachable(graph, root, v)
      requires |stack| > 0 ==> Edge(graph, stack[|stack| - 1], v)
      modifies this
      ensures Valid()
      ensures stack == old(stack) && old(visited) <= visited && v in visited
      ensures old(order) <= order
      ensures v !in old(visited) ==> |order| > 0 && order[|order| - 1] == v
      decreases Vertices(graph, root) - visited
    {
      if v in visited {
        return;
      }
      VerticesOf(graph, root, v);
      Enter(graph, root, visited, order, stack, v);
      visited := visited + {v};
      stack := stack + [v];
      ghost var entered := visited;
      var successors := Next(graph, v);
      var k := 0;
      while k < |successors|
        invariant 0 <= k <= |successors|
        invariant Valid() && stack == old(stack) + [v]
        invariant entered <= visited && old(order) <= order
        invariant forall j :: 0 <= j < k ==> successors[j] in visited
      {
        var u := successors[k];
        ReachableStep(graph, root, v, u);
        ghost var before := visited;
        Visit(u);
        SubsetGrows(successors, k, before, visited);
        k := k + 1;
      }
      assert stack[..|stack| - 1] == old(stack);
      Finish(v);
    }

    /** Closing v: every successor is visited, so v moves from the stack to
        the end of the post-order. */
    method Finish(v: T)
      requires Valid() && |stack| > 0 && stack[|stack| - 1] == v
      requires forall u :: Edge(graph, v, u) ==> u in visited
      requires v !in stack[..|stack| - 1]
      modifies this
      ensures Valid()
      ensures stack == old(stack[..|stack| - 1]) && visited == old(visited)
      ensures order == old(order) + [v]
    {
      Leave(graph, root, visited, order, stack, v);
      order := order + [v];
      stack := stack[..|stack| - 1];
    }
  }

  lemma SubsetGrows<T>(s: seq<T>, k: nat, before: set<T>, after: set<T>)
    requires k < |s| && before <= after && s[k] in after
    requires forall j :: 0 <= j < k ==> s[j] in before
    ensures forall j :: 0 <= j < k + 1 ==> s[j] in after
  {
  }

  lemma VerticesOf<T(!new)>(g: Graph<T>, root: T, v: T)
    requires Reachable(g, root, v)
    ensures v in Vertices(g, root)
  {
    var p :| |p| > 0 && p[0] == root && p[|p| - 1] == v && IsPath(g, p);
    if |p| > 1 {
      VerticesClosed(g, root, p[|p| - 2], v);
    }
  }

  /** slices.Reverse */
  function Reversed<T>(s: seq<T>): (r: seq<T>)
    ensures |r| == |s| && forall i :: 0 <= i < |s| ==> r[i] == s[|s| - 1 - i]
  {
    seq(|s|, i requires 0 <= i < |s| => s[|s| - 1 - i])
  }

  /** TopologyOrder: the root first, every reachable vertex exactly once
      and nothing else, and in an acyclic graph every vertex before each of
      its successors. */
  method TopologyOrder<T(==,!new)>(root: T, graph: Graph<T>) returns (order: seq<T>)
    ensures |order| > 0 && order[0] == root
    ensures forall v :: v in order <==> Reachable(graph, root, v)
    ensures forall i, j :: 0 <= i < j < |order| ==> order[i] != order[j]
    ensures Acyclic(graph) ==> forall i, j :: 0 <= i < |order| && 0 <= j < |order| && Edge(graph, order[i], order[j]) ==> i < j
  {
    var walk := new TopologyWalk(graph, root);
    ReachableRoot(graph, root);
    walk.Visit(root);
    order := Reversed(walk.order);
    ReversedPostOrder(graph, root, walk.order, order);
  }

  /** Every vertex on a path from the root lies in a set that holds the
      root and the successors of its members. */
  lemma {:induction false} ClosedHoldsPath<T(!new)>(g: Graph<T>, post: seq<T>, p: seq<T>, i: nat)
    requires |p| > 0 && p[0] in post && IsPath(g, p) && i < |p|
    requires forall k, u :: 0 <= k < |post| && Edge(g, post[k], u) ==> u in post
    ensures p[i] in post
  {
    if i > 0 {
      ClosedHoldsPath(g, post, p, i - 1);
      assert Edge(g, p[i - 1], p[i]);
    }
  }

  /** What the finished walk gives once its post-order is reversed. */
  lemma ReversedPostOrder<T(!new)>(g: Graph<T>, root: T, post: seq<T>, r: seq<T>)
    requires |post| > 0 && post[|post| - 1] == root && r == Reversed(post)
    requires forall w :: w in post ==> Reachable(g, root, w)
    requires forall i, j :: 0 <= i < j < |post| ==> post[i] != post[j]
    requires forall i, u :: 0 <= i < |post| && Edge(g, post[i], u) ==> u in post
    requires forall i, u :: 0 <= i < |post| && Edge(g, post[i], u) ==> u in post[..i] || !Acyclic(g)
    ensures |r| > 0 && r[0] == root
    ensures forall v :: v in r <==> Reachable(g, root, v)
    ensures forall i, j :: 0 <= i < j < |r| ==> r[i] != r[j]
    ensures Acyclic(g) ==> forall i, j :: 0 <= i < |r| && 0 <= j < |r| && Edge(g, r[i], r[j]) ==> i < j
  {
    var n := |post|;
    forall v ensures v in r <==> v in post {
      if v in post {
        var k :| 0 <= k < n && post[k] == v;
        assert r[n - 1 - k] == v;
      }
    }
    forall v | Reachable(g, root, v) ensures v in post {
      var p :| |p| > 0 && p[0] == root && p[|p| - 1] == v && IsPath(g, p);
      ClosedHoldsPath(g, post, p, |p| - 1);
    }
    forall i, j | 0 <= i < j < n ensures r[i] != r[j] {
      assert r[i] == post[n - 1 - i] && r[j] == post[n - 1 - j];
    }
    if Acyclic(g) {
      ReversedEdgesForward(g, post, r);
    }
  }

  /** A post-order of distinct vertices in which every successor comes
      earlier, reversed: every edge goes forward. */
  lemma ReversedEdgesForward<T(!new)>(g: Graph<T>, post: seq<T>, r: seq<T>)
    requires r == Reversed(post)
    requires forall i, j :: 0 <= i < j < |post| ==> post[i] != post[j]
    requires forall i, u :: 0 <= i < |post| && Edge(g, post[i], u) ==> u in post[..i]
    ensures forall i, j :: 0 <= i < |r| && 0 <= j < |r| && Edge(g, r[i], r[j]) ==> i < j
  {
    var n := |post|;
    forall i, j | 0 <= i < n && 0 <= j < n && Edge(g, r[i], r[j]) ensures i < j {
      var a, b := n - 1 - i, n - 1 - j;
      assert Edge(g, post[a], post[b]);
      assert post[b] in post[..a];
      var m :| 0 <= m < a && post[..a][m] == post[b];
      assert post[m] == post[b];
    }
  }
}
