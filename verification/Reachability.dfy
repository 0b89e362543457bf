/** Reachability in a graph given by its successor function. */
module Reachability {

  ghost predicate Path<T(!new)>(edges: T -> set<T>, start: T, path: seq<T>) {
    && |path| > 0 && path[0] == start
    && forall i :: 0 <= i < |path| - 1 ==> path[i + 1] in edges(path[i])
  }

  ghost predicate Reachable<T(!new)>(edges: T -> set<T>, start: T, node: T) {
    exists path :: Path(edges, start, path) && path[|path| - 1] == node
  }

  lemma StartIsReachable<T(!new)>(edges: T -> set<T>, start: T)
    ensures Reachable(edges, start, start)
  {
    assert Path(edges, start, [start]);
  }

  lemma ReachableStep<T(!new)>(edges: T -> set<T>, start: T, m: T, n: T)
    requires Reachable(edges, start, m) && n in edges(m)
    ensures Reachable(edges, start, n)
  {
    var path :| Path(edges, start, path) && path[|path| - 1] == m;
    assert Path(edges, start, path + [n]);
  }

  // A node other than the start is reachable exactly from a reachable one.
  lemma ReachableExactly<T(!new)>(edges: T -> set<T>, start: T, node: T)
    ensures Reachable(edges, start, node) <==>
            node == start || exists m :: Reachable(edges, start, m) && node in edges(m)
  {
    StartIsReachable(edges, start);
    if m :| Reachable(edges, start, m) && node in edges(m) { ReachableStep(edges, start, m, node); }
    if Reachable(edges, start, node) {
      var path :| Path(edges, start, path) && path[|path| - 1] == node;
      if |path| > 1 {
        var n := |path| - 1;
        assert Path(edges, start, path[..n]);
        assert path[n - 1 + 1] in edges(path[n - 1]) && Reachable(edges, start, path[n - 1]);
      }
    }
  }

  lemma {:induction false} ClosedHoldsPath<T(!new)>(edges: T -> set<T>, start: T, nodes: set<T>, path: seq<T>)
    requires Path(edges, start, path) && start in nodes
    requires forall m :: m in nodes ==> edges(m) <= nodes
    ensures path[|path| - 1] in nodes
    decreases |path|
  {
    if |path| > 1 {
      var n := |path| - 1;
      ClosedHoldsPath(edges, start, nodes, path[..n]);
      assert path[n - 1 + 1] in edges(path[n - 1]);
    }
  }

  // A set that holds the start and is closed under edges holds everything reachable.
  lemma ClosedHoldsReachable<T(!new)>(edges: T -> set<T>, start: T, nodes: set<T>)
    requires start in nodes
    requires forall m :: m in nodes ==> edges(m) <= nodes
    ensures forall m :: Reachable(edges, start, m) ==> m in nodes
  {
    forall m | Reachable(edges, start, m) ensures m in nodes {
      var path :| Path(edges, start, path) && path[|path| - 1] == m;
      ClosedHoldsPath(edges, start, nodes, path);
    }
  }

  // --- worklists ----------------------------------------------------------------------------

  // Everything visited or pending is reachable, and nothing a visited node leads to is lost.
  ghost predicate Frontier<T(!new)>(edges: T -> set<T>, start: T, visited: set<T>, pending: seq<T>) {
    && (start in visited || start in pending)
    && (forall m :: m in pending ==> Reachable(edges, start, m))
    && (forall m, n :: m in visited && n in edges(m) ==> n in visited || n in pending)
  }

  lemma FrontierDone<T(!new)>(edges: T -> set<T>, start: T, visited: set<T>)
    requires Frontier(edges, start, visited, [])
    ensures forall m :: Reachable(edges, start, m) ==> m in visited
  {
    ClosedHoldsReachable(edges, start, visited);
  }

  // Popping a node that was visited before.
  lemma FrontierSkip<T(!new)>(edges: T -> set<T>, start: T, visited: set<T>, pending: seq<T>)
    requires |pending| > 0 && pending[|pending| - 1] in visited && Frontier(edges, start, visited, pending)
    ensures Frontier(edges, start, visited, pending[..|pending| - 1])
  {
    var rest := pending[..|pending| - 1];
    assert forall m :: m in pending ==> m in rest || m == pending[|pending| - 1];
  }

  // Popping and visiting a node: what it leads to is pushed, unless already visited.
  lemma FrontierVisit<T(!new)>(edges: T -> set<T>, start: T, visited: set<T>, pending: seq<T>, pending': seq<T>)
    requires |pending| > 0 && Frontier(edges, start, visited, pending)
    requires var m := pending[|pending| - 1];
             && (forall n :: n in pending' ==> n in pending[..|pending| - 1] || n in edges(m))
             && (forall n :: n in pending[..|pending| - 1] ==> n in pending')
             && (forall n :: n in edges(m) ==> n in visited || n == m || n in pending')
    ensures Frontier(edges, start, visited + {pending[|pending| - 1]}, pending')
  {
    var m := pending[|pending| - 1];
    var rest := pending[..|pending| - 1];
    assert forall n :: n in pending ==> n in rest || n == m;
    forall n | n in pending' ensures Reachable(edges, start, n) {
      if n in edges(m) { ReachableStep(edges, start, m, n); }
    }
  }
}
