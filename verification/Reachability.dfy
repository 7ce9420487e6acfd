/** Reachability along the edges of a finite graph, shared by the two packaging closures. */
module Reachability {
  /** A path from a start to its last element. */
  ghost predicate Path<T(!new)>(start: T -> bool, edge: (T, T) -> bool, path: seq<T>) {
    && |path| > 0 && start(path[0])
    && forall i | 0 < i < |path| :: edge(path[i - 1], path[i])
  }

  ghost predicate Reached<T(!new)>(start: T -> bool, edge: (T, T) -> bool, x: T) {
    exists path :: Path(start, edge, path) && path[|path| - 1] == x
  }

  lemma StartReached<T(!new)>(start: T -> bool, edge: (T, T) -> bool, x: T)
    requires start(x)
    ensures Reached(start, edge, x)
  {
    assert Path(start, edge, [x]);
  }

  lemma OneFurther<T(!new)>(start: T -> bool, edge: (T, T) -> bool, x: T, y: T)
    requires Reached(start, edge, x) && edge(x, y)
    ensures Reached(start, edge, y)
  {
    var path :| Path(start, edge, path) && path[|path| - 1] == x;
    assert Path(start, edge, path + [y]);
  }

  /** A set that holds the starts and is closed under the edges holds everything reached. */
  lemma {:induction false} ClosedHoldsPath<T(!new)>(start: T -> bool, edge: (T, T) -> bool, all: set<T>, path: seq<T>)
    requires forall x :: start(x) ==> x in all
    requires forall x, y :: x in all && edge(x, y) ==> y in all
    requires Path(start, edge, path)
    ensures path[|path| - 1] in all
    decreases |path|
  {
    if |path| > 1 {
      var front := path[..|path| - 1];
      ClosedHoldsPath(start, edge, all, front);
      assert edge(path[|path| - 2], path[|path| - 1]);
    }
  }

  /** Such a set with nothing else in it is exactly what is reached. */
  lemma LeastClosed<T(!new)>(start: T -> bool, edge: (T, T) -> bool, all: set<T>)
    requires forall x :: start(x) ==> x in all
    requires forall x, y :: x in all && edge(x, y) ==> y in all
    requires forall x | x in all :: Reached(start, edge, x)
    ensures forall x :: x in all <==> Reached(start, edge, x)
  {
    forall x | Reached(start, edge, x) ensures x in all {
      var path :| Path(start, edge, path) && path[|path| - 1] == x;
      ClosedHoldsPath(start, edge, all, path);
    }
  }
}
