/**
  Search-tree nodes, the move sequences they stand for, and
  `reconstruct_path`.
*/
module Paths {
  import opened Wrappers
  import opened Puzzle
  import opened Moves
  import opened Heuristics
  import opened Solvability

  /**
    The `Node` of `eight_puzzle_project1.py`: a board, the node it was expanded from (`None` at the
    root), the move that produced it, its depth g(n) and its priority f(n).
  */
  datatype Node = Node(state: Grid, parent: Option<Node>, action: Option<Action>, depth: nat, cost: int)

  /** The board in effect before step `k` of `path` taken from `start`. */
  function Before(start: Grid, path: seq<Step>, k: nat): Grid
    requires k <= |path|
  {
    if k == 0 then start else path[k - 1].state
  }

  /** The board a path ends on. */
  function EndOf(start: Grid, path: seq<Step>): Grid {
    Before(start, path, |path|)
  }

  /** Each step's board is what its move makes of the board before it. */
  predicate ValidPath(start: Grid, path: seq<Step>) {
    forall k {:trigger Before(start, path, k)} :: 0 <= k < |path| ==> Apply(Before(start, path, k), path[k].action) == Some(path[k].state)
  }

  /** Every node strictly below the root carries the move that produced it. */
  predicate Labelled(n: Node)
    decreases n
  {
    n.parent.None? || (n.action.Some? && Labelled(n.parent.value))
  }

  /** The (move, board) pairs from the root down to `n`. */
  function PathTo(n: Node): seq<Step>
    requires Labelled(n)
    decreases n
  {
    match n.parent
    case None => []
    case Some(p) => PathTo(p) + [Step(n.action.value, n.state)]
  }

  /**
    `reconstruct_path`: follow parent links up to the root collecting
    (action, state) pairs. `eight_puzzle_project1.py` appends and then reverses the list;
    putting each pair in front gives the same sequence.
  */
  method ReconstructPath(node: Node) returns (path: seq<Step>)
    requires Labelled(node)
    ensures path == PathTo(node)
  {
    path := [];
    var current := node;
    while current.parent.Some?
      invariant Labelled(current)
      invariant PathTo(current) + path == PathTo(node)
      decreases current
    {
      path := [Step(current.action.value, current.state)] + path;
      current := current.parent.value;
    }
  }

  /**
    How a node of the search arises: the root holds the initial board at depth
    0; every other node is one move below its parent and one level deeper.
  */
  predicate Derived(n: Node, initial: Grid)
    decreases n
  {
    match n.parent
    case None =>
      n.action.None? && n.state == initial && n.depth == 0
    case Some(p) =>
      && n.action.Some?
      && Derived(p, initial)
      && Apply(p.state, n.action.value) == Some(n.state)
      && n.depth == p.depth + 1
  }

  /** Every board below an initial board with a blank has a blank and holds only values of the initial board. */
  lemma {:induction false} DerivedCells(n: Node, initial: Grid)
    requires Derived(n, initial) && 0 in initial
    ensures 0 in n.state
    ensures forall x :: x in n.state ==> x in initial
    decreases n
  {
    match n.parent
    case None =>
    case Some(p) =>
      DerivedCells(p, initial);
      ApplyKeepsCells(p.state, n.action.value);
  }

  /** Extending a valid path by one legal move keeps it valid. */
  lemma ValidPathSnoc(start: Grid, path: seq<Step>, st: Step)
    requires ValidPath(start, path)
    requires Apply(EndOf(start, path), st.action) == Some(st.state)
    ensures ValidPath(start, path + [st])
    ensures EndOf(start, path + [st]) == st.state
  {
    var path' := path + [st];
    forall k | 0 <= k < |path'|
      ensures Apply(Before(start, path', k), path'[k].action) == Some(path'[k].state)
    {
      if k < |path| {
        assert path'[k] == path[k];
        assert Before(start, path', k) == Before(start, path, k);
      } else {
        assert Before(start, path', k) == EndOf(start, path);
      }
    }
  }

  /**
    The path rebuilt from a node of the search is a valid move sequence from
    the initial board to the node's board, one step per level of depth.
  */
  lemma {:induction false} DerivedPath(n: Node, initial: Grid)
    requires Derived(n, initial)
    ensures Labelled(n)
    ensures ValidPath(initial, PathTo(n))
    ensures EndOf(initial, PathTo(n)) == n.state
    ensures |PathTo(n)| == n.depth
  {
    match n.parent
    case None =>
    case Some(p) =>
      DerivedPath(p, initial);
      ValidPathSnoc(initial, PathTo(p), Step(n.action.value, n.state));
  }

  /** A set of boards closed under moves holds every board reachable from its members. */
  lemma {:induction false} ClosedHoldsPrefix(visited: set<Grid>, start: Grid, path: seq<Step>, k: nat)
    requires start in visited
    requires forall s, a :: s in visited && Apply(s, a).Some? ==> Apply(s, a).value in visited
    requires ValidPath(start, path) && k <= |path|
    ensures Before(start, path, k) in visited
  {
    if k > 0 {
      var j := k - 1;
      ClosedHoldsPrefix(visited, start, path, j);
      assert Apply(Before(start, path, j), path[j].action) == Some(path[j].state);
      assert Before(start, path, k) == path[j].state;
    }
  }

  lemma ClosedHoldsEnd(visited: set<Grid>, start: Grid, path: seq<Step>)
    requires start in visited
    requires forall s, a :: s in visited && Apply(s, a).Some? ==> Apply(s, a).value in visited
    requires ValidPath(start, path)
    ensures EndOf(start, path) in visited
  {
    ClosedHoldsPrefix(visited, start, path, |path|);
  }

  /** Along a valid path every board stays legal and keeps its solvability. */
  lemma {:induction false} PathKeepsSolvable(start: Grid, path: seq<Step>, k: nat)
    requires IsPermutation(start) && ValidPath(start, path) && k <= |path|
    ensures IsPermutation(Before(start, path, k))
    ensures Solvable(Before(start, path, k)) == Solvable(start)
  {
    if k > 0 {
      var j := k - 1;
      PathKeepsSolvable(start, path, j);
      StepKeepsSolvable(start, path, j);
      assert Before(start, path, j + 1) == Before(start, path, k);
    }
  }

  /** One step of a valid path keeps the board legal and its solvability unchanged. */
  lemma StepKeepsSolvable(start: Grid, path: seq<Step>, k: nat)
    requires ValidPath(start, path) && k < |path|
    requires IsPermutation(Before(start, path, k))
    ensures IsPermutation(Before(start, path, k + 1))
    ensures Solvable(Before(start, path, k + 1)) == Solvable(Before(start, path, k))
  {
    var prev, st := Before(start, path, k), path[k];
    assert Apply(prev, st.action) == Some(st.state);
    ApplyPreservesPermutation(prev, st.action);
    MovePreservesSolvable(prev, st.action);
  }

  /**
    The soundness of the solvability gate: with the default goal, no move
    sequence leads from a board that fails the gate to the goal.
  */
  lemma UnsolvableNeverReachesGoal(start: Grid, path: seq<Step>)
    requires IsPermutation(start) && !Solvable(start)
    requires ValidPath(start, path)
    ensures EndOf(start, path) != DefaultGoal
  {
    PathKeepsSolvable(start, path, |path|);
    DefaultGoalSolvable();
  }
}
