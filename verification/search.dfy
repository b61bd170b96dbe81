/**
  The best-first search `general_search`: a frontier ordered by f(n), lazy
  skipping of boards already visited, expansion counting, the peak frontier
  size, and the path back from the goal.

  The frontier of `eight_puzzle_project1.py` is a binary heap whose order among equal priorities is
  an artefact of the heap layout; here it is a sequence from which any node of
  minimum priority may be taken. The visited set is a set of boards.
*/
module Search {
  import opened Wrappers
  import opened Puzzle
  import opened Moves
  import opened Heuristics
  import opened Solvability
  import opened Paths

  /** The `Problem` of `eight_puzzle_project1.py`: a start board and the goal it must reach. */
  datatype Problem = Problem(initial: Grid, goal: Grid) {
    /** `Problem.is_goal`: the board equals the goal, as the comparison of the nested row lists does. */
    predicate IsGoal(s: Grid) {
      s == goal
    }
  }

  /**
    The goal test agrees with the misplaced-tile count: on the goal no tile is
    misplaced, and on a board without repeated values, when the goal has a
    blank, a count of zero means the board is the goal.
  */
  lemma GoalTest(problem: Problem, s: Grid)
    ensures problem.IsGoal(s) ==> MisplacedTiles(problem.goal, s) == 0
    ensures Distinct(s) && 0 in problem.goal && MisplacedTiles(problem.goal, s) == 0 ==> problem.IsGoal(s)
  {
    CountZero(problem.goal, s, 9);
    if Distinct(s) && 0 in problem.goal {
      MisplacedZeroIffGoal(problem.goal, s);
    }
  }

  /** `Problem.__init__`: without a goal the problem uses 1..8 row by row, blank last. */
  function NewProblem(initial: Grid, goal: Option<Grid>): Problem {
    Problem(initial, if goal.Some? then goal.value else DefaultGoal)
  }

  /**
    The default goal is a legal board with its blank in the bottom-right cell,
    and it passes the solvability gate. So on a problem built without a goal,
    a legal initial board the gate rejects can never reach it
    (`UnsolvableNeverReachesGoal`).
  */
  lemma DefaultProblem(initial: Grid)
    ensures var p := NewProblem(initial, None);
      IsPermutation(p.goal) && Solvable(p.goal) && FindBlank(p.goal) == Some(Pos(2, 2))
  {
    DefaultGoalLegal();
    DefaultGoalSolvable();
  }

  /** What `general_search` returns: the path, or `None` when the frontier ran dry, and two counters. */
  datatype SearchResult = SearchResult(solution: Option<seq<Step>>, nodesExpanded: nat, maxQueueSize: nat)

  /** The root node: the initial board at depth 0 with priority h(initial). */
  function Root(problem: Problem, h: Selector): (n: Node)
    requires h != Euclidean
    ensures Derived(n, problem.initial)
    ensures n.depth == 0 && n.parent.None?
    ensures h == Uniform ==> n.cost == 0
  {
    Node(problem.initial, None, None, 0, Estimate(h, problem.goal, problem.initial))
  }

  /** The child that a successor step contributes below `node`. */
  function Child(node: Node, st: Step, h: Selector, goal: Grid): Node
    requires h != Euclidean
  {
    var depth := node.depth + 1;
    Node(st.state, Some(node), Some(st.action), depth, depth + Estimate(h, goal, st.state))
  }

  /** The moves of `steps` come in strictly increasing place of the move table. */
  predicate StepsAscending(steps: seq<Step>) {
    forall k, l :: 0 <= k < l < |steps| ==> Rank(steps[k].action) < Rank(steps[l].action)
  }

  /**
    The nodes of `nodes` carry moves in strictly increasing place of the move
    table, so no move, and hence no child, occurs twice.
  */
  predicate Ascending(nodes: seq<Node>) {
    forall k, l :: 0 <= k < l < |nodes| ==>
      nodes[k].action.Some? && nodes[l].action.Some? && Rank(nodes[k].action.value) < Rank(nodes[l].action.value)
  }

  /**
    The children built from `succs` whose boards are not yet visited, in
    order: a child exactly for each unvisited successor, and, when the
    successors come in table order, each once and in that order.
  */
  function ChildrenOf(node: Node, succs: seq<Step>, visited: set<Grid>, h: Selector, goal: Grid): (children: seq<Node>)
    requires h != Euclidean
    ensures forall c :: c in children ==> exists st :: st in succs && st.state !in visited && c == Child(node, st, h, goal)
    ensures forall st :: st in succs && st.state !in visited ==> Child(node, st, h, goal) in children
    ensures StepsAscending(succs) ==> Ascending(children)
    ensures |children| <= |succs|
  {
    if |succs| == 0 then []
    else
      var rest := ChildrenOf(node, succs[1..], visited, h, goal);
      assert forall st :: st in succs[1..] ==> st in succs;
      TailAscending(succs);
      if succs[0].state in visited then rest
      else
        ChildFirst(node, succs, rest, visited, h, goal);
        [Child(node, succs[0], h, goal)] + rest
  }

  /** Dropping the first successor keeps the table order. */
  lemma TailAscending(succs: seq<Step>)
    requires |succs| > 0
    ensures StepsAscending(succs) ==> StepsAscending(succs[1..])
  {
    if StepsAscending(succs) {
      forall k, l | 0 <= k < l < |succs| - 1
        ensures Rank(succs[1..][k].action) < Rank(succs[1..][l].action)
      {
        assert succs[1..][k] == succs[k + 1] && succs[1..][l] == succs[l + 1];
      }
    }
  }

  /** A child of a later successor carries a move later in the table than the first successor's. */
  lemma LaterRank(node: Node, succs: seq<Step>, c: Node, visited: set<Grid>, h: Selector, goal: Grid)
    requires h != Euclidean && |succs| > 0 && StepsAscending(succs)
    requires exists st :: st in succs[1..] && st.state !in visited && c == Child(node, st, h, goal)
    ensures c.action.Some? && Rank(succs[0].action) < Rank(c.action.value)
  {
    var st :| st in succs[1..] && st.state !in visited && c == Child(node, st, h, goal);
    var j :| 0 <= j < |succs[1..]| && succs[1..][j] == st;
    assert succs[j + 1] == st;
  }

  /** The child of the first successor goes before the children of the later ones. */
  lemma ChildFirst(node: Node, succs: seq<Step>, rest: seq<Node>, visited: set<Grid>, h: Selector, goal: Grid)
    requires h != Euclidean && |succs| > 0
    requires forall c :: c in rest ==> exists st :: st in succs[1..] && st.state !in visited && c == Child(node, st, h, goal)
    requires StepsAscending(succs[1..]) ==> Ascending(rest)
    ensures StepsAscending(succs) ==> Ascending([Child(node, succs[0], h, goal)] + rest)
  {
    if StepsAscending(succs) {
      TailAscending(succs);
      var first := Child(node, succs[0], h, goal);
      var all := [first] + rest;
      forall c | c in rest
        ensures c.action.Some? && Rank(succs[0].action) < Rank(c.action.value)
      {
        LaterRank(node, succs, c, visited, h, goal);
      }
      forall k, l | 0 <= k < l < |all|
        ensures all[k].action.Some? && all[l].action.Some? && Rank(all[k].action.value) < Rank(all[l].action.value)
      {
        assert all[l] == rest[l - 1] && all[l] in rest;
        if k > 0 {
          assert all[k] == rest[k - 1];
        }
      }
    }
  }

  /**
    The expansion step of `general_search`: one child per successor whose
    board is not visited, at depth one below the node and with priority
    depth + h(board) (just the depth for the uniform heuristic). Each child
    appears once, in the order LEFT, RIGHT, UP, DOWN of its move.
  */
  function Expand(node: Node, visited: set<Grid>, h: Selector, goal: Grid): (children: seq<Node>)
    requires h != Euclidean && 0 in node.state
    ensures forall c :: c in children ==>
      && c.parent == Some(node)
      && c.action.Some?
      && Apply(node.state, c.action.value) == Some(c.state)
      && c.state !in visited
      && c.depth == node.depth + 1
      && c.cost == c.depth + Estimate(h, goal, c.state)
    ensures h == Uniform ==> forall c :: c in children ==> c.cost == c.depth
    ensures forall a :: Apply(node.state, a).Some? && Apply(node.state, a).value !in visited ==>
      Child(node, Step(a, Apply(node.state, a).value), h, goal) in children
    ensures Ascending(children)
    ensures |children| <= 4
  {
    var succs := Successors(node.state);
    assert StepsAscending(succs);
    SuccessorCount(node.state);
    var children := ChildrenOf(node, succs, visited, h, goal);
    ChildrenAreMoves(node, succs, visited, h, goal, children);
    MovesAreChildren(node, succs, visited, h, goal, children);
    children
  }

  /** Every child built from the successors is one move below the node, with an unvisited board and its priority. */
  lemma ChildrenAreMoves(node: Node, succs: seq<Step>, visited: set<Grid>, h: Selector, goal: Grid, children: seq<Node>)
    requires h != Euclidean
    requires forall st :: st in succs ==> Apply(node.state, st.action) == Some(st.state)
    requires forall c :: c in children ==> exists st :: st in succs && st.state !in visited && c == Child(node, st, h, goal)
    ensures forall c :: c in children ==>
      && c.parent == Some(node)
      && c.action.Some?
      && Apply(node.state, c.action.value) == Some(c.state)
      && c.state !in visited
      && c.depth == node.depth + 1
      && c.cost == c.depth + Estimate(h, goal, c.state)
  {
    forall c | c in children
      ensures c.parent == Some(node) && c.action.Some? && Apply(node.state, c.action.value) == Some(c.state)
      ensures c.state !in visited && c.depth == node.depth + 1 && c.cost == c.depth + Estimate(h, goal, c.state)
    {
      var st :| st in succs && st.state !in visited && c == Child(node, st, h, goal);
    }
  }

  /** Every move from the node to an unvisited board yields a child. */
  lemma MovesAreChildren(node: Node, succs: seq<Step>, visited: set<Grid>, h: Selector, goal: Grid, children: seq<Node>)
    requires h != Euclidean
    requires forall st :: st in succs <==> Apply(node.state, st.action) == Some(st.state)
    requires forall st :: st in succs && st.state !in visited ==> Child(node, st, h, goal) in children
    ensures forall a :: Apply(node.state, a).Some? && Apply(node.state, a).value !in visited ==>
      Child(node, Step(a, Apply(node.state, a).value), h, goal) in children
  {
    forall a | Apply(node.state, a).Some? && Apply(node.state, a).value !in visited
      ensures Child(node, Step(a, Apply(node.state, a).value), h, goal) in children
    {
      assert Step(a, Apply(node.state, a).value) in succs;
    }
  }

  /** `frontier[i]` has the least priority in the frontier. */
  predicate IsMinCost(frontier: seq<Node>, i: nat)
    requires i < |frontier|
  {
    forall k :: 0 <= k < |frontier| ==> frontier[i].cost <= frontier[k].cost
  }

  lemma {:induction false} MinCostExists(frontier: seq<Node>)
    requires |frontier| > 0
    ensures exists i :: 0 <= i < |frontier| && IsMinCost(frontier, i)
  {
    if |frontier| > 1 {
      var init := frontier[..|frontier| - 1];
      MinCostExists(init);
      var i :| 0 <= i < |init| && IsMinCost(init, i);
      if frontier[|frontier| - 1].cost < frontier[i].cost {
        assert IsMinCost(frontier, |frontier| - 1);
      } else {
        assert IsMinCost(frontier, i);
      }
    } else {
      assert IsMinCost(frontier, 0);
    }
  }

  /** Board `t` is visited or waits in the frontier. */
  predicate Covered(t: Grid, visited: set<Grid>, frontier: seq<Node>) {
    t in visited || exists k :: 0 <= k < |frontier| && frontier[k].state == t
  }

  /** Every move from a visited board leads to a covered board. */
  predicate Closed(visited: set<Grid>, frontier: seq<Node>) {
    forall s, a {:trigger Apply(s, a), s in visited} :: s in visited && Apply(s, a).Some? ==> Covered(Apply(s, a).value, visited, frontier)
  }

  predicate DistinctBoards(s: seq<Grid>) {
    forall i, j :: 0 <= i < j < |s| ==> s[i] != s[j]
  }

  /** The values a board holds. */
  ghost function Values(g: seq<int>): set<int> {
    set x | x in g
  }

  /**
    The sequences of length `n` over `values`. With `n` the board size and the
    values of the initial board, a finite set that holds every board the
    search can meet.
  */
  ghost function Words(n: nat, values: set<int>): set<seq<int>> {
    if n == 0 then {[]} else set x, w | x in values && w in Words(n - 1, values) :: [x] + w
  }

  lemma {:induction false} InWords(s: seq<int>, values: set<int>)
    requires forall i :: 0 <= i < |s| ==> s[i] in values
    ensures s in Words(|s|, values)
  {
    if |s| > 0 {
      var x, w := s[0], s[1..];
      InWords(w, values);
      assert x in values && w in Words(|s| - 1, values);
      assert s == [x] + w;
    }
  }

  /** Visiting one more board of the universe leaves fewer unvisited. */
  lemma RemainingShrinks(universe: set<seq<int>>, visited: set<Grid>, s: Grid)
    requires s in universe && s !in visited
    ensures |universe - (visited + {s})| < |universe - visited|
  {
    assert universe - visited == (universe - (visited + {s})) + {s};
  }

  /** Expanding a node whose board is not yet visited leaves fewer unvisited boards in the universe. */
  lemma ExpandShrinks(universe: set<seq<int>>, initial: Grid, node: Node, visited: set<Grid>)
    requires Derived(node, initial) && 0 in initial && node.state !in visited
    requires universe == Words(|initial|, Values(initial))
    ensures |universe - (visited + {node.state})| < |universe - visited|
  {
    DerivedCells(node, initial);
    forall i | 0 <= i < |node.state|
      ensures node.state[i] in Values(initial)
    {
      assert node.state[i] in node.state;
    }
    InWords(node.state, Values(initial));
    RemainingShrinks(universe, visited, node.state);
  }

  /** Taking node `i` out of the frontier keeps a board covered once that node's board is visited. */
  lemma PopCovered(t: Grid, visited: set<Grid>, visited': set<Grid>, frontier: seq<Node>, i: nat)
    requires i < |frontier| && visited <= visited' && frontier[i].state in visited'
    requires Covered(t, visited, frontier)
    ensures Covered(t, visited', frontier[..i] + frontier[i + 1..])
  {
    var rest := frontier[..i] + frontier[i + 1..];
    if t !in visited' {
      var k :| 0 <= k < |frontier| && frontier[k].state == t;
      if k < i {
        assert rest[k] == frontier[k];
      } else {
        assert rest[k - 1] == frontier[k];
      }
    }
  }

  lemma PopKeepsCovered(visited: set<Grid>, visited': set<Grid>, frontier: seq<Node>, i: nat)
    requires i < |frontier| && visited <= visited' && frontier[i].state in visited'
    ensures forall t :: Covered(t, visited, frontier) ==> Covered(t, visited', frontier[..i] + frontier[i + 1..])
  {
    forall t | Covered(t, visited, frontier)
      ensures Covered(t, visited', frontier[..i] + frontier[i + 1..])
    {
      PopCovered(t, visited, visited', frontier, i);
    }
  }

  /** Adding nodes to the frontier keeps a board covered. */
  lemma PushCovered(t: Grid, visited: set<Grid>, frontier: seq<Node>, extra: seq<Node>)
    requires Covered(t, visited, frontier)
    ensures Covered(t, visited, frontier + extra)
  {
    if t !in visited {
      var k :| 0 <= k < |frontier| && frontier[k].state == t;
      assert (frontier + extra)[k] == frontier[k];
    }
  }

  /** After an expansion every move from the expanded board leads to a visited board or a pushed child. */
  lemma ExpandCoversNeighbours(node: Node, visited': set<Grid>, rest: seq<Node>, children: seq<Node>, h: Selector, goal: Grid)
    requires h != Euclidean && 0 in node.state
    requires children == Expand(node, visited', h, goal)
    ensures forall a :: Apply(node.state, a).Some? ==> Covered(Apply(node.state, a).value, visited', rest + children)
  {
    forall a | Apply(node.state, a).Some?
      ensures Covered(Apply(node.state, a).value, visited', rest + children)
    {
      var t := Apply(node.state, a).value;
      if t !in visited' {
        var c := Child(node, Step(a, t), h, goal);
        assert c in children;
        PushedCovered(c, visited', rest, children);
      }
    }
  }

  /** A board of a node pushed onto the frontier is covered. */
  lemma PushedCovered(c: Node, visited: set<Grid>, rest: seq<Node>, children: seq<Node>)
    requires c in children
    ensures Covered(c.state, visited, rest + children)
  {
    var k :| 0 <= k < |children| && children[k] == c;
    assert (rest + children)[|rest| + k] == c;
  }

  /**
    Marking a node's board visited and pushing children that cover every move
    from it keeps the closure.
  */
  lemma ExpandKeepsClosed(visited: set<Grid>, frontier: seq<Node>, i: nat, children: seq<Node>, initial: Grid)
    requires i < |frontier|
    requires Closed(visited, frontier) && Covered(initial, visited, frontier)
    requires var s := frontier[i].state; forall a :: Apply(s, a).Some? ==>
      Covered(Apply(s, a).value, visited + {s}, frontier[..i] + frontier[i + 1..] + children)
    ensures Closed(visited + {frontier[i].state}, frontier[..i] + frontier[i + 1..] + children)
    ensures Covered(initial, visited + {frontier[i].state}, frontier[..i] + frontier[i + 1..] + children)
  {
    var node := frontier[i];
    var visited' := visited + {node.state};
    var frontier' := frontier[..i] + frontier[i + 1..] + children;
    forall s, a | s in visited' && Apply(s, a).Some?
      ensures Covered(Apply(s, a).value, visited', frontier')
    {
      if s != node.state {
        StillCovered(Apply(s, a).value, visited, frontier, i, children);
      }
    }
    StillCovered(initial, visited, frontier, i, children);
  }

  /** A board covered before an expansion is covered after it. */
  lemma StillCovered(t: Grid, visited: set<Grid>, frontier: seq<Node>, i: nat, children: seq<Node>)
    requires i < |frontier| && Covered(t, visited, frontier)
    ensures Covered(t, visited + {frontier[i].state}, frontier[..i] + frontier[i + 1..] + children)
  {
    var visited' := visited + {frontier[i].state};
    PopCovered(t, visited, visited', frontier, i);
    PushCovered(t, visited', frontier[..i] + frontier[i + 1..], children);
  }

  /** The node's priority is f(n) = g(n) + h(n). */
  predicate Priced(n: Node, h: Selector, goal: Grid)
    requires h != Euclidean
  {
    n.cost == n.depth + Estimate(h, goal, n.state)
  }

  /** Every frontier node arises from the initial board by moves and carries its priority. */
  ghost predicate Sound(frontier: seq<Node>, initial: Grid, h: Selector, goal: Grid)
    requires h != Euclidean
  {
    forall k :: 0 <= k < |frontier| ==> Derived(frontier[k], initial) && Priced(frontier[k], h, goal)
  }

  /** Taking a node out of a sound frontier leaves it sound. */
  lemma PopKeepsSound(frontier: seq<Node>, i: nat, initial: Grid, h: Selector, goal: Grid)
    requires h != Euclidean && i < |frontier|
    requires Sound(frontier, initial, h, goal)
    ensures Sound(frontier[..i] + frontier[i + 1..], initial, h, goal)
  {
    var rest := frontier[..i] + frontier[i + 1..];
    forall k | 0 <= k < |rest|
      ensures Derived(rest[k], initial) && Priced(rest[k], h, goal)
    {
      if k < i {
        assert rest[k] == frontier[k];
      } else {
        assert rest[k] == frontier[k + 1];
      }
    }
  }

  /**
    What holds of the search between two pops: every frontier node arises
    from the initial board by moves and carries its priority f(n), the
    visited boards are exactly the expanded ones, distinct and never the goal,
    and every move from a visited board leads to a board that is visited or
    waits in the frontier.
  */
  ghost predicate Invariant(initial: Grid, goal: Grid, h: Selector, frontier: seq<Node>, visited: set<Grid>, expanded: seq<Grid>)
    requires h != Euclidean
  {
    && Sound(frontier, initial, h, goal)
    && (forall s :: s in visited <==> s in expanded)
    && DistinctBoards(expanded)
    && goal !in visited
    && Closed(visited, frontier)
    && Covered(initial, visited, frontier)
  }

  /** The search starts in a state that meets the invariant. */
  lemma InvariantInit(problem: Problem, h: Selector)
    requires h != Euclidean
    ensures Invariant(problem.initial, problem.goal, h, [Root(problem, h)], {}, [])
  {
    assert [Root(problem, h)][0].state == problem.initial;
  }

  /** Discarding a node whose board is already visited keeps the invariant. */
  lemma InvariantStale(initial: Grid, goal: Grid, h: Selector, frontier: seq<Node>, visited: set<Grid>, expanded: seq<Grid>, i: nat)
    requires h != Euclidean && i < |frontier| && frontier[i].state in visited
    requires Invariant(initial, goal, h, frontier, visited, expanded)
    ensures Invariant(initial, goal, h, frontier[..i] + frontier[i + 1..], visited, expanded)
  {
    PopKeepsSound(frontier, i, initial, h, goal);
    PopKeepsCovered(visited, visited, frontier, i);
  }

  /** The frontier after an expansion still holds only nodes that arise from the initial board, each with its priority. */
  lemma ExpandKeepsDerived(initial: Grid, goal: Grid, h: Selector, frontier: seq<Node>, i: nat, children: seq<Node>)
    requires h != Euclidean && i < |frontier|
    requires Sound(frontier, initial, h, goal)
    requires 0 in frontier[i].state
    requires forall c :: c in children ==> (c.parent == Some(frontier[i]) && c.action.Some?
      && Apply(frontier[i].state, c.action.value) == Some(c.state)
      && c.depth == frontier[i].depth + 1
      && Priced(c, h, goal))
    ensures Sound(frontier[..i] + frontier[i + 1..] + children, initial, h, goal)
  {
    PopKeepsSound(frontier, i, initial, h, goal);
    ChildrenSound(initial, goal, h, frontier[i], children);
    AppendSound(frontier[..i] + frontier[i + 1..], children, initial, h, goal);
  }

  /** The children of a node that arises from the initial board arise from it too. */
  lemma ChildrenSound(initial: Grid, goal: Grid, h: Selector, node: Node, children: seq<Node>)
    requires h != Euclidean && Derived(node, initial)
    requires forall c :: c in children ==> (c.parent == Some(node) && c.action.Some?
      && Apply(node.state, c.action.value) == Some(c.state)
      && c.depth == node.depth + 1
      && Priced(c, h, goal))
    ensures Sound(children, initial, h, goal)
  {
    forall k | 0 <= k < |children|
      ensures Derived(children[k], initial) && Priced(children[k], h, goal)
    {
      assert children[k] in children;
    }
  }

  /** Two sound frontiers together are sound. */
  lemma AppendSound(a: seq<Node>, b: seq<Node>, initial: Grid, h: Selector, goal: Grid)
    requires h != Euclidean
    requires Sound(a, initial, h, goal) && Sound(b, initial, h, goal)
    ensures Sound(a + b, initial, h, goal)
  {
    forall k | 0 <= k < |a + b|
      ensures Derived((a + b)[k], initial) && Priced((a + b)[k], h, goal)
    {
      if k < |a| {
        assert (a + b)[k] == a[k];
      } else {
        assert (a + b)[k] == b[k - |a|];
      }
    }
  }

  /** Recording a board that was not visited keeps the record free of repeats. */
  lemma RecordKeepsDistinct(visited: set<Grid>, expanded: seq<Grid>, s: Grid)
    requires DistinctBoards(expanded) && s !in visited
    requires forall t :: t in visited <==> t in expanded
    ensures DistinctBoards(expanded + [s])
  {
    var expanded' := expanded + [s];
    forall a, b | 0 <= a < b < |expanded'|
      ensures expanded'[a] != expanded'[b]
    {
      if b == |expanded| {
        assert expanded'[a] == expanded[a] && expanded[a] in visited;
      } else {
        assert expanded'[a] == expanded[a] && expanded'[b] == expanded[b];
      }
    }
  }

  /**
    Expanding a node whose board is new and not the goal, and pushing its
    children, keeps the invariant.
  */
  lemma InvariantExpand(initial: Grid, goal: Grid, h: Selector, frontier: seq<Node>, visited: set<Grid>, expanded: seq<Grid>, i: nat)
    requires h != Euclidean && i < |frontier| && 0 in initial
    requires frontier[i].state !in visited && frontier[i].state != goal
    requires Invariant(initial, goal, h, frontier, visited, expanded)
    ensures 0 in frontier[i].state
    ensures Invariant(initial, goal, h,
      frontier[..i] + frontier[i + 1..] + Expand(frontier[i], visited + {frontier[i].state}, h, goal),
      visited + {frontier[i].state}, expanded + [frontier[i].state])
  {
    var node := frontier[i];
    assert 0 in node.state by {
      assert Derived(node, initial);
      DerivedCells(node, initial);
    }
    var children := Expand(node, visited + {node.state}, h, goal);
    ExpandCoversNeighbours(node, visited + {node.state}, frontier[..i] + frontier[i + 1..], children, h, goal);
    InvariantPush(initial, goal, h, frontier, visited, expanded, i, children);
  }

  /**
    Marking node `i`'s board visited and replacing the node by children that
    arise from it by moves, carry their priority, and cover every move from
    its board keeps the invariant.
  */
  lemma InvariantPush(initial: Grid, goal: Grid, h: Selector, frontier: seq<Node>, visited: set<Grid>, expanded: seq<Grid>,
                      i: nat, children: seq<Node>)
    requires h != Euclidean && i < |frontier|
    requires frontier[i].state !in visited && frontier[i].state != goal && 0 in frontier[i].state
    requires Invariant(initial, goal, h, frontier, visited, expanded)
    requires forall c :: c in children ==> (c.parent == Some(frontier[i]) && c.action.Some?
      && Apply(frontier[i].state, c.action.value) == Some(c.state)
      && c.depth == frontier[i].depth + 1
      && Priced(c, h, goal))
    requires var s := frontier[i].state; forall a :: Apply(s, a).Some? ==>
      Covered(Apply(s, a).value, visited + {s}, frontier[..i] + frontier[i + 1..] + children)
    ensures Invariant(initial, goal, h, frontier[..i] + frontier[i + 1..] + children,
      visited + {frontier[i].state}, expanded + [frontier[i].state])
  {
    var node := frontier[i];
    var f', v', e' := frontier[..i] + frontier[i + 1..] + children, visited + {node.state}, expanded + [node.state];
    assert Sound(f', initial, h, goal) by {
      ExpandKeepsDerived(initial, goal, h, frontier, i, children);
    }
    assert DistinctBoards(e') by {
      RecordKeepsDistinct(visited, expanded, node.state);
    }
    assert Closed(v', f') && Covered(initial, v', f') by {
      ExpandKeepsClosed(visited, frontier, i, children, initial);
    }
    assert forall s :: s in v' <==> s in e';
  }

  /** The invariant keeps the record of expanded boards free of repeats and of the goal. */
  lemma InvariantRecord(initial: Grid, goal: Grid, h: Selector, frontier: seq<Node>, visited: set<Grid>, expanded: seq<Grid>)
    requires h != Euclidean
    requires Invariant(initial, goal, h, frontier, visited, expanded)
    ensures DistinctBoards(expanded)
    ensures forall k :: 0 <= k < |expanded| ==> expanded[k] != goal
  {
    forall k | 0 <= k < |expanded|
      ensures expanded[k] != goal
    {
      assert expanded[k] in expanded;
    }
  }

  /** When the frontier runs dry, no move sequence from the initial board reaches the goal. */
  lemma InvariantExhausted(initial: Grid, goal: Grid, h: Selector, visited: set<Grid>, expanded: seq<Grid>)
    requires h != Euclidean
    requires Invariant(initial, goal, h, [], visited, expanded)
    ensures forall path :: ValidPath(initial, path) ==> EndOf(initial, path) != goal
  {
    forall path | ValidPath(initial, path)
      ensures EndOf(initial, path) != goal
    {
      ClosedHoldsEnd(visited, initial, path);
    }
  }

  /**
    The goal test's success branch: the path rebuilt from a node on the goal
    leads from the initial board to the goal, and is empty for the root. With
    the default goal, this can only happen for a solvable initial board.
  */
  method Solution(node: Node, initial: Grid, h: Selector, goal: Grid) returns (path: seq<Step>)
    requires h != Euclidean
    requires Derived(node, initial) && node.state == goal
    ensures ValidPath(initial, path) && EndOf(initial, path) == goal
    ensures |path| == node.depth
    ensures Labelled(node) && path == PathTo(node)
    ensures goal == DefaultGoal && IsPermutation(initial) ==> Solvable(initial)
  {
    DerivedPath(node, initial);
    path := ReconstructPath(node);
    if goal == DefaultGoal && IsPermutation(initial) && !Solvable(initial) {
      UnsolvableNeverReachesGoal(initial, path);
    }
  }

  /** `m` is the largest of the recorded frontier sizes. */
  predicate IsPeak(m: nat, samples: seq<nat>) {
    m in samples && forall k :: 0 <= k < |samples| ==> samples[k] <= m
  }

  /** Recording one more frontier size keeps the running maximum and the first record. */
  lemma PeakStep(m: nat, samples: seq<nat>, size: nat)
    requires |samples| == 0 ==> m == 0
    requires |samples| > 0 ==> IsPeak(m, samples)
    ensures IsPeak(if size > m then size else m, samples + [size])
    ensures (samples + [size])[0] == if |samples| == 0 then size else samples[0]
  {
  }

  /**
    The state of the loop of `general_search` between two pops: the frontier,
    the visited boards, and the boards expanded so far, in order.
  */
  datatype Snapshot = Snapshot(frontier: seq<Node>, visited: set<Grid>, expanded: seq<Grid>)

  /** The state before the first pop: the root alone in the frontier, nothing visited. */
  function Start(problem: Problem, h: Selector): Snapshot
    requires h != Euclidean
  {
    Snapshot([Root(problem, h)], {}, [])
  }

  /**
    The state after popping node `i`: a visited board is skipped; a new one is
    marked visited, counted as expanded, and its unvisited children pushed.
  */
  function Next(problem: Problem, h: Selector, s: Snapshot, i: nat): Snapshot
    requires h != Euclidean && i < |s.frontier|
    requires s.frontier[i].state !in s.visited ==> 0 in s.frontier[i].state
  {
    var node := s.frontier[i];
    var rest := s.frontier[..i] + s.frontier[i + 1..];
    if node.state in s.visited then
      Snapshot(rest, s.visited, s.expanded)
    else
      var visited' := s.visited + {node.state};
      Snapshot(rest + Expand(node, visited', h, problem.goal), visited', s.expanded + [node.state])
  }

  /**
    One turn of the loop that does not end it: node `i`, of least priority, is
    popped, its board is visited already or not the goal, and the loop moves
    on to `Next`.
  */
  ghost predicate Turn(problem: Problem, h: Selector, s: Snapshot, i: nat, s': Snapshot)
    requires h != Euclidean
  {
    && i < |s.frontier|
    && IsMinCost(s.frontier, i)
    && (s.frontier[i].state !in s.visited ==> !problem.IsGoal(s.frontier[i].state) && 0 in s.frontier[i].state)
    && s' == Next(problem, h, s, i)
  }

  /** The turn that ends the loop on the goal: node `i`, of least priority, holds an unvisited goal board. */
  ghost predicate GoalPop(problem: Problem, s: Snapshot, i: nat) {
    && i < |s.frontier|
    && IsMinCost(s.frontier, i)
    && s.frontier[i].state !in s.visited
    && problem.IsGoal(s.frontier[i].state)
  }

  /** `trace` lists the loop states from the start, `pops` the node popped in each turn between them. */
  ghost predicate Run(problem: Problem, h: Selector, trace: seq<Snapshot>, pops: seq<nat>)
    requires h != Euclidean
  {
    && |trace| == |pops| + 1
    && trace[0] == Start(problem, h)
    && forall k :: 0 <= k < |pops| ==> Turn(problem, h, trace[k], pops[k], trace[k + 1])
  }

  /** The state an execution ends in. */
  function Last(trace: seq<Snapshot>): Snapshot
    requires |trace| > 0
  {
    trace[|trace| - 1]
  }

  /**
    A whole execution of the loop of `general_search`. Either the frontier ran
    dry after the turns of `trace`, or one more pop, the last of `pops`, found
    the goal node `found`. `samples` holds the frontier size before each pop.
  */
  ghost predicate Execution(problem: Problem, h: Selector, trace: seq<Snapshot>, pops: seq<nat>, samples: seq<nat>, found: Option<Node>)
    requires h != Euclidean
  {
    && (found.None? ==> Run(problem, h, trace, pops) && Last(trace).frontier == [])
    && (found.Some? ==>
        && |pops| > 0
        && Run(problem, h, trace, pops[..|pops| - 1])
        && GoalPop(problem, Last(trace), pops[|pops| - 1])
        && found.value == Last(trace).frontier[pops[|pops| - 1]])
    && |samples| == |pops|
    && forall k :: 0 <= k < |samples| ==> samples[k] == |trace[k].frontier|
  }

  /** Extending a run by one more turn. */
  lemma RunSnoc(problem: Problem, h: Selector, trace: seq<Snapshot>, pops: seq<nat>, i: nat, s': Snapshot)
    requires h != Euclidean
    requires Run(problem, h, trace, pops)
    requires Turn(problem, h, Last(trace), i, s')
    ensures Run(problem, h, trace + [s'], pops + [i])
  {
    var trace', pops' := trace + [s'], pops + [i];
    forall k | 0 <= k < |pops'|
      ensures Turn(problem, h, trace'[k], pops'[k], trace'[k + 1])
    {
      if k < |pops| {
        assert trace'[k] == trace[k] && trace'[k + 1] == trace[k + 1] && pops'[k] == pops[k];
      } else {
        assert trace'[k] == Last(trace) && trace'[k + 1] == s' && pops'[k] == i;
      }
    }
  }

  /**
    One turn of the loop of `general_search`: pop node `i` of least priority;
    skip it when its board is already visited, report it when its board is
    the goal, and otherwise mark it visited and push its unvisited children.
    `grew` tells whether a node was expanded.
  */
  method Advance(problem: Problem, h: Selector, frontier: seq<Node>, visited: set<Grid>, ghost expanded: seq<Grid>, ghost universe: set<seq<int>>)
    returns (frontier': seq<Node>, visited': set<Grid>, ghost expanded': seq<Grid>, found: Option<Node>, grew: bool, ghost i: nat)
    requires h != Euclidean && |frontier| > 0 && 0 in problem.initial
    requires universe == Words(|problem.initial|, Values(problem.initial))
    requires Invariant(problem.initial, problem.goal, h, frontier, visited, expanded)
    ensures found.None? ==> Turn(problem, h, Snapshot(frontier, visited, expanded), i, Snapshot(frontier', visited', expanded'))
    ensures found.Some? ==> GoalPop(problem, Snapshot(frontier, visited, expanded), i) && found.value == frontier[i]
    ensures found.Some? ==> Derived(found.value, problem.initial)
    ensures found.Some? ==> !grew && frontier' == frontier && visited' == visited && expanded' == expanded
    ensures found.None? ==> Invariant(problem.initial, problem.goal, h, frontier', visited', expanded')
    ensures found.None? ==>
      || (!grew && visited' == visited && expanded' == expanded && |frontier'| < |frontier|)
      || (grew && |expanded'| == |expanded| + 1 && |universe - visited'| < |universe - visited|)
  {
    var initial, goal := problem.initial, problem.goal;
    MinCostExists(frontier);
    var j :| 0 <= j < |frontier| && IsMinCost(frontier, j);
    i := j;
    var node := frontier[j];
    var rest := frontier[..j] + frontier[j + 1..];
    visited', expanded' := visited, expanded;

    if node.state in visited {
      InvariantStale(initial, goal, h, frontier, visited, expanded, j);
      frontier', found, grew := rest, None, false;
      return;
    }

    assert Derived(node, initial);
    if problem.IsGoal(node.state) {
      frontier', found, grew := frontier, Some(node), false;
      return;
    }

    ExpandShrinks(universe, initial, node, visited);
    InvariantExpand(initial, goal, h, frontier, visited, expanded, j);
    var children := Expand(node, visited + {node.state}, h, goal);
    visited' := visited + {node.state};
    expanded' := expanded + [node.state];
    frontier', found, grew := rest + children, None, true;
  }

  /**
    The first turn of the loop, which pops the root, the frontier's only node:
    it is reported when it is the goal and expanded otherwise.
  */
  method FirstTurn(problem: Problem, h: Selector, ghost universe: set<seq<int>>)
    returns (frontier: seq<Node>, visited: set<Grid>, ghost expanded: seq<Grid>, found: Option<Node>, nodesExpanded: nat, ghost i: nat)
    requires 0 in problem.initial && h != Euclidean
    requires universe == Words(|problem.initial|, Values(problem.initial))
    ensures Invariant(problem.initial, problem.goal, h, frontier, visited, expanded)
    ensures found.None? ==> Turn(problem, h, Start(problem, h), i, Snapshot(frontier, visited, expanded))
    ensures found.Some? ==> GoalPop(problem, Start(problem, h), i) && found.value == Start(problem, h).frontier[i]
    ensures found.Some? ==> Derived(found.value, problem.initial) && Snapshot(frontier, visited, expanded) == Start(problem, h)
    ensures problem.IsGoal(problem.initial) ==> found == Some(Root(problem, h)) && nodesExpanded == 0
    ensures !problem.IsGoal(problem.initial) ==>
      && found.None?
      && visited == {problem.initial} && expanded == [problem.initial] && nodesExpanded == 1
      && frontier == Expand(Root(problem, h), {problem.initial}, h, problem.goal)
    ensures nodesExpanded == |expanded|
  {
    InvariantInit(problem, h);
    var root := Root(problem, h);
    var grew;
    frontier, visited, expanded, found, grew, i := Advance(problem, h, [root], {}, [], universe);
    assert i == 0;
    if !problem.IsGoal(problem.initial) {
      FirstNext(problem, h);
    }
    nodesExpanded := if grew then 1 else 0;
  }

  /** The turn that pops the root, when the root is not the goal, expands it. */
  lemma FirstNext(problem: Problem, h: Selector)
    requires h != Euclidean && 0 in problem.initial
    ensures Next(problem, h, Start(problem, h), 0)
      == Snapshot(Expand(Root(problem, h), {problem.initial}, h, problem.goal), {problem.initial}, [problem.initial])
  {
    var s := Start(problem, h);
    var root := s.frontier[0];
    var visited' := s.visited + {root.state};
    assert root == Root(problem, h) && root.state == problem.initial;
    assert visited' == {problem.initial} && s.expanded + [root.state] == [problem.initial];
    assert s.frontier[..0] + s.frontier[1..] == [];
    var children := Expand(root, visited', h, problem.goal);
    assert [] + children == children;
  }

  /**
    The loop of `general_search`: `Advance` until the goal is found or the
    frontier runs dry. `trace`, `pops` and `samples` record the execution;
    `found` is the node on the goal, if any, and when there is none no move
    sequence from the initial board reaches the goal. `nodesExpanded` is the
    number of boards expanded, none twice and never the goal, and
    `maxQueueSize` is the largest frontier size seen before a pop.
  */
  method Explore(problem: Problem, h: Selector)
    returns (found: Option<Node>, nodesExpanded: nat, maxQueueSize: nat,
             ghost trace: seq<Snapshot>, ghost pops: seq<nat>, ghost samples: seq<nat>)
    requires 0 in problem.initial && h != Euclidean
    ensures Execution(problem, h, trace, pops, samples, found)
    ensures nodesExpanded == |Last(trace).expanded|
    ensures IsPeak(maxQueueSize, samples)
    ensures GoalFound(problem, found)
    ensures found.None? ==>
      forall path :: ValidPath(problem.initial, path) ==> EndOf(problem.initial, path) != problem.goal
    ensures problem.IsGoal(problem.initial) ==> found == Some(Root(problem, h)) && nodesExpanded == 0 && maxQueueSize == 1
    ensures !problem.IsGoal(problem.initial) ==> nodesExpanded >= 1 && Last(trace).expanded[0] == problem.initial
    ensures DistinctBoards(Last(trace).expanded)
    ensures forall k :: 0 <= k < nodesExpanded ==> !problem.IsGoal(Last(trace).expanded[k])
  {
    ghost var universe := Words(|problem.initial|, Values(problem.initial));
    var frontier, visited;
    ghost var expanded, steps, i;
    frontier, visited, expanded, found, nodesExpanded, maxQueueSize, trace, steps, samples, i := Begin(problem, h, universe);

    while found.None? && |frontier| > 0
      invariant Looping(problem, h, frontier, visited, expanded, found, nodesExpanded, maxQueueSize, trace, steps, samples, i)
      decreases |universe - visited|, |frontier|, if found.None? then 1 else 0
    {
      frontier, visited, expanded, found, nodesExpanded, maxQueueSize, trace, steps, samples, i :=
        Iterate(problem, h, universe, frontier, visited, expanded, nodesExpanded, maxQueueSize, trace, steps, samples, i);
    }

    if found.None? {
      InvariantExhausted(problem.initial, problem.goal, h, visited, expanded);
    }
    InvariantRecord(problem.initial, problem.goal, h, frontier, visited, expanded);
    pops := ProgressDone(problem, h, trace, steps, samples, i, found, Snapshot(frontier, visited, expanded));
  }

  /**
    What `Explore` knows between turns: `trace` and `steps` are a run ending in
    the current state `now`; `samples` holds one frontier size per pop so far,
    and when `found` is present the last pop, `last`, found it.
  */
  ghost predicate Progress(problem: Problem, h: Selector, trace: seq<Snapshot>, steps: seq<nat>, samples: seq<nat>,
                           last: nat, found: Option<Node>, now: Snapshot)
    requires h != Euclidean
  {
    && Run(problem, h, trace, steps)
    && Last(trace) == now
    && |samples| == |steps| + (if found.Some? then 1 else 0)
    && (forall k :: 0 <= k < |samples| ==> samples[k] == |trace[k].frontier|)
    && (found.Some? ==> GoalPop(problem, now, last) && found.value == now.frontier[last])
  }

  /** The loop invariant of `Explore`. */
  ghost predicate Looping(problem: Problem, h: Selector, frontier: seq<Node>, visited: set<Grid>, expanded: seq<Grid>,
                          found: Option<Node>, nodesExpanded: nat, maxQueueSize: nat,
                          trace: seq<Snapshot>, steps: seq<nat>, samples: seq<nat>, last: nat)
    requires h != Euclidean
  {
    && Invariant(problem.initial, problem.goal, h, frontier, visited, expanded)
    && Progress(problem, h, trace, steps, samples, last, found, Snapshot(frontier, visited, expanded))
    && (found.Some? ==> Derived(found.value, problem.initial))
    && (problem.IsGoal(problem.initial) ==> found == Some(Root(problem, h)) && nodesExpanded == 0 && maxQueueSize == 1)
    && (!problem.IsGoal(problem.initial) ==> |expanded| >= 1 && expanded[0] == problem.initial)
    && nodesExpanded == |expanded|
    && IsPeak(maxQueueSize, samples)
  }

  /** The loop of `Explore` up to and including its first turn, which pops the root. */
  method Begin(problem: Problem, h: Selector, ghost universe: set<seq<int>>)
    returns (frontier: seq<Node>, visited: set<Grid>, ghost expanded: seq<Grid>, found: Option<Node>,
             nodesExpanded: nat, maxQueueSize: nat,
             ghost trace: seq<Snapshot>, ghost steps: seq<nat>, ghost samples: seq<nat>, ghost i: nat)
    requires 0 in problem.initial && h != Euclidean
    requires universe == Words(|problem.initial|, Values(problem.initial))
    ensures Looping(problem, h, frontier, visited, expanded, found, nodesExpanded, maxQueueSize, trace, steps, samples, i)
    ensures maxQueueSize == 1
    ensures found.Some? <==> problem.IsGoal(problem.initial)
    ensures nodesExpanded == (if found.Some? then 0 else 1)
  {
    PeakStep(0, [], 1);
    maxQueueSize, samples := 1, [] + [1];
    frontier, visited, expanded, found, nodesExpanded, i := FirstTurn(problem, h, universe);
    trace, steps := [Start(problem, h)], [];
    if found.None? {
      RunSnoc(problem, h, trace, steps, i, Snapshot(frontier, visited, expanded));
      trace, steps := trace + [Snapshot(frontier, visited, expanded)], steps + [i];
    }
    Progressed(problem, h, trace, steps, samples, i, found, Snapshot(frontier, visited, expanded));
  }

  /**
    One pass of the loop of `Explore`: record the frontier size, take one turn
    and count an expansion. The loop invariant is kept and the termination
    measure drops.
  */
  method Iterate(problem: Problem, h: Selector, ghost universe: set<seq<int>>,
                 frontier: seq<Node>, visited: set<Grid>, ghost expanded: seq<Grid>, nodesExpanded: nat, maxQueueSize: nat,
                 ghost trace: seq<Snapshot>, ghost steps: seq<nat>, ghost samples: seq<nat>, ghost last: nat)
    returns (frontier': seq<Node>, visited': set<Grid>, ghost expanded': seq<Grid>, found': Option<Node>,
             nodesExpanded': nat, maxQueueSize': nat,
             ghost trace': seq<Snapshot>, ghost steps': seq<nat>, ghost samples': seq<nat>, ghost i: nat)
    requires 0 in problem.initial && h != Euclidean && |frontier| > 0
    requires universe == Words(|problem.initial|, Values(problem.initial))
    requires Looping(problem, h, frontier, visited, expanded, None, nodesExpanded, maxQueueSize, trace, steps, samples, last)
    ensures Looping(problem, h, frontier', visited', expanded', found', nodesExpanded', maxQueueSize', trace', steps', samples', i)
    ensures || |universe - visited'| < |universe - visited|
            || (visited' == visited && |frontier'| < |frontier|)
            || (visited' == visited && frontier' == frontier && found'.Some?)
  {
    var size := |frontier|;
    PeakStep(maxQueueSize, samples, size);
    maxQueueSize' := if size > maxQueueSize then size else maxQueueSize;
    var grew;
    frontier', visited', expanded', found', grew, i := Advance(problem, h, frontier, visited, expanded, universe);
    nodesExpanded' := if grew then nodesExpanded + 1 else nodesExpanded;
    ProgressStep(problem, h, trace, steps, samples, i, found', Snapshot(frontier, visited, expanded), Snapshot(frontier', visited', expanded'));
    samples' := samples + [size];
    if found'.None? {
      trace', steps' := trace + [Snapshot(frontier', visited', expanded')], steps + [i];
    } else {
      trace', steps' := trace, steps;
    }
  }

  /** The state after the first turn. */
  lemma Progressed(problem: Problem, h: Selector, trace: seq<Snapshot>, steps: seq<nat>, samples: seq<nat>,
                   i: nat, found: Option<Node>, now: Snapshot)
    requires h != Euclidean
    requires samples == [1]
    requires found.None? ==> Run(problem, h, trace, steps) && |steps| == 1 && trace[1] == now
    requires found.Some? ==>
      && trace == [Start(problem, h)] && steps == [] && now == Start(problem, h)
      && GoalPop(problem, now, i) && found.value == now.frontier[i]
    ensures Progress(problem, h, trace, steps, samples, i, found, now)
  {
  }

  /** One more turn of the loop keeps `Progress`. */
  lemma ProgressStep(problem: Problem, h: Selector, trace: seq<Snapshot>, steps: seq<nat>, samples: seq<nat>,
                     i: nat, found: Option<Node>, before: Snapshot, after: Snapshot)
    requires h != Euclidean
    requires Run(problem, h, trace, steps) && Last(trace) == before
    requires |samples| == |steps| && forall k :: 0 <= k < |samples| ==> samples[k] == |trace[k].frontier|
    requires found.None? ==> Turn(problem, h, before, i, after)
    requires found.Some? ==> GoalPop(problem, before, i) && found.value == before.frontier[i] && after == before
    ensures found.None? ==> Progress(problem, h, trace + [after], steps + [i], samples + [|before.frontier|], i, found, after)
    ensures found.Some? ==> Progress(problem, h, trace, steps, samples + [|before.frontier|], i, found, after)
  {
    var samples' := samples + [|before.frontier|];
    if found.None? {
      RunSnoc(problem, h, trace, steps, i, after);
      var trace' := trace + [after];
      forall k | 0 <= k < |samples'|
        ensures samples'[k] == |trace'[k].frontier|
      {
        assert trace'[k] == trace[k];
      }
    } else {
      forall k | 0 <= k < |samples'|
        ensures samples'[k] == |trace[k].frontier|
      {
      }
    }
  }

  /** When the loop stops, `Progress` is a whole execution. */
  lemma ProgressDone(problem: Problem, h: Selector, trace: seq<Snapshot>, steps: seq<nat>, samples: seq<nat>,
                     i: nat, found: Option<Node>, now: Snapshot) returns (pops: seq<nat>)
    requires h != Euclidean
    requires Progress(problem, h, trace, steps, samples, i, found, now)
    requires found.None? ==> now.frontier == []
    ensures Execution(problem, h, trace, pops, samples, found)
  {
    if found.None? {
      pops := steps;
    } else {
      pops := steps + [i];
      assert pops[..|pops| - 1] == steps;
    }
  }

  /**
    `general_search` once the heuristic is chosen. On success the path is a
    valid move sequence from the initial board to the goal, as long as the
    goal node is deep; on failure no move sequence reaches the goal. The
    counters are those of the execution `trace`: the number of boards
    expanded and the largest frontier size before a pop. A board that is
    already the goal yields the empty path before anything is expanded.
  */
  method BestFirstSearch(problem: Problem, h: Selector)
    returns (result: SearchResult, ghost trace: seq<Snapshot>, ghost pops: seq<nat>, ghost samples: seq<nat>, ghost found: Option<Node>)
    requires 0 in problem.initial && h != Euclidean
    ensures Execution(problem, h, trace, pops, samples, found)
    ensures result.solution.Some? <==> found.Some?
    ensures result.solution.Some? ==>
      && ValidPath(problem.initial, result.solution.value)
      && EndOf(problem.initial, result.solution.value) == problem.goal
      && |result.solution.value| == found.value.depth
      && Labelled(found.value) && result.solution.value == PathTo(found.value)
    ensures result.solution.None? ==>
      forall path :: ValidPath(problem.initial, path) ==> EndOf(problem.initial, path) != problem.goal
    ensures result.nodesExpanded == |Last(trace).expanded|
    ensures IsPeak(result.maxQueueSize, samples) && result.maxQueueSize >= 1
    ensures problem.IsGoal(problem.initial) ==> result == SearchResult(Some([]), 0, 1)
  {
    var goalNode, nodesExpanded, maxQueueSize;
    goalNode, nodesExpanded, maxQueueSize, trace, pops, samples := Explore(problem, h);
    found := goalNode;
    result := Report(problem, h, goalNode, nodesExpanded, maxQueueSize);
    assert samples[0] == 1;
  }

  /** `found`, when present, is a node of the search on the goal. */
  ghost predicate GoalFound(problem: Problem, found: Option<Node>) {
    found.Some? ==> Derived(found.value, problem.initial) && problem.IsGoal(found.value.state)
  }

  /** The two exits of `general_search`: the path to the goal node, or no path once the frontier ran dry. */
  method Report(problem: Problem, h: Selector, found: Option<Node>, nodesExpanded: nat, maxQueueSize: nat) returns (result: SearchResult)
    requires h != Euclidean && GoalFound(problem, found)
    ensures result.nodesExpanded == nodesExpanded && result.maxQueueSize == maxQueueSize
    ensures result.solution.Some? <==> found.Some?
    ensures result.solution.Some? ==>
      && ValidPath(problem.initial, result.solution.value)
      && EndOf(problem.initial, result.solution.value) == problem.goal
      && |result.solution.value| == found.value.depth
      && Labelled(found.value) && result.solution.value == PathTo(found.value)
    ensures problem.goal == DefaultGoal && IsPermutation(problem.initial) && !Solvable(problem.initial) ==> result.solution.None?
  {
    match found
    case None =>
      result := SearchResult(None, nodesExpanded, maxQueueSize);
    case Some(node) =>
      var path := Solution(node, problem.initial, h, problem.goal);
      result := SearchResult(Some(path), nodesExpanded, maxQueueSize);
  }

  /**
    `general_search` with a heuristic name: an unknown name raises
    `InvalidHeuristic` before any search; a known one runs the search and
    returns what `BestFirstSearch` does.
  */
  method GeneralSearch(problem: Problem, heuristic: string)
    returns (r: Result<SearchResult, SearchError>, ghost trace: seq<Snapshot>, ghost pops: seq<nat>, ghost samples: seq<nat>, ghost found: Option<Node>)
    requires 0 in problem.initial
    requires heuristic != "euclidean"
    ensures r.Failure? <==> heuristic != "uniform" && heuristic != "misplaced"
    ensures r.Failure? ==> r.error == InvalidHeuristic
    ensures r.Success? ==> var h := ParseHeuristic(heuristic).value;
      && h != Euclidean
      && Execution(problem, h, trace, pops, samples, found)
      && (r.value.solution.Some? <==> found.Some?)
      && r.value.nodesExpanded == |Last(trace).expanded|
      && IsPeak(r.value.maxQueueSize, samples) && r.value.maxQueueSize >= 1
    ensures r.Success? && r.value.solution.Some? ==>
      && found.Some?
      && ValidPath(problem.initial, r.value.solution.value)
      && EndOf(problem.initial, r.value.solution.value) == problem.goal
      && |r.value.solution.value| == found.value.depth
      && Labelled(found.value) && r.value.solution.value == PathTo(found.value)
    ensures r.Success? && r.value.solution.None? ==>
      forall path :: ValidPath(problem.initial, path) ==> EndOf(problem.initial, path) != problem.goal
    ensures r.Success? && problem.IsGoal(problem.initial) ==> r.value == SearchResult(Some([]), 0, 1)
  {
    match ParseHeuristic(heuristic)
    case Failure(e) =>
      r, trace, pops, samples, found := Failure(e), [], [], [], None;
    case Success(h) =>
      var result;
      result, trace, pops, samples, found := BestFirstSearch(problem, h);
      r := Success(result);
  }
}
