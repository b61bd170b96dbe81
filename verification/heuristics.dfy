/**
  The heuristics `general_search` can be asked for: the zero estimate of
  uniform-cost search and `Problem.misplaced_tile_heuristic`.
*/
module Heuristics {
  import opened Wrappers
  import opened Puzzle
  import opened Moves

  /** The three heuristic names `general_search` accepts. */
  datatype Selector = Uniform | Misplaced | Euclidean

  /** The error `general_search` raises for any other name. */
  datatype SearchError = InvalidHeuristic

  function Name(h: Selector): string {
    match h
    case Uniform => "uniform"
    case Misplaced => "misplaced"
    case Euclidean => "euclidean"
  }

  /** The heuristic dispatch of `general_search`: a known name or the invalid-heuristic error. */
  function ParseHeuristic(name: string): (r: Result<Selector, SearchError>)
    ensures r.Success? ==> Name(r.value) == name
    ensures r.Failure? <==> forall h: Selector :: Name(h) != name
  {
    if name == "uniform" then Success(Uniform)
    else if name == "misplaced" then Success(Misplaced)
    else if name == "euclidean" then Success(Euclidean)
    else Failure(InvalidHeuristic)
  }

  /** Every selector is recognised by its own name. */
  lemma ParseName(h: Selector)
    ensures ParseHeuristic(Name(h)) == Success(h)
  {
  }

  /** Whether cell `i` counts as misplaced: it holds a tile that is not the goal's. */
  predicate MisplacedAt(goal: Grid, s: Grid, i: nat)
    requires i < 9
  {
    s[i] != 0 && s[i] != goal[i]
  }

  /** The number of misplaced cells among the first `n` in row-major order. */
  function CountMisplaced(goal: Grid, s: Grid, n: nat): (r: nat)
    requires n <= 9
  {
    if n == 0 then 0
    else CountMisplaced(goal, s, n - 1) + (if MisplacedAt(goal, s, n - 1) then 1 else 0)
  }

  /** The misplaced cells among the first `n`. */
  function MisplacedCells(goal: Grid, s: Grid, n: nat): set<nat>
    requires n <= 9
  {
    set i: nat | i < n && MisplacedAt(goal, s, i)
  }

  /** `Problem.misplaced_tile_heuristic`: how many tiles, the blank not counted, sit off their goal cell. */
  function MisplacedTiles(goal: Grid, s: Grid): (r: nat)
    ensures r == |MisplacedCells(goal, s, 9)|
    ensures r <= 9
  {
    CountBound(goal, s, 9);
    CountIsCard(goal, s, 9);
    CountMisplaced(goal, s, 9)
  }

  /** The running count of the nested loops is the number of misplaced cells seen so far. */
  lemma {:induction false} CountIsCard(goal: Grid, s: Grid, n: nat)
    requires n <= 9
    ensures CountMisplaced(goal, s, n) == |MisplacedCells(goal, s, n)|
  {
    if n == 0 {
      assert MisplacedCells(goal, s, 0) == {};
    } else {
      CountIsCard(goal, s, n - 1);
      var prev := MisplacedCells(goal, s, n - 1);
      if MisplacedAt(goal, s, n - 1) {
        assert MisplacedCells(goal, s, n) == prev + {n - 1};
        assert n - 1 !in prev;
      } else {
        assert MisplacedCells(goal, s, n) == prev;
      }
    }
  }

  lemma {:induction false} CountBound(goal: Grid, s: Grid, n: nat)
    requires n <= 9
    ensures CountMisplaced(goal, s, n) <= n
    ensures forall i :: 0 <= i < n && s[i] == 0 ==> CountMisplaced(goal, s, n) < n
  {
    if n > 0 {
      CountBound(goal, s, n - 1);
    }
  }

  /** The count is zero exactly when no cell is misplaced. */
  lemma {:induction false} CountZero(goal: Grid, s: Grid, n: nat)
    requires n <= 9
    ensures CountMisplaced(goal, s, n) == 0 <==> forall i :: 0 <= i < n ==> !MisplacedAt(goal, s, i)
  {
    if n > 0 {
      CountZero(goal, s, n - 1);
    }
  }

  /** On a board with a blank at most 8 tiles are misplaced. */
  lemma MisplacedBound(goal: Grid, s: Grid)
    requires 0 in s
    ensures MisplacedTiles(goal, s) <= 8
  {
    CountBound(goal, s, 9);
  }

  /**
    The heuristic vanishes exactly on the goal. It needs the board to have no
    repeated value and the goal to have a blank; a legal configuration has both.
  */
  lemma MisplacedZeroIffGoal(goal: Grid, s: Grid)
    requires Distinct(s) && 0 in goal
    ensures MisplacedTiles(goal, s) == 0 <==> s == goal
  {
    CountZero(goal, s, 9);
    if MisplacedTiles(goal, s) == 0 {
      var b :| 0 <= b < 9 && goal[b] == 0;
      assert s[b] == 0 by {
        assert !MisplacedAt(goal, s, b);
      }
      forall i | 0 <= i < 9
        ensures s[i] == goal[i]
      {
        assert !MisplacedAt(goal, s, i);
        if i != b {
          assert s[i] != s[b];
        }
      }
    }
  }

  /** The count over two boards that agree outside cells `i` and `j` differs only by those cells. */
  lemma {:induction false} CountTwoCells(goal: Grid, s: Grid, s': Grid, i: nat, j: nat, n: nat)
    requires i < 9 && j < 9 && i != j && n <= 9
    requires forall k :: 0 <= k < 9 && k != i && k != j ==> s[k] == s'[k]
    ensures CountMisplaced(goal, s', n)
      + (if i < n && MisplacedAt(goal, s, i) then 1 else 0) + (if j < n && MisplacedAt(goal, s, j) then 1 else 0)
      == CountMisplaced(goal, s, n)
      + (if i < n && MisplacedAt(goal, s', i) then 1 else 0) + (if j < n && MisplacedAt(goal, s', j) then 1 else 0)
  {
    if n > 0 {
      CountTwoCells(goal, s, s', i, j, n - 1);
    }
  }

  /**
    One move changes the misplaced-tile count by at most one: only the moved
    tile can become placed or misplaced, since the blank never counts. This is
    why the heuristic is consistent for unit-cost moves.
  */
  lemma MisplacedConsistent(goal: Grid, s: Grid, a: Action)
    requires Apply(s, a).Some?
    ensures var s' := Apply(s, a).value;
      MisplacedTiles(goal, s') <= MisplacedTiles(goal, s) + 1 && MisplacedTiles(goal, s) <= MisplacedTiles(goal, s') + 1
  {
    var b := Index(Blank(s));
    var t := Index(Target(Blank(s), a));
    var s' := Apply(s, a).value;
    assert s' == s[b := s[t]][t := 0];
    assert !MisplacedAt(goal, s, b) && !MisplacedAt(goal, s', t);
    CountTwoCells(goal, s, s', b, t, 9);
  }

  /**
    The estimate `h_func` computes for a selector. `Euclidean` is the
    floating-point heuristic and is not part of this model.
  */
  function Estimate(h: Selector, goal: Grid, s: Grid): (r: nat)
    requires h != Euclidean
    ensures h == Uniform ==> r == 0
    ensures r == 0 <==> h == Uniform || MisplacedTiles(goal, s) == 0
  {
    match h
    case Uniform => 0
    case Misplaced => MisplacedTiles(goal, s)
  }

  /** Both modelled heuristics are zero on the goal. */
  lemma EstimateGoalZero(h: Selector, goal: Grid)
    requires h != Euclidean
    ensures Estimate(h, goal, goal) == 0
  {
    CountZero(goal, goal, 9);
  }
}
