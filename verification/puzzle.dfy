/**
  Boards of the 8-puzzle and the blank lookup of `Problem.find_blank`.

  `eight_puzzle_project1.py` keeps a board as a list of three rows of three
  integers. Here a board is the same nine cells flattened row by row, so cell
  (row, col) lives at index `3 * row + col`; iterating rows then columns, as
  its nested loops do, is iterating the indices 0..8 in order.
*/
module Puzzle {
  import opened Wrappers

  /** A 3x3 board flattened row-major. The value 0 is the blank. */
  type Grid = g: seq<int> | |g| == 9 witness [1, 2, 3, 4, 5, 6, 7, 8, 0]

  /** The goal used when a problem is built without one: 1..8 row by row, blank last. */
  const DefaultGoal: Grid := [1, 2, 3, 4, 5, 6, 7, 8, 0]

  /** A (row, col) pair; a move target may fall outside the board, so both are plain integers. */
  datatype Pos = Pos(row: int, col: int)

  predicate InBounds(p: Pos) {
    0 <= p.row < 3 && 0 <= p.col < 3
  }

  function Index(p: Pos): (i: nat)
    requires InBounds(p)
    ensures i < 9
  {
    3 * p.row + p.col
  }

  /** The position of flat index `i`; the inverse of `Index`. */
  function PosOf(i: nat): (p: Pos)
    requires i < 9
    ensures InBounds(p) && Index(p) == i
  {
    Pos(i / 3, i % 3)
  }

  predicate Distinct(s: seq<int>) {
    forall i, j :: 0 <= i < j < |s| ==> s[i] != s[j]
  }

  /**
    A legal puzzle configuration: every cell holds one of 0..8 and no value
    repeats. Nine cells and nine values, so each of 0..8 appears exactly once
    (`PermutationHasBlank` shows that such a board meets the search's need for
    a blank).
  */
  predicate IsPermutation(g: Grid) {
    (forall i :: 0 <= i < 9 ==> 0 <= g[i] < 9) && Distinct(g)
  }

  /** Pigeonhole: a repetition-free sequence drawn from `S` is no longer than `S`. */
  lemma {:induction false} DistinctWithin(s: seq<int>, S: set<int>)
    requires forall i :: 0 <= i < |s| ==> s[i] in S
    requires Distinct(s)
    ensures |s| <= |S|
  {
    if |s| > 0 {
      var rest := s[1..];
      assert forall i :: 0 <= i < |rest| ==> rest[i] == s[i + 1];
      DistinctWithin(rest, S - {s[0]});
    }
  }

  /** Every legal configuration has a blank. */
  lemma PermutationHasBlank(g: Grid)
    requires IsPermutation(g)
    ensures 0 in g
  {
    if 0 !in g {
      var tiles := {1, 2, 3, 4, 5, 6, 7, 8};
      assert forall i :: 0 <= i < 9 ==> g[i] in tiles;
      DistinctWithin(g, tiles);
      assert false;
    }
  }

  /**
    `Problem.find_blank`: the first cell, in row-major order, holding 0, or
    `None` when no cell does.
  */
  function FindBlank(g: Grid): (r: Option<Pos>)
    ensures r.Some? ==> InBounds(r.value) && g[Index(r.value)] == 0
    ensures r.Some? ==> forall k :: 0 <= k < Index(r.value) ==> g[k] != 0
    ensures r.None? <==> 0 !in g
  {
    FindBlankFrom(g, 0)
  }

  /** The scan of `FindBlank`, resumed at flat index `k`. */
  function FindBlankFrom(g: Grid, k: nat): (r: Option<Pos>)
    requires k <= 9
    requires forall i :: 0 <= i < k ==> g[i] != 0
    ensures r.Some? ==> InBounds(r.value) && g[Index(r.value)] == 0
    ensures r.Some? ==> forall i :: 0 <= i < Index(r.value) ==> g[i] != 0
    ensures r.None? <==> 0 !in g
    decreases 9 - k
  {
    if k == 9 then None
    else if g[k] == 0 then Some(PosOf(k))
    else FindBlankFrom(g, k + 1)
  }

  /** The blank of a board known to have one. */
  function Blank(g: Grid): (b: Pos)
    requires 0 in g
    ensures InBounds(b) && g[Index(b)] == 0
  {
    FindBlank(g).value
  }

  /** Distinct positions on the board have distinct flat indices. */
  lemma IndexInjective(p: Pos, q: Pos)
    requires InBounds(p) && InBounds(q) && Index(p) == Index(q)
    ensures p == q
  {
  }

  /** On a legal configuration the blank found is the only cell holding 0. */
  lemma BlankIsUnique(g: Grid, p: Pos)
    requires IsPermutation(g)
    requires InBounds(p) && g[Index(p)] == 0
    ensures FindBlank(g) == Some(p)
  {
    var b := FindBlank(g).value;
    assert Index(b) == Index(p);
    IndexInjective(b, p);
  }

  /** The default goal is a legal configuration whose blank is the bottom-right cell. */
  lemma DefaultGoalLegal()
    ensures IsPermutation(DefaultGoal)
    ensures FindBlank(DefaultGoal) == Some(Pos(2, 2))
  {
    assert forall i :: 0 <= i < 9 ==> DefaultGoal[i] == (i + 1) % 9;
    BlankIsUnique(DefaultGoal, Pos(2, 2));
  }
}
