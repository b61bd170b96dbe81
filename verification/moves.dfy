/**
  The transition model of `Problem.get_successors`: the blank moves one cell
  LEFT, RIGHT, UP or DOWN by trading places with the tile there.
*/
module Moves {
  import opened Wrappers
  import opened Puzzle

  /** The direction in which the blank moves. */
  datatype Action = Left | Right | Up | Down

  /**
    A move paired with the board it produces. `get_successors` yields
    (state, action) pairs and `reconstruct_path` (action, state) pairs; both
    are this record.
  */
  datatype Step = Step(action: Action, state: Grid)

  /** The place of a move in the table of `get_successors`, which tries LEFT, RIGHT, UP, DOWN in that order. */
  function Rank(a: Action): (n: nat)
    ensures n < 4
  {
    match a
    case Left => 0
    case Right => 1
    case Up => 2
    case Down => 3
  }

  /** The move `get_successors` tries in place `n`. */
  function MoveAt(n: nat): (a: Action)
    requires n < 4
    ensures Rank(a) == n
  {
    if n == 0 then Left else if n == 1 then Right else if n == 2 then Up else Down
  }

  /** The row and column offsets of the move table of `get_successors`. */
  function Offset(a: Action): (int, int) {
    match a
    case Left => (0, -1)
    case Right => (0, 1)
    case Up => (-1, 0)
    case Down => (1, 0)
  }

  /** The cell one step from `b` in direction `a`. */
  function Target(b: Pos, a: Action): Pos {
    Pos(b.row + Offset(a).0, b.col + Offset(a).1)
  }

  /** The move that undoes `a`. */
  function Opposite(a: Action): Action {
    match a
    case Left => Right
    case Right => Left
    case Up => Down
    case Down => Up
  }

  /**
    One move of the blank: the blank cell takes the tile of the target cell and
    the target cell becomes 0. `None` when the target is off the board or the
    board has no blank.
  */
  function Apply(g: Grid, a: Action): (r: Option<Grid>)
    ensures r.Some? <==> 0 in g && InBounds(Target(Blank(g), a))
  {
    match FindBlank(g)
    case None => None
    case Some(b) =>
      var t := Target(b, a);
      if InBounds(t) then Some(g[Index(b) := g[Index(t)]][Index(t) := 0]) else None
  }

  /**
    `Problem.get_successors`: every in-bounds move, in the order LEFT, RIGHT,
    UP, DOWN, with the board it produces. `eight_puzzle_project1.py` unpacks the blank's
    position, so it needs a board that has one.
  */
  function Successors(g: Grid): (r: seq<Step>)
    requires 0 in g
    ensures forall st :: st in r <==> Apply(g, st.action) == Some(st.state)
    ensures forall k, l :: 0 <= k < l < |r| ==> Rank(r[k].action) < Rank(r[l].action)
  {
    SuccessorsFrom(g, 0)
  }

  /** The loop of `get_successors` from the move in place `n` onwards. */
  function SuccessorsFrom(g: Grid, n: nat): (r: seq<Step>)
    requires n <= 4
    ensures forall st :: st in r <==> n <= Rank(st.action) && Apply(g, st.action) == Some(st.state)
    ensures forall k, l :: 0 <= k < l < |r| ==> Rank(r[k].action) < Rank(r[l].action)
    decreases 4 - n
  {
    if n == 4 then []
    else
      var rest := SuccessorsFrom(g, n + 1);
      PlaceStep(g, n, rest);
      match Apply(g, MoveAt(n))
      case Some(s) =>
        assert forall k :: 0 <= k < |rest| ==> rest[k] in rest;
        [Step(MoveAt(n), s)] + rest
      case None => rest
  }

  /** Place `n` of the move table contributes its move exactly when that move stays on the board. */
  lemma PlaceStep(g: Grid, n: nat, rest: seq<Step>)
    requires n < 4
    requires forall st :: st in rest <==> n + 1 <= Rank(st.action) && Apply(g, st.action) == Some(st.state)
    ensures Apply(g, MoveAt(n)).None? ==>
      forall st :: st in rest <==> n <= Rank(st.action) && Apply(g, st.action) == Some(st.state)
    ensures Apply(g, MoveAt(n)).Some? ==> forall st ::
      st in [Step(MoveAt(n), Apply(g, MoveAt(n)).value)] + rest <==> n <= Rank(st.action) && Apply(g, st.action) == Some(st.state)
  {
    forall st: Step | Rank(st.action) == n
      ensures st.action == MoveAt(n)
    {
      RankPicks(st.action, n);
    }
  }

  /** The move table holds one move per place. */
  lemma RankPicks(a: Action, n: nat)
    requires n < 4 && Rank(a) == n
    ensures a == MoveAt(n)
  {
  }

  /**
    What a successor looks like: the target is one step from the blank in the
    labelled direction, the old blank cell now holds the target's tile, the
    target holds 0, every other cell is unchanged, and a legal configuration
    stays legal.
  */
  lemma SuccessorShape(g: Grid, k: nat)
    requires IsPermutation(g) && 0 in g
    requires k < |Successors(g)|
    ensures var b := Blank(g); var t := Target(b, Successors(g)[k].action); var s := Successors(g)[k].state;
      && InBounds(t)
      && s[Index(b)] == g[Index(t)]
      && s[Index(t)] == 0
      && (forall i :: 0 <= i < 9 && i != Index(b) && i != Index(t) ==> s[i] == g[i])
      && IsPermutation(s)
  {
    ApplyPreservesPermutation(g, Successors(g)[k].action);
  }

  /** A move keeps a legal configuration legal: it exchanges two cells. */
  lemma ApplyPreservesPermutation(g: Grid, a: Action)
    requires IsPermutation(g) && Apply(g, a).Some?
    ensures IsPermutation(Apply(g, a).value)
  {
    var b := Index(Blank(g));
    var t := Index(Target(Blank(g), a));
    var s := Apply(g, a).value;
    assert b != t;
    forall i, j | 0 <= i < j < 9
      ensures s[i] != s[j]
    {
      var i' := if i == b then t else if i == t then b else i;
      var j' := if j == b then t else if j == t then b else j;
      assert s[i] == g[i'] && s[j] == g[j'] && i' != j';
    }
  }

  /** A move only moves values around: the board keeps a blank and gains no value it did not hold. */
  lemma ApplyKeepsCells(g: Grid, a: Action)
    requires Apply(g, a).Some?
    ensures 0 in Apply(g, a).value
    ensures forall x :: x in Apply(g, a).value ==> x in g
  {
    var b, t := Index(Blank(g)), Index(Target(Blank(g), a));
    var s := Apply(g, a).value;
    assert s == g[b := g[t]][t := 0] && s[t] == 0;
    forall x | x in s
      ensures x in g
    {
      var i :| 0 <= i < 9 && s[i] == x;
      if i != b && i != t {
        assert g[i] == x;
      } else if i == b {
        assert g[t] == x;
      } else {
        assert g[b] == x;
      }
    }
  }

  /** The number of successors: 2 for a corner blank, 3 for an edge blank, 4 for the centre. */
  lemma SuccessorCount(g: Grid)
    requires 0 in g
    ensures var b := Blank(g);
      |Successors(g)| == (if b == Pos(1, 1) then 4 else if b.row != 1 && b.col != 1 then 2 else 3)
  {
    SuccessorsFromLength(g, 0);
    CountOnBoardAll(Blank(g));
    NeighbourCount(Blank(g));
  }

  /** The count over the whole move table is one term per move. */
  lemma CountOnBoardAll(b: Pos)
    ensures CountOnBoard(b, 0) == OnBoard(b, Left) + OnBoard(b, Right) + OnBoard(b, Up) + OnBoard(b, Down)
  {
    assert CountOnBoard(b, 3) == OnBoard(b, Down) + CountOnBoard(b, 4);
    assert CountOnBoard(b, 2) == OnBoard(b, Up) + CountOnBoard(b, 3);
    assert CountOnBoard(b, 1) == OnBoard(b, Right) + CountOnBoard(b, 2);
  }

  /** A corner cell has 2 neighbours on the board, an edge cell 3, the centre 4. */
  lemma NeighbourCount(b: Pos)
    requires InBounds(b)
    ensures OnBoard(b, Left) + OnBoard(b, Right) + OnBoard(b, Up) + OnBoard(b, Down)
      == (if b == Pos(1, 1) then 4 else if b.row != 1 && b.col != 1 then 2 else 3)
  {
    assert OnBoard(b, Left) == (if b.col > 0 then 1 else 0);
    assert OnBoard(b, Right) == (if b.col < 2 then 1 else 0);
    assert OnBoard(b, Up) == (if b.row > 0 then 1 else 0);
    assert OnBoard(b, Down) == (if b.row < 2 then 1 else 0);
  }

  /** 1 when the move from `b` in direction `a` stays on the board, else 0. */
  function OnBoard(b: Pos, a: Action): nat {
    if InBounds(Target(b, a)) then 1 else 0
  }

  /** How many moves from place `n` of the table onwards stay on the board from `b`. */
  function CountOnBoard(b: Pos, n: nat): nat
    requires n <= 4
    decreases 4 - n
  {
    if n == 4 then 0 else OnBoard(b, MoveAt(n)) + CountOnBoard(b, n + 1)
  }

  lemma {:induction false} SuccessorsFromLength(g: Grid, n: nat)
    requires 0 in g && n <= 4
    ensures |SuccessorsFrom(g, n)| == CountOnBoard(Blank(g), n)
    decreases 4 - n
  {
    if n < 4 {
      SuccessorsFromLength(g, n + 1);
    }
  }

  /** Moving the blank back the way it came restores the board. */
  lemma MoveUndo(g: Grid, a: Action)
    requires IsPermutation(g) && Apply(g, a).Some?
    ensures Apply(Apply(g, a).value, Opposite(a)) == Some(g)
  {
    var b := Blank(g);
    var t := Target(b, a);
    var s := Apply(g, a).value;
    assert FindBlank(s) == Some(t) && s == g[Index(b) := g[Index(t)]][Index(t) := 0] by {
      ApplyPreservesPermutation(g, a);
      BlankIsUnique(s, t);
    }
    assert Target(t, Opposite(a)) == b by {
      match a
      case Left =>
      case Right =>
      case Up =>
      case Down =>
    }
    assert Apply(s, Opposite(a)) == Some(s[Index(t) := s[Index(b)]][Index(b) := 0]) by {
      ApplyFrom(s, t, Opposite(a));
    }
    SwapBack(g, Index(b), Index(t));
  }

  /** The move from a board whose blank is known. */
  lemma ApplyFrom(g: Grid, b: Pos, a: Action)
    requires FindBlank(g) == Some(b) && InBounds(Target(b, a))
    ensures Apply(g, a) == Some(g[Index(b) := g[Index(Target(b, a))]][Index(Target(b, a)) := 0])
  {
  }

  /** Trading a blank with a tile and then back restores the board. */
  lemma SwapBack(g: Grid, i: nat, j: nat)
    requires i < 9 && j < 9 && i != j && g[i] == 0
    ensures var s := g[i := g[j]][j := 0]; s[j := s[i]][i := 0] == g
  {
    var s := g[i := g[j]][j := 0];
    var u := s[j := s[i]][i := 0];
    forall k | 0 <= k < 9
      ensures u[k] == g[k]
    {
    }
  }
}
