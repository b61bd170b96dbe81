/**
  The solvability gate `is_solvable`: drop the blank, read the tiles row by
  row, and count the inversions (pairs in the wrong relative order); the
  puzzle is solvable when that count is even.

  Besides the gate itself this module proves why it is sound: on a legal
  board every move keeps the parity of the inversion count, so a legal board
  whose parity differs from the goal's can never reach the goal.
*/
module Solvability {
  import opened Wrappers
  import opened Puzzle
  import opened Moves

  /** The flattened tiles of a board with the blank dropped. */
  function NonBlank(s: seq<int>): (r: seq<int>)
    ensures |r| <= |s|
    ensures 0 !in r
  {
    if |s| == 0 then []
    else (if s[0] != 0 then [s[0]] else []) + NonBlank(s[1..])
  }

  /** How many elements of `t` are smaller than `x`. */
  function CountBelow(x: int, t: seq<int>): (r: nat)
    ensures r <= |t|
  {
    if |t| == 0 then 0
    else CountBelow(x, t[..|t| - 1]) + (if t[|t| - 1] < x then 1 else 0)
  }

  /** The number of pairs i < j with s[i] > s[j]. */
  function Inversions(s: seq<int>): nat {
    if |s| == 0 then 0 else CountBelow(s[0], s[1..]) + Inversions(s[1..])
  }

  /** The reference meaning of `is_solvable`: an even number of inversions among the tiles. */
  predicate Solvable(g: Grid) {
    Inversions(NonBlank(g)) % 2 == 0
  }

  /** The inversion count of `is_solvable`: for each tile, how many later tiles are smaller. */
  method CountInversions(flat: seq<int>) returns (inversions: nat)
    ensures inversions == Inversions(flat)
  {
    inversions := 0;
    var i := 0;
    while i < |flat|
      invariant 0 <= i <= |flat|
      invariant inversions + Inversions(flat[i..]) == Inversions(flat)
    {
      assert Inversions(flat[i..]) == CountBelow(flat[i], flat[i + 1..]) + Inversions(flat[i + 1..]) by {
        assert flat[i..] == [flat[i]] + flat[i + 1..];
        InversionsCons(flat[i], flat[i + 1..]);
      }
      var smaller := CountSmallerAfter(flat, i);
      inversions := inversions + smaller;
      i := i + 1;
    }
  }

  /** The inner loop of `is_solvable`: how many tiles after position `i` are smaller than the tile there. */
  method CountSmallerAfter(flat: seq<int>, i: nat) returns (count: nat)
    requires i < |flat|
    ensures count == CountBelow(flat[i], flat[i + 1..])
  {
    count := 0;
    var j := i + 1;
    while j < |flat|
      invariant i + 1 <= j <= |flat|
      invariant count == CountBelow(flat[i], flat[i + 1..j])
    {
      assert flat[i + 1..j + 1] == flat[i + 1..j] + [flat[j]];
      CountBelowSnoc(flat[i], flat[i + 1..j], flat[j]);
      if flat[i] > flat[j] {
        count := count + 1;
      }
      j := j + 1;
    }
    assert flat[i + 1..j] == flat[i + 1..];
  }

  /** `is_solvable`: the tiles, blank dropped, hold an even number of inversions. */
  method IsSolvable(g: Grid) returns (solvable: bool)
    ensures solvable <==> Solvable(g)
  {
    var flat := NonBlank(g);
    var inversions := CountInversions(flat);
    solvable := inversions % 2 == 0;
  }

  /** The goal is the tiles 1..8 in order with the blank after them. */
  lemma GoalLayout()
    ensures DefaultGoal == [1, 2, 3, 4, 5, 6, 7, 8] + [0] + []
  {
  }

  /** The goal 1..8 with the blank last has no inversion at all. */
  lemma DefaultGoalSolvable()
    ensures Inversions(NonBlank(DefaultGoal)) == 0
    ensures Solvable(DefaultGoal)
  {
    GoalLayout();
    SortedThenBlank([1, 2, 3, 4, 5, 6, 7, 8]);
  }

  /** A board whose tiles are in increasing order, followed by the blank, has no inversion. */
  lemma SortedThenBlank(tiles: seq<int>)
    requires 0 !in tiles
    requires forall i, j :: 0 <= i < j < |tiles| ==> tiles[i] < tiles[j]
    ensures Inversions(NonBlank(tiles + [0] + [])) == 0
  {
    assert NonBlank(tiles + [0] + []) == tiles by {
      DropOneBlank(tiles, []);
      assert tiles + [] == tiles;
    }
    SortedNoInversions(tiles);
  }

  // ---------------------------------------------------------------------------
  // Unfolding the definitions one element at a time.
  // ---------------------------------------------------------------------------

  lemma NonBlankCons(x: int, t: seq<int>)
    ensures NonBlank([x] + t) == (if x != 0 then [x] else []) + NonBlank(t)
  {
    assert ([x] + t)[1..] == t;
  }

  lemma InversionsCons(x: int, t: seq<int>)
    ensures Inversions([x] + t) == CountBelow(x, t) + Inversions(t)
  {
    assert ([x] + t)[1..] == t;
  }

  lemma CountBelowSnoc(x: int, t: seq<int>, y: int)
    ensures CountBelow(x, t + [y]) == CountBelow(x, t) + (if y < x then 1 else 0)
  {
    assert (t + [y])[..|t|] == t;
  }

  lemma CountBelowCons(x: int, y: int, t: seq<int>)
    ensures CountBelow(x, [y] + t) == (if y < x then 1 else 0) + CountBelow(x, t)
  {
    CountBelowConcat(x, [y], t);
    assert [y][..0] == [];
  }

  lemma CrossCons(x: int, u: seq<int>, w: seq<int>)
    ensures Cross([x] + u, w) == CountBelow(x, w) + Cross(u, w)
  {
    assert ([x] + u)[1..] == u;
  }

  lemma {:induction false} NonBlankConcat(u: seq<int>, w: seq<int>)
    ensures NonBlank(u + w) == NonBlank(u) + NonBlank(w)
  {
    if |u| == 0 {
      assert u + w == w;
    } else {
      assert (u + w)[0] == u[0] && (u + w)[1..] == u[1..] + w;
      NonBlankConcat(u[1..], w);
    }
  }

  lemma {:induction false} CountBelowConcat(x: int, u: seq<int>, w: seq<int>)
    ensures CountBelow(x, u + w) == CountBelow(x, u) + CountBelow(x, w)
  {
    if |w| == 0 {
      assert u + w == u;
    } else {
      assert (u + w)[..|u + w| - 1] == u + w[..|w| - 1];
      assert (u + w)[|u + w| - 1] == w[|w| - 1];
      CountBelowConcat(x, u, w[..|w| - 1]);
    }
  }

  /** The pairs with the first element in `u` and the second in `w` that are inverted. */
  function Cross(u: seq<int>, w: seq<int>): nat {
    if |u| == 0 then 0 else CountBelow(u[0], w) + Cross(u[1..], w)
  }

  lemma {:induction false} InversionsConcat(u: seq<int>, w: seq<int>)
    ensures Inversions(u + w) == Inversions(u) + Inversions(w) + Cross(u, w)
  {
    if |u| == 0 {
      assert u + w == w;
    } else {
      assert u + w == [u[0]] + (u[1..] + w);
      assert u == [u[0]] + u[1..];
      InversionsCons(u[0], u[1..] + w);
      InversionsCons(u[0], u[1..]);
      CrossCons(u[0], u[1..], w);
      CountBelowConcat(u[0], u[1..], w);
      InversionsConcat(u[1..], w);
    }
  }

  lemma {:induction false} CrossConcat(x: seq<int>, u: seq<int>, w: seq<int>)
    ensures Cross(x, u + w) == Cross(x, u) + Cross(x, w)
  {
    if |x| > 0 {
      CountBelowConcat(x[0], u, w);
      CrossConcat(x[1..], u, w);
    }
  }

  // ---------------------------------------------------------------------------
  // Parity is invariant under moves.
  // ---------------------------------------------------------------------------

  lemma CountBelowThree(x: int, v: int, a: int, c: int)
    ensures CountBelow(x, [v, a, c]) == (if v < x then 1 else 0) + (if a < x then 1 else 0) + (if c < x then 1 else 0)
  {
    assert [v, a, c] == [v] + ([a] + [c]);
    CountBelowCons(x, v, [a] + [c]);
    CountBelowCons(x, a, [c]);
    CountBelowCons(x, c, []);
    assert [c] == [c] + [];
  }

  lemma CrossThree(v: int, a: int, c: int, y: seq<int>)
    ensures Cross([v, a, c], y) == CountBelow(v, y) + CountBelow(a, y) + CountBelow(c, y)
  {
    assert [v, a, c] == [v] + ([a] + ([c] + []));
    CrossCons(v, [a] + ([c] + []), y);
    CrossCons(a, [c] + [], y);
    CrossCons(c, [], y);
  }

  lemma InversionsThree(v: int, a: int, c: int)
    ensures Inversions([v, a, c]) == (if a < v then 1 else 0) + (if c < v then 1 else 0) + (if c < a then 1 else 0)
  {
    assert [v, a, c] == [v] + ([a] + [c]);
    InversionsCons(v, [a] + [c]);
    InversionsCons(a, [c]);
    CountBelowCons(v, a, [c]);
    CountBelowCons(v, c, []);
    CountBelowCons(a, c, []);
    assert [c] == [c] + [];
    InversionsCons(c, []);
  }

  lemma {:induction false} CrossRotate(x: seq<int>, v: int, a: int, c: int)
    ensures Cross(x, [v, a, c]) == Cross(x, [a, c, v])
  {
    if |x| > 0 {
      CountBelowThree(x[0], v, a, c);
      CountBelowThree(x[0], a, c, v);
      CrossRotate(x[1..], v, a, c);
    }
  }

  /**
    Moving one element past two others changes the inversion count by an even
    amount, when it differs from both.
  */
  lemma RotateParity(x: seq<int>, v: int, a: int, c: int, y: seq<int>)
    requires v != a && v != c
    ensures Inversions(x + [v, a, c] + y) % 2 == Inversions(x + [a, c, v] + y) % 2
  {
    var m1, m2 := [v, a, c], [a, c, v];
    InversionsThreeParts(x, m1, y);
    InversionsThreeParts(x, m2, y);
    assert Cross(x, m1) == Cross(x, m2) by {
      CrossRotate(x, v, a, c);
    }
    assert Cross(m1, y) == Cross(m2, y) by {
      CrossThree(v, a, c, y);
      CrossThree(a, c, v, y);
    }
    assert Inversions(m1) % 2 == Inversions(m2) % 2 by {
      InversionsThree(v, a, c);
      InversionsThree(a, c, v);
    }
  }

  /** The inversions of three consecutive stretches: those inside each and those across each pair. */
  lemma InversionsThreeParts(x: seq<int>, m: seq<int>, y: seq<int>)
    ensures Inversions(x + m + y) == Inversions(x) + Inversions(m) + Inversions(y) + Cross(x, m) + Cross(x, y) + Cross(m, y)
  {
    assert x + m + y == x + (m + y);
    InversionsConcat(x, m + y);
    InversionsConcat(m, y);
    CrossConcat(x, m, y);
  }

  /** Two cells, one of them blank, hold the same tiles in either order. */
  lemma NonBlankPair(x: int, y: int)
    requires x == 0 || y == 0
    ensures NonBlank([x, y]) == NonBlank([y, x])
  {
    assert [x, y] == [x] + [y] && [y, x] == [y] + [x];
    assert [x] == [x] + [] && [y] == [y] + [];
    NonBlankCons(x, [y]);
    NonBlankCons(y, [x]);
    NonBlankCons(x, []);
    NonBlankCons(y, []);
  }

  /** Exchanging a blank with its neighbour does not change the tiles read in order. */
  lemma SwapBlankKeepsTiles(pre: seq<int>, x: int, y: int, post: seq<int>)
    requires x == 0 || y == 0
    ensures NonBlank(pre + [x, y] + post) == NonBlank(pre + [y, x] + post)
  {
    NonBlankConcat(pre + [x, y], post);
    NonBlankConcat(pre, [x, y]);
    NonBlankConcat(pre + [y, x], post);
    NonBlankConcat(pre, [y, x]);
    NonBlankPair(x, y);
  }

  /** A horizontal move leaves the tiles, read row by row, exactly as they were. */
  lemma HorizontalKeepsTiles(g: Grid, lo: nat)
    requires lo + 1 < 9
    requires g[lo] == 0 || g[lo + 1] == 0
    ensures NonBlank(g[lo := g[lo + 1]][lo + 1 := g[lo]]) == NonBlank(g)
  {
    var pre, post := g[..lo], g[lo + 2..];
    assert g == pre + [g[lo], g[lo + 1]] + post;
    assert g[lo := g[lo + 1]][lo + 1 := g[lo]] == pre + [g[lo + 1], g[lo]] + post;
    SwapBlankKeepsTiles(pre, g[lo], g[lo + 1], post);
  }

  /** The tiles of a four-cell stretch whose only blank is at one end. */
  lemma NonBlankFour(p: int, a: int, c: int, q: int)
    requires a != 0 && c != 0
    ensures p == 0 && q != 0 ==> NonBlank([p, a, c, q]) == [a, c, q]
    ensures p != 0 && q == 0 ==> NonBlank([p, a, c, q]) == [p, a, c]
  {
    assert [p, a, c, q] == [p] + ([a] + ([c] + ([q] + [])));
    NonBlankCons(p, [a] + ([c] + ([q] + [])));
    NonBlankCons(a, [c] + ([q] + []));
    NonBlankCons(c, [q] + []);
    NonBlankCons(q, []);
  }

  /**
    A vertical move carries one tile past the two tiles between the blank and
    its target, so the inversion count changes by an even amount.
  */
  lemma VerticalKeepsParity(g: Grid, lo: nat)
    requires lo + 3 < 9
    requires (g[lo] == 0) != (g[lo + 3] == 0)
    requires g[lo + 1] != 0 && g[lo + 2] != 0
    requires g[lo] != g[lo + 1] && g[lo] != g[lo + 2] && g[lo + 3] != g[lo + 1] && g[lo + 3] != g[lo + 2]
    ensures Inversions(NonBlank(g[lo := g[lo + 3]][lo + 3 := g[lo]])) % 2 == Inversions(NonBlank(g)) % 2
  {
    var g' := g[lo := g[lo + 3]][lo + 3 := g[lo]];
    var pre, post := g[..lo], g[lo + 4..];
    var a, c := g[lo + 1], g[lo + 2];
    var mid, mid' := [g[lo], a, c, g[lo + 3]], [g[lo + 3], a, c, g[lo]];
    assert g == pre + mid + post;
    assert g' == pre + mid' + post;
    NonBlankConcat(pre + mid, post);
    NonBlankConcat(pre, mid);
    NonBlankConcat(pre + mid', post);
    NonBlankConcat(pre, mid');
    NonBlankFour(g[lo], a, c, g[lo + 3]);
    NonBlankFour(g[lo + 3], a, c, g[lo]);
    if g[lo] == 0 {
      RotateParity(NonBlank(pre), g[lo + 3], a, c, NonBlank(post));
    } else {
      RotateParity(NonBlank(pre), g[lo], a, c, NonBlank(post));
    }
  }

  /** Every move keeps a legal board's solvability. */
  lemma MovePreservesSolvable(g: Grid, a: Action)
    requires IsPermutation(g) && Apply(g, a).Some?
    ensures Solvable(Apply(g, a).value) == Solvable(g)
  {
    if a == Left || a == Right {
      HorizontalMoveKeepsTiles(g, a);
    } else {
      VerticalMoveKeepsParity(g, a);
    }
  }

  lemma HorizontalMoveKeepsTiles(g: Grid, a: Action)
    requires IsPermutation(g) && Apply(g, a).Some? && (a == Left || a == Right)
    ensures NonBlank(Apply(g, a).value) == NonBlank(g)
  {
    var bi, ti := Index(Blank(g)), Index(Target(Blank(g), a));
    var s := Apply(g, a).value;
    assert g[bi] == 0 && s == g[bi := g[ti]][ti := 0];
    if a == Right {
      assert ti == bi + 1 && s == g[bi := g[bi + 1]][bi + 1 := g[bi]];
      HorizontalKeepsTiles(g, bi);
    } else {
      assert bi == ti + 1 && s == g[ti := g[ti + 1]][ti + 1 := g[ti]];
      HorizontalKeepsTiles(g, ti);
    }
  }

  lemma VerticalMoveKeepsParity(g: Grid, a: Action)
    requires IsPermutation(g) && Apply(g, a).Some? && (a == Up || a == Down)
    ensures Inversions(NonBlank(Apply(g, a).value)) % 2 == Inversions(NonBlank(g)) % 2
  {
    var bi, ti := Index(Blank(g)), Index(Target(Blank(g), a));
    var lo := if bi < ti then bi else ti;
    assert g[bi] == 0 && lo + 3 < 9;
    assert Apply(g, a).value == g[lo := g[lo + 3]][lo + 3 := g[lo]];
    VerticalKeepsParity(g, lo);
  }

  // ---------------------------------------------------------------------------
  // The two boards the program itself uses.
  // ---------------------------------------------------------------------------

  lemma {:induction false} CountBelowNone(x: int, t: seq<int>)
    requires forall k :: 0 <= k < |t| ==> x <= t[k]
    ensures CountBelow(x, t) == 0
  {
    if |t| > 0 {
      CountBelowNone(x, t[..|t| - 1]);
    }
  }

  lemma {:induction false} CountBelowAll(x: int, t: seq<int>)
    requires forall k :: 0 <= k < |t| ==> t[k] < x
    ensures CountBelow(x, t) == |t|
  {
    if |t| > 0 {
      CountBelowAll(x, t[..|t| - 1]);
    }
  }

  /** A strictly increasing sequence has no inversion. */
  lemma {:induction false} SortedNoInversions(s: seq<int>)
    requires forall i, j :: 0 <= i < j < |s| ==> s[i] < s[j]
    ensures Inversions(s) == 0
  {
    if |s| > 0 {
      CountBelowNone(s[0], s[1..]);
      SortedNoInversions(s[1..]);
    }
  }

  /** No inversion runs from `u` into `w` when every element of `u` is at most every element of `w`. */
  lemma {:induction false} CrossNone(u: seq<int>, w: seq<int>)
    requires forall i, j :: 0 <= i < |u| && 0 <= j < |w| ==> u[i] <= w[j]
    ensures Cross(u, w) == 0
  {
    if |u| > 0 {
      CountBelowNone(u[0], w);
      CrossNone(u[1..], w);
    }
  }

  /** In a strictly decreasing sequence every pair is inverted. */
  lemma {:induction false} StrictlyDecreasingInversions(s: seq<int>)
    requires forall i, j :: 0 <= i < j < |s| ==> s[i] > s[j]
    ensures 2 * Inversions(s) == |s| * (|s| - 1)
  {
    if |s| > 0 {
      CountBelowAll(s[0], s[1..]);
      StrictlyDecreasingInversions(s[1..]);
    }
  }

  /** Dropping the blank from a stretch without one changes nothing. */
  lemma {:induction false} NoBlankKept(s: seq<int>)
    requires 0 !in s
    ensures NonBlank(s) == s
  {
    if |s| > 0 {
      assert s == [s[0]] + s[1..];
      NonBlankCons(s[0], s[1..]);
      NoBlankKept(s[1..]);
    }
  }

  /** Dropping the blank from a blank followed by a stretch without one leaves the stretch. */
  lemma BlankThenKept(w: seq<int>)
    requires 0 !in w
    ensures NonBlank([0] + w) == w
  {
    NonBlankCons(0, w);
    NoBlankKept(w);
  }

  /** The tiles of a board with a single blank are the cells before it followed by the cells after it. */
  lemma DropOneBlank(u: seq<int>, w: seq<int>)
    requires 0 !in u && 0 !in w
    ensures NonBlank(u + [0] + w) == u + w
  {
    assert u + [0] + w == u + ([0] + w);
    assert NonBlank(u + ([0] + w)) == NonBlank(u) + NonBlank([0] + w) by {
      NonBlankConcat(u, [0] + w);
    }
    BlankThenKept(w);
    NoBlankKept(u);
  }

  /** Inversions of a sorted run followed by a larger descending run. */
  lemma SortedThenDescending(lo: seq<int>, hi: seq<int>)
    requires forall i, j :: 0 <= i < j < |lo| ==> lo[i] < lo[j]
    requires forall i, j :: 0 <= i < j < |hi| ==> hi[i] > hi[j]
    requires forall i, j :: 0 <= i < |lo| && 0 <= j < |hi| ==> lo[i] <= hi[j]
    ensures 2 * Inversions(lo + hi) == |hi| * (|hi| - 1)
  {
    InversionsConcat(lo, hi);
    SortedNoInversions(lo);
    CrossNone(lo, hi);
    StrictlyDecreasingInversions(hi);
  }

  /**
    The inversions of a board whose tiles, read around its blank, are a sorted
    run followed by a descending run of larger tiles.
  */
  lemma BlankBetweenRuns(g: seq<int>, u: seq<int>, w: seq<int>, lo: seq<int>, hi: seq<int>)
    requires g == u + [0] + w && 0 !in u && 0 !in w && u + w == lo + hi
    requires forall i, j :: 0 <= i < j < |lo| ==> lo[i] < lo[j]
    requires forall i, j :: 0 <= i < j < |hi| ==> hi[i] > hi[j]
    requires forall i, j :: 0 <= i < |lo| && 0 <= j < |hi| ==> lo[i] <= hi[j]
    ensures 2 * Inversions(NonBlank(g)) == |hi| * (|hi| - 1)
  {
    DropOneBlank(u, w);
    SortedThenDescending(lo, hi);
  }

  /** The default start of the program, 1 2 3 / 4 8 0 / 7 6 5, has six inversions and passes the gate. */
  lemma DefaultStartSolvable()
    ensures var g: Grid := [1, 2, 3, 4, 8, 0, 7, 6, 5]; Inversions(NonBlank(g)) == 6 && Solvable(g)
  {
    BlankBetweenRuns([1, 2, 3, 4, 8, 0, 7, 6, 5], [1, 2, 3, 4, 8], [7, 6, 5], [1, 2, 3, 4], [8, 7, 6, 5]);
  }

  /** Swapping the last two tiles of the goal gives one inversion: the gate rejects it. */
  lemma SwappedGoalUnsolvable()
    ensures var g: Grid := [1, 2, 3, 4, 5, 6, 8, 7, 0]; Inversions(NonBlank(g)) == 1 && !Solvable(g)
  {
    BlankBetweenRuns([1, 2, 3, 4, 5, 6, 8, 7, 0], [1, 2, 3, 4, 5, 6, 8, 7], [], [1, 2, 3, 4, 5, 6], [8, 7]);
  }
}
