/** The two distance measures of Board.java (hamming, manhattan), the goal
    cell of a tile, and the goal test. The source caches both measures in
    fields with -1 meaning "not computed yet"; here they are pure functions
    of the tiles, so every call returns the same value. */
module Heuristics {
  import opened Grid
  import opened Boards

  /* ---------- Java integer arithmetic ---------- */

  /** Java's int division truncates toward zero. */
  function JavaDiv(a: int, n: int): int
    requires n > 0
  {
    if a >= 0 then a / n else -((-a) / n)
  }

  /** Java's int remainder takes the sign of the dividend. */
  function JavaRem(a: int, n: int): int
    requires n > 0
  {
    if a >= 0 then a % n else -((-a) % n)
  }

  /** Math.abs. */
  function Abs(x: int): nat {
    if x < 0 then -x else x
  }

  /* ---------- The goal cell of a tile ---------- */

  /** Where tile v belongs on the solved n-by-n board. */
  function GoalCell(v: int, n: int): Pos
    requires n >= 1
  {
    Pos((v - 1) / n, (v - 1) % n)
  }

  /** The goal cell as Board.calcManhattanDistance works it out: a multiple
      of n goes to the last column of the row above. */
  function GoalCellAsComputed(v: int, n: int): Pos
    requires n >= 1
  {
    if JavaRem(v, n) == 0 then Pos(JavaDiv(v, n) - 1, n - 1)
    else Pos(JavaDiv(v, n), JavaRem(v, n) - 1)
  }

  lemma DivModUnique(x: int, n: int, a: int, c: int)
    requires n >= 1 && 0 <= c < n && x == a * n + c
    ensures x / n == a && x % n == c
  {
    var q := x / n;
    if a > q {
      MulGap(a, q, n);
      assert false;
    } else if a < q {
      MulGap(q, a, n);
      assert false;
    }
  }

  lemma {:induction false} MulGap(a: int, q: int, n: int)
    requires a > q && n >= 1
    ensures a * n >= q * n + n
    decreases a - q
  {
    if a - 1 > q {
      MulGap(a - 1, q, n);
    }
    assert a * n == (a - 1) * n + n;
  }

  lemma GoalCellOfMultiple(v: int, n: int)
    requires n >= 1 && v >= 1 && v % n == 0
    ensures GoalCellAsComputed(v, n) == GoalCell(v, n)
  {
    DivModUnique(v - 1, n, v / n - 1, n - 1);
  }

  lemma GoalCellOfNonMultiple(v: int, n: int)
    requires n >= 1 && v >= 1 && v % n != 0
    ensures GoalCellAsComputed(v, n) == GoalCell(v, n)
  {
    DivModUnique(v - 1, n, v / n, v % n - 1);
  }

  lemma MulAtLeast(g: int, m: int, n: int)
    requires g >= m >= 0 && n >= 1
    ensures g * n >= m * n
  {
    if g > m {
      MulGap(g, m, n);
    }
  }

  lemma GoalRowBelowN(v: int, n: int)
    requires n >= 1 && 1 <= v <= n * n
    ensures 0 <= (v - 1) / n < n
  {
    var g := (v - 1) / n;
    if g >= n {
      MulAtLeast(g, n, n);
      assert false;
    }
  }

  /** The source's branches compute ((v-1)/n, (v-1)%n), a cell of the grid,
      for every tile 1 .. n*n. */
  lemma GoalCellFormula(v: int, n: int)
    requires n >= 1 && 1 <= v <= n * n
    ensures GoalCellAsComputed(v, n) == GoalCell(v, n)
    ensures 0 <= GoalCell(v, n).row < n && 0 <= GoalCell(v, n).col < n
  {
    if v % n == 0 {
      GoalCellOfMultiple(v, n);
    } else {
      GoalCellOfNonMultiple(v, n);
    }
    GoalRowBelowN(v, n);
  }

  /** Cell (i, j) is the goal cell of v exactly when v is the value the
      source expects there, i*n + j + 1. */
  lemma ExpectedValueIsGoalCell(v: int, i: int, j: int, n: int)
    requires n >= 1 && 0 <= i < n && 0 <= j < n && 1 <= v <= n * n
    ensures v == i * n + j + 1 <==> GoalCell(v, n) == Pos(i, j)
  {
    if v == i * n + j + 1 {
      DivModUnique(v - 1, n, i, j);
    }
  }

  /** Board.calcManhattanDistance: how many rows plus columns tile v,
      sitting at (row, col), is away from its goal cell. */
  function CalcManhattanDistance(v: int, row: int, col: int, n: int): (d: nat)
    requires n >= 1
    ensures 1 <= v <= n * n ==>
              d == Abs(row - GoalCell(v, n).row) + Abs(col - GoalCell(v, n).col)
  {
    var goal := GoalCellAsComputed(v, n);
    GoalCellAgrees(v, n);
    Abs(row - goal.row) + Abs(col - goal.col)
  }

  /** For tiles 1 .. n*n the source's branches find the goal cell. */
  lemma GoalCellAgrees(v: int, n: int)
    requires n >= 1
    ensures 1 <= v <= n * n ==> GoalCellAsComputed(v, n) == GoalCell(v, n)
  {
    if 1 <= v <= n * n {
      GoalCellFormula(v, n);
    }
  }

  /** The distance is zero exactly at the tile's goal cell. */
  lemma DistanceZeroAtGoal(v: int, row: int, col: int, n: int)
    requires n >= 1 && 1 <= v <= n * n
    ensures CalcManhattanDistance(v, row, col, n) == 0 <==> Pos(row, col) == GoalCell(v, n)
  {
  }

  /* ---------- Sums over the grid ---------- */

  /** The two per-cell measures the heuristics add up. */
  datatype Measure = Count | Distance

  /** The source's test for a tile that counts: not the expected value
      i*n + j + 1 of its cell, and not the blank. */
  predicate Misplaced(v: int, i: int, j: int, n: int) {
    v != i * n + j + 1 && v != 0
  }

  function Term(m: Measure, v: int, i: int, j: int, n: int): nat
    requires n >= 1
  {
    if !Misplaced(v, i, j, n) then 0
    else match m
      case Count => 1
      case Distance => CalcManhattanDistance(v, i, j, n)
  }

  /** The measure summed over cells (i, 0) .. (i, c-1). */
  function RowSum(t: Tiles, i: int, c: nat, m: Measure): nat
    requires IsSquare(t) && 0 <= i < |t| && c <= |t|
  {
    if c == 0 then 0 else RowSum(t, i, c - 1, m) + Term(m, t[i][c - 1], i, c - 1, |t|)
  }

  /** The measure summed over rows 0 .. k-1, in the source's row-major order. */
  function GridSum(t: Tiles, k: nat, m: Measure): nat
    requires IsSquare(t) && k <= |t|
  {
    if k == 0 then 0 else GridSum(t, k - 1, m) + RowSum(t, k - 1, |t|, m)
  }

  /** Board.hamming: at most one per cell. */
  function Hamming(b: Board): (r: nat)
    requires IsSquare(b.tiles)
    ensures r <= |b.tiles| * |b.tiles|
  {
    GridCountBound(b.tiles, |b.tiles|);
    GridSum(b.tiles, |b.tiles|, Count)
  }

  /** Board.manhattan. */
  function Manhattan(b: Board): nat
    requires IsSquare(b.tiles)
  {
    GridSum(b.tiles, |b.tiles|, Distance)
  }

  /** Board.isGoal: on a valid board, the same as hamming being zero. */
  predicate IsGoal(b: Board)
    requires IsSquare(b.tiles)
    ensures Valid(b) ==> (IsGoal(b) <==> Hamming(b) == 0)
  {
    ZeroTogether(b);
    Manhattan(b) == 0 || Hamming(b) == 0
  }

  /** On a valid board manhattan and hamming are zero together. */
  lemma ZeroTogether(b: Board)
    requires IsSquare(b.tiles)
    ensures Valid(b) ==> (Manhattan(b) == 0 <==> Hamming(b) == 0)
  {
    if Valid(b) {
      ManhattanDominatesHamming(b);
    }
  }

  /* ---------- Facts about the sums ---------- */

  lemma {:induction false} RowSumZeroIff(t: Tiles, i: int, c: nat, m: Measure)
    requires IsSquare(t) && 0 <= i < |t| && c <= |t|
    ensures RowSum(t, i, c, m) == 0 <==> forall j :: 0 <= j < c ==> Term(m, t[i][j], i, j, |t|) == 0
  {
    if c > 0 {
      RowSumZeroIff(t, i, c - 1, m);
    }
  }

  lemma {:induction false} GridSumZeroIff(t: Tiles, k: nat, m: Measure)
    requires IsSquare(t) && k <= |t|
    ensures GridSum(t, k, m) == 0 <==>
              forall i, j :: 0 <= i < k && 0 <= j < |t| ==> Term(m, t[i][j], i, j, |t|) == 0
  {
    if k > 0 {
      GridSumZeroIff(t, k - 1, m);
      RowSumZeroIff(t, k - 1, |t|, m);
    }
  }

  /** On a board whose tiles lie in 0 .. n*n-1, a misplaced tile is at
      least one step from home, so it adds at least as much distance as it
      adds count. */
  lemma CountAtMostDistance(t: Tiles, i: int, j: int)
    requires IsSquare(t) && InRange(t) && 0 <= i < |t| && 0 <= j < |t|
    ensures Term(Count, t[i][j], i, j, |t|) <= Term(Distance, t[i][j], i, j, |t|)
    ensures Term(Count, t[i][j], i, j, |t|) == 0 <==> Term(Distance, t[i][j], i, j, |t|) == 0
  {
    var n := |t|;
    var v := t[i][j];
    if Misplaced(v, i, j, n) {
      ExpectedValueIsGoalCell(v, i, j, n);
      DistanceZeroAtGoal(v, i, j, n);
    }
  }

  lemma {:induction false} RowSumCountAtMostDistance(t: Tiles, i: int, c: nat)
    requires IsSquare(t) && InRange(t) && 0 <= i < |t| && c <= |t|
    ensures RowSum(t, i, c, Count) <= RowSum(t, i, c, Distance)
  {
    if c > 0 {
      RowSumCountAtMostDistance(t, i, c - 1);
      CountAtMostDistance(t, i, c - 1);
    }
  }

  lemma {:induction false} GridSumCountAtMostDistance(t: Tiles, k: nat)
    requires IsSquare(t) && InRange(t) && k <= |t|
    ensures GridSum(t, k, Count) <= GridSum(t, k, Distance)
  {
    if k > 0 {
      GridSumCountAtMostDistance(t, k - 1);
      RowSumCountAtMostDistance(t, k - 1, |t|);
    }
  }

  /** A row contributes at most one per cell, and nothing for a blank. */
  lemma {:induction false} RowCountBound(t: Tiles, i: int, c: nat)
    requires IsSquare(t) && 0 <= i < |t| && c <= |t|
    ensures RowSum(t, i, c, Count) <= c
    ensures (exists j :: 0 <= j < c && t[i][j] == 0) ==> RowSum(t, i, c, Count) <= c - 1
  {
    if c > 0 {
      RowCountBound(t, i, c - 1);
    }
  }

  lemma {:induction false} GridCountBound(t: Tiles, k: nat)
    requires IsSquare(t) && k <= |t|
    ensures GridSum(t, k, Count) <= k * |t|
    ensures (exists i, j :: 0 <= i < k && 0 <= j < |t| && t[i][j] == 0) ==> GridSum(t, k, Count) <= k * |t| - 1
  {
    if k > 0 {
      GridCountBound(t, k - 1);
      RowCountBound(t, k - 1, |t|);
      assert (k - 1) * |t| + |t| == k * |t|;
      if exists i, j :: 0 <= i < k && 0 <= j < |t| && t[i][j] == 0 {
        var i, j :| 0 <= i < k && 0 <= j < |t| && t[i][j] == 0;
        if i == k - 1 {
          assert t[k - 1][j] == 0;
        }
      }
    }
  }

  /* ---------- What the heuristics mean ---------- */

  /** hamming() lies in 0 .. n*n-1: the blank never counts. */
  lemma HammingBounds(b: Board)
    requires Valid(b)
    ensures 0 <= Hamming(b) <= |b.tiles| * |b.tiles| - 1
  {
    EveryValuePresent(b.tiles, 0);
    GridCountBound(b.tiles, |b.tiles|);
  }

  /** hamming() is zero exactly when every cell holds the blank or the
      value the solved board has there. */
  lemma HammingZeroIff(b: Board)
    requires IsSquare(b.tiles)
    ensures var t := b.tiles;
            Hamming(b) == 0 <==>
              forall i, j :: 0 <= i < |t| && 0 <= j < |t| ==> t[i][j] == 0 || t[i][j] == i * |t| + j + 1
  {
    GridSumZeroIff(b.tiles, |b.tiles|, Count);
  }

  /** manhattan() is at least hamming(), and one is zero exactly when the
      other is. */
  lemma ManhattanDominatesHamming(b: Board)
    requires Valid(b)
    ensures Manhattan(b) >= Hamming(b)
    ensures Manhattan(b) == 0 <==> Hamming(b) == 0
  {
    var t := b.tiles;
    var n := |t|;
    GridSumCountAtMostDistance(t, n);
    GridSumZeroIff(t, n, Count);
    GridSumZeroIff(t, n, Distance);
    forall i, j | 0 <= i < n && 0 <= j < n
      ensures Term(Count, t[i][j], i, j, n) == 0 <==> Term(Distance, t[i][j], i, j, n) == 0
    {
      CountAtMostDistance(t, i, j);
    }
  }

  /** isGoal() holds exactly when every tile other than the blank sits at
      its goal cell ((v-1)/n, (v-1)%n). */
  lemma IsGoalIffTilesHome(b: Board)
    requires Valid(b)
    ensures var t := b.tiles;
            IsGoal(b) <==>
              forall i, j :: 0 <= i < |t| && 0 <= j < |t| && t[i][j] != 0 ==> GoalCell(t[i][j], |t|) == Pos(i, j)
  {
    var t := b.tiles;
    var n := |t|;
    ManhattanDominatesHamming(b);
    HammingZeroIff(b);
    forall i, j | 0 <= i < n && 0 <= j < n && t[i][j] != 0
      ensures t[i][j] == i * n + j + 1 <==> GoalCell(t[i][j], n) == Pos(i, j)
    {
      ExpectedValueIsGoalCell(t[i][j], i, j, n);
    }
  }

  /** The solved n-by-n board: 1 .. n*n-1 in row-major order, blank last. */
  function SolvedTiles(n: nat): (t: Tiles)
    ensures |t| == n && IsSquare(t)
  {
    seq(n, i => seq(n, j => if i == n - 1 && j == n - 1 then 0 else i * n + j + 1))
  }

  /** On a valid board, isGoal() holds exactly for the solved board. */
  lemma IsGoalIffSolved(b: Board)
    requires Valid(b)
    ensures IsGoal(b) <==> b.tiles == SolvedTiles(|b.tiles|)
  {
    var t := b.tiles;
    var n := |t|;
    var s := SolvedTiles(n);
    ManhattanDominatesHamming(b);
    HammingZeroIff(b);
    if IsGoal(b) {
      assert (n - 1) * n + (n - 1) + 1 == n * n;
      assert t[n - 1][n - 1] == 0;
      forall i | 0 <= i < n ensures t[i] == s[i] {
        forall j | 0 <= j < n ensures t[i][j] == s[i][j] {
        }
      }
    }
    if t == s {
      forall i, j | 0 <= i < n && 0 <= j < n ensures t[i][j] == 0 || t[i][j] == i * n + j + 1 {
        assert t[i][j] == s[i][j];
      }
    }
  }

  /* ---------- The source's loops ---------- */

  lemma RowSumStep(t: Tiles, i: int, j: int, m: Measure)
    requires IsSquare(t) && 0 <= i < |t| && 0 <= j < |t|
    ensures RowSum(t, i, j + 1, m) == RowSum(t, i, j, m) + Term(m, t[i][j], i, j, |t|)
  {
  }

  /** The nested loop of Board.hamming with its running expectedValue. */
  method ComputeHamming(b: Board) returns (h: int)
    requires IsSquare(b.tiles)
    ensures h == Hamming(b)
  {
    var t := b.tiles;
    var n := |t|;
    h := 0;
    var expected := 1;
    var i := 0;
    while i < n
      invariant 0 <= i <= n
      invariant expected == i * n + 1
      invariant h == GridSum(t, i, Count)
    {
      var j := 0;
      while j < n
        invariant 0 <= j <= n
        invariant expected == i * n + j + 1
        invariant h == GridSum(t, i, Count) + RowSum(t, i, j, Count)
      {
        RowSumStep(t, i, j, Count);
        assert Misplaced(t[i][j], i, j, n) <==> t[i][j] != expected && t[i][j] != 0;
        if t[i][j] != expected && t[i][j] != 0 {
          h := h + 1;
        }
        expected := expected + 1;
        j := j + 1;
      }
      assert (i + 1) * n == i * n + n;
      i := i + 1;
    }
  }

  /** The nested loop of Board.manhattan with its running expectedValue. */
  method ComputeManhattan(b: Board) returns (d: int)
    requires IsSquare(b.tiles)
    ensures d == Manhattan(b)
  {
    var t := b.tiles;
    var n := |t|;
    d := 0;
    var expected := 1;
    var i := 0;
    while i < n
      invariant 0 <= i <= n
      invariant expected == i * n + 1
      invariant d == GridSum(t, i, Distance)
    {
      var j := 0;
      while j < n
        invariant 0 <= j <= n
        invariant expected == i * n + j + 1
        invariant d == GridSum(t, i, Distance) + RowSum(t, i, j, Distance)
      {
        RowSumStep(t, i, j, Distance);
        assert Misplaced(t[i][j], i, j, n) <==> t[i][j] != expected && t[i][j] != 0;
        if t[i][j] != expected && t[i][j] != 0 {
          d := d + CalcManhattanDistance(t[i][j], i, j, n);
        }
        expected := expected + 1;
        j := j + 1;
      }
      assert (i + 1) * n == i * n + n;
      i := i + 1;
    }
  }
}
