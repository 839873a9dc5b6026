/** The immutable n-by-n puzzle board of Board.java: blank lookup, value
    equality, the neighbour boards one slide away, and the twin board. The
    heuristics live in module Heuristics. */
module Boards {
  import opened Wrappers
  import opened Grid

  /** A board is its tile grid; the blank position and the heuristics are
      pure functions of it rather than cached fields. */
  datatype Board = Board(tiles: Tiles)

  /** The invariant every board of a well-formed input keeps. */
  predicate Valid(b: Board) {
    IsPermutation(b.tiles)
  }

  function Dimension(b: Board): nat {
    |b.tiles|
  }

  /* ---------- The blank ---------- */

  predicate HasBlank(t: Tiles)
    requires IsSquare(t)
  {
    exists i, j :: 0 <= i < |t| && 0 <= j < |t| && t[i][j] == 0
  }

  /** p comes no later than q in row-major order. */
  predicate RowMajorLe(p: Pos, q: Pos) {
    p.row < q.row || (p.row == q.row && p.col <= q.col)
  }

  /** p holds a 0 and no 0 comes after it in row-major order. */
  predicate IsLastZero(t: Tiles, p: Pos)
    requires IsSquare(t)
  {
    && InGrid(t, p)
    && At(t, p) == 0
    && forall i, j :: 0 <= i < |t| && 0 <= j < |t| && t[i][j] == 0 ==> RowMajorLe(Pos(i, j), p)
  }

  /** The column of the last 0 among row[..m]. */
  function LastZeroInRow(row: seq<int>, m: nat): (r: Option<nat>)
    requires m <= |row|
    ensures r.Some? ==> r.value < m && row[r.value] == 0
    ensures r.Some? ==> forall j :: r.value < j < m ==> row[j] != 0
    ensures r.None? ==> forall j :: 0 <= j < m ==> row[j] != 0
  {
    if m == 0 then None
    else if row[m - 1] == 0 then Some(m - 1)
    else LastZeroInRow(row, m - 1)
  }

  /** The last 0 in row-major order among the first k rows. */
  function LastZeroAbove(t: Tiles, k: nat): (r: Option<Pos>)
    requires IsSquare(t) && k <= |t|
    ensures r.Some? ==> InGrid(t, r.value) && r.value.row < k && At(t, r.value) == 0
    ensures r.Some? ==> forall i, j :: 0 <= i < k && 0 <= j < |t| && t[i][j] == 0 ==> RowMajorLe(Pos(i, j), r.value)
    ensures r.None? ==> forall i, j :: 0 <= i < k && 0 <= j < |t| ==> t[i][j] != 0
  {
    if k == 0 then None
    else match LastZeroInRow(t[k - 1], |t|)
      case Some(j) => Some(Pos(k - 1, j))
      case None => LastZeroAbove(t, k - 1)
  }

  /** Board.findMissingTile: the row-major scan overwrites the position on
      every 0 it meets, so it ends on the last one; with no 0 the fields
      keep their initial value (0, 0). */
  function FindMissingTile(t: Tiles): (p: Pos)
    requires IsSquare(t)
    ensures HasBlank(t) ==> IsLastZero(t, p)
    ensures !HasBlank(t) ==> p == Pos(0, 0)
    ensures |t| >= 1 ==> InGrid(t, p)
  {
    match LastZeroAbove(t, |t|)
    case Some(p) => p
    case None => Pos(0, 0)
  }

  function Blank(b: Board): Pos
    requires IsSquare(b.tiles)
  {
    FindMissingTile(b.tiles)
  }

  /** On a valid board the scan finds the one and only blank. */
  lemma BlankIsUnique(b: Board)
    requires Valid(b)
    ensures InGrid(b.tiles, Blank(b)) && At(b.tiles, Blank(b)) == 0
    ensures forall i, j :: 0 <= i < |b.tiles| && 0 <= j < |b.tiles| ==>
              (b.tiles[i][j] == 0 <==> Pos(i, j) == Blank(b))
  {
    EveryValuePresent(b.tiles, 0);
  }

  /* ---------- Value equality ---------- */

  /** The argument of Board.equals(Object): null, a Board, or an object of
      some other class. */
  datatype Object = Null | BoardObject(board: Board) | OtherObject

  /** java.util.Arrays.deepEquals on two int[][]. */
  predicate DeepEquals(a: Tiles, c: Tiles) {
    && |a| == |c|
    && forall i :: 0 <= i < |a| ==>
         |a[i]| == |c[i]| && forall j :: 0 <= j < |a[i]| ==> a[i][j] == c[i][j]
  }

  lemma DeepEqualsIsEquality(a: Tiles, c: Tiles)
    ensures DeepEquals(a, c) <==> a == c
  {
    if DeepEquals(a, c) {
      forall i | 0 <= i < |a| ensures a[i] == c[i] {
        assert |a[i]| == |c[i]|;
      }
    }
  }

  /** Board.equals: the identity test and the class test fall out of value
      equality of the tile grids. */
  function Equals(b: Board, other: Object): (r: bool)
    ensures r <==> other.BoardObject? && DeepEquals(b.tiles, other.board.tiles)
  {
    DeepEqualsIsEquality(b.tiles, if other.BoardObject? then other.board.tiles else []);
    other.BoardObject? && b.tiles == other.board.tiles
  }

  lemma EqualsIsEquivalence(a: Board, b: Board, c: Board)
    ensures Equals(a, BoardObject(a))
    ensures Equals(a, BoardObject(b)) <==> Equals(b, BoardObject(a))
    ensures Equals(a, BoardObject(b)) && Equals(b, BoardObject(c)) ==> Equals(a, BoardObject(c))
    ensures !Equals(a, Null) && !Equals(a, OtherObject)
  {
  }

  /* ---------- Neighbours ---------- */

  datatype Direction = Above | Below | Left | Right

  /** The cell next to p in direction d. */
  function Target(p: Pos, d: Direction): Pos {
    match d
    case Above => Pos(p.row - 1, p.col)
    case Below => Pos(p.row + 1, p.col)
    case Left => Pos(p.row, p.col - 1)
    case Right => Pos(p.row, p.col + 1)
  }

  /** The four flags of Board.neighbors: may the blank at p move in
      direction d on an n-by-n board? */
  predicate Allowed(n: int, p: Pos, d: Direction) {
    match d
    case Below => 0 <= p.row < n - 1
    case Above => 0 < p.row <= n - 1
    case Right => 0 <= p.col < n - 1
    case Left => 0 < p.col <= n - 1
  }

  /** The two assignments of one neighbour: the tile at q moves into the
      blank's cell p, and q gets 0. */
  function Slide(t: Tiles, p: Pos, q: Pos): Tiles
    requires IsSquare(t) && InGrid(t, p) && InGrid(t, q)
  {
    Set(Set(t, p, At(t, q)), q, 0)
  }

  /** The board after the blank at p moves in direction d. */
  function MoveBoard(t: Tiles, p: Pos, d: Direction): Board
    requires IsSquare(t) && InGrid(t, p) && Allowed(|t|, p, d)
  {
    Board(Slide(t, p, Target(p, d)))
  }

  /** Pushing onto an algs4 Stack: iteration starts at the latest push. */
  function Push<T>(stack: seq<T>, x: T): seq<T> {
    [x] + stack
  }

  function MaybePush(stack: seq<Board>, t: Tiles, p: Pos, d: Direction): (r: seq<Board>)
    requires IsSquare(t) && InGrid(t, p)
    ensures r == (if Allowed(|t|, p, d) then [MoveBoard(t, p, d)] else []) + stack
  {
    if Allowed(|t|, p, d) then Push(stack, MoveBoard(t, p, d)) else stack
  }

  /** The order in which a caller iterating neighbors() meets the moves:
      the boards are pushed above, below, left, right, so the stack hands
      them back right, left, below, above, each only if allowed. */
  function MoveOrder(n: int, p: Pos): (ds: seq<Direction>)
    ensures forall d :: d in ds <==> Allowed(n, p, d)
  {
    (if Allowed(n, p, Right) then [Right] else [])
    + (if Allowed(n, p, Left) then [Left] else [])
    + (if Allowed(n, p, Below) then [Below] else [])
    + (if Allowed(n, p, Above) then [Above] else [])
  }

  /** The boards for a list of allowed moves, in list order. */
  function MovesOf(t: Tiles, p: Pos, ds: seq<Direction>): (r: seq<Board>)
    requires IsSquare(t) && InGrid(t, p)
    requires forall d :: d in ds ==> Allowed(|t|, p, d)
    ensures |r| == |ds|
    ensures forall k :: 0 <= k < |ds| ==> r[k] == MoveBoard(t, p, ds[k])
  {
    seq(|ds|, k requires 0 <= k < |ds| => MoveBoard(t, p, ds[k]))
  }

  lemma MovesOfAppend(t: Tiles, p: Pos, a: seq<Direction>, c: seq<Direction>)
    requires IsSquare(t) && InGrid(t, p)
    requires forall d :: d in a + c ==> Allowed(|t|, p, d)
    ensures MovesOf(t, p, a + c) == MovesOf(t, p, a) + MovesOf(t, p, c)
  {
    assert forall d :: d in a ==> d in a + c;
    assert forall d :: d in c ==> d in a + c;
    var x := MovesOf(t, p, a + c);
    var y := MovesOf(t, p, a) + MovesOf(t, p, c);
    forall k | 0 <= k < |x| ensures x[k] == y[k] {
      if k < |a| {
        assert (a + c)[k] == a[k];
      } else {
        assert (a + c)[k] == c[k - |a|];
      }
    }
  }

  /** Board.neighbors tries the four moves in this order, pushing each
      allowed one. */
  const PushOrder: seq<Direction> := [Above, Below, Left, Right]

  /** Push the board of every allowed move of ds, in the order of ds. */
  function PushMoves(stack: seq<Board>, t: Tiles, p: Pos, ds: seq<Direction>): seq<Board>
    requires IsSquare(t) && InGrid(t, p)
    decreases |ds|
  {
    if ds == [] then stack else PushMoves(MaybePush(stack, t, p, ds[0]), t, p, ds[1..])
  }

  /** The allowed moves of ds, last first. */
  function AllowedReversed(n: int, p: Pos, ds: seq<Direction>): (r: seq<Direction>)
    ensures forall d :: d in r ==> Allowed(n, p, d)
    decreases |ds|
  {
    if ds == [] then [] else AllowedReversed(n, p, ds[1..]) + IfAllowed(n, p, ds[0])
  }

  /** The allowed part of a one-move list. */
  function IfAllowed(n: int, p: Pos, d: Direction): seq<Direction> {
    if Allowed(n, p, d) then [d] else []
  }

  lemma MaybePushAsMoves(stack: seq<Board>, t: Tiles, p: Pos, d: Direction)
    requires IsSquare(t) && InGrid(t, p)
    ensures MaybePush(stack, t, p, d) == MovesOf(t, p, IfAllowed(|t|, p, d)) + stack
  {
    assert MovesOf(t, p, IfAllowed(|t|, p, d)) == (if Allowed(|t|, p, d) then [MoveBoard(t, p, d)] else []);
  }

  lemma {:induction false} PushMovesReverses(stack: seq<Board>, t: Tiles, p: Pos, ds: seq<Direction>)
    requires IsSquare(t) && InGrid(t, p)
    ensures PushMoves(stack, t, p, ds) == MovesOf(t, p, AllowedReversed(|t|, p, ds)) + stack
    decreases |ds|
  {
    if ds != [] {
      var n := |t|;
      var rest := AllowedReversed(n, p, ds[1..]);
      var head := IfAllowed(n, p, ds[0]);
      var pushed := MaybePush(stack, t, p, ds[0]);
      MaybePushAsMoves(stack, t, p, ds[0]);
      PushMovesReverses(pushed, t, p, ds[1..]);
      MovesOfAppend(t, p, rest, head);
      assert AllowedReversed(n, p, ds) == rest + head;
      assert PushMoves(stack, t, p, ds) == MovesOf(t, p, rest) + MovesOf(t, p, head) + stack;
    }
  }

  lemma PushOrderReversed(n: int, p: Pos)
    ensures AllowedReversed(n, p, PushOrder) == MoveOrder(n, p)
  {
    assert PushOrder[1..] == [Below, Left, Right];
    assert PushOrder[1..][1..] == [Left, Right];
    assert PushOrder[1..][1..][1..] == [Right];
    assert PushOrder[1..][1..][1..][1..] == [];
  }

  /** Board.neighbors: one board per allowed move of the blank, in the
      order the stack returns them. */
  function Neighbors(b: Board): (r: seq<Board>)
    requires IsSquare(b.tiles)
    ensures |r| <= 4
    ensures forall c :: c in r ==> IsSquare(c.tiles) && |c.tiles| == |b.tiles|
  {
    var t := b.tiles;
    var p := Blank(b);
    if |t| == 0 then [] else MovesOf(t, p, MoveOrder(|t|, p))
  }

  /** Every neighbour has the board's dimension. */
  lemma NeighborsSameSize(b: Board, c: Board)
    requires IsSquare(b.tiles) && c in Neighbors(b)
    ensures IsSquare(c.tiles) && |c.tiles| == |b.tiles|
  {
    var ns := Neighbors(b);
    var k :| 0 <= k < |ns| && ns[k] == c;
  }

  /** The order above is the stack's: pushing the allowed moves above,
      below, left, right and then iterating gives exactly neighbors(). */
  lemma NeighborsIsStackOrder(b: Board)
    requires IsSquare(b.tiles) && |b.tiles| >= 1
    ensures Neighbors(b) == PushMoves([], b.tiles, Blank(b), PushOrder)
  {
    PushMovesReverses([], b.tiles, Blank(b), PushOrder);
    PushOrderReversed(|b.tiles|, Blank(b));
  }

  /** q is orthogonally next to p. */
  predicate Adjacent(p: Pos, q: Pos) {
    (p.row == q.row && (p.col - q.col == 1 || q.col - p.col == 1))
    || (p.col == q.col && (p.row - q.row == 1 || q.row - p.row == 1))
  }

  /** c is b with its blank exchanged with one orthogonally adjacent tile;
      every other cell is unchanged. */
  ghost predicate IsMove(b: Board, c: Board)
    requires IsSquare(b.tiles)
  {
    exists q :: InGrid(b.tiles, q) && Adjacent(Blank(b), q) && c.tiles == Swap(b.tiles, Blank(b), q)
  }

  lemma SlideIsSwap(t: Tiles, p: Pos, q: Pos)
    requires IsSquare(t) && InGrid(t, p) && InGrid(t, q) && At(t, p) == 0
    ensures Slide(t, p, q) == Swap(t, p, q)
  {
    var a := Slide(t, p, q);
    var c := Swap(t, p, q);
    forall i | 0 <= i < |t| ensures a[i] == c[i] {
      assert |a[i]| == |c[i]|;
      forall j | 0 <= j < |t| ensures a[i][j] == c[i][j] { }
    }
  }

  lemma DirectionTo(p: Pos, q: Pos, n: int) returns (d: Direction)
    requires 0 <= p.row < n && 0 <= p.col < n && 0 <= q.row < n && 0 <= q.col < n
    requires Adjacent(p, q)
    ensures Target(p, d) == q && Allowed(n, p, d) && d in MoveOrder(n, p)
  {
    if q.row == p.row - 1 {
      d := Above;
    } else if q.row == p.row + 1 {
      d := Below;
    } else if q.col == p.col - 1 {
      d := Left;
    } else {
      d := Right;
    }
  }

  /** The board after an allowed slide of the blank is a move. */
  lemma MoveBoardIsMove(b: Board, d: Direction)
    requires Valid(b) && Allowed(|b.tiles|, Blank(b), d)
    ensures IsMove(b, MoveBoard(b.tiles, Blank(b), d))
  {
    var t := b.tiles;
    var p := Blank(b);
    BlankIsUnique(b);
    var q := Target(p, d);
    assert InGrid(t, q) && Adjacent(p, q);
    SlideIsSwap(t, p, q);
  }

  lemma NeighborIsMove(b: Board, k: nat)
    requires Valid(b) && k < |Neighbors(b)|
    ensures IsMove(b, Neighbors(b)[k])
  {
    var order := MoveOrder(|b.tiles|, Blank(b));
    assert Neighbors(b)[k] == MoveBoard(b.tiles, Blank(b), order[k]);
    assert order[k] in order;
    MoveBoardIsMove(b, order[k]);
  }

  lemma MoveIsNeighbor(b: Board, q: Pos)
    requires Valid(b) && InGrid(b.tiles, q) && Adjacent(Blank(b), q)
    ensures Board(Swap(b.tiles, Blank(b), q)) in Neighbors(b)
  {
    var t := b.tiles;
    var p := Blank(b);
    var order := MoveOrder(|t|, p);
    BlankIsUnique(b);
    var d := DirectionTo(p, q, |t|);
    var k :| 0 <= k < |order| && order[k] == d;
    SlideIsSwap(t, p, q);
    assert Neighbors(b)[k] == MoveBoard(t, p, d);
  }

  /** neighbors() yields exactly the one-slide moves of the blank, both
      directions of the if-and-only-if. */
  lemma NeighborsAreMoves(b: Board, c: Board)
    requires Valid(b)
    ensures c in Neighbors(b) <==> IsMove(b, c)
  {
    if c in Neighbors(b) {
      var k :| 0 <= k < |Neighbors(b)| && Neighbors(b)[k] == c;
      NeighborIsMove(b, k);
    }
    if IsMove(b, c) {
      var q :| InGrid(b.tiles, q) && Adjacent(Blank(b), q) && c.tiles == Swap(b.tiles, Blank(b), q);
      MoveIsNeighbor(b, q);
    }
  }

  /** How many neighbours a board has: none for n = 1; for n >= 2, two
      with the blank in a corner, three on an edge, four inside. */
  lemma NeighborCount(b: Board)
    requires IsSquare(b.tiles) && |b.tiles| >= 1
    ensures var n := |b.tiles|;
            var p := Blank(b);
            var rowSide := p.row == 0 || p.row == n - 1;
            var colSide := p.col == 0 || p.col == n - 1;
            && (n == 1 ==> |Neighbors(b)| == 0)
            && (n >= 2 ==>
                  && (|Neighbors(b)| == 2 <==> rowSide && colSide)
                  && (|Neighbors(b)| == 3 <==> rowSide != colSide)
                  && (|Neighbors(b)| == 4 <==> !rowSide && !colSide))
  {
  }

  lemma SwapSymmetric(t: Tiles, a: Pos, c: Pos)
    requires IsSquare(t) && InGrid(t, a) && InGrid(t, c)
    ensures Swap(t, a, c) == Swap(t, c, a)
  {
    var x := Swap(t, a, c);
    var y := Swap(t, c, a);
    forall i | 0 <= i < |t| ensures x[i] == y[i] {
      assert |x[i]| == |y[i]|;
      forall j | 0 <= j < |t| ensures x[i][j] == y[i][j] { }
    }
  }

  /** Swapping the blank with an adjacent tile gives a valid board whose
      blank sits in that tile's cell, and swapping back restores the board. */
  lemma SwapReversible(b: Board, q: Pos)
    requires Valid(b) && InGrid(b.tiles, q) && Adjacent(Blank(b), q)
    ensures var c := Board(Swap(b.tiles, Blank(b), q));
            && Valid(c) && Blank(c) == q && Adjacent(q, Blank(b))
            && Swap(c.tiles, q, Blank(b)) == b.tiles
  {
    var t := b.tiles;
    var p := Blank(b);
    var c := Board(Swap(t, p, q));
    BlankIsUnique(b);
    SwapPreservesPermutation(t, p, q);
    BlankIsUnique(c);
    assert At(c.tiles, q) == 0;
    SwapSymmetric(t, p, q);
    SwapSelfInverse(t, q, p);
  }

  /** Every neighbour is again a valid board, and the move can be undone:
      the original board is among the neighbour's own neighbours. */
  lemma NeighborsReversible(b: Board, c: Board)
    requires Valid(b) && c in Neighbors(b)
    ensures Valid(c)
    ensures b in Neighbors(c)
  {
    var t := b.tiles;
    var p := Blank(b);
    NeighborsAreMoves(b, c);
    var q :| InGrid(t, q) && Adjacent(p, q) && c.tiles == Swap(t, p, q);
    SwapReversible(b, q);
    MoveIsNeighbor(c, p);
  }

  lemma MoveOrderDistinct(n: int, p: Pos)
    ensures forall k, m :: 0 <= k < m < |MoveOrder(n, p)| ==> MoveOrder(n, p)[k] != MoveOrder(n, p)[m]
  {
  }

  lemma MoveBoardsDiffer(b: Board, d1: Direction, d2: Direction)
    requires Valid(b) && d1 != d2
    requires Allowed(|b.tiles|, Blank(b), d1) && Allowed(|b.tiles|, Blank(b), d2)
    ensures MoveBoard(b.tiles, Blank(b), d1) != MoveBoard(b.tiles, Blank(b), d2)
  {
    var t := b.tiles;
    var p := Blank(b);
    BlankIsUnique(b);
    var q1 := Target(p, d1);
    var q2 := Target(p, d2);
    assert q1 != q2 && q1 != p;
    assert MoveBoard(t, p, d1).tiles[q1.row][q1.col] == 0;
    assert MoveBoard(t, p, d2).tiles[q1.row][q1.col] == At(t, q1) != 0;
  }

  /** Distinct moves give distinct boards: the blank ends up elsewhere. */
  lemma NeighborsDistinct(b: Board)
    requires Valid(b)
    ensures forall k, m :: 0 <= k < m < |Neighbors(b)| ==> Neighbors(b)[k] != Neighbors(b)[m]
  {
    var p := Blank(b);
    var order := MoveOrder(|b.tiles|, p);
    MoveOrderDistinct(|b.tiles|, p);
    forall k, m | 0 <= k < m < |Neighbors(b)| ensures Neighbors(b)[k] != Neighbors(b)[m] {
      assert order[k] in order && order[m] in order;
      MoveBoardsDiffer(b, order[k], order[m]);
    }
  }

  /** A board of dimension two or more has a neighbour different from any
      given board: it has at least two neighbours, and they differ. */
  lemma NeighborAvoiding(b: Board, other: Board) returns (c: Board)
    requires Valid(b) && |b.tiles| >= 2
    ensures c in Neighbors(b) && !Equals(c, BoardObject(other))
  {
    var ns := Neighbors(b);
    NeighborCount(b);
    NeighborsDistinct(b);
    assert ns[0] != ns[1];
    DeepEqualsIsEquality(ns[0].tiles, other.tiles);
    DeepEqualsIsEquality(ns[1].tiles, other.tiles);
    c := if ns[0] == other then ns[1] else ns[0];
  }

  /* ---------- Twin ---------- */

  /** The row whose first two tiles the twin exchanges: row 1 when the
      blank is in row 0, row 0 otherwise. */
  function TwinRow(b: Board): nat
    requires IsSquare(b.tiles)
  {
    if Blank(b).row == 0 then 1 else 0
  }

  /** Board.twin (defined for n >= 2: for n = 1 the source indexes a
      second row and column that do not exist). */
  function Twin(b: Board): (r: Board)
    requires IsSquare(b.tiles) && |b.tiles| >= 2
    ensures IsSquare(r.tiles) && |r.tiles| == |b.tiles|
  {
    var i := TwinRow(b);
    Board(Swap(b.tiles, Pos(i, 0), Pos(i, 1)))
  }

  /** The twin exchanges two non-blank tiles of the first row without the
      blank, leaves the blank and every other cell in place, and is again
      a valid board. */
  lemma TwinSwapsTwoTiles(b: Board)
    requires Valid(b) && |b.tiles| >= 2
    ensures var t := b.tiles;
            var i := TwinRow(b);
            var r := Twin(b).tiles;
            && Blank(b).row != i
            && (Blank(b).row == 0 ==> i == 1)
            && t[i][0] != 0 && t[i][1] != 0
            && r[i][0] == t[i][1] && r[i][1] == t[i][0]
            && (forall k, l :: 0 <= k < |t| && 0 <= l < |t| && !(k == i && l < 2) ==> r[k][l] == t[k][l])
    ensures Valid(Twin(b)) && Blank(Twin(b)) == Blank(b)
  {
    var t := b.tiles;
    var i := TwinRow(b);
    BlankIsUnique(b);
    SwapPreservesPermutation(t, Pos(i, 0), Pos(i, 1));
    BlankIsUnique(Twin(b));
    assert At(Twin(b).tiles, Blank(b)) == 0;
  }

  /** Taking the twin twice gives the board back. */
  lemma TwinInvolution(b: Board)
    requires Valid(b) && |b.tiles| >= 2
    ensures Twin(Twin(b)) == b
  {
    TwinSwapsTwoTiles(b);
    var i := TwinRow(b);
    assert TwinRow(Twin(b)) == i;
    SwapSelfInverse(b.tiles, Pos(i, 0), Pos(i, 1));
  }

  /** A valid board never equals its own twin. */
  lemma TwinDiffers(b: Board)
    requires Valid(b) && |b.tiles| >= 2
    ensures !Equals(Twin(b), BoardObject(b))
  {
    TwinSwapsTwoTiles(b);
    var i := TwinRow(b);
    assert b.tiles[i][0] != b.tiles[i][1];
    assert Twin(b).tiles[i][0] != b.tiles[i][0];
  }
}
