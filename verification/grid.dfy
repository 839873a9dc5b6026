/** Square tile grids: cell positions, the permutation invariant every board
    keeps, the two cell-update primitives the board operations use, and the
    counting argument showing that a permutation grid holds every value. */
module Grid {

  /** Tiles row by row; the value 0 is the blank. */
  type Tiles = seq<seq<int>>

  /** A cell: row first, then column. */
  datatype Pos = Pos(row: int, col: int)

  predicate IsSquare(t: Tiles) {
    forall i :: 0 <= i < |t| ==> |t[i]| == |t|
  }

  predicate InGrid(t: Tiles, p: Pos) {
    0 <= p.row < |t| && 0 <= p.col < |t|
  }

  function At(t: Tiles, p: Pos): int
    requires IsSquare(t) && InGrid(t, p)
  {
    t[p.row][p.col]
  }

  /** Every tile lies in 0 .. n*n-1. */
  predicate InRange(t: Tiles)
    requires IsSquare(t)
  {
    forall i, j :: 0 <= i < |t| && 0 <= j < |t| ==> 0 <= t[i][j] < |t| * |t|
  }

  /** No value occurs in two cells. */
  predicate Distinct(t: Tiles)
    requires IsSquare(t)
  {
    forall i, j, k, l ::
      0 <= i < |t| && 0 <= j < |t| && 0 <= k < |t| && 0 <= l < |t| && t[i][j] == t[k][l]
      ==> i == k && j == l
  }

  /** An n-by-n grid (n >= 1) holding a permutation of 0 .. n*n-1. */
  predicate IsPermutation(t: Tiles) {
    |t| >= 1 && IsSquare(t) && InRange(t) && Distinct(t)
  }

  /** The grid with one cell overwritten. */
  function Set(t: Tiles, p: Pos, v: int): (r: Tiles)
    requires IsSquare(t) && InGrid(t, p)
    ensures IsSquare(r) && |r| == |t|
    ensures forall i, j :: 0 <= i < |t| && 0 <= j < |t| ==>
              r[i][j] == (if i == p.row && j == p.col then v else t[i][j])
  {
    t[p.row := t[p.row][p.col := v]]
  }

  /** The grid with the contents of two cells exchanged. */
  function Swap(t: Tiles, a: Pos, b: Pos): (r: Tiles)
    requires IsSquare(t) && InGrid(t, a) && InGrid(t, b)
    ensures IsSquare(r) && |r| == |t|
    ensures forall i, j :: 0 <= i < |t| && 0 <= j < |t| ==>
              r[i][j] == (if Pos(i, j) == a then At(t, b) else if Pos(i, j) == b then At(t, a) else t[i][j])
  {
    Set(Set(t, a, At(t, b)), b, At(t, a))
  }

  lemma SwapPreservesPermutation(t: Tiles, a: Pos, b: Pos)
    requires IsPermutation(t) && InGrid(t, a) && InGrid(t, b)
    ensures IsPermutation(Swap(t, a, b))
  {
    var r := Swap(t, a, b);
    forall i, j, k, l |
      0 <= i < |t| && 0 <= j < |t| && 0 <= k < |t| && 0 <= l < |t| && r[i][j] == r[k][l]
      ensures i == k && j == l
    {
      var p := if Pos(i, j) == a then b else if Pos(i, j) == b then a else Pos(i, j);
      var q := if Pos(k, l) == a then b else if Pos(k, l) == b then a else Pos(k, l);
      assert r[i][j] == At(t, p) && r[k][l] == At(t, q);
    }
  }

  lemma SwapSelfInverse(t: Tiles, a: Pos, b: Pos)
    requires IsSquare(t) && InGrid(t, a) && InGrid(t, b)
    ensures Swap(Swap(t, a, b), a, b) == t
  {
    var r := Swap(Swap(t, a, b), a, b);
    forall i | 0 <= i < |t| ensures r[i] == t[i] {
      assert |r[i]| == |t[i]|;
      forall j | 0 <= j < |t| ensures r[i][j] == t[i][j] { }
    }
  }

  /* ---------- Counting: a permutation grid holds every value ---------- */

  /** The tiles in row-major order. */
  function Flatten(t: Tiles): seq<int>
  {
    if |t| == 0 then [] else Flatten(t[..|t| - 1]) + t[|t| - 1]
  }

  predicate SeqDistinct(s: seq<int>) {
    forall p, q :: 0 <= p < q < |s| ==> s[p] != s[q]
  }

  predicate CellsDistinct(t: Tiles) {
    forall i, j, k, l ::
      0 <= i < |t| && 0 <= j < |t[i]| && 0 <= k < |t| && 0 <= l < |t[k]| && t[i][j] == t[k][l]
      ==> i == k && j == l
  }

  lemma {:induction false} FlattenLength(t: Tiles, m: nat)
    requires forall i :: 0 <= i < |t| ==> |t[i]| == m
    ensures |Flatten(t)| == |t| * m
  {
    if |t| > 0 {
      FlattenLength(t[..|t| - 1], m);
      assert |Flatten(t)| == (|t| - 1) * m + m;
    }
  }

  lemma {:induction false} FlattenMember(t: Tiles, x: int)
    requires x in Flatten(t)
    ensures exists i, j :: 0 <= i < |t| && 0 <= j < |t[i]| && t[i][j] == x
  {
    var u := t[..|t| - 1];
    if x in Flatten(u) {
      FlattenMember(u, x);
      var i, j :| 0 <= i < |u| && 0 <= j < |u[i]| && u[i][j] == x;
      assert t[i][j] == x;
    } else {
      var j :| 0 <= j < |t[|t| - 1]| && t[|t| - 1][j] == x;
    }
  }

  lemma {:induction false} FlattenDistinct(t: Tiles)
    requires CellsDistinct(t)
    ensures SeqDistinct(Flatten(t))
  {
    if |t| > 0 {
      var u := t[..|t| - 1];
      var last := t[|t| - 1];
      assert CellsDistinct(u) by {
        forall i, j, k, l |
          0 <= i < |u| && 0 <= j < |u[i]| && 0 <= k < |u| && 0 <= l < |u[k]| && u[i][j] == u[k][l]
          ensures i == k && j == l
        {
          assert t[i][j] == t[k][l];
        }
      }
      FlattenDistinct(u);
      var a := Flatten(u);
      forall p, q | 0 <= p < q < |a + last| ensures (a + last)[p] != (a + last)[q] {
        if q < |a| {
        } else if p >= |a| {
          assert t[|t| - 1][p - |a|] != t[|t| - 1][q - |a|];
        } else {
          FlattenMember(u, a[p]);
          var i, j :| 0 <= i < |u| && 0 <= j < |u[i]| && u[i][j] == a[p];
          assert t[i][j] != t[|t| - 1][q - |a|];
        }
      }
    }
  }

  function Elements(s: seq<int>): set<int> {
    set x | x in s
  }

  lemma {:induction false} DistinctElementsCount(s: seq<int>)
    requires SeqDistinct(s)
    ensures |Elements(s)| == |s|
  {
    if |s| > 0 {
      var u := s[..|s| - 1];
      DistinctElementsCount(u);
      assert Elements(s) == Elements(u) + {s[|s| - 1]};
      assert s[|s| - 1] !in Elements(u);
    }
  }

  /** The values 0 .. n-1, as a set. */
  function Below(n: nat): (r: set<int>)
    ensures forall x :: x in r <==> 0 <= x < n
    ensures |r| == n
  {
    if n == 0 then {} else Below(n - 1) + {n - 1}
  }

  lemma SubsetCount(a: set<int>, b: set<int>)
    requires a <= b
    ensures |a| <= |b|
  {
    assert b == a + (b - a);
  }

  /** Pigeonhole: an n-by-n grid of distinct values from 0 .. n*n-1 holds
      every one of them, in particular the blank. */
  lemma EveryValuePresent(t: Tiles, v: int)
    requires IsPermutation(t) && 0 <= v < |t| * |t|
    ensures exists i, j :: 0 <= i < |t| && 0 <= j < |t| && t[i][j] == v
  {
    var n := |t|;
    var s := Flatten(t);
    FlattenLength(t, n);
    assert CellsDistinct(t);
    FlattenDistinct(t);
    DistinctElementsCount(s);
    var e := Elements(s);
    assert e <= Below(n * n) by {
      forall x | x in e ensures x in Below(n * n) {
        FlattenMember(t, x);
      }
    }
    if v !in e {
      assert e <= Below(n * n) - {v};
      SubsetCount(e, Below(n * n) - {v});
      assert false;
    }
    FlattenMember(t, v);
  }
}
