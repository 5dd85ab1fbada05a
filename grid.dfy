/** The in-memory grid of a Connect Four board and the operations on one column:
    finding where a dropped piece lands and writing it there.

    A grid is a sequence of columns, `g[x][y]` being the cell in column x and row y;
    row 0 is the bottom row, where pieces land first. A cell holds 0 when it is empty
    and 1 or 2 when a player's piece is in it. */
module Grid {

  datatype Option<T> = None | Some(value: T)

  type Cells = seq<seq<int>>

  const Empty := 0

  /** `w` columns of `h` cells each. */
  predicate Shaped(g: Cells, w: int, h: int) {
    |g| == w && forall x :: 0 <= x < |g| ==> |g[x]| == h
  }

  /** Every cell is empty or holds player 1 or player 2. */
  predicate WellMarked(g: Cells) {
    forall x, y :: 0 <= x < |g| && 0 <= y < |g[x]| ==> 0 <= g[x][y] <= 2
  }

  /** Gravity: in every column the occupied cells are contiguous from row 0 upward,
      so no occupied cell stands above an empty one. */
  predicate Settled(g: Cells) {
    forall x, i, j :: 0 <= x < |g| && 0 <= i < j < |g[x]| && g[x][j] != Empty ==> g[x][i] != Empty
  }

  /** Every cell of the grid is occupied. */
  predicate Full(g: Cells) {
    forall x, y :: 0 <= x < |g| && 0 <= y < |g[x]| ==> g[x][y] != Empty
  }

  /** The grid of a new board: `w` columns of `h` empty cells. */
  function EmptyGrid(w: nat, h: nat): (g: Cells)
    ensures Shaped(g, w, h)
    ensures forall x, y :: 0 <= x < w && 0 <= y < h ==> g[x][y] == Empty
  {
    seq(w, _ => seq(h, _ => Empty))
  }

  /** The scan of a column from row `from` upward: the first empty row, or `|col|` when there is none. */
  function FirstEmpty(col: seq<int>, from: nat): (y: nat)
    requires from <= |col|
    ensures from <= y <= |col|
    ensures forall j :: from <= j < y ==> col[j] != Empty
    ensures y < |col| ==> col[y] == Empty
    decreases |col| - from
  {
    if from == |col| || col[from] == Empty then from else FirstEmpty(col, from + 1)
  }

  /** A scan that stops at an empty row below the top stops at the first empty row. */
  lemma FirstEmptyIs(col: seq<int>, y: nat)
    requires y < |col| && col[y] == Empty
    requires forall j :: 0 <= j < y ==> col[j] != Empty
    ensures FirstEmpty(col, 0) == y
  {
  }

  /** Where a piece dropped into the column lands: None when the top cell is taken,
      otherwise the lowest empty row. */
  function Spot(col: seq<int>): (r: Option<nat>)
    requires |col| >= 1
    ensures r.None? <==> col[|col| - 1] != Empty
    ensures r.Some? ==> r.value < |col| && col[r.value] == Empty
    ensures r.Some? ==> forall j :: 0 <= j < r.value ==> col[j] != Empty
  {
    if col[|col| - 1] != Empty then None else Some(FirstEmpty(col, 0))
  }

  /** Writes `p` into cell (x, y), leaving every other cell as it was. */
  function Place(g: Cells, x: nat, y: nat, p: int): (g': Cells)
    requires x < |g| && y < |g[x]|
    ensures |g'| == |g| && forall i :: 0 <= i < |g| ==> |g'[i]| == |g[i]|
    ensures g'[x][y] == p
    ensures forall i, j :: 0 <= i < |g| && 0 <= j < |g[i]| && (i != x || j != y) ==> g'[i][j] == g[i][j]
  {
    g[x := g[x][y := p]]
  }

  /** Under gravity the landing row is the column's height: every row below it is
      occupied and every row from it upward is empty. */
  lemma SpotIsColumnTop(g: Cells, x: nat)
    requires x < |g| && |g[x]| >= 1 && Settled(g)
    ensures Spot(g[x]).Some? ==>
      (forall j :: 0 <= j < Spot(g[x]).value ==> g[x][j] != Empty) &&
      (forall j :: Spot(g[x]).value <= j < |g[x]| ==> g[x][j] == Empty)
  {
  }

  /** Dropping a piece onto the landing row of a column keeps every column contiguous. */
  lemma PlaceKeepsSettled(g: Cells, x: nat, p: int)
    requires x < |g| && |g[x]| >= 1 && Settled(g) && Spot(g[x]).Some? && p != Empty
    ensures Settled(Place(g, x, Spot(g[x]).value, p))
  {
  }

  /** Number of cells of `g` that hold `p`. */
  function Count(g: Cells, p: int): nat
  {
    if g == [] then 0 else Count(g[..|g| - 1], p) + multiset(g[|g| - 1])[p]
  }

  /** No cell holds `p`, so `p` is counted zero times. */
  lemma {:induction false} CountAbsent(g: Cells, p: int)
    requires forall x, y :: 0 <= x < |g| && 0 <= y < |g[x]| ==> g[x][y] != p
    ensures Count(g, p) == 0
  {
    if g != [] {
      var last := g[|g| - 1];
      assert p !in last by {
        forall y | 0 <= y < |last| ensures last[y] != p {
          assert last[y] == g[|g| - 1][y];
        }
      }
      var front := g[..|g| - 1];
      forall x, y | 0 <= x < |front| && 0 <= y < |front[x]| ensures front[x][y] != p {
        assert front[x] == g[x];
      }
      CountAbsent(front, p);
    }
  }

  /** Writing `p` into an empty cell adds one `p` and changes the count of no other mark. */
  lemma {:induction false} CountPlace(g: Cells, x: nat, y: nat, p: int, q: int)
    requires x < |g| && y < |g[x]| && g[x][y] == Empty && q != Empty
    ensures Count(Place(g, x, y, p), q) == Count(g, q) + (if q == p then 1 else 0)
  {
    var g' := Place(g, x, y, p);
    var n := |g| - 1;
    if x == n {
      assert g'[..n] == g[..n];
      assert g'[n] == g[n][y := p];
      assert multiset(g'[n]) == multiset(g[n]) - multiset{Empty} + multiset{p};
    } else {
      assert g'[n] == g[n];
      assert g'[..n] == Place(g[..n], x, y, p);
      CountPlace(g[..n], x, y, p, q);
    }
  }
}
