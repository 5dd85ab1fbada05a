/** One move of Connect Four as a transition of the game's state.

    A click on column x is ignored once the game is over. It is rejected when the column
    is full. Otherwise the current player's piece lands on the lowest empty row. If that
    piece wins, the game ends with the current player unchanged. Otherwise, if every
    column's top cell is occupied, the game ends in a tie. Otherwise the turn passes to
    the other player. */
module Games {
  import opened Grid
  import opened Wins

  /** Everything a move reads and writes: the grid, whose turn it is, and whether the game has ended. */
  datatype Game = Game(cells: Cells, player: int, over: bool)

  /** What a click leads to; `row` is where the piece landed. */
  datatype Outcome = Ignored | ColumnFull | Won(winner: int, row: nat) | Tie(row: nat) | Next(row: nat)

  /** The turn switch: player 1 hands over to player 2 and player 2 to player 1. */
  function Toggle(p: int): (q: int)
    ensures q == 1 || q == 2
    ensures p == 1 ==> q == 2
    ensures p == 2 ==> q == 1
  {
    if p - 1 != 0 then 1 else 2
  }

  /** The tie test: the top cell of every column is occupied. */
  predicate TopFull(g: Cells, h: int)
    requires Shaped(g, |g|, h) && h >= 1
    ensures Full(g) ==> TopFull(g, h)
  {
    forall x :: 0 <= x < |g| ==> g[x][h - 1] != Empty
  }

  /** Moves alternate: player 1 has placed one piece more than player 2 exactly when
      player 2 is to move, or, once the game is over, when player 1 made the last move. */
  predicate Balanced(gm: Game)
  {
    Count(gm.cells, 1) == Count(gm.cells, 2) + (if (gm.player == 2) != gm.over then 1 else 0)
  }

  /** The invariant every reachable game keeps. */
  predicate Consistent(gm: Game, w: int, h: int)
  {
    Shaped(gm.cells, w, h) && WellMarked(gm.cells) && Settled(gm.cells) &&
    (gm.player == 1 || gm.player == 2) && Balanced(gm)
  }

  /** A click on column x. */
  function Click(gm: Game, w: int, h: int, v: int, x: nat): (r: (Game, Outcome))
    requires Shaped(gm.cells, w, h) && h >= 1 && x < w
    ensures Shaped(r.0.cells, w, h)
    ensures r.1.Ignored? <==> gm.over
    ensures r.1.ColumnFull? <==> !gm.over && gm.cells[x][h - 1] != Empty
    ensures r.1.Ignored? || r.1.ColumnFull? ==> r.0 == gm
    ensures r.1.Won? ==> r.1.winner == gm.player
  {
    if gm.over then (gm, Ignored)
    else match Spot(gm.cells[x])
      case None => (gm, ColumnFull)
      case Some(y) =>
        var g := Place(gm.cells, x, y, gm.player);
        if LastMoveWins(g, w, h, x, y, v) then (Game(g, gm.player, true), Won(gm.player, y))
        else if TopFull(g, h) then (Game(g, gm.player, true), Tie(y))
        else (Game(g, Toggle(gm.player), false), Next(y))
  }

  /** A new game: an empty board with player 1 to move. */
  lemma FreshGameConsistent(w: nat, h: nat)
    ensures Consistent(Game(EmptyGrid(w, h), 1, false), w, h)
  {
    CountAbsent(EmptyGrid(w, h), 1);
    CountAbsent(EmptyGrid(w, h), 2);
  }

  /** Under gravity the top row is full exactly when the whole board is. */
  lemma TopFullIffFull(g: Cells, w: int, h: int)
    requires Shaped(g, w, h) && h >= 1 && Settled(g)
    ensures TopFull(g, h) <==> Full(g)
  {
  }

  /** Clicks that change nothing: any click once the game is over, and a click on a full column. */
  lemma ClickRejects(gm: Game, w: int, h: int, v: int, x: nat)
    requires Shaped(gm.cells, w, h) && h >= 1 && x < w
    ensures gm.over ==> Click(gm, w, h, v, x) == (gm, Ignored)
    ensures !gm.over && gm.cells[x][h - 1] != Empty ==> Click(gm, w, h, v, x) == (gm, ColumnFull)
  {
  }

  /** An accepted click writes the mover's mark into exactly one cell, the lowest empty one
      of the column, which is the row the outcome reports. */
  lemma ClickPlacesOnePiece(gm: Game, w: int, h: int, v: int, x: nat)
    requires Consistent(gm, w, h) && h >= 1 && x < w
    requires !gm.over && gm.cells[x][h - 1] == Empty
    ensures var (gm', out) := Click(gm, w, h, v, x);
      (out.Won? || out.Tie? || out.Next?) &&
      out.row < h &&
      (forall j :: 0 <= j < out.row ==> gm.cells[x][j] != Empty) &&
      (forall j :: out.row <= j < h ==> gm.cells[x][j] == Empty) &&
      gm'.cells[x][out.row] == gm.player &&
      (forall i, j :: 0 <= i < w && 0 <= j < h && (i != x || j != out.row) ==> gm'.cells[i][j] == gm.cells[i][j])
  {
  }

  /** Every click keeps the invariant: shape, marks, gravity, the players and the alternation of moves. */
  lemma ClickKeepsConsistent(gm: Game, w: int, h: int, v: int, x: nat)
    requires Consistent(gm, w, h) && h >= 1 && x < w
    ensures Consistent(Click(gm, w, h, v, x).0, w, h)
  {
    if !gm.over && Spot(gm.cells[x]).Some? {
      var y := Spot(gm.cells[x]).value;
      var g := Place(gm.cells, x, y, gm.player);
      PlacedGridConsistent(gm, w, h, x);
      var over := LastMoveWins(g, w, h, x, y, v) || TopFull(g, h);
      assert Click(gm, w, h, v, x).0 == Game(g, if over then gm.player else Toggle(gm.player), over);
    }
  }

  /** The grid after an accepted drop keeps shape, marks and gravity, and holds one more
      piece of the mover's. */
  lemma PlacedGridConsistent(gm: Game, w: int, h: int, x: nat)
    requires Consistent(gm, w, h) && h >= 1 && x < w && Spot(gm.cells[x]).Some?
    ensures var g := Place(gm.cells, x, Spot(gm.cells[x]).value, gm.player);
      Shaped(g, w, h) && WellMarked(g) && Settled(g) &&
      Count(g, 1) == Count(gm.cells, 1) + (if gm.player == 1 then 1 else 0) &&
      Count(g, 2) == Count(gm.cells, 2) + (if gm.player == 2 then 1 else 0)
  {
    var y := Spot(gm.cells[x]).value;
    PlaceKeepsSettled(gm.cells, x, gm.player);
    CountPlace(gm.cells, x, y, gm.player, 1);
    CountPlace(gm.cells, x, y, gm.player, 2);
  }

  /** The outcome of an accepted click. A win is a line of `v` of the mover's pieces through
      the landing cell on one of the four axes; the game then ends with the mover still
      current. Without a win, a board with no empty cell left is a tie. Otherwise play
      continues with the other player. */
  lemma ClickOutcome(gm: Game, w: int, h: int, v: int, x: nat)
    requires Consistent(gm, w, h) && h >= 1 && x < w && v >= 1
    requires !gm.over && gm.cells[x][h - 1] == Empty
    ensures var (gm', out) := Click(gm, w, h, v, x);
      out.row < h &&
      (out.Won? <==> AnyLine(gm'.cells, w, h, x, out.row, v)) &&
      (out.Won? ==> out.winner == gm.player && gm'.player == gm.player && gm'.over) &&
      (out.Tie? <==> !AnyLine(gm'.cells, w, h, x, out.row, v) && Full(gm'.cells)) &&
      (out.Tie? ==> gm'.player == gm.player && gm'.over) &&
      (out.Next? ==> gm'.player == Toggle(gm.player) && !gm'.over)
  {
    var y := Spot(gm.cells[x]).value;
    var g := Place(gm.cells, x, y, gm.player);
    SpotIsColumnTop(gm.cells, x);
    PlaceKeepsSettled(gm.cells, x, gm.player);
    assert Shaped(g, w, h);
    assert y + 1 == h || g[x][y + 1] != g[x][y] by {
      if y + 1 < h {
        assert g[x][y + 1] == gm.cells[x][y + 1] == Empty;
      }
    }
    LastMoveWinsIffLine(g, w, h, x, y, v);
    TopFullIffFull(g, w, h);
  }

  /** A victory condition longer than both the width and the height is never reached:
      no click ever wins. */
  lemma TooLongNeverWinsGame(gm: Game, w: int, h: int, v: int, x: nat)
    requires Shaped(gm.cells, w, h) && h >= 1 && x < w && v > w && v > h
    ensures !Click(gm, w, h, v, x).1.Won?
  {
    if !gm.over && Spot(gm.cells[x]).Some? {
      var y := Spot(gm.cells[x]).value;
      var g := Place(gm.cells, x, y, gm.player);
      assert Shaped(g, w, h);
      TooLongNeverWins(g, w, h, x, y, v, Cap(v));
    }
  }
}
