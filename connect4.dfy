/** The Connect Four board object: a `width` by `height` grid of cells updated in place,
    the player to move, the victory condition, and whether the game has ended (the end of
    the game takes away the board's click handler, so no further click is handled). */
module Connect4 {
  import opened Grid
  import opened Wins
  import opened Games

  /** Builds the grid column by column, every cell 0. */
  method MakeBoard(width: nat, height: nat) returns (board: array2<int>)
    ensures fresh(board) && board.Length0 == width && board.Length1 == height
    ensures forall x, y :: 0 <= x < width && 0 <= y < height ==> board[x, y] == Empty
  {
    board := new int[width, height];
    for x := 0 to width
      invariant forall i, j :: 0 <= i < x && 0 <= j < height ==> board[i, j] == Empty
    {
      for y := 0 to height
        invariant forall i, j :: 0 <= i < x && 0 <= j < height ==> board[i, j] == Empty
        invariant forall j :: 0 <= j < y ==> board[x, j] == Empty
      {
        board[x, y] := Empty;
      }
    }
  }

  class Connect4Board {
    const height: nat
    const width: nat
    const victoryCondition: int
    /** The grid, `innerBoard[x, y]` being column x, row y. */
    const innerBoard: array2<int>
    var currPlayer: int
    var gameOver: bool

    /** The grid's contents as a value. */
    ghost var cells: Cells

    /** The array has the board's dimensions and holds exactly `cells`. */
    ghost predicate Wired()
      reads this`cells, innerBoard
    {
      height >= 1 &&
      innerBoard.Length0 == width && innerBoard.Length1 == height &&
      Shaped(cells, width, height) &&
      forall x, y :: 0 <= x < width && 0 <= y < height ==> innerBoard[x, y] == cells[x][y]
    }

    ghost function State(): Game
      reads this
    {
      Game(cells, currPlayer, gameOver)
    }

    /** The object invariant: the array mirrors `cells` and the game state is consistent. */
    ghost predicate Valid()
      reads this, innerBoard
    {
      Wired() && Consistent(State(), width, height)
    }

    /** A new board: every cell empty, player 1 to move, the game in progress. */
    constructor (height: nat, width: nat, victoryCondition: int := 4)
      requires height >= 1 && width >= 1
      ensures Valid() && fresh(innerBoard)
      ensures this.height == height && this.width == width && this.victoryCondition == victoryCondition
      ensures State() == Game(EmptyGrid(width, height), 1, false)
    {
      this.height := height;
      this.width := width;
      var board := MakeBoard(width, height);
      innerBoard := board;
      cells := EmptyGrid(width, height);
      this.victoryCondition := victoryCondition;
      currPlayer := 1;
      gameOver := false;
      new;
      FreshGameConsistent(width, height);
    }

    /** The bounds-checked probe: (x, y) is on the board and holds `player`. */
    predicate IsPlayer(x: int, y: int, player: int)
      reads this, innerBoard
      requires Wired()
      ensures IsPlayer(x, y, player) == IsPlayerAt(cells, width, height, x, y, player)
    {
      x >= 0 && y >= 0 && x < width && y < height && innerBoard[x, y] == player
    }

    /** The row a piece dropped into column x lands on, or None when its top cell is taken. */
    method FindSpotForCol(x: nat) returns (spot: Option<nat>)
      requires Wired() && x < width
      ensures spot == Spot(cells[x])
    {
      if innerBoard[x, height - 1] != Empty {
        return None;
      }
      var y := 0;
      while innerBoard[x, y] != Empty
        invariant y < height
        invariant forall j :: 0 <= j < y ==> cells[x][j] != Empty
        decreases height - y
      {
        y := y + 1;
      }
      FirstEmptyIs(cells[x], y);
      spot := Some(y);
    }

    /** Writes the current player into cell (x, y). */
    method PlacePiece(x: nat, y: nat)
      requires Wired() && x < width && y < height
      modifies this, innerBoard
      ensures Wired()
      ensures cells == Place(old(cells), x, y, old(currPlayer))
      ensures currPlayer == old(currPlayer) && gameOver == old(gameOver)
    {
      innerBoard[x, y] := currPlayer;
      cells := Place(cells, x, y, currPlayer);
    }

    /** The turn passes to the other player. */
    method SwitchCurrentPlayer()
      modifies this`currPlayer
      ensures currPlayer == Toggle(old(currPlayer))
    {
      currPlayer := if currPlayer - 1 != 0 then 1 else 2;
    }

    /** One counting loop: how many consecutive cells from (x, y) in direction (dx, dy)
        hold `player`, probing at most `victoryCondition` steps. */
    method Probe(x: int, y: int, dx: int, dy: int, player: int) returns (n: nat)
      requires Wired()
      ensures n == Run(cells, width, height, x, y, dx, dy, player, Cap(victoryCondition))
    {
      n := 0;
      var i := 1;
      while i <= victoryCondition
        invariant 1 <= i <= Cap(victoryCondition) + 1 && n == i - 1
        invariant RunFrom(cells, width, height, x, y, dx, dy, player, i, Cap(victoryCondition)) ==
                  Run(cells, width, height, x, y, dx, dy, player, Cap(victoryCondition))
      {
        if !IsPlayer(x + i * dx, y + i * dy, player) {
          break;
        }
        n := n + 1;
        i := i + 1;
      }
    }

    /** Whether the piece just placed at (x, y) completes a line of `victoryCondition`. */
    method CheckForWin(x: nat, y: nat) returns (won: bool)
      requires Wired() && x < width && y < height
      ensures won == LastMoveWins(cells, width, height, x, y, victoryCondition)
    {
      var rightdiag, leftdiag, vert, horiz := 1, 1, 1, 1;
      var player := innerBoard[x, y];
      var v := victoryCondition;
      var n;
      n := Probe(x, y, 1, 1, player);
      rightdiag := rightdiag + n;
      n := Probe(x, y, -1, -1, player);
      rightdiag := rightdiag + n;
      n := Probe(x, y, 1, 0, player);
      horiz := horiz + n;
      n := Probe(x, y, -1, 0, player);
      horiz := horiz + n;
      n := Probe(x, y, 1, -1, player);
      leftdiag := leftdiag + n;
      n := Probe(x, y, -1, 1, player);
      leftdiag := leftdiag + n;
      n := Probe(x, y, 0, -1, player);
      vert := vert + n;
      won := horiz >= v || vert >= v || leftdiag >= v || rightdiag >= v;
    }

    /** The tie test: every column's top cell is occupied. */
    predicate IsTie()
      reads this, innerBoard
      requires Wired()
      ensures IsTie() == TopFull(cells, height)
    {
      var top := height - 1;
      forall x :: 0 <= x < width ==> innerBoard[x, top] != Empty
    }

    /** Ends the game: no further click is handled. */
    method EndGame()
      modifies this`gameOver
      ensures gameOver
    {
      gameOver := true;
    }

    /** Handles a click on column x: look up the landing row, reject a full column,
        place the piece, then check for a win, then for a tie, else switch players. */
    method HandleClick(x: nat) returns (outcome: Outcome)
      requires Valid() && x < width
      modifies this, innerBoard
      ensures Valid()
      ensures (State(), outcome) == Click(old(State()), width, height, victoryCondition, x)
    {
      ghost var before := State();
      ClickKeepsConsistent(before, width, height, victoryCondition, x);
      if gameOver {
        return Ignored;
      }
      var spot := FindSpotForCol(x);
      if spot.None? {
        return ColumnFull;
      }
      var y := spot.value;
      PlacePiece(x, y);
      assert cells == Place(before.cells, x, y, before.player);
      var won := CheckForWin(x, y);
      if won {
        EndGame();
        return Won(currPlayer, y);
      }
      if IsTie() {
        EndGame();
        return Tie(y);
      }
      SwitchCurrentPlayer();
      outcome := Next(y);
    }
  }
}
