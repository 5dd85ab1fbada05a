/** Win detection from the cell where the last piece landed.

    The board checks four axes through the landing cell (x, y): the rising diagonal,
    the horizontal, the falling diagonal and the vertical. Along each direction it walks
    outward one step at a time while the probed cell is in bounds and holds the landing
    cell's mark, for at most `v` steps, `v` being the victory condition. A run of the
    landing cell plus both directions of one axis that reaches `v` is a win. The vertical
    axis is probed downward only. */
module Wins {
  import opened Grid

  /** The bounds-checked probe: (x, y) is on the board and holds `p`. */
  predicate IsPlayerAt(g: Cells, w: int, h: int, x: int, y: int, p: int)
    requires Shaped(g, w, h)
    ensures IsPlayerAt(g, w, h, x, y, p) ==> 0 <= x < w && 0 <= y < h
  {
    x >= 0 && y >= 0 && x < w && y < h && g[x][y] == p
  }

  /** The cell `k` steps from (x, y) in direction (dx, dy) is on the board and holds `p`. */
  predicate OnAxis(g: Cells, w: int, h: int, x: int, y: int, dx: int, dy: int, p: int, k: int)
    requires Shaped(g, w, h)
  {
    IsPlayerAt(g, w, h, x + k * dx, y + k * dy, p)
  }

  /** How many times a counting loop runs at most: `for (i = 1; i <= v; i++)`. */
  function Cap(v: int): nat
  {
    if v > 0 then v else 0
  }

  /** The counting loop in direction (dx, dy), from step `i` on: it stops at the first step
      past `cap` or the first probe that fails, having counted the steps before it. */
  function RunFrom(g: Cells, w: int, h: int, x: int, y: int, dx: int, dy: int, p: int, i: nat, cap: nat): (n: nat)
    requires Shaped(g, w, h) && 1 <= i <= cap + 1
    ensures i - 1 <= n <= cap
    decreases cap + 1 - i
  {
    if i > cap || !OnAxis(g, w, h, x, y, dx, dy, p, i) then i - 1
    else RunFrom(g, w, h, x, y, dx, dy, p, i + 1, cap)
  }

  /** The number of consecutive cells holding `p` next to (x, y) in direction (dx, dy), at most `cap`. */
  function Run(g: Cells, w: int, h: int, x: int, y: int, dx: int, dy: int, p: int, cap: nat): (n: nat)
    requires Shaped(g, w, h)
    ensures n <= cap
  {
    RunFrom(g, w, h, x, y, dx, dy, p, 1, cap)
  }

  lemma {:induction false} RunFromSpec(g: Cells, w: int, h: int, x: int, y: int, dx: int, dy: int, p: int, i: nat, cap: nat)
    requires Shaped(g, w, h) && 1 <= i <= cap + 1
    requires forall k :: 1 <= k < i ==> OnAxis(g, w, h, x, y, dx, dy, p, k)
    ensures i - 1 <= RunFrom(g, w, h, x, y, dx, dy, p, i, cap) <= cap
    ensures forall k :: 1 <= k <= RunFrom(g, w, h, x, y, dx, dy, p, i, cap) ==> OnAxis(g, w, h, x, y, dx, dy, p, k)
    ensures RunFrom(g, w, h, x, y, dx, dy, p, i, cap) < cap ==>
      !OnAxis(g, w, h, x, y, dx, dy, p, RunFrom(g, w, h, x, y, dx, dy, p, i, cap) + 1)
    decreases cap + 1 - i
  {
    if i <= cap && OnAxis(g, w, h, x, y, dx, dy, p, i) {
      RunFromSpec(g, w, h, x, y, dx, dy, p, i + 1, cap);
    }
  }

  /** What a run is: at most `cap` long, every step up to its length holds `p`, and
      unless the cap stopped it, the next step does not. */
  lemma RunSpec(g: Cells, w: int, h: int, x: int, y: int, dx: int, dy: int, p: int, cap: nat)
    requires Shaped(g, w, h)
    ensures Run(g, w, h, x, y, dx, dy, p, cap) <= cap
    ensures forall k :: 1 <= k <= Run(g, w, h, x, y, dx, dy, p, cap) ==> OnAxis(g, w, h, x, y, dx, dy, p, k)
    ensures Run(g, w, h, x, y, dx, dy, p, cap) < cap ==>
      !OnAxis(g, w, h, x, y, dx, dy, p, Run(g, w, h, x, y, dx, dy, p, cap) + 1)
  {
    RunFromSpec(g, w, h, x, y, dx, dy, p, 1, cap);
  }

  /** A run reaches every length `m <= cap` whose steps all hold `p`. */
  lemma RunAtLeast(g: Cells, w: int, h: int, x: int, y: int, dx: int, dy: int, p: int, cap: nat, m: nat)
    requires Shaped(g, w, h) && m <= cap
    requires forall k :: 1 <= k <= m ==> OnAxis(g, w, h, x, y, dx, dy, p, k)
    ensures Run(g, w, h, x, y, dx, dy, p, cap) >= m
  {
    RunSpec(g, w, h, x, y, dx, dy, p, cap);
  }

  /** A run capped lower is the run capped higher, cut at the lower cap. */
  lemma RunCapped(g: Cells, w: int, h: int, x: int, y: int, dx: int, dy: int, p: int, c1: nat, c2: nat)
    requires Shaped(g, w, h) && c1 <= c2
    ensures Run(g, w, h, x, y, dx, dy, p, c1) ==
      if Run(g, w, h, x, y, dx, dy, p, c2) < c1 then Run(g, w, h, x, y, dx, dy, p, c2) else c1
  {
    RunSpec(g, w, h, x, y, dx, dy, p, c1);
    RunSpec(g, w, h, x, y, dx, dy, p, c2);
  }

  /** The cell `k` steps from (x, y) in direction (dx, dy) lies on a `w` by `h` board. */
  predicate OnBoardAt(w: int, h: int, x: int, y: int, dx: int, dy: int, k: int)
  {
    0 <= x + k * dx < w && 0 <= y + k * dy < h
  }

  /** Every counted cell of a run is on the board, the farthest one included. */
  lemma RunInBounds(g: Cells, w: int, h: int, x: int, y: int, dx: int, dy: int, p: int, cap: nat)
    requires Shaped(g, w, h)
    ensures var n := Run(g, w, h, x, y, dx, dy, p, cap);
      forall k :: 1 <= k <= n ==> OnBoardAt(w, h, x, y, dx, dy, k)
    ensures var n := Run(g, w, h, x, y, dx, dy, p, cap);
      n >= 1 ==> OnBoardAt(w, h, x, y, dx, dy, n)
  {
    var n := Run(g, w, h, x, y, dx, dy, p, cap);
    RunSpec(g, w, h, x, y, dx, dy, p, cap);
    forall k | 1 <= k <= n ensures OnBoardAt(w, h, x, y, dx, dy, k) {
      assert OnAxis(g, w, h, x, y, dx, dy, p, k);
    }
  }

  /** The landing cell plus both directions of the axis (dx, dy). */
  function AxisCount(g: Cells, w: int, h: int, x: int, y: int, dx: int, dy: int, cap: nat): nat
    requires Shaped(g, w, h) && 0 <= x < w && 0 <= y < h
  {
    var p := g[x][y];
    1 + Run(g, w, h, x, y, dx, dy, p, cap) + Run(g, w, h, x, y, -dx, -dy, p, cap)
  }

  /** The win check as the board writes it, with every run capped at `cap`: the two
      diagonals and the horizontal are counted both ways, the vertical downward only. */
  function WinsWithCap(g: Cells, w: int, h: int, x: int, y: int, v: int, cap: nat): (won: bool)
    requires Shaped(g, w, h) && 0 <= x < w && 0 <= y < h
    ensures v <= 1 ==> won
  {
    var rightdiag := AxisCount(g, w, h, x, y, 1, 1, cap);
    var horiz := AxisCount(g, w, h, x, y, 1, 0, cap);
    var leftdiag := AxisCount(g, w, h, x, y, 1, -1, cap);
    var vert := 1 + Run(g, w, h, x, y, 0, -1, g[x][y], cap);
    horiz >= v || vert >= v || leftdiag >= v || rightdiag >= v
  }

  /** Whether the piece at (x, y) wins, with the board's own cap of `v` steps per direction. */
  function LastMoveWins(g: Cells, w: int, h: int, x: int, y: int, v: int): (won: bool)
    requires Shaped(g, w, h) && 0 <= x < w && 0 <= y < h
    ensures v <= 1 ==> won
  {
    WinsWithCap(g, w, h, x, y, v, Cap(v))
  }

  // ----- A reference definition: `v` cells in a row through the landing cell -----

  /** Steps `s` to `s + v - 1` along (dx, dy) from (x, y) all hold `p`. */
  predicate Window(g: Cells, w: int, h: int, x: int, y: int, dx: int, dy: int, p: int, s: int, v: int)
    requires Shaped(g, w, h)
  {
    forall k :: s <= k < s + v ==> OnAxis(g, w, h, x, y, dx, dy, p, k)
  }

  /** Some `v` consecutive cells on the axis (dx, dy) through (x, y), the landing cell among
      them, all hold the landing cell's mark. */
  predicate LineThrough(g: Cells, w: int, h: int, x: int, y: int, dx: int, dy: int, v: int)
    requires Shaped(g, w, h) && 0 <= x < w && 0 <= y < h
  {
    exists s :: -v < s <= 0 && Window(g, w, h, x, y, dx, dy, g[x][y], s, v)
  }

  /** A line of `v` through (x, y) on one of the four axes. */
  predicate AnyLine(g: Cells, w: int, h: int, x: int, y: int, v: int)
    requires Shaped(g, w, h) && 0 <= x < w && 0 <= y < h
  {
    LineThrough(g, w, h, x, y, 1, 0, v) || LineThrough(g, w, h, x, y, 0, 1, v) ||
    LineThrough(g, w, h, x, y, 1, 1, v) || LineThrough(g, w, h, x, y, 1, -1, v)
  }

  /** Walking the opposite direction `k` steps is walking this one `-k` steps. */
  lemma OnAxisFlip(g: Cells, w: int, h: int, x: int, y: int, dx: int, dy: int, p: int, k: int)
    requires Shaped(g, w, h)
    ensures OnAxis(g, w, h, x, y, -dx, -dy, p, k) == OnAxis(g, w, h, x, y, dx, dy, p, -k)
  {
  }

  /** Counting outward both ways, capped at `v`, reaches `v` exactly when there is a line
      of `v` on that axis through the landing cell. */
  lemma AxisCountIffLine(g: Cells, w: int, h: int, x: int, y: int, dx: int, dy: int, v: int)
    requires Shaped(g, w, h) && 0 <= x < w && 0 <= y < h && v >= 1
    ensures AxisCount(g, w, h, x, y, dx, dy, Cap(v)) >= v <==> LineThrough(g, w, h, x, y, dx, dy, v)
  {
    var p := g[x][y];
    var a := Run(g, w, h, x, y, dx, dy, p, v);
    var b := Run(g, w, h, x, y, -dx, -dy, p, v);
    RunSpec(g, w, h, x, y, dx, dy, p, v);
    RunSpec(g, w, h, x, y, -dx, -dy, p, v);
    assert OnAxis(g, w, h, x, y, dx, dy, p, 0);
    if 1 + a + b >= v {
      var s := if b >= v - 1 then -(v - 1) else -b;
      forall k | s <= k < s + v ensures OnAxis(g, w, h, x, y, dx, dy, p, k) {
        if k < 0 {
          OnAxisFlip(g, w, h, x, y, dx, dy, p, -k);
        }
      }
      assert Window(g, w, h, x, y, dx, dy, p, s, v);
    }
    if LineThrough(g, w, h, x, y, dx, dy, v) {
      var s :| -v < s <= 0 && Window(g, w, h, x, y, dx, dy, p, s, v);
      RunAtLeast(g, w, h, x, y, dx, dy, p, v, s + v - 1);
      var bdx, bdy := -dx, -dy;
      forall j | 1 <= j <= -s ensures OnAxis(g, w, h, x, y, bdx, bdy, p, j) {
        OnAxisFlip(g, w, h, x, y, dx, dy, p, j);
      }
      RunAtLeast(g, w, h, x, y, bdx, bdy, p, v, -s);
    }
  }

  /** When the cell above the landing cell is off the board or not the mover's, the
      upward probe counts nothing, so the downward-only vertical count is the two-way count. */
  lemma UpwardRunEmpty(g: Cells, w: int, h: int, x: int, y: int, cap: nat)
    requires Shaped(g, w, h) && 0 <= x < w && 0 <= y < h
    requires y + 1 == h || g[x][y + 1] != g[x][y]
    ensures Run(g, w, h, x, y, 0, 1, g[x][y], cap) == 0
    ensures 1 + Run(g, w, h, x, y, 0, -1, g[x][y], cap) == AxisCount(g, w, h, x, y, 0, 1, cap)
  {
  }

  /** The board's win check is the reference one: it reports a win exactly when the landing
      cell lies on a line of `v` equal marks, provided the cell above it is not the mover's. */
  lemma LastMoveWinsIffLine(g: Cells, w: int, h: int, x: int, y: int, v: int)
    requires Shaped(g, w, h) && 0 <= x < w && 0 <= y < h && v >= 1
    requires y + 1 == h || g[x][y + 1] != g[x][y]
    ensures LastMoveWins(g, w, h, x, y, v) <==> AnyLine(g, w, h, x, y, v)
  {
    UpwardRunEmpty(g, w, h, x, y, Cap(v));
    AxisCountIffLine(g, w, h, x, y, 1, 0, v);
    AxisCountIffLine(g, w, h, x, y, 0, 1, v);
    AxisCountIffLine(g, w, h, x, y, 1, 1, v);
    AxisCountIffLine(g, w, h, x, y, 1, -1, v);
  }

  /** Capping each direction at `v` steps never changes the verdict: any larger cap,
      including one past the board's size, gives the same answer. */
  lemma CapNeverMatters(g: Cells, w: int, h: int, x: int, y: int, v: int, c: nat)
    requires Shaped(g, w, h) && 0 <= x < w && 0 <= y < h && c >= Cap(v)
    ensures WinsWithCap(g, w, h, x, y, v, Cap(v)) == WinsWithCap(g, w, h, x, y, v, c)
  {
    var p := g[x][y];
    RunCapped(g, w, h, x, y, 1, 1, p, Cap(v), c);
    RunCapped(g, w, h, x, y, -1, -1, p, Cap(v), c);
    RunCapped(g, w, h, x, y, 1, 0, p, Cap(v), c);
    RunCapped(g, w, h, x, y, -1, 0, p, Cap(v), c);
    RunCapped(g, w, h, x, y, 1, -1, p, Cap(v), c);
    RunCapped(g, w, h, x, y, -1, 1, p, Cap(v), c);
    RunCapped(g, w, h, x, y, 0, -1, p, Cap(v), c);
  }

  /** A victory condition longer than both the width and the height can never be met. */
  lemma TooLongNeverWins(g: Cells, w: int, h: int, x: int, y: int, v: int, cap: nat)
    requires Shaped(g, w, h) && 0 <= x < w && 0 <= y < h && v > w && v > h
    ensures !WinsWithCap(g, w, h, x, y, v, cap)
  {
    var p := g[x][y];
    RunInBounds(g, w, h, x, y, 1, 1, p, cap);
    RunInBounds(g, w, h, x, y, -1, -1, p, cap);
    RunInBounds(g, w, h, x, y, 1, 0, p, cap);
    RunInBounds(g, w, h, x, y, -1, 0, p, cap);
    RunInBounds(g, w, h, x, y, 1, -1, p, cap);
    RunInBounds(g, w, h, x, y, -1, 1, p, cap);
    RunInBounds(g, w, h, x, y, 0, -1, p, cap);
  }
}
