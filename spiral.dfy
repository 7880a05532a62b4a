/** The clockwise spiral over the fixed 5x5 grid of `LatticeCrypto`, and the
    walker both of its spiral loops run: start at (0,0) heading right, and
    before every move turn clockwise when the cell ahead is off the grid or
    already taken. */
module Spiral {
  import opened Grids

  /** `this.gridSize`, fixed to 5 by the constructor. */
  const Side: nat := 5

  /** A direction `[dx, dy]`: `dx` moves between rows, `dy` between columns. */
  datatype Heading = Heading(dx: int, dy: int)

  const Right := Heading(0, 1)
  const Down := Heading(1, 0)
  const Left := Heading(0, -1)
  const Up := Heading(-1, 0)

  function Ahead(p: Pos, h: Heading): Pos {
    Pos(p.x + h.dx, p.y + h.dy)
  }

  /** The number of cells of the grid, and of iterations of `spiralEncrypt`. */
  const Cells: nat := Side * Side

  /** The `k`-th cell of the clockwise spiral: the top row left to right, the
      right column downwards, the bottom row right to left, the left column
      upwards, then the same around the inner 3x3 ring, then the centre. */
  function Order(k: nat): (p: Pos)
    requires k < Cells
    ensures InGrid(p, Side)
  {
    if k < 5 then Pos(0, k)            // outer ring, top row
    else if k < 9 then Pos(k - 4, 4)   // outer ring, right column
    else if k < 13 then Pos(4, 12 - k) // outer ring, bottom row
    else if k < 16 then Pos(16 - k, 0) // outer ring, left column
    else if k < 19 then Pos(1, k - 15) // inner ring, top row
    else if k < 21 then Pos(k - 17, 3) // inner ring, right column
    else if k < 23 then Pos(3, 23 - k) // inner ring, bottom row
    else if k < 24 then Pos(2, 1)      // inner ring, left column
    else Pos(2, 2)                     // centre
  }

  /** The heading with which the spiral enters `Order(k)` (the start heading,
      right, for the first cell). */
  function Entering(k: nat): Heading
    requires k < Cells
  {
    if k < 5 then Right
    else if k < 9 then Down
    else if k < 13 then Left
    else if k < 16 then Up
    else if k < 19 then Right
    else if k < 21 then Down
    else if k < 23 then Left
    else if k < 24 then Up
    else Right
  }

  /** The step at which the spiral takes cell `p`. */
  function Rank(p: Pos): nat
    requires InGrid(p, Side)
  {
    if p.x == 0 then p.y
    else if p.y == 4 then 4 + p.x
    else if p.x == 4 then 12 - p.y
    else if p.y == 0 then 16 - p.x
    else if p.x == 1 then 15 + p.y
    else if p.y == 3 then 17 + p.x
    else if p.x == 3 then 23 - p.y
    else if p.y == 1 then 23
    else 24
  }

  /** `Rank` and `Order` are inverse: the spiral visits every cell of the grid
      exactly once, and `Rank(p)` is the step at which it visits `p`. */
  lemma OrderRankInverse()
    ensures forall k :: 0 <= k < Cells ==> InGrid(Order(k), Side) && Rank(Order(k)) == k
    ensures forall p :: InGrid(p, Side) ==> Rank(p) < Cells && Order(Rank(p)) == p
  {
  }

  /** The state of a spiral loop before an iteration: the cell it stands on
      and the heading it arrived with. */
  datatype Walker = Walker(at: Pos, heading: Heading)

  /** Once all 25 cells are taken the walker keeps turning at every step and
      circles through these four inner cells for ever. */
  const Cycle: seq<Walker> := [
    Walker(Pos(3, 2), Down), Walker(Pos(3, 1), Left),
    Walker(Pos(2, 1), Up), Walker(Pos(2, 2), Right)]

  /** A spiral loop before iteration `i`: the walker, and the cells taken by
      iterations `0..i-1` (nulled by `spiralEncrypt`, written by the fill
      loop of `decrypt`). */
  datatype Run = Run(walker: Walker, taken: set<Pos>)

  /** The loop starts on (0,0) heading right with nothing taken, and
      iteration `i` takes its own cell and then makes one `Step` with the
      cells taken so far. */
  function RunAt(i: nat): Run
  {
    if i == 0 then Run(Walker(Pos(0, 0), Right), {})
    else
      var r := RunAt(i - 1);
      var taken := r.taken + {r.walker.at};
      Run(Step(r.walker, taken), taken)
  }

  /** The walker of a spiral loop before iteration `i`. */
  function WalkerAt(i: nat): Walker
  {
    RunAt(i).walker
  }

  /** The cells taken by iterations `0..i-1`. */
  function Visited(i: nat): set<Pos>
  {
    RunAt(i).taken
  }

  /** Iteration `i` takes the walker's cell and then steps with the cells
      taken so far. */
  lemma RunStep(i: nat)
    ensures Visited(i + 1) == Visited(i) + {WalkerAt(i).at}
    ensures WalkerAt(i + 1) == Step(WalkerAt(i), Visited(i + 1))
  {
  }

  /** One iteration of either spiral loop: when the cell ahead is off the grid
      or already taken, turn clockwise; then move one cell. */
  function Step(w: Walker, taken: set<Pos>): Walker {
    var ahead := Ahead(w.at, w.heading);
    // the 90 degree turn `[dx, dy] = [dy, -dx]`: right, down, left, up, right
    var h := if !InGrid(ahead, Side) || ahead in taken then Heading(w.heading.dy, -w.heading.dx) else w.heading;
    Walker(Ahead(w.at, h), h)
  }

  /** The closed form of the walk: the spiral for the first 25 iterations,
      then the cycle. */
  function SpiralAt(i: nat): (w: Walker)
    ensures InGrid(w.at, Side)
  {
    if i < Cells then Walker(Order(i), Entering(i))
    else Cycle[Phase(i - Cells)]
  }

  /** The place on the cycle `m` iterations after the spiral: the four
      walkers in turn, for ever (`m mod 4`, counted without division). */
  function Phase(m: nat): (j: nat)
    ensures j < 4
  {
    if m < 4 then m else Phase(m - 4)
  }

  /** One more iteration moves one place along the cycle. */
  lemma {:induction false} PhaseNext(m: nat)
    ensures Phase(m + 1) == if Phase(m) == 3 then 0 else Phase(m) + 1
  {
    if m >= 4 {
      PhaseNext(m - 4);
    }
  }

  /** The turn rule generates exactly the clockwise spiral, then the cycle. */
  lemma {:induction false} WalkerIsSpiral(i: nat)
    ensures WalkerAt(i) == SpiralAt(i)
    decreases i, 1
  {
    if i > 0 {
      WalkerIsSpiral(i - 1);
      SpiralStep(i - 1);
      var w := SpiralAt(i - 1);
      VisitedRanks(i, Ahead(w.at, w.heading));
      StepIsNext(w, i - 1);
      RunStep(i - 1);
    }
  }

  lemma StepIsNext(w: Walker, i: nat)
    requires var a := Ahead(w.at, w.heading);
      a in Visited(i + 1) <==> InGrid(a, Side) && Rank(a) <= i
    ensures Step(w, Visited(i + 1)) == Next(w, i)
  {
  }

  /** The cells taken after `i` iterations are those of rank below `i`. */
  lemma {:induction false} VisitedRanks(i: nat, p: Pos)
    ensures p in Visited(i) <==> InGrid(p, Side) && Rank(p) < i
    decreases i, 0
  {
    if i > 0 {
      VisitedRanks(i - 1, p);
      WalkerTakes(i - 1);
      if InGrid(p, Side) && Rank(p) == i - 1 {
        RankedCell(i - 1, p);
      }
    }
  }

  /** The cell taken by iteration `n` has rank `n` during the first 25
      iterations and a smaller rank after them. */
  lemma WalkerTakes(n: nat)
    ensures var q := WalkerAt(n).at;
      InGrid(q, Side) && Rank(q) <= n && (n < Cells ==> Rank(q) == n)
    decreases n, 2
  {
    WalkerIsSpiral(n);
    SpiralRank(n);
  }

  /** The cell of rank `n` is taken by iteration `n`. */
  lemma RankedCell(n: nat, p: Pos)
    requires InGrid(p, Side) && Rank(p) == n
    ensures WalkerAt(n).at == p
    decreases n, 2
  {
    WalkerIsSpiral(n);
    SpiralAtRank(p);
  }

  /** The walker never leaves the grid. */
  lemma WalkerInGrid(i: nat)
    ensures InGrid(WalkerAt(i).at, Side)
  {
    WalkerIsSpiral(i);
  }

  /** The walker stands on the cell of rank `i` during the first 25
      iterations and on an already taken cell after them. */
  lemma WalkerRank(i: nat)
    ensures InGrid(WalkerAt(i).at, Side) && Rank(WalkerAt(i).at) <= i
    ensures i < Cells ==> WalkerAt(i).at == Order(i) && Rank(WalkerAt(i).at) == i
  {
    WalkerIsSpiral(i);
    SpiralRank(i);
  }

  /** One iteration of a spiral loop as the loop sees it: the walker on
      `(x, y)` heading `(dx, dy)` takes its cell, and `blocked` is the turn
      test on the cell ahead. */
  lemma Iteration(i: nat, x: int, y: int, dx: int, dy: int, taken: set<Pos>, blocked: bool)
    requires Walker(Pos(x, y), Heading(dx, dy)) == WalkerAt(i) && taken == Visited(i)
    requires blocked <==> !InGrid(Pos(x + dx, y + dy), Side) || Pos(x + dx, y + dy) in taken + {Pos(x, y)}
    ensures InGrid(Pos(x, y), Side)
    ensures i < Cells ==> Pos(x, y) !in taken
    ensures taken + {Pos(x, y)} == Visited(i + 1)
    ensures blocked ==> WalkerAt(i + 1) == Walker(Pos(x + dy, y - dx), Heading(dy, -dx))
    ensures !blocked ==> WalkerAt(i + 1) == Walker(Pos(x + dx, y + dy), Heading(dx, dy))
  {
    WalkerInGrid(i);
    VisitedProgress(i);
    IterationTurn(i, x, y, dx, dy, taken, blocked);
  }

  /** The turn test of an iteration decides the next position and heading
      as `Step` does. */
  lemma IterationTurn(i: nat, x: int, y: int, dx: int, dy: int, taken: set<Pos>, blocked: bool)
    requires Walker(Pos(x, y), Heading(dx, dy)) == WalkerAt(i) && taken == Visited(i)
    requires blocked <==> !InGrid(Pos(x + dx, y + dy), Side) || Pos(x + dx, y + dy) in taken + {Pos(x, y)}
    ensures taken + {Pos(x, y)} == Visited(i + 1)
    ensures blocked ==> WalkerAt(i + 1) == Walker(Pos(x + dy, y - dx), Heading(dy, -dx))
    ensures !blocked ==> WalkerAt(i + 1) == Walker(Pos(x + dx, y + dy), Heading(dx, dy))
  {
    RunStep(i);
    StepRule(x, y, dx, dy, taken + {Pos(x, y)}, blocked);
  }

  /** `Step` from `(x, y)` heading `(dx, dy)`: when the cell ahead is off the
      grid or taken, turn to `(dy, -dx)` and move that way; otherwise move
      straight on. */
  lemma StepRule(x: int, y: int, dx: int, dy: int, taken: set<Pos>, blocked: bool)
    requires blocked <==> !InGrid(Pos(x + dx, y + dy), Side) || Pos(x + dx, y + dy) in taken
    ensures blocked ==> Step(Walker(Pos(x, y), Heading(dx, dy)), taken) == Walker(Pos(x + dy, y - dx), Heading(dy, -dx))
    ensures !blocked ==> Step(Walker(Pos(x, y), Heading(dx, dy)), taken) == Walker(Pos(x + dx, y + dy), Heading(dx, dy))
  {
  }

  /** During the first 25 iterations the walker stands on the spiral's cell. */
  lemma WalkerOrder(i: nat)
    requires i < Cells
    ensures WalkerAt(i).at == Order(i)
  {
    WalkerRank(i);
  }

  /** Every cell is where the walker stands at the iteration of its rank. */
  lemma WalkerAtRank(p: Pos)
    requires InGrid(p, Side)
    ensures Rank(p) < Cells && WalkerAt(Rank(p)).at == p
  {
    SpiralAtRank(p);
    WalkerIsSpiral(Rank(p));
  }

  /** During the first 25 iterations the walker stands on a cell not taken
      yet; after 25 iterations every cell is taken. */
  lemma VisitedProgress(i: nat)
    ensures i < Cells ==> WalkerAt(i).at !in Visited(i)
    ensures i >= Cells ==> forall p :: InGrid(p, Side) ==> p in Visited(i)
  {
    WalkerRank(i);
    VisitedRanks(i, WalkerAt(i).at);
    forall p | InGrid(p, Side) && i >= Cells ensures p in Visited(i) {
      VisitedRanks(i, p);
      SpiralAtRank(p);
    }
  }

  lemma SpiralRank(i: nat)
    ensures Rank(SpiralAt(i).at) <= i
    ensures i < Cells ==> SpiralAt(i).at == Order(i) && Rank(SpiralAt(i).at) == i
  {
    if i < Cells {
      OrderRankInverse();
    } else {
      var j := Phase(i - Cells);
      if j == 0 {} else if j == 1 {} else if j == 2 {} else {}
    }
  }

  lemma SpiralAtRank(p: Pos)
    requires InGrid(p, Side)
    ensures Rank(p) < Cells && SpiralAt(Rank(p)).at == p
  {
    OrderRankInverse();
  }

  /** The cell ahead is blocked after iteration `i` has taken its cell: off
      the grid, or of rank at most `i`. */
  predicate Blocked(p: Pos, i: nat) {
    !InGrid(p, Side) || Rank(p) <= i
  }

  /** `Step` with the taken cells given by their ranks. */
  function Next(w: Walker, i: nat): Walker {
    var h := if Blocked(Ahead(w.at, w.heading), i) then Heading(w.heading.dy, -w.heading.dx) else w.heading;
    Walker(Ahead(w.at, h), h)
  }

  /** The closed form follows the turn rule, with taken cells given by rank. */
  lemma SpiralStep(i: nat)
    ensures SpiralAt(0) == Walker(Pos(0, 0), Right)
    ensures SpiralAt(i + 1) == Next(SpiralAt(i), i)
  {
    if i < 16 {
      OuterRingStep(i);
    } else if i < Cells {
      InnerRingStep(i);
    } else {
      CycleStep(i);
    }
  }

  /** The first 16 iterations walk the outer ring. */
  lemma OuterRingStep(i: nat)
    requires i < 16
    ensures SpiralAt(i + 1) == Next(SpiralAt(i), i)
  {
    if i < 4 { TopRun(i); }
    else if i < 5 { assert i == 4; TopRightTurn(); }
    else if i < 8 { RightRun(i); }
    else if i < 9 { assert i == 8; BottomRightTurn(); }
    else if i < 12 { BottomRun(i); }
    else if i < 13 { assert i == 12; BottomLeftTurn(); }
    else if i < 15 { LeftRun(i); }
    else { assert i == 15; OuterRingClosed(); }
  }

  /** The next 9 walk the inner ring and end on the centre. */
  lemma InnerRingStep(i: nat)
    requires 16 <= i < Cells
    ensures SpiralAt(i + 1) == Next(SpiralAt(i), i)
  {
    if i < 18 { InnerTopRun(i); }
    else if i < 19 { assert i == 18; InnerTopRightTurn(); }
    else if i < 20 { assert i == 19; InnerRightRun(); }
    else if i < 21 { assert i == 20; InnerBottomRightTurn(); }
    else if i < 22 { assert i == 21; InnerBottomRun(); }
    else if i < 23 { assert i == 22; InnerBottomLeftTurn(); }
    else if i < 24 { assert i == 23; InnerRingClosed(); }
    else { assert i == 24; LeaveCentre(); }
  }

  /** Along the top row of the outer ring the cell ahead is free. */
  lemma TopRun(i: nat)
    requires 0 <= i < 4
    ensures SpiralAt(i + 1) == Next(SpiralAt(i), i)
  {
    StepFrom(i, Walker(Pos(0, i), Right), Walker(Pos(0, i + 1), Right));
  }

  /** At the top right corner the cell ahead is off the grid. */
  lemma TopRightTurn()
    ensures SpiralAt(5) == Next(SpiralAt(4), 4)
  {
    StepFrom(4, Walker(Pos(0, 4), Right), Walker(Pos(1, 4), Down));
  }

  /** Down the right column the cell ahead is free. */
  lemma RightRun(i: nat)
    requires 5 <= i < 8
    ensures SpiralAt(i + 1) == Next(SpiralAt(i), i)
  {
    StepFrom(i, Walker(Pos(i - 4, 4), Down), Walker(Pos(i - 3, 4), Down));
  }

  /** At the bottom right corner the cell ahead is off the grid. */
  lemma BottomRightTurn()
    ensures SpiralAt(9) == Next(SpiralAt(8), 8)
  {
    StepFrom(8, Walker(Pos(4, 4), Down), Walker(Pos(4, 3), Left));
  }

  /** Along the bottom row the cell ahead is free. */
  lemma BottomRun(i: nat)
    requires 9 <= i < 12
    ensures SpiralAt(i + 1) == Next(SpiralAt(i), i)
  {
    StepFrom(i, Walker(Pos(4, 12 - i), Left), Walker(Pos(4, 11 - i), Left));
  }

  /** At the bottom left corner the cell ahead is off the grid. */
  lemma BottomLeftTurn()
    ensures SpiralAt(13) == Next(SpiralAt(12), 12)
  {
    StepFrom(12, Walker(Pos(4, 0), Left), Walker(Pos(3, 0), Up));
  }

  /** Up the left column the cell ahead is free. */
  lemma LeftRun(i: nat)
    requires 13 <= i < 15
    ensures SpiralAt(i + 1) == Next(SpiralAt(i), i)
  {
    StepFrom(i, Walker(Pos(16 - i, 0), Up), Walker(Pos(15 - i, 0), Up));
  }

  /** Below the start cell the cell ahead is the start cell, already taken. */
  lemma OuterRingClosed()
    ensures SpiralAt(16) == Next(SpiralAt(15), 15)
  {
    StepFrom(15, Walker(Pos(1, 0), Up), Walker(Pos(1, 1), Right));
  }

  /** Along the top row of the inner ring the cell ahead is free. */
  lemma InnerTopRun(i: nat)
    requires 16 <= i < 18
    ensures SpiralAt(i + 1) == Next(SpiralAt(i), i)
  {
    StepFrom(i, Walker(Pos(1, i - 15), Right), Walker(Pos(1, i - 14), Right));
  }

  /** At each inner corner the cell ahead belongs to the outer ring. */
  lemma InnerTopRightTurn()
    ensures SpiralAt(19) == Next(SpiralAt(18), 18)
  {
    StepFrom(18, Walker(Pos(1, 3), Right), Walker(Pos(2, 3), Down));
  }

  lemma InnerRightRun()
    ensures SpiralAt(20) == Next(SpiralAt(19), 19)
  {
    StepFrom(19, Walker(Pos(2, 3), Down), Walker(Pos(3, 3), Down));
  }

  lemma InnerBottomRightTurn()
    ensures SpiralAt(21) == Next(SpiralAt(20), 20)
  {
    StepFrom(20, Walker(Pos(3, 3), Down), Walker(Pos(3, 2), Left));
  }

  lemma InnerBottomRun()
    ensures SpiralAt(22) == Next(SpiralAt(21), 21)
  {
    StepFrom(21, Walker(Pos(3, 2), Left), Walker(Pos(3, 1), Left));
  }

  lemma InnerBottomLeftTurn()
    ensures SpiralAt(23) == Next(SpiralAt(22), 22)
  {
    StepFrom(22, Walker(Pos(3, 1), Left), Walker(Pos(2, 1), Up));
  }

  lemma InnerRingClosed()
    ensures SpiralAt(24) == Next(SpiralAt(23), 23)
  {
    StepFrom(23, Walker(Pos(2, 1), Up), Walker(Pos(2, 2), Right));
  }

  /** From the centre every cell ahead is taken. */
  lemma LeaveCentre()
    ensures SpiralAt(25) == Next(SpiralAt(24), 24)
  {
    StepFrom(24, Walker(Pos(2, 2), Right), Walker(Pos(3, 2), Down));
  }

  /** With every cell taken the walker turns at each step. */
  lemma CycleStep(i: nat)
    requires Cells <= i
    ensures SpiralAt(i + 1) == Next(SpiralAt(i), i)
  {
    var j := Phase(i - Cells);
    PhaseNext(i - Cells);
    CycleNext(j, i);
    StepFrom(i, Cycle[j], Cycle[if j == 3 then 0 else j + 1]);
  }

  /** Every cell ahead of a walker on the cycle is taken, so it turns onto
      the next walker of the cycle. */
  lemma CycleNext(j: nat, i: nat)
    requires j < 4 && Cells <= i
    ensures Next(Cycle[j], i) == Cycle[if j == 3 then 0 else j + 1]
  {
  }

  lemma StepFrom(i: nat, w: Walker, w': Walker)
    requires SpiralAt(i) == w && SpiralAt(i + 1) == w'
    requires Next(w, i) == w'
    ensures SpiralAt(i + 1) == Next(SpiralAt(i), i)
  {
  }
}
