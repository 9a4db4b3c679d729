/** The per-generation transition of the Game of Life, as a function on grid
    values, and its iteration. */
module Evolution {
  import opened GridModel

  /** The driver's test: exactly three live neighbours, or two and already alive. */
  predicate Survives(alive: bool, neighbours: nat): (next: bool)
    ensures next ==> neighbours == 2 || neighbours == 3
    ensures neighbours == 3 ==> next
    ensures !alive && next ==> neighbours == 3
  {
    neighbours == 3 || (neighbours == 2 && alive)
  }

  /** The successor of a grid: every in-range cell is decided by `Survives`
      from the state and the census of the current grid alone. */
  function Step(g: Grid): (next: Grid)
    requires Wf(g)
    ensures Wf(next) && next.rows == g.rows && next.cols == g.cols && next.toroidal == g.toroidal
  {
    Grid(g.rows, g.cols, g.toroidal,
         seq(g.rows, i requires 0 <= i < g.rows =>
           seq(g.cols, j requires 0 <= j < g.cols => Survives(Cell(g, i, j), LiveNeighbours(g, i, j)))))
  }

  /** The rule of the game for one cell: a live cell with two or three live
      neighbours stays alive, a dead cell with exactly three comes alive, and
      every other cell is dead in the next generation. */
  lemma StepRule(g: Grid, i: nat, j: nat)
    requires Wf(g) && InGrid(g, i, j)
    ensures Cell(Step(g), i, j) <==>
              (Cell(g, i, j) && (LiveNeighbours(g, i, j) == 2 || LiveNeighbours(g, i, j) == 3))
              || (!Cell(g, i, j) && LiveNeighbours(g, i, j) == 3)
  {
  }

  /** The n-th successor of g. */
  function Iterate(g: Grid, n: nat): (s: Grid)
    requires Wf(g)
    ensures Wf(s) && s.rows == g.rows && s.cols == g.cols && s.toroidal == g.toroidal
  {
    if n == 0 then g else Step(Iterate(g, n - 1))
  }

  /** A universe with no live cell has no live cell in the next generation. */
  lemma StepKeepsDead(g: Grid)
    requires Wf(g) && AllDead(g)
    ensures AllDead(Step(g))
  {
    forall i, j ensures !Cell(Step(g), i, j) {
      if InGrid(g, i, j) {
        DeadCensus(g, i, j);
        StepRule(g, i, j);
      }
    }
  }

  /** A universe with no live cell stays empty for any number of generations. */
  lemma {:induction false} IterateKeepsDead(g: Grid, n: nat)
    requires Wf(g) && AllDead(g)
    ensures AllDead(Iterate(g, n))
  {
    if n > 0 {
      var prev := Iterate(g, n - 1);
      assert AllDead(prev) by { IterateKeepsDead(g, n - 1); }
      assert AllDead(Step(prev)) by { StepKeepsDead(prev); }
      assert Iterate(g, n) == Step(prev);
    }
  }
}
