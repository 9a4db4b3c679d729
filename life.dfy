/** The evolution driver: one generation computed from one universe into the
    other, the double-buffered generation loop, and the program's run from
    loaded cells to printed final state. */
module Life {
  import opened GridModel
  import opened Evolution
  import opened Universes

  /** One pass of the generation loop: every cell of `next` is set from the
      census and state of `current`, which is only read. */
  method Generation(current: Universe, next: Universe)
    requires current.Valid() && next.Valid() && current.grid != next.grid
    requires current.rows == next.rows && current.cols == next.cols
    requires current.toroidal == next.toroidal
    modifies next`model, next.grid
    ensures current.Valid() && next.Valid()
    ensures current.model == old(current.model)
    ensures next.model == Step(current.model)
  {
    ghost var g := current.model;
    for i := 0 to current.Rows()
      invariant current.Valid() && next.Valid() && current.model == g
      invariant forall x, y :: 0 <= x < i && 0 <= y < next.cols ==>
                  next.grid[x, y] == Survives(Cell(g, x, y), LiveNeighbours(g, x, y))
    {
      GenerationRow(current, next, i);
    }
    SameGrid(next.model, Step(g));
  }

  /** The inner loop of one generation pass: row i of `next` is set from
      `current`; the other rows of `next` keep their cells. */
  method GenerationRow(current: Universe, next: Universe, i: nat)
    requires current.Valid() && next.Valid() && current.grid != next.grid
    requires current.rows == next.rows && current.cols == next.cols
    requires i < current.rows
    modifies next`model, next.grid
    ensures current.Valid() && next.Valid()
    ensures current.model == old(current.model)
    ensures forall y :: 0 <= y < next.cols ==>
              next.grid[i, y] == Survives(Cell(current.model, i, y), LiveNeighbours(current.model, i, y))
    ensures forall x, y :: 0 <= x < next.rows && x != i && 0 <= y < next.cols ==>
              next.grid[x, y] == old(next.grid[x, y])
  {
    ghost var g := current.model;
    for j := 0 to current.Cols()
      invariant current.Valid() && next.Valid() && current.model == g
      invariant forall y :: 0 <= y < j ==>
                  next.grid[i, y] == Survives(Cell(g, i, y), LiveNeighbours(g, i, y))
      invariant forall x, y :: 0 <= x < next.rows && x != i && 0 <= y < next.cols ==>
                  next.grid[x, y] == old(next.grid[x, y])
    {
      var liveNeighbours := current.Census(i, j);
      if liveNeighbours == 3 || (liveNeighbours == 2 && current.GetCell(i, j)) {
        next.LiveCell(i, j);
      } else {
        next.DeadCell(i, j);
      }
    }
  }

  /** Runs the given number of generations, swapping the roles of the two
      universes after each one. The swap exchanges the procedure's own
      references only: the caller's first universe ends on the last even
      generation and its second on the last odd one. */
  method PlayGame(generations: nat, uA: Universe, uB: Universe)
    requires uA.Valid() && uB.Valid() && uA.grid != uB.grid
    requires uA.rows == uB.rows && uA.cols == uB.cols && uA.toroidal == uB.toroidal
    modifies uA`model, uA.grid, uB`model, uB.grid
    ensures uA.Valid() && uB.Valid()
    ensures (if generations % 2 == 0 then uA else uB).model == Iterate(old(uA.model), generations)
    ensures uA.model == Iterate(old(uA.model), generations - generations % 2)
    ensures generations > 0 ==>
      uB.model == Iterate(old(uA.model), generations - 1 + generations % 2)
    ensures generations == 0 ==> uB.model == old(uB.model)
  {
    ghost var start := uA.model;
    var current, next := uA, uB;
    for g := 0 to generations
      invariant current.Valid() && next.Valid()
      invariant current == (if g % 2 == 0 then uA else uB)
      invariant next == (if g % 2 == 0 then uB else uA)
      invariant current.model == Iterate(start, g)
      invariant g > 0 ==> next.model == Iterate(start, g - 1)
      invariant g == 0 ==> next.model == old(uB.model)
    {
      Generation(current, next);
      var temp := current;
      current := next;
      next := temp;
    }
  }

  /** Creates both universes, loads the live cells into the first and, only
      when every pair was accepted, plays the generations and prints the
      first universe. Returns the exit status and the printed text. */
  method RunLife(rows: nat, cols: nat, toroidal: bool, pairs: seq<(int, int)>, generations: nat)
    returns (status: int, output: string)
    ensures var loaded := Load(Blank(rows, cols), pairs);
      && (status == 0 <==> loaded.ok)
      && (status == 1 <==> !loaded.ok)
      && output == if loaded.ok then Render(Iterate(loaded.grid, generations - generations % 2)) else []
  {
    var uA := new Universe(rows, cols, toroidal);
    var uB := new Universe(rows, cols, toroidal);
    var ok := uA.Populate(pairs);
    if ok {
      PlayGame(generations, uA, uB);
      output := uA.Print();
      status := 0;
    } else {
      output := [];
      status := 1;
    }
  }
}
