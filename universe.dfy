/** The universe object: a fixed-size grid of cells updated in place, with
    bounds-checked accessors, the loader, the neighbour census and the
    renderer. Each operation is proved against the value model in GridModel. */
module Universes {
  import opened GridModel

  class Universe {
    const rows: nat
    const cols: nat
    /** grid[r, c] is true when cell (r, c) is alive. */
    const grid: array2<bool>
    /** Wrap-around topology. Nothing in the program ever sets it. */
    var toroidal: bool

    /** The value this universe currently holds. */
    ghost var model: Grid

    /** The array holds exactly the cells of `model`, whose shape and flag
        are those of the object. */
    ghost predicate Valid()
      reads this, grid
    {
      && Wf(model) && model.rows == rows && model.cols == cols && model.toroidal == toroidal
      && grid.Length0 == rows && grid.Length1 == cols
      && forall i, j :: 0 <= i < rows && 0 <= j < cols ==> grid[i, j] == Cell(model, i, j)
    }

    /** Allocates a rows-by-cols universe with every cell dead. The topology
        argument is overwritten with false and never stored, so the flag keeps
        the zero it was allocated with whatever the caller asked for. */
    constructor (rows: nat, cols: nat, toroidal: bool)
      ensures Valid() && fresh(grid)
      ensures this.rows == rows && this.cols == cols && !this.toroidal
      ensures model == Blank(rows, cols)
    {
      var cells := new bool[rows, cols];
      for r := 0 to rows
        invariant forall i, j :: 0 <= i < r && 0 <= j < cols ==> !cells[i, j]
      {
        for c := 0 to cols
          invariant forall i, j :: 0 <= i < r && 0 <= j < cols ==> !cells[i, j]
          invariant forall j :: 0 <= j < c ==> !cells[r, j]
        {
          cells[r, c] := false;
        }
      }
      this.rows := rows;
      this.cols := cols;
      grid := cells;
      this.toroidal := false;
      model := Blank(rows, cols);
    }

    function Rows(): (n: nat)
      reads this, grid
      requires Valid()
      ensures n == grid.Length0
    {
      rows
    }

    function Cols(): (n: nat)
      reads this, grid
      requires Valid()
      ensures n == grid.Length1
    {
      cols
    }

    /** Marks (r, c) live; a pair outside the grid is ignored. */
    method LiveCell(r: int, c: int)
      requires Valid()
      modifies this`model, grid
      ensures Valid() && model == WithCell(old(model), r, c, true)
      ensures forall i, j :: 0 <= i < rows && 0 <= j < cols ==>
                grid[i, j] == if i == r && j == c then true else old(grid[i, j])
    {
      if 0 <= r < rows && 0 <= c < cols {
        grid[r, c] := true;
      }
      model := WithCell(model, r, c, true);
    }

    /** Marks (r, c) dead; a pair outside the grid is ignored. */
    method DeadCell(r: int, c: int)
      requires Valid()
      modifies this`model, grid
      ensures Valid() && model == WithCell(old(model), r, c, false)
      ensures forall i, j :: 0 <= i < rows && 0 <= j < cols ==>
                grid[i, j] == if i == r && j == c then false else old(grid[i, j])
    {
      if 0 <= r < rows && 0 <= c < cols {
        grid[r, c] := false;
      }
      model := WithCell(model, r, c, false);
    }

    /** The state of (r, c), and dead for any pair outside the grid. */
    function GetCell(r: int, c: int): (alive: bool)
      reads this, grid
      requires Valid()
      ensures alive == Cell(model, r, c)
    {
      if 0 <= r < rows && 0 <= c < cols then grid[r, c] else false
    }

    /** Marks each listed cell live in order and returns false at the first
        pair outside the grid, leaving the earlier pairs applied. */
    method Populate(pairs: seq<(int, int)>) returns (ok: bool)
      requires Valid()
      modifies this`model, grid
      ensures Valid() && Loaded(ok, model) == Load(old(model), pairs)
    {
      var k := 0;
      while k < |pairs|
        invariant Valid() && k <= |pairs|
        invariant Load(old(model), pairs) == Load(model, pairs[k..])
      {
        var (r, c) := pairs[k];
        assert pairs[k..] == [pairs[k]] + pairs[k + 1..];
        if r < 0 || r >= rows || c < 0 || c >= cols {
          return false;
        }
        LiveCell(r, c);
        k := k + 1;
      }
      return true;
    }

    /** The census of (r, c): the live cells in the clipped 3x3 block around
        it, the cell itself excluded, plus the wrap-around terms when the flag
        is set. */
    method Census(r: nat, c: nat) returns (n: nat)
      requires Valid() && r < rows && c < cols
      ensures n == LiveNeighbours(model, r, c) && n <= 8
      ensures !toroidal ==> n == |NeighbourSet(model, r, c)|
    {
      var block := CensusBlock(r, c);
      var wrap := CensusWrap(r, c);
      n := block + wrap;
      CensusCountsNeighbours(model, r, c);
    }

    /** The nested loops of the census over the block clipped at the edges. */
    method CensusBlock(r: nat, c: nat) returns (n: nat)
      requires Valid() && r < rows && c < cols
      ensures n == BlockCount(model, r, c)
    {
      var rowLow := if r == 0 then 0 else r - 1;
      var rowHigh := if r == rows - 1 then rows - 1 else r + 1;
      var colLow := if c == 0 then 0 else c - 1;
      var colHigh := if c == cols - 1 then cols - 1 else c + 1;
      ghost var g := model;
      assert rowLow == RowLow(r) && rowHigh == RowHigh(g, r);
      assert colLow == ColLow(c) && colHigh == ColHigh(g, c);
      n := CensusRows(g, r, c, rowLow, rowHigh, colLow, colHigh);
    }

    /** The outer loop of the census: live cells other than (r, c) in rows
        rowLow to rowHigh, columns colLow to colHigh. */
    method CensusRows(ghost g: Grid, r: nat, c: nat, rowLow: nat, rowHigh: nat, colLow: nat, colHigh: int)
      returns (n: nat)
      requires Valid() && g == model
      ensures n == LiveInRows(g, r, c, rowLow, rowHigh + 1, colLow, colHigh + 1)
    {
      n := 0;
      var i := rowLow;
      while i <= rowHigh
        invariant rowLow <= i
        invariant i <= rowHigh + 1 || i == rowLow
        invariant n == LiveInRows(g, r, c, rowLow, i, colLow, colHigh + 1)
      {
        var inRow := CensusRow(g, r, c, i, colLow, colHigh);
        n := n + inRow;
        i := i + 1;
      }
    }

    /** The wrap-around tests of the census: the other end of the column for
        the first and last row, the other end of the row for the other rows. */
    method CensusWrap(r: nat, c: nat) returns (n: nat)
      requires Valid() && r < rows && c < cols
      ensures n == WrapCount(model, r, c)
    {
      n := 0;
      if r == 0 && toroidal && GetCell(rows - 1, c) {
        n := n + 1;
      }
      if r == rows - 1 && toroidal && GetCell(0, c) {
        n := n + 1;
      }
      if c == 0 && r != 0 && r != rows - 1 && toroidal && GetCell(r, cols - 1) {
        n := n + 1;
      }
      if c == cols - 1 && r != 0 && r != rows - 1 && toroidal && GetCell(r, 0) {
        n := n + 1;
      }
    }

    /** The inner loop of the census: live cells other than (r, c) in row i,
        columns colLow to colHigh. */
    method CensusRow(ghost g: Grid, r: nat, c: nat, i: nat, colLow: nat, colHigh: int) returns (n: nat)
      requires Valid() && g == model
      ensures n == LiveInRow(g, r, c, i, colLow, colHigh + 1)
    {
      n := 0;
      var j := colLow;
      while j <= colHigh
        invariant colLow <= j
        invariant j <= colHigh + 1 || j == colLow
        invariant n == LiveInRow(g, r, c, i, colLow, j)
      {
        if !(i == r && j == c) && GetCell(i, j) {
          n := n + 1;
        }
        j := j + 1;
      }
    }

    /** The universe as text: one line per row, 'o' for a live cell and '.'
        for a dead one. */
    method Print() returns (text: string)
      requires Valid()
      ensures text == Render(model)
    {
      ghost var g := model;
      text := [];
      for r := 0 to rows
        invariant text == RenderRows(g, r)
      {
        var line := [];
        for c := 0 to cols
          invariant line == RenderRow(g, r, c)
        {
          line := line + [if GetCell(r, c) then 'o' else '.'];
        }
        text := text + line + "\n";
      }
    }
  }
}
