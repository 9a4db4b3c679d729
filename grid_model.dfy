/** Value model of a universe: its dimensions, its topology flag and the state
    of every cell, with the pure definitions that the imperative `Universe`
    class and the evolution driver are proved against. */
module GridModel {

  /** A snapshot of a universe; `cells[r][c]` is true when cell (r, c) is alive. */
  datatype Grid = Grid(rows: nat, cols: nat, toroidal: bool, cells: seq<seq<bool>>)

  /** The cell matrix really is `rows` by `cols`. */
  predicate Wf(g: Grid) {
    |g.cells| == g.rows && forall i :: 0 <= i < g.rows ==> |g.cells[i]| == g.cols
  }

  predicate InGrid(g: Grid, r: int, c: int) {
    0 <= r < g.rows && 0 <= c < g.cols
  }

  /** Two well-formed grids with the same shape, flag and cell states are equal. */
  lemma SameGrid(g: Grid, h: Grid)
    requires Wf(g) && Wf(h)
    requires g.rows == h.rows && g.cols == h.cols && g.toroidal == h.toroidal
    requires forall i, j :: InGrid(g, i, j) ==> Cell(g, i, j) == Cell(h, i, j)
    ensures g == h
  {
    forall i | 0 <= i < g.rows
      ensures g.cells[i] == h.cells[i]
    {
      forall j | 0 <= j < g.cols
        ensures g.cells[i][j] == h.cells[i][j]
      {
        assert Cell(g, i, j) == Cell(h, i, j);
      }
    }
  }

  /** A freshly created universe: every cell dead, flag cleared. */
  function Blank(rows: nat, cols: nat): (g: Grid)
    ensures Wf(g) && g.rows == rows && g.cols == cols && !g.toroidal
    ensures AllDead(g)
  {
    Grid(rows, cols, false, seq(rows, _ => seq(cols, _ => false)))
  }

  /** Bounds-checked read: the state of (r, c), and dead for any pair outside the grid. */
  function Cell(g: Grid, r: int, c: int): (alive: bool)
    requires Wf(g)
    ensures alive ==> InGrid(g, r, c)
  {
    if InGrid(g, r, c) then g.cells[r][c] else false
  }

  ghost predicate AllDead(g: Grid)
    requires Wf(g)
  {
    forall i, j :: !Cell(g, i, j)
  }

  /** Bounds-checked write: sets (r, c) to `alive`; a pair outside the grid changes nothing. */
  function WithCell(g: Grid, r: int, c: int, alive: bool): (h: Grid)
    requires Wf(g)
    ensures Wf(h) && h.rows == g.rows && h.cols == g.cols && h.toroidal == g.toroidal
    ensures forall i, j :: Cell(h, i, j) == if InGrid(g, r, c) && i == r && j == c then alive else Cell(g, i, j)
    ensures !InGrid(g, r, c) ==> h == g
  {
    if InGrid(g, r, c) then g.(cells := g.cells[r := g.cells[r][c := alive]]) else g
  }

  // ---------------------------------------------------------------------------
  // Loading the initial live cells
  // ---------------------------------------------------------------------------

  /** Outcome of loading: whether every pair was accepted, and the grid reached. */
  datatype Loaded = Loaded(ok: bool, grid: Grid)

  /** Marks the listed cells live one by one and stops, reporting failure, at
      the first pair that lies outside the grid. */
  function Load(g: Grid, pairs: seq<(int, int)>): (res: Loaded)
    requires Wf(g)
    ensures Wf(res.grid) && res.grid.rows == g.rows && res.grid.cols == g.cols
    ensures res.grid.toroidal == g.toroidal
    decreases |pairs|
  {
    if pairs == [] then Loaded(true, g)
    else if !InGrid(g, pairs[0].0, pairs[0].1) then Loaded(false, g)
    else Load(WithCell(g, pairs[0].0, pairs[0].1, true), pairs[1..])
  }

  predicate AllInGrid(g: Grid, pairs: seq<(int, int)>) {
    forall k :: 0 <= k < |pairs| ==> InGrid(g, pairs[k].0, pairs[k].1)
  }

  /** Loading succeeds exactly when every pair lies in the grid, and then the
      live cells are the old live cells plus the listed ones. */
  lemma {:induction false} LoadAccepted(g: Grid, pairs: seq<(int, int)>)
    requires Wf(g)
    ensures Load(g, pairs).ok <==> AllInGrid(g, pairs)
    ensures AllInGrid(g, pairs) ==>
      forall i, j :: Cell(Load(g, pairs).grid, i, j) == (Cell(g, i, j) || (i, j) in pairs)
    decreases |pairs|
  {
    if pairs != [] {
      var (r, c) := pairs[0];
      if InGrid(g, r, c) {
        var h := WithCell(g, r, c, true);
        LoadAccepted(h, pairs[1..]);
        assert pairs == [pairs[0]] + pairs[1..];
        assert AllInGrid(g, pairs) <==> AllInGrid(h, pairs[1..]) by {
          if AllInGrid(h, pairs[1..]) {
            forall k | 0 <= k < |pairs| ensures InGrid(g, pairs[k].0, pairs[k].1) {
              if k > 0 { assert pairs[k] == pairs[1..][k - 1]; }
            }
          }
        }
        if AllInGrid(g, pairs) {
          forall i, j ensures Cell(Load(g, pairs).grid, i, j) == (Cell(g, i, j) || (i, j) in pairs) {
            assert (i, j) in pairs <==> (i, j) == pairs[0] || (i, j) in pairs[1..];
          }
        }
      } else {
        assert !InGrid(g, pairs[0].0, pairs[0].1);
      }
    }
  }

  /** At the first out-of-range pair `pairs[k]` loading reports failure, the
      pairs before it have been applied, and it and the later pairs have not. */
  lemma {:induction false} LoadStopsAt(g: Grid, pairs: seq<(int, int)>, k: nat)
    requires Wf(g)
    requires k < |pairs| && !InGrid(g, pairs[k].0, pairs[k].1)
    requires AllInGrid(g, pairs[..k])
    ensures !Load(g, pairs).ok
    ensures forall i, j :: Cell(Load(g, pairs).grid, i, j) == (Cell(g, i, j) || (i, j) in pairs[..k])
    decreases k
  {
    if k == 0 {
      assert pairs[..k] == [];
    } else {
      var (r, c) := pairs[0];
      assert pairs[..k][0] == pairs[0];
      var h := WithCell(g, r, c, true);
      var rest := pairs[1..][..k - 1];
      assert rest == pairs[..k][1..];
      assert AllInGrid(h, rest) by {
        forall m | 0 <= m < k - 1 ensures InGrid(h, rest[m].0, rest[m].1) {
          assert rest[m] == pairs[..k][m + 1];
        }
      }
      LoadStopsAt(h, pairs[1..], k - 1);
      forall i, j ensures Cell(Load(g, pairs).grid, i, j) == (Cell(g, i, j) || (i, j) in pairs[..k]) {
        assert pairs[..k] == [pairs[0]] + pairs[1..][..k - 1];
        assert (i, j) in pairs[..k] <==> (i, j) == pairs[0] || (i, j) in pairs[1..][..k - 1];
      }
    }
  }

  // ---------------------------------------------------------------------------
  // Neighbour census
  // ---------------------------------------------------------------------------

  /** First and last row and column of the 3x3 block around (r, c), clipped to the grid. */
  function RowLow(r: nat): nat { if r == 0 then 0 else r - 1 }
  function RowHigh(g: Grid, r: nat): int { if r == g.rows - 1 then g.rows - 1 else r + 1 }
  function ColLow(c: nat): nat { if c == 0 then 0 else c - 1 }
  function ColHigh(g: Grid, c: nat): int { if c == g.cols - 1 then g.cols - 1 else c + 1 }

  /** Cell (i, j) is live and is not the centre (r, c) itself. */
  predicate Counted(g: Grid, r: int, c: int, i: int, j: int)
    requires Wf(g)
  {
    (i != r || j != c) && Cell(g, i, j)
  }

  /** Live cells other than (r, c) in row i, columns [j0, j1). */
  function LiveInRow(g: Grid, r: int, c: int, i: int, j0: int, j1: int): nat
    requires Wf(g)
    decreases j1 - j0
  {
    if j1 <= j0 then 0
    else LiveInRow(g, r, c, i, j0, j1 - 1) + (if Counted(g, r, c, i, j1 - 1) then 1 else 0)
  }

  /** Live cells other than (r, c) in rows [i0, i1), columns [j0, j1). */
  function LiveInRows(g: Grid, r: int, c: int, i0: int, i1: int, j0: int, j1: int): nat
    requires Wf(g)
    decreases i1 - i0
  {
    if i1 <= i0 then 0
    else LiveInRows(g, r, c, i0, i1 - 1, j0, j1) + LiveInRow(g, r, c, i1 - 1, j0, j1)
  }

  /** Live cells in the clipped 3x3 block around (r, c), the centre excluded. */
  function BlockCount(g: Grid, r: nat, c: nat): nat
    requires Wf(g) && InGrid(g, r, c)
  {
    LiveInRows(g, r, c, RowLow(r), RowHigh(g, r) + 1, ColLow(c), ColHigh(g, c) + 1)
  }

  /** The wrap-around terms of a toroidal universe: the other end of the cell's
      column for the first and last row, and the other end of its row for the
      remaining rows only; never a diagonal cell. */
  function WrapCount(g: Grid, r: nat, c: nat): (w: nat)
    requires Wf(g) && InGrid(g, r, c)
    ensures !g.toroidal ==> w == 0
    ensures w <= 2
  {
    (if r == 0 && g.toroidal && Cell(g, g.rows - 1, c) then 1 else 0)
    + (if r == g.rows - 1 && g.toroidal && Cell(g, 0, c) then 1 else 0)
    + (if c == 0 && r != 0 && r != g.rows - 1 && g.toroidal && Cell(g, r, g.cols - 1) then 1 else 0)
    + (if c == g.cols - 1 && r != 0 && r != g.rows - 1 && g.toroidal && Cell(g, r, 0) then 1 else 0)
  }

  /** The census of (r, c): the clipped block plus the wrap-around terms. */
  function LiveNeighbours(g: Grid, r: nat, c: nat): (n: nat)
    requires Wf(g) && InGrid(g, r, c)
    ensures n <= 8
  {
    CensusAtMostEight(g, r, c);
    BlockCount(g, r, c) + WrapCount(g, r, c)
  }

  /** Reference definition: the live cells of the grid that differ from (r, c)
      by at most one in each coordinate. */
  ghost function NeighbourSet(g: Grid, r: int, c: int): set<(int, int)>
    requires Wf(g)
  {
    set i, j | 0 <= i < g.rows && 0 <= j < g.cols && r - 1 <= i <= r + 1 && c - 1 <= j <= c + 1
                 && (i, j) != (r, c) && Cell(g, i, j) :: (i, j)
  }

  ghost function RectSet(g: Grid, r: int, c: int, i0: int, i1: int, j0: int, j1: int): set<(int, int)>
    requires Wf(g)
  {
    set i, j | i0 <= i < i1 && j0 <= j < j1 && Counted(g, r, c, i, j) :: (i, j)
  }

  /** Widening a one-row rectangle by one column adds that column's cell
      exactly when it is counted. */
  lemma RowSetGrows(g: Grid, r: int, c: int, i: int, j0: int, j: int)
    requires Wf(g) && j0 <= j
    ensures RectSet(g, r, c, i, i + 1, j0, j + 1)
              == RectSet(g, r, c, i, i + 1, j0, j) + (if Counted(g, r, c, i, j) then {(i, j)} else {})
  {
    var before := RectSet(g, r, c, i, i + 1, j0, j);
    var after := RectSet(g, r, c, i, i + 1, j0, j + 1);
    forall p | p in after ensures p in before + (if Counted(g, r, c, i, j) then {(i, j)} else {}) {
      if p.1 < j { assert p in before; }
    }
  }

  lemma {:induction false} LiveInRowCard(g: Grid, r: int, c: int, i: int, j0: int, j1: int)
    requires Wf(g)
    ensures LiveInRow(g, r, c, i, j0, j1) == |RectSet(g, r, c, i, i + 1, j0, j1)|
    decreases j1 - j0
  {
    if j1 <= j0 {
      assert RectSet(g, r, c, i, i + 1, j0, j1) == {};
    } else {
      LiveInRowCard(g, r, c, i, j0, j1 - 1);
      RowSetGrows(g, r, c, i, j0, j1 - 1);
      assert (i, j1 - 1) !in RectSet(g, r, c, i, i + 1, j0, j1 - 1);
    }
  }

  lemma {:induction false} LiveInRowsCard(g: Grid, r: int, c: int, i0: int, i1: int, j0: int, j1: int)
    requires Wf(g)
    ensures LiveInRows(g, r, c, i0, i1, j0, j1) == |RectSet(g, r, c, i0, i1, j0, j1)|
    decreases i1 - i0
  {
    if i1 <= i0 {
      assert RectSet(g, r, c, i0, i1, j0, j1) == {};
    } else {
      LiveInRowsCard(g, r, c, i0, i1 - 1, j0, j1);
      LiveInRowCard(g, r, c, i1 - 1, j0, j1);
      var top := RectSet(g, r, c, i0, i1 - 1, j0, j1);
      var last := RectSet(g, r, c, i1 - 1, i1, j0, j1);
      assert RectSet(g, r, c, i0, i1, j0, j1) == top + last;
      assert top * last == {};
    }
  }

  /** The census without its wrap terms is the size of the reference set. */
  lemma BlockIsNeighbourSet(g: Grid, r: nat, c: nat)
    requires Wf(g) && InGrid(g, r, c)
    ensures BlockCount(g, r, c) == |NeighbourSet(g, r, c)|
  {
    LiveInRowsCard(g, r, c, RowLow(r), RowHigh(g, r) + 1, ColLow(c), ColHigh(g, c) + 1);
    assert RectSet(g, r, c, RowLow(r), RowHigh(g, r) + 1, ColLow(c), ColHigh(g, c) + 1) == NeighbourSet(g, r, c);
  }

  /** The census counts each live cell within one step of (r, c) once, and
      adds the wrap terms, which vanish when the flag is clear. */
  lemma CensusCountsNeighbours(g: Grid, r: nat, c: nat)
    requires Wf(g) && InGrid(g, r, c)
    ensures LiveNeighbours(g, r, c) == |NeighbourSet(g, r, c)| + WrapCount(g, r, c)
    ensures !g.toroidal ==> LiveNeighbours(g, r, c) == |NeighbourSet(g, r, c)|
  {
    BlockIsNeighbourSet(g, r, c);
  }

  lemma {:induction false} LiveInRowBound(g: Grid, r: int, c: int, i: int, j0: int, j1: int)
    requires Wf(g) && j0 <= j1
    ensures LiveInRow(g, r, c, i, j0, j1) <= j1 - j0 - (if i == r && j0 <= c < j1 then 1 else 0)
    decreases j1 - j0
  {
    if j1 > j0 {
      LiveInRowBound(g, r, c, i, j0, j1 - 1);
    }
  }

  lemma {:induction false} LiveInRowsBound(g: Grid, r: int, c: int, i0: int, i1: int, j0: int, j1: int)
    requires Wf(g) && i0 <= i1 && j0 <= j1
    ensures LiveInRows(g, r, c, i0, i1, j0, j1)
              <= (i1 - i0) * (j1 - j0) - (if i0 <= r < i1 && j0 <= c < j1 then 1 else 0)
    decreases i1 - i0
  {
    if i1 > i0 {
      LiveInRowsBound(g, r, c, i0, i1 - 1, j0, j1);
      LiveInRowBound(g, r, c, i1 - 1, j0, j1);
      assert (i1 - i0) * (j1 - j0) == (i1 - 1 - i0) * (j1 - j0) + (j1 - j0);
    }
  }

  /** The census never exceeds eight, in either topology: a wrap term fires
      only on an edge row or an edge column, where the clipped block holds at
      most five other cells. */
  lemma CensusAtMostEight(g: Grid, r: nat, c: nat)
    requires Wf(g) && InGrid(g, r, c)
    ensures BlockCount(g, r, c) + WrapCount(g, r, c) <= 8
  {
    var h := RowHigh(g, r) + 1 - RowLow(r);
    var w := ColHigh(g, c) + 1 - ColLow(c);
    assert BlockCount(g, r, c) <= h * w - 1 by {
      LiveInRowsBound(g, r, c, RowLow(r), RowHigh(g, r) + 1, ColLow(c), ColHigh(g, c) + 1);
    }
    if r == 0 || r == g.rows - 1 {
      assert h * w <= 6 by {
        assert h <= 2;
        if w == 1 {} else if w == 2 {} else { assert w == 3; }
      }
    } else if c == 0 || c == g.cols - 1 {
      assert h * w <= 6 by {
        assert w <= 2;
        if h == 1 {} else if h == 2 {} else { assert h == 3; }
      }
    } else {
      assert WrapCount(g, r, c) == 0;
      assert h * w <= 9 by {
        if h == 1 {} else if h == 2 {} else { assert h == 3; }
      }
    }
  }

  /** The census reads only the clipped block and the cells its wrap terms
      test: the other end of the column from the first or last row, and the
      other end of the row from the first or last column of any other row.
      Changing any other cell leaves it unchanged. In particular no diagonal
      wrap neighbour is ever counted. */
  lemma CensusIgnoresFarCells(g: Grid, r: nat, c: nat, i: int, j: int, alive: bool)
    requires Wf(g) && InGrid(g, r, c)
    requires !(r - 1 <= i <= r + 1 && c - 1 <= j <= c + 1)
    requires !(r == 0 && i == g.rows - 1 && j == c)
    requires !(r == g.rows - 1 && i == 0 && j == c)
    requires !(c == 0 && r != 0 && r != g.rows - 1 && i == r && j == g.cols - 1)
    requires !(c == g.cols - 1 && r != 0 && r != g.rows - 1 && i == r && j == 0)
    ensures LiveNeighbours(WithCell(g, i, j, alive), r, c) == LiveNeighbours(g, r, c)
  {
    var h := WithCell(g, i, j, alive);
    CensusCountsNeighbours(g, r, c);
    CensusCountsNeighbours(h, r, c);
    FarCellOutsideSet(g, r, c, i, j, alive);
    FarCellOutsideWrap(g, r, c, i, j, alive);
  }

  lemma FarCellOutsideSet(g: Grid, r: nat, c: nat, i: int, j: int, alive: bool)
    requires Wf(g)
    requires !(r - 1 <= i <= r + 1 && c - 1 <= j <= c + 1)
    ensures NeighbourSet(WithCell(g, i, j, alive), r, c) == NeighbourSet(g, r, c)
  {
    var h := WithCell(g, i, j, alive);
    forall p | p in NeighbourSet(g, r, c) ensures p in NeighbourSet(h, r, c) {
      assert Cell(h, p.0, p.1) == Cell(g, p.0, p.1);
    }
    forall p | p in NeighbourSet(h, r, c) ensures p in NeighbourSet(g, r, c) {
      assert Cell(h, p.0, p.1) == Cell(g, p.0, p.1);
    }
  }

  lemma FarCellOutsideWrap(g: Grid, r: nat, c: nat, i: int, j: int, alive: bool)
    requires Wf(g) && InGrid(g, r, c)
    requires !(r - 1 <= i <= r + 1 && c - 1 <= j <= c + 1)
    requires !(r == 0 && i == g.rows - 1 && j == c)
    requires !(r == g.rows - 1 && i == 0 && j == c)
    requires !(c == 0 && r != 0 && r != g.rows - 1 && i == r && j == g.cols - 1)
    requires !(c == g.cols - 1 && r != 0 && r != g.rows - 1 && i == r && j == 0)
    ensures WrapCount(WithCell(g, i, j, alive), r, c) == WrapCount(g, r, c)
  {
    var h := WithCell(g, i, j, alive);
    assert r == 0 ==> Cell(h, g.rows - 1, c) == Cell(g, g.rows - 1, c);
    assert r == g.rows - 1 ==> Cell(h, 0, c) == Cell(g, 0, c);
    assert c == 0 && r != 0 && r != g.rows - 1 ==> Cell(h, r, g.cols - 1) == Cell(g, r, g.cols - 1);
    assert c == g.cols - 1 && r != 0 && r != g.rows - 1 ==> Cell(h, r, 0) == Cell(g, r, 0);
  }

  /** Every census of a universe with no live cell is zero. */
  lemma DeadCensus(g: Grid, r: nat, c: nat)
    requires Wf(g) && InGrid(g, r, c) && AllDead(g)
    ensures LiveNeighbours(g, r, c) == 0
  {
    CensusCountsNeighbours(g, r, c);
    assert NeighbourSet(g, r, c) == {};
  }

  // ---------------------------------------------------------------------------
  // Rendering
  // ---------------------------------------------------------------------------

  function Glyph(alive: bool): char { if alive then 'o' else '.' }

  /** The first n characters of row r. */
  function RenderRow(g: Grid, r: int, n: nat): (line: string)
    requires Wf(g)
    ensures |line| == n
  {
    if n == 0 then [] else RenderRow(g, r, n - 1) + [Glyph(Cell(g, r, n - 1))]
  }

  /** The first k rows, each followed by a newline. */
  function RenderRows(g: Grid, k: nat): (text: string)
    requires Wf(g)
    ensures |text| == k * (g.cols + 1)
  {
    if k == 0 then [] else RenderRows(g, k - 1) + RenderRow(g, k - 1, g.cols) + "\n"
  }

  /** The text of the whole universe, one line per row. */
  function Render(g: Grid): (text: string)
    requires Wf(g)
    ensures |text| == g.rows * (g.cols + 1)
  {
    RenderRows(g, g.rows)
  }

  lemma {:induction false} RenderRowAt(g: Grid, r: int, n: nat, c: nat)
    requires Wf(g) && c < n
    ensures RenderRow(g, r, n)[c] == Glyph(Cell(g, r, c))
  {
    if c < n - 1 {
      RenderRowAt(g, r, n - 1, c);
    }
  }

  /** Row r starts at offset r * w when every row takes w characters. */
  lemma {:induction false} RowOffset(r: nat, k: nat, w: nat, c: nat)
    requires r < k && c < w
    ensures r * w + c < k * w
  {
    if r < k - 1 {
      RowOffset(r, k - 1, w, c);
    }
    assert k * w == (k - 1) * w + w;
  }

  lemma {:induction false} RenderRowsAt(g: Grid, k: nat, r: nat, c: nat)
    requires Wf(g) && r < k && c <= g.cols
    ensures r * (g.cols + 1) + c < |RenderRows(g, k)|
    ensures RenderRows(g, k)[r * (g.cols + 1) + c] == if c == g.cols then '\n' else Glyph(Cell(g, r, c))
  {
    var w := g.cols + 1;
    var prefix := RenderRows(g, k - 1);
    assert RenderRows(g, k) == prefix + RenderRow(g, k - 1, g.cols) + "\n";
    RowOffset(r, k, w, c);
    if r < k - 1 {
      RowOffset(r, k - 1, w, c);
      RenderRowsAt(g, k - 1, r, c);
    } else if c < g.cols {
      RenderRowAt(g, k - 1, g.cols, c);
    }
  }

  /** The character for (r, c) is 'o' exactly when the cell is alive and '.'
      otherwise, and each row ends with a newline. */
  lemma RenderAt(g: Grid, r: nat, c: nat)
    requires Wf(g) && r < g.rows && c <= g.cols
    ensures r * (g.cols + 1) + c < |Render(g)|
    ensures Render(g)[r * (g.cols + 1) + c] == if c == g.cols then '\n' else if Cell(g, r, c) then 'o' else '.'
  {
    RowOffset(r, g.rows, g.cols + 1, c);
    RenderRowsAt(g, g.rows, r, c);
  }

  /** Loading pairs into a blank universe and rendering it at once shows an
      'o' exactly at the listed cells. */
  lemma RenderShowsLoadedCells(rows: nat, cols: nat, pairs: seq<(int, int)>, r: nat, c: nat)
    requires Load(Blank(rows, cols), pairs).ok
    requires r < rows && c < cols
    ensures r * (cols + 1) + c < |Render(Load(Blank(rows, cols), pairs).grid)|
    ensures Render(Load(Blank(rows, cols), pairs).grid)[r * (cols + 1) + c] == if (r, c) in pairs then 'o' else '.'
  {
    LoadAccepted(Blank(rows, cols), pairs);
    RenderAt(Load(Blank(rows, cols), pairs).grid, r, c);
  }
}
