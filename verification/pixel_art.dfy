/** Pixel-art colouring: clicking a picture cell toggles it in a set of
    coloured cells; background cells ignore clicks; progress and
    completion compare the set with the picture's non-background cells. */
module PixelArt {
  import Percent

  datatype TemplateKey = Lighthouse | Cloud | Boat

  /** The picture grids; 0 is background, other values are palette colours. */
  function Grid(k: TemplateKey): seq<seq<int>>
  {
    match k
    case Lighthouse => [
      [0, 0, 1, 1, 1, 0, 0],
      [0, 0, 1, 2, 1, 0, 0],
      [0, 0, 1, 1, 1, 0, 0],
      [0, 0, 1, 2, 1, 0, 0],
      [0, 0, 1, 1, 1, 0, 0],
      [0, 1, 1, 1, 1, 1, 0],
      [1, 1, 1, 1, 1, 1, 1]]
    case Cloud => [
      [0, 0, 1, 1, 1, 0, 0],
      [0, 1, 2, 2, 2, 1, 0],
      [1, 2, 2, 2, 2, 2, 1],
      [1, 2, 2, 2, 2, 2, 1],
      [0, 1, 1, 1, 1, 1, 0]]
    case Boat => [
      [0, 0, 1, 0, 0, 0, 0],
      [0, 0, 1, 0, 0, 0, 0],
      [0, 0, 1, 0, 0, 0, 0],
      [0, 1, 2, 1, 0, 0, 0],
      [1, 2, 2, 2, 1, 0, 0],
      [1, 1, 1, 1, 1, 0, 0]]
  }

  /** A cell, keyed in the component by the string `${row}-${col}`; for
      non-negative coordinates that key is one-to-one with the pair. */
  datatype Cell = Cell(row: int, col: int)

  /** Non-zero values in a row: none exactly when the row is all background. */
  function CountNonZero(row: seq<int>): (n: nat)
    ensures n <= |row|
    ensures n == 0 <==> forall i :: 0 <= i < |row| ==> row[i] == 0
  {
    if row == [] then 0 else (if row[0] != 0 then 1 else 0) + CountNonZero(row[1..])
  }

  /** `totalPixels`: the non-zero values of the flattened grid, so zero
      exactly when the grid has nothing to colour. */
  function TotalPixels(grid: seq<seq<int>>): (t: nat)
    ensures t == 0 <==> forall r, c :: 0 <= r < |grid| && 0 <= c < |grid[r]| ==> grid[r][c] == 0
  {
    if grid == [] then 0 else CountNonZero(grid[0]) + TotalPixels(grid[1..])
  }

  /** The cells of row `r`, starting at column `c0`, holding a non-zero value. */
  function RowCells(r: int, row: seq<int>, c0: int): set<Cell>
    decreases |row|
  {
    if row == [] then {}
    else (if row[0] != 0 then {Cell(r, c0)} else {}) + RowCells(r, row[1..], c0 + 1)
  }

  lemma {:induction false} RowCellsMember(r: int, row: seq<int>, c0: int, c: Cell)
    ensures c in RowCells(r, row, c0) <==> c.row == r && c0 <= c.col < c0 + |row| && row[c.col - c0] != 0
    decreases |row|
  {
    if row != [] {
      RowCellsMember(r, row[1..], c0 + 1, c);
    }
  }

  lemma {:induction false} RowCellsSize(r: int, row: seq<int>, c0: int)
    ensures |RowCells(r, row, c0)| == CountNonZero(row)
    decreases |row|
  {
    if row != [] {
      RowCellsSize(r, row[1..], c0 + 1);
      RowCellsMember(r, row[1..], c0 + 1, Cell(r, c0));
    }
  }

  /** The non-background cells of the grid, rows numbered from `r0`. */
  function GridCells(grid: seq<seq<int>>, r0: int): set<Cell>
    decreases |grid|
  {
    if grid == [] then {} else RowCells(r0, grid[0], 0) + GridCells(grid[1..], r0 + 1)
  }

  lemma {:induction false} GridCellsMember(grid: seq<seq<int>>, r0: int, c: Cell)
    ensures c in GridCells(grid, r0) <==>
              r0 <= c.row < r0 + |grid| && 0 <= c.col < |grid[c.row - r0]| && grid[c.row - r0][c.col] != 0
    decreases |grid|
  {
    if grid != [] {
      RowCellsMember(r0, grid[0], 0, c);
      GridCellsMember(grid[1..], r0 + 1, c);
    }
  }

  /** The grid's non-background cells are as many as `totalPixels` says. */
  lemma {:induction false} GridCellsSize(grid: seq<seq<int>>, r0: int)
    ensures |GridCells(grid, r0)| == TotalPixels(grid)
    decreases |grid|
  {
    if grid != [] {
      var here := RowCells(r0, grid[0], 0);
      var rest := GridCells(grid[1..], r0 + 1);
      RowCellsSize(r0, grid[0], 0);
      GridCellsSize(grid[1..], r0 + 1);
      forall c | c in here
        ensures c !in rest
      {
        RowCellsMember(r0, grid[0], 0, c);
        GridCellsMember(grid[1..], r0 + 1, c);
      }
      assert here !! rest;
    }
  }

  /** A grid's non-background cells: exactly its in-range, non-zero cells,
      as many as `totalPixels` counts. */
  function CellsOf(g: seq<seq<int>>): (cells: set<Cell>)
    ensures |cells| == TotalPixels(g)
    ensures forall c :: c in cells <==> InGrid(g, c)
  {
    GridCellsSize(g, 0);
    forall c
      ensures c in GridCells(g, 0) <==> InGrid(g, c)
    {
      GridCellsMember(g, 0, c);
    }
    GridCells(g, 0)
  }

  predicate InGrid(g: seq<seq<int>>, c: Cell)
  {
    0 <= c.row < |g| && 0 <= c.col < |g[c.row]| && g[c.row][c.col] != 0
  }

  /** The cells that can be coloured in a picture. */
  function PictureCells(k: TemplateKey): (cells: set<Cell>)
    ensures |cells| == TotalPixels(Grid(k))
    ensures forall c :: c in cells <==> InPicture(k, c)
  {
    CellsOf(Grid(k))
  }

  predicate InPicture(k: TemplateKey, c: Cell)
  {
    InGrid(Grid(k), c)
  }

  /** The three pictures have 27, 27 and 16 cells to colour. */
  lemma TemplateTotals()
    ensures TotalPixels(Grid(Lighthouse)) == 27
    ensures TotalPixels(Grid(Cloud)) == 27
    ensures TotalPixels(Grid(Boat)) == 16
  {
    LighthouseTotal();
    CloudTotal();
    BoatTotal();
  }

  lemma TotalInRange(k: TemplateKey)
    ensures 0 < TotalPixels(Grid(k)) < 200
  {
    TemplateTotals();
  }

  lemma LighthouseTotal()
    ensures TotalPixels(Grid(Lighthouse)) == 27
  {
    var g := Grid(Lighthouse);
    assert CountNonZero(g[0]) == 3;
  }

  lemma CloudTotal()
    ensures TotalPixels(Grid(Cloud)) == 27
  {
  }

  lemma BoatTotal()
    ensures TotalPixels(Grid(Boat)) == 16
  {
  }

  datatype State = State(template: TemplateKey, started: bool, colored: set<Cell>)

  const Initial: State := State(Lighthouse, false, {})

  /** A click on the cell at (`row`, `col`) whose grid value is `value`:
      background clicks are ignored, any other click toggles the cell. */
  function Click(s: State, row: int, col: int, value: int): (t: State)
    ensures t.template == s.template && t.started == s.started
    ensures value == 0 ==> t == s
    ensures value != 0 ==> (Cell(row, col) in t.colored <==> Cell(row, col) !in s.colored)
    ensures forall c :: c != Cell(row, col) ==> (c in t.colored <==> c in s.colored)
  {
    if value == 0 then s
    else
      var key := Cell(row, col);
      s.(colored := if key in s.colored then s.colored - {key} else s.colored + {key})
  }

  /** Two clicks on the same cell cancel out. */
  lemma ClickTwice(s: State, row: int, col: int, value: int)
    ensures Click(Click(s, row, col, value), row, col, value) == s
  {
  }

  /** "Начать раскрашивать": show the grid with nothing coloured. */
  function Start(s: State): (t: State)
    ensures t.started && t.colored == {} && t.template == s.template
  {
    s.(started := true, colored := {})
  }

  /** "Очистить": uncolour everything. */
  function Reset(s: State): (t: State)
    ensures t.colored == {} && t.(colored := s.colored) == s
  {
    s.(colored := {})
  }

  /** "Выбрать другой": back to the picker; the colouring is kept. */
  function Back(s: State): (t: State)
    ensures !t.started && t.(started := s.started) == s
  {
    s.(started := false)
  }

  /** Picking a picture (offered only in the picker) keeps the colouring;
      the next start clears it. */
  function Select(s: State, k: TemplateKey): (t: State)
    ensures t.template == k && t.(template := s.template) == s
  {
    s.(template := k)
  }

  /** While the grid is shown, only cells of the current picture are
      coloured. */
  ghost predicate Consistent(s: State)
  {
    s.started ==> forall c :: c in s.colored ==> InPicture(s.template, c)
  }

  /** Every user action keeps the grid consistent: clicks carry the value
      the grid shows at the clicked cell, and pictures are picked only in
      the picker. */
  lemma ConsistentPreserved(s: State, row: int, col: int, k: TemplateKey)
    requires Consistent(s)
    ensures Consistent(Initial) && Consistent(Start(s)) && Consistent(Reset(s)) && Consistent(Back(s))
    ensures 0 <= row < |Grid(s.template)| && 0 <= col < |Grid(s.template)[row]| ==>
              Consistent(Click(s, row, col, Grid(s.template)[row][col]))
    ensures !s.started ==> Consistent(Select(s, k))
  {
    if 0 <= row < |Grid(s.template)| && 0 <= col < |Grid(s.template)[row]| {
      ClickConsistent(s, row, col, Grid(s.template)[row][col]);
    }
  }

  /** A click whose value is non-zero only on picture cells keeps the grid
      consistent. */
  lemma ClickConsistent(s: State, row: int, col: int, value: int)
    requires Consistent(s)
    requires value != 0 ==> InPicture(s.template, Cell(row, col))
    ensures Consistent(Click(s, row, col, value))
  {
  }

  /** `progress`: the rounded percentage of coloured cells out of
      `totalPixels`.  On a consistent grid it is at most 100, and 100
      exactly when every picture cell is coloured. */
  function Progress(s: State): (p: nat)
    requires Consistent(s) && s.started
    ensures Percent.IsRoundedPercent(|s.colored|, TotalPixels(Grid(s.template)), p)
    ensures p <= 100
    ensures p == 100 <==> s.colored == PictureCells(s.template)
  {
    TotalInRange(s.template);
    GridProgress(Grid(s.template), s.colored)
  }

  /** The rounded percentage of a set of non-zero cells of any grid. */
  function GridProgress(g: seq<seq<int>>, colored: set<Cell>): (p: nat)
    requires 0 < TotalPixels(g) < 200
    requires forall c :: c in colored ==> InGrid(g, c)
    ensures Percent.IsRoundedPercent(|colored|, TotalPixels(g), p)
    ensures p <= 100
    ensures p == 100 <==> colored == CellsOf(g)
  {
    FullIffAll(g, colored);
    Percent.RoundedPercentAtMost100(|colored|, TotalPixels(g));
    Percent.RoundedPercentFullIff(|colored|, TotalPixels(g));
    Percent.RoundedPercent(|colored|, TotalPixels(g))
  }

  /** On any grid, a set of its non-zero cells has `totalPixels` members
      exactly when it holds every non-zero cell. */
  lemma FullIffAll(g: seq<seq<int>>, colored: set<Cell>)
    requires forall c :: c in colored ==> InGrid(g, c)
    ensures |colored| <= TotalPixels(g)
    ensures |colored| == TotalPixels(g) <==> colored == CellsOf(g)
    ensures |colored| == TotalPixels(g) <==> forall c :: InGrid(g, c) ==> c in colored
  {
    var cells := CellsOf(g);
    assert colored <= cells;
    SubsetSize(colored, cells);
    if forall c :: InGrid(g, c) ==> c in colored {
      assert cells <= colored;
    }
  }

  lemma SubsetSize(a: set<Cell>, b: set<Cell>)
    requires a <= b
    ensures |a| <= |b|
    ensures |a| == |b| ==> a == b
    decreases b
  {
    if a != b {
      assert !(b <= a);
      var x :| x in b && x !in a;
      SubsetSize(a, b - {x});
    }
  }

  /** `isComplete`: as many cells coloured as the picture has.  On a
      consistent grid that is exactly "every picture cell is coloured". */
  /** `isComplete`: as many cells coloured as `totalPixels`.  While the grid
      is shown that is the same as having coloured the whole picture. */
  predicate IsComplete(s: State)
    ensures Consistent(s) && s.started ==> (IsComplete(s) <==> s.colored == PictureCells(s.template))
  {
    ShownFullIffAll(s);
    |s.colored| == TotalPixels(Grid(s.template))
  }

  lemma ShownFullIffAll(s: State)
    ensures Consistent(s) && s.started ==>
              (|s.colored| == TotalPixels(Grid(s.template)) <==> s.colored == PictureCells(s.template))
  {
    if Consistent(s) && s.started {
      FullIffAll(Grid(s.template), s.colored);
    }
  }

  lemma CompleteIffAllColoured(s: State)
    requires Consistent(s) && s.started
    ensures IsComplete(s) <==> forall c :: InPicture(s.template, c) ==> c in s.colored
  {
    FullIffAll(Grid(s.template), s.colored);
  }
}
