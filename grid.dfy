/**
 * The playing field: a `width` x `height` table of cell values with a ring of
 * walls, and a sparse store of velocity markers keyed by cell coordinate.
 */
module Grids {
  import opened Options

  datatype CellValue = EmptyCell | WallCell | SnakeCell | AppleCell

  /** A velocity marker: a body part that later enters (col, row) takes this velocity. */
  datatype CellVelocity = CellVelocity(col: int, row: int, velocityX: int, velocityY: int)

  /** What the traversal hands its visitor for one cell. */
  datatype Visit = Visit(col: int, row: int, value: CellValue)

  predicate At(v: CellVelocity, col: int, row: int) {
    v.col == col && v.row == row
  }

  /** No two markers share a coordinate. */
  predicate UniqueCoords(vs: seq<CellVelocity>) {
    forall i, j :: 0 <= i < j < |vs| ==> !At(vs[j], vs[i].col, vs[i].row)
  }

  /** The index of the first marker at (col, row), scanning from the front. */
  function FindIndex(vs: seq<CellVelocity>, col: int, row: int): (r: Option<nat>)
    ensures r.Some? ==> r.value < |vs| && At(vs[r.value], col, row)
    ensures r.Some? ==> forall k :: 0 <= k < r.value ==> !At(vs[k], col, row)
    ensures r.None? ==> forall k :: 0 <= k < |vs| ==> !At(vs[k], col, row)
    decreases |vs|
  {
    if |vs| == 0 then None
    else if At(vs[0], col, row) then Some(0)
    else match FindIndex(vs[1..], col, row)
      case None => None
      case Some(k) => Some(k + 1)
  }

  /** The first marker at (col, row), or None. */
  function Find(vs: seq<CellVelocity>, col: int, row: int): (r: Option<CellVelocity>)
    ensures r.Some? ==> r.value in vs && At(r.value, col, row)
    ensures r.None? <==> forall k :: 0 <= k < |vs| ==> !At(vs[k], col, row)
    ensures r.Some? && UniqueCoords(vs) ==> forall k :: 0 <= k < |vs| && At(vs[k], col, row) ==> vs[k] == r.value
  {
    match FindIndex(vs, col, row)
    case None => None
    case Some(k) => Some(vs[k])
  }

  /**
   * The store after an upsert of `data`: the marker already at its coordinate
   * takes its velocity, and otherwise `data` is appended.
   */
  function Upsert(vs: seq<CellVelocity>, data: CellVelocity): (r: seq<CellVelocity>)
    ensures Find(r, data.col, data.row) == Some(data)
    ensures |r| == if Find(vs, data.col, data.row).None? then |vs| + 1 else |vs|
    ensures forall col, row :: !(col == data.col && row == data.row) ==> Find(r, col, row) == Find(vs, col, row)
    ensures forall v :: v in r ==> v in vs || v == data
    ensures UniqueCoords(vs) ==> UniqueCoords(r)
  {
    match FindIndex(vs, data.col, data.row)
    case Some(i) =>
      var r := vs[i := vs[i].(velocityX := data.velocityX, velocityY := data.velocityY)];
      FindIndexAfterUpdate(vs, i, r[i]);
      r
    case None =>
      var r := vs + [data];
      FindIndexAfterAppend(vs, data);
      r
  }

  /** The store with every marker at (col, row) filtered out. */
  function Without(vs: seq<CellVelocity>, col: int, row: int): (r: seq<CellVelocity>)
    ensures Find(r, col, row).None?
    ensures forall c, w :: !(c == col && w == row) ==> Find(r, c, w) == Find(vs, c, w)
    ensures forall v :: v in r ==> v in vs
    ensures Find(vs, col, row).None? ==> r == vs
    ensures UniqueCoords(vs) ==> UniqueCoords(r)
    ensures UniqueCoords(vs) && Find(vs, col, row).Some? ==> |r| == |vs| - 1
    decreases |vs|
  {
    if |vs| == 0 then []
    else
      var rest := Without(vs[1..], col, row);
      FindCons(vs[0], vs[1..]);
      UniqueCons(vs[0], vs[1..]);
      assert vs == [vs[0]] + vs[1..];
      if At(vs[0], col, row) then rest
      else
        FindCons(vs[0], rest);
        UniqueCons(vs[0], rest);
        [vs[0]] + rest
  }

  lemma FindCons(x: CellVelocity, s: seq<CellVelocity>)
    ensures forall col, row :: Find([x] + s, col, row) == if At(x, col, row) then Some(x) else Find(s, col, row)
  {
    forall col, row ensures Find([x] + s, col, row) == if At(x, col, row) then Some(x) else Find(s, col, row) {
      assert ([x] + s)[1..] == s;
    }
  }

  lemma UniqueCons(x: CellVelocity, s: seq<CellVelocity>)
    ensures UniqueCoords([x] + s) <==> UniqueCoords(s) && Find(s, x.col, x.row).None?
  {
    var t := [x] + s;
    assert forall k :: 0 <= k < |s| ==> t[k + 1] == s[k];
    if UniqueCoords(s) && Find(s, x.col, x.row).None? {
      forall i, j | 0 <= i < j < |t| ensures !At(t[j], t[i].col, t[i].row) {
        if i > 0 { assert t[i] == s[i - 1] && t[j] == s[j - 1]; }
        else { assert t[j] == s[j - 1]; }
      }
    }
    if UniqueCoords(t) {
      forall i, j | 0 <= i < j < |s| ensures !At(s[j], s[i].col, s[i].row) {
        assert t[i + 1] == s[i] && t[j + 1] == s[j];
      }
      forall k | 0 <= k < |s| ensures !At(s[k], x.col, x.row) {
        assert t[0] == x && t[k + 1] == s[k];
      }
    }
  }

  lemma FindIndexAfterUpdate(vs: seq<CellVelocity>, i: nat, x: CellVelocity)
    requires i < |vs| && At(x, vs[i].col, vs[i].row)
    requires FindIndex(vs, x.col, x.row) == Some(i)
    ensures Find(vs[i := x], x.col, x.row) == Some(x)
    ensures forall col, row :: !(col == x.col && row == x.row) ==> Find(vs[i := x], col, row) == Find(vs, col, row)
    ensures forall v :: v in vs[i := x] ==> v in vs || v == x
    ensures UniqueCoords(vs) ==> UniqueCoords(vs[i := x])
  {
    var r := vs[i := x];
    assert forall k :: 0 <= k < |r| ==> r[k] == if k == i then x else vs[k];
    forall col, row | !(col == x.col && row == x.row)
      ensures Find(r, col, row) == Find(vs, col, row)
    {
      assert forall k :: 0 <= k < |r| ==> (At(r[k], col, row) <==> At(vs[k], col, row));
      SameMatchesSameFind(vs, r, col, row);
    }
    var a := FindIndex(r, x.col, x.row);
    assert a == Some(i);
    forall v | v in r ensures v in vs || v == x {
      var k :| 0 <= k < |r| && r[k] == v;
    }
  }

  /** The first matching index is what `FindIndex` returns. */
  lemma FirstMatch(vs: seq<CellVelocity>, col: int, row: int, i: int)
    requires 0 <= i < |vs| && At(vs[i], col, row)
    requires forall k :: 0 <= k < i ==> !At(vs[k], col, row)
    ensures FindIndex(vs, col, row) == Some(i)
  {
  }

  lemma NoMatch(vs: seq<CellVelocity>, col: int, row: int)
    requires forall k :: 0 <= k < |vs| ==> !At(vs[k], col, row)
    ensures FindIndex(vs, col, row) == None
  {
  }

  /** Two stores whose markers agree wherever either matches (col, row) give the same result. */
  lemma SameMatchesSameFind(a: seq<CellVelocity>, b: seq<CellVelocity>, col: int, row: int)
    requires |a| == |b|
    requires forall k :: 0 <= k < |a| ==> (At(a[k], col, row) <==> At(b[k], col, row))
    requires forall k :: 0 <= k < |a| && At(a[k], col, row) ==> a[k] == b[k]
    ensures Find(a, col, row) == Find(b, col, row)
  {
    match FindIndex(a, col, row)
    case Some(i) => FirstMatch(b, col, row, i);
    case None => NoMatch(b, col, row);
  }

  lemma FindIndexAfterAppend(vs: seq<CellVelocity>, x: CellVelocity)
    requires FindIndex(vs, x.col, x.row).None?
    ensures Find(vs + [x], x.col, x.row) == Some(x)
    ensures forall col, row :: !(col == x.col && row == x.row) ==> Find(vs + [x], col, row) == Find(vs, col, row)
    ensures UniqueCoords(vs) ==> UniqueCoords(vs + [x])
  {
    var r := vs + [x];
    assert forall k :: 0 <= k < |vs| ==> r[k] == vs[k];
    FirstMatch(r, x.col, x.row, |vs|);
    forall col, row | !(col == x.col && row == x.row)
      ensures Find(r, col, row) == Find(vs, col, row)
    {
      match FindIndex(vs, col, row)
      case Some(i) => FirstMatch(r, col, row, i);
      case None => NoMatch(r, col, row);
    }
  }

  /** Row-major flattening keeps every cell of the first `rows` rows below `rows * width`. */
  lemma RowMajorIndex(r: int, c: int, rows: int, width: int)
    requires 0 <= r < rows && 0 <= c < width
    ensures r * width + c < rows * width
    ensures (r + 1) * width == r * width + width
  {
    assert (rows - r) * width >= width by {
      assert rows - r >= 1;
    }
  }

  /**
   * The grid. `cells[row, col]` holds the value of column `col` in row `row`;
   * `cellVelocities` is the marker store.
   */
  class Grid {
    const width: int
    const height: int
    const cells: array2<CellValue>
    var cellVelocities: seq<CellVelocity>

    ghost predicate Valid()
      reads this
    {
      width >= 1 && height >= 1 &&
      cells.Length0 == height && cells.Length1 == width &&
      UniqueCoords(cellVelocities)
    }

    predicate InBounds(col: int, row: int) {
      0 <= col < width && 0 <= row < height
    }

    /** Row 0, row height-1, column 0 and column width-1 form the outer ring. */
    predicate OnBorder(col: int, row: int) {
      row == 0 || row == height - 1 || col == 0 || col == width - 1
    }

    /** Strictly inside the outer ring. */
    predicate Inside(col: int, row: int) {
      0 < col < width - 1 && 0 < row < height - 1
    }

    /** Every cell of the outer ring is a wall. */
    ghost predicate Walled()
      reads this, cells
      requires Valid()
    {
      forall row, col :: 0 <= row < height && 0 <= col < width && OnBorder(col, row) ==> cells[row, col] == WallCell
    }

    /** (col, row), strictly inside the walls, is the one Apple cell. */
    ghost predicate OnlyAppleAt(col: int, row: int)
      reads this, cells
      requires Valid()
    {
      Inside(col, row) && cells[row, col] == AppleCell &&
      forall r, c :: 0 <= r < height && 0 <= c < width && cells[r, c] == AppleCell ==> c == col && r == row
    }

    /** The state `reset` leaves: walls on the ring, empty inside, no markers. */
    ghost predicate IsReset()
      reads this, cells
      requires Valid()
    {
      cellVelocities == [] &&
      forall row, col :: 0 <= row < height && 0 <= col < width ==>
        cells[row, col] == if OnBorder(col, row) then WallCell else EmptyCell
    }

    constructor (width: int, height: int)
      requires width >= 1 && height >= 1
      ensures this.width == width && this.height == height
      ensures Valid() && IsReset() && fresh(cells)
    {
      this.width := width;
      this.height := height;
      cells := new CellValue[height, width];
      cellVelocities := [];
      new;
      Reset();
    }

    method Reset()
      requires Valid()
      modifies this, cells
      ensures Valid() && IsReset()
    {
      SetupCells();
      AddOuterWalls();
    }

    /** Clears every cell to Empty and empties the marker store. */
    method SetupCells()
      requires Valid()
      modifies this, cells
      ensures Valid() && cellVelocities == []
      ensures forall row, col :: 0 <= row < height && 0 <= col < width ==> cells[row, col] == EmptyCell
    {
      cellVelocities := [];
      var row := 0;
      while row < height
        invariant 0 <= row <= height
        invariant Valid() && cellVelocities == []
        invariant forall r, c :: 0 <= r < row && 0 <= c < width ==> cells[r, c] == EmptyCell
      {
        FillRow(row, EmptyCell);
        row := row + 1;
      }
    }

    /** Sets every cell of one row to `value`. */
    method FillRow(row: int, value: CellValue)
      requires Valid() && 0 <= row < height
      modifies cells
      ensures forall c :: 0 <= c < width ==> cells[row, c] == value
      ensures forall r, c :: 0 <= r < height && 0 <= c < width && r != row ==> cells[r, c] == old(cells[r, c])
    {
      var col := 0;
      while col < width
        invariant 0 <= col <= width
        invariant forall c :: 0 <= c < col ==> cells[row, c] == value
        invariant forall r, c :: 0 <= r < height && 0 <= c < width && r != row ==> cells[r, c] == old(cells[r, c])
      {
        cells[row, col] := value;
        col := col + 1;
      }
    }

    /** Turns the outer ring into walls and leaves every other cell as it was. */
    method AddOuterWalls()
      requires Valid()
      modifies cells
      ensures forall row, col :: 0 <= row < height && 0 <= col < width ==>
        cells[row, col] == if OnBorder(col, row) then WallCell else old(cells[row, col])
    {
      FillRow(0, WallCell);
      var row := 1;
      while row < height - 1
        invariant 1 <= row <= if height > 1 then height - 1 else 1
        invariant forall c :: 0 <= c < width ==> cells[0, c] == WallCell
        invariant forall r, c :: 0 < r < height && 0 <= c < width ==>
          cells[r, c] == if r < row && (c == 0 || c == width - 1) then WallCell else old(cells[r, c])
      {
        cells[row, 0] := WallCell;
        cells[row, width - 1] := WallCell;
        row := row + 1;
      }
      FillRow(height - 1, WallCell);
    }

    /** The value of the cell at (col, row); a wall on the ring of a walled grid, and Empty inside a freshly reset one. */
    function GetCellValue(col: int, row: int): (r: CellValue)
      reads this, cells
      requires Valid() && InBounds(col, row)
      ensures Walled() && OnBorder(col, row) ==> r == WallCell
      ensures IsReset() ==> r == if OnBorder(col, row) then WallCell else EmptyCell
    {
      cells[row, col]
    }

    method SetCellValue(col: int, row: int, value: CellValue)
      requires Valid() && InBounds(col, row)
      modifies cells
      ensures GetCellValue(col, row) == value
      ensures forall r, c :: 0 <= r < height && 0 <= c < width && !(r == row && c == col) ==> cells[r, c] == old(cells[r, c])
    {
      cells[row, col] := value;
    }

    /** The marker stored at exactly (col, row), if any. */
    function GetCellVelocity(col: int, row: int): (r: Option<CellVelocity>)
      reads this
      requires Valid()
      ensures r.Some? ==> r.value in cellVelocities && At(r.value, col, row)
      ensures r.Some? ==> forall k :: 0 <= k < |cellVelocities| && At(cellVelocities[k], col, row) ==> cellVelocities[k] == r.value
      ensures r.None? <==> forall k :: 0 <= k < |cellVelocities| ==> !At(cellVelocities[k], col, row)
    {
      Find(cellVelocities, col, row)
    }

    method SetCellVelocity(data: CellVelocity)
      requires Valid()
      modifies this
      ensures Valid() && cellVelocities == Upsert(old(cellVelocities), data)
    {
      var found := FindIndex(cellVelocities, data.col, data.row);
      match found
      case Some(i) =>
        var cellVelocity := cellVelocities[i];
        cellVelocities := cellVelocities[i := cellVelocity.(velocityX := data.velocityX, velocityY := data.velocityY)];
      case None =>
        cellVelocities := cellVelocities + [data];
    }

    method RemoveCellVelocity(col: int, row: int)
      requires Valid()
      modifies this
      ensures Valid() && cellVelocities == Without(old(cellVelocities), col, row)
    {
      cellVelocities := Without(cellVelocities, col, row);
    }

    /** `visits` holds, in row-major order, the visits of the first `rows` rows. */
    ghost predicate Traversed(visits: seq<Visit>, rows: int)
      reads this, cells
      requires Valid()
    {
      0 <= rows <= height &&
      |visits| == rows * width &&
      forall r, c :: 0 <= r < rows && 0 <= c < width ==>
        r * width + c < |visits| && visits[r * width + c] == Visit(c, r, cells[r, c])
    }

    /** The visits of the first `cols` cells of row `row`, columns ascending. */
    ghost function RowPrefix(row: int, cols: int): seq<Visit>
      reads this, cells
      requires Valid() && 0 <= row < height && 0 <= cols <= width
      decreases cols
    {
      if cols == 0 then [] else RowPrefix(row, cols - 1) + [Visit(cols - 1, row, cells[row, cols - 1])]
    }

    /** The visits of the first `rows` rows, row-major. */
    ghost function RowsPrefix(rows: int): seq<Visit>
      reads this, cells
      requires Valid() && 0 <= rows <= height
      decreases rows
    {
      if rows == 0 then [] else RowsPrefix(rows - 1) + RowPrefix(rows - 1, width)
    }

    lemma {:induction false} RowPrefixIndex(row: int, cols: int)
      requires Valid() && 0 <= row < height && 0 <= cols <= width
      ensures |RowPrefix(row, cols)| == cols
      ensures forall c :: 0 <= c < cols ==> RowPrefix(row, cols)[c] == Visit(c, row, cells[row, c])
      decreases cols
    {
      if cols > 0 {
        RowPrefixIndex(row, cols - 1);
      }
    }

    lemma {:induction false} RowsPrefixTraversed(rows: int)
      requires Valid() && 0 <= rows <= height
      ensures Traversed(RowsPrefix(rows), rows)
      decreases rows
    {
      if rows > 0 {
        RowsPrefixTraversed(rows - 1);
        RowPrefixIndex(rows - 1, width);
        AppendRow(RowsPrefix(rows - 1), RowPrefix(rows - 1, width), rows - 1);
      }
    }

    /**
     * The visits a traversal makes: one per cell, row 0 first and columns
     * ascending within a row, each carrying the cell's current value.
     */
    method ForEachCell() returns (visits: seq<Visit>)
      requires Valid()
      ensures Traversed(visits, height)
    {
      visits := [];
      var row := 0;
      while row < height
        invariant 0 <= row <= height && visits == RowsPrefix(row)
      {
        var line := RowVisits(row);
        visits := visits + line;
        row := row + 1;
      }
      RowsPrefixTraversed(height);
    }

    /** The visits of one row, columns ascending. */
    method RowVisits(row: int) returns (line: seq<Visit>)
      requires Valid() && 0 <= row < height
      ensures line == RowPrefix(row, width)
    {
      line := [];
      var col := 0;
      while col < width
        invariant 0 <= col <= width && line == RowPrefix(row, col)
      {
        line := line + [Visit(col, row, cells[row, col])];
        col := col + 1;
      }
    }

    lemma AppendRow(done: seq<Visit>, line: seq<Visit>, row: int)
      requires Valid() && Traversed(done, row) && row < height
      requires |line| == width && forall c :: 0 <= c < width ==> line[c] == Visit(c, row, cells[row, c])
      ensures Traversed(done + line, row + 1)
    {
      var visits := done + line;
      forall r, c | 0 <= r < row + 1 && 0 <= c < width
        ensures r * width + c < |visits| && visits[r * width + c] == Visit(c, r, cells[r, c])
      {
        RowMajorIndex(r, c, row + 1, width);
        if r < row {
          RowMajorIndex(r, c, row, width);
          assert visits[r * width + c] == done[r * width + c];
        } else {
          assert visits[r * width + c] == line[c];
        }
      }
      RowMajorIndex(row, 0, row + 1, width);
    }
  }
}
