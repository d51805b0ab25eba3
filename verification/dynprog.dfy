/** `crane_unloading_dyn_prog`: fill a rows x columns table of optional paths
    in row-major order, each open cell taking the better of the path from the
    cell above (plus a south step) and the path from the cell to the left
    (plus an east step), then scan the table for the best entry. */
module DynProg {
  import opened Grids
  import opened Paths

  /** A table entry: no path reaches the cell, or the best path found. */
  datatype Option<T> = None | Some(value: T)

  type Table = seq<seq<Option<Path>>>

  predicate Shaped(A: Table, rows: nat, columns: nat) {
    |A| == rows && forall r :: 0 <= r < rows ==> |A[r]| == columns
  }

  /** `cranes_algs.hpp` lines 104-110: pick between the two extended predecessors; with
      neither, the entry keeps what it held. */
  function Combine(fromAbove: Option<Path>, fromLeft: Option<Path>, current: Option<Path>): (e: Option<Path>)
    ensures fromAbove.None? && fromLeft.None? ==> e == current
    ensures fromAbove.Some? || fromLeft.Some? ==> e == fromAbove || e == fromLeft
    ensures fromAbove.Some? ==> e.Some? && fromAbove.value.total <= e.value.total
    ensures fromLeft.Some? ==> e.Some? && fromLeft.value.total <= e.value.total
    ensures fromAbove.Some? && fromLeft.Some? && fromAbove.value.total == fromLeft.value.total
      ==> e == fromAbove
  {
    if fromAbove.Some? && fromLeft.Some? then
      if fromAbove.value.total >= fromLeft.value.total then fromAbove else fromLeft
    else if fromAbove.Some? then fromAbove
    else if fromLeft.Some? then fromLeft
    else current
  }

  /** What A[r][c] holds before its own turn: the start path at the origin,
      nothing elsewhere (`cranes_algs.hpp` lines 75-78). */
  function Initial(g: Grid, r: nat, c: nat): (e: Option<Path>)
    requires g.WellFormed()
    ensures e.Some? <==> r == 0 && c == 0
    ensures e.Some? ==> Inv(g, e.value) && e.value.steps == [] && e.value.at == Coord(r, c)
  {
    if r == 0 && c == 0 then Some(Start(g)) else None
  }

  /** `cranes_algs.hpp` lines 84-110 for one cell, given the entries above and to the left. */
  function CellEntry(g: Grid, r: nat, c: nat, above: Option<Path>, left: Option<Path>): (e: Option<Path>)
    requires g.WellFormed() && r < g.rows && c < g.columns
    requires r > 0 && above.Some? ==> Inv(g, above.value) && above.value.at == Coord(r - 1, c)
    requires c > 0 && left.Some? ==> Inv(g, left.value) && left.value.at == Coord(r, c - 1)
    ensures e.Some? ==> Inv(g, e.value) && e.value.at == Coord(r, c)
    ensures e.Some? ==> g.IsOpen(Coord(r, c))
  {
    if g.Get(r, c).Building? then None
    else
      var fromAbove :=
        if r > 0 && !g.Get(r - 1, c).Building? && above.Some?
        then Some(AddStep(g, above.value, South))
        else None;
      var fromLeft :=
        if c > 0 && !g.Get(r, c - 1).Building? && left.Some?
        then Some(AddStep(g, left.value, East))
        else None;
      Combine(fromAbove, fromLeft, Initial(g, r, c))
  }

  /** The entry the fill leaves in A[r][c], as a recurrence over the entries
      above and to the left. */
  function Entry(g: Grid, r: nat, c: nat): (e: Option<Path>)
    requires g.WellFormed() && r < g.rows && c < g.columns
    ensures e.Some? ==> Inv(g, e.value) && e.value.at == Coord(r, c)
    ensures e.Some? ==> g.IsOpen(Coord(r, c))
    decreases r + c
  {
    CellEntry(g, r, c,
      if r > 0 then Entry(g, r - 1, c) else None,
      if c > 0 then Entry(g, r, c - 1) else None)
  }

  /** Some legal path ends on `at`. */
  ghost predicate Reachable(g: Grid, at: Coord)
    requires g.WellFormed()
  {
    exists q :: ValidPath(g, q) && Position(q) == at
  }

  /** A path ending on (r, c) that no legal path ending there beats. */
  ghost predicate BestTo(g: Grid, p: Path, r: nat, c: nat)
    requires g.WellFormed()
  {
    && Inv(g, p)
    && p.at == Coord(r, c)
    && forall q :: ValidPath(g, q) && Position(q) == Coord(r, c) ==> Total(g, q) <= p.total
  }

  /** A legal path that ends off the origin arrives by a legal path to the
      cell above or to the cell on the left, plus one step. */
  lemma LastStep(g: Grid, q: seq<Dir>)
    requires g.WellFormed() && ValidPath(g, q) && |q| > 0
    ensures ValidPath(g, q[..|q| - 1])
    ensures Position(q) == Next(Position(q[..|q| - 1]), q[|q| - 1])
    ensures Total(g, q) == Total(g, q[..|q| - 1]) + g.ValueAt(Position(q))
  {
    var p := q[..|q| - 1];
    assert q == p + [q[|q| - 1]];
    ValidPrefix(g, q, |q| - 1);
    PositionSnoc(p, q[|q| - 1]);
    TotalSnoc(g, p, q[|q| - 1]);
  }

  /** The origin's entry is the start path when the origin is open and empty
      when it is a building. */
  lemma OriginEntry(g: Grid)
    requires g.WellFormed() && g.rows > 0 && g.columns > 0
    ensures Entry(g, 0, 0) == if g.IsOpen(Coord(0, 0)) then Some(Start(g)) else None
  {
  }

  /** A filled entry above an open cell, extended south, is matched or beaten
      by the cell's own entry. */
  lemma EntryFromAbove(g: Grid, r: nat, c: nat)
    requires g.WellFormed() && 0 < r < g.rows && c < g.columns
    requires Entry(g, r - 1, c).Some? && g.IsOpen(Coord(r, c))
    ensures Entry(g, r, c).Some?
    ensures Entry(g, r - 1, c).value.total + g.ValueAt(Coord(r, c)) <= Entry(g, r, c).value.total
  {
    var above := Entry(g, r - 1, c).value;
    assert AddStep(g, above, South).total == above.total + g.ValueAt(Coord(r, c));
  }

  /** A filled entry left of an open cell, extended east, is matched or beaten
      by the cell's own entry. */
  lemma EntryFromLeft(g: Grid, r: nat, c: nat)
    requires g.WellFormed() && r < g.rows && 0 < c < g.columns
    requires Entry(g, r, c - 1).Some? && g.IsOpen(Coord(r, c))
    ensures Entry(g, r, c).Some?
    ensures Entry(g, r, c - 1).value.total + g.ValueAt(Coord(r, c)) <= Entry(g, r, c).value.total
  {
    var left := Entry(g, r, c - 1).value;
    assert AddStep(g, left, East).total == left.total + g.ValueAt(Coord(r, c));
  }

  /** With an open origin, every legal path to (r, c) finds an entry there
      holding at least its total. */
  lemma {:induction false} EntryOptimal(g: Grid, r: nat, c: nat, q: seq<Dir>)
    requires g.WellFormed() && r < g.rows && c < g.columns
    requires g.IsOpen(Coord(0, 0))
    requires ValidPath(g, q) && Position(q) == Coord(r, c)
    ensures Entry(g, r, c).Some? && Total(g, q) <= Entry(g, r, c).value.total
    decreases |q|
  {
    if |q| == 0 {
      assert Total(g, q) == Start(g).total;
      assert Entry(g, 0, 0) == Some(Start(g));
    } else {
      LastStep(g, q);
      ValidEnd(g, q);
      var p := q[..|q| - 1];
      if q[|q| - 1] == South {
        EntryOptimal(g, r - 1, c, p);
        EntryFromAbove(g, r, c);
      } else {
        EntryOptimal(g, r, c - 1, p);
        EntryFromLeft(g, r, c);
      }
    }
  }

  /** With an open origin, the entry of a cell is present exactly when the
      cell is reachable, and then it is a best path to that cell. */
  lemma EntryCorrect(g: Grid, r: nat, c: nat)
    requires g.WellFormed() && r < g.rows && c < g.columns
    requires g.IsOpen(Coord(0, 0))
    ensures Entry(g, r, c).Some? <==> Reachable(g, Coord(r, c))
    ensures Entry(g, r, c).Some? ==> BestTo(g, Entry(g, r, c).value, r, c)
  {
    var e := Entry(g, r, c);
    if e.Some? {
      assert ValidPath(g, e.value.steps) && Position(e.value.steps) == Coord(r, c);
    }
    forall q | ValidPath(g, q) && Position(q) == Coord(r, c)
      ensures e.Some? && Total(g, q) <= e.value.total
    {
      EntryOptimal(g, r, c, q);
    }
  }

  /** With a building at the origin no entry is ever filled. */
  lemma {:induction false} BlockedOriginEmpty(g: Grid, r: nat, c: nat)
    requires g.WellFormed() && r < g.rows && c < g.columns
    requires !g.IsOpen(Coord(0, 0))
    ensures Entry(g, r, c).None?
    decreases r + c
  {
    if r > 0 {
      BlockedOriginEmpty(g, r - 1, c);
    }
    if c > 0 {
      BlockedOriginEmpty(g, r, c - 1);
    }
  }

  /** `cranes_algs.hpp` lines 84-110: fill A[r][c] from the finished entries above and to the left. */
  method FillCell(g: Grid, A: Table, r: nat, c: nat) returns (B: Table)
    requires g.WellFormed() && r < g.rows && c < g.columns && Shaped(A, g.rows, g.columns)
    requires r > 0 && A[r - 1][c].Some? ==> Inv(g, A[r - 1][c].value) && A[r - 1][c].value.at == Coord(r - 1, c)
    requires c > 0 && A[r][c - 1].Some? ==> Inv(g, A[r][c - 1].value) && A[r][c - 1].value.at == Coord(r, c - 1)
    requires A[r][c] == Initial(g, r, c)
    ensures B == A[r := A[r][c := CellEntry(g, r, c,
      if r > 0 then A[r - 1][c] else None,
      if c > 0 then A[r][c - 1] else None)]]
  {
    if g.Get(r, c) == Building {
      return A[r := A[r][c := None]];
    }
    var fromAbove: Option<Path> := None;
    var fromLeft: Option<Path> := None;
    if r > 0 && g.Get(r - 1, c) != Building && A[r - 1][c].Some? {
      fromAbove := Some(AddStep(g, A[r - 1][c].value, South));
    }
    if c > 0 && g.Get(r, c - 1) != Building && A[r][c - 1].Some? {
      fromLeft := Some(AddStep(g, A[r][c - 1].value, East));
    }
    B := A[r := A[r][c := Combine(fromAbove, fromLeft, A[r][c])]];
  }

  /** `cranes_algs.hpp` lines 75-112: the table fill, in row-major order. Building cells stay
      empty; with a building at the origin everything does; otherwise each
      entry is present exactly when its cell is reachable, and then holds a
      best path to it. */
  method FillTable(g: Grid) returns (A: Table)
    requires g.WellFormed() && g.rows > 0 && g.columns > 0
    ensures Shaped(A, g.rows, g.columns)
    ensures forall r, c :: 0 <= r < g.rows && 0 <= c < g.columns ==> A[r][c] == Entry(g, r, c)
    ensures forall r, c :: 0 <= r < g.rows && 0 <= c < g.columns && A[r][c].Some? ==> g.IsOpen(Coord(r, c))
    ensures !g.IsOpen(Coord(0, 0)) ==>
      forall r, c :: 0 <= r < g.rows && 0 <= c < g.columns ==> A[r][c].None?
    ensures g.IsOpen(Coord(0, 0)) ==>
      forall r, c :: 0 <= r < g.rows && 0 <= c < g.columns ==>
        && (A[r][c].Some? <==> Reachable(g, Coord(r, c)))
        && (A[r][c].Some? ==> BestTo(g, A[r][c].value, r, c))
  {
    var empty: Option<Path> := None;
    A := seq(g.rows, _ => seq(g.columns, _ => empty));
    A := A[0 := A[0][0 := Some(Start(g))]];
    for r := 0 to g.rows
      invariant Shaped(A, g.rows, g.columns)
      invariant forall i, j :: 0 <= i < g.rows && 0 <= j < g.columns ==>
        A[i][j] == if i < r then Entry(g, i, j) else Initial(g, i, j)
    {
      for c := 0 to g.columns
        invariant Shaped(A, g.rows, g.columns)
        invariant forall i, j :: 0 <= i < g.rows && 0 <= j < g.columns ==>
          A[i][j] == if i < r || (i == r && j < c) then Entry(g, i, j) else Initial(g, i, j)
      {
        A := FillCell(g, A, r, c);
      }
    }
    forall r, c | 0 <= r < g.rows && 0 <= c < g.columns
      ensures !g.IsOpen(Coord(0, 0)) ==> A[r][c].None?
      ensures g.IsOpen(Coord(0, 0)) ==> (A[r][c].Some? <==> Reachable(g, Coord(r, c)))
      ensures g.IsOpen(Coord(0, 0)) && A[r][c].Some? ==> BestTo(g, A[r][c].value, r, c)
    {
      if g.IsOpen(Coord(0, 0)) {
        EntryCorrect(g, r, c);
      } else {
        BlockedOriginEmpty(g, r, c);
      }
    }
  }

  function TotalOrZero(e: Option<Path>): nat {
    if e.Some? then e.value.total else 0
  }

  predicate RowMajorBefore(i: nat, j: nat, r: nat, c: nat) {
    i < r || (i == r && j < c)
  }

  /** `cranes_algs.hpp` lines 114-126: the first cell in row-major order holding the largest
      total, or (0, 0) when no entry's total exceeds 0. */
  method ScanBest(A: Table, rows: nat, columns: nat) returns (rowMax: nat, colMax: nat)
    requires rows > 0 && columns > 0 && Shaped(A, rows, columns)
    ensures rowMax < rows && colMax < columns
    ensures forall i, j :: 0 <= i < rows && 0 <= j < columns ==>
      TotalOrZero(A[i][j]) <= TotalOrZero(A[rowMax][colMax])
    ensures forall i, j :: 0 <= i < rows && 0 <= j < columns && RowMajorBefore(i, j, rowMax, colMax) ==>
      TotalOrZero(A[i][j]) < TotalOrZero(A[rowMax][colMax])
    ensures TotalOrZero(A[rowMax][colMax]) == 0 ==> rowMax == 0 && colMax == 0
  {
    rowMax, colMax := 0, 0;
    var maxCranes := 0;
    for row := 0 to rows
      invariant rowMax < rows && colMax < columns
      invariant maxCranes == 0 ==> rowMax == 0 && colMax == 0
      invariant maxCranes > 0 ==> maxCranes == TotalOrZero(A[rowMax][colMax]) && rowMax < row
      invariant forall i, j :: 0 <= i < row && 0 <= j < columns ==> TotalOrZero(A[i][j]) <= maxCranes
      invariant forall i, j :: 0 <= i < row && 0 <= j < columns && RowMajorBefore(i, j, rowMax, colMax) ==>
        TotalOrZero(A[i][j]) < maxCranes
    {
      for col := 0 to columns
        invariant rowMax < rows && colMax < columns
        invariant maxCranes == 0 ==> rowMax == 0 && colMax == 0
        invariant maxCranes > 0 ==> maxCranes == TotalOrZero(A[rowMax][colMax]) && RowMajorBefore(rowMax, colMax, row, col)
        invariant forall i, j :: 0 <= i < rows && 0 <= j < columns && RowMajorBefore(i, j, row, col) ==>
          TotalOrZero(A[i][j]) <= maxCranes
        invariant forall i, j :: 0 <= i < rows && 0 <= j < columns && RowMajorBefore(i, j, row, col) && RowMajorBefore(i, j, rowMax, colMax) ==>
          TotalOrZero(A[i][j]) < maxCranes
      {
        if A[row][col].Some? && A[row][col].value.total > maxCranes {
          rowMax, colMax := row, col;
          maxCranes := A[row][col].value.total;
        }
      }
    }
  }

  /** The dynamic-programming solver. A building at the origin leaves every
      entry empty and fails the final has-value assertion, so an open origin
      is required. */
  method CraneUnloadingDynProg(g: Grid) returns (best: Path)
    requires g.WellFormed() && g.rows > 0 && g.columns > 0
    requires g.IsOpen(Coord(0, 0))
    ensures Inv(g, best)
    ensures IsBest(g, best.steps)
    ensures exists r, c ::
      && 0 <= r < g.rows && 0 <= c < g.columns && Entry(g, r, c) == Some(best)
      && forall i, j :: 0 <= i < g.rows && 0 <= j < g.columns && RowMajorBefore(i, j, r, c) ==>
           TotalOrZero(Entry(g, i, j)) < best.total
  {
    var A := FillTable(g);
    var rowMax, colMax := ScanBest(A, g.rows, g.columns);
    OriginEntry(g);
    assert A[0][0].Some?;
    best := A[rowMax][colMax].value;
    assert Entry(g, rowMax, colMax) == Some(best);
    forall q | ValidPath(g, q)
      ensures Total(g, q) <= Total(g, best.steps)
    {
      ValidEnd(g, q);
      var at := Position(q);
      EntryCorrect(g, at.row, at.col);
      assert TotalOrZero(A[at.row][at.col]) <= TotalOrZero(A[rowMax][colMax]);
    }
  }
}
