/** The two solvers side by side: on every grid both accept they return
    paths of the same total, and the single-cell, all-buildings and
    two-by-two examples come out as expected. */
module Agreement {
  import opened Grids
  import opened Paths
  import Exhaustive
  import DynProg

  /** Both solvers, run on one grid, collect the same number of cranes: the
      largest any legal path collects. */
  method SolveBoth(g: Grid) returns (exhaustive: Path, dynamic: Path)
    requires g.WellFormed() && g.rows > 0 && g.columns > 0
    requires Exhaustive.MaxSteps(g) < 64
    requires g.IsOpen(Coord(0, 0))
    ensures exhaustive.total == dynamic.total
    ensures IsBest(g, exhaustive.steps) && IsBest(g, dynamic.steps)
  {
    exhaustive := Exhaustive.CraneUnloadingExhaustive(g);
    dynamic := DynProg.CraneUnloadingDynProg(g);
    assert Total(g, exhaustive.steps) <= Total(g, dynamic.steps);
    assert Total(g, dynamic.steps) <= Total(g, exhaustive.steps);
  }

  /** The bare origin path collects exactly the origin's cranes. */
  lemma TotalOfOrigin(g: Grid)
    requires g.WellFormed()
    ensures Total(g, []) == g.ValueAt(Coord(0, 0))
  {
    assert Start(g).total == Total(g, []);
  }

  /** A single open cell: the best path takes no step and collects that
      cell's cranes. */
  lemma SingleCell(v: nat, s: seq<Dir>)
    requires IsBest(Grid(1, 1, [[Open(v)]]), s)
    ensures s == [] && Total(Grid(1, 1, [[Open(v)]]), s) == v
  {
    var g := Grid(1, 1, [[Open(v)]]);
    ValidLength(g, s);
    TotalOfOrigin(g);
  }

  /** A grid of buildings only: no step is legal and nothing is collected. */
  lemma AllBuildings(g: Grid, s: seq<Dir>)
    requires g.WellFormed() && g.rows > 0 && g.columns > 0
    requires forall r, c :: 0 <= r < g.rows && 0 <= c < g.columns ==> g.Get(r, c) == Building
    requires ValidPath(g, s)
    ensures s == [] && Total(g, s) == 0
  {
    ValidEnd(g, s);
    TotalOfOrigin(g);
  }

  /** Every legal path through a two-by-two grid, and what it collects. */
  lemma TwoByTwoPaths(g: Grid, s: seq<Dir>)
    requires g.WellFormed() && g.rows == 2 && g.columns == 2 && ValidPath(g, s)
    ensures s == [] || s == [South] || s == [East] || s == [South, East] || s == [East, South]
  {
    ValidLength(g, s);
    if |s| == 2 {
      PositionLength(s);
      ValidEnd(g, s);
      assert s[..1] + [s[1]] == s;
      PositionSnoc(s[..1], s[1]);
      assert s[..1] == [s[0]];
      PositionSnoc([], s[0]);
    }
  }

  /** The totals of the five candidate paths through a two-by-two grid of
      open cells a, b / c, d. */
  lemma TwoByTwoTotals(g: Grid, a: nat, b: nat, c: nat, d: nat)
    requires g == Grid(2, 2, [[Open(a), Open(b)], [Open(c), Open(d)]])
    ensures Total(g, []) == a
    ensures Total(g, [South]) == a + c && Total(g, [East]) == a + b
    ensures Total(g, [South, East]) == a + c + d && Total(g, [East, South]) == a + b + d
    ensures ValidPath(g, [South, East]) && ValidPath(g, [East, South])
  {
    assert [] + [South] == [South] && [] + [East] == [East];
    assert [South] + [East] == [South, East] && [East] + [South] == [East, South];
    TotalOfOrigin(g);
    TotalSnoc(g, [], South);
    TotalSnoc(g, [], East);
    TotalSnoc(g, [South], East);
    TotalSnoc(g, [East], South);
    ValidSnoc(g, [], South);
    ValidSnoc(g, [], East);
    ValidSnoc(g, [South], East);
    ValidSnoc(g, [East], South);
    PositionSnoc([], South);
    PositionSnoc([], East);
  }

  /** Values 1, 2 / 3, 4 without buildings: south then east collects 8,
      which nothing beats. */
  lemma OpenSquareBest(s: seq<Dir>)
    requires IsBest(Grid(2, 2, [[Open(1), Open(2)], [Open(3), Open(4)]]), s)
    ensures s == [South, East] && Total(Grid(2, 2, [[Open(1), Open(2)], [Open(3), Open(4)]]), s) == 8
  {
    var g := Grid(2, 2, [[Open(1), Open(2)], [Open(3), Open(4)]]);
    TwoByTwoTotals(g, 1, 2, 3, 4);
    TwoByTwoPaths(g, s);
  }

  /** With a building at (0, 1), the legal paths through the grid 1, # / 3, 4
      and their totals. */
  lemma DetourTotals(g: Grid)
    requires g == Grid(2, 2, [[Open(1), Building], [Open(3), Open(4)]])
    ensures Total(g, []) == 1 && Total(g, [South]) == 4 && Total(g, [South, East]) == 8
    ensures ValidPath(g, [South, East])
    ensures !ValidPath(g, [East]) && !ValidPath(g, [East, South])
  {
    assert [] + [South] == [South] && [] + [East] == [East];
    assert [South] + [East] == [South, East] && [East] + [South] == [East, South];
    TotalOfOrigin(g);
    TotalSnoc(g, [], South);
    TotalSnoc(g, [South], East);
    ValidSnoc(g, [], South);
    ValidSnoc(g, [South], East);
    ValidSnoc(g, [], East);
    ValidSnoc(g, [East], South);
    PositionSnoc([], South);
    PositionSnoc([], East);
  }

  /** A building at (0, 1) forces the detour south then east, worth 8. */
  lemma DetourBest(s: seq<Dir>)
    requires IsBest(Grid(2, 2, [[Open(1), Building], [Open(3), Open(4)]]), s)
    ensures s == [South, East] && Total(Grid(2, 2, [[Open(1), Building], [Open(3), Open(4)]]), s) == 8
  {
    var g := Grid(2, 2, [[Open(1), Building], [Open(3), Open(4)]]);
    DetourTotals(g);
    TwoByTwoPaths(g, s);
  }
}
