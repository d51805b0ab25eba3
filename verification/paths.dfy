/** Monotone crane paths: a sequence of south/east steps from the origin (0,0).
    The first half gives the meaning of a step sequence (where it ends, whether
    it is legal, how many cranes it collects); the second half is the path
    builder both solvers use, which caches its position and running total. */
module Paths {
  import opened Grids

  datatype Dir = South | East

  /** The cell one step from `at` in direction `d`. */
  function Next(at: Coord, d: Dir): Coord {
    match d
    case South => Coord(at.row + 1, at.col)
    case East => Coord(at.row, at.col + 1)
  }

  /** The cell reached from the origin by following `steps`. */
  function Position(steps: seq<Dir>): Coord {
    if |steps| == 0 then Coord(0, 0)
    else Next(Position(steps[..|steps| - 1]), steps[|steps| - 1])
  }

  /** Stepping `d` from `at` stays on the grid and does not enter a building. */
  predicate StepOk(g: Grid, at: Coord, d: Dir)
    requires g.WellFormed()
  {
    g.IsOpen(Next(at, d))
  }

  /** Every step of the sequence is legal from where the previous ones led. */
  ghost predicate ValidPath(g: Grid, steps: seq<Dir>)
    requires g.WellFormed()
  {
    || |steps| == 0
    || (&& ValidPath(g, steps[..|steps| - 1])
        && StepOk(g, Position(steps[..|steps| - 1]), steps[|steps| - 1]))
  }

  /** The cells a step sequence visits, the origin first. */
  function Visited(steps: seq<Dir>): seq<Coord> {
    seq(|steps| + 1, k requires 0 <= k <= |steps| => Position(steps[..k]))
  }

  function SumValues(g: Grid, cells: seq<Coord>): nat
    requires g.WellFormed()
  {
    if |cells| == 0 then 0
    else SumValues(g, cells[..|cells| - 1]) + g.ValueAt(cells[|cells| - 1])
  }

  /** The cranes a path collects: the sum over every cell it visits,
      the origin included. */
  function Total(g: Grid, steps: seq<Dir>): nat
    requires g.WellFormed()
  {
    SumValues(g, Visited(steps))
  }

  /** `steps` is a legal path and no legal path collects more cranes. */
  ghost predicate IsBest(g: Grid, steps: seq<Dir>)
    requires g.WellFormed()
  {
    ValidPath(g, steps) && forall q :: ValidPath(g, q) ==> Total(g, q) <= Total(g, steps)
  }

  lemma PositionSnoc(s: seq<Dir>, d: Dir)
    ensures Position(s + [d]) == Next(Position(s), d)
  {
    assert (s + [d])[..|s|] == s;
  }

  /** Each step advances exactly one of row and column. */
  lemma {:induction false} PositionLength(s: seq<Dir>)
    ensures Position(s).row + Position(s).col == |s|
  {
    if |s| > 0 {
      PositionLength(s[..|s| - 1]);
    }
  }

  /** A path extended by one step is legal iff the path is and the step is. */
  lemma ValidSnoc(g: Grid, s: seq<Dir>, d: Dir)
    requires g.WellFormed()
    ensures ValidPath(g, s + [d]) <==> ValidPath(g, s) && StepOk(g, Position(s), d)
  {
    assert (s + [d])[..|s|] == s;
  }

  /** Every prefix of a legal path is legal. */
  lemma {:induction false} ValidPrefix(g: Grid, s: seq<Dir>, n: nat)
    requires g.WellFormed() && ValidPath(g, s) && n <= |s|
    ensures ValidPath(g, s[..n])
    decreases |s|
  {
    if n < |s| {
      var init := s[..|s| - 1];
      assert init[..n] == s[..n];
      ValidPrefix(g, init, n);
    } else {
      assert s[..n] == s;
    }
  }

  /** Step k of `s` is legal from the cell the first k steps lead to. */
  predicate LegalStep(g: Grid, s: seq<Dir>, k: nat)
    requires g.WellFormed() && k < |s|
  {
    StepOk(g, Position(s[..k]), s[k])
  }

  /** The recursive definition agrees with "each step is legal where it is
      taken". */
  lemma {:induction false} ValidPathSteps(g: Grid, s: seq<Dir>)
    requires g.WellFormed()
    ensures ValidPath(g, s) <==> forall k :: 0 <= k < |s| ==> LegalStep(g, s, k)
    decreases |s|
  {
    if |s| > 0 {
      var init, last := s[..|s| - 1], |s| - 1;
      ValidPathSteps(g, init);
      assert s[..last] == init;
      assert LegalStep(g, s, last) <==> StepOk(g, Position(init), s[last]);
      forall k | 0 <= k < |init|
        ensures LegalStep(g, init, k) <==> LegalStep(g, s, k)
      {
        assert init[..k] == s[..k] && init[k] == s[k];
      }
    }
  }

  /** A legal path never leaves the grid, and after its first step it
      stands on open ground. */
  lemma ValidEnd(g: Grid, s: seq<Dir>)
    requires g.WellFormed() && g.rows > 0 && g.columns > 0 && ValidPath(g, s)
    ensures g.InBounds(Position(s))
    ensures |s| > 0 || g.IsOpen(Coord(0, 0)) ==> g.IsOpen(Position(s))
  {
    if |s| > 0 {
      assert StepOk(g, Position(s[..|s| - 1]), s[|s| - 1]);
    }
  }

  /** A legal path has at most rows + columns - 2 steps. */
  lemma ValidLength(g: Grid, s: seq<Dir>)
    requires g.WellFormed() && g.rows > 0 && g.columns > 0 && ValidPath(g, s)
    ensures |s| <= g.rows + g.columns - 2
  {
    ValidEnd(g, s);
    PositionLength(s);
  }

  lemma VisitedSnoc(s: seq<Dir>, d: Dir)
    ensures Visited(s + [d]) == Visited(s) + [Position(s + [d])]
  {
    var t := s + [d];
    forall k | 0 <= k <= |s|
      ensures Visited(t)[k] == Visited(s)[k]
    {
      assert t[..k] == s[..k];
    }
    assert Visited(t)[|s| + 1] == Position(t) by {
      assert t[..|s| + 1] == t;
    }
  }

  /** Appending a step adds exactly the cranes of the cell it enters. */
  lemma TotalSnoc(g: Grid, s: seq<Dir>, d: Dir)
    requires g.WellFormed()
    ensures Total(g, s + [d]) == Total(g, s) + g.ValueAt(Next(Position(s), d))
  {
    VisitedSnoc(s, d);
    PositionSnoc(s, d);
    var v := Visited(s);
    assert (v + [Position(s + [d])])[..|v|] == v;
  }

  /** Cell values are never negative, so extending a path never loses cranes. */
  lemma {:induction false} TotalPrefix(g: Grid, s: seq<Dir>, n: nat)
    requires g.WellFormed() && n <= |s|
    ensures Total(g, s[..n]) <= Total(g, s)
    decreases |s| - n
  {
    if n < |s| {
      assert s[..n + 1] == s[..n] + [s[n]];
      TotalSnoc(g, s[..n], s[n]);
      TotalPrefix(g, s, n + 1);
    } else {
      assert s[..n] == s;
    }
  }

  /** The path builder: the steps taken so far, the cell reached and the
      cranes collected, kept up to date step by step. */
  datatype Path = Path(steps: seq<Dir>, at: Coord, total: nat)

  /** The cached position and total agree with the steps, and the steps are legal. */
  ghost predicate Inv(g: Grid, p: Path)
    requires g.WellFormed()
  {
    ValidPath(g, p.steps) && p.at == Position(p.steps) && p.total == Total(g, p.steps)
  }

  /** A fresh path standing on the origin. */
  function Start(g: Grid): (p: Path)
    requires g.WellFormed()
    ensures Inv(g, p) && p.steps == []
  {
    assert Visited([]) == [Coord(0, 0)];
    assert [Coord(0, 0)][..0] == [];
    assert SumValues(g, [Coord(0, 0)]) == g.ValueAt(Coord(0, 0));
    Path([], Coord(0, 0), g.ValueAt(Coord(0, 0)))
  }

  /** `is_step_valid`: the next cell is on the grid and not a building. */
  function IsStepValid(g: Grid, p: Path, d: Dir): (ok: bool)
    requires g.WellFormed()
    ensures Inv(g, p) ==> (ok <==> ValidPath(g, p.steps + [d]))
  {
    ValidSnoc(g, p.steps, d);
    g.IsOpen(Next(p.at, d))
  }

  /** `add_step`: move one cell and pick up its cranes. */
  function AddStep(g: Grid, p: Path, d: Dir): (q: Path)
    requires g.WellFormed() && Inv(g, p) && IsStepValid(g, p, d)
    ensures Inv(g, q)
    ensures q.steps == p.steps + [d] && q.at == Next(p.at, d)
    ensures q.total == p.total + g.ValueAt(q.at)
  {
    ValidSnoc(g, p.steps, d);
    TotalSnoc(g, p.steps, d);
    PositionSnoc(p.steps, d);
    var n := Next(p.at, d);
    Path(p.steps + [d], n, p.total + g.Get(n.row, n.col).cranes)
  }
}
