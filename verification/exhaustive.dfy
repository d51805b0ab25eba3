/** `crane_unloading_exhaustive`: try every south/east sequence of the maximum
    length, walk the longest legal prefix of each, keep the best. */
module Exhaustive {
  import opened Grids
  import opened Paths
  import opened Masks

  /** The most steps any path can take: rows - 1 south and columns - 1 east. */
  function MaxSteps(g: Grid): nat
    requires g.rows > 0 && g.columns > 0
  {
    g.rows + g.columns - 2
  }

  /** max_steps is enough for every legal path, and a legal path of exactly
      max_steps steps ends on the bottom-right cell. */
  lemma MaxStepsReachCorner(g: Grid, q: seq<Dir>)
    requires g.WellFormed() && g.rows > 0 && g.columns > 0 && ValidPath(g, q)
    ensures |q| <= MaxSteps(g)
    ensures |q| == MaxSteps(g) ==> Position(q) == Coord(g.rows - 1, g.columns - 1)
  {
    ValidEnd(g, q);
    PositionLength(q);
  }

  /** The walk of `dirs` that has already taken its first k steps. */
  function WalkFrom(g: Grid, dirs: seq<Dir>, k: nat): (w: seq<Dir>)
    requires g.WellFormed() && k <= |dirs| && ValidPath(g, dirs[..k])
    ensures dirs[..k] <= w && w <= dirs && ValidPath(g, w)
    ensures |w| == |dirs| || !StepOk(g, Position(w), dirs[|w|])
    decreases |dirs| - k
  {
    if k == |dirs| || !StepOk(g, Position(dirs[..k]), dirs[k]) then dirs[..k]
    else
      assert dirs[..k + 1] == dirs[..k] + [dirs[k]];
      ValidSnoc(g, dirs[..k], dirs[k]);
      WalkFrom(g, dirs, k + 1)
  }

  /** Follow `dirs` from the origin and stop before the first illegal step. */
  function LongestValidPrefix(g: Grid, dirs: seq<Dir>): (w: seq<Dir>)
    requires g.WellFormed()
    ensures w <= dirs && ValidPath(g, w)
    ensures |w| == |dirs| || !StepOk(g, Position(w), dirs[|w|])
  {
    WalkFrom(g, dirs, 0)
  }

  /** Every legal prefix of `dirs` is a prefix of the walk: the walk is the
      longest legal prefix. */
  lemma LongestValidPrefixIsLongest(g: Grid, dirs: seq<Dir>, q: seq<Dir>)
    requires g.WellFormed() && q <= dirs && ValidPath(g, q)
    ensures q <= LongestValidPrefix(g, dirs)
  {
    var w := LongestValidPrefix(g, dirs);
    ValidPathSteps(g, q);
    forall n | 0 <= n < |q|
      ensures StepOk(g, Position(dirs[..n]), dirs[n])
    {
      assert q[..n] == dirs[..n];
      assert LegalStep(g, q, n);
    }
    assert w == dirs[..|w|];
    assert w[..|q|] == dirs[..|q|];
  }

  /** The path the exhaustive solver walks for mask m. */
  function Candidate(g: Grid, m: nat): (w: seq<Dir>)
    requires g.WellFormed() && g.rows > 0 && g.columns > 0
    ensures ValidPath(g, w) && w <= Decode(m, MaxSteps(g))
    ensures |w| == MaxSteps(g) || !StepOk(g, Position(w), Decode(m, MaxSteps(g))[|w|])
  {
    LongestValidPrefix(g, Decode(m, MaxSteps(g)))
  }

  /** Every legal path is matched or beaten by the candidate of its own mask,
      and that mask is inside the enumerated range. */
  lemma CandidatesCoverValidPaths(g: Grid, q: seq<Dir>)
    requires g.WellFormed() && g.rows > 0 && g.columns > 0 && ValidPath(g, q)
    ensures Encode(q) < Pow2(MaxSteps(g))
    ensures Total(g, q) <= Total(g, Candidate(g, Encode(q)))
  {
    ValidLength(g, q);
    EncodeBound(q);
    Pow2Monotone(|q|, MaxSteps(g));
    DecodeEncode(q, MaxSteps(g));
    var dirs := Decode(Encode(q), MaxSteps(g));
    LongestValidPrefixIsLongest(g, dirs, q);
    var w := Candidate(g, Encode(q));
    assert w[..|q|] == q;
    TotalPrefix(g, w, |q|);
  }

  /** `cranes_algs.hpp` lines 42-53: build the path that follows `dirs` until a step is illegal. */
  method WalkPrefix(g: Grid, dirs: seq<Dir>) returns (p: Path)
    requires g.WellFormed()
    ensures Inv(g, p) && p.steps == LongestValidPrefix(g, dirs)
  {
    p := Start(g);
    var i := 0;
    while i < |dirs|
      invariant 0 <= i <= |dirs| && Inv(g, p) && p.steps == dirs[..i]
      invariant WalkFrom(g, dirs, i) == LongestValidPrefix(g, dirs)
    {
      if !IsStepValid(g, p, dirs[i]) {
        break;
      }
      p := AddStep(g, p, dirs[i]);
      assert dirs[..i + 1] == dirs[..i] + [dirs[i]];
      i := i + 1;
    }
  }

  /** The mask-order choice of the running best: either the bare origin path
      or the first candidate whose total beats everything tried before it. */
  ghost predicate KeptEarliest(g: Grid, best: Path, upto: nat)
    requires g.WellFormed() && g.rows > 0 && g.columns > 0
  {
    || best.steps == []
    || exists k :: 0 <= k < upto && best.steps == Candidate(g, k)
         && Total(g, []) < best.total
         && forall m :: 0 <= m < k ==> Total(g, Candidate(g, m)) < best.total
  }

  /** What the running best satisfies once masks 0 .. upto - 1 are tried. */
  ghost predicate BestSoFar(g: Grid, best: Path, upto: nat)
    requires g.WellFormed() && g.rows > 0 && g.columns > 0
  {
    && Inv(g, best)
    && Total(g, []) <= best.total
    && (forall m :: 0 <= m < upto ==> Total(g, Candidate(g, m)) <= best.total)
    && KeptEarliest(g, best, upto)
  }

  /** `cranes_algs.hpp` lines 54-56, replacing: a candidate strictly better than the running
      best becomes the new best. */
  lemma KeepCurrent(g: Grid, best: Path, current: Path, mask: nat)
    requires g.WellFormed() && g.rows > 0 && g.columns > 0
    requires BestSoFar(g, best, mask)
    requires Inv(g, current) && current.steps == Candidate(g, mask)
    requires current.total > best.total
    ensures BestSoFar(g, current, mask + 1)
  {
    assert forall m :: 0 <= m < mask ==> Total(g, Candidate(g, m)) < current.total;
    assert Total(g, []) < current.total;
    assert forall m :: 0 <= m < mask + 1 ==> Total(g, Candidate(g, m)) <= current.total;
    assert KeptEarliest(g, current, mask + 1);
  }

  /** `cranes_algs.hpp` lines 54-56, keeping: a candidate that is not strictly better leaves
      the running best in place. */
  lemma KeepBest(g: Grid, best: Path, current: Path, mask: nat)
    requires g.WellFormed() && g.rows > 0 && g.columns > 0
    requires BestSoFar(g, best, mask)
    requires Inv(g, current) && current.steps == Candidate(g, mask)
    requires current.total <= best.total
    ensures BestSoFar(g, best, mask + 1)
  {
    if best.steps != [] {
      var k :| 0 <= k < mask && best.steps == Candidate(g, k)
        && Total(g, []) < best.total
        && forall m :: 0 <= m < k ==> Total(g, Candidate(g, m)) < best.total;
      assert 0 <= k < mask + 1;
    }
  }

  /** Once every mask up to 2^max_steps is tried, the running best is a best
      path of the whole grid. */
  lemma AllMasksTried(g: Grid, best: Path)
    requires g.WellFormed() && g.rows > 0 && g.columns > 0
    requires BestSoFar(g, best, Pow2(MaxSteps(g)) + 1)
    ensures Inv(g, best) && IsBest(g, best.steps)
    ensures forall m :: 0 <= m <= Pow2(MaxSteps(g)) ==> Total(g, Candidate(g, m)) <= best.total
    ensures KeptEarliest(g, best, Pow2(MaxSteps(g)) + 1)
  {
    forall q | ValidPath(g, q)
      ensures Total(g, q) <= Total(g, best.steps)
    {
      CandidatesCoverValidPaths(g, q);
    }
  }

  /** `cranes_algs.hpp` lines 43-56 for one mask: decode it, walk its longest legal prefix and
      keep that walk if it beats the running best. */
  method TryMask(g: Grid, best: Path, mask: nat) returns (next: Path)
    requires g.WellFormed() && g.rows > 0 && g.columns > 0
    requires BestSoFar(g, best, mask)
    ensures BestSoFar(g, next, mask + 1)
    ensures next == best || next.steps == Candidate(g, mask)
  {
    var dirs := DecodeMask(mask, g.rows + g.columns - 2);
    var current := WalkPrefix(g, dirs);
    if current.total > best.total {
      KeepCurrent(g, best, current, mask);
      next := current;
    } else {
      KeepBest(g, best, current, mask);
      next := best;
    }
  }

  /** The exhaustive solver. */
  method CraneUnloadingExhaustive(g: Grid) returns (best: Path)
    requires g.WellFormed() && g.rows > 0 && g.columns > 0
    requires MaxSteps(g) < 64
    ensures Inv(g, best)
    ensures IsBest(g, best.steps)
    ensures forall m :: 0 <= m <= Pow2(MaxSteps(g)) ==> Total(g, Candidate(g, m)) <= best.total
    ensures KeptEarliest(g, best, Pow2(MaxSteps(g)) + 1)
  {
    var bound := Pow2(MaxSteps(g));
    best := Start(g);
    var mask := 0;
    while mask <= bound
      invariant mask <= bound + 1
      invariant BestSoFar(g, best, mask)
    {
      best := TryMask(g, best, mask);
      mask := mask + 1;
    }
    assert mask == bound + 1;
    AllMasksTried(g, best);
  }
}
