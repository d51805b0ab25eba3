# Crane unloading: a Dafny model of the optimisation engine

The crane starts at the top-left cell (0,0) of a rectangular dock grid. Each
cell is either a building, which the crane never enters, or open ground
holding some number of cranes. The crane moves only south (one row down) or
east (one column right). The problem is to find a path that collects the
most cranes over all the cells it visits, the origin included.

`cranes_algs.hpp` solves this problem in two ways, and this project models
both:

- `crane_unloading_exhaustive` reads every integer mask from 0 to
  2^max_steps as a south/east sequence. It walks the longest legal prefix of
  each sequence and keeps the best path, replacing it only on a strictly
  greater total.
- `crane_unloading_dyn_prog` fills a rows x columns table of optional paths
  in row-major order. Each open cell takes the better of two candidates: the
  entry above extended by a south step, or the entry to the left extended by
  an east step. On equal totals the entry above wins. The solver then scans
  the table for the entry with the strictly largest total.

The grid and path types live in `cranes_types.hpp`, which is not part of this
model. They are modelled from how the algorithms use them:

- `grids.dfy` (module `Grids`): a `Grid` of `Cell`s, each `Building` or
  `Open(cranes)`.
- `paths.dfy` (module `Paths`) gives what a step sequence means:
  - `Position` is where the sequence ends.
  - `ValidPath` holds when every step stays on the grid and off buildings.
  - `Total` is the sum of the cell values along `Visited`.
  - `IsBest` means no legal path collects more.
  It also holds the path builder `Path`, with `Start`, `IsStepValid` and
  `AddStep`. The builder caches its position and running total, and `Inv`
  ties those cached values to the meaning above.
- `masks.dfy` (module `Masks`) covers the mask enumeration. `Decode` reads
  bit i as direction i, and `Encode` is its inverse.
- `exhaustive.dfy` (module `Exhaustive`) is the brute-force solver.
- `dynprog.dfy` (module `DynProg`) is the table solver. `Entry(g, r, c)` is
  the recurrence the table fill computes, and `EntryCorrect` proves that it
  gives a best path to each reachable cell.
- `agreement.dfy` (module `Agreement`) shows that both solvers return the
  same total. It also works through the single-cell, all-buildings and
  two-by-two examples.

Both solvers are proved to return a legal path whose total is the maximum
over all legal south/east paths from the origin. It follows that their
totals are equal.

## Model

| member | source | states |
|---|---|---|
| Paths.Start | cranes_algs.hpp:40-42 | A fresh path has no steps and its cached total is the total of the bare origin path. |
| Paths.IsStepValid | cranes_algs.hpp:49 | A step is accepted exactly when the path extended by it is still legal: the next cell is on the grid and not a building. |
| Paths.AddStep | cranes_algs.hpp:52 | Adding a legal step appends it, moves one cell in that direction, adds the cranes of the cell entered, and keeps the cached position and total in line with the steps. |
| Paths.ValidSnoc | cranes_algs.hpp:48-53 | A path extended by one step is legal if and only if the path is legal and the step is legal from where it ends. |
| Paths.ValidPathSteps | cranes_algs.hpp:48-53 | A path is legal if and only if each step k is legal from the cell reached by the first k steps. |
| Paths.ValidPrefix | cranes_algs.hpp:48-53 | Every prefix of a legal path is legal. |
| Paths.TotalSnoc | cranes_algs.hpp:52 | Appending a step raises the total by exactly the cranes of the cell entered. |
| Paths.TotalPrefix | cranes_algs.hpp:48-54 | A prefix of a path never collects more than the whole path, because cell values are non-negative. |
| Paths.PositionLength | cranes_algs.hpp:37 | After k steps, the row plus the column equals k. |
| Paths.ValidLength | cranes_algs.hpp:36-38 | A legal path has at most rows + columns - 2 steps, so max_steps directions are enough for any path. |
| Paths.ValidEnd | cranes_algs.hpp:94-102 | A legal path ends on the grid. After at least one step it ends on open ground, and with an open origin it always does. |
| Masks.Pow2 | cranes_algs.hpp:41 | The number of masks 2^n is at least 1. |
| Masks.BitIsShift | cranes_algs.hpp:45 | Bit i of m is set if and only if `(m >> i) & 1` is 1, computed as `(m / 2^i) % 2`. |
| Masks.DecodeBits | cranes_algs.hpp:44-47 | A mask decodes to exactly n directions, and direction i is south if and only if bit i of the mask is 1. |
| Masks.DecodeMask | cranes_algs.hpp:43-47 | The bit loop builds exactly the decoded direction sequence of the mask. |
| Masks.LastMaskAllEast | cranes_algs.hpp:41-47 | The extra final mask 2^n decodes to the all-east sequence, which is the same sequence as mask 0. |
| Masks.EncodeBound | cranes_algs.hpp:41 | A sequence of k directions has a mask below 2^k, so it lies inside the enumerated range. |
| Masks.DecodeEncode | cranes_algs.hpp:41-47 | Decoding the mask of a sequence at a width of at least its length gives back the sequence, padded with east steps. |
| Masks.EncodeDecode | cranes_algs.hpp:41-47 | Every mask below 2^n is the encoding of its own decoding, so the masks and the n-step sequences correspond one to one. |
| Exhaustive.MaxStepsReachCorner | cranes_algs.hpp:36-38 | Every legal path has at most max_steps = rows + columns - 2 steps, and a legal path with exactly max_steps steps ends on the bottom-right cell. |
| Exhaustive.WalkFrom | cranes_algs.hpp:48-53 | Continuing a walk from a legal prefix gives a legal prefix of the sequence. The result either uses the whole sequence or stops at a step that is illegal where it stands. |
| Exhaustive.LongestValidPrefix | cranes_algs.hpp:48-53 | The walk from the origin is a legal prefix of the decoded sequence. It either uses the whole sequence or stops before the first illegal step, without taking that step. |
| Exhaustive.LongestValidPrefixIsLongest | cranes_algs.hpp:48-53 | Every legal prefix of the sequence is a prefix of the walk, so the walk is the longest legal prefix. |
| Exhaustive.WalkPrefix | cranes_algs.hpp:42-53 | The loop with `break` builds a consistent path whose steps are exactly the longest legal prefix of the decoded directions. |
| Exhaustive.Candidate | cranes_algs.hpp:42-53 | The walk for mask m is a legal prefix of the mask's max_steps directions. It either uses all of them or stops where the next step is illegal. |
| Exhaustive.CandidatesCoverValidPaths | cranes_algs.hpp:41-53 | For every legal path, its own mask is in range, and the candidate walked for that mask collects at least as many cranes. |
| Exhaustive.KeepCurrent | cranes_algs.hpp:54-56 | A candidate whose total is strictly greater becomes the best, and it is the earliest mask reaching that total. |
| Exhaustive.KeepBest | cranes_algs.hpp:54-56 | A candidate that is not strictly better leaves the best unchanged. The best still bounds every mask tried so far. |
| Exhaustive.TryMask | cranes_algs.hpp:43-56 | One round of the mask loop keeps the running best's guarantees one mask further. The new best is either the old one or the walk of this mask. |
| Exhaustive.AllMasksTried | cranes_algs.hpp:41-58 | Once every mask from 0 to 2^max_steps is tried, the running best is a best path of the whole grid. |
| Exhaustive.CraneUnloadingExhaustive | cranes_algs.hpp:30-59 | Requires a non-empty grid and max_steps < 64. The result is a legal, consistent path that no legal path beats. Its total is at least every candidate's total and at least the origin path's total. It is either the origin path or the earliest mask's candidate that strictly beat all before it. |
| DynProg.Combine | cranes_algs.hpp:104-110 | The new entry is one of the two candidates with the larger total, the one from above on a tie. With neither candidate, the entry keeps its previous value. |
| DynProg.Initial | cranes_algs.hpp:75-78 | Before a cell's turn, only the origin holds an entry, and that entry is the fresh start path with no steps. |
| DynProg.CellEntry | cranes_algs.hpp:84-110 | A building's entry is empty. A filled entry is a consistent path that ends on the cell and stands on open ground. |
| DynProg.Entry | cranes_algs.hpp:75-110 | Every filled entry of the recurrence is a consistent legal path that ends on its own cell, and that cell is open. |
| DynProg.LastStep | cranes_algs.hpp:94-102 | A legal path that has taken a step is a legal path to the cell above or to the left, plus one step that adds the end cell's cranes. |
| DynProg.OriginEntry | cranes_algs.hpp:78-87 | The origin's final entry is the start path when the origin is open, and empty when it is a building. |
| DynProg.EntryFromAbove | cranes_algs.hpp:94-110 | If the cell above has an entry and the cell is open, the cell's entry exists and collects at least the entry above plus this cell's cranes. |
| DynProg.EntryFromLeft | cranes_algs.hpp:94-110 | If the cell to the left has an entry and the cell is open, the cell's entry exists and collects at least the entry on the left plus this cell's cranes. |
| DynProg.EntryOptimal | cranes_algs.hpp:94-110 | With an open origin, every legal path to (r, c) finds a filled entry at (r, c) whose total is at least its own. |
| DynProg.EntryCorrect | cranes_algs.hpp:81-112 | With an open origin, an entry is filled if and only if some legal path reaches its cell. A filled entry is then a best path to that cell. |
| DynProg.BlockedOriginEmpty | cranes_algs.hpp:78-87 | With a building at the origin, every entry stays empty. |
| DynProg.FillCell | cranes_algs.hpp:84-110 | Filling one cell changes only that cell, and sets it to the recurrence's value for the entries above and to the left. |
| DynProg.FillTable | cranes_algs.hpp:75-112 | The row-major fill leaves exactly the recurrence in every cell. Buildings are empty. With a blocked origin everything is empty. Otherwise an entry is filled if and only if its cell is reachable, and then it holds a best path to it. |
| DynProg.ScanBest | cranes_algs.hpp:114-126 | The scan returns the cell with the largest total. Every cell earlier in row-major order has a strictly smaller total. The result is (0, 0) when no total exceeds 0. |
| DynProg.CraneUnloadingDynProg | cranes_algs.hpp:66-134 | Requires a non-empty grid with an open origin. The result is a legal, consistent path that no legal path beats. It is the entry of the first row-major cell holding the largest total. |
| Agreement.SolveBoth | cranes_algs.hpp:22-64 | On every grid both solvers accept, the two results collect the same number of cranes, and both are best paths. |
| Agreement.TotalOfOrigin | cranes_algs.hpp:40 | The bare origin path collects exactly the origin cell's cranes. |
| Agreement.SingleCell | cranes_algs.hpp:22-29 | On a single open cell, the best path takes no step and collects that cell's value. |
| Agreement.AllBuildings | cranes_algs.hpp:22-29 | On a grid of buildings only, the only legal path is the bare origin, and it collects 0. |
| Agreement.TwoByTwoPaths | cranes_algs.hpp:22-29 | A legal path through a two-by-two grid is one of the five south/east sequences of length at most 2. |
| Agreement.TwoByTwoTotals | cranes_algs.hpp:22-29 | On an open two-by-two grid a, b / c, d, south-east collects a + c + d and east-south collects a + b + d, and both paths are legal. |
| Agreement.OpenSquareBest | cranes_algs.hpp:22-29 | On the grid 1, 2 / 3, 4 the best path is south then east, worth 8. |
| Agreement.DetourTotals | cranes_algs.hpp:22-29 | With a building at (0, 1), any path starting east is illegal, and south then east is legal and worth 8. |
| Agreement.DetourBest | cranes_algs.hpp:22-29 | With a building at (0, 1), the best path is exactly south then east, worth 8. |

## Left out

- `cranes_types.hpp` is not part of this model. Grid construction, file loading, random generation and printing are not modelled. The `grid` and `path` classes are modelled only through the operations used here.
- `is_step_valid` is modelled as checking only the cell entered. It does not check the cell stood on. So with a building at the origin, the exhaustive walk may step off the origin onto open ground, and the origin then counts 0.
- The loop bound `pow(2, max_steps)` is a `double` in the source. It is modelled as the exact integer 2^max_steps.
- Machine widths are not modelled: the `size_t` counters, the shift in `(steps >> i) & 1`, 64-bit overflow and the `unsigned int` running maximum of the scan. Integers are unbounded. The only size bound kept is the source's `max_steps < 64` precondition.
- `std::optional` copying and the pointer taken in the final scan are not modelled. A table entry is an immutable `Option<Path>` value, so entries never alias.
- Every `assert` is modelled as a `requires` on the caller, not as a runtime abort.
- DynProg.CraneUnloadingDynProg: requires an open origin. With a building at the origin, every table entry stays empty and the source's final assertion fails (line 130). So this solver never returns a zero-value path for a blocked origin, and the model does not claim that it does. `BlockedOriginEmpty` proves that every entry stays empty in this case.
- Running time and the complexity claims are not modelled. Calling a solver twice gives the same result because every operation here is a deterministic function of the grid.
