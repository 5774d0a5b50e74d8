# diffractal: the discrete core of four Monte-Carlo renderers

diffractal renders iterated dynamical systems by sampling many trajectories,
binning their points into a 2560 x 1440 pixel grid, summing the hits into a
histogram and tone-mapping that histogram into a 16-bit image. This project
models, in Dafny, the sequential logic under that floating-point arithmetic:

- the escape renderer (`cmd/escape`): the `toP` projection with its one-cell
  halo, the bounded escape loop that alternates two power maps and records
  the trajectory in a reused buffer, the bilinear splat with its four guarded
  writes, the `frequencies` consumer, the largest-cell pass with its fallback,
  and the overflow bleed of blue into green and red;
- the Poincaré-section renderer (`cmd/poincare`): `toPixel`, the counting in
  `work`, `reduce`, and the rank-based heat palette;
- the IFS tree (`pkg/tree`, `cmd/tree`): the `Tree` junction, `Continue`,
  the branch choice and mirroring of `RandomPoint`, the three tree builders,
  the chaos-game walk that restarts at the root on `None`, the pixel mapping,
  and the integer normalisation to 16-bit gray;
- probabilistic transform selection (`pkg/transforms`);
- the Julia renderer (`cmd/julia`): pixel indexing, the bounded escape loop
  and its non-escape skip, the `brightness` consumer, and normalisation with
  the light-blue tint.

Modelling conventions:

- IEEE doubles are `real`.
- The transcendental functions (`Sin`, `Cos`, `Sqrt`, `Asin`, `Pow`, `Log`,
  `cmplx.Abs`, `cmplx.Pow`), the complex power maps and the oscillator's
  ODE step are function-typed parameters. They are given no properties
  beyond the ones a lemma states as its precondition.
- Random draws are explicit inputs, as sequences of reals.
- Go's `int(x)` on a non-negative float is `.Floor`. Go's integer `/` is
  `Grid.GoQuot`.
- Go map iteration order is an explicit argument: any enumeration of the
  keys without repeats (`Accumulate.KeyOrder`). The accumulators' contracts
  therefore hold for every order.
- Every goroutine fan-in is a single consumer folding a sequence of
  contribution maps or messages. Its result is proved independent of the
  order in which they arrive.

Three behaviours of the code that the model keeps:

- A start whose magnitude is already at the escape radius is stepped zero
  times (`Dynamics.EscapedStartTakesNoSteps`). The loop tests the radius
  before it steps.
- The overflow bleed gives the whole blue excess to green and to red alike.
- The Julia sampler starts row y at `top - px*y` and jitters upwards from
  there.

## Model

| member | source | states |
|---|---|---|
| Grid.ToUint16 | cmd/poincare/poincare.go:198 | for a float inside the channel range, `uint16(v)` is a 16-bit channel within one unit below v |
| Grid.GoQuot | cmd/tree/tree.go:125 | Go's integer quotient for a positive divisor: for a non-negative numerator q*b <= a < q*b + b, and it truncates toward zero for a negative one |
| Grid.GoQuotMonotone | cmd/tree/tree.go:124-126 | for non-negative numerators the quotient never decreases as the numerator grows |
| Grid.IndexInRange | cmd/escape/escape.go:159-170 | a cell (x, y) inside the canvas has its row-major index inside the width*height buffer |
| Grid.IndexInjective | cmd/escape/escape.go:157-170 | two columns in [0, width) with the same index have the same column and row, so no write wraps into another row |
| Grid.ColumnRowOfIndex | cmd/escape/escape.go:218-220 | `pixel % Width` and `pixel / Width` recover the column and row a cell was written with |
| Grid.IndexOfColumnRow | cmd/julia/julia.go:153-155 | re-indexing the column and row of any cell gives the cell back, so the colour pass visits each cell at its own pixel |
| Peaks.Peak | cmd/escape/escape.go:205-209 | the largest-cell pass started at zero is >= every cell and >= 0, and equals some cell unless it is zero |
| Peaks.PeakCount | cmd/poincare/poincare.go:162-167 | `maxCount` from zero is >= every count and >= 0, and equals some count unless it is zero |
| Peaks.PeakZeroIffNoPositive | cmd/julia/julia.go:134-139 | the peak is zero exactly when no cell is positive |
| Peaks.PeakCountZeroIffNoPositive | cmd/tree/tree.go:117-122 | `maxCount` is zero exactly when no count is positive |
| Peaks.MaxFromZero | cmd/escape/escape.go:205-209 | the loop computes the peak of the whole buffer |
| Peaks.MaxCount | cmd/poincare/poincare.go:162-167 | the loop computes `maxCount` of the whole buffer |
| Sums.SumPermutation | cmd/escape/escape.go:188-193 | any rearrangement of the same contributions has the same sum |
| Sums.SumAppend | cmd/escape/escape.go:188-193 | the sum over two batches is the sum of the batches' sums |
| Sums.SumIntPermutation | cmd/poincare/poincare.go:97-106 | integer counterpart: the sum is independent of arrival order |
| Sums.TotalIncrement | cmd/tree/tree.go:86-87 | `counts[cell]++` raises the buffer's total by exactly one |
| Dynamics.Orbit | cmd/escape/escape.go:132-142 | trajectory entry i is the state after i+1 steps |
| Dynamics.EscapeTime | cmd/escape/escape.go:133 | the loop count is at most the bound; every state before it is strictly inside the radius; if the count is below the bound, the state it reaches is at or beyond the radius |
| Dynamics.EscapeTimeUnique | cmd/escape/escape.go:132-142 | any count with that stopping property is the escape time |
| Dynamics.EscapedStartTakesNoSteps | cmd/escape/escape.go:133 | a start already at or beyond the radius takes zero steps |
| Dynamics.RecordEscape | cmd/escape/escape.go:132-142 | the loop stops at the escape time, writes step i to `path[i]` only for i below it (inside the buffer), and leaves the rest of the buffer untouched |
| EscapeProjection.ToP | cmd/escape/escape.go:62-82 | the sentinel is returned exactly outside [-1, Width) x [-1, Height); otherwise lx in [-1, Width-1], ly in [-1, Height-1], dx, dy in [0, 1), and base plus offset gives back the continuous coordinate |
| EscapeProjection.CornerWeightsPartitionUnity | cmd/escape/escape.go:152-155 | z00, z01, z10, z11 each lie in [0, 1] and sum to one |
| EscapeProjection.Targets | cmd/escape/escape.go:159-170 | the guarded writes are at most four, each to a canvas cell of the 2x2 neighbourhood, carrying that corner's weight |
| EscapeProjection.TargetsComplete | cmd/escape/escape.go:159-170 | every canvas cell of the neighbourhood is written: the guards drop only off-canvas corners |
| EscapeProjection.TargetsDistinct | cmd/escape/escape.go:159-170 | one splat never writes the same cell twice |
| EscapeProjection.InteriorSplatConservesMass | cmd/escape/escape.go:152-170 | an interior point deposits exactly its full unit of weight over four cells |
| EscapeProjection.BaseBrightness | cmd/escape/escape.go:158 | `min(0.1*k, 1)` lies in [0, 1], is 0.1*k below k = 10 and is 1 exactly from k = 10 on |
| EscapeProjection.BaseBrightnessMonotone | cmd/escape/escape.go:158 | later trajectory points weigh no less |
| EscapeProjection.DepositAt | cmd/escape/escape.go:159-170 | after the writes each key holds its old value plus every target's share of it |
| EscapeProjection.Deposit | cmd/escape/escape.go:159-170 | the keys after the writes are the keys before plus the target cells |
| EscapeProjection.SplatPoint | cmd/escape/escape.go:145-170 | a point outside the halo changes nothing; otherwise every key written is a canvas cell and no value becomes negative |
| EscapeProjection.SplatPath | cmd/escape/escape.go:145-171 | splatting a whole trajectory keeps every key inside the canvas and every value non-negative |
| EscapeSampler.OrbitAlternates | cmd/escape/escape.go:134-138 | recorded step i applies `j` when i is even and `j2` when i is odd |
| EscapeSampler.SampleStart | cmd/escape/escape.go:114-129 | a jittered start lies in the sample pixel's square: real part from row y, imaginary part from column x |
| EscapeSampler.PixelMap | cmd/escape/escape.go:123-174 | a pixel's contribution map has only canvas keys and non-negative values |
| EscapeSampler.NonEscapingSampleIgnored | cmd/escape/escape.go:144 | a sample that stays inside for the whole budget contributes nothing |
| EscapeSampler.SampleSplat | cmd/escape/escape.go:131-172 | one sample keeps the contribution map's keys inside the canvas, its values non-negative, and never drops a key |
| EscapeSampler.PixelSamples | cmd/escape/escape.go:111-174 | the worker's loops, with the shared `path` buffer, compute exactly the reference map, so stale buffer entries never leak into it |
| EscapeSampler.LoopMatchesSplat | cmd/escape/escape.go:139-145 | the buffer prefix the loop left is the orbit the reference splat uses, filtered by `iterations < bIterations` |
| EscapeSampler.Frequencies | cmd/escape/escape.go:184-193 | every cell of `frequencies` ends as the sum of what the received maps hold for it, for any key order |
| EscapeSampler.FrequenciesOrderIndependent | cmd/escape/escape.go:188-193 | the histogram does not depend on the order the maps arrive in |
| EscapeSampler.FrequenciesNonNegative | cmd/escape/escape.go:188-193 | with non-negative contributions every cell is non-negative |
| Accumulate.DrainMap | cmd/escape/escape.go:190-192 | draining one map adds its value to each key's cell and leaves every other cell as it was |
| Accumulate.MapTotalBump | cmd/poincare/poincare.go:84 | `result[k]++` on a Go map raises the sum of its values by one |
| EscapeTone.HitsScale | cmd/escape/escape.go:205-212 | `maxHits` is positive and >= every cell; it is 1 when no cell is positive, and otherwise some cell's value |
| EscapeTone.MaxHits | cmd/escape/escape.go:205-212 | the loop and its `<= 0` fallback compute that scale |
| EscapeTone.BlueLevel | cmd/escape/escape.go:217-222 | a cell between 0 and the largest cell gets a blue level between 0 and 2.5 x 65535, and the largest cell exactly 2.5 x 65535 |
| EscapeTone.BleedAsWritten | cmd/escape/escape.go:222-231 | as written: above 65535 b is capped at 65535 and g and r both equal the excess; otherwise b is unchanged and g = r = 0; b + g is always the uncapped value |
| EscapeTone.BrightestCellOverflowsAsWritten | cmd/escape/escape.go:217-235 | the brightest cell reaches 2.5 x 65535, so its green and red excess does not fit in 16 bits |
| EscapeTone.BleedClamped | cmd/escape/escape.go:226-235 | every channel fits in [0, 65535]; g == r; it agrees with the source whenever the source's values fit; from 2 x 65535 on it is white |
| EscapeTone.BleedClampedMonotone | cmd/escape/escape.go:226-231 | a brighter value is no darker in any channel |
| EscapeTone.PixelColour | cmd/escape/escape.go:217-238 | every cell gets a valid opaque 16-bit colour |
| EscapeTone.BrightestCellIsWhite | cmd/escape/escape.go:217-238 | with the clamp, the brightest cell is pure white |
| EscapeTone.PixelColourMonotone | cmd/escape/escape.go:217-238 | tone mapping keeps the order of cells, channel by channel |
| EscapeTone.ToneImage | cmd/escape/escape.go:201-240 | the colour pass gives each cell the colour of its gamma value under the common scale |
| EscapeTone.ToneImageMonotone | cmd/escape/escape.go:201-240 | with a monotone gamma, a cell hit more is never darker in the final image |
| PoincareCount.PixelColumn | cmd/poincare/poincare.go:69-72 | the column of a point in [MinX, MaxX) lies in [0, Width) |
| PoincareCount.PixelRow | cmd/poincare/poincare.go:69-72 | the row of a point in [MinY, MaxY) lies in [0, Height) |
| PoincareCount.ToPixelAsWritten | cmd/poincare/poincare.go:50-73 | as written: -1 exactly when y is outside [MinX, MaxX] or yp outside [MinY, MaxY], otherwise non-negative |
| PoincareCount.ToPixelWrapsAsWritten | cmd/poincare/poincare.go:56-72 | as written, the right edge lands in column 0 of the next row, on the same key as a left-edge point in the middle of row 1, and the top edge indexes one past the canvas |
| PoincareCount.ToPixel | cmd/poincare/poincare.go:50-73 | -1 exactly outside the half-open window; inside it, a canvas cell at the point's column and row, equal to the source's answer |
| PoincareCount.ToPixelNoWrap | cmd/poincare/poincare.go:69-72 | two points share a key only if they share column and row |
| PoincareCount.Jiggle | cmd/poincare/poincare.go:86-87 | draws from [0, 1) move y by at most one pixel height DY and y' by at most one pixel width DX, either way |
| PoincareCount.CycleKey | cmd/poincare/poincare.go:83-84 | the key of cycle i is -1 exactly when the solved state is outside the closed window, and otherwise non-negative |
| PoincareCount.CycleKeyInWindow | cmd/poincare/poincare.go:50-84 | inside the half-open window the key of a cycle is the corrected pixel, a canvas cell; the source and the corrected binning differ only on the high edges |
| PoincareCount.Visits | cmd/poincare/poincare.go:82-88 | visit i is `toPixel(yp, y)`, as written, of the solved state of cycle i |
| PoincareCount.HistogramStep | cmd/poincare/poincare.go:84 | counting one more visit keeps the map a histogram of the visits so far |
| PoincareCount.Work | cmd/poincare/poincare.go:75-95 | each key's count is its number of visits; counts sum to n; every key is -1 or non-negative, and keys past the canvas from the high edges are kept, as in Go; the final state is the state after n cycles |
| PoincareCount.DrainCounts | cmd/poincare/poincare.go:99-104 | keys outside the buffer are skipped, and every cell gains exactly the map's count for it |
| PoincareCount.Reduce | cmd/poincare/poincare.go:97-106 | every cell ends as its old value plus the sum of the counts all maps sent for it |
| PoincareCount.ReduceOrderIndependent | cmd/poincare/poincare.go:97-106 | the canvas does not depend on the order the workers' maps arrive in |
| PoincareCount.ReduceUntouched | cmd/poincare/poincare.go:97-106 | a cell no map mentions keeps its value |
| PoincareHeat.Heats | cmd/poincare/poincare.go:169-178 | `heats` is strictly increasing and holds exactly the distinct counts |
| PoincareHeat.SortedDistinctUnique | cmd/poincare/poincare.go:174-178 | the sorted distinct list is unique, whatever order the map is ranged in |
| PoincareHeat.Rank | cmd/poincare/poincare.go:180-183 | `reverseHeats[c]` lies in [0, #distinct) and indexes c in `heats` |
| PoincareHeat.RankCountsBelow | cmd/poincare/poincare.go:180-183 | the rank of c is preceded by exactly the distinct counts below c |
| PoincareHeat.RankStrictlyIncreasing | cmd/poincare/poincare.go:180-183 | a larger count has a strictly larger rank |
| PoincareHeat.PHeat | cmd/poincare/poincare.go:189 | `pHeat` lies in [0, 1) |
| PoincareHeat.HeatColour | cmd/poincare/poincare.go:191-222 | opaque and valid; below 1x black to blue with b = uint16(y); from 1x to 1.5x full blue and r = uint16(2(y - 1x)); from 1.5x to 2x full blue and red and g = uint16(2(y - 1.5x)); white from 2x (x = 65535) |
| PoincareHeat.HeatColourMonotone | cmd/poincare/poincare.go:191-222 | moving up the palette never lowers a channel |
| PoincareHeat.HeatNeverWhite | cmd/poincare/poincare.go:189-222 | since `pHeat` < 1, the white bucket is never reached and green stays below full |
| PoincareHeat.HeatImage | cmd/poincare/poincare.go:187-225 | one valid colour per cell, and cell i is the palette at 2 x 65535 times the rank of its count over the number of distinct counts |
| PoincareHeat.HeatImageMonotone | cmd/poincare/poincare.go:187-225 | a cell with a larger count is no darker in any channel |
| TreeNode.Continue | pkg/tree/tree.go:65-80 | Left exactly when the draw is below LeftP² and the left branch exists; Right exactly when it is in [LeftP², LeftP² + (1-LeftP)²) and the right branch exists; otherwise None |
| TreeNode.LeafStops | pkg/tree/tree.go:65-80 | a leaf always answers None |
| TreeNode.RegionsFitUnitInterval | pkg/tree/tree.go:68-73 | for LeftP in [0, 1] the two regions fit in [0, 1] and at most half the mass stops |
| TreeNode.RandomPoint | pkg/tree/tree.go:84-134 | a first draw below LeftP gives a point of the left branch (LeftAngle, width LeftP); otherwise the mirror image about x = 1/2 of that construction with RightAngle and width 1-LeftP |
| TreeNode.StraightPoint | pkg/tree/tree.go:113-125 | with cos² + sin² = 1, a straight-part point has coordinates `across*width` and `along*length` in the frame turned by the branch angle |
| TreeNode.BranchPoint | pkg/tree/tree.go:98-126 | with cos² + sin² = 1, a point on the turn lies at distance `sqrt(r)*width` from the corner; a point off the turn is the straight-part point of the same draws |
| TreeNode.RightPointIsMirroredLeftPoint | pkg/tree/tree.go:84-134 | a right-branch point is the swapped junction's left-branch point mirrored: X becomes 1-X and Y is unchanged |
| TreeNode.SwapMirrorsPoints | pkg/tree/tree.go:84-134 | a left-branch point of the swapped junction is the mirror image of the original's right-branch point with the same remaining draws |
| TreeNode.LeftOrigin | pkg/tree/tree.go:38-44 | the left branch's frame starts at the far end of the branch's left edge: the straight-part point at across 0, along 1 |
| TreeNode.RightOrigin | pkg/tree/tree.go:46-54 | the right branch's frame starts at the far end of its own left edge: the mirror image of the straight-part point at across 1, along 1 of a left branch with RightAngle and width 1-LeftP |
| TreeBuild.Symmetric | pkg/tree/symmetric_tree.go:5-22 | nil for 0 layers; every root-to-nil path has `layers` junctions; both branches share one subtree; every share is 0.5; both turns are `angle` |
| TreeBuild.SymmetricIsMirrorImage | pkg/tree/symmetric_tree.go:5-22 | a symmetric tree is its own mirror image |
| TreeBuild.Mirror | pkg/tree/symmetric_tree.go:5-22 | the mirror image of a tree is nil exactly when the tree is, has as many junctions, and keeps every share a proportion |
| TreeBuild.MirrorInvolution | pkg/tree/symmetric_tree.go:5-22 | mirroring a tree twice gives it back |
| TreeBuild.PerfectSize | pkg/tree/symmetric_tree.go:5-22 | a tree with every path of length n has 2^n - 1 junctions |
| TreeBuild.BalancedConstant | pkg/tree/balanced_tree.go:7-33 | nil for 0 layers; every path has `layers` junctions; both branches share one subtree; LeftP is pLeft everywhere; the smaller branch turns by `angle` |
| TreeBuild.BranchAngles | pkg/tree/balanced_tree.go:12-19 | the smaller branch turns by `angle`: the left one for pLeft < 0.5, the right one otherwise |
| TreeBuild.BranchAnglesBalance | pkg/tree/balanced_tree.go:12-19 | the arcsine rule balances the junction: LeftP·sin(left turn) = (1-LeftP)·sin(right turn) |
| TreeBuild.LeftSmallerBalances | pkg/tree/balanced_tree.go:13-15 | for pLeft < 0.5 the left turn is `angle` and the right turn balances it |
| TreeBuild.RightSmallerBalances | pkg/tree/balanced_tree.go:16-19 | for pLeft >= 0.5 the right turn is `angle` and the left turn balances it |
| TreeBuild.BalancedConstantBalanced | pkg/tree/balanced_tree.go:7-33 | every junction of a constant balanced tree is balanced |
| TreeBuild.NeededTwicePerJunction | pkg/tree/random_balanced.go:8-34 | a tree of depth n reads 2(2^n - 1) draws, two per junction |
| TreeBuild.BuildFromShift | pkg/tree/random_balanced.go:25-31 | the traversal reads no draw before its position: building from `start` gives the same tree as building `draws[start..]` from its first draw |
| TreeBuild.BuildFromPerfect | pkg/tree/random_balanced.go:25-31 | the recursive builder makes every path exactly `layers` long |
| TreeBuild.RandomBalanced | pkg/tree/random_balanced.go:8-34 | nil exactly for 0 layers; otherwise a full tree with every path of length `layers` |
| TreeBuild.DrawnJunctionRanges | pkg/tree/random_balanced.go:13-14 | draws in [0, 1) give LeftP in [0.2, 0.8) and a turn in [π/15, 4π/15) |
| TreeBuild.RandomBalancedRanges | pkg/tree/random_balanced.go:13-31 | every junction has LeftP in [0.2, 0.8), a smaller-branch turn in [π/15, 4π/15), and balanced turns |
| TreeBuild.RandomBalancedSplit | pkg/tree/random_balanced.go:13-31 | the root reads the first two draws (share, then turn); the left subtree is the random tree of the following draws, and the right subtree that of the draws after the left subtree's |
| TreeBuild.RandomBalancedPrefix | pkg/tree/random_balanced.go:8-34 | the tree depends only on the first 2(2^n - 1) draws |
| TreeWalk.AdvanceDescends | cmd/tree/tree.go:96-113 | Left/Right moves to that branch, multiplies the scale by LeftP or 1-LeftP, and adds LeftAngle or subtracts RightAngle |
| TreeWalk.Rescale | cmd/tree/tree.go:159-167 | at scale 1 with cosine 1 and sine 0 (the root frame) it only adds the offset |
| TreeWalk.RescaleScalesDistance | cmd/tree/tree.go:159-167 | with cos² + sin² = 1 it multiplies every distance from the frame's origin by `scale` |
| TreeWalk.Advance | cmd/tree/tree.go:89-114 | None restarts at the root with scale 1, angle 0 and no offset; a descent enters the branch, multiplies the scale by its share, adds its signed turn, and moves the offset to the branch's origin in the current frame |
| TreeWalk.AdvanceTracks | cmd/tree/tree.go:89-114 | None resets to the root with scale 1 and angle 0, and a descent extends the path; node, scale and angle are always the path's junction, share product and turn sum |
| TreeWalk.AdvanceKeepsWalkOk | cmd/tree/tree.go:89-114 | with a draw >= 0 the walk never reaches nil, stays on a well-formed tree, and its scale stays in (0, 1] |
| TreeWalk.AlongSnoc | cmd/tree/tree.go:96-113 | one more descent multiplies the path's scale by the branch share and adds its signed turn |
| TreeWalk.PixelX | cmd/tree/tree.go:83 | an in-view x gives a column in [0, Width], and in [0, Width) strictly left of the right edge |
| TreeWalk.PixelY | cmd/tree/tree.go:84 | an in-view y gives a row in [0, Height], and in [0, Height) strictly above the bottom edge |
| TreeWalk.CellAsWritten | cmd/tree/tree.go:76-87 | as written, a cell index that is non-negative for every in-view point |
| TreeWalk.CellEdgesAsWritten | cmd/tree/tree.go:76-87 | as written, the right edge at the top shares cell Width (column 0 of row 1) with a left-edge point in the middle of row 1, and the bottom edge indexes Width*Height, past the buffer |
| TreeWalk.Cell | cmd/tree/tree.go:76-87 | every in-view point gets a cell in [0, Width*Height); strictly left of the right edge and strictly above the bottom edge it is the source's cell |
| TreeWalk.CellNoWrap | cmd/tree/tree.go:83-86 | two in-view points, the right and bottom edges included, share a cell exactly when they share its column and row, with the right edge counted in the last column and the bottom edge in the last row |
| TreeWalk.CellPastBuffer | cmd/tree/tree.go:76-87 | the source's cell of an in-view point is past the buffer only on the bottom or right edge, and always on the bottom edge |
| TreeWalk.Step | cmd/tree/tree.go:89-114 | the walk's invariant survives every iteration |
| TreeWalk.AllInViewMeans | cmd/tree/tree.go:76-81 | the run passes the bounds checks up to step n iff every point before n is in view |
| TreeWalk.VisitedCells | cmd/tree/tree.go:71-87 | visit k is the source's cell `px + py*width` of the k-th in-view point |
| TreeWalk.VisitedAwayFromEdges | cmd/tree/tree.go:76-87 | a run that keeps off the right and bottom edges visits exactly the corrected cells, all in the buffer |
| TreeWalk.TallyCounts | cmd/tree/tree.go:86-87 | bumping one cell per visit gives each cell its number of visits, and the buffer's total is the number of visits |
| TreeWalk.RenderStep | cmd/tree/tree.go:71-115 | an in-view iteration counts its point's cell and moves the walk to its next state |
| TreeWalk.Render | cmd/tree/tree.go:66-115 | the run panics at the first out-of-view point, or with index out of range at the first in-view point whose cell is past the buffer; otherwise each cell holds its number of visits and the counts total the number of iterations |
| TreeWalk.CountAndStep | cmd/tree/tree.go:83-114 | one iteration on a point whose cell is in the buffer adds that cell to the visits, keeps the counts their tally, and moves the walk one step |
| TreeWalk.GrayLevel | cmd/tree/tree.go:125 | for a count c >= 0 the level is the quotient g with g*maxCount <= c*65535 < (g+1)*maxCount |
| TreeWalk.GrayLevelRange | cmd/tree/tree.go:124-126 | for 0 <= c <= maxCount, `c*MaxUint16/maxCount` lies in [0, 65535], is monotone in c, and the largest count maps to 65535 |
| TreeWalk.Normalize | cmd/tree/tree.go:117-126 | integer division by zero exactly when there are counts and none is positive; otherwise every count is rescaled by the largest |
| TreeWalk.RenderedPeakPositive | cmd/tree/tree.go:117-126 | a completed run of at least one step never divides by zero |
| Transforms.SelectFrom | pkg/transforms/transform.go:28-38 | the scan picks an index whose threshold exceeds p, and falls back exactly when no remaining threshold exceeds p |
| Transforms.Select | pkg/transforms/transform.go:29-37 | a chosen entry has p below its threshold; fallback exactly when no threshold exceeds p |
| Transforms.NextLoop | pkg/transforms/transform.go:28-38 | the early-returning loop computes `Next` |
| Transforms.Next | pkg/transforms/transform.go:28-38 | the transform of the first entry whose threshold exceeds p is applied, and the initial point is returned when no threshold does |
| Transforms.ChosenIsLeast | pkg/transforms/transform.go:29-35 | the least index whose threshold exceeds p is the one applied |
| Transforms.EmptyFallsBack | pkg/transforms/transform.go:31-37 | with no transforms every draw yields `First()` |
| Transforms.SelectDependsOnlyOnProbabilities | pkg/transforms/transform.go:29-35 | the choice depends only on p and the thresholds, not on the point or the transforms |
| Transforms.SelectInterval | pkg/transforms/transform.go:29-35 | with cumulative thresholds, entry i is chosen exactly for p in [threshold i-1, threshold i) |
| Transforms.FallbackAboveLast | pkg/transforms/transform.go:29-37 | with cumulative thresholds, `First()` is returned exactly when p is at or above the last threshold |
| Julia.PixelCell | cmd/julia/julia.go:82-85 | `x + y*Width` lies in the buffer and is injective on canvas pixels |
| Julia.CellPixel | cmd/julia/julia.go:153-155 | cell i is drawn at a canvas pixel whose index is i |
| Julia.SampleStart | cmd/julia/julia.go:80-93 | a jittered start lies in the one-pixel square at `top - px*y`, `left + px*x` |
| Julia.EscapeLoop | cmd/julia/julia.go:95-99 | the loop runs the escape time: at most `MaxIterations` steps, stopping early only at the bound, ending on that step's state |
| Julia.SampleBrightness | cmd/julia/julia.go:101-106 | a sample that never escapes adds 0; otherwise it adds n + 1 - smooth(z_n) at its first escape n < `MaxIterations` |
| Julia.PixelBrightness | cmd/julia/julia.go:83-107 | b is the sum of the samples' contributions |
| Julia.AddSample | cmd/julia/julia.go:89-106 | one pass of the sample loop adds exactly that sample's contribution |
| Julia.TrappedPixelIsDark | cmd/julia/julia.go:101-103 | a pixel none of whose samples escapes has brightness 0 |
| Julia.Consume | cmd/julia/julia.go:123-128 | every cell gains exactly the brightness sent to it |
| Julia.ReceivedOrderIndependent | cmd/julia/julia.go:123-128 | the buffer does not depend on the order messages arrive in |
| Julia.ReceivedNothing | cmd/julia/julia.go:123-128 | a cell no message names is unchanged |
| Julia.SingleSender | cmd/julia/julia.go:109-128 | with one message per pixel, a cell ends with exactly its own pixel's brightness |
| Julia.Normalise | cmd/julia/julia.go:134-143 | the division is by zero exactly when there are cells and none is positive; otherwise each cell is divided by the peak |
| Julia.NormalisedRange | cmd/julia/julia.go:134-143 | for non-negative cells and a positive peak, each normalised cell lies in [0, 1], the peak cell becomes 1, and order is kept |
| Julia.NormalisedReachesOne | cmd/julia/julia.go:134-143 | with a positive peak some cell normalises to exactly 1 |
| Julia.Shade | cmd/julia/julia.go:157-159 | for br in [0, 1] the result is the integer part of channel*br, a 16-bit value at most the channel; 1 keeps the channel and 0 clears it |
| Julia.Tint | cmd/julia/julia.go:145-166 | each output channel is the integer part of the light-blue channel times br, so at most that channel, and the colour is opaque; br = 1 gives light blue and br = 0 black |
| Julia.TintMonotone | cmd/julia/julia.go:153-166 | a brighter cell is no darker in any channel |

## Left out

- Goroutines, channels and wait groups: each fan-in is one consumer folding a sequence, and the order-independence lemmas cover every interleaving.
- The CLI wiring, file creation, timestamps and PNG encoding are I/O.
- RNG seeding and `math/rand` are external. Draws are inputs, and an infinite generator is a finite prefix of draws.
- Float rounding, NaN and infinities: arithmetic is exact over `real`.
- Sin, Cos, Sqrt, Asin, Pow, Log, `cmplx.Abs` and `cmplx.Pow` are opaque parameters, and so are the `JuliaN` maps and the oscillator's Runge-Kutta step. `pkg/transforms/julia.go`, `linear.go` and `mandelbrot.go` only define such maps, so they appear only as those parameters.
- Escape gamma: `math.Pow(f, 0.2)` is a parameter of `EscapeTone.ToneImage`. Only its monotonicity and non-negativity are assumed, as lemma preconditions.
- Julia smoothing and bound: `Log(Log|z|)/Log 6` and the escape bound `Pow(MaxFloat64, 1/6)` are the `smooth` and `bound` fields of `Julia.JuliaMap`.
- Transforms.Next: the random generator handed to the chosen transform is folded into that transform's function.
- The concrete tree `cmd/tree` renders (a trunk with LeftP 1 over `Symmetric(20, 0.6)`, cmd/tree/tree.go:33-43) is not built in: `TreeWalk.Render` takes any well-formed root.
- TreeWalk.AdvanceTracks: the walk's `offset` is not tracked along the path. `TreeWalk.Advance` states each step's offset, but the accumulated offset depends only on the opaque trigonometric functions.
- The panics in `cmd/tree/tree.go` are outcomes: `OutOfView` for the bounds checks and `IndexPanic` for `counts[cell]++` past the buffer. Points are assumed neither to stay in view nor to leave it.
- TreeWalk.GrayLevelRange: Go's 64-bit overflow of `c*MaxUint16` is not modelled. Counts are bounded by 10^7 iterations, far below it.
- Julia.Tint: the conversion of a negative or NaN brightness to `uint16` is not modelled. Its precondition keeps br in [0, 1]. `Julia.NormalisedRange` shows that holds for non-negative cells, and `Julia.Normalise` reports the missing zero guard as `Undefined`.
- EscapeTone.PixelColour: the gamma value and the scale are preconditioned non-negative and positive. `uint16` of the as-written excess is the finding below, and the model uses the clamped bleed.
- Tree layers are `nat`. A negative layer count makes the Go builders recurse without end.
- Debug globals and `fmt.Println` output in `cmd/poincare` and `cmd/escape` are not modelled. The `heatMap` values (how many cells share a count) are never read, and only its keys are modelled.
- The Poincaré warm-up (`StartCycles` cycles without output) is `PoincareCount.Work` with its counts discarded. The worker's random start is an input.

## Findings

| source | as written | input that shows it | evidently intended | confidence | as-written member | corrected member |
|---|---|---|---|---|---|---|
| cmd/poincare/poincare.go:56-72 | the guards reject only y > MaxX and yp > MaxY, so the high edges pass | (y, yp) = (30, 0.2) gives key 2560, the same as (-30, 0.2 + 1.5 DY), a point in the middle of row 1; yp = 4 gives key 2560*1440, which `reduce` silently drops | a half-open window, every key a cell at the point's own column and row | medium, not executed | PoincareCount.ToPixelWrapsAsWritten | PoincareCount.ToPixel |
| cmd/tree/tree.go:76-87 | the panics reject only x > right and y < bottom, so the right and bottom edges pass | (right, top) gives cell 2560, the same as (left, top - 1.5 viewHeight/height), a point in the middle of row 1; (left, bottom) gives cell 2560*1440 and `counts[cell]++` is out of range | edge points binned into the last column or row | medium, not executed | TreeWalk.CellEdgesAsWritten | TreeWalk.Cell |
| cmd/escape/escape.go:226-235 | the blue excess is copied to g and r unbounded | the brightest cell has b = 2.5 x 65535, so g = r = 98302.5, outside `uint16` | green and red saturate at 65535, so the brightest cell is white | medium, not executed | EscapeTone.BrightestCellOverflowsAsWritten | EscapeTone.BleedClamped |

`PoincareCount.Work` and `TreeWalk.Render` bin points as the code does, so
the first two rows show up in them: `Work` keeps keys past the canvas, and
`Render` ends in `IndexPanic` on the bottom edge. `PoincareCount.CycleKeyInWindow`
and `TreeWalk.VisitedAwayFromEdges` prove that the code and the corrected
binning agree on every point off the high edges.
