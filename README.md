# Image-processing core of `TraitImage`, modelled in Dafny

`TraitImage` is the static toolbox of an image-compression test bench. This project
models the parts of it that do arithmetic on pixel grids:

- the one-level Haar wavelet transform of a line (`haar1D`, `haar1D_inv`);
- the one-level Haar transform of a grid (`haar2D_mono`, `haar2D_mono_inv`), as a row
  pass into a scratch grid followed by a column pass;
- the multiresolution transform (`haar2D_multi`, `haar2D_multi_inv`). Each level copies
  the top-left block of side `h / 2^n` by `w / 2^n`, transforms it and pastes it back;
- the gathering routines of the two-dimensional autoregressive predictor:
  - `getV` collects the autocorrelation at every position of the `w` by `w`
    neighbourhood except the predicted (last) one;
  - `getR` builds the matrix of lags between those positions;
  - `getCoeff2` weights a coefficient grid by the solution vector;
- the counting loop of `calculHisto`, one bucket per 8-bit grey level;
- `decentrageImage`, which adds the cast mean back to every pixel of an `int` image.

Every routine keeps its imperative shape. Each is a method over `array`/`array2` with
the source's loops and loop invariants. Each is proved against a specification
function of the input and the old contents, and the following properties are proved
about those functions:

- the 1-D, one-level and multiresolution round trips;
- the subband layout of one level;
- detail subbands that deeper levels never touch;
- the symmetry of `R`;
- the agreement of `V` with the column of `R` that `getR` skips;
- exact bucket counts summing to the pixel count;
- `decentrageImage` undoing a shift under 32-bit wrap-around.

Modules, one file each:

- `Matrices` (`matrices.dfy`): grids as values, blocks, powers of two, level sides.
- `Haar1D` (`haar1d.dfy`).
- `Haar2D` (`haar2d.dfy`).
- `HaarMulti` (`haar_multi.dfy`).
- `Gather` (`gather.dfy`): `getR`, `getV`, `getCoeff2` and the row-major numbering of the
  neighbourhood.
- `Histogram` (`histogram.dfy`).
- `Recentre` (`recentre.dfy`): `decentrageImage`, Java `int` wrap-around and the
  `(int)` cast of a `double`.

Modelling choices:

- `double` is modelled as `real`, so the round trips are exact.
- A Java `double[][]` becomes a rectangular `array2<real>`.
- Where the source reads `x[0].length` unconditionally, the methods require a non-empty
  outer array.
- A destination array must be distinct from its source. The 2-D routines also require a
  destination of the source's shape; the 1-D routines require a destination of at least
  `2 * (N/2)` cells.
- `haar2D_mono` and `haar2D_mono_inv` are modelled as written:
  - the row loop runs `h/2` times, not `w/2`;
  - the inverse column pass reads `z[i + h/2]` under a guard on `i + w/2`.

  On square grids both quirks are harmless, and the round trips are stated for square
  grids. `Haar2D.MonoFwdIgnoresWideColumns` shows what the first quirk loses on wide
  grids.
- `getR` and `getV` take both `w` and `h` from `r.length`, as written.
- A negative `niv_resol` runs no level, as the loops do, except the least `int` in the inverse routine (see "## Left out").

## Model

| member | source | states |
|---|---|---|
| Haar1D.Haar1D | src/testimage/TraitImage.java:506-514 | for every `i < N/2`, `y[i]` is the average and `y[i + N/2]` the half-difference of `x[2i]` and `x[2i+1]`; every cell from `2(N/2)` on keeps its old value |
| Haar1D.Haar1DInv | src/testimage/TraitImage.java:520-528 | for every `i < N/2`, `x_rec[2i] = x[i] + x[i+N/2]` and `x_rec[2i+1] = x[i] - x[i+N/2]`; every cell from `2(N/2)` on keeps its old value |
| Haar1D.Haar1DRoundTrip | src/testimage/TraitImage.java:506-528 | the inverse pass after the forward pass gives back the first `2(N/2)` cells of `x` exactly, whatever `y` and `x_rec` held; the other cells of `x_rec` are left alone |
| Haar1D.FwdAtStep | src/testimage/TraitImage.java:509-513 | one iteration of the forward loop writes only cells `i` and `i + N/2` |
| Haar1D.InvAtStep | src/testimage/TraitImage.java:523-527 | one iteration of the inverse loop writes only cells `2i` and `2i + 1` |
| Haar2D.Haar2DMono | src/testimage/TraitImage.java:534-559 | after the row pass and the column pass, `y` holds `MonoFwd` of the old `x` and `y`; every index stays inside the arrays for every shape |
| Haar2D.FwdRowPass | src/testimage/TraitImage.java:542-549 | one row of the row pass: the row is the 1-D forward pass with loop count `k` (`H2` at the call) under the guard `2j+1 < w && j+H2 < w`; other rows unchanged |
| Haar2D.FwdColPass | src/testimage/TraitImage.java:551-558 | one column of the column pass: the column is the 1-D forward pass with loop count `k` (`W2` at the call) under the guard `2i+1 < h && i+W2 < h`; other columns unchanged |
| Haar2D.Haar2DMonoInv | src/testimage/TraitImage.java:565-590 | `x_rec` ends holding `MonoInv` of the old `x` and `x_rec`; every index stays inside the arrays |
| Haar2D.InvRowPass | src/testimage/TraitImage.java:573-580 | one row of the inverse row pass: cells `2j` and `2j+1` rebuilt from `j` and `j+H2`; other rows unchanged |
| Haar2D.InvColPass | src/testimage/TraitImage.java:582-589 | one column of the inverse column pass: cells `2i` and `2i+1` rebuilt from `z[i]` and `z[i+H2]` under the guard on `i+W2`; other columns unchanged |
| Haar2D.MonoFwdLayout | src/testimage/TraitImage.java:534-559 | on an even square grid, the 2 by 2 block at `(2i, 2j)` lands as its mean at `(i, j)` and as its horizontal, vertical and diagonal details at `(i, j+m)`, `(i+m, j)` and `(i+m, j+m)`, with `m = s/2` |
| Haar2D.MonoInvLayout | src/testimage/TraitImage.java:565-590 | on an even square grid, the 2 by 2 block at `(2i, 2j)` is rebuilt from the four subband cells as `p+q+u+v`, `p-q+u-v`, `p+q-u-v`, `p-q-u+v` |
| Haar2D.RowsInvPair | src/testimage/TraitImage.java:573-580 | the inverse row pass rebuilds cells `2j` and `2j+1` of rows `i` and `i+s/2` from cells `j` and `j+s/2` |
| Haar2D.ColsInvPair | src/testimage/TraitImage.java:582-589 | the inverse column pass rebuilds rows `2i` and `2i+1` of columns `2j` and `2j+1` from rows `i` and `i+s/2` |
| Haar2D.ButterflyInverts | src/testimage/TraitImage.java:546-556 | the four forward butterflies followed by the four inverse ones give back the 2 by 2 block |
| Haar2D.MonoRoundTrip | src/testimage/TraitImage.java:534-590 | on an even square grid, `haar2D_mono_inv` undoes `haar2D_mono` exactly, whatever the destinations held |
| Haar2D.MonoFwdIgnoresWideColumns | src/testimage/TraitImage.java:542-549 | the row loop runs `h/2` times, so two inputs that differ only in columns at or past `2(h/2)` transform to the same grid |
| HaarMulti.CopyBlock | src/testimage/TraitImage.java:612-621 | the copy loops move the top-left `MM` by `NN` block from one grid to the other and change nothing else |
| HaarMulti.FwdLevelStep | src/testimage/TraitImage.java:607-621 | one iteration of the level loop: the block of side `h/2^n` by `w/2^n` of `y` is replaced by its one-level transform |
| HaarMulti.InvLevelStep | src/testimage/TraitImage.java:640-654 | one iteration of the inverse level loop: the block of level `n` is replaced by its one-level inverse transform |
| HaarMulti.Haar2DMulti | src/testimage/TraitImage.java:597-623 | `y` ends holding `x` after levels `0` to `niv_resol - 1`, none for a negative count |
| HaarMulti.FwdLevelLoop | src/testimage/TraitImage.java:606-622 | the level loop, run `k` times (`niv_resol`, or none when it is negative), applies levels `0` to `k - 1` in order to the copy of `x` |
| HaarMulti.FwdLevelNext | src/testimage/TraitImage.java:607-621 | an iteration at level `n < k`, on the grid the first `n` levels left, leaves the grid after the first `n + 1` levels |
| HaarMulti.Haar2DMultiInv | src/testimage/TraitImage.java:630-656 | `x_rec` ends holding `x` after the inverse levels `niv_resol - 1` down to `0` |
| HaarMulti.LevelRoundTrip | src/testimage/TraitImage.java:607-621 | on a square grid whose level-`n` block has an even side, inverse level `n` undoes forward level `n` |
| HaarMulti.InvDownUndoes | src/testimage/TraitImage.java:597-656 | the inverse levels `k-1` down to `m` after forward levels `0` to `k-1` leave the grid after forward levels `0` to `m-1` |
| HaarMulti.MultiRoundTrip | src/testimage/TraitImage.java:597-656 | on a square grid whose side is divisible by `2^k`, `haar2D_multi_inv` undoes `haar2D_multi` with `k` levels |
| HaarMulti.DetailsKept | src/testimage/TraitImage.java:606-622 | the detail subbands level `l` leaves outside its block are never rewritten by deeper levels |
| Matrices.LevelSideIsQuotient | src/testimage/TraitImage.java:607-608 | the block side of level `n`, halved `n` times, equals `(int) (h / Math.pow(2, n))` and is at most `h` |
| Matrices.LevelSideShrinks | src/testimage/TraitImage.java:607-608 | deeper levels never have larger blocks |
| Matrices.LevelsNonEmpty | src/testimage/TraitImage.java:607-617 | if `2^(k-1) <= h`, every level below `k` has a block with at least one row, so `z[0]` exists |
| Matrices.EvenSideBelow | src/testimage/TraitImage.java:607-608 | if `2^k` divides the side, every level below `k` has an even block side |
| Matrices.BlockOfPaste | src/testimage/TraitImage.java:612-621 | copying a block back out after pasting it in gives the block |
| Matrices.PasteTwice | src/testimage/TraitImage.java:618-621 | a second paste over the same block hides the first |
| Gather.GetV | src/testimage/TraitImage.java:376-396 | a freshly allocated `V` of length `H` holds `r[i][j]` at the row-major number of every position `(i, j)` of the `w` by `w` neighbourhood but the last, and zeros after |
| Gather.GetR | src/testimage/TraitImage.java:344-375 | a freshly allocated `W` by `H` matrix whose entry `(c, d)` is `r[i-k+w-1][j-l+h-1]` for the positions `(i, j)` and `(k, l)` numbered `c` and `d`, and zero when either is the last position or beyond |
| Gather.FillRows | src/testimage/TraitImage.java:355-372 | one pass of the loop over `j`: rows `cont` onward of `R` receive their lags and `cont` ends at the next row's first number |
| Gather.FillRow | src/testimage/TraitImage.java:359-369 | the loops over `k` and `l` fill row `cont` of `R` with the lags to every non-predicted position and change nothing else |
| Gather.GatherableExactly | src/testimage/TraitImage.java:346-348 | every write of `getR`/`getV` is in bounds exactly when `r` is non-empty and `(len0+1)(len1+1)/4 - 1` leaves room for the `w*w - 1` gathered positions |
| Gather.SquareOddSide | src/testimage/TraitImage.java:346-348 | on a square `r` of odd side `2k-1`, `w = k` and `W = H = k*k - 1`, exactly the number of gathered positions |
| Gather.RowMajorOrder | src/testimage/TraitImage.java:354-371 | the counter `cont` numbers position `(i, j)` as `i*w + j`, and numbering is one to one between the `w*w - 1` positions other than the predicted one and the numbers below `w*w - 1`: number `c` belongs to position `(c / w, c % w)` |
| Gather.NeighboursAreLagsToPredicted | src/testimage/TraitImage.java:344-396 | `V[c]` is the lag between the position numbered `c` and the predicted one, so `V` is the column `getR` leaves out |
| Gather.LagDiagonal | src/testimage/TraitImage.java:344-375 | every diagonal entry `(c, c)` of `R` with `c` below `w*w - 1` is the centre `r[w-1][w-1]`, the autocorrelation at lag zero |
| Gather.LagMatrixSymmetric | src/testimage/TraitImage.java:344-375 | when `r` is point-symmetric about its centre, as an autocorrelation is, `R` is symmetric |
| Gather.LagSymmetric | src/testimage/TraitImage.java:364 | the lag from `c` to `d` mirrors the lag from `d` to `c` through the centre |
| Gather.GetCoeff2 | src/testimage/TraitImage.java:397-409 | every cell `(i, j)` of `coeff` but the last is multiplied by `V[j + i*coeff[0].length]`; the last keeps its value |
| Gather.WeightRow | src/testimage/TraitImage.java:399-408 | the inner loop over row `i` weights that row and no other |
| Gather.CellIndex | src/testimage/TraitImage.java:405 | the index `j + i*coeff[0].length` of every cell but the last is inside `V` when `V` has at least `h*w - 1` entries |
| Gather.WeightedByOnes | src/testimage/TraitImage.java:469-472 | the all-ones vector that `getCoeff` falls back to leaves `coeff` unchanged |
| Histogram.CalculHisto | src/testimage/TraitImage.java:277-288 | bucket `b` counts exactly the pixels whose value is `b`, and the buckets sum to the number of pixels |
| Histogram.CountRow | src/testimage/TraitImage.java:281-285 | counting row `i` adds its occurrences of `b` to bucket `b` and its length to the total |
| Histogram.CellsLength | src/testimage/TraitImage.java:281-282 | the double loop visits `h*w` cells |
| Histogram.SumBump | src/testimage/TraitImage.java:284 | `histo[v]++` adds one to the sum of the buckets |
| Recentre.DecentrageImage | src/testimage/TraitImage.java:153-159 | every cell of `centrage` grows by `(int) moyenne` with 32-bit wrap-around, column by column |
| Recentre.ShiftColumn | src/testimage/TraitImage.java:155-158 | the inner loop shifts column `x` and no other |
| Recentre.JavaIntCast | src/testimage/TraitImage.java:158 | `(int) moyenne` rounds toward zero and saturates at the `int` bounds |
| Recentre.Wrap32 | src/testimage/TraitImage.java:158 | the `int` result of `+=` is congruent to the exact sum modulo `2^32`, and equal to it when it fits |
| Recentre.WrapCongruent | src/testimage/TraitImage.java:158 | sums congruent modulo `2^32` store the same `int` |
| Recentre.AddIntAssociative | src/testimage/TraitImage.java:158 | two wrapped additions equal one addition of the wrapped sum |
| Recentre.ShiftedTwice | src/testimage/TraitImage.java:153-159 | two shifts of the image compose into one shift by the wrapped sum |
| Recentre.ShiftedBack | src/testimage/TraitImage.java:153-159 | shifting by `d` and then by `-d` restores the image, whatever wraps on the way |

## Left out

- The zero-tree wavelet coder (`compression.CodageZTW`): a separate class that consumes a grid already transformed; it calls none of the routines modelled here.
- The AWT image plumbing (`getPixelTab`, writing images back): image I/O.
- `predictionAR2d`, `getCoeff` apart from its all-ones fallback, and `SystemeLineaire`: the linear solve is floating-point numerics. `SystemeLineaire` is not part of this model.
- `calculMoyenne`, `centrageImage`, `quantification`, `calculEntropie`, the autocorrelation and the averaging filters: outside the modelled core.
- The `System.out.println` calls in `getR` and `getV`: console output.
- Floating point: `double` is modelled as `real`. Rounding and NaN are not modelled, so the round trips hold exactly here, whereas in `double` they hold only up to rounding.
- Aliasing: destinations are required to be distinct from their sources. The 2-D routines also require a destination of the source's shape.
- Haar1D.Haar1D: requires `y` to have at least `2 * (N/2)` cells. With fewer, the source throws part-way through the loop. The same holds for Haar1D.Haar1DInv and `x_rec`.
- Jagged arrays: a `double[][]` is modelled as a rectangular grid.
- Gather.GetR: the `int` products `(r.length+1)*(r[0].length+1)` are unbounded here, so their 32-bit overflow on huge inputs is not modelled. The same holds for Gather.GetV.
- Gather.GetR: requires `Gatherable`, the condition under which the source neither throws nor writes out of bounds. Outside it the source throws: on `r[0]` for an empty `r`; with `NegativeArraySizeException` at the allocation when `W` or `H` is negative (a 1 by 0 `r`, say); otherwise with `ArrayIndexOutOfBoundsException` part-way through the loops. The same holds for Gather.GetV.
- Gather.GetCoeff2: requires `V` to have at least `h*w - 1` entries. With fewer, the source throws part-way through.
- Histogram.CalculHisto: the image is an `int` grid with values in `[0, 256)`. The source's `(int)` cast of each `double` pixel and the exception for a value outside the buckets are not modelled.
- HaarMulti.Haar2DMulti: requires `2^(niv_resol-1) <= h`. A deeper level would hand `haar2D_mono` an empty block, and the source throws on `x[0]`. The same holds for HaarMulti.Haar2DMultiInv.
- Recentre.JavaIntCast: NaN, which Java casts to `0`, and the infinities, which Java casts to the `int` bounds, are not modelled, since `moyenne` is a `real`.
- HaarMulti.Haar2DMultiInv: requires `niv_resol` above `Integer.MIN_VALUE`. At that value the loop's `niv_resol - 1` wraps to `Integer.MAX_VALUE`. `Math.pow(2, n)` is then infinite, the block has `0` rows, and `haar2D_mono_inv` throws on `x[0]`. `niv_resol` is otherwise an unbounded `int` here.
