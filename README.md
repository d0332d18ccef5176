# Lens distortion estimation and correction — verified model

This project models the computational core of the distortion module of
Calib3DTools and its logging stream `libMsg`:

- **Coefficient layout** (`CoefLayout`): `coefIdx`, which places the
  monomial x^a y^b of a bivariate polynomial of degree d in its
  coefficient vector (highest degree first, constant last), the vector size
  (d+1)(d+2)/2, and the inverse of the layout.
- **`popchar`** (`CharBuffer`): removing one character from a char array in
  place, shifting the tail left.
- **Image correction** (`Correction`): `correct_image` and
  `correct_image_RGB` cut the image into bands of `TASK_BATCH_SIZE` = 100
  rows; `correctSegment` / `correctRGBSegment` rewrite every pixel of their
  band with the clamped, interpolated value at the undistorted position,
  count progress per row and poll for an abort.
- **Line detection bookkeeping** (`LineGroups`): `read_images` keeps the
  detected curves longer than the length threshold, records how many each
  image contributed, stops when nothing is kept, and resamples the kept
  curves into lines; `polyEstime` regroups those lines per image.
- **Polynomial fit bookkeeping** (`PolyFit`): `incLMA` fits the orders
  3, 3+inc, … up to the requested order, warm-starting each fit from the
  previous one and freezing the linear terms; `polyInv` splits the
  parameters into the x and y polynomials; `polyEstime` checks image sizes,
  computes the length threshold min(w, h)·0.3, and chains everything.
- **Log stream** (`LibMsg`): `libMsg::ostream` accumulates text and hands
  it to the receiver that `globalMessager` holds at flush time; `error`
  reports to the receiver and throws.

The numerical collaborators (edge detection, Gaussian resampling, the
Levenberg–Marquardt fit, the refinement loop, the polynomial inversion,
`undistortPixel` and spline interpolation) are parameters of the model: the
proofs hold for every behaviour they may have, under the size assumptions
stated in `PolyFit.LmaShape` and `PolyFit.NumericsShape`. Abort polls
(`abortIfAsked`) are a parameter `asked` giving the answer of each poll.

## Model

| member | source | states |
|---|---|---|
| CoefLayout.Size | distortion/distCorrection.cpp:453 | the number of monomials of degree at most d, at least d+1 for d ≥ 0 |
| CoefLayout.SizeClosedForm | distortion/distCorrection.cpp:453 | the vector size (d+1)(d+2)/2 used by the source is the number of monomials of degree at most d |
| CoefLayout.CoefIdxDivisionExact | distortion/distCorrection.cpp:318-319 | the halving of the series sum is exact on every monomial of the polynomial, so the truncating division loses nothing |
| CoefLayout.CoefIdx | distortion/distCorrection.cpp:312-320 | on every monomial of the polynomial, `coefIdx(d, x, y)` is Size(d) − Size(x+y) + y: the block of degree x+y counted from the end, y inside the block |
| CoefLayout.SeriesIsSlot | distortion/distCorrection.cpp:314-319 | the arithmetic series `coefIdx` halves and shifts equals that closed-form slot |
| CoefLayout.SlotInRange | distortion/distCorrection.cpp:312-320 | every monomial of degree at most d gets an index in [0, Size(d)) |
| CoefLayout.LocateSound | distortion/distCorrection.cpp:312-320 | the inverse layout returns a monomial of the polynomial whose slot is the given index |
| CoefLayout.LocateComplete | distortion/distCorrection.cpp:312-320 | the inverse layout recovers every monomial from its slot |
| CoefLayout.SlotInjective | distortion/distCorrection.cpp:312-320 | two monomials share a slot if and only if they are equal |
| CoefLayout.MonomialThenCoefIdx | distortion/distCorrection.cpp:312-320 | every index of the vector is the `coefIdx` of some monomial of degree at most d (surjective) |
| CoefLayout.CoefIdxThenMonomial | distortion/distCorrection.cpp:312-320 | `coefIdx` lands in range and reading back its monomial gives the input (left inverse) |
| CoefLayout.CoefIdxInjective | distortion/distCorrection.cpp:312-320 | `coefIdx` of two monomials is equal if and only if the monomials are equal |
| CoefLayout.HigherDegreeFirst | distortion/distCorrection.cpp:312-320 | a monomial of larger total degree gets a smaller index |
| CoefLayout.LinearSlots | distortion/distCorrection.cpp:453-457 | x sits at size−3, y at size−2, the constant at size−1, the slots the source sets to 1 and freezes |
| CoefLayout.LastThreeSlotsAreLowDegree | distortion/distCorrection.cpp:469-472 | the last three slots hold exactly the monomials of degree at most one |
| CharBuffer.Popped | distortion/distCorrection.cpp:303-309 | the buffer after the pop has the same length, and every position outside idx..size−2 keeps its character |
| CharBuffer.PoppedAt | distortion/distCorrection.cpp:303-309 | after the pop, positions idx..size−2 hold their right neighbour and every other position is unchanged |
| CharBuffer.PopThenReinsert | distortion/distCorrection.cpp:303-309 | putting the popped character back at idx restores the first `size` characters; position size−1 and beyond are untouched |
| CharBuffer.PopChar | distortion/distCorrection.cpp:303-309 | returns the character at idx and shifts the array in place exactly as `Popped` describes |
| Correction.NumTasksIsCeiling | distortion/distCorrection.cpp:178-194 | the number of tasks is ceil(he/100), at least one, and the last band has 1 to 100 rows |
| Correction.Bands | distortion/distCorrection.cpp:178-194 | one band per task, none over 100 rows, none empty when the image has rows |
| Correction.PlanBands | distortion/distCorrection.cpp:178-194 | the launch loop produces exactly the band list `Bands(he)` |
| Correction.BandSizes | distortion/distCorrection.cpp:178-194 | every band but the last has 100 rows; the last of a non-empty image has between 1 and 100 |
| Correction.BandsTile | distortion/distCorrection.cpp:178-194 | the bands start at row 0, each starts where the previous ends, and the last ends at `he` |
| Correction.RowInExactlyOneBand | distortion/distCorrection.cpp:178-194 | each row of the image lies in exactly one band, band row/100 |
| Correction.BandsTotalRows | distortion/distCorrection.cpp:199 | the band row counts add up to `he`, the total the progress report waits for |
| Correction.Clamp | distortion/distCorrection.cpp:153 | min(max(v, 0), 255) lies in [0, 255] and is v when v is already in range |
| Correction.GrayPixel | distortion/distCorrection.cpp:143-154 | the written value is in [0, 255] and is 0 when interpolation fails |
| Correction.RgbPixel | distortion/distCorrection.cpp:229-240 | each channel is in [0, 255], and all three are 0 when interpolation fails |
| Correction.FirstAsked | distortion/distCorrection.cpp:140-158 | the first poll in a range that asks for an abort, none before it |
| Correction.GrayRowsDone | distortion/distCorrection.cpp:140-158 | rows finished before the first abort: at most rowCount, every earlier poll negative |
| Correction.GrayAbortsIffSomePoll | distortion/distCorrection.cpp:140-158 | a gray band aborts if and only if one of its rowCount+1 polls asks for it |
| Correction.Progress.constructor | distortion/distCorrection.cpp:179 | the progress counter starts at 0 |
| Correction.CorrectSegment | distortion/distCorrection.cpp:136-159 | rows before the first abort are rewritten with `GrayPixel`, every other pixel is unchanged, progress grows by the rows done, and the result says whether an abort was raised |
| Correction.CorrectImage | distortion/distCorrection.cpp:161-214 | succeeds if and only if no poll of any band asks for an abort; then progress equals `he` and every pixel is `GrayPixel` |
| Correction.CorrectRgbSegment | distortion/distCorrection.cpp:216-245 | polls only before and after the band; unless the first poll aborts, every row of the band is rewritten with `RgbPixel` and progress grows by rowCount |
| Correction.CorrectImageRgb | distortion/distCorrection.cpp:247-300 | succeeds if and only if no band's two polls ask for an abort; then progress equals `he` and every pixel is `RgbPixel` |
| LineGroups.PointsOf | distortion/distCorrection.cpp:434-438 | a resampled curve of `size` tuples gives `size` points |
| LineGroups.CopyPoints | distortion/distCorrection.cpp:434-438 | the point copy loop reads (x, y) from each tuple, giving `PointsOf` |
| LineGroups.SumOfCounts | distortion/distCorrection.cpp:558-575 | the group counts of a grouping add up to the number of grouped items |
| LineGroups.ConcatOfSplit | distortion/distCorrection.cpp:558-575 | cutting a list by group counts and joining the parts gives the list back |
| LineGroups.SplitOfConcat | distortion/distCorrection.cpp:558-575 | joining groups and cutting by their counts gives the groups back |
| LineGroups.SplitAt | distortion/distCorrection.cpp:566-573 | group i, item j is item `count + j` of the flat list, `count` being the sum of the earlier groups |
| LineGroups.Kept | distortion/distCorrection.cpp:404-412 | the curves kept from one image are at most the detected ones; `KeptIffLonger` says which |
| LineGroups.Eliminated | distortion/distCorrection.cpp:404-412 | the curves eliminated from one image are at most the detected ones; `KeptPlusEliminated` relates them to the kept ones |
| LineGroups.KeptPlusEliminated | distortion/distCorrection.cpp:404-412 | kept curves and eliminated curves together are all the curves of an image |
| LineGroups.KeptIffLonger | distortion/distCorrection.cpp:405 | a curve is kept if and only if it is detected and has more points than the threshold |
| LineGroups.KeptAppend | distortion/distCorrection.cpp:386-414 | filtering images one after another equals filtering their concatenation |
| LineGroups.GroupCountsSum | distortion/distCorrection.cpp:414 | the per-image counts pushed as groups add up to the number of kept curves |
| LineGroups.ResampledConcat | distortion/distCorrection.cpp:427-440 | resampling the concatenated curves is the concatenation of resampling each image's curves |
| LineGroups.FilterCurves | distortion/distCorrection.cpp:403-414 | appends exactly the kept curves, in order, and counts kept and eliminated curves |
| LineGroups.ResampleAll | distortion/distCorrection.cpp:427-440 | the lines are the resampled kept curves, one line per curve, in order |
| LineGroups.ReadImages | distortion/distCorrection.cpp:361-447 | aborts at the first image whose poll asks for it; otherwise fails if and only if no curve is kept, and else returns the per-image counts and the resampled kept curves; per-image reports give detected and eliminated counts |
| LineGroups.Regroup | distortion/distCorrection.cpp:558-575 | the lines are cut per image by the group counts, in order |
| PolyFit.Mask | distortion/distCorrection.cpp:469-472 | a 0/1 flag vector of the given size, 0 exactly on the last three slots |
| PolyFit.FirstCall | distortion/distCorrection.cpp:465-475 | the first fit is at order 3 with vectors of 10 coefficients and the linear terms frozen |
| PolyFit.WarmStart | distortion/distCorrection.cpp:477-481 | the warm-started vector has the new size and ends with the old vector |
| PolyFit.Calls | distortion/distCorrection.cpp:465-483 | the first fit of the order loop is the identity start at order 3 |
| PolyFit.RunOrders | distortion/distCorrection.cpp:465 | the fitted orders go up by `inc` from the start and stop at the last one not above the target |
| PolyFit.CallsOrders | distortion/distCorrection.cpp:465 | the j-th fit is at order 3 + j·inc, never above `order`, and one more step would pass it |
| PolyFit.RunLinks | distortion/distCorrection.cpp:476-483 | each fit after the first is warm-started from the result of the previous one |
| PolyFit.CallsLinks | distortion/distCorrection.cpp:476-483 | each fit after the first is built from the previous fit's parameters at the previous order |
| PolyFit.EveryCallFreezesLinearTerms | distortion/distCorrection.cpp:465-472 | every fit has vectors of size Size(order) and frees exactly the monomials of degree at least two |
| PolyFit.FirstCallIsIdentity | distortion/distCorrection.cpp:473-475 | the first fit starts from the identity: x coefficient 1 in b, y coefficient 1 in c, all else 0 |
| PolyFit.WarmStartAt | distortion/distCorrection.cpp:477-481 | copying the old vector at offset size−sizeOld keeps every monomial's coefficient and zeroes the new higher ones |
| PolyFit.WarmStartedKeepsMonomials | distortion/distCorrection.cpp:477-481 | the x and y warm starts carry each monomial of the previous fit to the same monomial, higher ones start at 0 |
| PolyFit.WarmStartKeepsMonomials | distortion/distCorrection.cpp:476-482 | in every fit after the first, each monomial's starting coefficient is the one the previous fit returned |
| PolyFit.RefineSeedAsWritten | distortion/distCorrection.cpp:503-505 | the refinement reads the first 2·Size(order) parameters as the x and y halves |
| PolyFit.WarmStartedAgreesWhenOrderReached | distortion/distCorrection.cpp:503-505 | when the last fit was at `order`, the corrected seed equals the slices the source reads |
| PolyFit.LastOrderReachesTarget | distortion/distCorrection.cpp:465 | the last fitted order is at most `order`, and equal to it if and only if inc divides order−3 |
| PolyFit.SeedInBoundsIffOrderReached | distortion/distCorrection.cpp:503-505 | the slices of the refinement stay inside the fitted parameters if and only if inc divides order−3 |
| PolyFit.EvenOrderOverreads | distortion/distCorrection.cpp:465 | for order 4 with inc 2 only order 3 is fitted, giving 20 parameters where the refinement reads 30 |
| PolyFit.RefineStart | distortion/distCorrection.cpp:496-505 | the corrected refinement seed is a call at `order` with vectors of size Size(order) |
| PolyFit.RefineStartKeepsLastFit | distortion/distCorrection.cpp:496-505 | the corrected seed carries each coefficient of the last fit to its monomial, starts higher monomials at 0, freezes exactly the linear terms, and equals the source's slices when the last fit was at `order` |
| PolyFit.IncLma | distortion/distCorrection.cpp:450-521 | performs exactly the fits `Calls` and returns the refinement of the corrected seed (see Findings), with all linear terms frozen |
| PolyFit.OrderLoop | distortion/distCorrection.cpp:463-492 | the loop performs the fits `Calls`, ends at `LastOrder` and holds that fit's parameters |
| PolyFit.OrderStep | distortion/distCorrection.cpp:465-482 | one iteration builds the identity start at order 3 and a warm start from the previous fit otherwise |
| PolyFit.MaskArray | distortion/distCorrection.cpp:469-472 | the flag vector is all ones but the last three entries |
| PolyFit.WarmStartCopy | distortion/distCorrection.cpp:476-482 | the copy loop builds the warm-started x and y vectors |
| PolyFit.SplitParams | distortion/distCorrection.cpp:527-530 | the x polynomial is the first Size(degX) parameters and the y polynomial the next Size(degY) |
| PolyFit.SplitParamsOfJoined | distortion/distCorrection.cpp:527-530 | splitting the concatenation of an x and a y vector gives them back |
| PolyFit.PolyInv | distortion/distCorrection.cpp:524-532 | the inversion is given the x and y halves of the parameters |
| PolyFit.FirstMismatch | distortion/distCorrection.cpp:541-552 | finds the first image whose size differs from the first image's, or reports none |
| PolyFit.MinLength | distortion/distCorrection.cpp:553 | the length threshold is the largest integer not above 0.3·min(w, h) |
| PolyFit.DetectedLinesPerImage | distortion/distCorrection.cpp:558-575 | the lines regrouped for image i are the resampled curves kept from image i |
| PolyFit.PolyEstime | distortion/distCorrection.cpp:534-590 | fails on the first image of a different size, on an abort, or when no line is kept (each if and only if); on success returns the lines of each image and the inverse of the fitted polynomial (from the corrected refinement seed, see Findings) |
| LibMsg.ClampPrecision | libMessager/messager.cpp:73 | the stored precision is the requested one, raised to 2 when smaller |
| LibMsg.Messager.Message | libMessager/messager.cpp:10 | a receiver records each message with its kind, in order |
| LibMsg.GlobalMessager.constructor | libMessager/messager.cpp:4 | `globalMessager` starts as null |
| LibMsg.GlobalMessager.Set | libMessager/messager.cpp:4 | assigning a receiver to the global variable |
| LibMsg.OStream.constructor | libMessager/messager.cpp:14-18 | a new stream is empty, has precision 6 and reads its receiver through the global variable |
| LibMsg.OStream.AppendText | libMessager/messager.cpp:20-24 | appends the text to the buffer and returns the same stream |
| LibMsg.OStream.AppendChar | libMessager/messager.cpp:44-48 | appends the character to the buffer and returns the same stream |
| LibMsg.OStream.Apply | libMessager/messager.cpp:50-53 | a manipulator acts as `flush` or `endl` on the stream |
| LibMsg.OStream.Flush | libMessager/messager.cpp:55-63 | with a receiver, delivers the whole buffer as one text message and empties it; without one, keeps the buffer |
| LibMsg.OStream.Endl | libMessager/messager.cpp:65-69 | appends a newline, then flushes |
| LibMsg.OStream.SetPrecision | libMessager/messager.cpp:71-75 | stores the clamped precision |
| LibMsg.FlushStream | libMessager/messager.cpp:77-80 | the free `flush` is the stream's flush |
| LibMsg.EndlStream | libMessager/messager.cpp:82-85 | the free `endl` is the stream's endl |
| LibMsg.ReportError | libMessager/messager.cpp:7-12 | the message goes to the receiver as an error when there is one, and the exception thrown carries it |
| LibMsg.LateReceiver | libMessager/messager.cpp:4-5 | text written to `cout` before a receiver exists is kept, and delivered on the first flush after one is assigned |

## Left out

- Concurrency: the thread pool, `asyncInvoke`, futures, `ReportProgrsAndWaitFtr`, `getFtr_CheckExcpt` and the relaxed atomic counter are modelled as bands run one after another; the bands write disjoint rows, so the final image does not depend on the order.
- Correction.CorrectImage: an aborted run is only said to fail; which pixels the other bands had written by then depends on scheduling and is not stated.
- Floating point: pixel values, coordinates and parameters are reals; rounding is not modelled.
- The numerical collaborators are parameters: `straight_edge_points` (the `edges` input), `gaussian_convol_on_curve` with down factor 60 (`resample`), `correctionLMA` (`lma`), `getParamsInv` (`invert`), `undistortPixel`, `prepare_spline` and `interpolate_spline` (the samplers). Their sources are not part of this model.
- The refinement loop of `incLMA` (`verification` repeated until the RMSE changes by at most 0.001) is a parameter `refine` applied to the seed; its termination depends on floating point.
- RMSE and maximum-error diagnostics, including the first call passing `xp` for `yp`, only feed log output and are not modelled.
- `image_RMSE`, `distortionCorrect` and `distortionCorrect_RGB` are not part of this model.
- `DistortedLines` is not part of this model: its line count `nLines` is taken to be the sum of the pushed group counts.
- Log output, timing, `printf` and memory release are not modelled; the number formatting `operator<<` for double, int and unsigned (messager.cpp:26-42) and the stream's use of the precision are not modelled, nor `ss.clear()`.
- The debug `assert` on image sizes inside `read_images` is not modelled; `polyEstime` has already rejected such lists.
- PolyFit.PolyEstime: requires a non-empty image list; the source leaves w and h uninitialised for an empty one.
- PolyFit.IncLma: requires order >= 3 and inc >= 1, which the source assumes.
- PolyFit.IncLma: when inc does not divide order−3 the source reads past the last fit (see Findings); the model refines from the corrected seed instead, and `PolyFit.PolyEstime` inherits this.
- PolyFit.MinLength: computed exactly as floor(3·min(w, h)/10), not with the double product min·0.3.
- 32-bit `int` overflow in `coefIdx` and in the size formulas is not modelled.
- LibMsg.OStream.SetPrecision: the source declares a stream result but returns none, which is undefined behaviour; the model returns nothing.
- `Messager` is an abstract interface in the source; the model's receiver records what it is given.
- LibMsg.ReportError: the C++ throw is modelled as returning the exception.
- Abort polls (`abortIfAsked`) are a parameter `asked` giving the answer of each poll; the exception they raise is modelled as an aborted result.

## Findings

| source | as written | input that shows it | evidently intended | confidence | as-written member | corrected member |
|---|---|---|---|---|---|---|
| distortion/distCorrection.cpp:503-505 | the refinement reads 2·Size(order) parameters from the last fit of the order loop, which was done at the last order 3 + k·inc not above `order` | order 4 with inc 2 (as `polyEstime` passes): only order 3 is fitted, `midParams` has 20 entries, and the refinement reads 30 | the refinement starts from the last fit warm-started into the layout of degree `order`, as the order loop does between orders | not executed | PolyFit.EvenOrderOverreads | PolyFit.RefineStartKeepsLastFit |
