# Dies per wafer: a Dafny model of the layout and scoring core

DiesPerWafer estimates how many rectangular dies fit inside the usable disc
of a round wafer. The usable disc has radius `ewr`, the wafer radius minus
the edge exclusion. The program tries up to four layout strategies:

- **Grid**: one common offset for every die.
- **ShiftRows** and **ShiftCols**: each row (or column) may be shifted by half
  a pitch.
- **ShiftRotate**: each row may be shifted and may hold rotated dies. Rotated
  rows are taller or shorter, so the rows stack one above the other.

A stochastic optimiser searches each strategy's parameter vector. The best
strategy wins, its solution is centred, and every die is classified as full,
partial or outside.

This project models the geometry and the bookkeeping under the optimiser:

- the lattice of candidate positions and how a parameter vector decodes to
  die corners and extents, including the symmetric mode that mirrors flags
  from the non-negative half;
- the squared corner distances, the full-die count and the partial-credit
  score;
- the first-occurrence choice of the winning strategy;
- what centring may change and the reported solution diameter;
- the final classification and the lists of corner points.

It covers both generations of the program. The corner model is in
`opt/dies_per_wafer_latest.py` and `DiesPerWafer_v1.2.py`. The older centre
model is in `DiesPerWafer_v1.0.py` and `opt/fit.py`. Arithmetic is over
Dafny `real`. Every validity test works on squared distances, so no square
root is needed. Where the source takes a square root, the caller supplies the
root `r` of `v` as a value with `r >= 0 && r * r == v` (`Scoring.IsRoot`).

Modules, one file each:

| module | file | contents |
|---|---|---|
| `Basics` | basics.dfy | option and result types, mask counting, reversal, row-major flattening |
| `Lattice` | lattice.dfy | wafer inputs, `ewr`, `Nx`/`Ny`/`Nmax`, strategies, the input check |
| `Decode` | decode.dfy | parameter bounds and decoding of a parameter vector, symmetric mirroring |
| `Positions` | positions.dfy | die corner and extent for every lattice cell (`CalculatePositions`) |
| `Symmetry` | symmetry.dfy | mirror symmetry of the decoded layouts |
| `ValidMirror` | validmirror.dfy | in symmetric mode, the dies that pass the search test form a mirror-symmetric set |
| `Scoring` | scoring.dfy | squared corner distances, full-die count, partial credit |
| `Selection` | selection.dfy | choosing the strategy |
| `Centering` | centering.dfy | centring, `Rmax`, solution diameter, display rounding |
| `Assembly` | assembly.dfy | final classification and the output die lists |
| `CentreModel` | centremodel.dfy | the older centre-based model and its agreement with the corner model |
| `Pipeline` | pipeline.dfy | one search step and the final report end to end, tied to the lattice cells |

Two gaps in the code shape the model:

- None of the four files checks its numeric inputs. A zero die side
  divides by zero when the code sizes the lattice
  (opt/dies_per_wafer_latest.py:58); a negative one is not rejected: it
  either gives a negative half-size, on which `np.ones` raises (:80), or
  a half-size of 0 and a run on negative extents. A negative usable
  radius makes the search accept dies that the final test rejects, and
  the symmetric diameter then exceeds the wafer's (see Findings); at a
  usable radius of exactly 0 the two tests agree and accept no die. The
  model restricts itself to the precondition `Lattice.Admissible`:
  positive die sides and non-negative lattice half-sizes. The code also
  runs on some inputs outside it (negative sides with a half-size of 0).
  `Lattice.Validate` is the corrected input check. It refuses
  non-positive die sides and a non-positive usable radius. It does not
  refuse zero spacings, which the code handles without trouble.
- With no strategy enabled, `DiesPerWafer_v1.2.py` returns early at
  :313-318. The latest file has no guard and fails later.
  `Selection.PickEnabled` returns `None` in that case.

## Model

| member | source | states |
|---|---|---|
| Basics.Count | opt/dies_per_wafer_latest.py:247-248 | the number of marked cells never exceeds the number of cells; it is zero exactly when no cell is marked, and equal to the number of cells exactly when every cell is marked |
| Basics.CountIsCardinality | opt/dies_per_wafer_latest.py:247-248 | the mask sum `valid.sum()` is the size of the set of cell indices that are marked valid |
| Basics.Reverse | opt/dies_per_wafer_latest.py:97 | `np.flip` keeps the length and puts the entry n-1-k of an n-entry sequence at position k |
| Basics.FlattenLength | opt/dies_per_wafer_latest.py:473 | walking a grid of rows that all have b entries visits rows*b cells |
| Basics.FlattenIndex | opt/dies_per_wafer_latest.py:473 | the row-major walk of `np.ndenumerate` visits cell (r, c) at position r*b + c |
| Basics.FlattenEntry | opt/dies_per_wafer_latest.py:473 | conversely, every position of the walk holds some cell (r, c) of the grid |
| Lattice.Ceil | opt/dies_per_wafer_latest.py:58 | `math.ceil` gives the least integer n with x <= n |
| Lattice.ReachCovers | opt/dies_per_wafer_latest.py:58-59 | n = ceil(ewr/size) die sizes reach the usable radius, and n-1 do not |
| Lattice.LatticeReach | opt/dies_per_wafer_latest.py:55-59 | `Nx = ceil(ewr/width)` widths reach the usable radius and Nx-1 do not; likewise `Ny` with the height |
| Lattice.Nmax | opt/dies_per_wafer_latest.py:60 | the ShiftRotate half-size is at least Nx and at least Ny and equals one of them |
| Lattice.StrategyOf | opt/dies_per_wafer_latest.py:370-377 | each fit index 0..3 names the strategy with that code |
| Lattice.CodeRoundTrip | opt/dies_per_wafer_latest.py:370-377 | every strategy's code is below 4 and maps back to that strategy |
| Lattice.Validate | opt/dies_per_wafer_latest.py:55-60 | a wafer is accepted exactly when both die sides and the usable radius are positive; an accepted wafer meets the code's running assumptions and has lattice half-sizes of at least 1; "no usable area" is reported only when the usable radius is not positive |
| Decode.CentreRulesAgree | DiesPerWafer_v1.2.py:240-245 | away from 0.5, the mirror test `offsets[0] < 0.5` ("centre unique") holds exactly when the half-pitch test `offsets[0] > 0.5` fails |
| Decode.CentreRulesClashAtHalf | DiesPerWafer_v1.2.py:240-245 | at `offsets[0] == 0.5` both tests fail: the centre row is copied but gets no half-pitch shift, while the corrected rule calls it unique |
| Decode.Mirror | opt/dies_per_wafer_latest.py:96-101 | the mirrored flag vector of N+1 flags has 2N+1 entries, with the given flags on the non-negative side; under "centre unique" flag(-k) = flag(k), and under "centre copied" flag(-k) = flag(k-1) |
| Decode.RotateSearchBoundAsWritten | opt/dies_per_wafer_latest.py:354 | the as-written ShiftRotate offset bound `(max(h, w) + xspacing)/2` reaches every half row pitch, upright or rotated, exactly when xspacing >= yspacing |
| Decode.RotateSearchBound | opt/dies_per_wafer_latest.py:424 | the corrected bound `(max(w, h) + yspacing)/2` is the largest half row pitch, upright or rotated, so it reaches every symmetric row offset |
| Decode.SearchBounds | DiesPerWafer_v1.2.py:323-372 | the optimiser's bound list has 2 entries for Grid; Ny+2 (symmetric) or 2Ny+2 entries for ShiftRows; Nx+2 or 2Nx+2 for ShiftCols; 2Nmax+3 or 4Nmax+3 for ShiftRotate; every symmetric bound is (0, 1), and so is every non-symmetric flag bound; without symmetry the Grid offsets range over (0, PitchX/2) and (0, PitchY/2), the ShiftRows offset over (0, PitchY/2), the ShiftCols offset over (0, PitchX/2) and the ShiftRotate offset over (0, corrected bound) |
| Decode.SearchBoundsAsWritten | opt/dies_per_wafer_latest.py:272-364 | the bound list as written has the same length and entries, except that the non-symmetric ShiftRotate offset ranges over (0, as-written bound) |
| Decode.SearchBoundsAgree | opt/dies_per_wafer_latest.py:354 | the two bound lists are equal exactly when the strategy is not ShiftRotate, the search is symmetric, or xspacing == yspacing |
| Decode.ShiftsWithRule | opt/dies_per_wafer_latest.py:94-127 | the ShiftRows/ShiftCols decoding yields 2N+1 row (column) shifts, each exactly 0 or half the pitch; without symmetry shift a comes from parameter 1+a and the offset is parameter 0; with symmetry the offset is 0 or half the other pitch, the non-negative side comes from the parameters, and the shifts are mirrored by the unique or copied rule |
| Decode.RotateWithRule | opt/dies_per_wafer_latest.py:136-190 | the ShiftRotate decoding yields 2N+1 shift flags and 2N+1 rotation flags, each set exactly when its parameter exceeds 0.5; without symmetry they come from parameters 1.. and 2N+2..; with symmetry the non-negative side comes from the parameters, both vectors are mirrored by the unique or copied rule, and the centre row offset is 0 or half of (centre row height + yspacing) |
| Decode.DecodeParams | opt/dies_per_wafer_latest.py:70-218 | any parameter vector of the bound list's length decodes to parameters of the requested strategy whose per-row and per-column vectors have the lattice's length 2N+1; without symmetry every offset is its parameter; with symmetry the Grid offsets are 0 or half a pitch, the ShiftRows (ShiftCols) offset is 0 or half the y (x) pitch, and the ShiftRotate offset is 0 or half the centre row's height plus yspacing |
| Decode.DecodedShiftsHalfPitch | opt/dies_per_wafer_latest.py:94-135 | every decoded row shift is 0 or half the x pitch, and every column shift 0 or half the y pitch |
| Decode.DecodePlain | opt/dies_per_wafer_latest.py:83-134 | without symmetry, the Grid offsets are the two parameters, and the ShiftRows (ShiftCols) offset is parameter 0 with each shift thresholded from its own parameter |
| Decode.DecodeParamsAsWritten | DiesPerWafer_v1.2.py:238-276 | the decoding that uses the `< 0.5` mirror test gives well-formed parameters of the requested strategy, and gives the same parameters as the corrected decoding whenever `offsets[0] != 0.5` |
| Positions.CellAt | opt/dies_per_wafer_latest.py:191-192 | every die's extent is (width, height), and for ShiftRotate it is either (width, height) or (height, width) |
| Positions.RSum | opt/dies_per_wafer_latest.py:196-199 | `Rsum[b]`, the signed count of rotated rows between the centre row and row b, lies between 0 and b-N above the centre and between b-N and 0 below it |
| Positions.NotRSum | opt/dies_per_wafer_latest.py:196-199 | `notRsum[b]`, the signed count of upright rows, obeys the same bounds |
| Positions.PitchedCell | opt/dies_per_wafer_latest.py:71-135 | in Grid, ShiftRows and ShiftCols each die is centred one pitch per index from the offsets of its row or column |
| Positions.Layout | opt/dies_per_wafer_latest.py:61-68 | the corner arrays are (2Nx+1) x (2Ny+1), or (2Nmax+1) x (2Nmax+1) for ShiftRotate |
| Positions.LayoutEntry | opt/dies_per_wafer_latest.py:61-68 | the die of lattice cell (i, j) is stored at array position (i+N, j+N) (`indexing="ij"`) |
| Positions.Cells | opt/dies_per_wafer_latest.py:473 | the walk over the layout lists exactly one die per lattice cell: (2Ni+1)(2Nj+1) dies |
| Positions.CellsEntry | opt/dies_per_wafer_latest.py:473 | every listed die is the die of some lattice cell |
| Positions.CellsIndex | opt/dies_per_wafer_latest.py:473 | the row-major walk over the arrays reaches the die of cell (i, j) at position (i+Ni)(2Nj+1) + (j+Nj) |
| Positions.AreaPreserved | opt/dies_per_wafer_latest.py:191-192 | rotating a die never changes its area: every die has area width*height |
| Positions.PitchSpacing | opt/dies_per_wafer_latest.py:71-135 | in the Grid, ShiftRows and ShiftCols layouts, horizontally adjacent dies are one x pitch (width+xspacing) apart and vertically adjacent dies one y pitch apart |
| Positions.RSumStep | opt/dies_per_wafer_latest.py:196-199 | the signed count of rotated rows below row b grows by one from row b to row b+1 exactly when row b is rotated |
| Positions.RowsStack | opt/dies_per_wafer_latest.py:196-210 | the bottom of row b+1 is the bottom of row b plus row b's height plus yspacing |
| Positions.CentreRowCentred | opt/dies_per_wafer_latest.py:200-210 | the centre row (index Nmax) is centred on the y offset `yoffset0` |
| Positions.RowPlacement | opt/dies_per_wafer_latest.py:193-195 | within a ShiftRotate row, neighbours are the row's die width plus xspacing apart; in an unshifted row die 0 is centred on x = 0, and in a shifted row die 0 has its corner at xspacing/2 |
| Positions.RowDieStep | opt/dies_per_wafer_latest.py:211-214 | consecutive dies of one row differ in x by the row's extent plus xspacing, and die 0 sits at the row's start |
| Positions.RotateRowsStack | opt/dies_per_wafer_latest.py:196-218 | in the ShiftRotate layout each row's dies sit one row height plus yspacing above the previous row's, and die column 0 of the centre row is centred on the decoded y offset |
| Symmetry.GridMirrorY | opt/dies_per_wafer_latest.py:72-82 | the symmetric Grid layout is mirror symmetric about the y axis: the die at the mirrored column is the reflection of the die |
| Symmetry.GridMirrorX | opt/dies_per_wafer_latest.py:72-82 | the symmetric Grid layout is mirror symmetric about the x axis |
| Symmetry.RowsMirrorY | opt/dies_per_wafer_latest.py:94-114 | with or without symmetry, every ShiftRows row is mirror symmetric about the y axis, within the lattice |
| Symmetry.RowsMirrorX | opt/dies_per_wafer_latest.py:95-103 | the symmetric ShiftRows layout is mirror symmetric about the x axis, reflecting row j to row -j (unique centre) or -j-1 (copied centre) |
| Symmetry.ColsMirrorX | opt/dies_per_wafer_latest.py:115-135 | with or without symmetry, every ShiftCols column is mirror symmetric about the x axis, within the lattice |
| Symmetry.ColsMirrorY | opt/dies_per_wafer_latest.py:116-124 | the symmetric ShiftCols layout is mirror symmetric about the y axis |
| Symmetry.RowStartMirror | opt/dies_per_wafer_latest.py:193-195 | the x positions of a ShiftRotate row are symmetric about x = 0: die i reflects to die -i (unshifted) or -i-1 (shifted) |
| Symmetry.RowDieMirrorY | opt/dies_per_wafer_latest.py:193-195 | reflecting a ShiftRotate die in the y axis gives the die at the mirrored index of the same row |
| Symmetry.RotateMirrorY | opt/dies_per_wafer_latest.py:191-218 | every ShiftRotate row, symmetric or not, is mirror symmetric about the y axis |
| Symmetry.ReflectFrom | opt/dies_per_wafer_latest.py:196-210 | when the rotation flags are symmetric about k/2 and rows b0 and k-b0 reflect onto each other about the x axis, so do rows b and k-b for every later b |
| Symmetry.CentrePairReflects | opt/dies_per_wafer_latest.py:176-186 | the half-row offset of the copied centre places the centre row pair (or the unique centre row) symmetrically about y = 0 |
| Symmetry.RotateRowsReflect | opt/dies_per_wafer_latest.py:196-210 | with mirrored rotation flags and the symmetric centre offset, the bottom of each row is the reflection about y = 0 of the top of its mirror row |
| Symmetry.ReflectedRowsReflectDies | opt/dies_per_wafer_latest.py:196-218 | two ShiftRotate rows with the same flags whose y extents reflect hold dies that reflect into each other about the x axis |
| Symmetry.DecodedRotationMirrored | opt/dies_per_wafer_latest.py:137-186 | the symmetric ShiftRotate decoding produces shift and rotation flags mirrored about the centre (unique or copied) and the matching centre offset |
| Symmetry.MirroredRowsReflectDies | opt/dies_per_wafer_latest.py:196-218 | a ShiftRotate layout with mirrored flags and the symmetric centre offset is mirror symmetric about the x axis |
| Symmetry.RotateMirrorX | opt/dies_per_wafer_latest.py:136-218 | the symmetric ShiftRotate layout decoded from any parameter vector is mirror symmetric about the x axis |
| Symmetry.HalfThresholdBreaksMirror | DiesPerWafer_v1.2.py:240-245 | with `offsets[0] == 0.5` the as-written ShiftRows decoding places a die that has no mirror image anywhere in the layout |
| ValidMirror.MirrorKeepsDistances | opt/dies_per_wafer_latest.py:220-231 | reflecting a die in the y axis swaps its left and right squared corner distances, reflecting it in the x axis swaps the lower and upper ones, so the search test gives a die and its reflection the same verdict |
| ValidMirror.MirrorInYDistances | opt/dies_per_wafer_latest.py:220-231 | the squared corner distances of a die reflected in the y axis are the die's own with left and right exchanged |
| ValidMirror.MirrorInXDistances | opt/dies_per_wafer_latest.py:220-231 | the squared corner distances of a die reflected in the x axis are the die's own with lower and upper exchanged |
| ValidMirror.TopBeyondInvalid | opt/dies_per_wafer_latest.py:245-248 | a die whose top edge lies beyond the radius fails the search test |
| ValidMirror.LastColumnInvalid | opt/dies_per_wafer_latest.py:57-82 | with the x offset at half a pitch and non-negative spacing, no die of column Nx passes the search test: `ceil(ewr / width)` widths already reach the radius |
| ValidMirror.TopRowInvalid | opt/dies_per_wafer_latest.py:57-82 | with the y offset at half a pitch and non-negative spacing, no die of row Ny passes the search test |
| ValidMirror.LastRowDieInvalid | opt/dies_per_wafer_latest.py:193-218 | in a shifted ShiftRotate row, upright or rotated, die Nmax fails the search test, since Nmax dies of either side reach the radius |
| ValidMirror.CopiedTopRowInvalid | opt/dies_per_wafer_latest.py:176-210 | with the centre row copied, the top ShiftRotate row starts at least n die sides above the centre line and fails the search test when n sides of either orientation reach the radius |
| ValidMirror.CopiedTopRowOfLatticeInvalid | opt/dies_per_wafer_latest.py:176-210 | with the centre row copied, no die of ShiftRotate row Nmax passes the search test |
| ValidMirror.GridValidMirror | opt/dies_per_wafer_latest.py:70-82 | in symmetric Grid, for non-negative spacings and usable radius, both mirror images of a die that passes the search test are dies of the lattice at the mirrored column (row) and pass the test too |
| ValidMirror.RowsValidMirror | opt/dies_per_wafer_latest.py:94-114 | in symmetric ShiftRows, the mirror image within the row and the mirror image in the mirrored row of a die that passes the search test are lattice dies that pass it |
| ValidMirror.ColsValidMirror | opt/dies_per_wafer_latest.py:115-135 | in symmetric ShiftCols, the mirror image within the column and the mirror image in the mirrored column of a die that passes the search test are lattice dies that pass it |
| ValidMirror.RotateRowValidMirror | opt/dies_per_wafer_latest.py:191-218 | in any ShiftRotate layout, the mirror image within its row of a die that passes the search test is a lattice die that passes it |
| ValidMirror.MirroredRowsValidMirror | opt/dies_per_wafer_latest.py:176-218 | in a ShiftRotate layout with mirrored flags and the symmetric centre offset, the mirror image in the mirrored row of a die that passes the search test is a lattice die that passes it |
| ValidMirror.RotateValidMirror | opt/dies_per_wafer_latest.py:136-218 | in symmetric ShiftRotate, both mirror images of a die that passes the search test are lattice dies that pass it |
| ValidMirror.ValidDiesHaveValidMirrors | opt/dies_per_wafer_latest.py:70-248 | in symmetric mode, for every strategy, every lattice die that passes the search test has a mirror image in each axis that is again a lattice die passing the test |
| Scoring.WithinRadiusIsRootTest | DiesPerWafer_v1.2.py:439 | given the root of a squared distance, the final test `V**0.5 <= ewr` holds exactly when the root is at most ewr |
| Scoring.CornersSuffice | opt/dies_per_wafer_latest.py:247 | a die whose four corners pass the search test lies entirely inside the usable disc |
| Scoring.SearchValidIffInside | opt/dies_per_wafer_latest.py:247 | the search test on the four corners holds exactly when every point of the die is within the usable radius |
| Scoring.SearchIgnoresSign | DiesPerWafer_v1.2.py:308-311 | the search test compares with `ewr**2`, so it gives the same answer for ewr and -ewr |
| Scoring.SearchAgreesWithFinal | DiesPerWafer_v1.2.py:439-440 | for a non-negative usable radius, the search test (squared distance <= ewr²) and the final test (distance <= ewr) accept the same dies |
| Scoring.NegativeRadiusAcceptsDie | DiesPerWafer_v1.2.py:308-311 | with a 10 mm wafer and 6.1 mm edge exclusion (ewr = -1.1) the search test counts a die that the final test rejects |
| Scoring.CheckedSearchIsFinal | DiesPerWafer_v1.2.py:308-311 | the search test guarded by ewr >= 0 accepts exactly the dies the final test accepts, for every radius |
| Scoring.ValidatedWaferTestsAgree | opt/dies_per_wafer_latest.py:245-248 | on a wafer that passes the input check, the search and final tests agree on every die |
| Scoring.CountFullDies | opt/dies_per_wafer_latest.py:245-248 | `countfulldies` is minus the number of cells whose four corners pass the search test; it is 0 exactly when no cell passes |
| Scoring.SumExcess | opt/dies_per_wafer_latest.py:238 | the summed corner overshoot is never negative, and is zero exactly when every corner is within ewr |
| Scoring.Credit | opt/dies_per_wafer_latest.py:236-241 | a cell's partial credit is at most 1, and equals 1 exactly when every corner is within ewr |
| Scoring.InvalidCreditBelowOne | opt/dies_per_wafer_latest.py:236-242 | every cell that fails the search test has credit strictly below 1 |
| Scoring.BestInvalidCredit | opt/dies_per_wafer_latest.py:242 | `max(PS[~valid])` is absent exactly when every cell is valid; otherwise it is the credit of some invalid cell and at least the credit of every invalid cell |
| Scoring.BestInvalidCreditBelowOne | opt/dies_per_wafer_latest.py:242 | the best credit over invalid cells is below 1 |
| Scoring.PartialScore | opt/dies_per_wafer_latest.py:233-243 | `gridwithpartialscore` has a value exactly when some cell is invalid (the source fails on the empty max otherwise) |
| Scoring.PartialScoreFloor | opt/dies_per_wafer_latest.py:233-243 | floor(-score) never exceeds the valid count, and equals it whenever the best credit is non-negative |
| Scoring.GridBeyondLatticeInvalid | opt/dies_per_wafer_latest.py:58-63 | a Grid die in a column beyond -Nx..Nx can never be valid, so the lattice loses no die by stopping at Nx |
| Selection.ArgmaxFirst | opt/dies_per_wafer_latest.py:366-368 | `argmax` returns an index of a maximal count, and every earlier index has a strictly smaller count |
| Selection.ArgmaxFirstUnique | opt/dies_per_wafer_latest.py:366-368 | the first maximal index is the only index with those two properties |
| Selection.PickAsWritten | opt/dies_per_wafer_latest.py:366-377 | with disabled strategies holding count 0, the argmax yields a fit exactly when it lands on an enabled strategy |
| Selection.DisabledStrategyPicked | opt/dies_per_wafer_latest.py:366-377 | with only ShiftRows enabled and every count 0, the argmax lands on the disabled Grid, whose fit was never computed |
| Selection.PickEnabled | DiesPerWafer_v1.2.py:313-390 | no strategy is chosen exactly when none is enabled; otherwise the chosen strategy is enabled, has the largest count among enabled ones, and no earlier enabled strategy ties it |
| Selection.PickAsWrittenAgrees | opt/dies_per_wafer_latest.py:366-377 | whenever the as-written argmax yields a fit, it is the corrected choice |
| Selection.PickAsWrittenSucceeds | opt/dies_per_wafer_latest.py:366-377 | if some enabled strategy counts at least one die, the as-written argmax yields a fit |
| Selection.Select3 | DiesPerWafer_v1.0.py:248-259 | the if-chain over N0, N1, N2 always picks an index whose count equals the maximum |
| Selection.Select3IsArgmax | opt/fit.py:195-206 | the if-chain picks the first index whose count equals the maximum, as the later `argmax` does |
| Selection.ChosenType | DiesPerWafer_v1.0.py:215-259 | a fit type is chosen exactly for codes 0..3; codes 0..2 keep the requested type, and code 3 picks a type of maximal count |
| Selection.ChosenTypeAsWritten | opt/fit.py:144-210 | `fittype` is bound only when the request is 3, and then it is the corrected choice |
| Selection.SingleTypeUnbound | opt/fit.py:144-210 | a request for the Grid alone leaves `fittype` unbound, where the corrected choice is the Grid |
| Centering.CentringBounds | opt/dies_per_wafer_latest.py:394-428 | centring re-optimises two offsets for Grid and one for every other strategy |
| Centering.CentringSearchesSearchRange | opt/dies_per_wafer_latest.py:394-428 | each re-optimised offset is searched over the same range the corrected search gave it |
| Centering.RotateBoundsAsWrittenDisagree | opt/dies_per_wafer_latest.py:354 | the as-written ShiftRotate search bound equals the centring bound for the same offset exactly when xspacing == yspacing |
| Centering.RotateBoundAsWrittenTooShort | opt/dies_per_wafer_latest.py:354 | with 1 x 1 dies, xspacing 0 and yspacing 1, the search stops at 0.5 while centring goes to 1 |
| Centering.CentredOffsets | opt/dies_per_wafer_latest.py:404-428 | centring replaces offset 0 (offsets 0 and 1 for Grid) and keeps every other parameter |
| Centering.RowBottomMoves | opt/dies_per_wafer_latest.py:200-210 | changing the ShiftRotate centre offset moves every row bottom by the same amount |
| Centering.CentredRowShifts | DiesPerWafer_v1.2.py:413-416 | after centring ShiftRows, the row shifts are unchanged and the y offset is the minimiser's value |
| Centering.CentredColShifts | DiesPerWafer_v1.2.py:417-420 | after centring ShiftCols, the column shifts are unchanged and the x offset is the minimiser's value |
| Centering.CentredRotateFlags | DiesPerWafer_v1.2.py:421-424 | after centring ShiftRotate, the shift and rotation flags are unchanged and the centre offset is the minimiser's value |
| Centering.CentringTranslates | opt/dies_per_wafer_latest.py:391-430 | centring moves every die by one common translation and changes no size |
| Centering.MaxOf | opt/dies_per_wafer_latest.py:256 | `max` returns an entry that is at least every entry |
| Centering.MaskedMax | opt/dies_per_wafer_latest.py:250-256 | `V[validmask].max()` is absent exactly when the mask is empty; otherwise it is a masked corner value that bounds every masked corner value |
| Centering.MinDiameter | opt/dies_per_wafer_latest.py:431 | `2 * (sqrt(Rmax) + edge exclusion)` is the diameter of every wafer, with that edge exclusion, whose usable radius is the root |
| Centering.MinDiameterOfRadius | opt/dies_per_wafer_latest.py:55 | the diameter recovered from a wafer's own usable radius is the wafer's diameter, so it inverts `ewr = diameter/2 - edge exclusion` |
| Centering.MinDiameterHoldsDies | opt/dies_per_wafer_latest.py:431 | every corner of every counted die lies within the usable radius of a wafer of the reported diameter |
| Centering.MinDiameterWithinWafer | opt/dies_per_wafer_latest.py:389 | the reported diameter is at most the wafer diameter exactly when the farthest counted corner is within ewr |
| Centering.SymmetricDiameterFits | DiesPerWafer_v1.2.py:393-397 | in symmetric mode and for a non-negative usable radius, the diameter computed over the valid dies never exceeds the wafer diameter |
| Centering.NegativeRadiusDiameterTooLarge | DiesPerWafer_v1.2.py:393-397 | with a 10 mm wafer, 6.1 mm edge exclusion and 1.2 x 1.6 dies (ewr = -1.1), the one cell passes the search test, `Rmax` is 1.0 and the symmetric diameter is 14.2, larger than the wafer |
| Centering.DisplayDiameter | DiesPerWafer_v1.2.py:433-434 | the displayed `ceil(10 d)/10` is at least d and below d + 0.1 |
| Assembly.Classify | opt/dies_per_wafer_latest.py:446-449 | a die is full exactly when all four corners are within ewr, partial exactly when some but not all are, and outside otherwise, so full and partial never overlap; a full die also passes the "some corner within ewr" test |
| Assembly.PartialStraddles | DiesPerWafer_v1.0.py:302-303 | a partial die has a corner within ewr and a corner beyond it |
| Assembly.Outline | opt/dies_per_wafer_latest.py:474-482 | the emitted corner list is (x, y), (x+w, y), (x+w, y+h), (x, y+h), in that order, and walks round the die: each point shares an edge with the next, and the last with the first |
| Assembly.OutlineListsCorners | opt/dies_per_wafer_latest.py:474-482 | the emitted corner list holds the same four corners as the checked ones, each once |
| Assembly.CornerOrderIsNotAWalk | opt/dies_per_wafer_latest.py:226-229 | the order in which corners are checked is not a walk around the die, so the output order differs from it |
| Assembly.KeptIndices | opt/dies_per_wafer_latest.py:473-486 | the kept cell indices are exactly the marked ones, in increasing order, one per marked cell |
| Assembly.Select | opt/dies_per_wafer_latest.py:483-486 | the emitted list has one corner list per marked cell, in walk order |
| Assembly.MakeReport | opt/dies_per_wafer_latest.py:457-492 | `num_dies` is the number of full cells and the length of `valid_dies`; `valid_dies` and `partial_dies` list the full and the partial cells; the diameter and fit type are passed through |
| Assembly.ReportedDiesClassified | opt/dies_per_wafer_latest.py:483-486 | every emitted die list entry comes from a cell of that class |
| Assembly.ClassifiedDiesReported | opt/dies_per_wafer_latest.py:483-486 | every cell of a class appears in that class's list |
| Assembly.ReportedFullDieInside | opt/dies_per_wafer_latest.py:485-488 | every corner point of every reported valid die is within ewr of the centre |
| CentreModel.TrueOffsets | DiesPerWafer_v1.0.py:196-202 | `trueoffsets` keeps the length and entry 0, is the identity for Grid, and maps every other entry to 0 or half the pitch along the shifted axis |
| CentreModel.CentreDie | DiesPerWafer_v1.0.py:182-187 | every die of the centre model has extent (width, height) |
| CentreModel.CentreStepI | DiesPerWafer_v1.0.py:171-180 | `calcXYcen` places neighbouring centres along i one x pitch apart, at the same height unless columns are shifted |
| CentreModel.CentreStepJ | DiesPerWafer_v1.0.py:171-180 | `calcXYcen` places neighbouring centres along j one y pitch apart, at the same x unless rows are shifted |
| CentreModel.CentreIsPitched | DiesPerWafer_v1.0.py:182-187 | the die around a centre at (ox + i pitch, oy + j pitch) is the corner model's die with offsets (ox, oy) |
| CentreModel.GridCentreIsCorner | DiesPerWafer_v1.0.py:171-174 | for Grid, the die around each centre is the die the corner model places |
| CentreModel.RowsCentreIsCorner | DiesPerWafer_v1.0.py:175-177 | for ShiftRows, the die around each centre is the die the corner model places |
| CentreModel.ColsCentreIsCorner | DiesPerWafer_v1.0.py:178-180 | for ShiftCols, the die around each centre is the die the corner model places |
| CentreModel.CentreModelIsCornerModel | DiesPerWafer_v1.0.py:171-187 | for the same raw parameters, the die around each centre is exactly the die the corner model places |
| CentreModel.CentreDistancesReorder | opt/fit.py:89-101 | `constructV` gives the corner model's four squared distances with the middle two swapped |
| CentreModel.CentreTestsAreFinalTests | DiesPerWafer_v1.0.py:300-303 | testing unsquared distances against ewr classifies each die as the corner model's final tests do |
| CentreModel.TestsIgnoreCornerOrder | opt/fit.py:255-262 | the full and touching tests do not depend on the order of the corners |
| CentreModel.CentreRmaxIsRoot | DiesPerWafer_v1.0.py:267-273 | the unsquared `Rmax` of the centre model is the square root of the corner model's squared `Rmax` over the same mask |
| Pipeline.LayoutDies | opt/dies_per_wafer_latest.py:245-247 | the layout a search vector decodes to lists one die per lattice cell |
| Pipeline.FullDieCount | opt/dies_per_wafer_latest.py:245-248 | the search objective for a search vector is minus a count that never exceeds the number of lattice cells |
| Pipeline.FullDieCountZero | opt/dies_per_wafer_latest.py:245-248 | the objective is 0 exactly when no lattice cell of the decoded layout holds a die that passes the search test |
| Pipeline.PartialScoreOnLayout | opt/dies_per_wafer_latest.py:233-243 | on a decoded layout, floor(-partial score) never exceeds the full-die count, which never exceeds the number of lattice cells |
| Pipeline.FinalReport | opt/dies_per_wafer_latest.py:457-492 | the report of a decoded layout carries the fit type and diameter, never lists more full dies than the lattice has cells, and, for a non-negative usable radius, lists exactly as many as the search objective counts |
| Pipeline.FullCellsAreValidCells | opt/dies_per_wafer_latest.py:446-449 | for a non-negative usable radius, the dies classified full are exactly the dies the search counts |
| Pipeline.ReportedDiesAreLatticeDies | opt/dies_per_wafer_latest.py:483-486 | every full die in the report is the outline of a lattice cell whose die lies within the usable radius |

## Left out

- The optimisers (`dual_annealing`, `minimize`, `minimize_scalar`) are stochastic searches. The model takes the vector they return as a parameter of the right length.
- The search-depth budgets (`maxiter`, `no_local_search`) only affect optimiser effort.
- UI and plumbing are left out: tkinter, matplotlib plotting, `print`, timing and `json.dumps`. The report is a datatype, not a JSON string.
- opt/dies_per_wafer_local_ui.py and main.py are not part of this model: one is a UI around the calculator, the other a stub entry point.
- Area utilisation divides by π and is display-only, so it is left out.
- Square roots are not computed. Wherever the source takes one, the root is supplied with `Scoring.IsRoot`.
- IEEE floating point is not modelled; all arithmetic is exact real arithmetic.
- The input fallbacks of DiesPerWafer_v1.2.py:191-200 (height defaults to width and y spacing to x spacing when the field does not parse) are UI parsing and are left out.
- Crashes on an empty `max` (opt/dies_per_wafer_latest.py:242 and :256) are modelled as `None` results of `Scoring.PartialScore` and `Centering.MaskedMax`.
- The in-place aliasing of `offsets_test`, `fit.x` and `centered_offsets` is modelled as a functional update at index 0.
- Scoring.Credit: the contract bounds the credit (at most 1, exactly 1 when the die is inside) but does not restate the formula 1 - overshoot/(4·diagonal).
- Decode.SearchBounds: it uses the corrected ShiftRotate offset bound with yspacing, not the xspacing of opt/dies_per_wafer_latest.py:354 and DiesPerWafer_v1.2.py:371; the as-written list is `Decode.SearchBoundsAsWritten` (see Findings).
- Decode.DecodeParams: its own contract states the offsets and the centre values; the ShiftRows, ShiftCols and ShiftRotate flag vectors are stated by `Decode.ShiftsWithRule` and `Decode.RotateWithRule`, which it calls, and the Grid decoding by its own contract. It also decides whether the centre row is copied with the corrected rule `Flag(x[0])` (`offsets[0] > 0.5`), not the source's `offsets[:1] < 0.5` test at opt/dies_per_wafer_latest.py:96, :117 and :138; `Decode.DecodeParamsAsWritten` follows the code, and the two differ only at `offsets[0] == 0.5` (see Findings).
- Positions.CellAt: its own contract states only the extents. The positions are stated by `Positions.PitchSpacing`, `Positions.RowPlacement`, `Positions.RotateRowsStack` and the symmetry lemmas.
- Centering.CentringBounds: its own contract states only how many offsets are re-optimised. The ranges are stated by `Centering.CentringSearchesSearchRange`.
- Negative die sides for which the code still runs (a half-size of 0, opt/dies_per_wafer_latest.py:58-59) are outside `Lattice.Admissible` and are not modelled; they are meaningless dies.
- Lattice.Validate: it does not refuse zero or negative spacings. No file rejects them, and a zero spacing runs without trouble.
- ValidMirror.ValidDiesHaveValidMirrors: it is stated for non-negative spacings and usable radius (`ValidMirror.Mirrorable`). The lattice sizing ignores spacing, so with a negative spacing the outermost half-pitch column or row is not shown to lie beyond the radius, and nothing is promised there.

## Findings

| source | as written | input that shows it | evidently intended | confidence | as-written member | corrected member |
|---|---|---|---|---|---|---|
| opt/dies_per_wafer_latest.py:366-377 | `Nfits.argmax()` over counts where disabled strategies hold 0; with no guard, the first index wins even when that strategy is disabled | only ShiftRows enabled and it finds 0 dies: argmax is 0 and `fit0` was never assigned | choose the best enabled strategy, and report "none" only when nothing is enabled | medium, not executed | Selection.PickAsWritten, Selection.DisabledStrategyPicked | Selection.PickEnabled, Selection.PickAsWrittenAgrees |
| opt/fit.py:144-210 | `fittype` is assigned only in the `fit_type == 3` branch, but line 210 reads it for every request | `fit_type = 0` (Grid alone) | `fittype = fit_type` for single-type requests, as DiesPerWafer_v1.0.py:155 does | high, not executed | Selection.ChosenTypeAsWritten, Selection.SingleTypeUnbound | Selection.ChosenType |
| DiesPerWafer_v1.2.py:240-245 | the mirror rule tests `offsets[0] < 0.5` while the half-pitch shift tests `offsets[0] > 0.5` | `offsets = [0.5, 0.0, 1.0]` for symmetric ShiftRows: the centre row is copied but not shifted, so the layout is not mirror symmetric | one test decides both, so the centre row is unique exactly when it is not shifted | medium, not executed | Decode.DecodeParamsAsWritten, Symmetry.HalfThresholdBreaksMirror | Decode.DecodeParams, Symmetry.RowsMirrorX |
| opt/dies_per_wafer_latest.py:354 | the ShiftRotate search bound for the y offset uses `xspacing` | 1 x 1 dies, xspacing 0, yspacing 1: the search stops at 0.5, while centring searches up to 1.0, half the 2.0 row pitch | `(max(height, width) + yspacing) / 2`, the range centring uses at :424 | medium, not executed | Decode.RotateSearchBoundAsWritten, Decode.SearchBoundsAsWritten, Decode.SearchBoundsAgree, Centering.RotateBoundAsWrittenTooShort | Decode.RotateSearchBound, Decode.SearchBounds, Centering.CentringSearchesSearchRange |
| DiesPerWafer_v1.2.py:308-311 | the search counts a die when every squared corner distance is at most `ewr**2`, which a negative ewr also satisfies | 10 mm wafer, 6.1 mm edge exclusion, 1.2 x 1.6 dies: ewr = -1.1 and the search counts a die that the final test at :439 rejects; in symmetric mode the reported diameter is then 2(1.0 + 6.1) = 14.2, larger than the 10 mm wafer (:393-397) | refuse a non-positive usable radius before searching | medium, not executed | Scoring.SearchValid, Scoring.NegativeRadiusAcceptsDie, Centering.NegativeRadiusDiameterTooLarge | Lattice.Validate, Scoring.ValidatedWaferTestsAgree, Centering.SymmetricDiameterFits |
