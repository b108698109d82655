# Ghost-cell immersed boundary: node classification, stencil search and LU factorisation

This project models the ghost-cell immersed boundary core of the ArtraCFD
solver (`gcibm.c`) and proves properties about it in Dafny.

**The node classifier.** Every node of the structured grid carries one
integer tag in a flat array. The tag's index is `(k * jMax + j) * iMax + i`.
- Four in-place sweeps set the tags:
  1. every node is tagged boundary (1), then the interior box fluid (0);
  2. each body, in order, tags the nodes of its clipped search box that its inside test accepts with `-offset - g`;
  3. an interior solid node with a fluid face neighbour is negated into a ghost (`offset + g`);
  4. an interior solid node with a face neighbour outside the solid range is moved to `-offset - g - totalN`.
- The offset is 10.
- Each sweep is a method of the class `Space`. It is proved to leave exactly what a function of the array it started from gives. That function reads every neighbour in the starting array, so the in-place sweep gives the same tags as reading a snapshot.
- Lemmas then say what the whole classification does to every node: its category, its body id and its neighbourhood.

**The stencil search of the linear reconstruction.** A fixed 27-step path
walks the neighbourhood of the image node. The first four fluid nodes it
meets fill the rows `[1, i, j, k]` of the position matrix.

**The LU factorisation.** It is Crout's method with implicit row scaling and
partial pivoting, on an `array2<real>`.
- Each column step is specified as a function on a value: the rows, the scales, the permutation record and the parity.
- The method is proved to leave the matrix, the permutation and the parity exactly as n such steps do.
- For each step, the rows below the pivot before elimination are recovered from the stored multipliers, the stored pivot and the pivot row. A zero pivot that was patched to epsilon and the scale overwritten by the swap (gcibm.c:384) cannot be recovered.

The modules follow the program's structure:
- `Grid`: index arithmetic, boxes, Min/Max, and the sweep bookkeeping.
- `Tags`: the tag encoding, ghost-id extraction, and the neighbour product test.
- `Classifier`: the four passes.
- `Pipeline`: whole-classification lemmas.
- `Stencil`: the stencil search.
- `LU`: the factorisation.

## Model

| member | source | states |
|---|---|---|
| Grid.Min | gcibm.c:399-405 | the result is at most both arguments and is one of them |
| Grid.Max | gcibm.c:406-412 | the result is at least both arguments and is one of them |
| Grid.Grid.IndexOf | gcibm.c:81 | the linear index of a node of the grid addresses the flat array (below kMax*jMax*iMax) |
| Grid.Grid.NodeAtIndexOf | gcibm.c:81 | decoding the linear index of a node gives the node back |
| Grid.Grid.IndexOfInjective | gcibm.c:124 | two nodes of the grid share a linear index exactly when they are the same node |
| Grid.SweepVisit | gcibm.c:78-85 | visiting one node of a k/j/i sweep writes that node's slot and no other |
| Grid.SweepDone | gcibm.c:78-85 | a finished sweep of a box leaves the target array when the target agrees with the start outside the box |
| Tags.ClassifyEncode | gcibm.c:27-33 | reading back the tag of any well-formed category gives that category again |
| Tags.EncodeClassify | gcibm.c:27-33 | every tag that reads as a category is exactly that category's encoding, with a body id in range |
| Tags.NegatedSolidIsGhost | gcibm.c:167 | negating the solid tag of body g gives a tag that reads as a ghost of body g |
| Tags.ShiftedSolidIsSolidWithGhost | gcibm.c:203 | subtracting totalN from the solid tag of body g gives a tag that reads as solid-with-ghost of body g |
| Tags.GhostBodyId | gcibm.c:226-229 | for a tag not below offset, the extracted id is non-negative, the tag reads as a ghost of that id, and negating that body's solid tag gives the tag back |
| Tags.ProductZeroIffSomeZero | gcibm.c:163-166 | over mathematical integers, the six-fold neighbour product is zero exactly when some neighbour is fluid (0) |
| Tags.ProductFitsInt32 | gcibm.c:163-165 | for six tags in [-19, 19] the product lies in the 32-bit int range |
| Tags.Int32ProductAgrees | gcibm.c:163-165 | for six tags in [-19, 19] the left-to-right 32-bit product equals the mathematical product |
| Tags.WrappedProductOfSolidTags | gcibm.c:163-166 | six neighbours with body 54's solid tag -64 are none of them fluid, yet their 32-bit product is 0 |
| Classifier.SearchBoxIsClippedWindow | gcibm.c:115-120 | a node is in a body's clipped search box exactly when it is in the interior box and within the half-widths of the centre on every axis |
| Classifier.LastClaim | gcibm.c:106-131 | the result is -1 or a body among the first m that claims the node, and no later body among them claims it |
| Classifier.GhostAt | gcibm.c:154-168 | the ghost pass keeps a tag or negates a solid one, and a tag is zero after it exactly when it was before |
| Classifier.ShiftAt | gcibm.c:188-203 | the shift pass keeps a tag or moves a solid one down by totalN, and a tag is in the solid range after it exactly when it was before |
| Classifier.GhostVisit | gcibm.c:150-168 | the decision taken at a node on the partly swept array equals the one taken on the array the pass started from |
| Classifier.ShiftVisit | gcibm.c:184-203 | the decision taken at a node on the partly swept array equals the one taken on the array the pass started from |
| Classifier.LocateVisit | gcibm.c:121-131 | inside body g's search box, the tag after g is g's solid tag when the inside test accepts the node, and the earlier tag otherwise |
| Classifier.LocateOutside | gcibm.c:115-131 | body g changes no tag outside its clipped search box |
| Classifier.Space.InitializeDomainGeometry | gcibm.c:60-87 | sets the offset to 10 and leaves every node of the interior box fluid and every other node boundary |
| Classifier.Space.LocateSolidGeometry | gcibm.c:95-137 | leaves the tags of the location specification applied to the array it started from, over all bodies in order |
| Classifier.Space.LocateBody | gcibm.c:106-134 | one iteration of the body loop takes the array from the tags after g bodies to the tags after g + 1 |
| Classifier.Space.LocateNode | gcibm.c:123-131 | visiting one node of body g's box advances the sweep by exactly that node |
| Classifier.Space.IdentifyGhostNodes | gcibm.c:138-173 | the in-place sweep leaves the ghost specification of the array it started from |
| Classifier.Space.NeighbourFlags | gcibm.c:157-162 | the six index formulas read the W, E, S, N, F, B neighbours' tags |
| Classifier.Space.GhostNode | gcibm.c:153-168 | visiting one interior node advances the ghost sweep by exactly that node |
| Classifier.Space.IdentifySolidNodeWithGhostNeighbours | gcibm.c:174-208 | the in-place sweep leaves the shift specification of the array it started from |
| Classifier.Space.ShiftNode | gcibm.c:187-203 | visiting one interior node advances the shift sweep by exactly that node |
| Classifier.Space.ComputeDomainGeometryGCIBM | gcibm.c:52-59 | the four passes leave offset 10 and the classified tags of the grid, interior box, bodies and inside test |
| Pipeline.InitRegions | gcibm.c:71-85 | after initialisation a node is fluid exactly when it is in the interior box, and boundary otherwise |
| Pipeline.LocateKeepsUnclaimed | gcibm.c:121-131 | a node outside the interior box, or claimed by no body, keeps its tag through location |
| Pipeline.LocateLastWriterWins | gcibm.c:106-131 | a node claimed by body g and by no later body ends with g's solid tag |
| Pipeline.LocateWritesSolidTags | gcibm.c:115-131 | a tag that location changes is the solid tag of a body whose search box holds the node and whose inside test accepts it |
| Pipeline.GhostPassNode | gcibm.c:154-168 | only an interior solid node changes, by negation, keeping its body id; an interior solid node changes exactly when some face neighbour is fluid |
| Pipeline.ShiftPassNode | gcibm.c:188-203 | tags above -offset and halo nodes never change; a change is a shift by totalN into the solid-with-ghost range; with at least one body, an interior solid node stays exactly when all six neighbours are solid |
| Pipeline.LocatedNode | gcibm.c:54-55 | after initialisation and location, a node holds the solid tag of the last body claiming it, and otherwise fluid or boundary by region |
| Pipeline.LocatedTagRange | gcibm.c:106-131 | every located tag is boundary, fluid, or a solid tag of one of the bodies |
| Pipeline.SolidNodeLands | gcibm.c:163-203 | a solid tag of body o, possibly negated and then possibly shifted, reads as solid, ghost or solid-with-ghost of body o |
| Pipeline.ClassifiedNode | gcibm.c:27-59 | after the four passes a halo node is boundary, an unclaimed interior node is fluid, and a node last claimed by body o is solid, ghost or solid-with-ghost of o; every final tag encodes its category |
| Pipeline.FluidTagsKept | gcibm.c:138-208 | the ghost and shift passes neither create nor remove a fluid tag |
| Pipeline.NeighbourTags | gcibm.c:138-208 | how the ghost and shift passes move one tag: zero stays zero, a non-solid ghosted tag is final, a solid one stays solid-range |
| Pipeline.FacesStep | gcibm.c:197-201 | on six faces, the fluid test is the same on all three arrays, all-solid is kept, and a ghosted neighbourhood that is neither all solid nor fluid has a ghost or boundary neighbour at the end |
| Pipeline.NeighbourFaces | gcibm.c:157-162 | the same statements for the face neighbours of an interior node, read from the three arrays |
| Pipeline.ClassifiedAdjacency | gcibm.c:27-40 | in the final tags a ghost node has a fluid neighbour, a solid node only solid-range neighbours, and a solid-with-ghost node no fluid neighbour and some ghost or boundary neighbour |
| Pipeline.GhostSweepProductFits | gcibm.c:163-165 | with at most 10 bodies every product the in-place ghost sweep forms fits a 32-bit int and equals the mathematical product |
| Stencil.PathStepEntry | gcibm.c:283-290 | every path step is a unit offset, the first eight are upward (0 or +1), and the code table finds the step again |
| Stencil.CodeStepEntry | gcibm.c:283-290 | every one of the 27 offset codes is met at some step of the path |
| Stencil.SearchPathCoversNeighbourhood | gcibm.c:276-290 | the path starts at the image node, its first eight steps are upward, and it visits every node of the 3 x 3 x 3 neighbourhood exactly once |
| Stencil.TakenExactly | gcibm.c:293-300 | the steps taken are exactly the flagged ones, in strictly increasing order |
| Stencil.TakenPrefix | gcibm.c:293 | searching further only appends: the steps taken earlier stay a prefix |
| Stencil.FluidProbesExactly | gcibm.c:293-300 | the stencil steps among the first m are exactly the fluid steps before m, in path order, each once |
| Stencil.StencilRowsDistinct | gcibm.c:283-313 | two stencil nodes found by the search have different rows, so no node is taken twice |
| Stencil.SearchEnds | gcibm.c:293 | a search that stops after four found steps, or at the end of the path, has found the first min(4, all) fluid steps |
| Stencil.ProbeRead | gcibm.c:294-298 | a step the search reaches reads inside the array, and its flag says whether that tag is fluid |
| Stencil.PositionMatrixAppend | gcibm.c:310-326 | taking one more stencil step fills the next zero row with that step's row |
| Stencil.ProbeStep | gcibm.c:294-326 | one iteration of the search advances the tally and position matrix from the steps taken before loop to those taken before loop + 1 |
| Stencil.SearchStencil | gcibm.c:291-327 | tally is min(4, number of fluid steps on the whole path), and the position matrix holds the rows of the first tally fluid steps in path order, then zero rows (FluidSteps, StencilRow and PositionMatrix define these) |
| LU.Div | gcibm.c:391 | the quotient times the divisor gives the dividend |
| LU.RowMax | gcibm.c:352-358 | the row maximum bounds every absolute entry, is one of them or 0, and is 0 exactly when the row is all zeros |
| LU.Scales | gcibm.c:362 | every scale is positive |
| LU.FirstArgMax | gcibm.c:368-376 | the index of a key no smaller than any other, and strictly larger than all keys before it |
| LU.PivotRow | gcibm.c:367-376 | the pivot row is in [loop, n), its key is maximal among rows loop..n-1, and strictly larger than every earlier row's key |
| LU.Swapped | gcibm.c:377-382 | rows a and b are exchanged and every other row is kept |
| LU.SwappedTwice | gcibm.c:378-382 | exchanging the same rows twice gives the matrix back |
| LU.FixPivot | gcibm.c:387-389 | the pivot becomes non-zero, a non-zero pivot leaves the matrix alone, and no other entry changes |
| LU.Eliminated | gcibm.c:390-395 | rows up to the pivot row and columns left of the pivot are untouched |
| LU.EliminatedInverts | gcibm.c:390-395 | below the pivot, multiplier times pivot gives back the old entry of column loop, and new entry plus multiplier times pivot-row entry gives back the old entry |
| LU.Pivoted | gcibm.c:368-389 | the pivot row moves to row loop (a zero pivot replaced by epsilon), row loop moves to the pivot row, and the rows above are kept |
| LU.Step | gcibm.c:367-396 | one column keeps the rows and permutation record above it, records a pivot row in [loop, n), and leaves a non-zero pivot |
| LU.StepSettles | gcibm.c:386-389 | a column step keeps the settled columns settled and settles its own |
| LU.StepsSettled | gcibm.c:367-396 | after k columns, every permute[q] with q < k lies in [q, n) and every diagonal entry q < k is non-zero |
| LU.StepSwap | gcibm.c:377-386 | the recorded row is the pivot row; whole rows are exchanged; each row below keeps its scale; and the parity flips exactly when a swap happens |
| LU.StepMultipliers | gcibm.c:387-395 | the entries of each row below the pivot before elimination are recovered from its stored multiplier, the stored pivot and the pivot row; a patched zero pivot and the overwritten scale are not recoverable |
| LU.RowMaxExtend | gcibm.c:353-358 | the running maximum over one more entry is the larger of the entry's absolute value and the maximum so far |
| LU.RowMaximum | gcibm.c:352-358 | the scaling loop's maximum of a row is RowMax of that row |
| LU.ArgMaxStep | gcibm.c:371-375 | the running strict-greater update starting from 0 tracks the first maximum of non-negative keys |
| LU.KeysNonNegative | gcibm.c:371 | with positive scales every pivot key is non-negative |
| LU.KeyOfRow | gcibm.c:371 | the key computed from the array is the specification's key of that row |
| LU.SearchPivot | gcibm.c:368-376 | the pivot search returns PivotRow of the current matrix and scales |
| LU.ConsiderRow | gcibm.c:371-375 | after considering one more row, the best row so far is the first maximum among the keys seen |
| LU.SwapRows | gcibm.c:378-382 | the array afterwards is the old matrix with rows a and b exchanged |
| LU.EliminateBelow | gcibm.c:390-395 | the array afterwards is the elimination of the old matrix below the pivot |
| LU.EliminateRow | gcibm.c:391-394 | one row of the loop turns one more row of the array into its eliminated form, leaving the rest |
| LU.PivotColumn | gcibm.c:368-389 | the pivot search, swap, scale copy, parity flip, permutation record and zero-pivot patch give the pivoted matrix, scales, record and parity of the specification's step |
| LU.PatchPivot | gcibm.c:387-389 | the array afterwards is FixPivot of the old matrix |
| LU.FactorColumn | gcibm.c:367-396 | one column of the main loop leaves matrix, scales, permutation record and parity exactly as Step |
| LU.FactorColumns | gcibm.c:367-396 | the main loop leaves what n steps from the start give, with every permute[q] in [q, n) and no zero on the diagonal |
| LU.SettledDiagonal | gcibm.c:387-389 | a settled state held in the array has no zero on the array's diagonal |
| LU.RowScales | gcibm.c:351-363 | the result says singular exactly when some row is all zeros; otherwise every scale is the reciprocal of its row's maximum |
| LU.LUFactorization | gcibm.c:341-398 | singular exactly when a row is all zeros, and then nothing is written; otherwise A, permute and the parity are those of the n column steps, every permute[q] is in [q, n), and the diagonal has no zero |

## Left out

- Floating-point geometry is not modelled: the conversion of a body's centre and radius to grid indices and half-widths (gcibm.c:107-114) and the inside test (gcibm.c:125-129). A body is given by its integer centre and half-widths, and the inside test is a function parameter.
- The image point's position is not computed (gcibm.c:251-269): the image node is a parameter of the stencil search. The geometry id passed to LinearReconstruction is not modelled, since the stencil search does not use it.
- The right-hand-side vectors of the reconstruction (gcibm.c:315-325) are not modelled: they read the conservative variables U and the gas constant, which are outside this model.
- The position matrix is returned as a value of four rows instead of being written into a local 4 x 4 array.
- Stencil.SearchStencil requires that every node the search reaches lies in the array. gcibm.c:297-298 reads `nodeFlag[idxh]` without a bounds check, so this is what a caller must already guarantee.
- BoundaryConditionGCIBM (gcibm.c:213-234) only computes the body id of each ghost node and discards it. The id extraction is modelled as Tags.GhostBodyId; the sweep around it, which changes nothing, is not.
- The fatal error of the factorisation (gcibm.c:359-361) aborts the program. It is modelled as the `Singular` outcome, with no write to A or permute.
- LUFactorization has no return statement, and its swap parity `flag` is a local. The model returns the parity in the `Factored` outcome so that it can be stated.
- LU.LUFactorization: the product of L and U is not proved to equal the row-permuted input matrix. Instead, the whole result is tied to the composition of column steps, and for each step the rows below the pivot are recovered from the stored multipliers (LU.StepMultipliers). A step as a whole is not invertible: a zero pivot patched to epsilon (gcibm.c:387-388) and the scale overwritten at gcibm.c:384 are lost.
- Real arithmetic is exact in the model. Floating-point rounding, and the comparison of a rounded pivot with zero, are not modelled.
- Classifier.Space.GhostNode: the model of the ghost pass uses the mathematical product of the six neighbour tags, not the 32-bit `int` product of gcibm.c:163-165. It agrees with the C text for at most 10 bodies (Pipeline.GhostSweepProductFits) and can depart from it with 55 or more bodies. It is the corrected half of the Findings row; the 32-bit product exists only as Tags.Int32Product. The other integer expressions (index formulas, solid tags) are unbounded integers.
- The comment at gcibm.c:202 says a node the shift pass moves has a ghost neighbour. The code moves a solid node with any neighbour above -offset, which is a ghost, or a boundary node when the solid touches the halo (a fluid neighbour cannot remain after the ghost pass). Pipeline.ClassifiedAdjacency states what the code does: "some ghost or boundary neighbour".
- paraview_reader.c, postprocess.c, weno3.c and cfd_commons.h are not part of this model.

## Findings

| source | as written | input that shows it | evidently intended | confidence | as-written member | corrected member |
|---|---|---|---|---|---|---|
| gcibm.c:163-166 | the "some neighbour is fluid" test multiplies the six neighbour tags in 32-bit `int` and compares the product with 0 | 55 or more bodies; an interior node of body 54 whose six neighbours all carry its solid tag -64: the product 2^36 wraps to 0, so a deep solid node is turned into a ghost (strictly, signed overflow is undefined in C; wrap-around is the usual behaviour) | a node becomes a ghost exactly when one of its face neighbours is 0 | high for the arithmetic, not executed | Tags.WrappedProductOfSolidTags | Classifier.Space.IdentifyGhostNodes (with Tags.ProductZeroIffSomeZero; Pipeline.GhostSweepProductFits shows the written product is exact with at most 10 bodies) |
