# Verification of the NetCDF overlay plugin

The plugin draws ocean and weather fields that it reads from NetCDF and GRIB files
over a chart: isolines, coloured textures and moving particles. It brings a JSON-Schema
validator and a compression library along. This project models the parts of it that
compute, in Dafny, and proves properties of the models. `dafny verify dfyconfig.toml`
checks everything.

Numbers of type `double` and `float` are modelled as reals: the proofs are about the
algorithms, not about rounding. Where the code compares coordinates with `==`, all that is
used is that the same computation on the same inputs gives the same result.

| files | what they model |
|---|---|
| `MarchingSquares.dfy`, `Crossings.dfy` | which edges of a grid with missing cells an isoline crosses, and where |
| `Chains.dfy`, `Boundary.dfy`, `Stitching.dfy`, `IsoLine.dfy`, `IsoLineTheorems.dfy` | joining the extracted segments into chains, in place, and what the chains of a finished isoline are |
| `Clipping.dfy` | Cohen-Sutherland clipping of an isoline's segments to the viewport |
| `Splines.dfy`, `SplineCurve.dfy`, `SplineStack.dfy` | smoothing a chain by adaptive subdivision on a stack of 20 slots |
| `JsonValues.dfy`, `Schemas.dfy`, `Validation.dfy`, `Draft07.dfy`, `Agreement.dfy` | JSON-Schema validation: the validator objects, their validate methods, the meaning of a document under draft-07, and their agreement |
| `References.dfy`, `RootSchema.dfy`, `Overrides.dfy` | resolving references while schemas are parsed, and what a default beside a reference does to it |
| `Crc.dfy` | the table-driven checksum of the compression library |
| `Particles.dfy` | the particle animation |
| `Grids.dfy`, `GridFill.dfy`, `Bitmaps.dfy` | holes in grids, and unpacking a GRIB record by its bitmap |
| `Interpolation.dfy`, `InterpolationFormula.dfy`, `Texture.dfy` | reading values between grid points, and drawing a grid as a texture |
| `RealArithmetic.dfy`, `Cardinality.dfy`, `Undefined.dfy` | facts used by several of them |

The isoline results compose: extraction puts on every edge as many segment ends as it has
cells around it (`EdgeDegree`), stitching makes maximal chains (`Stitch`), and counting ends
along maximal chains shows that an open chain ends where an odd number of ends meet
(`OpenChainEndsAreOdd`), which is on the boundary of the defined cells
(`OpenChainsEndOnBoundary`).

For the validator there are two layers. `Validation` proves that the validate methods,
with their counters, early exits and nested error handlers, decide acceptance by a
validator object (`Schemas.Accepts`). `Agreement` proves that the object the constructors
build from a document accepts exactly the instances of which the document holds
(`Draft07.Holds`), which is written from the specification alone: it has its own equality
of instances and shares no predicate with the validator.

Where a theorem is stated through a function of the model, another pins that function down
in plain terms: the sides that a segment joins (`SaddleCutsOffHighCorners`,
`SegmentDirection`), the point where it crosses an edge (`ColumnEdgePoint`, `RowEdgePoint`),
the flatness test (`FlatIff`), the order of bits (`BitInOctet`), the place of a datum
(`LaidAt`), what a hole is filled with (`ColumnHole`, `RowHole`), the value anywhere in a
cell (`LookupInside`), the place and colour of a node (`NodePlaces`, `ByteOfValue`), the
checksum (`CheckValue`).

## Where the code falls short of its promise

Each of these is a lemma, with the exact condition where there is one.

- An empty `allOf` rejects every instance (`CombinationAgreesIff`).
- `"type": "integer"` rejects a number such as 1.0, unless `number` is listed too
  (`TypeAgrees`).
- A plain bound beside an exclusive one of the same kind is forgotten
  (`NumberBoundsAgree`), and bounds with a fraction are truncated for integers
  (`IntegerUpperAgrees`, `IntegerLowerAgrees`).
- A string, array or object type written twice in a type list loses its keywords
  (`RepeatedTypeAgreesIff`).
- A reference that is copied to override its default before it is resolved is never
  resolved, accepts nothing, and the final scan does not notice
  (`CopyResolvedIffOriginalWas`, `OverrideAgreesIff`, `DanglingIffNeverLeads`,
  `ChildHoldsButIsRejected`). Nor does that scan exclude circular references
  (`SelfReferencePasses`).
- The spline's stack has no overflow check; it overflows exactly when a piece needs more
  than its 20 slots, and at steps of 5 * 2^20 pixels it does (`SlotsIsPeak`,
  `StackBoundIsTight`).
- With two columns the seam of a full circle is not crossed the short way
  (`TwoColumnSeamCollides`).
- A particle that is put elsewhere in the viewport loses its new position
  (`RespawnLosesPlace`, `NewestShownIff`).
- The loop that draws a trail ends only while the history length does not shrink below
  the newest slot of a full buffer (`WalkEndsIff`).
- Filling a grid twice can fill more than filling it once, exactly where the horizontal
  pass opens a hole between vertical neighbours, though each pass alone is idempotent
  (`FilledIdempotentIff`, `FillIdempotent`).
- A query on the closing meridian of a full circle, one or more turns after its beginning,
  has no value (`InterpolatedOnClosingMeridian`); nor has any query on the last row
  (`NothingOnLastRow`), nor, with descending columns, any but at the first column
  (`DescendingColumnsLost`).
- The texture of a full circle repeats after one column more than a turn, so that a
  position a turn away shows another column, except the first (`RepeatShowsNodeIff`).
- All values of a grid being equal, its texture encodes them on the scale from 0 to 1,
  which does not cover them unless they lie there (`FindScale`).

## Model

| member | source | states |
|---|---|---|
| `MarchingSquares.CutsDegree` | src/IsoLine2.cpp:605-636 | the case analysis of a cell puts one segment end on each side whose two corners lie on different sides of the level, and none on the others |
| `MarchingSquares.SaddleCutsOffHighCorners` | src/IsoLine2.cpp:629-636 | a cell gets two segments exactly when opposite corners lie on the same side of the level and neighbours on different sides; then each cuts off one of the two corners above the level: its two sides meet there and at no other corner |
| `MarchingSquares.TwoCutsMeetAtHighCorner` | src/IsoLine2.cpp:629-636 | of two segments in a cell, each joins two sides that meet in one corner, and the value there is above the level |
| `MarchingSquares.SaddleLinksAroundHighNode` | src/IsoLine2.cpp:629-636 | of two extracted segments in a cell of the grid, each runs between two edges with a common node, whose value is above the level |
| `MarchingSquares.SegmentDirection` | src/IsoLine2.cpp:605-636 | on which side a segment begins and ends: the one segment of a cell begins on the first crossed side of ab, ac and cd and ends on the other crossed side; of two, the first begins on ab and the second ends on cd |
| `MarchingSquares.CellHasLinksIff` | src/IsoLine2.cpp:589-636 | a cell, the seam cell included, has segments if and only if its four nodes have values, one of them above the level and one not |
| `MarchingSquares.CellDegree` | src/IsoLine2.cpp:589-636 | a fully defined cell contributes to an edge exactly when the edge straddles the level and is a side of the cell; a cell with a missing corner contributes nothing |
| `MarchingSquares.RowEdgeDegree` | src/IsoLine2.cpp:585-640 | over the whole scan a row edge gets as many segment ends as it has fully defined visited cells if it straddles the level, otherwise none |
| `MarchingSquares.ColumnEdgeDegree` | src/IsoLine2.cpp:585-640 | the same for the edges between rows |
| `MarchingSquares.EdgeDegree` | src/NcdfIsoLine.cpp:428-483 | both edge kinds at once, for scans with and without the seam cell |
| `MarchingSquares.GridLinksCrossed` | src/IsoLine2.cpp:578-640 | every extracted segment joins two edges of the scan that straddle the level |
| `MarchingSquares.PlanarDegree` | src/IsoLine2.cpp:578-640 | on a grid with all its values every edge whose node values lie on different sides of the level gets two segment ends, one on the four sides of the grid, and every other edge none |
| `MarchingSquares.ColumnBoundOnCircle` | src/NcdfIsoLine.cpp:433-434 | the cylindrical scan takes in the seam cell exactly when the columns go round once |
| `MarchingSquares.CylinderDegree` | src/NcdfIsoLine.cpp:433-443 | on a grid with all its values whose columns go round once every straddling edge, seam edges included, has degree 2, except row edges of the first and the last row, which have degree 1 |
| `Crossings.FractionOnLevel` | src/IsoLine2.cpp:541-546 | on a straddling edge the 0.5 fallbacks are never taken: the fraction is where the linear interpolant equals the level, and lies between the nodes |
| `Crossings.FractionBounded` | src/IsoLine2.cpp:541-546 | whatever the values, the fraction is at most 1 from 0, and half way where the two values are equal |
| `Crossings.ColumnEdgePoint` | src/IsoLine2.cpp:529-562 | the crossing point of an edge between rows lies on the column, at the part of the step from row to row at which the interpolated value equals the level |
| `Crossings.RowEdgePoint` | src/IsoLine2.cpp:529-562 | the crossing point of an edge along a row lies on the row, at that part of the step from column to column; a step of more than half a turn is taken the other way round |
| `Crossings.SeamEdgePoint` | src/NcdfIsoLine.cpp:392-414 | on the seam it lies that part of one step past the last column |
| `Crossings.ShortWayRound` | src/NcdfIsoLine.cpp:404-406 | a longitude difference of up to 540 degrees becomes one of at most 180 degrees that leads to the same place |
| `Crossings.SharedSides` | src/NcdfIsoLine.cpp:416-425 | the two cells that share a side name it by the same ordered pair of nodes, so both compute the identical crossing point |
| `Crossings.CrossInjective` | src/IsoLine2.cpp:529-562 | when no node value equals the level, distinct straddling edges have distinct crossing points, so comparing coordinates with == compares edges |
| `Crossings.TwoColumnSeamCollides` | src/NcdfIsoLine.cpp:392-414 | with two columns the seam edge and the inner edge of a row cross at the same point: three columns are needed |
| `Chains.ChainParity` | src/IsoLine2.cpp:130-260 | along a chain every inner point is left as often as it is reached |
| `Chains.OpenChainEndsAreOdd` | src/IsoLine2.cpp:130-260 | a maximal chain is a closed loop, or an odd number of all segment ends meet at each of its ends |
| `Chains.EndsAtInvariant` | src/IsoLine2.cpp:165-171 | neither the order in which segments are listed nor reversing them changes how many ends meet at a point |
| `Boundary.EdgesAtMultiplicity` | src/IsoLine2.cpp:529-562 | the edges that are crossed at a point, with the number of segment ends on each |
| `Boundary.OddPointOnBoundary` | src/IsoLine2.cpp:578-640 | where an odd number of ends meet there is an edge that belongs to exactly one fully defined cell, whatever other edges are crossed at the same point |
| `Stitching.ExtendForward` | src/IsoLine2.cpp:158-173 | a segment taken at the "2" end keeps the list a chain of distinct segments and leaves one fewer unused |
| `Stitching.JoinedLists` | src/IsoLine2.cpp:231-259 | the two lists grown from one segment, the first reversed and without its first element, make one chain that no unused segment touches at either end |
| `Stitching.AddChain` | src/IsoLine2.cpp:82-108 | one more chain keeps the partition of the trace into chains and rest, and no later segment touches an earlier chain's ends |
| `Stitching.Segment.constructor` | src/IsoLine2.cpp:513-527 | a segment's end points are the crossings of the two edges named by its corner letters |
| `IsoLines.IsoLine.JoinAtEnd2` | src/IsoLine2.cpp:149-181 | finds an unused segment that continues at the "2" end, flags it and reverses it in place if it fits the other way round; finding none, it shows that none fits |
| `IsoLines.IsoLine.JoinAtEnd1` | src/IsoLine2.cpp:197-228 | the same at the "1" end |
| `IsoLines.IsoLine.GrowAtEnd2` | src/IsoLine2.cpp:137-181 | the chain grown at the "2" end, until no unused segment touches it; the loop terminates |
| `IsoLines.IsoLine.GrowAtEnd1` | src/IsoLine2.cpp:185-228 | the chain grown at the "1" end, past the segments taken before |
| `IsoLines.IsoLine.Assemble` | src/IsoLine2.cpp:231-259 | the "1" side list backwards without its first segment, then the "2" side list |
| `IsoLines.IsoLine.BuildContinuousSegment` | src/IsoLine2.cpp:130-260 | a maximal chain of unused segments, containing the first one; exactly its segments are flagged and every segment keeps its two ends |
| `IsoLines.IsoLine.EraseUsed` | src/IsoLine2.cpp:93-104 | the scan that restarts after each erase leaves exactly the unused segments, in their order |
| `IsoLines.IsoLine.NextRound` | src/IsoLine2.cpp:82-108 | one round takes a chain out of the master list, whose other segments keep their order, and appends it, keeping all earlier chains |
| `IsoLines.IsoLine.Stitch` | src/IsoLine2.cpp:71-108 | every segment of the trace ends up in exactly one chain, reversed at most; consecutive segments meet; no segment of a later chain touches a chain's ends; the loops terminate |
| `IsoLines.IsoLine.PushCell` | src/IsoLine2.cpp:605-636 | pushes the segments of one cell, freshly crossed |
| `IsoLines.IsoLine.ExtractPlanar` | src/IsoLine2.cpp:578-640 | the trace holds exactly the links of the planar scan, in scan order |
| `IsoLines.IsoLine.ScanRowCylindrical` | src/NcdfIsoLine.cpp:437-481 | one row with carried corners, early skip and seam cell emits exactly the links of its cells |
| `IsoLines.IsoLine.ExtractCylindrical` | src/NcdfIsoLine.cpp:428-483 | the trace holds exactly the links of the scan up to the column bound, seam cell included on a full circle |
| `IsoLines.IsoLine.Planar` | src/IsoLine2.cpp:46-111 | the constructed object is finished: extracted, up to orientation, and stitched |
| `IsoLines.IsoLine.Cylindrical` | src/NcdfIsoLine.cpp:95-140 | the same for the record grid, with the seam cell on a full circle |
| `IsoLineTheorems.ChainEndsAreTraceEnds` | src/IsoLine2.cpp:71-108 | counting ends over the chains equals counting them over the extracted segments |
| `IsoLineTheorems.OpenChainsEndOnBoundary` | src/IsoLine2.cpp:46-111 | a chain of a constructed isoline is a closed loop, or each of its ends lies on an edge of exactly one fully defined cell: no chain stops in the interior. Holds for every level, also one that equals node values |
| `IsoLineTheorems.OpenChainEndEdges` | src/IsoLine2.cpp:46-111 | when no node value equals the level, the end segment's own edge is that boundary edge |
| `IsoLineTheorems.ChainFitsBuffer` | src/IsoLine2.cpp:328-362 | each chain with its starting point fits a buffer of one point more than there are segments |
| `IsoLineTheorems.CylinderChainsEndOnOuterRows` | src/NcdfIsoLine.cpp:428-483 | on a grid with all its values whose columns go round once an open chain ends on the first or the last row, never at the seam |
| `IsoLineTheorems.SameEdgePairsWithoutWrap` | src/NcdfIsoLine.cpp:428-483 | on a grid that does not wrap both extractors hold the same edge pairs in the same order |
| `Clipping.CodeBits` | src/NcdfIsoLine.cpp:34-41 | what each bit of an outcode says about the point; the code is 0 exactly inside the box |
| `Clipping.SharedBits` | src/NcdfIsoLine.cpp:59-61 | the codes of the two ends share a bit exactly when both ends lie beyond one side |
| `Clipping.StepFirst` | src/NcdfIsoLine.cpp:64-82 | a clip step at the first end divides by no zero, keeps exactly the parameters that can be inside, and leaves fewer steps |
| `Clipping.StepSecond` | src/NcdfIsoLine.cpp:64-86 | the same at the second end |
| `Clipping.Decided` | src/NcdfIsoLine.cpp:57-61 | both accept and reject decisions are right for the original segment |
| `Clipping.CohenSutherlandLineClip` | src/NcdfIsoLine.cpp:43-90 | Invisible exactly when the segment misses the closed box; otherwise the ends left delimit exactly the part of the segment inside it; at most 4 clip steps |
| `Splines.SplitHalves` | src/IsoLine2.cpp:678-690 | each split halves the weighted control-difference norm, and a piece of norm below 2.5 passes the flatness test |
| `Splines.FlatIff` | src/IsoLine2.cpp:681-682 | a piece passes the flatness test if and only if its middle differs from either end by less than 5 in x and by less than 5 in y |
| `Splines.SplitLowersLevel` | src/IsoLine2.cpp:678-690 | a piece that is not flat has a level that both halves undercut, so the subdivision terminates |
| `Splines.SlotsWithinLevel` | src/IsoLine2.cpp:669-692 | a piece of level L needs at most L + 1 stack slots |
| `Splines.StackSuffices` | src/IsoLine2.cpp:700-723 | the 20 slots suffice for the corner of three points whose steps are below 5 * 2^20 per axis |
| `Splines.PolylineFits` | src/IsoLine2.cpp:782-804 | so every polyline with such steps meets what the driver over a polyline asks for at each of its corners |
| `Splines.StackBoundIsTight` | src/IsoLine2.cpp:700-723 | at exactly 5 * 2^20 a level line needs a 21st slot |
| `Splines.AxesAlike` | src/IsoLine2.cpp:678-690 | exchanging the axes of a piece exchanges them in the points it contributes and changes neither their number nor the slots it needs |
| `Splines.UprightBoundIsTight` | src/IsoLine2.cpp:700-723 | so does an upright line |
| `Splines.SlotsIsPeak` | src/IsoLine2.cpp:669-692 | the slot count is the height the run really reaches, so the stack overflows if and only if it exceeds 20 |
| `SplineCurve.FlattenSamplesArc` | src/IsoLine2.cpp:679-690 | the points emitted for a piece lie on its quadratic Bezier arc at strictly increasing parameters |
| `SplineCurve.BezierPoint` | src/IsoLine2.cpp:678-690 | a point of the arc is the usual weighted sum of its three control points |
| `SplineCurve.CornersFollowCurve` | src/IsoLine2.cpp:782-804 | so do the points of the whole line, across pieces and calls |
| `SplineCurve.FlattenLinks` | src/IsoLine2.cpp:681-684 | consecutive points of a piece, its end included, differ by less than 5 in x and by less than 5 in y |
| `SplineCurve.InnerLinksShort` | src/IsoLine2.cpp:780-807 | before truncation, consecutive points of the line but for the first and the last link differ by less than 5 in x and by less than 5 in y; these two links join the ends of the polyline to the middles of its first and last link |
| `SplineCurve.SmoothPixels` | src/IsoLine2.cpp:743-807 | after truncation the line starts and ends at the polyline's ends and stays in every box that holds the polyline |
| `SplineCurve.PixelTruncates` | src/IsoLine2.cpp:743-750 | a pixel drops the fractions of a point, towards zero on either side of it |
| `SplineStack.Spline.ClearStack` | src/IsoLine2.cpp:705-709 | the stack is empty |
| `SplineStack.Spline.Push` | src/IsoLine2.cpp:711-723 | one more piece on top |
| `SplineStack.Spline.Pop` | src/IsoLine2.cpp:725-741 | the top piece comes off, if there is one |
| `SplineStack.RunStep` | src/IsoLine2.cpp:678-690 | one round of the loop keeps what has been and will be emitted, and never takes more than the 20 slots |
| `SplineStack.Spline.QuadraticSpline` | src/IsoLine2.cpp:669-692 | the points appended are exactly those of the recursive subdivision, for every piece whose slots fit |
| `SplineStack.Spline.GenSpline` | src/IsoLine2.cpp:753-809 | the points appended are exactly those of the smooth line of the polyline |
| `JsonValues.SameIsEqualValue` | opencpn-libs/json-schema-validator/json-validator.cpp:471-485 | the library equality used by enum and const is equality of JSON values, integers and floats being compared as numbers |
| `Agreement.SameIsEquality` | opencpn-libs/json-schema-validator/json-validator.cpp:471-485 | it is the equality of instances under JSON Schema, which is written out by kinds of values |
| `Validation.Find` | opencpn-libs/json-schema-validator/json-validator.cpp:473-478 | linear search finds a value exactly when one of the list equals it |
| `Validation.CheckUnique` | opencpn-libs/json-schema-validator/json-validator.cpp:1095-1101 | an error exactly when two items are equal |
| `Validation.CheckRequired` | opencpn-libs/json-schema-validator/json-validator.cpp:907-912 | an error exactly when a required name is missing |
| `Validation.CheckNumber` | opencpn-libs/json-schema-validator/json-validator.cpp:797-818 | an error exactly when the value is outside the bounds, exclusive or not |
| `Validation.FindDefault` | opencpn-libs/json-schema-validator/json-validator.cpp:79-93 | looking for a default errs exactly when it runs into an unresolved reference |
| `Validation.Validate` | opencpn-libs/json-schema-validator/json-validator.cpp:69-77 | running a validator ends in error exactly when it does not accept the instance, or an error was recorded before; terminates for well-founded references |
| `Validation.IsValidateComplete` | opencpn-libs/json-schema-validator/json-validator.cpp:425-445 | when the loop over alternatives may stop, and when stopping is an error |
| `Validation.ValidateCombined` | opencpn-libs/json-schema-validator/json-validator.cpp:379-398 | the counting loop with early exits decides allOf, anyOf and oneOf |
| `Validation.ValidateTyped` | opencpn-libs/json-schema-validator/json-validator.cpp:461-502 | type dispatch, enum, const, the logic list and if/then/else together |
| `Validation.ValidateCondition` | opencpn-libs/json-schema-validator/json-validator.cpp:490-501 | the condition is tried with an error handler of its own |
| `Validation.ValidateProperty` | opencpn-libs/json-schema-validator/json-validator.cpp:948-976 | propertyNames, properties, patternProperties and additionalProperties for one property |
| `Validation.ValidateObject` | opencpn-libs/json-schema-validator/json-validator.cpp:935-994 | all object keywords, with the reverse search for defaults |
| `Validation.ValidateItems` | opencpn-libs/json-schema-validator/json-validator.cpp:1103-1126 | items as one schema or as a list with additionalItems; the loop may stop where no schema is left |
| `Validation.ValidateContains` | opencpn-libs/json-schema-validator/json-validator.cpp:1127-1140 | an error exactly when no item is accepted |
| `Validation.ValidateArray` | opencpn-libs/json-schema-validator/json-validator.cpp:1087-1140 | all array keywords |
| `Agreement.NumberBoundsAgree` | opencpn-libs/json-schema-validator/json-validator.cpp:824-848 | for floats the bounds kept agree with the keywords if and only if no tighter plain bound stands beside an exclusive one |
| `Agreement.IntegerUpperAgrees` | opencpn-libs/json-schema-validator/json-validator.cpp:824-841 | for integers the upper bounds kept agree with the keywords if and only if both come to the same greatest integer; plain and exclusive bounds may stand together |
| `Agreement.IntegerLowerAgrees` | opencpn-libs/json-schema-validator/json-validator.cpp:830-848 | the same for lower bounds and the least integer |
| `Agreement.LoneBoundKept` | opencpn-libs/json-schema-validator/json-validator.cpp:824-848 | which single bounds keep their meaning when they are read as integers: if and only if they have no fraction or it is dropped to the right side |
| `Agreement.TypeAgrees` | opencpn-libs/json-schema-validator/json-validator.cpp:523-567 | the dispatch table agrees with the type keyword unless the instance is a float without fraction, integer is listed and number is not: if and only if. The keyword's meaning is written out type by type |
| `Agreement.CombinationAgreesIff` | opencpn-libs/json-schema-validator/json-validator.cpp:379-398 | counting outcomes decides whether all, at least one or just one of the schemas accept, if and only if it is not an empty allOf, which is rejected |
| `Agreement.RepeatedTypeAgreesIff` | opencpn-libs/json-schema-validator/json-validator.cpp:537-542 | string, array or object written twice in a type list leaves a validator that accepts all of them, so it agrees with the keywords at an instance if and only if they hold of it |
| `Agreement.RepeatedIff` | opencpn-libs/json-schema-validator/json-validator.cpp:537-542 | a type counts as repeated if and only if it stands at two places of the list |
| `Agreement.OwnDefaultFirst` | opencpn-libs/json-schema-validator/json-validator.cpp:79-91 | the search for a default of a reference ends well if and only if a default that is not null stands beside it, or it is no unresolved copy and the search does where it leads |
| `Agreement.DefaultThroughNegations` | opencpn-libs/json-schema-validator/json-validator.cpp:353-356 | the search goes through any number of negations |
| `Agreement.OverrideAgreesIff` | opencpn-libs/json-schema-validator/json-validator.cpp:1281-1292 | a copy of a reference made before it was resolved accepts nothing; a reference with a default of its own agrees with its document if and only if it is not such a copy or the document it refers to does not hold |
| `Agreement.DanglingPropertyRejects` | opencpn-libs/json-schema-validator/json-validator.cpp:69-77 | an object that has a property for which the document gives such a copy is rejected |
| `Overrides.RecordedForGood` | opencpn-libs/json-schema-validator/json-validator.cpp:1276-1292 | whether the copy leads to a schema is settled when it is made, whatever is parsed later |
| `Overrides.DanglingIffNeverLeads` | opencpn-libs/json-schema-validator/json-validator.cpp:1276-1292 | the validator object that accepts nothing is built exactly where the copy never leads to a schema |
| `Overrides.RecordedByPlace` | opencpn-libs/json-schema-validator/json-validator.cpp:209-243 | a reference is unresolved when copied if its place is not yet defined, and otherwise exactly as what is defined there |
| `Overrides.ChildPassesScan` | opencpn-libs/json-schema-validator/json-validator.cpp:1276-1300 | a root whose property refers to the root with a default passes the final scan, with a copy that points nowhere |
| `Overrides.ChildHoldsButIsRejected` | opencpn-libs/json-schema-validator/json-validator.cpp:69-77 | the document holds of an object with that property, and its validator rejects the object |
| `Agreement.GuardedMake` | opencpn-libs/json-schema-validator/json-validator.cpp:1230-1311 | construction keeps references well-founded |
| `Agreement.ObjectAgrees` | opencpn-libs/json-schema-validator/json-validator.cpp:1000-1071 | the object validator built from the object keywords agrees with them |
| `Agreement.ArrayAgrees` | opencpn-libs/json-schema-validator/json-validator.cpp:1144-1190 | the array validator built from the array keywords agrees with them |
| `Agreement.LogicAgrees` | opencpn-libs/json-schema-validator/json-validator.cpp:586-608 | the logic list built from not, allOf, anyOf and oneOf agrees with them |
| `Agreement.ConditionAgrees` | opencpn-libs/json-schema-validator/json-validator.cpp:610-629 | if/then/else agrees, also where an if without then and else is dropped |
| `Agreement.TableAgrees` | opencpn-libs/json-schema-validator/json-validator.cpp:505-567 | the dispatch table agrees with type, bounds, string, object and array keywords |
| `Agreement.AcceptsIffHolds` | opencpn-libs/json-schema-validator/json-validator.cpp:1230-1311 | the validator built from a document accepts exactly the instances of which the document holds under draft-07, for closed, well-founded references and documents without the faults stated above: an empty allOf, a repeated string, array or object type, bounds whose meaning is lost for a number type that is offered, a copy of an unresolved reference; for every instance where integer is listed only beside number, and otherwise for every instance that writes numbers without fraction as integers |
| `Agreement.ValidateDocument` | opencpn-libs/json-schema-validator/json-validator.cpp:1383-1389 | building and running the validator returns true exactly when the document holds of the instance |
| `References.InsertKeepsValid` | opencpn-libs/json-schema-validator/json-validator.cpp:148-165 | inserting a schema resolves who awaits it and keeps the invariant, also when it throws |
| `References.ReferKeepsValid` | opencpn-libs/json-schema-validator/json-validator.cpp:209-243 | handing out a reference keeps the invariant |
| `References.StepKeepsValid` | opencpn-libs/json-schema-validator/json-validator.cpp:148-243 | every event of parsing keeps: what a file awaits is not defined there, and every reference handed out is awaited at its place or points to the schema there |
| `References.RunKeepsValid` | opencpn-libs/json-schema-validator/json-validator.cpp:148-243 | so does every run, which also never changes a definition, a resolved reference or a copy |
| `References.InsertDefines` | opencpn-libs/json-schema-validator/json-validator.cpp:148-165 | inserting throws if and only if something is defined at the URI; else the schema is defined there, nobody waits for it any more, and every other place keeps what it defines and awaits |
| `References.ReferMakesKnown` | opencpn-libs/json-schema-validator/json-validator.cpp:209-243 | a reference makes its file known, so that it gets loaded, and yields the schema defined there, the reference that already waits there, or a new one that does |
| `References.RunConcat` | opencpn-libs/json-schema-validator/json-validator.cpp:148-283 | a run is cut short by the first event that throws, and by nothing else |
| `References.DefinedAndAwaitedDisjoint` | opencpn-libs/json-schema-validator/json-validator.cpp:116-120 | the defined and the awaited keys of a file are disjoint |
| `References.NothingAwaitedIffResolved` | opencpn-libs/json-schema-validator/json-validator.cpp:278-282 | the final scan is exact: nothing is awaited if and only if every reference points to the schema at its URI |
| `References.ReferAfterInsert` | opencpn-libs/json-schema-validator/json-validator.cpp:214-216 | after a definition, whatever follows, whoever refers to it gets the schema itself |
| `References.ReferBeforeInsert` | opencpn-libs/json-schema-validator/json-validator.cpp:159-164 | a reference handed out before the definition points to it from then on |
| `References.ReferTwice` | opencpn-libs/json-schema-validator/json-validator.cpp:235-238 | until a URI is defined all who refer to it share one reference |
| `References.CopyResolvedIffOriginalWas` | opencpn-libs/json-schema-validator/json-validator.cpp:1281-1292 | a reference copied to override its default is ever resolved if and only if the original was when it was copied, and then to the same schema |
| `References.UnresolvedCopyPasses` | opencpn-libs/json-schema-validator/json-validator.cpp:1281-1292 | a run that passes the final scan with a copy that points nowhere |
| `References.SelfReferencePasses` | opencpn-libs/json-schema-validator/json-validator.cpp:278-282 | a root that only refers to itself passes the final scan |
| `RootSchemas.RootSchema.Insert` | opencpn-libs/json-schema-validator/json-validator.cpp:148-165 | the maps after an insertion, and exactly when it throws |
| `RootSchemas.RootSchema.GetOrCreateRef` | opencpn-libs/json-schema-validator/json-validator.cpp:209-243 | the maps after a request for a reference, and what is returned |
| `RootSchemas.RootSchema.CopyForDefault` | opencpn-libs/json-schema-validator/json-validator.cpp:1281-1292 | the copy and what it points to |
| `RootSchemas.RootSchema.LoadOne` | opencpn-libs/json-schema-validator/json-validator.cpp:259-266 | a file without a schema is loaded by making the schema of its document at its location; there being no document, or the making throwing, is a failure |
| `RootSchemas.RootSchema.LoadMissing` | opencpn-libs/json-schema-validator/json-validator.cpp:254-271 | one pass over the files known at its start; without progress every file has been loaded; the files loaded are those needed, one after the other |
| `RootSchemas.RootSchema.SetRootSchema` | opencpn-libs/json-schema-validator/json-validator.cpp:245-283 | it succeeds if and only if making the root does, making the schema of every file that turns out to be needed does, in the order of loading, and nothing is awaited in the end; then every reference handed out points to the schema at its URI and every file is loaded; the loading loop terminates |
| `Crc.TableCorrect` | opencpn-libs/bzip2/src/crctable.c:71-139 | each of the 256 constants is the remainder of its index byte on division by 0x04c11db7 |
| `Crc.ShiftNLinear` | opencpn-libs/bzip2/include/bzlib_private.h:189-194 | division steps are linear over exclusive or |
| `Crc.BitsInOrder` | opencpn-libs/bzip2/include/bzlib_private.h:189-194 | the bit list of a byte starts with its most significant bit |
| `Crc.UpdateIsEightBits` | opencpn-libs/bzip2/include/bzlib_private.h:189-194 | the table-driven update is eight steps of bit-serial division |
| `Crc.TableFoldIsDivision` | opencpn-libs/bzip2/include/bzlib_private.h:189-194 | folding the update over any bytes from any register is bit-serial division, most significant bit first |
| `Crc.BlockCrc` | opencpn-libs/bzip2/include/bzlib_private.h:183-194 | initialise, update and finalise compute the complement of the remainder of the message from all ones |
| `Crc.CheckValue` | opencpn-libs/bzip2/include/bzlib_private.h:183-194 | the checksum of the digits 123456789 is 0xFC891918 |
| `Crc.UpdateInjective` | opencpn-libs/bzip2/include/bzlib_private.h:189-194 | equal results of two updates have equal registers if and only if they have equal bytes |
| `Crc.OneByteChangeDetected` | opencpn-libs/bzip2/include/bzlib_private.h:189-194 | changing one byte of a message changes its checksum |
| `Crc.ShortBlocksDiffer` | opencpn-libs/bzip2/include/bzlib_private.h:189-194 | different blocks of at most 32 bits leave different registers |
| `Crc.BurstDetected` | opencpn-libs/bzip2/include/bzlib_private.h:189-194 | any change confined to 32 consecutive bits of a message changes its checksum |
| `Particles.LifetimeForetold` | src/ncdfparticle.cpp:92-100 | a particle retires in exactly the pass its age and run foretell, after 51 updates in every sixth pass; every other pass keeps its ring and counts down by one |
| `Particles.Advance` | src/ncdfparticle.cpp:100-151 | the update in place, with its fate: moved, put elsewhere or faded |
| `Particles.RespawnLosesPlace` | src/ncdfparticle.cpp:131-146 | a particle put elsewhere in the viewport keeps no position: clearing the trail goes over the new one |
| `Particles.NewestShownIff` | src/ncdfparticle.cpp:100-151 | after an update the newest slot holds a position if and only if the particle moved to one |
| `Particles.RetiresInvisible` | src/ncdfparticle.cpp:114-150 | a particle that retires has no position left to draw |
| `Particles.UpdateExtendsTrail` | src/ncdfparticle.cpp:101-105 | the ring is a queue of bounded length: the newest position in front, the oldest dropped when it is full |
| `Particles.WalkTrail` | src/ncdfparticle.cpp:256-296 | the drawing loop ends and visits each live slot once, newest to oldest |
| `Particles.WalkEndsIff` | src/ncdfparticle.cpp:290-294 | for any buffer contents the loop ends if and only if the newest slot is below the history length or the buffer is not full |
| `Particles.ParticleMap.SpawnSome` | src/ncdfparticle.cpp:160-229 | each try that finds a place adds one particle at the end, and no other does: it is as old as its random number says, its trail is complete and its run is its number modulo 6 |
| `Particles.Spawn` | src/ncdfparticle.cpp:187-226 | a new particle's ring is full, its trail the positions gone through, newest first, its age below 25 |
| `Particles.ControlApproaches` | src/ncdfparticle.cpp:158-164 | the control never overshoots the target and changes nothing exactly from 63 below to 15 above it |
| `Particles.ControlConverges` | src/ncdfparticle.cpp:158-164 | repeated control brings every population into that band |
| `Particles.UnderwayRemoves` | src/ncdfparticle.cpp:94-98 | moving the last particle into the place of one that retires removes just that one |
| `Particles.ParticleMap.UpdateAll` | src/ncdfparticle.cpp:90-151 | one pass: every particle present that does not retire is there once, having waited or been updated with the next fate in turn, or faded once its age and the length of its trail come to 50; nothing else is there |
| `Particles.ParticleMap.Control` | src/ncdfparticle.cpp:153-229 | exactly a sixteenth of the surplus is removed from the end, and one particle added for each of the tries, a sixty-fourth of the shortage, that find a place; so the population never exceeds the greater of before and target, and the particles kept stay as they are |
| `Grids.InPlace` | src/ncdf_reader.cpp:19-29 | no cascade: a cell filled in place gets the value it has when filled from the grid at the start |
| `Grids.PassIsFill` | src/ncdf_reader.cpp:18-42 | a pass that reaches every inner cell, in whatever order, is the simultaneous fill |
| `Grids.DefinedKept` | src/ncdf_reader.cpp:21-27 | a cell with a value keeps it |
| `Grids.FillIdempotent` | src/ncdf_reader.cpp:18-42 | a second pass changes nothing |
| `GridFill.FillCell` | src/ncdf_reader.cpp:21-27 | one cell in place |
| `GridFill.FillFour` | src/ncdf_reader.cpp:56-66 | the same cell of four grids, which may coincide |
| `GridFill.FillGrid` | src/ncdf_reader.cpp:14-43 | the vertical then the horizontal fill; a null grid or one with a side below 3 is left alone |
| `GridFill.FillAllGrids` | src/ncdf_reader.cpp:47-89 | each grid is left exactly as its own fill would leave it, even where several are the same grid |
| `GridFill.ColumnHole` | src/ncdf_reader.cpp:18-30 | the pass over the columns puts the value half way between the two into every hole with values above and below, and leaves every other cell as it is |
| `GridFill.RowHole` | src/ncdf_reader.cpp:31-42 | the pass over the rows does the same with holes between values of a row |
| `GridFill.ColumnsFirst` | src/ncdf_reader.cpp:18-42 | a hole with values above and below gets their mean, whatever is beside it; one without gets that of the values beside it; a cell with a value keeps it |
| `GridFill.SmallGridKept` | src/ncdf_reader.cpp:15-16 | a grid with a side below 3 is not touched |
| `GridFill.FilledIdempotentIff` | src/ncdf_reader.cpp:14-43 | a second fill changes nothing if and only if the horizontal pass opened no hole between two vertical neighbours with values, read off the grid after the vertical pass; or a side is below 3 |
| `GridFill.FilledNotIdempotent` | src/ncdf_reader.cpp:14-43 | there are grids that a second fill changes |
| `Bitmaps.IsInBmpMask` | src/ncdfdata.cpp:247-262 | the cursor reads bit k, most significant bit of each octet first |
| `Bitmaps.BitInOctet` | src/ncdfdata.cpp:247-262 | bit k is bit k % 8 of octet k / 8, counted from the most significant one, by the masks 0x80 to 0x01 |
| `Bitmaps.RankIsCount` | src/ncdfdata.cpp:122-147 | the number of a cell's datum is the number of bits set before the cell, counted on the octets |
| `Bitmaps.Unpack` | src/ncdfdata.cpp:122-147 | cell k is the datum numbered by the set bits before k if bit k is set, and undefined otherwise |
| `Bitmaps.LaidAt` | src/ncdfdata.cpp:122-147 | cell (y, x) has bit y * nx + x; if it is set, the cell holds the datum that as many data precede as bits are set before it, and is undefined otherwise |
| `Bitmaps.UnpackPack` | src/ncdfdata.cpp:122-147 | unpacking what packing made gives back every grid whose cells without a bit are undefined |
| `Bitmaps.PackUnpack` | src/ncdfdata.cpp:122-147 | every datum is used once and in order |
| `Bitmaps.FillRowHoles` | src/ncdfdata.cpp:202-218 | the pass that looks at the bitmap is the plain row fill, as only cells with a bit have values |
| `Bitmaps.FillColumnHoles` | src/ncdfdata.cpp:219-236 | the pass that does not look at it is the column fill |
| `Bitmaps.AddRecord` | src/ncdfdata.cpp:116-236 | unpacked, filled along the rows, then along the columns |
| `Bitmaps.RowsFirst` | src/ncdfdata.cpp:202-236 | a hole between two values of a row gets their mean, whatever is above and below it |
| `Bitmaps.RecordKeepsData` | src/ncdfdata.cpp:116-236 | the values of the record keep their places through both passes |
| `Interpolation.Normalize` | src/ncdfdata.cpp:502-504 | the two loops terminate and bring the longitude into the range of the data |
| `Interpolation.NormalizedInCircle` | src/ncdfdata.cpp:502-504 | on a full circle the result is a whole number of turns away and within [first, first + 360] |
| `Interpolation.NormalizedPeriodic` | src/ncdfdata.cpp:502-504 | off the closing meridian it does not depend on the number of turns |
| `Interpolation.ClosingMeridian` | src/ncdfdata.cpp:502-504 | on it, queries at the beginning or turns before it go to the beginning, those turns after it to the end |
| `Interpolation.ThreeValuesInBounds` | src/ncdfdata.cpp:542-574 | with values at three corners all four reads are in bounds |
| `Interpolation.GetInterpolatedValue` | src/ncdfdata.cpp:484-613 | the method computes the specified value, every read in bounds |
| `Interpolation.BlendBetween` | src/ncdfdata.cpp:576-603 | the blend lies between the corner values |
| `Interpolation.HermiteSmooth` | src/ncdfdata.cpp:576-577 | the weight is symmetric between two nodes and leaves a node without slope |
| `Interpolation.SharedVerticalSide` | src/ncdfdata.cpp:576-603 | the formulas of two cells agree on the side between columns that they share |
| `Interpolation.SharedHorizontalSide` | src/ncdfdata.cpp:576-603 | and on the side between rows |
| `Interpolation.LookupBetween` | src/ncdfdata.cpp:508-613 | with four values within 90 of each other the result lies between the least and the greatest |
| `Interpolation.LookupAtNode` | src/ncdfdata.cpp:508-613 | at a node it is the value of the node |
| `Interpolation.NearestAtNode` | src/ncdfdata.cpp:542-574 | so is the nearest value at a node, with values at any three corners |
| `Interpolation.LastColumnBlendsIntoFirst` | src/ncdfdata.cpp:535-540 | past the last column of a full circle the cell goes on with column 0 |
| `Interpolation.InterpolatedPeriodic` | src/ncdfdata.cpp:484-613 | on a full circle the value does not change with the turns in the query, off the closing meridian |
| `Interpolation.InterpolatedOnClosingMeridian` | src/ncdfdata.cpp:484-613 | on the closing meridian it is that of the first column for queries at the beginning or turns before it, and undefined for those turns after |
| `Interpolation.NothingOnLastRow` | src/ncdfdata.cpp:542-553 | on the last row of the grid there is never a value |
| `InterpolationFormula.LookupInside` | src/ncdfdata.cpp:508-613 | the value anywhere in a cell, by the columns and rows past its node: the nearest node's, if three of the four have values, or the blend of the four with the weights 3s^2 - 2s^3, on grids whose neighbouring values differ by at most 90; with fewer than four values no blend |
| `InterpolationFormula.OnGridLines` | src/ncdfdata.cpp:576-603 | on the line along a row the blend depends only on the two nodes of that row, on the line along a column only on the two of that column |
| `InterpolationFormula.LookupOnGridLines` | src/ncdfdata.cpp:508-613 | so the value looked up on a row of the grid is that of two nodes of the row, and on a column that of two nodes of the column |
| `InterpolationFormula.ContinuesInNextColumn` | src/ncdfdata.cpp:508-613 | on the side that a cell shares with the one in the next column, the value looked up there is the one that the first cell's formula has there |
| `InterpolationFormula.ContinuesInNextRow` | src/ncdfdata.cpp:508-613 | the same for the cell in the next row |
| `InterpolationFormula.UnwoundOverNorth` | src/ncdfdata.cpp:582-594 | four directions within a quarter turn over north, one at least west of it: those east of north are counted on from 360 |
| `InterpolationFormula.LookupOverNorth` | src/ncdfdata.cpp:508-613 | so the direction between them is found on the short way over north |
| `InterpolationFormula.InterpolatedOffCircle` | src/ncdfdata.cpp:484-613 | on a grid with ascending columns that do not go round, the queries with a value are those from the first to the last column, as they are, a turn to the east or a turn to the west, and the value is that at the longitude so reached |
| `InterpolationFormula.MapOverGreenwich` | src/ncdfdata.cpp:681-698 | a grid that begins west of Greenwich and ends east of it has the longitudes from its first column to 360 more than its last, and they need no normalising |
| `InterpolationFormula.MapGoesRound` | src/ncdfdata.cpp:681-698 | a grid that goes round has every longitude |
| `InterpolationFormula.DescendingColumnsLost` | src/ncdfdata.cpp:502-553 | on a grid with descending columns a query in the map has a value if and only if it is at the first column, as it is raised past the data otherwise |
| `Textures.EncodeDecode` | src/ncdftexture.cpp:200-207 | a value within the scale comes back from its byte to within one step, never too large |
| `Textures.ByteOfValue` | src/ncdftexture.cpp:200-207 | the byte is the whole number of 255ths of the scale below the value, 0 below the scale and 255 above it; alpha is 255 for values and 0 for holes |
| `Textures.FindScale` | src/ncdftexture.cpp:169-184 | the scale is that from 0 to 1 if all values are the same; it covers the values if and only if they are not all the same or lie between 0 and 1; otherwise it runs from the least value to the greatest, or over 1 if these are less than 1e-10 apart |
| `Textures.NodeTexel` | src/ncdftexture.cpp:192-237 | every node has a texel of its own off the border, which shows that node in the finished texture |
| `Textures.NodePlaces` | src/ncdftexture.cpp:163-207 | the size of the texture and the row and column of each node, by orientation and mode |
| `Textures.BorderFades` | src/ncdftexture.cpp:219-237 | border rows and columns are transparent and have the colours of their neighbours |
| `Textures.PlaceNodes` | src/ncdftexture.cpp:192-209 | no node is dropped |
| `Textures.BuildTexture` | src/ncdftexture.cpp:161-237 | every texel of the texture: its node's colour, transparent on the border, the extra column a copy of the first |
| `Textures.NodeSampledAtItsTexel` | src/ncdftexture.cpp:311-312 | a node is sampled at the centre of the texel that stores it, for both row orientations and both modes, also as coordinates in numbers |
| `Textures.AdjustedNode` | src/ncdftexture.cpp:306-309 | on a grid that does not go round, also when the position is a turn away |
| `Textures.RepeatSamples` | src/ncdftexture.cpp:311-311 | on a grid that goes round, a position k turns away is sampled k times the number of columns further |
| `Textures.RepeatShowsNodeIff` | src/ncdftexture.cpp:165-167 | as the texture repeats after one column more than a turn, such a position shows its node if and only if k is a multiple of the width, or one more for the first node |

## Left out

- Floating-point rounding, infinities and not-a-number values; the wrap-around of machine integers, except the unsigned grid indices of interpolation.
- Reading NetCDF and GRIB files, logging, dialogs and configuration: input, output and user interface.
- All drawing: device contexts, OpenGL, labels, colours and shaders; the trail's fading colours; the conversion between chart pixels and positions, which belongs to the host.
- IsoLines.IsoLine.ScanRowCylindrical: the corners carried from cell to cell are modelled as intended; the code declares them inside the loop body although the loop's increment uses them.
- IsoLines.IsoLine.Cylindrical: the segment lists are those of the planar object, as the two classes have the same stitching code; a grid with two or more rows but no columns, from which the code reads column 0, is excluded.
- SplineStack.Spline.GenSpline: a list of exactly one point, for which the code follows a null link, is excluded by a precondition.
- Clipping.CohenSutherlandLineClip: boxes whose minimum exceeds their maximum are excluded.
- Validation.Validate: which error is recorded first, its text and its path; default patches; multipleOf, format and content checks, binary values; regular-expression search is a parameter; references have to be well-founded, as the code recurses without end on others.
- Agreement.AcceptsIffHolds: parsing of the document's JSON text and the erasing of keywords as they are read, except its effect on a type that is listed twice; whether a default beside a reference came too early is recorded in the document, as Overrides.Recorded computes it from the state of parsing; the faults listed above are excluded for every schema of the document, also where they make no difference to the outcome; documents whose schemas are neither objects nor booleans, for which the constructors throw.
- References.StepKeepsValid: parsing of URIs, which are pairs of a location and a fragment; turning an unknown keyword into a schema is the run of events of making that schema, and the store of unknown keywords itself is not modelled.
- RootSchemas.RootSchema.SetRootSchema: the loader is a finite map from locations to documents, so that loading ends, and a missing document stands for a missing loader or one that throws; the files of a pass are taken in any order; schemas have no content here.
- Particles.Advance: where a particle moves is given from outside, as the flow, the trigonometry, the projection and chance decide it; screen positions, colours and velocities of particles.
- Particles.ParticleMap.Control: the random number, the place and the path of a new particle, and whether a try finds one, are given from outside; so are the target, which the code computes from the density, and the history length, which is constant.
- Bitmaps.AddRecord: the unit conversions of temperature and pressure, and records without a bitmap, which take their data in order.
- Interpolation.LookupBetween: corners that differ by more than 90, which the code treats as angles, are in the model but not in this property; InterpolationFormula.LookupOverNorth has them where they lie within a quarter turn over north. The interpolation in triangles is unreachable in the code and not modelled.
- Textures.BuildTexture: null rows of the grid and failed allocation.
- The block-sorting compressor, SQLite, XML and unit-conversion libraries, of which the plugin uses only the interface.
