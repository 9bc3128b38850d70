# Host-side algorithms of tt-metal, modelled and proved

Five groups of host-side algorithms of tt-metal, each modelled with the branches, error exits and constants of its
source and proved against a description that does not mention how it computes.

1. **Core ranges and work splitting** (`core_coord.cpp`, `work_split.cpp`). A `CoreRangeSet` is a list of disjoint
   inclusive rectangles that stands for a set of cells. Everything is stated on that set. `CoreRangeMerge` models the
   rasterising `merge`: the grid of marks, the runs of each row, the joining and filtering of `std::set`s. Its result is
   the canonical list of *blocks* of the covered cells (maximal stacks of equal row runs), which makes it a function of
   the cells alone. `WorkSplit` and `SubGrids` hold the allocators and the division of work over cores.
2. **The block-float codec** (`blockfloat_common.hpp`, `bfloat8.hpp`, `bfloat4.hpp`). Floats are 32-bit words with a
   sign, an 8-bit exponent and a 23-bit fraction (section 3.4 of IEEE 754-2019). Two scales are kept apart. The encoder
   gives every nonzero input a hidden one, and saturates it first for 5-bit exponents (`BlockFloat.ScaledValue`); on that
   scale encoding is round-half-up. What a word really denotes is `RealValues.Magnitude`; `RealValues` proves for exactly
   which finite inputs the encoder, and the whole codec, are accurate on that scale. Shifts are products and quotients by
   powers of two, masks are remainders, `|` is a recursive `BitOr`. All twelve tile shapes, both layouts, padded and plain
   exponent sections.
3. **Tensor layouts** (`tilize_untilize.hpp`, `models/utility_functions.py`). Tilizing, im2col and stride folding.
   `Convolution.Convolve` is the textbook sum over input channels, filter rows and filter columns.
4. **Harvesting** (`metal_soc_descriptor.cpp`). The maps between logical, physical and UMD's virtual rows.
5. **Meshes** (`mesh_device_view.cpp`, `mesh_device.cpp`). The snake line, the boundary ring, and submeshes.

Loops over mutable state are methods with invariants; their contracts equate the result with a specification function
or predicate, and the lemmas then state what that specification promises.

## Where the code and what is expected of it differ

Each of these is proved as an exact condition, and each has a concrete input for the failing side.

- *Sub-grid allocation loses lone cores.* A range is pushed only when its two corners differ, so a sub-grid one core
  wide in the fill direction that contributes a single core contributes nothing, although the core is counted as given.
  `SubGrids.AllocationIsExact` says exactly when nothing is lost; `SubGrids.LoneCoreIsLost` is an example.
- *The codec is not accurate outside its format's exponent range in general.* The hidden one is added to denormals too, and
  dropped when a small datum decodes to exponent field 0; formats with 5-bit exponents replace larger and smaller numbers
  by their largest and smallest. `RealValues.EncodesNearIff` and `RealValues.ReturnsNearIff` give the exact conditions on
  the input and the shared exponent under which the datum, and the word that comes back, are within half a unit of the
  input (or less than one below it at the largest mantissa); `RealValues.DecodeExact` says when a datum decodes exactly,
  `BlockFloatExact.ReturnsExactlyIff` when a word comes back bit for bit.
  Examples: `RealValues.DatumDecodesToZero`, `RealValues.DenormalIsRaised`, `RealValues.LargeNumberSaturates`, and
  `RealValues.LargestBecomesInfinite` for a finite number in a row that holds an infinity.
- *Requantising loses small denormals.* With 8-bit exponents (`_b` formats), a denormal in a row whose shared exponent
  is small encodes to a datum that decodes to the zero word. `BlockFloatRoundTrip.RequantiseStable` says exactly when
  packing, unpacking and packing again is the identity; `BlockFloatRoundTrip.DenormalIsLost` is an example.
- *Filter folding is written for stride 2.* Its inner loop always takes four sub-positions. For larger strides the other
  sub-positions of the filter are dropped (`StrideFold.ExactIffNothingDropped`, with `StrideFold.StrideThreeDropsMiddle`);
  for stride 1 it indexes out of bounds (`StrideFold.PadAndFoldFilter`, with `StrideFold.FoldFilterWithStrideOne`).
- *`get_line_devices` works only from (0, 0).* A view made through a coordinate mapper may have another top left corner,
  and then the line does not fit (`Submeshes.MeshDeviceView.GetLineDevices`, with `MappedViews.LineFromSecondRow`).
- *Rounding is not to nearest even.* A comment (`blockfloat_common.hpp:149`) says it is; the code adds half a unit and
  shifts, which rounds halves up. The two differ exactly for inputs halfway above an even number of units
  (`BlockFloat.NearestEvenIff`, with `BlockFloat.HalfRoundsUp`). The model follows the code.
- *Looking up an id by coordinate indexes the list of devices.* In a view made through a mapper the list may be in any
  order, and then the id found need not be the one at that coordinate, distinct ids or not
  (`MappedViews.MappedLookupInvertsIff`, with `MappedViews.ListedOutOfOrder`).
- *The harvesting remap is a bijection of the worker rows exactly when every row of the mask is a worker row*
  (`Harvesting.RowMapIsBijectionIff`, with `Harvesting.RemoveRowOutside`); nothing checks that. With any mask of the right
  number of rows, logical cores still land on workers and are routed as UMD routes them
  (`Harvesting.LogicalCoresAreWorkers`), and conversion is still injective on workers
  (`Harvesting.ConversionIsInjective`); `Harvesting.ConversionOf` says where every coordinate converts to.
- *`grid_to_cores` lists places outside the grid when asked for more cores than it has* and its debug assertion is
  compiled out (`CoreOrder.ListsGridCoresIff`, with `CoreOrder.SecondCoreIsOutside`).

## Conventions

- `TT_FATAL`, `TT_THROW`, Python's `assert` and index errors are the `Fatal` result. `TT_ASSERT` is compiled out of
  release builds, so the model does not rely on it: where a release build would go on with wrapped 32-bit values the
  model wraps too (`BlockFloat.Decode`), and it is proved that on packed data the assertions hold.
- The order on `CoreCoord` that `std::set<CoreRange>` uses is any strict total order, a parameter of `merge`. Hashed
  containers are walked in any order.
- UMD's descriptor is taken to be well formed (`Harvesting.WellFormed`): worker cores are the crossings of the worker
  rows and columns, harvested rows are worker rows, and logical rows and columns name the others one to one. Whether the
  rows in the mask are worker rows is left open. `Harvesting.SocDescriptor.Generate` is called once, on a new object, as
  the constructor of the source calls it.
- `hide` statements only keep definitions out of the solver's way.

## Model

| member | source | states |
|---|---|---|
| CoreRanges.IntersectsIffSharedCell | tt_metal/common/core_coord.cpp:51-58 | two rectangles intersect exactly when some cell is in both |
| CoreRanges.IntersectionIsMeet | tt_metal/common/core_coord.cpp:60-70 | the intersection stands for the common cells; there is none exactly when there are none |
| CoreRanges.AdjacentIffTouchingAndApart | tt_metal/common/core_coord.cpp:72-78 | adjacent exactly when no cell is shared and two cells touch along a side |
| CoreRanges.ContainsIffSubset | tt_metal/common/core_coord.cpp:85-88 | containment of rectangles is inclusion of their cells |
| CoreRanges.MergeIsUnion | tt_metal/common/core_coord.cpp:100-115 | when two rectangles merge, the result stands for the union of their cells |
| CoreRanges.MergeIffUnionIsRectangle | tt_metal/common/core_coord.cpp:100-115 | two rectangles make up a rectangle exactly when they merge or one holds the other |
| CoreRanges.MergeIff | tt_metal/common/core_coord.cpp:100-115 | they merge exactly when they make up a rectangle and agree in both sides along one axis, so not where one holds the other with other sides |
| CoreRanges.SizeIsCardinality | tt_metal/common/core_coord.cpp:119-121 | the size is the number of cells |
| CoreRangeSets.Construct | tt_metal/common/core_coord.cpp:203-206 | construction throws exactly when some cell is claimed by two of the rectangles |
| CoreRangeSets.NumCores | tt_metal/common/core_coord.cpp:387-393 | adds up to the number of cells the set covers |
| CoreRangeSets.TotalSizeIsCardinality | tt_metal/common/core_coord.cpp:387-393 | sizes of disjoint rectangles add up to the number of covered cells |
| CoreRangeSets.ContainsCoord | tt_metal/common/core_coord.cpp:319-326 | true exactly for covered cells |
| CoreRangeSets.IntersectsSet | tt_metal/common/core_coord.cpp:298-305 | true exactly when a cell is covered by both sets |
| CoreRangeSets.ContainsRangeByCounting | tt_metal/common/core_coord.cpp:328-347 | counting down the sizes of the intersections decides inclusion of cells; the unsigned count never underflows |
| CoreRangeSets.ContainsSetByCounting | tt_metal/common/core_coord.cpp:349-369 | the same for a set of rectangles, with the early exit inside two loops |
| CoreRangeSets.IntersectionOfSets | tt_metal/common/core_coord.cpp:307-317 | never throws, covers the common cells, and lists the pairwise intersections in the order of the first set and then of the second |
| CoreRangeMerge.BlockThrough | tt_metal/common/core_coord.cpp:240-271 | every covered cell is in a block |
| CoreRangeMerge.BlockUnique | tt_metal/common/core_coord.cpp:240-271 | blocks that share a cell are equal |
| CoreRangeMerge.Paint | tt_metal/common/core_coord.cpp:231-237 | the grid is marked exactly at the cells of the rectangles, and its spare column is not |
| CoreRangeMerge.JoinsIffRests | tt_metal/common/core_coord.cpp:253-266 | a row run merges with a rectangle of the rows above exactly when it rests under it with equal sides |
| CoreRangeMerge.RowRuns | tt_metal/common/core_coord.cpp:242-251 | scanning one row of marks yields the maximal runs of that row, each once |
| CoreRangeMerge.JoinRun | tt_metal/common/core_coord.cpp:253-266 | one run joins every rectangle it merges with; both sides of each join are put in the filter |
| CoreRangeMerge.AbsorbRow | tt_metal/common/core_coord.cpp:253-271 | one iteration turns the blocks of the rows above into the blocks of the rows up to this one |
| CoreRangeMerge.Rebuild | tt_metal/common/core_coord.cpp:240-271 | before each row the set holds the blocks of the rows above, so at the end it holds the blocks of all the marked cells |
| CoreRangeMerge.MergeRanges | tt_metal/common/core_coord.cpp:212-274 | the result is the canonical cover of all the cells of both arguments, overlapping or not, listed by start corners, which no two of its rectangles share; the constructor never throws |
| CoreRangeMerge.CanonicalCovers | tt_metal/common/core_coord.cpp:231-273 | the result covers exactly the cells that went in |
| CoreRangeMerge.CanonicalIsReduced | tt_metal/common/core_coord.cpp:212-274 | no two rectangles of the result can be merged any further |
| CoreRangeMerge.MergeDependsOnCells | tt_metal/common/core_coord.cpp:212-274 | two merges are structurally equal exactly when their arguments cover the same cells |
| CoreRangeMerge.MergeLaws | tt_metal/common/core_coord.cpp:212-274 | merge is commutative, associative and idempotent |
| CoreOrder.IndexOfCoreAt | tt_metal/common/core_coord.cpp:448-456 | the i-th core of the grid in fill order has place i, in both orders |
| CoreOrder.GridToCores | tt_metal/common/core_coord.cpp:439-458 | lists the first places of the grid in fill order, also past its last core |
| CoreOrder.ListsGridCoresIff | tt_metal/common/core_coord.cpp:442-456 | all of them are cores of the grid exactly when there are no more of them than the grid has |
| CoreOrder.SecondCoreIsOutside | tt_metal/common/core_coord.cpp:442-456 | two cores asked of a 1x1 grid, the second outside it |
| CoreOrder.RangeToCores | tt_metal/common/core_coord.cpp:460-481 | lists a rectangle line by line |
| CoreOrder.ListedIsCells | tt_metal/common/core_coord.cpp:460-481 | the listing has every cell of the rectangle, once |
| CoreOrder.CoreRangesToCores | tt_metal/common/core_coord.cpp:525-547 | lists the rectangles one after the other, or the first max_cores of that listing |
| CoreOrder.NoDuplicatesIffDisjoint | tt_metal/common/core_coord.cpp:407-423 | a listing repeats no core exactly when the rectangles do not overlap |
| WorkSplit.AlignedIsStretch | tt_metal/common/work_split.cpp:106-141 | part of a line, or whole lines, are consecutive cores of the fill order |
| WorkSplit.FillRows | tt_metal/common/work_split.cpp:106-124 | at most three rectangles that list the target cores from the start on, row by row, no two of which could be joined |
| WorkSplit.FillCols | tt_metal/common/work_split.cpp:125-142 | the same column by column |
| WorkSplit.NumCoresToCoreRangeSet | tt_metal/common/work_split.cpp:78-144 | succeeds exactly when the start is in the grid and enough cores follow it; at most three disjoint rectangles, no two of which could be joined, list exactly the target cores from the start on, in order |
| WorkSplit.NumCoresFromOrigin | tt_metal/common/work_split.cpp:146-149 | succeeds exactly for grids with enough cores; lists the first target cores of the grid, in rectangles no two of which could be joined |
| WorkSplit.ListBothWays | tt_metal/common/core_coord.cpp:525-547 | from (0, 0), flattening the rectangles gives what `grid_to_cores` gives, core for core |
| WorkSplit.StretchAsCells | tt_metal/common/work_split.cpp:78-144 | as a set: the target cells at the places from the start on |
| WorkSplit.RestByRows | tt_metal/common/work_split.cpp:290-310 | the rectangles list what is left of the grid after the last core of the first group, row by row; no two could be joined |
| WorkSplit.RestByCols | tt_metal/common/work_split.cpp:311-332 | the same column by column |
| WorkSplit.SecondGroup | tt_metal/common/work_split.cpp:287-334 | when the units do not divide evenly, the second group lists the cores of the grid after the first group |
| WorkSplit.SplitWorkToCores | tt_metal/common/work_split.cpp:268-339 | succeeds for every grid with cores; the split is fair: min(units, cores) cores, the groups one after the other, shares that differ by one, none for an empty group; no two rectangles of a group could be joined |
| WorkSplit.SplitPartitionsCores | tt_metal/common/work_split.cpp:268-339 | the groups are disjoint and together all the cores, and cores times shares add up to the units |
| SubGrids.ProcessRowWise | tt_metal/common/work_split.cpp:173-206 | appends the cores given, in order, except a lone core, as at most three rectangles of the sub-grid that could not be joined; counts what remains |
| SubGrids.ProcessColWise | tt_metal/common/work_split.cpp:208-241 | the same column by column |
| SubGrids.NumCoresInSubGrids | tt_metal/common/work_split.cpp:151-266 | succeeds exactly when the target is positive and enough cores are met from the start core on; the result lists the cores asked for that are not lost, in parts of the sub-grids, no two of one sub-grid joinable |
| SubGrids.SurvivorsAre | tt_metal/common/work_split.cpp:184-189 | what is not lost is what is not the lone core of a one-wide sub-grid |
| SubGrids.AllocationIsExact | tt_metal/common/work_split.cpp:151-266 | the result is the first target cores met, and has that many cells, exactly when no core asked for is lost |
| SubGrids.WideSubGridsAreExact | tt_metal/common/work_split.cpp:151-266 | sub-grids at least two wide in the fill direction lose nothing |
| SubGrids.LoneCoreIsLost | tt_metal/common/work_split.cpp:203-205 | two cores asked for, one returned |
| BlockFloat.GetMaxExp | tt_metal/common/blockfloat_common.hpp:17-44 | the largest exponent of the row, saturated for five-bit exponents |
| BlockFloat.ShiftsRoundHalfUp | tt_metal/common/blockfloat_common.hpp:132-155 | the two shifts with the half unit added between them round half up at the shared scale |
| BlockFloat.Saturated | tt_metal/common/blockfloat_common.hpp:108-126 | exponent and fraction, rebiased to five bits and saturated for the formats with a five-bit exponent |
| BlockFloat.ShiftDown | tt_metal/common/blockfloat_common.hpp:132-142 | shifting down in steps of 31 is one shift by the whole difference |
| BlockFloat.ConvertU32ToBfp | tt_metal/common/blockfloat_common.hpp:87-163 | the datum is the sign and the rounded, clamped mantissa, zero for a mantissa of zero; `BlockFloatExact` says in plain numbers which bits that keeps |
| BlockFloat.QuantisationBound | tt_metal/common/blockfloat_common.hpp:128-162 | on the encoder's own scale, where every nonzero input has a hidden one and is saturated: the mantissa is within half a unit, or less than one unit below when clamped |
| BlockFloat.QuantisationMonotone | tt_metal/common/blockfloat_common.hpp:87-163 | an input whose bits below the sign are no smaller never gets a smaller mantissa |
| BlockFloat.NearestEvenIff | tt_metal/common/blockfloat_common.hpp:149-155 | the mantissa is the one rounded to nearest even exactly when the input is not halfway above an even number of units |
| BlockFloat.HalfRoundsUp | tt_metal/common/blockfloat_common.hpp:149-151 | halfway between 64 and 65 units the nearest even mantissa is 64, and the encoder makes it 65 |
| BlockFloat.ConvertBfpToU32 | tt_metal/common/blockfloat_common.hpp:165-265 | the normalising loop finds the unique shift that sets the top bit, with 32-bit wrap-around of the exponent |
| Requantise.DecodedFields | tt_metal/common/blockfloat_common.hpp:165-265 | the decoded sign, exponent field and significand; with a hidden one they would make up the datum's number |
| Requantise.ShiftCountSafe | tt_metal/common/blockfloat_common.hpp:217-253 | an encoded mantissa needs no more normalising shifts than its input was shifted down |
| Requantise.EncodeOfDecode | tt_metal/common/blockfloat_common.hpp:87-265 | encoding a decoded datum gives the datum, or zero when the decoded word is zero |
| Requantise.LostIffVanishes | tt_metal/common/blockfloat_common.hpp:87-265 | a datum decodes to the zero word exactly when its input is a small denormal |
| Requantise.RequantiseScalar | tt_metal/common/blockfloat_common.hpp:87-265 | encode, decode, encode is encode exactly when the input is not lost |
| BlockFloatTiles.CreatePackedWord | tt_metal/common/blockfloat_common.hpp:268-287 | a word holds its data in order, the first in the low bits |
| BlockFloatTiles.PackExponents | tt_metal/common/blockfloat_common.hpp:56-76 | four exponents to a word, the first in the low byte |
| BlockFloatTiles.ReadRow | tt_metal/common/blockfloat_common.hpp:337-350 | reads the sixteen elements of a face row in either layout |
| BlockFloatTiles.PackRow | tt_metal/common/blockfloat_common.hpp:365-372 | the words of a face row, each the next data in order |
| BlockFloatTiles.PackTile | tt_metal/common/blockfloat_common.hpp:330-395 | appends one tile: exponents, padded to the alignment where they are few, then data |
| BlockFloatTiles.Pack | tt_metal/common/blockfloat_common.hpp:290-398 | the packed tiles, one after the other, each its exponent section then its data section |
| BlockFloatTiles.PackedAt | tt_metal/common/blockfloat_common.hpp:330-395 | each tile takes the words at its multiple of the tile size |
| BlockFloatUnpack.DecodeLane | tt_metal/common/bfloat8.hpp:192-242 | a lane that always runs every normalising step decodes like the scalar decoder |
| BlockFloatUnpack.DecodeWord | tt_metal/common/bfloat8.hpp:184-242 | every lane decodes its own datum of the word |
| BlockFloatUnpack.IndicesOf | tt_metal/common/bfloat8.hpp:168-189 | the decoder's index arithmetic finds the row's exponent byte and data word |
| BlockFloatUnpack.Locate | tt_metal/common/bfloat8.hpp:168-189 | the same for the computation itself, with the shifts and masks of both decoders |
| BlockFloatUnpack.DecodeGroupBfp8 | tt_metal/common/bfloat8.hpp:166-252 | one iteration decodes eight data of a face row and finds where they are stored |
| BlockFloatUnpack.DecodeGroupBfp4 | tt_metal/common/bfloat4.hpp:105-240 | the same for sixteen data, four bits each |
| BlockFloatUnpack.RankOfPlace | tt_metal/common/bfloat8.hpp:244-251 | the decoder writes no position twice |
| BlockFloatUnpack.PlaceOfRank | tt_metal/common/bfloat8.hpp:244-251 | the decoder writes every position |
| BlockFloatUnpack.UnpackBfp8 | tt_metal/common/bfloat8.hpp:109-257 | every element is the scalar decoding of the datum at its face row and column |
| BlockFloatUnpack.UnpackBfp4 | tt_metal/common/bfloat4.hpp:36-245 | the same with eight data to a word |
| BlockFloatRoundTrip.RoundTrip | tt_metal/common/blockfloat_common.hpp:289-398 | with any two layouts, an unpacked element is the input at the same face row and column, quantised with the largest exponent of that row |
| BlockFloatRoundTrip.RoundTripInPlace | tt_metal/common/bfloat8.hpp:109-257 | with equal layouts every element comes back, quantised, at its own position |
| BlockFloatRoundTrip.PackedTiles | tt_metal/common/blockfloat_common.hpp:289-398 | the packed length is the number of tiles times the tile size |
| BlockFloatRoundTrip.PackedDataPassesAsserts | tt_metal/common/blockfloat_common.hpp:217-253 | on packed data the decoder's assertion never fails |
| BlockFloatRoundTrip.RoundTripError | tt_metal/common/blockfloat_common.hpp:128-265 | on the encoder's own scale: the decoded element keeps its sign and is within half a unit of its input, or less than one when clamped |
| BlockFloatExact.WordsAreFull | tt_metal/common/blockfloat_common.hpp:94-97 | sign and mantissa take 2, 4 and 8 bits, so that 16, 8 and 4 data fill a word, and 1, 2 and 4 words a face row |
| BlockFloatExact.TileInWords | tt_metal/common/blockfloat_common.hpp:330-395 | a tile is four exponents to a word, in at least four words, and its face rows |
| BlockFloatExact.ReturnsExactlyIff | tt_metal/common/blockfloat_common.hpp:87-265 | a word comes back bit for bit exactly when it is zero, or its exponent is in the range of the format and its significand is a multiple of 2^23 (Bfp2), 2^21 (Bfp4) or 2^17 (Bfp8) for an exponent equal to the shared one, and of twice that for each step below it |
| BlockFloatExact.ElementReturnsIff | tt_metal/common/blockfloat_common.hpp:289-398 | the same for every element of packed and unpacked tiles, under the exponent of its face row |
| BlockFloatExact.SevenQuarters | tt_metal/common/blockfloat_common.hpp:87-163 | 1.75 under exponent 127 is the Bfp4 datum 7 and comes back; Bfp2 does not return it |
| RealValues.DecodeExact | tt_metal/common/blockfloat_common.hpp:165-265 | the decoded word denotes the datum's number exactly when its exponent field is that of a normal number; at zero it denotes twice the part above the hidden one |
| RealValues.EncodesNearIff | tt_metal/common/blockfloat_common.hpp:87-163 | for every finite input, the datum denotes a number within half a unit of it, or less than one below when clamped, exactly under a condition on its exponent field, fraction and the shared exponent |
| RealValues.ReturnsNearIff | tt_metal/common/blockfloat_common.hpp:87-265 | the same for the word that comes back: zeros, numbers of the exponent range short of an overflow, and the denormals and small numbers that happen to be near |
| RealValues.NormalsReturnNear | tt_metal/common/blockfloat_common.hpp:87-265 | zeros, and inputs with exponent field 1 to 254, or 112 to 143 for 5-bit exponents, are encoded and come back near themselves |
| RealValues.DatumDecodesToZero | tt_metal/common/blockfloat_common.hpp:236-265 | 64 units under exponent 0 decode to zero |
| RealValues.DenormalIsRaised | tt_metal/common/blockfloat_common.hpp:128-162 | 2^-149 under shared exponent 7 becomes 2^-126 |
| RealValues.LargeNumberSaturates | tt_metal/common/blockfloat_common.hpp:112-126 | 2^20 becomes 130048 in a format with 5-bit exponents |
| RealValues.LargestBecomesInfinite | tt_metal/common/blockfloat_common.hpp:149-262 | the largest finite number becomes an infinity under exponent 255 |
| BlockFloatRoundTrip.SharedExpStable | tt_metal/common/blockfloat_common.hpp:17-44 | the shared exponent of a row is found again after a round trip |
| BlockFloatRoundTrip.RequantiseStable | tt_metal/common/blockfloat_common.hpp:289-398 | packing what was unpacked gives the packed words again exactly when no element is lost |
| BlockFloatRoundTrip.NormalsAreKept | tt_metal/common/blockfloat_common.hpp:17-44 | zero and normal inputs are never lost |
| BlockFloatRoundTrip.DenormalIsLost | tt_metal/common/blockfloat_common.hpp:290-398 | a 32x32 tile of zeros with the smallest denormal is packed to other words once it has been unpacked |
| Tilize.TilizeBuffer | tt_metal/common/tilize_untilize.hpp:10-69 | succeeds exactly for sizes that pass the checks; the buffer becomes the closed-form block, tile, face, row, column permutation of the input |
| Tilize.UntilizeBuffer | tt_metal/common/tilize_untilize.hpp:72-136 | the same with the opposite permutation |
| Tilize.PlacesInverse | tt_metal/common/tilize_untilize.hpp:10-136 | the two index maps undo each other and stay within the buffer |
| Tilize.RoundTrips | tt_metal/common/tilize_untilize.hpp:10-136 | untilize after tilize, and tilize after untilize, give the buffer back |
| Im2col.ConvertAct2dMatrix | models/utility_functions.py:397-429 | exactly when it does not fail; row oh * OW + ow of matrix n holds what the filter covers there, by filter row, filter column, channel |
| Im2col.ConvertWeights2dMatrix | models/utility_functions.py:376-394 | exactly when it does not fail (index errors of the given shape, and the transposition of numpy arrays); column k holds output channel k in the same order; the running index ends at the array size |
| Im2col.RangeLength | models/utility_functions.py:418-419 | the loop's range has as many members as the output length computed up front |
| Im2col.CopyWindow | models/utility_functions.py:421-428 | one place of the filter fills consecutive entries in the order row, column, channel |
| Im2col.CopyRow | models/utility_functions.py:419-428 | the places along one row of the activation fill consecutive rows of the matrix |
| Im2col.SizeOfMatrix | models/utility_functions.py:407-428 | the number of iterations is the array size exactly under the condition of success |
| Im2col.ProductIsConvolution | models/utility_functions.py:376-429 | the product of a row and a column is the zero-padded strided convolution |
| StrideFold.PadAndFoldActivation | models/utility_functions.py:994-1024 | exactly when it does not fail; the four sides of the folded array, and each of its entries as the entry of the zero-padded activation at its sub-plane, channel and place |
| StrideFold.PadAndFoldFilter | models/utility_functions.py:1027-1065 | the same for the filter, with zeros from the fifth sub-plane on; fails for stride one on any filter that is not empty |
| StrideFold.SetChannels | models/utility_functions.py:1020-1022 | a slice assignment writes the channels of one position, or fails where an index or the slice does not fit |
| StrideFold.FoldPlanes | models/utility_functions.py:1056-1064 | the folding loops succeed exactly when every index fits, and leave the folded tensor |
| StrideFold.FoldingKeepsConvolution | models/utility_functions.py:994-1065 | the stride-1 convolution of the folded tensors is the strided one with the taps that folding keeps |
| StrideFold.FoldingKeepsLength | models/utility_functions.py:994-1065 | along an axis, folding keeps the length of the result |
| StrideFold.FoldedArraysMatch | models/utility_functions.py:994-1065 | the two folded arrays have equally many channels, and their stride-1 convolution has the size of the strided one |
| StrideFold.StrideTwoIsExact | models/utility_functions.py:994-1065 | with stride two every entry of the convolution is preserved |
| StrideFold.ExactIffNothingDropped | models/utility_functions.py:1056-1064 | with any stride from two, all convolutions are preserved exactly when the filter is zero at the dropped sub-positions |
| StrideFold.StrideThreeDropsMiddle | models/utility_functions.py:1056-1064 | a 3 by 3 filter with its middle tap alone is not preserved by stride 3 |
| StrideFold.FoldFilterWithStrideOne | models/utility_functions.py:1056-1064 | folding a filter that is not empty with stride 1 fails |
| Harvesting.MaskRowsAreBits | tt_metal/common/metal_soc_descriptor.cpp:238-247 | a row is removed exactly when its bit is set in the mask |
| Harvesting.SocDescriptor.RowsToRemove | tt_metal/common/metal_soc_descriptor.cpp:238-247 | the loop that shifts the mask collects those rows |
| Harvesting.WithoutIsAscending | tt_metal/common/metal_soc_descriptor.cpp:273-280 | skipping removed rows while walking the worker rows in order lists the remaining ones in order |
| Harvesting.SocDescriptor.KeepVirtual | tt_metal/common/metal_soc_descriptor.cpp:221-236 | without a remap the maps are identities on the worker rows and columns |
| Harvesting.SocDescriptor.CollectRows | tt_metal/common/metal_soc_descriptor.cpp:263-269 | collects the worker rows, and maps every worker column to itself |
| Harvesting.SocDescriptor.SkipRemoved | tt_metal/common/metal_soc_descriptor.cpp:276-278 | moves the iterator to the next row that was not removed, before the end |
| Harvesting.SocDescriptor.RemapRows | tt_metal/common/metal_soc_descriptor.cpp:272-294 | pairs the remaining physical rows with UMD's routing rows and the removed ones with the harvested ones, both ways, without running past the end; every worker row has a physical row |
| Harvesting.SocDescriptor.RemapCores | tt_metal/common/metal_soc_descriptor.cpp:296-311 | the lists hold each crossing of a worker column with a remaining, and with a removed, row once; the map holds those crossings, harvested exactly in removed rows, and UMD's other cores, where the two coincide one of them |
| Harvesting.CoresWhenContained | tt_metal/common/metal_soc_descriptor.cpp:296-311 | when every removed row is a worker row, the cores are UMD's own, with those of removed rows harvested and the other workers not |
| Harvesting.SocDescriptor.Generate | tt_metal/common/metal_soc_descriptor.cpp:218-317 | throws exactly when the mask and UMD disagree on the number of rows, and then has set nothing; otherwise the maps and lists are as above and the sizes of the closing check agree |
| Harvesting.ClosingSizes | tt_metal/common/metal_soc_descriptor.cpp:313-316 | the sizes compared at the end agree |
| Harvesting.RowMapIsBijectionIff | tt_metal/common/metal_soc_descriptor.cpp:272-294 | the physical to virtual row map is a bijection on the worker rows exactly when every removed row is one |
| Harvesting.RowsKeepTheirOrder | tt_metal/common/metal_soc_descriptor.cpp:272-294 | logical rows are routed upwards to the lowest worker rows that were not removed, with no gap; the removed rows are renamed upwards to the rows of UMD's harvested cores |
| Harvesting.RemoveRowOutside | tt_metal/common/metal_soc_descriptor.cpp:272-294 | a mask that names a third row of a chip with two: the remap succeeds, and is no bijection |
| Harvesting.LogicalCoresAreWorkers | tt_metal/common/metal_soc_descriptor.cpp:116-127 | for any mask of the right number of rows, a logical core lands on a worker core in a row that was not removed, and converts to UMD's own routing entry; outside the grid the lookup fails |
| Harvesting.UnremappedIsIdentity | tt_metal/common/metal_soc_descriptor.cpp:221-236 | without a mask, or on Grayskull, conversion changes nothing and logical cores are where UMD routes them |
| Harvesting.ConversionIsInjective | tt_metal/common/metal_soc_descriptor.cpp:207-216 | for any mask of the right number of rows, conversion of worker cores is injective, keeps columns, and sends harvested cores, and no others, to UMD's harvested rows |
| Harvesting.ConversionReachesAll | tt_metal/common/metal_soc_descriptor.cpp:207-216 | when every removed row is a worker row, every worker core of UMD is converted to |
| Harvesting.ConversionOf | tt_metal/common/metal_soc_descriptor.cpp:207-216 | for any mask of the right number of rows, every coordinate: crossings of worker columns with physical rows have their row translated, UMD's cores that are not Tensix cores convert to themselves, one of the two where both apply, and anything else fails |
| Harvesting.SocDescriptor.IsHarvestedCore | tt_metal/common/metal_soc_descriptor.cpp:52-59 | true exactly for listed cores |
| MeshTraversal.GetLineCoordinates | tt_metal/distributed/mesh_device_view.cpp:193-214 | succeeds exactly when the length fits between the offset and the end of the last row; the closed form of the snake |
| MeshTraversal.LineIsSimplePath | tt_metal/distributed/mesh_device_view.cpp:193-214 | a line is in bounds, repeats no coordinate, and consecutive ones are neighbours |
| MeshTraversal.LineIsHamiltonian | tt_metal/distributed/mesh_device_view.cpp:193-214 | from (0, 0) the full line visits every coordinate once |
| MeshTraversal.WholeLineFitsIff | tt_metal/distributed/mesh_device_view.cpp:261-265 | a line as long as the mesh is large fits exactly from (0, 0) |
| MeshTraversal.GetRingCoordinates | tt_metal/distributed/mesh_device_view.cpp:216-253 | throws exactly when the sub-grid is out of bounds; the closed form of the ring, and of the flat walk for a shape without rows or columns |
| MeshTraversal.RingIsBoundaryCycle | tt_metal/distributed/mesh_device_view.cpp:216-253 | visits exactly the boundary cells, each once, along neighbours, clockwise from the first corner, and closes when both sides exceed one, with length 2(R + C) - 4 |
| MeshTraversal.RingVisitsAllIff | tt_metal/distributed/mesh_device_view.cpp:216-253 | visits every cell exactly when a side is at most two |
| Submeshes.MeshDeviceView.GetDevice | tt_metal/distributed/mesh_device_view.cpp:59-67 | the first device listed with that coordinate, none exactly when there is none |
| Submeshes.FindDeviceInvertsIff | tt_metal/distributed/mesh_device_view.cpp:154-169 | in a view of a region of a mesh, looking up the id at a coordinate and then its coordinate comes back everywhere exactly when ids are distinct |
| Submeshes.LookupsSucceedIff | tt_metal/distributed/mesh_device_view.cpp:154-169 | in a view of a region, a coordinate has an id exactly within the region's shape, and an id a coordinate exactly when a device has it |
| Submeshes.IdsWithinExtent | tt_metal/distributed/mesh_device_view.cpp:162-169 | in any view, looking up an id throws past the extent between the corners, and past the end of the list of devices; otherwise it is the id of the device at that place of the list |
| Submeshes.MeshDeviceView.GetDevicesFromCoordinates | tt_metal/distributed/mesh_device_view.cpp:14-23 | the first device at each coordinate that has one, in order; in a view of a region with distinct ids, the devices at those places |
| Submeshes.MeshDeviceView.GetLineDevices | tt_metal/distributed/mesh_device_view.cpp:261-265 | fails exactly when the top left corner is not (0, 0); otherwise the devices met along the line, for every kind of view |
| Submeshes.MeshDeviceView.GetRingDevices | tt_metal/distributed/mesh_device_view.cpp:267-270 | the same for the ring |
| MappedViews.CreateMappedView | tt_metal/distributed/mesh_device_view.cpp:171-191 | fails exactly when the mapper has no coordinate for a device; the corners are the least and greatest rows and columns, and each id has its mapped coordinate |
| MappedViews.LineFromSecondRow | tt_metal/distributed/mesh_device_view.cpp:261-265 | the line through one device mapped to (1, 0) does not fit |
| MappedViews.FindsBackEverywhereIff | tt_metal/distributed/mesh_device_view.cpp:154-169 | in any view the lookup comes back everywhere exactly when the device listed at each place of the extent has that place's coordinate |
| MappedViews.MappedLookupInvertsIff | tt_metal/distributed/mesh_device_view.cpp:154-191 | in a mapped view that is when enough devices are listed and the mapper sends device i to (i / cols, i % cols) |
| MappedViews.ListedOutOfOrder | tt_metal/distributed/mesh_device_view.cpp:162-169 | two devices with distinct ids listed in the other order: the lookup at (0, 0) does not come back |
| MappedViews.MetAre | tt_metal/distributed/mesh_device_view.cpp:14-23 | the devices met at some coordinates are the first ones listed there, each once where no coordinate repeats |
| MappedViews.LineMeetsFirsts | tt_metal/distributed/mesh_device_view.cpp:261-265 | the line through a view that starts at (0, 0) meets the first device at each coordinate, once |
| MappedViews.LineMeetsAllIff | tt_metal/distributed/mesh_device_view.cpp:261-265 | it meets every device exactly when no two share a coordinate |
| MappedViews.RingMeetsFirsts | tt_metal/distributed/mesh_device_view.cpp:267-270 | the ring meets the first device at each boundary coordinate, once |
| MappedViews.MappedIsWithin | tt_metal/distributed/mesh_device_view.cpp:171-191 | the devices of a mapped view that starts at (0, 0) are within its extent |
| Submeshes.LineDevicesAreAll | tt_metal/distributed/mesh_device_view.cpp:261-265 | the line meets every device of the grid once |
| Submeshes.MeshDevice.CreateView | tt_metal/distributed/mesh_device_view.cpp:37-48 | fails exactly when the mesh has no device for a place of the region; otherwise a view of the region's devices |
| Submeshes.MeshDevice.CreateSubmesh | tt_metal/distributed/mesh_device.cpp:294-337 | succeeds exactly for positive shapes that fit; the new mesh holds the region's devices and is appended to the submeshes |
| Submeshes.MeshDevice.CreateSubmeshRow | tt_metal/distributed/mesh_device.cpp:342-345 | one row of submeshes up to the first that `create_submesh` rejects; there is one only when the mesh does not split |
| Submeshes.MeshDevice.CreateSubmeshes | tt_metal/distributed/mesh_device.cpp:339-348 | never throws exactly when the sides divide and no device is missing (or there is nothing to split); the submeshes row by row; where it throws, those before the first rejected one stay with the mesh |
| Submeshes.SubmeshesPartition | tt_metal/distributed/mesh_device.cpp:339-348 | every device is in one submesh at one place, and every place of a submesh is a device's home |
| Submeshes.RegionAt | tt_metal/distributed/mesh_device.cpp:380-398 | device (r, c) of a region is the whole's device at the offset plus (r, c) |
| Submeshes.NestedSubmesh | tt_metal/distributed/mesh_device.cpp:294-337 | a submesh of a submesh is a submesh of the whole, at the sum of the offsets |

## Left out

- Device, cluster and UMD access, YAML and JSON, logging, profiling, mutexes, hashing, mesh ids and registration with the
  system mesh: input, output or library calls.
- Machine widths of sizes and counters: `uint32_t`, `size_t` and `int` positions are unbounded naturals, except where
  wrap-around decides a result (the decoder's exponent). Float values are bit patterns; Python's float divisions of
  sizes are exact quotients.
- A harvesting mask with bit 31 set: the signed shift of the source would never reach zero. The model's mask is any
  natural number.
- Ring shapes with a side of zero at offset zero: the source's last row or column wraps around and the walk does not end.
  A mesh with rows but no columns split by a shape without rows: the source would not stop either.
- Negative paddings and strides of the convolution helpers, and negative sides of a weight shape.
- An activation without rows whose padded width the stride does not divide folds, but
  `StrideFold.FoldingKeepsConvolution` asks for both padded sides to be divisible.
- L1 alignment is fixed at 16 bytes and faces are 16 wide, as on all supported chips; truncating instead of rounding
  mantissas (`truncate_bfp_mantissa`) is not part of this model, which takes its default.
- `bounding_box`, `grid_to_cores_with_noop`, iterators, relative coordinates, row and column views, divisor helpers: easy
  members.
- A coordinate mapper gives coordinates that fit `size_t`. A mapped view of no devices has corners at the largest and the
  smallest `size_t`, and a number of rows that wraps around in the source; line and ring lookups in it are not part of
  this model.
- `blocked_mm_with_conv_act`, buffers, kernels, programs and data-format tables: they rest on code outside these files or
  are finite case tables.
