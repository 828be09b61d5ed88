# Verification of Vitruvian's graphics helpers and command-line tools

This project models algorithms of the bundled Anti-Grain Geometry headers (`headers/libs/agg`) and of several
command-line tools (`src/bin`, `src/tools`) and proves what they are for.

- **Stack blur** (`StackBlurTables`, `StackBlur`, `StackBlurImage`, `StackBlurAnyRadius`): three running sums and a
  ring buffer refine a triangular convolution with repeated borders, in place, and the table division is tight.
- **Arrays and memory** (`QuickSort`, `SortedArray`, `PodBVector`, `BlockAllocator`): an iterative quicksort on a fixed
  stack, sorted insertion and duplicate removal, a deque of blocks, an arena allocator.
- **Lines and ellipses** (`DdaLine`, `EllipseBresenham`, `ClipSegment`): exact error-term invariants, connectivity, and
  a geometric theorem on segment clipping over the reals.
- **Glyph cache** (`FontCache`): table, pool and manager over every run, and exactly when they answer like the engine.
- **Pixels and paths** (`AlphaMask`, `MulOne`, `PathCommands`, `ClosePolygon`, `VcgenAdaptor`): clipped spans against
  single lookups, rounding, and two stream machines.
- **Tools** (`Chop`, `Comm`, `FindPath`, `BestPath`, `ExecParser`, `ExecLines`, `ExecTokens`, `UrlDecode`,
  `ResourceWriter`): a round trip, a merge, a recursive search with its pipeline, two parsers, and a resource writer.

`Basics` holds the shared option type and arithmetic. Code that changes state is a class or a method over arrays, with a
specification function beside it; the lemmas are about those functions. `dafny verify dfyconfig.toml` checks everything.

Where the code differs from what its documentation or its name suggests, the code is modelled and the exact condition is
proved:

- `chop` loses the last byte of a file for the sizes of `Chop.LosesLastByte` (chop.c:200-207 uses an inclusive end), and
  does not truncate the chunk files it writes to (chop.c:214). `Chop.ChopThenUnchop` says when a file comes back.
- `FindPath` puts a direct hit in front of whatever it has found before (translate.cpp:421-427), so the "best path" can be
  neither a path nor the best (`FindPath.SearchCanBreak`). `BestPath.CleanExactly` says on which rosters that cannot
  happen, and `BestPath.BestExactly` that there, and only there, the best path is found for all qualities that are not
  negative. `FindPath.UnfairPipeline` says what is written otherwise.
- `pod_vector::resize` is documented as keeping the content, and never makes the vector longer (agg_array.h:242-258).
- `dda2` `--` needs the two adjust calls to undo `++` (`DdaLine.BareDecrementUndoes`).
- `conv_close_polygon` closes a figure twice when the source has closed it (`ClosePolygon.ClosedTwice`).
- `font_cache` sees only 16 bits of a glyph code, and its manager only the engine's change stamp.
  `FontCache.TransparentExactly` says which runs get the engine's answers.
- `exec` means to refuse a second command, but counts words line by line. Behind the first word, a line may have one word
  that no line break ends, or none if the line break in front of it ended an argument; a word that a line break ends is
  never refused (`ExecLines.RefusedExactly`, `ExecLines.ScriptExactly`).
- `block_allocator` truncates addresses to 32 bits before it aligns them (agg_array.h:832-833), which is right for every
  address exactly when the alignment divides 2^32 (`BlockAllocator.PaddingAlwaysAligns`).
- `blur_x` overflows its 32-bit sums from radius 4104 on (`StackBlurAnyRadius.ExactUpToLimit`).

## Model

| member | source | states |
|---|---|---|
| `StackBlur.BlurStrip` | headers/libs/agg/agg_blur.h:388-445 | One row or column blurred in place holds, at every column, the table division of the direct triangle sum over the clamped neighbourhood of the ORIGINAL pixels; nothing off the strip changes |
| `StackBlur.TriangleStep` | headers/libs/agg/agg_blur.h:419-442 | Moving the triangle by one column changes its sum by exactly the incoming and outgoing windows that `sum_in` and `sum_out` hold, for every line, column (borders included) and radius |
| `StackBlur.RegistersStep` | headers/libs/agg/agg_blur.h:419-442 | One turn of the loop keeps ring, `sum`, `sum_in` and `sum_out` equal to the windows around the next column |
| `StackBlur.RingAdvance` | headers/libs/agg/agg_blur.h:421-438 | Overwriting the oldest slot and turning the ring by one makes it hold the 2r+1 clamped source pixels around the next column |
| `StackBlur.FillRing` | headers/libs/agg/agg_blur.h:390-413 | The two filling loops leave ring and sums exactly as the main loop needs them at column 0, also when the row is shorter than the radius |
| `StackBlur.StoreAndRead` | headers/libs/agg/agg_blur.h:416-430 | The store to column x happens before the next source pixel is read and cannot disturb it; the border repeats |
| `StackBlur.BlurredIsWeightedMean` | headers/libs/agg/agg_blur.h:416 | The stored value is the weighted mean rounded down, or one more |
| `StackBlur.BlurredIsTableDivision` | headers/libs/agg/agg_blur.h:416 | Exactly: the stored value is the sum times the table multiplier, shifted right by the table shift |
| `StackBlur.BlurredStaysInRange` | headers/libs/agg/agg_blur.h:416 | No stored value leaves the range of the line's own pixels, for any bounds |
| `StackBlur.BlurredFixesConstantRows` | headers/libs/agg/agg_blur.h:416 | A constant row is a fixed point of the blur at every radius |
| `StackBlurTables.TablesAreTight` | headers/libs/agg/agg_blur.h:44-84 | All 255 table entries: mul is above 256 and at most 512, and the least number for which mul/2^shr is not below 1/(r+1)^2; it exceeds that by less than one part in 255, and 255*(r+1)^2*mul stays below 2^32 |
| `StackBlurTables.TablesAreUnique` | headers/libs/agg/agg_blur.h:44-84 | No other multiplier of that size and shift would be the least one: the condition determines both tables |
| `StackBlurTables.PowerRadiusIsExact` | headers/libs/agg/agg_blur.h:416 | Where r + 1 is a power of two the multiplier is 512 and the division is exact, for every sum |
| `StackBlurTables.ReciprocalIsQuotient` | headers/libs/agg/agg_blur.h:44-84 | For every radius up to 254 and every sum of 8-bit pixels, multiply-and-shift gives the exact quotient or one more, never above 255 |
| `StackBlurTables.ReciprocalStaysBetween` | headers/libs/agg/agg_blur.h:416 | A sum that lies between lo and hi times the total weight is divided to a value between lo and hi, and the product does not wrap in 32 bits |
| `StackBlurTables.ShiftedIsPow2` | headers/libs/agg/agg_blur.h:66-84 | The divisor used for each table shift is that power of two |
| `StackBlurImage.StackBlurGray8` | headers/libs/agg/agg_blur.h:354-514 | The whole image, with row stride: every row of the intermediate image is the blurred row of the original, every column of the result the blurred column of the intermediate; radius 0 skips its pass, radii above 254 count as 254, bytes between the rows stay |
| `StackBlurImage.PaddingIs` | headers/libs/agg/agg_blur.h:354-514 | Bytes behind the end of a row or of the image keep their values |
| `StackBlurImage.ColumnPixels` | headers/libs/agg/agg_blur.h:354-514 | The same for a column pass |
| `StackBlurImage.RowPixels` | headers/libs/agg/agg_blur.h:354-514 | In pixels: a row pass stores at (x, y) the blurred value of row y at x |
| `StackBlurImage.OtherRowsKept` | headers/libs/agg/agg_blur.h:388-444 | Replacing one row of an image with stride changes no other row and nothing beside the image |
| `StackBlurImage.OtherColumnsKept` | headers/libs/agg/agg_blur.h:456-512 | The same for a column |
| `StackBlurImage.RowStep` | headers/libs/agg/agg_blur.h:388-444 | Blurring row y keeps the earlier rows blurred and the later rows untouched |
| `StackBlurImage.ColumnStep` | headers/libs/agg/agg_blur.h:456-512 | The same for columns |
| `StackBlurImage.AddressUnique` | headers/libs/agg/agg_blur.h:392 | Distinct pixels of an image whose stride is at least its width have distinct addresses |
| `StackBlurImage.BlurKeepsBounds` | headers/libs/agg/agg_blur.h:354-514 | Bounds on all pixels survive both passes; with equal bounds a constant image is a fixed point |
| `StackBlurAnyRadius.BlurX` | headers/libs/agg/agg_blur.h:96-182 | `blur_x` with its line buffer, for every radius below 65535: every row of the image becomes the stored values of the triangle sums of the original row, and nothing beside the image changes |
| `StackBlurAnyRadius.BlurY` | headers/libs/agg/agg_blur.h:185-189 | The same for every column, on the transposed image |
| `StackBlurAnyRadius.Blur` | headers/libs/agg/agg_blur.h:192-197 | Rows, then columns of the intermediate image; up to radius 254 that is the in-place 8-bit blur with both radii equal |
| `StackBlurAnyRadius.BlurStripX` | headers/libs/agg/agg_blur.h:135-180 | One row: all pixels are read before the buffer is copied back |
| `StackBlurAnyRadius.TableRadius` | headers/libs/agg/agg_blur.h:120-124 | Up to radius 254 `blur_x` and the 8-bit functions store the same value |
| `StackBlurAnyRadius.ExactUpToLimit` | headers/libs/agg/agg_blur.h:153-154 | From radius 255 on the exact mean is stored for all lines if and only if the radius is at most 4103 |
| `StackBlurAnyRadius.WhiteLine` | headers/libs/agg/agg_blur.h:153-154 | Past that radius a white line overflows its 32-bit sum and comes out darker |
| `QuickSort.Sort` | headers/libs/agg/agg_array.h:919-1021 | For every strict weak order and every array of fewer than 2^31 elements: a sorted rearrangement, with an explicit stack that is a real array of 80 slots, and no read outside the segment |
| `QuickSort.Partition` | headers/libs/agg/agg_array.h:942-975 | The unguarded scans stay inside the segment and leave a pivot with nothing greater before it and nothing smaller behind it |
| `QuickSort.MedianOfThree` | headers/libs/agg/agg_array.h:942-960 | The samples are the elements behind `base`, in the middle and at the end; their median ends up at `base` and the others at its sides, as guards for the scans |
| `QuickSort.InsertionSort` | headers/libs/agg/agg_array.h:994-1008 | Sorts a short segment in place by rearrangement of that segment only |
| `QuickSort.AfterPartition` | headers/libs/agg/agg_array.h:977-990 | Pushing the larger part and going on with the smaller keeps the loop invariant, and the total length of open segments falls |
| `QuickSort.AfterPop` | headers/libs/agg/agg_array.h:1009-1019 | When a short segment has been sorted, the popped one is the next open segment; with an empty stack the whole array is sorted |
| `QuickSort.DepthBound` | headers/libs/agg/agg_array.h:977-990 | Because each pushed segment is at least half of what was left, a long segment never sits 28 or more deep, whatever the array |
| `SortedArray.BinarySearchPos` | headers/libs/agg/agg_array.h:1059-1081 | The place found separates what may not stand before the value from what may not stand behind it; it is the upper bound, except that a value equivalent to the last element gets that element's place |
| `SortedArray.InsertionKeepsSorted` | headers/libs/agg/agg_array.h:301-313 | Inserting at a place keeps a sorted array sorted if and only if the place is one the search may return, and adds exactly that element |
| `SortedArray.PodVector.InsertAt` | headers/libs/agg/agg_array.h:301-313 | The memmove and store insert one element; positions past the end append |
| `SortedArray.PodVector.Resize` | headers/libs/agg/agg_array.h:242-258 | Keeps the content, but reaches the size asked for exactly when that is not larger: the size is never raised |
| `SortedArray.RemoveDuplicates` | headers/libs/agg/agg_array.h:1030-1045 | The array's front becomes the elements that differ from their left neighbour in the original; the tail stays as it was |
| `SortedArray.DeduplicatedIsStrict` | headers/libs/agg/agg_array.h:1027-1045 | On a sorted array the result is strictly ascending and has one element of every class, taken from the array |
| `SortedArray.FirstsKept` | headers/libs/agg/agg_array.h:1027-1045 | For any array and any comparison: the first element of every run of equal neighbours is kept, and the runs keep their order |
| `PodBVector.PodBVector.Add` | headers/libs/agg/agg_array.h:653-658 | Appends to the sequence; existing blocks, and with them all elements, stay where they are |
| `PodBVector.PodBVector.RemoveLast` | headers/libs/agg/agg_array.h:662-666 | Drops the last element; nothing on an empty deque |
| `PodBVector.PodBVector.ModifyLast` | headers/libs/agg/agg_array.h:670-675 | Replaces the last element; appends to an empty deque |
| `PodBVector.PodBVector.CutAt` | headers/libs/agg/agg_array.h:374-377 | Cuts the sequence, never lengthens it |
| `PodBVector.PodBVector.FreeTail` | headers/libs/agg/agg_array.h:531-547 | Cuts the sequence and gives up exactly the blocks no element needs |
| `PodBVector.PodBVector.AllocateBlock` | headers/libs/agg/agg_array.h:614-636 | A new block at the end; old blocks and content unchanged; the pointer table grows by its increment when it is full |
| `PodBVector.PodBVector.AllocateContinuousBlock` | headers/libs/agg/agg_array.h:679-705 | A granted range lies inside one block and leaves what was there: it starts at the end if it fits there, and otherwise at the next block; refused exactly for a block or more |
| `PodBVector.PodBVector.Copy` | headers/libs/agg/agg_array.h:575-592 | The copy has the content of the original in blocks of its own |
| `PodBVector.PodBVector.Assign` | headers/libs/agg/agg_array.h:596-611 | After assignment both deques hold the source's content; own blocks are kept and extended |
| `PodBVector.PlaceBelow` | headers/libs/agg/agg_array.h:639-649 | An index is below the capacity of n blocks exactly when its block number is below n |
| `PodBVector.PlacesDiffer` | headers/libs/agg/agg_array.h:391-399 | Distinct indices are distinct places |
| `PodBVector.EnoughBlocks` | headers/libs/agg/agg_array.h:531-547 | Rounded-up division gives just enough blocks |
| `BlockAllocator.ServeAll` | headers/libs/agg/agg_array.h:826-856 | Over every sequence of requests no two answers share a byte, and every answer whose alignment divides 2^32, or that lies below 2^32, is aligned |
| `BlockAllocator.BlockAllocator.Allocate` | headers/libs/agg/agg_array.h:826-856 | Returns a range inside a block that is disjoint from all given before: the free rest and its padding if that fits, else the newest block and its padding; the recursion ends for any addresses and alignment, because the slack of the newest block grows at each failed one; the block it adds first has room for the request and its padding |
| `BlockAllocator.ServedAligned` | headers/libs/agg/agg_array.h:832-838 | An answer is aligned exactly when the part of the address above 32 bits, from which the padding was counted, is; always if the alignment divides 2^32 |
| `BlockAllocator.BlockAllocator.AllocateBlock` | headers/libs/agg/agg_array.h:858-884 | A new block, of the size asked for or of the block size if that is larger, becomes current; the others stay |
| `BlockAllocator.PaddingAligns` | headers/libs/agg/agg_array.h:832-833 | The padding, computed from the address truncated to 32 bits, aligns the address exactly when the truncated part is aligned |
| `BlockAllocator.PaddingAlwaysAligns` | headers/libs/agg/agg_array.h:832-833 | It aligns every address if and only if the alignment divides 2^32 |
| `BlockAllocator.HighAddressMisaligned` | headers/libs/agg/agg_array.h:832-833 | Address 2^32 and alignment 3: no padding, and no multiple of 3 |
| `ClipSegment.ClipLineSegment` | headers/libs/agg/agg_clip_liang_barsky.h:270-327 | Over exact reals, for every segment and box: 4 is returned if and only if not both ends are inside and segment and box meet in at most one point; otherwise the result is exactly the visible part in the same direction, and the low bits tell which ends moved |
| `ClipSegment.ClipMovePoint` | headers/libs/agg/agg_clip_liang_barsky.h:233-263 | Moves a point of the line to the x bound and then the y bound it is outside of; gives up exactly when it would divide by zero |
| `ClipSegment.PullsDefined` | headers/libs/agg/agg_clip_liang_barsky.h:302-325 | Neither early exit of `clip_move_point` is reachable from `clip_line_segment` |
| `ClipSegment.PulledEnds` | headers/libs/agg/agg_clip_liang_barsky.h:302-325 | Pulling both ends in along x and then y gives exactly the parameters inside the box, or sends both ends to one point when there are none |
| `ClipSegment.PullBoth` | headers/libs/agg/agg_clip_liang_barsky.h:233-263 | Along one axis, pulling both ends in leaves exactly the parameters within the bounds and keeps their order |
| `ClipSegment.PullMiss` | headers/libs/agg/agg_clip_liang_barsky.h:284-296 | Two ends outside on the same side mean that everything between is outside |
| `ClipSegment.FlagsAreSides` | headers/libs/agg/agg_clip_liang_barsky.h:57-78 | The outcode bit tests say on which side of the box each coordinate lies |
| `DdaLine.ForwardLine` | headers/libs/agg/agg_dda_line.h:95-109 | After k steps y is less than one unit from the true line, after `count` steps it is y2, and the state is the initial one again but for y |
| `DdaLine.BackwardLine` | headers/libs/agg/agg_dda_line.h:112-125 | The backward-adjusted line descends with the same accuracy and reaches y1 - (y2 - y1) |
| `DdaLine.NoCount` | headers/libs/agg/agg_dda_line.h:95-109 | With a count of 0 or less every step moves by one less than the whole difference |
| `DdaLine.StartsInPlace` | headers/libs/agg/agg_dda_line.h:95-125 | Both constructors establish their invariant |
| `DdaLine.NextKeeps` | headers/libs/agg/agg_dda_line.h:159-168 | `++` keeps cnt*(y-y1) + mod = k*(y2-y1) + rem - cnt with -cnt < mod <= 0 |
| `DdaLine.PrevKeeps` | headers/libs/agg/agg_dda_line.h:171-180 | `--` keeps the mirrored invariant on a backward-adjusted line |
| `DdaLine.AdjustedDecrementUndoes` | headers/libs/agg/agg_dda_line.h:171-192 | `adjust_backward`, `--`, `adjust_forward` undoes `++` in every reachable state |
| `DdaLine.BareDecrementUndoes` | headers/libs/agg/agg_dda_line.h:159-180 | Without the adjustments `--` undoes `++` exactly when the `++` carried |
| `DdaLine.BareDecrementFails` | headers/libs/agg/agg_dda_line.h:159-180 | A line rising by 1 in 2 steps on which it does not |
| `DdaLine.Dda2LineInterpolator.StepBack` | headers/libs/agg/agg_dda_line.h:171-192 | The method form of the undo: the state before the last `++` is restored |
| `DdaLine.WalkLands` | headers/libs/agg/agg_dda_line.h:231-263 | The Bresenham walk starts on the first pixel and after `len` steps is on the last; a walk with steps ends exactly on the far subpixel coordinate |
| `DdaLine.WalkFollowsMajorAxis` | headers/libs/agg/agg_dda_line.h:231-263 | A walk steps along the axis on which the pixels are farther apart, along x on a tie, as often as they are apart and towards the second point |
| `DdaLine.WalkConnected` | headers/libs/agg/agg_dda_line.h:231-263 | Each step moves the major pixel by exactly one and the minor pixel by at most one: the line is 8-connected |
| `DdaLine.MinorConnected` | headers/libs/agg/agg_dda_line.h:231-263 | The interpolated pixel changes by at most one per step whenever the whole line moves it by no more pixels than steps |
| `EllipseBresenham.RunStandsExactly` | headers/libs/agg/agg_ellipse_bresenham.h:34-95 | Over every run `m_cur_f` equals the ellipse form at the current point and is least in absolute value among the three neighbours of the point before |
| `EllipseBresenham.ReachesAxis` | headers/libs/agg/agg_ellipse_bresenham.h:34-95 | For radii of at least 1 the walk is on the axis for the first time after at most rx + ry steps, and until then it stays in the quarter, with the form never farther from zero than half the sum of its two steepest changes |
| `EllipseBresenham.StepStaysInQuarter` | headers/libs/agg/agg_ellipse_bresenham.h:49-95 | One step above the axis stays in the quarter and within that distance, and gets on |
| `EllipseBresenham.NextStands` | headers/libs/agg/agg_ellipse_bresenham.h:49-95 | One step keeps the increments and the form exact and picks a neighbour of least absolute error |
| `EllipseBresenham.NextChoice` | headers/libs/agg/agg_ellipse_bresenham.h:49-95 | The diagonal neighbour is taken if it is strictly better than both others, and otherwise the better one of these, the right one on a tie |
| `EllipseBresenham.EllipseBresenhamInterpolator.Increment` | headers/libs/agg/agg_ellipse_bresenham.h:49-95 | The method does that on its fields, and steps right, down or diagonally |
| `FontCache.Serve` | headers/libs/agg/agg_font_cache_manager.h:270-390 | Every run of glyph requests, engine changes to any stamp and signature, and resets, with any capacity, is answered as by the pool on values: each slot of a font by the request that filled it first in the font's life, fonts replaced oldest first |
| `FontCache.TransparentExactly` | headers/libs/agg/agg_font_cache_manager.h:157-185 | Every run is answered as by the engine, for every engine, if and only if requests that go to the same font in the same life and agree modulo 65536 are the same request |
| `FontCache.CollisionShows` | headers/libs/agg/agg_font_cache_manager.h:75-118 | An engine that renders no two requests alike gets a wrong answer on any run with such a collision, from any reachable pool |
| `FontCache.Transparent` | headers/libs/agg/agg_font_cache_manager.h:279-305 | Without a collision every engine is answered as it would answer itself, from any pool whose slots hold what was asked for in their font's life |
| `FontCache.NoneShareIsDirect` | headers/libs/agg/agg_font_cache_manager.h:279-305 | If a stamp is never used for two signatures and no two different codes of the run agree modulo 65536, the answers are the engine's |
| `FontCache.SteadyExactly` | headers/libs/agg/agg_font_cache_manager.h:75-118 | A run without engine changes and cache resets is answered as by the engine, for every engine, if and only if no two different codes of it agree modulo 65536 |
| `FontCache.Manager.Glyph` | headers/libs/agg/agg_font_cache_manager.h:279-305 | Hit or miss, the glyph is the engine's for the request that filled the slot in the font of the present stamp, and a miss that renders fills it; nothing else changes in the pool; `prev` and `last` move on |
| `FontCache.Manager.Synchronize` | headers/libs/agg/agg_font_cache_manager.h:382-390 | After a stamp change the font of the present signature is selected in the pool and `prev`/`last` are cleared; otherwise nothing is forgotten |
| `FontCache.Manager.ResetCache` | headers/libs/agg/agg_font_cache_manager.h:363-368 | The current font is fresh and `prev`/`last` refer to nothing |
| `FontCache.FontPool.SelectFont` | headers/libs/agg/agg_font_cache_manager.h:157-185 | Signatures stay distinct; a known font is kept, or replaced on reset; a new one is added at the end, and a full pool loses exactly its oldest font |
| `FontCache.Font.CacheGlyph` | headers/libs/agg/agg_font_cache_manager.h:86-118 | Fills an empty slot and changes no other lookup; an occupied slot is not overwritten |
| `FontCache.SlotsAreKeys` | headers/libs/agg/agg_font_cache_manager.h:75-82 | Two codes share a slot of the two-level table exactly when they agree modulo 65536 |
| `FontCache.StoredLookup` | headers/libs/agg/agg_font_cache_manager.h:86-118 | Storing changes the lookup of the codes of that slot and of no others |
| `FontCache.WrongGlyphs` | headers/libs/agg/agg_font_cache_manager.h:75-82 | Code 65536 gets the glyph of code 0; and a stamp that comes back with another signature gets the glyphs of the old one |
| `Chop.ChopThenUnchop` | src/bin/chop.c:178-246 | chop and then unchop, beside any stale chunk files: if these add nothing, the file comes back if and only if its size is not one that loses its last byte and needs no more chunks than unchop tries; for such sizes it comes back if and only if stale files add nothing; when a byte is lost it is exactly the last |
| `Chop.ChopThenUnchopClean` | src/bin/chop.c:178-246 | Without stale files the file comes back if and only if its size is such |
| `Chop.ChopFile` | src/bin/chop.c:178-246 | Files 0..n-1 hold the kept bytes in chunk-size pieces of which only the last may be short and none is empty, each written over what the file held, whose longer end stays; other files are untouched |
| `Chop.DoChop` | src/bin/chop.c:125-174 | Refuses a file smaller than a chunk and an existing chunk 00, leaving the disk alone; otherwise chops, whatever other chunk files are there |
| `Chop.AfterRead` | src/bin/chop.c:200-208 | The inclusive end pointer: a block with one byte left counts as used up, and when nothing follows, that byte is the file's last and is lost |
| `Chop.AfterWrite` | src/bin/chop.c:223-240 | A write fills the chunk or uses up the block and keeps the loop invariant |
| `Chop.OnlyOneAboveAKilobyte` | src/bin/chop.c:199-208 | Only sizes one above a whole number of kilobytes lose a byte |
| `Chop.DefaultSizeLoses` | src/bin/chop.c:199-208 | With the default chunk size, 1400K + 1 bytes is such a size |
| `Chop.UnchopOfChop` | src/bin/unchop.c:84-114 | Joining what chop wrote gives all that was kept, as far as the numbering reaches, and nothing more if and only if no stale file is longer than its piece and no bytes follow the last piece |
| `Chop.DoUnchop` | src/bin/unchop.c:84-114 | Appends the numbered files from 0 to the first that is missing |
| `Chop.AppendFile` | src/bin/unchop.c:118-132 | Appends the whole input, a block at a time |
| `Comm.Compare` | src/bin/comm.c:124-168 | For any two files and any choice of columns the loop prints the selected part of the merge |
| `Comm.SelectExactly` | src/bin/comm.c:124-212 | A line is shown exactly if the flag of its column is set, and the lines shown keep their order |
| `Comm.Show` | src/bin/comm.c:173-179 | Prints the buffered line and the rest of the file in one column |
| `Comm.FirstFileReproduced` | src/bin/comm.c:124-168 | Columns 1 and 3 are the first file line for line, sorted or not |
| `Comm.SecondFileReproduced` | src/bin/comm.c:124-168 | Columns 2 and 3 are the second file up to lines that collate alike |
| `Comm.SortedCounts` | src/bin/comm.c:143-167 | On sorted files each class of lines is in column 3 as often as both files have it, and in columns 1 and 2 as often as one has it in excess |
| `Comm.SortedOutput` | src/bin/comm.c:124-168 | Sorted files are printed in sorted order across the columns |
| `FindPath.FindPath` | src/bin/translate.cpp:347-451 | The outer search returns what the search function says for the detected format; an empty list of translators is success without a path |
| `FindPath.Search` | src/bin/translate.cpp:385-450 | The recursive search terminates on every roster, restores `typesSeen` exactly, sets the path on success only, and finds what the search function says |
| `FindPath.FoundInAnyOrder` | src/bin/translate.cpp:397-406 | The answer of the search does not depend on the order of a translator's input formats |
| `FindPath.TypeList.Remove` | src/bin/translate.cpp:139-142 | Removes the first occurrence and nothing else |
| `FindPath.FoundPath` | src/bin/translate.cpp:385-450 | A found path is nonempty, ends in the target and avoids the input type; with the target only at its end it is a chain of the roster's translators, and it has it only there exactly when no direct hit was put in front of an earlier find |
| `FindPath.DirectHit` | src/bin/translate.cpp:421-427 | A direct hit goes in front of whatever was found before, so the path stays clean exactly when nothing was |
| `BestPath.CleanExactly` | src/bin/translate.cpp:389-442 | With translators, types and groups of a roster fixed, the path found has the target only at its end for every choice of qualities, if and only if in every frame a format of the target type comes before all candidates that lead to the target |
| `BestPath.HitsFirstIsFair` | src/bin/translate.cpp:415-439 | On such a roster no direct hit is ever put in front of an earlier find, whatever the qualities |
| `BestPath.UnfairQualities` | src/bin/translate.cpp:421-438 | On any other roster there are qualities, none negative, with which the search does that |
| `BestPath.SearchTranslates` | src/bin/translate.cpp:303-343 | On such a roster search and pipeline together write the composition of a chain of translators from the input's type to the target |
| `BestPath.FindsTheBest` | src/bin/translate.cpp:382-450 | On such a roster, without negative qualities, a path is found if and only if there is a route from the input type to the target without repeated types, where a translator takes a type that stands anywhere among its input formats; the path is such a route, its quality the product of the qualities and capabilities along it, and worth at least as much as every such route |
| `BestPath.BestExactly` | src/bin/translate.cpp:382-450 | And this holds for every choice of qualities that are not negative, if and only if in every frame a format of the target type comes before all other ways to it |
| `BestPath.FrameKeepsTheBest` | src/bin/translate.cpp:415-439 | In any frame the quality kept is the greatest of the last direct hit and all later candidates, so it is the best if and only if no candidate in front of that hit is worth more |
| `BestPath.FrameTakesAll` | src/bin/translate.cpp:385-442 | A frame of the search leaves what taking the offers of its candidates in turn leaves |
| `BestPath.ReachedIsFound` | src/bin/translate.cpp:429-438 | Without negative qualities the search finds something exactly when the types, groups and translators lead to the target |
| `BestPath.FairFindIsWalk` | src/bin/translate.cpp:429-438 | A path found without such an insertion is a walk of the search, and the quality found is the product along it |
| `BestPath.WalksAreSimple` | src/bin/translate.cpp:413-417 | The search walks exactly the routes that repeat no type and enter none seen above |
| `BestPath.BadRosterIsLate` | src/bin/translate.cpp:421-427 | The roster that breaks the search violates the condition |
| `FindPath.SearchCanBreak` | src/bin/translate.cpp:229-258 | A roster without a direct translation, so that the program searches, on which the search answers 4, 3, 2, 3: no chain, and worth less than 4, 2, 3, which it found first |
| `FindPath.RunPath` | src/bin/translate.cpp:312-340 | The two swapped buffers and the output file compute the pipeline function |
| `FindPath.CleanPipeline` | src/bin/translate.cpp:312-340 | Along a path with the target only at its end the alternating buffers compute the composition of the translations |
| `FindPath.UnfairPipeline` | src/bin/translate.cpp:312-340 | Along a path through the target, with any steps before it and a clean path behind it: the output receives the translation into the target, and behind it what the rest makes of the other buffer, which is empty after at most one step and otherwise holds what the last step before the target read; it fails exactly when one of these translations fails |
| `FindPath.Indirectly` | src/bin/translate.cpp:303-343 | Without a path nothing is written; with one the output is the pipeline's |
| `ExecParser.RoundTrip` | src/tools/exec.c:64-199 | Parsing the quoted form of any argument list does exactly what handing the arguments over one by one would, for all lists and environments |
| `ExecParser.PlainRoundTrip` | src/tools/exec.c:78-199 | If the first nonempty argument has no `=`, the nonempty arguments come back exactly and the environment is untouched |
| `ExecParser.AssignmentExactly` | src/tools/exec.c:106-158 | A first argument NAME=VALUE, for every name without `=` and every value: taken as it is without a `$`; refused if a `$` is not its first character, or is not followed by NAME and then by no letter or digit, or if NAME is not set; otherwise the old value stands in place of `$NAME` |
| `ExecParser.ExpansionRoundTrip` | src/tools/exec.c:139-149 | NAME=$NAME followed by anything that starts with no letter or digit sets NAME to its old value followed by that, and the other arguments come back |
| `ExecParser.AssignmentRoundTrip` | src/tools/exec.c:106-158 | A leading NAME=VALUE sets the environment and never reaches the arguments |
| `ExecParser.Parse` | src/tools/exec.c:64-199 | The loop with its growing buffers computes the parsing function; every write and the terminating null entry fit |
| `ExecParser.CharBuffer.Append` | src/tools/exec.c:19-32 | Appends within the buffer, growing it by 32 when needed, and moves only to fresh memory |
| `ExecParser.ArgVector.Push` | src/tools/exec.c:160-172 | Adds an argument and the null entry behind it within the vector, growing it by 8 when needed |
| `ExecParser.ParseQuotedInto` | src/tools/exec.c:36-61 | Reads up to the matching quote, taking the character after a backslash as it is; an unmatched quote is an error |
| `ExecParser.QuotedBack` | src/tools/exec.c:36-61 | The quoted reader inverts the escaping of quotes and backslashes |
| `ExecLines.ParseExactly` | src/tools/exec.c:78-199 | For every command string and environment: the outcome is what its words mean on one line, where leading assignments set the environment, unless some line is refused as a second command, or the quoting fails |
| `ExecLines.RefusedExactly` | src/tools/exec.c:82-100 | A command string is refused as several commands if and only if its leading assignments pass and, without them, some line behind a word has more words that no line break ends than 0, if the line break in front of it ended an argument, or 1, if it did not |
| `ExecLines.ParseIsRun` | src/tools/exec.c:80-199 | The loop over the characters does what running its lines of words one after the other does, from every state |
| `ExecLines.RunBehind` | src/tools/exec.c:90-100 | Behind the first argument, from every state, which lists of lines are refused, and what the others leave |
| `ExecLines.RunFront` | src/tools/exec.c:88-158 | In front of the first argument: blank lines are skipped, assignments and the line breaks behind them are counted for nothing but the room they leave |
| `ExecLines.ScriptExactly` | src/tools/exec.c:64-199 | Lines of quoted arguments, of which the first is no assignment, are refused if and only if some line behind the first argument has more arguments, without the last one in front of a line break, than 0, if the line in front of it ends in an argument, or 1; otherwise exactly the nonempty arguments come back |
| `ExecLines.LexScript` | src/tools/exec.c:36-61 | Reading such a script gives back its lines |
| `ExecTokens.EverySpellingIsParsed` | src/tools/exec.c:36-199 | However a command string is written, with characters bare, behind backslashes or between quotes of either kind, blanks of either kind and joined lines, it is parsed like the quoted form of the lines of arguments that its tokens mean |
| `ExecTokens.SameTextSameOutcome` | src/tools/exec.c:36-61 | A piece of a word may be written with any other tokens of the same text, anywhere in any command string, and the outcome stays the same |
| `ExecTokens.JoinedLines` | src/tools/exec.c:185-189 | A backslash and a line break between any two tokens are as good as nothing |
| `ExecTokens.SlashedOrQuoted` | src/tools/exec.c:179-194 | A character that needs no backslash means the same behind one and between quotes of either kind, anywhere in any command string |
| `ExecTokens.QuotesInOrderExactly` | src/tools/exec.c:36-61 | The reading of a command string fails for its quotes if and only if the string is not written from tokens with at most one more backslash at its end |
| `ExecLines.SeveralCommandsSlipThrough` | src/tools/exec.c:82-100 | Refused: `a` and `b` on two lines, `a` with a space behind it and `b c`, and `a`, `b c` and an end of line. Accepted: a word behind white space and a line break, behind an assignment and a line break, and any number of lines of one word that each end in a line break |
| `AlphaMask.Mask.FillHSpan` | headers/libs/agg/agg_alpha_mask_u8.h:98-145 | A row span holds `pixel` at every position, whatever part of it lies off the mask; nothing else changes |
| `AlphaMask.Mask.CombineHSpan` | headers/libs/agg/agg_alpha_mask_u8.h:148-197 | A row span holds `combine_pixel` of its old covers at every position; nothing else changes |
| `AlphaMask.Mask.FillVSpan` | headers/libs/agg/agg_alpha_mask_u8.h:200-246 | The same fill along a column |
| `AlphaMask.Mask.CombineVSpan` | headers/libs/agg/agg_alpha_mask_u8.h:249-298 | The same combination along a column |
| `AlphaMask.Clip` | headers/libs/agg/agg_alpha_mask_u8.h:117-138 | The clipping zeroes exactly the positions off the mask and leaves a run whose positions are exactly those on it |
| `AlphaMask.Scaled` | headers/libs/agg/agg_alpha_mask_u8.h:82-94 | The cover product is v * m / 256 rounded up; it never exceeds either factor, and a full cover on either side is neutral |
| `ClosePolygon.CloseConverter.NextVertex` | headers/libs/agg/agg_conv_close_polygon.h:62-119 | Each call delivers the next command of the closed stream and leaves the rest to come |
| `ClosePolygon.CloseConverter.Rewind` | headers/libs/agg/agg_conv_close_polygon.h:51-56 | After a rewind the whole closed stream is to come |
| `ClosePolygon.VerticesKept` | headers/libs/agg/agg_conv_close_polygon.h:62-119 | Without closing commands and stops the stream is the source's vertices in order |
| `ClosePolygon.CommandsKept` | headers/libs/agg/agg_conv_close_polygon.h:62-119 | What comes out for every source command, in its place: an `end_poly` with its flags and the close flag, a vertex as it is, nothing for other commands, and a close in front of a move, a stop or the end exactly if the subpath has drawn something |
| `ClosePolygon.OpenAtIs` | headers/libs/agg/agg_conv_close_polygon.h:62-119 | The subpath has drawn something exactly if a drawing command stands before, with no move or stop between |
| `ClosePolygon.EveryEndCloses` | headers/libs/agg/agg_conv_close_polygon.h:78-82 | Every `end_poly` that leaves the converter carries the close flag |
| `ClosePolygon.ClosingKeepsEndPoly` | headers/libs/agg/agg_conv_close_polygon.h:78-82 | Setting the flag keeps the command and all other bits |
| `ClosePolygon.NoSubpathLeftOpen` | headers/libs/agg/agg_conv_close_polygon.h:84-118 | Between a drawing command and any later move or stop stands an `end_poly` with the close flag |
| `ClosePolygon.ClosedTwice` | headers/libs/agg/agg_conv_close_polygon.h:78-112 | Two closing commands are neighbours exactly when a source `end_poly` behind a drawing command stands right before a move, a stop or the end, or two source `end_poly` are neighbours |
| `ClosePolygon.ClosedTriangleClosedTwice` | headers/libs/agg/agg_conv_close_polygon.h:78-112 | A triangle that is closed already is closed again |
| `PathCommands.KindIsVertex` | headers/libs/agg/agg_basics.h:393-396 | `is_vertex` accepts exactly the moves and the drawing commands, and no `end_poly` |
| `PathCommands.KindsInNumbers` | headers/libs/agg/agg_basics.h:368-480 | The kinds of commands in numbers, for all 32-bit commands |
| `VcgenAdaptor.Adaptor.NextVertex` | headers/libs/agg/agg_conv_adaptor_vcgen.h:89-152 | Each call delivers the next vertex of what the generator makes of the source's figures, in order |
| `VcgenAdaptor.Adaptor.ScanFigure` | headers/libs/agg/agg_conv_adaptor_vcgen.h:109-137 | The inner loop feeds the generator the figure's vertices and stops at the right command |
| `VcgenAdaptor.EachVertexFedOnce` | headers/libs/agg/agg_conv_adaptor_vcgen.h:94-140 | Every known source command before the stop reaches the generator once and in order, the first as a move to its own coordinates; only the start is repeated, and only behind an `end_poly` |
| `VcgenAdaptor.FiguresWellShaped` | headers/libs/agg/agg_conv_adaptor_vcgen.h:102-137 | A figure is a move, then drawing commands, then at most one `end_poly`; behind an `end_poly` the next figure has the same start |
| `MulOne.MulRoundsToNearest` | headers/libs/agg/agg_basics.h:227-234 | For shifts 1 to 16 and all fractions, the product is a*b/(2^n-1) rounded to nearest, without ties and without 32-bit overflow |
| `MulOne.MulUnits` | headers/libs/agg/agg_basics.h:227-234 | Full cover is neutral, zero absorbs |
| `UrlDecode.UrlString.DecodeUrlString` | src/bin/urlwrapper.cpp:582-599 | The in-place edits compute one decoding pass over the original string, up to a terminator |
| `UrlDecode.DecodesEveryEncoding` | src/bin/urlwrapper.cpp:582-599 | Decoding inverts every percent-encoding (section 2.1 of RFC 3986), whatever was escaped and in either letter case |
| `UrlDecode.EscapesInLetters` | src/bin/urlwrapper.cpp:582-599 | A percent sign and two digits, each in either letter case, is the octet of their values |
| `UrlDecode.OthersStay` | src/bin/urlwrapper.cpp:582-599 | Every other character stays, a percent sign without two digits behind it included |
| `UrlDecode.EncodesExactlyItsDecoding` | src/bin/urlwrapper.cpp:582-599 | A well-formed string encodes its decoding and no other string |
| `UrlDecode.RoundTrip` | src/bin/urlwrapper.cpp:582-599 | Every 8-bit string comes back from the encoder if the percent sign and the terminator are escaped |
| `ResourceWriter.Execute` | src/bin/xres.cpp:371-530 | After all commands every output file is untouched if nothing was ever added to it, and otherwise holds exactly the resources of the segment of its last attempt |
| `ResourceWriter.LastWriteWins` | src/bin/xres.cpp:462-488 | In a segment a key holds the resource of the last write that the patterns of its moment let through; a key without such a write is absent |
| `ResourceWriter.KeyInSegment` | src/bin/xres.cpp:123-127 | In the fields of keys and patterns: a key is in a segment exactly if some step of it adds the key and the inclusion pattern then in force, if any, is for it, and the exclusion pattern, if any, is not; a pattern without an id is for its type, one with an id for that id, the any-type for every type |
| `ResourceWriter.SettingsAreLatest` | src/bin/xres.cpp:391-460 | Output file and patterns in force are those of the last step that changed them |
| `ResourceWriter.WriteFileState.AddResource` | src/bin/xres.cpp:462-488 | One attempt keeps the state the one its steps lead to, accepted or not |
| `ResourceWriter.WriteFileState.SetOutput` | src/bin/xres.cpp:391-396 | Changing the output writes the old file first and starts an empty segment |
| `ResourceWriter.WriteFileState.ProcessInput` | src/bin/xres.cpp:398-446 | The resources of an input file are added in their order, each under the patterns in force |

## Left out

- 32-bit overflow in `dda2`, the Bresenham and ellipse interpolators, and `clip_line_segment`: coordinates are unbounded integers or reals.
- Floating-point and integer rounding in `clip_line_segment`: it is modelled over exact reals; `clip_liang_barsky`, which replaces zero differences by a tiny constant, is not modelled.
- The rgb24, rgba32 and generic colour variants of the stack blur, `recursive_blur`, and images with a negative stride: they repeat the gray8 code per component, or depend on rounding.
- StackBlurAnyRadius.BlurX: excludes radii from 65535 on, where the divisor itself wraps to 32 bits and can be 0; the same for `BlurY`, `Blur` and `BlurStripX`.
- StackBlurImage.StackBlurGray8: an image has at least one pixel and a stride of at least its width.
- `pod_array`, `pod_auto_array`, `invert_container`, `range_adaptor`: easy members.
- SortedArray.BinarySearchPos: excludes arrays of more than 2^31 elements, for which the 32-bit sum of the midpoint wraps.
- SortedArray.PodVector.InsertAt: does not model writing past the allocation, because the source leaves the room to its caller.
- SortedArray.PodVector.Resize: does not model the stale `m_capacity` handed to the deallocator.
- `pod_bvector`'s pointer table is a sequence with a capacity that grows by the increment; `serialize`, `deserialize`, `add_array` and `add_data` are not modelled.
- BlockAllocator.BlockAllocator.Allocate: requests have size + alignment of at most 2^32, because beyond that the 32-bit sum wraps; an alignment of 0 is excluded; that the system allocator returns new memory is built into its model.
- The glyph bytes that `write_glyph_to` fills in after a slot is taken: they are part of the record that is cached. `add_kerning`, `precache` and the adaptors are not modelled.
- FontCache.FontPool.SelectFont: a pool has room for at least one font.
- FontCache.Serve: the engine's stamp is never -1, which the manager uses for a cache that has seen none.
- Chop.ChopFile: reads and writes are complete, and sizes are unbounded integers.
- `valid_file`, option parsing and messages of `chop` and `unchop`, and file names.
- Comm.Compare: a line is a unit, without the limit of the line buffer; the collation, with or without `-i`, is any total preorder.
- FindPath.Search: the roster answers the same throughout a search; a translator whose formats cannot be had is passed over, as in the source.
- `Translator::Translate` (translate.cpp:215-275): the direct attempt that comes before the search is not modelled; `FindPath.Direct` says when it would succeed on a roster.
- FindPath.UnfairPipeline: what comes behind the first target is a path with the target at its end only.
- FindPath.FindPath: a roster that recognises the input has at least one translator.
- FindPath.RunPath: streams are contents; the position after `SetSize` and the output file's later truncation are not modelled.
- ExecParser.Parse: ends before `execvp`; reading past the terminator after a trailing backslash in quotes, and an undefined variable in an expansion, are modelled as errors.
- The mask functions of `alpha_mask_u8` and its pixel strides: a mask is its array of computed values. `amask_no_clip_u8` is not modelled.
- ClosePolygon.CloseConverter.NextVertex: coordinates of closing commands and stops are not compared, because the source leaves stale ones.
- VcgenAdaptor.Adaptor.NextVertex: a generator is any deterministic function of the vertices it was fed; markers are not modelled.
- MulOne.MulRoundsToNearest: shifts above 16 are excluded, because their products do not fit 32 bits.
- UrlDecode.UrlString.DecodeUrlString: `BString` is a string with a terminator behind it; a decoded terminator stays inside it.
- ResourceWriter.Execute: a failing file operation, which ends the program without writing the open output file, is not modelled; an input file is the list of its resources, fixed before the run, so a file that the same run wrote as an earlier output is not read back; and what the resource library does with executables is not part of this model.
- Argument parsing of `xres` and `translate`, and the listing mode of `xres`.
- Curves, arcs, gamma tables and other code whose meaning depends on the floating-point library, and the thin converter wrappers.
