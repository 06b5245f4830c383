# Freehand brush of the TEC label tool

This project models the freehand brush of the TEC map labelling tool
(`teclab/image_items.py`). A user labels a polar ionosphere map by drawing a
mask over it. The brush has two parts:

- **The disk kernel.** `HoverImage.setKernel` and `DrawingImage.setKernel` build
  a `size x size` brush. Its centre index is `c = int((size - 1) / 2)`. It covers
  the offsets `dx, dy` in `[-c, size - c)` with `dx*dx + dy*dy <= ((size - 1) / 2)^2`.
  The drawing item's paint kernel is 255 in one colour channel, and its mask
  repeats the disk in all three channels. The erase kernel is `kern * 0`.
- **The gap-filling drag state machine.** `DrawingImage.mouseClickEvent` and
  `DrawingImage.mouseDragEvent` install the paint kernel (left button) or the
  erase kernel (right button). Both stamp the pointer position. The drag
  handler also remembers it as the previous point. When the next drag sample
  leaves the previous point's row and column, the drag handler also stamps one
  pixel for each lattice point strictly between the two samples that passes a
  quadrant-specific slope-band test: the pixel one step back toward the previous
  point. The previous point is cleared when the drag finishes.

Modules:

- `Wrappers` (`wrappers.dfy`): `Option`.
- `BrushKernel` (`brush_kernel.dfy`): the centre index, the mask, the hover
  kernel, the drawing item's paint kernel and mask, and the erase kernel.
- `SlopeBand` (`slope_band.dfy`): the four-quadrant slope test, computed on exact
  rationals, and what it means. All four quadrant tests reduce to one integer
  condition, `|2(dx*Y - dy*X)| <= |dx| + |dy|`. That condition holds exactly when
  the segment from the previous point to the current one passes through the
  closed pixel square of the candidate.
- `GapFill` (`gap_fill.dfy`): the candidate meshgrid, the accepted indices in
  `np.where(result.T)` order, and the pixel stamped for each. It also holds a
  loop-based enumeration proved equal to the functional definition.
- `Drawing` (`drawing.dfy`): the item state (previous point and installed
  kernel), the click and drag handlers as pure step functions, and the replay of
  event sequences and whole gestures.
- `Raster` (`raster.dfy`): what one stamp does to the image. This is pyqtgraph's
  `drawAt` in its "set" mode with a mask, `image * (1 - mask) + kern * mask`,
  clipped to the image.

The code is modelled as written, including where the stamps land. The candidate
`(X, Y)` is signed by the direction of the move. The code stamps it at the
zero-based meshgrid index, `(prev_x + sx*(|X| - 1), prev_y + sy*(|Y| - 1))`: one
pixel back toward the previous point on each axis. `GapFill.StampCentresTrailSegment`
states this geometry exactly. `GapFill.ShiftedStampCanMissSegment` exhibits a
stamped pixel that the ideal segment does not cross.

Three behaviours of the code are easy to miss, and the model keeps all three:

- An accepted candidate is stamped one pixel back toward the previous point,
  as explained above (see "## Findings").
- `setKernel` accepts any size, including even sizes and 0 (an empty kernel).
- A drag whose first event is also its finish event keeps its point: the branch
  that stores the first point (lines 89-92) returns before the finish check.

## Model

Functions that compute (`SlopeBand.PassesBand`, `GapFill.StampCentres`,
`GapFill.IntendedStampCentres`, `BrushKernel.Mask`, `BrushKernel.SetKernel`,
`Raster.DrawAt`, `Drawing.Replay` and others) have no row of their own. Each is
mapped to the source by the rows of the lemmas that state what it computes.

| member | source | states |
|---|---|---|
| BrushKernel.CentreIndex | teclab/image_items.py:63 | `int((size-1)/2)` truncates toward zero: 0 for size 0, otherwise the largest c with 2c <= size-1 |
| BrushKernel.InDiskIffInteger | teclab/image_items.py:67 | the floating mask test `x*x+y*y <= (size-1)/2*(size-1)/2` is exactly `4(dx²+dy²) <= (size-1)²` over the integers, for odd and even sizes |
| BrushKernel.MaskIsDisk | teclab/image_items.py:66-67 | mask cell (r, q) is set iff the offset (q-c, r-c) lies within (size-1)/2 of the centre |
| BrushKernel.MaskCentreAndSymmetry | teclab/image_items.py:66-67 | for size >= 1 the centre cell is set, and the mask is symmetric under swapping dx and dy |
| BrushKernel.OddMaskMirror | teclab/image_items.py:66-67 | for odd sizes the mask is unchanged by mirroring either axis |
| BrushKernel.DiskReach | teclab/image_items.py:63-67 | a disk offset reaches at most (size-1)/2 from the centre along either axis |
| BrushKernel.DiskFitsWindow | teclab/image_items.py:63-67 | every offset of the disk lies inside the window [-c, size-c), so the mask never cuts the disk |
| BrushKernel.SetKernelSpec | teclab/image_items.py:53-68 | setKernel fails exactly for a colour other than r, g, b; otherwise the paint kernel is 255 in exactly the selected channel and 0 in the other two, and the 0/1 mask is the same disk in all three channels |
| BrushKernel.EraseKernelIsZero | teclab/image_items.py:75 | the erase kernel `kern * 0` has the paint kernel's shape and is zero everywhere |
| BrushKernel.HoverMatchesDrawingMask | teclab/image_items.py:34-39 | the hover preview is 255 exactly on the drawing item's mask cells |
| SlopeBand.PassesBandIffInBand | teclab/image_items.py:112-126 | each quadrant's rational double inequality accepts a signed candidate iff `abs(2(dx*Y - dy*X)) <= abs(dx) + abs(dy)`; all bound denominators are odd, so every quotient is defined |
| SlopeBand.PassesBandIffSegmentMeetsPixel | teclab/image_items.py:111-126 | a candidate strictly inside the move is accepted iff the segment from the previous point to the current one passes through its closed pixel square |
| SlopeBand.OnLineCandidatePasses | teclab/image_items.py:113-124 | in every quadrant, a candidate exactly on the ideal line (Y*dx == X*dy) passes both inequalities |
| SlopeBand.PassesBandSymmetric | teclab/image_items.py:113-124 | the test is symmetric under swapping the axes and under mirroring either axis |
| GapFill.AcceptedIndicesSpec | teclab/image_items.py:111-127 | np.where(result.T) lists exactly the meshgrid indices whose candidate passes, with X index outer and Y index inner, with no repeats, and at most (abs(dx)-1)(abs(dy)-1) of them |
| GapFill.StampCentresSound | teclab/image_items.py:127-133 | each stamped pixel lies in the rectangle from prev toward the current point (offsets 0 to abs(d)-2) and stands for an accepted candidate `c - prev + (sx, sy)` |
| GapFill.StampCentresComplete | teclab/image_items.py:127-133 | each rectangle point whose candidate `c - prev + (sx, sy)` passes is stamped |
| GapFill.StampCentresSpec | teclab/image_items.py:111-133 | the stamped pixels are exactly the rectangle points whose candidate, one pixel further from prev, passes the band test |
| GapFill.StampCentresCount | teclab/image_items.py:111-133 | no pixel is stamped twice; at most (abs(dx)-1)(abs(dy)-1) stamps, none when either axis moves one pixel |
| GapFill.StampCentresTrailSegment | teclab/image_items.py:111-133 | a pixel is stamped iff it is in the rectangle and its diagonal neighbour away from prev is crossed by the segment |
| GapFill.ShiftedStampCanMissSegment | teclab/image_items.py:127-130 | for the move (0,0) to (5,2), pixel (2,0) is stamped, but the segment does not cross it |
| GapFill.LongShallowAcceptedIndices | teclab/image_items.py:111-127 | for the move (10, 3), the band test accepts the candidates (2..5, 1) and (5..8, 2), listed X outer, Y inner |
| GapFill.ShallowTwentyStamps | teclab/image_items.py:111-130 | for any move by (20, 2), the code stamps exactly the pixels 4 to 14 along on the previous point's row |
| GapFill.IntendedStampIffShifted | teclab/image_items.py:127-130 | a pixel is a corrected stamp iff the pixel one step back toward the previous point is one of the code's stamps |
| GapFill.ShallowTwentyIntended | teclab/image_items.py:111-127 | for any move by (20, 2), the accepted candidates, stamped in place, are exactly the pixels 5 to 15 along on the middle row |
| GapFill.IntendedStampCentresShift | teclab/image_items.py:127-130 | the code's stamps are the accepted candidates `prev + (X, Y)`, each moved back by (sx, sy), in the same order |
| GapFill.IntendedStampCentresMeetSegment | teclab/image_items.py:111-130 | stamping each accepted candidate at `prev + (X, Y)` stamps exactly the pixels strictly inside the move whose closed square the segment crosses |
| GapFill.EnumerateStampCentres | teclab/image_items.py:126-133 | the column-by-column scan of the candidate grid stamps the same pixels, in the same order, as the functional definition |
| Drawing.Click | teclab/image_items.py:70-76 | a left click installs paint and a right click erase, and each stamps the click position; any other button does nothing; a click never changes the previous point |
| Drawing.Drag | teclab/image_items.py:78-140 | the kernel changes only at a left/right drag start; other buttons change nothing; a left/right event stamps its position first; with no previous point it stores the position, even on finish, and interpolates nothing; with one, the previous point becomes the position, or none on finish; an axis-aligned move stamps only the position; a diagonal move adds the gap fill |
| Drawing.DragStampsInRectangle | teclab/image_items.py:111-133 | a drag's interpolated stamps lie in the rectangle from the previous point toward the new one, are distinct, and number at most (abs(dx)-1)(abs(dy)-1) |
| Drawing.GestureConnectsConsecutiveEvents | teclab/image_items.py:89-136 | within a gesture, every event after the first starts from the previous event's position as its previous point, with the kernel the start installed |
| Drawing.GestureEndsFresh | teclab/image_items.py:138-140 | any start-to-finish gesture ends with no previous point, so the next drag event stamps only its own position and does not connect to the old gesture |
| Drawing.ReplayStampsEveryPosition | teclab/image_items.py:84-88 | every position of a left/right drag sequence is itself stamped |
| Drawing.SmallDisk | teclab/image_items.py:66-67 | the size-3 brush is the centre pixel and its four edge neighbours |
| Drawing.WrittenStrokeSplits | teclab/image_items.py:79-140 | a left drag from (0, 0) to (10, 3) stamps (0,0), (10,3), (1,0), (2,0), (3,0), (4,0), (4,1), (5,1), (6,1), (7,1); with the size-3 brush, no walk through painted 8-neighbours leads from (0, 0) to (10, 3) |
| Drawing.IntendedStrokeJoins | teclab/image_items.py:111-130 | with each accepted candidate stamped at itself, the same drag paints a stroke in which a walk through painted 8-neighbours joins (0, 0) to (10, 3) |
| Drawing.ReplayLeftDrag | teclab/image_items.py:79-140 | a left press and release at two points not on a common row or column stamp both points and then the gap fill between them, and leave the paint kernel with no previous point |
| Drawing.ColumnSplitsStroke | teclab/image_items.py:66-67 | when every stamp keeps more than (size-1)/2 from a column, no pixel of the column is painted and no walk through painted 8-neighbours crosses it |
| Drawing.WrittenSplitsAtSize5 | teclab/image_items.py:58-140 | with the size-5 brush the item installs, a left drag by (20, 2) leaves the column 17 along unpainted, so no painted walk joins the press point to the release point |
| Drawing.IntendedJoinsAtSize5 | teclab/image_items.py:111-130 | with each accepted candidate stamped in place and the size-5 brush, a walk through painted 8-neighbours joins the press point of any left drag by (20, 2) to its release point |
| Drawing.IntendedSplitsAtSize3 | teclab/image_items.py:111-130 | with each accepted candidate stamped in place and the size-3 brush, the same drag leaves the column 2 along unpainted, so the stroke still splits |
| Raster.DrawAtSpec | teclab/image_items.py:72-73 | a stamp keeps the image's pixel set; it writes the kernel value into every channel under the window with mask 1, and leaves every other channel unchanged |
| Raster.DrawAtIdempotent | teclab/image_items.py:131-133 | stamping the same point twice gives the same image as stamping it once |
| Raster.DrawAtCommutes | teclab/image_items.py:131-133 | with a uniform kernel, two stamps commute |
| Raster.SetKernelUniform | teclab/image_items.py:68 | the paint kernel and its erase kernel are valid and uniform |
| Raster.CoversIffInDisk | teclab/image_items.py:63-72 | for size >= 1, a stamp of the installed kernel writes a channel of a pixel iff the pixel lies in the disk around the stamp |
| Raster.PaintedIffAnyCovers | teclab/image_items.py:63-72 | for size >= 1, a pixel is written by some stamp iff it lies in the disk of some stamp, which is the sense of "painted" in the connectivity lemmas |
| Raster.DrawAllCovered | teclab/image_items.py:131-133 | with a uniform kernel, a channel ends with the kernel value iff some stamp covers it, else unchanged; so only the set of stamped centres matters |

## Left out

- `TecMapImageItem` and `utils.polar_to_cart`: floating-point trigonometry and cubic-spline resampling through a foreign library.
- The hover handlers (`hoverEvent` of both items): UI event acceptance and preview clearing. Only the hover kernel is modelled.
- Pointer rounding (`np.round` of the event position): positions enter the model as integers. The source stamps the unrounded event position for clicks and for each drag event's own point, and pyqtgraph truncates it with `int()`. The model stamps the rounded position instead.
- Negative brush sizes: numpy refuses them with an error, and the model's size is a natural number.
- Floating-point division in the slope test: the slope and the bounds are exact rationals. Rounding of the doubles is not modelled.
- Raster.DrawAt: models pyqtgraph's `drawAt` in "set" mode with a mask. pyqtgraph is not part of this model. Image values are unbounded integers, so the image array's dtype and overflow are not modelled. The hover item's maskless `setDrawKernel` and the on-screen composition mode are left out.
- Drawing.Drag: the kernel is recorded as a mode (none, paint, erase). The brush size and colour behind it are given by `BrushKernel.SetKernel`.
- Label aggregation back onto the polar grid (`get_labels`, `reset_img`): the drawing item's label code is not part of this model.
- `teclab/gui.py`, `teclab/application.py`, `teclab/app.py`, `teclab/config.py`, `teclab/__main__.py` and `test/label_value_demo.py`: widgets, file and dataset handling, plotting and start-up.
- Eight-connectivity of painted strokes is not stated in general: it fails for small brushes with or without the stamp shift. The candidate grid skips the first and last row and column of the move. So even the corrected fill leaves a size-3 drag by (20, 2) unpainted at column 2, and the stroke splits (`Drawing.IntendedSplitsAtSize3`). As written, the size-5 brush splits the same drag at column 17 (`Drawing.WrittenSplitsAtSize5`, see "## Findings").
- Raster.CoversIffInDisk and Raster.PaintedIffAnyCovers: stated for size >= 1. A size-0 kernel is empty and writes nothing, while the disk test still admits the centre offset.
- Drawing.Drag in mode none: a left/right drag event while no kernel is installed still stamps in the model and, if there is no previous point, stores its position. In the source the `drawAt` call at line 88 fails there, because there is no draw kernel, so nothing is stored. This cannot happen in the program: pyqtgraph delivers a drag's later events only to the item that accepted its start event, and that start installed a kernel (lines 79-83).

## Findings

| source | as written | input that shows it | evidently intended | confidence | as-written member | corrected member |
|---|---|---|---|---|---|---|
| teclab/image_items.py:127-130 | each stamp is placed at `prev + s*j` for the zero-based meshgrid index j, one pixel back toward the previous point from the candidate the band test accepted | a left drag from (0, 0) to (20, 2) with the size-5 brush the item installs: the fill is (4..14, 0), nothing is stamped beyond x = 14, and column x = 17 is unpainted, so the stroke falls into two pieces. Likewise a drag from (0, 0) to (10, 3) with the size-3 brush | stamp each accepted candidate where it is, at `prev + s*(j + 1)`, so that the fill is the pixels strictly inside the move that the segment crosses | medium; not executed | Drawing.WrittenSplitsAtSize5, Drawing.WrittenStrokeSplits, GapFill.ShiftedStampCanMissSegment | GapFill.IntendedStampCentresMeetSegment, Drawing.IntendedJoinsAtSize5, Drawing.IntendedStrokeJoins |

`Drawing.Drag` and the rest of the model keep the code's stamps, because they
model the handler as it is. `GapFill.IntendedStampCentres` is the corrected gap
fill. `GapFill.IntendedStampCentresShift` relates it to the code's stamps.
