# Drag-to-crop selection tool, modelled in Dafny

This project models the interactive crop tool of `Task1.py`. A user drags the
mouse over a displayed image. On release, the tool crops the dragged
rectangle, writes the crop as `Task_1_Cropped_<n>.jpeg`, and writes an
annotated copy of the whole image as `Task_1_insights_<n>.jpeg`. The annotated
copy has a red dot on each drag corner and a white label with that corner's
coordinates. It also models the one piece of integer logic in `Task3.py`: the
adaptive-threshold block size is forced to be odd.

The mouse handler `draw_rectangle` keeps its state in module globals. Here
those globals are one immutable `Selection.State`. Each mouse event maps a
state to a `Selection.Reaction`, which holds:

- the next state;
- the write requests, each a filename plus an image buffer;
- the error the handler raises, if any.

The code and the model have no guard and no undo:

- A release is handled whether or not a drag is in progress. A stray release
  crops again from the old start point.
- A press does not reset the end point.
- The crop uses the raw drag order, `image[y1:y2, x1:x2]`, with Python slice
  semantics. A drag from right to left or from bottom to top with both corners
  inside the image therefore selects no pixel, and so does a drag lying wholly
  to the right of or below the image.
- A negative corner, which the window reports when a drag leaves it to the
  left or the top, counts from the opposite edge of the image, so such a drag
  can still crop. On a 200 by 200 image, pressing at (10, 10) and releasing
  at (-5, 90) crops the 185 columns from column 10 on. A left-to-right drag
  wholly left of the image, but within one image width of it, crops pixels
  from its right-hand side. A right-to-left drag there, or one more than an
  image width to the left, still selects no pixel.
- The image is always rectangular: every row has the same number of pixels.
- The last two filenames are remembered but never read. There is no undo.

The handler raises in two places:

- A release before any press (so `start_point` is still `None`). Lines 35-36
  set the end point and clear the drawing flag, and line 37 paints the
  outline, with the missing point taken as (0, 0). Unpacking the start point
  at line 41 then raises `MissingStartPoint`, and nothing is written.
- A selection that passes the zero-size test but holds no pixel. The image
  writer at line 52 refuses an empty image and raises `EmptyCrop`. Neither
  file is written, and the counter and remembered names stay as they were.

A run of events goes on after an event that raises: the next event is
handled from the state the failed one reached, and each run collects its
errors in order in a `Selection.Trace`.

Modules:

- `Wrappers` (`wrappers.dfy`): `Option`.
- `Decimal` (`decimal.dfy`): Python's decimal rendering of integers, plus a
  parser that reads it back.
- `Slicing` (`slicing.dfy`): Python's `s[lo:hi]`, including its bound
  adjustment.
- `Raster` (`raster.dfy`): pixels, points, the painted shapes, the canvas,
  cropping and annotation.
- `ArtifactNames` (`artifact_names.dfy`): the filename scheme and its parser.
- `Selection` (`selection.dfy`): the handler state machine and runs of
  events.
- `Scenarios` (`scenarios.dfy`): worked drags on a 200 by 200 image.
- `BlockSize` (`blocksize.dfy`): the odd block-size rule of `Task3.py`.

## Model

| member | source | states |
|---|---|---|
| Decimal.FromNat | Task1.py:51 | the counter is rendered as one or more decimal digits with no leading zero |
| Decimal.ParseNatFromNat | Task1.py:51 | reading back the rendering of a natural number gives that number |
| Decimal.ParseIntFromInt | Task1.py:74-75 | reading back Python's rendering of any integer, negative ones included, gives that integer |
| Decimal.FromNatInjective | Task1.py:51 | two counter values have the same rendering exactly when they are equal |
| Decimal.FromIntInjective | Task1.py:74-75 | two coordinates have the same rendering exactly when they are equal |
| Decimal.FromInt | Task1.py:74-75 | Python's rendering of a coordinate: one or more digits, led by a minus sign exactly when the coordinate is negative, and never a comma, space or parenthesis, so it cannot be confused with the tuple syntax around it |
| Slicing.Bound | Task1.py:48 | a slice bound counts from the end when negative and is clamped into 0..len |
| Slicing.Slice | Task1.py:48 | `s[lo:hi]` has max(0, hi'-lo') elements (lo', hi' the adjusted bounds), element k being `s[lo'+k]` |
| Slicing.SliceWithin | Task1.py:48 | with 0 <= lo <= hi <= len, the Python slice is the plain subsequence |
| Slicing.SliceReversed | Task1.py:48 | non-negative bounds in reverse order select nothing |
| Raster.DrawOutline | Task1.py:37 | painting the selection outline keeps the pixels and earlier shapes, and adds one outline with the two drag corners |
| Raster.CropPixels | Task1.py:48 | `image[y1:y2, x1:x2]` holds the row slice, and each of its rows is the column slice of the matching source row |
| Raster.Crop | Task1.py:48 | the crop's pixels are the 2-D slice; shapes already painted come along, moved by the crop's top-left offset; a rectangular image gives a rectangular crop |
| Raster.CropInside | Task1.py:48 | a top-left to bottom-right drag inside the image crops exactly (y2-y1) rows of (x2-x1) pixels, pixel (i, j) being source pixel (y1+i, x1+j) |
| Raster.CropForward | Task1.py:48 | whenever both adjusted slices run forwards, negative corners included, the crop holds exactly (y2'-y1') rows of (x2'-x1') pixels, pixel (i, j) being source pixel (y1'+i, x1'+j) |
| Raster.CropHasPixelsIff | Task1.py:48 | the crop holds a pixel if and only if both adjusted slices run forwards |
| Raster.CropReversedIsEmpty | Task1.py:48 | a right-to-left or bottom-to-top drag inside the image crops no pixel |
| Raster.PointText | Task1.py:74-75 | the label text is Python's tuple rendering `(x, y)`: at least six characters, opening and closing with a parenthesis |
| Raster.LabelOrigin | Task1.py:74-75 | a label is placed 10 pixels right of and 10 pixels above the point it names |
| Raster.ParsePointText | Task1.py:74-75 | the label text `(x, y)` reads back as the point it was written for |
| Raster.LabelNamesPoint | Task1.py:74-75 | the label written for a point sits 10 pixels right of and above it, and reads back as that point |
| Raster.CornerMarksContents | Task1.py:70-75 | the annotation adds exactly two dots, at the start and end points in that order, and exactly two labels |
| Raster.Annotate | Task1.py:66-75 | the annotated copy keeps the image's pixels and shapes. It adds two dots, at the start and end points, and two labels. Each label's text is the tuple rendering of its dot's point, placed 10 right of and 10 above it. The image itself is unchanged |
| Raster.AnnotationLabelsReadBack | Task1.py:70-75 | every label on the annotated copy reads back as the coordinates of the dot it belongs to |
| ArtifactNames.NameOfShape | Task1.py:51 | `NameOf`, the file name of an artifact (here and at line 78), is its kind's prefix `Task_1_Cropped_` or `Task_1_insights_`, then one or more decimal digits, then `.jpeg` |
| ArtifactNames.ParseNameOf | Task1.py:51 | every artifact filename reads back as its kind (crop or annotated copy) and number |
| ArtifactNames.NameOfInjective | Task1.py:51 | two artifacts share a filename if and only if they are the same artifact, so a crop name never equals an annotated-copy name |
| ArtifactNames.CropNameReadsBack | Task1.py:51 | `CropName(n)`, the crop's file name, reads back as crop n and differs from the annotated copy's name for the same n |
| ArtifactNames.InsightsNameReadsBack | Task1.py:78 | `InsightsName(n)`, the annotated copy's file name, reads back as the copy belonging to crop n |
| ArtifactNames.IdsBetween | Task1.py:51-62 | the crops numbered lo..hi-1 produce 2*(hi-lo) artifacts, or none when hi <= lo |
| ArtifactNames.IdsBetweenAt | Task1.py:51-62 | among the artifacts of crops lo..hi-1, position k is the crop (k even) or annotated copy (k odd) of crop lo + k/2 |
| ArtifactNames.NamesBetweenSingle | Task1.py:51-62 | one crop number writes exactly its crop name and then its annotated-copy name; no crop number writes nothing |
| ArtifactNames.IdsBetweenConcat | Task1.py:62 | the artifacts of consecutive ranges of crop numbers join into those of the whole range |
| ArtifactNames.NamesBetweenDistinct | Task1.py:51 | the filenames written by any range of crop numbers are pairwise distinct |
| ArtifactNames.NamesBetweenConcat | Task1.py:62 | the filenames of consecutive ranges of crop numbers join into the filenames of the whole range |
| Selection.Selects | Task1.py:41-43 | the zero-size test passes only for two distinct corners; it fails whenever the corners share a column or a row |
| Selection.RejectedSelectionIsEmpty | Task1.py:41-48 | every selection the zero-size test rejects would have cropped no pixel, so the test never discards a non-empty crop |
| Selection.Init | Task1.py:6-13 | the first state over a rectangular image: no points, not drawing, counter 1, no remembered names, and it is valid |
| Selection.OnDown | Task1.py:21-23 | a press sets the start point and the drawing flag; end point, counter, remembered names and image are unchanged; nothing is written |
| Selection.OnMove | Task1.py:26-28 | a move outside a drag changes nothing; during a drag only the end point changes; nothing is written |
| Selection.OnUp | Task1.py:34-62 | a release always sets the end point, clears the flag and paints the outline, from (0, 0) when there is no start point. It raises `MissingStartPoint` exactly when there is no start point. A zero-width or zero-height selection writes nothing. A selection with no pixel raises `EmptyCrop` and writes nothing. Whenever nothing is written, the counter and names are kept. Any other selection writes the non-empty crop and then the annotated copy under the current number, remembers both names, and adds 1 to the counter |
| Selection.UpKeepsInvariants | Task1.py:34-62 | a release keeps the state valid and adds 0 or 1 to the counter. The filenames it writes are those of the numbers the counter passes. It raises `MissingStartPoint` exactly when there is no start point, and `EmptyCrop` only when there is one |
| Selection.Step | Task1.py:17-62 | every event keeps the state valid and adds 0 or 1 to the counter. The filenames written are those of the numbers the counter passes. A start point once set stays set. `MissingStartPoint` is raised exactly on a release with no start point, and `EmptyCrop` only on a release with one |
| Selection.Run | Task1.py:17-62 | a run of events, each handled from the state the previous one reached, raises at most one error per event and writes at most two files per event |
| Selection.ReleaseThen | Task1.py:34-62 | a run that begins with a release is that release's writes and error followed by the run of the remaining events from the state it leaves |
| Selection.RunWrites | Task1.py:51-62 | over any run of events, the counter never decreases, validity is kept, and the filenames written are, in order, those of every crop number passed |
| Selection.RunWritesDistinct | Task1.py:51-62 | no run of events writes the same filename twice |
| Selection.OnlyEmptyCropsAfterPress | Task1.py:21-52 | once a press has happened, every error a later event raises is an empty crop |
| Selection.QuietFirst | Task1.py:20-31 | a press, a move or any other event writes nothing and raises nothing, so a run beginning with one continues from the state it leaves |
| Selection.PressFirst | Task1.py:21-23 | a run that begins with a press is the run of the remaining events from the pressed state |
| Selection.ReleaseAlone | Task1.py:34-62 | a run of a single release yields the release's state, its writes, and its error if it raises one |
| Selection.UpIgnoresEndPoint | Task1.py:34-42 | a release's outcome does not depend on the end point held before it |
| Selection.MovesAreForgotten | Task1.py:26-35 | any moves before a release leave the release's outcome unchanged |
| Selection.DragDependsOnlyOnEnds | Task1.py:22-42 | a drag of press, any moves, release has the same outcome as press then release |
| Scenarios.FirstNames | Task1.py:51 | the first crop writes `Task_1_Cropped_1.jpeg` and `Task_1_insights_1.jpeg` |
| Scenarios.PressRelease | Task1.py:21-62 | a press followed by a release produces the state, writes and error of the release after the press |
| Scenarios.ForwardDrag | Task1.py:17-82 | on a 200 by 200 image, press (10,10), move (50,50), release (110,90) raises nothing and writes crop 1 as the 100 by 80 block at (10,10). The annotated copy has dots at (10,10) and (110,90). The counter goes from 1 to 2 |
| Scenarios.ForwardDragWrites | Task1.py:37-62 | the forward drag (10,10)-(110,90) raises nothing, moves the counter to 2 and writes exactly two files: the crop of the outlined image under crop number 1, then the annotated copy of the outlined image under the same number |
| Scenarios.ZeroWidthDrag | Task1.py:41-45 | press (5,5), release (5,40) raises nothing, writes nothing and leaves the counter at 1 |
| Scenarios.ReleaseFirst | Task1.py:34-41 | a release before any press raises `MissingStartPoint` and writes nothing, but its outline from (0,0) stays on the image: the next drag writes crop 1, and the annotated copy carries that outline |
| Scenarios.StrayRelease | Task1.py:34-48 | a second release with no press in between crops again from the old start point, under number 2 |
| Scenarios.BackwardDrag | Task1.py:41-52 | a bottom-right to top-left drag passes the zero-size test, but its crop has no pixel, so the image writer raises, nothing is written and the counter stays at 1 |
| Scenarios.DragPastEdge | Task1.py:41-52 | a drag wholly to the right of a 200 by 200 image selects no pixel, so the image writer raises and nothing is written |
| Scenarios.LeftExitDrag | Task1.py:34-62 | on a 200 by 200 image, press (10,10) and release (-5,90) raise nothing and write a crop of 80 rows by 185 columns, pixel (i, j) being source pixel (10+i, 10+j): the negative x counts from the right edge |
| Scenarios.WholeLeftDrag | Task1.py:34-62 | a drag from (-50,10) to (-10,90), wholly left of a 200 by 200 image, raises nothing and crops the 80 rows from row 10 and the 40 columns from column 150, pixel (i, j) being source pixel (10+i, 150+j) |
| BlockSize.Normalize | Task3.py:29-30 | the result is odd; an odd value is kept and an even one is raised by one |
| BlockSize.NormalizeBounds | Task3.py:29-30 | the result is at least the input and at most one more |
| BlockSize.NormalizeIdempotent | Task3.py:29-30 | normalizing twice is the same as normalizing once |
| BlockSize.NormalizeTrackbar | Task3.py:21-30 | every trackbar position 0..31 gives a block size in 1..31, and the initial position 11 is kept |
| BlockSize.TooSmallPositions | Task3.py:21-30 | the block size is 1, too small for the adaptive filter, exactly at trackbar positions 0 and 1; every other position gives at least 3 |

## Left out

- Image loading, the 800x600 resize, window display, registering the mouse callback and the `q` key loop (`Task1.py:84-109`) are left out. The displayed image is a parameter of `Selection.Init`, and file writes are requests in the reaction, not I/O.
- The live preview during a drag (`temp_image`, `Task1.py:29-31`) is left out. It only feeds the display and is never read back.
- The console messages (`Task1.py:44, 53, 80`) are left out.
- Rendering is left out. Outlines, dots and labels are shape records painted over the pixel grid, with their colours, thickness and dot radius. The font face and the font scale 0.8 are not modelled. Clipping of shapes that fall outside a crop is not modelled either.
- Raster.Crop: a crop with no rows keeps no column count. NumPy would still report the sliced width.
- `cv2.imwrite` is modelled only as far as the handler relies on it: it raises on an image with no pixel, and otherwise its request is recorded. Encoding and write failures are not modelled.
- Selection.Run assumes that the window library reports an error raised by the callback and keeps delivering events, which is what OpenCV's Python callback wrapper does. That library is not part of this model.
- The `flags` and `param` arguments of the callback, the unused `os` import and `original_image` are left out. Nothing in the handler reads them.
- The adaptive filter at `Task3.py:33-34` refuses a block size of 1, so positions 0 and 1 make the loop raise. That library call is not part of this model; `BlockSize.TooSmallPositions` states which positions reach that size.
- Of `Task3.py`, only the block-size rule is modelled. The trackbar GUI, `cv2.threshold`, `cv2.adaptiveThreshold`, `cv2.cvtColor`, `np.hstack` and the floating-point `resize_image` are library calls or float arithmetic with no logic of their own.
