# Ink ledger, page layout and vector flattening

This project models the core of an Android app for annotating PDF documents.
The user draws freehand ink strokes over a rendered PDF. The app keeps them in
an undo/redo ledger and later commits them into the document as vector
content. Three pieces are modelled:

- **The stroke ledger** (`InkStrokes`, `InkLedger`). A stroke is an immutable
  record: path, paint and page index. `InkManager` is a class with two
  sequences. `done` holds the committed strokes, oldest first. `undone` holds
  the strokes removed by undo, used as a LIFO stack. The class supports add,
  undo, redo, clear, clear-page and the page queries.
- **Page layout** (`PageLayout`). `PdfGeometry` stacks the pages top to bottom
  with a fixed spacing and centres each one against the widest page. Its
  constructor fills the per-page arrays in two passes. The first pass keeps a
  running maximum width. The second keeps a running top offset.
- **Vector commit** (`PdfContent`, `VectorFlattener`).
  - The strokes are bucketed by page. Strokes with a page index outside the
    document are dropped.
  - Each page gets the transform from page-local coordinates to PDF user
    space: scale by `(sx, -sy)`, then move up by the page height.
  - Each stroke's path segments are re-emitted as PDF path-construction
    operators (section 8.5.2 of ISO 32000-1; the stroke-painting operator `S`
    is in section 8.5.3). A small state machine tracks the
    current point. It turns each quadratic into a cubic by degree elevation.
  - A page's output is a sequence of content-stream operators: round cap and
    join once, then for each stroke its colour, its scaled width, its path
    operators and one `S` (stroke).

The proved properties include:
- undo/redo conservation, and undo followed by redo restoring both histories;
- the order-preserving page filter behind `clearPage` and `getStrokesForPage`;
- closed forms for the layout: the content width is the maximum, the content
  height is the sum of heights plus spacings, and pages do not overlap;
- the page-corner mapping of the transform and its inverse;
- that the elevated cubic traces exactly the quadratic it replaces, and that
  elevating commutes with the transform;
- how the emitter treats quadratics before and after a move;
- the per-page operator layout and counts;
- a read-back round trip for paths without quadratics.

Floats are modelled with `real`. Page sizes, crop boxes and the path iterator's
segments are inputs.

Undo appends the stroke to the end of `undone` and redo takes it back from
the end: `undone` is a LIFO stack whose top is its last element.

## Model

| member | source | states |
|---|---|---|
| InkStrokes.NewStroke | app/src/main/java/com/example/myapplication/InkStroke.java:11-15 | the stroke stores path, paint and page index exactly as given, with no range check on the page index |
| InkStrokes.OnPageAppend | app/src/main/java/com/example/myapplication/InkManager.java:24-28 | selecting one page's strokes distributes over concatenation, so relative order is kept |
| InkStrokes.OffPageAppend | app/src/main/java/com/example/myapplication/InkManager.java:19-20 | removing one page's strokes distributes over concatenation, so relative order is kept |
| InkStrokes.OnPageMembers | app/src/main/java/com/example/myapplication/InkManager.java:24-28 | a stroke is selected for page p iff it is in the list and lies on page p |
| InkStrokes.OffPageMembers | app/src/main/java/com/example/myapplication/InkManager.java:19-20 | a stroke survives removal of page p iff it is in the list and lies on another page |
| InkStrokes.PagePartition | app/src/main/java/com/example/myapplication/InkManager.java:19-20 | page p's strokes and the rest together are the original strokes as a multiset, and their lengths add up |
| InkStrokes.OffPageSelection | app/src/main/java/com/example/myapplication/InkManager.java:19-22 | after removing page p nothing is on p, and every other page's strokes are unchanged and in the same order |
| InkLedger.InkManager.constructor | app/src/main/java/com/example/myapplication/InkManager.java:9-10 | a new ledger has empty committed and undone histories |
| InkLedger.InkManager.Add | app/src/main/java/com/example/myapplication/InkManager.java:12 | the stroke is appended to `done` and `undone` becomes empty |
| InkLedger.InkManager.CanUndo | app/src/main/java/com/example/myapplication/InkManager.java:13 | true iff `done` is non-empty, in every state |
| InkLedger.InkManager.CanRedo | app/src/main/java/com/example/myapplication/InkManager.java:14 | true iff `undone` is non-empty, in every state |
| InkLedger.InkManager.Undo | app/src/main/java/com/example/myapplication/InkManager.java:15 | on an empty `done` nothing changes; otherwise the last stroke of `done` moves to the end of `undone`; total size and multiset of strokes are preserved |
| InkLedger.InkManager.Redo | app/src/main/java/com/example/myapplication/InkManager.java:16 | on an empty `undone` nothing changes; otherwise the last stroke of `undone` moves back to the end of `done`; total size and multiset are preserved |
| InkLedger.InkManager.Clear | app/src/main/java/com/example/myapplication/InkManager.java:17 | both histories become empty |
| InkLedger.InkManager.ClearPage | app/src/main/java/com/example/myapplication/InkManager.java:19-22 | `done` becomes the order-preserving filter of strokes not on page p; `undone` becomes empty; page p has no strokes left; every other page's strokes are unchanged; exactly page p's strokes are removed |
| InkLedger.InkManager.GetStrokesForPage | app/src/main/java/com/example/myapplication/InkManager.java:24-28 | returns exactly the committed strokes on page p, in creation order (membership iff stated too); the ledger is not modified |
| InkLedger.InkManager.GetAll | app/src/main/java/com/example/myapplication/InkManager.java:30-32 | returns the committed strokes in order; the ledger is not modified |
| InkLedger.UndoThenRedo | app/src/main/java/com/example/myapplication/InkManager.java:15-16 | on a non-empty ledger, undo then redo restores both `done` and `undone` exactly |
| InkLedger.AddAfterUndo | app/src/main/java/com/example/myapplication/InkManager.java:12-15 | an add right after an undo commits the new stroke after the remaining ones and leaves no redo history, so the undone stroke cannot come back |
| InkLedger.UndoRedoScenario | app/src/main/java/com/example/myapplication/InkManager.java:12-15 | empty, add, undo, add gives the canUndo/canRedo trace (F,F), (T,F), (F,T), (T,F) |
| PageLayout.PdfGeometry.constructor | app/src/main/java/com/example/myapplication/PdfGeometry.java:12-39 | all four arrays have one entry per page; widths and heights are the given sizes; content width is the running maximum; `pageLeft[i] == (contentWidth - pageWidth[i]) / 2`; `pageTop[i]` is the top recurrence at i; content height is the recurrence at N minus one spacing |
| PageLayout.MeasurePages | app/src/main/java/com/example/myapplication/PdfGeometry.java:21-28 | the first pass copies every page size into fresh width/height arrays and ends with the maximum of 0 and all widths |
| PageLayout.PlacePages | app/src/main/java/com/example/myapplication/PdfGeometry.java:30-35 | the second pass sets each left offset to half the slack against the widest page, each top offset to the top recurrence, and ends one spacing below the last page |
| PageLayout.MaxWidthIsMaximum | app/src/main/java/com/example/myapplication/PdfGeometry.java:21-27 | the content width is at least 0 and at least every page width, and is 0 or some page's width |
| PageLayout.PageLeftNonNegative | app/src/main/java/com/example/myapplication/PdfGeometry.java:32 | every left offset is non-negative |
| PageLayout.WidestPageFlush | app/src/main/java/com/example/myapplication/PdfGeometry.java:27-32 | with non-negative widths, some page of a non-empty document has left offset 0 |
| PageLayout.UniformWidthNoIndent | app/src/main/java/com/example/myapplication/PdfGeometry.java:32 | when all widths are equal and non-negative, every left offset is 0 |
| PageLayout.TopClosedForm | app/src/main/java/com/example/myapplication/PdfGeometry.java:30-35 | page i's top is the sum of the heights above it plus i spacings |
| PageLayout.ContentHeightClosedForm | app/src/main/java/com/example/myapplication/PdfGeometry.java:30-38 | content height is the sum of all heights plus (N-1) spacings; for no pages it is minus one spacing, not 0 |
| PageLayout.ContentHeightIsLastBottom | app/src/main/java/com/example/myapplication/PdfGeometry.java:34-38 | content height is the bottom edge of the last page |
| PageLayout.PagesDoNotOverlap | app/src/main/java/com/example/myapplication/PdfGeometry.java:30-35 | with non-negative heights and spacing, each later page starts at or below the bottom of each earlier page |
| PageLayout.SinglePageScenario | app/src/main/java/com/example/myapplication/PdfGeometry.java:21-38 | one 600 x 800 page gives pageLeft [0], pageTop [0], content 600 x 800, for any spacing |
| PdfContent.TransformPath | app/src/main/java/com/example/myapplication/PdfInkFlattener.java:108-113 | the transformed path has one segment per input segment, each segment transformed point by point |
| PdfContent.PageCornersMap | app/src/main/java/com/example/myapplication/PdfInkFlattener.java:91-94 | with `sx = pdfW/baseW` and `sy = pdfH/baseH`, page-local (0,0) maps to (0, pdfH) and (baseW, baseH) maps to (pdfW, 0) |
| PdfContent.TransformInverse | app/src/main/java/com/example/myapplication/PdfInkFlattener.java:108-110 | with non-zero scales, the transform scale(sx,-sy) then move up by pdfH is a bijection, and the inverse undoes it both ways |
| PdfContent.ElevationExact | app/src/main/java/com/example/myapplication/PdfInkFlattener.java:140-144 | the cubic with control points two thirds of the way from each end to the quadratic's control point equals the quadratic at every parameter t |
| PdfContent.ElevationCommutesWithTransform | app/src/main/java/com/example/myapplication/PdfInkFlattener.java:108-113 | elevating the transformed quadratic equals transforming the elevated one, so converting in PDF space loses nothing |
| PdfContent.PathOps | app/src/main/java/com/example/myapplication/PdfInkFlattener.java:126-155 | the emitter produces exactly one operator per segment |
| PdfContent.EmitPath | app/src/main/java/com/example/myapplication/PdfInkFlattener.java:122-155 | the segment loop with `lastX`/`lastY`/`haveLast` emits exactly the specification's operators: one per segment, each a path-construction operator |
| PdfContent.PathOpsShape | app/src/main/java/com/example/myapplication/PdfInkFlattener.java:126-155 | the k-th operator is the one for the k-th segment, emitted from the cursor that the first k segments leave, in input order |
| PdfContent.CursorTracksEnd | app/src/main/java/com/example/myapplication/PdfInkFlattener.java:129-153 | the tracked current point is the end point of the last non-close segment; Close leaves it unchanged and control points never become it |
| PdfContent.HaveLastOnlyFromMove | app/src/main/java/com/example/myapplication/PdfInkFlattener.java:124-139 | the have-current-point flag is set iff some earlier segment is a Move; Line, Quadratic and Cubic never set it |
| PdfContent.PassThrough | app/src/main/java/com/example/myapplication/PdfInkFlattener.java:129-153 | Move, Line, Cubic and Close segments read back unchanged from their operator; cubic control points pass through unmodified |
| PdfContent.QuadraticBeforeMove | app/src/main/java/com/example/myapplication/PdfInkFlattener.java:137-139 | a quadratic with no Move before it emits `moveTo(end)` and no curve |
| PdfContent.QuadraticAfterMove | app/src/main/java/com/example/myapplication/PdfInkFlattener.java:137-146 | a quadratic after a Move emits `curveTo(p0 + 2/3(q-p0), p2 + 2/3(q-p2), p2)`, where p0 is the current point |
| PdfContent.RoundTrip | app/src/main/java/com/example/myapplication/PdfInkFlattener.java:108-155 | a quadratic-free path that is transformed, emitted, read back and inverse-transformed is the original path |
| VectorFlattener.GroupByPage | app/src/main/java/com/example/myapplication/PdfInkFlattener.java:78-82 | bucket i holds exactly the strokes on page i, in snapshot order, for each page of the document |
| VectorFlattener.BucketsKeepExactlyInRange | app/src/main/java/com/example/myapplication/PdfInkFlattener.java:80-82 | a stroke reaches some bucket iff its page index lies in [0, pageCount), and then no other page's bucket |
| VectorFlattener.EmitPage | app/src/main/java/com/example/myapplication/PdfInkFlattener.java:99-157 | the page loop emits exactly the page's specified operators: header, then each stroke of the bucket in order |
| VectorFlattener.PathOpsHaveNoPaint | app/src/main/java/com/example/myapplication/PdfInkFlattener.java:126-155 | the segment loop never emits `S`, a cap or a join |
| VectorFlattener.StrokeOpsShape | app/src/main/java/com/example/myapplication/PdfInkFlattener.java:103-105 | one stroke's operators are: colour first, then width = stroke width times sx, then one path operator per segment, then one final `S` |
| VectorFlattener.StrokeOpsCounts | app/src/main/java/com/example/myapplication/PdfInkFlattener.java:102-156 | one stroke paints exactly once and never sets cap or join |
| VectorFlattener.StrokesOpsAppend | app/src/main/java/com/example/myapplication/PdfInkFlattener.java:102 | the operators of a bucket are those of its strokes concatenated in bucket order |
| VectorFlattener.PageOpsHeader | app/src/main/java/com/example/myapplication/PdfInkFlattener.java:99-100 | a page's operators open with round line cap and round line join |
| VectorFlattener.StrokesOpsCounts | app/src/main/java/com/example/myapplication/PdfInkFlattener.java:102-156 | the strokes of a bucket paint exactly once each and set no cap or join |
| VectorFlattener.PageOpsCounts | app/src/main/java/com/example/myapplication/PdfInkFlattener.java:99-156 | a page sets round cap and join exactly once and paints exactly once per stroke in its bucket |
| VectorFlattener.CommitInkByVectorAppend | app/src/main/java/com/example/myapplication/PdfInkFlattener.java:67-162 | fails iff the layout has fewer pages than the document, naming the first missing page; otherwise page i gets the specified operators for its bucket under the transform built from crop box i and layout size i |
| VectorFlattener.FlattenSnapshot | app/src/main/java/com/example/myapplication/PdfInkFlattener.java:42-58 | the commit as started from the editor: the layout is built from the viewer sizes and the strokes are the ledger's committed strokes; its result is stated in those terms |

## Left out

- Threading in `flattenAsync`: the single-thread executor and the main-thread callbacks are concurrency. Success or failure is the `Result` value instead.
- The output file: PDF loading, crop-box lookup, content-stream writing and saving are PDF-library and file I/O. The document is a list of crop-box sizes. A page's appended content is a sequence of operators.
- The page viewer: page count and page sizes become the `sizes` input of the layout.
- The Android path transform and path iterator:
  - the segments the iterator yields are the input, read at the array slots the flattener reads;
  - the conic-to-quadratic approximation (tolerance 0.25) is not modelled;
  - the iterator's own point layout is not modelled. The model assumes that
    the buffer's slots from slot 0 on hold a line's end point, a quadratic's
    control point then end point, and a cubic's two control points then end
    point, which is how the flattener reads them.
- PdfContent.CursorTracksEnd, PdfContent.PassThrough, PdfContent.QuadraticAfterMove, PdfContent.RoundTrip: proved about the slot contents the flattener reads. If the iterator writes a segment's start point first (the 8-float buffer has room for it), these describe what the program reads, not the ink it draws.
- Colour extraction from the paint is not modelled: the colour is an RGB triple.
- Only colour and stroke width of the paint are modelled. The other paint attributes are never read by the flattener.
- IEEE float rounding is not modelled: all coordinates and sizes are `real` and properties hold exactly.
- Java object identity: strokes are values, so two equal strokes cannot be told apart.
- The touch overlay view and the activity UI: they are event and drawing wiring around the ledger, not part of this model.
- A raster flattener: the only commit path calls the vector flattener (app/src/main/java/com/example/myapplication/MainActivity.java:159-188), and `flattenAsync` ignores its scale argument (app/src/main/java/com/example/myapplication/PdfInkFlattener.java:48).
- Crop-box origin and page rotation: the source reads only the crop box's width and height, ignoring its lower-left corner and the page's /Rotate entry, and so does the model.
- VectorFlattener.CommitInkByVectorAppend:
  - requires non-zero layout sizes for the pages it transforms; the source divides and would produce an infinite or NaN scale;
  - a missing layout page, an out-of-bounds array read in the source, is modelled as an `Err` that discards every page.
- VectorFlattener.FlattenSnapshot: requires non-zero viewer page sizes, for the same reason.
- PdfContent.RoundTrip: stated only for paths without quadratics, since a quadratic comes back as its equivalent cubic (see `ElevationExact`).
