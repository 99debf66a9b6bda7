# Image contact sheet: grid layout and compositing

`xyplot` takes a list of images, a row count and
optional row and column labels. It composes the images into one RGB
"contact sheet":
- the images are placed in a grid in input order, row by row;
- every cell is sized by the first image;
- a white background;
- when there are labels, a 40-pixel band above each row, and 40 more pixel rows below the last row;
- a 150-pixel left margin when some row label is non-empty;
- text labels centred over columns and beside rows.

This project models `save_image_plot`:
- validation and its three error messages;
- the number of columns (`u32::div_ceil`);
- padding and canvas size;
- the cell and pixel origin of each image;
- the anchors of the label drawing calls;
- the white fill, then copying each image into the canvas with bounds-checked writes, where a later image overwrites an earlier one on overlap;
- where the label drawing calls fall among the image copies. What the text paints is not modelled.

It also models `FontPair::glyph_id`, which chooses between the main font
and the emoji font.

Modules:
- `Decimal` renders and reads back the counts printed in the messages.
- `Layout` holds the validation and geometry, as pure functions.
- `Fonts` holds the glyph lookup.
- `Raster` holds:
  - images as values;
  - the canvas as a class over an `array2`, with the fill and copy loops;
  - `Composited`, the reference meaning of copying a sequence of placed images onto white;
  - `DrawText`, a text drawing step whose effect on the pixels is left open.
- `Plot` holds the orchestrator: one method, plus the two loops it runs.
- `Scenarios` holds the program's own tests as lemmas.

Behaviour of the code that the model follows as written:
- The image origin `y_start` is `row * row_height + 40` even when there are no labels. There is then no label band, so every image is pushed 40 pixels down, and, for images at least 40 pixels high, a last-row cell at the first image's height loses its bottom 40 pixel rows to the canvas edge (with images under 40 pixels high, whole later rows start past the canvas bottom) (`Layout.RowInCanvas`); a shorter image in the last row can lose nothing (`Scenarios.DifferentImageSizes`). No image pixel lands in the top 40 pixel rows (`Plot.TopBandStaysWhite`); without labels they stay white. One might expect two 100×100 images side by side to show completely; the code does not do that, and the model follows the code.
- With labels, the last row's cells, at the first image's height, end 40 pixels above the canvas bottom (`Layout.RowInCanvas`). Images are clipped only at the canvas edge, so a last-row image taller than the first image reaches into that strip.
- The row label is drawn inside the image loop, once per IMAGE and not once per row, just before that image is copied. A row with three images gets its label drawn three times at the same anchor (`Plot.TextDrawsOrder`), and a label long enough to pass the 150-pixel margin from its start at x = 20 paints over the row's earlier images. So an image pixel is known to survive only when no row label with text is drawn after it is copied (`Plot.SavePlot`).
- Row labels that are all empty strings still open the label band, but no left margin (`Layout.EmptyRowLabelsGiveBandOnly`).
- Images are clipped only at the canvas edge, never at their cell. An image larger than the first can cover neighbouring cells, and the later image wins (`Raster.LastCoverWins`).
- The column-label offset counts UTF-8 bytes, not characters (`Layout.Utf8Len`).

## Model

| member | source | states |
|---|---|---|
| Decimal.FromNat | src/main.rs:170-172 | a count is printed as a canonical decimal numeral: digits only, no leading zero |
| Decimal.ToNatFromNat | src/main.rs:170-172 | reading back a printed count gives the count |
| Decimal.FromNatToNat | src/main.rs:170-172 | every canonical numeral is the printing of exactly one number |
| Decimal.FromNatInjective | src/main.rs:170-172 | different counts are printed differently |
| Decimal.NumeralEnds | src/main.rs:182-184 | a numeral followed by a non-digit can be split off uniquely |
| Layout.FramedNumerals | src/main.rs:182-184 | two numerals between fixed texts are recovered from the whole text |
| Layout.MessageInjective | src/main.rs:168-186 | different errors produce different messages, so a message identifies the error kind and both counts |
| Layout.Message | src/main.rs:168-185 | the three error texts: the first character tells a count mismatch from "Too many images", the eleventh tells row from column labels, and a mismatch text ends with `)` |
| Layout.DivCeil | src/main.rs:176-178 | the number of columns is the ceiling of images over rows: the least q with rows·q ≥ n |
| Layout.CeilQuotientUnique | src/main.rs:176-178 | any q with rows·q ≥ n > rows·(q−1) is that number of columns |
| Layout.Validate | src/main.rs:167-186 | row-label mismatch exactly when the row labels are non-empty and not `rows` long, reporting both counts; "Too many images" exactly when the labels fit and n > u32::MAX; a column-label error reports a non-empty label count different from the ceiling; success yields the ceiling quotient |
| Layout.ValidateOkIff | src/main.rs:167-186 | validation succeeds iff both label lists are empty or of the right length and n fits in u32 |
| Layout.AnyNonEmpty | src/main.rs:195 | true iff some row label is a non-empty string |
| Layout.LeftPadding | src/main.rs:195-199 | the left margin is 150 exactly when some row label is a non-empty string, and 0 exactly when every row label is empty |
| Layout.Band | src/main.rs:202-204 | the label band is 40 exactly when either label list is non-empty, and 0 exactly when both are empty |
| Layout.Plan | src/main.rs:188-205 | the geometry keeps the rows, columns and first image's size, and a left margin always comes with a label band |
| Layout.PaddingFacts | src/main.rs:195-205 | the margin is 150 iff some row label is non-empty, the band is 40 iff either list is non-empty; row height h + band; canvas height h·rows without labels and (h + 40)·rows + 40 with them; canvas width w·cols plus the margin |
| Layout.EmptyRowLabelsGiveBandOnly | src/main.rs:195-205 | row labels that are all empty give the 40-pixel band but no left margin |
| Layout.Row | src/main.rs:251 | the row of image i is the r with cols·r ≤ i < cols·r + cols |
| Layout.Col | src/main.rs:252 | the column of image i is below cols, and i = cols·row + column |
| Layout.ColumnX | src/main.rs:205-255 | a column's images start right of the left margin |
| Layout.ColumnInCanvas | src/main.rs:205-255 | a column's image area fits the canvas width, and the last column ends exactly at the right edge |
| Layout.RowY | src/main.rs:203-256 | a grid row's images start at least 40 pixels down |
| Layout.RowInCanvas | src/main.rs:203-256 | a grid row's image area at the first image's height ends at or above 40 − 2·band pixels past the canvas bottom; the last row ends 40 pixels above the bottom with a label band, and 40 pixels past it without one |
| Layout.CellInGrid | src/main.rs:249-252 | for every image index below n, the row is below `rows` and the column below `cols` |
| Layout.CellInjective | src/main.rs:251-252 | different images get different cells |
| Layout.CellOfIndex | src/main.rs:251-252 | image row·cols + col has row `row` and column `col` |
| Layout.CellAreasDisjoint | src/main.rs:249-256 | the image areas of two different cells never share a pixel |
| Layout.U32ToI32 | src/main.rs:229-230 | the conversion to i32 keeps values up to i32::MAX and gives exactly i32::MAX above |
| Layout.Utf8Len | src/main.rs:234 | a label's byte length lies between its character count and four times it, and equals it for ASCII |
| Layout.ColumnLabelDraw | src/main.rs:228-239 | a column label is drawn at y = 20, half the band, with its nominal width (20 pixels per byte) centred on the column's centre |
| Layout.RowLabelDraw | src/main.rs:259-261 | a row label is drawn at x = 20, inside where the margin would be, never in the top band, at the middle of its row's images |
| Layout.ColumnLabelOverColumn | src/main.rs:228-239 | a column label's anchor is in the top band, and the centre of its nominal width lies over its own column |
| Layout.RowLabelBesideRow | src/main.rs:259-261 | a row label starts inside the left margin, level with its row's images |
| Fonts.GlyphFor | src/main.rs:51-60 | the glyph comes from the font it is reported with, and that is the main font exactly when the main font has an outline for the character |
| Raster.CompositedShowsSomeImage | src/main.rs:208-283 | a pixel of the images composited in order over white is white or a pixel of some image that covers it |
| Raster.CompositedStep | src/main.rs:249-283 | compositing one more image changes a pixel exactly as copying that image onto the previous composite does |
| Raster.UncoveredStaysWhite | src/main.rs:210-283 | a pixel that no placed image covers stays white |
| Raster.LastCoverWins | src/main.rs:249-283 | a covered pixel shows the last image in input order that covers it |
| Raster.Canvas.constructor | src/main.rs:208 | a fresh width × height canvas of black pixels |
| Raster.Canvas.FillWhite | src/main.rs:210-212 | every canvas pixel becomes white |
| Raster.Canvas.DrawText | src/main.rs:63-159 | a `draw_text` call may change any canvas pixel; a text with no characters changes none |
| Raster.Canvas.CopyImage | src/main.rs:279-283 | each canvas pixel covered by the placed image takes the image's pixel; every other canvas pixel is unchanged, and image pixels past the canvas edge are dropped |
| Plot.GeometryOf | src/main.rs:188-205 | the geometry of a validated request has at least one column and the requested rows, with columns the ceiling quotient |
| Plot.Placements | src/main.rs:249-256 | image i is placed at column·width + margin, row·row_height + 40 |
| Plot.TextDraws | src/main.rs:226-271 | all label calls, the column labels first, one per column in column order |
| Plot.EmptyLabelsDrawNothing | src/main.rs:226-271 | when every row and column label is empty (or there are none), no drawing call has text |
| Plot.ColumnDrawsInOrder | src/main.rs:226-246 | one column-label call per label, in column order, at that column's anchor |
| Plot.RowDrawsPerImage | src/main.rs:248-271 | with labels for every row, one row-label call per image, for that image's row |
| Plot.TextDrawsOrder | src/main.rs:226-271 | all column labels come first; then, with row labels, one row-label call per image in image order, and without row labels none |
| Plot.NoRowDraws | src/main.rs:259 | without row labels the image loop makes no row-label call |
| Plot.TopBandStaysWhite | src/main.rs:256 | no image pixel lands in the top 40 pixel rows: the images' composite is white there |
| Plot.UniformImagesShowInTheirCells | src/main.rs:249-283 | when all images share the first one's size, no later image covers an image's pixel, and the images' composite shows that image's pixel |
| Plot.EmptyCellsStayWhite | src/main.rs:249-283 | when all images share the first one's size, no image covers the cells after the last image: the composite is white there |
| Plot.SavePlot | src/main.rs:161-293 | fails exactly when validation does, with that error and no canvas. Otherwise: a fresh canvas of the planned size and the label calls in issue order; a pixel whose last writer is image i, with no row-label text drawn after that copy, shows image i's pixel (`ShowsLastWriters`); when no call has text the canvas is the images composited in order over white (`ShowsComposite`) |
| Plot.DrawColumnLabels | src/main.rs:226-246 | the column-label loop issues exactly the column-label calls; labels without text leave the canvas unchanged |
| Plot.DrawRowLabel | src/main.rs:258-271 | the row-label step issues the call for image i's row when that row has a label; a label without text leaves the canvas unchanged |
| Plot.PlaceImages | src/main.rs:248-284 | the image loop issues the row-label calls; a pixel last written by image i, with no row-label text after that copy, shows image i's pixel; from white with no label text, it leaves the images' composite |
| Plot.Origin | src/main.rs:249-256 | the loop's computed origin for image i is the cell origin the layout places it at |
| Plot.PlaceImage | src/main.rs:248-284 | one pass of the image loop keeps every earlier image's last-written pixels unless it writes them itself, and with no label text extends the composite by its image |
| Plot.LabelAndCopy | src/main.rs:258-283 | after the row-label call and the copy, the image's pixels inside the canvas are on it; with no label text every other pixel is unchanged |
| Plot.LastToTouchStep | src/main.rs:248-283 | a pixel last written by an earlier image stays so when the next pass neither covers it nor draws label text |
| Scenarios.RowLabelMismatchText | src/main.rs:505-523 | the message for 2 row labels and 1 row is the text the test expects |
| Scenarios.ColumnLabelMismatchText | src/main.rs:525-543 | the message for 2 column labels and 1 column is the text the test expects |
| Scenarios.MismatchedRowLabels | src/main.rs:505-523 | one image, one row, two row labels fails with the row-label error (2, 1) |
| Scenarios.MismatchedColumnLabels | src/main.rs:525-543 | one image, one row, two column labels fails with the column-label error (2, 1) |
| Scenarios.TwoImagesSideBySide | src/main.rs:310-331 | two 100×100 images in one row: a 200×100 canvas, origins (0, 40) and (100, 40) |
| Scenarios.RowAndColumnLabels | src/main.rs:356-377 | two rows with labels and one column label: a 250×320 canvas and the exact label calls |
| Scenarios.DifferentImageSizesGrid | src/main.rs:379-400 | a 200×150 image over a 100×100 one: one column, a 200×300 canvas |
| Scenarios.DifferentImageSizes | src/main.rs:379-400 | on the label-free canvas: the top 40 rows are white, the first image fills rows 40-189, the second image fills columns 0-99 of rows 190-289, and every other pixel of rows 190-299 is white |
| Scenarios.NineLabelledImages | src/main.rs:423-457 | nine images in three labelled rows and columns: a 450×460 canvas |

## Left out

- Command-line parsing and `main` (src/main.rs:11-42): the model starts from the parsed arguments. `images` is required by the parser, so the model needs at least one image.
- Image decoding (`image::open`, `to_rgb8`) and its "Failed to open" errors: the images arrive decoded as values. The first image is opened once for its size and again in the loop; the same value is used for both.
- Loading the two embedded fonts and their "Failed to load" errors: they are compiled in.
- Raster.Canvas.DrawText: text rasterisation (glyph layout with ab_glyph advances and outlines, `f32` alpha blending, colour-emoji bitmaps) is foreign code and floating point, so the call's effect on the pixels is left open, apart from an empty text painting nothing. Each call is also returned as a `TextDraw` with its text and anchor.
- Plot.SavePlot: because of that, the final canvas is stated exactly only when no drawing call has text. With labels, it states only the pixels whose last writer is an image with no row-label text drawn after it. Label pixels and image pixels under later row labels are not stated.
- Plot.PlaceImages: the same limit applies, for the same reason.
- The `f32` rounding of the column-label offset (`len as f32 * 20.0 / 2.0`): it is exact for every label of at most 3,355,443 bytes, where `len * 20` is at most 2^26. Above that some lengths round (3,355,445 bytes gives 33,554,448 rather than 33,554,450). The model uses the exact product. The `i32` subtraction of the offset from the anchor is taken on unbounded integers.
- Saving the canvas and the final message: output I/O.
- `rows == 0` with no row labels and at most u32::MAX images makes `div_ceil` panic. `Layout.Validate` and `Plot.SavePlot` therefore require `rows >= 1`, a non-empty row-label list, or more than u32::MAX images; in the last case the result is "Too many images".
- Plot.SavePlot: requires `Plot.FitsU32`, that every `u32` the program computes stays in range, rather than modelling the overflow panics of debug builds and the wrap-around of release builds.
- `u32::try_from(i)?` in the image loop cannot fail once validation has passed, so it has no error path.
- The tests `test_unicode_labels` and `test_long_labels` pass no labels at all (src/main.rs:469-475, src/main.rs:492-498). They run the same label-free plot as `test_basic_plot`, and add nothing beyond `Scenarios.TwoImagesSideBySide`.
