/** The scenarios of the program's own tests, stated over the model. */
module Scenarios {
  import opened Layout
  import opened Raster
  import opened Plot
  import Decimal

  lemma SmallNumerals()
    ensures Decimal.FromNat(1) == "1" && Decimal.FromNat(2) == "2"
  {
  }

  lemma RowLabelMismatchSpelled()
    ensures "Number of row labels (" + "2" + ") should match the number of rows (" + "1" + ")"
            == "Number of row labels (2) should match the number of rows (1)"
  {
  }

  lemma ColumnLabelMismatchSpelled()
    ensures "Number of column labels (" + "2" + ") should match the number of columns (" + "1" + ")"
            == "Number of column labels (2) should match the number of columns (1)"
  {
  }

  /** The text the tests expect for two row labels and one row. */
  lemma RowLabelMismatchText()
    ensures Message(RowLabelMismatch(2, 1)) == "Number of row labels (2) should match the number of rows (1)"
  {
    SmallNumerals();
    RowLabelMismatchSpelled();
  }

  /** The text the tests expect for two column labels and one column. */
  lemma ColumnLabelMismatchText()
    ensures Message(ColumnLabelMismatch(2, 1))
              == "Number of column labels (2) should match the number of columns (1)"
  {
    SmallNumerals();
    ColumnLabelMismatchSpelled();
  }

  /** One image, one row, two row labels: the row-label error. */
  lemma MismatchedRowLabels(img: Image)
    ensures var req := Request([img], 1, ["Row 1", "Row 2"], []);
            Validate(|req.images|, req.rows, req.rowLabels, req.columnLabels) == Err(RowLabelMismatch(2, 1))
  {
  }

  /** One image, one row, two column labels: the column-label error. */
  lemma MismatchedColumnLabels(img: Image)
    ensures var req := Request([img], 1, [], ["Col 1", "Col 2"]);
            Validate(|req.images|, req.rows, req.rowLabels, req.columnLabels) == Err(ColumnLabelMismatch(2, 1))
  {
    assert DivCeil(1, 1) == 1;
  }

  /** Two 100 x 100 images in one row without labels: a 200 x 100 canvas, the
      second image 100 pixels to the right, and both pushed 40 pixels down. */
  lemma TwoImagesSideBySide(a: Image, b: Image)
    requires a.width == 100 && a.height == 100 && b.width == 100 && b.height == 100
    ensures var req := Request([a, b], 1, [], []);
            var g := GeometryOf(req);
            && CanvasWidth(g) == 200 && CanvasHeight(g) == 100
            && XStart(g, 0) == 0 && XStart(g, 1) == 100
            && YStart(g, 0) == 40 && YStart(g, 1) == 40
  {
  }

  /** Nine images in three rows with three row and three column labels. */
  lemma NineLabelledImages(imgs: seq<Image>)
    requires |imgs| == 9 && imgs[0].width == 100 && imgs[0].height == 100
    ensures var req := Request(imgs, 3, ["Top", "Middle", "Bottom"], ["Left", "Center", "Right"]);
            var g := GeometryOf(req);
            && g.cols == 3 && g.leftPadding == ROW_LABEL_PADDING && g.band == TOP_PADDING
            && CanvasWidth(g) == 450 && CanvasHeight(g) == 460
  {
    assert AnyNonEmpty(["Top", "Middle", "Bottom"]) by {
      assert ["Top", "Middle", "Bottom"][0] != [];
    }
  }

  /** Two 100 x 100 images in two rows, with two row labels and one column
      label: a 250 x 320 canvas, the column label centred over the single
      column, and each row label at the middle of its row. */
  lemma RowAndColumnLabels(a: Image, b: Image)
    requires a.width == 100 && a.height == 100 && b.width == 100 && b.height == 100
    ensures var req := Request([a, b], 2, ["Row 1", "Row 2"], ["Col 1"]);
            && Validate(|req.images|, req.rows, req.rowLabels, req.columnLabels) == Ok(1)
            && var g := GeometryOf(req);
               && CanvasWidth(g) == 250 && CanvasHeight(g) == 320
               && XStart(g, 1) == 150 && YStart(g, 1) == 180
               && TextDraws(req, g)
                    == [TextDraw("Col 1", 150, 20), TextDraw("Row 1", 20, 90), TextDraw("Row 2", 20, 230)]
  {
    var req := Request([a, b], 2, ["Row 1", "Row 2"], ["Col 1"]);
    assert DivCeil(2, 2) == 1;
    assert AnyNonEmpty(["Row 1", "Row 2"]) by {
      assert ["Row 1", "Row 2"][0] != [];
    }
    var g := GeometryOf(req);
    assert Utf8Len("Col 1") == 5;
    assert ColumnDraws(g, req.columnLabels, 1) == [TextDraw("Col 1", 150, 20)];
    assert RowDraws(g, req.rowLabels, 2) == [TextDraw("Row 1", 20, 90), TextDraw("Row 2", 20, 230)];
  }

  /** A 200 x 150 image above a 100 x 100 one, without labels: the grid is
      sized by the first image, one column of two 150-pixel rows. */
  lemma DifferentImageSizesGrid(a: Image, b: Image)
    requires a.width == 200 && a.height == 150
    ensures var req := Request([a, b], 2, [], []);
            && Validate(|req.images|, req.rows, req.rowLabels, req.columnLabels) == Ok(1)
            && var g := GeometryOf(req);
               && g == Geometry(2, 1, 200, 150, 0, 0)
               && CanvasWidth(g) == 200 && CanvasHeight(g) == 300
  {
    assert DivCeil(2, 2) == 1;
  }

  /** With that grid, which has no labels so the canvas is the images'
      composite: the top 40 pixel rows are white, the first image fills rows
      40 to 189, the smaller second image sits at (0, 190), and the rest of
      its cell inside the 200 x 300 canvas stays white. */
  lemma DifferentImageSizes(a: Image, b: Image)
    requires a.width == 200 && a.height == 150 && b.width == 100 && b.height == 100
    ensures var ps := Placements([a, b], Geometry(2, 1, 200, 150, 0, 0));
            && (forall px: nat, py: nat | px < 200 && py < 40 :: Composited(ps, px, py) == WHITE)
            && (forall px: nat, py: nat | px < 200 && 40 <= py < 190 :: Composited(ps, px, py) == At(a, px, py - 40))
            && (forall px: nat, py: nat | px < 100 && 190 <= py < 290 :: Composited(ps, px, py) == At(b, px, py - 190))
            && (forall px: nat, py: nat | px < 200 && 190 <= py < 300 && !(px < 100 && py < 290) ::
                  Composited(ps, px, py) == WHITE)
  {
    var ps := Placements([a, b], Geometry(2, 1, 200, 150, 0, 0));
    assert ps[0] == Placement(a, 0, 40) && ps[1] == Placement(b, 0, 190);
    forall px: nat, py: nat | px < 200 && py < 300
      ensures py < 40 ==> Composited(ps, px, py) == WHITE
      ensures 40 <= py < 190 ==> Composited(ps, px, py) == At(a, px, py - 40)
      ensures px < 100 && 190 <= py < 290 ==> Composited(ps, px, py) == At(b, px, py - 190)
      ensures 190 <= py && !(px < 100 && py < 290) ==> Composited(ps, px, py) == WHITE
    {
      if py < 40 || (190 <= py && !(px < 100 && py < 290)) {
        UncoveredStaysWhite(ps, px, py);
      } else if py < 190 {
        LastCoverWins(ps, px, py, 0);
      } else {
        LastCoverWins(ps, px, py, 1);
      }
    }
  }
}
