/** `save_image_plot`: validate the request, derive the grid from the first
    image, allocate a white canvas, draw the column labels, and copy every
    image into its cell in input order, drawing its row's label first. Image
    decoding, font loading and saving are outside the model: the images
    arrive decoded. What a `draw_text` call paints is not modelled (see
    Raster.Canvas.DrawText), so the canvas is stated exactly only where no
    label with text is drawn after the pixel was last written; each call is
    also returned as a TextDraw, in issue order. */
module Plot {
  import opened Layout
  import opened Raster

  /** What the plot is made from: decoded images in input order, the row
      count, and the row and column label lists. */
  datatype Request = Request(images: seq<Image>, rows: nat, rowLabels: seq<string>, columnLabels: seq<string>)


  /** The geometry of a request that passed validation, sized by its first image. */
  function GeometryOf(req: Request): (g: Geometry)
    requires CanDivide(|req.images|, req.rows, req.rowLabels) && Validate(|req.images|, req.rows, req.rowLabels, req.columnLabels).Ok? && |req.images| >= 1
    ensures g.cols >= 1 && g.rows == req.rows >= 1
    ensures IsCeilQuotient(|req.images|, g.rows, g.cols)
  {
    Plan(req.rows, Validate(|req.images|, req.rows, req.rowLabels, req.columnLabels).value, req.rowLabels, req.columnLabels,
         req.images[0].width, req.images[0].height)
  }

  /** Image `i` placed at the origin of its cell. */
  function Placements(images: seq<Image>, g: Geometry): (ps: seq<Placement>)
    requires g.cols >= 1
    ensures |ps| == |images|
    ensures forall i :: 0 <= i < |ps| ==> ps[i] == Placement(images[i], XStart(g, i), YStart(g, i))
  {
    seq(|images|, i requires 0 <= i < |images| => Placement(images[i], XStart(g, i), YStart(g, i)))
  }

  /** Every `u32` value the program computes stays in range: the canvas
      size, each image origin, the last pixel position it writes, and each
      row label's anchor before its conversion to `i32`. */
  predicate FitsU32(req: Request, g: Geometry)
    requires g.cols >= 1
  {
    && CanvasWidth(g) <= U32_MAX && CanvasHeight(g) <= U32_MAX
    && forall i :: 0 <= i < |req.images| ==>
         && YStart(g, i) <= U32_MAX
         && (req.images[i].width >= 1 && req.images[i].height >= 1 ==>
               XStart(g, i) + req.images[i].width - 1 <= U32_MAX
               && YStart(g, i) + req.images[i].height - 1 <= U32_MAX)
         && (Row(g, i) < |req.rowLabels| ==> YStart(g, i) + g.imageHeight / 2 <= U32_MAX)
  }

  // ---------------------------------------------------------------------
  // The label drawing calls, in the order the program issues them

  /** The first `c` column labels, left to right. */
  function ColumnDraws(g: Geometry, labels: seq<string>, c: nat): seq<TextDraw>
    requires c <= |labels|
  {
    if c == 0 then [] else ColumnDraws(g, labels, c - 1) + [ColumnLabelDraw(g, c - 1, labels[c - 1])]
  }

  /** The row label drawn before image `i` is copied, if its row has one. */
  function RowDrawFor(g: Geometry, rowLabels: seq<string>, i: nat): seq<TextDraw>
    requires g.cols >= 1
  {
    if Row(g, i) < |rowLabels| then [RowLabelDraw(g, Row(g, i), rowLabels[Row(g, i)])] else []
  }

  /** The row labels drawn while the first `n` images are placed. */
  function RowDraws(g: Geometry, rowLabels: seq<string>, n: nat): seq<TextDraw>
    requires g.cols >= 1
  {
    if n == 0 then [] else RowDraws(g, rowLabels, n - 1) + RowDrawFor(g, rowLabels, n - 1)
  }

  /** Every label drawing call of the plot: the column labels first, one per
      column in order, then the row-label calls of the image loop. */
  function TextDraws(req: Request, g: Geometry): (draws: seq<TextDraw>)
    requires g.cols >= 1
    ensures |draws| >= |req.columnLabels|
    ensures forall k :: 0 <= k < |req.columnLabels| ==> draws[k] == ColumnLabelDraw(g, k, req.columnLabels[k])
  {
    ColumnDrawsInOrder(g, req.columnLabels, |req.columnLabels|);
    ColumnDraws(g, req.columnLabels, |req.columnLabels|) + RowDraws(g, req.rowLabels, |req.images|)
  }

  /** None of the calls has any text, so none of them paints anything. */
  predicate Blank(draws: seq<TextDraw>) {
    forall k :: 0 <= k < |draws| ==> draws[k].text == []
  }

  lemma BlankConcat(a: seq<TextDraw>, b: seq<TextDraw>)
    ensures Blank(a + b) <==> Blank(a) && Blank(b)
  {
    if Blank(a + b) {
      forall k | 0 <= k < |a| ensures a[k].text == [] {
        assert a[k] == (a + b)[k];
      }
      forall k | 0 <= k < |b| ensures b[k].text == [] {
        assert b[k] == (a + b)[|a| + k];
      }
    }
  }

  lemma {:induction false} ColumnDrawsBlank(g: Geometry, labels: seq<string>, c: nat)
    requires c <= |labels| && forall k :: 0 <= k < |labels| ==> labels[k] == []
    ensures Blank(ColumnDraws(g, labels, c))
  {
    if c > 0 {
      ColumnDrawsBlank(g, labels, c - 1);
      BlankConcat(ColumnDraws(g, labels, c - 1), [ColumnLabelDraw(g, c - 1, labels[c - 1])]);
    }
  }

  lemma {:induction false} RowDrawsBlank(g: Geometry, rowLabels: seq<string>, n: nat)
    requires g.cols >= 1 && forall k :: 0 <= k < |rowLabels| ==> rowLabels[k] == []
    ensures Blank(RowDraws(g, rowLabels, n))
  {
    if n > 0 {
      RowDrawsBlank(g, rowLabels, n - 1);
      BlankConcat(RowDraws(g, rowLabels, n - 1), RowDrawFor(g, rowLabels, n - 1));
    }
  }

  /** Labels without text draw nothing: when every row and column label is
      the empty string (in particular, when there are no labels), no drawing
      call has any text. */
  lemma EmptyLabelsDrawNothing(req: Request, g: Geometry)
    requires g.cols >= 1
    requires forall k :: 0 <= k < |req.rowLabels| ==> req.rowLabels[k] == []
    requires forall k :: 0 <= k < |req.columnLabels| ==> req.columnLabels[k] == []
    ensures Blank(TextDraws(req, g))
  {
    ColumnDrawsBlank(g, req.columnLabels, |req.columnLabels|);
    RowDrawsBlank(g, req.rowLabels, |req.images|);
    BlankConcat(ColumnDraws(g, req.columnLabels, |req.columnLabels|), RowDraws(g, req.rowLabels, |req.images|));
  }

  /** Image `i` of the first `n` is the last thing written to canvas pixel
      `(px, py)`: it covers the pixel, and after its copy no image covers the
      pixel and no row-label call with text is made. */
  predicate LastToTouch(ps: seq<Placement>, g: Geometry, rowLabels: seq<string>, i: nat, n: nat, px: nat, py: nat)
    requires g.cols >= 1 && i < n <= |ps|
  {
    && Covers(ps[i], px, py)
    && forall k :: i < k < n ==> !Covers(ps[k], px, py) && Blank(RowDrawFor(g, rowLabels, k))
  }

  lemma {:induction false} ColumnDrawsInOrder(g: Geometry, labels: seq<string>, c: nat)
    requires c <= |labels|
    ensures |ColumnDraws(g, labels, c)| == c
    ensures forall k :: 0 <= k < c ==> ColumnDraws(g, labels, c)[k] == ColumnLabelDraw(g, k, labels[k])
  {
    if c > 0 {
      ColumnDrawsInOrder(g, labels, c - 1);
    }
  }

  lemma {:induction false} RowDrawsPerImage(g: Geometry, rowLabels: seq<string>, n: nat)
    requires g.cols >= 1
    requires forall i :: 0 <= i < n ==> Row(g, i) < |rowLabels|
    ensures |RowDraws(g, rowLabels, n)| == n
    ensures forall i :: 0 <= i < n ==>
              RowDraws(g, rowLabels, n)[i] == RowLabelDraw(g, Row(g, i), rowLabels[Row(g, i)])
  {
    if n > 0 {
      RowDrawsPerImage(g, rowLabels, n - 1);
    }
  }

  /** Column labels are drawn first, one per column in order; then, when
      there are row labels, one row label per IMAGE (so a row's label is
      drawn once for every image in that row), in image order. */
  lemma TextDrawsOrder(req: Request)
    requires CanDivide(|req.images|, req.rows, req.rowLabels) && Validate(|req.images|, req.rows, req.rowLabels, req.columnLabels).Ok? && |req.images| >= 1
    ensures var g := GeometryOf(req);
            var draws := TextDraws(req, g);
            var c := |req.columnLabels|;
            && |draws| == c + (if req.rowLabels == [] then 0 else |req.images|)
            && (forall k :: 0 <= k < c ==> draws[k] == ColumnLabelDraw(g, k, req.columnLabels[k]))
            && (req.rowLabels != [] ==>
                  forall i :: 0 <= i < |req.images| ==>
                    Row(g, i) < |req.rowLabels|
                    && draws[c + i] == RowLabelDraw(g, Row(g, i), req.rowLabels[Row(g, i)]))
  {
    var g := GeometryOf(req);
    ColumnDrawsInOrder(g, req.columnLabels, |req.columnLabels|);
    if req.rowLabels == [] {
      NoRowDraws(g, |req.images|);
    } else {
      assert |req.rowLabels| == g.rows;
      forall i | 0 <= i < |req.images|
        ensures Row(g, i) < |req.rowLabels|
      {
        CellInGrid(|req.images|, g.rows, g.cols, i);
      }
      RowDrawsPerImage(g, req.rowLabels, |req.images|);
    }
  }

  /** Without row labels the image loop makes no row-label call:
      `row_labels.get(row)` is always `None`. */
  lemma {:induction false} NoRowDraws(g: Geometry, n: nat)
    requires g.cols >= 1
    ensures RowDraws(g, [], n) == []
  {
    if n > 0 {
      NoRowDraws(g, n - 1);
    }
  }

  // ---------------------------------------------------------------------
  // What the composited canvas shows

  /** Every image origin is at least TOP_PADDING pixels down, so no image
      pixel lands in the top band: the images' composite is white there. */
  lemma TopBandStaysWhite(images: seq<Image>, g: Geometry, px: nat, py: nat)
    requires g.cols >= 1 && py < TOP_PADDING
    ensures Composited(Placements(images, g), px, py) == WHITE
  {
    UncoveredStaysWhite(Placements(images, g), px, py);
  }

  /** When every image has the first image's size, no later image covers a
      pixel that an image covers, so the composite shows that image's pixel. */
  lemma UniformImagesShowInTheirCells(req: Request, i: nat, px: nat, py: nat)
    requires CanDivide(|req.images|, req.rows, req.rowLabels) && Validate(|req.images|, req.rows, req.rowLabels, req.columnLabels).Ok? && |req.images| >= 1
    requires forall j :: 0 <= j < |req.images| ==>
               req.images[j].width == req.images[0].width && req.images[j].height == req.images[0].height
    requires i < |req.images|
    requires Covers(Placements(req.images, GeometryOf(req))[i], px, py)
    ensures var ps := Placements(req.images, GeometryOf(req));
            forall k :: i < k < |ps| ==> !Covers(ps[k], px, py)
    ensures var g := GeometryOf(req);
            Composited(Placements(req.images, g), px, py)
              == At(req.images[i], px - XStart(g, i), py - YStart(g, i))
  {
    var g := GeometryOf(req);
    var ps := Placements(req.images, g);
    forall j | i < j < |ps|
      ensures !Covers(ps[j], px, py)
    {
      CellAreasDisjoint(g, i, j, px, py);
    }
    LastCoverWins(ps, px, py, i);
  }

  /** When every image has the first image's size, no image covers the image
      area of a grid cell past the last image (the tail of an incomplete last
      row): the composite is white there. */
  lemma EmptyCellsStayWhite(req: Request, k: nat, px: nat, py: nat)
    requires CanDivide(|req.images|, req.rows, req.rowLabels) && Validate(|req.images|, req.rows, req.rowLabels, req.columnLabels).Ok? && |req.images| >= 1
    requires forall j :: 0 <= j < |req.images| ==>
               req.images[j].width == req.images[0].width && req.images[j].height == req.images[0].height
    requires |req.images| <= k && InCellArea(GeometryOf(req), k, px, py)
    ensures Composited(Placements(req.images, GeometryOf(req)), px, py) == WHITE
  {
    var g := GeometryOf(req);
    var ps := Placements(req.images, g);
    forall j | 0 <= j < |ps|
      ensures !Covers(ps[j], px, py)
    {
      CellAreasDisjoint(g, j, k, px, py);
    }
    UncoveredStaysWhite(ps, px, py);
  }


  // ---------------------------------------------------------------------
  // The orchestrator

  /** The whole plot. A request that fails validation reports the error and
      creates no canvas. Otherwise the canvas has the planned size and the
      label drawing calls are returned in the order they are issued. A canvas
      pixel that image `i` was the last to write, with no row-label text
      drawn after that copy, shows image `i`'s pixel; this holds for every
      covered pixel of the last image, and for every covered pixel when no
      row label has text. When no drawing call has text (no labels, or only
      empty ones), the canvas is exactly the images composited in input order
      over white. */
  method SavePlot(req: Request) returns (r: Result<Canvas>, draws: seq<TextDraw>)
    requires CanDivide(|req.images|, req.rows, req.rowLabels)
    requires Validate(|req.images|, req.rows, req.rowLabels, req.columnLabels).Ok? ==> |req.images| >= 1 && FitsU32(req, GeometryOf(req))
    ensures r.Err? <==> Validate(|req.images|, req.rows, req.rowLabels, req.columnLabels).Err?
    ensures r.Err? ==> r.error == Validate(|req.images|, req.rows, req.rowLabels, req.columnLabels).error && draws == []
    ensures r.Ok? ==>
              var g := GeometryOf(req);
              var ps := Placements(req.images, g);
              && fresh(r.value) && fresh(r.value.pixels) && r.value.Valid()
              && r.value.width == CanvasWidth(g) && r.value.height == CanvasHeight(g)
              && draws == TextDraws(req, g)
              && ShowsLastWriters(r.value.pixels, ps, g, req.rowLabels, |ps|)
              && (Blank(draws) ==> ShowsComposite(r.value.pixels, ps))
  {
    var checked := Validate(|req.images|, req.rows, req.rowLabels, req.columnLabels);
    if checked.Err? {
      return Err(checked.error), [];
    }
    var g := Plan(req.rows, checked.value, req.rowLabels, req.columnLabels,
                  req.images[0].width, req.images[0].height);
    assert g == GeometryOf(req);

    var canvas := new Canvas(CanvasWidth(g), CanvasHeight(g));
    canvas.FillWhite();
    var columnDraws := DrawColumnLabels(canvas, g, req.columnLabels);
    var rowDraws := PlaceImages(canvas, req.images, req.rowLabels, g);
    BlankConcat(columnDraws, rowDraws);
    r, draws := Ok(canvas), columnDraws + rowDraws;
  }

  /** Every pixel of the canvas buffer whose last writer among the first `n` placements is
      image `i` (see `LastToTouch`) shows image `i`'s pixel. */
  ghost predicate ShowsLastWriters(pixels: array2<Rgb>, ps: seq<Placement>, g: Geometry, rowLabels: seq<string>, n: nat)
    requires g.cols >= 1 && n <= |ps|
    reads pixels
  {
    forall px, py, i | 0 <= px < pixels.Length0 && 0 <= py < pixels.Length1 && 0 <= i < n
      && LastToTouch(ps, g, rowLabels, i, n, px, py) ::
      pixels[px, py] == At(ps[i].img, px - ps[i].x, py - ps[i].y)
  }

  /** Every pixel of the canvas buffer is the composite of the placements `ps` over white. */
  ghost predicate ShowsComposite(pixels: array2<Rgb>, ps: seq<Placement>)
    reads pixels
  {
    forall px, py | 0 <= px < pixels.Length0 && 0 <= py < pixels.Length1 ::
      pixels[px, py] == Composited(ps, px, py)
  }

  /** The column-label loop: one drawing call per column label, left to
      right. Labels without text leave the canvas as it was. */
  method DrawColumnLabels(canvas: Canvas, g: Geometry, labels: seq<string>) returns (draws: seq<TextDraw>)
    requires canvas.Valid()
    modifies canvas.pixels
    ensures draws == ColumnDraws(g, labels, |labels|)
    ensures Blank(draws) ==>
              forall px, py :: 0 <= px < canvas.width && 0 <= py < canvas.height ==>
                canvas.pixels[px, py] == old(canvas.pixels[px, py])
  {
    draws := [];
    var c := 0;
    while c < |labels|
      invariant c <= |labels|
      invariant draws == ColumnDraws(g, labels, c)
      invariant Blank(draws) ==>
                  forall px, py :: 0 <= px < canvas.width && 0 <= py < canvas.height ==>
                    canvas.pixels[px, py] == old(canvas.pixels[px, py])
    {
      var d := ColumnLabelDraw(g, c, labels[c]);
      label Before:
      canvas.DrawText(d.text, d.x, d.y);
      BlankConcat(draws, [d]);
      if Blank(draws + [d]) {
        assert [d][0] == d;
        assert d.text == [];
        forall px, py | 0 <= px < canvas.width && 0 <= py < canvas.height
          ensures canvas.pixels[px, py] == old(canvas.pixels[px, py])
        {
          assert canvas.pixels[px, py] == old@Before(canvas.pixels[px, py]);
        }
      }
      draws := draws + [d];
      c := c + 1;
    }
  }

  /** The image loop: for each image in input order, draw its row's label
      (when the row has one), then copy the image to its cell origin. */
  method PlaceImages(canvas: Canvas, images: seq<Image>, rowLabels: seq<string>, g: Geometry)
    returns (draws: seq<TextDraw>)
    requires canvas.Valid() && g.cols >= 1
    modifies canvas.pixels
    ensures draws == RowDraws(g, rowLabels, |images|)
    ensures ShowsLastWriters(canvas.pixels, Placements(images, g), g, rowLabels, |images|)
    ensures (forall px, py :: 0 <= px < canvas.width && 0 <= py < canvas.height ==>
               old(canvas.pixels[px, py]) == WHITE) && Blank(draws) ==>
              ShowsComposite(canvas.pixels, Placements(images, g))
  {
    ghost var ps := Placements(images, g);
    ghost var white := forall px, py :: 0 <= px < canvas.width && 0 <= py < canvas.height ==>
                         canvas.pixels[px, py] == WHITE;
    assert ps[..0] == [];
    draws := [];
    var i := 0;
    while i < |images|
      invariant i <= |images|
      invariant draws == RowDraws(g, rowLabels, i)
      invariant ShowsLastWriters(canvas.pixels, ps, g, rowLabels, i)
      invariant white && Blank(draws) ==> ShowsComposite(canvas.pixels, ps[..i])
    {
      var origin := Origin(images, g, i);
      var rowDraw := PlaceImage(canvas, ps, origin, rowLabels, g, i);
      RowDrawsStep(g, rowLabels, i);
      BlankConcat(draws, rowDraw);
      draws := draws + rowDraw;
      i := i + 1;
    }
    assert i == |images|;
    assert ps[..i] == ps;
  }

  /** The loop's step computing `x_start` and `y_start` for image `i`: the
      closed form `Placements(images, g)[i]`, evaluated at one index. */
  method Origin(images: seq<Image>, g: Geometry, i: nat) returns (p: Placement)
    requires g.cols >= 1 && i < |images|
    ensures p == Placements(images, g)[i]
  {
    p := Placement(images[i], XStart(g, i), YStart(g, i));
  }

  /** The row-label calls of one more image extend those of the images before it. */
  lemma RowDrawsStep(g: Geometry, rowLabels: seq<string>, i: nat)
    requires g.cols >= 1
    ensures RowDraws(g, rowLabels, i + 1) == RowDraws(g, rowLabels, i) + RowDrawFor(g, rowLabels, i)
  {
  }

  /** One pass of the image loop, placing image `i` of the placements `ps`
      at its cell origin `p`: the pixels whose last writer was an earlier
      image stay as they were unless this pass writes them, and with no
      label text the canvas becomes the composite of one more image. */
  method PlaceImage(canvas: Canvas, ghost ps: seq<Placement>, p: Placement, rowLabels: seq<string>, g: Geometry, i: nat)
    returns (draws: seq<TextDraw>)
    requires canvas.Valid() && g.cols >= 1 && i < |ps| && p == ps[i]
    modifies canvas.pixels
    ensures draws == RowDrawFor(g, rowLabels, i)
    ensures old(ShowsLastWriters(canvas.pixels, ps, g, rowLabels, i)) ==> ShowsLastWriters(canvas.pixels, ps, g, rowLabels, i + 1)
    ensures old(ShowsComposite(canvas.pixels, ps[..i])) && Blank(draws) ==> ShowsComposite(canvas.pixels, ps[..i + 1])
  {
    draws := LabelAndCopy(canvas, p, rowLabels, g, i);
    if old(ShowsLastWriters(canvas.pixels, ps, g, rowLabels, i)) {
      forall px, py, j | 0 <= px < canvas.width && 0 <= py < canvas.height && 0 <= j < i + 1
                         && LastToTouch(ps, g, rowLabels, j, i + 1, px, py)
        ensures canvas.pixels[px, py] == At(ps[j].img, px - ps[j].x, py - ps[j].y)
      {
        if j < i {
          LastToTouchStep(ps, g, rowLabels, j, i, px, py);
          assert canvas.pixels[px, py] == old(canvas.pixels[px, py]);
        }
      }
    }
    if old(ShowsComposite(canvas.pixels, ps[..i])) && Blank(draws) {
      forall px, py | 0 <= px < canvas.width && 0 <= py < canvas.height
        ensures canvas.pixels[px, py] == Composited(ps[..i + 1], px, py)
      {
        CompositedStep(ps, i, px, py);
      }
    }
  }

  /** The statements of one pass of the image loop: draw image `i`'s row
      label, when its row has one, then copy the image to `p`, the origin of
      its cell. The image's pixels inside the canvas are on the canvas
      afterwards; when the label has no text, every other pixel is unchanged. */
  method LabelAndCopy(canvas: Canvas, p: Placement, rowLabels: seq<string>, g: Geometry, i: nat)
    returns (draws: seq<TextDraw>)
    requires canvas.Valid() && g.cols >= 1
    modifies canvas.pixels
    ensures draws == RowDrawFor(g, rowLabels, i)
    ensures forall px, py :: 0 <= px < canvas.width && 0 <= py < canvas.height && Covers(p, px, py) ==>
              canvas.pixels[px, py] == At(p.img, px - p.x, py - p.y)
    ensures Blank(draws) ==>
              forall px, py :: 0 <= px < canvas.width && 0 <= py < canvas.height ==>
                canvas.pixels[px, py] == CopiedPixel(old(canvas.pixels[px, py]), p, px, py)
  {
    draws := DrawRowLabel(canvas, g, rowLabels, i);
    canvas.CopyImage(p.img, p.x, p.y);
  }

  /** A pixel that image `j` is the last to write among the first `i + 1`
      images, with `j < i`, was last written by `j` among the first `i`, and
      step `i` neither covers it nor draws text. */
  lemma LastToTouchStep(ps: seq<Placement>, g: Geometry, rowLabels: seq<string>, j: nat, i: nat, px: nat, py: nat)
    requires g.cols >= 1 && j < i < |ps| && LastToTouch(ps, g, rowLabels, j, i + 1, px, py)
    ensures LastToTouch(ps, g, rowLabels, j, i, px, py)
    ensures !Covers(ps[i], px, py) && Blank(RowDrawFor(g, rowLabels, i))
  {
  }

  /** The row-label step of the image loop: image `i`'s row label is drawn
      when `row_labels` has an entry for its row. A label without text leaves
      the canvas as it was. */
  method DrawRowLabel(canvas: Canvas, g: Geometry, rowLabels: seq<string>, i: nat) returns (draws: seq<TextDraw>)
    requires canvas.Valid() && g.cols >= 1
    modifies canvas.pixels
    ensures draws == RowDrawFor(g, rowLabels, i)
    ensures Blank(draws) ==>
              forall px, py :: 0 <= px < canvas.width && 0 <= py < canvas.height ==>
                canvas.pixels[px, py] == old(canvas.pixels[px, py])
  {
    var row := Row(g, i);
    draws := [];
    if row < |rowLabels| {
      var d := RowLabelDraw(g, row, rowLabels[row]);
      canvas.DrawText(d.text, d.x, d.y);
      draws := [d];
      assert Blank(draws) ==> d.text == [] by {
        if Blank(draws) { assert draws[0] == d; }
      }
    }
  }
}
