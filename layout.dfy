/** Grid layout of the contact sheet: validation of the label counts, the
    number of columns, the padding and canvas size, the cell of each image
    and its pixel origin, and where the row and column labels are anchored.
    Rust's `u32` arithmetic is computed here on unbounded naturals; the
    caller bounds the values (see Plot.FitsU32). */
module Layout {
  import Decimal

  /** Height of the label band above the grid and above every row. */
  const TOP_PADDING: nat := 40
  /** Width of the left margin reserved for row labels. */
  const ROW_LABEL_PADDING: nat := 150
  /** x coordinate at which every row label starts. */
  const ROW_LABEL_X: int := 20
  /** Half the nominal label width per byte of label text: the width is `len * 20.0`, and the centring subtracts half of it. */
  const HALF_ADVANCE: nat := 10
  const U32_MAX: nat := 0xFFFF_FFFF
  const I32_MAX: nat := 0x7FFF_FFFF

  datatype PlotError =
    | RowLabelMismatch(labels: nat, rows: nat)
    | TooManyImages
    | ColumnLabelMismatch(labels: nat, cols: nat)

  datatype Result<T> = Ok(value: T) | Err(error: PlotError)

  /** The text of the error the program reports. The first character tells
      a count mismatch from the image-count error, the eleventh tells row
      labels from column labels, and a mismatch text ends with the closing
      parenthesis around the second count. */
  function Message(e: PlotError): (m: string)
    ensures |m| > 10
    ensures m[0] == (if e.TooManyImages? then 'T' else 'N')
    ensures !e.TooManyImages? ==> m[10] == (if e.RowLabelMismatch? then 'r' else 'c') && m[|m| - 1] == ')'
  {
    match e
    case RowLabelMismatch(l, r) =>
      "Number of row labels (" + Decimal.FromNat(l) + ") should match the number of rows ("
      + Decimal.FromNat(r) + ")"
    case TooManyImages => "Too many images"
    case ColumnLabelMismatch(l, c) =>
      "Number of column labels (" + Decimal.FromNat(l) + ") should match the number of columns ("
      + Decimal.FromNat(c) + ")"
  }

  lemma DropPrefix(p: string, x: string, y: string)
    requires p + x == p + y
    ensures x == y
  {
    assert x == (p + x)[|p|..];
    assert y == (p + y)[|p|..];
  }

  /** Two numerals framed by the same fixed texts can be read back: the
      frame `p _ m _ s` with non-digit `m` and `s` determines both numerals. */
  lemma FramedNumerals(p: string, a1: string, m: string, b1: string, s: string, a2: string, b2: string)
    requires Decimal.AllDigits(a1) && Decimal.AllDigits(a2) && Decimal.AllDigits(b1) && Decimal.AllDigits(b2)
    requires m != [] && !Decimal.IsDigit(m[0]) && s != [] && !Decimal.IsDigit(s[0])
    requires p + a1 + m + b1 + s == p + a2 + m + b2 + s
    ensures a1 == a2 && b1 == b2
  {
    assert p + a1 + m + b1 + s == p + (a1 + (m + (b1 + s)));
    assert p + a2 + m + b2 + s == p + (a2 + (m + (b2 + s)));
    DropPrefix(p, a1 + (m + (b1 + s)), a2 + (m + (b2 + s)));
    Decimal.NumeralEnds(a1, m + (b1 + s), a2, m + (b2 + s));
    DropPrefix(m, b1 + s, b2 + s);
    Decimal.NumeralEnds(b1, s, b2, s);
  }

  lemma Framed(p: string, m1: nat, m: string, n1: nat, m2: nat, n2: nat)
    requires m != [] && !Decimal.IsDigit(m[0])
    requires p + Decimal.FromNat(m1) + m + Decimal.FromNat(n1) + ")"
             == p + Decimal.FromNat(m2) + m + Decimal.FromNat(n2) + ")"
    ensures m1 == m2 && n1 == n2
  {
    FramedNumerals(p, Decimal.FromNat(m1), m, Decimal.FromNat(n1), ")",
                   Decimal.FromNat(m2), Decimal.FromNat(n2));
    Decimal.FromNatInjective(m1, m2);
    Decimal.FromNatInjective(n1, n2);
  }

  /** Different errors are reported with different texts: the message names
      the kind of mismatch and both counts it compared. */
  lemma MessageInjective(e1: PlotError, e2: PlotError)
    requires Message(e1) == Message(e2)
    ensures e1 == e2
  {
    if e1.RowLabelMismatch? && e2.RowLabelMismatch? {
      Framed("Number of row labels (", e1.labels, ") should match the number of rows (", e1.rows,
             e2.labels, e2.rows);
    } else if e1.ColumnLabelMismatch? && e2.ColumnLabelMismatch? {
      Framed("Number of column labels (", e1.labels, ") should match the number of columns (", e1.cols,
             e2.labels, e2.cols);
    }
  }

  // ---------------------------------------------------------------------
  // Number of columns

  /** `q` is the ceiling of `n / d`: the least `q` with `d * q >= n`. */
  predicate IsCeilQuotient(n: nat, d: nat, q: nat) {
    d * q >= n && d * q < n + d
  }

  lemma MulMonotone(d: nat, a: nat, b: nat)
    requires a <= b
    ensures d * a <= d * b
  {
    assert d * b == d * a + d * (b - a);
  }

  /** Multiples of `d` below one another are at least `d` apart. */
  lemma MulGap(d: nat, a: nat, b: nat)
    ensures a < b ==> d * a + d <= d * b
  {
    if a < b {
      MulMonotone(d, a + 1, b);
      assert d * (a + 1) == d * a + d;
    }
  }

  /** `u32::div_ceil`: quotient, plus one when there is a remainder. */
  function DivCeil(n: nat, d: nat): (q: nat)
    requires d >= 1
    ensures IsCeilQuotient(n, d, q)
  {
    var a, m := n / d, n % d;
    assert n == d * a + m;
    assert d * (a + 1) == d * a + d;
    if m > 0 then a + 1 else a
  }

  /** The ceiling quotient is unique, so any count that satisfies
      IsCeilQuotient is the number of columns. */
  lemma CeilQuotientUnique(n: nat, d: nat, q: nat)
    requires d >= 1 && IsCeilQuotient(n, d, q)
    ensures q == DivCeil(n, d)
  {
    var c := DivCeil(n, d);
    MulGap(d, q, c);
    MulGap(d, c, q);
  }

  // ---------------------------------------------------------------------
  // Validation

  predicate RowLabelsFit(rows: nat, rowLabels: seq<string>) {
    |rowLabels| == 0 || |rowLabels| == rows
  }

  /** The checks done before anything is drawn, in the program's order: the
      row-label count, then the image count fitting in `u32`, then the
      column-label count against the derived number of columns. On success
      the result is the number of columns. `rows == 0` reaches the division
      only when there are no row labels and the image count fits in `u32`,
      a case the program does not handle (it panics), hence the precondition. */
  /** The division by `rows` is reached only without row labels and with an
      image count `n` that fits in `u32`; there `rows` must be positive. */
  predicate CanDivide(n: nat, rows: nat, rowLabels: seq<string>) {
    rows >= 1 || |rowLabels| > 0 || n > U32_MAX
  }

  function Validate(n: nat, rows: nat, rowLabels: seq<string>, columnLabels: seq<string>): (r: Result<nat>)
    requires CanDivide(n, rows, rowLabels)
    ensures r.Ok? ==> rows >= 1 && IsCeilQuotient(n, rows, r.value)
    ensures r.Err? && r.error.RowLabelMismatch? <==> !RowLabelsFit(rows, rowLabels)
    ensures r.Err? && r.error.RowLabelMismatch? ==> r.error == RowLabelMismatch(|rowLabels|, rows)
    ensures r.Err? && r.error.TooManyImages? <==> RowLabelsFit(rows, rowLabels) && n > U32_MAX
    ensures r.Err? && r.error.ColumnLabelMismatch? ==>
              rows >= 1 && r.error.labels == |columnLabels| != 0
              && IsCeilQuotient(n, rows, r.error.cols) && r.error.labels != r.error.cols
  {
    if |rowLabels| != 0 && |rowLabels| != rows then
      Err(RowLabelMismatch(|rowLabels|, rows))
    else if n > U32_MAX then
      Err(TooManyImages)
    else
      var cols := DivCeil(n, rows);
      if |columnLabels| != 0 && |columnLabels| != cols then
        Err(ColumnLabelMismatch(|columnLabels|, cols))
      else
        Ok(cols)
  }

  /** Validation succeeds exactly when each non-empty label list has the
      right length, the right length for column labels being the ceiling of
      images over rows, and the image count fits in `u32`. */
  lemma ValidateOkIff(n: nat, rows: nat, rowLabels: seq<string>, columnLabels: seq<string>)
    requires CanDivide(n, rows, rowLabels)
    ensures Validate(n, rows, rowLabels, columnLabels).Ok? <==>
              && RowLabelsFit(rows, rowLabels)
              && n <= U32_MAX
              && (|columnLabels| == 0 || IsCeilQuotient(n, rows, |columnLabels|))
  {
    if RowLabelsFit(rows, rowLabels) && n <= U32_MAX && |columnLabels| != 0
       && IsCeilQuotient(n, rows, |columnLabels|) {
      CeilQuotientUnique(n, rows, |columnLabels|);
    }
  }

  // ---------------------------------------------------------------------
  // Geometry

  /** `row_labels.iter().any(|l| !l.is_empty())`. */
  function AnyNonEmpty(labels: seq<string>): (b: bool)
    ensures b <==> exists i :: 0 <= i < |labels| && labels[i] != []
  {
    if labels == [] then false
    else if labels[0] != [] then true
    else
      var rest := AnyNonEmpty(labels[1..]);
      assert forall i :: 1 <= i < |labels| ==> labels[i] == labels[1..][i - 1];
      rest
  }

  /** The layout derived from the first image's size: `band` is the label
      band (TOP_PADDING when any label list is non-empty, else 0). */
  datatype Geometry = Geometry(
    rows: nat, cols: nat, imageWidth: nat, imageHeight: nat, leftPadding: nat, band: nat)

  /** The left margin: ROW_LABEL_PADDING exactly when some row label has
      text, and none when every row label is empty. */
  function LeftPadding(rowLabels: seq<string>): (p: nat)
    ensures p == ROW_LABEL_PADDING <==> exists i :: 0 <= i < |rowLabels| && rowLabels[i] != []
    ensures p == 0 <==> forall i :: 0 <= i < |rowLabels| ==> rowLabels[i] == []
  {
    if AnyNonEmpty(rowLabels) then ROW_LABEL_PADDING else 0
  }

  /** The label band: TOP_PADDING exactly when some label list is non-empty,
      whether or not its labels have text. */
  function Band(rowLabels: seq<string>, columnLabels: seq<string>): (b: nat)
    ensures b == TOP_PADDING <==> rowLabels != [] || columnLabels != []
    ensures b == 0 <==> rowLabels == [] && columnLabels == []
  {
    if rowLabels != [] || columnLabels != [] then TOP_PADDING else 0
  }

  /** The geometry of a plot: it keeps the grid and the first image's size,
      and a left margin always comes with a label band. */
  function Plan(rows: nat, cols: nat, rowLabels: seq<string>, columnLabels: seq<string>,
                imageWidth: nat, imageHeight: nat): (g: Geometry)
    ensures g.rows == rows && g.cols == cols && g.imageWidth == imageWidth && g.imageHeight == imageHeight
    ensures g.leftPadding == ROW_LABEL_PADDING ==> g.band == TOP_PADDING
  {
    Geometry(rows, cols, imageWidth, imageHeight, LeftPadding(rowLabels), Band(rowLabels, columnLabels))
  }

  function RowHeight(g: Geometry): nat {
    g.imageHeight + g.band
  }

  function CanvasWidth(g: Geometry): nat {
    g.imageWidth * g.cols + g.leftPadding
  }

  function CanvasHeight(g: Geometry): nat {
    RowHeight(g) * g.rows + g.band
  }

  /** The row height and the canvas size in terms of the request: without
      labels the canvas is `h * rows` high, with labels `(h + 40) * rows + 40`;
      it is `w * cols` wide plus the margin, which is 150 exactly when some row
      label has text. A list of empty row labels gives a band but no margin. */
  lemma PaddingFacts(rows: nat, cols: nat, rowLabels: seq<string>, columnLabels: seq<string>, w: nat, h: nat)
    ensures var g := Plan(rows, cols, rowLabels, columnLabels, w, h);
            && (g.leftPadding == ROW_LABEL_PADDING <==> exists i :: 0 <= i < |rowLabels| && rowLabels[i] != [])
            && (g.leftPadding == 0 <==> forall i :: 0 <= i < |rowLabels| ==> rowLabels[i] == [])
            && (g.band == TOP_PADDING <==> rowLabels != [] || columnLabels != [])
            && (g.band == 0 <==> rowLabels == [] && columnLabels == [])
            && (rowLabels == [] && columnLabels == [] ==> RowHeight(g) == h && CanvasHeight(g) == h * rows)
            && (rowLabels != [] || columnLabels != [] ==>
                  RowHeight(g) == h + 40 && CanvasHeight(g) == (h + 40) * rows + 40)
            && CanvasWidth(g) == w * cols + (if exists i :: 0 <= i < |rowLabels| && rowLabels[i] != [] then 150 else 0)
  {
  }

  /** Row labels that are all empty strings: a label band, but no left margin. */
  lemma EmptyRowLabelsGiveBandOnly()
    ensures var g := Plan(2, 1, ["", ""], [], 100, 100);
            g.leftPadding == 0 && g.band == TOP_PADDING
            && CanvasWidth(g) == 100 && CanvasHeight(g) == 2 * 140 + 40
  {
    assert !AnyNonEmpty(["", ""]);
  }

  // ---------------------------------------------------------------------
  // Cells and origins

  /** Row of the cell of image `i` (row-major fill order): the `r` whose
      run of `cols` indices contains `i`. */
  function Row(g: Geometry, i: nat): (r: nat)
    requires g.cols >= 1
    ensures g.cols * r <= i < g.cols * r + g.cols
  {
    assert i == g.cols * (i / g.cols) + i % g.cols;
    i / g.cols
  }

  /** Column of the cell of image `i`: its offset within its row's run. */
  function Col(g: Geometry, i: nat): (c: nat)
    requires g.cols >= 1
    ensures c < g.cols && i == g.cols * Row(g, i) + c
  {
    i % g.cols
  }

  /** Left edge of the images in grid column `col`, right of the left margin. */
  function ColumnX(g: Geometry, col: nat): (x: nat)
    ensures g.leftPadding <= x
  {
    col * g.imageWidth + g.leftPadding
  }

  /** A column's image area fits the canvas width, and the last column ends
      exactly at the canvas's right edge. */
  lemma ColumnInCanvas(g: Geometry, col: nat)
    requires col < g.cols
    ensures ColumnX(g, col) + g.imageWidth <= CanvasWidth(g)
    ensures col + 1 == g.cols ==> ColumnX(g, col) + g.imageWidth == CanvasWidth(g)
  {
    MulGap(g.imageWidth, col, g.cols);
    assert col + 1 == g.cols ==> g.imageWidth * g.cols == col * g.imageWidth + g.imageWidth;
  }

  /** Top edge of the images in grid row `row`. The program always adds
      TOP_PADDING here, also when there is no label band, so no image starts
      in the top TOP_PADDING pixel rows. */
  function RowY(g: Geometry, row: nat): (y: nat)
    ensures TOP_PADDING <= y
  {
    row * RowHeight(g) + TOP_PADDING
  }

  /** A grid row's image area ends `TOP_PADDING - 2 * band` pixels below the
      canvas bottom or above it: with a band the last row ends TOP_PADDING
      above the bottom edge, without one it is pushed TOP_PADDING past it and
      clipped. */
  lemma RowInCanvas(g: Geometry, row: nat)
    requires row < g.rows
    ensures RowY(g, row) + g.imageHeight + 2 * g.band <= CanvasHeight(g) + TOP_PADDING
    ensures row + 1 == g.rows ==> RowY(g, row) + g.imageHeight + 2 * g.band == CanvasHeight(g) + TOP_PADDING
  {
    MulGap(RowHeight(g), row, g.rows);
    assert row + 1 == g.rows ==> RowHeight(g) * g.rows == row * RowHeight(g) + RowHeight(g);
  }

  function XStart(g: Geometry, i: nat): nat
    requires g.cols >= 1
  {
    ColumnX(g, Col(g, i))
  }

  function YStart(g: Geometry, i: nat): nat
    requires g.cols >= 1
  {
    RowY(g, Row(g, i))
  }

  lemma DivModUnique(x: nat, d: nat, q: nat, m: nat)
    requires d >= 1 && m < d && x == d * q + m
    ensures x / d == q && x % d == m
  {
    var q', m' := x / d, x % d;
    assert x == d * q' + m';
    MulGap(d, q, q');
    MulGap(d, q', q);
  }

  /** Every image index below `n` lands inside the `rows x cols` grid. */
  lemma CellInGrid(n: nat, rows: nat, cols: nat, i: nat)
    requires rows >= 1 && IsCeilQuotient(n, rows, cols) && i < n
    ensures cols >= 1 && i / cols < rows && i % cols < cols
  {
    assert cols >= 1;
    assert i == cols * (i / cols) + i % cols;
    assert rows * cols == cols * rows;
    MulGap(cols, i / cols, rows);
    MulGap(cols, rows - 1, i / cols);
  }

  /** Distinct images get distinct cells. */
  lemma CellInjective(g: Geometry, i: nat, j: nat)
    requires g.cols >= 1 && i != j
    ensures (Row(g, i), Col(g, i)) != (Row(g, j), Col(g, j))
  {
  }

  /** The cell of index `row * cols + col` is `(row, col)`: every cell of the
      grid is reached by exactly one index. */
  lemma CellOfIndex(g: Geometry, row: nat, col: nat)
    requires g.cols >= 1 && col < g.cols
    ensures Row(g, row * g.cols + col) == row && Col(g, row * g.cols + col) == col
  {
    DivModUnique(row * g.cols + col, g.cols, row, col);
  }

  /** Image area of the cell of image `i`, at the first image's size. */
  predicate InCellArea(g: Geometry, i: nat, px: nat, py: nat)
    requires g.cols >= 1
  {
    XStart(g, i) <= px < XStart(g, i) + g.imageWidth
    && YStart(g, i) <= py < YStart(g, i) + g.imageHeight
  }

  /** The image areas of two different cells never overlap. */
  lemma CellAreasDisjoint(g: Geometry, i: nat, j: nat, px: nat, py: nat)
    requires g.cols >= 1 && i != j
    ensures !(InCellArea(g, i, px, py) && InCellArea(g, j, px, py))
  {
    CellInjective(g, i, j);
    ColumnsApart(g, Col(g, i), Col(g, j), px);
    RowsApart(g, Row(g, i), Row(g, j), py);
  }

  lemma ColumnsApart(g: Geometry, c1: nat, c2: nat, px: nat)
    ensures c1 != c2 ==>
              !(ColumnX(g, c1) <= px < ColumnX(g, c1) + g.imageWidth
                && ColumnX(g, c2) <= px < ColumnX(g, c2) + g.imageWidth)
  {
    MulGap(g.imageWidth, c1, c2);
    MulGap(g.imageWidth, c2, c1);
  }

  lemma RowsApart(g: Geometry, r1: nat, r2: nat, py: nat)
    ensures r1 != r2 ==>
              !(RowY(g, r1) <= py < RowY(g, r1) + g.imageHeight
                && RowY(g, r2) <= py < RowY(g, r2) + g.imageHeight)
  {
    MulGap(RowHeight(g), r1, r2);
    MulGap(RowHeight(g), r2, r1);
  }

  // ---------------------------------------------------------------------
  // Label anchors

  /** `imx::numeric::u32_to_i32`: values above `i32::MAX` saturate. */
  function U32ToI32(v: nat): (r: nat)
    ensures r <= I32_MAX && r <= v
    ensures v <= I32_MAX ==> r == v
    ensures v > I32_MAX ==> r == I32_MAX
  {
    if v > I32_MAX then I32_MAX else v
  }

  /** Number of bytes of the UTF-8 encoding of `c` (Rust's `char::len_utf8`). */
  function Utf8CharLen(c: char): nat {
    if c as int < 0x80 then 1
    else if c as int < 0x800 then 2
    else if c as int < 0x1_0000 then 3
    else 4
  }

  /** Rust's `str::len`: the UTF-8 byte length, between one and four bytes per character. */
  function Utf8Len(s: string): (n: nat)
    ensures |s| <= n <= 4 * |s|
    ensures (forall i :: 0 <= i < |s| ==> s[i] as int < 0x80) ==> n == |s|
  {
    if s == [] then 0 else Utf8CharLen(s[0]) + Utf8Len(s[1..])
  }

  /** One `draw_text` call: the text and its integer anchor. */
  datatype TextDraw = TextDraw(text: string, x: int, y: int)

  /** Where the label of grid column `col` is drawn: centred on the column,
      shifted left by HALF_ADVANCE pixels per byte of the label, at half the
      label band's height: the label's nominal width, HALF_ADVANCE twice per
      byte, is centred on the column's centre. */
  function ColumnLabelDraw(g: Geometry, col: nat, text: string): (d: TextDraw)
    ensures d.text == text && d.y == TOP_PADDING / 2
    ensures d.x + (2 * HALF_ADVANCE * Utf8Len(text)) / 2 == U32ToI32(ColumnX(g, col) + g.imageWidth / 2)
  {
    TextDraw(text,
             U32ToI32(ColumnX(g, col) + g.imageWidth / 2) - Utf8Len(text) * HALF_ADVANCE,
             U32ToI32(TOP_PADDING / 2))
  }

  /** Where the label of grid row `row` is drawn: ROW_LABEL_X pixels from the
      left edge, at the vertical middle of the row's images. The anchor is
      never in the top band, and starts left of where the margin ends. */
  function RowLabelDraw(g: Geometry, row: nat, text: string): (d: TextDraw)
    ensures d.text == text && 0 <= d.x < ROW_LABEL_PADDING && TOP_PADDING <= d.y
    ensures d.y <= RowY(g, row) + g.imageHeight / 2
    ensures RowY(g, row) + g.imageHeight / 2 <= I32_MAX ==> d.y == RowY(g, row) + g.imageHeight / 2
  {
    TextDraw(text, ROW_LABEL_X, U32ToI32(RowY(g, row) + g.imageHeight / 2))
  }

  /** A column label sits in the top band, and the centre of its nominal
      width lies over its own column. */
  lemma ColumnLabelOverColumn(g: Geometry, col: nat, text: string)
    requires col < g.cols && g.imageWidth >= 1 && CanvasWidth(g) <= I32_MAX
    ensures var d := ColumnLabelDraw(g, col, text);
            && 0 <= d.y < TOP_PADDING
            && ColumnX(g, col) <= d.x + Utf8Len(text) * HALF_ADVANCE < ColumnX(g, col) + g.imageWidth
  {
    ColumnInCanvas(g, col);
  }

  /** A row label starts inside the left margin (when there is one) and its
      anchor lies within the pixel rows of its grid row's images. */
  lemma RowLabelBesideRow(g: Geometry, row: nat, text: string)
    requires g.imageHeight >= 1 && RowY(g, row) + g.imageHeight <= I32_MAX
    ensures var d := RowLabelDraw(g, row, text);
            && (g.leftPadding == ROW_LABEL_PADDING ==> 0 <= d.x < g.leftPadding)
            && RowY(g, row) <= d.y < RowY(g, row) + g.imageHeight
  {
  }
}
