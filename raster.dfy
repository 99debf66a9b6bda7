/** RGB images and the canvas the contact sheet is composited on. Decoded
    source images are immutable values; the canvas is one owned buffer that
    is written in place. `Composited` is the reference meaning of copying a
    sequence of placed images, in order, onto a white canvas. */
module Raster {

  newtype byte = x: int | 0 <= x < 256

  datatype Rgb = Rgb(r: byte, g: byte, b: byte)

  const WHITE: Rgb := Rgb(255, 255, 255)
  const BLACK: Rgb := Rgb(0, 0, 0)

  /** A decoded image: `rows[y][x]` is the pixel at column `x` of row `y`. */
  datatype Bitmap = Bitmap(width: nat, height: nat, rows: seq<seq<Rgb>>)

  predicate WellFormed(b: Bitmap) {
    |b.rows| == b.height && forall y :: 0 <= y < |b.rows| ==> |b.rows[y]| == b.width
  }

  type Image = b: Bitmap | WellFormed(b) witness Bitmap(0, 0, [])

  function At(img: Image, x: nat, y: nat): Rgb
    requires x < img.width && y < img.height
  {
    img.rows[y][x]
  }

  /** An image together with the canvas position of its top-left pixel. */
  datatype Placement = Placement(img: Image, x: nat, y: nat)

  /** Canvas pixel `(px, py)` receives a pixel of the placed image. */
  predicate Covers(p: Placement, px: nat, py: nat) {
    p.x <= px < p.x + p.img.width && p.y <= py < p.y + p.img.height
  }

  /** The value of canvas pixel `(px, py)` after copying `p`, when it held `under` before. */
  function CopiedPixel(under: Rgb, p: Placement, px: nat, py: nat): Rgb {
    if Covers(p, px, py) then At(p.img, px - p.x, py - p.y) else under
  }

  /** Canvas pixel `(px, py)` after the placements are copied, first to last,
      onto a white canvas. */
  function Composited(ps: seq<Placement>, px: nat, py: nat): Rgb {
    if ps == [] then WHITE
    else CopiedPixel(Composited(ps[..|ps| - 1], px, py), ps[|ps| - 1], px, py)
  }

  /** A composited pixel is the background or the pixel of some placed image
      that covers it: copying invents no colour. */
  lemma {:induction false} CompositedShowsSomeImage(ps: seq<Placement>, px: nat, py: nat)
    ensures var c := Composited(ps, px, py);
            c == WHITE || exists k :: 0 <= k < |ps| && Covers(ps[k], px, py)
                                      && c == At(ps[k].img, px - ps[k].x, py - ps[k].y)
  {
    if ps != [] {
      var init := ps[..|ps| - 1];
      CompositedShowsSomeImage(init, px, py);
      var under := Composited(init, px, py);
      if !Covers(ps[|ps| - 1], px, py) && under != WHITE {
        var k :| 0 <= k < |init| && Covers(init[k], px, py)
                 && under == At(init[k].img, px - init[k].x, py - init[k].y);
        assert init[k] == ps[k];
      }
    }
  }

  /** Compositing one more placement copies it over the earlier ones. */
  lemma CompositedStep(ps: seq<Placement>, i: nat, px: nat, py: nat)
    requires i < |ps|
    ensures Composited(ps[..i + 1], px, py) == CopiedPixel(Composited(ps[..i], px, py), ps[i], px, py)
  {
    assert ps[..i + 1][..i] == ps[..i];
  }

  /** A pixel no placement covers keeps the background. */
  lemma {:induction false} UncoveredStaysWhite(ps: seq<Placement>, px: nat, py: nat)
    requires forall k :: 0 <= k < |ps| ==> !Covers(ps[k], px, py)
    ensures Composited(ps, px, py) == WHITE
  {
    if ps != [] {
      UncoveredStaysWhite(ps[..|ps| - 1], px, py);
    }
  }

  /** A covered pixel shows the last placement that covers it: on overlaps
      the later image wins. */
  lemma {:induction false} LastCoverWins(ps: seq<Placement>, px: nat, py: nat, k: nat)
    requires k < |ps| && Covers(ps[k], px, py)
    requires forall j :: k < j < |ps| ==> !Covers(ps[j], px, py)
    ensures Composited(ps, px, py) == At(ps[k].img, px - ps[k].x, py - ps[k].y)
  {
    if k < |ps| - 1 {
      LastCoverWins(ps[..|ps| - 1], px, py, k);
    }
  }

  /** The mutable RGB canvas (`RgbImage`), `width x height`, indexed `[x, y]`. */
  class Canvas {
    const width: nat
    const height: nat
    const pixels: array2<Rgb>

    ghost predicate Valid()
      reads this
    {
      pixels.Length0 == width && pixels.Length1 == height
    }

    /** `RgbImage::new`: a zeroed, that is black, buffer. */
    constructor (width: nat, height: nat)
      ensures Valid() && fresh(pixels)
      ensures this.width == width && this.height == height
      ensures forall px, py :: 0 <= px < width && 0 <= py < height ==> pixels[px, py] == BLACK
    {
      this.width := width;
      this.height := height;
      pixels := new Rgb[width, height]((x, y) => BLACK);
    }

    /** The loop over `pixels_mut()` that paints every pixel white. */
    method FillWhite()
      requires Valid()
      modifies pixels
      ensures forall px, py :: 0 <= px < width && 0 <= py < height ==> pixels[px, py] == WHITE
    {
      var y := 0;
      while y < height
        invariant y <= height
        invariant forall px, py :: 0 <= px < width && 0 <= py < y ==> pixels[px, py] == WHITE
      {
        var x := 0;
        while x < width
          invariant x <= width
          invariant forall px, py :: 0 <= px < width && 0 <= py < y ==> pixels[px, py] == WHITE
          invariant forall px :: 0 <= px < x ==> pixels[px, y] == WHITE
        {
          pixels[x, y] := WHITE;
          x := x + 1;
        }
        y := y + 1;
      }
    }

    /** A `draw_text` call with its text and integer anchor. Glyph layout,
        rasterisation and blending are not modelled, so the call may change
        any pixel of the canvas; a text without characters lays out no glyph
        and leaves every pixel as it was. */
    method DrawText(text: string, x: int, y: int)
      requires Valid()
      modifies pixels
      ensures text == [] ==>
                forall px, py :: 0 <= px < width && 0 <= py < height ==> pixels[px, py] == old(pixels[px, py])
    {
    }

    /** The `enumerate_pixels` loop that copies `img` with its top-left pixel at
        `(xStart, yStart)`, dropping every pixel that falls outside the canvas:
        afterwards each canvas pixel covered by the image holds the image's
        pixel and every other canvas pixel is unchanged. */
    method CopyImage(img: Image, xStart: nat, yStart: nat)
      requires Valid()
      modifies pixels
      ensures forall px, py :: 0 <= px < width && 0 <= py < height ==>
                pixels[px, py] == CopiedPixel(old(pixels[px, py]), Placement(img, xStart, yStart), px, py)
    {
      var y := 0;
      while y < img.height
        invariant y <= img.height
        invariant forall px, py :: 0 <= px < width && 0 <= py < height ==>
                    pixels[px, py] == (if xStart <= px < xStart + img.width && yStart <= py < yStart + y
                                       then At(img, px - xStart, py - yStart) else old(pixels[px, py]))
      {
        var x := 0;
        while x < img.width
          invariant x <= img.width
          invariant forall px, py :: 0 <= px < width && 0 <= py < height ==>
                      pixels[px, py] == (if (xStart <= px < xStart + img.width && yStart <= py < yStart + y)
                                            || (py == yStart + y && xStart <= px < xStart + x)
                                         then At(img, px - xStart, py - yStart) else old(pixels[px, py]))
        {
          if xStart + x < width && yStart + y < height {
            pixels[xStart + x, yStart + y] := At(img, x, y);
          }
          x := x + 1;
        }
        y := y + 1;
      }
    }
  }
}
