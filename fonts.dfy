/** The two-font lookup used when text is laid out: a character is taken
    from the main outline font when it has a real glyph there, and from the
    colour-emoji font otherwise. The fonts themselves are foreign; the model
    keeps only the two questions the lookup asks of them. */
module Fonts {

  /** A glyph index (ab_glyph's `GlyphId` wraps a `u16`). */
  type GlyphId = x: nat | x < 0x1_0000

  /** What the lookup needs of a font: the glyph it maps a character to, and
      whether a glyph has an outline. The program assumes that the `.notdef`
      glyph of an unmapped character has no outline; whether it does is left
      to the font. */
  datatype Font = Font(glyphId: char -> GlyphId, hasOutline: GlyphId -> bool)

  /** Which font of the pair a glyph comes from. */
  datatype FontChoice = Main | Emoji

  datatype FontPair = FontPair(main: Font, emoji: Font)

  function Chosen(fonts: FontPair, which: FontChoice): Font {
    match which
    case Main => fonts.main
    case Emoji => fonts.emoji
  }

  /** `FontPair::glyph_id`: the glyph always belongs to the font it is
      reported with, and that font is the main one exactly when the main
      font has an outline for the character's glyph. */
  function GlyphFor(fonts: FontPair, c: char): (r: (GlyphId, FontChoice))
    ensures r.0 == Chosen(fonts, r.1).glyphId(c)
    ensures r.1 == Main <==> fonts.main.hasOutline(fonts.main.glyphId(c))
  {
    var mainId := fonts.main.glyphId(c);
    if fonts.main.hasOutline(mainId) then (mainId, Main)
    else (fonts.emoji.glyphId(c), Emoji)
  }
}
