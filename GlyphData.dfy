/**
 * The glyph as the strike reports it, and `GlyphData`, the immutable entry
 * the cache stores for a glyph code at a sub-pixel phase.
 */
module GlyphEntries {
  import opened Wrappers
  import opened Packing

  /** The blank boundary around each visible glyph in the atlas. */
  const BORDER: int := 1

  /** What the strike reports for a glyph: mask size and origin, and the pixel advances. */
  datatype Glyph = Glyph(width: nat, height: nat, originX: int, originY: int, xAdvance: real, yAdvance: real)

  /** `GlyphData`: a cache entry; `rect` is None for a glyph with nothing to draw. */
  datatype GlyphData = GlyphData(originX: int, originY: int, blankBoundary: int,
                                 xAdvance: real, yAdvance: real, rect: Option<Rect>)

  /** A glyph is drawn only when both its width and its height are non-zero. */
  predicate Visible(g: Glyph)
  {
    g.width != 0 && g.height != 0
  }

  /** A glyph with zero width or height is cached with no rectangle and its advances. */
  function WhitespaceData(g: Glyph): GlyphData
  {
    GlyphData(0, 0, 0, g.xAdvance, g.yAdvance, None)
  }

  /** A visible glyph keeps its mask origin, gets the border, and its rectangle in the atlas. */
  function VisibleData(g: Glyph, rect: Rect): GlyphData
  {
    GlyphData(g.originX, g.originY, BORDER, g.xAdvance, g.yAdvance, Some(rect))
  }

  /** The rectangle reserved for a visible glyph before the packer places it: the mask plus the border on each edge. */
  function PaddedRect(g: Glyph): Rect
  {
    Rect(0, 0, g.width + 2 * BORDER, g.height + 2 * BORDER)
  }

  /** The size of the drawn part of an entry's rectangle: the rectangle without its blank boundary. */
  function DrawnWidth(d: GlyphData): int
    requires d.rect.Some?
  {
    d.rect.value.width - 2 * d.blankBoundary
  }

  function DrawnHeight(d: GlyphData): int
    requires d.rect.Some?
  {
    d.rect.value.height - 2 * d.blankBoundary
  }

  /**
   * An entry for a visible glyph placed anywhere in the atlas gives back
   * the glyph's mask size once the border is taken off, and its advances;
   * a whitespace entry has no rectangle and keeps the advances.
   */
  lemma EntrySize(g: Glyph, placed: Rect)
    requires placed.width == PaddedRect(g).width && placed.height == PaddedRect(g).height
    ensures var d := VisibleData(g, placed);
      DrawnWidth(d) == g.width && DrawnHeight(d) == g.height && d.xAdvance == g.xAdvance && d.yAdvance == g.yAdvance
    ensures WhitespaceData(g).rect.None? && WhitespaceData(g).xAdvance == g.xAdvance && WhitespaceData(g).yAdvance == g.yAdvance
  {
  }
}
