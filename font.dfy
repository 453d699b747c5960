/**
 * The font backend as the generator sees it: whether a font loads at a
 * point size, which metrics the backend reports for a character at that
 * size, the size of the surface it renders for a character, the font's
 * descent, and the height of the surface it renders for the whole table as
 * one string. All of them are parameters of the model (the TrueType
 * rasteriser itself is not modelled).
 */
module FontBackend {
  import opened Base

  /**
   * Bounding box of one glyph relative to its pen origin, in pixels
   * (`i32` fields in the backend).
   */
  datatype GlyphMetrics = GlyphMetrics(minx: i32, maxx: i32, miny: i32, maxy: i32)

  /** Width and height in pixels of a rendered surface (`u32` in the backend). */
  datatype SurfaceSize = SurfaceSize(width: nat, height: nat)

  /**
   * A font file, as a set of lookups by integer point size:
   * `loads(size)` says whether loading it succeeds, `metrics(size, ch)` is
   * the metrics lookup for `ch` (`None` when the font has no such glyph),
   * `render(size, ch)` the size of the shaded rendering of the one-character
   * string `ch` (`None` when rendering fails), `descent(size)` the font's
   * descent, and `tableHeight(size)` the height of the shaded rendering of
   * all 256 table characters as one string (`None` when it fails).
   */
  datatype Font = Font(
    loads: nat -> bool,
    metrics: (nat, char) -> Option<GlyphMetrics>,
    render: (nat, char) -> Option<SurfaceSize>,
    descent: nat -> i32,
    tableHeight: nat -> Option<nat>)
}
