# mycp437generator core, modelled in Dafny

mycp437generator turns a TrueType font into a 16 x 16 atlas of the 256
characters of IBM Code Page 437. It can also dump that atlas as a bitmask
of 32-bit words for a shader. This project models the tool's core logic
from `src/main.rs`, over Dafny's unbounded integers with the Rust integer
semantics written out. It also proves what the code promises.

- **Cp437** (`cp437.dfy`): the code-point table `get_cp437_char`.
  - It is a total map from bytes to characters.
  - It is the identity on printable ASCII.
  - It draws codes 0 and 255 as a space.
  - Every other code is drawn with a character at U+00A0 or above.
- **Packer** (`packer.dfy`): the pixel-processing loops of `dump_surface_as_hex`.
  - A pixel is ink when its three colour bytes lie inside the buffer and their truncated mean is below 128.
  - Each scanline is padded with background bits to a multiple of 32.
  - Every 32 bits are OR-ed into one word, pixel `i` of the chunk at `1 << i`.
  - The methods keep the source's loops. They are proved against the specification function `Packed`.
  - The lemmas prove the consumer's side: the word count, and that reading pixel `(x, y)` back gives exactly the ink test of that pixel.
- **Solver** (`solver.dfy`): the width-match size search.
  - It tries sizes 1..127.
  - At each size it takes the widest `maxx as u32` over the table characters the font has.
  - It stops at the first size whose width reaches the target.
- **Placement** (`placement.dfy`): laying the glyphs out in the grid.
  - It covers the cell origin and the horizontal centring clamped at 0.
  - It covers the three-way vertical rule, the overflow warning, the skip conditions and the clamped destination rectangle.
  - The atlas is modelled as the list of blits asked for, onto a white background.
- **Generator** (`generator.dfy`): the size search followed by composition at the chosen size, with the widest glyph's width as the cell width.
- **FontBackend** (`font.dfy`) and **Base** (`base.dfy`):
  - The font library appears only as lookups by point size: load success, glyph metrics, rendered surface size, descent, and the height of the whole table rendered as one string.
  - Rust's `i32 as u32` and truncating `/ 2` are written out explicitly.

Two places where the code is followed rather than its comments or a
natural reading of it:

- Code 255 is drawn as a plain U+0020 space, although its comment says "Non-breaking space" (`src/main.rs:199`).
- A glyph is skipped when its metrics have `miny == maxy` or `minx == maxx` (`src/main.rs:443`). A rendered surface of zero width or height is not a reason to skip.

A skipped glyph does not always leave its cell background-only. A glyph
taller than its cell with `miny + descent <= 1` gets the negative vertical
offset `fh - h` (`src/main.rs:457`), so its blit starts in the cell above
it, which may belong to a skipped glyph (`Placement.RaisedGlyphReachesCellAbove`).
The overflow warning does not fire for it. A skipped cell provably stays
white only when no glyph is raised in this way
(`Placement.SkippedCellStaysBackground`).

## Model

| member | source | states |
|---|---|---|
| Cp437.CharOf | src/main.rs:36-201 | The table is total on bytes, is the identity on 32..126, and draws codes 0 and 255 as `' '` |
| Cp437.ExtendedCodesAreNotAscii | src/main.rs:36-201 | Every code outside 32..126 other than 0 and 255 is drawn with a character at U+00A0 or above |
| Cp437.DrawnLikeAscii | src/main.rs:36-201 | A printable ASCII character is drawn for its own code only, except that the space is also drawn for 0 and 255 |
| Base.I32AsU32 | src/main.rs:324 | `maxx as u32` keeps a non-negative value and wraps a negative one to `x + 2^32`, staying below `2^32` |
| Base.TruncHalf | src/main.rs:428 | `i32` division by 2 as Rust defines it: `a == 2 * q + r` with `-2 < r < 2`, and a non-zero remainder has the sign of `a` (truncation toward zero); the quotient of a non-positive `a` is never positive |
| Packer.PaddedWidth | src/main.rs:214 | The padded scanline width is a multiple of 32, is at least `width` and below `width + 32`, and equals `width` exactly when `width % 32 == 0` |
| Packer.WordBits | src/main.rs:259-266 | Bit `i` of the word packed from a chunk is the chunk's `i`-th bit, and the bits past the chunk's end are clear |
| Packer.PackBits | src/main.rs:258-267 | A scanline of `32 * n` bits packs into exactly `n` words |
| Packer.PackBitsWord | src/main.rs:258-267 | Word `k` of a scanline is packed from its `k`-th chunk of 32 bits |
| Packer.PackBitsBit | src/main.rs:258-267 | Bit `i` of word `k` of a scanline is bit `32 * k + i` of the scanline |
| Packer.PackChunk | src/main.rs:259-266 | The OR loop over a chunk computes the chunk's word |
| Packer.ScanlineBitsOf | src/main.rs:235-256 | The pixel loop and the padding loop produce one ink bit per pixel, then `false` up to the padded width |
| Packer.PackRow | src/main.rs:258-267 | The chunk loop produces the scanline's words in order |
| Packer.PackScanline | src/main.rs:233-267 | One iteration of the row loop appends the packed words of scanline `y` |
| Packer.PackSurface | src/main.rs:227-268 | The row loop produces the words of all scanlines, top to bottom |
| Packer.PackedLength | src/main.rs:231-268 | The mask has exactly `height * padded_width / 32` words |
| Packer.PackedWordAt | src/main.rs:233-268 | Word `c` of scanline `y` sits at index `y * padded_width / 32 + c` of the mask |
| Packer.PackedBitIsInk | src/main.rs:237-265 | Reading pixel `(x, y)` at word `(y * padded_width + x) / 32`, bit `x % 32` gives ink iff `x < width`, the pixel's three bytes lie inside the buffer and their truncated mean is below 128 |
| Packer.PaddingAndOffBufferBitsClear | src/main.rs:237-265 | Padding bits and pixels whose bytes fall outside the buffer read as background |
| Packer.ClearBitsAreZero | src/main.rs:258-267 | A scanline with no ink packs to zero words only |
| Packer.BlankSurfacePacksToZero | src/main.rs:237-267 | A surface all of whose bytes are at least 128 packs to zero words only |
| Solver.WidestGlyph | src/main.rs:317-325 | The inner loop computes the running maximum of `maxx as u32` over the 256 table characters the font has at that size, starting from 0 |
| Solver.RunningMaxIsMaximum | src/main.rs:317-325 | That running maximum bounds every present width and is either 0 or one of them |
| Solver.FindFontSize | src/main.rs:307-338 | The search returns a size in 1..127. Every smaller size loaded and stayed below the target. A found size loads, carries its widest glyph's width, and reaches the target unless it is 127. A load failure aborts at the size that failed |
| Solver.NegativeExtentWraps | src/main.rs:324 | A glyph whose `maxx` is negative makes the widest width at least `2^31`, through the `u32` cast |
| Placement.XOffset | src/main.rs:428 | The horizontal offset is never negative. A glyph narrower than its cell is centred: twice the offset plus its width is the cell width, or one less. A glyph at least as wide as its cell gets offset 0 |
| Placement.YOffset | src/main.rs:453-461 | The glyph is top-aligned (offset 0) or bottom-aligned (offset + height == cell height). For a height other than the cell's, bottom alignment happens exactly when `miny + descent <= 1`; a height equal to the cell's is always top-aligned. The offset is negative exactly when the glyph is higher than the cell and `miny + descent <= 1` |
| Placement.ExceedsExactly | src/main.rs:463-474 | The overflow warning fires exactly for a glyph higher than the cell with `miny + descent > 1`. A bottom-aligned glyph never draws it |
| Placement.PlaceGlyph | src/main.rs:411-480 | A glyph is skipped for no surface, then no metrics, then a zero-extent box, each exactly in its case. Otherwise the rect's corner is the cell origin plus `XOffset` and `YOffset` (so it is centred and top- or bottom-aligned as those state), its size is clamped to `min(w, fw) x min(h, fh)` and stays within its column. It lies within its cell vertically unless the glyph is raised above the cell, in which case it starts above the cell's top. The warning flag is set as the warning condition says |
| Placement.CellInsideAtlas | src/main.rs:398-399 | Every cell lies inside the `16 * fw` by `16 * fh` atlas |
| Placement.CellIndexAtInverse | src/main.rs:422-425 | Every pixel of cell `(i % 16, i / 16)` maps back to index `i` |
| Placement.CellsDisjoint | src/main.rs:422-425 | Cells of distinct indices share no pixel |
| Placement.BlitListIsThePlacedEntries | src/main.rs:411-497 | The blits are exactly the placed glyphs, each with its own placement, in strictly increasing index order |
| Placement.SkippedCellStaysBackground | src/main.rs:404-497 | When no glyph is raised above its cell, no blit covers any pixel of a skipped glyph's cell, so that cell stays white |
| Placement.ComposeAtlas | src/main.rs:354-497 | Step 3 aborts when the whole-table render fails or has zero height. Otherwise it gives the atlas size and the blit list of the glyphs rendered one by one |
| Placement.RaisedGlyphReachesCellAbove | src/main.rs:453-480 | A glyph taller than its cell (at most twice) with `miny + descent <= 1` is placed, and its blit covers the bottom row of the cell of code `index - 16` at the blit's left edge |
| Generator.BuildAtlas | src/main.rs:307-399 | The pipeline fails only by a failed load or a composition abort. Composition, successful or not, happens at the size the search chose: that size loaded, reaches the target unless it is 127, and every smaller size loaded and stayed below the target. A built atlas uses that size's widest glyph as cell width, so it is `16 * max_width` wide; an abort is `Compose`'s failure at that size |

## Left out

- Foreign calls are outside the model:
  - SDL and SDL_ttf initialisation, `set_hinting`, `render(...).shaded(...)`, `find_glyph_metrics`, `Surface::new`, `fill_rect`, the blit and `save`.
  - Their results are lookups of `FontBackend.Font`, or the list of blits asked for.
  - The atlas pixels a blit writes are not modelled, so nothing connects the blit list to the bytes the packer reads.
- Graphics-library behaviour is not modelled:
  - the blit ignoring the destination rectangle's width and height;
  - clipping to the atlas;
  - `Rect::new` clamping;
  - a failing blit aborting the run.
- The text output of the hex dump is not modelled: the header comments, the `0x%08X` lines eight per line, and the `#define` trailers. These are console formatting.
- CLI parsing, the "either --output or --hex-dump" check, and all progress and debug logging on stderr are not modelled. The overflow warning is kept as the `exceeds` flag.
- `font_size` is an `f32` in the source. It only takes the integer values 1..127, so it is modelled as a natural number.
- The whole-table render that gives the cell height is a lookup (`Font.tableHeight`). Its failure and its zero-height abort are modelled as errors.
- The reload of the font at the chosen size is not a separate step. The lookups are deterministic, so it succeeds because that size already loaded during the search.
- Surface width and height are not wrapped in their `as i32` casts. Nor are `col * font_width`, `row * font_height`, `font_width * 16`, `font_height * 16` or `miny + descent`. All are modelled as exact integers, which agrees with the source whenever they fit in 32 bits.
- The model makes no claim that glyph widths grow with point size. That depends on the font, and the search does not rely on it.
