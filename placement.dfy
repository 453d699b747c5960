/**
 * Laying the 256 glyphs out in a 16 x 16 grid of `fw` x `fh` cells: glyph
 * `i` goes to column `i % 16` and row `i / 16`, is centred horizontally in
 * its cell, aligned to the top or the bottom of the cell by the three-way
 * vertical rule, and its destination rectangle is clamped to the cell's
 * size. Glyphs that did not render, that have no metrics or whose metrics
 * have a zero extent are skipped and leave their cell as background.
 *
 * The atlas surface and the blit itself belong to the graphics library; the
 * model produces the list of blits the generator asks for, in order.
 */
module Placement {
  import opened Base
  import opened FontBackend
  import Cp437

  /** Cells per row and rows per atlas. */
  const Grid: nat := 16

  /** Grid column and row of glyph `index`. */
  function Column(index: byte): nat { index % Grid }

  function Row(index: byte): nat { index / Grid }

  /** Left edge of glyph `index`'s cell. */
  function CellX(index: byte, fw: nat): nat { Column(index) * fw }

  /** Top edge of glyph `index`'s cell. */
  function CellY(index: byte, fh: nat): nat { Row(index) * fh }

  /** Atlas width and height: 16 cells each way. */
  function AtlasWidth(fw: nat): nat { Grid * fw }

  function AtlasHeight(fh: nat): nat { Grid * fh }

  /** A destination rectangle: top-left corner (may be negative) and size. */
  datatype Rect = Rect(x: int, y: int, w: nat, h: nat)

  /** Whether the rectangle covers pixel `(px, py)`. */
  predicate Contains(r: Rect, px: int, py: int)
  {
    r.x <= px < r.x + r.w && r.y <= py < r.y + r.h
  }

  /** Whether pixel `(px, py)` lies in glyph `index`'s cell. */
  predicate InCell(index: byte, fw: nat, fh: nat, px: int, py: int)
  {
    CellX(index, fw) <= px < CellX(index, fw) + fw && CellY(index, fh) <= py < CellY(index, fh) + fh
  }

  /**
   * Horizontal offset of a glyph `w` pixels wide in a cell `fw` wide: half
   * the slack, divided as `i32` (truncating toward zero), and never
   * negative.
   */
  function XOffset(fw: nat, w: nat): (off: int)
    ensures off >= 0
    ensures w <= fw ==> 2 * off + w <= fw <= 2 * off + w + 1
    ensures w >= fw ==> off == 0
  {
    Max(0, TruncHalf(fw - w))
  }

  /**
   * Vertical offset of a glyph `h` pixels high in a cell `fh` high: at the
   * top when the glyph is exactly as high as the cell, at the bottom
   * (`fh - h`, negative when the glyph is higher than the cell) when
   * `miny + descent <= 1`, and at the top otherwise.
   */
  function YOffset(fh: nat, h: nat, miny: i32, descent: i32): (off: int)
    ensures off == 0 || off + h == fh
    ensures off != 0 ==> h != fh && miny + descent <= 1
    ensures h != fh ==> (off + h == fh <==> miny + descent <= 1)
    ensures off < 0 <==> h > fh && miny + descent <= 1
  {
    if h == fh then 0
    else if miny + descent <= 1 then fh - h
    else 0
  }

  /** The generator's warning condition: the glyph reaches below its cell. */
  predicate Exceeds(fh: nat, h: nat, yOffset: int)
  {
    yOffset + h > fh
  }

  /**
   * The warning fires exactly for glyphs higher than the cell that are
   * top-aligned; a glyph higher than the cell that is bottom-aligned sticks
   * out above its cell instead, and draws no warning.
   */
  lemma ExceedsExactly(fh: nat, h: nat, miny: i32, descent: i32)
    ensures Exceeds(fh, h, YOffset(fh, h, miny, descent)) <==> h > fh && miny + descent > 1
  {
  }

  /** What the generator has for one table entry: its rendering and its metrics. */
  datatype Glyph = Glyph(surface: Option<SurfaceSize>, metrics: Option<GlyphMetrics>)

  datatype SkipReason = NotRendered | NoMetrics | ZeroExtent

  /** The outcome for one glyph: skipped, or blitted to `rect`, with the warning flag. */
  datatype Placement = Skipped(reason: SkipReason) | Placed(rect: Rect, exceeds: bool)

  /** A bounding box with no height or no width. */
  predicate IsDegenerate(m: GlyphMetrics)
  {
    m.miny == m.maxy || m.minx == m.maxx
  }

  /** The glyph is blitted with a negative vertical offset, above its cell's top. */
  predicate RaisedAboveCell(g: Glyph, fh: nat, descent: i32)
  {
    g.surface.Some? && g.metrics.Some? && g.surface.value.height > fh && g.metrics.value.miny + descent <= 1
  }

  /**
   * The blit loop's body for glyph `index`: the checks in the generator's
   * order, then the destination rectangle at the cell origin plus the
   * offsets, with its size clamped to the cell.
   */
  function PlaceGlyph(index: byte, fw: nat, fh: nat, descent: i32, g: Glyph): (p: Placement)
    ensures p == Skipped(NotRendered) <==> g.surface.None?
    ensures p == Skipped(NoMetrics) <==> g.surface.Some? && g.metrics.None?
    ensures p == Skipped(ZeroExtent) <==> g.surface.Some? && g.metrics.Some? && IsDegenerate(g.metrics.value)
    ensures p.Placed? ==>
      && p.rect.x == CellX(index, fw) + XOffset(fw, g.surface.value.width)
      && p.rect.y == CellY(index, fh) + YOffset(fh, g.surface.value.height, g.metrics.value.miny, descent)
      && p.rect.w == Min(g.surface.value.width, fw)
      && p.rect.h == Min(g.surface.value.height, fh)
      && CellX(index, fw) <= p.rect.x
      && p.rect.x + p.rect.w <= CellX(index, fw) + fw
      && (p.exceeds <==> g.surface.value.height > fh && g.metrics.value.miny + descent > 1)
    ensures p.Placed? && !RaisedAboveCell(g, fh, descent) ==>
      CellY(index, fh) <= p.rect.y && p.rect.y + p.rect.h <= CellY(index, fh) + fh
    ensures p.Placed? && RaisedAboveCell(g, fh, descent) ==> p.rect.y < CellY(index, fh)
  {
    match g.surface
    case None => Skipped(NotRendered)
    case Some(s) =>
      match g.metrics
      case None => Skipped(NoMetrics)
      case Some(m) =>
        if IsDegenerate(m) then Skipped(ZeroExtent)
        else
          var xOffset := XOffset(fw, s.width);
          var yOffset := YOffset(fh, s.height, m.miny, descent);
          ExceedsExactly(fh, s.height, m.miny, descent);
          Placed(Rect(CellX(index, fw) + xOffset, CellY(index, fh) + yOffset, Min(s.width, fw), Min(s.height, fh)),
                 Exceeds(fh, s.height, yOffset))
  }

  /** Dividing `q * d + r` by `d` gives `q` when `0 <= r < d`. */
  lemma DivOfMulAdd(q: nat, d: nat, r: nat)
    requires r < d
    ensures (q * d + r) / d == q
  {
    var a := q * d + r;
    if a / d > q {
      MulMonotone(q + 1, a / d, d);
    } else if a / d < q {
      MulMonotone(a / d + 1, q, d);
    }
  }

  /**
   * Every cell lies inside the atlas: its right and bottom edges are at
   * most `16 * fw` and `16 * fh`.
   */
  lemma CellInsideAtlas(index: byte, fw: nat, fh: nat)
    ensures CellX(index, fw) + fw <= AtlasWidth(fw)
    ensures CellY(index, fh) + fh <= AtlasHeight(fh)
  {
    MulMonotone(Column(index) + 1, Grid, fw);
    MulMonotone(Row(index) + 1, Grid, fh);
  }

  /** The index of the cell a pixel of the atlas lies in. */
  function CellIndexAt(px: nat, py: nat, fw: nat, fh: nat): nat
    requires fw > 0 && fh > 0
  {
    (py / fh) * Grid + px / fw
  }

  /** Each pixel of glyph `index`'s cell maps back to `index`. */
  lemma CellIndexAtInverse(index: byte, fw: nat, fh: nat, px: int, py: int)
    requires InCell(index, fw, fh, px, py)
    ensures px >= 0 && py >= 0 && fw > 0 && fh > 0
    ensures CellIndexAt(px, py, fw, fh) == index
  {
    DivOfMulAdd(Column(index), fw, px - CellX(index, fw));
    DivOfMulAdd(Row(index), fh, py - CellY(index, fh));
  }

  /** Distinct table indices get cells that share no pixel. */
  lemma CellsDisjoint(i: byte, j: byte, fw: nat, fh: nat, px: int, py: int)
    requires InCell(i, fw, fh, px, py) && InCell(j, fw, fh, px, py)
    ensures i == j
  {
    CellIndexAtInverse(i, fw, fh, px, py);
    CellIndexAtInverse(j, fw, fh, px, py);
  }

  /** One blit request: the glyph's index, its destination and whether it warned. */
  datatype Blit = Blit(index: byte, rect: Rect, exceeds: bool)

  /** The outcome of every glyph, in table order. */
  function Placements(glyphs: seq<Glyph>, fw: nat, fh: nat, descent: i32): (ps: seq<Placement>)
    requires |glyphs| <= 256
    ensures |ps| == |glyphs|
  {
    seq(|glyphs|, i requires 0 <= i < |glyphs| => PlaceGlyph(i, fw, fh, descent, glyphs[i]))
  }

  /** The blits asked for by a list of outcomes, one per placed entry, in order. */
  function BlitList(ps: seq<Placement>): seq<Blit>
    requires |ps| <= 256
  {
    if ps == [] then []
    else
      var n := |ps| - 1;
      var front := BlitList(ps[..n]);
      match ps[n]
      case Skipped(_) => front
      case Placed(rect, exceeds) => front + [Blit(n, rect, exceeds)]
  }

  /**
   * The blit list holds exactly the placed entries: every blit is its
   * entry's placement, indices strictly increase (each glyph is blitted at
   * most once, in table order), and every placed entry is blitted.
   */
  lemma {:induction false} BlitListIsThePlacedEntries(ps: seq<Placement>)
    requires |ps| <= 256
    ensures var bs := BlitList(ps);
      && (forall k | 0 <= k < |bs| :: bs[k].index < |ps| && ps[bs[k].index] == Placed(bs[k].rect, bs[k].exceeds))
      && (forall k, l | 0 <= k < l < |bs| :: bs[k].index < bs[l].index)
      && (forall i | 0 <= i < |ps| && ps[i].Placed? :: exists k | 0 <= k < |bs| :: bs[k].index == i)
  {
    if ps != [] {
      var n := |ps| - 1;
      BlitListIsThePlacedEntries(ps[..n]);
      var front := BlitList(ps[..n]);
      var bs := BlitList(ps);
      assert forall i | 0 <= i < n :: ps[..n][i] == ps[i];
      if ps[n].Placed? {
        assert bs == front + [Blit(n, ps[n].rect, ps[n].exceeds)];
        assert forall k | 0 <= k < |front| :: bs[k] == front[k];
        assert bs[|front|].index == n;
        forall i | 0 <= i < |ps| && ps[i].Placed?
          ensures exists k | 0 <= k < |bs| :: bs[k].index == i
        {
          if i < n {
            var k :| 0 <= k < |front| && front[k].index == i;
            assert bs[k] == front[k];
          }
        }
      } else {
        assert bs == front;
      }
    }
  }

  /**
   * When no glyph is raised above its cell, a pixel of a skipped glyph's
   * cell is covered by no blit, so it keeps the white background.
   */
  lemma SkippedCellStaysBackground(glyphs: seq<Glyph>, fw: nat, fh: nat, descent: i32, j: byte, px: int, py: int)
    requires |glyphs| == 256
    requires forall i | 0 <= i < 256 :: !RaisedAboveCell(glyphs[i], fh, descent)
    requires PlaceGlyph(j, fw, fh, descent, glyphs[j]).Skipped?
    requires InCell(j, fw, fh, px, py)
    ensures forall b | b in BlitList(Placements(glyphs, fw, fh, descent)) :: !Contains(b.rect, px, py)
  {
    var ps := Placements(glyphs, fw, fh, descent);
    var bs := BlitList(ps);
    BlitListIsThePlacedEntries(ps);
    forall b | b in bs
      ensures !Contains(b.rect, px, py)
    {
      var k :| 0 <= k < |bs| && bs[k] == b;
      assert ps[b.index] == PlaceGlyph(b.index, fw, fh, descent, glyphs[b.index]);
      if Contains(b.rect, px, py) {
        assert InCell(b.index, fw, fh, px, py);
        CellsDisjoint(b.index, j, fw, fh, px, py);
      }
    }
  }

  /**
   * A glyph raised above its cell reaches into the cell above it (code
   * `index - 16`): when it is at most twice the cell's height, its blit covers
   * the bottom row of that cell at the blit's left edge.
   */
  lemma RaisedGlyphReachesCellAbove(index: byte, fw: nat, fh: nat, descent: i32, g: Glyph)
    requires index >= Grid && fh > 0
    requires RaisedAboveCell(g, fh, descent) && !IsDegenerate(g.metrics.value)
    requires 0 < g.surface.value.width && 0 < fw && g.surface.value.height <= 2 * fh
    ensures PlaceGlyph(index, fw, fh, descent, g).Placed?
    ensures var r := PlaceGlyph(index, fw, fh, descent, g).rect;
      Contains(r, r.x, CellY(index, fh) - 1) && InCell(index - Grid, fw, fh, r.x, CellY(index, fh) - 1)
  {
    var above: byte := index - Grid;
    assert Row(above) == Row(index) - 1 && Column(above) == Column(index);
    assert CellY(above, fh) == CellY(index, fh) - fh;
  }

  /** The rendering and metrics lookups of every table entry, in index order. */
  function Glyphs(font: Font, size: nat): (gs: seq<Glyph>)
    ensures |gs| == 256
  {
    seq(256, i requires 0 <= i < 256 => Glyph(font.render(size, Cp437.CharOf(i)), font.metrics(size, Cp437.CharOf(i))))
  }

  /** What the atlas is made of: its size and the blits onto the white background. */
  datatype AtlasPlan = AtlasPlan(width: nat, height: nat, blits: seq<Blit>)

  /** The two aborts before any glyph is placed. */
  datatype ComposeError = TableRenderFailed | ZeroHeight

  datatype ComposeResult = Composed(plan: AtlasPlan) | Failed(error: ComposeError)

  /**
   * The atlas for a font at `size` with cell width `fw`: the cell height is
   * the height of the whole table rendered as one string, which must exist
   * and be non-zero; then every glyph is placed.
   */
  function Compose(font: Font, size: nat, fw: nat): ComposeResult
  {
    match font.tableHeight(size)
    case None => Failed(TableRenderFailed)
    case Some(fh) =>
      if fh == 0 then Failed(ZeroHeight)
      else Composed(AtlasPlan(AtlasWidth(fw), AtlasHeight(fh), BlitList(Placements(Glyphs(font, size), fw, fh, font.descent(size)))))
  }

  /**
   * Step 3 of the generator: derive the cell height, render every glyph
   * on its own, then place the rendered glyphs one by one.
   */
  method ComposeAtlas(font: Font, size: nat, fontWidth: nat) returns (r: ComposeResult)
    ensures r == Compose(font, size, fontWidth)
  {
    var tableHeight := font.tableHeight(size);
    if tableHeight.None? {
      return Failed(TableRenderFailed);
    }
    var fontHeight := tableHeight.value;
    if fontHeight == 0 {
      return Failed(ZeroHeight);
    }
    var rendered: seq<Option<SurfaceSize>> := [];
    for i := 0 to 256
      invariant |rendered| == i
      invariant forall k | 0 <= k < i :: rendered[k] == font.render(size, Cp437.CharOf(k))
    {
      rendered := rendered + [font.render(size, Cp437.CharOf(i))];
    }
    var descent := font.descent(size);
    ghost var placements := Placements(Glyphs(font, size), fontWidth, fontHeight, descent);
    var blits: seq<Blit> := [];
    for i := 0 to 256
      invariant blits == BlitList(placements[..i])
    {
      var glyph := Glyph(rendered[i], font.metrics(size, Cp437.CharOf(i)));
      var p := PlaceGlyph(i, fontWidth, fontHeight, descent, glyph);
      assert p == placements[i];
      assert placements[..i + 1][..i] == placements[..i];
      if p.Placed? {
        blits := blits + [Blit(i, p.rect, p.exceeds)];
      }
    }
    assert placements[..256] == placements;
    r := Composed(AtlasPlan(AtlasWidth(fontWidth), AtlasHeight(fontHeight), blits));
  }
}
