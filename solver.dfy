/**
 * The width-match size search: try integer point sizes 1, 2, ..., 127 and
 * stop at the first one whose widest CP437 glyph (largest `maxx` over the
 * characters the font has) reaches the requested cell width.
 */
module Solver {
  import opened Base
  import opened FontBackend
  import Cp437

  /** Number of code points in the table. */
  const TableSize: nat := 256

  /** The largest size tried. */
  const MaxSize: nat := 127

  /**
   * The width the search takes from glyph `index` at `size`: its `maxx`
   * cast to `u32`, or nothing when the font has no such glyph.
   */
  function GlyphWidth(font: Font, size: nat, index: byte): Option<nat>
  {
    match font.metrics(size, Cp437.CharOf(index))
    case None => None
    case Some(m) => Some(I32AsU32(m.maxx))
  }

  /**
   * The running maximum of `max_width = max_width.max(w)` over a list of
   * widths, skipping the missing ones, starting from 0.
   */
  function RunningMax(ws: seq<Option<nat>>): nat
  {
    if ws == [] then 0
    else
      var w := RunningMax(ws[..|ws| - 1]);
      match ws[|ws| - 1]
      case None => w
      case Some(g) => Max(w, g)
  }

  /**
   * The running maximum bounds every width present in the list, and is
   * either 0 (none present) or one of them.
   */
  lemma {:induction false} RunningMaxIsMaximum(ws: seq<Option<nat>>)
    ensures forall i | 0 <= i < |ws| && ws[i].Some? :: ws[i].value <= RunningMax(ws)
    ensures RunningMax(ws) == 0 || exists i | 0 <= i < |ws| :: ws[i] == Some(RunningMax(ws))
  {
    if ws != [] {
      var front := ws[..|ws| - 1];
      RunningMaxIsMaximum(front);
      assert forall i | 0 <= i < |front| :: front[i] == ws[i];
    }
  }

  /** The widths of all 256 code points at `size`, in code order. */
  function GlyphWidths(font: Font, size: nat): (ws: seq<Option<nat>>)
    ensures |ws| == TableSize
  {
    seq(TableSize, i requires 0 <= i < TableSize => GlyphWidth(font, size, i))
  }

  /** The widest glyph over the whole table at `size` (0 when the font has none). */
  function MaxWidth(font: Font, size: nat): nat
  {
    RunningMax(GlyphWidths(font, size))
  }

  datatype SizeSearch =
    | Found(fontSize: nat, maxWidth: nat)
    | LoadFailed(fontSize: nat)

  /**
   * Step 1 of `main`: for sizes 1..127 load the font, take the widest glyph,
   * and stop at the first size whose width reaches `target`; without a
   * match the last size, 127, is kept with its width. A font that fails to
   * load at the size being tried aborts the search.
   */
  method FindFontSize(font: Font, target: nat) returns (r: SizeSearch)
    ensures 1 <= r.fontSize <= MaxSize
    ensures r.Found? ==> font.loads(r.fontSize) && r.maxWidth == MaxWidth(font, r.fontSize)
    ensures r.Found? ==> r.maxWidth >= target || r.fontSize == MaxSize
    ensures r.LoadFailed? ==> !font.loads(r.fontSize)
    ensures forall s | 1 <= s < r.fontSize :: font.loads(s) && MaxWidth(font, s) < target
  {
    var fontSize := 1;
    var maxWidth := 0;
    for iteration := 1 to MaxSize + 1
      invariant forall s | 1 <= s < iteration :: font.loads(s) && MaxWidth(font, s) < target
      invariant iteration > 1 ==> fontSize == iteration - 1 && maxWidth == MaxWidth(font, fontSize)
    {
      fontSize := iteration;
      if !font.loads(fontSize) {
        return LoadFailed(fontSize);
      }
      maxWidth := WidestGlyph(font, fontSize);
      if maxWidth >= target {
        return Found(fontSize, maxWidth);
      }
    }
    return Found(fontSize, maxWidth);
  }

  /** The inner loop of step 1: the running maximum of `maxx as u32` over all 256 code points. */
  method WidestGlyph(font: Font, size: nat) returns (maxWidth: nat)
    ensures maxWidth == MaxWidth(font, size)
  {
    maxWidth := 0;
    ghost var widths := GlyphWidths(font, size);
    for i := 0 to TableSize
      invariant maxWidth == RunningMax(widths[..i])
    {
      assert widths[..i + 1][..i] == widths[..i];
      var ch := Cp437.CharOf(i);
      match font.metrics(size, ch) {
        case None =>
        case Some(m) =>
          maxWidth := Max(maxWidth, I32AsU32(m.maxx));
      }
    }
    assert widths[..TableSize] == widths;
  }

  /**
   * A glyph with a negative `maxx` wraps to a width of at least 2^31 in the
   * `u32` cast, so at that size the search stops for any realistic target.
   */
  lemma NegativeExtentWraps(font: Font, size: nat, index: byte)
    requires font.metrics(size, Cp437.CharOf(index)).Some?
    requires font.metrics(size, Cp437.CharOf(index)).value.maxx < 0
    ensures MaxWidth(font, size) >= 0x8000_0000
  {
    var widths := GlyphWidths(font, size);
    RunningMaxIsMaximum(widths);
    assert widths[index].Some?;
  }
}
