/**
 * The generator's pipeline up to the finished atlas: find the point size
 * whose widest glyph matches the requested cell width, take that width as
 * the cell width, and lay the glyphs out at that size.
 */
module Generator {
  import opened FontBackend
  import Solver
  import Placement

  datatype Outcome =
    | FontLoadFailed(fontSize: nat)
    | ComposeFailed(fontSize: nat, error: Placement.ComposeError)
    | Built(fontSize: nat, plan: Placement.AtlasPlan)

  /**
   * Steps 1 to 3 of `main`: the size search, then the atlas at the size it
   * found with the widest glyph's width as the cell width. Reloading the
   * font at the chosen size succeeds, since that size already loaded once.
   */
  method BuildAtlas(font: Font, targetWidth: nat) returns (o: Outcome)
    ensures o.FontLoadFailed? ==> 1 <= o.fontSize <= Solver.MaxSize && !font.loads(o.fontSize)
    ensures o.Built? || o.ComposeFailed? ==> 1 <= o.fontSize <= Solver.MaxSize && font.loads(o.fontSize)
    ensures o.Built? || o.ComposeFailed? ==>
      Solver.MaxWidth(font, o.fontSize) >= targetWidth || o.fontSize == Solver.MaxSize
    ensures o.Built? ==> Placement.Compose(font, o.fontSize, Solver.MaxWidth(font, o.fontSize)) == Placement.Composed(o.plan)
    ensures o.Built? ==> o.plan.width == 16 * Solver.MaxWidth(font, o.fontSize)
    ensures forall s | 1 <= s < o.fontSize :: font.loads(s) && Solver.MaxWidth(font, s) < targetWidth
    ensures o.ComposeFailed? ==>
      Placement.Compose(font, o.fontSize, Solver.MaxWidth(font, o.fontSize)) == Placement.Failed(o.error)
  {
    var search := Solver.FindFontSize(font, targetWidth);
    if search.LoadFailed? {
      return FontLoadFailed(search.fontSize);
    }
    var fontSize := search.fontSize;
    var fontWidth := search.maxWidth;
    var composed := Placement.ComposeAtlas(font, fontSize, fontWidth);
    match composed {
      case Failed(e) =>
        o := ComposeFailed(fontSize, e);
      case Composed(plan) =>
        o := Built(fontSize, plan);
    }
  }
}
