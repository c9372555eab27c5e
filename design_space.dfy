/// Design-space values shared by the editor generations and the geometry code.
/// Coordinates and advance widths, `f32`/`f64` in the program, are modelled as
/// exact reals.
module DesignSpace {
  import opened Wrappers

  datatype Vec2 = Vec2(x: real, y: real)
  {
    function Plus(d: Vec2): Vec2 { Vec2(x + d.x, y + d.y) }
  }

  const Zero := Vec2(0.0, 0.0)

  /// The font metrics the layout code reads (src/core/state.rs). The derived
  /// default has units per em 0 and every optional metric absent.
  datatype FontMetrics = FontMetrics(unitsPerEm: real, descender: Option<real>, ascender: Option<real>)

  const DefaultMetrics := FontMetrics(0.0, None, None)

  /// A metric that may be missing, with the fallback the layout code uses.
  function OrElse(m: Option<real>, fallback: real): real
  {
    if m.Some? then m.value else fallback
  }
}
