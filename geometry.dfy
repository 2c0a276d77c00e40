/**
 Boxes in integer pixel coordinates and the "logo inside host" containment
 heuristic used to decide that a detected logo is printed on a detected torso
 or headgear.
 */
module Geometry {

  /** An axis-aligned box given by its corners (x1, y1) and (x2, y2). */
  datatype Box = Box(x1: int, y1: int, x2: int, y2: int)

  datatype Point = Point(x: int, y: int)

  /** Python's `s // 2`: floor division, also for negative `s`.
      Dafny's `/` agrees with it because the divisor is positive. */
  function HalfFloor(s: int): (h: int)
    ensures 2 * h <= s < 2 * h + 2
  {
    s / 2
  }

  /** The integer centre of a box, each coordinate rounded down. */
  function Center(b: Box): (c: Point)
    ensures 2 * c.x <= b.x1 + b.x2 < 2 * c.x + 2
    ensures 2 * c.y <= b.y1 + b.y2 < 2 * c.y + 2
    ensures b.x1 <= b.x2 ==> b.x1 <= c.x <= b.x2
    ensures b.y1 <= b.y2 ==> b.y1 <= c.y <= b.y2
  {
    Point(HalfFloor(b.x1 + b.x2), HalfFloor(b.y1 + b.y2))
  }

  /** `logo_inside`: the logo's centre lies in the host box, bounds inclusive.
      The ensures gives the same test without any division. */
  function LogoInside(logo: Box, host: Box): (r: bool)
    ensures r <==> (2 * host.x1 <= logo.x1 + logo.x2 <= 2 * host.x2 + 1
                    && 2 * host.y1 <= logo.y1 + logo.y2 <= 2 * host.y2 + 1)
  {
    var c := Center(logo);
    host.x1 <= c.x <= host.x2 && host.y1 <= c.y <= host.y2
  }

  /** The bounds are inclusive: a centre on any edge or corner of the host counts. */
  lemma CentreOnEdgeCounts(logo: Box, host: Box)
    requires host.x1 <= host.x2 && host.y1 <= host.y2
    requires var c := Center(logo);
             || ((c.x == host.x1 || c.x == host.x2) && host.y1 <= c.y <= host.y2)
             || ((c.y == host.y1 || c.y == host.y2) && host.x1 <= c.x <= host.x2)
    ensures LogoInside(logo, host)
  {
  }

  /** One pixel beyond an edge of the host no longer counts. */
  lemma CentreJustOutsideFails(logo: Box, host: Box)
    requires Center(logo).x == host.x1 - 1 || Center(logo).x == host.x2 + 1
          || Center(logo).y == host.y1 - 1 || Center(logo).y == host.y2 + 1
    ensures !LogoInside(logo, host)
  {
  }

  /** A well-formed logo whose whole box lies within the host is inside it. */
  lemma EnclosedLogoIsInside(logo: Box, host: Box)
    requires logo.x1 <= logo.x2 && logo.y1 <= logo.y2
    requires host.x1 <= logo.x1 && logo.x2 <= host.x2
    requires host.y1 <= logo.y1 && logo.y2 <= host.y2
    ensures LogoInside(logo, host)
  {
  }
}
