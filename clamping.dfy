/**
 Growing a matched host box by a padding and clamping it to the frame, as done
 before the merchandise rectangle is drawn.
 */
module Clamping {
  import opened Geometry

  /** The horizontal and vertical padding added on every side of a box. */
  datatype Pad = Pad(dx: int, dy: int)

  function Max(a: int, b: int): (m: int)
    ensures a <= m && b <= m && (m == a || m == b)
  {
    if a < b then b else a
  }

  function Min(a: int, b: int): (m: int)
    ensures m <= a && m <= b && (m == a || m == b)
  {
    if a < b then a else b
  }

  /** The padded box with its left and top edges raised to at least 0 and its
      right and bottom edges lowered to at most `width` and `height`. Nothing
      keeps a negative padding or a box outside the frame from giving an
      inverted box or one beyond the frame: see `ClampInFrame`. */
  function Clamp(b: Box, pad: Pad, width: nat, height: nat): (r: Box)
    ensures 0 <= r.x1 && 0 <= r.y1 && r.x2 <= width && r.y2 <= height
    ensures b.x1 - pad.dx <= r.x1 && b.y1 - pad.dy <= r.y1
    ensures r.x2 <= b.x2 + pad.dx && r.y2 <= b.y2 + pad.dy
  {
    Box(Max(0, b.x1 - pad.dx), Max(0, b.y1 - pad.dy),
        Min(width, b.x2 + pad.dx), Min(height, b.y2 + pad.dy))
  }

  /** The left and top edges are the padded edges when those are at least 0, and
      0 otherwise; the right and bottom edges are the padded edges when those
      are at most `width` and `height`, and `width` and `height` otherwise. */
  lemma ClampEdges(b: Box, pad: Pad, width: nat, height: nat)
    ensures var r := Clamp(b, pad, width, height);
            && (r.x1 == if b.x1 - pad.dx >= 0 then b.x1 - pad.dx else 0)
            && (r.y1 == if b.y1 - pad.dy >= 0 then b.y1 - pad.dy else 0)
            && (r.x2 == if b.x2 + pad.dx <= width then b.x2 + pad.dx else width)
            && (r.y2 == if b.y2 + pad.dy <= height then b.y2 + pad.dy else height)
  {
  }

  /** Clamping an already clamped box again, without padding, changes nothing. */
  lemma ClampIdempotent(b: Box, pad: Pad, width: nat, height: nat)
    ensures Clamp(Clamp(b, pad, width, height), Pad(0, 0), width, height)
            == Clamp(b, pad, width, height)
  {
  }

  /** With a non-negative padding, the clamped region still covers a box that
      lies in the frame. */
  lemma ClampCoversBox(b: Box, pad: Pad, width: nat, height: nat)
    requires 0 <= pad.dx && 0 <= pad.dy
    requires 0 <= b.x1 && 0 <= b.y1 && b.x2 <= width && b.y2 <= height
    ensures var r := Clamp(b, pad, width, height);
            r.x1 <= b.x1 && r.y1 <= b.y1 && b.x2 <= r.x2 && b.y2 <= r.y2
  {
  }

  /** A well-formed box inside the frame, grown by a non-negative padding, is
      clamped to a well-formed box inside the frame. */
  lemma ClampInFrame(b: Box, pad: Pad, width: nat, height: nat)
    requires 0 <= pad.dx && 0 <= pad.dy
    requires 0 <= b.x1 <= b.x2 <= width && 0 <= b.y1 <= b.y2 <= height
    ensures var r := Clamp(b, pad, width, height);
            0 <= r.x1 <= r.x2 <= width && 0 <= r.y1 <= r.y2 <= height
  {
  }

  /** The rectangles drawn for the merch boxes, one per box and in the same
      order, each with the padding `padding` gives for that box. */
  method MerchRegions(merchBoxes: seq<Box>, padding: Box -> Pad, width: nat, height: nat)
    returns (regions: seq<Box>)
    ensures |regions| == |merchBoxes|
    ensures forall k :: 0 <= k < |regions| ==>
              regions[k] == Clamp(merchBoxes[k], padding(merchBoxes[k]), width, height)
    ensures forall k :: 0 <= k < |regions| ==>
              0 <= regions[k].x1 && 0 <= regions[k].y1
              && regions[k].x2 <= width && regions[k].y2 <= height
  {
    regions := [];
    for k := 0 to |merchBoxes|
      invariant |regions| == k
      invariant forall m :: 0 <= m < k ==>
                  regions[m] == Clamp(merchBoxes[m], padding(merchBoxes[m]), width, height)
    {
      var b := merchBoxes[k];
      var pad := padding(b);
      var nx1 := Max(0, b.x1 - pad.dx);
      var ny1 := Max(0, b.y1 - pad.dy);
      var nx2 := Min(width, b.x2 + pad.dx);
      var ny2 := Min(height, b.y2 + pad.dy);
      regions := regions + [Box(nx1, ny1, nx2, ny2)];
    }
  }
}
