/**
 The merchandise post-processing of one frame inside `detect_objects`:
 bucket the detections, match logos to torsos and headgears, count the
 matches and compute the rectangles to draw around them.
 */
module MerchFrame {
  import opened Geometry
  import opened Detections
  import opened Matching
  import opened Clamping

  /** `logos` for a frame's detections. */
  function Logos(ds: seq<Detection>): (r: seq<Box>)
    ensures |r| <= |ds|
  {
    BoxesNamed(ds, LogoClass)
  }

  /** `torsos + headgears` for a frame's detections: never more boxes than
      detections, since a detection lands in at most one bucket. */
  function Hosts(ds: seq<Detection>): (r: seq<Box>)
    ensures |r| <= |ds|
  {
    BucketSizes(ds);
    BoxesNamed(ds, TorsoClass) + BoxesNamed(ds, HeadgearClass)
  }

  /** Whether some detection of the frame is a torso or headgear with box `b`. */
  predicate IsHostBox(ds: seq<Detection>, b: Box)
  {
    exists i :: 0 <= i < |ds| && ds[i].box == b && (ds[i].name == TorsoClass || ds[i].name == HeadgearClass)
  }

  /** A box is a host of the frame exactly when a torso or headgear detection has it. */
  lemma HostMembers(ds: seq<Detection>, b: Box)
    ensures b in Hosts(ds) <==> IsHostBox(ds, b)
  {
    BoxesNamedMembers(ds, TorsoClass, b);
    BoxesNamedMembers(ds, HeadgearClass, b);
  }

  /** A frame without any logo detection yields no logos. */
  lemma NoLogoDetections(ds: seq<Detection>)
    requires forall i :: 0 <= i < |ds| ==> ds[i].name != LogoClass
    ensures Logos(ds) == []
  {
    if Logos(ds) != [] {
      BoxesNamedMembers(ds, LogoClass, Logos(ds)[0]);
    }
  }

  /** Post-processing of one frame's detections, given the padding for each
      box and the frame's width and height. */
  method PostProcess(ds: seq<Detection>, padding: Box -> Pad, width: nat, height: nat)
    returns (allBoxes: seq<Detection>, merchBoxes: seq<Box>, merchCount: nat, regions: seq<Box>)
    ensures allBoxes == ds
    ensures merchBoxes == Matches(Logos(ds), Hosts(ds))
    ensures merchCount == |merchBoxes| == |MatchingPairs(Logos(ds), Hosts(ds))|
    ensures forall b :: b in merchBoxes <==>
              IsHostBox(ds, b) && exists l :: l in Logos(ds) && LogoInside(l, b)
    ensures (forall i :: 0 <= i < |ds| ==> ds[i].name != LogoClass) ==> merchCount == 0
    ensures |regions| == |merchBoxes|
    ensures forall k :: 0 <= k < |regions| ==>
              regions[k] == Clamp(merchBoxes[k], padding(merchBoxes[k]), width, height)
  {
    var logos, torsos, headgears;
    logos, torsos, headgears, allBoxes := Bucket(ds);
    merchBoxes, merchCount := MatchMerch(logos, torsos, headgears);
    forall b
      ensures b in merchBoxes <==> IsHostBox(ds, b) && exists l :: l in Logos(ds) && LogoInside(l, b)
    {
      MatchesMembers(logos, torsos + headgears, b);
      HostMembers(ds, b);
    }
    if forall i :: 0 <= i < |ds| ==> ds[i].name != LogoClass {
      NoLogoDetections(ds);
    }
    regions := MerchRegions(merchBoxes, padding, width, height);
  }
}
