/**
 One frame's detections and the loop that sorts them into logos, torsos and
 headgears while keeping a list of every detection for drawing.
 */
module Detections {
  import opened Geometry

  /** The three class names the merchandise heuristic looks at, upper-cased. */
  const LogoClass: string := "UNCC-LOGO"
  const TorsoClass: string := "UNCC TORSO"
  const HeadgearClass: string := "UNCC HEADGEAR"

  /** A detection as kept in `all_boxes`: its box, class name and confidence. */
  datatype Detection = Detection(box: Box, name: string, conf: real)

  /** The boxes of the detections named exactly `name`, in input order. */
  function BoxesNamed(ds: seq<Detection>, name: string): (r: seq<Box>)
    ensures |r| <= |ds|
  {
    if ds == [] then []
    else
      var d := ds[|ds| - 1];
      BoxesNamed(ds[..|ds| - 1], name) + (if d.name == name then [d.box] else [])
  }

  /** Whether a name falls into none of the three buckets. */
  predicate Unbucketed(name: string)
  {
    name != LogoClass && name != TorsoClass && name != HeadgearClass
  }

  /** The number of detections that fall into no bucket. */
  function UnbucketedCount(ds: seq<Detection>): (n: nat)
    ensures n <= |ds|
  {
    if ds == [] then 0
    else UnbucketedCount(ds[..|ds| - 1]) + (if Unbucketed(ds[|ds| - 1].name) then 1 else 0)
  }

  /** The bucketing loop over the frame's boxes: an if/elif chain on the class
      name appends to at most one bucket, and every detection goes to `all_boxes`. */
  method Bucket(ds: seq<Detection>)
    returns (logos: seq<Box>, torsos: seq<Box>, headgears: seq<Box>, allBoxes: seq<Detection>)
    ensures logos == BoxesNamed(ds, LogoClass)
    ensures torsos == BoxesNamed(ds, TorsoClass)
    ensures headgears == BoxesNamed(ds, HeadgearClass)
    ensures allBoxes == ds
  {
    logos, torsos, headgears, allBoxes := [], [], [], [];
    for i := 0 to |ds|
      invariant logos == BoxesNamed(ds[..i], LogoClass)
      invariant torsos == BoxesNamed(ds[..i], TorsoClass)
      invariant headgears == BoxesNamed(ds[..i], HeadgearClass)
      invariant allBoxes == ds[..i]
    {
      assert ds[..i + 1][..i] == ds[..i];
      var d := ds[i];
      if d.name == LogoClass {
        logos := logos + [d.box];
      } else if d.name == TorsoClass {
        torsos := torsos + [d.box];
      } else if d.name == HeadgearClass {
        headgears := headgears + [d.box];
      }
      allBoxes := allBoxes + [d];
    }
    assert ds[..|ds|] == ds;
  }

  /** Each detection lands in exactly one of the three buckets or in none, so
      the bucket sizes and the unbucketed count add up to the input size. */
  lemma {:induction false} BucketSizes(ds: seq<Detection>)
    ensures |BoxesNamed(ds, LogoClass)| + |BoxesNamed(ds, TorsoClass)|
            + |BoxesNamed(ds, HeadgearClass)| + UnbucketedCount(ds) == |ds|
  {
    if ds != [] {
      BucketSizes(ds[..|ds| - 1]);
    }
  }

  /** Together the buckets never hold more boxes than there were detections. */
  lemma BucketsWithinAllBoxes(ds: seq<Detection>)
    ensures |BoxesNamed(ds, LogoClass)| + |BoxesNamed(ds, TorsoClass)|
            + |BoxesNamed(ds, HeadgearClass)| <= |ds|
  {
    BucketSizes(ds);
  }

  /** A box is in a bucket exactly when some detection of that name has it. */
  lemma {:induction false} BoxesNamedMembers(ds: seq<Detection>, name: string, b: Box)
    ensures b in BoxesNamed(ds, name)
            <==> exists i :: 0 <= i < |ds| && ds[i].name == name && ds[i].box == b
  {
    if ds != [] {
      var front := ds[..|ds| - 1];
      BoxesNamedMembers(front, name, b);
      if b in BoxesNamed(front, name) {
        var i :| 0 <= i < |front| && front[i].name == name && front[i].box == b;
        assert ds[i] == front[i];
      }
      if exists i :: 0 <= i < |ds| && ds[i].name == name && ds[i].box == b {
        var i :| 0 <= i < |ds| && ds[i].name == name && ds[i].box == b;
        if i < |front| {
          assert front[i] == ds[i];
        }
      }
    }
  }

  /** Bucketing preserves order: the bucket of a concatenation is the
      concatenation of the buckets. */
  lemma {:induction false} BoxesNamedAppend(a: seq<Detection>, b: seq<Detection>, name: string)
    ensures BoxesNamed(a + b, name) == BoxesNamed(a, name) + BoxesNamed(b, name)
  {
    if b == [] {
      assert a + b == a;
    } else {
      var front, last := b[..|b| - 1], b[|b| - 1];
      var ab := a + b;
      assert ab[..|ab| - 1] == a + front && ab[|ab| - 1] == last;
      BoxesNamedAppend(a, front, name);
    }
  }

  /** A detection whose name is none of the three leaves every bucket unchanged. */
  lemma OtherNamesAreIgnored(ds: seq<Detection>, d: Detection)
    requires Unbucketed(d.name)
    ensures BoxesNamed(ds + [d], LogoClass) == BoxesNamed(ds, LogoClass)
    ensures BoxesNamed(ds + [d], TorsoClass) == BoxesNamed(ds, TorsoClass)
    ensures BoxesNamed(ds + [d], HeadgearClass) == BoxesNamed(ds, HeadgearClass)
  {
    assert (ds + [d])[..|ds|] == ds;
  }
}
