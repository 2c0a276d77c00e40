# Merchandise detection post-processing

This project models the post-processing that the live-detection demo
`webcam_yolo_gradio_cpu_full_logic.py` applies to each frame's object
detections to count "UNCC merchandise". A detection is a box given by its
corners `(x1, y1, x2, y2)` in integer pixels, with a class name and a
confidence. `detect_objects` processes each frame in four steps:

1. **Bucketing.** Every detection is kept in `all_boxes`. An if/elif chain
   on the class name puts its box into at most one of `logos` (`UNCC-LOGO`),
   `torsos` (`UNCC TORSO`) and `headgears` (`UNCC HEADGEAR`).
2. **Containment.** `logo_inside` takes the logo's integer centre, rounding
   down with Python's `//`. It tests, with inclusive bounds, whether that
   centre lies in a host box.
3. **Matching.** For each logo in turn, the loop walks over
   `torsos + headgears` and appends every host that contains the logo to
   `merch_boxes`. `merch_count` is the length of that list.
4. **Clamping.** Each merch box is grown by a padding. Its left and top edges
   are raised to at least 0 and its right and bottom edges lowered to at most
   the frame's width `W` and height `H`, and that is the rectangle drawn.

Modules:

- `Geometry` (geometry.dfy): boxes, the floor-rounded centre and
  `LogoInside`.
- `Detections` (detections.dfy): the detection record, the bucketing loop
  `Bucket` and its specification `BoxesNamed`, an order-preserving filter by
  exact name.
- `Matching` (matching.dfy): the nested loop `MatchMerch` and its
  specification `Matches`. `MatchingPairs` is an independent reference: the
  set of `(logo index, host index)` pairs with the logo inside the host.
- `Clamping` (clamping.dfy): `Clamp` and the loop over the merch boxes,
  `MerchRegions`.
- `MerchFrame` (merch_frame.dfy): `PostProcess`, which chains the steps for
  one frame and states the end-to-end result.

The loops are written as methods over sequences. Each method is proved
equal to its specification function, and the properties are proved as
lemmas about those functions.

## Model

| member | source | states |
|---|---|---|
| Geometry.HalfFloor | webcam_yolo_gradio_cpu_full_logic.py:26-27 | `//` by 2 is floor division: `2h <= s < 2h + 2`, also for negative sums |
| Geometry.Center | webcam_yolo_gradio_cpu_full_logic.py:26-27 | each centre coordinate is the floor of half the sum of the two edges, and lies between the edges of a well-formed box |
| Geometry.LogoInside | webcam_yolo_gradio_cpu_full_logic.py:23-28 | `logo_inside` holds exactly when, with no division, `2*bx1 <= lx1+lx2 <= 2*bx2+1` and likewise for y |
| Geometry.CentreOnEdgeCounts | webcam_yolo_gradio_cpu_full_logic.py:28 | the bounds are inclusive: a centre on any edge or corner of a well-formed host counts |
| Geometry.CentreJustOutsideFails | webcam_yolo_gradio_cpu_full_logic.py:28 | a centre one pixel beyond any edge of the host does not count |
| Geometry.EnclosedLogoIsInside | webcam_yolo_gradio_cpu_full_logic.py:23-28 | a well-formed logo box lying wholly within the host is inside it |
| Detections.BoxesNamed | webcam_yolo_gradio_cpu_full_logic.py:75-80 | a bucket never holds more boxes than there are detections |
| Detections.Bucket | webcam_yolo_gradio_cpu_full_logic.py:60-82 | the loop leaves each bucket equal to the order-preserving filter of the input by its exact class name, and `all_boxes` equal to the whole input |
| Detections.BucketSizes | webcam_yolo_gradio_cpu_full_logic.py:75-80 | the three bucket sizes plus the number of detections with any other name equal the number of detections, so each detection lands in at most one bucket |
| Detections.BucketsWithinAllBoxes | webcam_yolo_gradio_cpu_full_logic.py:75-82 | `len(logos) + len(torsos) + len(headgears) <= len(all_boxes)` |
| Detections.BoxesNamedMembers | webcam_yolo_gradio_cpu_full_logic.py:75-80 | a box is in a bucket exactly when some detection with that exact name has that box |
| Detections.BoxesNamedAppend | webcam_yolo_gradio_cpu_full_logic.py:62-80 | bucketing keeps input order: the bucket of `a + b` is the bucket of `a` followed by the bucket of `b` |
| Detections.OtherNamesAreIgnored | webcam_yolo_gradio_cpu_full_logic.py:75-82 | a detection with any other class name changes no bucket |
| Matching.HostsContaining | webcam_yolo_gradio_cpu_full_logic.py:94-96 | the hosts matched for one logo are never more than the hosts, and each one is a host that contains the logo |
| Matching.Matches | webcam_yolo_gradio_cpu_full_logic.py:93-96 | the specification of `merch_boxes`; its own contract says only that with no hosts nothing matches, and its meaning comes from `MatchesMembers`, `MatchesAppend`, `MatchOrder` and `MatchCountIsPairCount` |
| Matching.MatchMerch | webcam_yolo_gradio_cpu_full_logic.py:92-99 | the nested loop builds `Matches(logos, torsos + headgears)`; `merch_count` is its length and also the number of (logo, host) index pairs with the logo inside the host |
| Matching.MatchesMembers | webcam_yolo_gradio_cpu_full_logic.py:93-96 | a box is in `merch_boxes` exactly when it is in `torsos + headgears` and some logo lies inside it |
| Matching.HostsContainingMembers | webcam_yolo_gradio_cpu_full_logic.py:94-96 | for one logo, a box is appended exactly when it is a host that contains the logo |
| Matching.HostsContainingAppend | webcam_yolo_gradio_cpu_full_logic.py:94-96 | matching one logo over `a + b` yields the matches in `a` followed by those in `b` |
| Matching.MatchesAppend | webcam_yolo_gradio_cpu_full_logic.py:93-96 | the outer loop keeps logo order: the matches for `a + b` are those for `a` followed by those for `b` |
| Matching.MatchOrder | webcam_yolo_gradio_cpu_full_logic.py:93-96 | `merch_boxes` lists the first logo's matching torsos, then its matching headgears, then the rest's matches |
| Matching.NothingToMatch | webcam_yolo_gradio_cpu_full_logic.py:92-99 | with no logos, or with neither torsos nor headgears, `merch_boxes` is empty and `merch_count` is 0 |
| Matching.MatchCountIsPairCount | webcam_yolo_gradio_cpu_full_logic.py:92-99 | the length of `merch_boxes` equals the number of (logo, host) index pairs with the logo inside the host, so a host is counted once per logo it contains |
| Clamping.Max | webcam_yolo_gradio_cpu_full_logic.py:105-106 | `max` is an upper bound of both arguments and equals one of them |
| Clamping.Min | webcam_yolo_gradio_cpu_full_logic.py:107-108 | `min` is a lower bound of both arguments and equals one of them |
| Clamping.Clamp | webcam_yolo_gradio_cpu_full_logic.py:105-108 | for any integer padding, `0 <= nx1`, `0 <= ny1`, `nx2 <= W` and `ny2 <= H`, and each edge lies no further out than the padded edge; with a negative padding or a box outside the frame the result can be inverted or extend beyond the frame |
| Clamping.ClampEdges | webcam_yolo_gradio_cpu_full_logic.py:105-108 | the left and top edges are the padded edges when those are at least 0 and 0 otherwise; the right and bottom edges are the padded edges when those are at most W and H, and W and H otherwise |
| Clamping.ClampIdempotent | webcam_yolo_gradio_cpu_full_logic.py:105-108 | clamping a clamped box again without padding changes nothing |
| Clamping.ClampCoversBox | webcam_yolo_gradio_cpu_full_logic.py:101-108 | with non-negative padding, the clamped region covers a box that lies in the frame |
| Clamping.ClampInFrame | webcam_yolo_gradio_cpu_full_logic.py:101-108 | a well-formed box inside the frame, with non-negative padding, is clamped to a well-formed box inside `[0, W] x [0, H]` |
| Clamping.MerchRegions | webcam_yolo_gradio_cpu_full_logic.py:101-108 | one rectangle per merch box, in order, each the clamped padded box, with `0 <= nx1`, `0 <= ny1`, `nx2 <= W` and `ny2 <= H` |
| MerchFrame.Logos | webcam_yolo_gradio_cpu_full_logic.py:75-76 | `logos` of a frame: the logo boxes, never more than there are detections |
| MerchFrame.Hosts | webcam_yolo_gradio_cpu_full_logic.py:77-80 | `torsos + headgears` of a frame: never more boxes than detections, because a detection lands in at most one bucket |
| MerchFrame.HostMembers | webcam_yolo_gradio_cpu_full_logic.py:77-80 | a box is a host exactly when a torso or headgear detection has it |
| MerchFrame.NoLogoDetections | webcam_yolo_gradio_cpu_full_logic.py:75-76 | a frame with no logo detection has no logos |
| MerchFrame.PostProcess | webcam_yolo_gradio_cpu_full_logic.py:60-108 | end to end: `all_boxes` is the input, `merch_count` is the number of matching (logo, host) pairs, a box is a merch box exactly when it is a torso or headgear box that contains some logo, no logo means a count of 0, and one clamped region is drawn per merch box |

## Left out

- Model loading and the model-file check: these are I/O and calls into a third-party library.
- Inference, reading boxes, confidences and class ids from its result, and the empty-result early return: these are opaque third-party calls. The model takes the detections as its input.
- Rescaling coordinates by the float `scale`: this is floating point. Coordinates arrive already as integers in frame pixels.
- The padding `int((x2 - x1) * 0.15)`: this is floating point. The padding is a parameter, a function from a box to its integer padding. Because of that, `Clamp` and `MerchRegions` hold for any padding.
- `.upper()` on class names: Unicode case mapping is not modelled. Names arrive already upper-cased.
- The confidence is carried as a `real` and used for nothing, as in the source, where it is only printed in labels.
- Frame flipping, copying, resizing, colour conversion and all drawing of rectangles and text: these are image buffers and rendering. `MerchRegions` gives the rectangles that would be drawn.
- The broad exception handler, the printing and the web UI: these are I/O.
- example.py, webcam_yolo_gradio.py and the files under `live_model(html+js)/` are not part of this model. example.py and webcam_yolo_gradio.py are capture and display loops around library calls. `live_model(html+js)/script.js` is a browser capture and display loop. `something.py` and `example2.py` inspect the model file and export it to ONNX.
