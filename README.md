# roomie-interior: the deterministic core, in Dafny

The repository inserts generated furniture into a photo of an empty room by
chaining machine-learning models. Between those calls sit four small pieces
of deterministic logic. This project models them and proves properties of
the models:

- `PosePlanner` (`pose_planner.dfy`): the hybrid pose planner. It takes the
  box predicted by the language model, or the rule-table box when that
  call fails. It snaps the box to the 1/20 grid and adds four ±0.05 jitter
  candidates, clamped to the unit square. It drops the candidates that touch
  an already placed box, falling back to the snapped box when none is left.
  It picks the first candidate with the highest external score and
  converts that box to pixels by truncation.
- `MaskGenerator` (`mask_generator.dfy`): builds the height×width mask that
  is 255 inside the object's box (x, y, w, h), clipped to the image, and 0
  elsewhere. The mask is a two-dimensional array filled in place. Python's
  slice semantics are kept exactly, including a negative stop counting from
  the end.
- `ControlcomRunner` (`controlcom_runner.dfy`): the rule-based description
  parser. "소파" (sofa) and "테이블" (table) each select a fixed object
  record. The sofa always comes first, and neither record is repeated.
- `FopaRunner` (`fopa_runner.dfy`): the test record written for FOPA, the
  heatmap key `"{ann_id}_1_{new_w}_{new_h}_{scale}"` and the row-major
  argmax over the heatmap, returned as (column, row). When no heatmap exists
  the result falls back to the box's corner (bbox[0], bbox[1]).
- `Wrappers` and `Pixels` hold `Option` and the `uint8` pixel type.

Coordinates are exact reals. Python's `round` is modelled as round-half-to-even
and `int()` as truncation toward zero. The language model's answer, the
external scorer, the image sizes and the directory of heatmaps FOPA produces
are all parameters.

Each mutating or scanning operation is an imperative method proved against a
specification function or predicate:
- `GenerateCandidates` is proved against `Candidates`.
- `FillRect` is proved to set exactly its rectangle and leave every other cell as it was; `GenerateMask`, built on it, is proved against `Filled`.
- `FirstArgMax` and `ArgMax2D` are proved against explicit first-maximum conditions.
- `PlanPose` is proved against `FinalCandidates` and `IsSelected`.
- `RunControlcom` is proved against the substring predicate `IsSubstring`.

## Model

| member | source | states |
|---|---|---|
| PosePlanner.RoundHalfEven | modules/pose_planner.py:48 | Python's `round`: the result is within 0.5 of the input, and an exact tie goes to the even integer |
| PosePlanner.Snap | modules/pose_planner.py:28-48 | `_snap` lands on the 1/20 grid and moves the value by at most half a step (1/40) |
| PosePlanner.RoundInteger | modules/pose_planner.py:48 | rounding an integer returns it unchanged |
| PosePlanner.SnapFixesGrid | modules/pose_planner.py:46-48 | a value already on the grid is left unchanged by snapping |
| PosePlanner.SnapIdempotent | modules/pose_planner.py:46-48 | snapping twice equals snapping once |
| PosePlanner.SnapNearest | modules/pose_planner.py:46-48 | no grid point k/20 is strictly closer to the input than the snapped value |
| PosePlanner.SnapKeepsUnit | modules/pose_planner.py:46-48 | snapping a value in [0,1] keeps it in [0,1] |
| PosePlanner.SnapBox | modules/pose_planner.py:51-53 | `_snap_bbox` snaps each of the four coordinates independently: each result coordinate is on the grid and within 1/40 of its own input coordinate |
| PosePlanner.SnapBoxIdempotent | modules/pose_planner.py:51-53 | snapping a box twice equals snapping it once |
| PosePlanner.SnapBoxKeepsUnit | modules/pose_planner.py:51-53 | a box in the unit square stays in it after snapping |
| PosePlanner.RuleFallback | modules/pose_planner.py:56-66 | the pitch is always -5, the box has x1 < x2 and y1 < y2 inside [0,1], and the yaw is 90 for "left_wall", -90 for "right_wall" and 0 otherwise ("back_wall" included) |
| PosePlanner.RuleFallbackOnGrid | modules/pose_planner.py:56-66 | every rule-table box already lies on the 1/20 grid, so snapping it changes nothing |
| PosePlanner.Clamp01 | modules/pose_planner.py:109 | `max(0, min(1, v))` lies in [0,1], is the identity on [0,1], and sends values below 0 to 0 and values above 1 to 1 |
| PosePlanner.OffsetsAxisAligned | modules/pose_planner.py:106 | each jitter offset moves along exactly one axis, by exactly 0.05 |
| PosePlanner.JitterShape | modules/pose_planner.py:107-109 | a jitter candidate lies in the unit square; when the shifted box is already inside it, the candidate is the box with both x-coordinates moved by dx and both y-coordinates by dy |
| PosePlanner.Candidates | modules/pose_planner.py:101-110 | with `use_fopa` off there is exactly one candidate, the snapped box; with it on there are five: the snapped box followed by the four clamped jitters in the order left, right, up, down |
| PosePlanner.GenerateCandidates | modules/pose_planner.py:102-110 | building the list by appending in a loop over the offsets yields exactly `Candidates` |
| PosePlanner.OverlapSymmetric | modules/pose_planner.py:116-117 | the overlap test is symmetric |
| PosePlanner.OverlapIsClosedIntersection | modules/pose_planner.py:116-117 | for well-formed boxes, overlap holds exactly when the closed rectangles share a point, so boxes touching at an edge count as overlapping |
| PosePlanner.KeepFree | modules/pose_planner.py:118 | the comprehension keeps exactly the candidates that overlap no placed box and never grows the list |
| PosePlanner.KeepFreeAppend | modules/pose_planner.py:118 | filtering distributes over concatenation, so relative order is preserved |
| PosePlanner.KeepAllWhenNothingPlaced | modules/pose_planner.py:115-118 | with no placed boxes the filter keeps every candidate |
| PosePlanner.FilterPlaced | modules/pose_planner.py:115-118 | the filtered list is never empty; either all its elements are collision-free or it is exactly [snapped box]; no collision-free candidate is dropped and nothing new appears |
| PosePlanner.FilterPlacedKeepsOrder | modules/pose_planner.py:115-118 | when some candidate is collision-free, the result is the order-preserving filter itself, with no fallback |
| PosePlanner.ScoreAll | modules/pose_planner.py:124 | scores exist exactly when every candidate can be scored, one score per candidate in order |
| PosePlanner.FirstArgMax | modules/pose_planner.py:125 | `max(range(len(scores)), key=...)`: the index has a maximal score and every earlier index scores strictly less |
| PosePlanner.FirstMaxUnique | modules/pose_planner.py:125 | at most one index is the first maximum, so the selected candidate, and hence the pixel box of `PlanPose`, is determined |
| PosePlanner.MissingScorerSelectsFirst | modules/pose_planner.py:121-131 | when scoring raises, as the import of the undefined `score_bbox` does, the first candidate is selected |
| PosePlanner.Trunc | modules/pose_planner.py:137-140 | `int()` truncates toward zero: the result is within one of the input, on the side of zero |
| PosePlanner.ScaleInRange | modules/pose_planner.py:137-140 | a coordinate in [0,1] scaled by n and truncated lies in [0,n] |
| PosePlanner.PixelsInImage | modules/pose_planner.py:137-140 | a box in the unit square converts to pixel coordinates in [0,W]×[0,H] |
| PosePlanner.FinalCandidatesInUnit | modules/pose_planner.py:94-118 | if the initial box lies in the unit square (always true of the rule table), every surviving candidate does too |
| PosePlanner.PlanPose | modules/pose_planner.py:94-142 | yaw and pitch come from the model's answer or the rule table; the pixel box is the truncated conversion of a surviving candidate that is the first highest-scoring one when scoring is on and succeeds, and otherwise candidate 0 |
| MaskGenerator.SliceIndex | modules/mask_generator.py:32 | Python's slice-bound normalisation: the result lies in [0,n], a bound in [0,n] is kept, a bound above n becomes n, a bound in [-n,0) counts from the end, and a bound below -n becomes 0 |
| MaskGenerator.FillRect | modules/mask_generator.py:32 | the slice assignment sets exactly the cells of the rows r0..r1 and columns c0..c1 and leaves every other cell unchanged |
| MaskGenerator.GenerateMask | modules/mask_generator.py:23-32 | the fresh mask has `height` rows and `width` columns; a cell is 255 where the clipped slice covers it and 0 everywhere else, so only 0 and 255 occur |
| MaskGenerator.FilledWithinClippedBox | modules/mask_generator.py:25-32 | with non-negative stops, cell (r,c) is filled iff max(0,y) <= r < min(y+h,height) and max(0,x) <= c < min(x+w,width) |
| MaskGenerator.EmptyClipLeavesBlank | modules/mask_generator.py:26-32 | with non-negative stops, an empty clipped box fills no cell |
| MaskGenerator.NegativeColumnStop | modules/mask_generator.py:28-32 | for x >= 0 and a column stop x+w in [-width,0), cell (r,c) is filled iff its row is in the row slice and x <= c < width + x + w |
| MaskGenerator.NegativeStopCountsFromEnd | modules/mask_generator.py:28-32 | a negative width makes the column stop count from the end of the row, so a box with w = -3 still fills columns 0..6 of a 10-wide image |
| ControlcomRunner.Contains | modules/controlcom_runner.py:24-26 | the search answers Python's `needle in hay`: true exactly when the needle occurs at some position |
| ControlcomRunner.RunControlcom | modules/controlcom_runner.py:3-29 | the sofa record is present iff "소파" occurs and the table record iff "테이블" occurs; only those two fixed records appear, at most once each, sofa before table; neither keyword gives [] |
| FopaRunner.NatToString | modules/fopa_runner.py:34 | the decimal text of a number is non-empty, made of digits, and has no leading zero (it starts with '0' only for 0), as Python's `str` writes it |
| FopaRunner.NatToStringRoundTrip | modules/fopa_runner.py:34 | reading the decimal text back gives the number |
| FopaRunner.IntToStringRoundTrip | modules/fopa_runner.py:34 | an integer's text, sign included, parses back to the integer |
| FopaRunner.IntToStringNoUnderscore | modules/fopa_runner.py:34 | an integer's text contains no underscore, so it cannot blur the key's separators |
| FopaRunner.UnderscoreAfterWord | modules/fopa_runner.py:34 | in word + "_" + rest, with no underscore in the word, the first underscore sits right after the word |
| FopaRunner.SplitAtUnderscore | modules/fopa_runner.py:34 | word + "_" + rest splits back uniquely when the word has no underscore |
| FopaRunner.HeatmapKeyDeterminesSize | modules/fopa_runner.py:34 | for a fixed object id and scale, the key `{ann_id}_1_{new_w}_{new_h}_{scale}` determines the requested width and height |
| FopaRunner.ArgMax2D | modules/fopa_runner.py:41-42 | the row-major scan returns an in-bounds (row, col) whose value is the maximum of the array, and every cell before it in row-major order is strictly smaller |
| FopaRunner.FirstMaxCellUnique | modules/fopa_runner.py:41-43 | at most one cell is the first maximum in row-major order, so the position returned from a heatmap is determined |
| FopaRunner.BestPositionFromHeatmap | modules/fopa_runner.py:33-43 | no heatmap under the key gives None; otherwise the result is (column, row) of the first brightest pixel |
| FopaRunner.TestJson | modules/fopa_runner.py:14-29 | one entry with id "test1", empty mask and class "object"; `pos_label` wrapped in a one-element list, `neg_label` fixed to [[50,50]], bg/fg/composite_fg named after the scene and object ids, size and scale as given |
| FopaRunner.SelectionKey | modules/fopa_runner.py:34 | for the fixed request (ann_id "3", 200×100, scale 0.6) the heatmap key is "3_1_200_100_0.6" |
| FopaRunner.RunFopaSelection | modules/fopa_runner.py:45-69 | the record is `TestJson` of the fixed request (ann_id "3", scene "000000000001") and carries [[bbox[0], bbox[1]]], size 200×100 and scale 0.6; the position is the heatmap's best pixel when a heatmap exists, (0,0) included, and otherwise (bbox[0], bbox[1]) |

## Left out

- The language-model call and JSON extraction in `plan_pose` (modules/pose_planner.py:82-93) are a foreign API. The parsed answer is the `llm` parameter; a failure inside that `try` is `None`, which selects the rule table (the one failure that escapes it is listed below).
- PosePlanner.PlanPose: the model's answer is taken as four reals plus yaw and pitch. An answer that parses but has non-numeric x1..y2 (a string or null) passes the `try` of modules/pose_planner.py:83-93, since only yaw and pitch go through `float()`; `_snap` then raises at line 101, outside the `try`, so `plan_pose` raises rather than falling back. `Option<Pose>` cannot express that answer, so this raising path is not modelled.
- `score_bbox` is a foreign model. It is the `score` parameter, which returns `None` where the call raises.
- The background size read with PIL (modules/pose_planner.py:135-136, modules/mask_generator.py:19-20) is passed in as width and height. Heatmap decoding (modules/fopa_runner.py:41) is replaced by a given array.
- File copies, the JSON dump, saving the mask, printing and the two FOPA subprocess runs are I/O. They are not modelled. `RunFopaSelection` returns the record it would write and takes FOPA's heatmap directory as a map from key to array.
- `plan_pose`'s `placed_boxes` is typed as lists of ints but is compared against normalised coordinates. The model gives placed boxes the same real coordinates as candidates. `None` and `[]` are both the empty sequence, which the source treats alike.
- Floating point is not modelled. Coordinates are exact reals, so the results are exact rather than binary-float. Python's ties-to-even rounding is kept.
- FopaRunner.HeatmapKey: takes the scale as its decimal text, because Python's `str` of a float is not modelled. `SelectionKey` fixes it to "0.6" for the one scale the source uses.
- FopaRunner.ArgMax2D: requires a non-empty array. `np.argmax` raises on an empty one, and a decoded image has at least one pixel.
- FopaRunner.RunFopaSelection: requires len(bbox) >= 2. The source indexes bbox[0] and bbox[1] before anything else and raises otherwise.
- Everything outside these four files is glue over external models and services, so it is not part of this model: the diffusion and view-synthesis modules, the RunPod client, the ControlCom wrapper scripts, `pipeline.py` and `main.py`.

## Findings

| source | as written | input that shows it | evidently intended | confidence | as-written member | corrected member |
|---|---|---|---|---|---|---|
| modules/pose_planner.py:123 | `from modules.fopa_runner import score_bbox`, but modules/fopa_runner.py defines no `score_bbox`, so the import raises and the `except` picks candidates[0] | any `plan_pose` call with `use_fopa=True` | the candidate with the highest FOPA score is chosen, as the module's own notes assume a `score_bbox` in the runner | not executed; high (the whole runner file is 70 lines with no such function) | PosePlanner.MissingScorerSelectsFirst | PosePlanner.PlanPose with a `score` that returns scores, selection by PosePlanner.FirstArgMax |
