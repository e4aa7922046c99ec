/**
 * The deterministic part of the hybrid pose planner: grid snapping of a
 * normalised bounding box, the rule table used when the language model fails,
 * jitter candidates, rejection of candidates that collide with boxes already
 * placed, best-candidate selection by an external score and the conversion
 * of the chosen box to pixels.
 *
 * Coordinates are exact reals; the language model's prediction, the external
 * scorer and the background image size are parameters.
 */
module PosePlanner {
  import opened Wrappers

  /** Number of grid cells per unit side used for snapping. */
  const GridN: int := 20
  /** Largest shift, as a fraction of the image side, of a jitter candidate. */
  const MaxJitter: real := 0.05

  /** A normalised box [x1, y1, x2, y2]; (0,0) is the top-left corner. */
  datatype Box = Box(x1: real, y1: real, x2: real, y2: real)

  /** A box together with the yaw and pitch, in degrees, of the object. */
  datatype Pose = Pose(box: Box, yaw: real, pitch: real)

  /** A box in pixel coordinates of the background image. */
  datatype PixelBox = PixelBox(x1: int, y1: int, x2: int, y2: int)

  function Abs(x: real): real { if x < 0.0 then -x else x }

  predicate IsInteger(x: real) { x.Floor as real == x }

  /** A value lies on the 1/GridN grid. */
  predicate OnGrid(v: real) { IsInteger(v * GridN as real) }

  predicate InUnit(v: real) { 0.0 <= v <= 1.0 }

  predicate BoxInUnit(b: Box) { InUnit(b.x1) && InUnit(b.y1) && InUnit(b.x2) && InUnit(b.y2) }

  predicate BoxOnGrid(b: Box) { OnGrid(b.x1) && OnGrid(b.y1) && OnGrid(b.x2) && OnGrid(b.y2) }

  /** Corners ordered, so the box is a (possibly degenerate) closed rectangle. */
  predicate WellFormed(b: Box) { b.x1 <= b.x2 && b.y1 <= b.y2 }

  // ---------------------------------------------------------------- snapping

  /** Python's built-in `round` on a number: the nearest integer, ties to the even one. */
  function RoundHalfEven(x: real): (n: int)
    ensures x - 0.5 <= n as real <= x + 0.5
    ensures (n as real == x - 0.5 || n as real == x + 0.5) ==> n % 2 == 0
  {
    var f := x.Floor;
    var d := x - f as real;
    if d < 0.5 then f
    else if d > 0.5 then f + 1
    else if f % 2 == 0 then f
    else f + 1
  }

  /** `_snap`: the value moved onto the 1/GridN grid. */
  function Snap(v: real): (r: real)
    ensures OnGrid(r)
    ensures v - 1.0 / 40.0 <= r <= v + 1.0 / 40.0
  {
    RoundHalfEven(v * GridN as real) as real / GridN as real
  }

  /** Rounding an integer gives it back. */
  lemma RoundInteger(n: int)
    ensures RoundHalfEven(n as real) == n
  {
    assert (n as real).Floor == n;
  }

  /** A value already on the grid is left where it is. */
  lemma SnapFixesGrid(v: real)
    requires OnGrid(v)
    ensures Snap(v) == v
  {
    var n := (v * 20.0).Floor;
    assert n as real == v * 20.0;
    RoundInteger(n);
  }

  /** Snapping is idempotent. */
  lemma SnapIdempotent(v: real)
    ensures Snap(Snap(v)) == Snap(v)
  {
    SnapFixesGrid(Snap(v));
  }

  /** No grid point is strictly closer to v than Snap(v). */
  lemma SnapNearest(v: real, k: int)
    ensures Abs(Snap(v) - v) <= Abs(k as real / 20.0 - v)
  {
    var x := v * 20.0;
    var n := RoundHalfEven(x);
    assert Snap(v) - v == (n as real - x) / 20.0;
    assert k as real / 20.0 - v == (k as real - x) / 20.0;
    if k < n {
      assert k as real <= n as real - 1.0;
    } else if k > n {
      assert k as real >= n as real + 1.0;
    }
  }

  /** Snapping a value of [0,1] keeps it in [0,1]. */
  lemma SnapKeepsUnit(v: real)
    requires InUnit(v)
    ensures InUnit(Snap(v))
  {
    var n := RoundHalfEven(v * 20.0);
    assert -0.5 <= n as real <= 20.5;
  }

  /** `_snap_bbox`: every coordinate snapped on its own. */
  function SnapBox(b: Box): (r: Box)
    ensures BoxOnGrid(r)
    ensures Abs(r.x1 - b.x1) <= 1.0 / 40.0 && Abs(r.y1 - b.y1) <= 1.0 / 40.0
    ensures Abs(r.x2 - b.x2) <= 1.0 / 40.0 && Abs(r.y2 - b.y2) <= 1.0 / 40.0
  {
    Box(Snap(b.x1), Snap(b.y1), Snap(b.x2), Snap(b.y2))
  }

  lemma {:induction false} SnapBoxIdempotent(b: Box)
    ensures SnapBox(SnapBox(b)) == SnapBox(b)
  {
    SnapIdempotent(b.x1);
    SnapIdempotent(b.y1);
    SnapIdempotent(b.x2);
    SnapIdempotent(b.y2);
  }

  lemma SnapBoxKeepsUnit(b: Box)
    requires BoxInUnit(b)
    ensures BoxInUnit(SnapBox(b))
  {
    SnapKeepsUnit(b.x1);
    SnapKeepsUnit(b.y1);
    SnapKeepsUnit(b.x2);
    SnapKeepsUnit(b.y2);
  }

  // ------------------------------------------------------------ rule table

  /** `_rule_fallback`: the pose used when the language model gives none. */
  function RuleFallback(rel: string): (p: Pose)
    ensures p.pitch == -5.0
    ensures p.box.x1 < p.box.x2 && p.box.y1 < p.box.y2 && BoxInUnit(p.box)
    ensures p.yaw == if rel == "left_wall" then 90.0 else if rel == "right_wall" then -90.0 else 0.0
  {
    if rel == "left_wall" then Pose(Box(0.05, 0.55, 0.25, 0.75), 90.0, -5.0)
    else if rel == "right_wall" then Pose(Box(0.75, 0.55, 0.95, 0.75), -90.0, -5.0)
    else if rel == "back_wall" then Pose(Box(0.35, 0.35, 0.65, 0.55), 0.0, -5.0)
    else Pose(Box(0.30, 0.60, 0.55, 0.80), 0.0, -5.0)
  }

  /** The rule-table boxes already lie on the grid, so snapping leaves them alone. */
  lemma RuleFallbackOnGrid(rel: string)
    ensures SnapBox(RuleFallback(rel).box) == RuleFallback(rel).box
  {
    var b := RuleFallback(rel).box;
    assert OnGrid(b.x1) && OnGrid(b.y1) && OnGrid(b.x2) && OnGrid(b.y2) by {
      assert (0.05 * 20.0).Floor == 1 && (0.55 * 20.0).Floor == 11;
      assert (0.25 * 20.0).Floor == 5 && (0.75 * 20.0).Floor == 15;
      assert (0.95 * 20.0).Floor == 19 && (0.35 * 20.0).Floor == 7;
      assert (0.65 * 20.0).Floor == 13 && (0.30 * 20.0).Floor == 6;
      assert (0.60 * 20.0).Floor == 12 && (0.80 * 20.0).Floor == 16;
    }
    SnapFixesGrid(b.x1);
    SnapFixesGrid(b.y1);
    SnapFixesGrid(b.x2);
    SnapFixesGrid(b.y2);
  }

  /** The language model's prediction, or the rule table when it failed. */
  function InitialPose(llm: Option<Pose>, rel: string): Pose
  {
    match llm
    case Some(p) => p
    case None => RuleFallback(rel)
  }

  // -------------------------------------------------------------- candidates

  /** Python's `max(0, min(1, v))`. */
  function Clamp01(v: real): (r: real)
    ensures InUnit(r)
    ensures InUnit(v) ==> r == v
    ensures v < 0.0 ==> r == 0.0
    ensures v > 1.0 ==> r == 1.0
  {
    if 1.0 < v then 1.0 else if v < 0.0 then 0.0 else v
  }

  /** The four jitter offsets (dx, dy): left, right, up, down. */
  const CandOffsets: seq<(real, real)> :=
    [(-MaxJitter, 0.0), (MaxJitter, 0.0), (0.0, -MaxJitter), (0.0, MaxJitter)]

  /** The box moved by (dx, dy) and clamped to the unit square. */
  function Jitter(b: Box, off: (real, real)): Box
  {
    Box(Clamp01(b.x1 + off.0), Clamp01(b.y1 + off.1), Clamp01(b.x2 + off.0), Clamp01(b.y2 + off.1))
  }

  /** Each jitter offset moves along exactly one axis by exactly MaxJitter. */
  lemma OffsetsAxisAligned(k: nat)
    requires k < |CandOffsets|
    ensures var (dx, dy) := CandOffsets[k];
      (dx == 0.0) != (dy == 0.0) && Abs(dx) + Abs(dy) == MaxJitter
  {
  }

  /** A jitter candidate lies in the unit square, and where no clamping is
      needed it is the box shifted as a whole by the offset. */
  lemma JitterShape(b: Box, k: nat)
    requires k < |CandOffsets|
    ensures BoxInUnit(Jitter(b, CandOffsets[k]))
    ensures var (dx, dy) := CandOffsets[k];
      BoxInUnit(Box(b.x1 + dx, b.y1 + dy, b.x2 + dx, b.y2 + dy)) ==>
        Jitter(b, CandOffsets[k]) == Box(b.x1 + dx, b.y1 + dy, b.x2 + dx, b.y2 + dy)
  {
  }

  /** The candidate list of `plan_pose` before filtering. */
  function Candidates(snapped: Box, useFopa: bool): (cs: seq<Box>)
    ensures |cs| == if useFopa then 5 else 1
    ensures cs[0] == snapped
    ensures forall i :: 1 <= i < |cs| ==> cs[i] == Jitter(snapped, CandOffsets[i - 1]) && BoxInUnit(cs[i])
  {
    [snapped] + if useFopa then seq(4, k requires 0 <= k < 4 => Jitter(snapped, CandOffsets[k])) else []
  }

  /** Builds the candidates by appending, as `plan_pose` does. */
  method GenerateCandidates(snapped: Box, useFopa: bool) returns (candidates: seq<Box>)
    ensures candidates == Candidates(snapped, useFopa)
  {
    candidates := [snapped];
    if useFopa {
      for k := 0 to |CandOffsets|
        invariant |candidates| == k + 1 && candidates[0] == snapped
        invariant forall j :: 0 <= j < k ==> candidates[j + 1] == Jitter(snapped, CandOffsets[j])
      {
        var (dx, dy) := CandOffsets[k];
        var b := Box(snapped.x1 + dx, snapped.y1 + dy, snapped.x2 + dx, snapped.y2 + dy);
        b := Box(Clamp01(b.x1), Clamp01(b.y1), Clamp01(b.x2), Clamp01(b.y2));
        candidates := candidates + [b];
      }
    }
  }

  // --------------------------------------------------------------- collision

  /** The `overlap` test of `plan_pose`: the closed rectangles are not separated. */
  predicate Overlap(a: Box, b: Box)
  {
    !(a.x2 < b.x1 || a.x1 > b.x2 || a.y2 < b.y1 || a.y1 > b.y2)
  }

  predicate ContainsPoint(b: Box, px: real, py: real)
  {
    b.x1 <= px <= b.x2 && b.y1 <= py <= b.y2
  }

  /** Overlap is symmetric. */
  lemma OverlapSymmetric(a: Box, b: Box)
    ensures Overlap(a, b) <==> Overlap(b, a)
  {
  }

  /** For well-formed boxes, overlap is intersection of the closed rectangles:
      boxes that only touch along an edge or a corner overlap. */
  lemma OverlapIsClosedIntersection(a: Box, b: Box)
    requires WellFormed(a) && WellFormed(b)
    ensures Overlap(a, b) <==> exists px, py :: ContainsPoint(a, px, py) && ContainsPoint(b, px, py)
  {
    if Overlap(a, b) {
      var px := if a.x1 < b.x1 then b.x1 else a.x1;
      var py := if a.y1 < b.y1 then b.y1 else a.y1;
      assert ContainsPoint(a, px, py) && ContainsPoint(b, px, py);
    }
  }

  /** `all(not overlap(b, p) for p in placed_boxes)`. */
  predicate Free(b: Box, placed: seq<Box>)
  {
    forall p :: p in placed ==> !Overlap(b, p)
  }

  /** The list comprehension that keeps the collision-free candidates. */
  function KeepFree(cands: seq<Box>, placed: seq<Box>): (kept: seq<Box>)
    ensures |kept| <= |cands|
    ensures forall b :: b in kept <==> b in cands && Free(b, placed)
  {
    if cands == [] then []
    else (if Free(cands[0], placed) then [cands[0]] else []) + KeepFree(cands[1..], placed)
  }

  /** Filtering keeps the relative order: it distributes over concatenation. */
  lemma {:induction false} KeepFreeAppend(a: seq<Box>, b: seq<Box>, placed: seq<Box>)
    ensures KeepFree(a + b, placed) == KeepFree(a, placed) + KeepFree(b, placed)
  {
    if a == [] {
      assert a + b == b;
    } else {
      assert (a + b)[1..] == a[1..] + b;
      KeepFreeAppend(a[1..], b, placed);
    }
  }

  /** The collision step of `plan_pose`, with its fallback to the snapped box. */
  function FilterPlaced(cands: seq<Box>, placed: seq<Box>, snapped: Box): (r: seq<Box>)
    requires |cands| > 0
    ensures |r| > 0
    ensures (forall i :: 0 <= i < |r| ==> Free(r[i], placed)) || r == [snapped]
    ensures forall b :: b in cands && Free(b, placed) ==> b in r
    ensures forall b :: b in r ==> b in cands || b == snapped
  {
    if |placed| == 0 then cands
    else
      var kept := KeepFree(cands, placed);
      if kept == [] then [snapped] else kept
  }

  /** When some candidate is free, filtering is exactly KeepFree (order kept). */
  lemma FilterPlacedKeepsOrder(cands: seq<Box>, placed: seq<Box>, snapped: Box)
    requires |cands| > 0
    requires exists i :: 0 <= i < |cands| && Free(cands[i], placed)
    ensures FilterPlaced(cands, placed, snapped) == KeepFree(cands, placed)
  {
    var i :| 0 <= i < |cands| && Free(cands[i], placed);
    assert cands[i] in KeepFree(cands, placed);
    if |placed| == 0 {
      KeepAllWhenNothingPlaced(cands, placed);
    }
  }

  lemma {:induction false} KeepAllWhenNothingPlaced(cands: seq<Box>, placed: seq<Box>)
    requires |placed| == 0
    ensures KeepFree(cands, placed) == cands
  {
    if cands != [] {
      KeepAllWhenNothingPlaced(cands[1..], placed);
    }
  }

  // --------------------------------------------------------------- selection

  /** The scores of all candidates, or None when scoring one of them raises. */
  function ScoreAll(cands: seq<Box>, score: Box -> Option<real>): (scores: Option<seq<real>>)
    ensures scores.Some? <==> forall i :: 0 <= i < |cands| ==> score(cands[i]).Some?
    ensures scores.Some? ==> |scores.value| == |cands|
    ensures scores.Some? ==> forall i :: 0 <= i < |cands| ==> scores.value[i] == score(cands[i]).value
  {
    if cands == [] then Some([])
    else
      match score(cands[0])
      case None => None
      case Some(s) =>
        match ScoreAll(cands[1..], score)
        case None => None
        case Some(rest) => Some([s] + rest)
  }

  /** k is the index Python's `max(range(n), key=...)` returns: the first maximum. */
  predicate IsFirstMax(scores: seq<real>, k: int)
  {
    0 <= k < |scores| &&
    (forall i :: 0 <= i < |scores| ==> scores[i] <= scores[k]) &&
    (forall i :: 0 <= i < k ==> scores[i] < scores[k])
  }

  /** At most one index is the first maximum, so the selection is determined. */
  lemma FirstMaxUnique(scores: seq<real>, j: int, k: int)
    requires IsFirstMax(scores, j) && IsFirstMax(scores, k)
    ensures j == k
  {
    var sj, sk := scores[j], scores[k];
    assert sj <= sk && sk <= sj;
  }

  /** Scan that keeps the first index of the highest score. */
  method FirstArgMax(scores: seq<real>) returns (best: nat)
    requires |scores| > 0
    ensures best < |scores|
    ensures forall i :: 0 <= i < |scores| ==> scores[i] <= scores[best]
    ensures forall i :: 0 <= i < best ==> scores[i] < scores[best]
  {
    best := 0;
    for i := 1 to |scores|
      invariant best < i
      invariant forall j :: 0 <= j < i ==> scores[j] <= scores[best]
      invariant forall j :: 0 <= j < best ==> scores[j] < scores[best]
    {
      if scores[i] > scores[best] {
        best := i;
      }
    }
  }

  /** Index k is the one `plan_pose` picks among the filtered candidates. */
  predicate IsSelected(cands: seq<Box>, k: int, useFopa: bool, score: Box -> Option<real>)
  {
    0 <= k < |cands| &&
    var scores := ScoreAll(cands, score);
    if useFopa && scores.Some? then IsFirstMax(scores.value, k) else k == 0
  }

  /** As the repository stands, `modules.fopa_runner` defines no `score_bbox`,
      so its import raises on every call: with that scorer the first
      candidate is always the one chosen, whatever `use_fopa` says. */
  lemma MissingScorerSelectsFirst(cands: seq<Box>, k: int, useFopa: bool)
    requires IsSelected(cands, k, useFopa, (b: Box) => None)
    ensures k == 0
  {
  }

  // ------------------------------------------------------------------ pixels

  /** Python's `int()` on a number: truncation toward zero. */
  function Trunc(x: real): (n: int)
    ensures 0.0 <= x ==> n as real <= x < n as real + 1.0
    ensures x < 0.0 ==> n as real - 1.0 < x <= n as real
  {
    if x >= 0.0 then x.Floor else -((-x).Floor)
  }

  /** One coordinate converted to pixels: `int(coord * n)`. */
  function ToPixel(v: real, n: nat): int
  {
    Trunc(v * n as real)
  }

  function ToPixels(b: Box, width: nat, height: nat): PixelBox
  {
    PixelBox(ToPixel(b.x1, width), ToPixel(b.y1, height), ToPixel(b.x2, width), ToPixel(b.y2, height))
  }

  lemma UnitTimesNat(v: real, m: real)
    requires InUnit(v) && 0.0 <= m
    ensures 0.0 <= v * m <= m
  {
    assert (1.0 - v) * m >= 0.0;
  }

  lemma ScaleInRange(v: real, n: nat)
    requires InUnit(v)
    ensures 0 <= ToPixel(v, n) <= n
  {
    var x := v * n as real;
    UnitTimesNat(v, n as real);
    assert 0 <= Trunc(x) && Trunc(x) as real <= x;
  }

  /** A box in the unit square converts to pixels inside the image. */
  lemma PixelsInImage(b: Box, width: nat, height: nat)
    requires BoxInUnit(b)
    ensures 0 <= ToPixels(b, width, height).x1 <= width && 0 <= ToPixels(b, width, height).x2 <= width
    ensures 0 <= ToPixels(b, width, height).y1 <= height && 0 <= ToPixels(b, width, height).y2 <= height
  {
    ScaleInRange(b.x1, width);
    ScaleInRange(b.y1, height);
    ScaleInRange(b.x2, width);
    ScaleInRange(b.y2, height);
  }

  // --------------------------------------------------------------- plan_pose

  /** The candidates that survive the collision step for the given inputs. */
  function FinalCandidates(llm: Option<Pose>, rel: string, placed: seq<Box>, useFopa: bool): seq<Box>
  {
    var snapped := SnapBox(InitialPose(llm, rel).box);
    FilterPlaced(Candidates(snapped, useFopa), placed, snapped)
  }

  /** When the initial box lies in the unit square, so does every candidate
      that survives the collision step, and therefore the chosen one converts
      to pixels inside the image. */
  lemma FinalCandidatesInUnit(llm: Option<Pose>, rel: string, placed: seq<Box>, useFopa: bool)
    requires BoxInUnit(InitialPose(llm, rel).box)
    ensures forall b :: b in FinalCandidates(llm, rel, placed, useFopa) ==> BoxInUnit(b)
  {
    var snapped := SnapBox(InitialPose(llm, rel).box);
    SnapBoxKeepsUnit(InitialPose(llm, rel).box);
    var cs := Candidates(snapped, useFopa);
    forall b | b in cs
      ensures BoxInUnit(b)
    {
      var i :| 0 <= i < |cs| && cs[i] == b;
    }
  }

  /**
   * `plan_pose` without the language-model call: `llm` is its parsed answer,
   * or None when the call or parsing raised; `score` stands for `score_bbox`
   * (None when it raises); `width`, `height` are the background's size.
   */
  method PlanPose(llm: Option<Pose>, rel: string, placed: seq<Box>, useFopa: bool,
                  score: Box -> Option<real>, width: nat, height: nat)
    returns (bboxPx: PixelBox, yaw: real, pitch: real)
    ensures yaw == InitialPose(llm, rel).yaw && pitch == InitialPose(llm, rel).pitch
    ensures var cands := FinalCandidates(llm, rel, placed, useFopa);
      exists k :: IsSelected(cands, k, useFopa, score) && bboxPx == ToPixels(cands[k], width, height)
  {
    var bboxNorm: Box;
    match llm {
      case Some(p) =>
        bboxNorm, yaw, pitch := p.box, p.yaw, p.pitch;
      case None =>
        var fb := RuleFallback(rel);
        bboxNorm, yaw, pitch := fb.box, fb.yaw, fb.pitch;
    }
    bboxNorm := SnapBox(bboxNorm);
    var candidates := GenerateCandidates(bboxNorm, useFopa);
    if |placed| > 0 {
      var kept := KeepFree(candidates, placed);
      candidates := if kept == [] then [bboxNorm] else kept;
    }
    assert candidates == FinalCandidates(llm, rel, placed, useFopa);
    var bestIdx := 0;
    if useFopa {
      var scores := ScoreAll(candidates, score);
      if scores.Some? {
        bestIdx := FirstArgMax(scores.value);
      }
    }
    assert IsSelected(candidates, bestIdx, useFopa, score);
    bboxNorm := candidates[bestIdx];
    bboxPx := ToPixels(bboxNorm, width, height);
  }
}
