/** `SmoothingStrategies`: turning a list of sampled points into a path string, either
    as straight lines, as quadratic Béziers that skip `step` points at a time, or as a
    Catmull-Rom spline, and the adaptive choice of the step. */
module Smoothing {
  import opened Text
  import opened Core
  import opened PathData

  datatype SmoothingType = QuadraticBezier | Linear | CatmullRom | Undefined(code: int)

  // ---------------------------------------------------------------------------
  // The adaptive step
  // ---------------------------------------------------------------------------

  /** C# integer division by two: truncation toward zero. */
  function HalfTowardZero(n: int): (h: int)
    ensures n >= 0 ==> 0 <= 2 * h <= n < 2 * h + 2
    ensures n < 0 ==> 2 * h - 2 < n <= 2 * h <= 0
  {
    if n >= 0 then n / 2 else -((-n) / 2)
  }

  function IntMax(a: int, b: int): int { if a >= b then a else b }

  /** The change of direction at `b` on the way from `a` to `c`, in radians; no angle
      when either leg has length zero. */
  function Turn(nf: Numerics, a: Point, b: Point, c: Point): real {
    var v1x, v1y := b.x - a.x, b.y - a.y;
    var v2x, v2y := c.x - b.x, c.y - b.y;
    var dot := v1x * v2x + v1y * v2y;
    var mag1 := nf.sqrt(v1x * v1x + v1y * v1y);
    var mag2 := nf.sqrt(v2x * v2x + v2y * v2y);
    if mag1 > 0.0 && mag2 > 0.0 then
      assert mag1 * mag2 > 0.0;
      nf.acos(ClampReal(dot / (mag1 * mag2), -1.0, 1.0))
    else 0.0
  }

  /** The turns at the inner points `1 .. i - 1`. */
  function TurnsBefore(nf: Numerics, pts: seq<Point>, i: nat): real
    requires 1 <= i < |pts|
  {
    if i == 1 then 0.0 else TurnsBefore(nf, pts, i - 1) + Turn(nf, pts[i - 2], pts[i - 1], pts[i])
  }

  function AverageTurn(nf: Numerics, pts: seq<Point>): real
    requires |pts| >= 3
  {
    TurnsBefore(nf, pts, |pts| - 1) / (|pts| - 2) as real
  }

  /** The step `ComputeAdaptiveStep` chooses: the base step for fewer than three points,
      otherwise the maximum for nearly straight strokes, half of it (but at least the
      base) for gently bending ones and the base step for curvy ones. */
  function AdaptiveStep(nf: Numerics, pts: seq<Point>, baseStep: int, maxStep: int): (step: int)
    ensures step == baseStep || step == maxStep || step == IntMax(baseStep, HalfTowardZero(maxStep))
  {
    if |pts| < 3 then baseStep
    else
      var avg := AverageTurn(nf, pts);
      if avg < 0.1 then maxStep
      else if avg < 0.2 then IntMax(baseStep, HalfTowardZero(maxStep))
      else baseStep
  }

  /** `ComputeAdaptiveStep`: one pass over the inner points summing the turns. */
  method ComputeAdaptiveStep(nf: Numerics, pts: seq<Point>, baseStep: int, maxStep: int) returns (step: int)
    ensures step == AdaptiveStep(nf, pts, baseStep, maxStep)
    ensures |pts| < 3 ==> step == baseStep
    ensures |pts| >= 3 ==>
      && (AverageTurn(nf, pts) < 0.1 ==> step == maxStep)
      && (0.1 <= AverageTurn(nf, pts) < 0.2 ==> step == IntMax(baseStep, HalfTowardZero(maxStep)))
      && (0.2 <= AverageTurn(nf, pts) ==> step == baseStep)
  {
    if |pts| < 3 {
      return baseStep;
    }
    var total := 0.0;
    var i := 1;
    while i < |pts| - 1
      invariant 1 <= i <= |pts| - 1
      invariant total == TurnsBefore(nf, pts, i)
    {
      total := total + Turn(nf, pts[i - 1], pts[i], pts[i + 1]);
      i := i + 1;
    }
    var avg := total / (|pts| - 2) as real;
    if avg < 0.1 {
      step := maxStep;
    } else if avg < 0.2 {
      step := if baseStep >= HalfTowardZero(maxStep) then baseStep else HalfTowardZero(maxStep);
    } else {
      step := baseStep;
    }
  }

  // ---------------------------------------------------------------------------
  // The path strings, as the words they are built from
  // ---------------------------------------------------------------------------

  /** A point written as `x y` with "0.##". */
  function PairWords(nf: Numerics, p: Point): seq<string> {
    [nf.fixed2(p.x), nf.fixed2(p.y)]
  }

  /** One ` L x y` per point. */
  function LineWords(nf: Numerics, ps: seq<Point>): seq<string> {
    if |ps| == 0 then [] else ["L"] + PairWords(nf, ps[0]) + LineWords(nf, ps[1..])
  }

  /** `Linear`: nothing for fewer than two points, otherwise a moveto to the first point
      and a lineto to each further one. */
  function LinearPath(nf: Numerics, pts: seq<Point>): string {
    if |pts| < 2 then "" else JoinWords(["M"] + PairWords(nf, pts[0]) + LineWords(nf, pts[1..]))
  }

  function Mid(a: Point, b: Point): Point { Point((a.x + b.x) / 2.0, (a.y + b.y) / 2.0) }

  function MinInt(a: int, b: int): int { if a <= b then a else b }

  /** The ` Q` commands for `i = step, 2 step, …` below `|pts| - step`: control point
      `pts[i]`, end point the midpoint of `pts[i - step]` and `pts[min(i + step, n - 1)]`. */
  function QuadWords(nf: Numerics, pts: seq<Point>, step: nat, i: nat): seq<string>
    requires step > 0 && i >= step
    decreases |pts| - i
  {
    if i < |pts| - step then
      ["Q"] + PairWords(nf, pts[i]) + PairWords(nf, Mid(pts[i - step], pts[MinInt(i + step, |pts| - 1)]))
      + QuadWords(nf, pts, step, i + step)
    else []
  }

  /** `QuadraticBezier(pts, step)`. The empty list fails (the first point is read
      unconditionally); fewer than three points give a moveto and a lineto to the last
      point; a negative step fails on its first control point. A zero step on three or
      more points never terminates, so callers must not pass one. */
  function QuadraticBezierPath(nf: Numerics, pts: seq<Point>, step: int): (r: Option<string>)
    requires |pts| < 3 || step != 0
    ensures r.None? <==> |pts| == 0 || (|pts| >= 3 && step < 0)
    ensures r.Some? ==> StartsWith(r.value, "M ")
  {
    if |pts| == 0 then None
    else if |pts| < 3 then
      JoinStartsWithM(PairWords(nf, pts[0]) + ["L"] + PairWords(nf, pts[|pts| - 1]));
      Some(JoinWords(["M"] + PairWords(nf, pts[0]) + ["L"] + PairWords(nf, pts[|pts| - 1])))
    else if step < 0 then None
    else
      JoinStartsWithM(PairWords(nf, pts[0]) + QuadWords(nf, pts, step, step) + ["L"] + PairWords(nf, pts[|pts| - 1]));
      Some(JoinWords(["M"] + PairWords(nf, pts[0]) + QuadWords(nf, pts, step, step) + ["L"] + PairWords(nf, pts[|pts| - 1])))
  }

  /** First Catmull-Rom control point of the piece from `p1` to `p2`. */
  function Control1(p0: Point, p1: Point, p2: Point): Point {
    Point(p1.x + (p2.x - p0.x) / 6.0, p1.y + (p2.y - p0.y) / 6.0)
  }

  /** Second Catmull-Rom control point of the piece from `p1` to `p2`. */
  function Control2(p1: Point, p2: Point, p3: Point): Point {
    Point(p2.x - (p3.x - p1.x) / 6.0, p2.y - (p3.y - p1.y) / 6.0)
  }

  /** The ` C` commands for `i = 1 .. |pts| - 3`, each ending at `pts[i + 1]`. */
  function CubicWords(nf: Numerics, pts: seq<Point>, i: nat): seq<string>
    requires i >= 1
    decreases |pts| - i
  {
    if i < |pts| - 2 then
      ["C"] + (PairWords(nf, Control1(pts[i - 1], pts[i], pts[i + 1])) + PairWords(nf, Control2(pts[i], pts[i + 1], pts[i + 2])))
      + PairWords(nf, pts[i + 1]) + CubicWords(nf, pts, i + 1)
    else []
  }

  /** `CatmullRom`: `Linear` below four points, otherwise a moveto, the cubic pieces and
      a lineto to the last point. */
  function CatmullRomPath(nf: Numerics, pts: seq<Point>): string {
    if |pts| < 4 then LinearPath(nf, pts)
    else JoinWords(["M"] + PairWords(nf, pts[0]) + CubicWords(nf, pts, 1) + ["L"] + PairWords(nf, pts[|pts| - 1]))
  }

  /** `BuildPath`: the adaptive step, then the chosen strategy; an undefined type falls
      back to quadratic Béziers, and only they use the step. */
  function BuildPath(nf: Numerics, pts: seq<Point>, kind: SmoothingType, baseStep: int, maxStep: int): (r: Option<string>)
    requires kind.Linear? || kind.CatmullRom? || |pts| < 3 || AdaptiveStep(nf, pts, baseStep, maxStep) != 0
    ensures r.Some? && r.value != "" ==> StartsWith(r.value, "M ")
    ensures r.None? <==> !kind.Linear? && !kind.CatmullRom?
                         && (|pts| == 0 || (|pts| >= 3 && AdaptiveStep(nf, pts, baseStep, maxStep) < 0))
  {
    var step := AdaptiveStep(nf, pts, baseStep, maxStep);
    match kind
    case Linear =>
      LinearStartsWithM(nf, pts);
      Some(LinearPath(nf, pts))
    case CatmullRom =>
      CatmullRomStartsWithM(nf, pts);
      Some(CatmullRomPath(nf, pts))
    case _ => QuadraticBezierPath(nf, pts, step)
  }

  // ---------------------------------------------------------------------------
  // Shape of the strings
  // ---------------------------------------------------------------------------

  lemma JoinStartsWithM(ts: seq<string>)
    requires |ts| > 0
    ensures StartsWith(JoinWords(["M"] + ts), "M ")
  {
    var all := ["M"] + ts;
    assert all[1..] == ts;
    assert JoinWords(all) == "M " + JoinWords(ts);
  }

  lemma LinearStartsWithM(nf: Numerics, pts: seq<Point>)
    ensures LinearPath(nf, pts) != "" ==> StartsWith(LinearPath(nf, pts), "M ")
  {
    if |pts| >= 2 {
      JoinStartsWithM(PairWords(nf, pts[0]) + LineWords(nf, pts[1..]));
    }
  }

  lemma CatmullRomStartsWithM(nf: Numerics, pts: seq<Point>)
    ensures CatmullRomPath(nf, pts) != "" ==> StartsWith(CatmullRomPath(nf, pts), "M ")
  {
    LinearStartsWithM(nf, pts);
    if |pts| >= 4 {
      JoinStartsWithM(PairWords(nf, pts[0]) + CubicWords(nf, pts, 1) + ["L"] + PairWords(nf, pts[|pts| - 1]));
    }
  }

  /** Only the quadratic strategy depends on the steps. */
  lemma StepOnlyForQuadratic(nf: Numerics, pts: seq<Point>, kind: SmoothingType, b1: int, m1: int, b2: int, m2: int)
    requires kind.Linear? || kind.CatmullRom?
    ensures BuildPath(nf, pts, kind, b1, m1) == BuildPath(nf, pts, kind, b2, m2)
  {
  }

  // ---------------------------------------------------------------------------
  // Reading the strings back with `PathData.ToPoints`
  // ---------------------------------------------------------------------------

  /** Each point after a trip through "0.##" text. */
  function Rereads(nf: Numerics, ps: seq<Point>): (qs: seq<Point>)
    ensures |qs| == |ps|
  {
    if |ps| == 0 then [] else [RereadPoint(nf, ps[0])] + Rereads(nf, ps[1..])
  }

  predicate CentsPoints(ps: seq<Point>) {
    forall i :: 0 <= i < |ps| ==> IsCents(ps[i].x) && IsCents(ps[i].y)
  }

  /** Points given in whole hundredths survive the trip unchanged. */
  lemma {:induction false} RereadsCents(nf: Numerics, ps: seq<Point>)
    requires FixedFormatsReadBack(nf) && CentsPoints(ps)
    ensures Rereads(nf, ps) == ps
  {
    if |ps| > 0 {
      RereadCents(nf, ps[0].x);
      RereadCents(nf, ps[0].y);
      assert forall i :: 0 <= i < |ps| - 1 ==> ps[1..][i] == ps[i + 1];
      RereadsCents(nf, ps[1..]);
    }
  }

  predicate AllWords(ts: seq<string>) {
    forall k :: 0 <= k < |ts| ==> IsWord(ts[k], PathSeparators)
  }

  lemma AllWordsAppend(a: seq<string>, b: seq<string>)
    requires AllWords(a) && AllWords(b)
    ensures AllWords(a + b)
  {
    assert forall k :: |a| <= k < |a + b| ==> (a + b)[k] == b[k - |a|];
  }

  lemma PairAreWords(nf: Numerics, p: Point)
    requires FixedFormatsReadBack(nf)
    ensures AllWords(PairWords(nf, p))
  {
    var ts := PairWords(nf, p);
    forall k | 0 <= k < 2 ensures IsWord(ts[k], PathSeparators) {
      assert IsNumeral(ts[k]);
    }
  }

  lemma CommandIsWord(c: string)
    requires c == "M" || c == "L" || c == "Q" || c == "C"
    ensures AllWords([c])
  {
  }

  lemma RereadsOfSlice(nf: Numerics, ps: seq<Point>, a: nat, b: nat)
    requires a < b <= |ps|
    ensures Rereads(nf, ps[a..b]) == [RereadPoint(nf, ps[a])] + Rereads(nf, ps[a + 1..b])
  {
    assert ps[a..b][1..] == ps[a + 1..b];
  }

  /** A command whose last argument pair is a written point yields that point reread. */
  lemma PieceEndpoint(nf: Numerics, c: string, front: seq<string>, p: Point, rest: seq<string>)
    requires FixedFormatsReadBack(nf) && (c == "M" || c == "L" || c == "Q" || c == "C")
    requires ArgCount(c) == |front| + 2 && AllWords(front)
    ensures AllWords([c] + front + PairWords(nf, p))
    ensures Endpoints(nf, [c] + front + PairWords(nf, p) + rest) == [RereadPoint(nf, p)] + Endpoints(nf, rest)
  {
    var args := front + PairWords(nf, p);
    assert [c] + front + PairWords(nf, p) == [c] + args;
    assert args[|args| - 2] == nf.fixed2(p.x) && args[|args| - 1] == nf.fixed2(p.y);
    EndpointsOfCommand(nf, c, args, rest);
    CommandIsWord(c);
    PairAreWords(nf, p);
    AllWordsAppend(front, PairWords(nf, p));
    AllWordsAppend([c], args);
  }

  lemma AssociatePoints(a: seq<Point>, b: seq<Point>, c: seq<Point>)
    ensures (a + b) + c == a + (b + c)
  {
  }

  lemma Associate(a: seq<string>, b: seq<string>, c: seq<string>)
    ensures (a + b) + c == a + (b + c)
  {
  }

  /** One piece in front of a run of pieces: the endpoints concatenate. */
  lemma ChainEnds(nf: Numerics, piece: seq<string>, later: seq<string>, rest: seq<string>, p: Point, s: seq<Point>)
    requires Endpoints(nf, piece + (later + rest)) == [p] + Endpoints(nf, later + rest)
    requires Endpoints(nf, later + rest) == s + Endpoints(nf, rest)
    ensures Endpoints(nf, piece + later + rest) == ([p] + s) + Endpoints(nf, rest)
  {
    Associate(piece, later, rest);
    AssociatePoints([p], s, Endpoints(nf, rest));
  }

  /** A recognised command followed by its arguments yields its endpoint first. */
  lemma EndpointsOfCommand(nf: Numerics, c: string, args: seq<string>, rest: seq<string>)
    requires ArgCount(c) == |args| >= 2
    requires nf.parse(args[|args| - 2]).Some? && nf.parse(args[|args| - 1]).Some?
    ensures Endpoints(nf, [c] + args + rest)
      == [Point(nf.parse(args[|args| - 2]).value, nf.parse(args[|args| - 1]).value)] + Endpoints(nf, rest)
  {
    var toks := [c] + args + rest;
    var k := |args|;
    assert toks[0] == c && toks[k - 1] == args[k - 2] && toks[k] == args[k - 1];
    assert toks[k + 1..] == rest;
  }

  lemma {:induction false} LineEndpoints(nf: Numerics, ps: seq<Point>)
    requires FixedFormatsReadBack(nf)
    ensures AllWords(LineWords(nf, ps))
    ensures Endpoints(nf, LineWords(nf, ps)) == Rereads(nf, ps)
  {
    if |ps| > 0 {
      LineEndpoints(nf, ps[1..]);
      CommandIsWord("L");
      PairAreWords(nf, ps[0]);
      AllWordsAppend(["L"], PairWords(nf, ps[0]));
      AllWordsAppend(["L"] + PairWords(nf, ps[0]), LineWords(nf, ps[1..]));
      EndpointsOfCommand(nf, "L", PairWords(nf, ps[0]), LineWords(nf, ps[1..]));
    }
  }

  /** The endpoints `ToPoints` reads from the words of a path string. */
  lemma PointsOfWords(nf: Numerics, ts: seq<string>)
    requires AllWords(ts) && |ts| > 0 && ts[0] == "M"
    ensures ToPoints(nf, JoinWords(ts)) == Endpoints(nf, ts)
  {
    WordsOfJoin(ts, PathSeparators);
    var d := JoinWords(ts);
    if |ts| > 1 {
      assert d == "M" + " " + JoinWords(ts[1..]);
    }
    assert d[0] == 'M' && !IsBlank(d);
  }

  /** `ToPoints(Linear(pts))` gives the points back, each after a trip through "0.##". */
  lemma LinearReadsBack(nf: Numerics, pts: seq<Point>)
    requires FixedFormatsReadBack(nf) && |pts| >= 2
    ensures ToPoints(nf, LinearPath(nf, pts)) == Rereads(nf, pts)
  {
    var rest := LineWords(nf, pts[1..]);
    var ts := ["M"] + PairWords(nf, pts[0]) + rest;
    LineEndpoints(nf, pts[1..]);
    CommandIsWord("M");
    PairAreWords(nf, pts[0]);
    AllWordsAppend(["M"], PairWords(nf, pts[0]));
    AllWordsAppend(["M"] + PairWords(nf, pts[0]), rest);
    PointsOfWords(nf, ts);
    EndpointsOfCommand(nf, "M", PairWords(nf, pts[0]), rest);
  }

  /** Points in whole hundredths round-trip exactly through `Linear` and `ToPoints`. */
  lemma LinearRoundTrip(nf: Numerics, pts: seq<Point>)
    requires FixedFormatsReadBack(nf) && |pts| >= 2 && CentsPoints(pts)
    ensures ToPoints(nf, LinearPath(nf, pts)) == pts
  {
    LinearReadsBack(nf, pts);
    RereadsCents(nf, pts);
  }

  /** The closing ` L last` contributes the last point. */
  lemma LastEndpoint(nf: Numerics, p: Point)
    requires FixedFormatsReadBack(nf)
    ensures AllWords(["L"] + PairWords(nf, p))
    ensures Endpoints(nf, ["L"] + PairWords(nf, p)) == [RereadPoint(nf, p)]
  {
    CommandIsWord("L");
    PairAreWords(nf, p);
    AllWordsAppend(["L"], PairWords(nf, p));
    EndpointsOfCommand(nf, "L", PairWords(nf, p), []);
    assert ["L"] + PairWords(nf, p) + [] == ["L"] + PairWords(nf, p);
  }

  lemma {:induction false} CubicAreWords(nf: Numerics, pts: seq<Point>, i: nat)
    requires FixedFormatsReadBack(nf) && 1 <= i
    ensures AllWords(CubicWords(nf, pts, i))
    decreases |pts| - i
  {
    if i < |pts| - 2 {
      var c1 := Control1(pts[i - 1], pts[i], pts[i + 1]);
      var c2 := Control2(pts[i], pts[i + 1], pts[i + 2]);
      CubicAreWords(nf, pts, i + 1);
      PairAreWords(nf, c1);
      PairAreWords(nf, c2);
      AllWordsAppend(PairWords(nf, c1), PairWords(nf, c2));
      PieceEndpoint(nf, "C", PairWords(nf, c1) + PairWords(nf, c2), pts[i + 1], []);
      AllWordsAppend(["C"] + (PairWords(nf, c1) + PairWords(nf, c2)) + PairWords(nf, pts[i + 1]), CubicWords(nf, pts, i + 1));
    }
  }

  lemma {:induction false} CubicEndpoints(nf: Numerics, pts: seq<Point>, i: nat, rest: seq<string>)
    requires FixedFormatsReadBack(nf) && 1 <= i <= |pts| - 2
    ensures Endpoints(nf, CubicWords(nf, pts, i) + rest) == Rereads(nf, pts[i + 1..|pts| - 1]) + Endpoints(nf, rest)
    decreases |pts| - i
  {
    if i < |pts| - 2 {
      var j := i + 1;
      CubicEndpoints(nf, pts, j, rest);
      CubicStep(nf, pts, i, j, rest);
    } else {
      NoCubics(nf, pts, i, rest);
    }
  }

  /** One ` C` piece in front of the later ones. */
  lemma CubicStep(nf: Numerics, pts: seq<Point>, i: nat, j: nat, rest: seq<string>)
    requires FixedFormatsReadBack(nf) && 1 <= i < |pts| - 2 && j == i + 1
    requires Endpoints(nf, CubicWords(nf, pts, j) + rest) == Rereads(nf, pts[j + 1..|pts| - 1]) + Endpoints(nf, rest)
    ensures Endpoints(nf, CubicWords(nf, pts, i) + rest) == Rereads(nf, pts[i + 1..|pts| - 1]) + Endpoints(nf, rest)
  {
    var later := CubicWords(nf, pts, j);
    var c1 := Control1(pts[i - 1], pts[i], pts[j]);
    var c2 := Control2(pts[i], pts[j], pts[i + 2]);
    var front := PairWords(nf, c1) + PairWords(nf, c2);
    PairAreWords(nf, c1);
    PairAreWords(nf, c2);
    AllWordsAppend(PairWords(nf, c1), PairWords(nf, c2));
    var piece := ["C"] + front + PairWords(nf, pts[j]);
    PieceEndpoint(nf, "C", front, pts[j], later + rest);
    assert CubicWords(nf, pts, i) == piece + later;
    RereadsOfSlice(nf, pts, j, |pts| - 1);
    ChainEnds(nf, piece, later, rest, RereadPoint(nf, pts[j]), Rereads(nf, pts[j + 1..|pts| - 1]));
    assert CubicWords(nf, pts, i) + rest == piece + later + rest;
  }

  lemma NoCubics(nf: Numerics, pts: seq<Point>, i: nat, rest: seq<string>)
    requires i == |pts| - 2 >= 1
    ensures Endpoints(nf, CubicWords(nf, pts, i) + rest) == Rereads(nf, pts[i + 1..|pts| - 1]) + Endpoints(nf, rest)
  {
    assert CubicWords(nf, pts, i) + rest == rest;
    assert pts[i + 1..|pts| - 1] == [];
  }

  /** `CatmullRom` on four or more points ends its pieces at `pts[2] … pts[n - 2]`: its
      endpoints are the first point, those, and the last point; `pts[1]` is only used
      for control points. */
  lemma CatmullRomReadsBack(nf: Numerics, pts: seq<Point>)
    requires FixedFormatsReadBack(nf) && |pts| >= 4
    ensures ToPoints(nf, CatmullRomPath(nf, pts))
      == [RereadPoint(nf, pts[0])] + Rereads(nf, pts[2..|pts| - 1]) + [RereadPoint(nf, pts[|pts| - 1])]
  {
    var n := |pts|;
    var last := ["L"] + PairWords(nf, pts[n - 1]);
    var rest := CubicWords(nf, pts, 1) + last;
    var ts := ["M"] + PairWords(nf, pts[0]) + rest;
    CubicEndpoints(nf, pts, 1, last);
    CubicAreWords(nf, pts, 1);
    LastEndpoint(nf, pts[n - 1]);
    CommandIsWord("M");
    PairAreWords(nf, pts[0]);
    AllWordsAppend(CubicWords(nf, pts, 1), last);
    AllWordsAppend(["M"], PairWords(nf, pts[0]));
    AllWordsAppend(["M"] + PairWords(nf, pts[0]), rest);
    assert ts == ["M"] + PairWords(nf, pts[0]) + CubicWords(nf, pts, 1) + ["L"] + PairWords(nf, pts[n - 1]);
    PointsOfWords(nf, ts);
    EndpointsOfCommand(nf, "M", PairWords(nf, pts[0]), rest);
  }

  /** The endpoints of the ` Q` commands: midpoints of the points `step` before and
      `step` after each control point (the `min` with the last index never bites). */
  function QuadEnds(nf: Numerics, pts: seq<Point>, step: nat, i: nat): seq<Point>
    requires step > 0 && i >= step
    decreases |pts| - i
  {
    if i < |pts| - step then [RereadPoint(nf, Mid(pts[i - step], pts[i + step]))] + QuadEnds(nf, pts, step, i + step)
    else []
  }

  lemma {:induction false} QuadEndpoints(nf: Numerics, pts: seq<Point>, step: nat, i: nat, rest: seq<string>)
    requires FixedFormatsReadBack(nf) && step > 0 && i >= step
    ensures AllWords(QuadWords(nf, pts, step, i))
    ensures Endpoints(nf, QuadWords(nf, pts, step, i) + rest) == QuadEnds(nf, pts, step, i) + Endpoints(nf, rest)
    decreases |pts| - i
  {
    if i < |pts| - step {
      QuadEndpoints(nf, pts, step, i + step, rest);
      QuadEndpointsStep(nf, pts, step, i, rest);
    } else {
      assert QuadWords(nf, pts, step, i) + rest == rest;
    }
  }

  /** One ` Q` command in front of the later ones. */
  lemma QuadEndpointsStep(nf: Numerics, pts: seq<Point>, step: nat, i: nat, rest: seq<string>)
    requires FixedFormatsReadBack(nf) && step > 0 && i >= step && i < |pts| - step
    requires AllWords(QuadWords(nf, pts, step, i + step))
    requires Endpoints(nf, QuadWords(nf, pts, step, i + step) + rest) == QuadEnds(nf, pts, step, i + step) + Endpoints(nf, rest)
    ensures AllWords(QuadWords(nf, pts, step, i))
    ensures Endpoints(nf, QuadWords(nf, pts, step, i) + rest) == QuadEnds(nf, pts, step, i) + Endpoints(nf, rest)
  {
    var m := Mid(pts[i - step], pts[i + step]);
    var front := PairWords(nf, pts[i]);
    var later := QuadWords(nf, pts, step, i + step);
    var piece := ["Q"] + front + PairWords(nf, m);
    assert QuadWords(nf, pts, step, i) == piece + later by {
      assert MinInt(i + step, |pts| - 1) == i + step;
    }
    assert QuadEnds(nf, pts, step, i) == [RereadPoint(nf, m)] + QuadEnds(nf, pts, step, i + step);
    PairAreWords(nf, pts[i]);
    PieceEndpoint(nf, "Q", front, m, later + rest);
    AllWordsAppend(piece, later);
    Associate(piece, later, rest);
    AssociatePoints([RereadPoint(nf, m)], QuadEnds(nf, pts, step, i + step), Endpoints(nf, rest));
  }

  /** A moveto, some middle commands and a closing lineto read back as the first point,
      the middle endpoints and the last point. */
  lemma FramedReadsBack(nf: Numerics, first: Point, mids: seq<string>, last: Point, ends: seq<Point>)
    requires FixedFormatsReadBack(nf) && AllWords(mids)
    requires Endpoints(nf, mids + (["L"] + PairWords(nf, last))) == ends + [RereadPoint(nf, last)]
    ensures ToPoints(nf, JoinWords(["M"] + PairWords(nf, first) + mids + ["L"] + PairWords(nf, last)))
      == [RereadPoint(nf, first)] + ends + [RereadPoint(nf, last)]
  {
    var close := ["L"] + PairWords(nf, last);
    var rest := mids + close;
    var ts := ["M"] + PairWords(nf, first) + rest;
    LastEndpoint(nf, last);
    CommandIsWord("M");
    PairAreWords(nf, first);
    AllWordsAppend(mids, close);
    AllWordsAppend(["M"], PairWords(nf, first));
    AllWordsAppend(["M"] + PairWords(nf, first), rest);
    assert ts == ["M"] + PairWords(nf, first) + mids + ["L"] + PairWords(nf, last);
    PointsOfWords(nf, ts);
    EndpointsOfCommand(nf, "M", PairWords(nf, first), rest);
    AssociatePoints([RereadPoint(nf, first)], ends, [RereadPoint(nf, last)]);
  }

  /** `ToPoints(QuadraticBezier(pts, step))`: the first point, the midpoint ends of the
      ` Q` commands and the last point; below three points just the first and last. */
  lemma QuadraticBezierReadsBack(nf: Numerics, pts: seq<Point>, step: int)
    requires FixedFormatsReadBack(nf) && |pts| > 0 && step > 0
    ensures QuadraticBezierPath(nf, pts, step).Some?
    ensures ToPoints(nf, QuadraticBezierPath(nf, pts, step).value)
      == [RereadPoint(nf, pts[0])] + (if |pts| < 3 then [] else QuadEnds(nf, pts, step, step))
         + [RereadPoint(nf, pts[|pts| - 1])]
  {
    var n := |pts|;
    var last := pts[n - 1];
    var close := ["L"] + PairWords(nf, last);
    LastEndpoint(nf, last);
    if n < 3 {
      assert [] + close == close;
      FramedReadsBack(nf, pts[0], [], last, []);
      assert ["M"] + PairWords(nf, pts[0]) + [] == ["M"] + PairWords(nf, pts[0]);
    } else {
      var st: nat := step;
      QuadEndpoints(nf, pts, st, st, close);
      assert close + [] == close;
      EndpointsOfCommand(nf, "L", PairWords(nf, last), []);
      FramedReadsBack(nf, pts[0], QuadWords(nf, pts, st, st), last, QuadEnds(nf, pts, st, st));
    }
  }
}
