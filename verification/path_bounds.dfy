/** `Path.GetBounds`: the bounding box of a path string from its endpoints and control
    points (curve extrema are not computed, arcs contribute only their endpoint). */
module PathBounds {
  import opened Text
  import opened Core
  import opened PathScanner

  /** The x coordinates a segment contributes to the bounds. */
  function XsOf(s: Segment): seq<real> {
    match s
    case MoveTo(p) => [p.x]
    case LineTo(_, p) => [p.x]
    case HorizontalTo(_, p) => [p.x]
    case VerticalTo(_, _) => []
    case CubicTo(f, c1, c2, p) => [f.x, c1.x, c2.x, p.x]
    case QuadraticTo(f, c1, p) => [f.x, c1.x, p.x]
    case ArcTo(_, _, _, _, _, _, p) => [p.x]
    case ClosePath(_, p) => [p.x]
  }

  /** The y coordinates a segment contributes to the bounds. */
  function YsOf(s: Segment): seq<real> {
    match s
    case MoveTo(p) => [p.y]
    case LineTo(_, p) => [p.y]
    case HorizontalTo(_, _) => []
    case VerticalTo(_, p) => [p.y]
    case CubicTo(f, c1, c2, p) => [f.y, c1.y, c2.y, p.y]
    case QuadraticTo(f, c1, p) => [f.y, c1.y, p.y]
    case ArcTo(_, _, _, _, _, _, p) => [p.y]
    case ClosePath(_, p) => [p.y]
  }

  function AllXs(segs: seq<Segment>): seq<real> {
    if |segs| == 0 then [] else XsOf(segs[0]) + AllXs(segs[1..])
  }

  function AllYs(segs: seq<Segment>): seq<real> {
    if |segs| == 0 then [] else YsOf(segs[0]) + AllYs(segs[1..])
  }

  /** `GetBounds(d)` as `(x, y, w, h)`: the smallest box holding every coordinate the
      path's segments contribute, the empty box at the origin when there is none. */
  function GetBounds(nf: Numerics, d: string): (r: Rect)
    ensures var xs, ys := AllXs(Segments(nf, d)), AllYs(Segments(nf, d));
      && (|xs| == 0 ==> r == EmptyRect)
      && (Finite(xs) && |xs| > 0 ==>
            (forall i :: 0 <= i < |xs| ==> r.x <= xs[i] <= r.x + r.width)
            && (exists i :: 0 <= i < |xs| && xs[i] == r.x)
            && (exists i :: 0 <= i < |xs| && xs[i] == r.x + r.width))
      && (Finite(xs) && |xs| > 0 && Finite(ys) && |ys| > 0 ==>
            (forall i :: 0 <= i < |ys| ==> r.y <= ys[i] <= r.y + r.height)
            && (exists i :: 0 <= i < |ys| && ys[i] == r.y)
            && (exists i :: 0 <= i < |ys| && ys[i] == r.y + r.height))
  {
    var segs := Segments(nf, d);
    BoundsOf(AllXs(segs), AllYs(segs))
  }

  // ---------------------------------------------------------------------------
  // Every point of every segment lies in the box
  // ---------------------------------------------------------------------------

  /** All the points that define a segment: start, control points and end. */
  function Hull(s: Segment): seq<Point> {
    match s
    case MoveTo(p) => [p]
    case LineTo(f, p) => [f, p]
    case HorizontalTo(f, p) => [f, p]
    case VerticalTo(f, p) => [f, p]
    case CubicTo(f, c1, c2, p) => [f, c1, c2, p]
    case QuadraticTo(f, c1, p) => [f, c1, p]
    case ArcTo(f, _, _, _, _, _, p) => [f, p]
    case ClosePath(f, p) => [f, p]
  }

  predicate AllIn(vs: seq<real>, lo: real, hi: real) {
    forall i :: 0 <= i < |vs| ==> lo <= vs[i] <= hi
  }

  /** Every contributed coordinate lies in `r`. */
  predicate ContribIn(segs: seq<Segment>, r: Rect) {
    AllIn(AllXs(segs), r.x, r.x + r.width) && AllIn(AllYs(segs), r.y, r.y + r.height)
  }

  predicate HullIn(segs: seq<Segment>, r: Rect) {
    forall k, j :: 0 <= k < |segs| && 0 <= j < |Hull(segs[k])| ==> InRect(Hull(segs[k])[j], r)
  }

  lemma {:induction false} AllOfAppend(a: seq<Segment>, b: seq<Segment>)
    ensures AllXs(a + b) == AllXs(a) + AllXs(b)
    ensures AllYs(a + b) == AllYs(a) + AllYs(b)
  {
    if |a| == 0 {
      assert a + b == b;
    } else {
      assert (a + b)[1..] == a[1..] + b;
      AllOfAppend(a[1..], b);
    }
  }

  lemma AllInSplit(a: seq<real>, b: seq<real>, lo: real, hi: real)
    requires AllIn(a + b, lo, hi)
    ensures AllIn(a, lo, hi) && AllIn(b, lo, hi)
  {
    forall i | 0 <= i < |b| ensures lo <= b[i] <= hi {
      assert b[i] == (a + b)[|a| + i];
    }
    forall i | 0 <= i < |a| ensures lo <= a[i] <= hi {
      assert a[i] == (a + b)[i];
    }
  }

  lemma ContribSplit(a: seq<Segment>, b: seq<Segment>, r: Rect)
    requires ContribIn(a + b, r)
    ensures ContribIn(a, r) && ContribIn(b, r)
  {
    AllOfAppend(a, b);
    AllInSplit(AllXs(a), AllXs(b), r.x, r.x + r.width);
    AllInSplit(AllYs(a), AllYs(b), r.y, r.y + r.height);
  }

  lemma HullJoin(a: seq<Segment>, b: seq<Segment>, r: Rect)
    requires HullIn(a, r) && HullIn(b, r)
    ensures HullIn(a + b, r)
  {
    forall k, j | 0 <= k < |a + b| && 0 <= j < |Hull((a + b)[k])|
      ensures InRect(Hull((a + b)[k])[j], r)
    {
      if k < |a| {
        assert (a + b)[k] == a[k];
      } else {
        assert (a + b)[k] == b[k - |a|];
      }
    }
  }

  lemma SingleContrib(s: Segment, r: Rect)
    requires ContribIn([s], r)
    ensures AllIn(XsOf(s), r.x, r.x + r.width) && AllIn(YsOf(s), r.y, r.y + r.height)
  {
    assert [s][1..] == [];
    assert AllXs([s]) == XsOf(s) + [] == XsOf(s);
    assert AllYs([s]) == YsOf(s) + [] == YsOf(s);
  }

  /** One drawing step keeps the pen in the box and draws inside it. */
  lemma DrawInBox(u: char, rel: bool, smooth: bool, g: seq<real>, pen: Pen, r: Rect)
    requires Arity(u) > 0 && |g| == Arity(u)
    requires InRect(pen.cur, r) && InRect(pen.start, r)
    requires ContribIn([Draw(u, rel, smooth, g, pen).seg], r)
    ensures HullIn([Draw(u, rel, smooth, g, pen).seg], r)
    ensures InRect(Draw(u, rel, smooth, g, pen).pen.cur, r)
    ensures InRect(Draw(u, rel, smooth, g, pen).pen.start, r)
  {
    var st := Draw(u, rel, smooth, g, pen);
    SingleContrib(st.seg, r);
    var xs, ys := XsOf(st.seg), YsOf(st.seg);
    match st.seg
    case MoveTo(p) =>
      assert xs[0] == p.x && ys[0] == p.y;
    case LineTo(_, p) =>
      assert xs[0] == p.x && ys[0] == p.y;
    case HorizontalTo(_, p) =>
      assert xs[0] == p.x;
    case VerticalTo(_, p) =>
      assert ys[0] == p.y;
    case CubicTo(f, c1, c2, p) =>
      assert xs[1] == c1.x && xs[2] == c2.x && xs[3] == p.x;
      assert ys[1] == c1.y && ys[2] == c2.y && ys[3] == p.y;
    case QuadraticTo(f, c1, p) =>
      assert xs[1] == c1.x && xs[2] == p.x;
      assert ys[1] == c1.y && ys[2] == p.y;
    case ArcTo(_, _, _, _, _, _, p) =>
      assert xs[0] == p.x && ys[0] == p.y;
    case ClosePath(_, _) =>
      assert false;
  }

  lemma {:induction false} GroupsInBox(u: char, rel: bool, smooth: bool, args: seq<real>, pen: Pen, r: Rect)
    requires InRect(pen.cur, r) && InRect(pen.start, r)
    requires ContribIn(Groups(u, rel, smooth, args, pen).segs, r)
    ensures HullIn(Groups(u, rel, smooth, args, pen).segs, r)
    ensures InRect(Groups(u, rel, smooth, args, pen).pen.cur, r)
    ensures InRect(Groups(u, rel, smooth, args, pen).pen.start, r)
    decreases |args|
  {
    var k := Arity(u);
    if k > 0 && |args| >= k {
      var st := Draw(u, rel, smooth, args[..k], pen);
      var tail := Groups(u, rel, smooth, args[k..], st.pen);
      ContribSplit([st.seg], tail.segs, r);
      DrawInBox(u, rel, smooth, args[..k], pen, r);
      GroupsInBox(u, rel, smooth, args[k..], st.pen, r);
      HullJoin([st.seg], tail.segs, r);
    }
  }

  lemma RunInBox(c: Command, pen: Pen, r: Rect)
    requires InRect(pen.cur, r) && InRect(pen.start, r)
    requires ContribIn(Run(c, pen).segs, r)
    ensures HullIn(Run(c, pen).segs, r)
    ensures InRect(Run(c, pen).pen.cur, r) && InRect(Run(c, pen).pen.start, r)
  {
    var u := ToUpper(c.letter);
    if u != 'Z' {
      GroupsInBox(u, IsLower(c.letter), Smooth(u, pen.prev), c.args, pen, r);
    }
  }

  lemma {:induction false} TraceInBox(cmds: seq<Command>, pen: Pen, r: Rect)
    requires InRect(pen.cur, r) && InRect(pen.start, r)
    requires ContribIn(Trace(cmds, pen), r)
    ensures HullIn(Trace(cmds, pen), r)
    decreases |cmds|
  {
    if |cmds| > 0 {
      var t := Run(cmds[0], pen);
      ContribSplit(t.segs, Trace(cmds[1..], t.pen), r);
      RunInBox(cmds[0], pen, r);
      TraceInBox(cmds[1..], t.pen, r);
      HullJoin(t.segs, Trace(cmds[1..], t.pen), r);
    }
  }

  /** The path opens with a moveto that has at least one coordinate pair. */
  predicate OpensWithMoveTo(cmds: seq<Command>) {
    |cmds| > 0 && ToUpper(cmds[0].letter) == 'M' && |cmds[0].args| >= 2
  }

  /** A trace that opens with a moveto draws inside any box holding its contributions. */
  lemma TraceOpensInBox(cmds: seq<Command>, r: Rect)
    requires OpensWithMoveTo(cmds)
    requires ContribIn(Trace(cmds, Fresh), r)
    ensures HullIn(Trace(cmds, Fresh), r)
  {
    var c := cmds[0];
    var rel := IsLower(c.letter);
    var first := Draw('M', rel, false, c.args[..2], Fresh);
    var rest := Groups('M', rel, false, c.args[2..], first.pen);
    var t := Run(c, Fresh);
    var later := Trace(cmds[1..], t.pen);
    assert t.segs == [first.seg] + rest.segs;
    assert Trace(cmds, Fresh) == [first.seg] + (rest.segs + later);
    ContribSplit([first.seg], rest.segs + later, r);
    ContribSplit(rest.segs, later, r);
    SingleContrib(first.seg, r);
    assert XsOf(first.seg)[0] == first.seg.to.x && YsOf(first.seg)[0] == first.seg.to.y;
    GroupsInBox('M', rel, false, c.args[2..], first.pen, r);
    TraceInBox(cmds[1..], t.pen, r);
    assert HullIn([first.seg], r) by {
      assert Hull(first.seg) == [first.seg.to];
    }
    HullJoin(rest.segs, later, r);
    HullJoin([first.seg], rest.segs + later, r);
  }

  /** For a path that opens with a moveto, every endpoint and control point of every
      segment (not only the contributed coordinates) lies inside `GetBounds`: the box
      also holds the start of horizontal and vertical lines and closepath targets. */
  lemma BoundsHoldEverySegment(nf: Numerics, d: string)
    requires OpensWithMoveTo(Tokens(nf, d, false))
    requires Finite(AllXs(Segments(nf, d))) && Finite(AllYs(Segments(nf, d)))
    ensures HullIn(Segments(nf, d), GetBounds(nf, d))
  {
    var cmds := Tokens(nf, d, false);
    var segs := Segments(nf, d);
    var r := GetBounds(nf, d);
    OpeningContributes(cmds);
    assert ContribIn(segs, r);
    TraceOpensInBox(cmds, r);
  }

  /** The opening moveto contributes one x and one y. */
  lemma OpeningContributes(cmds: seq<Command>)
    requires OpensWithMoveTo(cmds)
    ensures |AllXs(Trace(cmds, Fresh))| > 0 && |AllYs(Trace(cmds, Fresh))| > 0
  {
    var c := cmds[0];
    var rel := IsLower(c.letter);
    var first := Draw('M', rel, false, c.args[..2], Fresh);
    var rest := Groups('M', rel, false, c.args[2..], first.pen);
    var t := Run(c, Fresh);
    assert t.segs == [first.seg] + rest.segs;
    var segs := Trace(cmds, Fresh);
    assert segs == [first.seg] + (rest.segs + Trace(cmds[1..], t.pen));
    assert segs[0] == first.seg;
  }

  /** Once a moveto has been seen the width and height are never negative. */
  lemma BoundsNonNegative(nf: Numerics, d: string)
    requires OpensWithMoveTo(Tokens(nf, d, false))
    requires Finite(AllXs(Segments(nf, d))) && Finite(AllYs(Segments(nf, d)))
    ensures GetBounds(nf, d).width >= 0.0 && GetBounds(nf, d).height >= 0.0
  {
    OpeningContributes(Tokens(nf, d, false));
    BoundsOfNonNegative(AllXs(Segments(nf, d)), AllYs(Segments(nf, d)));
  }
}
