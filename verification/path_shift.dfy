/** What `MovePathBy` does to the drawing: with the moveto flag cleared by any moveto,
    moving the text moves every drawn segment by the offset. */
module PathShift {
  import opened Text
  import opened Core
  import opened PathScanner
  import opened PathMove
  import opened PathBounds

  /** A segment moved by an offset: every point moves, arc radii, rotation and flags stay. */
  function ShiftSegment(s: Segment, off: Point): Segment {
    match s
    case MoveTo(to) => MoveTo(Shift(to, off))
    case LineTo(a, b) => LineTo(Shift(a, off), Shift(b, off))
    case HorizontalTo(a, b) => HorizontalTo(Shift(a, off), Shift(b, off))
    case VerticalTo(a, b) => VerticalTo(Shift(a, off), Shift(b, off))
    case CubicTo(a, c1, c2, b) => CubicTo(Shift(a, off), Shift(c1, off), Shift(c2, off), Shift(b, off))
    case QuadraticTo(a, c1, b) => QuadraticTo(Shift(a, off), Shift(c1, off), Shift(b, off))
    case ArcTo(a, rx, ry, angle, large, sweep, b) => ArcTo(Shift(a, off), rx, ry, angle, large, sweep, Shift(b, off))
    case ClosePath(a, b) => ClosePath(Shift(a, off), Shift(b, off))
  }

  function ShiftAll(segs: seq<Segment>, off: Point): (r: seq<Segment>)
    ensures |r| == |segs|
    ensures forall i :: 0 <= i < |segs| ==> r[i] == ShiftSegment(segs[i], off)
  {
    seq(|segs|, i requires 0 <= i < |segs| => ShiftSegment(segs[i], off))
  }

  lemma ShiftAllAppend(a: seq<Segment>, b: seq<Segment>, off: Point)
    ensures ShiftAll(a + b, off) == ShiftAll(a, off) + ShiftAll(b, off)
  {
    assert forall i :: 0 <= i < |b| ==> (a + b)[|a| + i] == b[i];
  }

  function Negate(off: Point): Point { Point(-off.x, -off.y) }

  /** Moving back by the negated offset undoes a move. */
  lemma ShiftSegmentUndone(s: Segment, off: Point)
    ensures ShiftSegment(ShiftSegment(s, off), Negate(off)) == s
  {
  }

  /** The curve commands, after which the control point matters. */
  predicate Curve(u: char) { u == 'C' || u == 'S' || u == 'Q' || u == 'T' }

  /** Pen `q` is pen `p` moved by `off`; the control point too when `ctrlToo`. */
  predicate Follows(p: Pen, q: Pen, off: Point, ctrlToo: bool) {
    && q.cur == Shift(p.cur, off) && q.start == Shift(p.start, off) && q.prev == p.prev
    && (ctrlToo ==> q.ctrl == Shift(p.ctrl, off))
  }

  /** Every curve command has at least one complete group, so a curve letter as the
      previous command always comes with the control point it drew. */
  predicate CurvesComplete(cmds: seq<Command>) {
    forall k :: 0 <= k < |cmds| && Curve(ToUpper(cmds[k].letter)) ==> |cmds[k].args| >= Arity(ToUpper(cmds[k].letter))
  }

  /** A group written moved (absolute) or verbatim (relative) draws the moved segment. */
  lemma DrawShift(u: char, rel: bool, smooth: bool, g: seq<real>, p: Pen, q: Pen, off: Point, ctrlToo: bool)
    requires Arity(u) > 0 && |g| == Arity(u)
    requires Follows(p, q, off, ctrlToo) && (smooth ==> ctrlToo)
    ensures var a := Draw(u, rel, smooth, g, p);
      var b := Draw(u, rel, smooth, if rel then g else ShiftGroup(u, g, off), q);
      b.seg == ShiftSegment(a.seg, off) && Follows(a.pen, b.pen, off, ctrlToo || Curve(u))
  {
    if Curve(u) {
      DrawShiftCurve(u, rel, smooth, g, p, q, off, ctrlToo);
    } else {
      DrawShiftStraight(u, rel, smooth, g, p, q, off, ctrlToo);
    }
  }

  /** DrawShift for the curve letters. */
  lemma DrawShiftCurve(u: char, rel: bool, smooth: bool, g: seq<real>, p: Pen, q: Pen, off: Point, ctrlToo: bool)
    requires Curve(u) && |g| == Arity(u)
    requires Follows(p, q, off, ctrlToo) && (smooth ==> ctrlToo)
    ensures var a := Draw(u, rel, smooth, g, p);
      var b := Draw(u, rel, smooth, if rel then g else ShiftGroup(u, g, off), q);
      b.seg == ShiftSegment(a.seg, off) && Follows(a.pen, b.pen, off, true)
  {
  }

  /** DrawShift for the letters that draw no curve. */
  lemma DrawShiftStraight(u: char, rel: bool, smooth: bool, g: seq<real>, p: Pen, q: Pen, off: Point, ctrlToo: bool)
    requires !Curve(u) && Arity(u) > 0 && |g| == Arity(u)
    requires Follows(p, q, off, ctrlToo)
    ensures var a := Draw(u, rel, smooth, g, p);
      var b := Draw(u, rel, smooth, if rel then g else ShiftGroup(u, g, off), q);
      b.seg == ShiftSegment(a.seg, off) && Follows(a.pen, b.pen, off, ctrlToo)
  {
  }

  /** The groups after the first moveto pair: absolute ones moved, relative ones kept,
      draw the moved segments. */
  lemma {:induction false} GroupsShift(u: char, rel: bool, smooth: bool, args: seq<real>, p: Pen, q: Pen,
                                       off: Point, ctrlToo: bool, fix: bool)
    requires Follows(p, q, off, ctrlToo) && (smooth ==> ctrlToo)
    ensures var a := Groups(u, rel, smooth, args, p);
      var b := Groups(u, rel, smooth, Flatten(MoveGroups(u, rel, args, false, fix, off).groups), q);
      b.segs == ShiftAll(a.segs, off) && Follows(a.pen, b.pen, off, ctrlToo || (Curve(u) && |args| >= Arity(u)))
    decreases |args|
  {
    var k := Arity(u);
    if k == 0 || |args| < k {
      GroupsShiftNone(u, rel, smooth, args, p, q, off, ctrlToo, fix);
    } else {
      var g := args[..k];
      var g' := if rel then g else ShiftGroup(u, g, off);
      DrawShift(u, rel, smooth, g, p, q, off, ctrlToo);
      GroupsShift(u, rel, smooth, args[k..], Draw(u, rel, smooth, g, p).pen, Draw(u, rel, smooth, g', q).pen,
                  off, ctrlToo || Curve(u), fix);
      GroupsShiftStep(u, rel, smooth, args, p, q, off, ctrlToo, fix);
    }
  }

  /** Too few numbers for a group: nothing is drawn on either side. */
  lemma GroupsShiftNone(u: char, rel: bool, smooth: bool, args: seq<real>, p: Pen, q: Pen,
                        off: Point, ctrlToo: bool, fix: bool)
    requires Follows(p, q, off, ctrlToo) && (Arity(u) == 0 || |args| < Arity(u))
    ensures var a := Groups(u, rel, smooth, args, p);
      var b := Groups(u, rel, smooth, Flatten(MoveGroups(u, rel, args, false, fix, off).groups), q);
      b.segs == ShiftAll(a.segs, off) && Follows(a.pen, b.pen, off, ctrlToo || (Curve(u) && |args| >= Arity(u)))
  {
    var m := MoveGroups(u, rel, args, false, fix, off);
    assert m.groups == [] && Flatten(m.groups) == [];
    assert Curve(u) ==> Arity(u) > 0;
    assert Groups(u, rel, smooth, args, p) == Traced(p, []);
    assert Groups(u, rel, smooth, [], q) == Traced(q, []);
  }

  /** One complete group in front of the later ones. */
  lemma GroupsShiftStep(u: char, rel: bool, smooth: bool, args: seq<real>, p: Pen, q: Pen,
                        off: Point, ctrlToo: bool, fix: bool)
    requires Arity(u) > 0 && |args| >= Arity(u)
    requires Follows(p, q, off, ctrlToo) && (smooth ==> ctrlToo)
    requires var k := Arity(u);
      var g := args[..k];
      var g' := if rel then g else ShiftGroup(u, g, off);
      var sa, sb := Draw(u, rel, smooth, g, p), Draw(u, rel, smooth, g', q);
      var a := Groups(u, rel, smooth, args[k..], sa.pen);
      var b := Groups(u, rel, smooth, Flatten(MoveGroups(u, rel, args[k..], false, fix, off).groups), sb.pen);
      && sb.seg == ShiftSegment(sa.seg, off)
      && b.segs == ShiftAll(a.segs, off) && Follows(a.pen, b.pen, off, ctrlToo || Curve(u))
    ensures var a := Groups(u, rel, smooth, args, p);
      var b := Groups(u, rel, smooth, Flatten(MoveGroups(u, rel, args, false, fix, off).groups), q);
      b.segs == ShiftAll(a.segs, off) && Follows(a.pen, b.pen, off, ctrlToo || (Curve(u) && |args| >= Arity(u)))
  {
    var k := Arity(u);
    var g := args[..k];
    var g' := if rel then g else ShiftGroup(u, g, off);
    var tail := Flatten(MoveGroups(u, rel, args[k..], false, fix, off).groups);
    FlattenMovedCons(u, rel, args, fix, off);
    assert args == g + args[k..];
    GroupsOfPrefix(u, rel, smooth, g, args[k..], p);
    GroupsOfPrefix(u, rel, smooth, g', tail, q);
    var sa, sb := Draw(u, rel, smooth, g, p), Draw(u, rel, smooth, g', q);
    ConsShift(sa.seg, sb.seg, Groups(u, rel, smooth, args[k..], sa.pen).segs, Groups(u, rel, smooth, tail, sb.pen).segs, off);
  }

  /** A moved segment in front of moved segments. */
  lemma ConsShift(x: Segment, y: Segment, xs: seq<Segment>, ys: seq<Segment>, off: Point)
    requires y == ShiftSegment(x, off) && ys == ShiftAll(xs, off)
    ensures [y] + ys == ShiftAll([x] + xs, off)
  {
    ShiftAllAppend([x], xs, off);
    assert ShiftAll([x], off) == [y];
  }

  /** The moved numbers of a complete group in front of the rest. */
  lemma FlattenMovedCons(u: char, rel: bool, args: seq<real>, fix: bool, off: Point)
    requires Arity(u) > 0 && |args| >= Arity(u)
    ensures var k := Arity(u);
      var g := args[..k];
      Flatten(MoveGroups(u, rel, args, false, fix, off).groups)
        == (if rel then g else ShiftGroup(u, g, off)) + Flatten(MoveGroups(u, rel, args[k..], false, fix, off).groups)
  {
    var k := Arity(u);
    var g := args[..k];
    var g' := if rel then g else ShiftGroup(u, g, off);
    var tail := MoveGroups(u, rel, args[k..], false, fix, off);
    assert MoveGroups(u, rel, args, false, fix, off).groups == [g'] + tail.groups;
    assert ([g'] + tail.groups)[1..] == tail.groups;
  }

  /** The groups of numbers that start with one complete group. */
  lemma GroupsOfPrefix(u: char, rel: bool, smooth: bool, g: seq<real>, rest: seq<real>, pen: Pen)
    requires Arity(u) > 0 && |g| == Arity(u)
    ensures var st := Draw(u, rel, smooth, g, pen);
      var tail := Groups(u, rel, smooth, rest, st.pen);
      Groups(u, rel, smooth, g + rest, pen) == Traced(tail.pen, [st.seg] + tail.segs)
  {
    var k := Arity(u);
    assert (g + rest)[..k] == g && (g + rest)[k..] == rest;
  }

  /** One command with its argument groups moved, as the rewrite writes it. */
  function MovedCommand(c: Command, first: bool, fix: bool, off: Point): Command {
    Command(c.letter, Flatten(MoveGroups(ToUpper(c.letter), IsLower(c.letter), c.args, first, fix, off).groups), c.more)
  }

  /** The rewrite of a command list is its first command moved in front of the rest. */
  lemma RewriteCons(cmds: seq<Command>, first: bool, fix: bool, off: Point)
    requires |cmds| > 0
    ensures var c := cmds[0];
      var m := MoveGroups(ToUpper(c.letter), IsLower(c.letter), c.args, first, fix, off);
      AsCommands(Rewrite(cmds, first, fix, off)) == [MovedCommand(c, first, fix, off)] + AsCommands(Rewrite(cmds[1..], m.first, fix, off))
  {
  }

  /** The commands after the first keep their curves complete. */
  lemma CurvesCompleteTail(cmds: seq<Command>)
    requires |cmds| > 0 && CurvesComplete(cmds)
    ensures CurvesComplete(cmds[1..])
    ensures Curve(ToUpper(cmds[0].letter)) ==> |cmds[0].args| >= Arity(ToUpper(cmds[0].letter))
  {
    assert forall k :: 0 <= k < |cmds| - 1 ==> cmds[1..][k] == cmds[k + 1];
  }

  /** After the opening moveto, one command's rewrite draws its segments moved and leaves
      the pen moved. */
  lemma RunShift(c: Command, p: Pen, q: Pen, off: Point, fix: bool)
    requires Follows(p, q, off, Curve(ToUpper(p.prev)))
    requires Curve(ToUpper(c.letter)) ==> |c.args| >= Arity(ToUpper(c.letter))
    ensures var a, b := Run(c, p), Run(MovedCommand(c, false, fix, off), q);
      b.segs == ShiftAll(a.segs, off) && Follows(a.pen, b.pen, off, Curve(ToUpper(a.pen.prev)))
  {
    var u := ToUpper(c.letter);
    if u != 'Z' {
      GroupsShift(u, IsLower(c.letter), Smooth(u, p.prev), c.args, p, q, off, Curve(ToUpper(p.prev)), fix);
    } else {
      assert ShiftAll([ClosePath(p.cur, p.start)], off) == [ClosePath(q.cur, q.start)];
    }
  }

  /** A moved first command in front of a moved rest draws the whole trace moved. */
  lemma TraceShiftStep(cmds: seq<Command>, p: Pen, q: Pen, off: Point, first: bool, fix: bool)
    requires |cmds| > 0
    requires var c := cmds[0]; !MoveGroups(ToUpper(c.letter), IsLower(c.letter), c.args, first, fix, off).first
    requires var a, b := Run(cmds[0], p), Run(MovedCommand(cmds[0], first, fix, off), q);
      && b.segs == ShiftAll(a.segs, off)
      && Trace(AsCommands(Rewrite(cmds[1..], false, fix, off)), b.pen) == ShiftAll(Trace(cmds[1..], a.pen), off)
    ensures Trace(AsCommands(Rewrite(cmds, first, fix, off)), q) == ShiftAll(Trace(cmds, p), off)
  {
    RewriteCons(cmds, first, fix, off);
    var c' := MovedCommand(cmds[0], first, fix, off);
    var rest := AsCommands(Rewrite(cmds[1..], false, fix, off));
    assert ([c'] + rest)[0] == c' && ([c'] + rest)[1..] == rest;
    var a := Run(cmds[0], p);
    ShiftAllAppend(a.segs, Trace(cmds[1..], a.pen), off);
  }

  /** After the opening moveto, every command's rewrite draws its segments moved. */
  lemma {:induction false} TraceShift(cmds: seq<Command>, p: Pen, q: Pen, off: Point, fix: bool)
    requires Follows(p, q, off, Curve(ToUpper(p.prev))) && CurvesComplete(cmds)
    ensures Trace(AsCommands(Rewrite(cmds, false, fix, off)), q) == ShiftAll(Trace(cmds, p), off)
    decreases |cmds|
  {
    if |cmds| > 0 {
      var c := cmds[0];
      CurvesCompleteTail(cmds);
      RunShift(c, p, q, off, fix);
      TraceShift(cmds[1..], Run(c, p).pen, Run(MovedCommand(c, false, fix, off), q).pen, off, fix);
      TraceShiftStep(cmds, p, q, off, false, fix);
    }
  }

  /** The opening moveto with the flag set and cleared by any moveto: its pair and every
      later pair are moved, and the flag is off afterwards. */
  lemma FirstMoveShift(c: Command, off: Point)
    requires ToUpper(c.letter) == 'M' && |c.args| >= 2
    ensures !MoveGroups('M', IsLower(c.letter), c.args, true, true, off).first
    ensures var a, b := Run(c, Fresh), Run(MovedCommand(c, true, true, off), Fresh);
      b.segs == ShiftAll(a.segs, off) && Follows(a.pen, b.pen, off, Curve(ToUpper(a.pen.prev)))
  {
    var rel := IsLower(c.letter);
    var g := c.args[..2];
    var g' := ShiftGroup('M', g, off);
    var tail := MoveGroups('M', rel, c.args[2..], false, true, off);
    var m := MoveGroups('M', rel, c.args, true, true, off);
    assert m == Moved([g'] + tail.groups, tail.first);
    var moved := g' + Flatten(tail.groups);
    assert ([g'] + tail.groups)[1..] == tail.groups;
    assert Flatten(m.groups) == moved;
    assert c.args == g + c.args[2..];
    GroupsOfPrefix('M', rel, false, g, c.args[2..], Fresh);
    GroupsOfPrefix('M', rel, false, g', Flatten(tail.groups), Fresh);
    var sa := Draw('M', rel, false, g, Fresh);
    var sb := Draw('M', rel, false, g', Fresh);
    assert Follows(sa.pen, sb.pen, off, false);
    GroupsShift('M', rel, false, c.args[2..], sa.pen, sb.pen, off, false, true);
    ConsShift(sa.seg, sb.seg, Groups('M', rel, false, c.args[2..], sa.pen).segs,
              Groups('M', rel, false, Flatten(tail.groups), sb.pen).segs, off);
  }

  /** With the moveto flag cleared by any moveto, the rewritten commands draw exactly the
      original drawing moved by the offset. */
  lemma MoveFixedShiftsTrace(cmds: seq<Command>, off: Point)
    requires OpensWithMoveTo(cmds) && CurvesComplete(cmds)
    ensures Trace(AsCommands(Rewrite(cmds, true, true, off)), Fresh) == ShiftAll(Trace(cmds, Fresh), off)
  {
    var c := cmds[0];
    FirstMoveShift(c, off);
    CurvesCompleteTail(cmds);
    TraceShift(cmds[1..], Run(c, Fresh).pen, Run(MovedCommand(c, true, true, off), Fresh).pen, off, true);
    TraceShiftStep(cmds, Fresh, Fresh, off, true, true);
  }

  /** Drawing uses only the letters and arguments of the commands. */
  lemma {:induction false} TraceOfBodies(a: seq<Command>, b: seq<Command>, pen: Pen)
    requires SameBodies(a, b)
    ensures Trace(a, pen) == Trace(b, pen)
    decreases |a|
  {
    if |a| > 0 {
      assert a[0].letter == b[0].letter && a[0].args == b[0].args;
      assert Run(a[0], pen) == Run(b[0], pen);
      assert SameBodies(a[1..], b[1..]) by {
        assert forall k :: 0 <= k < |a| - 1 ==> a[1..][k] == a[k + 1] && b[1..][k] == b[k + 1];
      }
      TraceOfBodies(a[1..], b[1..], Run(a[0], pen).pen);
    }
  }

  /** Moving a path whose numbers all print exactly, with the moveto flag cleared by any
      moveto, draws the original path moved by the offset. */
  lemma MovePathByFixedMovesDrawing(nf: Numerics, d: string, off: Point)
    requires FixedFormatsReadBack(nf) && !IsBlank(d)
    requires var cmds := Tokens(nf, d, true);
      OpensWithMoveTo(cmds) && CurvesComplete(cmds) && ExactInput(cmds, off)
    ensures Segments(nf, MovePathByFixed(nf, d, off)) == ShiftAll(Trace(Tokens(nf, d, true), Fresh), off)
  {
    var cmds := Tokens(nf, d, true);
    var rs := Rewrite(cmds, true, true, off);
    MovePathByReadsBack(nf, d, off, true);
    RewriteExact(cmds, true, true, off);
    ReadBackExact(nf, rs);
    TraceOfBodies(Tokens(nf, MovePathByFixed(nf, d, off), false), AsCommands(rs), Fresh);
    MoveFixedShiftsTrace(cmds, off);
  }

  /** `MovePathBy` re-emits every command letter, in order and with its case. */
  lemma MovePathByKeepsLetters(nf: Numerics, d: string, off: Point, fix: bool)
    requires FixedFormatsReadBack(nf) && !IsBlank(d)
    ensures var before, after := Tokens(nf, d, true), Tokens(nf, MovePathByWith(nf, d, off, fix), false);
      |after| == |before| && forall k :: 0 <= k < |before| ==> after[k].letter == before[k].letter
  {
    var cmds := Tokens(nf, d, true);
    var rs := Rewrite(cmds, true, fix, off);
    MovePathByReadsBack(nf, d, off, fix);
    ReadBackLetters(nf, rs);
  }

  lemma {:induction false} ReadBackLetters(nf: Numerics, rs: seq<Rewritten>)
    ensures forall k :: 0 <= k < |rs| ==> ReadBack(nf, rs)[k].letter == rs[k].letter
    decreases |rs|
  {
    if |rs| > 0 {
      ReadBackLetters(nf, rs[1..]);
      assert forall k :: 1 <= k < |rs| ==> ReadBack(nf, rs)[k] == ReadBack(nf, rs[1..])[k - 1] && rs[1..][k - 1] == rs[k];
    }
  }

  /** An absolute moveto followed by a relative one draws two movetos. */
  lemma TraceOfTwoMoves(x0: real, y0: real, x1: real, y1: real)
    ensures Trace([Command('M', [x0, y0], true), Command('m', [x1, y1], false)], Fresh)
      == [MoveTo(Point(x0, y0)), MoveTo(Point(x0 + x1, y0 + y1))]
  {
    var cmds := [Command('M', [x0, y0], true), Command('m', [x1, y1], false)];
    assert [x0, y0][..2] == [x0, y0] && [x0, y0][2..] == [];
    assert [x1, y1][..2] == [x1, y1] && [x1, y1][2..] == [];
    assert ToUpper('M') == 'M' && ToUpper('m') == 'M' && !IsLower('M') && IsLower('m');
    var d0 := Draw('M', false, false, [x0, y0], Fresh);
    var g0 := Groups('M', false, false, [x0, y0], Fresh);
    assert Groups('M', false, false, [], d0.pen) == Traced(d0.pen, []);
    assert g0 == Traced(d0.pen, [MoveTo(Point(x0, y0))]);
    var s0 := Run(cmds[0], Fresh);
    assert s0.segs == [MoveTo(Point(x0, y0))] && s0.pen.cur == Point(x0, y0);
    var d1 := Draw('M', true, false, [x1, y1], s0.pen);
    assert Groups('M', true, false, [], d1.pen) == Traced(d1.pen, []);
    var s1 := Run(cmds[1], s0.pen);
    assert s1.segs == [MoveTo(Point(x0 + x1, y0 + y1))];
    assert cmds[1..] == [cmds[1]];
    assert Trace(cmds[1..], s0.pen) == s1.segs + Trace([], s1.pen);
  }

  /** As written, the relative moveto after an absolute one is still taken for the first. */
  lemma RewriteOfTwoMoves()
    ensures Rewrite([Command('M', [0.0, 0.0], true), Command('m', [5.0, 5.0], false)], true, false, Point(1.0, 1.0))
      == [Rewritten('M', [[1.0, 1.0]], true), Rewritten('m', [[6.0, 6.0]], false)]
  {
    var off := Point(1.0, 1.0);
    assert ShiftGroup('M', [0.0, 0.0], off) == [1.0, 1.0];
    assert ShiftGroup('M', [5.0, 5.0], off) == [6.0, 6.0];
    assert [0.0, 0.0][..2] == [0.0, 0.0] && [0.0, 0.0][2..] == [];
    assert [5.0, 5.0][..2] == [5.0, 5.0] && [5.0, 5.0][2..] == [];
    assert MoveGroups('M', false, [0.0, 0.0], true, false, off) == Moved([[1.0, 1.0]], true);
    assert MoveGroups('M', true, [5.0, 5.0], true, false, off) == Moved([[6.0, 6.0]], false);
  }

  /** As written, an absolute moveto does not clear the first-relative-moveto flag, so a
      relative moveto after it is moved a second time: `M 0 0 m 5 5` moved by (1, 1)
      starts its second subpath at (7, 7) instead of (6, 6). */
  lemma AsWrittenMovesRelativeMoveToTwice()
    ensures var cmds := [Command('M', [0.0, 0.0], true), Command('m', [5.0, 5.0], false)];
      var off := Point(1.0, 1.0);
      && Trace(AsCommands(Rewrite(cmds, true, false, off)), Fresh) == [MoveTo(Point(1.0, 1.0)), MoveTo(Point(7.0, 7.0))]
      && ShiftAll(Trace(cmds, Fresh), off) == [MoveTo(Point(1.0, 1.0)), MoveTo(Point(6.0, 6.0))]
  {
    var r1 := Rewritten('m', [[6.0, 6.0]], false);
    RewriteOfTwoMoves();
    assert [[1.0, 1.0]][1..] == [] && [[6.0, 6.0]][1..] == [];
    assert Flatten([[1.0, 1.0]]) == [1.0, 1.0] + Flatten([]);
    assert Flatten([[6.0, 6.0]]) == [6.0, 6.0] + Flatten([]);
    var one, both := [r1], [Rewritten('M', [[1.0, 1.0]], true), r1];
    assert one[0] == r1 && one[1..] == [] && AsCommands(one[1..]) == [];
    assert AsCommands(one) == [Command(r1.letter, Flatten(r1.groups), r1.more)] + AsCommands(one[1..]);
    assert Flatten(r1.groups) == [6.0, 6.0];
    assert AsCommands(one) == [Command('m', [6.0, 6.0], false)];
    assert both[0].groups == [[1.0, 1.0]] && both[1..] == one;
    assert AsCommands(both) == [Command(both[0].letter, Flatten(both[0].groups), both[0].more)] + AsCommands(both[1..]);
    assert Flatten(both[0].groups) == [1.0, 1.0];
    assert AsCommands(both) == [Command('M', [1.0, 1.0], true)] + AsCommands(one);
    assert AsCommands([Rewritten('M', [[1.0, 1.0]], true), r1])
      == [Command('M', [1.0, 1.0], true), Command('m', [6.0, 6.0], false)];
    TraceOfTwoMoves(1.0, 1.0, 6.0, 6.0);
    TraceOfTwoMoves(0.0, 0.0, 5.0, 5.0);
  }
}
