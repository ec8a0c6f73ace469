/** The character scanner and pen state shared by `MovePathBy`, `GetBounds` and
    `IsNearPoint` (Path.cs). A path string is read as a sequence of commands, each a
    letter with the numbers that follow it; the pen then turns every complete group of
    arguments into one drawn segment in absolute coordinates, following the SVG 1.1
    pen rules of each command (section 8.3). The number runs are the program's own,
    not the SVG number grammar. */
module PathScanner {
  import opened Text
  import opened Core

  // ---------------------------------------------------------------------------
  // Tokenizer
  // ---------------------------------------------------------------------------

  /** A command letter, its successfully parsed numbers, and whether any text was left
      after the numbers (the "more input follows" test `i < d.Length`). */
  datatype Command = Command(letter: char, args: seq<real>, more: bool)

  /** A character that starts a number run. */
  predicate NumberStart(c: char) { IsDigit(c) || c == '-' || c == '.' }

  /** A character that continues a number run; only `MovePathBy` accepts exponents. */
  predicate NumberChar(c: char, exponent: bool) {
    NumberStart(c) || (exponent && (c == 'e' || c == 'E'))
  }

  predicate IsSeparator(c: char) { IsWhiteSpace(c) || c == ',' }

  /** Drops the whitespace and commas in front of a number. */
  function SkipSeparators(s: string): (t: string)
    ensures |t| <= |s| && t == s[|s| - |t|..]
    ensures |t| > 0 ==> !IsSeparator(t[0])
  {
    if |s| > 0 && IsSeparator(s[0]) then SkipSeparators(s[1..]) else s
  }

  /** Length of the number run at the front of `s`. */
  function RunLength(s: string, exponent: bool): (n: nat)
    ensures n <= |s|
    ensures forall i :: 0 <= i < n ==> NumberChar(s[i], exponent)
    ensures n < |s| ==> !NumberChar(s[n], exponent)
  {
    if |s| == 0 || !NumberChar(s[0], exponent) then 0 else 1 + RunLength(s[1..], exponent)
  }

  datatype Scan = Scan(args: seq<real>, rest: string)

  /** The numbers after a command letter: runs that fail to parse are dropped, and the
      scan stops at the first character that neither separates nor starts a number. */
  function Numbers(nf: Numerics, s: string, exponent: bool): (r: Scan)
    ensures |r.rest| <= |s|
    decreases |s|
  {
    var t := SkipSeparators(s);
    if |t| > 0 && NumberStart(t[0]) then
      var n := RunLength(t, exponent);
      var tail := Numbers(nf, t[n..], exponent);
      match nf.parse(t[..n])
      case Some(v) => Scan([v] + tail.args, tail.rest)
      case None => tail
    else Scan([], t)
  }

  /** The commands of a path string, in order; characters that are neither whitespace
      nor letters are skipped where a command is expected. */
  function Tokens(nf: Numerics, s: string, exponent: bool): (cmds: seq<Command>)
    ensures forall k :: 0 <= k < |cmds| ==> IsLetter(cmds[k].letter)
    decreases |s|
  {
    var t := TrimStart(s);
    if |t| == 0 then []
    else if !IsLetter(t[0]) then Tokens(nf, t[1..], exponent)
    else
      var sc := Numbers(nf, t[1..], exponent);
      [Command(t[0], sc.args, |sc.rest| > 0)] + Tokens(nf, sc.rest, exponent)
  }

  // ---------------------------------------------------------------------------
  // Pen
  // ---------------------------------------------------------------------------

  /** Current point, start of the current subpath, last control point and the letter
      of the previous command (initially 'M'). */
  datatype Pen = Pen(cur: Point, start: Point, ctrl: Point, prev: char)

  const Fresh := Pen(Origin, Origin, Origin, 'M')

  /** One drawn piece of the path, in absolute coordinates. */
  datatype Segment =
    | MoveTo(to: Point)
    | LineTo(from: Point, to: Point)
    | HorizontalTo(from: Point, to: Point)
    | VerticalTo(from: Point, to: Point)
    | CubicTo(from: Point, c1: Point, c2: Point, to: Point)
    | QuadraticTo(from: Point, c1: Point, to: Point)
    | ArcTo(from: Point, rx: real, ry: real, angle: real, largeArc: bool, sweep: bool, to: Point)
    | ClosePath(from: Point, to: Point)

  /** Number of arguments one repetition of a command consumes; 0 for closepath and
      for letters that are not path commands. */
  function Arity(u: char): nat {
    match u
    case 'M' => 2
    case 'L' => 2
    case 'T' => 2
    case 'H' => 1
    case 'V' => 1
    case 'C' => 6
    case 'S' => 4
    case 'Q' => 4
    case 'A' => 7
    case _ => 0
  }

  /** Relative coordinates are offsets from the current point. */
  function Place(pen: Pen, rel: bool, x: real, y: real): Point {
    if rel then Point(pen.cur.x + x, pen.cur.y + y) else Point(x, y)
  }

  /** The previous control point mirrored about the current point. */
  function Reflection(pen: Pen): Point {
    Point(2.0 * pen.cur.x - pen.ctrl.x, 2.0 * pen.cur.y - pen.ctrl.y)
  }

  /** Smooth curves reflect the last control point only right after a curve of the
      same family; otherwise their first control point is the current point. */
  predicate Smooth(u: char, prev: char) {
    (u == 'S' && (ToUpper(prev) == 'C' || ToUpper(prev) == 'S'))
    || (u == 'T' && (ToUpper(prev) == 'Q' || ToUpper(prev) == 'T'))
  }

  datatype Step = Step(pen: Pen, seg: Segment)

  /** One repetition of command `u` on the argument group `g`. */
  function Draw(u: char, rel: bool, smooth: bool, g: seq<real>, pen: Pen): (st: Step)
    requires Arity(u) > 0 && |g| == Arity(u)
    ensures !st.seg.MoveTo? ==> st.seg.from == pen.cur
    ensures st.pen.cur == st.seg.to
    ensures st.pen.start == (if u == 'M' then st.seg.to else pen.start)
    ensures st.pen.prev == pen.prev
  {
    match u
    case 'M' =>
      var p := Place(pen, rel, g[0], g[1]);
      Step(pen.(cur := p, start := p), MoveTo(p))
    case 'L' =>
      var p := Place(pen, rel, g[0], g[1]);
      Step(pen.(cur := p), LineTo(pen.cur, p))
    case 'H' =>
      var p := Point(if rel then pen.cur.x + g[0] else g[0], pen.cur.y);
      Step(pen.(cur := p), HorizontalTo(pen.cur, p))
    case 'V' =>
      var p := Point(pen.cur.x, if rel then pen.cur.y + g[0] else g[0]);
      Step(pen.(cur := p), VerticalTo(pen.cur, p))
    case 'C' =>
      var c1, c2, p := Place(pen, rel, g[0], g[1]), Place(pen, rel, g[2], g[3]), Place(pen, rel, g[4], g[5]);
      Step(pen.(cur := p, ctrl := c2), CubicTo(pen.cur, c1, c2, p))
    case 'S' =>
      var c1 := if smooth then Reflection(pen) else pen.cur;
      var c2, p := Place(pen, rel, g[0], g[1]), Place(pen, rel, g[2], g[3]);
      Step(pen.(cur := p, ctrl := c2), CubicTo(pen.cur, c1, c2, p))
    case 'Q' =>
      var c1, p := Place(pen, rel, g[0], g[1]), Place(pen, rel, g[2], g[3]);
      Step(pen.(cur := p, ctrl := c1), QuadraticTo(pen.cur, c1, p))
    case 'T' =>
      var c1 := if smooth then Reflection(pen) else pen.cur;
      var p := Place(pen, rel, g[0], g[1]);
      Step(pen.(cur := p, ctrl := c1), QuadraticTo(pen.cur, c1, p))
    case 'A' =>
      var p := Place(pen, rel, g[5], g[6]);
      Step(pen.(cur := p), ArcTo(pen.cur, g[0], g[1], g[2], g[3] != 0.0, g[4] != 0.0, p))
  }

  datatype Traced = Traced(pen: Pen, segs: seq<Segment>)

  /** Every complete argument group of one command, in order; a trailing incomplete
      group is ignored. */
  function Groups(u: char, rel: bool, smooth: bool, args: seq<real>, pen: Pen): (t: Traced)
    ensures Arity(u) == 0 ==> t == Traced(pen, [])
    ensures t.pen.prev == pen.prev
    decreases |args|
  {
    var k := Arity(u);
    if k == 0 || |args| < k then Traced(pen, [])
    else
      var st := Draw(u, rel, smooth, args[..k], pen);
      var tail := Groups(u, rel, smooth, args[k..], st.pen);
      Traced(tail.pen, [st.seg] + tail.segs)
  }

  /** One command: closepath returns to the subpath start; every command records its
      letter as the previous command, whether or not it drew anything. */
  function Run(c: Command, pen: Pen): (t: Traced)
    ensures t.pen.prev == c.letter
  {
    var u := ToUpper(c.letter);
    if u == 'Z' then
      Traced(pen.(cur := pen.start, prev := c.letter), [ClosePath(pen.cur, pen.start)])
    else
      var g := Groups(u, IsLower(c.letter), Smooth(u, pen.prev), c.args, pen);
      Traced(g.pen.(prev := c.letter), g.segs)
  }

  function Trace(cmds: seq<Command>, pen: Pen): seq<Segment>
    decreases |cmds|
  {
    if |cmds| == 0 then []
    else
      var t := Run(cmds[0], pen);
      t.segs + Trace(cmds[1..], t.pen)
  }

  /** The segments `GetBounds` and `IsNearPoint` see in a path string. */
  function Segments(nf: Numerics, d: string): seq<Segment> {
    Trace(Tokens(nf, d, false), Fresh)
  }

  // ---------------------------------------------------------------------------
  // Structure of a trace
  // ---------------------------------------------------------------------------

  /** Where the pen is after drawing `segs` from `cur`. */
  function EndPoint(cur: Point, segs: seq<Segment>): Point {
    if |segs| == 0 then cur else segs[|segs| - 1].to
  }

  /** Every segment but a moveto starts where the previous one ended: the drawn
      segments form one connected chain from `cur`. */
  predicate Chained(cur: Point, segs: seq<Segment>) {
    forall k :: 0 <= k < |segs| && !segs[k].MoveTo? ==> segs[k].from == EndPoint(cur, segs[..k])
  }

  lemma ChainedAppend(cur: Point, a: seq<Segment>, b: seq<Segment>)
    requires Chained(cur, a) && Chained(EndPoint(cur, a), b)
    ensures Chained(cur, a + b)
    ensures EndPoint(cur, a + b) == EndPoint(EndPoint(cur, a), b)
  {
    forall k | 0 <= k < |a + b| && !(a + b)[k].MoveTo?
      ensures (a + b)[k].from == EndPoint(cur, (a + b)[..k])
    {
      if k < |a| {
        assert (a + b)[..k] == a[..k];
      } else {
        assert (a + b)[..k] == a + b[..k - |a|];
        assert b[k - |a|] == (a + b)[k];
      }
    }
  }

  lemma {:induction false} GroupsChained(u: char, rel: bool, smooth: bool, args: seq<real>, pen: Pen)
    ensures Chained(pen.cur, Groups(u, rel, smooth, args, pen).segs)
    ensures EndPoint(pen.cur, Groups(u, rel, smooth, args, pen).segs) == Groups(u, rel, smooth, args, pen).pen.cur
    decreases |args|
  {
    var k := Arity(u);
    if k > 0 && |args| >= k {
      var st := Draw(u, rel, smooth, args[..k], pen);
      GroupsChained(u, rel, smooth, args[k..], st.pen);
      ChainedAppend(pen.cur, [st.seg], Groups(u, rel, smooth, args[k..], st.pen).segs);
    }
  }

  lemma {:induction false} TraceChained(cmds: seq<Command>, pen: Pen)
    ensures Chained(pen.cur, Trace(cmds, pen))
    decreases |cmds|
  {
    if |cmds| > 0 {
      var t := Run(cmds[0], pen);
      var u := ToUpper(cmds[0].letter);
      if u != 'Z' {
        GroupsChained(u, IsLower(cmds[0].letter), Smooth(u, pen.prev), cmds[0].args, pen);
      }
      assert Chained(pen.cur, t.segs) && EndPoint(pen.cur, t.segs) == t.pen.cur;
      TraceChained(cmds[1..], t.pen);
      ChainedAppend(pen.cur, t.segs, Trace(cmds[1..], t.pen));
    }
  }

  /** The segments of a path string form one chain that starts at the origin. */
  lemma SegmentsChained(nf: Numerics, d: string)
    ensures Chained(Origin, Segments(nf, d))
  {
    TraceChained(Tokens(nf, d, false), Fresh);
  }
}
