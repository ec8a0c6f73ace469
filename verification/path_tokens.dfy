/** The space-separated token walkers of Path.cs: `GetPathNodesWithType`, `GetPoints`,
    `EstimatedLength` and `OffsetPathD`. They only understand the exact command tokens
    "M", "L", "Q" and "C" followed by their arguments as separate tokens. */
module PathTokens {
  import opened Text
  import opened Core
  import opened PathData

  const Spaces: set<char> := {' '}

  /** Parses every token, or reports that one of them does not parse. */
  function ParseAll(nf: Numerics, toks: seq<string>): (r: Option<seq<real>>)
    ensures r.Some? ==> |r.value| == |toks|
    ensures r.Some? <==> forall i :: 0 <= i < |toks| ==> nf.parse(toks[i]).Some?
    ensures r.Some? ==> forall i :: 0 <= i < |toks| ==> nf.parse(toks[i]) == Some(r.value[i])
  {
    if |toks| == 0 then Some([])
    else
      match (nf.parse(toks[0]), ParseAll(nf, toks[1..]))
      case (Some(v), Some(vs)) => Some([v] + vs)
      case _ => None
  }

  /** A path node and whether it is a curve control point. */
  datatype Node = Node(at: Point, isControl: bool)

  /** The nodes of one command whose `k` arguments are `vs`: control points first, the
      endpoint last. */
  function CommandNodes(k: nat, vs: seq<real>): (ns: seq<Node>)
    requires k in {2, 4, 6} && |vs| == k
    ensures |ns| == k / 2
    ensures !ns[|ns| - 1].isControl && ns[|ns| - 1].at == Point(vs[k - 2], vs[k - 1])
    ensures forall j :: 0 <= j < |ns| - 1 ==> ns[j].isControl && ns[j].at == Point(vs[2 * j], vs[2 * j + 1])
  {
    if k == 2 then [Node(Point(vs[0], vs[1]), false)]
    else if k == 4 then [Node(Point(vs[0], vs[1]), true), Node(Point(vs[2], vs[3]), false)]
    else [Node(Point(vs[0], vs[1]), true), Node(Point(vs[2], vs[3]), true), Node(Point(vs[4], vs[5]), false)]
  }

  /** A command is accepted when all of its arguments are present and parse. */
  predicate Accepted(nf: Numerics, toks: seq<string>) {
    |toks| > 0 && ArgCount(toks[0]) > 0 && ArgCount(toks[0]) < |toks|
    && ParseAll(nf, toks[1..ArgCount(toks[0]) + 1]).Some?
  }

  function Arguments(nf: Numerics, toks: seq<string>): (vs: seq<real>)
    requires Accepted(nf, toks)
    ensures |vs| == ArgCount(toks[0])
  {
    ParseAll(nf, toks[1..ArgCount(toks[0]) + 1]).value
  }

  function NodeWalk(nf: Numerics, toks: seq<string>): seq<Node>
    decreases |toks|
  {
    if |toks| == 0 then []
    else if Accepted(nf, toks) then
      var k := ArgCount(toks[0]);
      CommandNodes(k, Arguments(nf, toks)) + NodeWalk(nf, toks[k + 1..])
    else NodeWalk(nf, toks[1..])
  }

  /** `GetPathNodesWithType(path)`. */
  function GetPathNodesWithType(nf: Numerics, d: string): seq<Node> {
    NodeWalk(nf, Words(d, Spaces))
  }

  function PointWalk(nf: Numerics, toks: seq<string>): seq<Point>
    decreases |toks|
  {
    if |toks| == 0 then []
    else if Accepted(nf, toks) then
      var k := ArgCount(toks[0]);
      var vs := Arguments(nf, toks);
      var pts := if k == 2 then [Point(vs[0], vs[1])]
        else if k == 4 then [Point(vs[0], vs[1]), Point(vs[2], vs[3])]
        else [Point(vs[0], vs[1]), Point(vs[2], vs[3]), Point(vs[4], vs[5])];
      pts + PointWalk(nf, toks[k + 1..])
    else PointWalk(nf, toks[1..])
  }

  /** `GetPoints(path)`. */
  function GetPoints(nf: Numerics, d: string): seq<Point> {
    PointWalk(nf, Words(d, Spaces))
  }

  function Positions(ns: seq<Node>): (ps: seq<Point>)
    ensures |ps| == |ns| && forall i :: 0 <= i < |ns| ==> ps[i] == ns[i].at
  {
    if |ns| == 0 then [] else [ns[0].at] + Positions(ns[1..])
  }

  lemma PositionsAppend(a: seq<Node>, b: seq<Node>)
    ensures Positions(a + b) == Positions(a) + Positions(b)
  {
  }

  /** `GetPoints` lists exactly the positions of the nodes `GetPathNodesWithType` finds,
      in the same order. */
  lemma {:induction false} PointsAreNodePositions(nf: Numerics, toks: seq<string>)
    ensures PointWalk(nf, toks) == Positions(NodeWalk(nf, toks))
    decreases |toks|
  {
    if |toks| > 0 {
      if Accepted(nf, toks) {
        var k := ArgCount(toks[0]);
        PointsAreNodePositions(nf, toks[k + 1..]);
        PositionsAppend(CommandNodes(k, Arguments(nf, toks)), NodeWalk(nf, toks[k + 1..]));
      } else {
        PointsAreNodePositions(nf, toks[1..]);
      }
    }
  }

  lemma GetPointsAreNodePositions(nf: Numerics, d: string)
    ensures GetPoints(nf, d) == Positions(GetPathNodesWithType(nf, d))
  {
    PointsAreNodePositions(nf, Words(d, Spaces));
  }

  // ---------------------------------------------------------------------------
  // EstimatedLength
  // ---------------------------------------------------------------------------

  /** The endpoint test of `EstimatedLength` (and of `ToPoints`): only the last two
      arguments are parsed. */
  predicate HasEndpoint(nf: Numerics, toks: seq<string>) {
    |toks| > 0 && 0 < ArgCount(toks[0]) < |toks|
    && nf.parse(toks[ArgCount(toks[0]) - 1]).Some? && nf.parse(toks[ArgCount(toks[0])]).Some?
  }

  function LengthWalk(nf: Numerics, toks: seq<string>, last: Option<Point>): real
    decreases |toks|
  {
    if |toks| == 0 then 0.0
    else if HasEndpoint(nf, toks) then
      var k := ArgCount(toks[0]);
      var p := Point(nf.parse(toks[k - 1]).value, nf.parse(toks[k]).value);
      var step := match last case Some(q) => nf.sqrt(DistSq(p, q)) case None => 0.0;
      step + LengthWalk(nf, toks[k + 1..], Some(p))
    else LengthWalk(nf, toks[1..], last)
  }

  /** `EstimatedLength(d)`. */
  function EstimatedLength(nf: Numerics, d: string): real {
    LengthWalk(nf, Words(d, Spaces), None)
  }

  /** Length of the polyline through `pts`. */
  function PolylineLength(nf: Numerics, pts: seq<Point>): real {
    if |pts| < 2 then 0.0 else nf.sqrt(DistSq(pts[1], pts[0])) + PolylineLength(nf, pts[1..])
  }

  lemma {:induction false} LengthWalkIsPolyline(nf: Numerics, toks: seq<string>, last: Option<Point>)
    ensures LengthWalk(nf, toks, last) == PolylineLength(nf, (if last.Some? then [last.value] else []) + Endpoints(nf, toks))
    decreases |toks|
  {
    var pre := if last.Some? then [last.value] else [];
    if |toks| == 0 {
      assert pre + Endpoints(nf, toks) == pre;
    } else if HasEndpoint(nf, toks) {
      var k := ArgCount(toks[0]);
      var p := Point(nf.parse(toks[k - 1]).value, nf.parse(toks[k]).value);
      LengthWalkIsPolyline(nf, toks[k + 1..], Some(p));
      var rest := Endpoints(nf, toks[k + 1..]);
      assert Endpoints(nf, toks) == [p] + rest;
      if last.Some? {
        assert (pre + ([p] + rest))[1..] == [p] + rest;
      } else {
        assert pre + ([p] + rest) == [p] + rest;
      }
    } else {
      LengthWalkIsPolyline(nf, toks[1..], last);
    }
  }

  /** The estimated length is the length of the polyline through the endpoints that
      `ToPoints`'s rule extracts from the space-separated tokens. */
  lemma EstimatedLengthIsPolyline(nf: Numerics, d: string)
    ensures EstimatedLength(nf, d) == PolylineLength(nf, Endpoints(nf, Words(d, Spaces)))
  {
    LengthWalkIsPolyline(nf, Words(d, Spaces), None);
    assert [] + Endpoints(nf, Words(d, Spaces)) == Endpoints(nf, Words(d, Spaces));
  }

  lemma {:induction false} PolylineLengthNonNegative(nf: Numerics, pts: seq<Point>)
    requires SqrtIsRoot(nf)
    ensures PolylineLength(nf, pts) >= 0.0
    decreases |pts|
  {
    if |pts| >= 2 {
      PolylineLengthNonNegative(nf, pts[1..]);
      assert nf.sqrt(DistSq(pts[1], pts[0])) >= 0.0;
    }
  }

  lemma EstimatedLengthNonNegative(nf: Numerics, d: string)
    requires SqrtIsRoot(nf)
    ensures EstimatedLength(nf, d) >= 0.0
  {
    EstimatedLengthIsPolyline(nf, d);
    PolylineLengthNonNegative(nf, Endpoints(nf, Words(d, Spaces)));
  }

  // ---------------------------------------------------------------------------
  // OffsetPathD
  // ---------------------------------------------------------------------------

  /** Adds the x offset to even positions and the y offset to odd ones. */
  function Shifted(vs: seq<real>, off: Point): (ws: seq<real>)
    ensures |ws| == |vs|
    ensures forall i :: 0 <= i < |vs| ==> ws[i] == vs[i] + (if i % 2 == 0 then off.x else off.y)
  {
    seq(|vs|, i requires 0 <= i < |vs| => vs[i] + (if i % 2 == 0 then off.x else off.y))
  }

  function Texts(nf: Numerics, vs: seq<real>): (ts: seq<string>)
    ensures |ts| == |vs| && forall i :: 0 <= i < |vs| ==> ts[i] == nf.text(vs[i])
  {
    if |vs| == 0 then [] else [nf.text(vs[0])] + Texts(nf, vs[1..])
  }

  /** The output tokens: an accepted command is rewritten with shifted arguments in the
      default number format, a command token without valid arguments is dropped, and
      every other token is copied. */
  function OffsetWalk(nf: Numerics, toks: seq<string>, off: Point): seq<string>
    decreases |toks|
  {
    if |toks| == 0 then []
    else if Accepted(nf, toks) then
      var k := ArgCount(toks[0]);
      [toks[0]] + Texts(nf, Shifted(Arguments(nf, toks), off)) + OffsetWalk(nf, toks[k + 1..], off)
    else if ArgCount(toks[0]) > 0 then OffsetWalk(nf, toks[1..], off)
    else [toks[0]] + OffsetWalk(nf, toks[1..], off)
  }

  /** `OffsetPathD(d, offset)`. */
  function OffsetPathD(nf: Numerics, d: string, off: Point): string {
    Trim(SpaceAfterEach(OffsetWalk(nf, Words(d, Spaces), off)))
  }

  function ShiftNodes(ns: seq<Node>, off: Point): (ms: seq<Node>)
    ensures |ms| == |ns|
    ensures forall i :: 0 <= i < |ns| ==>
      ms[i] == Node(Point(ns[i].at.x + off.x, ns[i].at.y + off.y), ns[i].isControl)
  {
    seq(|ns|, i requires 0 <= i < |ns| => Node(Point(ns[i].at.x + off.x, ns[i].at.y + off.y), ns[i].isControl))
  }

  lemma ShiftNodesAppend(a: seq<Node>, b: seq<Node>, off: Point)
    ensures ShiftNodes(a + b, off) == ShiftNodes(a, off) + ShiftNodes(b, off)
  {
  }

  lemma TextsReadBack(nf: Numerics, vs: seq<real>)
    requires TextReadsBack(nf)
    ensures forall i :: 0 <= i < |vs| ==> nf.parse(Texts(nf, vs)[i]) == Some(vs[i])
  {
    forall i | 0 <= i < |vs| ensures nf.parse(Texts(nf, vs)[i]) == Some(vs[i]) {
      var v := vs[i];
      assert Texts(nf, vs)[i] == nf.text(v);
      assert nf.parse(nf.text(v)) == Some(v);
    }
  }

  lemma ParseTexts(nf: Numerics, vs: seq<real>)
    requires TextReadsBack(nf)
    ensures ParseAll(nf, Texts(nf, vs)) == Some(vs)
  {
    var ts := Texts(nf, vs);
    TextsReadBack(nf, vs);
    var r := ParseAll(nf, ts);
    assert r.Some?;
    forall i | 0 <= i < |vs| ensures r.value[i] == vs[i] {
      assert nf.parse(ts[i]) == Some(r.value[i]);
    }
    assert r.value == vs;
  }

  /** A rewritten command is read back as the same command with shifted arguments. */
  lemma RewrittenAccepted(nf: Numerics, cmd: string, vs: seq<real>, rest: seq<string>)
    requires TextReadsBack(nf)
    requires ArgCount(cmd) > 0 && |vs| == ArgCount(cmd)
    ensures Accepted(nf, [cmd] + Texts(nf, vs) + rest)
    ensures Arguments(nf, [cmd] + Texts(nf, vs) + rest) == vs
    ensures ([cmd] + Texts(nf, vs) + rest)[ArgCount(cmd) + 1..] == rest
  {
    var toks := [cmd] + Texts(nf, vs) + rest;
    var k := ArgCount(cmd);
    assert toks[1..k + 1] == Texts(nf, vs);
    ParseTexts(nf, vs);
  }

  lemma ShiftedTwice(vs: seq<real>, a: Point, b: Point)
    ensures Shifted(Shifted(vs, a), b) == Shifted(vs, Point(a.x + b.x, a.y + b.y))
  {
  }

  /** Offsetting twice is offsetting once by the sum, token for token. */
  lemma {:induction false} OffsetWalkTwice(nf: Numerics, toks: seq<string>, a: Point, b: Point)
    requires TextReadsBack(nf)
    ensures OffsetWalk(nf, OffsetWalk(nf, toks, a), b) == OffsetWalk(nf, toks, Point(a.x + b.x, a.y + b.y))
    decreases |toks|
  {
    var ab := Point(a.x + b.x, a.y + b.y);
    if |toks| > 0 {
      if Accepted(nf, toks) {
        var k := ArgCount(toks[0]);
        var vs := Shifted(Arguments(nf, toks), a);
        var rest := OffsetWalk(nf, toks[k + 1..], a);
        RewrittenAccepted(nf, toks[0], vs, rest);
        OffsetWalkTwice(nf, toks[k + 1..], a, b);
        ShiftedTwice(Arguments(nf, toks), a, b);
      } else if ArgCount(toks[0]) > 0 {
        OffsetWalkTwice(nf, toks[1..], a, b);
      } else {
        var rest := OffsetWalk(nf, toks[1..], a);
        assert ([toks[0]] + rest)[1..] == rest;
        assert !Accepted(nf, [toks[0]] + rest);
        OffsetWalkTwice(nf, toks[1..], a, b);
      }
    }
  }

  lemma CommandNodesShifted(k: nat, vs: seq<real>, off: Point)
    requires k in {2, 4, 6} && |vs| == k
    ensures CommandNodes(k, Shifted(vs, off)) == ShiftNodes(CommandNodes(k, vs), off)
  {
  }

  /** The nodes of an offset token list are the original nodes, moved. */
  lemma {:induction false} OffsetWalkMovesNodes(nf: Numerics, toks: seq<string>, off: Point)
    requires TextReadsBack(nf)
    ensures NodeWalk(nf, OffsetWalk(nf, toks, off)) == ShiftNodes(NodeWalk(nf, toks), off)
    decreases |toks|
  {
    if |toks| > 0 {
      if Accepted(nf, toks) {
        var k := ArgCount(toks[0]);
        var vs := Arguments(nf, toks);
        var rest := OffsetWalk(nf, toks[k + 1..], off);
        RewrittenAccepted(nf, toks[0], Shifted(vs, off), rest);
        OffsetWalkMovesNodes(nf, toks[k + 1..], off);
        CommandNodesShifted(k, vs, off);
        ShiftNodesAppend(CommandNodes(k, vs), NodeWalk(nf, toks[k + 1..]), off);
      } else if ArgCount(toks[0]) > 0 {
        OffsetWalkMovesNodes(nf, toks[1..], off);
      } else {
        var rest := OffsetWalk(nf, toks[1..], off);
        assert ([toks[0]] + rest)[1..] == rest;
        assert !Accepted(nf, [toks[0]] + rest);
        OffsetWalkMovesNodes(nf, toks[1..], off);
      }
    }
  }

  /** Every output token is non-empty and free of whitespace when the input's are. */
  lemma {:induction false} OffsetWalkTokens(nf: Numerics, toks: seq<string>, off: Point)
    requires TextReadsBack(nf)
    requires forall k :: 0 <= k < |toks| ==> |toks[k]| > 0 && NoWhiteSpace(toks[k])
    ensures forall k :: 0 <= k < |OffsetWalk(nf, toks, off)| ==>
      |OffsetWalk(nf, toks, off)[k]| > 0 && NoWhiteSpace(OffsetWalk(nf, toks, off)[k])
    decreases |toks|
  {
    if |toks| > 0 {
      if Accepted(nf, toks) {
        var k := ArgCount(toks[0]);
        OffsetWalkTokens(nf, toks[k + 1..], off);
        var ts := Texts(nf, Shifted(Arguments(nf, toks), off));
        forall j | 0 <= j < |ts| ensures |ts[j]| > 0 && NoWhiteSpace(ts[j]) {
          assert IsToken(ts[j]);
        }
      } else {
        OffsetWalkTokens(nf, toks[1..], off);
      }
    }
  }

  /** Reading an `OffsetPathD` result gives back exactly the rewritten token list. */
  lemma WordsOfOffsetPathD(nf: Numerics, d: string, off: Point)
    requires TextReadsBack(nf) && OnlySpaces(d)
    ensures Words(OffsetPathD(nf, d, off), Spaces) == OffsetWalk(nf, Words(d, Spaces), off)
  {
    var toks := Words(d, Spaces);
    WordsHaveNoWhiteSpace(d);
    OffsetWalkTokens(nf, toks, off);
    var out := OffsetWalk(nf, toks, off);
    WordsOfSpaceAfterEach(out);
    WordsOfTrim(SpaceAfterEach(out), Spaces);
  }

  /** Offsetting a path twice is offsetting it once by the sum of the offsets. */
  lemma OffsetPathDTwice(nf: Numerics, d: string, a: Point, b: Point)
    requires TextReadsBack(nf) && OnlySpaces(d)
    ensures OffsetPathD(nf, OffsetPathD(nf, d, a), b) == OffsetPathD(nf, d, Point(a.x + b.x, a.y + b.y))
  {
    WordsOfOffsetPathD(nf, d, a);
    OffsetWalkTwice(nf, Words(d, Spaces), a, b);
  }

  /** Offsetting a path moves every node it has by the offset and keeps its kind. */
  lemma OffsetPathDMovesNodes(nf: Numerics, d: string, off: Point)
    requires TextReadsBack(nf) && OnlySpaces(d)
    ensures GetPathNodesWithType(nf, OffsetPathD(nf, d, off)) == ShiftNodes(GetPathNodesWithType(nf, d), off)
  {
    WordsOfOffsetPathD(nf, d, off);
    OffsetWalkMovesNodes(nf, Words(d, Spaces), off);
  }
}
