/** `SvgFileService`: writing the diagram as an SVG document and reading one back into
    the editor. The XML library is not modelled: a document is a tree of elements,
    comments and text, with element names taken as local names. */
module SvgFile {
  import opened Text
  import opened Core
  import opened PathItems
  import EditorState
  import LocationCache
  import PathBounds

  datatype Attr = Attr(name: string, value: string)

  datatype Node =
    | Comment(text: string)
    | TextNode(content: string)
    | Element(name: string, attrs: seq<Attr>, children: seq<Node>)

  /** `el.Attribute(name)?.Value`: the first attribute with the name. */
  function Lookup(attrs: seq<Attr>, name: string): Option<string>
  {
    if |attrs| == 0 then None
    else if attrs[0].name == name then Some(attrs[0].value)
    else Lookup(attrs[1..], name)
  }

  /** A lookup finds a value exactly when some attribute has the name, and the value
      found is that of such an attribute. */
  lemma {:induction false} LookupMeaning(attrs: seq<Attr>, name: string)
    ensures var v := Lookup(attrs, name);
      && (v.Some? <==> exists i :: 0 <= i < |attrs| && attrs[i].name == name)
      && (v.Some? ==> exists i :: 0 <= i < |attrs| && attrs[i] == Attr(name, v.value))
  {
    if |attrs| > 0 && attrs[0].name != name {
      LookupMeaning(attrs[1..], name);
      var v := Lookup(attrs[1..], name);
      if v.Some? {
        var i :| 0 <= i < |attrs[1..]| && attrs[1..][i] == Attr(name, v.value);
        assert attrs[i + 1] == attrs[1..][i];
      }
      if exists i :: 0 <= i < |attrs| && attrs[i].name == name {
        var i :| 0 <= i < |attrs| && attrs[i].name == name;
        assert attrs[1..][i - 1] == attrs[i];
      }
    }
  }

  /** The first attribute named `n` is the one at `i`. */
  lemma {:induction false} LookupAt(attrs: seq<Attr>, i: nat, n: string)
    requires i < |attrs| && attrs[i].name == n
    requires forall j :: 0 <= j < i ==> attrs[j].name != n
    ensures Lookup(attrs, n) == Some(attrs[i].value)
  {
    if i > 0 {
      assert attrs[0].name != n;
      assert forall j :: 0 <= j < i - 1 ==> attrs[1..][j] == attrs[j + 1];
      LookupAt(attrs[1..], i - 1, n);
    }
  }

  // ---------------------------------------------------------------------------
  // Export: the frame
  // ---------------------------------------------------------------------------

  /** `Replace("M", " ").Replace("Q", " ").Replace("L", " ")`. */
  function Spaced(d: string): (r: string)
    ensures |r| == |d|
    ensures forall i :: 0 <= i < |d| ==> r[i] == (if d[i] in {'M', 'Q', 'L'} then ' ' else d[i])
  {
    seq(|d|, i requires 0 <= i < |d| => if d[i] in {'M', 'Q', 'L'} then ' ' else d[i])
  }

  /** The export's pairing of tokens: positions 0-1, 2-3, ... form a point when both
      parse; a pair that does not is skipped whole. */
  function ExportPairs(nf: Numerics, ts: seq<string>): (ps: seq<Point>)
    ensures |ps| <= |ts| / 2
    decreases |ts|
  {
    if |ts| < 2 then []
    else
      (if nf.parse(ts[0]).Some? && nf.parse(ts[1]).Some? then [Point(nf.parse(ts[0]).value, nf.parse(ts[1]).value)] else [])
      + ExportPairs(nf, ts[2..])
  }

  /** The points one item contributes to the export frame: the pairs of a path's
      data, the two corners of a circle's square; hints contribute none. */
  function ItemExtent(nf: Numerics, it: Item): (ps: seq<Point>)
    ensures it.shape.CircleShape? ==> |ps| == 2
    ensures !(it.shape.PathShape? || it.shape.CircleShape?) ==> ps == []
  {
    match it.shape
    case PathShape(d, _, _, _, _, _, _, _) => ExportPairs(nf, Words(Spaced(d), {' '}))
    case CircleShape(cx, cy, r, _, _) => [Point(cx - r, cy - r), Point(cx + r, cy + r)]
    case _ => []
  }

  function Extent(nf: Numerics, items: seq<Item>): (ps: seq<Point>)
    ensures |items| > 0 ==> Extent(nf, items) == ItemExtent(nf, items[0]) + Extent(nf, items[1..])
  {
    if |items| == 0 then [] else ItemExtent(nf, items[0]) + Extent(nf, items[1..])
  }

  function Least(vs: seq<real>): (m: real)
    requires |vs| > 0
    ensures forall i :: 0 <= i < |vs| ==> m <= vs[i]
    ensures exists i :: 0 <= i < |vs| && m == vs[i]
  {
    if |vs| == 1 then vs[0]
    else
      var m := Least(vs[1..]);
      assert forall i :: 1 <= i < |vs| ==> vs[i] == vs[1..][i - 1];
      Min(vs[0], m)
  }

  function Greatest(vs: seq<real>): (m: real)
    requires |vs| > 0
    ensures forall i :: 0 <= i < |vs| ==> vs[i] <= m
    ensures exists i :: 0 <= i < |vs| && m == vs[i]
  {
    if |vs| == 1 then vs[0]
    else
      var m := Greatest(vs[1..]);
      assert forall i :: 1 <= i < |vs| ==> vs[i] == vs[1..][i - 1];
      Max(vs[0], m)
  }

  /** The default canvas the export falls back to when nothing is drawn. */
  const DefaultCanvas := Rect(0.0, 0.0, 2000.0, 1200.0)

  /** The drawn content's box: the smallest one holding every contributed point,
      touching each of them on some side, or the default canvas. */
  function ContentBox(nf: Numerics, items: seq<Item>): (b: Rect)
    ensures var ps := Extent(nf, items);
      && (|ps| == 0 ==> b == DefaultCanvas)
      && b.width >= 0.0 && b.height >= 0.0
      && (forall i :: 0 <= i < |ps| ==> InRect(ps[i], b))
      && (|ps| > 0 ==> Touches(ps, b))
  {
    var ps := Extent(nf, items);
    if |ps| == 0 then DefaultCanvas
    else
      var xs, ys := LocationCache.XsOfPoints(ps), LocationCache.YsOfPoints(ps);
      var b := Rect(Least(xs), Least(ys), Greatest(xs) - Least(xs), Greatest(ys) - Least(ys));
      BoxOfPoints(ps, xs, ys, b);
      b
  }

  /** Each side of the box passes through one of the points. */
  predicate Touches(ps: seq<Point>, b: Rect) {
    && (exists i :: 0 <= i < |ps| && ps[i].x == b.x)
    && (exists i :: 0 <= i < |ps| && ps[i].y == b.y)
    && (exists i :: 0 <= i < |ps| && ps[i].x == b.x + b.width)
    && (exists i :: 0 <= i < |ps| && ps[i].y == b.y + b.height)
  }

  lemma BoxOfPoints(ps: seq<Point>, xs: seq<real>, ys: seq<real>, b: Rect)
    requires |ps| > 0 && xs == LocationCache.XsOfPoints(ps) && ys == LocationCache.YsOfPoints(ps)
    requires b == Rect(Least(xs), Least(ys), Greatest(xs) - Least(xs), Greatest(ys) - Least(ys))
    ensures b.width >= 0.0 && b.height >= 0.0
    ensures forall i :: 0 <= i < |ps| ==> InRect(ps[i], b)
    ensures Touches(ps, b)
  {
    assert xs[0] == ps[0].x && ys[0] == ps[0].y;
    forall i | 0 <= i < |ps| ensures InRect(ps[i], b) {
      assert xs[i] == ps[i].x && ys[i] == ps[i].y;
    }
    var i0 :| 0 <= i0 < |xs| && xs[i0] == Least(xs);
    var i1 :| 0 <= i1 < |xs| && xs[i1] == Greatest(xs);
    var j0 :| 0 <= j0 < |ys| && ys[j0] == Least(ys);
    var j1 :| 0 <= j1 < |ys| && ys[j1] == Greatest(ys);
    assert ps[i0].x == b.x && ps[i1].x == b.x + b.width;
    assert ps[j0].y == b.y && ps[j1].y == b.y + b.height;
  }

  /** The frame around a content box: sides of at least 1, then a margin of 5% of the
      larger side plus 20 on every side. */
  function Padded(b: Rect): (r: Rect)
    ensures var w, h := (if b.width > 0.0 then b.width else 1.0), (if b.height > 0.0 then b.height else 1.0);
      var m := Max(w, h) * 0.05 + 20.0;
      && r.x == b.x - m && r.y == b.y - m
      && r.x + r.width == b.x + w + m && r.y + r.height == b.y + h + m
    ensures b.width >= 0.0 && b.height >= 0.0 ==> r.width > 40.0 && r.height > 40.0
  {
    var w := if b.width <= 0.0 then 1.0 else b.width;
    var h := if b.height <= 0.0 then 1.0 else b.height;
    var m := Max(w, h) * 0.05 + 20.0;
    Rect(b.x - m, b.y - m, w + m * 2.0, h + m * 2.0)
  }

  /** The viewBox of the exported document. */
  function ExportFrame(nf: Numerics, items: seq<Item>): (r: Rect)
    ensures r.width > 40.0 && r.height > 40.0
  {
    Padded(ContentBox(nf, items))
  }

  /** Every point the content contributes lies inside the frame, at least 20 units
      from each edge. */
  lemma FrameHoldsContent(nf: Numerics, items: seq<Item>, p: Point)
    requires p in Extent(nf, items)
    ensures var r := ExportFrame(nf, items);
      r.x + 20.0 <= p.x <= r.x + r.width - 20.0 && r.y + 20.0 <= p.y <= r.y + r.height - 20.0
  {
    var ps := Extent(nf, items);
    var i :| 0 <= i < |ps| && ps[i] == p;
    var b := ContentBox(nf, items);
    assert InRect(ps[i], b);
  }

  /** With nothing drawn the frame is the default canvas with a margin of 120. */
  lemma EmptyFrame(nf: Numerics, items: seq<Item>)
    requires |Extent(nf, items)| == 0
    ensures ExportFrame(nf, items) == Rect(-120.0, -120.0, 2240.0, 1440.0)
  {
  }

  // ---------------------------------------------------------------------------
  // Export: the elements
  // ---------------------------------------------------------------------------

  const SvgNs := "http://www.w3.org/2000/svg"
  const XlinkNs := "http://www.w3.org/1999/xlink"

  const PausePrefix := "Pause:"
  const SpeedPrefix := "Speed:"

  /** The dash pattern written for a line type, if any. */
  function DashArray(lineType: string): (v: Option<string>)
    ensures lineType == "dashed" ==> v == Some("10 6")
    ensures lineType == "dotted" ==> v == Some("3 7")
    ensures lineType != "dashed" && lineType != "dotted" ==> v.None?
  {
    if lineType == "dashed" then Some("10 6") else if lineType == "dotted" then Some("3 7") else None
  }

  function PathAttrs(nf: Numerics, id: string, p: Shape): (attrs: seq<Attr>)
    requires p.PathShape?
  {
    StrokeAttrs(nf, id, p) + DashAttrs(p.lineType)
  }

  /** The attributes every path is written with. */
  function StrokeAttrs(nf: Numerics, id: string, p: Shape): (attrs: seq<Attr>)
    requires p.PathShape?
    ensures |attrs| == 8
  {
    [Attr("d", p.d), Attr("stroke", p.stroke), Attr("stroke-width", nf.xmlText(p.strokeWidth)),
     Attr("fill", "none"), Attr("opacity", nf.xmlText(p.opacity)),
     Attr("stroke-linecap", p.lineCap), Attr("stroke-linejoin", p.lineJoin), Attr("id", id)]
  }

  /** The dash pattern attribute, written only for dashed and dotted lines. */
  function DashAttrs(lineType: string): (attrs: seq<Attr>)
    ensures Lookup(attrs, "stroke-dasharray") == DashArray(lineType)
  {
    match DashArray(lineType) case Some(v) => [Attr("stroke-dasharray", v)] case None => []
  }

  /** Looking past a prefix that does not hold the name, or stopping in one that does. */
  lemma {:induction false} LookupAppend(a: seq<Attr>, b: seq<Attr>, n: string)
    ensures Lookup(a, n).Some? ==> Lookup(a + b, n) == Lookup(a, n)
    ensures Lookup(a, n).None? ==> Lookup(a + b, n) == Lookup(b, n)
  {
    if |a| > 0 {
      assert (a + b)[1..] == a[1..] + b;
      LookupAppend(a[1..], b, n);
    } else {
      assert a + b == b;
    }
  }

  /** What the import reads from a written path. */
  lemma PathAttrsRead(nf: Numerics, id: string, p: Shape)
    requires p.PathShape?
    ensures var attrs := PathAttrs(nf, id, p);
      && Lookup(attrs, "d") == Some(p.d)
      && Lookup(attrs, "stroke") == Some(p.stroke)
      && Lookup(attrs, "stroke-width") == Some(nf.xmlText(p.strokeWidth))
      && Lookup(attrs, "opacity") == Some(nf.xmlText(p.opacity))
      && Lookup(attrs, "id") == Some(id)
      && Lookup(attrs, "stroke-dasharray") == DashArray(p.lineType)
  {
    var a, b := StrokeAttrs(nf, id, p), DashAttrs(p.lineType);
    LookupAt(a, 0, "d");
    LookupAt(a, 1, "stroke");
    LookupAt(a, 2, "stroke-width");
    LookupAt(a, 4, "opacity");
    LookupAt(a, 7, "id");
    assert forall j :: 0 <= j < |a| ==> a[j].name != "stroke-dasharray";
    LookupMeaning(a, "stroke-dasharray");
    LookupAppend(a, b, "d");
    LookupAppend(a, b, "stroke");
    LookupAppend(a, b, "stroke-width");
    LookupAppend(a, b, "opacity");
    LookupAppend(a, b, "id");
    LookupAppend(a, b, "stroke-dasharray");
  }

  function CircleAttrs(nf: Numerics, c: Shape): (attrs: seq<Attr>)
    requires c.CircleShape?
  {
    [Attr("cx", nf.xmlText(c.cx)), Attr("cy", nf.xmlText(c.cy)), Attr("r", nf.xmlText(c.r)),
     Attr("fill", c.fill), Attr("opacity", nf.xmlText(c.opacity))]
  }

  /** What the import reads from a written circle; there is no id. */
  lemma CircleAttrsRead(nf: Numerics, c: Shape)
    requires c.CircleShape?
    ensures var attrs := CircleAttrs(nf, c);
      && Lookup(attrs, "cx") == Some(nf.xmlText(c.cx))
      && Lookup(attrs, "cy") == Some(nf.xmlText(c.cy))
      && Lookup(attrs, "r") == Some(nf.xmlText(c.r))
      && Lookup(attrs, "fill") == Some(c.fill)
      && Lookup(attrs, "opacity") == Some(nf.xmlText(c.opacity))
      && Lookup(attrs, "id").None?
  {
    var attrs := CircleAttrs(nf, c);
    LookupAt(attrs, 0, "cx");
    LookupAt(attrs, 1, "cy");
    LookupAt(attrs, 2, "r");
    LookupAt(attrs, 3, "fill");
    LookupAt(attrs, 4, "opacity");
    assert forall j :: 0 <= j < |attrs| ==> attrs[j].name != "id";
    LookupMeaning(attrs, "id");
  }

  /** The node one item is written as: a comment for a hint, a `path` or `circle`
      element for a drawn item, with the path data written as it is. */
  function Emit(nf: Numerics, it: Item): (n: Node)
    ensures it.shape.PauseShape? ==> n == Comment(PausePrefix + nf.intText(it.shape.milliseconds))
    ensures it.shape.SpeedShape? ==> n == Comment(SpeedPrefix + nf.text(it.shape.multiplier))
    ensures it.shape.PathShape? ==> (n.Element? && n.name == "path" && n.children == [] &&
      Lookup(n.attrs, "d") == Some(it.shape.d) && Lookup(n.attrs, "id") == Some(it.id) &&
      Lookup(n.attrs, "stroke-dasharray") == DashArray(it.shape.lineType))
    ensures it.shape.CircleShape? ==> (n.Element? && n.name == "circle" && n.children == [] &&
      Lookup(n.attrs, "id").None?)
  {
    match it.shape
    case PauseShape(ms) => Comment(PausePrefix + nf.intText(ms))
    case SpeedShape(m) => Comment(SpeedPrefix + nf.text(m))
    case PathShape(_, _, _, _, _, _, _, _) =>
      PathAttrsRead(nf, it.id, it.shape);
      Element("path", PathAttrs(nf, it.id, it.shape), [])
    case CircleShape(_, _, _, _, _) =>
      CircleAttrsRead(nf, it.shape);
      Element("circle", CircleAttrs(nf, it.shape), [])
  }

  /** The children of the root: one node per item, in the items' order. */
  function EmitAll(nf: Numerics, items: seq<Item>): (ns: seq<Node>)
    ensures |ns| == |items| && forall i :: 0 <= i < |items| ==> ns[i] == Emit(nf, items[i])
  {
    seq(|items|, i requires 0 <= i < |items| => Emit(nf, items[i]))
  }

  /** `ExportSvg()` up to the text: the `svg` root with size and viewBox in "0.###"
      format and the items' nodes as children. */
  function ExportSvg(nf: Numerics, items: seq<Item>): (doc: Node)
    ensures doc.Element? && doc.name == "svg" && doc.children == EmitAll(nf, items)
    ensures Lookup(doc.attrs, "width") == Some(nf.fixed3(ExportFrame(nf, items).width))
  {
    var r := ExportFrame(nf, items);
    RootWidthRead(nf, r);
    Element("svg", RootAttrs(nf, r), EmitAll(nf, items))
  }

  /** The attributes of the `svg` root for the frame `r`. */
  function RootAttrs(nf: Numerics, r: Rect): seq<Attr> {
    [Attr("xmlns:xlink", XlinkNs), Attr("version", "1.1"),
     Attr("width", nf.fixed3(r.width)), Attr("height", nf.fixed3(r.height)),
     Attr("viewBox", nf.fixed3(r.x) + " " + nf.fixed3(r.y) + " " + nf.fixed3(r.width) + " " + nf.fixed3(r.height))]
  }

  lemma RootWidthRead(nf: Numerics, r: Rect)
    ensures Lookup(RootAttrs(nf, r), "width") == Some(nf.fixed3(r.width))
  {
    var attrs := RootAttrs(nf, r);
    assert attrs[0].name[0] == 'x' && attrs[1].name[0] == 'v' && attrs[2].name == "width";
    LookupAt(attrs, 2, "width");
  }

  const XmlOpen := "<?xml"
  const XmlHeader := XmlOpen + " version=\"1.0\" encoding=\"UTF-8\" standalone=\"yes\"?>"
  const MinimalSvg := "<svg xmlns=\"http://www.w3.org/2000/svg\" version=\"1.1\" width=\"1\" height=\"1\" viewBox=\"0 0 1 1\" />"

  /** The text finishing step: the XML declaration is put in front unless the text,
      leading blanks aside, already opens with one; blank text becomes a 1x1 document. */
  function WithHeader(text: string): (r: string)
    ensures StartsWith(TrimStart(r), "<?xml")
    ensures StartsWith(TrimStart(text), "<?xml") ==> r == text
    ensures !StartsWith(TrimStart(text), "<?xml") ==> r == XmlHeader + text
  {
    if !StartsWith(TrimStart(text), "<?xml") then
      HeaderOpens(text);
      var r := XmlHeader + text;
      if IsBlank(r) then XmlHeader + MinimalSvg else r
    else
      OpenedTextNotBlank(text);
      if IsBlank(text) then XmlHeader + MinimalSvg else text
  }

  /** Text that opens with "<?xml" once leading blanks are trimmed is not blank. */
  lemma OpenedTextNotBlank(text: string)
    requires StartsWith(TrimStart(text), "<?xml")
    ensures !IsBlank(text)
  {
    var t := TrimStart(text);
    assert t[0] == '<';
    assert text[|text| - |t|] == t[0];
  }

  /** The declaration starts with no leading blank and opens with "<?xml", so text with
      the declaration in front is never blank. */
  lemma HeaderOpens(text: string)
    ensures TrimStart(XmlHeader + text) == XmlHeader + text
    ensures StartsWith(XmlHeader + text, "<?xml") && !IsBlank(XmlHeader + text)
  {
    var r := XmlHeader + text;
    assert r[..5] == XmlHeader[..5];
    assert XmlHeader[..5] == "<?xml";
    assert r[0] == '<';
  }

  // ---------------------------------------------------------------------------
  // Import
  // ---------------------------------------------------------------------------

  /** `double.TryParse(value, out v) ? v : fallback`; a missing attribute does not parse. */
  function ParsedOr(nf: Numerics, v: Option<string>, fallback: real): (r: real)
    ensures v.Some? && nf.parse(v.value).Some? ==> r == nf.parse(v.value).value
    ensures v.None? || nf.parse(v.value).None? ==> r == fallback
  {
    if v.Some? && nf.parse(v.value).Some? then nf.parse(v.value).value else fallback
  }

  /** The `id` attribute when it is not blank, otherwise a fresh GUID's text. */
  function IdOr(v: Option<string>, guid: string): (id: string)
    ensures v.Some? && !IsBlank(v.value) ==> id == v.value
    ensures v.None? || IsBlank(v.value) ==> id == guid
  {
    if v.Some? && !IsBlank(v.value) then v.value else guid
  }

  /** A `path` element as an item: the data (empty when missing) with its bounds,
      stroke "#000", width 2 and opacity 1 unless given; the rest at the defaults. */
  function ImportPath(nf: Numerics, attrs: seq<Attr>, guid: string): (it: Item)
    ensures IsPath(it) && !it.selected && !it.highlight
    ensures it.shape.d == (if Lookup(attrs, "d").Some? then Lookup(attrs, "d").value else "")
    ensures it.shape.bounds == Some(PathBounds.GetBounds(nf, it.shape.d))
    ensures Lookup(attrs, "stroke").None? ==> it.shape.stroke == DefaultStroke
    ensures Lookup(attrs, "stroke-width").None? ==> it.shape.strokeWidth == DefaultStrokeWidth
    ensures Lookup(attrs, "opacity").None? ==> it.shape.opacity == DefaultOpacity
    ensures it.shape.lineType == "solid" && it.shape.lineCap == "round" && it.shape.lineJoin == "round"
  {
    var d := if Lookup(attrs, "d").Some? then Lookup(attrs, "d").value else "";
    var stroke := if Lookup(attrs, "stroke").Some? then Lookup(attrs, "stroke").value else DefaultStroke;
    Item(IdOr(Lookup(attrs, "id"), guid), false, false,
         PathShape(d, stroke, ParsedOr(nf, Lookup(attrs, "stroke-width"), DefaultStrokeWidth),
                   ParsedOr(nf, Lookup(attrs, "opacity"), DefaultOpacity), "solid", "round", "round",
                   Some(PathBounds.GetBounds(nf, d))))
  }

  /** A `circle` element as an item: centre and radius 0 unless given, fill "#000" and
      opacity 1 unless given. */
  function ImportCircle(nf: Numerics, attrs: seq<Attr>, guid: string): (it: Item)
    ensures it.shape.CircleShape? && !it.selected && !it.highlight
    ensures Lookup(attrs, "cx").None? ==> it.shape.cx == 0.0
    ensures Lookup(attrs, "cy").None? ==> it.shape.cy == 0.0
    ensures Lookup(attrs, "r").None? ==> it.shape.r == 0.0
    ensures Lookup(attrs, "fill").None? ==> it.shape.fill == DefaultStroke
  {
    var fill := if Lookup(attrs, "fill").Some? then Lookup(attrs, "fill").value else DefaultStroke;
    Item(IdOr(Lookup(attrs, "id"), guid), false, false,
         CircleShape(ParsedOr(nf, Lookup(attrs, "cx"), 0.0), ParsedOr(nf, Lookup(attrs, "cy"), 0.0),
                     ParsedOr(nf, Lookup(attrs, "r"), 0.0), fill, ParsedOr(nf, Lookup(attrs, "opacity"), DefaultOpacity)))
  }

  /** What the walk over the document collects: the drawn items and the comments. */
  datatype Harvest = Harvest(items: seq<Item>, comments: seq<string>)

  /** Drawn items only. */
  predicate AllDrawn(items: seq<Item>) {
    forall i :: 0 <= i < |items| ==> items[i].shape.PathShape? || items[i].shape.CircleShape?
  }

  /** `ImportElement(node)`, continuing from what was collected before: a comment is
      kept; a `path` or `circle` element becomes an item (the fresh GUIDs are a
      parameter, by item position), then its children are walked in order. */
  function Walk(nf: Numerics, n: Node, acc: Harvest, guid: nat -> string): (r: Harvest)
    requires AllDrawn(acc.items)
    ensures AllDrawn(r.items)
    ensures |acc.items| <= |r.items| && r.items[..|acc.items|] == acc.items
    ensures |acc.comments| <= |r.comments| && r.comments[..|acc.comments|] == acc.comments
    decreases n, 1
  {
    match n
    case Comment(t) => acc.(comments := acc.comments + [t])
    case TextNode(_) => acc
    case Element(name, attrs, kids) =>
      var k := |acc.items|;
      var here :=
        if name == "path" then acc.(items := acc.items + [ImportPath(nf, attrs, guid(k))])
        else if name == "circle" then acc.(items := acc.items + [ImportCircle(nf, attrs, guid(k))])
        else acc;
      assert here.items[..k] == acc.items;
      WalkAll(nf, kids, here, guid)
  }

  function WalkAll(nf: Numerics, ns: seq<Node>, acc: Harvest, guid: nat -> string): (r: Harvest)
    requires AllDrawn(acc.items)
    ensures AllDrawn(r.items)
    ensures |acc.items| <= |r.items| && r.items[..|acc.items|] == acc.items
    ensures |acc.comments| <= |r.comments| && r.comments[..|acc.comments|] == acc.comments
    decreases ns, 0
  {
    if |ns| == 0 then acc
    else
      var mid := Walk(nf, ns[0], acc, guid);
      var r := WalkAll(nf, ns[1..], mid, guid);
      assert r.items[..|acc.items|] == r.items[..|mid.items|][..|acc.items|];
      assert r.comments[..|acc.comments|] == r.comments[..|mid.comments|][..|acc.comments|];
      r
  }

  /** The visible part of the canvas import fits the content into. */
  const CanvasWidth := 2000.0
  const CanvasHeight := 1200.0
  const ImportMargin := 40.0

  datatype View = View(zoom: real, offsetX: real, offsetY: real)

  /** The x range an item occupies for the import's view: a path's bounds, a
      circle's square. */
  function LowXs(items: seq<Item>): (vs: seq<real>)
    ensures |vs| <= |items|
  {
    if |items| == 0 then []
    else
      (match items[0].shape
       case PathShape(_, _, _, _, _, _, _, b) => if b.Some? then [b.value.x] else []
       case CircleShape(cx, _, r, _, _) => [cx - r]
       case _ => [])
      + LowXs(items[1..])
  }

  function HighXs(items: seq<Item>): (vs: seq<real>)
    ensures |vs| <= |items|
  {
    if |items| == 0 then []
    else
      (match items[0].shape
       case PathShape(_, _, _, _, _, _, _, b) => if b.Some? then [b.value.x + b.value.width] else []
       case CircleShape(cx, _, r, _, _) => [cx + r]
       case _ => [])
      + HighXs(items[1..])
  }

  function LowYs(items: seq<Item>): (vs: seq<real>)
    ensures |vs| <= |items|
  {
    if |items| == 0 then []
    else
      (match items[0].shape
       case PathShape(_, _, _, _, _, _, _, b) => if b.Some? then [b.value.y] else []
       case CircleShape(_, cy, r, _, _) => [cy - r]
       case _ => [])
      + LowYs(items[1..])
  }

  function HighYs(items: seq<Item>): (vs: seq<real>)
    ensures |vs| <= |items|
  {
    if |items| == 0 then []
    else
      (match items[0].shape
       case PathShape(_, _, _, _, _, _, _, b) => if b.Some? then [b.value.y + b.value.height] else []
       case CircleShape(_, cy, r, _, _) => [cy + r]
       case _ => [])
      + HighYs(items[1..])
  }

  /** The zoom that fits `w` by `h` into the canvas less the margins, kept within
      [0.1, 10]. */
  function FitZoom(w: real, h: real): (z: real)
    requires w >= 1.0 && h >= 1.0
    ensures 0.1 <= z <= 10.0
    ensures z > 0.1 ==> w * z <= CanvasWidth - 2.0 * ImportMargin && h * z <= CanvasHeight - 2.0 * ImportMargin
  {
    var zx := (CanvasWidth - ImportMargin * 2.0) / w;
    var zy := (CanvasHeight - ImportMargin * 2.0) / h;
    var z := Max(Min(Min(zx, zy), 10.0), 0.1);
    FitsWhenUnclamped(w, zx, CanvasWidth - ImportMargin * 2.0, z);
    FitsWhenUnclamped(h, zy, CanvasHeight - ImportMargin * 2.0, z);
    z
  }

  lemma FitsWhenUnclamped(w: real, z: real, room: real, zoom: real)
    requires w >= 1.0 && room > 0.0 && z == room / w
    requires zoom > 0.1 ==> zoom <= z
    ensures zoom > 0.1 ==> w * zoom <= room
  {
    assert w * z == room;
    if zoom > 0.1 {
      assert w * z - w * zoom == w * (z - zoom);
      assert w * (z - zoom) >= 0.0;
    }
  }

  /** The zoom and offsets of an imported diagram: the content, at least 1 wide and
      high, scaled to fit the canvas less a 40 margin, the zoom kept within [0.1, 10],
      and the content's centre put at the canvas centre. The running minimum and
      maximum start at `double.MaxValue` and `double.MinValue`. */
  function ImportView(items: seq<Item>): View
  {
    var sp := Span(items);
    ViewOf(sp)
  }

  /** The running extremes of the items, as a rectangle; with no items its corners
      are the sentinels. */
  function Span(items: seq<Item>): (sp: Rect)
    ensures forall i :: 0 <= i < |LowXs(items)| ==> sp.x <= LowXs(items)[i]
    ensures forall i :: 0 <= i < |HighXs(items)| ==> HighXs(items)[i] <= sp.x + sp.width
    ensures forall i :: 0 <= i < |LowYs(items)| ==> sp.y <= LowYs(items)[i]
    ensures forall i :: 0 <= i < |HighYs(items)| ==> HighYs(items)[i] <= sp.y + sp.height
  {
    var minX, maxX := Lowest(LowXs(items)), Highest(HighXs(items));
    var minY, maxY := Lowest(LowYs(items)), Highest(HighYs(items));
    Rect(minX, minY, maxX - minX, maxY - minY)
  }

  /** The view for content spanning `sp`. */
  function ViewOf(sp: Rect): (v: View)
    ensures 0.1 <= v.zoom <= 10.0
    ensures (sp.x + sp.width / 2.0) * v.zoom + v.offsetX == CanvasWidth / 2.0
    ensures (sp.y + sp.height / 2.0) * v.zoom + v.offsetY == CanvasHeight / 2.0
    ensures v.zoom > 0.1 ==> Max(1.0, sp.width) * v.zoom <= CanvasWidth - 2.0 * ImportMargin
    ensures v.zoom > 0.1 ==> Max(1.0, sp.height) * v.zoom <= CanvasHeight - 2.0 * ImportMargin
  {
    var zoom := FitZoom(Max(1.0, sp.width), Max(1.0, sp.height));
    var cx, cy := sp.x + sp.width / 2.0, sp.y + sp.height / 2.0;
    View(zoom, CanvasWidth / 2.0 - cx * zoom, CanvasHeight / 2.0 - cy * zoom)
  }

  /** `Math.Ceiling`. */
  function Ceiling(x: real): (c: int)
    ensures x <= c as real < x + 1.0
  {
    -((-x).Floor)
  }

  /** The cache grid for `n` drawn items: the ceiling of the square root, within [3, 10]. */
  function GridSize(nf: Numerics, n: nat): (g: int)
    ensures 3 <= g <= 10
  {
    Clamp(Ceiling(nf.sqrt(n as real)), 3, 10)
  }

  /** The grid is the smallest side whose square holds `n` buckets, within [3, 10]. */
  lemma GridSizeIsCeilSqrt(nf: Numerics, n: nat)
    requires SqrtIsRoot(nf)
    ensures n <= 9 ==> GridSize(nf, n) == 3
    ensures n > 81 ==> GridSize(nf, n) == 10
    ensures 9 < n <= 81 ==> var g := GridSize(nf, n); (g - 1) * (g - 1) < n <= g * g
  {
    var s := nf.sqrt(n as real);
    var c := Ceiling(s);
    assert s >= 0.0 && s * s == n as real;
    CeilSquare(s, c, n);
  }

  lemma CeilSquare(s: real, c: int, n: nat)
    requires s >= 0.0 && s * s == n as real && s <= c as real < s + 1.0
    ensures n as real <= (c * c) as real
    ensures n >= 1 ==> ((c - 1) * (c - 1)) as real < n as real
    ensures n <= 9 ==> c <= 3
    ensures n > 81 ==> c >= 10
  {
    var cr := c as real;
    assert cr >= 0.0;
    SquareMonotone(s, cr);
    assert (c * c) as real == cr * cr;
    if n >= 1 {
      assert s >= 1.0 by {
        if s < 1.0 { StrictSquareMonotone(s, 1.0); }
      }
      assert c >= 1;
      var d := (c - 1) as real;
      assert d < s;
      StrictSquareMonotone(d, s);
      assert ((c - 1) * (c - 1)) as real == d * d;
    }
    if 1 <= n <= 9 {
      SquareBelow(c - 1, 3);
    }
    if n > 81 {
      SquareBelow(9, c);
    }
  }

  lemma SquareBelow(x: int, k: int)
    requires 0 <= x && 0 <= k && x * x < k * k
    ensures x < k
  {
    if x >= k { MulAtLeast(x, k); }
  }

  lemma SquareMonotone(a: real, b: real)
    requires 0.0 <= a <= b
    ensures a * a <= b * b
  {
    assert b * b - a * a == (b - a) * (b + a);
  }

  lemma StrictSquareMonotone(a: real, b: real)
    requires 0.0 <= a < b
    ensures a * a < b * b
  {
    var d, t := b - a, b + a;
    assert d > 0.0 && t > 0.0;
    assert d * t > 0.0;
    assert b * b - a * a == d * t;
  }

  lemma MulAtLeast(a: int, k: nat)
    requires a >= k
    ensures a * a >= k * k
  {
    assert a * a - k * k == (a - k) * (a + k);
  }

  lemma MulAtMost(a: int, k: nat)
    requires 0 <= a <= k
    ensures a * a <= k * k
  {
    assert k * k - a * a == (k - a) * (k + a);
  }

  /** Both editors have a cache of the same grid, or neither has one. */
  predicate SameGrid(a: EditorState.Editor, b: EditorState.Editor) {
    && (a.cache.Some? <==> b.cache.Some?)
    && (a.cache.Some? ==> a.cache.value.gridX == b.cache.value.gridX && a.cache.value.gridY == b.cache.value.gridY)
  }

  /** `ParseComment(value)`: "Pause:" or "Speed:" in any case, followed by a value
      that parses, adds that hint (fresh ids are a parameter); anything else is
      ignored. */
  function ParseComment(nf: Numerics, e: EditorState.Editor, value: string, id: string): (r: EditorState.Editor)
    requires EditorState.CacheReady(e)
    ensures EditorState.CacheReady(r) && SameGrid(r, e)
    ensures StartsWithIgnoreCase(value, PausePrefix) && nf.parseInt(value[6..]).Some? ==>
      r == EditorState.Add(nf, e, Item(id, false, false, PauseShape(nf.parseInt(value[6..]).value)))
    ensures !StartsWithIgnoreCase(value, PausePrefix) && StartsWithIgnoreCase(value, SpeedPrefix) && nf.parse(value[6..]).Some? ==>
      r == EditorState.Add(nf, e, Item(id, false, false, SpeedShape(nf.parse(value[6..]).value)))
    ensures !StartsWithIgnoreCase(value, PausePrefix) && !StartsWithIgnoreCase(value, SpeedPrefix) ==> r == e
    ensures StartsWithIgnoreCase(value, PausePrefix) && nf.parseInt(value[6..]).None? ==> r == e
  {
    if StartsWithIgnoreCase(value, PausePrefix) then
      match nf.parseInt(value[6..])
      case Some(ms) => EditorState.Add(nf, e, Item(id, false, false, PauseShape(ms)))
      case None => e
    else if StartsWithIgnoreCase(value, SpeedPrefix) then
      match nf.parse(value[6..])
      case Some(m) => EditorState.Add(nf, e, Item(id, false, false, SpeedShape(m)))
      case None => e
    else e
  }

  function ParseComments(nf: Numerics, e: EditorState.Editor, cs: seq<string>, hintId: nat -> string, k: nat): (r: EditorState.Editor)
    requires EditorState.CacheReady(e)
    ensures EditorState.CacheReady(r) && SameGrid(r, e)
    ensures |e.items| <= |r.items| && r.items[..|e.items|] == e.items
    ensures r.selected == e.selected
    decreases |cs|
  {
    if |cs| == 0 then e
    else
      var mid := ParseComment(nf, e, cs[0], hintId(k));
      var r := ParseComments(nf, mid, cs[1..], hintId, k + 1);
      assert r.items[..|e.items|] == r.items[..|mid.items|][..|e.items|];
      r
  }

  /** The editor once the document's drawn items are in: a new diagram, a new cache
      of 2000 by 1200 with the given grid, the items added and bulk-bucketed. */
  function Loaded(nf: Numerics, e: EditorState.Editor, items: seq<Item>, grid: int): (r: EditorState.Editor)
    requires 3 <= grid <= 10
    ensures EditorState.CacheReady(r) && r.cache.Some? && r.cache.value.gridX == grid && r.cache.value.gridY == grid
    ensures r.items == items && r.selected == [] && !r.dirty
  {
    var blank := EditorState.InitLocationCache(nf, EditorState.New(e), grid, grid, CanvasWidth, CanvasHeight);
    blank.(items := blank.items + items, cache := Some(LocationCache.BuildBulk(nf, blank.cache.value, items)))
  }

  /** `ImportSvg(xml)` as one step, after parsing: a new diagram holding the drawn
      items in document order, a cache of 2000 by 1200 with the computed grid, then
      the hints from the comments, the fitted view if there is any item, and nothing
      unsaved. */
  function ImportSvg(nf: Numerics, e: EditorState.Editor, root: Node, guid: nat -> string, hintId: nat -> string): (r: EditorState.Editor)
    ensures EditorState.CacheReady(r) && r.cache.Some?
    ensures !r.dirty && r.selected == []
    ensures var h := Walk(nf, root, Harvest([], []), guid);
      |h.items| <= |r.items| && r.items[..|h.items|] == h.items
    ensures 3 <= r.cache.value.gridX <= 10 && r.cache.value.gridY == r.cache.value.gridX
    ensures |r.items| > 0 ==> 0.1 <= r.zoom <= 10.0
  {
    var h := Walk(nf, root, Harvest([], []), guid);
    var grid := GridSize(nf, |h.items|);
    var filled := Loaded(nf, e, h.items, grid);
    var hinted := ParseComments(nf, filled, h.comments, hintId, 0);
    var v := ImportView(h.items);
    var viewed := if |hinted.items| > 0 then EditorState.SetViewport(hinted, v.zoom, v.offsetX, v.offsetY) else hinted;
    EditorState.MarkSaved(viewed)
  }

  // ---------------------------------------------------------------------------
  // Export then import
  // ---------------------------------------------------------------------------

  /** The drawn items in order. */
  function Drawn(items: seq<Item>): (r: seq<Item>)
    ensures AllDrawn(r) && |r| <= |items|
  {
    if |items| == 0 then []
    else (if items[0].shape.PathShape? || items[0].shape.CircleShape? then [items[0]] else []) + Drawn(items[1..])
  }

  /** The comment texts the hints are written as, in order. */
  function HintTexts(nf: Numerics, items: seq<Item>): seq<string> {
    if |items| == 0 then []
    else
      (match items[0].shape
       case PauseShape(ms) => [PausePrefix + nf.intText(ms)]
       case SpeedShape(m) => [SpeedPrefix + nf.text(m)]
       case _ => [])
      + HintTexts(nf, items[1..])
  }

  /** A drawn item as importing its exported element gives it back: a path keeps its
      data, stroke, width, opacity and (unless blank) its id, and loses its line type,
      cap and join; a circle keeps its geometry, fill and opacity but not its id, which
      the export does not write. */
  function Reimported(nf: Numerics, it: Item, guid: string): (r: Item)
    requires it.shape.PathShape? || it.shape.CircleShape?
  {
    match it.shape
    case PathShape(d, stroke, w, op, _, _, _, _) =>
      Item(IdOr(Some(it.id), guid), false, false,
           PathShape(d, stroke, w, op, "solid", "round", "round", Some(PathBounds.GetBounds(nf, d))))
    case CircleShape(cx, cy, rad, fill, op) =>
      Item(guid, false, false, CircleShape(cx, cy, rad, fill, op))
  }

  function ReimportAll(nf: Numerics, items: seq<Item>, guid: nat -> string, k: nat): (r: seq<Item>)
    requires AllDrawn(items)
    ensures |r| == |items|
  {
    if |items| == 0 then [] else [Reimported(nf, items[0], guid(k))] + ReimportAll(nf, items[1..], guid, k + 1)
  }

  lemma ImportPathOfExport(nf: Numerics, it: Item, guid: string)
    requires XmlTextReadsBack(nf) && it.shape.PathShape?
    ensures ImportPath(nf, PathAttrs(nf, it.id, it.shape), guid) == Reimported(nf, it, guid)
  {
    PathAttrsRead(nf, it.id, it.shape);
  }

  lemma ImportCircleOfExport(nf: Numerics, it: Item, guid: string)
    requires XmlTextReadsBack(nf) && it.shape.CircleShape?
    ensures ImportCircle(nf, CircleAttrs(nf, it.shape), guid) == Reimported(nf, it, guid)
  {
    CircleAttrsRead(nf, it.shape);
  }

  /** Walking one exported node: a drawn item comes back as importing gives it, a
      hint as its comment. */
  lemma WalkOfEmit(nf: Numerics, it: Item, acc: Harvest, guid: nat -> string)
    requires XmlTextReadsBack(nf) && AllDrawn(acc.items)
    ensures var mid := Walk(nf, Emit(nf, it), acc, guid);
      && (it.shape.PathShape? || it.shape.CircleShape? ==>
            mid == acc.(items := acc.items + [Reimported(nf, it, guid(|acc.items|))]))
      && (it.shape.PauseShape? ==> mid == acc.(comments := acc.comments + [PausePrefix + nf.intText(it.shape.milliseconds)]))
      && (it.shape.SpeedShape? ==> mid == acc.(comments := acc.comments + [SpeedPrefix + nf.text(it.shape.multiplier)]))
  {
    var k := |acc.items|;
    match it.shape {
      case PathShape(_, _, _, _, _, _, _, _) =>
        ImportPathOfExport(nf, it, guid(k));
        var here := acc.(items := acc.items + [ImportPath(nf, PathAttrs(nf, it.id, it.shape), guid(k))]);
        assert Walk(nf, Emit(nf, it), acc, guid) == WalkAll(nf, [], here, guid);
      case CircleShape(_, _, _, _, _) =>
        ImportCircleOfExport(nf, it, guid(k));
        var here := acc.(items := acc.items + [ImportCircle(nf, CircleAttrs(nf, it.shape), guid(k))]);
        assert Walk(nf, Emit(nf, it), acc, guid) == WalkAll(nf, [], here, guid);
      case PauseShape(_) =>
      case SpeedShape(_) =>
    }
  }

  /** Walking the exported nodes collects the drawn items as importing gives them
      back, and the hints' comments, each in order. */
  lemma {:induction false} WalkOfExport(nf: Numerics, items: seq<Item>, acc: Harvest, guid: nat -> string)
    requires XmlTextReadsBack(nf) && AllDrawn(acc.items)
    ensures WalkAll(nf, EmitAll(nf, items), acc, guid) ==
      Harvest(acc.items + ReimportAll(nf, Drawn(items), guid, |acc.items|), acc.comments + HintTexts(nf, items))
    decreases |items|
  {
    var ns := EmitAll(nf, items);
    if |items| == 0 {
      assert acc.items + [] == acc.items && acc.comments + [] == acc.comments;
    } else {
      var it := items[0];
      var k := |acc.items|;
      assert ns[0] == Emit(nf, it) && ns[1..] == EmitAll(nf, items[1..]);
      var mid := Walk(nf, ns[0], acc, guid);
      assert WalkAll(nf, ns, acc, guid) == WalkAll(nf, ns[1..], mid, guid);
      WalkOfEmit(nf, it, acc, guid);
      WalkOfExport(nf, items[1..], mid, guid);
      var rest, hints := ReimportAll(nf, Drawn(items[1..]), guid, |mid.items|), HintTexts(nf, items[1..]);
      if it.shape.PathShape? || it.shape.CircleShape? {
        assert Drawn(items) == [it] + Drawn(items[1..]);
        assert ReimportAll(nf, Drawn(items), guid, k) == [Reimported(nf, it, guid(k))] + rest;
        var back := Reimported(nf, it, guid(k));
        assert mid.items == acc.items + [back];
        ConsAssoc(acc.items, back, rest);
        assert HintTexts(nf, items) == hints;
      } else {
        assert Drawn(items) == Drawn(items[1..]);
        var c := mid.comments[|acc.comments|];
        assert mid.items == acc.items && mid.comments == acc.comments + [c];
        assert HintTexts(nf, items) == [c] + hints;
        ConsAssoc(acc.comments, c, hints);
      }
    }
  }

  lemma ConsAssoc<T>(a: seq<T>, x: T, b: seq<T>)
    ensures a + ([x] + b) == (a + [x]) + b
  {
  }

  /** The hints as reading their comments back gives them: same value, fresh id. */
  function Rehinted(nf: Numerics, items: seq<Item>, hintId: nat -> string, k: nat): seq<Item> {
    if |items| == 0 then []
    else
      match items[0].shape
      case PauseShape(ms) => [Item(hintId(k), false, false, PauseShape(ms))] + Rehinted(nf, items[1..], hintId, k + 1)
      case SpeedShape(m) => [Item(hintId(k), false, false, SpeedShape(m))] + Rehinted(nf, items[1..], hintId, k + 1)
      case _ => Rehinted(nf, items[1..], hintId, k)
  }

  lemma PauseCommentReadsBack(nf: Numerics, ms: int)
    requires IntTextReadsBack(nf)
    ensures var s := PausePrefix + nf.intText(ms);
      StartsWithIgnoreCase(s, PausePrefix) && nf.parseInt(s[6..]) == Some(ms)
  {
    var s := PausePrefix + nf.intText(ms);
    assert s[..6] == PausePrefix && s[6..] == nf.intText(ms);
  }

  lemma SpeedCommentReadsBack(nf: Numerics, m: real)
    requires TextReadsBack(nf)
    ensures var s := SpeedPrefix + nf.text(m);
      !StartsWithIgnoreCase(s, PausePrefix) && StartsWithIgnoreCase(s, SpeedPrefix) && nf.parse(s[6..]) == Some(m)
  {
    var s := SpeedPrefix + nf.text(m);
    assert s[..6] == SpeedPrefix && s[6..] == nf.text(m);
    assert !SameIgnoringCase(s[0], PausePrefix[0]);
  }

  /** Reading the hints' comments back appends the hints, in order, with fresh ids. */
  lemma {:induction false} CommentsOfExport(nf: Numerics, e: EditorState.Editor, items: seq<Item>, hintId: nat -> string, k: nat)
    requires IntTextReadsBack(nf) && TextReadsBack(nf) && EditorState.CacheReady(e)
    ensures ParseComments(nf, e, HintTexts(nf, items), hintId, k).items == e.items + Rehinted(nf, items, hintId, k)
    decreases |items|
  {
    if |items| == 0 {
      assert e.items + [] == e.items;
    } else {
      var cs := HintTexts(nf, items);
      match items[0].shape {
        case PauseShape(ms) =>
          PauseCommentReadsBack(nf, ms);
          assert cs == [PausePrefix + nf.intText(ms)] + HintTexts(nf, items[1..]);
          var mid := ParseComment(nf, e, cs[0], hintId(k));
          assert mid.items == e.items + [Item(hintId(k), false, false, PauseShape(ms))];
          assert cs[1..] == HintTexts(nf, items[1..]);
          CommentsOfExport(nf, mid, items[1..], hintId, k + 1);
        case SpeedShape(m) =>
          SpeedCommentReadsBack(nf, m);
          assert cs == [SpeedPrefix + nf.text(m)] + HintTexts(nf, items[1..]);
          var mid := ParseComment(nf, e, cs[0], hintId(k));
          assert mid.items == e.items + [Item(hintId(k), false, false, SpeedShape(m))];
          assert cs[1..] == HintTexts(nf, items[1..]);
          CommentsOfExport(nf, mid, items[1..], hintId, k + 1);
        case PathShape(_, _, _, _, _, _, _, _) =>
          assert cs == HintTexts(nf, items[1..]);
          CommentsOfExport(nf, e, items[1..], hintId, k);
        case CircleShape(_, _, _, _, _) =>
          assert cs == HintTexts(nf, items[1..]);
          CommentsOfExport(nf, e, items[1..], hintId, k);
      }
    }
  }

  /** Exporting and importing gives back the drawn items, in order and as
      `Reimported` describes, followed by every hint: hints do not keep their places
      among the drawn items. */
  lemma ExportThenImport(nf: Numerics, e: EditorState.Editor, items: seq<Item>, guid: nat -> string, hintId: nat -> string)
    requires XmlTextReadsBack(nf) && IntTextReadsBack(nf) && TextReadsBack(nf)
    ensures ImportSvg(nf, e, ExportSvg(nf, items), guid, hintId).items ==
      ReimportAll(nf, Drawn(items), guid, 0) + Rehinted(nf, items, hintId, 0)
  {
    var root := ExportSvg(nf, items);
    var h := Walk(nf, root, Harvest([], []), guid);
    WalkOfExport(nf, items, Harvest([], []), guid);
    assert h == WalkAll(nf, EmitAll(nf, items), Harvest([], []), guid);
    assert h.items == ReimportAll(nf, Drawn(items), guid, 0);
    assert h.comments == HintTexts(nf, items);
    var grid := GridSize(nf, |h.items|);
    CommentsOfExport(nf, Loaded(nf, e, h.items, grid), items, hintId, 0);
  }

  /** A pause written before a path comes back after it. */
  lemma HintMovesAfterPath(nf: Numerics, e: EditorState.Editor, pause: Item, path: Item, guid: nat -> string, hintId: nat -> string)
    requires XmlTextReadsBack(nf) && IntTextReadsBack(nf) && TextReadsBack(nf)
    requires pause.shape.PauseShape? && path.shape.PathShape?
    ensures var r := ImportSvg(nf, e, ExportSvg(nf, [pause, path]), guid, hintId).items;
      |r| == 2 && r[0].shape.PathShape? && r[1].shape == pause.shape
  {
    ExportThenImport(nf, e, [pause, path], guid, hintId);
    PathThenPause(nf, pause, path, guid, hintId);
  }

  /** The drawn items and the hints of a pause followed by a path. */
  lemma PathThenPause(nf: Numerics, pause: Item, path: Item, guid: nat -> string, hintId: nat -> string)
    requires pause.shape.PauseShape? && path.shape.PathShape?
    ensures var r := ReimportAll(nf, Drawn([pause, path]), guid, 0) + Rehinted(nf, [pause, path], hintId, 0);
      |r| == 2 && r[0].shape.PathShape? && r[1].shape == pause.shape
  {
    assert [pause, path][1..] == [path] && [path][1..] == [];
    assert Drawn([pause, path]) == [path] by {
      assert Drawn([path]) == [path];
    }
    assert Rehinted(nf, [pause, path], hintId, 0) == [Item(hintId(0), false, false, pause.shape)] by {
      assert Rehinted(nf, [path], hintId, 1) == [];
    }
    assert ReimportAll(nf, [path], guid, 0) == [Reimported(nf, path, guid(0))];
  }
}
