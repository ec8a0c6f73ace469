/** Shared vocabulary: optional values, points and rectangles, the numeric conversions
    of the .NET runtime (kept abstract) and the sentinel-based bounding box fold that
    several parts of the editor use. */
module Core {
  import opened Text

  datatype Option<T> = None | Some(value: T)

  datatype Point = Point(x: real, y: real)

  /** An axis-aligned rectangle `(x, y, width, height)`. */
  datatype Rect = Rect(x: real, y: real, width: real, height: real)

  const Origin := Point(0.0, 0.0)
  const EmptyRect := Rect(0.0, 0.0, 0.0, 0.0)

  /** `x * x`, with its sign facts stated once so that proofs can treat the square as
      a value. */
  function Sq(x: real): (r: real)
    ensures r >= 0.0
    ensures x != 0.0 ==> r > 0.0
  {
    assert x != 0.0 ==> (x * x) / x == x;
    x * x
  }

  /** Squared Euclidean distance. */
  function DistSq(a: Point, b: Point): (d: real)
    ensures d >= 0.0
  {
    Sq(a.x - b.x) + Sq(a.y - b.y)
  }

  function Min(a: real, b: real): real { if a <= b then a else b }
  function Max(a: real, b: real): real { if a >= b then a else b }

  /** `Math.Clamp` on integers; the runtime throws when `lo > hi`. */
  function Clamp(v: int, lo: int, hi: int): (r: int)
    requires lo <= hi
    ensures lo <= r <= hi
    ensures lo <= v <= hi ==> r == v
    ensures v < lo ==> r == lo
    ensures v > hi ==> r == hi
  {
    if v < lo then lo else if v > hi then hi else v
  }

  /** `Math.Clamp` on doubles. */
  function ClampReal(v: real, lo: real, hi: real): (r: real)
    requires lo <= hi
    ensures lo <= r <= hi
    ensures lo <= v <= hi ==> r == v
  {
    if v < lo then lo else if v > hi then hi else v
  }

  /** The C# `(int)` cast of a double: truncation toward zero. */
  function Truncate(x: real): (n: int)
    ensures x >= 0.0 ==> n as real <= x < n as real + 1.0
    ensures x < 0.0 ==> n as real - 1.0 < x <= n as real
  {
    if x >= 0.0 then x.Floor else -((-x).Floor)
  }

  /** `double.MaxValue`; `double.MinValue` is its negation. */
  const DMax: real := 179769313486231570814527423731704356798070567525844996598917476803157260780028538760589558632766878171540458953514382464234321326889464182768467546703537516986049910576551282076245490090389328944075868508455133942304583236903222948165808559332123348274797826204144723168738177180919299881250404026184124858368.0

  // ---------------------------------------------------------------------------
  // Numeric conversions of the runtime
  // ---------------------------------------------------------------------------

  /** The runtime's number parsing, formatting and floating-point functions, passed
      around as values because their implementation is not part of this model. */
  datatype Numerics = Numerics(
    parse: string -> Option<real>,    // double.TryParse
    parseInt: string -> Option<int>,  // int.TryParse
    fixed0: real -> string,           // ToString("0")
    fixed2: real -> string,           // ToString("0.##")
    fixed3: real -> string,           // ToString("0.###")
    text: real -> string,             // double.ToString()
    xmlText: real -> string,          // XmlConvert.ToString(double)
    intText: int -> string,           // int.ToString()
    sqrt: real -> real,               // Math.Sqrt
    acos: real -> real)               // Math.Acos

  /** The characters a custom numeric format with only `0`, `#` and `.` can produce. */
  predicate IsNumeral(s: string) {
    |s| > 0 && forall i :: 0 <= i < |s| ==> IsDigit(s[i]) || s[i] == '-' || s[i] == '.'
  }

  /** A value that "0.##" shows exactly: a whole number of hundredths. */
  predicate IsCents(v: real) { (v * 100.0).Floor as real == v * 100.0 }

  /** A value that "0" shows exactly. */
  predicate IsWhole(v: real) { v.Floor as real == v }

  /** A printed number never contains whitespace and is never empty. */
  predicate IsToken(s: string) {
    |s| > 0 && forall i :: 0 <= i < |s| ==> !IsWhiteSpace(s[i])
  }

  /** "0" and "0.##" print digits, a sign and a decimal point only, and the invariant
      parser reads every such output back; exactly for whole numbers and hundredths. */
  ghost predicate FixedFormatsReadBack(nf: Numerics) {
    && (forall v :: IsNumeral(nf.fixed0(v)) && nf.parse(nf.fixed0(v)).Some?)
    && (forall v :: IsNumeral(nf.fixed2(v)) && nf.parse(nf.fixed2(v)).Some?)
    && (forall v :: IsWhole(v) ==> nf.parse(nf.fixed0(v)) == Some(v))
    && (forall v :: IsCents(v) ==> nf.parse(nf.fixed2(v)) == Some(v))
  }

  /** The shortest round-trip `ToString()` of a double reads back to the same value. */
  ghost predicate TextReadsBack(nf: Numerics) {
    forall v :: IsToken(nf.text(v)) && nf.parse(nf.text(v)) == Some(v)
  }

  /** `XmlConvert.ToString(double)` reads back to the same value. */
  ghost predicate XmlTextReadsBack(nf: Numerics) {
    forall v :: IsToken(nf.xmlText(v)) && nf.parse(nf.xmlText(v)) == Some(v)
  }

  ghost predicate IntTextReadsBack(nf: Numerics) {
    forall i :: nf.parseInt(nf.intText(i)) == Some(i)
  }

  /** `Math.Sqrt` is the non-negative square root on non-negative arguments. */
  ghost predicate SqrtIsRoot(nf: Numerics) {
    forall x :: x >= 0.0 ==> nf.sqrt(x) >= 0.0 && nf.sqrt(x) * nf.sqrt(x) == x
  }

  /** What a value becomes after a trip through "0.##" text and back. */
  function Reread(nf: Numerics, v: real): real {
    match nf.parse(nf.fixed2(v))
    case Some(r) => r
    case None => v
  }

  function RereadPoint(nf: Numerics, p: Point): Point {
    Point(Reread(nf, p.x), Reread(nf, p.y))
  }

  lemma RereadCents(nf: Numerics, v: real)
    requires FixedFormatsReadBack(nf) && IsCents(v)
    ensures Reread(nf, v) == v
  {
  }

  lemma SquareMonotone(a: real, b: real)
    requires 0.0 <= a && 0.0 <= b
    ensures a < b ==> a * a < b * b
    ensures a <= b ==> a * a <= b * b
  {
    if a < b {
      var d := b - a;
      assert d > 0.0;
      assert b * b == a * a + (a + b) * d;
      assert (a + b) * d > 0.0;
    }
  }

  lemma SqrtOfSquare(nf: Numerics, v: real)
    requires SqrtIsRoot(nf) && v >= 0.0
    ensures nf.sqrt(v * v) == v
  {
    var r := nf.sqrt(v * v);
    assert r >= 0.0 && r * r == v * v;
    SquareMonotone(r, v);
    SquareMonotone(v, r);
  }

  /** Comparing a root with a non-negative bound is comparing the square with its square. */
  lemma SqrtBelow(nf: Numerics, s: real, bound: real)
    requires SqrtIsRoot(nf) && 0.0 <= s && 0.0 <= bound
    ensures nf.sqrt(s) < bound <==> s < bound * bound
    ensures nf.sqrt(s) <= bound <==> s <= bound * bound
  {
    var r := nf.sqrt(s);
    assert r >= 0.0 && r * r == s;
    SquareMonotone(r, bound);
    SquareMonotone(bound, r);
  }

  // ---------------------------------------------------------------------------
  // Bounding box with the MaxValue / MinValue sentinels
  // ---------------------------------------------------------------------------

  predicate Finite(vs: seq<real>) {
    forall i :: 0 <= i < |vs| ==> -DMax < vs[i] < DMax
  }

  /** The running minimum started at `double.MaxValue`. */
  function Lowest(vs: seq<real>): (m: real)
    ensures m <= DMax
    ensures forall i :: 0 <= i < |vs| ==> m <= vs[i]
    ensures m == DMax || exists i :: 0 <= i < |vs| && m == vs[i]
  {
    if |vs| == 0 then DMax else Min(vs[0], Lowest(vs[1..]))
  }

  /** The running maximum started at `double.MinValue`. */
  function Highest(vs: seq<real>): (m: real)
    ensures m >= -DMax
    ensures forall i :: 0 <= i < |vs| ==> vs[i] <= m
    ensures m == -DMax || exists i :: 0 <= i < |vs| && m == vs[i]
  {
    if |vs| == 0 then -DMax else Max(vs[0], Highest(vs[1..]))
  }

  /** The smallest rectangle holding every contributed coordinate; when no x was
      contributed (the minimum is still the sentinel) the empty rectangle at the origin. */
  function BoundsOf(xs: seq<real>, ys: seq<real>): (r: Rect)
    ensures Finite(xs) && |xs| > 0 ==>
      && (forall i :: 0 <= i < |xs| ==> r.x <= xs[i] <= r.x + r.width)
      && (exists i :: 0 <= i < |xs| && xs[i] == r.x)
      && (exists i :: 0 <= i < |xs| && xs[i] == r.x + r.width)
    ensures Finite(xs) && |xs| > 0 && Finite(ys) && |ys| > 0 ==>
      && (forall i :: 0 <= i < |ys| ==> r.y <= ys[i] <= r.y + r.height)
      && (exists i :: 0 <= i < |ys| && ys[i] == r.y)
      && (exists i :: 0 <= i < |ys| && ys[i] == r.y + r.height)
    ensures Finite(xs) && |xs| > 0 && |ys| == 0 ==> r.y == DMax && r.height == -DMax - DMax
    ensures |xs| == 0 ==> r == EmptyRect
  {
    var minX, minY, maxX, maxY := Lowest(xs), Lowest(ys), Highest(xs), Highest(ys);
    if minX == DMax then EmptyRect
    else Rect(minX, minY, maxX - minX, maxY - minY)
  }

  /** Once both an x and a y were contributed the rectangle has no negative side. */
  lemma BoundsOfNonNegative(xs: seq<real>, ys: seq<real>)
    requires Finite(xs) && Finite(ys) && |xs| > 0 && |ys| > 0
    ensures BoundsOf(xs, ys).width >= 0.0 && BoundsOf(xs, ys).height >= 0.0
  {
    var r := BoundsOf(xs, ys);
    assert r.x <= xs[0] <= r.x + r.width;
    assert r.y <= ys[0] <= r.y + r.height;
  }

  predicate InRect(p: Point, r: Rect) {
    r.x <= p.x <= r.x + r.width && r.y <= p.y <= r.y + r.height
  }
}
