/** `ItemLocationCache`: the canvas cut into a grid of buckets, each bucket holding the
    ids of the items whose bounding box overlaps it, and for every item the list of its
    buckets, so that hit tests only look at the items near a point or a rectangle. */
module LocationCache {
  import opened Text
  import opened Core
  import opened PathItems

  /** A bucket's grid column and row. */
  type Bucket = (int, int)

  datatype Cache = Cache(
    gridX: int, gridY: int, width: real, height: real,
    buckets: map<Bucket, set<string>>,
    itemBuckets: map<string, seq<Bucket>>)

  /** The grid the cache can work with: at least one bucket each way (otherwise
      `Math.Clamp` throws) and a canvas that is not empty. */
  predicate ValidGrid(c: Cache) {
    c.gridX >= 1 && c.gridY >= 1 && c.width != 0.0 && c.height != 0.0
  }

  /** The constructor. */
  function NewCache(gridX: int, gridY: int, width: real, height: real): (c: Cache)
    ensures c.buckets == map[] && c.itemBuckets == map[]
    ensures c.gridX == gridX && c.gridY == gridY && c.width == width && c.height == height
  {
    Cache(gridX, gridY, width, height, map[], map[])
  }

  /** The ids stored in a bucket; none for a bucket never created. */
  function Members(m: map<Bucket, set<string>>, b: Bucket): set<string> {
    if b in m then m[b] else {}
  }

  /** Both directions of the bookkeeping agree: an id is in a bucket exactly when the
      bucket is in that id's list. */
  ghost predicate Consistent(c: Cache) {
    forall id, b :: id in Members(c.buckets, b) <==> id in c.itemBuckets && b in c.itemBuckets[id]
  }

  // ---------------------------------------------------------------------------
  // From coordinates to buckets
  // ---------------------------------------------------------------------------

  /** One coordinate of a bucket: the fraction of the canvas times the grid size,
      truncated by the `(int)` cast and clamped into the grid. */
  function Cell(v: real, extent: real, grid: int): (k: int)
    requires grid >= 1 && extent != 0.0
    ensures 0 <= k < grid
  {
    Clamp(Truncate(v / extent * grid as real), 0, grid - 1)
  }

  /** `GetBucketForPoint`. */
  function BucketForPoint(c: Cache, x: real, y: real): (b: Bucket)
    requires ValidGrid(c)
    ensures 0 <= b.0 < c.gridX && 0 <= b.1 < c.gridY
  {
    (Cell(x, c.width, c.gridX), Cell(y, c.height, c.gridY))
  }

  /** The buckets of column `x0` from row `y0` to row `y1`, in order. */
  function Column(x0: int, y0: int, y1: int): (bs: seq<Bucket>)
    ensures forall b :: b in bs <==> b.0 == x0 && y0 <= b.1 <= y1
    ensures forall i, j :: 0 <= i < j < |bs| ==> bs[i] != bs[j]
    decreases y1 - y0
  {
    if y0 > y1 then [] else [(x0, y0)] + Column(x0, y0 + 1, y1)
  }

  /** The buckets of columns `x0` to `x1`, column by column. */
  function Block(x0: int, x1: int, y0: int, y1: int): (bs: seq<Bucket>)
    ensures forall b :: b in bs <==> x0 <= b.0 <= x1 && y0 <= b.1 <= y1
    ensures forall i, j :: 0 <= i < j < |bs| ==> bs[i] != bs[j]
    decreases x1 - x0
  {
    if x0 > x1 then []
    else
      var col, rest := Column(x0, y0, y1), Block(x0 + 1, x1, y0, y1);
      assert forall i, j :: 0 <= i < |col| && 0 <= j < |rest| ==> col[i] != rest[j] by {
        forall i, j | 0 <= i < |col| && 0 <= j < |rest| ensures col[i] != rest[j] {
          assert col[i] in col && rest[j] in rest;
        }
      }
      col + rest
  }

  /** `GetBucketsForRect`: every bucket between the bucket of the top-left corner and
      the bucket of the bottom-right corner, each once. */
  function BucketsForRect(c: Cache, x: real, y: real, w: real, h: real): (bs: seq<Bucket>)
    requires ValidGrid(c)
    ensures forall b :: b in bs <==>
      && Cell(x, c.width, c.gridX) <= b.0 <= Cell(x + w, c.width, c.gridX)
      && Cell(y, c.height, c.gridY) <= b.1 <= Cell(y + h, c.height, c.gridY)
    ensures forall i, j :: 0 <= i < j < |bs| ==> bs[i] != bs[j]
  {
    Block(Cell(x, c.width, c.gridX), Cell(x + w, c.width, c.gridX),
          Cell(y, c.height, c.gridY), Cell(y + h, c.height, c.gridY))
  }

  /** The coordinate pairs `GetPathBounds` reads from the space-separated tokens: a
      token that parses, followed by one that parses, is a pair and both are consumed;
      otherwise the scan moves one token on. */
  function TokenPairs(nf: Numerics, ts: seq<string>): (ps: seq<Point>)
    ensures |ps| <= |ts| / 2
    decreases |ts|
  {
    if |ts| < 2 then []
    else if nf.parse(ts[0]).Some? && nf.parse(ts[1]).Some? then
      [Point(nf.parse(ts[0]).value, nf.parse(ts[1]).value)] + TokenPairs(nf, ts[2..])
    else TokenPairs(nf, ts[1..])
  }

  function XsOfPoints(ps: seq<Point>): (xs: seq<real>)
    ensures |xs| == |ps| && forall i :: 0 <= i < |ps| ==> xs[i] == ps[i].x
  {
    if |ps| == 0 then [] else [ps[0].x] + XsOfPoints(ps[1..])
  }

  function YsOfPoints(ps: seq<Point>): (ys: seq<real>)
    ensures |ys| == |ps| && forall i :: 0 <= i < |ps| ==> ys[i] == ps[i].y
  {
    if |ps| == 0 then [] else [ps[0].y] + YsOfPoints(ps[1..])
  }

  /** `GetPathBounds`: the box of the pairs found in the path data, the empty box at
      the origin when there is none. */
  function GetPathBounds(nf: Numerics, d: string): (r: Rect)
    ensures |TokenPairs(nf, Words(d, {' '}))| == 0 ==> r == EmptyRect
  {
    var ps := TokenPairs(nf, Words(d, {' '}));
    BoundsOf(XsOfPoints(ps), YsOfPoints(ps))
  }

  predicate FinitePoints(ps: seq<Point>) {
    forall i :: 0 <= i < |ps| ==> -DMax < ps[i].x < DMax && -DMax < ps[i].y < DMax
  }

  /** Every pair `GetPathBounds` reads lies in the box it returns. */
  lemma GetPathBoundsHoldPairs(nf: Numerics, d: string, i: nat)
    requires i < |TokenPairs(nf, Words(d, {' '}))|
    requires FinitePoints(TokenPairs(nf, Words(d, {' '})))
    ensures InRect(TokenPairs(nf, Words(d, {' '}))[i], GetPathBounds(nf, d))
  {
    var ps := TokenPairs(nf, Words(d, {' '}));
    var xs, ys := XsOfPoints(ps), YsOfPoints(ps);
    assert Finite(xs) && Finite(ys);
    assert xs[i] == ps[i].x && ys[i] == ps[i].y;
  }

  /** The box an item is bucketed by: a circle's enclosing square, a path's cached
      bounds or else the estimate from its data; hints have none. */
  function ItemBox(nf: Numerics, it: Item): (r: Option<Rect>)
    ensures r.None? <==> !(it.shape.PathShape? || it.shape.CircleShape?)
  {
    match it.shape
    case CircleShape(cx, cy, rad, _, _) => Some(Rect(cx - rad, cy - rad, rad * 2.0, rad * 2.0))
    case PathShape(d, _, _, _, _, _, _, bounds) =>
      Some(if bounds.Some? then bounds.value else GetPathBounds(nf, d))
    case _ => None
  }

  /** `GetBucketsForItem`. */
  function BucketsForItem(nf: Numerics, c: Cache, it: Item): (bs: seq<Bucket>)
    requires ValidGrid(c)
    ensures ItemBox(nf, it).None? ==> bs == []
    ensures forall i, j :: 0 <= i < j < |bs| ==> bs[i] != bs[j]
  {
    match ItemBox(nf, it)
    case None => []
    case Some(r) => BucketsForRect(c, r.x, r.y, r.width, r.height)
  }

  // ---------------------------------------------------------------------------
  // Updating the buckets
  // ---------------------------------------------------------------------------

  /** Takes `id` out of each listed bucket that exists; creates none. */
  function Strip(m: map<Bucket, set<string>>, bs: seq<Bucket>, id: string): (r: map<Bucket, set<string>>)
    ensures r.Keys == m.Keys
    ensures forall b :: Members(r, b) == (if b in bs then Members(m, b) - {id} else Members(m, b))
    decreases |bs|
  {
    if |bs| == 0 then m
    else
      var m1 := if bs[0] in m then m[bs[0] := m[bs[0]] - {id}] else m;
      Strip(m1, bs[1..], id)
  }

  /** Puts `id` into each listed bucket, creating the buckets that do not exist yet. */
  function Insert(m: map<Bucket, set<string>>, bs: seq<Bucket>, id: string): (r: map<Bucket, set<string>>)
    ensures forall b :: b in r <==> b in m || b in bs
    ensures forall b :: Members(r, b) == Members(m, b) + (if b in bs then {id} else {})
    decreases |bs|
  {
    if |bs| == 0 then m
    else Insert(m[bs[0] := Members(m, bs[0]) + {id}], bs[1..], id)
  }

  /** `Remove(itemId)`: an id the cache does not list is ignored. */
  function Remove(c: Cache, id: string): (r: Cache)
    ensures r.gridX == c.gridX && r.gridY == c.gridY && r.width == c.width && r.height == c.height
    ensures id !in r.itemBuckets
    ensures id !in c.itemBuckets ==> r == c
    ensures forall other :: other != id ==>
      (other in r.itemBuckets <==> other in c.itemBuckets) &&
      (other in c.itemBuckets ==> r.itemBuckets[other] == c.itemBuckets[other])
    ensures forall other, b :: other != id ==> (other in Members(r.buckets, b) <==> other in Members(c.buckets, b))
  {
    if id in c.itemBuckets then
      c.(buckets := Strip(c.buckets, c.itemBuckets[id], id), itemBuckets := c.itemBuckets - {id})
    else c
  }

  /** Records `id` in the buckets `bs`, with no removal first. */
  function Place(c: Cache, id: string, bs: seq<Bucket>): (r: Cache)
    ensures r.gridX == c.gridX && r.gridY == c.gridY && r.width == c.width && r.height == c.height
    ensures r.itemBuckets == c.itemBuckets[id := bs]
    ensures forall b :: Members(r.buckets, b) == Members(c.buckets, b) + (if b in bs then {id} else {})
  {
    c.(itemBuckets := c.itemBuckets[id := bs], buckets := Insert(c.buckets, bs, id))
  }

  /** `AddOrUpdate(item)`: forget the item, then record it in the buckets of its box. */
  function AddOrUpdate(nf: Numerics, c: Cache, it: Item): (r: Cache)
    requires ValidGrid(c)
    ensures ValidGrid(r) && r.gridX == c.gridX && r.gridY == c.gridY && r.width == c.width && r.height == c.height
    ensures it.id in r.itemBuckets && r.itemBuckets[it.id] == BucketsForItem(nf, c, it)
    ensures forall b :: b in BucketsForItem(nf, c, it) ==> it.id in Members(r.buckets, b)
    ensures forall other, b :: other != it.id ==> (other in Members(r.buckets, b) <==> other in Members(c.buckets, b))
  {
    Place(Remove(c, it.id), it.id, BucketsForItem(nf, c, it))
  }

  /** `BuildBulk(items)`: clear, then record every item, again with no removal. */
  function BuildBulk(nf: Numerics, c: Cache, items: seq<Item>): (r: Cache)
    requires ValidGrid(c)
    ensures ValidGrid(r) && r.gridX == c.gridX && r.gridY == c.gridY && r.width == c.width && r.height == c.height
  {
    PlaceAll(nf, c.(buckets := map[], itemBuckets := map[]), items)
  }

  function PlaceAll(nf: Numerics, c: Cache, items: seq<Item>): (r: Cache)
    requires ValidGrid(c)
    ensures ValidGrid(r) && r.gridX == c.gridX && r.gridY == c.gridY && r.width == c.width && r.height == c.height
    decreases |items|
  {
    if |items| == 0 then c
    else PlaceAll(nf, Place(c, items[0].id, BucketsForItem(nf, c, items[0])), items[1..])
  }

  /** `AddOrUpdate` applied to each item in turn. */
  function AddAll(nf: Numerics, c: Cache, items: seq<Item>): (r: Cache)
    requires ValidGrid(c)
    ensures ValidGrid(r) && r.gridX == c.gridX && r.gridY == c.gridY && r.width == c.width && r.height == c.height
    decreases |items|
  {
    if |items| == 0 then c else AddAll(nf, AddOrUpdate(nf, c, items[0]), items[1..])
  }

  // ---------------------------------------------------------------------------
  // Queries
  // ---------------------------------------------------------------------------

  /** `GetItemsAt(x, y)`: the ids in the bucket of the point. */
  function ItemsAt(c: Cache, x: real, y: real): (ids: set<string>)
    requires ValidGrid(c)
    ensures ids == Members(c.buckets, BucketForPoint(c, x, y))
  {
    var b := BucketForPoint(c, x, y);
    if b in c.buckets then c.buckets[b] else {}
  }

  /** The union of the listed buckets. */
  function Gather(m: map<Bucket, set<string>>, bs: seq<Bucket>): (ids: set<string>)
    ensures forall id :: id in ids <==> exists i :: 0 <= i < |bs| && id in Members(m, bs[i])
    decreases |bs|
  {
    if |bs| == 0 then {}
    else
      var rest := Gather(m, bs[1..]);
      assert forall id :: id in rest <==> exists i :: 1 <= i < |bs| && id in Members(m, bs[i]) by {
        forall id ensures id in rest <==> exists i :: 1 <= i < |bs| && id in Members(m, bs[i]) {
          if id in rest {
            var k :| 0 <= k < |bs[1..]| && id in Members(m, bs[1..][k]);
            assert bs[k + 1] == bs[1..][k];
          }
          if exists i :: 1 <= i < |bs| && id in Members(m, bs[i]) {
            var k :| 1 <= k < |bs| && id in Members(m, bs[k]);
            assert bs[1..][k - 1] == bs[k];
          }
        }
      }
      Members(m, bs[0]) + rest
  }

  /** `GetItemsInRect(x, y, w, h)`: the ids in any bucket the rectangle overlaps. */
  function ItemsInRect(c: Cache, x: real, y: real, w: real, h: real): (ids: set<string>)
    requires ValidGrid(c)
    ensures forall id :: id in ids <==>
      exists b :: b in BucketsForRect(c, x, y, w, h) && id in Members(c.buckets, b)
  {
    var bs := BucketsForRect(c, x, y, w, h);
    var ids := Gather(c.buckets, bs);
    assert forall id :: id in ids <==> exists b :: b in bs && id in Members(c.buckets, b) by {
      forall id ensures id in ids <==> exists b :: b in bs && id in Members(c.buckets, b) {
        if exists b :: b in bs && id in Members(c.buckets, b) {
          var b :| b in bs && id in Members(c.buckets, b);
          var i :| 0 <= i < |bs| && bs[i] == b;
        }
      }
    }
    ids
  }

  // ---------------------------------------------------------------------------
  // Properties
  // ---------------------------------------------------------------------------

  lemma EmptyIsConsistent(gridX: int, gridY: int, width: real, height: real)
    ensures Consistent(NewCache(gridX, gridY, width, height))
  {
  }

  /** After `Remove` on a consistent cache the id is in no bucket, and the cache is
      still consistent. */
  lemma RemoveForgets(c: Cache, id: string)
    requires Consistent(c)
    ensures Consistent(Remove(c, id))
    ensures forall b :: id !in Members(Remove(c, id).buckets, b)
  {
    var r := Remove(c, id);
    if id in c.itemBuckets {
      forall b ensures id !in Members(r.buckets, b) {
        assert id in Members(c.buckets, b) ==> b in c.itemBuckets[id];
      }
    }
  }

  /** `AddOrUpdate` keeps a consistent cache consistent, and the item ends up in
      exactly the buckets of its box. */
  lemma AddOrUpdateConsistent(nf: Numerics, c: Cache, it: Item)
    requires ValidGrid(c) && Consistent(c)
    ensures Consistent(AddOrUpdate(nf, c, it))
    ensures forall b :: it.id in Members(AddOrUpdate(nf, c, it).buckets, b) <==> b in BucketsForItem(nf, c, it)
  {
    RemoveForgets(c, it.id);
  }

  /** Adding items one by one keeps a consistent cache consistent. */
  lemma {:induction false} AddAllConsistent(nf: Numerics, c: Cache, items: seq<Item>)
    requires ValidGrid(c) && Consistent(c)
    ensures Consistent(AddAll(nf, c, items))
    decreases |items|
  {
    if |items| > 0 {
      AddOrUpdateConsistent(nf, c, items[0]);
      AddAllConsistent(nf, AddOrUpdate(nf, c, items[0]), items[1..]);
    }
  }

  /** Recording an item a second time changes nothing. */
  lemma AddOrUpdateIdempotent(nf: Numerics, c: Cache, it: Item)
    requires ValidGrid(c)
    ensures AddOrUpdate(nf, AddOrUpdate(nf, c, it), it) == AddOrUpdate(nf, c, it)
  {
    var r1 := AddOrUpdate(nf, c, it);
    var bs := BucketsForItem(nf, c, it);
    assert BucketsForItem(nf, r1, it) == bs;
    var rm := r1.(buckets := Strip(r1.buckets, bs, it.id), itemBuckets := r1.itemBuckets - {it.id});
    assert Remove(r1, it.id) == rm;
    forall b | b in bs ensures b in r1.buckets && it.id in r1.buckets[b] {
      assert it.id in Members(r1.buckets, b);
    }
    StripThenInsert(r1.buckets, bs, it.id);
    PutBack(r1.itemBuckets, it.id, bs);
    assert Place(rm, it.id, bs) == r1;
  }

  /** Two bucket maps with the same buckets and the same members are equal. */
  lemma SameBuckets(m1: map<Bucket, set<string>>, m2: map<Bucket, set<string>>)
    requires m1.Keys == m2.Keys && forall b :: Members(m1, b) == Members(m2, b)
    ensures m1 == m2
  {
    forall b | b in m1 ensures m1[b] == m2[b] {
      assert Members(m1, b) == Members(m2, b);
    }
  }

  /** Putting an id back into buckets it was taken out of restores them. */
  lemma StripThenInsert(m: map<Bucket, set<string>>, bs: seq<Bucket>, id: string)
    requires forall b :: b in bs ==> b in m && id in m[b]
    ensures Insert(Strip(m, bs, id), bs, id) == m
  {
    var st := Strip(m, bs, id);
    var r := Insert(st, bs, id);
    assert r.Keys == m.Keys by {
      assert st.Keys == m.Keys;
      forall b | b in r ensures b in m {
        assert b in st || b in bs;
      }
    }
    assert forall b :: Members(r, b) == Members(m, b) by {
      forall b ensures Members(r, b) == Members(m, b) {
        if b in bs {
          assert id in Members(m, b);
          assert Members(st, b) == Members(m, b) - {id};
        } else {
          assert Members(st, b) == Members(m, b);
        }
      }
    }
    SameBuckets(r, m);
  }

  /** Dropping an id's entry and writing the same entry again restores the map. */
  lemma PutBack(ib: map<string, seq<Bucket>>, id: string, bs: seq<Bucket>)
    requires id in ib && ib[id] == bs
    ensures (ib - {id})[id := bs] == ib
  {
  }

  /** Unique ids, as the editor gives them. */
  predicate DistinctIds(items: seq<Item>) {
    forall i, j :: 0 <= i < j < |items| ==> items[i].id != items[j].id
  }

  /** With unique ids `BuildBulk` is the same as clearing and adding the items one by
      one. */
  lemma BuildBulkIsAddAll(nf: Numerics, c: Cache, items: seq<Item>)
    requires ValidGrid(c) && DistinctIds(items)
    ensures BuildBulk(nf, c, items) == AddAll(nf, c.(buckets := map[], itemBuckets := map[]), items)
  {
    PlaceAllIsAddAll(nf, c.(buckets := map[], itemBuckets := map[]), items);
  }

  lemma {:induction false} PlaceAllIsAddAll(nf: Numerics, c: Cache, items: seq<Item>)
    requires ValidGrid(c) && DistinctIds(items)
    requires forall i :: 0 <= i < |items| ==> items[i].id !in c.itemBuckets
    ensures PlaceAll(nf, c, items) == AddAll(nf, c, items)
    decreases |items|
  {
    if |items| > 0 {
      var it := items[0];
      assert Remove(c, it.id) == c;
      var c1 := AddOrUpdate(nf, c, it);
      assert c1 == Place(c, it.id, BucketsForItem(nf, c, it));
      forall i | 0 <= i < |items[1..]| ensures items[1..][i].id !in c1.itemBuckets {
        assert items[1..][i] == items[i + 1];
      }
      PlaceAllIsAddAll(nf, c1, items[1..]);
    }
  }

  /** The `(int)` cast never reverses an order. */
  lemma TruncateMonotone(a: real, b: real)
    requires a <= b
    ensures Truncate(a) <= Truncate(b)
  {
  }

  /** On a canvas of positive size a larger coordinate never falls in an earlier cell. */
  lemma CellMonotone(u: real, v: real, extent: real, grid: int)
    requires grid >= 1 && extent > 0.0 && u <= v
    ensures Cell(u, extent, grid) <= Cell(v, extent, grid)
  {
    var g := grid as real;
    var a, b := u / extent, v / extent;
    QuotientMonotone(u, v, extent);
    ScaleMonotone(a, b, g);
    TruncateMonotone(a * g, b * g);
  }

  lemma QuotientMonotone(u: real, v: real, e: real)
    requires e > 0.0 && u <= v
    ensures u / e <= v / e
  {
    var a, b := u / e, v / e;
    assert a * e == u && b * e == v;
    if a > b {
      ScaleMonotone(b, a, e);
    }
  }

  lemma ScaleMonotone(a: real, b: real, g: real)
    requires a <= b && g > 0.0
    ensures a * g <= b * g
    ensures a < b ==> a * g < b * g
  {
    assert b * g - a * g == (b - a) * g;
  }

  /** On a canvas of positive size every point of a rectangle lies in one of the
      rectangle's buckets. */
  lemma PointInRectBuckets(c: Cache, p: Point, r: Rect)
    requires ValidGrid(c) && c.width > 0.0 && c.height > 0.0 && InRect(p, r)
    ensures BucketForPoint(c, p.x, p.y) in BucketsForRect(c, r.x, r.y, r.width, r.height)
  {
    CellMonotone(r.x, p.x, c.width, c.gridX);
    CellMonotone(p.x, r.x + r.width, c.width, c.gridX);
    CellMonotone(r.y, p.y, c.height, c.gridY);
    CellMonotone(p.y, r.y + r.height, c.height, c.gridY);
  }

  /** No false negatives: once an item is recorded, a hit test at any point of its box
      reports it, and so does a rectangle query around that point. */
  lemma RecordedItemIsFound(nf: Numerics, c: Cache, it: Item, p: Point)
    requires ValidGrid(c) && c.width > 0.0 && c.height > 0.0
    requires ItemBox(nf, it).Some? && InRect(p, ItemBox(nf, it).value)
    ensures it.id in ItemsAt(AddOrUpdate(nf, c, it), p.x, p.y)
    ensures it.id in ItemsInRect(AddOrUpdate(nf, c, it), p.x, p.y, 0.0, 0.0)
  {
    var r := ItemBox(nf, it).value;
    var a := AddOrUpdate(nf, c, it);
    PointInRectBuckets(c, p, r);
    var b := BucketForPoint(c, p.x, p.y);
    assert b == BucketForPoint(a, p.x, p.y);
    assert b in BucketsForRect(a, p.x, p.y, 0.0, 0.0);
  }
}
