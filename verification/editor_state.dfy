/** `PathEditorState`: the ordered list of diagram items, the selection, the dirty flag,
    the editing mode, the viewport and the optional location cache the editor keeps in
    step with the items. Items are objects in the editor and the selection holds
    references to them; here an item is known by its id, and an item deleted while it
    is selected lives on in the selection, which can still restyle it, simplify it and
    put it back into the cache. */
module EditorState {
  import opened Text
  import opened Core
  import opened PathItems
  import LocationCache
  import PathBounds
  import PathData
  import Smoothing

  datatype EditorMode = SelectMode | DrawingMode | AnimationMode

  /** `selected` names the selection in order; `detached` holds the deleted items the
      selection still refers to, which the list no longer does. */
  datatype Editor = Editor(
    items: seq<Item>,
    selected: seq<string>,
    detached: seq<Item>,
    dirty: bool,
    editing: bool,
    mode: EditorMode,
    zoom: real, offsetX: real, offsetY: real,
    cache: Option<LocationCache.Cache>)

  /** A new editor: no items, drawing mode, zoom 1 at the origin, no cache. */
  const Initial := Editor([], [], [], false, false, DrawingMode, 1.0, 0.0, 0.0, None)

  /** Pointer events are ignored while the diagram animates. */
  predicate IgnoresPointerEvents(e: Editor) { e.mode == AnimationMode }

  /** A cache, if there is one, that can bucket items. */
  predicate CacheReady(e: Editor) {
    e.cache.None? || LocationCache.ValidGrid(e.cache.value)
  }

  predicate HasId(items: seq<Item>, id: string) {
    exists i :: 0 <= i < |items| && items[i].id == id
  }

  predicate UniqueIds(items: seq<Item>) {
    forall i, j :: 0 <= i < j < |items| ==> items[i].id != items[j].id
  }

  /** The `Selected` flags agree with the selection list. */
  predicate SelectionAgrees(e: Editor) {
    forall i :: 0 <= i < |e.items| ==> (e.items[i].selected <==> e.items[i].id in e.selected)
  }

  /** `Items.IndexOf(item)`: the first position of the item, or -1. */
  function IndexOfId(items: seq<Item>, id: string): (k: int)
    ensures -1 <= k < |items|
    ensures k == -1 <==> !HasId(items, id)
    ensures k >= 0 ==> items[k].id == id && forall i :: 0 <= i < k ==> items[i].id != id
  {
    if |items| == 0 then -1
    else if items[0].id == id then 0
    else
      var k := IndexOfId(items[1..], id);
      assert HasId(items, id) ==> HasId(items[1..], id) by {
        if HasId(items, id) {
          var i :| 0 <= i < |items| && items[i].id == id;
          assert items[1..][i - 1] == items[i];
        }
      }
      if k == -1 then -1 else k + 1
  }

  function RemoveAt<T>(s: seq<T>, k: nat): (r: seq<T>)
    requires k < |s|
    ensures |r| == |s| - 1
    ensures forall i :: 0 <= i < k ==> r[i] == s[i]
    ensures forall i :: k <= i < |r| ==> r[i] == s[i + 1]
  {
    s[..k] + s[k + 1..]
  }

  function InsertAt<T>(s: seq<T>, k: nat, x: T): (r: seq<T>)
    requires k <= |s|
    ensures |r| == |s| + 1 && r[k] == x
    ensures forall i :: 0 <= i < k ==> r[i] == s[i]
    ensures forall i :: k < i < |r| ==> r[i] == s[i - 1]
  {
    s[..k] + [x] + s[k..]
  }

  lemma RemoveInserted<T>(s: seq<T>, k: nat, x: T)
    requires k <= |s|
    ensures RemoveAt(InsertAt(s, k, x), k) == s
  {
  }

  lemma InsertRemoved<T>(s: seq<T>, k: nat)
    requires k < |s|
    ensures InsertAt(RemoveAt(s, k), k, s[k]) == s
  {
  }

  lemma MultisetOfRemoveAt<T>(s: seq<T>, k: nat)
    requires k < |s|
    ensures multiset(RemoveAt(s, k)) + multiset{s[k]} == multiset(s)
  {
    assert s == s[..k] + [s[k]] + s[k + 1..];
  }

  lemma MultisetOfInsertAt<T>(s: seq<T>, k: nat, x: T)
    requires k <= |s|
    ensures multiset(InsertAt(s, k, x)) == multiset(s) + multiset{x}
  {
    assert s == s[..k] + s[k..];
  }

  // ---------------------------------------------------------------------------
  // The location cache, when there is one
  // ---------------------------------------------------------------------------

  /** `LocationCache?.AddOrUpdate(item)`. */
  function Recache(nf: Numerics, cache: Option<LocationCache.Cache>, it: Item): (r: Option<LocationCache.Cache>)
    requires cache.None? || LocationCache.ValidGrid(cache.value)
    ensures r.None? <==> cache.None?
    ensures r.Some? ==> LocationCache.ValidGrid(r.value)
  {
    match cache
    case None => None
    case Some(c) => Some(LocationCache.AddOrUpdate(nf, c, it))
  }

  /** `LocationCache?.Remove(id)`. */
  function Uncache(cache: Option<LocationCache.Cache>, id: string): (r: Option<LocationCache.Cache>)
    ensures r.None? <==> cache.None?
    ensures (cache.None? || LocationCache.ValidGrid(cache.value)) ==> (r.None? || LocationCache.ValidGrid(r.value))
  {
    match cache
    case None => None
    case Some(c) => Some(LocationCache.Remove(c, id))
  }

  // ---------------------------------------------------------------------------
  // The item list
  // ---------------------------------------------------------------------------

  /** A path whose cached bounds are `b`. */
  function WithBoundsOf(p: Shape, b: Rect): (q: Shape)
    requires p.PathShape?
    ensures q.PathShape? && q.bounds == Some(b) && q.d == p.d
  {
    PathShape(p.d, p.stroke, p.strokeWidth, p.opacity, p.lineType, p.lineCap, p.lineJoin, Some(b))
  }

  /** The item as `Add` stores it: a path gets the bounds of its data. */
  function Bounded(nf: Numerics, it: Item): (r: Item)
    ensures r.id == it.id && r.selected == it.selected && r.highlight == it.highlight
    ensures !IsPath(it) ==> r == it
    ensures IsPath(it) ==> IsPath(r) && r.shape.d == it.shape.d &&
                           r.shape.bounds == Some(PathBounds.GetBounds(nf, it.shape.d))
  {
    if IsPath(it) then it.(shape := WithBoundsOf(it.shape, PathBounds.GetBounds(nf, it.shape.d))) else it
  }

  /** `Add(item)`, all three overloads: a path first gets its bounds; the item goes at
      the end, into the cache, and the diagram is dirty. An item the selection held
      after its deletion is listed again, so it is no longer detached. */
  function Add(nf: Numerics, e: Editor, it: Item): (r: Editor)
    requires CacheReady(e)
    ensures CacheReady(r)
    ensures r.items == e.items + [Bounded(nf, it)]
    ensures r.dirty && r.selected == e.selected && r.mode == e.mode && r.editing == e.editing
    ensures r.cache.Some? <==> e.cache.Some?
    ensures r.cache.Some? ==> r.cache.value == LocationCache.AddOrUpdate(nf, e.cache.value, Bounded(nf, it))
    ensures r.detached == Keep(e.detached, [it.id])
  {
    var b := Bounded(nf, it);
    e.(items := e.items + [b], detached := Keep(e.detached, [it.id]), cache := Recache(nf, e.cache, b), dirty := true)
  }

  /** `InsertBefore(reference, newItem)`: at the reference's position, or at the end if
      it is not listed. The item is stored as given: no bounds, no cache update. */
  function InsertBefore(e: Editor, refId: string, it: Item): (r: Editor)
    ensures r == e.(items := r.items, detached := Keep(e.detached, [it.id]), dirty := true)
    ensures multiset(r.items) == multiset(e.items) + multiset{it}
    ensures !HasId(e.items, refId) ==> r.items == e.items + [it]
    ensures HasId(e.items, refId) ==> var k := IndexOfId(e.items, refId);
      r.items[k] == it && r.items[k + 1] == e.items[k] && RemoveAt(r.items, k) == e.items
  {
    var k := IndexOfId(e.items, refId);
    var detached := Keep(e.detached, [it.id]);
    if k < 0 then e.(items := e.items + [it], detached := detached, dirty := true)
    else
      MultisetOfInsertAt(e.items, k, it);
      RemoveInserted(e.items, k, it);
      e.(items := InsertAt(e.items, k, it), detached := detached, dirty := true)
  }

  /** `Delete(item)`: only an item that is listed is removed, from the list and the
      cache, and only then is the diagram dirty. A selected item stays in the selection,
      which now holds it detached. */
  function Delete(e: Editor, id: string): (r: Editor)
    ensures !HasId(e.items, id) ==> r == e
    ensures HasId(e.items, id) ==>
      var k := IndexOfId(e.items, id);
      && r == e.(items := r.items, detached := r.detached, cache := Uncache(e.cache, id), dirty := true)
      && r.items == RemoveAt(e.items, k)
      && (id in e.selected ==> r.detached == e.detached + [e.items[k]])
      && (id !in e.selected ==> r.detached == e.detached)
    ensures CacheReady(e) ==> CacheReady(r)
  {
    var k := IndexOfId(e.items, id);
    if k < 0 then e
    else
      var held := if id in e.selected then e.detached + [e.items[k]] else e.detached;
      e.(items := RemoveAt(e.items, k), detached := held, cache := Uncache(e.cache, id), dirty := true)
  }

  function DeleteAll(e: Editor, ids: seq<string>): (r: Editor)
    ensures r.selected == e.selected && r.mode == e.mode && r.editing == e.editing
    ensures CacheReady(e) ==> CacheReady(r)
    decreases |ids|
  {
    if |ids| == 0 then e else DeleteAll(Delete(e, ids[0]), ids[1..])
  }

  /** `DeleteSelected()`: every selected item in turn; the selection list itself is
      left as it was. */
  function DeleteSelected(e: Editor): (r: Editor)
    ensures |e.selected| == 0 ==> r == e
    ensures r.selected == e.selected
    ensures CacheReady(e) ==> CacheReady(r)
  {
    if |e.selected| == 0 then e else DeleteAll(e, e.selected)
  }

  /** `Move(item, delta)`: to `index + delta` clamped into the list; nothing happens for
      an unlisted item or when the clamped position is the current one. */
  function Move(e: Editor, id: string, delta: int): (r: Editor)
    ensures !HasId(e.items, id) ==> r == e
    ensures HasId(e.items, id) ==>
      var k := IndexOfId(e.items, id);
      var t := Clamp(k + delta, 0, |e.items| - 1);
      && (t == k ==> r == e)
      && (t != k ==> r == e.(items := r.items, dirty := true) && |r.items| == |e.items| &&
                     r.items[t] == e.items[k] && RemoveAt(r.items, t) == RemoveAt(e.items, k))
    ensures multiset(r.items) == multiset(e.items)
  {
    var k := IndexOfId(e.items, id);
    if k < 0 then e
    else
      var t := Clamp(k + delta, 0, |e.items| - 1);
      if t == k then e
      else
        var rest := RemoveAt(e.items, k);
        MultisetOfRemoveAt(e.items, k);
        MultisetOfInsertAt(rest, t, e.items[k]);
        RemoveInserted(rest, t, e.items[k]);
        e.(items := InsertAt(rest, t, e.items[k]), dirty := true)
  }

  // ---------------------------------------------------------------------------
  // Selection, mode and viewport
  // ---------------------------------------------------------------------------

  /** Every item with its `Selected` flag cleared. */
  function Unselected(items: seq<Item>): (r: seq<Item>)
    ensures |r| == |items| && forall i :: 0 <= i < |items| ==> r[i] == items[i].(selected := false)
  {
    seq(|items|, i requires 0 <= i < |items| => items[i].(selected := false))
  }

  /** Sets the `Selected` flag of the items carrying `id`. */
  function Mark(items: seq<Item>, id: string): (r: seq<Item>)
    ensures |r| == |items|
    ensures forall i :: 0 <= i < |items| ==> r[i] == items[i].(selected := items[i].selected || items[i].id == id)
  {
    seq(|items|, i requires 0 <= i < |items| => items[i].(selected := items[i].selected || items[i].id == id))
  }

  function MarkAll(items: seq<Item>, ids: seq<string>): (r: seq<Item>)
    ensures |r| == |items|
    ensures forall i :: 0 <= i < |items| ==> r[i] == items[i].(selected := items[i].selected || items[i].id in ids)
    decreases |ids|
  {
    if |ids| == 0 then items else MarkAll(Mark(items, ids[0]), ids[1..])
  }

  /** `Select(item)`: with no item nothing is selected; otherwise exactly that item.
      The item handed in is a listed one, so no detached item survives the new
      selection. */
  function Select(e: Editor, target: Option<string>): (r: Editor)
    ensures r == e.(items := r.items, selected := r.selected, detached := [])
    ensures target.None? ==> r.selected == [] && forall i :: 0 <= i < |r.items| ==> !r.items[i].selected
    ensures target.Some? ==> (r.selected == [target.value] &&
      forall i :: 0 <= i < |r.items| ==> (r.items[i].selected <==> r.items[i].id == target.value))
    ensures |r.items| == |e.items| && forall i :: 0 <= i < |e.items| ==> r.items[i] == e.items[i].(selected := r.items[i].selected)
    ensures SelectionAgrees(r)
  {
    match target
    case None => e.(items := Unselected(e.items), selected := [], detached := [])
    case Some(id) => e.(items := Mark(Unselected(e.items), id), selected := [id], detached := [])
  }

  /** `SelectMultiple(items)`: exactly the given items, in the given order; as with
      `Select` they are listed ones. */
  function SelectMultiple(e: Editor, ids: seq<string>): (r: Editor)
    ensures r == e.(items := r.items, selected := ids, detached := [])
    ensures |r.items| == |e.items|
    ensures forall i :: 0 <= i < |e.items| ==> r.items[i] == e.items[i].(selected := e.items[i].id in ids)
    ensures SelectionAgrees(r)
  {
    e.(items := MarkAll(Unselected(e.items), ids), selected := ids, detached := [])
  }

  /** `SetMode(mode)`: drawing and animating drop the selection and stop editing;
      selecting keeps both. */
  function SetMode(e: Editor, m: EditorMode): (r: Editor)
    ensures r.mode == m && r.items == (if m == SelectMode then e.items else Select(e, None).items)
    ensures m == SelectMode ==> r == e.(mode := m)
    ensures m != SelectMode ==> r.selected == [] && r.detached == [] && !r.editing && forall i :: 0 <= i < |r.items| ==> !r.items[i].selected
  {
    match m
    case DrawingMode => Select(e, None).(editing := false, mode := m)
    case AnimationMode => Select(e.(editing := false), None).(mode := m)
    case SelectMode => e.(mode := m)
  }

  /** `ToggleEditingSelectedPaths()`. */
  function ToggleEditing(e: Editor): (r: Editor)
    ensures r == e.(editing := r.editing)
    ensures |e.selected| == 0 ==> !r.editing
    ensures |e.selected| > 0 ==> r.editing == !e.editing
  {
    if |e.selected| == 0 then e.(editing := false) else e.(editing := !e.editing)
  }

  /** `New()`: no items, no selection, nothing unsaved. The cache is left alone. */
  function New(e: Editor): (r: Editor)
    ensures r.items == [] && r.selected == [] && r.detached == [] && !r.dirty
    ensures r == e.(items := [], selected := [], detached := [], dirty := false)
  {
    e.(items := [], selected := [], detached := [], dirty := false)
  }

  /** `MarkSaved()`. */
  function MarkSaved(e: Editor): (r: Editor)
    ensures !r.dirty && r == e.(dirty := false)
  {
    e.(dirty := false)
  }

  /** `SetViewport(zoom, ox, oy)`. */
  function SetViewport(e: Editor, zoom: real, ox: real, oy: real): (r: Editor)
    ensures r.zoom == zoom && r.offsetX == ox && r.offsetY == oy
    ensures r == e.(zoom := zoom, offsetX := ox, offsetY := oy)
  {
    e.(zoom := zoom, offsetX := ox, offsetY := oy)
  }

  /** `ResetViewport()`: zoom 1 at the origin. */
  function ResetViewport(e: Editor): (r: Editor)
    ensures r.zoom == 1.0 && r.offsetX == 0.0 && r.offsetY == 0.0 && r.items == e.items
  {
    SetViewport(e, 1.0, 0.0, 0.0)
  }

  /** `ClearHighlights()`. */
  function ClearHighlights(e: Editor): (r: Editor)
    ensures r == e.(items := r.items) && |r.items| == |e.items|
    ensures forall i :: 0 <= i < |e.items| ==> r.items[i] == e.items[i].(highlight := false)
  {
    e.(items := seq(|e.items|, i requires 0 <= i < |e.items| => e.items[i].(highlight := false)))
  }

  /** `Highlight(item)`: only the given item, if any, stays highlighted. */
  function Highlight(e: Editor, target: Option<string>): (r: Editor)
    ensures r == e.(items := r.items) && |r.items| == |e.items|
    ensures forall i :: 0 <= i < |e.items| ==>
      r.items[i] == e.items[i].(highlight := target == Some(e.items[i].id))
  {
    var cleared := ClearHighlights(e).items;
    e.(items := seq(|cleared|, i requires 0 <= i < |cleared| =>
                      cleared[i].(highlight := target == Some(cleared[i].id))))
  }

  /** `InitLocationCache(gridX, gridY, width, height)`: a new cache holding every item. */
  function InitLocationCache(nf: Numerics, e: Editor, gridX: int, gridY: int, width: real, height: real): (r: Editor)
    requires gridX >= 1 && gridY >= 1 && width != 0.0 && height != 0.0
    ensures r == e.(cache := r.cache) && r.cache.Some? && CacheReady(r)
    ensures LocationCache.Consistent(r.cache.value)
    ensures r.cache.value.gridX == gridX && r.cache.value.gridY == gridY
  {
    var c := LocationCache.NewCache(gridX, gridY, width, height);
    LocationCache.EmptyIsConsistent(gridX, gridY, width, height);
    LocationCache.AddAllConsistent(nf, c, e.items);
    e.(cache := Some(LocationCache.AddAll(nf, c, e.items)))
  }

  // ---------------------------------------------------------------------------
  // Restyling the selection
  // ---------------------------------------------------------------------------

  /** The arguments of `ApplyStyleToSelected`; an absent value changes nothing. */
  datatype StyleChange = StyleChange(
    color: Option<string>, strokeWidth: Option<real>, opacity: Option<real>,
    lineType: Option<string>, lineCap: Option<string>)

  function OrElse<T>(v: Option<T>, d: T): T { if v.Some? then v.value else d }

  /** One selected item restyled: a path takes every given value and has its bounds
      recomputed; a circle takes half the stroke width as its radius, the opacity and
      the colour as its fill; hints stay as they are. */
  function Restyle(nf: Numerics, it: Item, ch: StyleChange): (r: Item)
    ensures r.id == it.id && r.selected == it.selected && r.highlight == it.highlight
    ensures TypeOf(r) == TypeOf(it)
    ensures !(IsPath(it) || it.shape.CircleShape?) ==> r == it
    ensures IsPath(it) ==> r.shape.d == it.shape.d && r.shape.bounds == Some(PathBounds.GetBounds(nf, it.shape.d))
    ensures IsPath(it) && ch.color.Some? ==> r.shape.stroke == ch.color.value
    ensures it.shape.CircleShape? && ch.strokeWidth.Some? ==> r.shape.r == ch.strokeWidth.value / 2.0
  {
    match it.shape
    case PathShape(d, stroke, w, op, lt, cap, join, _) =>
      it.(shape := PathShape(d, OrElse(ch.color, stroke), OrElse(ch.strokeWidth, w), OrElse(ch.opacity, op),
                             OrElse(ch.lineType, lt), OrElse(ch.lineCap, cap), join, Some(PathBounds.GetBounds(nf, d))))
    case CircleShape(cx, cy, rad, fill, op) =>
      it.(shape := CircleShape(cx, cy, if ch.strokeWidth.Some? then ch.strokeWidth.value / 2.0 else rad,
                               OrElse(ch.color, fill), OrElse(ch.opacity, op)))
    case _ => it
  }

  /** Restyling twice with the same values is restyling once. */
  lemma RestyleIdempotent(nf: Numerics, it: Item, ch: StyleChange)
    ensures Restyle(nf, Restyle(nf, it, ch), ch) == Restyle(nf, it, ch)
  {
  }

  /** Replaces the item at `k`. */
  function Replace(items: seq<Item>, k: nat, it: Item): (r: seq<Item>)
    requires k < |items|
    ensures |r| == |items| && r[k] == it && forall i :: 0 <= i < |items| && i != k ==> r[i] == items[i]
  {
    items[k := it]
  }

  /** The object the selection's `id` refers to: the listed item with that id, or else
      the detached item the selection still holds. */
  function Lookup(e: Editor, id: string): (r: Option<Item>)
    ensures HasId(e.items, id) ==> r == Some(e.items[IndexOfId(e.items, id)])
    ensures !HasId(e.items, id) ==> (r.Some? <==> HasId(e.detached, id))
    ensures !HasId(e.items, id) && r.Some? ==> r.value == e.detached[IndexOfId(e.detached, id)]
    ensures r.Some? ==> r.value.id == id
  {
    var k := IndexOfId(e.items, id);
    if k >= 0 then Some(e.items[k])
    else
      var j := IndexOfId(e.detached, id);
      if j >= 0 then Some(e.detached[j]) else None
  }

  /** Puts `it` back where `Lookup` found the object with `id`. */
  function Store(e: Editor, id: string, it: Item): (r: Editor)
    requires Lookup(e, id).Some?
    ensures r == e.(items := r.items, detached := r.detached)
    ensures HasId(e.items, id) ==> r.items == Replace(e.items, IndexOfId(e.items, id), it) && r.detached == e.detached
    ensures !HasId(e.items, id) ==> r.items == e.items && r.detached == Replace(e.detached, IndexOfId(e.detached, id), it)
  {
    var k := IndexOfId(e.items, id);
    if k >= 0 then e.(items := Replace(e.items, k, it))
    else e.(detached := Replace(e.detached, IndexOfId(e.detached, id), it))
  }

  /** What is stored under an id is what a later lookup of the id finds. */
  lemma LookupOfStore(e: Editor, id: string, it: Item)
    requires Lookup(e, id).Some? && it.id == id
    ensures Lookup(Store(e, id, it), id) == Some(it)
  {
    var r := Store(e, id, it);
    if HasId(e.items, id) {
      var k := IndexOfId(e.items, id);
      IndexOfReplaced(e.items, k, it);
    } else {
      var j := IndexOfId(e.detached, id);
      assert !HasId(r.items, id);
      IndexOfReplaced(e.detached, j, it);
    }
  }

  /** Replacing the first item with an id by another with that id keeps it first. */
  lemma IndexOfReplaced(items: seq<Item>, k: nat, it: Item)
    requires k < |items| && k == IndexOfId(items, it.id)
    ensures IndexOfId(Replace(items, k, it), it.id) == k
  {
  }

  /** One selected object restyled, listed or detached; a path or circle goes back into
      the cache with its new values. */
  function RestyleOne(nf: Numerics, e: Editor, id: string, ch: StyleChange): (r: Editor)
    requires CacheReady(e)
    ensures CacheReady(r) && r == e.(items := r.items, detached := r.detached, cache := r.cache)
    ensures Lookup(e, id).None? ==> r == e
    ensures !HasId(e.items, id) ==> r.items == e.items
    ensures HasId(e.items, id) ==> var k := IndexOfId(e.items, id);
      r.items == Replace(e.items, k, Restyle(nf, e.items[k], ch)) && r.detached == e.detached
    ensures !HasId(e.items, id) && HasId(e.detached, id) ==> var j := IndexOfId(e.detached, id);
      r.detached == Replace(e.detached, j, Restyle(nf, e.detached[j], ch))
    ensures Lookup(e, id).Some? ==> var it := Restyle(nf, Lookup(e, id).value, ch);
      && (IsPath(it) || it.shape.CircleShape? ==> r.cache == Recache(nf, e.cache, it))
      && (!(IsPath(it) || it.shape.CircleShape?) ==> r.cache == e.cache)
  {
    match Lookup(e, id)
    case None => e
    case Some(x) =>
      var it := Restyle(nf, x, ch);
      var cache := if IsPath(it) || it.shape.CircleShape? then Recache(nf, e.cache, it) else e.cache;
      Store(e, id, it).(cache := cache)
  }

  function RestyleAll(nf: Numerics, e: Editor, ids: seq<string>, ch: StyleChange): (r: Editor)
    requires CacheReady(e)
    ensures CacheReady(r) && r == e.(items := r.items, detached := r.detached, cache := r.cache)
    ensures |r.items| == |e.items| && forall i :: 0 <= i < |e.items| ==> r.items[i].id == e.items[i].id
    ensures |r.detached| == |e.detached| && forall i :: 0 <= i < |e.detached| ==> r.detached[i].id == e.detached[i].id
    decreases |ids|
  {
    if |ids| == 0 then e
    else RestyleAll(nf, RestyleOne(nf, e, ids[0], ch), ids[1..], ch)
  }

  /** `ApplyStyleToSelected(color, strokeWidth, opacity, lineType, strokeLineCap)`: every
      selected object, detached ones included, in the order of the selection. */
  function ApplyStyleToSelected(nf: Numerics, e: Editor, ch: StyleChange): (r: Editor)
    requires CacheReady(e)
    ensures CacheReady(r) && r == e.(items := r.items, detached := r.detached, cache := r.cache)
    ensures |r.items| == |e.items| && forall i :: 0 <= i < |e.items| ==> r.items[i].id == e.items[i].id
  {
    RestyleAll(nf, e, e.selected, ch)
  }

  /** A path or circle deleted while it was the selection is still restyled through the
      selection and goes back into the cache: a hit test in its box finds an item the
      list no longer holds. */
  lemma RestyleRecachesDetached(nf: Numerics, e: Editor, id: string, ch: StyleChange, p: Point)
    requires CacheReady(e) && e.cache.Some? && e.cache.value.width > 0.0 && e.cache.value.height > 0.0
    requires e.selected == [id] && !HasId(e.items, id) && HasId(e.detached, id)
    requires var it := Restyle(nf, e.detached[IndexOfId(e.detached, id)], ch);
      LocationCache.ItemBox(nf, it).Some? && InRect(p, LocationCache.ItemBox(nf, it).value)
    ensures var r := ApplyStyleToSelected(nf, e, ch);
      !HasId(r.items, id) && r.cache.Some? && id in LocationCache.ItemsAt(r.cache.value, p.x, p.y)
  {
    var it := Restyle(nf, e.detached[IndexOfId(e.detached, id)], ch);
    var one := RestyleOne(nf, e, id, ch);
    assert ApplyStyleToSelected(nf, e, ch) == RestyleAll(nf, one, [], ch) by { assert e.selected[1..] == []; }
    assert one.items == e.items;
    LocationCache.RecordedItemIsFound(nf, e.cache.value, it, p);
  }

  /** The same from the start: selecting a listed path or circle, deleting the selection
      and restyling it leaves the item out of the list but back in the cache. */
  lemma SelectDeleteRestyle(nf: Numerics, e: Editor, id: string, ch: StyleChange, p: Point)
    requires CacheReady(e) && e.cache.Some? && e.cache.value.width > 0.0 && e.cache.value.height > 0.0
    requires UniqueIds(e.items) && HasId(e.items, id)
    requires var x := e.items[IndexOfId(e.items, id)].(selected := true);
      LocationCache.ItemBox(nf, Restyle(nf, x, ch)).Some? && InRect(p, LocationCache.ItemBox(nf, Restyle(nf, x, ch)).value)
    ensures var d := DeleteSelected(Select(e, Some(id)));
      && d.detached == [e.items[IndexOfId(e.items, id)].(selected := true)]
      && !HasId(d.items, id)
      && var r := ApplyStyleToSelected(nf, d, ch);
         !HasId(r.items, id) && r.cache.Some? && id in LocationCache.ItemsAt(r.cache.value, p.x, p.y)
  {
    var k := IndexOfId(e.items, id);
    var s := Select(e, Some(id));
    SelectOne(e, id);
    var d := DeleteSelected(s);
    DeleteOnlySelected(s, id, k);
    assert IndexOfId(d.detached, id) == 0;
    RestyleRecachesDetached(nf, d, id, ch, p);
  }

  /** Selecting a listed item with a unique id flags it and keeps it where it was. */
  lemma SelectOne(e: Editor, id: string)
    requires UniqueIds(e.items) && HasId(e.items, id)
    ensures var s := Select(e, Some(id)); var k := IndexOfId(e.items, id);
      && s.selected == [id] && s.cache == e.cache && UniqueIds(s.items)
      && IndexOfId(s.items, id) == k && s.items[k] == e.items[k].(selected := true)
  {
    var k := IndexOfId(e.items, id);
    var s := Select(e, Some(id));
    assert forall i :: 0 <= i < |e.items| ==> s.items[i].id == e.items[i].id;
    assert forall i :: 0 <= i < |s.items| && i != k ==> s.items[i].id != id;
    IndexOfOnly(s.items, k, id);
  }

  /** Deleting the one selected item, listed at `k` under a unique id, leaves it only in
      the selection. */
  lemma DeleteOnlySelected(s: Editor, id: string, k: nat)
    requires UniqueIds(s.items) && s.selected == [id] && k < |s.items| && IndexOfId(s.items, id) == k
    ensures var d := DeleteSelected(s);
      && d.detached == s.detached + [s.items[k]] && d.selected == [id] && !HasId(d.items, id)
      && d.cache == Uncache(s.cache, id)
  {
    var d := Delete(s, id);
    assert DeleteSelected(s) == d by {
      assert [id][1..] == [];
      assert DeleteAll(s, [id]) == DeleteAll(d, []);
    }
    assert !HasId(d.items, id) by {
      forall i | 0 <= i < |d.items| ensures d.items[i].id != id {
        if i < k { assert d.items[i] == s.items[i]; } else { assert d.items[i] == s.items[i + 1]; }
      }
    }
  }

  /** With unique ids the selected items, and only they, are restyled. */
  lemma ApplyStyleIsPointwise(nf: Numerics, e: Editor, ch: StyleChange)
    requires CacheReady(e) && UniqueIds(e.items)
    ensures forall i :: 0 <= i < |e.items| ==>
      ApplyStyleToSelected(nf, e, ch).items[i] ==
        (if e.items[i].id in e.selected then Restyle(nf, e.items[i], ch) else e.items[i])
  {
    RestyleAllPointwise(nf, e, e.selected, ch, e.items, []);
  }

  /** The items once the ids in `done` have been restyled. */
  predicate RestyledUpTo(nf: Numerics, items: seq<Item>, orig: seq<Item>, done: seq<string>, ch: StyleChange) {
    |items| == |orig| &&
    forall i :: 0 <= i < |orig| ==> items[i] == (if orig[i].id in done then Restyle(nf, orig[i], ch) else orig[i])
  }

  lemma {:induction false} RestyleAllPointwise(nf: Numerics, e: Editor, ids: seq<string>, ch: StyleChange,
                                               orig: seq<Item>, done: seq<string>)
    requires CacheReady(e) && UniqueIds(orig) && RestyledUpTo(nf, e.items, orig, done, ch)
    ensures RestyledUpTo(nf, RestyleAll(nf, e, ids, ch).items, orig, done + ids, ch)
    decreases |ids|
  {
    if |ids| == 0 {
      assert done + ids == done;
    } else {
      var id := ids[0];
      var next := RestyleOne(nf, e, id, ch);
      RestyleOneStep(nf, e, orig, done, id, ch);
      assert RestyleAll(nf, e, ids, ch) == RestyleAll(nf, next, ids[1..], ch);
      RestyleAllPointwise(nf, next, ids[1..], ch, orig, done + [id]);
      assert done + [id] + ids[1..] == done + ids;
    }
  }

  /** Restyling one more selected object extends the restyled ids by its id. */
  lemma RestyleOneStep(nf: Numerics, e: Editor, orig: seq<Item>, done: seq<string>, id: string, ch: StyleChange)
    requires CacheReady(e) && UniqueIds(orig) && RestyledUpTo(nf, e.items, orig, done, ch)
    ensures RestyledUpTo(nf, RestyleOne(nf, e, id, ch).items, orig, done + [id], ch)
  {
    var k := IndexOfId(e.items, id);
    assert forall i :: 0 <= i < |orig| ==> e.items[i].id == orig[i].id;
    RestyleStep(nf, e.items, RestyleOne(nf, e, id, ch).items, orig, done, id, ch, k);
  }

  lemma RestyleStep(nf: Numerics, items: seq<Item>, next: seq<Item>, orig: seq<Item>, done: seq<string>,
                    id: string, ch: StyleChange, k: int)
    requires UniqueIds(orig) && RestyledUpTo(nf, items, orig, done, ch)
    requires forall i :: 0 <= i < |orig| ==> items[i].id == orig[i].id
    requires k == IndexOfId(items, id)
    requires k < 0 ==> next == items
    requires k >= 0 ==> next == Replace(items, k, Restyle(nf, items[k], ch))
    ensures RestyledUpTo(nf, next, orig, done + [id], ch)
  {
    forall i | 0 <= i < |orig|
      ensures next[i] == (if orig[i].id in done + [id] then Restyle(nf, orig[i], ch) else orig[i])
    {
      assert orig[i].id in done + [id] <==> orig[i].id in done || orig[i].id == id;
      if k >= 0 && i == k {
        RestyleIdempotent(nf, orig[i], ch);
      }
      if orig[i].id == id {
        assert HasId(items, id) by { assert items[i].id == id; }
        assert k == i;
      }
    }
  }

  // ---------------------------------------------------------------------------
  // Simplifying the selection
  // ---------------------------------------------------------------------------

  /** The step sizes `SimplifySelectedItems` leaves at their defaults. */
  const BaseStep := 2
  const MaxStep := 20

  /** With the default steps the adaptive step is never zero. */
  lemma DefaultStepNonZero(nf: Numerics, pts: seq<Point>)
    ensures Smoothing.AdaptiveStep(nf, pts, BaseStep, MaxStep) in {2, 10, 20}
  {
    assert Smoothing.HalfTowardZero(MaxStep) == 10;
  }

  /** `BuildPath(ToPoints(d), strategy)`; `None` where the builder throws. */
  function Simplified(nf: Numerics, d: string, strategy: Smoothing.SmoothingType): (r: Option<string>)
    ensures r.None? <==> !strategy.Linear? && !strategy.CatmullRom? && |PathData.ToPoints(nf, d)| == 0
  {
    var pts := PathData.ToPoints(nf, d);
    DefaultStepNonZero(nf, pts);
    Smoothing.BuildPath(nf, pts, strategy, BaseStep, MaxStep)
  }

  /** The acceptance gate: not blank, opening with "M ", longer than ten characters. */
  predicate Acceptable(s: string) {
    !IsBlank(s) && StartsWith(s, "M ") && |s| > 10
  }

  /** A path with new data and the bounds of that data. */
  function WithData(nf: Numerics, p: Shape, d: string): (q: Shape)
    requires p.PathShape?
    ensures q.PathShape? && q.d == d && q.bounds == Some(PathBounds.GetBounds(nf, d))
    ensures q.stroke == p.stroke && q.strokeWidth == p.strokeWidth && q.opacity == p.opacity
  {
    PathShape(d, p.stroke, p.strokeWidth, p.opacity, p.lineType, p.lineCap, p.lineJoin, Some(PathBounds.GetBounds(nf, d)))
  }

  /** The simplified data of a path, when it passes the gate. */
  function Accepted(nf: Numerics, it: Item, strategy: Smoothing.SmoothingType): (r: Option<string>)
    ensures r.Some? ==> IsPath(it) && Acceptable(r.value) && Simplified(nf, it.shape.d, strategy) == r
    ensures (IsPath(it) && Simplified(nf, it.shape.d, strategy).Some? &&
             Acceptable(Simplified(nf, it.shape.d, strategy).value)) ==> r.Some?
  {
    if IsPath(it) then
      match Simplified(nf, it.shape.d, strategy)
      case Some(s) => if Acceptable(s) then Some(s) else None
      case None => None
    else None
  }

  /** What happens to one selected item: a path whose simplified data passes the gate
      takes it; anything else is left alone. */
  function SimplifyItem(nf: Numerics, it: Item, strategy: Smoothing.SmoothingType): (r: Item)
    ensures r.id == it.id && r.selected == it.selected && r.highlight == it.highlight && IsPath(r) == IsPath(it)
    ensures r == it || (IsPath(it) && Acceptable(r.shape.d))
    ensures Accepted(nf, it, strategy).Some? ==> r.shape.d == Accepted(nf, it, strategy).value
    ensures Accepted(nf, it, strategy).None? ==> r == it
  {
    match Accepted(nf, it, strategy)
    case Some(s) => it.(shape := WithData(nf, it.shape, s))
    case None => it
  }

  /** The editor after simplifying the selected object with id `id`, listed or detached:
      accepted data is stored and the path goes back into the cache, even when the new
      data equals the old. */
  function SimplifyOne(nf: Numerics, e: Editor, id: string, strategy: Smoothing.SmoothingType): (r: Editor)
    requires CacheReady(e)
    ensures CacheReady(r) && r == e.(items := r.items, detached := r.detached, cache := r.cache)
    ensures |r.items| == |e.items| && |r.detached| == |e.detached|
    ensures forall i :: 0 <= i < |e.items| ==> r.items[i] == e.items[i] || r.items[i] == SimplifyItem(nf, e.items[i], strategy)
    ensures forall i :: 0 <= i < |e.detached| ==>
      r.detached[i] == e.detached[i] || r.detached[i] == SimplifyItem(nf, e.detached[i], strategy)
    ensures GatedFrom(e.items, r.items) && GatedFrom(e.detached, r.detached)
    ensures Lookup(e, id).None? || Accepted(nf, Lookup(e, id).value, strategy).None? ==> r == e
    ensures Lookup(e, id).Some? && Accepted(nf, Lookup(e, id).value, strategy).Some? ==>
      var it := SimplifyItem(nf, Lookup(e, id).value, strategy);
      r.items == Store(e, id, it).items && r.detached == Store(e, id, it).detached &&
      r.cache == Recache(nf, e.cache, it)
  {
    match Lookup(e, id)
    case None => e
    case Some(x) =>
      match Accepted(nf, x, strategy)
      case None => e
      case Some(_) => StoreSimplified(nf, e, id, strategy)
  }

  /** The object with `id` stored back simplified, and recorded again in the cache. */
  function StoreSimplified(nf: Numerics, e: Editor, id: string, strategy: Smoothing.SmoothingType): (r: Editor)
    requires CacheReady(e) && Lookup(e, id).Some?
    ensures CacheReady(r) && r == e.(items := r.items, detached := r.detached, cache := r.cache)
    ensures |r.items| == |e.items| && |r.detached| == |e.detached|
    ensures GatedFrom(e.items, r.items) && GatedFrom(e.detached, r.detached)
    ensures forall i :: 0 <= i < |e.items| ==> r.items[i] == e.items[i] || r.items[i] == SimplifyItem(nf, e.items[i], strategy)
    ensures forall i :: 0 <= i < |e.detached| ==>
      r.detached[i] == e.detached[i] || r.detached[i] == SimplifyItem(nf, e.detached[i], strategy)
    ensures var it := SimplifyItem(nf, Lookup(e, id).value, strategy);
      r.items == Store(e, id, it).items && r.detached == Store(e, id, it).detached &&
      r.cache == Recache(nf, e.cache, it)
  {
    var it := SimplifyItem(nf, Lookup(e, id).value, strategy);
    if HasId(e.items, id) then
      SimplifiedInPlace(nf, e.items, IndexOfId(e.items, id), strategy);
      Store(e, id, it).(cache := Recache(nf, e.cache, it))
    else
      SimplifiedInPlace(nf, e.detached, IndexOfId(e.detached, id), strategy);
      Store(e, id, it).(cache := Recache(nf, e.cache, it))
  }

  /** Simplifying the item at one position changes no other position and keeps the
      list gated. */
  lemma SimplifiedInPlace(nf: Numerics, items: seq<Item>, k: nat, strategy: Smoothing.SmoothingType)
    requires k < |items|
    ensures var r := Replace(items, k, SimplifyItem(nf, items[k], strategy));
      && GatedFrom(items, r)
      && forall i :: 0 <= i < |items| ==> r[i] == items[i] || r[i] == SimplifyItem(nf, items[i], strategy)
  {
  }

  /** `SimplifySelectedItems()`, with the strategy from the settings as a parameter, as
      it should behave: a path the builder cannot handle keeps its data like one whose
      result fails the gate. */
  function Simplify(nf: Numerics, e: Editor, strategy: Smoothing.SmoothingType): (r: Editor)
    requires CacheReady(e)
    ensures CacheReady(r) && r == e.(items := r.items, detached := r.detached, cache := r.cache)
    ensures GatedFrom(e.items, r.items) && GatedFrom(e.detached, r.detached)
  {
    SimplifyAll(nf, e, e.selected, strategy)
  }

  function SimplifyAll(nf: Numerics, e: Editor, ids: seq<string>, strategy: Smoothing.SmoothingType): (r: Editor)
    requires CacheReady(e)
    ensures CacheReady(r) && r == e.(items := r.items, detached := r.detached, cache := r.cache)
    ensures GatedFrom(e.items, r.items) && GatedFrom(e.detached, r.detached)
    decreases |ids|
  {
    if |ids| == 0 then e
    else
      var next := SimplifyOne(nf, e, ids[0], strategy);
      var r := SimplifyAll(nf, next, ids[1..], strategy);
      GatedTrans(e.items, next.items, r.items);
      GatedTrans(e.detached, next.detached, r.detached);
      r
  }

  /** Each item of `after` is the item of `before` at its position, or a path of the
      same id whose data passes the gate. */
  predicate GatedFrom(before: seq<Item>, after: seq<Item>) {
    |after| == |before| &&
    forall i :: 0 <= i < |before| ==>
      && after[i].id == before[i].id && IsPath(after[i]) == IsPath(before[i])
      && (after[i] == before[i] || (IsPath(after[i]) && Acceptable(after[i].shape.d)))
  }

  lemma GatedTrans(a: seq<Item>, b: seq<Item>, c: seq<Item>)
    requires GatedFrom(a, b) && GatedFrom(b, c)
    ensures GatedFrom(a, c)
  {
  }

  /** How a run of `SimplifySelectedItems` ends: the editor as it then stands, and
      whether an exception cut it short. */
  datatype Run = Run(editor: Editor, threw: bool)

  /** `SimplifySelectedItems()` as written: the builder's exception for a path with no
      points under the quadratic strategy ends the loop, with the earlier items already
      changed. */
  function SimplifyAsWritten(nf: Numerics, e: Editor, ids: seq<string>, strategy: Smoothing.SmoothingType): (r: Run)
    requires CacheReady(e)
    ensures CacheReady(r.editor)
    ensures r.threw <==> exists j :: ThrowsAt(nf, e, ids, strategy, j)
    ensures !r.threw ==> r.editor == SimplifyAll(nf, e, ids, strategy)
    decreases |ids|
  {
    if |ids| == 0 then Run(e, false)
    else if Throws(nf, e, ids[0], strategy) then
      PrefixZero(nf, e, ids, strategy);
      assert ThrowsAt(nf, e, ids, strategy, 0);
      Run(e, true)
    else
      var rest := SimplifyAsWritten(nf, SimplifyOne(nf, e, ids[0], strategy), ids[1..], strategy);
      ThrowsShift(nf, e, ids, strategy);
      rest
  }

  /** The selected object `id`, listed or detached, is a path the builder throws on. */
  predicate Throws(nf: Numerics, e: Editor, id: string, strategy: Smoothing.SmoothingType) {
    var x := Lookup(e, id);
    x.Some? && IsPath(x.value) && Simplified(nf, x.value.shape.d, strategy).None?
  }

  /** The run reaches the `j`-th selected id and throws there. */
  predicate ThrowsAt(nf: Numerics, e: Editor, ids: seq<string>, strategy: Smoothing.SmoothingType, j: int)
    requires CacheReady(e)
  {
    0 <= j < |ids| && Throws(nf, SimplifyAll(nf, e, ids[..j], strategy), ids[j], strategy)
  }

  lemma ThrowsShift(nf: Numerics, e: Editor, ids: seq<string>, strategy: Smoothing.SmoothingType)
    requires CacheReady(e) && |ids| > 0 && !Throws(nf, e, ids[0], strategy)
    ensures (exists j :: ThrowsAt(nf, e, ids, strategy, j)) <==>
            (exists j :: ThrowsAt(nf, SimplifyOne(nf, e, ids[0], strategy), ids[1..], strategy, j))
  {
    var next := SimplifyOne(nf, e, ids[0], strategy);
    if exists j :: ThrowsAt(nf, e, ids, strategy, j) {
      var j :| ThrowsAt(nf, e, ids, strategy, j);
      if j == 0 {
        PrefixZero(nf, e, ids, strategy);
      } else {
        PrefixShift(nf, e, ids, strategy, j - 1);
        assert ThrowsAt(nf, next, ids[1..], strategy, j - 1);
      }
    }
    if exists j :: ThrowsAt(nf, next, ids[1..], strategy, j) {
      var j :| ThrowsAt(nf, next, ids[1..], strategy, j);
      PrefixShift(nf, e, ids, strategy, j);
      assert ThrowsAt(nf, e, ids, strategy, j + 1);
    }
  }

  lemma PrefixZero(nf: Numerics, e: Editor, ids: seq<string>, strategy: Smoothing.SmoothingType)
    requires CacheReady(e)
    ensures SimplifyAll(nf, e, ids[..0], strategy) == e
  {
    assert ids[..0] == [];
  }

  lemma PrefixShift(nf: Numerics, e: Editor, ids: seq<string>, strategy: Smoothing.SmoothingType, j: nat)
    requires CacheReady(e) && j + 1 < |ids|
    ensures SimplifyAll(nf, e, ids[..j + 1], strategy) ==
            SimplifyAll(nf, SimplifyOne(nf, e, ids[0], strategy), ids[1..][..j], strategy)
    ensures ids[1..][j] == ids[j + 1]
  {
    var p := ids[..j + 1];
    assert p[0] == ids[0] && p[1..] == ids[1..][..j];
  }

  /** A selected path with empty data, as an imported `<path>` without a `d` attribute
      has, makes the quadratic builder throw: the gate never runs. */
  lemma EmptyPathThrows(nf: Numerics, it: Item)
    requires IsPath(it) && it.shape.d == ""
    ensures var e := Initial.(items := [it], selected := [it.id]);
      SimplifyAsWritten(nf, e, e.selected, Smoothing.QuadraticBezier).threw
  {
    var e := Initial.(items := [it], selected := [it.id]);
    assert Throws(nf, e, it.id, Smoothing.QuadraticBezier);
    PrefixZero(nf, e, e.selected, Smoothing.QuadraticBezier);
    assert ThrowsAt(nf, e, e.selected, Smoothing.QuadraticBezier, 0);
  }

  /** A deleted path the selection still holds throws just the same. */
  lemma DetachedEmptyPathThrows(nf: Numerics, it: Item)
    requires IsPath(it) && it.shape.d == ""
    ensures var e := Initial.(selected := [it.id], detached := [it]);
      SimplifyAsWritten(nf, e, e.selected, Smoothing.QuadraticBezier).threw
  {
    var e := Initial.(selected := [it.id], detached := [it]);
    assert Lookup(e, it.id) == Some(it);
    assert Throws(nf, e, it.id, Smoothing.QuadraticBezier);
    PrefixZero(nf, e, e.selected, Smoothing.QuadraticBezier);
    assert ThrowsAt(nf, e, e.selected, Smoothing.QuadraticBezier, 0);
  }

  /** The intended behaviour on the same input: the path is kept as it is. */
  lemma EmptyPathKept(nf: Numerics, it: Item)
    requires IsPath(it) && it.shape.d == ""
    ensures var e := Initial.(items := [it], selected := [it.id]);
      Simplify(nf, e, Smoothing.QuadraticBezier) == e
  {
    var e := Initial.(items := [it], selected := [it.id]);
    assert SimplifyAll(nf, e, [it.id][1..], Smoothing.QuadraticBezier) == e by { assert [it.id][1..] == []; }
  }

  // ---------------------------------------------------------------------------
  // Properties of the item list
  // ---------------------------------------------------------------------------

  /** The items whose id is not in `ids`, in order. */
  function Keep(items: seq<Item>, ids: seq<string>): (r: seq<Item>)
    ensures |r| <= |items|
    ensures forall i :: 0 <= i < |r| ==> r[i] in items && r[i].id !in ids
    ensures forall i :: 0 <= i < |items| && items[i].id !in ids ==> items[i] in r
  {
    if |items| == 0 then []
    else
      assert forall i :: 1 <= i < |items| ==> items[i] == items[1..][i - 1];
      (if items[0].id in ids then [] else [items[0]]) + Keep(items[1..], ids)
  }

  lemma {:induction false} KeepAppend(a: seq<Item>, b: seq<Item>, ids: seq<string>)
    ensures Keep(a + b, ids) == Keep(a, ids) + Keep(b, ids)
  {
    if |a| == 0 {
      assert a + b == b;
    } else {
      assert (a + b)[1..] == a[1..] + b;
      KeepAppend(a[1..], b, ids);
    }
  }

  lemma KeepSingle(x: Item, ids: seq<string>)
    ensures Keep([x], ids) == (if x.id in ids then [] else [x])
  {
    assert [x][1..] == [];
  }

  lemma {:induction false} KeepNone(items: seq<Item>, ids: seq<string>)
    requires forall i :: 0 <= i < |items| ==> items[i].id !in ids
    ensures Keep(items, ids) == items
  {
    if |items| > 0 {
      KeepNone(items[1..], ids);
    }
  }

  lemma {:induction false} KeepKeep(items: seq<Item>, a: seq<string>, b: seq<string>)
    ensures Keep(Keep(items, a), b) == Keep(items, a + b)
  {
    if |items| > 0 {
      KeepKeep(items[1..], a, b);
      var x := items[0];
      assert x.id in a + b <==> x.id in a || x.id in b;
      if x.id in a {
        assert Keep(items, a) == Keep(items[1..], a);
        assert Keep(items, a + b) == Keep(items[1..], a + b);
      } else {
        assert Keep(items, a) == [x] + Keep(items[1..], a);
        assert Keep([x] + Keep(items[1..], a), b) == Keep([x], b) + Keep(Keep(items[1..], a), b) by {
          KeepAppend([x], Keep(items[1..], a), b);
        }
        KeepSingle(x, b);
      }
    }
  }

  /** A subsequence of a list with unique ids has unique ids. */
  lemma {:induction false} KeepUnique(items: seq<Item>, ids: seq<string>)
    requires UniqueIds(items)
    ensures UniqueIds(Keep(items, ids))
  {
    if |items| > 0 {
      KeepUnique(items[1..], ids);
      var rest := Keep(items[1..], ids);
      forall i | 0 <= i < |rest| ensures rest[i].id != items[0].id {
        var j :| 0 <= j < |items[1..]| && items[1..][j] == rest[i];
        assert items[j + 1] == rest[i];
      }
    }
  }

  /** On a list with unique ids `Delete` takes out the one item with the id. */
  lemma DeleteIsKeep(e: Editor, id: string)
    requires UniqueIds(e.items)
    ensures Delete(e, id).items == Keep(e.items, [id])
  {
    var k := IndexOfId(e.items, id);
    if k < 0 {
      KeepNone(e.items, [id]);
    } else {
      assert forall i :: 0 <= i < |e.items| && i != k ==> e.items[i].id != id;
      KeepOnly(e.items, k, id);
    }
  }

  lemma KeepOnly(s: seq<Item>, k: nat, id: string)
    requires k < |s| && s[k].id == id
    requires forall i :: 0 <= i < |s| && i != k ==> s[i].id != id
    ensures Keep(s, [id]) == RemoveAt(s, k)
  {
    var pre, post := s[..k], s[k + 1..];
    NoIdBefore(s, k, id);
    NoIdAfter(s, k, id);
    KeepAround(pre, s[k], post, id);
    assert s == pre + ([s[k]] + post);
  }

  lemma NoIdBefore(s: seq<Item>, k: nat, id: string)
    requires k < |s| && forall i :: 0 <= i < |s| && i != k ==> s[i].id != id
    ensures Keep(s[..k], [id]) == s[..k]
  {
    var t := s[..k];
    assert forall i :: 0 <= i < |t| ==> t[i] == s[i];
    KeepNone(t, [id]);
  }

  lemma NoIdAfter(s: seq<Item>, k: nat, id: string)
    requires k < |s| && forall i :: 0 <= i < |s| && i != k ==> s[i].id != id
    ensures Keep(s[k + 1..], [id]) == s[k + 1..]
  {
    var t := s[k + 1..];
    assert forall i :: 0 <= i < |t| ==> t[i] == s[k + 1 + i];
    KeepNone(t, [id]);
  }

  lemma KeepAround(pre: seq<Item>, x: Item, post: seq<Item>, id: string)
    requires x.id == id && Keep(pre, [id]) == pre && Keep(post, [id]) == post
    ensures Keep(pre + ([x] + post), [id]) == pre + post
  {
    KeepAppend(pre, [x] + post, [id]);
    KeepAppend([x], post, [id]);
    KeepSingle(x, [id]);
    assert [] + post == post;
  }

  /** With unique ids, deleting a list of ids one by one keeps exactly the other items. */
  lemma {:induction false} DeleteAllIsKeep(e: Editor, ids: seq<string>)
    requires UniqueIds(e.items)
    ensures DeleteAll(e, ids).items == Keep(e.items, ids)
    decreases |ids|
  {
    if |ids| == 0 {
      KeepNone(e.items, ids);
    } else {
      var next := Delete(e, ids[0]);
      DeleteIsKeep(e, ids[0]);
      KeepUnique(e.items, [ids[0]]);
      DeleteAllIsKeep(next, ids[1..]);
      KeepKeep(e.items, [ids[0]], ids[1..]);
      assert [ids[0]] + ids[1..] == ids;
    }
  }

  /** After `DeleteSelected` no selected item is left and every other item is, in its
      order; the selection list still names the deleted items. */
  lemma DeleteSelectedRemovesSelection(e: Editor)
    requires UniqueIds(e.items)
    ensures DeleteSelected(e).items == Keep(e.items, e.selected)
    ensures forall i :: 0 <= i < |DeleteSelected(e).items| ==> DeleteSelected(e).items[i].id !in e.selected
    ensures DeleteSelected(e).selected == e.selected
  {
    if |e.selected| == 0 {
      KeepNone(e.items, e.selected);
    } else {
      DeleteAllIsKeep(e, e.selected);
    }
  }

  /** Deleting an item just added, under a new id, restores the list. */
  lemma DeleteAfterAdd(nf: Numerics, e: Editor, it: Item)
    requires CacheReady(e) && !HasId(e.items, it.id)
    ensures Delete(Add(nf, e, it), it.id).items == e.items
  {
    var r := Add(nf, e, it);
    assert r.items[|e.items|].id == it.id;
    assert forall i :: 0 <= i < |e.items| ==> r.items[i].id != it.id by {
      forall i | 0 <= i < |e.items| ensures r.items[i].id != it.id {
        assert r.items[i] == e.items[i];
      }
    }
    assert IndexOfId(r.items, it.id) == |e.items|;
  }

  /** With unique ids the position `IndexOf` finds is the only one holding the id. */
  lemma IndexOfOnly(items: seq<Item>, t: nat, id: string)
    requires t < |items| && items[t].id == id
    requires forall i :: 0 <= i < |items| && i != t ==> items[i].id != id
    ensures IndexOfId(items, id) == t
  {
  }

  /** A move the clamp does not cut short is undone by the opposite move. */
  lemma MoveBack(e: Editor, id: string, delta: int)
    requires UniqueIds(e.items) && HasId(e.items, id)
    requires var k := IndexOfId(e.items, id); 0 <= k + delta < |e.items|
    ensures Move(Move(e, id, delta), id, -delta).items == e.items
  {
    var k := IndexOfId(e.items, id);
    var t := k + delta;
    if t != k {
      var m := Move(e, id, delta);
      var rest := RemoveAt(e.items, k);
      RemovedIdGone(e.items, k);
      OnlyAt(m.items, t, id);
      assert Clamp(t - delta, 0, |m.items| - 1) == k;
      InsertRemoved(e.items, k);
    }
  }

  /** With unique ids, taking out position `k` takes out its id. */
  lemma RemovedIdGone(items: seq<Item>, k: nat)
    requires UniqueIds(items) && k < |items|
    ensures !HasId(RemoveAt(items, k), items[k].id)
  {
    var r := RemoveAt(items, k);
    forall i | 0 <= i < |r| ensures r[i].id != items[k].id {
      if i < k { assert r[i] == items[i]; } else { assert r[i] == items[i + 1]; }
    }
  }

  /** An id that only position `t` holds is found there. */
  lemma OnlyAt(s: seq<Item>, t: nat, id: string)
    requires t < |s| && s[t].id == id && !HasId(RemoveAt(s, t), id)
    ensures IndexOfId(s, id) == t
  {
    var r := RemoveAt(s, t);
    forall i | 0 <= i < t ensures s[i].id != id {
      assert s[i] == r[i];
    }
  }

  /** `Select` is `SelectMultiple` with no item or the one item. */
  lemma SelectIsSelectMultiple(e: Editor, target: Option<string>)
    ensures Select(e, target) == SelectMultiple(e, if target.None? then [] else [target.value])
  {
    var ids := if target.None? then [] else [target.value];
    var a, b := Select(e, target), SelectMultiple(e, ids);
    assert a.items == b.items;
  }

  /** Toggling twice with a selection comes back to the same editing state. */
  lemma ToggleTwice(e: Editor)
    requires |e.selected| > 0
    ensures ToggleEditing(ToggleEditing(e)) == e
  {
  }

  /** Once added with a cache present, an item is found by a hit test anywhere in its
      box. */
  lemma AddedItemIsFound(nf: Numerics, e: Editor, it: Item, p: Point)
    requires CacheReady(e) && e.cache.Some? && e.cache.value.width > 0.0 && e.cache.value.height > 0.0
    requires LocationCache.ItemBox(nf, Bounded(nf, it)).Some? && InRect(p, LocationCache.ItemBox(nf, Bounded(nf, it)).value)
    ensures it.id in LocationCache.ItemsAt(Add(nf, e, it).cache.value, p.x, p.y)
  {
    LocationCache.RecordedItemIsFound(nf, e.cache.value, Bounded(nf, it), p);
  }
}
