/** The standalone animator's path list: the elements in document order and the set
    of selected positions, with the list's reordering and selection operations. The
    elements are left abstract; only their order matters here. */
module Animator {

  /** `allElements` and `selectedPaths`. */
  datatype State<T> = State(elements: seq<T>, selected: set<int>)

  /** Every selected position names an element. */
  predicate Within(sel: set<int>, n: int) {
    forall k :: k in sel ==> 0 <= k < n
  }

  predicate Valid<T>(st: State<T>) {
    Within(st.selected, |st.elements|)
  }

  /** Positions `lo` through `hi`. */
  function Span(lo: int, hi: int): (r: set<int>)
    ensures forall k :: k in r <==> lo <= k <= hi
    decreases hi - lo
  {
    if lo > hi then {} else Span(lo, hi - 1) + {hi}
  }

  // ---------------------------------------------------------------------------
  // Swapping
  // ---------------------------------------------------------------------------

  /** `swapElements(i, j)`: the two positions exchange their elements. */
  function Swap<T>(s: seq<T>, i: int, j: int): (r: seq<T>)
    requires 0 <= i < |s| && 0 <= j < |s|
    ensures |r| == |s| && r[i] == s[j] && r[j] == s[i]
    ensures forall k :: 0 <= k < |s| && k != i && k != j ==> r[k] == s[k]
    ensures multiset(r) == multiset(s)
  {
    s[i := s[j]][j := s[i]]
  }

  /** Swapping the same two positions again restores the list. */
  lemma SwapTwice<T>(s: seq<T>, i: int, j: int)
    requires 0 <= i < |s| && 0 <= j < |s|
    ensures Swap(Swap(s, i, j), i, j) == s
  {
  }

  // ---------------------------------------------------------------------------
  // Selection
  // ---------------------------------------------------------------------------

  /** `selectAllPaths()`. */
  function SelectAll(n: int): (r: set<int>)
    ensures forall k :: k in r <==> 0 <= k < n
  {
    Span(0, n - 1)
  }

  /** `invertPathSelection()`: the positions of the list that were not selected. */
  function Invert(sel: set<int>, n: int): (r: set<int>)
    ensures forall k :: k in r <==> 0 <= k < n && k !in sel
  {
    SelectAll(n) - sel
  }

  /** Inverting twice gives back a selection that names elements only. */
  lemma InvertTwice(sel: set<int>, n: int)
    requires Within(sel, n)
    ensures Invert(Invert(sel, n), n) == sel
  {
  }

  /** A selection and its inverse split the list between them. */
  lemma InvertSplits(sel: set<int>, n: int)
    requires Within(sel, n)
    ensures sel * Invert(sel, n) == {} && sel + Invert(sel, n) == SelectAll(n)
  {
  }

  predicate IsLargest(sel: set<int>, m: int) {
    m in sel && forall k :: k in sel ==> k <= m
  }

  /** The largest selected position (`Math.max(...selectedIndices)`). */
  function Largest(sel: set<int>): (m: int)
    requires sel != {}
    ensures IsLargest(sel, m)
  {
    LargestExists(sel);
    var m :| IsLargest(sel, m);
    m
  }

  lemma HasMember(sel: set<int>)
    requires sel != {}
    ensures exists x :: x in sel
  {
    if forall x :: x !in sel { assert false; }
  }

  lemma {:induction false} LargestExists(sel: set<int>)
    requires sel != {}
    ensures exists m :: IsLargest(sel, m)
    decreases |sel|
  {
    HasMember(sel);
    var x :| x in sel;
    if sel != {x} {
      var rest := sel - {x};
      assert rest != {};
      LargestExists(rest);
      var m :| IsLargest(rest, m);
      forall k | k in sel ensures k <= (if x > m then x else m) {
        if k != x { assert k in rest; }
      }
      assert IsLargest(sel, if x > m then x else m);
    } else {
      forall k | k in sel ensures k <= x { assert k in {x}; }
      assert IsLargest(sel, x);
    }
  }

  /** The modifier keys held during a click. */
  datatype Keys = Keys(ctrl: bool, meta: bool, shift: bool)

  /** `handlePathItemClick(e, index)`: Ctrl or Cmd toggles the clicked position;
      Shift with a selection adds every position between the largest selected one and
      the clicked one; a plain click selects only the clicked position, or clears the
      selection when that position was the only one selected. */
  function Click(sel: set<int>, index: int, keys: Keys): (r: set<int>)
    ensures keys.ctrl || keys.meta ==>
      (index in r <==> index !in sel) && forall k :: k != index ==> (k in r <==> k in sel)
    ensures !(keys.ctrl || keys.meta) && keys.shift && sel != {} ==>
      var last := Largest(sel);
      forall k :: k in r <==> k in sel || (last <= k <= index) || (index <= k <= last)
    ensures !(keys.ctrl || keys.meta) && !(keys.shift && sel != {}) ==>
      r == (if sel == {index} then {} else {index})
  {
    if keys.ctrl || keys.meta then
      if index in sel then sel - {index} else sel + {index}
    else if keys.shift && sel != {} then
      var last := Largest(sel);
      var start := if last <= index then last else index;
      var end := if last <= index then index else last;
      sel + Span(start, end)
    else if sel == {index} then {}
    else {index}
  }

  /** A click keeps the selection within the list when the clicked position is in it. */
  lemma ClickStaysWithin(sel: set<int>, index: int, keys: Keys, n: int)
    requires Within(sel, n) && 0 <= index < n
    ensures Within(Click(sel, index, keys), n)
  {
    if !(keys.ctrl || keys.meta) && keys.shift && sel != {} {
      var last := Largest(sel);
      assert 0 <= last < n;
    }
  }

  /** Ctrl-clicking the same position twice restores the selection. */
  lemma CtrlClickTwice(sel: set<int>, index: int)
    ensures Click(Click(sel, index, Keys(true, false, false)), index, Keys(true, false, false)) == sel
  {
  }

  /** A plain click on the only selected position clears it, and a second plain click
      selects it again. */
  lemma PlainClickToggles(index: int)
    ensures Click({index}, index, Keys(false, false, false)) == {}
    ensures Click({}, index, Keys(false, false, false)) == {index}
  {
  }

  /** Shift-clicking with a contiguous selection ending at its largest position keeps
      it contiguous: from the smaller of its start and the click to the larger of its
      end and the click. */
  lemma ShiftClickExtends(lo: int, hi: int, index: int)
    requires lo <= hi
    ensures var r := Click(Span(lo, hi), index, Keys(false, false, true));
      r == Span(if index < lo then index else lo, if index > hi then index else hi)
  {
    var sel := Span(lo, hi);
    assert hi in sel;
    assert Largest(sel) == hi;
  }

  // ---------------------------------------------------------------------------
  // Sorted positions, gathering and splicing out
  // ---------------------------------------------------------------------------

  predicate Increasing(idx: seq<int>) {
    forall a, b :: 0 <= a < b < |idx| ==> idx[a] < idx[b]
  }

  predicate InRange(idx: seq<int>, n: int) {
    forall i :: 0 <= i < |idx| ==> 0 <= idx[i] < n
  }

  /** The positions an index list names. */
  function Members(idx: seq<int>): set<int> {
    set i | 0 <= i < |idx| :: idx[i]
  }

  /** `Array.from(selectedPaths).sort((a, b) => a - b)` for a selection within the
      list of `n` elements. */
  function Ascending(sel: set<int>, n: int): (idx: seq<int>)
    ensures Increasing(idx) && InRange(idx, n)
    ensures forall i :: 0 <= i < |idx| ==> idx[i] in sel
    ensures forall k :: 0 <= k < n && k in sel ==> k in idx
    decreases n
  {
    if n <= 0 then [] else Ascending(sel, n - 1) + (if n - 1 in sel then [n - 1] else [])
  }

  /** Sorting a selection within the list lists exactly its positions. */
  lemma AscendingLists(sel: set<int>, n: int)
    requires Within(sel, n)
    ensures Members(Ascending(sel, n)) == sel
  {
    var idx := Ascending(sel, n);
    forall k | k in sel ensures k in Members(idx) {
      var i :| 0 <= i < |idx| && idx[i] == k;
    }
  }
  /** An increasing index list is determined by the positions it names: the
      ascending order of a selection is the only one. */
  lemma {:induction false} IncreasingUnique(a: seq<int>, b: seq<int>)
    requires Increasing(a) && Increasing(b) && Members(a) == Members(b)
    ensures a == b
    decreases |a|
  {
    if |a| > 0 && |b| > 0 {
      LeastFirst(a);
      LeastFirst(b);
      assert a[0] == b[0];
      DropFirst(a);
      DropFirst(b);
      IncreasingUnique(a[1..], b[1..]);
      assert a == [a[0]] + a[1..];
      assert b == [b[0]] + b[1..];
    } else if |a| > 0 {
      LeastFirst(a);
      assert false;
    } else if |b| > 0 {
      LeastFirst(b);
      assert false;
    }
  }

  /** The first index of an increasing list is named and is the least. */
  lemma LeastFirst(a: seq<int>)
    requires Increasing(a) && |a| > 0
    ensures a[0] in Members(a) && forall x :: x in Members(a) ==> a[0] <= x
  {
  }

  /** Dropping the first index of an increasing list drops exactly its position. */
  lemma DropFirst(a: seq<int>)
    requires Increasing(a) && |a| > 0
    ensures Increasing(a[1..]) && Members(a[1..]) == Members(a) - {a[0]}
  {
    forall x | x in Members(a) - {a[0]} ensures x in Members(a[1..]) {
      var i :| 0 <= i < |a| && a[i] == x;
      assert a[1..][i - 1] == x;
    }
  }


  /** `indices.map(index => allElements[index])`. */
  function Gather<T>(s: seq<T>, idx: seq<int>): (r: seq<T>)
    requires InRange(idx, |s|)
    ensures |r| == |idx| && forall i :: 0 <= i < |idx| ==> r[i] == s[idx[i]]
  {
    seq(|idx|, i requires 0 <= i < |idx| => s[idx[i]])
  }

  /** `splice(i, 1)`. */
  function RemoveAt<T>(s: seq<T>, i: int): (r: seq<T>)
    requires 0 <= i < |s|
    ensures |r| == |s| - 1
    ensures forall k :: 0 <= k < i ==> r[k] == s[k]
    ensures forall k :: i <= k < |r| ==> r[k] == s[k + 1]
  {
    s[..i] + s[i + 1..]
  }

  /** The removal loop of the moves: `splice(indices[i], 1)` from the last index to
      the first. */
  function SpliceOut<T>(s: seq<T>, idx: seq<int>): (r: seq<T>)
    requires Increasing(idx) && InRange(idx, |s|)
    ensures |r| == |s| - |idx|
    decreases |idx|
  {
    if |idx| == 0 then s
    else
      var last := idx[|idx| - 1];
      assert forall i :: 0 <= i < |idx| - 1 ==> idx[i] < last;
      SpliceOut(RemoveAt(s, last), idx[..|idx| - 1])
  }

  /** The elements at the positions of `sel`, in list order. */
  function Picked<T>(s: seq<T>, sel: set<int>): seq<T>
    decreases |s|
  {
    if |s| == 0 then [] else Picked(s[..|s| - 1], sel) + (if |s| - 1 in sel then [s[|s| - 1]] else [])
  }

  /** The elements at the other positions, in list order. */
  function Unpicked<T>(s: seq<T>, sel: set<int>): seq<T>
    decreases |s|
  {
    if |s| == 0 then [] else Unpicked(s[..|s| - 1], sel) + (if |s| - 1 !in sel then [s[|s| - 1]] else [])
  }

  /** The picked and the other elements together are the list, rearranged. */
  lemma {:induction false} PickedSplits<T>(s: seq<T>, sel: set<int>)
    ensures multiset(Picked(s, sel)) + multiset(Unpicked(s, sel)) == multiset(s)
    decreases |s|
  {
    if |s| > 0 {
      var init, x := s[..|s| - 1], s[|s| - 1];
      PickedSplits(init, sel);
      assert s == init + [x];
      PickedSplitsStep(init, x, sel);
    }
  }

  lemma PickedSplitsStep<T>(init: seq<T>, x: T, sel: set<int>)
    requires multiset(Picked(init, sel)) + multiset(Unpicked(init, sel)) == multiset(init)
    ensures var s := init + [x];
      multiset(Picked(s, sel)) + multiset(Unpicked(s, sel)) == multiset(s)
  {
    var s := init + [x];
    PickedLast(init, x, sel);
    var p, u := Picked(init, sel), Unpicked(init, sel);
    MultisetAppendOne(init, x);
    if |init| in sel {
      MultisetAppendOne(p, x);
    } else {
      MultisetAppendOne(u, x);
    }
  }

  /** Picking from a list with one more element. */
  lemma PickedLast<T>(init: seq<T>, x: T, sel: set<int>)
    ensures var s, n := init + [x], |init|;
      && Picked(s, sel) == Picked(init, sel) + (if n in sel then [x] else [])
      && Unpicked(s, sel) == Unpicked(init, sel) + (if n !in sel then [x] else [])
  {
    var s := init + [x];
    assert s[..|s| - 1] == init;
  }

  lemma MultisetAppendOne<T>(a: seq<T>, x: T)
    ensures multiset(a + [x]) == multiset(a) + multiset{x}
  {
  }

  /** Only the positions below the list's length matter to picking. */
  lemma {:induction false} PickedAgree<T>(s: seq<T>, a: set<int>, b: set<int>)
    requires forall k :: 0 <= k < |s| ==> (k in a <==> k in b)
    ensures Picked(s, a) == Picked(s, b) && Unpicked(s, a) == Unpicked(s, b)
    decreases |s|
  {
    if |s| > 0 {
      PickedAgree(s[..|s| - 1], a, b);
    }
  }

  lemma {:induction false} RemoveLastThenSplice<T>(s: seq<T>, x: T, idx: seq<int>)
    requires Increasing(idx) && InRange(idx, |s|)
    ensures SpliceOut(s + [x], idx) == SpliceOut(s, idx) + [x]
    decreases |idx|
  {
    if |idx| > 0 {
      var last := idx[|idx| - 1];
      assert RemoveAt(s + [x], last) == RemoveAt(s, last) + [x];
      assert forall i :: 0 <= i < |idx| - 1 ==> idx[i] < last;
      RemoveLastThenSplice(RemoveAt(s, last), x, idx[..|idx| - 1]);
    }
  }

  /** Gathering an increasing index list picks its positions; splicing them out leaves
      the others, each in list order. */
  lemma {:induction false} GatherIsPicked<T>(s: seq<T>, idx: seq<int>)
    requires Increasing(idx) && InRange(idx, |s|)
    ensures Gather(s, idx) == Picked(s, Members(idx))
    ensures SpliceOut(s, idx) == Unpicked(s, Members(idx))
    decreases |s|
  {
    if |s| > 0 {
      var n := |s|;
      var init, x := s[..n - 1], s[n - 1];
      assert s == init + [x];
      if |idx| > 0 && idx[|idx| - 1] == n - 1 {
        var front := idx[..|idx| - 1];
        assert Increasing(front) && InRange(front, n - 1);
        GatherIsPicked(init, front);
        GatherLastPicked(init, x, idx);
      } else {
        assert InRange(idx, n - 1) by {
          forall i | 0 <= i < |idx| ensures idx[i] < n - 1 {
            assert idx[i] <= idx[|idx| - 1];
          }
        }
        GatherIsPicked(init, idx);
        GatherLastUnpicked(init, x, idx);
      }
    }
  }

  /** The step of `GatherIsPicked` when the last position is picked. */
  lemma GatherLastPicked<T>(init: seq<T>, x: T, idx: seq<int>)
    requires Increasing(idx) && |idx| > 0 && idx[|idx| - 1] == |init| && InRange(idx, |init| + 1)
    requires InRange(idx[..|idx| - 1], |init|)
    requires var front := idx[..|idx| - 1];
      Gather(init, front) == Picked(init, Members(front)) && SpliceOut(init, front) == Unpicked(init, Members(front))
    ensures var s := init + [x];
      Gather(s, idx) == Picked(s, Members(idx)) && SpliceOut(s, idx) == Unpicked(s, Members(idx))
  {
    var s, front, m := init + [x], idx[..|idx| - 1], Members(idx);
    assert |init| in m;
    PickedLast(init, x, m);
    PickedAgree(init, m, Members(front));
    assert Gather(s, idx) == Gather(init, front) + [x];
    assert RemoveAt(s, |init|) == init;
  }

  /** The step of `GatherIsPicked` when the last position is not picked. */
  lemma GatherLastUnpicked<T>(init: seq<T>, x: T, idx: seq<int>)
    requires Increasing(idx) && InRange(idx, |init|)
    requires Gather(init, idx) == Picked(init, Members(idx)) && SpliceOut(init, idx) == Unpicked(init, Members(idx))
    ensures var s := init + [x];
      Gather(s, idx) == Picked(s, Members(idx)) && SpliceOut(s, idx) == Unpicked(s, Members(idx))
  {
    var s, m := init + [x], Members(idx);
    assert |init| !in m;
    PickedLast(init, x, m);
    assert Gather(s, idx) == Gather(init, idx);
    RemoveLastThenSplice(init, x, idx);
  }

  // ---------------------------------------------------------------------------
  // Moving the selection to the top, the bottom or a position
  // ---------------------------------------------------------------------------

  /** `movePathsToTop(indices)`: the elements at the indices, in order, then the rest,
      and the first positions selected. */
  function MovePathsToTop<T>(st: State<T>, idx: seq<int>): (r: State<T>)
    requires Increasing(idx) && InRange(idx, |st.elements|)
    ensures |idx| <= |r.elements| == |st.elements|
    ensures var m := Members(idx);
      && r.elements == Picked(st.elements, m) + Unpicked(st.elements, m)
      && r.selected == Span(0, |idx| - 1)
    ensures multiset(r.elements) == multiset(st.elements)
    ensures forall i :: 0 <= i < |idx| ==> r.elements[i] == st.elements[idx[i]]
  {
    var picked := Gather(st.elements, idx);
    var rest := SpliceOut(st.elements, idx);
    GatherIsPicked(st.elements, idx);
    PickedSplits(st.elements, Members(idx));
    State(picked + rest, Span(0, |picked| - 1))
  }

  /** `movePathsToBottom(indices)`: the rest, then the elements at the indices, in
      order, and the last positions selected. */
  function MovePathsToBottom<T>(st: State<T>, idx: seq<int>): (r: State<T>)
    requires Increasing(idx) && InRange(idx, |st.elements|)
    ensures |idx| <= |r.elements| == |st.elements|
    ensures var m := Members(idx);
      && r.elements == Unpicked(st.elements, m) + Picked(st.elements, m)
      && r.selected == Span(|st.elements| - |idx|, |st.elements| - 1)
    ensures multiset(r.elements) == multiset(st.elements)
    ensures var start := |st.elements| - |idx|;
      forall i :: 0 <= i < |idx| ==> r.elements[start + i] == st.elements[idx[i]]
  {
    var picked := Gather(st.elements, idx);
    var rest := SpliceOut(st.elements, idx);
    GatherIsPicked(st.elements, idx);
    PickedSplits(st.elements, Members(idx));
    var all := rest + picked;
    var start := |all| - |picked|;
    State(all, Span(start, start + |picked| - 1))
  }

  /** The number of leading indices below `t`: with increasing indices, how many
      selected positions lie before `t`. */
  function Lead(idx: seq<int>, t: int): (c: nat)
    ensures c <= |idx|
    ensures forall i :: 0 <= i < c ==> idx[i] < t
    ensures c < |idx| ==> idx[c] >= t
  {
    if |idx| == 0 || idx[0] >= t then 0 else 1 + Lead(idx[1..], t)
  }

  /** The target adjustment of `moveSelectedPathsToPosition`: from the last selected
      index to the first, the target moves back by one for every index below its
      current value. */
  function AdjustTarget(idx: seq<int>, t: int, i: int): int
    requires i < |idx|
    decreases i
  {
    if i < 0 then t else AdjustTarget(idx, if idx[i] < t then t - 1 else t, i - 1)
  }

  /** Increasing integers are at least as far apart as their places. */
  lemma {:induction false} Gap(idx: seq<int>, a: int, b: int)
    requires Increasing(idx) && 0 <= a <= b < |idx|
    ensures idx[b] >= idx[a] + (b - a)
    decreases b - a
  {
    if a < b {
      Gap(idx, a, b - 1);
    }
  }

  /** Although the target changes as it goes, the adjustment subtracts exactly the
      number of indices below the original target. */
  lemma {:induction false} AdjustCounts(idx: seq<int>, t: int, tc: int, i: int)
    requires Increasing(idx) && -1 <= i < |idx|
    requires tc == t - (if Lead(idx, t) - 1 - i > 0 then Lead(idx, t) - 1 - i else 0)
    ensures AdjustTarget(idx, tc, i) == t - Lead(idx, t)
    decreases i + 1
  {
    var lead := Lead(idx, t);
    if i >= 0 {
      if i < lead {
        Gap(idx, i, lead - 1);
        assert idx[i] < tc;
      } else {
        if i < |idx| {
          Gap(idx, lead, i);
        }
        assert idx[i] >= t;
      }
      AdjustCounts(idx, t, if idx[i] < tc then tc - 1 else tc, i - 1);
    }
  }

  /** The adjusted target is a position in what remains after splicing out. */
  lemma TargetFits(idx: seq<int>, t: int, n: int)
    requires Increasing(idx) && InRange(idx, n) && 0 <= t <= n
    ensures 0 <= t - Lead(idx, t) <= n - |idx|
  {
    var lead := Lead(idx, t);
    if lead > 0 {
      Gap(idx, 0, lead - 1);
    }
    if lead < |idx| {
      Gap(idx, lead, |idx| - 1);
    }
  }

  /** `splice(at, 0, ...block)`. */
  function Splice<T>(rest: seq<T>, at: int, block: seq<T>): (r: seq<T>)
    requires 0 <= at <= |rest|
    ensures |r| == |rest| + |block|
    ensures multiset(r) == multiset(rest) + multiset(block)
    ensures forall i :: 0 <= i < |block| ==> r[at + i] == block[i]
  {
    assert rest == rest[..at] + rest[at..];
    rest[..at] + block + rest[at..]
  }

  /** What the steps of the move to a position compute, for a selection within the
      list and a target in it. */
  lemma PositionFacts<T>(s: seq<T>, sel: set<int>, t: int)
    requires Within(sel, |s|) && 0 <= t <= |s|
    ensures var idx := Ascending(sel, |s|);
      && AdjustTarget(idx, t, |idx| - 1) == t - Lead(idx, t)
      && 0 <= t - Lead(idx, t) <= |s| - |idx|
      && Gather(s, idx) == Picked(s, sel) && SpliceOut(s, idx) == Unpicked(s, sel)
      && multiset(Picked(s, sel)) + multiset(Unpicked(s, sel)) == multiset(s)
  {
    var idx := Ascending(sel, |s|);
    AdjustCounts(idx, t, t, |idx| - 1);
    TargetFits(idx, t, |s|);
    GatherIsPicked(s, idx);
    AscendingLists(sel, |s|);
    PickedSplits(s, sel);
  }

  /** `moveSelectedPathsToPosition(t)` for a drop on position `t`: nothing without a
      selection; otherwise the selected elements, in order, go in as a block where
      `t` falls among the others (`t` less the number of selected positions before
      it), and the block is selected. */
  function MoveToPosition<T>(st: State<T>, t: int): (r: State<T>)
    requires Valid(st) && 0 <= t <= |st.elements|
    ensures st.selected == {} ==> r == st
    ensures st.selected != {} ==>
      var idx := Ascending(st.selected, |st.elements|);
      var at := t - Lead(idx, t);
      var rest := Unpicked(st.elements, st.selected);
      && 0 <= at <= |rest|
      && r.elements == rest[..at] + Picked(st.elements, st.selected) + rest[at..]
      && forall k :: k in r.selected <==> at <= k < at + |idx|
    ensures multiset(r.elements) == multiset(st.elements)
    ensures Valid(r)
  {
    if st.selected == {} then st
    else
      var r := PlaceBlock(st, t);
      var idx := Ascending(st.selected, |st.elements|);
      PositionFacts(st.elements, st.selected, t);
      BlockPermutes(Unpicked(st.elements, st.selected), t - Lead(idx, t), Picked(st.elements, st.selected));
      r
  }

  lemma BlockPermutes<T>(rest: seq<T>, at: int, block: seq<T>)
    requires 0 <= at <= |rest|
    ensures multiset(rest[..at] + block + rest[at..]) == multiset(rest) + multiset(block)
  {
    assert rest == rest[..at] + rest[at..];
  }

  /** The move to a position once there is a selection. */
  function PlaceBlock<T>(st: State<T>, t: int): (r: State<T>)
    requires Valid(st) && 0 <= t <= |st.elements|
    ensures var idx := Ascending(st.selected, |st.elements|);
      var at := t - Lead(idx, t);
      var rest := Unpicked(st.elements, st.selected);
      && 0 <= at <= |rest|
      && r.elements == rest[..at] + Picked(st.elements, st.selected) + rest[at..]
      && (forall k :: k in r.selected <==> at <= k < at + |idx|)
      && |r.elements| == |st.elements| && at + |idx| <= |st.elements|
  {
    var idx := Ascending(st.selected, |st.elements|);
    var picked := Gather(st.elements, idx);
    var rest := SpliceOut(st.elements, idx);
    var at := AdjustTarget(idx, t, |idx| - 1);
    PositionFacts(st.elements, st.selected, t);
    assert at == t - Lead(idx, t) && |picked| == |idx|;
    State(Splice(rest, at, picked), Span(at, at + |picked| - 1))
  }

  /** `handleDrop(e, targetIndex)`: a drop while something is dragged, onto a position
      other than the dragged one, moves the selection there; otherwise nothing
      changes. */
  function Drop<T>(st: State<T>, dragging: bool, dragged: int, t: int): (r: State<T>)
    requires Valid(st) && 0 <= t <= |st.elements|
    ensures !dragging || dragged == t || st.selected == {} ==> r == st
    ensures multiset(r.elements) == multiset(st.elements) && Valid(r)
    ensures dragging && dragged != t && st.selected != {} ==>
      var idx := Ascending(st.selected, |st.elements|);
      var at := t - Lead(idx, t);
      && 0 <= at && at + |idx| <= |r.elements|
      && r.elements[at..at + |idx|] == Gather(st.elements, idx)
      && forall k :: k in r.selected <==> at <= k < at + |idx|
  {
    if dragging && dragged != t then
      if st.selected != {} then BlockLandsAt(st, t); MoveToPosition(st, t)
      else MoveToPosition(st, t)
    else st
  }

  /** After a move to a position the selected elements, in order, sit at the block's
      place. */
  lemma BlockLandsAt<T>(st: State<T>, t: int)
    requires Valid(st) && 0 <= t <= |st.elements| && st.selected != {}
    ensures var idx := Ascending(st.selected, |st.elements|);
      var at := t - Lead(idx, t);
      var r := MoveToPosition(st, t);
      && 0 <= at && at + |idx| <= |r.elements|
      && r.elements[at..at + |idx|] == Gather(st.elements, idx)
  {
    var idx := Ascending(st.selected, |st.elements|);
    AscendingLists(st.selected, |st.elements|);
    GatherIsPicked(st.elements, idx);
    var r := MoveToPosition(st, t);
    var at := t - Lead(idx, t);
    var rest := Unpicked(st.elements, st.selected);
    assert r.elements == rest[..at] + Gather(st.elements, idx) + rest[at..];
  }

  // ---------------------------------------------------------------------------
  // Moving the selection down one place
  // ---------------------------------------------------------------------------

  /** Position `k` and every later position of the list are selected: the run at the
      end of the list, which moving down leaves where it is. */
  predicate PinnedDown(sel: set<int>, n: int, k: int) {
    forall m :: k <= m < n ==> m in sel
  }

  /** The number of selected positions directly before `k`. */
  function RunBefore(sel: set<int>, k: int): (c: nat)
    ensures c <= (if k > 0 then k else 0)
    ensures forall m :: k - c <= m < k ==> m in sel
    ensures k - c - 1 >= 0 ==> k - c - 1 !in sel
    decreases k
  {
    if k <= 0 || k - 1 !in sel then 0 else 1 + RunBefore(sel, k - 1)
  }

  /** A selected position that is not pinned has an unselected one after it. */
  lemma RoomBelow(sel: set<int>, n: int, k: int)
    requires 0 <= k < n && k in sel && !PinnedDown(sel, n, k)
    ensures k + 1 < n
  {
    var m :| k <= m < n && m !in sel;
  }

  /** Where moving the selection down one place takes the element at `k`: a selected
      element goes one place down unless it is pinned; an unselected one goes up past
      the selected run before it. */
  function DownTo(sel: set<int>, n: int, k: int): (p: int)
    ensures 0 <= k < n ==> 0 <= p < n
  {
    if k in sel then
      if PinnedDown(sel, n, k) then k
      else if k < 0 || n <= k then k + 1
      else RoomBelow(sel, n, k); k + 1
    else k - RunBefore(sel, k)
  }

  /** No two elements are taken to the same place, so `DownTo` rearranges the list. */
  lemma DownToInjective(sel: set<int>, n: int, a: int, b: int)
    requires 0 <= a < b < n
    ensures DownTo(sel, n, a) != DownTo(sel, n, b)
  {
    if a in sel && b in sel {
      if PinnedDown(sel, n, b) && b == a + 1 {
        assert PinnedDown(sel, n, a);
      }
    } else if a in sel {
      assert !PinnedDown(sel, n, a) by { assert b !in sel; }
    } else if b !in sel {
      assert a < b - RunBefore(sel, b);
    }
  }

  /** `indices[j]++` for every `j` from `i` on. */
  function IncreaseFrom(idx: seq<int>, i: int): (r: seq<int>)
    requires 0 <= i <= |idx|
    ensures |r| == |idx|
    ensures forall j :: 0 <= j < i ==> r[j] == idx[j]
    ensures forall j :: i <= j < |idx| ==> r[j] == idx[j] + 1
  {
    idx[..i] + seq(|idx| - i, j requires 0 <= j < |idx| - i => idx[i + j] + 1)
  }

  /** One turn of the loop of `movePathsDown(indices)` at the `i`-th index: the
      element there swaps with the next one when it is not the last and the next
      position is not among the indices as updated so far; then every index from
      the `i`-th on is increased and the selection follows the element. */
  function DownStepOnce<T>(e: seq<T>, idx: seq<int>, sel: set<int>, i: int): (r: (seq<T>, seq<int>, set<int>))
    requires 0 <= i < |idx| && 0 <= idx[i] < |e|
    ensures |r.0| == |e| && multiset(r.0) == multiset(e)
    ensures |r.1| == |idx| && forall j :: 0 <= j < i ==> r.1[j] == idx[j]
  {
    var k := idx[i];
    if k < |e| - 1 && k + 1 !in idx then (Swap(e, k, k + 1), IncreaseFrom(idx, i), sel - {k} + {k + 1})
    else (e, idx, sel)
  }

  /** `movePathsDown(indices)`, the loop from the `i`-th index down to the first. */
  function DownPass<T>(e: seq<T>, idx: seq<int>, sel: set<int>, i: int): (r: (seq<T>, set<int>))
    requires i < |idx|
    requires forall j :: 0 <= j <= i ==> 0 <= idx[j] < |e|
    ensures |r.0| == |e|
    decreases i + 1
  {
    if i < 0 then (e, sel)
    else
      var t := DownStepOnce(e, idx, sel, i);
      DownPass(t.0, t.1, t.2, i - 1)
  }

  /** `movePathsDown(indices)`. */
  function MovePathsDown<T>(st: State<T>, idx: seq<int>): (r: State<T>)
    requires InRange(idx, |st.elements|)
    ensures |r.elements| == |st.elements| && multiset(r.elements) == multiset(st.elements)
  {
    var p := DownPass(st.elements, idx, st.selected, |idx| - 1);
    DownPassPermutes(st.elements, idx, st.selected, |idx| - 1);
    State(p.0, p.1)
  }

  /** The loop only swaps elements. */
  lemma {:induction false} DownPassPermutes<T>(e: seq<T>, idx: seq<int>, sel: set<int>, i: int)
    requires i < |idx|
    requires forall j :: 0 <= j <= i ==> 0 <= idx[j] < |e|
    ensures multiset(DownPass(e, idx, sel, i).0) == multiset(e)
    decreases i + 1
  {
    if i >= 0 {
      var t := DownStepOnce(e, idx, sel, i);
      DownPassPermutes(t.0, t.1, t.2, i - 1);
      assert DownPass(e, idx, sel, i) == DownPass(t.0, t.1, t.2, i - 1);
    }
  }

  /** The indices after the `i`-th: those the loop has handled. */
  function After(orig: seq<int>, i: int): set<int>
    requires -1 <= i < |orig|
  {
    set j | i < j < |orig| :: orig[j]
  }

  /** Where the selected positions go. */
  function DownImage(sel: set<int>, a: set<int>, n: int): set<int> {
    set k | k in sel :: DownTo(a, n, k)
  }

  /** What the loop keeps of the original indices `orig` before handling the `i`-th:
      the ones not yet handled are as they were; a handled one is never smaller than
      it was and is larger unless it is pinned; while all handled ones are pinned,
      none has changed. */
  predicate DownIndices(orig: seq<int>, idx: seq<int>, n: int, i: int)
    requires -1 <= i < |orig|
  {
    && |idx| == |orig|
    && (forall j :: 0 <= j <= i ==> idx[j] == orig[j])
    && (forall j :: i < j < |orig| ==> idx[j] >= orig[j])
    && (forall j :: i < j < |orig| && !PinnedDown(After(orig, i), n, orig[j]) ==> idx[j] > orig[j])
    && (i + 1 < |orig| && PinnedDown(After(orig, i), n, orig[i + 1]) ==>
          forall j :: i < j < |orig| ==> idx[j] == orig[j])
  }

  lemma AfterStep(orig: seq<int>, i: int)
    requires Increasing(orig) && 0 <= i < |orig|
    ensures After(orig, i - 1) == After(orig, i) + {orig[i]}
    ensures orig[i] !in After(orig, i) && forall a :: a in After(orig, i) ==> a > orig[i]
  {
    assert orig[i] in After(orig, i - 1);
  }

  /** The loop's test on the `i`-th index holds exactly when that element is not
      pinned once it counts as handled. */
  lemma CheckDown(orig: seq<int>, idx: seq<int>, n: int, i: int)
    requires Increasing(orig) && InRange(orig, n) && 0 <= i < |orig|
    requires DownIndices(orig, idx, n, i)
    ensures (orig[i] < n - 1 && orig[i] + 1 !in idx) <==> !PinnedDown(After(orig, i - 1), n, orig[i])
  {
    var k0, a := orig[i], After(orig, i);
    AfterStep(orig, i);
    if k0 < n - 1 {
      assert PinnedDown(After(orig, i - 1), n, k0) <==> PinnedDown(a, n, k0 + 1);
      if PinnedDown(a, n, k0 + 1) {
        assert k0 + 1 in a;
        var j :| i < j < |orig| && orig[j] == k0 + 1;
        assert orig[i + 1] <= orig[j];
        assert idx[i + 1] == k0 + 1;
      }
      if k0 + 1 in idx {
        assert forall j :: 0 <= j <= i ==> idx[j] <= k0;
        var j :| 0 <= j < |idx| && idx[j] == k0 + 1;
        if j > i {
          assert orig[j] >= orig[i + 1] > k0;
          assert orig[j] == k0 + 1;
        }
      }
    }
  }

  /** Handling one more index that moves keeps `DownIndices`. */
  lemma IndicesAfterMove(orig: seq<int>, idx: seq<int>, n: int, i: int)
    requires Increasing(orig) && 0 <= i < |orig|
    requires DownIndices(orig, idx, n, i) && !PinnedDown(After(orig, i - 1), n, orig[i])
    ensures DownIndices(orig, IncreaseFrom(idx, i), n, i - 1)
  {
  }

  /** Handling one more index that stays keeps `DownIndices`. */
  lemma IndicesAfterStay(orig: seq<int>, idx: seq<int>, n: int, i: int)
    requires Increasing(orig) && 0 <= i < |orig|
    requires DownIndices(orig, idx, n, i) && PinnedDown(After(orig, i - 1), n, orig[i])
    ensures DownIndices(orig, idx, n, i - 1)
  {
    var k0, a, a' := orig[i], After(orig, i), After(orig, i - 1);
    AfterStep(orig, i);
    forall j | i < j < |orig| ensures PinnedDown(a', n, orig[j]) <==> PinnedDown(a, n, orig[j]) {
      assert orig[j] > k0;
    }
    if i + 1 < |orig| {
      assert orig[i + 1] > k0;
      assert PinnedDown(a, n, orig[i + 1]);
    }
  }

  /** Adding `k0`, below everything already handled, lengthens the run before `k`
      exactly when that run starts right after `k0`. */
  lemma {:induction false} RunBeforeAdd(a: set<int>, k0: int, k: int)
    requires 0 <= k0 < k && k0 !in a && forall x :: x in a ==> x > k0
    ensures RunBefore(a + {k0}, k) == RunBefore(a, k) + (if k - RunBefore(a, k) == k0 + 1 then 1 else 0)
    decreases k
  {
    if k - 1 == k0 {
      assert RunBefore(a + {k0}, k0) == 0;
    } else if k - 1 in a {
      RunBeforeAdd(a, k0, k - 1);
    }
  }

  /** How adding `k0` to the handled positions changes where each element goes. */
  lemma DownStep(a: set<int>, n: int, k0: int, k: int)
    requires 0 <= k0 < n && 0 <= k < n && k != k0
    requires k0 !in a && forall x :: x in a ==> x > k0
    ensures DownTo(a, n, k0) == k0
    ensures DownTo(a + {k0}, n, k0) == (if PinnedDown(a + {k0}, n, k0) then k0 else k0 + 1)
    ensures DownTo(a, n, k) != k0
    ensures PinnedDown(a + {k0}, n, k0) ==> DownTo(a + {k0}, n, k) == DownTo(a, n, k)
    ensures !PinnedDown(a + {k0}, n, k0) ==>
      DownTo(a + {k0}, n, k) == (if DownTo(a, n, k) == k0 + 1 then k0 else DownTo(a, n, k))
  {
    var a' := a + {k0};
    if k < k0 {
      assert RunBefore(a, k) == 0 && RunBefore(a', k) == 0;
    } else if k in a {
      assert PinnedDown(a', n, k) <==> PinnedDown(a, n, k);
      if DownTo(a, n, k) == k0 + 1 {
        assert PinnedDown(a', n, k0);
      }
    } else {
      RunBeforeAdd(a, k0, k);
      assert !PinnedDown(a', n, k0) by { assert k0 <= k < n && k !in a'; }
    }
  }

  /** Swapping the element at `k0` with the next one carries the placement from the
      handled set `a` to `a + {k0}`. */
  lemma ElementsAfterMove<T>(s: seq<T>, e: seq<T>, a: set<int>, k0: int)
    requires |e| == |s| && 0 <= k0 < |s| - 1
    requires k0 !in a && forall x :: x in a ==> x > k0
    requires !PinnedDown(a + {k0}, |s|, k0)
    requires forall k :: 0 <= k < |s| ==> e[DownTo(a, |s|, k)] == s[k]
    ensures forall k :: 0 <= k < |s| ==> Swap(e, k0, k0 + 1)[DownTo(a + {k0}, |s|, k)] == s[k]
  {
    var n := |s|;
    forall k | 0 <= k < n ensures Swap(e, k0, k0 + 1)[DownTo(a + {k0}, n, k)] == s[k] {
      if k == k0 {
        assert DownTo(a, n, k0) == k0 && DownTo(a + {k0}, n, k0) == k0 + 1 by {
          DownStep(a, n, k0, k0 + 1);
        }
      } else {
        DownStep(a, n, k0, k);
      }
    }
  }

  /** When the element at `k0` stays, the placement is the same for `a + {k0}`. */
  lemma ElementsAfterStay<T>(s: seq<T>, e: seq<T>, a: set<int>, k0: int)
    requires |e| == |s| && 0 <= k0 < |s|
    requires k0 !in a && forall x :: x in a ==> x > k0
    requires PinnedDown(a + {k0}, |s|, k0)
    requires forall k :: 0 <= k < |s| ==> e[DownTo(a, |s|, k)] == s[k]
    ensures forall k :: 0 <= k < |s| ==> e[DownTo(a + {k0}, |s|, k)] == s[k]
  {
    var n := |s|;
    forall k | 0 <= k < n ensures DownTo(a + {k0}, n, k) == DownTo(a, n, k) {
      if k == k0 {
        assert RunBefore(a, k0) == 0;
      } else {
        DownStep(a, n, k0, k);
      }
    }
  }

  /** The selection follows the element that moves from `k0` to `k0 + 1`. */
  lemma ImageAfterMove(sel: set<int>, a: set<int>, n: int, k0: int)
    requires 0 <= k0 < n - 1 && k0 in sel
    requires k0 !in a && forall x :: x in a ==> x > k0
    requires forall x :: x in sel ==> 0 <= x < n && (x in a || x <= k0)
    requires !PinnedDown(a + {k0}, n, k0)
    ensures DownImage(sel, a, n) - {k0} + {k0 + 1} == DownImage(sel, a + {k0}, n)
  {
    var a' := a + {k0};
    DownStep(a, n, k0, k0 + 1);
    forall p ensures p in DownImage(sel, a, n) - {k0} + {k0 + 1} <==> p in DownImage(sel, a', n) {
      if p in DownImage(sel, a, n) && p != k0 {
        var x :| x in sel && DownTo(a, n, x) == p;
        DownStep(a, n, k0, x);
        assert p == DownTo(a', n, x);
      }
      if p in DownImage(sel, a', n) && p != k0 + 1 {
        var x :| x in sel && DownTo(a', n, x) == p;
        DownStep(a, n, k0, x);
        if x < k0 {
          assert RunBefore(a, x) == 0;
        }
        assert p == DownTo(a, n, x) && p != k0;
      }
      assert DownTo(a', n, k0) == k0 + 1;
    }
  }

  /** When the element at `k0` stays, so does the selection. */
  lemma ImageAfterStay(sel: set<int>, a: set<int>, n: int, k0: int)
    requires 0 <= k0 < n
    requires k0 !in a && forall x :: x in a ==> x > k0
    requires forall x :: x in sel ==> 0 <= x < n
    requires PinnedDown(a + {k0}, n, k0)
    ensures DownImage(sel, a, n) == DownImage(sel, a + {k0}, n)
  {
    forall k | 0 <= k < n ensures DownTo(a + {k0}, n, k) == DownTo(a, n, k) {
      if k == k0 {
        assert RunBefore(a, k0) == 0;
      } else {
        DownStep(a, n, k0, k);
      }
    }
  }

  /** From the `i`-th index down, the loop takes each original element at `k` to
      `DownTo` of the whole selection, and the selection with it. */
  lemma {:induction false} DownPassMeets<T>(s: seq<T>, orig: seq<int>, e: seq<T>, idx: seq<int>, cur: set<int>, i: int)
    requires Increasing(orig) && InRange(orig, |s|) && |e| == |s| && -1 <= i < |orig|
    requires DownIndices(orig, idx, |s|, i)
    requires forall k :: 0 <= k < |s| ==> e[DownTo(After(orig, i), |s|, k)] == s[k]
    requires cur == DownImage(Members(orig), After(orig, i), |s|)
    ensures var r := DownPass(e, idx, cur, i);
      && (forall k :: 0 <= k < |s| ==> r.0[DownTo(After(orig, -1), |s|, k)] == s[k])
      && r.1 == DownImage(Members(orig), After(orig, -1), |s|)
    decreases i + 1
  {
    if i >= 0 {
      var t := DownStepOnce(e, idx, cur, i);
      DownMeetsStep(s, orig, e, idx, cur, i);
      DownPassMeets(s, orig, t.0, t.1, t.2, i - 1);
      assert DownPass(e, idx, cur, i) == DownPass(t.0, t.1, t.2, i - 1);
    }
  }

  /** One turn of the loop keeps the invariant of `DownPassMeets`. */
  lemma DownMeetsStep<T>(s: seq<T>, orig: seq<int>, e: seq<T>, idx: seq<int>, cur: set<int>, i: int)
    requires Increasing(orig) && InRange(orig, |s|) && |e| == |s| && 0 <= i < |orig|
    requires DownIndices(orig, idx, |s|, i)
    requires forall k :: 0 <= k < |s| ==> e[DownTo(After(orig, i), |s|, k)] == s[k]
    requires cur == DownImage(Members(orig), After(orig, i), |s|)
    ensures var t := DownStepOnce(e, idx, cur, i);
      && |t.0| == |s| && DownIndices(orig, t.1, |s|, i - 1)
      && (forall k :: 0 <= k < |s| ==> t.0[DownTo(After(orig, i - 1), |s|, k)] == s[k])
      && t.2 == DownImage(Members(orig), After(orig, i - 1), |s|)
  {
    if orig[i] < |s| - 1 && orig[i] + 1 !in idx {
      DownStepMoves(s, orig, e, idx, cur, i);
    } else {
      DownStepStays(s, orig, e, idx, cur, i);
    }
  }

  /** The turn of the loop that swaps keeps the invariant of `DownPassMeets`. */
  lemma DownStepMoves<T>(s: seq<T>, orig: seq<int>, e: seq<T>, idx: seq<int>, cur: set<int>, i: int)
    requires Increasing(orig) && InRange(orig, |s|) && |e| == |s| && 0 <= i < |orig|
    requires DownIndices(orig, idx, |s|, i)
    requires forall k :: 0 <= k < |s| ==> e[DownTo(After(orig, i), |s|, k)] == s[k]
    requires cur == DownImage(Members(orig), After(orig, i), |s|)
    requires orig[i] < |s| - 1 && orig[i] + 1 !in idx
    ensures var t := DownStepOnce(e, idx, cur, i);
      && |t.0| == |s| && DownIndices(orig, t.1, |s|, i - 1)
      && (forall k :: 0 <= k < |s| ==> t.0[DownTo(After(orig, i - 1), |s|, k)] == s[k])
      && t.2 == DownImage(Members(orig), After(orig, i - 1), |s|)
  {
    var k0 := orig[i];
    StepOnceSwaps(e, idx, cur, i);
    DownIndicesMove(orig, idx, |s|, i);
    DownMeetsMove(s, orig, e, idx, cur, i);
  }

  /** The turn of the loop whose element has an unselected place below it swaps. */
  lemma StepOnceSwaps<T>(e: seq<T>, idx: seq<int>, sel: set<int>, i: int)
    requires 0 <= i < |idx| && 0 <= idx[i] < |e| - 1 && idx[i] + 1 !in idx
    ensures var k := idx[i];
      DownStepOnce(e, idx, sel, i) == (Swap(e, k, k + 1), IncreaseFrom(idx, i), sel - {k} + {k + 1})
  {
  }

  /** The turn of the loop that leaves the element in place keeps the invariant of
      `DownPassMeets`. */
  lemma DownStepStays<T>(s: seq<T>, orig: seq<int>, e: seq<T>, idx: seq<int>, cur: set<int>, i: int)
    requires Increasing(orig) && InRange(orig, |s|) && |e| == |s| && 0 <= i < |orig|
    requires DownIndices(orig, idx, |s|, i)
    requires forall k :: 0 <= k < |s| ==> e[DownTo(After(orig, i), |s|, k)] == s[k]
    requires cur == DownImage(Members(orig), After(orig, i), |s|)
    requires !(orig[i] < |s| - 1 && orig[i] + 1 !in idx)
    ensures var t := DownStepOnce(e, idx, cur, i);
      && |t.0| == |s| && DownIndices(orig, t.1, |s|, i - 1)
      && (forall k :: 0 <= k < |s| ==> t.0[DownTo(After(orig, i - 1), |s|, k)] == s[k])
      && t.2 == DownImage(Members(orig), After(orig, i - 1), |s|)
  {
    DownIndicesStay(orig, idx, |s|, i);
    DownMeetsStay(s, orig, e, idx, cur, i);
    assert DownStepOnce(e, idx, cur, i) == (e, idx, cur);
  }

  /** The turn of the loop that swaps keeps `DownIndices`. */
  lemma DownIndicesMove(orig: seq<int>, idx: seq<int>, n: int, i: int)
    requires Increasing(orig) && InRange(orig, n) && 0 <= i < |orig|
    requires DownIndices(orig, idx, n, i) && orig[i] < n - 1 && orig[i] + 1 !in idx
    ensures DownIndices(orig, IncreaseFrom(idx, i), n, i - 1)
  {
    CheckDown(orig, idx, n, i);
    IndicesAfterMove(orig, idx, n, i);
  }

  /** The turn of the loop that leaves the element in place keeps `DownIndices`. */
  lemma DownIndicesStay(orig: seq<int>, idx: seq<int>, n: int, i: int)
    requires Increasing(orig) && InRange(orig, n) && 0 <= i < |orig|
    requires DownIndices(orig, idx, n, i) && !(orig[i] < n - 1 && orig[i] + 1 !in idx)
    ensures DownIndices(orig, idx, n, i - 1)
  {
    CheckDown(orig, idx, n, i);
    IndicesAfterStay(orig, idx, n, i);
  }

  /** The turn of the loop that swaps moves the elements and the selection. */
  lemma DownMeetsMove<T>(s: seq<T>, orig: seq<int>, e: seq<T>, idx: seq<int>, cur: set<int>, i: int)
    requires Increasing(orig) && InRange(orig, |s|) && |e| == |s| && 0 <= i < |orig|
    requires DownIndices(orig, idx, |s|, i)
    requires forall k :: 0 <= k < |s| ==> e[DownTo(After(orig, i), |s|, k)] == s[k]
    requires cur == DownImage(Members(orig), After(orig, i), |s|)
    requires orig[i] < |s| - 1 && orig[i] + 1 !in idx
    ensures var k0 := orig[i];
      && (forall k :: 0 <= k < |s| ==> Swap(e, k0, k0 + 1)[DownTo(After(orig, i - 1), |s|, k)] == s[k])
      && cur - {k0} + {k0 + 1} == DownImage(Members(orig), After(orig, i - 1), |s|)
  {
    var n, k0, a := |s|, orig[i], After(orig, i);
    AfterStep(orig, i);
    CheckDown(orig, idx, n, i);
    assert forall k :: 0 <= k < n ==> Swap(e, k0, k0 + 1)[DownTo(a + {k0}, n, k)] == s[k] by {
      ElementsAfterMove(s, e, a, k0);
    }
    assert cur - {k0} + {k0 + 1} == DownImage(Members(orig), a + {k0}, n) by {
      MembersAroundDown(orig, i, n);
      ImageAfterMove(Members(orig), a, n, k0);
    }
  }

  /** The turn of the loop that leaves the element in place moves nothing. */
  lemma DownMeetsStay<T>(s: seq<T>, orig: seq<int>, e: seq<T>, idx: seq<int>, cur: set<int>, i: int)
    requires Increasing(orig) && InRange(orig, |s|) && |e| == |s| && 0 <= i < |orig|
    requires DownIndices(orig, idx, |s|, i)
    requires forall k :: 0 <= k < |s| ==> e[DownTo(After(orig, i), |s|, k)] == s[k]
    requires cur == DownImage(Members(orig), After(orig, i), |s|)
    requires !(orig[i] < |s| - 1 && orig[i] + 1 !in idx)
    ensures && (forall k :: 0 <= k < |s| ==> e[DownTo(After(orig, i - 1), |s|, k)] == s[k])
      && cur == DownImage(Members(orig), After(orig, i - 1), |s|)
  {
    var n, k0, a := |s|, orig[i], After(orig, i);
    AfterStep(orig, i);
    CheckDown(orig, idx, n, i);
    assert forall k :: 0 <= k < n ==> e[DownTo(a + {k0}, n, k)] == s[k] by {
      ElementsAfterStay(s, e, a, k0);
    }
    assert cur == DownImage(Members(orig), a + {k0}, n) by {
      MembersAroundDown(orig, i, n);
      ImageAfterStay(Members(orig), a, n, k0);
    }
  }

  lemma MembersAroundDown(orig: seq<int>, i: int, n: int)
    requires Increasing(orig) && InRange(orig, n) && 0 <= i < |orig|
    ensures orig[i] in Members(orig)
    ensures forall x :: x in Members(orig) ==> 0 <= x < n && (x in After(orig, i) || x <= orig[i])
  {
    forall x | x in Members(orig) ensures 0 <= x < n && (x in After(orig, i) || x <= orig[i]) {
      var j :| 0 <= j < |orig| && orig[j] == x;
      if j > i {
        assert x in After(orig, i);
      }
    }
  }

  /** Moving a valid selection down one place takes each element at `k` to
      `DownTo(selection, n, k)` — a rearrangement of the list — and the selection
      follows the selected elements. */
  lemma MovePathsDownMoves<T>(st: State<T>)
    requires Valid(st)
    ensures var n := |st.elements|;
      var r := MovePathsDown(st, Ascending(st.selected, n));
      && (forall k :: 0 <= k < n ==> r.elements[DownTo(st.selected, n, k)] == st.elements[k])
      && r.selected == DownImage(st.selected, st.selected, n)
  {
    var n, sel := |st.elements|, st.selected;
    var orig := Ascending(sel, n);
    AfterEnds(orig, sel, n);
    DownNothingHandled(sel, n);
    DownPassMeets(st.elements, orig, st.elements, orig, sel, |orig| - 1);
  }

  /** Before the loop no index is handled, after it every one is. */
  lemma AfterEnds(orig: seq<int>, sel: set<int>, n: int)
    requires Within(sel, n) && orig == Ascending(sel, n)
    ensures After(orig, -1) == sel && After(orig, |orig| - 1) == {}
  {
    AscendingLists(sel, n);
    assert After(orig, -1) == Members(orig);
  }

  /** With nothing handled, nothing has moved. */
  lemma DownNothingHandled(sel: set<int>, n: int)
    requires Within(sel, n)
    ensures forall k :: 0 <= k < n ==> DownTo({}, n, k) == k
    ensures DownImage(sel, {}, n) == sel
  {
    forall k | 0 <= k < n ensures DownTo({}, n, k) == k {
      assert RunBefore({}, k) == 0;
    }
    forall x | x in sel ensures x in DownImage(sel, {}, n) {
      assert DownTo({}, n, x) == x;
    }
  }

  // ---------------------------------------------------------------------------
  // Moving the selection up one place
  // ---------------------------------------------------------------------------

  /** `indices[j]--` for every `j` from `i` on. */
  function DecreaseFrom(idx: seq<int>, i: int): (r: seq<int>)
    requires 0 <= i <= |idx|
    ensures |r| == |idx|
    ensures forall j :: 0 <= j < i ==> r[j] == idx[j]
    ensures forall j :: i <= j < |idx| ==> r[j] == idx[j] - 1
  {
    idx[..i] + seq(|idx| - i, j requires 0 <= j < |idx| - i => idx[i + j] - 1)
  }

  /** One turn of the loop of `movePathsUp(indices)` as written at the `i`-th
      index: the element there swaps with the previous one when it is not the
      first and the previous position is not among the indices; then every index
      from the `i`-th on is decreased — also those of the elements not handled yet,
      which have not moved — and the selection follows the element. */
  function UpStepOnceAsWritten<T>(e: seq<T>, idx: seq<int>, sel: set<int>, i: int): (r: (seq<T>, seq<int>, set<int>))
    requires 0 <= i < |idx| && Increasing(idx) && InRange(idx, |e|)
    ensures |r.0| == |e| && multiset(r.0) == multiset(e)
    ensures Increasing(r.1) && InRange(r.1, |e|)
    ensures Within(sel, |e|) ==> Within(r.2, |e|)
  {
    var k := idx[i];
    if k > 0 && k - 1 !in idx then (Swap(e, k, k - 1), DecreaseFrom(idx, i), sel - {k} + {k - 1})
    else (e, idx, sel)
  }

  /** `movePathsUp(indices)` as written, the loop from the `i`-th index on. */
  function UpPassAsWritten<T>(e: seq<T>, idx: seq<int>, sel: set<int>, i: int): (r: (seq<T>, set<int>))
    requires 0 <= i <= |idx| && Increasing(idx) && InRange(idx, |e|)
    ensures |r.0| == |e|
    ensures Within(sel, |e|) ==> Within(r.1, |e|)
    decreases |idx| - i
  {
    if i == |idx| then (e, sel)
    else
      var t := UpStepOnceAsWritten(e, idx, sel, i);
      UpPassAsWritten(t.0, t.1, t.2, i + 1)
  }

  /** `movePathsUp(indices)` as written. */
  function MovePathsUpAsWritten<T>(st: State<T>, idx: seq<int>): (r: State<T>)
    requires Increasing(idx) && InRange(idx, |st.elements|)
    ensures |r.elements| == |st.elements| && multiset(r.elements) == multiset(st.elements)
    ensures Valid(st) ==> Valid(r)
  {
    var p := UpPassAsWritten(st.elements, idx, st.selected, 0);
    UpPassAsWrittenPermutes(st.elements, idx, st.selected, 0);
    State(p.0, p.1)
  }

  /** The loop as written still only swaps elements. */
  lemma {:induction false} UpPassAsWrittenPermutes<T>(e: seq<T>, idx: seq<int>, sel: set<int>, i: int)
    requires 0 <= i <= |idx| && Increasing(idx) && InRange(idx, |e|)
    ensures multiset(UpPassAsWritten(e, idx, sel, i).0) == multiset(e)
    decreases |idx| - i
  {
    if i < |idx| {
      var t := UpStepOnceAsWritten(e, idx, sel, i);
      UpPassAsWrittenPermutes(t.0, t.1, t.2, i + 1);
      assert UpPassAsWritten(e, idx, sel, i) == UpPassAsWritten(t.0, t.1, t.2, i + 1);
    }
  }

  /** Position `k` and every earlier position are selected: the run at the start of
      the list, which moving up leaves where it is. */
  predicate PinnedUp(sel: set<int>, k: int) {
    forall m :: 0 <= m <= k ==> m in sel
  }

  /** The number of selected positions directly after `k` in a list of `n`. */
  function RunAfter(sel: set<int>, n: int, k: int): (c: nat)
    ensures k + c < n || c == 0
    ensures forall m :: k < m <= k + c ==> m in sel
    ensures k + c + 1 < n ==> k + c + 1 !in sel
    decreases n - k
  {
    if k + 1 >= n || k + 1 !in sel then 0 else 1 + RunAfter(sel, n, k + 1)
  }

  /** A selected position that is not pinned has an unselected one before it. */
  lemma RoomAbove(sel: set<int>, k: int)
    requires 0 <= k && k in sel && !PinnedUp(sel, k)
    ensures k >= 1
  {
    var m :| 0 <= m <= k && m !in sel;
  }

  /** Where moving the selection up one place takes the element at `k`: a selected
      element goes one place up unless it is pinned; an unselected one goes down past
      the selected run after it. */
  function UpTo(sel: set<int>, n: int, k: int): (p: int)
    ensures 0 <= k < n ==> 0 <= p < n
  {
    if k in sel then
      if PinnedUp(sel, k) then k
      else if k < 0 then k - 1
      else RoomAbove(sel, k); k - 1
    else k + RunAfter(sel, n, k)
  }

  /** No two elements are taken to the same place, so `UpTo` rearranges the list. */
  lemma UpToInjective(sel: set<int>, n: int, a: int, b: int)
    requires 0 <= a < b < n
    ensures UpTo(sel, n, a) != UpTo(sel, n, b)
  {
    if a in sel && b in sel {
      if PinnedUp(sel, a) && b == a + 1 {
        assert PinnedUp(sel, b);
      }
    } else if b in sel {
      assert !PinnedUp(sel, b) by { assert a !in sel; }
    } else if a !in sel {
      assert a + RunAfter(sel, n, a) < b;
    }
  }

  /** The indices before the `i`-th: those the loop has handled. */
  function Before(orig: seq<int>, i: int): set<int>
    requires 0 <= i <= |orig|
  {
    set j | 0 <= j < i :: orig[j]
  }

  /** Where the selected positions go. */
  function UpImage(sel: set<int>, a: set<int>, n: int): set<int> {
    set k | k in sel :: UpTo(a, n, k)
  }

  /** One turn of the loop of `movePathsUp(indices)` with only the handled index
      decreased (`indices[i]--`). */
  function UpStepOnce<T>(e: seq<T>, idx: seq<int>, sel: set<int>, i: int): (r: (seq<T>, seq<int>, set<int>))
    requires 0 <= i < |idx| && InRange(idx, |e|)
    ensures |r.0| == |e| && multiset(r.0) == multiset(e)
    ensures InRange(r.1, |e|)
  {
    var k := idx[i];
    if k > 0 && k - 1 !in idx then (Swap(e, k, k - 1), idx[i := k - 1], sel - {k} + {k - 1})
    else (e, idx, sel)
  }

  /** `movePathsUp(indices)` with only the handled index decreased, the loop from
      the `i`-th index on. */
  function UpPass<T>(e: seq<T>, idx: seq<int>, sel: set<int>, i: int): (r: (seq<T>, set<int>))
    requires 0 <= i <= |idx| && InRange(idx, |e|)
    ensures |r.0| == |e|
    decreases |idx| - i
  {
    if i == |idx| then (e, sel)
    else
      var t := UpStepOnce(e, idx, sel, i);
      UpPass(t.0, t.1, t.2, i + 1)
  }

  /** `movePathsUp(indices)` as evidently intended. */
  function MovePathsUp<T>(st: State<T>, idx: seq<int>): (r: State<T>)
    requires InRange(idx, |st.elements|)
    ensures |r.elements| == |st.elements| && multiset(r.elements) == multiset(st.elements)
  {
    var p := UpPass(st.elements, idx, st.selected, 0);
    UpPassPermutes(st.elements, idx, st.selected, 0);
    State(p.0, p.1)
  }

  /** The corrected loop only swaps elements. */
  lemma {:induction false} UpPassPermutes<T>(e: seq<T>, idx: seq<int>, sel: set<int>, i: int)
    requires 0 <= i <= |idx| && InRange(idx, |e|)
    ensures multiset(UpPass(e, idx, sel, i).0) == multiset(e)
    decreases |idx| - i
  {
    if i < |idx| {
      var t := UpStepOnce(e, idx, sel, i);
      UpPassPermutes(t.0, t.1, t.2, i + 1);
      assert UpPass(e, idx, sel, i) == UpPass(t.0, t.1, t.2, i + 1);
    }
  }

  /** What the corrected loop keeps of the original indices before handling the
      `i`-th: a handled index went one place up unless pinned; the rest are as
      they were. */
  predicate UpIndices(orig: seq<int>, idx: seq<int>, i: int)
    requires 0 <= i <= |orig|
  {
    && |idx| == |orig|
    && (forall j :: 0 <= j < i ==>
          idx[j] == (if PinnedUp(Before(orig, i), orig[j]) then orig[j] else orig[j] - 1))
    && (forall j :: i <= j < |orig| ==> idx[j] == orig[j])
  }

  lemma BeforeStep(orig: seq<int>, i: int)
    requires Increasing(orig) && 0 <= i < |orig|
    ensures Before(orig, i + 1) == Before(orig, i) + {orig[i]}
    ensures orig[i] !in Before(orig, i) && forall a :: a in Before(orig, i) ==> a < orig[i]
  {
    assert orig[i] in Before(orig, i + 1);
  }

  /** The corrected loop's test on the `i`-th index holds exactly when that element
      is not pinned once it counts as handled. */
  lemma CheckUp(orig: seq<int>, idx: seq<int>, i: int)
    requires Increasing(orig) && 0 <= i < |orig| && orig[i] >= 0
    requires UpIndices(orig, idx, i)
    ensures (orig[i] > 0 && orig[i] - 1 !in idx) <==> !PinnedUp(Before(orig, i + 1), orig[i])
  {
    var k0, a := orig[i], Before(orig, i);
    BeforeStep(orig, i);
    if k0 > 0 {
      assert PinnedUp(Before(orig, i + 1), k0) <==> PinnedUp(a, k0 - 1);
      if PinnedUp(a, k0 - 1) {
        assert k0 - 1 in a;
        var j :| 0 <= j < i && orig[j] == k0 - 1;
        assert idx[j] == k0 - 1;
      }
      if k0 - 1 in idx {
        var j :| 0 <= j < |idx| && idx[j] == k0 - 1;
        if j < i {
          assert orig[j] < k0;
          assert orig[j] == k0 - 1 && PinnedUp(a, orig[j]);
        }
      }
    }
  }

  /** Handling the `i`-th index keeps `UpIndices`. */
  lemma IndicesAfterUp(orig: seq<int>, idx: seq<int>, i: int)
    requires Increasing(orig) && 0 <= i < |orig|
    requires UpIndices(orig, idx, i)
    ensures !PinnedUp(Before(orig, i + 1), orig[i]) ==> UpIndices(orig, idx[i := orig[i] - 1], i + 1)
    ensures PinnedUp(Before(orig, i + 1), orig[i]) ==> UpIndices(orig, idx, i + 1)
  {
    BeforeStep(orig, i);
    forall j | 0 <= j < i
      ensures PinnedUp(Before(orig, i + 1), orig[j]) <==> PinnedUp(Before(orig, i), orig[j])
    {
      assert orig[j] < orig[i];
    }
  }

  /** Adding `k0`, above everything already handled, lengthens the run after `k`
      exactly when that run ends right before `k0`. */
  lemma {:induction false} RunAfterAdd(a: set<int>, n: int, k0: int, k: int)
    requires k < k0 < n && k0 !in a && forall x :: x in a ==> x < k0
    ensures RunAfter(a + {k0}, n, k) == RunAfter(a, n, k) + (if k + RunAfter(a, n, k) == k0 - 1 then 1 else 0)
    decreases n - k
  {
    if k + 1 == k0 {
      assert RunAfter(a + {k0}, n, k0) == 0;
    } else if k + 1 in a {
      RunAfterAdd(a, n, k0, k + 1);
    }
  }

  /** How adding `k0` to the handled positions changes where each element goes. */
  lemma UpStep(a: set<int>, n: int, k0: int, k: int)
    requires 0 <= k0 < n && 0 <= k < n && k != k0
    requires k0 !in a && forall x :: x in a ==> x < k0
    ensures UpTo(a, n, k0) == k0
    ensures UpTo(a + {k0}, n, k0) == (if PinnedUp(a + {k0}, k0) then k0 else k0 - 1)
    ensures UpTo(a, n, k) != k0
    ensures PinnedUp(a + {k0}, k0) ==> UpTo(a + {k0}, n, k) == UpTo(a, n, k)
    ensures !PinnedUp(a + {k0}, k0) ==>
      UpTo(a + {k0}, n, k) == (if UpTo(a, n, k) == k0 - 1 then k0 else UpTo(a, n, k))
  {
    var a' := a + {k0};
    if k > k0 {
      assert RunAfter(a, n, k) == 0 && RunAfter(a', n, k) == 0;
    } else if k in a {
      assert PinnedUp(a', k) <==> PinnedUp(a, k);
      if UpTo(a, n, k) == k0 - 1 {
        assert PinnedUp(a', k0);
      }
    } else {
      RunAfterAdd(a, n, k0, k);
      assert !PinnedUp(a', k0) by { assert 0 <= k <= k0 && k !in a'; }
    }
  }

  /** Handling the element at `k0` carries the placement from the handled set `a`
      to `a + {k0}`. */
  lemma ElementsAfterUp<T>(s: seq<T>, e: seq<T>, a: set<int>, k0: int)
    requires |e| == |s| && 0 <= k0 < |s|
    requires k0 !in a && forall x :: x in a ==> x < k0
    requires forall k :: 0 <= k < |s| ==> e[UpTo(a, |s|, k)] == s[k]
    ensures !PinnedUp(a + {k0}, k0) ==>
      k0 > 0 && forall k :: 0 <= k < |s| ==> Swap(e, k0, k0 - 1)[UpTo(a + {k0}, |s|, k)] == s[k]
    ensures PinnedUp(a + {k0}, k0) ==> forall k :: 0 <= k < |s| ==> e[UpTo(a + {k0}, |s|, k)] == s[k]
  {
    var n := |s|;
    if !PinnedUp(a + {k0}, k0) {
      RoomAbove(a + {k0}, k0);
      forall k | 0 <= k < n ensures Swap(e, k0, k0 - 1)[UpTo(a + {k0}, n, k)] == s[k] {
        if k == k0 {
          UpStep(a, n, k0, k0 - 1);
        } else {
          UpStep(a, n, k0, k);
        }
      }
    } else {
      forall k | 0 <= k < n ensures UpTo(a + {k0}, n, k) == UpTo(a, n, k) {
        if k == k0 {
          assert RunAfter(a, n, k0) == 0;
        } else {
          UpStep(a, n, k0, k);
        }
      }
    }
  }

  /** The selection follows the element at `k0`. */
  lemma ImageAfterUp(sel: set<int>, a: set<int>, n: int, k0: int)
    requires 0 <= k0 < n && k0 in sel
    requires k0 !in a && forall x :: x in a ==> x < k0
    requires forall x :: x in sel ==> 0 <= x < n && (x in a || x >= k0)
    ensures !PinnedUp(a + {k0}, k0) ==> UpImage(sel, a, n) - {k0} + {k0 - 1} == UpImage(sel, a + {k0}, n)
    ensures PinnedUp(a + {k0}, k0) ==> UpImage(sel, a, n) == UpImage(sel, a + {k0}, n)
  {
    var a' := a + {k0};
    if !PinnedUp(a', k0) {
      RoomAbove(a', k0);
      UpStep(a, n, k0, k0 - 1);
      forall p ensures p in UpImage(sel, a, n) - {k0} + {k0 - 1} <==> p in UpImage(sel, a', n) {
        if p in UpImage(sel, a, n) && p != k0 {
          var x :| x in sel && UpTo(a, n, x) == p;
          UpStep(a, n, k0, x);
          assert p == UpTo(a', n, x);
        }
        if p in UpImage(sel, a', n) && p != k0 - 1 {
          var x :| x in sel && UpTo(a', n, x) == p;
          UpStep(a, n, k0, x);
          if x > k0 {
            assert RunAfter(a, n, x) == 0;
          }
          assert p == UpTo(a, n, x) && p != k0;
        }
        assert UpTo(a', n, k0) == k0 - 1;
      }
    } else {
      forall k | 0 <= k < n ensures UpTo(a', n, k) == UpTo(a, n, k) {
        if k == k0 {
          assert RunAfter(a, n, k0) == 0;
        } else {
          UpStep(a, n, k0, k);
        }
      }
    }
  }

  /** From the `i`-th index on, the corrected loop takes each original element at
      `k` to `UpTo` of the whole selection, and the selection with it. */
  lemma {:induction false} UpPassMeets<T>(s: seq<T>, orig: seq<int>, e: seq<T>, idx: seq<int>, cur: set<int>, i: int)
    requires Increasing(orig) && InRange(orig, |s|) && |e| == |s| && 0 <= i <= |orig|
    requires UpIndices(orig, idx, i) && InRange(idx, |s|)
    requires forall k :: 0 <= k < |s| ==> e[UpTo(Before(orig, i), |s|, k)] == s[k]
    requires cur == UpImage(Members(orig), Before(orig, i), |s|)
    ensures var r := UpPass(e, idx, cur, i);
      && (forall k :: 0 <= k < |s| ==> r.0[UpTo(Before(orig, |orig|), |s|, k)] == s[k])
      && r.1 == UpImage(Members(orig), Before(orig, |orig|), |s|)
    decreases |orig| - i
  {
    if i < |orig| {
      var t := UpStepOnce(e, idx, cur, i);
      UpMeetsStep(s, orig, e, idx, cur, i);
      UpPassMeets(s, orig, t.0, t.1, t.2, i + 1);
      assert UpPass(e, idx, cur, i) == UpPass(t.0, t.1, t.2, i + 1);
    }
  }

  /** One turn of the corrected loop keeps the invariant of `UpPassMeets`. */
  lemma UpMeetsStep<T>(s: seq<T>, orig: seq<int>, e: seq<T>, idx: seq<int>, cur: set<int>, i: int)
    requires Increasing(orig) && InRange(orig, |s|) && |e| == |s| && 0 <= i < |orig|
    requires UpIndices(orig, idx, i) && InRange(idx, |s|)
    requires forall k :: 0 <= k < |s| ==> e[UpTo(Before(orig, i), |s|, k)] == s[k]
    requires cur == UpImage(Members(orig), Before(orig, i), |s|)
    ensures var t := UpStepOnce(e, idx, cur, i);
      && |t.0| == |s| && UpIndices(orig, t.1, i + 1)
      && (forall k :: 0 <= k < |s| ==> t.0[UpTo(Before(orig, i + 1), |s|, k)] == s[k])
      && t.2 == UpImage(Members(orig), Before(orig, i + 1), |s|)
  {
    var k0 := orig[i];
    UpIndicesStep(orig, idx, |s|, i);
    if k0 > 0 && k0 - 1 !in idx {
      UpMeetsMove(s, orig, e, idx, cur, i);
      assert UpStepOnce(e, idx, cur, i) == (Swap(e, k0, k0 - 1), idx[i := k0 - 1], cur - {k0} + {k0 - 1});
    } else {
      UpMeetsStay(s, orig, e, idx, cur, i);
      assert UpStepOnce(e, idx, cur, i) == (e, idx, cur);
    }
  }

  /** One turn of the corrected loop keeps `UpIndices`. */
  lemma UpIndicesStep(orig: seq<int>, idx: seq<int>, n: int, i: int)
    requires Increasing(orig) && InRange(orig, n) && 0 <= i < |orig|
    requires UpIndices(orig, idx, i)
    ensures orig[i] > 0 && orig[i] - 1 !in idx ==> UpIndices(orig, idx[i := orig[i] - 1], i + 1)
    ensures !(orig[i] > 0 && orig[i] - 1 !in idx) ==> UpIndices(orig, idx, i + 1)
  {
    CheckUp(orig, idx, i);
    IndicesAfterUp(orig, idx, i);
  }

  /** The turn of the corrected loop that swaps moves the elements and the
      selection. */
  lemma UpMeetsMove<T>(s: seq<T>, orig: seq<int>, e: seq<T>, idx: seq<int>, cur: set<int>, i: int)
    requires Increasing(orig) && InRange(orig, |s|) && |e| == |s| && 0 <= i < |orig|
    requires UpIndices(orig, idx, i)
    requires forall k :: 0 <= k < |s| ==> e[UpTo(Before(orig, i), |s|, k)] == s[k]
    requires cur == UpImage(Members(orig), Before(orig, i), |s|)
    requires orig[i] > 0 && orig[i] - 1 !in idx
    ensures var k0 := orig[i];
      && (forall k :: 0 <= k < |s| ==> Swap(e, k0, k0 - 1)[UpTo(Before(orig, i + 1), |s|, k)] == s[k])
      && cur - {k0} + {k0 - 1} == UpImage(Members(orig), Before(orig, i + 1), |s|)
  {
    var n, k0, a := |s|, orig[i], Before(orig, i);
    BeforeStep(orig, i);
    CheckUp(orig, idx, i);
    ElementsAfterUp(s, e, a, k0);
    MembersAroundUp(orig, i, n);
    ImageAfterUp(Members(orig), a, n, k0);
  }

  /** The turn of the corrected loop that leaves the element in place moves
      nothing. */
  lemma UpMeetsStay<T>(s: seq<T>, orig: seq<int>, e: seq<T>, idx: seq<int>, cur: set<int>, i: int)
    requires Increasing(orig) && InRange(orig, |s|) && |e| == |s| && 0 <= i < |orig|
    requires UpIndices(orig, idx, i)
    requires forall k :: 0 <= k < |s| ==> e[UpTo(Before(orig, i), |s|, k)] == s[k]
    requires cur == UpImage(Members(orig), Before(orig, i), |s|)
    requires !(orig[i] > 0 && orig[i] - 1 !in idx)
    ensures && (forall k :: 0 <= k < |s| ==> e[UpTo(Before(orig, i + 1), |s|, k)] == s[k])
      && cur == UpImage(Members(orig), Before(orig, i + 1), |s|)
  {
    var n, k0, a := |s|, orig[i], Before(orig, i);
    BeforeStep(orig, i);
    CheckUp(orig, idx, i);
    ElementsAfterUp(s, e, a, k0);
    MembersAroundUp(orig, i, n);
    ImageAfterUp(Members(orig), a, n, k0);
  }

  /** Every original index is either handled or not below the `i`-th. */
  lemma MembersAroundUp(orig: seq<int>, i: int, n: int)
    requires Increasing(orig) && InRange(orig, n) && 0 <= i < |orig|
    ensures orig[i] in Members(orig)
    ensures forall x :: x in Members(orig) ==> 0 <= x < n && (x in Before(orig, i) || x >= orig[i])
  {
    forall x | x in Members(orig) ensures 0 <= x < n && (x in Before(orig, i) || x >= orig[i]) {
      var j :| 0 <= j < |orig| && orig[j] == x;
      if j < i {
        assert x in Before(orig, i);
      }
    }
  }

  lemma SetIndexInRange(idx: seq<int>, v: int, i: int, n: int)
    requires InRange(idx, n) && 0 <= i < |idx| && 0 <= v < n
    ensures InRange(idx[i := v], n)
  {
  }

  /** Moving a valid selection up one place, as corrected, takes each element at
      `k` to `UpTo(selection, n, k)` — a rearrangement of the list — and the
      selection follows the selected elements. */
  lemma MovePathsUpMoves<T>(st: State<T>)
    requires Valid(st)
    ensures var n := |st.elements|;
      var r := MovePathsUp(st, Ascending(st.selected, n));
      && (forall k :: 0 <= k < n ==> r.elements[UpTo(st.selected, n, k)] == st.elements[k])
      && r.selected == UpImage(st.selected, st.selected, n)
  {
    var n, sel := |st.elements|, st.selected;
    var orig := Ascending(sel, n);
    AscendingLists(sel, n);
    assert Before(orig, |orig|) == Members(orig);
    assert Before(orig, 0) == {};
    forall k | 0 <= k < n ensures UpTo({}, n, k) == k {
      assert RunAfter({}, n, k) == 0;
    }
    assert UpImage(sel, {}, n) == sel;
    UpPassMeets(st.elements, orig, st.elements, orig, sel, 0);
  }

  /** One handled index of the loop as written, when it moves. */
  lemma UpAsWrittenMoves<T>(e: seq<T>, idx: seq<int>, sel: set<int>, i: int)
    requires 0 <= i < |idx| && Increasing(idx) && InRange(idx, |e|)
    requires idx[i] > 0 && idx[i] - 1 !in idx
    ensures Increasing(DecreaseFrom(idx, i)) && InRange(DecreaseFrom(idx, i), |e|)
    ensures UpPassAsWritten(e, idx, sel, i) ==
      UpPassAsWritten(Swap(e, idx[i], idx[i] - 1), DecreaseFrom(idx, i), sel - {idx[i]} + {idx[i] - 1}, i + 1)
  {
    var k := idx[i];
    assert UpStepOnceAsWritten(e, idx, sel, i) == (Swap(e, k, k - 1), DecreaseFrom(idx, i), sel - {k} + {k - 1});
  }

  /** One handled index of the corrected loop, when it moves. */
  lemma UpMoves<T>(e: seq<T>, idx: seq<int>, sel: set<int>, i: int)
    requires 0 <= i < |idx| && InRange(idx, |e|)
    requires idx[i] > 0 && forall j :: 0 <= j < |idx| ==> idx[j] != idx[i] - 1
    ensures InRange(idx[i := idx[i] - 1], |e|)
    ensures UpPass(e, idx, sel, i) == UpPass(Swap(e, idx[i], idx[i] - 1), idx[i := idx[i] - 1], sel - {idx[i]} + {idx[i] - 1}, i + 1)
  {
    var k := idx[i];
    assert k - 1 !in idx;
    assert UpStepOnce(e, idx, sel, i) == (Swap(e, k, k - 1), idx[i := k - 1], sel - {k} + {k - 1});
  }

  /** The loop as written goes wrong once an element has moved and a later selected
      one follows: with the selection {2, 5} of six elements, the element at 4,
      which is not selected, moves up while the selected one at 5 stays, and the
      selection grows to three positions. */
  lemma UpAsWrittenMovesWrongElement<T>(st: State<T>, idx: seq<int>)
    requires |st.elements| == 6 && st.selected == {2, 5} && idx == [2, 5]
    ensures idx == Ascending(st.selected, |st.elements|)
    ensures var e, r := st.elements, MovePathsUpAsWritten(st, idx);
      && r.elements == [e[0], e[2], e[1], e[4], e[3], e[5]]
      && r.selected == {1, 3, 5}
      && UpTo(st.selected, 6, 5) == 4
  {
    AscendingOfExample(st.selected, idx);
    var s0 := st.elements;
    UpAsWrittenFirst(s0, idx, st.selected);
    UpAsWrittenSecond(Swap(s0, 2, 1), [1, 4], {1, 5});
    SwapsAsWritten(s0);
    UpToOfExample(st.selected);
  }

  /** With a single selected position `k` past the first, the loop as written does
      what it should: the element moves one place up and the selection with it. */
  lemma UpAsWrittenSingle<T>(st: State<T>, k: int)
    requires 0 < k < |st.elements| && st.selected == {k}
    ensures [k] == Ascending(st.selected, |st.elements|)
    ensures var r := MovePathsUpAsWritten(st, [k]);
      r.elements == Swap(st.elements, k, k - 1) && r.selected == {k - 1}
  {
    AscendingOfSingle(st.selected, |st.elements|, k);
    UpAsWrittenMoves(st.elements, [k], st.selected, 0);
    var d := DecreaseFrom([k], 0);
    assert d == [k - 1];
    assert st.selected - {k} + {k - 1} == {k - 1};
  }

  /** A single selected position sorts to itself. */
  lemma AscendingOfSingle(sel: set<int>, n: int, k: int)
    requires 0 <= k < n && sel == {k}
    ensures Ascending(sel, n) == [k]
  {
    AscendingLists(sel, n);
    assert Members([k]) == {k} by {
      assert [k][0] == k;
      assert forall x :: x in Members([k]) ==> x == k;
    }
    IncreasingUnique(Ascending(sel, n), [k]);
  }

  lemma UpAsWrittenFirst<T>(s0: seq<T>, i0: seq<int>, c0: set<int>)
    requires |s0| == 6 && i0 == [2, 5] && c0 == {2, 5}
    ensures Increasing([1, 4]) && InRange([1, 4], 6)
    ensures UpPassAsWritten(s0, i0, c0, 0) == UpPassAsWritten(Swap(s0, 2, 1), [1, 4], {1, 5}, 1)
  {
    assert i0[0] == 2 && i0[1] == 5;
    UpAsWrittenMoves(s0, i0, c0, 0);
    ExampleDecrease(i0, 0, [1, 4]);
    ExampleSelection(c0, 2, 1, {1, 5});
  }

  lemma UpAsWrittenSecond<T>(s1: seq<T>, i1: seq<int>, c1: set<int>)
    requires |s1| == 6 && i1 == [1, 4] && c1 == {1, 5}
    ensures UpPassAsWritten(s1, i1, c1, 1) == (Swap(s1, 4, 3), {1, 3, 5})
  {
    assert i1[0] == 1 && i1[1] == 4;
    UpAsWrittenMoves(s1, i1, c1, 1);
    ExampleSelection(c1, 4, 3, {1, 3, 5});
  }

  lemma ExampleDecrease(idx: seq<int>, i: int, r: seq<int>)
    requires idx == [2, 5] && i == 0 && r == [1, 4]
    ensures DecreaseFrom(idx, i) == r
  {
    var d := DecreaseFrom(idx, i);
    assert d[0] == 1 && d[1] == 4;
  }

  lemma ExampleSelection(c: set<int>, k: int, k': int, r: set<int>)
    requires (c == {2, 5} && k == 2 && k' == 1 && r == {1, 5})
          || (c == {1, 5} && k == 4 && k' == 3 && r == {1, 3, 5})
          || (c == {1, 5} && k == 5 && k' == 4 && r == {1, 4})
    ensures c - {k} + {k'} == r
  {
  }

  lemma ExampleUpdate(idx: seq<int>, i: int, v: int, r: seq<int>)
    requires (idx == [2, 5] && i == 0 && v == 1 && r == [1, 5])
          || (idx == [1, 5] && i == 1 && v == 4 && r == [1, 4])
    ensures idx[i := v] == r
  {
  }

  /** The two swaps the loop as written makes on six elements. */
  lemma SwapsAsWritten<T>(s: seq<T>)
    requires |s| == 6
    ensures Swap(Swap(s, 2, 1), 4, 3) == [s[0], s[2], s[1], s[4], s[3], s[5]]
  {
    var r := Swap(Swap(s, 2, 1), 4, 3);
    assert r[0] == s[0] && r[1] == s[2] && r[2] == s[1] && r[3] == s[4] && r[4] == s[3] && r[5] == s[5];
  }

  /** The two swaps the corrected loop makes on six elements. */
  lemma SwapsCorrected<T>(s: seq<T>)
    requires |s| == 6
    ensures Swap(Swap(s, 2, 1), 5, 4) == [s[0], s[2], s[1], s[3], s[5], s[4]]
  {
    var r := Swap(Swap(s, 2, 1), 5, 4);
    assert r[0] == s[0] && r[1] == s[2] && r[2] == s[1] && r[3] == s[3] && r[4] == s[5] && r[5] == s[4];
  }

  /** With {2, 5} selected, moving up should take the element at 5 to 4. */
  lemma UpToOfExample(sel: set<int>)
    requires sel == {2, 5}
    ensures UpTo(sel, 6, 5) == 4
  {
    assert 0 !in sel && 5 in sel;
    assert !PinnedUp(sel, 5);
  }

  /** On the same selection the corrected loop moves the two selected elements up
      and keeps two positions selected. */
  lemma UpMovesSelectedElements<T>(st: State<T>, idx: seq<int>)
    requires |st.elements| == 6 && st.selected == {2, 5} && idx == [2, 5]
    ensures var e, r := st.elements, MovePathsUp(st, idx);
      && r.elements == [e[0], e[2], e[1], e[3], e[5], e[4]]
      && r.selected == {1, 4}
  {
    var s0 := st.elements;
    UpFirst(s0, idx, st.selected);
    UpSecond(Swap(s0, 2, 1), [1, 5], {1, 5});
    SwapsCorrected(s0);
  }

  lemma UpFirst<T>(s0: seq<T>, i0: seq<int>, c0: set<int>)
    requires |s0| == 6 && i0 == [2, 5] && c0 == {2, 5}
    ensures InRange([1, 5], 6)
    ensures UpPass(s0, i0, c0, 0) == UpPass(Swap(s0, 2, 1), [1, 5], {1, 5}, 1)
  {
    assert i0[0] == 2 && i0[1] == 5;
    UpMoves(s0, i0, c0, 0);
    ExampleUpdate(i0, 0, 1, [1, 5]);
    ExampleSelection(c0, 2, 1, {1, 5});
  }

  lemma UpSecond<T>(s1: seq<T>, i1: seq<int>, c1: set<int>)
    requires |s1| == 6 && i1 == [1, 5] && c1 == {1, 5}
    ensures UpPass(s1, i1, c1, 1) == (Swap(s1, 5, 4), {1, 4})
  {
    assert i1[0] == 1 && i1[1] == 5;
    UpMoves(s1, i1, c1, 1);
    ExampleSelection(c1, 5, 4, {1, 4});
  }

  /** The selection {2, 5} of six elements in ascending order is [2, 5]. */
  lemma AscendingOfExample(sel: set<int>, idx: seq<int>)
    requires sel == {2, 5} && idx == [2, 5]
    ensures idx == Ascending(sel, 6)
  {
    assert Within(sel, 6);
    AscendingLists(sel, 6);
    assert Members(idx) == sel by {
      assert idx[0] == 2 && idx[1] == 5;
    }
    IncreasingUnique(idx, Ascending(sel, 6));
  }

  /** Where `moveSelectedPaths` takes the selection. */
  datatype Direction = Up | Down | Top | Bottom

  /** The image of a selection within the list stays within it. */
  lemma ImagesWithin(sel: set<int>, n: int)
    requires Within(sel, n)
    ensures Within(DownImage(sel, sel, n), n) && Within(UpImage(sel, sel, n), n)
  {
  }

  /** `moveSelectedPaths(direction)` with `movePathsUp` as corrected: nothing
      happens without a selection; otherwise the selected positions, in ascending
      order, are moved, the list is rearranged and the selection stays within it;
      one place up or down, each element lands where `UpTo` or `DownTo` says. */
  function MoveSelected<T>(st: State<T>, dir: Direction): (r: State<T>)
    requires Valid(st)
    ensures multiset(r.elements) == multiset(st.elements) && |r.elements| == |st.elements|
    ensures Valid(r)
    ensures st.selected == {} ==> r == st
    ensures var n := |st.elements|;
      dir == Down ==> forall k :: 0 <= k < n ==> r.elements[DownTo(st.selected, n, k)] == st.elements[k]
    ensures var n := |st.elements|;
      dir == Up ==> forall k :: 0 <= k < n ==> r.elements[UpTo(st.selected, n, k)] == st.elements[k]
  {
    if st.selected == {} then
      assert forall k :: DownTo({}, |st.elements|, k) == k by {
        forall k ensures DownTo({}, |st.elements|, k) == k { assert RunBefore({}, k) == 0; }
      }
      assert forall k :: UpTo({}, |st.elements|, k) == k by {
        forall k ensures UpTo({}, |st.elements|, k) == k { assert RunAfter({}, |st.elements|, k) == 0; }
      }
      st
    else
      var n := |st.elements|;
      var idx := Ascending(st.selected, n);
      ImagesWithin(st.selected, n);
      match dir
      case Up => MovePathsUpMoves(st); MovePathsUp(st, idx)
      case Down => MovePathsDownMoves(st); MovePathsDown(st, idx)
      case Top => MovePathsToTop(st, idx)
      case Bottom => MovePathsToBottom(st, idx)
  }

  /** `moveSelectedPaths(direction)` as the program runs it: the same as
      `MoveSelected` except that one place up calls `movePathsUp` as written. */
  function MoveSelectedAsWritten<T>(st: State<T>, dir: Direction): (r: State<T>)
    requires Valid(st)
    ensures multiset(r.elements) == multiset(st.elements) && |r.elements| == |st.elements|
    ensures Valid(r)
    ensures st.selected == {} ==> r == st
    ensures dir != Up ==> r == MoveSelected(st, dir)
    ensures var n := |st.elements|;
      dir == Down ==> forall k :: 0 <= k < n ==> r.elements[DownTo(st.selected, n, k)] == st.elements[k]
  {
    if dir == Up && st.selected != {} then MovePathsUpAsWritten(st, Ascending(st.selected, |st.elements|))
    else MoveSelected(st, dir)
  }

  /** On six elements with {2, 5} selected, moving up as the program does moves the
      unselected element at 4 and leaves three positions selected, where the
      corrected dispatcher moves the selected element at 5 to 4. */
  lemma MoveSelectedUpDiffers<T>(st: State<T>)
    requires |st.elements| == 6 && st.selected == {2, 5}
    ensures var e, r := st.elements, MoveSelectedAsWritten(st, Up);
      r.elements == [e[0], e[2], e[1], e[4], e[3], e[5]] && r.selected == {1, 3, 5}
    ensures MoveSelected(st, Up).elements[4] == st.elements[5]
  {
    UpAsWrittenMovesWrongElement(st, [2, 5]);
    UpToOfExample(st.selected);
  }

  /** With one selected position past the first, both dispatchers agree: the
      element moves one place up and the selection with it. */
  lemma MoveSelectedUpSingle<T>(st: State<T>, k: int)
    requires 0 < k < |st.elements| && st.selected == {k}
    ensures var r := MoveSelectedAsWritten(st, Up);
      r.elements == Swap(st.elements, k, k - 1) && r.selected == {k - 1}
  {
    UpAsWrittenSingle(st, k);
  }
}
