/** `UndoRedoService`: two stacks of serialized editor states. Pushing a state starts a
    new branch of history (the redo stack is dropped); undo and redo move the current
    state onto the opposite stack and hand back the one they pop. */
module UndoRedo {
  import opened Core

  /** Both stacks, with the top of each at the end of its sequence. */
  datatype History = History(undo: seq<string>, redo: seq<string>)

  const Fresh := History([], [])

  /** The history after an undo or redo, and the state it hands back (`null` when the
      stack it pops from is empty). */
  datatype Outcome = Outcome(history: History, state: Option<string>)

  predicate CanUndo(h: History) { |h.undo| > 0 }

  predicate CanRedo(h: History) { |h.redo| > 0 }

  /** `PushState`. */
  function PushState(h: History, serialized: string): (r: History)
    ensures CanUndo(r) && !CanRedo(r)
    ensures r.undo[..|r.undo| - 1] == h.undo && r.undo[|r.undo| - 1] == serialized
  {
    History(h.undo + [serialized], [])
  }

  /** `Undo(current)`: nothing to undo leaves the history alone; otherwise `current`
      goes onto the redo stack and the undo top comes back. */
  function Undo(h: History, current: string): (o: Outcome)
    ensures o.state.None? <==> !CanUndo(h)
    ensures o.state.None? ==> o.history == h
    ensures o.state.Some? ==> o.state.value == h.undo[|h.undo| - 1]
    ensures o.state.Some? ==> o.history.undo + [o.state.value] == h.undo && o.history.redo == h.redo + [current]
  {
    if !CanUndo(h) then Outcome(h, None)
    else Outcome(History(h.undo[..|h.undo| - 1], h.redo + [current]), Some(h.undo[|h.undo| - 1]))
  }

  /** `Redo(current)`, the mirror image of `Undo`. */
  function Redo(h: History, current: string): (o: Outcome)
    ensures o.state.None? <==> !CanRedo(h)
    ensures o.state.None? ==> o.history == h
    ensures o.state.Some? ==> o.state.value == h.redo[|h.redo| - 1]
    ensures o.state.Some? ==> o.history.redo + [o.state.value] == h.redo && o.history.undo == h.undo + [current]
  {
    if !CanRedo(h) then Outcome(h, None)
    else Outcome(History(h.undo + [current], h.redo[..|h.redo| - 1]), Some(h.redo[|h.redo| - 1]))
  }

  /** Undo and redo move one state between the stacks: the number of stored states
      never changes. */
  lemma UndoRedoKeepCount(h: History, current: string)
    ensures |Undo(h, current).history.undo| + |Undo(h, current).history.redo| == |h.undo| + |h.redo|
    ensures |Redo(h, current).history.undo| + |Redo(h, current).history.redo| == |h.undo| + |h.redo|
  {
  }

  /** Redoing right after an undo gives back the state that was current and restores
      both stacks exactly. */
  lemma RedoAfterUndo(h: History, current: string)
    requires CanUndo(h)
    ensures Redo(Undo(h, current).history, Undo(h, current).state.value) == Outcome(h, Some(current))
  {
    var u := Undo(h, current);
    assert u.history.undo + [u.state.value] == h.undo;
  }

  /** Undoing right after a redo does the same in the other direction. */
  lemma UndoAfterRedo(h: History, current: string)
    requires CanRedo(h)
    ensures Undo(Redo(h, current).history, Redo(h, current).state.value) == Outcome(h, Some(current))
  {
    var r := Redo(h, current);
    assert r.history.redo + [r.state.value] == h.redo;
  }

  /** The states of `s` from the last to the first: the order in which popping them one
      by one hands them back. */
  function Reversed(s: seq<string>): (r: seq<string>)
    ensures |r| == |s|
    ensures forall i :: 0 <= i < |s| ==> r[i] == s[|s| - 1 - i]
  {
    if |s| == 0 then [] else [s[|s| - 1]] + Reversed(s[..|s| - 1])
  }

  /** The history and the current state after `n` undos in a row. */
  function Undos(h: History, current: string, n: nat): (r: (History, string))
    requires n <= |h.undo|
    ensures |r.0.undo| == |h.undo| - n && |r.0.redo| == |h.redo| + n
    ensures r.0.undo == h.undo[..|h.undo| - n]
    ensures n == 0 ==> r == (h, current)
    ensures n > 0 ==> r.1 == h.undo[|h.undo| - n]
    ensures n > 0 ==> r.0.redo == h.redo + [current] + Reversed(h.undo[|h.undo| - n + 1..])
    decreases n
  {
    if n == 0 then (h, current)
    else
      var o := Undo(h, current);
      var k := |h.undo| - n + 1;
      assert n > 1 ==> h.undo[k..][..|h.undo| - 1 - k] == o.history.undo[k..];
      Undos(o.history, o.state.value, n - 1)
  }

  /** The history and the current state after `n` redos in a row. */
  function Redos(h: History, current: string, n: nat): (r: (History, string))
    requires n <= |h.redo|
    ensures |r.0.undo| == |h.undo| + n && |r.0.redo| == |h.redo| - n
    ensures r.0.redo == h.redo[..|h.redo| - n]
    ensures n == 0 ==> r == (h, current)
    ensures n > 0 ==> r.1 == h.redo[|h.redo| - n]
    ensures n > 0 ==> r.0.undo == h.undo + [current] + Reversed(h.redo[|h.redo| - n + 1..])
    decreases n
  {
    if n == 0 then (h, current)
    else
      var o := Redo(h, current);
      var k := |h.redo| - n + 1;
      assert n > 1 ==> h.redo[k..][..|h.redo| - 1 - k] == o.history.redo[k..];
      Redos(o.history, o.state.value, n - 1)
  }

  /** Stepping back `n` times and then forward `n` times returns to the same state with
      the same stacks. */
  lemma {:induction false} RedosUndoUndos(h: History, current: string, n: nat)
    requires n <= |h.undo|
    ensures Redos(Undos(h, current, n).0, Undos(h, current, n).1, n) == (h, current)
    decreases n
  {
    if n > 0 {
      var o := Undo(h, current);
      RedosUndoUndos(o.history, o.state.value, n - 1);
      var back := Undos(o.history, o.state.value, n - 1);
      assert Undos(h, current, n) == back;
      assert Redos(back.0, back.1, n - 1) == (o.history, o.state.value);
      RedosSplit(back.0, back.1, n);
      RedoAfterUndo(h, current);
    }
  }

  /** The last of `n` redos is one redo after the first `n - 1`. */
  lemma {:induction false} RedosSplit(h: History, current: string, n: nat)
    requires 0 < n <= |h.redo|
    ensures var m := Redos(h, current, n - 1);
            |m.0.redo| > 0 && Redos(h, current, n) == (Redo(m.0, m.1).history, Redo(m.0, m.1).state.value)
    decreases n
  {
    if n > 1 {
      var o := Redo(h, current);
      RedosSplit(o.history, o.state.value, n - 1);
    }
  }
}
