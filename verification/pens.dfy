/** `PensService`: the list of pens and which one is active, remembered by id. */
module Pens {
  import opened Core

  /** A pen's GUID, kept as its text. */
  type PenId = string

  datatype Pen = Pen(penId: PenId, name: string, stroke: string, strokeWidth: real,
                     opacity: real, lineType: string, lineCap: string)

  /** `new PenModel()` with the given id: "Pen", black, width 3, opaque, solid, round. */
  function NewPen(id: PenId): (p: Pen)
    ensures p.penId == id && p.strokeWidth == 3.0 && p.opacity == 1.0
  {
    Pen(id, "Pen", "#000000", 3.0, 1.0, "solid", "round")
  }

  datatype PenState = PenState(pens: seq<Pen>, active: Option<PenId>)

  predicate HasPen(pens: seq<Pen>, id: PenId) {
    exists i :: 0 <= i < |pens| && pens[i].penId == id
  }

  predicate UniqueIds(pens: seq<Pen>) {
    forall i, j :: 0 <= i < j < |pens| ==> pens[i].penId != pens[j].penId
  }

  /** `List.FindIndex` on the id: the first position holding it, or -1. */
  function IndexOf(pens: seq<Pen>, id: PenId): (k: int)
    ensures -1 <= k < |pens|
    ensures k == -1 <==> !HasPen(pens, id)
    ensures k >= 0 ==> pens[k].penId == id && forall i :: 0 <= i < k ==> pens[i].penId != id
  {
    if |pens| == 0 then -1
    else if pens[0].penId == id then 0
    else
      var k := IndexOf(pens[1..], id);
      assert HasPen(pens, id) ==> HasPen(pens[1..], id) by {
        if HasPen(pens, id) {
          var i :| 0 <= i < |pens| && pens[i].penId == id;
          assert pens[1..][i - 1] == pens[i];
        }
      }
      if k == -1 then -1 else k + 1
  }

  /** `FirstOrDefault()?.PenId`. */
  function FirstId(pens: seq<Pen>): (r: Option<PenId>)
    ensures r.None? <==> |pens| == 0
    ensures r.Some? ==> HasPen(pens, r.value) && r.value == pens[0].penId
  {
    if |pens| == 0 then None else Some(pens[0].penId)
  }

  /** `ActivePen`: the first pen with the active id (none if no pen has it), or with no
      active id the first pen, if any. */
  function ActivePen(s: PenState): (p: Option<Pen>)
    ensures s.active.Some? ==> (p.Some? <==> HasPen(s.pens, s.active.value))
    ensures s.active.Some? && p.Some? ==> p.value.penId == s.active.value
    ensures s.active.None? ==> (p.None? <==> |s.pens| == 0)
  {
    match s.active
    case None => if |s.pens| == 0 then None else Some(s.pens[0])
    case Some(id) =>
      var k := IndexOf(s.pens, id);
      if k < 0 then None else Some(s.pens[k])
  }

  /** `GetActivePenIndex`. */
  function ActiveIndex(s: PenState): (k: int)
    ensures -1 <= k < |s.pens|
    ensures k == -1 <==> s.active.None? || !HasPen(s.pens, s.active.value)
    ensures k >= 0 ==> Some(s.pens[k].penId) == s.active
  {
    if s.active.None? then -1 else IndexOf(s.pens, s.active.value)
  }

  /** `SetPens`, and `LoadFromList`, which differs from it only in not raising
      `Changed`: the active id survives if some new pen has it, otherwise the first
      pen becomes active. */
  function SetPens(s: PenState, pens: seq<Pen>): (r: PenState)
    ensures r.pens == pens
    ensures r.active.None? <==> |pens| == 0
    ensures r.active.Some? ==> HasPen(pens, r.active.value)
    ensures s.active.Some? && HasPen(pens, s.active.value) ==> r.active == s.active
  {
    if s.active.None? || !HasPen(pens, s.active.value) then PenState(pens, FirstId(pens))
    else PenState(pens, s.active)
  }

  /** `SetActivePen`: only an id of a listed pen is taken. */
  function SetActivePen(s: PenState, id: PenId): (r: PenState)
    ensures r.pens == s.pens
    ensures HasPen(s.pens, id) ==> r.active == Some(id)
    ensures !HasPen(s.pens, id) ==> r == s
  {
    if HasPen(s.pens, id) then PenState(s.pens, Some(id)) else s
  }

  /** `CycleActivePen`: the pen after the active one, wrapping around; the first pen
      when none is active or the active id is not listed. */
  function Cycle(s: PenState): (r: PenState)
    ensures r.pens == s.pens
    ensures |s.pens| == 0 ==> r == s
    ensures |s.pens| > 0 ==> r.active.Some? && HasPen(s.pens, r.active.value)
    ensures |s.pens| > 0 && ActiveIndex(s) == -1 ==> r.active == Some(s.pens[0].penId)
    ensures |s.pens| > 0 && ActiveIndex(s) >= 0 ==>
      r.active == Some(s.pens[(ActiveIndex(s) + 1) % |s.pens|].penId)
  {
    if |s.pens| == 0 then s
    else if s.active.None? then PenState(s.pens, Some(s.pens[0].penId))
    else
      var idx := IndexOf(s.pens, s.active.value);
      var next := (idx + 1) % |s.pens|;
      PenState(s.pens, Some(s.pens[next].penId))
  }

  function Cycles(s: PenState, n: nat): (r: PenState)
    ensures r.pens == s.pens
    decreases n
  {
    if n == 0 then s else Cycles(Cycle(s), n - 1)
  }

  /** With distinct ids the pen at position `k` is found at `k`. */
  lemma IndexOfUnique(pens: seq<Pen>, k: nat)
    requires UniqueIds(pens) && k < |pens|
    ensures IndexOf(pens, pens[k].penId) == k
  {
  }

  /** The position after `k` in a ring of `c`. */
  function Next(k: int, c: int): int { if k + 1 == c then 0 else k + 1 }

  /** The position `n` steps after `k` in a ring of `c`. */
  function Advance(k: int, n: nat, c: int): int
    decreases n
  {
    if n == 0 then k else Advance(Next(k, c), n - 1, c)
  }

  /** Cycling `n` times from the pen at `k` lands on the pen `n` places further round. */
  lemma {:induction false} CyclesAdvance(s: PenState, n: nat)
    requires UniqueIds(s.pens) && ActiveIndex(s) >= 0
    ensures ActiveIndex(Cycles(s, n)) == Advance(ActiveIndex(s), n, |s.pens|)
    decreases n
  {
    if n > 0 {
      CycleStep(s);
      CyclesAdvance(Cycle(s), n - 1);
      CyclesUnfold(s, n);
    }
  }

  lemma CyclesUnfold(s: PenState, n: nat)
    requires n > 0
    ensures Cycles(s, n) == Cycles(Cycle(s), n - 1)
  {
  }

  lemma CycleStep(s: PenState)
    requires UniqueIds(s.pens) && ActiveIndex(s) >= 0
    ensures ActiveIndex(Cycle(s)) == Next(ActiveIndex(s), |s.pens|)
  {
    var k, c := ActiveIndex(s), |s.pens|;
    NextIsMod(k, c);
    IndexOfUnique(s.pens, Next(k, c));
  }

  lemma NextIsMod(k: int, c: int)
    requires 0 <= k < c
    ensures (k + 1) % c == Next(k, c)
  {
  }

  /** `n` steps round the ring are `(k + n) mod c`. */
  lemma {:induction false} AdvanceIsMod(k: int, n: nat, c: int)
    requires 0 <= k < c
    ensures Advance(k, n, c) == (k + n) % c
    decreases n
  {
    if n == 0 {
      ModUnique(k, 0, k, c);
    } else {
      NextIsMod(k, c);
      AdvanceIsMod(Next(k, c), n - 1, c);
      ModAddOne(k, n - 1, c, n);
    }
  }

  /** Cycling `n` times from the pen at `k` lands on the pen at `(k + n) mod Count`. */
  lemma CyclesModCount(s: PenState, n: nat)
    requires UniqueIds(s.pens) && ActiveIndex(s) >= 0
    ensures ActiveIndex(Cycles(s, n)) == (ActiveIndex(s) + n) % |s.pens|
  {
    CyclesAdvance(s, n);
    AdvanceIsMod(ActiveIndex(s), n, |s.pens|);
  }

  lemma ModAddOne(k: int, m: nat, c: int, n: int)
    requires c > 0 && k >= 0 && n == m + 1
    ensures ((k + 1) % c + m) % c == (k + n) % c
  {
    var a := k + 1;
    var y := a % c + m;
    assert a == (a / c) * c + a % c;
    assert y == (y / c) * c + y % c;
    assert a + m == (a / c + y / c) * c + y % c;
    ModUnique(a + m, a / c + y / c, y % c, c);
  }

  lemma ModUnique(y: int, q: int, r: int, c: int)
    requires c > 0 && 0 <= r < c && y == q * c + r
    ensures y % c == r
  {
    var q2, r2 := y / c, y % c;
    assert y == q2 * c + r2;
    assert (q - q2) * c == r2 - r;
    MulBound(q - q2, c);
  }

  lemma MulBound(m: int, c: int)
    requires c > 0
    ensures m >= 1 ==> m * c >= c
    ensures m <= -1 ==> m * c <= -c
  {
    if m >= 1 {
      assert m * c == c + (m - 1) * c;
      assert (m - 1) * c >= 0;
    }
    if m <= -1 {
      assert m * c == -c + (m + 1) * c;
      assert (m + 1) * c <= 0;
    }
  }

  /** With distinct ids and an active listed pen, cycling once per pen comes back to
      the pen it started from. */
  lemma CycleRoundTrip(s: PenState)
    requires UniqueIds(s.pens) && ActiveIndex(s) >= 0
    ensures Cycles(s, |s.pens|).active == s.active
  {
    var k, c := ActiveIndex(s), |s.pens|;
    CyclesAdvance(s, c);
    AdvanceRound(k, c);
    var e := Cycles(s, c);
    assert ActiveIndex(e) == k;
    assert e.pens == s.pens;
  }

  /** A full turn of the ring returns to the start. */
  lemma AdvanceRound(k: int, c: int)
    requires 0 <= k < c
    ensures Advance(k, c, c) == k
  {
    AdvanceIsMod(k, c, c);
    ModUnique(k + c, 1, k, c);
  }
}
